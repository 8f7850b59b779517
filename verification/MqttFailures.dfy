/** Runs in which the MQTT client does not do what one would ask of it, from a new client
    on. */
module MqttFailures {
  import Bits
  import Proto
  import opened Queue
  import opened MqttMessage
  import opened MqttStream
  import opened MqttSteps
  import opened MqttTrace
  import opened MqttRuns

  // ---------------------------------------------------------------------------
  // A wait that does not end

  /** A broker's PUBREC every second. */
  function Pubrecs(id: nat, n: nat): (events: seq<Event>)
    ensures |events| == 2 * n
  {
    if n == 0 then [] else [Tick, Received(AckPacket(PUBREC, id), true, false)] + Pubrecs(id, n - 1)
  }

  lemma PubrecTaken(v: View, code: byte)
    requires Inv(v) && Serving(v.s) && v.ack.waiting && v.ack.kind in {PUBLISH, PUBREL}
    ensures v.ack.id < 65536
    ensures var w := RecvStep(State(v, [], code), AckPacket(PUBREC, v.ack.id), true);
            && w.stream == [] && Serving(w.v.s) && w.v.packets == v.packets
            && w.v.ack == Ack(true, PUBREL, v.ack.id, MQTT_SEND_TIMEOUT)
  {
    hide Fifo; hide Accounted; hide OfferInv; hide IdsInv; hide AckPacket; hide IsPacket; hide PacketLength;
    hide WaitInv; hide PendingInv; hide Handled; hide IdOf; hide TypeOf;
    HeadId(v);
    var msg := AckPacket(PUBREC, v.ack.id);
    AckRoundTrip(PUBREC, v.ack.id);
    WholePacket(msg);
    AckSize(PUBREC, v.ack.id);
    assert [] + msg == msg && msg[|msg|..] == [] && msg[..|msg|] == msg;
    PubrecHandled(v, msg, msg[3]);
  }

  lemma PubrecHandled(v: View, msg: seq<byte>, code: byte)
    requires Serving(v.s) && v.pCon && v.ack.waiting && v.ack.kind in {PUBLISH, PUBREL}
    requires IsPacket(msg) && TypeOf(msg) == PUBREC && IdOf(msg) == v.ack.id
    ensures var w := Handled(v, msg, code, true);
            Serving(w.s) && w.packets == v.packets && w.ack == Ack(true, PUBREL, v.ack.id, MQTT_SEND_TIMEOUT)
  {
    hide IsPacket; hide IdOf; hide AckPacket; hide NextId;
  }

  lemma HeadId(v: View)
    requires Inv(v) && Serving(v.s) && v.ack.waiting
    ensures v.ack.id < 65536
  {
    hide Fifo; hide Accounted; hide OfferInv; hide IdsInv; hide IsPacket;
  }

  lemma WholePacket(msg: seq<byte>)
    requires IsPacket(msg)
    ensures PacketLength(msg) == |msg| >= 2
  {
  }

  lemma AckSize(kind: nat, id: nat)
    ensures |AckPacket(kind, id)| == 4
  {
    assert VarLength(2) == [2];
  }

  /** A wait that is more than a second from its end outlasts any number of seconds while
      the broker repeats PUBREC: after every part of such a run the client is in service
      and waits, and the packet stays at the front of the queue. */
  lemma {:induction false} PubrecKeepsWaiting(st: State, n: nat, k: nat, cfg: Config)
    requires Inv(st.v) && Serving(st.v.s) && st.v.ack.waiting && st.v.ack.kind in {PUBLISH, PUBREL}
    requires st.v.ack.timeout >= 2 && st.stream == [] && k <= 2 * n
    ensures var w := After(st, Pubrecs(st.v.ack.id, n)[..k], cfg);
            && Serving(w.v.s) && w.v.ack.waiting && w.v.ack.id == st.v.ack.id && w.v.packets == st.v.packets
    decreases n
  {
    hide Inv; hide Next; hide AckPacket; hide After;
    var id := st.v.ack.id;
    var events := Pubrecs(id, n);
    if k == 0 {
      assert events[..0] == [];
      AfterNone(st, cfg);
    } else {
      PubrecRound(st, cfg);
      if k == 1 {
        assert events[..1] == [Tick];
        AfterOne(st, Tick, cfg);
      } else {
        var e := Received(AckPacket(PUBREC, id), true, false);
        assert events[..k] == [Tick, e] + Pubrecs(id, n - 1)[..k - 2];
        AfterTwo(st, Tick, e, Pubrecs(id, n - 1)[..k - 2], cfg);
        PubrecKeepsWaiting(Next(Next(st, Tick, cfg), e, cfg), n - 1, k - 2, cfg);
      }
    }
  }

  lemma PubrecRound(st: State, cfg: Config)
    requires Inv(st.v) && Serving(st.v.s) && st.v.ack.waiting && st.v.ack.kind in {PUBLISH, PUBREL}
    requires st.v.ack.timeout >= 2 && st.stream == []
    ensures var w := Next(st, Tick, cfg);
            Serving(w.v.s) && w.v.ack.waiting && w.v.ack.id == st.v.ack.id && w.v.packets == st.v.packets
    ensures var w := Next(Next(st, Tick, cfg), Received(AckPacket(PUBREC, st.v.ack.id), true, false), cfg);
            && Inv(w.v) && Serving(w.v.s) && w.v.packets == st.v.packets && w.stream == []
            && w.v.ack == Ack(true, PUBREL, st.v.ack.id, MQTT_SEND_TIMEOUT)
  {
    hide Inv; hide RecvStep; hide AckPacket; hide Ticked;
    var ticked := Next(st, Tick, cfg);
    TickGoesOn(st.v, cfg.keepalive);
    NextKeeps(st, Tick, cfg);
    PubrecTaken(ticked.v, ticked.code);
    NextKeeps(ticked, Received(AckPacket(PUBREC, st.v.ack.id), true, false), cfg);
  }

  lemma AfterTwo(st: State, a: Event, b: Event, events: seq<Event>, cfg: Config)
    ensures After(st, [a, b] + events, cfg) == After(Next(Next(st, a, cfg), b, cfg), events, cfg)
  {
    hide Next;
    assert ([a, b] + events)[1..] == [b] + events;
    assert ([b] + events)[1..] == events;
  }

  lemma TickGoesOn(v: View, keepalive: nat)
    requires Inv(v) && Serving(v.s) && v.ack.waiting && v.ack.timeout >= 2
    ensures var w := Ticked(v, keepalive);
            && Serving(w.s) && w.ack == v.ack.(timeout := v.ack.timeout - 1) && w.packets == v.packets
  {
    hide Fifo; hide Accounted; hide OfferInv; hide IdsInv; hide PendingInv;
  }

  // ---------------------------------------------------------------------------
  // Reconnecting

  function TicksOn(v: View, keepalive: nat, n: nat): View
    decreases n
  {
    if n == 0 then v else TicksOn(Ticked(v, keepalive), keepalive, n - 1)
  }

  function Seconds(n: nat): (events: seq<Event>)
    ensures |events| == n
  {
    if n == 0 then [] else [Tick] + Seconds(n - 1)
  }

  lemma {:induction false} SecondsPass(st: State, n: nat, cfg: Config)
    requires st.v.armed
    ensures After(st, Seconds(n), cfg) == st.(v := TicksOn(st.v, cfg.keepalive, n))
    decreases n
  {
    hide Ticked;
    if n > 0 {
      StaysArmed(st.v, cfg.keepalive);
      assert Seconds(n)[1..] == Seconds(n - 1);
      SecondsPass(st.(v := Ticked(st.v, cfg.keepalive)), n - 1, cfg);
    }
  }

  lemma StaysArmed(v: View, keepalive: nat)
    ensures Ticked(v, keepalive).armed == v.armed
  {
  }

  lemma {:induction false} TornStays(v: View, keepalive: nat, n: nat)
    requires v.s == TcpReconnectDisconnecting
    ensures TicksOn(v, keepalive, n).s == TcpReconnectDisconnecting
    decreases n
  {
    if n > 0 {
      TornStays(Ticked(v, keepalive), keepalive, n - 1);
    }
  }

  /** While nothing else happens, a client that asked for a reconnect gets to it by the
      timer alone if and only if no wait of the lost connection runs out first. */
  lemma {:induction false} ReconnectsInTime(v: View, keepalive: nat, n: nat)
    requires v.s == TcpReconnectReq && n > 0 && v.ticks.reconnect + n == MQTT_RECONNECT_TIMEOUT + 1
    ensures TicksOn(v, keepalive, n).s == TcpReconnect <==>
              !(0 < v.ack.timeout <= n) && !(v.ping.waiting && 0 < v.ping.timeout <= n)
    ensures TicksOn(v, keepalive, n).s in {TcpReconnect, TcpReconnectDisconnecting}
    decreases n
  {
    hide Ticked;
    WhileReconnecting(v, keepalive);
    var w := Ticked(v, keepalive);
    if w.s == TcpReconnectDisconnecting {
      TornStays(w, keepalive, n - 1);
    } else if n > 1 {
      ReconnectsInTime(w, keepalive, n - 1);
    }
  }

  lemma WhileReconnecting(v: View, keepalive: nat)
    requires v.s == TcpReconnectReq
    ensures var w := Ticked(v, keepalive);
            if v.ack.timeout == 1 || (v.ping.waiting && v.ping.timeout == 1) then w.s == TcpReconnectDisconnecting
            else
              && w.s == (if v.ticks.reconnect >= MQTT_RECONNECT_TIMEOUT then TcpReconnect else TcpReconnectReq)
              && (w.s == TcpReconnectReq ==> w.ticks.reconnect == v.ticks.reconnect + 1)
              && w.ack.timeout == Bits.Pred(v.ack.timeout)
              && w.ping == if v.ping.waiting then Ping(true, Bits.Pred(v.ping.timeout)) else v.ping
  {
  }

  /** After a connection error, which clears no wait, one does: with anything awaited the
      client ends up tearing down what is already gone, and not at the reconnect it asked
      for. */
  lemma ErrorWhileWaiting(st: State, cfg: Config)
    requires Inv(st.v) && Waiting(st.v) && st.v.ticks.reconnect == 0
    ensures After(st, [TcpError] + Seconds(MQTT_RECONNECT_TIMEOUT + 1), cfg).v.s == TcpReconnectDisconnecting
  {
    hide Fifo; hide Accounted; hide OfferInv; hide IdsInv; hide PendingInv; hide TicksOn; hide Seconds; hide After;
    var v := st.v.(s := TcpReconnectReq);
    ErrorThenSeconds(st, cfg);
    ReconnectsInTime(v, cfg.keepalive, MQTT_RECONNECT_TIMEOUT + 1);
  }

  lemma ErrorThenSeconds(st: State, cfg: Config)
    requires st.v.armed
    ensures After(st, [TcpError] + Seconds(MQTT_RECONNECT_TIMEOUT + 1), cfg)
            == st.(v := TicksOn(st.v.(s := TcpReconnectReq), cfg.keepalive, MQTT_RECONNECT_TIMEOUT + 1))
  {
    hide TicksOn; hide Seconds;
    var seconds := Seconds(MQTT_RECONNECT_TIMEOUT + 1);
    assert ([TcpError] + seconds)[1..] == seconds;
    SecondsPass(st.(v := st.v.(s := TcpReconnectReq)), MQTT_RECONNECT_TIMEOUT + 1, cfg);
  }

  // ---------------------------------------------------------------------------
  // Runs that go wrong

  /** CONNACK, connection accepted. */
  const ACCEPTED: seq<byte> := [0x20, 2, 0, 0]

  /** A client connects and is accepted. */
  const TO_SERVICE: seq<Event> := [ConnectCall(true), TcpUp(true, true), Received(ACCEPTED, true, false)]

  lemma AcceptedPacket()
    ensures PacketLength(ACCEPTED) == 4 && IsPacket(ACCEPTED) && TypeOf(ACCEPTED) == CONNACK
    ensures ACCEPTED[..4] == ACCEPTED && ACCEPTED[4..] == []
  {
    assert LengthFrom(ACCEPTED, 1, 4) == Total(2, 2);
  }

  lemma AcceptedNow(v: View, code: byte)
    requires v.s == MqttConnectSending && v.ack.kind == CONNECT
    ensures RecvStep(State(v, [], code), ACCEPTED, true)
            == State(v.(trace := v.trace + [Took(ACCEPTED, false)], ack := NO_ACK, s := MqttData), [], 0)
  {
    hide PacketLength; hide IsPacket; hide TypeOf;
    AcceptedPacket();
    assert [] + ACCEPTED == ACCEPTED;
  }

  /** From any state in which MQTT_Connect is called. */
  lemma InServiceAgain(st: State, cfg: Config)
    ensures After(st, TO_SERVICE, cfg)
            == State(st.v.(s := MqttData, pCon := true, up := true, armed := true, ack := NO_ACK, ping := NO_PING,
                           ticks := Ticks(0, 0, 0), id := 0, ids := [], queuedBefore := |st.v.enqueued|,
                           trace := st.v.trace + [Took(ACCEPTED, false)]), [], 0)
  {
    hide RecvStep;
    var begun := Next(st, ConnectCall(true), cfg);
    var up := Next(begun, TcpUp(true, true), cfg);
    AcceptedNow(up.v, up.code);
    assert TO_SERVICE == [ConnectCall(true), TcpUp(true, true)] + [Received(ACCEPTED, true, false)];
    AfterTwo(st, ConnectCall(true), TcpUp(true, true), [Received(ACCEPTED, true, false)], cfg);
    AfterOne(up, Received(ACCEPTED, true, false), cfg);
  }

  predicate Fits(topic: seq<byte>, data: seq<byte>, qos: nat) {
    topic != [] && qos <= 2 && 5 + |topic| + (if qos > 0 then 2 else 0) + |data| <= MQTT_BUF_SIZE
  }

  /** The packet that a publish makes of the id it gets. */
  function Made(topic: seq<byte>, data: seq<byte>, qos: nat, id: nat): seq<byte> {
    PublishPacket(topic, data, qos, 0, if qos > 0 then id else 0)
  }

  /** A publish, a lost connection, a reconnect, and another publish. */
  function ReconnectRun(t1: seq<byte>, d1: seq<byte>, t2: seq<byte>, d2: seq<byte>): seq<Event> {
    TO_SERVICE + ([PublishCall(t1, d1, 1, 0), TcpDown] + (TO_SERVICE + [PublishCall(t2, d2, 1, 0)]))
  }

  /** Every TCP connect begins the packet ids anew, and what was queued before is still
      queued: a packet that waits through a reconnect shares its id with the next one. */
  lemma TwoPacketsOneId(t1: seq<byte>, d1: seq<byte>, t2: seq<byte>, d2: seq<byte>, code: byte, cfg: Config)
    requires Fits(t1, d1, 1) && Fits(t2, d2, 1) && d1 != [] && d2 != []
    requires |Proto.Frame(Made(t1, d1, 1, 1))| + |Proto.Frame(Made(t2, d2, 1, 1))| <= cfg.room
    ensures var p1, p2 := Made(t1, d1, 1, 1), Made(t2, d2, 1, 1);
            && After(Initial(code), ReconnectRun(t1, d1, t2, d2), cfg).v.packets == [p1, p2]
            && IsPacket(p1) && IsPacket(p2) && IdOf(p1) == 1 && IdOf(p2) == 1
  {
    hide Proto.Frame; hide PublishPacket; hide After; hide IsPacket; hide IdOf;
    var st, p1, p2 := Initial(code), Made(t1, d1, 1, 1), Made(t2, d2, 1, 1);
    var again := TO_SERVICE + [PublishCall(t2, d2, 1, 0)];
    InServiceAgain(st, cfg);
    var a := After(st, TO_SERVICE, cfg);
    AfterConcat(st, TO_SERVICE, [PublishCall(t1, d1, 1, 0), TcpDown] + again, cfg);
    AfterTwo(a, PublishCall(t1, d1, 1, 0), TcpDown, again, cfg);
    FrameOne(p1);
    var b := Next(Next(a, PublishCall(t1, d1, 1, 0), cfg), TcpDown, cfg);
    assert b.v.packets == [p1];
    InServiceAgain(b, cfg);
    var c := After(b, TO_SERVICE, cfg);
    AfterConcat(b, TO_SERVICE, [PublishCall(t2, d2, 1, 0)], cfg);
    AfterOne(c, PublishCall(t2, d2, 1, 0), cfg);
    PublishRoundTrip(t1, d1, 1, 0, 1);
    PublishRoundTrip(t2, d2, 1, 0, 1);
  }

  lemma FrameOne(p: seq<byte>)
    ensures Frames([]) == [] && Frames([p]) == Proto.Frame(p)
  {
    hide Proto.Frame;
    assert [p][1..] == [];
  }

  /** A QoS 0 and a QoS 1 publish, the task, and a PUBACK of id 0. */
  function StrayRun(t1: seq<byte>, d1: seq<byte>, t2: seq<byte>, d2: seq<byte>): seq<Event> {
    TO_SERVICE + ([PublishCall(t1, d1, 0, 0), PublishCall(t2, d2, 1, 0)]
                  + [TaskRuns(true, false, true), Received(AckPacket(PUBACK, 0), true, false)])
  }

  /** A broker that acknowledges id 0 makes the client drop a packet that it never sent:
      all that passed are CONNACK, the other packet, and the ack. */
  lemma StrayAckDropsUnsent(t1: seq<byte>, d1: seq<byte>, t2: seq<byte>, d2: seq<byte>, code: byte, cfg: Config)
    requires Fits(t1, d1, 0) && Fits(t2, d2, 1)
    requires |Proto.Frame(Made(t1, d1, 0, 0))| + |Proto.Frame(Made(t2, d2, 1, 1))| <= cfg.room
    ensures var p1, p2, v := Made(t1, d1, 0, 0), Made(t2, d2, 1, 1), After(Initial(code), StrayRun(t1, d1, t2, d2), cfg).v;
            && v.enqueued == [p1, p2] && v.packets == []
            && v.departed == [SentOnce(p1, 1), Dropped(p2, 2)]
            && v.trace == [Took(ACCEPTED, false), Gave(p1, true), Took(AckPacket(PUBACK, 0), true)]
            && p1 != p2
  {
    hide Proto.Frame; hide PublishPacket; hide After; hide IsPacket; hide IdOf; hide TaskStep; hide RecvStep; hide AckPacket;
    var st, p1, p2 := Initial(code), Made(t1, d1, 0, 0), Made(t2, d2, 1, 1);
    var calls := [PublishCall(t1, d1, 0, 0), PublishCall(t2, d2, 1, 0)];
    var last := [TaskRuns(true, false, true), Received(AckPacket(PUBACK, 0), true, false)];
    InServiceAgain(st, cfg);
    var a := After(st, TO_SERVICE, cfg);
    AfterConcat(st, TO_SERVICE, calls + last, cfg);
    AfterTwo(a, calls[0], calls[1], last, cfg);
    TwoPublished(a, t1, d1, t2, d2, cfg);
    var b := Next(Next(a, calls[0], cfg), calls[1], cfg);
    PublishRoundTrip(t1, d1, 0, 0, 0);
    PublishRoundTrip(t2, d2, 1, 0, 1);
    PublishQueueable(t1, d1, 0, 0, 0);
    TaskSends(b, p1);
    var c := Next(b, last[0], cfg);
    StrayTaken(c.v, c.code);
    assert last + [] == last;
    AfterTwo(b, last[0], last[1], [], cfg);
    AfterNone(Next(c, last[1], cfg), cfg);
  }

  lemma TwoPublished(st: State, t1: seq<byte>, d1: seq<byte>, t2: seq<byte>, d2: seq<byte>, cfg: Config)
    requires Fits(t1, d1, 0) && Fits(t2, d2, 1) && st.v.packets == [] && st.v.enqueued == [] && st.v.id == 0
    requires |Proto.Frame(Made(t1, d1, 0, 0))| + |Proto.Frame(Made(t2, d2, 1, 1))| <= cfg.room
    ensures var p1, p2 := Made(t1, d1, 0, 0), Made(t2, d2, 1, 1);
            Next(Next(st, PublishCall(t1, d1, 0, 0), cfg), PublishCall(t2, d2, 1, 0), cfg)
            == st.(v := st.v.(packets := [p1, p2], enqueued := [p1, p2], id := 1, ids := st.v.ids + [1]))
  {
    hide Proto.Frame; hide PublishPacket; hide Frames;
    var p1, p2 := Made(t1, d1, 0, 0), Made(t2, d2, 1, 1);
    FrameOne(p1);
    var b := Next(st, PublishCall(t1, d1, 0, 0), cfg);
    assert [] + [p1] == [p1] && [p1] + [p2] == [p1, p2];
    assert b == st.(v := st.v.(packets := [p1], enqueued := [p1]));
  }

  lemma AfterNone(st: State, cfg: Config)
    ensures After(st, [], cfg) == st
  {
  }

  lemma TaskSends(st: State, p: seq<byte>)
    requires st.stream == [] && st.v.s == MqttData && st.v.pCon && st.v.ack == NO_ACK && st.v.ping == NO_PING
    requires st.v.packets != [] && st.v.packets[0] == p && Queueable(p) && !NeedsAck(p)
    ensures TaskStep(st, true, true)
            == st.(v := st.v.(trace := st.v.trace + [Gave(p, true)], ack := Ack(false, PUBLISH, 0, MQTT_SEND_TIMEOUT),
                              offered := |st.v.trace|, packets := st.v.packets[1..],
                              departed := st.v.departed + [SentOnce(p, |st.v.trace|)]))
  {
    hide Queueable; hide IsPacket; hide IdOf; hide NeedsAck;
    NoIdWithoutAck(p);
    assert PacketLength([]) == 0;
  }

  lemma StrayTaken(v: View, code: byte)
    requires v.s == MqttData && v.pCon && !v.ack.waiting && v.ack.kind == PUBLISH && v.ack.id == 0 && |v.packets| == 1
    ensures var w := RecvStep(State(v, [], code), AckPacket(PUBACK, 0), true).v;
            && w.packets == [] && w.enqueued == v.enqueued
            && w.departed == v.departed + [Dropped(v.packets[0], |v.trace|)]
            && w.trace == v.trace + [Took(AckPacket(PUBACK, 0), true)]
  {
    hide AckPacket; hide IsPacket; hide PacketLength; hide IdOf;
    var msg := AckPacket(PUBACK, 0);
    AckRoundTrip(PUBACK, 0);
    WholePacket(msg);
    AckSize(PUBACK, 0);
    assert [] + msg == msg && msg[|msg|..] == [] && msg[..|msg|] == msg;
  }

  lemma SaneRuns(t1: seq<byte>, d1: seq<byte>, t2: seq<byte>, d2: seq<byte>)
    requires 0 !in t1 && 0 !in t2
    ensures AllSane(ReconnectRun(t1, d1, t2, d2)) && AllSane(StrayRun(t1, d1, t2, d2))
  {
    hide AckPacket;
  }

  /** MQTT_Disconnect stops the timer. A connection that is established all the same comes
      into use, and its wait for CONNACK never ends, however many seconds pass. */
  lemma DisconnectTooEarly(code: byte, n: nat, cfg: Config)
    ensures var v := After(Initial(code), [ConnectCall(true), DisconnectCall] + ([TcpUp(true, true)] + Seconds(n)), cfg).v;
            v.s == MqttConnectSending && v.ack == Ack(true, CONNECT, 0, MQTT_SEND_TIMEOUT)
  {
    hide Next; hide After;
    var st, events := Initial(code), [TcpUp(true, true)] + Seconds(n);
    AfterTwo(st, ConnectCall(true), DisconnectCall, events, cfg);
    var w := Next(Next(st, ConnectCall(true), cfg), DisconnectCall, cfg);
    AfterConcat(w, [TcpUp(true, true)], Seconds(n), cfg);
    AfterOne(w, TcpUp(true, true), cfg);
    UpAfterDisconnect(code, cfg);
    NoSeconds(Next(w, TcpUp(true, true), cfg), n, cfg);
  }

  lemma UpAfterDisconnect(code: byte, cfg: Config)
    ensures var w := Next(Next(Next(Initial(code), ConnectCall(true), cfg), DisconnectCall, cfg), TcpUp(true, true), cfg).v;
            w.s == MqttConnectSending && w.ack == Ack(true, CONNECT, 0, MQTT_SEND_TIMEOUT) && !w.armed
  {
  }

  lemma {:induction false} NoSeconds(st: State, n: nat, cfg: Config)
    requires !st.v.armed
    ensures After(st, Seconds(n), cfg) == st
    decreases n
  {
    if n > 0 {
      assert Seconds(n)[1..] == Seconds(n - 1);
      NoSeconds(st, n - 1, cfg);
    }
  }

  // ---------------------------------------------------------------------------
  // Runs with one publish

  /** Into service, a publish, and the task. */
  function SentRun(topic: seq<byte>, data: seq<byte>, qos: nat): seq<Event> {
    TO_SERVICE + [PublishCall(topic, data, qos, 0), TaskRuns(true, false, true)]
  }

  /** A client that has sent p and waits for its ack. */
  function SentState(p: seq<byte>): State {
    State(View(MqttData, true, true, true, Ack(true, PUBLISH, IdOf(p), MQTT_SEND_TIMEOUT), NO_PING, Ticks(0, 0, 0), [p], 1,
               [p], [], [Took(ACCEPTED, false), Gave(p, true)], 1, [1], 0), [], 0)
  }

  lemma SentRunSends(topic: seq<byte>, data: seq<byte>, qos: nat, code: byte, cfg: Config)
    requires Fits(topic, data, qos) && qos > 0 && |Proto.Frame(Made(topic, data, qos, 1))| <= cfg.room
    ensures var p := Made(topic, data, qos, 1);
            && After(Initial(code), SentRun(topic, data, qos), cfg) == SentState(p)
            && Queueable(p) && TypeOf(p) == PUBLISH && QosOf(p) == qos && NeedsAck(p)
            && IdOf(p) == if data == [] then 0 else 1
  {
    hide Proto.Frame; hide PublishPacket; hide After; hide IsPacket; hide IdOf; hide TaskStep; hide Frames;
    var st, p := Initial(code), Made(topic, data, qos, 1);
    InServiceAgain(st, cfg);
    var a := After(st, TO_SERVICE, cfg);
    var calls := [PublishCall(topic, data, qos, 0), TaskRuns(true, false, true)];
    AfterConcat(st, TO_SERVICE, calls, cfg);
    assert calls + [] == calls;
    AfterTwo(a, calls[0], calls[1], [], cfg);
    PublishQueueable(topic, data, qos, 0, 1);
    PublishRoundTrip(topic, data, qos, 0, 1);
    FrameOne(p);
    assert [] + [p] == [p] && [] + [1] == [1];
    var b := Next(a, calls[0], cfg);
    TaskSendsAwaited(b, p);
    AfterNone(Next(b, calls[1], cfg), cfg);
    assert [] + [Took(ACCEPTED, false)] == [Took(ACCEPTED, false)];
    assert [Took(ACCEPTED, false)] + [Gave(p, true)] == [Took(ACCEPTED, false), Gave(p, true)];
  }

  lemma TaskSendsAwaited(st: State, p: seq<byte>)
    requires st.stream == [] && st.v.s == MqttData && st.v.pCon && st.v.ack == NO_ACK && st.v.ping == NO_PING
    requires st.v.packets != [] && st.v.packets[0] == p && Queueable(p) && NeedsAck(p)
    ensures TaskStep(st, true, true)
            == st.(v := st.v.(trace := st.v.trace + [Gave(p, true)], offered := |st.v.trace|,
                              ack := Ack(true, TypeOf(p), IdOf(p), MQTT_SEND_TIMEOUT)))
  {
    hide Queueable; hide IsPacket; hide IdOf; hide NeedsAck;
    assert PacketLength([]) == 0;
  }

  lemma SentStateInv(topic: seq<byte>, data: seq<byte>, qos: nat, code: byte, cfg: Config)
    requires Fits(topic, data, qos) && qos > 0 && |Proto.Frame(Made(topic, data, qos, 1))| <= cfg.room && 0 !in topic
    ensures Inv(SentState(Made(topic, data, qos, 1)).v)
  {
    hide Proto.Frame; hide Made; hide After; hide SentState; hide Inv; hide SentRun; hide Fits;
    SentRunSends(topic, data, qos, code, cfg);
    InitialInv(code);
    SentRunSane(topic, data, qos);
    RunKeeps(Initial(code), SentRun(topic, data, qos), cfg);
  }

  lemma SentRunSane(topic: seq<byte>, data: seq<byte>, qos: nat)
    requires 0 !in topic
    ensures AllSane(SentRun(topic, data, qos))
  {
  }

  /** An acknowledgement of four bytes arrives in an empty buffer. */
  lemma AckArrives(st: State, kind: nat, id: nat, cfg: Config)
    requires st.stream == [] && kind in {PUBACK, PUBREC, PUBREL, PUBCOMP} && id < 65536
    ensures var msg := AckPacket(kind, id);
            && IsPacket(msg) && TypeOf(msg) == kind && IdOf(msg) == id && |msg| == 4
            && Next(st, Received(msg, true, false), cfg) == State(Handled(st.v, msg, msg[3], true), [], msg[3])
  {
    hide AckPacket; hide IsPacket; hide PacketLength; hide IdOf; hide Handled; hide TypeOf;
    var msg := AckPacket(kind, id);
    AckRoundTrip(kind, id);
    WholePacket(msg);
    AckSize(kind, id);
    assert [] + msg == msg && msg[|msg|..] == [] && msg[..|msg|] == msg;
  }

  /** One event more. */
  lemma AfterSnoc(st: State, events: seq<Event>, e: Event, cfg: Config)
    ensures After(st, events + [e], cfg) == Next(After(st, events, cfg), e, cfg)
  {
    hide Next; hide After;
    AfterConcat(st, events, [e], cfg);
    AfterOne(After(st, events, cfg), e, cfg);
  }

  function AckIn(kind: nat, id: nat): Event {
    Received(AckPacket(kind, id), true, false)
  }

  /** A QoS 2 packet leaves on a PUBACK, without PUBREC and PUBCOMP. */
  lemma PubackEndsQos2(topic: seq<byte>, data: seq<byte>, code: byte, cfg: Config)
    requires Fits(topic, data, 2) && data != [] && |Proto.Frame(Made(topic, data, 2, 1))| <= cfg.room
    ensures var p, v := Made(topic, data, 2, 1), After(Initial(code), SentRun(topic, data, 2) + [AckIn(PUBACK, 1)], cfg).v;
            && QosOf(p) == 2 && v.enqueued == [p] && v.packets == [] && v.departed == [Acked(p, 1, 2)]
            && v.trace == [Took(ACCEPTED, false), Gave(p, true), Took(AckPacket(PUBACK, 1), true)]
  {
    hide Proto.Frame; hide Made; hide After; hide SentRun; hide IsPacket; hide IdOf; hide AckPacket; hide TypeOf; hide QosOf;
    hide Next; hide Fits;
    var st, p := Initial(code), Made(topic, data, 2, 1);
    SentRunSends(topic, data, 2, code, cfg);
    AfterSnoc(st, SentRun(topic, data, 2), AckIn(PUBACK, 1), cfg);
    AckArrives(SentState(p), PUBACK, 1, cfg);
    MadeIsPacket(topic, data, 2, 1);
  }

  lemma MadeIsPacket(topic: seq<byte>, data: seq<byte>, qos: nat, id: nat)
    requires Fits(topic, data, qos) && id < 65536
    ensures Made(topic, data, qos, id) != [] && QosOf(Made(topic, data, qos, id)) == qos
  {
    hide PublishPacket; hide IsPacket;
    PublishRoundTrip(topic, data, qos, 0, if qos > 0 then id else 0);
  }

  /** A QoS 1 packet leaves on a PUBCOMP, after a PUBREC. */
  lemma PubcompEndsQos1(topic: seq<byte>, data: seq<byte>, code: byte, cfg: Config)
    requires Fits(topic, data, 1) && data != [] && |Proto.Frame(Made(topic, data, 1, 1))| <= cfg.room
    ensures var p := Made(topic, data, 1, 1);
            var v := After(Initial(code), SentRun(topic, data, 1) + [AckIn(PUBREC, 1)] + [AckIn(PUBCOMP, 1)], cfg).v;
            && QosOf(p) == 1 && v.enqueued == [p] && v.packets == [] && v.departed == [Acked(p, 1, 4)]
            && v.trace == [Took(ACCEPTED, false), Gave(p, true), Took(AckPacket(PUBREC, 1), true), Gave(AckPacket(PUBREL, 1), false),
                           Took(AckPacket(PUBCOMP, 1), true)]
  {
    hide Proto.Frame; hide Made; hide After; hide SentRun; hide IsPacket; hide IdOf; hide AckPacket; hide TypeOf; hide QosOf;
    hide Next; hide Fits;
    var st, p := Initial(code), Made(topic, data, 1, 1);
    SentRunSends(topic, data, 1, code, cfg);
    AfterSnoc(st, SentRun(topic, data, 1), AckIn(PUBREC, 1), cfg);
    AfterSnoc(st, SentRun(topic, data, 1) + [AckIn(PUBREC, 1)], AckIn(PUBCOMP, 1), cfg);
    AckArrives(SentState(p), PUBREC, 1, cfg);
    AckArrives(Next(SentState(p), AckIn(PUBREC, 1), cfg), PUBCOMP, 1, cfg);
    MadeIsPacket(topic, data, 1, 1);
  }

  /** A QoS 1 packet without payload stays, whatever is acknowledged: its own PUBACK, with
      the id it carries, leaves it waiting. */
  lemma EmptyPayloadWaits(topic: seq<byte>, code: byte, cfg: Config)
    requires Fits(topic, [], 1) && |Proto.Frame(Made(topic, [], 1, 1))| <= cfg.room
    ensures var p, v := Made(topic, [], 1, 1), After(Initial(code), SentRun(topic, [], 1) + [AckIn(PUBACK, 1)], cfg).v;
            && Unackable(p) && v.packets == [p] && v.departed == []
            && Serving(v.s) && v.ack == Ack(true, PUBLISH, 0, MQTT_SEND_TIMEOUT)
            && v.trace == [Took(ACCEPTED, false), Gave(p, true), Took(AckPacket(PUBACK, 1), true)]
  {
    hide Proto.Frame; hide Made; hide After; hide SentRun; hide IsPacket; hide IdOf; hide AckPacket; hide TypeOf; hide QosOf;
    hide Next; hide Fits;
    var st, p := Initial(code), Made(topic, [], 1, 1);
    SentRunSends(topic, [], 1, code, cfg);
    AfterSnoc(st, SentRun(topic, [], 1), AckIn(PUBACK, 1), cfg);
    AckArrives(SentState(p), PUBACK, 1, cfg);
  }

  /** A run in which PUBREC keeps a client waiting. */
  lemma PubrecRun(topic: seq<byte>, data: seq<byte>, qos: nat, n: nat, k: nat, code: byte, cfg: Config)
    requires Fits(topic, data, qos) && qos > 0 && data != [] && 0 !in topic && k <= 2 * n
    requires |Proto.Frame(Made(topic, data, qos, 1))| <= cfg.room
    ensures var w := After(Initial(code), SentRun(topic, data, qos) + Pubrecs(1, n)[..k], cfg);
            Serving(w.v.s) && w.v.ack.waiting && w.v.packets == [Made(topic, data, qos, 1)]
  {
    hide Proto.Frame; hide Made; hide After; hide SentRun; hide IsPacket; hide IdOf; hide Inv; hide Pubrecs; hide Fits;
    hide TypeOf; hide QosOf;
    SentRunSends(topic, data, qos, code, cfg);
    SentStateInv(topic, data, qos, code, cfg);
    AfterConcat(Initial(code), SentRun(topic, data, qos), Pubrecs(1, n)[..k], cfg);
    PubrecKeepsWaiting(SentState(Made(topic, data, qos, 1)), n, k, cfg);
  }

  /** A run in which a connection error ends in a teardown. */
  lemma ErrorRun(topic: seq<byte>, data: seq<byte>, qos: nat, code: byte, cfg: Config)
    requires Fits(topic, data, qos) && qos > 0 && 0 !in topic && |Proto.Frame(Made(topic, data, qos, 1))| <= cfg.room
    ensures After(Initial(code), SentRun(topic, data, qos) + ([TcpError] + Seconds(MQTT_RECONNECT_TIMEOUT + 1)), cfg).v.s
            == TcpReconnectDisconnecting
  {
    hide Proto.Frame; hide Made; hide After; hide SentRun; hide IsPacket; hide IdOf; hide Inv; hide Seconds; hide Fits;
    hide TypeOf; hide QosOf;
    SentRunSends(topic, data, qos, code, cfg);
    SentStateInv(topic, data, qos, code, cfg);
    AfterConcat(Initial(code), SentRun(topic, data, qos), [TcpError] + Seconds(MQTT_RECONNECT_TIMEOUT + 1), cfg);
    ErrorWhileWaiting(SentState(Made(topic, data, qos, 1)), cfg);
  }

  /** A packet that was sent before the connection was lost is sent again with the same
      bytes, so its DUP flag is 0 (section 3.3.1.1 of MQTT 3.1.1 asks for 1). */
  lemma ResentWithoutDup(topic: seq<byte>, data: seq<byte>, qos: nat, code: byte, cfg: Config)
    requires Fits(topic, data, qos) && qos > 0 && |Proto.Frame(Made(topic, data, qos, 1))| <= cfg.room
    ensures var p := Made(topic, data, qos, 1);
            var events := SentRun(topic, data, qos) + [TcpDown] + TO_SERVICE + [TaskRuns(true, false, true)];
            && After(Initial(code), events, cfg).v.trace
               == [Took(ACCEPTED, false), Gave(p, true), Took(ACCEPTED, false), Gave(p, true)]
            && p[0] / 8 % 2 == 0
  {
    hide Proto.Frame; hide After; hide SentRun; hide IsPacket; hide IdOf; hide TypeOf; hide QosOf; hide PublishPacket;
    hide Queueable; hide NeedsAck; hide TaskStep; hide Made;
    var st, p := Initial(code), Made(topic, data, qos, 1);
    SentRunSends(topic, data, qos, code, cfg);
    AfterSnoc(st, SentRun(topic, data, qos), TcpDown, cfg);
    AfterConcat(st, SentRun(topic, data, qos) + [TcpDown], TO_SERVICE, cfg);
    var down := Next(SentState(p), TcpDown, cfg);
    InServiceAgain(down, cfg);
    AfterSnoc(st, SentRun(topic, data, qos) + [TcpDown] + TO_SERVICE, TaskRuns(true, false, true), cfg);
    TaskSendsAwaited(After(down, TO_SERVICE, cfg), p);
    NoDup(topic, data, qos);
  }

  lemma NoDup(topic: seq<byte>, data: seq<byte>, qos: nat)
    requires qos <= 2
    ensures Made(topic, data, qos, 1) != [] && Made(topic, data, qos, 1)[0] / 8 % 2 == 0
  {
  }
}
