/** How the MQTT client comes into service, keeps the connection alive, and stays away when it
    was told to disconnect. */
module MqttService {
  import Proto
  import opened Queue
  import opened MqttMessage
  import opened MqttStream
  import opened MqttSteps
  import opened MqttTrace
  import opened MqttRuns
  import opened MqttFailures

  // ---------------------------------------------------------------------------
  // Into service

  /** The return code is read where the fourth byte of the packet at the front is. */
  predicate CodeInPlace(st: State) {
    |st.stream| > 3 ==> st.code == st.stream[3]
  }

  lemma NextCode(st: State, e: Event, cfg: Config)
    requires CodeInPlace(st)
    ensures CodeInPlace(Next(st, e, cfg))
  {
    hide Handled; hide RunStep; hide Ticked; hide PublishStep; hide SubscribeStep; hide Enqueued; hide PingPacket;
    hide IsPacket; hide PacketLength; hide Connected; hide Down;
  }

  lemma {:induction false} RunCode(st: State, events: seq<Event>, cfg: Config)
    requires CodeInPlace(st)
    ensures CodeInPlace(After(st, events, cfg))
    decreases |events|
  {
    hide Next; hide CodeInPlace;
    if events != [] {
      NextCode(st, events[0], cfg);
      RunCode(Next(st, events[0], cfg), events[1..], cfg);
    }
  }

  /** An accepting CONNACK (section 3.2 of MQTT 3.1.1), if it has its four bytes. */
  predicate Accepts(e: Entry) {
    e.Took? && IsPacket(e.msg) && TypeOf(e.msg) == CONNACK && (|e.msg| > 3 ==> e.msg[3] == 0)
  }

  lemma HandledIntoService(v: View, msg: seq<byte>, code: byte, sendOk: bool)
    requires IsPacket(msg) && !Serving(v.s) && Serving(Handled(v, msg, code, sendOk).s)
    ensures v.s == MqttConnectSending && v.ack.kind == CONNECT && TypeOf(msg) == CONNACK && code == 0
    ensures Handled(v, msg, code, sendOk).trace == v.trace + [Took(msg, false)]
  {
    hide IsPacket; hide InService;
  }

  lemma FrontIntoService(st: State, sendOk: bool)
    requires CodeInPlace(st) && !Serving(st.v.s) && Serving(FrontStep(st, sendOk).v.s)
    ensures var w := FrontStep(st, sendOk).v;
            && st.v.s == MqttConnectSending && st.v.ack.kind == CONNECT
            && |w.trace| == |st.v.trace| + 1 && Accepts(w.trace[|st.v.trace|])
  {
    hide IsPacket; hide PacketLength; hide Handled;
    var n := PacketLength(st.stream);
    HandledIntoService(st.v, st.stream[..n], st.code, sendOk);
  }

  /** The calls, the task and the timer do not bring the client into service. */
  lemma CallsNotIntoService(v: View, topic: seq<byte>, data: seq<byte>, qos: int, retain: nat, room: nat)
    requires !Serving(v.s)
    ensures !Serving(PublishStep(v, topic, data, qos, retain, room).s)
    ensures !Serving(SubscribeStep(v, topic, qos, room).s)
    ensures !Serving(Enqueued(v, data, room).s)
  {
    hide Frames; hide Proto.Frame; hide PublishPacket; hide SubscribePacket; hide NextId;
  }

  lemma TaskNotIntoService(v: View, sendOk: bool, resolved: bool)
    requires !Serving(v.s)
    ensures !Serving(RunStep(v, sendOk, resolved).s)
  {
    hide SendStep; hide KeepaliveStep;
  }

  lemma TimerNotIntoService(v: View, keepalive: nat)
    requires !Serving(v.s)
    ensures !Serving(Ticked(v, keepalive).s)
  {
    hide StateTicked; hide PingTicked; hide AckTicked;
    StateNotIntoService(v, keepalive);
    WaitsNotIntoService(StateTicked(v, keepalive));
    WaitsNotIntoService(PingTicked(StateTicked(v, keepalive)));
  }

  lemma StateNotIntoService(v: View, keepalive: nat)
    requires !Serving(v.s)
    ensures !Serving(StateTicked(v, keepalive).s)
  {
  }

  lemma WaitsNotIntoService(v: View)
    requires !Serving(v.s)
    ensures !Serving(PingTicked(v).s) && !Serving(AckTicked(v).s)
  {
  }

  lemma NextIntoService(st: State, e: Event, cfg: Config)
    requires CodeInPlace(st) && !Serving(st.v.s) && Serving(Next(st, e, cfg).v.s)
    ensures var w := Next(st, e, cfg).v;
            && st.v.s == MqttConnectSending && st.v.ack.kind == CONNECT
            && |w.trace| == |st.v.trace| + 1 && Accepts(w.trace[|st.v.trace|])
  {
    hide FrontStep; hide RunStep; hide FrontAt; hide PublishStep; hide SubscribeStep; hide Enqueued; hide PingPacket;
    hide Ticked; hide Accepts;
    match e
    case Received(data, sendOk, _) =>
      FrontIntoService(Buffered(st.v, st.stream + data, st.code), sendOk);
    case TaskRuns(sendOk, _, resolved) =>
      TaskNotIntoService(st.v, sendOk, resolved);
      FrontIntoService(st, sendOk);
    case Tick => TimerNotIntoService(st.v, cfg.keepalive);
    case PublishCall(topic, data, qos, retain) => CallsNotIntoService(st.v, topic, data, qos, retain, cfg.room);
    case SubscribeCall(topic, qos) => CallsNotIntoService(st.v, topic, [], qos, 0, cfg.room);
    case PingCall => CallsNotIntoService(st.v, [], PingPacket(PINGREQ), 0, 0, cfg.room);
    case _ =>
  }

  /** In every run the client comes into service only by handling an accepting CONNACK while
      its CONNECT is awaited. */
  lemma IntoService(code: byte, events: seq<Event>, cfg: Config, k: nat)
    requires k < |events|
    requires !Serving(After(Initial(code), events[..k], cfg).v.s) && Serving(After(Initial(code), events[..k + 1], cfg).v.s)
    ensures var v, w := After(Initial(code), events[..k], cfg).v, After(Initial(code), events[..k + 1], cfg).v;
            && v.s == MqttConnectSending && v.ack.kind == CONNECT
            && |w.trace| == |v.trace| + 1 && Accepts(w.trace[|v.trace|])
  {
    hide Next; hide After; hide Accepts;
    RunCode(Initial(code), events[..k], cfg);
    AfterOneMore(Initial(code), events, k, cfg);
    NextIntoService(After(Initial(code), events[..k], cfg), events[k], cfg);
  }

  // ---------------------------------------------------------------------------
  // Keepalive

  /** In service with nothing outstanding, and no packet waiting to be handled. */
  predicate Idle(st: State) {
    && st.v.s == MqttData && st.v.pCon && st.v.armed && !st.v.ack.waiting && st.v.ack.timeout == 0 && !st.v.ping.waiting
    && !FrontAt(st.stream, true, MqttData)
  }

  lemma IdleTick(st: State, cfg: Config)
    requires Idle(st)
    ensures Next(st, Tick, cfg)
         == st.(v := st.v.(ticks := st.v.ticks.(keepAlive := st.v.ticks.keepAlive + 1),
                           s := if st.v.ticks.keepAlive + 1 > cfg.keepalive / 2 then MqttKeepaliveSend else MqttData))
  {
    hide FrontAt;
  }

  /** A client that is idle pings after more than half the keepalive time, and not before. */
  lemma {:induction false} KeepaliveComes(st: State, n: nat, cfg: Config)
    requires Idle(st) && st.v.ticks.keepAlive <= cfg.keepalive / 2
    requires st.v.ticks.keepAlive + n <= cfg.keepalive / 2 + 1
    ensures var w := After(st, Seconds(n), cfg);
            && w == st.(v := st.v.(ticks := st.v.ticks.(keepAlive := st.v.ticks.keepAlive + n), s := w.v.s))
            && w.v.s == (if st.v.ticks.keepAlive + n > cfg.keepalive / 2 then MqttKeepaliveSend else MqttData)
    decreases n
  {
    hide Next; hide FrontAt;
    if n > 0 {
      IdleTick(st, cfg);
      assert Seconds(n)[1..] == Seconds(n - 1);
      if n > 1 {
        KeepaliveComes(Next(st, Tick, cfg), n - 1, cfg);
      }
    }
  }

  /** Then the task gives TCP a PINGREQ, and its answer is awaited. */
  lemma KeepaliveSent(st: State, garbage: bool, resolved: bool, cfg: Config)
    requires Idle(st) && st.v.ticks.keepAlive <= cfg.keepalive / 2
    ensures var n := cfg.keepalive / 2 + 1 - st.v.ticks.keepAlive;
            After(st, Seconds(n) + [TaskRuns(true, garbage, resolved)], cfg)
            == st.(v := st.v.(trace := st.v.trace + [Gave([0xC0, 0], false)], ping := Ping(true, MQTT_SEND_TIMEOUT),
                              ticks := st.v.ticks.(keepAlive := 0)))
  {
    hide Next; hide FrontAt;
    var n := cfg.keepalive / 2 + 1 - st.v.ticks.keepAlive;
    KeepaliveComes(st, n, cfg);
    AfterConcat(st, Seconds(n), [TaskRuns(true, garbage, resolved)], cfg);
    AfterOne(After(st, Seconds(n), cfg), TaskRuns(true, garbage, resolved), cfg);
    PingLayout();
    PingGoesOut(After(st, Seconds(n), cfg), garbage, resolved, cfg);
  }

  lemma PingGoesOut(st: State, garbage: bool, resolved: bool, cfg: Config)
    requires st.v.s == MqttKeepaliveSend && st.v.pCon && !st.v.ack.waiting && st.v.ack.timeout == 0 && !st.v.ping.waiting
    requires !FrontAt(st.stream, true, MqttData)
    ensures Next(st, TaskRuns(true, garbage, resolved), cfg)
         == st.(v := st.v.(s := MqttData, trace := st.v.trace + [Gave(PingPacket(PINGREQ), false)],
                           ping := Ping(true, MQTT_SEND_TIMEOUT), ticks := st.v.ticks.(keepAlive := 0)))
  {
    hide PingPacket; hide PacketLength;
  }

  /** A connection that is not established within the connect timeout is begun anew, and not
      before. */
  lemma {:induction false} ConnectingTimesOut(st: State, n: nat, cfg: Config)
    requires st.v.s == TcpConnecting && st.v.armed && st.v.ack.timeout == 0 && !st.v.ping.waiting
    requires st.v.ticks.connect <= MQTT_CONNECT_TIMEOUT && st.v.ticks.connect + n <= MQTT_CONNECT_TIMEOUT + 1
    ensures After(st, Seconds(n), cfg).v.s
         == if st.v.ticks.connect + n > MQTT_CONNECT_TIMEOUT then TcpReconnect else TcpConnecting
    decreases n
  {
    hide Next;
    if n > 0 {
      ConnectingTick(st, cfg);
      assert Seconds(n)[1..] == Seconds(n - 1);
      if n > 1 {
        ConnectingTimesOut(Next(st, Tick, cfg), n - 1, cfg);
      }
    }
  }

  lemma ConnectingTick(st: State, cfg: Config)
    requires st.v.s == TcpConnecting && st.v.armed && st.v.ack.timeout == 0 && !st.v.ping.waiting
    ensures var w := Next(st, Tick, cfg).v;
            if st.v.ticks.connect + 1 > MQTT_CONNECT_TIMEOUT then w.s == TcpReconnect
            else w == st.v.(ticks := st.v.ticks.(connect := st.v.ticks.connect + 1))
  {
  }

  // ---------------------------------------------------------------------------
  // A wanted disconnect

  /** Not connected, nor about to be: the timer that would lead to a reconnect is off. */
  predicate Away(v: View) {
    !v.armed && (v.s == TcpDisconnecting || v.s == TcpDisconnected || v.s == TcpReconnectReq)
  }

  lemma HandledAway(v: View, msg: seq<byte>, code: byte, sendOk: bool)
    requires Away(v) && IsPacket(msg)
    ensures var w := Handled(v, msg, code, sendOk); Away(w) && w.s == v.s
  {
    hide IsPacket; hide InService; hide Connecting;
  }

  lemma FrontAway(st: State, sendOk: bool)
    requires Away(st.v)
    ensures var w := FrontStep(st, sendOk).v; Away(w) && w.s == st.v.s
  {
    hide IsPacket; hide PacketLength; hide Handled; hide Away;
    var n := PacketLength(st.stream);
    if 0 < n <= |st.stream| && IsPacket(st.stream[..n]) {
      HandledAway(st.v, st.stream[..n], st.code, sendOk);
    }
  }

  lemma CallsAway(v: View, topic: seq<byte>, data: seq<byte>, qos: int, retain: nat, room: nat)
    requires Away(v)
    ensures var w := PublishStep(v, topic, data, qos, retain, room); Away(w) && w.s == v.s
    ensures var w := SubscribeStep(v, topic, qos, room); Away(w) && w.s == v.s
    ensures var w := Enqueued(v, data, room); Away(w) && w.s == v.s
  {
    hide Frames; hide Proto.Frame; hide PublishPacket; hide SubscribePacket; hide NextId;
  }

  /** All events but a connection established, an address found for one, and a call to
      connect. */
  predicate Quiet(e: Event) {
    !e.TcpUp? && !e.ConnectCall? && !(e.DnsAnswer? && e.found && !e.anyAddress)
  }

  lemma NextAway(st: State, e: Event, cfg: Config)
    requires Away(st.v) && Quiet(e)
    ensures Away(Next(st, e, cfg).v)
    ensures !e.TcpDown? && !e.TcpError? && !e.DnsAnswer? && !e.DisconnectCall? ==> Next(st, e, cfg).v.s == st.v.s
  {
    hide FrontStep; hide FrontAt; hide PublishStep; hide SubscribeStep; hide Enqueued; hide PingPacket; hide SendStep; hide KeepaliveStep;
    match e
    case Received(data, sendOk, _) => FrontAway(Buffered(st.v, st.stream + data, st.code), sendOk);
    case TaskRuns(sendOk, _, _) => FrontAway(st, sendOk);
    case PublishCall(topic, data, qos, retain) => CallsAway(st.v, topic, data, qos, retain, cfg.room);
    case SubscribeCall(topic, qos) => CallsAway(st.v, topic, [], qos, 0, cfg.room);
    case PingCall => CallsAway(st.v, [], PingPacket(PINGREQ), 0, 0, cfg.room);
    case _ =>
  }

  lemma {:induction false} StaysAway(st: State, events: seq<Event>, cfg: Config)
    requires Away(st.v) && forall e <- events :: Quiet(e)
    ensures Away(After(st, events, cfg).v)
    decreases |events|
  {
    hide Next; hide Away; hide Quiet;
    if events != [] {
      NextAway(st, events[0], cfg);
      StaysAway(Next(st, events[0], cfg), events[1..], cfg);
    }
  }

  /** From MQTT_Disconnect on the client does not connect again by itself, whatever is
      received, queued or lost, unless a connection that was begun before is established
      or its address found. */
  lemma DisconnectFinal(st: State, events: seq<Event>, cfg: Config)
    requires forall e <- events :: Quiet(e)
    ensures Away(After(st, [DisconnectCall] + events, cfg).v)
  {
    hide Next; hide Away; hide Quiet;
    AfterConcat(st, [DisconnectCall], events, cfg);
    AfterOne(st, DisconnectCall, cfg);
    DisconnectBegun(st, cfg);
    StaysAway(Next(st, DisconnectCall, cfg), events, cfg);
  }

  /** When TCP confirms the disconnect, and nothing else came from it in between, the client
      is disconnected. */
  lemma {:induction false} DisconnectConfirmed(st: State, events: seq<Event>, cfg: Config)
    requires forall e <- events :: Quiet(e) && !e.TcpDown? && !e.TcpError? && !e.DnsAnswer? && !e.DisconnectCall?
    ensures After(st, [DisconnectCall] + events + [TcpDown], cfg).v.s == TcpDisconnected
  {
    hide Next; hide Away; hide Quiet;
    AfterConcat(st, [DisconnectCall] + events, [TcpDown], cfg);
    AfterConcat(st, [DisconnectCall], events, cfg);
    AfterOne(st, DisconnectCall, cfg);
    DisconnectBegun(st, cfg);
    SameState(Next(st, DisconnectCall, cfg), events, cfg);
    var w := After(st, [DisconnectCall] + events, cfg);
    AfterOne(w, TcpDown, cfg);
    DownEnds(w, cfg);
  }

  lemma {:induction false} SameState(st: State, events: seq<Event>, cfg: Config)
    requires Away(st.v)
    requires forall e <- events :: Quiet(e) && !e.TcpDown? && !e.TcpError? && !e.DnsAnswer? && !e.DisconnectCall?
    ensures After(st, events, cfg).v.s == st.v.s
    decreases |events|
  {
    hide Next; hide Away; hide Quiet;
    if events != [] {
      NextAway(st, events[0], cfg);
      SameState(Next(st, events[0], cfg), events[1..], cfg);
    }
  }

  lemma DownEnds(st: State, cfg: Config)
    ensures st.v.s == TcpDisconnecting ==> Next(st, TcpDown, cfg).v.s == TcpDisconnected
  {
  }

  lemma DisconnectBegun(st: State, cfg: Config)
    ensures var w := Next(st, DisconnectCall, cfg).v; Away(w) && w.s == TcpDisconnecting
  {
  }
}
