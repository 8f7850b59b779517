/** What the MQTT client handles over a run, and what it was sent. */
module MqttReceived {
  import Bits
  import Proto
  import opened Queue
  import opened MqttMessage
  import opened MqttStream
  import opened MqttSteps
  import opened MqttRuns

  /** The packets taken off the stream. */
  function Takes(trace: seq<Entry>): seq<seq<byte>> {
    if trace == [] then []
    else
      var e := trace[|trace| - 1];
      Takes(trace[..|trace| - 1]) + (if e.Took? then [e.msg] else [])
  }

  function DataOf(e: Event): seq<byte> {
    if e.Received? then e.data else []
  }

  /** All bytes that TCP received. */
  function DataIn(events: seq<Event>): seq<byte> {
    if events == [] then [] else DataOf(events[0]) + DataIn(events[1..])
  }

  /** Handling the front of the stream clears the buffer: the packet is malformed or too
      long, or the connection is given up over it. */
  predicate FrontClears(st: State, sendOk: bool) {
    var n := PacketLength(st.stream);
    || n < 0 || n > MQTT_BUF_SIZE
    || (0 < n <= |st.stream| && IsPacket(st.stream[..n])
        && Handled(st.v, st.stream[..n], st.code, sendOk).s == TcpReconnectDisconnecting)
  }

  /** The event clears the buffer: it overflows, or its front clears it, or the connection
      ends or begins. */
  predicate Clears(st: State, e: Event) {
    match e
    case Received(data, sendOk, _) =>
      |st.stream| + |data| > MQTT_BUF_SIZE || FrontClears(Buffered(st.v, st.stream + data, st.code), sendOk)
    case TaskRuns(sendOk, _, _) =>
      if FrontAt(st.stream, st.v.pCon, st.v.s) then FrontClears(st, sendOk)
      else st.v.s == TcpReconnect || st.v.s == TcpDisconnected
    case TcpDown => true
    case ConnectCall(_) => true
    case _ => false
  }

  predicate NothingCleared(st: State, events: seq<Event>, cfg: Config)
    decreases |events|
  {
    events == [] || (!Clears(st, events[0]) && NothingCleared(Next(st, events[0], cfg), events[1..], cfg))
  }

  /** The bytes of the packets handled, and those not handled yet. */
  function Accepted(st: State): seq<byte> {
    Flat(Takes(st.v.trace)) + st.stream
  }

  lemma TakesSnoc(trace: seq<Entry>, e: Entry)
    ensures Takes(trace + [e]) == Takes(trace) + (if e.Took? then [e.msg] else [])
  {
    assert (trace + [e])[..|trace|] == trace;
  }

  lemma HandledTakes(v: View, msg: seq<byte>, code: byte, sendOk: bool)
    requires IsPacket(msg)
    ensures Takes(Handled(v, msg, code, sendOk).trace) == Takes(v.trace) + [msg]
  {
    hide IsPacket; hide InService; hide Takes; hide Connecting;
    var live := Live(v, sendOk);
    TakesSnoc(v.trace, Took(msg, live));
    ConnectTook(Taken(v, msg, live), msg, code);
    ServiceGives(v, msg, live, sendOk);
    var w := InService(Taken(v, msg, live), msg, sendOk);
    if |w.trace| > |v.trace| + 1 {
      TakesSnoc(Taken(v, msg, live).trace, w.trace[|v.trace| + 1]);
    }
  }

  /** A packet is answered by one packet at most. */
  lemma ServiceGives(v: View, msg: seq<byte>, live: bool, sendOk: bool)
    requires IsPacket(msg)
    ensures var t, w := Taken(v, msg, live).trace, InService(Taken(v, msg, live), msg, sendOk).trace;
            w == t || (|w| == |t| + 1 && w == t + [w[|t|]] && w[|t|].Gave?)
  {
    hide IsPacket; hide IdOf; hide Pops; hide AckPacket; hide PingPacket; hide NextId;
  }

  lemma FrontAccepts(st: State, sendOk: bool)
    requires !FrontClears(st, sendOk) && AllPackets(Takes(st.v.trace))
    ensures var w := FrontStep(st, sendOk); Accepted(w) == Accepted(st) && AllPackets(Takes(w.v.trace))
  {
    hide IsPacket; hide PacketLength; hide Handled; hide Takes; hide Flat;
    var n := PacketLength(st.stream);
    if 0 < n <= |st.stream| && IsPacket(st.stream[..n]) {
      var msg, rest := st.stream[..n], st.stream[n..];
      HandledTakes(st.v, msg, st.code, sendOk);
      FlatSnoc(Takes(st.v.trace), msg);
      assert st.stream == msg + rest;
      Bits.Reassociate(Flat(Takes(st.v.trace)), msg, rest);
    }
  }

  lemma RunTakes(v: View, sendOk: bool, resolved: bool)
    ensures Takes(RunStep(v, sendOk, resolved).trace) == Takes(v.trace)
  {
    hide Queueable; hide NeedsAck; hide PingPacket; hide IdOf; hide Takes;
    TakesSnoc(v.trace, Gave(PingPacket(PINGREQ), false));
    if v.packets != [] {
      TakesSnoc(v.trace, Gave(v.packets[0], true));
    }
  }

  lemma CallTakes(v: View, topic: seq<byte>, data: seq<byte>, qos: int, retain: nat, room: nat)
    ensures PublishStep(v, topic, data, qos, retain, room).trace == v.trace
    ensures SubscribeStep(v, topic, qos, room).trace == v.trace
    ensures Enqueued(v, data, room).trace == v.trace
  {
    hide Frames; hide Proto.Frame; hide PublishPacket; hide SubscribePacket; hide NextId;
  }

  lemma StepAccepts(st: State, e: Event, cfg: Config)
    requires !Clears(st, e) && AllPackets(Takes(st.v.trace))
    ensures var w := Next(st, e, cfg); Accepted(w) == Accepted(st) + DataOf(e) && AllPackets(Takes(w.v.trace))
  {
    hide FrontStep; hide RunStep; hide FrontAt; hide PublishStep; hide SubscribeStep; hide Enqueued; hide PingPacket;
    hide FrontClears; hide Takes; hide Flat; hide AllPackets;
    assert Accepted(st) + [] == Accepted(st);
    match e
    case Received(data, sendOk, _) =>
      var more := Buffered(st.v, st.stream + data, st.code);
      Bits.Reassociate(Flat(Takes(st.v.trace)), st.stream, data);
      FrontAccepts(more, sendOk);
    case TaskRuns(sendOk, _, resolved) =>
      if FrontAt(st.stream, st.v.pCon, st.v.s) {
        FrontAccepts(st, sendOk);
      } else {
        RunTakes(st.v, sendOk, resolved);
      }
    case PublishCall(topic, data, qos, retain) => CallTakes(st.v, topic, data, qos, retain, cfg.room);
    case SubscribeCall(topic, qos) => CallTakes(st.v, topic, [], qos, 0, cfg.room);
    case PingCall => CallTakes(st.v, [], PingPacket(PINGREQ), 0, 0, cfg.room);
    case _ =>
  }

  lemma {:induction false} RunAccepts(st: State, events: seq<Event>, cfg: Config)
    requires NothingCleared(st, events, cfg) && AllPackets(Takes(st.v.trace))
    ensures var w := After(st, events, cfg); Accepted(w) == Accepted(st) + DataIn(events) && AllPackets(Takes(w.v.trace))
    decreases |events|
  {
    hide Next; hide Clears; hide Accepted; hide Takes; hide AllPackets;
    if events == [] {
      assert Accepted(st) + [] == Accepted(st);
    } else {
      StepAccepts(st, events[0], cfg);
      RunAccepts(Next(st, events[0], cfg), events[1..], cfg);
      Bits.Reassociate(Accepted(st), DataOf(events[0]), DataIn(events[1..]));
    }
  }

  /** Over every run in which nothing is cleared, the packets handled and the bytes still
      buffered are what TCP received; so when the server sends packets, whatever the cut
      into chunks, those handled are the first of them, in order. */
  lemma HandledAsReceived(code: byte, events: seq<Event>, cfg: Config, packets: seq<seq<byte>>, later: seq<byte>)
    requires NothingCleared(Initial(code), events, cfg)
    ensures var w := After(Initial(code), events, cfg);
            && Flat(Takes(w.v.trace)) + w.stream == DataIn(events)
            && (AllPackets(packets) && DataIn(events) + later == Flat(packets) ==>
                  && Takes(w.v.trace) <= packets
                  && w.stream + later == Flat(packets[|Takes(w.v.trace)|..]))
  {
    hide After; hide NothingCleared; hide AllPackets; hide Takes; hide Flat;
    var w := After(Initial(code), events, cfg);
    NothingYet(code);
    RunAccepts(Initial(code), events, cfg);
    assert [] + DataIn(events) == DataIn(events);
    if AllPackets(packets) && DataIn(events) + later == Flat(packets) {
      TakenInOrder(Takes(w.v.trace), w.stream, packets, later);
    }
  }

  lemma NothingYet(code: byte)
    ensures Accepted(Initial(code)) == [] && AllPackets(Takes(Initial(code).v.trace))
  {
  }
}
