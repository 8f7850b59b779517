/** The MQTT client as a state machine: its state as a value, and what each callback,
    timer tick, task run and call does to it. The network, the broker and the order of
    events are arbitrary. The class in MqttClient takes these steps; MqttRuns proves what
    holds over all runs of them. */
module MqttSteps {
  import Bits
  import Proto
  import opened Queue
  import opened MqttMessage
  import opened MqttStream

  const MQTT_SEND_TIMEOUT: nat := 5
  const MQTT_RECONNECT_TIMEOUT: nat := 5
  const MQTT_CONNECT_TIMEOUT: nat := 5

  datatype ConnState =
    | WifiInit | TcpDisconnecting | TcpDisconnected | TcpReconnectDisconnecting | TcpReconnectReq | TcpReconnect
    | TcpConnecting | MqttConnectSending | MqttData | MqttKeepaliveSend

  predicate Serving(s: ConnState) {
    s == MqttData || s == MqttKeepaliveSend
  }

  /** The connection is in use: for its CONNECT, or in service. */
  predicate InUse(s: ConnState) {
    s == MqttConnectSending || Serving(s)
  }

  /** The pending message: whether its ack is awaited, its type and id, and the ticks
      left until a send timeout. */
  datatype Ack = Ack(waiting: bool, kind: nat, id: nat, timeout: nat)

  const NO_ACK: Ack := Ack(false, 0, 0, 0)

  /** The automatic keepalive ping. */
  datatype Ping = Ping(waiting: bool, timeout: nat)

  const NO_PING: Ping := Ping(false, 0)

  datatype Ticks = Ticks(keepAlive: nat, reconnect: nat, connect: nat)

  // ---------------------------------------------------------------------------
  // Packets

  /** Packets that the queueing calls produce. */
  predicate Queueable(p: seq<byte>) {
    IsPacket(p) && |p| <= MQTT_BUF_SIZE && TypeOf(p) in {PUBLISH, SUBSCRIBE, PINGREQ}
  }

  predicate NeedsAck(p: seq<byte>)
    requires Queueable(p)
  {
    TypeOf(p) == PUBLISH ==> QosOf(p) > 0
  }

  /** Whether msg is the ack that finishes p (sections 4.3 and 4.4 of MQTT 3.1.1). */
  predicate Finishes(msg: seq<byte>, p: seq<byte>)
    requires IsPacket(msg) && Queueable(p)
  {
    && NeedsAck(p)
    && match TypeOf(p) {
         case 3 => (TypeOf(msg) == PUBACK || TypeOf(msg) == PUBCOMP) && IdOf(msg) == IdOf(p)
         case 8 => TypeOf(msg) == SUBACK && IdOf(msg) == IdOf(p)
         case _ => TypeOf(msg) == PINGRESP
       }
  }

  /** An ack that no server sends: packet ids are never 0. */
  predicate StrayAck(msg: seq<byte>)
    requires IsPacket(msg)
  {
    TypeOf(msg) == PUBACK && IdOf(msg) == 0
  }

  /** What passed between client and TCP: a packet taken off the received stream and
      handled, and whether that was in service while TCP takes what is sent; or a packet
      given to TCP, from the queue or not. */
  datatype Entry = Took(msg: seq<byte>, live: bool) | Gave(packet: seq<byte>, queued: bool)

  /** A packet that left the queue: sent once and done, acknowledged, or dropped without
      having been awaited. The places are those of the send and of the ack in the trace. */
  datatype Departure =
    | SentOnce(packet: seq<byte>, at: nat)
    | Acked(packet: seq<byte>, sentAt: nat, ackAt: nat)
    | Dropped(packet: seq<byte>, ackAt: nat)
  {
    function First(): nat {
      match this
      case SentOnce(_, at) => at
      case Acked(_, sentAt, _) => sentAt
      case Dropped(_, ackAt) => ackAt
    }

    function Last(): nat {
      if SentOnce? then at else ackAt
    }
  }

  function Packets(ds: seq<Departure>): (ps: seq<seq<byte>>)
    ensures |ps| == |ds|
  {
    seq(|ds|, i requires 0 <= i < |ds| => ds[i].packet)
  }

  // ---------------------------------------------------------------------------
  // The state, as far as packets and waiting are concerned

  /** `up`: the TCP connection begun last was established; it is at most once. `armed`:
      the timer runs. `id` is the last packet id. Then, for the proofs: every packet ever queued and those that
      left the queue; the trace, and where in it the oldest queued packet was given to TCP
      last; and the ids given since TCP connected last, and how many packets had been
      queued before that. */
  datatype View = View(s: ConnState, pCon: bool, up: bool, armed: bool, ack: Ack, ping: Ping, ticks: Ticks,
                       packets: seq<seq<byte>>, id: nat,
                       enqueued: seq<seq<byte>>, departed: seq<Departure>, trace: seq<Entry>, offered: nat,
                       ids: seq<nat>, queuedBefore: nat)

  // ---------------------------------------------------------------------------
  // Handling a packet

  /** A control packet is handed to TCP at once; a failure ends the connection. */
  function Sending(v: View, message: seq<byte>, sendOk: bool): View {
    if !v.pCon then v.(s := TcpReconnect)
    else if !sendOk then v.(s := TcpReconnectDisconnecting)
    else v.(trace := v.trace + [Gave(message, false)])
  }

  function NewId(v: View): View {
    v.(id := NextId(v.id), ids := v.ids + [NextId(v.id)])
  }

  /** An acknowledgement carries the id of what it answers, or a new id when that is 0. */
  function Acking(v: View, kind: nat, id: nat, sendOk: bool): View {
    var w := if id == 0 then NewId(v) else v;
    Sending(w, AckPacket(kind, if id == 0 then w.id else id), sendOk)
  }

  function Rest(packets: seq<seq<byte>>): seq<seq<byte>> {
    if packets == [] then [] else packets[1..]
  }

  /** Which incoming packets make the client drop the oldest queued packet. */
  predicate Pops(msg: seq<byte>, ack: Ack, ping: Ping)
    requires IsPacket(msg)
  {
    match TypeOf(msg)
    case 9 => ack.kind == SUBSCRIBE && ack.id == IdOf(msg)
    case 4 => ack.kind == PUBLISH && ack.id == IdOf(msg)
    case 7 => ack.kind == PUBREL && ack.id == IdOf(msg)
    case 13 => !ping.waiting && ack.kind == PINGREQ && ack.waiting
    case _ => false
  }

  /** The departure that the packet taken last causes. */
  function DroppedNow(v: View): (ds: seq<Departure>)
    ensures |ds| <= 1
  {
    if v.packets == [] then []
    else if v.ack.waiting then [Acked(v.packets[0], v.offered, Bits.Pred(|v.trace|))]
    else [Dropped(v.packets[0], Bits.Pred(|v.trace|))]
  }

  /** The oldest packet is done. */
  function Dropping(v: View): View {
    v.(ack := NO_ACK, packets := Rest(v.packets), departed := v.departed + DroppedNow(v))
  }

  /** A packet while in service. */
  function InService(v: View, msg: seq<byte>, sendOk: bool): View
    requires IsPacket(msg)
  {
    if TypeOf(msg) == PINGRESP then
      var w := v.(ticks := v.ticks.(keepAlive := 0));
      if v.ping.waiting then w.(ping := NO_PING)
      else if Pops(msg, v.ack, v.ping) then Dropping(w) else w
    else if Pops(msg, v.ack, v.ping) then Dropping(v)
    else if TypeOf(msg) == PUBLISH then
      if QosOf(msg) == 1 then Acking(v, PUBACK, IdOf(msg), sendOk)
      else if QosOf(msg) == 2 then Acking(v, PUBREC, IdOf(msg), sendOk)
      else v
    else if TypeOf(msg) == PUBREC then
      if v.ack.waiting && v.ack.id == IdOf(msg) && (v.ack.kind == PUBLISH || v.ack.kind == PUBREL)
      then Acking(v.(ack := Ack(true, PUBREL, v.ack.id, MQTT_SEND_TIMEOUT)), PUBREL, IdOf(msg), sendOk)
      else v
    else if TypeOf(msg) == PUBREL then Acking(v, PUBCOMP, IdOf(msg), sendOk)
    else if TypeOf(msg) == PINGREQ then Sending(v, PingPacket(PINGRESP), sendOk)
    else v
  }

  /** CONNACK ends the wait for the CONNECT; code 0 brings the client into service. */
  function Connecting(v: View, msg: seq<byte>, returnCode: byte): View
    requires IsPacket(msg)
  {
    if TypeOf(msg) == CONNACK && v.ack.kind == CONNECT
    then v.(ack := NO_ACK, s := if returnCode == 0 then MqttData else v.s)
    else v
  }

  predicate Live(v: View, sendOk: bool) {
    Serving(v.s) && v.pCon && sendOk
  }

  function Taken(v: View, msg: seq<byte>, live: bool): View {
    v.(trace := v.trace + [Took(msg, live)])
  }

  /** One incoming packet, in whatever state. */
  function Handled(v: View, msg: seq<byte>, returnCode: byte, sendOk: bool): View
    requires IsPacket(msg)
  {
    var w := Taken(v, msg, Live(v, sendOk));
    if v.s == MqttConnectSending then Connecting(w, msg, returnCode)
    else if Serving(v.s) then InService(w, msg, sendOk)
    else w
  }

  // ---------------------------------------------------------------------------
  // The task

  /** The keepalive state: a ping goes out, never with anything else outstanding. */
  function KeepaliveStep(v: View, sendOk: bool): View {
    if !v.pCon then v
    else if v.ping.waiting || v.ack.waiting || v.ack.timeout > 0 then v.(s := MqttData)
    else if sendOk then
      v.(s := MqttData, trace := v.trace + [Gave(PingPacket(PINGREQ), false)], ping := Ping(true, MQTT_SEND_TIMEOUT),
         ticks := v.ticks.(keepAlive := 0))
    else v.(s := TcpReconnectDisconnecting, ping := NO_PING)
  }

  /** The data state: nothing happens while anything is outstanding; a send error gives
      up the connection only; otherwise the oldest packet goes out, as it was queued, and
      is awaited or gone. The queue holds nothing but what the calls put there. */
  function SendStep(v: View, sendOk: bool): View {
    if !v.pCon || v.packets == [] || v.ack.timeout != 0 || v.ack.waiting || v.ping.waiting then v
    else if !sendOk then v.(ack := NO_ACK, s := TcpReconnectDisconnecting)
    else if Queueable(v.packets[0]) then SentOut(v, v.packets[0])
    else v
  }

  function SentOut(v: View, p: seq<byte>): View
    requires Queueable(p)
  {
    var w := v.(trace := v.trace + [Gave(p, true)], ack := Ack(NeedsAck(p), TypeOf(p), IdOf(p), MQTT_SEND_TIMEOUT),
                offered := |v.trace|);
    if NeedsAck(p) then w
    else w.(packets := Rest(v.packets), departed := v.departed + [SentOnce(p, |v.trace|)])
  }

  function Deleted(v: View): View {
    v.(ack := NO_ACK, ping := NO_PING, pCon := false)
  }

  function ConnectBegun(v: View, resolved: bool): View {
    v.(ack := NO_ACK, ping := NO_PING, pCon := true, up := false, armed := true, ticks := Ticks(0, 0, 0),
       s := if resolved then TcpConnecting else TcpReconnectReq)
  }

  /** What the task does when no packet is waiting to be handled. */
  function RunStep(v: View, sendOk: bool, resolved: bool): View {
    match v.s
    case TcpReconnect => ConnectBegun(Deleted(v), resolved).(s := TcpConnecting)
    case TcpDisconnected => Deleted(v)
    case MqttKeepaliveSend => KeepaliveStep(v, sendOk)
    case MqttData => SendStep(v, sendOk)
    case _ => v
  }

  // ---------------------------------------------------------------------------
  // The timer

  /** A second passes, first for the state... */
  function StateTicked(v: View, keepalive: nat): View {
    match v.s
    case MqttData =>
      var w := v.(ticks := v.ticks.(keepAlive := v.ticks.keepAlive + 1));
      if w.ticks.keepAlive > keepalive / 2 && !v.ping.waiting && !v.ack.waiting && v.ack.timeout == 0
      then w.(s := MqttKeepaliveSend) else w
    case TcpReconnectReq =>
      if v.ticks.reconnect + 1 > MQTT_RECONNECT_TIMEOUT then v.(ticks := v.ticks.(reconnect := 0), s := TcpReconnect)
      else v.(ticks := v.ticks.(reconnect := v.ticks.reconnect + 1))
    case TcpConnecting =>
      if v.ticks.connect + 1 > MQTT_CONNECT_TIMEOUT then v.(ticks := v.ticks.(connect := 0), s := TcpReconnect)
      else v.(ticks := v.ticks.(connect := v.ticks.connect + 1))
    case _ => v
  }

  /** ... then for an outstanding ping... */
  function PingTicked(v: View): View {
    if !v.ping.waiting || v.ping.timeout == 0 then v
    else if v.ping.timeout == 1 then v.(ping := NO_PING, s := TcpReconnectDisconnecting)
    else v.(ping := Ping(true, v.ping.timeout - 1))
  }

  /** ... and then for an outstanding message. */
  function AckTicked(v: View): View {
    if v.ack.timeout == 0 then v
    else if v.ack.timeout == 1 then v.(ack := v.ack.(timeout := 0), s := TcpReconnectDisconnecting)
    else v.(ack := v.ack.(timeout := v.ack.timeout - 1))
  }

  function Ticked(v: View, keepalive: nat): View {
    AckTicked(PingTicked(StateTicked(v, keepalive)))
  }

  // ---------------------------------------------------------------------------
  // Callbacks and calls

  /** TCP has sent everything: that ends a send timeout, unless an ack is awaited. */
  function SendDone(v: View): View {
    v.(ack := if v.ack.waiting then v.ack else v.ack.(timeout := 0), ticks := v.ticks.(keepAlive := 0))
  }

  /** The TCP connection is there: packet ids begin anew, CONNECT goes out, and its
      CONNACK is awaited. */
  function Connected(v: View, built: bool, sendOk: bool): View {
    var w := v.(up := true, id := 0, ids := [], queuedBefore := |v.enqueued|);
    if built && sendOk then w.(s := MqttConnectSending, ack := Ack(true, CONNECT, 0, MQTT_SEND_TIMEOUT))
    else w.(s := TcpReconnectDisconnecting, ack := if built then Ack(v.ack.waiting, CONNECT, 0, 0) else v.ack)
  }

  /** The connection is gone: nothing is awaited any more, and no queued packet is lost. */
  function Down(v: View): View {
    v.(ack := NO_ACK, ping := NO_PING, s := if v.s == TcpDisconnecting then TcpDisconnected else TcpReconnectReq)
  }

  /** A late DNS answer: an address that connects, no address, or 0.0.0.0. */
  function DnsAnswered(v: View, found: bool, anyAddress: bool): View {
    v.(s := if !found then TcpReconnectReq else if anyAddress || !v.pCon then v.s else TcpConnecting)
  }

  /** A packet is put at the end of the queue, if the ring has room for its frame. */
  function Enqueued(v: View, p: seq<byte>, room: nat): View {
    if |Frames(v.packets)| + |Proto.Frame(p)| <= room
    then v.(packets := v.packets + [p], enqueued := v.enqueued + [p]) else v
  }

  /** MQTT_Publish. Once the topic is written an id is used up, whether or not the rest
      fits. */
  function PublishStep(v: View, topic: seq<byte>, data: seq<byte>, qos: int, retain: nat, room: nat): View {
    if qos < 0 || qos > 2 || topic == [] || 5 + |topic| > MQTT_BUF_SIZE then v
    else
      var w := if qos > 0 then NewId(v) else v;
      if 5 + |topic| + (if qos > 0 then 2 else 0) + |data| > MQTT_BUF_SIZE then w
      else Enqueued(w, PublishPacket(topic, data, qos, retain, if qos > 0 then w.id else 0), room)
  }

  function SubscribeStep(v: View, topic: seq<byte>, qos: int, room: nat): View {
    if qos < 0 || qos > 2 || topic == [] then v
    else
      var w := NewId(v);
      if 8 + |topic| > MQTT_BUF_SIZE then w else Enqueued(w, SubscribePacket(topic, qos, w.id), room)
  }

  /** What can happen to the client. A publish or subscribe topic is a C string;
      `garbage` is what a read from an empty queue finds. */
  datatype Event =
    | Received(data: seq<byte>, sendOk: bool, garbage: bool)
    | TaskRuns(sendOk: bool, garbage: bool, resolved: bool)
    | Tick | DataSent
    | TcpUp(built: bool, sendOk: bool) | TcpDown | TcpError
    | DnsAnswer(found: bool, anyAddress: bool)
    | ConnectCall(resolved: bool) | DisconnectCall
    | PublishCall(topic: seq<byte>, data: seq<byte>, qos: int, retain: nat)
    | SubscribeCall(topic: seq<byte>, qos: int)
    | PingCall

  predicate SaneEvent(e: Event) {
    && (e.PublishCall? ==> 0 !in e.topic && e.retain <= 1)
    && (e.SubscribeCall? ==> 0 !in e.topic && 0 <= e.qos)
  }

  predicate AllSane(events: seq<Event>) {
    forall e <- events :: SaneEvent(e)
  }

  // ---------------------------------------------------------------------------
  // Whole steps

  /** What a client was set up with: the keepalive interval and the size of its queue. */
  datatype Config = Config(keepalive: nat, room: nat)

  /** A client: its view, the bytes received and not handled, and the byte in the place
      of the receive buffer that CONNACK's return code is read from. */
  datatype State = State(v: View, stream: seq<byte>, code: byte)

  function Initial(code: byte): State {
    State(View(WifiInit, false, false, false, NO_ACK, NO_PING, Ticks(0, 0, 0), [], 0, [], [], [], 0, [], 0), [], code)
  }

  /** The stream is at the front of the buffer; behind it the buffer is as it was. */
  function Buffered(v: View, stream: seq<byte>, code: byte): State {
    State(v, stream, if |stream| > 3 then stream[3] else code)
  }

  /** The packet at the front of the buffer, if it is complete: it is handled, and the
      rest moves up. A malformed or oversized one clears the buffer, and so does a
      connection given up. */
  function FrontStep(st: State, sendOk: bool): State {
    var n := PacketLength(st.stream);
    if n < 0 || n > MQTT_BUF_SIZE then st.(stream := [])
    else if n == 0 || n > |st.stream| || !IsPacket(st.stream[..n]) then st
    else
      var w := Handled(st.v, st.stream[..n], st.code, sendOk);
      if w.s == TcpReconnectDisconnecting then State(w, [], st.code) else Buffered(w, st.stream[n..], st.code)
  }

  /** Data from TCP: at most one packet is handled, the one at the front. */
  function RecvStep(st: State, data: seq<byte>, sendOk: bool): State {
    if |st.stream| + |data| > MQTT_BUF_SIZE then st.(stream := [])
    else FrontStep(Buffered(st.v, st.stream + data, st.code), sendOk)
  }

  predicate FrontAt(stream: seq<byte>, pCon: bool, s: ConnState) {
    pCon && s != TcpReconnectDisconnecting && 0 < PacketLength(stream) <= |stream|
  }

  /** A run of the task: a buffered packet first, then what the state asks for. */
  function TaskStep(st: State, sendOk: bool, resolved: bool): State {
    if FrontAt(st.stream, st.v.pCon, st.v.s) then FrontStep(st, sendOk)
    else State(RunStep(st.v, sendOk, resolved),
               if st.v.s == TcpReconnect || st.v.s == TcpDisconnected then [] else st.stream, st.code)
  }

  function Next(st: State, e: Event, cfg: Config): State {
    match e
    case Received(data, sendOk, _) => RecvStep(st, data, sendOk)
    case TaskRuns(sendOk, _, resolved) => TaskStep(st, sendOk, resolved)
    case Tick => if st.v.armed then st.(v := Ticked(st.v, cfg.keepalive)) else st
    case DataSent => st.(v := SendDone(st.v))
    case TcpUp(built, sendOk) => if st.v.up || !st.v.pCon then st else st.(v := Connected(st.v, built, sendOk))
    case TcpDown => State(Down(st.v), [], st.code)
    case TcpError => st.(v := st.v.(s := TcpReconnectReq))
    case DnsAnswer(found, anyAddress) => st.(v := DnsAnswered(st.v, found, anyAddress))
    case ConnectCall(resolved) => State(ConnectBegun(st.v, resolved), [], st.code)
    case DisconnectCall => st.(v := st.v.(s := TcpDisconnecting, armed := false))
    case PublishCall(topic, data, qos, retain) => st.(v := PublishStep(st.v, topic, data, qos, retain, cfg.room))
    case SubscribeCall(topic, qos) => st.(v := SubscribeStep(st.v, topic, qos, cfg.room))
    case PingCall => st.(v := Enqueued(st.v, PingPacket(PINGREQ), cfg.room))
  }

  function After(st: State, events: seq<Event>, cfg: Config): State
    decreases |events|
  {
    if events == [] then st else After(Next(st, events[0], cfg), events[1..], cfg)
  }

  lemma {:induction false} AfterConcat(st: State, a: seq<Event>, b: seq<Event>, cfg: Config)
    ensures After(st, a + b, cfg) == After(After(st, a, cfg), b, cfg)
    decreases |a|
  {
    hide Next;
    if a == [] {
      assert a + b == b;
    } else {
      assert (a + b)[1..] == a[1..] + b;
      AfterConcat(Next(st, a[0], cfg), a[1..], b, cfg);
    }
  }

  lemma AfterOneMore(st: State, events: seq<Event>, i: nat, cfg: Config)
    requires i < |events|
    ensures After(st, events[..i + 1], cfg) == Next(After(st, events[..i], cfg), events[i], cfg)
  {
    hide Next;
    assert events[..i + 1] == events[..i] + [events[i]];
    AfterConcat(st, events[..i], [events[i]], cfg);
    AfterOne(After(st, events[..i], cfg), events[i], cfg);
  }

  lemma AfterOne(st: State, e: Event, cfg: Config)
    ensures After(st, [e], cfg) == Next(st, e, cfg)
  {
    hide Next;
    assert [e][1..] == [];
  }
}
