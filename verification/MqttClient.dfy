/** The MQTT client itself: callbacks, timer and task over one object, its output buffer,
    its send queue in a ring and its receive buffer. Every method takes the step that
    MqttSteps gives it; MqttRuns says what follows for whole runs. */
module MqttClient {
  import Bits
  import RingBuffer
  import Proto
  import opened Queue
  import opened MqttMessage
  import opened MqttStream
  import opened MqttSteps
  import opened MqttTrace
  import opened MqttRuns
  import opened MqttReplies
  import opened MqttFailures

  class Client {
    const keepalive: nat
    const connection: Connection
    const msgQueue: Queue
    const inBuffer: StreamBuffer

    var pCon: bool
    var connState: ConnState
    var ack: Ack
    var ping: Ping
    var ticks: Ticks

    /** Whether the TCP connection begun by the last MQTT_Connect was established; it is
        at most once. */
    var established: bool
    /** Whether mqttTimer is armed. */
    var armed: bool
    /** Every packet ever queued and those that left the queue; what passed between client
        and TCP, and where in it the oldest packet was sent last; the packet ids given
        since TCP connected. */
    ghost var enqueued: seq<seq<byte>>
    ghost var departed: seq<Departure>
    ghost var trace: seq<Entry>
    ghost var offered: nat
    ghost var ids: seq<nat>
    ghost var queuedBefore: nat

    /** The buffers, each valid and none shared. */
    ghost predicate Parts()
      reads connection, connection.buffer, msgQueue, msgQueue.rb, msgQueue.rb.buf, inBuffer, inBuffer.data
    {
      && connection.Valid() && connection.buffer.Length == MQTT_BUF_SIZE && msgQueue.Valid() && inBuffer.Valid()
      && connection.buffer != msgQueue.rb.buf && connection.buffer != inBuffer.data && msgQueue.rb.buf != inBuffer.data
    }

    ghost function Look(): View
      reads this, msgQueue`packets, connection`messageId
    {
      View(connState, pCon, established, armed, ack, ping, ticks, msgQueue.packets, connection.messageId,
           enqueued, departed, trace, offered, ids, queuedBefore)
    }

    ghost function Stream(): seq<byte>
      requires inBuffer.used <= inBuffer.data.Length
      reads inBuffer, inBuffer.data
    {
      inBuffer.data[..inBuffer.used]
    }

    /** The client as a value. */
    ghost function Whole(): State
      requires Parts()
      reads this, connection, connection.buffer, msgQueue, msgQueue.rb, msgQueue.rb.buf, inBuffer, inBuffer.data
    {
      State(Look(), Stream(), inBuffer.data[3])
    }

    ghost function Cfg(): Config {
      Config(keepalive, msgQueue.rb.buf.Length)
    }

    ghost predicate Valid()
      reads this, connection, connection.buffer, msgQueue, msgQueue.rb, msgQueue.rb.buf, inBuffer, inBuffer.data
    {
      Parts() && Inv(Look()) && Replied(trace)
    }

    constructor (keepalive: nat, queueSize: nat)
      requires 2 <= queueSize <= MAX_QUEUE_SIZE
      ensures Valid() && Whole() == Initial(inBuffer.data[3]) && Cfg() == Config(keepalive, queueSize)
      ensures fresh(connection) && fresh(connection.buffer) && fresh(msgQueue) && fresh(msgQueue.rb)
      ensures fresh(msgQueue.rb.buf) && fresh(inBuffer) && fresh(inBuffer.data)
    {
      hide Inv; hide Replied; hide Frames; hide RingBuffer.RingBuffer.Contents; hide RingBuffer.RingBuffer.Valid;
      this.keepalive := keepalive;
      connection := new Connection(MQTT_BUF_SIZE);
      msgQueue := new Queue(queueSize);
      inBuffer := new StreamBuffer();
      pCon, connState, ack, ping, ticks := false, WifiInit, NO_ACK, NO_PING, Ticks(0, 0, 0);
      established, armed, enqueued, departed, trace, offered, ids := false, false, [], [], [], 0, [];
      queuedBefore := 0;
      new;
      assert Stream() == [];
      InitialInv(inBuffer.data[3]);
      NothingReplied();
    }

    // -------------------------------------------------------------------------
    // Sending

    /** mqtt_send_direct. */
    method SendDirect(message: seq<byte>, sendOk: bool)
      modifies `connState, `trace
      ensures Look() == Sending(old(Look()), message, sendOk)
    {
      if !pCon {
        connState := TcpReconnect;
        return;
      }
      if !sendOk {
        connState := TcpReconnectDisconnecting;
        return;
      }
      trace := trace + [Gave(message, false)];
    }

    /** Acknowledges an incoming packet. */
    method SendAck(kind: nat, id: nat, sendOk: bool)
      requires Parts() && kind in {PUBACK, PUBREC, PUBREL, PUBCOMP} && id < 65536
      modifies `connState, `trace, `ids, connection, connection.buffer
      ensures Parts()
      ensures Look() == Acking(old(Look()), kind, id, sendOk)
    {
      hide AckPacket; hide NextId; hide Frames; hide RingBuffer.RingBuffer.Contents; hide StreamBuffer.Valid;
      var ok, message := connection.Ack(kind, id);
      if id == 0 {
        ids := ids + [connection.messageId];
      }
      SendDirect(message, sendOk);
    }

    /** The automatic keepalive; never with anything else outstanding. */
    method SendKeepalive(sendOk: bool)
      requires Parts()
      modifies `connState, `trace, `ping, `ticks, connection, connection.buffer
      ensures Parts()
      ensures Look() == KeepaliveStep(old(Look()), sendOk)
    {
      hide PingPacket; hide Frames; hide RingBuffer.RingBuffer.Contents; hide StreamBuffer.Valid;
      if !pCon {
        return;
      }
      if ping.waiting || ack.waiting || ack.timeout > 0 {
        connState := MqttData;
        return;
      }
      var message := connection.Ping(PINGREQ);
      KeepaliveSent(message, sendOk);
    }

    method KeepaliveSent(message: seq<byte>, sendOk: bool)
      modifies `connState, `trace, `ping, `ticks
      ensures Look() == if sendOk then
                          old(Look()).(s := MqttData, trace := old(trace) + [Gave(message, false)],
                                       ping := Ping(true, MQTT_SEND_TIMEOUT), ticks := old(ticks).(keepAlive := 0))
                        else
                          old(Look()).(s := TcpReconnectDisconnecting, ping := NO_PING)
    {
      if sendOk {
        trace, ticks := trace + [Gave(message, false)], ticks.(keepAlive := 0);
        ping, connState := Ping(true, MQTT_SEND_TIMEOUT), MqttData;
      } else {
        ping, connState := NO_PING, TcpReconnectDisconnecting;
      }
    }

    /** Reads the oldest packet, and puts the read pointer back while the packet has to
        stay: until its ack, and when sending it failed. */
    method ReadNext(sendOk: bool, garbage: bool) returns (data: seq<byte>, id: nat, waiting: bool)
      requires Parts() && msgQueue.packets != []
      requires Queueable(msgQueue.packets[0]) && Proto.Truncated(msgQueue.packets[0], MQTT_BUF_SIZE) == msgQueue.packets[0]
      modifies msgQueue`packets, msgQueue.rb`r, msgQueue.rb`w, msgQueue.rb`fillCnt
      ensures Parts() && data == old(msgQueue.packets)[0] && id == IdOf(data) && waiting == NeedsAck(data)
      ensures msgQueue.packets == if waiting || !sendOk then old(msgQueue.packets) else old(msgQueue.packets)[1..]
    {
      hide Frames; hide IsPacket; hide IdOf; hide Proto.Truncated;
      ghost var packets := msgQueue.packets;
      var rollbackR, rollbackFillCnt := msgQueue.rb.r, msgQueue.rb.fillCnt;
      var ok;
      ok, data := msgQueue.Gets(MQTT_BUF_SIZE, garbage);
      id := GetId(data);
      waiting := (TypeOf(data) == PUBLISH && QosOf(data) > 0) || TypeOf(data) == SUBSCRIBE || TypeOf(data) == PINGREQ;
      if waiting || !sendOk {
        msgQueue.RollBack(rollbackR, msgQueue.rb.w, rollbackFillCnt, packets);
      }
    }

    /** Sends the oldest queued packet, unless something is outstanding. It stays in the
        queue until its ack; a QoS 0 packet leaves once TCP has taken it. */
    method SendNext(sendOk: bool, garbage: bool)
      requires Parts() && (msgQueue.packets != [] ==> Queueable(msgQueue.packets[0]))
      modifies `connState, `trace, `offered, `ack, `departed
      modifies msgQueue`packets, msgQueue.rb`r, msgQueue.rb`w, msgQueue.rb`fillCnt
      ensures Parts()
      ensures Look() == SendStep(old(Look()), sendOk)
    {
      hide Parts; hide Queueable; hide SentOut;
      PartsQueue();
      var empty := msgQueue.IsEmpty();
      if !pCon || empty || ack.timeout != 0 || ack.waiting || ping.waiting {
        return;
      }
      HeadFits(msgQueue.packets[0]);
      ghost var packets := msgQueue.packets;
      var data, id, waiting := ReadNext(sendOk, garbage);
      if sendOk {
        Sent(data, id, waiting, packets);
      } else {
        ack, connState := NO_ACK, TcpReconnectDisconnecting;
      }
    }

    /** TCP has taken the oldest packet. */
    method Sent(data: seq<byte>, id: nat, waiting: bool, ghost packets: seq<seq<byte>>)
      requires packets != [] && data == packets[0] && Queueable(data) && id == IdOf(data) && waiting == NeedsAck(data)
      requires msgQueue.packets == if waiting then packets else packets[1..]
      modifies `ack, `trace, `offered, `departed
      ensures Look() == SentOut(old(Look()).(packets := packets), data)
    {
      hide IsPacket; hide IdOf; hide NeedsAck;
      ack := Ack(waiting, TypeOf(data), id, MQTT_SEND_TIMEOUT);
      offered := |trace|;
      trace := trace + [Gave(data, true)];
      if !waiting {
        departed := departed + [SentOnce(data, offered)];
      }
    }

    static lemma HeadFits(p: seq<byte>)
      requires Queueable(p)
      ensures Proto.Truncated(p, MQTT_BUF_SIZE) == p
    {
      hide IsPacket;
    }

    lemma PartsQueue()
      requires Parts()
      ensures msgQueue.Valid()
    {
    }

    // -------------------------------------------------------------------------
    // Receiving

    /** The oldest packet leaves the queue, and nothing is awaited any more. */
    method DropOldest(garbage: bool)
      requires Parts()
      modifies `ack, `departed, msgQueue`packets, msgQueue.rb`r, msgQueue.rb`fillCnt
      ensures Parts()
      ensures Look() == Dropping(old(Look()))
    {
      hide Parts; hide DroppedNow;
      ghost var ds := DroppedNow(Look());
      var ok, dummy := GetsAll(garbage);
      ack := NO_ACK;
      departed := departed + ds;
    }

    method GetsAll(garbage: bool) returns (ok: bool, packet: seq<byte>)
      requires Parts()
      modifies msgQueue`packets, msgQueue.rb`r, msgQueue.rb`fillCnt
      ensures Parts()
      ensures msgQueue.packets == Rest(old(msgQueue.packets))
    {
      hide Frames;
      ok, packet := msgQueue.Gets(MQTT_BUF_SIZE, garbage);
    }

    /** Handles one packet while in service. */
    method HandleData(msg: seq<byte>, sendOk: bool, garbage: bool)
      requires Parts() && IsPacket(msg)
      modifies `connState, `ack, `ping, `ticks, `departed, `trace, `ids
      modifies connection, connection.buffer, msgQueue`packets, msgQueue.rb`r, msgQueue.rb`fillCnt
      ensures Parts()
      ensures Look() == InService(old(Look()), msg, sendOk)
    {
      hide Parts; hide IsPacket; hide IdOf; hide Acking; hide Sending; hide Dropping; hide PingPacket;
      var kind := TypeOf(msg);
      var id := GetId(msg);
      if kind == SUBACK {
        if ack.kind == SUBSCRIBE && ack.id == id {
          DropOldest(garbage);
        }
      } else if kind == PUBLISH {
        if QosOf(msg) == 1 {
          SendAck(PUBACK, id, sendOk);
        } else if QosOf(msg) == 2 {
          SendAck(PUBREC, id, sendOk);
        }
      } else if kind == PUBACK {
        if ack.kind == PUBLISH && ack.id == id {
          DropOldest(garbage);
        }
      } else if kind == PUBREC {
        if ack.waiting && ack.id == id && (ack.kind == PUBLISH || ack.kind == PUBREL) {
          // The exchange goes on with PUBREL, and the wait begins anew.
          ack := ack.(kind := PUBREL, timeout := MQTT_SEND_TIMEOUT);
          SendAck(PUBREL, id, sendOk);
        }
      } else if kind == PUBREL {
        SendAck(PUBCOMP, id, sendOk);
      } else if kind == PUBCOMP {
        if ack.kind == PUBREL && ack.id == id {
          DropOldest(garbage);
        }
      } else if kind == PINGREQ {
        AnswerPing(sendOk);
      } else if kind == PINGRESP {
        HandlePingResp(msg, garbage);
      }
    }

    method AnswerPing(sendOk: bool)
      requires Parts()
      modifies `connState, `trace, connection, connection.buffer
      ensures Parts()
      ensures Look() == Sending(old(Look()), PingPacket(PINGRESP), sendOk)
    {
      hide Sending; hide PingPacket; hide Frames; hide RingBuffer.RingBuffer.Contents; hide StreamBuffer.Valid;
      var message := connection.Ping(PINGRESP);
      SendDirect(message, sendOk);
    }

    /** An automatic ping is answered first; only then a queued one. */
    method HandlePingResp(msg: seq<byte>, garbage: bool)
      requires Parts() && IsPacket(msg) && TypeOf(msg) == PINGRESP
      modifies `ack, `ping, `ticks, `departed, msgQueue`packets, msgQueue.rb`r, msgQueue.rb`fillCnt
      ensures Parts()
      ensures Look() == InService(old(Look()), msg, true)
    {
      hide Parts; hide IsPacket; hide IdOf; hide Dropping;
      ticks := ticks.(keepAlive := 0);
      if ping.waiting {
        ping := NO_PING;
      } else if ack.kind == PINGREQ && ack.waiting {
        DropOldest(garbage);
      }
    }

    method HandleConnAck(msg: seq<byte>, returnCode: byte)
      requires IsPacket(msg)
      modifies `connState, `ack
      ensures Look() == Connecting(old(Look()), msg, returnCode)
    {
      hide IsPacket;
      if TypeOf(msg) == CONNACK && ack.kind == CONNECT {
        ack := NO_ACK;
        if returnCode == 0 {
          connState := MqttData;
        }
      }
    }

    /** One packet, in whatever state the client is. */
    method HandlePacket(msg: seq<byte>, returnCode: byte, sendOk: bool, garbage: bool)
      requires Parts() && IsPacket(msg)
      modifies `connState, `ack, `ping, `ticks, `departed, `trace, `ids
      modifies connection, connection.buffer, msgQueue`packets, msgQueue.rb`r, msgQueue.rb`fillCnt
      ensures Parts()
      ensures Look() == Handled(old(Look()), msg, returnCode, sendOk)
    {
      hide Parts; hide IsPacket; hide InService; hide Connecting;
      trace := trace + [Took(msg, Serving(connState) && pCon && sendOk)];
      if connState == MqttConnectSending {
        HandleConnAck(msg, returnCode);
      } else if Serving(connState) {
        HandleData(msg, sendOk, garbage);
      }
    }

    /** Handles the packet at the front of the buffer, if it is complete. */
    method HandleFront(sendOk: bool, garbage: bool)
      requires Parts() && inBuffer.used > 0
      modifies `connState, `ack, `ping, `ticks, `departed, `trace, `ids, inBuffer, inBuffer.data
      modifies connection, connection.buffer, msgQueue`packets, msgQueue.rb`r, msgQueue.rb`fillCnt
      ensures Parts() && Whole() == FrontStep(old(Whole()), sendOk)
      ensures Advanced(old(Stream()), old(inBuffer.received), old(inBuffer.handled),
                       connState == TcpReconnectDisconnecting, inBuffer.received, inBuffer.handled)
    {
      hide IsPacket; hide PacketLength; hide Handled; hide AllPackets; hide Buffered;
      var n := inBuffer.FrontLength();
      if n < 0 || n > MQTT_BUF_SIZE {
        inBuffer.Clear();
        return;
      }
      if n == 0 || n > inBuffer.used {
        return;
      }
      inBuffer.FrontIsPacket(n);
      assert Stream()[..n] == inBuffer.data[..n];
      TakeFront(n, sendOk, garbage);
    }

    method TakeFront(n: nat, sendOk: bool, garbage: bool)
      requires Parts() && 0 < n <= inBuffer.used && n == PacketLength(Stream())
      requires IsPacket(inBuffer.data[..n])
      modifies `connState, `ack, `ping, `ticks, `departed, `trace, `ids, inBuffer, inBuffer.data
      modifies connection, connection.buffer, msgQueue`packets, msgQueue.rb`r, msgQueue.rb`fillCnt
      ensures Parts()
      ensures var v := Handled(old(Look()), old(inBuffer.data[..n]), old(inBuffer.data[3]), sendOk);
              Whole() == if v.s == TcpReconnectDisconnecting then State(v, [], old(inBuffer.data[3]))
                         else Buffered(v, old(Stream())[n..], old(inBuffer.data[3]))
      ensures if connState == TcpReconnectDisconnecting then
                inBuffer.received == [] && inBuffer.handled == []
              else
                && inBuffer.received == old(inBuffer.received)
                && inBuffer.handled == old(inBuffer.handled) + [old(inBuffer.data[..n])]
    {
      hide IsPacket; hide PacketLength; hide Handled; hide StreamBuffer.Valid; hide Frames;
      hide RingBuffer.RingBuffer.Contents; hide RingBuffer.RingBuffer.Valid;
      PartsStream();
      HandlePacket(inBuffer.data[..n], inBuffer.data[3], sendOk, garbage);
      if connState == TcpReconnectDisconnecting {
        inBuffer.Clear();
      } else {
        ghost var was, used := inBuffer.data[..], inBuffer.used;
        inBuffer.Drop(n);
        CodeBehind(was, inBuffer.data[..], inBuffer.used);
      }
    }

    lemma PartsStream()
      requires Parts()
      ensures inBuffer.Valid() && inBuffer.data.Length == MQTT_BUF_SIZE && inBuffer.used <= MQTT_BUF_SIZE
      ensures connection.buffer != inBuffer.data && msgQueue.rb.buf != inBuffer.data
    {
    }

    /** Takes in what TCP received, if anything. */
    method Collect(data: seq<byte>) returns (ok: bool)
      requires inBuffer.Valid()
      modifies inBuffer, inBuffer.data
      ensures inBuffer.Valid() && ok == (old(inBuffer.used) + |data| <= MQTT_BUF_SIZE)
      ensures ok ==>
                && Stream() == old(Stream()) + data
                && inBuffer.data[3] == (if inBuffer.used > 3 then Stream()[3] else old(inBuffer.data[3]))
                && inBuffer.received == old(inBuffer.received) + data && inBuffer.handled == old(inBuffer.handled)
      ensures !ok ==> inBuffer.received == [] && inBuffer.handled == [] && Stream() == []
      ensures !ok ==> inBuffer.data[3] == old(inBuffer.data[3])
    {
      ghost var was := inBuffer.data[..];
      ok := true;
      if data != [] {
        ok := inBuffer.Append(data);
        if ok {
          CodeBehind(was, inBuffer.data[..], inBuffer.used);
        }
      } else {
        assert Stream() + [] == Stream();
        assert inBuffer.received + [] == inBuffer.received;
      }
    }

    /** Data from TCP, or none when the task asks for the next packet: at most one packet
        is handled, the one at the front of the stream. */
    method Recv(data: seq<byte>, sendOk: bool, garbage: bool)
      requires Parts()
      modifies `connState, `ack, `ping, `ticks, `departed, `trace, `ids, inBuffer, inBuffer.data
      modifies connection, connection.buffer, msgQueue`packets, msgQueue.rb`r, msgQueue.rb`fillCnt
      ensures Parts() && Whole() == RecvStep(old(Whole()), data, sendOk)
      ensures if old(inBuffer.used) + |data| > MQTT_BUF_SIZE then
                inBuffer.received == [] && inBuffer.handled == []
              else
                Advanced(old(Stream()) + data, old(inBuffer.received) + data, old(inBuffer.handled),
                         connState == TcpReconnectDisconnecting, inBuffer.received, inBuffer.handled)
    {
      hide IsPacket; hide PacketLength; hide Advanced; hide FrontStep; hide Frames;
      hide RingBuffer.RingBuffer.Contents; hide RingBuffer.RingBuffer.Valid; hide StreamBuffer.Valid;
      PartsStream();
      var ok := Collect(data);
      PartsStreamAgain();
      if !ok {
        return;
      }
      if inBuffer.used > 0 {
        HandleFront(sendOk, garbage);
      } else {
        NothingAtFront(Whole(), inBuffer.received, inBuffer.handled, connState == TcpReconnectDisconnecting, sendOk);
      }
    }

    lemma PartsStreamAgain()
      requires inBuffer.Valid()
      ensures inBuffer.data.Length == MQTT_BUF_SIZE && inBuffer.used <= MQTT_BUF_SIZE
    {
    }

    // -------------------------------------------------------------------------
    // Timer and connection callbacks

    method SentCallback()
      modifies `ack, `ticks
      ensures Look() == SendDone(old(Look()))
    {
      ticks := ticks.(keepAlive := 0);
      if !ack.waiting {
        ack := ack.(timeout := 0);
      }
    }

    /** What the state machine does on a tick, before the timeouts are counted down. */
    method TickState()
      modifies `connState, `ticks
      ensures Look() == StateTicked(old(Look()), keepalive)
    {
      if connState == MqttData {
        ticks := ticks.(keepAlive := ticks.keepAlive + 1);
        if ticks.keepAlive > keepalive / 2 && !ping.waiting && !ack.waiting && ack.timeout == 0 {
          connState := MqttKeepaliveSend;
        }
      } else if connState == TcpReconnectReq {
        ticks := ticks.(reconnect := ticks.reconnect + 1);
        if ticks.reconnect > MQTT_RECONNECT_TIMEOUT {
          ticks := ticks.(reconnect := 0);
          connState := TcpReconnect;
        }
      } else if connState == TcpConnecting {
        ticks := ticks.(connect := ticks.connect + 1);
        if ticks.connect > MQTT_CONNECT_TIMEOUT {
          ticks := ticks.(connect := 0);
          connState := TcpReconnect;
        }
      }
    }

    /** One second passes. */
    method Timer()
      modifies `connState, `ticks, `ack, `ping
      ensures Look() == Ticked(old(Look()), keepalive)
    {
      hide StateTicked; hide PingTicked; hide AckTicked;
      TickState();
      CountPing();
      CountAck();
    }

    method CountPing()
      modifies `connState, `ping
      ensures Look() == PingTicked(old(Look()))
    {
      if ping.waiting && ping.timeout > 0 {
        ping := ping.(timeout := ping.timeout - 1);
        if ping.timeout == 0 {
          ping := ping.(waiting := false);
          connState := TcpReconnectDisconnecting;
        }
      }
    }

    method CountAck()
      modifies `connState, `ack
      ensures Look() == AckTicked(old(Look()))
    {
      if ack.timeout > 0 {
        ack := ack.(timeout := ack.timeout - 1);
        if ack.timeout == 0 {
          connState := TcpReconnectDisconnecting;
        }
      }
    }

    /** The connection is gone: nothing is awaited any more, and no queued packet is lost. */
    method Disconnected()
      requires Parts()
      modifies `connState, `ack, `ping, inBuffer`used, inBuffer`received, inBuffer`handled
      ensures Parts() && Whole() == State(Down(old(Look())), [], inBuffer.data[3])
    {
      hide Frames; hide RingBuffer.RingBuffer.Contents;
      inBuffer.Clear();
      ack, ping := NO_ACK, NO_PING;
      connState := if connState == TcpDisconnecting then TcpDisconnected else TcpReconnectReq;
    }

    method Reconnected()
      modifies `connState
      ensures Look() == old(Look()).(s := TcpReconnectReq)
    {
      connState := TcpReconnectReq;
    }

    /** A late DNS answer: an address that connects, no address, or 0.0.0.0. */
    method DnsFound(found: bool, anyAddress: bool)
      modifies `connState
      ensures Look() == DnsAnswered(old(Look()), found, anyAddress)
    {
      if !found {
        connState := TcpReconnectReq;
      } else if !anyAddress && pCon {
        connState := TcpConnecting;
      }
    }

    /** The TCP connection is there: the message record is cleared, CONNECT goes out, and
        its CONNACK is awaited. */
    method TcpConnected(built: bool, sendOk: bool)
      requires Parts()
      modifies `connState, `ack, `established, `ids, `queuedBefore, connection`length, connection`messageId
      ensures Parts() && Look() == Connected(old(Look()), built, sendOk)
    {
      hide Frames; hide RingBuffer.RingBuffer.Contents; hide StreamBuffer.Valid;
      connection.Init();
      SendConnect(built, sendOk);
    }

    method SendConnect(built: bool, sendOk: bool)
      requires connection.messageId == 0
      modifies `connState, `ack, `established, `ids, `queuedBefore
      ensures Look() == Connected(old(Look()), built, sendOk)
    {
      established, ids, queuedBefore := true, [], |enqueued|;
      if !built {
        connState := TcpReconnectDisconnecting;
        return;
      }
      ack := ack.(kind := CONNECT, id := 0);
      if !sendOk {
        ack, connState := ack.(timeout := 0), TcpReconnectDisconnecting;
        return;
      }
      ack, connState := ack.(timeout := MQTT_SEND_TIMEOUT, waiting := true), MqttConnectSending;
    }

    /** Drops the old connection with everything that belonged to it. */
    method DeleteTcp()
      requires Parts()
      modifies `ack, `ping, `pCon, inBuffer`used, inBuffer`received, inBuffer`handled
      ensures Parts() && Whole() == State(Deleted(old(Look())), [], inBuffer.data[3])
    {
      hide Frames; hide RingBuffer.RingBuffer.Contents;
      inBuffer.Clear();
      ack, ping, pCon := NO_ACK, NO_PING, false;
    }

    /** MQTT_Connect, from any state. `resolved`: the host is an address, or its lookup
        was answered or begun. */
    method Connect(resolved: bool)
      requires Parts()
      modifies `connState, `ack, `ping, `pCon, `ticks, `established, `armed, inBuffer`used, inBuffer`received, inBuffer`handled
      ensures Parts() && Whole() == State(ConnectBegun(old(Look()), resolved), [], inBuffer.data[3])
    {
      hide Frames; hide RingBuffer.RingBuffer.Contents;
      inBuffer.Clear();
      ResetConnection(resolved);
    }

    method ResetConnection(resolved: bool)
      modifies `connState, `ack, `ping, `pCon, `ticks, `established, `armed
      ensures Look() == ConnectBegun(old(Look()), resolved)
    {
      ack, ping, pCon, ticks := NO_ACK, NO_PING, true, Ticks(0, 0, 0);
      connState, established, armed := if resolved then TcpConnecting else TcpReconnectReq, false, true;
    }

    method Disconnect()
      modifies `connState, `armed
      ensures Look() == old(Look()).(s := TcpDisconnecting, armed := false)
    {
      connState, armed := TcpDisconnecting, false;
    }

    // -------------------------------------------------------------------------
    // Queueing

    /** Puts a packet at the end of the queue, if it fits. */
    method Enqueue(message: seq<byte>) returns (ok: bool)
      requires Parts()
      modifies `enqueued, msgQueue`packets, msgQueue.rb`r, msgQueue.rb`w, msgQueue.rb`fillCnt, msgQueue.rb.buf
      ensures Parts() && Look() == Enqueued(old(Look()), message, msgQueue.rb.buf.Length)
      ensures ok == (|enqueued| > |old(enqueued)|)
    {
      hide Parts; hide Frames; hide Proto.Frame;
      ok := PutsOne(message);
      if ok {
        enqueued := enqueued + [message];
      }
    }

    method PutsOne(message: seq<byte>) returns (ok: bool)
      requires Parts()
      modifies msgQueue`packets, msgQueue.rb`r, msgQueue.rb`w, msgQueue.rb`fillCnt, msgQueue.rb.buf
      ensures Parts()
      ensures ok == (|Frames(old(msgQueue.packets))| + |Proto.Frame(message)| <= msgQueue.rb.buf.Length)
      ensures msgQueue.packets == if ok then old(msgQueue.packets) + [message] else old(msgQueue.packets)
    {
      hide Frames; hide Proto.Frame; hide RingBuffer.RingBuffer.Contents; hide StreamBuffer.Valid;
      var ret := msgQueue.Puts(message);
      ok := ret != -1;
    }

    /** MQTT_Publish: the packet is queued whole, or nothing changes in the queue. */
    method Publish(topic: seq<byte>, data: seq<byte>, qos: int, retain: nat) returns (ok: bool)
      requires Parts() && 0 !in topic && retain <= 1
      modifies `enqueued, `ids, connection, connection.buffer
      modifies msgQueue`packets, msgQueue.rb`r, msgQueue.rb`w, msgQueue.rb`fillCnt, msgQueue.rb.buf
      ensures Parts() && Look() == PublishStep(old(Look()), topic, data, qos, retain, msgQueue.rb.buf.Length)
      ensures ok == (|enqueued| > |old(enqueued)|)
    {
      hide PublishPacket; hide Frames; hide Proto.Frame; hide StreamBuffer.Valid; hide Enqueued; hide NextId;
      hide RingBuffer.RingBuffer.Contents;
      if qos < 0 || qos > 2 {
        return false;
      }
      var built, message, id := connection.Publish(topic, data, qos, retain);
      if qos > 0 && topic != [] && 5 + |topic| <= MQTT_BUF_SIZE {
        ids := ids + [connection.messageId];
      }
      if !built {
        return false;
      }
      ok := Enqueue(message);
    }

    method Subscribe(topic: seq<byte>, qos: int) returns (ok: bool)
      requires Parts() && 0 !in topic && 0 <= qos
      modifies `enqueued, `ids, connection, connection.buffer
      modifies msgQueue`packets, msgQueue.rb`r, msgQueue.rb`w, msgQueue.rb`fillCnt, msgQueue.rb.buf
      ensures Parts() && Look() == SubscribeStep(old(Look()), topic, qos, msgQueue.rb.buf.Length)
      ensures ok == (|enqueued| > |old(enqueued)|)
    {
      hide SubscribePacket; hide Frames; hide Proto.Frame; hide StreamBuffer.Valid; hide Enqueued; hide NextId;
      hide RingBuffer.RingBuffer.Contents;
      if qos > 2 {
        return false;
      }
      var built, message, id := connection.Subscribe(topic, qos);
      if topic != [] {
        ids := ids + [connection.messageId];
      }
      if !built {
        return false;
      }
      ok := Enqueue(message);
    }

    method PingRequest() returns (ok: bool)
      requires Parts()
      modifies `enqueued, connection, connection.buffer
      modifies msgQueue`packets, msgQueue.rb`r, msgQueue.rb`w, msgQueue.rb`fillCnt, msgQueue.rb.buf
      ensures Parts() && Look() == Enqueued(old(Look()), PingPacket(PINGREQ), msgQueue.rb.buf.Length)
      ensures ok == (|enqueued| > |old(enqueued)|)
    {
      hide PingPacket; hide Frames; hide Proto.Frame; hide StreamBuffer.Valid; hide Enqueued;
      hide RingBuffer.RingBuffer.Contents;
      var message := connection.Ping(PINGREQ);
      ok := Enqueue(message);
    }

    // -------------------------------------------------------------------------
    // The task, and whole runs

    /** Whether a complete packet waits in the buffer. */
    method FrontReady() returns (ready: bool)
      requires Parts()
      ensures ready == FrontAt(Stream(), pCon, connState)
    {
      hide PacketLength; hide AllPackets; hide Frames; hide RingBuffer.RingBuffer.Contents;
      NoFront();
      if inBuffer.used > 0 && connState != TcpReconnectDisconnecting && pCon {
        var n := inBuffer.FrontLength();
        return 0 < n <= inBuffer.used && n <= MQTT_BUF_SIZE;
      }
      return false;
    }

    static lemma NoFront()
      ensures PacketLength([]) == 0
    {
    }

    method ConnectAgain(resolved: bool)
      requires Parts()
      modifies `connState, `ack, `ping, `pCon, `ticks, `established, `armed, inBuffer`used, inBuffer`received, inBuffer`handled
      ensures Parts()
      ensures Whole() == State(ConnectBegun(Deleted(old(Look())), resolved).(s := TcpConnecting), [], inBuffer.data[3])
    {
      hide Parts;
      PartsStream();
      DeleteTcp();
      Connect(resolved);
      connState := TcpConnecting;
    }

    /** What the task does in each state. */
    method RunState(sendOk: bool, garbage: bool, resolved: bool)
      requires Parts() && (msgQueue.packets != [] ==> Queueable(msgQueue.packets[0]))
      modifies `connState, `ack, `ping, `pCon, `ticks, `established, `armed, `departed, `trace, `offered
      modifies inBuffer`used, inBuffer`received, inBuffer`handled
      modifies connection, connection.buffer, msgQueue`packets, msgQueue.rb`r, msgQueue.rb`w, msgQueue.rb`fillCnt
      ensures Parts()
      ensures Look() == RunStep(old(Look()), sendOk, resolved)
      ensures Stream() == if old(connState) == TcpReconnect || old(connState) == TcpDisconnected then [] else old(Stream())
      ensures inBuffer.data[3] == old(inBuffer.data[3])
    {
      hide Parts; hide SendStep; hide KeepaliveStep; hide Queueable;
      PartsStream();
      match connState
      case TcpReconnect => ConnectAgain(resolved);
      case TcpDisconnected => DeleteTcp();
      case MqttKeepaliveSend => SendKeepalive(sendOk);
      case MqttData => SendNext(sendOk, garbage);
      case _ =>
    }

    /** One run of the task: a buffered packet first, then what the state asks for. */
    method Task(sendOk: bool, garbage: bool, resolved: bool)
      requires Parts() && (msgQueue.packets != [] ==> Queueable(msgQueue.packets[0]))
      modifies `connState, `ack, `ping, `pCon, `ticks, `established, `armed, `departed, `trace, `offered, `ids
      modifies inBuffer, inBuffer.data
      modifies connection, connection.buffer, msgQueue`packets, msgQueue.rb`r, msgQueue.rb`w, msgQueue.rb`fillCnt
      ensures Parts() && Whole() == TaskStep(old(Whole()), sendOk, resolved)
    {
      hide Parts; hide FrontAt; hide Advanced; hide Queueable; hide FrontStep; hide RunStep;
      PartsStream();
      var ready := FrontReady();
      if ready {
        TaskFront(Whole());
        Recv([], sendOk, garbage);
      } else {
        RunState(sendOk, garbage, resolved);
        PartsStream();
      }
    }

    lemma TaskFront(st: State)
      requires Parts() && st == Whole()
      ensures RecvStep(st, [], true) == FrontStep(st, true) && RecvStep(st, [], false) == FrontStep(st, false)
    {
      hide FrontStep; hide Frames; hide RingBuffer.RingBuffer.Contents;
      assert st.stream + [] == st.stream;
    }

    /** Every event is the step of the state machine, and keeps the invariant. */
    method Handle(e: Event) returns (ok: bool)
      requires Valid() && SaneEvent(e)
      modifies `connState, `ack, `ping, `pCon, `ticks, `established, `armed, `enqueued, `departed, `trace, `offered, `ids, `queuedBefore
      modifies inBuffer, inBuffer.data, connection, connection.buffer
      modifies msgQueue`packets, msgQueue.rb`r, msgQueue.rb`w, msgQueue.rb`fillCnt, msgQueue.rb.buf
      ensures Valid() && Whole() == Next(old(Whole()), e, Cfg())
      ensures Grows(old(Look()), Look())
    {
      hide Parts; hide Inv; hide RecvStep; hide TaskStep; hide Ticked; hide ConnectBegun; hide Advanced; hide Queueable;
      hide Connected; hide Down; hide SendDone; hide DnsAnswered; hide Enqueued; hide Grows;
      hide PublishStep; hide SubscribeStep; hide PingPacket; hide PacketLength; hide Replied;
      ok := true;
      PartsStream();
      HeadQueueable(Look());
      NextKeeps(Whole(), e, Cfg());
      NextReplies(Whole(), e, Cfg());
      match e
      case Received(data, sendOk, garbage) => Recv(data, sendOk, garbage);
      case TaskRuns(sendOk, garbage, resolved) => Task(sendOk, garbage, resolved);
      case Tick =>
        if armed {
          Timer();
        }
      case DataSent => SentCallback();
      case TcpUp(built, sendOk) =>
        if !established && pCon {
          TcpConnected(built, sendOk);
        }
      case TcpDown => Disconnected();
      case TcpError => Reconnected();
      case DnsAnswer(found, anyAddress) => DnsFound(found, anyAddress);
      case ConnectCall(resolved) => Connect(resolved);
      case DisconnectCall => Disconnect();
      case PublishCall(topic, data, qos, retain) => ok := Publish(topic, data, qos, retain);
      case SubscribeCall(topic, qos) => ok := Subscribe(topic, qos);
      case PingCall => ok := PingRequest();
    }

    /** Over every run: what was queued is what left, followed by what is still queued, in
        order. Each packet that left has a send of its own in the trace and, if it needs
        one, an ack of its own behind that, handled while it was the oldest; only an ack of
        id 0 drops a packet without. And whatever comes in is acknowledged as its kind asks,
        by nothing but its own acknowledgement. */
    method Run(events: seq<Event>)
      requires Valid() && AllSane(events)
      modifies `connState, `ack, `ping, `pCon, `ticks, `established, `armed, `enqueued, `departed, `trace, `offered, `ids, `queuedBefore
      modifies inBuffer, inBuffer.data, connection, connection.buffer
      modifies msgQueue`packets, msgQueue.rb`r, msgQueue.rb`w, msgQueue.rb`fillCnt, msgQueue.rb.buf
      ensures Valid() && Whole() == After(old(Whole()), events, Cfg())
      ensures old(enqueued) <= enqueued && old(departed) <= departed && old(trace) <= trace
      ensures enqueued == Packets(departed) + msgQueue.packets
      ensures Accounted(departed, trace)
      ensures Subsequence(Packets(NotDropped(departed)), Sends(trace))
      ensures Replied(trace)
    {
      hide Valid; hide SaneEvent; hide Next; hide After; hide Whole; hide Parts;
      ValidParts();
      ghost var st := Whole();
      AfterNone(st, Cfg());
      for i := 0 to |events|
        invariant Valid() && Parts() && Whole() == After(st, events[..i], Cfg())
        invariant old(enqueued) <= enqueued && old(departed) <= departed && old(trace) <= trace
      {
        AfterOneMore(st, events, i, Cfg());
        var ok := Handle(events[i]);
        ValidParts();
      }
      assert events[..|events|] == events;
      Account();
    }

    lemma ValidParts()
      requires Valid()
      ensures Parts()
    {
    }

    lemma Account()
      requires Valid()
      ensures enqueued == Packets(departed) + msgQueue.packets && Accounted(departed, trace)
      ensures Subsequence(Packets(NotDropped(departed)), Sends(trace)) && Replied(trace)
    {
      hide Parts; hide Accounted; hide Replied; hide WaitInv; hide PendingInv; hide OfferInv; hide ConnInv; hide IdsInv;
      DeliveredInOrder(Look());
    }
  }

  /** A new client takes a run of events. `code`: what the receive buffer held in the place
      of the return code. */
  method TakeRun(keepalive: nat, queueSize: nat, events: seq<Event>) returns (c: Client, ghost code: byte)
    requires 2 <= queueSize <= MAX_QUEUE_SIZE && AllSane(events)
    ensures c.Valid() && c.Whole() == After(Initial(code), events, Config(keepalive, queueSize))
  {
    hide Inv; hide Client.Parts; hide After; hide SaneEvent;
    c := new Client(keepalive, queueSize);
    c.ValidParts();
    c.PartsStream();
    code := c.inBuffer.data[3];
    c.Run(events);
    c.ValidParts();
  }

  /** A new client takes the run in which an ack of id 0 drops a packet never sent. */
  method StrayAckRun(keepalive: nat, queueSize: nat, t1: seq<byte>, d1: seq<byte>, t2: seq<byte>, d2: seq<byte>)
    returns (c: Client)
    requires Fits(t1, d1, 0) && Fits(t2, d2, 1) && 0 !in t1 && 0 !in t2 && 2 <= queueSize <= MAX_QUEUE_SIZE
    requires |Proto.Frame(Made(t1, d1, 0, 0))| + |Proto.Frame(Made(t2, d2, 1, 1))| <= queueSize
    ensures var p1, p2 := Made(t1, d1, 0, 0), Made(t2, d2, 1, 1);
            && c.Valid() && c.enqueued == [p1, p2] && c.msgQueue.packets == [] && p1 != p2
            && c.departed == [SentOnce(p1, 1), Dropped(p2, 2)]
            && c.trace == [Took(ACCEPTED, false), Gave(p1, true), Took(AckPacket(PUBACK, 0), true)]
  {
    hide Made; hide Fits; hide Proto.Frame; hide Inv; hide Client.Parts; hide After; hide StrayRun; hide AckPacket;
    SaneRuns(t1, d1, t2, d2);
    ghost var code;
    c, code := TakeRun(keepalive, queueSize, StrayRun(t1, d1, t2, d2));
    StrayAckDropsUnsent(t1, d1, t2, d2, code, Config(keepalive, queueSize));
  }

  /** A new client takes the run after which two queued packets have one id. */
  method ReconnectIdRun(keepalive: nat, queueSize: nat, t1: seq<byte>, d1: seq<byte>, t2: seq<byte>, d2: seq<byte>)
    returns (c: Client)
    requires Fits(t1, d1, 1) && Fits(t2, d2, 1) && d1 != [] && d2 != [] && 0 !in t1 && 0 !in t2
    requires |Proto.Frame(Made(t1, d1, 1, 1))| + |Proto.Frame(Made(t2, d2, 1, 1))| <= queueSize <= MAX_QUEUE_SIZE
    requires 2 <= queueSize
    ensures var p1, p2 := Made(t1, d1, 1, 1), Made(t2, d2, 1, 1);
            && c.Valid() && c.msgQueue.packets == [p1, p2]
            && IsPacket(p1) && IsPacket(p2) && IdOf(p1) == IdOf(p2) == 1
  {
    hide Made; hide Fits; hide Proto.Frame; hide Inv; hide Client.Parts; hide After; hide ReconnectRun; hide IsPacket; hide IdOf;
    SaneRuns(t1, d1, t2, d2);
    ghost var code;
    c, code := TakeRun(keepalive, queueSize, ReconnectRun(t1, d1, t2, d2));
    TwoPacketsOneId(t1, d1, t2, d2, code, Config(keepalive, queueSize));
  }

  /** A new client takes the run in which a PUBACK ends a QoS 2 publish. */
  method EarlyPubackRun(keepalive: nat, queueSize: nat, topic: seq<byte>, data: seq<byte>) returns (c: Client)
    requires Fits(topic, data, 2) && data != [] && 0 !in topic && 2 <= queueSize <= MAX_QUEUE_SIZE
    requires |Proto.Frame(Made(topic, data, 2, 1))| <= queueSize
    ensures var p := Made(topic, data, 2, 1);
            && c.Valid() && QosOf(p) == 2 && c.msgQueue.packets == [] && c.departed == [Acked(p, 1, 2)]
            && c.trace == [Took(ACCEPTED, false), Gave(p, true), Took(AckPacket(PUBACK, 1), true)]
  {
    hide Made; hide Fits; hide Proto.Frame; hide Inv; hide Client.Parts; hide After; hide SentRun; hide AckPacket; hide QosOf;
    SentRunSane(topic, data, 2);
    ghost var code;
    c, code := TakeRun(keepalive, queueSize, SentRun(topic, data, 2) + [AckIn(PUBACK, 1)]);
    PubackEndsQos2(topic, data, code, Config(keepalive, queueSize));
  }

  /** What handling the front of the stream does: a complete packet is handled and
      removed; a malformed or oversized one, or a lost connection, clears everything. */
  ghost predicate Advanced(stream: seq<byte>, received: seq<byte>, handled: seq<seq<byte>>, torn: bool,
                           received': seq<byte>, handled': seq<seq<byte>>)
  {
    var n := PacketLength(stream);
    var whole := 0 < n <= |stream|;
    if n < 0 || n > MQTT_BUF_SIZE || (whole && torn) then
      received' == [] && handled' == []
    else
      received' == received && handled' == if whole then handled + [stream[..n]] else handled
  }

  /** The return code's place is in the stream, or behind it and as it was. */
  lemma CodeBehind(was: seq<byte>, now: seq<byte>, used: nat)
    requires |was| == |now| == MQTT_BUF_SIZE && used <= MQTT_BUF_SIZE && now[used..] == was[used..]
    ensures now[3] == if used > 3 then now[..used][3] else was[3]
  {
    if used <= 3 {
      assert now[3] == now[used..][3 - used] == was[used..][3 - used] == was[3];
    }
  }

  lemma NothingAtFront(st: State, received: seq<byte>, handled: seq<seq<byte>>, torn: bool, sendOk: bool)
    requires st.stream == []
    ensures Advanced(st.stream, received, handled, torn, received, handled)
    ensures FrontStep(st, sendOk) == st
  {
  }
}
