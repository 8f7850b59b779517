/** Which acknowledgements and answers the MQTT client sends for what it receives (sections
    3.12 and 4.3 of MQTT 3.1.1), in the bytes that go out. */
module MqttReplies {
  import Proto
  import opened Queue
  import opened MqttMessage
  import opened MqttStream
  import opened MqttSteps
  import opened MqttTrace
  import opened MqttRuns

  /** The automatic PINGREQ. */
  const PING: seq<byte> := [0xC0, 0]

  /** p answers msg: PUBACK a PUBLISH of QoS 1, PUBREC one of QoS 2, PUBREL a PUBREC, PUBCOMP
      a PUBREL, each with its id unless that is 0, and PINGRESP a PINGREQ. */
  predicate IsReply(p: seq<byte>, msg: seq<byte>) {
    && IsPacket(msg)
    && if p == [0xD0, 0] then TypeOf(msg) == PINGREQ
       else
         && |p| == 4 && p[1] == 2 && WordAt(p, 2) > 0 && (IdOf(msg) != 0 ==> WordAt(p, 2) == IdOf(msg))
         && match p[0]
            case 0x40 => TypeOf(msg) == PUBLISH && QosOf(msg) == 1
            case 0x50 => TypeOf(msg) == PUBLISH && QosOf(msg) == 2
            case 0x62 => TypeOf(msg) == PUBREC
            case 0x70 => TypeOf(msg) == PUBREL
            case _ => false
  }

  /** What is to be answered whatever the client waits for. */
  predicate AsksForReply(msg: seq<byte>) {
    && IsPacket(msg)
    && ((TypeOf(msg) == PUBLISH && 1 <= QosOf(msg) <= 2) || TypeOf(msg) == PUBREL || TypeOf(msg) == PINGREQ)
  }

  /** What is sent without being queued is a PINGREQ or answers the packet handled just
      before, in service. */
  ghost predicate Answering(trace: seq<Entry>) {
    forall k | 0 <= k < |trace| && trace[k].Gave? && !trace[k].queued ::
      || trace[k].packet == PING
      || (k > 0 && trace[k - 1].Took? && trace[k - 1].live && IsReply(trace[k].packet, trace[k - 1].msg))
  }

  /** A packet that asks for it, handled in service while TCP takes what is sent, is
      answered at once. */
  ghost predicate AnsweredAtOnce(trace: seq<Entry>) {
    forall k | 0 <= k < |trace| && trace[k].Took? && trace[k].live && AsksForReply(trace[k].msg) ::
      && k + 1 < |trace| && trace[k + 1].Gave? && !trace[k + 1].queued
      && IsReply(trace[k + 1].packet, trace[k].msg)
  }

  ghost predicate Replied(trace: seq<Entry>) {
    Answering(trace) && AnsweredAtOnce(trace)
  }

  // ---------------------------------------------------------------------------
  // One entry more

  lemma QueuedGiven(trace: seq<Entry>, p: seq<byte>)
    requires Replied(trace)
    ensures Replied(trace + [Gave(p, true)])
  {
    hide IsReply; hide AsksForReply;
  }

  lemma PingGiven(trace: seq<Entry>)
    requires Replied(trace)
    ensures Replied(trace + [Gave(PING, false)])
  {
    hide IsReply; hide AsksForReply;
  }

  lemma UnansweredTaken(trace: seq<Entry>, msg: seq<byte>, live: bool)
    requires Replied(trace) && (live ==> !AsksForReply(msg))
    ensures Replied(trace + [Took(msg, live)])
  {
    hide IsReply; hide AsksForReply;
  }

  lemma ReplyGiven(trace: seq<Entry>, msg: seq<byte>, p: seq<byte>)
    requires Replied(trace) && IsReply(p, msg)
    ensures Replied(trace + [Took(msg, true), Gave(p, false)])
  {
    hide IsReply; hide AsksForReply;
  }

  // ---------------------------------------------------------------------------
  // The packets that are sent

  lemma AckBytes(kind: nat, id: nat)
    requires kind in {PUBACK, PUBREC, PUBREL, PUBCOMP} && id < 65536
    ensures var p := AckPacket(kind, id);
            && |p| == 4 && p[1] == 2 && WordAt(p, 2) == id
            && p[0] == (if kind == PUBACK then 0x40 else if kind == PUBREC then 0x50 else if kind == PUBREL then 0x62 else 0x70)
  {
    AckLayout(kind, id);
  }

  lemma IdSmall(msg: seq<byte>)
    requires IsPacket(msg)
    ensures IdOf(msg) < 65536
  {
  }

  /** The packet of this kind with the id of msg, or with a new one, is its reply. */
  lemma AckReplies(kind: nat, id: nat, msg: seq<byte>)
    requires IsPacket(msg) && 0 < id < 65536 && (IdOf(msg) != 0 ==> id == IdOf(msg))
    requires || (kind == PUBACK && TypeOf(msg) == PUBLISH && QosOf(msg) == 1)
             || (kind == PUBREC && TypeOf(msg) == PUBLISH && QosOf(msg) == 2)
             || (kind == PUBREL && TypeOf(msg) == PUBREC)
             || (kind == PUBCOMP && TypeOf(msg) == PUBREL)
    ensures IsReply(AckPacket(kind, id), msg)
  {
    hide IsPacket; hide AckPacket; hide WordAt; hide IdOf;
    AckBytes(kind, id);
  }

  // ---------------------------------------------------------------------------
  // Steps

  /** An acknowledgement, sent right after its packet was taken. */
  lemma AckingReplies(v: View, w: View, msg: seq<byte>, kind: nat, sendOk: bool)
    requires IsPacket(msg) && Replied(v.trace) && w.trace == v.trace + [Took(msg, v.pCon && sendOk)] && w.pCon == v.pCon
    requires || (kind == PUBACK && TypeOf(msg) == PUBLISH && QosOf(msg) == 1)
             || (kind == PUBREC && TypeOf(msg) == PUBLISH && QosOf(msg) == 2)
             || (kind == PUBREL && TypeOf(msg) == PUBREC)
             || (kind == PUBCOMP && TypeOf(msg) == PUBREL)
    ensures Replied(Acking(w, kind, IdOf(msg), sendOk).trace)
  {
    hide IsPacket; hide IdOf; hide AckPacket; hide NextId; hide Replied; hide IsReply; hide AsksForReply;
    if v.pCon && sendOk {
      IdSmall(msg);
      var id := if IdOf(msg) == 0 then NextId(w.id) else IdOf(msg);
      AckReplies(kind, id, msg);
      ReplyGiven(v.trace, msg, AckPacket(kind, id));
      assert w.trace + [Gave(AckPacket(kind, id), false)] == v.trace + [Took(msg, true), Gave(AckPacket(kind, id), false)];
    } else {
      UnansweredTaken(v.trace, msg, false);
    }
  }

  lemma PongReplies(v: View, w: View, msg: seq<byte>, sendOk: bool)
    requires IsPacket(msg) && Replied(v.trace) && w.trace == v.trace + [Took(msg, v.pCon && sendOk)] && w.pCon == v.pCon
    requires TypeOf(msg) == PINGREQ
    ensures Replied(Sending(w, PingPacket(PINGRESP), sendOk).trace)
  {
    hide IsPacket; hide IdOf; hide PingPacket; hide Replied; hide AsksForReply;
    PingLayout();
    if v.pCon && sendOk {
      ReplyGiven(v.trace, msg, [0xD0, 0]);
      assert w.trace + [Gave([0xD0, 0], false)] == v.trace + [Took(msg, true), Gave([0xD0, 0], false)];
    } else {
      UnansweredTaken(v.trace, msg, false);
    }
  }

  lemma ServiceReplies(v: View, msg: seq<byte>, sendOk: bool)
    requires IsPacket(msg) && Replied(v.trace)
    ensures Replied(InService(Taken(v, msg, v.pCon && sendOk), msg, sendOk).trace)
  {
    hide IsPacket; hide IdOf; hide Acking; hide Sending; hide Replied; hide PingPacket; hide Dropping; hide Pops;
    var live := v.pCon && sendOk;
    var w := Taken(v, msg, live);
    DropsNoTrace(w);
    DropsNoTrace(w.(ticks := w.ticks.(keepAlive := 0)));
    PopsNoRequest(msg, w.ack, w.ping);
    if AsksForReply(msg) {
      if TypeOf(msg) == PINGREQ {
        PongReplies(v, w, msg, sendOk);
      } else {
        AckingReplies(v, w, msg, if TypeOf(msg) == PUBREL then PUBCOMP else if QosOf(msg) == 1 then PUBACK else PUBREC, sendOk);
      }
    } else {
      UnansweredTaken(v.trace, msg, live);
      if TypeOf(msg) == PUBREC {
        AckingReplies(v, w.(ack := Ack(true, PUBREL, w.ack.id, MQTT_SEND_TIMEOUT)), msg, PUBREL, sendOk);
      }
    }
  }

  lemma DropsNoTrace(v: View)
    ensures Dropping(v).trace == v.trace
  {
  }

  lemma PopsNoRequest(msg: seq<byte>, ack: Ack, ping: Ping)
    requires IsPacket(msg)
    ensures Pops(msg, ack, ping) ==> !AsksForReply(msg) && TypeOf(msg) != PUBREC
  {
    hide IsPacket; hide IdOf;
  }

  lemma HandledReplies(v: View, msg: seq<byte>, code: byte, sendOk: bool)
    requires IsPacket(msg) && Replied(v.trace)
    ensures Replied(Handled(v, msg, code, sendOk).trace)
  {
    hide IsPacket; hide InService; hide Connecting; hide Replied;
    if Serving(v.s) {
      ServiceReplies(v, msg, sendOk);
    } else {
      UnansweredTaken(v.trace, msg, false);
      ConnectTook(Taken(v, msg, false), msg, code);
    }
  }

  lemma FrontReplies(st: State, sendOk: bool)
    requires Replied(st.v.trace)
    ensures Replied(FrontStep(st, sendOk).v.trace)
  {
    hide IsPacket; hide PacketLength; hide Handled; hide Replied;
    var n := PacketLength(st.stream);
    if 0 < n <= |st.stream| && IsPacket(st.stream[..n]) {
      HandledReplies(st.v, st.stream[..n], st.code, sendOk);
    }
  }

  lemma RunReplies(v: View, sendOk: bool, resolved: bool)
    requires Replied(v.trace)
    ensures Replied(RunStep(v, sendOk, resolved).trace)
  {
    hide Queueable; hide NeedsAck; hide PingPacket; hide IdOf; hide Replied;
    PingLayout();
    PingGiven(v.trace);
    if v.packets != [] {
      QueuedGiven(v.trace, v.packets[0]);
    }
  }

  lemma TicksNoTrace(v: View, keepalive: nat)
    ensures Ticked(v, keepalive).trace == v.trace
  {
    hide StateTicked; hide PingTicked; hide AckTicked;
    StateNoTrace(v, keepalive);
    WaitsNoTrace(StateTicked(v, keepalive));
    WaitsNoTrace(PingTicked(StateTicked(v, keepalive)));
  }

  lemma StateNoTrace(v: View, keepalive: nat)
    ensures StateTicked(v, keepalive).trace == v.trace
  {
  }

  lemma WaitsNoTrace(v: View)
    ensures PingTicked(v).trace == v.trace && AckTicked(v).trace == v.trace
  {
  }

  lemma CallsNoTrace(v: View, topic: seq<byte>, data: seq<byte>, qos: int, retain: nat, room: nat)
    ensures PublishStep(v, topic, data, qos, retain, room).trace == v.trace
    ensures SubscribeStep(v, topic, qos, room).trace == v.trace
    ensures Enqueued(v, data, room).trace == v.trace
  {
    hide Frames; hide Proto.Frame; hide PublishPacket; hide SubscribePacket; hide NextId;
  }

  lemma NextReplies(st: State, e: Event, cfg: Config)
    requires Replied(st.v.trace)
    ensures Replied(Next(st, e, cfg).v.trace)
  {
    hide FrontStep; hide RunStep; hide FrontAt; hide PublishStep; hide SubscribeStep; hide Enqueued; hide PingPacket;
    hide Ticked; hide Replied;
    match e
    case Received(data, sendOk, _) => FrontReplies(Buffered(st.v, st.stream + data, st.code), sendOk);
    case TaskRuns(sendOk, _, resolved) =>
      FrontReplies(st, sendOk);
      RunReplies(st.v, sendOk, resolved);
    case Tick => TicksNoTrace(st.v, cfg.keepalive);
    case PublishCall(topic, data, qos, retain) => CallsNoTrace(st.v, topic, data, qos, retain, cfg.room);
    case SubscribeCall(topic, qos) => CallsNoTrace(st.v, topic, [], qos, 0, cfg.room);
    case PingCall => CallsNoTrace(st.v, [], PingPacket(PINGREQ), 0, 0, cfg.room);
    case _ =>
  }

  /** Over every run: each acknowledgement that goes out answers the packet handled just
      before it, by type, QoS and id, and each packet that asks for one gets it at once. */
  lemma {:induction false} RepliesOverRuns(st: State, events: seq<Event>, cfg: Config)
    requires Replied(st.v.trace)
    ensures Replied(After(st, events, cfg).v.trace)
    decreases |events|
  {
    hide Next; hide Replied;
    if events != [] {
      NextReplies(st, events[0], cfg);
      RepliesOverRuns(Next(st, events[0], cfg), events[1..], cfg);
    }
  }

  /** In service the entry of a packet says exactly whether TCP takes what is sent: there is
      a connection. */
  lemma HandledLive(v: View, msg: seq<byte>, code: byte, sendOk: bool)
    requires Inv(v) && IsPacket(msg)
    ensures var w := Handled(v, msg, code, sendOk);
            |v.trace| < |w.trace| && w.trace[|v.trace|] == Took(msg, Serving(v.s) && sendOk)
  {
    hide IsPacket; hide Handled; hide Fifo; hide Accounted; hide OfferInv; hide WaitInv; hide PendingInv; hide IdsInv; hide BuiltInv;
    TookIt(v, msg, code, sendOk);
  }

  lemma NothingReplied()
    ensures Replied([])
  {
  }
}
