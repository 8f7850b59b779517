/** With a server that answers as it should, everything that is queued is delivered: each
    packet is given to TCP, answered, and leaves, and the next one follows. */
module MqttDelivery {
  import Proto
  import opened Queue
  import opened MqttMessage
  import opened MqttStream
  import opened MqttSteps
  import opened MqttTrace
  import opened MqttRuns
  import opened MqttFailures

  /** In service, with nothing outstanding and nothing buffered. */
  ghost predicate Ready(st: State) {
    && Inv(st.v) && st.v.s == MqttData && !st.v.ack.waiting && st.v.ack.timeout == 0 && !st.v.ping.waiting
    && st.stream == []
  }

  predicate SmallPacket(msg: seq<byte>) {
    IsPacket(msg) && |msg| <= MQTT_BUF_SIZE
  }

  /** What a server sends for p: nothing for QoS 0; PUBACK, SUBACK or PINGRESP; or PUBREC and
      then PUBCOMP, with the id of p. */
  predicate Fulfils(p: seq<byte>, answers: seq<seq<byte>>)
    requires Queueable(p)
  {
    if !NeedsAck(p) then answers == []
    else if |answers| == 1 then SmallPacket(answers[0]) && Finishes(answers[0], p) && TypeOf(answers[0]) != PUBCOMP
    else
      && |answers| == 2 && TypeOf(p) == PUBLISH && SmallPacket(answers[0]) && SmallPacket(answers[1])
      && TypeOf(answers[0]) == PUBREC && IdOf(answers[0]) == IdOf(p)
      && TypeOf(answers[1]) == PUBCOMP && IdOf(answers[1]) == IdOf(p)
  }

  function Arrivals(answers: seq<seq<byte>>): seq<Event> {
    if answers == [] then [DataSent]
    else if |answers| == 1 then [Received(answers[0], true, false)]
    else [Received(answers[0], true, false), Received(answers[1], true, false)]
  }

  /** A run of the task for each packet, and what the server sends for it. */
  function Exchanges(answers: seq<seq<seq<byte>>>): seq<Event> {
    if answers == [] then [] else [TaskRuns(true, false, true)] + Arrivals(answers[0]) + Exchanges(answers[1..])
  }

  // ---------------------------------------------------------------------------
  // One packet

  lemma GoesOut(st: State, cfg: Config)
    requires Ready(st) && st.v.packets != []
    ensures var p, w := st.v.packets[0], Next(st, TaskRuns(true, false, true), cfg);
            && Queueable(p) && w == st.(v := SentOut(st.v, p)) && Inv(w.v)
            && w.v.trace == st.v.trace + [Gave(p, true)]
  {
    hide Fifo; hide Accounted; hide OfferInv; hide WaitInv; hide PendingInv; hide IdsInv; hide BuiltInv; hide Queueable; hide NeedsAck;
    hide IdOf;
    HeadQueueable(st.v);
    NothingThere();
    NextKeeps(st, TaskRuns(true, false, true), cfg);
  }

  lemma NothingThere()
    ensures PacketLength([]) == 0
  {
  }

  lemma PacketArrives(st: State, msg: seq<byte>, cfg: Config)
    requires st.stream == [] && SmallPacket(msg)
    ensures var w, code := Next(st, Received(msg, true, false), cfg), if |msg| > 3 then msg[3] else st.code;
            w.v == Handled(st.v, msg, code, true) && w.stream == []
  {
    hide IsPacket; hide PacketLength; hide Handled;
    WholePacket(msg);
    assert [] + msg == msg && msg[|msg|..] == [] && msg[..|msg|] == msg;
  }

  /** The awaited answer ends the exchange, and the packet is gone. */
  lemma AnswerEnds(st: State, msg: seq<byte>, cfg: Config)
    requires Inv(st.v) && st.v.s == MqttData && st.stream == [] && st.v.ack.waiting && SmallPacket(msg)
    requires st.v.packets != [] && Queueable(st.v.packets[0])
    requires Finishes(msg, st.v.packets[0]) && (TypeOf(msg) == PUBCOMP <==> st.v.ack.kind == PUBREL)
    ensures var w := Next(st, Received(msg, true, false), cfg);
            && Ready(w) && w.v.packets == st.v.packets[1..] && w.v.enqueued == st.v.enqueued
            && |w.v.departed| == |st.v.departed| + 1 && st.v.trace <= w.v.trace
  {
    hide Inv; hide IsPacket; hide Handled; hide Pops; hide Finishes; hide Queueable;
    PopsExactly(st.v, msg);
    PacketArrives(st, msg, cfg);
    NextKeeps(st, Received(msg, true, false), cfg);
    OneWaitAtATime(st.v);
    PoppedHandled(st.v, msg, if |msg| > 3 then msg[3] else st.code);
  }

  lemma PoppedHandled(v: View, msg: seq<byte>, code: byte)
    requires v.s == MqttData && v.ack.waiting && !v.ping.waiting && IsPacket(msg) && Pops(msg, v.ack, v.ping) && v.packets != []
    ensures var w := Handled(v, msg, code, true);
            && w.s == MqttData && w.ack == NO_ACK && w.ping == v.ping && w.packets == v.packets[1..] && w.enqueued == v.enqueued
            && |w.departed| == |v.departed| + 1 && v.trace <= w.trace
  {
    hide IsPacket; hide IdOf;
  }

  /** PUBREC: the exchange goes on with PUBREL. */
  lemma PubrecAdvances(st: State, msg: seq<byte>, cfg: Config)
    requires Inv(st.v) && st.v.s == MqttData && st.stream == [] && st.v.ack.waiting && st.v.ack.kind == PUBLISH
    requires SmallPacket(msg) && TypeOf(msg) == PUBREC && IdOf(msg) == st.v.ack.id
    ensures var w := Next(st, Received(msg, true, false), cfg);
            && Inv(w.v) && w.v.s == MqttData && w.stream == [] && w.v.ack.waiting && w.v.ack.kind == PUBREL
            && w.v.packets == st.v.packets && w.v.enqueued == st.v.enqueued && w.v.departed == st.v.departed
            && st.v.trace <= w.v.trace
  {
    hide Inv; hide IsPacket; hide Handled; hide IdOf; hide TypeOf;
    PacketArrives(st, msg, cfg);
    NextKeeps(st, Received(msg, true, false), cfg);
    InUseConnected(st.v);
    AdvancedHandled(st.v, msg, if |msg| > 3 then msg[3] else st.code);
  }

  lemma InUseConnected(v: View)
    requires Inv(v) && v.s == MqttData
    ensures v.pCon
  {
    hide Fifo; hide Accounted; hide OfferInv; hide WaitInv; hide PendingInv; hide IdsInv; hide BuiltInv;
  }

  lemma AdvancedHandled(v: View, msg: seq<byte>, code: byte)
    requires v.s == MqttData && v.pCon && v.ack.waiting && v.ack.kind == PUBLISH
    requires IsPacket(msg) && TypeOf(msg) == PUBREC && IdOf(msg) == v.ack.id
    ensures var w := Handled(v, msg, code, true);
            && w.s == MqttData && w.ack.waiting && w.ack.kind == PUBREL && w.packets == v.packets && w.enqueued == v.enqueued
            && w.departed == v.departed && v.trace <= w.trace
  {
    hide IsPacket; hide IdOf; hide AckPacket; hide NextId;
  }

  /** One packet goes out, is answered, and is gone. */
  lemma OneDelivered(st: State, answers: seq<seq<byte>>, cfg: Config)
    requires Ready(st) && st.v.packets != [] && Queueable(st.v.packets[0]) && Fulfils(st.v.packets[0], answers)
    ensures var w := After(st, [TaskRuns(true, false, true)] + Arrivals(answers), cfg);
            && Ready(w) && w.v.packets == st.v.packets[1..] && w.v.enqueued == st.v.enqueued
            && |w.v.departed| == |st.v.departed| + 1
            && |st.v.trace| < |w.v.trace| && st.v.trace <= w.v.trace && w.v.trace[|st.v.trace|] == Gave(st.v.packets[0], true)
  {
    hide Inv; hide Next; hide Queueable; hide NeedsAck; hide Finishes; hide IsPacket; hide IdOf; hide After;
    var p, task := st.v.packets[0], TaskRuns(true, false, true);
    GoesOut(st, cfg);
    var sent := Next(st, task, cfg);
    SentWaits(st.v, p);
    if answers == [] {
      AfterTwo(st, task, DataSent, [], cfg);
      AfterNone(Next(sent, DataSent, cfg), cfg);
      assert [task] + [DataSent] == [task, DataSent] + [];
      NothingAwaited(sent, cfg);
    } else if |answers| == 1 {
      var e := Received(answers[0], true, false);
      AfterTwo(st, task, e, [], cfg);
      AfterNone(Next(sent, e, cfg), cfg);
      assert [task] + [e] == [task, e] + [];
      AnswerEnds(sent, answers[0], cfg);
    } else {
      var e, f := Received(answers[0], true, false), Received(answers[1], true, false);
      AfterTwo(st, task, e, [f], cfg);
      AfterOne(Next(sent, e, cfg), f, cfg);
      assert [task] + [e, f] == [task, e] + [f];
      PubrecAdvances(sent, answers[0], cfg);
      CompFinishes(answers[1], p);
      AnswerEnds(Next(sent, e, cfg), answers[1], cfg);
    }
  }

  lemma SentWaits(v: View, p: seq<byte>)
    requires v.packets != [] && p == v.packets[0] && Queueable(p)
    ensures var w := SentOut(v, p);
            && w.s == v.s && w.ping == v.ping && w.enqueued == v.enqueued
            && w.ack == Ack(NeedsAck(p), TypeOf(p), IdOf(p), MQTT_SEND_TIMEOUT)
            && (if NeedsAck(p) then w.packets == v.packets && w.departed == v.departed
                else w.packets == v.packets[1..] && |w.departed| == |v.departed| + 1)
            && TypeOf(p) != PUBREL
  {
    hide IsPacket; hide IdOf;
  }

  lemma CompFinishes(msg: seq<byte>, p: seq<byte>)
    requires SmallPacket(msg) && TypeOf(msg) == PUBCOMP && IdOf(msg) == IdOf(p)
    requires Queueable(p) && NeedsAck(p) && TypeOf(p) == PUBLISH
    ensures Finishes(msg, p)
  {
    hide IsPacket; hide IdOf;
  }

  lemma NothingAwaited(st: State, cfg: Config)
    requires Inv(st.v) && st.v.s == MqttData && !st.v.ack.waiting && !st.v.ping.waiting && st.stream == []
    ensures var w := Next(st, DataSent, cfg);
            && Ready(w) && w.v.packets == st.v.packets && w.v.enqueued == st.v.enqueued && w.v.departed == st.v.departed
            && w.v.trace == st.v.trace
  {
    hide Inv;
    NextKeeps(st, DataSent, cfg);
  }

  // ---------------------------------------------------------------------------
  // The whole queue

  ghost predicate AllFulfilled(packets: seq<seq<byte>>, answers: seq<seq<seq<byte>>>) {
    && |packets| == |answers|
    && forall i | 0 <= i < |packets| :: Queueable(packets[i]) && Fulfils(packets[i], answers[i])
  }

  /** Everything queued is delivered, in order, and nothing is left. */
  lemma {:induction false} QueueDelivered(st: State, answers: seq<seq<seq<byte>>>, cfg: Config)
    requires Ready(st) && AllFulfilled(st.v.packets, answers)
    ensures var w := After(st, Exchanges(answers), cfg);
            && Ready(w) && w.v.packets == [] && w.v.enqueued == st.v.enqueued
            && |w.v.departed| == |st.v.departed| + |st.v.packets|
            && Packets(w.v.departed) == w.v.enqueued
    decreases |answers|
  {
    hide Ready; hide Queueable; hide Fulfils; hide Arrivals; hide After;
    if answers == [] {
      AfterNone(st, cfg);
      AllGone(st);
    } else {
      OneDelivered(st, answers[0], cfg);
      var first := [TaskRuns(true, false, true)] + Arrivals(answers[0]);
      AfterConcat(st, first, Exchanges(answers[1..]), cfg);
      QueueDelivered(After(st, first, cfg), answers[1..], cfg);
    }
  }

  lemma AllGone(st: State)
    requires Ready(st) && st.v.packets == []
    ensures Packets(st.v.departed) == st.v.enqueued
  {
    hide Accounted; hide OfferInv; hide WaitInv; hide PendingInv; hide ConnInv; hide IdsInv; hide BuiltInv;
  }
}
