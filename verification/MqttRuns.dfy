/** What holds over every run of the MQTT client: nothing queued is lost, repeated or
    reordered, everything that leaves the queue was sent and, if it needs one, answered,
    and every wait ends. Where the client fails, the runs that show it. */
module MqttRuns {
  import Bits
  import Proto
  import opened Queue
  import opened MqttMessage
  import opened MqttStream
  import opened MqttSteps
  import opened MqttTrace

  // ---------------------------------------------------------------------------
  // Waiting

  /** In service the client never waits for a queued packet's ack and for an automatic
      PINGRESP at once, and everything it waits for has a running timeout. */
  ghost predicate WaitInv(s: ConnState, ack: Ack, ping: Ping) {
    && ack.timeout <= MQTT_SEND_TIMEOUT && ping.timeout <= MQTT_SEND_TIMEOUT
    && (Serving(s) ==> !(ack.waiting && ping.waiting))
    && (InUse(s) ==> (ack.waiting ==> 0 < ack.timeout) && (ping.waiting ==> 0 < ping.timeout))
  }

  /** What is awaited is the ack of the oldest packet. */
  ghost predicate PendingInv(s: ConnState, ack: Ack, packets: seq<seq<byte>>) {
    && (Serving(s) ==>
          if ack.waiting then
            && packets != [] && Queueable(packets[0]) && NeedsAck(packets[0]) && ack.id == IdOf(packets[0])
            && (ack.kind == TypeOf(packets[0]) || (ack.kind == PUBREL && TypeOf(packets[0]) == PUBLISH))
          else
            ack.id == 0 && ack.kind in {0, PUBLISH})
    && (s == MqttConnectSending ==> if ack.waiting then ack.kind == CONNECT else ack.kind == 0)
  }

  /** The packet awaited was given to TCP, after everything that explains the departures,
      and its exchange is open: PUBREL is pending exactly after a PUBREC. */
  ghost predicate OfferInv(s: ConnState, ack: Ack, packets: seq<seq<byte>>, departed: seq<Departure>,
                           trace: seq<Entry>, offered: nat)
  {
    Serving(s) && ack.waiting ==>
      && packets != [] && offered < |trace| && trace[offered] == Gave(packets[0], true)
      && (forall i | 0 <= i < |departed| :: departed[i].Last() < offered)
      && Open(packets[0], trace[offered + 1..])
      && (ack.kind == PUBREL <==> Released(packets[0], trace[offered + 1..]))
  }

  /** Any entry but a final ack and a PUBREC. */
  lemma OfferStays(s: ConnState, ack: Ack, packets: seq<seq<byte>>, departed: seq<Departure>,
                   trace: seq<Entry>, offered: nat, e: Entry)
    requires OfferInv(s, ack, packets, departed, trace, offered)
    requires Serving(s) && ack.waiting && packets != [] && e.Took? ==>
               !IsPubrec(e, packets[0]) && !FinalAck(e.msg, packets[0], trace[offered + 1..])
    ensures OfferInv(s, ack, packets, departed, trace + [e], offered)
  {
    hide IsPubrec; hide FinalAck; hide Open; hide Released;
    if Serving(s) && ack.waiting {
      assert (trace + [e])[offered + 1..] == trace[offered + 1..] + [e];
      NotPubrec(e, packets[0]);
      StaysOpen(packets[0], trace[offered + 1..], e);
    }
  }

  lemma NotPubrec(e: Entry, p: seq<byte>)
    ensures e.Gave? ==> !IsPubrec(e, p)
  {
  }

  ghost predicate ConnInv(s: ConnState, pCon: bool, up: bool, ping: Ping) {
    && (InUse(s) ==> up && pCon)
    && (!up || s == MqttConnectSending ==> ping == NO_PING)
  }

  // ---------------------------------------------------------------------------
  // Packet ids

  /** The n-th id after a TCP connect, the first being 1. */
  function IdNumber(n: nat): nat {
    if n == 0 then 0 else 1 + (n - 1) % 65535
  }

  ghost predicate IdsInv(id: nat, ids: seq<nat>) {
    && id == IdNumber(|ids|)
    && forall i | 0 <= i < |ids| :: ids[i] == IdNumber(i + 1)
  }

  lemma NextNumber(n: nat)
    ensures NextId(IdNumber(n)) == IdNumber(n + 1) && IdNumber(n) < 65536
  {
  }

  /** Of the ids given since TCP connected last, any 65535 in a row are distinct, and
      then they repeat. */
  lemma IdsDistinct(id: nat, ids: seq<nat>, i: nat, j: nat)
    requires IdsInv(id, ids) && i < j < |ids|
    ensures 0 < ids[i] < 65536
    ensures j - i < 65535 ==> ids[i] != ids[j]
    ensures j - i == 65535 ==> ids[i] == ids[j]
  {
  }

  /** While fewer than 65536 ids were given, the packets queued since TCP connected last
      carry ids that rise; 0 is an id that cannot be read. */
  ghost predicate BuiltInv(enqueued: seq<seq<byte>>, before: nat, ids: seq<nat>) {
    && before <= |enqueued|
    && (|ids| < 65536 ==>
          && (forall i | before <= i < |enqueued| :: IdOf(enqueued[i]) <= |ids|)
          && (forall i, j | before <= i < j < |enqueued| && IdOf(enqueued[i]) != 0 && IdOf(enqueued[j]) != 0 ::
                IdOf(enqueued[i]) < IdOf(enqueued[j])))
  }

  lemma OneMoreId(enqueued: seq<seq<byte>>, before: nat, ids: seq<nat>, id: nat)
    requires BuiltInv(enqueued, before, ids)
    ensures BuiltInv(enqueued, before, ids + [id])
  {
    hide IdOf;
  }

  lemma OneMoreBuilt(enqueued: seq<seq<byte>>, before: nat, ids: seq<nat>, id: nat, p: seq<byte>)
    requires BuiltInv(enqueued, before, ids)
    requires IdOf(p) == 0 || (IdOf(p) == id && (|ids| + 1 < 65536 ==> id == |ids| + 1))
    ensures BuiltInv(enqueued + [p], before, ids + [id])
    ensures IdOf(p) == 0 ==> BuiltInv(enqueued + [p], before, ids)
  {
    hide IdOf;
  }

  // ---------------------------------------------------------------------------
  // The invariant

  ghost predicate Inv(v: View) {
    && Fifo(v.enqueued, v.departed, v.packets) && Accounted(v.departed, v.trace)
    && OfferInv(v.s, v.ack, v.packets, v.departed, v.trace, v.offered)
    && WaitInv(v.s, v.ack, v.ping) && PendingInv(v.s, v.ack, v.packets)
    && ConnInv(v.s, v.pCon, v.up, v.ping) && IdsInv(v.id, v.ids) && BuiltInv(v.enqueued, v.queuedBefore, v.ids)
  }

  /** The packets still queued of those built since TCP connected last have different ids,
      as long as fewer than 65536 ids were given since. */
  lemma QueuedIdsDistinct(v: View, i: nat, j: nat)
    requires Inv(v) && |v.ids| < 65536
    requires v.queuedBefore <= |v.departed| + i && i < j < |v.packets|
    requires IdOf(v.packets[i]) != 0 && IdOf(v.packets[j]) != 0
    ensures IdOf(v.packets[i]) != IdOf(v.packets[j])
  {
    hide IdOf; hide Accounted; hide OfferInv; hide WaitInv; hide PendingInv; hide ConnInv; hide IdsInv;
    assert v.enqueued[|v.departed| + i] == v.packets[i] && v.enqueued[|v.departed| + j] == v.packets[j];
  }

  /** Nothing that was queued, left the queue or happened is taken back. */
  ghost predicate Grows(v: View, w: View) {
    v.enqueued <= w.enqueued && v.departed <= w.departed && v.trace <= w.trace
  }

  lemma InitialInv(code: byte)
    ensures Inv(Initial(code).v)
  {
    assert Packets([]) == [];
  }

  lemma KeepsSending(v: View, message: seq<byte>, sendOk: bool)
    requires Inv(v)
    ensures Inv(Sending(v, message, sendOk)) && Grows(v, Sending(v, message, sendOk))
  {
    hide Fifo; hide Accounted; hide IdsInv; hide BuiltInv; hide Queueable; hide NeedsAck; hide OfferInv;
    TraceGrows(v.departed, v.trace, Gave(message, false));
    OfferStays(v.s, v.ack, v.packets, v.departed, v.trace, v.offered, Gave(message, false));
    OutsideOffers(v.ack, v.packets, v.departed, v.trace, v.offered);
  }

  lemma OutsideOffers(ack: Ack, packets: seq<seq<byte>>, departed: seq<Departure>, trace: seq<Entry>, offered: nat)
    ensures forall s: ConnState | !Serving(s) :: OfferInv(s, ack, packets, departed, trace, offered)
  {
  }

  lemma KeepsNewId(v: View)
    requires Inv(v)
    ensures Inv(NewId(v)) && Grows(v, NewId(v))
  {
    hide Fifo; hide Accounted; hide WaitInv; hide PendingInv; hide OfferInv; hide ConnInv; hide IdNumber; hide NextId;
    hide BuiltInv;
    NextNumber(|v.ids|);
    OneMoreId(v.enqueued, v.queuedBefore, v.ids, NextId(v.id));
  }

  lemma KeepsAcking(v: View, kind: nat, id: nat, sendOk: bool)
    requires Inv(v)
    ensures Inv(Acking(v, kind, id, sendOk)) && Grows(v, Acking(v, kind, id, sendOk))
  {
    hide Inv; hide Sending; hide NewId;
    KeepsNewId(v);
    KeepsSending(if id == 0 then NewId(v) else v, AckPacket(kind, if id == 0 then NewId(v).id else id), sendOk);
  }

  /** A packet is dropped exactly on its own final ack while that is awaited (PUBCOMP
      only after PUBREC, and no PUBACK after it), or on a PUBACK with id 0 after a QoS 0
      packet. */
  lemma PopsExactly(v: View, msg: seq<byte>)
    requires Inv(v) && Serving(v.s) && IsPacket(msg)
    ensures v.ack.waiting ==> v.packets != [] && Queueable(v.packets[0])
    ensures Pops(msg, v.ack, v.ping) <==>
              || (v.ack.waiting && Finishes(msg, v.packets[0])
                  && (TypeOf(msg) == PUBCOMP <==> v.ack.kind == PUBREL))
              || (!v.ack.waiting && v.ack.kind == PUBLISH && StrayAck(msg))
  {
    hide Fifo; hide Accounted; hide IsPacket; hide IdOf; hide OfferInv; hide ConnInv; hide IdsInv; hide BuiltInv;
  }

  /** What pops the packet awaited is its final ack. */
  lemma PopsFinal(v: View, msg: seq<byte>)
    requires Inv(v) && Serving(v.s) && IsPacket(msg) && v.ack.waiting
    ensures v.packets != [] && (Pops(msg, v.ack, v.ping) <==> FinalAck(msg, v.packets[0], v.trace[v.offered + 1..]))
  {
    hide Fifo; hide Accounted; hide IsPacket; hide IdOf; hide ConnInv; hide IdsInv; hide BuiltInv; hide Open; hide Released; hide Pops;
    hide Finishes; hide StrayAck;
    PopsExactly(v, msg);
  }

  /** The packet taken last ends the wait, and the oldest packet leaves. */
  lemma KeepsDropping(v: View, msg: seq<byte>, live: bool)
    requires Inv(v) && Serving(v.s) && IsPacket(msg) && Pops(msg, v.ack, v.ping)
    ensures Inv(Dropping(Taken(v, msg, live))) && Grows(v, Dropping(Taken(v, msg, live)))
  {
    hide Fifo; hide Accounted; hide IsPacket; hide IdOf; hide IdsInv; hide BuiltInv; hide Queueable; hide Pops; hide Finishes; hide StrayAck;
    hide NeedsAck; hide Explained; hide Open; hide Released; hide FinalAck;
    var w := Taken(v, msg, live);
    TraceGrows(v.departed, v.trace, Took(msg, live));
    PopsExactly(v, msg);
    if v.packets != [] {
      var d := DroppedNow(w)[0];
      HeadQueueable(v);
      if v.ack.waiting {
        PopsFinal(v, msg);
      }
      DropExplained(v, msg, live, d);
      Departs(v.enqueued, v.departed, v.packets, d);
      OneMoreGone(v.departed, w.trace, d);
    } else {
      assert v.departed + [] == v.departed;
    }
  }

  lemma DropExplained(v: View, msg: seq<byte>, live: bool, d: Departure)
    requires Serving(v.s) && v.packets != [] && Queueable(v.packets[0]) && IsPacket(msg)
    requires OfferInv(v.s, v.ack, v.packets, v.departed, v.trace, v.offered)
    requires if v.ack.waiting then FinalAck(msg, v.packets[0], v.trace[v.offered + 1..]) else StrayAck(msg)
    requires d == DroppedNow(Taken(v, msg, live))[0]
    ensures Explained(d, Taken(v, msg, live).trace)
  {
    hide Queueable; hide IsPacket; hide FinalAck; hide StrayAck; hide NeedsAck; hide Open; hide Released;
    if v.ack.waiting {
      assert Taken(v, msg, live).trace[v.offered + 1..|v.trace|] == v.trace[v.offered + 1..];
    }
  }

  lemma HeadQueueable(v: View)
    requires Inv(v)
    ensures v.packets != [] ==> Queueable(v.packets[0])
  {
    hide Accounted; hide Queueable; hide OfferInv; hide PendingInv; hide IdsInv; hide BuiltInv;
  }

  /** A PUBREC for the packet awaited. */
  predicate Advances(msg: seq<byte>, v: View)
    requires IsPacket(msg)
  {
    && TypeOf(msg) == PUBREC && v.ack.waiting && v.ack.id == IdOf(msg)
    && (v.ack.kind == PUBLISH || v.ack.kind == PUBREL)
  }

  lemma AdvancesExactly(v: View, msg: seq<byte>, live: bool)
    requires Inv(v) && Serving(v.s) && IsPacket(msg) && v.ack.waiting
    ensures v.packets != [] && (Advances(msg, v) <==> IsPubrec(Took(msg, live), v.packets[0]))
  {
    hide Fifo; hide Accounted; hide IsPacket; hide IdOf; hide ConnInv; hide IdsInv; hide BuiltInv; hide OfferInv;
  }

  /** A packet that neither ends a wait nor advances it changes nothing but the trace. */
  lemma KeepsTaken(v: View, msg: seq<byte>, live: bool)
    requires Inv(v) && IsPacket(msg)
    requires Serving(v.s) ==> !Pops(msg, v.ack, v.ping) && !Advances(msg, v)
    ensures Inv(Taken(v, msg, live)) && Grows(v, Taken(v, msg, live))
  {
    hide Fifo; hide Accounted; hide IdsInv; hide BuiltInv; hide Queueable; hide NeedsAck; hide WaitInv; hide PendingInv; hide ConnInv;
    hide Pops; hide Advances; hide OfferInv; hide IsPubrec; hide FinalAck; hide IsPacket; hide IdOf;
    TraceGrows(v.departed, v.trace, Took(msg, live));
    if Serving(v.s) && v.ack.waiting {
      PopsFinal(v, msg);
      AdvancesExactly(v, msg, live);
    }
    OfferStays(v.s, v.ack, v.packets, v.departed, v.trace, v.offered, Took(msg, live));
  }

  /** The client has taken a PUBREC, and its answer is still to be sent. */
  function AfterPubrec(v: View, msg: seq<byte>, live: bool): View
    requires IsPacket(msg)
  {
    Taken(v, msg, live).(ack := Ack(true, PUBREL, v.ack.id, MQTT_SEND_TIMEOUT))
  }

  /** PUBREC and the PUBREL that answers it, or the end of the connection. */
  lemma KeepsReleased(v: View, msg: seq<byte>, live: bool, sendOk: bool)
    requires Inv(v) && Serving(v.s) && IsPacket(msg) && Advances(msg, v)
    ensures var w := Acking(AfterPubrec(v, msg, live), PUBREL, IdOf(msg), sendOk); Inv(w) && Grows(v, w)
  {
    hide Fifo; hide Accounted; hide IsPacket; hide IdOf; hide AckPacket; hide Open; hide Released; hide IsPubrec;
    hide NextId; hide IdNumber; hide IdsInv; hide BuiltInv; hide OfferInv;
    var w := Acking(AfterPubrec(v, msg, live), PUBREL, IdOf(msg), sendOk);
    AdvancesExactly(v, msg, live);
    KeepsNewId(v);
    TraceGrows(v.departed, v.trace, Took(msg, live));
    if sendOk {
      var rel := w.trace[|v.trace| + 1];
      assert w.trace == v.trace + [Took(msg, live)] + [rel];
      TraceGrows(v.departed, v.trace + [Took(msg, live)], rel);
      OfferReleased(v, msg, live, rel, w.ack);
    } else {
      OutsideOffers(w.ack, w.packets, w.departed, w.trace, w.offered);
    }
  }

  lemma OfferReleased(v: View, msg: seq<byte>, live: bool, rel: Entry, ack: Ack)
    requires OfferInv(v.s, v.ack, v.packets, v.departed, v.trace, v.offered) && Serving(v.s) && v.ack.waiting
    requires v.packets != [] && IsPubrec(Took(msg, live), v.packets[0]) && rel.Gave? && ack.waiting && ack.kind == PUBREL
    requires IdOf(v.packets[0]) != 0 ==> rel == Gave(AckPacket(PUBREL, IdOf(v.packets[0])), false)
    ensures OfferInv(v.s, ack, v.packets, v.departed, v.trace + [Took(msg, live)] + [rel], v.offered)
  {
    hide Open; hide Released; hide IsPubrec; hide AckPacket; hide IdOf;
    var since := v.trace[v.offered + 1..];
    assert (v.trace + [Took(msg, live)] + [rel])[v.offered + 1..] == since + [Took(msg, live), rel];
    PubrecAnswered(v.packets[0], since, Took(msg, live), rel);
  }

  lemma KeepsTicksPing(v: View, ticks: Ticks, ping: Ping)
    requires Inv(v) && (ping == v.ping || ping == NO_PING)
    ensures Inv(v.(ticks := ticks, ping := ping))
  {
    hide Fifo; hide Accounted; hide IdsInv; hide BuiltInv; hide OfferInv; hide PendingInv;
  }

  lemma KeepsInService(v: View, msg: seq<byte>, live: bool, sendOk: bool)
    requires Inv(v) && Serving(v.s) && IsPacket(msg)
    ensures Inv(InService(Taken(v, msg, live), msg, sendOk)) && Grows(v, InService(Taken(v, msg, live), msg, sendOk))
  {
    hide Inv; hide IsPacket; hide IdOf; hide Acking; hide Sending; hide Dropping; hide PingPacket; hide Pops;
    var w := Taken(v, msg, live);
    if Pops(msg, v.ack, v.ping) {
      KeepsDropping(v, msg, live);
      PingDrops(v, msg, live);
      KeepsTicksPing(Dropping(w), v.ticks.(keepAlive := 0), v.ping);
    } else if Advances(msg, v) {
      KeepsReleased(v, msg, live, sendOk);
    } else {
      KeepsTaken(v, msg, live);
      if TypeOf(msg) == PINGRESP {
        KeepsTicksPing(w, v.ticks.(keepAlive := 0), if v.ping.waiting then NO_PING else v.ping);
      } else {
        KeepsAcking(w, PUBACK, IdOf(msg), sendOk);
        KeepsAcking(w, PUBREC, IdOf(msg), sendOk);
        KeepsAcking(w, PUBCOMP, IdOf(msg), sendOk);
        KeepsSending(w, PingPacket(PINGRESP), sendOk);
      }
    }
  }

  /** Resetting the keepalive tick commutes with the drop. */
  lemma PingDrops(v: View, msg: seq<byte>, live: bool)
    requires IsPacket(msg) && Pops(msg, v.ack, v.ping)
    ensures var w := Taken(v, msg, live);
            && Dropping(w).ping == v.ping
            && (TypeOf(msg) == PINGRESP ==>
                  && !v.ping.waiting
                  && Dropping(w.(ticks := w.ticks.(keepAlive := 0)))
                     == Dropping(w).(ticks := v.ticks.(keepAlive := 0), ping := v.ping))
  {
    hide IsPacket; hide IdOf;
  }

  lemma KeepsConnecting(v: View, msg: seq<byte>, returnCode: byte)
    requires Inv(v) && v.s == MqttConnectSending && IsPacket(msg)
    ensures Inv(Connecting(v, msg, returnCode)) && Grows(v, Connecting(v, msg, returnCode))
  {
    hide Fifo; hide Accounted; hide IdsInv; hide BuiltInv; hide IsPacket; hide Queueable; hide NeedsAck;
  }

  lemma KeepsHandled(v: View, msg: seq<byte>, returnCode: byte, sendOk: bool)
    requires Inv(v) && IsPacket(msg)
    ensures Inv(Handled(v, msg, returnCode, sendOk)) && Grows(v, Handled(v, msg, returnCode, sendOk))
  {
    hide Inv; hide IsPacket; hide InService; hide Connecting; hide Pops; hide Advances;
    if Serving(v.s) {
      KeepsInService(v, msg, Live(v, sendOk), sendOk);
    } else {
      KeepsTaken(v, msg, Live(v, sendOk));
      if v.s == MqttConnectSending {
        KeepsConnecting(Taken(v, msg, Live(v, sendOk)), msg, returnCode);
      }
    }
  }

  lemma KeepsKeepalive(v: View, sendOk: bool)
    requires Inv(v) && v.s == MqttKeepaliveSend
    ensures Inv(KeepaliveStep(v, sendOk)) && Grows(v, KeepaliveStep(v, sendOk))
  {
    hide Fifo; hide Accounted; hide IdsInv; hide BuiltInv; hide Queueable; hide NeedsAck; hide PingPacket; hide Open; hide Released;
    TraceGrows(v.departed, v.trace, Gave(PingPacket(PINGREQ), false));
  }

  lemma NoIdWithoutAck(p: seq<byte>)
    requires Queueable(p) && !NeedsAck(p)
    ensures IdOf(p) == 0 && TypeOf(p) == PUBLISH
  {
  }

  lemma KeepsSentOut(v: View, p: seq<byte>)
    requires Inv(v) && v.s == MqttData && !v.ping.waiting && v.packets != [] && v.packets[0] == p && Queueable(p)
    ensures Inv(SentOut(v, p)) && Grows(v, SentOut(v, p))
  {
    hide Fifo; hide Accounted; hide IdsInv; hide BuiltInv; hide Queueable; hide NeedsAck; hide IsPacket; hide IdOf; hide Explained;
    hide Open; hide Released;
    TraceGrows(v.departed, v.trace, Gave(p, true));
    assert (v.trace + [Gave(p, true)])[|v.trace| + 1..] == [];
    NothingSince(p);
    KindOf(p);
    if !NeedsAck(p) {
      NoIdWithoutAck(p);
      SendExplained(v.trace, p);
      Departs(v.enqueued, v.departed, v.packets, SentOnce(p, |v.trace|));
      OneMoreGone(v.departed, v.trace + [Gave(p, true)], SentOnce(p, |v.trace|));
    }
  }

  lemma KindOf(p: seq<byte>)
    requires Queueable(p)
    ensures TypeOf(p) != PUBREL
  {
  }

  lemma SendExplained(trace: seq<Entry>, p: seq<byte>)
    requires Queueable(p) && !NeedsAck(p)
    ensures Explained(SentOnce(p, |trace|), trace + [Gave(p, true)])
  {
    hide Queueable; hide NeedsAck;
  }

  lemma KeepsSend(v: View, sendOk: bool)
    requires Inv(v) && v.s == MqttData
    ensures Inv(SendStep(v, sendOk)) && Grows(v, SendStep(v, sendOk))
  {
    hide Fifo; hide Accounted; hide IdsInv; hide BuiltInv; hide Queueable; hide SentOut; hide NeedsAck;
    if v.packets != [] && Queueable(v.packets[0]) && !v.ping.waiting {
      KeepsSentOut(v, v.packets[0]);
    }
  }

  /** Between connections nothing is promised about waits. */
  lemma KeepsOutside(v: View, w: View)
    requires Inv(v) && !InUse(w.s)
    requires w.packets == v.packets && w.enqueued == v.enqueued && w.departed == v.departed && w.trace == v.trace
    requires w.id == v.id && w.ids == v.ids && w.queuedBefore == v.queuedBefore
    requires w.ack.timeout <= MQTT_SEND_TIMEOUT && w.ping.timeout <= MQTT_SEND_TIMEOUT
    requires w.ping == NO_PING || (w.up == v.up && w.ping == v.ping) || (w.up && w.ping.timeout <= MQTT_SEND_TIMEOUT)
    ensures Inv(w) && Grows(v, w)
  {
    hide Fifo; hide Accounted; hide Queueable; hide NeedsAck; hide BuiltInv;
  }

  lemma KeepsRun(v: View, sendOk: bool, resolved: bool)
    requires Inv(v)
    ensures Inv(RunStep(v, sendOk, resolved)) && Grows(v, RunStep(v, sendOk, resolved))
  {
    hide Inv; hide SendStep; hide KeepaliveStep;
    match v.s
    case TcpReconnect => KeepsOutside(v, RunStep(v, sendOk, resolved));
    case TcpDisconnected => KeepsOutside(v, RunStep(v, sendOk, resolved));
    case MqttKeepaliveSend => KeepsKeepalive(v, sendOk);
    case MqttData => KeepsSend(v, sendOk);
    case _ =>
  }

  lemma KeepsStateTicked(v: View, keepalive: nat)
    requires Inv(v)
    ensures Inv(StateTicked(v, keepalive)) && Grows(v, StateTicked(v, keepalive))
  {
    hide Fifo; hide Accounted; hide IdsInv; hide BuiltInv; hide Queueable; hide NeedsAck; hide IsPacket; hide IdOf;
  }

  lemma KeepsPingTicked(v: View)
    requires Inv(v)
    ensures Inv(PingTicked(v)) && Grows(v, PingTicked(v))
  {
    hide Fifo; hide Accounted; hide IdsInv; hide BuiltInv; hide Queueable; hide NeedsAck; hide IsPacket; hide IdOf;
  }

  lemma KeepsAckTicked(v: View)
    requires Inv(v)
    ensures Inv(AckTicked(v)) && Grows(v, AckTicked(v))
  {
    hide Fifo; hide Accounted; hide IdsInv; hide BuiltInv; hide ConnInv; hide IsPacket; hide IdOf; hide TypeOf; hide QosOf;
    if v.ack.timeout == 1 {
      KeepsOutside(v, AckTicked(v));
    }
  }

  lemma KeepsTicked(v: View, keepalive: nat)
    requires Inv(v)
    ensures Inv(Ticked(v, keepalive)) && Grows(v, Ticked(v, keepalive))
  {
    hide Inv; hide StateTicked; hide PingTicked; hide AckTicked;
    KeepsStateTicked(v, keepalive);
    KeepsPingTicked(StateTicked(v, keepalive));
    KeepsAckTicked(PingTicked(StateTicked(v, keepalive)));
  }

  lemma KeepsSendDone(v: View)
    requires Inv(v)
    ensures Inv(SendDone(v)) && Grows(v, SendDone(v))
  {
    hide Fifo; hide Accounted; hide IdsInv; hide BuiltInv; hide Queueable; hide NeedsAck; hide IsPacket; hide IdOf;
  }

  lemma KeepsConnected(v: View, built: bool, sendOk: bool)
    requires Inv(v) && !v.up && v.pCon
    ensures Inv(Connected(v, built, sendOk)) && Grows(v, Connected(v, built, sendOk))
  {
    hide Fifo; hide Accounted; hide Queueable; hide NeedsAck;
  }

  /** A packet without an id. */
  lemma KeepsEnqueued(v: View, p: seq<byte>, room: nat)
    requires Inv(v) && Queueable(p) && IdOf(p) == 0
    ensures Inv(Enqueued(v, p, room)) && Grows(v, Enqueued(v, p, room))
  {
    hide BuiltInv; hide IdOf;
    OneMoreBuilt(v.enqueued, v.queuedBefore, v.ids, 0, p);
    KeepsArrival(v, p, room);
  }

  /** A packet with the next id. */
  lemma KeepsBuilt(v: View, p: seq<byte>, room: nat)
    requires Inv(v) && Queueable(p) && (IdOf(p) == 0 || IdOf(p) == NewId(v).id)
    ensures Inv(Enqueued(NewId(v), p, room)) && Grows(v, Enqueued(NewId(v), p, room))
  {
    hide BuiltInv; hide IdOf; hide Fifo; hide Accounted; hide NextId; hide Frames; hide Proto.Frame;
    hide WaitInv; hide PendingInv; hide OfferInv; hide ConnInv;
    var w := NewId(v);
    KeepsNewId(v);
    NextNumber(|v.ids|);
    SmallNumber(|v.ids| + 1);
    OneMoreBuilt(v.enqueued, v.queuedBefore, v.ids, w.id, p);
    KeepsArrival(w, p, room);
  }

  lemma SmallNumber(n: nat)
    ensures n < 65536 ==> IdNumber(n) == n
  {
  }

  lemma KeepsArrival(v: View, p: seq<byte>, room: nat)
    requires Inv(v) && Queueable(p) && BuiltInv(v.enqueued + [p], v.queuedBefore, v.ids)
    ensures Inv(Enqueued(v, p, room)) && Grows(v, Enqueued(v, p, room))
  {
    hide Fifo; hide Accounted; hide Queueable; hide NeedsAck; hide Frames; hide Proto.Frame; hide IdsInv; hide BuiltInv;
    hide WaitInv; hide Open; hide Released;
    Arrives(v.enqueued, v.departed, v.packets, p);
  }

  lemma PublishQueueable(topic: seq<byte>, data: seq<byte>, qos: nat, retain: nat, id: nat)
    requires 0 < |topic| && 5 + |topic| + (if qos > 0 then 2 else 0) + |data| <= MQTT_BUF_SIZE
    requires qos <= 2 && retain <= 1 && id < 65536
    ensures Queueable(PublishPacket(topic, data, qos, retain, id))
    ensures IdOf(PublishPacket(topic, data, qos, retain, id)) == if qos > 0 && data != [] then id else 0
  {
    hide IsPacket; hide PublishPacket;
    PublishRoundTrip(topic, data, qos, retain, id);
    PublishSize(topic, data, qos, retain, id);
  }

  lemma PublishSize(topic: seq<byte>, data: seq<byte>, qos: nat, retain: nat, id: nat)
    requires 5 + |topic| + (if qos > 0 then 2 else 0) + |data| <= MQTT_BUF_SIZE
    ensures |PublishPacket(topic, data, qos, retain, id)| <= 5 + |topic| + (if qos > 0 then 2 else 0) + |data|
  {
    hide First; hide VarLength; hide Word;
    VarLengthSize(2 + |topic| + (if qos > 0 then 2 else 0) + |data|);
  }

  lemma SubscribeQueueable(topic: seq<byte>, qos: nat, id: nat)
    requires 0 < |topic| && 8 + |topic| <= MQTT_BUF_SIZE && qos <= 2 && id < 65536
    ensures Queueable(SubscribePacket(topic, qos, id)) && IdOf(SubscribePacket(topic, qos, id)) in {0, id}
  {
    hide IsPacket; hide SubscribePacket;
    SubscribeRoundTrip(topic, qos, id);
    SubscribeSize(topic, qos, id);
  }

  lemma SubscribeSize(topic: seq<byte>, qos: nat, id: nat)
    requires 8 + |topic| <= MQTT_BUF_SIZE
    ensures |SubscribePacket(topic, qos, id)| <= 8 + |topic|
  {
    hide First; hide VarLength; hide Word;
    VarLengthSize(5 + |topic|);
  }

  lemma PingQueueable()
    ensures Queueable(PingPacket(PINGREQ)) && IdOf(PingPacket(PINGREQ)) == 0
  {
    hide IsPacket; hide PingPacket;
    PingRoundTrip(PINGREQ);
  }

  lemma KeepsPublish(v: View, topic: seq<byte>, data: seq<byte>, qos: int, retain: nat, room: nat)
    requires Inv(v) && retain <= 1
    ensures Inv(PublishStep(v, topic, data, qos, retain, room)) && Grows(v, PublishStep(v, topic, data, qos, retain, room))
  {
    hide Inv; hide Enqueued; hide Queueable; hide PublishPacket;
    KeepsNewId(v);
    if 0 <= qos <= 2 && topic != [] && 5 + |topic| + (if qos > 0 then 2 else 0) + |data| <= MQTT_BUF_SIZE {
      var w := if qos > 0 then NewId(v) else v;
      var id := if qos > 0 then w.id else 0;
      PublishQueueable(topic, data, qos, retain, id);
      if qos > 0 {
        KeepsBuilt(v, PublishPacket(topic, data, qos, retain, id), room);
      } else {
        KeepsEnqueued(v, PublishPacket(topic, data, qos, retain, id), room);
      }
    }
  }

  lemma KeepsSubscribe(v: View, topic: seq<byte>, qos: int, room: nat)
    requires Inv(v)
    ensures Inv(SubscribeStep(v, topic, qos, room)) && Grows(v, SubscribeStep(v, topic, qos, room))
  {
    hide Inv; hide Enqueued; hide Queueable; hide SubscribePacket;
    KeepsNewId(v);
    if 0 <= qos <= 2 && topic != [] && 8 + |topic| <= MQTT_BUF_SIZE {
      SubscribeQueueable(topic, qos, NewId(v).id);
      KeepsBuilt(v, SubscribePacket(topic, qos, NewId(v).id), room);
    }
  }

  lemma KeepsFront(st: State, sendOk: bool)
    requires Inv(st.v)
    ensures Inv(FrontStep(st, sendOk).v) && Grows(st.v, FrontStep(st, sendOk).v)
  {
    hide Inv; hide Handled; hide IsPacket; hide PacketLength;
    var n := PacketLength(st.stream);
    if 0 < n <= |st.stream| && IsPacket(st.stream[..n]) {
      KeepsHandled(st.v, st.stream[..n], st.code, sendOk);
    }
  }

  /** Every event keeps the invariant and takes nothing back. */
  lemma NextKeeps(st: State, e: Event, cfg: Config)
    requires Inv(st.v) && SaneEvent(e)
    ensures Inv(Next(st, e, cfg).v) && Grows(st.v, Next(st, e, cfg).v)
  {
    hide Inv; hide FrontStep; hide RunStep; hide Ticked; hide SendDone; hide Connected; hide PublishStep;
    hide SubscribeStep; hide Enqueued; hide PingPacket; hide FrontAt;
    WaitsBounded(st.v);
    match e
    case Received(data, sendOk, _) => KeepsFront(Buffered(st.v, st.stream + data, st.code), sendOk);
    case TaskRuns(sendOk, _, resolved) =>
      KeepsFront(st, sendOk);
      KeepsRun(st.v, sendOk, resolved);
    case Tick => KeepsTicked(st.v, cfg.keepalive);
    case DataSent => KeepsSendDone(st.v);
    case TcpUp(built, sendOk) =>
      if !st.v.up && st.v.pCon {
        KeepsConnected(st.v, built, sendOk);
      }
    case TcpDown => KeepsOutside(st.v, Down(st.v));
    case TcpError => KeepsOutside(st.v, st.v.(s := TcpReconnectReq));
    case DnsAnswer(found, anyAddress) =>
      if DnsAnswered(st.v, found, anyAddress) != st.v {
        KeepsOutside(st.v, DnsAnswered(st.v, found, anyAddress));
      }
    case ConnectCall(resolved) => KeepsOutside(st.v, ConnectBegun(st.v, resolved));
    case DisconnectCall => KeepsOutside(st.v, st.v.(s := TcpDisconnecting, armed := false));
    case PublishCall(topic, data, qos, retain) => KeepsPublish(st.v, topic, data, qos, retain, cfg.room);
    case SubscribeCall(topic, qos) => KeepsSubscribe(st.v, topic, qos, cfg.room);
    case PingCall =>
      PingQueueable();
      KeepsEnqueued(st.v, PingPacket(PINGREQ), cfg.room);
  }

  lemma WaitsBounded(v: View)
    requires Inv(v)
    ensures v.ack.timeout <= MQTT_SEND_TIMEOUT && v.ping.timeout <= MQTT_SEND_TIMEOUT
    ensures Grows(v, v)
  {
    hide Fifo; hide Accounted; hide OfferInv; hide PendingInv; hide ConnInv; hide IdsInv; hide BuiltInv;
  }

  /** Over every run: what was queued is what left, followed by what is still queued, and
      what left is accounted for by sends and acks of its own. */
  lemma {:induction false} RunKeeps(st: State, events: seq<Event>, cfg: Config)
    requires Inv(st.v) && AllSane(events)
    ensures Inv(After(st, events, cfg).v) && Grows(st.v, After(st, events, cfg).v)
    decreases |events|
  {
    hide Inv; hide Next; hide SaneEvent;
    WaitsBounded(st.v);
    if events != [] {
      NextKeeps(st, events[0], cfg);
      RunKeeps(Next(st, events[0], cfg), events[1..], cfg);
    }
  }

  // ---------------------------------------------------------------------------
  // At least once, instance by instance

  lemma DeliveredInOrder(v: View)
    requires Inv(v)
    ensures Subsequence(Packets(NotDropped(v.departed)), Sends(v.trace))
  {
    hide Fifo; hide Accounted; hide OfferInv; hide WaitInv; hide PendingInv; hide ConnInv; hide IdsInv; hide BuiltInv;
    AccountedSent(v.departed, v.trace);
    SentInOrder(v.departed, v.trace);
  }

  // ---------------------------------------------------------------------------
  // Every wait ends

  /** In service the client waits for at most one thing, for the ack of the oldest
      packet, which TCP was given, or for a PINGRESP, and with a timeout that runs. */
  lemma OneWaitAtATime(v: View)
    requires Inv(v) && Serving(v.s)
    ensures !(v.ack.waiting && v.ping.waiting)
    ensures v.ack.waiting ==>
              && 1 <= v.ack.timeout <= MQTT_SEND_TIMEOUT
              && v.packets != [] && Queueable(v.packets[0]) && NeedsAck(v.packets[0]) && v.ack.id == IdOf(v.packets[0])
              && v.offered < |v.trace| && v.trace[v.offered] == Gave(v.packets[0], true)
    ensures v.ping.waiting ==> 1 <= v.ping.timeout <= MQTT_SEND_TIMEOUT
  {
    hide Fifo; hide Accounted; hide IsPacket; hide IdOf; hide IdsInv; hide BuiltInv;
  }

  /** Something is awaited on a connection in use, and the timer runs. */
  predicate Waiting(v: View) {
    InUse(v.s) && v.armed && (v.ack.waiting || v.ping.waiting)
  }

  /** The ticks left. */
  function Left(v: View): nat {
    if v.ack.waiting then v.ack.timeout else v.ping.timeout
  }

  /** What ends the wait, and PUBREC, which begins it anew. */
  predicate Answers(msg: seq<byte>, v: View) {
    && IsPacket(msg)
    && if v.ack.waiting then
         match v.ack.kind
         case 1 => TypeOf(msg) == CONNACK
         case 3 => (TypeOf(msg) == PUBACK || TypeOf(msg) == PUBREC) && IdOf(msg) == v.ack.id
         case 6 => (TypeOf(msg) == PUBCOMP || TypeOf(msg) == PUBREC) && IdOf(msg) == v.ack.id
         case 8 => TypeOf(msg) == SUBACK && IdOf(msg) == v.ack.id
         case _ => TypeOf(msg) == PINGRESP
       else TypeOf(msg) == PINGRESP
  }

  /** No packet handled between v and w answers the wait of v. */
  ghost predicate Unanswered(v: View, w: View) {
    forall i | |v.trace| <= i < |w.trace| && w.trace[i].Took? :: !Answers(w.trace[i].msg, v)
  }

  /** The wait goes on. */
  predicate SameWait(v: View, w: View) {
    && Waiting(w) && w.ack.waiting == v.ack.waiting
    && (if v.ack.waiting then w.ack.kind == v.ack.kind && w.ack.id == v.ack.id else w.ping.waiting)
  }

  /** Events that can end a connection from outside. */
  predicate Outside(e: Event) {
    e.TcpDown? || e.TcpError? || e.DnsAnswer? || e.ConnectCall? || e.DisconnectCall?
  }

  /** What a step does to a wait: it is given up, or it goes on. */
  predicate WaitsOn(v: View, w: View, ticks: nat) {
    if InUse(w.s) then SameWait(v, w) && Left(w) + ticks == Left(v) else w.s == TcpReconnectDisconnecting
  }

  lemma AckingWaits(v: View, kind: nat, id: nat, sendOk: bool)
    requires Waiting(v) && v.pCon
    ensures WaitsOn(v, Acking(v, kind, id, sendOk), 0)
  {
    hide AckPacket; hide NextId;
  }

  lemma ServiceWaits(v: View, msg: seq<byte>, live: bool, sendOk: bool)
    requires Inv(v) && Waiting(v) && Serving(v.s) && IsPacket(msg) && !Answers(msg, v)
    ensures WaitsOn(v, InService(Taken(v, msg, live), msg, sendOk), 0)
  {
    hide IsPacket; hide IdOf; hide Acking; hide PingPacket; hide Fifo; hide Accounted; hide OfferInv; hide IdsInv; hide BuiltInv;
    hide Queueable; hide NeedsAck;
    var w := Taken(v, msg, live);
    AckingWaits(w, PUBACK, IdOf(msg), sendOk);
    AckingWaits(w, PUBREC, IdOf(msg), sendOk);
    AckingWaits(w, PUBCOMP, IdOf(msg), sendOk);
  }

  lemma HandledWaits(v: View, msg: seq<byte>, code: byte, sendOk: bool)
    requires Inv(v) && Waiting(v) && IsPacket(msg) && !Answers(msg, v)
    ensures WaitsOn(v, Handled(v, msg, code, sendOk), 0)
  {
    hide IsPacket; hide IdOf; hide InService; hide Fifo; hide Accounted; hide OfferInv; hide IdsInv; hide BuiltInv;
    hide Queueable; hide NeedsAck;
    if Serving(v.s) {
      ServiceWaits(v, msg, Live(v, sendOk), sendOk);
    }
  }

  lemma FrontWaits(st: State, sendOk: bool)
    requires Inv(st.v) && Waiting(st.v) && Unanswered(st.v, FrontStep(st, sendOk).v)
    ensures WaitsOn(st.v, FrontStep(st, sendOk).v, 0)
  {
    hide Inv; hide IsPacket; hide PacketLength; hide Handled; hide Answers;
    var n := PacketLength(st.stream);
    if 0 < n <= |st.stream| && n <= MQTT_BUF_SIZE && IsPacket(st.stream[..n]) {
      var w := Handled(st.v, st.stream[..n], st.code, sendOk);
      TookIt(st.v, st.stream[..n], st.code, sendOk);
      assert w.trace[|st.v.trace|].Took? && w.trace[|st.v.trace|].msg == st.stream[..n];
      HandledWaits(st.v, st.stream[..n], st.code, sendOk);
    }
  }

  lemma TookIt(v: View, msg: seq<byte>, code: byte, sendOk: bool)
    requires Inv(v) && IsPacket(msg)
    ensures var w := Handled(v, msg, code, sendOk);
            |v.trace| < |w.trace| && w.trace[|v.trace|] == Took(msg, Live(v, sendOk))
  {
    hide Inv; hide IsPacket; hide InService; hide Connecting;
    ServiceTook(v, msg, Live(v, sendOk), sendOk);
    ConnectTook(Taken(v, msg, Live(v, sendOk)), msg, code);
  }

  lemma ServiceTook(v: View, msg: seq<byte>, live: bool, sendOk: bool)
    requires IsPacket(msg)
    ensures Taken(v, msg, live).trace <= InService(Taken(v, msg, live), msg, sendOk).trace
  {
    hide IsPacket; hide IdOf; hide Pops; hide AckPacket; hide PingPacket; hide NextId;
  }

  lemma ConnectTook(v: View, msg: seq<byte>, code: byte)
    requires IsPacket(msg)
    ensures Connecting(v, msg, code).trace == v.trace
  {
    hide IsPacket;
  }

  lemma RunWaits(v: View, sendOk: bool, resolved: bool)
    requires Inv(v) && Waiting(v)
    ensures WaitsOn(v, RunStep(v, sendOk, resolved), 0)
  {
    hide Fifo; hide Accounted; hide OfferInv; hide IdsInv; hide BuiltInv; hide Queueable; hide NeedsAck; hide SentOut;
  }

  lemma TickWaits(v: View, keepalive: nat)
    requires Inv(v) && Waiting(v)
    ensures WaitsOn(v, Ticked(v, keepalive), 1)
  {
    hide Fifo; hide Accounted; hide OfferInv; hide IdsInv; hide BuiltInv; hide Queueable; hide NeedsAck; hide IdOf; hide IsPacket;
  }

  lemma CallWaits(v: View, topic: seq<byte>, data: seq<byte>, qos: int, retain: nat, room: nat)
    requires Waiting(v)
    ensures WaitsOn(v, PublishStep(v, topic, data, qos, retain, room), 0)
    ensures WaitsOn(v, SubscribeStep(v, topic, qos, room), 0)
  {
    hide Frames; hide Proto.Frame; hide PublishPacket; hide SubscribePacket; hide NextId; hide WaitsOn; hide Enqueued; hide Waiting;
    QueueWaits(v, v, PublishPacket(topic, data, if qos == 0 then 0 else if qos == 1 then 1 else 2, retain, 0), room);
    NewIdWaits(v);
    if 0 <= qos <= 2 {
      QueueWaits(v, NewId(v), PublishPacket(topic, data, qos, retain, NewId(v).id), room);
      QueueWaits(v, NewId(v), SubscribePacket(topic, qos, NewId(v).id), room);
    }
  }

  lemma NewIdWaits(v: View)
    requires Waiting(v)
    ensures WaitsOn(v, v, 0) && WaitsOn(v, NewId(v), 0)
  {
  }

  /** Putting a packet into the queue. */
  lemma QueueWaits(v: View, w: View, p: seq<byte>, room: nat)
    requires Waiting(v) && (w == v || w == NewId(v))
    ensures WaitsOn(v, Enqueued(w, p, room), 0)
  {
    hide Frames; hide Proto.Frame; hide NextId;
  }

  lemma StepWaits(st: State, e: Event, cfg: Config)
    requires Inv(st.v) && Waiting(st.v) && !Outside(e) && Unanswered(st.v, Next(st, e, cfg).v)
    ensures WaitsOn(st.v, Next(st, e, cfg).v, if e.Tick? then 1 else 0)
  {
    hide FrontStep; hide RunStep; hide Ticked; hide PublishStep; hide SubscribeStep; hide Enqueued; hide FrontAt;
    hide PingPacket; hide Fifo; hide Accounted; hide OfferInv; hide IdsInv; hide BuiltInv; hide WaitInv; hide PendingInv; hide Answers;
    match e
    case Received(data, sendOk, _) =>
      if |st.stream| + |data| <= MQTT_BUF_SIZE {
        FrontWaits(Buffered(st.v, st.stream + data, st.code), sendOk);
      }
    case TaskRuns(sendOk, _, resolved) =>
      if FrontAt(st.stream, st.v.pCon, st.v.s) {
        FrontWaits(st, sendOk);
      } else {
        RunWaits(st.v, sendOk, resolved);
      }
    case Tick => TickWaits(st.v, cfg.keepalive);
    case DataSent =>
    case TcpUp(_, _) =>
    case PublishCall(topic, data, qos, retain) => CallWaits(st.v, topic, data, qos, retain, cfg.room);
    case SubscribeCall(topic, qos) => CallWaits(st.v, topic, [], qos, 0, cfg.room);
    case PingCall => QueueWaits(st.v, st.v, PingPacket(PINGREQ), cfg.room);
    case _ =>
      assert false;
  }

  /** From outside a connection ends in other states as well. */
  lemma OutsideWaits(st: State, e: Event, cfg: Config)
    requires Inv(st.v) && Waiting(st.v) && Outside(e)
    ensures var w := Next(st, e, cfg).v;
            InUse(w.s) ==> SameWait(st.v, w) && Left(w) == Left(st.v)
  {
    hide Inv;
  }

  function TicksIn(events: seq<Event>): nat {
    if events == [] then 0 else (if events[0].Tick? then 1 else 0) + TicksIn(events[1..])
  }

  predicate FromOutside(events: seq<Event>) {
    exists e <- events :: Outside(e)
  }

  /** After k of the events the connection has been given up: torn down by the client
      itself, unless something outside ended it. */
  ghost predicate GivenUp(st: State, events: seq<Event>, cfg: Config, k: nat) {
    && k <= |events|
    && var s := After(st, events[..k], cfg).v.s;
       !InUse(s) && (!FromOutside(events[..k]) ==> s == TcpReconnectDisconnecting)
  }

  lemma WaitRuns(v: View)
    requires Inv(v) && Waiting(v)
    ensures Left(v) > 0
  {
    hide Fifo; hide Accounted; hide OfferInv; hide IdsInv; hide BuiltInv; hide PendingInv;
  }

  /** Every wait ends, while the timer runs. Whatever else happens - packets, task runs, calls, callbacks - once
      its ticks have passed without an answer, and without a PUBREC that begins it anew,
      the connection has been given up. */
  lemma {:induction false} EveryWaitEnds(st: State, events: seq<Event>, cfg: Config)
    requires Inv(st.v) && AllSane(events) && Waiting(st.v) && TicksIn(events) >= Left(st.v)
    requires Unanswered(st.v, After(st, events, cfg).v)
    ensures exists k :: GivenUp(st, events, cfg, k)
    decreases |events|
  {
    hide Inv; hide Next; hide SaneEvent; hide Answers; hide SameWait; hide Waiting; hide Left; hide WaitsOn; hide Outside;
    hide GivenUp;
    WaitRuns(st.v);
    var e, rest := events[0], events[1..];
    var next := Next(st, e, cfg);
    NextKeeps(st, e, cfg);
    RunKeeps(next, rest, cfg);
    if !InUse(next.v.s) {
      EndsNow(st, events, cfg);
    } else {
      GoesOn(st, e, cfg);
      SameAnswers(st.v, next.v, After(next, rest, cfg).v);
      EveryWaitEnds(next, rest, cfg);
      var k :| GivenUp(next, rest, cfg, k);
      EndsLater(st, events, cfg, k);
    }
  }

  lemma GoesOn(st: State, e: Event, cfg: Config)
    requires Inv(st.v) && Waiting(st.v) && InUse(Next(st, e, cfg).v.s) && Unanswered(st.v, Next(st, e, cfg).v)
    ensures var w := Next(st, e, cfg).v;
            SameWait(st.v, w) && Waiting(w) && Left(w) + (if e.Tick? then 1 else 0) == Left(st.v)
  {
    hide Inv; hide Next; hide Answers;
    if Outside(e) {
      OutsideWaits(st, e, cfg);
    } else {
      StepWaits(st, e, cfg);
    }
  }

  lemma SameAnswers(v: View, w: View, end: View)
    requires SameWait(v, w) && v.trace <= w.trace && Unanswered(v, end)
    ensures Unanswered(w, end)
  {
    hide IsPacket; hide IdOf;
  }

  lemma EndsNow(st: State, events: seq<Event>, cfg: Config)
    requires Inv(st.v) && Waiting(st.v) && events != [] && !InUse(Next(st, events[0], cfg).v.s)
    requires Unanswered(st.v, Next(st, events[0], cfg).v)
    ensures GivenUp(st, events, cfg, 1)
  {
    hide Inv; hide Next; hide Answers;
    assert events[..1] == [events[0]];
    AfterOne(st, events[0], cfg);
    if !Outside(events[0]) {
      StepWaits(st, events[0], cfg);
    } else {
      assert events[0] in events[..1];
    }
  }

  lemma EndsLater(st: State, events: seq<Event>, cfg: Config, k: nat)
    requires events != [] && GivenUp(Next(st, events[0], cfg), events[1..], cfg, k)
    ensures GivenUp(st, events, cfg, k + 1)
  {
    hide Next;
    assert events[..k + 1][1..] == events[1..][..k];
    if FromOutside(events[1..][..k]) {
      var e :| e in events[1..][..k] && Outside(e);
      assert e in events[..k + 1];
    }
  }

  // ---------------------------------------------------------------------------
  // Packets whose id cannot be read

  /** A packet that needs an ack with its id, which reads as 0: a QoS 1 or 2 PUBLISH
      without payload, or a SUBSCRIBE with two length bytes. */
  predicate Unackable(p: seq<byte>) {
    Queueable(p) && NeedsAck(p) && TypeOf(p) in {PUBLISH, SUBSCRIBE} && IdOf(p) == 0
  }

  /** The server acknowledges ids it was given, and those are never 0. */
  ghost predicate NoZeroAcks(trace: seq<Entry>) {
    forall e <- trace ::
      e.Took? && IsPacket(e.msg) && TypeOf(e.msg) in {PUBACK, PUBCOMP, SUBACK} ==> IdOf(e.msg) != 0
  }

  /** Over every run with such a server, a packet whose id cannot be read never leaves the
      queue, and nothing behind it does. */
  lemma NeverLeaves(code: byte, events: seq<Event>, cfg: Config, i: nat)
    requires AllSane(events)
    requires var v := After(Initial(code), events, cfg).v;
             NoZeroAcks(v.trace) && i < |v.enqueued| && Unackable(v.enqueued[i])
    ensures var v := After(Initial(code), events, cfg).v;
            |v.departed| <= i && v.packets == v.enqueued[|v.departed|..]
  {
    hide Inv; hide After; hide NoZeroAcks; hide Unackable;
    InitialInv(code);
    RunKeeps(Initial(code), events, cfg);
    StillThere(After(Initial(code), events, cfg).v, i);
  }

  lemma StillThere(v: View, i: nat)
    requires Inv(v) && NoZeroAcks(v.trace) && i < |v.enqueued| && Unackable(v.enqueued[i])
    ensures |v.departed| <= i && v.packets == v.enqueued[|v.departed|..]
  {
    hide OfferInv; hide WaitInv; hide PendingInv; hide ConnInv; hide IdsInv; hide BuiltInv; hide Explained;
    hide Unackable; hide NoZeroAcks;
    if i < |v.departed| {
      assert v.enqueued[i] == v.departed[i].packet;
      CannotLeave(v.departed[i], v.trace);
      assert false;
    }
  }

  lemma CannotLeave(d: Departure, trace: seq<Entry>)
    requires Explained(d, trace) && NoZeroAcks(trace)
    ensures !Unackable(d.packet)
  {
    hide IsPacket; hide IdOf; hide Open; hide Released;
    assert trace[d.Last()] in trace;
  }
}
