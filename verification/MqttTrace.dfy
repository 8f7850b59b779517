/** What a trace of the MQTT client says about its packets: which ack is the final one of a
    packet, and how the packets that left the queue are accounted for. */
module MqttTrace {
  import opened MqttMessage
  import opened MqttStream
  import opened MqttSteps

  // ---------------------------------------------------------------------------
  // The exchange that ends with a packet's final ack

  /** A PUBREC for p was handled, or a PUBACK. */
  predicate IsPubrec(e: Entry, p: seq<byte>) {
    && Queueable(p) && TypeOf(p) == PUBLISH
    && e.Took? && IsPacket(e.msg) && TypeOf(e.msg) == PUBREC && IdOf(e.msg) == IdOf(p)
  }

  predicate IsPuback(e: Entry, p: seq<byte>) {
    && Queueable(p) && TypeOf(p) == PUBLISH
    && e.Took? && IsPacket(e.msg) && TypeOf(e.msg) == PUBACK && IdOf(e.msg) == IdOf(p)
  }

  /** There was a PUBREC for p since p was sent. */
  ghost predicate Released(p: seq<byte>, since: seq<Entry>) {
    exists e <- since :: IsPubrec(e, p)
  }

  /** msg is the final ack of p, after what has passed since p was sent: PUBCOMP if there
      was a PUBREC, and otherwise PUBACK, SUBACK or PINGRESP. */
  ghost predicate FinalAck(msg: seq<byte>, p: seq<byte>, since: seq<Entry>) {
    && IsPacket(msg) && Queueable(p) && Finishes(msg, p)
    && (TypeOf(msg) == PUBCOMP <==> Released(p, since))
  }

  /** Since p was sent no final ack of it was handled, and every PUBREC was answered by
      PUBREL at once. */
  ghost predicate Open(p: seq<byte>, since: seq<Entry>) {
    && (forall k | 0 <= k < |since| && since[k].Took? :: !FinalAck(since[k].msg, p, since[..k]))
    && (forall k | 0 <= k < |since| && IsPubrec(since[k], p) && IdOf(p) != 0 ::
          k + 1 < |since| && since[k + 1] == Gave(AckPacket(PUBREL, IdOf(p)), false))
  }

  lemma NothingSince(p: seq<byte>)
    ensures Open(p, []) && !Released(p, [])
  {
  }

  /** Anything but a final ack or a PUBREC leaves the exchange as it is. */
  lemma StaysOpen(p: seq<byte>, since: seq<Entry>, e: Entry)
    requires Open(p, since) && !IsPubrec(e, p) && (e.Took? ==> !FinalAck(e.msg, p, since))
    ensures Open(p, since + [e]) && (Released(p, since + [e]) <==> Released(p, since))
  {
    hide IsPubrec; hide FinalAck; hide AckPacket; hide IdOf; hide Released;
    SameRelease(p, since, e);
    assert forall k | 0 <= k < |since| :: (since + [e])[..k] == since[..k];
    assert (since + [e])[..|since|] == since;
  }

  lemma SameRelease(p: seq<byte>, since: seq<Entry>, e: Entry)
    ensures Released(p, since + [e]) <==> Released(p, since) || IsPubrec(e, p)
  {
    hide IsPubrec;
    if Released(p, since) {
      var r :| r in since && IsPubrec(r, p);
      assert r in since + [e];
    }
    if IsPubrec(e, p) {
      assert e in since + [e];
    }
  }

  /** A PUBREC, answered by PUBREL. */
  lemma PubrecAnswered(p: seq<byte>, since: seq<Entry>, rec: Entry, rel: Entry)
    requires Open(p, since) && IsPubrec(rec, p) && rel.Gave?
    requires IdOf(p) != 0 ==> rel == Gave(AckPacket(PUBREL, IdOf(p)), false)
    ensures var after := since + [rec, rel]; Open(p, after) && Released(p, after)
  {
    hide AckPacket; hide IdOf; hide Released;
    var after := since + [rec, rel];
    assert after == since + [rec] + [rel];
    SameRelease(p, since, rec);
    SameRelease(p, since + [rec], rel);
    assert forall k | 0 <= k < |since| :: after[..k] == since[..k];
    assert after[..|since|] == since;
    NotFinal(rec.msg, p, since);
  }

  lemma NotFinal(msg: seq<byte>, p: seq<byte>, since: seq<Entry>)
    requires Queueable(p) && TypeOf(p) == PUBLISH && IsPacket(msg) && TypeOf(msg) == PUBREC
    ensures !FinalAck(msg, p, since)
  {
    hide IsPacket; hide IdOf; hide Released;
  }

  // ---------------------------------------------------------------------------
  // What left the queue

  /** A departure is explained by the trace: a QoS 0 packet by a send of it; a packet
      acknowledged by a send of it and the first final ack of it after that; a packet
      dropped by an ack of id 0. */
  ghost predicate Explained(d: Departure, trace: seq<Entry>) {
    && Queueable(d.packet) && d.First() <= d.Last() < |trace|
    && match d
       case SentOnce(p, at) => !NeedsAck(p) && trace[at] == Gave(p, true)
       case Acked(p, sentAt, ackAt) =>
         && sentAt < ackAt && trace[sentAt] == Gave(p, true) && trace[ackAt].Took?
         && Open(p, trace[sentAt + 1..ackAt]) && FinalAck(trace[ackAt].msg, p, trace[sentAt + 1..ackAt])
       case Dropped(_, ackAt) => trace[ackAt].Took? && IsPacket(trace[ackAt].msg) && StrayAck(trace[ackAt].msg)
  }

  /** Each departure is explained, and by later places in the trace than the one before:
      no send and no ack accounts for two of them. */
  ghost predicate Accounted(departed: seq<Departure>, trace: seq<Entry>) {
    && (forall i | 0 <= i < |departed| :: Explained(departed[i], trace))
    && (forall i, j | 0 <= i < j < |departed| :: departed[i].Last() < departed[j].First())
  }

  lemma StaysExplained(d: Departure, trace: seq<Entry>, e: Entry)
    requires Explained(d, trace)
    ensures Explained(d, trace + [e]) && d.Last() < |trace|
  {
    hide Queueable; hide IsPacket; hide FinalAck; hide Open; hide StrayAck; hide NeedsAck;
    if d.Acked? {
      assert (trace + [e])[d.sentAt + 1..d.ackAt] == trace[d.sentAt + 1..d.ackAt];
    }
  }

  lemma TraceGrows(departed: seq<Departure>, trace: seq<Entry>, e: Entry)
    requires Accounted(departed, trace)
    ensures Accounted(departed, trace + [e])
    ensures forall i | 0 <= i < |departed| :: departed[i].Last() < |trace|
  {
    hide Explained;
    forall i | 0 <= i < |departed|
      ensures Explained(departed[i], trace + [e]) && departed[i].Last() < |trace|
    {
      StaysExplained(departed[i], trace, e);
    }
  }

  lemma OneMoreGone(departed: seq<Departure>, trace: seq<Entry>, d: Departure)
    requires Accounted(departed, trace) && Explained(d, trace)
    requires forall i | 0 <= i < |departed| :: departed[i].Last() < d.First()
    ensures Accounted(departed + [d], trace)
  {
    hide Explained;
  }

  /** First in, first out, nothing lost: what was ever queued is what left, followed by
      what is still queued. */
  ghost predicate Fifo(enqueued: seq<seq<byte>>, departed: seq<Departure>, packets: seq<seq<byte>>) {
    && enqueued == Packets(departed) + packets
    && (forall i | 0 <= i < |packets| :: Queueable(packets[i]))
  }

  lemma Departs(enqueued: seq<seq<byte>>, departed: seq<Departure>, packets: seq<seq<byte>>, d: Departure)
    requires Fifo(enqueued, departed, packets) && packets != [] && d.packet == packets[0]
    ensures Fifo(enqueued, departed + [d], packets[1..])
  {
    assert Packets(departed + [d]) == Packets(departed) + [packets[0]];
  }

  lemma Arrives(enqueued: seq<seq<byte>>, departed: seq<Departure>, packets: seq<seq<byte>>, p: seq<byte>)
    requires Fifo(enqueued, departed, packets) && Queueable(p)
    ensures Fifo(enqueued + [p], departed, packets + [p])
  {
  }

  // ---------------------------------------------------------------------------
  // Which ack ends a publish

  /** A PUBACK for p is handled before any PUBREC. */
  ghost predicate EarlyPuback(p: seq<byte>, passed: seq<Entry>) {
    exists k | 0 <= k < |passed| :: IsPuback(passed[k], p) && !Released(p, passed[..k])
  }

  /** What passed from a send to the ack that ended it, this included. */
  function Passed(d: Departure, trace: seq<Entry>): seq<Entry>
    requires d.Acked? && d.sentAt < d.ackAt < |trace|
  {
    trace[d.sentAt + 1..d.ackAt + 1]
  }

  /** A published packet leaves by PUBCOMP if and only if no PUBACK for it is handled
      before a PUBREC, and by PUBACK if and only if no PUBREC for it is, whatever its
      QoS. */
  lemma EndOfPublish(d: Departure, trace: seq<Entry>)
    requires Explained(d, trace) && d.Acked? && TypeOf(d.packet) == PUBLISH
    ensures TypeOf(trace[d.ackAt].msg) == PUBCOMP <==> !EarlyPuback(d.packet, Passed(d, trace))
    ensures TypeOf(trace[d.ackAt].msg) == PUBACK <==> !Released(d.packet, Passed(d, trace))
    ensures IdOf(trace[d.ackAt].msg) == IdOf(d.packet) && QosOf(d.packet) > 0
  {
    hide IsPacket; hide IdOf; hide Released; hide EarlyPuback; hide AckPacket;
    var p, since, last := d.packet, trace[d.sentAt + 1..d.ackAt], trace[d.ackAt];
    assert Passed(d, trace) == since + [last];
    SameRelease(p, since, last);
    EarlyOrNot(p, since, last);
  }

  lemma EarlyOrNot(p: seq<byte>, since: seq<Entry>, last: Entry)
    requires Open(p, since) && last.Took? && FinalAck(last.msg, p, since) && TypeOf(p) == PUBLISH
    ensures EarlyPuback(p, since + [last]) <==> TypeOf(last.msg) == PUBACK
  {
    hide IsPacket; hide IdOf; hide Released; hide AckPacket;
    var passed := since + [last];
    assert passed[|since|] == last && passed[..|since|] == since;
    forall k | 0 <= k < |since|
      ensures !(IsPuback(passed[k], p) && !Released(p, passed[..k]))
    {
      assert passed[..k] == since[..k];
      if IsPuback(since[k], p) && !Released(p, since[..k]) {
        PubackIsFinal(since[k], p, since[..k]);
      }
    }
  }

  lemma PubackIsFinal(e: Entry, p: seq<byte>, since: seq<Entry>)
    requires IsPuback(e, p) && QosOf(p) > 0 && !Released(p, since)
    ensures FinalAck(e.msg, p, since)
  {
    hide IsPacket; hide IdOf; hide Released;
  }

  /** The server acknowledges p as its QoS asks: QoS 1 not by PUBREC, QoS 2 not by PUBACK. */
  ghost predicate AckedAsAsked(p: seq<byte>, passed: seq<Entry>)
    requires p != []
  {
    && (QosOf(p) == 1 ==> !Released(p, passed))
    && (QosOf(p) == 2 ==> forall k | 0 <= k < |passed| :: !IsPuback(passed[k], p))
  }

  /** Then QoS 1 means PUBACK, and QoS 2 means PUBREC, PUBREL and PUBCOMP, in this order. */
  lemma FinalAckByQos(d: Departure, trace: seq<Entry>)
    requires Explained(d, trace) && d.Acked? && TypeOf(d.packet) == PUBLISH
    requires AckedAsAsked(d.packet, Passed(d, trace))
    ensures QosOf(d.packet) == 1 ==> TypeOf(trace[d.ackAt].msg) == PUBACK
    ensures QosOf(d.packet) == 2 ==>
              && TypeOf(trace[d.ackAt].msg) == PUBCOMP
              && exists r | d.sentAt < r < d.ackAt :: IsPubrec(trace[r], d.packet) && Answered(d, trace, r)
  {
    hide IsPacket; hide IdOf; hide AckPacket; hide IsPubrec; hide Open; hide Released;
    EndOfPublish(d, trace);
    if QosOf(d.packet) == 2 {
      NoneEarly(d.packet, Passed(d, trace));
    }
    ReleasedBefore(d, trace);
    var p, since := d.packet, trace[d.sentAt + 1..d.ackAt];
    if QosOf(p) == 2 {
      var k := PubrecPlace(p, since);
      var r := d.sentAt + 1 + k;
      assert trace[r] == since[k];
      assert k + 1 < |since| ==> trace[r + 1] == since[k + 1];
      assert IsPubrec(trace[r], p) && Answered(d, trace, r);
    }
  }

  lemma NoneEarly(p: seq<byte>, passed: seq<Entry>)
    requires p != [] && AckedAsAsked(p, passed) && QosOf(p) == 2
    ensures !EarlyPuback(p, passed)
  {
    hide IsPuback; hide Released;
  }

  /** A final PUBCOMP has a PUBREC before it. */
  lemma ReleasedBefore(d: Departure, trace: seq<Entry>)
    requires Explained(d, trace) && d.Acked?
    ensures TypeOf(trace[d.ackAt].msg) == PUBCOMP <==> Released(d.packet, trace[d.sentAt + 1..d.ackAt])
  {
    hide IsPacket; hide IdOf; hide Open; hide Released;
  }

  lemma PubrecPlace(p: seq<byte>, since: seq<Entry>) returns (k: nat)
    requires Open(p, since) && Released(p, since)
    ensures k < |since| && IsPubrec(since[k], p)
    ensures IdOf(p) != 0 ==> k + 1 < |since| && since[k + 1] == Gave(AckPacket(PUBREL, IdOf(p)), false)
  {
    hide IsPubrec; hide FinalAck; hide AckPacket; hide IdOf;
    var e :| e in since && IsPubrec(e, p);
    k :| 0 <= k < |since| && since[k] == e;
  }

  /** The PUBREC at r was answered, unless the packet's id cannot be read. */
  predicate Answered(d: Departure, trace: seq<Entry>, r: nat)
    requires d.Acked?
  {
    IdOf(d.packet) != 0 ==>
      r + 1 < d.ackAt < |trace| && trace[r + 1] == Gave(AckPacket(PUBREL, IdOf(d.packet)), false)
  }

  // ---------------------------------------------------------------------------
  // At least once, instance by instance

  /** The departures but those an ack of id 0 caused. */
  function NotDropped(ds: seq<Departure>): seq<Departure> {
    if ds == [] then []
    else NotDropped(ds[..|ds| - 1]) + (if ds[|ds| - 1].Dropped? then [] else [ds[|ds| - 1]])
  }

  /** The sends from the queue, in order. */
  function Sends(trace: seq<Entry>): seq<seq<byte>> {
    if trace == [] then []
    else
      var e := trace[|trace| - 1];
      Sends(trace[..|trace| - 1]) + (if e.Gave? && e.queued then [e.packet] else [])
  }

  /** a is b with some elements left out. */
  predicate Subsequence<T(==)>(a: seq<T>, b: seq<T>)
    decreases |b|
  {
    || a == []
    || (b != [] && Subsequence(a, b[..|b| - 1]))
    || (b != [] && a[|a| - 1] == b[|b| - 1] && Subsequence(a[..|a| - 1], b[..|b| - 1]))
  }

  lemma InLonger<T>(a: seq<T>, b: seq<T>, more: seq<T>)
    requires Subsequence(a, b) && |more| <= 1
    ensures Subsequence(a, b + more)
  {
    if more == [] {
      assert b + more == b;
    } else {
      assert (b + more)[..|b|] == b;
    }
  }

  lemma BothLonger<T>(a: seq<T>, b: seq<T>, x: T)
    requires Subsequence(a, b)
    ensures Subsequence(a + [x], b + [x])
  {
    assert (a + [x])[..|a|] == a && (b + [x])[..|b|] == b;
  }

  lemma PacketsSnoc(ds: seq<Departure>, d: Departure)
    ensures Packets(ds + [d]) == Packets(ds) + [d.packet]
  {
  }

  /** A departure whose send is not the last entry is accounted for by the others. The
      trace may stop before the acks. */
  ghost predicate SentBy(ds: seq<Departure>, trace: seq<Entry>) {
    && (forall i | 0 <= i < |ds| && !ds[i].Dropped? :: ds[i].First() < |trace| && trace[ds[i].First()] == Gave(ds[i].packet, true))
    && (forall i, j | 0 <= i < j < |ds| && !ds[j].Dropped? :: ds[i].First() < ds[j].First())
  }

  lemma AccountedSent(ds: seq<Departure>, trace: seq<Entry>)
    requires Accounted(ds, trace)
    ensures SentBy(ds, trace)
  {
    hide Queueable; hide NeedsAck; hide Finishes; hide IsPacket; hide StrayAck;
    forall i | 0 <= i < |ds|
      ensures ds[i].First() <= ds[i].Last() < |trace|
      ensures !ds[i].Dropped? ==> trace[ds[i].First()] == Gave(ds[i].packet, true)
    {
      assert Explained(ds[i], trace);
    }
  }

  /** What left the queue, but for drops by an ack of id 0, is in order a part of what
      was sent from the queue: every packet was given to TCP at least once, and each has
      a send of its own. */
  lemma {:induction false} SentInOrder(ds: seq<Departure>, trace: seq<Entry>)
    requires SentBy(ds, trace)
    ensures Subsequence(Packets(NotDropped(ds)), Sends(trace))
    decreases |trace| + |ds|
  {
    hide Subsequence; hide Packets;
    if ds == [] {
      NoneSent(Sends(trace));
    } else {
      var n := |ds| - 1;
      var d := ds[n];
      if d.Dropped? {
        assert NotDropped(ds) == NotDropped(ds[..n]);
        SentInOrder(ds[..n], trace);
      } else {
        var m := |trace| - 1;
        var e := trace[m];
        var more := if e.Gave? && e.queued then [e.packet] else [];
        if d.First() == m {
          OthersEarlier(ds, trace);
          SentInOrder(ds[..n], trace[..m]);
          PacketsSnoc(NotDropped(ds[..n]), d);
          BothLonger(Packets(NotDropped(ds[..n])), Sends(trace[..m]), d.packet);
        } else {
          assert forall i | 0 <= i < |ds| && !ds[i].Dropped? :: ds[i].First() <= d.First() < m;
          SentInOrder(ds, trace[..m]);
          InLonger(Packets(NotDropped(ds)), Sends(trace[..m]), more);
        }
      }
    }
  }

  lemma NoneSent(sends: seq<seq<byte>>)
    ensures Subsequence(Packets([]), sends)
  {
  }

  lemma OthersEarlier(ds: seq<Departure>, trace: seq<Entry>)
    requires ds != [] && trace != [] && SentBy(ds, trace) && !ds[|ds| - 1].Dropped?
    ensures SentBy(ds[..|ds| - 1], trace[..|trace| - 1])
  {
    var n := |ds| - 1;
    assert forall i | 0 <= i < n :: ds[i].First() < ds[n].First();
  }
}
