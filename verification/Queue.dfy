/** The MQTT send queue: a bounded sequence of packets, kept as frames in a ring buffer. */
module Queue {
  import opened RingBuffer
  import opened Proto

  /** The largest ring whose frame lengths fit the 16-bit results. */
  const MAX_QUEUE_SIZE: nat := 32767

  function Frames(packets: seq<seq<byte>>): seq<byte> {
    if packets == [] then [] else Frame(packets[0]) + Frames(packets[1..])
  }

  lemma {:induction false} FramesConcat(a: seq<seq<byte>>, b: seq<seq<byte>>)
    ensures Frames(a + b) == Frames(a) + Frames(b)
  {
    hide Frame;
    if a == [] {
      assert a + b == b;
    } else {
      assert (a + b)[1..] == a[1..] + b;
      FramesConcat(a[1..], b);
      Bits.Reassociate(Frame(a[0]), Frames(a[1..]), Frames(b));
    }
  }

  lemma FramesSnoc(a: seq<seq<byte>>, p: seq<byte>)
    ensures Frames(a + [p]) == Frames(a) + Frame(p)
  {
    FramesConcat(a, [p]);
    assert Frames([p]) == Frame(p);
  }

  lemma {:induction false} EscapedPlain(p: seq<byte>)
    ensures forall k | 0 <= k < |Escaped(p)| :: Escaped(p)[k] != END && Escaped(p)[k] != BEGIN
  {
    if p != [] {
      FlipTwice(p[0]);
      EscapedPlain(p[1..]);
    }
  }

  lemma {:induction false} EscapedInjective(p: seq<byte>, q: seq<byte>)
    requires Escaped(p) == Escaped(q)
    ensures p == q
  {
    if p == [] || q == [] {
    } else {
      FlipTwice(p[0]);
      FlipTwice(q[0]);
      assert Escaped(p)[0] == Escaped(q)[0];
      if IsSpecial(p[0]) {
        assert Escaped(p)[1] == Escaped(q)[1];
      }
      assert p[0] == q[0];
      assert Escaped(p)[|Stuffed(p[0])|..] == Escaped(p[1..]) && Escaped(q)[|Stuffed(q[0])|..] == Escaped(q[1..]);
      EscapedInjective(p[1..], q[1..]);
    }
  }

  /** Two frames that begin the same bytes are the same frame. */
  lemma FrameUnique(p: seq<byte>, s: seq<byte>, q: seq<byte>, t: seq<byte>)
    requires Frame(p) + s == Frame(q) + t
    ensures p == q && s == t
  {
    EscapedPlain(p);
    EscapedPlain(q);
    var whole := Frame(p) + s;
    var m, n := |Escaped(p)|, |Escaped(q)|;
    assert forall k | 0 <= k < m :: whole[k + 1] == Escaped(p)[k];
    assert forall k | 0 <= k < n :: whole[k + 1] == Escaped(q)[k];
    assert whole[m + 1] == END && whole[n + 1] == END;
    assert m == n;
    assert whole[1..m + 1] == Escaped(p) == Escaped(q);
    EscapedInjective(p, q);
    assert whole[|Frame(p)|..] == s == t;
  }

  /** The ring's bytes determine the packets in it. */
  lemma {:induction false} FramesInjective(a: seq<seq<byte>>, b: seq<seq<byte>>)
    requires Frames(a) == Frames(b)
    ensures a == b
  {
    if a != [] && b != [] {
      FrameUnique(a[0], Frames(a[1..]), b[0], Frames(b[1..]));
      FramesInjective(a[1..], b[1..]);
    }
  }

  class Queue {
    const rb: RingBuffer
    ghost var packets: seq<seq<byte>>

    ghost predicate Valid()
      reads this, rb, rb.buf
    {
      rb.Valid() && rb.buf.Length <= MAX_QUEUE_SIZE && rb.Contents() == Frames(packets)
    }

    constructor (bufferSize: nat)
      requires 2 <= bufferSize <= MAX_QUEUE_SIZE
      ensures Valid() && packets == [] && rb.buf.Length == bufferSize && fresh(rb) && fresh(rb.buf)
    {
      rb := new RingBuffer(bufferSize);
      packets := [];
    }

    /** Appends a packet, or rolls everything back when it does not fit. */
    method Puts(packet: seq<byte>) returns (ret: int)
      requires Valid()
      modifies `packets, rb`r, rb`w, rb`fillCnt, rb.buf
      ensures Valid()
      ensures ret == if |Frames(old(packets))| + |Frame(packet)| <= rb.buf.Length then |Frame(packet)| else -1
      ensures packets == if ret == -1 then old(packets) else old(packets) + [packet]
      ensures rb.r == old(rb.r) && (ret == -1 ==> rb.w == old(rb.w) && rb.fillCnt == old(rb.fillCnt))
    {
      hide Frame; hide Frames; hide RingBuffer.Contents;
      var localR, localW, localFillCnt := rb.r, rb.w, rb.fillCnt;
      FramesSnoc(packets, packet);
      ret := AddRb(rb, packet);
      if ret == -1 {
        rb.Oldest(localFillCnt);
        RollBack(localR, localW, localFillCnt, packets);
      } else {
        packets := packets + [packet];
      }
    }

    /** Puts the pointers back to a snapshot; what was between them is still there. */
    method RollBack(r: nat, w: nat, fillCnt: nat, ghost was: seq<seq<byte>>)
      requires rb.Valid() && rb.buf.Length <= MAX_QUEUE_SIZE
      requires r < rb.buf.Length && fillCnt <= rb.buf.Length && w == Wrap(r + fillCnt, rb.buf.Length)
      requires Window(rb.buf[..], r, fillCnt) == Frames(was)
      modifies `packets, rb`r, rb`w, rb`fillCnt
      ensures Valid() && packets == was && rb.r == r && rb.w == w && rb.fillCnt == fillCnt
    {
      rb.r, rb.w, rb.fillCnt := r, w, fillCnt;
      packets := was;
    }

    /** Takes the oldest packet, cut to maxLen. */
    method Gets(maxLen: nat, garbage: bool) returns (ok: bool, packet: seq<byte>)
      requires Valid()
      modifies `packets, rb`r, rb`fillCnt
      ensures Valid()
      ensures ok == (old(packets) != [])
      ensures if ok then packets == old(packets)[1..] && packet == Truncated(old(packets)[0], maxLen)
              else unchanged(this, rb)
    {
      hide RingBuffer.Contents; hide Frame;
      FramesEmpty(packets);
      ghost var first := if packets == [] then [] else packets[0];
      ok, packet := ParseRb(rb, maxLen, garbage, first, if packets == [] then [] else Frames(packets[1..]));
      if ok {
        packets := packets[1..];
      }
    }

    method IsEmpty() returns (empty: bool)
      requires Valid()
      ensures empty == (packets == [])
    {
      FramesEmpty(packets);
      return rb.fillCnt <= 0;
    }

    /** A snapshot of the read pointer and the fill count, a read, and the two restored:
        only a look at the oldest packet. */
    method Peek(maxLen: nat, garbage: bool) returns (ok: bool, packet: seq<byte>)
      requires Valid()
      modifies `packets, rb`r, rb`w, rb`fillCnt
      ensures Valid() && packets == old(packets) && rb.r == old(rb.r) && rb.w == old(rb.w) && rb.fillCnt == old(rb.fillCnt)
      ensures ok == (packets != [])
      ensures ok ==> packet == Truncated(packets[0], maxLen)
    {
      hide Frame; hide Frames;
      var rollbackR, rollbackFillCnt := rb.r, rb.fillCnt;
      ghost var was := packets;
      ok, packet := Gets(maxLen, garbage);
      RollBack(rollbackR, rb.w, rollbackFillCnt, was);
    }
  }

  lemma FramesEmpty(packets: seq<seq<byte>>)
    ensures packets == [] <==> |Frames(packets)| == 0
  {
  }
}
