/** Escaped framing: a packet is stored as 0x7E, its bytes with 0x7D..0x7F escaped, 0x7F. */
module Proto {
  import Bits
  import opened RingBuffer

  const ESCAPE: byte := 0x7D
  const BEGIN: byte := 0x7E
  const END: byte := 0x7F

  predicate IsSpecial(b: byte) {
    b == ESCAPE || b == BEGIN || b == END
  }

  /** b ^ 0x20 */
  function Flip(b: byte): byte {
    if b / 32 % 2 == 1 then b - 32 else b + 32
  }

  function Stuffed(b: byte): seq<byte> {
    if IsSpecial(b) then [ESCAPE, Flip(b)] else [b]
  }

  function Escaped(packet: seq<byte>): seq<byte> {
    if packet == [] then [] else Stuffed(packet[0]) + Escaped(packet[1..])
  }

  function Frame(packet: seq<byte>): seq<byte> {
    [BEGIN] + Escaped(packet) + [END]
  }

  /** Flipping undoes itself, and an escaped byte never looks like a special one. */
  lemma FlipTwice(b: byte)
    ensures Flip(Flip(b)) == b
    ensures IsSpecial(b) ==> !IsSpecial(Flip(b))
  {
  }

  lemma {:induction false} EscapedConcat(a: seq<byte>, b: seq<byte>)
    ensures Escaped(a + b) == Escaped(a) + Escaped(b)
  {
    if a == [] {
      assert a + b == b;
    } else {
      assert (a + b)[1..] == a[1..] + b;
      EscapedConcat(a[1..], b);
    }
  }

  /** What is left of a frame before its i-th byte is sent. */
  function Tail(packet: seq<byte>, i: nat): seq<byte>
    requires i <= |packet|
  {
    Escaped(packet[i..]) + [END]
  }

  lemma TailStep(packet: seq<byte>, i: nat)
    requires i < |packet|
    ensures Tail(packet, i) == Stuffed(packet[i]) + Tail(packet, i + 1)
  {
    assert packet[i..][1..] == packet[i + 1..];
  }

  lemma TailEnd(packet: seq<byte>)
    ensures Tail(packet, |packet|) == [END]
  {
    assert packet[|packet|..] == [];
  }

  lemma FirstByte(b: byte, s: seq<byte>, c: byte, t: seq<byte>)
    requires [b] + s == [c] + t
    ensures b == c && s == t
  {
    assert ([b] + s)[0] == ([c] + t)[0] && ([b] + s)[1..] == ([c] + t)[1..];
  }

  /** Writes a frame; -1 when the ring is too small for it, with some of it written
      behind what was there. */
  method AddRb(rb: RingBuffer, packet: seq<byte>) returns (ret: int)
    requires rb.Valid()
    modifies rb`w, rb`fillCnt, rb.buf
    ensures rb.Valid()
    ensures ret == if |old(rb.Contents())| + |Frame(packet)| <= rb.buf.Length then |Frame(packet)| else -1
    ensures ret != -1 ==> rb.Contents() == old(rb.Contents()) + Frame(packet)
    ensures old(rb.Contents()) <= rb.Contents()
  {
    hide Escaped; hide Flip; hide RingBuffer.Contents;
    ghost var before := rb.Contents();
    assert Frame(packet) == [BEGIN] + Tail(packet, 0) by { assert packet[0..] == packet; }
    var i := 2;
    var ok := rb.Put(BEGIN);
    if !ok {
      return -1;
    }
    for k := 0 to |packet|
      invariant rb.Valid() && before <= rb.Contents()
      invariant before + Frame(packet) == rb.Contents() + Tail(packet, k)
      invariant i == |rb.Contents()| - |before| + 1
    {
      TailStep(packet, k);
      ok := AddByte(rb, packet[k]);
      if !ok {
        return -1;
      }
      i := i + |Stuffed(packet[k])|;
    }
    TailEnd(packet);
    ok := rb.Put(END);
    if !ok {
      return -1;
    }
    return i;
  }

  method AddByte(rb: RingBuffer, c: byte) returns (ok: bool)
    requires rb.Valid()
    modifies rb`w, rb`fillCnt, rb.buf
    ensures rb.Valid() && old(rb.Contents()) <= rb.Contents()
    ensures ok == (|old(rb.Contents())| + |Stuffed(c)| <= rb.buf.Length)
    ensures ok ==> rb.Contents() == old(rb.Contents()) + Stuffed(c)
  {
    hide RingBuffer.Contents; hide Flip;
    if IsSpecial(c) {
      ok := rb.Put(ESCAPE);
      if !ok {
        return false;
      }
      ok := rb.Put(Flip(c));
    } else {
      ok := rb.Put(c);
    }
  }

  /** The receiving side, byte by byte. */
  class Parser {
    var out: seq<byte>
    const bufSize: nat
    var isEsc: bool
    var isBegin: bool

    /** isBegin is not initialised: it starts as whatever the stack held. */
    constructor (bufSize: nat, garbage: bool)
      ensures this.bufSize == bufSize && out == [] && !isEsc && isBegin == garbage
    {
      this.bufSize := bufSize;
      out, isEsc, isBegin := [], false, garbage;
    }

    method ParseByte(value: byte) returns (done: bool)
      modifies this
      ensures done == (value == END)
      ensures value == ESCAPE ==> isEsc && out == old(out) && isBegin == old(isBegin)
      ensures value == BEGIN ==> out == [] && !isEsc && isBegin
      ensures value == END ==> out == old(out) && isEsc == old(isEsc) && !isBegin
      ensures !IsSpecial(value) && !old(isBegin) ==> unchanged(this)
      ensures !IsSpecial(value) && old(isBegin) ==>
                && isBegin && !isEsc
                && out == Capped(old(out) + [if old(isEsc) then Flip(value) else value], bufSize, |old(out)|)
    {
      hide Flip;
      var c := value;
      if value == ESCAPE {
        isEsc := true;
      } else if value == BEGIN {
        out, isEsc, isBegin := [], false, true;
      } else if value == END {
        isBegin := false;
        return true;
      } else if isBegin {
        if isEsc {
          c := Flip(c);
          isEsc := false;
        }
        if |out| < bufSize {
          out := out + [c];
        }
      }
      return false;
    }
  }

  /** A byte beyond the buffer size is dropped. */
  function Capped(s: seq<byte>, bufSize: nat, was: nat): seq<byte>
    requires was <= |s|
  {
    if was < bufSize then s else s[..was]
  }

  function Truncated(s: seq<byte>, n: nat): seq<byte> {
    if |s| <= n then s else s[..n]
  }

  lemma TruncatedStep(packet: seq<byte>, i: nat, n: nat)
    requires i < |packet|
    ensures var before := Truncated(packet[..i], n);
            Capped(before + [packet[i]], n, |before|) == Truncated(packet[..i + 1], n)
  {
    var before := Truncated(packet[..i], n);
    if i < n {
      assert before + [packet[i]] == packet[..i + 1];
    } else {
      assert (before + [packet[i]])[..|before|] == before;
      assert packet[..i][..n] == packet[..i + 1][..n];
    }
  }

  /** Reads one frame; whatever the parser started with, the packet comes out, cut to
      maxLen, and nothing behind its frame is consumed. */
  method ParseRb(rb: RingBuffer, maxLen: nat, garbage: bool, ghost packet: seq<byte>, ghost rest: seq<byte>)
    returns (ok: bool, out: seq<byte>)
    requires rb.Valid() && (rb.Contents() == [] || rb.Contents() == Frame(packet) + rest)
    modifies rb`r, rb`fillCnt
    ensures rb.Valid()
    ensures ok == (old(rb.Contents()) != [])
    ensures if ok then out == Truncated(packet, maxLen) && rb.Contents() == rest else unchanged(rb)
  {
    hide Escaped; hide Flip; hide RingBuffer.Contents; hide Truncated;
    var proto := new Parser(maxLen, garbage);
    var more, c := rb.Get();
    if !more {
      return false, [];
    }
    assert Frame(packet) + rest == [BEGIN] + (Tail(packet, 0) + rest) by { assert packet[0..] == packet; }
    FirstByte(c, rb.Contents(), BEGIN, Tail(packet, 0) + rest);
    var done := proto.ParseByte(c);
    assert Truncated(packet[..0], maxLen) == [] by { TruncatedNothing(packet, maxLen); }
    ghost var i := 0;
    while !done
      invariant rb.Valid() && i <= |packet|
      invariant done ==> rb.Contents() == rest && proto.out == Truncated(packet, maxLen)
      invariant !done ==> proto.isBegin && proto.out == Truncated(packet[..i], maxLen)
      invariant !done && proto.isEsc ==> i < |packet| && rb.Contents() == [Flip(packet[i])] + (Tail(packet, i + 1) + rest)
      invariant !done && proto.isEsc ==> IsSpecial(packet[i])
      invariant !done && !proto.isEsc ==> rb.Contents() == Tail(packet, i) + rest
      decreases rb.fillCnt, !done
    {
      NextByte(packet, i, rest);
      ghost var before := rb.Contents();
      more, c := rb.Get();
      FirstByte(c, rb.Contents(), before[0], before[1..]);
      ghost var wasEsc := proto.isEsc;
      done := proto.ParseByte(c);
      if !done && (wasEsc || c != ESCAPE) {
        TruncatedStep(packet, i, maxLen);
        i := i + 1;
      }
    }
    return true, proto.out;
  }

  lemma TruncatedNothing(packet: seq<byte>, n: nat)
    ensures Truncated(packet[..0], n) == []
  {
  }

  /** What comes next in a frame. */
  lemma NextByte(packet: seq<byte>, i: nat, rest: seq<byte>)
    requires i <= |packet|
    ensures packet[..|packet|] == packet
    ensures i == |packet| ==> Tail(packet, i) + rest == [END] + rest
    ensures i < |packet| && IsSpecial(packet[i]) ==>
              && Tail(packet, i) + rest == [ESCAPE] + ([Flip(packet[i])] + (Tail(packet, i + 1) + rest))
              && !IsSpecial(Flip(packet[i])) && Flip(Flip(packet[i])) == packet[i]
    ensures i < |packet| && !IsSpecial(packet[i]) ==>
              Tail(packet, i) + rest == [packet[i]] + (Tail(packet, i + 1) + rest)
  {
    if i == |packet| {
      assert packet[i..] == [];
    } else {
      TailStep(packet, i);
      FlipTwice(packet[i]);
    }
  }
}
