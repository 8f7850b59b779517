/** The byte ring buffer below the MQTT queue: pointers are offsets into `buf`. */
module RingBuffer {
  import Bits

  type byte = Bits.byte

  /** One step of a pointer that wraps at the end of a buffer of n bytes. */
  function Wrap(i: nat, n: nat): (j: nat)
    requires i < 2 * n
    ensures j < n
  {
    if i >= n then i - n else i
  }

  /** The n bytes of s that begin at r and may wrap. */
  function Window(s: seq<byte>, r: nat, n: nat): (t: seq<byte>)
    requires r < |s| && n <= |s|
    ensures |t| == n
  {
    if r + n <= |s| then s[r..r + n] else s[r..] + s[..r + n - |s|]
  }

  lemma WindowPrefix(s: seq<byte>, r: nat, n: nat, m: nat)
    requires r < |s| && m <= n <= |s|
    ensures Window(s, r, m) == Window(s, r, n)[..m]
  {
  }

  lemma WindowPut(s: seq<byte>, r: nat, n: nat, c: byte)
    requires r < |s| && n < |s|
    ensures Window(s[Wrap(r + n, |s|) := c], r, n + 1) == Window(s, r, n) + [c]
  {
  }

  lemma WindowGet(s: seq<byte>, r: nat, n: nat)
    requires r < |s| && 0 < n <= |s|
    ensures Window(s, r, n) == [s[r]] + Window(s, Wrap(r + 1, |s|), n - 1)
  {
    hide Window; hide Wrap;
    WindowAt(s, r, n, 0);
    forall i | 1 <= i < n
      ensures Window(s, r, n)[i] == Window(s, Wrap(r + 1, |s|), n - 1)[i - 1]
    {
      WindowAt(s, r, n, i);
      WindowAt(s, Wrap(r + 1, |s|), n - 1, i - 1);
      WrapOneMore(r, i, |s|);
    }
  }

  lemma WindowAt(s: seq<byte>, r: nat, n: nat, i: nat)
    requires r < |s| && i < n <= |s|
    ensures Window(s, r, n)[i] == s[Wrap(r + i, |s|)]
    ensures Wrap(r, |s|) == r
  {
  }

  lemma WrapOneMore(r: nat, i: nat, n: nat)
    requires 1 <= i && r < n && i < n
    ensures Wrap(Wrap(r + 1, n) + (i - 1), n) == Wrap(r + i, n)
  {
  }

  class RingBuffer {
    const buf: array<byte>
    var r: nat
    var w: nat
    var fillCnt: nat

    ghost predicate Valid()
      reads this
    {
      && 2 <= buf.Length && r < buf.Length && fillCnt <= buf.Length
      && w == Wrap(r + fillCnt, buf.Length)
    }

    ghost function Contents(): (s: seq<byte>)
      requires Valid()
      reads this, buf
      ensures |s| == fillCnt
    {
      Window(buf[..], r, fillCnt)
    }

    /** The oldest n bytes, as the pointers would show them after a rollback. */
    lemma Oldest(n: nat)
      requires Valid() && n <= fillCnt
      ensures Window(buf[..], r, n) == Contents()[..n]
    {
      WindowPrefix(buf[..], r, fillCnt, n);
    }

    constructor (size: nat)
      requires 2 <= size
      ensures Valid() && fresh(buf) && buf.Length == size && Contents() == []
    {
      buf := new byte[size];
      r, w, fillCnt := 0, 0, 0;
    }

    method Put(c: byte) returns (ok: bool)
      requires Valid()
      modifies `w, `fillCnt, buf
      ensures Valid()
      ensures ok == (old(fillCnt) < buf.Length)
      ensures Contents() == if ok then old(Contents()) + [c] else old(Contents())
    {
      if fillCnt >= buf.Length {
        return false;
      }
      WindowPut(buf[..], r, fillCnt, c);
      fillCnt := fillCnt + 1;
      buf[w] := c;
      w := w + 1;
      if w >= buf.Length {
        w := 0;
      }
      return true;
    }

    method Get() returns (ok: bool, c: byte)
      requires Valid()
      modifies `r, `fillCnt
      ensures Valid()
      ensures ok == (old(fillCnt) > 0)
      ensures if ok then old(Contents()) == [c] + Contents() else unchanged(this)
    {
      if fillCnt <= 0 {
        return false, 0;
      }
      WindowGet(buf[..], r, fillCnt);
      fillCnt := fillCnt - 1;
      c := buf[r];
      r := r + 1;
      if r >= buf.Length {
        r := 0;
      }
      return true, c;
    }
  }
}
