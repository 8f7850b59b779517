/** Output buffers: which cells a call has written, and what the stream gained. */
module OutputBuffer {
  import opened Bits

  /** Output written so far: out's cells from n to n' hold what was produced, the
      others are as they were. */
  ghost predicate Wrote(now: seq<byte>, before: seq<byte>, n: nat, n': nat, p0: seq<byte>, p1: seq<byte>) {
    && |now| == |before| && n <= n' <= |now|
    && p1 == p0 + now[n..n']
    && now[..n] == before[..n]
    && now[n'..] == before[n'..]
  }

  lemma WroteNone(now: seq<byte>, n: nat, p0: seq<byte>)
    requires n <= |now|
    ensures Wrote(now, now, n, n, p0, p0)
  {
  }

  lemma WroteNothing(now: seq<byte>, p0: seq<byte>)
    ensures Wrote(now, now, 0, 0, p0, p0)
  {
  }

  lemma WroteStep(now: seq<byte>, mid: seq<byte>, before: seq<byte>, n: nat, m: nat, n': nat,
                  p0: seq<byte>, p1: seq<byte>, p2: seq<byte>)
    requires Wrote(mid, before, n, m, p0, p1) && Wrote(now, mid, m, n', p1, p2)
    ensures Wrote(now, before, n, n', p0, p2)
  {
    assert now[n..m] == now[..m][n..];
    assert mid[n..m] == mid[..m][n..];
    assert now[n..n'] == now[n..m] + now[m..n'];
    assert now[..n] == now[..m][..n];
    assert mid[..n] == mid[..m][..n];
    assert now[n'..] == mid[n'..] == mid[m..][n' - m..] == before[m..][n' - m..] == before[n'..];
  }
}
