/** The encoder's match search: the flattened linked-list index and the two scans,
    one that follows the index and one that tries every position. */
module HeatshrinkSearch {
  import opened Bits

  const MATCH_NOT_FOUND: nat := 0xFFFF
  const BREAK_EVEN_POINT: nat := 3

  /** How many bytes at a and b agree, up to max. */
  function MatchLength(buf: seq<byte>, a: nat, b: nat, max: nat): (n: nat)
    requires a <= b && b + max <= |buf|
    ensures n <= max
    ensures n < max ==> buf[a + n] != buf[b + n]
    decreases max
  {
    if max == 0 || buf[a] != buf[b] then 0 else 1 + MatchLength(buf, a + 1, b + 1, max - 1)
  }

  lemma {:induction false} MatchLengthAgrees(buf: seq<byte>, a: nat, b: nat, max: nat, k: nat)
    requires a <= b && b + max <= |buf| && k < MatchLength(buf, a, b, max)
    ensures buf[a + k] == buf[b + k]
    decreases k
  {
    if k > 0 {
      MatchLengthAgrees(buf, a + 1, b + 1, max - 1, k - 1);
    }
  }

  /** What a search over [start, end) must answer: nothing, when no match is long
      enough to pay off; else the distance and length of the longest match, and of
      those the nearest. */
  ghost predicate IsBestMatch(buf: seq<byte>, start: nat, end: nat, max: nat, dist: nat, len: nat)
    requires start <= end && end + max <= |buf|
  {
    if dist == MATCH_NOT_FOUND then
      forall q | start <= q < end :: MatchLength(buf, q, end, max) < BREAK_EVEN_POINT
    else
      && 1 <= dist <= end - start
      && len == MatchLength(buf, end - dist, end, max) >= BREAK_EVEN_POINT
      && (forall q | start <= q < end :: MatchLength(buf, q, end, max) <= len)
      && (forall q | end - dist < q < end :: MatchLength(buf, q, end, max) < len)
  }

  /** There is exactly one best answer, so two searches that both find it agree. */
  lemma BestMatchUnique(buf: seq<byte>, start: nat, end: nat, max: nat, d1: nat, n1: nat, d2: nat, n2: nat)
    requires start <= end && end + max <= |buf| && end - start < MATCH_NOT_FOUND
    requires IsBestMatch(buf, start, end, max, d1, n1) && IsBestMatch(buf, start, end, max, d2, n2)
    ensures d1 == d2
    ensures d1 != MATCH_NOT_FOUND ==> n1 == n2
  {
    if d1 != MATCH_NOT_FOUND {
      assert MatchLength(buf, end - d1, end, max) == n1;
    }
    if d2 != MATCH_NOT_FOUND {
      assert MatchLength(buf, end - d2, end, max) == n2;
    }
  }

  /** The best match among the positions from `from` up, while a scan runs down. */
  ghost predicate BestSoFar(buf: seq<byte>, start: nat, end: nat, max: nat, from: int, at: nat, len: nat)
    requires start <= end && end + max <= |buf|
  {
    && (forall q | start <= q < end && from <= q :: MatchLength(buf, q, end, max) <= len)
    && (len > 0 ==>
          && start <= at < end && from <= at
          && MatchLength(buf, at, end, max) == len
          && (forall q | at < q < end :: MatchLength(buf, q, end, max) < len))
  }

  // ---------------------------------------------------------------------------
  // The index

  /** Entry i is the position of the previous byte equal to buf[i], or negative. */
  ghost predicate IsIndex(buf: seq<byte>, index: seq<int>, end: nat) {
    && end <= |buf| && end <= |index|
    && forall i | 0 <= i < end ::
         && -1 <= index[i] < i
         && (index[i] >= 0 ==> buf[index[i]] == buf[i])
         && (forall j | index[i] < j < i :: buf[j] != buf[i])
  }

  /** Storing a uint16_t in an int16_t. */
  function ToInt16(u: nat): int
    requires u < 65536
  {
    if u >= 0x8000 then u - 65536 else u
  }

  /** The position before i where v was last seen, or 0xFFFF. */
  function LastSeen(buf: seq<byte>, i: nat, v: byte): (u: nat)
    requires i <= |buf| && i < 65536
    ensures u < i || u == 0xFFFF
  {
    if i == 0 then 0xFFFF else if buf[i - 1] == v then i - 1 else LastSeen(buf, i - 1, v)
  }

  /** What indexing leaves in an entry: the last position as an int16_t. */
  ghost predicate IsRawIndex(buf: seq<byte>, index: seq<int>, end: nat) {
    && end <= |buf| && end <= |index| && end < 65536
    && forall i | 0 <= i < end :: index[i] == ToInt16(LastSeen(buf, i, buf[i]))
  }

  /** Build the index in one pass, from the last place each byte value was seen. The
      end is a uint16_t: with 2^15 bytes of backlog and as many of input it wraps to
      zero, and nothing is indexed. */
  method DoIndexing(buf: array<byte>, index: array<int>, inputOffset: nat, inputSize: nat)
    requires inputOffset + inputSize <= buf.Length <= index.Length && inputOffset + inputSize <= 65536
    requires (buf as object) != (index as object)
    modifies index
    ensures inputOffset + inputSize < 65536 ==> IsRawIndex(buf[..], index[..], inputOffset + inputSize)
    ensures inputOffset + inputSize == 65536 ==> index[..] == old(index[..])
  {
    hide ToInt16; hide LastSeen;
    ghost var b, before := buf[..], index[..];
    var last := new nat[256](_ => 0xFFFF);
    var end := (inputOffset + inputSize) % 65536;
    forall v: byte ensures LastSeen(b, 0, v) == 0xFFFF {
      NeverSeen(b, v);
    }
    for i := 0 to end
      invariant buf[..] == b
      invariant forall v: byte :: last[v] == LastSeen(b, i, v)
      invariant forall k | 0 <= k < i :: index[k] == ToInt16(LastSeen(b, k, b[k]))
      invariant i == 0 ==> index[..] == before
    {
      var v := buf[i];
      var lv := last[v];
      index[i] := ToInt16(lv);
      forall v: byte ensures LastSeen(b, i + 1, v) == if b[i] == v then i else LastSeen(b, i, v) {
        SeenNow(b, i, v);
      }
      last[v] := i;
    }
  }

  lemma NeverSeen(buf: seq<byte>, v: byte)
    ensures LastSeen(buf, 0, v) == 0xFFFF
  {
  }

  lemma SeenNow(buf: seq<byte>, i: nat, v: byte)
    requires i < |buf| && i < 65535
    ensures LastSeen(buf, i + 1, v) == if buf[i] == v then i else LastSeen(buf, i, v)
  {
  }

  lemma {:induction false} LastSeenMeaning(buf: seq<byte>, i: nat, v: byte)
    requires i <= |buf| && i < 65536
    ensures var u := LastSeen(buf, i, v);
            && (u == 0xFFFF ==> forall j | 0 <= j < i :: buf[j] != v)
            && (u != 0xFFFF ==> buf[u] == v && forall j | u < j < i :: buf[j] != v)
  {
    if i > 0 && buf[i - 1] != v {
      LastSeenMeaning(buf, i - 1, v);
    }
  }

  /** The entries lead to the previous bytes if and only if none of those is at 2^15 or
      beyond, where an int16_t turns negative. */
  lemma RawIndexExact(buf: seq<byte>, index: seq<int>, end: nat)
    requires IsRawIndex(buf, index, end)
    ensures IsIndex(buf, index, end) <==>
            forall i | 0 <= i < end :: LastSeen(buf, i, buf[i]) == 0xFFFF || LastSeen(buf, i, buf[i]) < 0x8000
  {
    if forall i | 0 <= i < end :: LastSeen(buf, i, buf[i]) == 0xFFFF || LastSeen(buf, i, buf[i]) < 0x8000 {
      forall i | 0 <= i < end
        ensures -1 <= index[i] < i
        ensures index[i] >= 0 ==> buf[index[i]] == buf[i]
        ensures forall j | index[i] < j < i :: buf[j] != buf[i]
      {
        LastSeenMeaning(buf, i, buf[i]);
      }
    }
    if IsIndex(buf, index, end) {
      forall i | 0 <= i < end
        ensures LastSeen(buf, i, buf[i]) == 0xFFFF || LastSeen(buf, i, buf[i]) < 0x8000
      {
        LastSeenMeaning(buf, i, buf[i]);
        assert -1 <= index[i];
      }
    }
  }

  /** Up to 2^15 positions fit an int16_t. */
  lemma RawIsIndex(buf: seq<byte>, index: seq<int>, end: nat)
    requires IsRawIndex(buf, index, end) && end <= 0x8000
    ensures IsIndex(buf, index, end)
  {
    hide IsIndex; hide IsRawIndex;
    RawIndexExact(buf, index, end);
  }

  /** What a search along the index relies on in any case: entries lead down, and to the
      same byte. Index or not, indexing leaves this. */
  ghost predicate IsLinked(buf: seq<byte>, index: seq<int>, end: nat) {
    && end <= |buf| && end <= |index|
    && forall i | 0 <= i < end :: index[i] < i && (index[i] >= 0 ==> buf[index[i]] == buf[i])
  }

  lemma RawIsLinked(buf: seq<byte>, index: seq<int>, end: nat)
    requires IsRawIndex(buf, index, end)
    ensures IsLinked(buf, index, end)
  {
    forall i | 0 <= i < end
      ensures index[i] < i && (index[i] >= 0 ==> buf[index[i]] == buf[i])
    {
      LastSeenMeaning(buf, i, buf[i]);
    }
  }

  lemma IndexIsLinked(buf: seq<byte>, index: seq<int>, end: nat)
    requires IsIndex(buf, index, end)
    ensures IsLinked(buf, index, end)
  {
  }

  // ---------------------------------------------------------------------------
  // The two scans

  /** Count the bytes that agree, knowing that the first ones do. */
  method CompareFrom(buf: array<byte>, pos: nat, end: nat, max: nat) returns (len: nat)
    requires pos < end && end + max <= buf.Length && 1 <= max && buf[pos] == buf[end]
    ensures len == MatchLength(buf[..], pos, end, max)
  {
    len := 1;
    while len < max
      invariant 1 <= len <= max
      invariant MatchLength(buf[..], pos, end, max) == len + MatchLength(buf[..], pos + len, end + len, max - len)
    {
      if buf[pos + len] != buf[end + len] {
        break;
      }
      len := len + 1;
    }
  }

  lemma BestOfNone(buf: seq<byte>, start: nat, end: nat, max: nat)
    requires start <= end && end + max <= |buf|
    ensures BestSoFar(buf, start, end, max, end, MATCH_NOT_FOUND, 0)
  {
  }

  /** Scanning one more position, whose match length is m: a strictly longer match
      replaces the best one. */
  lemma BestStep(buf: seq<byte>, start: nat, end: nat, max: nat, pos: nat, at: nat, len: nat)
    requires start <= pos < end && end + max <= |buf| && BestSoFar(buf, start, end, max, pos + 1, at, len)
    ensures var m := MatchLength(buf, pos, end, max);
            if m > len then BestSoFar(buf, start, end, max, pos, pos, m)
            else BestSoFar(buf, start, end, max, pos, at, len)
  {
  }

  /** Positions that match nothing, or that cannot beat a full-length match, may be
      skipped. */
  lemma BestSkip(buf: seq<byte>, start: nat, end: nat, max: nat, from: int, to: int, at: nat, len: nat)
    requires start <= end && end + max <= |buf| && BestSoFar(buf, start, end, max, from, at, len) && to <= from
    requires len == max || forall q | start <= q < end && to <= q < from :: MatchLength(buf, q, end, max) == 0
    ensures BestSoFar(buf, start, end, max, to, at, len)
  {
  }

  lemma BestAtEnd(buf: seq<byte>, start: nat, end: nat, max: nat, from: int, at: nat, len: nat)
    requires start <= end && end + max <= |buf| && BestSoFar(buf, start, end, max, from, at, len) && from <= start
    requires end - start < MATCH_NOT_FOUND
    ensures len >= BREAK_EVEN_POINT ==> at < end && IsBestMatch(buf, start, end, max, end - at, len)
    ensures len < BREAK_EVEN_POINT ==> IsBestMatch(buf, start, end, max, MATCH_NOT_FOUND, 0)
  {
  }

  /** Follow the index down from the needle. What is found is a match; with an index it is
      the best one; and nothing is found when the needle's entry is before the start. */
  method FindLongestMatch(buf: array<byte>, index: array<int>, start: nat, end: nat, max: nat)
    returns (dist: nat, len: nat)
    requires start <= end && end + max <= buf.Length && 1 <= max && end - start < MATCH_NOT_FOUND
    requires end < index.Length && IsLinked(buf[..], index[..], end + 1)
    ensures IsIndex(buf[..], index[..], end + 1) ==> IsBestMatch(buf[..], start, end, max, dist, len)
    ensures dist != MATCH_NOT_FOUND ==>
              1 <= dist <= end - start && BREAK_EVEN_POINT <= len == MatchLength(buf[..], end - dist, end, max)
    ensures index[end] < start ==> dist == MATCH_NOT_FOUND
  {
    hide MatchLength; hide IsIndex; hide IsLinked; hide BestSoFar; hide IsBestMatch; hide Searched;
    ghost var b, links := buf[..], index[..];
    var matchMaxlen: nat, matchIndex: nat := 0, MATCH_NOT_FOUND;
    var pos := index[end];
    LinkDown(b, links, end, end);
    SearchBegins(b, links, start, end, max);
    while pos >= start
      invariant pos < end
      invariant pos >= 0 ==> b[pos] == b[end]
      invariant matchMaxlen < max
      invariant Searched(b, links, start, end, max, pos + 1, matchIndex, matchMaxlen)
      invariant matchMaxlen > 0 ==> index[end] >= start
      decreases pos
    {
      LinkDown(b, links, end, pos);
      ghost var at, len0 := matchIndex, matchMaxlen;
      if buf[pos + matchMaxlen] != buf[end + matchMaxlen] {
        CannotBeat(b, pos, end, max, matchMaxlen);
      } else {
        var n := CompareFrom(buf, pos, end, max);
        if n > matchMaxlen {
          matchMaxlen, matchIndex := n, pos;
          if n == max { // no match can be longer
            SearchStep(b, links, start, end, max, pos, at, len0);
            SearchFull(b, links, start, end, max, index[pos] + 1, matchIndex, matchMaxlen);
            pos := start - 1;
            break;
          }
        }
      }
      SearchStep(b, links, start, end, max, pos, at, len0);
      pos := index[pos];
    }
    SearchEnds(b, links, start, end, max, pos + 1, matchIndex, matchMaxlen);
    if matchMaxlen >= BREAK_EVEN_POINT {
      return end - matchIndex, matchMaxlen;
    }
    return MATCH_NOT_FOUND, 0;
  }

  /** How far the search along the links has come: with an index it has seen the best match
      so far, and without one still only matches. */
  ghost predicate Searched(buf: seq<byte>, index: seq<int>, start: nat, end: nat, max: nat, from: int, at: nat, len: nat)
    requires start <= end && end + max <= |buf|
  {
    && (IsIndex(buf, index, end + 1) ==> BestSoFar(buf, start, end, max, from, at, len))
    && (len > 0 ==> start <= at < end && len == MatchLength(buf, at, end, max))
  }

  lemma SearchBegins(buf: seq<byte>, index: seq<int>, start: nat, end: nat, max: nat)
    requires start <= end && end + max <= |buf| && 1 <= max && end < |index|
    ensures Searched(buf, index, start, end, max, index[end] + 1, MATCH_NOT_FOUND, 0)
  {
    hide MatchLength; hide IsIndex; hide BestSoFar;
    if IsIndex(buf, index, end + 1) {
      BestOfNone(buf, start, end, max);
      NothingBetween(buf, index, end, end, max);
      BestSkip(buf, start, end, max, end, index[end] + 1, MATCH_NOT_FOUND, 0);
    }
  }

  lemma SearchStep(buf: seq<byte>, index: seq<int>, start: nat, end: nat, max: nat, pos: nat, at: nat, len: nat)
    requires start <= pos < end && end + max <= |buf| && 1 <= max && end < |index| && buf[pos] == buf[end]
    requires Searched(buf, index, start, end, max, pos + 1, at, len)
    ensures var m := MatchLength(buf, pos, end, max);
            if m > len then Searched(buf, index, start, end, max, index[pos] + 1, pos, m)
            else Searched(buf, index, start, end, max, index[pos] + 1, at, len)
  {
    hide MatchLength; hide IsIndex; hide BestSoFar;
    if IsIndex(buf, index, end + 1) {
      BestStep(buf, start, end, max, pos, at, len);
      NothingBetween(buf, index, end, pos, max);
      var m := MatchLength(buf, pos, end, max);
      BestSkip(buf, start, end, max, pos, index[pos] + 1, if m > len then pos else at, if m > len then m else len);
    }
  }

  lemma SearchFull(buf: seq<byte>, index: seq<int>, start: nat, end: nat, max: nat, from: int, at: nat, len: nat)
    requires start <= end && end + max <= |buf| && len == max
    requires Searched(buf, index, start, end, max, from, at, len)
    ensures Searched(buf, index, start, end, max, start, at, len)
  {
    hide MatchLength; hide IsIndex;
    if IsIndex(buf, index, end + 1) {
      assert BestSoFar(buf, start, end, max, start, at, len);
    }
  }

  lemma SearchEnds(buf: seq<byte>, index: seq<int>, start: nat, end: nat, max: nat, from: int, at: nat, len: nat)
    requires start <= end && end + max <= |buf| && from <= start && end - start < MATCH_NOT_FOUND
    requires Searched(buf, index, start, end, max, from, at, len)
    ensures len >= BREAK_EVEN_POINT ==>
              && start <= at < end && len == MatchLength(buf, at, end, max)
              && (IsIndex(buf, index, end + 1) ==> IsBestMatch(buf, start, end, max, end - at, len))
    ensures len < BREAK_EVEN_POINT ==>
              (IsIndex(buf, index, end + 1) ==> IsBestMatch(buf, start, end, max, MATCH_NOT_FOUND, 0))
  {
    hide MatchLength; hide IsIndex; hide IsBestMatch; hide BestSoFar;
    if IsIndex(buf, index, end + 1) {
      BestAtEnd(buf, start, end, max, from, at, len);
    }
  }

  lemma LinkDown(buf: seq<byte>, index: seq<int>, end: nat, pos: nat)
    requires end < |buf| && IsLinked(buf, index, end + 1) && pos <= end && buf[pos] == buf[end]
    ensures index[pos] < pos && (index[pos] >= 0 ==> buf[index[pos]] == buf[end])
  {
  }

  lemma CannotBeat(buf: seq<byte>, pos: nat, end: nat, max: nat, n: nat)
    requires pos < end && end + max <= |buf| && n < max && buf[pos + n] != buf[end + n]
    ensures MatchLength(buf, pos, end, max) <= n
  {
    if MatchLength(buf, pos, end, max) > n {
      MatchLengthAgrees(buf, pos, end, max, n);
    }
  }

  /** Positions the index skips start with another byte. */
  lemma NothingBetween(buf: seq<byte>, index: seq<int>, end: nat, pos: nat, max: nat)
    requires end < |buf| && end < |index| && IsIndex(buf, index, end + 1)
    requires pos <= end && end + max <= |buf| && buf[pos] == buf[end]
    ensures -1 <= index[pos] < pos && (index[pos] >= 0 ==> buf[index[pos]] == buf[end])
    ensures forall q: nat | index[pos] < q < pos :: MatchLength(buf, q, end, max) == 0
  {
  }

  /** Try every position, the scan compiled without the index. */
  method FindLongestMatchLinear(buf: array<byte>, start: nat, end: nat, max: nat) returns (dist: nat, len: nat)
    requires start <= end && end + max <= buf.Length && 1 <= max && end - start < MATCH_NOT_FOUND
    ensures IsBestMatch(buf[..], start, end, max, dist, len)
  {
    hide MatchLength; hide BestSoFar; hide IsBestMatch;
    ghost var b := buf[..];
    var matchMaxlen: nat, matchIndex: nat := 0, MATCH_NOT_FOUND;
    var pos := end - 1;
    BestOfNone(b, start, end, max);
    while pos >= start
      invariant start - 1 <= pos < end
      invariant matchMaxlen < max
      invariant BestSoFar(b, start, end, max, pos + 1, matchIndex, matchMaxlen)
      decreases pos
    {
      BestStep(b, start, end, max, pos, matchIndex, matchMaxlen);
      if buf[pos + matchMaxlen] == buf[end + matchMaxlen] && buf[pos] == buf[end] {
        var n := CompareFrom(buf, pos, end, max);
        if n > matchMaxlen {
          matchMaxlen, matchIndex := n, pos;
          if n == max { // no match can be longer
            BestSkip(b, start, end, max, pos, start, matchIndex, matchMaxlen);
            pos := start - 1;
            break;
          }
        }
      } else {
        CannotBeat(b, pos, end, max, if buf[pos] != buf[end] then 0 else matchMaxlen);
      }
      pos := pos - 1;
    }
    BestAtEnd(b, start, end, max, pos + 1, matchIndex, matchMaxlen);
    if matchMaxlen >= BREAK_EVEN_POINT {
      return end - matchIndex, matchMaxlen;
    }
    return MATCH_NOT_FOUND, 0;
  }

  /** With 2^15 bytes of backlog the index loses matches: over a buffer of zeros the search
      finds nothing for a needle whose neighbour matches it in full. */
  method MissedMatch() returns (dist: nat, linear: nat, len: nat)
    ensures dist == MATCH_NOT_FOUND && linear == 1 && len == 16
  {
    hide MatchLength; hide IsIndex; hide IsLinked; hide LastSeen; hide IsBestMatch; hide IsRawIndex;
    var buf, index := new byte[65536](_ => 0), new int[65536](_ => 0);
    DoIndexing(buf, index, 0x8000, 100);
    var start, end, max := 1, 0x8002, 16;
    RawIsLinked(buf[..], index[..], 0x8000 + 100);
    FewerLinked(buf[..], index[..], 0x8000 + 100, end + 1);
    NeighbourBeyond(buf[..], index[..], 0x8000 + 100, end);
    var n;
    dist, n := FindLongestMatch(buf, index, start, end, max);
    linear, len := FindLongestMatchLinear(buf, start, end, max);
    ZerosMatch(buf[..], end - 1, end, max);
    NearestFull(buf[..], start, end, max, linear, len);
  }

  lemma FewerLinked(buf: seq<byte>, index: seq<int>, end: nat, fewer: nat)
    requires IsLinked(buf, index, end) && fewer <= end
    ensures IsLinked(buf, index, fewer)
  {
  }

  lemma NeighbourBeyond(buf: seq<byte>, index: seq<int>, end: nat, i: nat)
    requires IsRawIndex(buf, index, end) && 0x8000 < i < end && buf[i - 1] == buf[i]
    ensures index[i] < 0
  {
    assert LastSeen(buf, i, buf[i]) == i - 1;
  }

  lemma {:induction false} ZerosMatch(buf: seq<byte>, a: nat, b: nat, max: nat)
    requires a <= b && b + max <= |buf| && forall i | 0 <= i < |buf| :: buf[i] == 0
    ensures MatchLength(buf, a, b, max) == max
    decreases max
  {
    if max > 0 {
      ZerosMatch(buf, a + 1, b + 1, max - 1);
    }
  }

  /** A full match one back is the best there is. */
  lemma NearestFull(buf: seq<byte>, start: nat, end: nat, max: nat, dist: nat, len: nat)
    requires start < end && end + max <= |buf| && max >= BREAK_EVEN_POINT
    requires MatchLength(buf, end - 1, end, max) == max && IsBestMatch(buf, start, end, max, dist, len)
    ensures dist == 1 && len == max
  {
    assert MatchLength(buf, end - 1, end, max) == max;
  }
}
