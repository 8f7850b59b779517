/** The heatshrink encoder: a state machine that fills a window, searches it for
    matches, packs tokens into bits, and shifts the window in place. */
module HeatshrinkEncoder {
  import opened Bits
  import opened Lzss
  import opened OutputBuffer
  import opened HeatshrinkSearch

  datatype State =
    | NotFull
    | Filled
    | Search
    | YieldTagBit
    | YieldLiteral
    | YieldBrIndex
    | YieldBrLength
    | SaveBacklog
    | FlushBits
    | Done

  datatype SinkResult = SinkOk | SinkErrorMisuse
  datatype PollResult = PollEmpty | PollMore | PollErrorMisuse
  datatype FinishResult = FinishDone | FinishMore

  const LITERAL_MARKER: byte := 1
  const BACKREF_MARKER: byte := 0

  /** Setting the single bit m of x: x | m. */
  function SetBit(x: nat, m: nat): nat
    requires m > 0
  {
    if (x / m) % 2 == 1 then x else x + m
  }

  function Zeros(n: nat): (s: seq<bool>)
    ensures |s| == n
  {
    seq(n, _ => false)
  }

  /** One bit into the current byte: the top 8 - free bits are the ones in use. */
  lemma PartialStep(cur: byte, free: nat, bit: bool)
    requires 1 <= free <= 8 && cur % Pow2(free) == 0
    ensures var cur' := if bit then SetBit(cur, Pow2(free - 1)) else cur;
            && cur' < 256
            && cur' % Pow2(free - 1) == 0
            && FromNat(cur' / Pow2(free - 1), 9 - free) == FromNat(cur / Pow2(free), 8 - free) + [bit]
  {
    var m, q := Pow2(free - 1), cur / Pow2(free);
    Pow2Values();
    Pow2Add(8 - free, free);
    MultipleBelow(cur, q, m, Pow2(8 - free));
    var q' := 2 * q + (if bit then 1 else 0);
    assert q' / 2 == q && (q' % 2 == 1) == bit;
  }

  /** A multiple q of 2m below k times 2m leaves room for another m. */
  lemma MultipleBelow(x: nat, q: nat, m: nat, k: nat)
    requires m > 0 && x % (2 * m) == 0 && q == x / (2 * m) && x < k * (2 * m)
    ensures x / m == 2 * q && x % m == 0
    ensures (x + m) / m == 2 * q + 1 && (x + m) % m == 0
    ensures x + m < k * (2 * m)
  {
    DivExact(x, 2 * m);
    TwiceMultiple(x, q, m);
    MultiplesApart(2 * m, q, k);
  }

  lemma DivExact(x: nat, d: nat)
    requires d > 0 && x % d == 0
    ensures x == d * (x / d)
  {
  }

  lemma TwiceMultiple(x: nat, q: nat, m: nat)
    requires m > 0 && x == (2 * m) * q
    ensures x / m == 2 * q && x % m == 0
    ensures (x + m) / m == 2 * q + 1 && (x + m) % m == 0
  {
    Associative(2, m, q);
    Associative(m, 2, q);
    DivUnique(x, m, 2 * q, 0);
    assert m * (2 * q + 1) == m * (2 * q) + m;
    DivUnique(x + m, m, 2 * q + 1, 0);
  }

  lemma MultiplesApart(d: nat, q: nat, k: nat)
    requires d > 0 && d * q < d * k
    ensures d * q + d <= d * k
  {
    DifferenceOfMultiples(d, k, q);
    if k > q {
      MultipleAtLeast(d, k - q);
    } else {
      MultipleNonNegative(d, q - k);
    }
  }

  lemma {:induction false} ZeroBits(n: nat)
    ensures FromNat(0, n) == Zeros(n)
  {
    if n > 0 {
      ZeroBits(n - 1);
      assert Zeros(n) == Zeros(n - 1) + [false];
    }
  }

  /** Flushing pads the bits in use with zeros. */
  lemma FlushedByte(cur: byte, free: nat)
    requires 1 <= free <= 8 && cur % Pow2(free) == 0
    ensures FromNat(cur, 8) == FromNat(cur / Pow2(free), 8 - free) + Zeros(free)
  {
    hide FromNat; hide Pow2;
    FromNatSplit(cur, 8 - free, free);
    var q := cur / Pow2(free);
    assert cur == q * Pow2(free) + 0;
    LowByteOnly(cur, 0, free, q);
    ZeroBits(free);
  }

  /** The eight high bits of an outgoing field, and the field without them. */
  lemma TopByte(x: nat, n: nat)
    requires n > 8
    ensures FromNat(x, n) == FromNat((x / Pow2(n - 8)) % 256, 8) + FromNat(x, n - 8)
  {
    FromNatSplit(x, 8, n - 8);
    LowBits(x / Pow2(n - 8), 8);
  }

  /** Truncation to a byte keeps the low bits. */
  lemma LowBits(x: nat, n: nat)
    requires n <= 8
    ensures FromNat(x % 256, n) == FromNat(x, n)
  {
    Pow2Values();
    Pow2Add(n, 8 - n);
    var q := x / 256;
    assert x == q * 256 + x % 256;
    assert q * 256 == (q * Pow2(8 - n)) * Pow2(n);
    LowByteOnly(x, x % 256, n, q * Pow2(8 - n));
  }

  class Encoder {
    const p: Params
    /** A backlog of Pow2(p.w) bytes, then as many bytes of input. */
    const buffer: array<byte>
    const index: array<int>

    var inputSize: nat
    var matchScanIndex: nat
    var matchLength: nat
    var matchPos: nat
    var outgoingBits: nat
    var outgoingBitsCount: nat
    var isFinishing: bool
    var hasLiteral: bool
    var backlogIsPartial: bool
    var backlogIsFilled: bool
    var state: State
    var currentByte: byte
    var bitIndex: nat

    /** All bytes accepted, how many of them have left the input half, and all bytes output. */
    ghost var sunk: seq<byte>
    ghost var base: nat
    ghost var produced: seq<byte>
    /** The tokens chosen so far, all bits pushed so far, unused bits of the current byte. */
    ghost var tokens: seq<Token>
    ghost var emitted: seq<bool>
    /** The bits of the last token that were not pushed yet. */
    ghost var pending: seq<bool>
    ghost var free: nat

    ghost predicate Shape() {
      && p.Valid() && p.w <= 14
      && buffer.Length == 2 * Pow2(p.w) && index.Length == 2 * Pow2(p.w)
      && (buffer as object) != (index as object)
    }

    /** The buffer holds the stream from Pow2(p.w) bytes before the input half on. */
    ghost predicate BufferOk()
      requires Shape()
      reads `inputSize, `matchScanIndex, `sunk, `base, buffer
    {
      matchScanIndex <= inputSize <= Pow2(p.w) && Mirrors()
    }

    ghost predicate Mirrors()
      requires Shape() && inputSize <= Pow2(p.w)
      reads `inputSize, `sunk, `base, buffer
    {
      && base + inputSize == |sunk|
      && forall j | 0 <= j < Pow2(p.w) + inputSize :: buffer[j] == At(sunk, base - Pow2(p.w) + j)
    }

    /** The next byte to encode, in the buffer and in the stream. */
    lemma NextByte()
      requires Shape() && BufferOk() && matchScanIndex < inputSize
      ensures base + matchScanIndex < |sunk|
      ensures buffer[Pow2(p.w) + matchScanIndex] == sunk[base + matchScanIndex]
    {
    }

    /** The backlog flags tell how much of the backlog is real data. */
    ghost predicate FlagsOk()
      requires Shape()
      reads `backlogIsPartial, `backlogIsFilled, `isFinishing, `base
    {
      && (p.l == p.w && !isFinishing ==> base == 0)
      && (backlogIsFilled ==> backlogIsPartial && base >= 2 * (Pow2(p.w) - Pow2(p.l)))
      && (backlogIsPartial ==> base >= Pow2(p.w) - Pow2(p.l))
      && (!backlogIsPartial ==> base == 0)
      && (!backlogIsFilled ==> base <= Pow2(p.w))
    }

    /** The bits pushed so far are the bytes output and the used part of the current byte. */
    ghost predicate PackerOk()
      reads `currentByte, `bitIndex, `free, `produced, `emitted
    {
      && 1 <= free <= 8 && bitIndex == Pow2(free - 1)
      && currentByte % Pow2(free) == 0
      && emitted == OfBytes(produced) + FromNat(currentByte / Pow2(free), 8 - free)
    }

    /** How many bytes of the stream the tokens stand for. */
    ghost function Covered(st: State): nat
      reads `base, `matchScanIndex, `matchLength
    {
      base + matchScanIndex + (if Streaming(st) then matchLength else 0)
    }

    /** No token is on its way out. */
    ghost predicate Quiet()
      reads `matchLength, `hasLiteral, `pending
    {
      matchLength == 0 && !hasLiteral && pending == []
    }

    ghost predicate InBackref()
      requires Shape()
      reads `inputSize, `matchScanIndex, `matchLength, `hasLiteral
    {
      !hasLiteral && 1 <= matchLength <= Pow2(p.l) && matchScanIndex + matchLength <= inputSize
    }

    ghost predicate InLiteral()
      requires Shape()
      reads `matchScanIndex, `matchLength, `hasLiteral
    {
      matchLength == 0 && hasLiteral && 0 < matchScanIndex <= Pow2(p.w)
    }

    /** What each state promises, and which bits it still has to push. */
    ghost predicate FieldsOk(st: State)
      requires Shape()
      reads `inputSize, `matchScanIndex, `matchLength, `matchPos, `outgoingBits, `outgoingBitsCount
      reads `isFinishing, `hasLiteral, `pending, buffer
    {
      && (st != NotFull ==> isFinishing || inputSize == Pow2(p.w))
      && (p.l == p.w && !isFinishing ==> matchScanIndex == 0 && st in {NotFull, Filled, Search, SaveBacklog})
      && match st
         case NotFull =>
           Quiet() && matchScanIndex == 0 && !isFinishing && (p.l < p.w ==> inputSize < Pow2(p.w))
         case Filled => Quiet() && matchScanIndex == 0
         case Search => Quiet()
         case YieldTagBit =>
           if matchLength == 0 then
             InLiteral() && pending == [true] + FromNat(buffer[Pow2(p.w) + matchScanIndex - 1], 8)
           else
             && InBackref() && 1 <= matchPos < Pow2(p.w)
             && pending == [false] + FromNat(matchPos - 1, p.w) + FromNat(matchLength - 1, p.l)
         case YieldLiteral =>
           InLiteral() && pending == FromNat(buffer[Pow2(p.w) + matchScanIndex - 1], 8)
         case YieldBrIndex =>
           && InBackref() && outgoingBits < 65536
           && pending == FromNat(outgoingBits, outgoingBitsCount) + FromNat(matchLength - 1, p.l)
         case YieldBrLength =>
           InBackref() && outgoingBits < 65536 && pending == FromNat(outgoingBits, outgoingBitsCount)
         case SaveBacklog =>
           Quiet() && if isFinishing then matchScanIndex == inputSize else matchScanIndex + Pow2(p.l) >= Pow2(p.w)
         case FlushBits | Done => Quiet() && isFinishing && matchScanIndex == inputSize
    }

    ghost predicate IndexOk()
      reads `inputSize, buffer, index
    {
      IsIndex(buffer[..], index[..], Pow2(p.w) + inputSize)
    }

    /** The states in which the index is in use. */
    ghost predicate Searching(st: State) {
      st == Search || st == YieldTagBit || st == YieldLiteral || st == YieldBrIndex || st == YieldBrLength
    }

    ghost predicate Streaming(st: State) {
      st == YieldTagBit || st == YieldBrIndex || st == YieldBrLength
    }

    /** The tokens expand to the part of the stream they cover, and every bit pushed
        belongs to them. */
    ghost predicate TokensOk(st: State)
      requires Shape()
      reads `base, `matchScanIndex, `matchLength, `isFinishing, `sunk, `tokens, `emitted, `pending
    {
      && Parsed(p, tokens, sunk, Covered(st), isFinishing)
      && emitted + pending == TokensBits(p, tokens)
    }

    /** At the end the output is the tokens' bits, padded with zeros to a whole byte. */
    ghost predicate Packed()
      reads `produced, `tokens
    {
      exists k: nat | k < 8 :: OfBytes(produced) == TokensBits(p, tokens) + Zeros(k)
    }

    ghost predicate Ready(st: State)
      reads `inputSize, `matchScanIndex, `matchLength, `matchPos, `outgoingBits, `outgoingBitsCount
      reads `isFinishing, `hasLiteral, `backlogIsPartial, `backlogIsFilled, `currentByte, `bitIndex
      reads `sunk, `base, `produced, `tokens, `emitted, `pending, `free, buffer, index
    {
      && Shape() && BufferOk() && FlagsOk() && FieldsOk(st) && (Searching(st) ==> IndexOk()) && TokensOk(st)
      && (if st == Done then Packed() else PackerOk())
    }

    /** An encoder between calls. */
    ghost predicate Valid()
      reads this, buffer, index
    {
      Ready(state) && state != Search && state != SaveBacklog
    }

    constructor (windowSz2: nat, lookaheadSz2: nat)
      requires Params(windowSz2, lookaheadSz2).Valid() && windowSz2 <= 14
      ensures Valid() && fresh(buffer) && fresh(index)
      ensures p == Params(windowSz2, lookaheadSz2) && state == NotFull && !isFinishing && sunk == [] && produced == []
    {
      hide Parsed; hide TokensBits;
      NothingParsed(Params(windowSz2, lookaheadSz2));
      p := Params(windowSz2, lookaheadSz2);
      buffer := new byte[2 * Pow2(windowSz2)](_ => 0);
      index := new int[2 * Pow2(windowSz2)](_ => 0);
      inputSize := 0;
      state := NotFull;
      matchScanIndex, matchPos := 0, 0;
      isFinishing, hasLiteral, backlogIsPartial, backlogIsFilled := false, false, false, false;
      bitIndex := 0x80;
      currentByte := 0x00;
      matchLength := 0;
      outgoingBits, outgoingBitsCount := 0, 0;
      sunk, base, produced, tokens, emitted, pending, free := [], 0, [], [], [], [], 8;
      Pow2Values();
    }

    // -------------------------------------------------------------------------
    // Bits

    /** Push one bit, and the byte it completes. */
    method PushBit(bit: bool, out: array<byte>, n: nat) returns (n': nat)
      requires PackerOk() && n <= out.Length && (free == 1 ==> n < out.Length)
      modifies `currentByte, `bitIndex, `free, `produced, `emitted, out
      ensures PackerOk() && emitted == old(emitted) + [bit]
      ensures if old(free) == 1 then n' == n + 1 && free == 8 else n' == n && free == old(free) - 1
      ensures Wrote(out[..], old(out[..]), n, n', old(produced), produced)
    {
      Pow2Values();
      hide Pow2; hide FromNat; hide OfBytes; hide SetBit;
      PartialStep(currentByte, free, bit);
      HalfMask(free);
      Reassociate(OfBytes(produced), FromNat(currentByte / Pow2(free), 8 - free), [bit]);
      n' := n;
      if bit {
        currentByte := SetBit(currentByte, bitIndex);
      }
      bitIndex := bitIndex / 2;
      free := free - 1;
      emitted := emitted + [bit];
      if bitIndex == 0x00 {
        bitIndex := 0x80;
        OfBytesSnoc(produced, currentByte);
        out[n] := currentByte;
        n' := n + 1;
        produced := produced + [currentByte];
        free := 8;
        currentByte := 0x00;
        NoBitsUsed(emitted);
      }
    }

    /** Push the low count bits of `bits`. The output has room for the one byte this
        can complete. */
    method PushBits(count: nat, bits: byte, out: array<byte>, n: nat) returns (n': nat)
      requires PackerOk() && n < out.Length && count <= 8
      modifies `currentByte, `bitIndex, `free, `produced, `emitted, out
      ensures PackerOk() && emitted == old(emitted) + FromNat(bits, count)
      ensures n <= n' <= n + 1
      ensures Wrote(out[..], old(out[..]), n, n', old(produced), produced)
    {
      n' := n;
      Pow2Values();
      hide Pow2; hide FromNat; hide OfBytes;
      if count == 8 && bitIndex == 0x80 {
        // An aligned byte needs no bit loop.
        FullMask(free);
        OfBytesSnoc(produced, bits);
        NoBitsUsed(OfBytes(produced));
        NoBitsUsed(OfBytes(produced) + FromNat(bits, 8));
        assert currentByte == 0;
        out[n] := bits;
        n' := n + 1;
        produced := produced + [bits];
        emitted := emitted + FromNat(bits, 8);
      } else {
        var i := count;
        NoneLeft(bits, emitted);
        while i > 0
          invariant 0 <= i <= count && PackerOk()
          invariant emitted + FromNat(bits, i) == old(emitted) + FromNat(bits, count)
          invariant if count - i < old(free) then n' == n && free == old(free) - (count - i)
                    else n' == n + 1 && free == old(free) + 8 - (count - i)
          invariant Wrote(out[..], old(out[..]), n, n', old(produced), produced)
        {
          ghost var o, p1, m, e := out[..], produced, n', emitted;
          i := i - 1;
          FromNatHead(bits, i + 1);
          var bit := (bits / Pow2(i)) % 2 == 1;
          Reassociate(e, [bit], FromNat(bits, i));
          n' := PushBit(bit, out, n');
          WroteStep(out[..], o, old(out[..]), n, m, n', old(produced), p1, produced);
        }
        NoneLeft(bits, emitted);
      }
    }

    /** Push up to eight of the outgoing bits; tell how many. */
    method PushOutgoingBits(out: array<byte>, n: nat, ghost rest: seq<bool>) returns (count: nat, n': nat)
      requires PackerOk() && n < out.Length && outgoingBits < 65536
      requires pending == FromNat(outgoingBits, outgoingBitsCount) + rest
      modifies `outgoingBitsCount, `currentByte, `bitIndex, `free, `produced, `emitted, `pending, out
      ensures PackerOk() && n <= n' <= n + 1
      ensures count == Min(old(outgoingBitsCount), 8) && outgoingBitsCount == old(outgoingBitsCount) - count
      ensures pending == FromNat(outgoingBits, outgoingBitsCount) + rest
      ensures emitted + pending == old(emitted + pending)
      ensures Wrote(out[..], old(out[..]), n, n', old(produced), produced)
    {
      hide FromNat; hide OfBytes; hide Pow2; hide Wrote; hide PackerOk;
      ghost var all := FromNat(outgoingBits, outgoingBitsCount);
      n' := n;
      var bits: byte;
      if outgoingBitsCount > 8 {
        count := 8;
        TopByte(outgoingBits, outgoingBitsCount);
        bits := (outgoingBits / Pow2(outgoingBitsCount - 8)) % 256;
      } else {
        count := outgoingBitsCount;
        LowBits(outgoingBits, count);
        bits := outgoingBits % 256;
        NoneLeft(outgoingBits, all);
      }
      ghost var left := FromNat(outgoingBits, outgoingBitsCount - count);
      assert all == FromNat(bits, count) + left;
      Reassociate(FromNat(bits, count), left, rest);
      Reassociate(emitted, FromNat(bits, count), left + rest);
      pending := left + rest;
      if count > 0 {
        n' := PushBits(count, bits, out, n);
        outgoingBitsCount := outgoingBitsCount - count;
      } else {
        NoneLeftInFront(bits, left + rest);
        WroteNone(out[..], n, produced);
      }
    }

    /** Push the tag bit of the token on its way out. */
    method PushTag(out: array<byte>, n: nat) returns (n': nat)
      requires Ready(YieldTagBit) && n < out.Length && out != buffer && (out as object) != (index as object)
      modifies `currentByte, `bitIndex, `free, `produced, `emitted, `pending, out
      ensures PackerOk() && n <= n' <= n + 1 && |pending| < |old(pending)|
      ensures emitted + pending == old(emitted + pending)
      ensures pending == if matchLength == 0 then FromNat(buffer[Pow2(p.w) + matchScanIndex - 1], 8)
                         else FromNat(matchPos - 1, p.w) + FromNat(matchLength - 1, p.l)
      ensures Wrote(out[..], old(out[..]), n, n', old(produced), produced)
    {
      hide FromNat; hide OfBytes; hide Pow2; hide Wrote; hide PackerOk; hide BufferOk; hide FlagsOk; hide IndexOk;
      hide TokensOk;
      OneBitNumber();
      var tag := if matchLength == 0 then LITERAL_MARKER else BACKREF_MARKER;
      ghost var field := if matchLength == 0 then FromNat(buffer[Pow2(p.w) + matchScanIndex - 1], 8)
                         else FromNat(matchPos - 1, p.w) + FromNat(matchLength - 1, p.l);
      Reassociate(FromNat(tag, 1), FromNat(Pred(matchPos), p.w), FromNat(Pred(matchLength), p.l));
      assert pending == FromNat(tag, 1) + field;
      Reassociate(emitted, FromNat(tag, 1), field);
      n' := PushBits(1, tag, out, n);
      pending := field;
    }

    // -------------------------------------------------------------------------
    // State steps

    /** Look for a match at the scan position, or leave when the input is used up. */
    method StStepSearch() returns (st: State)
      requires Ready(Search)
      modifies `matchScanIndex, `matchLength, `matchPos, `hasLiteral, `tokens, `pending
      ensures Ready(st)
      ensures st in {SaveBacklog, YieldTagBit}
      ensures Covered(st) <= |sunk|
      ensures if st == SaveBacklog then Covered(st) == old(Covered(Search)) && pending == old(pending)
              else Covered(st) > old(Covered(Search))
    {
      hide Expand; hide TokensBits; hide FromNat; hide OfBytes; hide Pow2; hide Parsed;
      hide IsIndex; hide PackerOk; hide Answered; hide FlagsOk;
      CoveredInStream(Search);
      var lookaheadSz := Pow2(p.l);
      if matchScanIndex >= inputSize - (if isFinishing then 0 else lookaheadSz) {
        return SaveBacklog;
      }
      var dist, len;
      ghost var start, max;
      dist, len, start, max := SearchHere();
      if dist == MATCH_NOT_FOUND {
        TakeLiteral(start, max, len);
      } else {
        TakeMatch(start, max, dist, len);
      }
      return YieldTagBit;
    }

    /** The search at the scan position, over as much lookahead as there is. */
    method SearchHere() returns (dist: nat, len: nat, ghost start: nat, ghost max: nat)
      requires Shape() && BufferOk() && FlagsOk() && IndexOk()
      requires matchScanIndex < inputSize && (isFinishing || matchScanIndex + Pow2(p.l) < inputSize)
      ensures Answered(p, sunk, buffer[..], base, matchScanIndex, start, max, dist, len, isFinishing)
      ensures dist != MATCH_NOT_FOUND ==> dist < Pow2(p.w)
    {
      hide Pow2; hide At; hide IsIndex; hide IsBestMatch; hide IsLinked; hide MatchLength;
      hide Answered; hide Mirrors; hide CoversHistory; hide FlagsOk; hide Min;
      var end := Pow2(p.w) + matchScanIndex;
      var first := SearchStart();
      var maxPossible := Lookahead();
      IndexPrefix(buffer[..], index[..], end + 1, Pow2(p.w) + inputSize);
      IndexIsLinked(buffer[..], index[..], end + 1);
      dist, len := FindLongestMatch(buffer, index, first, end, maxPossible);
      if dist != MATCH_NOT_FOUND {
        BestMatchReach(buffer[..], first, end, maxPossible, dist, len);
      }
      start, max := first, maxPossible;
      AnswersHere(start, max, dist, len);
    }

    /** How far a match may reach. */
    method Lookahead() returns (max: nat)
      requires Shape() && matchScanIndex < inputSize <= Pow2(p.w)
      ensures 1 <= max == Min(Pow2(p.l), inputSize - matchScanIndex)
      ensures Pow2(p.w) + matchScanIndex + max <= buffer.Length && Pow2(p.w) + matchScanIndex < index.Length
    {
      hide Pow2;
      var lookaheadSz := Pow2(p.l);
      max := lookaheadSz;
      if inputSize - matchScanIndex < lookaheadSz {
        max := inputSize - matchScanIndex;
      }
    }

    /** The best match in the buffer answers for the stream. */
    lemma AnswersHere(start: nat, max: nat, dist: nat, len: nat)
      requires Shape() && BufferOk() && matchScanIndex < inputSize
      requires isFinishing || matchScanIndex + Pow2(p.l) < inputSize
      requires max == Min(Pow2(p.l), inputSize - matchScanIndex) && start <= Pow2(p.w) + matchScanIndex
      requires IsBestMatch(buffer[..], start, Pow2(p.w) + matchScanIndex, max, dist, len)
      requires p.l < p.w ==> CoversHistory(p, Pow2(p.w) + matchScanIndex - start, base + matchScanIndex)
      ensures Answered(p, sunk, buffer[..], base, matchScanIndex, start, max, dist, len, isFinishing)
    {
      hide Pow2; hide At; hide IsBestMatch; hide MatchLength; hide CoversHistory;
    }

    /** Where the search window starts: no more than a window back, and in real data. */
    method SearchStart() returns (start: nat)
      requires Shape() && BufferOk() && FlagsOk() && matchScanIndex < inputSize
      ensures start <= Pow2(p.w) + matchScanIndex < start + Pow2(p.w)
      ensures p.l < p.w ==> CoversHistory(p, Pow2(p.w) + matchScanIndex - start, base + matchScanIndex)
      ensures Pow2(p.w) < MATCH_NOT_FOUND
    {
      Pow2Monotone(p.l, p.w);
      Pow2Monotone(p.w, 14);
      Pow2Fourteen();
      hide Pow2;
      var windowLength := Pow2(p.w);
      var lookaheadSz := Pow2(p.l);
      var end := windowLength + matchScanIndex;
      if backlogIsFilled { // a whole window behind the needle
        start := end - windowLength + 1;
      } else if backlogIsPartial { // not before the oldest real byte
        start := end - windowLength + 1;
        if start < lookaheadSz {
          start := lookaheadSz;
        }
      } else { // no backlog yet
        start := windowLength;
      }
    }

    method TakeLiteral(ghost start: nat, ghost max: nat, ghost len: nat)
      requires Ready(Search) && matchScanIndex < inputSize
      requires Answered(p, sunk, buffer[..], base, matchScanIndex, start, max, MATCH_NOT_FOUND, len, isFinishing)
      requires isFinishing || p.l < p.w
      modifies `matchScanIndex, `matchLength, `hasLiteral, `tokens, `pending
      ensures Ready(YieldTagBit) && Covered(YieldTagBit) == old(Covered(Search)) + 1
    {
      hide Expand; hide TokensBits; hide FromNat; hide OfBytes; hide Pow2; hide Parsed;
      hide IndexOk; hide PackerOk; hide Answered; hide At; hide FlagsOk; hide Mirrors;
      NextByte();
      ghost var c := sunk[base + matchScanIndex];
      LiteralChosen(p, tokens, sunk, buffer[..], base, matchScanIndex, start, max, len, isFinishing);
      assert emitted + [] == emitted;
      Choose(Literal(c));
      matchScanIndex := matchScanIndex + 1;
      hasLiteral := true;
      matchLength := 0;
    }

    /** A token is chosen, and all its bits are to be pushed. */
    ghost method Choose(t: Token)
      modifies `tokens, `pending
      ensures tokens == old(tokens) + [t] && pending == TokenBits(p, t)
    {
      tokens := tokens + [t];
      pending := TokenBits(p, t);
    }

    method TakeMatch(ghost start: nat, ghost max: nat, dist: nat, len: nat)
      requires Ready(Search) && matchScanIndex < inputSize
      requires Answered(p, sunk, buffer[..], base, matchScanIndex, start, max, dist, len, isFinishing)
      requires dist < Pow2(p.w) && dist != MATCH_NOT_FOUND && (isFinishing || p.l < p.w)
      modifies `matchLength, `matchPos, `tokens, `pending
      ensures Ready(YieldTagBit) && Covered(YieldTagBit) > old(Covered(Search))
    {
      hide Expand; hide TokensBits; hide FromNat; hide OfBytes; hide Pow2; hide Parsed;
      hide IndexOk; hide PackerOk; hide Answered; hide At; hide FlagsOk;
      NextByte();
      MatchChosen(p, tokens, sunk, buffer[..], base, matchScanIndex, start, max, dist, len, isFinishing);
      assert emitted + [] == emitted;
      Choose(Backref(dist, len));
      matchPos := dist;
      matchLength := len;
    }

    /** A tag bit, and the fields of a back-reference. */
    method StYieldTagBit(out: array<byte>, n: nat) returns (st: State, n': nat)
      requires Ready(YieldTagBit) && n <= out.Length && out != buffer && (out as object) != (index as object)
      modifies `outgoingBits, `outgoingBitsCount, `currentByte, `bitIndex, `free, `produced, `emitted, `pending, out
      ensures Ready(st) && n <= n' <= out.Length && Covered(st) == old(Covered(YieldTagBit))
      ensures Wrote(out[..], old(out[..]), n, n', old(produced), produced)
      ensures if n == out.Length then st == YieldTagBit && n' == n && |pending| == |old(pending)|
              else st in {YieldLiteral, YieldBrIndex} && |pending| < |old(pending)|
    {
      hide Expand; hide TokensBits; hide FromNat; hide OfBytes; hide Pow2; hide Parsed;
      hide IndexOk; hide PackerOk; hide Wrote; hide FlagsOk; hide BufferOk;
      if n < out.Length {
        n' := PushTag(out, n);
        if matchLength == 0 {
          return YieldLiteral, n';
        } else {
          FieldFits(p.w);
          SetOutgoing(matchPos - 1, p.w);
          return YieldBrIndex, n';
        }
      } else {
        WroteNone(out[..], n, produced);
        return YieldTagBit, n; // no room
      }
    }

    /** The next field to push. */
    method SetOutgoing(bits: nat, count: nat)
      modifies `outgoingBits, `outgoingBitsCount
      ensures outgoingBits == bits && outgoingBitsCount == count
    {
      outgoingBits := bits;
      outgoingBitsCount := count;
    }

    /** The byte of a literal, the last one scanned. */
    method StYieldLiteral(out: array<byte>, n: nat) returns (st: State, n': nat)
      requires Ready(YieldLiteral) && n <= out.Length && out != buffer && (out as object) != (index as object)
      modifies `hasLiteral, `currentByte, `bitIndex, `free, `produced, `emitted, `pending, out
      ensures Ready(st) && n <= n' <= out.Length && Covered(st) == old(Covered(YieldLiteral))
      ensures Wrote(out[..], old(out[..]), n, n', old(produced), produced)
      ensures if n == out.Length then st == YieldLiteral && n' == n && |pending| == |old(pending)|
              else st == Search && |pending| < |old(pending)|
    {
      hide Expand; hide TokensBits; hide FromNat; hide OfBytes; hide Pow2; hide Parsed;
      hide IndexOk; hide PackerOk; hide Wrote; hide FlagsOk; hide BufferOk;
      if n < out.Length {
        n' := PushBits(8, buffer[Pow2(p.w) + matchScanIndex - 1], out, n);
        hasLiteral := false;
        pending := [];
        assert emitted + [] == emitted;
        return Search, n'; // a literal leaves no match behind
      } else {
        WroteNone(out[..], n, produced);
        return YieldLiteral, n;
      }
    }

    method StYieldBrIndex(out: array<byte>, n: nat) returns (st: State, n': nat)
      requires Ready(YieldBrIndex) && n <= out.Length && out != buffer && (out as object) != (index as object)
      modifies `outgoingBits, `outgoingBitsCount, `currentByte, `bitIndex, `free, `produced, `emitted, `pending, out
      ensures Ready(st) && n <= n' <= out.Length && Covered(st) == old(Covered(YieldBrIndex))
      ensures Wrote(out[..], old(out[..]), n, n', old(produced), produced)
      ensures |pending| <= |old(pending)|
      ensures if n == out.Length then st == YieldBrIndex && n' == n
              else st == YieldBrLength || (st == YieldBrIndex && |pending| < |old(pending)|)
    {
      hide Expand; hide TokensBits; hide FromNat; hide OfBytes; hide Pow2; hide Parsed;
      hide IndexOk; hide PackerOk; hide Wrote; hide FlagsOk; hide BufferOk;
      hide Quiet; hide InLiteral;
      if n < out.Length {
        ghost var len := FromNat(matchLength - 1, p.l);
        var count;
        count, n' := PushOutgoingBits(out, n, len);
        if count > 0 {
          return YieldBrIndex, n'; // the rest of the index
        } else {
          NoneLeftInFront(outgoingBits, len);
          FieldFits(p.l);
          SetOutgoing(matchLength - 1, p.l);
          return YieldBrLength, n'; // the index is out
        }
      } else {
        WroteNone(out[..], n, produced);
        return YieldBrIndex, n;
      }
    }

    /** The scan goes on behind the match. */
    method SkipMatch()
      modifies `matchScanIndex, `matchLength
      ensures matchScanIndex == old(matchScanIndex) + old(matchLength) && matchLength == 0
    {
      matchScanIndex := matchScanIndex + matchLength;
      matchLength := 0;
    }

    method StYieldBrLength(out: array<byte>, n: nat) returns (st: State, n': nat)
      requires Ready(YieldBrLength) && n <= out.Length && out != buffer && (out as object) != (index as object)
      modifies `outgoingBitsCount, `matchScanIndex, `matchLength
      modifies `currentByte, `bitIndex, `free, `produced, `emitted, `pending, out
      ensures Ready(st) && n <= n' <= out.Length && Covered(st) == old(Covered(YieldBrLength))
      ensures Wrote(out[..], old(out[..]), n, n', old(produced), produced)
      ensures |pending| <= |old(pending)|
      ensures if n == out.Length then st == YieldBrLength && n' == n
              else st == Search || (st == YieldBrLength && |pending| < |old(pending)|)
    {
      hide Expand; hide TokensBits; hide FromNat; hide OfBytes; hide Pow2; hide Parsed;
      hide IndexOk; hide PackerOk; hide Wrote; hide FlagsOk; hide Mirrors; hide InLiteral;
      if n < out.Length {
        NoRest(FromNat(outgoingBits, outgoingBitsCount));
        var count;
        count, n' := PushOutgoingBits(out, n, []);
        NoRest(FromNat(outgoingBits, outgoingBitsCount));
        if count > 0 {
          return YieldBrLength, n';
        } else {
          NoneLeft(outgoingBits, []);
          SkipMatch();
          return Search, n';
        }
      } else {
        WroteNone(out[..], n, produced);
        return YieldBrLength, n;
      }
    }

    /** Flush when finishing, else make room. HAS_LITERAL is clear here in every run, so
        the source's final-literal path is never taken. */
    method StSaveBacklog() returns (st: State)
      requires Ready(SaveBacklog)
      modifies `inputSize, `matchScanIndex, `backlogIsPartial, `backlogIsFilled, `base, buffer
      ensures Ready(st) && Covered(st) == old(Covered(SaveBacklog))
      ensures st == if isFinishing then FlushBits else NotFull
    {
      hide Expand; hide TokensBits; hide FromNat; hide OfBytes; hide Pow2; hide Parsed;
      hide IndexOk; hide PackerOk; hide Wrote; hide FlagsOk;
      if isFinishing {
        return FlushBits;
      } else {
        SaveBacklogNow();
        return NotFull;
      }
    }

    method SaveBacklogNow()
      requires Ready(SaveBacklog) && !isFinishing
      modifies `inputSize, `matchScanIndex, `backlogIsPartial, `backlogIsFilled, `base, buffer
      ensures Ready(NotFull) && Covered(NotFull) == old(Covered(SaveBacklog))
      ensures inputSize == old(inputSize) - old(matchScanIndex)
    {
      hide Expand; hide TokensBits; hide FromNat; hide OfBytes; hide Pow2; hide Parsed;
      hide IndexOk; hide PackerOk; hide BufferOk;
      Pow2Monotone(p.l, p.w);
      ShiftBuffer();
      if backlogIsPartial {
        backlogIsFilled := true;
      } else {
        backlogIsPartial := true;
      }
    }

    /** Shift the processed bytes to the front of the buffer, in place. */
    method ShiftBuffer()
      requires Shape() && BufferOk() && inputSize == Pow2(p.w)
      modifies `inputSize, `matchScanIndex, `base, buffer
      ensures BufferOk() && matchScanIndex == 0
      ensures base == old(base) + old(matchScanIndex) && inputSize == old(inputSize) - old(matchScanIndex)
    {
      hide Pow2; hide At; hide Holds;
      var inputBufSz := Pow2(p.w);
      var msi := matchScanIndex;
      var rem := inputBufSz - msi; // not encoded yet
      var shiftSz := inputBufSz + rem;
      ghost var was, from := buffer[..], base - inputBufSz;
      BufferHolds();
      MoveDown(buffer, inputBufSz - rem, shiftSz);
      WindowMoves(was, buffer[..], sunk, from, shiftSz, msi);
      matchScanIndex := 0;
      inputSize := inputSize - (inputBufSz - rem);
      base := base + msi;
      HeldByBuffer();
    }

    lemma BufferHolds()
      requires Shape() && inputSize <= Pow2(p.w) && Mirrors()
      ensures base + inputSize == |sunk|
      ensures Holds(buffer[..], sunk, base - Pow2(p.w), Pow2(p.w) + inputSize)
    {
      hide Pow2; hide At;
    }

    lemma HeldByBuffer()
      requires Shape() && inputSize <= Pow2(p.w) && base + inputSize == |sunk|
      requires Holds(buffer[..], sunk, base - Pow2(p.w), Pow2(p.w) + inputSize)
      ensures Mirrors()
    {
      hide Pow2; hide At;
      forall j | 0 <= j < Pow2(p.w) + inputSize
        ensures buffer[j] == At(sunk, base - Pow2(p.w) + j)
      {
        assert buffer[j] == buffer[..][j];
      }
    }

    method StFlushBitBuffer(out: array<byte>, n: nat) returns (st: State, n': nat)
      requires Ready(FlushBits) && n <= out.Length && out != buffer && (out as object) != (index as object)
      modifies `produced, out
      ensures Ready(st) && n <= n' <= out.Length
      ensures Wrote(out[..], old(out[..]), n, n', old(produced), produced)
      ensures st == Done || (st == FlushBits && n' == n == out.Length)
    {
      hide Expand; hide TokensBits; hide FromNat; hide OfBytes; hide Pow2; hide Parsed;
      hide IndexOk; hide BufferOk; hide FlagsOk;
      n' := n;
      assert emitted + [] == emitted;
      if bitIndex == 0x80 {
        FullMask(free);
        NoneLeft(currentByte / Pow2(free), OfBytes(produced));
        assert OfBytes(produced) == TokensBits(p, tokens) + Zeros(0);
        return Done, n;
      } else if n < out.Length {
        FlushedByte(currentByte, free);
        OfBytesSnoc(produced, currentByte);
        Reassociate(OfBytes(produced), FromNat(currentByte / Pow2(free), 8 - free), Zeros(free));
        out[n] := currentByte;
        produced := produced + [currentByte];
        n' := n + 1;
        NotFullMask(free);
        assert OfBytes(produced) == TokensBits(p, tokens) + Zeros(free);
        return Done, n';
      } else {
        return FlushBits, n;
      }
    }

    // -------------------------------------------------------------------------
    // The calls

    /** Accept input, up to the room in the buffer. */
    method Sink(input: array<byte>) returns (res: SinkResult, n: nat)
      requires Valid() && input != buffer && (input as object) != (index as object)
      modifies `inputSize, `state, `sunk, buffer
      ensures Valid()
      ensures res == SinkErrorMisuse <==> old(isFinishing) || old(state) != NotFull
      ensures res == SinkErrorMisuse ==> n == 0 && sunk == old(sunk) && state == old(state)
      ensures res == SinkOk ==> n == Min(Pow2(p.w) - old(inputSize), input.Length) && sunk == old(sunk) + input[..n]
      ensures res == SinkOk ==> state == if inputSize == Pow2(p.w) then Filled else NotFull
    {
      hide Expand; hide TokensBits; hide FromNat; hide OfBytes; hide Pow2; hide Parsed;
      hide IndexOk; hide PackerOk; hide FlagsOk;
      if isFinishing || state != NotFull {
        return SinkErrorMisuse, 0;
      }
      var rem := Pow2(p.w) - inputSize;
      n := if rem < input.Length then rem else input.Length;
      TakeIn(input, n);
      if n == rem {
        state := Filled; // no room is left
      }
      res := SinkOk;
    }

    /** Copies input behind what the buffer holds. */
    method TakeIn(input: array<byte>, n: nat)
      requires Valid() && state == NotFull && input != buffer && (input as object) != (index as object)
      requires n <= input.Length && n <= Pow2(p.w) - inputSize
      modifies `inputSize, `sunk, buffer
      ensures Ready(if inputSize == Pow2(p.w) then Filled else NotFull)
      ensures inputSize == old(inputSize) + n && sunk == old(sunk) + input[..n]
    {
      hide Expand; hide TokensBits; hide FromNat; hide OfBytes; hide Pow2; hide Parsed;
      hide IndexOk; hide PackerOk; hide FlagsOk; hide Mirrors; hide Holds; hide At;
      ghost var was, from, more := buffer[..], base - Pow2(p.w), input[..n];
      BufferHolds();
      MoveIn(buffer, Pow2(p.w) + inputSize, input, n);
      WindowGrows(was, buffer[..], sunk, from, Pow2(p.w) + inputSize, more);
      ParsedGrows(p, tokens, sunk, sunk + more, Covered(NotFull));
      inputSize := inputSize + n;
      sunk := sunk + more;
      HeldByBuffer();
    }

    /** Say that no more input comes. */
    method Finish() returns (res: FinishResult)
      requires Valid()
      modifies `isFinishing, `state
      ensures Valid() && isFinishing && state != NotFull
      ensures state == if old(state) == NotFull then Filled else old(state)
      ensures res == FinishDone <==> state == Done
    {
      hide Ready;
      EndInput();
      if state == NotFull {
        state := Filled;
      }
      res := if state == Done then FinishDone else FinishMore;
    }

    method EndInput()
      requires Valid()
      modifies `isFinishing
      ensures isFinishing && Ready(if state == NotFull then Filled else state)
    {
      hide Expand; hide TokensBits; hide FromNat; hide OfBytes; hide Pow2; hide Parsed;
      hide PackerOk; hide Mirrors; hide Packed; hide IndexOk; hide InBackref; hide InLiteral; hide Quiet;
      ParsedEnds(p, tokens, sunk, Covered(state), isFinishing);
      isFinishing := true;
    }

    /** Encode into out until its end, or until more input or a finish is needed. The
        poll writes out's first n cells and no others. */
    method Poll(out: array<byte>) returns (res: PollResult, n: nat)
      requires Valid() && out != buffer && (out as object) != (index as object)
      modifies `inputSize, `matchScanIndex, `matchLength, `matchPos, `outgoingBits, `outgoingBitsCount, `hasLiteral
      modifies `backlogIsPartial, `backlogIsFilled, `currentByte, `bitIndex, `state, `base, `produced, `tokens
      modifies `emitted, `pending, `free, buffer, index, out
      ensures Valid()
      ensures Wrote(out[..], old(out[..]), 0, n, old(produced), produced)
      ensures res == PollErrorMisuse <==> out.Length == 0
      ensures res == PollMore ==> n == out.Length
      ensures res == PollEmpty ==> state in {NotFull, FlushBits, Done} && (state == FlushBits ==> n == out.Length)
    {
      hide Ready; hide Covered; hide Wrote;
      n := 0;
      WroteNothing(out[..], produced);
      if out.Length == 0 {
        return PollErrorMisuse, 0;
      }
      CoveredInStream(state);
      while true
        invariant Ready(state) && n <= out.Length && Covered(state) <= |sunk|
        invariant Wrote(out[..], old(out[..]), 0, n, old(produced), produced)
        decreases |sunk| - Covered(state), |pending|, Rank(state)
      {
        var inState := state;
        ghost var o, p1, m := out[..], produced, n;
        if inState == NotFull || inState == Done {
          return PollEmpty, n;
        }
        if inState == FlushBits {
          state, n := StFlushBitBuffer(out, n);
          WroteStep(out[..], o, old(out[..]), 0, m, n, old(produced), p1, produced);
          return PollEmpty, n;
        }
        n := Advance(out, n);
        WroteStep(out[..], o, old(out[..]), 0, m, n, old(produced), p1, produced);
        if state == inState {
          if n == out.Length {
            return PollMore, n;
          }
        }
      }
    }

    /** One state step. A state that does not advance pushed bits or is out of room. */
    method Advance(out: array<byte>, n: nat) returns (n': nat)
      requires Ready(state) && state !in {NotFull, FlushBits, Done} && Covered(state) <= |sunk|
      requires n <= out.Length && out != buffer && (out as object) != (index as object)
      modifies `inputSize, `matchScanIndex, `matchLength, `matchPos, `outgoingBits, `outgoingBitsCount, `hasLiteral
      modifies `backlogIsPartial, `backlogIsFilled, `currentByte, `bitIndex, `state, `base, `produced, `tokens
      modifies `emitted, `pending, `free, buffer, index, out
      ensures Ready(state) && n <= n' <= out.Length && Covered(state) <= |sunk|
      ensures Wrote(out[..], old(out[..]), n, n', old(produced), produced)
      ensures old(Covered(state)) <= Covered(state)
      ensures old(Covered(state)) == Covered(state) ==> |pending| <= |old(pending)|
      ensures old(Covered(state)) == Covered(state) && |pending| == |old(pending)| ==>
                Rank(state) < Rank(old(state)) || (state == old(state) && n' == out.Length)
      ensures state == old(state) ==> state in {YieldTagBit, YieldLiteral, YieldBrIndex, YieldBrLength}
    {
      hide Ready; hide Covered; hide Wrote;
      n' := n;
      WroteNone(out[..], n, produced);
      match state {
        case Filled => state := StFilled();
        case Search => state := StStepSearch();
        case YieldTagBit => state, n' := StYieldTagBit(out, n);
        case YieldLiteral => state, n' := StYieldLiteral(out, n);
        case YieldBrIndex => state, n' := StYieldBrIndex(out, n);
        case YieldBrLength => state, n' := StYieldBrLength(out, n);
        case SaveBacklog => state := StSaveBacklog();
      }
    }

    method StFilled() returns (st: State)
      requires Ready(Filled)
      modifies index
      ensures Ready(st) && st == Search && Covered(st) == Covered(Filled)
    {
      hide Pow2; hide Expand; hide TokensBits; hide FromNat; hide OfBytes; hide Parsed;
      hide PackerOk; hide FlagsOk; hide IsIndex;
      Pow2Monotone(p.w, 14);
      Pow2Fourteen();
      DoIndexing(buffer, index, Pow2(p.w), inputSize);
      RawIsIndex(buffer[..], index[..], Pow2(p.w) + inputSize);
      st := Search;
    }

    /** Steps that cover no more input and push no bits happen in this order. */
    ghost function Rank(st: State): nat {
      match st
      case YieldBrIndex => 5
      case YieldBrLength => 4
      case Filled => 4
      case Search => 3
      case SaveBacklog => 2
      case _ => 0
    }

    lemma CoveredInStream(st: State)
      requires Ready(st)
      ensures Covered(st) <= |sunk|
    {
    }

    /** The finished output is the bits of a greedy parse of everything sunk, and a few
        zeros. */
    lemma Recoverable() returns (k: nat)
      requires Valid() && state == Done
      ensures IsEncoding(p, sunk, produced, tokens, k)
    {
      hide TokensBits; hide Expand; hide AllEncodable; hide OfBytes; hide Zeros; hide InReach; hide Greedy;
      k :| k < 8 && OfBytes(produced) == TokensBits(p, tokens) + Zeros(k);
      assert sunk[..|sunk|] == sunk;
    }

    /** With a lookahead as large as the window no scan ever starts before the finish,
        and nothing is saved to the backlog: one window of input is all it accepts. */
    lemma OneWindowOnly()
      requires Valid() && p.l == p.w && !isFinishing
      ensures |sunk| == inputSize <= Pow2(p.w)
    {
    }

    /** With a smaller lookahead an encoder that wants input has room for it. */
    lemma RoomToSink()
      requires Valid() && p.l < p.w && state == NotFull
      ensures inputSize < Pow2(p.w) && !isFinishing
    {
    }

    /** Compression never costs more than one bit a byte. */
    lemma FinalSize()
      requires Valid() && state == Done && p.w + p.l <= 26
      ensures |produced| <= (9 * |sunk| + 7) / 8
    {
      hide TokensBits; hide Expand; hide AllEncodable; hide OfBytes; hide Zeros;
      var k: nat :| k < 8 && OfBytes(produced) == TokensBits(p, tokens) + Zeros(k);
      SizeBound(p, tokens, []);
    }

    /** A bound that holds at any time, for any parameters. */
    lemma SizeSoFar()
      requires Valid()
      ensures 8 * |produced| <= 31 * |sunk| + 7
    {
      hide TokensBits; hide Expand; hide AllEncodable; hide OfBytes; hide Zeros;
      CoarseSizeBound(p, tokens, []);
      if state == Done {
        var k: nat :| k < 8 && OfBytes(produced) == TokensBits(p, tokens) + Zeros(k);
      }
    }
  }

  /** memcpy from another array. */
  method MoveIn(a: array<byte>, at: nat, b: array<byte>, size: nat)
    requires at + size <= a.Length && size <= b.Length && a != b
    modifies a
    ensures a[..at] == old(a[..at]) && a[at..at + size] == b[..size] && a[at + size..] == old(a[at + size..])
  {
    forall k | 0 <= k < size {
      a[at + k] := b[k];
    }
    assert forall k | 0 <= k < size :: a[at + k] == b[k];
  }

  /** memmove to the start of the same array. */
  method MoveDown(a: array<byte>, distance: nat, size: nat)
    requires distance + size <= a.Length
    modifies a
    ensures a[..size] == old(a[distance..distance + size]) && a[size..] == old(a[size..])
  {
    forall k | 0 <= k < size {
      a[k] := a[distance + k];
    }
  }

  /** The first n bytes of buf are those of the stream from `from` on. */
  ghost predicate Holds(buf: seq<byte>, sunk: seq<byte>, from: int, n: nat) {
    n <= |buf| && forall j | 0 <= j < n :: buf[j] == At(sunk, from + j)
  }

  /** More of the stream behind what is there. */
  lemma WindowGrows(was: seq<byte>, now: seq<byte>, sunk: seq<byte>, from: int, n: nat, more: seq<byte>)
    requires Holds(was, sunk, from, n) && from + n == |sunk|
    requires n + |more| <= |now| && now[..n] == was[..n] && now[n..n + |more|] == more
    ensures Holds(now, sunk + more, from, n + |more|)
  {
    forall j | 0 <= j < n + |more|
      ensures now[j] == At(sunk + more, from + j)
    {
      if j < n {
        assert now[j] == now[..n][j] == was[..n][j] == was[j];
      } else {
        assert now[j] == now[n..n + |more|][j - n];
      }
    }
  }

  /** What was at d is at 0 afterwards. */
  lemma WindowMoves(was: seq<byte>, now: seq<byte>, sunk: seq<byte>, from: int, n: nat, d: nat)
    requires Holds(was, sunk, from, d + n) && n <= |now| && now[..n] == was[d..d + n]
    ensures Holds(now, sunk, from + d, n)
  {
    hide At;
    forall j | 0 <= j < n
      ensures now[j] == At(sunk, from + d + j)
    {
      assert now[j] == now[..n][j] == was[d + j];
    }
  }

  lemma NotFullMask(free: nat)
    requires 1 <= free <= 8 && Pow2(free - 1) != 128
    ensures free < 8
  {
    Pow2Values();
  }

  lemma NoRest(s: seq<bool>)
    ensures s + [] == s
  {
  }

  lemma NoneLeftInFront(x: nat, e: seq<bool>)
    ensures FromNat(x, 0) + e == e
  {
  }

  /** The literal marker is one bit, the back-reference marker another. */
  lemma OneBitNumber()
    ensures FromNat(1, 1) == [true] && FromNat(0, 1) == [false]
  {
    assert FromNat(1, 1) == FromNat(0, 0) + [true];
    assert FromNat(0, 1) == FromNat(0, 0) + [false];
  }

  lemma BestMatchReach(buf: seq<byte>, start: nat, end: nat, max: nat, dist: nat, len: nat)
    requires start <= end && end + max <= |buf| && IsBestMatch(buf, start, end, max, dist, len)
    ensures dist != MATCH_NOT_FOUND ==> 1 <= dist <= end - start
  {
  }

  lemma FieldFits(n: nat)
    requires n <= 14
    ensures Pow2(n) <= 16384
  {
    Pow2Monotone(n, 14);
    Pow2Fourteen();
  }

  lemma Pow2Fourteen()
    ensures Pow2(14) == 16384
  {
    Pow2Values();
    Pow2Add(6, 8);
  }

  lemma IndexPrefix(buf: seq<byte>, index: seq<int>, m: nat, n: nat)
    requires IsIndex(buf, index, n) && m <= n
    ensures IsIndex(buf, index, m)
  {
  }

  lemma KeepsReach(p: Params, ts: seq<Token>, t: Token)
    requires InReach(p, ts)
    requires t.Backref? ==>
               && 1 <= t.dist < Pow2(p.w)
               && t.len >= BREAK_EVEN_POINT
               && (p.l < p.w ==> t.dist <= |Expand(ts, [])|)
    ensures InReach(p, ts + [t])
  {
    hide Expand; hide Pow2;
    forall i | 0 <= i < |ts + [t]| && (ts + [t])[i].Backref?
      ensures 1 <= (ts + [t])[i].dist < Pow2(p.w)
      ensures (ts + [t])[i].len >= BREAK_EVEN_POINT
      ensures p.l < p.w ==> (ts + [t])[i].dist <= |Expand((ts + [t])[..i], [])|
    {
      assert (ts + [t])[..i] == ts[..i];
      assert ts[..|ts|] == ts;
    }
  }

  /** Where a search stands: what is in the buffer, and how it answers. */
  ghost predicate Answered(p: Params, sunk: seq<byte>, buf: seq<byte>, base: nat, msi: nat, start: nat, max: nat,
                           dist: nat, len: nat, done: bool) {
    var end := Pow2(p.w) + msi;
    && start <= end && end + max <= |buf| && base + msi + max <= |sunk|
    && IsBestMatch(buf, start, end, max, dist, len)
    && (forall j | 0 <= j < end + max :: buf[j] == At(sunk, base - Pow2(p.w) + j))
    && max == Min(Pow2(p.l), |sunk| - base - msi)
    && (p.l < p.w ==> CoversHistory(p, end - start, base + msi))
    && (done || base + msi + Pow2(p.l) <= |sunk|)
  }

  /** The tokens so far stand for the first `at` bytes of the stream. */
  ghost predicate Parsed(p: Params, ts: seq<Token>, sunk: seq<byte>, at: nat, done: bool) {
    && at <= |sunk| && Expand(ts, []) == sunk[..at]
    && AllEncodable(p, ts) && InReach(p, ts) && Greedy(p, ts, sunk, done)
  }

  /** What an encoder makes of a stream: whole bytes, fewer than eight bits of which pad
      the tokens of a greedy parse. */
  ghost predicate IsEncoding(p: Params, input: seq<byte>, output: seq<byte>, ts: seq<Token>, k: nat) {
    && k < 8 && OfBytes(output) == TokensBits(p, ts) + Zeros(k)
    && Parsed(p, ts, input, |input|, true)
  }

  /** The stream comes back: decoding an encoding yields its input if and only if the
      decoder does not lose the last token, and it never does while a back-reference
      takes eight bits. */
  lemma EncodingDecodes(p: Params, input: seq<byte>, output: seq<byte>, ts: seq<Token>, k: nat)
    requires p.Valid() && IsEncoding(p, input, output, ts, k)
    ensures StreamDecode(p, OfBytes(output), []) == input <==> !LosesLastToken(p, ts, k)
    ensures p.w + p.l >= 7 ==> StreamDecode(p, OfBytes(output), []) == input
  {
    hide TokensBits; hide Expand; hide AllEncodable; hide OfBytes; hide StreamDecode; hide Zeros;
    assert input[..|input|] == input;
    StreamDecodeOfEncoding(p, ts, Zeros(k));
  }

  lemma NothingParsed(p: Params)
    ensures Parsed(p, [], [], 0, false) && TokensBits(p, []) == []
  {
  }

  /** No match is worth it: the next byte of the stream becomes a literal. */
  lemma LiteralChosen(p: Params, ts: seq<Token>, sunk: seq<byte>, buf: seq<byte>, base: nat, msi: nat,
                      start: nat, max: nat, len: nat, done: bool)
    requires Answered(p, sunk, buf, base, msi, start, max, MATCH_NOT_FOUND, len, done)
    requires base + msi < |sunk| && Pow2(p.w) + msi < |buf| && Parsed(p, ts, sunk, base + msi, done)
    ensures var t := Literal(sunk[base + msi]);
            && buf[Pow2(p.w) + msi] == sunk[base + msi]
            && Parsed(p, ts + [t], sunk, base + msi + 1, done)
            && TokensBits(p, ts + [t]) == TokensBits(p, ts) + TokenBits(p, t)
  {
    hide InReach; hide Greedy; hide Expand; hide TokensBits; hide LongestAt; hide FromNat; hide Pow2;
    var at := base + msi;
    var t := Literal(sunk[at]);
    NothingLonger(p, t, sunk, buf, base, msi, start, max, MATCH_NOT_FOUND, len, done);
    AppendToken(p, ts, t, []);
    KeepsReach(p, ts, t);
    KeepsGreedy(p, ts, t, sunk, done);
    assert sunk[..at] + [sunk[at]] == sunk[..at + 1];
  }

  /** A match found in the buffer becomes a back-reference to the stream itself. */
  lemma MatchChosen(p: Params, ts: seq<Token>, sunk: seq<byte>, buf: seq<byte>, base: nat, msi: nat,
                    start: nat, max: nat, dist: nat, len: nat, done: bool)
    requires Answered(p, sunk, buf, base, msi, start, max, dist, len, done)
    requires Parsed(p, ts, sunk, base + msi, done)
    requires dist < Pow2(p.w) && dist != MATCH_NOT_FOUND
    ensures var t := Backref(dist, len);
            && 1 <= dist && len <= max <= Pow2(p.l) && BREAK_EVEN_POINT <= len
            && base + msi + len <= |sunk| && Parsed(p, ts + [t], sunk, base + msi + len, done)
            && TokensBits(p, ts + [t]) == TokensBits(p, ts) + TokenBits(p, t)
  {
    hide InReach; hide Greedy; hide Expand; hide TokensBits; hide Pow2; hide MatchLength; hide Copy; hide LongestAt;
    hide FromNat;
    var t := Backref(dist, len);
    var at, end := base + msi, Pow2(p.w) + msi;
    forall i | at <= i < at + len ensures sunk[i] == At(sunk, i - dist) {
      var k := i - at;
      MatchLengthAgrees(buf, end - dist, end, max, k);
      assert buf[end - dist + k] == At(sunk, i - dist);
      assert buf[end + k] == At(sunk, i);
    }
    NothingLonger(p, t, sunk, buf, base, msi, start, max, dist, len, done);
    CopyOfMatch(sunk, at, dist, len);
    AppendToken(p, ts, t, []);
    KeepsReach(p, ts, t);
    KeepsGreedy(p, ts, t, sunk, done);
  }

  lemma NoneLeft(x: nat, e: seq<bool>)
    ensures e + FromNat(x, 0) == e
  {
  }

  lemma NoBitsUsed(e: seq<bool>)
    ensures e + FromNat(0 / Pow2(8), 0) == e && 0 % Pow2(8) == 0
  {
    Pow2Values();
  }

  lemma FullMask(free: nat)
    requires 1 <= free <= 8 && Pow2(free - 1) == 128
    ensures free == 8
  {
    Pow2Values();
  }

  lemma HalfMask(free: nat)
    requires 1 <= free <= 8
    ensures if free == 1 then Pow2(free - 1) / 2 == 0 else Pow2(free - 1) / 2 == Pow2(free - 2) > 0
    ensures Pow2(0) == 1 && FromNat(3, 0) == []
  {
  }

  /** Every back-reference is worth its bits, and reaches back no further than the
      window or the bytes already encoded. */
  ghost predicate InReach(p: Params, ts: seq<Token>) {
    forall i | 0 <= i < |ts| && ts[i].Backref? ::
      && 1 <= ts[i].dist < Pow2(p.w)
      && ts[i].len >= BREAK_EVEN_POINT
      && (p.l < p.w ==> ts[i].dist <= |Expand(ts[..i], [])|)
  }

  /** The n bytes at `at` repeat those d back. */
  predicate Repeats(s: seq<byte>, at: nat, d: nat, n: nat) {
    d <= at && at + n <= |s| && s[at..at + n] == s[at - d..at - d + n]
  }

  /** A search that reaches this far back covers what was encoded, but for the oldest
      Pow2(l) bytes once the first window is nearly used up. */
  predicate CoversHistory(p: Params, reach: int, at: nat) {
    && reach <= at
    && (reach >= Pow2(p.w) - 1 || at <= reach + Pow2(p.l))
    && (at + Pow2(p.l) < Pow2(p.w) ==> reach == at)
  }

  /** Every encoder looks this far back at least. */
  predicate Searchable(p: Params, d: nat, at: nat) {
    1 <= d < Pow2(p.w) && d <= at && (d + Pow2(p.l) <= at || at + Pow2(p.l) < Pow2(p.w))
  }

  /** The token at `at` is the longest match its fields can express among those the
      search is sure to see, and the nearest of its length. */
  ghost predicate LongestAt(p: Params, t: Token, s: seq<byte>, at: nat, done: bool) {
    && (done || at + Pow2(p.l) <= |s|)
    && (t.Backref? ==> t.len <= Pow2(p.l))
    && (p.l < p.w ==>
          && (forall d: nat, n: nat | Searchable(p, d, at) && n <= Pow2(p.l) && Repeats(s, at, d, n) ::
                n <= if t.Literal? then BREAK_EVEN_POINT - 1 else t.len)
          && (t.Backref? ==> forall d: nat | 1 <= d < t.dist :: !Repeats(s, at, d, t.len)))
  }

  /** Every token is the best choice where it stands. */
  ghost predicate Greedy(p: Params, ts: seq<Token>, s: seq<byte>, done: bool) {
    forall i | 0 <= i < |ts| :: LongestAt(p, ts[i], s, |Expand(ts[..i], [])|, done)
  }

  lemma KeepsGreedy(p: Params, ts: seq<Token>, t: Token, s: seq<byte>, done: bool)
    requires Greedy(p, ts, s, done) && LongestAt(p, t, s, |Expand(ts, [])|, done)
    ensures Greedy(p, ts + [t], s, done)
  {
    hide Expand; hide LongestAt;
    forall i | 0 <= i < |ts + [t]|
      ensures LongestAt(p, (ts + [t])[i], s, |Expand((ts + [t])[..i], [])|, done)
    {
      assert (ts + [t])[..i] == ts[..i];
      assert ts[..|ts|] == ts;
    }
  }

  /** More input makes no token worse: each had all the lookahead it could use. */
  lemma GreedyGrows(p: Params, ts: seq<Token>, s: seq<byte>, s': seq<byte>)
    requires Greedy(p, ts, s, false) && s <= s'
    ensures Greedy(p, ts, s', false)
  {
    hide Expand; hide LongestAt;
    forall i | 0 <= i < |ts|
      ensures LongestAt(p, ts[i], s', |Expand(ts[..i], [])|, false)
    {
      LongestGrows(p, ts[i], s, s', |Expand(ts[..i], [])|);
    }
  }

  lemma LongestGrows(p: Params, t: Token, s: seq<byte>, s': seq<byte>, at: nat)
    requires LongestAt(p, t, s, at, false) && s <= s'
    ensures LongestAt(p, t, s', at, false)
  {
    hide Pow2; hide Repeats;
    forall d: nat, n: nat | n <= Pow2(p.l)
      ensures Repeats(s', at, d, n) == Repeats(s, at, d, n)
    {
      RepeatsGrows(s, s', at, d, n);
    }
  }

  lemma RepeatsGrows(s: seq<byte>, s': seq<byte>, at: nat, d: nat, n: nat)
    requires s <= s' && at + n <= |s|
    ensures Repeats(s', at, d, n) == Repeats(s, at, d, n)
  {
    assert s'[..|s|] == s;
    assert s'[at..at + n] == s[at..at + n];
    if d <= at {
      assert s'[at - d..at - d + n] == s[at - d..at - d + n];
    }
  }

  lemma ParsedGrows(p: Params, ts: seq<Token>, s: seq<byte>, s': seq<byte>, at: nat)
    requires Parsed(p, ts, s, at, false) && s <= s'
    ensures Parsed(p, ts, s', at, false)
  {
    hide Expand; hide Greedy; hide InReach; hide AllEncodable;
    GreedyGrows(p, ts, s, s');
    assert s[..at] == s'[..at];
  }

  /** Nor does the end of the input. */
  lemma ParsedEnds(p: Params, ts: seq<Token>, s: seq<byte>, at: nat, done: bool)
    requires Parsed(p, ts, s, at, done)
    ensures Parsed(p, ts, s, at, true)
  {
    hide Expand; hide InReach; hide AllEncodable;
  }

  /** The answer of the search in the buffer is the best choice in the stream. */
  lemma NothingLonger(p: Params, t: Token, sunk: seq<byte>, buf: seq<byte>, base: nat, msi: nat, start: nat, max: nat,
                      dist: nat, len: nat, done: bool)
    requires Answered(p, sunk, buf, base, msi, start, max, dist, len, done)
    requires if dist == MATCH_NOT_FOUND then t.Literal? else t == Backref(dist, len)
    ensures LongestAt(p, t, sunk, base + msi, done)
  {
    hide Pow2; hide MatchLength; hide At; hide Repeats;
    var at, end := base + msi, Pow2(p.w) + msi;
    forall d: nat, n: nat | 1 <= d <= end - start && n <= Pow2(p.l) && Repeats(sunk, at, d, n)
      ensures MatchLength(buf, end - d, end, max) >= n
    {
      AtLeastRepeated(sunk, buf, at, end, d, n, max);
    }
  }

  lemma AtLeastRepeated(s: seq<byte>, buf: seq<byte>, at: nat, end: nat, d: nat, n: nat, max: nat)
    requires Repeats(s, at, d, n) && 1 <= d <= end && end + max <= |buf|
    requires forall j | 0 <= j < end + max :: buf[j] == At(s, at - end + j)
    requires n <= max || at + max == |s|
    ensures MatchLength(buf, end - d, end, max) >= n
  {
    hide MatchLength; hide At;
    RepeatsInBuffer(s, buf, at, end, d, n);
    MatchAtLeast(buf, end - d, end, max, n);
  }

  lemma RepeatsInBuffer(s: seq<byte>, buf: seq<byte>, at: nat, end: nat, d: nat, n: nat)
    requires Repeats(s, at, d, n) && 1 <= d <= end && end + n <= |buf|
    requires forall j | 0 <= j < end + n :: buf[j] == At(s, at - end + j)
    ensures buf[end - d..end - d + n] == buf[end..end + n]
  {
    assert buf[end..end + n] == s[at..at + n];
    assert buf[end - d..end - d + n] == s[at - d..at - d + n];
  }

  lemma {:induction false} MatchAtLeast(buf: seq<byte>, a: nat, b: nat, max: nat, n: nat)
    requires a <= b && b + max <= |buf| && n <= max && buf[a..a + n] == buf[b..b + n]
    ensures MatchLength(buf, a, b, max) >= n
    decreases n
  {
    if n > 0 {
      assert buf[a..a + n][0] == buf[b..b + n][0];
      assert buf[a..a + n][1..] == buf[a + 1..a + 1 + (n - 1)] && buf[b..b + n][1..] == buf[b + 1..b + 1 + (n - 1)];
      MatchAtLeast(buf, a + 1, b + 1, max - 1, n - 1);
    }
  }

  /** The failing family is inhabited by runs of the encoder: at (4, 2) every encoding
      of "aaaa" is a literal and a 7-bit back-reference, and decodes to one "a". */
  lemma ShortTokensLoseData(output: seq<byte>, ts: seq<Token>, k: nat)
    requires IsEncoding(Params(4, 2), [97, 97, 97, 97], output, ts, k)
    ensures ts == [Literal(97), Backref(1, 3)]
    ensures |output| == 2 && StreamDecode(Params(4, 2), OfBytes(output), []) == [97]
  {
    hide Parsed; hide TokensBits; hide OfBytes; hide StreamDecode;
    FirstIsLiteral(ts);
    SecondIsMatch(ts);
    ShortBackrefDropped();
    NoRest(TokensBits(Params(4, 2), ts));
  }

  lemma ExpandHead(ts: seq<Token>, out: seq<byte>)
    requires |ts| > 0
    ensures Expand(ts, out) == Expand(ts[1..], Apply(out, ts[0]))
    ensures Apply(out, ts[0]) <= Expand(ts, out)
  {
  }

  lemma FirstIsLiteral(ts: seq<Token>)
    requires Parsed(Params(4, 2), ts, [97, 97, 97, 97], 4, true)
    ensures |ts| > 0 && ts[0] == Literal(97)
  {
    hide Copy; hide Pow2; hide Greedy;
    assert |ts| > 0;
    ExpandHead(ts, []);
    assert ts[..0] == [];
  }

  lemma OneTokenSpans(t: Token)
    ensures |Expand([t], [])| == t.Span()
  {
    ExpandHead([t], []);
  }

  /** At the second "a" the search sees that three bytes repeat. */
  lemma ThreeRepeat(t: Token)
    requires LongestAt(Params(4, 2), t, [97, 97, 97, 97], 1, true)
    ensures t.Backref? && t.len >= 3
  {
    Pow2Values();
    hide Pow2;
    var s: seq<byte> := [97, 97, 97, 97];
    assert s[1..4] == s[0..3];
    assert Searchable(Params(4, 2), 1, 1) && Repeats(s, 1, 1, 3);
  }

  lemma SecondIsMatch(ts: seq<Token>)
    requires Parsed(Params(4, 2), ts, [97, 97, 97, 97], 4, true) && |ts| > 0 && ts[0] == Literal(97)
    ensures ts == [ts[0], Backref(1, 3)]
  {
    hide Copy; hide Pow2; hide LongestAt;
    ExpandHead(ts, []);
    assert |ts| > 1;
    assert ts[..1] == [ts[0]];
    OneTokenSpans(ts[0]);
    ThreeRepeat(ts[1]);
    ExpandHead(ts[1..], [97]);
    assert ts[1] == Backref(1, 3);
  }
}
