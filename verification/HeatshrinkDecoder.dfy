/** The heatshrink decoder: a state machine that can suspend between any two bits of
    input and any two bytes of output, refining `Lzss.StreamDecode`. */
module HeatshrinkDecoder {
  import opened Bits
  import opened Lzss
  import opened OutputBuffer

  datatype State =
    | Empty
    | InputAvailable
    | YieldLiteral
    | BackrefIndexMsb
    | BackrefIndexLsb
    | BackrefCountMsb
    | BackrefCountLsb
    | YieldBackref
    | CheckForMoreInput

  datatype SinkResult = SinkOk | SinkFull
  datatype PollResult = PollEmpty | PollMore
  datatype FinishResult = FinishDone | FinishMore

  /** get_bits' answer when too little input is left. */
  const NO_BITS: nat := 0xFFFF_FFFF

  /** The bits of the current token that a suspended decoder has read already. */
  function TokenSoFar(p: Params, st: State, index: nat, count: nat): seq<bool>
    requires p.Valid()
  {
    match st
    case Empty | InputAvailable | CheckForMoreInput | YieldBackref => []
    case YieldLiteral => [true]
    case BackrefIndexMsb => [false]
    case BackrefIndexLsb => [false] + FromNat(index / 256, High(p.w))
    case BackrefCountMsb => [false] + FromNat(Pred(index), p.w)
    case BackrefCountLsb => [false] + FromNat(Pred(index), p.w) + FromNat(count / 256, High(p.l))
  }

  /** All bits fed are the tokens decoded so far, the bits of the current token that were
      read, and the bits not read; the tokens mean `out`. */
  ghost predicate Synced(p: Params, fed: seq<bool>, ts: seq<Token>, soFar: seq<bool>, unread: seq<bool>, out: seq<byte>) {
    && AllEncodable(p, ts)
    && fed == TokensBits(p, ts) + soFar + unread
    && Expand(ts, []) == out
  }

  /** The decoder has not gone on where the idle rule makes it stop: no token, and none
      that is being read, ends within the first seven bits from where it starts. */
  ghost predicate OnTime(p: Params, ts: seq<Token>, soFar: seq<bool>, rest: nat) {
    && !LosesLastToken(p, ts, |soFar| + rest)
    && (soFar != [] && !soFar[0] && |soFar| + rest < 8 ==> |soFar| + rest < p.BackrefBits())
  }

  /** It has, with seven bits left that are one token. */
  ghost predicate EarlyToken(soFar: seq<bool>, rest: nat) {
    |soFar| + rest <= 7 && (soFar == [] ==> rest == 0)
  }

  ghost predicate InStep(p: Params, fed: seq<bool>, ts: seq<Token>, soFar: seq<bool>, unread: seq<bool>, out: seq<byte>,
                         ahead: bool)
  {
    && Synced(p, fed, ts, soFar, unread, out)
    && if ahead then EarlyToken(soFar, |unread|) else OnTime(p, ts, soFar, |unread|)
  }

  ghost predicate FedBy(sunk: seq<byte>, fed: seq<bool>) {
    |fed| >= 8 * |sunk| && (|fed| == 8 * |sunk| ==> fed == OfBytes(sunk))
  }

  lemma StillFed(sunk: seq<byte>, fed: seq<bool>, more: seq<byte>)
    requires FedBy(sunk, fed)
    ensures FedBy(sunk + more, fed + OfBytes(more)) && FedBy(sunk, fed + [true])
  {
    OfBytesConcat(sunk, more);
  }

  /** How many bits of an n-bit field are above its low byte. */
  function High(n: nat): nat {
    if n > 8 then n - 8 else 0
  }

  /** A field is its high bits and then its low byte, however it was cut. */
  lemma FieldFromParts(hi: nat, low: seq<bool>, n: nat)
    requires n > 0 && hi % 256 == 0 && |low| == Min(n, 8)
    requires n <= 8 ==> hi == 0
    ensures FromNat(hi / 256, High(n)) + low == FromNat(hi + ToNat(low), n)
  {
    Pow2Values();
    FromNatToNat(low);
    if n > 8 {
      var x := hi + ToNat(low);
      FromNatSplit(x, n - 8, 8);
      assert x / 256 == hi / 256;
      LowByteOnly(x, ToNat(low), 8, hi / 256);
    }
  }

  /** The mask the source keeps while n bits of the current byte are unread. */
  function Mask(n: nat): nat {
    if n == 0 then 0 else Pow2(n - 1)
  }

  lemma ReadBit(x: byte, n: nat)
    requires n > 0
    ensures Mask(n) > 0 && Mask(n) / 2 == Mask(n - 1)
    ensures FromNat(x, n) == [(x / Mask(n)) % 2 == 1] + FromNat(x, n - 1)
  {
    FromNatHead(x, n);
  }

  /** The suspend test compares the mask with 1 << (count - 1): it asks for enough bits. */
  lemma MaskTest(n: nat, count: nat)
    requires 1 <= count
    ensures Mask(n) < Pow2(count - 1) <==> n < count
  {
    if 0 < n < count {
      Pow2Monotone(n - 1, count - 1);
    } else if n >= count {
      Pow2Monotone(count - 1, n - 1);
    }
  }

  lemma FirstByte(s: seq<byte>)
    requires s != []
    ensures OfBytes(s) == FromNat(s[0], 8) + OfBytes(s[1..])
    ensures FromNat(0, 0) == []
  {
  }

  lemma NoBits()
    ensures ToNat([]) == 0
  {
  }

  lemma OneMoreBit(u: seq<bool>, i: nat)
    requires i < |u| && i < 8
    ensures u[i..] != [] && u[i..][0] == u[i] && u[i..][1..] == u[i + 1..]
    ensures (ToNat(u[..i]) * 2) % 65536 + (if u[i] then 1 else 0) == ToNat(u[..i + 1])
  {
    assert u[..i + 1] == u[..i] + [u[i]];
    ToNatSnoc(u[..i], u[i]);
    Pow2Values();
    Pow2Monotone(i, 8);
  }

  lemma FitsEightBits(s: seq<bool>)
    requires |s| <= 8
    ensures ToNat(s) < 256
  {
    Pow2Values();
    Pow2Monotone(|s|, 8);
  }

  class Decoder {
    const p: Params
    const inputCap: nat
    /** The input buffer, then the expansion window. */
    const buffers: array<byte>

    var inputSize: nat
    var inputIndex: nat
    var outputCount: nat
    var outputIndex: nat
    var headIndex: nat
    var bitAccumulator: nat
    var state: State
    var currentByte: byte
    var bitIndex: nat

    /** Unread bits of the current byte, and all unread bits. */
    ghost var bitsLeft: nat
    ghost var unread: seq<bool>
    /** All bytes accepted, what the decoder takes for its input bits, and all bytes
        output, since the last reset. */
    ghost var sunk: seq<byte>
    ghost var fed: seq<bool>
    ghost var produced: seq<byte>
    /** Whether it decoded a token that the idle rule would have made it wait for. */
    ghost var ahead: bool
    /** The tokens decoded so far. */
    ghost var tokens: seq<Token>

    ghost predicate Shape() {
      p.Valid() && inputCap > 0 && buffers.Length == inputCap + Pow2(p.w)
    }

    ghost predicate InputOk()
      reads `inputSize, `inputIndex, `bitIndex, `bitsLeft, `currentByte, `unread, buffers
    {
      && Shape()
      && inputSize <= inputCap
      && (if inputSize == 0 then inputIndex == 0 else inputIndex < inputSize)
      && bitsLeft <= 7 && bitIndex == Mask(bitsLeft)
      && unread == FromNat(currentByte, bitsLeft) + OfBytes(buffers[inputIndex..inputSize])
    }

    /** The window holds the last Pow2(p.w) bytes of output, zero before the first. */
    ghost predicate WindowOk()
      requires Shape()
      reads `headIndex, `produced, buffers
    {
      && headIndex == |produced| % 65536
      && forall i | |produced| - Pow2(p.w) <= i < |produced| ::
           buffers[inputCap + Slot(i, p.w)] == At(produced, i)
    }

    ghost predicate FieldsOk(st: State)
      reads `inputSize, `outputIndex, `outputCount
    {
      match st
      case Empty => inputSize == 0
      case BackrefIndexMsb => p.w > 8
      case BackrefIndexLsb =>
        outputIndex == 0 || (p.w > 8 && outputIndex % 256 == 0 && outputIndex + 256 <= Pow2(p.w))
      case BackrefCountMsb => p.l > 8 && 1 <= outputIndex <= Pow2(p.w)
      case BackrefCountLsb =>
        && 1 <= outputIndex <= Pow2(p.w)
        && (outputCount == 0 || (p.l > 8 && outputCount % 256 == 0 && outputCount + 256 <= Pow2(p.l)))
      case YieldBackref => 1 <= outputIndex <= Pow2(p.w) && 1 <= outputCount <= Pow2(p.l)
      case _ => true
    }

    ghost function SoFar(st: State): seq<bool>
      requires p.Valid()
      reads `outputIndex, `outputCount
    {
      TokenSoFar(p, st, outputIndex, outputCount)
    }

    ghost predicate InSync(st: State)
      reads `outputIndex, `outputCount, `unread, `fed, `produced, `tokens, `ahead
    {
      InSyncWith(st, unread, fed, ahead)
    }

    ghost predicate InSyncWith(st: State, u: seq<bool>, f: seq<bool>, a: bool)
      reads `outputIndex, `outputCount, `produced, `tokens
    {
      && p.Valid()
      && InStep(p, f, tokens, SoFar(st), u,
                if st == YieldBackref then Copy(produced, outputIndex, outputCount) else produced, a)
    }

    /** The decoder may go on in state st. */
    ghost predicate Ready(st: State)
      reads `inputSize, `inputIndex, `bitIndex, `bitsLeft, `currentByte, `bitAccumulator, `outputIndex, `outputCount
      reads `headIndex, `unread, `fed, `produced, `tokens, `ahead, buffers
    {
      InputOk() && bitAccumulator == 0 && WindowOk() && FieldsOk(st) && InSync(st)
    }

    /** How many bits state st must read before it can move on. */
    ghost function Need(st: State): nat {
      match st
      case YieldLiteral => 8
      case BackrefIndexMsb => High(p.w)
      case BackrefIndexLsb => Min(p.w, 8)
      case BackrefCountMsb => High(p.l)
      case BackrefCountLsb => Min(p.l, 8)
      case _ => 0
    }

    ghost predicate OutOfInput(st: State)
      reads this
    {
      inputSize == 0 && |unread| < Need(st)
    }

    /** A decoder between calls: it is ready to go on, and if it waits for bits with
        no byte buffered then too few are left. */
    ghost predicate Valid()
      reads this, buffers
    {
      Ready(state) && FedOk() && (Need(state) > 0 && inputSize == 0 ==> |unread| < Need(state))
    }

    /** The bits fed are those of the bytes accepted, as long as none was added. */
    ghost predicate FedOk()
      reads `fed, `sunk
    {
      FedBy(sunk, fed)
    }

    /** A sink of no bytes has woken an idle decoder: it is set to decode a token, and no
        byte is buffered. */
    ghost predicate Woken()
      reads `state, `inputSize
    {
      state == InputAvailable && inputSize == 0
    }

    constructor (inputBufferSize: nat, windowSz2: nat, lookaheadSz2: nat)
      requires Params(windowSz2, lookaheadSz2).Valid() && 0 < inputBufferSize < 65536
      ensures Valid() && fresh(buffers)
      ensures p == Params(windowSz2, lookaheadSz2) && inputCap == inputBufferSize
      ensures sunk == [] && fed == [] && unread == [] && produced == [] && !ahead && state == Empty && inputSize == 0
    {
      p := Params(windowSz2, lookaheadSz2);
      inputCap := inputBufferSize;
      buffers := new byte[inputBufferSize + Pow2(windowSz2)](_ => 0);
      inputSize, inputIndex := 0, 0;
      bitIndex, currentByte := 0, 0;
      outputCount, outputIndex := 0, 0;
      headIndex := 0;
      bitAccumulator := 0;
      state := Empty;
      sunk, fed, produced, tokens, ahead := [], [], [], [], false;
      bitsLeft, unread := 0, [];
    }

    /** Accept input. A sink of no bytes wakes an idle decoder, and any later byte makes
        that harmless. */
    method Sink(input: array<byte>) returns (res: SinkResult, n: nat)
      requires Valid() && input != buffers
      modifies `inputSize, `inputIndex, `state, `unread, `sunk, `fed, `ahead, buffers
      ensures Valid()
      ensures n == Min(inputCap - old(inputSize), input.Length)
      ensures res == SinkFull <==> old(inputSize) == inputCap
      ensures sunk == old(sunk) + input[..n] && fed == old(fed) + OfBytes(input[..n])
      ensures unread == old(unread) + OfBytes(input[..n]) && ahead == (old(ahead) && n == 0)
      ensures Woken() <==> input.Length == 0 && (old(state) == Empty || old(Woken()))
    {
      hide OfBytes; hide FedBy; hide Pow2; hide WindowOk; hide InSyncWith; hide FromNat;
      var rem := inputCap - inputSize;
      if rem == 0 {
        NothingFed(fed, input[..0]);
        assert sunk == sunk + input[..0];
        return SinkFull, 0;
      }
      var size := if rem < input.Length then rem else input.Length;
      SyncMore(input[..size]);
      Append(input, size);
      Record(input[..size]);
      if state == Empty {
        state := InputAvailable;
        inputIndex := 0;
      }
      n := size;
      res := SinkOk;
    }

    /** More input keeps the decoder in step, also when it wakes it. */
    lemma SyncMore(more: seq<byte>)
      requires InSync(state)
      ensures var st := if state == Empty then InputAvailable else state;
              InSyncWith(st, unread + OfBytes(more), fed + OfBytes(more), ahead && more == [])
    {
      hide OfBytes; hide Copy; hide InStep; hide TokenSoFar;
      WokenSoFar(p, outputIndex, outputCount);
      FedMore(p, fed, tokens, SoFar(state), unread,
              if state == YieldBackref then Copy(produced, outputIndex, outputCount) else produced, ahead, more);
    }

    ghost method Record(more: seq<byte>)
      modifies `sunk, `fed, `ahead
      ensures sunk == old(sunk) + more && fed == old(fed) + OfBytes(more) && ahead == (old(ahead) && more == [])
      ensures old(FedOk()) ==> FedOk()
    {
      hide FedBy; hide OfBytes;
      if FedOk() {
        StillFed(sunk, fed, more);
      }
      sunk, fed, ahead := sunk + more, fed + OfBytes(more), ahead && more == [];
    }

    /** Append to the input buffer. */
    method Append(input: array<byte>, size: nat)
      requires InputOk() && WindowOk() && inputSize + size <= inputCap && size <= input.Length && input != buffers
      modifies `inputSize, `unread, buffers
      ensures InputOk() && WindowOk()
      ensures inputSize == old(inputSize) + size && unread == old(unread) + OfBytes(input[..size])
    {
      hide Pow2; hide Slot; hide At; hide FromNat; hide OfBytes;
      ghost var kept := buffers[inputIndex..inputSize];
      forall k | 0 <= k < size {
        buffers[inputSize + k] := input[k];
      }
      assert buffers[inputIndex..inputSize] == kept;
      assert forall k | 0 <= k < size :: buffers[inputSize + k] == input[k];
      assert buffers[inputSize..inputSize + size] == input[..size];
      inputSize := inputSize + size;
      assert buffers[inputIndex..inputSize] == kept + input[..size];
      OfBytesConcat(kept, input[..size]);
      Reassociate(FromNat(currentByte, bitsLeft), OfBytes(kept), OfBytes(input[..size]));
      unread := unread + OfBytes(input[..size]);
    }

    /** Read count bits, or leave everything as it was when fewer are unread. */
    method GetBits(count: nat) returns (r: nat)
      requires InputOk() && bitAccumulator == 0 && 1 <= count <= 8
      modifies `inputSize, `inputIndex, `currentByte, `bitIndex, `bitAccumulator, `bitsLeft, `unread
      ensures InputOk() && bitAccumulator == 0
      ensures r == NO_BITS <==> |old(unread)| < count
      ensures r == NO_BITS ==> unread == old(unread) && inputSize == 0 && old(inputSize) == 0
      ensures r != NO_BITS ==> r == ToNat(old(unread)[..count]) && unread == old(unread)[count..]
    {
      hide FromNat; hide OfBytes; hide ToNat; hide Pow2;
      ghost var u := unread;
      MaskTest(bitsLeft, count);
      NoBits();
      if inputSize == 0 {
        if bitIndex < Pow2(count - 1) {
          return NO_BITS;
        }
      }
      assert |u| >= count;
      var i := 0;
      while i < count
        invariant 0 <= i <= count
        invariant InputOk()
        invariant bitAccumulator == ToNat(u[..i])
        invariant unread == u[i..]
      {
        OneMoreBit(u, i);
        var bit := NextBit();
        bitAccumulator := (bitAccumulator * 2) % 65536;
        if bit {
          bitAccumulator := bitAccumulator + 1;
        }
        i := i + 1;
      }
      r := bitAccumulator;
      bitAccumulator := 0;
      FitsEightBits(u[..count]);
    }

    /** One turn of the bit loop: pull a byte when the mask has run out, test a bit. */
    method NextBit() returns (bit: bool)
      requires InputOk() && unread != []
      modifies `inputSize, `inputIndex, `currentByte, `bitIndex, `bitsLeft, `unread
      ensures InputOk()
      ensures bit == old(unread)[0] && unread == old(unread)[1..]
    {
      hide FromNat; hide OfBytes; hide Pow2;
      if bitIndex == 0x00 {
        ghost var rest := buffers[inputIndex..inputSize];
        assert rest[1..] == buffers[inputIndex + 1..inputSize];
        currentByte := buffers[inputIndex];
        inputIndex := inputIndex + 1;
        if inputIndex == inputSize {
          inputIndex := 0; // that was the last byte
          inputSize := 0;
        }
        bitIndex := 0x80;
        bitsLeft := 8;
        Pow2Values();
        assert buffers[inputIndex..inputSize] == rest[1..];
        FirstByte(rest);
      }
      ReadBit(currentByte, bitsLeft);
      bit := (currentByte / bitIndex) % 2 == 1;
      bitIndex := bitIndex / 2;
      bitsLeft := bitsLeft - 1;
      unread := unread[1..];
    }

    // -------------------------------------------------------------------------
    // State steps. Each returns the next state, or the same one when it is stuck.

    /** Reads the tag. With no bit at all get_bits answers NO_BITS, which is not 0 and so
        is taken for a literal's tag: the decoder goes on as if a 1 had been read. */
    method StInputAvailable() returns (st: State)
      requires Ready(InputAvailable)
      modifies `inputSize, `inputIndex, `currentByte, `bitIndex, `bitAccumulator, `bitsLeft, `unread, `outputIndex
      modifies `fed, `ahead
      ensures Ready(st) && st in {YieldLiteral, if p.w > 8 then BackrefIndexMsb else BackrefIndexLsb}
      ensures |unread| <= |old(unread)|
      ensures fed == old(FedNext(InputAvailable)) && ahead == old(AheadNext(InputAvailable))
    {
      hide FromNat; hide OfBytes; hide Pow2; hide Copy; hide ToNat; hide InStep; hide TokenSoFar;
      hide WindowOk; hide TooEarly; hide InputOk;
      EnoughBits();
      var bits := ReadTag();
      if bits != 0 {
        return YieldLiteral;
      } else if p.w > 8 {
        return BackrefIndexMsb;
      } else {
        outputIndex := 0;
        return BackrefIndexLsb;
      }
    }

    method ReadTag() returns (bits: nat)
      requires Ready(InputAvailable)
      modifies `inputSize, `inputIndex, `currentByte, `bitIndex, `bitAccumulator, `bitsLeft, `unread, `fed, `ahead
      ensures InputOk() && bitAccumulator == 0 && |unread| <= |old(unread)|
      ensures bits != 0 ==> InSync(YieldLiteral)
      ensures bits == 0 ==> InSync(BackrefIndexMsb)
      ensures bits == 0 && p.w <= 8 ==>
                InStep(p, fed, tokens, TokenSoFar(p, BackrefIndexLsb, 0, outputCount), unread, produced, ahead)
      ensures fed == if old(unread) == [] then old(fed) + [true] else old(fed)
      ensures ahead == (old(ahead) || TooEarly(p, old(unread)))
    {
      hide FromNat; hide OfBytes; hide Pow2; hide Copy; hide ToNat; hide InStep; hide TokenSoFar;
      hide WindowOk; hide TooEarly;
      ghost var u, f, a := unread, fed, ahead;
      bits := GetBits(1); // the tag
      if bits == NO_BITS {
        assert u == [];
        NoTag(p, f, tokens, outputIndex, outputCount, produced, a);
        RecordTag(f + [true], a);
      } else {
        TagRead(p, f, tokens, outputIndex, outputCount, u, produced, a);
        RecordTag(f, a || TooEarly(p, u));
      }
      NotTooEarly(p, u);
    }

    ghost method RecordTag(f: seq<bool>, a: bool)
      modifies `fed, `ahead
      ensures fed == f && ahead == a
    {
      fed, ahead := f, a;
    }

    method StYieldLiteral(out: array<byte>, n: nat) returns (st: State, n': nat)
      requires Ready(YieldLiteral) && out != buffers && n <= out.Length
      modifies `inputSize, `inputIndex, `currentByte, `bitIndex, `bitAccumulator, `bitsLeft, `unread
      modifies `headIndex, `produced, `tokens, buffers, out
      ensures Ready(st) && n <= n' <= out.Length
      ensures Wrote(out[..], old(out[..]), n, n', old(produced), produced)
      ensures st == YieldLiteral ==> unread == old(unread) && (n' == out.Length || OutOfInput(st))
      ensures st != YieldLiteral ==> st == CheckForMoreInput && |unread| < |old(unread)|
    {
      hide FromNat; hide OfBytes; hide Pow2; hide Copy; hide ToNat; hide InStep; hide TokenSoFar;
      hide WindowOk;
      n' := n;
      if n < out.Length {
        ghost var u := unread;
        var bits := GetBits(8);
        if bits == NO_BITS { // wait for more
          return YieldLiteral, n;
        }
        FitsEightBits(u[..8]);
        var c: byte := bits % 256;
        LiteralRead(p, fed, tokens, outputIndex, outputCount, u, produced, ahead);
        PushByte(c, out, n);
        n' := n + 1;
        tokens := tokens + [Literal(c)];
        st := CheckForMoreInput;
      } else {
        st := YieldLiteral;
      }
    }

    method StBackrefIndexMsb() returns (st: State)
      requires Ready(BackrefIndexMsb)
      modifies `inputSize, `inputIndex, `currentByte, `bitIndex, `bitAccumulator, `bitsLeft, `unread, `outputIndex
      ensures Ready(st) && st in {BackrefIndexMsb, BackrefIndexLsb}
      ensures st == BackrefIndexMsb ==> unread == old(unread) && OutOfInput(st)
      ensures st != BackrefIndexMsb ==> |unread| < |old(unread)|
    {
      hide FromNat; hide OfBytes; hide Pow2; hide Copy; hide ToNat; hide InStep; hide TokenSoFar;
      hide WindowOk;
      ghost var u := unread;
      var bits := GetBits(p.w - 8);
      if bits == NO_BITS {
        return BackrefIndexMsb;
      }
      outputIndex := bits * 256;
      IndexMsbRead(p, fed, tokens, old(outputIndex), outputCount, u, produced, ahead);
      return BackrefIndexLsb;
    }

    method StBackrefIndexLsb() returns (st: State)
      requires Ready(BackrefIndexLsb)
      modifies `inputSize, `inputIndex, `currentByte, `bitIndex, `bitAccumulator, `bitsLeft, `unread
      modifies `outputIndex, `outputCount
      ensures Ready(st) && st in {BackrefIndexLsb, if p.l > 8 then BackrefCountMsb else BackrefCountLsb}
      ensures st == BackrefIndexLsb ==> unread == old(unread) && OutOfInput(st)
      ensures st != BackrefIndexLsb ==> |unread| < |old(unread)|
    {
      hide FromNat; hide OfBytes; hide Pow2; hide Copy; hide ToNat; hide InStep; hide TokenSoFar;
      hide WindowOk;
      ghost var u, hi := unread, outputIndex;
      var bits := GetBits(if p.w < 8 then p.w else 8);
      if bits == NO_BITS {
        return BackrefIndexLsb;
      }
      IndexLsbRead(p, fed, tokens, hi, outputCount, u, produced, ahead);
      CompleteIndex(bits);
      return if p.l > 8 then BackrefCountMsb else BackrefCountLsb;
    }

    /** The low byte of the index is clear, so OR is +. */
    method CompleteIndex(bits: nat)
      modifies `outputIndex, `outputCount
      ensures outputIndex == old(outputIndex) + bits + 1 && outputCount == 0
    {
      outputIndex := outputIndex + bits;
      outputIndex := outputIndex + 1;
      outputCount := 0;
    }

    method StBackrefCountMsb() returns (st: State)
      requires Ready(BackrefCountMsb)
      modifies `inputSize, `inputIndex, `currentByte, `bitIndex, `bitAccumulator, `bitsLeft, `unread, `outputCount
      ensures Ready(st) && st in {BackrefCountMsb, BackrefCountLsb}
      ensures st == BackrefCountMsb ==> unread == old(unread) && OutOfInput(st)
      ensures st != BackrefCountMsb ==> |unread| < |old(unread)|
    {
      hide FromNat; hide OfBytes; hide Pow2; hide Copy; hide ToNat; hide InStep; hide TokenSoFar;
      hide WindowOk;
      ghost var u := unread;
      var bits := GetBits(p.l - 8);
      if bits == NO_BITS {
        return BackrefCountMsb;
      }
      outputCount := bits * 256;
      CountMsbRead(p, fed, tokens, outputIndex, old(outputCount), u, produced, ahead);
      return BackrefCountLsb;
    }

    method StBackrefCountLsb() returns (st: State)
      requires Ready(BackrefCountLsb)
      modifies `inputSize, `inputIndex, `currentByte, `bitIndex, `bitAccumulator, `bitsLeft, `unread
      modifies `outputCount, `tokens
      ensures Ready(st) && st in {BackrefCountLsb, YieldBackref}
      ensures st == BackrefCountLsb ==> unread == old(unread) && OutOfInput(st)
      ensures st != BackrefCountLsb ==> |unread| < |old(unread)|
    {
      hide FromNat; hide OfBytes; hide Pow2; hide Copy; hide ToNat; hide InStep; hide TokenSoFar;
      hide WindowOk;
      ghost var u, hi := unread, outputCount;
      var bits := GetBits(if p.l < 8 then p.l else 8);
      if bits == NO_BITS {
        return BackrefCountLsb;
      }
      CountLsbRead(p, fed, tokens, outputIndex, hi, u, produced, ahead);
      outputCount := outputCount + bits; // the low byte of the count is clear, so OR is +
      outputCount := outputCount + 1;
      tokens := tokens + [Backref(outputIndex, outputCount)];
      return YieldBackref;
    }

    method StYieldBackref(out: array<byte>, n: nat) returns (st: State, n': nat)
      requires Ready(YieldBackref) && out != buffers && n <= out.Length
      modifies `outputCount, `headIndex, `produced, buffers, out
      ensures Ready(st) && n <= n' <= out.Length
      ensures Wrote(out[..], old(out[..]), n, n', old(produced), produced)
      ensures st == YieldBackref ==> n' == out.Length
      ensures st != YieldBackref ==> st == CheckForMoreInput
    {
      hide FromNat; hide OfBytes; hide Pow2; hide Copy; hide ToNat; hide InStep; hide TokenSoFar;
      hide Slot;
      var count := out.Length - n;
      n' := n;
      if count > 0 {
        if outputCount < count {
          count := outputCount;
        }
        ghost var p0 := produced;
        WokenSoFar(p, outputIndex, outputCount);
        WokenSoFar(p, outputIndex, outputCount - count);
        n' := CopyBytes(out, n, count);
        CopySplit(p0, outputIndex, count, outputCount - count);
        CopyNone(produced, outputIndex);
        outputCount := outputCount - count;
        if outputCount == 0 {
          return CheckForMoreInput, n';
        }
      }
      st := YieldBackref;
    }

    method CopyBytes(out: array<byte>, n: nat, count: nat) returns (n': nat)
      requires InputOk() && WindowOk() && out != buffers && n + count <= out.Length && 1 <= outputIndex <= Pow2(p.w)
      modifies `headIndex, `produced, buffers, out
      ensures InputOk() && WindowOk() && produced == Copy(old(produced), outputIndex, count)
      ensures n' == n + count && Wrote(out[..], old(out[..]), n, n', old(produced), produced)
    {
      hide WindowOk; hide Pow2; hide Copy;
      ghost var p0 := produced;
      CopyNone(p0, outputIndex);
      n' := n;
      for i := 0 to count
        invariant n' == n + i
        invariant InputOk() && WindowOk() && produced == Copy(p0, outputIndex, i)
        invariant Wrote(out[..], old(out[..]), n, n', p0, produced)
      {
        ghost var o, p1 := out[..], produced;
        CopyOneMore(p0, outputIndex, i);
        CopyByte(out, n');
        WroteStep(out[..], o, old(out[..]), n, n', n' + 1, p0, p1, produced);
        n' := n' + 1;
      }
    }

    /** Repeat the byte outputIndex back. */
    method CopyByte(out: array<byte>, n: nat)
      requires InputOk() && WindowOk() && out != buffers && n < out.Length && 1 <= outputIndex <= Pow2(p.w)
      modifies `headIndex, `produced, buffers, out
      ensures InputOk() && WindowOk()
      ensures produced == old(produced) + [At(old(produced), |old(produced)| - outputIndex)]
      ensures Wrote(out[..], old(out[..]), n, n + 1, old(produced), produced)
    {
      hide Slot; hide Pow2;
      WrappedSlot(|produced|, outputIndex, p.w);
      var c := buffers[inputCap + Slot(headIndex - outputIndex, p.w)];
      assert c == At(produced, |produced| - outputIndex);
      PushByte(c, out, n);
    }

    method StCheckForInput() returns (st: State)
      requires Ready(CheckForMoreInput)
      ensures Ready(st)
      ensures st == if inputSize == 0 then Empty else InputAvailable
    {
      st := if inputSize == 0 then Empty else InputAvailable;
    }

    /** Emit a byte and store it at the head of the window. */
    method PushByte(c: byte, out: array<byte>, n: nat)
      requires InputOk() && WindowOk() && out != buffers && n < out.Length
      modifies `headIndex, `produced, buffers, out
      ensures InputOk() && WindowOk() && produced == old(produced) + [c]
      ensures Wrote(out[..], old(out[..]), n, n + 1, old(produced), produced)
    {
      hide WindowOk; hide InputOk; hide Pow2;
      ghost var before, p0 := out[..], produced;
      StoreByte(c);
      out[n] := c;
      OneWritten(out[..], before, n, c, p0, produced);
    }

    /** The byte enters the window at its head. */
    method StoreByte(c: byte)
      requires InputOk() && WindowOk()
      modifies `headIndex, `produced, buffers
      ensures InputOk() && WindowOk() && produced == old(produced) + [c]
    {
      hide Slot; hide Pow2; hide At; hide FromNat; hide OfBytes;
      ghost var m, was := |produced|, buffers[..];
      WrappedSlot(m, 0, p.w);
      buffers[inputCap + Slot(headIndex, p.w)] := c;
      headIndex := (headIndex + 1) % 65536;
      produced := produced + [c];
      assert buffers[inputIndex..inputSize] == old(buffers[inputIndex..inputSize]);
      forall i | m + 1 - Pow2(p.w) <= i < m + 1
        ensures buffers[inputCap + Slot(i, p.w)] == At(produced, i)
      {
        AtSnoc(old(produced), c, i);
        if i < m {
          SlotsDistinct(i, m, p.w);
          assert buffers[inputCap + Slot(i, p.w)] == was[inputCap + Slot(i, p.w)];
        }
      }
    }

    // -------------------------------------------------------------------------

    /** Decode into out until its end or until more input is needed. The poll writes
        out's first n cells and no others. An empty result means that the input is
        drained and the output is the reference decoder's, however input and output
        were cut into calls; before that it is a prefix of it. Only a decoder that was
        woken with no bit left decodes a bit that is not there, and only one that was
        woken with a whole token of seven bits left does not wait for more. */
    method Poll(out: array<byte>) returns (res: PollResult, n: nat)
      requires Valid() && out != buffers
      modifies `inputSize, `inputIndex, `currentByte, `bitIndex, `bitAccumulator, `bitsLeft, `unread
      modifies `outputIndex, `outputCount, `headIndex, `state, `produced, `tokens, `fed, `ahead, buffers, out
      ensures Valid() && !Woken()
      ensures Wrote(out[..], old(out[..]), 0, n, old(produced), produced)
      ensures fed == if old(Woken()) && old(unread) == [] then old(fed) + [true] else old(fed)
      ensures ahead == (old(ahead) || (old(Woken()) && TooEarly(p, old(unread))))
      ensures produced <= Decode(p, fed, []) && (!ahead ==> produced <= StreamDecode(p, fed, []))
      ensures res == PollMore ==> n == out.Length
      ensures res == PollEmpty ==>
                inputSize == 0 && Idle() && produced == if ahead then Decode(p, fed, []) else StreamDecode(p, fed, [])
    {
      hide OfBytes; hide FedBy; hide StreamDecode; hide Decode; hide Ready; hide Wrote; hide TooEarly; hide Stuck;
      hide OutOfInput;
      n := 0;
      WroteNothing(out[..], produced);
      StillFed(sunk, fed, []);
      while true
        invariant Ready(state) && n <= out.Length
        invariant FedNext(state) == old(FedNext(state)) && AheadNext(state) == old(AheadNext(state))
        invariant Wrote(out[..], old(out[..]), 0, n, old(produced), produced)
        decreases |unread|, Rank(state)
      {
        ghost var o, p1, m := out[..], produced, n;
        if state == Empty {
          OutputSoFar();
          Resting();
          return PollEmpty, n;
        }
        var inState := state;
        n := Step(out, n);
        WroteStep(out[..], o, old(out[..]), 0, m, n, old(produced), p1, produced);
        if state == inState {
          OutputSoFar();
          Suspended(n == out.Length);
          if n == out.Length {
            return PollMore, n;
          }
          return PollEmpty, n;
        }
      }
    }

    /** One step of the state the decoder is in. */
    method Step(out: array<byte>, n: nat) returns (n': nat)
      requires Ready(state) && state != Empty && out != buffers && n <= out.Length
      modifies `inputSize, `inputIndex, `currentByte, `bitIndex, `bitAccumulator, `bitsLeft, `unread
      modifies `outputIndex, `outputCount, `headIndex, `state, `produced, `tokens, `fed, `ahead, buffers, out
      ensures Ready(state) && n <= n' <= out.Length
      ensures Wrote(out[..], old(out[..]), n, n', old(produced), produced)
      ensures FedNext(state) == old(FedNext(state)) && AheadNext(state) == old(AheadNext(state))
      ensures state == old(state) ==> Stuck(state, n' == out.Length)
      ensures state != old(state) ==>
                |unread| < |old(unread)| || (|unread| == |old(unread)| && Rank(state) < old(Rank(state)))
    {
      hide Ready; hide Wrote; hide TooEarly; hide OutOfInput;
      n' := n;
      WroteNone(out[..], n, produced);
      match state {
        case InputAvailable =>
          state := StInputAvailable();
        case YieldLiteral =>
          state, n' := StYieldLiteral(out, n);
        case BackrefIndexMsb =>
          state := StBackrefIndexMsb();
        case BackrefIndexLsb =>
          state := StBackrefIndexLsb();
        case BackrefCountMsb =>
          state := StBackrefCountMsb();
        case BackrefCountLsb =>
          state := StBackrefCountLsb();
        case YieldBackref =>
          state, n' := StYieldBackref(out, n);
        case CheckForMoreInput =>
          state := StCheckForInput();
      }
    }

    /** Why a step left the state as it was. */
    ghost predicate Stuck(st: State, full: bool)
      reads this
    {
      match st
      case YieldBackref => full
      case YieldLiteral => full || OutOfInput(st)
      case BackrefIndexMsb | BackrefIndexLsb | BackrefCountMsb | BackrefCountLsb => OutOfInput(st)
      case _ => false
    }

    lemma Resting()
      requires Ready(state) && state == Empty && FedBy(sunk, FedNext(state))
      ensures Valid() && !Woken() && Idle() && FedNext(state) == fed && AheadNext(state) == ahead
    {
      hide Ready; hide TooEarly;
    }

    /** A decoder that is stuck can be left until the next call. */
    lemma Suspended(full: bool)
      requires Ready(state) && Stuck(state, full) && FedBy(sunk, FedNext(state))
      ensures Valid() && !Woken() && (!full ==> Idle() && inputSize == 0 && OutOfInput(state))
      ensures FedNext(state) == fed && AheadNext(state) == ahead
    {
      hide FromNat; hide WindowOk; hide InSync; hide TooEarly;
    }

    /** What the next tag does to fed and ahead: something only where no byte is buffered. */
    ghost function FedNext(st: State): seq<bool>
      reads `inputSize, `unread, `fed
    {
      if st == InputAvailable && inputSize == 0 && unread == [] then fed + [true] else fed
    }

    ghost function AheadNext(st: State): bool
      reads `inputSize, `unread, `ahead
    {
      ahead || (st == InputAvailable && inputSize == 0 && TooEarly(p, unread))
    }

    /** Steps that read no bits happen in this order. */
    ghost function Rank(st: State): nat {
      match st
      case YieldBackref => 3
      case CheckForMoreInput => 2
      case InputAvailable => 1
      case _ => 0
    }

    /** A buffered byte is eight bits. */
    lemma EnoughBits()
      requires InputOk()
      ensures inputSize > 0 ==> unread != [] && !TooEarly(p, unread)
    {
      hide FromNat; hide OfBytes;
    }

    /** What the output is once the decoder can read no further. */
    lemma OutputSoFar()
      requires Ready(state)
      ensures state == Empty ==> inputSize == 0
      ensures produced <= Decode(p, fed, []) && (!ahead ==> produced <= StreamDecode(p, fed, []))
      ensures state == Empty || OutOfInput(state) ==>
                produced == if ahead then Decode(p, fed, []) else StreamDecode(p, fed, [])
      ensures Need(state) == 8 && inputSize == 0 && state == YieldLiteral ==> |unread| < 8
    {
      hide TokensBits; hide Expand; hide AllEncodable; hide FromNat; hide Copy; hide Pow2; hide WindowOk;
      var rest := SoFar(state) + unread;
      Reassociate(TokensBits(p, tokens), SoFar(state), unread);
      DecodeTokens(p, tokens, rest, []);
      if !ahead {
        StreamDecodeTokens(p, tokens, rest, []);
      }
    }

    lemma OutputSoFarValid()
      requires Valid()
      ensures produced <= Decode(p, fed, []) && (!ahead ==> produced <= StreamDecode(p, fed, []))
    {
      hide Decode; hide StreamDecode; hide Ready;
      OutputSoFar();
    }

    /** Nothing more comes out without more input. */
    ghost predicate Idle()
      reads this
    {
      state == Empty || (Need(state) > 0 && inputSize == 0)
    }

    /** Ask whether the decoder is done: it is when it is idle, and then everything
        sunk has been decoded. */
    method Finish() returns (res: FinishResult)
      requires Valid()
      ensures res == FinishDone <==> Idle()
      ensures res == FinishDone ==> produced == if ahead then Decode(p, fed, []) else StreamDecode(p, fed, [])
    {
      OutputSoFar();
      match state {
        case Empty => res := FinishDone;
        case BackrefIndexLsb | BackrefIndexMsb | BackrefCountLsb | BackrefCountMsb =>
          res := if inputSize == 0 then FinishDone else FinishMore;
        case YieldLiteral =>
          res := if inputSize == 0 then FinishDone else FinishMore;
        case _ => res := FinishMore;
      }
    }
  }

  /** The window slot of position i: i & mask. */
  function Slot(i: int, w: nat): (r: nat)
    ensures r < Pow2(w)
  {
    i % Pow2(w)
  }

  lemma SlotsDistinct(i: int, n: int, w: nat)
    requires n - Pow2(w) < i < n
    ensures Slot(i, w) != Slot(n, w)
  {
    ModDistinct(i, n, Pow2(w));
  }

  lemma OneWritten(now: seq<byte>, before: seq<byte>, n: nat, c: byte, p0: seq<byte>, p1: seq<byte>)
    requires n < |before| && now == before[n := c] && p1 == p0 + [c]
    ensures Wrote(now, before, n, n + 1, p0, p1)
  {
  }

  lemma AtSnoc(s: seq<byte>, c: byte, i: int)
    requires i <= |s|
    ensures At(s + [c], i) == if i == |s| then c else At(s, i)
  {
  }

  /** The 16-bit head index has the slot of the unbounded position. */
  lemma WrappedSlot(n: nat, k: nat, w: nat)
    requires w <= 16
    ensures Slot(n % 65536 - k, w) == Slot(n - k, w)
  {
    Pow2Sixteen();
    hide Pow2;
    Pow2Add(w, 16 - w);
    ModOfWrapped(n, k, Pow2(w), Pow2(16 - w));
  }

  lemma Pow2Sixteen()
    ensures Pow2(16) == 65536
  {
    Pow2Values();
    Pow2Add(8, 8);
  }

  lemma OneBit(s: seq<bool>)
    requires |s| == 1
    ensures ToNat(s) == if s[0] then 1 else 0
  {
    assert s[..0] == [];
  }

  lemma Shift(a: seq<bool>, b: seq<bool>, u: seq<bool>, k: nat)
    requires k <= |u|
    ensures a + b + u == a + (b + u[..k]) + u[k..]
  {
    assert u == u[..k] + u[k..];
  }

  /** The high bits of a field, read first. */
  lemma HighPart(s: seq<bool>, n: nat)
    requires n > 8 && |s| == n - 8
    ensures ToNat(s) * 256 + 256 <= Pow2(n)
    ensures FromNat((ToNat(s) * 256) / 256, High(n)) == s
  {
    Pow2Values();
    hide Pow2; hide ToNat; hide FromNat;
    Pow2Add(n - 8, 8);
    FromNatToNat(s);
    assert (ToNat(s) * 256) / 256 == ToNat(s);
  }

  /** The low byte completes a field. */
  lemma LowPart(hi: nat, low: seq<bool>, n: nat)
    requires n > 0 && |low| == Min(n, 8)
    requires hi == 0 || (n > 8 && hi % 256 == 0 && hi + 256 <= Pow2(n))
    ensures hi + ToNat(low) + 1 <= Pow2(n)
    ensures FromNat(hi / 256, High(n)) + low == FromNat(hi + ToNat(low), n)
  {
    FieldFromParts(hi, low, n);
    FitsEightBits(low);
    Pow2Monotone(|low|, n);
  }

  lemma CopyNone(out: seq<byte>, d: nat)
    ensures Copy(out, d, 0) == out
  {
  }

  lemma CopyOneMore(out: seq<byte>, d: nat, i: nat)
    ensures var r := Copy(out, d, i); Copy(out, d, i + 1) == r + [At(r, |r| - d)]
  {
    CopySplit(out, d, i, 1);
    CopyNone(Copy(out, d, i) + [At(Copy(out, d, i), |Copy(out, d, i)| - d)], d);
  }

  // ---------------------------------------------------------------------------
  // Staying in sync: what each read does to tokens, bits and meaning

  lemma NothingFed(fed: seq<bool>, none: seq<byte>)
    requires none == []
    ensures fed + OfBytes(none) == fed
  {
  }

  /** More input is more bits, and with a byte of it no token comes early. */
  lemma FedMore(p: Params, fed: seq<bool>, ts: seq<Token>, soFar: seq<bool>, unread: seq<bool>, out: seq<byte>,
                ahead: bool, more: seq<byte>)
    requires InStep(p, fed, ts, soFar, unread, out, ahead)
    ensures InStep(p, fed + OfBytes(more), ts, soFar, unread + OfBytes(more), out, ahead && more == [])
  {
    hide TokensBits; hide Expand; hide AllEncodable; hide OfBytes; hide TokenBits;
    Reassociate(TokensBits(p, ts) + soFar, unread, OfBytes(more));
  }

  /** Between tokens nothing of a token was read. */
  lemma WokenSoFar(p: Params, index: nat, count: nat)
    requires p.Valid()
    ensures TokenSoFar(p, Empty, index, count) == TokenSoFar(p, InputAvailable, index, count) == []
    ensures TokenSoFar(p, YieldBackref, index, count) == TokenSoFar(p, CheckForMoreInput, index, count) == []
  {
  }

  /** Bits read become part of the current token. */
  lemma Shifted(p: Params, fed: seq<bool>, ts: seq<Token>, soFar: seq<bool>, u: seq<bool>, out: seq<byte>, ahead: bool, k: nat)
    requires InStep(p, fed, ts, soFar, u, out, ahead) && k <= |u| && soFar != []
    ensures InStep(p, fed, ts, soFar + u[..k], u[k..], out, ahead)
  {
    hide TokensBits; hide Expand; hide AllEncodable; hide OfBytes; hide TokenBits;
    Shift(TokensBits(p, ts), soFar, u, k);
  }

  /** The bits read since the last token are a token. */
  lemma TokenDone(p: Params, fed: seq<bool>, ts: seq<Token>, t: Token, u: seq<bool>, out: seq<byte>, ahead: bool)
    requires p.Valid() && t.Encodable(p) && InStep(p, fed, ts, TokenBits(p, t), u, out, ahead)
    ensures InStep(p, fed, ts + [t], [], u, Apply(out, t), ahead)
  {
    hide TokensBits; hide Expand; hide OfBytes; hide Pow2;
    AppendToken(p, ts, t, []);
    assert fed == TokensBits(p, ts + [t]) + [] + u;
  }

  /** The bits left are fewer than eight, and are a whole back-reference. */
  predicate TooEarly(p: Params, u: seq<bool>) {
    u != [] && !u[0] && p.BackrefBits() <= |u| < 8
  }

  lemma NotTooEarly(p: Params, u: seq<bool>)
    ensures u == [] ==> !TooEarly(p, u)
  {
  }

  lemma TagRead(p: Params, fed: seq<bool>, ts: seq<Token>, index: nat, count: nat, u: seq<bool>, out: seq<byte>, ahead: bool)
    requires p.Valid() && u != [] && InStep(p, fed, ts, TokenSoFar(p, InputAvailable, index, count), u, out, ahead)
    ensures ToNat(u[..1]) == if u[0] then 1 else 0
    ensures var ahead' := ahead || TooEarly(p, u);
            && (u[0] ==> InStep(p, fed, ts, TokenSoFar(p, YieldLiteral, index, count), u[1..], out, ahead'))
            && (!u[0] ==> InStep(p, fed, ts, TokenSoFar(p, BackrefIndexMsb, index, count), u[1..], out, ahead'))
            && (!u[0] && p.w <= 8 ==> InStep(p, fed, ts, TokenSoFar(p, BackrefIndexLsb, 0, count), u[1..], out, ahead'))
  {
    hide TokensBits; hide Expand; hide AllEncodable; hide OfBytes; hide ToNat; hide FromNat; hide TokenBits;
    OneBit(u[..1]);
    Shift(TokensBits(p, ts), [], u, 1);
    assert [] + u[..1] == [u[0]];
    assert TokensBits(p, ts) + [] + u == TokensBits(p, ts) + [u[0]] + u[1..];
    NoRest([false]);
    NoHighPart(p);
  }

  lemma NoHighPart(p: Params)
    ensures p.w <= 8 ==> [false] + FromNat(0 / 256, High(p.w)) == [false]
  {
  }

  /** No tag at all is read as a 1. */
  lemma NoTag(p: Params, fed: seq<bool>, ts: seq<Token>, index: nat, count: nat, out: seq<byte>, ahead: bool)
    requires p.Valid() && InStep(p, fed, ts, TokenSoFar(p, InputAvailable, index, count), [], out, ahead)
    ensures InStep(p, fed + [true], ts, TokenSoFar(p, YieldLiteral, index, count), [], out, ahead)
  {
    hide TokensBits; hide Expand; hide AllEncodable; hide TokenBits;
    assert TokensBits(p, ts) + [] + [] == TokensBits(p, ts);
    assert fed + [true] == TokensBits(p, ts) + [true] + [];
  }

  lemma LiteralRead(p: Params, fed: seq<bool>, ts: seq<Token>, index: nat, count: nat, u: seq<bool>, out: seq<byte>, ahead: bool)
    requires p.Valid() && |u| >= 8 && InStep(p, fed, ts, TokenSoFar(p, YieldLiteral, index, count), u, out, ahead)
    ensures var c := ByteOf(u[..8]);
            InStep(p, fed, ts + [Literal(c)], TokenSoFar(p, CheckForMoreInput, index, count), u[8..], out + [c], ahead)
  {
    hide InStep; hide FromNat; hide ToNat;
    FromNatToNat(u[..8]);
    Shifted(p, fed, ts, [true], u, out, ahead, 8);
    TokenDone(p, fed, ts, Literal(ByteOf(u[..8])), u[8..], out, ahead);
  }

  lemma IndexMsbRead(p: Params, fed: seq<bool>, ts: seq<Token>, index: nat, count: nat, u: seq<bool>, out: seq<byte>, ahead: bool)
    requires p.Valid() && p.w > 8 && |u| >= p.w - 8
    requires InStep(p, fed, ts, TokenSoFar(p, BackrefIndexMsb, index, count), u, out, ahead)
    ensures var hi := ToNat(u[..p.w - 8]) * 256;
            && hi + 256 <= Pow2(p.w)
            && InStep(p, fed, ts, TokenSoFar(p, BackrefIndexLsb, hi, count), u[p.w - 8..], out, ahead)
  {
    hide InStep; hide FromNat; hide ToNat;
    HighPart(u[..p.w - 8], p.w);
    Shifted(p, fed, ts, [false], u, out, ahead, p.w - 8);
  }

  lemma IndexLsbRead(p: Params, fed: seq<bool>, ts: seq<Token>, hi: nat, count: nat, u: seq<bool>, out: seq<byte>, ahead: bool)
    requires p.Valid() && |u| >= Min(p.w, 8)
    requires hi == 0 || (p.w > 8 && hi % 256 == 0 && hi + 256 <= Pow2(p.w))
    requires InStep(p, fed, ts, TokenSoFar(p, BackrefIndexLsb, hi, count), u, out, ahead)
    ensures var n := Min(p.w, 8);
            var index := hi + ToNat(u[..n]) + 1;
            && index <= Pow2(p.w)
            && InStep(p, fed, ts, TokenSoFar(p, BackrefCountMsb, index, 0), u[n..], out, ahead)
            && (p.l <= 8 ==> InStep(p, fed, ts, TokenSoFar(p, BackrefCountLsb, index, 0), u[n..], out, ahead))
  {
    hide InStep; hide ToNat; hide Pow2;
    var low := u[..Min(p.w, 8)];
    LowPart(hi, low, p.w);
    Shifted(p, fed, ts, [false] + FromNat(hi / 256, High(p.w)), u, out, ahead, |low|);
    Reassociate([false], FromNat(hi / 256, High(p.w)), low);
    NoRest([false] + FromNat(hi + ToNat(low), p.w));
  }

  lemma NoRest(s: seq<bool>)
    ensures s + FromNat(0, 0) == s
  {
  }

  lemma CountMsbRead(p: Params, fed: seq<bool>, ts: seq<Token>, index: nat, count: nat, u: seq<bool>, out: seq<byte>, ahead: bool)
    requires p.Valid() && p.l > 8 && |u| >= p.l - 8
    requires InStep(p, fed, ts, TokenSoFar(p, BackrefCountMsb, index, count), u, out, ahead)
    ensures var hi := ToNat(u[..p.l - 8]) * 256;
            && hi + 256 <= Pow2(p.l)
            && InStep(p, fed, ts, TokenSoFar(p, BackrefCountLsb, index, hi), u[p.l - 8..], out, ahead)
  {
    hide InStep; hide FromNat; hide ToNat;
    HighPart(u[..p.l - 8], p.l);
    Shifted(p, fed, ts, [false] + FromNat(Pred(index), p.w), u, out, ahead, p.l - 8);
  }

  lemma CountLsbRead(p: Params, fed: seq<bool>, ts: seq<Token>, index: nat, hi: nat, u: seq<bool>, out: seq<byte>, ahead: bool)
    requires p.Valid() && |u| >= Min(p.l, 8) && 1 <= index <= Pow2(p.w)
    requires hi == 0 || (p.l > 8 && hi % 256 == 0 && hi + 256 <= Pow2(p.l))
    requires InStep(p, fed, ts, TokenSoFar(p, BackrefCountLsb, index, hi), u, out, ahead)
    ensures var n := Min(p.l, 8);
            var count := hi + ToNat(u[..n]) + 1;
            && count <= Pow2(p.l)
            && InStep(p, fed, ts + [Backref(index, count)], TokenSoFar(p, YieldBackref, index, count), u[n..],
                      Copy(out, index, count), ahead)
  {
    hide InStep; hide ToNat; hide Pow2; hide FromNat; hide Copy;
    var low := u[..Min(p.l, 8)];
    var t := Backref(index, hi + ToNat(low) + 1);
    LowPart(hi, low, p.l);
    Shifted(p, fed, ts, TokenSoFar(p, BackrefCountLsb, index, hi), u, out, ahead, |low|);
    Reassociate([false] + FromNat(index - 1, p.w), FromNat(hi / 256, High(p.l)), low);
    TokenDone(p, fed, ts, t, u[|low|..], out, ahead);
  }
}
