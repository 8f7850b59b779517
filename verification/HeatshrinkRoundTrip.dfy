/** Compressing and expanding a whole stream through the public calls, for every
    input and every choice of chunk sizes. */
module HeatshrinkRoundTrip {
  import opened Bits
  import opened Lzss
  import opened OutputBuffer
  import E = HeatshrinkEncoder
  import D = HeatshrinkDecoder

  type Size = n: nat | n > 0 witness 1

  /** The chunk size to use for the k-th call of each kind. */
  datatype Schedule = Schedule(sink: nat -> Size, poll: nat -> Size)

  /** What the driver asks of its input: a lookahead as large as the window stalls the
      encoder after one window of it. */
  predicate Encodes(windowSz2: nat, lookaheadSz2: nat, length: nat) {
    && Params(windowSz2, lookaheadSz2).Valid() && windowSz2 <= 14
    && (lookaheadSz2 == windowSz2 ==> length <= Pow2(windowSz2))
  }

  /** Sink everything, polling until the encoder wants more, then finish. */
  method Compress(windowSz2: nat, lookaheadSz2: nat, input: seq<byte>, sizes: Schedule)
    returns (output: seq<byte>, ghost tokens: seq<Token>, ghost pad: nat)
    requires Encodes(windowSz2, lookaheadSz2, |input|)
    ensures E.IsEncoding(Params(windowSz2, lookaheadSz2), input, output, tokens, pad)
    ensures windowSz2 + lookaheadSz2 <= 26 ==> |output| <= (9 * |input| + 7) / 8
  {
    hide OfBytes; hide E.Encoder.Valid; hide E.IsEncoding; hide Pow2;
    var hse := new E.Encoder(windowSz2, lookaheadSz2);
    output := [];
    var pos, calls := 0, 0;
    while pos < |input|
      invariant pos <= |input| && fresh(hse) && fresh(hse.buffer) && fresh(hse.index)
      invariant hse.Valid() && hse.p == Params(windowSz2, lookaheadSz2) && hse.state == E.NotFull
      invariant hse.sunk == input[..pos] && hse.produced == output && !hse.isFinishing
    {
      if lookaheadSz2 == windowSz2 {
        hse.OneWindowOnly();
      } else {
        hse.RoomToSink();
      }
      var chunk := Slice(input, pos, sizes.sink(calls));
      var _, n := hse.Sink(chunk);
      NextSlice(input, pos, chunk[..], n);
      pos := pos + n;
      output, calls := Drain(hse, output, calls, sizes);
    }
    assert input[..|input|] == input;
    output := FinishAll(hse, output, calls, sizes);
    pad := hse.Recoverable();
    tokens := hse.tokens;
    if windowSz2 + lookaheadSz2 <= 26 {
      hse.FinalSize();
    }
  }

  lemma NextSlice(input: seq<byte>, pos: nat, chunk: seq<byte>, n: nat)
    requires n <= |chunk| && pos + |chunk| <= |input| && chunk == input[pos..pos + |chunk|]
    ensures input[..pos] + chunk[..n] == input[..pos + n]
  {
  }

  /** Finish, and poll until the encoder says it is done. */
  method FinishAll(hse: E.Encoder, output: seq<byte>, calls: nat, sizes: Schedule) returns (output': seq<byte>)
    requires hse.Valid() && hse.produced == output
    modifies hse, hse.buffer, hse.index
    ensures hse.Valid() && hse.state == E.Done
    ensures hse.sunk == old(hse.sunk) && hse.produced == output'
  {
    hide E.Encoder.Ready; hide Wrote;
    output' := output;
    var k := calls;
    var res := hse.Finish();
    while res != E.FinishDone
      invariant hse.Valid() && hse.isFinishing && hse.state != E.NotFull
      invariant res == E.FinishDone <==> hse.state == E.Done
      invariant hse.sunk == old(hse.sunk) && hse.produced == output'
      decreases 31 * |hse.sunk| + 7 - 8 * |hse.produced|, res != E.FinishDone
    {
      hse.SizeSoFar();
      var out := new byte[sizes.poll(k)];
      ghost var before := out[..];
      var r, n := hse.Poll(out);
      GainOf(out[..], before, n, output', hse.produced);
      output' := output' + out[..n];
      k := k + 1;
      hse.SizeSoFar();
      FinishingIsFull(hse);
      res := hse.Finish();
    }
  }

  /** An encoder that takes input is not finishing, one that has no more to do is. */
  lemma FinishingIsFull(hse: E.Encoder)
    requires hse.Valid()
    ensures hse.isFinishing ==> hse.state != E.NotFull
    ensures !hse.isFinishing ==> hse.state !in {E.FlushBits, E.Done}
  {
  }

  lemma GainOf(now: seq<byte>, before: seq<byte>, n: nat, p0: seq<byte>, p1: seq<byte>)
    requires Wrote(now, before, 0, n, p0, p1)
    ensures n <= |now| && p1 == p0 + now[..n]
  {
    assert now[0..n] == now[..n];
  }

  /** A fresh copy of at most size bytes of the input. */
  method Slice(input: seq<byte>, pos: nat, size: Size) returns (chunk: array<byte>)
    requires pos < |input|
    ensures fresh(chunk) && 0 < chunk.Length && pos + chunk.Length <= |input|
    ensures chunk[..] == input[pos..pos + chunk.Length]
  {
    var n := if size < |input| - pos then size else |input| - pos;
    chunk := new byte[n](i requires 0 <= i < n => input[pos + i]);
  }

  /** Poll an encoder until it wants more input. */
  method Drain(hse: E.Encoder, output: seq<byte>, calls: nat, sizes: Schedule) returns (output': seq<byte>, calls': nat)
    requires hse.Valid() && !hse.isFinishing && hse.produced == output
    modifies hse, hse.buffer, hse.index
    ensures hse.Valid() && hse.state == E.NotFull && !hse.isFinishing
    ensures hse.sunk == old(hse.sunk) && hse.produced == output'
  {
    hide E.Encoder.Ready; hide Wrote;
    output', calls' := output, calls;
    var res := E.PollMore;
    while res == E.PollMore
      invariant hse.Valid() && !hse.isFinishing && hse.sunk == old(hse.sunk) && hse.produced == output'
      invariant res == E.PollMore || (res == E.PollEmpty && hse.state == E.NotFull)
      decreases 31 * |hse.sunk| + 7 - 8 * |hse.produced|, res == E.PollMore
    {
      hse.SizeSoFar();
      var out := new byte[sizes.poll(calls')];
      ghost var before := out[..];
      var n;
      res, n := hse.Poll(out);
      GainOf(out[..], before, n, output', hse.produced);
      output' := output' + out[..n];
      calls' := calls' + 1;
      FinishingIsFull(hse);
    }
  }

  /** Sink everything, polling until the decoder wants more, then finish. */
  method Decompress(inputBufferSize: nat, windowSz2: nat, lookaheadSz2: nat, input: seq<byte>, sizes: Schedule)
    returns (output: seq<byte>, done: D.FinishResult)
    requires Params(windowSz2, lookaheadSz2).Valid() && 0 < inputBufferSize < 65536
    ensures output == StreamDecode(Params(windowSz2, lookaheadSz2), OfBytes(input), [])
    ensures done == D.FinishDone
  {
    hide StreamDecode; hide Decode; hide OfBytes; hide D.Decoder.Valid; hide Wrote;
    var hsd := new D.Decoder(inputBufferSize, windowSz2, lookaheadSz2);
    output := [];
    var pos, calls := 0, 0;
    NothingToDecode(hsd.p);
    while pos < |input|
      invariant pos <= |input| && fresh(hsd) && fresh(hsd.buffers)
      invariant hsd.Valid() && hsd.p == Params(windowSz2, lookaheadSz2) && hsd.inputCap == inputBufferSize
      invariant hsd.fed == OfBytes(input[..pos]) && !hsd.ahead && !hsd.Woken()
      invariant hsd.produced == output == StreamDecode(hsd.p, hsd.fed, [])
      invariant hsd.Idle() && hsd.inputSize == 0
    {
      var chunk := Slice(input, pos, sizes.sink(calls));
      var _, n := hsd.Sink(chunk);
      NextBits(input, pos, chunk[..], n);
      pos := pos + n;
      output, calls := DrainDecoder(hsd, output, calls, sizes);
    }
    assert input[..|input|] == input;
    done := hsd.Finish();
  }

  lemma NextBits(input: seq<byte>, pos: nat, chunk: seq<byte>, n: nat)
    requires n <= |chunk| && pos + |chunk| <= |input| && chunk == input[pos..pos + |chunk|]
    ensures OfBytes(input[..pos]) + OfBytes(chunk[..n]) == OfBytes(input[..pos + n])
  {
    NextSlice(input, pos, chunk, n);
    OfBytesConcat(input[..pos], chunk[..n]);
  }

  lemma NothingToDecode(p: Params)
    ensures StreamDecode(p, OfBytes([]), []) == []
    ensures OfBytes([]) == []
  {
  }

  /** Poll a decoder until it wants more input. */
  method DrainDecoder(hsd: D.Decoder, output: seq<byte>, calls: nat, sizes: Schedule) returns (output': seq<byte>, calls': nat)
    requires hsd.Valid() && !hsd.Woken() && !hsd.ahead && hsd.produced == output
    modifies hsd, hsd.buffers
    ensures hsd.Valid() && !hsd.Woken() && hsd.Idle() && hsd.inputSize == 0
    ensures hsd.fed == old(hsd.fed) && hsd.sunk == old(hsd.sunk) && !hsd.ahead
    ensures hsd.produced == output' == StreamDecode(hsd.p, hsd.fed, [])
  {
    hide StreamDecode; hide Decode; hide OfBytes; hide D.Decoder.Valid; hide Wrote; hide D.Decoder.Idle;
    output', calls' := output, calls;
    hsd.OutputSoFarValid();
    var res := D.PollMore;
    while res == D.PollMore
      invariant hsd.Valid() && !hsd.Woken() && !hsd.ahead && hsd.produced == output'
      invariant hsd.fed == old(hsd.fed) && hsd.sunk == old(hsd.sunk)
      invariant hsd.produced <= StreamDecode(hsd.p, hsd.fed, [])
      invariant res == D.PollEmpty ==>
                  hsd.Idle() && hsd.inputSize == 0 && hsd.produced == StreamDecode(hsd.p, hsd.fed, [])
      decreases |StreamDecode(hsd.p, hsd.fed, [])| - |hsd.produced|, res == D.PollMore
    {
      var out := new byte[sizes.poll(calls')];
      ghost var before := out[..];
      var n;
      res, n := hsd.Poll(out);
      GainOf(out[..], before, n, output', hsd.produced);
      output' := output' + out[..n];
      calls' := calls' + 1;
    }
  }

  // ---------------------------------------------------------------------------
  // An empty sink

  /** Two bytes that hold the literal 0x61 and seven bits more, and with a 1 in front
      the literal 0xB0 and eight. */
  const SHIFTING: seq<byte> := [0xB0, 0x80]

  lemma ShiftingBits()
    ensures OfBytes(SHIFTING) == [true] + FromNat(0x61, 8) + FromNat(0x80, 7)
    ensures [true] + OfBytes(SHIFTING) == [true] + FromNat(0xB0, 8) + FromNat(0x80, 8)
  {
    hide FromNat;
    assert SHIFTING[1..] == [0x80] && [0x80][1..] == [];
    assert OfBytes([0x80]) == FromNat(0x80, 8) + OfBytes([]);
    HeadOfB0();
    HeadOf80();
    LastOf61();
  }

  lemma HeadOfB0()
    ensures FromNat(0xB0, 8) == [true] + FromNat(0x30, 7)
  {
    hide FromNat;
    Pow2Values();
    FromNatHead(0xB0, 8);
    LowByteOnly(0xB0, 0x30, 7, 1);
  }

  lemma HeadOf80()
    ensures FromNat(0x80, 8) == [true] + FromNat(0x80, 7)
  {
    hide FromNat;
    Pow2Values();
    FromNatHead(0x80, 8);
  }

  lemma LastOf61()
    ensures FromNat(0x61, 8) == FromNat(0x30, 7) + [true]
  {
  }

  /** A bit that was never sent makes the literal after it another one, whatever was
      decoded before. */
  lemma ExtraBitShiftsLiteral(p: Params, ts: seq<Token>)
    requires p.Valid() && AllEncodable(p, ts)
    ensures StreamDecode(p, TokensBits(p, ts) + OfBytes(SHIFTING), []) == Expand(ts, []) + [0x61]
    ensures StreamDecode(p, TokensBits(p, ts) + [true] + OfBytes(SHIFTING), []) == Expand(ts, []) + [0xB0]
  {
    hide FromNat; hide OfBytes; hide TokensBits; hide Expand; hide StreamDecode;
    ShiftingBits();
    HeadOf80();
    StreamDecodeTokens(p, ts, OfBytes(SHIFTING), []);
    OneLiteral(p, 0x61, FromNat(0x80, 7), Expand(ts, []));
    Reassociate(TokensBits(p, ts), [true], OfBytes(SHIFTING));
    StreamDecodeTokens(p, ts, [true] + OfBytes(SHIFTING), []);
    OneLiteral(p, 0xB0, FromNat(0x80, 8), Expand(ts, []));
  }

  /** One literal, and bits that are no whole token. */
  lemma OneLiteral(p: Params, c: byte, rest: seq<bool>, out: seq<byte>)
    requires |rest| < 8 || (|rest| == 8 && rest[0])
    ensures StreamDecode(p, [true] + FromNat(c, 8) + rest, out) == out + [c]
  {
    hide FromNat;
    StreamDecodeToken(p, Literal(c), rest, out);
  }

  lemma AfterNothing(p: Params)
    requires p.Valid()
    ensures OfBytes([]) == []
    ensures StreamDecode(p, [true], []) == []
    ensures StreamDecode(p, OfBytes(SHIFTING), []) == [0x61]
    ensures StreamDecode(p, [true] + OfBytes(SHIFTING), []) == [0xB0]
  {
    hide OfBytes; hide FromNat;
    NothingToDecode(p);
    ExtraBitShiftsLiteral(p, []);
    assert TokensBits(p, []) + OfBytes(SHIFTING) == OfBytes(SHIFTING);
    assert TokensBits(p, []) + [true] == [true];
  }

  /** The run that shows it: a new decoder, a sink of no bytes, a poll, and then two bytes
      come out as 0xB0. They encode 0x61. */
  method EmptySinkRun(inputBufferSize: nat, windowSz2: nat, lookaheadSz2: nat)
    returns (output: seq<byte>, done: D.FinishResult)
    requires Params(windowSz2, lookaheadSz2).Valid() && 2 <= inputBufferSize < 65536
    ensures output == [0xB0] && done == D.FinishDone
    ensures StreamDecode(Params(windowSz2, lookaheadSz2), OfBytes(SHIFTING), []) == [0x61]
  {
    hide StreamDecode; hide Decode; hide OfBytes; hide D.Decoder.Valid; hide Wrote;
    var hsd := new D.Decoder(inputBufferSize, windowSz2, lookaheadSz2);
    AfterNothing(hsd.p);
    var none, two := new byte[0], new byte[2](i => if i == 0 then 0xB0 else 0x80);
    var res, n := hsd.Sink(none);
    assert none[..n] == [];
    assert hsd.fed == [] && hsd.unread == [] && hsd.fed + [true] == [true];
    NotEarly(hsd.p);
    var first := PollOnce(hsd);
    assert hsd.produced == [];
    res, n := hsd.Sink(two);
    assert two[..n] == SHIFTING;
    output := PollOnce(hsd);
    done := hsd.Finish();
  }

  lemma NotEarly(p: Params)
    ensures !D.TooEarly(p, [])
  {
  }

  /** Poll into two bytes of room, which are enough when at most one byte comes out. */
  method PollOnce(hsd: D.Decoder) returns (output: seq<byte>)
    requires hsd.Valid() && !hsd.ahead && !(hsd.Woken() && D.TooEarly(hsd.p, hsd.unread))
    requires |StreamDecode(hsd.p, if hsd.Woken() && hsd.unread == [] then hsd.fed + [true] else hsd.fed, [])| <= 1
    modifies hsd, hsd.buffers
    ensures hsd.Valid() && !hsd.Woken() && !hsd.ahead && hsd.Idle() && hsd.inputSize == 0
    ensures hsd.fed == old(if hsd.Woken() && hsd.unread == [] then hsd.fed + [true] else hsd.fed)
    ensures old(hsd.produced) + output == hsd.produced == StreamDecode(hsd.p, hsd.fed, [])
  {
    hide StreamDecode; hide Decode; hide D.Decoder.Valid; hide Wrote; hide D.Decoder.Idle; hide D.TooEarly;
    var out := new byte[2];
    ghost var before, p0 := out[..], hsd.produced;
    var res, n := hsd.Poll(out);
    GainOf(out[..], before, n, p0, hsd.produced);
    output := out[..n];
  }

  /** Data survives encoding and decoding, for every input and all chunk sizes, if and
      only if the decoder does not drop the last token; it never does when a
      back-reference takes eight bits or more. */
  method RoundTrip(inputBufferSize: nat, windowSz2: nat, lookaheadSz2: nat, input: seq<byte>,
                   encoding: Schedule, decoding: Schedule)
    returns (output: seq<byte>, done: D.FinishResult, ghost tokens: seq<Token>, ghost pad: nat)
    requires Encodes(windowSz2, lookaheadSz2, |input|) && 0 < inputBufferSize < 65536
    ensures done == D.FinishDone
    ensures Expand(tokens, []) == input && pad < 8
    ensures output == input <==> !LosesLastToken(Params(windowSz2, lookaheadSz2), tokens, pad)
    ensures windowSz2 + lookaheadSz2 >= 7 ==> output == input
  {
    hide StreamDecode; hide OfBytes; hide Pow2; hide E.Greedy; hide E.InReach; hide Expand; hide LosesLastToken;
    var compressed;
    compressed, tokens, pad := Compress(windowSz2, lookaheadSz2, input, encoding);
    E.EncodingDecodes(Params(windowSz2, lookaheadSz2), input, compressed, tokens, pad);
    assert input[..|input|] == input;
    output, done := Decompress(inputBufferSize, windowSz2, lookaheadSz2, compressed, decoding);
  }
}
