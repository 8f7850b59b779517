/** The token language heatshrink reads and writes, and what it means.

    A stream is a list of tokens; a token is a tag bit and its fields. `Decode` is
    the reference decoder, one whole token at a time. `StreamDecode` is the decoder
    the library implements: it goes idle when no whole unread byte is left
    (lib/heatshrink/heatshrink_decoder.c:312-314). */
module Lzss {
  import opened Bits

  /** Window and lookahead sizes as exponents of two. */
  datatype Params = Params(w: nat, l: nat)
  {
    /** What both allocators accept. */
    predicate Valid() {
      4 <= w <= 15 && 2 <= l <= w
    }

    /** Bits in a back-reference token. */
    function BackrefBits(): nat {
      1 + w + l
    }
  }

  datatype Token = Literal(c: byte) | Backref(dist: nat, len: nat)
  {
    predicate Encodable(p: Params) {
      Backref? ==> 1 <= dist <= Pow2(p.w) && 1 <= len <= Pow2(p.l)
    }

    /** How many bytes the token stands for. */
    function Span(): nat {
      if Literal? then 1 else len
    }
  }

  /** A history that is zero before the stream begins, as both buffers are cleared. */
  function At(s: seq<byte>, i: int): byte {
    if 0 <= i < |s| then s[i] else 0
  }

  /** Repeat the bytes d back, one at a time, so a copy may overlap itself. */
  function Copy(out: seq<byte>, d: nat, n: nat): (r: seq<byte>)
    ensures |r| == |out| + n && out <= r
    decreases n
  {
    if n == 0 then out else Copy(out + [At(out, |out| - d)], d, n - 1)
  }

  function Apply(out: seq<byte>, t: Token): (r: seq<byte>)
    ensures |r| == |out| + t.Span() && out <= r
  {
    match t
    case Literal(c) => out + [c]
    case Backref(d, n) => Copy(out, d, n)
  }

  /** The bytes a token list stands for. */
  function Expand(ts: seq<Token>, out: seq<byte>): (r: seq<byte>)
    ensures out <= r
    decreases |ts|
  {
    if |ts| == 0 then out else Expand(ts[1..], Apply(out, ts[0]))
  }

  function TokenBits(p: Params, t: Token): (b: seq<bool>)
    ensures |b| == if t.Literal? then 9 else p.BackrefBits()
  {
    match t
    case Literal(c) => [true] + FromNat(c, 8)
    case Backref(d, n) => [false] + FromNat(if d == 0 then 0 else d - 1, p.w) + FromNat(if n == 0 then 0 else n - 1, p.l)
  }

  function TokensBits(p: Params, ts: seq<Token>): seq<bool> {
    if |ts| == 0 then [] else TokenBits(p, ts[0]) + TokensBits(p, ts[1..])
  }

  predicate AllEncodable(p: Params, ts: seq<Token>) {
    forall t <- ts :: t.Encodable(p)
  }

  /** The token at the front of b, when all of its bits are there. */
  function FirstToken(p: Params, b: seq<bool>): Token
    requires b != [] && |b| >= if b[0] then 9 else p.BackrefBits()
  {
    if b[0] then Literal(ByteOf(b[1..9]))
    else Backref(ToNat(b[1..1 + p.w]) + 1, ToNat(b[1 + p.w..1 + p.w + p.l]) + 1)
  }

  function ByteOf(b: seq<bool>): byte
    requires |b| == 8
  {
    Pow2Values();
    ToNat(b)
  }

  function FrontLength(p: Params, b: seq<bool>): (n: nat)
    requires b != []
    ensures n > 0
  {
    if b[0] then 9 else p.BackrefBits()
  }

  /** The reference decoder: whole tokens until the rest is no whole token. */
  function Decode(p: Params, b: seq<bool>, out: seq<byte>): (r: seq<byte>)
    ensures out <= r
    decreases |b|
  {
    if b == [] || |b| < FrontLength(p, b) then out
    else Decode(p, b[FrontLength(p, b)..], Apply(out, FirstToken(p, b)))
  }

  /** The library's decoder: it only starts a token while a whole byte is unread. */
  function StreamDecode(p: Params, b: seq<bool>, out: seq<byte>): (r: seq<byte>)
    ensures out <= r
    decreases |b|
  {
    if |b| < 8 || |b| < FrontLength(p, b) then out
    else StreamDecode(p, b[FrontLength(p, b)..], Apply(out, FirstToken(p, b)))
  }

  // ---------------------------------------------------------------------------
  // Expansion

  lemma {:induction false} ExpandConcat(a: seq<Token>, b: seq<Token>, out: seq<byte>)
    ensures Expand(a + b, out) == Expand(b, Expand(a, out))
    decreases |a|
  {
    if |a| == 0 {
      assert a + b == b;
    } else {
      assert (a + b)[1..] == a[1..] + b;
      ExpandConcat(a[1..], b, Apply(out, a[0]));
    }
  }

  lemma {:induction false} TokensBitsConcat(p: Params, a: seq<Token>, b: seq<Token>)
    ensures TokensBits(p, a + b) == TokensBits(p, a) + TokensBits(p, b)
    decreases |a|
  {
    if |a| == 0 {
      assert a + b == b;
    } else {
      assert (a + b)[1..] == a[1..] + b;
      TokensBitsConcat(p, a[1..], b);
    }
  }

  lemma AppendToken(p: Params, ts: seq<Token>, t: Token, out: seq<byte>)
    ensures Expand(ts + [t], out) == Apply(Expand(ts, out), t)
    ensures TokensBits(p, ts + [t]) == TokensBits(p, ts) + TokenBits(p, t)
  {
    ExpandConcat(ts, [t], out);
    TokensBitsConcat(p, ts, [t]);
    assert [t][1..] == [];
    assert TokensBits(p, [t]) == TokenBits(p, t) + TokensBits(p, []);
  }

  /** A match against earlier bytes, overlapping or not, expands to the bytes matched. */
  lemma {:induction false} CopyOfMatch(s: seq<byte>, at: nat, d: nat, n: nat)
    requires 1 <= d && at + n <= |s|
    requires forall i | at <= i < at + n :: s[i] == At(s, i - d)
    ensures Copy(s[..at], d, n) == s[..at + n]
    decreases n
  {
    if n > 0 {
      assert s[at] == At(s[..at], at - d);
      assert s[..at] + [s[at]] == s[..at + 1];
      CopyOfMatch(s, at + 1, d, n - 1);
    }
  }

  lemma {:induction false} CopySplit(out: seq<byte>, d: nat, m: nat, n: nat)
    ensures Copy(out, d, m + n) == Copy(Copy(out, d, m), d, n)
    decreases m
  {
    if m > 0 {
      CopySplit(out + [At(out, |out| - d)], d, m - 1, n);
    }
  }

  // ---------------------------------------------------------------------------
  // Round trip

  lemma FrontOfToken(p: Params, t: Token, rest: seq<bool>)
    requires t.Encodable(p)
    ensures var b := TokenBits(p, t) + rest;
            && FrontLength(p, b) == |TokenBits(p, t)|
            && FirstToken(p, b) == t
            && b[FrontLength(p, b)..] == rest
  {
    hide FromNat; hide ToNat; hide Pow2;
    match t
    case Literal(c) => FrontOfLiteral(c, rest);
    case Backref(d, n) => FrontOfBackref(p, d, n, rest);
  }

  lemma FrontOfLiteral(c: byte, rest: seq<bool>)
    ensures var b := [true] + FromNat(c, 8) + rest;
            b[0] && ByteOf(b[1..9]) == c && b[9..] == rest
  {
    var b := [true] + FromNat(c, 8) + rest;
    assert b[1..9] == FromNat(c, 8) by { hide FromNat; }
    Pow2Values();
    ToNatFromNat(c, 8);
  }

  lemma FrontOfBackref(p: Params, d: nat, n: nat, rest: seq<bool>)
    requires Backref(d, n).Encodable(p)
    ensures var b := [false] + FromNat(d - 1, p.w) + FromNat(n - 1, p.l) + rest;
            && !b[0]
            && ToNat(b[1..1 + p.w]) == d - 1
            && ToNat(b[1 + p.w..1 + p.w + p.l]) == n - 1
            && b[p.BackrefBits()..] == rest
  {
    hide FromNat; hide ToNat; hide Pow2;
    var b := [false] + FromNat(d - 1, p.w) + FromNat(n - 1, p.l) + rest;
    assert b[1..1 + p.w] == FromNat(d - 1, p.w);
    assert b[1 + p.w..1 + p.w + p.l] == FromNat(n - 1, p.l);
    ToNatFromNat(d - 1, p.w);
    ToNatFromNat(n - 1, p.l);
  }

  /** The reference decoder inverts the encoding of every token list; fewer than
      eight padding bits never look like a token when tokens take at least eight. */
  lemma {:induction false} DecodeOfEncoding(p: Params, ts: seq<Token>, pad: seq<bool>, out: seq<byte>)
    requires p.w + p.l >= 7 && AllEncodable(p, ts) && |pad| < 8
    ensures Decode(p, TokensBits(p, ts) + pad, out) == Expand(ts, out)
    decreases |ts|
  {
    if |ts| == 0 {
      assert TokensBits(p, ts) + pad == pad;
    } else {
      var rest := TokensBits(p, ts[1..]) + pad;
      assert TokensBits(p, ts) + pad == TokenBits(p, ts[0]) + rest;
      assert ts[0] in ts;
      FrontOfToken(p, ts[0], rest);
      DecodeOfEncoding(p, ts[1..], pad, Apply(out, ts[0]));
    }
  }

  /** The library's idle rule is harmless exactly when a back-reference takes eight
      bits or more. Of the parameters the allocators accept, only (4, 2) fails. */
  lemma IdleRuleIsExact(p: Params)
    requires p.Valid()
    ensures (forall b: seq<bool>, out: seq<byte> :: StreamDecode(p, b, out) == Decode(p, b, out))
            <==> p.w + p.l >= 7
  {
    if p.w + p.l >= 7 {
      forall b: seq<bool>, out: seq<byte> ensures StreamDecode(p, b, out) == Decode(p, b, out) {
        IdleRuleHarmless(p, b, out);
      }
    } else {
      var b := TokenBits(p, Backref(1, 1));
      FrontOfToken(p, Backref(1, 1), []);
      assert b + [] == b;
      assert StreamDecode(p, b, []) == [];
      assert |Decode(p, b, [])| >= 1;
    }
  }

  lemma {:induction false} IdleRuleHarmless(p: Params, b: seq<bool>, out: seq<byte>)
    requires p.w + p.l >= 7
    ensures StreamDecode(p, b, out) == Decode(p, b, out)
    decreases |b|
  {
    if |b| >= 8 && |b| >= FrontLength(p, b) {
      IdleRuleHarmless(p, b[FrontLength(p, b)..], Apply(out, FirstToken(p, b)));
    }
  }

  lemma StreamDecodeToken(p: Params, t: Token, rest: seq<bool>, out: seq<byte>)
    requires t.Encodable(p)
    ensures StreamDecode(p, TokenBits(p, t) + rest, out)
            == if |TokenBits(p, t)| + |rest| < 8 then out else StreamDecode(p, rest, Apply(out, t))
  {
    FrontOfToken(p, t, rest);
  }

  /** Whether the library's decoder drops the last token of an encoding followed by
      `rest` more bits: a back-reference that starts with fewer than eight bits to go. */
  predicate LosesLastToken(p: Params, ts: seq<Token>, rest: nat) {
    |ts| > 0 && |TokenBits(p, ts[|ts| - 1])| + rest < 8
  }

  /** Decoding a token list and more bits is decoding the bits after its expansion. */
  lemma {:induction false} StreamDecodeTokens(p: Params, ts: seq<Token>, rest: seq<bool>, out: seq<byte>)
    requires p.Valid() && AllEncodable(p, ts) && !LosesLastToken(p, ts, |rest|)
    ensures StreamDecode(p, TokensBits(p, ts) + rest, out) == StreamDecode(p, rest, Expand(ts, out))
    decreases |ts|
  {
    if |ts| == 0 {
      assert TokensBits(p, ts) + rest == rest;
    } else {
      var more := TokensBits(p, ts[1..]) + rest;
      assert TokensBits(p, ts) + rest == TokenBits(p, ts[0]) + more;
      assert ts[0] in ts;
      StreamDecodeToken(p, ts[0], more, out);
      if |ts| == 1 {
        assert TokensBits(p, ts[1..]) == [] && more == rest;
        assert Expand(ts, out) == Apply(out, ts[0]);
      } else {
        assert |TokensBits(p, ts[1..])| >= |TokenBits(p, ts[1])| >= 7;
        assert ts[1..][|ts| - 2] == ts[|ts| - 1];
        StreamDecodeTokens(p, ts[1..], rest, Apply(out, ts[0]));
      }
    }
  }

  lemma {:induction false} DecodeTokens(p: Params, ts: seq<Token>, rest: seq<bool>, out: seq<byte>)
    requires AllEncodable(p, ts)
    ensures Decode(p, TokensBits(p, ts) + rest, out) == Decode(p, rest, Expand(ts, out))
    decreases |ts|
  {
    if |ts| == 0 {
      assert TokensBits(p, ts) + rest == rest;
    } else {
      var more := TokensBits(p, ts[1..]) + rest;
      assert TokensBits(p, ts) + rest == TokenBits(p, ts[0]) + more;
      assert ts[0] in ts;
      FrontOfToken(p, ts[0], more);
      DecodeTokens(p, ts[1..], rest, Apply(out, ts[0]));
    }
  }

  /** The library's decoder recovers an encoding if and only if it does not lose the
      last token. */
  lemma StreamDecodeOfEncoding(p: Params, ts: seq<Token>, pad: seq<bool>)
    requires p.Valid() && AllEncodable(p, ts) && |pad| < 8
    ensures StreamDecode(p, TokensBits(p, ts) + pad, []) == Expand(ts, [])
            <==> !LosesLastToken(p, ts, |pad|)
  {
    if LosesLastToken(p, ts, |pad|) {
      var init, last := ts[..|ts| - 1], ts[|ts| - 1];
      assert ts == init + [last];
      AppendToken(p, init, last, []);
      var rest := TokenBits(p, last) + pad;
      assert TokensBits(p, ts) + pad == TokensBits(p, init) + rest;
      StreamDecodeTokens(p, init, rest, []);
      assert last in ts;
      assert |Apply(Expand(init, []), last)| > |Expand(init, [])|;
    } else {
      StreamDecodeTokens(p, ts, pad, []);
    }
  }

  /** At (4, 2), "aaaa" can be a literal and a 7-bit
      back-reference, 16 bits in all, and decoding two full bytes returns one "a". */
  lemma ShortBackrefDropped()
    ensures var p := Params(4, 2);
            var ts := [Literal(97), Backref(1, 3)];
            && p.Valid() && AllEncodable(p, ts)
            && |TokensBits(p, ts)| == 16
            && Expand(ts, []) == [97, 97, 97, 97]
            && StreamDecode(p, TokensBits(p, ts), []) == [97]
  {
    hide FromNat; hide Copy;
    var p := Params(4, 2);
    var ts := [Literal(97), Backref(1, 3)];
    var second := TokenBits(p, ts[1]);
    assert ts[1..] == [ts[1]] && [ts[1]][1..] == [];
    assert TokensBits(p, ts[1..]) == second + [] == second;
    Pow2Values();
    StreamDecodeToken(p, ts[0], second, []);
    CopyOfOne(97);
    assert [] + [ts[0]] == [ts[0]] && [ts[0]] + [ts[1]] == ts;
    AppendToken(p, [], ts[0], []);
    AppendToken(p, [ts[0]], ts[1], []);
    assert Expand([ts[0]], []) == [97];
    assert StreamDecode(p, second, [97]) == [97];
  }

  lemma CopyOfOne(c: byte)
    ensures Copy([c], 1, 3) == [c, c, c, c]
  {
    calc {
      Copy([c], 1, 3);
      Copy([c, c], 1, 2);
      Copy([c, c, c], 1, 1);
      [c, c, c, c];
    }
  }

  // ---------------------------------------------------------------------------
  // Size

  /** A token never takes more than nine bits a byte: a back-reference of three
      bytes or more pays off while w + l <= 26. */
  lemma {:induction false} SizeBound(p: Params, ts: seq<Token>, out: seq<byte>)
    requires p.w + p.l <= 26
    requires forall t <- ts :: t.Backref? ==> t.len >= 3
    ensures |TokensBits(p, ts)| <= 9 * (|Expand(ts, out)| - |out|)
    decreases |ts|
  {
    if |ts| > 0 {
      assert ts[0] in ts;
      SizeBound(p, ts[1..], Apply(out, ts[0]));
    }
  }

  /** A coarse bound for all parameters: each token takes at most 1 + w + l or nine
      bits and stands for at least one byte. */
  lemma {:induction false} CoarseSizeBound(p: Params, ts: seq<Token>, out: seq<byte>)
    requires p.Valid() && AllEncodable(p, ts)
    ensures |TokensBits(p, ts)| <= 31 * (|Expand(ts, out)| - |out|)
    decreases |ts|
  {
    if |ts| > 0 {
      assert ts[0] in ts;
      CoarseSizeBound(p, ts[1..], Apply(out, ts[0]));
    }
  }
}
