/** Bytes as integers, numbers as bit strings (most significant bit first), and
    byte streams as bit streams. Shared by the heatshrink modules. */
module Bits {
  type byte = x: int | 0 <= x < 256

  function Pow2(n: nat): (p: nat)
    ensures 1 <= p
  {
    if n == 0 then 1 else 2 * Pow2(n - 1)
  }

  lemma {:induction false} Pow2Monotone(m: nat, n: nat)
    requires m <= n
    ensures Pow2(m) <= Pow2(n)
    ensures m < n ==> 2 * Pow2(m) <= Pow2(n)
  {
    if m < n {
      Pow2Monotone(m, n - 1);
    }
  }

  lemma Pow2Values()
    ensures Pow2(0) == 1 && Pow2(1) == 2 && Pow2(2) == 4 && Pow2(3) == 8 && Pow2(4) == 16
    ensures Pow2(5) == 32 && Pow2(6) == 64 && Pow2(7) == 128 && Pow2(8) == 256
  {
  }

  lemma {:induction false} Pow2Add(m: nat, n: nat)
    ensures Pow2(m + n) == Pow2(m) * Pow2(n)
  {
    if n > 0 {
      Pow2Add(m, n - 1);
      assert Pow2(m + n) == 2 * Pow2(m + (n - 1));
      assert 2 * (Pow2(m) * Pow2(n - 1)) == Pow2(m) * (2 * Pow2(n - 1));
    }
  }

  /** The low n bits of x, most significant bit first. */
  function FromNat(x: nat, n: nat): (s: seq<bool>)
    ensures |s| == n
  {
    if n == 0 then [] else FromNat(x / 2, n - 1) + [x % 2 == 1]
  }

  lemma Associative(x: int, y: int, z: int)
    ensures x * (y * z) == y * (x * z)
  {
  }

  /** The number a bit string denotes, most significant bit first. */
  function ToNat(s: seq<bool>): (x: nat)
    ensures x < Pow2(|s|)
  {
    if |s| == 0 then 0 else 2 * ToNat(s[..|s| - 1]) + (if s[|s| - 1] then 1 else 0)
  }

  lemma {:induction false} ToNatFromNat(x: nat, n: nat)
    requires x < Pow2(n)
    ensures ToNat(FromNat(x, n)) == x
  {
    if n > 0 {
      ToNatFromNat(x / 2, n - 1);
      assert FromNat(x, n)[..n - 1] == FromNat(x / 2, n - 1);
    }
  }

  lemma {:induction false} ToNatSnoc(s: seq<bool>, b: bool)
    ensures ToNat(s + [b]) == 2 * ToNat(s) + (if b then 1 else 0)
  {
    assert (s + [b])[..|s|] == s;
  }

  lemma {:induction false} ToNatConcat(a: seq<bool>, b: seq<bool>)
    ensures ToNat(a + b) == ToNat(a) * Pow2(|b|) + ToNat(b)
  {
    if |b| == 0 {
      assert a + b == a;
    } else {
      var n := |b| - 1;
      ToNatConcat(a, b[..n]);
      assert a + b == (a + b[..n]) + [b[n]];
      ToNatSnoc(a + b[..n], b[n]);
      Associative(2, ToNat(a), Pow2(n));
    }
  }

  /** Testing one bit of x with the mask Pow2(n - 1) reads the head of the low n bits. */
  lemma {:induction false} FromNatHead(x: nat, n: nat)
    requires n > 0
    ensures FromNat(x, n) == [(x / Pow2(n - 1)) % 2 == 1] + FromNat(x, n - 1)
  {
    if n > 1 {
      FromNatHead(x / 2, n - 1);
      DivDiv(x, Pow2(n - 2));
      assert FromNat(x, n) == FromNat(x / 2, n - 1) + [x % 2 == 1];
      assert FromNat(x, n - 1) == FromNat(x / 2, n - 2) + [x % 2 == 1];
    }
  }

  lemma DivDiv(x: nat, p: nat)
    requires p > 0
    ensures (x / 2) / p == x / (2 * p)
  {
    var q := (x / 2) / p;
    var r := (x / 2) % p;
    assert x == 2 * p * q + (2 * r + x % 2);
    assert 0 <= 2 * r + x % 2 < 2 * p;
    DivUnique(x, 2 * p, q, 2 * r + x % 2);
  }

  lemma MultipleAtLeast(d: int, k: int)
    requires d > 0 && k >= 1
    ensures d * k >= d
  {
  }

  lemma MultipleNonNegative(d: int, k: int)
    requires d > 0 && k >= 0
    ensures d * k >= 0
  {
  }

  lemma DivUnique(x: int, d: int, q: int, r: int)
    requires d > 0 && x == d * q + r && 0 <= r < d
    ensures x / d == q && x % d == r
  {
    DifferenceOfMultiples(d, x / d, q);
    if x / d > q {
      MultipleAtLeast(d, x / d - q);
    } else if x / d < q {
      MultipleAtLeast(d, q - x / d);
    }
  }

  lemma DifferenceOfMultiples(d: int, a: int, b: int)
    ensures d * a - d * b == d * (a - b) == -(d * (b - a))
  {
  }

  /** Indices less than a window apart occupy different slots of the window. */
  lemma ModDistinct(i: int, n: int, w: int)
    requires w > 0 && n - w < i < n
    ensures i % w != n % w
  {
    if i % w == n % w {
      var a, b := n / w, i / w;
      assert n == w * a + n % w && i == w * b + i % w;
      DifferenceOfMultiples(w, a, b);
      if a > b {
        MultipleAtLeast(w, a - b);
      } else if a < b {
        MultipleAtLeast(w, b - a);
      }
    }
  }

  /** Wrapping a counter at a multiple of the window size does not move its slot. */
  lemma ModOfWrapped(n: int, k: int, w: int, m: int)
    requires w > 0 && m > 0
    ensures (n % (w * m) - k) % w == (n - k) % w
  {
    var q := n / (w * m);
    assert n - k == w * (m * q) + (n % (w * m) - k) by {
      assert (w * m) * q == w * (m * q);
    }
    var y := n % (w * m) - k;
    assert n - k == w * (m * q + y / w) + y % w;
    DivUnique(n - k, w, m * q + y / w, y % w);
  }

  /** A byte stream as a bit stream. */
  function OfBytes(s: seq<byte>): (b: seq<bool>)
    ensures |b| == 8 * |s|
  {
    if |s| == 0 then [] else FromNat(s[0], 8) + OfBytes(s[1..])
  }

  lemma {:induction false} OfBytesConcat(a: seq<byte>, b: seq<byte>)
    ensures OfBytes(a + b) == OfBytes(a) + OfBytes(b)
  {
    if |a| == 0 {
      assert a + b == b;
    } else {
      OfBytesConcat(a[1..], b);
      assert (a + b)[1..] == a[1..] + b;
    }
  }

  lemma OfBytesSnoc(a: seq<byte>, c: byte)
    ensures OfBytes(a + [c]) == OfBytes(a) + FromNat(c, 8)
  {
    OfBytesConcat(a, [c]);
    assert OfBytes([c]) == FromNat(c, 8) + OfBytes([]);
  }

  function Min(a: nat, b: nat): nat {
    if a < b then a else b
  }

  function Pred(n: nat): nat {
    if n == 0 then 0 else n - 1
  }

  lemma {:induction false} FromNatToNat(s: seq<bool>)
    ensures FromNat(ToNat(s), |s|) == s
  {
    if |s| > 0 {
      FromNatToNat(s[..|s| - 1]);
      assert s == s[..|s| - 1] + [s[|s| - 1]];
    }
  }

  lemma {:induction false} FromNatSplit(x: nat, m: nat, n: nat)
    ensures x / Pow2(n) >= 0
    ensures FromNat(x, m + n) == FromNat(x / Pow2(n), m) + FromNat(x, n)
  {
    if n > 0 {
      FromNatSplit(x / 2, m, n - 1);
      DivDiv(x, Pow2(n - 1));
    }
  }

  lemma {:induction false} LowByteOnly(x: nat, y: nat, n: nat, q: nat)
    requires x == q * Pow2(n) + y
    ensures FromNat(x, n) == FromNat(y, n)
  {
    if n > 0 {
      assert q * Pow2(n) == 2 * (q * Pow2(n - 1));
      LowByteOnly(x / 2, y / 2, n - 1, q);
    }
  }

  lemma Reassociate<T>(a: seq<T>, b: seq<T>, c: seq<T>)
    ensures (a + b) + c == a + (b + c)
  {
  }

  lemma SubSlice<T>(s: seq<T>, a: nat, b: nat, c: nat, d: nat)
    requires a <= b <= |s| && c <= d <= b - a
    ensures s[a..b][c..d] == s[a + c..a + d]
  {
    var l, r := s[a..b][c..d], s[a + c..a + d];
    forall i | 0 <= i < d - c
      ensures l[i] == r[i]
    {
      assert l[i] == s[a..b][c + i] == s[a + (c + i)];
    }
  }

  lemma SplitSlice<T>(s: seq<T>, a: nat, b: nat, c: nat)
    requires a <= b <= c <= |s|
    ensures s[a..c] == s[a..b] + s[b..c]
  {
  }
}
