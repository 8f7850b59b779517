/** What the parts of SHA-256 mean, apart from their definitions (FIPS 180-4): selection and
    majority, the constants as roots of primes, and the length field as a number. */
module Sha256Meaning {
  import Bits
  import opened Sha256

  // ---------------------------------------------------------------------------
  // Selection and majority (section 4.1.2)

  /** Where x has a 1 the result has y's bit, and elsewhere z's. */
  lemma ChSelects(x: bv32, y: bv32, z: bv32)
    ensures Ch(x, y, z) & x == y & x
    ensures Ch(x, y, z) & !x == z & !x
  {
  }

  /** A 1 where two of the three have one. */
  lemma MajDecides(x: bv32, y: bv32, z: bv32)
    ensures Maj(x, y, z) == (x & y) | (x & z) | (y & z)
  {
  }

  // ---------------------------------------------------------------------------
  // The first 64 primes

  predicate Divides(d: nat, n: nat) {
    d != 0 && n % d == 0
  }

  ghost predicate IsPrime(n: nat) {
    n >= 2 && forall d | 2 <= d < n :: !Divides(d, n)
  }

  /** The i-th prime, from 0 on, below 312. */
  function Prime(i: nat): nat {
    if i < 8 then
      (match i case 0 => 2 case 1 => 3 case 2 => 5 case 3 => 7
       case 4 => 11 case 5 => 13 case 6 => 17 case _ => 19)
    else if i < 16 then
      (match i case 8 => 23 case 9 => 29 case 10 => 31 case 11 => 37
       case 12 => 41 case 13 => 43 case 14 => 47 case _ => 53)
    else if i < 24 then
      (match i case 16 => 59 case 17 => 61 case 18 => 67 case 19 => 71
       case 20 => 73 case 21 => 79 case 22 => 83 case _ => 89)
    else if i < 32 then
      (match i case 24 => 97 case 25 => 101 case 26 => 103 case 27 => 107
       case 28 => 109 case 29 => 113 case 30 => 127 case _ => 131)
    else if i < 40 then
      (match i case 32 => 137 case 33 => 139 case 34 => 149 case 35 => 151
       case 36 => 157 case 37 => 163 case 38 => 167 case _ => 173)
    else if i < 48 then
      (match i case 40 => 179 case 41 => 181 case 42 => 191 case 43 => 193
       case 44 => 197 case 45 => 199 case 46 => 211 case _ => 223)
    else if i < 56 then
      (match i case 48 => 227 case 49 => 229 case 50 => 233 case 51 => 239
       case 52 => 241 case 53 => 251 case 54 => 257 case _ => 263)
    else
      (match i case 56 => 269 case 57 => 271 case 58 => 277 case 59 => 281
       case 60 => 283 case 61 => 293 case 62 => 307 case _ => 311)
  }

  /** The least prime factor below 18, or else the number itself. */
  function Factor(n: nat): nat {
    if n % 2 == 0 then 2 else if n % 3 == 0 then 3 else if n % 5 == 0 then 5 else if n % 7 == 0 then 7
    else if n % 11 == 0 then 11 else if n % 13 == 0 then 13 else if n % 17 == 0 then 17 else n
  }

  /** Below 18^2 that decides whether a number is prime. */
  lemma Sieve(n: nat)
    requires 2 <= n < 324
    ensures IsPrime(n) <==> Factor(n) == n
  {
    if Factor(n) == n {
      forall d | 2 <= d < n
        ensures !Divides(d, n)
      {
        NoDivisor(n, d);
      }
    } else {
      FactorSmaller(n);
      assert Divides(Factor(n), n);
    }
  }

  lemma FactorSmaller(n: nat)
    requires 2 <= n && Factor(n) != n
    ensures 2 <= Factor(n) < n
  {
    assert n >= Factor(n);
  }

  lemma NoDivisor(n: nat, d: nat)
    requires 2 <= d < n < 324 && Factor(n) == n
    ensures !Divides(d, n)
  {
    hide Factor;
    if n % d == 0 {
      var e := n / d;
      assert n == d * e;
      if d < 18 {
        FactorOfFactor(n, d, e);
      } else {
        Cofactor(n, d, e);
        FactorOfFactor(n, e, d);
      }
    }
  }

  lemma Cofactor(n: nat, d: nat, e: nat)
    requires 18 <= d < n < 324 && n == d * e
    ensures 2 <= e < 18
  {
    if e >= 18 {
      LargeProduct(d, e);
    }
  }

  lemma LargeProduct(d: nat, e: nat)
    requires d >= 18 && e >= 18
    ensures d * e >= 324
  {
    assert d * e == 18 * e + (d - 18) * e;
  }

  /** A divisor below 18 has a prime factor, which divides n as well. */
  lemma FactorOfFactor(n: nat, d: nat, e: nat)
    requires 2 <= d < 18 && n == d * e && d < n
    ensures Factor(n) < n
  {
    hide Factor;
    var p := SmallFactor(d);
    assert n == p * (d / p) * e;
    Associate(p, d / p, e);
    Bits.DivUnique(n, p, d / p * e, 0);
    HasFactor(n, p);
  }

  lemma Associate(a: nat, b: nat, c: nat)
    ensures a * b * c == a * (b * c)
  {
  }

  function SmallFactor(d: nat): (p: nat)
    requires 2 <= d < 18
    ensures p in {2, 3, 5, 7, 11, 13, 17} && p * (d / p) == d && p <= d
  {
    if d % 2 == 0 then 2 else if d % 3 == 0 then 3 else if d % 5 == 0 then 5 else d
  }

  lemma HasFactor(n: nat, p: nat)
    requires p in {2, 3, 5, 7, 11, 13, 17} && n % p == 0 && p < n
    ensures Factor(n) < n
  {
  }

  /** No number in [n, end) is its own factor. */
  predicate NoneFrom(n: nat, end: nat)
    decreases end - n
  {
    n >= end || (Factor(n) < n && NoneFrom(n + 1, end))
  }

  lemma {:induction false} NotIn(n: nat, end: nat, k: nat)
    requires NoneFrom(n, end) && n <= k < end
    ensures Factor(k) < k
    decreases end - n
  {
    hide Factor;
    if n < k {
      NotIn(n + 1, end, k);
    }
  }

  /** p comes right after q in the sieve. */
  predicate Follows(q: nat, p: nat) {
    Factor(p) == p && NoneFrom(q + 1, p)
  }

  predicate IthFollows(i: nat)
    requires i > 0
  {
    Follows(Prime(i - 1), Prime(i))
  }

  lemma GapsFrom0()
    ensures Follows(2, 3) && Follows(3, 5) && Follows(5, 7) && Follows(7, 11)
    ensures Follows(11, 13) && Follows(13, 17) && Follows(17, 19)
  {
  }

  lemma GapsFrom8()
    ensures Follows(19, 23) && Follows(23, 29) && Follows(29, 31) && Follows(31, 37)
    ensures Follows(37, 41) && Follows(41, 43) && Follows(43, 47) && Follows(47, 53)
  {
  }

  lemma GapsFrom16()
    ensures Follows(53, 59) && Follows(59, 61) && Follows(61, 67) && Follows(67, 71)
    ensures Follows(71, 73) && Follows(73, 79) && Follows(79, 83) && Follows(83, 89)
  {
  }

  lemma GapsFrom24()
    ensures Follows(89, 97) && Follows(97, 101) && Follows(101, 103) && Follows(103, 107)
    ensures Follows(107, 109) && Follows(109, 113) && Follows(113, 127) && Follows(127, 131)
  {
  }

  lemma GapsFrom32()
    ensures Follows(131, 137) && Follows(137, 139) && Follows(139, 149) && Follows(149, 151)
    ensures Follows(151, 157) && Follows(157, 163) && Follows(163, 167) && Follows(167, 173)
  {
  }

  lemma GapsFrom40()
    ensures Follows(173, 179) && Follows(179, 181) && Follows(181, 191) && Follows(191, 193)
    ensures Follows(193, 197) && Follows(197, 199) && Follows(199, 211) && Follows(211, 223)
  {
  }

  lemma GapsFrom48()
    ensures Follows(223, 227) && Follows(227, 229) && Follows(229, 233) && Follows(233, 239)
    ensures Follows(239, 241) && Follows(241, 251) && Follows(251, 257) && Follows(257, 263)
  {
  }

  lemma GapsFrom56()
    ensures Follows(263, 269) && Follows(269, 271) && Follows(271, 277) && Follows(277, 281)
    ensures Follows(281, 283) && Follows(283, 293) && Follows(293, 307) && Follows(307, 311)
  {
  }

  lemma PrimesFrom0()
    ensures IthFollows(1) && IthFollows(2) && IthFollows(3) && IthFollows(4)
    ensures IthFollows(5) && IthFollows(6) && IthFollows(7)
  {
    hide Follows;
    GapsFrom0();
  }

  lemma PrimesFrom8()
    ensures IthFollows(8) && IthFollows(9) && IthFollows(10) && IthFollows(11)
    ensures IthFollows(12) && IthFollows(13) && IthFollows(14) && IthFollows(15)
  {
    hide Follows;
    GapsFrom8();
  }

  lemma PrimesFrom16()
    ensures IthFollows(16) && IthFollows(17) && IthFollows(18) && IthFollows(19)
    ensures IthFollows(20) && IthFollows(21) && IthFollows(22) && IthFollows(23)
  {
    hide Follows;
    GapsFrom16();
  }

  lemma PrimesFrom24()
    ensures IthFollows(24) && IthFollows(25) && IthFollows(26) && IthFollows(27)
    ensures IthFollows(28) && IthFollows(29) && IthFollows(30) && IthFollows(31)
  {
    hide Follows;
    GapsFrom24();
  }

  lemma PrimesFrom32()
    ensures IthFollows(32) && IthFollows(33) && IthFollows(34) && IthFollows(35)
    ensures IthFollows(36) && IthFollows(37) && IthFollows(38) && IthFollows(39)
  {
    hide Follows;
    GapsFrom32();
  }

  lemma PrimesFrom40()
    ensures IthFollows(40) && IthFollows(41) && IthFollows(42) && IthFollows(43)
    ensures IthFollows(44) && IthFollows(45) && IthFollows(46) && IthFollows(47)
  {
    hide Follows;
    GapsFrom40();
  }

  lemma PrimesFrom48()
    ensures IthFollows(48) && IthFollows(49) && IthFollows(50) && IthFollows(51)
    ensures IthFollows(52) && IthFollows(53) && IthFollows(54) && IthFollows(55)
  {
    hide Follows;
    GapsFrom48();
  }

  lemma PrimesFrom56()
    ensures IthFollows(56) && IthFollows(57) && IthFollows(58) && IthFollows(59)
    ensures IthFollows(60) && IthFollows(61) && IthFollows(62) && IthFollows(63)
  {
    hide Follows;
    GapsFrom56();
  }

  lemma PrimeFollows(i: nat)
    requires 0 < i < 64
    ensures Follows(Prime(i - 1), Prime(i)) && 2 <= Prime(i - 1) < Prime(i) < 324
  {
    hide Follows;
    if i < 8 {
      PrimesFrom0();
    } else if i < 16 {
      PrimesFrom8();
    } else if i < 24 {
      PrimesFrom16();
    } else if i < 32 {
      PrimesFrom24();
    } else if i < 40 {
      PrimesFrom32();
    } else if i < 48 {
      PrimesFrom40();
    } else if i < 56 {
      PrimesFrom48();
    } else {
      PrimesFrom56();
    }
  }

  /** Prime(i) is prime, and the next prime after the one before; the first is 2. */
  lemma PrimesInOrder(i: nat)
    requires i < 64
    ensures IsPrime(Prime(i))
    ensures forall n: nat | n < Prime(i) && (i > 0 ==> Prime(i - 1) < n) :: !IsPrime(n)
  {
    hide IsPrime; hide Factor; hide Prime;
    if i == 0 {
      FirstPrime();
    } else {
      PrimeFollows(i);
      Sieve(Prime(i));
      forall n: nat | Prime(i - 1) < n < Prime(i)
        ensures !IsPrime(n)
      {
        NotIn(Prime(i - 1) + 1, Prime(i), n);
        Sieve(n);
      }
    }
  }

  lemma FirstPrime()
    ensures Prime(0) == 2 && IsPrime(2) && !IsPrime(0) && !IsPrime(1)
  {
  }

  // ---------------------------------------------------------------------------
  // The constants (sections 4.2.2 and 5.3.3)

  /** 2^96 and 2^64: under a cube root or a square root they make 2^32. */
  const CUBE_SCALE: nat := 0x1_0000_0000_0000_0000_0000_0000
  const SQUARE_SCALE: nat := 0x1_0000_0000_0000_0000

  /** c is the integer part of the cube root of n. */
  predicate IsCubeRoot(c: nat, n: nat) {
    c * c * c <= n < (c + 1) * (c + 1) * (c + 1)
  }

  /** c is the integer part of the square root of n. */
  predicate IsSquareRoot(c: nat, n: nat) {
    c * c <= n < (c + 1) * (c + 1)
  }

  /** w has the first 32 bits of the fractional part of the cube root of p. */
  ghost predicate FractionOfCubeRoot(w: bv32, p: nat) {
    exists c: nat :: IsCubeRoot(c, CUBE_SCALE * p) && c % 0x1_0000_0000 == w as nat
  }

  /** And of the square root of p. */
  ghost predicate FractionOfSquareRoot(w: bv32, p: nat) {
    exists c: nat :: IsSquareRoot(c, SQUARE_SCALE * p) && c % 0x1_0000_0000 == w as nat
  }

  function Constant(t: nat): bv32
    requires t < 64
  {
    K256[t]
  }

  lemma ConstantsFrom0()
    ensures Constant(0) == 0x428a2f98 && Constant(1) == 0x71374491
    ensures Constant(2) == 0xb5c0fbcf && Constant(3) == 0xe9b5dba5
    ensures Constant(4) == 0x3956c25b && Constant(5) == 0x59f111f1
    ensures Constant(6) == 0x923f82a4 && Constant(7) == 0xab1c5ed5
  {
  }

  lemma ConstantsFrom8()
    ensures Constant(8) == 0xd807aa98 && Constant(9) == 0x12835b01
    ensures Constant(10) == 0x243185be && Constant(11) == 0x550c7dc3
    ensures Constant(12) == 0x72be5d74 && Constant(13) == 0x80deb1fe
    ensures Constant(14) == 0x9bdc06a7 && Constant(15) == 0xc19bf174
  {
  }

  lemma ConstantsFrom16()
    ensures Constant(16) == 0xe49b69c1 && Constant(17) == 0xefbe4786
    ensures Constant(18) == 0x0fc19dc6 && Constant(19) == 0x240ca1cc
    ensures Constant(20) == 0x2de92c6f && Constant(21) == 0x4a7484aa
    ensures Constant(22) == 0x5cb0a9dc && Constant(23) == 0x76f988da
  {
  }

  lemma ConstantsFrom24()
    ensures Constant(24) == 0x983e5152 && Constant(25) == 0xa831c66d
    ensures Constant(26) == 0xb00327c8 && Constant(27) == 0xbf597fc7
    ensures Constant(28) == 0xc6e00bf3 && Constant(29) == 0xd5a79147
    ensures Constant(30) == 0x06ca6351 && Constant(31) == 0x14292967
  {
  }

  lemma ConstantsFrom32()
    ensures Constant(32) == 0x27b70a85 && Constant(33) == 0x2e1b2138
    ensures Constant(34) == 0x4d2c6dfc && Constant(35) == 0x53380d13
    ensures Constant(36) == 0x650a7354 && Constant(37) == 0x766a0abb
    ensures Constant(38) == 0x81c2c92e && Constant(39) == 0x92722c85
  {
  }

  lemma ConstantsFrom40()
    ensures Constant(40) == 0xa2bfe8a1 && Constant(41) == 0xa81a664b
    ensures Constant(42) == 0xc24b8b70 && Constant(43) == 0xc76c51a3
    ensures Constant(44) == 0xd192e819 && Constant(45) == 0xd6990624
    ensures Constant(46) == 0xf40e3585 && Constant(47) == 0x106aa070
  {
  }

  lemma ConstantsFrom48()
    ensures Constant(48) == 0x19a4c116 && Constant(49) == 0x1e376c08
    ensures Constant(50) == 0x2748774c && Constant(51) == 0x34b0bcb5
    ensures Constant(52) == 0x391c0cb3 && Constant(53) == 0x4ed8aa4a
    ensures Constant(54) == 0x5b9cca4f && Constant(55) == 0x682e6ff3
  {
  }

  lemma ConstantsFrom56()
    ensures Constant(56) == 0x748f82ee && Constant(57) == 0x78a5636f
    ensures Constant(58) == 0x84c87814 && Constant(59) == 0x8cc70208
    ensures Constant(60) == 0x90befffa && Constant(61) == 0xa4506ceb
    ensures Constant(62) == 0xbef9a3f7 && Constant(63) == 0xc67178f2
  {
  }

  ghost predicate IthRoot(i: nat)
    requires i < 64
  {
    FractionOfCubeRoot(Constant(i), Prime(i))
  }

  lemma RootsFrom0()
    ensures IthRoot(0) && IthRoot(1) && IthRoot(2) && IthRoot(3)
    ensures IthRoot(4) && IthRoot(5) && IthRoot(6) && IthRoot(7)
  {
    hide Constant;
    ConstantsFrom0();
    assert IsCubeRoot(0x1_428a2f98, CUBE_SCALE * 2);
    assert IsCubeRoot(0x1_71374491, CUBE_SCALE * 3);
    assert IsCubeRoot(0x1_b5c0fbcf, CUBE_SCALE * 5);
    assert IsCubeRoot(0x1_e9b5dba5, CUBE_SCALE * 7);
    assert IsCubeRoot(0x2_3956c25b, CUBE_SCALE * 11);
    assert IsCubeRoot(0x2_59f111f1, CUBE_SCALE * 13);
    assert IsCubeRoot(0x2_923f82a4, CUBE_SCALE * 17);
    assert IsCubeRoot(0x2_ab1c5ed5, CUBE_SCALE * 19);
  }

  lemma RootsFrom8()
    ensures IthRoot(8) && IthRoot(9) && IthRoot(10) && IthRoot(11)
    ensures IthRoot(12) && IthRoot(13) && IthRoot(14) && IthRoot(15)
  {
    hide Constant;
    ConstantsFrom8();
    assert IsCubeRoot(0x2_d807aa98, CUBE_SCALE * 23);
    assert IsCubeRoot(0x3_12835b01, CUBE_SCALE * 29);
    assert IsCubeRoot(0x3_243185be, CUBE_SCALE * 31);
    assert IsCubeRoot(0x3_550c7dc3, CUBE_SCALE * 37);
    assert IsCubeRoot(0x3_72be5d74, CUBE_SCALE * 41);
    assert IsCubeRoot(0x3_80deb1fe, CUBE_SCALE * 43);
    assert IsCubeRoot(0x3_9bdc06a7, CUBE_SCALE * 47);
    assert IsCubeRoot(0x3_c19bf174, CUBE_SCALE * 53);
  }

  lemma RootsFrom16()
    ensures IthRoot(16) && IthRoot(17) && IthRoot(18) && IthRoot(19)
    ensures IthRoot(20) && IthRoot(21) && IthRoot(22) && IthRoot(23)
  {
    hide Constant;
    ConstantsFrom16();
    assert IsCubeRoot(0x3_e49b69c1, CUBE_SCALE * 59);
    assert IsCubeRoot(0x3_efbe4786, CUBE_SCALE * 61);
    assert IsCubeRoot(0x4_0fc19dc6, CUBE_SCALE * 67);
    assert IsCubeRoot(0x4_240ca1cc, CUBE_SCALE * 71);
    assert IsCubeRoot(0x4_2de92c6f, CUBE_SCALE * 73);
    assert IsCubeRoot(0x4_4a7484aa, CUBE_SCALE * 79);
    assert IsCubeRoot(0x4_5cb0a9dc, CUBE_SCALE * 83);
    assert IsCubeRoot(0x4_76f988da, CUBE_SCALE * 89);
  }

  lemma RootsFrom24()
    ensures IthRoot(24) && IthRoot(25) && IthRoot(26) && IthRoot(27)
    ensures IthRoot(28) && IthRoot(29) && IthRoot(30) && IthRoot(31)
  {
    hide Constant;
    ConstantsFrom24();
    assert IsCubeRoot(0x4_983e5152, CUBE_SCALE * 97);
    assert IsCubeRoot(0x4_a831c66d, CUBE_SCALE * 101);
    assert IsCubeRoot(0x4_b00327c8, CUBE_SCALE * 103);
    assert IsCubeRoot(0x4_bf597fc7, CUBE_SCALE * 107);
    assert IsCubeRoot(0x4_c6e00bf3, CUBE_SCALE * 109);
    assert IsCubeRoot(0x4_d5a79147, CUBE_SCALE * 113);
    assert IsCubeRoot(0x5_06ca6351, CUBE_SCALE * 127);
    assert IsCubeRoot(0x5_14292967, CUBE_SCALE * 131);
  }

  lemma RootsFrom32()
    ensures IthRoot(32) && IthRoot(33) && IthRoot(34) && IthRoot(35)
    ensures IthRoot(36) && IthRoot(37) && IthRoot(38) && IthRoot(39)
  {
    hide Constant;
    ConstantsFrom32();
    assert IsCubeRoot(0x5_27b70a85, CUBE_SCALE * 137);
    assert IsCubeRoot(0x5_2e1b2138, CUBE_SCALE * 139);
    assert IsCubeRoot(0x5_4d2c6dfc, CUBE_SCALE * 149);
    assert IsCubeRoot(0x5_53380d13, CUBE_SCALE * 151);
    assert IsCubeRoot(0x5_650a7354, CUBE_SCALE * 157);
    assert IsCubeRoot(0x5_766a0abb, CUBE_SCALE * 163);
    assert IsCubeRoot(0x5_81c2c92e, CUBE_SCALE * 167);
    assert IsCubeRoot(0x5_92722c85, CUBE_SCALE * 173);
  }

  lemma RootsFrom40()
    ensures IthRoot(40) && IthRoot(41) && IthRoot(42) && IthRoot(43)
    ensures IthRoot(44) && IthRoot(45) && IthRoot(46) && IthRoot(47)
  {
    hide Constant;
    ConstantsFrom40();
    assert IsCubeRoot(0x5_a2bfe8a1, CUBE_SCALE * 179);
    assert IsCubeRoot(0x5_a81a664b, CUBE_SCALE * 181);
    assert IsCubeRoot(0x5_c24b8b70, CUBE_SCALE * 191);
    assert IsCubeRoot(0x5_c76c51a3, CUBE_SCALE * 193);
    assert IsCubeRoot(0x5_d192e819, CUBE_SCALE * 197);
    assert IsCubeRoot(0x5_d6990624, CUBE_SCALE * 199);
    assert IsCubeRoot(0x5_f40e3585, CUBE_SCALE * 211);
    assert IsCubeRoot(0x6_106aa070, CUBE_SCALE * 223);
  }

  lemma RootsFrom48()
    ensures IthRoot(48) && IthRoot(49) && IthRoot(50) && IthRoot(51)
    ensures IthRoot(52) && IthRoot(53) && IthRoot(54) && IthRoot(55)
  {
    hide Constant;
    ConstantsFrom48();
    assert IsCubeRoot(0x6_19a4c116, CUBE_SCALE * 227);
    assert IsCubeRoot(0x6_1e376c08, CUBE_SCALE * 229);
    assert IsCubeRoot(0x6_2748774c, CUBE_SCALE * 233);
    assert IsCubeRoot(0x6_34b0bcb5, CUBE_SCALE * 239);
    assert IsCubeRoot(0x6_391c0cb3, CUBE_SCALE * 241);
    assert IsCubeRoot(0x6_4ed8aa4a, CUBE_SCALE * 251);
    assert IsCubeRoot(0x6_5b9cca4f, CUBE_SCALE * 257);
    assert IsCubeRoot(0x6_682e6ff3, CUBE_SCALE * 263);
  }

  lemma RootsFrom56()
    ensures IthRoot(56) && IthRoot(57) && IthRoot(58) && IthRoot(59)
    ensures IthRoot(60) && IthRoot(61) && IthRoot(62) && IthRoot(63)
  {
    hide Constant;
    ConstantsFrom56();
    assert IsCubeRoot(0x6_748f82ee, CUBE_SCALE * 269);
    assert IsCubeRoot(0x6_78a5636f, CUBE_SCALE * 271);
    assert IsCubeRoot(0x6_84c87814, CUBE_SCALE * 277);
    assert IsCubeRoot(0x6_8cc70208, CUBE_SCALE * 281);
    assert IsCubeRoot(0x6_90befffa, CUBE_SCALE * 283);
    assert IsCubeRoot(0x6_a4506ceb, CUBE_SCALE * 293);
    assert IsCubeRoot(0x6_bef9a3f7, CUBE_SCALE * 307);
    assert IsCubeRoot(0x6_c67178f2, CUBE_SCALE * 311);
  }

  lemma RootAt(i: nat)
    requires i < 64
    ensures IthRoot(i)
  {
    hide IthRoot;
    if i < 8 {
      RootsFrom0();
    } else if i < 16 {
      RootsFrom8();
    } else if i < 24 {
      RootsFrom16();
    } else if i < 32 {
      RootsFrom24();
    } else if i < 40 {
      RootsFrom32();
    } else if i < 48 {
      RootsFrom40();
    } else if i < 56 {
      RootsFrom48();
    } else {
      RootsFrom56();
    }
  }

  /** Round constant i is a fraction of the cube root of the i-th prime. */
  lemma ConstantsFromPrimes(i: nat)
    requires i < 64
    ensures FractionOfCubeRoot(K256[i], Prime(i))
  {
    hide FractionOfCubeRoot; hide Prime;
    RootAt(i);
  }

  /** The initial hash value comes from the square roots of the first eight primes. */
  lemma InitialFromPrimes()
    ensures FractionOfSquareRoot(INITIAL.a, Prime(0)) && FractionOfSquareRoot(INITIAL.b, Prime(1))
    ensures FractionOfSquareRoot(INITIAL.c, Prime(2)) && FractionOfSquareRoot(INITIAL.d, Prime(3))
    ensures FractionOfSquareRoot(INITIAL.e, Prime(4)) && FractionOfSquareRoot(INITIAL.f, Prime(5))
    ensures FractionOfSquareRoot(INITIAL.g, Prime(6)) && FractionOfSquareRoot(INITIAL.h, Prime(7))
  {
    assert IsSquareRoot(0x1_6a09e667, SQUARE_SCALE * 2);
    assert IsSquareRoot(0x1_bb67ae85, SQUARE_SCALE * 3);
    assert IsSquareRoot(0x2_3c6ef372, SQUARE_SCALE * 5);
    assert IsSquareRoot(0x2_a54ff53a, SQUARE_SCALE * 7);
    assert IsSquareRoot(0x3_510e527f, SQUARE_SCALE * 11);
    assert IsSquareRoot(0x3_9b05688c, SQUARE_SCALE * 13);
    assert IsSquareRoot(0x4_1f83d9ab, SQUARE_SCALE * 17);
    assert IsSquareRoot(0x4_5be0cd19, SQUARE_SCALE * 19);
  }

  // ---------------------------------------------------------------------------
  // The length field (section 5.1.1)

  /** The number that bytes write, most significant first. */
  function NumberOf(s: seq<bv8>): nat {
    if s == [] then 0 else 256 * NumberOf(s[..|s| - 1]) + s[|s| - 1] as nat
  }

  function Quotient(n: nat, place: nat): nat
    requires place > 0
  {
    n / place
  }

  lemma DivideTwice(n: nat, place: nat)
    requires place > 0
    ensures n / place / 256 == n / (256 * place)
  {
    var q, r, s := n / place / 256, n / place % 256, n % place;
    assert n == place * (256 * q + r) + s;
    Distribute(place, q, r);
    Bits.DivUnique(n, 256 * place, q, place * r + s);
  }

  lemma Distribute(place: nat, q: nat, r: nat)
    requires r < 256
    ensures place * (256 * q + r) == 256 * place * q + place * r && 0 <= place * r <= 255 * place
  {
    assert place * (256 * q + r) == place * (256 * q) + place * r;
    assert place * (256 * q) == 256 * place * q;
    assert place * 255 == place * r + place * (255 - r);
  }

  /** The eight bytes are the digits of the length to base 256: every field of eight
      bytes is that of the number it writes. */
  lemma LengthReadBack(s: seq<bv8>)
    requires |s| == 8
    ensures Length64(NumberOf(s)) == s
  {
    hide ByteOfLength; hide NumberOf; hide Quotient;
    var n := NumberOf(s);
    assert s[..8] == s;
    QuotientByOne(n);
    NumberStep(s, 7, n, 1);
    NumberStep(s, 6, n, 0x100);
    NumberStep(s, 5, n, 0x1_0000);
    NumberStep(s, 4, n, 0x100_0000);
    NumberStep(s, 3, n, 0x1_0000_0000);
    NumberStep(s, 2, n, 0x100_0000_0000);
    NumberStep(s, 1, n, 0x1_0000_0000_0000);
    NumberStep(s, 0, n, 0x100_0000_0000_0000);
  }

  lemma QuotientByOne(n: nat)
    ensures Quotient(n, 1) == n
  {
  }

  lemma NumberStep(s: seq<bv8>, i: nat, n: nat, place: nat)
    requires i < |s| && place > 0 && Quotient(n, place) == NumberOf(s[..i + 1])
    ensures ByteOfLength(n, place) == s[i] && Quotient(n, 256 * place) == NumberOf(s[..i])
  {
    var q, b := NumberOf(s[..i]), s[i] as nat;
    assert s[..i + 1][..i] == s[..i];
    assert n / place == 256 * q + b;
    DivideTwice(n, place);
    Bits.DivUnique(n / place, 256, q, b);
  }
}
