/** The digest of "abc", as the examples of FIPS 180-4 have it: the words of the schedule,
    and the working variables after each round. */
module Sha256Example {
  import Bits
  import opened Sha256
  import opened Sha256Meaning

  // The sums of rotations as plain shifts, which are quick on constants.

  function Sum3(x: bv32, y: bv32, z: bv32): bv32 {
    x ^ y ^ z
  }

  lemma BigSums(x: bv32)
    ensures BigSigma0(x) == Sum3(Rotr(2, x), Rotr(13, x), Rotr(22, x))
    ensures BigSigma1(x) == Sum3(Rotr(6, x), Rotr(11, x), Rotr(25, x))
  {
    hide Rotr;
  }

  lemma SmallSums(x: bv32)
    ensures SmallSigma0(x) == Sum3(Rotr(7, x), Rotr(18, x), x >> 3)
    ensures SmallSigma1(x) == Sum3(Rotr(17, x), Rotr(19, x), x >> 10)
  {
    hide Rotr;
  }

  lemma BigRotations(x: bv32)
    ensures Rotr(2, x) == (x >> 2) | (x << 30) && Rotr(13, x) == (x >> 13) | (x << 19)
    ensures Rotr(22, x) == (x >> 22) | (x << 10) && Rotr(6, x) == (x >> 6) | (x << 26)
    ensures Rotr(11, x) == (x >> 11) | (x << 21) && Rotr(25, x) == (x >> 25) | (x << 7)
  {
  }

  lemma SmallRotations(x: bv32)
    ensures Rotr(7, x) == (x >> 7) | (x << 25) && Rotr(18, x) == (x >> 18) | (x << 14)
    ensures Rotr(17, x) == (x >> 17) | (x << 15) && Rotr(19, x) == (x >> 19) | (x << 13)
  {
  }

  function Big0(x: bv32): bv32 {
    Sum3((x >> 2) | (x << 30), (x >> 13) | (x << 19), (x >> 22) | (x << 10))
  }

  function Big1(x: bv32): bv32 {
    Sum3((x >> 6) | (x << 26), (x >> 11) | (x << 21), (x >> 25) | (x << 7))
  }

  function Small0(x: bv32): bv32 {
    Sum3((x >> 7) | (x << 25), (x >> 18) | (x << 14), x >> 3)
  }

  function Small1(x: bv32): bv32 {
    Sum3((x >> 17) | (x << 15), (x >> 19) | (x << 13), x >> 10)
  }

  lemma BigShifts(x: bv32)
    ensures BigSigma0(x) == Big0(x) && BigSigma1(x) == Big1(x)
  {
    hide Rotr; hide Sum3; hide BigSigma0; hide BigSigma1;
    BigRotations(x);
    BigSums(x);
  }

  lemma SmallShifts(x: bv32)
    ensures SmallSigma0(x) == Small0(x) && SmallSigma1(x) == Small1(x)
  {
    hide Rotr; hide Sum3; hide SmallSigma0; hide SmallSigma1;
    SmallRotations(x);
    SmallSums(x);
  }

  /** The next word of the schedule, from the four it is made of. */
  function NextWritten(w2: bv32, w7: bv32, w15: bv32, w16: bv32): bv32 {
    Add(Add(Add(Small1(w2), w7), Small0(w15)), w16)
  }

  /** One round, written out. */
  function RoundWritten(r: Regs, k: bv32, w: bv32): Regs {
    var t1 := Add(Add(Add(Add(r.h, Big1(r.e)), Ch(r.e, r.f, r.g)), k), w);
    var t2 := Add(Big0(r.a), Maj(r.a, r.b, r.c));
    Regs(Add(t1, t2), r.a, r.b, r.c, Add(r.d, t1), r.e, r.f, r.g)
  }

  lemma WordStep(m: Words, t: nat, w2: bv32, w7: bv32, w15: bv32, w16: bv32, w: bv32)
    requires 16 <= t && ScheduleWord(m, t - 2) == w2 && ScheduleWord(m, t - 7) == w7
    requires ScheduleWord(m, t - 15) == w15 && ScheduleWord(m, t - 16) == w16 && w == NextWritten(w2, w7, w15, w16)
    ensures ScheduleWord(m, t) == w
  {
    hide Add; hide Small0; hide Small1; hide SmallSigma0; hide SmallSigma1;
    SmallShifts(w2);
    SmallShifts(w15);
  }

  lemma RoundStep(m: Words, t: nat, k: bv32, w: bv32, r: Regs, next: Regs)
    requires t < 64 && Rounds(INITIAL, m, t) == r && Constant(t) == k && ScheduleWord(m, t) == w
    requires next == RoundWritten(r, k, w)
    ensures Rounds(INITIAL, m, t + 1) == next
  {
    hide Add; hide Big0; hide Big1; hide BigSigma0; hide BigSigma1; hide ScheduleWord; hide Ch; hide Maj;
    BigShifts(r.a);
    BigShifts(r.e);
  }

  const EXAMPLE: seq<bv8> := [0x61, 0x62, 0x63]

  function ExampleBlock(): MessageBlock {
    EXAMPLE + [0x80] + Zeros(59) + [0x18]
  }

  /** The block, word by word. */
  ghost predicate IsExample(m: Words) {
    m[0] == 0x61626380 && m[15] == 0x18 && forall i | 0 < i < 15 :: m[i] == 0
  }

  lemma ExampleWords()
    ensures IsExample(WordsOf(ExampleBlock()))
  {
    hide BigEndian;
    var s := ExampleBlock();
    assert s[0] == 0x61 && s[1] == 0x62 && s[2] == 0x63 && s[3] == 0x80;
    assert s[60] == 0 && s[61] == 0 && s[62] == 0 && s[63] == 0x18;
    assert forall i | 0 < i < 15 :: s[4 * i] == 0 && s[4 * i + 1] == 0 && s[4 * i + 2] == 0 && s[4 * i + 3] == 0;
    ExampleEndian();
  }

  lemma ExampleEndian()
    ensures BigEndian(0x61, 0x62, 0x63, 0x80) == 0x61626380
    ensures BigEndian(0, 0, 0, 0) == 0 && BigEndian(0, 0, 0, 0x18) == 0x18
  {
  }

  lemma WordsFrom16(m: Words)
    requires IsExample(m)
    ensures ScheduleWord(m, 16) == 0x61626380 && ScheduleWord(m, 17) == 0x000f0000
    ensures ScheduleWord(m, 18) == 0x7da86405 && ScheduleWord(m, 19) == 0x600003c6
    ensures ScheduleWord(m, 20) == 0x3e9d7b78 && ScheduleWord(m, 21) == 0x0183fc00
    ensures ScheduleWord(m, 22) == 0x12dcbfdb && ScheduleWord(m, 23) == 0xe2e2c38e
  {
    hide ScheduleWord;
    FirstWords(m);
    WordStep(m, 16, 0x00000000, 0x00000000, 0x00000000, 0x61626380, 0x61626380);
    WordStep(m, 17, 0x00000018, 0x00000000, 0x00000000, 0x00000000, 0x000f0000);
    WordStep(m, 18, 0x61626380, 0x00000000, 0x00000000, 0x00000000, 0x7da86405);
    WordStep(m, 19, 0x000f0000, 0x00000000, 0x00000000, 0x00000000, 0x600003c6);
    WordStep(m, 20, 0x7da86405, 0x00000000, 0x00000000, 0x00000000, 0x3e9d7b78);
    WordStep(m, 21, 0x600003c6, 0x00000000, 0x00000000, 0x00000000, 0x0183fc00);
    WordStep(m, 22, 0x3e9d7b78, 0x00000018, 0x00000000, 0x00000000, 0x12dcbfdb);
    WordStep(m, 23, 0x0183fc00, 0x61626380, 0x00000000, 0x00000000, 0xe2e2c38e);
  }

  lemma WordsFrom24(m: Words)
    requires IsExample(m)
    ensures ScheduleWord(m, 24) == 0xc8215c1a && ScheduleWord(m, 25) == 0xb73679a2
    ensures ScheduleWord(m, 26) == 0xe5bc3909 && ScheduleWord(m, 27) == 0x32663c5b
    ensures ScheduleWord(m, 28) == 0x9d209d67 && ScheduleWord(m, 29) == 0xec8726cb
    ensures ScheduleWord(m, 30) == 0x702138a4 && ScheduleWord(m, 31) == 0xd3b7973b
  {
    hide ScheduleWord;
    FirstWords(m);
    WordsFrom16(m);
    WordStep(m, 24, 0x12dcbfdb, 0x000f0000, 0x00000000, 0x00000000, 0xc8215c1a);
    WordStep(m, 25, 0xe2e2c38e, 0x7da86405, 0x00000000, 0x00000000, 0xb73679a2);
    WordStep(m, 26, 0xc8215c1a, 0x600003c6, 0x00000000, 0x00000000, 0xe5bc3909);
    WordStep(m, 27, 0xb73679a2, 0x3e9d7b78, 0x00000000, 0x00000000, 0x32663c5b);
    WordStep(m, 28, 0xe5bc3909, 0x0183fc00, 0x00000000, 0x00000000, 0x9d209d67);
    WordStep(m, 29, 0x32663c5b, 0x12dcbfdb, 0x00000000, 0x00000000, 0xec8726cb);
    WordStep(m, 30, 0x9d209d67, 0xe2e2c38e, 0x00000018, 0x00000000, 0x702138a4);
    WordStep(m, 31, 0xec8726cb, 0xc8215c1a, 0x61626380, 0x00000018, 0xd3b7973b);
  }

  lemma WordsFrom32(m: Words)
    requires IsExample(m)
    ensures ScheduleWord(m, 32) == 0x93f5997f && ScheduleWord(m, 33) == 0x3b68ba73
    ensures ScheduleWord(m, 34) == 0xaff4ffc1 && ScheduleWord(m, 35) == 0xf10a5c62
    ensures ScheduleWord(m, 36) == 0x0a8b3996 && ScheduleWord(m, 37) == 0x72af830a
    ensures ScheduleWord(m, 38) == 0x9409e33e && ScheduleWord(m, 39) == 0x24641522
  {
    hide ScheduleWord;
    WordsFrom24(m);
    WordsFrom16(m);
    WordStep(m, 32, 0x702138a4, 0xb73679a2, 0x000f0000, 0x61626380, 0x93f5997f);
    WordStep(m, 33, 0xd3b7973b, 0xe5bc3909, 0x7da86405, 0x000f0000, 0x3b68ba73);
    WordStep(m, 34, 0x93f5997f, 0x32663c5b, 0x600003c6, 0x7da86405, 0xaff4ffc1);
    WordStep(m, 35, 0x3b68ba73, 0x9d209d67, 0x3e9d7b78, 0x600003c6, 0xf10a5c62);
    WordStep(m, 36, 0xaff4ffc1, 0xec8726cb, 0x0183fc00, 0x3e9d7b78, 0x0a8b3996);
    WordStep(m, 37, 0xf10a5c62, 0x702138a4, 0x12dcbfdb, 0x0183fc00, 0x72af830a);
    WordStep(m, 38, 0x0a8b3996, 0xd3b7973b, 0xe2e2c38e, 0x12dcbfdb, 0x9409e33e);
    WordStep(m, 39, 0x72af830a, 0x93f5997f, 0xc8215c1a, 0xe2e2c38e, 0x24641522);
  }

  lemma WordsFrom40(m: Words)
    requires IsExample(m)
    ensures ScheduleWord(m, 40) == 0x9f47bf94 && ScheduleWord(m, 41) == 0xf0a64f5a
    ensures ScheduleWord(m, 42) == 0x3e246a79 && ScheduleWord(m, 43) == 0x27333ba3
    ensures ScheduleWord(m, 44) == 0x0c4763f2 && ScheduleWord(m, 45) == 0x840abf27
    ensures ScheduleWord(m, 46) == 0x7a290d5d && ScheduleWord(m, 47) == 0x065c43da
  {
    hide ScheduleWord;
    WordsFrom32(m);
    WordsFrom24(m);
    WordStep(m, 40, 0x9409e33e, 0x3b68ba73, 0xb73679a2, 0xc8215c1a, 0x9f47bf94);
    WordStep(m, 41, 0x24641522, 0xaff4ffc1, 0xe5bc3909, 0xb73679a2, 0xf0a64f5a);
    WordStep(m, 42, 0x9f47bf94, 0xf10a5c62, 0x32663c5b, 0xe5bc3909, 0x3e246a79);
    WordStep(m, 43, 0xf0a64f5a, 0x0a8b3996, 0x9d209d67, 0x32663c5b, 0x27333ba3);
    WordStep(m, 44, 0x3e246a79, 0x72af830a, 0xec8726cb, 0x9d209d67, 0x0c4763f2);
    WordStep(m, 45, 0x27333ba3, 0x9409e33e, 0x702138a4, 0xec8726cb, 0x840abf27);
    WordStep(m, 46, 0x0c4763f2, 0x24641522, 0xd3b7973b, 0x702138a4, 0x7a290d5d);
    WordStep(m, 47, 0x840abf27, 0x9f47bf94, 0x93f5997f, 0xd3b7973b, 0x065c43da);
  }

  lemma WordsFrom48(m: Words)
    requires IsExample(m)
    ensures ScheduleWord(m, 48) == 0xfb3e89cb && ScheduleWord(m, 49) == 0xcc7617db
    ensures ScheduleWord(m, 50) == 0xb9e66c34 && ScheduleWord(m, 51) == 0xa9993667
    ensures ScheduleWord(m, 52) == 0x84badedd && ScheduleWord(m, 53) == 0xc21462bc
    ensures ScheduleWord(m, 54) == 0x1487472c && ScheduleWord(m, 55) == 0xb20f7a99
  {
    hide ScheduleWord;
    WordsFrom40(m);
    WordsFrom32(m);
    WordStep(m, 48, 0x7a290d5d, 0xf0a64f5a, 0x3b68ba73, 0x93f5997f, 0xfb3e89cb);
    WordStep(m, 49, 0x065c43da, 0x3e246a79, 0xaff4ffc1, 0x3b68ba73, 0xcc7617db);
    WordStep(m, 50, 0xfb3e89cb, 0x27333ba3, 0xf10a5c62, 0xaff4ffc1, 0xb9e66c34);
    WordStep(m, 51, 0xcc7617db, 0x0c4763f2, 0x0a8b3996, 0xf10a5c62, 0xa9993667);
    WordStep(m, 52, 0xb9e66c34, 0x840abf27, 0x72af830a, 0x0a8b3996, 0x84badedd);
    WordStep(m, 53, 0xa9993667, 0x7a290d5d, 0x9409e33e, 0x72af830a, 0xc21462bc);
    WordStep(m, 54, 0x84badedd, 0x065c43da, 0x24641522, 0x9409e33e, 0x1487472c);
    WordStep(m, 55, 0xc21462bc, 0xfb3e89cb, 0x9f47bf94, 0x24641522, 0xb20f7a99);
  }

  lemma WordsFrom56(m: Words)
    requires IsExample(m)
    ensures ScheduleWord(m, 56) == 0xef57b9cd && ScheduleWord(m, 57) == 0xebe6b238
    ensures ScheduleWord(m, 58) == 0x9fe3095e && ScheduleWord(m, 59) == 0x78bc8d4b
    ensures ScheduleWord(m, 60) == 0xa43fcf15 && ScheduleWord(m, 61) == 0x668b2ff8
    ensures ScheduleWord(m, 62) == 0xeeaba2cc && ScheduleWord(m, 63) == 0x12b1edeb
  {
    hide ScheduleWord;
    WordsFrom48(m);
    WordsFrom40(m);
    WordStep(m, 56, 0x1487472c, 0xcc7617db, 0xf0a64f5a, 0x9f47bf94, 0xef57b9cd);
    WordStep(m, 57, 0xb20f7a99, 0xb9e66c34, 0x3e246a79, 0xf0a64f5a, 0xebe6b238);
    WordStep(m, 58, 0xef57b9cd, 0xa9993667, 0x27333ba3, 0x3e246a79, 0x9fe3095e);
    WordStep(m, 59, 0xebe6b238, 0x84badedd, 0x0c4763f2, 0x27333ba3, 0x78bc8d4b);
    WordStep(m, 60, 0x9fe3095e, 0xc21462bc, 0x840abf27, 0x0c4763f2, 0xa43fcf15);
    WordStep(m, 61, 0x78bc8d4b, 0x1487472c, 0x7a290d5d, 0x840abf27, 0x668b2ff8);
    WordStep(m, 62, 0xa43fcf15, 0xb20f7a99, 0x065c43da, 0x7a290d5d, 0xeeaba2cc);
    WordStep(m, 63, 0x668b2ff8, 0xef57b9cd, 0xfb3e89cb, 0x065c43da, 0x12b1edeb);
  }

  lemma FirstWords(m: Words)
    requires IsExample(m)
    ensures ScheduleWord(m, 0) == 0x61626380 && ScheduleWord(m, 15) == 0x18
    ensures forall t | 0 < t < 15 :: ScheduleWord(m, t) == 0
  {
  }

  lemma NoRounds(m: Words)
    ensures Rounds(INITIAL, m, 0)
            == Regs(0x6a09e667, 0xbb67ae85, 0x3c6ef372, 0xa54ff53a, 0x510e527f, 0x9b05688c, 0x1f83d9ab, 0x5be0cd19)
  {
  }

  lemma RoundsFrom0(m: Words)
    requires IsExample(m)
    ensures Rounds(INITIAL, m, 8)
            == Regs(0x85a07b5f, 0xe5030380, 0x2b4209f5, 0x04409a6a, 0x0c657a79, 0x9b27a401, 0x714260ad, 0x43ada245)
  {
    hide Constant; hide ScheduleWord; hide Rounds;
    ConstantsFrom0();
    FirstWords(m);
    NoRounds(m);
    RoundStep(m, 0, 0x428a2f98, 0x61626380,
              Regs(0x6a09e667, 0xbb67ae85, 0x3c6ef372, 0xa54ff53a, 0x510e527f, 0x9b05688c, 0x1f83d9ab, 0x5be0cd19),
              Regs(0x5d6aebcd, 0x6a09e667, 0xbb67ae85, 0x3c6ef372, 0xfa2a4622, 0x510e527f, 0x9b05688c, 0x1f83d9ab));
    RoundStep(m, 1, 0x71374491, 0x00000000,
              Regs(0x5d6aebcd, 0x6a09e667, 0xbb67ae85, 0x3c6ef372, 0xfa2a4622, 0x510e527f, 0x9b05688c, 0x1f83d9ab),
              Regs(0x5a6ad9ad, 0x5d6aebcd, 0x6a09e667, 0xbb67ae85, 0x78ce7989, 0xfa2a4622, 0x510e527f, 0x9b05688c));
    RoundStep(m, 2, 0xb5c0fbcf, 0x00000000,
              Regs(0x5a6ad9ad, 0x5d6aebcd, 0x6a09e667, 0xbb67ae85, 0x78ce7989, 0xfa2a4622, 0x510e527f, 0x9b05688c),
              Regs(0xc8c347a7, 0x5a6ad9ad, 0x5d6aebcd, 0x6a09e667, 0xf92939eb, 0x78ce7989, 0xfa2a4622, 0x510e527f));
    RoundStep(m, 3, 0xe9b5dba5, 0x00000000,
              Regs(0xc8c347a7, 0x5a6ad9ad, 0x5d6aebcd, 0x6a09e667, 0xf92939eb, 0x78ce7989, 0xfa2a4622, 0x510e527f),
              Regs(0xd550f666, 0xc8c347a7, 0x5a6ad9ad, 0x5d6aebcd, 0x24e00850, 0xf92939eb, 0x78ce7989, 0xfa2a4622));
    RoundStep(m, 4, 0x3956c25b, 0x00000000,
              Regs(0xd550f666, 0xc8c347a7, 0x5a6ad9ad, 0x5d6aebcd, 0x24e00850, 0xf92939eb, 0x78ce7989, 0xfa2a4622),
              Regs(0x04409a6a, 0xd550f666, 0xc8c347a7, 0x5a6ad9ad, 0x43ada245, 0x24e00850, 0xf92939eb, 0x78ce7989));
    RoundStep(m, 5, 0x59f111f1, 0x00000000,
              Regs(0x04409a6a, 0xd550f666, 0xc8c347a7, 0x5a6ad9ad, 0x43ada245, 0x24e00850, 0xf92939eb, 0x78ce7989),
              Regs(0x2b4209f5, 0x04409a6a, 0xd550f666, 0xc8c347a7, 0x714260ad, 0x43ada245, 0x24e00850, 0xf92939eb));
    RoundStep(m, 6, 0x923f82a4, 0x00000000,
              Regs(0x2b4209f5, 0x04409a6a, 0xd550f666, 0xc8c347a7, 0x714260ad, 0x43ada245, 0x24e00850, 0xf92939eb),
              Regs(0xe5030380, 0x2b4209f5, 0x04409a6a, 0xd550f666, 0x9b27a401, 0x714260ad, 0x43ada245, 0x24e00850));
    RoundStep(m, 7, 0xab1c5ed5, 0x00000000,
              Regs(0xe5030380, 0x2b4209f5, 0x04409a6a, 0xd550f666, 0x9b27a401, 0x714260ad, 0x43ada245, 0x24e00850),
              Regs(0x85a07b5f, 0xe5030380, 0x2b4209f5, 0x04409a6a, 0x0c657a79, 0x9b27a401, 0x714260ad, 0x43ada245));
  }

  lemma RoundsFrom8(m: Words)
    requires IsExample(m)
    ensures Rounds(INITIAL, m, 16)
            == Regs(0xb0fa238e, 0xc0645fde, 0xd932eb16, 0x87912990, 0x07590dcd, 0x0b92f20c, 0x745a48de, 0x1e578218)
  {
    hide Constant; hide ScheduleWord; hide Rounds;
    ConstantsFrom8();
    FirstWords(m);
    RoundsFrom0(m);
    RoundStep(m, 8, 0xd807aa98, 0x00000000,
              Regs(0x85a07b5f, 0xe5030380, 0x2b4209f5, 0x04409a6a, 0x0c657a79, 0x9b27a401, 0x714260ad, 0x43ada245),
              Regs(0x8e04ecb9, 0x85a07b5f, 0xe5030380, 0x2b4209f5, 0x32ca2d8c, 0x0c657a79, 0x9b27a401, 0x714260ad));
    RoundStep(m, 9, 0x12835b01, 0x00000000,
              Regs(0x8e04ecb9, 0x85a07b5f, 0xe5030380, 0x2b4209f5, 0x32ca2d8c, 0x0c657a79, 0x9b27a401, 0x714260ad),
              Regs(0x8c87346b, 0x8e04ecb9, 0x85a07b5f, 0xe5030380, 0x1cc92596, 0x32ca2d8c, 0x0c657a79, 0x9b27a401));
    RoundStep(m, 10, 0x243185be, 0x00000000,
              Regs(0x8c87346b, 0x8e04ecb9, 0x85a07b5f, 0xe5030380, 0x1cc92596, 0x32ca2d8c, 0x0c657a79, 0x9b27a401),
              Regs(0x4798a3f4, 0x8c87346b, 0x8e04ecb9, 0x85a07b5f, 0x436b23e8, 0x1cc92596, 0x32ca2d8c, 0x0c657a79));
    RoundStep(m, 11, 0x550c7dc3, 0x00000000,
              Regs(0x4798a3f4, 0x8c87346b, 0x8e04ecb9, 0x85a07b5f, 0x436b23e8, 0x1cc92596, 0x32ca2d8c, 0x0c657a79),
              Regs(0xf71fc5a9, 0x4798a3f4, 0x8c87346b, 0x8e04ecb9, 0x816fd6e9, 0x436b23e8, 0x1cc92596, 0x32ca2d8c));
    RoundStep(m, 12, 0x72be5d74, 0x00000000,
              Regs(0xf71fc5a9, 0x4798a3f4, 0x8c87346b, 0x8e04ecb9, 0x816fd6e9, 0x436b23e8, 0x1cc92596, 0x32ca2d8c),
              Regs(0x87912990, 0xf71fc5a9, 0x4798a3f4, 0x8c87346b, 0x1e578218, 0x816fd6e9, 0x436b23e8, 0x1cc92596));
    RoundStep(m, 13, 0x80deb1fe, 0x00000000,
              Regs(0x87912990, 0xf71fc5a9, 0x4798a3f4, 0x8c87346b, 0x1e578218, 0x816fd6e9, 0x436b23e8, 0x1cc92596),
              Regs(0xd932eb16, 0x87912990, 0xf71fc5a9, 0x4798a3f4, 0x745a48de, 0x1e578218, 0x816fd6e9, 0x436b23e8));
    RoundStep(m, 14, 0x9bdc06a7, 0x00000000,
              Regs(0xd932eb16, 0x87912990, 0xf71fc5a9, 0x4798a3f4, 0x745a48de, 0x1e578218, 0x816fd6e9, 0x436b23e8),
              Regs(0xc0645fde, 0xd932eb16, 0x87912990, 0xf71fc5a9, 0x0b92f20c, 0x745a48de, 0x1e578218, 0x816fd6e9));
    RoundStep(m, 15, 0xc19bf174, 0x00000018,
              Regs(0xc0645fde, 0xd932eb16, 0x87912990, 0xf71fc5a9, 0x0b92f20c, 0x745a48de, 0x1e578218, 0x816fd6e9),
              Regs(0xb0fa238e, 0xc0645fde, 0xd932eb16, 0x87912990, 0x07590dcd, 0x0b92f20c, 0x745a48de, 0x1e578218));
  }

  lemma RoundsFrom16(m: Words)
    requires IsExample(m)
    ensures Rounds(INITIAL, m, 24)
            == Regs(0xc5d53d8d, 0xa7a3623f, 0xc2606d6d, 0x9dc68b63, 0xaa47c347, 0x49f5114a, 0xe1257970, 0x8ada8930)
  {
    hide Constant; hide ScheduleWord; hide Rounds;
    ConstantsFrom16();
    WordsFrom16(m);
    RoundsFrom8(m);
    RoundStep(m, 16, 0xe49b69c1, 0x61626380,
              Regs(0xb0fa238e, 0xc0645fde, 0xd932eb16, 0x87912990, 0x07590dcd, 0x0b92f20c, 0x745a48de, 0x1e578218),
              Regs(0x21da9a9b, 0xb0fa238e, 0xc0645fde, 0xd932eb16, 0x8034229c, 0x07590dcd, 0x0b92f20c, 0x745a48de));
    RoundStep(m, 17, 0xefbe4786, 0x000f0000,
              Regs(0x21da9a9b, 0xb0fa238e, 0xc0645fde, 0xd932eb16, 0x8034229c, 0x07590dcd, 0x0b92f20c, 0x745a48de),
              Regs(0xc2fbd9d1, 0x21da9a9b, 0xb0fa238e, 0xc0645fde, 0x846ee454, 0x8034229c, 0x07590dcd, 0x0b92f20c));
    RoundStep(m, 18, 0x0fc19dc6, 0x7da86405,
              Regs(0xc2fbd9d1, 0x21da9a9b, 0xb0fa238e, 0xc0645fde, 0x846ee454, 0x8034229c, 0x07590dcd, 0x0b92f20c),
              Regs(0xfe777bbf, 0xc2fbd9d1, 0x21da9a9b, 0xb0fa238e, 0xcc899961, 0x846ee454, 0x8034229c, 0x07590dcd));
    RoundStep(m, 19, 0x240ca1cc, 0x600003c6,
              Regs(0xfe777bbf, 0xc2fbd9d1, 0x21da9a9b, 0xb0fa238e, 0xcc899961, 0x846ee454, 0x8034229c, 0x07590dcd),
              Regs(0xe1f20c33, 0xfe777bbf, 0xc2fbd9d1, 0x21da9a9b, 0xb0638179, 0xcc899961, 0x846ee454, 0x8034229c));
    RoundStep(m, 20, 0x2de92c6f, 0x3e9d7b78,
              Regs(0xe1f20c33, 0xfe777bbf, 0xc2fbd9d1, 0x21da9a9b, 0xb0638179, 0xcc899961, 0x846ee454, 0x8034229c),
              Regs(0x9dc68b63, 0xe1f20c33, 0xfe777bbf, 0xc2fbd9d1, 0x8ada8930, 0xb0638179, 0xcc899961, 0x846ee454));
    RoundStep(m, 21, 0x4a7484aa, 0x0183fc00,
              Regs(0x9dc68b63, 0xe1f20c33, 0xfe777bbf, 0xc2fbd9d1, 0x8ada8930, 0xb0638179, 0xcc899961, 0x846ee454),
              Regs(0xc2606d6d, 0x9dc68b63, 0xe1f20c33, 0xfe777bbf, 0xe1257970, 0x8ada8930, 0xb0638179, 0xcc899961));
    RoundStep(m, 22, 0x5cb0a9dc, 0x12dcbfdb,
              Regs(0xc2606d6d, 0x9dc68b63, 0xe1f20c33, 0xfe777bbf, 0xe1257970, 0x8ada8930, 0xb0638179, 0xcc899961),
              Regs(0xa7a3623f, 0xc2606d6d, 0x9dc68b63, 0xe1f20c33, 0x49f5114a, 0xe1257970, 0x8ada8930, 0xb0638179));
    RoundStep(m, 23, 0x76f988da, 0xe2e2c38e,
              Regs(0xa7a3623f, 0xc2606d6d, 0x9dc68b63, 0xe1f20c33, 0x49f5114a, 0xe1257970, 0x8ada8930, 0xb0638179),
              Regs(0xc5d53d8d, 0xa7a3623f, 0xc2606d6d, 0x9dc68b63, 0xaa47c347, 0x49f5114a, 0xe1257970, 0x8ada8930));
  }

  lemma RoundsFrom24(m: Words)
    requires IsExample(m)
    ensures Rounds(INITIAL, m, 32)
            == Regs(0x73b33bf5, 0xea992a22, 0xa0060b30, 0x363482c9, 0xba591112, 0x0109ab3a, 0xade79437, 0x6112a3b7)
  {
    hide Constant; hide ScheduleWord; hide Rounds;
    ConstantsFrom24();
    WordsFrom24(m);
    RoundsFrom16(m);
    RoundStep(m, 24, 0x983e5152, 0xc8215c1a,
              Regs(0xc5d53d8d, 0xa7a3623f, 0xc2606d6d, 0x9dc68b63, 0xaa47c347, 0x49f5114a, 0xe1257970, 0x8ada8930),
              Regs(0x1c2c2838, 0xc5d53d8d, 0xa7a3623f, 0xc2606d6d, 0x2823ef91, 0xaa47c347, 0x49f5114a, 0xe1257970));
    RoundStep(m, 25, 0xa831c66d, 0xb73679a2,
              Regs(0x1c2c2838, 0xc5d53d8d, 0xa7a3623f, 0xc2606d6d, 0x2823ef91, 0xaa47c347, 0x49f5114a, 0xe1257970),
              Regs(0xcde8037d, 0x1c2c2838, 0xc5d53d8d, 0xa7a3623f, 0x14383d8e, 0x2823ef91, 0xaa47c347, 0x49f5114a));
    RoundStep(m, 26, 0xb00327c8, 0xe5bc3909,
              Regs(0xcde8037d, 0x1c2c2838, 0xc5d53d8d, 0xa7a3623f, 0x14383d8e, 0x2823ef91, 0xaa47c347, 0x49f5114a),
              Regs(0xb62ec4bc, 0xcde8037d, 0x1c2c2838, 0xc5d53d8d, 0xc74c6516, 0x14383d8e, 0x2823ef91, 0xaa47c347));
    RoundStep(m, 27, 0xbf597fc7, 0x32663c5b,
              Regs(0xb62ec4bc, 0xcde8037d, 0x1c2c2838, 0xc5d53d8d, 0xc74c6516, 0x14383d8e, 0x2823ef91, 0xaa47c347),
              Regs(0x77d37528, 0xb62ec4bc, 0xcde8037d, 0x1c2c2838, 0xedffbff8, 0xc74c6516, 0x14383d8e, 0x2823ef91));
    RoundStep(m, 28, 0xc6e00bf3, 0x9d209d67,
              Regs(0x77d37528, 0xb62ec4bc, 0xcde8037d, 0x1c2c2838, 0xedffbff8, 0xc74c6516, 0x14383d8e, 0x2823ef91),
              Regs(0x363482c9, 0x77d37528, 0xb62ec4bc, 0xcde8037d, 0x6112a3b7, 0xedffbff8, 0xc74c6516, 0x14383d8e));
    RoundStep(m, 29, 0xd5a79147, 0xec8726cb,
              Regs(0x363482c9, 0x77d37528, 0xb62ec4bc, 0xcde8037d, 0x6112a3b7, 0xedffbff8, 0xc74c6516, 0x14383d8e),
              Regs(0xa0060b30, 0x363482c9, 0x77d37528, 0xb62ec4bc, 0xade79437, 0x6112a3b7, 0xedffbff8, 0xc74c6516));
    RoundStep(m, 30, 0x06ca6351, 0x702138a4,
              Regs(0xa0060b30, 0x363482c9, 0x77d37528, 0xb62ec4bc, 0xade79437, 0x6112a3b7, 0xedffbff8, 0xc74c6516),
              Regs(0xea992a22, 0xa0060b30, 0x363482c9, 0x77d37528, 0x0109ab3a, 0xade79437, 0x6112a3b7, 0xedffbff8));
    RoundStep(m, 31, 0x14292967, 0xd3b7973b,
              Regs(0xea992a22, 0xa0060b30, 0x363482c9, 0x77d37528, 0x0109ab3a, 0xade79437, 0x6112a3b7, 0xedffbff8),
              Regs(0x73b33bf5, 0xea992a22, 0xa0060b30, 0x363482c9, 0xba591112, 0x0109ab3a, 0xade79437, 0x6112a3b7));
  }

  lemma RoundsFrom32(m: Words)
    requires IsExample(m)
    ensures Rounds(INITIAL, m, 40)
            == Regs(0x79ea687a, 0x6dc57a8a, 0x34df1604, 0x41a65cb1, 0x1efbc0a0, 0xf0781bc8, 0xa507a53d, 0x0772a26b)
  {
    hide Constant; hide ScheduleWord; hide Rounds;
    ConstantsFrom32();
    WordsFrom32(m);
    RoundsFrom24(m);
    RoundStep(m, 32, 0x27b70a85, 0x93f5997f,
              Regs(0x73b33bf5, 0xea992a22, 0xa0060b30, 0x363482c9, 0xba591112, 0x0109ab3a, 0xade79437, 0x6112a3b7),
              Regs(0x98e12507, 0x73b33bf5, 0xea992a22, 0xa0060b30, 0x9cd9f5f6, 0xba591112, 0x0109ab3a, 0xade79437));
    RoundStep(m, 33, 0x2e1b2138, 0x3b68ba73,
              Regs(0x98e12507, 0x73b33bf5, 0xea992a22, 0xa0060b30, 0x9cd9f5f6, 0xba591112, 0x0109ab3a, 0xade79437),
              Regs(0xfe604df5, 0x98e12507, 0x73b33bf5, 0xea992a22, 0x59249dd3, 0x9cd9f5f6, 0xba591112, 0x0109ab3a));
    RoundStep(m, 34, 0x4d2c6dfc, 0xaff4ffc1,
              Regs(0xfe604df5, 0x98e12507, 0x73b33bf5, 0xea992a22, 0x59249dd3, 0x9cd9f5f6, 0xba591112, 0x0109ab3a),
              Regs(0xa9a7738c, 0xfe604df5, 0x98e12507, 0x73b33bf5, 0x085f3833, 0x59249dd3, 0x9cd9f5f6, 0xba591112));
    RoundStep(m, 35, 0x53380d13, 0xf10a5c62,
              Regs(0xa9a7738c, 0xfe604df5, 0x98e12507, 0x73b33bf5, 0x085f3833, 0x59249dd3, 0x9cd9f5f6, 0xba591112),
              Regs(0x65a0cfe4, 0xa9a7738c, 0xfe604df5, 0x98e12507, 0xf4b002d6, 0x085f3833, 0x59249dd3, 0x9cd9f5f6));
    RoundStep(m, 36, 0x650a7354, 0x0a8b3996,
              Regs(0x65a0cfe4, 0xa9a7738c, 0xfe604df5, 0x98e12507, 0xf4b002d6, 0x085f3833, 0x59249dd3, 0x9cd9f5f6),
              Regs(0x41a65cb1, 0x65a0cfe4, 0xa9a7738c, 0xfe604df5, 0x0772a26b, 0xf4b002d6, 0x085f3833, 0x59249dd3));
    RoundStep(m, 37, 0x766a0abb, 0x72af830a,
              Regs(0x41a65cb1, 0x65a0cfe4, 0xa9a7738c, 0xfe604df5, 0x0772a26b, 0xf4b002d6, 0x085f3833, 0x59249dd3),
              Regs(0x34df1604, 0x41a65cb1, 0x65a0cfe4, 0xa9a7738c, 0xa507a53d, 0x0772a26b, 0xf4b002d6, 0x085f3833));
    RoundStep(m, 38, 0x81c2c92e, 0x9409e33e,
              Regs(0x34df1604, 0x41a65cb1, 0x65a0cfe4, 0xa9a7738c, 0xa507a53d, 0x0772a26b, 0xf4b002d6, 0x085f3833),
              Regs(0x6dc57a8a, 0x34df1604, 0x41a65cb1, 0x65a0cfe4, 0xf0781bc8, 0xa507a53d, 0x0772a26b, 0xf4b002d6));
    RoundStep(m, 39, 0x92722c85, 0x24641522,
              Regs(0x6dc57a8a, 0x34df1604, 0x41a65cb1, 0x65a0cfe4, 0xf0781bc8, 0xa507a53d, 0x0772a26b, 0xf4b002d6),
              Regs(0x79ea687a, 0x6dc57a8a, 0x34df1604, 0x41a65cb1, 0x1efbc0a0, 0xf0781bc8, 0xa507a53d, 0x0772a26b));
  }

  lemma RoundsFrom40(m: Words)
    requires IsExample(m)
    ensures Rounds(INITIAL, m, 48)
            == Regs(0x4172328d, 0xa14c14b0, 0x72ab4b91, 0x26628815, 0xfecf0bc6, 0xd57b94a9, 0xb7755da1, 0xa80f11f0)
  {
    hide Constant; hide ScheduleWord; hide Rounds;
    ConstantsFrom40();
    WordsFrom40(m);
    RoundsFrom32(m);
    RoundStep(m, 40, 0xa2bfe8a1, 0x9f47bf94,
              Regs(0x79ea687a, 0x6dc57a8a, 0x34df1604, 0x41a65cb1, 0x1efbc0a0, 0xf0781bc8, 0xa507a53d, 0x0772a26b),
              Regs(0xd6670766, 0x79ea687a, 0x6dc57a8a, 0x34df1604, 0x26352d63, 0x1efbc0a0, 0xf0781bc8, 0xa507a53d));
    RoundStep(m, 41, 0xa81a664b, 0xf0a64f5a,
              Regs(0xd6670766, 0x79ea687a, 0x6dc57a8a, 0x34df1604, 0x26352d63, 0x1efbc0a0, 0xf0781bc8, 0xa507a53d),
              Regs(0xdf46652f, 0xd6670766, 0x79ea687a, 0x6dc57a8a, 0x838b2711, 0x26352d63, 0x1efbc0a0, 0xf0781bc8));
    RoundStep(m, 42, 0xc24b8b70, 0x3e246a79,
              Regs(0xdf46652f, 0xd6670766, 0x79ea687a, 0x6dc57a8a, 0x838b2711, 0x26352d63, 0x1efbc0a0, 0xf0781bc8),
              Regs(0x17aa0dfe, 0xdf46652f, 0xd6670766, 0x79ea687a, 0xdecd4715, 0x838b2711, 0x26352d63, 0x1efbc0a0));
    RoundStep(m, 43, 0xc76c51a3, 0x27333ba3,
              Regs(0x17aa0dfe, 0xdf46652f, 0xd6670766, 0x79ea687a, 0xdecd4715, 0x838b2711, 0x26352d63, 0x1efbc0a0),
              Regs(0x9d4baf93, 0x17aa0dfe, 0xdf46652f, 0xd6670766, 0xfda24c2e, 0xdecd4715, 0x838b2711, 0x26352d63));
    RoundStep(m, 44, 0xd192e819, 0x0c4763f2,
              Regs(0x9d4baf93, 0x17aa0dfe, 0xdf46652f, 0xd6670766, 0xfda24c2e, 0xdecd4715, 0x838b2711, 0x26352d63),
              Regs(0x26628815, 0x9d4baf93, 0x17aa0dfe, 0xdf46652f, 0xa80f11f0, 0xfda24c2e, 0xdecd4715, 0x838b2711));
    RoundStep(m, 45, 0xd6990624, 0x840abf27,
              Regs(0x26628815, 0x9d4baf93, 0x17aa0dfe, 0xdf46652f, 0xa80f11f0, 0xfda24c2e, 0xdecd4715, 0x838b2711),
              Regs(0x72ab4b91, 0x26628815, 0x9d4baf93, 0x17aa0dfe, 0xb7755da1, 0xa80f11f0, 0xfda24c2e, 0xdecd4715));
    RoundStep(m, 46, 0xf40e3585, 0x7a290d5d,
              Regs(0x72ab4b91, 0x26628815, 0x9d4baf93, 0x17aa0dfe, 0xb7755da1, 0xa80f11f0, 0xfda24c2e, 0xdecd4715),
              Regs(0xa14c14b0, 0x72ab4b91, 0x26628815, 0x9d4baf93, 0xd57b94a9, 0xb7755da1, 0xa80f11f0, 0xfda24c2e));
    RoundStep(m, 47, 0x106aa070, 0x065c43da,
              Regs(0xa14c14b0, 0x72ab4b91, 0x26628815, 0x9d4baf93, 0xd57b94a9, 0xb7755da1, 0xa80f11f0, 0xfda24c2e),
              Regs(0x4172328d, 0xa14c14b0, 0x72ab4b91, 0x26628815, 0xfecf0bc6, 0xd57b94a9, 0xb7755da1, 0xa80f11f0));
  }

  lemma RoundsFrom48(m: Words)
    requires IsExample(m)
    ensures Rounds(INITIAL, m, 56)
            == Regs(0x38cc9913, 0x3ec45cdb, 0xf5702fdb, 0x101fd28f, 0x54cb266b, 0xe50e1b4f, 0x9f4787c3, 0x529e7d00)
  {
    hide Constant; hide ScheduleWord; hide Rounds;
    ConstantsFrom48();
    WordsFrom48(m);
    RoundsFrom40(m);
    RoundStep(m, 48, 0x19a4c116, 0xfb3e89cb,
              Regs(0x4172328d, 0xa14c14b0, 0x72ab4b91, 0x26628815, 0xfecf0bc6, 0xd57b94a9, 0xb7755da1, 0xa80f11f0),
              Regs(0x05757ceb, 0x4172328d, 0xa14c14b0, 0x72ab4b91, 0xbd714038, 0xfecf0bc6, 0xd57b94a9, 0xb7755da1));
    RoundStep(m, 49, 0x1e376c08, 0xcc7617db,
              Regs(0x05757ceb, 0x4172328d, 0xa14c14b0, 0x72ab4b91, 0xbd714038, 0xfecf0bc6, 0xd57b94a9, 0xb7755da1),
              Regs(0xf11bfaa8, 0x05757ceb, 0x4172328d, 0xa14c14b0, 0x6e5c390c, 0xbd714038, 0xfecf0bc6, 0xd57b94a9));
    RoundStep(m, 50, 0x2748774c, 0xb9e66c34,
              Regs(0xf11bfaa8, 0x05757ceb, 0x4172328d, 0xa14c14b0, 0x6e5c390c, 0xbd714038, 0xfecf0bc6, 0xd57b94a9),
              Regs(0x7a0508a1, 0xf11bfaa8, 0x05757ceb, 0x4172328d, 0x52f1ccf7, 0x6e5c390c, 0xbd714038, 0xfecf0bc6));
    RoundStep(m, 51, 0x34b0bcb5, 0xa9993667,
              Regs(0x7a0508a1, 0xf11bfaa8, 0x05757ceb, 0x4172328d, 0x52f1ccf7, 0x6e5c390c, 0xbd714038, 0xfecf0bc6),
              Regs(0x886e7a22, 0x7a0508a1, 0xf11bfaa8, 0x05757ceb, 0x49231c1e, 0x52f1ccf7, 0x6e5c390c, 0xbd714038));
    RoundStep(m, 52, 0x391c0cb3, 0x84badedd,
              Regs(0x886e7a22, 0x7a0508a1, 0xf11bfaa8, 0x05757ceb, 0x49231c1e, 0x52f1ccf7, 0x6e5c390c, 0xbd714038),
              Regs(0x101fd28f, 0x886e7a22, 0x7a0508a1, 0xf11bfaa8, 0x529e7d00, 0x49231c1e, 0x52f1ccf7, 0x6e5c390c));
    RoundStep(m, 53, 0x4ed8aa4a, 0xc21462bc,
              Regs(0x101fd28f, 0x886e7a22, 0x7a0508a1, 0xf11bfaa8, 0x529e7d00, 0x49231c1e, 0x52f1ccf7, 0x6e5c390c),
              Regs(0xf5702fdb, 0x101fd28f, 0x886e7a22, 0x7a0508a1, 0x9f4787c3, 0x529e7d00, 0x49231c1e, 0x52f1ccf7));
    RoundStep(m, 54, 0x5b9cca4f, 0x1487472c,
              Regs(0xf5702fdb, 0x101fd28f, 0x886e7a22, 0x7a0508a1, 0x9f4787c3, 0x529e7d00, 0x49231c1e, 0x52f1ccf7),
              Regs(0x3ec45cdb, 0xf5702fdb, 0x101fd28f, 0x886e7a22, 0xe50e1b4f, 0x9f4787c3, 0x529e7d00, 0x49231c1e));
    RoundStep(m, 55, 0x682e6ff3, 0xb20f7a99,
              Regs(0x3ec45cdb, 0xf5702fdb, 0x101fd28f, 0x886e7a22, 0xe50e1b4f, 0x9f4787c3, 0x529e7d00, 0x49231c1e),
              Regs(0x38cc9913, 0x3ec45cdb, 0xf5702fdb, 0x101fd28f, 0x54cb266b, 0xe50e1b4f, 0x9f4787c3, 0x529e7d00));
  }

  lemma RoundsFrom56(m: Words)
    requires IsExample(m)
    ensures Rounds(INITIAL, m, 64)
            == Regs(0x506e3058, 0xd39a2165, 0x04d24d6c, 0xb85e2ce9, 0x5ef50f24, 0xfb121210, 0x948d25b6, 0x961f4894)
  {
    hide Constant; hide ScheduleWord; hide Rounds;
    ConstantsFrom56();
    WordsFrom56(m);
    RoundsFrom48(m);
    RoundStep(m, 56, 0x748f82ee, 0xef57b9cd,
              Regs(0x38cc9913, 0x3ec45cdb, 0xf5702fdb, 0x101fd28f, 0x54cb266b, 0xe50e1b4f, 0x9f4787c3, 0x529e7d00),
              Regs(0xfcd1887b, 0x38cc9913, 0x3ec45cdb, 0xf5702fdb, 0x9b5e906c, 0x54cb266b, 0xe50e1b4f, 0x9f4787c3));
    RoundStep(m, 57, 0x78a5636f, 0xebe6b238,
              Regs(0xfcd1887b, 0x38cc9913, 0x3ec45cdb, 0xf5702fdb, 0x9b5e906c, 0x54cb266b, 0xe50e1b4f, 0x9f4787c3),
              Regs(0xc062d46f, 0xfcd1887b, 0x38cc9913, 0x3ec45cdb, 0x7e44008e, 0x9b5e906c, 0x54cb266b, 0xe50e1b4f));
    RoundStep(m, 58, 0x84c87814, 0x9fe3095e,
              Regs(0xc062d46f, 0xfcd1887b, 0x38cc9913, 0x3ec45cdb, 0x7e44008e, 0x9b5e906c, 0x54cb266b, 0xe50e1b4f),
              Regs(0xffb70472, 0xc062d46f, 0xfcd1887b, 0x38cc9913, 0x6d83bfc6, 0x7e44008e, 0x9b5e906c, 0x54cb266b));
    RoundStep(m, 59, 0x8cc70208, 0x78bc8d4b,
              Regs(0xffb70472, 0xc062d46f, 0xfcd1887b, 0x38cc9913, 0x6d83bfc6, 0x7e44008e, 0x9b5e906c, 0x54cb266b),
              Regs(0xb6ae8fff, 0xffb70472, 0xc062d46f, 0xfcd1887b, 0xb21bad3d, 0x6d83bfc6, 0x7e44008e, 0x9b5e906c));
    RoundStep(m, 60, 0x90befffa, 0xa43fcf15,
              Regs(0xb6ae8fff, 0xffb70472, 0xc062d46f, 0xfcd1887b, 0xb21bad3d, 0x6d83bfc6, 0x7e44008e, 0x9b5e906c),
              Regs(0xb85e2ce9, 0xb6ae8fff, 0xffb70472, 0xc062d46f, 0x961f4894, 0xb21bad3d, 0x6d83bfc6, 0x7e44008e));
    RoundStep(m, 61, 0xa4506ceb, 0x668b2ff8,
              Regs(0xb85e2ce9, 0xb6ae8fff, 0xffb70472, 0xc062d46f, 0x961f4894, 0xb21bad3d, 0x6d83bfc6, 0x7e44008e),
              Regs(0x04d24d6c, 0xb85e2ce9, 0xb6ae8fff, 0xffb70472, 0x948d25b6, 0x961f4894, 0xb21bad3d, 0x6d83bfc6));
    RoundStep(m, 62, 0xbef9a3f7, 0xeeaba2cc,
              Regs(0x04d24d6c, 0xb85e2ce9, 0xb6ae8fff, 0xffb70472, 0x948d25b6, 0x961f4894, 0xb21bad3d, 0x6d83bfc6),
              Regs(0xd39a2165, 0x04d24d6c, 0xb85e2ce9, 0xb6ae8fff, 0xfb121210, 0x948d25b6, 0x961f4894, 0xb21bad3d));
    RoundStep(m, 63, 0xc67178f2, 0x12b1edeb,
              Regs(0xd39a2165, 0x04d24d6c, 0xb85e2ce9, 0xb6ae8fff, 0xfb121210, 0x948d25b6, 0x961f4894, 0xb21bad3d),
              Regs(0x506e3058, 0xd39a2165, 0x04d24d6c, 0xb85e2ce9, 0x5ef50f24, 0xfb121210, 0x948d25b6, 0x961f4894));
  }

  lemma ExamplePadding()
    ensures BeforeLast(EXAMPLE) == INITIAL
    ensures LastBlock(EXAMPLE) + Length64(8 * |EXAMPLE|) == ExampleBlock()
  {
    hide Compress; hide Length64; hide ByteOfLength;
    ExampleLength();
    assert EXAMPLE[..0] == [];
    ZerosSplit(52, 7);
    assert LastBlock(EXAMPLE) == EXAMPLE + [0x80] + Zeros(52);
    assert Length64(24) == Zeros(7) + [0x18];
  }

  lemma ExampleLength()
    ensures Length64(24) == [0, 0, 0, 0, 0, 0, 0, 0x18]
  {
    hide ByteOfLength;
    NoByte(24, 0x100_0000_0000_0000);
    NoByte(24, 0x1_0000_0000_0000);
    NoByte(24, 0x100_0000_0000);
    NoByte(24, 0x1_0000_0000);
    NoByte(24, 0x100_0000);
    NoByte(24, 0x1_0000);
    NoByte(24, 0x100);
    LastByte();
  }

  lemma NoByte(n: nat, place: nat)
    requires n < place
    ensures ByteOfLength(n, place) == 0
  {
    Bits.DivUnique(n, place, 0, n);
  }

  lemma LastByte()
    ensures ByteOfLength(24, 1) == 0x18
  {
  }

  /** The hash value of the example, and its bytes. */
  function ExampleHash(): Regs {
    Regs(0xba7816bf, 0x8f01cfea, 0x414140de, 0x5dae2223, 0xb00361a3, 0x96177a9c, 0xb410ff61, 0xf20015ad)
  }

  lemma ExampleCompressed()
    ensures Compress(INITIAL, ExampleBlock()) == ExampleHash()
  {
    hide Rounds; hide WordsOf; hide ExampleBlock;
    ExampleWords();
    RoundsFrom56(WordsOf(ExampleBlock()));
  }

  /** The digest of "abc" is the one the standard's examples give. */
  lemma DigestOfAbc()
    ensures Digest([0x61, 0x62, 0x63]) ==
            [0xba, 0x78, 0x16, 0xbf, 0x8f, 0x01, 0xcf, 0xea, 0x41, 0x41, 0x40, 0xde, 0x5d, 0xae, 0x22, 0x23,
             0xb0, 0x03, 0x61, 0xa3, 0x96, 0x17, 0x7a, 0x9c, 0xb4, 0x10, 0xff, 0x61, 0xf2, 0x00, 0x15, 0xad]
  {
    hide Compress; hide BeforeLast; hide LastBlock; hide Length64; hide Digest; hide DigestOf;
    hide ExampleBlock; hide ExampleHash;
    PaddedDigest(EXAMPLE);
    ExamplePadding();
    ExampleCompressed();
    ExampleBytes();
  }

  lemma ExampleBytes()
    ensures DigestOf(ExampleHash()) ==
            [0xba, 0x78, 0x16, 0xbf, 0x8f, 0x01, 0xcf, 0xea, 0x41, 0x41, 0x40, 0xde, 0x5d, 0xae, 0x22, 0x23,
             0xb0, 0x03, 0x61, 0xa3, 0x96, 0x17, 0x7a, 0x9c, 0xb4, 0x10, 0xff, 0x61, 0xf2, 0x00, 0x15, 0xad]
  {
  }
}
