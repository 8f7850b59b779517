/** AES-128 in place, and its inverse. A block is sixteen bytes, column by
    column: byte 4c + r is row r of column c. */
module Aes {
  import Bits
  import opened AesField
  import opened AesSBox

  const BLOCK: nat := 16
  const ROUNDS: nat := 10
  const ROUND_KEY_SIZE: nat := 176

  type Block = s: seq<bv8> | |s| == BLOCK witness seq(BLOCK, _ => 0)
  type RoundKey = s: seq<bv8> | |s| == ROUND_KEY_SIZE witness seq(ROUND_KEY_SIZE, _ => 0)

  // ---------------------------------------------------------------------------
  // The cipher on values (sections 5.1 and 5.3 of FIPS 197)

  function SubBytes(s: Block): Block {
    seq(BLOCK, i requires 0 <= i < BLOCK => Sub(s[i]))
  }

  function InvSubBytes(s: Block): Block {
    seq(BLOCK, i requires 0 <= i < BLOCK => InvSub(s[i]))
  }

  /** Row r moves r columns to the left. */
  function ShiftRows(s: Block): Block {
    [s[0], s[5], s[10], s[15], s[4], s[9], s[14], s[3], s[8], s[13], s[2], s[7], s[12], s[1], s[6], s[11]]
  }

  function InvShiftRows(s: Block): Block {
    [s[0], s[13], s[10], s[7], s[4], s[1], s[14], s[11], s[8], s[5], s[2], s[15], s[12], s[9], s[6], s[3]]
  }

  function MixColumn(a: bv8, b: bv8, c: bv8, d: bv8): (s: seq<bv8>)
    ensures |s| == 4
  {
    [MixByte(a, b, c, d), MixByte(b, c, d, a), MixByte(c, d, a, b), MixByte(d, a, b, c)]
  }

  function InvMixColumn(a: bv8, b: bv8, c: bv8, d: bv8): (s: seq<bv8>)
    ensures |s| == 4
  {
    [InvMixByte(a, b, c, d), InvMixByte(b, c, d, a), InvMixByte(c, d, a, b), InvMixByte(d, a, b, c)]
  }

  function MixColumns(s: Block): Block {
    MixColumn(s[0], s[1], s[2], s[3]) + MixColumn(s[4], s[5], s[6], s[7])
    + MixColumn(s[8], s[9], s[10], s[11]) + MixColumn(s[12], s[13], s[14], s[15])
  }

  function InvMixColumns(s: Block): Block {
    InvMixColumn(s[0], s[1], s[2], s[3]) + InvMixColumn(s[4], s[5], s[6], s[7])
    + InvMixColumn(s[8], s[9], s[10], s[11]) + InvMixColumn(s[12], s[13], s[14], s[15])
  }

  function XorBlock(s: Block, k: Block): Block {
    seq(BLOCK, i requires 0 <= i < BLOCK => Xor(s[i], k[i]))
  }

  function KeyOf(w: RoundKey, round: nat): Block
    requires round <= ROUNDS
  {
    w[BLOCK * round..BLOCK * round + BLOCK]
  }

  /** The state after the initial key and n full rounds. */
  function Rounds(s: Block, w: RoundKey, n: nat): Block
    requires n < ROUNDS
    decreases n
  {
    if n == 0 then XorBlock(s, KeyOf(w, 0))
    else XorBlock(MixColumns(ShiftRows(SubBytes(Rounds(s, w, n - 1)))), KeyOf(w, n))
  }

  function Cipher(s: Block, w: RoundKey): Block {
    XorBlock(ShiftRows(SubBytes(Rounds(s, w, ROUNDS - 1))), KeyOf(w, ROUNDS))
  }

  /** The inverse rounds n, n - 1, ..., 1. */
  function InvRounds(s: Block, w: RoundKey, n: nat): Block
    requires n < ROUNDS
    decreases n
  {
    if n == 0 then s
    else InvRounds(InvMixColumns(XorBlock(InvSubBytes(InvShiftRows(s)), KeyOf(w, n))), w, n - 1)
  }

  function InvCipher(s: Block, w: RoundKey): Block {
    XorBlock(InvSubBytes(InvShiftRows(InvRounds(XorBlock(s, KeyOf(w, ROUNDS)), w, ROUNDS - 1))), KeyOf(w, 0))
  }

  // ---------------------------------------------------------------------------
  // Every step has an inverse

  lemma SubBytesInverse(s: Block)
    ensures InvSubBytes(SubBytes(s)) == s
  {
    hide Sub; hide InvSub;
    forall i | 0 <= i < BLOCK
      ensures InvSub(Sub(s[i])) == s[i]
    {
      SubInverse(s[i]);
    }
  }

  lemma ShiftRowsInverse(s: Block)
    ensures InvShiftRows(ShiftRows(s)) == s
  {
  }

  lemma UnmixColumn(a: bv8, b: bv8, c: bv8, d: bv8)
    ensures var m := MixColumn(a, b, c, d); InvMixColumn(m[0], m[1], m[2], m[3]) == [a, b, c, d]
  {
    hide MixByte; hide InvMixByte;
    UnmixByte(a, b, c, d);
    UnmixByte(b, c, d, a);
    UnmixByte(c, d, a, b);
    UnmixByte(d, a, b, c);
  }

  lemma MixColumnsInverse(s: Block)
    ensures InvMixColumns(MixColumns(s)) == s
  {
    hide MixColumn; hide InvMixColumn;
    UnmixColumn(s[0], s[1], s[2], s[3]);
    UnmixColumn(s[4], s[5], s[6], s[7]);
    UnmixColumn(s[8], s[9], s[10], s[11]);
    UnmixColumn(s[12], s[13], s[14], s[15]);
  }

  lemma XorBlockInverse(s: Block, k: Block)
    ensures XorBlock(XorBlock(s, k), k) == s
  {
    hide Xor;
    forall i | 0 <= i < BLOCK
      ensures XorBlock(XorBlock(s, k), k)[i] == s[i]
    {
      XorTwice(s[i], k[i]);
    }
  }

  lemma {:induction false} RoundsInverse(s: Block, w: RoundKey, n: nat)
    requires n < ROUNDS
    ensures InvRounds(ShiftRows(SubBytes(Rounds(s, w, n))), w, n) == ShiftRows(SubBytes(Rounds(s, w, 0)))
  {
    hide SubBytes; hide InvSubBytes; hide ShiftRows; hide InvShiftRows; hide MixColumns; hide InvMixColumns; hide XorBlock;
    hide KeyOf;
    if n > 0 {
      var before := ShiftRows(SubBytes(Rounds(s, w, n - 1)));
      ShiftRowsInverse(SubBytes(Rounds(s, w, n)));
      SubBytesInverse(Rounds(s, w, n));
      XorBlockInverse(MixColumns(before), KeyOf(w, n));
      MixColumnsInverse(before);
      RoundsInverse(s, w, n - 1);
    }
  }

  /** InvCipher undoes Cipher for every block and every key schedule. */
  lemma CipherInverse(s: Block, w: RoundKey)
    ensures InvCipher(Cipher(s, w), w) == s
  {
    hide SubBytes; hide InvSubBytes; hide ShiftRows; hide InvShiftRows; hide MixColumns; hide InvMixColumns; hide XorBlock;
    hide KeyOf; hide InvRounds;
    XorBlockInverse(ShiftRows(SubBytes(Rounds(s, w, ROUNDS - 1))), KeyOf(w, ROUNDS));
    RoundsInverse(s, w, ROUNDS - 1);
    ShiftRowsInverse(SubBytes(Rounds(s, w, 0)));
    SubBytesInverse(Rounds(s, w, 0));
    XorBlockInverse(s, KeyOf(w, 0));
  }

  // ---------------------------------------------------------------------------
  // Key expansion (section 5.2 of FIPS 197)

  function RconRow(i: nat): bv8
    requires 1 <= i <= ROUNDS
  {
    match i
    case 1 => 0x01 case 2 => 0x02 case 3 => 0x04 case 4 => 0x08 case 5 => 0x10
    case 6 => 0x20 case 7 => 0x40 case 8 => 0x80 case 9 => 0x1b case _ => 0x36
  }

  /** The round constants are the powers of {02} (section 5.2 of FIPS 197). */
  lemma RconPowers(i: nat)
    requires 1 <= i < ROUNDS
    ensures RconRow(1) == 0x01 && RconRow(i + 1) == Double(RconRow(i))
  {
    match i
    case 1 => case 2 => case 3 => case 4 => case 5 => case 6 => case 7 => case 8 => case _ =>
  }

  type Word = s: seq<bv8> | |s| == 4 witness [0, 0, 0, 0]

  function XorWord(a: Word, b: Word): Word {
    [Xor(a[0], b[0]), Xor(a[1], b[1]), Xor(a[2], b[2]), Xor(a[3], b[3])]
  }

  /** What the word before the i-th contributes to it. */
  function Temp(previous: Word, i: nat): Word
    requires 4 <= i < 44
  {
    if i % 4 == 0 then
      [Xor(Sub(previous[1]), RconRow(i / 4)), Sub(previous[2]), Sub(previous[3]), Sub(previous[0])]
    else
      previous
  }

  function WordAt(w: seq<bv8>, i: nat): Word
    requires 4 * i + 4 <= |w|
  {
    w[4 * i..4 * i + 4]
  }

  /** The first n words of the key schedule. */
  function Schedule(key: Block, n: nat): (w: seq<bv8>)
    requires 4 <= n <= 44
    ensures |w| == 4 * n
    decreases n
  {
    if n == 4 then key
    else
      var w := Schedule(key, n - 1);
      w + XorWord(WordAt(w, n - 5), Temp(WordAt(w, n - 2), n - 1))
  }

  function Expanded(key: Block): RoundKey {
    Schedule(key, 44)
  }

  lemma {:induction false} SchedulePrefix(key: Block, m: nat, n: nat)
    requires 4 <= m <= n <= 44
    ensures Schedule(key, n)[..4 * m] == Schedule(key, m)
    decreases n
  {
    hide Temp; hide XorWord;
    if m < n {
      SchedulePrefix(key, m, n - 1);
      assert Schedule(key, n)[..4 * m] == Schedule(key, n - 1)[..4 * m];
    }
  }

  /** {02} to the n-th power, in the field. */
  function PowerOfTwo(n: nat): bv8 {
    if n == 0 then 1 else Double(PowerOfTwo(n - 1))
  }

  lemma {:induction false} RconIsPower(i: nat)
    requires 1 <= i <= ROUNDS
    ensures RconRow(i) == PowerOfTwo(i - 1)
  {
    hide RconRow; hide Double;
    RconPowers(1);
    if i > 1 {
      RconPowers(i - 1);
      RconIsPower(i - 1);
    }
  }

  /** What is added to byte r of the word four before: byte r of the word before, or, for
      every fourth word, the substitute of the byte after that, the last being followed by
      the first, and a round constant added to the first. */
  function Contribution(w: RoundKey, i: nat, r: nat): bv8
    requires 4 <= i < 44 && r < 4
  {
    if i % 4 != 0 then w[4 * (i - 1) + r]
    else
      var substitute := Sub(w[4 * (i - 1) + (r + 1) % 4]);
      if r == 0 then Xor(substitute, PowerOfTwo(i / 4 - 1)) else substitute
  }

  /** The key schedule byte by byte: it begins with the key, and every later byte is a sum
      of two before it. */
  lemma ExpandedBytes(key: Block, i: nat, r: nat)
    requires i < 44 && r < 4
    ensures i < 4 ==> Expanded(key)[4 * i + r] == key[4 * i + r]
    ensures i >= 4 ==>
              Expanded(key)[4 * i + r] == Xor(Expanded(key)[4 * (i - 4) + r], Contribution(Expanded(key), i, r))
  {
    hide Schedule; hide Temp; hide Contribution; hide Xor;
    var w := Expanded(key);
    if i < 4 {
      SchedulePrefix(key, 4, 44);
      FirstWords(key);
      assert w[..16][4 * i + r] == w[4 * i + r];
    } else {
      SchedulePrefix(key, i + 1, 44);
      SchedulePrefix(key, i, 44);
      NextWord(key, i);
      assert w[..4 * (i + 1)][4 * i + r] == w[4 * i + r];
      ByteOfWord(w, i, i - 4, r);
      TempBytes(w, i, r);
    }
  }

  lemma TempBytes(w: RoundKey, i: nat, r: nat)
    requires 4 <= i < 44 && r < 4
    ensures Temp(WordAt(w[..4 * i], i - 1), i)[r] == Contribution(w, i, r)
  {
    hide Sub; hide Xor; hide RconRow; hide PowerOfTwo; hide WordAt;
    RconIsPower(if i % 4 == 0 then i / 4 else 1);
    ByteOfWord(w, i, i - 1, 0);
    ByteOfWord(w, i, i - 1, 1);
    ByteOfWord(w, i, i - 1, 2);
    ByteOfWord(w, i, i - 1, 3);
  }

  lemma FirstWords(key: Block)
    ensures Schedule(key, 4) == key
  {
  }

  lemma NextWord(key: Block, i: nat)
    requires 4 <= i < 44
    ensures var w := Schedule(key, i); Schedule(key, i + 1) == w + XorWord(WordAt(w, i - 4), Temp(WordAt(w, i - 1), i))
  {
    hide Temp; hide XorWord;
  }

  lemma ByteOfWord(w: RoundKey, i: nat, j: nat, r: nat)
    requires j < i <= 44 && r < 4
    ensures WordAt(w[..4 * i], j)[r] == w[4 * j + r]
  {
  }

  method KeyExpansion(roundKey: array<bv8>, key: Block)
    requires roundKey.Length == ROUND_KEY_SIZE
    modifies roundKey
    ensures roundKey[..] == Expanded(key)
  {
    hide Temp; hide XorWord;
    forall k | 0 <= k < BLOCK {
      roundKey[k] := key[k];
    }
    assert roundKey[..16] == key;
    for i := 4 to 44
      invariant roundKey[..4 * i] == Schedule(key, i)
    {
      ghost var w := roundKey[..4 * i];
      assert roundKey[4 * (i - 1)..4 * i] == WordAt(w, i - 1);
      assert roundKey[4 * (i - 4)..4 * (i - 4) + 4] == WordAt(w, i - 4);
      var tempa := NextTemp(roundKey[4 * (i - 1)..4 * i], i);
      PutWord(roundKey, 4 * i, XorWord(roundKey[4 * (i - 4)..4 * (i - 4) + 4], tempa));
    }
    assert roundKey[..] == roundKey[..176];
  }

  method PutWord(roundKey: array<bv8>, at: nat, word: Word)
    requires at + 4 <= roundKey.Length
    modifies roundKey
    ensures roundKey[..at + 4] == old(roundKey[..at]) + word
  {
    roundKey[at], roundKey[at + 1], roundKey[at + 2], roundKey[at + 3] := word[0], word[1], word[2], word[3];
  }

  /** RotWord, SubWord and the round constant, every fourth word. */
  method NextTemp(previous: Word, i: nat) returns (tempa: Word)
    requires 4 <= i < 44
    ensures tempa == Temp(previous, i)
  {
    hide Sub; hide RconRow; hide Xor;
    tempa := previous;
    if i % 4 == 0 {
      tempa := [tempa[1], tempa[2], tempa[3], tempa[0]];
      tempa := [Sub(tempa[0]), Sub(tempa[1]), Sub(tempa[2]), Sub(tempa[3])];
      tempa := tempa[0 := Xor(tempa[0], RconRow(i / 4))];
    }
  }

  // ---------------------------------------------------------------------------
  // The steps in place, on the block at o of a larger buffer

  ghost predicate OnlyBlock(now: seq<bv8>, was: seq<bv8>, o: nat) {
    && |now| == |was| && o + BLOCK <= |was|
    && now[..o] == was[..o] && now[o + BLOCK..] == was[o + BLOCK..]
  }

  function At(a: seq<bv8>, o: nat): Block
    requires o + BLOCK <= |a|
  {
    a[o..o + BLOCK]
  }

  lemma OnlyBlockTwice(now: seq<bv8>, mid: seq<bv8>, was: seq<bv8>, o: nat)
    requires OnlyBlock(now, mid, o) && OnlyBlock(mid, was, o)
    ensures OnlyBlock(now, was, o)
  {
  }

  lemma NoneTouched(was: seq<bv8>, o: nat)
    requires o + BLOCK <= |was|
    ensures OnlyBlock(was, was, o)
  {
  }

  method SetByte(a: array<bv8>, o: nat, k: nat, v: bv8)
    requires o + BLOCK <= a.Length && k < BLOCK
    modifies a
    ensures At(a[..], o) == At(old(a[..]), o)[k := v] && OnlyBlock(a[..], old(a[..]), o)
  {
    a[o + k] := v;
  }

  method AddRoundKey(a: array<bv8>, o: nat, w: RoundKey, round: nat)
    requires o + BLOCK <= a.Length && round <= ROUNDS
    modifies a
    ensures At(a[..], o) == XorBlock(At(old(a[..]), o), KeyOf(w, round)) && OnlyBlock(a[..], old(a[..]), o)
  {
    hide Xor; hide At;
    ghost var was := At(a[..], o);
    for k := 0 to BLOCK
      invariant OnlyBlock(a[..], old(a[..]), o)
      invariant forall m | 0 <= m < BLOCK :: At(a[..], o)[m] == if m < k then Xor(was[m], KeyOf(w, round)[m]) else was[m]
    {
      var i, j := k / 4, k % 4;
      var v := ByteOf(a, o, k);
      SetByte(a, o, k, Xor(v, w[round * 16 + i * 4 + j]));
    }
  }

  method ByteOf(a: array<bv8>, o: nat, k: nat) returns (v: bv8)
    requires o + BLOCK <= a.Length && k < BLOCK
    ensures v == At(a[..], o)[k]
  {
    v := a[o + k];
  }

  /** The place of the n-th byte, row by row. */
  function RowOrder(n: nat): (k: nat)
    requires n < BLOCK
    ensures k < BLOCK
  {
    4 * (n % 4) + n / 4
  }

  /** The first n bytes in row order are done. */
  function Partial(was: Block, goal: Block, n: nat): Block {
    seq(BLOCK, m requires 0 <= m < BLOCK => if RowOrder(m) < n then goal[m] else was[m])
  }

  lemma RowOrderTwice(m: nat)
    requires m < BLOCK
    ensures RowOrder(RowOrder(m)) == m
  {
  }

  lemma PartialStep(was: Block, goal: Block, n: nat)
    requires n < BLOCK
    ensures Partial(was, goal, n)[RowOrder(n)] == was[RowOrder(n)]
    ensures Partial(was, goal, n)[RowOrder(n) := goal[RowOrder(n)]] == Partial(was, goal, n + 1)
  {
    hide RowOrder;
    RowOrderTwice(n);
    var l, r := Partial(was, goal, n)[RowOrder(n) := goal[RowOrder(n)]], Partial(was, goal, n + 1);
    forall m | 0 <= m < BLOCK
      ensures l[m] == r[m]
    {
      RowOrderTwice(m);
    }
  }

  lemma PartialEnds(was: Block, goal: Block)
    ensures Partial(was, goal, 0) == was && Partial(was, goal, BLOCK) == goal
  {
    hide RowOrder;
  }

  /** The n-th byte, and what becomes of it. */
  lemma SubBytesAt(s: Block, n: nat)
    requires n < BLOCK
    ensures RowOrder(n) == 4 * (n % 4) + n / 4 && SubBytes(s)[RowOrder(n)] == Sub(s[RowOrder(n)])
  {
    hide Sub;
  }

  lemma InvSubBytesAt(s: Block, n: nat)
    requires n < BLOCK
    ensures RowOrder(n) == 4 * (n % 4) + n / 4 && InvSubBytes(s)[RowOrder(n)] == InvSub(s[RowOrder(n)])
  {
    hide InvSub;
  }

  /** Row by row, as the loops run. */
  method SubBytesInPlace(a: array<bv8>, o: nat)
    requires o + BLOCK <= a.Length
    modifies a
    ensures At(a[..], o) == SubBytes(At(old(a[..]), o)) && OnlyBlock(a[..], old(a[..]), o)
  {
    hide Sub; hide At; hide Partial; hide OnlyBlock; hide SubBytes; hide RowOrder;
    ghost var was := At(a[..], o);
    NoneTouched(a[..], o);
    PartialEnds(was, SubBytes(was));
    for n := 0 to BLOCK
      invariant OnlyBlock(a[..], old(a[..]), o) && At(a[..], o) == Partial(was, SubBytes(was), n)
    {
      PartialStep(was, SubBytes(was), n);
      SubBytesAt(was, n);
      var i, j := n / 4, n % 4;
      var v := ByteOf(a, o, 4 * j + i);
      ghost var mid := a[..];
      SetByte(a, o, 4 * j + i, Sub(v));
      OnlyBlockTwice(a[..], mid, old(a[..]), o);
    }
  }

  method InvSubBytesInPlace(a: array<bv8>, o: nat)
    requires o + BLOCK <= a.Length
    modifies a
    ensures At(a[..], o) == InvSubBytes(At(old(a[..]), o)) && OnlyBlock(a[..], old(a[..]), o)
  {
    hide InvSub; hide At; hide Partial; hide OnlyBlock; hide InvSubBytes; hide RowOrder;
    ghost var was := At(a[..], o);
    NoneTouched(a[..], o);
    PartialEnds(was, InvSubBytes(was));
    for n := 0 to BLOCK
      invariant OnlyBlock(a[..], old(a[..]), o) && At(a[..], o) == Partial(was, InvSubBytes(was), n)
    {
      PartialStep(was, InvSubBytes(was), n);
      InvSubBytesAt(was, n);
      var i, j := n / 4, n % 4;
      var v := ByteOf(a, o, 4 * j + i);
      ghost var mid := a[..];
      SetByte(a, o, 4 * j + i, InvSub(v));
      OnlyBlockTwice(a[..], mid, old(a[..]), o);
    }
  }

  /** Moves the bytes at i1, i2, i3 and i0 to i0, i1, i2 and i3. */
  method Cycle(a: array<bv8>, o: nat, i0: nat, i1: nat, i2: nat, i3: nat)
    requires o + BLOCK <= a.Length && i0 < BLOCK && i1 < BLOCK && i2 < BLOCK && i3 < BLOCK
    requires i0 != i1 && i0 != i2 && i0 != i3 && i1 != i2 && i1 != i3 && i2 != i3
    modifies a
    ensures OnlyBlock(a[..], old(a[..]), o)
    ensures var was := At(old(a[..]), o);
            At(a[..], o) == was[i0 := was[i1]][i1 := was[i2]][i2 := was[i3]][i3 := was[i0]]
  {
    hide At;
    var temp := ByteOf(a, o, i0);
    var b := ByteOf(a, o, i1);
    SetByte(a, o, i0, b);
    b := ByteOf(a, o, i2);
    SetByte(a, o, i1, b);
    b := ByteOf(a, o, i3);
    SetByte(a, o, i2, b);
    SetByte(a, o, i3, temp);
  }

  method SwapBytes(a: array<bv8>, o: nat, i: nat, j: nat)
    requires o + BLOCK <= a.Length && i < BLOCK && j < BLOCK
    modifies a
    ensures OnlyBlock(a[..], old(a[..]), o)
    ensures var was := At(old(a[..]), o); At(a[..], o) == was[i := was[j]][j := was[i]]
  {
    var temp := a[o + i];
    a[o + i] := a[o + j];
    a[o + j] := temp;
  }

  method ShiftRowsInPlace(a: array<bv8>, o: nat)
    requires o + BLOCK <= a.Length
    modifies a
    ensures At(a[..], o) == ShiftRows(At(old(a[..]), o)) && OnlyBlock(a[..], old(a[..]), o)
  {
    hide At;
    Cycle(a, o, 1, 5, 9, 13);
    SwapBytes(a, o, 2, 10);
    SwapBytes(a, o, 6, 14);
    Cycle(a, o, 3, 15, 11, 7);
  }

  method InvShiftRowsInPlace(a: array<bv8>, o: nat)
    requires o + BLOCK <= a.Length
    modifies a
    ensures At(a[..], o) == InvShiftRows(At(old(a[..]), o)) && OnlyBlock(a[..], old(a[..]), o)
  {
    hide At;
    Cycle(a, o, 13, 9, 5, 1);
    SwapBytes(a, o, 2, 10);
    SwapBytes(a, o, 6, 14);
    Cycle(a, o, 3, 7, 11, 15);
  }

  /** One column, with a single doubling for each byte. */
  method MixOne(a: array<bv8>, o: nat, i: nat)
    requires o + BLOCK <= a.Length && i < 4
    modifies a
    ensures OnlyBlock(a[..], old(a[..]), o)
    ensures var was := At(old(a[..]), o);
            At(a[..], o)
            == was[..4 * i] + MixColumn(was[4 * i], was[4 * i + 1], was[4 * i + 2], was[4 * i + 3]) + was[4 * i + 4..]
  {
    hide Double; hide Xor; hide Xor4; hide MixByte;
    var k := o + 4 * i;
    var a0, a1, a2, a3 := a[k], a[k + 1], a[k + 2], a[k + 3];
    MixByteByDifference(a0, a1, a2, a3);
    MixByteByDifference(a1, a2, a3, a0);
    MixByteByDifference(a2, a3, a0, a1);
    MixByteByDifference(a3, a0, a1, a2);
    Rotated4(a0, a1, a2, a3);
    var t, tmp := a0, Xor4(a0, a1, a2, a3);
    PutColumn(a, o, i, [Xor(a0, Xor(Double(Xor(a0, a1)), tmp)), Xor(a1, Xor(Double(Xor(a1, a2)), tmp)),
                        Xor(a2, Xor(Double(Xor(a2, a3)), tmp)), Xor(a3, Xor(Double(Xor(a3, t)), tmp))]);
  }

  method PutColumn(a: array<bv8>, o: nat, i: nat, column: Word)
    requires o + BLOCK <= a.Length && i < 4
    modifies a
    ensures OnlyBlock(a[..], old(a[..]), o)
    ensures At(a[..], o) == At(old(a[..]), o)[..4 * i] + column + At(old(a[..]), o)[4 * i + 4..]
  {
    hide At;
    for j := 0 to 4
      invariant OnlyBlock(a[..], old(a[..]), o)
      invariant At(a[..], o) == At(old(a[..]), o)[..4 * i] + column[..j] + At(old(a[..]), o)[4 * i + j..]
    {
      SetByte(a, o, 4 * i + j, column[j]);
    }
  }

  lemma Rotated4(a: bv8, b: bv8, c: bv8, d: bv8)
    ensures Xor4(b, c, d, a) == Xor4(a, b, c, d) == Xor4(c, d, a, b) == Xor4(d, a, b, c)
  {
    hide Xor;
    XorCommutes(Xor(a, b), Xor(c, d));
    XorCommutes(d, a);
    XorExchange(b, c, a, d);
    XorCommutes(b, a);
    XorExchange(d, a, b, c);
    XorCommutes(d, b);
    XorExchange(b, d, a, c);
    XorCommutes(Xor(b, c), Xor(d, a));
    XorCommutes(d, c);
  }

  method InvMixOne(a: array<bv8>, o: nat, i: nat)
    requires o + BLOCK <= a.Length && i < 4
    modifies a
    ensures OnlyBlock(a[..], old(a[..]), o)
    ensures var was := At(old(a[..]), o);
            At(a[..], o)
            == was[..4 * i] + InvMixColumn(was[4 * i], was[4 * i + 1], was[4 * i + 2], was[4 * i + 3]) + was[4 * i + 4..]
  {
    hide InvMixByte;
    var k := o + 4 * i;
    PutColumn(a, o, i, InvMixColumn(a[k], a[k + 1], a[k + 2], a[k + 3]));
  }

  method MixColumnsInPlace(a: array<bv8>, o: nat)
    requires o + BLOCK <= a.Length
    modifies a
    ensures At(a[..], o) == MixColumns(At(old(a[..]), o)) && OnlyBlock(a[..], old(a[..]), o)
  {
    hide At; hide MixColumn;
    MixOne(a, o, 0);
    MixOne(a, o, 1);
    MixOne(a, o, 2);
    MixOne(a, o, 3);
  }

  method InvMixColumnsInPlace(a: array<bv8>, o: nat)
    requires o + BLOCK <= a.Length
    modifies a
    ensures At(a[..], o) == InvMixColumns(At(old(a[..]), o)) && OnlyBlock(a[..], old(a[..]), o)
  {
    hide At; hide InvMixColumn;
    InvMixOne(a, o, 0);
    InvMixOne(a, o, 1);
    InvMixOne(a, o, 2);
    InvMixOne(a, o, 3);
  }

  method CipherInPlace(a: array<bv8>, o: nat, w: RoundKey)
    requires o + BLOCK <= a.Length
    modifies a
    ensures At(a[..], o) == Cipher(At(old(a[..]), o), w) && OnlyBlock(a[..], old(a[..]), o)
  {
    hide SubBytes; hide ShiftRows; hide MixColumns; hide XorBlock; hide KeyOf; hide At;
    ghost var s := At(a[..], o);
    AddRoundKey(a, o, w, 0);
    for round := 1 to ROUNDS
      invariant OnlyBlock(a[..], old(a[..]), o) && At(a[..], o) == Rounds(s, w, round - 1)
    {
      SubBytesInPlace(a, o);
      ShiftRowsInPlace(a, o);
      MixColumnsInPlace(a, o);
      AddRoundKey(a, o, w, round);
    }
    SubBytesInPlace(a, o);
    ShiftRowsInPlace(a, o);
    AddRoundKey(a, o, w, ROUNDS);
  }

  method InvCipherInPlace(a: array<bv8>, o: nat, w: RoundKey)
    requires o + BLOCK <= a.Length
    modifies a
    ensures At(a[..], o) == InvCipher(At(old(a[..]), o), w) && OnlyBlock(a[..], old(a[..]), o)
  {
    hide InvSubBytes; hide InvShiftRows; hide InvMixColumns; hide XorBlock; hide KeyOf; hide At;
    AddRoundKey(a, o, w, ROUNDS);
    ghost var t := At(a[..], o);
    var round := ROUNDS - 1;
    while round > 0
      invariant 0 <= round < ROUNDS && OnlyBlock(a[..], old(a[..]), o)
      invariant InvRounds(At(a[..], o), w, round) == InvRounds(t, w, ROUNDS - 1)
    {
      InvShiftRowsInPlace(a, o);
      InvSubBytesInPlace(a, o);
      AddRoundKey(a, o, w, round);
      InvMixColumnsInPlace(a, o);
      round := round - 1;
    }
    InvShiftRowsInPlace(a, o);
    InvSubBytesInPlace(a, o);
    AddRoundKey(a, o, w, 0);
  }
}
