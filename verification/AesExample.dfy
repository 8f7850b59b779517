/** The AES-128 example of appendix C.1 of FIPS 197: its round keys, and the state after every
    step of every round. */
module AesExample {
  import opened AesField
  import opened Aes

  /** A block with its bytes by name, which is quick on constants. */
  datatype State = State(b0: bv8, b1: bv8, b2: bv8, b3: bv8, b4: bv8, b5: bv8, b6: bv8, b7: bv8,
                         b8: bv8, b9: bv8, b10: bv8, b11: bv8, b12: bv8, b13: bv8, b14: bv8, b15: bv8)

  function Bytes(s: State): Block {
    [s.b0, s.b1, s.b2, s.b3, s.b4, s.b5, s.b6, s.b7,
     s.b8, s.b9, s.b10, s.b11, s.b12, s.b13, s.b14, s.b15]
  }

  const KEY: Block := [0x00, 0x01, 0x02, 0x03, 0x04, 0x05, 0x06, 0x07, 0x08, 0x09, 0x0a, 0x0b, 0x0c, 0x0d, 0x0e, 0x0f]
  const PLAIN: Block := [0x00, 0x11, 0x22, 0x33, 0x44, 0x55, 0x66, 0x77, 0x88, 0x99, 0xaa, 0xbb, 0xcc, 0xdd, 0xee, 0xff]

  // ---------------------------------------------------------------------------
  // The steps on named bytes

  function SubState(s: State): State {
    State(Sub(s.b0), Sub(s.b1), Sub(s.b2), Sub(s.b3), Sub(s.b4), Sub(s.b5), Sub(s.b6), Sub(s.b7),
          Sub(s.b8), Sub(s.b9), Sub(s.b10), Sub(s.b11), Sub(s.b12), Sub(s.b13), Sub(s.b14), Sub(s.b15))
  }

  function ShiftState(s: State): State {
    State(s.b0, s.b5, s.b10, s.b15, s.b4, s.b9, s.b14, s.b3,
          s.b8, s.b13, s.b2, s.b7, s.b12, s.b1, s.b6, s.b11)
  }

  function XorState(s: State, k: State): State {
    State(Xor(s.b0, k.b0), Xor(s.b1, k.b1), Xor(s.b2, k.b2), Xor(s.b3, k.b3),
          Xor(s.b4, k.b4), Xor(s.b5, k.b5), Xor(s.b6, k.b6), Xor(s.b7, k.b7),
          Xor(s.b8, k.b8), Xor(s.b9, k.b9), Xor(s.b10, k.b10), Xor(s.b11, k.b11),
          Xor(s.b12, k.b12), Xor(s.b13, k.b13), Xor(s.b14, k.b14), Xor(s.b15, k.b15))
  }

  predicate ColumnMixed(a: bv8, b: bv8, c: bv8, d: bv8, p: bv8, q: bv8, r: bv8, s: bv8) {
    MixByte(a, b, c, d) == p && MixByte(b, c, d, a) == q && MixByte(c, d, a, b) == r && MixByte(d, a, b, c) == s
  }

  predicate Mixed(s: State, m: State) {
    && ColumnMixed(s.b0, s.b1, s.b2, s.b3, m.b0, m.b1, m.b2, m.b3)
    && ColumnMixed(s.b4, s.b5, s.b6, s.b7, m.b4, m.b5, m.b6, m.b7)
    && ColumnMixed(s.b8, s.b9, s.b10, s.b11, m.b8, m.b9, m.b10, m.b11)
    && ColumnMixed(s.b12, s.b13, s.b14, s.b15, m.b12, m.b13, m.b14, m.b15)
  }

  function ByteAt(s: State, i: nat): bv8
    requires i < BLOCK
  {
    Nth(s.b0, s.b1, s.b2, s.b3, s.b4, s.b5, s.b6, s.b7,
        s.b8, s.b9, s.b10, s.b11, s.b12, s.b13, s.b14, s.b15, i)
  }

  function Nth<T>(x0: T, x1: T, x2: T, x3: T, x4: T, x5: T, x6: T, x7: T,
                  x8: T, x9: T, x10: T, x11: T, x12: T, x13: T, x14: T, x15: T,
                  i: nat): T
    requires i < BLOCK
  {
    match i
    case 0 => x0 case 1 => x1 case 2 => x2 case 3 => x3 case 4 => x4 case 5 => x5 case 6 => x6 case 7 => x7
    case 8 => x8 case 9 => x9 case 10 => x10 case 11 => x11 case 12 => x12 case 13 => x13 case 14 => x14 case _ => x15
  }

  lemma NthOf<T>(x0: T, x1: T, x2: T, x3: T, x4: T, x5: T, x6: T, x7: T,
                 x8: T, x9: T, x10: T, x11: T, x12: T, x13: T, x14: T, x15: T,
                 i: nat)
    requires i < BLOCK
    ensures [x0, x1, x2, x3, x4, x5, x6, x7, x8, x9, x10, x11, x12, x13, x14, x15][i]
         == Nth(x0, x1, x2, x3, x4, x5, x6, x7, x8, x9, x10, x11, x12, x13, x14, x15, i)
  {
  }

  lemma ByteIs(s: State, i: nat)
    requires i < BLOCK
    ensures Bytes(s)[i] == ByteAt(s, i)
  {
    hide Nth;
    NthOf(s.b0, s.b1, s.b2, s.b3, s.b4, s.b5, s.b6, s.b7,
          s.b8, s.b9, s.b10, s.b11, s.b12, s.b13, s.b14, s.b15, i);
  }

  lemma SubIsState(s: State)
    ensures SubBytes(Bytes(s)) == Bytes(SubState(s))
  {
    hide Sub; hide Bytes; hide SubState; hide ByteAt;
    forall i | 0 <= i < BLOCK
      ensures SubBytes(Bytes(s))[i] == Bytes(SubState(s))[i]
    {
      ByteIs(s, i);
      ByteIs(SubState(s), i);
      SubAt(s, i);
    }
  }

  lemma SubAt(s: State, i: nat)
    requires i < BLOCK
    ensures ByteAt(SubState(s), i) == Sub(ByteAt(s, i))
  {
    hide Sub; hide Nth;
    NthMap(Sub, s.b0, s.b1, s.b2, s.b3, s.b4, s.b5, s.b6, s.b7,
                s.b8, s.b9, s.b10, s.b11, s.b12, s.b13, s.b14, s.b15, i);
  }

  lemma NthMap<T>(f: T -> T, x0: T, x1: T, x2: T, x3: T, x4: T, x5: T, x6: T, x7: T,
                  x8: T, x9: T, x10: T, x11: T, x12: T, x13: T, x14: T, x15: T,
                  i: nat)
    requires i < BLOCK
    ensures Nth(f(x0), f(x1), f(x2), f(x3), f(x4), f(x5), f(x6), f(x7),
                f(x8), f(x9), f(x10), f(x11), f(x12), f(x13), f(x14), f(x15),
                i)
         == f(Nth(x0, x1, x2, x3, x4, x5, x6, x7, x8, x9, x10, x11, x12, x13, x14, x15, i))
  {
  }

  lemma ShiftIsState(s: State)
    ensures ShiftRows(Bytes(s)) == Bytes(ShiftState(s))
  {
  }

  lemma MixIsState(s: State, m: State)
    requires Mixed(s, m)
    ensures MixColumns(Bytes(s)) == Bytes(m)
  {
    hide MixByte; hide MixColumn; hide ColumnMixed;
    ColumnIs(s.b0, s.b1, s.b2, s.b3, m.b0, m.b1, m.b2, m.b3);
    ColumnIs(s.b4, s.b5, s.b6, s.b7, m.b4, m.b5, m.b6, m.b7);
    ColumnIs(s.b8, s.b9, s.b10, s.b11, m.b8, m.b9, m.b10, m.b11);
    ColumnIs(s.b12, s.b13, s.b14, s.b15, m.b12, m.b13, m.b14, m.b15);
    Joined(m.b0, m.b1, m.b2, m.b3, m.b4, m.b5, m.b6, m.b7, m.b8, m.b9, m.b10, m.b11, m.b12, m.b13, m.b14, m.b15);
  }

  lemma Joined<T>(x0: T, x1: T, x2: T, x3: T, x4: T, x5: T, x6: T, x7: T,
                  x8: T, x9: T, x10: T, x11: T, x12: T, x13: T, x14: T, x15: T)
    ensures [x0, x1, x2, x3] + [x4, x5, x6, x7] + [x8, x9, x10, x11] + [x12, x13, x14, x15]
         == [x0, x1, x2, x3, x4, x5, x6, x7, x8, x9, x10, x11, x12, x13, x14, x15]
  {
  }

  lemma ColumnIs(a: bv8, b: bv8, c: bv8, d: bv8, p: bv8, q: bv8, r: bv8, s: bv8)
    requires ColumnMixed(a, b, c, d, p, q, r, s)
    ensures MixColumn(a, b, c, d) == [p, q, r, s]
  {
    hide MixByte;
  }

  lemma XorIsState(s: State, k: State)
    ensures XorBlock(Bytes(s), Bytes(k)) == Bytes(XorState(s, k))
  {
    hide Xor; hide Bytes; hide XorState; hide ByteAt;
    forall i | 0 <= i < BLOCK
      ensures XorBlock(Bytes(s), Bytes(k))[i] == Bytes(XorState(s, k))[i]
    {
      ByteIs(s, i);
      ByteIs(k, i);
      ByteIs(XorState(s, k), i);
      XorAt(s, k, i);
    }
  }

  lemma XorAt(s: State, k: State, i: nat)
    requires i < BLOCK
    ensures ByteAt(XorState(s, k), i) == Xor(ByteAt(s, i), ByteAt(k, i))
  {
    hide Xor; hide Nth;
    NthZip(Xor, s.b0, s.b1, s.b2, s.b3, s.b4, s.b5, s.b6, s.b7,
                s.b8, s.b9, s.b10, s.b11, s.b12, s.b13, s.b14, s.b15,
           k.b0, k.b1, k.b2, k.b3, k.b4, k.b5, k.b6, k.b7,
           k.b8, k.b9, k.b10, k.b11, k.b12, k.b13, k.b14, k.b15, i);
  }

  lemma NthZip<T>(f: (T, T) -> T, x0: T, x1: T, x2: T, x3: T, x4: T, x5: T, x6: T, x7: T,
                  x8: T, x9: T, x10: T, x11: T, x12: T, x13: T, x14: T, x15: T,
                  y0: T, y1: T, y2: T, y3: T, y4: T, y5: T, y6: T, y7: T,
                  y8: T, y9: T, y10: T, y11: T, y12: T, y13: T, y14: T, y15: T,
                  i: nat)
    requires i < BLOCK
    ensures Nth(f(x0, y0), f(x1, y1), f(x2, y2), f(x3, y3), f(x4, y4), f(x5, y5), f(x6, y6), f(x7, y7),
                f(x8, y8), f(x9, y9), f(x10, y10), f(x11, y11), f(x12, y12), f(x13, y13), f(x14, y14), f(x15, y15),
                i)
         == f(Nth(x0, x1, x2, x3, x4, x5, x6, x7, x8, x9, x10, x11, x12, x13, x14, x15, i),
              Nth(y0, y1, y2, y3, y4, y5, y6, y7, y8, y9, y10, y11, y12, y13, y14, y15, i))
  {
  }

  // ---------------------------------------------------------------------------
  // The round keys

  /** The round key behind k. */
  function NextKey(k: State, rcon: bv8): State {
    var a0, a1 := Xor(k.b0, Xor(Sub(k.b13), rcon)), Xor(k.b1, Sub(k.b14));
    var a2, a3 := Xor(k.b2, Sub(k.b15)), Xor(k.b3, Sub(k.b12));
    var b0, b1, b2, b3 := Xor(k.b4, a0), Xor(k.b5, a1), Xor(k.b6, a2), Xor(k.b7, a3);
    var c0, c1, c2, c3 := Xor(k.b8, b0), Xor(k.b9, b1), Xor(k.b10, b2), Xor(k.b11, b3);
    State(a0, a1, a2, a3, b0, b1, b2, b3, c0, c1, c2, c3,
          Xor(k.b12, c0), Xor(k.b13, c1), Xor(k.b14, c2), Xor(k.b15, c3))
  }

  lemma KeyByte(key: Block, n: nat, c: nat, r: nat)
    requires 1 <= n <= ROUNDS && c < 4 && r < 4
    ensures var k, next := KeyOf(Expanded(key), n - 1), KeyOf(Expanded(key), n);
            next[4 * c + r] == Xor(k[4 * c + r],
                                   if c > 0 then next[4 * (c - 1) + r]
                                   else if r == 0 then Xor(Sub(k[13]), PowerOfTwo(n - 1))
                                   else Sub(k[12 + (r + 1) % 4]))
  {
    hide Expanded; hide Sub; hide Xor; hide PowerOfTwo;
    ExpandedBytes(key, 4 * n + c, r);
  }

  lemma KeyFollows(key: Block, n: nat, k: State)
    requires 1 <= n <= ROUNDS && KeyOf(Expanded(key), n - 1) == Bytes(k)
    ensures KeyOf(Expanded(key), n) == Bytes(NextKey(k, PowerOfTwo(n - 1)))
  {
    hide Expanded; hide PowerOfTwo; hide KeyOf; hide NextKey; hide Bytes;
    var next, written := KeyOf(Expanded(key), n), NextKey(k, PowerOfTwo(n - 1));
    KeyColumn0(key, n, k);
    KeyColumn1(key, n, k);
    KeyColumn2(key, n, k);
    KeyColumn3(key, n, k);
    SameBytes(next, written);
  }

  lemma SameBytes(s: Block, t: State)
    requires s[0] == t.b0 && s[1] == t.b1 && s[2] == t.b2 && s[3] == t.b3
    requires s[4] == t.b4 && s[5] == t.b5 && s[6] == t.b6 && s[7] == t.b7
    requires s[8] == t.b8 && s[9] == t.b9 && s[10] == t.b10 && s[11] == t.b11
    requires s[12] == t.b12 && s[13] == t.b13 && s[14] == t.b14 && s[15] == t.b15
    ensures s == Bytes(t)
  {
  }

  lemma KeyColumn0(key: Block, n: nat, k: State)
    requires 1 <= n <= ROUNDS && KeyOf(Expanded(key), n - 1) == Bytes(k)
    ensures var s, t := KeyOf(Expanded(key), n), NextKey(k, PowerOfTwo(n - 1));
            s[0] == t.b0 && s[1] == t.b1 && s[2] == t.b2 && s[3] == t.b3
  {
    hide Expanded; hide Sub; hide Xor; hide PowerOfTwo; hide KeyOf;
    KeyByte(key, n, 0, 0);
    KeyByte(key, n, 0, 1);
    KeyByte(key, n, 0, 2);
    KeyByte(key, n, 0, 3);
  }

  lemma KeyColumn1(key: Block, n: nat, k: State)
    requires 1 <= n <= ROUNDS && KeyOf(Expanded(key), n - 1) == Bytes(k)
    ensures var s, t := KeyOf(Expanded(key), n), NextKey(k, PowerOfTwo(n - 1));
            s[4] == t.b4 && s[5] == t.b5 && s[6] == t.b6 && s[7] == t.b7
  {
    hide Expanded; hide Sub; hide Xor; hide PowerOfTwo; hide KeyOf;
    KeyColumn0(key, n, k);
    KeyByte(key, n, 1, 0);
    KeyByte(key, n, 1, 1);
    KeyByte(key, n, 1, 2);
    KeyByte(key, n, 1, 3);
  }

  lemma KeyColumn2(key: Block, n: nat, k: State)
    requires 1 <= n <= ROUNDS && KeyOf(Expanded(key), n - 1) == Bytes(k)
    ensures var s, t := KeyOf(Expanded(key), n), NextKey(k, PowerOfTwo(n - 1));
            s[8] == t.b8 && s[9] == t.b9 && s[10] == t.b10 && s[11] == t.b11
  {
    hide Expanded; hide Sub; hide Xor; hide PowerOfTwo; hide KeyOf;
    KeyColumn1(key, n, k);
    KeyByte(key, n, 2, 0);
    KeyByte(key, n, 2, 1);
    KeyByte(key, n, 2, 2);
    KeyByte(key, n, 2, 3);
  }

  lemma KeyColumn3(key: Block, n: nat, k: State)
    requires 1 <= n <= ROUNDS && KeyOf(Expanded(key), n - 1) == Bytes(k)
    ensures var s, t := KeyOf(Expanded(key), n), NextKey(k, PowerOfTwo(n - 1));
            s[12] == t.b12 && s[13] == t.b13 && s[14] == t.b14 && s[15] == t.b15
  {
    hide Expanded; hide Sub; hide Xor; hide PowerOfTwo; hide KeyOf;
    KeyColumn2(key, n, k);
    KeyByte(key, n, 3, 0);
    KeyByte(key, n, 3, 1);
    KeyByte(key, n, 3, 2);
    KeyByte(key, n, 3, 3);
  }

  function Key(n: nat): Block
    requires n <= ROUNDS
  {
    KeyOf(Expanded(KEY), n)
  }

  lemma FirstKey()
    ensures Key(0) == Bytes(
          State(0x00, 0x01, 0x02, 0x03, 0x04, 0x05, 0x06, 0x07, 0x08, 0x09, 0x0a, 0x0b, 0x0c, 0x0d, 0x0e, 0x0f))
  {
    hide Schedule;
    SchedulePrefix(KEY, 4, 44);
    FirstWords(KEY);
  }

  lemma Powers()
    ensures PowerOfTwo(0) == 0x01 && PowerOfTwo(1) == 0x02 && PowerOfTwo(2) == 0x04 && PowerOfTwo(3) == 0x08
    ensures PowerOfTwo(4) == 0x10 && PowerOfTwo(5) == 0x20 && PowerOfTwo(6) == 0x40 && PowerOfTwo(7) == 0x80
    ensures PowerOfTwo(8) == 0x1b && PowerOfTwo(9) == 0x36
  {
  }

  lemma Key1()
    ensures Key(1) == Bytes(
          State(0xd6, 0xaa, 0x74, 0xfd, 0xd2, 0xaf, 0x72, 0xfa, 0xda, 0xa6, 0x78, 0xf1, 0xd6, 0xab, 0x76, 0xfe))
  {
    hide Expanded; hide Schedule; hide Bytes; hide KeyOf; hide PowerOfTwo;
    FirstKey();
    Powers();
    KeyFollows(KEY, 1,
        State(0x00, 0x01, 0x02, 0x03, 0x04, 0x05, 0x06, 0x07, 0x08, 0x09, 0x0a, 0x0b, 0x0c, 0x0d, 0x0e, 0x0f));
  }

  lemma Key2()
    ensures Key(2) == Bytes(
          State(0xb6, 0x92, 0xcf, 0x0b, 0x64, 0x3d, 0xbd, 0xf1, 0xbe, 0x9b, 0xc5, 0x00, 0x68, 0x30, 0xb3, 0xfe))
  {
    hide Expanded; hide Schedule; hide Bytes; hide KeyOf; hide PowerOfTwo;
    Key1();
    Powers();
    KeyFollows(KEY, 2,
        State(0xd6, 0xaa, 0x74, 0xfd, 0xd2, 0xaf, 0x72, 0xfa, 0xda, 0xa6, 0x78, 0xf1, 0xd6, 0xab, 0x76, 0xfe));
  }

  lemma Key3()
    ensures Key(3) == Bytes(
          State(0xb6, 0xff, 0x74, 0x4e, 0xd2, 0xc2, 0xc9, 0xbf, 0x6c, 0x59, 0x0c, 0xbf, 0x04, 0x69, 0xbf, 0x41))
  {
    hide Expanded; hide Schedule; hide Bytes; hide KeyOf; hide PowerOfTwo;
    Key2();
    Powers();
    KeyFollows(KEY, 3,
        State(0xb6, 0x92, 0xcf, 0x0b, 0x64, 0x3d, 0xbd, 0xf1, 0xbe, 0x9b, 0xc5, 0x00, 0x68, 0x30, 0xb3, 0xfe));
  }

  lemma Key4()
    ensures Key(4) == Bytes(
          State(0x47, 0xf7, 0xf7, 0xbc, 0x95, 0x35, 0x3e, 0x03, 0xf9, 0x6c, 0x32, 0xbc, 0xfd, 0x05, 0x8d, 0xfd))
  {
    hide Expanded; hide Schedule; hide Bytes; hide KeyOf; hide PowerOfTwo;
    Key3();
    Powers();
    KeyFollows(KEY, 4,
        State(0xb6, 0xff, 0x74, 0x4e, 0xd2, 0xc2, 0xc9, 0xbf, 0x6c, 0x59, 0x0c, 0xbf, 0x04, 0x69, 0xbf, 0x41));
  }

  lemma Key5()
    ensures Key(5) == Bytes(
          State(0x3c, 0xaa, 0xa3, 0xe8, 0xa9, 0x9f, 0x9d, 0xeb, 0x50, 0xf3, 0xaf, 0x57, 0xad, 0xf6, 0x22, 0xaa))
  {
    hide Expanded; hide Schedule; hide Bytes; hide KeyOf; hide PowerOfTwo;
    Key4();
    Powers();
    KeyFollows(KEY, 5,
        State(0x47, 0xf7, 0xf7, 0xbc, 0x95, 0x35, 0x3e, 0x03, 0xf9, 0x6c, 0x32, 0xbc, 0xfd, 0x05, 0x8d, 0xfd));
  }

  lemma Key6()
    ensures Key(6) == Bytes(
          State(0x5e, 0x39, 0x0f, 0x7d, 0xf7, 0xa6, 0x92, 0x96, 0xa7, 0x55, 0x3d, 0xc1, 0x0a, 0xa3, 0x1f, 0x6b))
  {
    hide Expanded; hide Schedule; hide Bytes; hide KeyOf; hide PowerOfTwo;
    Key5();
    Powers();
    KeyFollows(KEY, 6,
        State(0x3c, 0xaa, 0xa3, 0xe8, 0xa9, 0x9f, 0x9d, 0xeb, 0x50, 0xf3, 0xaf, 0x57, 0xad, 0xf6, 0x22, 0xaa));
  }

  lemma Key7()
    ensures Key(7) == Bytes(
          State(0x14, 0xf9, 0x70, 0x1a, 0xe3, 0x5f, 0xe2, 0x8c, 0x44, 0x0a, 0xdf, 0x4d, 0x4e, 0xa9, 0xc0, 0x26))
  {
    hide Expanded; hide Schedule; hide Bytes; hide KeyOf; hide PowerOfTwo;
    Key6();
    Powers();
    KeyFollows(KEY, 7,
        State(0x5e, 0x39, 0x0f, 0x7d, 0xf7, 0xa6, 0x92, 0x96, 0xa7, 0x55, 0x3d, 0xc1, 0x0a, 0xa3, 0x1f, 0x6b));
  }

  lemma Key8()
    ensures Key(8) == Bytes(
          State(0x47, 0x43, 0x87, 0x35, 0xa4, 0x1c, 0x65, 0xb9, 0xe0, 0x16, 0xba, 0xf4, 0xae, 0xbf, 0x7a, 0xd2))
  {
    hide Expanded; hide Schedule; hide Bytes; hide KeyOf; hide PowerOfTwo;
    Key7();
    Powers();
    KeyFollows(KEY, 8,
        State(0x14, 0xf9, 0x70, 0x1a, 0xe3, 0x5f, 0xe2, 0x8c, 0x44, 0x0a, 0xdf, 0x4d, 0x4e, 0xa9, 0xc0, 0x26));
  }

  lemma Key9()
    ensures Key(9) == Bytes(
          State(0x54, 0x99, 0x32, 0xd1, 0xf0, 0x85, 0x57, 0x68, 0x10, 0x93, 0xed, 0x9c, 0xbe, 0x2c, 0x97, 0x4e))
  {
    hide Expanded; hide Schedule; hide Bytes; hide KeyOf; hide PowerOfTwo;
    Key8();
    Powers();
    KeyFollows(KEY, 9,
        State(0x47, 0x43, 0x87, 0x35, 0xa4, 0x1c, 0x65, 0xb9, 0xe0, 0x16, 0xba, 0xf4, 0xae, 0xbf, 0x7a, 0xd2));
  }

  lemma Key10()
    ensures Key(10) == Bytes(
          State(0x13, 0x11, 0x1d, 0x7f, 0xe3, 0x94, 0x4a, 0x17, 0xf3, 0x07, 0xa7, 0x8b, 0x4d, 0x2b, 0x30, 0xc5))
  {
    hide Expanded; hide Schedule; hide Bytes; hide KeyOf; hide PowerOfTwo;
    Key9();
    Powers();
    KeyFollows(KEY, 10,
        State(0x54, 0x99, 0x32, 0xd1, 0xf0, 0x85, 0x57, 0x68, 0x10, 0x93, 0xed, 0x9c, 0xbe, 0x2c, 0x97, 0x4e));
  }

  // ---------------------------------------------------------------------------
  // The rounds

  /** The first two steps of a round. */
  predicate Substituted(before: State, sub: State, shifted: State) {
    SubState(before) == sub && ShiftState(sub) == shifted
  }

  /** The other two, with the round key. */
  predicate Keyed(shifted: State, mixed: State, key: State, after: State) {
    Mixed(shifted, mixed) && XorState(mixed, key) == after
  }

  /** A round, from the state before it and its key. */
  lemma RoundIs(n: nat, before: State, key: State, sub: State, shifted: State, mixed: State, after: State)
    requires 1 <= n < ROUNDS && Rounds(PLAIN, Expanded(KEY), n - 1) == Bytes(before) && Key(n) == Bytes(key)
    requires Substituted(before, sub, shifted) && Keyed(shifted, mixed, key, after)
    ensures Rounds(PLAIN, Expanded(KEY), n) == Bytes(after)
  {
    hide SubBytes; hide ShiftRows; hide MixColumns; hide XorBlock; hide Bytes; hide KeyOf; hide Expanded;
    hide SubState; hide ShiftState; hide Mixed; hide XorState;
    SubIsState(before);
    ShiftIsState(sub);
    MixIsState(shifted, mixed);
    XorIsState(mixed, key);
  }

  lemma Round0()
    ensures Rounds(PLAIN, Expanded(KEY), 0) == Bytes(
          State(0x00, 0x10, 0x20, 0x30, 0x40, 0x50, 0x60, 0x70, 0x80, 0x90, 0xa0, 0xb0, 0xc0, 0xd0, 0xe0, 0xf0))
  {
    hide Expanded; hide KeyOf; hide XorBlock;
    FirstKey();
    XorIsState(State(0x00, 0x11, 0x22, 0x33, 0x44, 0x55, 0x66, 0x77, 0x88, 0x99, 0xaa, 0xbb, 0xcc, 0xdd, 0xee, 0xff),
               State(0x00, 0x01, 0x02, 0x03, 0x04, 0x05, 0x06, 0x07, 0x08, 0x09, 0x0a, 0x0b, 0x0c, 0x0d, 0x0e, 0x0f));
  }

  lemma Substituted1()
    ensures Substituted(
          State(0x00, 0x10, 0x20, 0x30, 0x40, 0x50, 0x60, 0x70, 0x80, 0x90, 0xa0, 0xb0, 0xc0, 0xd0, 0xe0, 0xf0),
          State(0x63, 0xca, 0xb7, 0x04, 0x09, 0x53, 0xd0, 0x51, 0xcd, 0x60, 0xe0, 0xe7, 0xba, 0x70, 0xe1, 0x8c),
          State(0x63, 0x53, 0xe0, 0x8c, 0x09, 0x60, 0xe1, 0x04, 0xcd, 0x70, 0xb7, 0x51, 0xba, 0xca, 0xd0, 0xe7))
  {
  }

  lemma Keyed1()
    ensures Keyed(State(0x63, 0x53, 0xe0, 0x8c, 0x09, 0x60, 0xe1, 0x04, 0xcd, 0x70, 0xb7, 0x51, 0xba, 0xca, 0xd0, 0xe7),
                  State(0x5f, 0x72, 0x64, 0x15, 0x57, 0xf5, 0xbc, 0x92, 0xf7, 0xbe, 0x3b, 0x29, 0x1d, 0xb9, 0xf9, 0x1a),
                  State(0xd6, 0xaa, 0x74, 0xfd, 0xd2, 0xaf, 0x72, 0xfa, 0xda, 0xa6, 0x78, 0xf1, 0xd6, 0xab, 0x76, 0xfe),
                  State(0x89, 0xd8, 0x10, 0xe8, 0x85, 0x5a, 0xce, 0x68, 0x2d, 0x18, 0x43, 0xd8, 0xcb, 0x12, 0x8f, 0xe4))
  {
  }

  lemma Round1()
    ensures Rounds(PLAIN, Expanded(KEY), 1) == Bytes(
          State(0x89, 0xd8, 0x10, 0xe8, 0x85, 0x5a, 0xce, 0x68, 0x2d, 0x18, 0x43, 0xd8, 0xcb, 0x12, 0x8f, 0xe4))
  {
    hide Key; hide Rounds; hide Bytes; hide Expanded; hide Substituted; hide Keyed;
    Key1();
    Round0();
    Substituted1();
    Keyed1();
    RoundIs(1, State(0x00, 0x10, 0x20, 0x30, 0x40, 0x50, 0x60, 0x70, 0x80, 0x90, 0xa0, 0xb0, 0xc0, 0xd0, 0xe0, 0xf0),
            State(0xd6, 0xaa, 0x74, 0xfd, 0xd2, 0xaf, 0x72, 0xfa, 0xda, 0xa6, 0x78, 0xf1, 0xd6, 0xab, 0x76, 0xfe),
            State(0x63, 0xca, 0xb7, 0x04, 0x09, 0x53, 0xd0, 0x51, 0xcd, 0x60, 0xe0, 0xe7, 0xba, 0x70, 0xe1, 0x8c),
            State(0x63, 0x53, 0xe0, 0x8c, 0x09, 0x60, 0xe1, 0x04, 0xcd, 0x70, 0xb7, 0x51, 0xba, 0xca, 0xd0, 0xe7),
            State(0x5f, 0x72, 0x64, 0x15, 0x57, 0xf5, 0xbc, 0x92, 0xf7, 0xbe, 0x3b, 0x29, 0x1d, 0xb9, 0xf9, 0x1a),
            State(0x89, 0xd8, 0x10, 0xe8, 0x85, 0x5a, 0xce, 0x68, 0x2d, 0x18, 0x43, 0xd8, 0xcb, 0x12, 0x8f, 0xe4));
  }

  lemma Substituted2()
    ensures Substituted(
          State(0x89, 0xd8, 0x10, 0xe8, 0x85, 0x5a, 0xce, 0x68, 0x2d, 0x18, 0x43, 0xd8, 0xcb, 0x12, 0x8f, 0xe4),
          State(0xa7, 0x61, 0xca, 0x9b, 0x97, 0xbe, 0x8b, 0x45, 0xd8, 0xad, 0x1a, 0x61, 0x1f, 0xc9, 0x73, 0x69),
          State(0xa7, 0xbe, 0x1a, 0x69, 0x97, 0xad, 0x73, 0x9b, 0xd8, 0xc9, 0xca, 0x45, 0x1f, 0x61, 0x8b, 0x61))
  {
  }

  lemma Keyed2()
    ensures Keyed(State(0xa7, 0xbe, 0x1a, 0x69, 0x97, 0xad, 0x73, 0x9b, 0xd8, 0xc9, 0xca, 0x45, 0x1f, 0x61, 0x8b, 0x61),
                  State(0xff, 0x87, 0x96, 0x84, 0x31, 0xd8, 0x6a, 0x51, 0x64, 0x51, 0x51, 0xfa, 0x77, 0x3a, 0xd0, 0x09),
                  State(0xb6, 0x92, 0xcf, 0x0b, 0x64, 0x3d, 0xbd, 0xf1, 0xbe, 0x9b, 0xc5, 0x00, 0x68, 0x30, 0xb3, 0xfe),
                  State(0x49, 0x15, 0x59, 0x8f, 0x55, 0xe5, 0xd7, 0xa0, 0xda, 0xca, 0x94, 0xfa, 0x1f, 0x0a, 0x63, 0xf7))
  {
  }

  lemma Round2()
    ensures Rounds(PLAIN, Expanded(KEY), 2) == Bytes(
          State(0x49, 0x15, 0x59, 0x8f, 0x55, 0xe5, 0xd7, 0xa0, 0xda, 0xca, 0x94, 0xfa, 0x1f, 0x0a, 0x63, 0xf7))
  {
    hide Key; hide Rounds; hide Bytes; hide Expanded; hide Substituted; hide Keyed;
    Key2();
    Round1();
    Substituted2();
    Keyed2();
    RoundIs(2, State(0x89, 0xd8, 0x10, 0xe8, 0x85, 0x5a, 0xce, 0x68, 0x2d, 0x18, 0x43, 0xd8, 0xcb, 0x12, 0x8f, 0xe4),
            State(0xb6, 0x92, 0xcf, 0x0b, 0x64, 0x3d, 0xbd, 0xf1, 0xbe, 0x9b, 0xc5, 0x00, 0x68, 0x30, 0xb3, 0xfe),
            State(0xa7, 0x61, 0xca, 0x9b, 0x97, 0xbe, 0x8b, 0x45, 0xd8, 0xad, 0x1a, 0x61, 0x1f, 0xc9, 0x73, 0x69),
            State(0xa7, 0xbe, 0x1a, 0x69, 0x97, 0xad, 0x73, 0x9b, 0xd8, 0xc9, 0xca, 0x45, 0x1f, 0x61, 0x8b, 0x61),
            State(0xff, 0x87, 0x96, 0x84, 0x31, 0xd8, 0x6a, 0x51, 0x64, 0x51, 0x51, 0xfa, 0x77, 0x3a, 0xd0, 0x09),
            State(0x49, 0x15, 0x59, 0x8f, 0x55, 0xe5, 0xd7, 0xa0, 0xda, 0xca, 0x94, 0xfa, 0x1f, 0x0a, 0x63, 0xf7));
  }

  lemma Substituted3()
    ensures Substituted(
          State(0x49, 0x15, 0x59, 0x8f, 0x55, 0xe5, 0xd7, 0xa0, 0xda, 0xca, 0x94, 0xfa, 0x1f, 0x0a, 0x63, 0xf7),
          State(0x3b, 0x59, 0xcb, 0x73, 0xfc, 0xd9, 0x0e, 0xe0, 0x57, 0x74, 0x22, 0x2d, 0xc0, 0x67, 0xfb, 0x68),
          State(0x3b, 0xd9, 0x22, 0x68, 0xfc, 0x74, 0xfb, 0x73, 0x57, 0x67, 0xcb, 0xe0, 0xc0, 0x59, 0x0e, 0x2d))
  {
  }

  lemma Keyed3()
    ensures Keyed(State(0x3b, 0xd9, 0x22, 0x68, 0xfc, 0x74, 0xfb, 0x73, 0x57, 0x67, 0xcb, 0xe0, 0xc0, 0x59, 0x0e, 0x2d),
                  State(0x4c, 0x9c, 0x1e, 0x66, 0xf7, 0x71, 0xf0, 0x76, 0x2c, 0x3f, 0x86, 0x8e, 0x53, 0x4d, 0xf2, 0x56),
                  State(0xb6, 0xff, 0x74, 0x4e, 0xd2, 0xc2, 0xc9, 0xbf, 0x6c, 0x59, 0x0c, 0xbf, 0x04, 0x69, 0xbf, 0x41),
                  State(0xfa, 0x63, 0x6a, 0x28, 0x25, 0xb3, 0x39, 0xc9, 0x40, 0x66, 0x8a, 0x31, 0x57, 0x24, 0x4d, 0x17))
  {
  }

  lemma Round3()
    ensures Rounds(PLAIN, Expanded(KEY), 3) == Bytes(
          State(0xfa, 0x63, 0x6a, 0x28, 0x25, 0xb3, 0x39, 0xc9, 0x40, 0x66, 0x8a, 0x31, 0x57, 0x24, 0x4d, 0x17))
  {
    hide Key; hide Rounds; hide Bytes; hide Expanded; hide Substituted; hide Keyed;
    Key3();
    Round2();
    Substituted3();
    Keyed3();
    RoundIs(3, State(0x49, 0x15, 0x59, 0x8f, 0x55, 0xe5, 0xd7, 0xa0, 0xda, 0xca, 0x94, 0xfa, 0x1f, 0x0a, 0x63, 0xf7),
            State(0xb6, 0xff, 0x74, 0x4e, 0xd2, 0xc2, 0xc9, 0xbf, 0x6c, 0x59, 0x0c, 0xbf, 0x04, 0x69, 0xbf, 0x41),
            State(0x3b, 0x59, 0xcb, 0x73, 0xfc, 0xd9, 0x0e, 0xe0, 0x57, 0x74, 0x22, 0x2d, 0xc0, 0x67, 0xfb, 0x68),
            State(0x3b, 0xd9, 0x22, 0x68, 0xfc, 0x74, 0xfb, 0x73, 0x57, 0x67, 0xcb, 0xe0, 0xc0, 0x59, 0x0e, 0x2d),
            State(0x4c, 0x9c, 0x1e, 0x66, 0xf7, 0x71, 0xf0, 0x76, 0x2c, 0x3f, 0x86, 0x8e, 0x53, 0x4d, 0xf2, 0x56),
            State(0xfa, 0x63, 0x6a, 0x28, 0x25, 0xb3, 0x39, 0xc9, 0x40, 0x66, 0x8a, 0x31, 0x57, 0x24, 0x4d, 0x17));
  }

  lemma Substituted4()
    ensures Substituted(
          State(0xfa, 0x63, 0x6a, 0x28, 0x25, 0xb3, 0x39, 0xc9, 0x40, 0x66, 0x8a, 0x31, 0x57, 0x24, 0x4d, 0x17),
          State(0x2d, 0xfb, 0x02, 0x34, 0x3f, 0x6d, 0x12, 0xdd, 0x09, 0x33, 0x7e, 0xc7, 0x5b, 0x36, 0xe3, 0xf0),
          State(0x2d, 0x6d, 0x7e, 0xf0, 0x3f, 0x33, 0xe3, 0x34, 0x09, 0x36, 0x02, 0xdd, 0x5b, 0xfb, 0x12, 0xc7))
  {
  }

  lemma Keyed4()
    ensures Keyed(State(0x2d, 0x6d, 0x7e, 0xf0, 0x3f, 0x33, 0xe3, 0x34, 0x09, 0x36, 0x02, 0xdd, 0x5b, 0xfb, 0x12, 0xc7),
                  State(0x63, 0x85, 0xb7, 0x9f, 0xfc, 0x53, 0x8d, 0xf9, 0x97, 0xbe, 0x47, 0x8e, 0x75, 0x47, 0xd6, 0x91),
                  State(0x47, 0xf7, 0xf7, 0xbc, 0x95, 0x35, 0x3e, 0x03, 0xf9, 0x6c, 0x32, 0xbc, 0xfd, 0x05, 0x8d, 0xfd),
                  State(0x24, 0x72, 0x40, 0x23, 0x69, 0x66, 0xb3, 0xfa, 0x6e, 0xd2, 0x75, 0x32, 0x88, 0x42, 0x5b, 0x6c))
  {
  }

  lemma Round4()
    ensures Rounds(PLAIN, Expanded(KEY), 4) == Bytes(
          State(0x24, 0x72, 0x40, 0x23, 0x69, 0x66, 0xb3, 0xfa, 0x6e, 0xd2, 0x75, 0x32, 0x88, 0x42, 0x5b, 0x6c))
  {
    hide Key; hide Rounds; hide Bytes; hide Expanded; hide Substituted; hide Keyed;
    Key4();
    Round3();
    Substituted4();
    Keyed4();
    RoundIs(4, State(0xfa, 0x63, 0x6a, 0x28, 0x25, 0xb3, 0x39, 0xc9, 0x40, 0x66, 0x8a, 0x31, 0x57, 0x24, 0x4d, 0x17),
            State(0x47, 0xf7, 0xf7, 0xbc, 0x95, 0x35, 0x3e, 0x03, 0xf9, 0x6c, 0x32, 0xbc, 0xfd, 0x05, 0x8d, 0xfd),
            State(0x2d, 0xfb, 0x02, 0x34, 0x3f, 0x6d, 0x12, 0xdd, 0x09, 0x33, 0x7e, 0xc7, 0x5b, 0x36, 0xe3, 0xf0),
            State(0x2d, 0x6d, 0x7e, 0xf0, 0x3f, 0x33, 0xe3, 0x34, 0x09, 0x36, 0x02, 0xdd, 0x5b, 0xfb, 0x12, 0xc7),
            State(0x63, 0x85, 0xb7, 0x9f, 0xfc, 0x53, 0x8d, 0xf9, 0x97, 0xbe, 0x47, 0x8e, 0x75, 0x47, 0xd6, 0x91),
            State(0x24, 0x72, 0x40, 0x23, 0x69, 0x66, 0xb3, 0xfa, 0x6e, 0xd2, 0x75, 0x32, 0x88, 0x42, 0x5b, 0x6c));
  }

  lemma Substituted5()
    ensures Substituted(
          State(0x24, 0x72, 0x40, 0x23, 0x69, 0x66, 0xb3, 0xfa, 0x6e, 0xd2, 0x75, 0x32, 0x88, 0x42, 0x5b, 0x6c),
          State(0x36, 0x40, 0x09, 0x26, 0xf9, 0x33, 0x6d, 0x2d, 0x9f, 0xb5, 0x9d, 0x23, 0xc4, 0x2c, 0x39, 0x50),
          State(0x36, 0x33, 0x9d, 0x50, 0xf9, 0xb5, 0x39, 0x26, 0x9f, 0x2c, 0x09, 0x2d, 0xc4, 0x40, 0x6d, 0x23))
  {
  }

  lemma Keyed5()
    ensures Keyed(State(0x36, 0x33, 0x9d, 0x50, 0xf9, 0xb5, 0x39, 0x26, 0x9f, 0x2c, 0x09, 0x2d, 0xc4, 0x40, 0x6d, 0x23),
                  State(0xf4, 0xbc, 0xd4, 0x54, 0x32, 0xe5, 0x54, 0xd0, 0x75, 0xf1, 0xd6, 0xc5, 0x1d, 0xd0, 0x3b, 0x3c),
                  State(0x3c, 0xaa, 0xa3, 0xe8, 0xa9, 0x9f, 0x9d, 0xeb, 0x50, 0xf3, 0xaf, 0x57, 0xad, 0xf6, 0x22, 0xaa),
                  State(0xc8, 0x16, 0x77, 0xbc, 0x9b, 0x7a, 0xc9, 0x3b, 0x25, 0x02, 0x79, 0x92, 0xb0, 0x26, 0x19, 0x96))
  {
  }

  lemma Round5()
    ensures Rounds(PLAIN, Expanded(KEY), 5) == Bytes(
          State(0xc8, 0x16, 0x77, 0xbc, 0x9b, 0x7a, 0xc9, 0x3b, 0x25, 0x02, 0x79, 0x92, 0xb0, 0x26, 0x19, 0x96))
  {
    hide Key; hide Rounds; hide Bytes; hide Expanded; hide Substituted; hide Keyed;
    Key5();
    Round4();
    Substituted5();
    Keyed5();
    RoundIs(5, State(0x24, 0x72, 0x40, 0x23, 0x69, 0x66, 0xb3, 0xfa, 0x6e, 0xd2, 0x75, 0x32, 0x88, 0x42, 0x5b, 0x6c),
            State(0x3c, 0xaa, 0xa3, 0xe8, 0xa9, 0x9f, 0x9d, 0xeb, 0x50, 0xf3, 0xaf, 0x57, 0xad, 0xf6, 0x22, 0xaa),
            State(0x36, 0x40, 0x09, 0x26, 0xf9, 0x33, 0x6d, 0x2d, 0x9f, 0xb5, 0x9d, 0x23, 0xc4, 0x2c, 0x39, 0x50),
            State(0x36, 0x33, 0x9d, 0x50, 0xf9, 0xb5, 0x39, 0x26, 0x9f, 0x2c, 0x09, 0x2d, 0xc4, 0x40, 0x6d, 0x23),
            State(0xf4, 0xbc, 0xd4, 0x54, 0x32, 0xe5, 0x54, 0xd0, 0x75, 0xf1, 0xd6, 0xc5, 0x1d, 0xd0, 0x3b, 0x3c),
            State(0xc8, 0x16, 0x77, 0xbc, 0x9b, 0x7a, 0xc9, 0x3b, 0x25, 0x02, 0x79, 0x92, 0xb0, 0x26, 0x19, 0x96));
  }

  lemma Substituted6()
    ensures Substituted(
          State(0xc8, 0x16, 0x77, 0xbc, 0x9b, 0x7a, 0xc9, 0x3b, 0x25, 0x02, 0x79, 0x92, 0xb0, 0x26, 0x19, 0x96),
          State(0xe8, 0x47, 0xf5, 0x65, 0x14, 0xda, 0xdd, 0xe2, 0x3f, 0x77, 0xb6, 0x4f, 0xe7, 0xf7, 0xd4, 0x90),
          State(0xe8, 0xda, 0xb6, 0x90, 0x14, 0x77, 0xd4, 0x65, 0x3f, 0xf7, 0xf5, 0xe2, 0xe7, 0x47, 0xdd, 0x4f))
  {
  }

  lemma Keyed6()
    ensures Keyed(State(0xe8, 0xda, 0xb6, 0x90, 0x14, 0x77, 0xd4, 0x65, 0x3f, 0xf7, 0xf5, 0xe2, 0xe7, 0x47, 0xdd, 0x4f),
                  State(0x98, 0x16, 0xee, 0x74, 0x00, 0xf8, 0x7f, 0x55, 0x6b, 0x2c, 0x04, 0x9c, 0x8e, 0x5a, 0xd0, 0x36),
                  State(0x5e, 0x39, 0x0f, 0x7d, 0xf7, 0xa6, 0x92, 0x96, 0xa7, 0x55, 0x3d, 0xc1, 0x0a, 0xa3, 0x1f, 0x6b),
                  State(0xc6, 0x2f, 0xe1, 0x09, 0xf7, 0x5e, 0xed, 0xc3, 0xcc, 0x79, 0x39, 0x5d, 0x84, 0xf9, 0xcf, 0x5d))
  {
  }

  lemma Round6()
    ensures Rounds(PLAIN, Expanded(KEY), 6) == Bytes(
          State(0xc6, 0x2f, 0xe1, 0x09, 0xf7, 0x5e, 0xed, 0xc3, 0xcc, 0x79, 0x39, 0x5d, 0x84, 0xf9, 0xcf, 0x5d))
  {
    hide Key; hide Rounds; hide Bytes; hide Expanded; hide Substituted; hide Keyed;
    Key6();
    Round5();
    Substituted6();
    Keyed6();
    RoundIs(6, State(0xc8, 0x16, 0x77, 0xbc, 0x9b, 0x7a, 0xc9, 0x3b, 0x25, 0x02, 0x79, 0x92, 0xb0, 0x26, 0x19, 0x96),
            State(0x5e, 0x39, 0x0f, 0x7d, 0xf7, 0xa6, 0x92, 0x96, 0xa7, 0x55, 0x3d, 0xc1, 0x0a, 0xa3, 0x1f, 0x6b),
            State(0xe8, 0x47, 0xf5, 0x65, 0x14, 0xda, 0xdd, 0xe2, 0x3f, 0x77, 0xb6, 0x4f, 0xe7, 0xf7, 0xd4, 0x90),
            State(0xe8, 0xda, 0xb6, 0x90, 0x14, 0x77, 0xd4, 0x65, 0x3f, 0xf7, 0xf5, 0xe2, 0xe7, 0x47, 0xdd, 0x4f),
            State(0x98, 0x16, 0xee, 0x74, 0x00, 0xf8, 0x7f, 0x55, 0x6b, 0x2c, 0x04, 0x9c, 0x8e, 0x5a, 0xd0, 0x36),
            State(0xc6, 0x2f, 0xe1, 0x09, 0xf7, 0x5e, 0xed, 0xc3, 0xcc, 0x79, 0x39, 0x5d, 0x84, 0xf9, 0xcf, 0x5d));
  }

  lemma Substituted7()
    ensures Substituted(
          State(0xc6, 0x2f, 0xe1, 0x09, 0xf7, 0x5e, 0xed, 0xc3, 0xcc, 0x79, 0x39, 0x5d, 0x84, 0xf9, 0xcf, 0x5d),
          State(0xb4, 0x15, 0xf8, 0x01, 0x68, 0x58, 0x55, 0x2e, 0x4b, 0xb6, 0x12, 0x4c, 0x5f, 0x99, 0x8a, 0x4c),
          State(0xb4, 0x58, 0x12, 0x4c, 0x68, 0xb6, 0x8a, 0x01, 0x4b, 0x99, 0xf8, 0x2e, 0x5f, 0x15, 0x55, 0x4c))
  {
  }

  lemma Keyed7()
    ensures Keyed(State(0xb4, 0x58, 0x12, 0x4c, 0x68, 0xb6, 0x8a, 0x01, 0x4b, 0x99, 0xf8, 0x2e, 0x5f, 0x15, 0x55, 0x4c),
                  State(0xc5, 0x7e, 0x1c, 0x15, 0x9a, 0x9b, 0xd2, 0x86, 0xf0, 0x5f, 0x4b, 0xe0, 0x98, 0xc6, 0x34, 0x39),
                  State(0x14, 0xf9, 0x70, 0x1a, 0xe3, 0x5f, 0xe2, 0x8c, 0x44, 0x0a, 0xdf, 0x4d, 0x4e, 0xa9, 0xc0, 0x26),
                  State(0xd1, 0x87, 0x6c, 0x0f, 0x79, 0xc4, 0x30, 0x0a, 0xb4, 0x55, 0x94, 0xad, 0xd6, 0x6f, 0xf4, 0x1f))
  {
  }

  lemma Round7()
    ensures Rounds(PLAIN, Expanded(KEY), 7) == Bytes(
          State(0xd1, 0x87, 0x6c, 0x0f, 0x79, 0xc4, 0x30, 0x0a, 0xb4, 0x55, 0x94, 0xad, 0xd6, 0x6f, 0xf4, 0x1f))
  {
    hide Key; hide Rounds; hide Bytes; hide Expanded; hide Substituted; hide Keyed;
    Key7();
    Round6();
    Substituted7();
    Keyed7();
    RoundIs(7, State(0xc6, 0x2f, 0xe1, 0x09, 0xf7, 0x5e, 0xed, 0xc3, 0xcc, 0x79, 0x39, 0x5d, 0x84, 0xf9, 0xcf, 0x5d),
            State(0x14, 0xf9, 0x70, 0x1a, 0xe3, 0x5f, 0xe2, 0x8c, 0x44, 0x0a, 0xdf, 0x4d, 0x4e, 0xa9, 0xc0, 0x26),
            State(0xb4, 0x15, 0xf8, 0x01, 0x68, 0x58, 0x55, 0x2e, 0x4b, 0xb6, 0x12, 0x4c, 0x5f, 0x99, 0x8a, 0x4c),
            State(0xb4, 0x58, 0x12, 0x4c, 0x68, 0xb6, 0x8a, 0x01, 0x4b, 0x99, 0xf8, 0x2e, 0x5f, 0x15, 0x55, 0x4c),
            State(0xc5, 0x7e, 0x1c, 0x15, 0x9a, 0x9b, 0xd2, 0x86, 0xf0, 0x5f, 0x4b, 0xe0, 0x98, 0xc6, 0x34, 0x39),
            State(0xd1, 0x87, 0x6c, 0x0f, 0x79, 0xc4, 0x30, 0x0a, 0xb4, 0x55, 0x94, 0xad, 0xd6, 0x6f, 0xf4, 0x1f));
  }

  lemma Substituted8()
    ensures Substituted(
          State(0xd1, 0x87, 0x6c, 0x0f, 0x79, 0xc4, 0x30, 0x0a, 0xb4, 0x55, 0x94, 0xad, 0xd6, 0x6f, 0xf4, 0x1f),
          State(0x3e, 0x17, 0x50, 0x76, 0xb6, 0x1c, 0x04, 0x67, 0x8d, 0xfc, 0x22, 0x95, 0xf6, 0xa8, 0xbf, 0xc0),
          State(0x3e, 0x1c, 0x22, 0xc0, 0xb6, 0xfc, 0xbf, 0x76, 0x8d, 0xa8, 0x50, 0x67, 0xf6, 0x17, 0x04, 0x95))
  {
  }

  lemma Keyed8()
    ensures Keyed(State(0x3e, 0x1c, 0x22, 0xc0, 0xb6, 0xfc, 0xbf, 0x76, 0x8d, 0xa8, 0x50, 0x67, 0xf6, 0x17, 0x04, 0x95),
                  State(0xba, 0xa0, 0x3d, 0xe7, 0xa1, 0xf9, 0xb5, 0x6e, 0xd5, 0x51, 0x2c, 0xba, 0x5f, 0x41, 0x4d, 0x23),
                  State(0x47, 0x43, 0x87, 0x35, 0xa4, 0x1c, 0x65, 0xb9, 0xe0, 0x16, 0xba, 0xf4, 0xae, 0xbf, 0x7a, 0xd2),
                  State(0xfd, 0xe3, 0xba, 0xd2, 0x05, 0xe5, 0xd0, 0xd7, 0x35, 0x47, 0x96, 0x4e, 0xf1, 0xfe, 0x37, 0xf1))
  {
  }

  lemma Round8()
    ensures Rounds(PLAIN, Expanded(KEY), 8) == Bytes(
          State(0xfd, 0xe3, 0xba, 0xd2, 0x05, 0xe5, 0xd0, 0xd7, 0x35, 0x47, 0x96, 0x4e, 0xf1, 0xfe, 0x37, 0xf1))
  {
    hide Key; hide Rounds; hide Bytes; hide Expanded; hide Substituted; hide Keyed;
    Key8();
    Round7();
    Substituted8();
    Keyed8();
    RoundIs(8, State(0xd1, 0x87, 0x6c, 0x0f, 0x79, 0xc4, 0x30, 0x0a, 0xb4, 0x55, 0x94, 0xad, 0xd6, 0x6f, 0xf4, 0x1f),
            State(0x47, 0x43, 0x87, 0x35, 0xa4, 0x1c, 0x65, 0xb9, 0xe0, 0x16, 0xba, 0xf4, 0xae, 0xbf, 0x7a, 0xd2),
            State(0x3e, 0x17, 0x50, 0x76, 0xb6, 0x1c, 0x04, 0x67, 0x8d, 0xfc, 0x22, 0x95, 0xf6, 0xa8, 0xbf, 0xc0),
            State(0x3e, 0x1c, 0x22, 0xc0, 0xb6, 0xfc, 0xbf, 0x76, 0x8d, 0xa8, 0x50, 0x67, 0xf6, 0x17, 0x04, 0x95),
            State(0xba, 0xa0, 0x3d, 0xe7, 0xa1, 0xf9, 0xb5, 0x6e, 0xd5, 0x51, 0x2c, 0xba, 0x5f, 0x41, 0x4d, 0x23),
            State(0xfd, 0xe3, 0xba, 0xd2, 0x05, 0xe5, 0xd0, 0xd7, 0x35, 0x47, 0x96, 0x4e, 0xf1, 0xfe, 0x37, 0xf1));
  }

  lemma Substituted9()
    ensures Substituted(
          State(0xfd, 0xe3, 0xba, 0xd2, 0x05, 0xe5, 0xd0, 0xd7, 0x35, 0x47, 0x96, 0x4e, 0xf1, 0xfe, 0x37, 0xf1),
          State(0x54, 0x11, 0xf4, 0xb5, 0x6b, 0xd9, 0x70, 0x0e, 0x96, 0xa0, 0x90, 0x2f, 0xa1, 0xbb, 0x9a, 0xa1),
          State(0x54, 0xd9, 0x90, 0xa1, 0x6b, 0xa0, 0x9a, 0xb5, 0x96, 0xbb, 0xf4, 0x0e, 0xa1, 0x11, 0x70, 0x2f))
  {
  }

  lemma Keyed9()
    ensures Keyed(State(0x54, 0xd9, 0x90, 0xa1, 0x6b, 0xa0, 0x9a, 0xb5, 0x96, 0xbb, 0xf4, 0x0e, 0xa1, 0x11, 0x70, 0x2f),
                  State(0xe9, 0xf7, 0x4e, 0xec, 0x02, 0x30, 0x20, 0xf6, 0x1b, 0xf2, 0xcc, 0xf2, 0x35, 0x3c, 0x21, 0xc7),
                  State(0x54, 0x99, 0x32, 0xd1, 0xf0, 0x85, 0x57, 0x68, 0x10, 0x93, 0xed, 0x9c, 0xbe, 0x2c, 0x97, 0x4e),
                  State(0xbd, 0x6e, 0x7c, 0x3d, 0xf2, 0xb5, 0x77, 0x9e, 0x0b, 0x61, 0x21, 0x6e, 0x8b, 0x10, 0xb6, 0x89))
  {
  }

  lemma Round9()
    ensures Rounds(PLAIN, Expanded(KEY), 9) == Bytes(
          State(0xbd, 0x6e, 0x7c, 0x3d, 0xf2, 0xb5, 0x77, 0x9e, 0x0b, 0x61, 0x21, 0x6e, 0x8b, 0x10, 0xb6, 0x89))
  {
    hide Key; hide Rounds; hide Bytes; hide Expanded; hide Substituted; hide Keyed;
    Key9();
    Round8();
    Substituted9();
    Keyed9();
    RoundIs(9, State(0xfd, 0xe3, 0xba, 0xd2, 0x05, 0xe5, 0xd0, 0xd7, 0x35, 0x47, 0x96, 0x4e, 0xf1, 0xfe, 0x37, 0xf1),
            State(0x54, 0x99, 0x32, 0xd1, 0xf0, 0x85, 0x57, 0x68, 0x10, 0x93, 0xed, 0x9c, 0xbe, 0x2c, 0x97, 0x4e),
            State(0x54, 0x11, 0xf4, 0xb5, 0x6b, 0xd9, 0x70, 0x0e, 0x96, 0xa0, 0x90, 0x2f, 0xa1, 0xbb, 0x9a, 0xa1),
            State(0x54, 0xd9, 0x90, 0xa1, 0x6b, 0xa0, 0x9a, 0xb5, 0x96, 0xbb, 0xf4, 0x0e, 0xa1, 0x11, 0x70, 0x2f),
            State(0xe9, 0xf7, 0x4e, 0xec, 0x02, 0x30, 0x20, 0xf6, 0x1b, 0xf2, 0xcc, 0xf2, 0x35, 0x3c, 0x21, 0xc7),
            State(0xbd, 0x6e, 0x7c, 0x3d, 0xf2, 0xb5, 0x77, 0x9e, 0x0b, 0x61, 0x21, 0x6e, 0x8b, 0x10, 0xb6, 0x89));
  }

  lemma LastRound(before: State, key: State, after: State)
    requires Rounds(PLAIN, Expanded(KEY), ROUNDS - 1) == Bytes(before) && Key(ROUNDS) == Bytes(key)
    requires XorState(ShiftState(SubState(before)), key) == after
    ensures Cipher(PLAIN, Expanded(KEY)) == Bytes(after)
  {
    hide SubBytes; hide ShiftRows; hide XorBlock; hide Bytes; hide KeyOf; hide Expanded; hide Rounds;
    hide SubState; hide ShiftState; hide XorState;
    SubIsState(before);
    ShiftIsState(SubState(before));
    XorIsState(ShiftState(SubState(before)), key);
  }

  /** The example of the standard: this plaintext is encrypted to this ciphertext under this
      key, expanded. */
  lemma CipherOfExample()
    ensures Cipher([0x00, 0x11, 0x22, 0x33, 0x44, 0x55, 0x66, 0x77, 0x88, 0x99, 0xaa, 0xbb, 0xcc, 0xdd, 0xee, 0xff],
                   Expanded(
                     [0x00, 0x01, 0x02, 0x03, 0x04, 0x05, 0x06, 0x07, 0x08, 0x09, 0x0a, 0x0b, 0x0c, 0x0d, 0x0e, 0x0f]))
            == [0x69, 0xc4, 0xe0, 0xd8, 0x6a, 0x7b, 0x04, 0x30, 0xd8, 0xcd, 0xb7, 0x80, 0x70, 0xb4, 0xc5, 0x5a]
  {
    hide Key; hide Rounds; hide Cipher; hide Expanded;
    Round9();
    Key10();
    LastRound(State(0xbd, 0x6e, 0x7c, 0x3d, 0xf2, 0xb5, 0x77, 0x9e, 0x0b, 0x61, 0x21, 0x6e, 0x8b, 0x10, 0xb6, 0x89),
              State(0x13, 0x11, 0x1d, 0x7f, 0xe3, 0x94, 0x4a, 0x17, 0xf3, 0x07, 0xa7, 0x8b, 0x4d, 0x2b, 0x30, 0xc5),
              State(0x69, 0xc4, 0xe0, 0xd8, 0x6a, 0x7b, 0x04, 0x30, 0xd8, 0xcd, 0xb7, 0x80, 0x70, 0xb4, 0xc5, 0x5a));
  }
}
