/** SHA-256 in streaming form (FIPS 180-4): sixteen words of message schedule that roll
    over the context's own input buffer, padding, and the equality with one-shot hashing. */
module Sha256 {
  import Bits

  const BLOCK_LENGTH: nat := 64
  const DIGEST_LENGTH: nat := 32
  const SHORT_BLOCK_LENGTH: nat := 56
  /** The standard defines messages of less than 2^64 bits. */
  const MAX_MESSAGE: nat := 0x2000_0000_0000_0000

  const K256: seq<bv32> :=
    [0x428a2f98, 0x71374491, 0xb5c0fbcf, 0xe9b5dba5, 0x3956c25b, 0x59f111f1, 0x923f82a4, 0xab1c5ed5] +
    [0xd807aa98, 0x12835b01, 0x243185be, 0x550c7dc3, 0x72be5d74, 0x80deb1fe, 0x9bdc06a7, 0xc19bf174] +
    [0xe49b69c1, 0xefbe4786, 0x0fc19dc6, 0x240ca1cc, 0x2de92c6f, 0x4a7484aa, 0x5cb0a9dc, 0x76f988da] +
    [0x983e5152, 0xa831c66d, 0xb00327c8, 0xbf597fc7, 0xc6e00bf3, 0xd5a79147, 0x06ca6351, 0x14292967] +
    [0x27b70a85, 0x2e1b2138, 0x4d2c6dfc, 0x53380d13, 0x650a7354, 0x766a0abb, 0x81c2c92e, 0x92722c85] +
    [0xa2bfe8a1, 0xa81a664b, 0xc24b8b70, 0xc76c51a3, 0xd192e819, 0xd6990624, 0xf40e3585, 0x106aa070] +
    [0x19a4c116, 0x1e376c08, 0x2748774c, 0x34b0bcb5, 0x391c0cb3, 0x4ed8aa4a, 0x5b9cca4f, 0x682e6ff3] +
    [0x748f82ee, 0x78a5636f, 0x84c87814, 0x8cc70208, 0x90befffa, 0xa4506ceb, 0xbef9a3f7, 0xc67178f2]

  // ---------------------------------------------------------------------------
  // The specification (sections 4.1.2, 5.1.1 and 6.2 of FIPS 180-4)

  function Rotr(n: nat, x: bv32): bv32
    requires 0 < n < 32
  {
    (x >> n) | (x << (32 - n))
  }

  function Ch(x: bv32, y: bv32, z: bv32): bv32 {
    (x & y) ^ ((!x) & z)
  }

  function Maj(x: bv32, y: bv32, z: bv32): bv32 {
    (x & y) ^ (x & z) ^ (y & z)
  }

  function BigSigma0(x: bv32): bv32 {
    Rotr(2, x) ^ Rotr(13, x) ^ Rotr(22, x)
  }

  function BigSigma1(x: bv32): bv32 {
    Rotr(6, x) ^ Rotr(11, x) ^ Rotr(25, x)
  }

  function SmallSigma0(x: bv32): bv32 {
    Rotr(7, x) ^ Rotr(18, x) ^ (x >> 3)
  }

  function SmallSigma1(x: bv32): bv32 {
    Rotr(17, x) ^ Rotr(19, x) ^ (x >> 10)
  }

  /** The eight working variables, or a hash value. */
  datatype Regs = Regs(a: bv32, b: bv32, c: bv32, d: bv32, e: bv32, f: bv32, g: bv32, h: bv32)

  const INITIAL: Regs := Regs(0x6a09e667, 0xbb67ae85, 0x3c6ef372, 0xa54ff53a,
                              0x510e527f, 0x9b05688c, 0x1f83d9ab, 0x5be0cd19)

  function Add(x: bv32, y: bv32): bv32 {
    x + y
  }

  function Round(r: Regs, k: bv32, w: bv32): Regs {
    var t1 := Add(Add(Add(Add(r.h, BigSigma1(r.e)), Ch(r.e, r.f, r.g)), k), w);
    var t2 := Add(BigSigma0(r.a), Maj(r.a, r.b, r.c));
    Regs(Add(t1, t2), r.a, r.b, r.c, Add(r.d, t1), r.e, r.f, r.g)
  }

  function AddRegs(x: Regs, y: Regs): Regs {
    Regs(Add(x.a, y.a), Add(x.b, y.b), Add(x.c, y.c), Add(x.d, y.d),
         Add(x.e, y.e), Add(x.f, y.f), Add(x.g, y.g), Add(x.h, y.h))
  }

  type Words = s: seq<bv32> | |s| == 16 witness seq(16, _ => 0)
  type MessageBlock = s: seq<bv8> | |s| == BLOCK_LENGTH witness seq(BLOCK_LENGTH, _ => 0)

  /** Word t of the message schedule, all 64 of them from the sixteen words of a block. */
  function ScheduleWord(m: Words, t: nat): bv32
    decreases t
  {
    if t < 16 then m[t]
    else
      Add(Add(Add(SmallSigma1(ScheduleWord(m, t - 2)), ScheduleWord(m, t - 7)), SmallSigma0(ScheduleWord(m, t - 15))),
          ScheduleWord(m, t - 16))
  }

  function Rounds(r: Regs, m: Words, n: nat): Regs
    requires n <= 64
    decreases n
  {
    if n == 0 then r else Round(Rounds(r, m, n - 1), K256[n - 1], ScheduleWord(m, n - 1))
  }

  function BigEndian(a: bv8, b: bv8, c: bv8, d: bv8): bv32 {
    ((a as bv32) << 24) | ((b as bv32) << 16) | ((c as bv32) << 8) | (d as bv32)
  }

  function WordsOf(block: MessageBlock): Words {
    seq(16, i requires 0 <= i < 16 => BigEndian(block[4 * i], block[4 * i + 1], block[4 * i + 2], block[4 * i + 3]))
  }

  function Compress(h: Regs, block: MessageBlock): Regs {
    AddRegs(h, Rounds(h, WordsOf(block), 64))
  }

  /** The hash value after all blocks of s. */
  function HashBlocks(s: seq<bv8>): Regs
    requires |s| % BLOCK_LENGTH == 0
    decreases |s|
  {
    hide Compress;
    if s == [] then INITIAL
    else Compress(HashBlocks(s[..|s| - BLOCK_LENGTH]), s[|s| - BLOCK_LENGTH..])
  }

  function Zeros(n: nat): (s: seq<bv8>)
    ensures |s| == n
  {
    seq(n, _ => 0)
  }

  function ByteOfLength(n: nat, place: nat): bv8
    requires 0 < place
  {
    (n / place % 256) as bv8
  }

  /** A 64-bit length, most significant byte first. */
  function Length64(n: nat): (s: seq<bv8>)
    ensures |s| == 8
  {
    [ByteOfLength(n, 0x100_0000_0000_0000), ByteOfLength(n, 0x1_0000_0000_0000),
     ByteOfLength(n, 0x100_0000_0000), ByteOfLength(n, 0x1_0000_0000),
     ByteOfLength(n, 0x100_0000), ByteOfLength(n, 0x1_0000), ByteOfLength(n, 0x100), ByteOfLength(n, 1)]
  }

  /** As few 0 bytes as make whole blocks. */
  function PadZeros(n: nat): (k: nat)
    ensures (n + 1 + k + 8) % BLOCK_LENGTH == 0 && k < BLOCK_LENGTH
  {
    if n % BLOCK_LENGTH <= 55 then 55 - n % BLOCK_LENGTH else 119 - n % BLOCK_LENGTH
  }

  /** A 1 bit, 0 bits, and the length in bits. */
  function Padding(n: nat): (s: seq<bv8>)
    ensures |s| == 1 + PadZeros(n) + 8
  {
    hide PadZeros; hide Length64;
    [0x80] + Zeros(PadZeros(n)) + Length64(8 * n)
  }

  function WordBytes(w: bv32): (s: seq<bv8>)
    ensures |s| == 4
  {
    [((w >> 24) & 0xff) as bv8, ((w >> 16) & 0xff) as bv8, ((w >> 8) & 0xff) as bv8, (w & 0xff) as bv8]
  }

  function DigestOf(r: Regs): (s: seq<bv8>)
    ensures |s| == DIGEST_LENGTH
  {
    WordBytes(r.a) + WordBytes(r.b) + WordBytes(r.c) + WordBytes(r.d)
    + WordBytes(r.e) + WordBytes(r.f) + WordBytes(r.g) + WordBytes(r.h)
  }

  /** The digest of a whole message. */
  function Digest(m: seq<bv8>): (s: seq<bv8>)
    ensures |s| == DIGEST_LENGTH
  {
    DigestOf(HashBlocks(m + Padding(|m|)))
  }

  lemma HashOneMore(s: seq<bv8>, block: MessageBlock)
    requires |s| % BLOCK_LENGTH == 0
    ensures |s + block| % BLOCK_LENGTH == 0 && HashBlocks(s + block) == Compress(HashBlocks(s), block)
  {
    hide Compress;
    var t := s + block;
    assert t[..|t| - BLOCK_LENGTH] == s && t[|t| - BLOCK_LENGTH..] == block;
  }

  // ---------------------------------------------------------------------------
  // The message schedule in sixteen words

  /** The word that the machine keeps at byte 4i, least significant byte first. */
  function LoadWord(s: seq<bv8>, i: nat): bv32
    requires 4 * i + 4 <= |s|
  {
    BigEndian(s[4 * i + 3], s[4 * i + 2], s[4 * i + 1], s[4 * i])
  }

  function WordBuffer(s: MessageBlock): Words {
    seq(16, i requires 0 <= i < 16 => LoadWord(s, i))
  }

  lemma LoadStored(w: bv32)
    ensures var b := WordBytes(w); BigEndian(b[0], b[1], b[2], b[3]) == w
  {
  }

  /** Place t mod 16 holds word t, for the last sixteen words before j. */
  ghost predicate Rolling(w: Words, m: Words, j: nat)
  {
    forall t | 0 <= t < j && j - 16 <= t :: w[t % 16] == ScheduleWord(m, t)
  }

  lemma RollingStep(w: Words, m: Words, j: nat)
    requires Rolling(w, m, j)
    ensures Rolling(w[j % 16 := ScheduleWord(m, j)], m, j + 1)
  {
    hide ScheduleWord;
    var w' := w[j % 16 := ScheduleWord(m, j)];
    forall t | 0 <= t < j + 1 && j + 1 - 16 <= t
      ensures w'[t % 16] == ScheduleWord(m, t)
    {
      if t < j {
        DistinctPlaces(t, j);
      }
    }
  }

  lemma DistinctPlaces(t: nat, j: nat)
    requires t < j < t + 16
    ensures t % 16 != j % 16
  {
  }

  /** In place, word j is the sum of four words still in the buffer. */
  lemma NextWord(w: Words, m: Words, j: nat)
    requires Rolling(w, m, j) && 16 <= j
    ensures Add(w[j % 16], Add(Add(SmallSigma1(w[(j + 14) % 16]), w[(j + 9) % 16]), SmallSigma0(w[(j + 1) % 16])))
         == ScheduleWord(m, j)
  {
    hide SmallSigma0; hide SmallSigma1; hide Add;
    assert (j - 16) % 16 == j % 16 && (j - 15) % 16 == (j + 1) % 16;
    assert (j - 7) % 16 == (j + 9) % 16 && (j - 2) % 16 == (j + 14) % 16;
    assert w[j % 16] == ScheduleWord(m, j - 16) && w[(j + 1) % 16] == ScheduleWord(m, j - 15);
    assert w[(j + 9) % 16] == ScheduleWord(m, j - 7) && w[(j + 14) % 16] == ScheduleWord(m, j - 2);
    AddCommutes(w[j % 16], Add(Add(SmallSigma1(w[(j + 14) % 16]), w[(j + 9) % 16]), SmallSigma0(w[(j + 1) % 16])));
  }

  lemma AddCommutes(x: bv32, y: bv32)
    ensures Add(x, y) == Add(y, x)
  {
  }

  // ---------------------------------------------------------------------------

  class Context {
    var state: Regs
    var bitcount: nat
    const buffer: array<bv8>

    /** All bytes fed so far. */
    ghost var fed: seq<bv8>

    ghost predicate Valid()
      reads this, buffer
    {
      && buffer.Length == BLOCK_LENGTH && |fed| < MAX_MESSAGE && bitcount == 8 * |fed|
      && Absorbed(state, buffer[..], fed)
    }

    constructor ()
      ensures Valid() && fed == [] && fresh(buffer)
    {
      buffer := new bv8[BLOCK_LENGTH](_ => 0);
      state, bitcount, fed := INITIAL, 0, [];
    }

    /** sha256_init */
    method Init()
      requires buffer.Length == BLOCK_LENGTH
      modifies this, buffer
      ensures Valid() && fed == []
    {
      forall i | 0 <= i < BLOCK_LENGTH {
        buffer[i] := 0;
      }
      state, bitcount, fed := INITIAL, 0, [];
    }

    /** The word overlay of the buffer. */
    method StoreWord(j: nat, w: bv32)
      requires buffer.Length == BLOCK_LENGTH && j < 16
      modifies buffer
      ensures WordBuffer(buffer[..]) == WordBuffer(old(buffer[..]))[j := w]
      ensures buffer[4 * j + 4..] == old(buffer[4 * j + 4..])
    {
      hide BigEndian; hide WordBytes;
      LoadStored(w);
      var b := WordBytes(w);
      buffer[4 * j + 3], buffer[4 * j + 2], buffer[4 * j + 1], buffer[4 * j] := b[0], b[1], b[2], b[3];
      WordStored(buffer[..], old(buffer[..]), j, w);
    }

    method Word(j: nat) returns (w: bv32)
      requires buffer.Length == BLOCK_LENGTH && j < 16
      ensures w == WordBuffer(buffer[..])[j]
    {
      hide BigEndian;
      w := BigEndian(buffer[4 * j + 3], buffer[4 * j + 2], buffer[4 * j + 1], buffer[4 * j]);
    }

    /** sha256_transform on the 64 bytes at o of data. Its schedule lives in the buffer,
        and data may be the buffer itself: every word is read before its place is
        written. */
    method Transform(data: array<bv8>, o: nat)
      requires buffer.Length == BLOCK_LENGTH && o + BLOCK_LENGTH <= data.Length
      modifies `state, buffer
      ensures state == Compress(old(state), old(data[o..o + BLOCK_LENGTH]))
    {
      hide Round; hide BigEndian; hide WordBuffer; hide ScheduleWord; hide Rolling; hide AddRegs;
      ghost var m := WordsOf(data[o..o + BLOCK_LENGTH]);
      var r := TakeWords(data, o);
      for j := 16 to 64
        modifies buffer
        invariant Rolling(WordBuffer(buffer[..]), m, j) && r == Rounds(old(state), m, j)
      {
        var w := Expand(m, j);
        r := Round(r, K256[j], w);
      }
      state := AddRegs(state, r);
    }

    /** Sixteen rounds, copying the block into the buffer word by word. */
    method TakeWords(data: array<bv8>, o: nat) returns (r: Regs)
      requires buffer.Length == BLOCK_LENGTH && o + BLOCK_LENGTH <= data.Length
      modifies buffer
      ensures var m := WordsOf(old(data[o..o + BLOCK_LENGTH]));
              Rolling(WordBuffer(buffer[..]), m, 16) && r == Rounds(state, m, 16)
    {
      hide Round; hide BigEndian; hide WordBuffer; hide WordsOf; hide Loaded; hide Rolling;
      ghost var block := data[o..o + BLOCK_LENGTH];
      ghost var m := WordsOf(block);
      r := state;
      NoneLoaded(WordBuffer(buffer[..]), m);
      assert block[0..] == block;
      for j := 0 to 16
        modifies buffer
        invariant Loaded(WordBuffer(buffer[..]), m, j) && r == Rounds(state, m, j)
        invariant data[o + 4 * j..o + BLOCK_LENGTH] == block[4 * j..]
      {
        ghost var w := WordBuffer(buffer[..]);
        var u32 := TakeOne(data, o, j, block);
        LoadedStep(w, m, j);
        r := Round(r, K256[j], u32);
      }
      AllLoaded(WordBuffer(buffer[..]), m);
    }

    method TakeOne(data: array<bv8>, o: nat, j: nat, ghost block: MessageBlock) returns (u32: bv32)
      requires buffer.Length == BLOCK_LENGTH && o + BLOCK_LENGTH <= data.Length && j < 16
      requires data[o + 4 * j..o + BLOCK_LENGTH] == block[4 * j..]
      modifies buffer
      ensures u32 == WordsOf(block)[j] && WordBuffer(buffer[..]) == WordBuffer(old(buffer[..]))[j := u32]
      ensures data[o + 4 * (j + 1)..o + BLOCK_LENGTH] == block[4 * (j + 1)..]
    {
      hide BigEndian; hide WordBuffer; hide WordsOf;
      var k := o + 4 * j;
      ghost var left := data[k..o + BLOCK_LENGTH];
      NextFour(left, block, j);
      assert left[0] == data[k] && left[1] == data[k + 1] && left[2] == data[k + 2] && left[3] == data[k + 3];
      u32 := BigEndian(data[k], data[k + 1], data[k + 2], data[k + 3]);
      ghost var rest := data[k + 4..o + BLOCK_LENGTH];
      assert rest == left[4..];
      ghost var was := buffer[..];
      StoreWord(j, u32);
      if data == buffer {
        assert data[k + 4..o + BLOCK_LENGTH] == buffer[4 * j + 4..] == was[4 * j + 4..] == rest;
      } else {
        assert data[k + 4..o + BLOCK_LENGTH] == rest;
      }
    }

    /** The next word of the schedule replaces the oldest one. */
    method Expand(ghost m: Words, j: nat) returns (w: bv32)
      requires buffer.Length == BLOCK_LENGTH && 16 <= j < 64 && Rolling(WordBuffer(buffer[..]), m, j)
      modifies buffer
      ensures w == ScheduleWord(m, j) && Rolling(WordBuffer(buffer[..]), m, j + 1)
    {
      hide SmallSigma0; hide SmallSigma1; hide Add; hide ScheduleWord; hide Rolling; hide WordBuffer;
      var s0 := Word((j + 1) % 16);
      var s1 := Word((j + 14) % 16);
      var w9 := Word((j + 9) % 16);
      var w0 := Word(j % 16);
      NextWord(WordBuffer(buffer[..]), m, j);
      w := Add(w0, Add(Add(SmallSigma1(s1), w9), SmallSigma0(s0)));
      RollingStep(WordBuffer(buffer[..]), m, j);
      StoreWord(j % 16, w);
    }

    /** memcpy into the buffer. */
    method CopyIn(used: nat, data: array<bv8>, at: nat, n: nat)
      requires buffer.Length == BLOCK_LENGTH && used + n <= BLOCK_LENGTH && at + n <= data.Length && data != buffer
      modifies buffer
      ensures buffer[..used + n] == old(buffer[..used]) + data[at..at + n]
    {
      forall i | 0 <= i < n {
        buffer[used + i] := data[at + i];
      }
    }

    /** sha256_update: however a message is cut into calls, all of it is absorbed. */
    method Update(data: array<bv8>, from: nat, length: nat)
      requires Valid() && data != buffer && from + length <= data.Length && |fed| + length < MAX_MESSAGE
      modifies this, buffer
      ensures Valid() && fed == old(fed) + data[from..from + length]
    {
      hide Absorbed;
      if length == 0 {
        assert fed + data[from..from] == fed;
        return;
      }
      var usedspace := bitcount / 8 % BLOCK_LENGTH;
      var len, at := length, from;
      assert fed + data[from..from] == fed;
      if usedspace > 0 {
        var freespace := BLOCK_LENGTH - usedspace;
        if len >= freespace {
          FillBuffer(data, at, freespace);
          len, at := len - freespace, at + freespace;
        } else {
          Keep(data, at, len);
          return;
        }
      }
      ghost var whole := data[..];
      Bits.SplitSlice(whole, from, at, from + length);
      Bits.Reassociate(old(fed), whole[from..at], whole[at..from + length]);
      UpdateBlocks(data, at, len);
    }

    /** Whole blocks straight from the data, and what is left into the buffer. */
    method UpdateBlocks(data: array<bv8>, from: nat, length: nat)
      requires Valid() && data != buffer && from + length <= data.Length && |fed| + length < MAX_MESSAGE
      requires |fed| % BLOCK_LENGTH == 0
      modifies this, buffer
      ensures Valid() && fed == old(fed) + data[from..from + length]
    {
      hide Absorbed; hide Valid;
      var len, at := length, from;
      ghost var whole := data[..];
      assert fed + whole[from..at] == fed;
      while len >= BLOCK_LENGTH
        invariant Valid() && data[..] == whole && from <= at <= from + length == at + len && |fed| + len < MAX_MESSAGE
        invariant |fed| % BLOCK_LENGTH == 0 && fed == old(fed) + whole[from..at]
        decreases len
      {
        Bits.SplitSlice(whole, from, at, at + BLOCK_LENGTH);
        Bits.Reassociate(old(fed), whole[from..at], whole[at..at + BLOCK_LENGTH]);
        OneBlock(data, at);
        len, at := len - BLOCK_LENGTH, at + BLOCK_LENGTH;
      }
      Bits.SplitSlice(whole, from, at, from + length);
      Bits.Reassociate(old(fed), whole[from..at], whole[at..from + length]);
      if len > 0 {
        Keep(data, at, len);
      } else {
        assert fed + whole[at..from + length] == fed;
      }
    }

    method OneBlock(data: array<bv8>, at: nat)
      requires Valid() && data != buffer && at + BLOCK_LENGTH <= data.Length && |fed| + BLOCK_LENGTH < MAX_MESSAGE
      requires |fed| % BLOCK_LENGTH == 0
      modifies this, buffer
      ensures Valid() && |fed| % BLOCK_LENGTH == 0 && fed == old(fed) + data[at..at + BLOCK_LENGTH]
    {
      hide Absorbed; hide Compress;
      ghost var was := buffer[..];
      ghost var block := data[at..at + BLOCK_LENGTH];
      assert block == was[..0] + block;
      AbsorbFull(state, was, fed, block, block);
      Transform(data, at);
      AnyBuffer(state, was, buffer[..], fed + data[at..at + BLOCK_LENGTH]);
      fed := fed + data[at..at + BLOCK_LENGTH];
      bitcount := bitcount + 8 * BLOCK_LENGTH;
    }

    /** Fills the buffer up and hashes it. */
    method FillBuffer(data: array<bv8>, at: nat, freespace: nat)
      requires Valid() && data != buffer && freespace == BLOCK_LENGTH - |fed| % BLOCK_LENGTH && freespace < BLOCK_LENGTH
      requires at + freespace <= data.Length && |fed| + freespace < MAX_MESSAGE
      modifies this, buffer
      ensures Valid() && |fed| % BLOCK_LENGTH == 0 && fed == old(fed) + data[at..at + freespace]
    {
      hide Absorbed; hide Compress;
      ghost var chunk := data[at..at + freespace];
      ghost var was := buffer[..];
      AbsorbFull(state, was, fed, chunk, was[..BLOCK_LENGTH - freespace] + chunk);
      CopyIn(BLOCK_LENGTH - freespace, data, at, freespace);
      bitcount := bitcount + 8 * freespace;
      assert buffer[0..0 + BLOCK_LENGTH] == buffer[..BLOCK_LENGTH] == was[..BLOCK_LENGTH - freespace] + chunk;
      Transform(buffer, 0);
      AnyBuffer(state, was, buffer[..], fed + chunk);
      fed := fed + chunk;
    }

    /** Keeps a part of a block. */
    method Keep(data: array<bv8>, at: nat, n: nat)
      requires Valid() && data != buffer && |fed| % BLOCK_LENGTH + n < BLOCK_LENGTH
      requires at + n <= data.Length && |fed| + n < MAX_MESSAGE
      modifies this, buffer
      ensures Valid() && fed == old(fed) + data[at..at + n]
    {
      hide Absorbed;
      ghost var was := buffer[..];
      CopyIn(bitcount / 8 % BLOCK_LENGTH, data, at, n);
      AbsorbPart(state, was, fed, data[at..at + n], buffer[..]);
      fed := fed + data[at..at + n];
      bitcount := bitcount + 8 * n;
    }

    /** memset of a part of the buffer to 0. */
    method Clear(from: nat, to: nat)
      requires buffer.Length == BLOCK_LENGTH && from <= to <= BLOCK_LENGTH
      modifies buffer
      ensures buffer[..to] == old(buffer[..from]) + Zeros(to - from)
    {
      forall i | from <= i < to {
        buffer[i] := 0;
      }
    }

    method PutLength(bits: nat)
      requires buffer.Length == BLOCK_LENGTH
      modifies buffer
      ensures buffer[..] == old(buffer[..SHORT_BLOCK_LENGTH]) + Length64(bits)
    {
      hide ByteOfLength;
      var s := Length64(bits);
      forall i | 0 <= i < 8 {
        buffer[SHORT_BLOCK_LENGTH + i] := s[i];
      }
    }

    method PutOneBit(used: nat)
      requires buffer.Length == BLOCK_LENGTH && used < BLOCK_LENGTH
      modifies buffer
      ensures buffer[..used + 1] == old(buffer[..used]) + [0x80]
    {
      buffer[used] := 0x80;
    }

    /** No room for the length: the block is hashed without it, and an empty one begun. */
    method HashFirstPart(used: nat)
      requires buffer.Length == BLOCK_LENGTH && used <= BLOCK_LENGTH
      modifies `state, buffer
      ensures state == Compress(old(state), old(buffer[..used]) + Zeros(BLOCK_LENGTH - used))
      ensures buffer[..SHORT_BLOCK_LENGTH] == Zeros(SHORT_BLOCK_LENGTH)
    {
      hide Compress; hide Zeros;
      if used < BLOCK_LENGTH {
        Clear(used, BLOCK_LENGTH);
      } else {
        NoZeros(buffer[..used]);
      }
      assert buffer[0..0 + BLOCK_LENGTH] == buffer[..BLOCK_LENGTH];
      Transform(buffer, 0);
      Clear(0, SHORT_BLOCK_LENGTH);
    }

    /** Puts the 1 bit and 0 bits, hashing a block first when the length does not fit. */
    method Pad()
      requires Valid()
      modifies `state, buffer
      ensures buffer[..SHORT_BLOCK_LENGTH] == LastBlock(fed) && state == BeforeLast(fed)
    {
      hide Compress; hide HashBlocks; hide Zeros; hide LastBlock; hide BeforeLast; hide Absorbed;
      var usedspace := bitcount / 8 % BLOCK_LENGTH;
      ghost var rest := buffer[..usedspace];
      PadCases(state, buffer[..], fed, rest, rest + [0x80] + Zeros(BLOCK_LENGTH - 1 - usedspace));
      if usedspace > 0 {
        PutOneBit(usedspace);
        usedspace := usedspace + 1;
        if usedspace <= SHORT_BLOCK_LENGTH {
          Clear(usedspace, SHORT_BLOCK_LENGTH);
        } else {
          HashFirstPart(usedspace);
        }
      } else {
        EmptyBlock();
      }
    }

    method EmptyBlock()
      requires buffer.Length == BLOCK_LENGTH
      modifies buffer
      ensures buffer[..SHORT_BLOCK_LENGTH] == [] + [0x80] + Zeros(SHORT_BLOCK_LENGTH - 1)
    {
      hide Zeros;
      Clear(0, SHORT_BLOCK_LENGTH);
      assert buffer[..SHORT_BLOCK_LENGTH] == Zeros(SHORT_BLOCK_LENGTH);
      buffer[0] := 0x80;
      FirstZeros(buffer[..SHORT_BLOCK_LENGTH]);
    }

    /** sha256_final: the digest of everything fed. The context is wiped. */
    method Final() returns (digest: seq<bv8>)
      requires Valid()
      modifies this, buffer
      ensures digest == Digest(old(fed)) && fed == []
    {
      hide Compress; hide HashBlocks; hide Length64; hide DigestOf; hide LastBlock; hide BeforeLast;
      PaddedDigest(fed);
      var bits := bitcount;
      Pad();
      PutLength(bits);
      assert buffer[0..0 + BLOCK_LENGTH] == buffer[..];
      Transform(buffer, 0);
      digest := DigestOf(state);
      Wipe();
    }

    method Wipe()
      requires buffer.Length == BLOCK_LENGTH
      modifies this, buffer
      ensures fed == []
    {
      forall i | 0 <= i < BLOCK_LENGTH {
        buffer[i] := 0;
      }
      state, bitcount, fed := Regs(0, 0, 0, 0, 0, 0, 0, 0), 0, [];
    }
  }

  /** How the rest of the message, which the buffer begins with, is padded. */
  lemma PadCases(state: Regs, buffer: seq<bv8>, fed: seq<bv8>, rest: seq<bv8>, first: seq<bv8>)
    requires Absorbed(state, buffer, fed) && |first| == BLOCK_LENGTH
    requires rest == buffer[..|fed| % BLOCK_LENGTH] && first == rest + [0x80] + Zeros(BLOCK_LENGTH - 1 - |rest|)
    ensures |rest| < SHORT_BLOCK_LENGTH ==>
              LastBlock(fed) == rest + [0x80] + Zeros(SHORT_BLOCK_LENGTH - 1 - |rest|) && BeforeLast(fed) == state
    ensures |rest| >= SHORT_BLOCK_LENGTH ==>
              LastBlock(fed) == Zeros(SHORT_BLOCK_LENGTH) && BeforeLast(fed) == Compress(state, first)
  {
    hide Compress; hide HashBlocks; hide Zeros;
    assert rest == fed[|fed| - |fed| % BLOCK_LENGTH..];
  }

  lemma NoZeros(s: seq<bv8>)
    ensures s + Zeros(0) == s
  {
  }

  lemma FirstZeros(s: seq<bv8>)
    requires s == Zeros(SHORT_BLOCK_LENGTH)[0 := 0x80]
    ensures s == [] + [0x80] + Zeros(SHORT_BLOCK_LENGTH - 1)
  {
  }

  /** The padded message from its last block on, without the length. */
  function LastBlock(fed: seq<bv8>): (s: seq<bv8>)
    ensures |s| == SHORT_BLOCK_LENGTH
  {
    var used := |fed| % BLOCK_LENGTH;
    if used < SHORT_BLOCK_LENGTH then fed[|fed| - used..] + [0x80] + Zeros(SHORT_BLOCK_LENGTH - 1 - used)
    else Zeros(SHORT_BLOCK_LENGTH)
  }

  /** The hash value before that block. */
  function BeforeLast(fed: seq<bv8>): Regs {
    hide Compress; hide HashBlocks; hide Zeros;
    var used := |fed| % BLOCK_LENGTH;
    var h := HashBlocks(fed[..|fed| - used]);
    if used < SHORT_BLOCK_LENGTH then h
    else Compress(h, fed[|fed| - used..] + [0x80] + Zeros(BLOCK_LENGTH - 1 - used))
  }

  /** Padding ends the message with one block or two. */
  lemma PaddedDigest(fed: seq<bv8>)
    ensures Digest(fed) == DigestOf(Compress(BeforeLast(fed), LastBlock(fed) + Length64(8 * |fed|)))
  {
    hide Compress; hide HashBlocks; hide Length64; hide DigestOf; hide Zeros;
    var n, used := |fed|, |fed| % BLOCK_LENGTH;
    var whole, rest, length := fed[..n - used], fed[n - used..], Length64(8 * n);
    var padded := fed + Padding(n);
    assert fed == whole + rest;
    if used < SHORT_BLOCK_LENGTH {
      assert padded == whole + (LastBlock(fed) + length);
      HashOneMore(whole, LastBlock(fed) + length);
    } else {
      var first := rest + [0x80] + Zeros(BLOCK_LENGTH - 1 - used);
      ZerosSplit(BLOCK_LENGTH - 1 - used, SHORT_BLOCK_LENGTH);
      assert padded == whole + first + (LastBlock(fed) + length);
      HashOneMore(whole, first);
      HashOneMore(whole + first, LastBlock(fed) + length);
    }
  }

  lemma ZerosSplit(m: nat, n: nat)
    ensures Zeros(m + n) == Zeros(m) + Zeros(n)
  {
  }

  lemma AnyBuffer(state: Regs, was: seq<bv8>, now: seq<bv8>, fed: seq<bv8>)
    requires Absorbed(state, was, fed) && |fed| % BLOCK_LENGTH == 0 && |now| == BLOCK_LENGTH
    ensures Absorbed(state, now, fed)
  {
    hide HashBlocks;
  }

  /** Bytes that complete a block. */
  lemma AbsorbFull(state: Regs, buffer: seq<bv8>, fed: seq<bv8>, chunk: seq<bv8>, block: MessageBlock)
    requires Absorbed(state, buffer, fed) && block == buffer[..|fed| % BLOCK_LENGTH] + chunk
    ensures |fed + chunk| % BLOCK_LENGTH == 0
    ensures Absorbed(Compress(state, block), buffer, fed + chunk)
  {
    hide Compress; hide HashBlocks;
    var used := |fed| % BLOCK_LENGTH;
    var whole := fed[..|fed| - used];
    HashOneMore(whole, block);
    assert fed + chunk == whole + block;
    assert (fed + chunk)[..|fed + chunk|] == fed + chunk;
  }

  /** Bytes that do not. */
  lemma AbsorbPart(state: Regs, buffer: seq<bv8>, fed: seq<bv8>, chunk: seq<bv8>, buffer': seq<bv8>)
    requires Absorbed(state, buffer, fed) && |fed| % BLOCK_LENGTH + |chunk| < BLOCK_LENGTH == |buffer'|
    requires buffer'[..|fed| % BLOCK_LENGTH + |chunk|] == buffer[..|fed| % BLOCK_LENGTH] + chunk
    ensures Absorbed(state, buffer', fed + chunk)
  {
    hide HashBlocks;
    var used := |fed| % BLOCK_LENGTH;
    ModAdds(|fed|, |chunk|);
    assert (fed + chunk)[..|fed| - used] == fed[..|fed| - used];
    assert (fed + chunk)[|fed| - used..] == fed[|fed| - used..] + chunk;
  }

  lemma ModAdds(n: nat, k: nat)
    requires n % BLOCK_LENGTH + k < BLOCK_LENGTH
    ensures (n + k) % BLOCK_LENGTH == n % BLOCK_LENGTH + k
  {
  }

  /** The first j words are in place. */
  ghost predicate Loaded(w: Words, m: Words, j: nat) {
    forall t | 0 <= t < 16 && t < j :: w[t] == m[t]
  }

  lemma NoneLoaded(w: Words, m: Words)
    ensures Loaded(w, m, 0)
  {
  }

  lemma LoadedStep(w: Words, m: Words, j: nat)
    requires j < 16 && Loaded(w, m, j)
    ensures Loaded(w[j := m[j]], m, j + 1) && ScheduleWord(m, j) == m[j]
  {
  }

  lemma AllLoaded(w: Words, m: Words)
    requires Loaded(w, m, 16)
    ensures Rolling(w, m, 16)
  {
    hide BigEndian;
    forall t | 0 <= t < 16
      ensures w[t % 16] == ScheduleWord(m, t)
    {
      assert t % 16 == t && w[t] == m[t];
    }
  }

  /** The hash value covers all whole blocks, and the buffer begins with the rest. */
  ghost predicate Absorbed(state: Regs, buffer: seq<bv8>, fed: seq<bv8>) {
    var used := |fed| % BLOCK_LENGTH;
    && |buffer| == BLOCK_LENGTH
    && state == HashBlocks(fed[..|fed| - used]) && buffer[..used] == fed[|fed| - used..]
  }

  lemma WordStored(now: MessageBlock, was: MessageBlock, j: nat, w: bv32)
    requires j < 16 && LoadWord(now, j) == w
    requires forall k | 0 <= k < BLOCK_LENGTH && k / 4 != j :: now[k] == was[k]
    ensures WordBuffer(now) == WordBuffer(was)[j := w]
  {
    hide BigEndian;
    forall i | 0 <= i < 16
      ensures WordBuffer(now)[i] == (if i == j then w else WordBuffer(was)[i])
    {
      assert (4 * i) / 4 == i && (4 * i + 1) / 4 == i && (4 * i + 2) / 4 == i && (4 * i + 3) / 4 == i;
    }
  }

  lemma NextFour(left: seq<bv8>, block: MessageBlock, j: nat)
    requires j < 16 && left == block[4 * j..]
    ensures |left| >= 4
    ensures WordsOf(block)[j] == BigEndian(left[0], left[1], left[2], left[3])
    ensures left[4..] == block[4 * (j + 1)..]
  {
    hide BigEndian;
  }
}
