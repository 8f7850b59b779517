/** KMP frames: byte stuffing in place, checksums, and the decoding of register replies. */
module Kmp {
  import Bits
  import opened Crc16

  const KMP_FRAME_L: nat := 1024
  const START_REQUEST: bv8 := 0x80
  const STOP: bv8 := 0x0d
  const ESCAPE: bv8 := 0x1b
  const DST: bv8 := 0x3f
  const GET_TYPE: bv8 := 0x01
  const GET_SERIAL: bv8 := 0x02
  const GET_REGISTER: bv8 := 0x10
  const PUT_REGISTER: bv8 := 0x11

  predicate IsSpecial(b: bv8) {
    b == 0x80 || b == 0x40 || b == 0x0d || b == 0x06 || b == 0x1b
  }

  function Inverted(b: bv8): bv8 {
    b ^ 0xff
  }

  lemma InvertedTwice(b: bv8)
    ensures Inverted(Inverted(b)) == b
    ensures IsSpecial(b) ==> !IsSpecial(Inverted(b))
  {
  }

  function StuffedByte(b: bv8): (s: seq<bv8>)
    ensures 1 <= |s| <= 2
  {
    if IsSpecial(b) then [ESCAPE, Inverted(b)] else [b]
  }

  function Stuffed(s: seq<bv8>): (t: seq<bv8>)
    ensures |s| <= |t| <= 2 * |s|
  {
    if s == [] then [] else StuffedByte(s[0]) + Stuffed(s[1..])
  }

  lemma {:induction false} StuffedConcat(a: seq<bv8>, b: seq<bv8>)
    ensures Stuffed(a + b) == Stuffed(a) + Stuffed(b)
  {
    hide StuffedByte;
    if a == [] {
      assert a + b == b;
    } else {
      assert (a + b)[1..] == a[1..] + b;
      StuffedConcat(a[1..], b);
    }
  }

  /** Only a lone escape at the very end has no meaning. */
  predicate Unstuffable(s: seq<bv8>) {
    s == [] || s[|s| - 1] != ESCAPE
  }

  function Unstuffed(s: seq<bv8>): (t: seq<bv8>)
    requires Unstuffable(s)
    ensures |t| <= |s| <= 2 * |t|
  {
    if s == [] then []
    else if s[0] == ESCAPE then [Inverted(s[1])] + Unstuffed(s[2..])
    else [s[0]] + Unstuffed(s[1..])
  }

  lemma UnstuffOne(b: bv8, rest: seq<bv8>)
    requires Unstuffable(rest) && rest != []
    ensures Unstuffable(StuffedByte(b) + rest)
    ensures Unstuffed(StuffedByte(b) + rest) == [b] + Unstuffed(rest)
  {
    hide Inverted; hide IsSpecial;
    EscapeIsSpecial();
    InvertedTwice(b);
    var t := StuffedByte(b) + rest;
    if IsSpecial(b) {
      assert t[2..] == rest;
    } else {
      assert t[1..] == rest;
    }
  }

  /** Unstuffing undoes stuffing, up to the stop byte. */
  lemma {:induction false} UnstuffStuffed(s: seq<bv8>)
    ensures Unstuffed(Stuffed(s) + [STOP]) == s + [STOP]
  {
    hide StuffedByte; hide Unstuffed;
    if s == [] {
      assert Stuffed(s) + [STOP] == [STOP];
      UnstuffStop();
    } else {
      var rest := Stuffed(s[1..]) + [STOP];
      UnstuffStuffed(s[1..]);
      UnstuffOne(s[0], rest);
      assert Stuffed(s) + [STOP] == StuffedByte(s[0]) + rest;
      assert s + [STOP] == [s[0]] + (s[1..] + [STOP]);
    }
  }

  lemma UnstuffStop()
    ensures Unstuffed([STOP]) == [STOP]
  {
    assert [STOP][1..] == [];
  }

  lemma EscapeIsSpecial()
    ensures IsSpecial(ESCAPE) && IsSpecial(STOP)
  {
  }

  /** No byte of stuffed data looks like a start, stop or acknowledge byte. */
  lemma {:induction false} StuffedPlain(s: seq<bv8>)
    ensures forall k | 0 <= k < |Stuffed(s)| :: Stuffed(s)[k] == ESCAPE || !IsSpecial(Stuffed(s)[k])
  {
    hide Inverted; hide IsSpecial;
    if s != [] {
      InvertedTwice(s[0]);
      StuffedPlain(s[1..]);
    }
  }

  /** The five bytes that are escaped, each by its complement to 255; no other byte is. */
  lemma StuffedByteIs(b: bv8)
    ensures StuffedByte(b) == if b in {0x80, 0x40, 0x0d, 0x06, 0x1b} then [0x1b, 255 - b] else [b]
  {
  }

  /** So a frame contains start, acknowledge and stop bytes only at its ends. */
  lemma StopOnlyLast(start: bv8, payload: seq<bv8>, k: nat)
    requires k < |Framed(start, payload)| - 1
    ensures k > 0 ==> Framed(start, payload)[k] !in {0x80, 0x40, 0x0d, 0x06}
    ensures start != STOP ==> Framed(start, payload)[k] != STOP
  {
    hide Checked; hide Stuffed; hide IsSpecial;
    StuffedPlain(Checked(payload));
    StopIsSpecial();
    if k > 0 {
      NotSpecial(Stuffed(Checked(payload))[k - 1]);
    }
  }

  lemma NotSpecial(b: bv8)
    requires b == ESCAPE || !IsSpecial(b)
    ensures b !in {0x80, 0x40, 0x0d, 0x06}
  {
  }

  lemma StopIsSpecial()
    ensures IsSpecial(STOP) && STOP != ESCAPE
  {
  }

  // ---------------------------------------------------------------------------
  // Checksums

  function UpperOf(crc: bv16): bv8 {
    ((crc >> 8) & 0xff) as bv8
  }

  function LowerOf(crc: bv16): bv8 {
    (crc & 0xff) as bv8
  }

  lemma WordOfParts(crc: bv16)
    ensures WordOf(UpperOf(crc), LowerOf(crc)) == crc
  {
  }

  /** A payload with its checksum. */
  function Checked(payload: seq<bv8>): (s: seq<bv8>)
    ensures |s| == |payload| + 2
  {
    var crc := Divide(0, AllBits(payload));
    payload + [UpperOf(crc), LowerOf(crc)]
  }

  function Framed(start: bv8, payload: seq<bv8>): seq<bv8> {
    [start] + Stuffed(Checked(payload)) + [STOP]
  }

  /** The receiver's check on unstuffed data u: checksum and stop byte are its last three. */
  predicate CrcOk(u: seq<bv8>)
    requires |u| >= 3
  {
    WordOf(u[|u| - 3], u[|u| - 2]) == Divide(0, AllBits(u[..|u| - 3]))
  }

  /** The check passes exactly when everything before the stop byte divides evenly. */
  lemma CrcOkIsResidueZero(u: seq<bv8>)
    requires |u| >= 3
    ensures CrcOk(u) <==> Divide(0, AllBits(u[..|u| - 1])) == 0
  {
    hide Divide; hide AllBits; hide WordOf;
    var data := u[..|u| - 3];
    ResidueZero(data, u[|u| - 3], u[|u| - 2]);
    assert u[..|u| - 1] == data + [u[|u| - 3], u[|u| - 2]];
  }

  lemma CheckedIsOk(payload: seq<bv8>)
    ensures CrcOk(Checked(payload) + [STOP])
  {
    hide Divide; hide AllBits; hide WordOf; hide UpperOf; hide LowerOf;
    var u := Checked(payload) + [STOP];
    assert u[..|u| - 3] == payload;
    WordOfParts(Divide(0, AllBits(payload)));
  }

  /** A window of bits that two messages differ in, cut off after n bits. */
  lemma WindowCut(n: nat, before: seq<bool>, a: seq<bool>, b: seq<bool>, after: seq<bool>)
    returns (before': seq<bool>, a': seq<bool>, b': seq<bool>, after': seq<bool>)
    requires |a| == |b| <= 16 && n <= |before| + |a| + |after|
    ensures |a'| == |b'| <= 16
    ensures (before + a + after)[..n] == before' + a' + after'
    ensures (before + b + after)[..n] == before' + b' + after'
  {
    var m := |before| + |a|;
    if n <= |before| {
      before', a', b', after' := before[..n], [], [], [];
    } else if n <= m {
      before', a', b', after' := before, a[..n - |before|], b[..n - |before|], [];
    } else {
      before', a', b', after' := before, a, b, after[..n - m];
    }
  }

  /** Of two frames of one length that differ only within 16 consecutive bits, both pass
      the check if and only if one passes and they differ only in their last byte, which
      the receiver does not look at once the frame is unstuffed. */
  lemma FrameBurst(u: seq<bv8>, v: seq<bv8>, before: seq<bool>, a: seq<bool>, b: seq<bool>, after: seq<bool>)
    requires |u| == |v| >= 3 && |a| == |b| <= 16
    requires AllBits(u) == before + a + after && AllBits(v) == before + b + after
    ensures CrcOk(u) && CrcOk(v) <==> CrcOk(u) && u[..|u| - 1] == v[..|v| - 1]
  {
    hide Divide; hide AllBits; hide CrcOk;
    var n := |u| - 1;
    CrcOkIsResidueZero(u);
    CrcOkIsResidueZero(v);
    BitsOfPrefix(u, n);
    BitsOfPrefix(v, n);
    if u[..n] != v[..n] {
      var before', a', b', after' := WindowCut(8 * n, before, a, b, after);
      if a' == b' {
        AllBitsInjective(u[..n], v[..n]);
      }
      BurstDetected(before', a', b', after');
    }
  }

  lemma BitsOfPrefix(u: seq<bv8>, n: nat)
    requires n <= |u|
    ensures AllBits(u[..n]) == AllBits(u)[..8 * n]
  {
    hide AllBits;
    AllBitsConcat(u[..n], u[n..]);
    assert u == u[..n] + u[n..];
  }

  /** An escape before the stop byte turns it into another byte, and the frame is taken
      all the same: two different frames of one length, eight bits apart, both pass. */
  lemma LastByteUnchecked(payload: seq<bv8>)
    ensures var u, v := Checked(payload) + [STOP], Checked(payload) + [Inverted(STOP)];
            && Unstuffed(Stuffed(Checked(payload)) + [STOP]) == u
            && Unstuffed(Stuffed(Checked(payload)) + [ESCAPE, STOP]) == v
            && |u| == |v| && u != v && CrcOk(u) && CrcOk(v)
            && AllBits(u) == AllBits(Checked(payload)) + AllBits([STOP])
            && AllBits(v) == AllBits(Checked(payload)) + AllBits([Inverted(STOP)])
  {
    hide Stuffed; hide Unstuffed; hide CrcOk; hide Checked; hide AllBits; hide Inverted;
    var c := Checked(payload);
    UnstuffStuffed(c);
    UnstuffEscaped(c);
    CheckedIsOk(payload);
    LastByteFree(c, STOP, Inverted(STOP));
    InvertedDiffers();
    assert (c + [STOP])[|c|] != (c + [Inverted(STOP)])[|c|];
    AllBitsConcat(c, [STOP]);
    AllBitsConcat(c, [Inverted(STOP)]);
  }

  lemma InvertedDiffers()
    ensures Inverted(STOP) != STOP
  {
  }

  lemma LastByteFree(c: seq<bv8>, x: bv8, y: bv8)
    requires |c| >= 2
    ensures CrcOk(c + [x]) == CrcOk(c + [y])
  {
    hide Divide; hide AllBits; hide WordOf;
    var u, v := c + [x], c + [y];
    assert u[..|u| - 3] == v[..|v| - 3] == c[..|c| - 2];
    assert u[|u| - 3] == v[|v| - 3] && u[|u| - 2] == v[|v| - 2];
  }

  lemma {:induction false} UnstuffEscaped(s: seq<bv8>)
    ensures Unstuffed(Stuffed(s) + [ESCAPE, STOP]) == s + [Inverted(STOP)]
  {
    hide StuffedByte; hide Unstuffed; hide Inverted;
    if s == [] {
      assert Stuffed(s) + [ESCAPE, STOP] == [ESCAPE, STOP];
      UnstuffEscapedStop();
    } else {
      var rest := Stuffed(s[1..]) + [ESCAPE, STOP];
      UnstuffEscaped(s[1..]);
      UnstuffOne(s[0], rest);
      assert Stuffed(s) + [ESCAPE, STOP] == StuffedByte(s[0]) + rest;
      assert s + [Inverted(STOP)] == [s[0]] + (s[1..] + [Inverted(STOP)]);
    }
  }

  lemma UnstuffEscapedStop()
    ensures Unstuffed([ESCAPE, STOP]) == [Inverted(STOP)]
  {
    assert [ESCAPE, STOP][2..] == [];
    assert Unstuffed([]) == [];
  }

  // ---------------------------------------------------------------------------
  // Registers

  /** A register as it is sent: rid and value are the bits of a signed 16-bit and a
      signed 32-bit number. */
  datatype Register = Register(rid: bv16, unit: bv8, length: bv8, siEx: bv8, value: bv32)

  function Join32(a: bv8, b: bv8, c: bv8, d: bv8): bv32 {
    ((a as bv32) << 24) | ((b as bv32) << 16) | ((c as bv32) << 8) | (d as bv32)
  }

  /** The bytes of a word, most significant first. */
  function Byte0(v: bv32): bv8 {
    ((v >> 24) & 0xff) as bv8
  }

  function Byte1(v: bv32): bv8 {
    ((v >> 16) & 0xff) as bv8
  }

  function Byte2(v: bv32): bv8 {
    ((v >> 8) & 0xff) as bv8
  }

  function Byte3(v: bv32): bv8 {
    (v & 0xff) as bv8
  }

  lemma WideByte0(v: bv32)
    ensures (Byte0(v) as bv32) << 24 == v & 0xff00_0000
  {
  }

  lemma WideByte1(v: bv32)
    ensures (Byte1(v) as bv32) << 16 == v & 0xff_0000
  {
  }

  lemma WideByte2(v: bv32)
    ensures (Byte2(v) as bv32) << 8 == v & 0xff00
  {
  }

  lemma WideByte3(v: bv32)
    ensures (Byte3(v) as bv32) == v & 0xff
  {
  }

  lemma FourMasks(v: bv32)
    ensures (v & 0xff00_0000) | (v & 0xff_0000) | (v & 0xff00) | (v & 0xff) == v
  {
  }

  lemma JoinParts(v: bv32)
    ensures Join32(Byte0(v), Byte1(v), Byte2(v), Byte3(v)) == v
  {
    hide Byte0; hide Byte1; hide Byte2; hide Byte3;
    WideByte0(v);
    WideByte1(v);
    WideByte2(v);
    WideByte3(v);
    FourMasks(v);
  }

  function RegisterBytes(r: Register): (s: seq<bv8>)
    ensures |s| == 9
  {
    [UpperOf(r.rid), LowerOf(r.rid), r.unit, r.length, r.siEx,
     Byte0(r.value), Byte1(r.value), Byte2(r.value), Byte3(r.value)]
  }

  function RegisterAt(s: seq<bv8>, i: nat): Register
    requires i + 9 <= |s|
  {
    Register(WordOf(s[i], s[i + 1]), s[i + 2], s[i + 3], s[i + 4], Join32(s[i + 5], s[i + 6], s[i + 7], s[i + 8]))
  }

  lemma RegisterReadBack(s: seq<bv8>, i: nat, r: Register)
    requires i + 9 <= |s| && s[i..i + 9] == RegisterBytes(r)
    ensures RegisterAt(s, i) == r
  {
    hide WordOf; hide Join32; hide Byte0; hide Byte1; hide Byte2; hide Byte3; hide UpperOf; hide LowerOf;
    WordOfParts(r.rid);
    JoinParts(r.value);
    var nine := s[i..i + 9];
    assert s[i] == nine[0] && s[i + 1] == nine[1] && s[i + 2] == nine[2] && s[i + 3] == nine[3] && s[i + 4] == nine[4];
    assert s[i + 5] == nine[5] && s[i + 6] == nine[6] && s[i + 7] == nine[7] && s[i + 8] == nine[8];
  }

  function AllRegisters(rs: seq<Register>): (s: seq<bv8>)
    ensures |s| == 9 * |rs|
  {
    if rs == [] then [] else AllRegisters(rs[..|rs| - 1]) + RegisterBytes(rs[|rs| - 1])
  }

  /** The n registers that begin at i. */
  function RegistersAt(s: seq<bv8>, i: nat, n: nat): (rs: seq<Register>)
    requires i + 9 * n <= |s|
    ensures |rs| == n
  {
    if n == 0 then [] else RegistersAt(s, i, n - 1) + [RegisterAt(s, i + 9 * (n - 1))]
  }

  lemma RegistersSplit(rs: seq<Register>)
    requires rs != []
    ensures var n := |rs| - 1;
            AllRegisters(rs)[..9 * n] == AllRegisters(rs[..n]) && AllRegisters(rs)[9 * n..] == RegisterBytes(rs[n])
  {
    hide RegisterBytes;
  }

  lemma {:induction false} RegistersReadBack(s: seq<bv8>, i: nat, rs: seq<Register>)
    requires i + 9 * |rs| <= |s| && s[i..i + 9 * |rs|] == AllRegisters(rs)
    ensures RegistersAt(s, i, |rs|) == rs
    decreases |rs|
  {
    hide RegisterAt; hide RegisterBytes; hide AllRegisters;
    if rs != [] {
      var n := |rs| - 1;
      RegistersSplit(rs);
      Bits.SubSlice(s, i, i + 9 * |rs|, 0, 9 * n);
      Bits.SubSlice(s, i, i + 9 * |rs|, 9 * n, 9 * |rs|);
      assert s[i..i + 9 * |rs|][..9 * n] == s[i..i + 9 * n];
      assert s[i..i + 9 * |rs|][9 * n..] == s[i + 9 * n..i + 9 * n + 9];
      assert rs == rs[..n] + [rs[n]];
      RegistersReadBack(s, i, rs[..n]);
      RegisterReadBack(s, i + 9 * n, rs[n]);
    }
  }

  /** What a meter answers to a register request. */
  function RegisterReply(rs: seq<Register>): seq<bv8> {
    [0x3f, 0x10] + AllRegisters(rs)
  }

  datatype Response = Response(serial: bv32, meterType: bv16, swRevision: bv16, registers: seq<Register>)

  const NO_RESPONSE: Response := Response(0, 0, 0, [])

  lemma ShorterTail(s: seq<bv8>, n: nat)
    requires n <= |s|
    ensures s[n..] == s[n..|s|]
  {
  }

  /** The stuffing loop. */
  method StuffInto(data: seq<bv8>, stuffed: array<bv8>) returns (j: nat)
    requires |Stuffed(data)| <= stuffed.Length
    modifies stuffed
    ensures j <= stuffed.Length && stuffed[..j] == Stuffed(data)
  {
    hide Inverted; hide IsSpecial; hide Stuffed;
    j := 0;
    NothingStuffed();
    for i := 0 to |data|
      invariant j <= stuffed.Length && stuffed[..j] == Stuffed(data[..i])
    {
      StuffedSnoc(data, i);
      if IsSpecial(data[i]) {
        stuffed[j] := ESCAPE;
        stuffed[j + 1] := Inverted(data[i]);
        j := j + 2;
      } else {
        stuffed[j] := data[i];
        j := j + 1;
      }
    }
    assert data[..|data|] == data;
  }

  lemma NothingStuffed()
    ensures Stuffed([]) == []
  {
  }

  /** The unstuffing loop. */
  method UnstuffInto(data: seq<bv8>, unstuffed: array<bv8>) returns (j: nat)
    requires Unstuffable(data) && |data| <= unstuffed.Length
    modifies unstuffed
    ensures j <= |data| && unstuffed[..j] == Unstuffed(data)
  {
    hide Inverted; hide Unstuffed;
    var i := 0;
    j := 0;
    assert data[0..] == data;
    while i < |data|
      invariant i <= |data| && j <= i && unstuffed[..j] + Unstuffed(data[i..]) == Unstuffed(data)
    {
      ghost var done := unstuffed[..j];
      UnstuffedStep(data, i);
      var b := if data[i] == ESCAPE then Inverted(data[i + 1]) else data[i];
      i := if data[i] == ESCAPE then i + 2 else i + 1;
      Bits.Reassociate(done, [b], Unstuffed(data[i..]));
      unstuffed[j] := b;
      j := j + 1;
      assert unstuffed[..j] == done + [b];
    }
    NothingUnstuffed(data);
  }

  lemma NothingUnstuffed(data: seq<bv8>)
    ensures Unstuffed(data[|data|..]) == []
  {
  }

  lemma UnstuffedStep(data: seq<bv8>, i: nat)
    requires i < |data| && Unstuffable(data)
    ensures data[i] == ESCAPE ==> i + 1 < |data| && Unstuffed(data[i..]) == [Inverted(data[i + 1])] + Unstuffed(data[i + 2..])
    ensures data[i] != ESCAPE ==> Unstuffed(data[i..]) == [data[i]] + Unstuffed(data[i + 1..])
  {
    hide Inverted;
    if data[i] == ESCAPE {
      assert data[i..][2..] == data[i + 2..];
    } else {
      assert data[i..][1..] == data[i + 1..];
    }
  }

  class Kmp {
    /** The frame that is being built or decoded. */
    const frame: array<bv8>
    var frameLength: nat
    var dataLength: nat

    ghost predicate Valid()
      reads this
    {
      frame.Length == KMP_FRAME_L && frameLength <= KMP_FRAME_L
    }

    constructor (frame: array<bv8>, frameLength: nat)
      requires frame.Length == KMP_FRAME_L && frameLength <= KMP_FRAME_L
      ensures Valid() && this.frame == frame && this.frameLength == frameLength
    {
      this.frame, this.frameLength, dataLength := frame, frameLength, 0;
    }

    /** memcpy behind the start byte. */
    method Replace(data: array<bv8>, n: nat)
      requires Valid() && data != frame && 0 < n <= data.Length && n < KMP_FRAME_L
      modifies this, frame
      ensures Valid() && frame[..frameLength] == [old(frame[0])] + data[..n]
      ensures frameLength == n + 1 && dataLength == n && frame[n + 1..] == old(frame[n + 1..])
    {
      forall i | 0 <= i < n {
        frame[1 + i] := data[i];
      }
      frameLength, dataLength := n + 1, n;
    }

    /** Stuffs everything behind the start byte, in place. A frame that outgrows its
        buffer stays as it was. */
    method ByteStuff()
      requires Valid() && 0 < frameLength
      requires |Stuffed(frame[1..frameLength])| <= KMP_FRAME_L
      modifies this, frame
      ensures Valid()
      ensures var stuffed := Stuffed(old(frame[1..frameLength]));
              if 0 < |stuffed| < KMP_FRAME_L then
                frame[..frameLength] == [old(frame[0])] + stuffed && dataLength == |stuffed|
              else
                frame[..] == old(frame[..]) && unchanged(this)
    {
      hide Stuffed;
      var stuffedData := new bv8[KMP_FRAME_L];
      var j := StuffInto(frame[1..frameLength], stuffedData);
      if j <= KMP_FRAME_L - 1 && j > 0 {
        Replace(stuffedData, j);
      }
    }

    /** Unstuffs everything behind the start byte, in place. */
    method ByteUnstuff()
      requires Valid() && 1 < frameLength && frame[frameLength - 1] == STOP
      modifies this, frame
      ensures Valid() && 1 < frameLength <= old(frameLength)
      ensures frame[..frameLength] == [old(frame[0])] + Unstuffed(old(frame[1..frameLength]))
      ensures frame[old(frameLength)..] == old(frame[frameLength..])
    {
      hide Unstuffed;
      var unstuffedData := new bv8[KMP_FRAME_L];
      var j := UnstuffInto(frame[1..frameLength], unstuffedData);
      Replace(unstuffedData, j);
      ShorterTail(old(frame[j + 1..]), old(frameLength) - j - 1);
    }

    method FrameCrc() returns (crc: bv16)
      requires Valid() && 1 + dataLength <= KMP_FRAME_L
      ensures crc == Divide(0, AllBits(frame[1..1 + dataLength]))
    {
      crc := Crc(0, frame[1..1 + dataLength]);
    }

    /** Puts the checksum behind the payload, stuffs, and ends the frame. */
    method Finish(ghost payload: seq<bv8>)
      requires Valid() && frameLength == 1 + |payload| && dataLength == |payload| < 500
      requires frame[1..frameLength] == payload
      modifies this, frame
      ensures Valid() && frame[..frameLength] == Framed(old(frame[0]), payload)
    {
      hide Stuffed; hide Divide; hide AllBits; hide UpperOf; hide LowerOf;
      var crc := FrameCrc();
      frame[frameLength] := UpperOf(crc);
      frame[frameLength + 1] := LowerOf(crc);
      frameLength, dataLength := frameLength + 2, dataLength + 2;
      assert frame[1..frameLength] == Checked(payload);
      ByteStuff();
      EndFrame();
    }

    method EndFrame()
      requires Valid() && frameLength < KMP_FRAME_L
      modifies `frameLength, frame
      ensures Valid() && frame[..frameLength] == old(frame[..frameLength]) + [STOP]
    {
      frame[frameLength] := STOP;
      frameLength := frameLength + 1;
    }

    method Begin(cid: bv8)
      requires Valid()
      modifies this, frame
      ensures Valid() && frame[..3] == [START_REQUEST, DST, cid] && frameLength == 3 && dataLength == 2
    {
      forall i | 0 <= i < KMP_FRAME_L {
        frame[i] := 0;
      }
      frame[0], frame[1], frame[2] := START_REQUEST, DST, cid;
      frameLength, dataLength := 3, 2;
    }

    /** kmp_get_type and kmp_get_serial. */
    method GetShort(cid: bv8) returns (length: nat)
      requires Valid()
      modifies this, frame
      ensures Valid() && length == frameLength && frame[..length] == Framed(START_REQUEST, [DST, cid])
    {
      hide Framed; hide Stuffed;
      Begin(cid);
      assert frame[1..3] == frame[..3][1..] == [DST, cid];
      assert frame[0] == frame[..3][0];
      Finish([DST, cid]);
      return frameLength;
    }

    /** kmp_get_register: at most the first eight registers are asked for. */
    method GetRegister(registers: seq<bv16>) returns (length: nat)
      requires Valid()
      modifies this, frame
      ensures Valid() && length == frameLength
      ensures frame[..length] ==
              Framed(START_REQUEST, RegisterRequest(if |registers| > 8 then registers[..8] else registers))
    {
      hide Framed; hide Stuffed; hide RegisterRequest;
      var list := if |registers| > 8 then registers[..8] else registers;
      Begin(GET_REGISTER);
      PutRegisters(list);
      Finish(RegisterRequest(list));
      return frameLength;
    }

    method PutWord(at: nat, w: bv16)
      requires Valid() && at + 2 <= KMP_FRAME_L
      modifies frame
      ensures frame[..at + 2] == old(frame[..at]) + [UpperOf(w), LowerOf(w)]
    {
      frame[at] := UpperOf(w);
      frame[at + 1] := LowerOf(w);
    }

    method PutRegisters(list: seq<bv16>)
      requires Valid() && frame[..3] == [START_REQUEST, DST, GET_REGISTER] && |list| <= 8
      modifies this, frame
      ensures Valid() && frameLength == 4 + 2 * |list| && dataLength == frameLength - 1
      ensures frame[0] == START_REQUEST && frame[1..frameLength] == RegisterRequest(list)
    {
      hide UpperOf; hide LowerOf; hide RegisterIds;
      PutCount(|list| as bv8);
      ghost var head := frame[..4];
      NoIds(list);
      for i := 0 to |list|
        modifies frame
        invariant frame[..4 + 2 * i] == head + RegisterIds(list[..i])
      {
        IdsSnoc(list, i);
        Bits.Reassociate(head, RegisterIds(list[..i]), [UpperOf(list[i]), LowerOf(list[i])]);
        PutWord(3 + 2 * i + 1, list[i]);
      }
      frameLength, dataLength := 4 + 2 * |list|, 3 + 2 * |list|;
      assert list[..|list|] == list;
      BehindStart(frame[..frameLength], list);
    }

    method PutCount(n: bv8)
      requires Valid() && frame[..3] == [START_REQUEST, DST, GET_REGISTER]
      modifies frame
      ensures frame[..4] == [START_REQUEST, DST, GET_REGISTER, n]
    {
      frame[3] := n;
    }

    static lemma FrontOf(f: seq<bv8>, n: nat, u: seq<bv8>)
      requires 4 <= n <= |f| && f[1..n] == u
      ensures |u| == n - 1 && f[..n] == [f[0]] + u && f[1..n - 3] == u[..|u| - 3]
      ensures f[2] == u[1] && f[n - 3] == u[|u| - 3] && f[n - 2] == u[|u| - 2]
    {
      Bits.SubSlice(f, 1, n, 0, n - 4);
    }

    /** kmp_decode_frame. */
    method DecodeFrame() returns (r: int, response: Response)
      requires Valid()
      modifies this, frame
      ensures Valid()
      ensures old(frameLength) < 6 || old(frame[frameLength - 1]) != STOP ==>
                r == 0 && response == NO_RESPONSE && frame[..] == old(frame[..]) && unchanged(this)
      ensures old(frameLength) >= 6 && old(frame[frameLength - 1]) == STOP ==>
                var u := Unstuffed(old(frame[1..frameLength]));
                && |u| >= 3 && r == ResultCode(u)
                && frame[..frameLength] == [old(frame[0])] + u && frame[old(frameLength)..] == old(frame[frameLength..])
                && response == if r == 1 then Fields(frame[..], u[1], RegisterCount(|u| - 3)) else NO_RESPONSE
    {
      hide Unstuffed; hide Divide; hide AllBits; hide WordOf; hide Join32; hide RegistersAt;
      response := NO_RESPONSE;
      if frameLength < 6 || frame[frameLength - 1] != STOP {
        return 0, response;
      }
      ghost var u := Unstuffed(frame[1..frameLength]);
      ByteUnstuff();
      assert frame[1..frameLength] == u;
      dataLength := frameLength - 4;
      var crc := FrameCrc();
      FrontOf(frame[..], frameLength, u);
      if WordOf(frame[frameLength - 3], frame[frameLength - 2]) != crc {
        return -1, response;
      }
      r, response := Application();
    }

    /** The application layer of a frame whose checksum is right. */
    method Application() returns (r: int, response: Response)
      requires Valid() && frameLength >= 4 && dataLength == frameLength - 4
      ensures r == if frame[2] == GET_TYPE || frame[2] == GET_SERIAL || frame[2] == PUT_REGISTER then 1
                   else if frame[2] == GET_REGISTER && dataLength > 2 then 1 else 0
      ensures response == if r == 1 then Fields(frame[..], frame[2], RegisterCount(dataLength)) else NO_RESPONSE
    {
      hide RegistersAt; hide WordOf; hide Join32;
      response := NO_RESPONSE;
      if frame[2] == GET_TYPE {
        return 1, Response(0, WordOf(frame[3], frame[4]), WordOf(frame[5], frame[6]), []);
      } else if frame[2] == GET_SERIAL {
        return 1, Response(Join32(frame[3], frame[4], frame[5], frame[6]), 0, 0, []);
      } else if frame[2] == GET_REGISTER {
        if dataLength > 2 {
          var registers := ReadRegisters((dataLength - 2) / 9);
          return 1, Response(0, 0, 0, registers);
        }
        return 0, response;
      } else if frame[2] == PUT_REGISTER {
        return 1, response;
      }
      return 0, response;
    }

    method ReadRegisters(n: nat) returns (registers: seq<Register>)
      requires Valid() && 3 + 9 * n <= KMP_FRAME_L
      ensures registers == RegistersAt(frame[..], 3, n)
    {
      hide WordOf; hide Join32;
      registers := [];
      for i := 0 to n
        invariant registers == RegistersAt(frame[..], 3, i)
      {
        var k := 9 * i + 3;
        var register := Register(WordOf(frame[k], frame[k + 1]), frame[k + 2], frame[k + 3], frame[k + 4],
                                 Join32(frame[k + 5], frame[k + 6], frame[k + 7], frame[k + 8]));
        registers := registers + [register];
      }
    }
  }

  /** What the decoder returns for unstuffed data. */
  function ResultCode(u: seq<bv8>): int
    requires |u| >= 3
  {
    if !CrcOk(u) then -1
    else if u[1] == GET_TYPE || u[1] == GET_SERIAL || u[1] == PUT_REGISTER then 1
    else if u[1] == GET_REGISTER && |u| - 3 > 2 then 1
    else 0
  }

  function RegisterCount(dataLength: nat): (n: nat)
    ensures 9 * n <= dataLength
  {
    if dataLength < 2 then 0 else (dataLength - 2) / 9
  }

  /** The fields of a reply, read from the frame buffer. */
  function Fields(f: seq<bv8>, cid: bv8, n: nat): Response
    requires 7 <= |f| && 3 + 9 * n <= |f|
  {
    if cid == GET_TYPE then Response(0, WordOf(f[3], f[4]), WordOf(f[5], f[6]), [])
    else if cid == GET_SERIAL then Response(Join32(f[3], f[4], f[5], f[6]), 0, 0, [])
    else if cid == GET_REGISTER then Response(0, 0, 0, RegistersAt(f, 3, n))
    else NO_RESPONSE
  }

  function RegisterIds(registers: seq<bv16>): (s: seq<bv8>)
    ensures |s| == 2 * |registers|
  {
    if registers == [] then []
    else RegisterIds(registers[..|registers| - 1])
         + [UpperOf(registers[|registers| - 1]), LowerOf(registers[|registers| - 1])]
  }

  lemma NoIds(registers: seq<bv16>)
    ensures RegisterIds(registers[..0]) == []
  {
  }

  lemma IdsSnoc(registers: seq<bv16>, i: nat)
    requires i < |registers|
    ensures RegisterIds(registers[..i + 1]) == RegisterIds(registers[..i]) + [UpperOf(registers[i]), LowerOf(registers[i])]
  {
    hide UpperOf; hide LowerOf;
    assert registers[..i + 1][..i] == registers[..i];
  }

  lemma BehindStart(whole: seq<bv8>, list: seq<bv16>)
    requires |list| <= 8 && whole == [START_REQUEST, DST, GET_REGISTER, |list| as bv8] + RegisterIds(list)
    ensures whole[0] == START_REQUEST && whole[1..] == RegisterRequest(list)
  {
    hide RegisterIds;
  }

  function RegisterRequest(registers: seq<bv16>): (s: seq<bv8>)
    requires |registers| <= 8
    ensures |s| == 3 + 2 * |registers|
  {
    [DST, GET_REGISTER, |registers| as bv8] + RegisterIds(registers)
  }

  // ---------------------------------------------------------------------------
  // Requests on the wire

  lemma TwoBits(a: bv8, b: bv8)
    ensures Divide(0, AllBits([a, b])) == Step(Step(0, a), b)
  {
    hide Divide; hide Prepend; hide Step;
    assert [a, b][1..] == [b] && [b][1..] == [];
    DivideByte(0, a, AllBits([b]));
    DivideByte(Step(0, a), b, AllBits([]));
    NothingDivided(Step(Step(0, a), b));
  }

  lemma NothingDivided(crc: bv16)
    ensures Divide(crc, AllBits([])) == crc
  {
  }

  /** A register request names destination, command and count, and then every register, high
      byte first. */
  lemma {:induction false} RequestLayout(registers: seq<bv16>, i: nat)
    requires i < |registers| <= 8
    ensures var s := RegisterRequest(registers);
            && s[0] == 0x3f && s[1] == 0x10 && s[2] == |registers| as bv8
            && WordOf(s[3 + 2 * i], s[4 + 2 * i]) == registers[i]
    decreases |registers|
  {
    hide WordOf; hide UpperOf; hide LowerOf;
    var n := |registers| - 1;
    WordOfParts(registers[n]);
    if i < n {
      RequestLayout(registers[..n], i);
    }
  }

  /** The request for the type, and for the serial number, byte by byte. */
  lemma ShortRequests()
    ensures Framed(START_REQUEST, [DST, GET_TYPE]) == [0x80, 0x3f, 0x01, 0x05, 0x8a, 0x0d]
    ensures Framed(START_REQUEST, [DST, GET_SERIAL]) == [0x80, 0x3f, 0x02, 0x35, 0xe9, 0x0d]
  {
    hide Divide; hide AllBits; hide Stuffed;
    TwoBits(0x3f, 0x01);
    TwoBits(0x3f, 0x02);
    ShortSteps();
    assert Checked([DST, GET_TYPE]) == [0x3f, 0x01, 0x05, 0x8a];
    assert Checked([DST, GET_SERIAL]) == [0x3f, 0x02, 0x35, 0xe9];
    PlainFour(0x3f, 0x01, 0x05, 0x8a);
    PlainFour(0x3f, 0x02, 0x35, 0xe9);
  }

  lemma ShortSteps()
    ensures Step(Step(0, 0x3f), 0x01) == 0x058a && Step(Step(0, 0x3f), 0x02) == 0x35e9
  {
  }

  lemma PlainFour(a: bv8, b: bv8, c: bv8, d: bv8)
    requires !IsSpecial(a) && !IsSpecial(b) && !IsSpecial(c) && !IsSpecial(d)
    ensures Stuffed([a, b, c, d]) == [a, b, c, d]
  {
    hide IsSpecial; hide Stuffed;
    NothingStuffed();
    PlainFirst(d, []);
    PlainFirst(c, [d]);
    PlainFirst(b, [c, d]);
    PlainFirst(a, [b, c, d]);
    assert [d] + [] == [d] && [c] + [d] == [c, d] && [b] + [c, d] == [b, c, d] && [a] + [b, c, d] == [a, b, c, d];
  }

  lemma PlainFirst(b: bv8, rest: seq<bv8>)
    requires !IsSpecial(b)
    ensures Stuffed([b] + rest) == [b] + Stuffed(rest)
  {
    hide IsSpecial;
    assert ([b] + rest)[1..] == rest;
  }

  lemma StuffedSnoc(data: seq<bv8>, i: nat)
    requires i < |data|
    ensures Stuffed(data[..i + 1]) == Stuffed(data[..i]) + StuffedByte(data[i])
    ensures |Stuffed(data[..i + 1])| <= |Stuffed(data)|
  {
    hide StuffedByte;
    assert data[..i + 1] == data[..i] + [data[i]];
    assert data == data[..i + 1] + data[i + 1..];
    StuffedConcat(data[..i], [data[i]]);
    StuffedConcat(data[..i + 1], data[i + 1..]);
    assert Stuffed([data[i]]) == StuffedByte(data[i]);
  }

  /** How a reply can end on the wire: with the stop byte, or damaged, with an escape
      before it. */
  function Ending(damaged: bool): seq<bv8> {
    if damaged then [ESCAPE, STOP] else [STOP]
  }

  function LastByte(damaged: bool): bv8 {
    if damaged then Inverted(STOP) else STOP
  }

  /** A payload as it is received. */
  function Received(start: bv8, payload: seq<bv8>, damaged: bool): seq<bv8> {
    [start] + Stuffed(Checked(payload)) + Ending(damaged)
  }

  lemma ReceivedUnstuffed(start: bv8, payload: seq<bv8>, damaged: bool)
    requires 2 <= |payload| <= 500
    ensures var frame := Received(start, payload, damaged);
            && (!damaged ==> frame == Framed(start, payload))
            && 6 <= |frame| <= KMP_FRAME_L && frame[0] == start && frame[|frame| - 1] == STOP
            && Unstuffed(frame[1..]) == Checked(payload) + [LastByte(damaged)]
            && CrcOk(Checked(payload) + [LastByte(damaged)])
  {
    hide Stuffed; hide Unstuffed; hide CrcOk; hide Checked; hide Inverted;
    var frame := Received(start, payload, damaged);
    assert frame[1..] == Stuffed(Checked(payload)) + Ending(damaged);
    LastByteUnchecked(payload);
  }

  /** kmp_decode_frame on a payload as it is received: the frame is unstuffed, and the
      application layer decides. */
  method Receive(start: bv8, payload: seq<bv8>, damaged: bool, buffer: array<bv8>) returns (r: int, response: Response)
    requires 2 <= |payload| <= 500 && buffer.Length == KMP_FRAME_L
    modifies buffer
    ensures buffer[1..1 + |payload|] == payload
    ensures r == if payload[1] == GET_TYPE || payload[1] == GET_SERIAL || payload[1] == PUT_REGISTER then 1
                 else if payload[1] == GET_REGISTER && |payload| > 2 then 1 else 0
    ensures response == if r == 1 then Fields(buffer[..], payload[1], RegisterCount(|payload|)) else NO_RESPONSE
  {
    hide Received; hide Unstuffed; hide Checked; hide RegistersAt; hide Inverted; hide CrcOk; hide Fields; hide RegisterCount;
    var frame := Received(start, payload, damaged);
    ReceivedUnstuffed(start, payload, damaged);
    forall i | 0 <= i < |frame| {
      buffer[i] := frame[i];
    }
    assert buffer[..|frame|] == frame && buffer[1..|frame|] == frame[1..];
    var kmp := new Kmp(buffer, |frame|);
    r, response := kmp.DecodeFrame();
    PayloadInPlace(start, payload, LastByte(damaged), buffer[..]);
  }

  /** The payload lies behind the start byte. */
  lemma PayloadInPlace(start: bv8, payload: seq<bv8>, last: bv8, f: seq<bv8>)
    requires |payload| >= 2
    requires var u := Checked(payload) + [last]; 1 + |u| <= |f| && f[..1 + |u|] == [start] + u
    ensures f[1..1 + |payload|] == payload && (Checked(payload) + [last])[1] == payload[1]
  {
    hide Checked;
    CheckedBegins(payload);
    var u := Checked(payload) + [last];
    assert Checked(payload)[..|payload|][1] == payload[1];
    Bits.SubSlice(f, 0, 1 + |u|, 1, 1 + |payload|);
    assert f[0..1 + |u|] == f[..1 + |u|];
    assert ([start] + u)[1..1 + |payload|] == u[..|payload|] == Checked(payload)[..|payload|];
  }

  /** A reply with up to eight registers: they come back exactly, and they do from the
      damaged frame too. */
  method DecodeReply(start: bv8, rs: seq<Register>, damaged: bool, buffer: array<bv8>)
    returns (r: int, response: Response)
    requires 1 <= |rs| <= 8 && buffer.Length == KMP_FRAME_L
    modifies buffer
    ensures r == 1 && response == Response(0, 0, 0, rs)
  {
    hide RegistersAt; hide AllRegisters;
    r, response := Receive(start, RegisterReply(rs), damaged, buffer);
    var f := buffer[..];
    assert f[1..3 + 9 * |rs|] == buffer[1..3 + 9 * |rs|] == RegisterReply(rs);
    Bits.SubSlice(f, 1, 3 + 9 * |rs|, 2, 2 + 9 * |rs|);
    assert RegisterReply(rs)[2..] == AllRegisters(rs);
    RegistersReadBack(f, 3, rs);
  }

  /** What a meter answers when it is asked for its type, and for its serial number. */
  function TypeReply(meterType: bv16, swRevision: bv16): (s: seq<bv8>)
    ensures |s| == 6
  {
    [0x3f, 0x01, UpperOf(meterType), LowerOf(meterType), UpperOf(swRevision), LowerOf(swRevision)]
  }

  function SerialReply(serial: bv32): (s: seq<bv8>)
    ensures |s| == 6
  {
    [0x3f, 0x02, Byte0(serial), Byte1(serial), Byte2(serial), Byte3(serial)]
  }

  /** The four bytes behind the command. */
  lemma FourBytes(f: seq<bv8>, payload: seq<bv8>)
    requires |payload| == 6 && 7 <= |f| && f[1..7] == payload
    ensures f[3] == payload[2] && f[4] == payload[3] && f[5] == payload[4] && f[6] == payload[5]
  {
    assert f[1..7][2] == f[3] && f[1..7][3] == f[4] && f[1..7][4] == f[5] && f[1..7][5] == f[6];
  }

  /** A type reply: meter type and software revision come back exactly. */
  method DecodeTypeReply(start: bv8, meterType: bv16, swRevision: bv16, damaged: bool, buffer: array<bv8>)
    returns (r: int, response: Response)
    requires buffer.Length == KMP_FRAME_L
    modifies buffer
    ensures r == 1 && response == Response(0, meterType, swRevision, [])
  {
    hide WordOf; hide UpperOf; hide LowerOf; hide RegistersAt; hide Join32;
    r, response := Receive(start, TypeReply(meterType, swRevision), damaged, buffer);
    assert buffer[..][1..7] == buffer[1..7];
    FourBytes(buffer[..], TypeReply(meterType, swRevision));
    WordOfParts(meterType);
    WordOfParts(swRevision);
  }

  /** A serial number reply: the number comes back exactly. */
  method DecodeSerialReply(start: bv8, serial: bv32, damaged: bool, buffer: array<bv8>)
    returns (r: int, response: Response)
    requires buffer.Length == KMP_FRAME_L
    modifies buffer
    ensures r == 1 && response == Response(serial, 0, 0, [])
  {
    hide WordOf; hide RegistersAt; hide Join32; hide Byte0; hide Byte1; hide Byte2; hide Byte3;
    r, response := Receive(start, SerialReply(serial), damaged, buffer);
    assert buffer[..][1..7] == buffer[1..7];
    FourBytes(buffer[..], SerialReply(serial));
    JoinParts(serial);
  }

  lemma CheckedBegins(payload: seq<bv8>)
    ensures Checked(payload)[..|payload|] == payload
  {
    hide Divide; hide AllBits;
  }
}
