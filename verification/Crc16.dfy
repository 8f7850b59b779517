/** The table-driven CRC of the meter frames, against bit-by-bit division by 0x1021. */
module Crc16 {
  // ---------------------------------------------------------------------------
  // Division, one bit at a time

  /** The register after one more 0 bit of the message. */
  function ZeroBit(crc: bv16): bv16 {
    Xor(Shl(crc), Carry(TopBit(crc)))
  }

  /** The generator x^16 + x^12 + x^5 + 1, without its first term. */
  function Carry(top: bool): bv16 {
    if top then 0x1021 else 0
  }

  function Shl(a: bv16): bv16 {
    a << 1
  }

  function TopBit(a: bv16): bool {
    a & 0x8000 != 0
  }

  /** A message bit, where it enters the register. */
  function Top(bit: bool): bv16 {
    if bit then 0x8000 else 0
  }

  function Xor(a: bv16, b: bv16): bv16 {
    a ^ b
  }

  /** The remainder register after a message, most significant bit first. */
  function Divide(crc: bv16, bits: seq<bool>): bv16
    decreases |bits|
  {
    if bits == [] then crc else Divide(ZeroBit(Xor(crc, Top(bits[0]))), bits[1..])
  }

  function Prepend(b: bv8, rest: seq<bool>): (s: seq<bool>)
    ensures |s| == 8 + |rest|
  {
    Cons(Bit(b, 0x80), Cons(Bit(b, 0x40), Cons(Bit(b, 0x20), Cons(Bit(b, 0x10),
    Cons(Bit(b, 0x08), Cons(Bit(b, 0x04), Cons(Bit(b, 0x02), Cons(Bit(b, 0x01), rest))))))))
  }

  function Cons(bit: bool, rest: seq<bool>): (s: seq<bool>)
    ensures |s| == 1 + |rest|
  {
    [bit] + rest
  }

  function Bit(b: bv8, mask: bv8): bool {
    b & mask != 0
  }

  /** The bits of a message, most significant first. */
  function AllBits(s: seq<bv8>): (bits: seq<bool>)
    ensures |bits| == 8 * |s|
  {
    if s == [] then [] else Prepend(s[0], AllBits(s[1..]))
  }

  /** A byte in the upper half of the register. */
  function High(b: bv8): bv16 {
    (b as bv16) << 8
  }

  function EightZeroBits(crc: bv16): bv16 {
    ZeroBit(ZeroBit(ZeroBit(ZeroBit(ZeroBit(ZeroBit(ZeroBit(ZeroBit(crc))))))))
  }

  // ---------------------------------------------------------------------------
  // The table, sixteen entries a row: what eight more 0 bits make of a byte at the top

  function Row0(b: bv8): (r: bv16)
    requires 0x00 <= b <= 0x0f
    ensures r == EightZeroBits(High(b))
  {
    match b
    case 0x00 => 0x0000 case 0x01 => 0x1021 case 0x02 => 0x2042 case 0x03 => 0x3063
    case 0x04 => 0x4084 case 0x05 => 0x50a5 case 0x06 => 0x60c6 case 0x07 => 0x70e7
    case 0x08 => 0x8108 case 0x09 => 0x9129 case 0x0a => 0xa14a case 0x0b => 0xb16b
    case 0x0c => 0xc18c case 0x0d => 0xd1ad case 0x0e => 0xe1ce case _ => 0xf1ef
  }

  function Row1(b: bv8): (r: bv16)
    requires 0x10 <= b <= 0x1f
    ensures r == EightZeroBits(High(b))
  {
    match b
    case 0x10 => 0x1231 case 0x11 => 0x0210 case 0x12 => 0x3273 case 0x13 => 0x2252
    case 0x14 => 0x52b5 case 0x15 => 0x4294 case 0x16 => 0x72f7 case 0x17 => 0x62d6
    case 0x18 => 0x9339 case 0x19 => 0x8318 case 0x1a => 0xb37b case 0x1b => 0xa35a
    case 0x1c => 0xd3bd case 0x1d => 0xc39c case 0x1e => 0xf3ff case _ => 0xe3de
  }

  function Row2(b: bv8): (r: bv16)
    requires 0x20 <= b <= 0x2f
    ensures r == EightZeroBits(High(b))
  {
    match b
    case 0x20 => 0x2462 case 0x21 => 0x3443 case 0x22 => 0x0420 case 0x23 => 0x1401
    case 0x24 => 0x64e6 case 0x25 => 0x74c7 case 0x26 => 0x44a4 case 0x27 => 0x5485
    case 0x28 => 0xa56a case 0x29 => 0xb54b case 0x2a => 0x8528 case 0x2b => 0x9509
    case 0x2c => 0xe5ee case 0x2d => 0xf5cf case 0x2e => 0xc5ac case _ => 0xd58d
  }

  function Row3(b: bv8): (r: bv16)
    requires 0x30 <= b <= 0x3f
    ensures r == EightZeroBits(High(b))
  {
    match b
    case 0x30 => 0x3653 case 0x31 => 0x2672 case 0x32 => 0x1611 case 0x33 => 0x0630
    case 0x34 => 0x76d7 case 0x35 => 0x66f6 case 0x36 => 0x5695 case 0x37 => 0x46b4
    case 0x38 => 0xb75b case 0x39 => 0xa77a case 0x3a => 0x9719 case 0x3b => 0x8738
    case 0x3c => 0xf7df case 0x3d => 0xe7fe case 0x3e => 0xd79d case _ => 0xc7bc
  }

  function Row4(b: bv8): (r: bv16)
    requires 0x40 <= b <= 0x4f
    ensures r == EightZeroBits(High(b))
  {
    match b
    case 0x40 => 0x48c4 case 0x41 => 0x58e5 case 0x42 => 0x6886 case 0x43 => 0x78a7
    case 0x44 => 0x0840 case 0x45 => 0x1861 case 0x46 => 0x2802 case 0x47 => 0x3823
    case 0x48 => 0xc9cc case 0x49 => 0xd9ed case 0x4a => 0xe98e case 0x4b => 0xf9af
    case 0x4c => 0x8948 case 0x4d => 0x9969 case 0x4e => 0xa90a case _ => 0xb92b
  }

  function Row5(b: bv8): (r: bv16)
    requires 0x50 <= b <= 0x5f
    ensures r == EightZeroBits(High(b))
  {
    match b
    case 0x50 => 0x5af5 case 0x51 => 0x4ad4 case 0x52 => 0x7ab7 case 0x53 => 0x6a96
    case 0x54 => 0x1a71 case 0x55 => 0x0a50 case 0x56 => 0x3a33 case 0x57 => 0x2a12
    case 0x58 => 0xdbfd case 0x59 => 0xcbdc case 0x5a => 0xfbbf case 0x5b => 0xeb9e
    case 0x5c => 0x9b79 case 0x5d => 0x8b58 case 0x5e => 0xbb3b case _ => 0xab1a
  }

  function Row6(b: bv8): (r: bv16)
    requires 0x60 <= b <= 0x6f
    ensures r == EightZeroBits(High(b))
  {
    match b
    case 0x60 => 0x6ca6 case 0x61 => 0x7c87 case 0x62 => 0x4ce4 case 0x63 => 0x5cc5
    case 0x64 => 0x2c22 case 0x65 => 0x3c03 case 0x66 => 0x0c60 case 0x67 => 0x1c41
    case 0x68 => 0xedae case 0x69 => 0xfd8f case 0x6a => 0xcdec case 0x6b => 0xddcd
    case 0x6c => 0xad2a case 0x6d => 0xbd0b case 0x6e => 0x8d68 case _ => 0x9d49
  }

  function Row7(b: bv8): (r: bv16)
    requires 0x70 <= b <= 0x7f
    ensures r == EightZeroBits(High(b))
  {
    match b
    case 0x70 => 0x7e97 case 0x71 => 0x6eb6 case 0x72 => 0x5ed5 case 0x73 => 0x4ef4
    case 0x74 => 0x3e13 case 0x75 => 0x2e32 case 0x76 => 0x1e51 case 0x77 => 0x0e70
    case 0x78 => 0xff9f case 0x79 => 0xefbe case 0x7a => 0xdfdd case 0x7b => 0xcffc
    case 0x7c => 0xbf1b case 0x7d => 0xaf3a case 0x7e => 0x9f59 case _ => 0x8f78
  }

  function Row8(b: bv8): (r: bv16)
    requires 0x80 <= b <= 0x8f
    ensures r == EightZeroBits(High(b))
  {
    match b
    case 0x80 => 0x9188 case 0x81 => 0x81a9 case 0x82 => 0xb1ca case 0x83 => 0xa1eb
    case 0x84 => 0xd10c case 0x85 => 0xc12d case 0x86 => 0xf14e case 0x87 => 0xe16f
    case 0x88 => 0x1080 case 0x89 => 0x00a1 case 0x8a => 0x30c2 case 0x8b => 0x20e3
    case 0x8c => 0x5004 case 0x8d => 0x4025 case 0x8e => 0x7046 case _ => 0x6067
  }

  function Row9(b: bv8): (r: bv16)
    requires 0x90 <= b <= 0x9f
    ensures r == EightZeroBits(High(b))
  {
    match b
    case 0x90 => 0x83b9 case 0x91 => 0x9398 case 0x92 => 0xa3fb case 0x93 => 0xb3da
    case 0x94 => 0xc33d case 0x95 => 0xd31c case 0x96 => 0xe37f case 0x97 => 0xf35e
    case 0x98 => 0x02b1 case 0x99 => 0x1290 case 0x9a => 0x22f3 case 0x9b => 0x32d2
    case 0x9c => 0x4235 case 0x9d => 0x5214 case 0x9e => 0x6277 case _ => 0x7256
  }

  function Rowa(b: bv8): (r: bv16)
    requires 0xa0 <= b <= 0xaf
    ensures r == EightZeroBits(High(b))
  {
    match b
    case 0xa0 => 0xb5ea case 0xa1 => 0xa5cb case 0xa2 => 0x95a8 case 0xa3 => 0x8589
    case 0xa4 => 0xf56e case 0xa5 => 0xe54f case 0xa6 => 0xd52c case 0xa7 => 0xc50d
    case 0xa8 => 0x34e2 case 0xa9 => 0x24c3 case 0xaa => 0x14a0 case 0xab => 0x0481
    case 0xac => 0x7466 case 0xad => 0x6447 case 0xae => 0x5424 case _ => 0x4405
  }

  function Rowb(b: bv8): (r: bv16)
    requires 0xb0 <= b <= 0xbf
    ensures r == EightZeroBits(High(b))
  {
    match b
    case 0xb0 => 0xa7db case 0xb1 => 0xb7fa case 0xb2 => 0x8799 case 0xb3 => 0x97b8
    case 0xb4 => 0xe75f case 0xb5 => 0xf77e case 0xb6 => 0xc71d case 0xb7 => 0xd73c
    case 0xb8 => 0x26d3 case 0xb9 => 0x36f2 case 0xba => 0x0691 case 0xbb => 0x16b0
    case 0xbc => 0x6657 case 0xbd => 0x7676 case 0xbe => 0x4615 case _ => 0x5634
  }

  function Rowc(b: bv8): (r: bv16)
    requires 0xc0 <= b <= 0xcf
    ensures r == EightZeroBits(High(b))
  {
    match b
    case 0xc0 => 0xd94c case 0xc1 => 0xc96d case 0xc2 => 0xf90e case 0xc3 => 0xe92f
    case 0xc4 => 0x99c8 case 0xc5 => 0x89e9 case 0xc6 => 0xb98a case 0xc7 => 0xa9ab
    case 0xc8 => 0x5844 case 0xc9 => 0x4865 case 0xca => 0x7806 case 0xcb => 0x6827
    case 0xcc => 0x18c0 case 0xcd => 0x08e1 case 0xce => 0x3882 case _ => 0x28a3
  }

  function Rowd(b: bv8): (r: bv16)
    requires 0xd0 <= b <= 0xdf
    ensures r == EightZeroBits(High(b))
  {
    match b
    case 0xd0 => 0xcb7d case 0xd1 => 0xdb5c case 0xd2 => 0xeb3f case 0xd3 => 0xfb1e
    case 0xd4 => 0x8bf9 case 0xd5 => 0x9bd8 case 0xd6 => 0xabbb case 0xd7 => 0xbb9a
    case 0xd8 => 0x4a75 case 0xd9 => 0x5a54 case 0xda => 0x6a37 case 0xdb => 0x7a16
    case 0xdc => 0x0af1 case 0xdd => 0x1ad0 case 0xde => 0x2ab3 case _ => 0x3a92
  }

  function Rowe(b: bv8): (r: bv16)
    requires 0xe0 <= b <= 0xef
    ensures r == EightZeroBits(High(b))
  {
    match b
    case 0xe0 => 0xfd2e case 0xe1 => 0xed0f case 0xe2 => 0xdd6c case 0xe3 => 0xcd4d
    case 0xe4 => 0xbdaa case 0xe5 => 0xad8b case 0xe6 => 0x9de8 case 0xe7 => 0x8dc9
    case 0xe8 => 0x7c26 case 0xe9 => 0x6c07 case 0xea => 0x5c64 case 0xeb => 0x4c45
    case 0xec => 0x3ca2 case 0xed => 0x2c83 case 0xee => 0x1ce0 case _ => 0x0cc1
  }

  function Rowf(b: bv8): (r: bv16)
    requires 0xf0 <= b <= 0xff
    ensures r == EightZeroBits(High(b))
  {
    match b
    case 0xf0 => 0xef1f case 0xf1 => 0xff3e case 0xf2 => 0xcf5d case 0xf3 => 0xdf7c
    case 0xf4 => 0xaf9b case 0xf5 => 0xbfba case 0xf6 => 0x8fd9 case 0xf7 => 0x9ff8
    case 0xf8 => 0x6e17 case 0xf9 => 0x7e36 case 0xfa => 0x4e55 case 0xfb => 0x5e74
    case 0xfc => 0x2e93 case 0xfd => 0x3eb2 case 0xfe => 0x0ed1 case _ => 0x1ef0
  }

  function Table(b: bv8): (r: bv16)
    ensures r == EightZeroBits(High(b))
  {
    if b < 0x10 then Row0(b)
    else if b < 0x20 then Row1(b)
    else if b < 0x30 then Row2(b)
    else if b < 0x40 then Row3(b)
    else if b < 0x50 then Row4(b)
    else if b < 0x60 then Row5(b)
    else if b < 0x70 then Row6(b)
    else if b < 0x80 then Row7(b)
    else if b < 0x90 then Row8(b)
    else if b < 0xa0 then Row9(b)
    else if b < 0xb0 then Rowa(b)
    else if b < 0xc0 then Rowb(b)
    else if b < 0xd0 then Rowc(b)
    else if b < 0xe0 then Rowd(b)
    else if b < 0xf0 then Rowe(b)
    else Rowf(b)
  }

  // ---------------------------------------------------------------------------
  // A table step is eight division steps

  lemma XorExchange(a: bv16, b: bv16, c: bv16, d: bv16)
    ensures Xor(Xor(a, b), Xor(c, d)) == Xor(Xor(a, c), Xor(b, d))
  {
    hide Xor;
    XorAssociative(a, b, Xor(c, d));
    XorAssociative(b, c, d);
    XorCommutes(b, c);
    XorAssociative(c, b, d);
    XorAssociative(a, c, Xor(b, d));
  }

  lemma XorAssociative(a: bv16, b: bv16, c: bv16)
    ensures Xor(Xor(a, b), c) == Xor(a, Xor(b, c))
  {
  }

  lemma XorSwap(a: bv16, b: bv16, c: bv16)
    ensures Xor(Xor(a, b), c) == Xor(Xor(a, c), b)
  {
  }

  lemma XorZero(a: bv16)
    ensures Xor(a, 0) == a && Xor(a, a) == 0
  {
  }

  lemma XorCancel(a: bv16, b: bv16)
    requires Xor(a, b) == 0
    ensures a == b
  {
    hide Xor;
    XorAssociative(a, b, b);
    XorZero(b);
    XorZero(a);
    XorCommutes(0, b);
    XorZero(b);
  }

  lemma XorCommutes(a: bv16, b: bv16)
    ensures Xor(a, b) == Xor(b, a)
  {
  }

  lemma ShlLinear(a: bv16, b: bv16)
    ensures Shl(Xor(a, b)) == Xor(Shl(a), Shl(b))
  {
  }

  lemma TopMasked(a: bv16, b: bv16)
    ensures Xor(a, b) & 0x8000 == Xor(a & 0x8000, b & 0x8000)
    ensures a & 0x8000 == if TopBit(a) then 0x8000 else 0
  {
  }

  lemma TopBitLinear(a: bv16, b: bv16)
    ensures TopBit(Xor(a, b)) == (TopBit(a) != TopBit(b))
  {
    TopMasked(a, b);
    TopMasked(b, a);
  }

  /** Bitwise addition goes through a step. */
  lemma ZeroBitLinear(a: bv16, b: bv16)
    ensures ZeroBit(Xor(a, b)) == Xor(ZeroBit(a), ZeroBit(b))
  {
    CarryLinear(TopBit(a), TopBit(b));
    hide Xor; hide Shl; hide TopBit; hide Carry;
    ShlLinear(a, b);
    TopBitLinear(a, b);
    XorExchange(Shl(a), Carry(TopBit(a)), Shl(b), Carry(TopBit(b)));
  }

  lemma CarryLinear(a: bool, b: bool)
    ensures Carry(a != b) == Xor(Carry(a), Carry(b))
  {
  }

  lemma EightLinear(a: bv16, b: bv16)
    ensures EightZeroBits(Xor(a, b)) == Xor(EightZeroBits(a), EightZeroBits(b))
  {
    hide ZeroBit; hide Xor;
    var a1, b1 := ZeroBit(a), ZeroBit(b);
    ZeroBitLinear(a, b);
    var a2, b2 := ZeroBit(a1), ZeroBit(b1);
    ZeroBitLinear(a1, b1);
    var a3, b3 := ZeroBit(a2), ZeroBit(b2);
    ZeroBitLinear(a2, b2);
    var a4, b4 := ZeroBit(a3), ZeroBit(b3);
    ZeroBitLinear(a3, b3);
    var a5, b5 := ZeroBit(a4), ZeroBit(b4);
    ZeroBitLinear(a4, b4);
    var a6, b6 := ZeroBit(a5), ZeroBit(b5);
    ZeroBitLinear(a5, b5);
    var a7, b7 := ZeroBit(a6), ZeroBit(b6);
    ZeroBitLinear(a6, b6);
    ZeroBitLinear(a7, b7);
  }

  /** The generator ends in 1, so a step never loses a difference. */
  lemma ZeroBitInvertible(a: bv16)
    ensures ZeroBit(a) == 0 ==> a == 0
  {
  }

  lemma EightInvertible(d: bv16)
    requires EightZeroBits(d) == 0
    ensures d == 0
  {
    hide ZeroBit;
    var d1 := ZeroBit(d);
    var d2 := ZeroBit(d1);
    var d3 := ZeroBit(d2);
    var d4 := ZeroBit(d3);
    var d5 := ZeroBit(d4);
    var d6 := ZeroBit(d5);
    ZeroBitInvertible(ZeroBit(d6));
    ZeroBitInvertible(d6);
    ZeroBitInvertible(d5);
    ZeroBitInvertible(d4);
    ZeroBitInvertible(d3);
    ZeroBitInvertible(d2);
    ZeroBitInvertible(d1);
    ZeroBitInvertible(d);
  }

  lemma LowByteShifts(low: bv16)
    requires low < 0x100
    ensures EightZeroBits(low) == low << 8
  {
  }

  function UpperByte(crc: bv16): bv8 {
    ((crc >> 8) & 0xff) as bv8
  }

  function XorByte(a: bv8, b: bv8): bv8 {
    a ^ b
  }

  /** ccit_crc16 for one byte. */
  function Step(crc: bv16, b: bv8): bv16 {
    Xor(crc << 8, Table(XorByte(UpperByte(crc), b)))
  }

  lemma HighLinear(a: bv8, b: bv8)
    ensures High(XorByte(a, b)) == Xor(High(a), High(b))
  {
  }

  lemma SplitRegister(crc: bv16)
    ensures crc == Xor(High(UpperByte(crc)), crc & 0xff)
    ensures crc << 8 == (crc & 0xff) << 8 && crc & 0xff < 0x100
  {
  }

  lemma StepIsEight(crc: bv16, b: bv8)
    ensures Step(crc, b) == EightZeroBits(Xor(crc, High(b)))
  {
    hide ZeroBit; hide EightZeroBits; hide Xor; hide High; hide XorByte; hide UpperByte; hide Table;
    var upper, low := High(UpperByte(crc)), crc & 0xff;
    SplitRegister(crc);
    HighLinear(UpperByte(crc), b);
    XorSwap(upper, low, High(b));
    EightLinear(Xor(upper, High(b)), low);
    LowByteShifts(low);
    XorCommutes(EightZeroBits(Xor(upper, High(b))), low << 8);
  }

  function TopOf(r: bv16): bv16 {
    r & 0x8000
  }

  lemma SplitTop(r: bv16)
    ensures r == Xor(TopOf(r), r & 0x7fff) && !TopBit(r & 0x7fff)
    ensures Shl(r & 0x7fff) == Shl(r)
  {
  }

  /** One message bit: the rest of the byte may be added early. */
  lemma OneBit(crc: bv16, r: bv16)
    ensures ZeroBit(Xor(crc, r)) == Xor(ZeroBit(Xor(crc, TopOf(r))), Shl(r))
  {
    var top, low := TopOf(r), r & 0x7fff;
    SplitTop(r);
    LowZeroBit(low);
    hide Xor; hide ZeroBit; hide Shl; hide TopBit; hide TopOf;
    XorAssociative(crc, top, low);
    ZeroBitLinear(Xor(crc, top), low);
  }

  lemma LowZeroBit(low: bv16)
    requires !TopBit(low)
    ensures ZeroBit(low) == Shl(low)
  {
    hide TopBit; hide Shl;
  }

  lemma DivideCons(crc: bv16, bit: bool, rest: seq<bool>)
    ensures Divide(crc, Cons(bit, rest)) == Divide(ZeroBit(Xor(crc, Top(bit))), rest)
  {
    hide ZeroBit; hide Top; hide Xor;
    assert ([bit] + rest)[1..] == rest;
  }

  lemma TopBits(b: bv8)
    ensures var r0 := High(b);
            var r1 := Shl(r0);
            var r2 := Shl(r1);
            var r3 := Shl(r2);
            var r4 := Shl(r3);
            var r5 := Shl(r4);
            var r6 := Shl(r5);
            var r7 := Shl(r6);
            && Top(Bit(b, 0x80)) == TopOf(r0) && Top(Bit(b, 0x40)) == TopOf(r1)
            && Top(Bit(b, 0x20)) == TopOf(r2) && Top(Bit(b, 0x10)) == TopOf(r3)
            && Top(Bit(b, 0x08)) == TopOf(r4) && Top(Bit(b, 0x04)) == TopOf(r5)
            && Top(Bit(b, 0x02)) == TopOf(r6) && Top(Bit(b, 0x01)) == TopOf(r7)
            && Shl(r7) == 0
  {
  }

  /** The register after the top bit of r. */
  function Feed(crc: bv16, r: bv16): bv16 {
    ZeroBit(Xor(crc, TopOf(r)))
  }

  function FeedEight(crc: bv16, r: bv16): bv16 {
    var r1 := Shl(r);
    var r2 := Shl(r1);
    var r3 := Shl(r2);
    var r4 := Shl(r3);
    var r5 := Shl(r4);
    var r6 := Shl(r5);
    Feed(Feed(Feed(Feed(Feed(Feed(Feed(Feed(crc, r), r1), r2), r3), r4), r5), r6), Shl(r6))
  }

  lemma FeedIsEight(crc: bv16, r: bv16)
    requires Shl(Shl(Shl(Shl(Shl(Shl(Shl(Shl(r)))))))) == 0
    ensures FeedEight(crc, r) == EightZeroBits(Xor(crc, r))
  {
    hide ZeroBit; hide TopOf; hide Xor; hide Shl;
    var c0, r0 := crc, r;
    var c1, r1 := Feed(c0, r0), Shl(r0);
    OneBit(c0, r0);
    var c2, r2 := Feed(c1, r1), Shl(r1);
    OneBit(c1, r1);
    var c3, r3 := Feed(c2, r2), Shl(r2);
    OneBit(c2, r2);
    var c4, r4 := Feed(c3, r3), Shl(r3);
    OneBit(c3, r3);
    var c5, r5 := Feed(c4, r4), Shl(r4);
    OneBit(c4, r4);
    var c6, r6 := Feed(c5, r5), Shl(r5);
    OneBit(c5, r5);
    var c7, r7 := Feed(c6, r6), Shl(r6);
    OneBit(c6, r6);
    var c8, r8 := Feed(c7, r7), Shl(r7);
    OneBit(c7, r7);
    XorZero(c8);
  }

  /** Feeding a byte bit by bit is one table step. */
  lemma DivideByte(crc: bv16, b: bv8, rest: seq<bool>)
    ensures Divide(crc, Prepend(b, rest)) == Divide(Step(crc, b), rest)
  {
    hide FeedEight; hide ZeroBit; hide Xor; hide Shl; hide High; hide Step; hide Divide; hide Prepend; hide TopOf;
    hide Top; hide Bit;
    StepIsEight(crc, b);
    TopBits(b);
    FeedIsEight(crc, High(b));
    DivideFeeds(crc, b, rest);
  }

  lemma FeedCons(crc: bv16, bit: bool, r: bv16, rest: seq<bool>)
    requires Top(bit) == TopOf(r)
    ensures Divide(crc, Cons(bit, rest)) == Divide(Feed(crc, r), rest)
  {
    hide ZeroBit; hide Top; hide Divide; hide TopOf; hide Xor; hide Cons;
    DivideCons(crc, bit, rest);
  }

  lemma DivideFeeds(crc: bv16, b: bv8, rest: seq<bool>)
    ensures Divide(crc, Prepend(b, rest)) == Divide(FeedEight(crc, High(b)), rest)
  {
    hide ZeroBit; hide Top; hide Divide; hide Bit; hide TopOf; hide Xor; hide Shl; hide High; hide Cons; hide Feed;
    TopBits(b);
    var c0, r0 := crc, High(b);
    var c1, r1 := Feed(c0, r0), Shl(r0);
    var c2, r2 := Feed(c1, r1), Shl(r1);
    var c3, r3 := Feed(c2, r2), Shl(r2);
    var c4, r4 := Feed(c3, r3), Shl(r3);
    var c5, r5 := Feed(c4, r4), Shl(r4);
    var c6, r6 := Feed(c5, r5), Shl(r5);
    var c7, r7 := Feed(c6, r6), Shl(r6);
    var s7 := Cons(Bit(b, 0x01), rest);
    var s6 := Cons(Bit(b, 0x02), s7);
    var s5 := Cons(Bit(b, 0x04), s6);
    var s4 := Cons(Bit(b, 0x08), s5);
    var s3 := Cons(Bit(b, 0x10), s4);
    var s2 := Cons(Bit(b, 0x20), s3);
    var s1 := Cons(Bit(b, 0x40), s2);
    FeedCons(c0, Bit(b, 0x80), r0, s1);
    FeedCons(c1, Bit(b, 0x40), r1, s2);
    FeedCons(c2, Bit(b, 0x20), r2, s3);
    FeedCons(c3, Bit(b, 0x10), r3, s4);
    FeedCons(c4, Bit(b, 0x08), r4, s5);
    FeedCons(c5, Bit(b, 0x04), r5, s6);
    FeedCons(c6, Bit(b, 0x02), r6, s7);
    FeedCons(c7, Bit(b, 0x01), r7, rest);
  }

  /** ccit_crc16: the table loop computes the remainder of the bit-by-bit division. */
  method Crc(start: bv16, data: seq<bv8>) returns (crc: bv16)
    ensures crc == Divide(start, AllBits(data))
  {
    hide Divide; hide Step; hide Prepend;
    crc := start;
    var i := 0;
    assert data[0..] == data;
    while i < |data|
      invariant i <= |data|
      invariant Divide(crc, AllBits(data[i..])) == Divide(start, AllBits(data))
    {
      assert data[i..][1..] == data[i + 1..];
      DivideByte(crc, data[i], AllBits(data[i + 1..]));
      crc := Step(crc, data[i]);
      i := i + 1;
    }
    NoBits(crc, data);
  }

  lemma NoBits(crc: bv16, data: seq<bv8>)
    ensures Divide(crc, AllBits(data[|data|..])) == crc
  {
  }

  // ---------------------------------------------------------------------------
  // What the check detects

  lemma {:induction false} DivideConcat(crc: bv16, a: seq<bool>, b: seq<bool>)
    ensures Divide(crc, a + b) == Divide(Divide(crc, a), b)
    decreases |a|
  {
    hide ZeroBit; hide Top; hide Xor;
    if a == [] {
      assert a + b == b;
    } else {
      assert (a + b)[1..] == a[1..] + b;
      DivideConcat(ZeroBit(Xor(crc, Top(a[0]))), a[1..], b);
    }
  }

  lemma ConsConcat(bit: bool, s: seq<bool>, t: seq<bool>)
    ensures Cons(bit, s + t) == Cons(bit, s) + t
  {
  }

  lemma PrependConcat(b: bv8, s: seq<bool>, t: seq<bool>)
    ensures Prepend(b, s + t) == Prepend(b, s) + t
  {
    hide Cons; hide Bit;
    var s1 := Cons(Bit(b, 0x01), s);
    ConsConcat(Bit(b, 0x01), s, t);
    var s2 := Cons(Bit(b, 0x02), s1);
    ConsConcat(Bit(b, 0x02), s1, t);
    var s3 := Cons(Bit(b, 0x04), s2);
    ConsConcat(Bit(b, 0x04), s2, t);
    var s4 := Cons(Bit(b, 0x08), s3);
    ConsConcat(Bit(b, 0x08), s3, t);
    var s5 := Cons(Bit(b, 0x10), s4);
    ConsConcat(Bit(b, 0x10), s4, t);
    var s6 := Cons(Bit(b, 0x20), s5);
    ConsConcat(Bit(b, 0x20), s5, t);
    var s7 := Cons(Bit(b, 0x40), s6);
    ConsConcat(Bit(b, 0x40), s6, t);
    ConsConcat(Bit(b, 0x80), s7, t);
  }

  lemma {:induction false} AllBitsConcat(a: seq<bv8>, b: seq<bv8>)
    ensures AllBits(a + b) == AllBits(a) + AllBits(b)
  {
    hide Prepend;
    if a == [] {
      assert a + b == b;
    } else {
      assert (a + b)[1..] == a[1..] + b;
      AllBitsConcat(a[1..], b);
      PrependConcat(a[0], AllBits(a[1..]), AllBits(b));
    }
  }

  lemma BitsOfByte(b: bv8, rest: seq<bool>)
    ensures var s := Prepend(b, rest);
            && s[0] == Bit(b, 0x80) && s[1] == Bit(b, 0x40) && s[2] == Bit(b, 0x20) && s[3] == Bit(b, 0x10)
            && s[4] == Bit(b, 0x08) && s[5] == Bit(b, 0x04) && s[6] == Bit(b, 0x02) && s[7] == Bit(b, 0x01)
            && s[8..] == rest
  {
    hide Bit;
  }

  lemma SameBits(a: bv8, b: bv8)
    requires Bit(a, 0x80) == Bit(b, 0x80) && Bit(a, 0x40) == Bit(b, 0x40) && Bit(a, 0x20) == Bit(b, 0x20)
    requires Bit(a, 0x10) == Bit(b, 0x10) && Bit(a, 0x08) == Bit(b, 0x08) && Bit(a, 0x04) == Bit(b, 0x04)
    requires Bit(a, 0x02) == Bit(b, 0x02) && Bit(a, 0x01) == Bit(b, 0x01)
    ensures a == b
  {
  }

  /** Different messages have different bits. */
  lemma {:induction false} AllBitsInjective(a: seq<bv8>, b: seq<bv8>)
    requires AllBits(a) == AllBits(b)
    ensures a == b
  {
    hide Prepend; hide Bit;
    if a != [] && b != [] {
      BitsOfByte(a[0], AllBits(a[1..]));
      BitsOfByte(b[0], AllBits(b[1..]));
      SameBits(a[0], b[0]);
      AllBitsInjective(a[1..], b[1..]);
    }
  }

  function WordOf(high: bv8, low: bv8): bv16 {
    High(high) | (low as bv16)
  }

  lemma WordParts(high: bv8, low: bv8)
    ensures WordOf(high, low) == Xor(High(high), low as bv16)
    ensures (low as bv16) < 0x100 && High(low) == (low as bv16) << 8
  {
  }

  /** A message followed by two bytes divides without remainder exactly when they are
      its CRC. */
  lemma ResidueZero(data: seq<bv8>, high: bv8, low: bv8)
    ensures Divide(0, AllBits(data + [high, low])) == 0 <==> Divide(0, AllBits(data)) == WordOf(high, low)
  {
    hide Divide; hide Step; hide Prepend; hide ZeroBit; hide EightZeroBits; hide Xor; hide High; hide WordOf;
    var crc := Divide(0, AllBits(data));
    AllBitsConcat(data, [high, low]);
    DivideConcat(0, AllBits(data), AllBits([high, low]));
    TwoBytes(crc, high, low);
    StepIsEight(crc, high);
    StepIsEight(Step(crc, high), low);
    WordParts(high, low);
    LowByteShifts(low as bv16);
    ResidueAlgebra(crc, High(high), low as bv16);
  }

  lemma ResidueAlgebra(crc: bv16, h: bv16, l: bv16)
    ensures EightZeroBits(Xor(EightZeroBits(Xor(crc, h)), EightZeroBits(l))) == 0 <==> crc == Xor(h, l)
  {
    hide EightZeroBits; hide Xor;
    var mid := Xor(crc, h);
    EightLinear(mid, l);
    EightNothing();
    XorAssociative(crc, h, l);
    XorZero(crc);
    if EightZeroBits(EightZeroBits(Xor(mid, l))) == 0 {
      EightInvertible(EightZeroBits(Xor(mid, l)));
      EightInvertible(Xor(mid, l));
      XorCancel(crc, Xor(h, l));
    }
  }

  lemma TwoBytes(crc: bv16, high: bv8, low: bv8)
    ensures Divide(crc, AllBits([high, low])) == Step(Step(crc, high), low)
  {
    hide Step; hide Prepend; hide ZeroBit; hide Xor; hide Top;
    assert [high, low][1..] == [low];
    assert AllBits([low]) == Prepend(low, []);
    DivideByte(crc, high, AllBits([low]));
    DivideByte(Step(crc, high), low, []);
  }

  lemma EightNothing()
    ensures EightZeroBits(0) == 0
  {
  }

  /** 0xffff with k bits shifted out. */
  function Mask(k: nat): (m: bv16)
    requires k <= 16
    ensures k < 16 ==> m & 1 == 1
  {
    match k
    case 0 => 0xffff case 1 => 0x7fff case 2 => 0x3fff case 3 => 0x1fff
    case 4 => 0x0fff case 5 => 0x07ff case 6 => 0x03ff case 7 => 0x01ff
    case 8 => 0x00ff case 9 => 0x007f case 10 => 0x003f case 11 => 0x001f
    case 12 => 0x000f case 13 => 0x0007 case 14 => 0x0003 case 15 => 0x0001
    case _ => 0
  }

  lemma MaskStep(k: nat)
    requires k < 16
    ensures Mask(k + 1) == Mask(k) >> 1
  {
  }

  /** Going back one step adds at most one bit to what a difference can have been. */
  lemma BackOneStep(d: bv16, bit: bool, m: bv16)
    requires m & 1 == 1 && ZeroBit(Xor(d, Top(bit))) & m == 0
    ensures d & (m >> 1) == 0
  {
  }

  function Differ(a: bool, b: bool): bool {
    a != b
  }

  lemma TopDiffers(c: bv16, d: bv16, a: bool, b: bool)
    ensures Xor(Xor(c, Top(a)), Xor(d, Top(b))) == Xor(Xor(c, d), Top(Differ(a, b)))
  {
    hide Xor;
    XorExchange(c, Top(a), d, Top(b));
    TopLinear(a, b);
  }

  lemma TopLinear(a: bool, b: bool)
    ensures Xor(Top(a), Top(b)) == Top(Differ(a, b))
  {
  }

  /** If two registers meet after at most 16 message bits, they differed at most in as
      many of their top bits before. */
  lemma {:induction false} BackFrom(c: bv16, d: bv16, a: seq<bool>, b: seq<bool>)
    requires |a| == |b| <= 16 && Divide(c, a) == Divide(d, b)
    ensures Xor(c, d) & Mask(|a|) == 0
    decreases |a|
  {
    hide ZeroBit; hide Top; hide Differ; hide Mask; hide Xor;
    if a == [] {
      XorZero(c);
      NoDifference();
    } else {
      var c', d' := ZeroBit(Xor(c, Top(a[0]))), ZeroBit(Xor(d, Top(b[0])));
      BackFrom(c', d', a[1..], b[1..]);
      ZeroBitLinear(Xor(c, Top(a[0])), Xor(d, Top(b[0])));
      TopDiffers(c, d, a[0], b[0]);
      BackOneStep(Xor(c, d), Differ(a[0], b[0]), Mask(|a| - 1));
      MaskStep(|a| - 1);
    }
  }

  lemma NoDifference()
    ensures 0 & Mask(0) == 0
  {
  }

  /** Registers that differ cannot meet while the message bits agree. */
  lemma {:induction false} AgreeingBits(c: bv16, d: bv16, a: seq<bool>)
    requires Divide(c, a) == Divide(d, a)
    ensures c == d
    decreases |a|
  {
    hide ZeroBit; hide Top; hide Xor;
    if a != [] {
      var t := Top(a[0]);
      AgreeingBits(ZeroBit(Xor(c, t)), ZeroBit(Xor(d, t)), a[1..]);
      ZeroBitLinear(Xor(c, t), Xor(d, t));
      XorZero(ZeroBit(Xor(c, t)));
      ZeroBitInvertible(Xor(Xor(c, t), Xor(d, t)));
      XorExchange(c, t, d, t);
      XorZero(t);
      XorZero(Xor(c, d));
      XorCancel(c, d);
    }
  }

  /** The first bit that differs puts an odd difference into the register. */
  lemma FirstDifference(c: bv16, a: bool, b: bool)
    requires a != b
    ensures Xor(ZeroBit(Xor(c, Top(a))), ZeroBit(Xor(c, Top(b)))) == 0x1021
  {
    hide ZeroBit; hide Xor; hide Top;
    ZeroBitLinear(Xor(c, Top(a)), Xor(c, Top(b)));
    TopDiffers(c, c, a, b);
    XorZero(c);
    XorCommutes(0, Top(true));
    XorZero(Top(true));
    ZeroBitOfTop();
  }

  lemma ZeroBitOfTop()
    ensures ZeroBit(Top(true)) == 0x1021
  {
  }

  /** Two messages that differ, and only within 16 consecutive bits, have different
      remainders. */
  lemma BurstDetected(before: seq<bool>, a: seq<bool>, b: seq<bool>, after: seq<bool>)
    requires |a| == |b| <= 16 && a != b
    ensures Divide(0, before + a + after) != Divide(0, before + b + after)
    decreases |a|
  {
    hide ZeroBit; hide Top; hide Divide; hide Mask; hide Xor;
    DivideConcat(0, before + a, after);
    DivideConcat(0, before, a);
    DivideConcat(0, before + b, after);
    DivideConcat(0, before, b);
    var c := Divide(0, before);
    if Divide(Divide(c, a), after) == Divide(Divide(c, b), after) {
      AgreeingBits(Divide(c, a), Divide(c, b), after);
      BurstMeets(c, a, b);
    }
  }

  lemma {:induction false} BurstMeets(c: bv16, a: seq<bool>, b: seq<bool>)
    requires |a| == |b| <= 16 && Divide(c, a) == Divide(c, b)
    ensures a == b
    decreases |a|
  {
    hide ZeroBit; hide Top; hide Mask; hide Xor;
    if a != [] {
      var c', d' := ZeroBit(Xor(c, Top(a[0]))), ZeroBit(Xor(c, Top(b[0])));
      BackFrom(c', d', a[1..], b[1..]);
      OddMask(|a| - 1);
      if a[0] != b[0] {
        FirstDifference(c, a[0], b[0]);
      } else {
        BurstMeets(c', a[1..], b[1..]);
        assert a == [a[0]] + a[1..] && b == [b[0]] + b[1..];
      }
    }
  }

  lemma OddMask(k: nat)
    requires k < 16
    ensures 0x1021 & Mask(k) != 0
  {
  }
}
