/** What the S-box table means (section 5.1.1 of FIPS 197): the multiplicative inverse in
    GF(2^8), and an affine map over the bits of it. */
module AesSBox {
  import opened AesField

  /** Multiplication in the field (section 4.2 of FIPS 197): doubles of x, one for each
      bit of y. Written out in bit-vector operations, so that it is quick on constants. */
  function Times(x: bv8, y: bv8): bv8 {
    var x1: bv8 := (x << 1) ^ (if x & 0x80 != 0 then 0x1b else 0);
    var x2: bv8 := (x1 << 1) ^ (if x1 & 0x80 != 0 then 0x1b else 0);
    var x3: bv8 := (x2 << 1) ^ (if x2 & 0x80 != 0 then 0x1b else 0);
    var x4: bv8 := (x3 << 1) ^ (if x3 & 0x80 != 0 then 0x1b else 0);
    var x5: bv8 := (x4 << 1) ^ (if x4 & 0x80 != 0 then 0x1b else 0);
    var x6: bv8 := (x5 << 1) ^ (if x5 & 0x80 != 0 then 0x1b else 0);
    var x7: bv8 := (x6 << 1) ^ (if x6 & 0x80 != 0 then 0x1b else 0);
    (if y & 0x01 != 0 then x else 0) ^ (if y & 0x02 != 0 then x1 else 0) ^
    (if y & 0x04 != 0 then x2 else 0) ^ (if y & 0x08 != 0 then x3 else 0) ^
    (if y & 0x10 != 0 then x4 else 0) ^ (if y & 0x20 != 0 then x5 else 0) ^
    (if y & 0x40 != 0 then x6 else 0) ^ (if y & 0x80 != 0 then x7 else 0)
  }

  /** y is the inverse of x, or both are 0. */
  predicate AreInverse(x: bv8, y: bv8) {
    if x == 0 then y == 0 else Times(x, y) == 1
  }

  function Rotl(x: bv8, n: nat): bv8
    requires 0 < n < 8
  {
    (x << n) | (x >> (8 - n))
  }

  function Affine(x: bv8): bv8 {
    x ^ Rotl(x, 1) ^ Rotl(x, 2) ^ Rotl(x, 3) ^ Rotl(x, 4) ^ 0x63
  }

  /** The affine map of the inverse S-box (section 5.3.2 of FIPS 197). */
  function Unaffine(x: bv8): bv8 {
    Rotl(x, 1) ^ Rotl(x, 3) ^ Rotl(x, 6) ^ 0x05
  }

  lemma AffineBack(x: bv8)
    ensures Affine(Unaffine(x)) == x
  {
  }

  // ---------------------------------------------------------------------------
  // Sixteen entries at a time

  lemma BackRow0(b: bv8)
    requires 0x00 <= b <= 0x0f
    ensures InvSub(Sub(b)) == b
  {
    match b
    case 0x00 => case 0x01 => case 0x02 => case 0x03 =>
    case 0x04 => case 0x05 => case 0x06 => case 0x07 =>
    case 0x08 => case 0x09 => case 0x0a => case 0x0b =>
    case 0x0c => case 0x0d => case 0x0e => case 0x0f =>
    case _ => assert false;
  }

  lemma BackRow1(b: bv8)
    requires 0x10 <= b <= 0x1f
    ensures InvSub(Sub(b)) == b
  {
    match b
    case 0x10 => case 0x11 => case 0x12 => case 0x13 =>
    case 0x14 => case 0x15 => case 0x16 => case 0x17 =>
    case 0x18 => case 0x19 => case 0x1a => case 0x1b =>
    case 0x1c => case 0x1d => case 0x1e => case 0x1f =>
    case _ => assert false;
  }

  lemma BackRow2(b: bv8)
    requires 0x20 <= b <= 0x2f
    ensures InvSub(Sub(b)) == b
  {
    match b
    case 0x20 => case 0x21 => case 0x22 => case 0x23 =>
    case 0x24 => case 0x25 => case 0x26 => case 0x27 =>
    case 0x28 => case 0x29 => case 0x2a => case 0x2b =>
    case 0x2c => case 0x2d => case 0x2e => case 0x2f =>
    case _ => assert false;
  }

  lemma BackRow3(b: bv8)
    requires 0x30 <= b <= 0x3f
    ensures InvSub(Sub(b)) == b
  {
    match b
    case 0x30 => case 0x31 => case 0x32 => case 0x33 =>
    case 0x34 => case 0x35 => case 0x36 => case 0x37 =>
    case 0x38 => case 0x39 => case 0x3a => case 0x3b =>
    case 0x3c => case 0x3d => case 0x3e => case 0x3f =>
    case _ => assert false;
  }

  lemma BackRow4(b: bv8)
    requires 0x40 <= b <= 0x4f
    ensures InvSub(Sub(b)) == b
  {
    match b
    case 0x40 => case 0x41 => case 0x42 => case 0x43 =>
    case 0x44 => case 0x45 => case 0x46 => case 0x47 =>
    case 0x48 => case 0x49 => case 0x4a => case 0x4b =>
    case 0x4c => case 0x4d => case 0x4e => case 0x4f =>
    case _ => assert false;
  }

  lemma BackRow5(b: bv8)
    requires 0x50 <= b <= 0x5f
    ensures InvSub(Sub(b)) == b
  {
    match b
    case 0x50 => case 0x51 => case 0x52 => case 0x53 =>
    case 0x54 => case 0x55 => case 0x56 => case 0x57 =>
    case 0x58 => case 0x59 => case 0x5a => case 0x5b =>
    case 0x5c => case 0x5d => case 0x5e => case 0x5f =>
    case _ => assert false;
  }

  lemma BackRow6(b: bv8)
    requires 0x60 <= b <= 0x6f
    ensures InvSub(Sub(b)) == b
  {
    match b
    case 0x60 => case 0x61 => case 0x62 => case 0x63 =>
    case 0x64 => case 0x65 => case 0x66 => case 0x67 =>
    case 0x68 => case 0x69 => case 0x6a => case 0x6b =>
    case 0x6c => case 0x6d => case 0x6e => case 0x6f =>
    case _ => assert false;
  }

  lemma BackRow7(b: bv8)
    requires 0x70 <= b <= 0x7f
    ensures InvSub(Sub(b)) == b
  {
    match b
    case 0x70 => case 0x71 => case 0x72 => case 0x73 =>
    case 0x74 => case 0x75 => case 0x76 => case 0x77 =>
    case 0x78 => case 0x79 => case 0x7a => case 0x7b =>
    case 0x7c => case 0x7d => case 0x7e => case 0x7f =>
    case _ => assert false;
  }

  lemma BackRow8(b: bv8)
    requires 0x80 <= b <= 0x8f
    ensures InvSub(Sub(b)) == b
  {
    match b
    case 0x80 => case 0x81 => case 0x82 => case 0x83 =>
    case 0x84 => case 0x85 => case 0x86 => case 0x87 =>
    case 0x88 => case 0x89 => case 0x8a => case 0x8b =>
    case 0x8c => case 0x8d => case 0x8e => case 0x8f =>
    case _ => assert false;
  }

  lemma BackRow9(b: bv8)
    requires 0x90 <= b <= 0x9f
    ensures InvSub(Sub(b)) == b
  {
    match b
    case 0x90 => case 0x91 => case 0x92 => case 0x93 =>
    case 0x94 => case 0x95 => case 0x96 => case 0x97 =>
    case 0x98 => case 0x99 => case 0x9a => case 0x9b =>
    case 0x9c => case 0x9d => case 0x9e => case 0x9f =>
    case _ => assert false;
  }

  lemma BackRowa(b: bv8)
    requires 0xa0 <= b <= 0xaf
    ensures InvSub(Sub(b)) == b
  {
    match b
    case 0xa0 => case 0xa1 => case 0xa2 => case 0xa3 =>
    case 0xa4 => case 0xa5 => case 0xa6 => case 0xa7 =>
    case 0xa8 => case 0xa9 => case 0xaa => case 0xab =>
    case 0xac => case 0xad => case 0xae => case 0xaf =>
    case _ => assert false;
  }

  lemma BackRowb(b: bv8)
    requires 0xb0 <= b <= 0xbf
    ensures InvSub(Sub(b)) == b
  {
    match b
    case 0xb0 => case 0xb1 => case 0xb2 => case 0xb3 =>
    case 0xb4 => case 0xb5 => case 0xb6 => case 0xb7 =>
    case 0xb8 => case 0xb9 => case 0xba => case 0xbb =>
    case 0xbc => case 0xbd => case 0xbe => case 0xbf =>
    case _ => assert false;
  }

  lemma BackRowc(b: bv8)
    requires 0xc0 <= b <= 0xcf
    ensures InvSub(Sub(b)) == b
  {
    match b
    case 0xc0 => case 0xc1 => case 0xc2 => case 0xc3 =>
    case 0xc4 => case 0xc5 => case 0xc6 => case 0xc7 =>
    case 0xc8 => case 0xc9 => case 0xca => case 0xcb =>
    case 0xcc => case 0xcd => case 0xce => case 0xcf =>
    case _ => assert false;
  }

  lemma BackRowd(b: bv8)
    requires 0xd0 <= b <= 0xdf
    ensures InvSub(Sub(b)) == b
  {
    match b
    case 0xd0 => case 0xd1 => case 0xd2 => case 0xd3 =>
    case 0xd4 => case 0xd5 => case 0xd6 => case 0xd7 =>
    case 0xd8 => case 0xd9 => case 0xda => case 0xdb =>
    case 0xdc => case 0xdd => case 0xde => case 0xdf =>
    case _ => assert false;
  }

  lemma BackRowe(b: bv8)
    requires 0xe0 <= b <= 0xef
    ensures InvSub(Sub(b)) == b
  {
    match b
    case 0xe0 => case 0xe1 => case 0xe2 => case 0xe3 =>
    case 0xe4 => case 0xe5 => case 0xe6 => case 0xe7 =>
    case 0xe8 => case 0xe9 => case 0xea => case 0xeb =>
    case 0xec => case 0xed => case 0xee => case 0xef =>
    case _ => assert false;
  }

  lemma BackRowf(b: bv8)
    requires 0xf0 <= b <= 0xff
    ensures InvSub(Sub(b)) == b
  {
    match b
    case 0xf0 => case 0xf1 => case 0xf2 => case 0xf3 =>
    case 0xf4 => case 0xf5 => case 0xf6 => case 0xf7 =>
    case 0xf8 => case 0xf9 => case 0xfa => case 0xfb =>
    case 0xfc => case 0xfd => case 0xfe => case 0xff =>
    case _ => assert false;
  }

  /** The two tables are inverse to each other. */
  lemma SubInverse(b: bv8)
    ensures InvSub(Sub(b)) == b
  {
    hide Sub; hide InvSub;
    if b < 0x80 {
      if b < 0x40 {
        if b < 0x20 {
          if b < 0x10 {
            BackRow0(b);
          } else {
            BackRow1(b);
          }
        } else {
          if b < 0x30 {
            BackRow2(b);
          } else {
            BackRow3(b);
          }
        }
      } else {
        if b < 0x60 {
          if b < 0x50 {
            BackRow4(b);
          } else {
            BackRow5(b);
          }
        } else {
          if b < 0x70 {
            BackRow6(b);
          } else {
            BackRow7(b);
          }
        }
      }
    } else {
      if b < 0xc0 {
        if b < 0xa0 {
          if b < 0x90 {
            BackRow8(b);
          } else {
            BackRow9(b);
          }
        } else {
          if b < 0xb0 {
            BackRowa(b);
          } else {
            BackRowb(b);
          }
        }
      } else {
        if b < 0xe0 {
          if b < 0xd0 {
            BackRowc(b);
          } else {
            BackRowd(b);
          }
        } else {
          if b < 0xf0 {
            BackRowe(b);
          } else {
            BackRowf(b);
          }
        }
      }
    }
  }

  lemma MeaningRow0(b: bv8)
    requires 0x00 <= b <= 0x0f
    ensures AreInverse(b, Unaffine(Sub(b)))
  {
    hide InvSub;
    match b
    case 0x00 => case 0x01 => case 0x02 => case 0x03 =>
    case 0x04 => case 0x05 => case 0x06 => case 0x07 =>
    case 0x08 => case 0x09 => case 0x0a => case 0x0b =>
    case 0x0c => case 0x0d => case 0x0e => case 0x0f =>
    case _ => assert false;
  }

  lemma MeaningRow1(b: bv8)
    requires 0x10 <= b <= 0x1f
    ensures AreInverse(b, Unaffine(Sub(b)))
  {
    hide InvSub;
    match b
    case 0x10 => case 0x11 => case 0x12 => case 0x13 =>
    case 0x14 => case 0x15 => case 0x16 => case 0x17 =>
    case 0x18 => case 0x19 => case 0x1a => case 0x1b =>
    case 0x1c => case 0x1d => case 0x1e => case 0x1f =>
    case _ => assert false;
  }

  lemma MeaningRow2(b: bv8)
    requires 0x20 <= b <= 0x2f
    ensures AreInverse(b, Unaffine(Sub(b)))
  {
    hide InvSub;
    match b
    case 0x20 => case 0x21 => case 0x22 => case 0x23 =>
    case 0x24 => case 0x25 => case 0x26 => case 0x27 =>
    case 0x28 => case 0x29 => case 0x2a => case 0x2b =>
    case 0x2c => case 0x2d => case 0x2e => case 0x2f =>
    case _ => assert false;
  }

  lemma MeaningRow3(b: bv8)
    requires 0x30 <= b <= 0x3f
    ensures AreInverse(b, Unaffine(Sub(b)))
  {
    hide InvSub;
    match b
    case 0x30 => case 0x31 => case 0x32 => case 0x33 =>
    case 0x34 => case 0x35 => case 0x36 => case 0x37 =>
    case 0x38 => case 0x39 => case 0x3a => case 0x3b =>
    case 0x3c => case 0x3d => case 0x3e => case 0x3f =>
    case _ => assert false;
  }

  lemma MeaningRow4(b: bv8)
    requires 0x40 <= b <= 0x4f
    ensures AreInverse(b, Unaffine(Sub(b)))
  {
    hide InvSub;
    match b
    case 0x40 => case 0x41 => case 0x42 => case 0x43 =>
    case 0x44 => case 0x45 => case 0x46 => case 0x47 =>
    case 0x48 => case 0x49 => case 0x4a => case 0x4b =>
    case 0x4c => case 0x4d => case 0x4e => case 0x4f =>
    case _ => assert false;
  }

  lemma MeaningRow5(b: bv8)
    requires 0x50 <= b <= 0x5f
    ensures AreInverse(b, Unaffine(Sub(b)))
  {
    hide InvSub;
    match b
    case 0x50 => case 0x51 => case 0x52 => case 0x53 =>
    case 0x54 => case 0x55 => case 0x56 => case 0x57 =>
    case 0x58 => case 0x59 => case 0x5a => case 0x5b =>
    case 0x5c => case 0x5d => case 0x5e => case 0x5f =>
    case _ => assert false;
  }

  lemma MeaningRow6(b: bv8)
    requires 0x60 <= b <= 0x6f
    ensures AreInverse(b, Unaffine(Sub(b)))
  {
    hide InvSub;
    match b
    case 0x60 => case 0x61 => case 0x62 => case 0x63 =>
    case 0x64 => case 0x65 => case 0x66 => case 0x67 =>
    case 0x68 => case 0x69 => case 0x6a => case 0x6b =>
    case 0x6c => case 0x6d => case 0x6e => case 0x6f =>
    case _ => assert false;
  }

  lemma MeaningRow7(b: bv8)
    requires 0x70 <= b <= 0x7f
    ensures AreInverse(b, Unaffine(Sub(b)))
  {
    hide InvSub;
    match b
    case 0x70 => case 0x71 => case 0x72 => case 0x73 =>
    case 0x74 => case 0x75 => case 0x76 => case 0x77 =>
    case 0x78 => case 0x79 => case 0x7a => case 0x7b =>
    case 0x7c => case 0x7d => case 0x7e => case 0x7f =>
    case _ => assert false;
  }

  lemma MeaningRow8(b: bv8)
    requires 0x80 <= b <= 0x8f
    ensures AreInverse(b, Unaffine(Sub(b)))
  {
    hide InvSub;
    match b
    case 0x80 => case 0x81 => case 0x82 => case 0x83 =>
    case 0x84 => case 0x85 => case 0x86 => case 0x87 =>
    case 0x88 => case 0x89 => case 0x8a => case 0x8b =>
    case 0x8c => case 0x8d => case 0x8e => case 0x8f =>
    case _ => assert false;
  }

  lemma MeaningRow9(b: bv8)
    requires 0x90 <= b <= 0x9f
    ensures AreInverse(b, Unaffine(Sub(b)))
  {
    hide InvSub;
    match b
    case 0x90 => case 0x91 => case 0x92 => case 0x93 =>
    case 0x94 => case 0x95 => case 0x96 => case 0x97 =>
    case 0x98 => case 0x99 => case 0x9a => case 0x9b =>
    case 0x9c => case 0x9d => case 0x9e => case 0x9f =>
    case _ => assert false;
  }

  lemma MeaningRowa(b: bv8)
    requires 0xa0 <= b <= 0xaf
    ensures AreInverse(b, Unaffine(Sub(b)))
  {
    hide InvSub;
    match b
    case 0xa0 => case 0xa1 => case 0xa2 => case 0xa3 =>
    case 0xa4 => case 0xa5 => case 0xa6 => case 0xa7 =>
    case 0xa8 => case 0xa9 => case 0xaa => case 0xab =>
    case 0xac => case 0xad => case 0xae => case 0xaf =>
    case _ => assert false;
  }

  lemma MeaningRowb(b: bv8)
    requires 0xb0 <= b <= 0xbf
    ensures AreInverse(b, Unaffine(Sub(b)))
  {
    hide InvSub;
    match b
    case 0xb0 => case 0xb1 => case 0xb2 => case 0xb3 =>
    case 0xb4 => case 0xb5 => case 0xb6 => case 0xb7 =>
    case 0xb8 => case 0xb9 => case 0xba => case 0xbb =>
    case 0xbc => case 0xbd => case 0xbe => case 0xbf =>
    case _ => assert false;
  }

  lemma MeaningRowc(b: bv8)
    requires 0xc0 <= b <= 0xcf
    ensures AreInverse(b, Unaffine(Sub(b)))
  {
    hide InvSub;
    match b
    case 0xc0 => case 0xc1 => case 0xc2 => case 0xc3 =>
    case 0xc4 => case 0xc5 => case 0xc6 => case 0xc7 =>
    case 0xc8 => case 0xc9 => case 0xca => case 0xcb =>
    case 0xcc => case 0xcd => case 0xce => case 0xcf =>
    case _ => assert false;
  }

  lemma MeaningRowd(b: bv8)
    requires 0xd0 <= b <= 0xdf
    ensures AreInverse(b, Unaffine(Sub(b)))
  {
    hide InvSub;
    match b
    case 0xd0 => case 0xd1 => case 0xd2 => case 0xd3 =>
    case 0xd4 => case 0xd5 => case 0xd6 => case 0xd7 =>
    case 0xd8 => case 0xd9 => case 0xda => case 0xdb =>
    case 0xdc => case 0xdd => case 0xde => case 0xdf =>
    case _ => assert false;
  }

  lemma MeaningRowe(b: bv8)
    requires 0xe0 <= b <= 0xef
    ensures AreInverse(b, Unaffine(Sub(b)))
  {
    hide InvSub;
    match b
    case 0xe0 => case 0xe1 => case 0xe2 => case 0xe3 =>
    case 0xe4 => case 0xe5 => case 0xe6 => case 0xe7 =>
    case 0xe8 => case 0xe9 => case 0xea => case 0xeb =>
    case 0xec => case 0xed => case 0xee => case 0xef =>
    case _ => assert false;
  }

  lemma MeaningRowf(b: bv8)
    requires 0xf0 <= b <= 0xff
    ensures AreInverse(b, Unaffine(Sub(b)))
  {
    hide InvSub;
    match b
    case 0xf0 => case 0xf1 => case 0xf2 => case 0xf3 =>
    case 0xf4 => case 0xf5 => case 0xf6 => case 0xf7 =>
    case 0xf8 => case 0xf9 => case 0xfa => case 0xfb =>
    case 0xfc => case 0xfd => case 0xfe => case 0xff =>
    case _ => assert false;
  }

  lemma FieldInverse(b: bv8)
    ensures AreInverse(b, Unaffine(Sub(b)))
  {
    hide AreInverse; hide Sub; hide Unaffine;
    if b < 0x80 {
      if b < 0x40 {
        if b < 0x20 {
          if b < 0x10 {
            MeaningRow0(b);
          } else {
            MeaningRow1(b);
          }
        } else {
          if b < 0x30 {
            MeaningRow2(b);
          } else {
            MeaningRow3(b);
          }
        }
      } else {
        if b < 0x60 {
          if b < 0x50 {
            MeaningRow4(b);
          } else {
            MeaningRow5(b);
          }
        } else {
          if b < 0x70 {
            MeaningRow6(b);
          } else {
            MeaningRow7(b);
          }
        }
      }
    } else {
      if b < 0xc0 {
        if b < 0xa0 {
          if b < 0x90 {
            MeaningRow8(b);
          } else {
            MeaningRow9(b);
          }
        } else {
          if b < 0xb0 {
            MeaningRowa(b);
          } else {
            MeaningRowb(b);
          }
        }
      } else {
        if b < 0xe0 {
          if b < 0xd0 {
            MeaningRowc(b);
          } else {
            MeaningRowd(b);
          }
        } else {
          if b < 0xf0 {
            MeaningRowe(b);
          } else {
            MeaningRowf(b);
          }
        }
      }
    }
  }

  /** The table is the S-box of the standard. */
  lemma SBoxMeaning(b: bv8)
    ensures exists inverse :: AreInverse(b, inverse) && Sub(b) == Affine(inverse)
  {
    hide AreInverse; hide Sub; hide Affine; hide Unaffine;
    AffineBack(Sub(b));
    FieldInverse(b);
  }
}
