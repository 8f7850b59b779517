/** The bytes of AES: the S-box, and the field GF(2^8) as far as MixColumns needs it. */
module AesField {
  // ---------------------------------------------------------------------------
  // The S-box and its inverse, sixteen entries a row

  function InvRow0(b: bv8): bv8
    requires 0x00 <= b <= 0x0f
  {
    match b
    case 0x00 => 0x52 case 0x01 => 0x09 case 0x02 => 0x6a case 0x03 => 0xd5
    case 0x04 => 0x30 case 0x05 => 0x36 case 0x06 => 0xa5 case 0x07 => 0x38
    case 0x08 => 0xbf case 0x09 => 0x40 case 0x0a => 0xa3 case 0x0b => 0x9e
    case 0x0c => 0x81 case 0x0d => 0xf3 case 0x0e => 0xd7 case _ => 0xfb
  }

  function InvRow1(b: bv8): bv8
    requires 0x10 <= b <= 0x1f
  {
    match b
    case 0x10 => 0x7c case 0x11 => 0xe3 case 0x12 => 0x39 case 0x13 => 0x82
    case 0x14 => 0x9b case 0x15 => 0x2f case 0x16 => 0xff case 0x17 => 0x87
    case 0x18 => 0x34 case 0x19 => 0x8e case 0x1a => 0x43 case 0x1b => 0x44
    case 0x1c => 0xc4 case 0x1d => 0xde case 0x1e => 0xe9 case _ => 0xcb
  }

  function InvRow2(b: bv8): bv8
    requires 0x20 <= b <= 0x2f
  {
    match b
    case 0x20 => 0x54 case 0x21 => 0x7b case 0x22 => 0x94 case 0x23 => 0x32
    case 0x24 => 0xa6 case 0x25 => 0xc2 case 0x26 => 0x23 case 0x27 => 0x3d
    case 0x28 => 0xee case 0x29 => 0x4c case 0x2a => 0x95 case 0x2b => 0x0b
    case 0x2c => 0x42 case 0x2d => 0xfa case 0x2e => 0xc3 case _ => 0x4e
  }

  function InvRow3(b: bv8): bv8
    requires 0x30 <= b <= 0x3f
  {
    match b
    case 0x30 => 0x08 case 0x31 => 0x2e case 0x32 => 0xa1 case 0x33 => 0x66
    case 0x34 => 0x28 case 0x35 => 0xd9 case 0x36 => 0x24 case 0x37 => 0xb2
    case 0x38 => 0x76 case 0x39 => 0x5b case 0x3a => 0xa2 case 0x3b => 0x49
    case 0x3c => 0x6d case 0x3d => 0x8b case 0x3e => 0xd1 case _ => 0x25
  }

  function InvRow4(b: bv8): bv8
    requires 0x40 <= b <= 0x4f
  {
    match b
    case 0x40 => 0x72 case 0x41 => 0xf8 case 0x42 => 0xf6 case 0x43 => 0x64
    case 0x44 => 0x86 case 0x45 => 0x68 case 0x46 => 0x98 case 0x47 => 0x16
    case 0x48 => 0xd4 case 0x49 => 0xa4 case 0x4a => 0x5c case 0x4b => 0xcc
    case 0x4c => 0x5d case 0x4d => 0x65 case 0x4e => 0xb6 case _ => 0x92
  }

  function InvRow5(b: bv8): bv8
    requires 0x50 <= b <= 0x5f
  {
    match b
    case 0x50 => 0x6c case 0x51 => 0x70 case 0x52 => 0x48 case 0x53 => 0x50
    case 0x54 => 0xfd case 0x55 => 0xed case 0x56 => 0xb9 case 0x57 => 0xda
    case 0x58 => 0x5e case 0x59 => 0x15 case 0x5a => 0x46 case 0x5b => 0x57
    case 0x5c => 0xa7 case 0x5d => 0x8d case 0x5e => 0x9d case _ => 0x84
  }

  function InvRow6(b: bv8): bv8
    requires 0x60 <= b <= 0x6f
  {
    match b
    case 0x60 => 0x90 case 0x61 => 0xd8 case 0x62 => 0xab case 0x63 => 0x00
    case 0x64 => 0x8c case 0x65 => 0xbc case 0x66 => 0xd3 case 0x67 => 0x0a
    case 0x68 => 0xf7 case 0x69 => 0xe4 case 0x6a => 0x58 case 0x6b => 0x05
    case 0x6c => 0xb8 case 0x6d => 0xb3 case 0x6e => 0x45 case _ => 0x06
  }

  function InvRow7(b: bv8): bv8
    requires 0x70 <= b <= 0x7f
  {
    match b
    case 0x70 => 0xd0 case 0x71 => 0x2c case 0x72 => 0x1e case 0x73 => 0x8f
    case 0x74 => 0xca case 0x75 => 0x3f case 0x76 => 0x0f case 0x77 => 0x02
    case 0x78 => 0xc1 case 0x79 => 0xaf case 0x7a => 0xbd case 0x7b => 0x03
    case 0x7c => 0x01 case 0x7d => 0x13 case 0x7e => 0x8a case _ => 0x6b
  }

  function InvRow8(b: bv8): bv8
    requires 0x80 <= b <= 0x8f
  {
    match b
    case 0x80 => 0x3a case 0x81 => 0x91 case 0x82 => 0x11 case 0x83 => 0x41
    case 0x84 => 0x4f case 0x85 => 0x67 case 0x86 => 0xdc case 0x87 => 0xea
    case 0x88 => 0x97 case 0x89 => 0xf2 case 0x8a => 0xcf case 0x8b => 0xce
    case 0x8c => 0xf0 case 0x8d => 0xb4 case 0x8e => 0xe6 case _ => 0x73
  }

  function InvRow9(b: bv8): bv8
    requires 0x90 <= b <= 0x9f
  {
    match b
    case 0x90 => 0x96 case 0x91 => 0xac case 0x92 => 0x74 case 0x93 => 0x22
    case 0x94 => 0xe7 case 0x95 => 0xad case 0x96 => 0x35 case 0x97 => 0x85
    case 0x98 => 0xe2 case 0x99 => 0xf9 case 0x9a => 0x37 case 0x9b => 0xe8
    case 0x9c => 0x1c case 0x9d => 0x75 case 0x9e => 0xdf case _ => 0x6e
  }

  function InvRowa(b: bv8): bv8
    requires 0xa0 <= b <= 0xaf
  {
    match b
    case 0xa0 => 0x47 case 0xa1 => 0xf1 case 0xa2 => 0x1a case 0xa3 => 0x71
    case 0xa4 => 0x1d case 0xa5 => 0x29 case 0xa6 => 0xc5 case 0xa7 => 0x89
    case 0xa8 => 0x6f case 0xa9 => 0xb7 case 0xaa => 0x62 case 0xab => 0x0e
    case 0xac => 0xaa case 0xad => 0x18 case 0xae => 0xbe case _ => 0x1b
  }

  function InvRowb(b: bv8): bv8
    requires 0xb0 <= b <= 0xbf
  {
    match b
    case 0xb0 => 0xfc case 0xb1 => 0x56 case 0xb2 => 0x3e case 0xb3 => 0x4b
    case 0xb4 => 0xc6 case 0xb5 => 0xd2 case 0xb6 => 0x79 case 0xb7 => 0x20
    case 0xb8 => 0x9a case 0xb9 => 0xdb case 0xba => 0xc0 case 0xbb => 0xfe
    case 0xbc => 0x78 case 0xbd => 0xcd case 0xbe => 0x5a case _ => 0xf4
  }

  function InvRowc(b: bv8): bv8
    requires 0xc0 <= b <= 0xcf
  {
    match b
    case 0xc0 => 0x1f case 0xc1 => 0xdd case 0xc2 => 0xa8 case 0xc3 => 0x33
    case 0xc4 => 0x88 case 0xc5 => 0x07 case 0xc6 => 0xc7 case 0xc7 => 0x31
    case 0xc8 => 0xb1 case 0xc9 => 0x12 case 0xca => 0x10 case 0xcb => 0x59
    case 0xcc => 0x27 case 0xcd => 0x80 case 0xce => 0xec case _ => 0x5f
  }

  function InvRowd(b: bv8): bv8
    requires 0xd0 <= b <= 0xdf
  {
    match b
    case 0xd0 => 0x60 case 0xd1 => 0x51 case 0xd2 => 0x7f case 0xd3 => 0xa9
    case 0xd4 => 0x19 case 0xd5 => 0xb5 case 0xd6 => 0x4a case 0xd7 => 0x0d
    case 0xd8 => 0x2d case 0xd9 => 0xe5 case 0xda => 0x7a case 0xdb => 0x9f
    case 0xdc => 0x93 case 0xdd => 0xc9 case 0xde => 0x9c case _ => 0xef
  }

  function InvRowe(b: bv8): bv8
    requires 0xe0 <= b <= 0xef
  {
    match b
    case 0xe0 => 0xa0 case 0xe1 => 0xe0 case 0xe2 => 0x3b case 0xe3 => 0x4d
    case 0xe4 => 0xae case 0xe5 => 0x2a case 0xe6 => 0xf5 case 0xe7 => 0xb0
    case 0xe8 => 0xc8 case 0xe9 => 0xeb case 0xea => 0xbb case 0xeb => 0x3c
    case 0xec => 0x83 case 0xed => 0x53 case 0xee => 0x99 case _ => 0x61
  }

  function InvRowf(b: bv8): bv8
    requires 0xf0 <= b <= 0xff
  {
    match b
    case 0xf0 => 0x17 case 0xf1 => 0x2b case 0xf2 => 0x04 case 0xf3 => 0x7e
    case 0xf4 => 0xba case 0xf5 => 0x77 case 0xf6 => 0xd6 case 0xf7 => 0x26
    case 0xf8 => 0xe1 case 0xf9 => 0x69 case 0xfa => 0x14 case 0xfb => 0x63
    case 0xfc => 0x55 case 0xfd => 0x21 case 0xfe => 0x0c case _ => 0x7d
  }

  /** getSBoxInvert */
  function InvSub(b: bv8): bv8 {
    if b < 0x10 then InvRow0(b)
    else if b < 0x20 then InvRow1(b)
    else if b < 0x30 then InvRow2(b)
    else if b < 0x40 then InvRow3(b)
    else if b < 0x50 then InvRow4(b)
    else if b < 0x60 then InvRow5(b)
    else if b < 0x70 then InvRow6(b)
    else if b < 0x80 then InvRow7(b)
    else if b < 0x90 then InvRow8(b)
    else if b < 0xa0 then InvRow9(b)
    else if b < 0xb0 then InvRowa(b)
    else if b < 0xc0 then InvRowb(b)
    else if b < 0xd0 then InvRowc(b)
    else if b < 0xe0 then InvRowd(b)
    else if b < 0xf0 then InvRowe(b)
    else InvRowf(b)
  }

  function Row0(b: bv8): bv8
    requires 0x00 <= b <= 0x0f
  {
    match b
    case 0x00 => 0x63 case 0x01 => 0x7c case 0x02 => 0x77 case 0x03 => 0x7b
    case 0x04 => 0xf2 case 0x05 => 0x6b case 0x06 => 0x6f case 0x07 => 0xc5
    case 0x08 => 0x30 case 0x09 => 0x01 case 0x0a => 0x67 case 0x0b => 0x2b
    case 0x0c => 0xfe case 0x0d => 0xd7 case 0x0e => 0xab case _ => 0x76
  }

  function Row1(b: bv8): bv8
    requires 0x10 <= b <= 0x1f
  {
    match b
    case 0x10 => 0xca case 0x11 => 0x82 case 0x12 => 0xc9 case 0x13 => 0x7d
    case 0x14 => 0xfa case 0x15 => 0x59 case 0x16 => 0x47 case 0x17 => 0xf0
    case 0x18 => 0xad case 0x19 => 0xd4 case 0x1a => 0xa2 case 0x1b => 0xaf
    case 0x1c => 0x9c case 0x1d => 0xa4 case 0x1e => 0x72 case _ => 0xc0
  }

  function Row2(b: bv8): bv8
    requires 0x20 <= b <= 0x2f
  {
    match b
    case 0x20 => 0xb7 case 0x21 => 0xfd case 0x22 => 0x93 case 0x23 => 0x26
    case 0x24 => 0x36 case 0x25 => 0x3f case 0x26 => 0xf7 case 0x27 => 0xcc
    case 0x28 => 0x34 case 0x29 => 0xa5 case 0x2a => 0xe5 case 0x2b => 0xf1
    case 0x2c => 0x71 case 0x2d => 0xd8 case 0x2e => 0x31 case _ => 0x15
  }

  function Row3(b: bv8): bv8
    requires 0x30 <= b <= 0x3f
  {
    match b
    case 0x30 => 0x04 case 0x31 => 0xc7 case 0x32 => 0x23 case 0x33 => 0xc3
    case 0x34 => 0x18 case 0x35 => 0x96 case 0x36 => 0x05 case 0x37 => 0x9a
    case 0x38 => 0x07 case 0x39 => 0x12 case 0x3a => 0x80 case 0x3b => 0xe2
    case 0x3c => 0xeb case 0x3d => 0x27 case 0x3e => 0xb2 case _ => 0x75
  }

  function Row4(b: bv8): bv8
    requires 0x40 <= b <= 0x4f
  {
    match b
    case 0x40 => 0x09 case 0x41 => 0x83 case 0x42 => 0x2c case 0x43 => 0x1a
    case 0x44 => 0x1b case 0x45 => 0x6e case 0x46 => 0x5a case 0x47 => 0xa0
    case 0x48 => 0x52 case 0x49 => 0x3b case 0x4a => 0xd6 case 0x4b => 0xb3
    case 0x4c => 0x29 case 0x4d => 0xe3 case 0x4e => 0x2f case _ => 0x84
  }

  function Row5(b: bv8): bv8
    requires 0x50 <= b <= 0x5f
  {
    match b
    case 0x50 => 0x53 case 0x51 => 0xd1 case 0x52 => 0x00 case 0x53 => 0xed
    case 0x54 => 0x20 case 0x55 => 0xfc case 0x56 => 0xb1 case 0x57 => 0x5b
    case 0x58 => 0x6a case 0x59 => 0xcb case 0x5a => 0xbe case 0x5b => 0x39
    case 0x5c => 0x4a case 0x5d => 0x4c case 0x5e => 0x58 case _ => 0xcf
  }

  function Row6(b: bv8): bv8
    requires 0x60 <= b <= 0x6f
  {
    match b
    case 0x60 => 0xd0 case 0x61 => 0xef case 0x62 => 0xaa case 0x63 => 0xfb
    case 0x64 => 0x43 case 0x65 => 0x4d case 0x66 => 0x33 case 0x67 => 0x85
    case 0x68 => 0x45 case 0x69 => 0xf9 case 0x6a => 0x02 case 0x6b => 0x7f
    case 0x6c => 0x50 case 0x6d => 0x3c case 0x6e => 0x9f case _ => 0xa8
  }

  function Row7(b: bv8): bv8
    requires 0x70 <= b <= 0x7f
  {
    match b
    case 0x70 => 0x51 case 0x71 => 0xa3 case 0x72 => 0x40 case 0x73 => 0x8f
    case 0x74 => 0x92 case 0x75 => 0x9d case 0x76 => 0x38 case 0x77 => 0xf5
    case 0x78 => 0xbc case 0x79 => 0xb6 case 0x7a => 0xda case 0x7b => 0x21
    case 0x7c => 0x10 case 0x7d => 0xff case 0x7e => 0xf3 case _ => 0xd2
  }

  function Row8(b: bv8): bv8
    requires 0x80 <= b <= 0x8f
  {
    match b
    case 0x80 => 0xcd case 0x81 => 0x0c case 0x82 => 0x13 case 0x83 => 0xec
    case 0x84 => 0x5f case 0x85 => 0x97 case 0x86 => 0x44 case 0x87 => 0x17
    case 0x88 => 0xc4 case 0x89 => 0xa7 case 0x8a => 0x7e case 0x8b => 0x3d
    case 0x8c => 0x64 case 0x8d => 0x5d case 0x8e => 0x19 case _ => 0x73
  }

  function Row9(b: bv8): bv8
    requires 0x90 <= b <= 0x9f
  {
    match b
    case 0x90 => 0x60 case 0x91 => 0x81 case 0x92 => 0x4f case 0x93 => 0xdc
    case 0x94 => 0x22 case 0x95 => 0x2a case 0x96 => 0x90 case 0x97 => 0x88
    case 0x98 => 0x46 case 0x99 => 0xee case 0x9a => 0xb8 case 0x9b => 0x14
    case 0x9c => 0xde case 0x9d => 0x5e case 0x9e => 0x0b case _ => 0xdb
  }

  function Rowa(b: bv8): bv8
    requires 0xa0 <= b <= 0xaf
  {
    match b
    case 0xa0 => 0xe0 case 0xa1 => 0x32 case 0xa2 => 0x3a case 0xa3 => 0x0a
    case 0xa4 => 0x49 case 0xa5 => 0x06 case 0xa6 => 0x24 case 0xa7 => 0x5c
    case 0xa8 => 0xc2 case 0xa9 => 0xd3 case 0xaa => 0xac case 0xab => 0x62
    case 0xac => 0x91 case 0xad => 0x95 case 0xae => 0xe4 case _ => 0x79
  }

  function Rowb(b: bv8): bv8
    requires 0xb0 <= b <= 0xbf
  {
    match b
    case 0xb0 => 0xe7 case 0xb1 => 0xc8 case 0xb2 => 0x37 case 0xb3 => 0x6d
    case 0xb4 => 0x8d case 0xb5 => 0xd5 case 0xb6 => 0x4e case 0xb7 => 0xa9
    case 0xb8 => 0x6c case 0xb9 => 0x56 case 0xba => 0xf4 case 0xbb => 0xea
    case 0xbc => 0x65 case 0xbd => 0x7a case 0xbe => 0xae case _ => 0x08
  }

  function Rowc(b: bv8): bv8
    requires 0xc0 <= b <= 0xcf
  {
    match b
    case 0xc0 => 0xba case 0xc1 => 0x78 case 0xc2 => 0x25 case 0xc3 => 0x2e
    case 0xc4 => 0x1c case 0xc5 => 0xa6 case 0xc6 => 0xb4 case 0xc7 => 0xc6
    case 0xc8 => 0xe8 case 0xc9 => 0xdd case 0xca => 0x74 case 0xcb => 0x1f
    case 0xcc => 0x4b case 0xcd => 0xbd case 0xce => 0x8b case _ => 0x8a
  }

  function Rowd(b: bv8): bv8
    requires 0xd0 <= b <= 0xdf
  {
    match b
    case 0xd0 => 0x70 case 0xd1 => 0x3e case 0xd2 => 0xb5 case 0xd3 => 0x66
    case 0xd4 => 0x48 case 0xd5 => 0x03 case 0xd6 => 0xf6 case 0xd7 => 0x0e
    case 0xd8 => 0x61 case 0xd9 => 0x35 case 0xda => 0x57 case 0xdb => 0xb9
    case 0xdc => 0x86 case 0xdd => 0xc1 case 0xde => 0x1d case _ => 0x9e
  }

  function Rowe(b: bv8): bv8
    requires 0xe0 <= b <= 0xef
  {
    match b
    case 0xe0 => 0xe1 case 0xe1 => 0xf8 case 0xe2 => 0x98 case 0xe3 => 0x11
    case 0xe4 => 0x69 case 0xe5 => 0xd9 case 0xe6 => 0x8e case 0xe7 => 0x94
    case 0xe8 => 0x9b case 0xe9 => 0x1e case 0xea => 0x87 case 0xeb => 0xe9
    case 0xec => 0xce case 0xed => 0x55 case 0xee => 0x28 case _ => 0xdf
  }

  function Rowf(b: bv8): bv8
    requires 0xf0 <= b <= 0xff
  {
    match b
    case 0xf0 => 0x8c case 0xf1 => 0xa1 case 0xf2 => 0x89 case 0xf3 => 0x0d
    case 0xf4 => 0xbf case 0xf5 => 0xe6 case 0xf6 => 0x42 case 0xf7 => 0x68
    case 0xf8 => 0x41 case 0xf9 => 0x99 case 0xfa => 0x2d case 0xfb => 0x0f
    case 0xfc => 0xb0 case 0xfd => 0x54 case 0xfe => 0xbb case _ => 0x16
  }

  /** getSBoxValue */
  function Sub(b: bv8): bv8
  {
    if b < 0x10 then Row0(b)
    else if b < 0x20 then Row1(b)
    else if b < 0x30 then Row2(b)
    else if b < 0x40 then Row3(b)
    else if b < 0x50 then Row4(b)
    else if b < 0x60 then Row5(b)
    else if b < 0x70 then Row6(b)
    else if b < 0x80 then Row7(b)
    else if b < 0x90 then Row8(b)
    else if b < 0xa0 then Row9(b)
    else if b < 0xb0 then Rowa(b)
    else if b < 0xc0 then Rowb(b)
    else if b < 0xd0 then Rowc(b)
    else if b < 0xe0 then Rowd(b)
    else if b < 0xf0 then Rowe(b)
    else Rowf(b)
  }

  // ---------------------------------------------------------------------------
  // The field GF(2^8), of which only doubling is needed

  function Xor(a: bv8, b: bv8): bv8 {
    a ^ b
  }

  function Xor4(a: bv8, b: bv8, c: bv8, d: bv8): bv8 {
    Xor(Xor(a, b), Xor(c, d))
  }

  function Shl(a: bv8): bv8 {
    a << 1
  }

  function TopBit(a: bv8): bool {
    a & 0x80 != 0
  }

  function Carry(top: bool): bv8 {
    if top then 0x1b else 0
  }

  /** xtime: multiplication by {02} (section 4.2.1 of FIPS 197). */
  function Double(x: bv8): bv8 {
    Xor(Shl(x), Carry(TopBit(x)))
  }

  lemma XorExchange(a: bv8, b: bv8, c: bv8, d: bv8)
    ensures Xor(Xor(a, b), Xor(c, d)) == Xor(Xor(a, c), Xor(b, d))
  {
    hide Xor;
    XorAssociative(a, b, Xor(c, d));
    XorAssociative(b, c, d);
    XorCommutes(b, c);
    XorAssociative(c, b, d);
    XorAssociative(a, c, Xor(b, d));
  }

  lemma XorAssociative(a: bv8, b: bv8, c: bv8)
    ensures Xor(Xor(a, b), c) == Xor(a, Xor(b, c))
  {
  }

  lemma XorCommutes(a: bv8, b: bv8)
    ensures Xor(a, b) == Xor(b, a)
  {
  }

  lemma XorTwice(a: bv8, b: bv8)
    ensures Xor(Xor(a, b), b) == a
  {
  }

  lemma ShlLinear(a: bv8, b: bv8)
    ensures Shl(Xor(a, b)) == Xor(Shl(a), Shl(b))
  {
  }

  lemma TopMasked(a: bv8, b: bv8)
    ensures Xor(a, b) & 0x80 == Xor(a & 0x80, b & 0x80)
    ensures a & 0x80 == if TopBit(a) then 0x80 else 0
  {
  }

  lemma TopBitLinear(a: bv8, b: bv8)
    ensures TopBit(Xor(a, b)) == (TopBit(a) != TopBit(b))
  {
    TopMasked(a, b);
    TopMasked(b, a);
  }

  lemma CarryLinear(a: bool, b: bool)
    ensures Carry(a != b) == Xor(Carry(a), Carry(b))
  {
  }

  lemma DoubleLinear(a: bv8, b: bv8)
    ensures Double(Xor(a, b)) == Xor(Double(a), Double(b))
  {
    CarryLinear(TopBit(a), TopBit(b));
    hide Xor; hide Shl; hide TopBit; hide Carry;
    ShlLinear(a, b);
    TopBitLinear(a, b);
    XorExchange(Shl(a), Carry(TopBit(a)), Shl(b), Carry(TopBit(b)));
  }

  // Identities between sums, bit by bit: a bit of a sum is a sum of bits.

  predicate IsMask(i: bv8) {
    i == 1 || i == 2 || i == 4 || i == 8 || i == 16 || i == 32 || i == 64 || i == 128
  }

  function Bit(x: bv8, i: bv8): bool {
    x & i != 0
  }

  lemma BitOfXor(a: bv8, b: bv8, i: bv8)
    requires IsMask(i)
    ensures Bit(Xor(a, b), i) == (Bit(a, i) != Bit(b, i))
  {
  }

  ghost predicate XorByBit(i: bv8) {
    forall a: bv8, b: bv8 :: Bit(Xor(a, b), i) == (Bit(a, i) != Bit(b, i))
  }

  lemma XorIsByBit(i: bv8)
    requires IsMask(i)
    ensures XorByBit(i)
  {
    hide Bit; hide Xor;
    forall a: bv8, b: bv8
      ensures Bit(Xor(a, b), i) == (Bit(a, i) != Bit(b, i))
    {
      BitOfXor(a, b, i);
    }
  }

  lemma SameBits(x: bv8, y: bv8)
    requires Bit(x, 1) == Bit(y, 1) && Bit(x, 2) == Bit(y, 2) && Bit(x, 4) == Bit(y, 4) && Bit(x, 8) == Bit(y, 8)
    requires Bit(x, 16) == Bit(y, 16) && Bit(x, 32) == Bit(y, 32) && Bit(x, 64) == Bit(y, 64) && Bit(x, 128) == Bit(y, 128)
    ensures x == y
  {
  }

  lemma EqualByBit(x: bv8, y: bv8)
    requires forall i | IsMask(i) :: Bit(x, i) == Bit(y, i)
    ensures x == y
  {
    assert IsMask(1) && IsMask(2) && IsMask(4) && IsMask(8) && IsMask(16) && IsMask(32) && IsMask(64) && IsMask(128);
    hide Bit; hide IsMask;
    SameBits(x, y);
  }

  /** {02} a + {03} b + c + d (section 5.1.3 of FIPS 197). */
  function MixByte(a: bv8, b: bv8, c: bv8, d: bv8): bv8 {
    Xor(Xor(Double(a), Triple(b)), Xor(c, d))
  }

  function Triple(x: bv8): bv8 {
    Xor(Double(x), x)
  }

  /** What MixColumns computes instead, with one doubling. */
  function MixByDifference(a: bv8, b: bv8, c: bv8, d: bv8): bv8 {
    Xor(a, Xor(Double(Xor(a, b)), Xor4(a, b, c, d)))
  }

  lemma MixTermsBit(a: bv8, b: bv8, c: bv8, d: bv8, a1: bv8, b1: bv8, i: bv8)
    requires XorByBit(i)
    ensures Bit(Xor(a, Xor(Xor(a1, b1), Xor4(a, b, c, d))), i) == Bit(Xor(Xor(a1, Xor(b1, b)), Xor(c, d)), i)
  {
    hide Bit; hide Xor;
  }

  lemma MixByteByDifference(a: bv8, b: bv8, c: bv8, d: bv8)
    ensures MixByDifference(a, b, c, d) == MixByte(a, b, c, d)
  {
    hide Xor; hide Xor4; hide Double; hide Bit; hide XorByBit; hide IsMask;
    DoubleLinear(a, b);
    forall i | IsMask(i)
      ensures Bit(MixByDifference(a, b, c, d), i) == Bit(MixByte(a, b, c, d), i)
    {
      XorIsByBit(i);
      MixTermsBit(a, b, c, d, Double(a), Double(b), i);
    }
    EqualByBit(MixByDifference(a, b, c, d), MixByte(a, b, c, d));
  }

  /** Multiples by {09}, {0b}, {0d} and {0e}, from x and its doubles. */
  function Times9(x: bv8, x3: bv8): bv8 {
    Xor(x, x3)
  }

  function TimesB(x: bv8, x1: bv8, x3: bv8): bv8 {
    Xor(Xor(x, x1), x3)
  }

  function TimesD(x: bv8, x2: bv8, x3: bv8): bv8 {
    Xor(Xor(x, x2), x3)
  }

  function TimesE(x1: bv8, x2: bv8, x3: bv8): bv8 {
    Xor(Xor(x1, x2), x3)
  }

  /** {0e} a + {0b} b + {0d} c + {09} d (section 5.3.3 of FIPS 197). */
  function InvMixByte(a: bv8, b: bv8, c: bv8, d: bv8): bv8 {
    var a1, b1, c1, d1 := Double(a), Double(b), Double(c), Double(d);
    var a2, b2, c2, d2 := Double(a1), Double(b1), Double(c1), Double(d1);
    Xor4(TimesE(a1, a2, Double(a2)), TimesB(b, b1, Double(b2)), TimesD(c, c2, Double(c2)), Times9(d, Double(d2)))
  }

  lemma TimesLinear(x: bv8, x1: bv8, x2: bv8, x3: bv8, y: bv8, y1: bv8, y2: bv8, y3: bv8)
    ensures Times9(Xor(x, y), Xor(x3, y3)) == Xor(Times9(x, x3), Times9(y, y3))
    ensures TimesB(Xor(x, y), Xor(x1, y1), Xor(x3, y3)) == Xor(TimesB(x, x1, x3), TimesB(y, y1, y3))
    ensures TimesD(Xor(x, y), Xor(x2, y2), Xor(x3, y3)) == Xor(TimesD(x, x2, x3), TimesD(y, y2, y3))
    ensures TimesE(Xor(x1, y1), Xor(x2, y2), Xor(x3, y3)) == Xor(TimesE(x1, x2, x3), TimesE(y1, y2, y3))
  {
    hide Xor;
    XorExchange(x, y, x3, y3);
    XorExchange(x, y, x1, y1);
    XorExchange(Xor(x, x1), Xor(y, y1), x3, y3);
    XorExchange(x, y, x2, y2);
    XorExchange(Xor(x, x2), Xor(y, y2), x3, y3);
    XorExchange(x1, y1, x2, y2);
    XorExchange(Xor(x1, x2), Xor(y1, y2), x3, y3);
  }

  lemma Xor4Linear(a: bv8, b: bv8, c: bv8, d: bv8, a': bv8, b': bv8, c': bv8, d': bv8)
    ensures Xor4(Xor(a, a'), Xor(b, b'), Xor(c, c'), Xor(d, d')) == Xor(Xor4(a, b, c, d), Xor4(a', b', c', d'))
  {
    hide Xor;
    XorExchange(a, a', b, b');
    XorExchange(c, c', d, d');
    XorExchange(Xor(a, b), Xor(a', b'), Xor(c, d), Xor(c', d'));
  }

  lemma DoublesLinear(x: bv8, y: bv8)
    ensures Double(Xor(x, y)) == Xor(Double(x), Double(y))
    ensures Double(Double(Xor(x, y))) == Xor(Double(Double(x)), Double(Double(y)))
    ensures Double(Double(Double(Xor(x, y)))) == Xor(Double(Double(Double(x))), Double(Double(Double(y))))
  {
    hide Xor; hide Double;
    DoubleLinear(x, y);
    DoubleLinear(Double(x), Double(y));
    DoubleLinear(Double(Double(x)), Double(Double(y)));
  }

  /** Linear in all four bytes at once. */
  lemma InvMixLinear(a: bv8, b: bv8, c: bv8, d: bv8, a': bv8, b': bv8, c': bv8, d': bv8)
    ensures InvMixByte(Xor(a, a'), Xor(b, b'), Xor(c, c'), Xor(d, d'))
         == Xor(InvMixByte(a, b, c, d), InvMixByte(a', b', c', d'))
  {
    hide Xor; hide Xor4; hide Double; hide TimesE; hide TimesB; hide TimesD; hide Times9;
    DoublesLinear(a, a');
    DoublesLinear(b, b');
    DoublesLinear(c, c');
    DoublesLinear(d, d');
    TimesLinear(a, Double(a), Double(Double(a)), Double(Double(Double(a))),
                a', Double(a'), Double(Double(a')), Double(Double(Double(a'))));
    TimesLinear(b, Double(b), Double(Double(b)), Double(Double(Double(b))),
                b', Double(b'), Double(Double(b')), Double(Double(Double(b'))));
    TimesLinear(c, Double(c), Double(Double(c)), Double(Double(Double(c))),
                c', Double(c'), Double(Double(c')), Double(Double(Double(c'))));
    TimesLinear(d, Double(d), Double(Double(d)), Double(Double(Double(d))),
                d', Double(d'), Double(Double(d')), Double(Double(Double(d'))));
    var e, f, g, h := TimesE(Double(a), Double(Double(a)), Double(Double(Double(a)))),
      TimesB(b, Double(b), Double(Double(Double(b)))), TimesD(c, Double(Double(c)), Double(Double(Double(c)))),
      Times9(d, Double(Double(Double(d))));
    var e', f', g', h' := TimesE(Double(a'), Double(Double(a')), Double(Double(Double(a')))),
      TimesB(b', Double(b'), Double(Double(Double(b')))), TimesD(c', Double(Double(c')), Double(Double(Double(c')))),
      Times9(d', Double(Double(Double(d'))));
    Xor4Linear(e, f, g, h, e', f', g', h');
  }

  /** The four ways in which one byte of a column comes back. */
  lemma OneByteBack(x: bv8)
    ensures InvMixByte(Double(x), x, x, Triple(x)) == x
    ensures InvMixByte(Triple(x), Double(x), x, x) == 0
    ensures InvMixByte(x, Triple(x), Double(x), x) == 0
    ensures InvMixByte(x, x, Triple(x), Double(x)) == 0
  {
    var x1 := Double(x);
    var x2 := Double(x1);
    var x3 := Double(x2);
    DoublesLinear(x1, x);
    OneByteTerms(x, x1, x2, x3, Double(x3));
    hide Xor; hide Xor4; hide Double; hide TimesE; hide TimesB; hide TimesD; hide Times9;
  }

  lemma OneByteBit0(x: bv8, x1: bv8, x2: bv8, x3: bv8, x4: bv8, i: bv8)
    requires XorByBit(i)
    ensures Bit(Xor4(TimesE(x2, x3, x4), TimesB(x, x1, x3), TimesD(x, x2, x3), Times9(Xor(x1, x), Xor(x4, x3))), i) == Bit(x, i)
  {
    hide Bit; hide Xor;
  }

  lemma OneByteBit1(x: bv8, x1: bv8, x2: bv8, x3: bv8, x4: bv8, i: bv8)
    requires XorByBit(i)
    ensures !Bit(Xor4(TimesE(Xor(x2, x1), Xor(x3, x2), Xor(x4, x3)), TimesB(x1, x2, x4), TimesD(x, x2, x3), Times9(x, x3)), i)
  {
    hide Bit; hide Xor;
  }

  lemma OneByteBit2(x: bv8, x1: bv8, x2: bv8, x3: bv8, x4: bv8, i: bv8)
    requires XorByBit(i)
    ensures !Bit(Xor4(TimesE(x1, x2, x3), TimesB(Xor(x1, x), Xor(x2, x1), Xor(x4, x3)), TimesD(x1, x3, x4), Times9(x, x3)), i)
  {
    hide Bit; hide Xor;
  }

  lemma OneByteBit3(x: bv8, x1: bv8, x2: bv8, x3: bv8, x4: bv8, i: bv8)
    requires XorByBit(i)
    ensures !Bit(Xor4(TimesE(x1, x2, x3), TimesB(x, x1, x3), TimesD(Xor(x1, x), Xor(x3, x2), Xor(x4, x3)), Times9(x1, x4)), i)
  {
    hide Bit; hide Xor;
  }

  lemma NoBits(i: bv8)
    ensures !Bit(0, i)
  {
  }

  lemma OneByteTerms(x: bv8, x1: bv8, x2: bv8, x3: bv8, x4: bv8)
    ensures Xor4(TimesE(x2, x3, x4), TimesB(x, x1, x3), TimesD(x, x2, x3), Times9(Xor(x1, x), Xor(x4, x3))) == x
    ensures Xor4(TimesE(Xor(x2, x1), Xor(x3, x2), Xor(x4, x3)), TimesB(x1, x2, x4), TimesD(x, x2, x3), Times9(x, x3)) == 0
    ensures Xor4(TimesE(x1, x2, x3), TimesB(Xor(x1, x), Xor(x2, x1), Xor(x4, x3)), TimesD(x1, x3, x4), Times9(x, x3)) == 0
    ensures Xor4(TimesE(x1, x2, x3), TimesB(x, x1, x3), TimesD(Xor(x1, x), Xor(x3, x2), Xor(x4, x3)), Times9(x1, x4)) == 0
  {
    hide Bit; hide Xor; hide Xor4; hide TimesE; hide TimesB; hide TimesD; hide Times9; hide IsMask; hide XorByBit;
    var p := Xor4(TimesE(x2, x3, x4), TimesB(x, x1, x3), TimesD(x, x2, x3), Times9(Xor(x1, x), Xor(x4, x3)));
    var q := Xor4(TimesE(Xor(x2, x1), Xor(x3, x2), Xor(x4, x3)), TimesB(x1, x2, x4), TimesD(x, x2, x3), Times9(x, x3));
    var r := Xor4(TimesE(x1, x2, x3), TimesB(Xor(x1, x), Xor(x2, x1), Xor(x4, x3)), TimesD(x1, x3, x4), Times9(x, x3));
    var s := Xor4(TimesE(x1, x2, x3), TimesB(x, x1, x3), TimesD(Xor(x1, x), Xor(x3, x2), Xor(x4, x3)), Times9(x1, x4));
    forall i | IsMask(i)
      ensures Bit(p, i) == Bit(x, i) && Bit(q, i) == Bit(0, i) && Bit(r, i) == Bit(0, i) && Bit(s, i) == Bit(0, i)
    {
      XorIsByBit(i);
      NoBits(i);
      OneByteBit0(x, x1, x2, x3, x4, i);
      OneByteBit1(x, x1, x2, x3, x4, i);
      OneByteBit2(x, x1, x2, x3, x4, i);
      OneByteBit3(x, x1, x2, x3, x4, i);
    }
    EqualByBit(p, x);
    EqualByBit(q, 0);
    EqualByBit(r, 0);
    EqualByBit(s, 0);
  }

  lemma MixByShare(a: bv8, b: bv8, c: bv8, d: bv8)
    ensures MixByte(a, b, c, d) == Xor(Xor(Double(a), Triple(b)), Xor(c, d))
    ensures MixByte(a, b, c, d) == Xor(Xor(d, Double(a)), Xor(Triple(b), c))
    ensures MixByte(a, b, c, d) == Xor(Xor(c, d), Xor(Double(a), Triple(b)))
    ensures MixByte(a, b, c, d) == Xor(Xor(Triple(b), c), Xor(d, Double(a)))
  {
    hide Double; hide Xor; hide Triple;
    var p, q := Double(a), Triple(b);
    XorCommutes(Xor(p, q), Xor(c, d));
    XorCommutes(p, q);
    XorExchange(q, p, c, d);
    XorCommutes(p, d);
    XorCommutes(Xor(q, c), Xor(d, p));
  }

  lemma NothingElse(a: bv8)
    ensures Xor(Xor(a, 0), Xor(0, 0)) == a
  {
  }

  /** Unmixing a mixed column: every byte but its own cancels. */
  lemma UnmixByte(a: bv8, b: bv8, c: bv8, d: bv8)
    ensures InvMixByte(MixByte(a, b, c, d), MixByte(b, c, d, a), MixByte(c, d, a, b), MixByte(d, a, b, c)) == a
  {
    hide Xor; hide Double; hide Triple; hide MixByte; hide InvMixByte;
    MixByShare(a, b, c, d);
    MixByShare(b, c, d, a);
    MixByShare(c, d, a, b);
    MixByShare(d, a, b, c);
    InvMixLinear(Xor(Double(a), Triple(b)), Xor(a, Double(b)), Xor(a, b), Xor(Triple(a), b),
                 Xor(c, d), Xor(Triple(c), d), Xor(Double(c), Triple(d)), Xor(c, Double(d)));
    InvMixLinear(Double(a), a, a, Triple(a), Triple(b), Double(b), b, b);
    InvMixLinear(c, Triple(c), Double(c), c, d, d, Triple(d), Double(d));
    OneByteBack(a);
    OneByteBack(b);
    OneByteBack(c);
    OneByteBack(d);
    NothingElse(a);
  }
}
