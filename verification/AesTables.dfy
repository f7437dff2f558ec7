// The tables of aes.c and the arithmetic of GF(2^8), sections 4 and 5.1.1 of FIPS 197.
module AesTables {
  // sbox[x]: the row by the high nibble, the entry by the low one
  function Sbox0(l: bv8): bv8 {
    if l == 0 then 0x63 else if l == 1 then 0x7c else if l == 2 then 0x77 else if l == 3 then 0x7b
    else if l == 4 then 0xf2 else if l == 5 then 0x6b else if l == 6 then 0x6f else if l == 7 then 0xc5
    else if l == 8 then 0x30 else if l == 9 then 0x01 else if l == 10 then 0x67 else if l == 11 then 0x2b
    else if l == 12 then 0xfe else if l == 13 then 0xd7 else if l == 14 then 0xab else 0x76
  }

  function Sbox1(l: bv8): bv8 {
    if l == 0 then 0xca else if l == 1 then 0x82 else if l == 2 then 0xc9 else if l == 3 then 0x7d
    else if l == 4 then 0xfa else if l == 5 then 0x59 else if l == 6 then 0x47 else if l == 7 then 0xf0
    else if l == 8 then 0xad else if l == 9 then 0xd4 else if l == 10 then 0xa2 else if l == 11 then 0xaf
    else if l == 12 then 0x9c else if l == 13 then 0xa4 else if l == 14 then 0x72 else 0xc0
  }

  function Sbox2(l: bv8): bv8 {
    if l == 0 then 0xb7 else if l == 1 then 0xfd else if l == 2 then 0x93 else if l == 3 then 0x26
    else if l == 4 then 0x36 else if l == 5 then 0x3f else if l == 6 then 0xf7 else if l == 7 then 0xcc
    else if l == 8 then 0x34 else if l == 9 then 0xa5 else if l == 10 then 0xe5 else if l == 11 then 0xf1
    else if l == 12 then 0x71 else if l == 13 then 0xd8 else if l == 14 then 0x31 else 0x15
  }

  function Sbox3(l: bv8): bv8 {
    if l == 0 then 0x04 else if l == 1 then 0xc7 else if l == 2 then 0x23 else if l == 3 then 0xc3
    else if l == 4 then 0x18 else if l == 5 then 0x96 else if l == 6 then 0x05 else if l == 7 then 0x9a
    else if l == 8 then 0x07 else if l == 9 then 0x12 else if l == 10 then 0x80 else if l == 11 then 0xe2
    else if l == 12 then 0xeb else if l == 13 then 0x27 else if l == 14 then 0xb2 else 0x75
  }

  function Sbox4(l: bv8): bv8 {
    if l == 0 then 0x09 else if l == 1 then 0x83 else if l == 2 then 0x2c else if l == 3 then 0x1a
    else if l == 4 then 0x1b else if l == 5 then 0x6e else if l == 6 then 0x5a else if l == 7 then 0xa0
    else if l == 8 then 0x52 else if l == 9 then 0x3b else if l == 10 then 0xd6 else if l == 11 then 0xb3
    else if l == 12 then 0x29 else if l == 13 then 0xe3 else if l == 14 then 0x2f else 0x84
  }

  function Sbox5(l: bv8): bv8 {
    if l == 0 then 0x53 else if l == 1 then 0xd1 else if l == 2 then 0x00 else if l == 3 then 0xed
    else if l == 4 then 0x20 else if l == 5 then 0xfc else if l == 6 then 0xb1 else if l == 7 then 0x5b
    else if l == 8 then 0x6a else if l == 9 then 0xcb else if l == 10 then 0xbe else if l == 11 then 0x39
    else if l == 12 then 0x4a else if l == 13 then 0x4c else if l == 14 then 0x58 else 0xcf
  }

  function Sbox6(l: bv8): bv8 {
    if l == 0 then 0xd0 else if l == 1 then 0xef else if l == 2 then 0xaa else if l == 3 then 0xfb
    else if l == 4 then 0x43 else if l == 5 then 0x4d else if l == 6 then 0x33 else if l == 7 then 0x85
    else if l == 8 then 0x45 else if l == 9 then 0xf9 else if l == 10 then 0x02 else if l == 11 then 0x7f
    else if l == 12 then 0x50 else if l == 13 then 0x3c else if l == 14 then 0x9f else 0xa8
  }

  function Sbox7(l: bv8): bv8 {
    if l == 0 then 0x51 else if l == 1 then 0xa3 else if l == 2 then 0x40 else if l == 3 then 0x8f
    else if l == 4 then 0x92 else if l == 5 then 0x9d else if l == 6 then 0x38 else if l == 7 then 0xf5
    else if l == 8 then 0xbc else if l == 9 then 0xb6 else if l == 10 then 0xda else if l == 11 then 0x21
    else if l == 12 then 0x10 else if l == 13 then 0xff else if l == 14 then 0xf3 else 0xd2
  }

  function Sbox8(l: bv8): bv8 {
    if l == 0 then 0xcd else if l == 1 then 0x0c else if l == 2 then 0x13 else if l == 3 then 0xec
    else if l == 4 then 0x5f else if l == 5 then 0x97 else if l == 6 then 0x44 else if l == 7 then 0x17
    else if l == 8 then 0xc4 else if l == 9 then 0xa7 else if l == 10 then 0x7e else if l == 11 then 0x3d
    else if l == 12 then 0x64 else if l == 13 then 0x5d else if l == 14 then 0x19 else 0x73
  }

  function Sbox9(l: bv8): bv8 {
    if l == 0 then 0x60 else if l == 1 then 0x81 else if l == 2 then 0x4f else if l == 3 then 0xdc
    else if l == 4 then 0x22 else if l == 5 then 0x2a else if l == 6 then 0x90 else if l == 7 then 0x88
    else if l == 8 then 0x46 else if l == 9 then 0xee else if l == 10 then 0xb8 else if l == 11 then 0x14
    else if l == 12 then 0xde else if l == 13 then 0x5e else if l == 14 then 0x0b else 0xdb
  }

  function SboxA(l: bv8): bv8 {
    if l == 0 then 0xe0 else if l == 1 then 0x32 else if l == 2 then 0x3a else if l == 3 then 0x0a
    else if l == 4 then 0x49 else if l == 5 then 0x06 else if l == 6 then 0x24 else if l == 7 then 0x5c
    else if l == 8 then 0xc2 else if l == 9 then 0xd3 else if l == 10 then 0xac else if l == 11 then 0x62
    else if l == 12 then 0x91 else if l == 13 then 0x95 else if l == 14 then 0xe4 else 0x79
  }

  function SboxB(l: bv8): bv8 {
    if l == 0 then 0xe7 else if l == 1 then 0xc8 else if l == 2 then 0x37 else if l == 3 then 0x6d
    else if l == 4 then 0x8d else if l == 5 then 0xd5 else if l == 6 then 0x4e else if l == 7 then 0xa9
    else if l == 8 then 0x6c else if l == 9 then 0x56 else if l == 10 then 0xf4 else if l == 11 then 0xea
    else if l == 12 then 0x65 else if l == 13 then 0x7a else if l == 14 then 0xae else 0x08
  }

  function SboxC(l: bv8): bv8 {
    if l == 0 then 0xba else if l == 1 then 0x78 else if l == 2 then 0x25 else if l == 3 then 0x2e
    else if l == 4 then 0x1c else if l == 5 then 0xa6 else if l == 6 then 0xb4 else if l == 7 then 0xc6
    else if l == 8 then 0xe8 else if l == 9 then 0xdd else if l == 10 then 0x74 else if l == 11 then 0x1f
    else if l == 12 then 0x4b else if l == 13 then 0xbd else if l == 14 then 0x8b else 0x8a
  }

  function SboxD(l: bv8): bv8 {
    if l == 0 then 0x70 else if l == 1 then 0x3e else if l == 2 then 0xb5 else if l == 3 then 0x66
    else if l == 4 then 0x48 else if l == 5 then 0x03 else if l == 6 then 0xf6 else if l == 7 then 0x0e
    else if l == 8 then 0x61 else if l == 9 then 0x35 else if l == 10 then 0x57 else if l == 11 then 0xb9
    else if l == 12 then 0x86 else if l == 13 then 0xc1 else if l == 14 then 0x1d else 0x9e
  }

  function SboxE(l: bv8): bv8 {
    if l == 0 then 0xe1 else if l == 1 then 0xf8 else if l == 2 then 0x98 else if l == 3 then 0x11
    else if l == 4 then 0x69 else if l == 5 then 0xd9 else if l == 6 then 0x8e else if l == 7 then 0x94
    else if l == 8 then 0x9b else if l == 9 then 0x1e else if l == 10 then 0x87 else if l == 11 then 0xe9
    else if l == 12 then 0xce else if l == 13 then 0x55 else if l == 14 then 0x28 else 0xdf
  }

  function SboxF(l: bv8): bv8 {
    if l == 0 then 0x8c else if l == 1 then 0xa1 else if l == 2 then 0x89 else if l == 3 then 0x0d
    else if l == 4 then 0xbf else if l == 5 then 0xe6 else if l == 6 then 0x42 else if l == 7 then 0x68
    else if l == 8 then 0x41 else if l == 9 then 0x99 else if l == 10 then 0x2d else if l == 11 then 0x0f
    else if l == 12 then 0xb0 else if l == 13 then 0x54 else if l == 14 then 0xbb else 0x16
  }

  function Sbox(x: bv8): bv8 {
    var h, l := x >> 4, x & 15;
    if h == 0 then Sbox0(l) else if h == 1 then Sbox1(l) else if h == 2 then Sbox2(l)
    else if h == 3 then Sbox3(l) else if h == 4 then Sbox4(l) else if h == 5 then Sbox5(l)
    else if h == 6 then Sbox6(l) else if h == 7 then Sbox7(l) else if h == 8 then Sbox8(l)
    else if h == 9 then Sbox9(l) else if h == 10 then SboxA(l) else if h == 11 then SboxB(l)
    else if h == 12 then SboxC(l) else if h == 13 then SboxD(l) else if h == 14 then SboxE(l)
    else SboxF(l)
  }

  // rsbox[x]: the row by the high nibble, the entry by the low one
  function Rsbox0(l: bv8): bv8 {
    if l == 0 then 0x52 else if l == 1 then 0x09 else if l == 2 then 0x6a else if l == 3 then 0xd5
    else if l == 4 then 0x30 else if l == 5 then 0x36 else if l == 6 then 0xa5 else if l == 7 then 0x38
    else if l == 8 then 0xbf else if l == 9 then 0x40 else if l == 10 then 0xa3 else if l == 11 then 0x9e
    else if l == 12 then 0x81 else if l == 13 then 0xf3 else if l == 14 then 0xd7 else 0xfb
  }

  function Rsbox1(l: bv8): bv8 {
    if l == 0 then 0x7c else if l == 1 then 0xe3 else if l == 2 then 0x39 else if l == 3 then 0x82
    else if l == 4 then 0x9b else if l == 5 then 0x2f else if l == 6 then 0xff else if l == 7 then 0x87
    else if l == 8 then 0x34 else if l == 9 then 0x8e else if l == 10 then 0x43 else if l == 11 then 0x44
    else if l == 12 then 0xc4 else if l == 13 then 0xde else if l == 14 then 0xe9 else 0xcb
  }

  function Rsbox2(l: bv8): bv8 {
    if l == 0 then 0x54 else if l == 1 then 0x7b else if l == 2 then 0x94 else if l == 3 then 0x32
    else if l == 4 then 0xa6 else if l == 5 then 0xc2 else if l == 6 then 0x23 else if l == 7 then 0x3d
    else if l == 8 then 0xee else if l == 9 then 0x4c else if l == 10 then 0x95 else if l == 11 then 0x0b
    else if l == 12 then 0x42 else if l == 13 then 0xfa else if l == 14 then 0xc3 else 0x4e
  }

  function Rsbox3(l: bv8): bv8 {
    if l == 0 then 0x08 else if l == 1 then 0x2e else if l == 2 then 0xa1 else if l == 3 then 0x66
    else if l == 4 then 0x28 else if l == 5 then 0xd9 else if l == 6 then 0x24 else if l == 7 then 0xb2
    else if l == 8 then 0x76 else if l == 9 then 0x5b else if l == 10 then 0xa2 else if l == 11 then 0x49
    else if l == 12 then 0x6d else if l == 13 then 0x8b else if l == 14 then 0xd1 else 0x25
  }

  function Rsbox4(l: bv8): bv8 {
    if l == 0 then 0x72 else if l == 1 then 0xf8 else if l == 2 then 0xf6 else if l == 3 then 0x64
    else if l == 4 then 0x86 else if l == 5 then 0x68 else if l == 6 then 0x98 else if l == 7 then 0x16
    else if l == 8 then 0xd4 else if l == 9 then 0xa4 else if l == 10 then 0x5c else if l == 11 then 0xcc
    else if l == 12 then 0x5d else if l == 13 then 0x65 else if l == 14 then 0xb6 else 0x92
  }

  function Rsbox5(l: bv8): bv8 {
    if l == 0 then 0x6c else if l == 1 then 0x70 else if l == 2 then 0x48 else if l == 3 then 0x50
    else if l == 4 then 0xfd else if l == 5 then 0xed else if l == 6 then 0xb9 else if l == 7 then 0xda
    else if l == 8 then 0x5e else if l == 9 then 0x15 else if l == 10 then 0x46 else if l == 11 then 0x57
    else if l == 12 then 0xa7 else if l == 13 then 0x8d else if l == 14 then 0x9d else 0x84
  }

  function Rsbox6(l: bv8): bv8 {
    if l == 0 then 0x90 else if l == 1 then 0xd8 else if l == 2 then 0xab else if l == 3 then 0x00
    else if l == 4 then 0x8c else if l == 5 then 0xbc else if l == 6 then 0xd3 else if l == 7 then 0x0a
    else if l == 8 then 0xf7 else if l == 9 then 0xe4 else if l == 10 then 0x58 else if l == 11 then 0x05
    else if l == 12 then 0xb8 else if l == 13 then 0xb3 else if l == 14 then 0x45 else 0x06
  }

  function Rsbox7(l: bv8): bv8 {
    if l == 0 then 0xd0 else if l == 1 then 0x2c else if l == 2 then 0x1e else if l == 3 then 0x8f
    else if l == 4 then 0xca else if l == 5 then 0x3f else if l == 6 then 0x0f else if l == 7 then 0x02
    else if l == 8 then 0xc1 else if l == 9 then 0xaf else if l == 10 then 0xbd else if l == 11 then 0x03
    else if l == 12 then 0x01 else if l == 13 then 0x13 else if l == 14 then 0x8a else 0x6b
  }

  function Rsbox8(l: bv8): bv8 {
    if l == 0 then 0x3a else if l == 1 then 0x91 else if l == 2 then 0x11 else if l == 3 then 0x41
    else if l == 4 then 0x4f else if l == 5 then 0x67 else if l == 6 then 0xdc else if l == 7 then 0xea
    else if l == 8 then 0x97 else if l == 9 then 0xf2 else if l == 10 then 0xcf else if l == 11 then 0xce
    else if l == 12 then 0xf0 else if l == 13 then 0xb4 else if l == 14 then 0xe6 else 0x73
  }

  function Rsbox9(l: bv8): bv8 {
    if l == 0 then 0x96 else if l == 1 then 0xac else if l == 2 then 0x74 else if l == 3 then 0x22
    else if l == 4 then 0xe7 else if l == 5 then 0xad else if l == 6 then 0x35 else if l == 7 then 0x85
    else if l == 8 then 0xe2 else if l == 9 then 0xf9 else if l == 10 then 0x37 else if l == 11 then 0xe8
    else if l == 12 then 0x1c else if l == 13 then 0x75 else if l == 14 then 0xdf else 0x6e
  }

  function RsboxA(l: bv8): bv8 {
    if l == 0 then 0x47 else if l == 1 then 0xf1 else if l == 2 then 0x1a else if l == 3 then 0x71
    else if l == 4 then 0x1d else if l == 5 then 0x29 else if l == 6 then 0xc5 else if l == 7 then 0x89
    else if l == 8 then 0x6f else if l == 9 then 0xb7 else if l == 10 then 0x62 else if l == 11 then 0x0e
    else if l == 12 then 0xaa else if l == 13 then 0x18 else if l == 14 then 0xbe else 0x1b
  }

  function RsboxB(l: bv8): bv8 {
    if l == 0 then 0xfc else if l == 1 then 0x56 else if l == 2 then 0x3e else if l == 3 then 0x4b
    else if l == 4 then 0xc6 else if l == 5 then 0xd2 else if l == 6 then 0x79 else if l == 7 then 0x20
    else if l == 8 then 0x9a else if l == 9 then 0xdb else if l == 10 then 0xc0 else if l == 11 then 0xfe
    else if l == 12 then 0x78 else if l == 13 then 0xcd else if l == 14 then 0x5a else 0xf4
  }

  function RsboxC(l: bv8): bv8 {
    if l == 0 then 0x1f else if l == 1 then 0xdd else if l == 2 then 0xa8 else if l == 3 then 0x33
    else if l == 4 then 0x88 else if l == 5 then 0x07 else if l == 6 then 0xc7 else if l == 7 then 0x31
    else if l == 8 then 0xb1 else if l == 9 then 0x12 else if l == 10 then 0x10 else if l == 11 then 0x59
    else if l == 12 then 0x27 else if l == 13 then 0x80 else if l == 14 then 0xec else 0x5f
  }

  function RsboxD(l: bv8): bv8 {
    if l == 0 then 0x60 else if l == 1 then 0x51 else if l == 2 then 0x7f else if l == 3 then 0xa9
    else if l == 4 then 0x19 else if l == 5 then 0xb5 else if l == 6 then 0x4a else if l == 7 then 0x0d
    else if l == 8 then 0x2d else if l == 9 then 0xe5 else if l == 10 then 0x7a else if l == 11 then 0x9f
    else if l == 12 then 0x93 else if l == 13 then 0xc9 else if l == 14 then 0x9c else 0xef
  }

  function RsboxE(l: bv8): bv8 {
    if l == 0 then 0xa0 else if l == 1 then 0xe0 else if l == 2 then 0x3b else if l == 3 then 0x4d
    else if l == 4 then 0xae else if l == 5 then 0x2a else if l == 6 then 0xf5 else if l == 7 then 0xb0
    else if l == 8 then 0xc8 else if l == 9 then 0xeb else if l == 10 then 0xbb else if l == 11 then 0x3c
    else if l == 12 then 0x83 else if l == 13 then 0x53 else if l == 14 then 0x99 else 0x61
  }

  function RsboxF(l: bv8): bv8 {
    if l == 0 then 0x17 else if l == 1 then 0x2b else if l == 2 then 0x04 else if l == 3 then 0x7e
    else if l == 4 then 0xba else if l == 5 then 0x77 else if l == 6 then 0xd6 else if l == 7 then 0x26
    else if l == 8 then 0xe1 else if l == 9 then 0x69 else if l == 10 then 0x14 else if l == 11 then 0x63
    else if l == 12 then 0x55 else if l == 13 then 0x21 else if l == 14 then 0x0c else 0x7d
  }

  function Rsbox(x: bv8): bv8 {
    var h, l := x >> 4, x & 15;
    if h == 0 then Rsbox0(l) else if h == 1 then Rsbox1(l) else if h == 2 then Rsbox2(l)
    else if h == 3 then Rsbox3(l) else if h == 4 then Rsbox4(l) else if h == 5 then Rsbox5(l)
    else if h == 6 then Rsbox6(l) else if h == 7 then Rsbox7(l) else if h == 8 then Rsbox8(l)
    else if h == 9 then Rsbox9(l) else if h == 10 then RsboxA(l) else if h == 11 then RsboxB(l)
    else if h == 12 then RsboxC(l) else if h == 13 then RsboxD(l) else if h == 14 then RsboxE(l)
    else RsboxF(l)
  }

  // multiplication by {02} in GF(2^8)
  function Xtime(x: bv8): bv8 { (x << 1) ^ (((x >> 7) & 1) * 0x1b) }

  // multiplication in GF(2^8) by the powers of {02} (section 4.2.1 of FIPS 197)
  function Product(x: bv8, y: bv8): bv8 {
    var x1 := Xtime(x);
    var x2 := Xtime(x1);
    var x3 := Xtime(x2);
    var x4 := Xtime(x3);
    var x5 := Xtime(x4);
    var x6 := Xtime(x5);
    var x7 := Xtime(x6);
    ((y & 1) * x) ^ (((y >> 1) & 1) * x1) ^ (((y >> 2) & 1) * x2) ^ (((y >> 3) & 1) * x3)
    ^ (((y >> 4) & 1) * x4) ^ (((y >> 5) & 1) * x5) ^ (((y >> 6) & 1) * x6) ^ (((y >> 7) & 1) * x7)
  }

  // the affine transformation of section 5.1.1, and its inverse
  function Affine(b: bv8): bv8 {
    b ^ ((b << 1) | (b >> 7)) ^ ((b << 2) | (b >> 6)) ^ ((b << 3) | (b >> 5)) ^ ((b << 4) | (b >> 4)) ^ 0x63
  }

  function Unaffine(b: bv8): bv8 {
    ((b << 1) | (b >> 7)) ^ ((b << 3) | (b >> 5)) ^ ((b << 6) | (b >> 2)) ^ 0x05
  }

  lemma AffineUnaffine(b: bv8)
    ensures Affine(Unaffine(b)) == b
  {
  }

  // y is the multiplicative inverse of x, with 0 for 0
  ghost predicate Inverse(x: bv8, y: bv8) {
    if x == 0 then y == 0 else Product(x, y) == 1
  }

  // The two tables invert each other.
  lemma RsboxSbox(x: bv8)
    ensures Rsbox(Sbox(x)) == x
  {
  }

  lemma SboxRsbox(x: bv8)
    ensures Sbox(Rsbox(x)) == x
  {
  }

  lemma InvertedLow(x: bv8)
    requires x < 0x80
    ensures Inverse(x, Unaffine(Sbox(x)))
  {
  }

  lemma InvertedHigh(x: bv8)
    requires x >= 0x80
    ensures Inverse(x, Unaffine(Sbox(x)))
  {
  }

  lemma Inverted(x: bv8)
    ensures Inverse(x, Unaffine(Sbox(x)))
  {
    hide Inverse, Unaffine, Sbox;
    if x < 0x80 {
      InvertedLow(x);
    } else {
      InvertedHigh(x);
    }
  }

  // The S-box is the affine image of the multiplicative inverse, with 0 for 0.
  lemma SboxIsAffineInverse(x: bv8)
    ensures exists y: bv8 :: Sbox(x) == Affine(y) && Inverse(x, y)
  {
    hide Sbox, Inverse, Unaffine, Affine;
    Inverted(x);
    AffineUnaffine(Sbox(x));
    var y := Unaffine(Sbox(x));
    assert Sbox(x) == Affine(y) && Inverse(x, y);
  }

  // ----- the linear layer of one column -----

  // addition in GF(2^8) (section 4.1)
  function Add(a: bv8, b: bv8): bv8 { a ^ b }

  lemma AddIs(a: bv8, b: bv8)
    ensures Add(a, b) == a ^ b
  {
  }

  lemma AddLaws(a: bv8, b: bv8, c: bv8)
    ensures Add(a, b) == Add(b, a) && Add(Add(a, b), c) == Add(a, Add(b, c))
    ensures Add(a, 0) == a && Add(0, a) == a && Add(a, a) == 0
  {
  }

  lemma Exchange(a: bv8, b: bv8, c: bv8, d: bv8)
    ensures Add(Add(a, b), Add(c, d)) == Add(Add(a, c), Add(b, d))
  {
    hide Add;
    AddLaws(a, b, Add(c, d));
    AddLaws(b, c, d);
    AddLaws(c, b, d);
    AddLaws(a, c, Add(b, d));
  }

  lemma XtimeLinear(a: bv8, b: bv8)
    ensures Xtime(Add(a, b)) == Add(Xtime(a), Xtime(b))
  {
  }

  // the products of the two matrices, by repeated Xtime
  lemma Products(x: bv8)
    ensures Product(x, 0x02) == Xtime(x)
    ensures Product(x, 0x03) == Add(Xtime(x), x)
    ensures Product(x, 0x0e) == Add(Add(Xtime(Xtime(Xtime(x))), Xtime(Xtime(x))), Xtime(x))
    ensures Product(x, 0x0b) == Add(Add(Xtime(Xtime(Xtime(x))), Xtime(x)), x)
    ensures Product(x, 0x0d) == Add(Add(Xtime(Xtime(Xtime(x))), Xtime(Xtime(x))), x)
    ensures Product(x, 0x09) == Add(Xtime(Xtime(Xtime(x))), x)
  {
  }

  // the macro Multiply
  function Multiply(x: bv8, y: bv8): bv8 {
    ((y & 1) * x) ^ (((y >> 1) & 1) * Xtime(x)) ^ (((y >> 2) & 1) * Xtime(Xtime(x)))
    ^ (((y >> 3) & 1) * Xtime(Xtime(Xtime(x)))) ^ (((y >> 4) & 1) * Xtime(Xtime(Xtime(Xtime(x)))))
  }

  lemma MultiplyIsProduct(x: bv8)
    ensures Multiply(x, 0x0e) == Product(x, 0x0e) && Multiply(x, 0x0b) == Product(x, 0x0b)
    ensures Multiply(x, 0x0d) == Product(x, 0x0d) && Multiply(x, 0x09) == Product(x, 0x09)
  {
  }

  // a factor of the matrix of InvMixColumns
  predicate Factor(y: bv8) { y == 0x0e || y == 0x0b || y == 0x0d || y == 0x09 }

  lemma ProductLinear(a: bv8, b: bv8, y: bv8)
    requires Factor(y)
    ensures Product(Add(a, b), y) == Add(Product(a, y), Product(b, y))
  {
    hide Add, Xtime, Product;
    Products(a);
    Products(b);
    Products(Add(a, b));
    XtimeLinear(a, b);
    XtimeLinear(Xtime(a), Xtime(b));
    XtimeLinear(Xtime(Xtime(a)), Xtime(Xtime(b)));
    var a1, b1, a2, b2 := Xtime(a), Xtime(b), Xtime(Xtime(a)), Xtime(Xtime(b));
    var a3, b3 := Xtime(a2), Xtime(b2);
    Exchange(a3, b3, a2, b2);
    Exchange(a3, b3, a1, b1);
    Exchange(a3, b3, a, b);
    Exchange(Add(a3, a2), Add(b3, b2), a1, b1);
    Exchange(Add(a3, a2), Add(b3, b2), a, b);
    Exchange(Add(a3, a1), Add(b3, b1), a, b);
  }

  function Sum4(a: bv8, b: bv8, c: bv8, d: bv8): bv8 { Add(Add(a, b), Add(c, d)) }

  // sums of sums, column by column
  lemma AddSums(a: bv8, b: bv8, c: bv8, d: bv8, w: bv8, x: bv8, y: bv8, z: bv8)
    ensures Add(Sum4(a, b, c, d), Sum4(w, x, y, z)) == Sum4(Add(a, w), Add(b, x), Add(c, y), Add(d, z))
  {
    hide Add;
    Exchange(Add(a, b), Add(c, d), Add(w, x), Add(y, z));
    Exchange(a, b, w, x);
    Exchange(c, d, y, z);
  }

  lemma Transpose(a0: bv8, a1: bv8, a2: bv8, a3: bv8, b0: bv8, b1: bv8, b2: bv8, b3: bv8,
                  c0: bv8, c1: bv8, c2: bv8, c3: bv8, d0: bv8, d1: bv8, d2: bv8, d3: bv8)
    ensures Sum4(Sum4(a0, a1, a2, a3), Sum4(b0, b1, b2, b3), Sum4(c0, c1, c2, c3), Sum4(d0, d1, d2, d3))
         == Sum4(Sum4(a0, b0, c0, d0), Sum4(a1, b1, c1, d1), Sum4(a2, b2, c2, d2), Sum4(a3, b3, c3, d3))
  {
    hide Add;
    AddSums(a0, a1, a2, a3, b0, b1, b2, b3);
    AddSums(c0, c1, c2, c3, d0, d1, d2, d3);
    AddSums(Add(a0, b0), Add(a1, b1), Add(a2, b2), Add(a3, b3), Add(c0, d0), Add(c1, d1), Add(c2, d2), Add(c3, d3));
  }

  lemma Rotate4(a: bv8, b: bv8, c: bv8, d: bv8)
    ensures Sum4(a, b, c, d) == Sum4(d, a, b, c)
  {
    hide Add;
    Exchange(a, b, c, d);
    AddLaws(b, d, 0);
    AddLaws(Add(a, c), Add(d, b), 0);
    Exchange(d, b, a, c);
    AddLaws(Add(d, b), Add(a, c), 0);
  }

  lemma ProductOfSum(a: bv8, b: bv8, c: bv8, d: bv8, y: bv8)
    requires Factor(y)
    ensures Product(Sum4(a, b, c, d), y) == Sum4(Product(a, y), Product(b, y), Product(c, y), Product(d, y))
  {
    hide Product, Add;
    ProductLinear(a, b, y);
    ProductLinear(c, d, y);
    ProductLinear(Add(a, b), Add(c, d), y);
  }

  // The product of the two matrices is the identity, coefficient by coefficient.
  lemma Coefficients(a: bv8)
    ensures Sum4(Product(Product(a, 0x02), 0x0e), Product(a, 0x0b), Product(a, 0x0d),
        Product(Product(a, 0x03), 0x09)) == a
    ensures Sum4(Product(Product(a, 0x03), 0x0e), Product(Product(a, 0x02), 0x0b), Product(a, 0x0d),
        Product(a, 0x09)) == 0
    ensures Sum4(Product(a, 0x0e), Product(Product(a, 0x03), 0x0b), Product(Product(a, 0x02), 0x0d),
        Product(a, 0x09)) == 0
    ensures Sum4(Product(a, 0x0e), Product(a, 0x0b), Product(Product(a, 0x03), 0x0d),
        Product(Product(a, 0x02), 0x09)) == 0
  {
  }

  // a byte of a mixed column (section 5.1.3), from the byte in its row and the three below, cyclically
  function Mixed(a: bv8, b: bv8, c: bv8, d: bv8): bv8 {
    Sum4(Product(a, 0x02), Product(b, 0x03), c, d)
  }

  // a byte of a column mixed back (section 5.3.3)
  function Unmixed(a: bv8, b: bv8, c: bv8, d: bv8): bv8 {
    Sum4(Product(a, 0x0e), Product(b, 0x0b), Product(c, 0x0d), Product(d, 0x09))
  }

  // InvMixColumns inverts MixColumns, on any column.
  lemma UnmixedMixed(a: bv8, b: bv8, c: bv8, d: bv8)
    ensures Unmixed(Mixed(a, b, c, d), Mixed(b, c, d, a), Mixed(c, d, a, b), Mixed(d, a, b, c)) == a
  {
    hide Product, Add;
    var a2, b2, c2, d2 := Product(a, 0x02), Product(b, 0x02), Product(c, 0x02), Product(d, 0x02);
    var a3, b3, c3, d3 := Product(a, 0x03), Product(b, 0x03), Product(c, 0x03), Product(d, 0x03);
    // the mixed bytes, each with its terms in the order of the column
    Rotate4(b2, c3, d, a);
    Rotate4(c2, d3, a, b);
    Rotate4(b, c2, d3, a);
    Rotate4(a3, b, c, d2);
    ProductOfSum(a2, b3, c, d, 0x0e);
    ProductOfSum(a, b2, c3, d, 0x0b);
    ProductOfSum(a, b, c2, d3, 0x0d);
    ProductOfSum(a3, b, c, d2, 0x09);
    Transpose(Product(a2, 0x0e), Product(b3, 0x0e), Product(c, 0x0e), Product(d, 0x0e),
              Product(a, 0x0b), Product(b2, 0x0b), Product(c3, 0x0b), Product(d, 0x0b),
              Product(a, 0x0d), Product(b, 0x0d), Product(c2, 0x0d), Product(d3, 0x0d),
              Product(a3, 0x09), Product(b, 0x09), Product(c, 0x09), Product(d2, 0x09));
    Coefficients(a);
    Coefficients(b);
    Coefficients(c);
    Coefficients(d);
    AddLaws(a, 0, 0);
    AddLaws(0, 0, 0);
  }
}
