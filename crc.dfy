/** The checksum of the file and wire format: a most-significant-bit-first
    CRC-32 over polynomial 0x04C11DB7 (the IEEE 802.3 polynomial), initial
    value 0 and no final XOR, computed a byte at a time through a 256-entry
    table. */
module Crc {

  type byte = bv8

  /** The lookup table, in the source's rows of eight entries: entry `i` is
      `TableRows[i / 8][i % 8]`. */
  const TableRows: seq<seq<bv32>> := [
    [0x00000000, 0x04c11db7, 0x09823b6e, 0x0d4326d9, 0x130476dc, 0x17c56b6b, 0x1a864db2, 0x1e475005],
    [0x2608edb8, 0x22c9f00f, 0x2f8ad6d6, 0x2b4bcb61, 0x350c9b64, 0x31cd86d3, 0x3c8ea00a, 0x384fbdbd],
    [0x4c11db70, 0x48d0c6c7, 0x4593e01e, 0x4152fda9, 0x5f15adac, 0x5bd4b01b, 0x569796c2, 0x52568b75],
    [0x6a1936c8, 0x6ed82b7f, 0x639b0da6, 0x675a1011, 0x791d4014, 0x7ddc5da3, 0x709f7b7a, 0x745e66cd],
    [0x9823b6e0, 0x9ce2ab57, 0x91a18d8e, 0x95609039, 0x8b27c03c, 0x8fe6dd8b, 0x82a5fb52, 0x8664e6e5],
    [0xbe2b5b58, 0xbaea46ef, 0xb7a96036, 0xb3687d81, 0xad2f2d84, 0xa9ee3033, 0xa4ad16ea, 0xa06c0b5d],
    [0xd4326d90, 0xd0f37027, 0xddb056fe, 0xd9714b49, 0xc7361b4c, 0xc3f706fb, 0xceb42022, 0xca753d95],
    [0xf23a8028, 0xf6fb9d9f, 0xfbb8bb46, 0xff79a6f1, 0xe13ef6f4, 0xe5ffeb43, 0xe8bccd9a, 0xec7dd02d],
    [0x34867077, 0x30476dc0, 0x3d044b19, 0x39c556ae, 0x278206ab, 0x23431b1c, 0x2e003dc5, 0x2ac12072],
    [0x128e9dcf, 0x164f8078, 0x1b0ca6a1, 0x1fcdbb16, 0x018aeb13, 0x054bf6a4, 0x0808d07d, 0x0cc9cdca],
    [0x7897ab07, 0x7c56b6b0, 0x71159069, 0x75d48dde, 0x6b93dddb, 0x6f52c06c, 0x6211e6b5, 0x66d0fb02],
    [0x5e9f46bf, 0x5a5e5b08, 0x571d7dd1, 0x53dc6066, 0x4d9b3063, 0x495a2dd4, 0x44190b0d, 0x40d816ba],
    [0xaca5c697, 0xa864db20, 0xa527fdf9, 0xa1e6e04e, 0xbfa1b04b, 0xbb60adfc, 0xb6238b25, 0xb2e29692],
    [0x8aad2b2f, 0x8e6c3698, 0x832f1041, 0x87ee0df6, 0x99a95df3, 0x9d684044, 0x902b669d, 0x94ea7b2a],
    [0xe0b41de7, 0xe4750050, 0xe9362689, 0xedf73b3e, 0xf3b06b3b, 0xf771768c, 0xfa325055, 0xfef34de2],
    [0xc6bcf05f, 0xc27dede8, 0xcf3ecb31, 0xcbffd686, 0xd5b88683, 0xd1799b34, 0xdc3abded, 0xd8fba05a],
    [0x690ce0ee, 0x6dcdfd59, 0x608edb80, 0x644fc637, 0x7a089632, 0x7ec98b85, 0x738aad5c, 0x774bb0eb],
    [0x4f040d56, 0x4bc510e1, 0x46863638, 0x42472b8f, 0x5c007b8a, 0x58c1663d, 0x558240e4, 0x51435d53],
    [0x251d3b9e, 0x21dc2629, 0x2c9f00f0, 0x285e1d47, 0x36194d42, 0x32d850f5, 0x3f9b762c, 0x3b5a6b9b],
    [0x0315d626, 0x07d4cb91, 0x0a97ed48, 0x0e56f0ff, 0x1011a0fa, 0x14d0bd4d, 0x19939b94, 0x1d528623],
    [0xf12f560e, 0xf5ee4bb9, 0xf8ad6d60, 0xfc6c70d7, 0xe22b20d2, 0xe6ea3d65, 0xeba91bbc, 0xef68060b],
    [0xd727bbb6, 0xd3e6a601, 0xdea580d8, 0xda649d6f, 0xc423cd6a, 0xc0e2d0dd, 0xcda1f604, 0xc960ebb3],
    [0xbd3e8d7e, 0xb9ff90c9, 0xb4bcb610, 0xb07daba7, 0xae3afba2, 0xaafbe615, 0xa7b8c0cc, 0xa379dd7b],
    [0x9b3660c6, 0x9ff77d71, 0x92b45ba8, 0x9675461f, 0x8832161a, 0x8cf30bad, 0x81b02d74, 0x857130c3],
    [0x5d8a9099, 0x594b8d2e, 0x5408abf7, 0x50c9b640, 0x4e8ee645, 0x4a4ffbf2, 0x470cdd2b, 0x43cdc09c],
    [0x7b827d21, 0x7f436096, 0x7200464f, 0x76c15bf8, 0x68860bfd, 0x6c47164a, 0x61043093, 0x65c52d24],
    [0x119b4be9, 0x155a565e, 0x18197087, 0x1cd86d30, 0x029f3d35, 0x065e2082, 0x0b1d065b, 0x0fdc1bec],
    [0x3793a651, 0x3352bbe6, 0x3e119d3f, 0x3ad08088, 0x2497d08d, 0x2056cd3a, 0x2d15ebe3, 0x29d4f654],
    [0xc5a92679, 0xc1683bce, 0xcc2b1d17, 0xc8ea00a0, 0xd6ad50a5, 0xd26c4d12, 0xdf2f6bcb, 0xdbee767c],
    [0xe3a1cbc1, 0xe760d676, 0xea23f0af, 0xeee2ed18, 0xf0a5bd1d, 0xf464a0aa, 0xf9278673, 0xfde69bc4],
    [0x89b8fd09, 0x8d79e0be, 0x803ac667, 0x84fbdbd0, 0x9abc8bd5, 0x9e7d9662, 0x933eb0bb, 0x97ffad0c],
    [0xafb010b1, 0xab710d06, 0xa6322bdf, 0xa2f33668, 0xbcb4666d, 0xb8757bda, 0xb5365d03, 0xb1f740b4]
  ]

  function TableAt(i: byte): bv32
  {
    TableRows[(i >> 3) as int][(i & 7) as int]
  }

  /** One step of the bitwise (table-free) CRC: shift left, and XOR in the
      polynomial when a one falls off the top. */
  function ShiftBit(x: bv32): bv32
  {
    if x >> 31 == 1 then (x << 1) ^ 0x04c1_1db7 else x << 1
  }

  function ShiftByte(x: bv32): bv32
  {
    ShiftBit(ShiftBit(ShiftBit(ShiftBit(ShiftBit(ShiftBit(ShiftBit(ShiftBit(x))))))))
  }

  /** The table-driven step of `LEDSignCRC.update`. */
  function Step(v: bv32, e: byte): bv32
  {
    TableAt(((v >> 24) as byte) ^ e) ^ ((v & 0xff_ffff) << 8)
  }

  /** The register after feeding `data`, one byte after the other. */
  function Fold(v: bv32, data: seq<byte>): bv32
    decreases |data|
  {
    if |data| == 0 then v else Step(Fold(v, data[..|data| - 1]), data[|data| - 1])
  }

  /** The checksum of a whole buffer, from a fresh register. */
  function Checksum(data: seq<byte>): bv32
  {
    Fold(0, data)
  }

  // The table is checked row by row: each entry against the bitwise step.
  lemma TableRow0(i: byte)
    requires i >> 3 == 0
    ensures TableAt(i) == ShiftByte((i as bv32) << 24)
  {
    if i == 0 {
      assert TableAt(0) == ShiftByte(0 << 24);
    } else if i == 1 {
      assert TableAt(1) == ShiftByte(1 << 24);
    } else if i == 2 {
      assert TableAt(2) == ShiftByte(2 << 24);
    } else if i == 3 {
      assert TableAt(3) == ShiftByte(3 << 24);
    } else if i == 4 {
      assert TableAt(4) == ShiftByte(4 << 24);
    } else if i == 5 {
      assert TableAt(5) == ShiftByte(5 << 24);
    } else if i == 6 {
      assert TableAt(6) == ShiftByte(6 << 24);
    } else {
      assert i == 7;
      assert TableAt(7) == ShiftByte(7 << 24);
    }
  }

  lemma TableRow1(i: byte)
    requires i >> 3 == 1
    ensures TableAt(i) == ShiftByte((i as bv32) << 24)
  {
    if i == 8 {
      assert TableAt(8) == ShiftByte(8 << 24);
    } else if i == 9 {
      assert TableAt(9) == ShiftByte(9 << 24);
    } else if i == 10 {
      assert TableAt(10) == ShiftByte(10 << 24);
    } else if i == 11 {
      assert TableAt(11) == ShiftByte(11 << 24);
    } else if i == 12 {
      assert TableAt(12) == ShiftByte(12 << 24);
    } else if i == 13 {
      assert TableAt(13) == ShiftByte(13 << 24);
    } else if i == 14 {
      assert TableAt(14) == ShiftByte(14 << 24);
    } else {
      assert i == 15;
      assert TableAt(15) == ShiftByte(15 << 24);
    }
  }

  lemma TableRow2(i: byte)
    requires i >> 3 == 2
    ensures TableAt(i) == ShiftByte((i as bv32) << 24)
  {
    if i == 16 {
      assert TableAt(16) == ShiftByte(16 << 24);
    } else if i == 17 {
      assert TableAt(17) == ShiftByte(17 << 24);
    } else if i == 18 {
      assert TableAt(18) == ShiftByte(18 << 24);
    } else if i == 19 {
      assert TableAt(19) == ShiftByte(19 << 24);
    } else if i == 20 {
      assert TableAt(20) == ShiftByte(20 << 24);
    } else if i == 21 {
      assert TableAt(21) == ShiftByte(21 << 24);
    } else if i == 22 {
      assert TableAt(22) == ShiftByte(22 << 24);
    } else {
      assert i == 23;
      assert TableAt(23) == ShiftByte(23 << 24);
    }
  }

  lemma TableRow3(i: byte)
    requires i >> 3 == 3
    ensures TableAt(i) == ShiftByte((i as bv32) << 24)
  {
    if i == 24 {
      assert TableAt(24) == ShiftByte(24 << 24);
    } else if i == 25 {
      assert TableAt(25) == ShiftByte(25 << 24);
    } else if i == 26 {
      assert TableAt(26) == ShiftByte(26 << 24);
    } else if i == 27 {
      assert TableAt(27) == ShiftByte(27 << 24);
    } else if i == 28 {
      assert TableAt(28) == ShiftByte(28 << 24);
    } else if i == 29 {
      assert TableAt(29) == ShiftByte(29 << 24);
    } else if i == 30 {
      assert TableAt(30) == ShiftByte(30 << 24);
    } else {
      assert i == 31;
      assert TableAt(31) == ShiftByte(31 << 24);
    }
  }

  lemma TableRow4(i: byte)
    requires i >> 3 == 4
    ensures TableAt(i) == ShiftByte((i as bv32) << 24)
  {
    if i == 32 {
      assert TableAt(32) == ShiftByte(32 << 24);
    } else if i == 33 {
      assert TableAt(33) == ShiftByte(33 << 24);
    } else if i == 34 {
      assert TableAt(34) == ShiftByte(34 << 24);
    } else if i == 35 {
      assert TableAt(35) == ShiftByte(35 << 24);
    } else if i == 36 {
      assert TableAt(36) == ShiftByte(36 << 24);
    } else if i == 37 {
      assert TableAt(37) == ShiftByte(37 << 24);
    } else if i == 38 {
      assert TableAt(38) == ShiftByte(38 << 24);
    } else {
      assert i == 39;
      assert TableAt(39) == ShiftByte(39 << 24);
    }
  }

  lemma TableRow5(i: byte)
    requires i >> 3 == 5
    ensures TableAt(i) == ShiftByte((i as bv32) << 24)
  {
    if i == 40 {
      assert TableAt(40) == ShiftByte(40 << 24);
    } else if i == 41 {
      assert TableAt(41) == ShiftByte(41 << 24);
    } else if i == 42 {
      assert TableAt(42) == ShiftByte(42 << 24);
    } else if i == 43 {
      assert TableAt(43) == ShiftByte(43 << 24);
    } else if i == 44 {
      assert TableAt(44) == ShiftByte(44 << 24);
    } else if i == 45 {
      assert TableAt(45) == ShiftByte(45 << 24);
    } else if i == 46 {
      assert TableAt(46) == ShiftByte(46 << 24);
    } else {
      assert i == 47;
      assert TableAt(47) == ShiftByte(47 << 24);
    }
  }

  lemma TableRow6(i: byte)
    requires i >> 3 == 6
    ensures TableAt(i) == ShiftByte((i as bv32) << 24)
  {
    if i == 48 {
      assert TableAt(48) == ShiftByte(48 << 24);
    } else if i == 49 {
      assert TableAt(49) == ShiftByte(49 << 24);
    } else if i == 50 {
      assert TableAt(50) == ShiftByte(50 << 24);
    } else if i == 51 {
      assert TableAt(51) == ShiftByte(51 << 24);
    } else if i == 52 {
      assert TableAt(52) == ShiftByte(52 << 24);
    } else if i == 53 {
      assert TableAt(53) == ShiftByte(53 << 24);
    } else if i == 54 {
      assert TableAt(54) == ShiftByte(54 << 24);
    } else {
      assert i == 55;
      assert TableAt(55) == ShiftByte(55 << 24);
    }
  }

  lemma TableRow7(i: byte)
    requires i >> 3 == 7
    ensures TableAt(i) == ShiftByte((i as bv32) << 24)
  {
    if i == 56 {
      assert TableAt(56) == ShiftByte(56 << 24);
    } else if i == 57 {
      assert TableAt(57) == ShiftByte(57 << 24);
    } else if i == 58 {
      assert TableAt(58) == ShiftByte(58 << 24);
    } else if i == 59 {
      assert TableAt(59) == ShiftByte(59 << 24);
    } else if i == 60 {
      assert TableAt(60) == ShiftByte(60 << 24);
    } else if i == 61 {
      assert TableAt(61) == ShiftByte(61 << 24);
    } else if i == 62 {
      assert TableAt(62) == ShiftByte(62 << 24);
    } else {
      assert i == 63;
      assert TableAt(63) == ShiftByte(63 << 24);
    }
  }

  lemma TableRow8(i: byte)
    requires i >> 3 == 8
    ensures TableAt(i) == ShiftByte((i as bv32) << 24)
  {
    if i == 64 {
      assert TableAt(64) == ShiftByte(64 << 24);
    } else if i == 65 {
      assert TableAt(65) == ShiftByte(65 << 24);
    } else if i == 66 {
      assert TableAt(66) == ShiftByte(66 << 24);
    } else if i == 67 {
      assert TableAt(67) == ShiftByte(67 << 24);
    } else if i == 68 {
      assert TableAt(68) == ShiftByte(68 << 24);
    } else if i == 69 {
      assert TableAt(69) == ShiftByte(69 << 24);
    } else if i == 70 {
      assert TableAt(70) == ShiftByte(70 << 24);
    } else {
      assert i == 71;
      assert TableAt(71) == ShiftByte(71 << 24);
    }
  }

  lemma TableRow9(i: byte)
    requires i >> 3 == 9
    ensures TableAt(i) == ShiftByte((i as bv32) << 24)
  {
    if i == 72 {
      assert TableAt(72) == ShiftByte(72 << 24);
    } else if i == 73 {
      assert TableAt(73) == ShiftByte(73 << 24);
    } else if i == 74 {
      assert TableAt(74) == ShiftByte(74 << 24);
    } else if i == 75 {
      assert TableAt(75) == ShiftByte(75 << 24);
    } else if i == 76 {
      assert TableAt(76) == ShiftByte(76 << 24);
    } else if i == 77 {
      assert TableAt(77) == ShiftByte(77 << 24);
    } else if i == 78 {
      assert TableAt(78) == ShiftByte(78 << 24);
    } else {
      assert i == 79;
      assert TableAt(79) == ShiftByte(79 << 24);
    }
  }

  lemma TableRow10(i: byte)
    requires i >> 3 == 10
    ensures TableAt(i) == ShiftByte((i as bv32) << 24)
  {
    if i == 80 {
      assert TableAt(80) == ShiftByte(80 << 24);
    } else if i == 81 {
      assert TableAt(81) == ShiftByte(81 << 24);
    } else if i == 82 {
      assert TableAt(82) == ShiftByte(82 << 24);
    } else if i == 83 {
      assert TableAt(83) == ShiftByte(83 << 24);
    } else if i == 84 {
      assert TableAt(84) == ShiftByte(84 << 24);
    } else if i == 85 {
      assert TableAt(85) == ShiftByte(85 << 24);
    } else if i == 86 {
      assert TableAt(86) == ShiftByte(86 << 24);
    } else {
      assert i == 87;
      assert TableAt(87) == ShiftByte(87 << 24);
    }
  }

  lemma TableRow11(i: byte)
    requires i >> 3 == 11
    ensures TableAt(i) == ShiftByte((i as bv32) << 24)
  {
    if i == 88 {
      assert TableAt(88) == ShiftByte(88 << 24);
    } else if i == 89 {
      assert TableAt(89) == ShiftByte(89 << 24);
    } else if i == 90 {
      assert TableAt(90) == ShiftByte(90 << 24);
    } else if i == 91 {
      assert TableAt(91) == ShiftByte(91 << 24);
    } else if i == 92 {
      assert TableAt(92) == ShiftByte(92 << 24);
    } else if i == 93 {
      assert TableAt(93) == ShiftByte(93 << 24);
    } else if i == 94 {
      assert TableAt(94) == ShiftByte(94 << 24);
    } else {
      assert i == 95;
      assert TableAt(95) == ShiftByte(95 << 24);
    }
  }

  lemma TableRow12(i: byte)
    requires i >> 3 == 12
    ensures TableAt(i) == ShiftByte((i as bv32) << 24)
  {
    if i == 96 {
      assert TableAt(96) == ShiftByte(96 << 24);
    } else if i == 97 {
      assert TableAt(97) == ShiftByte(97 << 24);
    } else if i == 98 {
      assert TableAt(98) == ShiftByte(98 << 24);
    } else if i == 99 {
      assert TableAt(99) == ShiftByte(99 << 24);
    } else if i == 100 {
      assert TableAt(100) == ShiftByte(100 << 24);
    } else if i == 101 {
      assert TableAt(101) == ShiftByte(101 << 24);
    } else if i == 102 {
      assert TableAt(102) == ShiftByte(102 << 24);
    } else {
      assert i == 103;
      assert TableAt(103) == ShiftByte(103 << 24);
    }
  }

  lemma TableRow13(i: byte)
    requires i >> 3 == 13
    ensures TableAt(i) == ShiftByte((i as bv32) << 24)
  {
    if i == 104 {
      assert TableAt(104) == ShiftByte(104 << 24);
    } else if i == 105 {
      assert TableAt(105) == ShiftByte(105 << 24);
    } else if i == 106 {
      assert TableAt(106) == ShiftByte(106 << 24);
    } else if i == 107 {
      assert TableAt(107) == ShiftByte(107 << 24);
    } else if i == 108 {
      assert TableAt(108) == ShiftByte(108 << 24);
    } else if i == 109 {
      assert TableAt(109) == ShiftByte(109 << 24);
    } else if i == 110 {
      assert TableAt(110) == ShiftByte(110 << 24);
    } else {
      assert i == 111;
      assert TableAt(111) == ShiftByte(111 << 24);
    }
  }

  lemma TableRow14(i: byte)
    requires i >> 3 == 14
    ensures TableAt(i) == ShiftByte((i as bv32) << 24)
  {
    if i == 112 {
      assert TableAt(112) == ShiftByte(112 << 24);
    } else if i == 113 {
      assert TableAt(113) == ShiftByte(113 << 24);
    } else if i == 114 {
      assert TableAt(114) == ShiftByte(114 << 24);
    } else if i == 115 {
      assert TableAt(115) == ShiftByte(115 << 24);
    } else if i == 116 {
      assert TableAt(116) == ShiftByte(116 << 24);
    } else if i == 117 {
      assert TableAt(117) == ShiftByte(117 << 24);
    } else if i == 118 {
      assert TableAt(118) == ShiftByte(118 << 24);
    } else {
      assert i == 119;
      assert TableAt(119) == ShiftByte(119 << 24);
    }
  }

  lemma TableRow15(i: byte)
    requires i >> 3 == 15
    ensures TableAt(i) == ShiftByte((i as bv32) << 24)
  {
    if i == 120 {
      assert TableAt(120) == ShiftByte(120 << 24);
    } else if i == 121 {
      assert TableAt(121) == ShiftByte(121 << 24);
    } else if i == 122 {
      assert TableAt(122) == ShiftByte(122 << 24);
    } else if i == 123 {
      assert TableAt(123) == ShiftByte(123 << 24);
    } else if i == 124 {
      assert TableAt(124) == ShiftByte(124 << 24);
    } else if i == 125 {
      assert TableAt(125) == ShiftByte(125 << 24);
    } else if i == 126 {
      assert TableAt(126) == ShiftByte(126 << 24);
    } else {
      assert i == 127;
      assert TableAt(127) == ShiftByte(127 << 24);
    }
  }

  lemma TableRow16(i: byte)
    requires i >> 3 == 16
    ensures TableAt(i) == ShiftByte((i as bv32) << 24)
  {
    if i == 128 {
      assert TableAt(128) == ShiftByte(128 << 24);
    } else if i == 129 {
      assert TableAt(129) == ShiftByte(129 << 24);
    } else if i == 130 {
      assert TableAt(130) == ShiftByte(130 << 24);
    } else if i == 131 {
      assert TableAt(131) == ShiftByte(131 << 24);
    } else if i == 132 {
      assert TableAt(132) == ShiftByte(132 << 24);
    } else if i == 133 {
      assert TableAt(133) == ShiftByte(133 << 24);
    } else if i == 134 {
      assert TableAt(134) == ShiftByte(134 << 24);
    } else {
      assert i == 135;
      assert TableAt(135) == ShiftByte(135 << 24);
    }
  }

  lemma TableRow17(i: byte)
    requires i >> 3 == 17
    ensures TableAt(i) == ShiftByte((i as bv32) << 24)
  {
    if i == 136 {
      assert TableAt(136) == ShiftByte(136 << 24);
    } else if i == 137 {
      assert TableAt(137) == ShiftByte(137 << 24);
    } else if i == 138 {
      assert TableAt(138) == ShiftByte(138 << 24);
    } else if i == 139 {
      assert TableAt(139) == ShiftByte(139 << 24);
    } else if i == 140 {
      assert TableAt(140) == ShiftByte(140 << 24);
    } else if i == 141 {
      assert TableAt(141) == ShiftByte(141 << 24);
    } else if i == 142 {
      assert TableAt(142) == ShiftByte(142 << 24);
    } else {
      assert i == 143;
      assert TableAt(143) == ShiftByte(143 << 24);
    }
  }

  lemma TableRow18(i: byte)
    requires i >> 3 == 18
    ensures TableAt(i) == ShiftByte((i as bv32) << 24)
  {
    if i == 144 {
      assert TableAt(144) == ShiftByte(144 << 24);
    } else if i == 145 {
      assert TableAt(145) == ShiftByte(145 << 24);
    } else if i == 146 {
      assert TableAt(146) == ShiftByte(146 << 24);
    } else if i == 147 {
      assert TableAt(147) == ShiftByte(147 << 24);
    } else if i == 148 {
      assert TableAt(148) == ShiftByte(148 << 24);
    } else if i == 149 {
      assert TableAt(149) == ShiftByte(149 << 24);
    } else if i == 150 {
      assert TableAt(150) == ShiftByte(150 << 24);
    } else {
      assert i == 151;
      assert TableAt(151) == ShiftByte(151 << 24);
    }
  }

  lemma TableRow19(i: byte)
    requires i >> 3 == 19
    ensures TableAt(i) == ShiftByte((i as bv32) << 24)
  {
    if i == 152 {
      assert TableAt(152) == ShiftByte(152 << 24);
    } else if i == 153 {
      assert TableAt(153) == ShiftByte(153 << 24);
    } else if i == 154 {
      assert TableAt(154) == ShiftByte(154 << 24);
    } else if i == 155 {
      assert TableAt(155) == ShiftByte(155 << 24);
    } else if i == 156 {
      assert TableAt(156) == ShiftByte(156 << 24);
    } else if i == 157 {
      assert TableAt(157) == ShiftByte(157 << 24);
    } else if i == 158 {
      assert TableAt(158) == ShiftByte(158 << 24);
    } else {
      assert i == 159;
      assert TableAt(159) == ShiftByte(159 << 24);
    }
  }

  lemma TableRow20(i: byte)
    requires i >> 3 == 20
    ensures TableAt(i) == ShiftByte((i as bv32) << 24)
  {
    if i == 160 {
      assert TableAt(160) == ShiftByte(160 << 24);
    } else if i == 161 {
      assert TableAt(161) == ShiftByte(161 << 24);
    } else if i == 162 {
      assert TableAt(162) == ShiftByte(162 << 24);
    } else if i == 163 {
      assert TableAt(163) == ShiftByte(163 << 24);
    } else if i == 164 {
      assert TableAt(164) == ShiftByte(164 << 24);
    } else if i == 165 {
      assert TableAt(165) == ShiftByte(165 << 24);
    } else if i == 166 {
      assert TableAt(166) == ShiftByte(166 << 24);
    } else {
      assert i == 167;
      assert TableAt(167) == ShiftByte(167 << 24);
    }
  }

  lemma TableRow21(i: byte)
    requires i >> 3 == 21
    ensures TableAt(i) == ShiftByte((i as bv32) << 24)
  {
    if i == 168 {
      assert TableAt(168) == ShiftByte(168 << 24);
    } else if i == 169 {
      assert TableAt(169) == ShiftByte(169 << 24);
    } else if i == 170 {
      assert TableAt(170) == ShiftByte(170 << 24);
    } else if i == 171 {
      assert TableAt(171) == ShiftByte(171 << 24);
    } else if i == 172 {
      assert TableAt(172) == ShiftByte(172 << 24);
    } else if i == 173 {
      assert TableAt(173) == ShiftByte(173 << 24);
    } else if i == 174 {
      assert TableAt(174) == ShiftByte(174 << 24);
    } else {
      assert i == 175;
      assert TableAt(175) == ShiftByte(175 << 24);
    }
  }

  lemma TableRow22(i: byte)
    requires i >> 3 == 22
    ensures TableAt(i) == ShiftByte((i as bv32) << 24)
  {
    if i == 176 {
      assert TableAt(176) == ShiftByte(176 << 24);
    } else if i == 177 {
      assert TableAt(177) == ShiftByte(177 << 24);
    } else if i == 178 {
      assert TableAt(178) == ShiftByte(178 << 24);
    } else if i == 179 {
      assert TableAt(179) == ShiftByte(179 << 24);
    } else if i == 180 {
      assert TableAt(180) == ShiftByte(180 << 24);
    } else if i == 181 {
      assert TableAt(181) == ShiftByte(181 << 24);
    } else if i == 182 {
      assert TableAt(182) == ShiftByte(182 << 24);
    } else {
      assert i == 183;
      assert TableAt(183) == ShiftByte(183 << 24);
    }
  }

  lemma TableRow23(i: byte)
    requires i >> 3 == 23
    ensures TableAt(i) == ShiftByte((i as bv32) << 24)
  {
    if i == 184 {
      assert TableAt(184) == ShiftByte(184 << 24);
    } else if i == 185 {
      assert TableAt(185) == ShiftByte(185 << 24);
    } else if i == 186 {
      assert TableAt(186) == ShiftByte(186 << 24);
    } else if i == 187 {
      assert TableAt(187) == ShiftByte(187 << 24);
    } else if i == 188 {
      assert TableAt(188) == ShiftByte(188 << 24);
    } else if i == 189 {
      assert TableAt(189) == ShiftByte(189 << 24);
    } else if i == 190 {
      assert TableAt(190) == ShiftByte(190 << 24);
    } else {
      assert i == 191;
      assert TableAt(191) == ShiftByte(191 << 24);
    }
  }

  lemma TableRow24(i: byte)
    requires i >> 3 == 24
    ensures TableAt(i) == ShiftByte((i as bv32) << 24)
  {
    if i == 192 {
      assert TableAt(192) == ShiftByte(192 << 24);
    } else if i == 193 {
      assert TableAt(193) == ShiftByte(193 << 24);
    } else if i == 194 {
      assert TableAt(194) == ShiftByte(194 << 24);
    } else if i == 195 {
      assert TableAt(195) == ShiftByte(195 << 24);
    } else if i == 196 {
      assert TableAt(196) == ShiftByte(196 << 24);
    } else if i == 197 {
      assert TableAt(197) == ShiftByte(197 << 24);
    } else if i == 198 {
      assert TableAt(198) == ShiftByte(198 << 24);
    } else {
      assert i == 199;
      assert TableAt(199) == ShiftByte(199 << 24);
    }
  }

  lemma TableRow25(i: byte)
    requires i >> 3 == 25
    ensures TableAt(i) == ShiftByte((i as bv32) << 24)
  {
    if i == 200 {
      assert TableAt(200) == ShiftByte(200 << 24);
    } else if i == 201 {
      assert TableAt(201) == ShiftByte(201 << 24);
    } else if i == 202 {
      assert TableAt(202) == ShiftByte(202 << 24);
    } else if i == 203 {
      assert TableAt(203) == ShiftByte(203 << 24);
    } else if i == 204 {
      assert TableAt(204) == ShiftByte(204 << 24);
    } else if i == 205 {
      assert TableAt(205) == ShiftByte(205 << 24);
    } else if i == 206 {
      assert TableAt(206) == ShiftByte(206 << 24);
    } else {
      assert i == 207;
      assert TableAt(207) == ShiftByte(207 << 24);
    }
  }

  lemma TableRow26(i: byte)
    requires i >> 3 == 26
    ensures TableAt(i) == ShiftByte((i as bv32) << 24)
  {
    if i == 208 {
      assert TableAt(208) == ShiftByte(208 << 24);
    } else if i == 209 {
      assert TableAt(209) == ShiftByte(209 << 24);
    } else if i == 210 {
      assert TableAt(210) == ShiftByte(210 << 24);
    } else if i == 211 {
      assert TableAt(211) == ShiftByte(211 << 24);
    } else if i == 212 {
      assert TableAt(212) == ShiftByte(212 << 24);
    } else if i == 213 {
      assert TableAt(213) == ShiftByte(213 << 24);
    } else if i == 214 {
      assert TableAt(214) == ShiftByte(214 << 24);
    } else {
      assert i == 215;
      assert TableAt(215) == ShiftByte(215 << 24);
    }
  }

  lemma TableRow27(i: byte)
    requires i >> 3 == 27
    ensures TableAt(i) == ShiftByte((i as bv32) << 24)
  {
    if i == 216 {
      assert TableAt(216) == ShiftByte(216 << 24);
    } else if i == 217 {
      assert TableAt(217) == ShiftByte(217 << 24);
    } else if i == 218 {
      assert TableAt(218) == ShiftByte(218 << 24);
    } else if i == 219 {
      assert TableAt(219) == ShiftByte(219 << 24);
    } else if i == 220 {
      assert TableAt(220) == ShiftByte(220 << 24);
    } else if i == 221 {
      assert TableAt(221) == ShiftByte(221 << 24);
    } else if i == 222 {
      assert TableAt(222) == ShiftByte(222 << 24);
    } else {
      assert i == 223;
      assert TableAt(223) == ShiftByte(223 << 24);
    }
  }

  lemma TableRow28(i: byte)
    requires i >> 3 == 28
    ensures TableAt(i) == ShiftByte((i as bv32) << 24)
  {
    if i == 224 {
      assert TableAt(224) == ShiftByte(224 << 24);
    } else if i == 225 {
      assert TableAt(225) == ShiftByte(225 << 24);
    } else if i == 226 {
      assert TableAt(226) == ShiftByte(226 << 24);
    } else if i == 227 {
      assert TableAt(227) == ShiftByte(227 << 24);
    } else if i == 228 {
      assert TableAt(228) == ShiftByte(228 << 24);
    } else if i == 229 {
      assert TableAt(229) == ShiftByte(229 << 24);
    } else if i == 230 {
      assert TableAt(230) == ShiftByte(230 << 24);
    } else {
      assert i == 231;
      assert TableAt(231) == ShiftByte(231 << 24);
    }
  }

  lemma TableRow29(i: byte)
    requires i >> 3 == 29
    ensures TableAt(i) == ShiftByte((i as bv32) << 24)
  {
    if i == 232 {
      assert TableAt(232) == ShiftByte(232 << 24);
    } else if i == 233 {
      assert TableAt(233) == ShiftByte(233 << 24);
    } else if i == 234 {
      assert TableAt(234) == ShiftByte(234 << 24);
    } else if i == 235 {
      assert TableAt(235) == ShiftByte(235 << 24);
    } else if i == 236 {
      assert TableAt(236) == ShiftByte(236 << 24);
    } else if i == 237 {
      assert TableAt(237) == ShiftByte(237 << 24);
    } else if i == 238 {
      assert TableAt(238) == ShiftByte(238 << 24);
    } else {
      assert i == 239;
      assert TableAt(239) == ShiftByte(239 << 24);
    }
  }

  lemma TableRow30(i: byte)
    requires i >> 3 == 30
    ensures TableAt(i) == ShiftByte((i as bv32) << 24)
  {
    if i == 240 {
      assert TableAt(240) == ShiftByte(240 << 24);
    } else if i == 241 {
      assert TableAt(241) == ShiftByte(241 << 24);
    } else if i == 242 {
      assert TableAt(242) == ShiftByte(242 << 24);
    } else if i == 243 {
      assert TableAt(243) == ShiftByte(243 << 24);
    } else if i == 244 {
      assert TableAt(244) == ShiftByte(244 << 24);
    } else if i == 245 {
      assert TableAt(245) == ShiftByte(245 << 24);
    } else if i == 246 {
      assert TableAt(246) == ShiftByte(246 << 24);
    } else {
      assert i == 247;
      assert TableAt(247) == ShiftByte(247 << 24);
    }
  }

  lemma TableRow31(i: byte)
    requires i >> 3 == 31
    ensures TableAt(i) == ShiftByte((i as bv32) << 24)
  {
    if i == 248 {
      assert TableAt(248) == ShiftByte(248 << 24);
    } else if i == 249 {
      assert TableAt(249) == ShiftByte(249 << 24);
    } else if i == 250 {
      assert TableAt(250) == ShiftByte(250 << 24);
    } else if i == 251 {
      assert TableAt(251) == ShiftByte(251 << 24);
    } else if i == 252 {
      assert TableAt(252) == ShiftByte(252 << 24);
    } else if i == 253 {
      assert TableAt(253) == ShiftByte(253 << 24);
    } else if i == 254 {
      assert TableAt(254) == ShiftByte(254 << 24);
    } else {
      assert i == 255;
      assert TableAt(255) == ShiftByte(255 << 24);
    }
  }

  /** Every table entry is the bitwise CRC of its index placed in the top byte:
      the table is the one of polynomial 0x04C11DB7. */
  lemma TableIsPolynomial(i: byte)
    ensures TableAt(i) == ShiftByte((i as bv32) << 24)
  {
    var r := i >> 3;
    if r == 0 {
      TableRow0(i);
    } else if r == 1 {
      TableRow1(i);
    } else if r == 2 {
      TableRow2(i);
    } else if r == 3 {
      TableRow3(i);
    } else if r == 4 {
      TableRow4(i);
    } else if r == 5 {
      TableRow5(i);
    } else if r == 6 {
      TableRow6(i);
    } else if r == 7 {
      TableRow7(i);
    } else if r == 8 {
      TableRow8(i);
    } else if r == 9 {
      TableRow9(i);
    } else if r == 10 {
      TableRow10(i);
    } else if r == 11 {
      TableRow11(i);
    } else if r == 12 {
      TableRow12(i);
    } else if r == 13 {
      TableRow13(i);
    } else if r == 14 {
      TableRow14(i);
    } else if r == 15 {
      TableRow15(i);
    } else if r == 16 {
      TableRow16(i);
    } else if r == 17 {
      TableRow17(i);
    } else if r == 18 {
      TableRow18(i);
    } else if r == 19 {
      TableRow19(i);
    } else if r == 20 {
      TableRow20(i);
    } else if r == 21 {
      TableRow21(i);
    } else if r == 22 {
      TableRow22(i);
    } else if r == 23 {
      TableRow23(i);
    } else if r == 24 {
      TableRow24(i);
    } else if r == 25 {
      TableRow25(i);
    } else if r == 26 {
      TableRow26(i);
    } else if r == 27 {
      TableRow27(i);
    } else if r == 28 {
      TableRow28(i);
    } else if r == 29 {
      TableRow29(i);
    } else if r == 30 {
      TableRow30(i);
    } else {
      TableRow31(i);
    }
  }

  /** Feeding two buffers one after the other is feeding their concatenation. */
  lemma {:induction false} FoldAppend(v: bv32, a: seq<byte>, b: seq<byte>)
    ensures Fold(v, a + b) == Fold(Fold(v, a), b)
    decreases |b|
  {
    if |b| == 0 {
      assert a + b == a;
    } else {
      assert (a + b)[..|a + b| - 1] == a + b[..|b| - 1];
      FoldAppend(v, a, b[..|b| - 1]);
    }
  }

  /** The source computes on unbounded integers; masking to 24 bits before the
      8-bit shift keeps the register within 32 bits, so modelling it as a
      32-bit vector loses nothing. */
  lemma StepFitsInWord(v: bv32)
    ensures (v & 0xff_ffff) as int < 0x100_0000
    ensures ((v & 0xff_ffff) << 8) as int == (v & 0xff_ffff) as int * 256
  {
  }

  /** `LEDSignCRC`: a checksum register that is updated in place. */
  class Checksummer {
    var value: bv32

    /** A register seeded with `data` (no data: the empty buffer). */
    constructor (data: seq<byte>)
      ensures value == Checksum(data)
    {
      value := 0;
      new;
      Update(data);
    }

    method Update(data: seq<byte>)
      modifies this
      ensures value == Fold(old(value), data)
    {
      ghost var start := value;
      for i := 0 to |data|
        invariant value == Fold(start, data[..i])
      {
        assert data[..i + 1][..i] == data[..i];
        value := Step(value, data[i]);
      }
      assert data[..|data|] == data;
    }
  }
}
