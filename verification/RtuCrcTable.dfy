/** The two checksum tables of libmodbus, entry by entry. */
module RtuCrcTable {
  import opened TableIndex

  /** The two tables of libmodbus, in rows of 16. */
  const TABLE_CRC_HI: seq<seq<bv8>> := [
    [0x00, 0xC1, 0x81, 0x40, 0x01, 0xC0, 0x80, 0x41, 0x01, 0xC0, 0x80, 0x41, 0x00, 0xC1, 0x81, 0x40],
    [0x01, 0xC0, 0x80, 0x41, 0x00, 0xC1, 0x81, 0x40, 0x00, 0xC1, 0x81, 0x40, 0x01, 0xC0, 0x80, 0x41],
    [0x01, 0xC0, 0x80, 0x41, 0x00, 0xC1, 0x81, 0x40, 0x00, 0xC1, 0x81, 0x40, 0x01, 0xC0, 0x80, 0x41],
    [0x00, 0xC1, 0x81, 0x40, 0x01, 0xC0, 0x80, 0x41, 0x01, 0xC0, 0x80, 0x41, 0x00, 0xC1, 0x81, 0x40],
    [0x01, 0xC0, 0x80, 0x41, 0x00, 0xC1, 0x81, 0x40, 0x00, 0xC1, 0x81, 0x40, 0x01, 0xC0, 0x80, 0x41],
    [0x00, 0xC1, 0x81, 0x40, 0x01, 0xC0, 0x80, 0x41, 0x01, 0xC0, 0x80, 0x41, 0x00, 0xC1, 0x81, 0x40],
    [0x00, 0xC1, 0x81, 0x40, 0x01, 0xC0, 0x80, 0x41, 0x01, 0xC0, 0x80, 0x41, 0x00, 0xC1, 0x81, 0x40],
    [0x01, 0xC0, 0x80, 0x41, 0x00, 0xC1, 0x81, 0x40, 0x00, 0xC1, 0x81, 0x40, 0x01, 0xC0, 0x80, 0x41],
    [0x01, 0xC0, 0x80, 0x41, 0x00, 0xC1, 0x81, 0x40, 0x00, 0xC1, 0x81, 0x40, 0x01, 0xC0, 0x80, 0x41],
    [0x00, 0xC1, 0x81, 0x40, 0x01, 0xC0, 0x80, 0x41, 0x01, 0xC0, 0x80, 0x41, 0x00, 0xC1, 0x81, 0x40],
    [0x00, 0xC1, 0x81, 0x40, 0x01, 0xC0, 0x80, 0x41, 0x01, 0xC0, 0x80, 0x41, 0x00, 0xC1, 0x81, 0x40],
    [0x01, 0xC0, 0x80, 0x41, 0x00, 0xC1, 0x81, 0x40, 0x00, 0xC1, 0x81, 0x40, 0x01, 0xC0, 0x80, 0x41],
    [0x00, 0xC1, 0x81, 0x40, 0x01, 0xC0, 0x80, 0x41, 0x01, 0xC0, 0x80, 0x41, 0x00, 0xC1, 0x81, 0x40],
    [0x01, 0xC0, 0x80, 0x41, 0x00, 0xC1, 0x81, 0x40, 0x00, 0xC1, 0x81, 0x40, 0x01, 0xC0, 0x80, 0x41],
    [0x01, 0xC0, 0x80, 0x41, 0x00, 0xC1, 0x81, 0x40, 0x00, 0xC1, 0x81, 0x40, 0x01, 0xC0, 0x80, 0x41],
    [0x00, 0xC1, 0x81, 0x40, 0x01, 0xC0, 0x80, 0x41, 0x01, 0xC0, 0x80, 0x41, 0x00, 0xC1, 0x81, 0x40]
  ]

  const TABLE_CRC_LO: seq<seq<bv8>> := [
    [0x00, 0xC0, 0xC1, 0x01, 0xC3, 0x03, 0x02, 0xC2, 0xC6, 0x06, 0x07, 0xC7, 0x05, 0xC5, 0xC4, 0x04],
    [0xCC, 0x0C, 0x0D, 0xCD, 0x0F, 0xCF, 0xCE, 0x0E, 0x0A, 0xCA, 0xCB, 0x0B, 0xC9, 0x09, 0x08, 0xC8],
    [0xD8, 0x18, 0x19, 0xD9, 0x1B, 0xDB, 0xDA, 0x1A, 0x1E, 0xDE, 0xDF, 0x1F, 0xDD, 0x1D, 0x1C, 0xDC],
    [0x14, 0xD4, 0xD5, 0x15, 0xD7, 0x17, 0x16, 0xD6, 0xD2, 0x12, 0x13, 0xD3, 0x11, 0xD1, 0xD0, 0x10],
    [0xF0, 0x30, 0x31, 0xF1, 0x33, 0xF3, 0xF2, 0x32, 0x36, 0xF6, 0xF7, 0x37, 0xF5, 0x35, 0x34, 0xF4],
    [0x3C, 0xFC, 0xFD, 0x3D, 0xFF, 0x3F, 0x3E, 0xFE, 0xFA, 0x3A, 0x3B, 0xFB, 0x39, 0xF9, 0xF8, 0x38],
    [0x28, 0xE8, 0xE9, 0x29, 0xEB, 0x2B, 0x2A, 0xEA, 0xEE, 0x2E, 0x2F, 0xEF, 0x2D, 0xED, 0xEC, 0x2C],
    [0xE4, 0x24, 0x25, 0xE5, 0x27, 0xE7, 0xE6, 0x26, 0x22, 0xE2, 0xE3, 0x23, 0xE1, 0x21, 0x20, 0xE0],
    [0xA0, 0x60, 0x61, 0xA1, 0x63, 0xA3, 0xA2, 0x62, 0x66, 0xA6, 0xA7, 0x67, 0xA5, 0x65, 0x64, 0xA4],
    [0x6C, 0xAC, 0xAD, 0x6D, 0xAF, 0x6F, 0x6E, 0xAE, 0xAA, 0x6A, 0x6B, 0xAB, 0x69, 0xA9, 0xA8, 0x68],
    [0x78, 0xB8, 0xB9, 0x79, 0xBB, 0x7B, 0x7A, 0xBA, 0xBE, 0x7E, 0x7F, 0xBF, 0x7D, 0xBD, 0xBC, 0x7C],
    [0xB4, 0x74, 0x75, 0xB5, 0x77, 0xB7, 0xB6, 0x76, 0x72, 0xB2, 0xB3, 0x73, 0xB1, 0x71, 0x70, 0xB0],
    [0x50, 0x90, 0x91, 0x51, 0x93, 0x53, 0x52, 0x92, 0x96, 0x56, 0x57, 0x97, 0x55, 0x95, 0x94, 0x54],
    [0x9C, 0x5C, 0x5D, 0x9D, 0x5F, 0x9F, 0x9E, 0x5E, 0x5A, 0x9A, 0x9B, 0x5B, 0x99, 0x59, 0x58, 0x98],
    [0x88, 0x48, 0x49, 0x89, 0x4B, 0x8B, 0x8A, 0x4A, 0x4E, 0x8E, 0x8F, 0x4F, 0x8D, 0x4D, 0x4C, 0x8C],
    [0x44, 0x84, 0x85, 0x45, 0x87, 0x47, 0x46, 0x86, 0x82, 0x42, 0x43, 0x83, 0x41, 0x81, 0x80, 0x40]
  ]

  /** MODBUS over Serial Line V1.02, section 6.2.2: shift right; if a 1 fell out, XOR with 0xA001. */
  function ShiftRight(r: bv16): bv16 {
    if r & 1 == 1 then (r >> 1) ^ 0xA001 else r >> 1
  }

  function Shifts(r: bv16, n: nat): bv16
    decreases n
  {
    if n == 0 then r else Shifts(ShiftRight(r), n - 1)
  }

  function LowHalfOf(r: bv16): bv8 {
    (r & 0xFF) as bv8
  }

  function HighHalfOf(r: bv16): bv8 {
    (r >> 8) as bv8
  }

  /** What eight shifts make of an index: the entries the tables should have. */
  function HiEntry(i: bv16): bv8 {
    LowHalfOf(Shifts(i, 8))
  }

  function LoEntry(i: bv16): bv8 {
    HighHalfOf(Shifts(i, 8))
  }

  lemma HiRow0()
    ensures TABLE_CRC_HI[0] ==
      [HiEntry(0), HiEntry(1), HiEntry(2), HiEntry(3), HiEntry(4), HiEntry(5), HiEntry(6), HiEntry(7),
       HiEntry(8), HiEntry(9), HiEntry(10), HiEntry(11), HiEntry(12), HiEntry(13), HiEntry(14), HiEntry(15)]
  {
  }

  lemma LoRow0()
    ensures TABLE_CRC_LO[0] ==
      [LoEntry(0), LoEntry(1), LoEntry(2), LoEntry(3), LoEntry(4), LoEntry(5), LoEntry(6), LoEntry(7),
       LoEntry(8), LoEntry(9), LoEntry(10), LoEntry(11), LoEntry(12), LoEntry(13), LoEntry(14), LoEntry(15)]
  {
  }

  lemma Row0(i: bv16)
    requires i >> 4 == 0
    ensures TABLE_CRC_HI[0][Column(i)] == HiEntry(i) && TABLE_CRC_LO[0][Column(i)] == LoEntry(i)
  {
    hide HiEntry, LoEntry;
    HiRow0();
    LoRow0();
    LowNibble(i);
    assert i == 0x00 | (i & 15);
  }

  lemma HiRow1()
    ensures TABLE_CRC_HI[1] ==
      [HiEntry(16), HiEntry(17), HiEntry(18), HiEntry(19), HiEntry(20), HiEntry(21), HiEntry(22), HiEntry(23),
       HiEntry(24), HiEntry(25), HiEntry(26), HiEntry(27), HiEntry(28), HiEntry(29), HiEntry(30), HiEntry(31)]
  {
  }

  lemma LoRow1()
    ensures TABLE_CRC_LO[1] ==
      [LoEntry(16), LoEntry(17), LoEntry(18), LoEntry(19), LoEntry(20), LoEntry(21), LoEntry(22), LoEntry(23),
       LoEntry(24), LoEntry(25), LoEntry(26), LoEntry(27), LoEntry(28), LoEntry(29), LoEntry(30), LoEntry(31)]
  {
  }

  lemma Row1(i: bv16)
    requires i >> 4 == 1
    ensures TABLE_CRC_HI[1][Column(i)] == HiEntry(i) && TABLE_CRC_LO[1][Column(i)] == LoEntry(i)
  {
    hide HiEntry, LoEntry;
    HiRow1();
    LoRow1();
    LowNibble(i);
    assert i == 0x10 | (i & 15);
  }

  lemma HiRow2()
    ensures TABLE_CRC_HI[2] ==
      [HiEntry(32), HiEntry(33), HiEntry(34), HiEntry(35), HiEntry(36), HiEntry(37), HiEntry(38), HiEntry(39),
       HiEntry(40), HiEntry(41), HiEntry(42), HiEntry(43), HiEntry(44), HiEntry(45), HiEntry(46), HiEntry(47)]
  {
  }

  lemma LoRow2()
    ensures TABLE_CRC_LO[2] ==
      [LoEntry(32), LoEntry(33), LoEntry(34), LoEntry(35), LoEntry(36), LoEntry(37), LoEntry(38), LoEntry(39),
       LoEntry(40), LoEntry(41), LoEntry(42), LoEntry(43), LoEntry(44), LoEntry(45), LoEntry(46), LoEntry(47)]
  {
  }

  lemma Row2(i: bv16)
    requires i >> 4 == 2
    ensures TABLE_CRC_HI[2][Column(i)] == HiEntry(i) && TABLE_CRC_LO[2][Column(i)] == LoEntry(i)
  {
    hide HiEntry, LoEntry;
    HiRow2();
    LoRow2();
    LowNibble(i);
    assert i == 0x20 | (i & 15);
  }

  lemma HiRow3()
    ensures TABLE_CRC_HI[3] ==
      [HiEntry(48), HiEntry(49), HiEntry(50), HiEntry(51), HiEntry(52), HiEntry(53), HiEntry(54), HiEntry(55),
       HiEntry(56), HiEntry(57), HiEntry(58), HiEntry(59), HiEntry(60), HiEntry(61), HiEntry(62), HiEntry(63)]
  {
  }

  lemma LoRow3()
    ensures TABLE_CRC_LO[3] ==
      [LoEntry(48), LoEntry(49), LoEntry(50), LoEntry(51), LoEntry(52), LoEntry(53), LoEntry(54), LoEntry(55),
       LoEntry(56), LoEntry(57), LoEntry(58), LoEntry(59), LoEntry(60), LoEntry(61), LoEntry(62), LoEntry(63)]
  {
  }

  lemma Row3(i: bv16)
    requires i >> 4 == 3
    ensures TABLE_CRC_HI[3][Column(i)] == HiEntry(i) && TABLE_CRC_LO[3][Column(i)] == LoEntry(i)
  {
    hide HiEntry, LoEntry;
    HiRow3();
    LoRow3();
    LowNibble(i);
    assert i == 0x30 | (i & 15);
  }

  lemma HiRow4()
    ensures TABLE_CRC_HI[4] ==
      [HiEntry(64), HiEntry(65), HiEntry(66), HiEntry(67), HiEntry(68), HiEntry(69), HiEntry(70), HiEntry(71),
       HiEntry(72), HiEntry(73), HiEntry(74), HiEntry(75), HiEntry(76), HiEntry(77), HiEntry(78), HiEntry(79)]
  {
  }

  lemma LoRow4()
    ensures TABLE_CRC_LO[4] ==
      [LoEntry(64), LoEntry(65), LoEntry(66), LoEntry(67), LoEntry(68), LoEntry(69), LoEntry(70), LoEntry(71),
       LoEntry(72), LoEntry(73), LoEntry(74), LoEntry(75), LoEntry(76), LoEntry(77), LoEntry(78), LoEntry(79)]
  {
  }

  lemma Row4(i: bv16)
    requires i >> 4 == 4
    ensures TABLE_CRC_HI[4][Column(i)] == HiEntry(i) && TABLE_CRC_LO[4][Column(i)] == LoEntry(i)
  {
    hide HiEntry, LoEntry;
    HiRow4();
    LoRow4();
    LowNibble(i);
    assert i == 0x40 | (i & 15);
  }

  lemma HiRow5()
    ensures TABLE_CRC_HI[5] ==
      [HiEntry(80), HiEntry(81), HiEntry(82), HiEntry(83), HiEntry(84), HiEntry(85), HiEntry(86), HiEntry(87),
       HiEntry(88), HiEntry(89), HiEntry(90), HiEntry(91), HiEntry(92), HiEntry(93), HiEntry(94), HiEntry(95)]
  {
  }

  lemma LoRow5()
    ensures TABLE_CRC_LO[5] ==
      [LoEntry(80), LoEntry(81), LoEntry(82), LoEntry(83), LoEntry(84), LoEntry(85), LoEntry(86), LoEntry(87),
       LoEntry(88), LoEntry(89), LoEntry(90), LoEntry(91), LoEntry(92), LoEntry(93), LoEntry(94), LoEntry(95)]
  {
  }

  lemma Row5(i: bv16)
    requires i >> 4 == 5
    ensures TABLE_CRC_HI[5][Column(i)] == HiEntry(i) && TABLE_CRC_LO[5][Column(i)] == LoEntry(i)
  {
    hide HiEntry, LoEntry;
    HiRow5();
    LoRow5();
    LowNibble(i);
    assert i == 0x50 | (i & 15);
  }

  lemma HiRow6()
    ensures TABLE_CRC_HI[6] ==
      [HiEntry(96), HiEntry(97), HiEntry(98), HiEntry(99), HiEntry(100), HiEntry(101), HiEntry(102), HiEntry(103),
       HiEntry(104), HiEntry(105), HiEntry(106), HiEntry(107), HiEntry(108), HiEntry(109), HiEntry(110), HiEntry(111)]
  {
  }

  lemma LoRow6()
    ensures TABLE_CRC_LO[6] ==
      [LoEntry(96), LoEntry(97), LoEntry(98), LoEntry(99), LoEntry(100), LoEntry(101), LoEntry(102), LoEntry(103),
       LoEntry(104), LoEntry(105), LoEntry(106), LoEntry(107), LoEntry(108), LoEntry(109), LoEntry(110), LoEntry(111)]
  {
  }

  lemma Row6(i: bv16)
    requires i >> 4 == 6
    ensures TABLE_CRC_HI[6][Column(i)] == HiEntry(i) && TABLE_CRC_LO[6][Column(i)] == LoEntry(i)
  {
    hide HiEntry, LoEntry;
    HiRow6();
    LoRow6();
    LowNibble(i);
    assert i == 0x60 | (i & 15);
  }

  lemma HiRow7()
    ensures TABLE_CRC_HI[7] ==
      [HiEntry(112), HiEntry(113), HiEntry(114), HiEntry(115), HiEntry(116), HiEntry(117), HiEntry(118), HiEntry(119),
       HiEntry(120), HiEntry(121), HiEntry(122), HiEntry(123), HiEntry(124), HiEntry(125), HiEntry(126), HiEntry(127)]
  {
  }

  lemma LoRow7()
    ensures TABLE_CRC_LO[7] ==
      [LoEntry(112), LoEntry(113), LoEntry(114), LoEntry(115), LoEntry(116), LoEntry(117), LoEntry(118), LoEntry(119),
       LoEntry(120), LoEntry(121), LoEntry(122), LoEntry(123), LoEntry(124), LoEntry(125), LoEntry(126), LoEntry(127)]
  {
  }

  lemma Row7(i: bv16)
    requires i >> 4 == 7
    ensures TABLE_CRC_HI[7][Column(i)] == HiEntry(i) && TABLE_CRC_LO[7][Column(i)] == LoEntry(i)
  {
    hide HiEntry, LoEntry;
    HiRow7();
    LoRow7();
    LowNibble(i);
    assert i == 0x70 | (i & 15);
  }

  lemma HiRow8()
    ensures TABLE_CRC_HI[8] ==
      [HiEntry(128), HiEntry(129), HiEntry(130), HiEntry(131), HiEntry(132), HiEntry(133), HiEntry(134), HiEntry(135),
       HiEntry(136), HiEntry(137), HiEntry(138), HiEntry(139), HiEntry(140), HiEntry(141), HiEntry(142), HiEntry(143)]
  {
  }

  lemma LoRow8()
    ensures TABLE_CRC_LO[8] ==
      [LoEntry(128), LoEntry(129), LoEntry(130), LoEntry(131), LoEntry(132), LoEntry(133), LoEntry(134), LoEntry(135),
       LoEntry(136), LoEntry(137), LoEntry(138), LoEntry(139), LoEntry(140), LoEntry(141), LoEntry(142), LoEntry(143)]
  {
  }

  lemma Row8(i: bv16)
    requires i >> 4 == 8
    ensures TABLE_CRC_HI[8][Column(i)] == HiEntry(i) && TABLE_CRC_LO[8][Column(i)] == LoEntry(i)
  {
    hide HiEntry, LoEntry;
    HiRow8();
    LoRow8();
    LowNibble(i);
    assert i == 0x80 | (i & 15);
  }

  lemma HiRow9()
    ensures TABLE_CRC_HI[9] ==
      [HiEntry(144), HiEntry(145), HiEntry(146), HiEntry(147), HiEntry(148), HiEntry(149), HiEntry(150), HiEntry(151),
       HiEntry(152), HiEntry(153), HiEntry(154), HiEntry(155), HiEntry(156), HiEntry(157), HiEntry(158), HiEntry(159)]
  {
  }

  lemma LoRow9()
    ensures TABLE_CRC_LO[9] ==
      [LoEntry(144), LoEntry(145), LoEntry(146), LoEntry(147), LoEntry(148), LoEntry(149), LoEntry(150), LoEntry(151),
       LoEntry(152), LoEntry(153), LoEntry(154), LoEntry(155), LoEntry(156), LoEntry(157), LoEntry(158), LoEntry(159)]
  {
  }

  lemma Row9(i: bv16)
    requires i >> 4 == 9
    ensures TABLE_CRC_HI[9][Column(i)] == HiEntry(i) && TABLE_CRC_LO[9][Column(i)] == LoEntry(i)
  {
    hide HiEntry, LoEntry;
    HiRow9();
    LoRow9();
    LowNibble(i);
    assert i == 0x90 | (i & 15);
  }

  lemma HiRow10()
    ensures TABLE_CRC_HI[10] ==
      [HiEntry(160), HiEntry(161), HiEntry(162), HiEntry(163), HiEntry(164), HiEntry(165), HiEntry(166), HiEntry(167),
       HiEntry(168), HiEntry(169), HiEntry(170), HiEntry(171), HiEntry(172), HiEntry(173), HiEntry(174), HiEntry(175)]
  {
  }

  lemma LoRow10()
    ensures TABLE_CRC_LO[10] ==
      [LoEntry(160), LoEntry(161), LoEntry(162), LoEntry(163), LoEntry(164), LoEntry(165), LoEntry(166), LoEntry(167),
       LoEntry(168), LoEntry(169), LoEntry(170), LoEntry(171), LoEntry(172), LoEntry(173), LoEntry(174), LoEntry(175)]
  {
  }

  lemma Row10(i: bv16)
    requires i >> 4 == 10
    ensures TABLE_CRC_HI[10][Column(i)] == HiEntry(i) && TABLE_CRC_LO[10][Column(i)] == LoEntry(i)
  {
    hide HiEntry, LoEntry;
    HiRow10();
    LoRow10();
    LowNibble(i);
    assert i == 0xA0 | (i & 15);
  }

  lemma HiRow11()
    ensures TABLE_CRC_HI[11] ==
      [HiEntry(176), HiEntry(177), HiEntry(178), HiEntry(179), HiEntry(180), HiEntry(181), HiEntry(182), HiEntry(183),
       HiEntry(184), HiEntry(185), HiEntry(186), HiEntry(187), HiEntry(188), HiEntry(189), HiEntry(190), HiEntry(191)]
  {
  }

  lemma LoRow11()
    ensures TABLE_CRC_LO[11] ==
      [LoEntry(176), LoEntry(177), LoEntry(178), LoEntry(179), LoEntry(180), LoEntry(181), LoEntry(182), LoEntry(183),
       LoEntry(184), LoEntry(185), LoEntry(186), LoEntry(187), LoEntry(188), LoEntry(189), LoEntry(190), LoEntry(191)]
  {
  }

  lemma Row11(i: bv16)
    requires i >> 4 == 11
    ensures TABLE_CRC_HI[11][Column(i)] == HiEntry(i) && TABLE_CRC_LO[11][Column(i)] == LoEntry(i)
  {
    hide HiEntry, LoEntry;
    HiRow11();
    LoRow11();
    LowNibble(i);
    assert i == 0xB0 | (i & 15);
  }

  lemma HiRow12()
    ensures TABLE_CRC_HI[12] ==
      [HiEntry(192), HiEntry(193), HiEntry(194), HiEntry(195), HiEntry(196), HiEntry(197), HiEntry(198), HiEntry(199),
       HiEntry(200), HiEntry(201), HiEntry(202), HiEntry(203), HiEntry(204), HiEntry(205), HiEntry(206), HiEntry(207)]
  {
  }

  lemma LoRow12()
    ensures TABLE_CRC_LO[12] ==
      [LoEntry(192), LoEntry(193), LoEntry(194), LoEntry(195), LoEntry(196), LoEntry(197), LoEntry(198), LoEntry(199),
       LoEntry(200), LoEntry(201), LoEntry(202), LoEntry(203), LoEntry(204), LoEntry(205), LoEntry(206), LoEntry(207)]
  {
  }

  lemma Row12(i: bv16)
    requires i >> 4 == 12
    ensures TABLE_CRC_HI[12][Column(i)] == HiEntry(i) && TABLE_CRC_LO[12][Column(i)] == LoEntry(i)
  {
    hide HiEntry, LoEntry;
    HiRow12();
    LoRow12();
    LowNibble(i);
    assert i == 0xC0 | (i & 15);
  }

  lemma HiRow13()
    ensures TABLE_CRC_HI[13] ==
      [HiEntry(208), HiEntry(209), HiEntry(210), HiEntry(211), HiEntry(212), HiEntry(213), HiEntry(214), HiEntry(215),
       HiEntry(216), HiEntry(217), HiEntry(218), HiEntry(219), HiEntry(220), HiEntry(221), HiEntry(222), HiEntry(223)]
  {
  }

  lemma LoRow13()
    ensures TABLE_CRC_LO[13] ==
      [LoEntry(208), LoEntry(209), LoEntry(210), LoEntry(211), LoEntry(212), LoEntry(213), LoEntry(214), LoEntry(215),
       LoEntry(216), LoEntry(217), LoEntry(218), LoEntry(219), LoEntry(220), LoEntry(221), LoEntry(222), LoEntry(223)]
  {
  }

  lemma Row13(i: bv16)
    requires i >> 4 == 13
    ensures TABLE_CRC_HI[13][Column(i)] == HiEntry(i) && TABLE_CRC_LO[13][Column(i)] == LoEntry(i)
  {
    hide HiEntry, LoEntry;
    HiRow13();
    LoRow13();
    LowNibble(i);
    assert i == 0xD0 | (i & 15);
  }

  lemma HiRow14()
    ensures TABLE_CRC_HI[14] ==
      [HiEntry(224), HiEntry(225), HiEntry(226), HiEntry(227), HiEntry(228), HiEntry(229), HiEntry(230), HiEntry(231),
       HiEntry(232), HiEntry(233), HiEntry(234), HiEntry(235), HiEntry(236), HiEntry(237), HiEntry(238), HiEntry(239)]
  {
  }

  lemma LoRow14()
    ensures TABLE_CRC_LO[14] ==
      [LoEntry(224), LoEntry(225), LoEntry(226), LoEntry(227), LoEntry(228), LoEntry(229), LoEntry(230), LoEntry(231),
       LoEntry(232), LoEntry(233), LoEntry(234), LoEntry(235), LoEntry(236), LoEntry(237), LoEntry(238), LoEntry(239)]
  {
  }

  lemma Row14(i: bv16)
    requires i >> 4 == 14
    ensures TABLE_CRC_HI[14][Column(i)] == HiEntry(i) && TABLE_CRC_LO[14][Column(i)] == LoEntry(i)
  {
    hide HiEntry, LoEntry;
    HiRow14();
    LoRow14();
    LowNibble(i);
    assert i == 0xE0 | (i & 15);
  }

  lemma HiRow15()
    ensures TABLE_CRC_HI[15] ==
      [HiEntry(240), HiEntry(241), HiEntry(242), HiEntry(243), HiEntry(244), HiEntry(245), HiEntry(246), HiEntry(247),
       HiEntry(248), HiEntry(249), HiEntry(250), HiEntry(251), HiEntry(252), HiEntry(253), HiEntry(254), HiEntry(255)]
  {
  }

  lemma LoRow15()
    ensures TABLE_CRC_LO[15] ==
      [LoEntry(240), LoEntry(241), LoEntry(242), LoEntry(243), LoEntry(244), LoEntry(245), LoEntry(246), LoEntry(247),
       LoEntry(248), LoEntry(249), LoEntry(250), LoEntry(251), LoEntry(252), LoEntry(253), LoEntry(254), LoEntry(255)]
  {
  }

  lemma Row15(i: bv16)
    requires i >> 4 == 15
    ensures TABLE_CRC_HI[15][Column(i)] == HiEntry(i) && TABLE_CRC_LO[15][Column(i)] == LoEntry(i)
  {
    hide HiEntry, LoEntry;
    HiRow15();
    LoRow15();
    LowNibble(i);
    assert i == 0xF0 | (i & 15);
  }

  lemma TableShape(i: bv16)
    requires i < 256
    ensures Row(i) < 16 == |TABLE_CRC_HI| == |TABLE_CRC_LO| && Column(i) < 16
    ensures |TABLE_CRC_HI[Row(i)]| == |TABLE_CRC_LO[Row(i)]| == 16
  {
    HighNibble(i);
    LowNibble(i);
  }

  function TableHi(i: bv16): bv8
    requires i < 256
  {
    TableShape(i);
    TABLE_CRC_HI[Row(i)][Column(i)]
  }

  function TableLo(i: bv16): bv8
    requires i < 256
  {
    TableShape(i);
    TABLE_CRC_LO[Row(i)][Column(i)]
  }

  /** Every entry of both tables is eight shifts of its index. */
  lemma TableMatches(i: bv16)
    requires i < 256
    ensures TableHi(i) == HiEntry(i) && TableLo(i) == LoEntry(i)
  {
    hide HiEntry, LoEntry;
    TableShape(i);
    HighNibble(i);
    if i >> 4 == 0 {
      Row0(i);
    } else if i >> 4 == 1 {
      Row1(i);
    } else if i >> 4 == 2 {
      Row2(i);
    } else if i >> 4 == 3 {
      Row3(i);
    } else if i >> 4 == 4 {
      Row4(i);
    } else if i >> 4 == 5 {
      Row5(i);
    } else if i >> 4 == 6 {
      Row6(i);
    } else if i >> 4 == 7 {
      Row7(i);
    } else if i >> 4 == 8 {
      Row8(i);
    } else if i >> 4 == 9 {
      Row9(i);
    } else if i >> 4 == 10 {
      Row10(i);
    } else if i >> 4 == 11 {
      Row11(i);
    } else if i >> 4 == 12 {
      Row12(i);
    } else if i >> 4 == 13 {
      Row13(i);
    } else if i >> 4 == 14 {
      Row14(i);
    } else if i >> 4 == 15 {
      Row15(i);
    }
  }
}
