/** The checksum table of `SpiCrcString`, entry by entry. */
module SpiCrcTable {
  import opened TableIndex

  /** The table of `SpiCrcString`, in rows of 16. */
  const SPI_CRC16TABLE: seq<seq<bv16>> := [
    [0, 1408, 3968, 2560, 7040, 7680, 5120, 4480, 13184, 13824, 15360, 14720, 10240, 11648, 10112, 8704],
    [25472, 26112, 27648, 27008, 30720, 32128, 30592, 29184, 20480, 21888, 24448, 23040, 19328, 19968, 17408, 16768],
    [50048, 50688, 52224, 51584, 55296, 56704, 55168, 53760, 61440, 62848, 65408, 64000, 60288, 60928, 58368, 57728],
    [40960, 42368, 44928, 43520, 48000, 48640, 46080, 45440, 37760, 38400, 39936, 39296, 34816, 36224, 34688, 33280],
    [33665, 34305, 35841, 35201, 38913, 40321, 38785, 37377, 45057, 46465, 49025, 47617, 43905, 44545, 41985, 41345],
    [57345, 58753, 61313, 59905, 64385, 65025, 62465, 61825, 54145, 54785, 56321, 55681, 51201, 52609, 51073, 49665],
    [16385, 17793, 20353, 18945, 23425, 24065, 21505, 20865, 29569, 30209, 31745, 31105, 26625, 28033, 26497, 25089],
    [9089, 9729, 11265, 10625, 14337, 15745, 14209, 12801, 4097, 5505, 8065, 6657, 2945, 3585, 1025, 385],
    [899, 1539, 3075, 2435, 6147, 7555, 6019, 4611, 12291, 13699, 16259, 14851, 11139, 11779, 9219, 8579],
    [24579, 25987, 28547, 27139, 31619, 32259, 29699, 29059, 21379, 22019, 23555, 22915, 18435, 19843, 18307, 16899],
    [49155, 50563, 53123, 51715, 56195, 56835, 54275, 53635, 62339, 62979, 64515, 63875, 59395, 60803, 59267, 57859],
    [41859, 42499, 44035, 43395, 47107, 48515, 46979, 45571, 36867, 38275, 40835, 39427, 35715, 36355, 33795, 33155],
    [32770, 34178, 36738, 35330, 39810, 40450, 37890, 37250, 45954, 46594, 48130, 47490, 43010, 44418, 42882, 41474],
    [58242, 58882, 60418, 59778, 63490, 64898, 63362, 61954, 53250, 54658, 57218, 55810, 52098, 52738, 50178, 49538],
    [17282, 17922, 19458, 18818, 22530, 23938, 22402, 20994, 28674, 30082, 32642, 31234, 27522, 28162, 25602, 24962],
    [8194, 9602, 12162, 10754, 15234, 15874, 13314, 12674, 4994, 5634, 7170, 6530, 2050, 3458, 1922, 514]
  ]

  /** The bitwise definition, polynomial 0x8005, most significant bit first. */
  function ShiftLeft(r: bv16): bv16 {
    if r & 0x8000 != 0 then (r << 1) ^ 0x8005 else r << 1
  }

  function Shifts(r: bv16, n: nat): bv16
    decreases n
  {
    if n == 0 then r else Shifts(ShiftLeft(r), n - 1)
  }

  function Swap(r: bv16): bv16 {
    (r >> 8) | (r << 8)
  }

  function Up(s: bv16): bv16 {
    s << 8
  }

  /** The table entry for an index: eight shifts of it, from the high half. */
  function Entry(i: bv16): bv16 {
    Swap(Shifts(Up(i), 8))
  }

  lemma Entries0()
    ensures SPI_CRC16TABLE[0] ==
      [Entry(0), Entry(1), Entry(2), Entry(3), Entry(4), Entry(5), Entry(6), Entry(7),
       Entry(8), Entry(9), Entry(10), Entry(11), Entry(12), Entry(13), Entry(14), Entry(15)]
  {
  }

  lemma Row0(i: bv16)
    requires i >> 4 == 0
    ensures SPI_CRC16TABLE[0][Column(i)] == Entry(i)
  {
    hide Entry;
    Entries0();
    LowNibble(i);
    assert i == 0x00 | (i & 15);
  }

  lemma Entries1()
    ensures SPI_CRC16TABLE[1] ==
      [Entry(16), Entry(17), Entry(18), Entry(19), Entry(20), Entry(21), Entry(22), Entry(23),
       Entry(24), Entry(25), Entry(26), Entry(27), Entry(28), Entry(29), Entry(30), Entry(31)]
  {
  }

  lemma Row1(i: bv16)
    requires i >> 4 == 1
    ensures SPI_CRC16TABLE[1][Column(i)] == Entry(i)
  {
    hide Entry;
    Entries1();
    LowNibble(i);
    assert i == 0x10 | (i & 15);
  }

  lemma Entries2()
    ensures SPI_CRC16TABLE[2] ==
      [Entry(32), Entry(33), Entry(34), Entry(35), Entry(36), Entry(37), Entry(38), Entry(39),
       Entry(40), Entry(41), Entry(42), Entry(43), Entry(44), Entry(45), Entry(46), Entry(47)]
  {
  }

  lemma Row2(i: bv16)
    requires i >> 4 == 2
    ensures SPI_CRC16TABLE[2][Column(i)] == Entry(i)
  {
    hide Entry;
    Entries2();
    LowNibble(i);
    assert i == 0x20 | (i & 15);
  }

  lemma Entries3()
    ensures SPI_CRC16TABLE[3] ==
      [Entry(48), Entry(49), Entry(50), Entry(51), Entry(52), Entry(53), Entry(54), Entry(55),
       Entry(56), Entry(57), Entry(58), Entry(59), Entry(60), Entry(61), Entry(62), Entry(63)]
  {
  }

  lemma Row3(i: bv16)
    requires i >> 4 == 3
    ensures SPI_CRC16TABLE[3][Column(i)] == Entry(i)
  {
    hide Entry;
    Entries3();
    LowNibble(i);
    assert i == 0x30 | (i & 15);
  }

  lemma Entries4()
    ensures SPI_CRC16TABLE[4] ==
      [Entry(64), Entry(65), Entry(66), Entry(67), Entry(68), Entry(69), Entry(70), Entry(71),
       Entry(72), Entry(73), Entry(74), Entry(75), Entry(76), Entry(77), Entry(78), Entry(79)]
  {
  }

  lemma Row4(i: bv16)
    requires i >> 4 == 4
    ensures SPI_CRC16TABLE[4][Column(i)] == Entry(i)
  {
    hide Entry;
    Entries4();
    LowNibble(i);
    assert i == 0x40 | (i & 15);
  }

  lemma Entries5()
    ensures SPI_CRC16TABLE[5] ==
      [Entry(80), Entry(81), Entry(82), Entry(83), Entry(84), Entry(85), Entry(86), Entry(87),
       Entry(88), Entry(89), Entry(90), Entry(91), Entry(92), Entry(93), Entry(94), Entry(95)]
  {
  }

  lemma Row5(i: bv16)
    requires i >> 4 == 5
    ensures SPI_CRC16TABLE[5][Column(i)] == Entry(i)
  {
    hide Entry;
    Entries5();
    LowNibble(i);
    assert i == 0x50 | (i & 15);
  }

  lemma Entries6()
    ensures SPI_CRC16TABLE[6] ==
      [Entry(96), Entry(97), Entry(98), Entry(99), Entry(100), Entry(101), Entry(102), Entry(103),
       Entry(104), Entry(105), Entry(106), Entry(107), Entry(108), Entry(109), Entry(110), Entry(111)]
  {
  }

  lemma Row6(i: bv16)
    requires i >> 4 == 6
    ensures SPI_CRC16TABLE[6][Column(i)] == Entry(i)
  {
    hide Entry;
    Entries6();
    LowNibble(i);
    assert i == 0x60 | (i & 15);
  }

  lemma Entries7()
    ensures SPI_CRC16TABLE[7] ==
      [Entry(112), Entry(113), Entry(114), Entry(115), Entry(116), Entry(117), Entry(118), Entry(119),
       Entry(120), Entry(121), Entry(122), Entry(123), Entry(124), Entry(125), Entry(126), Entry(127)]
  {
  }

  lemma Row7(i: bv16)
    requires i >> 4 == 7
    ensures SPI_CRC16TABLE[7][Column(i)] == Entry(i)
  {
    hide Entry;
    Entries7();
    LowNibble(i);
    assert i == 0x70 | (i & 15);
  }

  lemma Entries8()
    ensures SPI_CRC16TABLE[8] ==
      [Entry(128), Entry(129), Entry(130), Entry(131), Entry(132), Entry(133), Entry(134), Entry(135),
       Entry(136), Entry(137), Entry(138), Entry(139), Entry(140), Entry(141), Entry(142), Entry(143)]
  {
  }

  lemma Row8(i: bv16)
    requires i >> 4 == 8
    ensures SPI_CRC16TABLE[8][Column(i)] == Entry(i)
  {
    hide Entry;
    Entries8();
    LowNibble(i);
    assert i == 0x80 | (i & 15);
  }

  lemma Entries9()
    ensures SPI_CRC16TABLE[9] ==
      [Entry(144), Entry(145), Entry(146), Entry(147), Entry(148), Entry(149), Entry(150), Entry(151),
       Entry(152), Entry(153), Entry(154), Entry(155), Entry(156), Entry(157), Entry(158), Entry(159)]
  {
  }

  lemma Row9(i: bv16)
    requires i >> 4 == 9
    ensures SPI_CRC16TABLE[9][Column(i)] == Entry(i)
  {
    hide Entry;
    Entries9();
    LowNibble(i);
    assert i == 0x90 | (i & 15);
  }

  lemma Entries10()
    ensures SPI_CRC16TABLE[10] ==
      [Entry(160), Entry(161), Entry(162), Entry(163), Entry(164), Entry(165), Entry(166), Entry(167),
       Entry(168), Entry(169), Entry(170), Entry(171), Entry(172), Entry(173), Entry(174), Entry(175)]
  {
  }

  lemma Row10(i: bv16)
    requires i >> 4 == 10
    ensures SPI_CRC16TABLE[10][Column(i)] == Entry(i)
  {
    hide Entry;
    Entries10();
    LowNibble(i);
    assert i == 0xA0 | (i & 15);
  }

  lemma Entries11()
    ensures SPI_CRC16TABLE[11] ==
      [Entry(176), Entry(177), Entry(178), Entry(179), Entry(180), Entry(181), Entry(182), Entry(183),
       Entry(184), Entry(185), Entry(186), Entry(187), Entry(188), Entry(189), Entry(190), Entry(191)]
  {
  }

  lemma Row11(i: bv16)
    requires i >> 4 == 11
    ensures SPI_CRC16TABLE[11][Column(i)] == Entry(i)
  {
    hide Entry;
    Entries11();
    LowNibble(i);
    assert i == 0xB0 | (i & 15);
  }

  lemma Entries12()
    ensures SPI_CRC16TABLE[12] ==
      [Entry(192), Entry(193), Entry(194), Entry(195), Entry(196), Entry(197), Entry(198), Entry(199),
       Entry(200), Entry(201), Entry(202), Entry(203), Entry(204), Entry(205), Entry(206), Entry(207)]
  {
  }

  lemma Row12(i: bv16)
    requires i >> 4 == 12
    ensures SPI_CRC16TABLE[12][Column(i)] == Entry(i)
  {
    hide Entry;
    Entries12();
    LowNibble(i);
    assert i == 0xC0 | (i & 15);
  }

  lemma Entries13()
    ensures SPI_CRC16TABLE[13] ==
      [Entry(208), Entry(209), Entry(210), Entry(211), Entry(212), Entry(213), Entry(214), Entry(215),
       Entry(216), Entry(217), Entry(218), Entry(219), Entry(220), Entry(221), Entry(222), Entry(223)]
  {
  }

  lemma Row13(i: bv16)
    requires i >> 4 == 13
    ensures SPI_CRC16TABLE[13][Column(i)] == Entry(i)
  {
    hide Entry;
    Entries13();
    LowNibble(i);
    assert i == 0xD0 | (i & 15);
  }

  lemma Entries14()
    ensures SPI_CRC16TABLE[14] ==
      [Entry(224), Entry(225), Entry(226), Entry(227), Entry(228), Entry(229), Entry(230), Entry(231),
       Entry(232), Entry(233), Entry(234), Entry(235), Entry(236), Entry(237), Entry(238), Entry(239)]
  {
  }

  lemma Row14(i: bv16)
    requires i >> 4 == 14
    ensures SPI_CRC16TABLE[14][Column(i)] == Entry(i)
  {
    hide Entry;
    Entries14();
    LowNibble(i);
    assert i == 0xE0 | (i & 15);
  }

  lemma Entries15()
    ensures SPI_CRC16TABLE[15] ==
      [Entry(240), Entry(241), Entry(242), Entry(243), Entry(244), Entry(245), Entry(246), Entry(247),
       Entry(248), Entry(249), Entry(250), Entry(251), Entry(252), Entry(253), Entry(254), Entry(255)]
  {
  }

  lemma Row15(i: bv16)
    requires i >> 4 == 15
    ensures SPI_CRC16TABLE[15][Column(i)] == Entry(i)
  {
    hide Entry;
    Entries15();
    LowNibble(i);
    assert i == 0xF0 | (i & 15);
  }

  lemma TableShape(i: bv16)
    requires i < 256
    ensures Row(i) < 16 == |SPI_CRC16TABLE| && Column(i) < 16 == |SPI_CRC16TABLE[Row(i)]|
  {
    HighNibble(i);
    LowNibble(i);
  }

  function TableEntry(i: bv16): bv16
    requires i < 256
  {
    TableShape(i);
    SPI_CRC16TABLE[Row(i)][Column(i)]
  }

  /** Every entry of the table is eight shifts of its index. */
  lemma TableMatches(i: bv16)
    requires i < 256
    ensures TableEntry(i) == Entry(i)
  {
    hide Entry;
    TableShape(i);
    HighNibble(i);
    if i >> 4 == 0 {
      Row0(i);
    } else if i >> 4 == 1 {
      Row1(i);
    } else if i >> 4 == 2 {
      Row2(i);
    } else if i >> 4 == 3 {
      Row3(i);
    } else if i >> 4 == 4 {
      Row4(i);
    } else if i >> 4 == 5 {
      Row5(i);
    } else if i >> 4 == 6 {
      Row6(i);
    } else if i >> 4 == 7 {
      Row7(i);
    } else if i >> 4 == 8 {
      Row8(i);
    } else if i >> 4 == 9 {
      Row9(i);
    } else if i >> 4 == 10 {
      Row10(i);
    } else if i >> 4 == 11 {
      Row11(i);
    } else if i >> 4 == 12 {
      Row12(i);
    } else if i >> 4 == 13 {
      Row13(i);
    } else if i >> 4 == 14 {
      Row14(i);
    } else if i >> 4 == 15 {
      Row15(i);
    }
  }
}
