/*
 * Why the CRC table computes the GDL-90 CRC: entry i of the table is
 * i * x^16 modulo P(x) = x^16 + x^12 + x^5 + 1, so one table step multiplies
 * the register by x^8 and adds the byte, and the CRC of a message is the
 * remainder of the message polynomial modulo P.
 */
module CrcPolynomial {
  import opened Bytes
  import opened Framing
  import opened CrcAlgebra

  /*
   * Looking up an entry of the table: one lemma per join of two halves.
   */

  lemma {:induction false} SplitTable(i: int)
    requires 0 <= i < 256
    ensures CrcTable[i] == if i < 128 then CrcHalf0[i] else CrcHalf1[i - 128]
  {
    assert |CrcHalf0| == 128;
  }

  lemma {:induction false} SplitHalf0(i: int)
    requires 0 <= i < 128
    ensures CrcHalf0[i] == if i < 64 then CrcQuarter0[i] else CrcQuarter1[i - 64]
  {
    assert |CrcQuarter0| == 64;
  }

  lemma {:induction false} SplitHalf1(i: int)
    requires 0 <= i < 128
    ensures CrcHalf1[i] == if i < 64 then CrcQuarter2[i] else CrcQuarter3[i - 64]
  {
    assert |CrcQuarter2| == 64;
  }

  lemma {:induction false} SplitQuarter0(i: int)
    requires 0 <= i < 64
    ensures CrcQuarter0[i] == if i < 32 then CrcPair0[i] else CrcPair1[i - 32]
  {
    assert |CrcPair0| == 32;
  }

  lemma {:induction false} SplitQuarter1(i: int)
    requires 0 <= i < 64
    ensures CrcQuarter1[i] == if i < 32 then CrcPair2[i] else CrcPair3[i - 32]
  {
    assert |CrcPair2| == 32;
  }

  lemma {:induction false} SplitQuarter2(i: int)
    requires 0 <= i < 64
    ensures CrcQuarter2[i] == if i < 32 then CrcPair4[i] else CrcPair5[i - 32]
  {
    assert |CrcPair4| == 32;
  }

  lemma {:induction false} SplitQuarter3(i: int)
    requires 0 <= i < 64
    ensures CrcQuarter3[i] == if i < 32 then CrcPair6[i] else CrcPair7[i - 32]
  {
    assert |CrcPair6| == 32;
  }

  lemma {:induction false} SplitPair0(i: int)
    requires 0 <= i < 32
    ensures CrcPair0[i] == if i < 16 then CrcRow0[i] else CrcRow1[i - 16]
  {
    assert |CrcRow0| == 16;
  }

  lemma {:induction false} SplitPair1(i: int)
    requires 0 <= i < 32
    ensures CrcPair1[i] == if i < 16 then CrcRow2[i] else CrcRow3[i - 16]
  {
    assert |CrcRow2| == 16;
  }

  lemma {:induction false} SplitPair2(i: int)
    requires 0 <= i < 32
    ensures CrcPair2[i] == if i < 16 then CrcRow4[i] else CrcRow5[i - 16]
  {
    assert |CrcRow4| == 16;
  }

  lemma {:induction false} SplitPair3(i: int)
    requires 0 <= i < 32
    ensures CrcPair3[i] == if i < 16 then CrcRow6[i] else CrcRow7[i - 16]
  {
    assert |CrcRow6| == 16;
  }

  lemma {:induction false} SplitPair4(i: int)
    requires 0 <= i < 32
    ensures CrcPair4[i] == if i < 16 then CrcRow8[i] else CrcRow9[i - 16]
  {
    assert |CrcRow8| == 16;
  }

  lemma {:induction false} SplitPair5(i: int)
    requires 0 <= i < 32
    ensures CrcPair5[i] == if i < 16 then CrcRow10[i] else CrcRow11[i - 16]
  {
    assert |CrcRow10| == 16;
  }

  lemma {:induction false} SplitPair6(i: int)
    requires 0 <= i < 32
    ensures CrcPair6[i] == if i < 16 then CrcRow12[i] else CrcRow13[i - 16]
  {
    assert |CrcRow12| == 16;
  }

  lemma {:induction false} SplitPair7(i: int)
    requires 0 <= i < 32
    ensures CrcPair7[i] == if i < 16 then CrcRow14[i] else CrcRow15[i - 16]
  {
    assert |CrcRow14| == 16;
  }

  /** Row 0 of the table holds i * x^16 mod P for i = 0 .. 15. */
  lemma {:induction false} RowEntries0(h: bv16)
    requires 0 <= h < 16
    ensures CrcRow0[(h - 0) as int] == MulX8(MulX8(h))
  {
    if h == 0 { assert CrcRow0[0] == MulX8(MulX8(0)); }
    else if h == 1 { assert CrcRow0[1] == MulX8(MulX8(1)); }
    else if h == 2 { assert CrcRow0[2] == MulX8(MulX8(2)); }
    else if h == 3 { assert CrcRow0[3] == MulX8(MulX8(3)); }
    else if h == 4 { assert CrcRow0[4] == MulX8(MulX8(4)); }
    else if h == 5 { assert CrcRow0[5] == MulX8(MulX8(5)); }
    else if h == 6 { assert CrcRow0[6] == MulX8(MulX8(6)); }
    else if h == 7 { assert CrcRow0[7] == MulX8(MulX8(7)); }
    else if h == 8 { assert CrcRow0[8] == MulX8(MulX8(8)); }
    else if h == 9 { assert CrcRow0[9] == MulX8(MulX8(9)); }
    else if h == 10 { assert CrcRow0[10] == MulX8(MulX8(10)); }
    else if h == 11 { assert CrcRow0[11] == MulX8(MulX8(11)); }
    else if h == 12 { assert CrcRow0[12] == MulX8(MulX8(12)); }
    else if h == 13 { assert CrcRow0[13] == MulX8(MulX8(13)); }
    else if h == 14 { assert CrcRow0[14] == MulX8(MulX8(14)); }
    else if h == 15 { assert CrcRow0[15] == MulX8(MulX8(15)); }
  }

  lemma {:induction false} TableRow0(h: bv16)
    requires 0 <= h < 16
    ensures CrcTable[h as int] == MulXPow(h, 16)
  {
    SplitTable(h as int);
    SplitHalf0(h as int);
    SplitQuarter0(h as int);
    SplitPair0(h as int);
    RowEntries0(h);
    Pow16(h);
  }

  /** Row 1 of the table holds i * x^16 mod P for i = 16 .. 31. */
  lemma {:induction false} RowEntries1(h: bv16)
    requires 16 <= h < 32
    ensures CrcRow1[(h - 16) as int] == MulX8(MulX8(h))
  {
    if h == 16 { assert CrcRow1[0] == MulX8(MulX8(16)); }
    else if h == 17 { assert CrcRow1[1] == MulX8(MulX8(17)); }
    else if h == 18 { assert CrcRow1[2] == MulX8(MulX8(18)); }
    else if h == 19 { assert CrcRow1[3] == MulX8(MulX8(19)); }
    else if h == 20 { assert CrcRow1[4] == MulX8(MulX8(20)); }
    else if h == 21 { assert CrcRow1[5] == MulX8(MulX8(21)); }
    else if h == 22 { assert CrcRow1[6] == MulX8(MulX8(22)); }
    else if h == 23 { assert CrcRow1[7] == MulX8(MulX8(23)); }
    else if h == 24 { assert CrcRow1[8] == MulX8(MulX8(24)); }
    else if h == 25 { assert CrcRow1[9] == MulX8(MulX8(25)); }
    else if h == 26 { assert CrcRow1[10] == MulX8(MulX8(26)); }
    else if h == 27 { assert CrcRow1[11] == MulX8(MulX8(27)); }
    else if h == 28 { assert CrcRow1[12] == MulX8(MulX8(28)); }
    else if h == 29 { assert CrcRow1[13] == MulX8(MulX8(29)); }
    else if h == 30 { assert CrcRow1[14] == MulX8(MulX8(30)); }
    else if h == 31 { assert CrcRow1[15] == MulX8(MulX8(31)); }
  }

  lemma {:induction false} TableRow1(h: bv16)
    requires 16 <= h < 32
    ensures CrcTable[h as int] == MulXPow(h, 16)
  {
    SplitTable(h as int);
    SplitHalf0(h as int);
    SplitQuarter0(h as int);
    SplitPair0(h as int);
    RowEntries1(h);
    Pow16(h);
  }

  /** Row 2 of the table holds i * x^16 mod P for i = 32 .. 47. */
  lemma {:induction false} RowEntries2(h: bv16)
    requires 32 <= h < 48
    ensures CrcRow2[(h - 32) as int] == MulX8(MulX8(h))
  {
    if h == 32 { assert CrcRow2[0] == MulX8(MulX8(32)); }
    else if h == 33 { assert CrcRow2[1] == MulX8(MulX8(33)); }
    else if h == 34 { assert CrcRow2[2] == MulX8(MulX8(34)); }
    else if h == 35 { assert CrcRow2[3] == MulX8(MulX8(35)); }
    else if h == 36 { assert CrcRow2[4] == MulX8(MulX8(36)); }
    else if h == 37 { assert CrcRow2[5] == MulX8(MulX8(37)); }
    else if h == 38 { assert CrcRow2[6] == MulX8(MulX8(38)); }
    else if h == 39 { assert CrcRow2[7] == MulX8(MulX8(39)); }
    else if h == 40 { assert CrcRow2[8] == MulX8(MulX8(40)); }
    else if h == 41 { assert CrcRow2[9] == MulX8(MulX8(41)); }
    else if h == 42 { assert CrcRow2[10] == MulX8(MulX8(42)); }
    else if h == 43 { assert CrcRow2[11] == MulX8(MulX8(43)); }
    else if h == 44 { assert CrcRow2[12] == MulX8(MulX8(44)); }
    else if h == 45 { assert CrcRow2[13] == MulX8(MulX8(45)); }
    else if h == 46 { assert CrcRow2[14] == MulX8(MulX8(46)); }
    else if h == 47 { assert CrcRow2[15] == MulX8(MulX8(47)); }
  }

  lemma {:induction false} TableRow2(h: bv16)
    requires 32 <= h < 48
    ensures CrcTable[h as int] == MulXPow(h, 16)
  {
    SplitTable(h as int);
    SplitHalf0(h as int);
    SplitQuarter0(h as int);
    SplitPair1(h as int - 32);
    RowEntries2(h);
    Pow16(h);
  }

  /** Row 3 of the table holds i * x^16 mod P for i = 48 .. 63. */
  lemma {:induction false} RowEntries3(h: bv16)
    requires 48 <= h < 64
    ensures CrcRow3[(h - 48) as int] == MulX8(MulX8(h))
  {
    if h == 48 { assert CrcRow3[0] == MulX8(MulX8(48)); }
    else if h == 49 { assert CrcRow3[1] == MulX8(MulX8(49)); }
    else if h == 50 { assert CrcRow3[2] == MulX8(MulX8(50)); }
    else if h == 51 { assert CrcRow3[3] == MulX8(MulX8(51)); }
    else if h == 52 { assert CrcRow3[4] == MulX8(MulX8(52)); }
    else if h == 53 { assert CrcRow3[5] == MulX8(MulX8(53)); }
    else if h == 54 { assert CrcRow3[6] == MulX8(MulX8(54)); }
    else if h == 55 { assert CrcRow3[7] == MulX8(MulX8(55)); }
    else if h == 56 { assert CrcRow3[8] == MulX8(MulX8(56)); }
    else if h == 57 { assert CrcRow3[9] == MulX8(MulX8(57)); }
    else if h == 58 { assert CrcRow3[10] == MulX8(MulX8(58)); }
    else if h == 59 { assert CrcRow3[11] == MulX8(MulX8(59)); }
    else if h == 60 { assert CrcRow3[12] == MulX8(MulX8(60)); }
    else if h == 61 { assert CrcRow3[13] == MulX8(MulX8(61)); }
    else if h == 62 { assert CrcRow3[14] == MulX8(MulX8(62)); }
    else if h == 63 { assert CrcRow3[15] == MulX8(MulX8(63)); }
  }

  lemma {:induction false} TableRow3(h: bv16)
    requires 48 <= h < 64
    ensures CrcTable[h as int] == MulXPow(h, 16)
  {
    SplitTable(h as int);
    SplitHalf0(h as int);
    SplitQuarter0(h as int);
    SplitPair1(h as int - 32);
    RowEntries3(h);
    Pow16(h);
  }

  /** Row 4 of the table holds i * x^16 mod P for i = 64 .. 79. */
  lemma {:induction false} RowEntries4(h: bv16)
    requires 64 <= h < 80
    ensures CrcRow4[(h - 64) as int] == MulX8(MulX8(h))
  {
    if h == 64 { assert CrcRow4[0] == MulX8(MulX8(64)); }
    else if h == 65 { assert CrcRow4[1] == MulX8(MulX8(65)); }
    else if h == 66 { assert CrcRow4[2] == MulX8(MulX8(66)); }
    else if h == 67 { assert CrcRow4[3] == MulX8(MulX8(67)); }
    else if h == 68 { assert CrcRow4[4] == MulX8(MulX8(68)); }
    else if h == 69 { assert CrcRow4[5] == MulX8(MulX8(69)); }
    else if h == 70 { assert CrcRow4[6] == MulX8(MulX8(70)); }
    else if h == 71 { assert CrcRow4[7] == MulX8(MulX8(71)); }
    else if h == 72 { assert CrcRow4[8] == MulX8(MulX8(72)); }
    else if h == 73 { assert CrcRow4[9] == MulX8(MulX8(73)); }
    else if h == 74 { assert CrcRow4[10] == MulX8(MulX8(74)); }
    else if h == 75 { assert CrcRow4[11] == MulX8(MulX8(75)); }
    else if h == 76 { assert CrcRow4[12] == MulX8(MulX8(76)); }
    else if h == 77 { assert CrcRow4[13] == MulX8(MulX8(77)); }
    else if h == 78 { assert CrcRow4[14] == MulX8(MulX8(78)); }
    else if h == 79 { assert CrcRow4[15] == MulX8(MulX8(79)); }
  }

  lemma {:induction false} TableRow4(h: bv16)
    requires 64 <= h < 80
    ensures CrcTable[h as int] == MulXPow(h, 16)
  {
    SplitTable(h as int);
    SplitHalf0(h as int);
    SplitQuarter1(h as int - 64);
    SplitPair2(h as int - 64);
    RowEntries4(h);
    Pow16(h);
  }

  /** Row 5 of the table holds i * x^16 mod P for i = 80 .. 95. */
  lemma {:induction false} RowEntries5(h: bv16)
    requires 80 <= h < 96
    ensures CrcRow5[(h - 80) as int] == MulX8(MulX8(h))
  {
    if h == 80 { assert CrcRow5[0] == MulX8(MulX8(80)); }
    else if h == 81 { assert CrcRow5[1] == MulX8(MulX8(81)); }
    else if h == 82 { assert CrcRow5[2] == MulX8(MulX8(82)); }
    else if h == 83 { assert CrcRow5[3] == MulX8(MulX8(83)); }
    else if h == 84 { assert CrcRow5[4] == MulX8(MulX8(84)); }
    else if h == 85 { assert CrcRow5[5] == MulX8(MulX8(85)); }
    else if h == 86 { assert CrcRow5[6] == MulX8(MulX8(86)); }
    else if h == 87 { assert CrcRow5[7] == MulX8(MulX8(87)); }
    else if h == 88 { assert CrcRow5[8] == MulX8(MulX8(88)); }
    else if h == 89 { assert CrcRow5[9] == MulX8(MulX8(89)); }
    else if h == 90 { assert CrcRow5[10] == MulX8(MulX8(90)); }
    else if h == 91 { assert CrcRow5[11] == MulX8(MulX8(91)); }
    else if h == 92 { assert CrcRow5[12] == MulX8(MulX8(92)); }
    else if h == 93 { assert CrcRow5[13] == MulX8(MulX8(93)); }
    else if h == 94 { assert CrcRow5[14] == MulX8(MulX8(94)); }
    else if h == 95 { assert CrcRow5[15] == MulX8(MulX8(95)); }
  }

  lemma {:induction false} TableRow5(h: bv16)
    requires 80 <= h < 96
    ensures CrcTable[h as int] == MulXPow(h, 16)
  {
    SplitTable(h as int);
    SplitHalf0(h as int);
    SplitQuarter1(h as int - 64);
    SplitPair2(h as int - 64);
    RowEntries5(h);
    Pow16(h);
  }

  /** Row 6 of the table holds i * x^16 mod P for i = 96 .. 111. */
  lemma {:induction false} RowEntries6(h: bv16)
    requires 96 <= h < 112
    ensures CrcRow6[(h - 96) as int] == MulX8(MulX8(h))
  {
    if h == 96 { assert CrcRow6[0] == MulX8(MulX8(96)); }
    else if h == 97 { assert CrcRow6[1] == MulX8(MulX8(97)); }
    else if h == 98 { assert CrcRow6[2] == MulX8(MulX8(98)); }
    else if h == 99 { assert CrcRow6[3] == MulX8(MulX8(99)); }
    else if h == 100 { assert CrcRow6[4] == MulX8(MulX8(100)); }
    else if h == 101 { assert CrcRow6[5] == MulX8(MulX8(101)); }
    else if h == 102 { assert CrcRow6[6] == MulX8(MulX8(102)); }
    else if h == 103 { assert CrcRow6[7] == MulX8(MulX8(103)); }
    else if h == 104 { assert CrcRow6[8] == MulX8(MulX8(104)); }
    else if h == 105 { assert CrcRow6[9] == MulX8(MulX8(105)); }
    else if h == 106 { assert CrcRow6[10] == MulX8(MulX8(106)); }
    else if h == 107 { assert CrcRow6[11] == MulX8(MulX8(107)); }
    else if h == 108 { assert CrcRow6[12] == MulX8(MulX8(108)); }
    else if h == 109 { assert CrcRow6[13] == MulX8(MulX8(109)); }
    else if h == 110 { assert CrcRow6[14] == MulX8(MulX8(110)); }
    else if h == 111 { assert CrcRow6[15] == MulX8(MulX8(111)); }
  }

  lemma {:induction false} TableRow6(h: bv16)
    requires 96 <= h < 112
    ensures CrcTable[h as int] == MulXPow(h, 16)
  {
    SplitTable(h as int);
    SplitHalf0(h as int);
    SplitQuarter1(h as int - 64);
    SplitPair3(h as int - 96);
    RowEntries6(h);
    Pow16(h);
  }

  /** Row 7 of the table holds i * x^16 mod P for i = 112 .. 127. */
  lemma {:induction false} RowEntries7(h: bv16)
    requires 112 <= h < 128
    ensures CrcRow7[(h - 112) as int] == MulX8(MulX8(h))
  {
    if h == 112 { assert CrcRow7[0] == MulX8(MulX8(112)); }
    else if h == 113 { assert CrcRow7[1] == MulX8(MulX8(113)); }
    else if h == 114 { assert CrcRow7[2] == MulX8(MulX8(114)); }
    else if h == 115 { assert CrcRow7[3] == MulX8(MulX8(115)); }
    else if h == 116 { assert CrcRow7[4] == MulX8(MulX8(116)); }
    else if h == 117 { assert CrcRow7[5] == MulX8(MulX8(117)); }
    else if h == 118 { assert CrcRow7[6] == MulX8(MulX8(118)); }
    else if h == 119 { assert CrcRow7[7] == MulX8(MulX8(119)); }
    else if h == 120 { assert CrcRow7[8] == MulX8(MulX8(120)); }
    else if h == 121 { assert CrcRow7[9] == MulX8(MulX8(121)); }
    else if h == 122 { assert CrcRow7[10] == MulX8(MulX8(122)); }
    else if h == 123 { assert CrcRow7[11] == MulX8(MulX8(123)); }
    else if h == 124 { assert CrcRow7[12] == MulX8(MulX8(124)); }
    else if h == 125 { assert CrcRow7[13] == MulX8(MulX8(125)); }
    else if h == 126 { assert CrcRow7[14] == MulX8(MulX8(126)); }
    else if h == 127 { assert CrcRow7[15] == MulX8(MulX8(127)); }
  }

  lemma {:induction false} TableRow7(h: bv16)
    requires 112 <= h < 128
    ensures CrcTable[h as int] == MulXPow(h, 16)
  {
    SplitTable(h as int);
    SplitHalf0(h as int);
    SplitQuarter1(h as int - 64);
    SplitPair3(h as int - 96);
    RowEntries7(h);
    Pow16(h);
  }

  /** Row 8 of the table holds i * x^16 mod P for i = 128 .. 143. */
  lemma {:induction false} RowEntries8(h: bv16)
    requires 128 <= h < 144
    ensures CrcRow8[(h - 128) as int] == MulX8(MulX8(h))
  {
    if h == 128 { assert CrcRow8[0] == MulX8(MulX8(128)); }
    else if h == 129 { assert CrcRow8[1] == MulX8(MulX8(129)); }
    else if h == 130 { assert CrcRow8[2] == MulX8(MulX8(130)); }
    else if h == 131 { assert CrcRow8[3] == MulX8(MulX8(131)); }
    else if h == 132 { assert CrcRow8[4] == MulX8(MulX8(132)); }
    else if h == 133 { assert CrcRow8[5] == MulX8(MulX8(133)); }
    else if h == 134 { assert CrcRow8[6] == MulX8(MulX8(134)); }
    else if h == 135 { assert CrcRow8[7] == MulX8(MulX8(135)); }
    else if h == 136 { assert CrcRow8[8] == MulX8(MulX8(136)); }
    else if h == 137 { assert CrcRow8[9] == MulX8(MulX8(137)); }
    else if h == 138 { assert CrcRow8[10] == MulX8(MulX8(138)); }
    else if h == 139 { assert CrcRow8[11] == MulX8(MulX8(139)); }
    else if h == 140 { assert CrcRow8[12] == MulX8(MulX8(140)); }
    else if h == 141 { assert CrcRow8[13] == MulX8(MulX8(141)); }
    else if h == 142 { assert CrcRow8[14] == MulX8(MulX8(142)); }
    else if h == 143 { assert CrcRow8[15] == MulX8(MulX8(143)); }
  }

  lemma {:induction false} TableRow8(h: bv16)
    requires 128 <= h < 144
    ensures CrcTable[h as int] == MulXPow(h, 16)
  {
    SplitTable(h as int);
    SplitHalf1(h as int - 128);
    SplitQuarter2(h as int - 128);
    SplitPair4(h as int - 128);
    RowEntries8(h);
    Pow16(h);
  }

  /** Row 9 of the table holds i * x^16 mod P for i = 144 .. 159. */
  lemma {:induction false} RowEntries9(h: bv16)
    requires 144 <= h < 160
    ensures CrcRow9[(h - 144) as int] == MulX8(MulX8(h))
  {
    if h == 144 { assert CrcRow9[0] == MulX8(MulX8(144)); }
    else if h == 145 { assert CrcRow9[1] == MulX8(MulX8(145)); }
    else if h == 146 { assert CrcRow9[2] == MulX8(MulX8(146)); }
    else if h == 147 { assert CrcRow9[3] == MulX8(MulX8(147)); }
    else if h == 148 { assert CrcRow9[4] == MulX8(MulX8(148)); }
    else if h == 149 { assert CrcRow9[5] == MulX8(MulX8(149)); }
    else if h == 150 { assert CrcRow9[6] == MulX8(MulX8(150)); }
    else if h == 151 { assert CrcRow9[7] == MulX8(MulX8(151)); }
    else if h == 152 { assert CrcRow9[8] == MulX8(MulX8(152)); }
    else if h == 153 { assert CrcRow9[9] == MulX8(MulX8(153)); }
    else if h == 154 { assert CrcRow9[10] == MulX8(MulX8(154)); }
    else if h == 155 { assert CrcRow9[11] == MulX8(MulX8(155)); }
    else if h == 156 { assert CrcRow9[12] == MulX8(MulX8(156)); }
    else if h == 157 { assert CrcRow9[13] == MulX8(MulX8(157)); }
    else if h == 158 { assert CrcRow9[14] == MulX8(MulX8(158)); }
    else if h == 159 { assert CrcRow9[15] == MulX8(MulX8(159)); }
  }

  lemma {:induction false} TableRow9(h: bv16)
    requires 144 <= h < 160
    ensures CrcTable[h as int] == MulXPow(h, 16)
  {
    SplitTable(h as int);
    SplitHalf1(h as int - 128);
    SplitQuarter2(h as int - 128);
    SplitPair4(h as int - 128);
    RowEntries9(h);
    Pow16(h);
  }

  /** Row 10 of the table holds i * x^16 mod P for i = 160 .. 175. */
  lemma {:induction false} RowEntries10(h: bv16)
    requires 160 <= h < 176
    ensures CrcRow10[(h - 160) as int] == MulX8(MulX8(h))
  {
    if h == 160 { assert CrcRow10[0] == MulX8(MulX8(160)); }
    else if h == 161 { assert CrcRow10[1] == MulX8(MulX8(161)); }
    else if h == 162 { assert CrcRow10[2] == MulX8(MulX8(162)); }
    else if h == 163 { assert CrcRow10[3] == MulX8(MulX8(163)); }
    else if h == 164 { assert CrcRow10[4] == MulX8(MulX8(164)); }
    else if h == 165 { assert CrcRow10[5] == MulX8(MulX8(165)); }
    else if h == 166 { assert CrcRow10[6] == MulX8(MulX8(166)); }
    else if h == 167 { assert CrcRow10[7] == MulX8(MulX8(167)); }
    else if h == 168 { assert CrcRow10[8] == MulX8(MulX8(168)); }
    else if h == 169 { assert CrcRow10[9] == MulX8(MulX8(169)); }
    else if h == 170 { assert CrcRow10[10] == MulX8(MulX8(170)); }
    else if h == 171 { assert CrcRow10[11] == MulX8(MulX8(171)); }
    else if h == 172 { assert CrcRow10[12] == MulX8(MulX8(172)); }
    else if h == 173 { assert CrcRow10[13] == MulX8(MulX8(173)); }
    else if h == 174 { assert CrcRow10[14] == MulX8(MulX8(174)); }
    else if h == 175 { assert CrcRow10[15] == MulX8(MulX8(175)); }
  }

  lemma {:induction false} TableRow10(h: bv16)
    requires 160 <= h < 176
    ensures CrcTable[h as int] == MulXPow(h, 16)
  {
    SplitTable(h as int);
    SplitHalf1(h as int - 128);
    SplitQuarter2(h as int - 128);
    SplitPair5(h as int - 160);
    RowEntries10(h);
    Pow16(h);
  }

  /** Row 11 of the table holds i * x^16 mod P for i = 176 .. 191. */
  lemma {:induction false} RowEntries11(h: bv16)
    requires 176 <= h < 192
    ensures CrcRow11[(h - 176) as int] == MulX8(MulX8(h))
  {
    if h == 176 { assert CrcRow11[0] == MulX8(MulX8(176)); }
    else if h == 177 { assert CrcRow11[1] == MulX8(MulX8(177)); }
    else if h == 178 { assert CrcRow11[2] == MulX8(MulX8(178)); }
    else if h == 179 { assert CrcRow11[3] == MulX8(MulX8(179)); }
    else if h == 180 { assert CrcRow11[4] == MulX8(MulX8(180)); }
    else if h == 181 { assert CrcRow11[5] == MulX8(MulX8(181)); }
    else if h == 182 { assert CrcRow11[6] == MulX8(MulX8(182)); }
    else if h == 183 { assert CrcRow11[7] == MulX8(MulX8(183)); }
    else if h == 184 { assert CrcRow11[8] == MulX8(MulX8(184)); }
    else if h == 185 { assert CrcRow11[9] == MulX8(MulX8(185)); }
    else if h == 186 { assert CrcRow11[10] == MulX8(MulX8(186)); }
    else if h == 187 { assert CrcRow11[11] == MulX8(MulX8(187)); }
    else if h == 188 { assert CrcRow11[12] == MulX8(MulX8(188)); }
    else if h == 189 { assert CrcRow11[13] == MulX8(MulX8(189)); }
    else if h == 190 { assert CrcRow11[14] == MulX8(MulX8(190)); }
    else if h == 191 { assert CrcRow11[15] == MulX8(MulX8(191)); }
  }

  lemma {:induction false} TableRow11(h: bv16)
    requires 176 <= h < 192
    ensures CrcTable[h as int] == MulXPow(h, 16)
  {
    SplitTable(h as int);
    SplitHalf1(h as int - 128);
    SplitQuarter2(h as int - 128);
    SplitPair5(h as int - 160);
    RowEntries11(h);
    Pow16(h);
  }

  /** Row 12 of the table holds i * x^16 mod P for i = 192 .. 207. */
  lemma {:induction false} RowEntries12(h: bv16)
    requires 192 <= h < 208
    ensures CrcRow12[(h - 192) as int] == MulX8(MulX8(h))
  {
    if h == 192 { assert CrcRow12[0] == MulX8(MulX8(192)); }
    else if h == 193 { assert CrcRow12[1] == MulX8(MulX8(193)); }
    else if h == 194 { assert CrcRow12[2] == MulX8(MulX8(194)); }
    else if h == 195 { assert CrcRow12[3] == MulX8(MulX8(195)); }
    else if h == 196 { assert CrcRow12[4] == MulX8(MulX8(196)); }
    else if h == 197 { assert CrcRow12[5] == MulX8(MulX8(197)); }
    else if h == 198 { assert CrcRow12[6] == MulX8(MulX8(198)); }
    else if h == 199 { assert CrcRow12[7] == MulX8(MulX8(199)); }
    else if h == 200 { assert CrcRow12[8] == MulX8(MulX8(200)); }
    else if h == 201 { assert CrcRow12[9] == MulX8(MulX8(201)); }
    else if h == 202 { assert CrcRow12[10] == MulX8(MulX8(202)); }
    else if h == 203 { assert CrcRow12[11] == MulX8(MulX8(203)); }
    else if h == 204 { assert CrcRow12[12] == MulX8(MulX8(204)); }
    else if h == 205 { assert CrcRow12[13] == MulX8(MulX8(205)); }
    else if h == 206 { assert CrcRow12[14] == MulX8(MulX8(206)); }
    else if h == 207 { assert CrcRow12[15] == MulX8(MulX8(207)); }
  }

  lemma {:induction false} TableRow12(h: bv16)
    requires 192 <= h < 208
    ensures CrcTable[h as int] == MulXPow(h, 16)
  {
    SplitTable(h as int);
    SplitHalf1(h as int - 128);
    SplitQuarter3(h as int - 192);
    SplitPair6(h as int - 192);
    RowEntries12(h);
    Pow16(h);
  }

  /** Row 13 of the table holds i * x^16 mod P for i = 208 .. 223. */
  lemma {:induction false} RowEntries13(h: bv16)
    requires 208 <= h < 224
    ensures CrcRow13[(h - 208) as int] == MulX8(MulX8(h))
  {
    if h == 208 { assert CrcRow13[0] == MulX8(MulX8(208)); }
    else if h == 209 { assert CrcRow13[1] == MulX8(MulX8(209)); }
    else if h == 210 { assert CrcRow13[2] == MulX8(MulX8(210)); }
    else if h == 211 { assert CrcRow13[3] == MulX8(MulX8(211)); }
    else if h == 212 { assert CrcRow13[4] == MulX8(MulX8(212)); }
    else if h == 213 { assert CrcRow13[5] == MulX8(MulX8(213)); }
    else if h == 214 { assert CrcRow13[6] == MulX8(MulX8(214)); }
    else if h == 215 { assert CrcRow13[7] == MulX8(MulX8(215)); }
    else if h == 216 { assert CrcRow13[8] == MulX8(MulX8(216)); }
    else if h == 217 { assert CrcRow13[9] == MulX8(MulX8(217)); }
    else if h == 218 { assert CrcRow13[10] == MulX8(MulX8(218)); }
    else if h == 219 { assert CrcRow13[11] == MulX8(MulX8(219)); }
    else if h == 220 { assert CrcRow13[12] == MulX8(MulX8(220)); }
    else if h == 221 { assert CrcRow13[13] == MulX8(MulX8(221)); }
    else if h == 222 { assert CrcRow13[14] == MulX8(MulX8(222)); }
    else if h == 223 { assert CrcRow13[15] == MulX8(MulX8(223)); }
  }

  lemma {:induction false} TableRow13(h: bv16)
    requires 208 <= h < 224
    ensures CrcTable[h as int] == MulXPow(h, 16)
  {
    SplitTable(h as int);
    SplitHalf1(h as int - 128);
    SplitQuarter3(h as int - 192);
    SplitPair6(h as int - 192);
    RowEntries13(h);
    Pow16(h);
  }

  /** Row 14 of the table holds i * x^16 mod P for i = 224 .. 239. */
  lemma {:induction false} RowEntries14(h: bv16)
    requires 224 <= h < 240
    ensures CrcRow14[(h - 224) as int] == MulX8(MulX8(h))
  {
    if h == 224 { assert CrcRow14[0] == MulX8(MulX8(224)); }
    else if h == 225 { assert CrcRow14[1] == MulX8(MulX8(225)); }
    else if h == 226 { assert CrcRow14[2] == MulX8(MulX8(226)); }
    else if h == 227 { assert CrcRow14[3] == MulX8(MulX8(227)); }
    else if h == 228 { assert CrcRow14[4] == MulX8(MulX8(228)); }
    else if h == 229 { assert CrcRow14[5] == MulX8(MulX8(229)); }
    else if h == 230 { assert CrcRow14[6] == MulX8(MulX8(230)); }
    else if h == 231 { assert CrcRow14[7] == MulX8(MulX8(231)); }
    else if h == 232 { assert CrcRow14[8] == MulX8(MulX8(232)); }
    else if h == 233 { assert CrcRow14[9] == MulX8(MulX8(233)); }
    else if h == 234 { assert CrcRow14[10] == MulX8(MulX8(234)); }
    else if h == 235 { assert CrcRow14[11] == MulX8(MulX8(235)); }
    else if h == 236 { assert CrcRow14[12] == MulX8(MulX8(236)); }
    else if h == 237 { assert CrcRow14[13] == MulX8(MulX8(237)); }
    else if h == 238 { assert CrcRow14[14] == MulX8(MulX8(238)); }
    else if h == 239 { assert CrcRow14[15] == MulX8(MulX8(239)); }
  }

  lemma {:induction false} TableRow14(h: bv16)
    requires 224 <= h < 240
    ensures CrcTable[h as int] == MulXPow(h, 16)
  {
    SplitTable(h as int);
    SplitHalf1(h as int - 128);
    SplitQuarter3(h as int - 192);
    SplitPair7(h as int - 224);
    RowEntries14(h);
    Pow16(h);
  }

  /** Row 15 of the table holds i * x^16 mod P for i = 240 .. 255. */
  lemma {:induction false} RowEntries15(h: bv16)
    requires 240 <= h < 256
    ensures CrcRow15[(h - 240) as int] == MulX8(MulX8(h))
  {
    if h == 240 { assert CrcRow15[0] == MulX8(MulX8(240)); }
    else if h == 241 { assert CrcRow15[1] == MulX8(MulX8(241)); }
    else if h == 242 { assert CrcRow15[2] == MulX8(MulX8(242)); }
    else if h == 243 { assert CrcRow15[3] == MulX8(MulX8(243)); }
    else if h == 244 { assert CrcRow15[4] == MulX8(MulX8(244)); }
    else if h == 245 { assert CrcRow15[5] == MulX8(MulX8(245)); }
    else if h == 246 { assert CrcRow15[6] == MulX8(MulX8(246)); }
    else if h == 247 { assert CrcRow15[7] == MulX8(MulX8(247)); }
    else if h == 248 { assert CrcRow15[8] == MulX8(MulX8(248)); }
    else if h == 249 { assert CrcRow15[9] == MulX8(MulX8(249)); }
    else if h == 250 { assert CrcRow15[10] == MulX8(MulX8(250)); }
    else if h == 251 { assert CrcRow15[11] == MulX8(MulX8(251)); }
    else if h == 252 { assert CrcRow15[12] == MulX8(MulX8(252)); }
    else if h == 253 { assert CrcRow15[13] == MulX8(MulX8(253)); }
    else if h == 254 { assert CrcRow15[14] == MulX8(MulX8(254)); }
    else if h == 255 { assert CrcRow15[15] == MulX8(MulX8(255)); }
  }

  lemma {:induction false} TableRow15(h: bv16)
    requires 240 <= h < 256
    ensures CrcTable[h as int] == MulXPow(h, 16)
  {
    SplitTable(h as int);
    SplitHalf1(h as int - 128);
    SplitQuarter3(h as int - 192);
    SplitPair7(h as int - 224);
    RowEntries15(h);
    Pow16(h);
  }

  /** Every table entry is its index times x^16, modulo P. */
  lemma {:induction false} TableIsPolynomial(h: bv16)
    requires h < 256
    ensures CrcTable[h as int] == MulXPow(h, 16)
  {
    if h < 16 { TableRow0(h); }
    else if h < 32 { TableRow1(h); }
    else if h < 48 { TableRow2(h); }
    else if h < 64 { TableRow3(h); }
    else if h < 80 { TableRow4(h); }
    else if h < 96 { TableRow5(h); }
    else if h < 112 { TableRow6(h); }
    else if h < 128 { TableRow7(h); }
    else if h < 144 { TableRow8(h); }
    else if h < 160 { TableRow9(h); }
    else if h < 176 { TableRow10(h); }
    else if h < 192 { TableRow11(h); }
    else if h < 208 { TableRow12(h); }
    else if h < 224 { TableRow13(h); }
    else if h < 240 { TableRow14(h); }
    else if h < 256 { TableRow15(h); }
  }
  /** One table step multiplies the register by x^8 and adds the byte. */
  lemma {:induction false} CrcStepIsPolynomial(crc: bv16, b: byte, c: bv16)
    requires c == b as bv16
    ensures CrcStep(crc, b) == MulXPow(crc, 8) ^ c
  {
    TableIsPolynomial(crc >> 8);
    StepAlgebra(crc, CrcTable[(crc >> 8) as int], c, CrcStep(crc, b));
  }

  /** The table-driven CRC of a message is its message polynomial modulo P. */
  lemma {:induction false} CrcIsPolynomial(data: seq<byte>)
    ensures Crc(data) == Poly(data)
    decreases |data|
  {
    if |data| > 0 {
      CrcIsPolynomial(data[..|data| - 1]);
      CrcSnocIsPolynomial(data);
    }
  }

  /** One more byte keeps the CRC equal to the message polynomial modulo P. */
  lemma {:induction false} CrcSnocIsPolynomial(data: seq<byte>)
    requires |data| > 0 && Crc(data[..|data| - 1]) == Poly(data[..|data| - 1])
    ensures Crc(data) == Poly(data)
  {
    var init, b := data[..|data| - 1], data[|data| - 1];
    CrcStepIsPolynomial(Crc(init), b, b as bv16);
  }
}
