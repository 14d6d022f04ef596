/**
 * Two worked CRC values: the example message of section 2.2.4 of the GDL 90
 * Data Interface Specification (CRC 0x8BB3), and the Heartbeat payload of the
 * receiver's built-in sample frame (CRC 0x9CBC).  Each is computed one table
 * step at a time.
 */
module CrcExamples {
  import opened Bytes
  import opened Framing
  import opened CrcPolynomial

  /** Entries 0-127 of the table, down to the pair of rows that holds them. */
  lemma {:induction false} TableEntryLow(i: int)
    requires 0 <= i < 128
    ensures CrcTable[i] == (if i < 64 then (if i < 32 then CrcPair0[i] else CrcPair1[i - 32])
                                      else (if i < 96 then CrcPair2[i - 64] else CrcPair3[i - 96]))
  {
    SplitTable(i);
    SplitHalf0(i);
    if i < 64 { SplitQuarter0(i); } else { SplitQuarter1(i - 64); }
  }

  /** Entries 128-255 of the table, down to the pair of rows that holds them. */
  lemma {:induction false} TableEntryHigh(i: int)
    requires 128 <= i < 256
    ensures CrcTable[i] == (if i < 192 then (if i < 160 then CrcPair4[i - 128] else CrcPair5[i - 160])
                                       else (if i < 224 then CrcPair6[i - 192] else CrcPair7[i - 224]))
  {
    SplitTable(i);
    SplitHalf1(i - 128);
    if i < 192 { SplitQuarter2(i - 128); } else { SplitQuarter3(i - 192); }
  }

  /** One CRC step with its table entry and the byte already in 16 bits. */
  lemma {:induction false} StepWith(crc: bv16, b: byte, wide: bv16, high: int, entry: bv16, result: bv16)
    requires 0 <= high < 256 && (crc >> 8) as int == high
    requires wide == b as bv16
    requires CrcTable[high] == entry
    requires result == entry ^ (crc << 8) ^ wide
    ensures CrcStep(crc, b) == result
  {
  }

  /** The CRC is the last of a chain of registers that starts at 0 and takes one step per byte. */
  lemma {:induction false} CrcOfSteps(data: seq<byte>, regs: seq<bv16>)
    requires |regs| == |data| + 1 && regs[0] == 0
    requires forall k :: 0 <= k < |data| ==> CrcStep(regs[k], data[k]) == regs[k + 1]
    ensures Crc(data) == regs[|data|]
  {
    if |data| > 0 {
      var n := |data| - 1;
      CrcOfSteps(data[..n], regs[..n + 1]);
    }
  }

  lemma {:induction false} StepsFromZero()
    ensures CrcStep(0, 0x00) == 0
    ensures CrcStep(0, 0x81) == 0x81
    ensures CrcStep(0x81, 0x41) == 0x8141
    ensures CrcStep(0x81, 0x01) == 0x8101
  {
    assert CrcTable[0] == 0 by { TableEntryLow(0); SplitPair0(0); }
    StepWith(0, 0x00, 0x00, 0, 0, 0);
    StepWith(0, 0x81, 0x81, 0, 0, 0x81);
    StepWith(0x81, 0x41, 0x41, 0, 0, 0x8141);
    StepWith(0x81, 0x01, 0x01, 0, 0, 0x8101);
  }

  lemma {:induction false} SpecExampleSteps()
    ensures CrcStep(0x8141, 0xDB) == 0xC072
    ensures CrcStep(0xC072, 0xD0) == 0xAB9C
  {
    assert CrcTable[0x81] == 0x81A9 by { TableEntryHigh(0x81); SplitPair4(1); }
    StepWith(0x8141, 0xDB, 0xDB, 0x81, 0x81A9, 0xC072);
    assert CrcTable[0xC0] == 0xD94C by { TableEntryHigh(0xC0); SplitPair6(0); }
    StepWith(0xC072, 0xD0, 0xD0, 0xC0, 0xD94C, 0xAB9C);
  }

  lemma {:induction false} SpecExampleFinalSteps()
    ensures CrcStep(0xAB9C, 0x08) == 0x9889
    ensures CrcStep(0x9889, 0x02) == 0x8BB3
  {
    assert CrcTable[0xAB] == 0x0481 by { TableEntryHigh(0xAB); SplitPair5(0xAB - 160); }
    StepWith(0xAB9C, 0x08, 0x08, 0xAB, 0x0481, 0x9889);
    assert CrcTable[0x98] == 0x02B1 by { TableEntryHigh(0x98); SplitPair4(0x98 - 128); }
    StepWith(0x9889, 0x02, 0x02, 0x98, 0x02B1, 0x8BB3);
  }

  /** The example message 00 81 41 DB D0 08 02 has CRC 0x8BB3, sent as B3 8B. */
  lemma {:induction false} SpecExampleCrc(m: seq<byte>)
    requires m == [0x00, 0x81, 0x41, 0xDB, 0xD0, 0x08, 0x02]
    ensures Crc(m) == 0x8BB3
  {
    StepsFromZero();
    SpecExampleSteps();
    SpecExampleFinalSteps();
    CrcOfSteps(m, [0, 0, 0x81, 0x8141, 0xC072, 0xAB9C, 0x9889, 0x8BB3]);
  }

  lemma {:induction false} SampleHeartbeatSteps()
    ensures CrcStep(0x8101, 0x00) == 0x80A9
    ensures CrcStep(0x80A9, 0x00) == 0x3888
  {
    assert CrcTable[0x81] == 0x81A9 by { TableEntryHigh(0x81); SplitPair4(1); }
    StepWith(0x8101, 0x00, 0x00, 0x81, 0x81A9, 0x80A9);
    assert CrcTable[0x80] == 0x9188 by { TableEntryHigh(0x80); SplitPair4(0); }
    StepWith(0x80A9, 0x00, 0x00, 0x80, 0x9188, 0x3888);
  }

  lemma {:induction false} SampleHeartbeatFinalSteps()
    ensures CrcStep(0x3888, 0x00) == 0x3F5B
    ensures CrcStep(0x3F5B, 0x00) == 0x9CBC
  {
    assert CrcTable[0x38] == 0xB75B by { TableEntryLow(0x38); SplitPair1(0x38 - 32); }
    StepWith(0x3888, 0x00, 0x00, 0x38, 0xB75B, 0x3F5B);
    assert CrcTable[0x3F] == 0xC7BC by { TableEntryLow(0x3F); SplitPair1(0x3F - 32); }
    StepWith(0x3F5B, 0x00, 0x00, 0x3F, 0xC7BC, 0x9CBC);
  }

  /** The Heartbeat payload 00 81 01 00 00 00 00 has CRC 0x9CBC, sent as BC 9C. */
  lemma {:induction false} SampleHeartbeatCrc(m: seq<byte>)
    requires m == [0x00, 0x81, 0x01, 0x00, 0x00, 0x00, 0x00]
    ensures Crc(m) == 0x9CBC
  {
    StepsFromZero();
    SampleHeartbeatSteps();
    SampleHeartbeatFinalSteps();
    CrcOfSteps(m, [0, 0, 0x81, 0x8101, 0x80A9, 0x3888, 0x3F5B, 0x9CBC]);
  }
}
