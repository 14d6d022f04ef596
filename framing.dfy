/*
 * Byte-level framing shared by every GDL-90 encoder and decoder of the
 * repository (GDL 90 Data Interface Specification 560-1058-00 Rev A):
 * the table-driven CRC-16 of section 2.2.3, the 0x7D byte stuffing and the
 * 0x7E flag bytes of section 2.2.1.  Every variant in the other modules is
 * proved equal to the definitions here.
 */
module Framing {
  import opened Bytes

  const Flag: byte := 0x7E
  const ControlEscape: byte := 0x7D

  /*
   * The 256-entry CRC table.  The same literal table is repeated in
   * src/gdl90_encoder.cpp, src/xp2gdl90.cpp, py/main.py and every Python
   * receiver and test script.  It is written here in sixteen rows of sixteen
   * entries, joined pairwise, so that looking up one entry stays cheap.
   */
  const CrcRow0: seq<bv16> :=
    [0x0000, 0x1021, 0x2042, 0x3063, 0x4084, 0x50a5, 0x60c6, 0x70e7,
     0x8108, 0x9129, 0xa14a, 0xb16b, 0xc18c, 0xd1ad, 0xe1ce, 0xf1ef]
  const CrcRow1: seq<bv16> :=
    [0x1231, 0x0210, 0x3273, 0x2252, 0x52b5, 0x4294, 0x72f7, 0x62d6,
     0x9339, 0x8318, 0xb37b, 0xa35a, 0xd3bd, 0xc39c, 0xf3ff, 0xe3de]
  const CrcRow2: seq<bv16> :=
    [0x2462, 0x3443, 0x0420, 0x1401, 0x64e6, 0x74c7, 0x44a4, 0x5485,
     0xa56a, 0xb54b, 0x8528, 0x9509, 0xe5ee, 0xf5cf, 0xc5ac, 0xd58d]
  const CrcRow3: seq<bv16> :=
    [0x3653, 0x2672, 0x1611, 0x0630, 0x76d7, 0x66f6, 0x5695, 0x46b4,
     0xb75b, 0xa77a, 0x9719, 0x8738, 0xf7df, 0xe7fe, 0xd79d, 0xc7bc]
  const CrcRow4: seq<bv16> :=
    [0x48c4, 0x58e5, 0x6886, 0x78a7, 0x0840, 0x1861, 0x2802, 0x3823,
     0xc9cc, 0xd9ed, 0xe98e, 0xf9af, 0x8948, 0x9969, 0xa90a, 0xb92b]
  const CrcRow5: seq<bv16> :=
    [0x5af5, 0x4ad4, 0x7ab7, 0x6a96, 0x1a71, 0x0a50, 0x3a33, 0x2a12,
     0xdbfd, 0xcbdc, 0xfbbf, 0xeb9e, 0x9b79, 0x8b58, 0xbb3b, 0xab1a]
  const CrcRow6: seq<bv16> :=
    [0x6ca6, 0x7c87, 0x4ce4, 0x5cc5, 0x2c22, 0x3c03, 0x0c60, 0x1c41,
     0xedae, 0xfd8f, 0xcdec, 0xddcd, 0xad2a, 0xbd0b, 0x8d68, 0x9d49]
  const CrcRow7: seq<bv16> :=
    [0x7e97, 0x6eb6, 0x5ed5, 0x4ef4, 0x3e13, 0x2e32, 0x1e51, 0x0e70,
     0xff9f, 0xefbe, 0xdfdd, 0xcffc, 0xbf1b, 0xaf3a, 0x9f59, 0x8f78]
  const CrcRow8: seq<bv16> :=
    [0x9188, 0x81a9, 0xb1ca, 0xa1eb, 0xd10c, 0xc12d, 0xf14e, 0xe16f,
     0x1080, 0x00a1, 0x30c2, 0x20e3, 0x5004, 0x4025, 0x7046, 0x6067]
  const CrcRow9: seq<bv16> :=
    [0x83b9, 0x9398, 0xa3fb, 0xb3da, 0xc33d, 0xd31c, 0xe37f, 0xf35e,
     0x02b1, 0x1290, 0x22f3, 0x32d2, 0x4235, 0x5214, 0x6277, 0x7256]
  const CrcRow10: seq<bv16> :=
    [0xb5ea, 0xa5cb, 0x95a8, 0x8589, 0xf56e, 0xe54f, 0xd52c, 0xc50d,
     0x34e2, 0x24c3, 0x14a0, 0x0481, 0x7466, 0x6447, 0x5424, 0x4405]
  const CrcRow11: seq<bv16> :=
    [0xa7db, 0xb7fa, 0x8799, 0x97b8, 0xe75f, 0xf77e, 0xc71d, 0xd73c,
     0x26d3, 0x36f2, 0x0691, 0x16b0, 0x6657, 0x7676, 0x4615, 0x5634]
  const CrcRow12: seq<bv16> :=
    [0xd94c, 0xc96d, 0xf90e, 0xe92f, 0x99c8, 0x89e9, 0xb98a, 0xa9ab,
     0x5844, 0x4865, 0x7806, 0x6827, 0x18c0, 0x08e1, 0x3882, 0x28a3]
  const CrcRow13: seq<bv16> :=
    [0xcb7d, 0xdb5c, 0xeb3f, 0xfb1e, 0x8bf9, 0x9bd8, 0xabbb, 0xbb9a,
     0x4a75, 0x5a54, 0x6a37, 0x7a16, 0x0af1, 0x1ad0, 0x2ab3, 0x3a92]
  const CrcRow14: seq<bv16> :=
    [0xfd2e, 0xed0f, 0xdd6c, 0xcd4d, 0xbdaa, 0xad8b, 0x9de8, 0x8dc9,
     0x7c26, 0x6c07, 0x5c64, 0x4c45, 0x3ca2, 0x2c83, 0x1ce0, 0x0cc1]
  const CrcRow15: seq<bv16> :=
    [0xef1f, 0xff3e, 0xcf5d, 0xdf7c, 0xaf9b, 0xbfba, 0x8fd9, 0x9ff8,
     0x6e17, 0x7e36, 0x4e55, 0x5e74, 0x2e93, 0x3eb2, 0x0ed1, 0x1ef0]
  const CrcPair0: seq<bv16> := CrcRow0 + CrcRow1
  const CrcPair1: seq<bv16> := CrcRow2 + CrcRow3
  const CrcPair2: seq<bv16> := CrcRow4 + CrcRow5
  const CrcPair3: seq<bv16> := CrcRow6 + CrcRow7
  const CrcPair4: seq<bv16> := CrcRow8 + CrcRow9
  const CrcPair5: seq<bv16> := CrcRow10 + CrcRow11
  const CrcPair6: seq<bv16> := CrcRow12 + CrcRow13
  const CrcPair7: seq<bv16> := CrcRow14 + CrcRow15
  const CrcQuarter0: seq<bv16> := CrcPair0 + CrcPair1
  const CrcQuarter1: seq<bv16> := CrcPair2 + CrcPair3
  const CrcQuarter2: seq<bv16> := CrcPair4 + CrcPair5
  const CrcQuarter3: seq<bv16> := CrcPair6 + CrcPair7
  const CrcHalf0: seq<bv16> := CrcQuarter0 + CrcQuarter1
  const CrcHalf1: seq<bv16> := CrcQuarter2 + CrcQuarter3
  const CrcTable: seq<bv16> := CrcHalf0 + CrcHalf1

  /** One CRC update: crc <- table[crc >> 8] ^ (crc << 8) ^ byte, in 16 bits. */
  function CrcStep(crc: bv16, b: byte): bv16
  {
    CrcTable[(crc >> 8) as int] ^ (crc << 8) ^ (b as bv16)
  }

  /** The CRC of a message: starts at 0 and folds CrcStep over the bytes in order. */
  function Crc(data: seq<byte>): bv16
    decreases |data|
  {
    if |data| == 0 then 0 else CrcStep(Crc(data[..|data| - 1]), data[|data| - 1])
  }

  function CrcLow(crc: bv16): byte
  {
    (crc & 0xFF) as int
  }

  function CrcHigh(crc: bv16): byte
  {
    (crc >> 8) as int
  }

  /** The two CRC bytes as every encoder appends them: low byte first. */
  function CrcBytes(crc: bv16): seq<byte>
  {
    [CrcLow(crc), CrcHigh(crc)]
  }

  /** A 16-bit value read from two bytes, low byte first. */
  function LittleEndian16(lo: byte, hi: byte): int
  {
    lo + 256 * hi
  }

  /** The CRC as an integer, as the Python scripts compare it. */
  function CrcValue(data: seq<byte>): (r: int)
    ensures 0 <= r < 0x1_0000
  {
    Crc(data) as int
  }

  /** Flips bit 5 of a byte: b ^ 0x20. */
  function Xor20(b: byte): byte
  {
    if b % 64 >= 32 then b - 32 else b + 32
  }

  predicate IsSpecial(b: byte)
  {
    b == ControlEscape || b == Flag
  }

  /** What the escaper emits for one byte. */
  function Stuff(b: byte): seq<byte>
  {
    if IsSpecial(b) then [ControlEscape, Xor20(b)] else [b]
  }

  /** Byte stuffing, one byte after the other (the push_back loop of every encoder). */
  function Escape(data: seq<byte>): seq<byte>
    decreases |data|
  {
    if |data| == 0 then [] else Escape(data[..|data| - 1]) + Stuff(data[|data| - 1])
  }

  /**
   * Unstuffing as every receiver does it: 0x7D followed by a byte b gives
   * b ^ 0x20; a 0x7D with nothing after it is kept as it is.
   */
  function Unstuff(data: seq<byte>): seq<byte>
    decreases |data|
  {
    if |data| == 0 then []
    else if data[0] == ControlEscape && |data| >= 2 then [Xor20(data[1])] + Unstuff(data[2..])
    else [data[0]] + Unstuff(data[1..])
  }

  /** The number of bytes that need stuffing. */
  function SpecialCount(data: seq<byte>): nat
    decreases |data|
  {
    if |data| == 0 then 0
    else SpecialCount(data[..|data| - 1]) + (if IsSpecial(data[|data| - 1]) then 1 else 0)
  }

  /** A payload followed by its CRC, low byte first. */
  function WithCrc(payload: seq<byte>): seq<byte>
  {
    payload + CrcBytes(Crc(payload))
  }

  /** The frame put on the wire for a payload. */
  function Frame(payload: seq<byte>): seq<byte>
  {
    [Flag] + Escape(WithCrc(payload)) + [Flag]
  }

  /** One more byte: the CRC of a longer prefix is one step from the shorter one. */
  lemma {:induction false} CrcSnoc(data: seq<byte>, i: nat)
    requires i < |data|
    ensures Crc(data[..i + 1]) == CrcStep(Crc(data[..i]), data[i])
  {
    assert data[..i + 1][..i] == data[..i];
  }

  /** The masks the encoders apply when they split the CRC into bytes change nothing. */
  lemma {:induction false} CrcMaskedBytes(crc: bv16)
    ensures (crc & 0xFF) as int == CrcLow(crc)
    ensures ((crc >> 8) & 0xFF) as int == CrcHigh(crc)
  {
  }

  lemma {:induction false} CrcBytesValue(crc: bv16)
    ensures LittleEndian16(CrcLow(crc), CrcHigh(crc)) == crc as int
  {
  }

  lemma {:induction false} Xor20Involution(b: byte)
    ensures Xor20(Xor20(b)) == b
  {
  }

  lemma {:induction false} EscapeAppend(a: seq<byte>, b: seq<byte>)
    ensures Escape(a + b) == Escape(a) + Escape(b)
    decreases |b|
  {
    if |b| == 0 {
      assert a + b == a;
    } else {
      var b' := b[..|b| - 1];
      assert (a + b)[..|a + b| - 1] == a + b';
      EscapeAppend(a, b');
    }
  }

  lemma {:induction false} EscapeCons(x: byte, rest: seq<byte>)
    ensures Escape([x] + rest) == Stuff(x) + Escape(rest)
  {
    EscapeAppend([x], rest);
    assert [x][..0] == [];
  }

  /** Stuffing adds exactly one byte per 0x7D or 0x7E. */
  lemma {:induction false} EscapeLength(data: seq<byte>)
    ensures |Escape(data)| == |data| + SpecialCount(data)
    decreases |data|
  {
    if |data| > 0 {
      EscapeLength(data[..|data| - 1]);
    }
  }

  lemma {:induction false} SpecialCountBound(data: seq<byte>)
    ensures SpecialCount(data) <= |data|
    decreases |data|
  {
    if |data| > 0 {
      SpecialCountBound(data[..|data| - 1]);
    }
  }

  /** No 0x7E survives stuffing. */
  lemma {:induction false} EscapeFlagFree(data: seq<byte>)
    ensures forall k :: 0 <= k < |Escape(data)| ==> Escape(data)[k] != Flag
    decreases |data|
  {
    if |data| > 0 {
      EscapeFlagFree(data[..|data| - 1]);
    }
  }

  /** A message without 0x7D or 0x7E goes out unchanged. */
  lemma {:induction false} EscapePlain(data: seq<byte>)
    requires forall k :: 0 <= k < |data| ==> !IsSpecial(data[k])
    ensures Escape(data) == data
    decreases |data|
  {
    if |data| > 0 {
      EscapePlain(data[..|data| - 1]);
    }
  }

  /** Unstuffing undoes stuffing. */
  lemma {:induction false} UnstuffEscape(data: seq<byte>)
    ensures Unstuff(Escape(data)) == data
    decreases |data|
  {
    if |data| > 0 {
      var x, rest := data[0], data[1..];
      assert data == [x] + rest;
      EscapeCons(x, rest);
      var e := Escape(rest);
      if IsSpecial(x) {
        assert Escape(data) == [ControlEscape, Xor20(x)] + e;
        assert (Escape(data))[2..] == e;
        Xor20Involution(x);
      } else {
        assert Escape(data) == [x] + e;
        assert (Escape(data))[1..] == e;
      }
      UnstuffEscape(rest);
    }
  }

  /** In a frame only the first and the last byte are 0x7E. */
  lemma {:induction false} FrameFlags(payload: seq<byte>)
    ensures var f := Frame(payload);
      forall k :: 0 <= k < |f| ==> (f[k] == Flag <==> k == 0 || k == |f| - 1)
  {
    var body := Escape(WithCrc(payload));
    EscapeFlagFree(WithCrc(payload));
    var f := Frame(payload);
    assert forall k :: 1 <= k < |f| - 1 ==> f[k] == body[k - 1];
  }

  /** A frame is at least 4 and at most twice as long as payload and CRC, plus the flags. */
  lemma {:induction false} FrameLength(payload: seq<byte>)
    ensures |payload| + 4 <= |Frame(payload)| <= 2 * (|payload| + 2) + 2
  {
    EscapeLength(WithCrc(payload));
    SpecialCountBound(WithCrc(payload));
  }

  /** What lies between the two flags of a frame. */
  lemma {:induction false} FrameInterior(payload: seq<byte>)
    ensures var f := Frame(payload);
      |f| >= 4 && f[0] == Flag && f[|f| - 1] == Flag && f[1..|f| - 1] == Escape(WithCrc(payload))
  {
    FrameLength(payload);
  }

  /** Unstuffing the inside of a frame gives back the payload and its two CRC bytes. */
  lemma {:induction false} FrameUnstuff(payload: seq<byte>)
    ensures var f := Frame(payload);
      |f| >= 4 && Unstuff(f[1..|f| - 1]) == payload + CrcBytes(Crc(payload))
  {
    FrameInterior(payload);
    UnstuffEscape(WithCrc(payload));
  }

  /**
   * A growable byte buffer: a std::vector<uint8_t> passed by reference, or a
   * Python bytearray, that the code changes in place.
   */
  class ByteBuffer {
    var data: seq<byte>

    constructor (init: seq<byte>)
      ensures data == init
    {
      data := init;
    }

    method PushBack(b: byte)
      modifies this
      ensures data == old(data) + [b]
    {
      data := data + [b];
    }

    method Extend(s: seq<byte>)
      modifies this
      ensures data == old(data) + s
    {
      data := data + s;
    }

    method InsertFront(b: byte)
      modifies this
      ensures data == [b] + old(data)
    {
      data := [b] + data;
    }

    method Assign(s: seq<byte>)
      modifies this
      ensures data == s
    {
      data := s;
    }
  }
}
