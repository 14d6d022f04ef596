/**
 * The network capture tool of the GDL-90 test suite: each datagram goes
 * through the format validator's structure check, is classified by message
 * id, and is counted; the Heartbeat and position decoders report every
 * status flag and field of Tables 3 and 8.
 */
module NetworkCapture {
  import opened Bytes
  import opened Fields
  import opened Framing
  import Gdl90Encoder
  import EncoderLemmas
  import ReceiverDecoder
  import ComplianceValidator
  import FormatValidator

  /** Every flag of the two Heartbeat status bytes, the timestamp and the two message counts. */
  datatype HeartbeatDetails = HeartbeatDetails(
    gpsValid: bool,
    maintenanceRequired: bool,
    ident: bool,
    addressType: bool,
    gpsBatteryLow: bool,
    ratcs: bool,
    uatInitialized: bool,
    timestampBit16: bool,
    csaRequested: bool,
    csaNotAvailable: bool,
    utcOk: bool,
    timestamp: int,
    uplinkCount: int,
    basicLongCount: int)

  /** The width lowest bits of n, least significant first. */
  function ToBits(n: nat, width: nat): (r: seq<bool>)
    ensures |r| == width
  {
    if width == 0 then [] else [n % 2 == 1] + ToBits(n / 2, width - 1)
  }

  /** The number whose bits, least significant first, are bits. */
  function FromBits(bits: seq<bool>): nat
  {
    if |bits| == 0 then 0 else (if bits[0] then 1 else 0) + 2 * FromBits(bits[1..])
  }

  /** Reading the bits of a number built from bits gives them back. */
  lemma {:induction false} BitsOfNumber(bits: seq<bool>)
    ensures ToBits(FromBits(bits), |bits|) == bits
  {
    if |bits| > 0 {
      BitsOfNumber(bits[1..]);
      assert FromBits(bits) / 2 == FromBits(bits[1..]);
    }
  }

  /** A byte is the number built from its own eight bits. */
  lemma {:induction false} NumberOfBits(n: nat, width: nat)
    requires n < Pow2(width)
    ensures FromBits(ToBits(n, width)) == n
  {
    if width > 0 {
      NumberOfBits(n / 2, width - 1);
      assert ToBits(n, width)[1..] == ToBits(n / 2, width - 1);
    }
  }

  /** The number an eight-bit sequence stands for, bit by bit. */
  lemma {:induction false} ByteOfBits(bits: seq<bool>)
    requires |bits| == 8
    ensures FromBits(bits) == (if bits[0] then 1 else 0) + (if bits[1] then 2 else 0) + (if bits[2] then 4 else 0)
      + (if bits[3] then 8 else 0) + (if bits[4] then 16 else 0) + (if bits[5] then 32 else 0)
      + (if bits[6] then 64 else 0) + (if bits[7] then 128 else 0)
  {
    FromBitsAt(bits, 7);
    FromBitsAt(bits, 6);
    FromBitsAt(bits, 5);
    FromBitsAt(bits, 4);
    FromBitsAt(bits, 3);
    FromBitsAt(bits, 2);
    FromBitsAt(bits, 1);
    FromBitsAt(bits, 0);
    assert bits[0..] == bits;
  }

  /** The number the bits from position i on stand for: bit i, then twice the rest. */
  lemma {:induction false} FromBitsAt(bits: seq<bool>, i: nat)
    requires i < |bits|
    ensures FromBits(bits[i..]) == (if bits[i] then 1 else 0) + 2 * FromBits(bits[i + 1..])
  {
    assert bits[i..][1..] == bits[i + 1..];
  }

  /** 2 to the power k. */
  function Pow2(k: nat): (r: nat)
    ensures r >= 1
  {
    if k == 0 then 1 else 2 * Pow2(k - 1)
  }

  /** decode_heartbeat: exactly six bytes after the id. */
  function DecodeHeartbeat(data: seq<byte>): (r: Option<HeartbeatDetails>)
    ensures r.None? <==> |data| != 6
    ensures r.Some? ==> 0 <= r.value.timestamp < 0x2_0000 && 0 <= r.value.uplinkCount < 32 && 0 <= r.value.basicLongCount < 0x400
  {
    if |data| != 6 then None
    else
      var status1, status2 := ToBits(data[0], 8), ToBits(data[1], 8);
      var tsLow, tsHigh, count1, count2 := data[2], data[3], data[4], data[5];
      Some(HeartbeatDetails(
        status1[7], status1[6], status1[5], status1[4], status1[3], status1[2], status1[0],
        status2[7], status2[6], status2[5], status2[0],
        (if status2[7] then 0x1_0000 else 0) + (tsHigh as int) * 256 + tsLow,
        (count1 / 8) % 32,
        ((count1 as int) % 4) * 256 + count2))
  }

  /** The bits of the first status byte as the flags of Table 3 set them, least significant first; bit 1 is reserved. */
  function Status1Bits(h: HeartbeatDetails, reserved: bool): seq<bool>
  {
    [h.uatInitialized, reserved, h.ratcs, h.gpsBatteryLow, h.addressType, h.ident, h.maintenanceRequired, h.gpsValid]
  }

  /** The bits of the second status byte as the flags of Table 3 set them; bits 4 to 1 are reserved. */
  function Status2Bits(h: HeartbeatDetails, reserved: seq<bool>): seq<bool>
    requires |reserved| == 4
  {
    [h.utcOk] + reserved + [h.csaNotAvailable, h.csaRequested, h.timestampBit16]
  }

  /** A status byte built from its bits is a byte. */
  lemma {:induction false} StatusByteBound(bits: seq<bool>)
    ensures FromBits(bits) < Pow2(|bits|)
  {
    if |bits| > 0 {
      StatusByteBound(bits[1..]);
    }
  }

  /** Each flag is read from its own bit of the first status byte, whatever the reserved bit 1 holds. */
  lemma {:induction false} Status1Flags(h: HeartbeatDetails, reserved: bool, rest: seq<byte>)
    requires |rest| == 5
    ensures FromBits(Status1Bits(h, reserved)) < 256
    ensures var r := DecodeHeartbeat([FromBits(Status1Bits(h, reserved)) as byte] + rest).value;
      && r.gpsValid == h.gpsValid && r.maintenanceRequired == h.maintenanceRequired && r.ident == h.ident
      && r.addressType == h.addressType && r.gpsBatteryLow == h.gpsBatteryLow && r.ratcs == h.ratcs
      && r.uatInitialized == h.uatInitialized
  {
    StatusByteBound(Status1Bits(h, reserved));
    assert Pow2(8) == 256;
    BitsOfNumber(Status1Bits(h, reserved));
  }

  /** Conversely the first status byte is the number built from the flags read from it and its reserved bit. */
  lemma {:induction false} Status1Decomposed(data: seq<byte>)
    requires |data| == 6
    ensures data[0] == FromBits(Status1Bits(DecodeHeartbeat(data).value, ToBits(data[0], 8)[1]))
  {
    assert Pow2(8) == 256;
    NumberOfBits(data[0], 8);
    assert ToBits(data[0], 8) == Status1Bits(DecodeHeartbeat(data).value, ToBits(data[0], 8)[1]);
  }

  /** Each flag is read from its own bit of the second status byte, whatever the reserved bits 4-1 hold. */
  lemma {:induction false} Status2Flags(h: HeartbeatDetails, reserved: seq<bool>, first: byte, rest: seq<byte>)
    requires |reserved| == 4 && |rest| == 4
    ensures FromBits(Status2Bits(h, reserved)) < 256
    ensures var r := DecodeHeartbeat([first, FromBits(Status2Bits(h, reserved)) as byte] + rest).value;
      && r.timestampBit16 == h.timestampBit16 && r.csaRequested == h.csaRequested
      && r.csaNotAvailable == h.csaNotAvailable && r.utcOk == h.utcOk
  {
    StatusByteBound(Status2Bits(h, reserved));
    assert Pow2(8) == 256;
    BitsOfNumber(Status2Bits(h, reserved));
  }

  /** Conversely the second status byte is the number built from the flags read from it and its reserved bits. */
  lemma {:induction false} Status2Decomposed(data: seq<byte>)
    requires |data| == 6
    ensures data[1] == FromBits(Status2Bits(DecodeHeartbeat(data).value, ToBits(data[1], 8)[1..5]))
  {
    assert Pow2(8) == 256;
    NumberOfBits(data[1], 8);
    assert ToBits(data[1], 8) == Status2Bits(DecodeHeartbeat(data).value, ToBits(data[1], 8)[1..5]);
  }

  /** The two count bytes as Table 3 lays them out: uplink count in bits 7-3, basic and long count in 10 bits. */
  function CountBytes(uplink: int, basicLong: int): (r: seq<byte>)
    requires 0 <= uplink < 32 && 0 <= basicLong < 0x400
    ensures |r| == 2
  {
    [uplink * 8 + basicLong / 256, basicLong % 256]
  }

  /** The message counts read back as written. */
  lemma {:induction false} CountsRoundTrip(uplink: int, basicLong: int, head: seq<byte>)
    requires 0 <= uplink < 32 && 0 <= basicLong < 0x400 && |head| == 4
    ensures var r := DecodeHeartbeat(head + CountBytes(uplink, basicLong)).value;
      r.uplinkCount == uplink && r.basicLongCount == basicLong
  {
  }

  /** A Heartbeat from the C++ encoder reads back with its timestamp, GPS and UTC flags, and zero counts. */
  lemma {:induction false} HeartbeatRoundTrip(gpsValid: bool, utcOk: bool, timestamp: uint32)
    requires timestamp < 0x2_0000
    ensures var r := DecodeHeartbeat(Gdl90Encoder.HeartbeatPayload(gpsValid, utcOk, timestamp)[1..]);
      && r.Some?
      && r.value.timestamp == timestamp && r.value.gpsValid == gpsValid && r.value.uatInitialized
      && r.value.utcOk == utcOk && r.value.uplinkCount == 0 && r.value.basicLongCount == 0
  {
    var p := Gdl90Encoder.HeartbeatPayload(gpsValid, utcOk, timestamp);
    EncoderStatusBits(gpsValid, utcOk, timestamp);
    EncoderLemmas.HeartbeatFields(gpsValid, utcOk, timestamp);
    assert p[1..][2] == p[3] && p[1..][3] == p[4];
  }

  /** The bits of the two status bytes the C++ encoder writes: only GPS valid, UAT initialized, timestamp bit 16 and UTC OK can be set. */
  lemma {:induction false} EncoderStatusBits(gpsValid: bool, utcOk: bool, timestamp: uint32)
    ensures var p := Gdl90Encoder.HeartbeatPayload(gpsValid, utcOk, timestamp);
      && ToBits(p[1], 8) == [true, false, false, false, false, false, false, gpsValid]
      && ToBits(p[2], 8) == [utcOk, false, false, false, false, false, false, (timestamp / 0x1_0000) % 2 == 1]
  {
    TwoFlagBits(true, gpsValid);
    TwoFlagBits(utcOk, (timestamp / 0x1_0000) % 2 == 1);
  }

  /** A byte with at most its lowest and highest bits set has exactly those bits. */
  lemma {:induction false} TwoFlagBits(low: bool, high: bool)
    ensures ToBits((if high then 0x80 else 0) + (if low then 0x01 else 0), 8) == [low, false, false, false, false, false, false, high]
  {
    var bits := [low, false, false, false, false, false, false, high];
    ByteOfBits(bits);
    BitsOfNumber(bits);
  }

  /** decode_position_report: exactly 27 bytes after the id, into the same fields as the compliance validator. */
  function DecodePositionReport(data: seq<byte>): (r: Option<ComplianceValidator.PositionReport>)
    ensures r.None? <==> |data| != 27
  {
    if |data| != 27 then None
    else
      var altMisc := ReadBe16(data, 10);
      var altitudeEncoded := altMisc / 16;
      var misc := altMisc % 16;
      var velocities := ReadBe24(data, 13);
      var hVelocity := velocities / 0x1000;
      var vRaw := velocities % 0x1000;
      Some(ComplianceValidator.PositionReport(
        data[0] / 16,
        data[0] % 16,
        ReadBe24(data, 1),
        ReceiverDecoder.Signed24(ReadBe24(data, 4)),
        ReceiverDecoder.Signed24(ReadBe24(data, 7)),
        if altitudeEncoded != 0xFFF then Some(altitudeEncoded * 25 - 1000) else None,
        (misc / 8) % 2 == 1,
        (misc / 4) % 2 == 0,
        misc % 4,
        data[12] / 16,
        data[12] % 16,
        if hVelocity == 0xFFF then None else Some(hVelocity),
        if vRaw == 0x800 then None else Some(Signed12(vRaw) * 64),
        data[16],
        data[17],
        ComplianceValidator.RStripWhitespace(ComplianceValidator.AsciiReplace(data[18..26])),
        data[26] / 16,
        data[26] % 16))
  }

  /** The network decoder reads every field as the compliance validator does. */
  lemma {:induction false} PositionAgreesWithCompliance(data: seq<byte>)
    ensures var n, c := DecodePositionReport(data), ComplianceValidator.ValidatePositionReport(data);
      && (n.Some? <==> c.PositionValid?)
      && (n.Some? ==> n.value == c.report)
  {
  }

  /** The cases of analyze_message's result. */
  datatype Details =
    | HeartbeatInfo(heartbeat: Option<HeartbeatDetails>)
    | OwnshipInfo(ownship: Option<ComplianceValidator.PositionReport>)
    | TrafficInfo(traffic: Option<ComplianceValidator.PositionReport>)
    | UnknownInfo(messageId: byte, data: seq<byte>)

  datatype Analysis =
    | Invalid(error: FormatValidator.StructureCheck, rawLength: nat)
    | Valid(messageId: byte, dataLength: nat, totalLength: nat, crc: int, details: Details)

  /** The message and details analyze_message reports for one datagram. */
  function Analyze(raw: seq<byte>): (a: Analysis)
    ensures a.Invalid? <==> !FormatValidator.ValidateMessageStructure(raw).Structure?
    ensures a.Invalid? ==> a.rawLength == |raw|
  {
    var check := FormatValidator.ValidateMessageStructure(raw);
    if !check.Structure? then Invalid(check, |raw|)
    else
      var info := check.info;
      var details :=
        if info.messageId == 0x00 then HeartbeatInfo(DecodeHeartbeat(info.data))
        else if info.messageId == 0x0A then OwnshipInfo(DecodePositionReport(info.data))
        else if info.messageId == 0x14 then TrafficInfo(DecodePositionReport(info.data))
        else UnknownInfo(info.messageId, info.data);
      Valid(info.messageId, |info.data|, info.totalLength, info.crc, details)
  }

  /** An invalid datagram is a CRC error exactly when its message mentions the CRC: only the mismatch does. */
  predicate IsCrcError(a: Analysis)
  {
    a.Invalid? && a.error.CrcMismatch?
  }

  /** Every frame the encoders produce is valid and classified by its message id. */
  lemma {:induction false} FrameAnalysed(payload: seq<byte>)
    requires |payload| >= 1
    ensures var a := Analyze(Frame(payload));
      && a.Valid? && a.messageId == payload[0] && a.dataLength == |payload| - 1
      && (payload[0] == 0x00 ==> a.details == HeartbeatInfo(DecodeHeartbeat(payload[1..])))
      && (payload[0] == 0x0A ==> a.details == OwnshipInfo(DecodePositionReport(payload[1..])))
      && (payload[0] == 0x14 ==> a.details == TrafficInfo(DecodePositionReport(payload[1..])))
  {
    FormatValidator.FrameValidates(payload);
  }

  /** The statistics of a capture: packets, valid and invalid messages, and how each was counted. */
  class CaptureStats {
    var totalPackets: nat
    var validMessages: nat
    var invalidMessages: nat
    var heartbeats: nat
    var ownshipReports: nat
    var trafficReports: nat
    var unknownMessages: nat
    var crcErrors: nat
    var formatErrors: nat

    /** The counters add up: every packet is valid or invalid, and each kind is counted once. */
    ghost predicate Valid()
      reads this
    {
      && totalPackets == validMessages + invalidMessages
      && invalidMessages == crcErrors + formatErrors
      && validMessages == heartbeats + ownshipReports + trafficReports + unknownMessages
    }

    constructor()
      ensures Valid()
      ensures totalPackets == 0 && validMessages == 0 && invalidMessages == 0
      ensures heartbeats == 0 && ownshipReports == 0 && trafficReports == 0 && unknownMessages == 0
      ensures crcErrors == 0 && formatErrors == 0
    {
      totalPackets, validMessages, invalidMessages := 0, 0, 0;
      heartbeats, ownshipReports, trafficReports, unknownMessages := 0, 0, 0, 0;
      crcErrors, formatErrors := 0, 0;
    }

    /** analyze_message: one more packet, counted under exactly one kind of valid or invalid message. */
    method AnalyzeMessage(raw: seq<byte>) returns (a: Analysis)
      requires Valid()
      modifies this
      ensures Valid()
      ensures a == Analyze(raw)
      ensures totalPackets == old(totalPackets) + 1
      ensures validMessages == old(validMessages) + (if a.Valid? then 1 else 0)
      ensures invalidMessages == old(invalidMessages) + (if a.Invalid? then 1 else 0)
      ensures crcErrors == old(crcErrors) + (if IsCrcError(a) then 1 else 0)
      ensures formatErrors == old(formatErrors) + (if a.Invalid? && !IsCrcError(a) then 1 else 0)
      ensures heartbeats == old(heartbeats) + (if a.Valid? && a.details.HeartbeatInfo? then 1 else 0)
      ensures ownshipReports == old(ownshipReports) + (if a.Valid? && a.details.OwnshipInfo? then 1 else 0)
      ensures trafficReports == old(trafficReports) + (if a.Valid? && a.details.TrafficInfo? then 1 else 0)
      ensures unknownMessages == old(unknownMessages) + (if a.Valid? && a.details.UnknownInfo? then 1 else 0)
    {
      totalPackets := totalPackets + 1;
      a := Analyze(raw);
      if a.Invalid? {
        invalidMessages := invalidMessages + 1;
        if a.error.CrcMismatch? {
          crcErrors := crcErrors + 1;
        } else {
          formatErrors := formatErrors + 1;
        }
        return;
      }
      validMessages := validMessages + 1;
      match a.details
      case HeartbeatInfo(_) =>
        heartbeats := heartbeats + 1;
      case OwnshipInfo(_) =>
        ownshipReports := ownshipReports + 1;
      case TrafficInfo(_) =>
        trafficReports := trafficReports + 1;
      case UnknownInfo(_, _) =>
        unknownMessages := unknownMessages + 1;
    }
  }
}
