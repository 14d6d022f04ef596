/**
 * The validator of the GDL-90 compliance tests: parse a frame (flags,
 * unstuffing, CRC low byte first), then decode a Heartbeat (Table 3) or a
 * position report (Table 8) from the message data after the id.
 */
module ComplianceValidator {
  import opened Bytes
  import opened Fields
  import opened Framing
  import Gdl90Encoder
  import EncoderLemmas
  import CrcExamples
  import ReceiverDecoder
  import RealtimeCapture
  import FormatValidator

  /** What parse_message reports for a valid frame; length is the length of the data after the id. */
  datatype ParsedMessage = ParsedMessage(messageId: byte, data: seq<byte>, length: nat)

  datatype ParseResult =
    | ParseTooShort
    | BadFlags
    | UnstuffedTooShort
    | ParseCrcMismatch(calculated: int, received: int)
    | Parsed(message: ParsedMessage)

  /** parse_message: the length, both flags at once, the unstuffed length, then the CRC. */
  function ParseMessage(raw: seq<byte>): (r: ParseResult)
    ensures r.ParseTooShort? <==> |raw| < 5
    ensures r.BadFlags? <==> |raw| >= 5 && (raw[0] != Flag || raw[|raw| - 1] != Flag)
    ensures r.Parsed? ==> r.message.length == |r.message.data|
  {
    if |raw| < 5 then ParseTooShort
    else if raw[0] != Flag || raw[|raw| - 1] != Flag then BadFlags
    else
      var unstuffed := Unstuff(raw[1..|raw| - 1]);
      if |unstuffed| < 3 then UnstuffedTooShort
      else
        var n := |unstuffed|;
        var received := LittleEndian16(unstuffed[n - 2], unstuffed[n - 1]);
        var calculated := CrcValue(unstuffed[..n - 2]);
        if received != calculated then ParseCrcMismatch(calculated, received)
        else Parsed(ParsedMessage(unstuffed[0], unstuffed[1..n - 2], n - 3))
  }

  /** parse_message and the format validator's structure check reach the same verdict on every input. */
  lemma {:induction false} ParseAgreesWithStructure(raw: seq<byte>)
    ensures var p, v := ParseMessage(raw), FormatValidator.ValidateMessageStructure(raw);
      && (p.ParseTooShort? <==> v.TooShort?)
      && (p.BadFlags? <==> v.BadStartFlag? || v.BadEndFlag?)
      && (p.UnstuffedTooShort? <==> v.UnescapedTooShort?)
      && (p.ParseCrcMismatch? <==> v.CrcMismatch?)
      && (p.Parsed? <==> v.Structure?)
      && (p.Parsed? ==> p.message.messageId == v.info.messageId && p.message.data == v.info.data)
  {
  }

  /** A flagged frame whose interior unstuffs to a payload followed by its CRC bytes parses to that payload. */
  lemma {:induction false} FlaggedParses(raw: seq<byte>, payload: seq<byte>)
    requires |raw| >= 5 && raw[0] == Flag && raw[|raw| - 1] == Flag
    requires |payload| >= 1 && Unstuff(raw[1..|raw| - 1]) == WithCrc(payload)
    ensures ParseMessage(raw) == Parsed(ParsedMessage(payload[0], payload[1..], |payload| - 1))
  {
    FormatValidator.FlaggedValidates(raw, payload);
    ParseAgreesWithStructure(raw);
  }

  /** Every frame the encoders produce parses, and gives back its payload as id and data. */
  lemma {:induction false} FrameParses(payload: seq<byte>)
    requires |payload| >= 1
    ensures ParseMessage(Frame(payload)) == Parsed(ParsedMessage(payload[0], payload[1..], |payload| - 1))
  {
    ReceiverDecoder.FrameReachesCrcCheck(payload);
    FlaggedParses(Frame(payload), payload);
  }

  /**
   * The Heartbeat example of section 2.2.4 of the GDL 90 Data Interface
   * Specification is the frame the encoders build for its payload, and it
   * parses as a Heartbeat with six data bytes.
   */
  lemma {:induction false} SpecExampleParses(frame: seq<byte>, payload: seq<byte>)
    requires frame == [0x7E, 0x00, 0x81, 0x41, 0xDB, 0xD0, 0x08, 0x02, 0xB3, 0x8B, 0x7E]
    requires payload == [0x00, 0x81, 0x41, 0xDB, 0xD0, 0x08, 0x02]
    ensures frame == Frame(payload)
    ensures ParseMessage(frame) == Parsed(ParsedMessage(0x00, [0x81, 0x41, 0xDB, 0xD0, 0x08, 0x02], 6))
  {
    var w := [0x00, 0x81, 0x41, 0xDB, 0xD0, 0x08, 0x02, 0xB3, 0x8B];
    SpecWithCrc(payload, w);
    SpecPlain(w);
    SpecFlagged(frame, w);
    ReceiverDecoder.PlainFrame(payload, w, frame);
    FrameParses(payload);
    assert payload[1..] == [0x81, 0x41, 0xDB, 0xD0, 0x08, 0x02];
  }

  lemma {:induction false} SpecWithCrc(payload: seq<byte>, w: seq<byte>)
    requires payload == [0x00, 0x81, 0x41, 0xDB, 0xD0, 0x08, 0x02]
    requires w == [0x00, 0x81, 0x41, 0xDB, 0xD0, 0x08, 0x02, 0xB3, 0x8B]
    ensures WithCrc(payload) == w
  {
    CrcExamples.SpecExampleCrc(payload);
    SpecCrcBytes(Crc(payload));
  }

  lemma {:induction false} SpecCrcBytes(crc: bv16)
    requires crc == 0x8BB3
    ensures CrcLow(crc) == 0xB3 && CrcHigh(crc) == 0x8B
  {
  }

  lemma {:induction false} SpecPlain(w: seq<byte>)
    requires w == [0x00, 0x81, 0x41, 0xDB, 0xD0, 0x08, 0x02, 0xB3, 0x8B]
    ensures forall k :: 0 <= k < |w| ==> !IsSpecial(w[k])
  {
  }

  lemma {:induction false} SpecFlagged(frame: seq<byte>, w: seq<byte>)
    requires frame == [0x7E, 0x00, 0x81, 0x41, 0xDB, 0xD0, 0x08, 0x02, 0xB3, 0x8B, 0x7E]
    requires w == [0x00, 0x81, 0x41, 0xDB, 0xD0, 0x08, 0x02, 0xB3, 0x8B]
    ensures frame == [Flag] + w + [Flag]
  {
  }

  /** The Heartbeat fields validate_heartbeat reports. */
  datatype HeartbeatReport = HeartbeatReport(
    status1: byte,
    status2: byte,
    timestamp: int,
    messageCounts: int,
    gpsValid: bool,
    uatInitialized: bool,
    utcOk: bool)

  datatype HeartbeatResult = HeartbeatLengthError(got: nat) | HeartbeatValid(report: HeartbeatReport)

  /** validate_heartbeat on the data after the id: exactly six bytes, no check of the timestamp's range. */
  function ValidateHeartbeat(data: seq<byte>): (r: HeartbeatResult)
    ensures r.HeartbeatLengthError? <==> |data| != 6
    ensures r.HeartbeatValid? ==> 0 <= r.report.timestamp < 0x2_0000 && 0 <= r.report.messageCounts < 0x1_0000
  {
    if |data| != 6 then HeartbeatLengthError(|data|)
    else
      var status1 := data[0];
      var status2 := data[1];
      HeartbeatValid(HeartbeatReport(
        status1,
        status2,
        ReadLe16(data, 2) + ((status2 as int) / 128) * 0x1_0000,
        ReadBe16(data, 4),
        status1 / 128 == 1,
        status1 % 2 == 1,
        status2 % 2 == 1))
  }

  /** A Heartbeat from the C++ encoder reads back with its timestamp, flags and a zero count. */
  lemma {:induction false} HeartbeatRoundTrip(gpsValid: bool, utcOk: bool, timestamp: uint32)
    requires timestamp < 0x2_0000
    ensures var r := ValidateHeartbeat(Gdl90Encoder.HeartbeatPayload(gpsValid, utcOk, timestamp)[1..]);
      && r.HeartbeatValid?
      && r.report.timestamp == timestamp && r.report.messageCounts == 0
      && r.report.gpsValid == gpsValid && r.report.uatInitialized && r.report.utcOk == utcOk
  {
    EncoderLemmas.HeartbeatFields(gpsValid, utcOk, timestamp);
    var p := Gdl90Encoder.HeartbeatPayload(gpsValid, utcOk, timestamp);
    assert ReadLe16(p[1..], 2) == ReadLe16(p, 3) && ReadBe16(p[1..], 4) == ReadBe16(p, 5);
  }

  /** Both validators read the same timestamp from six bytes; only the format validator bounds it by a day. */
  lemma {:induction false} HeartbeatAgreesWithFormat(data: seq<byte>)
    requires |data| == 6
    ensures var r, f := ValidateHeartbeat(data), FormatValidator.ValidateHeartbeat(data);
      && r.HeartbeatValid? && !f.HeartbeatWrongLength?
      && f.timestamp == r.report.timestamp
      && (f.HeartbeatValid? <==> r.report.timestamp < FormatValidator.SecondsPerDay)
  {
  }

  /** The position fields validate_position_report reports; None where it reports None. */
  datatype PositionReport = PositionReport(
    alertStatus: int,
    addrType: int,
    icaoAddress: int,
    latitude: int,            // 24-bit two's complement, before the scaling to degrees
    longitude: int,
    altitude: Option<int>,    // feet
    airborne: bool,
    reportUpdated: bool,
    trackType: int,
    nic: int,
    nacp: int,
    hVelocity: Option<int>,   // knots
    vVelocity: Option<int>,   // feet per minute
    trackRaw: byte,
    emitterCategory: byte,
    callsign: seq<char>,
    emergencyCode: int,
    spare: int)

  datatype PositionResult = PositionLengthError(got: nat) | PositionValid(report: PositionReport)

  /** bytes.decode('ascii', errors='replace'): a byte above 127 becomes U+FFFD. */
  function AsciiReplace(bytes: seq<byte>): (r: seq<char>)
    ensures |r| == |bytes|
    ensures forall k :: 0 <= k < |r| ==> r[k] == if bytes[k] < 128 then bytes[k] as char else '�'
  {
    if |bytes| == 0 then []
    else AsciiReplace(bytes[..|bytes| - 1]) + [if bytes[|bytes| - 1] < 128 then bytes[|bytes| - 1] as char else '�']
  }

  /** str.rstrip(): trailing whitespace removed. */
  function RStripWhitespace(s: seq<char>): (r: seq<char>)
    ensures |r| <= |s| && r == s[..|r|]
    ensures |r| > 0 ==> !RealtimeCapture.IsWhitespace(r[|r| - 1])
    ensures forall k :: |r| <= k < |s| ==> RealtimeCapture.IsWhitespace(s[k])
  {
    if |s| == 0 || !RealtimeCapture.IsWhitespace(s[|s| - 1]) then s else RStripWhitespace(s[..|s| - 1])
  }

  /** The horizontal speed: 0xFFF is None, 0xFFE (4094 knots or more) is 4094, anything else itself. */
  function DecodeHorizontalVelocity(raw: int): (r: Option<int>)
    ensures r.None? <==> raw == 0xFFF
    ensures r.Some? ==> r.value == raw
  {
    if raw == 0xFFF then None else if raw == 0xFFE then Some(4094) else Some(raw)
  }

  /** validate_position_report on the data after the id: exactly 27 bytes. */
  function ValidatePositionReport(data: seq<byte>): (r: PositionResult)
    ensures r.PositionLengthError? <==> |data| != 27
  {
    if |data| != 27 then PositionLengthError(|data|)
    else
      var altMisc := ReadBe16(data, 10);
      var altitudeRaw := altMisc / 16;
      var misc := altMisc % 16;
      var velocities := ReadBe24(data, 13);
      PositionValid(PositionReport(
        data[0] / 16,
        data[0] % 16,
        ReadBe24(data, 1),
        ReceiverDecoder.Signed24(ReadBe24(data, 4)),
        ReceiverDecoder.Signed24(ReadBe24(data, 7)),
        if altitudeRaw == 0xFFF then None else Some(altitudeRaw * 25 - 1000),
        misc / 8 == 1,
        (misc / 4) % 2 == 0,
        misc % 4,
        data[12] / 16,
        data[12] % 16,
        DecodeHorizontalVelocity(velocities / 0x1000),
        ReceiverDecoder.DecodeVerticalVelocity(velocities % 0x1000),
        data[16],
        data[17],
        RStripWhitespace(AsciiReplace(data[18..26])),
        data[26] / 16,
        data[26] % 16))
  }

  /** The 12-bit halves of bytes 13-15 are the two velocities the offline decoder reads. */
  lemma {:induction false} VelocityHalves(b0: byte, b1: byte, b2: byte)
    ensures ((b0 as int) * 0x1_0000 + (b1 as int) * 256 + b2) / 0x1000 == ((b0 as int) * 16 + b1 / 16) % 0x1000
    ensures ((b0 as int) * 0x1_0000 + (b1 as int) * 256 + b2) % 0x1000 == ((b1 as int) % 16) * 256 + b2
  {
    var v := (b0 as int) * 0x1_0000 + (b1 as int) * 256 + b2;
    assert v == ((b0 as int) * 16 + b1 / 16) * 0x1000 + ((b1 as int) % 16) * 256 + b2;
  }

  /** On 27 bytes the compliance decoder and the offline decoder's ownship reading agree field by field. */
  lemma {:induction false} PositionAgreesWithDecoder(data: seq<byte>)
    requires |data| == 27
    ensures var r := ValidatePositionReport(data).report;
      var m := ReceiverDecoder.DecodePositionReport(data, true).position;
      && m.statusByte == ReceiverDecoder.OwnshipStatus(r.alertStatus, r.addrType)
      && r.icaoAddress == m.icaoAddress && r.latitude == m.latitude && r.longitude == m.longitude
      && r.altitude == m.altitude && r.airborne == m.airborne && r.reportUpdated == !m.extrapolated
      && r.trackType == m.trackType && r.nic == m.nic && r.nacp == m.nacp
      && r.hVelocity == m.hVelocity && r.vVelocity == m.vVelocity
      && r.trackRaw == m.trackRaw && r.emitterCategory == m.emitterCategory
      && r.emergencyCode == m.emergencyCode
  {
    VelocityHalves(data[13], data[14], data[15]);
  }

  /** An encoded report reads back with its status nibbles, address, position and altitude step. */
  lemma {:induction false} PositionHeaderRoundTrip(msgId: byte, d: Gdl90Encoder.PositionData)
    ensures var r := ValidatePositionReport(Gdl90Encoder.PositionPayload(msgId, d)[1..]);
      && r.PositionValid?
      && r.report.alertStatus == d.alertStatus % 16 && r.report.addrType == d.addressType % 16
      && r.report.icaoAddress == d.icaoAddress % 0x100_0000
      && r.report.latitude % 0x100_0000 == d.latitude % 0x100_0000
      && r.report.longitude % 0x100_0000 == d.longitude % 0x100_0000
      && r.report.altitude == Some(Gdl90Encoder.EncodeAltitude(d.altitude) * 25 - 1000)
  {
    var data := Gdl90Encoder.PositionPayload(msgId, d)[1..];
    PositionAgreesWithDecoder(data);
    ReceiverDecoder.PositionHeaderRoundTrip(msgId, d, true);
    ReceiverDecoder.PositionKinematicsRoundTrip(msgId, d, true);
  }

  /** An encoded report reads back with its misc bits (never extrapolated), NIC/NACp, speeds and track. */
  lemma {:induction false} PositionKinematicsRoundTrip(msgId: byte, d: Gdl90Encoder.PositionData)
    ensures var r := ValidatePositionReport(Gdl90Encoder.PositionPayload(msgId, d)[1..]);
      && r.PositionValid?
      && r.report.airborne == d.airborne && r.report.reportUpdated && r.report.trackType == d.trackType % 4
      && r.report.nic == d.nic % 16 && r.report.nacp == d.nacp % 16
      && r.report.hVelocity == Some(Min(d.hVelocity, 0xFFE))
      && r.report.vVelocity == ReceiverDecoder.DecodeVerticalVelocity(Gdl90Encoder.EncodeVerticalVelocity(d.vVelocity))
      && r.report.trackRaw == Gdl90Encoder.EncodeTrack(d.track)
  {
    var data := Gdl90Encoder.PositionPayload(msgId, d)[1..];
    PositionAgreesWithDecoder(data);
    ReceiverDecoder.PositionKinematicsRoundTrip(msgId, d, true);
  }

  /** An encoded report reads back with its emitter category, emergency code and a zero spare nibble. */
  lemma {:induction false} PositionIdentityRoundTrip(msgId: byte, d: Gdl90Encoder.PositionData)
    ensures var r := ValidatePositionReport(Gdl90Encoder.PositionPayload(msgId, d)[1..]);
      && r.PositionValid?
      && r.report.emitterCategory == d.emitterCategory
      && r.report.emergencyCode == d.emergencyCode % 16 && r.report.spare == 0
  {
    EncoderLemmas.PositionPayloadFields(msgId, d);
  }

  /** Bytes below 128 decode one for one. */
  lemma {:induction false} AsciiReplacePlain(bytes: seq<byte>)
    requires forall k :: 0 <= k < |bytes| ==> bytes[k] < 128
    ensures AsciiReplace(bytes) == ReceiverDecoder.AsChars(bytes)
  {
  }

  /** Spaces appended to a text that does not end in whitespace are all that rstrip removes. */
  lemma {:induction false} RStripPadding(s: seq<char>, n: nat)
    requires |s| == 0 || !RealtimeCapture.IsWhitespace(s[|s| - 1])
    ensures RStripWhitespace(s + seq(n, _ => ' ')) == s
  {
    if n > 0 {
      var t := s + seq(n, _ => ' ');
      assert t[..|t| - 1] == s + seq(n - 1, _ => ' ');
      RStripPadding(s, n - 1);
    }
  }

  /** A callsign of at most 8 printable characters that does not end in a space comes back as given. */
  lemma {:induction false} CallsignRoundTrip(msgId: byte, d: Gdl90Encoder.PositionData)
    requires |d.callsign| <= 8
    requires forall k :: 0 <= k < |d.callsign| ==> 32 <= d.callsign[k] <= 126
    requires |d.callsign| == 0 || d.callsign[|d.callsign| - 1] != 0x20
    ensures ValidatePositionReport(Gdl90Encoder.PositionPayload(msgId, d)[1..]).report.callsign
      == ReceiverDecoder.AsChars(d.callsign)
  {
    EncoderLemmas.PositionPayloadFields(msgId, d);
    var p := Gdl90Encoder.PositionPayload(msgId, d);
    assert p[1..][18..26] == p[19..27];
    CallsignFieldText(d.callsign);
  }

  /** The callsign field of a short printable callsign, decoded and right-stripped, is the callsign. */
  lemma {:induction false} CallsignFieldText(callsign: seq<byte>)
    requires |callsign| <= 8
    requires forall k :: 0 <= k < |callsign| ==> 32 <= callsign[k] <= 126
    requires |callsign| == 0 || callsign[|callsign| - 1] != 0x20
    ensures RStripWhitespace(AsciiReplace(Gdl90Encoder.CallsignField(callsign))) == ReceiverDecoder.AsChars(callsign)
  {
    var field := Gdl90Encoder.CallsignField(callsign);
    var text := ReceiverDecoder.AsChars(callsign);
    AsciiReplacePlain(field);
    assert ReceiverDecoder.AsChars(field) == text + seq(8 - |callsign|, _ => ' ');
    RStripPadding(text, 8 - |callsign|);
  }
}
