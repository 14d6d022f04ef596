/**
 * The real-time capture decoder of the receiver
 * (reciever/realtime_gdl90_capture.py): its unstuffing loop, packet
 * decoding with the CRC read low byte first, the Heartbeat and position
 * decoders, and the statistics it keeps over the packets it has seen.
 * Values it scales by floating-point factors are kept as the raw integers.
 */
module RealtimeCapture {
  import opened Bytes
  import opened Fields
  import opened Framing
  import Gdl90Encoder
  import EncoderLemmas
  import ReceiverDecoder

  /** unescape_data: a flagged frame loses its flags and is unstuffed; anything else is returned as it is. */
  function UnescapeSpec(data: seq<byte>): (r: seq<byte>)
    ensures |data| < 2 || data[0] != Flag || data[|data| - 1] != Flag ==> r == data
  {
    if |data| < 2 || data[0] != Flag || data[|data| - 1] != Flag then data
    else Unstuff(data[1..|data| - 1])
  }

  /** unescape_data: the flag check, then the index-driven loop over the interior. */
  method UnescapeData(data: seq<byte>) returns (unescaped: seq<byte>)
    ensures unescaped == UnescapeSpec(data)
  {
    if |data| < 2 || data[0] != Flag || data[|data| - 1] != Flag {
      return data;
    }
    var payload := data[1..|data| - 1];
    unescaped := [];
    var i := 0;
    while i < |payload|
      invariant 0 <= i <= |payload|
      invariant unescaped + Unstuff(payload[i..]) == Unstuff(payload)
    {
      if payload[i] == ControlEscape && i + 1 < |payload| {
        assert Unstuff(payload[i..]) == [Xor20(payload[i + 1])] + Unstuff(payload[i + 2..]);
        unescaped := unescaped + [Xor20(payload[i + 1])];
        i := i + 2;
      } else {
        assert Unstuff(payload[i..]) == [payload[i]] + Unstuff(payload[i + 1..]);
        unescaped := unescaped + [payload[i]];
        i := i + 1;
      }
    }
  }

  /** decode_altitude: 0 is singled out as -1000 ft, which is what the formula gives anyway; 0xFFF is not "Invalid". */
  function DecodeAltitude(raw: int): (r: int)
    ensures r == raw * 25 - 1000
    ensures 0 <= raw < 0x1000 ==> -1000 <= r <= 101375
  {
    if raw == 0 then -1000 else raw * 25 - 1000
  }

  /** decode_velocity as written: 0xFFE, the largest speed the encoders send, is "No data". */
  function DecodeVelocity(raw: int): (r: Option<int>)
    ensures r.None? <==> raw == 0xFFE
    ensures r.Some? ==> r.value == raw
  {
    if raw == 0xFFE then None else Some(raw)
  }

  /** decode_velocity with the "no data" value of the other decoders, 0xFFF. */
  function DecodeVelocityCorrected(raw: int): (r: Option<int>)
    ensures r.None? <==> raw == 0xFFF
    ensures r.Some? ==> r.value == raw
  {
    if raw == 0xFFF then None else Some(raw)
  }

  /** decode_vertical_velocity: 0x800 is "No data"; otherwise the 12-bit value sign-extended, times 64. */
  function DecodeVerticalVelocity(raw: int): (r: Option<int>)
    requires 0 <= raw < 0x1000
    ensures r.None? <==> raw == 0x800
    ensures r.Some? ==> r.value % 64 == 0 && -0x800 * 64 < r.value < 0x800 * 64
    ensures r.Some? ==> (r.value < 0 <==> raw > 0x800)
  {
    if raw == 0x800 then None
    else
      var units := if raw >= 0x800 then raw - 0x1000 else raw;
      Some(units * 64)
  }

  /** The characters bytes.decode('ascii', errors='ignore') keeps: bytes above 127 are dropped. */
  function AsciiIgnore(bytes: seq<byte>): (r: seq<char>)
    ensures |r| <= |bytes|
    ensures forall k :: 0 <= k < |r| ==> (r[k] as int) < 128
  {
    if |bytes| == 0 then []
    else
      var rest := AsciiIgnore(bytes[1..]);
      if bytes[0] < 128 then [bytes[0] as char] + rest else rest
  }

  /** The ASCII characters Python's str.isspace() accepts. */
  predicate IsWhitespace(c: char)
  {
    c == ' ' || 9 <= c as int <= 13 || 28 <= c as int <= 31
  }

  /** str.strip(): whitespace removed at both ends. */
  function Strip(s: seq<char>): (r: seq<char>)
    ensures |r| <= |s|
    ensures |r| > 0 ==> !IsWhitespace(r[0]) && !IsWhitespace(r[|r| - 1])
    decreases |s|
  {
    if |s| == 0 then []
    else if IsWhitespace(s[0]) then Strip(s[1..])
    else if IsWhitespace(s[|s| - 1]) then Strip(s[..|s| - 1])
    else s
  }

  /** The integer fields decode_position_report reports; the address and alert byte for traffic only. */
  datatype PositionFields = PositionFields(
    alertStatus: Option<byte>,
    icaoAddress: Option<int>,
    latitude: int,            // 24-bit two's complement, before the scaling to degrees
    longitude: int,
    altitude: int,            // feet
    nic: int,
    nacp: int,
    hVelocity: Option<int>,   // knots
    vVelocity: Option<int>,   // feet per minute
    trackRaw: byte,
    emitterCategory: byte,
    callsign: seq<char>,
    emergencyCode: byte)

  datatype Body =
    | HeartbeatBody(heartbeat: ReceiverDecoder.HeartbeatInfo)
    | HeartbeatTooShort
    | PositionBody(isOwnship: bool, fields: PositionFields)
    | PositionTooShort
    | UnknownBody(msgId: byte)

  /** What decode_packet returns: decoded whatever the CRC check says. */
  datatype Decoded = PacketTooShort | Packet(crcValid: bool, crcReceived: int, crcCalculated: int, body: Body)

  /** decode_heartbeat on the whole payload, message id included: seven bytes at least. */
  function DecodeHeartbeat(data: seq<byte>): (b: Body)
    ensures b.HeartbeatTooShort? <==> |data| < 7
    ensures b.HeartbeatBody? || b.HeartbeatTooShort?
  {
    if |data| < 7 then HeartbeatTooShort
    else
      var timestampLow := ReadLe16(data, 3);
      var messageCount := ReadBe16(data, 5);
      var timestampBit16 := (data[2] as int) / 128;
      var timestamp := timestampLow + timestampBit16 * 0x1_0000;
      HeartbeatBody(ReceiverDecoder.HeartbeatInfo(data[1], data[2], timestamp,
        timestamp / 3600, (timestamp % 3600) / 60, timestamp % 60, messageCount))
  }

  /** decode_position_report on the whole payload, message id included: 28 bytes at least. */
  function DecodePositionReport(data: seq<byte>, isOwnship: bool): (b: Body)
    ensures b.PositionTooShort? <==> |data| < 28
    ensures b.PositionBody? || b.PositionTooShort?
    ensures b.PositionBody? ==>
      (b.isOwnship == isOwnship && (b.fields.alertStatus.None? <==> isOwnship) && (b.fields.icaoAddress.None? <==> isOwnship))
  {
    if |data| < 28 then PositionTooShort
    else
      var altMisc := ReadBe16(data, 11);
      var hRaw := ReadBe16(data, 14);
      var vRaw := ReadBe16(data, 15) % 0x1000;
      PositionBody(isOwnship, PositionFields(
        if isOwnship then None else Some(data[1]),
        if isOwnship then None else Some(ReadBe24(data, 2)),
        ReceiverDecoder.Signed24(ReadBe24(data, 5)),
        ReceiverDecoder.Signed24(ReadBe24(data, 8)),
        DecodeAltitude((altMisc / 16) % 0x1000),
        data[13] / 16,
        data[13] % 16,
        DecodeVelocity((hRaw / 16) % 0x1000),
        DecodeVerticalVelocity(vRaw),
        data[17],
        data[18],
        Strip(AsciiIgnore(data[19..27])),
        data[27]))
  }

  /** decode_packet: unescape, CRC low byte first, then dispatch on the message id. */
  function DecodePacket(data: seq<byte>): (r: Decoded)
    ensures r.PacketTooShort? <==> |UnescapeSpec(data)| < 3
    ensures r.Packet? ==> (r.crcValid <==> r.crcReceived == r.crcCalculated)
  {
    var unescaped := UnescapeSpec(data);
    if |unescaped| < 3 then PacketTooShort
    else
      var payload := unescaped[..|unescaped| - 2];
      var crcReceived := LittleEndian16(unescaped[|unescaped| - 2], unescaped[|unescaped| - 1]);
      var crcCalculated := CrcValue(payload);
      Packet(crcReceived == crcCalculated, crcReceived, crcCalculated, PayloadBody(payload))
  }

  /** The dispatch of decode_packet on the message id, applied whatever the CRC. */
  function PayloadBody(payload: seq<byte>): (b: Body)
    requires |payload| >= 1
    ensures b.UnknownBody? <==> payload[0] !in {0x00, 0x0A, 0x14}
  {
    if payload[0] == 0x00 then DecodeHeartbeat(payload)
    else if payload[0] == 0x0A then DecodePositionReport(payload, true)
    else if payload[0] == 0x14 then DecodePositionReport(payload, false)
    else UnknownBody(payload[0])
  }

  /** A frame from any of the encoders unescapes to the payload followed by its CRC bytes. */
  lemma {:induction false} FrameUnescapes(payload: seq<byte>)
    requires |payload| >= 1
    ensures UnescapeSpec(Frame(payload)) == WithCrc(payload)
  {
    ReceiverDecoder.FrameReachesCrcCheck(payload);
  }

  /** A payload followed by its CRC bytes, low first, passes the check and is decoded. */
  lemma {:induction false} PacketOfUnescaped(data: seq<byte>, payload: seq<byte>, lo: byte, hi: byte)
    requires |payload| >= 1 && UnescapeSpec(data) == payload + [lo, hi]
    requires CrcValue(payload) == LittleEndian16(lo, hi)
    ensures DecodePacket(data) == Packet(true, CrcValue(payload), CrcValue(payload), PayloadBody(payload))
  {
    var u := payload + [lo, hi];
    assert u[..|u| - 2] == payload;
  }

  /** Every frame the encoders produce passes the low-byte-first CRC check and its payload is decoded. */
  lemma {:induction false} FrameRoundTrip(payload: seq<byte>)
    requires |payload| >= 1
    ensures DecodePacket(Frame(payload)) == Packet(true, CrcValue(payload), CrcValue(payload), PayloadBody(payload))
  {
    FrameUnescapes(payload);
    var crc := Crc(payload);
    CrcTail(payload, crc);
    PacketOfUnescaped(Frame(payload), payload, CrcLow(crc), CrcHigh(crc));
  }

  /** The two bytes WithCrc appends, read low byte first, are the CRC of the payload. */
  lemma {:induction false} CrcTail(payload: seq<byte>, crc: bv16)
    requires crc == Crc(payload)
    ensures WithCrc(payload) == payload + [CrcLow(crc), CrcHigh(crc)]
    ensures CrcValue(payload) == LittleEndian16(CrcLow(crc), CrcHigh(crc))
  {
    CrcBytesValue(crc);
  }

  /** Both Heartbeat decoders read the same fields, this one from the payload with its message id. */
  lemma {:induction false} HeartbeatAgrees(data: seq<byte>)
    requires |data| >= 1
    ensures DecodeHeartbeat(data).HeartbeatBody? <==> ReceiverDecoder.DecodeHeartbeat(data[1..]).HeartbeatMessage?
    ensures DecodeHeartbeat(data).HeartbeatBody? ==>
      DecodeHeartbeat(data).heartbeat == ReceiverDecoder.DecodeHeartbeat(data[1..]).heartbeat
  {
  }

  /** The vertical rate is decoded as the offline decoder decodes it. */
  lemma {:induction false} VerticalVelocityAgrees(raw: int)
    requires 0 <= raw < 0x1000
    ensures DecodeVerticalVelocity(raw) == ReceiverDecoder.DecodeVerticalVelocity(raw)
  {
  }

  /** The special case for 0 changes nothing, and 0xFFF is reported as an altitude of 101375 ft. */
  lemma {:induction false} AltitudeIsLinear(raw: int)
    ensures DecodeAltitude(raw) == raw * 25 - 1000
    ensures DecodeAltitude(0xFFF) == 101375
  {
  }

  /** Latitude, longitude, NIC/NACp, vertical rate, track and emitter agree with the offline decoder; traffic adds the address and the whole status byte. */
  lemma {:induction false} PositionAgrees(data: seq<byte>, isOwnship: bool)
    requires |data| >= 28
    ensures var f := DecodePositionReport(data, isOwnship).fields;
      var m := ReceiverDecoder.DecodePositionReport(data[1..], isOwnship).position;
      && f.latitude == m.latitude && f.longitude == m.longitude
      && f.nic == m.nic && f.nacp == m.nacp
      && f.vVelocity == m.vVelocity
      && f.trackRaw == m.trackRaw && f.emitterCategory == m.emitterCategory
      && (!isOwnship ==> f.icaoAddress == Some(m.icaoAddress) && f.alertStatus == Some(data[1]))
  {
    var rest := data[1..];
    assert ReadBe24(data, 2) == ReadBe24(rest, 1) && ReadBe24(data, 5) == ReadBe24(rest, 4) && ReadBe24(data, 8) == ReadBe24(rest, 7);
    VerticalBits(data[14], data[15], data[16]);
  }

  /** The low 12 bits of bytes 15-16 are the low nibble of byte 15 and byte 16. */
  lemma {:induction false} VerticalBits(b0: byte, b1: byte, b2: byte)
    ensures ((b1 as int) * 256 + b2) % 0x1000 == ((b1 as int) % 16) * 256 + b2
  {
    assert (b1 as int) * 256 + b2 == ((b1 as int) / 16) * 0x1000 + ((b1 as int) % 16) * 256 + b2;
  }

  /** The top 12 bits of three bytes are the first byte and the high nibble of the second. */
  lemma {:induction false} SpeedBits(b0: byte, b1: byte, b2: byte)
    ensures (((b0 as int) * 256 + b1) / 16) % 0x1000 == ((b0 as int) * 0x1_0000 + (b1 as int) * 256 + b2) / 0x1000
  {
    var w := (b0 as int) * 256 + b1;
    assert (b0 as int) * 0x1_0000 + (b1 as int) * 256 + b2 == (w / 16) * 0x1000 + (w % 16) * 256 + b2;
  }

  /**
   * As written, the speed the encoders send for anything at or above 0xFFE
   * knots (they clamp to 0xFFE) is reported as "No data"; below that it is
   * reported as sent.
   */
  lemma {:induction false} SpeedAsWritten(msgId: byte, d: Gdl90Encoder.PositionData, isOwnship: bool)
    ensures var f := DecodePositionReport(Gdl90Encoder.PositionPayload(msgId, d), isOwnship).fields;
      && (f.hVelocity.None? <==> d.hVelocity >= 0xFFE)
      && (d.hVelocity < 0xFFE ==> f.hVelocity == Some(d.hVelocity))
  {
    EncoderLemmas.PositionPayloadFields(msgId, d);
    var p := Gdl90Encoder.PositionPayload(msgId, d);
    SpeedBits(p[14], p[15], p[16]);
  }

  /** With 0xFFF as "No data", every encoded speed comes back, clamped to 0xFFE as the encoders clamp it. */
  lemma {:induction false} SpeedCorrected(msgId: byte, d: Gdl90Encoder.PositionData)
    ensures var p := Gdl90Encoder.PositionPayload(msgId, d);
      DecodeVelocityCorrected((ReadBe16(p, 14) / 16) % 0x1000) == Some(Min(d.hVelocity, 0xFFE))
  {
    EncoderLemmas.PositionPayloadFields(msgId, d);
    var p := Gdl90Encoder.PositionPayload(msgId, d);
    SpeedBits(p[14], p[15], p[16]);
  }

  /** The emergency code as the offline decoder reads it: the high nibble of byte 27. */
  function EmergencyCodeCorrected(b: byte): (r: byte)
    ensures r < 16
  {
    b / 16
  }

  /** As written, the emergency code is the whole byte 27, so the encoders' code c comes back as 16 c. */
  lemma {:induction false} EmergencyAsWritten(msgId: byte, d: Gdl90Encoder.PositionData, isOwnship: bool)
    ensures DecodePositionReport(Gdl90Encoder.PositionPayload(msgId, d), isOwnship).fields.emergencyCode
      == (d.emergencyCode % 16) * 16
  {
    EncoderLemmas.PositionPayloadFields(msgId, d);
  }

  /** Read as the high nibble, byte 27 gives back the code the encoders wrote. */
  lemma {:induction false} EmergencyCorrected(msgId: byte, d: Gdl90Encoder.PositionData)
    ensures EmergencyCodeCorrected(Gdl90Encoder.PositionPayload(msgId, d)[27]) == d.emergencyCode % 16
  {
    EncoderLemmas.PositionPayloadFields(msgId, d);
  }

  /** Latitude, longitude and, for traffic, the address come back from an encoded report. */
  lemma {:induction false} PositionHeaderRoundTrip(msgId: byte, d: Gdl90Encoder.PositionData, isOwnship: bool)
    ensures var f := DecodePositionReport(Gdl90Encoder.PositionPayload(msgId, d), isOwnship).fields;
      && f.latitude % 0x100_0000 == d.latitude % 0x100_0000
      && f.longitude % 0x100_0000 == d.longitude % 0x100_0000
      && (!isOwnship ==> f.icaoAddress == Some(d.icaoAddress % 0x100_0000))
  {
    PositionAgrees(Gdl90Encoder.PositionPayload(msgId, d), isOwnship);
    ReceiverDecoder.PositionHeaderRoundTrip(msgId, d, isOwnship);
  }

  /** NIC/NACp, vertical rate, track and emitter category come back from an encoded report. */
  lemma {:induction false} PositionKinematicsRoundTrip(msgId: byte, d: Gdl90Encoder.PositionData, isOwnship: bool)
    ensures var f := DecodePositionReport(Gdl90Encoder.PositionPayload(msgId, d), isOwnship).fields;
      && f.nic == d.nic % 16 && f.nacp == d.nacp % 16
      && f.vVelocity == ReceiverDecoder.DecodeVerticalVelocity(Gdl90Encoder.EncodeVerticalVelocity(d.vVelocity))
      && f.trackRaw == Gdl90Encoder.EncodeTrack(d.track)
      && f.emitterCategory == d.emitterCategory
  {
    PositionAgrees(Gdl90Encoder.PositionPayload(msgId, d), isOwnship);
    ReceiverDecoder.PositionKinematicsRoundTrip(msgId, d, isOwnship);
    ReceiverDecoder.PositionIdentityRoundTrip(msgId, d, isOwnship);
  }

  /** The altitude comes back as the encoded 25 ft step, 0xFFF included. */
  lemma {:induction false} AltitudeRoundTrip(msgId: byte, d: Gdl90Encoder.PositionData, isOwnship: bool)
    ensures DecodePositionReport(Gdl90Encoder.PositionPayload(msgId, d), isOwnship).fields.altitude
      == Gdl90Encoder.EncodeAltitude(d.altitude) * 25 - 1000
  {
    var p := Gdl90Encoder.PositionPayload(msgId, d);
    EncoderLemmas.PositionPayloadFields(msgId, d);
    var raw := Gdl90Encoder.EncodeAltitude(d.altitude);
    assert ReadBe16(p, 11) / 16 == raw;
    Below12Bits(raw);
    AltitudeField(p, isOwnship);
  }

  lemma {:induction false} Below12Bits(x: nat)
    requires x < 0x1000
    ensures x % 0x1000 == x
  {
  }

  /** The altitude field is the top 12 bits of bytes 11 and 12. */
  lemma {:induction false} AltitudeField(data: seq<byte>, isOwnship: bool)
    requires |data| >= 28
    ensures DecodePositionReport(data, isOwnship).fields.altitude == DecodeAltitude((ReadBe16(data, 11) / 16) % 0x1000)
  {
  }

  /** Bytes below 128 survive the ASCII decode one for one. */
  lemma {:induction false} AsciiIgnorePlain(bytes: seq<byte>)
    requires forall k :: 0 <= k < |bytes| ==> bytes[k] < 128
    ensures AsciiIgnore(bytes) == ReceiverDecoder.AsChars(bytes)
  {
    if |bytes| > 0 {
      AsciiIgnorePlain(bytes[1..]);
      assert ReceiverDecoder.AsChars(bytes) == [bytes[0] as char] + ReceiverDecoder.AsChars(bytes[1..]);
    }
  }

  /** Stripping a run of spaces leaves nothing. */
  lemma {:induction false} StripSpaces(n: nat)
    ensures Strip(seq(n, _ => ' ')) == []
  {
    if n > 0 {
      assert seq(n, _ => ' ')[1..] == seq(n - 1, _ => ' ');
      StripSpaces(n - 1);
    }
  }

  /** Spaces appended to a text that neither starts nor ends with whitespace are all that strip removes. */
  lemma {:induction false} StripPadding(s: seq<char>, n: nat)
    requires |s| > 0 && !IsWhitespace(s[0]) && !IsWhitespace(s[|s| - 1])
    ensures Strip(s + seq(n, _ => ' ')) == s
  {
    if n > 0 {
      var t := s + seq(n, _ => ' ');
      assert t[..|t| - 1] == s + seq(n - 1, _ => ' ');
      StripPadding(s, n - 1);
    }
  }

  /** The callsign field of a short printable callsign, decoded and stripped, is the callsign. */
  lemma {:induction false} CallsignFieldText(callsign: seq<byte>)
    requires |callsign| <= 8
    requires forall k :: 0 <= k < |callsign| ==> 32 <= callsign[k] <= 126
    requires |callsign| == 0 || (callsign[0] != 0x20 && callsign[|callsign| - 1] != 0x20)
    ensures Strip(AsciiIgnore(Gdl90Encoder.CallsignField(callsign))) == ReceiverDecoder.AsChars(callsign)
  {
    var field := Gdl90Encoder.CallsignField(callsign);
    var text := ReceiverDecoder.AsChars(callsign);
    AsciiIgnorePlain(field);
    assert ReceiverDecoder.AsChars(field) == text + seq(8 - |callsign|, _ => ' ');
    if |callsign| == 0 {
      assert text + seq(8, _ => ' ') == seq(8, _ => ' ');
      StripSpaces(8);
    } else {
      StripPadding(text, 8 - |callsign|);
    }
  }

  /**
   * A callsign of at most 8 printable characters that neither starts nor
   * ends with a space comes back from an encoded report as it was given.
   */
  lemma {:induction false} CallsignRoundTrip(msgId: byte, d: Gdl90Encoder.PositionData, isOwnship: bool)
    requires |d.callsign| <= 8
    requires forall k :: 0 <= k < |d.callsign| ==> 32 <= d.callsign[k] <= 126
    requires |d.callsign| == 0 || (d.callsign[0] != 0x20 && d.callsign[|d.callsign| - 1] != 0x20)
    ensures DecodePositionReport(Gdl90Encoder.PositionPayload(msgId, d), isOwnship).fields.callsign
      == ReceiverDecoder.AsChars(d.callsign)
  {
    EncoderLemmas.PositionPayloadFields(msgId, d);
    CallsignFieldText(d.callsign);
  }
}
