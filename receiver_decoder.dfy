/**
 * The offline decoder of the receiver (reciever/gdl90_decoder.py): its CRC
 * and unstuffing loops, frame decoding with its error cases, the Heartbeat and
 * position report decoders, and the record layout of a capture file.  Values
 * the decoder scales by floating-point factors (latitude, longitude, track)
 * are kept as the raw integers it scales.
 */
module ReceiverDecoder {
  import opened Bytes
  import opened Fields
  import opened Framing
  import Gdl90Encoder
  import EncoderLemmas
  import CrcExamples
  import MockSender
  import PyEncoder

  /** compute_crc: the plugin's CRC, masked to 16 bits. */
  method ComputeCrc(data: seq<byte>) returns (crc: int)
    ensures crc == CrcValue(data)
  {
    var register: bv16 := 0;
    var i := 0;
    while i < |data|
      invariant 0 <= i <= |data|
      invariant register == Crc(data[..i])
    {
      CrcSnoc(data, i);
      register := CrcStep(register, data[i]);
      i := i + 1;
    }
    assert data[..|data|] == data;
    crc := register as int;
  }

  /** unescape_data: 0x7D and the byte after it become that byte xor 0x20; a last lone 0x7D stays. */
  method UnescapeData(data: seq<byte>) returns (unescaped: seq<byte>)
    ensures unescaped == Unstuff(data)
  {
    unescaped := [];
    var i := 0;
    while i < |data|
      invariant 0 <= i <= |data|
      invariant unescaped + Unstuff(data[i..]) == Unstuff(data)
    {
      if data[i] == ControlEscape && i + 1 < |data| {
        assert Unstuff(data[i..]) == [Xor20(data[i + 1])] + Unstuff(data[i + 2..]);
        unescaped := unescaped + [Xor20(data[i + 1])];
        i := i + 2;
      } else {
        assert Unstuff(data[i..]) == [data[i]] + Unstuff(data[i + 1..]);
        unescaped := unescaped + [data[i]];
        i := i + 1;
      }
    }
  }

  /** The names get_message_type_name gives; any other id is "Unknown". */
  datatype MessageType = HeartbeatType | OwnshipReportType | OwnshipGeoAltitudeType | TrafficReportType | UnknownType(id: byte)

  function MessageTypeName(msgId: byte): (t: MessageType)
    ensures t.UnknownType? <==> msgId !in {0x00, 0x0A, 0x0B, 0x14}
    ensures t.UnknownType? ==> t.id == msgId
  {
    if msgId == 0x00 then HeartbeatType
    else if msgId == 0x0A then OwnshipReportType
    else if msgId == 0x0B then OwnshipGeoAltitudeType
    else if msgId == 0x14 then TrafficReportType
    else UnknownType(msgId)
  }

  /** The fields decode_heartbeat reports. */
  datatype HeartbeatInfo = HeartbeatInfo(
    status1: byte, status2: byte, timestamp: nat,
    hours: nat, minutes: nat, seconds: nat, messageCount: nat)

  /** Byte 1 of a position report, read the traffic way or the ownship way. */
  datatype StatusInfo = TrafficStatus(alertStatus: int, addressType: int) | OwnshipStatus(status: int, addressType: int)

  /** The integer fields decode_position_report reports; None where it reports "Invalid" or "No data". */
  datatype PositionInfo = PositionInfo(
    statusByte: StatusInfo,
    icaoAddress: int,
    latitude: int,            // 24-bit two's complement, before the scaling to degrees
    longitude: int,
    altitude: Option<int>,    // feet
    misc: int,
    airborne: bool,
    extrapolated: bool,
    trackType: int,
    nic: int,
    nacp: int,
    hVelocity: Option<int>,   // knots
    vVelocity: Option<int>,   // feet per minute
    trackRaw: byte,           // before the scaling to degrees
    emitterCategory: byte,
    callsign: seq<char>,
    emergencyCode: int)

  datatype Message =
    | HeartbeatMessage(heartbeat: HeartbeatInfo)
    | HeartbeatTooShort
    | PositionMessage(position: PositionInfo)
    | PositionTooShort(got: nat)
    | OtherMessage(data: seq<byte>)

  /** What follows the CRC check: nothing decoded on a mismatch. */
  datatype Body = NoMessageId | CrcMismatch(msgId: byte, kind: MessageType) | Decoded(msgId: byte, kind: MessageType, message: Message)

  datatype FrameResult =
    | FrameTooShort
    | InvalidFrameFlags
    | PayloadTooShort
    | FrameInfo(frameLength: nat, payloadLength: nat, crcReceived: int, crcCalculated: int, crcValid: bool,
                unescaped: seq<byte>, body: Body)

  /** The 24-bit two's complement the decoder applies to latitude and longitude. */
  function Signed24(v: int): (r: int)
    requires 0 <= v < 0x100_0000
    ensures -0x80_0000 <= r < 0x80_0000
    ensures r % 0x100_0000 == v
  {
    if v >= 0x80_0000 then -(0x100_0000 - v) else v
  }

  /** decode_heartbeat: six bytes at least; the timestamp's bit 16 comes from bit 7 of the second status byte. */
  function DecodeHeartbeat(data: seq<byte>): (m: Message)
    ensures m.HeartbeatTooShort? <==> |data| < 6
    ensures m.HeartbeatMessage? ==>
      (m.heartbeat.timestamp < 0x2_0000
       && m.heartbeat.hours * 3600 + m.heartbeat.minutes * 60 + m.heartbeat.seconds == m.heartbeat.timestamp
       && m.heartbeat.minutes < 60 && m.heartbeat.seconds < 60)
  {
    if |data| < 6 then HeartbeatTooShort
    else
      var timestampLow := (data[3] as int) * 256 + data[2];
      var messageCount := (data[4] as int) * 256 + data[5];
      var tsBit16 := (data[1] as int) / 128;
      var timestamp := timestampLow + tsBit16 * 0x1_0000;
      ClockParts(timestamp);
      HeartbeatMessage(HeartbeatInfo(data[0], data[1], timestamp,
        timestamp / 3600, (timestamp % 3600) / 60, timestamp % 60, messageCount))
  }

  /** Hours, minutes and seconds put back together give the seconds since midnight. */
  lemma {:induction false} ClockParts(t: nat)
    ensures (t / 3600) * 3600 + ((t % 3600) / 60) * 60 + t % 60 == t
    ensures (t % 3600) / 60 < 60 && t % 60 < 60
  {
    var h := t / 3600;
    var r := t % 3600;
    var m := r / 60;
    var sec := r % 60;
    assert t == h * 3600 + r && r == m * 60 + sec;
    assert t == (h * 60 + m) * 60 + sec;
  }

  /** Callsign bytes 32..126 kept as characters, any other byte a space. */
  function PrintableChars(bytes: seq<byte>): (r: seq<char>)
    ensures |r| == |bytes|
    ensures forall k :: 0 <= k < |r| ==> r[k] == if 32 <= bytes[k] <= 126 then bytes[k] as char else ' '
  {
    if |bytes| == 0 then []
    else PrintableChars(bytes[..|bytes| - 1]) + [if 32 <= bytes[|bytes| - 1] <= 126 then bytes[|bytes| - 1] as char else ' ']
  }

  /** rstrip(): the trailing spaces removed (no other whitespace can remain after PrintableChars). */
  function RStrip(s: seq<char>): (r: seq<char>)
    ensures |r| <= |s| && r == s[..|r|]
    ensures |r| > 0 ==> r[|r| - 1] != ' '
    ensures forall k :: |r| <= k < |s| ==> s[k] == ' '
  {
    if |s| == 0 || s[|s| - 1] != ' ' then s else RStrip(s[..|s| - 1])
  }

  /** The 12-bit sign extension, times 64 feet per minute; 0x800 is "No data". */
  function DecodeVerticalVelocity(v: int): (r: Option<int>)
    requires 0 <= v < 0x1000
    ensures r.None? <==> v == 0x800
    ensures r.Some? ==> r.value == Signed12(v) * 64
  {
    if v == 0x800 then None
    else
      var signed := if v >= 0x800 then -(0x1000 - v) else v;
      Some(signed * 64)
  }

  /** Byte 1: ownship reports split it into nibbles, traffic reports into bit 7 and bits 6-4. */
  function DecodeStatus(b: byte, isOwnship: bool): (r: StatusInfo)
    ensures r.OwnshipStatus? <==> isOwnship
    ensures isOwnship ==> r.status * 16 + r.addressType == b
    ensures !isOwnship ==> 0 <= r.alertStatus < 2 && 0 <= r.addressType < 8 && r.alertStatus * 128 + r.addressType * 16 == b - b % 16
  {
    if isOwnship then OwnshipStatus(b / 16, b % 16)
    else TrafficStatus(b / 128, (b / 16) % 8)
  }

  /** decode_position_report on the bytes after the message id: 27 at least. */
  function DecodePositionReport(data: seq<byte>, isOwnship: bool): (m: Message)
    ensures m.PositionTooShort? <==> |data| < 27
    ensures m.PositionTooShort? ==> m.got == |data|
    ensures m.PositionMessage? ==> (m.position.statusByte.OwnshipStatus? <==> isOwnship)
  {
    if |data| < 27 then PositionTooShort(|data|)
    else
      var statusByte := DecodeStatus(data[0], isOwnship);
      var altMisc := ReadBe16(data, 10);
      var altitudeEncoded := altMisc / 16;
      var misc := altMisc % 16;
      var hVelocity := ((data[13] as int) * 16 + data[14] / 16) % 0x1000;
      var vVelocity := ((data[14] as int) % 16) * 256 + data[15];
      PositionMessage(PositionInfo(
        statusByte,
        ReadBe24(data, 1),
        Signed24(ReadBe24(data, 4)),
        Signed24(ReadBe24(data, 7)),
        if altitudeEncoded == 0xFFF then None else Some(altitudeEncoded * 25 - 1000),
        misc,
        misc / 8 == 1,
        (misc / 4) % 2 == 1,
        misc % 4,
        data[12] / 16,
        data[12] % 16,
        if hVelocity == 0xFFF then None else Some(hVelocity),
        DecodeVerticalVelocity(vVelocity),
        data[16],
        data[17],
        RStrip(PrintableChars(data[18..26])),
        data[26] / 16))
  }

  /** decode_message: dispatch on the message id. */
  function DecodeMessage(msgId: byte, data: seq<byte>): (m: Message)
    ensures msgId == 0x00 ==> m == DecodeHeartbeat(data)
    ensures msgId == 0x0A ==> m == DecodePositionReport(data, true)
    ensures msgId == 0x14 ==> m == DecodePositionReport(data, false)
    ensures msgId !in {0x00, 0x0A, 0x14} ==> m == OtherMessage(data)
  {
    if msgId == 0x00 then DecodeHeartbeat(data)
    else if msgId == 0x0A then DecodePositionReport(data, true)
    else if msgId == 0x14 then DecodePositionReport(data, false)
    else OtherMessage(data)
  }

  /**
   * The CRC as decode_frame assembles it: the encoders' low-byte-first reading
   * with the two bytes swapped, so it agrees with that reading only when the
   * two bytes are equal.
   */
  function ReceivedCrc(unescaped: seq<byte>): (r: int)
    requires |unescaped| >= 2
    ensures 0 <= r < 0x1_0000
    ensures r == LittleEndian16(unescaped[|unescaped| - 1], unescaped[|unescaped| - 2])
    ensures r == ReceivedCrcCorrected(unescaped) <==> unescaped[|unescaped| - 2] == unescaped[|unescaped| - 1]
  {
    (unescaped[|unescaped| - 2] as int) * 256 + unescaped[|unescaped| - 1]
  }

  /** The CRC as every encoder writes it: the second-to-last byte low, the last high. */
  function ReceivedCrcCorrected(unescaped: seq<byte>): (r: int)
    requires |unescaped| >= 2
    ensures r == LittleEndian16(unescaped[|unescaped| - 2], unescaped[|unescaped| - 1])
  {
    unescaped[|unescaped| - 2] as int + 256 * (unescaped[|unescaped| - 1] as int)
  }

  /** decode_frame after the length and flag checks, for a given way of reading the received CRC. */
  function DecodeUnescaped(frameLength: nat, unescaped: seq<byte>, crcReceived: int): (r: FrameResult)
    requires |unescaped| >= 3
    ensures r.FrameInfo? && r.unescaped == unescaped && r.frameLength == frameLength
    ensures r.crcValid <==> crcReceived == CrcValue(unescaped[..|unescaped| - 2])
    ensures r.body.Decoded? <==> r.crcValid
    ensures r.body.Decoded? ==>
      (r.body.msgId == unescaped[0] && r.body.message == DecodeMessage(unescaped[0], unescaped[1..|unescaped| - 2]))
  {
    var messageData := unescaped[..|unescaped| - 2];
    var calculated := CrcValue(messageData);
    var valid := calculated == crcReceived;
    var body :=
      if |messageData| > 0 then
        var msgId := messageData[0];
        if valid then Decoded(msgId, MessageTypeName(msgId), DecodeMessage(msgId, messageData[1..]))
        else CrcMismatch(msgId, MessageTypeName(msgId))
      else NoMessageId;
    FrameInfo(frameLength, |unescaped|, crcReceived, calculated, valid, unescaped, body)
  }

  /** decode_frame as written: the error cases in order, then the high-byte-first CRC check. */
  function DecodeFrameSpec(frame: seq<byte>): (r: FrameResult)
    ensures r == FrameTooShort <==> |frame| < 5
    ensures r == InvalidFrameFlags <==> |frame| >= 5 && (frame[0] != Flag || frame[|frame| - 1] != Flag)
    ensures r == PayloadTooShort <==> |frame| >= 5 && frame[0] == Flag && frame[|frame| - 1] == Flag
                                      && |Unstuff(frame[1..|frame| - 1])| < 3
  {
    if |frame| < 5 then FrameTooShort
    else if frame[0] != Flag || frame[|frame| - 1] != Flag then InvalidFrameFlags
    else
      var unescaped := Unstuff(frame[1..|frame| - 1]);
      if |unescaped| < 3 then PayloadTooShort
      else DecodeUnescaped(|frame|, unescaped, ReceivedCrc(unescaped))
  }

  /** decode_frame with the CRC read low byte first, as the encoders write it. */
  function DecodeFrameCorrected(frame: seq<byte>): (r: FrameResult)
    ensures r == FrameTooShort <==> |frame| < 5
    ensures r == InvalidFrameFlags <==> |frame| >= 5 && (frame[0] != Flag || frame[|frame| - 1] != Flag)
  {
    if |frame| < 5 then FrameTooShort
    else if frame[0] != Flag || frame[|frame| - 1] != Flag then InvalidFrameFlags
    else
      var unescaped := Unstuff(frame[1..|frame| - 1]);
      if |unescaped| < 3 then PayloadTooShort
      else DecodeUnescaped(|frame|, unescaped, ReceivedCrcCorrected(unescaped))
  }

  /** decode_frame: the body unstuffed by the loop, the CRC computed by the loop. */
  method DecodeFrame(frame: seq<byte>) returns (r: FrameResult)
    ensures r == DecodeFrameSpec(frame)
  {
    if |frame| < 5 {
      return FrameTooShort;
    }
    if frame[0] != Flag || frame[|frame| - 1] != Flag {
      return InvalidFrameFlags;
    }
    var unescaped := UnescapeData(frame[1..|frame| - 1]);
    if |unescaped| < 3 {
      return PayloadTooShort;
    }
    var messageData := unescaped[..|unescaped| - 2];
    var crcReceived := (unescaped[|unescaped| - 2] as int) * 256 + unescaped[|unescaped| - 1];
    var crcCalculated := ComputeCrc(messageData);
    var crcValid := crcCalculated == crcReceived;
    var body;
    if |messageData| > 0 {
      var msgId := messageData[0];
      if crcValid {
        body := Decoded(msgId, MessageTypeName(msgId), DecodeMessage(msgId, messageData[1..]));
      } else {
        body := CrcMismatch(msgId, MessageTypeName(msgId));
      }
    } else {
      body := NoMessageId;
    }
    r := FrameInfo(|frame|, |unescaped|, crcReceived, crcCalculated, crcValid, unescaped, body);
  }

  /** Decoding a frame the encoders produced gets as far as the CRC check, with the payload and CRC unstuffed. */
  lemma {:induction false} FrameReachesCrcCheck(payload: seq<byte>)
    requires |payload| >= 1
    ensures var f := Frame(payload);
      && |f| >= 5 && f[0] == Flag && f[|f| - 1] == Flag
      && Unstuff(f[1..|f| - 1]) == WithCrc(payload)
  {
    FrameLength(payload);
    FrameInterior(payload);
    FrameUnstuff(payload);
  }

  /**
   * As written, the check accepts a frame from any of the encoders only when
   * the two bytes of its CRC happen to be equal: the bytes are read in the
   * opposite order to the one they were written in.
   */
  lemma {:induction false} AsWrittenCrcCheck(payload: seq<byte>)
    requires |payload| >= 1
    ensures var r := DecodeFrameSpec(Frame(payload));
      && r.FrameInfo? && r.unescaped == WithCrc(payload)
      && (r.crcValid <==> CrcLow(Crc(payload)) == CrcHigh(Crc(payload)))
  {
    FrameDecodesUnescaped(payload);
    var crc := Crc(payload);
    CrcBytesValue(crc);
    SwappedCheck(|Frame(payload)|, payload, CrcLow(crc), CrcHigh(crc), WithCrc(payload));
  }

  /** Both versions of decode_frame take an encoder's frame to the CRC check on the payload and its CRC bytes. */
  lemma {:induction false} FrameDecodesUnescaped(payload: seq<byte>)
    requires |payload| >= 1
    ensures var f, u := Frame(payload), WithCrc(payload);
      && DecodeFrameSpec(f) == DecodeUnescaped(|f|, u, ReceivedCrc(u))
      && DecodeFrameCorrected(f) == DecodeUnescaped(|f|, u, ReceivedCrcCorrected(u))
  {
    FrameReachesCrcCheck(payload);
    UnstuffedReachesCheck(Frame(payload), WithCrc(payload));
  }

  /** A well-flagged frame whose interior unstuffs to at least three bytes goes on to the CRC check. */
  lemma {:induction false} UnstuffedReachesCheck(f: seq<byte>, u: seq<byte>)
    requires |f| >= 5 && f[0] == Flag && f[|f| - 1] == Flag
    requires Unstuff(f[1..|f| - 1]) == u && |u| >= 3
    ensures DecodeFrameSpec(f) == DecodeUnescaped(|f|, u, ReceivedCrc(u))
    ensures DecodeFrameCorrected(f) == DecodeUnescaped(|f|, u, ReceivedCrcCorrected(u))
  {
  }

  /** The high-byte-first check on a payload followed by its CRC bytes lo, hi passes exactly when lo == hi. */
  lemma {:induction false} SwappedCheck(frameLength: nat, payload: seq<byte>, lo: byte, hi: byte, u: seq<byte>)
    requires |payload| >= 1 && u == payload + [lo, hi]
    requires CrcValue(payload) == LittleEndian16(lo, hi)
    ensures DecodeUnescaped(frameLength, u, ReceivedCrc(u)).crcValid <==> lo == hi
  {
    assert u[..|u| - 2] == payload;
    SwappedBytes(lo, hi);
  }

  /** A 16-bit value and its byte swap agree exactly when the two bytes are equal. */
  lemma {:induction false} SwappedBytes(lo: byte, hi: byte)
    ensures (lo as int) * 256 + hi == LittleEndian16(lo, hi) <==> lo == hi
  {
  }

  /** The sample frame the decoder carries as "correct" is the plugin's frame for its payload, and it is rejected. */
  lemma {:induction false} SampleFrameRejected(frame: seq<byte>, payload: seq<byte>)
    requires frame == [0x7E, 0x00, 0x81, 0x01, 0x00, 0x00, 0x00, 0x00, 0xBC, 0x9C, 0x7E]
    requires payload == [0x00, 0x81, 0x01, 0x00, 0x00, 0x00, 0x00]
    ensures frame == Frame(payload)
    ensures DecodeFrameSpec(frame).FrameInfo? && !DecodeFrameSpec(frame).crcValid
  {
    SampleFrameIsFrame(frame, payload);
    AsWrittenCrcCheck(payload);
  }

  lemma {:induction false} SampleFrameIsFrame(frame: seq<byte>, payload: seq<byte>)
    requires frame == [0x7E, 0x00, 0x81, 0x01, 0x00, 0x00, 0x00, 0x00, 0xBC, 0x9C, 0x7E]
    requires payload == [0x00, 0x81, 0x01, 0x00, 0x00, 0x00, 0x00]
    ensures frame == Frame(payload)
    ensures CrcLow(Crc(payload)) == 0xBC && CrcHigh(Crc(payload)) == 0x9C
  {
    var w := [0x00, 0x81, 0x01, 0x00, 0x00, 0x00, 0x00, 0xBC, 0x9C];
    SampleWithCrc(payload, w);
    SamplePlain(w);
    SampleFlagged(frame, w);
    PlainFrame(payload, w, frame);
  }

  lemma {:induction false} SampleFlagged(frame: seq<byte>, w: seq<byte>)
    requires frame == [0x7E, 0x00, 0x81, 0x01, 0x00, 0x00, 0x00, 0x00, 0xBC, 0x9C, 0x7E]
    requires w == [0x00, 0x81, 0x01, 0x00, 0x00, 0x00, 0x00, 0xBC, 0x9C]
    ensures frame == [Flag] + w + [Flag]
  {
  }

  lemma {:induction false} SampleWithCrc(payload: seq<byte>, w: seq<byte>)
    requires payload == [0x00, 0x81, 0x01, 0x00, 0x00, 0x00, 0x00]
    requires w == [0x00, 0x81, 0x01, 0x00, 0x00, 0x00, 0x00, 0xBC, 0x9C]
    ensures WithCrc(payload) == w
    ensures CrcLow(Crc(payload)) == 0xBC && CrcHigh(Crc(payload)) == 0x9C
  {
    CrcExamples.SampleHeartbeatCrc(payload);
    SampleCrcBytes(Crc(payload));
  }

  lemma {:induction false} SamplePlain(w: seq<byte>)
    requires w == [0x00, 0x81, 0x01, 0x00, 0x00, 0x00, 0x00, 0xBC, 0x9C]
    ensures forall k :: 0 <= k < |w| ==> !IsSpecial(w[k])
  {
  }

  /** A payload whose bytes and CRC need no escaping is framed as it stands. */
  lemma {:induction false} PlainFrame(payload: seq<byte>, w: seq<byte>, f: seq<byte>)
    requires w == WithCrc(payload) && f == [Flag] + w + [Flag]
    requires forall k :: 0 <= k < |w| ==> !IsSpecial(w[k])
    ensures Frame(payload) == f
  {
    EscapePlain(w);
  }

  lemma {:induction false} SampleCrcBytes(crc: bv16)
    requires crc == 0x9CBC
    ensures CrcLow(crc) == 0xBC && CrcHigh(crc) == 0x9C
  {
  }

  /** Read low byte first, the check accepts every frame the encoders produce and decodes its payload. */
  lemma {:induction false} CorrectedRoundTrip(payload: seq<byte>)
    requires |payload| >= 1
    ensures var r := DecodeFrameCorrected(Frame(payload));
      && r.FrameInfo? && r.crcValid && r.unescaped == WithCrc(payload)
      && r.body == Decoded(payload[0], MessageTypeName(payload[0]), DecodeMessage(payload[0], payload[1..]))
  {
    FrameDecodesUnescaped(payload);
    var crc := Crc(payload);
    CrcBytesValue(crc);
    InOrderCheck(|Frame(payload)|, payload, CrcLow(crc), CrcHigh(crc), WithCrc(payload));
  }

  /** The low-byte-first check on a payload followed by its CRC bytes lo, hi passes and decodes the payload. */
  lemma {:induction false} InOrderCheck(frameLength: nat, payload: seq<byte>, lo: byte, hi: byte, u: seq<byte>)
    requires |payload| >= 1 && u == payload + [lo, hi]
    requires CrcValue(payload) == LittleEndian16(lo, hi)
    ensures var r := DecodeUnescaped(frameLength, u, ReceivedCrcCorrected(u));
      && r.crcValid && r.unescaped == u
      && r.body == Decoded(payload[0], MessageTypeName(payload[0]), DecodeMessage(payload[0], payload[1..]))
  {
    assert u[..|u| - 2] == payload;
    assert u[|u| - 2] == lo && u[|u| - 1] == hi;
  }

  /** The corrected check accepts the sample frame. */
  lemma {:induction false} SampleFrameAcceptedCorrected(frame: seq<byte>, payload: seq<byte>)
    requires frame == [0x7E, 0x00, 0x81, 0x01, 0x00, 0x00, 0x00, 0x00, 0xBC, 0x9C, 0x7E]
    requires payload == [0x00, 0x81, 0x01, 0x00, 0x00, 0x00, 0x00]
    ensures DecodeFrameCorrected(frame).FrameInfo? && DecodeFrameCorrected(frame).crcValid
  {
    SampleFrameIsFrame(frame, payload);
    CorrectedRoundTrip(payload);
  }

  /** "No message ID found" cannot happen: at least three bytes remain, so the message data is never empty. */
  lemma {:induction false} MessageIdAlwaysPresent(frame: seq<byte>)
    ensures DecodeFrameSpec(frame).FrameInfo? ==> !DecodeFrameSpec(frame).body.NoMessageId?
    ensures DecodeFrameCorrected(frame).FrameInfo? ==> !DecodeFrameCorrected(frame).body.NoMessageId?
  {
  }

  /** A Heartbeat from the encoder decodes to its timestamp (17 bits), its status bits and a zero count. */
  lemma {:induction false} HeartbeatRoundTrip(gpsValid: bool, utcOk: bool, timestamp: uint32)
    requires timestamp < 0x2_0000
    ensures var m := DecodeHeartbeat(Gdl90Encoder.HeartbeatPayload(gpsValid, utcOk, timestamp)[1..]);
      && m.HeartbeatMessage?
      && m.heartbeat.timestamp == timestamp
      && m.heartbeat.messageCount == 0
      && (m.heartbeat.status1 / 128 == 1 <==> gpsValid)
      && (m.heartbeat.status2 % 2 == 1 <==> utcOk)
  {
    EncoderLemmas.HeartbeatFields(gpsValid, utcOk, timestamp);
    var p := Gdl90Encoder.HeartbeatPayload(gpsValid, utcOk, timestamp);
    assert (p[3] as int) + 256 * (p[4] as int) == ReadLe16(p, 3);
  }

  /** A Heartbeat from the mock sender decodes to its timestamp and to the low 16 bits of its counter. */
  lemma {:induction false} MockHeartbeatRoundTrip(timestamp: uint32, count: nat)
    requires timestamp < 0x2_0000
    ensures var m := DecodeHeartbeat(MockSender.HeartbeatPayload(timestamp, count)[1..]);
      && m.HeartbeatMessage?
      && m.heartbeat.timestamp == timestamp
      && m.heartbeat.messageCount == count % 0x1_0000
      && m.heartbeat.status1 == 0x81
  {
    MockSender.HeartbeatFields(timestamp, count);
    HeartbeatRoundTrip(true, true, timestamp);
    var p := MockSender.HeartbeatPayload(timestamp, count);
    var q := Gdl90Encoder.HeartbeatPayload(true, true, timestamp);
    assert p[1..][..4] == q[1..][..4];
  }

  /** Bytes 1-10 of a report decode to its status byte, address, latitude and longitude. */
  lemma {:induction false} PositionHeaderRoundTrip(msgId: byte, d: Gdl90Encoder.PositionData, isOwnship: bool)
    ensures var m := DecodePositionReport(Gdl90Encoder.PositionPayload(msgId, d)[1..], isOwnship);
      && m.PositionMessage?
      && m.position.statusByte == DecodeStatus((d.alertStatus % 16) * 16 + d.addressType % 16, isOwnship)
      && m.position.icaoAddress == d.icaoAddress % 0x100_0000
      && m.position.latitude % 0x100_0000 == d.latitude % 0x100_0000
      && m.position.longitude % 0x100_0000 == d.longitude % 0x100_0000
  {
    EncoderLemmas.PositionPayloadFields(msgId, d);
    var p := Gdl90Encoder.PositionPayload(msgId, d);
    var data := p[1..];
    assert ReadBe24(data, 1) == ReadBe24(p, 2) && ReadBe24(data, 4) == ReadBe24(p, 5) && ReadBe24(data, 7) == ReadBe24(p, 8);
  }

  /** Bytes 11-17 decode to the encoded altitude step, the misc bits, NIC/NACp, both velocities and the track byte. */
  lemma {:induction false} PositionKinematicsRoundTrip(msgId: byte, d: Gdl90Encoder.PositionData, isOwnship: bool)
    ensures var m := DecodePositionReport(Gdl90Encoder.PositionPayload(msgId, d)[1..], isOwnship);
      && m.PositionMessage?
      && m.position.altitude == Some(Gdl90Encoder.EncodeAltitude(d.altitude) * 25 - 1000)
      && m.position.airborne == d.airborne && !m.position.extrapolated && m.position.trackType == d.trackType % 4
      && m.position.nic == d.nic % 16 && m.position.nacp == d.nacp % 16
      && m.position.hVelocity == Some(Min(d.hVelocity, 0xFFE))
      && m.position.vVelocity == DecodeVerticalVelocity(Gdl90Encoder.EncodeVerticalVelocity(d.vVelocity))
      && m.position.trackRaw == Gdl90Encoder.EncodeTrack(d.track)
  {
    var p := Gdl90Encoder.PositionPayload(msgId, d);
    var k := Gdl90Encoder.ReportKinematics(d);
    assert p[11..18] == k;
    var h := Min(d.hVelocity, 0xFFE);
    var v := Gdl90Encoder.EncodeVerticalVelocity(d.vVelocity);
    DecodedVelocities(h, v, k[3..6]);
    DecodedAltitudeMisc(Gdl90Encoder.EncodeAltitude(d.altitude), Gdl90Encoder.Misc(d.airborne, d.trackType), k[..2]);
  }

  /** The decoder's shifts and masks take the three velocity bytes back apart. */
  lemma {:induction false} DecodedVelocities(h: int, v: int, b: seq<byte>)
    requires 0 <= h < 0x1000 && 0 <= v < 0x1000
    requires b == Gdl90Encoder.VelocityBytes(h, v)
    ensures ((b[0] as int) * 16 + b[1] / 16) % 0x1000 == h
    ensures ((b[1] as int) % 16) * 256 + b[2] == v
  {
    assert b[1] / 16 == h % 16 && b[1] % 16 == v / 256;
  }

  /** The decoder's shifts and masks take the altitude and misc bytes back apart. */
  lemma {:induction false} DecodedAltitudeMisc(alt: int, misc: int, b: seq<byte>)
    requires 0 <= alt < 0x1000 && 0 <= misc < 16
    requires b == Gdl90Encoder.AltitudeMiscBytes(alt, misc)
    ensures ReadBe16(b, 0) / 16 == alt && ReadBe16(b, 0) % 16 == misc
  {
    assert ReadBe16(b, 0) == alt * 16 + misc;
  }

  /** Bytes 18-27 decode to the emitter category, the callsign field as text, and the emergency code. */
  lemma {:induction false} PositionIdentityRoundTrip(msgId: byte, d: Gdl90Encoder.PositionData, isOwnship: bool)
    ensures var m := DecodePositionReport(Gdl90Encoder.PositionPayload(msgId, d)[1..], isOwnship);
      && m.PositionMessage?
      && m.position.emitterCategory == d.emitterCategory
      && m.position.callsign == RStrip(PrintableChars(Gdl90Encoder.CallsignField(d.callsign)))
      && m.position.emergencyCode == d.emergencyCode % 16
  {
    EncoderLemmas.PositionPayloadFields(msgId, d);
    var p := Gdl90Encoder.PositionPayload(msgId, d);
    assert p[1..][18..26] == p[19..27];
  }

  /** The vertical rate decodes as "No data" exactly for INT16_MIN, and otherwise as the rate truncated to 64 fpm. */
  lemma {:induction false} VerticalVelocityDecoded(vv: int16)
    ensures DecodeVerticalVelocity(Gdl90Encoder.EncodeVerticalVelocity(vv)).None? <==> vv == -0x8000
    ensures -32576 <= vv <= 32576 ==> DecodeVerticalVelocity(Gdl90Encoder.EncodeVerticalVelocity(vv)) == Some(TruncDiv(vv, 64) * 64)
  {
    if -32576 <= vv <= 32576 {
      EncoderLemmas.VerticalVelocityRoundTrip(vv);
    }
  }

  /** Within the encodable range the decoded altitude is at most 25 ft below the encoded one. */
  lemma {:induction false} AltitudeDecoded(altitude: int32)
    requires -1000 <= altitude < 0xFFF * 25 - 1000
    ensures var decoded := Gdl90Encoder.EncodeAltitude(altitude) * 25 - 1000;
      decoded <= altitude < decoded + 25
  {
    EncoderLemmas.AltitudeWithinOneStep(altitude);
  }

  /** Ownship status nibbles come back as written. */
  lemma {:induction false} OwnshipStatusRoundTrip(alertStatus: byte, addressType: byte)
    ensures DecodeStatus((alertStatus % 16) * 16 + addressType % 16, true) == OwnshipStatus(alertStatus % 16, addressType % 16)
  {
  }

  /** The traffic split matches the Python encoder's byte: 1-bit alert, 3-bit address type. */
  lemma {:induction false} PyTrafficStatusRoundTrip(alertStatus: int, addressType: int)
    ensures DecodeStatus(PyEncoder.TrafficStatusByte(alertStatus, addressType), false) == TrafficStatus(alertStatus % 2, addressType % 8)
  {
  }

  /**
   * On the C++ nibble layout the traffic split reads bit 3 of the alert
   * status as the alert and its low three bits as the address type; the
   * address type written is not read at all.
   */
  lemma {:induction false} CppTrafficStatusMisread(alertStatus: byte, addressType: byte)
    ensures DecodeStatus((alertStatus % 16) * 16 + addressType % 16, false) == TrafficStatus((alertStatus % 16) / 8, alertStatus % 8)
  {
    NibbleSplit(alertStatus % 16, addressType % 16);
    assert (alertStatus % 16) % 8 == alertStatus % 8;
  }

  /** The high nibble of a byte built from two nibbles, and its top bit. */
  lemma {:induction false} NibbleSplit(high: nat, low: nat)
    requires high < 16 && low < 16
    ensures (high * 16 + low) / 16 == high
    ensures (high * 16 + low) / 128 == high / 8
  {
  }

  /** The callsign characters as the decoder renders printable bytes. */
  function AsChars(bytes: seq<byte>): (r: seq<char>)
    ensures |r| == |bytes| && forall k :: 0 <= k < |r| ==> r[k] == bytes[k] as char
  {
    seq(|bytes|, k requires 0 <= k < |bytes| => bytes[k] as char)
  }

  /** Spaces appended to a text that does not end in a space are all that rstrip removes. */
  lemma {:induction false} RStripPadding(s: seq<char>, n: nat)
    requires |s| == 0 || s[|s| - 1] != ' '
    ensures RStrip(s + seq(n, _ => ' ')) == s
  {
    if n > 0 {
      var t := s + seq(n, _ => ' ');
      assert t[..|t| - 1] == s + seq(n - 1, _ => ' ');
      RStripPadding(s, n - 1);
    } else {
      assert s + seq(0, _ => ' ') == s;
    }
  }

  /**
   * A callsign of at most 8 printable characters that does not end in a
   * space comes back from the report as it was given.
   */
  lemma {:induction false} CallsignRoundTrip(callsign: seq<byte>)
    requires |callsign| <= 8
    requires forall k :: 0 <= k < |callsign| ==> 32 <= callsign[k] <= 126
    requires |callsign| == 0 || callsign[|callsign| - 1] != 0x20
    ensures RStrip(PrintableChars(Gdl90Encoder.CallsignField(callsign))) == AsChars(callsign)
  {
    var field := Gdl90Encoder.CallsignField(callsign);
    var text := AsChars(callsign);
    assert PrintableChars(field) == text + seq(8 - |callsign|, _ => ' ');
    RStripPadding(text, 8 - |callsign|);
  }

  /** int.from_bytes(b, 'little'). */
  function FromLittleEndian(b: seq<byte>): (r: nat)
    ensures |b| == 0 ==> r == 0
  {
    if |b| == 0 then 0 else b[0] + 256 * FromLittleEndian(b[1..])
  }

  /** 256 to the power n: one more than the largest value n bytes hold. */
  function Pow256(n: nat): (r: nat)
    ensures r >= 1
  {
    if n == 0 then 1 else 256 * Pow256(n - 1)
  }

  /** v.to_bytes(n, 'little') for a value that fits. */
  function ToLittleEndian(v: nat, n: nat): (r: seq<byte>)
    ensures |r| == n
  {
    if n == 0 then [] else [v % 256] + ToLittleEndian(v / 256, n - 1)
  }

  /** A value that fits in n bytes comes back from its n little-endian bytes. */
  lemma {:induction false} LittleEndianRoundTrip(v: nat, n: nat)
    requires v < Pow256(n)
    ensures FromLittleEndian(ToLittleEndian(v, n)) == v
  {
    if n > 0 {
      var b := ToLittleEndian(v, n);
      assert b[1..] == ToLittleEndian(v / 256, n - 1);
      assert v / 256 < Pow256(n - 1);
      LittleEndianRoundTrip(v / 256, n - 1);
    }
  }

  /** One captured packet: its capture time in microseconds and its frame bytes. */
  datatype Record = Record(micros: nat, data: seq<byte>)

  /** A decoded record of a capture file: its capture time in microseconds and its frame decoded. */
  datatype Packet = Packet(captureMicros: nat, decoded: FrameResult)

  /**
   * The records of a capture file from offset pos on: 8 bytes of timestamp
   * and 4 bytes of size, both little-endian, then the frame; reading stops at
   * a short header or a short frame.
   */
  function RecordsAt(file: seq<byte>, pos: nat): (r: seq<Record>)
    requires pos <= |file|
    ensures |r| <= (|file| - pos) / 12
    decreases |file| - pos
  {
    if |file| - pos < 12 then []
    else
      var size := FromLittleEndian(file[pos + 8..pos + 12]);
      if |file| - (pos + 12) < size then []
      else [Record(FromLittleEndian(file[pos..pos + 8]), file[pos + 12..pos + 12 + size])] + RecordsAt(file, pos + 12 + size)
  }

  /** Every record's frame decoded, in file order. */
  function DecodeRecords(records: seq<Record>): (r: seq<Packet>)
    ensures |r| == |records|
    ensures forall i :: 0 <= i < |r| ==> r[i] == Packet(records[i].micros, DecodeFrameSpec(records[i].data))
  {
    if |records| == 0 then []
    else
      var last := records[|records| - 1];
      DecodeRecords(records[..|records| - 1]) + [Packet(last.micros, DecodeFrameSpec(last.data))]
  }

  /** decode_packets_from_file over the file's contents; a missing file gives no packets. */
  method DecodePacketsFromFile(file: Option<seq<byte>>) returns (packets: seq<Packet>)
    ensures file.None? ==> packets == []
    ensures file.Some? ==> packets == DecodeRecords(RecordsAt(file.value, 0))
  {
    packets := [];
    if file.None? {
      return;
    }
    var contents := file.value;
    var pos := 0;
    ghost var read: seq<Record> := [];
    while |contents| - pos >= 12
      invariant 0 <= pos <= |contents|
      invariant read + RecordsAt(contents, pos) == RecordsAt(contents, 0)
      invariant packets == DecodeRecords(read)
      decreases |contents| - pos
    {
      var header := contents[pos..pos + 12];
      HeaderSlices(contents, pos);
      var timestamp := FromLittleEndian(header[..8]);
      var size := FromLittleEndian(header[8..12]);
      if |contents| - (pos + 12) < size {
        break;
      }
      var data := contents[pos + 12..pos + 12 + size];
      var decoded := DecodeFrame(data);
      ghost var record := Record(timestamp, data);
      assert (read + [record])[..|read|] == read;
      packets := packets + [Packet(timestamp, decoded)];
      ghost var before := read;
      read := read + [record];
      var next := pos + 12 + size;
      RecordsStep(contents, pos, size, next, before, read);
      pos := next;
    }
    assert read + RecordsAt(contents, pos) == read;
  }

  /** One more whole record read: it is the next one RecordsAt lists. */
  lemma {:induction false} RecordsStep(contents: seq<byte>, pos: nat, size: nat, next: nat, read: seq<Record>, read': seq<Record>)
    requires pos + 12 <= |contents|
    requires size == FromLittleEndian(contents[pos + 8..pos + 12]) && next == pos + 12 + size <= |contents|
    requires read + RecordsAt(contents, pos) == RecordsAt(contents, 0)
    requires read' == read + [Record(FromLittleEndian(contents[pos..pos + 8]), contents[pos + 12..pos + 12 + size])]
    ensures read' + RecordsAt(contents, next) == RecordsAt(contents, 0)
  {
    var record := Record(FromLittleEndian(contents[pos..pos + 8]), contents[pos + 12..pos + 12 + size]);
    RecordsUnfold(contents, pos, size, next, record);
    AppendShift(read, record, RecordsAt(contents, next), RecordsAt(contents, 0));
  }

  lemma {:induction false} RecordsUnfold(contents: seq<byte>, pos: nat, size: nat, next: nat, record: Record)
    requires pos + 12 <= |contents|
    requires size == FromLittleEndian(contents[pos + 8..pos + 12]) && next == pos + 12 + size <= |contents|
    requires record == Record(FromLittleEndian(contents[pos..pos + 8]), contents[pos + 12..next])
    ensures RecordsAt(contents, pos) == [record] + RecordsAt(contents, next)
  {
  }

  lemma {:induction false} AppendShift<T>(front: seq<T>, x: T, back: seq<T>, whole: seq<T>)
    requires front + ([x] + back) == whole
    ensures (front + [x]) + back == whole
  {
    assert (front + [x]) + back == front + ([x] + back);
  }

  lemma {:induction false} HeaderSlices(contents: seq<byte>, pos: nat)
    requires pos + 12 <= |contents|
    ensures contents[pos..pos + 12][..8] == contents[pos..pos + 8]
    ensures contents[pos..pos + 12][8..12] == contents[pos + 8..pos + 12]
  {
  }

  predicate RecordFits(r: Record)
  {
    r.micros < Pow256(8) && |r.data| < Pow256(4)
  }

  /** save_packets: each record as its timestamp, its size and its bytes. */
  function EncodeRecords(records: seq<Record>): (r: seq<byte>)
    requires forall i :: 0 <= i < |records| ==> RecordFits(records[i])
    ensures |r| >= 12 * |records|
    ensures r == [] <==> records == []
  {
    if |records| == 0 then []
    else
      EncodeRecord(records[0]) + EncodeRecords(records[1..])
  }

  /** One record as save_packets writes it: its timestamp, its length, its bytes. */
  function EncodeRecord(r: Record): (e: seq<byte>)
    requires RecordFits(r)
    ensures |e| == 12 + |r.data|
  {
    ToLittleEndian(r.micros, 8) + ToLittleEndian(|r.data|, 4) + r.data
  }

  /** Reading a file save_packets wrote gives back every record as it was written. */
  lemma {:induction false} RecordsRoundTrip(records: seq<Record>)
    requires forall i :: 0 <= i < |records| ==> RecordFits(records[i])
    ensures RecordsAt(EncodeRecords(records), 0) == records
  {
    assert [] + EncodeRecords(records) == EncodeRecords(records);
    RecordsAfter([], records);
  }

  /** The same after any bytes already read. */
  lemma {:induction false} RecordsAfter(prefix: seq<byte>, records: seq<Record>)
    requires forall i :: 0 <= i < |records| ==> RecordFits(records[i])
    ensures RecordsAt(prefix + EncodeRecords(records), |prefix|) == records
    decreases |records|
  {
    if |records| > 0 {
      var next := prefix + EncodeRecord(records[0]);
      var rest := EncodeRecords(records[1..]);
      assert prefix + EncodeRecords(records) == next + rest;
      RecordStep(prefix, records[0], rest);
      assert RecordsAt(next + rest, |prefix|) == [records[0]] + RecordsAt(next + rest, |next|);
      RecordsAfter(next, records[1..]);
      assert records == [records[0]] + records[1..];
    } else {
      assert prefix + EncodeRecords(records) == prefix;
    }
  }

  /** A record written at pos is read back there, and reading goes on right after its bytes. */
  lemma {:induction false} RecordStep(prefix: seq<byte>, r: Record, rest: seq<byte>)
    requires RecordFits(r)
    ensures RecordsAt(prefix + EncodeRecord(r) + rest, |prefix|)
         == [r] + RecordsAt(prefix + EncodeRecord(r) + rest, |prefix + EncodeRecord(r)|)
  {
    var file, pos := prefix + EncodeRecord(r) + rest, |prefix|;
    assert file[pos..pos + 8] == ToLittleEndian(r.micros, 8);
    assert file[pos + 8..pos + 12] == ToLittleEndian(|r.data|, 4);
    assert file[pos + 12..pos + 12 + |r.data|] == r.data;
    LittleEndianRoundTrip(r.micros, 8);
    LittleEndianRoundTrip(|r.data|, 4);
  }
}
