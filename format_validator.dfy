/**
 * The format validator of the GDL-90 test suite: the structural check of a
 * whole frame (flags, unstuffing, CRC low byte first), then the checks of a
 * Heartbeat (Table 3) and of a traffic report (Table 8) on the message data
 * after the id.
 */
module FormatValidator {
  import opened Bytes
  import opened Fields
  import opened Framing
  import Gdl90Encoder
  import EncoderLemmas
  import MockSender
  import ReceiverDecoder

  /** What validate_message_structure returns with a valid frame. */
  datatype StructureInfo = StructureInfo(messageId: byte, data: seq<byte>, crc: int, totalLength: nat)

  /** The verdict of validate_message_structure, one case per message it can return. */
  datatype StructureCheck =
    | TooShort
    | BadStartFlag(flag: byte)
    | BadEndFlag(flag: byte)
    | UnescapedTooShort
    | CrcMismatch(received: int, calculated: int)
    | Structure(info: StructureInfo)

  /**
   * validate_message_structure: the checks in the order they are made, the
   * CRC read least significant byte first.
   */
  function ValidateMessageStructure(raw: seq<byte>): (r: StructureCheck)
    ensures r.TooShort? <==> |raw| < 5
    ensures r.BadStartFlag? <==> |raw| >= 5 && raw[0] != Flag
    ensures r.BadEndFlag? <==> |raw| >= 5 && raw[0] == Flag && raw[|raw| - 1] != Flag
    ensures r.Structure? ==> r.info.totalLength == |raw| && r.info.crc < 0x1_0000
  {
    if |raw| < 5 then TooShort
    else if raw[0] != Flag then BadStartFlag(raw[0])
    else if raw[|raw| - 1] != Flag then BadEndFlag(raw[|raw| - 1])
    else
      var unescaped := Unstuff(raw[1..|raw| - 1]);
      if |unescaped| < 3 then UnescapedTooShort
      else
        var n := |unescaped|;
        var received := LittleEndian16(unescaped[n - 2], unescaped[n - 1]);
        var calculated := CrcValue(unescaped[..n - 2]);
        if received != calculated then CrcMismatch(received, calculated)
        else Structure(StructureInfo(unescaped[0], unescaped[1..n - 2], received, |raw|))
  }

  /** A flagged frame whose interior unstuffs to a payload and its CRC bytes passes the check. */
  lemma {:induction false} UnstuffedValidates(raw: seq<byte>, payload: seq<byte>, lo: byte, hi: byte)
    requires |raw| >= 5 && raw[0] == Flag && raw[|raw| - 1] == Flag
    requires |payload| >= 1 && Unstuff(raw[1..|raw| - 1]) == payload + [lo, hi]
    requires CrcValue(payload) == LittleEndian16(lo, hi)
    ensures ValidateMessageStructure(raw) == Structure(StructureInfo(payload[0], payload[1..], CrcValue(payload), |raw|))
  {
    var u := payload + [lo, hi];
    assert u[..|u| - 2] == payload && u[1..|u| - 2] == payload[1..];
  }

  /** Every frame the encoders produce passes the check, and the payload comes back as id and data. */
  lemma {:induction false} FrameValidates(payload: seq<byte>)
    requires |payload| >= 1
    ensures ValidateMessageStructure(Frame(payload))
      == Structure(StructureInfo(payload[0], payload[1..], CrcValue(payload), |Frame(payload)|))
  {
    ReceiverDecoder.FrameReachesCrcCheck(payload);
    FlaggedValidates(Frame(payload), payload);
  }

  /** A flagged frame whose interior unstuffs to a payload followed by its CRC bytes passes the check. */
  lemma {:induction false} FlaggedValidates(raw: seq<byte>, payload: seq<byte>)
    requires |raw| >= 5 && raw[0] == Flag && raw[|raw| - 1] == Flag
    requires |payload| >= 1 && Unstuff(raw[1..|raw| - 1]) == WithCrc(payload)
    ensures ValidateMessageStructure(raw) == Structure(StructureInfo(payload[0], payload[1..], CrcValue(payload), |raw|))
  {
    var crc := Crc(payload);
    CrcTailBytes(payload, crc);
    UnstuffedValidates(raw, payload, CrcLow(crc), CrcHigh(crc));
  }

  /** The two bytes WithCrc appends, read low byte first, are the CRC of the payload. */
  lemma {:induction false} CrcTailBytes(payload: seq<byte>, crc: bv16)
    requires crc == Crc(payload)
    ensures WithCrc(payload) == payload + [CrcLow(crc), CrcHigh(crc)]
    ensures CrcValue(payload) == LittleEndian16(CrcLow(crc), CrcHigh(crc))
  {
    CrcBytesValue(crc);
  }

  /** Two bytes are determined by their little-endian value. */
  lemma {:induction false} LittleEndianInjective(lo: byte, hi: byte, lo': byte, hi': byte)
    requires LittleEndian16(lo, hi) == LittleEndian16(lo', hi')
    ensures lo == lo' && hi == hi'
  {
  }

  /**
   * Conversely, only a flagged frame whose interior unstuffs to a payload
   * followed by that payload's CRC bytes passes the check.
   */
  lemma {:induction false} ValidatedIsFramed(raw: seq<byte>)
    requires ValidateMessageStructure(raw).Structure?
    ensures var info := ValidateMessageStructure(raw).info;
      && raw[0] == Flag && raw[|raw| - 1] == Flag
      && Unstuff(raw[1..|raw| - 1]) == WithCrc([info.messageId] + info.data)
  {
    var u := Unstuff(raw[1..|raw| - 1]);
    var n := |u|;
    var info := ValidateMessageStructure(raw).info;
    assert n >= 3 && LittleEndian16(u[n - 2], u[n - 1]) == CrcValue(u[..n - 2]);
    assert u[..n - 2] == [info.messageId] + info.data;
    CrcCheckedIsWithCrc(u);
  }

  /** Bytes whose last two, read low byte first, are the CRC of the rest are that rest with its CRC appended. */
  lemma {:induction false} CrcCheckedIsWithCrc(u: seq<byte>)
    requires |u| >= 3 && LittleEndian16(u[|u| - 2], u[|u| - 1]) == CrcValue(u[..|u| - 2])
    ensures u == WithCrc(u[..|u| - 2])
  {
    var payload := u[..|u| - 2];
    CrcBytesUnique(payload, u[|u| - 2], u[|u| - 1], Crc(payload));
    assert u == payload + [u[|u| - 2], u[|u| - 1]];
  }

  /** The only two bytes that read, low byte first, as the CRC of a payload are the ones WithCrc appends. */
  lemma {:induction false} CrcBytesUnique(payload: seq<byte>, lo: byte, hi: byte, crc: bv16)
    requires crc == Crc(payload) && LittleEndian16(lo, hi) == crc as int
    ensures WithCrc(payload) == payload + [lo, hi]
  {
    CrcBytesValue(crc);
    LittleEndianInjective(lo, hi, CrcLow(crc), CrcHigh(crc));
  }

  /** The verdict of validate_heartbeat. */
  datatype HeartbeatCheck = HeartbeatWrongLength(got: nat) | BadTimestamp(timestamp: int) | HeartbeatValid(timestamp: int)

  /** The seconds in a day; a timestamp is at most one less. */
  const SecondsPerDay := 86400

  /** validate_heartbeat on the six data bytes: the 17-bit timestamp must fall within one day. */
  function ValidateHeartbeat(data: seq<byte>): (r: HeartbeatCheck)
    ensures r.HeartbeatWrongLength? <==> |data| != 6
    ensures r.HeartbeatValid? ==> 0 <= r.timestamp < SecondsPerDay
    ensures r.BadTimestamp? ==> SecondsPerDay <= r.timestamp < 0x2_0000
  {
    if |data| != 6 then HeartbeatWrongLength(|data|)
    else
      var timestamp := (data[1] / 128) * 0x1_0000 + (data[3] as int) * 256 + data[2];
      if timestamp > SecondsPerDay - 1 then BadTimestamp(timestamp) else HeartbeatValid(timestamp)
  }

  /** A Heartbeat from the C++ encoder passes exactly when its timestamp lies within the day. */
  lemma {:induction false} EncodedHeartbeatValidates(gpsValid: bool, utcOk: bool, timestamp: uint32)
    requires timestamp < 0x2_0000
    ensures ValidateHeartbeat(Gdl90Encoder.HeartbeatPayload(gpsValid, utcOk, timestamp)[1..])
      == if timestamp < SecondsPerDay then HeartbeatValid(timestamp) else BadTimestamp(timestamp)
  {
    EncoderLemmas.HeartbeatFields(gpsValid, utcOk, timestamp);
  }

  /** A Heartbeat from the mock sender passes exactly when its timestamp lies within the day, whatever its count. */
  lemma {:induction false} MockHeartbeatValidates(timestamp: uint32, count: nat)
    requires timestamp < 0x2_0000
    ensures ValidateHeartbeat(MockSender.HeartbeatPayload(timestamp, count)[1..])
      == if timestamp < SecondsPerDay then HeartbeatValid(timestamp) else BadTimestamp(timestamp)
  {
    MockSender.HeartbeatFields(timestamp, count);
  }

  /** The characters a callsign may hold: digits, upper-case letters and the space. */
  predicate CallsignByte(c: byte)
  {
    (0x30 <= c <= 0x39) || (0x41 <= c <= 0x5A) || c == 0x20
  }

  /** The first position, from i on, of a byte that may not appear in a callsign. */
  function FirstBadCallsignByte(cs: seq<byte>, i: nat): (r: Option<nat>)
    requires i <= |cs|
    ensures r.None? <==> forall k :: i <= k < |cs| ==> CallsignByte(cs[k])
    ensures r.Some? ==>
      (i <= r.value < |cs| && !CallsignByte(cs[r.value]) && forall k :: i <= k < r.value ==> CallsignByte(cs[k]))
    decreases |cs| - i
  {
    if i == |cs| then None
    else if !CallsignByte(cs[i]) then Some(i)
    else FirstBadCallsignByte(cs, i + 1)
  }

  /** The verdict of validate_traffic_report. */
  datatype TrafficCheck = TrafficWrongLength(got: nat) | BadCallsignChar(position: nat, c: byte) | TrafficValid(icaoAddress: int)

  /**
   * validate_traffic_report on the 27 data bytes.  Its latitude and longitude
   * checks compare a 24-bit value with 0xFFFFFF and can never fail, so only
   * the length and the callsign are checked.
   */
  function ValidateTrafficReport(data: seq<byte>): (r: TrafficCheck)
    ensures r.TrafficWrongLength? <==> |data| != 27
    ensures r.BadCallsignChar? ==> r.position < 8 && !CallsignByte(r.c)
    ensures r.TrafficValid? ==> 0 <= r.icaoAddress < 0x100_0000
  {
    if |data| != 27 then TrafficWrongLength(|data|)
    else
      var callsign := data[18..26];
      match FirstBadCallsignByte(callsign, 0)
      case Some(i) => BadCallsignChar(i, callsign[i])
      case None => TrafficValid(ReadBe24(data, 1))
  }

  /** A report whose callsign holds only digits, upper-case letters and spaces passes, with its address. */
  lemma {:induction false} EncodedTrafficValidates(msgId: byte, d: Gdl90Encoder.PositionData)
    requires forall k :: 0 <= k < |d.callsign| && k < 8 ==> CallsignByte(d.callsign[k])
    ensures ValidateTrafficReport(Gdl90Encoder.PositionPayload(msgId, d)[1..]) == TrafficValid(d.icaoAddress % 0x100_0000)
  {
    EncoderLemmas.PositionPayloadFields(msgId, d);
    var p := Gdl90Encoder.PositionPayload(msgId, d);
    assert p[1..][18..26] == p[19..27];
    assert ReadBe24(p[1..], 1) == ReadBe24(p, 2);
    var field := Gdl90Encoder.CallsignField(d.callsign);
    assert forall k :: 0 <= k < 8 ==> CallsignByte(field[k]);
  }

  /** A callsign whose first disallowed byte is at position i < 8 is rejected at i. */
  lemma {:induction false} EncodedTrafficRejected(msgId: byte, d: Gdl90Encoder.PositionData, i: nat)
    requires i < |d.callsign| && i < 8 && !CallsignByte(d.callsign[i])
    requires forall k :: 0 <= k < i ==> CallsignByte(d.callsign[k])
    ensures ValidateTrafficReport(Gdl90Encoder.PositionPayload(msgId, d)[1..]) == BadCallsignChar(i, d.callsign[i])
  {
    EncoderLemmas.PositionPayloadFields(msgId, d);
    var p := Gdl90Encoder.PositionPayload(msgId, d);
    assert p[1..][18..26] == p[19..27];
    var field := Gdl90Encoder.CallsignField(d.callsign);
    assert field[i] == d.callsign[i];
  }
}
