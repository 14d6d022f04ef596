/**
 * The GDL-90 encoder of the plugin (GDL90Encoder): CRC, stuffing and framing,
 * the integer field encoders, the Heartbeat payload and the Ownship and
 * Traffic report payloads.  The wall clock is a parameter; latitude and
 * longitude enter as the 24-bit values the floating-point scaling produced.
 */
module Gdl90Encoder {
  import opened Bytes
  import opened Fields
  import opened Framing

  const MsgIdHeartbeat: byte := 0x00
  const MsgIdOwnshipReport: byte := 0x0A
  const MsgIdTrafficReport: byte := 0x14

  const AltitudeInvalid := 0xFFF
  const VelocityInvalid := 0xFFF
  const VerticalVelocityInvalid := 0x800

  /** The fields a position report is built from (the plugin's PositionData). */
  datatype PositionData = PositionData(
    latitude: uint32,        // already scaled to the 24-bit binary fraction
    longitude: uint32,       // already scaled to the 24-bit binary fraction
    altitude: int32,         // feet
    hVelocity: uint16,       // knots
    vVelocity: int16,        // feet per minute
    track: uint16,           // degrees
    trackType: byte,
    airborne: bool,
    nic: byte,
    nacp: byte,
    icaoAddress: uint32,
    callsign: seq<byte>,
    emitterCategory: byte,
    addressType: byte,
    alertStatus: byte,
    emergencyCode: byte)

  /** calculateCRC: the table-driven loop over the payload; CrcStep is its one-line update. */
  method CalculateCrc(data: seq<byte>) returns (crc: bv16)
    ensures crc == Crc(data)
  {
    crc := 0;
    var i := 0;
    while i < |data|
      invariant 0 <= i <= |data|
      invariant crc == Crc(data[..i])
    {
      CrcSnoc(data, i);
      crc := CrcStep(crc, data[i]);
      i := i + 1;
    }
    assert data[..|data|] == data;
  }

  /** escapeMessage: 0x7D and 0x7E become 0x7D followed by the byte xor 0x20. */
  method EscapeMessage(data: seq<byte>) returns (escaped: seq<byte>)
    ensures escaped == Escape(data)
  {
    escaped := [];
    var i := 0;
    while i < |data|
      invariant 0 <= i <= |data|
      invariant escaped == Escape(data[..i])
    {
      assert data[..i + 1][..i] == data[..i];
      var b := data[i];
      if b == ControlEscape || b == Flag {
        escaped := escaped + [ControlEscape, Xor20(b)];
      } else {
        escaped := escaped + [b];
      }
      i := i + 1;
    }
    assert data[..|data|] == data;
  }

  /** prepareMessage: CRC over the payload, low byte first, then stuffing, then the flags. */
  method PrepareMessage(payload: seq<byte>) returns (message: seq<byte>)
    ensures message == Frame(payload)
  {
    var crc := CalculateCrc(payload);
    CrcMaskedBytes(crc);
    var withCrc := payload + [(crc & 0xFF) as int, ((crc >> 8) & 0xFF) as int];
    var escaped := EscapeMessage(withCrc);
    message := [Flag] + escaped + [Flag];
  }

  /** encodeAltitude: 25 ft steps above -1000 ft, truncated, clamped to [0, 0xFFE]. */
  function EncodeAltitude(altitude: int32): (r: int)
    ensures 0 <= r <= 0xFFE
  {
    var encoded := TruncDiv(altitude + 1000, 25);
    if encoded < 0 then 0 else if encoded > 0xFFE then 0xFFE else encoded
  }

  /**
   * encodeVerticalVelocity: 64 fpm steps, truncated toward zero, as 12-bit
   * two's complement; INT16_MIN means "no data" and large rates saturate.
   */
  function EncodeVerticalVelocity(vv: int16): (r: int)
    ensures 0 <= r <= 0xFFF
    ensures r == VerticalVelocityInvalid <==> vv == -0x8000
  {
    if vv == -0x8000 then VerticalVelocityInvalid
    else if vv > 32576 then 0x1FE
    else if vv < -32576 then 0xE02
    else
      var value := TruncDiv(vv, 64);
      if value < 0 then (0x1000 + value) % 0x1000 else value
  }

  /** encodeTrack: degrees modulo 360 in steps of 360/256. */
  function EncodeTrack(track: uint16): (r: byte)
    ensures r * 360 <= (track % 360) * 256 < r * 360 + 360
  {
    (track % 360) * 256 / 360
  }

  /** The misc nibble: airborne in bit 3, "report updated" (bit 2) clear, track type in bits 1-0. */
  function Misc(airborne: bool, trackType: byte): (r: int)
    ensures 0 <= r < 16
    ensures r / 8 == (if airborne then 1 else 0) && r / 4 % 2 == 0 && r % 4 == trackType % 4
  {
    (if airborne then 8 else 0) + trackType % 4
  }

  /** The callsign field: the first 8 characters, padded with spaces to 8. */
  function CallsignField(callsign: seq<byte>): (r: seq<byte>)
    ensures |r| == 8
    ensures forall k :: 0 <= k < 8 ==> r[k] == if k < |callsign| then callsign[k] else 0x20
  {
    var cut := callsign[..Min(8, |callsign|)];
    cut + seq(8 - |cut|, _ => 0x20)
  }

  /** Altitude (12 bits) and misc (4 bits) as two bytes. */
  function AltitudeMiscBytes(alt: int, misc: int): (r: seq<byte>)
    requires 0 <= alt < 0x1000 && 0 <= misc < 16
    ensures |r| == 2
  {
    [alt / 16, (alt % 16) * 16 + misc]
  }

  /** Horizontal (12 bits) and vertical (12 bits) velocity as three bytes. */
  function VelocityBytes(h: int, v: int): (r: seq<byte>)
    requires 0 <= h < 0x1000 && 0 <= v < 0x1000
    ensures |r| == 3
  {
    [h / 16, (h % 16) * 16 + v / 256, v % 256]
  }

  /** The Heartbeat payload for a given second of the UTC day (createHeartbeat). */
  function HeartbeatPayload(gpsValid: bool, utcOk: bool, timestamp: uint32): (r: seq<byte>)
    ensures |r| == 7
  {
    [MsgIdHeartbeat,
     if gpsValid then 0x81 else 0x01,
     (if (timestamp / 0x1_0000) % 2 == 1 then 0x80 else 0) + (if utcOk then 0x01 else 0),
     timestamp % 256,
     (timestamp / 256) % 256,
     0x00,
     0x00]
  }

  /** Bytes 0-10 of a position report: message id, status and address type, ICAO address, latitude, longitude. */
  function ReportHeader(msgId: byte, d: PositionData): (r: seq<byte>)
    ensures |r| == 11
  {
    [msgId, (d.alertStatus % 16) * 16 + d.addressType % 16]
    + Be24(d.icaoAddress) + Be24(d.latitude) + Be24(d.longitude)
  }

  /** Bytes 11-17: altitude and misc, NIC and NACp, the two velocities, track. */
  function ReportKinematics(d: PositionData): (r: seq<byte>)
    ensures |r| == 7
  {
    AltitudeMiscBytes(EncodeAltitude(d.altitude), Misc(d.airborne, d.trackType))
    + [(d.nic % 16) * 16 + d.nacp % 16]
    + VelocityBytes(Min(d.hVelocity, 0xFFE), EncodeVerticalVelocity(d.vVelocity))
    + [EncodeTrack(d.track)]
  }

  /** Bytes 18-27: emitter category, callsign, emergency code in the high nibble. */
  function ReportIdentity(d: PositionData): (r: seq<byte>)
    ensures |r| == 10
  {
    [d.emitterCategory] + CallsignField(d.callsign) + [(d.emergencyCode % 16) * 16]
  }

  /** The 28-byte position report payload (createPositionReport). */
  function PositionPayload(msgId: byte, d: PositionData): (r: seq<byte>)
    ensures |r| == 28
  {
    ReportHeader(msgId, d) + ReportKinematics(d) + ReportIdentity(d)
  }

  /** pack24bit: appends the low 24 bits of value, most significant byte first. */
  method Pack24Bit(buffer: ByteBuffer, value: uint32)
    modifies buffer
    ensures buffer.data == old(buffer.data) + Be24(value)
  {
    buffer.PushBack((value / 0x1_0000) % 256);
    buffer.PushBack((value / 256) % 256);
    buffer.PushBack(value % 256);
  }

  /** createHeartbeat, with the second of the UTC day as a parameter. */
  method CreateHeartbeat(gpsValid: bool, utcOk: bool, timestamp: uint32) returns (message: seq<byte>)
    ensures message == Frame(HeartbeatPayload(gpsValid, utcOk, timestamp))
  {
    var payload: seq<byte> := [MsgIdHeartbeat];
    var status1 := 0x01;
    if gpsValid {
      status1 := status1 + 0x80;
    }
    payload := payload + [status1];
    var status2 := 0x00;
    if utcOk {
      status2 := status2 + 0x01;
    }
    if (timestamp / 0x1_0000) % 2 == 1 {
      status2 := status2 + 0x80;
    }
    payload := payload + [status2];
    payload := payload + [timestamp % 256, (timestamp / 256) % 256];
    payload := payload + [0x00, 0x00];
    assert payload == HeartbeatPayload(gpsValid, utcOk, timestamp);
    message := PrepareMessage(payload);
  }

  /** The range-for loop of createPositionReport that copies the padded callsign into the buffer. */
  method PushEach(buffer: ByteBuffer, s: seq<byte>)
    modifies buffer
    ensures buffer.data == old(buffer.data) + s
  {
    ghost var before := buffer.data;
    var i := 0;
    while i < |s|
      invariant 0 <= i <= |s|
      invariant buffer.data == before + s[..i]
    {
      assert s[..i + 1] == s[..i] + [s[i]];
      buffer.PushBack(s[i]);
      i := i + 1;
    }
    assert s[..|s|] == s;
  }

  /** createPositionReport, bytes 0-10. */
  method PushHeader(buffer: ByteBuffer, msgId: byte, d: PositionData)
    modifies buffer
    ensures buffer.data == old(buffer.data) + ReportHeader(msgId, d)
  {
    buffer.PushBack(msgId);
    buffer.PushBack((d.alertStatus % 16) * 16 + d.addressType % 16);
    Pack24Bit(buffer, d.icaoAddress);
    Pack24Bit(buffer, d.latitude);
    Pack24Bit(buffer, d.longitude);
  }

  /** createPositionReport, bytes 11-17. */
  method PushKinematics(buffer: ByteBuffer, d: PositionData)
    modifies buffer
    ensures buffer.data == old(buffer.data) + ReportKinematics(d)
  {
    var alt := EncodeAltitude(d.altitude);
    var misc := Misc(d.airborne, d.trackType);
    buffer.PushBack(alt / 16);
    buffer.PushBack((alt % 16) * 16 + misc);
    buffer.PushBack((d.nic % 16) * 16 + d.nacp % 16);
    var hVel := Min(d.hVelocity, 0xFFE);
    var vVel := EncodeVerticalVelocity(d.vVelocity);
    buffer.PushBack(hVel / 16);
    buffer.PushBack((hVel % 16) * 16 + vVel / 256);
    buffer.PushBack(vVel % 256);
    buffer.PushBack(EncodeTrack(d.track));
  }

  /** createPositionReport, bytes 18-27: the callsign cut to 8 characters and padded with spaces. */
  method PushIdentity(buffer: ByteBuffer, d: PositionData)
    modifies buffer
    ensures buffer.data == old(buffer.data) + ReportIdentity(d)
  {
    buffer.PushBack(d.emitterCategory);
    var callsign := CallsignField(d.callsign);
    PushEach(buffer, callsign);
    buffer.PushBack((d.emergencyCode % 16) * 16);
  }

  /** The first part of createPositionReport: the payload pushed field by field into a fresh buffer. */
  method BuildPositionPayload(msgId: byte, d: PositionData) returns (payload: ByteBuffer)
    ensures fresh(payload)
    ensures payload.data == PositionPayload(msgId, d)
  {
    payload := new ByteBuffer([]);
    PushHeader(payload, msgId, d);
    PushKinematics(payload, d);
    PushIdentity(payload, d);
  }

  /** createPositionReport: the payload built in a buffer, then framed. */
  method CreatePositionReport(msgId: byte, d: PositionData) returns (message: seq<byte>)
    ensures message == Frame(PositionPayload(msgId, d))
  {
    var payload := BuildPositionPayload(msgId, d);
    message := PrepareMessage(payload.data);
  }

  method CreateOwnshipReport(d: PositionData) returns (message: seq<byte>)
    ensures message == Frame(PositionPayload(MsgIdOwnshipReport, d))
  {
    message := CreatePositionReport(MsgIdOwnshipReport, d);
  }

  method CreateTrafficReport(d: PositionData) returns (message: seq<byte>)
    ensures message == Frame(PositionPayload(MsgIdTrafficReport, d))
  {
    message := CreatePositionReport(MsgIdTrafficReport, d);
  }
}
