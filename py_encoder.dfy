/**
 * The Python plugin's encoder (py/main.py): its CRC, stuffing and framing,
 * the 24-bit packer with its range check, the Heartbeat, the integer part of
 * the ownship and traffic reports, and the tail-number reconstruction of a
 * traffic target.  Floating-point inputs are taken as integers, so the
 * reports agree with the code at whole values only; callsigns are taken as
 * their bytes, without the ASCII encode that can fail.
 */
module PyEncoder {
  import opened Bytes
  import opened Fields
  import opened Framing
  import Gdl90Encoder

  /** gdl90_crc_compute: the CRC of the data as a two-byte array, low byte first. */
  method CrcCompute(data: seq<byte>) returns (crcArray: seq<byte>)
    ensures crcArray == CrcBytes(Crc(data))
  {
    var crc: bv16 := 0;
    var i := 0;
    while i < |data|
      invariant 0 <= i <= |data|
      invariant crc == Crc(data[..i])
    {
      CrcSnoc(data, i);
      crc := CrcStep(crc, data[i]);
      i := i + 1;
    }
    assert data[..|data|] == data;
    HighByteMask(crc);
    crcArray := [(crc & 0x00FF) as int, ((crc & 0xFF00) >> 8) as int];
  }

  lemma {:induction false} HighByteMask(crc: bv16)
    ensures (crc & 0x00FF) as int == CrcLow(crc)
    ensures ((crc & 0xFF00) >> 8) as int == CrcHigh(crc)
  {
  }

  /** Outcome of _pack24bit: the three bytes, or the ValueError it raises. */
  datatype PackResult = Packed(bytes: seq<byte>) | ValueError

  /**
   * _pack24bit: a value whose low 24 bits are not the whole value (Python's
   * & on a negative number included) raises ValueError.
   */
  function Pack24(num: int): (r: PackResult)
    ensures r.Packed? <==> 0 <= num <= 0xFF_FFFF
    ensures r.Packed? ==> |r.bytes| == 3 && ReadBe24(r.bytes, 0) == num
  {
    if num % 0x100_0000 != num || num < 0 then ValueError
    else
      Be24RoundTrip(num, Be24(num), 0);
      Packed(Be24(num))
  }

  /** _escape: a new bytearray with every 0x7D or 0x7E replaced by 0x7D and the byte xor 0x20. */
  method EscapeCopy(msg: seq<byte>) returns (msgNew: seq<byte>)
    ensures msgNew == Escape(msg)
  {
    msgNew := [];
    var i := 0;
    while i < |msg|
      invariant 0 <= i <= |msg|
      invariant msgNew == Escape(msg[..i])
    {
      assert msg[..i + 1][..i] == msg[..i];
      var c := msg[i];
      if c in [0x7D, 0x7E] {
        msgNew := msgNew + [0x7D];
        msgNew := msgNew + [Xor20(c)];
      } else {
        msgNew := msgNew + [c];
      }
      i := i + 1;
    }
    assert msg[..|msg|] == msg;
  }

  /** _add_crc: extends the caller's bytearray with its two CRC bytes. */
  method AddCrc(msg: ByteBuffer)
    modifies msg
    ensures msg.data == WithCrc(old(msg.data))
  {
    var crcBytes := CrcCompute(msg.data);
    msg.Extend(crcBytes);
  }

  /**
   * _prepared_message: returns the frame of the message, and as a side
   * effect leaves the caller's bytearray extended with the CRC.
   */
  method PreparedMessage(msg: ByteBuffer) returns (newMsg: seq<byte>)
    modifies msg
    ensures msg.data == WithCrc(old(msg.data))
    ensures newMsg == Frame(old(msg.data))
  {
    AddCrc(msg);
    var escaped := EscapeCopy(msg.data);
    var framed := new ByteBuffer(escaped);
    framed.InsertFront(0x7E);
    framed.PushBack(0x7E);
    newMsg := framed.data;
  }

  /** The Heartbeat payload: bit 7 of the second status byte replaced by bit 16 of the timestamp. */
  function HeartbeatPayload(status1: byte, status2: byte, timestamp: nat): (r: seq<byte>)
    ensures |r| == 7
  {
    var tsBit16 := (timestamp / 0x1_0000) % 2;
    var st2 := status2 % 0x80 + tsBit16 * 0x80;
    var tsLow := timestamp % 0x1_0000;
    [0x00, status1, st2, tsLow % 0x100, tsLow / 0x100, 0x00, 0x00]
  }

  /** Only bit 7 of the second status byte changes; the timestamp is little-endian and the count 0. */
  lemma {:induction false} HeartbeatStatusBits(status1: byte, status2: byte, timestamp: nat)
    ensures var p := HeartbeatPayload(status1, status2, timestamp);
      && p[1] == status1
      && p[2] % 0x80 == status2 % 0x80
      && p[2] / 0x80 == (timestamp / 0x1_0000) % 2
      && ReadLe16(p, 3) == timestamp % 0x1_0000
      && ReadBe16(p, 5) == 0
  {
  }

  /** With the default status bytes 0x81 and 0x01 the payload is the C++ encoder's. */
  lemma {:induction false} HeartbeatDefaultsAgree(timestamp: uint32)
    ensures HeartbeatPayload(0x81, 0x01, timestamp) == Gdl90Encoder.HeartbeatPayload(true, true, timestamp)
  {
    Low16Bytes(timestamp);
    var p := HeartbeatPayload(0x81, 0x01, timestamp);
    var q := Gdl90Encoder.HeartbeatPayload(true, true, timestamp);
    var bit := (timestamp / 0x1_0000) % 2;
    assert p[2] == 1 + bit * 0x80;
    assert q[2] == (if bit == 1 then 0x80 else 0) + 1;
    assert p[3] == q[3] && p[4] == q[4];
    assert forall k :: 0 <= k < 7 ==> p[k] == q[k];
  }

  /** The two bytes of the low 16 bits of t are its two lowest bytes. */
  lemma {:induction false} Low16Bytes(t: nat)
    ensures (t % 0x1_0000) % 0x100 == t % 0x100
    ensures (t % 0x1_0000) / 0x100 == (t / 0x100) % 0x100
  {
    var q := t / 0x1_0000;
    var r := t % 0x1_0000;
    var a := r / 0x100;
    var b := r % 0x100;
    assert t == (q * 0x100 + a) * 0x100 + b;
  }

  /** Altitude: int((alt + 1000) / 25.0) clamped to [0, 0xFFE]; exact for an integer altitude. */
  function Altitude(altFt: int): (r: int)
    ensures 0 <= r <= 0xFFE
  {
    var altitude := TruncDiv(altFt + 1000, 25);
    if altitude < 0 then 0 else if altitude > 0xFFE then 0xFFE else altitude
  }

  /** Horizontal velocity as written: None becomes 0xFFF, which the clamp then turns into 0xFFE. */
  function HVelocity(speedKts: Option<int>): (r: int)
    ensures 0 <= r <= 0xFFE
  {
    var h := if speedKts.Some? then speedKts.value else 0xFFF;
    if h < 0 then 0 else if h > 0xFFE then 0xFFE else h
  }

  /** Horizontal velocity as evidently intended: None stays the 0xFFF "no data" value. */
  function HVelocityCorrected(speedKts: Option<int>): (r: int)
    ensures 0 <= r <= 0xFFF
    ensures r == 0xFFF <==> speedKts.None?
  {
    if speedKts.None? then 0xFFF
    else if speedKts.value < 0 then 0
    else if speedKts.value > 0xFFE then 0xFFE
    else speedKts.value
  }

  /** The as-written code sends "4094 kt or more" where it meant "no data". */
  lemma {:induction false} HVelocityNoneIsNotNoData()
    ensures HVelocity(None) == 0xFFE
    ensures HVelocity(None) != Gdl90Encoder.VelocityInvalid
    ensures HVelocityCorrected(None) == Gdl90Encoder.VelocityInvalid
  {
  }

  /** The correction only touches the None case. */
  lemma {:induction false} HVelocityCorrectedAgrees(speedKts: Option<int>)
    requires speedKts.Some?
    ensures HVelocityCorrected(speedKts) == HVelocity(speedKts)
  {
  }

  /** Vertical velocity of the ownship report: negative values in 24-bit two's complement. */
  function OwnshipVerticalVelocity(vsFpm: Option<int>): (r: int)
    ensures 0 <= r < 0x100_0000
  {
    if vsFpm.None? then 0x800
    else if vsFpm.value > 32576 then 0x1FE
    else if vsFpm.value < -32576 then 0xE02
    else
      var v := TruncDiv(vsFpm.value, 64);
      if v < 0 then (0x100_0000 + v) % 0x100_0000 else v
  }

  /** Vertical velocity of the traffic report: negative values in 12-bit two's complement. */
  function TrafficVerticalVelocity(vsFpm: Option<int>): (r: int)
    ensures 0 <= r < 0x1000
  {
    if vsFpm.None? then 0x800
    else if vsFpm.value > 32576 then 0x1FE
    else if vsFpm.value < -32576 then 0xE02
    else
      var v := TruncDiv(vsFpm.value, 64);
      if v < 0 then (0x1000 + v) % 0x1000 else v
  }

  /** The three velocity bytes: (h & 0xFF0) >> 4, (h & 0xF) << 4 | (v & 0xF00) >> 8, v & 0xFF. */
  function VelocityBytes(h: int, v: int): (r: seq<byte>)
    requires 0 <= h && 0 <= v
    ensures |r| == 3
  {
    [(h % 0x1000) / 16, (h % 16) * 16 + (v % 0x1000) / 256, v % 256]
  }

  /** Only bits 11-0 are packed, so the two masks give the same bytes. */
  lemma {:induction false} VelocityMasksAgree(h: int, vsFpm: Option<int>)
    requires 0 <= h
    ensures VelocityBytes(h, OwnshipVerticalVelocity(vsFpm)) == VelocityBytes(h, TrafficVerticalVelocity(vsFpm))
  {
    var wide := OwnshipVerticalVelocity(vsFpm);
    var narrow := TrafficVerticalVelocity(vsFpm);
    if vsFpm.Some? && -32576 <= vsFpm.value <= 32576 && TruncDiv(vsFpm.value, 64) < 0 {
      var v := TruncDiv(vsFpm.value, 64);
      assert wide == 0x100_0000 + v && narrow == 0x1000 + v;
      assert wide == narrow + 0xFFF * 0x1000;
      SameLow12(h, narrow, 0xFFF);
    } else {
      assert wide == narrow;
    }
  }

  /** Adding a multiple of 0x1000 to the vertical velocity leaves the packed bytes alone. */
  lemma {:induction false} SameLow12(h: nat, v: nat, n: nat)
    ensures VelocityBytes(h, v + n * 0x1000) == VelocityBytes(h, v)
  {
    Low12Kept(v, n);
    Low8Kept(v, n);
  }

  lemma {:induction false} Low12Kept(v: nat, n: nat)
    ensures (v + n * 0x1000) % 0x1000 == v % 0x1000
    decreases n
  {
    if n > 0 {
      Low12Kept(v, n - 1);
      assert v + n * 0x1000 == (v + (n - 1) * 0x1000) + 0x1000;
    }
  }

  lemma {:induction false} Low8Kept(v: nat, n: nat)
    ensures (v + n * 0x1000) % 256 == v % 256
    decreases n
  {
    if n > 0 {
      Low8Kept(v, n - 1);
      assert v + n * 0x1000 == (v + (n - 1) * 0x1000) + 0x1000;
    }
  }

  /** Track: int(track / (360 / 256)) & 0xFF, exact for an integer number of degrees. */
  function Track(trackDeg: int): (r: byte)
  {
    TruncDiv(trackDeg * 256, 360) % 256
  }

  /** For a direction the C++ encoder accepts, the Python track byte is the same. */
  lemma {:induction false} TrackAgrees(trackDeg: uint16)
    ensures Track(trackDeg) == Gdl90Encoder.EncodeTrack(trackDeg)
  {
    var q := trackDeg / 360;
    var r := trackDeg % 360;
    assert trackDeg * 256 == (q * 256) * 360 + r * 256;
    DivAddMultiple(q * 256, r * 256);
    assert r * 256 / 360 < 256;
    ModAddMultiple(q, r * 256 / 360);
  }

  lemma {:induction false} DivAddMultiple(a: nat, b: nat)
    ensures (a * 360 + b) / 360 == a + b / 360
  {
  }

  lemma {:induction false} ModAddMultiple(q: nat, x: nat)
    requires x < 256
    ensures (q * 256 + x) % 256 == x
  {
  }

  /** Byte 1 of the traffic report: 1-bit alert in bit 7, 3-bit address type in bits 6-4, low nibble 0. */
  function TrafficStatusByte(alert: int, addressType: int): (r: byte)
    ensures r / 128 == alert % 2 && (r / 16) % 8 == addressType % 8 && r % 16 == 0
  {
    (alert % 2) * 128 + (addressType % 8) * 16
  }

  /** The layout differs from the C++ nibbles: an alert of 1 is 0x80 here and 0x10 there. */
  lemma {:induction false} TrafficStatusByteDiffers(d: Gdl90Encoder.PositionData)
    requires d.alertStatus == 1 && d.addressType == 0
    ensures TrafficStatusByte(d.alertStatus, d.addressType) == 0x80
    ensures Gdl90Encoder.ReportHeader(Gdl90Encoder.MsgIdTrafficReport, d)[1] == 0x10
  {
  }

  /** The integer inputs of create_position_report and create_traffic_report. */
  datatype ReportInput = ReportInput(
    latitude: int,           // the 24-bit value _make_latitude produced
    longitude: int,          // the 24-bit value _make_longitude produced
    altFt: int,
    speedKts: Option<int>,   // None when the dictionary holds None
    trackDeg: int,
    vsFpm: Option<int>)

  predicate PositionInRange(input: ReportInput)
  {
    0 <= input.latitude < 0x100_0000 && 0 <= input.longitude < 0x100_0000
  }

  const NicNacp: byte := 11 * 16 + 10
  const PyMisc := 9
  const PyEmitterCategory: byte := 1
  const PyIcaoAddress := 0xAB_CDEF
  const DefaultTrafficIcao := 0x12_3456
  const DefaultTrafficCallsign: seq<byte> := [0x54, 0x52, 0x41, 0x46, 0x46, 0x49, 0x43] // "TRAFFIC"

  /** Bytes 0-10: message id, status byte, address, latitude, longitude. */
  function PyHeader(msgId: byte, status: byte, icao: int, input: ReportInput): (r: seq<byte>)
    requires 0 <= icao < 0x100_0000 && PositionInRange(input)
    ensures |r| == 11
  {
    [msgId, status] + Be24(icao) + Be24(input.latitude) + Be24(input.longitude)
  }

  /** Bytes 11-17: altitude and misc 9, NIC 11 and NACp 10, the velocities, the track. */
  function PyKinematics(input: ReportInput, vVelocity: int): (r: seq<byte>)
    requires 0 <= vVelocity
    ensures |r| == 7
  {
    Gdl90Encoder.AltitudeMiscBytes(Altitude(input.altFt), PyMisc)
    + [NicNacp]
    + VelocityBytes(HVelocity(input.speedKts), vVelocity)
    + [Track(input.trackDeg)]
  }

  /** Bytes 18-27: emitter category 1, the 8-byte callsign, emergency code 0. */
  function PyIdentity(callsign: seq<byte>): (r: seq<byte>)
    ensures |r| == 10
  {
    [PyEmitterCategory] + Gdl90Encoder.CallsignField(callsign) + [0]
  }

  /** The Ownship Report payload of create_position_report. */
  function OwnshipPayload(aircraftId: seq<byte>, input: ReportInput): (r: seq<byte>)
    requires PositionInRange(input)
    ensures |r| == 28
  {
    PyHeader(Gdl90Encoder.MsgIdOwnshipReport, 0, PyIcaoAddress, input)
    + PyKinematics(input, OwnshipVerticalVelocity(input.vsFpm))
    + PyIdentity(aircraftId)
  }

  /** The Traffic Report payload of create_traffic_report, with its defaults for a missing callsign or address. */
  function TrafficPayload(callsign: Option<seq<byte>>, icao: Option<int>, input: ReportInput): (r: seq<byte>)
    requires PositionInRange(input)
    ensures |r| == 28
  {
    var address := if icao.Some? then icao.value else DefaultTrafficIcao;
    var name := if callsign.Some? then callsign.value else DefaultTrafficCallsign;
    PyHeader(Gdl90Encoder.MsgIdTrafficReport, TrafficStatusByte(0, 0), address % 0x100_0000, input)
    + PyKinematics(input, TrafficVerticalVelocity(input.vsFpm))
    + PyIdentity(Gdl90Encoder.CallsignField(name))
  }

  /** The C++ PositionData that describes the same report. */
  function CppData(icao: uint32, callsign: seq<byte>, input: ReportInput, speed: uint16, vs: int16, track: uint16): Gdl90Encoder.PositionData
    requires PositionInRange(input) && -0x8000_0000 <= input.altFt < 0x8000_0000
  {
    Gdl90Encoder.PositionData(input.latitude, input.longitude, input.altFt, speed, vs, track,
      1, true, 11, 10, icao, callsign, 1, 0, 0, 0)
  }

  /** With both values within 12 bits the masks change nothing: the C++ velocity bytes. */
  lemma {:induction false} VelocityBytesAgree(h: int, v: int)
    requires 0 <= h < 0x1000 && 0 <= v < 0x1000
    ensures VelocityBytes(h, v) == Gdl90Encoder.VelocityBytes(h, v)
  {
    assert h % 0x1000 == h;
    assert v % 0x1000 == v;
  }

  /** Where both encoders accept the inputs, the Python kinematic bytes are the C++ encoder's. */
  lemma {:induction false} KinematicsAgree(input: ReportInput, speed: uint16, vs: int16, track: uint16, vVelocity: int)
    requires PositionInRange(input) && -0x8000_0000 <= input.altFt < 0x8000_0000
    requires input.speedKts == Some(speed as int) && input.vsFpm == Some(vs as int) && input.trackDeg == track
    requires vs != -0x8000
    requires vVelocity == OwnshipVerticalVelocity(input.vsFpm) || vVelocity == TrafficVerticalVelocity(input.vsFpm)
    ensures PyKinematics(input, vVelocity) == Gdl90Encoder.ReportKinematics(CppData(0, [], input, speed, vs, track))
  {
    var d := CppData(0, [], input, speed, vs, track);
    VelocityPartAgrees(input, speed, vs, vVelocity);
    TrackAgrees(track);
    assert Altitude(input.altFt) == Gdl90Encoder.EncodeAltitude(d.altitude);
    assert PyMisc == Gdl90Encoder.Misc(d.airborne, d.trackType);
  }

  lemma {:induction false} VelocityPartAgrees(input: ReportInput, speed: uint16, vs: int16, vVelocity: int)
    requires input.speedKts == Some(speed as int) && input.vsFpm == Some(vs as int) && vs != -0x8000
    requires vVelocity == OwnshipVerticalVelocity(input.vsFpm) || vVelocity == TrafficVerticalVelocity(input.vsFpm)
    ensures VelocityBytes(HVelocity(input.speedKts), vVelocity)
         == Gdl90Encoder.VelocityBytes(Min(speed, 0xFFE), Gdl90Encoder.EncodeVerticalVelocity(vs))
  {
    var h := HVelocity(input.speedKts);
    var v := Gdl90Encoder.EncodeVerticalVelocity(vs);
    assert h == Min(speed, 0xFFE);
    assert TrafficVerticalVelocity(input.vsFpm) == v;
    VelocityMasksAgree(h, input.vsFpm);
    VelocityBytesAgree(h, v);
  }

  /**
   * For integer inputs the C++ encoder also accepts (a vertical speed other
   * than INT16_MIN), the Python Ownship payload is the C++ one for the same
   * fields: ICAO 0xABCDEF, airborne with track type 1, NIC 11, NACp 10,
   * emitter category 1.
   */
  lemma {:induction false} OwnshipAgrees(aircraftId: seq<byte>, input: ReportInput, speed: uint16, vs: int16, track: uint16)
    requires PositionInRange(input) && -0x8000_0000 <= input.altFt < 0x8000_0000
    requires input.speedKts == Some(speed as int) && input.vsFpm == Some(vs as int) && input.trackDeg == track
    requires vs != -0x8000
    ensures OwnshipPayload(aircraftId, input)
         == Gdl90Encoder.PositionPayload(Gdl90Encoder.MsgIdOwnshipReport, CppData(PyIcaoAddress, aircraftId, input, speed, vs, track))
  {
    var d := CppData(PyIcaoAddress, aircraftId, input, speed, vs, track);
    KinematicsAgree(input, speed, vs, track, OwnshipVerticalVelocity(input.vsFpm));
    assert Gdl90Encoder.ReportKinematics(d) == Gdl90Encoder.ReportKinematics(CppData(0, [], input, speed, vs, track));
  }

  /** The same for the Traffic payload, whose status byte is 0 in both layouts because the alert status is 0. */
  lemma {:induction false} TrafficAgrees(callsign: seq<byte>, icao: uint32, input: ReportInput, speed: uint16, vs: int16, track: uint16)
    requires PositionInRange(input) && -0x8000_0000 <= input.altFt < 0x8000_0000
    requires input.speedKts == Some(speed as int) && input.vsFpm == Some(vs as int) && input.trackDeg == track
    requires vs != -0x8000
    ensures TrafficPayload(Some(callsign), Some(icao), input)
         == Gdl90Encoder.PositionPayload(Gdl90Encoder.MsgIdTrafficReport, CppData(icao, callsign, input, speed, vs, track))
  {
    var d := CppData(icao, callsign, input, speed, vs, track);
    KinematicsAgree(input, speed, vs, track, TrafficVerticalVelocity(input.vsFpm));
    assert Gdl90Encoder.ReportKinematics(d) == Gdl90Encoder.ReportKinematics(CppData(0, [], input, speed, vs, track));
    TrafficHeaderAgrees(icao, input, d);
    CallsignFieldIdempotent(callsign);
  }

  lemma {:induction false} TrafficHeaderAgrees(icao: uint32, input: ReportInput, d: Gdl90Encoder.PositionData)
    requires PositionInRange(input)
    requires d.icaoAddress == icao && d.alertStatus == 0 && d.addressType == 0
    requires d.latitude == input.latitude && d.longitude == input.longitude
    ensures PyHeader(Gdl90Encoder.MsgIdTrafficReport, TrafficStatusByte(0, 0), icao % 0x100_0000, input)
         == Gdl90Encoder.ReportHeader(Gdl90Encoder.MsgIdTrafficReport, d)
  {
    Be24Low(icao);
  }

  /** _pack24bit of the address masked to 24 bits is the three low bytes of the address. */
  lemma {:induction false} Be24Low(t: nat)
    ensures Be24(t % 0x100_0000) == Be24(t)
  {
    var q := t / 0x100_0000;
    var r := t % 0x100_0000;
    assert t / 0x1_0000 == q * 0x100 + r / 0x1_0000;
    assert t / 0x100 == q * 0x1_0000 + r / 0x100;
    assert (q * 0x100 + r / 0x1_0000) % 0x100 == (r / 0x1_0000) % 0x100;
    assert (q * 0x1_0000 + r / 0x100) % 0x100 == (r / 0x100) % 0x100;
    assert t % 0x100 == r % 0x100;
  }

  /** Cutting and padding a second time (the ascii encoding's [:8].ljust) changes nothing. */
  lemma {:induction false} CallsignFieldIdempotent(callsign: seq<byte>)
    ensures Gdl90Encoder.CallsignField(Gdl90Encoder.CallsignField(callsign)) == Gdl90Encoder.CallsignField(callsign)
  {
    var once := Gdl90Encoder.CallsignField(callsign);
    var twice := Gdl90Encoder.CallsignField(once);
    assert forall k :: 0 <= k < 8 ==> twice[k] == once[k];
  }

  /** create_heartbeat's bytearray before framing: id, status bytes, timestamp, count. */
  method BuildHeartbeat(status1: byte, status2: byte, timestamp: nat) returns (msg: ByteBuffer)
    ensures fresh(msg)
    ensures msg.data == HeartbeatPayload(status1, status2, timestamp)
  {
    var tsBit16 := (timestamp / 0x1_0000) % 2;
    var st2 := status2 % 0x80 + tsBit16 * 0x80;
    msg := new ByteBuffer([0x00]);
    msg.Extend([status1, st2]);
    var tsLow := timestamp % 0x1_0000;
    msg.Extend([tsLow % 0x100, tsLow / 0x100]);
    msg.Extend([0x00, 0x00]);
  }

  /** The message id and status byte, then the address, latitude and longitude through _pack24bit. */
  method PushPyHeader(msg: ByteBuffer, msgId: byte, status: byte, icao: int, input: ReportInput)
    requires 0 <= icao < 0x100_0000 && PositionInRange(input)
    modifies msg
    ensures msg.data == old(msg.data) + PyHeader(msgId, status, icao, input)
  {
    msg.PushBack(msgId);
    msg.PushBack(status);
    msg.Extend(Pack24(icao).bytes);
    msg.Extend(Pack24(input.latitude).bytes);
    msg.Extend(Pack24(input.longitude).bytes);
  }

  /** Altitude, misc, NIC/NACp, the velocity bytes and the track, appended one by one. */
  method PushPyKinematics(msg: ByteBuffer, input: ReportInput, vVelocity: int)
    requires 0 <= vVelocity
    modifies msg
    ensures msg.data == old(msg.data) + PyKinematics(input, vVelocity)
  {
    var altitude := Altitude(input.altFt);
    msg.PushBack(altitude / 16);
    msg.PushBack((altitude % 16) * 16 + PyMisc);
    msg.PushBack(NicNacp);
    var hVelocity := HVelocity(input.speedKts);
    msg.PushBack((hVelocity % 0x1000) / 16);
    msg.PushBack((hVelocity % 16) * 16 + (vVelocity % 0x1000) / 256);
    msg.PushBack(vVelocity % 256);
    msg.PushBack(Track(input.trackDeg));
  }

  /** Emitter category, the callsign bytes, the emergency code and spare nibble. */
  method PushPyIdentity(msg: ByteBuffer, callsign: seq<byte>)
    modifies msg
    ensures msg.data == old(msg.data) + PyIdentity(callsign)
  {
    msg.PushBack(PyEmitterCategory);
    msg.Extend(Gdl90Encoder.CallsignField(callsign));
    msg.PushBack(0);
  }

  /** The plugin's encoder object: the 8-character aircraft id and the fixed ownship address. */
  class InlineEncoder {
    const aircraftId: seq<byte>
    const icaoAddress: int

    /** __init__: the id cut to 8 characters and padded with spaces. */
    constructor(id: seq<byte>)
      ensures aircraftId == Gdl90Encoder.CallsignField(id)
      ensures icaoAddress == PyIcaoAddress
    {
      aircraftId := Gdl90Encoder.CallsignField(id);
      icaoAddress := PyIcaoAddress;
    }

    /** create_heartbeat, with the UTC clock reading as a parameter. */
    method CreateHeartbeat(hour: nat, minute: nat, second: nat, status1: byte, status2: byte)
      returns (message: seq<byte>)
      ensures message == Frame(HeartbeatPayload(status1, status2, hour * 3600 + minute * 60 + second))
    {
      var msg := BuildHeartbeat(status1, status2, hour * 3600 + minute * 60 + second);
      message := PreparedMessage(msg);
    }

    method BuildPositionReport(input: ReportInput) returns (msg: ByteBuffer)
      requires PositionInRange(input) && icaoAddress == PyIcaoAddress
      ensures fresh(msg)
      ensures msg.data == OwnshipPayload(aircraftId, input)
    {
      msg := new ByteBuffer([]);
      PushPyHeader(msg, Gdl90Encoder.MsgIdOwnshipReport, 0, icaoAddress, input);
      PushPyKinematics(msg, input, OwnshipVerticalVelocity(input.vsFpm));
      PushPyIdentity(msg, aircraftId + seq(8, _ => 0x20));
      CallsignPaddingAgrees(aircraftId);
    }

    /** create_position_report: the Ownship Report (0x0A), framed. */
    method CreatePositionReport(input: ReportInput) returns (message: seq<byte>)
      requires PositionInRange(input) && icaoAddress == PyIcaoAddress
      ensures message == Frame(OwnshipPayload(aircraftId, input))
    {
      var msg := BuildPositionReport(input);
      message := PreparedMessage(msg);
    }

    method BuildTrafficReport(callsign: Option<seq<byte>>, icao: Option<int>, input: ReportInput)
      returns (msg: ByteBuffer)
      requires PositionInRange(input)
      ensures fresh(msg)
      ensures msg.data == TrafficPayload(callsign, icao, input)
    {
      var address := if icao.Some? then icao.value else DefaultTrafficIcao;
      var name := if callsign.Some? then callsign.value else DefaultTrafficCallsign;
      var header := PyHeader(Gdl90Encoder.MsgIdTrafficReport, TrafficStatusByte(0, 0), address % 0x100_0000, input);
      var kinematics := PyKinematics(input, TrafficVerticalVelocity(input.vsFpm));
      var identity := PyIdentity(Gdl90Encoder.CallsignField(name));
      assert TrafficPayload(callsign, icao, input) == header + kinematics + identity;
      msg := new ByteBuffer([]);
      PushPyHeader(msg, Gdl90Encoder.MsgIdTrafficReport, TrafficStatusByte(0, 0), address % 0x100_0000, input);
      assert msg.data == header;
      PushPyKinematics(msg, input, TrafficVerticalVelocity(input.vsFpm));
      PushPyIdentity(msg, Gdl90Encoder.CallsignField(name));
    }

    /** create_traffic_report: the Traffic Report (0x14), framed; a missing callsign or address takes its default. */
    method CreateTrafficReport(callsign: Option<seq<byte>>, icao: Option<int>, input: ReportInput)
      returns (message: seq<byte>)
      requires PositionInRange(input)
      ensures message == Frame(TrafficPayload(callsign, icao, input))
    {
      var msg := BuildTrafficReport(callsign, icao, input);
      message := PreparedMessage(msg);
    }
  }

  /** (aircraft_id + 8 spaces)[:8] is the stored 8-character id itself. */
  lemma {:induction false} CallsignPaddingAgrees(aircraftId: seq<byte>)
    ensures Gdl90Encoder.CallsignField(aircraftId + seq(8, _ => 0x20)) == Gdl90Encoder.CallsignField(aircraftId)
  {
    var padded := Gdl90Encoder.CallsignField(aircraftId + seq(8, _ => 0x20));
    assert forall k :: 0 <= k < 8 ==> padded[k] == Gdl90Encoder.CallsignField(aircraftId)[k];
  }

  /** The tail number TrafficTarget.update_data rebuilds from slots 0-7 of its data. */
  function TailnumFrom(slots: map<int, int>, k: nat): (r: seq<char>)
    requires k <= 8
    ensures |r| <= 8 - k
    decreases 8 - k
  {
    if k == 8 || k !in slots then []
    else if 32 <= slots[k] <= 126 then [slots[k] as char] + TailnumFrom(slots, k + 1)
    else if slots[k] == 0 then []
    else ['?'] + TailnumFrom(slots, k + 1)
  }

  /** The reconstruction loop: stop at a missing slot or a NUL, keep printable codes, '?' for the rest. */
  method ReconstructTailnum(slots: map<int, int>) returns (chars: seq<char>)
    ensures chars == TailnumFrom(slots, 0)
  {
    chars := [];
    var charIdx := 0;
    while charIdx < 8
      invariant 0 <= charIdx <= 8
      invariant chars + TailnumFrom(slots, charIdx) == TailnumFrom(slots, 0)
    {
      TailnumUnfold(slots, charIdx);
      if charIdx in slots {
        var charCode := slots[charIdx];
        if 32 <= charCode <= 126 {
          Regroup(chars, charCode as char, TailnumFrom(slots, charIdx + 1));
          chars := chars + [charCode as char];
        } else if charCode == 0 {
          break;
        } else {
          Regroup(chars, '?', TailnumFrom(slots, charIdx + 1));
          chars := chars + ['?'];
        }
      } else {
        break;
      }
      charIdx := charIdx + 1;
    }
  }

  lemma Regroup(done: seq<char>, c: char, rest: seq<char>)
    ensures (done + [c]) + rest == done + ([c] + rest)
  {
  }

  /** One step of the scan. */
  lemma {:induction false} TailnumUnfold(slots: map<int, int>, k: nat)
    requires k < 8
    ensures k !in slots ==> TailnumFrom(slots, k) == []
    ensures k in slots && slots[k] == 0 ==> TailnumFrom(slots, k) == []
    ensures k in slots && 32 <= slots[k] <= 126 ==> TailnumFrom(slots, k) == [slots[k] as char] + TailnumFrom(slots, k + 1)
    ensures k in slots && slots[k] != 0 && !(32 <= slots[k] <= 126) ==> TailnumFrom(slots, k) == ['?'] + TailnumFrom(slots, k + 1)
  {
  }

  /** The character a nonzero code stands for: itself when printable ASCII, '?' otherwise. */
  function TailnumChar(code: int): (c: char)
    ensures ' ' <= c <= '~'
  {
    if 32 <= code <= 126 then code as char else '?'
  }

  /** Character i of t is the one slot k + i stands for. */
  predicate FromSlot(slots: map<int, int>, t: seq<char>, k: nat, i: nat)
    requires i < |t|
  {
    k + i in slots && slots[k + i] != 0 && t[i] == TailnumChar(slots[k + i])
  }

  /** Character i of the tail number comes from slot k + i. */
  lemma {:induction false} TailnumChars(slots: map<int, int>, k: nat)
    requires k <= 8
    ensures forall i: nat :: i < |TailnumFrom(slots, k)| ==> FromSlot(slots, TailnumFrom(slots, k), k, i)
    decreases 8 - k
  {
    if k < 8 && k in slots && slots[k] != 0 {
      TailnumChars(slots, k + 1);
      var rest := TailnumFrom(slots, k + 1);
      var t := TailnumFrom(slots, k);
      assert t == [TailnumChar(slots[k])] + rest;
      forall i: nat | i < |t|
        ensures FromSlot(slots, t, k, i)
      {
        if i > 0 {
          var j: nat := i - 1;
          assert FromSlot(slots, rest, k + 1, j);
          assert t[i] == rest[j];
          assert (k + 1) + j == k + i;
        }
      }
    } else {
      assert TailnumFrom(slots, k) == [];
    }
  }

  /** Every character of the tail number is printable ASCII. */
  lemma {:induction false} TailnumPrintable(slots: map<int, int>)
    ensures forall i :: 0 <= i < |TailnumFrom(slots, 0)| ==> ' ' <= TailnumFrom(slots, 0)[i] <= '~'
  {
    TailnumChars(slots, 0);
    forall i | 0 <= i < |TailnumFrom(slots, 0)|
      ensures ' ' <= TailnumFrom(slots, 0)[i] <= '~'
    {
      assert FromSlot(slots, TailnumFrom(slots, 0), 0, i);
    }
  }

  /** The scan stops exactly at the first missing slot or NUL: all eight slots filled and nonzero give eight characters. */
  lemma {:induction false} TailnumFull(slots: map<int, int>, k: nat)
    requires k <= 8
    requires forall i :: k <= i < 8 ==> i in slots && slots[i] != 0
    ensures |TailnumFrom(slots, k)| == 8 - k
    decreases 8 - k
  {
    if k < 8 {
      TailnumFull(slots, k + 1);
    }
  }
}
