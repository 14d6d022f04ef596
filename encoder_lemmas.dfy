/**
 * What the GDL90Encoder field encoders and payload builders promise: the
 * resolution and range of each integer encoding, and where each field of a
 * Heartbeat or position report sits in the payload.
 */
module EncoderLemmas {
  import opened Bytes
  import opened Fields
  import opened Framing
  import opened Gdl90Encoder

  /** Truncating division never reverses the order of two dividends. */
  lemma {:induction false} TruncDivMonotone(a: int, b: int, d: int)
    requires d > 0 && a <= b
    ensures TruncDiv(a, d) <= TruncDiv(b, d)
  {
    if a >= 0 {
      DivMonotone(a, b, d);
    } else if b < 0 {
      DivMonotone(-b, -a, d);
    }
  }

  lemma {:induction false} DivMonotone(x: nat, y: nat, d: int)
    requires d > 0 && x <= y
    ensures x / d <= y / d
  {
    var qx, qy := x / d, y / d;
    assert qx * d <= x;
    assert y < qy * d + d;
    if qx > qy {
      MultiplyAtLeastOnce(qx - qy, d);
      assert false;
    }
  }

  lemma {:induction false} MultiplyAtLeastOnce(k: int, d: int)
    requires k >= 1 && d > 0
    ensures k * d >= d
  {
  }

  /** The worked examples: -1000 ft, 0 ft, 1000 ft, and an altitude far above the range. */
  lemma {:induction false} AltitudeExamples()
    ensures EncodeAltitude(-1000) == 0
    ensures EncodeAltitude(0) == 40
    ensures EncodeAltitude(1000) == 80
    ensures EncodeAltitude(1000000) == 0xFFE
  {
  }

  /** Inside the representable range the encoding is the 25 ft step that holds the altitude. */
  lemma {:induction false} AltitudeWithinOneStep(altitude: int32)
    requires -1000 <= altitude < 0xFFF * 25 - 1000
    ensures EncodeAltitude(altitude) * 25 - 1000 <= altitude < EncodeAltitude(altitude) * 25 - 1000 + 25
  {
  }

  /** A higher altitude never encodes lower; everything below -1000 ft is 0 and the top is 0xFFE. */
  lemma {:induction false} AltitudeMonotone(a: int32, b: int32)
    requires a <= b
    ensures EncodeAltitude(a) <= EncodeAltitude(b)
  {
    TruncDivMonotone(a + 1000, b + 1000, 25);
  }

  /** Within +-32576 fpm the 12-bit field is the rate in 64 fpm units, truncated toward zero. */
  lemma {:induction false} VerticalVelocityRoundTrip(vv: int16)
    requires -32576 <= vv <= 32576
    ensures Signed12(EncodeVerticalVelocity(vv)) == TruncDiv(vv, 64)
    ensures -64 < vv - 64 * Signed12(EncodeVerticalVelocity(vv)) < 64
  {
    Signed12RoundTrip(TruncDiv(vv, 64));
  }

  /** Rates beyond +-32576 fpm (other than the "no data" value) saturate at +-510 units. */
  lemma {:induction false} VerticalVelocitySaturates(vv: int16)
    requires vv != -0x8000 && (vv > 32576 || vv < -32576)
    ensures Signed12(EncodeVerticalVelocity(vv)) == if vv > 0 then 510 else -510
  {
  }

  /** A faster climb never encodes as a slower one. */
  lemma {:induction false} VerticalVelocityMonotone(a: int16, b: int16)
    requires -0x8000 < a <= b
    ensures Signed12(EncodeVerticalVelocity(a)) <= Signed12(EncodeVerticalVelocity(b))
  {
    var ca := if a > 32576 then 32576 else if a < -32576 then -32576 else a;
    var cb := if b > 32576 then 32576 else if b < -32576 then -32576 else b;
    TruncDivMonotone(ca, cb, 64);
    if -32576 <= a <= 32576 {
      VerticalVelocityRoundTrip(a);
    } else {
      VerticalVelocitySaturates(a);
    }
    if -32576 <= b <= 32576 {
      VerticalVelocityRoundTrip(b);
    } else {
      VerticalVelocitySaturates(b);
    }
  }

  /** The track byte depends only on the direction: adding a full turn changes nothing. */
  lemma {:induction false} TrackPeriodic(track: uint16)
    requires track + 360 < 0x1_0000
    ensures EncodeTrack(track + 360) == EncodeTrack(track)
  {
    assert (track + 360) % 360 == track % 360;
  }

  lemma {:induction false} TrackExample()
    ensures EncodeTrack(721) == EncodeTrack(1) == 0
    ensures EncodeTrack(90) == 64 && EncodeTrack(180) == 128 && EncodeTrack(270) == 192
  {
  }

  /** The track byte is the 360/256-degree step that holds the direction. */
  lemma {:induction false} TrackWithinOneStep(track: uint16)
    ensures EncodeTrack(track) * 360 <= (track % 360) * 256 < EncodeTrack(track) * 360 + 360
  {
  }

  /** Ownship and traffic reports of the same data differ in the message id alone. */
  lemma {:induction false} ReportsDifferOnlyInId(d: PositionData)
    ensures PositionPayload(MsgIdOwnshipReport, d)[0] == 0x0A
    ensures PositionPayload(MsgIdTrafficReport, d)[0] == 0x14
    ensures PositionPayload(MsgIdOwnshipReport, d)[1..] == PositionPayload(MsgIdTrafficReport, d)[1..]
  {
    var p := PositionPayload(MsgIdOwnshipReport, d);
    var q := PositionPayload(MsgIdTrafficReport, d);
    assert ReportHeader(MsgIdOwnshipReport, d)[1..] == ReportHeader(MsgIdTrafficReport, d)[1..];
    assert p[1..] == ReportHeader(MsgIdOwnshipReport, d)[1..] + ReportKinematics(d) + ReportIdentity(d);
    assert q[1..] == ReportHeader(MsgIdTrafficReport, d)[1..] + ReportKinematics(d) + ReportIdentity(d);
  }

  /** Where the Heartbeat fields sit: the status bits and the 17-bit timestamp can be read back. */
  lemma {:induction false} HeartbeatFields(gpsValid: bool, utcOk: bool, timestamp: uint32)
    ensures var p := HeartbeatPayload(gpsValid, utcOk, timestamp);
      && p[0] == MsgIdHeartbeat
      && p[1] / 128 == (if gpsValid then 1 else 0) && p[1] % 128 == 1
      && p[2] % 2 == (if utcOk then 1 else 0) && p[2] % 128 / 2 == 0
      && (p[2] / 128) * 0x1_0000 + ReadLe16(p, 3) == timestamp % 0x2_0000
      && ReadBe16(p, 5) == 0
  {
    assert timestamp / 0x1_0000 == (timestamp / 256) / 256;
    assert timestamp % 0x2_0000 == ((timestamp / 0x1_0000) % 2) * 0x1_0000 + ((timestamp / 256) % 256) * 256 + timestamp % 256;
  }

  /** Bytes 0-10 of a report read back as message id, the two nibbles of byte 1, and three 24-bit values. */
  lemma {:induction false} ReportHeaderFields(msgId: byte, d: PositionData)
    ensures var h := ReportHeader(msgId, d);
      && h[0] == msgId
      && h[1] / 16 == d.alertStatus % 16 && h[1] % 16 == d.addressType % 16
      && ReadBe24(h, 2) == d.icaoAddress % 0x100_0000
      && ReadBe24(h, 5) == d.latitude % 0x100_0000
      && ReadBe24(h, 8) == d.longitude % 0x100_0000
  {
    var h := ReportHeader(msgId, d);
    Be24RoundTrip(d.icaoAddress, h, 2);
    Be24RoundTrip(d.latitude, h, 5);
    Be24RoundTrip(d.longitude, h, 8);
  }

  /** Bytes 11-17 read back as the 12-bit altitude and misc nibble, NIC/NACp, the two 12-bit velocities and the track. */
  lemma {:induction false} ReportKinematicsFields(d: PositionData)
    ensures var k := ReportKinematics(d);
      && ReadBe16(k, 0) / 16 == EncodeAltitude(d.altitude)
      && ReadBe16(k, 0) % 16 == Misc(d.airborne, d.trackType)
      && k[2] / 16 == d.nic % 16 && k[2] % 16 == d.nacp % 16
      && ReadBe24(k, 3) / 0x1000 == Min(d.hVelocity, 0xFFE)
      && ReadBe24(k, 3) % 0x1000 == EncodeVerticalVelocity(d.vVelocity)
      && k[6] == EncodeTrack(d.track)
  {
    var h := Min(d.hVelocity, 0xFFE);
    var v := EncodeVerticalVelocity(d.vVelocity);
    var k := ReportKinematics(d);
    assert ReadBe24(k, 3) == (h / 16) * 0x1_0000 + ((h % 16) * 16 + v / 256) * 256 + v % 256;
    assert ReadBe24(k, 3) == h * 0x1000 + v;
  }

  /** Bytes 18-27: emitter category, the 8-byte callsign, and the emergency code in the high nibble. */
  lemma {:induction false} ReportIdentityFields(d: PositionData)
    ensures var i := ReportIdentity(d);
      && i[0] == d.emitterCategory
      && i[1..9] == CallsignField(d.callsign)
      && i[9] / 16 == d.emergencyCode % 16 && i[9] % 16 == 0
  {
  }

  /** The 28-byte report with every field at its offset (message id at 0, data from 1). */
  lemma {:induction false} PositionPayloadFields(msgId: byte, d: PositionData)
    ensures var p := PositionPayload(msgId, d);
      && p[0] == msgId
      && p[1] / 16 == d.alertStatus % 16 && p[1] % 16 == d.addressType % 16
      && ReadBe24(p, 2) == d.icaoAddress % 0x100_0000
      && ReadBe24(p, 5) == d.latitude % 0x100_0000
      && ReadBe24(p, 8) == d.longitude % 0x100_0000
      && ReadBe16(p, 11) / 16 == EncodeAltitude(d.altitude)
      && ReadBe16(p, 11) % 16 == Misc(d.airborne, d.trackType)
      && p[13] / 16 == d.nic % 16 && p[13] % 16 == d.nacp % 16
      && ReadBe24(p, 14) / 0x1000 == Min(d.hVelocity, 0xFFE)
      && ReadBe24(p, 14) % 0x1000 == EncodeVerticalVelocity(d.vVelocity)
      && p[17] == EncodeTrack(d.track)
      && p[18] == d.emitterCategory
      && p[19..27] == CallsignField(d.callsign)
      && p[27] / 16 == d.emergencyCode % 16 && p[27] % 16 == 0
  {
    var h := ReportHeader(msgId, d);
    var k := ReportKinematics(d);
    var i := ReportIdentity(d);
    var p := PositionPayload(msgId, d);
    ReportHeaderFields(msgId, d);
    ReportKinematicsFields(d);
    ReportIdentityFields(d);
    assert p[..11] == h && p[11..18] == k && p[18..] == i;
    assert ReadBe24(p, 2) == ReadBe24(h, 2) && ReadBe24(p, 5) == ReadBe24(h, 5) && ReadBe24(p, 8) == ReadBe24(h, 8);
    assert ReadBe16(p, 11) == ReadBe16(k, 0) && ReadBe24(p, 14) == ReadBe24(k, 3);
    assert p[19..27] == i[1..9];
  }
}
