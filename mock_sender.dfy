/**
 * The mock GDL-90 sender used to exercise the receiver without the
 * simulator (reciever/mock_gdl90_sender.py): its own CRC, stuffing and
 * framing, a Heartbeat that carries and advances a message counter, and a
 * Traffic Report built from integer inputs (the mock takes floats, which
 * agree with these at whole values only) and a callsign taken as its bytes.
 * The socket and the clock are outside the model; the clock reading is a
 * parameter.
 */
module MockSender {
  import opened Bytes
  import opened Fields
  import opened Framing
  import Gdl90Encoder
  import PyEncoder

  /** Vertical speed as the mock encodes it: 0 means "no data", and nothing is clamped before the 12-bit mask. */
  function MockVerticalVelocity(vs: int): (r: int)
    ensures 0 <= r < 0x1000
  {
    if vs == 0 then 0x800
    else
      var vs64 := TruncDiv(vs, 64);
      if vs64 < 0 then (0x1000 + vs64) % 0x1000 else vs64 % 0x1000
  }

  /** Horizontal speed clamped to [0, 0xFFE]. */
  function MockHVelocity(speed: int): (r: int)
    ensures 0 <= r <= 0xFFE
    ensures 0 <= speed <= 0xFFE ==> r == speed
  {
    if speed < 0 then 0 else if speed > 0xFFE then 0xFFE else speed
  }

  /** The Heartbeat payload: status 0x81 and 0x01 with timestamp bit 16 in bit 7, timestamp LE, counter BE. */
  function HeartbeatPayload(timestamp: nat, count: nat): (r: seq<byte>)
    ensures |r| == 7
  {
    var tsBit16 := (timestamp / 0x1_0000) % 2;
    var tsLow := timestamp % 0x1_0000;
    [0x00, 0x81, 0x01 + tsBit16 * 0x80, tsLow % 0x100, (tsLow / 0x100) % 0x100, (count / 0x100) % 0x100, count % 0x100]
  }

  /** Bytes 0-10 of the traffic report: id 0x14, status 0, address, latitude, longitude. */
  function TrafficHeader(icao: int, latitude: int, longitude: int): (r: seq<byte>)
    requires 0 <= latitude < 0x100_0000 && 0 <= longitude < 0x100_0000
    ensures |r| == 11
  {
    [Gdl90Encoder.MsgIdTrafficReport, 0x00] + Be24(icao % 0x100_0000) + Be24(latitude) + Be24(longitude)
  }

  /** Bytes 11-17: altitude and misc 9, NIC 11 and NACp 10, the velocities, the track. */
  function TrafficKinematics(alt: int, speed: int, vs: int, track: int): (r: seq<byte>)
    ensures |r| == 7
  {
    Gdl90Encoder.AltitudeMiscBytes(PyEncoder.Altitude(alt), PyEncoder.PyMisc)
    + [PyEncoder.NicNacp]
    + Gdl90Encoder.VelocityBytes(MockHVelocity(speed), MockVerticalVelocity(vs))
    + [PyEncoder.Track(track)]
  }

  /** Bytes 18-27: emitter category 1, the callsign padded to 8, emergency byte 0. */
  function TrafficIdentity(callsign: seq<byte>): (r: seq<byte>)
    ensures |r| == 10
  {
    [1] + Gdl90Encoder.CallsignField(callsign) + [0x00]
  }

  function TrafficPayload(latitude: int, longitude: int, alt: int, speed: int, vs: int, track: int,
                          callsign: seq<byte>, icao: int): (r: seq<byte>)
    requires 0 <= latitude < 0x100_0000 && 0 <= longitude < 0x100_0000
    ensures |r| == 28
  {
    TrafficHeader(icao, latitude, longitude) + TrafficKinematics(alt, speed, vs, track) + TrafficIdentity(callsign)
  }

  /** (v >> 16) & 0xFF, (v >> 8) & 0xFF, v & 0xFF on a Python integer of any sign. */
  lemma {:induction false} ShiftMaskBytes(v: int)
    ensures [(v / 0x1_0000) % 256, (v / 256) % 256, v % 256] == Be24(v % 0x100_0000)
  {
    var low := v % 0x100_0000;
    var hi := v / 0x100_0000;
    assert v == hi * 0x100_0000 + low;
    assert v / 0x1_0000 == hi * 256 + low / 0x1_0000;
    assert v / 256 == hi * 0x1_0000 + low / 256;
  }

  /** The sender: the message counter is the only state the encoding depends on. */
  class Sender {
    var messageCount: nat

    constructor()
      ensures messageCount == 0
    {
      messageCount := 0;
    }

    /** compute_crc: the table-driven loop, the same CRC as the plugin's. */
    method ComputeCrc(data: seq<byte>) returns (crc: bv16)
      ensures crc == Crc(data)
    {
      crc := 0;
      var i := 0;
      while i < |data|
        invariant 0 <= i <= |data|
        invariant crc == Crc(data[..i])
      {
        CrcSnoc(data, i);
        crc := CrcStep(crc, data[i]);
        i := i + 1;
      }
      assert data[..|data|] == data;
    }

    /** escape_data: 0x7D and 0x7E become 0x7D followed by the byte xor 0x20. */
    method EscapeData(data: seq<byte>) returns (escaped: seq<byte>)
      ensures escaped == Escape(data)
    {
      escaped := [];
      var i := 0;
      while i < |data|
        invariant 0 <= i <= |data|
        invariant escaped == Escape(data[..i])
      {
        assert data[..i + 1][..i] == data[..i];
        var b := data[i];
        if b == 0x7D || b == 0x7E {
          escaped := escaped + [0x7D] + [Xor20(b)];
        } else {
          escaped := escaped + [b];
        }
        i := i + 1;
      }
      assert data[..|data|] == data;
    }

    /** create_frame: CRC low byte then high byte, escaped, between two flags; the plugin's frame. */
    method CreateFrame(messageData: seq<byte>) returns (frame: seq<byte>)
      ensures frame == Frame(messageData)
    {
      var crc := ComputeCrc(messageData);
      var payload := messageData + [(crc & 0xFF) as int, ((crc >> 8) & 0xFF) as int];
      PyEncoder.HighByteMask(crc);
      assert ((crc >> 8) & 0xFF) == (crc & 0xFF00) >> 8;
      var escaped := EscapeData(payload);
      frame := [Flag] + escaped + [Flag];
    }

    /** create_heartbeat: the payload carries the counter's low 16 bits, and the counter advances by one. */
    method CreateHeartbeat(hour: nat, minute: nat, second: nat) returns (frame: seq<byte>)
      modifies this
      ensures messageCount == old(messageCount) + 1
      ensures frame == Frame(HeartbeatPayload(hour * 3600 + minute * 60 + second, old(messageCount)))
    {
      var timestamp := hour * 3600 + minute * 60 + second;
      var msg := BuildHeartbeat(timestamp, messageCount);
      messageCount := messageCount + 1;
      frame := CreateFrame(msg);
    }

    /** create_traffic_report from integer inputs; latitude and longitude as the 24-bit encodings. */
    method CreateTrafficReport(latitude: int, longitude: int, alt: int, speed: int, vs: int, track: int,
                               callsign: seq<byte>, icao: int) returns (frame: seq<byte>)
      requires 0 <= latitude < 0x100_0000 && 0 <= longitude < 0x100_0000
      ensures frame == Frame(TrafficPayload(latitude, longitude, alt, speed, vs, track, callsign, icao))
    {
      var msg := BuildTrafficReport(latitude, longitude, alt, speed, vs, track, callsign, icao);
      frame := CreateFrame(msg);
    }
  }

  /** The bytes create_heartbeat appends before framing. */
  method BuildHeartbeat(timestamp: nat, count: nat) returns (msg: seq<byte>)
    ensures msg == HeartbeatPayload(timestamp, count)
  {
    var st1 := 0x81;
    var st2 := 0x01;
    var tsBit16 := (timestamp / 0x1_0000) % 2;
    st2 := st2 % 0x80 + tsBit16 * 0x80;
    msg := [0x00, st1, st2];
    var tsLow := timestamp % 0x1_0000;
    msg := msg + [tsLow % 0x100, (tsLow / 0x100) % 0x100];
    msg := msg + [(count / 0x100) % 0x100, count % 0x100];
  }

  method BuildTrafficReport(latitude: int, longitude: int, alt: int, speed: int, vs: int, track: int,
                            callsign: seq<byte>, icao: int) returns (msg: seq<byte>)
    requires 0 <= latitude < 0x100_0000 && 0 <= longitude < 0x100_0000
    ensures msg == TrafficPayload(latitude, longitude, alt, speed, vs, track, callsign, icao)
  {
    var buffer := new ByteBuffer([Gdl90Encoder.MsgIdTrafficReport]);
    PushAddressAndPosition(buffer, icao, latitude, longitude);
    PushKinematics(buffer, alt, speed, vs, track);
    PushIdentity(buffer, callsign);
    msg := buffer.data;
  }

  /** Status byte 0, then address, latitude and longitude, each by shifts and masks. */
  method PushAddressAndPosition(msg: ByteBuffer, icao: int, latitude: int, longitude: int)
    requires 0 <= latitude < 0x100_0000 && 0 <= longitude < 0x100_0000
    requires msg.data == [Gdl90Encoder.MsgIdTrafficReport]
    modifies msg
    ensures msg.data == TrafficHeader(icao, latitude, longitude)
  {
    msg.PushBack(0x00);
    ShiftMaskBytes(icao);
    msg.Extend([(icao / 0x1_0000) % 256, (icao / 256) % 256, icao % 256]);
    msg.Extend(Be24(latitude));
    msg.Extend(Be24(longitude));
  }

  method PushKinematics(msg: ByteBuffer, alt: int, speed: int, vs: int, track: int)
    modifies msg
    ensures msg.data == old(msg.data) + TrafficKinematics(alt, speed, vs, track)
  {
    var altEncoded := PyEncoder.Altitude(alt);
    msg.PushBack(altEncoded / 16);
    msg.PushBack((altEncoded % 16) * 16 + PyEncoder.PyMisc);
    msg.PushBack(PyEncoder.NicNacp);
    var hVelocity := MockHVelocity(speed);
    var vVelocity := MockVerticalVelocity(vs);
    msg.PushBack(hVelocity / 16);
    msg.PushBack((hVelocity % 16) * 16 + vVelocity / 256);
    msg.PushBack(vVelocity % 256);
    msg.PushBack(PyEncoder.Track(track));
  }

  method PushIdentity(msg: ByteBuffer, callsign: seq<byte>)
    modifies msg
    ensures msg.data == old(msg.data) + TrafficIdentity(callsign)
  {
    msg.PushBack(1);
    PyEncoder.CallsignPaddingAgrees(callsign);
    msg.Extend(Gdl90Encoder.CallsignField(callsign + seq(8, _ => 0x20)));
    msg.PushBack(0x00);
  }

  /** (n >> 8) & 0xFF and n & 0xFF, read back big-endian, are the low 16 bits of n. */
  lemma {:induction false} Low16(n: nat)
    ensures ((n / 0x100) % 0x100) * 256 + n % 0x100 == n % 0x1_0000
    ensures (n % 0x1_0000 / 0x100) % 0x100 == (n / 0x100) % 0x100
  {
    var a := n / 0x100;
    assert n / 0x1_0000 == a / 0x100;
    assert n % 0x1_0000 == (a % 0x100) * 0x100 + n % 0x100;
  }

  /** The counter goes out big-endian, modulo 2^16; the other fields are the plugin's with GPS valid and UTC OK. */
  lemma {:induction false} HeartbeatFields(timestamp: uint32, count: nat)
    ensures var p := HeartbeatPayload(timestamp, count);
      && p[..5] == Gdl90Encoder.HeartbeatPayload(true, true, timestamp)[..5]
      && ReadBe16(p, 5) == count % 0x1_0000
  {
    Low16(timestamp);
    Low16(count);
  }

  /** Two heartbeats in a row carry consecutive counter values. */
  lemma {:induction false} HeartbeatCountsAdvance(timestamp1: nat, timestamp2: nat, count: nat)
    ensures ReadBe16(HeartbeatPayload(timestamp2, count + 1), 5) == (ReadBe16(HeartbeatPayload(timestamp1, count), 5) + 1) % 0x1_0000
  {
    CountField(timestamp1, count);
    CountField(timestamp2, count + 1);
    var q := count / 0x1_0000;
    var r := count % 0x1_0000;
    assert count + 1 == q * 0x1_0000 + (r + 1);
    if r + 1 < 0x1_0000 {
      ModOfSum(q, r + 1);
    } else {
      ModOfSum(q + 1, 0);
    }
  }

  lemma {:induction false} ModOfSum(q: nat, r: nat)
    requires r < 0x1_0000
    ensures (q * 0x1_0000 + r) % 0x1_0000 == r
  {
  }

  lemma {:induction false} CountField(timestamp: nat, count: nat)
    ensures ReadBe16(HeartbeatPayload(timestamp, count), 5) == count % 0x1_0000
  {
    Low16(count);
  }

  /** A level flight (0 fpm) is sent as "no data", where the plugin sends 0. */
  lemma {:induction false} ZeroVerticalSpeedIsNoData()
    ensures MockVerticalVelocity(0) == Gdl90Encoder.VerticalVelocityInvalid
    ensures Gdl90Encoder.EncodeVerticalVelocity(0) == 0
  {
  }

  /** Any other vertical speed the plugin does not saturate is encoded as the plugin encodes it. */
  lemma {:induction false} VerticalVelocityAgrees(vs: int16)
    requires vs != 0 && -32576 <= vs <= 32576
    ensures MockVerticalVelocity(vs) == Gdl90Encoder.EncodeVerticalVelocity(vs)
  {
  }

  /** Without the clamp a fast climb wraps around the 12-bit field: 131072 fpm comes out as "no data". */
  lemma {:induction false} FastClimbWraps()
    ensures MockVerticalVelocity(131072) == Gdl90Encoder.VerticalVelocityInvalid
    ensures PyEncoder.TrafficVerticalVelocity(Some(131072)) == 0x1FE
  {
  }

  /**
   * For a nonzero vertical speed within the plugin's range, the mock's
   * Traffic payload is the Python plugin's for the same inputs.
   */
  lemma {:induction false} TrafficAgreesWithPlugin(latitude: int, longitude: int, alt: int, speed: int, vs: int, track: int,
                                callsign: seq<byte>, icao: int)
    requires 0 <= latitude < 0x100_0000 && 0 <= longitude < 0x100_0000
    requires vs != 0 && -32576 <= vs <= 32576
    ensures TrafficPayload(latitude, longitude, alt, speed, vs, track, callsign, icao)
         == PyEncoder.TrafficPayload(Some(callsign), Some(icao),
              PyEncoder.ReportInput(latitude, longitude, alt, Some(speed), track, Some(vs)))
  {
    var input := PyEncoder.ReportInput(latitude, longitude, alt, Some(speed), track, Some(vs));
    assert TrafficHeader(icao, latitude, longitude)
        == PyEncoder.PyHeader(Gdl90Encoder.MsgIdTrafficReport, PyEncoder.TrafficStatusByte(0, 0), icao % 0x100_0000, input);
    KinematicsAgree(alt, speed, vs, track, input);
    PyEncoder.CallsignFieldIdempotent(callsign);
    assert TrafficIdentity(callsign) == PyEncoder.PyIdentity(Gdl90Encoder.CallsignField(callsign));
  }

  lemma {:induction false} KinematicsAgree(alt: int, speed: int, vs: int, track: int, input: PyEncoder.ReportInput)
    requires vs != 0 && -32576 <= vs <= 32576
    requires input.altFt == alt && input.speedKts == Some(speed) && input.trackDeg == track && input.vsFpm == Some(vs)
    ensures TrafficKinematics(alt, speed, vs, track) == PyEncoder.PyKinematics(input, PyEncoder.TrafficVerticalVelocity(Some(vs)))
  {
    var h := MockHVelocity(speed);
    var v := MockVerticalVelocity(vs);
    assert PyEncoder.HVelocity(Some(speed)) == h;
    assert PyEncoder.TrafficVerticalVelocity(Some(vs)) == v;
    PyEncoder.VelocityBytesAgree(h, v);
  }
}
