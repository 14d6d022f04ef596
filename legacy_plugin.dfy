/**
 * The stand-alone plugin in src/xp2gdl90.cpp, which carries its own copy of
 * the GDL-90 CRC, stuffing and framing, its own Heartbeat, the misc nibble
 * rule, the TCAS callsign filter, the 30-second traffic timeout and the
 * settings callback of its configuration window.  Each piece is proved to
 * agree with the shared definitions in Framing and Gdl90Encoder.
 */
module LegacyPlugin {
  import opened Bytes
  import opened Framing
  import opened Fields
  import Gdl90Encoder

  /**
   * The CRC update of gdl90_crc_compute, with the integer promotions of C
   * written out: the register is shifted in 32 bits and masked back to 16.
   */
  function MaskedCrcStep(crc: bv16, b: byte): bv16
  {
    MaskedIndex(crc);
    var m := ((crc as bv32) << 8) & 0xFFFF;
    var tableIndex := ((crc as bv32) >> 8) & 0xFF;
    (((CrcTable[tableIndex as int] as bv32) ^ m ^ (b as bv32)) & 0xFFFF) as bv16
  }

  lemma {:induction false} MaskedIndex(crc: bv16)
    ensures (((crc as bv32) >> 8) & 0xFF) as int == (crc >> 8) as int
  {
  }

  lemma {:induction false} MaskedCombine(entry: bv16, crc: bv16, narrow: bv16, wide: bv32)
    requires wide == narrow as bv32
    ensures (((entry as bv32) ^ (((crc as bv32) << 8) & 0xFFFF) ^ wide) & 0xFFFF) as bv16
            == entry ^ (crc << 8) ^ narrow
  {
  }

  lemma {:induction false} WidenByte(b: byte)
    ensures (b as bv16) as bv32 == b as bv32
  {
  }

  /** The masks change nothing: the plugin's CRC step is the encoder's. */
  lemma {:induction false} MaskedStepAgrees(crc: bv16, b: byte)
    ensures MaskedCrcStep(crc, b) == CrcStep(crc, b)
  {
    MaskedIndex(crc);
    WidenByte(b);
    MaskedCombine(CrcTable[(crc >> 8) as int], crc, b as bv16, b as bv32);
  }

  /** gdl90_crc_compute over the bytes of the buffer it is given. */
  method CrcCompute(data: seq<byte>) returns (crc: bv16)
    ensures crc == Crc(data)
  {
    crc := 0;
    var i := 0;
    while i < |data|
      invariant 0 <= i <= |data|
      invariant crc == Crc(data[..i])
    {
      CrcSnoc(data, i);
      MaskedStepAgrees(crc, data[i]);
      crc := MaskedCrcStep(crc, data[i]);
      i := i + 1;
    }
    assert data[..|data|] == data;
  }

  /** gdl90_add_crc: appends the CRC of the message, low byte then high byte. */
  method AddCrc(msg: ByteBuffer)
    modifies msg
    ensures msg.data == WithCrc(old(msg.data))
  {
    var crc := CrcCompute(msg.data);
    CrcMaskedBytes(crc);
    msg.PushBack((crc & 0xFF) as int);
    msg.PushBack(((crc >> 8) & 0xFF) as int);
  }

  /** gdl90_escape: builds the stuffed copy and assigns it back to the message. */
  method EscapeInPlace(msg: ByteBuffer)
    modifies msg
    ensures msg.data == Escape(old(msg.data))
  {
    var source := msg.data;
    var escaped: seq<byte> := [];
    var i := 0;
    while i < |source|
      invariant 0 <= i <= |source|
      invariant escaped == Escape(source[..i])
    {
      assert source[..i + 1][..i] == source[..i];
      var b := source[i];
      if b == 0x7D || b == 0x7E {
        escaped := escaped + [0x7D];
        escaped := escaped + [Xor20(b)];
      } else {
        escaped := escaped + [b];
      }
      i := i + 1;
    }
    assert source[..|source|] == source;
    msg.Assign(escaped);
  }

  /** gdl90_prepare_message: the message is taken by value, so the caller's copy is untouched. */
  method PrepareMessage(msg: seq<byte>) returns (framed: seq<byte>)
    ensures framed == Frame(msg)
  {
    var buffer := new ByteBuffer(msg);
    AddCrc(buffer);
    EscapeInPlace(buffer);
    buffer.InsertFront(0x7E);
    buffer.PushBack(0x7E);
    framed := buffer.data;
  }

  /** gdl90_pack24bit: bits 23-16, 15-8 and 7-0 of the value, in that order. */
  method Pack24Bit(msg: ByteBuffer, value: uint32)
    modifies msg
    ensures msg.data == old(msg.data) + Be24(value)
  {
    msg.PushBack((value / 0x1_0000) % 256);
    msg.PushBack((value / 0x100) % 256);
    msg.PushBack(value % 0x100);
  }

  /** The payload part of create_heartbeat, with the broken-down UTC time of gmtime_r as parameters. */
  method BuildHeartbeat(hour: int, minute: int, second: int) returns (msg: seq<byte>)
    requires 0 <= hour < 24 && 0 <= minute < 60 && 0 <= second <= 60
    ensures msg == Gdl90Encoder.HeartbeatPayload(true, true, hour * 3600 + minute * 60 + second)
  {
    msg := [0x00];
    var timestamp := hour * 3600 + minute * 60 + second;
    var status1 := 0x80 + 0x01;
    var status2 := 0x01;
    var tsBit16 := (timestamp / 0x1_0000) % 2;
    status2 := status2 % 0x80 + tsBit16 * 0x80;
    msg := msg + [status1, status2];
    var tsLow := timestamp % 0x1_0000;
    assert (tsLow / 0x100) % 0x100 == (timestamp / 0x100) % 0x100;
    msg := msg + [tsLow % 0x100, (tsLow / 0x100) % 0x100];
    msg := msg + [0x00, 0x00];
  }

  /** create_heartbeat: GPS valid and UTC OK are always set, the message count is always 0. */
  method CreateHeartbeat(hour: int, minute: int, second: int) returns (framed: seq<byte>)
    requires 0 <= hour < 24 && 0 <= minute < 60 && 0 <= second <= 60
    ensures framed == Frame(Gdl90Encoder.HeartbeatPayload(true, true, hour * 3600 + minute * 60 + second))
  {
    var msg := BuildHeartbeat(hour, minute, second);
    framed := PrepareMessage(msg);
  }

  /** The misc nibble of both report builders: airborne unless on the ground, track type 1 (true track). */
  function Misc(onGround: bool): (r: int)
    ensures r == Gdl90Encoder.Misc(!onGround, 1)
    ensures r == if onGround then 0x1 else 0x9
  {
    (if onGround then 0 else 1) * 8 + 1
  }

  /** The characters the callsign filter keeps: digits, letters and the space. */
  predicate CallsignChar(c: byte)
  {
    (0x30 <= c <= 0x39) || (0x41 <= c <= 0x5A) || (0x61 <= c <= 0x7A) || c == 0x20
  }

  /** toupper on the characters the filter keeps. */
  function Upper(c: byte): (r: byte)
    ensures 0x61 <= c <= 0x7A ==> r == c - 0x20
    ensures !(0x61 <= c <= 0x7A) ==> r == c
  {
    if 0x61 <= c <= 0x7A then c - 0x20 else c
  }

  /** The kept characters of a string, upper-cased, in order. */
  function KeepCallsignChars(s: seq<byte>): (r: seq<byte>)
    ensures |r| <= |s|
    decreases |s|
  {
    if |s| == 0 then []
    else KeepCallsignChars(s[..|s| - 1]) + (if CallsignChar(s[|s| - 1]) then [Upper(s[|s| - 1])] else [])
  }

  /** The characters of a C string: everything before the first NUL. */
  function CString(s: seq<byte>): (r: seq<byte>)
    ensures |r| <= |s| && NulFree(r)
    decreases |s|
  {
    if |s| == 0 || s[0] == 0 then [] else [s[0]] + CString(s[1..])
  }

  predicate NulFree(s: seq<byte>)
  {
    forall k :: 0 <= k < |s| ==> s[k] != 0
  }

  /** The callsign the filter writes for a 7-character flight id: kept characters, then spaces, then NUL. */
  function FilteredCallsign(flightId: seq<byte>): (r: seq<byte>)
    requires |flightId| == 7
  {
    var kept := KeepCallsignChars(CString(flightId));
    kept + seq(8 - |kept|, _ => 0x20) + [0]
  }

  /** Every kept character is a digit, an upper-case letter or a space. */
  lemma {:induction false} KeptCharsAllowed(s: seq<byte>)
    ensures forall k :: 0 <= k < |KeepCallsignChars(s)| ==>
      var c := KeepCallsignChars(s)[k]; (0x30 <= c <= 0x39) || (0x41 <= c <= 0x5A) || c == 0x20
    decreases |s|
  {
    if |s| > 0 {
      KeptCharsAllowed(s[..|s| - 1]);
    }
  }

  /** A C string ending where the scan stopped: at the first NUL, or at the end. */
  lemma {:induction false} CStringStops(s: seq<byte>, k: nat)
    requires k <= |s| && NulFree(s[..k]) && (k == |s| || s[k] == 0)
    ensures CString(s) == s[..k]
    decreases k
  {
    if k > 0 {
      assert s[0] == s[..k][0];
      CStringStops(s[1..], k - 1);
      assert s[1..][..k - 1] == s[..k][1..];
    }
  }

  /** The filtered callsign is 8 characters a GDL-90 callsign may hold, then the terminating NUL. */
  lemma {:induction false} FilteredCallsignShape(flightId: seq<byte>)
    requires |flightId| == 7
    ensures var r := FilteredCallsign(flightId);
      |r| == 9 && r[8] == 0
      && forall k :: 0 <= k < 8 ==> (0x30 <= r[k] <= 0x39) || (0x41 <= r[k] <= 0x5A) || r[k] == 0x20
  {
    var kept := KeepCallsignChars(CString(flightId));
    KeptCharsAllowed(CString(flightId));
    var r := FilteredCallsign(flightId);
    assert forall k :: 0 <= k < |kept| ==> r[k] == kept[k];
  }

  /** A target of update_traffic_targets: its callsign buffer, last update time and active flag. */
  class TrafficTarget {
    var callsign: array<byte>
    var lastUpdate: real
    var active: bool

    predicate Valid()
      reads this
    {
      callsign.Length == 9
    }

    /** The start-up state: a default callsign (its formatting is not modelled), never updated, inactive. */
    constructor (initial: seq<byte>)
      requires |initial| == 8
      ensures Valid() && fresh(callsign)
      ensures callsign[..] == initial + [0]
      ensures lastUpdate == 0.0 && !active
    {
      var buffer := new byte[9](k => 0);
      var i := 0;
      while i < 8
        invariant 0 <= i <= 8
        invariant buffer[..i] == initial[..i] && buffer[8] == 0
        modifies buffer
      {
        buffer[i] := initial[i];
        i := i + 1;
      }
      assert initial[..8] == initial;
      callsign := buffer;
      lastUpdate := 0.0;
      active := false;
    }

    /**
     * The callsign step of update_traffic_targets for aircraft index i: the
     * 7 characters at offset (i+1)*8 of the flight-id array are taken when
     * that slot lies inside what was read, and replace the callsign unless
     * they start with NUL or a space.
     */
    method ApplyFlightId(flightIds: seq<byte>, bytesRead: int, i: nat)
      requires Valid()
      requires bytesRead <= |flightIds|
      modifies callsign
      ensures Valid()
      ensures var offset := (i + 1) * 8;
        if bytesRead > 0 && offset + 7 < bytesRead && flightIds[offset] != 0 && flightIds[offset] != 0x20
        then callsign[..] == FilteredCallsign(flightIds[offset..offset + 7])
        else callsign[..] == old(callsign[..])
    {
      var offset := (i + 1) * 8;
      if bytesRead > 0 && offset + 7 < bytesRead {
        var flightId := flightIds[offset..offset + 7];
        if flightId[0] != 0 && flightId[0] != 0x20 {
          FilterCallsign(flightId);
        }
      }
    }

    /** The memset and the copy loop of the callsign filter. */
    method FilterCallsign(flightId: seq<byte>)
      requires Valid() && |flightId| == 7
      modifies callsign
      ensures Valid()
      ensures callsign[..] == FilteredCallsign(flightId)
    {
      var n := 0;
      while n < 8
        invariant 0 <= n <= 8
        invariant forall m :: 0 <= m < n ==> callsign[m] == 0x20
      {
        callsign[n] := 0x20;
        n := n + 1;
      }
      callsign[8] := 0;
      var j := 0;
      var k := 0;
      while k < 7 && j < 8
        invariant 0 <= j <= k <= 7
        invariant NulFree(flightId[..k])
        invariant callsign[..j] == KeepCallsignChars(flightId[..k])
        invariant forall m :: j <= m < 8 ==> callsign[m] == 0x20
        invariant callsign[8] == 0
      {
        var c := flightId[k];
        if c == 0 {
          break;
        }
        assert flightId[..k + 1][..k] == flightId[..k];
        if CallsignChar(c) {
          callsign[j] := Upper(c);
          j := j + 1;
        }
        k := k + 1;
      }
      CStringStops(flightId, k);
      var kept := KeepCallsignChars(CString(flightId));
      assert callsign[..] == kept + seq(8 - |kept|, _ => 0x20) + [0];
    }

    /**
     * The bookkeeping at the end of one target's update: a target that does
     * not exist goes inactive; an updated one is stamped and active; any
     * other goes inactive once more than 30 seconds have passed.
     */
    method UpdateActivity(present: bool, updated: bool, now: real)
      modifies this
      ensures callsign == old(callsign)
      ensures !present ==> !active && lastUpdate == old(lastUpdate)
      ensures present && updated ==> active && lastUpdate == now
      ensures present && !updated ==>
        lastUpdate == old(lastUpdate) && active == (old(active) && now - old(lastUpdate) <= 30.0)
      ensures active ==> present && now - lastUpdate <= 30.0
    {
      if !present {
        active := false;
        return;
      }
      if updated {
        lastUpdate := now;
        active := true;
      } else if now - lastUpdate > 30.0 {
        active := false;
      }
    }
  }

  /** What strncpy(dest, src, n) leaves in the first n bytes for a NUL-free src: src cut to n, then NULs. */
  function Strncpy(src: seq<byte>, n: nat): (r: seq<byte>)
    ensures |r| == n
  {
    var copied := src[..Min(n, |src|)];
    copied + seq(n - |copied|, _ => 0)
  }

  /** The string strncpy leaves behind reads back as the source cut to n characters. */
  lemma {:induction false} StrncpyCString(src: seq<byte>, n: nat)
    requires NulFree(src)
    ensures CString(Strncpy(src, n) + [0]) == src[..Min(n, |src|)]
  {
    var copied := src[..Min(n, |src|)];
    var r := Strncpy(src, n) + [0];
    assert r[|copied|] == 0;
    assert r[..|copied|] == copied;
    CStringStops(r, |copied|);
  }

  /** The target address and switches that imgui_config_callback updates. */
  class PluginSettings {
    var targetIp: array<byte>
    var targetPort: int
    var broadcastEnabled: bool
    var trafficEnabled: bool

    predicate Valid()
      reads this
    {
      targetIp.Length == 16
    }

    /**
     * imgui_config_callback.  A null or empty address keeps the old one; any
     * other is copied with strncpy into the 16-byte buffer, at most 15
     * characters and always NUL-terminated.  A port outside 1..65535 is
     * ignored.  The two switches are always taken.  Reopening the socket is
     * not modelled.
     */
    method ConfigCallback(ip: Option<seq<byte>>, port: int, broadcast: bool, traffic: bool)
      requires Valid()
      requires ip.Some? ==> NulFree(ip.value)
      modifies this, targetIp
      ensures Valid() && targetIp == old(targetIp)
      ensures ip.Some? && |ip.value| > 0 ==> targetIp[..] == Strncpy(ip.value, 15) + [0]
      ensures ip.Some? && |ip.value| > 0 ==> CString(targetIp[..]) == ip.value[..Min(15, |ip.value|)]
      ensures !(ip.Some? && |ip.value| > 0) ==> targetIp[..] == old(targetIp[..])
      ensures targetPort == if 0 < port < 65536 then port else old(targetPort)
      ensures broadcastEnabled == broadcast && trafficEnabled == traffic
    {
      if ip.Some? && |ip.value| > 0 {
        var src := ip.value;
        var buffer := targetIp;
        var i := 0;
        while i < 15
          invariant 0 <= i <= 15
          invariant buffer[..i] == Strncpy(src, 15)[..i]
          modifies buffer
        {
          buffer[i] := if i < |src| then src[i] else 0;
          i := i + 1;
        }
        buffer[15] := 0;
        assert buffer[..] == Strncpy(src, 15) + [0];
        StrncpyCString(src, 15);
      }
      if port > 0 && port < 65536 {
        targetPort := port;
      }
      broadcastEnabled := broadcast;
      trafficEnabled := traffic;
    }
  }
}
