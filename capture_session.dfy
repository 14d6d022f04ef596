/**
 * The capture session of the real-time receiver: every datagram is decoded,
 * kept, and counted into the session statistics (total, CRC-valid, CRC
 * errors, decode errors, and a count per message-type name).
 */
module CaptureSession {
  import opened Bytes
  import opened RealtimeCapture
  import opened Framing

  /** An upper-case hexadecimal digit. */
  function HexDigit(n: int): (c: char)
    requires 0 <= n < 16
    ensures ('0' <= c <= '9') || ('A' <= c <= 'F')
  {
    if n < 10 then ('0' as int + n) as char else ('A' as int + n - 10) as char
  }

  /** A byte as two upper-case hexadecimal digits (format spec 02X). */
  function HexByte(b: byte): (r: seq<char>)
    ensures |r| == 2
  {
    [HexDigit(b / 16), HexDigit(b % 16)]
  }

  /** The "message_type" a decoded packet carries, or "Unknown" when it has none (the error results). */
  function MessageType(d: Decoded): (t: seq<char>)
    ensures d.PacketTooShort? ==> t == "Unknown"
  {
    match d
    case PacketTooShort => "Unknown"
    case Packet(_, _, _, body) =>
      match body
      case HeartbeatBody(_) => "Heartbeat"
      case PositionBody(isOwnship, _) => if isOwnship then "Ownship Position Report" else "Traffic Report"
      case UnknownBody(msgId) => "Unknown (0x" + HexByte(msgId) + ")"
      case HeartbeatTooShort => "Unknown"
      case PositionTooShort => "Unknown"
  }

  /** decoded_packet.get("crc_valid"): false when the packet was too short to carry a CRC. */
  predicate CrcValid(d: Decoded)
  {
    d.Packet? && d.crcValid
  }

  /** "error" in decoded_packet: the packet, or the message inside it, was too short. */
  predicate HasError(d: Decoded)
  {
    d.PacketTooShort? || d.body.HeartbeatTooShort? || d.body.PositionTooShort?
  }

  /** How many of the packets passed the CRC check. */
  function CountValid(log: seq<Decoded>): (n: nat)
    ensures n <= |log|
  {
    if |log| == 0 then 0 else CountValid(log[..|log| - 1]) + (if CrcValid(log[|log| - 1]) then 1 else 0)
  }

  /** How many of the packets carry an error. */
  function CountErrors(log: seq<Decoded>): (n: nat)
    ensures n <= |log|
  {
    if |log| == 0 then 0 else CountErrors(log[..|log| - 1]) + (if HasError(log[|log| - 1]) then 1 else 0)
  }

  /** How many of the packets carry the message-type name t. */
  function CountType(log: seq<Decoded>, t: seq<char>): (n: nat)
    ensures n <= |log|
  {
    if |log| == 0 then 0 else CountType(log[..|log| - 1], t) + (if MessageType(log[|log| - 1]) == t then 1 else 0)
  }

  /** The message_types dictionary after the packets of log, one increment per packet. */
  function Tally(log: seq<Decoded>): (m: map<seq<char>, nat>)
  {
    if |log| == 0 then map[]
    else
      var before := Tally(log[..|log| - 1]);
      var t := MessageType(log[|log| - 1]);
      before[t := (if t in before then before[t] else 0) + 1]
  }

  /** The tally holds exactly the names seen, each with the number of packets that carried it. */
  lemma {:induction false} TallyCounts(log: seq<Decoded>, t: seq<char>)
    ensures t in Tally(log) <==> CountType(log, t) > 0
    ensures t in Tally(log) ==> Tally(log)[t] == CountType(log, t)
  {
    if |log| > 0 {
      TallyCounts(log[..|log| - 1], t);
    }
  }

  /** The sum of the counts of a dictionary, as sum(d.values()). */
  ghost function MapSum(m: map<seq<char>, nat>): (r: nat)
    ensures m == map[] ==> r == 0
    decreases |m.Keys|
  {
    if m == map[] then 0
    else
      var k :| k in m;
      m[k] + MapSum(m - {k})
  }

  /** The sum can be taken starting from any key. */
  lemma {:induction false} MapSumRemove(m: map<seq<char>, nat>, k: seq<char>)
    requires k in m
    ensures MapSum(m) == m[k] + MapSum(m - {k})
    decreases |m.Keys|
  {
    var j :| j in m && MapSum(m) == m[j] + MapSum(m - {j});
    if j != k {
      assert (m - {j}).Keys == m.Keys - {j};
      assert (m - {k}).Keys == m.Keys - {k};
      MapSumRemove(m - {j}, k);
      MapSumRemove(m - {k}, j);
      assert (m - {j}) - {k} == (m - {k}) - {j};
    }
  }

  /** One increment of one count raises the sum by one. */
  lemma {:induction false} MapSumIncrement(m: map<seq<char>, nat>, t: seq<char>)
    ensures MapSum(m[t := (if t in m then m[t] else 0) + 1]) == MapSum(m) + 1
  {
    var m' := m[t := (if t in m then m[t] else 0) + 1];
    MapSumRemove(m', t);
    if t in m {
      MapSumRemove(m, t);
      assert m' - {t} == m - {t};
    } else {
      assert m' - {t} == m;
    }
  }

  /** The counts of the message-type dictionary add up to the number of packets. */
  lemma {:induction false} TallySum(log: seq<Decoded>)
    ensures MapSum(Tally(log)) == |log|
  {
    if |log| > 0 {
      TallySum(log[..|log| - 1]);
      MapSumIncrement(Tally(log[..|log| - 1]), MessageType(log[|log| - 1]));
    }
  }

  /** One packet more adds its own contribution to every statistic. */
  lemma {:induction false} StatisticsSnoc(log: seq<Decoded>, d: Decoded)
    ensures CountValid(log + [d]) == CountValid(log) + (if CrcValid(d) then 1 else 0)
    ensures CountErrors(log + [d]) == CountErrors(log) + (if HasError(d) then 1 else 0)
    ensures var t := MessageType(d);
      Tally(log + [d]) == Tally(log)[t := (if t in Tally(log) then Tally(log)[t] else 0) + 1]
    ensures MapSum(Tally(log + [d])) == |log| + 1
  {
    assert (log + [d])[..|log|] == log;
    TallySum(log + [d]);
  }

  /** Different unknown message ids are counted under different names. */
  lemma {:induction false} UnknownNamesDistinct(a: byte, b: byte)
    requires a != b
    ensures MessageType(Packet(true, 0, 0, UnknownBody(a))) != MessageType(Packet(true, 0, 0, UnknownBody(b)))
  {
    var ta := MessageType(Packet(true, 0, 0, UnknownBody(a)));
    var tb := MessageType(Packet(true, 0, 0, UnknownBody(b)));
    assert ta[11..13] == HexByte(a) && tb[11..13] == HexByte(b);
    if a / 16 != b / 16 {
      assert ta[11] != tb[11];
    } else {
      assert ta[12] != tb[12];
    }
  }

  /** The named message types are never confused with the "Unknown" of an error result or an unknown id. */
  lemma {:induction false} KnownNamesDistinct(d: Decoded)
    ensures MessageType(d) == "Heartbeat" <==> d.Packet? && d.body.HeartbeatBody?
    ensures MessageType(d) == "Unknown" <==> HasError(d)
  {
    if d.Packet? && d.body.UnknownBody? {
      assert MessageType(d)[..7] == "Unknown";
      assert |MessageType(d)| == 14;
    }
  }

  /**
   * The receiver object: the decoded packets it keeps and the statistics
   * dictionary, as fields updated once per datagram.
   */
  class Capture {
    var decodedPackets: seq<Decoded>
    var totalPackets: nat
    var validPackets: nat
    var crcErrors: nat
    var decodeErrors: nat
    var messageTypes: map<seq<char>, nat>

    /** Every counter is the count, over the packets kept, of what it counts. */
    ghost predicate Valid()
      reads this
    {
      && totalPackets == |decodedPackets|
      && validPackets == CountValid(decodedPackets)
      && crcErrors == |decodedPackets| - CountValid(decodedPackets)
      && totalPackets == validPackets + crcErrors
      && decodeErrors == CountErrors(decodedPackets)
      && messageTypes == Tally(decodedPackets)
      && MapSum(messageTypes) == totalPackets
    }

    constructor()
      ensures Valid() && decodedPackets == []
      ensures totalPackets == 0 && validPackets == 0 && crcErrors == 0 && decodeErrors == 0 && messageTypes == map[]
    {
      decodedPackets := [];
      totalPackets, validPackets, crcErrors, decodeErrors := 0, 0, 0, 0;
      messageTypes := map[];
    }

    /** update_statistics: one more packet, valid or a CRC error, perhaps a decode error, one more of its type. */
    method UpdateStatistics(d: Decoded)
      modifies this
      ensures decodedPackets == old(decodedPackets)
      ensures totalPackets == old(totalPackets) + 1
      ensures validPackets == old(validPackets) + (if CrcValid(d) then 1 else 0)
      ensures crcErrors == old(crcErrors) + (if CrcValid(d) then 0 else 1)
      ensures decodeErrors == old(decodeErrors) + (if HasError(d) then 1 else 0)
      ensures var t := MessageType(d);
        messageTypes == old(messageTypes)[t := (if t in old(messageTypes) then old(messageTypes)[t] else 0) + 1]
    {
      totalPackets := totalPackets + 1;
      if CrcValid(d) {
        validPackets := validPackets + 1;
      } else {
        crcErrors := crcErrors + 1;
      }
      if HasError(d) {
        decodeErrors := decodeErrors + 1;
      }
      var t := MessageType(d);
      var count := if t in messageTypes then messageTypes[t] else 0;
      messageTypes := messageTypes[t := count + 1];
    }

    /** One datagram of the capture loop: decode it, keep it, count it. */
    method Receive(data: seq<byte>)
      requires Valid()
      modifies this
      ensures Valid()
      ensures decodedPackets == old(decodedPackets) + [DecodePacket(data)]
    {
      var d := DecodePacket(data);
      Keep(d);
    }

    /** The decoded packet appended to the packets kept and counted in the statistics. */
    method Keep(d: Decoded)
      requires Valid()
      modifies this
      ensures Valid()
      ensures decodedPackets == old(decodedPackets) + [d]
    {
      StatisticsSnoc(decodedPackets, d);
      decodedPackets := decodedPackets + [d];
      UpdateStatistics(d);
    }

    /** The capture loop over the datagrams received, in order (the socket and the clock are left out). */
    method CaptureAll(datagrams: seq<seq<byte>>)
      requires Valid()
      modifies this
      ensures Valid()
      ensures decodedPackets == old(decodedPackets) + DecodeAll(datagrams)
    {
      var i := 0;
      while i < |datagrams|
        invariant 0 <= i <= |datagrams|
        invariant Valid()
        invariant decodedPackets == old(decodedPackets) + DecodeAll(datagrams[..i])
      {
        DecodeAllSnoc(old(decodedPackets), datagrams, i);
        Receive(datagrams[i]);
        i := i + 1;
      }
      assert datagrams[..i] == datagrams;
    }
  }

  /** Every datagram decoded, in the order received. */
  function DecodeAll(datagrams: seq<seq<byte>>): (r: seq<Decoded>)
    ensures |r| == |datagrams|
    ensures forall k :: 0 <= k < |r| ==> r[k] == DecodePacket(datagrams[k])
  {
    seq(|datagrams|, k requires 0 <= k < |datagrams| => DecodePacket(datagrams[k]))
  }

  /** Decoding one datagram more appends its packet. */
  lemma {:induction false} DecodeAllSnoc(kept: seq<Decoded>, datagrams: seq<seq<byte>>, i: nat)
    requires i < |datagrams|
    ensures kept + DecodeAll(datagrams[..i + 1]) == (kept + DecodeAll(datagrams[..i])) + [DecodePacket(datagrams[i])]
  {
    assert DecodeAll(datagrams[..i + 1]) == DecodeAll(datagrams[..i]) + [DecodePacket(datagrams[i])];
  }

  /** Every frame the encoders produce is counted as valid, without a decode error when long enough for its type. */
  lemma {:induction false} EncodedFrameCounted(payload: seq<byte>)
    requires |payload| >= 1
    ensures CrcValid(DecodePacket(Frame(payload)))
    ensures payload[0] == 0x00 ==> (HasError(DecodePacket(Frame(payload))) <==> |payload| < 7)
    ensures payload[0] in {0x0A, 0x14} ==> (HasError(DecodePacket(Frame(payload))) <==> |payload| < 28)
  {
    FrameRoundTrip(payload);
  }
}
