/**
 * The plugin's INI configuration: the settings record with its defaults,
 * the line parser that sets one field per "key = value" line, loading with
 * an all-or-nothing rollback, and saving as the lines of a file.
 */
module ConfigManagement {
  import opened Bytes
  import opened ConfigText

  /** The settings of the plugin; the two rates are kept as exact decimals rather than floats. */
  datatype Config = Config(
    targetIp: string,
    targetPort: uint16,
    icaoAddress: uint32,
    callsign: string,
    emitterCategory: byte,
    heartbeatRate: real,
    positionRate: real,
    nic: byte,
    nacp: byte,
    debugLogging: bool,
    logMessages: bool)

  /** The values of a default-constructed Config. */
  function Defaults(): Config
  {
    Config("192.168.1.100", 4000, 0xABCDEF, "N12345", 1, 1.0, 2.0, 11, 11, false, false)
  }

  /** The value cut at the first comment character, trimmed again; unchanged when there is none. */
  function CutComment(value: string, c: char): (r: string)
    ensures c !in value ==> r == value
    ensures c !in r
  {
    var pos := Find(value, c);
    if pos < |value| then TrimInside(value[..pos], c); Trim(value[..pos]) else value
  }

  /** The keys parseLine knows, and every other key. */
  datatype Key =
    | TargetIp | TargetPort | IcaoAddress | Callsign | EmitterCategory
    | HeartbeatRate | PositionRate | Nic | Nacp | DebugLogging | LogMessages
    | UnknownKey

  /** The key a trimmed key text names. */
  function KeyOf(name: string): Key
  {
    if name == "target_ip" then TargetIp
    else if name == "target_port" then TargetPort
    else if name == "icao_address" then IcaoAddress
    else if name == "callsign" then Callsign
    else if name == "emitter_category" then EmitterCategory
    else if name == "heartbeat_rate" then HeartbeatRate
    else if name == "position_rate" then PositionRate
    else if name == "nic" then Nic
    else if name == "nacp" then Nacp
    else if name == "debug_logging" then DebugLogging
    else if name == "log_messages" then LogMessages
    else UnknownKey
  }

  /** The text save writes for a known key. */
  function KeyName(k: Key): (name: string)
    requires k != UnknownKey
    ensures name != [] && IsTrimmed(name) && '=' !in name && name[0] != '#' && name[0] != ';'
  {
    match k
    case TargetIp => "target_ip"
    case TargetPort => "target_port"
    case IcaoAddress => "icao_address"
    case Callsign => "callsign"
    case EmitterCategory => "emitter_category"
    case HeartbeatRate => "heartbeat_rate"
    case PositionRate => "position_rate"
    case Nic => "nic"
    case Nacp => "nacp"
    case DebugLogging => "debug_logging"
    case LogMessages => "log_messages"
  }

  /** Every name save writes is read back as its own key. */
  lemma {:induction false} KeyNameRoundTrip(k: Key)
    requires k != UnknownKey
    ensures KeyOf(KeyName(k)) == k
  {
  }

  /** The effect of a rate line: a positive rate, or the exception with its message. */
  function RateValue(value: string, what: string): (r: Outcome<real>)
    ensures r.Ok? ==> r.value > 0.0
  {
    match StoF(value)
    case Throws(w) => Throws(w)
    case Ok(rate) => if rate <= 0.0 then Throws(what) else Ok(rate)
  }

  /** The effect of a small-integer line: std::stoi then the cast to uint8_t, which keeps the value modulo 256. */
  function SmallValue(value: string): (r: Outcome<byte>)
  {
    match StoI(value)
    case Throws(w) => Throws(w)
    case Ok(n) => Ok(n % 256)
  }

  /** The ICAO address of an icao_address value: hex after 0x or 0X, decimal otherwise, kept to 24 bits. */
  function IcaoValue(value: string): (r: Outcome<uint32>)
    ensures r.Ok? ==> r.value < 0x100_0000
  {
    var parsed := if |value| >= 2 && (value[..2] == "0x" || value[..2] == "0X") then StoUl(value, 16) else StoUl(value, 10);
    match parsed
    case Throws(w) => Throws(w)
    case Ok(n) => Ok((n % 0x1_0000_0000) % 0x100_0000)
  }

  /** The port of a target_port value: 1 to 65535, anything else throws. */
  function PortValue(value: string): (r: Outcome<uint16>)
    ensures r.Ok? ==> 1 <= r.value <= 65535
    ensures r.Ok? <==> StoUl(value, 10).Ok? && 1 <= StoUl(value, 10).value <= 65535
  {
    match StoUl(value, 10)
    case Throws(w) => Throws(w)
    case Ok(port) => if port == 0 || port > 65535 then Throws("target_port must be 1-65535") else Ok(port)
  }

  /** The change one key makes with a non-empty value; an unknown key changes nothing. */
  function ApplyValue(c: Config, key: Key, value: string): (r: Outcome<Config>)
  {
    match key
    case TargetIp => Ok(c.(targetIp := value))
    case TargetPort =>
      (match PortValue(value)
       case Throws(w) => Throws(w)
       case Ok(p) => Ok(c.(targetPort := p)))
    case IcaoAddress =>
      (match IcaoValue(value)
       case Throws(w) => Throws(w)
       case Ok(a) => Ok(c.(icaoAddress := a)))
    case Callsign => Ok(c.(callsign := value[..Min(8, |value|)]))
    case EmitterCategory =>
      (match SmallValue(value)
       case Throws(w) => Throws(w)
       case Ok(b) => Ok(c.(emitterCategory := b)))
    case HeartbeatRate =>
      (match RateValue(value, "heartbeat_rate must be > 0")
       case Throws(w) => Throws(w)
       case Ok(rate) => Ok(c.(heartbeatRate := rate)))
    case PositionRate =>
      (match RateValue(value, "position_rate must be > 0")
       case Throws(w) => Throws(w)
       case Ok(rate) => Ok(c.(positionRate := rate)))
    case Nic =>
      (match SmallValue(value)
       case Throws(w) => Throws(w)
       case Ok(b) => Ok(c.(nic := b)))
    case Nacp =>
      (match SmallValue(value)
       case Throws(w) => Throws(w)
       case Ok(b) => Ok(c.(nacp := b)))
    case DebugLogging => Ok(c.(debugLogging := ParseBool(value)))
    case LogMessages => Ok(c.(logMessages := ParseBool(value)))
    case UnknownKey => Ok(c)
  }

  /** The key of a line holding '=': the text before the first '=', trimmed. */
  function LineKey(line: string): string
  {
    Trim(line[..Find(line, '=')])
  }

  /** The value of a line holding '=': the text after the first '=', trimmed, cut at '#' and then at ';'. */
  function LineValue(line: string): string
    requires Find(line, '=') < |line|
  {
    CutComment(CutComment(Trim(line[Find(line, '=') + 1..]), '#'), ';')
  }

  /** A line parseLine skips: empty, a comment, without '=', or with an empty value. */
  predicate IsSkipped(line: string)
  {
    line == [] || line[0] == '#' || line[0] == ';' || Find(line, '=') == |line| || LineValue(line) == []
  }

  /**
   * parseLine: the config after one line of the file, or the exception the
   * line throws, in which case no field has been changed.
   */
  function ApplyLine(c: Config, line: string): Outcome<Config>
  {
    if IsSkipped(line) then Ok(c)
    else ApplyValue(c, KeyOf(LineKey(line)), LineValue(line))
  }

  /** The config after every line that did not throw, each line applied to the config its predecessors left. */
  function Fold(c: Config, lines: seq<string>): Config
  {
    if lines == [] then c
    else
      var before := Fold(c, lines[..|lines| - 1]);
      match ApplyLine(before, lines[|lines| - 1])
      case Ok(next) => next
      case Throws(_) => before
  }

  /** The message load records for the last line that threw, if any did. */
  function LastError(c: Config, lines: seq<string>): Option<string>
  {
    if lines == [] then None
    else
      var line := lines[|lines| - 1];
      match ApplyLine(Fold(c, lines[..|lines| - 1]), line)
      case Throws(what) => Some("Error parsing line: " + line + " (" + what + ")")
      case Ok(_) => LastError(c, lines[..|lines| - 1])
  }

  /** The lines of a file after others are applied to the config the first ones left, with the error of the later ones. */
  lemma {:induction false} FoldAppend(c: Config, a: seq<string>, b: seq<string>)
    ensures Fold(c, a + b) == Fold(Fold(c, a), b)
    ensures LastError(c, a + b) == (if LastError(Fold(c, a), b).Some? then LastError(Fold(c, a), b) else LastError(c, a))
  {
    if b != [] {
      assert (a + b)[..|a + b| - 1] == a + b[..|b| - 1];
      FoldAppend(c, a, b[..|b| - 1]);
    } else {
      assert a + b == a;
    }
  }

  /** The line save writes for one key. */
  function SaveLine(k: Key, value: string): string
    requires k != UnknownKey
  {
    KeyName(k) + " = " + value
  }

  /** The text of a flag as save writes it. */
  function FlagText(flag: bool): string
  {
    if flag then "true" else "false"
  }

  /**
   * The lines of the file save writes, as getline reads them back when no saved
   * value holds a line feed; the rate texts are the stream's float output.
   */
  function SaveLines(c: Config, heartbeatText: string, positionText: string): (lines: seq<string>)
    ensures |lines| == 23
  {
    ["# XP2GDL90 Configuration File", "# Generated configuration", "", "[Network]"]
    + [SaveLine(TargetIp, c.targetIp), SaveLine(TargetPort, DecimalText(c.targetPort)), "", "[Ownship]"]
    + [SaveLine(IcaoAddress, "0x" + HexText(c.icaoAddress)), SaveLine(Callsign, c.callsign), SaveLine(EmitterCategory, DecimalText(c.emitterCategory)), ""]
    + ["[Update Rates]", SaveLine(HeartbeatRate, heartbeatText), SaveLine(PositionRate, positionText), ""]
    + ["[Accuracy]", SaveLine(Nic, DecimalText(c.nic)), SaveLine(Nacp, DecimalText(c.nacp)), ""]
    + ["[Debug]", SaveLine(DebugLogging, FlagText(c.debugLogging)), SaveLine(LogMessages, FlagText(c.logMessages))]
  }

  /**
   * A value text that survives a line's trimming and comment cutting as it is,
   * and that getline reads back as one line (no line feed inside).
   */
  predicate IsPlainValue(value: string)
  {
    value != [] && IsTrimmed(value) && '#' !in value && ';' !in value && '\n' !in value
  }

  /** A string of digits is a plain value. */
  lemma {:induction false} DigitsPlain(s: string, base: nat)
    requires s != [] && base in {10, 16} && forall k :: 0 <= k < |s| ==> IsDigit(s[k], base)
    ensures IsPlainValue(s)
  {
    assert !IsTrimSpace(s[0]) && !IsTrimSpace(s[|s| - 1]);
    forall k | 0 <= k < |s|
      ensures s[k] != '#' && s[k] != ';' && s[k] != '\n'
    {
      assert IsDigit(s[k], base);
    }
  }

  /** A line save writes, with a plain value, is read as its key and that value. */
  lemma {:induction false} KeyValueLine(c: Config, k: Key, value: string)
    requires k != UnknownKey && IsPlainValue(value)
    ensures ApplyLine(c, SaveLine(k, value)) == ApplyValue(c, k, value)
  {
    NamedLine(c, KeyName(k), value);
    KeyNameRoundTrip(k);
  }

  /** A "key = value" line with a key free of '=' and a plain value is read as that key and that value. */
  lemma {:induction false} NamedLine(c: Config, key: string, value: string)
    requires key != [] && IsTrimmed(key) && '=' !in key && key[0] != '#' && key[0] != ';'
    requires IsPlainValue(value)
    ensures ApplyLine(c, key + " = " + value) == ApplyValue(c, KeyOf(key), value)
  {
    LineParts(key, value);
    SplitLine(c, key + " = " + value, |key| + 1, key, value);
  }

  /** In "key = value" the first '=' follows the key and a space, and trimming the two sides gives the key and the value. */
  lemma {:induction false} LineParts(key: string, value: string)
    requires key != [] && value != [] && '=' !in key && IsTrimmed(key) && IsTrimmed(value)
    ensures var line := key + " = " + value;
      && Find(line, '=') == |key| + 1
      && Trim(line[..|key| + 1]) == key && Trim(line[|key| + 2..]) == value
  {
    var line := key + " = " + value;
    assert forall i :: 0 <= i < |key| ==> line[i] == key[i];
    FindAt(line, '=', |key| + 1);
    assert line[..|key| + 1] == key + [' '];
    assert line[|key| + 2..] == [' '] + value;
    TrimPadded(key);
    TrimPadded(value);
  }

  /** A line whose first '=' sits at eq, with the trimmed texts around it a key and a plain value. */
  lemma {:induction false} SplitLine(c: Config, line: string, eq: nat, key: string, value: string)
    requires eq < |line| && Find(line, '=') == eq && Trim(line[..eq]) == key && Trim(line[eq + 1..]) == value
    requires key != [] && line[0] != '#' && line[0] != ';' && IsPlainValue(value)
    ensures ApplyLine(c, line) == ApplyValue(c, KeyOf(key), value)
  {
    assert LineKey(line) == key;
    assert LineValue(line) == value;
  }

  /** A line without '=' (a comment, a blank line, a section header) leaves the config as it is. */
  lemma {:induction false} HeaderLine(c: Config, line: string)
    requires '=' !in line
    ensures ApplyLine(c, line) == Ok(c)
  {
  }

  /**
   * The lines parseLine ignores: empty lines, comments, lines without '=',
   * lines whose value is empty once comments are cut, and unknown keys.
   */
  lemma {:induction false} IgnoredLine(c: Config, line: string)
    requires line == [] || line[0] == '#' || line[0] == ';' || '=' !in line
          || LineValue(line) == [] || KeyOf(LineKey(line)) == UnknownKey
    ensures ApplyLine(c, line) == Ok(c)
  {
  }

  /** A long callsign is cut to its first 8 characters. */
  lemma {:induction false} CallsignTruncated(c: Config)
    ensures ApplyLine(c, "callsign = TESTCALLSIGN") == Ok(c.(callsign := "TESTCALL"))
  {
    var value := "TESTCALLSIGN";
    assert SaveLine(Callsign, value) == "callsign = TESTCALLSIGN";
    KeyValueLine(c, Callsign, value);
    assert value[..8] == "TESTCALL";
  }

  /** A port outside 1 to 65535 throws, and leaves the config unchanged. */
  lemma {:induction false} PortOutOfRange(c: Config, n: nat)
    requires n == 0 || 65535 < n <= UlongMax
    ensures ApplyLine(c, SaveLine(TargetPort, DecimalText(n))) == Throws("target_port must be 1-65535")
  {
    StoUlDecimal(n);
    DigitsPlain(DecimalText(n), 10);
    PortLine(c, DecimalText(n), n);
  }

  /** A port line whose value reads as n sets the port to n when it is in range and throws otherwise. */
  lemma {:induction false} PortLine(c: Config, value: string, n: nat)
    requires IsPlainValue(value) && StoUl(value, 10) == Ok(n)
    ensures ApplyLine(c, SaveLine(TargetPort, value)) == if 1 <= n <= 65535 then Ok(c.(targetPort := n)) else Throws("target_port must be 1-65535")
  {
    KeyValueLine(c, TargetPort, value);
  }

  /** Whatever a line does, the ICAO address stays within 24 bits and the callsign within 8 characters. */
  lemma {:induction false} ApplyLineKeepsRanges(c: Config, line: string)
    requires c.icaoAddress < 0x100_0000 && |c.callsign| <= 8
    ensures ApplyLine(c, line).Ok? ==> ApplyLine(c, line).value.icaoAddress < 0x100_0000
    ensures ApplyLine(c, line).Ok? ==> |ApplyLine(c, line).value.callsign| <= 8
  {
    if !IsSkipped(line) {
      ApplyValueKeepsRanges(c, KeyOf(LineKey(line)), LineValue(line));
    }
  }

  /** Whatever a key and value do, the ICAO address stays within 24 bits and the callsign within 8 characters. */
  lemma {:induction false} ApplyValueKeepsRanges(c: Config, k: Key, value: string)
    requires c.icaoAddress < 0x100_0000 && |c.callsign| <= 8
    ensures ApplyValue(c, k, value).Ok? ==> ApplyValue(c, k, value).value.icaoAddress < 0x100_0000
    ensures ApplyValue(c, k, value).Ok? ==> |ApplyValue(c, k, value).value.callsign| <= 8
  {
  }

  /** Loading any file keeps the ICAO address within 24 bits and the callsign within 8 characters. */
  lemma {:induction false} FoldKeepsRanges(c: Config, lines: seq<string>)
    requires c.icaoAddress < 0x100_0000 && |c.callsign| <= 8
    ensures Fold(c, lines).icaoAddress < 0x100_0000 && |Fold(c, lines).callsign| <= 8
  {
    if lines != [] {
      FoldKeepsRanges(c, lines[..|lines| - 1]);
      ApplyLineKeepsRanges(Fold(c, lines[..|lines| - 1]), lines[|lines| - 1]);
    }
  }

  /** One more line that does not throw moves the fold on, with still no error recorded. */
  lemma {:induction false} FoldStep(c: Config, a: seq<string>, line: string, before: Config, after: Config)
    requires Fold(c, a) == before && LastError(c, a) == None && ApplyLine(before, line) == Ok(after)
    ensures Fold(c, a + [line]) == after && LastError(c, a + [line]) == None
  {
    assert (a + [line])[..|a|] == a;
  }

  /** Three lines that do not throw, one after the other. */
  lemma {:induction false} FoldThree(c: Config, l0: string, l1: string, l2: string, c1: Config, c2: Config, c3: Config)
    requires ApplyLine(c, l0) == Ok(c1) && ApplyLine(c1, l1) == Ok(c2) && ApplyLine(c2, l2) == Ok(c3)
    ensures Fold(c, [l0, l1, l2]) == c3 && LastError(c, [l0, l1, l2]) == None
  {
    FoldStep(c, [], l0, c, c1);
    assert [] + [l0] == [l0];
    FoldStep(c, [l0], l1, c1, c2);
    assert [l0] + [l1] == [l0, l1];
    FoldStep(c, [l0, l1], l2, c2, c3);
    assert [l0, l1] + [l2] == [l0, l1, l2];
  }

  /** Four lines that do not throw, one after the other. */
  lemma {:induction false} FoldFour(c: Config, l0: string, l1: string, l2: string, l3: string, c1: Config, c2: Config, c3: Config, c4: Config)
    requires ApplyLine(c, l0) == Ok(c1) && ApplyLine(c1, l1) == Ok(c2)
    requires ApplyLine(c2, l2) == Ok(c3) && ApplyLine(c3, l3) == Ok(c4)
    ensures Fold(c, [l0, l1, l2, l3]) == c4 && LastError(c, [l0, l1, l2, l3]) == None
  {
    FoldThree(c, l0, l1, l2, c1, c2, c3);
    FoldStep(c, [l0, l1, l2], l3, c3, c4);
    assert [l0, l1, l2] + [l3] == [l0, l1, l2, l3];
  }

  /** A config whose fields save can write and load read back. */
  predicate IsSaveable(c: Config)
  {
    && IsPlainValue(c.targetIp)
    && c.targetPort >= 1
    && c.icaoAddress < 0x100_0000
    && IsPlainValue(c.callsign) && |c.callsign| <= 8
  }

  /** Four lines without '=' (the comments, the blank line and the network header) change nothing. */
  lemma {:induction false} PreambleSection(c0: Config, l0: string, l1: string, l2: string, l3: string)
    requires '=' !in l0 && '=' !in l1 && '=' !in l2 && '=' !in l3
    ensures Fold(c0, [l0, l1, l2, l3]) == c0 && LastError(c0, [l0, l1, l2, l3]) == None
  {
    HeaderLine(c0, l0);
    HeaderLine(c0, l1);
    HeaderLine(c0, l2);
    HeaderLine(c0, l3);
    FoldFour(c0, l0, l1, l2, l3, c0, c0, c0, c0);
  }

  /** The network lines, a blank line and the next header read back the address and the port. */
  lemma {:induction false} NetworkSection(c1: Config, ip: string, portText: string, port: nat, header: string)
    requires IsPlainValue(ip) && IsPlainValue(portText) && StoUl(portText, 10) == Ok(port) && 1 <= port <= 65535
    requires '=' !in header
    ensures var lines := [SaveLine(TargetIp, ip), SaveLine(TargetPort, portText), "", header];
      Fold(c1, lines) == c1.(targetIp := ip, targetPort := port) && LastError(c1, lines) == None
  {
    var a := c1.(targetIp := ip);
    var b := a.(targetPort := port);
    KeyValueLine(c1, TargetIp, ip);
    PortLine(a, portText, port);
    HeaderLine(b, "");
    HeaderLine(b, header);
    FoldFour(c1, SaveLine(TargetIp, ip), SaveLine(TargetPort, portText), "", header, a, b, b, b);
  }

  /** The ownship lines and the blank line after them read back the ICAO address, the callsign and the emitter category. */
  lemma {:induction false} OwnshipSection(c2: Config, icaoText: string, icao: uint32, callsign: string, emitterText: string, emitter: byte)
    requires IsPlainValue(icaoText) && IcaoValue(icaoText) == Ok(icao)
    requires IsPlainValue(callsign) && |callsign| <= 8
    requires IsPlainValue(emitterText) && SmallValue(emitterText) == Ok(emitter)
    ensures var lines := [SaveLine(IcaoAddress, icaoText), SaveLine(Callsign, callsign), SaveLine(EmitterCategory, emitterText), ""];
      && Fold(c2, lines) == c2.(icaoAddress := icao, callsign := callsign, emitterCategory := emitter)
      && LastError(c2, lines) == None
  {
    var a := c2.(icaoAddress := icao);
    var b := a.(callsign := callsign);
    var e := b.(emitterCategory := emitter);
    IcaoLine(c2, icaoText, icao);
    CallsignLine(a, callsign);
    EmitterLine(b, emitterText, emitter);
    HeaderLine(e, "");
    FoldFour(c2, SaveLine(IcaoAddress, icaoText), SaveLine(Callsign, callsign), SaveLine(EmitterCategory, emitterText), "", a, b, e, e);
  }

  /** An ICAO line whose value reads as an address sets the address. */
  lemma {:induction false} IcaoLine(c: Config, text: string, icao: uint32)
    requires IsPlainValue(text) && IcaoValue(text) == Ok(icao)
    ensures ApplyLine(c, SaveLine(IcaoAddress, text)) == Ok(c.(icaoAddress := icao))
  {
    KeyValueLine(c, IcaoAddress, text);
  }

  /** A callsign line with at most 8 characters sets the callsign to exactly those. */
  lemma {:induction false} CallsignLine(c: Config, callsign: string)
    requires IsPlainValue(callsign) && |callsign| <= 8
    ensures ApplyLine(c, SaveLine(Callsign, callsign)) == Ok(c.(callsign := callsign))
  {
    KeyValueLine(c, Callsign, callsign);
    assert callsign[..Min(8, |callsign|)] == callsign;
  }

  /** An emitter category line whose value reads as a byte sets the category. */
  lemma {:induction false} EmitterLine(c: Config, text: string, emitter: byte)
    requires IsPlainValue(text) && SmallValue(text) == Ok(emitter)
    ensures ApplyLine(c, SaveLine(EmitterCategory, text)) == Ok(c.(emitterCategory := emitter))
  {
    KeyValueLine(c, EmitterCategory, text);
  }

  /** The ICAO text save writes is a plain value that reads back as the address written. */
  lemma {:induction false} IcaoText(icao: uint32)
    requires icao < 0x100_0000
    ensures IsPlainValue("0x" + HexText(icao)) && IcaoValue("0x" + HexText(icao)) == Ok(icao)
  {
    StoUlHex(icao);
    HexValue(HexText(icao), "0x" + HexText(icao), icao);
  }

  /** "0x" and a run of hex digits is a plain value. */
  lemma {:induction false} HexPlain(h: string)
    requires h != [] && (forall k :: 0 <= k < |h| ==> IsDigit(h[k], 16))
    ensures IsPlainValue("0x" + h)
  {
    var value := "0x" + h;
    DigitsPlain(h, 16);
    assert value[0] == '0' && value[|value| - 1] == h[|h| - 1];
    forall k | 0 <= k < |value|
      ensures value[k] != '#' && value[k] != ';' && value[k] != '\n'
    {
      if k >= 2 {
        assert value[k] == h[k - 2];
      }
    }
  }

  /** "0x" and a run of hex digits that stoul reads as a 24-bit number is a plain ICAO value read back as that number. */
  lemma {:induction false} HexValue(h: string, value: string, icao: uint32)
    requires h != [] && (forall k :: 0 <= k < |h| ==> IsDigit(h[k], 16))
    requires value == "0x" + h && StoUl(value, 16) == Ok(icao) && icao < 0x100_0000
    ensures IsPlainValue(value) && IcaoValue(value) == Ok(icao)
  {
    HexPlain(h);
    assert IcaoValue(value) == Ok(icao) by {
      assert value[..2] == "0x";
      SmallModulo(icao);
    }
  }

  /** A number below 2^24 survives the 32-bit and the 24-bit masks. */
  lemma {:induction false} SmallModulo(n: nat)
    requires n < 0x100_0000
    ensures (n % 0x1_0000_0000) % 0x100_0000 == n
  {
    assert n % 0x1_0000_0000 == n;
  }

  /** The cast to uint32_t and then the 24-bit mask keep exactly the low 24 bits. */
  lemma {:induction false} MaskModulo(n: nat)
    ensures (n % 0x1_0000_0000) % 0x100_0000 == n % 0x100_0000
  {
    var q := n / 0x1_0000_0000;
    var r := n % 0x1_0000_0000;
    assert n == (q * 256) * 0x100_0000 + r;
  }

  /** A decimal icao_address value reads as its number, cut to its low 24 bits. */
  lemma {:induction false} IcaoDecimal(n: nat)
    requires n <= UlongMax
    ensures IcaoValue(DecimalText(n)) == Ok(n % 0x100_0000)
  {
    var s := DecimalText(n);
    assert !(|s| >= 2 && (s[..2] == "0x" || s[..2] == "0X")) by {
      if |s| >= 2 {
        assert IsDigit(s[1], 10) && s[..2][1] == s[1];
      }
    }
    StoUlDecimal(n);
    MaskModulo(n);
  }

  /** A "0x" hex icao_address value reads as its number, cut to its low 24 bits. */
  lemma {:induction false} IcaoHexMasked(n: nat)
    requires n <= UlongMax
    ensures IcaoValue("0x" + HexText(n)) == Ok(n % 0x100_0000)
  {
    StoUlHex(n);
    assert ("0x" + HexText(n))[..2] == "0x";
    MaskModulo(n);
  }

  /** A decimal text of a byte is a plain value that reads back as that byte. */
  lemma {:induction false} SmallText(n: byte)
    ensures IsPlainValue(DecimalText(n)) && SmallValue(DecimalText(n)) == Ok(n)
  {
    StoIDecimal(n);
    SmallDigits(DecimalText(n), n);
  }

  /** A run of decimal digits that stoi reads as a byte is a plain value read back as that byte. */
  lemma {:induction false} SmallDigits(s: string, n: byte)
    requires s != [] && (forall k :: 0 <= k < |s| ==> IsDigit(s[k], 10)) && StoI(s) == Ok(n)
    ensures IsPlainValue(s) && SmallValue(s) == Ok(n)
  {
    DigitsPlain(s, 10);
  }

  /** A heartbeat rate line whose value reads as a positive rate sets that rate. */
  lemma {:induction false} HeartbeatLine(c: Config, text: string)
    requires IsPlainValue(text) && RateValue(text, "heartbeat_rate must be > 0").Ok?
    ensures ApplyLine(c, SaveLine(HeartbeatRate, text)) == Ok(c.(heartbeatRate := StoF(text).value))
  {
    KeyValueLine(c, HeartbeatRate, text);
  }

  /** A position rate line whose value reads as a positive rate sets that rate. */
  lemma {:induction false} PositionLine(c: Config, text: string)
    requires IsPlainValue(text) && RateValue(text, "position_rate must be > 0").Ok?
    ensures ApplyLine(c, SaveLine(PositionRate, text)) == Ok(c.(positionRate := StoF(text).value))
  {
    KeyValueLine(c, PositionRate, text);
  }

  /** The rates header and the two rate lines read the rates from the texts written. */
  lemma {:induction false} RatesSection(c3: Config, header: string, heartbeatText: string, positionText: string)
    requires '=' !in header
    requires IsPlainValue(heartbeatText) && RateValue(heartbeatText, "heartbeat_rate must be > 0").Ok?
    requires IsPlainValue(positionText) && RateValue(positionText, "position_rate must be > 0").Ok?
    ensures var lines := [header, SaveLine(HeartbeatRate, heartbeatText), SaveLine(PositionRate, positionText), ""];
      && Fold(c3, lines) == c3.(heartbeatRate := StoF(heartbeatText).value, positionRate := StoF(positionText).value)
      && LastError(c3, lines) == None
  {
    var a := c3.(heartbeatRate := StoF(heartbeatText).value);
    var b := a.(positionRate := StoF(positionText).value);
    HeaderLine(c3, header);
    HeartbeatLine(c3, heartbeatText);
    PositionLine(a, positionText);
    HeaderLine(b, "");
    FoldFour(c3, header, SaveLine(HeartbeatRate, heartbeatText), SaveLine(PositionRate, positionText), "", c3, a, b, b);
  }

  /** A NIC line whose value reads as a byte sets the NIC. */
  lemma {:induction false} NicLine(c: Config, text: string, nic: byte)
    requires IsPlainValue(text) && SmallValue(text) == Ok(nic)
    ensures ApplyLine(c, SaveLine(Nic, text)) == Ok(c.(nic := nic))
  {
    KeyValueLine(c, Nic, text);
  }

  /** A NACp line whose value reads as a byte sets the NACp. */
  lemma {:induction false} NacpLine(c: Config, text: string, nacp: byte)
    requires IsPlainValue(text) && SmallValue(text) == Ok(nacp)
    ensures ApplyLine(c, SaveLine(Nacp, text)) == Ok(c.(nacp := nacp))
  {
    KeyValueLine(c, Nacp, text);
  }

  /** The accuracy header and lines read back NIC and NACp. */
  lemma {:induction false} AccuracySection(c4: Config, header: string, nicText: string, nic: byte, nacpText: string, nacp: byte)
    requires '=' !in header
    requires IsPlainValue(nicText) && SmallValue(nicText) == Ok(nic)
    requires IsPlainValue(nacpText) && SmallValue(nacpText) == Ok(nacp)
    ensures var lines := [header, SaveLine(Nic, nicText), SaveLine(Nacp, nacpText), ""];
      Fold(c4, lines) == c4.(nic := nic, nacp := nacp) && LastError(c4, lines) == None
  {
    var a := c4.(nic := nic);
    var b := a.(nacp := nacp);
    HeaderLine(c4, header);
    NicLine(c4, nicText, nic);
    NacpLine(a, nacpText, nacp);
    HeaderLine(b, "");
    FoldFour(c4, header, SaveLine(Nic, nicText), SaveLine(Nacp, nacpText), "", c4, a, b, b);
  }

  /** The flag texts save writes are plain values that read back as the flags. */
  lemma {:induction false} FlagTextRoundTrip(flag: bool)
    ensures IsPlainValue(FlagText(flag)) && ParseBool(FlagText(flag)) == flag
  {
    ParseBoolSaved();
  }

  /** The debug logging line save writes sets the flag written. */
  lemma {:induction false} DebugLine(c: Config, flag: bool)
    ensures ApplyLine(c, SaveLine(DebugLogging, FlagText(flag))) == Ok(c.(debugLogging := flag))
  {
    FlagTextRoundTrip(flag);
    KeyValueLine(c, DebugLogging, FlagText(flag));
  }

  /** The message logging line save writes sets the flag written. */
  lemma {:induction false} LogLine(c: Config, flag: bool)
    ensures ApplyLine(c, SaveLine(LogMessages, FlagText(flag))) == Ok(c.(logMessages := flag))
  {
    FlagTextRoundTrip(flag);
    KeyValueLine(c, LogMessages, FlagText(flag));
  }

  /** The debug section reads back the two flags. */
  lemma {:induction false} DebugSection(c5: Config, header: string, debugLogging: bool, logMessages: bool)
    requires '=' !in header
    ensures var lines := [header, SaveLine(DebugLogging, FlagText(debugLogging)), SaveLine(LogMessages, FlagText(logMessages))];
      Fold(c5, lines) == c5.(debugLogging := debugLogging, logMessages := logMessages) && LastError(c5, lines) == None
  {
    var a := c5.(debugLogging := debugLogging);
    var b := a.(logMessages := logMessages);
    HeaderLine(c5, header);
    DebugLine(c5, debugLogging);
    LogLine(a, logMessages);
    FoldThree(c5, header, SaveLine(DebugLogging, FlagText(debugLogging)), SaveLine(LogMessages, FlagText(logMessages)), c5, a, b);
  }

  /** The fold and the error after one more line of a file. */
  lemma {:induction false} FoldNext(c: Config, lines: seq<string>, i: nat)
    requires i < |lines|
    ensures var r := ApplyLine(Fold(c, lines[..i]), lines[i]);
      && Fold(c, lines[..i + 1]) == (if r.Ok? then r.value else Fold(c, lines[..i]))
      && LastError(c, lines[..i + 1]) == (if r.Throws? then Some("Error parsing line: " + lines[i] + " (" + r.what + ")") else LastError(c, lines[..i]))
  {
    assert lines[..i + 1][..i] == lines[..i];
  }

  /** Six groups of lines that do not throw, one after the other. */
  lemma {:induction false} FoldSix(c0: Config, s0: seq<string>, s1: seq<string>, s2: seq<string>, s3: seq<string>, s4: seq<string>, s5: seq<string>,
                c1: Config, c2: Config, c3: Config, c4: Config, c5: Config, c6: Config)
    requires Fold(c0, s0) == c1 && LastError(c0, s0) == None
    requires Fold(c1, s1) == c2 && LastError(c1, s1) == None
    requires Fold(c2, s2) == c3 && LastError(c2, s2) == None
    requires Fold(c3, s3) == c4 && LastError(c3, s3) == None
    requires Fold(c4, s4) == c5 && LastError(c4, s4) == None
    requires Fold(c5, s5) == c6 && LastError(c5, s5) == None
    ensures Fold(c0, s0 + s1 + s2 + s3 + s4 + s5) == c6 && LastError(c0, s0 + s1 + s2 + s3 + s4 + s5) == None
  {
    FoldAppend(c0, s0, s1);
    FoldAppend(c0, s0 + s1, s2);
    FoldAppend(c0, s0 + s1 + s2, s3);
    FoldAppend(c0, s0 + s1 + s2 + s3, s4);
    FoldAppend(c0, s0 + s1 + s2 + s3 + s4, s5);
  }

  /** The comment lines, the blank line and the section headers save writes hold no '='. */
  lemma {:induction false} HeadersWithoutEquals()
    ensures '=' !in "# XP2GDL90 Configuration File" && '=' !in "# Generated configuration" && '=' !in ""
    ensures '=' !in "[Network]" && '=' !in "[Ownship]" && '=' !in "[Update Rates]" && '=' !in "[Accuracy]" && '=' !in "[Debug]"
  {
    NoEquals("# XP2GDL90 Configuration File");
    NoEquals("# Generated configuration");
    NoEquals("[Network]");
    NoEquals("[Ownship]");
    NoEquals("[Update Rates]");
    NoEquals("[Accuracy]");
    NoEquals("[Debug]");
  }

  /** A text made of letters, digits, spaces, '#' and brackets holds no '='. */
  lemma {:induction false} NoEquals(s: string)
    requires forall k :: 0 <= k < |s| ==> s[k] == ' ' || s[k] == '#' || s[k] == '[' || s[k] == ']' || 'a' <= s[k] <= 'z' || 'A' <= s[k] <= 'Z' || '0' <= s[k] <= '9'
    ensures '=' !in s
  {
  }

  /** Saving then loading gives back every field but the rates, which are read from the texts written. */
  lemma {:induction false} SaveLoadRoundTrip(c0: Config, c: Config, heartbeatText: string, positionText: string)
    requires IsSaveable(c)
    requires IsPlainValue(heartbeatText) && RateValue(heartbeatText, "heartbeat_rate must be > 0").Ok?
    requires IsPlainValue(positionText) && RateValue(positionText, "position_rate must be > 0").Ok?
    ensures var lines := SaveLines(c, heartbeatText, positionText);
      && LastError(c0, lines) == None
      && Fold(c0, lines) == c.(heartbeatRate := StoF(heartbeatText).value, positionRate := StoF(positionText).value)
  {
    HeadersWithoutEquals();
    PreambleSection(c0, "# XP2GDL90 Configuration File", "# Generated configuration", "", "[Network]");
    var c2 := c0.(targetIp := c.targetIp, targetPort := c.targetPort);
    StoUlDecimal(c.targetPort);
    DigitsPlain(DecimalText(c.targetPort), 10);
    NetworkSection(c0, c.targetIp, DecimalText(c.targetPort), c.targetPort, "[Ownship]");
    var c3 := c2.(icaoAddress := c.icaoAddress, callsign := c.callsign, emitterCategory := c.emitterCategory);
    IcaoText(c.icaoAddress);
    SmallText(c.emitterCategory);
    OwnshipSection(c2, "0x" + HexText(c.icaoAddress), c.icaoAddress, c.callsign, DecimalText(c.emitterCategory), c.emitterCategory);
    var c4 := c3.(heartbeatRate := StoF(heartbeatText).value, positionRate := StoF(positionText).value);
    RatesSection(c3, "[Update Rates]", heartbeatText, positionText);
    var c5 := c4.(nic := c.nic, nacp := c.nacp);
    SmallText(c.nic);
    SmallText(c.nacp);
    AccuracySection(c4, "[Accuracy]", DecimalText(c.nic), c.nic, DecimalText(c.nacp), c.nacp);
    DebugSection(c5, "[Debug]", c.debugLogging, c.logMessages);
    FoldSix(c0,
      ["# XP2GDL90 Configuration File", "# Generated configuration", "", "[Network]"],
      [SaveLine(TargetIp, c.targetIp), SaveLine(TargetPort, DecimalText(c.targetPort)), "", "[Ownship]"],
      [SaveLine(IcaoAddress, "0x" + HexText(c.icaoAddress)), SaveLine(Callsign, c.callsign), SaveLine(EmitterCategory, DecimalText(c.emitterCategory)), ""],
      ["[Update Rates]", SaveLine(HeartbeatRate, heartbeatText), SaveLine(PositionRate, positionText), ""],
      ["[Accuracy]", SaveLine(Nic, DecimalText(c.nic)), SaveLine(Nacp, DecimalText(c.nacp)), ""],
      ["[Debug]", SaveLine(DebugLogging, FlagText(c.debugLogging)), SaveLine(LogMessages, FlagText(c.logMessages))],
      c0, c2, c3, c4, c5, c.(heartbeatRate := StoF(heartbeatText).value, positionRate := StoF(positionText).value));
  }

  /** The configuration manager: the current settings and the message of the last failure. */
  class ConfigManager {
    var config: Config
    var lastError: string

    /** A manager holds the default settings and no error. */
    constructor()
      ensures config == Defaults() && lastError == ""
    {
      config := Defaults();
      lastError := "";
    }

    /** parseLine: applies one line to the settings, or reports the exception it throws and changes nothing. */
    method ParseLine(line: string) returns (thrown: Option<string>)
      modifies this
      ensures thrown.None? <==> ApplyLine(old(config), line).Ok?
      ensures thrown.None? ==> config == ApplyLine(old(config), line).value
      ensures thrown.Some? ==> config == old(config) && thrown.value == ApplyLine(old(config), line).what
      ensures lastError == old(lastError)
    {
      match ApplyLine(config, line)
      case Ok(next) =>
        config := next;
        thrown := None;
      case Throws(what) =>
        thrown := Some(what);
    }

    /** The parsing loop of load: every line in turn, recording the message of each line that throws. */
    method ParseAll(lines: seq<string>) returns (hadError: bool)
      modifies this
      ensures config == Fold(old(config), lines)
      ensures hadError <==> LastError(old(config), lines).Some?
      ensures hadError ==> lastError == LastError(old(config), lines).value
      ensures !hadError ==> lastError == old(lastError)
    {
      hadError := false;
      var i := 0;
      while i < |lines|
        invariant 0 <= i <= |lines|
        invariant config == Fold(old(config), lines[..i])
        invariant hadError <==> LastError(old(config), lines[..i]).Some?
        invariant hadError ==> lastError == LastError(old(config), lines[..i]).value
        invariant !hadError ==> lastError == old(lastError)
      {
        FoldNext(old(config), lines, i);
        var thrown := ParseLine(lines[i]);
        if thrown.Some? {
          lastError := "Error parsing line: " + lines[i] + " (" + thrown.value + ")";
          hadError := true;
        }
        i := i + 1;
      }
      assert lines[..i] == lines;
    }

    /**
     * load: None stands for a file that cannot be opened. Every line is parsed
     * in turn, even after one throws; when any did, the settings are rolled
     * back to what they were and the last error message is kept.
     */
    method Load(filename: string, file: Option<seq<string>>) returns (ok: bool)
      modifies this
      ensures file.None? ==> !ok && config == old(config) && lastError == "Failed to open config file: " + filename
      ensures file.Some? ==> (ok <==> LastError(old(config), file.value).None?)
      ensures file.Some? && ok ==> config == Fold(old(config), file.value) && lastError == ""
      ensures file.Some? && !ok ==> config == old(config) && lastError == LastError(old(config), file.value).value
    {
      if file.None? {
        lastError := "Failed to open config file: " + filename;
        return false;
      }
      var original := config;
      var hadError := ParseAll(file.value);
      if hadError {
        config := original;
        return false;
      }
      lastError := "";
      return true;
    }

    /**
     * save: the lines written, or none when the file cannot be opened; the
     * rate texts stand for the stream's float output.
     */
    method Save(filename: string, isOpen: bool, heartbeatText: string, positionText: string) returns (ok: bool, lines: seq<string>)
      modifies this
      ensures config == old(config)
      ensures ok == isOpen
      ensures isOpen ==> lines == SaveLines(config, heartbeatText, positionText) && lastError == ""
      ensures !isOpen ==> lines == [] && lastError == "Failed to open config file for writing: " + filename
    {
      if !isOpen {
        lastError := "Failed to open config file for writing: " + filename;
        return false, [];
      }
      lines := SaveLines(config, heartbeatText, positionText);
      lastError := "";
      return true, lines;
    }
  }
}
