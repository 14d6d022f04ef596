/**
 * The settings window of the X-Plane plugin: the text helpers it shares with
 * the configuration (trimming, lower-casing, the stricter boolean reader),
 * the system-path and ICAO formatting, the window's hit rectangles, the
 * key-driven field editor, and the validation that turns the eleven field
 * texts into a new configuration.
 */
module Settings {
  import opened Bytes
  import opened ConfigText
  import opened ConfigManagement

  /** The number of editable fields, FieldId::Count. */
  const FieldCount: nat := 11

  /**
   * ToLower of the settings window: every character through tolower, one at
   * a time, in place.
   */
  method LowerCase(value: string) returns (lowered: string)
    ensures lowered == ToLower(value)
  {
    lowered := value;
    var i := 0;
    while i < |lowered|
      invariant 0 <= i <= |lowered| == |value|
      invariant forall k :: 0 <= k < i ==> lowered[k] == LowerChar(value[k])
      invariant forall k :: i <= k < |value| ==> lowered[k] == value[k]
    {
      lowered := lowered[i := LowerChar(lowered[i])];
      i := i + 1;
    }
  }

  /** The words, in lower case, the window accepts for a true and for a false flag. */
  const TrueWords: set<string> := {"true", "1", "yes", "on"}
  const FalseWords: set<string> := {"false", "0", "no", "off"}

  /**
   * ParseBool of the settings window: the trimmed, lower-cased text is true
   * for true, 1, yes and on, false for false, 0, no and off, and anything
   * else is refused (None) rather than read as false.
   */
  function ParseBoolField(value: string): (r: Option<bool>)
    ensures r == Some(true) <==> ToLower(Trim(value)) in TrueWords
    ensures r == Some(false) <==> ToLower(Trim(value)) in FalseWords
    ensures r.None? <==> ToLower(Trim(value)) !in TrueWords + FalseWords
    ensures r.Some? ==> r.value == ParseBool(Trim(value))
  {
    var lowered := ToLower(Trim(value));
    WordsAgree(Trim(value));
    if lowered in TrueWords then Some(true)
    else if lowered in FalseWords then Some(false)
    else None
  }

  /** The true words are those the configuration's parseBool accepts, and no false word is one of them. */
  lemma {:induction false} WordsAgree(t: string)
    ensures ToLower(t) in TrueWords <==> ParseBool(t)
    ensures ToLower(t) in FalseWords ==> !ParseBool(t)
  {
  }

  /** The words the window shows for a flag read back as that flag. */
  lemma {:induction false} FlagFieldRoundTrip(flag: bool)
    ensures ParseBoolField(FlagText(flag)) == Some(flag)
  {
    if flag {
      assert Trim("true") == "true" && ToLower("true") == "true";
    } else {
      assert Trim("false") == "false" && ToLower("false") == "false";
    }
  }

  /** The text after every ':' has become '/'. */
  function ColonsToSlashes(s: string): (r: string)
    ensures |r| == |s| && ':' !in r
    ensures forall k :: 0 <= k < |s| ==> r[k] == (if s[k] == ':' then '/' else s[k])
  {
    if s == [] then [] else [if s[0] == ':' then '/' else s[0]] + ColonsToSlashes(s[1..])
  }

  /**
   * The system path NormalizeSystemPath returns. On macOS (apple) an HFS
   * path holding ':' becomes "/" and what follows its first ':', with every
   * ':' turned into '/'; then a non-empty path gets a trailing '/'.
   */
  function NormalizedPath(raw: string, apple: bool): (r: string)
    ensures r == [] <==> raw == []
    ensures r != [] ==> r[|r| - 1] == '/'
    ensures !apple ==> r == raw || r == raw + ['/']
    ensures apple ==> ':' !in r
  {
    var path := if apple && raw != [] && Find(raw, ':') < |raw| then "/" + ColonsToSlashes(raw[Find(raw, ':') + 1..]) else raw;
    if path != [] && path[|path| - 1] != '/' then path + ['/'] else path
  }

  /** Normalising a normalised path changes nothing. */
  lemma {:induction false} NormalizeIdempotent(raw: string, apple: bool)
    ensures NormalizedPath(NormalizedPath(raw, apple), apple) == NormalizedPath(raw, apple)
  {
    var once := NormalizedPath(raw, apple);
    if apple && once != [] {
      assert Find(once, ':') == |once|;
    }
  }

  /** NormalizeSystemPath: the macOS conversion rewrites the colons one character at a time. */
  method NormalizeSystemPath(raw: string, apple: bool) returns (path: string)
    ensures path == NormalizedPath(raw, apple)
  {
    path := raw;
    if apple && path != [] && Find(path, ':') < |path| {
      var rest := path[Find(path, ':') + 1..];
      path := "/" + rest;
      var i := 0;
      while i < |path|
        invariant 0 <= i <= |path| == |rest| + 1
        invariant path[0] == '/'
        invariant forall k :: 1 <= k < i ==> path[k] == (if rest[k - 1] == ':' then '/' else rest[k - 1])
        invariant forall k :: i <= k < |path| && k >= 1 ==> path[k] == rest[k - 1]
      {
        if path[i] == ':' {
          path := path[i := '/'];
        }
        i := i + 1;
      }
      assert path == "/" + ColonsToSlashes(rest);
    }
    if path != [] && path[|path| - 1] != '/' {
      path := path + ['/'];
    }
  }

  /** 16 to the given power. */
  function Pow16(k: nat): (r: nat)
    ensures r >= 1
  {
    if k == 0 then 1 else 16 * Pow16(k - 1)
  }

  /** An upper-case hexadecimal digit, as std::uppercase writes it. */
  function UpperHexDigit(d: nat): (c: char)
    requires d < 16
    ensures IsDigit(c, 16) && DigitValue(c, 16) == d && !('a' <= c <= 'z')
  {
    if d < 10 then ('0' as int + d) as char else ('A' as int + d - 10) as char
  }

  /** The last width hexadecimal digits of n, zero-padded, as std::setw and std::setfill('0') write them. */
  function PaddedHex(n: nat, width: nat): (r: string)
    ensures |r| == width
    ensures forall k :: 0 <= k < width ==> IsDigit(r[k], 16) && !('a' <= r[k] <= 'z')
  {
    if width == 0 then [] else PaddedHex(n / 16, width - 1) + [UpperHexDigit(n % 16)]
  }

  /** The padded digits of a number below 16^width read back as that number. */
  lemma {:induction false} PaddedHexValue(n: nat, width: nat)
    requires n < Pow16(width)
    ensures DigitsValue(PaddedHex(n, width), 16) == n
  {
    if width > 0 {
      assert n / 16 < Pow16(width - 1);
      PaddedHexValue(n / 16, width - 1);
      var r := PaddedHex(n, width);
      assert r[..width - 1] == PaddedHex(n / 16, width - 1);
    }
  }

  /**
   * FormatHex24: "0x" and six upper-case, zero-padded hexadecimal digits of
   * the low 24 bits.
   */
  function FormatHex24(value: uint32): (r: string)
    ensures |r| == 8 && r[..2] == "0x" && IsTrimmed(r)
    ensures forall k :: 2 <= k < 8 ==> IsDigit(r[k], 16) && !('a' <= r[k] <= 'z')
  {
    "0x" + PaddedHex(value % 0x100_0000, 6)
  }

  /** The ICAO text the window shows reads back, in the configuration and in the window (which trims it first), as the low 24 bits. */
  lemma {:induction false} FormatHex24Reads(value: uint32)
    ensures IcaoValue(FormatHex24(value)) == Ok(value % 0x100_0000)
    ensures IcaoValue(Trim(FormatHex24(value))) == Ok(value % 0x100_0000)
  {
    var h := PaddedHex(value % 0x100_0000, 6);
    assert Pow16(6) == 0x100_0000;
    PaddedHexValue(value % 0x100_0000, 6);
    HexDigitsRead(h, value % 0x100_0000);
  }

  /** "0x" and six hex digits worth a 24-bit number read back as an ICAO address. */
  lemma {:induction false} HexDigitsRead(h: string, icao: uint32)
    requires |h| == 6 && (forall k :: 0 <= k < |h| ==> IsDigit(h[k], 16)) && DigitsValue(h, 16) == icao < 0x100_0000
    ensures IcaoValue("0x" + h) == Ok(icao) && IcaoValue(Trim("0x" + h)) == Ok(icao)
  {
    var s := "0x" + h;
    assert s[0] == '0' && s[|s| - 1] == h[5];
    TrimTrimmed(s);
    StoUlHexDigits(h);
    HexValue(h, s, icao);
  }

  /** An axis-aligned screen rectangle: left, top, right, bottom, with y growing upwards. */
  datatype Rect = Rect(l: int, t: int, r: int, b: int)
  {
    /** Rect::Contains: the edges belong to the rectangle. */
    predicate Contains(x: int, y: int)
    {
      x >= l && x <= r && y <= t && y >= b
    }
  }

  /** GetFieldRect: the edit box of field index, 22 pixels per row below the title. */
  function FieldRect(index: int, left: int, top: int): (rect: Rect)
    ensures rect.r - rect.l == 200 && rect.t - rect.b == 18
    ensures rect.l == left + 160 && rect.t == top - 50 - index * 22
  {
    var fieldTop := top - 50 - index * 22;
    Rect(left + 160, fieldTop, left + 360, fieldTop - 18)
  }

  /** GetButtonRect: button index of the bottom row, 90 pixels wide with 10 between buttons. */
  function ButtonRect(index: int, left: int, bottom: int): (rect: Rect)
    ensures rect.r - rect.l == 90 && rect.t - rect.b == 22
    ensures rect.l == left + 20 + index * 100 && rect.b == bottom + 12
  {
    var buttonLeft := left + 20 + index * 100;
    Rect(buttonLeft, bottom + 34, buttonLeft + 90, bottom + 12)
  }

  /** No point lies in two different buttons, so Apply, Save and Close never both take a click. */
  lemma {:induction false} ButtonsDisjoint(i: int, j: int, left: int, bottom: int, x: int, y: int)
    requires i < j
    ensures ButtonRect(i, left, bottom).r < ButtonRect(j, left, bottom).l
    ensures !(ButtonRect(i, left, bottom).Contains(x, y) && ButtonRect(j, left, bottom).Contains(x, y))
  {
    assert j * 100 >= i * 100 + 100;
  }

  /** No point lies in the edit boxes of two different fields, so a click selects at most one. */
  lemma {:induction false} FieldsDisjoint(i: int, j: int, left: int, top: int, x: int, y: int)
    requires i < j
    ensures FieldRect(j, left, top).t < FieldRect(i, left, top).b
    ensures !(FieldRect(i, left, top).Contains(x, y) && FieldRect(j, left, top).Contains(x, y))
  {
    assert j * 22 >= i * 22 + 22;
  }

  /** The virtual keys the editor tells apart. */
  datatype VirtualKey = BackKey | ReturnKey | TabKey | EscapeKey | OtherKey

  /** The editor's state: the field being edited (-1 for none), its edit buffer, and the eleven field texts. */
  datatype Editor = Editor(activeField: int, editBuffer: string, fieldValues: seq<string>)

  /** A field index in range or none, and one text per field. */
  predicate EditorValid(e: Editor)
  {
    -1 <= e.activeField < FieldCount && |e.fieldValues| == FieldCount
  }

  /** The longest buffer typing may produce. */
  const MaxBuffer: nat := 64

  /**
   * HandleSettingsKey on the editor's state. A key is ignored on losing
   * focus, when it is not a key press or when no field is being edited;
   * Backspace drops the last character, Enter (or a carriage return) stores
   * the buffer and ends editing, Tab stores it and moves to the next field
   * (after the last comes the first), Escape drops the buffer, and a
   * printable character is appended while the buffer is shorter than 64.
   */
  function KeyStep(e: Editor, key: char, vk: VirtualKey, keyDown: bool, losingFocus: bool): (r: Editor)
    requires EditorValid(e)
    ensures EditorValid(r)
    ensures forall k :: 0 <= k < FieldCount && k != e.activeField ==> r.fieldValues[k] == e.fieldValues[k]
    ensures r.activeField == e.activeField && |r.editBuffer| > |e.editBuffer| ==> r.editBuffer == e.editBuffer + [key] && |r.editBuffer| <= MaxBuffer
  {
    if losingFocus || !keyDown || e.activeField < 0 then e
    else if vk == BackKey then
      (if e.editBuffer != [] then e.(editBuffer := e.editBuffer[..|e.editBuffer| - 1]) else e)
    else if vk == ReturnKey || key == '\r' then
      Editor(-1, [], e.fieldValues[e.activeField := e.editBuffer])
    else if vk == TabKey then
      var values := e.fieldValues[e.activeField := e.editBuffer];
      var next := (e.activeField + 1) % FieldCount;
      Editor(next, values[next], values)
    else if vk == EscapeKey then
      e.(activeField := -1, editBuffer := [])
    else if ' ' <= key <= '~' && |e.editBuffer| < MaxBuffer then
      e.(editBuffer := e.editBuffer + [key])
    else e
  }

  /** Backspace undoes a typed character. */
  lemma {:induction false} BackspaceUndoesTyping(e: Editor, key: char, other: char)
    requires EditorValid(e) && e.activeField >= 0 && ' ' <= key <= '~' && key != '\r' && |e.editBuffer| < MaxBuffer
    ensures KeyStep(KeyStep(e, key, OtherKey, true, false), other, BackKey, true, false) == e
  {
    var typed := KeyStep(e, key, OtherKey, true, false);
    assert typed.editBuffer == e.editBuffer + [key];
    assert typed.editBuffer[..|typed.editBuffer| - 1] == e.editBuffer;
  }

  /** Escape keeps every stored field text. */
  lemma {:induction false} EscapeKeepsFields(e: Editor, key: char)
    requires EditorValid(e) && e.activeField >= 0 && key != '\r'
    ensures KeyStep(e, key, EscapeKey, true, false) == e.(activeField := -1, editBuffer := [])
  {
  }

  /** The editor after n presses of Tab. */
  function Tabs(e: Editor, n: nat): (r: Editor)
    requires EditorValid(e)
    ensures EditorValid(r)
  {
    if n == 0 then e else KeyStep(Tabs(e, n - 1), '\t', TabKey, true, false)
  }

  /** After n presses of Tab the next field is edited, its stored text in the buffer, and only the first field's text is new. */
  lemma {:induction false} TabsMove(e: Editor, n: nat)
    requires EditorValid(e) && e.activeField >= 0 && 1 <= n
    ensures Tabs(e, n).activeField == (e.activeField + n) % FieldCount
    ensures Tabs(e, n).fieldValues == e.fieldValues[e.activeField := e.editBuffer]
    ensures Tabs(e, n).editBuffer == Tabs(e, n).fieldValues[Tabs(e, n).activeField]
  {
    if n > 1 {
      TabsMove(e, n - 1);
      var before := Tabs(e, n - 1);
      assert before.fieldValues[before.activeField := before.editBuffer] == before.fieldValues;
      assert (before.activeField + 1) % FieldCount == (e.activeField + n) % FieldCount;
    }
  }

  /** Eleven presses of Tab, or any multiple of eleven, come back to the same field with the edit stored and still in the buffer. */
  lemma {:induction false} TabCycle(e: Editor, n: nat)
    requires EditorValid(e) && e.activeField >= 0 && n > 0 && n % FieldCount == 0
    ensures Tabs(e, n) == e.(fieldValues := e.fieldValues[e.activeField := e.editBuffer])
  {
    TabsMove(e, n);
    FullTurns(e.activeField, n);
    var r := Tabs(e, n);
    var stored := e.fieldValues[e.activeField := e.editBuffer];
    assert r.activeField == e.activeField && r.fieldValues == stored;
    assert r.editBuffer == stored[e.activeField] == e.editBuffer;
  }

  /** Whole turns round the fields come back to the same field. */
  lemma {:induction false} FullTurns(a: nat, n: nat)
    requires a < FieldCount && n % FieldCount == 0
    ensures (a + n) % FieldCount == a
  {
    var q := n / FieldCount;
    assert n == FieldCount * q;
    assert a + n == a + FieldCount * q;
  }

  /** The link fields: the trimmed address, refused when empty, and a port from std::stoul in 1 to 65535. */
  function ReadLink(ipText: string, portText: string): (r: Option<(string, uint16)>)
    ensures r.Some? ==> r.value.0 == Trim(ipText) && r.value.0 != [] && 1 <= r.value.1
    ensures r.Some? <==> Trim(ipText) != [] && PortValue(portText).Ok?
  {
    var ip := Trim(ipText);
    var port := PortValue(portText);
    if ip == [] || port.Throws? then None else Some((ip, port.value))
  }

  /** The ownship fields: a 24-bit address, the trimmed callsign cut to 8 characters and the emitter category. */
  function ReadOwnship(icaoText: string, callsignText: string, emitterText: string): (r: Option<(uint32, string, byte)>)
    ensures r.Some? ==> r.value.0 < 0x100_0000 && r.value.1 == Trim(callsignText)[..Min(8, |Trim(callsignText)|)]
    ensures r.Some? <==> IcaoValue(Trim(icaoText)).Ok? && SmallValue(emitterText).Ok?
  {
    var icao := IcaoValue(Trim(icaoText));
    var callsign := Trim(callsignText);
    var emitter := SmallValue(emitterText);
    if icao.Throws? || emitter.Throws? then None else Some((icao.value, callsign[..Min(8, |callsign|)], emitter.value))
  }

  /** The rate fields: two positive rates from std::stof. */
  function ReadRates(heartbeatText: string, positionText: string): (r: Option<(real, real)>)
    ensures r.Some? ==> r.value.0 > 0.0 && r.value.1 > 0.0
    ensures r.Some? <==> StoF(heartbeatText).Ok? && StoF(heartbeatText).value > 0.0
                         && StoF(positionText).Ok? && StoF(positionText).value > 0.0
  {
    var heartbeat := RateValue(heartbeatText, "heartbeat_rate must be > 0");
    var position := RateValue(positionText, "position_rate must be > 0");
    if heartbeat.Throws? || position.Throws? then None else Some((heartbeat.value, position.value))
  }

  /** The accuracy fields: NIC and NACp from std::stoi, kept modulo 256. */
  function ReadAccuracy(nicText: string, nacpText: string): (r: Option<(byte, byte)>)
    ensures r.Some? <==> StoI(nicText).Ok? && StoI(nacpText).Ok?
    ensures r.Some? ==> r.value.0 == StoI(nicText).value % 256 && r.value.1 == StoI(nacpText).value % 256
  {
    var nic := SmallValue(nicText);
    var nacp := SmallValue(nacpText);
    if nic.Throws? || nacp.Throws? then None else Some((nic.value, nacp.value))
  }

  /** The two flag fields, each a boolean word. */
  function ReadFlags(debugText: string, logText: string): (r: Option<(bool, bool)>)
    ensures r.Some? <==> ParseBoolField(debugText).Some? && ParseBoolField(logText).Some?
    ensures r.Some? ==> r.value.0 == ParseBool(Trim(debugText)) && r.value.1 == ParseBool(Trim(logText))
  {
    var debugLogging := ParseBoolField(debugText);
    var logMessages := ParseBoolField(logText);
    if debugLogging.None? || logMessages.None? then None else Some((debugLogging.value, logMessages.value))
  }

  /**
   * The validation part of ApplyFieldsToConfig: the eleven field texts read
   * as a new configuration, or None when any is refused (an empty address,
   * a port outside 1 to 65535, a number that does not parse, a rate that is
   * not positive, a flag that is not a boolean word). The address and the
   * port are only accepted when they are unchanged or the UDP broadcaster
   * for them could be initialised (broadcasterReady).
   */
  function ApplyFields(c: Config, fields: seq<string>, broadcasterReady: bool): (r: Option<Config>)
    requires |fields| == FieldCount
    ensures r.Some? ==> r.value.targetIp == Trim(fields[0]) && r.value.targetIp != []
    ensures r.Some? ==> 1 <= r.value.targetPort && r.value.icaoAddress < 0x100_0000
    ensures r.Some? ==> r.value.callsign == Trim(fields[3])[..Min(8, |Trim(fields[3])|)]
    ensures r.Some? ==> r.value.heartbeatRate > 0.0 && r.value.positionRate > 0.0
    ensures r.Some? && (r.value.targetIp != c.targetIp || r.value.targetPort != c.targetPort) ==> broadcasterReady
  {
    var link := ReadLink(fields[0], fields[1]);
    var ownship := ReadOwnship(fields[2], fields[3], fields[4]);
    var rates := ReadRates(fields[5], fields[6]);
    var accuracy := ReadAccuracy(fields[7], fields[8]);
    var flags := ReadFlags(fields[9], fields[10]);
    if link.None? || ownship.None? || rates.None? || accuracy.None? || flags.None? then None
    else
      var next := Config(link.value.0, link.value.1, ownship.value.0, ownship.value.1, ownship.value.2,
                         rates.value.0, rates.value.1, accuracy.value.0, accuracy.value.1, flags.value.0, flags.value.1);
      if (next.targetIp != c.targetIp || next.targetPort != c.targetPort) && !broadcasterReady then None
      else Some(next)
  }

  /** SyncFieldsFromConfig: the texts the window shows for a configuration; the rate texts are std::to_string's float output. */
  function SyncedFields(c: Config, heartbeatText: string, positionText: string): (fields: seq<string>)
    ensures |fields| == FieldCount
  {
    [c.targetIp, DecimalText(c.targetPort), FormatHex24(c.icaoAddress), c.callsign, DecimalText(c.emitterCategory),
     heartbeatText, positionText, DecimalText(c.nic), DecimalText(c.nacp), FlagText(c.debugLogging), FlagText(c.logMessages)]
  }

  /** Field groups that each read as the matching settings give that configuration. */
  lemma {:induction false} ApplyFieldsOf(c: Config, broadcasterReady: bool, next: Config,
                      ipText: string, portText: string, icaoText: string, callsignText: string, emitterText: string,
                      heartbeatText: string, positionText: string, nicText: string, nacpText: string,
                      debugText: string, logText: string)
    requires ReadLink(ipText, portText) == Some((next.targetIp, next.targetPort))
    requires ReadOwnship(icaoText, callsignText, emitterText) == Some((next.icaoAddress, next.callsign, next.emitterCategory))
    requires ReadRates(heartbeatText, positionText) == Some((next.heartbeatRate, next.positionRate))
    requires ReadAccuracy(nicText, nacpText) == Some((next.nic, next.nacp))
    requires ReadFlags(debugText, logText) == Some((next.debugLogging, next.logMessages))
    requires (next.targetIp == c.targetIp && next.targetPort == c.targetPort) || broadcasterReady
    ensures ApplyFields(c, [ipText, portText, icaoText, callsignText, emitterText, heartbeatText, positionText,
                            nicText, nacpText, debugText, logText], broadcasterReady) == Some(next)
  {
  }

  /** The link texts shown for a trimmed, non-empty address and a port of at least 1 read back as them. */
  lemma {:induction false} LinkFieldsRead(ip: string, port: uint16)
    requires ip != [] && IsTrimmed(ip) && 1 <= port
    ensures ReadLink(ip, DecimalText(port)) == Some((ip, port))
  {
    TrimTrimmed(ip);
    StoUlDecimal(port);
  }

  /** Ownship texts whose address text reads as a 24-bit address, with a trimmed callsign of at most 8 characters, read back as them. */
  lemma {:induction false} OwnshipFieldsRead(icaoText: string, icao: uint32, callsign: string, emitter: byte)
    requires IcaoValue(Trim(icaoText)) == Ok(icao) && IsTrimmed(callsign) && |callsign| <= 8
    ensures ReadOwnship(icaoText, callsign, DecimalText(emitter)) == Some((icao, callsign, emitter))
  {
    TrimTrimmed(callsign);
    assert callsign[..Min(8, |callsign|)] == callsign;
    SmallText(emitter);
  }

  /** The accuracy texts shown read back as NIC and NACp. */
  lemma {:induction false} AccuracyFieldsRead(nic: byte, nacp: byte)
    ensures ReadAccuracy(DecimalText(nic), DecimalText(nacp)) == Some((nic, nacp))
  {
    SmallText(nic);
    SmallText(nacp);
  }

  /** The flag words shown read back as the flags. */
  lemma {:induction false} FlagFieldsRead(debugLogging: bool, logMessages: bool)
    ensures ReadFlags(FlagText(debugLogging), FlagText(logMessages)) == Some((debugLogging, logMessages))
  {
    FlagFieldRoundTrip(debugLogging);
    FlagFieldRoundTrip(logMessages);
  }

  /**
   * SyncFieldsFromConfig then ApplyFieldsToConfig gives the configuration
   * back, with the address kept to 24 bits and the rates as read from their
   * texts, whenever the address and the callsign are trimmed, the port is
   * at least 1, the callsign fits 8 characters and both rate texts read as
   * positive rates.
   */
  lemma {:induction false} SyncThenApply(c: Config, heartbeatText: string, positionText: string, broadcasterReady: bool)
    requires c.targetIp != [] && IsTrimmed(c.targetIp) && 1 <= c.targetPort
    requires IsTrimmed(c.callsign) && |c.callsign| <= 8
    requires ReadRates(heartbeatText, positionText).Some?
    ensures ApplyFields(c, SyncedFields(c, heartbeatText, positionText), broadcasterReady)
      == Some(c.(icaoAddress := c.icaoAddress % 0x100_0000,
                 heartbeatRate := ReadRates(heartbeatText, positionText).value.0,
                 positionRate := ReadRates(heartbeatText, positionText).value.1))
  {
    LinkFieldsRead(c.targetIp, c.targetPort);
    FormatHex24Reads(c.icaoAddress);
    OwnshipFieldsRead(FormatHex24(c.icaoAddress), c.icaoAddress % 0x100_0000, c.callsign, c.emitterCategory);
    AccuracyFieldsRead(c.nic, c.nacp);
    FlagFieldsRead(c.debugLogging, c.logMessages);
    var rates := ReadRates(heartbeatText, positionText).value;
    ApplyFieldsOf(c, broadcasterReady,
      c.(icaoAddress := c.icaoAddress % 0x100_0000, heartbeatRate := rates.0, positionRate := rates.1),
      c.targetIp, DecimalText(c.targetPort), FormatHex24(c.icaoAddress), c.callsign, DecimalText(c.emitterCategory),
      heartbeatText, positionText, DecimalText(c.nic), DecimalText(c.nacp), FlagText(c.debugLogging), FlagText(c.logMessages));
  }

  /** The settings window's editing state: g_state.active_field, edit_buffer and field_values. */
  class SettingsWindow {
    var activeField: int
    var editBuffer: string
    const fieldValues: array<string>

    /** One text per field and a field index in range or none. */
    ghost predicate Valid()
      reads this
    {
      fieldValues.Length == FieldCount && -1 <= activeField < FieldCount
    }

    /** The state as an editor value. */
    function State(): Editor
      reads this, fieldValues
    {
      Editor(activeField, editBuffer, fieldValues[..])
    }

    /** A window with the given field texts and no field being edited. */
    constructor(values: seq<string>)
      requires |values| == FieldCount
      ensures Valid() && fresh(fieldValues)
      ensures State() == Editor(-1, [], values)
    {
      activeField := -1;
      editBuffer := [];
      fieldValues := new string[FieldCount](i requires 0 <= i < FieldCount => values[i]);
    }

    /** SyncFieldsFromConfig: every field shows the configuration's value. */
    method SyncFields(c: Config, heartbeatText: string, positionText: string)
      requires Valid()
      modifies fieldValues
      ensures Valid() && activeField == old(activeField) && editBuffer == old(editBuffer)
      ensures fieldValues[..] == SyncedFields(c, heartbeatText, positionText)
    {
      var fields := SyncedFields(c, heartbeatText, positionText);
      var i := 0;
      while i < FieldCount
        invariant 0 <= i <= FieldCount
        invariant forall k :: 0 <= k < i ==> fieldValues[k] == fields[k]
      {
        fieldValues[i] := fields[i];
        i := i + 1;
      }
    }

    /** HandleSettingsKey: one key event. */
    method HandleKey(key: char, vk: VirtualKey, keyDown: bool, losingFocus: bool)
      requires Valid()
      modifies this, fieldValues
      ensures Valid()
      ensures State() == KeyStep(old(State()), key, vk, keyDown, losingFocus)
    {
      if losingFocus || !keyDown || activeField < 0 {
        return;
      }
      if vk == BackKey {
        if editBuffer != [] {
          editBuffer := editBuffer[..|editBuffer| - 1];
        }
        return;
      }
      if vk == ReturnKey || key == '\r' {
        fieldValues[activeField] := editBuffer;
        activeField := -1;
        editBuffer := [];
        return;
      }
      if vk == TabKey {
        fieldValues[activeField] := editBuffer;
        activeField := (activeField + 1) % FieldCount;
        editBuffer := fieldValues[activeField];
        return;
      }
      if vk == EscapeKey {
        activeField := -1;
        editBuffer := [];
        return;
      }
      if ' ' <= key <= '~' && |editBuffer| < MaxBuffer {
        editBuffer := editBuffer + [key];
      }
    }
  }

  /**
   * ApplyFieldsToConfig: the manager's configuration becomes the one the
   * fields give, and stays as it was when they are refused.
   */
  method ApplyFieldsToConfig(window: SettingsWindow, manager: ConfigManager, broadcasterReady: bool) returns (ok: bool)
    requires window.Valid()
    modifies manager
    ensures ok <==> ApplyFields(old(manager.config), window.fieldValues[..], broadcasterReady).Some?
    ensures ok ==> manager.config == ApplyFields(old(manager.config), window.fieldValues[..], broadcasterReady).value
    ensures !ok ==> manager.config == old(manager.config)
    ensures manager.lastError == old(manager.lastError)
  {
    var next := ApplyFields(manager.config, window.fieldValues[..], broadcasterReady);
    if next.None? {
      return false;
    }
    manager.config := next.value;
    return true;
  }
}
