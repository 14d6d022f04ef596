/**
 * The text handling of the plugin's INI configuration: whitespace trimming,
 * ASCII lower-casing, the boolean spellings, and the C library number
 * conversions (std::stoul, std::stoi, std::stof) the parser relies on,
 * with the decimal and hexadecimal writers the save path uses.
 */
module ConfigText {
  import opened Bytes

  /** std::string::find of one character: the first position holding it, or the length (npos). */
  function Find(s: string, c: char): (i: nat)
    ensures i <= |s|
    ensures forall k :: 0 <= k < i ==> s[k] != c
    ensures i < |s| ==> s[i] == c
  {
    if s == [] then 0 else if s[0] == c then 0 else 1 + Find(s[1..], c)
  }

  /** The first position holding c is the one before which no position holds it. */
  lemma {:induction false} FindAt(s: string, c: char, i: nat)
    requires i < |s| && s[i] == c && forall k :: 0 <= k < i ==> s[k] != c
    ensures Find(s, c) == i
  {
  }

  /** The characters trim and Trim remove: space, tab, carriage return, line feed. */
  predicate IsTrimSpace(c: char)
  {
    c == ' ' || c == '\t' || c == '\r' || c == '\n'
  }

  /** The string with its leading trim characters removed. */
  function TrimStart(s: string): (r: string)
    ensures |r| <= |s|
    ensures forall k :: 0 <= k < |s| - |r| ==> IsTrimSpace(s[k])
    ensures r == [] || !IsTrimSpace(r[0])
  {
    if |s| > 0 && IsTrimSpace(s[0]) then TrimStart(s[1..]) else s
  }

  /** The string with its trailing trim characters removed. */
  function TrimEnd(s: string): (r: string)
    ensures |r| <= |s|
    ensures forall k :: |r| <= k < |s| ==> IsTrimSpace(s[k])
    ensures r == [] || !IsTrimSpace(r[|r| - 1])
  {
    if |s| > 0 && IsTrimSpace(s[|s| - 1]) then TrimEnd(s[..|s| - 1]) else s
  }

  /**
   * trim: the part between the first and the last character that is not a
   * trim character, or "" when there is none.
   */
  function Trim(s: string): (r: string)
    ensures r == [] <==> forall k :: 0 <= k < |s| ==> IsTrimSpace(s[k])
    ensures r != [] ==> !IsTrimSpace(r[0]) && !IsTrimSpace(r[|r| - 1])
  {
    TrimStartSlice(s);
    TrimEndSlice(TrimStart(s));
    TrimEnd(TrimStart(s))
  }

  /** What TrimStart keeps is a suffix of its input. */
  lemma {:induction false} TrimStartSlice(s: string)
    ensures TrimStart(s) == s[|s| - |TrimStart(s)|..]
    decreases |s|
  {
    if |s| > 0 && IsTrimSpace(s[0]) {
      TrimStartSlice(s[1..]);
      assert s[1..][|s| - 1 - |TrimStart(s)|..] == s[|s| - |TrimStart(s)|..];
    }
  }

  /** What TrimEnd keeps is a prefix of its input. */
  lemma {:induction false} TrimEndSlice(s: string)
    ensures TrimEnd(s) == s[..|TrimEnd(s)|]
    decreases |s|
  {
    if |s| > 0 && IsTrimSpace(s[|s| - 1]) {
      TrimEndSlice(s[..|s| - 1]);
      assert s[..|s| - 1][..|TrimEnd(s)|] == s[..|TrimEnd(s)|];
    }
  }

  /** Trimming keeps a slice of its input, so it adds no character. */
  lemma {:induction false} TrimInside(s: string, c: char)
    requires c !in s
    ensures c !in Trim(s)
  {
    TrimStartSlice(s);
    TrimEndSlice(TrimStart(s));
  }

  /** A string trim leaves alone: empty, or neither end is a trim character. */
  predicate IsTrimmed(s: string)
  {
    s == [] || (!IsTrimSpace(s[0]) && !IsTrimSpace(s[|s| - 1]))
  }

  /** Trimming a trimmed string changes nothing, so trimming twice is trimming once. */
  lemma {:induction false} TrimTrimmed(s: string)
    requires IsTrimmed(s)
    ensures Trim(s) == s
  {
  }

  /** Trimming is idempotent. */
  lemma {:induction false} TrimIdempotent(s: string)
    ensures Trim(Trim(s)) == Trim(s)
  {
    TrimTrimmed(Trim(s));
  }

  /** One space before or after a trimmed, non-empty string is trimmed away. */
  lemma {:induction false} TrimPadded(s: string)
    requires s != [] && IsTrimmed(s)
    ensures Trim([' '] + s) == s && Trim(s + [' ']) == s
  {
    assert ([' '] + s)[1..] == s;
    assert TrimStart([' '] + s) == TrimStart(s) == s;
    assert (s + [' '])[..|s|] == s;
    assert TrimStart(s + [' ']) == s + [' '];
    assert TrimEnd(s + [' ']) == TrimEnd(s) == s;
  }

  /** tolower in the C locale: only 'A' to 'Z' change. */
  function LowerChar(c: char): char
  {
    if 'A' <= c <= 'Z' then (c as int + 32) as char else c
  }

  /** The string with every character passed through tolower. */
  function ToLower(s: string): (r: string)
    ensures |r| == |s|
    ensures forall k :: 0 <= k < |s| ==> r[k] == LowerChar(s[k])
  {
    if s == [] then [] else [LowerChar(s[0])] + ToLower(s[1..])
  }

  /** Lower-casing twice is lower-casing once. */
  lemma {:induction false} ToLowerIdempotent(s: string)
    ensures ToLower(ToLower(s)) == ToLower(s)
  {
  }

  /** parseBool: true exactly for true, yes, 1 and on, in any letter case. */
  predicate ParseBool(value: string)
    ensures ParseBool(value) ==> 1 <= |value| <= 4
  {
    var lower := ToLower(value);
    lower == "true" || lower == "yes" || lower == "1" || lower == "on"
  }

  /** The letter case never matters. */
  lemma {:induction false} ParseBoolCaseInsensitive(value: string)
    ensures ParseBool(ToLower(value)) == ParseBool(value)
  {
    ToLowerIdempotent(value);
  }

  /** The two words save writes read back as the values written. */
  lemma {:induction false} ParseBoolSaved()
    ensures ParseBool("true") && !ParseBool("false")
  {
    assert ToLower("true") == "true";
    assert ToLower("false") == "false";
  }

  /** What a C library conversion produces: a value, or the exception it throws with its message. */
  datatype Outcome<T> = Ok(value: T) | Throws(what: string)

  /** isspace in the C locale: what strtoul, strtol and strtod skip first. */
  predicate IsCSpace(c: char)
  {
    c == ' ' || c == '\t' || c == '\n' || c == '\U{0B}' || c == '\U{0C}' || c == '\r'
  }

  function SkipCSpace(s: string): (r: string)
    ensures |r| <= |s|
    ensures r == [] || !IsCSpace(r[0])
  {
    if |s| > 0 && IsCSpace(s[0]) then SkipCSpace(s[1..]) else s
  }

  /** What is left after the white space is the end of the text. */
  lemma {:induction false} SkipCSpaceSuffix(s: string)
    ensures SkipCSpace(s) == s[|s| - |SkipCSpace(s)|..]
  {
    if |s| > 0 && IsCSpace(s[0]) {
      SkipCSpaceSuffix(s[1..]);
      assert s[1..][|s| - 1 - |SkipCSpace(s)|..] == s[|s| - |SkipCSpace(s)|..];
    }
  }

  /** A digit of the given base (10 or 16, either letter case). */
  predicate IsDigit(c: char, base: nat)
  {
    if base == 16 then ('0' <= c <= '9') || ('a' <= c <= 'f') || ('A' <= c <= 'F')
    else '0' <= c <= '9'
  }

  /** The value of a digit of the given base; only ever applied to digits. */
  function DigitValue(c: char, base: nat): (d: nat)
    ensures IsDigit(c, base) ==> d < (if base == 16 then 16 else 10)
  {
    if !IsDigit(c, base) then 0 else
    if '0' <= c <= '9' then c as int - '0' as int
    else if 'a' <= c <= 'f' then c as int - 'a' as int + 10
    else c as int - 'A' as int + 10
  }

  /** How many digits of the given base the string starts with. */
  function DigitRun(s: string, base: nat): (n: nat)
    ensures n <= |s|
    ensures forall k :: 0 <= k < n ==> IsDigit(s[k], base)
    ensures n < |s| ==> !IsDigit(s[n], base)
  {
    if |s| > 0 && IsDigit(s[0], base) then 1 + DigitRun(s[1..], base) else 0
  }

  /** The number a string of digits stands for, most significant first. */
  function DigitsValue(digits: string, base: nat): nat
  {
    if digits == [] then 0
    else DigitsValue(digits[..|digits| - 1], base) * base + DigitValue(digits[|digits| - 1], base)
  }

  /** ULONG_MAX of a 64-bit unsigned long. */
  const UlongMax: nat := 0xFFFF_FFFF_FFFF_FFFF

  /** The string after an optional leading sign. */
  function Unsigned(t: string): (u: string)
    ensures |u| <= |t| && u == t[|t| - |u|..]
  {
    if |t| > 0 && (t[0] == '+' || t[0] == '-') then t[1..] else t
  }

  /** An "0x" or "0X" that strtoul skips in base 16: only when a hex digit follows it. */
  predicate HasHexPrefix(u: string)
  {
    |u| >= 3 && u[0] == '0' && (u[1] == 'x' || u[1] == 'X') && IsDigit(u[2], 16)
  }

  /** The value of the digits w starts with, negated modulo 2^64 after a minus sign. */
  function UnsignedValue(w: string, base: nat, negative: bool): (r: Outcome<nat>)
    ensures r.Ok? ==> r.value <= UlongMax
  {
    var n := DigitRun(w, base);
    if n == 0 then Throws("stoul")
    else
      var v := DigitsValue(w[..n], base);
      if v > UlongMax then Throws("stoul")
      else if negative then Ok(if v == 0 then 0 else UlongMax + 1 - v)
      else Ok(v)
  }

  /**
   * std::stoul: after white space and a sign, the longest run of digits (in
   * base 16 an "0x" or "0X" before a hex digit is skipped); no digit, or a
   * value beyond ULONG_MAX, throws.  A minus sign negates modulo 2^64, as
   * strtoul does.
   */
  function StoUl(s: string, base: nat): (r: Outcome<nat>)
    requires base == 10 || base == 16
    ensures r.Ok? ==> r.value <= UlongMax
  {
    var t := SkipCSpace(s);
    var u := Unsigned(t);
    var w := if base == 16 && HasHexPrefix(u) then u[2..] else u;
    UnsignedValue(w, base, |t| > 0 && t[0] == '-')
  }

  /** A string of digits alone reads as its value. */
  lemma {:induction false} UnsignedDigits(w: string, base: nat)
    requires w != [] && forall k :: 0 <= k < |w| ==> IsDigit(w[k], base)
    requires DigitsValue(w, base) <= UlongMax
    ensures UnsignedValue(w, base, false) == Ok(DigitsValue(w, base))
  {
    DigitRunAll(w, base);
    assert w[..|w|] == w;
  }

  /**
   * std::stoi: after white space, an optional sign and the longest run of
   * decimal digits; no digit, or a value outside the range of int, throws.
   */
  function StoI(s: string): (r: Outcome<int>)
    ensures r.Ok? ==> -0x8000_0000 <= r.value < 0x8000_0000
  {
    var t := SkipCSpace(s);
    var negative := |t| > 0 && t[0] == '-';
    var u := Unsigned(t);
    var n := DigitRun(u, 10);
    if n == 0 then Throws("stoi")
    else
      var v: int := if negative then -(DigitsValue(u[..n], 10) as int) else DigitsValue(u[..n], 10);
      if v < -0x8000_0000 || v >= 0x8000_0000 then Throws("stoi") else Ok(v)
  }

  function Pow10(k: nat): (r: nat)
    ensures r >= 1
  {
    if k == 0 then 1 else 10 * Pow10(k - 1)
  }

  /**
   * std::stof on plain decimal text: after white space and a sign, digits
   * with an optional fraction; no digit at all throws.
   */
  function StoF(s: string): (r: Outcome<real>)
    ensures (forall k :: 0 <= k < |s| ==> !IsDigit(s[k], 10)) ==> r.Throws?
  {
    SkipCSpaceSuffix(s);
    var t := SkipCSpace(s);
    var negative := |t| > 0 && t[0] == '-';
    var u := Unsigned(t);
    var n := DigitRun(u, 10);
    var rest := u[n..];
    var m := if |rest| > 0 && rest[0] == '.' then DigitRun(rest[1..], 10) else 0;
    if n == 0 && m == 0 then Throws("stof")
    else
      var whole := DigitsValue(u[..n], 10) as real;
      var fraction := if m == 0 then 0.0 else (DigitsValue(rest[1..][..m], 10) as real) / (Pow10(m) as real);
      Ok(if negative then -(whole + fraction) else whole + fraction)
  }

  /** A decimal digit character. */
  function DecimalDigit(d: nat): (c: char)
    requires d < 10
    ensures IsDigit(c, 10) && DigitValue(c, 10) == d
  {
    ('0' as int + d) as char
  }

  /** A lower-case hexadecimal digit character, as std::hex writes it. */
  function HexDigit(d: nat): (c: char)
    requires d < 16
    ensures IsDigit(c, 16) && DigitValue(c, 16) == d
  {
    if d < 10 then ('0' as int + d) as char else ('a' as int + d - 10) as char
  }

  /** operator<< of an unsigned value in decimal: no leading zero, "0" for zero. */
  function DecimalText(n: nat): (r: string)
    ensures r != [] && (r[0] != '0' || n == 0)
    ensures forall k :: 0 <= k < |r| ==> IsDigit(r[k], 10)
  {
    if n < 10 then [DecimalDigit(n)] else DecimalText(n / 10) + [DecimalDigit(n % 10)]
  }

  /** operator<< of an unsigned value after std::hex: lower-case digits, no prefix, no padding. */
  function HexText(n: nat): (r: string)
    ensures r != [] && (r[0] != '0' || n == 0)
    ensures forall k :: 0 <= k < |r| ==> IsDigit(r[k], 16)
  {
    if n < 16 then [HexDigit(n)] else HexText(n / 16) + [HexDigit(n % 16)]
  }

  /** The digits written read back as the number written. */
  lemma {:induction false} DecimalTextValue(n: nat)
    ensures DigitsValue(DecimalText(n), 10) == n
  {
    if n >= 10 {
      DecimalTextValue(n / 10);
      assert DecimalText(n)[..|DecimalText(n)| - 1] == DecimalText(n / 10);
    }
  }

  lemma {:induction false} HexTextValue(n: nat)
    ensures DigitsValue(HexText(n), 16) == n
  {
    if n >= 16 {
      HexTextValue(n / 16);
      assert HexText(n)[..|HexText(n)| - 1] == HexText(n / 16);
    }
  }

  /** The whole of a digit string is one run of digits. */
  lemma {:induction false} DigitRunAll(s: string, base: nat)
    requires forall k :: 0 <= k < |s| ==> IsDigit(s[k], base)
    ensures DigitRun(s, base) == |s|
  {
    if |s| > 0 {
      DigitRunAll(s[1..], base);
    }
  }

  /** stoul reads back what operator<< wrote in decimal. */
  lemma {:induction false} StoUlDecimal(n: nat)
    requires n <= UlongMax
    ensures StoUl(DecimalText(n), 10) == Ok(n)
  {
    var s := DecimalText(n);
    assert SkipCSpace(s) == s && Unsigned(s) == s;
    DecimalTextValue(n);
    UnsignedDigits(s, 10);
  }

  /** stoi reads back what operator<< wrote in decimal. */
  lemma {:induction false} StoIDecimal(n: nat)
    requires n < 0x8000_0000
    ensures StoI(DecimalText(n)) == Ok(n)
  {
    var s := DecimalText(n);
    assert SkipCSpace(s) == s && Unsigned(s) == s && !(|s| > 0 && s[0] == '-');
    DigitRunAll(s, 10);
    DecimalTextValue(n);
    assert s[..|s|] == s;
  }

  /** stof reads back what operator<< wrote for a whole number, as that number. */
  lemma {:induction false} StoFDecimal(n: nat)
    ensures StoF(DecimalText(n)) == Ok(n as real)
  {
    var s := DecimalText(n);
    assert SkipCSpace(s) == s && Unsigned(s) == s && !(|s| > 0 && s[0] == '-');
    DigitRunAll(s, 10);
    DecimalTextValue(n);
    assert s[..|s|] == s;
  }

  /** Without a minus sign stof reads no negative number. */
  lemma {:induction false} StoFNonNegative(s: string)
    requires '-' !in s && StoF(s).Ok?
    ensures StoF(s).value >= 0.0
  {
    var t := SkipCSpace(s);
    assert !(|t| > 0 && t[0] == '-') by {
      SkipCSpaceSuffix(s);
      if |t| > 0 { assert t[0] == s[|s| - |t|]; }
    }
    var u := Unsigned(t);
    var n := DigitRun(u, 10);
    var rest := u[n..];
    if |rest| > 0 && rest[0] == '.' {
      var m := DigitRun(rest[1..], 10);
      QuotientNonNegative(DigitsValue(rest[1..][..m], 10), Pow10(m));
    }
  }

  lemma QuotientNonNegative(q: nat, d: nat)
    requires d > 0
    ensures (q as real) / (d as real) >= 0.0
  {
  }

  /** stoul in base 16 reads back "0x" and what operator<< wrote after std::hex. */
  lemma {:induction false} StoUlHex(n: nat)
    requires n <= UlongMax
    ensures StoUl("0x" + HexText(n), 16) == Ok(n)
  {
    HexTextValue(n);
    StoUlHexDigits(HexText(n));
  }

  /** stoul in base 16 reads "0x" and a run of hex digits as the value of the digits. */
  lemma {:induction false} StoUlHexDigits(h: string)
    requires h != [] && (forall k :: 0 <= k < |h| ==> IsDigit(h[k], 16)) && DigitsValue(h, 16) <= UlongMax
    ensures StoUl("0x" + h, 16) == Ok(DigitsValue(h, 16))
  {
    HexPrefixSkipped(h);
    UnsignedDigits(h, 16);
  }

  /** stoul in base 16 skips the "0x" in front of a hex digit and reads what follows. */
  lemma {:induction false} HexPrefixSkipped(h: string)
    requires h != [] && IsDigit(h[0], 16)
    ensures StoUl("0x" + h, 16) == UnsignedValue(h, 16, false)
  {
    var s := "0x" + h;
    assert s[0] == '0' && s[1] == 'x' && s[2] == h[0];
    assert SkipCSpace(s) == s;
    assert Unsigned(s) == s;
    assert HasHexPrefix(s) && s[2..] == h;
  }
}
