/**
 * The semantic versions of the release scripts: SemanticVersion.parse,
 * bump and __str__ of scripts/bump_version.py. A version is
 * MAJOR.MINOR.PATCH with an optional pre-release after '-' and an optional
 * build after '+', both over letters, digits, '-' and '.' (Semantic
 * Versioning 2.0.0, items 2, 9 and 10). A SemanticVersion is never changed
 * after its constructor has parsed it, so it is a value here.
 */
module SemVer {
  import opened Bytes
  import opened ConfigText

  datatype Version = Version(major: nat, minor: nat, patch: nat, prerelease: Option<string>, build: Option<string>)

  /** A character the pre-release and build groups accept: [a-zA-Z0-9-.]. */
  predicate IsIdentChar(c: char)
  {
    'a' <= c <= 'z' || 'A' <= c <= 'Z' || '0' <= c <= '9' || c == '-' || c == '.'
  }

  /** A non-empty run of such characters. */
  predicate IsIdent(s: string)
  {
    s != [] && forall k :: 0 <= k < |s| ==> IsIdentChar(s[k])
  }

  /** The versions parse can produce: a pre-release or build, when present, is a non-empty identifier run. */
  predicate ValidVersion(v: Version)
  {
    (v.prerelease.None? || IsIdent(v.prerelease.value)) && (v.build.None? || IsIdent(v.build.value))
  }

  /** str.lstrip('v'): every leading 'v' removed. */
  function StripV(s: string): (r: string)
    ensures |r| <= |s| && r == s[|s| - |r|..]
    ensures r == [] || r[0] != 'v'
    ensures forall k :: 0 <= k < |s| - |r| ==> s[k] == 'v'
  {
    if s != [] && s[0] == 'v' then StripV(s[1..]) else s
  }

  /** One \d+ group: its value and what follows it, or None when no digit comes first. */
  function Number(t: string): (r: Option<(nat, string)>)
    ensures r.Some? ==> |r.value.1| < |t| && r.value.1 == t[|t| - |r.value.1|..]
    ensures r.Some? ==> IsDigit(t[|t| - |r.value.1| - 1], 10)
    ensures r.Some? ==> r.value.1 == [] || !IsDigit(r.value.1[0], 10)
  {
    var n := DigitRun(t, 10);
    if n == 0 then None else Some((DigitsValue(t[..n], 10), t[n..]))
  }

  /** A \d+ group followed by '.', and what follows the dot. */
  function Dotted(t: string): (r: Option<(nat, string)>)
    ensures r.Some? ==> |r.value.1| < |t| && r.value.1 == t[|t| - |r.value.1|..]
  {
    match Number(t)
    case None => None
    case Some((n, rest)) => if rest != [] && rest[0] == '.' then Some((n, rest[1..])) else None
  }

  /** The optional groups (?:-PRE)?(?:\+BUILD)? matched against the whole rest of the text. */
  function Suffix(r: string): (m: Option<(Option<string>, Option<string>)>)
    ensures m.Some? ==> (m.value.0.None? || IsIdent(m.value.0.value)) && (m.value.1.None? || IsIdent(m.value.1.value))
    ensures m.Some? && r != [] ==> IsIdentChar(r[|r| - 1])
  {
    if r == [] then Some((None, None))
    else if r[0] == '-' then
      var rest := r[1..];
      var p := Find(rest, '+');
      if !IsIdent(rest[..p]) then None
      else if p == |rest| then Some((Some(rest), None))
      else if IsIdent(rest[p + 1..]) then Some((Some(rest[..p]), Some(rest[p + 1..])))
      else None
    else if r[0] == '+' then
      if IsIdent(r[1..]) then Some((None, Some(r[1..]))) else None
    else None
  }

  /** The version pattern matched against the whole of t. */
  function Match(t: string): (r: Option<Version>)
    ensures r.Some? ==> ValidVersion(r.value)
    ensures r.Some? ==> t != [] && IsIdentChar(t[|t| - 1])
  {
    match Dotted(t)
    case None => None
    case Some((major, t1)) =>
      match Dotted(t1)
      case None => None
      case Some((minor, t2)) =>
        match Number(t2)
        case None => None
        case Some((patch, t3)) =>
          match Suffix(t3)
          case None => None
          case Some((pre, build)) => Some(Version(major, minor, patch, pre, build))
  }

  /**
   * SemanticVersion.parse: leading 'v's dropped, then the pattern, whose $
   * also matches just before a final line feed; anything else raises
   * ValueError.
   */
  function Parse(s: string): (r: Outcome<Version>)
    ensures r.Ok? ==> ValidVersion(r.value)
    ensures r.Throws? ==> r.what == "Invalid semantic version: " + StripV(s)
  {
    var t := StripV(s);
    if Match(t).Some? then Ok(Match(t).value)
    else if t != [] && t[|t| - 1] == '\n' && Match(t[..|t| - 1]).Some? then Ok(Match(t[..|t| - 1]).value)
    else Throws("Invalid semantic version: " + t)
  }

  /** The "-PRE" and "+BUILD" parts of __str__, each only when present and non-empty. */
  function Tail(v: Version): string
  {
    (if v.prerelease.Some? && v.prerelease.value != [] then "-" + v.prerelease.value else "")
    + (if v.build.Some? && v.build.value != [] then "+" + v.build.value else "")
  }

  /** The f"{major}.{minor}.{patch}" text. */
  function CoreText(major: nat, minor: nat, patch: nat): (s: string)
    ensures s != [] && IsDigit(s[0], 10)
  {
    DecimalText(major) + ("." + (DecimalText(minor) + ("." + DecimalText(patch))))
  }

  /** SemanticVersion.__str__. */
  function Str(v: Version): (s: string)
    ensures s != [] && IsDigit(s[0], 10)
  {
    CoreText(v.major, v.minor, v.patch) + Tail(v)
  }

  /** The digit run of a digit string followed by a non-digit is the digit string. */
  lemma {:induction false} DigitRunThen(d: string, rest: string)
    requires forall k :: 0 <= k < |d| ==> IsDigit(d[k], 10)
    requires rest == [] || !IsDigit(rest[0], 10)
    ensures DigitRun(d + rest, 10) == |d|
  {
    if d != [] {
      assert (d + rest)[1..] == d[1..] + rest;
      DigitRunThen(d[1..], rest);
    }
  }

  /** A digit string followed by a non-digit reads as its value and the rest. */
  lemma {:induction false} DigitsRead(d: string, rest: string)
    requires AllDigits(d)
    requires rest == [] || !IsDigit(rest[0], 10)
    ensures Number(d + rest) == Some((DigitsValue(d, 10), rest))
  {
    DigitRunThen(d, rest);
    assert (d + rest)[..|d|] == d;
    assert (d + rest)[|d|..] == rest;
  }

  /** A number written in decimal and followed by a non-digit reads back as that number and the rest. */
  lemma {:induction false} NumberRead(n: nat, rest: string)
    requires rest == [] || !IsDigit(rest[0], 10)
    ensures Number(DecimalText(n) + rest) == Some((n, rest))
  {
    DigitsRead(DecimalText(n), rest);
    DecimalTextValue(n);
  }

  /** ... and when a dot follows it, Dotted reads it and gives what follows the dot. */
  lemma {:induction false} DottedRead(n: nat, rest: string)
    ensures Dotted(DecimalText(n) + ("." + rest)) == Some((n, rest))
  {
    NumberRead(n, "." + rest);
    assert ("." + rest)[1..] == rest;
  }

  /** The tail __str__ writes for a valid version reads back as its pre-release and build. */
  lemma {:induction false} SuffixRead(v: Version)
    requires ValidVersion(v)
    ensures Suffix(Tail(v)) == Some((v.prerelease, v.build))
  {
    if v.prerelease.Some? {
      var p := v.prerelease.value;
      if v.build.Some? {
        var b := v.build.value;
        var rest := p + "+" + b;
        assert Tail(v) == "-" + rest;
        assert rest[|p|] == '+';
        assert forall k :: 0 <= k < |p| ==> rest[k] == p[k];
        FindAt(rest, '+', |p|);
        assert rest[..|p|] == p && rest[|p| + 1..] == b;
      } else {
        assert Tail(v) == "-" + p;
        assert forall k :: 0 <= k < |p| ==> p[k] != '+';
        assert Find(p, '+') == |p|;
        assert p[..|p|] == p;
      }
    } else if v.build.Some? {
      assert Tail(v) == "+" + v.build.value;
    }
  }

  /** The first character of the tail is never a digit, so the patch number ends where the tail begins. */
  lemma {:induction false} TailStart(v: Version)
    ensures Tail(v) == [] || Tail(v)[0] == '-' || Tail(v)[0] == '+'
  {
  }

  /** CoreText followed by more text, with the concatenations grouped from the right, the way the groups are read. */
  lemma {:induction false} CoreShape(major: nat, minor: nat, patch: nat, x: string)
    ensures CoreText(major, minor, patch) + x == DecimalText(major) + ("." + (DecimalText(minor) + ("." + (DecimalText(patch) + x))))
  {
    var d3 := DecimalText(patch);
    var inner := "." + d3;
    assert inner + x == "." + (d3 + x);
    var mid := DecimalText(minor) + inner;
    assert mid + x == DecimalText(minor) + (inner + x);
    var outer := "." + mid;
    assert outer + x == "." + (mid + x);
    assert (DecimalText(major) + outer) + x == DecimalText(major) + (outer + x);
  }

  /** The core groups read what CoreText wrote; the whole text then matches exactly when the rest matches the optional groups. */
  lemma {:induction false} MatchCoreThen(major: nat, minor: nat, patch: nat, x: string)
    requires x == [] || x[0] == '-' || x[0] == '+'
    ensures Match(CoreText(major, minor, patch) + x)
         == if Suffix(x).Some? then Some(Version(major, minor, patch, Suffix(x).value.0, Suffix(x).value.1)) else None
  {
    CoreShape(major, minor, patch, x);
    DottedRead(major, DecimalText(minor) + ("." + (DecimalText(patch) + x)));
    DottedRead(minor, DecimalText(patch) + x);
    NumberRead(patch, x);
  }

  /** The pattern matches what __str__ writes, with the groups holding the version's parts. */
  lemma {:induction false} MatchStr(v: Version)
    requires ValidVersion(v)
    ensures Match(Str(v)) == Some(v)
  {
    TailStart(v);
    MatchCoreThen(v.major, v.minor, v.patch, Tail(v));
    SuffixRead(v);
  }

  /** parse(str(v)) == v: __str__ writes what parse reads back, for every version parse can produce. */
  lemma {:induction false} ParseStr(v: Version)
    requires ValidVersion(v)
    ensures Parse(Str(v)) == Ok(v)
  {
    MatchStr(v);
    assert StripV(Str(v)) == Str(v);
  }

  /** A version text read with its final line feed still parses, as $ matches just before it. */
  lemma {:induction false} ParseStrNewline(v: Version)
    requires ValidVersion(v)
    ensures Parse(Str(v) + "\n") == Ok(v)
  {
    MatchStr(v);
    ParseNewline(Str(v), v);
  }

  /** A matching text that does not start with 'v' parses the same with a line feed after it. */
  lemma {:induction false} ParseNewline(t: string, v: Version)
    requires t != [] && t[0] != 'v' && Match(t) == Some(v)
    ensures Parse(t + "\n") == Ok(v)
  {
    var s := t + "\n";
    assert s[0] == t[0];
    assert StripV(s) == s;
    assert s[..|s| - 1] == t;
    MatchNoNewline(s);
  }

  /** A text ending in a line feed never matches the pattern as a whole. */
  lemma {:induction false} MatchNoNewline(t: string)
    requires t != [] && t[|t| - 1] == '\n'
    ensures Match(t).None?
  {
  }

  /** Leading 'v's never change what parse reads. */
  lemma {:induction false} ParseIgnoresV(s: string)
    ensures Parse("v" + s) == Parse(s)
  {
    assert ("v" + s)[1..] == s;
  }

  /** A requested pre-release type is one only when it is a non-empty string (Python truthiness). */
  predicate Given(prereleaseType: Option<string>)
  {
    prereleaseType.Some? && prereleaseType.value != []
  }

  /** The last position holding c, or None when c does not occur. */
  function LastIndex(s: string, c: char): (r: Option<nat>)
    ensures r.None? ==> c !in s
    ensures r.Some? ==> r.value < |s| && s[r.value] == c && c !in s[r.value + 1..]
  {
    if s == [] then None
    else if s[|s| - 1] == c then Some(|s| - 1)
    else
      var r := LastIndex(s[..|s| - 1], c);
      assert s == s[..|s| - 1] + [s[|s| - 1]];
      if r.Some? then assert s[r.value + 1..] == s[..|s| - 1][r.value + 1..] + [s[|s| - 1]]; r else r
  }

  /** str.isdigit of an ASCII text: non-empty and all digits. */
  predicate AllDigits(s: string)
  {
    s != [] && forall k :: 0 <= k < |s| ==> IsDigit(s[k], 10)
  }

  /** The counter a pre-release ends with: the value of its last dot-separated field, when there are at least two fields and the last is all digits. */
  function Counter(p: string): Option<nat>
  {
    match LastIndex(p, '.')
    case None => None
    case Some(i) => if AllDigits(p[i + 1..]) then Some(DigitsValue(p[i + 1..], 10)) else None
  }

  /** Everything of a pre-release before its counter, dot included. */
  function Stem(p: string): string
  {
    match LastIndex(p, '.')
    case None => p
    case Some(i) => p[..i + 1]
  }

  /** The pre-release an increment produces: the counter plus one, or ".1" appended when there is none. */
  function IncrementPre(p: string): (r: string)
    ensures Counter(p).None? ==> p < r
    ensures Counter(p).Some? ==> Stem(p) < r && r[|Stem(p)|..] == DecimalText(Counter(p).value + 1)
  {
    match Counter(p)
    case Some(n) => Stem(p) + DecimalText(n + 1)
    case None => p + ".1"
  }

  /** Incrementing ends the pre-release in a counter one higher than before, or 1, and keeps the identifier characters. */
  lemma {:induction false} IncrementCounts(p: string)
    ensures Counter(IncrementPre(p)) == Some(if Counter(p).Some? then Counter(p).value + 1 else 1)
    ensures Counter(p).Some? ==> Stem(IncrementPre(p)) == Stem(p)
    ensures Counter(p).None? ==> Stem(IncrementPre(p)) == p + "."
    ensures IsIdent(p) ==> IsIdent(IncrementPre(p))
  {
    if Counter(p).Some? {
      IncrementCounted(p);
    } else {
      assert IncrementPre(p) == p + ".1";
      CounterStart(p);
    }
  }

  /** A pre-release with a counter is incremented within its stem. */
  lemma {:induction false} IncrementCounted(p: string)
    requires Counter(p).Some?
    ensures IncrementPre(p) == Stem(p) + DecimalText(Counter(p).value + 1)
    ensures Counter(IncrementPre(p)) == Some(Counter(p).value + 1) && Stem(IncrementPre(p)) == Stem(p)
    ensures IsIdent(p) ==> IsIdent(IncrementPre(p))
  {
    var stem := Stem(p);
    CountedStem(p);
    CounterStep(stem, Counter(p).value);
    if IsIdent(p) {
      IdentWithCounter(p, stem, Counter(p).value + 1);
    }
  }

  /** The stem of a pre-release with a counter is a prefix of it ending in '.'. */
  lemma {:induction false} CountedStem(p: string)
    requires Counter(p).Some?
    ensures Stem(p) != [] && Stem(p)[|Stem(p)| - 1] == '.' && Stem(p) <= p
  {
    var i := LastIndex(p, '.').value;
    assert Stem(p) == p[..i + 1];
  }

  /** A prefix of an identifier followed by a decimal counter is an identifier. */
  lemma {:induction false} IdentWithCounter(p: string, stem: string, n: nat)
    requires IsIdent(p) && stem != [] && stem <= p
    ensures IsIdent(stem + DecimalText(n))
  {
    var d := DecimalText(n);
    forall k | 0 <= k < |stem + d|
      ensures IsIdentChar((stem + d)[k])
    {
      if k >= |stem| {
        assert (stem + d)[k] == d[k - |stem|];
      } else {
        assert (stem + d)[k] == p[k];
      }
    }
  }

  /** A stem ending in '.' followed by a decimal counter has that counter and that stem. */
  lemma {:induction false} CounterStep(stem: string, n: nat)
    requires stem != [] && stem[|stem| - 1] == '.'
    ensures var r := stem + DecimalText(n + 1);
      Counter(r) == Some(n + 1) && Stem(r) == stem
  {
    var d := DecimalText(n + 1);
    var r := stem + d;
    var i := |stem| - 1;
    assert r[i + 1..] == d;
    LastDotBeforeDigits(stem, d);
    DecimalTextValue(n + 1);
    assert r[..i + 1] == stem;
  }

  /** A '.' followed only by digits is the last '.'. */
  lemma {:induction false} LastDotBeforeDigits(stem: string, d: string)
    requires stem != [] && stem[|stem| - 1] == '.'
    requires forall k :: 0 <= k < |d| ==> IsDigit(d[k], 10)
    ensures LastIndex(stem + d, '.') == Some(|stem| - 1)
  {
    var r := stem + d;
    forall k | |stem| - 1 < k < |r|
      ensures r[k] != '.'
    {
      assert r[k] == d[k - |stem|];
    }
    LastIndexAt(r, '.', |stem| - 1);
  }

  /** Appending ".1" starts a counter at 1 after the whole pre-release. */
  lemma {:induction false} CounterStart(p: string)
    ensures Counter(p + ".1") == Some(1) && Stem(p + ".1") == p + "."
  {
    var r := p + ".1";
    LastIndexAt(r, '.', |p|);
    assert r[|p| + 1..] == "1";
    assert DigitsValue("1", 10) == DigitsValue("", 10) * 10 + DigitValue('1', 10);
    assert r[..|p| + 1] == p + ".";
  }

  /** The last position holding c is the one after which no position holds it. */
  lemma {:induction false} LastIndexAt(s: string, c: char, i: nat)
    requires i < |s| && s[i] == c && forall k :: i < k < |s| ==> s[k] != c
    ensures LastIndex(s, c) == Some(i)
  {
    if i < |s| - 1 {
      LastIndexAt(s[..|s| - 1], c, i);
    }
  }

  /** The text a bump hands to the SemanticVersion constructor, or None for an unknown bump type. */
  function BumpText(v: Version, bumpType: string, prereleaseType: Option<string>): Option<string>
  {
    var core := CoreText(v.major, v.minor, v.patch);
    if bumpType == "major" then Some(CoreText(v.major + 1, 0, 0))
    else if bumpType == "minor" then Some(CoreText(v.major, v.minor + 1, 0))
    else if bumpType == "patch" then Some(CoreText(v.major, v.minor, v.patch + 1))
    else if bumpType == "prerelease" then
      if v.prerelease.Some? && v.prerelease.value != [] then
        if Given(prereleaseType) && !(prereleaseType.value <= v.prerelease.value) then
          Some(core + ("-" + (prereleaseType.value + ".1")))
        else Some(core + ("-" + IncrementPre(v.prerelease.value)))
      else Some(core + ("-" + ((if Given(prereleaseType) then prereleaseType.value else "alpha") + ".1")))
    else None
  }

  /** SemanticVersion.bump: the new version parsed from its text; ValueError for an unknown bump type or a text parse refuses. */
  function Bump(v: Version, bumpType: string, prereleaseType: Option<string>): (r: Outcome<Version>)
    ensures r.Ok? ==> ValidVersion(r.value)
    ensures BumpText(v, bumpType, prereleaseType).None? ==> r == Throws("Invalid bump type: " + bumpType)
  {
    match BumpText(v, bumpType, prereleaseType)
    case None => Throws("Invalid bump type: " + bumpType)
    case Some(text) => Parse(text)
  }

  /** (major, minor, patch) ordered lexicographically; the script implements no other precedence. */
  predicate CoreLess(a: Version, b: Version)
  {
    a.major < b.major || (a.major == b.major && (a.minor < b.minor || (a.minor == b.minor && a.patch < b.patch)))
  }

  /** The text of a version without pre-release or build is __str__ of that version. */
  lemma {:induction false} CoreStr(major: nat, minor: nat, patch: nat)
    ensures Str(Version(major, minor, patch, None, None)) == CoreText(major, minor, patch)
  {
    assert Tail(Version(major, minor, patch, None, None)) == [];
  }

  /** The text of a version with a pre-release and no build is __str__ of that version. */
  lemma {:induction false} PreStr(major: nat, minor: nat, patch: nat, pre: string)
    requires pre != []
    ensures Str(Version(major, minor, patch, Some(pre), None)) == CoreText(major, minor, patch) + ("-" + pre)
  {
    assert Tail(Version(major, minor, patch, Some(pre), None)) == "-" + pre;
  }

  /** Major, minor and patch bumps reset the lower parts, drop pre-release and build, and strictly increase the core. */
  lemma {:induction false} BumpRelease(v: Version, bumpType: string, prereleaseType: Option<string>)
    requires bumpType == "major" || bumpType == "minor" || bumpType == "patch"
    ensures Bump(v, bumpType, prereleaseType).Ok?
    ensures var w := Bump(v, bumpType, prereleaseType).value;
      w.prerelease.None? && w.build.None? && CoreLess(v, w)
      && (bumpType == "major" ==> w == Version(v.major + 1, 0, 0, None, None))
      && (bumpType == "minor" ==> w == Version(v.major, v.minor + 1, 0, None, None))
      && (bumpType == "patch" ==> w == Version(v.major, v.minor, v.patch + 1, None, None))
  {
    var w := if bumpType == "major" then Version(v.major + 1, 0, 0, None, None)
      else if bumpType == "minor" then Version(v.major, v.minor + 1, 0, None, None)
      else Version(v.major, v.minor, v.patch + 1, None, None);
    CoreStr(w.major, w.minor, w.patch);
    assert BumpText(v, bumpType, prereleaseType) == Some(Str(w));
    ParseStr(w);
  }

  /** A pre-release bump of a version without one gives {type or "alpha"}.1 on the same core. */
  lemma {:induction false} BumpFreshPrerelease(v: Version, prereleaseType: Option<string>)
    requires v.prerelease.None? || v.prerelease.value == []
    requires !Given(prereleaseType) || IsIdent(prereleaseType.value)
    ensures Bump(v, "prerelease", prereleaseType)
      == Ok(Version(v.major, v.minor, v.patch, Some((if Given(prereleaseType) then prereleaseType.value else "alpha") + ".1"), None))
  {
    var t := if Given(prereleaseType) then prereleaseType.value else "alpha";
    var pre := t + ".1";
    assert IsIdent(pre);
    PreStr(v.major, v.minor, v.patch, pre);
    assert BumpText(v, "prerelease", prereleaseType) == Some(Str(Version(v.major, v.minor, v.patch, Some(pre), None)));
    ParseStr(Version(v.major, v.minor, v.patch, Some(pre), None));
  }

  /** A pre-release bump asking for a type the current pre-release does not start with restarts at {type}.1. */
  lemma {:induction false} BumpSwitchPrerelease(v: Version, prereleaseType: Option<string>)
    requires v.prerelease.Some? && v.prerelease.value != []
    requires Given(prereleaseType) && !(prereleaseType.value <= v.prerelease.value) && IsIdent(prereleaseType.value)
    ensures Bump(v, "prerelease", prereleaseType)
      == Ok(Version(v.major, v.minor, v.patch, Some(prereleaseType.value + ".1"), None))
  {
    var pre := prereleaseType.value + ".1";
    assert IsIdent(pre);
    PreStr(v.major, v.minor, v.patch, pre);
    ParseStr(Version(v.major, v.minor, v.patch, Some(pre), None));
  }

  /**
   * A pre-release bump with no type, or a type the current pre-release
   * starts with, counts up: the counter is incremented, or ".1" appended;
   * the build is dropped.
   */
  lemma {:induction false} BumpCountPrerelease(v: Version, prereleaseType: Option<string>)
    requires ValidVersion(v) && v.prerelease.Some?
    requires !Given(prereleaseType) || prereleaseType.value <= v.prerelease.value
    ensures Bump(v, "prerelease", prereleaseType)
      == Ok(Version(v.major, v.minor, v.patch, Some(IncrementPre(v.prerelease.value)), None))
  {
    var pre := IncrementPre(v.prerelease.value);
    IncrementCounts(v.prerelease.value);
    PreStr(v.major, v.minor, v.patch, pre);
    ParseStr(Version(v.major, v.minor, v.patch, Some(pre), None));
  }

  /** Any bump type other than major, minor, patch and prerelease raises ValueError. */
  lemma {:induction false} BumpUnknown(v: Version, bumpType: string, prereleaseType: Option<string>)
    requires bumpType != "major" && bumpType != "minor" && bumpType != "patch" && bumpType != "prerelease"
    ensures Bump(v, bumpType, prereleaseType) == Throws("Invalid bump type: " + bumpType)
  {
  }

  /** A requested pre-release type with a character outside [a-zA-Z0-9-.] (and no '+') makes the new text unparsable: ValueError. */
  lemma {:induction false} BumpRejectsType(v: Version, prereleaseType: Option<string>)
    requires Given(prereleaseType) && '+' !in prereleaseType.value && !IsIdent(prereleaseType.value)
    requires v.prerelease.None? || v.prerelease.value == [] || !(prereleaseType.value <= v.prerelease.value)
    ensures Bump(v, "prerelease", prereleaseType).Throws?
  {
    var rest := prereleaseType.value + ".1";
    var x := "-" + rest;
    var text := CoreText(v.major, v.minor, v.patch) + x;
    assert BumpText(v, "prerelease", prereleaseType) == Some(text);
    assert Find(rest, '+') == |rest| by {
      assert forall k :: 0 <= k < |rest| ==> rest[k] != '+';
    }
    assert !IsIdent(rest[..|rest|]) by {
      assert rest[..|rest|] == rest;
      var k :| 0 <= k < |prereleaseType.value| && !IsIdentChar(prereleaseType.value[k]);
      assert rest[k] == prereleaseType.value[k];
    }
    assert x[1..] == rest;
    MatchCoreThen(v.major, v.minor, v.patch, x);
    assert text[|text| - 1] == '1';
  }

  /** A zero digit in front of a digit string leaves its value unchanged. */
  lemma {:induction false} ZeroPrefixValue(d: string)
    ensures DigitsValue("0" + d, 10) == DigitsValue(d, 10)
  {
    if d != [] {
      assert ("0" + d)[..|"0" + d| - 1] == "0" + d[..|d| - 1];
      ZeroPrefixValue(d[..|d| - 1]);
    } else {
      assert DigitsValue("0", 10) == DigitsValue("", 10) * 10 + DigitValue('0', 10);
    }
  }

  /** A zero in front of a digit group changes neither its value nor what follows it. */
  lemma {:induction false} ZeroNumber(d: string, rest: string)
    requires AllDigits(d)
    requires rest == [] || !IsDigit(rest[0], 10)
    ensures Number("0" + (d + rest)) == Number(d + rest)
  {
    assert "0" + (d + rest) == ("0" + d) + rest;
    assert AllDigits("0" + d);
    DigitsRead("0" + d, rest);
    DigitsRead(d, rest);
    ZeroPrefixValue(d);
  }

  /** Unlike item 2 of Semantic Versioning 2.0.0, a leading zero is accepted and ignored: parse("0" + str(v)) == v. */
  lemma {:induction false} LeadingZeroAccepted(v: Version)
    requires ValidVersion(v)
    ensures Parse("0" + Str(v)) == Ok(v)
  {
    var t := Str(v);
    ZeroDotted(v);
    ZeroMatch(t);
    MatchStr(v);
    ParseMatched("0" + t);
  }

  /** A text that does not start with 'v' and matches the pattern parses as what it matches. */
  lemma {:induction false} ParseMatched(t: string)
    requires t != [] && t[0] != 'v' && Match(t).Some?
    ensures Parse(t) == Ok(Match(t).value)
  {
    assert StripV(t) == t;
  }

  /** The leading zero disappears into the major number. */
  lemma {:induction false} ZeroDotted(v: Version)
    ensures Dotted("0" + Str(v)) == Dotted(Str(v))
  {
    var d := DecimalText(v.major);
    var rest := "." + (DecimalText(v.minor) + ("." + (DecimalText(v.patch) + Tail(v))));
    CoreShape(v.major, v.minor, v.patch, Tail(v));
    ZeroNumber(d, rest);
  }

  /** Match only looks at the text through its first dotted number. */
  lemma {:induction false} ZeroMatch(t: string)
    requires Dotted("0" + t) == Dotted(t)
    ensures Match("0" + t) == Match(t)
  {
  }
}
