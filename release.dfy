/**
 * The string logic of the release manager (scripts/release_manager.py):
 * the conventional-commit categorisation and the changelog text of
 * generate_changelog, and the tag, stored version and pre-release flag of
 * create_release_info. git, the clock and the file system are inputs here:
 * the commit log text, the release date and the current commit hash.
 */
module Release {
  import opened Bytes
  import opened ConfigText
  import SemVer

  /** The changelog sections, which are also the commit categories. */
  datatype Category = Feat | Fix | Docs | Style | Refactor | Perf | Test | Chore | Other

  /** The order of changelog_sections, in which the sections are written. */
  const SectionOrder: seq<Category> := [Feat, Fix, Docs, Style, Refactor, Perf, Test, Chore, Other]

  /** The heading of each section. */
  function Title(c: Category): string
  {
    match c
    case Feat => "\U{1F680} New Features"
    case Fix => "\U{1F41B} Bug Fixes"
    case Docs => "\U{1F4DA} Documentation"
    case Style => "\U{1F3A8} Style Changes"
    case Refactor => "\U{267B}\U{FE0F} Code Refactoring"
    case Perf => "\U{26A1} Performance Improvements"
    case Test => "\U{1F9EA} Tests"
    case Chore => "\U{1F527} Maintenance"
    case Other => "\U{1F4CB} Other Changes"
  }

  /** The conventional-commit prefixes, tried in this order. */
  const Prefixes: seq<(string, Category)> := [
    ("feat:", Feat), ("feature:", Feat),
    ("fix:", Fix), ("bugfix:", Fix),
    ("docs:", Docs), ("doc:", Docs),
    ("style:", Style),
    ("refactor:", Refactor),
    ("perf:", Perf), ("performance:", Perf),
    ("test:", Test), ("tests:", Test),
    ("chore:", Chore)]

  /** Every category has a section. */
  lemma {:induction false} EveryCategoryListed(k: Category)
    ensures k in SectionOrder
  {
    match k
    case Feat => assert SectionOrder[0] == k;
    case Fix => assert SectionOrder[1] == k;
    case Docs => assert SectionOrder[2] == k;
    case Style => assert SectionOrder[3] == k;
    case Refactor => assert SectionOrder[4] == k;
    case Perf => assert SectionOrder[5] == k;
    case Test => assert SectionOrder[6] == k;
    case Chore => assert SectionOrder[7] == k;
    case Other => assert SectionOrder[8] == k;
  }

  /** str.isspace: the characters str.strip removes. */
  predicate IsPySpace(c: char)
  {
    c == ' ' || '\t' <= c <= '\r' || '\U{1C}' <= c <= '\U{1F}' || c == '\U{85}' || c == '\U{A0}'
    || c == '\U{1680}' || '\U{2000}' <= c <= '\U{200A}' || c == '\U{2028}' || c == '\U{2029}'
    || c == '\U{202F}' || c == '\U{205F}' || c == '\U{3000}'
  }

  function StripStart(s: string): (r: string)
    ensures |r| <= |s| && (r == [] || !IsPySpace(r[0]))
  {
    if s != [] && IsPySpace(s[0]) then StripStart(s[1..]) else s
  }

  function StripEnd(s: string): (r: string)
    ensures |r| <= |s| && (r == [] || !IsPySpace(r[|r| - 1]))
    ensures r == [] || r[0] == s[0]
  {
    if s != [] && IsPySpace(s[|s| - 1]) then StripEnd(s[..|s| - 1]) else s
  }

  /** str.strip(). */
  function Strip(s: string): (r: string)
    ensures |r| <= |s|
    ensures r == [] || (!IsPySpace(r[0]) && !IsPySpace(r[|r| - 1]))
  {
    StripEnd(StripStart(s))
  }

  /** commit.lower().startswith(prefix); lowering the ASCII letters is enough for these ASCII prefixes. */
  predicate HasPrefix(commit: string, prefix: string)
  {
    prefix <= ToLower(commit)
  }

  /** The prefix loop from position i on: the first matching prefix's category and the stripped text after it, or Other and the whole commit. */
  function ClassifyFrom(commit: string, i: nat): (r: (Category, string))
    requires i <= |Prefixes|
    ensures r.0 == Other <==> forall j :: i <= j < |Prefixes| ==> !HasPrefix(commit, Prefixes[j].0)
    ensures r.0 == Other ==> r.1 == commit
    ensures r.0 != Other ==> exists j :: (i <= j < |Prefixes| && HasPrefix(commit, Prefixes[j].0)
      && (forall k :: i <= k < j ==> !HasPrefix(commit, Prefixes[k].0))
      && r == (Prefixes[j].1, Strip(commit[|Prefixes[j].0|..])))
    decreases |Prefixes| - i
  {
    if i == |Prefixes| then (Other, commit)
    else if HasPrefix(commit, Prefixes[i].0) then (Prefixes[i].1, Strip(commit[|Prefixes[i].0|..]))
    else ClassifyFrom(commit, i + 1)
  }

  /** The category and the text a stripped, non-empty commit subject is filed under. */
  function Classify(commit: string): (r: (Category, string))
  {
    ClassifyFrom(commit, 0)
  }

  /** The first prefix that matches decides, whatever later prefixes match too. */
  lemma {:induction false} ClassifyFirstMatch(commit: string, j: nat)
    requires j < |Prefixes| && HasPrefix(commit, Prefixes[j].0)
    requires forall k :: 0 <= k < j ==> !HasPrefix(commit, Prefixes[k].0)
    ensures Classify(commit) == (Prefixes[j].1, Strip(commit[|Prefixes[j].0|..]))
  {
    ClassifyUpTo(commit, 0, j);
  }

  lemma {:induction false} ClassifyUpTo(commit: string, i: nat, j: nat)
    requires i <= j < |Prefixes| && HasPrefix(commit, Prefixes[j].0)
    requires forall k :: i <= k < j ==> !HasPrefix(commit, Prefixes[k].0)
    ensures ClassifyFrom(commit, i) == (Prefixes[j].1, Strip(commit[|Prefixes[j].0|..]))
    decreases j - i
  {
    if i < j {
      ClassifyUpTo(commit, i + 1, j);
      ClassifySkips(commit, i);
    } else {
      ClassifyHits(commit, i);
    }
  }

  lemma {:induction false} ClassifySkips(commit: string, i: nat)
    requires i < |Prefixes| && !HasPrefix(commit, Prefixes[i].0)
    ensures ClassifyFrom(commit, i) == ClassifyFrom(commit, i + 1)
  {
  }

  lemma {:induction false} ClassifyHits(commit: string, i: nat)
    requires i < |Prefixes| && HasPrefix(commit, Prefixes[i].0)
    ensures ClassifyFrom(commit, i) == (Prefixes[i].1, Strip(commit[|Prefixes[i].0|..]))
  {
  }

  /** Every category starts with an empty list. */
  function EmptyLists(): (m: map<Category, seq<string>>)
    ensures forall k: Category :: k in m && m[k] == []
  {
    var m := map k | k in SectionOrder :: [];
    assert forall k: Category :: k in m by {
      forall k: Category ensures k in m {
        EveryCategoryListed(k);
      }
    }
    m
  }

  /** A map holding a list for every category. */
  predicate Full(m: map<Category, seq<string>>)
  {
    forall k: Category :: k in m
  }

  /** One pass of the categorisation loop: a blank commit is skipped, any other appended to its category's list. */
  function File(m: map<Category, seq<string>>, commit: string): (r: map<Category, seq<string>>)
    requires Full(m)
    ensures Full(r)
    ensures forall k: Category :: m[k] <= r[k]
  {
    var stripped := Strip(commit);
    if stripped == [] then m
    else
      var (category, text) := Classify(stripped);
      m[category := m[category] + [text]]
  }

  /** A blank commit leaves the lists alone; any other is appended, as text, to the list of its category. */
  lemma {:induction false} FileStep(m: map<Category, seq<string>>, commit: string, category: Category, text: string)
    requires Full(m)
    requires Strip(commit) != [] ==> (category, text) == Classify(Strip(commit))
    ensures Strip(commit) == [] ==> File(m, commit) == m
    ensures Strip(commit) != [] ==> File(m, commit) == m[category := m[category] + [text]]
  {
  }

  /** The categorisation loop over the commits, as the lists it has built after the last one. */
  function Categorize(commits: seq<string>): (m: map<Category, seq<string>>)
    ensures Full(m)
  {
    if commits == [] then EmptyLists()
    else File(Categorize(commits[..|commits| - 1]), commits[|commits| - 1])
  }

  /** Categorising one commit more files it into the lists built so far. */
  lemma {:induction false} CategorizeSnoc(commits: seq<string>, i: nat)
    requires i < |commits|
    ensures Categorize(commits[..i + 1]) == File(Categorize(commits[..i]), commits[i])
  {
    assert commits[..i + 1][..i] == commits[..i];
  }

  /** The commits that are not blank once stripped. */
  function NonBlank(commits: seq<string>): nat
  {
    if commits == [] then 0
    else NonBlank(commits[..|commits| - 1]) + (if Strip(commits[|commits| - 1]) == [] then 0 else 1)
  }

  /** The total number of entries over the categories of order. */
  function Total(m: map<Category, seq<string>>, order: seq<Category>): nat
    requires Full(m)
  {
    if order == [] then 0 else Total(m, order[..|order| - 1]) + |m[order[|order| - 1]]|
  }

  /** Appending to one list that order names once raises the total by one. */
  lemma {:induction false} TotalAppend(m: map<Category, seq<string>>, order: seq<Category>, k: Category, text: string)
    requires Full(m)
    requires forall a, b :: 0 <= a < b < |order| ==> order[a] != order[b]
    ensures Total(m[k := m[k] + [text]], order) == Total(m, order) + (if k in order then 1 else 0)
  {
    if order != [] {
      var init := order[..|order| - 1];
      assert forall a, b :: 0 <= a < b < |init| ==> init[a] != init[b];
      TotalAppend(m, init, k, text);
      if k == order[|order| - 1] {
        assert k !in init;
      }
      assert k in order <==> k in init || k == order[|order| - 1];
    }
  }

  /** The empty lists hold nothing. */
  lemma {:induction false} TotalEmpty(order: seq<Category>)
    ensures Total(EmptyLists(), order) == 0
  {
    if order != [] {
      TotalEmpty(order[..|order| - 1]);
    }
  }

  lemma {:induction false} SectionsDistinct()
    ensures forall a, b :: 0 <= a < b < |SectionOrder| ==> SectionOrder[a] != SectionOrder[b]
  {
  }

  /** Every non-blank commit lands in exactly one section, blank ones in none. */
  lemma {:induction false} CategorizeCounts(commits: seq<string>)
    ensures Total(Categorize(commits), SectionOrder) == NonBlank(commits)
  {
    if commits == [] {
      TotalEmpty(SectionOrder);
    } else {
      CategorizeCounts(commits[..|commits| - 1]);
      var commit := Strip(commits[|commits| - 1]);
      if commit != [] {
        var (category, text) := Classify(commit);
        SectionsDistinct();
        EveryCategoryListed(category);
        TotalAppend(Categorize(commits[..|commits| - 1]), SectionOrder, category, text);
      }
    }
  }

  /** The lists only grow: a later commit never removes an earlier entry. */
  lemma {:induction false} CategorizeGrows(commits: seq<string>, n: nat, k: Category)
    requires n <= |commits|
    ensures Categorize(commits[..n])[k] <= Categorize(commits)[k]
    decreases |commits| - n
  {
    if n < |commits| {
      CategorizeGrows(commits[..|commits| - 1], n, k);
      assert commits[..|commits| - 1][..n] == commits[..n];
      assert Categorize(commits) == File(Categorize(commits[..|commits| - 1]), commits[|commits| - 1]);
    } else {
      assert commits[..n] == commits;
    }
  }

  /** Each non-blank commit's text is filed under its category. */
  lemma {:induction false} CategorizeFiles(commits: seq<string>, i: nat)
    requires i < |commits| && Strip(commits[i]) != []
    ensures Classify(Strip(commits[i])).1 in Categorize(commits)[Classify(Strip(commits[i])).0]
  {
    var c := Classify(Strip(commits[i]));
    FiledWhenRead(commits, i);
    CategorizeGrows(commits, i + 1, c.0);
    InPrefix(c.1, Categorize(commits[..i + 1])[c.0], Categorize(commits)[c.0]);
  }

  lemma {:induction false} InPrefix(x: string, a: seq<string>, b: seq<string>)
    requires x in a && a <= b
    ensures x in b
  {
    var j :| 0 <= j < |a| && a[j] == x;
    assert b[j] == x;
  }

  lemma {:induction false} FiledWhenRead(commits: seq<string>, i: nat)
    requires i < |commits| && Strip(commits[i]) != []
    ensures Classify(Strip(commits[i])).1 in Categorize(commits[..i + 1])[Classify(Strip(commits[i])).0]
  {
    var c := Classify(Strip(commits[i]));
    assert commits[..i + 1][..i] == commits[..i];
    assert Categorize(commits[..i + 1]) == File(Categorize(commits[..i]), commits[i]);
    FileStep(Categorize(commits[..i]), commits[i], c.0, c.1);
  }

  /** The prefix loop for one stripped, non-empty commit: the first prefix that matches, else Other. */
  method ClassifyCommit(commit: string) returns (category: Category, text: string)
    ensures (category, text) == Classify(commit)
  {
    var p := 0;
    while p < |Prefixes|
      invariant 0 <= p <= |Prefixes|
      invariant ClassifyFrom(commit, p) == Classify(commit)
    {
      var (prefix, c) := Prefixes[p];
      if HasPrefix(commit, prefix) {
        return c, Strip(commit[|prefix|..]);
      }
      p := p + 1;
    }
    return Other, commit;
  }

  /** The categorisation loop of generate_changelog. */
  method CategorizeCommits(commits: seq<string>) returns (categorized: map<Category, seq<string>>)
    ensures categorized == Categorize(commits)
  {
    categorized := EmptyLists();
    var i := 0;
    while i < |commits|
      invariant 0 <= i <= |commits|
      invariant categorized == Categorize(commits[..i])
    {
      CategorizeSnoc(commits, i);
      var commit := Strip(commits[i]);
      if commit != [] {
        var category, text := ClassifyCommit(commit);
        FileStep(categorized, commits[i], category, text);
        categorized := categorized[category := categorized[category] + [text]];
      } else {
        FileStep(categorized, commits[i], Other, []);
      }
      i := i + 1;
    }
    assert commits[..|commits|] == commits;
  }

  /** One changelog section: its heading, one "- " line per entry, and a blank line. */
  function SectionText(title: string, items: seq<string>): string
  {
    "## " + title + "\n\n" + Items(items) + "\n"
  }

  function Items(items: seq<string>): string
  {
    if items == [] then "" else Items(items[..|items| - 1]) + ("- " + items[|items| - 1] + "\n")
  }

  /** The section loop over the categories of order: every non-empty one written, in that order. */
  function Sections(m: map<Category, seq<string>>, order: seq<Category>): string
    requires Full(m)
  {
    if order == [] then ""
    else
      var k := order[|order| - 1];
      Sections(m, order[..|order| - 1]) + (if m[k] != [] then SectionText(Title(k), m[k]) else "")
  }

  /** The categories of order whose lists are non-empty, in that order. */
  function Emitted(m: map<Category, seq<string>>, order: seq<Category>): (ks: seq<Category>)
    requires Full(m)
    ensures forall k :: k in ks <==> k in order && m[k] != []
  {
    if order == [] then []
    else
      var k := order[|order| - 1];
      Emitted(m, order[..|order| - 1]) + (if m[k] != [] then [k] else [])
  }

  /** The section texts of ks, one after another. */
  function Joined(m: map<Category, seq<string>>, ks: seq<Category>): string
    requires Full(m)
  {
    if ks == [] then "" else Joined(m, ks[..|ks| - 1]) + SectionText(Title(ks[|ks| - 1]), m[ks[|ks| - 1]])
  }

  /** The changelog body is exactly the sections of the non-empty categories, in table order. */
  lemma {:induction false} SectionsAreEmitted(m: map<Category, seq<string>>, order: seq<Category>)
    requires Full(m)
    ensures Sections(m, order) == Joined(m, Emitted(m, order))
  {
    if order != [] {
      var k := order[|order| - 1];
      var init := order[..|order| - 1];
      var e := Emitted(m, init);
      SectionsAreEmitted(m, init);
      if m[k] != [] {
        assert Sections(m, order) == Sections(m, init) + SectionText(Title(k), m[k]);
        assert Emitted(m, order) == e + [k];
        JoinedSnoc(m, e, k);
      } else {
        assert Sections(m, order) == Sections(m, init);
        assert Emitted(m, order) == e;
      }
    }
  }

  lemma {:induction false} JoinedSnoc(m: map<Category, seq<string>>, ks: seq<Category>, k: Category)
    requires Full(m)
    ensures Joined(m, ks + [k]) == Joined(m, ks) + SectionText(Title(k), m[k])
  {
    assert (ks + [k])[..|ks|] == ks;
  }

  /** e is a subsequence of order: its entries appear in order, in the same relative order. */
  predicate Subsequence(e: seq<Category>, order: seq<Category>)
    decreases |order|
  {
    if e == [] then true
    else if order == [] then false
    else if e[|e| - 1] == order[|order| - 1] then Subsequence(e[..|e| - 1], order[..|order| - 1])
    else Subsequence(e, order[..|order| - 1])
  }

  /** The sections come in table order: the emitted categories are a subsequence of order. */
  lemma {:induction false} EmittedInOrder(m: map<Category, seq<string>>, order: seq<Category>)
    requires Full(m)
    ensures Subsequence(Emitted(m, order), order)
  {
    if order != [] {
      var init := order[..|order| - 1];
      var e := Emitted(m, init);
      EmittedInOrder(m, init);
      var k := order[|order| - 1];
      if m[k] != [] {
        assert Emitted(m, order) == e + [k];
        assert (e + [k])[..|e|] == e;
      } else {
        assert Emitted(m, order) == e;
        if e != [] {
          assert e[|e| - 1] in e;
        }
      }
    }
  }

  /** One more category of order adds its section when its list is non-empty. */
  lemma {:induction false} SectionsStep(m: map<Category, seq<string>>, order: seq<Category>, c: nat)
    requires Full(m) && c < |order|
    ensures Sections(m, order[..c + 1]) == Sections(m, order[..c])
      + (if m[order[c]] != [] then SectionText(Title(order[c]), m[order[c]]) else "")
  {
    assert order[..c + 1][..c] == order[..c];
  }

  /** The item loop of one section. */
  method EmitItems(text: string, items: seq<string>) returns (r: string)
    ensures r == text + Items(items)
  {
    r := text;
    var j := 0;
    while j < |items|
      invariant 0 <= j <= |items|
      invariant r == text + Items(items[..j])
    {
      assert items[..j + 1][..j] == items[..j];
      r := r + ("- " + items[j] + "\n");
      j := j + 1;
    }
    assert items[..|items|] == items;
  }

  /** One pass of the section loop: a category with entries adds its heading, its items and a blank line. */
  method EmitSection(changelog: string, title: string, items: seq<string>) returns (r: string)
    ensures r == changelog + (if items != [] then SectionText(title, items) else "")
  {
    r := changelog;
    if items != [] {
      var heading := "## " + title + "\n\n";
      r := EmitItems(changelog + heading, items);
      r := r + "\n";
    }
  }

  /** The section emission of generate_changelog, accumulating the text. */
  method EmitSections(categorized: map<Category, seq<string>>) returns (changelog: string)
    requires Full(categorized)
    ensures changelog == Sections(categorized, SectionOrder)
  {
    changelog := "";
    var c := 0;
    while c < |SectionOrder|
      invariant 0 <= c <= |SectionOrder|
      invariant changelog == Sections(categorized, SectionOrder[..c])
    {
      SectionsStep(categorized, SectionOrder, c);
      var category := SectionOrder[c];
      changelog := EmitSection(changelog, Title(category), categorized[category]);
      c := c + 1;
    }
    assert SectionOrder[..|SectionOrder|] == SectionOrder;
  }

  /** str.split of a one-character separator: the pieces between separators, at least one. */
  function Split(s: string, sep: char): (pieces: seq<string>)
    ensures |pieces| >= 1
    ensures forall k :: 0 <= k < |pieces| ==> sep !in pieces[k]
    decreases |s|
  {
    var i := Find(s, sep);
    if i == |s| then [s] else [s[..i]] + Split(s[i + 1..], sep)
  }

  /** The separator put back between the pieces. */
  function Join(pieces: seq<string>, sep: char): string
  {
    if pieces == [] then "" else if |pieces| == 1 then pieces[0] else pieces[0] + [sep] + Join(pieces[1..], sep)
  }

  /** Joining the pieces of a split gives the text back. */
  lemma {:induction false} SplitJoin(s: string, sep: char)
    ensures Join(Split(s, sep), sep) == s
    decreases |s|
  {
    var i := Find(s, sep);
    if i < |s| {
      var rest := Split(s[i + 1..], sep);
      SplitJoin(s[i + 1..], sep);
      JoinCons(s[..i], rest, sep);
      assert s == s[..i] + [sep] + s[i + 1..];
    } else {
      assert Split(s, sep) == [s];
    }
  }

  lemma {:induction false} JoinCons(first: string, rest: seq<string>, sep: char)
    requires rest != []
    ensures Join([first] + rest, sep) == first + [sep] + Join(rest, sep)
  {
    assert ([first] + rest)[1..] == rest;
  }

  /** The subjects of git log's output: one per line, none when the output is blank. */
  function CommitLines(stdout: string): seq<string>
  {
    var text := Strip(stdout);
    if text == [] then [] else Split(text, '\n')
  }

  /** What git said about the history: no previous version, a failing git log, or its output. */
  datatype History = NoPrevious | LogFailed | Log(stdout: string)

  /** The body of the changelog: the sections of the commits since the previous tag, or a fixed line. */
  function Body(history: History): string
  {
    match history
    case NoPrevious => "- Initial release\n\n"
    case LogFailed => "- Version bump and maintenance updates\n\n"
    case Log(stdout) => Sections(Categorize(CommitLines(stdout)), SectionOrder)
  }

  /** The technical details that close the changelog; the commit hash is cut to eight characters. */
  function Details(date: string, commit: string): string
  {
    "## \U{1F4CB} Technical Details\n\n**Release Date**: " + date
    + "\n**Commit**: " + commit[..Min(8, |commit|)]
    + "\n**Platforms**: Windows, macOS, Linux\n**X-Plane Compatibility**: 11.55+ and 12.x\n\n"
  }

  /** generate_changelog: heading, body and technical details; the date and the commit hash are inputs. */
  function Changelog(version: string, history: History, date: string, commit: string): (text: string)
    ensures "# Release v" + version + "\n\n" <= text
    ensures |text| == |"# Release v" + version + "\n\n"| + |Body(history)| + |Details(date, commit)|
    ensures text[|"# Release v" + version + "\n\n"|..|text| - |Details(date, commit)|] == Body(history)
    ensures text[|text| - |Details(date, commit)|..] == Details(date, commit)
  {
    var heading := "# Release v" + version + "\n\n";
    var body := Body(history);
    var details := Details(date, commit);
    Pieces(heading, body, details);
    heading + body + details
  }

  /** Where the three parts of a concatenation sit. */
  lemma {:induction false} Pieces(a: string, b: string, c: string)
    ensures a <= a + b + c
    ensures (a + b + c)[|a|..|a| + |b|] == b && (a + b + c)[|a| + |b|..] == c
  {
    assert (a + b + c)[..|a|] == a;
  }

  /** The release tag: the version with one 'v' in front, unless it already starts with one. */
  function Tag(version: string): (tag: string)
    ensures tag != [] && tag[0] == 'v'
  {
    if version != [] && version[0] == 'v' then version else "v" + version
  }

  /** Python's `keyword in text`. */
  predicate Contains(text: string, keyword: string)
    decreases |text|
  {
    keyword <= text || (text != [] && Contains(text[1..], keyword))
  }

  /** A text holds no keyword longer than itself. */
  lemma {:induction false} ContainsLength(text: string, keyword: string)
    ensures Contains(text, keyword) ==> |keyword| <= |text|
    decreases |text|
  {
    if text != [] {
      ContainsLength(text[1..], keyword);
    }
  }

  /** Contains means what it says: the keyword occurs at some position. */
  lemma {:induction false} ContainsAt(text: string, keyword: string, i: nat)
    requires i + |keyword| <= |text| && text[i..i + |keyword|] == keyword
    ensures Contains(text, keyword)
    decreases i
  {
    if i > 0 {
      assert text[1..][i - 1..i - 1 + |keyword|] == text[i..i + |keyword|];
      ContainsAt(text[1..], keyword, i - 1);
    }
  }

  /** A keyword starting with a lower-case letter is not in a text that has none. */
  lemma {:induction false} NoLowerNoKeyword(text: string, keyword: string)
    requires forall k :: 0 <= k < |text| ==> !('a' <= text[k] <= 'z')
    requires keyword != [] && 'a' <= keyword[0] <= 'z'
    ensures !Contains(text, keyword)
    decreases |text|
  {
    if text != [] {
      NoLowerNoKeyword(text[1..], keyword);
    }
  }

  /** A release is a pre-release when its lower-cased version names alpha, beta, rc or dev. */
  predicate IsPrerelease(version: string)
    ensures IsPrerelease(version) ==> |version| >= 2
  {
    var lowered := ToLower(version);
    ContainsLength(lowered, "alpha"); ContainsLength(lowered, "beta");
    ContainsLength(lowered, "rc"); ContainsLength(lowered, "dev");
    Contains(lowered, "alpha") || Contains(lowered, "beta") || Contains(lowered, "rc") || Contains(lowered, "dev")
  }

  datatype ReleaseInfo = ReleaseInfo(version: string, tag: string, title: string, description: string, prerelease: bool, draft: bool)

  /** create_release_info, without the assets. */
  function CreateReleaseInfo(version: string, history: History, date: string, commit: string): (info: ReleaseInfo)
    ensures info.tag != [] && info.tag[0] == 'v' && (info.version == [] || info.version[0] != 'v')
    ensures SemVer.StripV(info.tag) == info.version
    ensures "# Release v" + info.version + "\n\n" <= info.description
    ensures !info.draft && info.prerelease == IsPrerelease(version)
  {
    TagAndVersionAgree(version);
    ReleaseInfo(SemVer.StripV(version), Tag(version), "XP2GDL90 Plugin " + version,
                Changelog(SemVer.StripV(version), history, date, commit), IsPrerelease(version), false)
  }

  /** The tag and the stored version name the same version. */
  lemma {:induction false} TagAndVersionAgree(version: string)
    ensures SemVer.StripV(Tag(version)) == SemVer.StripV(version)
    ensures Tag(Tag(version)) == Tag(version)
  {
    if !(version != [] && version[0] == 'v') {
      assert ("v" + version)[1..] == version;
    }
  }

  /** With at most one leading 'v', the tag is "v" and the stored version. */
  lemma {:induction false} TagIsVPlusVersion(version: string)
    requires !(|version| >= 2 && version[0] == 'v' && version[1] == 'v')
    ensures Tag(version) == "v" + SemVer.StripV(version)
  {
    if version != [] && version[0] == 'v' {
      assert version == "v" + version[1..];
      assert SemVer.StripV(version) == SemVer.StripV(version[1..]);
      if |version| >= 2 {
        assert version[1..][0] != 'v';
      }
    }
  }

  /** Letter case never changes whether a version is a pre-release. */
  lemma {:induction false} PrereleaseIgnoresCase(version: string)
    ensures IsPrerelease(ToLower(version)) == IsPrerelease(version)
  {
    ToLowerIdempotent(version);
  }

  /** A text without letters contains no keyword that starts with a letter, even lower-cased. */
  lemma {:induction false} NoLetterNoKeyword(text: string, keyword: string)
    requires forall k :: 0 <= k < |text| ==> !('a' <= text[k] <= 'z') && !('A' <= text[k] <= 'Z')
    requires keyword != [] && 'a' <= keyword[0] <= 'z'
    ensures !Contains(ToLower(text), keyword)
  {
    var t := ToLower(text);
    assert forall k :: 0 <= k < |t| ==> t[k] == LowerChar(text[k]);
    NoLowerNoKeyword(t, keyword);
  }

  /** A plain MAJOR.MINOR.PATCH release is never a pre-release. */
  lemma {:induction false} PlainReleaseIsFinal(major: nat, minor: nat, patch: nat)
    ensures !IsPrerelease(SemVer.Str(SemVer.Version(major, minor, patch, None, None)))
  {
    var s := SemVer.Str(SemVer.Version(major, minor, patch, None, None));
    SemVer.CoreStr(major, minor, patch);
    PlainCoreNoLetters(major, minor, patch);
    NoLetterNoKeyword(s, "alpha");
    NoLetterNoKeyword(s, "beta");
    NoLetterNoKeyword(s, "rc");
    NoLetterNoKeyword(s, "dev");
  }

  /** The core text is digits and dots. */
  lemma {:induction false} PlainCoreNoLetters(major: nat, minor: nat, patch: nat)
    ensures var s := SemVer.CoreText(major, minor, patch);
      forall k :: 0 <= k < |s| ==> IsDigit(s[k], 10) || s[k] == '.'
  {
    var a := DecimalText(major);
    var b := DecimalText(minor);
    var c := DecimalText(patch);
    var s := SemVer.CoreText(major, minor, patch);
    assert s == a + ("." + (b + ("." + c)));
    forall k | 0 <= k < |s|
      ensures IsDigit(s[k], 10) || s[k] == '.'
    {
      if k < |a| {
        assert s[k] == a[k];
      } else if k == |a| {
      } else if k < |a| + 1 + |b| {
        assert s[k] == b[k - |a| - 1];
      } else if k == |a| + 1 + |b| {
      } else {
        assert s[k] == c[k - |a| - 2 - |b|];
      }
    }
  }

  /** Lower-casing keeps a lower-case word where it stands. */
  lemma {:induction false} LowerKeeps(s: string, at: nat, word: string)
    requires at + |word| <= |s| && s[at..at + |word|] == word
    requires forall k :: 0 <= k < |word| ==> 'a' <= word[k] <= 'z'
    ensures ToLower(s)[at..at + |word|] == word
  {
    forall k | 0 <= k < |word|
      ensures ToLower(s)[at + k] == word[k]
    {
      assert s[at + k] == word[k];
    }
  }

  /** A version bumped to an "alpha", "beta" or "rc" pre-release is released as a pre-release. */
  lemma {:induction false} BumpedPrereleaseIsPrerelease(v: SemVer.Version, kind: string)
    requires kind == "alpha" || kind == "beta" || kind == "rc"
    requires v.prerelease.None? || v.prerelease.value == []
    ensures SemVer.Bump(v, "prerelease", Some(kind)).Ok?
    ensures IsPrerelease(SemVer.Str(SemVer.Bump(v, "prerelease", Some(kind)).value))
  {
    SemVer.BumpFreshPrerelease(v, Some(kind));
    SemVer.PreStr(v.major, v.minor, v.patch, kind + ".1");
    NamedPrerelease(SemVer.CoreText(v.major, v.minor, v.patch), kind);
  }

  /** A version text with "-alpha.1", "-beta.1" or "-rc.1" after its core names a pre-release. */
  lemma {:induction false} NamedPrerelease(core: string, kind: string)
    requires kind == "alpha" || kind == "beta" || kind == "rc"
    ensures IsPrerelease(core + ("-" + (kind + ".1")))
  {
    var s := core + ("-" + (kind + ".1"));
    var at := |core| + 1;
    assert s[at..at + |kind|] == kind;
    assert forall k :: 0 <= k < |kind| ==> 'a' <= kind[k] <= 'z' by {
      if kind == "alpha" {
      } else if kind == "beta" {
      } else {
      }
    }
    LowerKeeps(s, at, kind);
    ContainsAt(ToLower(s), kind, at);
  }
}
