/**
 * A git tag as a version source: its raw name, the version text found in that name,
 * and the decoding of one `git for-each-ref` record line.
 */
module GitTags {
  import opened JavaLang
  import MavenVersions
  import Versions

  /** Field separator of a record line. */
  const SEPARATOR: char := '\U{0001}'

  /**
   * `GitTag`. The explanation supplier is its text, and the commit date is the raw
   * date field (`None` when it was blank): date parsing is not part of this model.
   */
  datatype GitTag = GitTag(
    explanation: string,
    tag: string,
    commitDate: Option<string>,
    subject: string,
    shortCommit: string,
    longCommit: string)

  // ---------------------------------------------------------------------------
  // The pattern v(\d+\.\d+(?:\.\d+)?(?:-[A-Z0-9]+)?), found anywhere in the tag name

  predicate IsTagQualifierChar(c: char) {
    'A' <= c <= 'Z' || IsDigit(c)
  }

  /** The length of the longest prefix of `s` made of `[A-Z0-9]`. */
  function TagQualifierRun(s: string): (n: nat)
    ensures n <= |s|
    ensures forall k :: 0 <= k < n ==> IsTagQualifierChar(s[k])
    ensures n < |s| ==> !IsTagQualifierChar(s[n])
  {
    if |s| == 0 || !IsTagQualifierChar(s[0]) then 0 else 1 + TagQualifierRun(s[1..])
  }

  /** What `[A-Z0-9]+` matches. */
  predicate IsTagQualifierText(q: string) {
    |q| > 0 && forall k :: 0 <= k < |q| ==> IsTagQualifierChar(q[k])
  }

  /** `r` starts with a text the group `(?:-[A-Z0-9]+)` can match. */
  predicate StartsTagQualifier(r: string) {
    |r| >= 2 && r[0] == '-' && IsTagQualifierChar(r[1])
  }

  /** `(?:-([A-Z0-9]+))?` at the start of `r`, taken greedily: the qualifier and the rest. */
  function ScanTagQualifier(r: string): (m: Option<(string, string)>)
    ensures m.Some? ==> IsTagQualifierText(m.value.0) && r == "-" + m.value.0 + m.value.1
                        && (|m.value.1| > 0 ==> !IsTagQualifierChar(m.value.1[0]))
    ensures m.None? <==> !StartsTagQualifier(r)
  {
    if StartsTagQualifier(r) then
      var t := r[1..];
      var n := TagQualifierRun(t);
      var q, rest := t[..n], t[n..];
      assert |rest| > 0 ==> rest[0] == t[n];
      assert r == [r[0]] + t && t == q + rest;
      assert r == "-" + q + rest;
      Some((q, rest))
    else None
  }

  /** The captures the tag pattern can produce: a minor number always, a tag-style qualifier. */
  predicate IsTagShape(t: MavenVersions.VersionText) {
    && MavenVersions.WellFormed(t)
    && t.minor.Some?
    && (t.qualifier.Some? ==> IsTagQualifierText(t.qualifier.value))
  }

  /**
   * What may follow a greedy match with captures `t`: no digit (every digit run is
   * maximal), no qualifier character after a qualifier, and no optional group that was
   * left out but could have matched.
   */
  predicate EndsMatch(t: MavenVersions.VersionText, rest: string) {
    && (|rest| > 0 ==> !IsDigit(rest[0]))
    && (t.qualifier.Some? && |rest| > 0 ==> !IsTagQualifierChar(rest[0]))
    && (t.qualifier.None? ==> !StartsTagQualifier(rest))
    && (t.incremental.None? && t.qualifier.None? ==> MavenVersions.ScanDotNumber(rest).None?)
  }

  /** `(?:\.(\d+))?` at the start of `r`, taken greedily: the optional number and the rest. */
  function ScanIncremental(r: string): (m: (Option<string>, string))
    ensures r == MavenVersions.DotPart(m.0) + m.1
    ensures m.0.Some? ==> IsDigits(m.0.value) && (|m.1| > 0 ==> !IsDigit(m.1[0]))
    ensures m.0.None? ==> MavenVersions.ScanDotNumber(r).None? && m.1 == r
  {
    match MavenVersions.ScanDotNumber(r)
    case None => (None, r)
    case Some((d, rest)) => (Some(d), rest)
  }

  /** `(?:-([A-Z0-9]+))?` at the start of `r`, taken greedily: the optional qualifier and the rest. */
  function ScanOptionalTagQualifier(r: string): (m: (Option<string>, string))
    ensures r == MavenVersions.QualifierPart(m.0) + m.1
    ensures m.0.Some? ==> IsTagQualifierText(m.0.value) && (|m.1| > 0 ==> !IsTagQualifierChar(m.1[0]))
    ensures m.0.None? ==> !StartsTagQualifier(r) && m.1 == r
  {
    match ScanTagQualifier(r)
    case None => (None, r)
    case Some((q, rest)) => (Some(q), rest)
  }

  /**
   * The match of `\d+\.\d+(?:\.\d+)?(?:-[A-Z0-9]+)?` at the start of `r` and the text
   * after it. Each greedy choice succeeds at once, since nothing after the optional
   * groups is required, so this is the first match the regex's backtracking finds;
   * when it fails, no shorter major run can succeed (a digit would stand where `.` is
   * needed), so nothing matches at this position.
   */
  function ScanTagVersion(r: string): (m: Option<(MavenVersions.VersionText, string)>)
    ensures m.None? <==> DigitRun(r) == 0 || MavenVersions.ScanDotNumber(r[DigitRun(r)..]).None?
    ensures m.Some? ==> IsTagShape(m.value.0) && r == MavenVersions.Join(m.value.0) + m.value.1
                        && EndsMatch(m.value.0, m.value.1)
  {
    var n := DigitRun(r);
    if n == 0 then None
    else
      match MavenVersions.ScanDotNumber(r[n..])
      case None => None
      case Some((minor, r2)) =>
        assert r == r[..n] + ("." + minor + r2);
        Some(ScanTagTail(r[..n], minor, r2))
  }

  /** The optional groups of the tag pattern, after `major.minor`. */
  function ScanTagTail(major: string, minor: string, r: string): (m: (MavenVersions.VersionText, string))
    requires IsDigits(major) && IsDigits(minor) && (|r| > 0 ==> !IsDigit(r[0]))
    ensures m.0.major == major && m.0.minor == Some(minor)
    ensures MavenVersions.Join(m.0) + m.1 == major + ("." + minor + r)
    ensures IsTagShape(m.0)
    ensures EndsMatch(m.0, m.1)
  {
    var i := ScanIncremental(r);
    var q := ScanOptionalTagQualifier(i.1);
    var t := MavenVersions.VersionText(major, Some(minor), i.0, q.0);
    JoinThen(t, q.1);
    TagQualifierIsQualifier(q.0);
    (t, q.1)
  }

  /** A match followed by more text, with the concatenations nested to the right. */
  lemma JoinThen(t: MavenVersions.VersionText, rest: string)
    ensures MavenVersions.Join(t) + rest
            == t.major + (MavenVersions.DotPart(t.minor) + (MavenVersions.DotPart(t.incremental)
               + (MavenVersions.QualifierPart(t.qualifier) + rest)))
  {
  }

  lemma TagQualifierIsQualifier(q: Option<string>)
    requires q.Some? ==> IsTagQualifierText(q.value)
    ensures q.Some? ==> MavenVersions.IsQualifierText(q.value)
  {
  }

  lemma ScanIncrementalOf(t: MavenVersions.VersionText, rest: string)
    requires IsTagShape(t) && EndsMatch(t, rest)
    ensures ScanIncremental(MavenVersions.DotPart(t.incremental) + (MavenVersions.QualifierPart(t.qualifier) + rest))
            == (t.incremental, MavenVersions.QualifierPart(t.qualifier) + rest)
  {
    var q := MavenVersions.QualifierPart(t.qualifier) + rest;
    if t.qualifier.Some? {
      assert q[0] == '-';
    }
    if t.incremental.Some? {
      assert MavenVersions.DotPart(t.incremental) + q == "." + t.incremental.value + q;
      MavenVersions.ScanDotNumberOf(t.incremental.value, q);
    } else {
      assert MavenVersions.DotPart(t.incremental) + q == q;
      assert MavenVersions.ScanDotNumber(q).None?;
    }
  }

  lemma ScanOptionalTagQualifierOf(q: Option<string>, rest: string)
    requires q.Some? ==> IsTagQualifierText(q.value) && (|rest| > 0 ==> !IsTagQualifierChar(rest[0]))
    requires q.None? ==> !StartsTagQualifier(rest)
    ensures ScanOptionalTagQualifier(MavenVersions.QualifierPart(q) + rest) == (q, rest)
  {
    if q.Some? {
      var v := q.value;
      var r := MavenVersions.QualifierPart(q) + rest;
      assert r == "-" + v + rest;
      ScanTagQualifierOf(v, rest);
    } else {
      assert MavenVersions.QualifierPart(q) + rest == rest;
    }
  }

  lemma ScanTagQualifierOf(v: string, rest: string)
    requires IsTagQualifierText(v) && (|rest| > 0 ==> !IsTagQualifierChar(rest[0]))
    ensures ScanTagQualifier("-" + v + rest) == Some((v, rest))
  {
    var r := "-" + v + rest;
    assert r[1..] == v + rest;
    TagQualifierRunOf(v, rest);
    assert (v + rest)[..|v|] == v && (v + rest)[|v|..] == rest;
  }

  lemma {:induction false} TagQualifierRunOf(a: string, b: string)
    requires IsTagQualifierText(a) && (|b| > 0 ==> !IsTagQualifierChar(b[0]))
    ensures TagQualifierRun(a + b) == |a|
  {
    assert (a + b)[0] == a[0];
    if |a| == 1 {
      assert (a + b)[1..] == b;
    } else {
      assert (a + b)[1..] == a[1..] + b;
      TagQualifierRunOf(a[1..], b);
    }
  }

  /** Every tag-shaped capture set followed by text that ends the match is recognised. */
  lemma ScanTagVersionOf(t: MavenVersions.VersionText, rest: string)
    requires IsTagShape(t) && EndsMatch(t, rest)
    ensures ScanTagVersion(MavenVersions.Join(t) + rest) == Some((t, rest))
  {
    var q := MavenVersions.QualifierPart(t.qualifier) + rest;
    var i := MavenVersions.DotPart(t.incremental) + q;
    var r := MavenVersions.Join(t) + rest;
    assert r == t.major + ("." + t.minor.value + i);
    MavenVersions.ScanMajorOf(t.major, "." + t.minor.value + i);
    MavenVersions.ScanDotNumberOf(t.minor.value, i);
    ScanIncrementalOf(t, rest);
    ScanOptionalTagQualifierOf(t.qualifier, rest);
  }

  /** The captures of a match starting at position `i` (at its `v`), if any. */
  function MatchAt(s: string, i: nat): (m: Option<MavenVersions.VersionText>)
    requires i < |s|
    ensures m.Some? ==> s[i] == 'v' && IsTagShape(m.value) && MavenVersions.Join(m.value) <= s[i + 1..]
  {
    if s[i] != 'v' then None
    else
      match ScanTagVersion(s[i + 1..])
      case None => None
      case Some((t, rest)) =>
        PrefixOfAppend(MavenVersions.Join(t), rest);
        Some(t)
  }

  lemma PrefixOfAppend(a: string, b: string)
    ensures a <= a + b
  {
    assert (a + b)[..|a|] == a;
  }

  /** The outcome of trying the pattern at each position of `s`, in order. */
  function Attempts(s: string): (a: seq<Option<MavenVersions.VersionText>>)
    ensures |a| == |s| && forall i :: 0 <= i < |s| ==> a[i] == MatchAt(s, i)
  {
    seq(|s|, i requires 0 <= i < |s| => MatchAt(s, i))
  }

  /** The first successful attempt from position `from` on, and its position. */
  function FirstMatch(a: seq<Option<MavenVersions.VersionText>>, from: nat): (f: Option<(nat, MavenVersions.VersionText)>)
    requires from <= |a|
    ensures f.Some? ==> from <= f.value.0 < |a| && a[f.value.0] == Some(f.value.1)
    ensures forall j :: from <= j < |a| && (f.None? || j < f.value.0) ==> a[j].None?
    decreases |a| - from
  {
    if from == |a| then None
    else if a[from].Some? then Some((from, a[from].value))
    else FirstMatch(a, from + 1)
  }

  /**
   * `Matcher.find` from position `from`: the pattern is tried at each position in
   * turn and the first match is taken.
   */
  function Find(s: string, from: nat): (f: Option<(nat, MavenVersions.VersionText)>)
    requires from <= |s|
    ensures f.Some? ==> from <= f.value.0 < |s| && MatchAt(s, f.value.0) == Some(f.value.1)
  {
    FirstMatch(Attempts(s), from)
  }

  /** No position before the one `Find` reports (or, if none, no position at all) matches. */
  lemma FindIsLeftmost(s: string, from: nat, j: nat)
    requires from <= j < |s|
    requires Find(s, from).None? || j < Find(s, from).value.0
    ensures MatchAt(s, j).None?
  {
    var a := Attempts(s);
    assert a[j].None?;
  }

  /** First attempts that fail are skipped. */
  lemma {:induction false} FirstMatchSkips(a: seq<Option<MavenVersions.VersionText>>, from: nat, i: nat)
    requires from <= i <= |a|
    requires forall j :: from <= j < i ==> a[j].None?
    ensures FirstMatch(a, from) == FirstMatch(a, i)
    decreases i - from
  {
    if from < i {
      FirstMatchSkips(a, from + 1, i);
    }
  }

  /** Positions that hold no `v` are skipped by the search. */
  lemma FindSkips(s: string, from: nat, i: nat)
    requires from <= i <= |s|
    requires forall j :: from <= j < i ==> s[j] != 'v'
    ensures Find(s, from) == Find(s, i)
  {
    var a := Attempts(s);
    assert forall j :: from <= j < i ==> a[j].None?;
    FirstMatchSkips(a, from, i);
  }

  // ---------------------------------------------------------------------------
  // GitTag's accessors

  /** `value()`: the raw tag name. */
  function Value(g: GitTag): string {
    g.tag
  }

  /**
   * `versionString()`: group 1 of the leftmost match in the tag name, or the whole tag
   * name when there is none.
   */
  function VersionString(g: GitTag): (s: string)
    ensures Find(g.tag, 0).None? ==> s == g.tag
    ensures Find(g.tag, 0).Some? ==>
              var i := Find(g.tag, 0).value.0;
              g.tag[i] == 'v' && s <= g.tag[i + 1..]
    ensures Find(g.tag, 0).Some? ==> s == MavenVersions.Join(Find(g.tag, 0).value.1)
  {
    match Find(g.tag, 0)
    case None => g.tag
    case Some((_, t)) => MavenVersions.Join(t)
  }

  /** `version()`. */
  function Version(g: GitTag): Result<Versions.Version> {
    Versions.Parse(VersionString(g))
  }

  /**
   * A tag name whose pattern is found always yields a structured, incrementable
   * version (or a number-format failure when a number does not fit an int); only a
   * name without a match can yield the string variant.
   */
  lemma FoundTagIsMaven(g: GitTag)
    ensures Find(g.tag, 0).Some? ==> MavenVersions.Matches(VersionString(g))
    ensures Find(g.tag, 0).Some? ==> Version(g).Failure? || Version(g).value.Maven?
    ensures Find(g.tag, 0).None? ==> Version(g) == Versions.Parse(g.tag)
  {
    if Find(g.tag, 0).Some? {
      MavenVersions.ScanComplete(Find(g.tag, 0).value.1);
      Versions.ParseNeverNull(VersionString(g));
    }
  }

  /**
   * The leftmost match: when the pattern matches at no position before `i`, and the
   * text after the `v` at `i` starts with a greedy match, the search finds that match.
   */
  lemma FindFirst(s: string, i: nat, t: MavenVersions.VersionText, rest: string)
    requires i < |s| && s[i] == 'v' && forall j :: 0 <= j < i ==> MatchAt(s, j).None?
    requires IsTagShape(t) && EndsMatch(t, rest) && s[i + 1..] == MavenVersions.Join(t) + rest
    ensures Find(s, 0) == Some((i, t))
  {
    var a := Attempts(s);
    FirstMatchSkips(a, 0, i);
    MatchAtOf(s, i, t, rest);
    assert a[i] == Some(t);
    assert FirstMatch(a, i) == Some((i, t));
  }

  lemma MatchAtOf(s: string, i: nat, t: MavenVersions.VersionText, rest: string)
    requires i < |s| && s[i] == 'v'
    requires IsTagShape(t) && EndsMatch(t, rest) && s[i + 1..] == MavenVersions.Join(t) + rest
    ensures MatchAt(s, i) == Some(t)
  {
    ScanTagVersionOf(t, rest);
  }

  /** A scoped tag name of the integration tests: the version follows the `v` after the scope. */
  lemma ScopedTagExample(e: string)
    ensures VersionString(GitTag(e, "child1/v2.0.0-CHILD1", None, "", "", "")) == "2.0.0-CHILD1"
  {
    var t := MavenVersions.VersionText("2", Some("0"), Some("0"), Some("CHILD1"));
    var s := "child1/v2.0.0-CHILD1";
    assert IsTagShape(t) && EndsMatch(t, "");
    assert MavenVersions.Join(t) == "2.0.0-CHILD1";
    assert s[8..] == MavenVersions.Join(t) + "";
    assert forall j :: 0 <= j < 7 ==> s[j] != 'v';
    FindFirst(s, 7, t, "");
  }

  /** A root tag name of the integration tests. */
  lemma RootTagExample(e: string)
    ensures VersionString(GitTag(e, "v1.0.0-ROOT", None, "", "", "")) == "1.0.0-ROOT"
  {
    var t := MavenVersions.VersionText("1", Some("0"), Some("0"), Some("ROOT"));
    var s := "v1.0.0-ROOT";
    assert IsTagShape(t) && EndsMatch(t, "");
    assert MavenVersions.Join(t) == "1.0.0-ROOT";
    assert s[1..] == MavenVersions.Join(t) + "";
    FindFirst(s, 0, t, "");
  }

  /** A plain release tag name. */
  lemma PlainTagExample(e: string)
    ensures VersionString(GitTag(e, "v1.0.0", None, "", "", "")) == "1.0.0"
  {
    var t := MavenVersions.VersionText("1", Some("0"), Some("0"), None);
    var s := "v1.0.0";
    assert IsTagShape(t) && EndsMatch(t, "");
    assert MavenVersions.Join(t) == "1.0.0";
    assert s[1..] == MavenVersions.Join(t) + "";
    FindFirst(s, 0, t, "");
  }

  /** A tag with only a major number is not found, so the whole name is the version text. */
  lemma MajorOnlyTagExample(e: string)
    ensures VersionString(GitTag(e, "v1", None, "", "", "")) == "v1"
  {
    var s := "v1";
    assert s[1..] == "1";
    MavenVersions.ScanMajorOf("1", "");
    assert "1"[1..] == "";
    assert MatchAt(s, 0).None?;
    assert MatchAt(s, 1).None?;
    assert Find(s, 0) == Find(s, 1);
  }

  /** A lower-case suffix is not part of the match and is silently dropped. */
  lemma LowerCaseSuffixExample(e: string)
    ensures VersionString(GitTag(e, "v1.0.0-rc1", None, "", "", "")) == "1.0.0"
  {
    var t := MavenVersions.VersionText("1", Some("0"), Some("0"), None);
    var s := "v1.0.0-rc1";
    assert IsTagShape(t) && EndsMatch(t, "-rc1");
    assert MavenVersions.Join(t) == "1.0.0";
    assert s[1..] == MavenVersions.Join(t) + "-rc1";
    FindFirst(s, 0, t, "-rc1");
  }

  // ---------------------------------------------------------------------------
  // Record lines

  /** The five `git for-each-ref` placeholders, in the order `Parse` reads the fields. */
  const PLACEHOLDERS: seq<string> := [
    "%(refname:short)",
    "%(committerdate:format:%Y-%m-%d@%H:%M:%S~%z)",
    "%(subject)",
    "%(objectname:short)",
    "%(objectname)"
  ]

  /** `formatString()`. */
  function FormatString(): string {
    "%(refname:short)" + [SEPARATOR] + "%(committerdate:format:%Y-%m-%d@%H:%M:%S~%z)" + [SEPARATOR]
    + "%(subject)" + [SEPARATOR] + "%(objectname:short)" + [SEPARATOR] + "%(objectname)"
  }

  /** The format string is exactly the five placeholders with a separator between each two. */
  lemma FormatStringFields()
    ensures FormatString() == JoinWith(PLACEHOLDERS, SEPARATOR)
    ensures JavaSplit(FormatString(), SEPARATOR) == PLACEHOLDERS
  {
    var p := PLACEHOLDERS;
    JoinOfFive(p[0], p[1], p[2], p[3], p[4]);
    assert p == [p[0], p[1], p[2], p[3], p[4]];
    PlaceholdersHaveNoSeparator();
    SplitJoin(p, SEPARATOR);
    assert |FormatString()| > 0;
  }

  lemma JoinOfFive(a: string, b: string, c: string, d: string, e: string)
    ensures JoinWith([a, b, c, d, e], SEPARATOR)
            == a + [SEPARATOR] + b + [SEPARATOR] + c + [SEPARATOR] + d + [SEPARATOR] + e
  {
    var f, x := [a, b, c, d, e], [SEPARATOR];
    assert f[1..] == [b, c, d, e] && f[1..][1..] == [c, d, e];
    assert f[1..][1..][1..] == [d, e] && f[1..][1..][1..][1..] == [e];
    assert JoinWith([d, e], SEPARATOR) == d + x + e;
    assert JoinWith([c, d, e], SEPARATOR) == c + x + (d + x + e) == c + x + d + x + e;
    assert JoinWith([b, c, d, e], SEPARATOR) == b + x + (c + x + d + x + e) == b + x + c + x + d + x + e;
    assert JoinWith(f, SEPARATOR) == a + x + (b + x + c + x + d + x + e);
  }

  lemma PlaceholdersHaveNoSeparator()
    ensures forall k :: 0 <= k < |PLACEHOLDERS| ==> SEPARATOR !in PLACEHOLDERS[k]
  {
    forall k | 0 <= k < |PLACEHOLDERS|
      ensures SEPARATOR !in PLACEHOLDERS[k]
    {
      Printable(PLACEHOLDERS[k]);
    }
  }

  /** A text of printable characters holds no separator. */
  lemma Printable(s: string)
    requires forall n :: 0 <= n < |s| ==> s[n] >= ' '
    ensures SEPARATOR !in s
  {
  }

  /**
   * `GitTag.parse`: split the line at the separator (trailing empty fields dropped);
   * fewer than five fields is an `IllegalArgumentException`; a blank date field is no
   * date. Fields after the fifth are ignored.
   */
  function Parse(explanation: string, formatted: string): (r: Result<GitTag>)
    ensures r.Failure? <==> |JavaSplit(formatted, SEPARATOR)| < 5
    ensures r.Failure? ==> r.error == IllegalArgument("Invalid format: " + formatted)
    ensures r.Success? ==> r.value.explanation == explanation
                           && (r.value.commitDate.None? <==> IsBlank(JavaSplit(formatted, SEPARATOR)[1]))
  {
    var split := JavaSplit(formatted, SEPARATOR);
    if |split| < 5 then Failure(IllegalArgument("Invalid format: " + formatted))
    else
      var commitDate := if IsBlank(split[1]) then None else Some(split[1]);
      Success(GitTag(explanation, split[0], commitDate, split[2], split[3], split[4]))
  }

  /** The record line git prints for a tag, under `FormatString()`. */
  function RecordLine(tag: string, date: string, subject: string, shortCommit: string, longCommit: string): string {
    JoinWith([tag, date, subject, shortCommit, longCommit], SEPARATOR)
  }

  /**
   * A record line decodes to its fields in order, when no field holds the separator and
   * the last one (a full commit id) is not empty.
   */
  lemma ParseRecordLine(e: string, tag: string, date: string, subject: string, shortCommit: string, longCommit: string)
    requires SEPARATOR !in tag && SEPARATOR !in date && SEPARATOR !in subject
    requires SEPARATOR !in shortCommit && SEPARATOR !in longCommit
    requires longCommit != ""
    ensures Parse(e, RecordLine(tag, date, subject, shortCommit, longCommit))
            == Success(GitTag(e, tag, if IsBlank(date) then None else Some(date), subject, shortCommit, longCommit))
  {
    var fields := [tag, date, subject, shortCommit, longCommit];
    var line := RecordLine(tag, date, subject, shortCommit, longCommit);
    assert forall k :: 0 <= k < |fields| ==> SEPARATOR !in fields[k];
    SplitJoin(fields, SEPARATOR);
    assert |line| > 0 by {
      assert fields[1..][1..][1..][1..] == [longCommit];
    }
    assert JavaSplit(line, SEPARATOR) == fields;
  }

  /** A line with fewer than four separators is rejected. */
  lemma ParseShortLine(e: string, formatted: string)
    requires Count(formatted, SEPARATOR) < 4
    ensures Parse(e, formatted) == Failure(IllegalArgument("Invalid format: " + formatted))
  {
    JavaSplitCount(formatted, SEPARATOR);
  }
}
