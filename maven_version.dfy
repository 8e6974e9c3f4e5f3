/**
 * The structured version variant: `major[.minor[.incremental]][-qualifier]`, its
 * whole-string grammar, the four increment strategies, `withQualifier` and the renderer.
 */
module MavenVersions {
  import opened JavaLang

  /** A Maven-style version; an absent (null) component or qualifier is `None`. */
  datatype MavenVersion = MavenVersion(
    major: Int32,
    minor: Option<Int32>,
    incremental: Option<Int32>,
    qualifier: Option<string>)

  // ---------------------------------------------------------------------------
  // The grammar ^(\d+)(?:\.(\d+))?(?:\.(\d+))?(?:-([a-zA-Z0-9.-]+))?$

  predicate IsQualifierChar(c: char) {
    'a' <= c <= 'z' || 'A' <= c <= 'Z' || IsDigit(c) || c == '.' || c == '-'
  }

  /** What `[a-zA-Z0-9.-]+` matches. */
  predicate IsQualifierText(q: string) {
    |q| > 0 && forall k :: 0 <= k < |q| ==> IsQualifierChar(q[k])
  }

  /** The text captured by each group of the grammar. */
  datatype VersionText = VersionText(
    major: string,
    minor: Option<string>,
    incremental: Option<string>,
    qualifier: Option<string>)

  /**
   * The captures of some whole-string match. The incremental group can only capture
   * when the minor group does: given the same `.digits` text, the minor group takes it.
   */
  predicate WellFormed(t: VersionText) {
    && IsDigits(t.major)
    && (t.minor.Some? ==> IsDigits(t.minor.value))
    && (t.incremental.Some? ==> t.minor.Some? && IsDigits(t.incremental.value))
    && (t.qualifier.Some? ==> IsQualifierText(t.qualifier.value))
  }

  /** `.digits` for a captured number, nothing for an absent one. */
  function DotPart(n: Option<string>): string {
    if n.Some? then "." + n.value else ""
  }

  /** `-qualifier` for a captured qualifier, nothing for an absent one. */
  function QualifierPart(q: Option<string>): string {
    if q.Some? then "-" + q.value else ""
  }

  /** The string whose match has these captures. */
  function Join(t: VersionText): string {
    t.major + (DotPart(t.minor) + (DotPart(t.incremental) + QualifierPart(t.qualifier)))
  }

  /** `(?:\.(\d+))?` at the start of `r`: the digits and the rest of `r`, or None if absent. */
  function ScanDotNumber(r: string): (m: Option<(string, string)>)
    ensures m.Some? ==> IsDigits(m.value.0) && r == "." + m.value.0 + m.value.1
                        && (|m.value.1| > 0 ==> !IsDigit(m.value.1[0]))
    ensures m.None? ==> |r| == 0 || r[0] != '.' || |r| == 1 || !IsDigit(r[1])
  {
    if |r| > 0 && r[0] == '.' && DigitRun(r[1..]) > 0 then
      var t := r[1..];
      var n := DigitRun(t);
      var d, rest := t[..n], t[n..];
      assert IsDigits(d);
      assert |rest| > 0 ==> rest[0] == t[n];
      assert r == [r[0]] + t && t == d + rest;
      assert r == "." + d + rest;
      Some((d, rest))
    else
      assert |r| > 1 && r[0] == '.' ==> r[1..][0] == r[1];
      None
  }

  /** `(?:-([a-zA-Z0-9.-]+))?$` on all of `r`: the optional qualifier, or None if no match. */
  function ScanQualifier(r: string): (m: Option<Option<string>>)
    ensures m == Some(None) <==> r == ""
    ensures forall q :: m == Some(Some(q)) <==> IsQualifierText(q) && r == "-" + q
  {
    if |r| == 0 then Some(None)
    else if r[0] == '-' && IsQualifierText(r[1..]) then
      assert r == "-" + r[1..];
      Some(Some(r[1..]))
    else None
  }

  /**
   * A whole-string match of the grammar and its captures, or None. Every digit run
   * is taken whole: a shorter run would leave a digit where the grammar needs `.`,
   * `-` or the end, so the regex's backtracking cannot find another match.
   */
  function Scan(s: string): (m: Option<VersionText>)
    ensures m.Some? ==> WellFormed(m.value) && Join(m.value) == s
  {
    var n := DigitRun(s);
    if n == 0 then None
    else
      var major, r := s[..n], s[n..];
      assert s == major + r;
      match ScanDotNumber(r)
      case None =>
        assert DotPart(None) + (DotPart(None) + r) == r;
        ScanQualifierAfter(major, None, None, r)
      case Some((minor, r2)) => ScanIncrementalAfter(major, minor, r2)
  }

  /** The groups after a captured major and minor number, `r2` being the text after the minor. */
  function ScanIncrementalAfter(major: string, minor: string, r2: string): (m: Option<VersionText>)
    requires IsDigits(major) && IsDigits(minor)
    ensures m.Some? ==> WellFormed(m.value) && Join(m.value) == major + ("." + minor + r2)
  {
    match ScanDotNumber(r2)
    case None =>
      assert DotPart(Some(minor)) + (DotPart(None) + r2) == "." + minor + r2;
      ScanQualifierAfter(major, Some(minor), None, r2)
    case Some((incremental, r3)) =>
      assert DotPart(Some(minor)) + (DotPart(Some(incremental)) + r3) == "." + minor + r2;
      ScanQualifierAfter(major, Some(minor), Some(incremental), r3)
  }

  /** The qualifier group on all of `r`, after the numbers captured so far. */
  function ScanQualifierAfter(major: string, minor: Option<string>, incremental: Option<string>, r: string)
    : (m: Option<VersionText>)
    requires IsDigits(major) && (minor.Some? ==> IsDigits(minor.value))
    requires incremental.Some? ==> minor.Some? && IsDigits(incremental.value)
    ensures m.Some? ==> WellFormed(m.value) && Join(m.value) == major + (DotPart(minor) + (DotPart(incremental) + r))
    ensures m.Some? ==> m.value.major == major && m.value.minor == minor && m.value.incremental == incremental
  {
    match ScanQualifier(r)
    case None => None
    case Some(q) => Some(VersionText(major, minor, incremental, q))
  }

  /** `s` matches the structured grammar as a whole. */
  predicate Matches(s: string) {
    Scan(s).Some?
  }

  lemma {:induction false} DigitRunOf(a: string, b: string)
    requires IsDigits(a) && (|b| > 0 ==> !IsDigit(b[0]))
    ensures DigitRun(a + b) == |a|
  {
    assert (a + b)[0] == a[0];
    if |a| == 1 {
      assert (a + b)[1..] == b;
    } else {
      assert (a + b)[1..] == a[1..] + b;
      DigitRunOf(a[1..], b);
    }
  }

  lemma ScanDotNumberOf(d: string, rest: string)
    requires IsDigits(d) && (|rest| > 0 ==> !IsDigit(rest[0]))
    ensures ScanDotNumber("." + d + rest) == Some((d, rest))
  {
    var r := "." + d + rest;
    assert r[1..] == d + rest;
    DigitRunOf(d, rest);
    assert r[1..|d| + 1] == d && r[|d| + 1..] == rest;
  }

  lemma ScanMajorOf(major: string, rest: string)
    requires IsDigits(major) && (|rest| > 0 ==> !IsDigit(rest[0]))
    ensures DigitRun(major + rest) == |major|
    ensures (major + rest)[..|major|] == major && (major + rest)[|major|..] == rest
  {
    DigitRunOf(major, rest);
  }

  /** Every well-formed capture set is recognised, from exactly the string it joins to. */
  lemma ScanComplete(t: VersionText)
    requires WellFormed(t)
    ensures Scan(Join(t)) == Some(t)
  {
    var q := QualifierPart(t.qualifier);
    var i := DotPart(t.incremental) + q;
    var tail := DotPart(t.minor) + i;
    ScanMajorOf(t.major, tail);
    assert ScanQualifier(q) == Some(t.qualifier);
    assert Join(t) == t.major + tail;
    if t.minor.Some? {
      assert tail == "." + t.minor.value + i;
      ScanDotNumberOf(t.minor.value, i);
      if t.incremental.Some? {
        assert i == "." + t.incremental.value + q;
        ScanDotNumberOf(t.incremental.value, q);
        assert ScanQualifierAfter(t.major, t.minor, t.incremental, q) == Some(t);
      } else {
        assert i == q && ScanDotNumber(q).None?;
        assert ScanQualifierAfter(t.major, t.minor, None, q) == Some(t);
      }
      assert ScanIncrementalAfter(t.major, t.minor.value, i) == Some(t);
    } else {
      assert tail == q && ScanDotNumber(q).None?;
      assert ScanQualifierAfter(t.major, None, None, q) == Some(t);
    }
  }

  // ---------------------------------------------------------------------------
  // Parsing

  /** Every captured number fits in an int. */
  predicate Fits(t: VersionText)
    requires WellFormed(t)
  {
    && DigitsValue(t.major) <= INT_MAX
    && (t.minor.Some? ==> DigitsValue(t.minor.value) <= INT_MAX)
    && (t.incremental.Some? ==> DigitsValue(t.incremental.value) <= INT_MAX)
  }

  /** `m` holds the decimal values of the captured numbers and the captured qualifier. */
  predicate Denotes(t: VersionText, m: MavenVersion)
    requires WellFormed(t)
  {
    && m.major == DigitsValue(t.major)
    && (m.minor.Some? <==> t.minor.Some?)
    && (m.minor.Some? ==> m.minor.value == DigitsValue(t.minor.value))
    && (m.incremental.Some? <==> t.incremental.Some?)
    && (m.incremental.Some? ==> m.incremental.value == DigitsValue(t.incremental.value))
    && m.qualifier == t.qualifier
  }

  /** The shape of every version `Parse` returns. */
  predicate IsParsedShape(m: MavenVersion) {
    && m.major >= 0
    && (m.minor.Some? ==> m.minor.value >= 0)
    && (m.incremental.Some? ==> m.minor.Some? && m.incremental.value >= 0)
    && (m.qualifier.Some? ==> IsQualifierText(m.qualifier.value))
  }

  function ParseOptional(t: Option<string>): (r: Result<Option<Int32>>)
    requires t.Some? ==> IsDigits(t.value)
  {
    if t.None? then Success(None)
    else
      var n :- ParseDigits(t.value);
      Success(Some(n))
  }

  /**
   * `MavenVersion.parse`: `Success(None)` (Java's null) when the grammar does not
   * match; a `NumberFormat` failure when it matches but a number does not fit an int.
   */
  function Parse(s: string): (r: Result<Option<MavenVersion>>)
    ensures r == Success(None) <==> !Matches(s)
    ensures r.Failure? <==> Matches(s) && !Fits(Scan(s).value)
    ensures r.Failure? ==> r.error.NumberFormat?
    ensures r.Success? && r.value.Some? ==> Denotes(Scan(s).value, r.value.value)
                                            && IsParsedShape(r.value.value)
  {
    match Scan(s)
    case None => Success(None)
    case Some(t) =>
      var major :- ParseDigits(t.major);
      var minor :- ParseOptional(t.minor);
      var incremental :- ParseOptional(t.incremental);
      Success(Some(MavenVersion(major, minor, incremental, t.qualifier)))
  }

  // ---------------------------------------------------------------------------
  // Rendering

  /** `MavenVersion.toString`. */
  function ToString(m: MavenVersion): (s: string)
    ensures m.qualifier.Some? ==> |s| > |m.qualifier.value|
                                  && s[|s| - |m.qualifier.value| - 1..] == "-" + m.qualifier.value
  {
    IntToString(m.major)
    + (if m.minor.Some? then
         "." + IntToString(m.minor.value)
         + (if m.incremental.Some? then "." + IntToString(m.incremental.value) else "")
       else "")
    + (if m.qualifier.Some? then "-" + m.qualifier.value else "")
  }

  /** What `ToString` prints for each group. */
  function TextOf(m: MavenVersion): VersionText {
    VersionText(
      IntToString(m.major),
      if m.minor.Some? then Some(IntToString(m.minor.value)) else None,
      if m.minor.Some? && m.incremental.Some? then Some(IntToString(m.incremental.value)) else None,
      m.qualifier)
  }

  lemma RenderIsJoin(m: MavenVersion)
    ensures ToString(m) == Join(TextOf(m))
  {
    var t := TextOf(m);
    var a, b, c, q := t.major, DotPart(t.minor), DotPart(t.incremental), QualifierPart(t.qualifier);
    if m.minor.Some? {
      assert ToString(m) == a + (b + c) + q;
    } else {
      assert b == "" && c == "";
      assert ToString(m) == a + "" + q;
    }
    AppendAssociative(a, b + c, q);
    AppendAssociative(b, c, q);
  }

  /** Every captured number is written without a superfluous leading zero. */
  predicate IsCanonicalText(t: VersionText) {
    && IsCanonicalDigits(t.major)
    && (t.minor.Some? ==> IsCanonicalDigits(t.minor.value))
    && (t.incremental.Some? ==> IsCanonicalDigits(t.incremental.value))
  }

  /** Parsing then rendering gives the text back when no number has a leading zero. */
  lemma ParseThenRender(s: string, m: MavenVersion)
    requires Parse(s) == Success(Some(m))
    requires IsCanonicalText(Scan(s).value)
    ensures ToString(m) == s
  {
    var t := Scan(s).value;
    NatToStringOfDigitsValue(t.major);
    if t.minor.Some? {
      NatToStringOfDigitsValue(t.minor.value);
    }
    if t.incremental.Some? {
      NatToStringOfDigitsValue(t.incremental.value);
    }
    assert TextOf(m) == t;
    RenderIsJoin(m);
  }

  /** Rendering then parsing gives the version back, for every version a parse can return. */
  lemma RenderThenParse(m: MavenVersion)
    requires IsParsedShape(m)
    ensures Parse(ToString(m)) == Success(Some(m))
  {
    var t := TextOf(m);
    assert WellFormed(t);
    RenderIsJoin(m);
    ScanComplete(t);
    DigitsValueOfNatToString(m.major);
    if m.minor.Some? {
      DigitsValueOfNatToString(m.minor.value);
    }
    if m.incremental.Some? {
      DigitsValueOfNatToString(m.incremental.value);
    }
    assert Fits(t) && Denotes(t, m);
    ParseDenoting(ToString(m), m);
  }

  /** A matching string whose numbers fit parses to the version its captures denote. */
  lemma ParseDenoting(s: string, m: MavenVersion)
    requires Matches(s) && Fits(Scan(s).value) && Denotes(Scan(s).value, m)
    ensures Parse(s) == Success(Some(m))
  {
  }

  /** The parse results listed in the unit tests. */
  lemma ParseExamples()
    ensures Parse("1") == Success(Some(MavenVersion(1, None, None, None)))
    ensures Parse("1.0") == Success(Some(MavenVersion(1, Some(0), None, None)))
    ensures Parse("1.0.1") == Success(Some(MavenVersion(1, Some(0), Some(1), None)))
    ensures Parse("1.0.1-SNAPSHOT") == Success(Some(MavenVersion(1, Some(0), Some(1), Some("SNAPSHOT"))))
    ensures Parse("1-RC2") == Success(Some(MavenVersion(1, None, None, Some("RC2"))))
    ensures Parse("1.10-WIBBLE") == Success(Some(MavenVersion(1, Some(10), None, Some("WIBBLE"))))
  {
    ParseExample1();
    ParseExample2();
    ParseExample3();
    ParseExample4();
    ParseExample5();
    ParseExample6();
  }

  lemma ParseExample1() ensures Parse("1") == Success(Some(MavenVersion(1, None, None, None)))
  {
    assert IntToString(1) == "1";
    ParseExample(MavenVersion(1, None, None, None), "1");
  }
  lemma ParseExample2() ensures Parse("1.0") == Success(Some(MavenVersion(1, Some(0), None, None)))
  {
    assert IntToString(0) == "0" && IntToString(1) == "1";
    ParseExample(MavenVersion(1, Some(0), None, None), "1.0");
  }
  lemma ParseExample3() ensures Parse("1.0.1") == Success(Some(MavenVersion(1, Some(0), Some(1), None)))
  {
    assert IntToString(0) == "0" && IntToString(1) == "1";
    ParseExample(MavenVersion(1, Some(0), Some(1), None), "1.0.1");
  }
  lemma ParseExample4() ensures Parse("1.0.1-SNAPSHOT") == Success(Some(MavenVersion(1, Some(0), Some(1), Some("SNAPSHOT"))))
  {
    SnapshotRendering();
    ParseExample(MavenVersion(1, Some(0), Some(1), Some("SNAPSHOT")), "1.0.1-SNAPSHOT");
  }
  lemma ParseExample5() ensures Parse("1-RC2") == Success(Some(MavenVersion(1, None, None, Some("RC2"))))
  {
    assert IntToString(1) == "1";
    ParseExample(MavenVersion(1, None, None, Some("RC2")), "1-RC2");
  }
  lemma ParseExample6() ensures Parse("1.10-WIBBLE") == Success(Some(MavenVersion(1, Some(10), None, Some("WIBBLE"))))
  {
    WibbleRendering();
    ParseExample(MavenVersion(1, Some(10), None, Some("WIBBLE")), "1.10-WIBBLE");
  }

  lemma WibbleRendering()
    ensures ToString(MavenVersion(1, Some(10), None, Some("WIBBLE"))) == "1.10-WIBBLE"
    ensures IsParsedShape(MavenVersion(1, Some(10), None, Some("WIBBLE")))
  {
    SmallNumbers();
    assert ToString(MavenVersion(1, Some(10), None, Some("WIBBLE"))) == "1" + ("." + "10" + "") + ("-" + "WIBBLE");
    assert IsQualifierText("WIBBLE");
  }

  lemma SnapshotRendering()
    ensures ToString(MavenVersion(1, Some(0), Some(1), Some("SNAPSHOT"))) == "1.0.1-SNAPSHOT"
    ensures IsParsedShape(MavenVersion(1, Some(0), Some(1), Some("SNAPSHOT")))
  {
    DigitRendering(1, 0, 1, "SNAPSHOT");
    assert DigitChar(1) == '1' && DigitChar(0) == '0';
    assert IsQualifierText("SNAPSHOT");
  }

  /** How Java prints the numbers of the examples. */
  lemma SmallNumbers()
    ensures IntToString(0) == "0" && IntToString(1) == "1" && IntToString(2) == "2"
    ensures IntToString(3) == "3" && IntToString(10) == "10"
  {
    assert NatToString(1) == "1";
  }

  lemma ParseExample(m: MavenVersion, s: string)
    requires IsParsedShape(m) && ToString(m) == s
    ensures Parse(s) == Success(Some(m))
  {
    RenderThenParse(m);
  }

  /** The two strings of the unit tests that the grammar rejects. */
  lemma NoMatchExamples()
    ensures Parse("1.2.3.4") == Success(None)
    ensures Parse("1.x.3-NOTVALID") == Success(None)
  {
    FourNumbersDoNotMatch();
    LetterMinorDoesNotMatch();
  }

  lemma FourNumbersDoNotMatch()
    ensures !Matches("1.2.3.4")
  {
    ScanMajorOf("1", ".2.3.4");
    ScanDotNumberOf("2", ".3.4");
    ScanDotNumberOf("3", ".4");
    assert ScanQualifier(".4") == None;
  }

  lemma LetterMinorDoesNotMatch()
    ensures !Matches("1.x.3-NOTVALID")
  {
    ScanMajorOf("1", ".x.3-NOTVALID");
    assert ScanDotNumber(".x.3-NOTVALID") == None;
    assert ScanQualifier(".x.3-NOTVALID") == None;
  }

  // ---------------------------------------------------------------------------
  // Increment strategies

  datatype IncrementStrategy = OnlyIncremental | OnlyMinor | OnlyMajor | FirstDefined

  /** `IncrementStrategy.apply`; Java `int` arithmetic wraps around. */
  function Apply(strategy: IncrementStrategy, v: MavenVersion, amount: Int32): MavenVersion
    decreases strategy.FirstDefined?
  {
    match strategy
    case OnlyIncremental =>
      MavenVersion(
        v.major,
        Some(v.minor.GetOr(0)),
        Some(if v.incremental.Some? then Add(v.incremental.value, amount) else amount),
        v.qualifier)
    case OnlyMinor =>
      MavenVersion(
        v.major,
        Some(if v.minor.Some? then Add(v.minor.value, amount) else amount),
        v.incremental,
        None)
    case OnlyMajor =>
      MavenVersion(Add(v.major, amount), v.minor, v.incremental, None)
    case FirstDefined =>
      if v.incremental.Some? then Apply(OnlyIncremental, v, amount)
      else if v.minor.Some? then Apply(OnlyMinor, v, amount)
      else Apply(OnlyMajor, v, amount)
  }

  /** `MavenVersion.increment(int)`: the `ONLY_INCREMENTAL` strategy. */
  function Increment(v: MavenVersion, amount: Int32): MavenVersion {
    Apply(OnlyIncremental, v, amount)
  }

  /**
   * Incrementing keeps the major number and the qualifier, keeps a defined minor
   * (never promotes it), materialises a missing minor as 0, and adds `amount` to the
   * incremental number, which starts from 0 when absent.
   */
  lemma IncrementEffect(v: MavenVersion, amount: Int32)
    ensures Increment(v, amount).major == v.major
    ensures Increment(v, amount).qualifier == v.qualifier
    ensures Increment(v, amount).minor == Some(if v.minor.Some? then v.minor.value else 0)
    ensures Increment(v, amount).incremental == Some(Add(v.incremental.GetOr(0), amount))
  {
  }

  /** Incrementing by `a` then `b` is incrementing by `a + b` (in Java int arithmetic). */
  lemma IncrementTwice(v: MavenVersion, a: Int32, b: Int32)
    ensures Increment(Increment(v, a), b) == Increment(v, Add(a, b))
  {
    if v.incremental.Some? {
      AddAssociative(v.incremental.value, a, b);
    }
  }

  /** The increments listed in the unit tests, all by 2. */
  lemma IncrementExamples()
    ensures Increment(MavenVersion(1, None, None, None), 2) == MavenVersion(1, Some(0), Some(2), None)
    ensures Increment(MavenVersion(1, Some(0), None, None), 2) == MavenVersion(1, Some(0), Some(2), None)
    ensures Increment(MavenVersion(1, Some(0), Some(1), None), 2) == MavenVersion(1, Some(0), Some(3), None)
    ensures Increment(MavenVersion(1, Some(0), Some(1), Some("SNAPSHOT")), 2)
            == MavenVersion(1, Some(0), Some(3), Some("SNAPSHOT"))
    ensures Increment(MavenVersion(1, None, None, Some("RC2")), 2) == MavenVersion(1, Some(0), Some(2), Some("RC2"))
    ensures Increment(MavenVersion(1, Some(10), None, Some("WIBBLE")), 2)
            == MavenVersion(1, Some(10), Some(2), Some("WIBBLE"))
  {
  }

  /** `ONLY_MINOR` and `ONLY_MAJOR` drop the qualifier and change only their own number. */
  lemma MinorAndMajorDropQualifier(v: MavenVersion, amount: Int32)
    ensures Apply(OnlyMinor, v, amount).qualifier == None
    ensures Apply(OnlyMajor, v, amount).qualifier == None
    ensures Apply(OnlyMinor, v, amount).major == v.major
    ensures Apply(OnlyMinor, v, amount).incremental == v.incremental
    ensures Apply(OnlyMinor, v, amount).minor == Some(Add(v.minor.GetOr(0), amount))
    ensures Apply(OnlyMajor, v, amount) == MavenVersion(Add(v.major, amount), v.minor, v.incremental, None)
  {
  }

  /** The number `FIRST_DEFINED` aims at: the last one that is defined. */
  function LastDefined(v: MavenVersion): Int32 {
    if v.incremental.Some? then v.incremental.value
    else if v.minor.Some? then v.minor.value
    else v.major
  }

  /**
   * On a version without an incremental-but-no-minor gap, `FIRST_DEFINED` keeps which
   * numbers are defined, adds `amount` to the last defined one and leaves the others
   * alone; it keeps the qualifier exactly when the incremental number is defined.
   */
  lemma FirstDefinedBumpsLastDefined(v: MavenVersion, amount: Int32)
    requires v.incremental.Some? ==> v.minor.Some?
    ensures var r := Apply(FirstDefined, v, amount);
            && r.minor.Some? == v.minor.Some?
            && r.incremental.Some? == v.incremental.Some?
            && LastDefined(r) == Add(LastDefined(v), amount)
            && (v.minor.Some? ==> r.major == v.major)
            && (v.incremental.Some? ==> r.minor == v.minor)
            && (v.incremental.None? ==> r.incremental == v.incremental)
            && (v.minor.None? ==> r.minor == v.minor)
            && (r.qualifier == if v.incremental.Some? then v.qualifier else None)
  {
  }

  // ---------------------------------------------------------------------------
  // Qualifier

  /** `MavenVersion.withQualifier`; `None` (null) removes the qualifier. */
  function WithQualifier(v: MavenVersion, q: Option<string>): MavenVersion {
    v.(qualifier := q)
  }

  /** `withQualifier` keeps every number and replaces any qualifier rather than stacking. */
  lemma WithQualifierReplaces(v: MavenVersion, a: Option<string>, b: Option<string>)
    ensures WithQualifier(v, a).qualifier == a
    ensures WithQualifier(v, a).major == v.major && WithQualifier(v, a).minor == v.minor
    ensures WithQualifier(v, a).incremental == v.incremental
    ensures WithQualifier(WithQualifier(v, a), b) == WithQualifier(v, b)
    ensures WithQualifier(v, v.qualifier) == v
  {
  }

  lemma RenderExample()
    ensures ToString(MavenVersion(1, Some(0), Some(0), None)) == "1.0.0"
  {
    assert IntToString(1) == "1" && IntToString(0) == "0";
  }

  /** The version of the root tag of the integration tests renders as its text and has a parsed shape. */
  lemma RootRendering()
    ensures ToString(MavenVersion(1, Some(0), Some(0), Some("ROOT"))) == "1.0.0-ROOT"
    ensures IsParsedShape(MavenVersion(1, Some(0), Some(0), Some("ROOT")))
  {
    DigitRendering(1, 0, 0, "ROOT");
    assert DigitChar(1) == '1' && DigitChar(0) == '0';
    assert IsQualifierText("ROOT");
  }

  /** The same for the sub-project tag. */
  lemma Child1Rendering()
    ensures ToString(MavenVersion(2, Some(0), Some(0), Some("CHILD1"))) == "2.0.0-CHILD1"
    ensures IsParsedShape(MavenVersion(2, Some(0), Some(0), Some("CHILD1")))
  {
    DigitRendering(2, 0, 0, "CHILD1");
    assert DigitChar(2) == '2' && DigitChar(0) == '0';
    assert IsQualifierText("CHILD1");
  }

  lemma DirtyChild1Rendering()
    ensures ToString(MavenVersion(2, Some(0), Some(0), Some("dirty"))) == "2.0.0-dirty"
  {
    DigitRendering(2, 0, 0, "dirty");
    assert DigitChar(2) == '2' && DigitChar(0) == '0';
  }

  /** 1.0.0 incremented by 3 renders as `1.0.3`. */
  lemma IncrementedRendering()
    ensures ToString(Increment(MavenVersion(1, Some(0), Some(0), None), 3)) == "1.0.3"
  {
    assert Increment(MavenVersion(1, Some(0), Some(0), None), 3) == MavenVersion(1, Some(0), Some(3), None);
    OneDigit(0);
    OneDigit(1);
    OneDigit(3);
    assert DigitChar(0) == '0' && DigitChar(1) == '1' && DigitChar(3) == '3';
  }

  /** A one-digit number renders as its digit. */
  lemma OneDigit(d: Int32)
    requires 0 <= d < 10
    ensures IntToString(d) == [DigitChar(d)]
  {
    assert NatToString(d) == "" + [DigitChar(d % 10)];
  }

  /** A qualified version whose three numbers have one digit each, rendered. */
  lemma DigitRendering(a: Int32, b: Int32, c: Int32, q: string)
    requires 0 <= a < 10 && 0 <= b < 10 && 0 <= c < 10
    ensures ToString(MavenVersion(a, Some(b), Some(c), Some(q))) == [DigitChar(a), '.', DigitChar(b), '.', DigitChar(c), '-'] + q
  {
    OneDigit(a);
    OneDigit(b);
    OneDigit(c);
    Rendering(a, b, c, q);
    var x, y, z := [DigitChar(a)], [DigitChar(b)], [DigitChar(c)];
    assert x + "." + y + "." + z + "-" == [DigitChar(a), '.', DigitChar(b), '.', DigitChar(c), '-'];
  }

  /** A three-number qualified version renders its numbers, dots, dash and qualifier. */
  lemma Rendering(a: Int32, b: Int32, c: Int32, q: string)
    ensures ToString(MavenVersion(a, Some(b), Some(c), Some(q)))
            == IntToString(a) + "." + IntToString(b) + "." + IntToString(c) + "-" + q
  {
    var x, y, z := IntToString(a), IntToString(b), IntToString(c);
    assert ToString(MavenVersion(a, Some(b), Some(c), Some(q))) == x + ("." + y + ("." + z)) + ("-" + q);
    AppendAssociative("." + y, ".", z);
    AppendAssociative(x, "." + y + ".", z);
    AppendAssociative(x, ".", y);
    AppendAssociative(x + "." + y, ".", z);
    AppendAssociative(x + "." + y + "." + z, "-", q);
  }

  /** The qualifier cases of the unit tests. */
  lemma WithQualifierExamples()
    ensures ToString(WithQualifier(MavenVersion(1, None, None, None), Some("stuff"))) == "1-stuff"
    ensures ToString(WithQualifier(MavenVersion(1, Some(2), Some(3), Some("SNAPSHOT")), Some("stuff"))) == "1.2.3-stuff"
    ensures ToString(WithQualifier(MavenVersion(1, Some(2), Some(3), Some("SNAPSHOT")), None)) == "1.2.3"
  {
    var m := MavenVersion(1, Some(2), Some(3), Some("SNAPSHOT"));
    OneDigit(1);
    assert WithQualifier(m, Some("stuff")) == MavenVersion(1, Some(2), Some(3), Some("stuff"));
    DigitRendering(1, 2, 3, "stuff");
    assert DigitChar(1) == '1' && DigitChar(2) == '2' && DigitChar(3) == '3';
    UnqualifiedRendering();
  }

  lemma UnqualifiedRendering()
    ensures ToString(MavenVersion(1, Some(2), Some(3), None)) == "1.2.3"
  {
    OneDigit(1);
    OneDigit(2);
    OneDigit(3);
    assert DigitChar(1) == '1' && DigitChar(2) == '2' && DigitChar(3) == '3';
  }
}
