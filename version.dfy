/**
 * The `Version` interface: a sum of the Maven-style version and the opaque string
 * version, with `parse` choosing the structured variant whenever the grammar matches.
 */
module Versions {
  import opened JavaLang
  import MavenVersions
  import SimpleStringVersions

  datatype Version =
    | Maven(maven: MavenVersions.MavenVersion)
    | Simple(simple: SimpleStringVersions.SimpleStringVersion)

  /**
   * `Version.parse`: the Maven variant when `MavenVersion.parse` returns a version,
   * otherwise the string variant holding the text unchanged. The only failure is the
   * `NumberFormatException` of a matching text whose number does not fit an int.
   */
  function Parse(s: string): (r: Result<Version>)
    ensures r == Success(Simple(SimpleStringVersions.SimpleStringVersion(s))) <==> !MavenVersions.Matches(s)
    ensures r.Success? && r.value.Maven? <==> MavenVersions.Parse(s).Success? && MavenVersions.Parse(s).value.Some?
    ensures r.Success? && r.value.Maven? ==> MavenVersions.Parse(s) == Success(Some(r.value.maven))
    ensures r.Failure? <==> MavenVersions.Parse(s).Failure?
    ensures r.Failure? ==> MavenVersions.Matches(s) && r.error.NumberFormat?
  {
    var m :- MavenVersions.Parse(s);
    if m.Some? then Success(Maven(m.value))
    else Success(Simple(SimpleStringVersions.SimpleStringVersion(s)))
  }

  predicate IsIncrementable(v: Version) {
    match v
    case Maven(_) => true
    case Simple(sv) => SimpleStringVersions.IsIncrementable(sv)
  }

  /** `increment`: fails, with an unsupported-operation error, exactly on a non-incrementable version. */
  function Increment(v: Version, amount: Int32): (r: Result<Version>)
    ensures r.Failure? <==> !IsIncrementable(v)
    ensures r.Failure? ==> r.error.UnsupportedOperation?
    ensures r.Success? ==> r.value.Maven? && v.Maven?
  {
    match v
    case Maven(mv) => Success(Maven(MavenVersions.Increment(mv, amount)))
    case Simple(sv) =>
      Failure(SimpleStringVersions.Increment(sv, amount).error)
  }

  /** `withQualifier`; `None` is Java's `null`. */
  function WithQualifier(v: Version, q: Option<string>): Version {
    match v
    case Maven(mv) => Maven(MavenVersions.WithQualifier(mv, q))
    case Simple(sv) => Simple(SimpleStringVersions.WithQualifier(sv, q))
  }

  /**
   * `qualifier()`. The interface documents "the qualifier or an empty string", but the
   * Maven record's accessor returns `null` when there is no qualifier, so the result
   * is optional.
   */
  function Qualifier(v: Version): Option<string> {
    match v
    case Maven(mv) => mv.qualifier
    case Simple(sv) => Some(SimpleStringVersions.Qualifier(sv))
  }

  function ToString(v: Version): string {
    match v
    case Maven(mv) => MavenVersions.ToString(mv)
    case Simple(sv) => SimpleStringVersions.ToString(sv)
  }

  /** A qualifier text that `withQualifier` writes and `qualifier()` reads back unchanged. */
  predicate IsPlainQualifier(q: Option<string>) {
    SimpleStringVersions.QUALIFIER_SEPARATOR !in SimpleStringVersions.Concatenated(q)
  }

  /** A parsed version is incrementable exactly when the text matches the Maven grammar. */
  lemma ParseIncrementable(s: string)
    requires Parse(s).Success?
    ensures IsIncrementable(Parse(s).value) <==> MavenVersions.Matches(s)
  {
  }

  /** `parse` never degrades a matching text whose numbers fit to the string variant. */
  lemma ParseNeverNull(s: string)
    ensures MavenVersions.Matches(s) ==> Parse(s).Failure? || Parse(s).value.Maven?
    ensures !MavenVersions.Matches(s) ==> Parse(s).Success? && ToString(Parse(s).value) == s
  {
  }

  /**
   * `toString` gives back a parsed text: always for the string variant, and for the
   * Maven variant when no number has a superfluous leading zero.
   */
  lemma ParseThenRender(s: string)
    requires Parse(s).Success?
    requires MavenVersions.Matches(s) ==> MavenVersions.IsCanonicalText(MavenVersions.Scan(s).value)
    ensures ToString(Parse(s).value) == s
  {
    if Parse(s).value.Maven? {
      MavenVersions.ParseThenRender(s, Parse(s).value.maven);
    }
  }

  /** Every version a parse can yield renders to a text that parses back to it. */
  lemma RenderThenParse(v: Version)
    requires v.Maven? ==> MavenVersions.IsParsedShape(v.maven)
    requires v.Simple? ==> !MavenVersions.Matches(v.simple.value)
    ensures Parse(ToString(v)) == Success(v)
  {
    if v.Maven? {
      MavenVersions.RenderThenParse(v.maven);
    }
  }

  /** Incrementing keeps the qualifier. */
  lemma IncrementKeepsQualifier(v: Version, amount: Int32)
    requires IsIncrementable(v)
    ensures Qualifier(Increment(v, amount).value) == Qualifier(v)
  {
  }

  /** A version given the qualifier `q` renders to a text ending with `-` and `q`, on both variants. */
  lemma QualifiedRendering(v: Version, q: string)
    ensures var s := ToString(WithQualifier(v, Some(q)));
            |s| > |q| && s[|s| - |q| - 1..] == "-" + q
  {
    if v.Simple? {
      var sv := v.simple;
      SimpleStringVersions.WithQualifierKeepsPrefix(sv, q);
      var p := SimpleStringVersions.KeptPrefix(sv);
      var s := SimpleStringVersions.WithQualifier(sv, Some(q)).value;
      assert |p| > 0 && p[|p| - 1] == '-';
      assert s == p + q;
      assert s[|s| - |q| - 1..] == [p[|p| - 1]] + q;
    }
  }

  /**
   * `withQualifier` replaces any existing qualifier rather than appending a second one:
   * the qualifier read back is the one written, and a second call overrides the first.
   * On the string variant this needs the first qualifier to hold no `-`.
   */
  lemma WithQualifierReplaces(v: Version, a: Option<string>, b: Option<string>)
    ensures v.Maven? ==> Qualifier(WithQualifier(v, a)) == a
    ensures v.Simple? && IsPlainQualifier(a) ==>
              Qualifier(WithQualifier(v, a)) == Some(SimpleStringVersions.Concatenated(a))
    ensures v.Maven? || IsPlainQualifier(a) ==>
              WithQualifier(WithQualifier(v, a), b) == WithQualifier(v, b)
    ensures WithQualifier(v, a).Maven? == v.Maven?
  {
    if v.Simple? && IsPlainQualifier(a) {
      var c := SimpleStringVersions.Concatenated(a);
      SimpleStringVersions.WithQualifierKeepsPrefix(v.simple, c);
      SimpleStringVersions.WithQualifierReplaces(v.simple, c, SimpleStringVersions.Concatenated(b));
      if a.None? {
        SimpleStringVersions.WithNullQualifier(v.simple);
      }
      if b.None? {
        SimpleStringVersions.WithNullQualifier(SimpleStringVersions.WithQualifier(v.simple, a));
        SimpleStringVersions.WithNullQualifier(v.simple);
      }
    }
  }
}
