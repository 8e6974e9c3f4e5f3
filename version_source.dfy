/**
 * Where a candidate version comes from: a git tag, or the fallback commit id. Both
 * expose a type, the raw value, an explanation and the version parsed from the value.
 */
module VersionSources {
  import opened JavaLang
  import MavenVersions
  import Versions
  import GitTags

  /** `VersionSource.Type`. */
  datatype SourceType = TAG | COMMIT

  /** The enum constant's name, as string concatenation prints it. */
  function TypeName(t: SourceType): (s: string)
    ensures s == "TAG" <==> t == TAG
    ensures s == "COMMIT" <==> t == COMMIT
  {
    match t
    case TAG => "TAG"
    case COMMIT => "COMMIT"
  }

  /**
   * A version source. `Commit` stands for `version.source.Commit`, which is not part
   * of this model: it is known only from its construction with an explanation and a
   * commit id.
   */
  datatype VersionSource =
    | Tag(tag: GitTags.GitTag)
    | Commit(commitExplanation: string, commitId: string)

  /** `type()`: a tag is always `TAG` (`GitTag.type`), the commit fallback `COMMIT`. */
  function Type(s: VersionSource): (t: SourceType)
    ensures t == TAG <==> s.Tag?
    ensures t == COMMIT <==> s.Commit?
  {
    if s.Tag? then TAG else COMMIT
  }

  /** `value()`: the raw source text (the tag name, or the commit id). */
  function Value(s: VersionSource): string {
    match s
    case Tag(g) => GitTags.Value(g)
    case Commit(_, id) => id
  }

  /** `explanation()`, with the supplier reduced to the text it supplies. */
  function Explanation(s: VersionSource): string {
    match s
    case Tag(g) => g.explanation
    case Commit(e, _) => e
  }

  /**
   * `version()`. For a tag, the parse of the version text found in its name; for the
   * commit fallback, assumed to be the parse of the commit id.
   */
  function Version(s: VersionSource): Result<Versions.Version> {
    match s
    case Tag(g) => GitTags.Version(g)
    case Commit(_, id) => Versions.Parse(id)
  }

  /**
   * `displayString()`: the type, the quoted raw value and the rendered version; it
   * fails only when `version()` does, and never reads the explanation.
   */
  function DisplayString(s: VersionSource): (r: Result<string>)
    ensures r.Failure? <==> Version(s).Failure?
    ensures r.Success? ==>
              var head := TypeName(Type(s)) + " '" + Value(s) + "' interpreted as version=";
              var tail := Versions.ToString(Version(s).value);
              |r.value| == |head| + |tail| && r.value[..|head|] == head && r.value[|head|..] == tail
  {
    var v :- Version(s);
    Success(TypeName(Type(s)) + " '" + Value(s) + "' interpreted as version=" + Versions.ToString(v))
  }

  /** `GitTag.toString`: the display string of the tag as a version source. */
  function TagToString(g: GitTags.GitTag): (r: Result<string>)
    ensures r.Failure? <==> GitTags.Version(g).Failure?
    ensures r.Success? ==>
              var head := "TAG '" + g.tag + "' interpreted as version=";
              |r.value| >= |head| && r.value[..|head|] == head
              && r.value[|head|..] == Versions.ToString(GitTags.Version(g).value)
    ensures r == DisplayString(Tag(g))
  {
    assert TypeName(Type(Tag(g))) == "TAG" && Value(Tag(g)) == g.tag;
    assert "TAG" + " '" == "TAG '";
    DisplayString(Tag(g))
  }

  /** A tag's value is its raw name, while its version is derived from the name alone. */
  lemma TagValueAndVersion(g: GitTags.GitTag, h: GitTags.GitTag)
    ensures Value(Tag(g)) == g.tag && Type(Tag(g)) == TAG
    ensures g.tag == h.tag ==> Version(Tag(g)) == Version(Tag(h))
  {
  }

  /**
   * The explanation is deferred: two sources that differ only in it have the same
   * type, value, version and display string.
   */
  lemma ExplanationIsIrrelevant(s: VersionSource, e: string)
    ensures var t := if s.Tag? then Tag(s.tag.(explanation := e)) else Commit(e, s.commitId);
            && Type(t) == Type(s) && Value(t) == Value(s) && Version(t) == Version(s)
            && DisplayString(t) == DisplayString(s) && Explanation(t) == e
  {
  }

  /** The tag `v1.0.0` yields the Maven version 1.0.0. */
  lemma PlainTagVersion(e: string)
    ensures GitTags.Version(GitTags.GitTag(e, "v1.0.0", None, "", "", ""))
            == Success(Versions.Maven(MavenVersions.MavenVersion(1, Some(0), Some(0), None)))
  {
    var m := MavenVersions.MavenVersion(1, Some(0), Some(0), None);
    GitTags.PlainTagExample(e);
    MavenVersions.RenderExample();
    Versions.RenderThenParse(Versions.Maven(m));
    assert Versions.ToString(Versions.Maven(m)) == "1.0.0";
  }

  /** The display string of the tag `v1.0.0` of the command-line tests. */
  lemma DisplayExample(e: string)
    ensures TagToString(GitTags.GitTag(e, "v1.0.0", None, "", "", ""))
            == Success("TAG 'v1.0.0' interpreted as version=1.0.0")
  {
    var g := GitTags.GitTag(e, "v1.0.0", None, "", "", "");
    var m := MavenVersions.MavenVersion(1, Some(0), Some(0), None);
    PlainTagVersion(e);
    MavenVersions.RenderExample();
    assert TypeName(Type(Tag(g))) == "TAG" && Value(Tag(g)) == "v1.0.0";
    assert Versions.ToString(Versions.Maven(m)) == "1.0.0";
    var x := "TAG" + " '" + "v1.0.0" + "' interpreted as version=" + "1.0.0";
    assert DisplayString(Tag(g)) == Success(x);
    DisplayLiteral();
  }

  lemma DisplayLiteral()
    ensures "TAG" + " '" + "v1.0.0" + "' interpreted as version=" + "1.0.0"
            == "TAG 'v1.0.0' interpreted as version=1.0.0"
  {
  }
}
