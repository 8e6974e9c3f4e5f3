/**
 * `GitVersionProjectWrapper`: resolving a project's version from the state of its git
 * repository. The candidate sources are the project's scoped tags, then the generic
 * `v*` tags, then the commit id; the first candidate is amended by an increment (on an
 * auto-incremented branch, for a tag with commits since it) and by a dirty qualifier.
 */
module Resolver {
  import opened JavaLang
  import MavenVersions
  import Versions
  import SimpleStringVersions
  import GitTags
  import opened VersionSources

  // ---------------------------------------------------------------------------
  // Inputs

  /** The extension's settings: auto-increment branch includes and excludes, dirty qualifier. */
  datatype Config = Config(includes: seq<string>, excludes: seq<string>, dirtyQualifier: string)

  /**
   * What the resolver learns from the build and from git, fixed for one resolution:
   * the Gradle project path (`:a:b`), the project's path relative to the repository
   * root, the tags under `refs/tags/` matching a pattern, most recently committed first
   * (as `git for-each-ref --sort=-committerdate` lists them), the commit id, the branch
   * name, the number of commits in the project's path since a tag, the dirty flag, and
   * the extension's settings when the extension is declared.
   */
  datatype Snapshot = Snapshot(
    projectPath: string,
    repoPath: string,
    tagsMatching: string -> seq<GitTags.GitTag>,
    commitId: string,
    branch: string,
    commitsSince: string -> Int32,
    dirty: bool,
    config: Option<Config>)

  // ---------------------------------------------------------------------------
  // Candidate versions

  /** Each tag as a version source. */
  function Tags(gs: seq<GitTags.GitTag>): (r: seq<VersionSource>)
    ensures |r| == |gs|
    ensures forall i :: 0 <= i < |gs| ==> r[i] == Tag(gs[i])
  {
    if |gs| == 0 then [] else [Tag(gs[0])] + Tags(gs[1..])
  }

  /** The fallback source: the commit id, explained by the project's repository path. */
  function CommitSource(snap: Snapshot): VersionSource {
    Commit("Commit ID on project @ " + snap.repoPath, snap.commitId)
  }

  /** The project path without its leading `:`, trimmed. */
  function ScopePath(snap: Snapshot): string
    requires |snap.projectPath| >= 1
  {
    Trim(snap.projectPath[1..])
  }

  /** The tags scoped to the project: those matching `path/`, none for a blank path. */
  function ScopedTags(snap: Snapshot): seq<GitTags.GitTag>
    requires |snap.projectPath| >= 1
  {
    if IsBlank(ScopePath(snap)) then [] else snap.tagsMatching(ScopePath(snap) + "/")
  }

  /** `candidateVersions()`, as a value. */
  function Candidates(snap: Snapshot): seq<VersionSource>
    requires |snap.projectPath| >= 1
  {
    Tags(ScopedTags(snap)) + Tags(snap.tagsMatching("v*")) + [CommitSource(snap)]
  }

  /**
   * `candidateVersions()`: the generic tags, the scoped tags inserted in front of them
   * when the path is not blank, and the commit source appended.
   */
  method CandidateVersions(snap: Snapshot) returns (tags: seq<VersionSource>)
    requires |snap.projectPath| >= 1
    ensures tags == Candidates(snap)
  {
    var commitId := CommitSource(snap);
    var path := Trim(snap.projectPath[1..]);
    tags := Tags(snap.tagsMatching("v*"));
    if !IsBlank(path) {
      path := path + "/";
      tags := Tags(snap.tagsMatching(path)) + tags;
    } else {
      assert Tags(ScopedTags(snap)) + tags == tags;
    }
    tags := tags + [commitId];
  }

  /**
   * The candidate list is never empty; its last element is the commit source, the
   * only `COMMIT` in it; every tag source comes from the scoped tags (first) or the
   * generic tags (after them).
   */
  lemma CandidatesShape(snap: Snapshot)
    requires |snap.projectPath| >= 1
    ensures var c := Candidates(snap);
            && |c| > 0
            && c[|c| - 1] == CommitSource(snap) && Type(c[|c| - 1]) == COMMIT
            && (forall i :: 0 <= i < |c| - 1 ==> Type(c[i]) == TAG)
            && |c| == |ScopedTags(snap)| + |snap.tagsMatching("v*")| + 1
            && (forall i :: 0 <= i < |ScopedTags(snap)| ==> c[i] == Tag(ScopedTags(snap)[i]))
            && (forall i :: 0 <= i < |snap.tagsMatching("v*")| ==>
                  c[|ScopedTags(snap)| + i] == Tag(snap.tagsMatching("v*")[i]))
  {
    var scoped, generic := ScopedTags(snap), snap.tagsMatching("v*");
    var a, b := Tags(scoped), Tags(generic);
    var c := Candidates(snap);
    assert c == (a + b) + [CommitSource(snap)];
    assert forall i :: 0 <= i < |a| ==> c[i] == a[i];
    assert forall i :: 0 <= i < |b| ==> c[|a| + i] == b[i];
    forall i | 0 <= i < |c| - 1
      ensures Type(c[i]) == TAG
    {
      if i < |a| {
        assert c[i] == Tag(scoped[i]);
      } else {
        assert c[i] == b[i - |a|];
      }
    }
  }

  /**
   * The selected source: `findFirst` of the candidates, which always exists. The first
   * scoped tag wins, else the first generic tag, else the commit id; it is the commit
   * exactly when there is no tag at all.
   */
  function Selected(snap: Snapshot): (s: VersionSource)
    requires |snap.projectPath| >= 1
    ensures |Candidates(snap)| > 0
    ensures var scoped, generic := ScopedTags(snap), snap.tagsMatching("v*");
            s == if |scoped| > 0 then Tag(scoped[0])
                 else if |generic| > 0 then Tag(generic[0])
                 else CommitSource(snap)
    ensures s.Commit? <==> ScopedTags(snap) == [] && snap.tagsMatching("v*") == []
  {
    Candidates(snap)[0]
  }

  /** A blank project path consults only the generic `v*` tags. */
  lemma RootProjectIgnoresScopedTags(snap: Snapshot, tagsMatching: string -> seq<GitTags.GitTag>)
    requires |snap.projectPath| >= 1 && IsBlank(ScopePath(snap))
    requires tagsMatching("v*") == snap.tagsMatching("v*")
    ensures Candidates(snap.(tagsMatching := tagsMatching)) == Candidates(snap)
  {
  }

  // ---------------------------------------------------------------------------
  // Branch rules

  /** The predicate of a branch rule. */
  datatype RuleTest =
    | Always
    | MemberOf(names: seq<string>)
    | NotMemberOf(names: seq<string>)
    | NeitherMainNorMaster

  /** `BranchRule`: a description and a branch-name predicate. */
  datatype BranchRule = BranchRule(description: string, rule: RuleTest)

  predicate Test(t: RuleTest, s: string) {
    match t
    case Always => true
    case MemberOf(names) => s in names
    case NotMemberOf(names) => s !in names
    case NeitherMainNorMaster => !(s == "main" || s == "master")
  }

  /** `Collectors.joining(",", "[", "]")`. */
  function Bracketed(names: seq<string>): (s: string)
    ensures |s| >= 2 && s[0] == '[' && s[|s| - 1] == ']'
  {
    "[" + JoinedWithCommas(names) + "]"
  }

  function JoinedWithCommas(names: seq<string>): string {
    if |names| == 0 then "" else if |names| == 1 then names[0]
    else names[0] + "," + JoinedWithCommas(names[1..])
  }

  /** `branchRules()`. */
  function BranchRules(config: Option<Config>): (rules: seq<BranchRule>)
    ensures |rules| == if config.Some? then 2 else 1
  {
    match config
    case None => [BranchRule("Branch is not 'main' or 'master", NeitherMainNorMaster)]
    case Some(c) =>
      var includeRule :=
        if |c.includes| > 0 then BranchRule("Includes: " + Bracketed(c.includes), MemberOf(c.includes))
        else BranchRule("No includes specified, default include all", Always);
      var excludeRule :=
        if |c.excludes| > 0 then BranchRule("Excludes: " + Bracketed(c.excludes), NotMemberOf(c.excludes))
        else BranchRule("No excludes specified, default exclude none", Always);
      [includeRule, excludeRule]
  }

  /** Every rule accepts the branch name. */
  predicate AcceptedByAll(rules: seq<BranchRule>, s: string) {
    forall i :: 0 <= i < |rules| ==> Test(rules[i].rule, s)
  }

  /**
   * `isAutoIncrementedBranch(s)`: walks the rules and returns false at the first one
   * that rejects `s`; true when none does.
   */
  method IsAutoIncrementedBranch(config: Option<Config>, s: string) returns (b: bool)
    ensures b <==> AcceptedByAll(BranchRules(config), s)
  {
    var rules := BranchRules(config);
    for i := 0 to |rules|
      invariant forall k :: 0 <= k < i ==> Test(rules[k].rule, s)
    {
      if !Test(rules[i].rule, s) {
        return false;
      }
    }
    return true;
  }

  /**
   * Which branches are auto-incremented. Without the extension, every branch but
   * `main` and `master`. With it, a branch in the includes (or any branch, when there
   * are none) that is not in the excludes (or any branch, when there are none).
   */
  lemma IsAutoIncrementedBranchIff(config: Option<Config>, s: string)
    ensures config.None? ==> (AcceptedByAll(BranchRules(config), s) <==> s != "main" && s != "master")
    ensures config.Some? ==>
              (AcceptedByAll(BranchRules(config), s) <==>
                 (|config.value.includes| == 0 || s in config.value.includes)
                 && (|config.value.excludes| == 0 || s !in config.value.excludes))
  {
    var rules := BranchRules(config);
    if config.Some? {
      assert Test(rules[0].rule, s) <==> |config.value.includes| == 0 || s in config.value.includes;
      assert Test(rules[1].rule, s) <==> |config.value.excludes| == 0 || s !in config.value.excludes;
    } else {
      assert Test(rules[0].rule, s) <==> s != "main" && s != "master";
    }
  }

  /** The rule descriptions, in order. */
  lemma BranchRuleDescriptions(c: Config)
    ensures BranchRules(None)[0].description == "Branch is not 'main' or 'master"
    ensures BranchRules(Some(c))[0].description ==
              if |c.includes| > 0 then "Includes: " + Bracketed(c.includes)
              else "No includes specified, default include all"
    ensures BranchRules(Some(c))[1].description ==
              if |c.excludes| > 0 then "Excludes: " + Bracketed(c.excludes)
              else "No excludes specified, default exclude none"
  {
  }

  // ---------------------------------------------------------------------------
  // Amendments

  /** The function of a `VersionAmendment`. */
  datatype Amender = IncrementBy(amount: Int32) | QualifyWith(qualifier: string)

  /** `VersionAmendment`: a description and a version transformation. */
  datatype Amendment = Amendment(description: string, amender: Amender)

  /** `VersionAmendment.amended`. */
  function Amended(a: Amendment, v: Versions.Version): (r: Result<Versions.Version>)
    ensures a.amender.QualifyWith? ==> r.Success?
    ensures r.Failure? ==> a.amender.IncrementBy? && !Versions.IsIncrementable(v)
  {
    match a.amender
    case IncrementBy(n) => Versions.Increment(v, n)
    case QualifyWith(q) => Success(Versions.WithQualifier(v, Some(q)))
  }

  /** The dirty qualifier: the configured one, or `dirty` without the extension. */
  function DirtyQualifier(config: Option<Config>): string {
    if config.Some? then config.value.dirtyQualifier else "dirty"
  }

  function IncrementAmendment(commits: Int32, repoPath: string, branch: string): Amendment {
    Amendment(
      "Increment version, found " + IntToString(commits) + " commits in path " + repoPath
      + ", on an incrementable branch '" + branch + "' ",
      IncrementBy(commits))
  }

  function DirtyAmendment(qualifier: string): Amendment {
    Amendment("Add '" + qualifier + "' qualifier, as repository is dirty", QualifyWith(qualifier))
  }

  /** The branch is auto-incremented and the source is a tag: its version is consulted. */
  predicate ConsultsVersion(snap: Snapshot, source: VersionSource) {
    AcceptedByAll(BranchRules(snap.config), snap.branch) && Type(source) == TAG
  }

  /** The increment amendment is due: the tag's version is incrementable and has commits since. */
  predicate IncrementDue(snap: Snapshot, source: VersionSource) {
    && ConsultsVersion(snap, source)
    && Version(source).Success? && Versions.IsIncrementable(Version(source).value)
    && snap.commitsSince(Value(source)) > 0
  }

  /** The increment part of the amendments; a failure is the exception of `version()`. */
  function Increments(snap: Snapshot, source: VersionSource): Result<seq<Amendment>> {
    if ConsultsVersion(snap, source) then
      var v :- Version(source);
      var commits := snap.commitsSince(Value(source));
      if Versions.IsIncrementable(v) && commits > 0 then
        Success([IncrementAmendment(commits, snap.repoPath, snap.branch)])
      else Success([])
    else Success([])
  }

  /** `amendments(source)`, as a value. */
  function Amendments(snap: Snapshot, source: VersionSource): Result<seq<Amendment>> {
    var increments :- Increments(snap, source);
    Success(increments + if snap.dirty then [DirtyAmendment(DirtyQualifier(snap.config))] else [])
  }

  /** `amendments(source)`: appends the increment, then the dirty qualifier, as they apply. */
  method BuildAmendments(snap: Snapshot, source: VersionSource) returns (r: Result<seq<Amendment>>)
    ensures r == Amendments(snap, source)
  {
    var amendments: seq<Amendment> := [];
    var projectRepoPath := snap.repoPath;
    var branchName := snap.branch;
    var autoIncremented := IsAutoIncrementedBranch(snap.config, branchName);
    if autoIncremented {
      if Type(source) == TAG {
        assert ConsultsVersion(snap, source);
        var version := Version(source);
        if version.Failure? {
          return Failure(version.error);
        }
        if Versions.IsIncrementable(version.value) {
          var commits := snap.commitsSince(Value(source));
          if commits > 0 {
            var increment := IncrementAmendment(commits, projectRepoPath, branchName);
            assert amendments + [increment] == [increment];
            amendments := amendments + [increment];
          }
        }
      } else {
        assert !ConsultsVersion(snap, source);
      }
    } else {
      assert !ConsultsVersion(snap, source);
    }
    assert Increments(snap, source) == Success(amendments);
    AmendmentsAfterIncrements(snap, source, amendments);
    if snap.dirty {
      var qualifier := DirtyQualifier(snap.config);
      amendments := amendments + [DirtyAmendment(qualifier)];
    }
    return Success(amendments);
  }

  lemma AmendmentsAfterIncrements(snap: Snapshot, source: VersionSource, increments: seq<Amendment>)
    requires Increments(snap, source) == Success(increments)
    ensures !snap.dirty ==> Amendments(snap, source) == Success(increments)
    ensures snap.dirty ==> Amendments(snap, source) == Success(increments + [DirtyAmendment(DirtyQualifier(snap.config))])
  {
    assert increments + [] == increments;
  }

  /**
   * The amendment list: it fails exactly when the source's version is consulted and
   * cannot be parsed; otherwise it holds at most two amendments, the increment by the
   * commit count first exactly when it is due, and the dirty qualifier last exactly when
   * the repository is dirty.
   */
  lemma AmendmentsShape(snap: Snapshot, source: VersionSource)
    ensures Amendments(snap, source).Failure? <==> ConsultsVersion(snap, source) && Version(source).Failure?
    ensures Amendments(snap, source).Success? ==>
              var a := Amendments(snap, source).value;
              var n := (if IncrementDue(snap, source) then 1 else 0) + (if snap.dirty then 1 else 0);
              && |a| == n && n <= 2
              && (IncrementDue(snap, source) ==>
                    a[0].amender == IncrementBy(snap.commitsSince(Value(source))))
              && (snap.dirty ==> a[|a| - 1].amender == QualifyWith(DirtyQualifier(snap.config)))
              && (forall i :: 0 <= i < |a| ==> a[i].amender.IncrementBy? ==> i == 0 && IncrementDue(snap, source))
  {
    var inc := Increments(snap, source);
    IncrementsShape(snap, source);
    if inc.Success? {
      AmendmentsAfterIncrements(snap, source, inc.value);
    }
  }

  /** The increment part fails exactly when the consulted version does; otherwise it is the increment when due. */
  lemma IncrementsShape(snap: Snapshot, source: VersionSource)
    ensures Increments(snap, source).Failure? <==> ConsultsVersion(snap, source) && Version(source).Failure?
    ensures Increments(snap, source).Success? ==>
              Increments(snap, source).value ==
                if IncrementDue(snap, source)
                then [IncrementAmendment(snap.commitsSince(Value(source)), snap.repoPath, snap.branch)]
                else []
  {
  }

  // ---------------------------------------------------------------------------
  // The git version

  /** The amendments applied left to right; the first failure stops the fold. */
  function ApplyAll(v: Versions.Version, amendments: seq<Amendment>): Result<Versions.Version>
    decreases |amendments|
  {
    if |amendments| == 0 then Success(v)
    else
      var w :- Amended(amendments[0], v);
      ApplyAll(w, amendments[1..])
  }

  /** `gitVersion()`, as a value. */
  function GitVersion(snap: Snapshot): Result<string>
    requires |snap.projectPath| >= 1
  {
    var selected := Selected(snap);
    var amendments :- Amendments(snap, selected);
    var version :- Version(selected);
    var amended :- ApplyAll(version, amendments);
    Success(Versions.ToString(amended))
  }

  /**
   * `gitVersion()`: selects the first candidate, builds its amendments and applies
   * them in order to the candidate's version.
   */
  method ResolveGitVersion(snap: Snapshot) returns (r: Result<string>)
    requires |snap.projectPath| >= 1
    ensures r == GitVersion(snap)
  {
    var candidates := CandidateVersions(snap);
    var selectedSource := candidates[0];
    var amendments := BuildAmendments(snap, selectedSource);
    if amendments.Failure? {
      return Failure(amendments.error);
    }
    var ams := amendments.value;
    var selectedVersion := Version(selectedSource);
    if selectedVersion.Failure? {
      return Failure(selectedVersion.error);
    }
    var version := selectedVersion.value;
    for i := 0 to |ams|
      invariant ApplyAll(selectedVersion.value, ams) == ApplyAll(version, ams[i..])
    {
      assert ams[i..][0] == ams[i] && ams[i..][1..] == ams[i + 1..];
      var amended := Amended(ams[i], version);
      if amended.Failure? {
        return Failure(amended.error);
      }
      version := amended.value;
    }
    return Success(Versions.ToString(version));
  }

  /**
   * The increment is applied only to an incrementable version, so the unsupported
   * increment error never escapes: the only way resolution fails is a version number
   * that does not fit an int.
   */
  lemma NeverUnsupported(snap: Snapshot)
    requires |snap.projectPath| >= 1
    ensures GitVersion(snap).Failure? ==> GitVersion(snap).error.NumberFormat?
  {
    GitVersionEquation(snap);
  }

  /** Applying a trailing qualifier amendment qualifies whatever the others produced. */
  lemma {:induction false} ApplyQualifierLast(v: Versions.Version, amendments: seq<Amendment>, q: string)
    ensures var r := ApplyAll(v, amendments);
            ApplyAll(v, amendments + [DirtyAmendment(q)])
            == if r.Success? then Success(Versions.WithQualifier(r.value, Some(q))) else r
    decreases |amendments|
  {
    var d := DirtyAmendment(q);
    var all := amendments + [d];
    if |amendments| == 0 {
      assert all == [d];
      assert ApplyAll(v, all) == ApplyAll(Versions.WithQualifier(v, Some(q)), all[1..]);
      assert all[1..] == [];
    } else {
      assert all[0] == amendments[0] && all[1..] == amendments[1..] + [d];
      var w := Amended(amendments[0], v);
      if w.Success? {
        ApplyQualifierLast(w.value, amendments[1..], q);
      }
    }
  }

  /** The increment part applied to the version: the version incremented exactly when due. */
  lemma IncrementsApplied(snap: Snapshot, source: VersionSource, increments: seq<Amendment>)
    requires Version(source).Success? && Increments(snap, source) == Success(increments)
    ensures IncrementDue(snap, source) ==>
              ApplyAll(Version(source).value, increments)
              == Versions.Increment(Version(source).value, snap.commitsSince(Value(source)))
    ensures !IncrementDue(snap, source) ==> ApplyAll(Version(source).value, increments) == Success(Version(source).value)
  {
    var v := Version(source).value;
    if IncrementDue(snap, source) {
      var n := snap.commitsSince(Value(source));
      assert increments == [IncrementAmendment(n, snap.repoPath, snap.branch)];
      assert ApplyAll(v, increments) == ApplyAll(Versions.Increment(v, n).value, increments[1..]);
      assert increments[1..] == [];
    } else {
      assert increments == [];
    }
  }

  /**
   * What resolution yields: it fails exactly when the selected source's version does,
   * with that error; otherwise it renders the selected version, incremented by the
   * commit count when the increment is due, then given the dirty qualifier when the
   * repository is dirty.
   */
  lemma GitVersionEquation(snap: Snapshot)
    requires |snap.projectPath| >= 1
    ensures var sel := Selected(snap);
            && (GitVersion(snap).Failure? <==> Version(sel).Failure?)
            && (GitVersion(snap).Failure? ==> GitVersion(snap).error == Version(sel).error)
            && (GitVersion(snap).Success? ==>
                  var v := Version(sel).value;
                  var w := if IncrementDue(snap, sel) then Versions.Increment(v, snap.commitsSince(Value(sel))).value else v;
                  var x := if snap.dirty then Versions.WithQualifier(w, Some(DirtyQualifier(snap.config))) else w;
                  GitVersion(snap).value == Versions.ToString(x))
  {
    var sel := Selected(snap);
    if Version(sel).Success? {
      var v := Version(sel).value;
      var increments := Increments(snap, sel).value;
      assert Increments(snap, sel) == Success(increments);
      AmendmentsAfterIncrements(snap, sel, increments);
      IncrementsApplied(snap, sel, increments);
      if snap.dirty {
        ApplyQualifierLast(v, increments, DirtyQualifier(snap.config));
      }
    }
  }

  /** A dirty repository's version always ends with `-` and the dirty qualifier. */
  lemma DirtySuffix(snap: Snapshot)
    requires |snap.projectPath| >= 1 && snap.dirty && GitVersion(snap).Success?
    ensures var s, q := GitVersion(snap).value, DirtyQualifier(snap.config);
            |s| > |q| && s[|s| - |q| - 1..] == "-" + q
  {
    var sel := Selected(snap);
    DirtySourceSuffix(snap, sel, GitVersion(snap).value);
  }

  /** The dirty suffix for any source whose amendments and version apply. */
  lemma DirtySourceSuffix(snap: Snapshot, source: VersionSource, s: string)
    requires snap.dirty && Amendments(snap, source).Success? && Version(source).Success?
    requires ApplyAll(Version(source).value, Amendments(snap, source).value).Success?
    requires s == Versions.ToString(ApplyAll(Version(source).value, Amendments(snap, source).value).value)
    ensures var q := DirtyQualifier(snap.config);
            |s| > |q| && s[|s| - |q| - 1..] == "-" + q
  {
    DirtyAmendmentLast(snap, source);
    QualifiedLastSuffix(Version(source).value, Increments(snap, source).value, DirtyQualifier(snap.config), s);
  }

  /** On a dirty repository the amendments are the increments and then the dirty qualifier. */
  lemma DirtyAmendmentLast(snap: Snapshot, source: VersionSource)
    requires snap.dirty && Amendments(snap, source).Success?
    ensures Increments(snap, source).Success?
    ensures Amendments(snap, source).value
            == Increments(snap, source).value + [DirtyAmendment(DirtyQualifier(snap.config))]
  {
  }

  /** Amendments that end with the qualifier render with `-` and the qualifier last. */
  lemma QualifiedLastSuffix(v: Versions.Version, increments: seq<Amendment>, q: string, s: string)
    requires ApplyAll(v, increments + [DirtyAmendment(q)]).Success?
    requires s == Versions.ToString(ApplyAll(v, increments + [DirtyAmendment(q)]).value)
    ensures |s| > |q| && s[|s| - |q| - 1..] == "-" + q
  {
    ApplyQualifierLast(v, increments, q);
    var r := ApplyAll(v, increments);
    QualifiedSuffix(s, r.value, q);
  }

  lemma QualifiedSuffix(s: string, w: Versions.Version, q: string)
    requires s == Versions.ToString(Versions.WithQualifier(w, Some(q)))
    ensures |s| > |q| && s[|s| - |q| - 1..] == "-" + q
  {
    Versions.QualifiedRendering(w, q);
  }

  /** Without an increment and on a clean repository, the selected version renders untouched. */
  lemma CleanAndUnincremented(snap: Snapshot)
    requires |snap.projectPath| >= 1 && !snap.dirty && !IncrementDue(snap, Selected(snap))
    requires Version(Selected(snap)).Success?
    ensures GitVersion(snap) == Success(Versions.ToString(Version(Selected(snap)).value))
  {
    GitVersionEquation(snap);
  }

  // ---------------------------------------------------------------------------
  // Scenarios

  /** The version of a tag whose version text is the rendering of a parsed-shape Maven version. */
  lemma TagVersion(g: GitTags.GitTag, m: MavenVersions.MavenVersion)
    requires MavenVersions.IsParsedShape(m) && GitTags.VersionString(g) == MavenVersions.ToString(m)
    ensures Version(Tag(g)) == Success(Versions.Maven(m))
  {
    Versions.RenderThenParse(Versions.Maven(m));
  }

  const ROOT_TAG := GitTags.GitTag("", "v1.0.0-ROOT", None, "", "", "")
  const CHILD1_TAG := GitTags.GitTag("", "child1/v2.0.0-CHILD1", None, "", "", "")
  const RELEASE_TAG := GitTags.GitTag("", "v1.0.0", None, "", "", "")

  lemma RootTagVersion()
    ensures Version(Tag(ROOT_TAG)) == Success(Versions.Maven(MavenVersions.MavenVersion(1, Some(0), Some(0), Some("ROOT"))))
    ensures Versions.ToString(Version(Tag(ROOT_TAG)).value) == "1.0.0-ROOT"
  {
    var m := MavenVersions.MavenVersion(1, Some(0), Some(0), Some("ROOT"));
    GitTags.RootTagExample("");
    MavenVersions.RootRendering();
    TagVersion(ROOT_TAG, m);
  }

  lemma Child1TagVersion()
    ensures Version(Tag(CHILD1_TAG)) == Success(Versions.Maven(MavenVersions.MavenVersion(2, Some(0), Some(0), Some("CHILD1"))))
    ensures Versions.ToString(Version(Tag(CHILD1_TAG)).value) == "2.0.0-CHILD1"
  {
    var m := MavenVersions.MavenVersion(2, Some(0), Some(0), Some("CHILD1"));
    GitTags.ScopedTagExample("");
    MavenVersions.Child1Rendering();
    TagVersion(CHILD1_TAG, m);
  }

  /** The root project `:` has no scoped tags; `:child1` has those matching `child1/`. */
  lemma ScopePaths(snap: Snapshot)
    ensures snap.projectPath == ":" ==> ScopedTags(snap) == []
    ensures snap.projectPath == ":child1" ==> ScopedTags(snap) == snap.tagsMatching("child1/")
  {
    if snap.projectPath == ":" {
      assert snap.projectPath[1..] == "";
      TrimFixed("");
    }
    if snap.projectPath == ":child1" {
      assert snap.projectPath[1..] == "child1";
      Child1Scope();
    }
  }

  lemma Child1Scope()
    ensures Trim("child1") == "child1" && !IsBlank("child1") && "child1" + "/" == "child1/"
  {
    TrimFixed("child1");
    assert !IsWhitespace("child1"[0]);
  }

  /** The root project selects the first generic tag, or the commit id when there is none. */
  lemma RootSelects(snap: Snapshot)
    requires snap.projectPath == ":"
    ensures Selected(snap) ==
              if |snap.tagsMatching("v*")| > 0 then Tag(snap.tagsMatching("v*")[0]) else CommitSource(snap)
  {
    ScopePaths(snap);
  }

  /** The sub-project `:child1` selects its first scoped tag. */
  lemma Child1Selects(snap: Snapshot)
    requires snap.projectPath == ":child1" && |snap.tagsMatching("child1/")| > 0
    ensures Selected(snap) == Tag(snap.tagsMatching("child1/")[0])
  {
    ScopePaths(snap);
  }

  /** A root project whose only generic tag `v1.0.0-ROOT` is on the current commit, on a clean repository. */
  lemma RootTagScenario(snap: Snapshot)
    requires snap.projectPath == ":" && snap.tagsMatching("v*") == [ROOT_TAG]
    requires snap.commitsSince(ROOT_TAG.tag) == 0 && !snap.dirty
    ensures GitVersion(snap) == Success("1.0.0-ROOT")
  {
    RootSelects(snap);
    RootTagVersion();
    CleanAndUnincremented(snap);
  }

  /**
   * The sub-project `:child1` with its scoped tag `child1/v2.0.0-CHILD1` on the current
   * commit takes that tag over any generic one, whatever the branch and the settings.
   */
  lemma SubprojectTagScenario(snap: Snapshot)
    requires snap.projectPath == ":child1" && snap.tagsMatching("child1/") == [CHILD1_TAG]
    requires snap.commitsSince(CHILD1_TAG.tag) == 0 && !snap.dirty
    ensures GitVersion(snap) == Success("2.0.0-CHILD1")
  {
    Child1Selects(snap);
    Child1TagVersion();
    CleanAndUnincremented(snap);
  }

  /**
   * The tag `v1.0.0` with commits since it on a clean repository without the extension:
   * `master` is not auto-incremented and keeps 1.0.0.
   */
  lemma ReleaseOnMasterScenario(snap: Snapshot)
    requires snap.projectPath == ":" && snap.tagsMatching("v*") == [RELEASE_TAG]
    requires snap.branch == "master" && snap.config.None? && !snap.dirty
    ensures GitVersion(snap) == Success("1.0.0")
  {
    ReleaseTagVersion();
    RootSelects(snap);
    IsAutoIncrementedBranchIff(None, "master");
    assert !IncrementDue(snap, Selected(snap));
    CleanAndUnincremented(snap);
  }

  lemma ReleaseTagVersion()
    ensures Version(Tag(RELEASE_TAG)) == Success(Versions.Maven(MavenVersions.MavenVersion(1, Some(0), Some(0), None)))
    ensures Versions.ToString(Version(Tag(RELEASE_TAG)).value) == "1.0.0"
  {
    VersionSources.PlainTagVersion("");
    MavenVersions.RenderExample();
  }

  /**
   * The same with 3 commits since the tag on a branch other than `main` and `master`,
   * which is auto-incremented: the incremental number becomes 3.
   */
  lemma ReleaseOnFeatureBranchScenario(snap: Snapshot)
    requires snap.projectPath == ":" && snap.tagsMatching("v*") == [RELEASE_TAG]
    requires snap.branch != "main" && snap.branch != "master" && snap.config.None? && !snap.dirty
    requires snap.commitsSince(RELEASE_TAG.tag) == 3
    ensures GitVersion(snap) == Success("1.0.3")
  {
    var m := MavenVersions.MavenVersion(1, Some(0), Some(0), None);
    ReleaseTagVersion();
    RootSelects(snap);
    IsAutoIncrementedBranchIff(None, snap.branch);
    assert Value(Selected(snap)) == RELEASE_TAG.tag;
    assert IncrementDue(snap, Selected(snap));
    IncrementedAndClean(snap, m);
    MavenVersions.IncrementedRendering();
  }

  /** With the increment due on a clean repository, the version is the Maven version incremented by the commit count. */
  lemma IncrementedAndClean(snap: Snapshot, m: MavenVersions.MavenVersion)
    requires |snap.projectPath| >= 1 && !snap.dirty && IncrementDue(snap, Selected(snap))
    requires Version(Selected(snap)) == Success(Versions.Maven(m))
    ensures GitVersion(snap)
            == Success(MavenVersions.ToString(MavenVersions.Increment(m, snap.commitsSince(Value(Selected(snap))))))
  {
    GitVersionEquation(snap);
  }

  /** A scoped tag on a dirty repository without the extension: `dirty` replaces the tag's qualifier. */
  lemma DirtyScopedTagScenario(snap: Snapshot)
    requires snap.projectPath == ":child1" && snap.tagsMatching("child1/") == [CHILD1_TAG]
    requires snap.commitsSince(CHILD1_TAG.tag) == 0 && snap.dirty && snap.config.None?
    ensures GitVersion(snap) == Success("2.0.0-dirty")
  {
    Child1Selects(snap);
    Child1TagVersion();
    GitVersionEquation(snap);
    MavenVersions.DirtyChild1Rendering();
  }

  /**
   * No tags at all, and a commit id outside the Maven grammar: the version is the commit
   * id, on any branch and with any settings, and a dirty repository appends `-` and the
   * dirty qualifier to an id without a `-`.
   */
  lemma CommitIdScenario(snap: Snapshot)
    requires |snap.projectPath| >= 1 && ScopedTags(snap) == [] && snap.tagsMatching("v*") == []
    requires !MavenVersions.Matches(snap.commitId)
    ensures !snap.dirty ==> GitVersion(snap) == Success(snap.commitId)
    ensures snap.dirty && '-' !in snap.commitId ==>
              GitVersion(snap) == Success(snap.commitId + "-" + DirtyQualifier(snap.config))
  {
    var id := snap.commitId;
    assert Versions.Parse(id) == Success(Versions.Simple(SimpleStringVersions.SimpleStringVersion(id)));
    GitVersionEquation(snap);
    if snap.dirty && '-' !in id {
      assert LastIndexOf(id, '-') == -1;
    }
  }

  /** The commit id of the plugin test scenario, `abc1234`, clean and dirty. */
  lemma CommitIdExample(snap: Snapshot)
    requires |snap.projectPath| >= 1 && ScopedTags(snap) == [] && snap.tagsMatching("v*") == []
    requires snap.commitId == "abc1234"
    ensures !snap.dirty ==> GitVersion(snap) == Success("abc1234")
    ensures snap.dirty ==> GitVersion(snap) == Success("abc1234-" + DirtyQualifier(snap.config))
  {
    CommitIdVersion(DirtyQualifier(snap.config));
    CommitIdScenario(snap);
  }

  /**
   * A short commit id made only of digits is read as a Maven version: resolution fails
   * when its value does not fit an int, and otherwise renders the value, which drops
   * any leading zero, so that such an id is not reproduced.
   */
  lemma DigitCommitIdScenario(snap: Snapshot)
    requires |snap.projectPath| >= 1 && ScopedTags(snap) == [] && snap.tagsMatching("v*") == []
    requires IsDigits(snap.commitId) && !snap.dirty
    ensures GitVersion(snap).Failure? <==> DigitsValue(snap.commitId) > INT_MAX
    ensures GitVersion(snap).Success? ==> GitVersion(snap).value == NatToString(DigitsValue(snap.commitId))
    ensures GitVersion(snap).Success? && |snap.commitId| > 1 && snap.commitId[0] == '0' ==>
              GitVersion(snap).value != snap.commitId
  {
    var id := snap.commitId;
    var t := MavenVersions.VersionText(id, None, None, None);
    assert MavenVersions.Join(t) == id;
    MavenVersions.ScanComplete(t);
    GitVersionEquation(snap);
    if DigitsValue(id) <= INT_MAX {
      var m := MavenVersions.MavenVersion(DigitsValue(id), None, None, None);
      assert MavenVersions.Parse(id) == Success(Some(m));
      assert MavenVersions.ToString(m) == NatToString(DigitsValue(id));
    }
  }

  /** The commit id `abc1234` does not match the grammar; qualified, it gains `-` and the qualifier. */
  lemma CommitIdVersion(q: string)
    ensures Versions.Parse("abc1234") == Success(Versions.Simple(SimpleStringVersions.SimpleStringVersion("abc1234")))
    ensures Versions.ToString(Versions.WithQualifier(Versions.Simple(SimpleStringVersions.SimpleStringVersion("abc1234")), Some(q)))
            == "abc1234-" + q
  {
    assert DigitRun("abc1234") == 0;
    assert LastIndexOf("abc1234", '-') == -1;
    assert "abc1234" + ['-'] + q == "abc1234-" + q;
  }
}
