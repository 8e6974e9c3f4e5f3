# git-mvp version resolution, modelled in Dafny

git-mvp is a Gradle plugin. It gives each project of a build a version derived from
its git repository. This project models the plugin's version resolution pipeline and
proves properties of it:

- **Version values** (`Versions`, `MavenVersions`, `SimpleStringVersions`). A version is either:
  - the Maven-style variant: major, optional minor, optional incremental, optional qualifier; or
  - an opaque string whose qualifier is whatever follows its last `-`.
- **Parsing.** `MavenVersions.Parse` recognises the whole-string grammar
  `\d+(\.\d+)?(\.\d+)?(-[a-zA-Z0-9.-]+)?` with a hand-written scanner. `Versions.Parse`
  falls back to the string variant when that grammar does not match.
- **Version sources** (`VersionSources`, `GitTags`). A candidate version comes from a git tag or
  from the commit id.
  - A tag finds its version text with an unanchored search for
    `v(\d+\.\d+(?:\.\d+)?(?:-[A-Z0-9]+)?)`, again a hand-written recogniser.
  - A tag is decoded from one `\u0001`-separated `git for-each-ref` record line.
- **The resolver** (`Resolver`). It:
  - orders the candidates: scoped tags, then `v*` tags, then the commit id;
  - takes the first candidate;
  - builds the branch rules and evaluates them;
  - builds the amendments: an increment on an auto-incremented branch, then a dirty qualifier;
  - folds the amendments over the selected version.
- **Git inputs.** Everything the resolver learns from git is a `Snapshot` value:
  - the tags for a pattern, and the commit count per tag, as functions;
  - the commit id, the branch and the dirty flag;
  - the extension's settings, when the extension is declared.
- **Imperative code.** The source's own loops and list building become methods:
  `CandidateVersions`, `BuildAmendments`, `IsAutoIncrementedBranch` and `ResolveGitVersion`.
  Each is proved equal to a specification function, and the promised properties are
  lemmas about those functions.
- **Status lines** (`Changes`). The parser of one `git status --short` entry.
- **`JavaLang`.** The Java semantics the code relies on, written out:
  - `null` is `Option`, and exceptions are `Result` failures;
  - 32-bit wrap-around of `int` addition;
  - `Integer.parseInt`, including its overflow exception, and `Integer.toString`;
  - `String.lastIndexOf`, `trim`, `isBlank`, and `split` with its dropping of trailing empty fields.

Source paths below are relative to the repository root.

## Model

| member | source | states |
|---|---|---|
| JavaLang.Add | src/main/java/io/github/duckasteroid/git/mvp/version/MavenVersion.java:80 | Java `int` addition: congruent to the exact sum modulo 2^32, and equal to it when the sum is in range |
| JavaLang.AddAssociative | src/main/java/io/github/duckasteroid/git/mvp/version/MavenVersion.java:80 | wrapped addition is associative |
| JavaLang.ParseDigits | src/main/java/io/github/duckasteroid/git/mvp/version/MavenVersion.java:44-57 | `Integer.parseInt` of a digit run succeeds exactly when its value is at most 2^31-1, with that value, and otherwise fails with a number-format error |
| JavaLang.DigitsValueOfNatToString | src/main/java/io/github/duckasteroid/git/mvp/version/MavenVersion.java:128-141 | reading back the decimal rendering of a number gives the number |
| JavaLang.NatToStringOfDigitsValue | src/main/java/io/github/duckasteroid/git/mvp/version/MavenVersion.java:128-141 | rendering the value of a digit run without a leading zero gives the run back |
| JavaLang.IntToString | src/main/java/io/github/duckasteroid/git/mvp/version/MavenVersion.java:130-134 | an `int` renders as canonical digits, preceded by `-` when negative |
| JavaLang.LastIndexOf | src/main/java/io/github/duckasteroid/git/mvp/version/SimpleStringVersion.java:37 | the index of the last occurrence of the character, or -1 when there is none |
| JavaLang.IsBlank | src/main/java/io/github/duckasteroid/git/mvp/version/source/GitTag.java:63 | `isBlank`: every character is whitespace; stated by GitTags.Parse and Resolver.RootProjectIgnoresScopedTags |
| JavaLang.Trim | src/main/java/io/github/duckasteroid/git/mvp/Change.java:9 | `trim` removes only leading and trailing characters up to U+0020, and what is left neither starts nor ends with one |
| JavaLang.TrimOfPadded | src/main/java/io/github/duckasteroid/git/mvp/Change.java:9 | trimming padding followed by an untrimmable text gives that text |
| JavaLang.SplitAllFields | src/main/java/io/github/duckasteroid/git/mvp/version/source/GitTag.java:60 | no field of a split holds the separator |
| JavaLang.SplitAllJoin | src/main/java/io/github/duckasteroid/git/mvp/version/source/GitTag.java:60 | joining the fields of a split with the separator gives the input back |
| JavaLang.SplitJoin | src/main/java/io/github/duckasteroid/git/mvp/version/source/GitTag.java:60 | splitting separator-free fields joined with the separator gives the fields back |
| JavaLang.SplitAfterField | src/main/java/io/github/duckasteroid/git/mvp/version/source/GitTag.java:60 | a separator-free field followed by the separator splits off as the first field |
| JavaLang.SplitAllCount | src/main/java/io/github/duckasteroid/git/mvp/version/source/GitTag.java:60 | a split has one field more than the text has separators |
| JavaLang.JavaSplit | src/main/java/io/github/duckasteroid/git/mvp/version/source/GitTag.java:60 | `String.split` with limit 0; stated by JavaLang.JavaSplitCount, GitTags.FormatStringFields and GitTags.ParseRecordLine |
| JavaLang.DropTrailingEmpty | src/main/java/io/github/duckasteroid/git/mvp/version/source/GitTag.java:60 | `String.split` drops exactly the trailing empty fields: the result is a prefix of the fields, it does not end in an empty field, and only empty fields were dropped |
| JavaLang.JavaSplitCount | src/main/java/io/github/duckasteroid/git/mvp/version/source/GitTag.java:60-61 | `String.split` yields at most one field more than the text has separators |
| MavenVersions.ScanQualifier | src/main/java/io/github/duckasteroid/git/mvp/version/MavenVersion.java:31 | the optional qualifier group matches the empty rest, or `-` followed by a nonempty run of letters, digits, `.` and `-` |
| MavenVersions.Scan | src/main/java/io/github/duckasteroid/git/mvp/version/MavenVersion.java:26-33 | soundness of the grammar recogniser: a match is a well-formed major, minor, incremental and qualifier text whose concatenation is the whole input |
| MavenVersions.ScanComplete | src/main/java/io/github/duckasteroid/git/mvp/version/MavenVersion.java:26-33 | completeness of the recogniser: every well-formed text is matched, with its own groups |
| MavenVersions.Parse | src/main/java/io/github/duckasteroid/git/mvp/version/MavenVersion.java:35-64 | `null` exactly when the grammar does not match; a number-format failure exactly when a matched number exceeds the `int` range; otherwise the version the groups denote, with non-negative numbers, an incremental only alongside a minor, and the qualifier text kept verbatim |
| MavenVersions.ParseDenoting | src/main/java/io/github/duckasteroid/git/mvp/version/MavenVersion.java:35-64 | a matching text whose numbers fit parses to the version its groups denote |
| MavenVersions.ParseExamples | src/test/java/io/github/duckasteroid/git/mvp/version/MavenVersionTest.java:15-20 | the parses of `1`, `1.0`, `1.0.1`, `1.0.1-SNAPSHOT`, `1-RC2` and `1.10-WIBBLE` of the unit test |
| MavenVersions.NoMatchExamples | src/test/java/io/github/duckasteroid/git/mvp/version/MavenVersionTest.java:21-22 | `1.2.3.4` and `1.x.3-NOTVALID` parse to `null` |
| MavenVersions.FourNumbersDoNotMatch | src/main/java/io/github/duckasteroid/git/mvp/version/MavenVersion.java:26-33 | `1.2.3.4`, with a fourth dotted number, is outside the grammar |
| MavenVersions.LetterMinorDoesNotMatch | src/main/java/io/github/duckasteroid/git/mvp/version/MavenVersion.java:26-33 | `1.x.3-NOTVALID`, whose minor is not a digit run, is outside the grammar |
| MavenVersions.ToString | src/main/java/io/github/duckasteroid/git/mvp/version/MavenVersion.java:127-141 | a qualified version renders to a text ending with `-` and the qualifier |
| MavenVersions.RenderIsJoin | src/main/java/io/github/duckasteroid/git/mvp/version/MavenVersion.java:127-141 | `toString` writes the major, `.minor` when minor is set, `.incremental` when both are set, and `-qualifier` when the qualifier is non-null |
| MavenVersions.Rendering | src/main/java/io/github/duckasteroid/git/mvp/version/MavenVersion.java:127-141 | a fully specified version renders as its four parts separated by `.`, `.` and `-` |
| MavenVersions.ParseThenRender | src/main/java/io/github/duckasteroid/git/mvp/version/MavenVersion.java:35-64 | round trip: a parsed text whose numbers have no superfluous leading zero renders back to itself |
| MavenVersions.RenderThenParse | src/main/java/io/github/duckasteroid/git/mvp/version/MavenVersion.java:127-141 | round trip: every version of a shape that parsing yields renders to a text that parses back to it |
| MavenVersions.Apply | src/main/java/io/github/duckasteroid/git/mvp/version/MavenVersion.java:71-112 | the four increment strategies; their results are stated by MavenVersions.IncrementEffect, MavenVersions.MinorAndMajorDropQualifier and MavenVersions.FirstDefinedBumpsLastDefined |
| MavenVersions.Increment | src/main/java/io/github/duckasteroid/git/mvp/version/MavenVersion.java:114-120 | `increment(n)` applies `ONLY_INCREMENTAL`; stated by MavenVersions.IncrementEffect and MavenVersions.IncrementTwice |
| MavenVersions.IncrementEffect | src/main/java/io/github/duckasteroid/git/mvp/version/MavenVersion.java:72-84 | `increment(n)` keeps major and qualifier, sets minor to the old minor or 0, and sets incremental to the old incremental (or 0) plus `n`, with `int` wrap-around |
| MavenVersions.IncrementTwice | src/main/java/io/github/duckasteroid/git/mvp/version/MavenVersion.java:114-116 | incrementing by `a` and then by `b` is incrementing by `a + b` |
| MavenVersions.IncrementExamples | src/test/java/io/github/duckasteroid/git/mvp/version/MavenVersionTest.java:25-42 | the six increments by 2 of the unit test |
| MavenVersions.MinorAndMajorDropQualifier | src/main/java/io/github/duckasteroid/git/mvp/version/MavenVersion.java:85-98 | `ONLY_MINOR` adds to the minor (absent counts as 0), `ONLY_MAJOR` adds to the major; both keep the other numbers and drop the qualifier |
| MavenVersions.FirstDefinedBumpsLastDefined | src/main/java/io/github/duckasteroid/git/mvp/version/MavenVersion.java:99-111 | for a version whose incremental implies its minor (every parsed one), `FIRST_DEFINED` adds to the last number that is present and changes no other number; it keeps which numbers are present, and keeps the qualifier only when it dispatches to `ONLY_INCREMENTAL` |
| MavenVersions.WithQualifier | src/main/java/io/github/duckasteroid/git/mvp/version/MavenVersion.java:122-125 | a new record with the numbers and the given qualifier; stated by MavenVersions.WithQualifierReplaces |
| MavenVersions.WithQualifierReplaces | src/main/java/io/github/duckasteroid/git/mvp/version/MavenVersion.java:122-125 | `withQualifier` keeps the numbers and sets the qualifier; a second call replaces the first; `null` removes it |
| MavenVersions.WithQualifierExamples | src/test/java/io/github/duckasteroid/git/mvp/version/MavenVersionTest.java:66-79 | `1-stuff`, `1.2.3-stuff`, and `1.2.3` after `withQualifier(null)`, as in the unit test |
| SimpleStringVersions.Increment | src/main/java/io/github/duckasteroid/git/mvp/version/SimpleStringVersion.java:26-29 | `increment` fails with an unsupported-operation error for every amount |
| SimpleStringVersions.Qualifier | src/main/java/io/github/duckasteroid/git/mvp/version/SimpleStringVersion.java:35-42 | the qualifier holds no `-`; it is empty when the value has none, and otherwise the value ends with `-` followed by it |
| SimpleStringVersions.WithQualifier | src/main/java/io/github/duckasteroid/git/mvp/version/SimpleStringVersion.java:44-53 | replaces what follows the last `-`, or appends `-` and the qualifier; stated by SimpleStringVersions.WithQualifierKeepsPrefix and SimpleStringVersions.WithQualifierReplaces |
| SimpleStringVersions.ToString | src/main/java/io/github/duckasteroid/git/mvp/version/SimpleStringVersion.java:55-58 | the value unchanged; stated with the parse by Versions.ParseNeverNull |
| SimpleStringVersions.WithQualifierKeepsPrefix | src/main/java/io/github/duckasteroid/git/mvp/version/SimpleStringVersion.java:44-53 | `withQualifier(q)` keeps the value up to and including its last `-` (or appends `-`), and then `qualifier()` returns `q` when `q` holds no `-` |
| SimpleStringVersions.WithQualifierIdempotent | src/main/java/io/github/duckasteroid/git/mvp/version/SimpleStringVersion.java:44-53 | applying `withQualifier(q)` twice is applying it once, when `q` holds no `-` |
| SimpleStringVersions.WithQualifierReplaces | src/main/java/io/github/duckasteroid/git/mvp/version/SimpleStringVersion.java:44-53 | a second `withQualifier` replaces the first qualifier, when that one holds no `-` |
| SimpleStringVersions.WithNullQualifier | src/main/java/io/github/duckasteroid/git/mvp/version/SimpleStringVersion.java:46-52 | `withQualifier(null)` writes the qualifier text `null` rather than removing the qualifier |
| SimpleStringVersions.Examples | src/test/java/io/github/duckasteroid/git/mvp/version/SimpleStringVersionTest.java:13-20 | `foo-bar` has qualifier `bar`, `foobar` has none, and qualifying both with `test` gives `foo-test` and `foobar-test` |
| Versions.Parse | src/main/java/io/github/duckasteroid/git/mvp/version/Version.java:45-51 | the Maven variant exactly when `MavenVersion.parse` returns a version; the string variant holding the text unchanged exactly when the grammar does not match; a failure only from an out-of-range number |
| Versions.IsIncrementable | src/main/java/io/github/duckasteroid/git/mvp/version/Version.java:9-15 | true for the Maven variant, false for the string variant; stated by Versions.ParseIncrementable and Versions.Increment |
| Versions.WithQualifier | src/main/java/io/github/duckasteroid/git/mvp/version/Version.java:26-32 | dispatches to the variant's `withQualifier`; stated by Versions.WithQualifierReplaces and Versions.QualifiedRendering |
| Versions.Qualifier | src/main/java/io/github/duckasteroid/git/mvp/version/Version.java:34-38 | optional, since the Maven record returns `null` without a qualifier; stated by Versions.WithQualifierReplaces and Versions.IncrementKeepsQualifier |
| Versions.ToString | src/main/java/io/github/duckasteroid/git/mvp/version/MavenVersion.java:127-141 | the variant's rendering; stated by Versions.ParseThenRender and Versions.RenderThenParse |
| Versions.ParseNeverNull | src/main/java/io/github/duckasteroid/git/mvp/version/Version.java:45-51 | a mismatch never fails: it gives a string version rendering to the input |
| Versions.ParseIncrementable | src/main/java/io/github/duckasteroid/git/mvp/version/Version.java:45-51 | a parsed version is incrementable exactly when the text matches the Maven grammar |
| Versions.Increment | src/main/java/io/github/duckasteroid/git/mvp/version/Version.java:17-24 | `increment` fails, with an unsupported-operation error, exactly on a version that is not incrementable |
| Versions.IncrementKeepsQualifier | src/main/java/io/github/duckasteroid/git/mvp/version/MavenVersion.java:114-116 | `increment` keeps the qualifier |
| Versions.ParseThenRender | src/main/java/io/github/duckasteroid/git/mvp/version/Version.java:45-51 | a parsed text renders back to itself, except where a Maven number has a superfluous leading zero |
| Versions.RenderThenParse | src/main/java/io/github/duckasteroid/git/mvp/version/Version.java:45-51 | every version that a parse can yield renders to a text that parses back to it |
| Versions.QualifiedRendering | src/main/java/io/github/duckasteroid/git/mvp/version/Version.java:26-32 | on both variants, a version given qualifier `q` renders to a text ending with `-` and `q` |
| Versions.WithQualifierReplaces | src/main/java/io/github/duckasteroid/git/mvp/version/Version.java:26-32 | the qualifier read back is the one written, a second `withQualifier` overrides the first (on the string variant, when the first holds no `-`), and the variant is kept |
| VersionSources.TypeName | src/main/java/io/github/duckasteroid/git/mvp/version/source/VersionSource.java:14-23 | the two type constants print as `TAG` and `COMMIT` |
| VersionSources.Type | src/main/java/io/github/duckasteroid/git/mvp/version/source/VersionSource.java:14-29 | a source is of type `TAG` exactly when it is a tag, and `COMMIT` exactly when it is the commit fallback |
| VersionSources.Value | src/main/java/io/github/duckasteroid/git/mvp/version/source/VersionSource.java:35 | the raw tag name, or the commit id; stated by VersionSources.TagValueAndVersion |
| VersionSources.Explanation | src/main/java/io/github/duckasteroid/git/mvp/version/source/VersionSource.java:41 | the explanation text; stated by VersionSources.ExplanationIsIrrelevant |
| VersionSources.Version | src/main/java/io/github/duckasteroid/git/mvp/version/source/VersionSource.java:46 | the tag's version, or the parse of the commit id; stated by VersionSources.TagValueAndVersion, GitTags.FoundTagIsMaven and Resolver.DigitCommitIdScenario |
| VersionSources.DisplayString | src/main/java/io/github/duckasteroid/git/mvp/version/source/VersionSource.java:52-54 | the type, the quoted value, ` interpreted as version=` and the rendered version; it fails only when `version()` does |
| VersionSources.TagToString | src/main/java/io/github/duckasteroid/git/mvp/version/source/GitTag.java:73-76 | a tag prints exactly as its display string: `TAG '<name>' interpreted as version=` followed by the rendered tag version, failing exactly when that version does |
| VersionSources.TagValueAndVersion | src/main/java/io/github/duckasteroid/git/mvp/version/source/VersionSource.java:35-46 | a tag's value is its raw name and its type is `TAG`, and its version depends on the name alone |
| VersionSources.ExplanationIsIrrelevant | src/main/java/io/github/duckasteroid/git/mvp/version/source/VersionSource.java:41-54 | changing the explanation changes neither type, value, version nor display string |
| VersionSources.PlainTagVersion | src/test/java/io/github/duckasteroid/git/mvp/cmd/GitCommandLineTest.java:169-178 | the tag `v1.0.0` has the Maven version 1.0.0 |
| VersionSources.DisplayExample | src/main/java/io/github/duckasteroid/git/mvp/version/source/VersionSource.java:52-54 | the tag `v1.0.0` displays as `TAG 'v1.0.0' interpreted as version=1.0.0` |
| GitTags.TagQualifierRun | src/main/java/io/github/duckasteroid/git/mvp/version/source/GitTag.java:15 | the longest prefix of upper-case letters and digits (the class `[A-Z0-9]`, taken greedily) |
| GitTags.ScanTagQualifier | src/main/java/io/github/duckasteroid/git/mvp/version/source/GitTag.java:15 | the group `-[A-Z0-9]+` matches exactly when the rest starts with `-` and such a character, and then takes the whole run |
| GitTags.ScanTagVersion | src/main/java/io/github/duckasteroid/git/mvp/version/source/GitTag.java:15 | after the `v`, the group fails exactly when there is no major digit run followed by `.` and a digit; a match is the tag shape, with greedy optional parts, concatenated before the rest |
| GitTags.ScanTagVersionOf | src/main/java/io/github/duckasteroid/git/mvp/version/source/GitTag.java:15 | completeness: every tag-shaped text that ends where the greedy match ends is found |
| GitTags.MatchAt | src/main/java/io/github/duckasteroid/git/mvp/version/source/GitTag.java:15 | a match at a position starts with `v`, and the group is tag-shaped text that follows it |
| GitTags.FirstMatch | src/main/java/io/github/duckasteroid/git/mvp/version/source/GitTag.java:50-51 | the leftmost successful attempt from a position, or none when every attempt fails |
| GitTags.Find | src/main/java/io/github/duckasteroid/git/mvp/version/source/GitTag.java:50-51 | `Matcher.find`: a found position holds a match |
| GitTags.FindIsLeftmost | src/main/java/io/github/duckasteroid/git/mvp/version/source/GitTag.java:50-51 | no attempt before the found position (or anywhere, when nothing is found) matches |
| GitTags.FindSkips | src/main/java/io/github/duckasteroid/git/mvp/version/source/GitTag.java:50-51 | positions that hold no `v` do not affect the search |
| GitTags.FindFirst | src/main/java/io/github/duckasteroid/git/mvp/version/source/GitTag.java:50-52 | when the pattern matches at no earlier position, a `v` followed by a tag-shaped greedy match is what `find` reports |
| GitTags.VersionString | src/main/java/io/github/duckasteroid/git/mvp/version/source/GitTag.java:49-53 | the whole tag when nothing is found; otherwise group 1 of the leftmost match, the text right after its `v` |
| GitTags.Version | src/main/java/io/github/duckasteroid/git/mvp/version/source/GitTag.java:55-57 | `Version.parse` of the version string; stated by GitTags.FoundTagIsMaven and Resolver.TagVersion |
| GitTags.FoundTagIsMaven | src/main/java/io/github/duckasteroid/git/mvp/version/source/GitTag.java:55-57 | a found version text always matches the Maven grammar, so the tag's version is the Maven variant (or a number-format failure); with nothing found, the version is the parse of the whole tag |
| GitTags.ScopedTagExample | src/test/java/io/github/duckasteroid/git/mvp/GitVersioningPluginTest.java:109-114 | `child1/v2.0.0-CHILD1` yields `2.0.0-CHILD1` |
| GitTags.RootTagExample | src/test/java/io/github/duckasteroid/git/mvp/GitVersioningPluginTest.java:108-113 | `v1.0.0-ROOT` yields `1.0.0-ROOT` |
| GitTags.PlainTagExample | src/test/java/io/github/duckasteroid/git/mvp/cmd/GitCommandLineTest.java:169-177 | `v1.0.0` yields `1.0.0` |
| GitTags.MajorOnlyTagExample | src/main/java/io/github/duckasteroid/git/mvp/version/source/GitTag.java:15 | `v1` does not match, so the whole tag `v1` is the version text |
| GitTags.LowerCaseSuffixExample | src/main/java/io/github/duckasteroid/git/mvp/version/source/GitTag.java:15 | the lower-case suffix of `v1.0.0-rc1` is dropped, giving `1.0.0` |
| GitTags.FormatString | src/main/java/io/github/duckasteroid/git/mvp/version/source/GitTag.java:69-71 | the five placeholders with the separator between them; stated by GitTags.FormatStringFields |
| GitTags.FormatStringFields | src/main/java/io/github/duckasteroid/git/mvp/version/source/GitTag.java:69-71 | the format string is the five placeholders joined by four separators, and splitting it gives them back in the order `parse` reads them |
| GitTags.PlaceholdersHaveNoSeparator | src/main/java/io/github/duckasteroid/git/mvp/version/source/GitTag.java:69-71 | no placeholder contains the separator |
| GitTags.Parse | src/main/java/io/github/duckasteroid/git/mvp/version/source/GitTag.java:59-67 | an illegal-argument failure exactly when the split has fewer than five fields; otherwise a tag with the given explanation and no date exactly when the date field is blank |
| GitTags.ParseRecordLine | src/main/java/io/github/duckasteroid/git/mvp/version/source/GitTag.java:59-71 | a record line written in the format decodes to its five fields in order |
| GitTags.ParseShortLine | src/main/java/io/github/duckasteroid/git/mvp/version/source/GitTag.java:60-61 | a line with fewer than four separators is rejected |
| Changes.From | src/main/java/io/github/duckasteroid/git/mvp/Change.java:8-10 | the status is the first character and the path is the trimmed rest; the empty line fails with an index error |
| Changes.FromLine | src/main/java/io/github/duckasteroid/git/mvp/Change.java:8-10 | a status character, padding and an untrimmed path decode to that status and path |
| Changes.FromIsStable | src/main/java/io/github/duckasteroid/git/mvp/Change.java:8-10 | decoding the status followed by the decoded path gives the same change |
| Changes.ToString | src/main/java/io/github/duckasteroid/git/mvp/Change.java:12-14 | `status: path`; stated by Changes.ToStringParts |
| Changes.ToStringParts | src/main/java/io/github/duckasteroid/git/mvp/Change.java:12-14 | `toString` is the status, `: `, then the path |
| Changes.FromExample | src/main/java/io/github/duckasteroid/git/mvp/Change.java:8-10 | `M some/file.txt` decodes to status `M` and path `some/file.txt` |
| Changes.ToStringExample | src/main/java/io/github/duckasteroid/git/mvp/Change.java:12-14 | that change prints as `M: some/file.txt` |
| Resolver.Tags | src/main/java/io/github/duckasteroid/git/mvp/GitVersionProjectWrapper.java:76-80 | each tag, in order, as a version source |
| Resolver.Candidates | src/main/java/io/github/duckasteroid/git/mvp/GitVersionProjectWrapper.java:67-86 | the scoped tags, the `v*` tags and the commit source, in that order; stated by Resolver.CandidatesShape and Resolver.Selected |
| Resolver.CandidateVersions | src/main/java/io/github/duckasteroid/git/mvp/GitVersionProjectWrapper.java:67-86 | the list built by inserting the scoped tags before the `v*` tags and appending the commit equals `Resolver.Candidates` |
| Resolver.CandidatesShape | src/main/java/io/github/duckasteroid/git/mvp/GitVersionProjectWrapper.java:67-86 | the candidates are never empty; they are the scoped tags, then the `v*` tags, in order, then the commit source, which is the only `COMMIT` |
| Resolver.Selected | src/main/java/io/github/duckasteroid/git/mvp/GitVersionProjectWrapper.java:215-217 | the candidate list is not empty, so `orElseThrow` cannot fire; the first candidate is the first scoped tag if any, else the first `v*` tag if any, else the commit, and it is the commit exactly when there is no tag |
| Resolver.RootProjectIgnoresScopedTags | src/main/java/io/github/duckasteroid/git/mvp/GitVersionProjectWrapper.java:74-81 | with a blank project path no other tag pattern is consulted |
| Resolver.ScopePaths | src/main/java/io/github/duckasteroid/git/mvp/GitVersionProjectWrapper.java:74-81 | the root project `:` has no scoped tags; the project `:child1` uses the pattern `child1/` |
| Resolver.Bracketed | src/main/java/io/github/duckasteroid/git/mvp/GitVersionProjectWrapper.java:149 | the joined list is enclosed in `[` and `]` |
| Resolver.BranchRules | src/main/java/io/github/duckasteroid/git/mvp/GitVersionProjectWrapper.java:134-176 | two rules with the extension, one without |
| Resolver.BranchRuleDescriptions | src/main/java/io/github/duckasteroid/git/mvp/GitVersionProjectWrapper.java:134-176 | the descriptions of the default, include and exclude rules |
| Resolver.IsAutoIncrementedBranch | src/main/java/io/github/duckasteroid/git/mvp/GitVersionProjectWrapper.java:183-192 | the loop with its early return gives true exactly when every rule accepts the branch |
| Resolver.IsAutoIncrementedBranchIff | src/main/java/io/github/duckasteroid/git/mvp/GitVersionProjectWrapper.java:134-192 | without the extension, auto-incremented exactly when the branch is neither `main` nor `master`; with it, exactly when included (or no includes) and not excluded (or no excludes) |
| Resolver.Amended | src/main/java/io/github/duckasteroid/git/mvp/VersionAmendment.java:24-26 | a qualifier amendment always succeeds; an amendment fails only by incrementing a version that is not incrementable |
| Resolver.Amendments | src/main/java/io/github/duckasteroid/git/mvp/GitVersionProjectWrapper.java:93-128 | the increment part followed by the dirty amendment when dirty; stated by Resolver.AmendmentsShape and Resolver.AmendmentsAfterIncrements |
| Resolver.BuildAmendments | src/main/java/io/github/duckasteroid/git/mvp/GitVersionProjectWrapper.java:93-128 | the list built by appending equals `Resolver.Amendments` |
| Resolver.IncrementsShape | src/main/java/io/github/duckasteroid/git/mvp/GitVersionProjectWrapper.java:97-115 | the increment part fails exactly when it consults a version that fails; otherwise it is one increment by the commit count exactly when the branch is auto-incremented, the source is a tag, its version is incrementable and the count is positive |
| Resolver.AmendmentsAfterIncrements | src/main/java/io/github/duckasteroid/git/mvp/GitVersionProjectWrapper.java:116-127 | the dirty amendment, with the configured qualifier or `dirty`, is appended exactly when the repository is dirty |
| Resolver.AmendmentsShape | src/main/java/io/github/duckasteroid/git/mvp/GitVersionProjectWrapper.java:93-128 | at most two amendments: the increment first when due, the dirty qualifier last when dirty, and no other increment |
| Resolver.ApplyAll | src/main/java/io/github/duckasteroid/git/mvp/GitVersionProjectWrapper.java:221-224 | the amendments applied left to right, stopping at the first failure; stated by Resolver.ApplyQualifierLast and Resolver.IncrementsApplied |
| Resolver.GitVersion | src/main/java/io/github/duckasteroid/git/mvp/GitVersionProjectWrapper.java:214-227 | the rendering of the selected version after the amendments; stated by Resolver.GitVersionEquation and Resolver.NeverUnsupported |
| Resolver.ResolveGitVersion | src/main/java/io/github/duckasteroid/git/mvp/GitVersionProjectWrapper.java:214-227 | the loop that reassigns the version through the amendments equals `Resolver.GitVersion` |
| Resolver.ApplyQualifierLast | src/main/java/io/github/duckasteroid/git/mvp/GitVersionProjectWrapper.java:222-224 | folding a final qualifier amendment is qualifying the folded result |
| Resolver.IncrementsApplied | src/main/java/io/github/duckasteroid/git/mvp/GitVersionProjectWrapper.java:103-111 | folding the increment part increments by the commit count when due, and otherwise keeps the version |
| Resolver.GitVersionEquation | src/main/java/io/github/duckasteroid/git/mvp/GitVersionProjectWrapper.java:214-227 | the git version is the rendering of the selected version, incremented when due, then qualified when dirty; it fails exactly when the selected version fails, with the same error |
| Resolver.NeverUnsupported | src/main/java/io/github/duckasteroid/git/mvp/GitVersionProjectWrapper.java:99-107 | the unsupported-increment error never escapes, so resolution fails only with a number-format error |
| Resolver.DirtySuffix | src/main/java/io/github/duckasteroid/git/mvp/GitVersionProjectWrapper.java:116-126 | a dirty repository's version ends with `-` and the dirty qualifier |
| Resolver.CleanAndUnincremented | src/main/java/io/github/duckasteroid/git/mvp/GitVersionProjectWrapper.java:214-227 | with no amendment due, the version is the selected version rendered |
| Resolver.IncrementedAndClean | src/main/java/io/github/duckasteroid/git/mvp/GitVersionProjectWrapper.java:97-112 | in a clean repository with the increment due, the version is the Maven increment by the commit count, rendered |
| Resolver.TagVersion | src/main/java/io/github/duckasteroid/git/mvp/version/source/GitTag.java:55-57 | a tag whose version text renders a parse-shaped Maven version has that version |
| Resolver.RootSelects | src/main/java/io/github/duckasteroid/git/mvp/GitVersionProjectWrapper.java:67-86 | the root project selects its first `v*` tag, or the commit without one |
| Resolver.Child1Selects | src/main/java/io/github/duckasteroid/git/mvp/GitVersionProjectWrapper.java:67-86 | project `:child1` selects its first `child1/` tag |
| Resolver.RootTagScenario | src/test/java/io/github/duckasteroid/git/mvp/GitVersioningPluginTest.java:105-116 | the root project with tag `v1.0.0-ROOT`, no commits since and a clean repository resolves to `1.0.0-ROOT` |
| Resolver.SubprojectTagScenario | src/test/java/io/github/duckasteroid/git/mvp/GitVersioningPluginTest.java:105-116 | `:child1` with tag `child1/v2.0.0-CHILD1`, no commits since and a clean repository resolves to `2.0.0-CHILD1` |
| Resolver.ReleaseOnMasterScenario | src/main/java/io/github/duckasteroid/git/mvp/GitVersionProjectWrapper.java:171-175 | tag `v1.0.0` on `master` without the extension and a clean repository resolves to `1.0.0`, whatever the commit count |
| Resolver.ReleaseOnFeatureBranchScenario | src/main/java/io/github/duckasteroid/git/mvp/GitVersionProjectWrapper.java:97-112 | tag `v1.0.0` with three commits since, on another branch, without the extension, in a clean repository, resolves to `1.0.3` |
| Resolver.DirtyScopedTagScenario | src/main/java/io/github/duckasteroid/git/mvp/GitVersionProjectWrapper.java:116-126 | `:child1` with tag `child1/v2.0.0-CHILD1` in a dirty repository without the extension resolves to `2.0.0-dirty`: the qualifier replaces `CHILD1` |
| Resolver.CommitIdScenario | src/main/java/io/github/duckasteroid/git/mvp/GitVersionProjectWrapper.java:67-86 | with no tags and a commit id outside the Maven grammar, the version is the commit id; when dirty, an id without `-` is followed by `-` and the dirty qualifier |
| Resolver.CommitIdExample | src/test/java/io/github/duckasteroid/git/mvp/GitVersioningPluginTest.java:92-103 | with no tags, the commit id `abc1234` is the version, followed by `-` and the dirty qualifier when the repository is dirty |
| Resolver.DigitCommitIdScenario | src/main/java/io/github/duckasteroid/git/mvp/GitVersionProjectWrapper.java:71 | with no tags, an all-digit commit id is read as a Maven version: resolution fails exactly when its value exceeds the `int` range, and otherwise gives the value's rendering, which differs from an id with a leading zero |

## Left out

- Running `git` is not modelled: no processes, streams or exit codes. Tags per pattern,
  commits since a tag, the commit id, the branch and the dirty flag are fields of `Snapshot`.
- Gradle wiring is not modelled: plugin registration, the extension, `update`, `gitRootDir`
  and `extension`. The extension's settings are the optional `Config`, and `PatternSet`'s
  property conventions reduce to plain include and exclude lists.
- The project's path relative to the repository root (`getGitRelativePath`) is an input
  string, because it is a filesystem computation.
- `OffsetDateTime` parsing of a tag's commit date is left out. The date is kept as the raw
  field, and only blank versus non-blank is modelled. A non-blank date that does not fit
  the pattern makes `GitTag.parse` throw `DateTimeParseException` in the source, while
  GitTags.Parse succeeds on it.
- The version-source `Commit` class (`version/source/Commit.java`) is not part of this model.
  It is known only from its construction with an explanation and the commit id, and its
  `version()` is taken to be `Version.parse` of the commit id.
- The explanation suppliers are the texts they would supply. Amendment and rule
  descriptions are kept as strings but play no part in resolution.
- Characters are Dafny `char`s (Unicode scalar values), not UTF-16 code units. `trim` and
  `isBlank` are modelled on that alphabet, and `isBlank` uses the characters that
  `Character.isWhitespace` lists.
- Resolver operations require a project path of at least one character. Gradle project
  paths always start with `:`, and `substring(1)` would throw on an empty path.
- Resolver.RootTagScenario and the other `…Scenario` lemmas state the test scenarios as
  hypotheses about a snapshot (its tags, branch, counts and dirty flag), not as literal
  repositories built by running `git`.
- The configured dirty qualifier of the master-branch test (`-TEST`) is covered by
  Resolver.DirtySuffix for every configuration, and by Resolver.CommitIdScenario and Resolver.CommitIdExample.
- SimpleStringVersions.WithNullQualifier: `withQualifier(null)` on the string variant
  writes the text `null` rather than removing the qualifier. This follows the code, where
  Java string concatenation prints `null`; a reading in which null removes the qualifier
  is not modelled.
- Versions.WithQualifierReplaces: on the string variant, replacing needs the first qualifier to
  hold no `-`. A qualifier with a `-` moves the split point, so a second call does not undo it.
- Versions.ParseThenRender: the round trip excludes Maven text with a superfluous leading zero
  (`01`), because `Integer.toString` does not write leading zeros.
- The feature-branch scenario follows the code: tag `v1.0.0` with three commits gives
  `1.0.3`, since the increment adds the count to the existing incremental 0.
- The Maven record's `major` is not nullable in the model. `parse` always sets it, and the
  increment strategies and `withQualifier` copy or add to an existing major.
- The superseded earlier classes of the same package (`GitUtils`, the old `GitTag`,
  `Version`, `VersionSource` and `Commit` in the `mvp` package) are not on the resolution
  path and are not modelled.
