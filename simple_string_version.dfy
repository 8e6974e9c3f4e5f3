/**
 * The fallback version variant: an opaque string whose qualifier is whatever follows
 * its last `-`. It cannot be incremented.
 */
module SimpleStringVersions {
  import opened JavaLang

  /** Separator between the core string and the qualifier. */
  const QUALIFIER_SEPARATOR: char := '-'

  datatype SimpleStringVersion = SimpleStringVersion(value: string)

  predicate IsIncrementable(v: SimpleStringVersion) {
    false
  }

  /** `increment` always throws, whatever the amount. */
  function Increment(v: SimpleStringVersion, amount: Int32): (r: Result<SimpleStringVersion>)
    ensures r.Failure? && r.error.UnsupportedOperation?
  {
    Failure(UnsupportedOperation("Simple String version does not support incrementation"))
  }

  /**
   * `qualifier()`: everything after the last `-`, or `""` when there is none. The
   * qualifier contains no `-`, and when the value has one the value ends with `-`
   * followed by the qualifier.
   */
  function Qualifier(v: SimpleStringVersion): (q: string)
    ensures QUALIFIER_SEPARATOR !in q
    ensures QUALIFIER_SEPARATOR !in v.value ==> q == ""
    ensures QUALIFIER_SEPARATOR in v.value ==>
              |q| < |v.value| && v.value[|v.value| - |q| - 1] == QUALIFIER_SEPARATOR
              && v.value[|v.value| - |q|..] == q
  {
    var i := LastIndexOf(v.value, QUALIFIER_SEPARATOR);
    if i < 0 then "" else v.value[i + 1..]
  }

  /** Java string concatenation of a nullable `String`: `null` prints as "null". */
  function Concatenated(q: Option<string>): string {
    if q.Some? then q.value else "null"
  }

  /**
   * `withQualifier`: replaces everything after the last `-` with `q`, or appends `-`
   * and `q` when the value has no `-`.
   */
  function WithQualifier(v: SimpleStringVersion, q: Option<string>): SimpleStringVersion {
    var i := LastIndexOf(v.value, QUALIFIER_SEPARATOR);
    if i < 0 then SimpleStringVersion(v.value + [QUALIFIER_SEPARATOR] + Concatenated(q))
    else SimpleStringVersion(v.value[..i] + [QUALIFIER_SEPARATOR] + Concatenated(q))
  }

  /** `toString`: the value itself. */
  function ToString(v: SimpleStringVersion): string {
    v.value
  }

  /** The part of the value that `withQualifier` keeps: up to and including the last `-`. */
  function KeptPrefix(v: SimpleStringVersion): string {
    var i := LastIndexOf(v.value, QUALIFIER_SEPARATOR);
    if i < 0 then v.value + [QUALIFIER_SEPARATOR] else v.value[..i + 1]
  }

  /**
   * `withQualifier` keeps the value up to and including its last `-` (or the whole
   * value followed by `-`), and the qualifier read back is the one written whenever
   * it has no `-` of its own.
   */
  lemma WithQualifierKeepsPrefix(v: SimpleStringVersion, q: string)
    ensures WithQualifier(v, Some(q)).value == KeptPrefix(v) + q
    ensures QUALIFIER_SEPARATOR in v.value ==> KeptPrefix(v) == v.value[..|v.value| - |Qualifier(v)|]
    ensures QUALIFIER_SEPARATOR !in q ==> Qualifier(WithQualifier(v, Some(q))) == q
  {
    var w := WithQualifier(v, Some(q)).value;
    var p := KeptPrefix(v);
    assert w == p + q;
    if QUALIFIER_SEPARATOR !in q {
      assert p[|p| - 1] == QUALIFIER_SEPARATOR;
      assert w[|p| - 1] == QUALIFIER_SEPARATOR;
      assert forall k :: |p| <= k < |w| ==> w[k] == q[k - |p|];
      assert LastIndexOf(w, QUALIFIER_SEPARATOR) == |p| - 1;
      assert w[|p|..] == q;
    }
  }

  /** Applying `withQualifier(q)` twice is applying it once, when `q` has no `-`. */
  lemma WithQualifierIdempotent(v: SimpleStringVersion, q: string)
    requires QUALIFIER_SEPARATOR !in q
    ensures WithQualifier(WithQualifier(v, Some(q)), Some(q)) == WithQualifier(v, Some(q))
  {
    WithQualifierReplaces(v, q, q);
  }

  /** A second `withQualifier` replaces the first qualifier, when that one has no `-`. */
  lemma WithQualifierReplaces(v: SimpleStringVersion, a: string, b: string)
    requires QUALIFIER_SEPARATOR !in a
    ensures WithQualifier(WithQualifier(v, Some(a)), Some(b)) == WithQualifier(v, Some(b))
  {
    var w := WithQualifier(v, Some(a));
    WithQualifierKeepsPrefix(v, a);
    WithQualifierKeepsPrefix(w, b);
    WithQualifierKeepsPrefix(v, b);
    var p := KeptPrefix(v);
    assert w.value == p + a;
    assert w.value[|p| - 1] == QUALIFIER_SEPARATOR;
    assert KeptPrefix(w) == w.value[..|w.value| - |Qualifier(w)|];
    assert Qualifier(w) == a;
    assert w.value[..|w.value| - |a|] == p;
  }

  /** `withQualifier(null)` does not remove the qualifier: it writes the text "null". */
  lemma WithNullQualifier(v: SimpleStringVersion)
    ensures WithQualifier(v, None) == WithQualifier(v, Some("null"))
    ensures Qualifier(WithQualifier(v, None)) == "null"
  {
    assert Concatenated(None) == "null";
    assert QUALIFIER_SEPARATOR !in "null";
    WithQualifierKeepsPrefix(v, "null");
  }

  /** The cases of the unit test. */
  lemma Examples()
    ensures Qualifier(SimpleStringVersion("foo-bar")) == "bar"
    ensures Qualifier(SimpleStringVersion("foobar")) == ""
    ensures ToString(WithQualifier(SimpleStringVersion("foo-bar"), Some("test"))) == "foo-test"
    ensures ToString(WithQualifier(SimpleStringVersion("foobar"), Some("test"))) == "foobar-test"
  {
    var foobar := "foo-bar";
    assert foobar[3] == '-' && foobar[4] != '-' && foobar[5] != '-' && foobar[6] != '-';
    assert LastIndexOf(foobar, '-') == 3;
    assert foobar[..3] == "foo" && foobar[4..] == "bar";
    assert LastIndexOf("foobar", '-') == -1;
  }
}
