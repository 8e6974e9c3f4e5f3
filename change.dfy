/**
 * `Change`: one entry of `git status --short`, split into its status letter and the
 * path after it.
 */
module Changes {
  import opened JavaLang

  datatype Change = Change(status: string, path: string)

  /**
   * `Change.from(s)`: the first character is the status and the trimmed rest the path;
   * `substring(0, 1)` throws on the empty string.
   */
  function From(s: string): (r: Result<Change>)
    ensures r.Failure? <==> |s| == 0
    ensures r.Failure? ==> r.error == StringIndexOutOfBounds(1)
    ensures r.Success? ==> r.value.status == [s[0]] && exists i :: TrimmedAt(s[1..], r.value.path, i)
    ensures r.Success? ==> |r.value.path| > 0 ==> !IsTrimmable(r.value.path[0]) && !IsTrimmable(r.value.path[|r.value.path| - 1])
  {
    if |s| == 0 then Failure(StringIndexOutOfBounds(1))
    else Success(Change(s[..1], Trim(s[1..])))
  }

  /** `toString()`: the status, a colon and a space, then the path. */
  function ToString(c: Change): string {
    c.status + ": " + c.path
  }

  /**
   * A status letter followed by any whitespace padding and a path without surrounding
   * whitespace reads back as that letter and that path, and the path is trimmed again
   * to itself.
   */
  lemma FromLine(status: char, pad: string, path: string)
    requires forall k :: 0 <= k < |pad| ==> IsTrimmable(pad[k])
    requires |path| > 0 ==> !IsTrimmable(path[0]) && !IsTrimmable(path[|path| - 1])
    ensures From([status] + pad + path) == Success(Change([status], path))
  {
    var s := [status] + pad + path;
    assert s[1..] == pad + path;
    TrimOfPadded(pad, path);
  }

  /** Parsing a parsed change's own fields back gives the same change. */
  lemma FromIsStable(s: string)
    requires From(s).Success?
    ensures var c := From(s).value; From(c.status + c.path) == Success(c)
  {
    var c := From(s).value;
    FromLine(s[0], "", c.path);
    assert [s[0]] + "" + c.path == c.status + c.path;
  }

  /** The rendering shows the status, then `: `, then the path, each recoverable by position. */
  lemma ToStringParts(c: Change)
    ensures var t := ToString(c);
            && |t| == |c.status| + 2 + |c.path|
            && t[..|c.status|] == c.status && t[|c.status|..|c.status| + 2] == ": "
            && t[|c.status| + 2..] == c.path
  {
  }

  /** A modified file of `git status --short`. */
  lemma FromExample()
    ensures From("M some/file.txt") == Success(Change("M", "some/file.txt"))
  {
    ExampleLine();
    FromLine('M', " ", "some/file.txt");
  }

  lemma ExampleLine()
    ensures "M some/file.txt" == ['M'] + " " + "some/file.txt"
    ensures !IsTrimmable("some/file.txt"[0]) && !IsTrimmable("some/file.txt"[12])
  {
  }

  /** Its rendering. */
  lemma ToStringExample()
    ensures ToString(Change("M", "some/file.txt")) == "M: some/file.txt"
  {
  }
}
