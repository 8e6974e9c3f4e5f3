/**
 * The parts of the Java platform that the version pipeline relies on, written out:
 * nullable references, the exceptions it can raise, 32-bit `int` arithmetic, and the
 * `String` and `Integer` methods it calls (`lastIndexOf`, `trim`, `isBlank`, `split`,
 * `Integer.parseInt`, `Integer.toString`).
 */
module JavaLang {

  /** A Java reference that may be `null`. */
  datatype Option<+T> = None | Some(value: T) {
    function GetOr(default: T): T {
      if Some? then value else default
    }
  }

  /** The unchecked exceptions the pipeline can throw. */
  datatype Exception =
    | NumberFormat(input: string)            // Integer.parseInt on a run too large for an int
    | UnsupportedOperation(message: string)
    | IllegalArgument(message: string)
    | StringIndexOutOfBounds(index: int)     // substring past the end of a string

  /** A computation that either returns a value or throws. */
  datatype Result<+T> = Success(value: T) | Failure(error: Exception) {
    predicate IsFailure() {
      Failure?
    }

    function PropagateFailure<U>(): Result<U>
      requires Failure?
    {
      Failure(error)
    }

    function Extract(): T
      requires Success?
    {
      value
    }
  }

  // ---------------------------------------------------------------------------
  // 32-bit int

  const INT_MIN: int := -0x8000_0000
  const INT_MAX: int := 0x7FFF_FFFF
  const INT_RANGE: int := 0x1_0000_0000

  /** Java's `int`. */
  type Int32 = x: int | -0x8000_0000 <= x <= 0x7FFF_FFFF

  /** Java `int` addition: the exact sum, wrapped around into the 32-bit range. */
  function Add(a: Int32, b: Int32): (r: Int32)
    ensures (r - (a + b)) % INT_RANGE == 0
    ensures INT_MIN <= a + b <= INT_MAX ==> r == a + b
  {
    (a + b - INT_MIN) % INT_RANGE + INT_MIN
  }

  /** A Java int sum is the exact sum, or that sum shifted once by 2^32. */
  lemma AddCases(a: Int32, b: Int32)
    ensures Add(a, b) == a + b || Add(a, b) == a + b - INT_RANGE || Add(a, b) == a + b + INT_RANGE
  {
    var x := a + b - INT_MIN;
    if x < 0 {
      assert x % INT_RANGE == x + INT_RANGE;
    } else if x < INT_RANGE {
      assert x % INT_RANGE == x;
    } else {
      assert x % INT_RANGE == x - INT_RANGE;
    }
  }

  /** Wrapped addition is associative, as in Java. */
  lemma {:induction false} AddAssociative(a: Int32, b: Int32, c: Int32)
    ensures Add(Add(a, b), c) == Add(a, Add(b, c))
  {
    AddCases(a, b);
    AddCases(Add(a, b), c);
    AddCases(b, c);
    AddCases(a, Add(b, c));
  }

  // ---------------------------------------------------------------------------
  // Decimal digits

  predicate IsDigit(c: char) {
    '0' <= c <= '9'
  }

  predicate AllDigits(s: string) {
    forall k :: 0 <= k < |s| ==> IsDigit(s[k])
  }

  /** What `\d+` matches (Java's `\d` is ASCII-only). */
  predicate IsDigits(s: string) {
    |s| > 0 && AllDigits(s)
  }

  /** A digit run as Java prints a non-negative int: no superfluous leading zero. */
  predicate IsCanonicalDigits(s: string) {
    IsDigits(s) && (s[0] == '0' ==> |s| == 1)
  }

  function DigitChar(d: nat): (c: char)
    requires d < 10
    ensures IsDigit(c)
  {
    ('0' as int + d) as char
  }

  function DigitValue(c: char): (d: nat)
    requires IsDigit(c)
    ensures d < 10 && DigitChar(d) == c
  {
    c as int - '0' as int
  }

  /** The length of the longest prefix of `s` made of digits. */
  function DigitRun(s: string): (n: nat)
    ensures n <= |s|
    ensures forall k :: 0 <= k < n ==> IsDigit(s[k])
    ensures n < |s| ==> !IsDigit(s[n])
  {
    if |s| == 0 || !IsDigit(s[0]) then 0 else 1 + DigitRun(s[1..])
  }

  /** The decimal value of a run of digits. */
  function DigitsValue(s: string): nat
    requires AllDigits(s)
    decreases |s|
  {
    if |s| == 0 then 0 else DigitsValue(s[..|s| - 1]) * 10 + DigitValue(s[|s| - 1])
  }

  /** `Integer.toString` of a non-negative number. */
  function NatToString(n: nat): (s: string)
    ensures IsCanonicalDigits(s)
    ensures (s[0] == '0') == (n == 0)
  {
    (if n < 10 then "" else NatToString(n / 10)) + [DigitChar(n % 10)]
  }

  /** `Integer.toString`, with a leading `-` for negative numbers. */
  function IntToString(n: int): (s: string)
    ensures n >= 0 ==> IsCanonicalDigits(s)
    ensures n < 0 ==> |s| > 1 && s[0] == '-' && IsCanonicalDigits(s[1..])
  {
    if n < 0 then "-" + NatToString(-n) else NatToString(n)
  }

  lemma {:induction false} DigitsValueOfNatToString(n: nat)
    ensures DigitsValue(NatToString(n)) == n
  {
    var s := NatToString(n);
    var p := if n < 10 then "" else NatToString(n / 10);
    assert s[..|s| - 1] == p;
    var d := n % 10;
    assert DigitValue(s[|s| - 1]) == d;
    if n >= 10 {
      DigitsValueOfNatToString(n / 10);
      assert DigitsValue(p) == n / 10;
    }
    assert DigitsValue(s) == DigitsValue(p) * 10 + d;
  }

  lemma {:induction false} PositiveDigitsValue(s: string)
    requires IsDigits(s) && s[0] != '0'
    ensures DigitsValue(s) > 0
  {
    if |s| > 1 {
      PositiveDigitsValue(s[..|s| - 1]);
    }
  }

  lemma {:induction false} NatToStringOfDigitsValue(s: string)
    requires IsCanonicalDigits(s)
    ensures NatToString(DigitsValue(s)) == s
  {
    var p, c := s[..|s| - 1], s[|s| - 1];
    var v := DigitsValue(s);
    assert v == DigitsValue(p) * 10 + DigitValue(c);
    DivMod10(DigitsValue(p), DigitValue(c));
    assert s == p + [c];
    if |s| > 1 {
      PositiveDigitsValue(p);
      NatToStringOfDigitsValue(p);
      assert NatToString(v) == NatToString(v / 10) + [DigitChar(v % 10)];
    } else {
      assert p == [] && DigitsValue(p) == 0;
      assert NatToString(v) == [DigitChar(v)];
    }
  }

  lemma DivMod10(a: nat, d: nat)
    requires d < 10
    ensures (a * 10 + d) / 10 == a && (a * 10 + d) % 10 == d
  {
  }

  /** `Integer.parseInt` on a run of ASCII digits: a value above `INT_MAX` throws. */
  function ParseDigits(s: string): (r: Result<Int32>)
    requires IsDigits(s)
    ensures r.Success? <==> DigitsValue(s) <= INT_MAX
    ensures r.Success? ==> r.value == DigitsValue(s)
    ensures r.Failure? ==> r.error == NumberFormat(s)
  {
    if DigitsValue(s) <= INT_MAX then Success(DigitsValue(s)) else Failure(NumberFormat(s))
  }

  // ---------------------------------------------------------------------------
  // String methods

  /** `String.lastIndexOf(char)`: -1 when `c` does not occur. */
  function LastIndexOf(s: string, c: char): (i: int)
    ensures -1 <= i < |s|
    ensures i >= 0 ==> s[i] == c
    ensures forall k :: i < k < |s| ==> s[k] != c
  {
    if |s| == 0 then -1
    else if s[|s| - 1] == c then |s| - 1
    else LastIndexOf(s[..|s| - 1], c)
  }

  /** `Character.isWhitespace`. */
  predicate IsWhitespace(c: char) {
    || '\t' <= c <= '\r'
    || '\U{001C}' <= c <= '\U{001F}'
    || c == ' '
    || c == '\U{1680}'
    || '\U{2000}' <= c <= '\U{2006}'
    || '\U{2008}' <= c <= '\U{200A}'
    || c == '\U{2028}' || c == '\U{2029}'
    || c == '\U{205F}' || c == '\U{3000}'
  }

  /** `String.isBlank`: empty or only whitespace. */
  predicate IsBlank(s: string) {
    forall k :: 0 <= k < |s| ==> IsWhitespace(s[k])
  }

  /** What `String.trim` removes: any character up to U+0020. */
  predicate IsTrimmable(c: char) {
    c <= ' '
  }

  function TrimStart(s: string): (i: nat)
    ensures i <= |s|
    ensures forall k :: 0 <= k < i ==> IsTrimmable(s[k])
    ensures i < |s| ==> !IsTrimmable(s[i])
  {
    if |s| == 0 || !IsTrimmable(s[0]) then 0 else 1 + TrimStart(s[1..])
  }

  function TrimEnd(s: string): (j: nat)
    ensures j <= |s|
    ensures forall k :: j <= k < |s| ==> IsTrimmable(s[k])
    ensures j > 0 ==> !IsTrimmable(s[j - 1])
  {
    if |s| == 0 || !IsTrimmable(s[|s| - 1]) then |s| else TrimEnd(s[..|s| - 1])
  }

  /** `r` is `s[i..]` cut to `|r|` characters, with only trimmable characters around it. */
  predicate TrimmedAt(s: string, r: string, i: int) {
    && 0 <= i <= |s| - |r| && s[i..i + |r|] == r
    && (forall k :: 0 <= k < i ==> IsTrimmable(s[k]))
    && (forall k :: i + |r| <= k < |s| ==> IsTrimmable(s[k]))
  }

  /**
   * `String.trim`: the slice of `s` left after removing every leading and trailing
   * character up to U+0020.
   */
  function Trim(s: string): (r: string)
    ensures |r| > 0 ==> !IsTrimmable(r[0]) && !IsTrimmable(r[|r| - 1])
    ensures exists i :: TrimmedAt(s, r, i)
  {
    var j := TrimEnd(s);
    var i := TrimStart(s[..j]);
    var r := s[i..j];
    assert TrimmedAt(s, r, i);
    r
  }

  /**
   * `trim` of a text made of trimmable padding followed by a text that neither starts
   * nor ends with a trimmable character is that text.
   */
  lemma TrimOfPadded(pad: string, p: string)
    requires forall k :: 0 <= k < |pad| ==> IsTrimmable(pad[k])
    requires |p| > 0 ==> !IsTrimmable(p[0]) && !IsTrimmable(p[|p| - 1])
    ensures Trim(pad + p) == p
  {
    var s := pad + p;
    var r := Trim(s);
    var i :| TrimmedAt(s, r, i);
    if |p| > 0 {
      assert s[|pad|] == p[0] && s[|s| - 1] == p[|p| - 1];
      if |r| > 0 {
        assert s[i] == r[0] && s[i + |r| - 1] == r[|r| - 1];
        assert i == |pad|;
        assert i + |r| == |s|;
        assert r == s[|pad|..];
      }
    }
  }

  /** Concatenation is associative; stating the regrouping explicitly keeps proofs about texts cheap. */
  lemma AppendAssociative(a: string, b: string, c: string)
    ensures a + (b + c) == (a + b) + c
  {
  }

  /** `trim` leaves a string that neither starts nor ends with a trimmable character unchanged. */
  lemma TrimFixed(s: string)
    requires |s| > 0 ==> !IsTrimmable(s[0]) && !IsTrimmable(s[|s| - 1])
    ensures Trim(s) == s
  {
    if |s| > 0 {
      assert TrimEnd(s) == |s|;
      assert s[..|s|] == s;
      assert TrimStart(s) == 0;
    }
  }

  /** The fields of `s` between occurrences of `sep`, empty ones included. */
  function SplitAll(s: string, sep: char): (fields: seq<string>)
    ensures |fields| > 0
  {
    if |s| == 0 then [""]
    else
      var rest := SplitAll(s[1..], sep);
      if s[0] == sep then [""] + rest
      else [[s[0]] + rest[0]] + rest[1..]
  }

  /** No field holds the separator. */
  lemma {:induction false} SplitAllFields(s: string, sep: char)
    ensures forall k :: 0 <= k < |SplitAll(s, sep)| ==> sep !in SplitAll(s, sep)[k]
  {
    if |s| > 0 {
      var rest := SplitAll(s[1..], sep);
      SplitAllFields(s[1..], sep);
      if s[0] == sep {
        var fields := [""] + rest;
        assert forall k :: 1 <= k < |fields| ==> fields[k] == rest[k - 1];
      } else {
        var fields := [[s[0]] + rest[0]] + rest[1..];
        assert sep !in rest[0];
        assert sep !in fields[0];
        assert forall k :: 1 <= k < |fields| ==> fields[k] == rest[k];
      }
    }
  }

  /** The fields joined with the separator give the text back. */
  lemma {:induction false} SplitAllJoin(s: string, sep: char)
    ensures JoinWith(SplitAll(s, sep), sep) == s
  {
    if |s| > 0 {
      var c, rest := s[0], SplitAll(s[1..], sep);
      SplitAllJoin(s[1..], sep);
      assert [c] + s[1..] == s;
      if c == sep {
        assert ([""] + rest)[1..] == rest;
      } else {
        var fields := [[c] + rest[0]] + rest[1..];
        if |rest| > 1 {
          var r0, j := rest[0], JoinWith(rest[1..], sep);
          assert fields[1..] == rest[1..];
          assert JoinWith(rest, sep) == r0 + [sep] + j;
          AppendAssociative([c], r0 + [sep], j);
          AppendAssociative([c], r0, [sep]);
        }
      }
    }
  }

  /** The fields joined with `sep` between them. */
  function JoinWith(fields: seq<string>, sep: char): string
    requires |fields| > 0
  {
    if |fields| == 1 then fields[0] else fields[0] + [sep] + JoinWith(fields[1..], sep)
  }

  /** Splitting a join gives the fields back, when no field contains the separator. */
  lemma {:induction false} SplitJoin(fields: seq<string>, sep: char)
    requires |fields| > 0
    requires forall k :: 0 <= k < |fields| ==> sep !in fields[k]
    ensures SplitAll(JoinWith(fields, sep), sep) == fields
  {
    if |fields| == 1 {
      SplitNoSeparator(fields[0], sep);
    } else {
      SplitJoin(fields[1..], sep);
      SplitAfterField(fields[0], JoinWith(fields[1..], sep), sep);
    }
  }

  lemma {:induction false} SplitNoSeparator(s: string, sep: char)
    requires sep !in s
    ensures SplitAll(s, sep) == [s]
  {
    if |s| > 0 {
      SplitNoSeparator(s[1..], sep);
      assert [s[0]] + s[1..] == s;
    }
  }

  lemma {:induction false} SplitAfterField(f: string, rest: string, sep: char)
    requires sep !in f
    ensures SplitAll(f + [sep] + rest, sep) == [f] + SplitAll(rest, sep)
  {
    if |f| == 0 {
      assert f + [sep] + rest == [sep] + rest;
      SplitAtSeparator(rest, sep);
    } else {
      var t := f[1..] + [sep] + rest;
      SplitAfterField(f[1..], rest, sep);
      assert f + [sep] + rest == [f[0]] + t;
      SplitAtOther(f[0], t, sep);
      var r := SplitAll(t, sep);
      assert r[0] == f[1..] && r[1..] == SplitAll(rest, sep);
      assert [f[0]] + f[1..] == f;
    }
  }

  /** One step of the split at a separator: an empty field starts. */
  lemma SplitAtSeparator(t: string, sep: char)
    ensures SplitAll([sep] + t, sep) == [""] + SplitAll(t, sep)
  {
    assert ([sep] + t)[1..] == t;
  }

  /** One step of the split at another character: it joins the first field. */
  lemma SplitAtOther(c: char, t: string, sep: char)
    requires c != sep
    ensures var r := SplitAll(t, sep); SplitAll([c] + t, sep) == [[c] + r[0]] + r[1..]
  {
    assert ([c] + t)[1..] == t;
  }

  /** The fields left after dropping every empty field at the end. */
  function DropTrailingEmpty(fields: seq<string>): (r: seq<string>)
    ensures |r| <= |fields| && r == fields[..|r|]
    ensures |r| > 0 ==> r[|r| - 1] != ""
    ensures forall k :: |r| <= k < |fields| ==> fields[k] == ""
  {
    if |fields| == 0 || fields[|fields| - 1] != "" then fields
    else DropTrailingEmpty(fields[..|fields| - 1])
  }

  /**
   * `String.split` with a one-character separator that is not a regex metacharacter
   * and limit 0: trailing empty fields are dropped, and a string without the
   * separator (the empty string included) is its own single field.
   */
  function JavaSplit(s: string, sep: char): seq<string> {
    if |s| == 0 then [s] else DropTrailingEmpty(SplitAll(s, sep))
  }

  function Count(s: string, c: char): nat {
    if |s| == 0 then 0 else (if s[0] == c then 1 else 0) + Count(s[1..], c)
  }

  lemma {:induction false} SplitAllCount(s: string, sep: char)
    ensures |SplitAll(s, sep)| == Count(s, sep) + 1
  {
    if |s| > 0 {
      SplitAllCount(s[1..], sep);
    }
  }

  /** `split` never yields more fields than there are separators plus one. */
  lemma JavaSplitCount(s: string, sep: char)
    ensures |JavaSplit(s, sep)| <= Count(s, sep) + 1
  {
    SplitAllCount(s, sep);
  }
}
