/**
 * The pieces of Python's `str` behaviour that the data formatter relies on:
 * negative indices and clamped slices, `in` on strings, `split(sep)`,
 * `strip(chars)`, `replace(old, '')`, ASCII `lower()` and `isnumeric()`,
 * `str(n)` for a natural number and its inverse.
 */
module PyStr {
  import opened Wrappers

  // ---------------------------------------------------------------------
  // Indexing and slicing

  /** The position `s[i]` reads for a Python index `i` (negative counts from the end). */
  function PyIndex(n: nat, i: int): nat
    requires -(n as int) <= i < n
  {
    if i < 0 then n + i else i
  }

  /** The position a Python slice bound `j` stands for in a string of length `n`. */
  function SliceBound(n: nat, j: int): (k: nat)
    ensures k <= n
    ensures 0 <= j <= n ==> k == j
    ensures -(n as int) <= j < 0 ==> k == n + j
  {
    if j < 0 then (if n + j < 0 then 0 else n + j)
    else if j > n then n
    else j
  }

  /** `s[j:]` */
  function SliceFrom(s: string, j: int): string {
    s[SliceBound(|s|, j)..]
  }

  /** `s[:j]` */
  function SliceTo(s: string, j: int): string {
    s[..SliceBound(|s|, j)]
  }

  // ---------------------------------------------------------------------
  // Substring test: Python's `sub in s`

  predicate OccursAt(s: string, sub: string, i: nat) {
    i + |sub| <= |s| && s[i..i + |sub|] == sub
  }

  predicate Contains(s: string, sub: string) {
    exists i: nat | i <= |s| :: OccursAt(s, sub, i)
  }

  lemma ContainsLength(s: string, sub: string)
    requires Contains(s, sub)
    ensures |sub| <= |s|
  {
    var i: nat :| i <= |s| && OccursAt(s, sub, i);
  }

  /** A string without the first character of `sub` does not contain `sub`. */
  lemma NotContainedWithoutHead(s: string, sub: string)
    requires |sub| >= 1 && sub[0] !in s
    ensures !Contains(s, sub)
  {
    forall i: nat | i <= |s| ensures !OccursAt(s, sub, i) {
      if i < |s| {
        assert s[i] in s;
      }
    }
  }

  lemma ContainsSelf(s: string)
    ensures Contains(s, s)
  {
    assert OccursAt(s, s, 0);
  }

  /** A substring of a substring is a substring. */
  lemma ContainsTransitive(s: string, mid: string, sub: string)
    requires Contains(s, mid) && Contains(mid, sub)
    ensures Contains(s, sub)
  {
    var i: nat :| i <= |s| && OccursAt(s, mid, i);
    var j: nat :| j <= |mid| && OccursAt(mid, sub, j);
    forall k | 0 <= k < |sub|
      ensures s[i + j..i + j + |sub|][k] == sub[k]
    {
      assert sub[k] == mid[j + k] == s[i + j + k];
    }
    assert s[i + j..i + j + |sub|] == sub;
    assert OccursAt(s, sub, i + j);
  }

  // ---------------------------------------------------------------------
  // str.split(sep) with an explicit one-character separator

  /** Python's `s.split(sep)`: every separator ends a piece, so empty pieces are kept. */
  function Split(s: string, sep: char): (parts: seq<string>)
    ensures |parts| >= 1
    ensures forall k :: 0 <= k < |parts| ==> sep !in parts[k]
    ensures forall k, c :: 0 <= k < |parts| && c in parts[k] ==> c in s
  {
    if s == [] then [""]
    else
      var rest := Split(s[1..], sep);
      assert forall k, c :: 0 <= k < |rest| && c in rest[k] ==> c in s[1..];
      assert forall c :: c in s[1..] ==> c in s;
      if s[0] == sep then
        var parts := [""] + rest;
        assert forall k :: 1 <= k < |parts| ==> parts[k] == rest[k - 1];
        parts
      else
        var parts := [[s[0]] + rest[0]] + rest[1..];
        assert forall k :: 1 <= k < |parts| ==> parts[k] == rest[k];
        parts
  }

  /** `sep.join(parts)` */
  function Join(parts: seq<string>, sep: char): string
    requires |parts| >= 1
  {
    if |parts| == 1 then parts[0] else parts[0] + [sep] + Join(parts[1..], sep)
  }

  /** Joining two non-empty lists puts one separator between their joins. */
  lemma {:induction false} JoinAppend(a: seq<string>, b: seq<string>, sep: char)
    requires |a| >= 1 && |b| >= 1
    ensures Join(a + b, sep) == Join(a, sep) + [sep] + Join(b, sep)
  {
    if |a| > 1 {
      JoinAppend(a[1..], b, sep);
      assert (a + b)[1..] == a[1..] + b;
    } else {
      assert (a + b)[1..] == b;
    }
  }

  /** Joining the pieces back with the separator restores the string. */
  lemma {:induction false} JoinSplit(s: string, sep: char)
    ensures Join(Split(s, sep), sep) == s
  {
    if s != [] {
      var rest := Split(s[1..], sep);
      JoinSplit(s[1..], sep);
      if s[0] == sep {
        assert Split(s, sep)[1..] == rest;
      } else if |rest| == 1 {
        assert [s[0]] + rest[0] == s;
      } else {
        var parts := Split(s, sep);
        assert parts[1..] == rest[1..];
        assert Join(rest, sep) == rest[0] + [sep] + Join(rest[1..], sep);
      }
    }
  }

  /** Conversely, splitting a join of separator-free pieces gives the pieces back. */
  lemma {:induction false} SplitJoin(parts: seq<string>, sep: char)
    requires |parts| >= 1
    requires forall k :: 0 <= k < |parts| ==> sep !in parts[k]
    ensures Split(Join(parts, sep), sep) == parts
  {
    if |parts| == 1 {
      SplitNoSeparator(parts[0], sep);
    } else {
      SplitJoin(parts[1..], sep);
      SplitPrefix(parts[0], Join(parts[1..], sep), sep);
      assert [parts[0]] + parts[1..] == parts;
    }
  }

  lemma {:induction false} SplitNoSeparator(s: string, sep: char)
    requires sep !in s
    ensures Split(s, sep) == [s]
  {
    if s != [] {
      SplitNoSeparator(s[1..], sep);
      assert [s[0]] + s[1..] == s;
    }
  }

  /** Splitting `w + sep + rest`, for a separator-free `w`, starts with `w`. */
  lemma {:induction false} SplitPrefix(w: string, rest: string, sep: char)
    requires sep !in w
    ensures Split(w + [sep] + rest, sep) == [w] + Split(rest, sep)
  {
    if w == [] {
      assert w + [sep] + rest == [sep] + rest;
      assert ([sep] + rest)[1..] == rest;
    } else {
      SplitPrefix(w[1..], rest, sep);
      assert (w + [sep] + rest)[1..] == w[1..] + [sep] + rest;
      assert [w[0]] + w[1..] == w;
    }
  }

  // ---------------------------------------------------------------------
  // str.strip(chars)

  /** `s.lstrip(cs)` */
  function StripLeft(s: string, cs: set<char>): (r: string)
    ensures |r| <= |s|
    ensures r == s[|s| - |r|..]
    ensures forall i :: 0 <= i < |s| - |r| ==> s[i] in cs
    ensures r == [] || r[0] !in cs
  {
    if s != [] && s[0] in cs then StripLeft(s[1..], cs) else s
  }

  /** `s.rstrip(cs)` */
  function StripRight(s: string, cs: set<char>): (r: string)
    ensures |r| <= |s|
    ensures r == s[..|r|]
    ensures forall i :: |r| <= i < |s| ==> s[i] in cs
    ensures r == [] || r[|r| - 1] !in cs
  {
    if s != [] && s[|s| - 1] in cs then StripRight(s[..|s| - 1], cs) else s
  }

  /**
   * `s.strip(cs)`: what is left is a contiguous piece of `s` with no
   * character of `cs` at either end, and everything cut off at either end
   * is in `cs`.
   */
  function Strip(s: string, cs: set<char>): (r: string)
    ensures exists a, b :: StrippedTo(s, cs, a, b) && r == s[a..b]
    ensures r == [] || (r[0] !in cs && r[|r| - 1] !in cs)
    ensures forall c :: c in r ==> c in s
  {
    StripCut(s, cs);
    StripRight(StripLeft(s, cs), cs)
  }

  lemma StripCut(s: string, cs: set<char>)
    ensures var r := StripRight(StripLeft(s, cs), cs);
      exists a, b :: StrippedTo(s, cs, a, b) && r == s[a..b]
  {
    var l := StripLeft(s, cs);
    var r := StripRight(l, cs);
    var a, b := |s| - |l|, |s| - |l| + |r|;
    assert r == s[a..][..|r|] == s[a..b];
    StripRightCut(s, l, cs, a, b);
    assert StrippedTo(s, cs, a, b);
  }

  /** `s[a..b]` is what is left once characters of `cs` are cut off both ends. */
  predicate StrippedTo(s: string, cs: set<char>, a: int, b: int) {
    0 <= a <= b <= |s| &&
    (forall i :: 0 <= i < a ==> s[i] in cs) && (forall i :: b <= i < |s| ==> s[i] in cs)
  }

  lemma StripRightCut(s: string, l: string, cs: set<char>, a: int, b: int)
    requires 0 <= a <= b <= |s| && l == s[a..]
    requires forall i :: b - a <= i < |l| ==> l[i] in cs
    ensures forall i :: b <= i < |s| ==> s[i] in cs
  {
    forall i | b <= i < |s| ensures s[i] in cs {
      assert s[i] == l[i - a];
    }
  }

  // ---------------------------------------------------------------------
  // str.replace(old, '')

  /** `s.replace(pat, '')`: occurrences are removed left to right without rescanning the result. */
  function RemoveAll(s: string, pat: string): (r: string)
    requires |pat| > 0
    ensures |r| <= |s|
    ensures forall c :: c in r ==> c in s
    decreases |s|
  {
    if |s| < |pat| then s
    else if s[..|pat|] == pat then RemoveAll(s[|pat|..], pat)
    else [s[0]] + RemoveAll(s[1..], pat)
  }

  /** A string in which `pat` does not occur is left unchanged. */
  lemma {:induction false} RemoveAllAbsent(s: string, pat: string)
    requires |pat| > 0 && !Contains(s, pat)
    ensures RemoveAll(s, pat) == s
    decreases |s|
  {
    if |s| >= |pat| {
      assert !OccursAt(s, pat, 0);
      assert s[..|pat|] != pat;
      if Contains(s[1..], pat) {
        var i: nat :| i <= |s[1..]| && OccursAt(s[1..], pat, i);
        assert s[1..][i..i + |pat|] == s[i + 1..i + 1 + |pat|];
        assert OccursAt(s, pat, i + 1);
      }
      RemoveAllAbsent(s[1..], pat);
      assert [s[0]] + s[1..] == s;
    }
  }

  /** A string in which `pat` occurs is shortened. */
  lemma {:induction false} RemoveAllShortens(s: string, pat: string)
    requires |pat| > 0 && Contains(s, pat)
    ensures |RemoveAll(s, pat)| < |s|
    decreases |s|
  {
    ContainsLength(s, pat);
    if s[..|pat|] != pat {
      var i: nat :| i <= |s| && OccursAt(s, pat, i);
      assert i != 0;
      assert s[1..][i - 1..i - 1 + |pat|] == s[i..i + |pat|];
      assert OccursAt(s[1..], pat, i - 1);
      RemoveAllShortens(s[1..], pat);
    }
  }

  /**
   * The scan keeps the first `n` characters when no occurrence of `pat`
   * starts among them, then takes out the `pat` that starts at `n`.
   */
  lemma {:induction false} RemoveAllSplices(s: string, n: nat, pat: string)
    requires |pat| > 0 && OccursAt(s, pat, n)
    requires forall i :: 0 <= i < n ==> !OccursAt(s, pat, i)
    ensures RemoveAll(s, pat) == s[..n] + RemoveAll(s[n + |pat|..], pat)
    decreases n
  {
    if n == 0 {
      RemoveAllDropHead(s, pat);
    } else {
      var t := s[1..];
      RemoveAllSkipHead(s, pat);
      ScanShift(s, n, pat);
      RemoveAllSplices(t, n - 1, pat);
      assert t[n - 1 + |pat|..] == s[n + |pat|..];
      ConsSplice(s, n, RemoveAll(t, pat), RemoveAll(s, pat), RemoveAll(s[n + |pat|..], pat));
    }
  }

  /** Dropping the first character moves every position of `pat` one to the left. */
  lemma ScanShift(s: string, n: nat, pat: string)
    requires 0 < n && OccursAt(s, pat, n)
    requires forall i :: 0 <= i < n ==> !OccursAt(s, pat, i)
    ensures OccursAt(s[1..], pat, n - 1)
    ensures forall i :: 0 <= i < n - 1 ==> !OccursAt(s[1..], pat, i)
  {
    forall i | 0 <= i < n - 1 ensures !OccursAt(s[1..], pat, i) {
      OccursShift(s, pat, i);
    }
    OccursShift(s, pat, n - 1);
  }

  lemma ConsSplice(s: string, n: nat, tail: string, whole: string, x: string)
    requires 0 < n <= |s|
    requires whole == [s[0]] + tail && tail == s[1..][..n - 1] + x
    ensures whole == s[..n] + x
  {
    assert [s[0]] + s[1..][..n - 1] == s[..n];
  }

  lemma RemoveAllDropHead(s: string, pat: string)
    requires |pat| > 0 && OccursAt(s, pat, 0)
    ensures RemoveAll(s, pat) == s[..0] + RemoveAll(s[|pat|..], pat)
  {
    assert s[..|pat|] == pat;
    assert s[..0] == [];
  }

  lemma RemoveAllSkipHead(s: string, pat: string)
    requires |pat| > 0 && |s| >= |pat| && !OccursAt(s, pat, 0)
    ensures RemoveAll(s, pat) == [s[0]] + RemoveAll(s[1..], pat)
  {
  }

  lemma OccursShift(s: string, pat: string, i: nat)
    requires |s| >= 1
    ensures OccursAt(s, pat, i + 1) <==> OccursAt(s[1..], pat, i)
  {
    if i + 1 + |pat| <= |s| {
      assert s[1..][i..i + |pat|] == s[i + 1..i + 1 + |pat|];
    }
  }

  // ---------------------------------------------------------------------
  // Case and digits (ASCII approximations of Python's Unicode methods)

  function LowerChar(c: char): char {
    if 'A' <= c <= 'Z' then (c as int + 32) as char else c
  }

  /** `s.lower()`, restricted to ASCII letters. */
  function Lower(s: string): (r: string)
    ensures |r| == |s|
    ensures forall i :: 0 <= i < |s| ==> r[i] == LowerChar(s[i])
  {
    seq(|s|, i requires 0 <= i < |s| => LowerChar(s[i]))
  }

  predicate IsDigit(c: char) {
    '0' <= c <= '9'
  }

  /** `s.isnumeric()`, restricted to ASCII digits: false on the empty string. */
  predicate IsNumeric(s: string) {
    |s| > 0 && forall i :: 0 <= i < |s| ==> IsDigit(s[i])
  }

  // ---------------------------------------------------------------------
  // str(n) and its inverse on decimal digit strings

  function DigitChar(d: nat): char
    requires d < 10
  {
    ('0' as int + d) as char
  }

  function DigitValue(c: char): nat
    requires IsDigit(c)
  {
    c as int - '0' as int
  }

  /** `str(n)` for a natural number. */
  function NatToString(n: nat): (s: string)
    ensures IsNumeric(s)
    ensures n < 10 <==> |s| == 1
  {
    if n < 10 then [DigitChar(n)] else NatToString(n / 10) + [DigitChar(n % 10)]
  }

  /** The value of a non-empty string of decimal digits, or None (where Python's `int()`/`float()` would raise). */
  function ParseNat(s: string): Option<nat> {
    if IsNumeric(s) then Some(DigitsValue(s)) else None
  }

  function DigitsValue(s: string): nat
    requires forall i :: 0 <= i < |s| ==> IsDigit(s[i])
  {
    if s == [] then 0 else DigitsValue(s[..|s| - 1]) * 10 + DigitValue(s[|s| - 1])
  }

  /** Reading back what `str(n)` wrote yields `n`. */
  lemma {:induction false} ParseNatToString(n: nat)
    ensures ParseNat(NatToString(n)) == Some(n)
  {
    var s := NatToString(n);
    var last := DigitChar(n % 10);
    assert IsDigit(last) && DigitValue(last) == n % 10;
    assert IsNumeric(s);
    if n >= 10 {
      var front := NatToString(n / 10);
      ParseNatToString(n / 10);
      assert s == front + [last];
      assert s[..|s| - 1] == front && s[|s| - 1] == last;
      assert DigitsValue(front) == n / 10;
      assert DigitsValue(s) == DigitsValue(front) * 10 + n % 10;
    } else {
      assert s == [last];
      assert s[..|s| - 1] == [] && s[|s| - 1] == last;
      assert DigitsValue(s) == 0 * 10 + n % 10;
    }
    assert DigitsValue(s) == n;
  }

  /** Different numbers are written differently. */
  lemma NatToStringInjective(a: nat, b: nat)
    requires NatToString(a) == NatToString(b)
    ensures a == b
  {
    ParseNatToString(a);
    ParseNatToString(b);
  }
}
