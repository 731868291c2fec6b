/**
 * data_formatter/util.py: `get_format` splits a file name at its last '.',
 * `break_path` splits a Windows path at its last '\'. Both are index-walking
 * loops with quirks at the ends of the string, modelled here as they are
 * written: each loop is a method proved equal to a declarative function,
 * and the lemmas spell out the cases.
 */
module Util {
  import opened Wrappers
  import opened PyStr

  /** The last position below `hi` holding `c`, or -1. */
  function LastIndexOf(s: string, c: char, hi: nat): (k: int)
    requires hi <= |s|
    ensures -1 <= k < hi
    ensures k >= 0 ==> s[k] == c
    ensures forall j :: k < j < hi ==> s[j] != c
  {
    if hi == 0 then -1 else if s[hi - 1] == c then hi - 1 else LastIndexOf(s, c, hi - 1)
  }

  /** The last `c` below `hi` is the one with no `c` between it and `hi`. */
  lemma LastIndexOfIs(s: string, c: char, hi: nat, k: int)
    requires hi <= |s| && -1 <= k < hi
    requires k >= 0 ==> s[k] == c
    requires forall j :: k < j < hi ==> s[j] != c
    ensures LastIndexOf(s, c, hi) == k
  {
  }

  // ---------------------------------------------------------------------
  // get_format

  /**
   * What `get_format` returns, as (format, name without format). Only dots at
   * positions 1 .. |path|-1 are looked at; a trailing dot makes the
   * whole path the "format".
   */
  function FormatSplit(path: string): (r: (Option<string>, string))
    ensures r.1 <= path
    ensures r.0.None? <==> r.1 == path
  {
    var k := LastIndexOf(path, '.', |path|);
    if k < 1 then (None, path)
    else if k == |path| - 1 then (Some(path), path[..k])
    else (Some(path[k + 1..]), path[..k])
  }

  /** The name without its format, as `_, file = get_format(filename)` uses it. */
  function Stem(path: string): string {
    FormatSplit(path).1
  }

  /** util.py `get_format`: steps `i` from 1 and tests `path[-i]`. */
  method GetFormat(path: string) returns (format: Option<string>, stem: string)
    ensures (format, stem) == FormatSplit(path)
  {
    var i := 1;
    while i < |path|
      invariant 1 <= i
      invariant |path| > 0 ==> i <= |path|
      invariant forall j :: 0 <= j && |path| - i < j < |path| ==> path[j] != '.'
    {
      if path[PyIndex(|path|, -i)] == '.' {
        format, stem := Some(SliceFrom(path, -i + 1)), SliceTo(path, -i);
        return;
      }
      i := i + 1;
    }
    format, stem := None, path;
  }

  /** A dot at 1 <= k <= |path|-2 with no dot after it splits the path around it. */
  lemma GetFormatSplitsAtLastDot(path: string, k: nat)
    requires 1 <= k <= |path| - 2 && path[k] == '.'
    requires forall j :: k < j < |path| ==> path[j] != '.'
    ensures FormatSplit(path) == (Some(path[k + 1..]), path[..k])
    ensures FormatSplit(path).1 + "." + FormatSplit(path).0.value == path
    ensures '.' !in FormatSplit(path).0.value
  {
    LastIndexOfIs(path, '.', |path|, k);
    assert path[..k] + "." + path[k + 1..] == path;
  }

  /** No format is found exactly when no dot occurs past position 0. */
  lemma GetFormatNone(path: string)
    ensures FormatSplit(path).0 == None <==> forall j :: 1 <= j < |path| ==> path[j] != '.'
    ensures FormatSplit(path).0 == None ==> FormatSplit(path).1 == path
  {
  }

  /** A trailing dot makes the whole path the format, and the stem drops the dot. */
  lemma GetFormatTrailingDot(path: string)
    requires |path| >= 2 && path[|path| - 1] == '.'
    ensures FormatSplit(path) == (Some(path), path[..|path| - 1])
  {
  }

  // ---------------------------------------------------------------------
  // break_path

  /**
   * The first character `break_path` tests: `path[-i]` with i = |path|-1,
   * which is index 1 (index 0 for a one-character path).
   */
  function Probe(path: string): nat
    requires |path| >= 1
  {
    if |path| == 1 then 0 else 1
  }

  /**
   * What `break_path` returns, as (leaf, parent). A '\' at the probed index
   * stops the walk at once; otherwise the last '\' before the final character
   * splits the path; without one the leaf is the whole path. The final character
   * is never taken for a separator.
   */
  function PathSplit(path: string): (r: (string, string))
    requires |path| >= 1
    ensures r.1 < path
    ensures |r.0| <= |path| && r.0 == path[|path| - |r.0|..]
  {
    if path[Probe(path)] == '\\' then ("", path[..|path| - 1])
    else
      var k := LastIndexOf(path, '\\', |path| - 1);
      if k < 0 then (path, path[..|path| - 1]) else (path[k + 1..], path[..k])
  }

  function Leaf(path: string): string
    requires |path| >= 1
  {
    PathSplit(path).0
  }

  function Parent(path: string): string
    requires |path| >= 1
  {
    PathSplit(path).1
  }

  /** util.py `break_path`; Python raises on the empty string, so callers pass a non-empty path. */
  method BreakPath(path: string) returns (leaf: string, parent: string)
    requires |path| >= 1
    ensures (leaf, parent) == PathSplit(path)
  {
    var n := |path|;
    var i := n - 1;
    var ch := path[PyIndex(n, -i)];
    while ch != '\\' && i >= 0
      invariant -1 <= i <= n - 1
      invariant i == n - 1 ==> ch == path[Probe(path)]
      invariant 0 <= i < n - 1 ==> ch == path[i] && path[Probe(path)] != '\\'
      invariant i == -1 ==> ch == path[n - 1] && path[Probe(path)] != '\\'
      invariant forall j :: i < j < n - 1 ==> path[j] != '\\'
      decreases i + 1
    {
      i := i - 1;
      ch := path[PyIndex(n, i)];
    }
    leaf, parent := SliceFrom(path, i + 1), SliceTo(path, i);
    if i == n - 1 {
      assert path[Probe(path)] == '\\';
      assert leaf == "" && parent == path[..n - 1];
    } else if i >= 0 {
      LastIndexOfIs(path, '\\', n - 1, i);
      assert leaf == path[i + 1..] && parent == path[..i];
    } else {
      LastIndexOfIs(path, '\\', n - 1, -1);
      assert leaf == path && parent == path[..n - 1];
    }
  }

  /** With no '\' at index 1, the last '\' before the final character splits the path. */
  lemma BreakPathAtSeparator(path: string, k: nat)
    requires |path| >= 2 && path[1] != '\\'
    requires k < |path| - 1 && path[k] == '\\'
    requires forall j :: k < j < |path| - 1 ==> path[j] != '\\'
    ensures PathSplit(path) == (path[k + 1..], path[..k])
    ensures Parent(path) + "\\" + Leaf(path) == path
    ensures forall j :: 0 <= j < |Leaf(path)| - 1 ==> Leaf(path)[j] != '\\'
  {
    assert path[..k] + "\\" + path[k + 1..] == path;
  }

  /** With no '\' before the final character, the leaf is the whole path. */
  lemma BreakPathNoSeparator(path: string)
    requires |path| >= 2 && path[1] != '\\'
    requires forall j :: 0 <= j < |path| - 1 ==> path[j] != '\\'
    ensures PathSplit(path) == (path, path[..|path| - 1])
  {
  }

  /** A '\' at index 1 stops `break_path` before its loop: empty leaf, path minus its last character. */
  lemma BreakPathIndexOne(path: string)
    requires |path| >= 2 && path[1] == '\\'
    ensures PathSplit(path) == ("", path[..|path| - 1])
  {
  }

  // ---------------------------------------------------------------------
  // os.path.join

  /**
   * `os.path.join(a, b)` on Windows for a relative `b` without a drive: a '\'
   * is inserted unless `a` is empty or already ends with a separator.
   */
  function PathJoin(a: string, b: string): string {
    if a == [] || a[|a| - 1] == '\\' || a[|a| - 1] == '/' then a + b else a + "\\" + b
  }

  /** Joining onto one directory is injective in the name. */
  lemma PathJoinInjective(dir: string, x: string, y: string)
    requires PathJoin(dir, x) == PathJoin(dir, y)
    ensures x == y
  {
    var p := if dir == [] || dir[|dir| - 1] == '\\' || dir[|dir| - 1] == '/' then dir else dir + "\\";
    assert PathJoin(dir, x) == p + x && PathJoin(dir, y) == p + y;
    assert x == (p + x)[|p|..];
    assert y == (p + y)[|p|..];
  }
}
