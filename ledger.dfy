/**
 * The `info.txt` ledger of data_formatter.py. `_update_info_txt` appends two
 * lines per converted file, its output path and its time stamp;
 * `_merge_pdfs` reads the lines back in pairs and orders the files by time
 * with Python's stable `sorted`.
 *
 * Time stamps are natural numbers written in decimal; reading one back
 * fails (as `float()` raises) on anything but a non-empty digit string.
 */
module Ledger {
  import opened Wrappers
  import opened PyStr

  /** One converted file: `[path, time]`. */
  datatype Entry = Entry(path: string, time: nat)

  // ---------------------------------------------------------------------
  // Writing

  /** The text `_update_info_txt` appends for one converted file. */
  function EntryText(e: Entry): (r: string)
    ensures |e.path| < |r| && r[..|e.path|] == e.path && r[|e.path|] == '\n' && r[|r| - 1] == '\n'
  {
    e.path + "\n" + NatToString(e.time) + "\n"
  }

  /** A ledger started empty after the given entries have been appended, in order. */
  function LedgerText(es: seq<Entry>): string {
    if es == [] then "" else LedgerText(es[..|es| - 1]) + EntryText(es[|es| - 1])
  }

  /** The lines of the ledger, two per entry. */
  function EntryLines(es: seq<Entry>): (ls: seq<string>)
    ensures |ls| == 2 * |es|
  {
    if es == [] then [] else EntryLines(es[..|es| - 1]) + [es[|es| - 1].path, NatToString(es[|es| - 1].time)]
  }

  lemma {:induction false} EntryLinesAt(es: seq<Entry>)
    ensures forall i :: 0 <= i < |es| ==>
      EntryLines(es)[2 * i] == es[i].path && EntryLines(es)[2 * i + 1] == NatToString(es[i].time)
  {
    if es != [] {
      var pre := es[..|es| - 1];
      EntryLinesAt(pre);
      assert forall i :: 0 <= i < |pre| ==> pre[i] == es[i];
    }
  }

  /** Lines each followed by a newline. */
  function Text(lines: seq<string>): string {
    if lines == [] then "" else lines[0] + "\n" + Text(lines[1..])
  }

  lemma {:induction false} TextAppend(a: seq<string>, b: seq<string>)
    ensures Text(a + b) == Text(a) + Text(b)
  {
    if a != [] {
      assert (a + b)[1..] == a[1..] + b;
      TextAppend(a[1..], b);
    } else {
      assert a + b == b;
    }
  }

  /** The ledger is the text of its entry lines. */
  lemma {:induction false} LedgerTextLines(es: seq<Entry>)
    ensures LedgerText(es) == Text(EntryLines(es))
  {
    if es != [] {
      var pre := es[..|es| - 1];
      var e := es[|es| - 1];
      LedgerTextLines(pre);
      var two := [e.path, NatToString(e.time)];
      TextAppend(EntryLines(pre), two);
      assert two[1..] == [NatToString(e.time)] && two[1..][1..] == [];
      assert Text(two[1..][1..]) == "";
      assert Text(two[1..]) == NatToString(e.time) + "\n" + "";
      assert Text(two) == e.path + "\n" + (NatToString(e.time) + "\n" + "");
      assert EntryText(e) == e.path + "\n" + (NatToString(e.time) + "\n" + "");
    }
  }

  // ---------------------------------------------------------------------
  // Reading

  /**
   * `f.readlines()` followed by `re.sub('\n', '', line)`: the text cut at
   * every newline, where a final newline does not start another line.
   */
  function Lines(text: string): (ls: seq<string>)
    ensures forall k :: 0 <= k < |ls| ==> '\n' !in ls[k]
  {
    var parts := Split(text, '\n');
    if parts[|parts| - 1] == "" then parts[..|parts| - 1] else parts
  }

  lemma {:induction false} SplitText(lines: seq<string>)
    requires forall k :: 0 <= k < |lines| ==> '\n' !in lines[k]
    ensures Split(Text(lines), '\n') == lines + [""]
  {
    if lines != [] {
      SplitText(lines[1..]);
      assert lines[0] + "\n" + Text(lines[1..]) == lines[0] + ['\n'] + Text(lines[1..]);
      SplitPrefix(lines[0], Text(lines[1..]), '\n');
      assert [lines[0]] + (lines[1..] + [""]) == lines + [""];
    }
  }

  /** Reading back newline-free lines written one per line gives them back. */
  lemma LinesText(lines: seq<string>)
    requires forall k :: 0 <= k < |lines| ==> '\n' !in lines[k]
    ensures Lines(Text(lines)) == lines
  {
    SplitText(lines);
    assert (lines + [""])[..|lines|] == lines;
  }

  /** Why the ledger could not be read. */
  datatype ParseError = BadTime(line: string)

  /**
   * The first `k` (path, time) pairs of the lines, `files` after `k` rounds of
   * the list-building loop; the first unreadable time line is the error.
   */
  function ParsePairs(lines: seq<string>, k: nat): (r: Result<seq<Entry>, ParseError>)
    requires 2 * k <= |lines|
    ensures r.Ok? ==> |r.value| == k
    ensures r.Ok? ==> forall i :: 0 <= i < k ==> r.value[i].path == lines[2 * i] && ParseNat(lines[2 * i + 1]) == Some(r.value[i].time)
    ensures r.Err? ==> exists i :: 0 <= i < k && ParseNat(lines[2 * i + 1]).None? && r.error == BadTime(lines[2 * i + 1])
  {
    if k == 0 then Ok([])
    else
      var pre := ParsePairs(lines, k - 1);
      if pre.Err? then pre
      else
        var t := ParseNat(lines[2 * k - 1]);
        if t.None? then Err(BadTime(lines[2 * k - 1]))
        else
          var r := pre.value + [Entry(lines[2 * k - 2], t.value)];
          assert forall i :: 0 <= i < k - 1 ==> r[i] == pre.value[i];
          Ok(r)
  }

  /** The pairs only look at the lines they read: a trailing odd line is ignored. */
  lemma {:induction false} ParsePairsPrefix(lines: seq<string>, more: seq<string>, k: nat)
    requires 2 * k <= |lines|
    ensures ParsePairs(lines + more, k) == ParsePairs(lines, k)
  {
    if k > 0 {
      ParsePairsPrefix(lines, more, k - 1);
      assert (lines + more)[2 * k - 1] == lines[2 * k - 1];
      assert (lines + more)[2 * k - 2] == lines[2 * k - 2];
    }
  }

  /** What the loop of `_merge_pdfs` builds from the ledger text: `len(lines) // 2` pairs. */
  function ParseLedger(text: string): (r: Result<seq<Entry>, ParseError>)
    ensures r.Ok? ==> |r.value| == |Lines(text)| / 2
    ensures r.Ok? ==> forall i :: 0 <= i < |r.value| ==> r.value[i].path == Lines(text)[2 * i]
  {
    var lines := Lines(text);
    ParsePairs(lines, |lines| / 2)
  }

  /** The list-building loop of `_merge_pdfs`. */
  method ReadEntries(lines: seq<string>) returns (r: Result<seq<Entry>, ParseError>)
    ensures r == ParsePairs(lines, |lines| / 2)
  {
    var files: seq<Entry> := [];
    var i := 0;
    while i < |lines| / 2
      invariant 0 <= i <= |lines| / 2
      invariant ParsePairs(lines, i) == Ok(files)
    {
      var path := lines[2 * i];
      var time := ParseNat(lines[2 * i + 1]);
      if time.None? {
        ParsePairsErrSticks(lines, i + 1, |lines| / 2);
        return Err(BadTime(lines[2 * i + 1]));
      }
      files := files + [Entry(path, time.value)];
      i := i + 1;
    }
    return Ok(files);
  }

  /** A failed parse stops the loop at once, whatever follows. */
  lemma {:induction false} ParsePairsErrSticks(lines: seq<string>, k: nat, m: nat)
    requires 2 * m <= |lines| && k <= m
    requires ParsePairs(lines, k).Err?
    ensures ParsePairs(lines, m) == ParsePairs(lines, k)
  {
    if m > k {
      ParsePairsErrSticks(lines, k, m - 1);
    }
  }

  lemma {:induction false} ParseEntryLines(es: seq<Entry>)
    ensures ParsePairs(EntryLines(es), |es|) == Ok(es)
  {
    if es != [] {
      var pre := es[..|es| - 1];
      var e := es[|es| - 1];
      var lines := EntryLines(es);
      var k := |es|;
      assert lines == EntryLines(pre) + [e.path, NatToString(e.time)];
      ParseEntryLines(pre);
      ParsePairsPrefix(EntryLines(pre), [e.path, NatToString(e.time)], |pre|);
      assert ParsePairs(lines, k - 1) == Ok(pre);
      assert lines[2 * k - 2] == e.path && lines[2 * k - 1] == NatToString(e.time);
      ParseNatToString(e.time);
      assert pre + [e] == es;
    }
  }

  lemma EntryLinesNoNewline(es: seq<Entry>)
    requires forall i :: 0 <= i < |es| ==> '\n' !in es[i].path
    ensures forall k :: 0 <= k < |EntryLines(es)| ==> '\n' !in EntryLines(es)[k]
  {
    var lines := EntryLines(es);
    EntryLinesAt(es);
    forall k | 0 <= k < |lines| ensures '\n' !in lines[k] {
      var i := k / 2;
      if k % 2 == 0 {
        assert lines[2 * i] == es[i].path;
      } else {
        assert lines[2 * i + 1] == NatToString(es[i].time);
        assert IsNumeric(NatToString(es[i].time));
      }
    }
  }

  /**
   * Round trip: a ledger written from scratch with entries whose paths hold
   * no newline is read back as exactly those entries, in order.
   */
  lemma LedgerRoundTrip(es: seq<Entry>)
    requires forall i :: 0 <= i < |es| ==> '\n' !in es[i].path
    ensures ParseLedger(LedgerText(es)) == Ok(es)
  {
    var lines := EntryLines(es);
    EntryLinesNoNewline(es);
    LedgerTextLines(es);
    LinesText(lines);
    assert Lines(LedgerText(es)) == lines;
    assert |lines| / 2 == |es|;
    ParseEntryLines(es);
  }

  // ---------------------------------------------------------------------
  // sorted(files, key=lambda x: x[1])

  predicate SortedByTime(es: seq<Entry>) {
    forall i, j :: 0 <= i < j < |es| ==> es[i].time <= es[j].time
  }

  /** The entries with time stamp `t`, in order. */
  function WithTime(es: seq<Entry>, t: nat): seq<Entry> {
    if es == [] then []
    else WithTime(es[..|es| - 1], t) + (if es[|es| - 1].time == t then [es[|es| - 1]] else [])
  }

  /** Insert `e` after every entry whose time is not later than its own. */
  function Insert(s: seq<Entry>, e: Entry): (r: seq<Entry>)
    ensures |r| == |s| + 1
  {
    if s == [] || s[|s| - 1].time <= e.time then s + [e]
    else Insert(s[..|s| - 1], e) + [s[|s| - 1]]
  }

  /** Python's stable `sorted` by time, as an insertion sort. */
  function SortByTime(es: seq<Entry>): (r: seq<Entry>)
    ensures |r| == |es|
  {
    if es == [] then [] else Insert(SortByTime(es[..|es| - 1]), es[|es| - 1])
  }

  lemma WithTimeAppend(s: seq<Entry>, x: Entry, t: nat)
    ensures WithTime(s + [x], t) == WithTime(s, t) + (if x.time == t then [x] else [])
  {
    assert (s + [x])[..|s|] == s;
  }

  lemma {:induction false} InsertPermutes(s: seq<Entry>, e: Entry)
    ensures multiset(Insert(s, e)) == multiset(s) + multiset{e}
  {
    if !(s == [] || s[|s| - 1].time <= e.time) {
      InsertPermutes(s[..|s| - 1], e);
      assert s == s[..|s| - 1] + [s[|s| - 1]];
    }
  }

  lemma {:induction false} InsertSorted(s: seq<Entry>, e: Entry)
    requires SortedByTime(s)
    ensures SortedByTime(Insert(s, e))
  {
    if !(s == [] || s[|s| - 1].time <= e.time) {
      var pre := s[..|s| - 1];
      var last := s[|s| - 1];
      InsertSorted(pre, e);
      InsertPermutes(pre, e);
      var ins := Insert(pre, e);
      // every element of `ins` is `e` or comes from `pre`, so none is later than `last`
      forall i | 0 <= i < |ins| ensures ins[i].time <= last.time {
        assert ins[i] in multiset(ins);
        if ins[i] != e {
          assert ins[i] in multiset(pre);
          var j :| 0 <= j < |pre| && pre[j] == ins[i];
          assert pre[j] == s[j];
        }
      }
    }
  }

  lemma {:induction false} InsertStable(s: seq<Entry>, e: Entry, t: nat)
    ensures WithTime(Insert(s, e), t) == WithTime(s, t) + (if e.time == t then [e] else [])
  {
    if s == [] || s[|s| - 1].time <= e.time {
      WithTimeAppend(s, e, t);
    } else {
      var pre := s[..|s| - 1];
      var last := s[|s| - 1];
      InsertStable(pre, e, t);
      WithTimeAppend(Insert(pre, e), last, t);
      WithTimeAppend(pre, last, t);
      assert s == pre + [last];
    }
  }

  /**
   * The order `_merge_pdfs` merges in: sorted by time, a permutation of the
   * ledger, and entries with equal times keep their ledger order.
   */
  lemma SortByTimeCorrect(es: seq<Entry>)
    ensures SortedByTime(SortByTime(es))
    ensures multiset(SortByTime(es)) == multiset(es)
    ensures forall t :: WithTime(SortByTime(es), t) == WithTime(es, t)
  {
    SortByTimeIsSorted(es);
    SortByTimePermutes(es);
    forall t ensures WithTime(SortByTime(es), t) == WithTime(es, t) {
      SortByTimeStable(es, t);
    }
  }

  lemma {:induction false} SortByTimeIsSorted(es: seq<Entry>)
    ensures SortedByTime(SortByTime(es))
  {
    if es != [] {
      SortByTimeIsSorted(es[..|es| - 1]);
      InsertSorted(SortByTime(es[..|es| - 1]), es[|es| - 1]);
    }
  }

  lemma {:induction false} SortByTimePermutes(es: seq<Entry>)
    ensures multiset(SortByTime(es)) == multiset(es)
  {
    if es != [] {
      var pre := es[..|es| - 1];
      var e := es[|es| - 1];
      SortByTimePermutes(pre);
      InsertPermutes(SortByTime(pre), e);
      assert es == pre + [e];
    }
  }

  lemma {:induction false} SortByTimeStable(es: seq<Entry>, t: nat)
    ensures WithTime(SortByTime(es), t) == WithTime(es, t)
  {
    if es != [] {
      var pre := es[..|es| - 1];
      var e := es[|es| - 1];
      var tail := if e.time == t then [e] else [];
      calc {
        WithTime(SortByTime(es), t);
        WithTime(Insert(SortByTime(pre), e), t);
        { InsertStable(SortByTime(pre), e, t); }
        WithTime(SortByTime(pre), t) + tail;
        { SortByTimeStable(pre, t); }
        WithTime(pre, t) + tail;
        { WithTimeAppend(pre, e, t); }
        WithTime(pre + [e], t);
        { assert es == pre + [e]; }
        WithTime(es, t);
      }
    }
  }

  /** A ledger already in time order is merged in ledger order. */
  lemma {:induction false} SortByTimeSorted(es: seq<Entry>)
    requires SortedByTime(es)
    ensures SortByTime(es) == es
  {
    if es != [] {
      var pre := es[..|es| - 1];
      SortedByTimePrefix(es);
      SortByTimeSorted(pre);
      if pre != [] {
        assert pre[|pre| - 1] == es[|es| - 2];
      }
      InsertLast(pre, es[|es| - 1]);
      assert pre + [es[|es| - 1]] == es;
    }
  }

  lemma SortedByTimePrefix(es: seq<Entry>)
    requires es != [] && SortedByTime(es)
    ensures SortedByTime(es[..|es| - 1])
  {
  }

  lemma InsertLast(s: seq<Entry>, e: Entry)
    requires s == [] || s[|s| - 1].time <= e.time
    ensures Insert(s, e) == s + [e]
  {
  }

  /** The paths in merge order: `[file[0] for file in files]`. */
  function Paths(es: seq<Entry>): (ps: seq<string>)
    ensures |ps| == |es|
    ensures forall i :: 0 <= i < |es| ==> ps[i] == es[i].path
  {
    seq(|es|, i requires 0 <= i < |es| => es[i].path)
  }
}
