/**
 * data_formatter.py `_update_info_txt` and `_merge_pdfs` on the modelled
 * disk.
 *
 * `_merge_pdfs` reads the ledger, orders its files by time, writes the
 * merged PDF `<patient>.pdf` next to the ledger, and deletes the ledger and
 * the merged files. Each way it can raise is an error value; an error
 * raised while deleting leaves what was already done in place.
 */
module Merge {
  import opened Wrappers
  import opened PyStr
  import opened Util
  import opened Disk
  import opened Ledger

  // ---------------------------------------------------------------------
  // _update_info_txt

  /** `os.path.join(out_path_dir, 'info.txt')` */
  function InfoPath(outPathDir: string): string {
    PathJoin(outPathDir, "info.txt")
  }

  /** The content of a text file, "" when it does not exist (mode `a+` creates it). */
  function TextOf(d: Disk, p: string): string {
    if p in d.texts then d.texts[p] else ""
  }

  /**
   * data_formatter.py `_update_info_txt`: appends the output file and the
   * input file's time stamp to the directory's ledger and returns the
   * ledger's path.
   */
  function UpdateInfoTxt(d: Disk, outPathFile: string, outPathDir: string, time: nat): (r: (Disk, string))
    ensures r.1 == InfoPath(outPathDir)
    ensures r.0.pdfs == d.pdfs
    ensures r.0.texts == d.texts[r.1 := TextOf(d, r.1) + EntryText(Entry(outPathFile, time))]
  {
    var txtPath := InfoPath(outPathDir);
    (d.(texts := d.texts[txtPath := TextOf(d, txtPath) + EntryText(Entry(outPathFile, time))]), txtPath)
  }

  /** Appending to a ledger written from entries gives the ledger of one more entry. */
  lemma UpdateInfoTxtExtends(d: Disk, es: seq<Entry>, outPathFile: string, outPathDir: string, time: nat)
    requires TextOf(d, InfoPath(outPathDir)) == LedgerText(es)
    ensures var (d', txt) := UpdateInfoTxt(d, outPathFile, outPathDir, time);
      d'.texts[txt] == LedgerText(es + [Entry(outPathFile, time)])
  {
    assert (es + [Entry(outPathFile, time)])[..|es|] == es;
  }

  // ---------------------------------------------------------------------
  // _merge_pdfs

  datatype MergeError =
    | NoLedger                  // `txt_path` is None: `break_path(None)` raises
    | EmptyPath(path: string)   // `break_path('')` raises
    | MissingLedger(path: string)
    | Unreadable(cause: ParseError)
    | MissingPdf(path: string)  // `merger.append` on a file that does not exist
    | AlreadyRemoved(path: string)  // `os.remove` of a path listed twice

  /** The first path that names no PDF, if any. */
  function FirstMissing(paths: seq<string>, pdfs: map<string, seq<string>>): (r: Option<string>)
    ensures r.None? <==> forall i :: 0 <= i < |paths| ==> paths[i] in pdfs
    ensures r.Some? ==> exists i :: 0 <= i < |paths| && paths[i] == r.value && r.value !in pdfs &&
                                    forall j :: 0 <= j < i ==> paths[j] in pdfs
  {
    if paths == [] then None
    else if paths[0] !in pdfs then Some(paths[0])
    else
      var r := FirstMissing(paths[1..], pdfs);
      assert forall i :: 0 < i < |paths| ==> paths[i] == paths[1..][i - 1];
      r
  }

  /** The pages of the merged PDF: those of each file, in merge order. */
  function Pages(paths: seq<string>, pdfs: map<string, seq<string>>): seq<string>
    requires forall i :: 0 <= i < |paths| ==> paths[i] in pdfs
  {
    if paths == [] then [] else pdfs[paths[0]] + Pages(paths[1..], pdfs)
  }

  /** The paths as a set. */
  function PathSet(paths: seq<string>): (ps: set<string>)
    ensures forall p :: p in ps <==> p in paths
  {
    set i | 0 <= i < |paths| :: paths[i]
  }

  /**
   * The deleting loop: removes each path in turn, and stops at the first
   * one that is already gone.
   */
  function RemovePdfs(pdfs: map<string, seq<string>>, paths: seq<string>): (r: (map<string, seq<string>>, Option<string>))
    ensures r.1.None? ==> r.0 == pdfs - PathSet(paths)
  {
    if paths == [] then (pdfs, None)
    else if paths[0] !in pdfs then (pdfs, Some(paths[0]))
    else
      var r := RemovePdfs(pdfs - {paths[0]}, paths[1..]);
      assert PathSet(paths) == {paths[0]} + PathSet(paths[1..]);
      r
  }

  /** Deleting distinct existing paths never finds one already gone. */
  lemma {:induction false} RemoveDistinct(pdfs: map<string, seq<string>>, paths: seq<string>)
    requires forall i :: 0 <= i < |paths| ==> paths[i] in pdfs
    requires forall i, j :: 0 <= i < j < |paths| ==> paths[i] != paths[j]
    ensures RemovePdfs(pdfs, paths).1 == None
  {
    if paths != [] {
      var rest := paths[1..];
      forall i | 0 <= i < |rest| ensures rest[i] in pdfs - {paths[0]} {
        assert rest[i] == paths[i + 1];
      }
      forall i, j | 0 <= i < j < |rest| ensures rest[i] != rest[j] {
        assert rest[i] == paths[i + 1] && rest[j] == paths[j + 1];
      }
      RemoveDistinct(pdfs - {paths[0]}, rest);
    }
  }

  /** What `_merge_pdfs(txt_path)` does: the new disk, and the error it raised if any. */
  function MergeOutcome(txtPath: Option<string>, d: Disk): (r: (Disk, Option<MergeError>))
    ensures r.1 == Some(NoLedger) <==> txtPath.None?
    ensures r.1.None? ==> txtPath.Some? && r.0.texts == d.texts - {txtPath.value}
  {
    if txtPath.None? then (d, Some(NoLedger))
    else
      var txt := txtPath.value;
      if |txt| == 0 then (d, Some(EmptyPath(txt)))
      else
        var root := Parent(txt);
        if |root| == 0 then (d, Some(EmptyPath(root)))
        else if txt !in d.texts then (d, Some(MissingLedger(txt)))
        else
          var files := ParseLedger(d.texts[txt]);
          if files.Err? then (d, Some(Unreadable(files.error)))
          else
            var paths := Paths(SortByTime(files.value));
            var missing := FirstMissing(paths, d.pdfs);
            if missing.Some? then (d, Some(MissingPdf(missing.value)))
            else
              var mergePath := PathJoin(root, Leaf(root) + ".pdf");
              var written := d.pdfs[mergePath := Pages(paths, d.pdfs)];
              var (pdfs', gone) := RemovePdfs(written, paths);
              (Disk(pdfs', d.texts - {txt}), if gone.Some? then Some(AlreadyRemoved(gone.value)) else None)
  }

  /** The path of the merged PDF: `<root>\<patient>.pdf` for the ledger's directory `root`. */
  function MergePath(txt: string): string
    requires |txt| >= 1 && |Parent(txt)| >= 1
  {
    PathJoin(Parent(txt), Leaf(Parent(txt)) + ".pdf")
  }

  /** The `merger.append` loop: every path must name a PDF. */
  method CheckPdfs(paths: seq<string>, pdfs: map<string, seq<string>>) returns (missing: Option<string>)
    ensures missing == FirstMissing(paths, pdfs)
  {
    var i := 0;
    while i < |paths|
      invariant 0 <= i <= |paths|
      invariant forall j :: 0 <= j < i ==> paths[j] in pdfs
      invariant FirstMissing(paths, pdfs) == FirstMissing(paths[i..], pdfs)
    {
      assert paths[i..][1..] == paths[i + 1..];
      if paths[i] !in pdfs {
        return Some(paths[i]);
      }
      i := i + 1;
    }
    return None;
  }

  /** The `os.remove(pdf)` loop. */
  method RemoveLoop(pdfs: map<string, seq<string>>, paths: seq<string>)
    returns (pdfs': map<string, seq<string>>, gone: Option<string>)
    ensures (pdfs', gone) == RemovePdfs(pdfs, paths)
  {
    pdfs' := pdfs;
    var i := 0;
    while i < |paths|
      invariant 0 <= i <= |paths|
      invariant RemovePdfs(pdfs', paths[i..]) == RemovePdfs(pdfs, paths)
    {
      assert paths[i..][1..] == paths[i + 1..];
      if paths[i] !in pdfs' {
        return pdfs', Some(paths[i]);
      }
      pdfs' := pdfs' - {paths[i]};
      i := i + 1;
    }
    gone := None;
  }

  /** data_formatter.py `_merge_pdfs` */
  method MergePdfs(txtPath: Option<string>, d: Disk) returns (d': Disk, err: Option<MergeError>)
    ensures (d', err) == MergeOutcome(txtPath, d)
  {
    if txtPath.None? {
      return d, Some(NoLedger);
    }
    var txt := txtPath.value;
    if |txt| == 0 {
      return d, Some(EmptyPath(txt));
    }
    var _, txtPathRoot := BreakPath(txt);
    if |txtPathRoot| == 0 {
      return d, Some(EmptyPath(txtPathRoot));
    }
    var patient, _ := BreakPath(txtPathRoot);
    if txt !in d.texts {
      return d, Some(MissingLedger(txt));
    }
    var lines := Lines(d.texts[txt]);
    var files := ReadEntries(lines);
    if files.Err? {
      return d, Some(Unreadable(files.error));
    }
    var paths := Paths(SortByTime(files.value));
    var missing := CheckPdfs(paths, d.pdfs);
    if missing.Some? {
      return d, Some(MissingPdf(missing.value));
    }
    var mergePath := PathJoin(txtPathRoot, patient + ".pdf");
    var pdfs := d.pdfs[mergePath := Pages(paths, d.pdfs)];
    var texts := d.texts - {txt};
    var gone;
    pdfs, gone := RemoveLoop(pdfs, paths);
    d' := Disk(pdfs, texts);
    err := if gone.Some? then Some(AlreadyRemoved(gone.value)) else None;
  }

  /** Every error before the deleting loop leaves the disk as it was. */
  lemma MergeErrorsChangeNothing(txtPath: Option<string>, d: Disk)
    ensures var (d', err) := MergeOutcome(txtPath, d);
      err.Some? && !err.value.AlreadyRemoved? ==> d' == d
  {
  }

  /**
   * A successful merge writes `<patient>.pdf` holding the ledger's files in
   * time order, equal times in ledger order; it deletes the ledger and every
   * merged file other than the merged PDF itself, and touches nothing else.
   */
  lemma MergeSucceeds(txt: string, d: Disk)
    requires MergeOutcome(Some(txt), d).1.None?
    ensures |txt| >= 1 && |Parent(txt)| >= 1 && txt in d.texts && ParseLedger(d.texts[txt]).Ok?
    ensures var es := ParseLedger(d.texts[txt]).value;
            var order := SortByTime(es);
            var paths := Paths(order);
            var d' := MergeOutcome(Some(txt), d).0;
      SortedByTime(order) && multiset(order) == multiset(es) &&
      (forall t :: WithTime(order, t) == WithTime(es, t)) &&
      (forall i :: 0 <= i < |paths| ==> paths[i] in d.pdfs) &&
      d'.texts == d.texts - {txt} &&
      d'.pdfs == d.pdfs[MergePath(txt) := Pages(paths, d.pdfs)] - PathSet(paths)
  {
    SortByTimeCorrect(ParseLedger(d.texts[txt]).value);
  }

  /** Sorting keeps the paths distinct, and each one is a path of the ledger. */
  lemma SortedPaths(es: seq<Entry>)
    requires forall i, j :: 0 <= i < j < |es| ==> es[i].path != es[j].path
    ensures forall i :: 0 <= i < |Paths(SortByTime(es))| ==>
      exists a :: 0 <= a < |es| && Paths(SortByTime(es))[i] == es[a].path
    ensures forall i, j :: 0 <= i < j < |Paths(SortByTime(es))| ==> Paths(SortByTime(es))[i] != Paths(SortByTime(es))[j]
  {
    var order := SortByTime(es);
    SortByTimeCorrect(es);
    var paths := Paths(order);
    forall i | 0 <= i < |paths| ensures exists a :: 0 <= a < |es| && paths[i] == es[a].path {
      assert order[i] in multiset(es);
      var a :| 0 <= a < |es| && es[a] == order[i];
    }
    forall i, j | 0 <= i < j < |paths| ensures paths[i] != paths[j] {
      assert order[i] in multiset(es) && order[j] in multiset(es);
      var a :| 0 <= a < |es| && es[a] == order[i];
      var b :| 0 <= b < |es| && es[b] == order[j];
      if a == b {
        // the same ledger entry cannot sit at two places of a permutation of distinct entries
        DistinctCount(es, a);
        PermutationCount(order, i, j);
        assert false;
      }
    }
  }

  /**
   * A ledger written from scratch for distinct, existing, newline-free PDFs
   * other than the merge target merges without error into those PDFs in time
   * order.
   */
  lemma MergeOfWrittenLedger(txt: string, d: Disk, es: seq<Entry>)
    requires |txt| >= 1 && |Parent(txt)| >= 1
    requires txt in d.texts && d.texts[txt] == LedgerText(es)
    requires forall i :: 0 <= i < |es| ==> '\n' !in es[i].path && es[i].path in d.pdfs && es[i].path != MergePath(txt)
    requires forall i, j :: 0 <= i < j < |es| ==> es[i].path != es[j].path
    ensures var paths := Paths(SortByTime(es));
      (forall i :: 0 <= i < |paths| ==> paths[i] in d.pdfs) &&
      MergeOutcome(Some(txt), d) ==
        (Disk(d.pdfs[MergePath(txt) := Pages(paths, d.pdfs)] - PathSet(paths), d.texts - {txt}), None)
  {
    LedgerRoundTrip(es);
    MergeDeletesAll(txt, d, es);
    MergeOutcomeOk(txt, d, es);
  }

  /** Merging distinct existing files deletes each of them without error. */
  lemma MergeDeletesAll(txt: string, d: Disk, es: seq<Entry>)
    requires |txt| >= 1 && |Parent(txt)| >= 1
    requires forall i :: 0 <= i < |es| ==> es[i].path in d.pdfs
    requires forall i, j :: 0 <= i < j < |es| ==> es[i].path != es[j].path
    ensures forall i :: 0 <= i < |Paths(SortByTime(es))| ==> Paths(SortByTime(es))[i] in d.pdfs
    ensures RemovePdfs(d.pdfs[MergePath(txt) := Pages(Paths(SortByTime(es)), d.pdfs)], Paths(SortByTime(es))).1 == None
  {
    SortedPaths(es);
    SortedPathsIn(es, d.pdfs);
    var paths := Paths(SortByTime(es));
    var written := d.pdfs[MergePath(txt) := Pages(paths, d.pdfs)];
    assert forall i :: 0 <= i < |paths| ==> paths[i] in written;
    RemoveDistinct(written, paths);
  }

  lemma SortedPathsIn(es: seq<Entry>, pdfs: map<string, seq<string>>)
    requires forall i :: 0 <= i < |es| ==> es[i].path in pdfs
    ensures forall i :: 0 <= i < |Paths(SortByTime(es))| ==> Paths(SortByTime(es))[i] in pdfs
  {
    var order := SortByTime(es);
    SortByTimeCorrect(es);
    forall i | 0 <= i < |order| ensures order[i].path in pdfs {
      assert order[i] in multiset(es);
      var a :| 0 <= a < |es| && es[a] == order[i];
    }
  }

  /** The outcome once the ledger reads as `es`, every file exists and no deletion fails. */
  lemma MergeOutcomeOk(txt: string, d: Disk, es: seq<Entry>)
    requires |txt| >= 1 && |Parent(txt)| >= 1
    requires txt in d.texts && ParseLedger(d.texts[txt]) == Ok(es)
    requires forall i :: 0 <= i < |Paths(SortByTime(es))| ==> Paths(SortByTime(es))[i] in d.pdfs
    requires RemovePdfs(d.pdfs[MergePath(txt) := Pages(Paths(SortByTime(es)), d.pdfs)], Paths(SortByTime(es))).1 == None
    ensures var paths := Paths(SortByTime(es));
      MergeOutcome(Some(txt), d) ==
        (Disk(d.pdfs[MergePath(txt) := Pages(paths, d.pdfs)] - PathSet(paths), d.texts - {txt}), None)
  {
  }

  /** An entry of a list with distinct paths occurs once. */
  lemma DistinctCount(es: seq<Entry>, a: nat)
    requires a < |es|
    requires forall i, j :: 0 <= i < j < |es| ==> es[i].path != es[j].path
    ensures multiset(es)[es[a]] == 1
  {
    if es != [] {
      var pre := es[..|es| - 1];
      assert es == pre + [es[|es| - 1]];
      if a < |es| - 1 {
        DistinctCount(pre, a);
        assert es[|es| - 1] != es[a];
      } else {
        assert es[a] !in pre;
      }
    }
  }

  /** An element at two positions occurs at least twice. */
  lemma PermutationCount(s: seq<Entry>, i: nat, j: nat)
    requires i < j < |s| && s[i] == s[j]
    ensures multiset(s)[s[i]] >= 2
  {
    assert s == s[..j] + [s[j]] + s[j + 1..];
    assert s[i] in s[..j];
  }
}
