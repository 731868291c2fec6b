/**
 * The routing skeleton of data_formatter.py `clean_folder`.
 *
 * The walk is the sequence of visited directories, top-down. For each one
 * the patient folder is updated; a directory outside any patient folder is
 * skipped; when the patient folder's name carries no case number every file
 * of the directory is listed as ignored; otherwise every file except
 * `Thumbs.db` is converted and entered in the ledger of its output
 * directory, or listed as not converted with its message. When the ledger
 * in use has changed by the end of a directory, the previous ledger is
 * merged and its metadata file written; after the walk, the last one is.
 *
 * `file_to_pdf` is the one as written: a converter that times out is
 * taken for a success, so the file gets a ledger entry but no PDF.
 *
 * An exception from `_merge_pdfs` is caught and recorded (`errors`, the err
 * file). One from `file_to_pdf`, `_make_metadata` or `_save_log` is not
 * caught: the run ends there, which is `crash`, and the state is what had
 * been done so far.
 */
module Clean {
  import opened Wrappers
  import opened Util
  import opened Boundary
  import opened PatientData
  import opened Walk
  import opened Disk
  import opened Ledger
  import opened Output
  import opened Merge
  import opened PdfConverter
  import Metadata

  /**
   * What the run depends on besides the walk and the disk: the absolute
   * input and output folders, the date parser, today's date, the converter
   * outcome for each input path, and each input file's time stamp
   * (`getctime` or `getmtime`, as `time_order` selects).
   */
  datatype Env = Env(
    absIn: string,
    absOut: string,
    isDate: string -> bool,
    today: Metadata.Date,
    convert: string -> Conversion,
    timeOf: string -> nat)

  datatype Crash =
    | NoFormatCrash(path: string)
    | MetadataCrash(error: Metadata.MetadataError)
    | SaveLogCrash  // `UnboundLocalError` on `tot_files` in `_save_log`

  /** The local variables of `clean_folder`, the disk, the err file and whether the run has ended. */
  datatype State = State(
    patientFolder: Option<string>,
    notConverted: seq<(string, ConvertMessage)>,
    ignored: seq<(string, string)>,
    txtPath: Option<string>,
    txtPrevious: Option<string>,
    disk: Disk,
    errors: seq<MergeError>,
    crash: Option<Crash>)

  function Start(d: Disk): State {
    State(None, [], [], None, None, d, [], None)
  }

  /** `os.walk` yields non-empty directory and file names. */
  predicate WellFormed(walk: seq<Dir>) {
    forall i :: 0 <= i < |walk| ==> |walk[i].root| >= 1 && Named(walk[i].files)
  }

  predicate Named(files: seq<string>) {
    forall j :: 0 <= j < |files| ==> |files[j]| >= 1
  }

  // ---------------------------------------------------------------------
  // Specification

  /** One iteration of the file loop in a directory of a patient with a case number. */
  function FileStep(env: Env, root: string, pf: string, s: State, filename: string): (r: State)
    requires |filename| >= 1
    ensures r.patientFolder == s.patientFolder && r.ignored == s.ignored && r.errors == s.errors
    ensures r.notConverted == s.notConverted ||
      (!IsCacheFile(filename) && |r.notConverted| == |s.notConverted| + 1 &&
       r.notConverted[..|s.notConverted|] == s.notConverted &&
       r.notConverted[|s.notConverted|].0 == PathJoin(root, filename))
    ensures r.txtPath == s.txtPath || r.txtPath == Some(InfoPath(OutDir(env.absIn, env.absOut, pf)))
    ensures r.txtPrevious == s.txtPrevious || (s.txtPrevious.None? && r.txtPrevious == Some(InfoPath(OutDir(env.absIn, env.absOut, pf))))
    ensures (s.txtPrevious.None? <==> s.txtPath.None?) ==> (r.txtPrevious.None? <==> r.txtPath.None?)
    ensures r.crash == s.crash || (r.crash.Some? && r.crash.value.NoFormatCrash?)
  {
    if s.crash.Some? || IsCacheFile(filename) then s
    else
      var outDir := OutDir(env.absIn, env.absOut, pf);
      var outFile := OutputFile(s.disk, env.absIn, env.absOut, pf, filename);
      var inPath := PathJoin(root, filename);
      var c := env.convert(inPath);
      var report := FileToPdfAsWritten(inPath, c);
      if report.NoFormat? then s.(crash := Some(NoFormatCrash(inPath)))
      else
        var d := AfterConversion(s.disk, inPath, outFile, c);
        if report.error.None? then
          var (d', txt) := UpdateInfoTxt(d, outFile, outDir, env.timeOf(inPath));
          s.(disk := d', txtPath := Some(txt),
             txtPrevious := if s.txtPrevious.None? then Some(txt) else s.txtPrevious)
        else
          s.(disk := d, notConverted := s.notConverted + [(inPath, report.error.value)])
  }

  /** The file loop over the given files. */
  function ConvertFiles(env: Env, root: string, pf: string, s: State, files: seq<string>): (r: State)
    requires Named(files)
    ensures r.patientFolder == s.patientFolder && r.ignored == s.ignored && r.errors == s.errors
    ensures r.crash != Some(SaveLogCrash) || r.crash == s.crash
  {
    if files == [] then s
    else FileStep(env, root, pf, ConvertFiles(env, root, pf, s, files[..|files| - 1]), files[|files| - 1])
  }

  /** `[os.path.join(root, filename), patient]` for every file of the directory. */
  function IgnoredOf(root: string, files: seq<string>, patient: string): (r: seq<(string, string)>)
    ensures |r| == |files|
    ensures forall k :: 0 <= k < |r| ==> r[k].0 == PathJoin(root, files[k]) && r[k].1 == patient
  {
    seq(|files|, k requires 0 <= k < |files| => (PathJoin(root, files[k]), patient))
  }

  /** `_merge_pdfs(txt)` with its exception written to the err file, then `_make_metadata(txt)`. */
  function AfterClose(env: Env, s: State, txt: Option<string>): (r: State)
    requires Metadata.ValidDate(env.today)
    ensures r.patientFolder == s.patientFolder && r.notConverted == s.notConverted && r.ignored == s.ignored
    ensures r.txtPath == s.txtPath && r.txtPrevious == s.txtPrevious
    ensures r.crash.None? || r.crash.value.MetadataCrash?
    ensures txt.None? <==> r.crash == Some(MetadataCrash(Metadata.NoLedger))
    ensures txt.None? ==> r.errors == s.errors + [NoLedger]
  {
    var (d1, e) := MergeOutcome(txt, s.disk);
    var (d2, me) := Metadata.MetadataOutcome(txt, d1, env.isDate, env.today);
    s.(disk := d2, errors := s.errors + (if e.Some? then [e.value] else []),
       crash := if me.Some? then Some(MetadataCrash(me.value)) else None)
  }

  /** One iteration of the walk loop: the patient folder is updated, then `InScope` routes the files. */
  function DirStep(env: Env, s: State, dir: Dir): (r: State)
    requires Metadata.ValidDate(env.today) && |dir.root| >= 1 && Named(dir.files)
    requires s.patientFolder.Some? ==> |s.patientFolder.value| >= 1
    ensures r.patientFolder.Some? ==> |r.patientFolder.value| >= 1
    ensures s.crash.Some? ==> r == s
    ensures s.crash.None? ==> r.patientFolder == PatientFolder(dir.root, s.patientFolder)
    ensures r.crash != Some(SaveLogCrash) || r.crash == s.crash
  {
    if s.crash.Some? then s
    else
      var pf := PatientFolder(dir.root, s.patientFolder);
      if pf.None? then s.(patientFolder := None)
      else InScope(env, s.(patientFolder := pf), dir, PatientDataOf(Leaf(pf.value), env.isDate).caseNr)
  }

  /**
   * The rest of the iteration inside the patient folder `s.patientFolder`,
   * whose name yields the case number `caseNr`.
   */
  function InScope(env: Env, s: State, dir: Dir, caseNr: Option<string>): (r: State)
    requires Metadata.ValidDate(env.today) && |dir.root| >= 1 && Named(dir.files)
    requires s.patientFolder.Some? && |s.patientFolder.value| >= 1
    ensures r.patientFolder == s.patientFolder
    ensures r.crash != Some(SaveLogCrash) || r.crash == s.crash
  {
    var pf := s.patientFolder.value;
    if caseNr.None? then
      s.(ignored := s.ignored + IgnoredOf(dir.root, dir.files, Leaf(pf)))
    else
      var s2 := ConvertFiles(env, dir.root, pf, s, dir.files);
      if s2.crash.None? && s2.txtPrevious != s2.txtPath then CloseSwitch(env, s2, s2.txtPrevious)
      else s2
  }

  /** The state after the walk loop has visited the given directories. */
  function Walked(env: Env, d: Disk, walk: seq<Dir>): (s: State)
    requires Metadata.ValidDate(env.today) && WellFormed(walk)
    ensures s.patientFolder.Some? ==> |s.patientFolder.value| >= 1
    ensures s.crash != Some(SaveLogCrash)
  {
    if walk == [] then Start(d)
    else DirStep(env, Walked(env, d, walk[..|walk| - 1]), walk[|walk| - 1])
  }

  /**
   * `_save_log(not_converted_files, ignored_files)`: the count it prints for
   * the not-converted files is bound only when some file was ignored, so
   * with none ignored and some not converted the call raises.
   */
  function SaveLog(s: State): (r: State)
    requires s.crash.None?
    ensures r == s || r == s.(crash := Some(SaveLogCrash))
    ensures r.crash.Some? <==> s.ignored == [] && s.notConverted != []
  {
    if s.ignored == [] && s.notConverted != [] then s.(crash := Some(SaveLogCrash)) else s
  }

  /** `clean_folder`: the walk, then the last ledger closed, then the log saved. */
  function CleanOutcome(env: Env, d: Disk, walk: seq<Dir>): (r: State)
    requires Metadata.ValidDate(env.today) && WellFormed(walk)
    ensures var w := Walked(env, d, walk);
      r.patientFolder == w.patientFolder && r.ignored == w.ignored && r.notConverted == w.notConverted
    ensures r.crash == Some(SaveLogCrash) ==> r.ignored == [] && r.notConverted != []
  {
    var s := Walked(env, d, walk);
    if s.crash.Some? then s
    else
      var s2 := AfterClose(env, s, s.txtPath);
      if s2.crash.Some? then s2 else SaveLog(s2)
  }

  // ---------------------------------------------------------------------
  // The loops

  /** The file loop of one directory; it stops where `file_to_pdf` raises. */
  method ConvertFolderFiles(env: Env, root: string, pf: string, s0: State, files: seq<string>)
    returns (s: State)
    requires Named(files) && s0.crash.None?
    ensures s == ConvertFiles(env, root, pf, s0, files)
  {
    s := s0;
    var i := 0;
    while i < |files|
      invariant 0 <= i <= |files|
      invariant s == ConvertFiles(env, root, pf, s0, files[..i])
      invariant s.crash.None?
    {
      assert files[..i + 1][..i] == files[..i];
      assert ConvertFiles(env, root, pf, s0, files[..i + 1]) == FileStep(env, root, pf, s, files[i]);
      ghost var previous := s;
      var filename := files[i];
      if !IsCacheFile(filename) {
        var outPathFile, outPathDir := MakeOutputPath(s.disk, env.absIn, env.absOut, pf, filename);
        var inPathFile := PathJoin(root, filename);
        var c := env.convert(inPathFile);
        var report := FileToPdfAsWritten(inPathFile, c);
        if report.NoFormat? {
          s := s.(crash := Some(NoFormatCrash(inPathFile)));
          FilesCrashSticks(env, root, pf, s0, files, i + 1);
          return;
        }
        var d := AfterConversion(s.disk, inPathFile, outPathFile, c);
        if report.error.None? {
          var (d', txtPath) := UpdateInfoTxt(d, outPathFile, outPathDir, env.timeOf(inPathFile));
          s := s.(disk := d', txtPath := Some(txtPath));
          if s.txtPrevious.None? {
            s := s.(txtPrevious := Some(txtPath));
          }
        } else {
          s := s.(disk := d, notConverted := s.notConverted + [(inPathFile, report.error.value)]);
        }
      }
      assert s == FileStep(env, root, pf, previous, filename);
      i := i + 1;
    }
    assert files[..|files|] == files;
  }

  /** `_merge_pdfs(txt)` inside its `try`, then `_make_metadata(txt)`. */
  method CloseLedger(env: Env, s0: State, txt: Option<string>) returns (s: State)
    requires Metadata.ValidDate(env.today)
    ensures s == AfterClose(env, s0, txt)
  {
    var d1, e := MergePdfs(txt, s0.disk);
    s := s0.(disk := d1);
    if e.Some? {
      s := s.(errors := s.errors + [e.value]);
    }
    assert s.errors == s0.errors + (if e.Some? then [e.value] else []);
    var d2, me := Metadata.MakeMetadata(txt, s.disk, env.isDate, env.today);
    s := s.(disk := d2, crash := if me.Some? then Some(MetadataCrash(me.value)) else None);
  }

  /** data_formatter.py `clean_folder`, without the log file, the progress bar and the prints. */
  method CleanFolder(env: Env, d: Disk, walk: seq<Dir>) returns (s: State)
    requires Metadata.ValidDate(env.today) && WellFormed(walk)
    ensures s == CleanOutcome(env, d, walk)
  {
    s := Start(d);
    var i := 0;
    while i < |walk|
      invariant 0 <= i <= |walk|
      invariant s == Walked(env, d, walk[..i])
      invariant s.crash.None?
    {
      assert walk[..i + 1][..i] == walk[..i];
      s := VisitDir(env, s, walk[i]);
      if s.crash.Some? {
        WalkCrashSticks(env, d, walk, i + 1);
        return;
      }
      i := i + 1;
    }
    assert walk[..|walk|] == walk;
    s := CloseLedger(env, s, s.txtPath);
    if s.crash.None? && s.ignored == [] && s.notConverted != [] {
      s := s.(crash := Some(SaveLogCrash));
    }
  }

  /** The body of the walk loop, for one directory. */
  method VisitDir(env: Env, s0: State, dir: Dir) returns (s: State)
    requires Metadata.ValidDate(env.today) && |dir.root| >= 1 && Named(dir.files)
    requires s0.patientFolder.Some? ==> |s0.patientFolder.value| >= 1
    requires s0.crash.None?
    ensures s == DirStep(env, s0, dir)
  {
    var patientFolder := PatientFolder(dir.root, s0.patientFolder);
    s := s0.(patientFolder := patientFolder);
    if patientFolder.Some? {
      var patient, _ := BreakPath(patientFolder.value);
      var id := ExtractPatientData(patient, env.isDate);
      s := VisitPatientDir(env, s, dir, id.caseNr);
    }
  }

  /** The walk loop's body once the patient folder is known and its case number looked up. */
  method VisitPatientDir(env: Env, s0: State, dir: Dir, caseNr: Option<string>) returns (s: State)
    requires Metadata.ValidDate(env.today) && |dir.root| >= 1 && Named(dir.files)
    requires s0.patientFolder.Some? && |s0.patientFolder.value| >= 1
    requires s0.crash.None?
    ensures s == InScope(env, s0, dir, caseNr)
  {
    var root, files, patientFolder := dir.root, dir.files, s0.patientFolder.value;
    if caseNr.None? {
      var patient, _ := BreakPath(patientFolder);
      s := s0.(ignored := s0.ignored + IgnoredOf(root, files, patient));
      return;
    }
    s := ConvertFolderFiles(env, root, patientFolder, s0, files);
    if s.crash.None? && s.txtPrevious != s.txtPath {
      var txtPath := s.txtPath;
      s := CloseLedger(env, s, s.txtPrevious);
      if s.crash.None? {
        s := s.(txtPrevious := txtPath);
      }
    }
  }

  /** Once `file_to_pdf` has raised, the remaining files are not looked at. */
  lemma {:induction false} FilesCrashSticks(env: Env, root: string, pf: string, s0: State, files: seq<string>, i: nat)
    requires Named(files) && i <= |files|
    requires ConvertFiles(env, root, pf, s0, files[..i]).crash.Some?
    ensures ConvertFiles(env, root, pf, s0, files) == ConvertFiles(env, root, pf, s0, files[..i])
  {
    if i < |files| {
      var p := files[..|files| - 1];
      assert p[..i] == files[..i];
      FilesCrashSticks(env, root, pf, s0, p, i);
    } else {
      assert files[..i] == files;
    }
  }

  /** Once the run has ended, the remaining directories are not looked at. */
  lemma {:induction false} WalkCrashSticks(env: Env, d: Disk, walk: seq<Dir>, i: nat)
    requires Metadata.ValidDate(env.today) && WellFormed(walk) && i <= |walk|
    requires Walked(env, d, walk[..i]).crash.Some?
    ensures Walked(env, d, walk) == Walked(env, d, walk[..i])
  {
    if i < |walk| {
      var p := walk[..|walk| - 1];
      assert p[..i] == walk[..i];
      WalkCrashSticks(env, d, p, i);
    } else {
      assert walk[..i] == walk;
    }
  }

  // ---------------------------------------------------------------------
  // Routing

  /**
   * Each file of a converting directory: `Thumbs.db` changes nothing; any
   * other file either makes `file_to_pdf` raise, or is listed as not
   * converted with the disk unchanged, or is entered, with its time stamp
   * and a path that did not exist, in the ledger of the patient's output
   * directory; its PDF is written there unless the converter timed out.
   */
  lemma FileRouted(env: Env, root: string, pf: string, s: State, filename: string)
    requires |filename| >= 1 && s.crash.None?
    ensures var r := FileStep(env, root, pf, s, filename);
      var inPath := PathJoin(root, filename);
      var outDir := OutDir(env.absIn, env.absOut, pf);
      var outFile := OutputFile(s.disk, env.absIn, env.absOut, pf, filename);
      var txt := InfoPath(outDir);
      (IsCacheFile(filename) ==> r == s) &&
      (!IsCacheFile(filename) ==>
        (r.crash == Some(NoFormatCrash(inPath)) && r.disk == s.disk) ||
        (r.crash.None? && r.disk == s.disk && r.txtPath == s.txtPath &&
         exists m :: r.notConverted == s.notConverted + [(inPath, m)]) ||
        (r.crash.None? && r.notConverted == s.notConverted && r.txtPath == Some(txt) &&
         !IsFile(s.disk, outFile) && r.disk.pdfs == s.disk.pdfs[outFile := [inPath]] &&
         r.disk.texts == s.disk.texts[txt := TextOf(s.disk, txt) + EntryText(Entry(outFile, env.timeOf(inPath)))]) ||
        (r.crash.None? && r.notConverted == s.notConverted && r.txtPath == Some(txt) &&
         !IsFile(s.disk, outFile) && r.disk.pdfs == s.disk.pdfs &&
         r.disk.texts == s.disk.texts[txt := TextOf(s.disk, txt) + EntryText(Entry(outFile, env.timeOf(inPath)))]))
  {
    if !IsCacheFile(filename) {
      var r := FileStep(env, root, pf, s, filename);
      var inPath := PathJoin(root, filename);
      var report := FileToPdfAsWritten(inPath, env.convert(inPath));
      if report.NoFormat? {
        assert r.crash == Some(NoFormatCrash(inPath)) && r.disk == s.disk;
      } else if report.error.None? && env.convert(inPath) == Converted {
        FileConverted(env, root, pf, s, filename);
      } else if report.error.None? {
        FileTimedOut(env, root, pf, s, filename);
      } else {
        var m := report.error.value;
        assert r.crash.None? && r.disk == s.disk && r.txtPath == s.txtPath &&
          r.notConverted == s.notConverted + [(inPath, m)];
      }
    }
  }

  /** A file its converter converts gets a fresh output path, its PDF and a ledger entry. */
  lemma FileConverted(env: Env, root: string, pf: string, s: State, filename: string)
    requires |filename| >= 1 && s.crash.None? && !IsCacheFile(filename)
    requires Known(PathJoin(root, filename)) && env.convert(PathJoin(root, filename)) == Converted
    ensures var r := FileStep(env, root, pf, s, filename);
      var inPath := PathJoin(root, filename);
      var outFile := OutputFile(s.disk, env.absIn, env.absOut, pf, filename);
      var txt := InfoPath(OutDir(env.absIn, env.absOut, pf));
      r.crash.None? && r.notConverted == s.notConverted && r.txtPath == Some(txt) &&
      !IsFile(s.disk, outFile) && r.disk.pdfs == s.disk.pdfs[outFile := [inPath]] &&
      r.disk.texts == s.disk.texts[txt := TextOf(s.disk, txt) + EntryText(Entry(outFile, env.timeOf(inPath)))]
  {
    OutputFileIsFirstFree(s.disk, env.absIn, env.absOut, pf, filename);
  }

  /**
   * A file whose converter times out is taken for converted: it gets a fresh
   * output path and a ledger entry, but no PDF is written.
   */
  lemma FileTimedOut(env: Env, root: string, pf: string, s: State, filename: string)
    requires |filename| >= 1 && s.crash.None? && !IsCacheFile(filename)
    requires Known(PathJoin(root, filename)) && env.convert(PathJoin(root, filename)) == TimedOut
    ensures var r := FileStep(env, root, pf, s, filename);
      var inPath := PathJoin(root, filename);
      var outFile := OutputFile(s.disk, env.absIn, env.absOut, pf, filename);
      var txt := InfoPath(OutDir(env.absIn, env.absOut, pf));
      r.crash.None? && r.notConverted == s.notConverted && r.txtPath == Some(txt) &&
      !IsFile(s.disk, outFile) && r.disk.pdfs == s.disk.pdfs &&
      r.disk.texts == s.disk.texts[txt := TextOf(s.disk, txt) + EntryText(Entry(outFile, env.timeOf(inPath)))]
  {
    OutputFileIsFirstFree(s.disk, env.absIn, env.absOut, pf, filename);
  }

  /** `after` extends `before` by at most one entry per file, each naming a non-cache file of `files`. */
  predicate ListedFrom(root: string, files: seq<string>, before: seq<(string, ConvertMessage)>, after: seq<(string, ConvertMessage)>)
    requires Named(files)
  {
    before <= after && |after| - |before| <= |files| &&
    forall k :: |before| <= k < |after| ==> NamesFileOf(root, files, after[k])
  }

  /** The entry's path is that of a non-cache file of `files`. */
  predicate NamesFileOf(root: string, files: seq<string>, entry: (string, ConvertMessage))
    requires Named(files)
  {
    exists j :: 0 <= j < |files| && !IsCacheFile(files[j]) && entry.0 == PathJoin(root, files[j])
  }

  /** Over a directory's files, the not-converted list only grows, by non-cache files of the directory. */
  lemma {:induction false} ConvertFilesListed(env: Env, root: string, pf: string, s: State, files: seq<string>)
    requires Named(files)
    ensures ListedFrom(root, files, s.notConverted, ConvertFiles(env, root, pf, s, files).notConverted)
  {
    if files != [] {
      var p := files[..|files| - 1];
      ConvertFilesListed(env, root, pf, s, p);
      var q := ConvertFiles(env, root, pf, s, p).notConverted;
      ListedStep(root, files, s.notConverted, q, ConvertFiles(env, root, pf, s, files).notConverted);
    }
  }

  /** One more file keeps the not-converted list listed: it is unchanged, or it gains that file. */
  lemma ListedStep(root: string, files: seq<string>, before: seq<(string, ConvertMessage)>,
                   q: seq<(string, ConvertMessage)>, r: seq<(string, ConvertMessage)>)
    requires Named(files) && files != []
    requires ListedFrom(root, files[..|files| - 1], before, q)
    requires r == q ||
      (!IsCacheFile(files[|files| - 1]) && |r| == |q| + 1 && r[..|q|] == q &&
       r[|q|].0 == PathJoin(root, files[|files| - 1]))
    ensures ListedFrom(root, files, before, r)
  {
    var p := files[..|files| - 1];
    forall k | |before| <= k < |r| ensures NamesFileOf(root, files, r[k]) {
      if k < |q| {
        assert NamesFileOf(root, p, q[k]);
        var j :| 0 <= j < |p| && !IsCacheFile(p[j]) && q[k].0 == PathJoin(root, p[j]);
        assert files[j] == p[j];
        assert r[k] == q[k];
      } else {
        var j := |files| - 1;
        assert !IsCacheFile(files[j]) && r[k].0 == PathJoin(root, files[j]);
      }
    }
  }

  /** What the file loop does to the ledger variables and to `crash`. */
  predicate LedgerFrom(txt: string, s: State, r: State) {
    (r.txtPath == s.txtPath || r.txtPath == Some(txt)) &&
    (r.txtPrevious == s.txtPrevious || (s.txtPrevious.None? && r.txtPrevious == Some(txt))) &&
    ((s.txtPrevious.None? <==> s.txtPath.None?) ==> (r.txtPrevious.None? <==> r.txtPath.None?)) &&
    (r.crash == s.crash || (r.crash.Some? && r.crash.value.NoFormatCrash?))
  }

  /**
   * Over a directory's files the ledger in use becomes, if anything, the one
   * of this patient's output directory; `txt_path_previous` is set exactly
   * when `txt_path` is; and the only way the run ends is `file_to_pdf` raising.
   */
  lemma {:induction false} ConvertFilesLedger(env: Env, root: string, pf: string, s: State, files: seq<string>)
    requires Named(files)
    ensures LedgerFrom(InfoPath(OutDir(env.absIn, env.absOut, pf)), s, ConvertFiles(env, root, pf, s, files))
  {
    if files != [] {
      ConvertFilesLedger(env, root, pf, s, files[..|files| - 1]);
    }
  }

  // ---------------------------------------------------------------------
  // Per directory

  /**
   * The routes inside a patient folder: without a case number every file,
   * `Thumbs.db` included, is listed as ignored and nothing else changes;
   * with one, the ignored list is untouched and every new not-converted
   * entry is a non-cache file of the directory.
   */
  lemma InScopeRouting(env: Env, s: State, dir: Dir, caseNr: Option<string>)
    requires Metadata.ValidDate(env.today) && |dir.root| >= 1 && Named(dir.files)
    requires s.patientFolder.Some? && |s.patientFolder.value| >= 1
    ensures caseNr.None? ==>
      InScope(env, s, dir, caseNr) == s.(ignored := s.ignored + IgnoredOf(dir.root, dir.files, Leaf(s.patientFolder.value))) &&
      |IgnoredOf(dir.root, dir.files, Leaf(s.patientFolder.value))| == |dir.files| &&
      forall k :: 0 <= k < |dir.files| ==>
        IgnoredOf(dir.root, dir.files, Leaf(s.patientFolder.value))[k] == (PathJoin(dir.root, dir.files[k]), Leaf(s.patientFolder.value))
    ensures caseNr.Some? ==>
      InScope(env, s, dir, caseNr).ignored == s.ignored &&
      ListedFrom(dir.root, dir.files, s.notConverted, InScope(env, s, dir, caseNr).notConverted)
  {
    if caseNr.Some? {
      ConvertFilesListed(env, dir.root, s.patientFolder.value, s, dir.files);
    }
  }

  /**
   * Per directory: outside any patient folder nothing is recorded; inside
   * one, the routes of `InScopeRouting` are taken with the case number
   * `_extract_patient_data` finds in the patient folder's name.
   */
  lemma DirRouting(env: Env, s: State, dir: Dir)
    requires Metadata.ValidDate(env.today) && |dir.root| >= 1 && Named(dir.files)
    requires s.patientFolder.Some? ==> |s.patientFolder.value| >= 1
    requires s.crash.None?
    ensures PatientFolder(dir.root, s.patientFolder).None? ==> DirStep(env, s, dir) == s.(patientFolder := None)
    ensures PatientFolder(dir.root, s.patientFolder).Some? ==>
      DirStep(env, s, dir) ==
        InScope(env, s.(patientFolder := PatientFolder(dir.root, s.patientFolder)), dir,
                PatientDataOf(Leaf(PatientFolder(dir.root, s.patientFolder).value), env.isDate).caseNr)
  {
  }

  /** Between directories the previous ledger is the current one; the walk never ends for want of a ledger. */
  predicate Settled(s: State) {
    (s.txtPrevious.None? <==> s.txtPath.None?) &&
    (s.crash.None? ==> s.txtPrevious == s.txtPath) &&
    s.crash != Some(MetadataCrash(Metadata.NoLedger))
  }

  /**
   * In a directory with a case number, the merge is triggered exactly when
   * an earlier ledger was in use and the directory switched to another one,
   * and it closes that earlier ledger.
   */
  lemma {:induction false} SwitchClosesPrevious(env: Env, s: State, dir: Dir, caseNr: string)
    requires Metadata.ValidDate(env.today) && |dir.root| >= 1 && Named(dir.files)
    requires s.patientFolder.Some? && |s.patientFolder.value| >= 1
    requires Settled(s) && s.crash.None?
    requires ConvertFiles(env, dir.root, s.patientFolder.value, s, dir.files).crash.None?
    ensures InScope(env, s, dir, Some(caseNr)) ==
      if s.txtPath.Some? && ConvertFiles(env, dir.root, s.patientFolder.value, s, dir.files).txtPath != s.txtPath then
        CloseSwitch(env, ConvertFiles(env, dir.root, s.patientFolder.value, s, dir.files), s.txtPath)
      else ConvertFiles(env, dir.root, s.patientFolder.value, s, dir.files)
  {
    ConvertFilesLedger(env, dir.root, s.patientFolder.value, s, dir.files);
  }

  /** Closing `txt` at a switch: the new ledger becomes the previous one unless the run ended. */
  function CloseSwitch(env: Env, s2: State, txt: Option<string>): (r: State)
    requires Metadata.ValidDate(env.today)
    ensures r.patientFolder == s2.patientFolder && r.notConverted == s2.notConverted && r.ignored == s2.ignored
    ensures r.txtPath == s2.txtPath
    ensures r.crash.None? ==> r.txtPrevious == s2.txtPath
    ensures txt.None? ==> r.crash.Some?
  {
    var s3 := AfterClose(env, s2, txt);
    if s3.crash.None? then s3.(txtPrevious := s2.txtPath) else s3
  }

  /** A directory inside a patient folder keeps the state settled. */
  lemma InScopeSettled(env: Env, s: State, dir: Dir, caseNr: Option<string>)
    requires Metadata.ValidDate(env.today) && |dir.root| >= 1 && Named(dir.files)
    requires s.patientFolder.Some? && |s.patientFolder.value| >= 1
    requires Settled(s) && s.crash.None?
    ensures Settled(InScope(env, s, dir, caseNr))
  {
    if caseNr.Some? {
      var s2 := ConvertFiles(env, dir.root, s.patientFolder.value, s, dir.files);
      ConvertFilesLedger(env, dir.root, s.patientFolder.value, s, dir.files);
      assert s2.txtPrevious.None? <==> s2.txtPath.None?;
      assert s2.crash.None? || s2.crash.value.NoFormatCrash?;
      if s2.crash.None? && s2.txtPrevious != s2.txtPath {
        assert s2.txtPrevious.Some? && s2.txtPath.Some?;
        var s3 := AfterClose(env, s2, s2.txtPrevious);
        assert s3.crash != Some(MetadataCrash(Metadata.NoLedger));
        assert s3.txtPath == s2.txtPath && s3.txtPrevious == s2.txtPrevious;
      }
    }
  }

  /** A directory keeps the state settled. */
  lemma DirStepSettled(env: Env, s: State, dir: Dir)
    requires Metadata.ValidDate(env.today) && |dir.root| >= 1 && Named(dir.files)
    requires s.patientFolder.Some? ==> |s.patientFolder.value| >= 1
    requires Settled(s)
    ensures Settled(DirStep(env, s, dir))
  {
    if s.crash.None? {
      var pf := PatientFolder(dir.root, s.patientFolder);
      if pf.Some? {
        InScopeSettled(env, s.(patientFolder := pf), dir, PatientDataOf(Leaf(pf.value), env.isDate).caseNr);
      }
    }
  }

  /** Every state between directories is settled. */
  lemma {:induction false} WalkedSettled(env: Env, d: Disk, walk: seq<Dir>)
    requires Metadata.ValidDate(env.today) && WellFormed(walk)
    ensures Settled(Walked(env, d, walk))
  {
    if walk != [] {
      WalkedSettled(env, d, walk[..|walk| - 1]);
      DirStepSettled(env, Walked(env, d, walk[..|walk| - 1]), walk[|walk| - 1]);
    }
  }

  /** While the run goes on, `patient_folder` is the one the walk alone determines. */
  lemma {:induction false} ScopeFollowsWalk(env: Env, d: Disk, walk: seq<Dir>)
    requires Metadata.ValidDate(env.today) && WellFormed(walk)
    ensures Walked(env, d, walk).crash.None? ==> Walked(env, d, walk).patientFolder == ScopeAfter(walk)
  {
    if walk != [] {
      var p := walk[..|walk| - 1];
      ScopeFollowsWalk(env, d, p);
    }
  }

  /**
   * The run ends in `_make_metadata(None)` exactly when the walk finished
   * without any file having been converted; the err file then holds the
   * exception `_merge_pdfs(None)` raised.
   */
  lemma NothingConvertedCrashes(env: Env, d: Disk, walk: seq<Dir>)
    requires Metadata.ValidDate(env.today) && WellFormed(walk)
    ensures CleanOutcome(env, d, walk).crash == Some(MetadataCrash(Metadata.NoLedger)) <==>
      Walked(env, d, walk).crash.None? && Walked(env, d, walk).txtPath.None?
    ensures Walked(env, d, walk).crash.None? && Walked(env, d, walk).txtPath.None? ==>
      CleanOutcome(env, d, walk).errors == Walked(env, d, walk).errors + [NoLedger]
  {
    WalkedSettled(env, d, walk);
  }

  /**
   * The run ends in `_save_log` exactly when it got that far, no file was
   * ignored and some file was not converted.
   */
  lemma SaveLogRaises(env: Env, d: Disk, walk: seq<Dir>)
    requires Metadata.ValidDate(env.today) && WellFormed(walk)
    ensures var w := Walked(env, d, walk);
      CleanOutcome(env, d, walk).crash == Some(SaveLogCrash) <==>
        w.crash.None? && AfterClose(env, w, w.txtPath).crash.None? && w.ignored == [] && w.notConverted != []
  {
  }

  // ---------------------------------------------------------------------
  // The time-out branch of file_to_pdf, as written

  /**
   * With `file_to_pdf` as written, a known file whose converter times out
   * is reported as converted: its entry goes into the ledger although no
   * PDF was written, and merging that ledger then fails on the missing PDF,
   * leaving the ledger and every PDF of the patient unmerged.
   */
  lemma TimedOutEntryBreaksMerge(d: Disk, inPath: string, outFile: string, outDir: string, time: nat)
    requires Known(inPath)
    requires outFile !in d.pdfs && '\n' !in outFile
    requires InfoPath(outDir) !in d.texts && |Parent(InfoPath(outDir))| >= 1
    ensures FileToPdfAsWritten(inPath, TimedOut) == Reported(None)
    ensures AfterConversion(d, inPath, outFile, TimedOut) == d
    ensures MergeOutcome(Some(InfoPath(outDir)), UpdateInfoTxt(d, outFile, outDir, time).0) ==
      (UpdateInfoTxt(d, outFile, outDir, time).0, Some(MissingPdf(outFile)))
  {
    var e := Entry(outFile, time);
    OneEntryLedger(e);
    var d1 := UpdateInfoTxt(d, outFile, outDir, time).0;
    assert d1.texts[InfoPath(outDir)] == "" + EntryText(e) == EntryText(e);
    assert FirstMissing([outFile], d1.pdfs) == Some(outFile);
  }

  /** A ledger of one entry reads back as that entry, and its merge list is that entry's path. */
  lemma OneEntryLedger(e: Entry)
    requires '\n' !in e.path
    ensures ParseLedger(EntryText(e)) == Ok([e])
    ensures Paths(SortByTime([e])) == [e.path]
  {
    assert [e][..0] == [];
    assert LedgerText([e]) == EntryText(e);
    LedgerRoundTrip([e]);
    assert SortByTime([e]) == [e];
  }
}
