/**
 * data_formatter.py `_make_output_path`: the output directory mirrors the
 * patient folder under the output root, and the output file is the input
 * file's stem followed by the smallest index for which no file exists yet.
 */
module Output {
  import opened PyStr
  import opened Util
  import opened Disk

  /** `self.abs_out_path + patient_folder[len(self.abs_in_path):]` */
  function OutDir(absIn: string, absOut: string, patientFolder: string): (r: string)
    ensures absOut <= r
    ensures absIn <= patientFolder ==> r == absOut + patientFolder[|absIn|..]
  {
    absOut + SliceFrom(patientFolder, |absIn|)
  }

  /** `os.path.join(output_path_dir, file + str(idx) + '.pdf')` */
  function Candidate(dir: string, stem: string, idx: nat): (r: string)
    ensures dir <= r
    ensures |r| >= 4 && r[|r| - 4..] == ".pdf"
  {
    PathJoin(dir, stem + NatToString(idx) + ".pdf")
  }

  /** Different indices name different files. */
  lemma CandidateInjective(dir: string, stem: string, i: nat, j: nat)
    requires Candidate(dir, stem, i) == Candidate(dir, stem, j)
    ensures i == j
  {
    PathJoinInjective(dir, stem + NatToString(i) + ".pdf", stem + NatToString(j) + ".pdf");
    var a := stem + NatToString(i) + ".pdf";
    var b := stem + NatToString(j) + ".pdf";
    assert |NatToString(i)| == |NatToString(j)|;
    assert NatToString(i) == a[|stem|..|a| - 4];
    assert NatToString(j) == b[|stem|..|b| - 4];
    NatToStringInjective(i, j);
  }

  /** The candidates with index below `n`. */
  function Candidates(dir: string, stem: string, n: nat): set<string> {
    if n == 0 then {} else Candidates(dir, stem, n - 1) + {Candidate(dir, stem, n - 1)}
  }

  /** The candidates below `n` are exactly those with an index below `n`. */
  lemma {:induction false} CandidatesMembers(dir: string, stem: string, n: nat)
    ensures forall i :: 0 <= i < n ==> Candidate(dir, stem, i) in Candidates(dir, stem, n)
    ensures forall p :: p in Candidates(dir, stem, n) ==> exists i :: 0 <= i < n && p == Candidate(dir, stem, i)
  {
    if n > 0 {
      CandidatesMembers(dir, stem, n - 1);
    }
  }

  /** There are `n` distinct candidates below `n`. */
  lemma {:induction false} CandidatesCard(dir: string, stem: string, n: nat)
    ensures |Candidates(dir, stem, n)| == n
  {
    if n > 0 {
      CandidatesCard(dir, stem, n - 1);
      var c := Candidate(dir, stem, n - 1);
      if c in Candidates(dir, stem, n - 1) {
        CandidatesMembers(dir, stem, n - 1);
        var i :| 0 <= i < n - 1 && c == Candidate(dir, stem, i);
        CandidateInjective(dir, stem, n - 1, i);
      }
    }
  }

  lemma SubsetCard(a: set<string>, b: set<string>)
    requires a <= b
    ensures |a| <= |b|
  {
    assert b == a + (b - a);
  }

  /** While every candidate below `idx` is taken, `idx` cannot exceed the number of files. */
  lemma TakenBound(d: Disk, dir: string, stem: string, idx: nat)
    requires forall i :: 0 <= i < idx ==> IsFile(d, Candidate(dir, stem, i))
    ensures idx <= |Files(d)|
  {
    CandidatesCard(dir, stem, idx);
    CandidatesMembers(dir, stem, idx);
    SubsetCard(Candidates(dir, stem, idx), Files(d));
  }

  /** The smallest index at or above `from` whose candidate is free. */
  function FreeIndexFrom(d: Disk, dir: string, stem: string, from: nat): (idx: nat)
    requires forall i :: 0 <= i < from ==> IsFile(d, Candidate(dir, stem, i))
    ensures from <= idx
    ensures !IsFile(d, Candidate(dir, stem, idx))
    ensures forall i :: 0 <= i < idx ==> IsFile(d, Candidate(dir, stem, i))
    decreases |Files(d)| - from
  {
    TakenBound(d, dir, stem, from);
    if IsFile(d, Candidate(dir, stem, from)) then FreeIndexFrom(d, dir, stem, from + 1) else from
  }

  /** The output file `_make_output_path` picks for `filename` in `patientFolder`. */
  function OutputFile(d: Disk, absIn: string, absOut: string, patientFolder: string, filename: string): (r: string)
    ensures !IsFile(d, r)
  {
    var dir := OutDir(absIn, absOut, patientFolder);
    Candidate(dir, Stem(filename), FreeIndexFrom(d, dir, Stem(filename), 0))
  }

  /**
   * The chosen file does not exist yet, and it is the first free one: every
   * candidate with a smaller index exists.
   */
  lemma OutputFileIsFirstFree(d: Disk, absIn: string, absOut: string, patientFolder: string, filename: string)
    ensures var dir := OutDir(absIn, absOut, patientFolder);
      exists idx: nat ::
        OutputFile(d, absIn, absOut, patientFolder, filename) == Candidate(dir, Stem(filename), idx) &&
        !IsFile(d, Candidate(dir, Stem(filename), idx)) &&
        forall i :: 0 <= i < idx ==> IsFile(d, Candidate(dir, Stem(filename), i))
  {
    var dir := OutDir(absIn, absOut, patientFolder);
    var idx := FreeIndexFrom(d, dir, Stem(filename), 0);
    assert OutputFile(d, absIn, absOut, patientFolder, filename) == Candidate(dir, Stem(filename), idx);
  }

  /** data_formatter.py `_make_output_path`: returns the output file and directory. */
  method MakeOutputPath(d: Disk, absIn: string, absOut: string, patientFolder: string, filename: string)
    returns (outputPathFile: string, outputPathDir: string)
    ensures outputPathDir == OutDir(absIn, absOut, patientFolder)
    ensures outputPathFile == OutputFile(d, absIn, absOut, patientFolder, filename)
  {
    outputPathDir := absOut + SliceFrom(patientFolder, |absIn|);
    var _, file := GetFormat(filename);
    var idx := 0;
    while true
      invariant forall i :: 0 <= i < idx ==> IsFile(d, Candidate(outputPathDir, file, i))
      invariant FreeIndexFrom(d, outputPathDir, file, idx) == FreeIndexFrom(d, outputPathDir, file, 0)
      decreases |Files(d)| - idx
    {
      var outFilename := file + NatToString(idx) + ".pdf";
      outputPathFile := PathJoin(outputPathDir, outFilename);
      if IsFile(d, outputPathFile) {
        TakenBound(d, outputPathDir, file, idx + 1);
        idx := idx + 1;
      } else {
        break;
      }
    }
  }
}
