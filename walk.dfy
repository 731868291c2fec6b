/**
 * The walk folds of data_formatter.py: `extract_patient_folders`,
 * `_extract_patients_data` and the row filter of `extract_csv`.
 *
 * `os.walk` is given as the sequence of directories it visits, top-down.
 * Each fold threads `patient_folder` through `_get_patient_folder` and
 * appends a patient folder when it is set and differs from the one appended
 * last (`previous_patient_folder`).
 */
module Walk {
  import opened Wrappers
  import opened PyStr
  import opened Util
  import opened Boundary
  import opened PatientData

  /** One step of `os.walk`: a root and the names of the files in it. */
  datatype Dir = Dir(root: string, files: seq<string>)

  /** `patient_folder` after the given directories have been visited. */
  function ScopeAfter(walk: seq<Dir>): (r: Option<string>)
    ensures r.Some? ==> HasMarker(r.value)
  {
    if walk == [] then None else PatientFolder(walk[|walk| - 1].root, ScopeAfter(walk[..|walk| - 1]))
  }

  /** The patient folder, when set, is a visited root that holds an archive marker. */
  lemma {:induction false} ScopeIsVisitedRoot(walk: seq<Dir>)
    ensures var r := ScopeAfter(walk);
      r.Some? ==> HasMarker(r.value) && exists i :: 0 <= i < |walk| && walk[i].root == r.value
  {
    if walk != [] {
      var pre := walk[..|walk| - 1];
      ScopeIsVisitedRoot(pre);
      var r := ScopeAfter(walk);
      if r.Some? && r == ScopeAfter(pre) {
        var i :| 0 <= i < |pre| && pre[i].root == r.value;
        assert walk[i].root == r.value;
      }
    }
  }

  /** The last folder appended, which is `previous_patient_folder`. */
  function LastOf(a: seq<string>): Option<string> {
    if a == [] then None else Some(a[|a| - 1])
  }

  /** The patient folders the folds append, in walk order. */
  function Appended(walk: seq<Dir>): (a: seq<string>)
    ensures |a| <= |walk|
    ensures ScopeAfter(walk).Some? ==> LastOf(a) == ScopeAfter(walk)
  {
    if walk == [] then []
    else
      var rest := Appended(walk[..|walk| - 1]);
      var s := ScopeAfter(walk);
      if s.Some? && LastOf(rest) != s then rest + [s.value] else rest
  }

  /**
   * The appended folders are visited roots holding an archive marker, no
   * two neighbours are equal, and the current patient folder, when set, is
   * the last one appended.
   */
  lemma AppendedFolders(walk: seq<Dir>)
    ensures var a := Appended(walk);
      (ScopeAfter(walk).Some? ==> LastOf(a) == ScopeAfter(walk)) &&
      (forall k :: 0 <= k < |a| ==> HasMarker(a[k])) &&
      (forall k :: 0 <= k < |a| ==> exists i :: 0 <= i < |walk| && walk[i].root == a[k]) &&
      (forall k :: 0 < k < |a| ==> a[k - 1] != a[k])
  {
    var a := Appended(walk);
    forall k | 0 <= k < |a|
      ensures HasMarker(a[k]) && exists i :: 0 <= i < |walk| && walk[i].root == a[k]
    {
      AppendedAt(walk, k);
    }
    forall k | 0 < k < |a| ensures a[k - 1] != a[k] {
      AppendedNoRepeatAt(walk, k);
    }
  }

  /** The one-step shape of `Appended`. */
  lemma AppendedLast(walk: seq<Dir>)
    requires walk != []
    ensures var rest := Appended(walk[..|walk| - 1]);
      var sc := ScopeAfter(walk);
      if sc.Some? && LastOf(rest) != sc then Appended(walk) == rest + [sc.value] else Appended(walk) == rest
  {
  }

  lemma {:induction false} AppendedAt(walk: seq<Dir>, k: nat)
    requires k < |Appended(walk)|
    ensures HasMarker(Appended(walk)[k])
    ensures exists i :: 0 <= i < |walk| && walk[i].root == Appended(walk)[k]
  {
    var pre := walk[..|walk| - 1];
    var rest := Appended(pre);
    AppendedLast(walk);
    if k < |rest| {
      AppendedAt(pre, k);
      assert Appended(walk)[k] == rest[k];
      var i :| 0 <= i < |pre| && pre[i].root == rest[k];
      assert walk[i] == pre[i];
    } else {
      ScopeIsVisitedRoot(walk);
    }
  }

  lemma {:induction false} AppendedNoRepeatAt(walk: seq<Dir>, k: nat)
    requires 0 < k < |Appended(walk)|
    ensures Appended(walk)[k - 1] != Appended(walk)[k]
  {
    var pre := walk[..|walk| - 1];
    var rest := Appended(pre);
    AppendedLast(walk);
    if k < |rest| {
      AppendedNoRepeatAt(pre, k);
    }
  }

  lemma ScopeAfterStep(walk: seq<Dir>, i: nat)
    requires i < |walk|
    ensures ScopeAfter(walk[..i + 1]) == PatientFolder(walk[i].root, ScopeAfter(walk[..i]))
    ensures Appended(walk[..i + 1]) ==
      var s := ScopeAfter(walk[..i + 1]);
      var a := Appended(walk[..i]);
      if s.Some? && LastOf(a) != s then a + [s.value] else a
  {
    assert walk[..i + 1][..i] == walk[..i];
  }

  /** A walk none of whose roots holds an archive marker yields no patient folder. */
  lemma {:induction false} NoMarkerNoFolders(walk: seq<Dir>)
    requires forall i :: 0 <= i < |walk| ==> !HasMarker(walk[i].root)
    ensures ScopeAfter(walk) == None && Appended(walk) == []
  {
    if walk != [] {
      var pre := walk[..|walk| - 1];
      assert forall i :: 0 <= i < |pre| ==> pre[i] == walk[i];
      NoMarkerNoFolders(pre);
    }
  }

  lemma AppendedLong(walk: seq<Dir>)
    ensures forall k :: 0 <= k < |Appended(walk)| ==> |Appended(walk)[k]| >= 4
  {
    var a := Appended(walk);
    forall k | 0 <= k < |a| ensures |a[k]| >= 4 {
      AppendedAt(walk, k);
      MarkerLength(a[k]);
    }
  }

  /** The lines `extract_patient_folders` writes to the log: the name of each appended folder. */
  function LoggedFolders(walk: seq<Dir>): (r: seq<string>)
    ensures |r| == |Appended(walk)|
  {
    if walk == [] then []
    else
      var pre := walk[..|walk| - 1];
      var s := ScopeAfter(walk);
      if s.Some? && LastOf(Appended(pre)) != s then
        ScopeIsVisitedRoot(walk);
        MarkerLength(s.value);
        LoggedFolders(pre) + [Leaf(s.value)]
      else LoggedFolders(pre)
  }

  /** The log holds exactly the folder names of the appended patient folders, in order. */
  lemma {:induction false} LoggedFoldersAreLeaves(walk: seq<Dir>)
    ensures forall k :: 0 <= k < |Appended(walk)| ==>
      |Appended(walk)[k]| >= 1 && LoggedFolders(walk)[k] == Leaf(Appended(walk)[k])
  {
    AppendedLong(walk);
    if walk != [] {
      var pre := walk[..|walk| - 1];
      LoggedFoldersAreLeaves(pre);
    }
  }

  /** Visiting one more directory appends its patient folder's name exactly when a new folder is appended. */
  lemma LoggedFoldersStep(walk: seq<Dir>, i: nat)
    requires i < |walk|
    ensures var s := ScopeAfter(walk[..i + 1]);
      if s.Some? && LastOf(Appended(walk[..i])) != s then
        |s.value| >= 1 && LoggedFolders(walk[..i + 1]) == LoggedFolders(walk[..i]) + [Leaf(s.value)]
      else LoggedFolders(walk[..i + 1]) == LoggedFolders(walk[..i])
  {
    assert walk[..i + 1][..i] == walk[..i];
    ScopeIsVisitedRoot(walk[..i + 1]);
    var s := ScopeAfter(walk[..i + 1]);
    if s.Some? {
      MarkerLength(s.value);
    }
  }

  /**
   * The part of the walk loops' body shared by `extract_patient_folders` and
   * `_extract_patients_data`: the patient folder in scope after visiting
   * `walk[i]`, whether it is a new one (`appended`), and the folder appended last.
   */
  method ScanDir(walk: seq<Dir>, i: nat, patientFolder0: Option<string>, previous0: Option<string>)
    returns (patientFolder: Option<string>, previous: Option<string>, appended: bool)
    requires i < |walk|
    requires patientFolder0 == ScopeAfter(walk[..i]) && previous0 == LastOf(Appended(walk[..i]))
    ensures patientFolder == ScopeAfter(walk[..i + 1]) && previous == LastOf(Appended(walk[..i + 1]))
    ensures appended ==>
      patientFolder.Some? && |patientFolder.value| >= 1 &&
      LoggedFolders(walk[..i + 1]) == LoggedFolders(walk[..i]) + [Leaf(patientFolder.value)]
    ensures !appended ==> LoggedFolders(walk[..i + 1]) == LoggedFolders(walk[..i])
  {
    ScopeAfterStep(walk, i);
    LoggedFoldersStep(walk, i);
    patientFolder := PatientFolder(walk[i].root, patientFolder0);
    appended := patientFolder.Some? && previous0 != patientFolder;
    if appended {
      previous := patientFolder;
      assert LastOf(Appended(walk[..i + 1])) == patientFolder;
    } else {
      previous := previous0;
      assert Appended(walk[..i + 1]) == Appended(walk[..i]);
    }
  }

  /** data_formatter.py `extract_patient_folders`: each returned name is one log line. */
  method ExtractPatientFolders(walk: seq<Dir>) returns (log: seq<string>)
    ensures log == LoggedFolders(walk)
  {
    var patientFolder: Option<string> := None;
    var previousPatientFolder: Option<string> := None;
    log := [];
    var i := 0;
    while i < |walk|
      invariant 0 <= i <= |walk|
      invariant patientFolder == ScopeAfter(walk[..i])
      invariant previousPatientFolder == LastOf(Appended(walk[..i]))
      invariant log == LoggedFolders(walk[..i])
    {
      var appended;
      patientFolder, previousPatientFolder, appended := ScanDir(walk, i, patientFolder, previousPatientFolder);
      if appended {
        var patient, _ := BreakPath(patientFolder.value);
        log := log + [patient];
      }
      i := i + 1;
    }
    assert walk[..|walk|] == walk;
  }

  /** `f` applied to every folder name, in order. */
  function MapNames<R>(names: seq<string>, f: string -> R): (r: seq<R>)
    ensures |r| == |names|
  {
    if names == [] then [] else MapNames(names[..|names| - 1], f) + [f(names[|names| - 1])]
  }

  lemma {:induction false} MapNamesPointwise<R>(names: seq<string>, f: string -> R)
    ensures forall k :: 0 <= k < |names| ==> MapNames(names, f)[k] == f(names[k])
  {
    if names != [] {
      var pre := names[..|names| - 1];
      MapNamesPointwise(pre, f);
      assert forall k :: 0 <= k < |pre| ==> pre[k] == names[k];
    }
  }

  /** `_extract_patient_data` as a function of the folder name. */
  function IdentifyWith(isDate: string -> bool): string -> Identity {
    n => PatientDataOf(n, isDate)
  }

  /** What `_extract_patients_data` returns: the identity of every logged folder name. */
  function PatientsData(walk: seq<Dir>, isDate: string -> bool): (r: seq<Identity>)
    ensures |r| == |LoggedFolders(walk)|
  {
    MapNames(LoggedFolders(walk), IdentifyWith(isDate))
  }

  /** The body of `_extract_patients_data`'s loop for a newly appended patient folder. */
  method AddPatient(patientsData0: seq<Identity>, names: seq<string>, patientFolder: string, isDate: string -> bool)
    returns (patientsData: seq<Identity>)
    requires |patientFolder| >= 1
    requires patientsData0 == MapNames(names, IdentifyWith(isDate))
    ensures patientsData == MapNames(names + [Leaf(patientFolder)], IdentifyWith(isDate))
  {
    var patient, _ := BreakPath(patientFolder);
    var patientData := ExtractPatientData(patient, isDate);
    patientsData := patientsData0 + [patientData];
    assert (names + [patient])[..|names|] == names;
  }

  /** One pass of `_extract_patients_data`'s loop, over `walk[i]`. */
  method VisitForData(walk: seq<Dir>, i: nat, isDate: string -> bool,
                      patientFolder0: Option<string>, previous0: Option<string>, patientsData0: seq<Identity>)
    returns (patientFolder: Option<string>, previous: Option<string>, patientsData: seq<Identity>)
    requires i < |walk|
    requires patientFolder0 == ScopeAfter(walk[..i]) && previous0 == LastOf(Appended(walk[..i]))
    requires patientsData0 == PatientsData(walk[..i], isDate)
    ensures patientFolder == ScopeAfter(walk[..i + 1]) && previous == LastOf(Appended(walk[..i + 1]))
    ensures patientsData == PatientsData(walk[..i + 1], isDate)
  {
    var appended;
    patientFolder, previous, appended := ScanDir(walk, i, patientFolder0, previous0);
    patientsData := patientsData0;
    if appended {
      patientsData := AddPatient(patientsData0, LoggedFolders(walk[..i]), patientFolder.value, isDate);
    }
  }

  /** data_formatter.py `_extract_patients_data` */
  method ExtractPatientsData(walk: seq<Dir>, isDate: string -> bool) returns (patientsData: seq<Identity>)
    ensures patientsData == PatientsData(walk, isDate)
  {
    var patientFolder: Option<string> := None;
    var previousPatientFolder: Option<string> := None;
    patientsData := [];
    var i := 0;
    while i < |walk|
      invariant 0 <= i <= |walk|
      invariant patientFolder == ScopeAfter(walk[..i])
      invariant previousPatientFolder == LastOf(Appended(walk[..i]))
      invariant patientsData == PatientsData(walk[..i], isDate)
    {
      patientFolder, previousPatientFolder, patientsData :=
        VisitForData(walk, i, isDate, patientFolder, previousPatientFolder, patientsData);
      i := i + 1;
    }
    assert walk[..|walk|] == walk;
  }

  // ---------------------------------------------------------------------
  // extract_csv

  /** The header row of the CSV file. */
  const Header: seq<string> := ["Vorname", "Nachname", "Geburtstag", "Fall-nr"]

  /** How `csv.writer` renders a field: None becomes the empty string. */
  function Cell(v: Option<string>): string {
    if v.Some? then v.value else ""
  }

  function Row(id: Identity): seq<string> {
    [Cell(id.firstName), Cell(id.lastName), Cell(id.birthday), Cell(id.caseNr)]
  }

  /** The data rows written: one per identity with a case number, in order. */
  function CsvRows(ids: seq<Identity>): (r: seq<seq<string>>)
    ensures |r| <= |ids|
  {
    if ids == [] then []
    else
      var rest := CsvRows(ids[..|ids| - 1]);
      var last := ids[|ids| - 1];
      if last.caseNr.None? then rest else rest + [Row(last)]
  }

  /** A row is written for an identity exactly when it has a case number. */
  lemma {:induction false} CsvRowsExactly(ids: seq<Identity>)
    ensures var r := CsvRows(ids);
      (forall k :: 0 <= k < |r| ==> exists j :: 0 <= j < |ids| && ids[j].caseNr.Some? && r[k] == Row(ids[j])) &&
      (forall j :: 0 <= j < |ids| && ids[j].caseNr.Some? ==> Row(ids[j]) in r)
  {
    if ids != [] {
      var pre := ids[..|ids| - 1];
      CsvRowsExactly(pre);
      var rest := CsvRows(pre);
      var r := CsvRows(ids);
      assert forall j :: 0 <= j < |pre| ==> pre[j] == ids[j];
      assert forall k :: 0 <= k < |rest| ==> r[k] == rest[k];
      forall j | 0 <= j < |pre| && ids[j].caseNr.Some? ensures Row(ids[j]) in r {
        assert Row(pre[j]) in rest;
      }
    }
  }

  /** The row-writing loop of `extract_csv`: the header, then every identity that has a case number. */
  method WriteRows(patientsData: seq<Identity>) returns (csv: seq<seq<string>>)
    ensures csv == [Header] + CsvRows(patientsData)
  {
    csv := [Header];
    var i := 0;
    while i < |patientsData|
      invariant 0 <= i <= |patientsData|
      invariant csv == [Header] + CsvRows(patientsData[..i])
    {
      assert patientsData[..i + 1][..i] == patientsData[..i];
      if patientsData[i].caseNr.Some? {
        csv := csv + [Row(patientsData[i])];
      }
      i := i + 1;
    }
    assert patientsData[..|patientsData|] == patientsData;
  }

  /** data_formatter.py `extract_csv`: the rows of the CSV file. */
  method ExtractCsv(walk: seq<Dir>, isDate: string -> bool) returns (csv: seq<seq<string>>)
    ensures csv == [Header] + CsvRows(PatientsData(walk, isDate))
  {
    var patientsData := ExtractPatientsData(walk, isDate);
    csv := WriteRows(patientsData);
  }

  /**
   * Every data row of the CSV file has four cells and a case number in the
   * last one: all digits, longer than five.
   */
  lemma CsvRowsHaveCaseNumber(walk: seq<Dir>, isDate: string -> bool)
    ensures var rows := CsvRows(PatientsData(walk, isDate));
      |rows| <= |walk| &&
      forall k :: 0 <= k < |rows| ==> |rows[k]| == 4 && IsNumeric(rows[k][3]) && |rows[k][3]| > 5
  {
    var ids := PatientsData(walk, isDate);
    var rows := CsvRows(ids);
    var names := LoggedFolders(walk);
    CsvRowsExactly(ids);
    MapNamesPointwise(names, IdentifyWith(isDate));
    forall k | 0 <= k < |rows|
      ensures |rows[k]| == 4 && IsNumeric(rows[k][3]) && |rows[k][3]| > 5
    {
      var j :| 0 <= j < |ids| && ids[j].caseNr.Some? && rows[k] == Row(ids[j]);
      CaseNumberIsLastCaptured(names[j], isDate);
    }
  }
}
