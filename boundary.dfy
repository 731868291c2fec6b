/**
 * The patient-boundary detector of data_formatter.py (`_get_patient_folder`)
 * and the cache-file test (`_check_cache_file`).
 *
 * A folder becomes the patient folder when some archive marker
 * (`invalid_folders`) occurs somewhere in its full path but not in its own
 * name. Once set, the patient folder is kept for every later root that
 * contains it as a SUBSTRING, which is weaker than "is an ancestor of".
 */
module Boundary {
  import opened Wrappers
  import opened PyStr
  import opened Util

  /** data_formatter.py `invalid_folders` */
  const InvalidFolders: seq<string> := ["Arch", "Stomadoku", "Wunddoku"]

  /** `any([folder in s for folder in invalid_folders])` */
  predicate HasMarker(s: string) {
    exists m :: m in InvalidFolders && Contains(s, m)
  }

  /** A path holding a marker is long enough for `break_path`. */
  lemma MarkerLength(s: string)
    requires HasMarker(s)
    ensures |s| >= 4
  {
    var m :| m in InvalidFolders && Contains(s, m);
    ContainsLength(s, m);
  }

  /** `_get_patient_folder(root, patient_folder)` */
  function PatientFolder(root: string, previous: Option<string>): (r: Option<string>)
    ensures r.Some? ==> r == previous || r.value == root
    ensures r.Some? && r != previous ==> HasMarker(root) && !HasMarker(Leaf(root))
  {
    if previous.Some? && Contains(root, previous.value) then previous
    else if !HasMarker(root) then None
    else
      MarkerLength(root);
      if HasMarker(Leaf(root)) then None else Some(root)
  }

  /** A previous patient folder that occurs in the root is kept unchanged. */
  lemma PatientFolderSticks(root: string, previous: string)
    requires Contains(root, previous)
    ensures PatientFolder(root, Some(previous)) == Some(previous)
  {
  }

  /**
   * When the previous folder does not stick, the root itself becomes the
   * patient folder exactly when its path holds a marker and its leaf holds
   * none; otherwise there is no patient folder.
   */
  lemma PatientFolderNewScope(root: string, previous: Option<string>)
    requires previous.None? || !Contains(root, previous.value)
    ensures HasMarker(root) && !(MarkerLength(root); HasMarker(Leaf(root))) ==>
      PatientFolder(root, previous) == Some(root)
    ensures !(HasMarker(root) && !(MarkerLength(root); HasMarker(Leaf(root)))) ==>
      PatientFolder(root, previous) == None
  {
  }

  /** Asking again with the answer as the previous folder changes nothing. */
  lemma PatientFolderIdempotent(root: string, previous: Option<string>)
    ensures PatientFolder(root, PatientFolder(root, previous)) == PatientFolder(root, previous)
  {
    var r := PatientFolder(root, previous);
    if r.Some? && r != previous {
      ContainsSelf(root);
    }
  }

  /**
   * Because the test is a substring test, a sibling whose name extends the
   * patient folder's name is absorbed into it.
   */
  lemma SiblingAbsorbed()
    ensures PatientFolder("D:\\Arch\\Hans 1234567", Some("D:\\Arch\\Hans 123456")) == Some("D:\\Arch\\Hans 123456")
  {
    var root := "D:\\Arch\\Hans 1234567";
    var previous := "D:\\Arch\\Hans 123456";
    assert root[0..|previous|] == previous;
    assert OccursAt(root, previous, 0);
  }

  /** The case number is not consulted: a marker-free leaf under an archive folder opens a scope. */
  lemma ScopeWithoutCaseNumber()
    ensures PatientFolder("D:\\Arch\\Notes", None) == Some("D:\\Arch\\Notes")
  {
    var root := "D:\\Arch\\Notes";
    assert root[3..7] == "Arch";
    assert OccursAt(root, "Arch", 3);
    assert "Arch" in InvalidFolders;
    assert HasMarker(root);
    BreakPathAtSeparator(root, 7);
    assert Leaf(root) == "Notes";
    forall m | m in InvalidFolders ensures !Contains("Notes", m) {
      assert m[0] in "ASW";
      NotContainedWithoutHead("Notes", m);
    }
  }

  /** `_check_cache_file(file_path)`: Windows thumbnail caches are skipped. */
  predicate IsCacheFile(filePath: string)
    requires |filePath| >= 1
    ensures IsCacheFile(filePath) ==> |filePath| >= 9 && filePath[|filePath| - 9..] == "Thumbs.db"
  {
    Leaf(filePath) == "Thumbs.db"
  }

  /** For a bare file name (no '\'), the cache test is a name comparison. */
  lemma CacheFileByName(name: string)
    requires |name| >= 1 && '\\' !in name
    ensures IsCacheFile(name) <==> name == "Thumbs.db"
  {
    if |name| >= 2 {
      BreakPathNoSeparator(name);
    }
  }
}
