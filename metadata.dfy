/**
 * data_formatter.py `_make_metadata`: writes `<patient>.jpl` next to the
 * ledger, one `key = "value"` line per field, for the archive import.
 *
 * The file is opened before the case number is written; when the patient
 * has none, concatenating None raises after the first four lines, which
 * stay in the file. `date.today()` is the parameter `today`.
 */
module Metadata {
  import opened Wrappers
  import opened PyStr
  import opened Util
  import opened Disk
  import opened PatientData

  datatype Date = Date(day: nat, month: nat, year: nat)

  predicate ValidDate(t: Date) {
    1 <= t.day <= 31 && 1 <= t.month <= 12
  }

  /** A number below 100 as two digits. */
  function Pad2(n: nat): (s: string)
    requires n < 100
    ensures |s| == 2 && IsNumeric(s)
  {
    [DigitChar(n / 10), DigitChar(n % 10)]
  }

  /** `today.strftime("%d.%m.%y")` */
  function FormatDate(t: Date): string
    requires ValidDate(t)
  {
    Pad2(t.day) + "." + Pad2(t.month) + "." + Pad2(t.year % 100)
  }

  lemma Pad2Value(n: nat)
    requires n < 100
    ensures ParseNat(Pad2(n)) == Some(n)
  {
    var s := Pad2(n);
    assert DigitValue(DigitChar(n / 10)) == n / 10;
    assert DigitValue(DigitChar(n % 10)) == n % 10;
    assert s[..1] == [DigitChar(n / 10)] && s[..1][..0] == [];
    assert DigitsValue(s[..1]) == n / 10;
    assert s[..|s| - 1] == s[..1];
    assert DigitsValue(s) == (n / 10) * 10 + n % 10;
  }

  /** The date reads back as day, month and two-digit year, separated by dots. */
  lemma FormatDateFields(t: Date)
    requires ValidDate(t)
    ensures var s := FormatDate(t);
      |s| == 8 && s[2] == '.' && s[5] == '.' &&
      ParseNat(s[0..2]) == Some(t.day) && ParseNat(s[3..5]) == Some(t.month) &&
      ParseNat(s[6..8]) == Some(t.year % 100)
  {
    var s := FormatDate(t);
    assert s[0..2] == Pad2(t.day);
    assert s[3..5] == Pad2(t.month);
    assert s[6..8] == Pad2(t.year % 100);
    Pad2Value(t.day);
    Pad2Value(t.month);
    Pad2Value(t.year % 100);
  }

  // ---------------------------------------------------------------------
  // Fields

  /** The keys of the metadata file: `dokuart`, `logi_verzeichnis` and `dok_dat_feld[n]`. */
  datatype Key = DokuArt | LogiVerzeichnis | DokDatFeld(n: nat)

  function KeyText(k: Key): string {
    match k
    case DokuArt => "dokuart"
    case LogiVerzeichnis => "logi_verzeichnis"
    case DokDatFeld(n) => "dok_dat_feld[" + NatToString(n) + "]"
  }

  datatype Field = Field(key: Key, value: string)

  /** `key = "value"` followed by a newline. */
  function FieldLine(f: Field): string {
    KeyText(f.key) + " = \"" + f.value + "\"\n"
  }

  function Render(fs: seq<Field>): string {
    if fs == [] then "" else Render(fs[..|fs| - 1]) + FieldLine(fs[|fs| - 1])
  }

  /** The value of the first field with this key. */
  function Lookup(fs: seq<Field>, key: Key): (r: Option<string>)
    ensures r.Some? ==> Field(key, r.value) in fs
    ensures r.None? <==> forall k :: 0 <= k < |fs| ==> fs[k].key != key
  {
    if fs == [] then None
    else if fs[0].key == key then Some(fs[0].value)
    else
      var r := Lookup(fs[1..], key);
      assert forall k :: 1 <= k < |fs| ==> fs[k] == fs[1..][k - 1];
      r
  }

  lemma {:induction false} LookupAppend(a: seq<Field>, b: seq<Field>, key: Key)
    ensures Lookup(a + b, key) == if Lookup(a, key).Some? then Lookup(a, key) else Lookup(b, key)
  {
    if a != [] {
      assert (a + b)[1..] == a[1..] + b;
      LookupAppend(a[1..], b, key);
    } else {
      assert a + b == b;
    }
  }

  /** `'Wunddokumentation' if 'Wunddoku' in txt_path_root else 'Stomadokumentation'` */
  function Documentation(root: string): string {
    if Contains(root, "Wunddoku") then "Wunddokumentation" else "Stomadokumentation"
  }

  /** The lines written before the case number. */
  function HeadFields(doc: string): seq<Field> {
    [Field(DokuArt, "DMDOK"),
     Field(LogiVerzeichnis, "Freigabe"),
     Field(DokDatFeld(3), "MCC AA " + doc + " Migration"),
     Field(DokDatFeld(5), doc)]
  }

  function Optional(key: Key, v: Option<string>): seq<Field> {
    if v.Some? then [Field(key, v.value)] else []
  }

  /** Every field of a patient with a case number, in the order written. */
  function MetadataFields(id: Identity, doc: string, today: string): (r: seq<Field>)
    requires id.caseNr.Some?
    ensures 10 <= |r| <= 13
    ensures r[4] == Field(DokDatFeld(7), id.caseNr.value)
  {
    HeadFields(doc) +
    [Field(DokDatFeld(7), id.caseNr.value)] +
    Optional(DokDatFeld(11), id.firstName) +
    Optional(DokDatFeld(12), id.lastName) +
    FixedFields(today) +
    Optional(DokDatFeld(53), id.birthday)
  }

  /** The lines between the names and the birthday. */
  function FixedFields(today: string): seq<Field> {
    [Field(DokDatFeld(14), "Migrationsdokument"),
     Field(DokDatFeld(15), "2080"),
     Field(DokDatFeld(16), "MCC HLT"),
     Field(DokDatFeld(50), today),
     Field(DokDatFeld(52), today)]
  }

  datatype MetadataError =
    | NoLedger                   // `txt_path` is None
    | EmptyPath(path: string)    // `break_path('')` raises
    | NoCaseNumber(path: string) // concatenating None raises; the file keeps its first lines

  /** `os.path.join(txt_path_root, patient + '.jpl')` */
  function MetadataPath(root: string): string
    requires |root| >= 1
  {
    PathJoin(root, Leaf(root) + ".jpl")
  }

  /** What `_make_metadata(txt_path)` does: the new disk and the error it raised, if any. */
  function MetadataOutcome(txtPath: Option<string>, d: Disk, isDate: string -> bool, today: Date): (r: (Disk, Option<MetadataError>))
    requires ValidDate(today)
    ensures r.1 == Some(NoLedger) <==> txtPath.None?
  {
    if txtPath.None? then (d, Some(NoLedger))
    else if |txtPath.value| == 0 then (d, Some(EmptyPath(txtPath.value)))
    else
      var root := Parent(txtPath.value);
      if |root| == 0 then (d, Some(EmptyPath(root)))
      else
        var id := PatientDataOf(Leaf(root), isDate);
        var doc := Documentation(root);
        if id.caseNr.None? then
          (d.(texts := d.texts[MetadataPath(root) := Render(HeadFields(doc))]), Some(NoCaseNumber(MetadataPath(root))))
        else
          (d.(texts := d.texts[MetadataPath(root) := Render(MetadataFields(id, doc, FormatDate(today)))]), None)
  }

  /** data_formatter.py `_make_metadata`: the writes in order. */
  method MakeMetadata(txtPath: Option<string>, d: Disk, isDate: string -> bool, today: Date)
    returns (d': Disk, err: Option<MetadataError>)
    requires ValidDate(today)
    ensures (d', err) == MetadataOutcome(txtPath, d, isDate, today)
  {
    if txtPath.None? {
      return d, Some(NoLedger);
    }
    if |txtPath.value| == 0 {
      return d, Some(EmptyPath(txtPath.value));
    }
    var _, txtPathRoot := BreakPath(txtPath.value);
    if |txtPathRoot| == 0 {
      return d, Some(EmptyPath(txtPathRoot));
    }
    var patient, _ := BreakPath(txtPathRoot);
    var metadataPath := PathJoin(txtPathRoot, patient + ".jpl");
    var id := ExtractPatientData(patient, isDate);
    var documentation := if Contains(txtPathRoot, "Wunddoku") then "Wunddokumentation" else "Stomadokumentation";
    var written := WriteFields(id, documentation, FormatDate(today));
    d' := d.(texts := d.texts[metadataPath := Render(written)]);
    err := if id.caseNr.None? then Some(NoCaseNumber(metadataPath)) else None;
  }

  /** The `f.write` calls in order; without a case number they stop after the fourth line. */
  method WriteFields(id: Identity, documentation: string, todayStr: string) returns (written: seq<Field>)
    ensures id.caseNr.None? ==> written == HeadFields(documentation)
    ensures id.caseNr.Some? ==> written == MetadataFields(id, documentation, todayStr)
  {
    written := [];
    written := written + [Field(DokuArt, "DMDOK")];
    written := written + [Field(LogiVerzeichnis, "Freigabe")];
    written := written + [Field(DokDatFeld(3), "MCC AA " + documentation + " Migration")];
    written := written + [Field(DokDatFeld(5), documentation)];
    assert written == HeadFields(documentation);
    if id.caseNr.None? {
      return;
    }
    written := written + [Field(DokDatFeld(7), id.caseNr.value)];
    ghost var w7 := written;
    if id.firstName.Some? {
      written := written + [Field(DokDatFeld(11), id.firstName.value)];
    }
    assert written == w7 + Optional(DokDatFeld(11), id.firstName);
    ghost var w11 := written;
    if id.lastName.Some? {
      written := written + [Field(DokDatFeld(12), id.lastName.value)];
    }
    assert written == w11 + Optional(DokDatFeld(12), id.lastName);
    ghost var w12 := written;
    written := written + [Field(DokDatFeld(14), "Migrationsdokument")];
    written := written + [Field(DokDatFeld(15), "2080")];
    written := written + [Field(DokDatFeld(16), "MCC HLT")];
    written := written + [Field(DokDatFeld(50), todayStr)];
    written := written + [Field(DokDatFeld(52), todayStr)];
    assert written == w12 + FixedFields(todayStr);
    ghost var w52 := written;
    if id.birthday.Some? {
      written := written + [Field(DokDatFeld(53), id.birthday.value)];
    }
    assert written == w52 + Optional(DokDatFeld(53), id.birthday);
  }

  /**
   * The fields record the identity: the case number under key 7, each name
   * and the birthday under their keys exactly when they were found, the
   * document type under key 5 and today's date under keys 50 and 52.
   */
  lemma FieldsRecordIdentity(id: Identity, doc: string, today: string)
    requires id.caseNr.Some?
    ensures var fs := MetadataFields(id, doc, today);
      Lookup(fs, DokDatFeld(7)) == id.caseNr &&
      Lookup(fs, DokDatFeld(11)) == id.firstName &&
      Lookup(fs, DokDatFeld(12)) == id.lastName &&
      Lookup(fs, DokDatFeld(53)) == id.birthday
  {
    IdentityKey(id, doc, today, DokDatFeld(7));
    IdentityKey(id, doc, today, DokDatFeld(11));
    IdentityKey(id, doc, today, DokDatFeld(12));
    IdentityKey(id, doc, today, DokDatFeld(53));
  }

  /** Under the keys 7, 11, 12 and 53 only the identity's own field is written. */
  lemma IdentityKey(id: Identity, doc: string, today: string, key: Key)
    requires id.caseNr.Some?
    requires key == DokDatFeld(7) || key == DokDatFeld(11) || key == DokDatFeld(12) || key == DokDatFeld(53)
    ensures Lookup(MetadataFields(id, doc, today), key) ==
      if key == DokDatFeld(7) then id.caseNr
      else if key == DokDatFeld(11) then id.firstName
      else if key == DokDatFeld(12) then id.lastName
      else id.birthday
  {
    HeadLookup(doc, key);
    FixedLookup(today, key);
    LookupSingle(Field(DokDatFeld(7), id.caseNr.value), key);
    LookupOptional(DokDatFeld(11), id.firstName, key);
    LookupOptional(DokDatFeld(12), id.lastName, key);
    LookupOptional(DokDatFeld(53), id.birthday, key);
    LookupFields(id, doc, today, key);
  }

  /** The document type sits under key 5 and today's date under keys 50 and 52. */
  lemma FieldsRecordDocument(id: Identity, doc: string, today: string)
    requires id.caseNr.Some?
    ensures var fs := MetadataFields(id, doc, today);
      Lookup(fs, DokDatFeld(5)) == Some(doc) &&
      Lookup(fs, DokDatFeld(50)) == Some(today) &&
      Lookup(fs, DokDatFeld(52)) == Some(today)
  {
    DocumentKey(id, doc, today, DokDatFeld(5));
    DocumentKey(id, doc, today, DokDatFeld(50));
    DocumentKey(id, doc, today, DokDatFeld(52));
  }

  /** Under the keys 5, 50 and 52 only the fixed field is written. */
  lemma DocumentKey(id: Identity, doc: string, today: string, key: Key)
    requires id.caseNr.Some?
    requires key == DokDatFeld(5) || key == DokDatFeld(50) || key == DokDatFeld(52)
    ensures Lookup(MetadataFields(id, doc, today), key) == if key == DokDatFeld(5) then Some(doc) else Some(today)
  {
    HeadLookup(doc, key);
    FixedLookup(today, key);
    LookupSingle(Field(DokDatFeld(7), id.caseNr.value), key);
    LookupOptional(DokDatFeld(11), id.firstName, key);
    LookupOptional(DokDatFeld(12), id.lastName, key);
    LookupFields(id, doc, today, key);
  }

  lemma LookupOptional(k: Key, v: Option<string>, key: Key)
    ensures Lookup(Optional(k, v), key) == if k == key then v else None
  {
    if v.Some? {
      LookupSingle(Field(k, v.value), key);
    }
  }

  lemma LookupSingle(f: Field, key: Key)
    ensures Lookup([f], key) == if f.key == key then Some(f.value) else None
  {
    if f.key != key {
      assert [f][1..] == [];
    }
  }

  lemma HeadLookup(doc: string, key: Key)
    ensures Lookup(HeadFields(doc), key) ==
      if key == DokuArt then Some("DMDOK")
      else if key == LogiVerzeichnis then Some("Freigabe")
      else if key == DokDatFeld(3) then Some("MCC AA " + doc + " Migration")
      else if key == DokDatFeld(5) then Some(doc)
      else None
  {
    var fs := HeadFields(doc);
    assert fs == [fs[0]] + [fs[1]] + [fs[2]] + [fs[3]];
    LookupAppend([fs[0]] + [fs[1]] + [fs[2]], [fs[3]], key);
    LookupAppend([fs[0]] + [fs[1]], [fs[2]], key);
    LookupAppend([fs[0]], [fs[1]], key);
    LookupSingle(fs[0], key);
    LookupSingle(fs[1], key);
    LookupSingle(fs[2], key);
    LookupSingle(fs[3], key);
  }

  lemma FixedLookup(today: string, key: Key)
    ensures Lookup(FixedFields(today), key) ==
      if key == DokDatFeld(14) then Some("Migrationsdokument")
      else if key == DokDatFeld(15) then Some("2080")
      else if key == DokDatFeld(16) then Some("MCC HLT")
      else if key == DokDatFeld(50) || key == DokDatFeld(52) then Some(today)
      else None
  {
    var fs := FixedFields(today);
    assert fs == [fs[0]] + [fs[1]] + [fs[2]] + [fs[3]] + [fs[4]];
    LookupAppend([fs[0]] + [fs[1]] + [fs[2]] + [fs[3]], [fs[4]], key);
    LookupAppend([fs[0]] + [fs[1]] + [fs[2]], [fs[3]], key);
    LookupAppend([fs[0]] + [fs[1]], [fs[2]], key);
    LookupAppend([fs[0]], [fs[1]], key);
    LookupSingle(fs[0], key);
    LookupSingle(fs[1], key);
    LookupSingle(fs[2], key);
    LookupSingle(fs[3], key);
    LookupSingle(fs[4], key);
  }

  lemma LookupFields(id: Identity, doc: string, today: string, key: Key)
    requires id.caseNr.Some?
    ensures Lookup(MetadataFields(id, doc, today), key) ==
      FirstOf(Lookup(HeadFields(doc), key),
      FirstOf(Lookup([Field(DokDatFeld(7), id.caseNr.value)], key),
      FirstOf(Lookup(Optional(DokDatFeld(11), id.firstName), key),
      FirstOf(Lookup(Optional(DokDatFeld(12), id.lastName), key),
      FirstOf(Lookup(FixedFields(today), key),
              Lookup(Optional(DokDatFeld(53), id.birthday), key))))))
  {
    var a := HeadFields(doc) + [Field(DokDatFeld(7), id.caseNr.value)];
    var b := Optional(DokDatFeld(11), id.firstName);
    var c := Optional(DokDatFeld(12), id.lastName);
    var e := FixedFields(today);
    LookupAppend(a + b + c + e, Optional(DokDatFeld(53), id.birthday), key);
    LookupAppend(a + b + c, e, key);
    LookupAppend(a + b, c, key);
    LookupAppend(a, b, key);
    LookupAppend(HeadFields(doc), [Field(DokDatFeld(7), id.caseNr.value)], key);
  }

  function FirstOf(a: Option<string>, b: Option<string>): Option<string> {
    if a.Some? then a else b
  }

  /** `_make_metadata` raises exactly when there is no ledger path, no parent directory or no case number. */
  lemma MetadataFails(txtPath: Option<string>, d: Disk, isDate: string -> bool, today: Date)
    requires ValidDate(today)
    ensures MetadataOutcome(txtPath, d, isDate, today).1.None? <==>
      txtPath.Some? && |txtPath.value| >= 1 && |Parent(txtPath.value)| >= 1 &&
      PatientDataOf(Leaf(Parent(txtPath.value)), isDate).caseNr.Some?
  {
  }

  /** With a case number the metadata file sits in the ledger's directory and holds every field. */
  lemma MetadataWritten(txt: string, d: Disk, isDate: string -> bool, today: Date)
    requires ValidDate(today)
    requires |txt| >= 1 && |Parent(txt)| >= 1
    requires PatientDataOf(Leaf(Parent(txt)), isDate).caseNr.Some?
    ensures MetadataOutcome(Some(txt), d, isDate, today) ==
      (d.(texts := d.texts[MetadataPath(Parent(txt)) :=
             Render(MetadataFields(PatientDataOf(Leaf(Parent(txt)), isDate), Documentation(Parent(txt)), FormatDate(today)))]),
       None)
  {
  }

  /** Without a case number the write fails, and the file holds only the first four lines. */
  lemma MetadataWithoutCaseNumber(txt: string, d: Disk, isDate: string -> bool, today: Date)
    requires ValidDate(today)
    requires |txt| >= 1 && |Parent(txt)| >= 1
    requires PatientDataOf(Leaf(Parent(txt)), isDate).caseNr.None?
    ensures MetadataOutcome(Some(txt), d, isDate, today) ==
      (d.(texts := d.texts[MetadataPath(Parent(txt)) := Render(HeadFields(Documentation(Parent(txt))))]),
       Some(NoCaseNumber(MetadataPath(Parent(txt)))))
  {
  }
}
