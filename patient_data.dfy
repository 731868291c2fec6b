/**
 * The identity parser of data_formatter.py, `_extract_patient_data`: from a
 * patient folder's name it extracts first name, last name, birthday and case
 * number through a staged token pipeline.
 *
 * Stages 1-4 are list comprehensions in the source and are functions here;
 * stages 5-7 are for-loops that rebuild the token list, and the method
 * `ExtractPatientData` keeps those loops, each proved against the stage's
 * declarative definition. `dateutil.parser.parse` is the parameter `isDate`:
 * `isDate(t)` holds when parsing `t` succeeds.
 */
module PatientData {
  import opened Wrappers
  import opened PyStr

  /** `[first_name, last_name, birthday, case_nr]` */
  datatype Identity = Identity(
    firstName: Option<string>,
    lastName: Option<string>,
    birthday: Option<string>,
    caseNr: Option<string>)

  /** `skip_words`, compared against the lower-cased token */
  const SkipWords: seq<string> :=
    ["", "-", "geb", "dr", "fallnr", "fall-nr", "fr", "frau", "hr", "herr", "der", "auf", "zim"]

  /** The characters `strip(' ,-')` removes at both ends. */
  const TrimChars: set<char> := {' ', ',', '-'}

  /** No token contains `c`. */
  predicate NoneContain(ts: seq<string>, c: char) {
    forall k :: 0 <= k < |ts| ==> c !in ts[k]
  }

  lemma NoneContainAppend(a: seq<string>, b: seq<string>)
    ensures forall c :: NoneContain(a + b, c) <==> NoneContain(a, c) && NoneContain(b, c)
  {
    forall c ensures NoneContain(a + b, c) <==> NoneContain(a, c) && NoneContain(b, c) {
      if NoneContain(a, c) && NoneContain(b, c) {
        forall k | 0 <= k < |a + b| ensures c !in (a + b)[k] {
          if k >= |a| { assert (a + b)[k] == b[k - |a|]; }
        }
      }
      if NoneContain(a + b, c) {
        forall k | 0 <= k < |b| ensures c !in b[k] { assert (a + b)[|a| + k] == b[k]; }
        forall k | 0 <= k < |a| ensures c !in a[k] { assert (a + b)[k] == a[k]; }
      }
    }
  }

  lemma NoneContainPrefix(ts: seq<string>)
    requires |ts| > 0
    ensures forall c :: NoneContain(ts, c) ==> NoneContain(ts[..|ts| - 1], c) && c !in ts[|ts| - 1]
  {
  }

  // ---------------------------------------------------------------------
  // Stages 1-4: the comprehensions

  /** Stage 1: `patient.split(' ')` */
  function Words(patient: string): (r: seq<string>)
    ensures NoneContain(r, ' ')
  {
    Split(patient, ' ')
  }

  /** Stage 2: `datum.replace('geb.', '')` on every token */
  function DropBirthMarker(ts: seq<string>): (r: seq<string>)
    ensures |r| == |ts| && forall i :: 0 <= i < |ts| ==> r[i] == RemoveAll(ts[i], "geb.")
    ensures forall c :: NoneContain(ts, c) ==> NoneContain(r, c)
  {
    seq(|ts|, i requires 0 <= i < |ts| => RemoveAll(ts[i], "geb."))
  }

  /** Stage 3: `datum.strip(' ,-')` on every token */
  function TrimAll(ts: seq<string>): (r: seq<string>)
    ensures |r| == |ts| && forall k :: 0 <= k < |ts| ==> r[k] == Strip(ts[k], TrimChars)
    ensures forall k :: 0 <= k < |r| ==> r[k] == [] || (r[k][0] !in TrimChars && r[k][|r[k]| - 1] !in TrimChars)
    ensures forall c :: NoneContain(ts, c) ==> NoneContain(r, c)
  {
    seq(|ts|, i requires 0 <= i < |ts| => Strip(ts[i], TrimChars))
  }

  /** Stage 4: drop every token whose lower-cased form is a skip word (the empty token among them). */
  function DropSkipWords(ts: seq<string>): (r: seq<string>)
    ensures forall k :: 0 <= k < |r| ==> r[k] in ts && Lower(r[k]) !in SkipWords
    ensures forall c :: NoneContain(ts, c) ==> NoneContain(r, c)
  {
    if ts == [] then []
    else
      var pre, last := ts[..|ts| - 1], ts[|ts| - 1];
      var rest := DropSkipWords(pre);
      assert forall t :: t in pre ==> t in ts;
      NoneContainAppend(rest, [last]);
      NoneContainPrefix(ts);
      if Lower(last) in SkipWords then rest else rest + [last]
  }

  /** A birth marker glued to a date without 'g' is taken out, and the date is left. */
  lemma BirthMarkerDropped(date: string)
    requires 'g' !in date
    ensures RemoveAll("geb." + date, "geb.") == date
  {
    var s := "geb." + date;
    assert s[..4] == "geb.";
    RemoveAllSplices(s, 0, "geb.");
    assert s[4..] == date;
    NotContainedWithoutHead(date, "geb.");
    RemoveAllAbsent(date, "geb.");
  }

  /** Dropping skip words distributes over concatenation, so the kept tokens keep their order. */
  lemma {:induction false} DropSkipWordsAppend(a: seq<string>, b: seq<string>)
    ensures DropSkipWords(a + b) == DropSkipWords(a) + DropSkipWords(b)
  {
    if b == [] {
      assert a + b == a;
    } else {
      DropSkipWordsAppend(a, b[..|b| - 1]);
      assert (a + b)[..|a + b| - 1] == a + b[..|b| - 1];
    }
  }

  /**
   * Every token whose lower case is not a skip word is kept, at the
   * position that counts the tokens kept before it.
   */
  lemma DropSkipWordsKeeps(ts: seq<string>, k: nat)
    requires k < |ts| && Lower(ts[k]) !in SkipWords
    ensures |DropSkipWords(ts[..k])| < |DropSkipWords(ts)|
    ensures DropSkipWords(ts)[|DropSkipWords(ts[..k])|] == ts[k]
  {
    DropSkipWordsLast(ts, k);
    CutAfter(ts, k);
    DropSkipWordsAppend(ts[..k + 1], ts[k + 1..]);
    AtSeam(DropSkipWords(ts[..k]), ts[k], DropSkipWords(ts[k + 1..]));
  }

  lemma CutAfter(ts: seq<string>, k: nat)
    requires k < |ts|
    ensures ts[..k + 1] + ts[k + 1..] == ts
  {
  }

  lemma AtSeam(a: seq<string>, x: string, b: seq<string>)
    ensures |a| < |a + [x] + b| && (a + [x] + b)[|a|] == x
  {
  }

  lemma DropSkipWordsLast(ts: seq<string>, k: nat)
    requires k < |ts| && Lower(ts[k]) !in SkipWords
    ensures DropSkipWords(ts[..k + 1]) == DropSkipWords(ts[..k]) + [ts[k]]
  {
    assert ts[..k + 1][..k] == ts[..k];
  }

  /** The tokens that reach the date stage. */
  function Normalized(patient: string): seq<string> {
    DropSkipWords(TrimAll(DropBirthMarker(Words(patient))))
  }

  // ---------------------------------------------------------------------
  // Stage 5: birthday

  /** The tokens the date parser rejects, in order. */
  function WithoutDates(ts: seq<string>, isDate: string -> bool): (r: seq<string>)
    ensures |r| <= |ts| && forall k :: 0 <= k < |r| ==> !isDate(r[k])
    ensures (forall k :: 0 <= k < |ts| ==> !isDate(ts[k])) ==> r == ts
    ensures forall c :: NoneContain(ts, c) ==> NoneContain(r, c)
  {
    if ts == [] then []
    else
      var rest := WithoutDates(ts[..|ts| - 1], isDate);
      assert ts[..|ts| - 1] + [ts[|ts| - 1]] == ts;
      NoneContainAppend(rest, [ts[|ts| - 1]]);
      NoneContainPrefix(ts);
      if isDate(ts[|ts| - 1]) then rest else rest + [ts[|ts| - 1]]
  }

  /** Every token the date parser rejects is kept. */
  lemma {:induction false} WithoutDatesKeeps(ts: seq<string>, isDate: string -> bool, k: nat)
    requires k < |ts| && !isDate(ts[k])
    ensures ts[k] in WithoutDates(ts, isDate)
  {
    var pre := ts[..|ts| - 1];
    if k < |pre| {
      WithoutDatesKeeps(pre, isDate, k);
      assert pre[k] == ts[k];
    } else {
      assert WithoutDates(ts, isDate) == WithoutDates(pre, isDate) + [ts[k]];
    }
  }

  /** The last token the date parser accepts: each accepted token overwrites `birthday`. */
  function LastDate(ts: seq<string>, isDate: string -> bool): (r: Option<string>)
    ensures r.Some? ==> exists j :: 0 <= j < |ts| && ts[j] == r.value && isDate(ts[j]) &&
                                   forall j' :: j < j' < |ts| ==> !isDate(ts[j'])
    ensures r.None? <==> forall j :: 0 <= j < |ts| ==> !isDate(ts[j])
  {
    if ts == [] then None
    else if isDate(ts[|ts| - 1]) then Some(ts[|ts| - 1])
    else
      var r := LastDate(ts[..|ts| - 1], isDate);
      if r.Some? then LastDateExtends(ts, ts[..|ts| - 1], isDate, r.value); r
      else
        assert forall j :: 0 <= j < |ts| - 1 ==> ts[..|ts| - 1][j] == ts[j];
        r
  }

  /** A last date of all but the final token stays the last one when the final token is no date. */
  lemma LastDateExtends(ts: seq<string>, pre: seq<string>, isDate: string -> bool, v: string)
    requires |ts| > 0 && pre == ts[..|ts| - 1] && !isDate(ts[|ts| - 1])
    requires exists j :: 0 <= j < |pre| && pre[j] == v && isDate(pre[j]) &&
                         forall j' :: j < j' < |pre| ==> !isDate(pre[j'])
    ensures exists j :: 0 <= j < |ts| && ts[j] == v && isDate(ts[j]) &&
                        forall j' :: j < j' < |ts| ==> !isDate(ts[j'])
  {
    var j :| 0 <= j < |pre| && pre[j] == v && isDate(pre[j]) && forall j' :: j < j' < |pre| ==> !isDate(pre[j']);
    assert ts[j] == pre[j];
    forall j' | j < j' < |ts| ensures !isDate(ts[j']) {
      if j' < |pre| { assert ts[j'] == pre[j']; }
    }
  }

  // ---------------------------------------------------------------------
  // Stage 6: split tokens at ',' and '.'

  /** The pieces of every word split at `sep`, concatenated in order. */
  function SplitAll(ws: seq<string>, sep: char): (r: seq<string>)
    ensures NoneContain(r, sep)
    ensures forall c :: NoneContain(ws, c) ==> NoneContain(r, c)
  {
    if ws == [] then []
    else
      var pieces := Split(ws[|ws| - 1], sep);
      NoneContainAppend(SplitAll(ws[..|ws| - 1], sep), pieces);
      NoneContainPrefix(ws);
      SplitAll(ws[..|ws| - 1], sep) + pieces
  }

  /** Splitting every word distributes over concatenation. */
  lemma {:induction false} SplitAllAppend(a: seq<string>, b: seq<string>, sep: char)
    ensures SplitAll(a + b, sep) == SplitAll(a, sep) + SplitAll(b, sep)
  {
    if b == [] {
      assert a + b == a;
    } else {
      var pre, last := b[..|b| - 1], b[|b| - 1];
      SplitAllAppend(a, pre, sep);
      assert (a + b)[..|a + b| - 1] == a + pre && (a + b)[|a + b| - 1] == last;
      assert SplitAll(a + b, sep) == SplitAll(a + pre, sep) + Split(last, sep);
      assert SplitAll(b, sep) == SplitAll(pre, sep) + Split(last, sep);
    }
  }

  /** Joining the pieces of every word with `sep` gives the words joined with `sep`. */
  lemma {:induction false} JoinSplitAll(ws: seq<string>, sep: char)
    requires |ws| >= 1
    ensures |SplitAll(ws, sep)| >= 1 && Join(SplitAll(ws, sep), sep) == Join(ws, sep)
  {
    var pre, last := ws[..|ws| - 1], ws[|ws| - 1];
    JoinSplit(last, sep);
    if pre == [] {
      assert SplitAll(ws, sep) == Split(last, sep);
      assert ws == [last];
    } else {
      JoinSplitAll(pre, sep);
      JoinAppend(SplitAll(pre, sep), Split(last, sep), sep);
      JoinAppend(pre, [last], sep);
      assert pre + [last] == ws;
    }
  }

  /** Dropping empty words distributes over concatenation. */
  lemma {:induction false} NonEmptyAppend(a: seq<string>, b: seq<string>)
    ensures NonEmpty(a + b) == NonEmpty(a) + NonEmpty(b)
  {
    if b == [] {
      assert a + b == a;
    } else {
      NonEmptyAppend(a, b[..|b| - 1]);
      assert (a + b)[..|a + b| - 1] == a + b[..|b| - 1];
    }
  }

  /** Every non-empty piece is kept. */
  lemma {:induction false} NonEmptyKeeps(ws: seq<string>, k: nat)
    requires k < |ws| && ws[k] != ""
    ensures ws[k] in NonEmpty(ws)
  {
    var pre := ws[..|ws| - 1];
    if k < |pre| {
      NonEmptyKeeps(pre, k);
      assert pre[k] == ws[k];
    } else {
      assert NonEmpty(ws) == NonEmpty(pre) + [ws[k]];
    }
  }

  /** The non-empty words, in order. */
  function NonEmpty(ws: seq<string>): (r: seq<string>)
    ensures |r| <= |ws| && forall k :: 0 <= k < |r| ==> r[k] != ""
    ensures (forall k :: 0 <= k < |ws| ==> ws[k] != "") ==> r == ws
    ensures forall c :: NoneContain(ws, c) ==> NoneContain(r, c)
  {
    if ws == [] then []
    else
      var rest := NonEmpty(ws[..|ws| - 1]);
      assert ws[..|ws| - 1] + [ws[|ws| - 1]] == ws;
      NoneContainAppend(rest, [ws[|ws| - 1]]);
      NoneContainPrefix(ws);
      if ws[|ws| - 1] == "" then rest else rest + [ws[|ws| - 1]]
  }

  /** The non-empty pieces of one token split at ',' and then at '.'. */
  function Pieces(datum: string): seq<string> {
    NonEmpty(SplitAll(Split(datum, ','), '.'))
  }

  /** The pieces of one datum are non-empty, free of separators, and hold only its characters. */
  lemma PiecesClean(datum: string)
    ensures forall k :: 0 <= k < |Pieces(datum)| ==>
      Pieces(datum)[k] != "" && ',' !in Pieces(datum)[k] && '.' !in Pieces(datum)[k]
    ensures forall c :: c !in datum ==> NoneContain(Pieces(datum), c)
  {
    var commaFree := Split(datum, ',');
    assert NoneContain(commaFree, ',');
    forall c | c !in datum ensures NoneContain(commaFree, c) {
    }
  }

  function PiecesAll(ts: seq<string>): (r: seq<string>)
    ensures forall k :: 0 <= k < |r| ==> r[k] != "" && ',' !in r[k] && '.' !in r[k]
    ensures forall c :: NoneContain(ts, c) ==> NoneContain(r, c)
  {
    if ts == [] then []
    else
      var last := ts[|ts| - 1];
      PiecesClean(last);
      NoneContainAppend(PiecesAll(ts[..|ts| - 1]), Pieces(last));
      NoneContainPrefix(ts);
      PiecesAll(ts[..|ts| - 1]) + Pieces(last)
  }

  /**
   * Splitting token by token is splitting the whole list at ',', then at
   * '.', and dropping the empty pieces.
   */
  lemma {:induction false} PiecesAllFlat(ts: seq<string>)
    ensures PiecesAll(ts) == NonEmpty(SplitAll(SplitAll(ts, ','), '.'))
  {
    if ts != [] {
      var pre, last := ts[..|ts| - 1], ts[|ts| - 1];
      PiecesAllFlat(pre);
      assert SplitAll(ts, ',') == SplitAll(pre, ',') + Split(last, ',');
      SplitAllAppend(SplitAll(pre, ','), Split(last, ','), '.');
      NonEmptyAppend(SplitAll(SplitAll(pre, ','), '.'), SplitAll(Split(last, ','), '.'));
    }
  }

  /** Tokens that are non-empty and free of ',' and '.' pass through unchanged. */
  lemma {:induction false} PiecesAllClean(ts: seq<string>)
    requires forall k :: 0 <= k < |ts| ==> ts[k] != "" && ',' !in ts[k] && '.' !in ts[k]
    ensures PiecesAll(ts) == ts
  {
    if ts != [] {
      var pre, last := ts[..|ts| - 1], ts[|ts| - 1];
      PiecesAllClean(pre);
      SplitNoSeparator(last, ',');
      SplitNoSeparator(last, '.');
      assert [last][..0] == [];
      assert SplitAll([last], '.') == [last];
      assert NonEmpty([last]) == [last];
      assert pre + [last] == ts;
    }
  }

  /** Splitting again changes nothing. */
  lemma PiecesAllIdempotent(ts: seq<string>)
    ensures PiecesAll(PiecesAll(ts)) == PiecesAll(ts)
  {
    PiecesAllClean(PiecesAll(ts));
  }

  // ---------------------------------------------------------------------
  // Stage 7: doctor names and the case number

  /** `datum.lower() == 'dr' or datum.lower() == 'prof'` */
  predicate IsTitle(t: string) {
    Lower(t) == "dr" || Lower(t) == "prof"
  }

  /** `datum.isnumeric() and len(datum) > 5` */
  predicate IsCaseNumber(t: string) {
    IsNumeric(t) && |t| > 5
  }

  /**
   * Whether the token at position `i` is dropped as a doctor's name: it
   * follows a title that was not itself dropped. At `i == |ts|` this is the
   * `skip_doctor` flag left after the whole scan.
   */
  predicate Swallowed(ts: seq<string>, i: nat)
    requires i <= |ts|
  {
    i > 0 && IsTitle(ts[i - 1]) && !Swallowed(ts, i - 1)
  }

  /** The token at `i` is captured as a case number. */
  predicate CaseAt(ts: seq<string>, i: nat)
    requires i < |ts|
  {
    !Swallowed(ts, i) && !IsTitle(ts[i]) && IsCaseNumber(ts[i])
  }

  /** The token at `i` survives the scan. */
  predicate Kept(ts: seq<string>, i: nat)
    requires i < |ts|
  {
    !Swallowed(ts, i) && !IsTitle(ts[i]) && !IsCaseNumber(ts[i])
  }

  /** The surviving tokens among the first `k`, in order. */
  function NamesUpTo(ts: seq<string>, k: nat): (r: seq<string>)
    requires k <= |ts|
    ensures forall m :: 0 <= m < |r| ==> exists j :: 0 <= j < k && Kept(ts, j) && ts[j] == r[m]
    ensures forall c :: NoneContain(ts, c) ==> NoneContain(r, c)
  {
    if k == 0 then []
    else
      var rest := NamesUpTo(ts, k - 1);
      if Kept(ts, k - 1) then
        var r := rest + [ts[k - 1]];
        assert forall m :: 0 <= m < |rest| ==> r[m] == rest[m];
        r
      else rest
  }

  /** Tokens that do not survive leave the names as they were. */
  lemma {:induction false} NamesSkip(ts: seq<string>, a: nat, k: nat)
    requires a <= k <= |ts|
    requires forall j :: a <= j < k ==> !Kept(ts, j)
    ensures NamesUpTo(ts, k) == NamesUpTo(ts, a)
  {
    if k > a {
      NamesSkip(ts, a, k - 1);
    }
  }

  /** The names found among fewer tokens are a prefix of those found among more. */
  lemma {:induction false} NamesPrefix(ts: seq<string>, j: nat, k: nat)
    requires j <= k <= |ts|
    ensures NamesUpTo(ts, j) <= NamesUpTo(ts, k)
  {
    if k > j {
      NamesPrefix(ts, j, k - 1);
    }
  }

  /**
   * The surviving token at `j` is the name at the position that counts the
   * survivors before it: the names are the surviving tokens in order.
   */
  lemma NamesAt(ts: seq<string>, j: nat, k: nat)
    requires j < k <= |ts| && Kept(ts, j)
    ensures |NamesUpTo(ts, j)| < |NamesUpTo(ts, k)| && NamesUpTo(ts, k)[|NamesUpTo(ts, j)|] == ts[j]
  {
    NamesPrefix(ts, j + 1, k);
  }

  /** The case number after scanning the first `k` tokens: the last one captured. */
  function CaseNrUpTo(ts: seq<string>, k: nat): (r: Option<string>)
    requires k <= |ts|
    ensures r.Some? ==> IsCaseNumber(r.value)
    ensures r.Some? ==> exists j :: 0 <= j < k && CaseAt(ts, j) && ts[j] == r.value &&
                                   forall j' :: j < j' < k ==> !CaseAt(ts, j')
    ensures r.None? <==> forall j :: 0 <= j < k ==> !CaseAt(ts, j)
  {
    if k == 0 then None
    else if CaseAt(ts, k - 1) then Some(ts[k - 1])
    else
      var r := CaseNrUpTo(ts, k - 1);
      if r.Some? then CaseNrExtends(ts, k, r.value); r else r
  }

  /** A last capture among the first `k - 1` tokens stays the last one when token `k - 1` is no capture. */
  lemma CaseNrExtends(ts: seq<string>, k: nat, v: string)
    requires 0 < k <= |ts| && !CaseAt(ts, k - 1)
    requires exists j :: 0 <= j < k - 1 && CaseAt(ts, j) && ts[j] == v &&
                         forall j' :: j < j' < k - 1 ==> !CaseAt(ts, j')
    ensures exists j :: 0 <= j < k && CaseAt(ts, j) && ts[j] == v &&
                        forall j' :: j < j' < k ==> !CaseAt(ts, j')
  {
    var j :| 0 <= j < k - 1 && CaseAt(ts, j) && ts[j] == v && forall j' :: j < j' < k - 1 ==> !CaseAt(ts, j');
    assert forall j' :: j < j' < k ==> !CaseAt(ts, j');
  }

  // ---------------------------------------------------------------------
  // The loops of stages 5-7

  /** Lines 268-277: take out every token the date parser accepts; the last one is the birthday. */
  method TakeOutDates(data: seq<string>, isDate: string -> bool) returns (rest: seq<string>, birthday: Option<string>)
    ensures rest == WithoutDates(data, isDate)
    ensures birthday == LastDate(data, isDate)
  {
    rest, birthday := [], None;
    var i := 0;
    while i < |data|
      invariant 0 <= i <= |data|
      invariant rest == WithoutDates(data[..i], isDate)
      invariant birthday == LastDate(data[..i], isDate)
    {
      rest, birthday := TakeOutDate(data, i, isDate, rest, birthday);
      i := i + 1;
    }
    assert data[..|data|] == data;
  }

  /** One pass of the date loop, over `data[i]`. */
  method TakeOutDate(data: seq<string>, i: nat, isDate: string -> bool, rest0: seq<string>, birthday0: Option<string>)
    returns (rest: seq<string>, birthday: Option<string>)
    requires i < |data|
    requires rest0 == WithoutDates(data[..i], isDate) && birthday0 == LastDate(data[..i], isDate)
    ensures rest == WithoutDates(data[..i + 1], isDate) && birthday == LastDate(data[..i + 1], isDate)
  {
    var datum := data[i];
    DatesStep(data, i, isDate);
    rest, birthday := rest0, birthday0;
    if isDate(datum) {
      birthday := Some(datum);
    } else {
      rest := rest + [datum];
    }
  }

  lemma DatesStep(data: seq<string>, i: nat, isDate: string -> bool)
    requires i < |data|
    ensures WithoutDates(data[..i + 1], isDate) ==
      WithoutDates(data[..i], isDate) + (if isDate(data[i]) then [] else [data[i]])
    ensures LastDate(data[..i + 1], isDate) == if isDate(data[i]) then Some(data[i]) else LastDate(data[..i], isDate)
  {
    assert data[..i + 1][..i] == data[..i];
  }

  lemma PiecesAllStep(data: seq<string>, i: nat)
    requires i < |data|
    ensures PiecesAll(data[..i + 1]) == PiecesAll(data[..i]) + Pieces(data[i])
  {
    assert data[..i + 1][..i] == data[..i];
  }

  lemma NonEmptyStep(ws: seq<string>, j: nat)
    requires j < |ws|
    ensures NonEmpty(ws[..j + 1]) == NonEmpty(ws[..j]) + (if ws[j] == "" then [] else [ws[j]])
  {
    assert ws[..j + 1][..j] == ws[..j];
  }

  lemma SplitAllStep(ws: seq<string>, j: nat, sep: char)
    requires j < |ws|
    ensures SplitAll(ws[..j + 1], sep) == SplitAll(ws[..j], sep) + Split(ws[j], sep)
  {
    assert ws[..j + 1][..j] == ws[..j];
  }

  /** Lines 282-285: the pieces of one token split at ',' and then at '.', empty ones included. */
  method SplitWord(datum: string) returns (prov: seq<string>)
    ensures prov == SplitAll(Split(datum, ','), '.')
  {
    var splitted := Split(datum, ',');
    prov := [];
    var j := 0;
    while j < |splitted|
      invariant 0 <= j <= |splitted|
      invariant prov == SplitAll(splitted[..j], '.')
    {
      SplitAllStep(splitted, j, '.');
      prov := prov + Split(splitted[j], '.');
      j := j + 1;
    }
    assert splitted[..|splitted|] == splitted;
  }

  /** Lines 286-288: append the non-empty pieces. */
  method AppendNonEmpty(pieces0: seq<string>, prov: seq<string>) returns (pieces: seq<string>)
    ensures pieces == pieces0 + NonEmpty(prov)
  {
    pieces := pieces0;
    var j := 0;
    while j < |prov|
      invariant 0 <= j <= |prov|
      invariant pieces == pieces0 + NonEmpty(prov[..j])
    {
      NonEmptyStep(prov, j);
      if prov[j] != "" {
        pieces := pieces + [prov[j]];
      }
      j := j + 1;
    }
    assert prov[..|prov|] == prov;
  }

  /** Lines 280-289: split every token at ',' and then at '.', keeping the non-empty pieces. */
  method SplitAtPunctuation(data: seq<string>) returns (pieces: seq<string>)
    ensures pieces == PiecesAll(data)
  {
    pieces := [];
    var i := 0;
    while i < |data|
      invariant 0 <= i <= |data|
      invariant pieces == PiecesAll(data[..i])
    {
      var datum := data[i];
      var prov := SplitWord(datum);
      pieces := AppendNonEmpty(pieces, prov);
      PiecesAllStep(data, i);
      i := i + 1;
    }
    assert data[..|data|] == data;
  }

  /** Lines 292-305: drop each title and the token after it; capture case numbers, the last one wins. */
  method DropDoctors(data: seq<string>) returns (names: seq<string>, caseNr: Option<string>)
    ensures names == NamesUpTo(data, |data|)
    ensures caseNr == CaseNrUpTo(data, |data|)
  {
    var skipDoctor := false;
    names, caseNr := [], None;
    var i := 0;
    while i < |data|
      invariant 0 <= i <= |data|
      invariant skipDoctor == Swallowed(data, i)
      invariant names == NamesUpTo(data, i)
      invariant caseNr == CaseNrUpTo(data, i)
    {
      var datum := data[i];
      if skipDoctor {
        skipDoctor := false;
      } else if Lower(datum) == "dr" || Lower(datum) == "prof" {
        skipDoctor := true;
      } else if IsNumeric(datum) && |datum| > 5 {
        caseNr := Some(datum);
      } else {
        names := names + [datum];
      }
      i := i + 1;
    }
  }

  // ---------------------------------------------------------------------
  // The whole parser

  /** The token stream that reaches stage 7. */
  function Stream(patient: string, isDate: string -> bool): seq<string> {
    PiecesAll(WithoutDates(Normalized(patient), isDate))
  }

  /** The surviving tokens; the first two become the names. */
  function Names(patient: string, isDate: string -> bool): seq<string> {
    var ts := Stream(patient, isDate);
    NamesUpTo(ts, |ts|)
  }

  /** What `_extract_patient_data(patient)` returns. */
  function PatientDataOf(patient: string, isDate: string -> bool): (r: Identity)
    ensures r.lastName.Some? ==> r.firstName.Some?
    ensures r.caseNr.Some? ==> IsCaseNumber(r.caseNr.value)
  {
    var ts := Stream(patient, isDate);
    var names := Names(patient, isDate);
    Identity(
      if |names| > 0 then Some(names[0]) else None,
      if |names| > 1 then Some(names[1]) else None,
      LastDate(Normalized(patient), isDate),
      CaseNrUpTo(ts, |ts|))
  }

  /** data_formatter.py `_extract_patient_data` */
  method ExtractPatientData(patient: string, isDate: string -> bool) returns (id: Identity)
    ensures id == PatientDataOf(patient, isDate)
  {
    var firstName: Option<string> := None;
    var lastName: Option<string> := None;
    var data := Normalized(patient);
    var birthday;
    data, birthday := TakeOutDates(data, isDate);
    data := SplitAtPunctuation(data);
    var caseNr;
    data, caseNr := DropDoctors(data);
    if |data| > 0 {
      firstName := Some(data[0]);
      if |data| > 1 {
        lastName := Some(data[1]);
      }
    }
    id := Identity(firstName, lastName, birthday, caseNr);
  }

  // ---------------------------------------------------------------------
  // Properties

  /** Every surviving token is non-empty, free of ' ', ',' and '.', and neither a title nor a case number. */
  lemma NamesValid(patient: string, isDate: string -> bool)
    ensures forall w :: w in Names(patient, isDate) ==> ValidName(w)
  {
    var norm := Normalized(patient);
    var rest := WithoutDates(norm, isDate);
    var ts := PiecesAll(rest);
    var names := NamesUpTo(ts, |ts|);
    assert NoneContain(rest, ' ');
    assert NoneContain(ts, ' ');
    assert NoneContain(names, ' ');
    forall w | w in names
      ensures ValidName(w)
    {
      var m :| 0 <= m < |names| && names[m] == w;
      var j :| 0 <= j < |ts| && Kept(ts, j) && ts[j] == names[m];
    }
  }

  /** A last name comes only with a first name, and both are valid names. */
  lemma NamesWellFormed(patient: string, isDate: string -> bool)
    ensures var id := PatientDataOf(patient, isDate);
      (id.lastName.Some? ==> id.firstName.Some?) &&
      (id.firstName.Some? ==> ValidName(id.firstName.value)) &&
      (id.lastName.Some? ==> ValidName(id.lastName.value))
  {
    NamesValid(patient, isDate);
  }

  /** The first name is the first surviving token of the stream. */
  lemma FirstNameIsFirstKept(patient: string, isDate: string -> bool, j0: nat)
    requires var ts := Stream(patient, isDate);
      j0 < |ts| && Kept(ts, j0) && forall j :: 0 <= j < j0 ==> !Kept(ts, j)
    ensures PatientDataOf(patient, isDate).firstName == Some(Stream(patient, isDate)[j0])
  {
    var ts := Stream(patient, isDate);
    NamesSkip(ts, 0, j0);
    NamesAt(ts, j0, |ts|);
  }

  /** The last name is the second surviving token of the stream. */
  lemma LastNameIsSecondKept(patient: string, isDate: string -> bool, j0: nat, j1: nat)
    requires var ts := Stream(patient, isDate);
      j0 < j1 < |ts| && Kept(ts, j0) && Kept(ts, j1) && forall j :: 0 <= j < j1 && j != j0 ==> !Kept(ts, j)
    ensures PatientDataOf(patient, isDate).lastName == Some(Stream(patient, isDate)[j1])
  {
    var ts := Stream(patient, isDate);
    NamesSkip(ts, 0, j0);
    NamesSkip(ts, j0 + 1, j1);
    NamesAt(ts, j1, |ts|);
  }

  /** With no surviving token there is no name. */
  lemma NoName(patient: string, isDate: string -> bool)
    requires var ts := Stream(patient, isDate);
      forall j :: 0 <= j < |ts| ==> !Kept(ts, j)
    ensures PatientDataOf(patient, isDate).firstName.None? && PatientDataOf(patient, isDate).lastName.None?
  {
    var ts := Stream(patient, isDate);
    NamesSkip(ts, 0, |ts|);
  }

  /** With exactly one surviving token there is no last name. */
  lemma NoSecondName(patient: string, isDate: string -> bool, j0: nat)
    requires var ts := Stream(patient, isDate);
      j0 < |ts| && forall j :: 0 <= j < |ts| && j != j0 ==> !Kept(ts, j)
    ensures PatientDataOf(patient, isDate).lastName.None?
  {
    var ts := Stream(patient, isDate);
    NamesOne(ts, j0);
  }

  lemma NamesOne(ts: seq<string>, j0: nat)
    requires j0 < |ts| && forall j :: 0 <= j < |ts| && j != j0 ==> !Kept(ts, j)
    ensures |NamesUpTo(ts, |ts|)| <= 1
  {
    NamesSkip(ts, 0, j0);
    NamesSkip(ts, j0 + 1, |ts|);
  }

  predicate ValidName(w: string) {
    w != "" && ' ' !in w && ',' !in w && '.' !in w && !IsTitle(w) && !IsCaseNumber(w)
  }

  /**
   * The case number, when there is one, is all digits and longer than five;
   * it is the last captured token of the stream, and none is captured when
   * it is None.
   */
  lemma CaseNumberIsLastCaptured(patient: string, isDate: string -> bool)
    ensures var id := PatientDataOf(patient, isDate);
            var ts := Stream(patient, isDate);
      (id.caseNr.Some? ==> IsNumeric(id.caseNr.value) && |id.caseNr.value| > 5) &&
      (id.caseNr.Some? ==> exists j :: 0 <= j < |ts| && CaseAt(ts, j) && ts[j] == id.caseNr.value &&
                                       forall j' :: j < j' < |ts| ==> !CaseAt(ts, j')) &&
      (id.caseNr.None? <==> forall j :: 0 <= j < |ts| ==> !CaseAt(ts, j))
  {
  }

  /**
   * The birthday is the last normalized token the date parser accepts, and
   * no accepted token reaches the later stages.
   */
  lemma BirthdayIsLastDate(patient: string, isDate: string -> bool)
    ensures var id := PatientDataOf(patient, isDate);
            var ts := Normalized(patient);
      (id.birthday.Some? ==> exists j :: 0 <= j < |ts| && ts[j] == id.birthday.value && isDate(ts[j]) &&
                                         forall j' :: j < j' < |ts| ==> !isDate(ts[j'])) &&
      (id.birthday.None? <==> forall j :: 0 <= j < |ts| ==> !isDate(ts[j])) &&
      (forall t :: t in WithoutDates(ts, isDate) ==> !isDate(t))
  {
  }

  /**
   * Stage 7 on the tokens of "Mueller, Hans geb. 12.03.1950 Dr. Schmidt 123456"
   * once the birthday is out: the name after "Dr" is dropped and the long
   * number becomes the case number.
   */
  lemma DoctorNameDropped()
    ensures var ts := ["Mueller", "Hans", "Dr", "Schmidt", "123456"];
      NamesUpTo(ts, |ts|) == ["Mueller", "Hans"] && CaseNrUpTo(ts, |ts|) == Some("123456")
  {
    var ts := ["Mueller", "Hans", "Dr", "Schmidt", "123456"];
    assert Lower("Mueller") == "mueller" && Lower("Hans") == "hans" && Lower("Dr") == "dr";
    assert !IsDigit(ts[0][0]) && !IsDigit(ts[1][0]) && !IsDigit(ts[2][0]);
    assert !IsTitle(ts[0]) && !IsTitle(ts[1]) && IsTitle(ts[2]);
    assert !Swallowed(ts, 0) && !Swallowed(ts, 1) && !Swallowed(ts, 2);
    assert Swallowed(ts, 3) && !Swallowed(ts, 4);
    assert Lower("123456") == "123456";
    assert IsCaseNumber(ts[4]) && !IsTitle(ts[4]);
  }

  /** A title right after a title is itself swallowed, so the token after it is not. */
  lemma TitleAfterTitle()
    ensures var ts := ["dr", "dr", "1234567"];
      NamesUpTo(ts, |ts|) == [] && CaseNrUpTo(ts, |ts|) == Some("1234567")
  {
    var ts := ["dr", "dr", "1234567"];
    assert Lower("dr") == "dr";
    assert IsTitle(ts[0]) && !Swallowed(ts, 0) && Swallowed(ts, 1) && !Swallowed(ts, 2);
    assert Lower("1234567") == "1234567";
    assert IsCaseNumber(ts[2]) && !IsTitle(ts[2]);
  }
}
