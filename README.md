# data_formatter — a Dafny model of the archive migration core

`data_formatter` walks a Windows archive of patient folders (below an
`Arch`, `Stomadoku` or `Wunddoku` directory). It converts every document of
a patient to PDF, keeps a per-patient ledger (`info.txt`) of the converted
files and their time stamps, merges each patient's PDFs in time order into
`<patient>.pdf`, and writes a `<patient>.jpl` metadata file for the import.
The patient's identity (first name, last name, birthday, case number) is
parsed out of the patient folder's name.

This project models that core:

- `PyStr` gives the Python `str` behaviour the code relies on: clamped and
  negative slices, `in`, `split`, `strip`, `replace(x, '')`, `lower`,
  `isnumeric`, and `str`/`float` on time stamps.
- `Util` models `get_format` and `break_path`. Each index-walking loop is a
  method proved equal to a declarative split, with its end-of-string quirks.
- `Boundary` models `_get_patient_folder` (the archive-marker test and
  substring stickiness) and `_check_cache_file`.
- `PatientData` models `_extract_patient_data`. The stages that are list
  comprehensions are functions; the three for-loops are methods proved
  against them.
- `Walk` models the walk folds `extract_patient_folders` and
  `_extract_patients_data`, and the row filter of `extract_csv`.
- `Ledger` covers the `info.txt` text format, its round trip, and the
  stable sort by time.
- `Output` models `_make_output_path`: the first free `<stem><idx>.pdf`.
- `Merge` models `_update_info_txt` and `_merge_pdfs`. Every way the merge
  can raise is an error value.
- `Metadata` models `_make_metadata`: the `.jpl` fields, written in order.
- `PdfConverter` models how `file_to_pdf` reports on one file. What each
  converter does is a parameter.
- `Clean` is the routing skeleton of `clean_folder`. It covers:
  - the walk loop and the per-directory file loop;
  - the ignored and not-converted lists;
  - the `txt_path` / `txt_path_previous` switch that triggers a merge;
  - the final merge;
  - an exception that ends the run.

The file system is a `Disk`: PDF files (each recorded by the input files
whose pages it holds) and text files by content. `os.walk` is a sequence of
`Dir(root, files)` records, top-down. Everything outside the program is a
parameter:
- the date parser is `isDate`;
- `date.today()` is `today`;
- each converter's outcome is `convert`;
- each file's `getctime`/`getmtime` is `timeOf`.

The model follows the code as written, including where it behaves in ways
a reader might not expect:
- The patient folder is kept for every later root that contains it as a
  substring. A sibling whose name extends it, such as `Hans 1234567` after
  `Hans 123456`, is absorbed (`Boundary.SiblingAbsorbed`).
- A patient folder is recognised by the archive markers in its path, not by
  a case number in its name. A folder without a case number still becomes
  the patient folder, and its files are ignored
  (`Boundary.ScopeWithoutCaseNumber`).
- The birthday is the last token the date parser accepts, and the case
  number the last qualifying token, not the first
  (`PatientData.BirthdayIsLastDate`, `PatientData.CaseNumberIsLastCaptured`).
- `_make_metadata` opens the file before it writes the case number.
  Without one, the first four lines stay in the file and the call raises
  (`Metadata.MetadataWithoutCaseNumber`).
- `file_to_pdf` returns None when a converter raises `RuntimeError`, and
  `clean_folder` takes that for a success: the file gets a ledger entry but
  no PDF (`Clean.FileTimedOut`), and merging that ledger then fails
  (`Clean.TimedOutEntryBreaksMerge`). The corrected `file_to_pdf` is
  `PdfConverter.FileToPdf`; see "## Findings".
- `_save_log` reads the count `tot_files` that it binds only when some file
  was ignored. With none ignored and some not converted, it raises
  `UnboundLocalError` and the run ends there (`Clean.SaveLogRaises`).

## Model

| member | source | states |
|---|---|---|
| PyStr.SliceBound | data_formatter/util.py:8 | a Python slice bound is clamped into `[0, len]`; a negative one counts from the end |
| PyStr.ContainsTransitive | data_formatter/data_formatter.py:232 | substring containment (`in`) is transitive |
| PyStr.Split | data_formatter/data_formatter.py:257 | `split(sep)` yields at least one part; no part holds `sep`, and every character comes from the input |
| PyStr.JoinSplit | data_formatter/data_formatter.py:257 | joining the parts of `split(sep)` with `sep` gives the input back |
| PyStr.SplitJoin | data_formatter/data_formatter.py:283-285 | splitting a join of separator-free parts gives the parts back |
| PyStr.Strip | data_formatter/data_formatter.py:262 | `strip(cs)` is a contiguous slice of the input; everything cut off at either end is in `cs`, and neither end of what is left is |
| PyStr.RemoveAll | data_formatter/data_formatter.py:259 | `replace(pat, '')` never lengthens the string or adds characters |
| PyStr.RemoveAllAbsent | data_formatter/data_formatter.py:259 | `replace` of an absent pattern leaves the string unchanged |
| PyStr.RemoveAllShortens | data_formatter/data_formatter.py:259 | a string in which the pattern occurs gets shorter, so with RemoveAllAbsent the string is unchanged exactly when the pattern does not occur |
| PyStr.RemoveAllSplices | data_formatter/data_formatter.py:259 | scanning left to right, the characters before the first occurrence are kept and that occurrence is taken out |
| PyStr.Lower | data_formatter/pdf_converter.py:17 | `lower()` keeps the length and lowers each character |
| PyStr.NatToString | data_formatter/data_formatter.py:450 | `str(n)` is a digit string, one digit long exactly when `n < 10` |
| PyStr.ParseNatToString | data_formatter/data_formatter.py:391 | a time stamp written with `str` reads back with `float` as the same value |
| PyStr.NatToStringInjective | data_formatter/data_formatter.py:374 | distinct numbers have distinct decimal texts |
| Util.LastIndexOf | data_formatter/util.py:5-9 | the index found holds the character, and none after it below the bound does |
| Util.GetFormat | data_formatter/util.py:4-10 | the backward scan returns exactly the split at the last dot past index 0 |
| Util.FormatSplit | data_formatter/util.py:4-10 | the stem is a prefix of the path, and it is the whole path exactly when there is no format |
| Util.GetFormatSplitsAtLastDot | data_formatter/util.py:4-10 | for a last dot at `k >= 1` before the final character: the format is what follows it, the stem what precedes it, and stem + "." + format is the path |
| Util.GetFormatNone | data_formatter/util.py:4-10 | there is no format exactly when no dot occurs after index 0; the stem is then the whole path |
| Util.GetFormatTrailingDot | data_formatter/util.py:7-8 | with a trailing dot, the "format" is the whole path and the stem drops the dot |
| Util.BreakPath | data_formatter/util.py:13-19 | the loop, which starts from `path[1]`, returns exactly the declarative split |
| Util.PathSplit | data_formatter/util.py:13-19 | the parent is a proper prefix of the path and the leaf a suffix of it |
| Util.BreakPathAtSeparator | data_formatter/util.py:13-19 | at the last `\` (found past index 1) the leaf is what follows it, the parent what precedes it, and parent + `\` + leaf is the path |
| Util.BreakPathNoSeparator | data_formatter/util.py:13-19 | without a `\`, the leaf is the whole path and the "parent" drops its last character |
| Util.BreakPathIndexOne | data_formatter/util.py:15-16 | when `path[1]` is `\` the loop never runs: the leaf is empty and the parent drops the last character |
| Util.PathJoinInjective | data_formatter/data_formatter.py:101 | joining different names onto one directory gives different paths |
| Boundary.MarkerLength | data_formatter/data_formatter.py:236-237 | a path holding an archive marker has at least four characters |
| Boundary.PatientFolder | data_formatter/data_formatter.py:231-246 | the result is the previous patient folder or the root; a new one has a marker in its path and none in its own name |
| Boundary.PatientFolderSticks | data_formatter/data_formatter.py:232-233 | a root containing the previous patient folder as a substring keeps it |
| Boundary.PatientFolderNewScope | data_formatter/data_formatter.py:235-246 | otherwise the root becomes the patient folder exactly when its path has a marker and its name has none, and the result is None in every other case |
| Boundary.PatientFolderIdempotent | data_formatter/data_formatter.py:231-246 | asking again with the answer gives the same answer |
| Boundary.SiblingAbsorbed | data_formatter/data_formatter.py:232 | a sibling whose name extends the patient folder's name stays in the old patient folder |
| Boundary.ScopeWithoutCaseNumber | data_formatter/data_formatter.py:235-246 | a folder below `Arch` becomes a patient folder without any case number |
| Boundary.IsCacheFile | data_formatter/data_formatter.py:224-229 | a path taken for a cache file ends in `Thumbs.db`; with CacheFileByName, a bare name is one exactly when it is `Thumbs.db` |
| Boundary.CacheFileByName | data_formatter/data_formatter.py:224-229 | a bare file name is a cache file exactly when it is `Thumbs.db` |
| PatientData.Words | data_formatter/data_formatter.py:257 | no word holds a space |
| PatientData.DropBirthMarker | data_formatter/data_formatter.py:259 | each token, in its place, has every `geb.` taken out by `replace` |
| PatientData.BirthMarkerDropped | data_formatter/data_formatter.py:259 | `geb.` glued to a date without a `g` is taken out and the date is left, as in `geb.12.03.1950` |
| PatientData.TrimAll | data_formatter/data_formatter.py:262 | each token, in its place, is stripped of ' ', ',' and '-' at both ends |
| PatientData.DropSkipWords | data_formatter/data_formatter.py:255-265 | every kept token was a token, and its lower case is not a skip word |
| PatientData.DropSkipWordsAppend | data_formatter/data_formatter.py:265 | the filter works token by token, so the kept tokens keep their order |
| PatientData.DropSkipWordsKeeps | data_formatter/data_formatter.py:265 | every token whose lower case is not a skip word is kept |
| PatientData.WithoutDates | data_formatter/data_formatter.py:268-277 | no kept token is a date, the list never grows, and nothing is removed when no token is a date |
| PatientData.WithoutDatesKeeps | data_formatter/data_formatter.py:268-277 | every token the date parser rejects is kept |
| PatientData.LastDate | data_formatter/data_formatter.py:268-277 | the birthday is the last date token, and it is None exactly when no token is a date |
| PatientData.SplitAll | data_formatter/data_formatter.py:283-285 | no piece holds the separator |
| PatientData.SplitAllAppend | data_formatter/data_formatter.py:283-285 | the pieces of a list of words are the pieces of each word, in order |
| PatientData.JoinSplitAll | data_formatter/data_formatter.py:283-285 | joining all the pieces with the separator gives the words joined with it: no character is lost or moved |
| PatientData.NonEmpty | data_formatter/data_formatter.py:286-288 | no kept piece is empty, the list never grows, and nothing is removed when no piece is empty |
| PatientData.NonEmptyKeeps | data_formatter/data_formatter.py:286-288 | every non-empty piece is kept |
| PatientData.NonEmptyAppend | data_formatter/data_formatter.py:286-288 | dropping empty pieces works piece by piece, so the kept ones keep their order |
| PatientData.PiecesAll | data_formatter/data_formatter.py:280-289 | every piece is non-empty and free of ',' and '.' |
| PatientData.PiecesAllFlat | data_formatter/data_formatter.py:280-289 | the pieces are the non-empty parts of all tokens split at ',' and then at '.', in order |
| PatientData.PiecesAllClean | data_formatter/data_formatter.py:280-289 | non-empty tokens free of ',' and '.' pass through unchanged |
| PatientData.PiecesAllIdempotent | data_formatter/data_formatter.py:280-289 | splitting the pieces again changes nothing |
| PatientData.NamesUpTo | data_formatter/data_formatter.py:292-305 | every kept token is at a position that is neither a title, nor a swallowed doctor's name, nor a case number |
| PatientData.NamesSkip | data_formatter/data_formatter.py:292-305 | tokens that do not survive leave the names as they were |
| PatientData.NamesPrefix | data_formatter/data_formatter.py:292-305 | the names only grow at the end as the scan goes on |
| PatientData.NamesAt | data_formatter/data_formatter.py:292-305 | each surviving token is the name at the position that counts the survivors before it: the names are exactly the survivors, in order |
| PatientData.CaseNrUpTo | data_formatter/data_formatter.py:292-305 | the case number is the last captured numeric token longer than five, and it is None exactly when none is captured |
| PatientData.TakeOutDates | data_formatter/data_formatter.py:268-277 | the loop yields the non-date tokens and the last date |
| PatientData.TakeOutDate | data_formatter/data_formatter.py:269-276 | one pass over a token extends the non-dates or replaces the birthday, as the declarative stage does for one more token |
| PatientData.SplitAtPunctuation | data_formatter/data_formatter.py:280-289 | the nested loops yield the non-empty pieces split at ',' then '.' |
| PatientData.SplitWord | data_formatter/data_formatter.py:282-285 | the inner loop splits a token at ',' and each part at '.', in order |
| PatientData.AppendNonEmpty | data_formatter/data_formatter.py:286-288 | the second inner loop appends exactly the non-empty pieces, in order |
| PatientData.DropDoctors | data_formatter/data_formatter.py:292-305 | the `skip_doctor` loop yields the kept names and the last case number |
| PatientData.ExtractPatientData | data_formatter/data_formatter.py:248-312 | the whole pipeline computes the declarative identity |
| PatientData.PatientDataOf | data_formatter/data_formatter.py:248-312 | a last name comes only with a first name, and a case number is all digits and longer than five |
| PatientData.NamesValid | data_formatter/data_formatter.py:248-305 | every surviving token is non-empty, free of ' ', ',' and '.', and neither a title nor a case number |
| PatientData.NamesWellFormed | data_formatter/data_formatter.py:307-312 | a last name comes only with a first name, and both are valid names |
| PatientData.FirstNameIsFirstKept | data_formatter/data_formatter.py:307-309 | the first name is the first token that survives every stage |
| PatientData.LastNameIsSecondKept | data_formatter/data_formatter.py:307-311 | the last name is the second token that survives every stage |
| PatientData.NoName | data_formatter/data_formatter.py:307-312 | when no token survives, there is neither a first nor a last name |
| PatientData.NoSecondName | data_formatter/data_formatter.py:310-312 | when one token survives, there is no last name |
| PatientData.CaseNumberIsLastCaptured | data_formatter/data_formatter.py:301-303 | the case number is all digits and longer than five; it is the last captured token, and None exactly when none is captured |
| PatientData.BirthdayIsLastDate | data_formatter/data_formatter.py:268-277 | the birthday is the last date token, None exactly when there is none, and no date reaches the later stages |
| PatientData.DoctorNameDropped | data_formatter/data_formatter.py:294-304 | the name after "Dr" is dropped, and a long number becomes the case number |
| PatientData.TitleAfterTitle | data_formatter/data_formatter.py:295-300 | a title right after a title is swallowed, so the token after it is kept |
| Walk.ScopeAfter | data_formatter/data_formatter.py:164-165 | the `patient_folder` threaded through `_get_patient_folder`, whenever set, holds an archive marker; with ScopeIsVisitedRoot it is a visited root |
| Walk.Appended | data_formatter/data_formatter.py:166-170 | whenever a patient folder is set, it is the one appended last, which is what `previous_patient_folder` records; AppendedFolders gives the rest |
| Walk.LoggedFolders | data_formatter/data_formatter.py:166-170 | one log line per appended folder; with LoggedFoldersAreLeaves, each line is the `break_path` leaf of that folder |
| Walk.ScopeIsVisitedRoot | data_formatter/data_formatter.py:164-165 | the patient folder after a walk is a visited root, and its path holds a marker |
| Walk.AppendedAt | data_formatter/data_formatter.py:164-170 | each appended folder holds an archive marker and is a visited root |
| Walk.AppendedNoRepeatAt | data_formatter/data_formatter.py:165 | no appended folder follows itself |
| Walk.AppendedFolders | data_formatter/data_formatter.py:164-170 | the last folder appended is the current patient folder; each appended folder is a visited root holding a marker; no folder follows itself |
| Walk.NoMarkerNoFolders | data_formatter/data_formatter.py:164-170 | a walk without an archive marker logs no patient folder |
| Walk.AppendedLong | data_formatter/data_formatter.py:167 | every appended folder is long enough for `break_path` |
| Walk.LoggedFoldersAreLeaves | data_formatter/data_formatter.py:166-168 | the log holds, line for line, the folder name (`break_path(...)[0]`) of each appended patient folder |
| Walk.ScanDir | data_formatter/data_formatter.py:164-170 | one pass updates the patient folder and the last appended one as `ScopeAfter` and `Appended` define, and says whether the log gains this folder's name |
| Walk.ExtractPatientFolders | data_formatter/data_formatter.py:151-170 | the loop logs the leaf of each new patient folder, in walk order |
| Walk.PatientsData | data_formatter/data_formatter.py:314-327 | one identity per logged folder; with MapNamesPointwise, each is `_extract_patient_data` of the name at that position |
| Walk.MapNamesPointwise | data_formatter/data_formatter.py:322-324 | the identity list has, at each position, the identity read from the logged name there |
| Walk.AddPatient | data_formatter/data_formatter.py:322-324 | a new patient folder adds the identity read from its name |
| Walk.VisitForData | data_formatter/data_formatter.py:320-325 | one pass of `_extract_patients_data` extends the identity list exactly as the log of the walk grows |
| Walk.ExtractPatientsData | data_formatter/data_formatter.py:314-327 | the loop yields the identity of each logged patient folder, in order |
| Walk.CsvRows | data_formatter/data_formatter.py:145-149 | at most one row per identity; with CsvRowsExactly, a row exactly for each identity with a case number, in order |
| Walk.CsvRowsExactly | data_formatter/data_formatter.py:145-149 | a row is written for an identity exactly when it has a case number |
| Walk.WriteRows | data_formatter/data_formatter.py:142-149 | the header, then the row of each identity with a case number, in order |
| Walk.ExtractCsv | data_formatter/data_formatter.py:137-149 | the CSV holds the header and the rows of the walk's patients |
| Walk.CsvRowsHaveCaseNumber | data_formatter/data_formatter.py:139-149 | at most one row per directory; every row has four cells, and its last is a case number |
| Ledger.EntryText | data_formatter/data_formatter.py:453 | an entry is written as its path, then a newline, and ends with a newline; LedgerRoundTrip reads it back |
| Ledger.LedgerTextLines | data_formatter/data_formatter.py:453 | the ledger text is its path and time lines, each followed by a newline |
| Ledger.SplitText | data_formatter/data_formatter.py:387 | splitting newline-terminated lines at '\n' gives them back, followed by an empty tail |
| Ledger.LinesText | data_formatter/data_formatter.py:387-391 | reading lines back and stripping the newlines gives the written lines |
| Ledger.ParsePairs | data_formatter/data_formatter.py:389-392 | a success gives one entry per line pair; a failure names a time line that does not parse |
| Ledger.ParseLedger | data_formatter/data_formatter.py:387-392 | on success, one entry per pair of lines, each with the path of its first line; with ParsePairs, the time is what its second line reads |
| Ledger.ReadEntries | data_formatter/data_formatter.py:389-392 | the pair loop computes the declarative reading over `len(lines) // 2` pairs |
| Ledger.ParsePairsErrSticks | data_formatter/data_formatter.py:391 | once a time line fails, later pairs change nothing: the first bad line is reported |
| Ledger.ParseEntryLines | data_formatter/data_formatter.py:389-392 | reading the lines written for some entries gives those entries |
| Ledger.LedgerRoundTrip | data_formatter/data_formatter.py:386-392 | for newline-free paths, reading a written ledger gives back exactly its entries |
| Ledger.SortByTime | data_formatter/data_formatter.py:394 | the stable sort keeps the length; with SortByTimeCorrect, it is ordered by time, a permutation and stable |
| Ledger.SortByTimeIsSorted | data_formatter/data_formatter.py:394 | `sorted` by time gives entries in time order |
| Ledger.SortByTimePermutes | data_formatter/data_formatter.py:394 | `sorted` keeps every entry, as often as it occurs |
| Ledger.SortByTimeStable | data_formatter/data_formatter.py:394 | entries with equal times keep their ledger order |
| Ledger.SortByTimeCorrect | data_formatter/data_formatter.py:394 | `sorted` by time is ordered, a permutation, and stable: entries with equal times keep their order |
| Ledger.SortByTimeSorted | data_formatter/data_formatter.py:394 | an ordered ledger is left as it is |
| Ledger.Paths | data_formatter/data_formatter.py:395 | one path per entry, in order |
| Output.OutDir | data_formatter/data_formatter.py:367 | the output directory starts with the output root, and mirrors the patient folder's path below the input root |
| Output.Candidate | data_formatter/data_formatter.py:372-375 | a candidate lies in the output directory and ends in `.pdf`; with CandidateInjective, distinct indices name distinct files |
| Output.CandidateInjective | data_formatter/data_formatter.py:374-375 | different indices give different candidate files |
| Output.CandidatesMembers | data_formatter/data_formatter.py:373-379 | the candidates below `n` are exactly the files with an index below `n` |
| Output.CandidatesCard | data_formatter/data_formatter.py:373-379 | there are `n` distinct candidates below `n` |
| Output.TakenBound | data_formatter/data_formatter.py:373-379 | the index search ends: it cannot pass the number of existing files |
| Output.FreeIndexFrom | data_formatter/data_formatter.py:372-379 | the index found is free, and every smaller one is taken |
| Output.OutputFile | data_formatter/data_formatter.py:364-380 | the output file does not exist yet |
| Output.OutputFileIsFirstFree | data_formatter/data_formatter.py:364-380 | the output file did not exist, and it is the first free `<stem><idx>.pdf` in the mirrored directory |
| Output.MakeOutputPath | data_formatter/data_formatter.py:364-380 | the loop returns the mirrored directory and its first free output file |
| Merge.UpdateInfoTxt | data_formatter/data_formatter.py:446-454 | the ledger of the output directory gains one entry (output path and time); nothing else changes, and its path is returned |
| Merge.UpdateInfoTxtExtends | data_formatter/data_formatter.py:446-454 | appending to a ledger of entries gives the ledger of one more entry |
| Merge.FirstMissing | data_formatter/data_formatter.py:399-400 | it is None exactly when every path names a PDF; otherwise it is the first one that does not |
| Merge.PathSet | data_formatter/data_formatter.py:410-411 | the paths as a set |
| Merge.RemovePdfs | data_formatter/data_formatter.py:410-411 | deleting without a failure removes exactly the listed paths |
| Merge.RemoveDistinct | data_formatter/data_formatter.py:410-411 | deleting distinct existing paths never fails |
| Merge.CheckPdfs | data_formatter/data_formatter.py:399-400 | the append loop stops at the first missing PDF |
| Merge.RemoveLoop | data_formatter/data_formatter.py:410-411 | the deleting loop computes the declarative removal |
| Merge.MergePdfs | data_formatter/data_formatter.py:383-411 | the method's steps give exactly the merge outcome |
| Merge.MergeOutcome | data_formatter/data_formatter.py:383-411 | it raises for want of a ledger exactly when there is none; on success the ledger is deleted and no other text file is touched |
| Merge.MergeErrorsChangeNothing | data_formatter/data_formatter.py:383-400 | every error raised before the deleting loop leaves the disk unchanged |
| Merge.MergeSucceeds | data_formatter/data_formatter.py:383-411 | a successful merge writes `<patient>.pdf` with the files in stable time order, and deletes the ledger and the merged files; nothing else changes |
| Merge.SortedPaths | data_formatter/data_formatter.py:394-395 | sorting keeps distinct ledger paths distinct |
| Merge.MergeDeletesAll | data_formatter/data_formatter.py:409-411 | merging distinct existing files deletes each one without error |
| Merge.MergeOutcomeOk | data_formatter/data_formatter.py:386-411 | the outcome once the ledger reads back, every file exists, and no deletion fails |
| Merge.MergeOfWrittenLedger | data_formatter/data_formatter.py:383-411 | a ledger written for distinct existing PDFs merges without error into those PDFs in time order |
| Metadata.Pad2 | data_formatter/data_formatter.py:353 | a two-digit field of `%d.%m.%y` is two digits |
| Metadata.Pad2Value | data_formatter/data_formatter.py:353 | the two digits read back as the number |
| Metadata.FormatDateFields | data_formatter/data_formatter.py:352-353 | `dd.mm.yy` has eight characters, with the day, month and year mod 100 in their places |
| Metadata.Lookup | data_formatter/data_formatter.py:334-359 | a key found is written with that value; no value is found exactly when no line has the key |
| Metadata.MakeMetadata | data_formatter/data_formatter.py:329-359 | the method's writes give exactly the metadata outcome |
| Metadata.MetadataOutcome | data_formatter/data_formatter.py:329-359 | it raises for want of a ledger exactly when there is none |
| Metadata.MetadataFields | data_formatter/data_formatter.py:334-359 | between 10 and 13 fields, the fifth being the case number; with MetadataWritten, every field is in the written file |
| Metadata.WriteFields | data_formatter/data_formatter.py:334-359 | the `f.write` sequence stops after four lines without a case number; otherwise it writes every field, with optional ones only when found |
| Metadata.FieldsRecordIdentity | data_formatter/data_formatter.py:340-357 | key 7 holds the case number; keys 11, 12 and 53 hold the first name, last name and birthday exactly when these were found |
| Metadata.IdentityKey | data_formatter/data_formatter.py:340-357 | under key 7, 11, 12 or 53 the fields hold the identity's own value, None when it was not found |
| Metadata.DocumentKey | data_formatter/data_formatter.py:337-355 | under key 5 the fields hold the document type, under 50 and 52 today's date |
| Metadata.FieldsRecordDocument | data_formatter/data_formatter.py:337-355 | key 5 holds the document type, and keys 50 and 52 today's date |
| Metadata.MetadataFails | data_formatter/data_formatter.py:329-340 | the call raises unless there is a ledger path, a parent directory and a case number |
| Metadata.MetadataWritten | data_formatter/data_formatter.py:329-359 | with a case number, `<patient>.jpl` beside the ledger holds every field |
| Metadata.MetadataWithoutCaseNumber | data_formatter/data_formatter.py:334-340 | without one, the file keeps its first four lines and the call raises |
| PdfConverter.FileToPdf | data_formatter/pdf_converter.py:15-35 | corrected to return the time-out message: raises exactly when there is no format; reports success exactly for a known format that converted; an unknown format is reported by its lower-cased name |
| PdfConverter.FileToPdfAsWritten | data_formatter/pdf_converter.py:15-35 | as written: raises exactly when there is no format; reports success for a known format unless its converter raised something other than `RuntimeError`; never reports a time-out |
| PdfConverter.AfterConversion | data_formatter/pdf_converter.py:18-20 | the PDF exists, holding the input's pages, exactly when a known converter succeeded |
| PdfConverter.AsWrittenDiffersOnTimeOut | data_formatter/pdf_converter.py:26-29 | as written, `file_to_pdf` differs from the corrected one exactly on a known format that timed out |
| PdfConverter.UpperCaseFormatKnown | data_formatter/pdf_converter.py:16-17 | `.JPG` reaches the `jpg` converter |
| PdfConverter.UnknownFormatReported | data_formatter/pdf_converter.py:21-25 | `.odt` is reported as an unrecognised format `odt` |
| PdfConverter.NoDotRaises | data_formatter/pdf_converter.py:16-17 | a path without a dot has no format, so `file_to_pdf` raises |
| Clean.FileStep | data_formatter/data_formatter.py:93-110 | one file, with `file_to_pdf` as written, changes only the ledger variables, the disk, the not-converted list (by one entry for this non-cache file) and whether the run has ended |
| Clean.IgnoredOf | data_formatter/data_formatter.py:85 | one entry per file of the directory, in order, pairing its joined path with the patient; InScopeRouting shows when it is used |
| Clean.ConvertFiles | data_formatter/data_formatter.py:93-110 | the file loop leaves the patient folder, the ignored list and the merge errors alone |
| Clean.AfterClose | data_formatter/data_formatter.py:115-131 | merging and writing metadata leave the lists and the ledger variables alone; a run ends only in `_make_metadata`, and it ends for want of a ledger exactly when there is none, with that error recorded |
| Clean.DirStep | data_formatter/data_formatter.py:73-80 | a run that has ended changes nothing; otherwise the patient folder is the one `_get_patient_folder` gives |
| Clean.VisitDir | data_formatter/data_formatter.py:73-123 | one iteration of the walk loop gives the declarative directory step |
| Clean.VisitPatientDir | data_formatter/data_formatter.py:81-123 | the iteration inside a patient folder gives the declarative in-scope step |
| Clean.InScope | data_formatter/data_formatter.py:81-123 | the rest of the iteration keeps the patient folder |
| Clean.ConvertFolderFiles | data_formatter/data_formatter.py:93-110 | the file loop, with `file_to_pdf` as written and stopping where it raises, gives the declarative state |
| Clean.CloseLedger | data_formatter/data_formatter.py:116-122 | merging with the exception caught, then writing the metadata, gives the declarative state |
| Clean.CleanFolder | data_formatter/data_formatter.py:48-135 | the walk loop, the final merge and `_save_log` give the declarative outcome of `clean_folder` |
| Clean.CleanOutcome | data_formatter/data_formatter.py:48-135 | closing the last ledger and saving the log change neither the patient folder nor the two lists; the log raises only with nothing ignored and something not converted |
| Clean.SaveLog | data_formatter/data_formatter.py:413-435 | `_save_log` raises exactly when no file was ignored and some file was not converted, and changes nothing else |
| Clean.SaveLogRaises | data_formatter/data_formatter.py:125-135 | the run ends in `_save_log` exactly when it got that far, nothing was ignored and something was not converted |
| Clean.FilesCrashSticks | data_formatter/data_formatter.py:102 | once `file_to_pdf` has raised, the remaining files change nothing |
| Clean.WalkCrashSticks | data_formatter/data_formatter.py:73-123 | once the run has ended, the remaining directories change nothing |
| Clean.FileRouted | data_formatter/data_formatter.py:93-110 | `Thumbs.db` changes nothing. Any other file makes `file_to_pdf` raise; or is listed as not converted with the disk unchanged; or is entered with a path that did not exist in the patient's ledger, with its PDF written there, or with no PDF when the converter timed out |
| Clean.FileConverted | data_formatter/data_formatter.py:103-108 | a file its converter converts gets a path that did not exist, its PDF, and an entry with its time stamp in the patient's ledger; the run goes on |
| Clean.FileTimedOut | data_formatter/data_formatter.py:101-108 | a file whose converter times out gets a path that did not exist and a ledger entry, but no PDF; it is not listed as not converted |
| Clean.ConvertFilesListed | data_formatter/data_formatter.py:93-110 | over a directory, the not-converted list only grows, by at most one entry per file, each a non-cache file of the directory |
| Clean.ConvertFilesLedger | data_formatter/data_formatter.py:103-108 | the ledger in use can only become this patient's ledger; `txt_path_previous` is set exactly when `txt_path` is; only `file_to_pdf` ends the run |
| Clean.InScopeRouting | data_formatter/data_formatter.py:81-110 | without a case number, every file of the directory (cache files included) is listed as ignored and nothing else changes; with one, the ignored list is untouched and every new not-converted entry is a non-cache file of the directory |
| Clean.DirRouting | data_formatter/data_formatter.py:76-81 | outside a patient folder the directory changes nothing else; inside one, it takes the routes with the case number of the patient folder's name |
| Clean.CloseSwitch | data_formatter/data_formatter.py:115-123 | the merge and metadata of the earlier ledger leave the patient folder, both lists and `txt_path` alone; unless they raise, `txt_path_previous` becomes `txt_path`; without a ledger the run ends |
| Clean.SwitchClosesPrevious | data_formatter/data_formatter.py:115-123 | after the files, a merge is triggered exactly when an earlier ledger was in use and another one now is; it closes the earlier one |
| Clean.InScopeSettled | data_formatter/data_formatter.py:103-123 | a directory of a patient folder leaves the previous ledger equal to the current one, and never ends the run for want of a ledger |
| Clean.DirStepSettled | data_formatter/data_formatter.py:73-123 | every directory keeps that |
| Clean.Walked | data_formatter/data_formatter.py:73-123 | the state after a prefix of the walk: a patient folder, when set, is non-empty, and `_save_log` has not run; WalkedSettled gives the ledger invariant |
| Clean.WalkedSettled | data_formatter/data_formatter.py:73-123 | between directories, the previous ledger is the current one |
| Clean.ScopeFollowsWalk | data_formatter/data_formatter.py:73-79 | while the run goes on, `patient_folder` is the one that the walk alone determines |
| Clean.NothingConvertedCrashes | data_formatter/data_formatter.py:125-131 | the run ends in `_make_metadata(None)` exactly when the walk converted nothing and did not end earlier; the err file then holds the merge's exception |
| Clean.TimedOutEntryBreaksMerge | data_formatter/pdf_converter.py:26-29 | as written, a time-out is reported as success with no PDF written; its ledger entry then makes the merge fail on the missing PDF |

## Left out

- The converters themselves (`pdf_to_pdf` … `txt_to_pdf`: COM automation, image libraries, `fpdf`, `extract_msg`) are the parameter `convert`. It says whether the PDF was written, the converter raised `RuntimeError`, or it raised anything else. A converter that times out is taken to write no PDF.
- `PdfConverter.FileToPdf`, `PdfConverter.FileToPdfAsWritten`: `eval` runs the format text as code. The model takes an identifier-like format to raise `NameError` and any other format to raise some other exception. It does not model a format whose text happens to be a valid call (e.g. one naming an existing function), nor Unicode letters in identifiers.
- `_add_header` is not called by `clean_folder` (the call is commented out), and image rendering is outside the model.
- `_save_log` is modelled only for whether it raises. The text it writes is left out, with its counts: the remaining files are counted with the ignored ones subtracted twice, and the "all converted" line is guarded by the inverse of its intended condition.
- `_count_files`, `tot_files`/`n_files`, the `tqdm` progress bar and every `print` only report progress.
- The text of the log and err files is left out. The err file is the list of merge errors.
- `make_dir` and directories in general are left out. The model records only files.
- Time stamps from `getctime`/`getmtime` are floats in the program. Here they are natural numbers written in decimal, so ordering and the round trip hold for them; fractional digits are not modelled.
- `time_order` is folded into the parameter `timeOf`.
- `lower()` and `isnumeric()` are modelled for ASCII letters and digits only.
- `os.path.join` is modelled as joining with a single `\`. Absolute second arguments and drive letters are not modelled.
- `__init__` (making the paths absolute against the working directory), `arg_parse.py` and `__main__.py` are not part of this model. The absolute input and output folders are parameters.
- `os.walk` order and symbolic links are left out. The walk is a given sequence of directories.
- A PDF whose output path collides with a merge target is not modelled specially. It is merged and then deleted like any other entry.

## Findings

| source | as written | input that shows it | evidently intended | confidence | as-written member | corrected member |
|---|---|---|---|---|---|---|
| data_formatter/pdf_converter.py:26-29 | the `RuntimeError` branch sets `error_msg` but falls off the end of the function, so `file_to_pdf` returns None, which its caller reads as success; the file gets a ledger entry but no PDF, and the merge of that ledger fails (Clean.TimedOutEntryBreaksMerge) | a `.docx` file whose converter raises `RuntimeError` (time-out) | return the time-out message, so the file is listed as not converted | not executed | PdfConverter.FileToPdfAsWritten | PdfConverter.FileToPdf |
