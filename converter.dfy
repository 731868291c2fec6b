/**
 * How pdf_converter.py `file_to_pdf` reports on one file.
 *
 * The format is taken from the whole input path with `get_format` and
 * lower-cased; the converter `<format>_to_pdf` is looked up with `eval`.
 * What a known converter does (COM automation, image libraries) is not
 * modelled: it is the parameter `c`, which says whether the PDF was
 * produced, the converter raised `RuntimeError`, or it raised anything else.
 *
 * As written, the `RuntimeError` branch sets a message but does not return
 * it, so the caller sees the file as converted although no PDF exists.
 * `FileToPdfAsWritten` keeps that behaviour, and `clean_folder` is modelled
 * with it; `FileToPdf` returns the message, as evidently intended.
 */
module PdfConverter {
  import opened Wrappers
  import opened PyStr
  import opened Util
  import opened Disk

  /** What the converter for a known format did. */
  datatype Conversion = Converted | TimedOut | Failed

  /** The messages `file_to_pdf` returns. */
  datatype ConvertMessage =
    | Unrecognized(format: string)  // `NameError`: no `<format>_to_pdf`
    | TimedOutMessage               // `RuntimeError`
    | Damaged                       // any other exception, `SyntaxError` from `eval` included

  datatype ConvertOutcome =
    | NoFormat                           // `None.lower()` raises before the `try`
    | Reported(error: Option<ConvertMessage>)

  /** The `<format>_to_pdf` functions defined in pdf_converter.py. */
  const Converters: set<string> := {"pdf", "jpg", "png", "xlsx", "docx", "pptx", "msg", "txt"}

  predicate IsNameChar(c: char) {
    IsDigit(c) || ('a' <= c <= 'z') || ('A' <= c <= 'Z') || c == '_'
  }

  /** `<format>_to_pdf` is a Python name, so `eval` raises `NameError` rather than `SyntaxError`. */
  predicate IsNameLike(format: string) {
    (|format| == 0 || !IsDigit(format[0])) && forall i :: 0 <= i < |format| ==> IsNameChar(format[i])
  }

  /** The lower-cased format of the input path, when it has one. */
  function FormatOf(inPath: string): Option<string> {
    var (format, _) := FormatSplit(inPath);
    if format.None? then None else Some(Lower(format.value))
  }

  /** Whether a converter runs at all: the format names one of `Converters`. */
  predicate Known(inPath: string) {
    FormatOf(inPath).Some? && FormatOf(inPath).value in Converters
  }

  /** `file_to_pdf(in_path, out_path)` as written: a time-out is reported as success. */
  function FileToPdfAsWritten(inPath: string, c: Conversion): (r: ConvertOutcome)
    ensures r == NoFormat <==> FormatSplit(inPath).0.None?
    ensures r == Reported(None) <==> Known(inPath) && c != Failed
    ensures r.Reported? && r.error.Some? ==> !r.error.value.TimedOutMessage?
    ensures r.Reported? && r.error.Some? && r.error.value.Unrecognized? ==>
      !Known(inPath) && r.error.value.format == FormatOf(inPath).value
  {
    var format := FormatOf(inPath);
    if format.None? then NoFormat
    else if format.value in Converters then
      match c
      case Converted => Reported(None)
      case TimedOut => Reported(None)
      case Failed => Reported(Some(Damaged))
    else if IsNameLike(format.value) then Reported(Some(Unrecognized(format.value)))
    else Reported(Some(Damaged))
  }

  /** `file_to_pdf` with the time-out message returned. */
  function FileToPdf(inPath: string, c: Conversion): (r: ConvertOutcome)
    ensures r == NoFormat <==> FormatSplit(inPath).0.None?
    ensures r == Reported(None) <==> Known(inPath) && c == Converted
    ensures r.Reported? && r.error.Some? && r.error.value.Unrecognized? ==>
      !Known(inPath) && r.error.value.format == FormatOf(inPath).value
  {
    var format := FormatOf(inPath);
    if format.None? then NoFormat
    else if format.value in Converters then
      match c
      case Converted => Reported(None)
      case TimedOut => Reported(Some(TimedOutMessage))
      case Failed => Reported(Some(Damaged))
    else if IsNameLike(format.value) then Reported(Some(Unrecognized(format.value)))
    else Reported(Some(Damaged))
  }

  /** The disk after the converter ran: a PDF holding the input's pages exists exactly when it converted. */
  function AfterConversion(d: Disk, inPath: string, outPath: string, c: Conversion): (d': Disk)
    ensures d'.texts == d.texts
    ensures Known(inPath) && c == Converted ==> d'.pdfs == d.pdfs[outPath := [inPath]]
    ensures !(Known(inPath) && c == Converted) ==> d' == d
  {
    if Known(inPath) && c == Converted then d.(pdfs := d.pdfs[outPath := [inPath]]) else d
  }

  /** The two agree except on a time-out, which only the corrected one reports. */
  lemma AsWrittenDiffersOnTimeOut(inPath: string, c: Conversion)
    ensures FileToPdfAsWritten(inPath, c) != FileToPdf(inPath, c) <==> Known(inPath) && c == TimedOut
  {
  }

  /** An upper-case extension reaches its lower-case converter. */
  lemma UpperCaseFormatKnown()
    ensures FileToPdf("D:\\Arch\\Hans 123456\\scan.JPG", Converted) == Reported(None)
  {
    var p := "D:\\Arch\\Hans 123456\\scan.JPG";
    GetFormatSplitsAtLastDot(p, 24);
    assert p[25..] == "JPG";
    JpgHasConverter();
  }

  lemma JpgHasConverter()
    ensures Lower("JPG") == "jpg" && "jpg" in Converters
  {
    assert Lower("JPG") == "jpg";
  }

  /** A format without a converter is reported by name. */
  lemma UnknownFormatReported()
    ensures FileToPdf("D:\\Arch\\Hans 123456\\notes.odt", Converted) == Reported(Some(Unrecognized("odt")))
  {
    var p := "D:\\Arch\\Hans 123456\\notes.odt";
    GetFormatSplitsAtLastDot(p, 25);
    assert p[26..] == "odt";
    OdtHasNoConverter();
  }

  lemma OdtHasNoConverter()
    ensures Lower("odt") == "odt" && "odt" !in Converters && IsNameLike("odt")
  {
    assert IsNameChar('o') && IsNameChar('d') && IsNameChar('t');
  }

  /** A path with no dot after its first character has no format, and `file_to_pdf` raises. */
  lemma NoDotRaises()
    ensures FileToPdf("D:\\Arch\\scan", Converted) == NoFormat
  {
    GetFormatNone("D:\\Arch\\scan");
  }
}
