/**
 * The document viewer's pure decisions: the file extension it works from,
 * which preview it renders, when it offers zoom controls and how the zoom
 * buttons move the zoom level.
 */
module Viewer {
  import opened Wrappers
  import opened Sequences

  const DefaultFileName: string := "document"

  /** ASCII lower case of one character. */
  function LowerChar(c: char): (d: char)
    ensures 'A' <= c <= 'Z' ==> d as int == c as int + 32
    ensures !('A' <= c <= 'Z') ==> d == c
  {
    if 'A' <= c <= 'Z' then (c as int + 32) as char else c
  }

  /** `toLowerCase()`, on ASCII letters. */
  function Lower(s: string): (r: string)
    ensures |r| == |s|
    ensures forall i :: 0 <= i < |s| ==> r[i] == LowerChar(s[i])
  {
    if |s| == 0 then [] else [LowerChar(s[0])] + Lower(s[1..])
  }

  /** Lower case maps a string without dots to one without dots. */
  lemma LowerKeepsDotFree(s: string)
    requires '.' !in s
    ensures '.' !in Lower(s)
  {
  }

  /** `s.split(".").pop()`: the text after the last dot, all of s when it has none. */
  function AfterLastDot(s: string): (r: string)
    ensures '.' !in r
    ensures |r| <= |s| && s[|s| - |r|..] == r
    ensures |r| < |s| ==> s[|s| - |r| - 1] == '.'
  {
    if |s| == 0 then []
    else if s[|s| - 1] == '.' then []
    else
      var init := s[..|s| - 1];
      var r := AfterLastDot(init);
      assert init[|init| - |r|..] == r;
      r + [s[|s| - 1]]
  }

  /** The text after a final dot is what the dot-split returns. */
  lemma {:induction false} AfterLastDotOfSuffix(stem: string, ext: string)
    requires '.' !in ext
    ensures AfterLastDot(stem + "." + ext) == ext
    decreases |ext|
  {
    var s := stem + "." + ext;
    if ext == [] {
      assert s[|s| - 1] == '.';
    } else {
      var init := ext[..|ext| - 1];
      assert s[..|s| - 1] == stem + "." + init;
      assert s[|s| - 1] == ext[|ext| - 1];
      AfterLastDotOfSuffix(stem, init);
      assert init + [ext[|ext| - 1]] == ext;
    }
  }

  /** getFileExtension; `fileName` is None when the prop is not passed, and
      then defaults to "document". */
  function FileExtension(fileName: Option<string>, fileType: Option<string>): (ext: string)
    ensures fileType.Some? && fileType.value != "" ==> ext == Lower(fileType.value)
    ensures (fileType.None? || fileType.value == "") && fileName == Some("") ==> ext == ""
    ensures (fileType.None? || fileType.value == "") ==> '.' !in ext
    ensures (fileType.None? || fileType.value == "") && fileName.Some? ==> ext == Lower(AfterLastDot(fileName.value))
  {
    var name := fileName.GetOr(DefaultFileName);
    if fileType.Some? && fileType.value != "" then Lower(fileType.value)
    else if name != "" then
      var ext := AfterLastDot(name);
      LowerKeepsDotFree(ext);
      Lower(ext)
    else ""
  }

  /** A name without a dot is its own last dot-separated part. */
  lemma {:induction false} AfterLastDotOfDotFree(s: string)
    requires '.' !in s
    ensures AfterLastDot(s) == s
  {
    assert forall k :: 0 <= k < |s| ==> s[k] != '.';
  }

  /** Lower case leaves a string without upper-case letters unchanged. */
  lemma {:induction false} LowerOfNoUpper(s: string)
    requires forall i :: 0 <= i < |s| ==> !('A' <= s[i] <= 'Z')
    ensures Lower(s) == s
  {
  }

  /** Without a type, a name without a dot gives the whole name, lower-cased. */
  lemma {:induction false} PlainNameExtension(name: string, fileType: Option<string>)
    requires fileType.None? || fileType.value == ""
    requires '.' !in name
    ensures FileExtension(Some(name), fileType) == Lower(name)
  {
    AfterLastDotOfDotFree(name);
  }

  /** The default name is a word of lower-case letters. */
  lemma DefaultNameIsLowerWord()
    ensures DefaultFileName != [] && forall i :: 0 <= i < |DefaultFileName| ==> 'a' <= DefaultFileName[i] <= 'z'
  {
    var name := DefaultFileName;
    forall i | 0 <= i < |name| ensures 'a' <= name[i] <= 'z' {
      if i < 4 {
        assert name[i] in "docu" by { assert name[..4] == "docu"; }
      } else {
        assert name[i] in "ment" by { assert name[4..] == "ment"; }
      }
    }
  }

  /** Without a name or a type, the extension is the default name "document". */
  lemma DefaultNameExtension(fileType: Option<string>)
    requires fileType.None? || fileType.value == ""
    ensures FileExtension(None, fileType) == DefaultFileName
  {
    DefaultNameIsLowerWord();
    var name := DefaultFileName;
    assert '.' !in name by {
      forall i | 0 <= i < |name| ensures name[i] != '.' { }
    }
    PlainNameExtension(name, fileType);
    LowerOfNoUpper(name);
  }

  /** Without a file type, "report.v2.PDF" gives "pdf": the lower-cased text after the last dot. */
  lemma ExtensionFromName(stem: string, ext: string, fileType: Option<string>)
    requires fileType.None? || fileType.value == ""
    requires '.' !in ext
    ensures FileExtension(Some(stem + "." + ext), fileType) == Lower(ext)
  {
    AfterLastDotOfSuffix(stem, ext);
  }

  /** `fileType?.includes(needle)`. */
  predicate Mentions(fileType: Option<string>, needle: string) {
    fileType.Some? && Contains(fileType.value, needle)
  }

  const ImageExtensions: set<string> := {"jpg", "jpeg", "png", "gif", "bmp", "webp", "svg"}
  const TextExtensions: set<string> := {"txt", "js", "jsx", "ts", "tsx", "json", "xml", "html", "css", "md"}
  const WordExtensions: set<string> := {"doc", "docx"}
  const SheetExtensions: set<string> := {"xls", "xlsx", "csv"}
  /** The image extensions that get zoom controls: svg is not among them. */
  const ZoomableImageExtensions: set<string> := {"jpg", "jpeg", "png", "gif", "bmp", "webp"}

  datatype Preview = PdfFrame | ImagePreview | TextFrame | WordCard | SpreadsheetCard | DownloadCard

  /** The tests of renderPreview, one per preview, each on its own. */
  predicate PdfRule(ext: string, fileType: Option<string>) {
    ext == "pdf" || Mentions(fileType, "pdf")
  }

  predicate ImageRule(ext: string, fileType: Option<string>) {
    ext in ImageExtensions || Mentions(fileType, "image")
  }

  predicate WordRule(ext: string, fileType: Option<string>) {
    ext in WordExtensions || Mentions(fileType, "word") || Mentions(fileType, "msword")
  }

  predicate SheetRule(ext: string, fileType: Option<string>) {
    ext in SheetExtensions || Mentions(fileType, "excel") || Mentions(fileType, "spreadsheet")
  }

  /** renderPreview: the first rule that fires, in the order pdf, image,
      text, Word, spreadsheet, anything else. */
  function PreviewFor(ext: string, fileType: Option<string>): (p: Preview)
    ensures p == PdfFrame <==> PdfRule(ext, fileType)
    ensures p == ImagePreview <==> !PdfRule(ext, fileType) && ImageRule(ext, fileType)
    ensures p == TextFrame <==>
      !PdfRule(ext, fileType) && !ImageRule(ext, fileType) && ext in TextExtensions
    ensures p == WordCard <==>
      !PdfRule(ext, fileType) && !ImageRule(ext, fileType) && ext !in TextExtensions
      && WordRule(ext, fileType)
    ensures p == SpreadsheetCard <==>
      !PdfRule(ext, fileType) && !ImageRule(ext, fileType) && ext !in TextExtensions
      && !WordRule(ext, fileType) && SheetRule(ext, fileType)
    ensures p == DownloadCard <==>
      !PdfRule(ext, fileType) && !ImageRule(ext, fileType) && ext !in TextExtensions
      && !WordRule(ext, fileType) && !SheetRule(ext, fileType)
    ensures p == DownloadCard ==> ext !in ImageExtensions + TextExtensions + WordExtensions + SheetExtensions
  {
    if PdfRule(ext, fileType) then PdfFrame
    else if ImageRule(ext, fileType) then ImagePreview
    else if ext in TextExtensions then TextFrame
    else if WordRule(ext, fileType) then WordCard
    else if SheetRule(ext, fileType) then SpreadsheetCard
    else DownloadCard
  }

  /** The zoom bar is shown for "pdf" and the raster image extensions:
      every image extension but svg. Whatever the file type, a file with a
      zoom bar is previewed as a pdf or an image. */
  function ShowsZoomControls(ext: string): (shown: bool)
    ensures shown ==> ext == "pdf" || ext in ImageExtensions
    ensures ext in ImageExtensions && ext != "svg" ==> shown
    ensures ext == "pdf" ==> shown
    ensures ext == "svg" ==> !shown
    ensures shown ==> forall ft :: PreviewFor(ext, ft) == PdfFrame || PreviewFor(ext, ft) == ImagePreview
  {
    ext == "pdf" || ext in ZoomableImageExtensions
  }

  /** An svg image is previewed but cannot be zoomed. */
  lemma SvgHasNoZoom(stem: string)
    ensures PreviewFor(FileExtension(Some(stem + ".svg"), None), None) == ImagePreview
    ensures !ShowsZoomControls(FileExtension(Some(stem + ".svg"), None))
  {
    assert stem + ".svg" == stem + "." + "svg";
    ExtensionFromName(stem, "svg", None);
    LowerOfNoUpper("svg");
    SvgPreview();
  }

  /** The extension "svg" is an image extension without zoom. */
  lemma SvgPreview()
    ensures PreviewFor("svg", None) == ImagePreview
    ensures !ShowsZoomControls("svg")
  {
    assert "svg" in ImageExtensions;
  }

  /** A file whose type is a MIME type such as "application/pdf" gets the
      pdf preview but no zoom bar, because the extension is then the whole
      lower-cased type rather than "pdf". */
  lemma MimeTypedPdfHasNoZoom(name: Option<string>, mime: string)
    requires Contains(mime, "pdf") && |mime| > 4
    ensures PreviewFor(FileExtension(name, Some(mime)), Some(mime)) == PdfFrame
    ensures !ShowsZoomControls(FileExtension(name, Some(mime)))
  {
  }

  // ---------------------------------------------------------------- zoom

  const MinZoom: int := 50
  const MaxZoom: int := 200
  const ZoomStep: int := 25
  const InitialZoom: int := 100

  datatype ZoomButton = ZoomOutButton | ZoomInButton | ResetButton

  /** A zoom level the buttons can reach: a multiple of the step within bounds. */
  predicate ValidZoom(z: int) {
    MinZoom <= z <= MaxZoom && z % ZoomStep == 0
  }

  /** One click: `max(50, z - 25)`, `min(200, z + 25)` or back to 100. */
  function Click(z: int, b: ZoomButton): (z': int)
    ensures b == ZoomOutButton ==> z' <= z || z' == MinZoom
    ensures b == ZoomInButton ==> z' >= z || z' == MaxZoom
    ensures b == ZoomOutButton ==> z' >= MinZoom && z' >= z - ZoomStep && (z' == MinZoom || z' == z - ZoomStep)
    ensures b == ZoomInButton ==> z' <= MaxZoom && z' <= z + ZoomStep && (z' == MaxZoom || z' == z + ZoomStep)
    ensures b == ResetButton ==> z' == InitialZoom
    ensures ValidZoom(z) ==> ValidZoom(z')
  {
    match b
    case ZoomOutButton => if z - ZoomStep > MinZoom then z - ZoomStep else MinZoom
    case ZoomInButton => if z + ZoomStep < MaxZoom then z + ZoomStep else MaxZoom
    case ResetButton => InitialZoom
  }

  /** The zoom level after a sequence of clicks. */
  function AfterClicks(z: int, clicks: seq<ZoomButton>): int
    decreases |clicks|
  {
    if |clicks| == 0 then z else AfterClicks(Click(z, clicks[0]), clicks[1..])
  }

  /** From the initial 100, any sequence of clicks keeps the zoom between 50
      and 200 in steps of 25. */
  lemma {:induction false} ZoomStaysValid(z: int, clicks: seq<ZoomButton>)
    requires ValidZoom(z)
    ensures ValidZoom(AfterClicks(z, clicks))
    decreases |clicks|
  {
    if |clicks| > 0 {
      ZoomStaysValid(Click(z, clicks[0]), clicks[1..]);
    }
  }

  /** Zooming in then out (or out then in) from a level strictly inside the
      bounds returns to that level. */
  lemma ZoomInOutInverse(z: int)
    requires ValidZoom(z) && MinZoom < z < MaxZoom
    ensures Click(Click(z, ZoomInButton), ZoomOutButton) == z
    ensures Click(Click(z, ZoomOutButton), ZoomInButton) == z
  {
  }
}
