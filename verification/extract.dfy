/** Text extraction for `analyze` (backend/main.py): PDF documents go through
    an optional PDF library page by page, everything else is decoded as
    UTF-8 ignoring errors, and an empty result falls back to decoding the
    first 500 bytes. */
module Extraction {
  import opened Wrappers
  import opened Text
  import opened Utf8

  /** What the PDF library makes of a document: it fails to open it, or it
      yields its pages, each with its text or nothing (the page's
      `extract_text()` raised or returned `None`). */
  datatype PdfRead = Unreadable | Pages(texts: seq<Option<string>>)

  /** The optional PDF library: absent, or a reader from bytes to pages. */
  datatype PdfSupport = NoPdfLibrary | PdfLibrary(read: seq<byte> -> PdfRead)

  /** The ASCII bytes `%PDF`. */
  const PdfMagic: seq<byte> := [0x25, 0x50, 0x44, 0x46]

  /** Length of the preview decoded when extraction comes back empty. */
  const PreviewLength: nat := 500

  /** `data[:4] == b"%PDF"`. */
  predicate IsPdf(data: seq<byte>) {
    |data| >= |PdfMagic| && data[..|PdfMagic|] == PdfMagic
  }

  /** The text of every page, `""` for a page that has none. */
  function PageTexts(pages: seq<Option<string>>): (r: seq<string>)
    ensures |r| == |pages|
    ensures forall i :: 0 <= i < |pages| ==> r[i] == pages[i].GetOr("")
  {
    seq(|pages|, i requires 0 <= i < |pages| => pages[i].GetOr(""))
  }

  /** `extract_text_from_pdf`: the page texts joined by newlines, or `""`
      when the library is missing or cannot read the document. */
  function ExtractTextFromPdf(pdf: PdfSupport, data: seq<byte>): (r: string)
  {
    match pdf
    case NoPdfLibrary => ""
    case PdfLibrary(read) =>
      match read(data)
      case Unreadable => ""
      case Pages(pages) => Join(PageTexts(pages), "\n")
  }

  /** The PDF path yields nothing exactly when there is no library, the
      library cannot read the document, or the document has at most one page
      and no page text: two or more pages always leave a newline behind. */
  lemma PdfTextEmptyIff(pdf: PdfSupport, data: seq<byte>)
    ensures ExtractTextFromPdf(pdf, data) == "" <==>
      || pdf.NoPdfLibrary?
      || pdf.read(data).Unreadable?
      || (|pdf.read(data).texts| <= 1 &&
          forall i :: 0 <= i < |pdf.read(data).texts| ==> pdf.read(data).texts[i].GetOr("") == "")
  {
    if pdf.PdfLibrary? && pdf.read(data).Pages? {
      var pages := pdf.read(data).texts;
      if |pages| > 0 {
        JoinLength(PageTexts(pages), "\n");
        if |pages| == 1 {
          assert TotalLength(PageTexts(pages)) == |pages[0].GetOr("")|;
        }
      }
    }
  }

  /** The PDF text holds each page's text, in page order, one newline between
      pages: when no page text holds a newline, splitting the joined text on
      newlines gives the pages back. */
  lemma PdfPagesRoundTrip(pages: seq<Option<string>>)
    requires |pages| > 0
    requires forall i :: 0 <= i < |pages| ==> '\n' !in pages[i].GetOr("")
    ensures SplitOn(Join(PageTexts(pages), "\n"), '\n') == PageTexts(pages)
  {
    SplitOnJoin(PageTexts(pages), '\n');
  }

  /** The length of the PDF text: all page texts plus one newline between
      neighbouring pages. */
  lemma PdfTextLength(pages: seq<Option<string>>)
    requires |pages| > 0
    ensures |Join(PageTexts(pages), "\n")| == TotalLength(PageTexts(pages)) + |pages| - 1
  {
    JoinLength(PageTexts(pages), "\n");
  }

  /** The format dispatch of `analyze`; the generic path is `data.decode("utf-8",
      errors="ignore")`, which cannot raise. */
  function ExtractText(pdf: PdfSupport, data: seq<byte>): string
  {
    if IsPdf(data) then ExtractTextFromPdf(pdf, data) else Decode(data)
  }

  /** `data[:500]`. */
  function Preview(data: seq<byte>): (r: seq<byte>)
    ensures r <= data
    ensures |r| == if |data| < PreviewLength then |data| else PreviewLength
  {
    if |data| < PreviewLength then data else data[..PreviewLength]
  }

  /** The text `analyze` scores: the extracted text, or the decoded preview
      when extraction produced nothing. */
  function DocumentText(pdf: PdfSupport, data: seq<byte>): (r: string)
  {
    var t := ExtractText(pdf, data);
    if t == "" then Decode(Preview(data)) else t
  }

  /** A PDF always yields some text: the extracted text if any, else the
      preview, which starts with the `%` of the magic header. */
  lemma PdfTextNonEmpty(pdf: PdfSupport, data: seq<byte>)
    requires IsPdf(data)
    ensures DocumentText(pdf, data) != ""
    ensures ExtractTextFromPdf(pdf, data) == "" ==> DocumentText(pdf, data)[0] == '%'
  {
    var p := Preview(data);
    assert p[0] == data[..|PdfMagic|][0] == 0x25;
    AsciiHead(p);
  }

  /** For anything but a PDF the fallback never changes the text: the preview
      decodes to a prefix of the full decoding, so it is empty whenever that is. */
  lemma NonPdfTextIsDecoded(pdf: PdfSupport, data: seq<byte>)
    requires !IsPdf(data)
    ensures DocumentText(pdf, data) == Decode(data)
  {
    if Decode(data) == "" {
      DecodePrefix(data, |Preview(data)|);
      assert Preview(data) == data[..|Preview(data)|];
    }
  }

  /** Non-empty bytes need not give text: a lone `0xFF` byte decodes, and so
      falls back, to the empty string. */
  lemma NonEmptyBytesEmptyText(pdf: PdfSupport)
    ensures DocumentText(pdf, [0xFF]) == ""
  {
    assert !IsPdf([0xFF]);
    NonPdfTextIsDecoded(pdf, [0xFF]);
    InvalidByteVanishes();
  }
}
