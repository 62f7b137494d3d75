/** `load_pdf_text`: the text of every page, pages joined by a newline. The PDF
    reader itself is not modelled: a file is either missing or a list of pages,
    each with the text the reader extracted from it, or `None` when it found
    none. */
module Pdf {
  import opened Results
  import opened PyStr

  datatype PdfFile = Missing | Present(pages: seq<Option<string>>)

  /** `page.extract_text() or ""`. */
  function PageText(page: Option<string>): string {
    match page
    case None => ""
    case Some(t) => t
  }

  function PageTexts(pages: seq<Option<string>>): (ts: seq<string>)
    ensures |ts| == |pages|
  {
    seq(|pages|, i requires 0 <= i < |pages| => PageText(pages[i]))
  }

  /** What `load_pdf_text` returns or raises. */
  function PdfText(pdf: PdfFile): Result<string, Error> {
    match pdf
    case Missing => Failure(FileNotFound)
    case Present(pages) => Success(Join(PageTexts(pages), "\n"))
  }

  /** The page loop of `load_pdf_text`. */
  method LoadPdfText(pdf: PdfFile) returns (r: Result<string, Error>)
    ensures r == PdfText(pdf)
  {
    if pdf.Missing? {
      return Failure(FileNotFound);
    }
    var pagesText: seq<string> := [];
    for i := 0 to |pdf.pages|
      invariant |pagesText| == i
      invariant forall j :: 0 <= j < i ==> pagesText[j] == PageText(pdf.pages[j])
    {
      var text := PageText(pdf.pages[i]);
      pagesText := pagesText + [text];
    }
    assert pagesText == PageTexts(pdf.pages);
    r := Success(Join(pagesText, "\n"));
  }

  /** A present PDF yields its pages' texts in order, one newline between
      consecutive pages, and one character per newline beyond the pages' own
      text. */
  lemma PdfTextLayout(pages: seq<Option<string>>)
    requires |pages| > 0
    ensures var text, ts := PdfText(Present(pages)).value, PageTexts(pages);
      && |text| == TotalLength(ts) + |pages| - 1
      && (forall i :: 0 <= i < |ts| ==> PartPlaced(text, ts, "\n", i))
      && (forall i :: 0 < i < |ts| ==> SeparatorBefore(text, ts, "\n", i))
  {
    JoinLayout(PageTexts(pages), "\n");
    JoinLength(PageTexts(pages), "\n");
  }

  /** A PDF without pages yields the empty text; a missing one fails. */
  lemma PdfTextEdges(pdf: PdfFile)
    ensures PdfText(pdf).Failure? <==> pdf.Missing?
    ensures pdf == Present([]) ==> PdfText(pdf) == Success("")
  {
  }
}
