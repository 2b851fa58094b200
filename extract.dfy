/** extract_text_from_pdf: the text of a PDF is built up page by page; an
    exception (while opening the file or while reading a page) is reported
    and ends the loop, and whatever text was built so far is returned. */
module PdfText {

  /** What reading one page yields: its text, or an exception. */
  datatype PageOutcome = Read(text: string) | Failed

  /** A PDF as the extractor sees it: a file that cannot be opened, or an
      opened document with one outcome per page, in page order. */
  datatype PdfFile = Unopenable | Pages(pages: seq<PageOutcome>)

  /** The text a page contributes when it is read. */
  function TextOf(p: PageOutcome): string {
    match p
    case Read(t) => t
    case Failed => ""
  }

  /** The page texts concatenated in page order. */
  function Concat(pages: seq<PageOutcome>): string {
    if pages == [] then ""
    else Concat(pages[..|pages| - 1]) + TextOf(pages[|pages| - 1])
  }

  /** Number of pages read before the first failure. */
  function ReadablePrefix(pages: seq<PageOutcome>): (n: nat)
    ensures n <= |pages|
    ensures forall i :: 0 <= i < n ==> pages[i].Read?
    ensures n < |pages| ==> pages[n].Failed?
  {
    if pages == [] || pages[0].Failed? then 0 else 1 + ReadablePrefix(pages[1..])
  }

  /** Every page of an opened file is read without an exception. */
  predicate Complete(pdf: PdfFile) {
    pdf.Pages? && forall i :: 0 <= i < |pdf.pages| ==> pdf.pages[i].Read?
  }

  /** The text extract_text_from_pdf returns: "" if the file cannot be
      opened, otherwise the pages before the first failure, concatenated. */
  function ExtractedText(pdf: PdfFile): string {
    match pdf
    case Unopenable => ""
    case Pages(pages) => Concat(pages[..ReadablePrefix(pages)])
  }

  /** The extraction loop; `reported` says whether the error message was
      shown, which happens exactly when some exception was raised. */
  method ExtractText(pdf: PdfFile) returns (text: string, reported: bool)
    ensures text == ExtractedText(pdf)
    ensures reported <==> !Complete(pdf)
  {
    text := "";
    reported := false;
    match pdf
    case Unopenable =>
      reported := true;
    case Pages(pages) =>
      var i := 0;
      while i < |pages|
        invariant i <= ReadablePrefix(pages)
        invariant text == Concat(pages[..i])
      {
        match pages[i]
        case Failed =>
          reported := true;
          break;
        case Read(t) =>
          assert pages[..i + 1][..i] == pages[..i];
          text := text + t;
        i := i + 1;
      }
  }

  lemma {:induction false} ConcatAppend(a: seq<PageOutcome>, b: seq<PageOutcome>)
    ensures Concat(a + b) == Concat(a) + Concat(b)
    decreases |b|
  {
    if b == [] {
      assert a + b == a;
    } else {
      var c := b[..|b| - 1];
      assert (a + b)[..|a + b| - 1] == a + c;
      assert (a + b)[|a + b| - 1] == b[|b| - 1];
      ConcatAppend(a, c);
      assert Concat(a + b) == Concat(a + c) + TextOf(b[|b| - 1]);
    }
  }

  /** When every page is read, the result is all page texts in order. */
  lemma CompleteGivesAllPages(pdf: PdfFile)
    requires Complete(pdf)
    ensures ExtractedText(pdf) == Concat(pdf.pages)
  {
    assert pdf.pages[..|pdf.pages|] == pdf.pages;
  }

  /** A failure on page k leaves the text of pages 0..k-1 (partial text,
      not an error), whatever the later pages hold. */
  lemma FailureKeepsEarlierPages(read: seq<PageOutcome>, later: seq<PageOutcome>)
    requires forall i :: 0 <= i < |read| ==> read[i].Read?
    ensures ExtractedText(Pages(read + [Failed] + later)) == Concat(read)
  {
    var pages := read + [Failed] + later;
    assert pages == read + ([Failed] + later);
    ReadablePrefixStops(read, [Failed] + later);
    assert pages[..|read|] == read;
  }

  /** Pages that are all read, followed by a failure, are exactly the
      readable prefix. */
  lemma {:induction false} ReadablePrefixStops(read: seq<PageOutcome>, rest: seq<PageOutcome>)
    requires forall i :: 0 <= i < |read| ==> read[i].Read?
    requires rest != [] && rest[0].Failed?
    ensures ReadablePrefix(read + rest) == |read|
  {
    if read != [] {
      assert (read + rest)[1..] == read[1..] + rest;
      ReadablePrefixStops(read[1..], rest);
    } else {
      assert read + rest == rest;
    }
  }

  /** Reading more pages only extends the text: the text of a document is
      a prefix of the text of any document that continues it. */
  lemma {:induction false} ExtractedTextGrows(pages: seq<PageOutcome>, more: seq<PageOutcome>)
    ensures ExtractedText(Pages(pages)) <= ExtractedText(Pages(pages + more))
  {
    var all := pages + more;
    var n, m := ReadablePrefix(pages), ReadablePrefix(all);
    assert forall i :: 0 <= i < |pages| ==> all[i] == pages[i];
    assert n <= m;
    assert all[..m] == pages[..n] + all[n..m];
    ConcatAppend(pages[..n], all[n..m]);
  }
}
