/** index_resumes: the names of a directory listing are visited in listing
    order; every name ending in ".pdf" (case-sensitive) has its text
    extracted and one (filename, text) record added to the index writer's
    pending batch, which is then committed. */
module ResumeIndex {
  import opened PdfText

  /** One indexed document: the schema's two stored fields. */
  datatype Record = Record(filename: string, text: string)

  /** What os.listdir yields: the entry names, or an exception (for
      instance when the directory does not exist). */
  datatype Listing = ListError | Entries(names: seq<string>)

  /** filename.endswith(".pdf") */
  predicate IsPdfName(name: string) {
    |name| >= 4 && name[|name| - 4..] == ".pdf"
  }

  /** The listing entries that are kept, in listing order. */
  function PdfNames(names: seq<string>): (kept: seq<string>)
    ensures forall k :: 0 <= k < |kept| ==> IsPdfName(kept[k])
    ensures forall n :: n in kept <==> n in names && IsPdfName(n)
  {
    if names == [] then []
    else
      var last := names[|names| - 1];
      PdfNames(names[..|names| - 1]) + (if IsPdfName(last) then [last] else [])
  }

  /** The records the loop adds for a listing: one per kept name, in
      order, holding the extracted text of that file. */
  function Indexed(names: seq<string>, source: string -> PdfFile): (records: seq<Record>)
  {
    var kept := PdfNames(names);
    seq(|kept|, k requires 0 <= k < |kept| => Record(kept[k], ExtractedText(source(kept[k]))))
  }

  /** The kept names whose extraction showed an error message, in listing
      order: the file could not be opened or one of its pages failed. */
  function FailedExtractions(names: seq<string>, source: string -> PdfFile): (failed: seq<string>)
    ensures forall k :: 0 <= k < |failed| ==> IsPdfName(failed[k]) && !Complete(source(failed[k]))
    ensures forall n :: n in failed <==> n in names && IsPdfName(n) && !Complete(source(n))
  {
    if names == [] then []
    else
      var last := names[|names| - 1];
      FailedExtractions(names[..|names| - 1], source)
        + (if IsPdfName(last) && !Complete(source(last)) then [last] else [])
  }

  /** The filenames of a batch of records, in order. */
  function Filenames(records: seq<Record>): seq<string> {
    seq(|records|, k requires 0 <= k < |records| => records[k].filename)
  }

  /** The index writer: the batch of documents added since it was opened. */
  class Writer {
    var pending: seq<Record>

    constructor ()
      ensures pending == []
    {
      pending := [];
    }

    /** writer.add_document(filename=..., text=...) */
    method AddDocument(filename: string, text: string)
      modifies this
      ensures pending == old(pending) + [Record(filename, text)]
    {
      pending := pending + [Record(filename, text)];
    }
  }

  /** The for loop of index_resumes over the listed names: `added` is the
      writer's pending batch at the end, and `failed` lists the files for
      which extract_text_from_pdf showed an error message. */
  method IndexEntries(names: seq<string>, source: string -> PdfFile)
    returns (added: seq<Record>, failed: seq<string>)
    ensures added == Indexed(names, source)
    ensures failed == FailedExtractions(names, source)
  {
    var writer := new Writer();
    failed := [];
    var i := 0;
    while i < |names|
      invariant i <= |names|
      invariant writer.pending == Indexed(names[..i], source)
      invariant failed == FailedExtractions(names[..i], source)
    {
      var filename := names[i];
      IndexStep(names, i, source);
      if IsPdfName(filename) {
        var text, reported := ExtractText(source(filename));
        if reported {
          failed := failed + [filename];
        }
        writer.AddDocument(filename, text);
      }
      i := i + 1;
    }
    assert names[..|names|] == names;
    added := writer.pending;
  }

  /** index_resumes. `source` stands for opening a listed file. `added` is
      the batch the writer commits, `failed` lists the files for which
      extract_text_from_pdf showed an error message, and `listFailed` says
      whether the outer handler showed its message; a listing failure
      commits nothing. */
  method IndexResumes(listing: Listing, source: string -> PdfFile)
    returns (added: seq<Record>, failed: seq<string>, listFailed: bool)
    ensures listing.ListError? ==> added == [] && failed == [] && listFailed
    ensures listing.Entries? ==>
      added == Indexed(listing.names, source) &&
      failed == FailedExtractions(listing.names, source) &&
      !listFailed
  {
    match listing
    case ListError =>
      added, failed, listFailed := [], [], true;
    case Entries(names) =>
      added, failed := IndexEntries(names, source);
      listFailed := false;
  }

  /** One more listing entry adds at most one record and one failure. */
  lemma IndexStep(names: seq<string>, i: nat, source: string -> PdfFile)
    requires i < |names|
    ensures var x := names[i];
      Indexed(names[..i + 1], source) == Indexed(names[..i], source)
        + (if IsPdfName(x) then [Record(x, ExtractedText(source(x)))] else []) &&
      FailedExtractions(names[..i + 1], source) == FailedExtractions(names[..i], source)
        + (if IsPdfName(x) && !Complete(source(x)) then [x] else [])
  {
    assert names[..i + 1][..i] == names[..i];
  }

  /** The filter distributes over concatenation of listings, so it keeps
      the listing order. */
  lemma {:induction false} PdfNamesAppend(a: seq<string>, b: seq<string>)
    ensures PdfNames(a + b) == PdfNames(a) + PdfNames(b)
    decreases |b|
  {
    if b == [] {
      assert a + b == a;
    } else {
      var c := b[..|b| - 1];
      assert (a + b)[..|a + b| - 1] == a + c;
      PdfNamesAppend(a, c);
    }
  }

  /** Every name ending in ".pdf" is kept as often as it is listed, and
      every other name (".PDF" included) is dropped. */
  lemma {:induction false} PdfNamesCount(names: seq<string>, n: string)
    ensures multiset(PdfNames(names))[n] == if IsPdfName(n) then multiset(names)[n] else 0
  {
    if names != [] {
      var init, last := names[..|names| - 1], names[|names| - 1];
      var tail := if IsPdfName(last) then [last] else [];
      PdfNamesCount(init, n);
      assert names == init + [last];
      assert multiset(names) == multiset(init) + multiset{last};
      assert multiset(PdfNames(names)) == multiset(PdfNames(init)) + multiset(tail);
    }
  }

  /** A listing without repeated names gives each kept name once. */
  lemma PdfNamesOnce(names: seq<string>, n: string)
    requires multiset(names)[n] <= 1
    ensures multiset(PdfNames(names))[n] <= 1
  {
    PdfNamesCount(names, n);
  }

  /** Indexing two listings one after the other gives the records of the
      first followed by those of the second. */
  lemma IndexedAppend(a: seq<string>, b: seq<string>, source: string -> PdfFile)
    ensures Indexed(a + b, source) == Indexed(a, source) + Indexed(b, source)
  {
    PdfNamesAppend(a, b);
  }

  /** A name ending in ".pdf" has as many records as it has listing
      entries, and any other name has none. */
  lemma IndexedFilenameCount(names: seq<string>, source: string -> PdfFile, n: string)
    ensures multiset(Filenames(Indexed(names, source)))[n] ==
      if IsPdfName(n) then multiset(names)[n] else 0
  {
    assert Filenames(Indexed(names, source)) == PdfNames(names);
    PdfNamesCount(names, n);
  }

  /** A file whose extraction failed is not skipped: it is indexed with
      the text read before the failure. */
  lemma FailedStillIndexed(names: seq<string>, source: string -> PdfFile, n: string)
    requires n in FailedExtractions(names, source)
    ensures Record(n, ExtractedText(source(n))) in Indexed(names, source)
  {
    var kept := PdfNames(names);
    var k :| 0 <= k < |kept| && kept[k] == n;
    assert Indexed(names, source)[k] == Record(n, ExtractedText(source(n)));
  }

  lemma CaseSensitiveExample()
    ensures PdfNames(["a.pdf", "b.PDF", "c.txt"]) == ["a.pdf"]
  {
    assert ["a.pdf", "b.PDF", "c.txt"][..2] == ["a.pdf", "b.PDF"];
    assert ["a.pdf", "b.PDF"][..1] == ["a.pdf"];
    assert ["a.pdf"][..0] == [];
  }
}
