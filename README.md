# HR résumé search: keyword translation, indexing loop and hash check

This project models the original logic of the HR résumé search application
(`app.py`). Everything else in that file goes to a web UI framework, a
full-text search library, a PDF reader, SQLite and hashlib. The model covers
four pieces:

- **Keyword-to-query translation** (`search_resumes`). Commas in the query
  text become spaces. The text is split on whitespace. Each token is
  stripped and gets a trailing `*` wildcard. The keywords are joined with
  `" OR "` into the string given to the query parser. Modules `Split`
  (Python's argument-less `str.split()`, stated over a separator predicate,
  and `str.strip()`, which uses whitespace) and `SearchQuery`.
- **Text extraction** (`extract_text_from_pdf`). Page texts are appended one
  page at a time. An exception, whether on opening or on a page, is reported
  and stops the loop. The text built so far is returned. Module `PdfText`:
  a PDF is an abstract sequence of page outcomes, and the loop is a method
  proved against the function `ExtractedText`.
- **Indexing loop** (`index_resumes`). The directory listing is walked in
  order. Names ending in `.pdf` (case-sensitive) are kept. One
  `(filename, text)` record per kept name is added to the writer's pending
  batch. Module `ResumeIndex`: the writer is a class whose `pending`
  sequence grows in place, and the loop is a method proved against the
  function `Indexed`.
- **Hash check** (`check_hashes`) and the argument that the login path passes
  to `login_user`. Module `Credentials`: `make_hashes` is a function
  parameter, so it stays uninterpreted.

Python's `str.isspace()` code points stand in for "whitespace" (`Split.IsSpace`).

Three behaviours one might expect differ in the code; the model follows the code:

- The code does not lower-case keywords. Case handling belongs to the search
  library's analyzer, which is not modelled.
- A file whose extraction fails is not skipped. It is still indexed, with the
  partial (possibly empty) text read before the failure (`FailedStillIndexed`).
- Extraction never returns an error value. It returns partial text and shows
  an error message (`ExtractText`'s `reported`).

## Model

| member | source | states |
|---|---|---|
| Split.Runs | app.py:77 | every token `str.split()` yields is non-empty and holds no whitespace |
| Split.RunsOfInterleave | app.py:77 | any layout of words between separator runs of any length (empty gaps allowed only at the ends) splits back into exactly those words |
| Split.SeparatorRunsLayout | app.py:77 | every string is the layout of its own tokens between its separator runs, so the tokens are its maximal runs of non-separators |
| Split.SeparatorRunsGaps | app.py:77 | those separator runs are all separators, and the inner ones are non-empty |
| Split.RunsEmpty | app.py:77 | the split is empty exactly when the string consists only of separators (the empty string included) |
| Split.Strip | app.py:77 | `str.strip()` returns a slice of its input with only whitespace cut off on either side, and no whitespace left at either end; it returns its input unchanged exactly when the input has none there |
| Split.StripWord | app.py:77 | stripping a non-empty word without whitespace changes nothing |
| SearchQuery.ReplaceCommas | app.py:77 | `replace(',', ' ')` keeps the length, turns every comma into a space and leaves every other character alone |
| SearchQuery.StemsAreSeparatorRuns | app.py:77 | the tokens after comma replacement and split are exactly the maximal runs of characters that are neither a comma nor whitespace |
| SearchQuery.StripIsNoOp | app.py:77 | the `.strip()` applied to each token is a no-op |
| SearchQuery.KeywordsAreStarredStems | app.py:77 | the keyword list is those runs, in order, each followed by `*` |
| SearchQuery.KeywordShape | app.py:77 | every keyword ends with `*` after a non-empty stem with no comma and no whitespace |
| SearchQuery.SeparatorsInterchangeable | app.py:77 | any mix of commas and whitespace between, before or after the stems gives the same keyword list |
| SearchQuery.KeywordsOfLayout | app.py:77 | a query laid out as stems between separator gaps has the starred stems as its keywords |
| SearchQuery.CommaExample | app.py:77 | `"a,b"` gives `["a*", "b*"]` |
| SearchQuery.PaddedExample | app.py:77 | `" a , b "` gives the same `["a*", "b*"]` |
| SearchQuery.NoKeywords | app.py:77 | the keyword list is empty exactly when the query is made only of commas and whitespace |
| SearchQuery.EmptyQueryString | app.py:77-78 | the joined query string is empty exactly when the keyword list is |
| SearchQuery.SplitJoinOr | app.py:78 | joining space-free words with `" OR "` and splitting on `" OR "` gives them back, and the joined string holds n−1 separators |
| SearchQuery.QueryStringSplitsBack | app.py:77-78 | for n ≥ 1 keywords the query string splits on `" OR "` into the keyword list and contains n−1 occurrences of `" OR "` |
| SearchQuery.JoinOrExample | app.py:78 | `["python*", "rust*"]` joins to `"python* OR rust*"` |
| SearchQuery.QueryStringExample | app.py:77-78 | `"python, rust"` becomes the query `"python* OR rust*"` |
| PdfText.ReadablePrefix | app.py:42-45 | counts the pages read before the loop stops: all of them are read, and the next one, if any, failed |
| PdfText.ExtractText | app.py:38-47 | the loop returns `""` for a file that cannot be opened, and otherwise the texts of the pages before the first failure, in page order; the error is reported exactly when some exception occurred |
| PdfText.CompleteGivesAllPages | app.py:41-44 | with no failure the text is every page's text in page order |
| PdfText.FailureKeepsEarlierPages | app.py:40-47 | a failure on page k leaves the text of pages 0..k−1, whatever follows |
| PdfText.ExtractedTextGrows | app.py:41-47 | the text of a document is a prefix of the text of any document with more pages after it |
| PdfText.ConcatAppend | app.py:44 | accumulating page texts distributes over splitting the page sequence |
| ResumeIndex.PdfNames | app.py:61-62 | every kept name ends in `.pdf`, and a name is kept exactly when it is listed and ends in `.pdf` |
| ResumeIndex.PdfNamesAppend | app.py:61-62 | the filter distributes over concatenated listings, so listing order is kept |
| ResumeIndex.PdfNamesCount | app.py:61-62 | a `.pdf` name is kept as many times as it is listed, and any other name (`.PDF` included) never |
| ResumeIndex.PdfNamesOnce | app.py:61-62 | a listing without repeats gives each kept name once |
| ResumeIndex.FailedExtractions | app.py:40-64 | a name gets an extraction error message exactly when it is listed, ends in `.pdf`, and its file cannot be opened or has a failing page |
| ResumeIndex.IndexedAppend | app.py:61-65 | records are added in listing order: indexing two listings in turn gives the records of the first, then those of the second |
| ResumeIndex.IndexedFilenameCount | app.py:61-65 | a `.pdf` name has one record per listing entry, any other name none |
| ResumeIndex.FailedStillIndexed | app.py:40-65 | a file whose extraction failed is still indexed, with the text read before the failure |
| ResumeIndex.CaseSensitiveExample | app.py:62 | from `a.pdf`, `b.PDF`, `c.txt` only `a.pdf` is kept |
| ResumeIndex.Writer.constructor | app.py:60 | a new writer has an empty pending batch |
| ResumeIndex.Writer.AddDocument | app.py:65 | adding a document appends exactly one record to the pending batch |
| ResumeIndex.IndexEntries | app.py:60-65 | the loop over the listed names leaves in the writer's batch exactly `Indexed` of the names, and the files it reports are exactly `FailedExtractions` of the names |
| ResumeIndex.IndexResumes | app.py:58-68 | a listing failure is reported by the outer handler and nothing is committed; otherwise the committed batch is exactly `Indexed` of the listing, the files reported by the extractor are exactly `FailedExtractions` of the listing, and the outer handler reports nothing |
| Credentials.CheckHashes | app.py:19-22 | returns the stored hash exactly when the password's hash equals it, and `NoMatch` (Python's `False`) otherwise |
| Credentials.LoginPassword | app.py:133-134 | the login path always hands `login_user` the password's own hash |

## Left out

- Web UI: page layout, menus, session state, the 500-character preview and the message texts (app.py:83-148). Presentation only. Error messages appear only as flags and lists saying which messages were shown: `ExtractText`'s `reported`, and `IndexResumes`'s `failed` and `listFailed`.
- The search library: index schema, index creation, writer commit, searcher, query parsing, and what `*` and `OR` mean for matching and ranking (app.py:54-55, 66, 72-73, 78-79). It is a foreign library. The query is modelled only as the keyword list and the joined string. For the same reason the model does not say what the parser does with the empty string produced by input made only of commas and whitespace, which passes the non-empty check at app.py:110.
- PDF parsing (`fitz.open`, `load_page`, `get_text`). These are foreign calls, abstracted as `PdfFile` and `PageOutcome`. Which exceptions PyMuPDF raises, and when, is not modelled.
- SQLite table creation, insertion and lookup (app.py:10-11, 25-35). External store.
- SHA-256 (app.py:16). Left uninterpreted as the parameter `makeHashes`.
- `os.listdir`, `os.path.join`, `os.mkdir` and the module-level index (app.py:50-55, 61-63). File-system plumbing. The listing is the parameter `Listing`, and opening a listed file is the parameter `source`.
- ResumeIndex.IndexResumes: exceptions raised by `index.writer()`, `add_document` or `commit` are not modelled, because they come from the search library. Only a failing listing takes the `except` path at app.py:67-68. A failing `index.writer()` (app.py:60) would end the same way as `ListError`: nothing committed and the outer message shown.
