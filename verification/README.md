# Docu-Chat PDF ingestion, modelled in Dafny

Docu-Chat is a small FastAPI service for asking questions about a document.
The only part with logic of its own is the ingestion path in
`services/pdf_service.py`. This project models that path:

- **File-name gate.** An upload is taken only if its name, lower-cased, ends
  in `.pdf`. Otherwise the request is refused with a 400 before anything else
  happens.
- **Text extraction** (`extract_text_from_pdf`). The parser opens the stored
  upload and the code walks its pages in order. A page whose text is empty or
  missing is skipped; every other page's text is appended, followed by a
  newline. The result is stripped. Any failure while opening or reading
  becomes a 400 whose detail starts "Error extracting text from PDF: ".
- **Orchestration** (`process_pdf_file`). The upload is parked in a temporary
  file. Then the text is extracted and cleaned. Cleaned text that is empty or
  strips to fewer than 10 characters is refused with a 400 "No readable text
  found in PDF". Otherwise the text is chunked with size 500 and overlap 50,
  and the request returns the cleaned text and the number of chunks. An
  `HTTPException` raised inside the `try` passes unchanged. Any other
  exception becomes a 500 whose detail starts "Error processing PDF: ". The
  `finally` removes the temporary file; an exception raised by that removal
  replaces the request's outcome.

Files:

- `pystring.dfy`, module `PyString`: the Python `str` built-ins the code relies
  on (`isspace`, `strip`, `lower`, `endswith`, `join`) and the facts about
  `strip` the proofs need.
- `pdf_service.dfy`, module `PdfService`: the extraction loop
  (`ExtractTextFromPdf`), the body of the `try` (`ProcessStoredPdf`), the whole
  request (`ProcessPdfFile`), the temporary file (class `TempFile`), and the
  functional reference for a request (`Ingest`) with the lemmas about it.

Foreign code is a parameter of the model:

- The PDF parser is `open: seq<byte> -> Document`. A `Document` is either
  `Unreadable(reason)` or a list of pages, and each page is `Text(s)`,
  `NoText` (the parser's `None`) or `Fails(reason)`.
- The text cleaner is `clean: string -> Result<string>`.
- The chunker is `split: (string, nat, nat) -> Result<seq<string>>`.
- How the file system behaves is a `StoreFault`: it works, the temporary file
  cannot be created, it is created but the write fails, or it is stored but
  removing it fails.

Every foreign call may return or raise. Exceptions are
`HttpException(status, detail)` or `OtherException(message)`, the two kinds
the code tells apart.

A ghost trace of `Step`s records what a request did: created the temporary
file, wrote it, extracted, called the cleaner (with its input), called the
chunker (with its arguments), unlinked the file. The lemmas state their
ordering and cleanup properties on this trace.

Points about the code worth knowing when reading the model:

- The docstring of `process_pdf_file` promises a document ID
  (services/pdf_service.py:21-30). The code returns the cleaned text.
- The extraction loop appends a newline after each page that has text; pages
  without text add nothing. Stripped, the accumulator equals the newline-join
  of the non-empty page texts (`ExtractedIsStrippedJoin`).
- Every failure while opening or reading the PDF becomes a 400
  `HTTPException` whose detail starts "Error extracting text from PDF: ".
- The temporary file is not removed when writing the upload into it fails
  (see Findings), nor when the removal itself raises.
- The cleaner and the chunker live in `utils/text_utils.py`, which is not part
  of this model; nothing about what they compute is assumed.

## Model

| member | source | states |
|---|---|---|
| `PyString.IsSpace` | services/pdf_service.py:16 | Python's `str.isspace()` for one character: the ASCII separators and the Unicode spaces Python counts. Used by `LStrip`, `RStrip`, `Strip`; no contract of its own. |
| `PyString.StripShape` | services/pdf_service.py:16 | Characterises `Strip` (`str.strip()`, defined as `RStrip(LStrip(s))`): `strip()` only shortens the text. Its result neither starts nor ends with whitespace. It is empty exactly when the input is all whitespace. |
| `PyString.LStripShape` | services/pdf_service.py:16 | Characterises `LStrip` (`str.lstrip()`): the left strip is a suffix of the input. It removes only whitespace and stops at the first character that is not whitespace. |
| `PyString.RStripShape` | services/pdf_service.py:16 | Characterises `RStrip` (`str.rstrip()`): the right strip is a prefix of the input. It removes only whitespace and stops at the last character that is not whitespace. |
| `PyString.LStripConcat` | services/pdf_service.py:16 | Left-stripping `s + t` gives the left strip of `s` followed by `t`. If `s` is all whitespace, it gives the left strip of `t`. |
| `PyString.StripIgnoresTrailingSpace` | services/pdf_service.py:15-16 | Appending whitespace, such as the newline after the last page, never changes the stripped result. |
| `PyString.RStripAppendSpace` | services/pdf_service.py:15-16 | Appending whitespace never changes the right strip. |
| `PyString.LowerShape` | services/pdf_service.py:32 | Characterises `Lower` (`str.lower()`, via `LowerChar`): lower-casing keeps the length and lower-cases each character in place. |
| `PdfService.PdfExtensionIgnoresCase` | services/pdf_service.py:32-33 | Characterises `AcceptedFilename` (`EndsWith(Lower(filename), ".pdf")`, with `EndsWith` as `str.endswith`): The name is accepted exactly when its last four characters are `.`, `p`/`P`, `d`/`D`, `f`/`F`. |
| `PdfService.LowerCharHits` | services/pdf_service.py:32 | A character lower-cases to `.` or a lower-case letter exactly when it is that character or, for a letter, its capital. |
| `PdfService.ExtensionExamples` | services/pdf_service.py:32-33 | `A.PDF` is accepted and `notes.txt` is refused. |
| `PdfService.PageTextsMembers` | services/pdf_service.py:12-15 | `PageTexts` keeps the texts of the pages whose text is present and non-empty (`Kept`), in page order. A text is among them exactly when some kept page has it; order is fixed by `PageTextsStep`. |
| `PdfService.FirstFailure` | services/pdf_service.py:12-18 | There is no failure reason exactly when no page raises. |
| `PdfService.FirstFailureAt` | services/pdf_service.py:12-18 | If page `i` raises and no earlier page does, extraction fails with page `i`'s reason. |
| `PdfService.TextAfterIsAccumulated` | services/pdf_service.py:12-15 | After the loop has visited `i` pages, the accumulator holds the kept texts of those pages, in order, each followed by a newline. |
| `PdfService.PageTextsStep` | services/pdf_service.py:12-15 | Visiting one more page adds that page's text to the kept texts exactly when the text is present and non-empty. |
| `PdfService.AccumulatedStep` | services/pdf_service.py:15 | One more kept text adds that text and a newline to the end of the accumulator. |
| `PdfService.ExtractTextFromPdf` | services/pdf_service.py:7-18 | The reference is `ExtractionSpec`. The page loop returns the stripped accumulation of the non-empty page texts. It raises a 400 `Error extracting text from PDF: <reason>` when the PDF cannot be opened or a page raises. |
| `PdfService.AccumulatedIsJoinPlusNewline` | services/pdf_service.py:11-15 | For at least one kept text, the accumulator equals the newline-join of the kept texts plus one trailing newline. |
| `PdfService.ExtractedIsStrippedJoin` | services/pdf_service.py:11-16 | The extracted text equals the strip of the non-empty page texts joined with `"\n"` (`Join` is `str.join`); pages without text add no line. |
| `PdfService.AccumulatedLength` | services/pdf_service.py:15 | The accumulator's length is the sum of the page-text lengths plus one per page. |
| `PdfService.ExtractedTextShape` | services/pdf_service.py:15-16 | The extracted text has no surrounding whitespace. Its length is at most the total page-text length plus one newline per kept page. |
| `PdfService.BlankPagesAccumulateSpace` | services/pdf_service.py:12-15 | Pages with no text or only whitespace put nothing but whitespace into the accumulator. |
| `PdfService.ImageOnlyDocumentExtractsEmpty` | services/pdf_service.py:12-16 | A readable PDF whose pages all yield no text or only whitespace extracts to the empty string. |
| `PdfService.ReadableTextGate` | services/pdf_service.py:48 | Characterises `HasReadableText`, the gate as written: The gate passes exactly when the stripped cleaned text has at least 10 characters, so the emptiness test adds nothing. Whitespace-only text never passes. |
| `PdfService.TempFile.Create` | services/pdf_service.py:36 | Creating the temporary file leaves an empty file on disk. |
| `PdfService.TempFile.Write` | services/pdf_service.py:37 | A write either stores the bytes or raises the file system's error. Either way the file stays on disk. |
| `PdfService.TempFile.Unlink` | services/pdf_service.py:65-66 | Unlinking needs an existing file. It either removes the file or raises the file system's error and leaves the file in place. |
| `PdfService.ProcessStoredPdf` | services/pdf_service.py:41-57 | The `try` body extracts, cleans, applies the gate and chunks, with the same result and steps as the reference `Pipeline` (lines 41-57 as a function of the extraction's outcome). |
| `PdfService.ProcessPdfFile` | services/pdf_service.py:20-66 | The request's result and steps are those of the reference `Ingest` (lines 20-66; `AfterStore` is the part from the `try` on, `Reclassify` the `except` clauses at lines 59-62). A temporary file exists only if it was created. It is still on disk afterwards exactly when it was never unlinked. |
| `PdfService.NonPdfRejectedUpFront` | services/pdf_service.py:32-38 | A non-`.pdf` name gives exactly a 400 "Only PDF files are allowed" with no step taken. With a `.pdf` name, no step is taken only if the temporary file cannot be created. |
| `PdfService.ExtractionFailureIs400` | services/pdf_service.py:9-18 | An unreadable PDF, or a page that raises, gives a 400 with the parser's reason. The cleaner is never called and the file is unlinked. |
| `PdfService.UnreadableTextRejected` | services/pdf_service.py:48-49 | Cleaned text that fails the gate gives a 400 "No readable text found in PDF". The chunker is never called and the file is unlinked. |
| `PdfService.SuccessReturnsCleanedText` | services/pdf_service.py:45-57 | A request succeeds exactly when every step succeeds and the gate passes. It then returns the cleaner's output unchanged and the number of chunks for `(cleaned, 500, 50)`. |
| `PdfService.PipelineChunkerCall` | services/pdf_service.py:45-52 | Inside the `try`, every chunker call comes right after the cleaner call, on the cleaner's output, only when that output passed the gate, with size 500 and overlap 50. |
| `PdfService.IngestTrace` | services/pdf_service.py:36-66 | A stored upload creates and writes the file, runs the guarded body, then unlinks the file unless the removal fails. |
| `PdfService.IngestStored` | services/pdf_service.py:40-66 | Once the upload is stored, `Ingest` is `AfterStore`: the guarded body, then the removal, which fails only under `UnlinkFails`. |
| `PdfService.PipelineKeepsFile` | services/pdf_service.py:41-57 | The `try` body neither creates nor removes the temporary file. |
| `PdfService.ChunkerCalledOnCleanedText` | services/pdf_service.py:48-52 | Every chunker call comes right after the cleaner call, on the cleaner's output, only when that output passed the gate, and with size 500 and overlap 50. |
| `PdfService.CleanerExceptionsClassified` | services/pdf_service.py:59-62 | Pins down `Reclassify`: An `HTTPException` from the cleaner passes unchanged. Any other exception from it becomes a 500 `Error processing PDF: <message>`. |
| `PdfService.ChunkerExceptionsClassified` | services/pdf_service.py:59-62 | The same classification for exceptions from the chunker. |
| `PdfService.UnclassifiedOnlyFromStorage` | services/pdf_service.py:36-66 | A request ends in an exception other than an `HTTPException` exactly when the name is accepted and creating, writing or removing the temporary file failed. A failed removal replaces the body's outcome, since it is raised in the `finally`. |
| `PdfService.PipelineStepsInOrder` | services/pdf_service.py:42-52 | Inside the `try`, the steps are extract, clean, chunk, in that order and each at most once. |
| `PdfService.StepsInPipelineOrder` | services/pdf_service.py:31-66 | With `Rank` giving the code's order: A request's steps follow the code's order, each at most once: create, write, extract, clean, chunk, unlink. |
| `PdfService.TempFileLeftOnlyWhenWriteOrUnlinkFails` | services/pdf_service.py:36-66 | As written, the temporary file is left on disk (`LeavesTempFile`) exactly when the name is accepted and either the write or the removal fails. Whenever the file is removed, the removal is the last step. |
| `PdfService.ScopedIngestRemovesTempFile` | services/pdf_service.py:36-66 | For `IngestScoped`, the request with the file's creation inside the cleanup scope, the only path that leaves the file behind is a removal that itself fails. Every other created file is removed as the last step. Every request still gets the same result as the code as written. |

## Left out

- PDF parsing with `pdfplumber` is foreign code. It is the `open` parameter, and its failures are the parser's reasons.
- `clean_text` and `split_text_into_chunks` are in `utils/text_utils.py`, which is not part of this model. They are opaque parameters, and no property of cleaning or chunking is assumed.
- Python's `str(e)` is an exception's message string; how Python formats exception objects is not modelled.
- The temporary file's name, its `.pdf` suffix, and the uniqueness of names across concurrent requests are not modelled. One request owns one file, reduced to an on-disk flag and its bytes.
- Strings are sequences of Unicode scalar values. A Python `str` can also hold lone surrogates (U+D800 to U+DFFF), which a Dafny `char` cannot; such names and page texts are not modelled.
- `os.path.exists` is read as the model's on-disk flag. Nothing outside the request removes the file, so the check before unlinking always passes here.
- A write that fails part-way is modelled as leaving the file's earlier contents. The bytes on disk after a failed write play no further part.
- `PyString.Lower` lower-cases ASCII letters only, where Python's `lower()` covers all of Unicode. The `.pdf` test is unaffected: no character outside ASCII lower-cases to `.`, `p`, `d` or `f`. The one character whose lower case is two characters (U+0130) ends in U+0307.
- `main.py` (app set-up and two endpoints that return constants) and `models.py` (request and response schemas) are transport glue with no logic.
- FastAPI's mapping of `HTTPException` and of uncaught exceptions to HTTP responses is not modelled. The outcome records the status and detail, or the uncaught exception's message.

## Findings

| source | as written | input that shows it | evidently intended | confidence | as-written member | corrected member |
|---|---|---|---|---|---|---|
| services/pdf_service.py:36-38 | The temporary file is created with `delete=False` and written before the `try` whose `finally` unlinks it. If the write or close raises, the `finally` never runs and the file stays on disk. | An upload named `a.pdf` whose write into the temporary file raises, e.g. because the disk is full. | The temporary file is removed on every exit path, the write failure included. | not executed; medium | `PdfService.TempFileLeftOnlyWhenWriteOrUnlinkFails` | `PdfService.ScopedIngestRemovesTempFile` |

`Ingest` and `ProcessPdfFile` model the code as written. `IngestScoped` is the corrected request: it differs only in unlinking the file after a failed write. It shares every other step with `Ingest` through `AfterStore`. A removal that itself raises still leaves the file in both; no placement of the cleanup avoids that.
