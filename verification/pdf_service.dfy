/** The document-ingestion path of the PDF service: the upload's file-name
    check, the page-by-page text extraction, the readable-text gate, the call
    to the chunker and the classification of failures, with the temporary file
    the upload is parked in while it is read.

    The PDF parser, the text cleaner and the chunker are foreign code; they are
    parameters here, and each may return or raise. */
module PdfService {
  import opened PyString

  newtype byte = x: int | 0 <= x < 256

  datatype Option<T> = None | Some(value: T)

  /** What a Python call can end in, for the two exception types this code
      distinguishes: FastAPI's `HTTPException` and any other exception. */
  datatype Exception =
    | HttpException(status: int, detail: string)
    | OtherException(message: string)

  datatype Result<T> = Ok(value: T) | Raise(exception: Exception)

  /** One page as the parser yields it: its text, no text (`None`), or an
      exception raised while reading the page. */
  datatype PageText = Text(s: string) | NoText | Fails(reason: string)

  /** The parser's view of a byte stream: it could not be opened, or it is a
      sequence of pages. */
  datatype Document = Unreadable(reason: string) | Pages(pages: seq<PageText>)

  /** How the file system behaves for the temporary file the upload is parked
      in: it works; the file cannot be created; the file is created but
      writing to (or closing) it fails; or the file is stored but removing it
      at the end fails. */
  datatype StoreFault =
    | NoFault
    | CreateFails(reason: string)
    | WriteFails(reason: string)
    | UnlinkFails(reason: string)
  {
    /** The upload is in the temporary file and the `try` block runs. */
    predicate Stored() {
      NoFault? || UnlinkFails?
    }
  }

  /** The steps of one request that have an effect or call foreign code, in
      the order they happen. */
  datatype Step =
    | Created                                   // the temporary file now exists
    | Written                                   // the upload's bytes are in it
    | Extracted                                 // the parser read it
    | Cleaned(raw: string)                      // the cleaner was called on `raw`
    | Chunked(text: string, size: nat, overlap: nat)  // the chunker was called
    | Unlinked                                  // the temporary file was removed

  /** The result of a request together with the steps it took. */
  datatype Run = Run(result: Result<(string, nat)>, trace: seq<Step>)

  const ChunkSize: nat := 500
  const ChunkOverlap: nat := 50
  const MinTextLength: nat := 10

  const NotPdfDetail := "Only PDF files are allowed"
  const NoTextDetail := "No readable text found in PDF"
  const ExtractionPrefix := "Error extracting text from PDF: "
  const ProcessingPrefix := "Error processing PDF: "

  /** The temporary file holding an upload (created with `delete=False`, so
      only an explicit unlink removes it). */
  class TempFile {
    var onDisk: bool
    var content: seq<byte>

    /** `NamedTemporaryFile` creates an empty file. */
    constructor Create()
      ensures onDisk && content == []
    {
      onDisk := true;
      content := [];
    }

    /** Writes `data` and closes the file; `failure` is what the file system
        raises, if anything. The file is left in place either way. */
    method Write(data: seq<byte>, failure: Option<string>) returns (r: Result<()>)
      requires onDisk
      modifies this
      ensures onDisk
      ensures failure.None? ==> r == Ok(()) && content == data
      ensures failure.Some? ==> r == Raise(OtherException(failure.value)) && content == old(content)
    {
      if failure.Some? {
        r := Raise(OtherException(failure.value));
      } else {
        content := data;
        r := Ok(());
      }
    }

    /** `os.unlink`, which raises on a missing file, so callers check first;
        `failure` is what the file system raises otherwise, if anything. A
        failed unlink leaves the file in place. */
    method Unlink(failure: Option<string>) returns (r: Result<()>)
      requires onDisk
      modifies this
      ensures content == old(content)
      ensures failure.None? ==> r == Ok(()) && !onDisk
      ensures failure.Some? ==> r == Raise(OtherException(failure.value)) && onDisk
    {
      if failure.Some? {
        r := Raise(OtherException(failure.value));
      } else {
        onDisk := false;
        r := Ok(());
      }
    }
  }

  // ---------------------------------------------------------------------
  // The file-name gate

  /** The upload is taken only if its name, lower-cased, ends in ".pdf". */
  predicate AcceptedFilename(filename: string) {
    EndsWith(Lower(filename), ".pdf")
  }

  /** The gate ignores case and nothing but the last four characters matter. */
  lemma PdfExtensionIgnoresCase(filename: string)
    ensures AcceptedFilename(filename) <==>
      && |filename| >= 4
      && filename[|filename| - 4] == '.'
      && (filename[|filename| - 3] == 'p' || filename[|filename| - 3] == 'P')
      && (filename[|filename| - 2] == 'd' || filename[|filename| - 2] == 'D')
      && (filename[|filename| - 1] == 'f' || filename[|filename| - 1] == 'F')
  {
    var n := |filename|;
    LowerShape(filename);
    if n >= 4 {
      var low := Lower(filename);
      var tail := low[n - 4..];
      assert tail == [low[n - 4], low[n - 3], low[n - 2], low[n - 1]];
      LowerCharHits(filename[n - 4], '.');
      LowerCharHits(filename[n - 3], 'p');
      LowerCharHits(filename[n - 2], 'd');
      LowerCharHits(filename[n - 1], 'f');
    }
  }

  /** Only the character itself and, for a letter, its capital lower-case
      to a given lower-case character. */
  lemma LowerCharHits(c: char, d: char)
    requires d == '.' || 'a' <= d <= 'z'
    ensures LowerChar(c) == d <==> c == d || ('a' <= d <= 'z' && c as int == d as int - 32)
  {
  }

  /** An upper-case extension is accepted; a text file is not. */
  lemma ExtensionExamples()
    ensures AcceptedFilename("A.PDF")
    ensures !AcceptedFilename("notes.txt")
  {
    var upper, text := "A.PDF", "notes.txt";
    PdfExtensionIgnoresCase(upper);
    assert upper[1] == '.' && upper[2] == 'P' && upper[3] == 'D' && upper[4] == 'F';
    PdfExtensionIgnoresCase(text);
    assert text[5] == '.' && text[6] == 't';
  }

  // ---------------------------------------------------------------------
  // Text extraction

  /** A page whose text is kept: it yields a text, and that text is not empty. */
  predicate Kept(page: PageText) {
    page.Text? && page.s != ""
  }

  /** The texts of the kept pages, in page order. */
  function PageTexts(pages: seq<PageText>): (texts: seq<string>)
    ensures |texts| <= |pages|
  {
    if pages == [] then []
    else if Kept(pages[|pages| - 1]) then PageTexts(pages[..|pages| - 1]) + [pages[|pages| - 1].s]
    else PageTexts(pages[..|pages| - 1])
  }

  /** The accumulator after the page loop: each text followed by a newline. */
  function Accumulated(texts: seq<string>): string {
    if texts == [] then ""
    else Accumulated(texts[..|texts| - 1]) + (texts[|texts| - 1] + "\n")
  }

  /** The reason of the first page that raises, if any. */
  function FirstFailure(pages: seq<PageText>): (r: Option<string>)
    ensures r.None? <==> forall k :: 0 <= k < |pages| ==> !pages[k].Fails?
  {
    if pages == [] then None
    else if pages[0].Fails? then Some(pages[0].reason)
    else FirstFailure(pages[1..])
  }

  /** Every failure while opening or reading the PDF becomes this. */
  function ExtractionError(reason: string): Exception {
    HttpException(400, ExtractionPrefix + reason)
  }

  /** What `extract_text_from_pdf` returns or raises for a parsed document. */
  function ExtractionSpec(doc: Document): Result<string> {
    match doc
    case Unreadable(reason) => Raise(ExtractionError(reason))
    case Pages(pages) =>
      match FirstFailure(pages)
      case Some(reason) => Raise(ExtractionError(reason))
      case None => Ok(Strip(Accumulated(PageTexts(pages))))
  }

  /** Extraction fails with the reason of the first page that raises. */
  lemma {:induction false} FirstFailureAt(pages: seq<PageText>, i: nat)
    requires i < |pages| && pages[i].Fails?
    requires forall k :: 0 <= k < i ==> !pages[k].Fails?
    ensures FirstFailure(pages) == Some(pages[i].reason)
    ensures ExtractionSpec(Pages(pages)) == Raise(ExtractionError(pages[i].reason))
  {
    if i > 0 {
      FirstFailureAt(pages[1..], i - 1);
    }
  }

  /** What one page adds to the accumulator. */
  function PageContribution(page: PageText): string {
    if Kept(page) then page.s + "\n" else ""
  }

  /** The accumulator after the loop has visited the first `i` pages. */
  function TextAfter(pages: seq<PageText>, i: nat): string
    requires i <= |pages|
  {
    if i == 0 then "" else TextAfter(pages, i - 1) + PageContribution(pages[i - 1])
  }

  /** Visiting one more page extends the kept texts by that page's text
      when the page is kept. */
  lemma PageTextsStep(pages: seq<PageText>, i: nat)
    requires 0 < i <= |pages|
    ensures PageTexts(pages[..i]) == if Kept(pages[i - 1])
      then PageTexts(pages[..i - 1]) + [pages[i - 1].s] else PageTexts(pages[..i - 1])
  {
    var visited := pages[..i];
    assert visited[..|visited| - 1] == pages[..i - 1];
  }

  /** A text is among the kept texts exactly when some kept page has it. */
  lemma {:induction false} PageTextsMembers(pages: seq<PageText>)
    ensures forall t :: t in PageTexts(pages) <==>
      exists k :: 0 <= k < |pages| && Kept(pages[k]) && pages[k].s == t
  {
    if pages != [] {
      var init, last := pages[..|pages| - 1], pages[|pages| - 1];
      PageTextsMembers(init);
      forall t
        ensures t in PageTexts(pages) <==>
          exists k :: 0 <= k < |pages| && Kept(pages[k]) && pages[k].s == t
      {
        if t in PageTexts(pages) {
          if t in PageTexts(init) {
            var k :| 0 <= k < |init| && Kept(init[k]) && init[k].s == t;
            assert pages[k] == init[k];
          } else {
            assert Kept(pages[|pages| - 1]) && pages[|pages| - 1].s == t;
          }
        }
        if exists k :: 0 <= k < |pages| && Kept(pages[k]) && pages[k].s == t {
          var k :| 0 <= k < |pages| && Kept(pages[k]) && pages[k].s == t;
          if k < |init| {
            assert init[k] == pages[k];
          }
        }
      }
    }
  }

  /** One more kept text adds that text and a newline to the accumulator. */
  lemma AccumulatedStep(before: seq<string>, s: string)
    ensures Accumulated(before + [s]) == Accumulated(before) + (s + "\n")
  {
    var texts := before + [s];
    assert texts[..|texts| - 1] == before;
  }

  /** Page by page, the loop's accumulator is the kept texts of the pages
      visited so far, each followed by a newline. */
  lemma {:induction false} TextAfterIsAccumulated(pages: seq<PageText>, i: nat)
    requires i <= |pages|
    ensures TextAfter(pages, i) == Accumulated(PageTexts(pages[..i]))
  {
    if i > 0 {
      TextAfterIsAccumulated(pages, i - 1);
      PageTextsStep(pages, i);
      var page := pages[i - 1];
      if Kept(page) {
        AccumulatedStep(PageTexts(pages[..i - 1]), page.s);
      } else {
        var acc := TextAfter(pages, i - 1);
        assert acc + "" == acc;
      }
    }
  }

  /** The page loop of `extract_text_from_pdf`, on the document the parser
      opened from the temporary file. */
  method ExtractTextFromPdf(doc: Document) returns (r: Result<string>)
    ensures r == ExtractionSpec(doc)
  {
    if doc.Unreadable? {
      return Raise(ExtractionError(doc.reason));
    }
    var pages := doc.pages;
    var text := "";
    var i := 0;
    while i < |pages|
      invariant 0 <= i <= |pages|
      invariant forall k :: 0 <= k < i ==> !pages[k].Fails?
      invariant text == TextAfter(pages, i)
    {
      var page := pages[i];
      if page.Fails? {
        FirstFailureAt(pages, i);
        return Raise(ExtractionError(page.reason));
      }
      if page.Text? && page.s != "" {
        text := text + (page.s + "\n");
      }
      i := i + 1;
    }
    TextAfterIsAccumulated(pages, i);
    assert pages[..i] == pages;
    r := Ok(Strip(text));
  }

  lemma {:induction false} AccumulatedIsJoinPlusNewline(texts: seq<string>)
    requires texts != []
    ensures Accumulated(texts) == Join("\n", texts) + "\n"
  {
    var init, last := texts[..|texts| - 1], texts[|texts| - 1];
    if init != [] {
      AccumulatedIsJoinPlusNewline(init);
      var joined := Join("\n", init);
      assert Accumulated(texts) == (joined + "\n") + (last + "\n");
      assert Join("\n", texts) == joined + "\n" + last;
      assert (joined + "\n") + (last + "\n") == (joined + "\n" + last) + "\n";
    } else {
      assert Accumulated(texts) == "" + (last + "\n");
      assert "" + (last + "\n") == last + "\n";
    }
  }

  /** Appending a newline after every page and stripping the result is the
      same as joining the page texts with newlines and stripping. */
  lemma ExtractedIsStrippedJoin(pages: seq<PageText>)
    requires FirstFailure(pages).None?
    ensures ExtractionSpec(Pages(pages)) == Ok(Strip(Join("\n", PageTexts(pages))))
  {
    var texts := PageTexts(pages);
    if texts != [] {
      AccumulatedIsJoinPlusNewline(texts);
      StripIgnoresTrailingSpace(Join("\n", texts), "\n");
    }
  }

  function TotalLength(texts: seq<string>): nat {
    if texts == [] then 0 else TotalLength(texts[..|texts| - 1]) + |texts[|texts| - 1]|
  }

  lemma {:induction false} AccumulatedLength(texts: seq<string>)
    ensures |Accumulated(texts)| == TotalLength(texts) + |texts|
  {
    if texts != [] {
      AccumulatedLength(texts[..|texts| - 1]);
    }
  }

  /** The extracted text has no surrounding whitespace, and is at most the
      non-empty page texts plus one newline each. */
  lemma ExtractedTextShape(doc: Document)
    requires ExtractionSpec(doc).Ok?
    ensures var t := ExtractionSpec(doc).value;
      && (t != [] ==> !IsSpace(t[0]) && !IsSpace(t[|t| - 1]))
      && |t| <= TotalLength(PageTexts(doc.pages)) + |PageTexts(doc.pages)|
  {
    AccumulatedLength(PageTexts(doc.pages));
    StripShape(Accumulated(PageTexts(doc.pages)));
  }

  /** Pages with no text or only whitespace leave nothing but whitespace in
      the accumulator. */
  lemma {:induction false} BlankPagesAccumulateSpace(pages: seq<PageText>)
    requires forall k :: 0 <= k < |pages| ==> pages[k].NoText? || (pages[k].Text? && AllSpace(pages[k].s))
    ensures AllSpace(Accumulated(PageTexts(pages)))
  {
    if pages != [] {
      var init, last := pages[..|pages| - 1], pages[|pages| - 1];
      BlankPagesAccumulateSpace(init);
      if Kept(last) {
        AccumulatedStep(PageTexts(init), last.s);
        AllSpaceConcat(last.s, "\n");
        AllSpaceConcat(Accumulated(PageTexts(init)), last.s + "\n");
      }
    }
  }

  /** A document that is opened and read without error but whose pages have
      no text or only whitespace (an image-only scan) extracts to the empty
      string. */
  lemma ImageOnlyDocumentExtractsEmpty(pages: seq<PageText>)
    requires forall k :: 0 <= k < |pages| ==> pages[k].NoText? || (pages[k].Text? && AllSpace(pages[k].s))
    ensures ExtractionSpec(Pages(pages)) == Ok("")
  {
    BlankPagesAccumulateSpace(pages);
    StripShape(Accumulated(PageTexts(pages)));
  }

  // ---------------------------------------------------------------------
  // The orchestration

  /** The cleaned text is kept only if it is non-empty and at least ten
      characters remain once surrounding whitespace is stripped. */
  predicate HasReadableText(cleaned: string) {
    !(cleaned == "" || |Strip(cleaned)| < MinTextLength)
  }

  /** The text passes the gate exactly when it holds at least ten characters
      between its first and last non-whitespace character; whitespace-only
      text never does. */
  lemma ReadableTextGate(cleaned: string)
    ensures HasReadableText(cleaned) <==> |Strip(cleaned)| >= MinTextLength
    ensures AllSpace(cleaned) ==> !HasReadableText(cleaned)
  {
    StripShape(cleaned);
  }

  /** The body of the `try` block once the text is extracted (or extraction
      raised): clean, gate, chunk. */
  function Pipeline(extracted: Result<string>, clean: string -> Result<string>,
                    split: (string, nat, nat) -> Result<seq<string>>): Run
  {
    match extracted
    case Raise(e) => Run(Raise(e), [Extracted])
    case Ok(raw) =>
      match clean(raw)
      case Raise(e) => Run(Raise(e), [Extracted, Cleaned(raw)])
      case Ok(cleaned) =>
        if !HasReadableText(cleaned) then
          Run(Raise(HttpException(400, NoTextDetail)), [Extracted, Cleaned(raw)])
        else
          var call := Chunked(cleaned, ChunkSize, ChunkOverlap);
          match split(cleaned, ChunkSize, ChunkOverlap)
          case Raise(e) => Run(Raise(e), [Extracted, Cleaned(raw), call])
          case Ok(chunks) => Run(Ok((cleaned, |chunks|)), [Extracted, Cleaned(raw), call])
  }

  /** The `except` clauses: an `HTTPException` passes unchanged, any other
      exception becomes a 500. */
  function Reclassify<T>(r: Result<T>): Result<T> {
    match r
    case Raise(OtherException(message)) => Raise(HttpException(500, ProcessingPrefix + message))
    case _ => r
  }

  /** The request once the upload is in the temporary file: the guarded body,
      then the `finally` that removes the file. An exception raised by the
      removal replaces whatever the body returned or raised, and is not
      reclassified, since the `finally` lies outside the `except` clauses. */
  function AfterStore(content: seq<byte>, unlinkFailure: Option<string>,
                      open: seq<byte> -> Document, clean: string -> Result<string>,
                      split: (string, nat, nat) -> Result<seq<string>>): Run
  {
    var body := Pipeline(ExtractionSpec(open(content)), clean, split);
    match unlinkFailure
    case Some(reason) => Run(Raise(OtherException(reason)), [Created, Written] + body.trace)
    case None => Run(Reclassify(body.result), [Created, Written] + body.trace + [Unlinked])
  }

  /** `process_pdf_file` as written: the temporary file is created and written
      before the `try`, so a failing write escapes the `finally`. */
  function Ingest(content: seq<byte>, filename: string, fault: StoreFault,
                  open: seq<byte> -> Document, clean: string -> Result<string>,
                  split: (string, nat, nat) -> Result<seq<string>>): Run
  {
    if !AcceptedFilename(filename) then Run(Raise(HttpException(400, NotPdfDetail)), [])
    else
      match fault
      case CreateFails(reason) => Run(Raise(OtherException(reason)), [])
      case WriteFails(reason) => Run(Raise(OtherException(reason)), [Created])
      case UnlinkFails(reason) => AfterStore(content, Some(reason), open, clean, split)
      case NoFault => AfterStore(content, None, open, clean, split)
  }

  /** Once the upload is stored, the request is the guarded body followed by
      the removal, which fails only under `UnlinkFails`. */
  lemma IngestStored(content: seq<byte>, filename: string, fault: StoreFault,
                     open: seq<byte> -> Document, clean: string -> Result<string>,
                     split: (string, nat, nat) -> Result<seq<string>>)
    requires AcceptedFilename(filename) && fault.Stored()
    ensures Ingest(content, filename, fault, open, clean, split)
      == AfterStore(content, if fault.UnlinkFails? then Some(fault.reason) else None, open, clean, split)
  {
  }

  /** The body of the `try` neither creates nor removes the temporary file. */
  lemma PipelineKeepsFile(extracted: Result<string>, clean: string -> Result<string>,
                          split: (string, nat, nat) -> Result<seq<string>>)
    ensures Created !in Pipeline(extracted, clean, split).trace
    ensures Unlinked !in Pipeline(extracted, clean, split).trace
  {
  }

  /** The temporary file was created and never removed. */
  predicate LeavesTempFile(trace: seq<Step>) {
    Created in trace && Unlinked !in trace
  }

  /** The body of the `try` block, run on the stored upload. */
  method ProcessStoredPdf(file: TempFile, open: seq<byte> -> Document,
                          clean: string -> Result<string>,
                          split: (string, nat, nat) -> Result<seq<string>>)
    returns (r: Result<(string, nat)>, ghost trace: seq<Step>)
    requires file.onDisk
    ensures Run(r, trace) == Pipeline(ExtractionSpec(open(file.content)), clean, split)
  {
    var doc := open(file.content);
    trace := [Extracted];
    var raw := ExtractTextFromPdf(doc);
    if raw.Raise? {
      return Raise(raw.exception), trace;
    }
    trace := trace + [Cleaned(raw.value)];
    var cleaned := clean(raw.value);
    if cleaned.Raise? {
      return Raise(cleaned.exception), trace;
    }
    var text := cleaned.value;
    if !HasReadableText(text) {
      return Raise(HttpException(400, NoTextDetail)), trace;
    }
    trace := trace + [Chunked(text, ChunkSize, ChunkOverlap)];
    var chunks := split(text, ChunkSize, ChunkOverlap);
    if chunks.Raise? {
      return Raise(chunks.exception), trace;
    }
    r := Ok((text, |chunks.value|));
  }

  /** `process_pdf_file`: returns the cleaned text and the number of chunks,
      or raises; `file` is the temporary file it created, if any. */
  method ProcessPdfFile(content: seq<byte>, filename: string, fault: StoreFault,
                        open: seq<byte> -> Document, clean: string -> Result<string>,
                        split: (string, nat, nat) -> Result<seq<string>>)
    returns (r: Result<(string, nat)>, file: TempFile?, ghost trace: seq<Step>)
    ensures Run(r, trace) == Ingest(content, filename, fault, open, clean, split)
    ensures file == null <==> Created !in trace
    ensures file != null ==> fresh(file) && (file.onDisk <==> LeavesTempFile(trace))
  {
    file, trace := null, [];
    if !AcceptedFilename(filename) {
      r := Raise(HttpException(400, NotPdfDetail));
      return;
    }
    if fault.CreateFails? {
      r := Raise(OtherException(fault.reason));
      return;
    }
    file := new TempFile.Create();
    trace := [Created];
    var written := file.Write(content, if fault.WriteFails? then Some(fault.reason) else None);
    if written.Raise? {
      r := Raise(written.exception);
      return;
    }
    trace := trace + [Written];
    ghost var steps;
    r, steps := ProcessStoredPdf(file, open, clean, split);
    var unlinkFailure := if fault.UnlinkFails? then Some(fault.reason) else None;
    IngestStored(content, filename, fault, open, clean, split);
    PipelineKeepsFile(ExtractionSpec(open(content)), clean, split);
    trace := trace + steps;
    r := Reclassify(r);
    if file.onDisk {
      var unlinked := file.Unlink(unlinkFailure);
      if unlinked.Raise? {
        r := Raise(unlinked.exception);
      } else {
        trace := trace + [Unlinked];
      }
    }
  }

  // ---------------------------------------------------------------------
  // What a request promises

  /** A file name without the `.pdf` extension is refused with a 400 before
      any temporary file exists or anything is read; with the extension, the
      only way to take no step at all is a temporary file that cannot be
      created. */
  lemma NonPdfRejectedUpFront(content: seq<byte>, filename: string, fault: StoreFault,
                              open: seq<byte> -> Document, clean: string -> Result<string>,
                              split: (string, nat, nat) -> Result<seq<string>>)
    ensures var run := Ingest(content, filename, fault, open, clean, split);
      && (!AcceptedFilename(filename) <==>
            run.trace == [] && run.result == Raise(HttpException(400, NotPdfDetail)))
      && (AcceptedFilename(filename) ==> (run.trace == [] <==> fault.CreateFails?))
  {
  }

  /** A PDF that cannot be opened, or whose pages raise, is a 400 with the
      parser's reason; the cleaner is never called and the file is removed. */
  lemma ExtractionFailureIs400(content: seq<byte>, filename: string,
                               open: seq<byte> -> Document, clean: string -> Result<string>,
                               split: (string, nat, nat) -> Result<seq<string>>, reason: string)
    requires AcceptedFilename(filename)
    requires open(content) == Unreadable(reason)
          || (open(content).Pages? && FirstFailure(open(content).pages) == Some(reason))
    ensures Ingest(content, filename, NoFault, open, clean, split) ==
      Run(Raise(HttpException(400, ExtractionPrefix + reason)), [Created, Written, Extracted, Unlinked])
  {
  }

  /** Cleaned text that is empty or strips to fewer than ten characters is a
      400 "No readable text found in PDF", and the chunker is never called. */
  lemma UnreadableTextRejected(content: seq<byte>, filename: string,
                               open: seq<byte> -> Document, clean: string -> Result<string>,
                               split: (string, nat, nat) -> Result<seq<string>>, raw: string)
    requires AcceptedFilename(filename)
    requires ExtractionSpec(open(content)) == Ok(raw)
    requires clean(raw).Ok? && !HasReadableText(clean(raw).value)
    ensures var run := Ingest(content, filename, NoFault, open, clean, split);
      && run.result == Raise(HttpException(400, NoTextDetail))
      && run.trace == [Created, Written, Extracted, Cleaned(raw), Unlinked]
  {
    var body := Pipeline(Ok(raw), clean, split);
    assert body == Run(Raise(HttpException(400, NoTextDetail)), [Extracted, Cleaned(raw)]);
  }

  /** A request succeeds exactly when every step does; it then returns the
      cleaner's output unchanged and the number of chunks the chunker made of
      it with size 500 and overlap 50. */
  lemma SuccessReturnsCleanedText(content: seq<byte>, filename: string, fault: StoreFault,
                                  open: seq<byte> -> Document, clean: string -> Result<string>,
                                  split: (string, nat, nat) -> Result<seq<string>>)
    ensures var run := Ingest(content, filename, fault, open, clean, split);
      var extracted := ExtractionSpec(open(content));
      run.result.Ok? <==>
        && AcceptedFilename(filename) && fault.NoFault?
        && extracted.Ok? && clean(extracted.value).Ok?
        && HasReadableText(clean(extracted.value).value)
        && split(clean(extracted.value).value, ChunkSize, ChunkOverlap).Ok?
    ensures var run := Ingest(content, filename, fault, open, clean, split);
      var extracted := ExtractionSpec(open(content));
      run.result.Ok? ==>
        var cleaned := clean(extracted.value).value;
        run.result.value == (cleaned, |split(cleaned, ChunkSize, ChunkOverlap).value|)
  {
  }

  /** Inside the `try`, every chunker call comes right after the cleaner
      call, on the cleaner's output, only when that output passed the gate,
      and with size 500 and overlap 50. */
  lemma PipelineChunkerCall(extracted: Result<string>, clean: string -> Result<string>,
                            split: (string, nat, nat) -> Result<seq<string>>)
    ensures var steps := Pipeline(extracted, clean, split).trace;
      forall i :: 0 <= i < |steps| && steps[i].Chunked? ==>
        && steps[i].size == ChunkSize && steps[i].overlap == ChunkOverlap
        && HasReadableText(steps[i].text)
        && 0 < i && steps[i - 1].Cleaned? && clean(steps[i - 1].raw) == Ok(steps[i].text)
  {
    var steps := Pipeline(extracted, clean, split).trace;
    if extracted.Ok? && clean(extracted.value).Ok? && HasReadableText(clean(extracted.value).value) {
      var raw := extracted.value;
      var cleaned := clean(raw).value;
      assert steps == [Extracted, Cleaned(raw), Chunked(cleaned, ChunkSize, ChunkOverlap)];
      forall i | 0 <= i < |steps| && steps[i].Chunked?
        ensures i == 2
      {
      }
    } else {
      assert forall i :: 0 <= i < |steps| ==> !steps[i].Chunked?;
    }
  }

  /** A stored upload runs the guarded body after the file's creation and
      write, and then removes the file unless the removal fails. */
  lemma IngestTrace(content: seq<byte>, filename: string, fault: StoreFault,
                    open: seq<byte> -> Document, clean: string -> Result<string>,
                    split: (string, nat, nat) -> Result<seq<string>>)
    requires AcceptedFilename(filename) && fault.Stored()
    ensures Ingest(content, filename, fault, open, clean, split).trace
      == [Created, Written] + Pipeline(ExtractionSpec(open(content)), clean, split).trace
         + (if fault.NoFault? then [Unlinked] else [])
  {
  }

  /** The chunker is called only right after the cleaner, on the
      cleaner's output, only when that output passed the gate, and always
      with size 500 and overlap 50. */
  lemma ChunkerCalledOnCleanedText(content: seq<byte>, filename: string, fault: StoreFault,
                                   open: seq<byte> -> Document, clean: string -> Result<string>,
                                   split: (string, nat, nat) -> Result<seq<string>>)
    ensures var trace := Ingest(content, filename, fault, open, clean, split).trace;
      forall i :: 0 <= i < |trace| && trace[i].Chunked? ==>
        && trace[i].size == ChunkSize && trace[i].overlap == ChunkOverlap
        && HasReadableText(trace[i].text)
        && 0 < i && trace[i - 1].Cleaned? && clean(trace[i - 1].raw) == Ok(trace[i].text)
  {
    var trace := Ingest(content, filename, fault, open, clean, split).trace;
    if AcceptedFilename(filename) && fault.Stored() {
      var body := Pipeline(ExtractionSpec(open(content)), clean, split).trace;
      PipelineChunkerCall(ExtractionSpec(open(content)), clean, split);
      IngestTrace(content, filename, fault, open, clean, split);
      forall i | 0 <= i < |trace| && trace[i].Chunked?
        ensures && trace[i].size == ChunkSize && trace[i].overlap == ChunkOverlap
                && HasReadableText(trace[i].text)
                && 0 < i && trace[i - 1].Cleaned? && clean(trace[i - 1].raw) == Ok(trace[i].text)
      {
        assert 2 <= i < 2 + |body|;
        assert trace[i] == body[i - 2];
        assert trace[i - 1] == body[i - 3];
      }
    } else {
      assert trace in {[], [Created]};
    }
  }

  /** An `HTTPException` from the cleaner passes unchanged; any other
      exception from it becomes a 500 "Error processing PDF: ...". */
  lemma CleanerExceptionsClassified(content: seq<byte>, filename: string,
                                    open: seq<byte> -> Document, clean: string -> Result<string>,
                                    split: (string, nat, nat) -> Result<seq<string>>, raw: string)
    requires AcceptedFilename(filename)
    requires ExtractionSpec(open(content)) == Ok(raw) && clean(raw).Raise?
    ensures var e := clean(raw).exception;
      Ingest(content, filename, NoFault, open, clean, split).result ==
        Raise(if e.HttpException? then e else HttpException(500, ProcessingPrefix + e.message))
  {
  }

  /** The same classification for exceptions raised by the chunker. */
  lemma ChunkerExceptionsClassified(content: seq<byte>, filename: string,
                                    open: seq<byte> -> Document, clean: string -> Result<string>,
                                    split: (string, nat, nat) -> Result<seq<string>>, raw: string)
    requires AcceptedFilename(filename)
    requires ExtractionSpec(open(content)) == Ok(raw) && clean(raw).Ok?
    requires HasReadableText(clean(raw).value)
    requires split(clean(raw).value, ChunkSize, ChunkOverlap).Raise?
    ensures var e := split(clean(raw).value, ChunkSize, ChunkOverlap).exception;
      Ingest(content, filename, NoFault, open, clean, split).result ==
        Raise(if e.HttpException? then e else HttpException(500, ProcessingPrefix + e.message))
  {
  }

  /** Only the temporary-file steps, which sit outside the `except` clauses
      (creating and writing before the `try`, removing in the `finally`), can
      end a request with an exception that is not an `HTTPException`. */
  lemma UnclassifiedOnlyFromStorage(content: seq<byte>, filename: string, fault: StoreFault,
                                    open: seq<byte> -> Document, clean: string -> Result<string>,
                                    split: (string, nat, nat) -> Result<seq<string>>)
    ensures var r := Ingest(content, filename, fault, open, clean, split).result;
      r.Raise? && r.exception.OtherException? <==> AcceptedFilename(filename) && !fault.NoFault?
  {
  }

  /** Ranks the steps in the order the code takes them. */
  function Rank(step: Step): nat {
    match step
    case Created => 0
    case Written => 1
    case Extracted => 2
    case Cleaned(_) => 3
    case Chunked(_, _, _) => 4
    case Unlinked => 5
  }

  /** The steps happen in the code's order, each at most once. */
  lemma StepsInPipelineOrder(content: seq<byte>, filename: string, fault: StoreFault,
                             open: seq<byte> -> Document, clean: string -> Result<string>,
                             split: (string, nat, nat) -> Result<seq<string>>)
    ensures var trace := Ingest(content, filename, fault, open, clean, split).trace;
      forall i, j :: 0 <= i < j < |trace| ==> Rank(trace[i]) < Rank(trace[j])
  {
    if AcceptedFilename(filename) && fault.Stored() {
      PipelineStepsInOrder(ExtractionSpec(open(content)), clean, split);
    }
  }

  lemma PipelineStepsInOrder(extracted: Result<string>, clean: string -> Result<string>,
                             split: (string, nat, nat) -> Result<seq<string>>)
    ensures var trace := Pipeline(extracted, clean, split).trace;
      && (forall i :: 0 <= i < |trace| ==> 2 <= Rank(trace[i]) <= 4)
      && (forall i, j :: 0 <= i < j < |trace| ==> Rank(trace[i]) < Rank(trace[j]))
  {
  }

  /** As written, the temporary file is removed on every path except two: the
      file was created but writing the upload into it failed, or removing it
      failed. */
  lemma TempFileLeftOnlyWhenWriteOrUnlinkFails(content: seq<byte>, filename: string, fault: StoreFault,
                                               open: seq<byte> -> Document,
                                               clean: string -> Result<string>,
                                               split: (string, nat, nat) -> Result<seq<string>>)
    ensures var trace := Ingest(content, filename, fault, open, clean, split).trace;
      && (LeavesTempFile(trace) <==>
            AcceptedFilename(filename) && (fault.WriteFails? || fault.UnlinkFails?))
      && (Unlinked in trace ==> trace[|trace| - 1] == Unlinked)
  {
  }

  /** `process_pdf_file` with the temporary file's creation inside the scope
      whose exit removes it: a failed write is followed by the unlink. */
  function IngestScoped(content: seq<byte>, filename: string, fault: StoreFault,
                        open: seq<byte> -> Document, clean: string -> Result<string>,
                        split: (string, nat, nat) -> Result<seq<string>>): Run
  {
    if !AcceptedFilename(filename) then Run(Raise(HttpException(400, NotPdfDetail)), [])
    else
      match fault
      case CreateFails(reason) => Run(Raise(OtherException(reason)), [])
      case WriteFails(reason) => Run(Raise(OtherException(reason)), [Created, Unlinked])
      case UnlinkFails(reason) => AfterStore(content, Some(reason), open, clean, split)
      case NoFault => AfterStore(content, None, open, clean, split)
  }

  /** With the scoped creation the only path that leaves the temporary file
      behind is a removal that itself fails; every other created file is
      removed as the last step, and every request ends in the same result as
      the code as written. */
  lemma ScopedIngestRemovesTempFile(content: seq<byte>, filename: string, fault: StoreFault,
                                    open: seq<byte> -> Document, clean: string -> Result<string>,
                                    split: (string, nat, nat) -> Result<seq<string>>)
    ensures var scoped := IngestScoped(content, filename, fault, open, clean, split);
      && (LeavesTempFile(scoped.trace) <==> AcceptedFilename(filename) && fault.UnlinkFails?)
      && (Created in scoped.trace && !fault.UnlinkFails? ==>
            scoped.trace[|scoped.trace| - 1] == Unlinked)
      && scoped.result == Ingest(content, filename, fault, open, clean, split).result
  {
  }
}
