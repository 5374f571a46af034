/** The `POST /analyze/` request handler: it checks the uploaded file's name,
    reads and closes the upload, extracts text and keywords through external
    collaborators, compares the keywords, and maps each stage's outcome to an
    HTTP status. The collaborators appear as parameters: the text extractor
    as a function of the bytes and the file name, the keyword extractor as a
    function of a text that either yields a keyword set or raises (`None`). */
module Handler {
  import opened Analysis

  datatype Option<T> = None | Some(value: T)

  datatype Result<T, E> = Ok(value: T) | Err(error: E)

  /** What text extraction gives back: the text, `None`, or an exception. */
  datatype Extraction = Text(text: string) | NoText | ExtractionRaised

  /** The `detail` of an error response. */
  datatype Detail =
    | NoFileName
    | InvalidFileType
    | CouldNotParse
    | FileProcessingError
    | KeywordAnalysisError
    | ComparisonError

  /** The handler's answer: the comparison record as JSON, or an HTTP error. */
  datatype Response = Json(result: Comparison) | HttpError(status: nat, detail: Detail)

  /** An exception raised inside the read/extract block: an `HTTPException`
      with its status, or any other exception. */
  datatype Raised = HttpRaised(status: nat, detail: Detail) | OtherRaised

  /** `str.lower()` on one character, for the ASCII letters. */
  function LowerChar(c: char): char
  {
    if 'A' <= c <= 'Z' then (c as int + 32) as char else c
  }

  function Lower(s: string): (r: string)
    ensures |r| == |s|
    ensures forall i :: 0 <= i < |s| ==> r[i] == LowerChar(s[i])
  {
    if s == [] then [] else [LowerChar(s[0])] + Lower(s[1..])
  }

  predicate EndsWith(s: string, suffix: string)
  {
    |suffix| <= |s| && s[|s| - |suffix|..] == suffix
  }

  /** The last `|suffix|` characters of `name`, each lower-cased, spell `suffix`. */
  predicate CaseInsensitiveSuffix(name: string, suffix: string)
  {
    |suffix| <= |name| &&
    forall i :: 0 <= i < |suffix| ==> LowerChar(name[|name| - |suffix| + i]) == suffix[i]
  }

  lemma EndsWithLower(name: string, suffix: string)
    ensures EndsWith(Lower(name), suffix) <==> CaseInsensitiveSuffix(name, suffix)
  {
    var low := Lower(name);
    if |suffix| <= |name| {
      if CaseInsensitiveSuffix(name, suffix) {
        assert low[|low| - |suffix|..] == suffix by {
          forall i | 0 <= i < |suffix| ensures low[|low| - |suffix|..][i] == suffix[i] {
            assert low[|low| - |suffix| + i] == LowerChar(name[|name| - |suffix| + i]);
          }
        }
      }
      if EndsWith(low, suffix) {
        forall i | 0 <= i < |suffix| ensures LowerChar(name[|name| - |suffix| + i]) == suffix[i] {
          assert low[|low| - |suffix|..][i] == suffix[i];
        }
      }
    }
  }

  /** The name's lower-cased form ends in `.pdf` or `.docx`. Character by
      character: upper or lower case `.pdf` or `.docx` at the end of the
      name, and nothing else, passes. */
  predicate HasAcceptedExtension(name: string)
    ensures HasAcceptedExtension(name) <==>
      CaseInsensitiveSuffix(name, ".pdf") || CaseInsensitiveSuffix(name, ".docx")
  {
    EndsWithLower(name, ".pdf");
    EndsWithLower(name, ".docx");
    EndsWith(Lower(name), ".pdf") || EndsWith(Lower(name), ".docx")
  }

  lemma UpperCasePdfAccepted()
    ensures HasAcceptedExtension("CV.PDF")
  {
    var name := "CV.PDF";
    assert LowerChar(name[2]) == '.' && LowerChar(name[3]) == 'p';
    assert LowerChar(name[4]) == 'd' && LowerChar(name[5]) == 'f';
    assert CaseInsensitiveSuffix(name, ".pdf");
  }

  lemma DocRejected()
    ensures !HasAcceptedExtension("cv.doc")
  {
    var name := "cv.doc";
    assert LowerChar(name[|name| - 4 + 1]) != ".pdf"[1];
    assert LowerChar(name[|name| - 5 + 0]) != ".docx"[0];
  }

  /** The file-name checks: the name to go on with, or the 400 response. */
  function ValidateFilename(filename: Option<string>): (r: Result<string, Response>)
    ensures r.Ok? <==> filename.Some? && filename.value != [] && HasAcceptedExtension(filename.value)
    ensures r.Ok? ==> r.value == filename.value
    ensures r.Err? ==> r.error.HttpError? && r.error.status == 400
  {
    if filename.None? || filename.value == [] then Err(HttpError(400, NoFileName))
    else if !HasAcceptedExtension(filename.value) then Err(HttpError(400, InvalidFileType))
    else Ok(filename.value)
  }

  /** The body of the `try` around reading and extraction: the text, or the
      exception it raises; `None` raises the 422 `HTTPException`. */
  function ExtractBlock(extraction: Extraction): (r: Result<string, Raised>)
    ensures r.Ok? <==> extraction.Text?
    ensures r.Ok? ==> r.value == extraction.text
    ensures extraction == NoText ==> r == Err(HttpRaised(422, CouldNotParse))
    ensures extraction == ExtractionRaised ==> r == Err(OtherRaised)
  {
    match extraction
    case Text(text) => Ok(text)
    case NoText => Err(HttpRaised(422, CouldNotParse))
    case ExtractionRaised => Err(OtherRaised)
  }

  /** `except Exception` as written: every exception, the 422
      `HTTPException` included, becomes a 500. */
  function CatchAsWritten(e: Raised): (r: Response)
    ensures r.HttpError? && r.status == 500 && r.detail == FileProcessingError
  {
    HttpError(500, FileProcessingError)
  }

  /** The evidently intended handler: an `HTTPException` passes through with
      its own status; any other exception becomes a 500. */
  function CatchIntended(e: Raised): (r: Response)
    ensures r.HttpError?
    ensures e.HttpRaised? ==> r.status == e.status && r.detail == e.detail
    ensures e.OtherRaised? ==> r.status == 500 && r.detail == FileProcessingError
  {
    match e
    case HttpRaised(status, detail) => HttpError(status, detail)
    case OtherRaised => HttpError(500, FileProcessingError)
  }

  /** Everything after the read/extract block: keyword extraction of the
      résumé text and then of the job description, then the comparison. An
      empty résumé text goes on like any other. */
  function AfterExtraction(resumeText: string, jobDescription: string,
                           extractKeywords: string -> Option<set<string>>,
                           comparisonRaises: bool): (r: Response)
    ensures r.Json? <==>
      extractKeywords(resumeText).Some? && extractKeywords(jobDescription).Some? && !comparisonRaises
    ensures r.Json? ==> r.result == CompareKeywords(KeywordSet(extractKeywords(resumeText).value),
                                                    KeywordSet(extractKeywords(jobDescription).value))
    ensures r.HttpError? ==> r.status == 500
  {
    match extractKeywords(resumeText)
    case None => HttpError(500, KeywordAnalysisError)
    case Some(resumeKeywords) =>
      match extractKeywords(jobDescription)
      case None => HttpError(500, KeywordAnalysisError)
      case Some(jdKeywords) =>
        if comparisonRaises then HttpError(500, ComparisonError)
        else Json(CompareKeywords(KeywordSet(resumeKeywords), KeywordSet(jdKeywords)))
  }

  /** The handler as written, on the outcomes of its stages. */
  function Analyze(filename: Option<string>, content: seq<bv8>, jobDescription: string,
                   extractText: (seq<bv8>, string) -> Extraction,
                   extractKeywords: string -> Option<set<string>>,
                   comparisonRaises: bool): (r: Response)
    ensures filename.None? || filename.value == [] ==> r == HttpError(400, NoFileName)
    ensures filename.Some? && filename.value != [] && !HasAcceptedExtension(filename.value) ==>
              r == HttpError(400, InvalidFileType)
    ensures r.HttpError? ==> r.status == 400 || r.status == 500
    ensures ValidateFilename(filename).Ok? && r.HttpError? ==> r.status == 500
    ensures r.Json? <==>
      && ValidateFilename(filename).Ok?
      && extractText(content, filename.value).Text?
      && extractKeywords(extractText(content, filename.value).text).Some?
      && extractKeywords(jobDescription).Some?
      && !comparisonRaises
    ensures r.Json? ==>
      r.result == CompareKeywords(KeywordSet(extractKeywords(extractText(content, filename.value).text).value),
                                  KeywordSet(extractKeywords(jobDescription).value))
  {
    match ValidateFilename(filename)
    case Err(response) => response
    case Ok(name) =>
      match ExtractBlock(extractText(content, name))
      case Err(e) => CatchAsWritten(e)
      case Ok(text) => AfterExtraction(text, jobDescription, extractKeywords, comparisonRaises)
  }

  /** The handler with the evident intent of its read/extract block: the
      422 raised for unparseable text reaches the client. */
  function AnalyzeIntended(filename: Option<string>, content: seq<bv8>, jobDescription: string,
                           extractText: (seq<bv8>, string) -> Extraction,
                           extractKeywords: string -> Option<set<string>>,
                           comparisonRaises: bool): (r: Response)
    ensures ValidateFilename(filename).Ok? && extractText(content, filename.value) == NoText ==>
              r == HttpError(422, CouldNotParse)
    ensures ValidateFilename(filename).Ok? && extractText(content, filename.value) == ExtractionRaised ==>
              r == HttpError(500, FileProcessingError)
    ensures ValidateFilename(filename).Err? ==> r == ValidateFilename(filename).error
  {
    match ValidateFilename(filename)
    case Err(response) => response
    case Ok(name) =>
      match ExtractBlock(extractText(content, name))
      case Err(e) => CatchIntended(e)
      case Ok(text) => AfterExtraction(text, jobDescription, extractKeywords, comparisonRaises)
  }

  /** As written, unparseable text (`None` from the extractor) answers 500,
      not the 422 raised for it. */
  lemma NoTextAsWritten(filename: Option<string>, content: seq<bv8>, jobDescription: string,
                        extractText: (seq<bv8>, string) -> Extraction,
                        extractKeywords: string -> Option<set<string>>,
                        comparisonRaises: bool)
    requires ValidateFilename(filename).Ok? && extractText(content, filename.value) == NoText
    ensures Analyze(filename, content, jobDescription, extractText, extractKeywords, comparisonRaises)
         == HttpError(500, FileProcessingError)
    ensures AnalyzeIntended(filename, content, jobDescription, extractText, extractKeywords, comparisonRaises)
         == HttpError(422, CouldNotParse)
  {
  }

  /** The corrected handler differs from the one as written only where the
      extractor returns `None`. */
  lemma IntendedDiffersOnlyOnNoText(filename: Option<string>, content: seq<bv8>, jobDescription: string,
                                    extractText: (seq<bv8>, string) -> Extraction,
                                    extractKeywords: string -> Option<set<string>>,
                                    comparisonRaises: bool)
    requires ValidateFilename(filename).Ok? ==> extractText(content, filename.value) != NoText
    ensures AnalyzeIntended(filename, content, jobDescription, extractText, extractKeywords, comparisonRaises)
         == Analyze(filename, content, jobDescription, extractText, extractKeywords, comparisonRaises)
  {
  }

  /** Empty résumé text is no error: the handler goes on to keyword
      extraction and, if that and the comparison succeed, answers with the
      comparison. */
  lemma EmptyTextProceeds(filename: Option<string>, content: seq<bv8>, jobDescription: string,
                          extractText: (seq<bv8>, string) -> Extraction,
                          extractKeywords: string -> Option<set<string>>)
    requires ValidateFilename(filename).Ok? && extractText(content, filename.value) == Text([])
    requires extractKeywords([]).Some? && extractKeywords(jobDescription).Some?
    ensures Analyze(filename, content, jobDescription, extractText, extractKeywords, false)
         == Json(CompareKeywords(KeywordSet(extractKeywords([]).value), KeywordSet(extractKeywords(jobDescription).value)))
  {
  }

  /** The uploaded file: its name and bytes, a read position, and whether it
      has been closed. */
  class Upload {
    const filename: Option<string>
    const content: seq<bv8>
    var position: nat
    var closed: bool

    ghost predicate Valid()
      reads this
    {
      position <= |content|
    }

    constructor (filename: Option<string>, content: seq<bv8>)
      ensures this.filename == filename && this.content == content
      ensures Valid() && position == 0 && !closed
    {
      this.filename := filename;
      this.content := content;
      position := 0;
      closed := false;
    }

    /** `await read()`: the bytes from the current position to the end. */
    method Read() returns (data: seq<bv8>)
      requires Valid() && !closed
      modifies this`position
      ensures Valid() && data == content[old(position)..] && position == |content|
    {
      data := content[position..];
      position := |content|;
    }

    /** `await close()`. */
    method Close()
      modifies this`closed
      ensures closed
    {
      closed := true;
    }
  }

  /** `analyze_resume_and_jd`: answers as `Analyze` says, closes the upload
      whenever the name passed the checks (on every exit from the
      read/extract block), and neither reads nor closes it otherwise. */
  method AnalyzeResumeAndJd(upload: Upload, jobDescription: string,
                            extractText: (seq<bv8>, string) -> Extraction,
                            extractKeywords: string -> Option<set<string>>,
                            comparisonRaises: bool) returns (response: Response)
    requires upload.Valid() && !upload.closed && upload.position == 0
    modifies upload
    ensures response == Analyze(upload.filename, upload.content, jobDescription,
                                extractText, extractKeywords, comparisonRaises)
    ensures ValidateFilename(upload.filename).Ok? ==> upload.closed && upload.position == |upload.content|
    ensures ValidateFilename(upload.filename).Err? ==> !upload.closed && upload.position == 0
  {
    if upload.filename.None? || upload.filename.value == [] {
      return HttpError(400, NoFileName);
    }
    var name := upload.filename.value;
    if !HasAcceptedExtension(name) {
      return HttpError(400, InvalidFileType);
    }

    var resumeText: string := [];
    var raised: Option<Raised> := None;
    var resumeContent := upload.Read();
    match extractText(resumeContent, name) {
      case Text(text) =>
        resumeText := text;
      case NoText =>
        raised := Some(HttpRaised(422, CouldNotParse));
      case ExtractionRaised =>
        raised := Some(OtherRaised);
    }
    upload.Close();
    if raised.Some? {
      return CatchAsWritten(raised.value);
    }

    var resumeKeywords := extractKeywords(resumeText);
    if resumeKeywords.None? {
      return HttpError(500, KeywordAnalysisError);
    }
    var jdKeywords := extractKeywords(jobDescription);
    if jdKeywords.None? {
      return HttpError(500, KeywordAnalysisError);
    }
    if comparisonRaises {
      return HttpError(500, ComparisonError);
    }
    response := Json(CompareKeywords(KeywordSet(resumeKeywords.value), KeywordSet(jdKeywords.value)));
  }
}
