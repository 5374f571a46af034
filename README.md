# Résumé analyser: keyword comparison and the `/analyze/` handler

This project models the core of a small résumé analyser in Dafny. The service
takes an uploaded résumé (PDF or DOCX) and a job-description text. It extracts
keywords from both. Then it reports which job-description keywords the résumé
has (matched), which it lacks (missing), and an integer match score.

Two pieces are modelled.

- **The comparison** (`compare_keywords`, module `Analysis`). It coerces both
  keyword collections to sets and splits the job-description set into
  matched and missing. Each list comes back sorted. The score is
  `round(|matched| / |jd| * 100)`. With no job-description keywords, the score
  is 100 if the résumé has none either and 0 otherwise. Three support modules
  model the Python builtins the function relies on:
  - `StringOrder`: `<` on `str`, code point by code point.
  - `Sorting`: `sorted`, and the canonical ascending list of a set.
  - `Rounding`: `round`, which rounds halves to even.
- **The request handler** (`analyze_resume_and_jd`, module `Handler`). It
  validates the file name, reads and closes the upload, and calls the text
  and keyword extractors. Then it maps each stage's outcome to an HTTP status.
  The pure function `Analyze` is the decision ladder. The method
  `AnalyzeResumeAndJd` runs the same ladder against an `Upload` object whose
  `read` and `close` change its state. It is proved to answer as `Analyze`
  says and to leave the upload closed on every exit from the read/extract
  block.

The external collaborators are parameters of the handler, not models:
- the text extractor, a function from bytes and file name to text, `None`
  or an exception;
- the keyword extractor, a function from text to a keyword set or an
  exception;
- whether the comparison raises.

The comparison does no case folding. The keyword extractor lower-cases its
output, so a keyword list given straight to the comparison keeps `"JAVA"`
and `"java"` apart. `ExampleDuplicatesAndCase` shows this: `["java", "java",
"JAVA"]` against `{"java"}` scores 50, not 100.

## Model

| member | source | states |
|---|---|---|
| `StringOrder.Precedes` | backend/app/analysis.py:63-64 | `a < b` on strings holds exactly when `a` is a proper prefix of `b`, or `a` has the smaller code point at the first position where they differ |
| `StringOrder.Irreflexive` | backend/app/analysis.py:63-64 | no string comes before itself under Python's `str` order |
| `StringOrder.Transitive` | backend/app/analysis.py:63-64 | the `str` order is transitive |
| `StringOrder.Total` | backend/app/analysis.py:63-64 | any two distinct strings are ordered one way or the other, so `sorted` output is well defined |
| `Sorting.Sort` | backend/app/analysis.py:63-64 | `sorted(xs)` is an ascending permutation of `xs` |
| `Sorting.SortedList` | backend/app/analysis.py:63-64 | the sorted list of a set is strictly ascending and holds each element of the set exactly once |
| `Sorting.AscendingPermutationUnique` | backend/app/analysis.py:63-64 | two ascending lists that are permutations of each other are equal |
| `Sorting.IterationOrderIrrelevant` | backend/app/analysis.py:50-64 | `sorted(list(s))` is the same for every order in which the set `s` is listed |
| `Sorting.SortedListCanonical` | backend/app/analysis.py:63-64 | any strictly ascending list of exactly the elements of `s` is the sorted list of `s` |
| `Rounding.RoundHalfEven` | backend/app/analysis.py:56 | `round(num/den)` is a nearest integer to `num/den`, and the even one at an exact half |
| `Rounding.RoundingUnique` | backend/app/analysis.py:56 | the nearest-integer and ties-to-even conditions determine the rounding uniquely |
| `Rounding.RoundHalfEvenMonotone` | backend/app/analysis.py:56 | a larger numerator never rounds lower |
| `Rounding.RoundHalfEvenOfInteger` | backend/app/analysis.py:56 | an integer-valued ratio rounds to itself |
| `Rounding.HalfEvenExamples` | backend/app/analysis.py:56 | 12.5 rounds to 12, 37.5 to 38 and 66.67 to 67 |
| `Analysis.AsSet` | backend/app/analysis.py:47-48 | a set is kept as it is; a list becomes the set of exactly its entries, never larger than the list |
| `Analysis.MatchScore` | backend/app/analysis.py:54-59 | the score is at most 100; for a non-empty job description it is the half-to-even rounding of 100·\|jd ∩ résumé\|/\|jd\|; for an empty one it is 100 exactly when the résumé set is empty, and 0 otherwise |
| `Analysis.CompareKeywords` | backend/app/analysis.py:46-65 | matched is strictly ascending and holds exactly jd ∩ résumé; missing is strictly ascending and holds exactly jd \ résumé; the score is the half-to-even rounded percentage of `len(matched)` over `len(jd)`; with an empty jd it is 100 for an empty résumé set and 0 otherwise |
| `Analysis.Partition` | backend/app/analysis.py:50-51 | matched and missing are disjoint, together they are exactly the job-description set, and their lengths add up to its size |
| `Analysis.FullMatch` | backend/app/analysis.py:50-56 | a non-empty job description contained in the résumé set scores 100 with nothing missing |
| `Analysis.NoMatch` | backend/app/analysis.py:50-56 | a non-empty job description disjoint from the résumé set scores 0 with nothing matched |
| `Analysis.ScoreMonotone` | backend/app/analysis.py:50-56 | for a fixed non-empty job description, a résumé with at least as many matched keywords scores at least as high (the matched list's length is the intersection's size) |
| `Analysis.OutsideKeywordsIrrelevant` | backend/app/analysis.py:50-56 | with a non-empty job description, résumé keywords outside it leave the whole result unchanged |
| `Analysis.EmptyJobDescription` | backend/app/analysis.py:54-59 | an empty job description gives empty lists, and a score of 100 for an empty résumé set and 0 otherwise |
| `Analysis.DuplicatesIrrelevant` | backend/app/analysis.py:47-48 | lists are coerced to sets first: lists with the same entries, however often repeated, give the same result as each other and as their set |
| `Analysis.IterationOrderIrrelevantForResult` | backend/app/analysis.py:50-64 | sorting any listing of the intersection and of the difference gives exactly the record `CompareKeywords` returns |
| `Analysis.ExamplePartialMatch` | backend/app/analysis.py:46-65 | {python, aws, docker} against {python, aws, kubernetes} gives 67, [aws, python], [kubernetes] |
| `Analysis.ExampleEmptyResume` | backend/app/analysis.py:46-65 | no résumé keywords against {python, aws} gives 0, [], [aws, python] |
| `Analysis.ExampleDuplicatesAndCase` | backend/app/analysis.py:47-65 | the list [java, java, JAVA] is coerced to the two-element set {java, JAVA}; against {java} it gives 50, [java], [JAVA] |
| `Handler.Lower` | backend/app/main.py:36 | lower-casing keeps the length and lower-cases each character |
| `Handler.HasAcceptedExtension` | backend/app/main.py:36 | the extension check passes exactly when the name's last four or five characters, each lower-cased, spell `.pdf` or `.docx` |
| `Handler.UpperCasePdfAccepted` | backend/app/main.py:36-37 | `CV.PDF` passes the extension check |
| `Handler.DocRejected` | backend/app/main.py:36-37 | `cv.doc` fails the extension check |
| `Handler.ValidateFilename` | backend/app/main.py:33-37 | a name is accepted exactly when it is present, non-empty and has an accepted extension; otherwise the answer is a 400 |
| `Handler.ExtractBlock` | backend/app/main.py:39-43 | the read/extract block yields the extracted text exactly when the extractor gives text; `None` raises the 422 `HTTPException`; an extractor exception propagates as a non-HTTP exception |
| `Handler.CatchAsWritten` | backend/app/main.py:44-46 | `except Exception` turns every exception from the block, the 422 `HTTPException` included, into a 500 with the file-processing detail |
| `Handler.CatchIntended` | backend/app/main.py:44-46 | with `HTTPException` re-raised, it keeps its own status and detail; any other exception becomes a 500 with the file-processing detail |
| `Handler.AfterExtraction` | backend/app/main.py:50-69 | after extraction, the answer is the comparison of the two keyword sets exactly when both keyword extractions and the comparison succeed, and a 500 otherwise |
| `Handler.Analyze` | backend/app/main.py:33-69 | a missing or empty name gives 400 before anything else; a bad extension gives 400; as written every error is a 400 or a 500, never a 422, and every error after an accepted name is a 500; success happens exactly when every stage succeeds, and its body is `compare_keywords` of the extracted keyword sets |
| `Handler.AnalyzeIntended` | backend/app/main.py:33-46 | a rejected name answers the same 400 as the handler as written; with the `HTTPException` let through, unparseable text answers 422 and an extractor exception answers 500 |
| `Handler.NoTextAsWritten` | backend/app/main.py:41-46 | as written, `None` from the extractor answers 500; the intended ladder answers 422 |
| `Handler.IntendedDiffersOnlyOnNoText` | backend/app/main.py:39-46 | the intended and as-written ladders agree on every input except a `None` from the extractor |
| `Handler.EmptyTextProceeds` | backend/app/main.py:50-55 | empty extracted text is no error: the handler goes on and answers with the comparison |
| `Handler.Upload.constructor` | backend/app/main.py:22 | a fresh upload is open, at position 0, with the given name and bytes |
| `Handler.Upload.Read` | backend/app/main.py:40 | reading returns the bytes from the current position to the end and moves the position to the end |
| `Handler.Upload.Close` | backend/app/main.py:47-48 | closing marks the upload closed |
| `Handler.AnalyzeResumeAndJd` | backend/app/main.py:20-69 | the handler answers as `Analyze` says; once the name passes the checks the upload is read and then closed on every exit; a rejected name leaves the upload unread and open |

## Findings

| source | as written | input that shows it | evidently intended | confidence | as-written member | corrected member |
|---|---|---|---|---|---|---|
| backend/app/main.py:42-46 | the 422 `HTTPException` raised for unparseable text is inside the `try`, so `except Exception` turns it into a 500 | a `.pdf` name whose text extractor returns `None` | a 422 response with the "could not parse" detail, as the raise on line 43 and its message say | high; not executed | `Handler.NoTextAsWritten` | `Handler.AnalyzeIntended` |

`AnalyzeResumeAndJd` models the handler as written, so it answers with
`Analyze`. `AnalyzeIntended` is the corrected ladder, and
`IntendedDiffersOnlyOnNoText` shows it changes nothing else.

## Left out

- `Rounding.RoundHalfEven`: the source rounds the binary float `(m / n) * 100`. The model rounds the exact rational `100·m / n`. The two agree whenever the float is exact, for example when `n` is a power of two. At an exact half with another `n`, float error may tip the result to the other neighbour, and the model does not capture that.
- `Handler.Lower`: only ASCII `A`–`Z` are lower-cased. Python's `str.lower` also folds other scripts. The model leaves those characters unchanged.
- A failing `read()` (`main.py:40`, inside the `try`) is not modelled apart from the extractor: both are the `ExtractionRaised` outcome, which the `except Exception` turns into a 500 either way.
- `Handler.Upload.Read`: requires an open upload. Reading a closed upload raises in Python, but the handler never does so.
- Text extraction from PDF and DOCX bytes (`backend/app/parsing.py`) is not part of this model. It is a parameter of the handler. Its own extension dispatch repeats the check at `main.py:36`.
- Keyword extraction (`extract_keywords_yake`, `extract_entities_spacy`, `extract_combined_keywords`) and the module-level model loading are not part of this model. They wrap YAKE and spaCy. The handler takes keyword extraction as a parameter that yields a set or raises.
- Whether `compare_keywords` raises is a boolean input of the handler. On sets of strings the modelled comparison is total, so only failures outside the model could raise there, such as running out of memory.
- The `detail` messages are modelled by their kind, not their text. The exception text interpolated into them, the `print` logging and the warning for empty text are left out.
- FastAPI and uvicorn wiring, `read_root`, the pydantic `AnalysisResult` model and the `async` scheduling are left out. The handler is modelled as one sequential call.
- The frontend (`App.tsx`, `AnalysisForm.tsx`, `ResultsDisplay.tsx`) is React UI and `fetch` calls, and is not part of this model.
