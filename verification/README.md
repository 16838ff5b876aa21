# Document management backend — a Dafny model

This project models the request-handling core of a small document-management backend.
Users upload PDF or DOCX files. The server extracts the text and asks a hosted language
model for a category label and a one-sentence summary. It keeps one metadata record per
document in an in-memory catalog, which can be listed and filtered by id.

The model has six modules, one per file:

- `Results` and `Http` (`results.dfy`): `Option`, `Result`, and the status/detail pair of an HTTP error.
- `PyText` (`text.dfy`): the three Python string operations the core relies on, written
  index by index:
  - `str.strip()`, with Python's `isspace` code points;
  - `str.replace(pattern, "")`;
  - `str.split("\n")[0]`.
- `Extract` (`extract.dfy`): the PDF and DOCX extraction loops. The method `ExtractText`
  runs the loop, and `ExtractSpec` is the function it is proved against. The parser's view
  of a file is a sequence of page or paragraph texts, and any of them may raise instead.
- `Annotate` (`annotate.dfy`): the prompts, the decoding of the inference reply, and the
  strip / remove-prompt / first-line / fallback post-processing. The code as written is kept
  next to a corrected version (see Findings).
- `Catalog` (`catalog.dfy`): the `DocumentMetadata` record, and the `DocumentStore` class
  whose `documents` field is the server's global list.
- `Upload` (`upload.dfy`): the `POST /upload` pipeline.
  - `Outcome` is the response as a function of the upload and its environment.
  - `UploadFile` is the method that runs the checks in order against a `DocumentStore`, and
    appends only when all of them pass.

## Model

| member | source | states |
|---|---|---|
| PyText.SkipSpace | backend/main.py:125 | the index of the first non-whitespace character at or after `i`; every character skipped is whitespace |
| PyText.SkipSpaceBack | backend/main.py:125 | the end of a slice once its trailing whitespace is dropped; every character dropped is whitespace |
| PyText.Strip | backend/main.py:74 | `strip` never lengthens the text, and a non-empty result starts and ends with a character that is not whitespace |
| PyText.StripMeetsReference | backend/main.py:125 | `strip` returns a slice of its input; everything outside the slice is whitespace, and the slice is empty or starts and ends with non-whitespace |
| PyText.ReferenceIsStrip | backend/main.py:125 | any string meeting that reference definition equals `strip`'s result, so the definition determines `strip` |
| PyText.StripStartsSolid | backend/main.py:81 | a non-empty stripped string starts with a character that is not whitespace |
| PyText.StripIdempotent | backend/main.py:81 | stripping twice gives the same as stripping once |
| PyText.StripEmptyIff | backend/main.py:82 | `strip` gives the empty string exactly when the input is all whitespace |
| PyText.StripNoOp | backend/main.py:125 | a string that neither starts nor ends with whitespace is unchanged by `strip` |
| PyText.StripDropsTrailingSpace | backend/main.py:124-125 | whitespace appended to a text, such as the loop's final newline, never survives `strip` |
| PyText.StripAfterSpace | backend/main.py:74 | stripping leading whitespace off `w + x` keeps `x` at least up to any later non-whitespace character |
| PyText.RemoveFrom | backend/main.py:81 | removing a pattern from a suffix never lengthens it |
| PyText.RemoveAll | backend/main.py:81 | `replace(pattern, "")` never lengthens the text |
| PyText.RemoveFromUnchangedIff | backend/main.py:81 | removal leaves the suffix unchanged exactly when a non-empty pattern does not occur in it |
| PyText.RemoveAllUnchangedIff | backend/main.py:81 | `replace(pattern, "")` changes the text exactly when a non-empty pattern occurs in it |
| PyText.RemoveAllSelf | backend/main.py:81 | removing a non-empty text from itself leaves nothing |
| PyText.RemoveAllShorter | backend/main.py:81 | a pattern longer than the text leaves the text unchanged |
| PyText.NextNewline | backend/main.py:81 | the first newline at or after `i`, or the end; no newline comes before it |
| PyText.FirstLine | backend/main.py:81 | `split("\n")[0]` is a newline-free prefix of the text, followed in the text by a newline or by its end |
| PyText.FirstLineIff | backend/main.py:81 | `split("\n")[0]` is exactly the newline-free prefix that is followed by a newline or by the end of the text |
| Extract.ExtractSpec | backend/main.py:114-141 | extraction yields text that is already stripped, or a 400 error whose detail starts with "Failed to extract text from PDF: " or "... DOCX: " |
| Extract.Step | backend/main.py:121-124 | one iteration keeps an earlier exception, fails exactly when the part raises, and otherwise only extends the text |
| Extract.Scan | backend/main.py:121-127 | the loop finishes exactly when no part raises; otherwise its cause is that of the first part that raises, all parts before it having been read |
| Extract.ExtractText | backend/main.py:118-127 | the accumulation loop (append each non-empty part and a newline, strip, map any exception to a 400 error) returns exactly `ExtractSpec` |
| Extract.ScanFailureSticks | backend/main.py:126-127 | once a part raises, the parts after it do not change the outcome |
| Extract.ScanStep | backend/main.py:121-124 | a part that does not raise adds its text and a newline, or nothing when its text is empty |
| Extract.ScanStopsAt | backend/main.py:121-127 | the first part that raises ends the loop with its cause |
| Extract.ScanIsJoin | backend/main.py:133-139 | when nothing raises, the loop builds the non-empty texts joined by newlines, plus one final newline |
| Extract.ExtractIsStrippedJoin | backend/main.py:118-127 | extraction succeeds exactly when the file opens and no part raises; the text is then the non-empty parts, in order, newline-joined and stripped |
| Extract.ExtractFailsAtRaise | backend/main.py:140-141 | any raising part fails the extraction; the error names the format and the first raising part's cause |
| Extract.ScanBlank | backend/main.py:121-124 | parts holding only whitespace accumulate only whitespace |
| Extract.BlankPartsExtractEmpty | backend/main.py:118-125 | a document with no parts, or only blank ones, extracts to the empty text |
| Extract.JoinUnstripped | backend/main.py:136-139 | non-empty parts that do not start or end with whitespace come out newline-joined with nothing trimmed |
| Extract.JoinEnds | backend/main.py:136-138 | the joined text starts with the first part's first character and ends with the last part's last character |
| Extract.OnePage | backend/main.py:118-125 | a one-page PDF whose text has no surrounding whitespace extracts to exactly that text |
| Extract.OnePageHelloWorld | backend/main.py:118-125 | a PDF with one page reading "Hello World" extracts to "Hello World" |
| Extract.ThreeParagraphs | backend/main.py:133-139 | a DOCX with three non-empty paragraphs, the first not starting and the last not ending with whitespace, extracts to those paragraphs in order joined by newlines |
| Extract.ThreeTexts | backend/main.py:136-138 | three non-empty paragraphs are all kept, and are joined with two newlines |
| Annotate.CategoryPrompt | backend/main.py:57-62 | the category prompt ends with the document text followed by a newline and four spaces, and starts with a newline and four spaces of indentation |
| Annotate.SummaryPrompt | backend/main.py:88-92 | the summary prompt ends with the document text followed by a newline and four spaces, and starts with a newline and four spaces of indentation |
| Annotate.OnlyFirstCandidateRead | backend/main.py:73-76 | a list reply is read only through its first result: it labels exactly like a dict holding that result, whatever follows it, in all four annotators |
| Annotate.MissingTextFallsBack | backend/main.py:73-78 | an empty list, a reply that is neither list nor dict, a dict without "generated_text", and a list whose first result lacks it all give "other" and "No summary available.", as written and corrected |
| Annotate.Cleaned | backend/main.py:74-81 | the stripped, prompt-removed, stripped text is never longer than the reply and, when non-empty, starts and ends with non-whitespace |
| Annotate.Label | backend/main.py:81-82 | the label is the fallback when the cleaned text is empty; otherwise it is the cleaned text's first line, which is non-empty and holds no newline; the label is non-empty whenever the fallback is, and single-line whenever the fallback is |
| Annotate.CategorizeAsWritten | backend/main.py:53-82 | `categorize_document` as written always returns a non-empty, single-line label |
| Annotate.SummarizeAsWritten | backend/main.py:84-112 | `summarize_document` as written always returns a non-empty, single-line summary |
| Annotate.Categorize | backend/main.py:81-82 | the corrected categorizer returns a non-empty single line, and "other" whenever only whitespace and the prompt came back |
| Annotate.Summarize | backend/main.py:111-112 | the corrected summarizer returns a non-empty single line, and "No summary available." whenever only whitespace and the prompt came back |
| Annotate.NoTextFallsBack | backend/main.py:103-112 | any reply from which no text is decoded gives exactly the two fallbacks, both as written and corrected |
| Annotate.EchoCleansToNothing | backend/main.py:81 | with the correction, a reply that only echoes the prompt cleans to the empty text |
| Annotate.EchoLabel | backend/main.py:81-82 | with the correction, an echoed prompt yields exactly the fallback |
| Annotate.EchoFallsBack | backend/main.py:103-112 | with the correction, a reply that only echoes the prompt gives "other" and "No summary available." |
| Annotate.CorrectionAgreesOnTrimmedPrompts | backend/main.py:81 | for a prompt without surrounding whitespace, the correction changes nothing |
| Annotate.EchoLeaksFirstLine | backend/main.py:74-81 | as written, a prompt of the form margin, first line, margin, rest that is echoed back is not removed, and the label becomes its first line |
| Annotate.CategoryEchoLeaks | backend/main.py:57-82 | as written, echoing the category prompt makes the category the prompt's instruction sentence instead of "other" |
| Annotate.SummaryEchoLeaks | backend/main.py:88-112 | as written, echoing the summary prompt makes the summary the prompt's instruction sentence instead of the fallback |
| Catalog.Without | backend/main.py:206 | the filtered catalog is no longer than before and holds no record with the deleted id |
| Catalog.WithoutConcat | backend/main.py:206 | filtering distributes over concatenation, so the kept records keep their relative order |
| Catalog.WithoutMembership | backend/main.py:206 | a record survives exactly when it was in the catalog and carries a different id |
| Catalog.WithoutUnchangedIff | backend/main.py:204-207 | delete leaves the catalog unchanged exactly when no record carries the id |
| Catalog.WithoutIdempotent | backend/main.py:206 | deleting the same id twice equals deleting it once |
| Catalog.WithoutCommutes | backend/main.py:206 | deleting two ids gives the same catalog in either order |
| Catalog.WithoutSingle | backend/main.py:206 | a one-record catalog keeps its record exactly when the id differs |
| Catalog.AppendThenDelete | backend/main.py:195 | appending a record with a fresh id and then deleting that id restores the previous catalog |
| Catalog.DocumentStore.constructor | backend/main.py:33 | the catalog starts empty |
| Catalog.DocumentStore.Append | backend/main.py:195 | the new record goes at the end; the earlier records are unchanged and in the same order |
| Catalog.DocumentStore.List | backend/main.py:199-201 | listing returns the catalog as it is |
| Catalog.DocumentStore.Delete | backend/main.py:203-207 | the catalog becomes itself minus every record with the id, the others in their order; the message is "Document deleted successfully" whether or not anything matched |
| Upload.FormatOf | backend/main.py:146 | a content type selects an extractor exactly when it is the PDF or the DOCX MIME type; PDF only for `application/pdf` |
| Upload.Record | backend/main.py:179-194 | the stored record carries the generated id and date, the file name as title, and the as-written annotators' category and summary, each a non-empty single line |
| Upload.RecordWithCorrection | backend/main.py:184-185 | with the correction, the record has the same id, title and date, and a non-empty single-line category and summary |
| Upload.Outcome | backend/main.py:143-197 | the checks run in a fixed order: a wrong type gives 400 before the payload is looked at; then an empty payload gives 400 "The file is empty."; every failure is a 400, or a 500 with the "An unexpected error occurred: " prefix; success happens exactly when every check passes, and the record (built by the as-written annotators) then carries the generated id and date, the file name as title, and a non-empty single-line category and summary |
| Upload.UploadFile | backend/main.py:143-197 | the endpoint's response is `Outcome`; a success appends exactly its record at the end of the catalog; any failure leaves the catalog unchanged |
| Upload.BlankDocumentRejected | backend/main.py:175-176 | a valid, non-empty file whose pages or paragraphs are all blank is rejected with 400 and the "Failed to extract text from the file." message |
| Upload.EchoingServiceStoresInstructions | backend/main.py:179-197 | as written, when the inference service echoes each prompt back, a successful upload stores the prompts' instruction sentences as category and summary |
| Upload.EchoingServiceFallsBackWithCorrection | backend/main.py:184-185 | with the correction, an inference service that only echoes its prompt gives the record the fallback category and summary |
| Upload.UploadThenDelete | backend/main.py:195 | deleting the id of a freshly uploaded record restores the catalog from before the upload |

## Left out

- FastAPI routing, request and response serialisation, and CORS setup (backend/main.py:17-26, 143-144, 199-201, 209-211). An HTTP error is modelled only as its status and detail.
- The temporary file (`tempfile`, `write`, `os.unlink`) is not modelled. The model does not claim the file is always removed: the empty-file error at line 153 is raised before the `try`/`finally` that deletes it. A failure to re-open the file is the one way to reach the 500 branch. It appears as `Environment.reopenFailure`.
- Failures outside the handled paths are not modelled. These are a failed temp-file write or unlink, a list candidate that is not a dict, a `generated_text` that is not a string, and a network error. Each propagates to the framework's generic error response.
- The PyPDF2 and python-docx parsers are not modelled. A parsed file is given as its page or paragraph texts, any of which may raise instead.
- The HTTP call to the inference service (`query_hugging_face`, backend/main.py:42-51) is not modelled. The service is `Environment.infer`, a function from the request body to the decoded JSON reply.
- `uuid.uuid4()` and `datetime.now()` are not modelled. The id and upload date are `Environment` fields. The code does not enforce unique ids, and neither does the model. Lemmas that need a fresh id take it as a precondition.
- The `else: content = ""` branch (backend/main.py:165-166) is unreachable once the content type has been checked. The model selects the extractor from the checked format and has no such branch.
- Concurrent requests sharing the global list without locking are not modelled. Each operation is atomic in the model.
- backend/utils/openai_utils.py, the frontend and the code-generator scripts are not part of this model.
- CategoryPayload and SummaryPayload are plain definitions of the request bodies: the prompt, with `max_length` 20 or 50. The model name and the nesting under `parameters` are not modelled.
- The prompt texts are modelled only for the echo finding below. Their exact spacing matters there.

## Findings

| source | as written | input that shows it | evidently intended | confidence | as-written member | corrected member |
|---|---|---|---|---|---|---|
| backend/main.py:74-81 | the reply text is stripped, then the unstripped prompt, which starts and ends with `"\n    "`, is removed from it | a reply whose `generated_text` is exactly the category prompt: stripping removes the leading margin, so the prompt no longer occurs, and the category becomes "Analyze the following document content and suggest a category label that best describes it." | an echoed prompt is removed, and the category falls back to "other" | not executed | Annotate.CategoryEchoLeaks | Annotate.EchoFallsBack |
| backend/main.py:104-111 | the same order of strip and removal in the summarizer | a reply that is exactly the summary prompt gives the summary "Summarize the following document content in one sentence." | the summary falls back to "No summary available." | not executed | Annotate.SummaryEchoLeaks | Annotate.Summarize |

The corrected annotators remove the stripped prompt from the stripped reply. `Upload.Outcome` and `Upload.UploadFile` compute what the code computes, so they use the annotators as written; `Upload.RecordWithCorrection` is the record the corrected annotators would give.
