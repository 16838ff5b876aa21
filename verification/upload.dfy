/**
 * The `POST /upload` endpoint: the checks it runs, in order, each with its own error, and
 * the single append to the catalog once every check has passed. What the server's
 * surroundings decide (whether the temporary file re-opens, what the parser sees, the
 * generated id and timestamp, the inference service's replies) is an `Environment` parameter.
 */
module Upload {
  import opened Results
  import opened Http
  import opened PyText
  import opened Extract
  import opened Annotate
  import opened Catalog

  const PdfType := "application/pdf"
  const DocxType := "application/vnd.openxmlformats-" + "officedocument.wordprocessingml." + "document"

  const InvalidTypeMessage := "Invalid file type. " + "Only PDF and DOCX files are allowed."
  const EmptyFileMessage := "The file is empty."
  const NoTextMessage := "Failed to extract text from the file. " + "The file may be empty or unsupported."
  const UnexpectedPrefix := "An unexpected error occurred: "

  /** The multipart upload: its declared content type, its file name and its bytes. */
  datatype UploadedFile = UploadedFile(contentType: string, filename: string, content: seq<bv8>)

  /**
   * What the endpoint does not decide itself: the exception re-opening the temporary file
   * raises (if any), the parser's view of the file, the generated id and upload date, and
   * the inference service's reply to each request body.
   */
  datatype Environment = Environment(
    reopenFailure: Option<string>,
    parsed: Parsed,
    documentId: string,
    uploadDate: string,
    infer: Payload -> Reply)

  /** The extractor a content type selects; only the PDF and DOCX MIME types select one. */
  function FormatOf(contentType: string): (f: Option<Format>)
    ensures f.Some? <==> contentType == PdfType || contentType == DocxType
    ensures f == Some(Pdf) <==> contentType == PdfType
  {
    if contentType == PdfType then Some(Pdf)
    else if contentType == DocxType then Some(Docx)
    else None
  }

  /**
   * The record `upload_file` stores for a file whose extracted text is `text`: the generated id
   * and date, the file name as title, and the two annotators' answers, computed as written.
   */
  function Record(file: UploadedFile, env: Environment, text: string): (d: DocumentMetadata)
    ensures d.id == env.documentId && d.title == file.filename && d.uploadDate == env.uploadDate
    ensures d.category != "" && SingleLine(d.category)
    ensures d.summary != "" && SingleLine(d.summary)
  {
    DocumentMetadata(
      env.documentId,
      file.filename,
      env.uploadDate,
      CategorizeAsWritten(env.infer(CategoryPayload(text)), CategoryPrompt(text)),
      SummarizeAsWritten(env.infer(SummaryPayload(text)), SummaryPrompt(text)))
  }

  /** The record with the echo removal corrected in both annotators. */
  function RecordWithCorrection(file: UploadedFile, env: Environment, text: string): (d: DocumentMetadata)
    ensures d.id == env.documentId && d.title == file.filename && d.uploadDate == env.uploadDate
    ensures d.category != "" && SingleLine(d.category)
    ensures d.summary != "" && SingleLine(d.summary)
  {
    DocumentMetadata(
      env.documentId,
      file.filename,
      env.uploadDate,
      Categorize(env.infer(CategoryPayload(text)), CategoryPrompt(text)),
      Summarize(env.infer(SummaryPayload(text)), SummaryPrompt(text)))
  }

  /**
   * The response to one upload. The content type is checked first, then the payload, then
   * extraction (400 for a parser error, 500 when the temporary file cannot be re-opened), then
   * the extracted text; only when every check passes is a record produced, carrying the
   * generated id and date, the file name as title, and a one-line category and summary.
   */
  function Outcome(file: UploadedFile, env: Environment): (r: Result<DocumentMetadata, HttpError>)
    ensures FormatOf(file.contentType).None? ==> r == Failure(HttpError(400, InvalidTypeMessage))
    ensures FormatOf(file.contentType).Some? && file.content == [] ==>
      r == Failure(HttpError(400, EmptyFileMessage))
    ensures r.Failure? ==>
      r.error.status == 400 || (r.error.status == 500 && UnexpectedPrefix <= r.error.detail)
    ensures r.Success? <==>
      && FormatOf(file.contentType).Some?
      && file.content != []
      && env.reopenFailure.None?
      && ExtractSpec(FormatOf(file.contentType).value, env.parsed).Success?
      && ExtractSpec(FormatOf(file.contentType).value, env.parsed).value != ""
    ensures r.Success? ==>
      && r.value.id == env.documentId
      && r.value.title == file.filename
      && r.value.uploadDate == env.uploadDate
      && r.value.category != "" && SingleLine(r.value.category)
      && r.value.summary != "" && SingleLine(r.value.summary)
  {
    match FormatOf(file.contentType)
    case None => Failure(HttpError(400, InvalidTypeMessage))
    case Some(format) =>
      if file.content == [] then Failure(HttpError(400, EmptyFileMessage))
      else if env.reopenFailure.Some? then Failure(HttpError(500, UnexpectedPrefix + env.reopenFailure.value))
      else
        match ExtractSpec(format, env.parsed)
        case Failure(e) => Failure(e)
        case Success(text) =>
          if text == "" then Failure(HttpError(400, NoTextMessage))
          else Success(Record(file, env, text))
  }

  /**
   * `upload_file` against the catalog: the response is `Outcome`, a successful upload appends
   * exactly its record at the end, and a rejected one leaves the catalog as it was.
   */
  method UploadFile(store: DocumentStore, file: UploadedFile, env: Environment)
    returns (r: Result<DocumentMetadata, HttpError>)
    modifies store
    ensures r == Outcome(file, env)
    ensures r.Success? ==> store.documents == old(store.documents) + [r.value]
    ensures r.Failure? ==> store.documents == old(store.documents)
  {
    var format := FormatOf(file.contentType);
    if format.None? {
      return Failure(HttpError(400, InvalidTypeMessage));
    }
    if file.content == [] {
      return Failure(HttpError(400, EmptyFileMessage));
    }
    if env.reopenFailure.Some? {
      return Failure(HttpError(500, UnexpectedPrefix + env.reopenFailure.value));
    }
    var extracted := ExtractText(format.value, env.parsed);
    if extracted.Failure? {
      return Failure(extracted.error);
    }
    var text := extracted.value;
    if text == "" {
      return Failure(HttpError(400, NoTextMessage));
    }
    var category := CategorizeAsWritten(env.infer(CategoryPayload(text)), CategoryPrompt(text));
    var summary := SummarizeAsWritten(env.infer(SummaryPayload(text)), SummaryPrompt(text));
    var document := DocumentMetadata(env.documentId, file.filename, env.uploadDate, category, summary);
    store.Append(document);
    r := Success(document);
  }

  /** A file that passes the type and size checks but whose pages or paragraphs are blank is rejected as having no text. */
  lemma BlankDocumentRejected(file: UploadedFile, env: Environment)
    requires FormatOf(file.contentType).Some? && file.content != [] && env.reopenFailure.None?
    requires env.parsed.Opened?
    requires forall k :: 0 <= k < |env.parsed.parts| ==>
      env.parsed.parts[k].Text? && AllSpace(env.parsed.parts[k].text)
    ensures Outcome(file, env) == Failure(HttpError(400, NoTextMessage))
  {
    BlankPartsExtractEmpty(FormatOf(file.contentType).value, env.parsed.parts);
  }

  /**
   * As written, when the inference service echoes each prompt back, the stored record's
   * category and summary are the prompts' instruction sentences, not the fallbacks.
   */
  lemma EchoingServiceStoresInstructions(file: UploadedFile, env: Environment)
    requires forall p :: env.infer(p) == Dict(Candidate(Some(p.inputs)))
    requires Outcome(file, env).Success?
    ensures Outcome(file, env).value.category == CategoryInstruction
    ensures Outcome(file, env).value.summary == SummaryInstruction
  {
    var text := ExtractSpec(FormatOf(file.contentType).value, env.parsed).value;
    CategoryEchoLeaks(text);
    SummaryEchoLeaks(text);
  }

  /**
   * With the correction, when the inference service only echoes its prompt back (up to
   * surrounding whitespace), the record gets the fallback category and summary.
   */
  lemma EchoingServiceFallsBackWithCorrection(file: UploadedFile, env: Environment, text: string)
    requires forall p :: Strip(GeneratedText(env.infer(p))) == Strip(p.inputs)
    ensures RecordWithCorrection(file, env, text).category == CategoryFallback
    ensures RecordWithCorrection(file, env, text).summary == SummaryFallback
  {
    EchoFallsBack(env.infer(CategoryPayload(text)), CategoryPrompt(text));
    EchoFallsBack(env.infer(SummaryPayload(text)), SummaryPrompt(text));
  }

  /** Uploading a record with a fresh id and then deleting that id leaves the catalog as it was. */
  lemma UploadThenDelete(docs: seq<DocumentMetadata>, file: UploadedFile, env: Environment)
    requires Outcome(file, env).Success? && !HasId(docs, env.documentId)
    ensures Without(docs + [Outcome(file, env).value], env.documentId) == docs
  {
    AppendThenDelete(docs, Outcome(file, env).value);
  }
}
