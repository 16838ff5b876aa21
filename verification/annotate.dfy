/**
 * The annotators `categorize_document` and `summarize_document`: the prompt each sends,
 * the decoding of the inference service's reply, and the post-processing that turns the
 * generated text into a single non-empty line. The HTTP call itself is not modelled: the
 * decoded JSON reply is a parameter.
 */
module Annotate {
  import opened Results
  import opened PyText

  /** One result object of the reply; its "generated_text" key may be missing. */
  datatype Candidate = Candidate(generatedText: Option<string>)

  /** The JSON reply: a list of result objects, a single object, or anything else. */
  datatype Reply = List(candidates: seq<Candidate>) | Dict(candidate: Candidate) | Other

  const CategoryFallback := "other"
  const SummaryFallback := "No summary available."

  /** The newline and four-space indentation that open every line of the prompts' triple-quoted f-strings. */
  const Margin := "\n    "

  // The prompt lines are written in pieces only to keep each literal short for the verifier.
  const CategoryInstruction := "Analyze the following document content " + "and suggest a category label "
    + "that best describes it."
  const CategoryRest := "The category should be " + "a single word or a short phrase."
    + Margin + "Respond with only the category " + "label and nothing else."
  const SummaryInstruction := "Summarize the following document content " + "in one sentence."
  const SummaryRest := "Respond with only the summary " + "and nothing else."

  /** The f-string prompt of `categorize_document`, embedding the document text. */
  function CategoryPrompt(content: string): (p: string)
    ensures |Margin| + |content| + |Margin| < |p|
    ensures p[..|Margin|] == Margin && p[|p| - |Margin|..] == Margin
    ensures p[|p| - |Margin| - |content|..|p| - |Margin|] == content
  {
    Margin + CategoryInstruction + Margin + CategoryRest
    + Margin + "Document Content: " + content + Margin
  }

  /** The f-string prompt of `summarize_document`, embedding the document text. */
  function SummaryPrompt(content: string): (p: string)
    ensures |Margin| + |content| + |Margin| < |p|
    ensures p[..|Margin|] == Margin && p[|p| - |Margin|..] == Margin
    ensures p[|p| - |Margin| - |content|..|p| - |Margin|] == content
  {
    Margin + SummaryInstruction + Margin + SummaryRest
    + Margin + "Document Content: " + content + Margin
  }

  /** The JSON body sent to the inference service: the prompt and the `max_length` parameter. */
  datatype Payload = Payload(inputs: string, maxLength: nat)

  /** The category request: the category prompt, with answers capped at 20 tokens. */
  function CategoryPayload(content: string): Payload {
    Payload(CategoryPrompt(content), 20)
  }

  /** The summary request: the summary prompt, with answers capped at 50 tokens. */
  function SummaryPayload(content: string): Payload {
    Payload(SummaryPrompt(content), 50)
  }

  /** `candidate.get("generated_text", "")`. */
  function TextOf(c: Candidate): string {
    match c.generatedText
    case Some(t) => t
    case None => ""
  }

  /** The generated text chosen from the reply, before any stripping. */
  function GeneratedText(reply: Reply): string {
    match reply
    case List(cs) => if |cs| > 0 then TextOf(cs[0]) else ""
    case Dict(c) => TextOf(c)
    case Other => ""
  }

  /** `raw.strip().replace(pattern, "").strip()`. */
  function Cleaned(raw: string, pattern: string): (c: string)
    ensures |c| <= |raw|
    ensures c != "" ==> !IsSpace(c[0]) && !IsSpace(c[|c| - 1])
  {
    Strip(RemoveAll(Strip(raw), pattern))
  }

  /**
   * The first line of the cleaned text, or `fallback` when that line is empty. It is the
   * fallback when the cleaned text is empty, and otherwise the cleaned text's first line, which
   * is non-empty. For a non-empty single-line fallback the result is never empty and never
   * holds a newline.
   */
  function Label(raw: string, pattern: string, fallback: string): (r: string)
    ensures fallback != "" ==> r != ""
    ensures SingleLine(fallback) ==> SingleLine(r)
    ensures Cleaned(raw, pattern) == "" ==> r == fallback
    ensures var c := Cleaned(raw, pattern);
      c != "" ==> r != "" && SingleLine(r) && |r| <= |c| && r == c[..|r|] && (|r| < |c| ==> c[|r|] == '\n')
  {
    var c := Cleaned(raw, pattern);
    var line := FirstLine(c);
    if line == "" then fallback else line
  }

  /** `categorize_document` as written: the prompt is removed from the already-stripped text. */
  function CategorizeAsWritten(reply: Reply, prompt: string): (r: string)
    ensures r != "" && SingleLine(r)
  {
    Label(GeneratedText(reply), prompt, CategoryFallback)
  }

  /** `summarize_document` as written. */
  function SummarizeAsWritten(reply: Reply, prompt: string): (r: string)
    ensures r != "" && SingleLine(r)
  {
    Label(GeneratedText(reply), prompt, SummaryFallback)
  }

  /**
   * `categorize_document` with the echo removal corrected: the stripped prompt is removed from
   * the stripped text. The result is a single non-empty line, and "other" when nothing but
   * whitespace and the prompt came back.
   */
  function Categorize(reply: Reply, prompt: string): (r: string)
    ensures r != "" && SingleLine(r)
    ensures Cleaned(GeneratedText(reply), Strip(prompt)) == "" ==> r == CategoryFallback
  {
    Label(GeneratedText(reply), Strip(prompt), CategoryFallback)
  }

  /** `summarize_document` with the echo removal corrected. */
  function Summarize(reply: Reply, prompt: string): (r: string)
    ensures r != "" && SingleLine(r)
    ensures Cleaned(GeneratedText(reply), Strip(prompt)) == "" ==> r == SummaryFallback
  {
    Label(GeneratedText(reply), Strip(prompt), SummaryFallback)
  }

  /** All four annotators give their fallbacks for `reply`. */
  predicate FallsBack(reply: Reply, prompt: string) {
    && Categorize(reply, prompt) == CategoryFallback
    && Summarize(reply, prompt) == SummaryFallback
    && CategorizeAsWritten(reply, prompt) == CategoryFallback
    && SummarizeAsWritten(reply, prompt) == SummaryFallback
  }

  /** A reply with no usable text gives the fallbacks, as written and corrected. */
  lemma NoTextFallsBack(reply: Reply, prompt: string)
    requires GeneratedText(reply) == ""
    ensures FallsBack(reply, prompt)
  {
    assert AllSpace("");
    StripEmptyIff("");
  }

  /**
   * The reply shapes that carry no text: an empty list, any value that is neither a list nor
   * a dict, a dict without "generated_text", and a list whose first result lacks it, whatever follows.
   */
  lemma MissingTextFallsBack(cs: seq<Candidate>, prompt: string)
    ensures FallsBack(List([]), prompt)
    ensures FallsBack(Other, prompt)
    ensures FallsBack(Dict(Candidate(None)), prompt)
    ensures FallsBack(List([Candidate(None)] + cs), prompt)
  {
    NoTextFallsBack(List([]), prompt);
    NoTextFallsBack(Other, prompt);
    NoTextFallsBack(Dict(Candidate(None)), prompt);
    NoTextFallsBack(List([Candidate(None)] + cs), prompt);
  }

  /** Only the first result of a list reply is read: it labels exactly like a dict holding that result. */
  lemma OnlyFirstCandidateRead(c: Candidate, cs: seq<Candidate>, prompt: string)
    ensures CategorizeAsWritten(List([c] + cs), prompt) == CategorizeAsWritten(Dict(c), prompt)
    ensures SummarizeAsWritten(List([c] + cs), prompt) == SummarizeAsWritten(Dict(c), prompt)
    ensures Categorize(List([c] + cs), prompt) == Categorize(Dict(c), prompt)
    ensures Summarize(List([c] + cs), prompt) == Summarize(Dict(c), prompt)
  {
    assert GeneratedText(List([c] + cs)) == TextOf(c);
  }

  /** With the correction, a reply that only echoes the prompt (up to surrounding whitespace) cleans to nothing. */
  lemma EchoCleansToNothing(raw: string, prompt: string)
    requires Strip(raw) == Strip(prompt)
    ensures Cleaned(raw, Strip(prompt)) == ""
  {
    var p := Strip(prompt);
    if p != "" {
      RemoveAllSelf(p);
    }
    assert AllSpace("");
    StripEmptyIff("");
  }

  /** With the correction, a reply that only echoes the prompt (up to surrounding whitespace) yields exactly the fallback. */
  lemma EchoFallsBack(reply: Reply, prompt: string)
    requires Strip(GeneratedText(reply)) == Strip(prompt)
    ensures Categorize(reply, prompt) == CategoryFallback
    ensures Summarize(reply, prompt) == SummaryFallback
  {
    EchoLabel(GeneratedText(reply), prompt, CategoryFallback);
    EchoLabel(GeneratedText(reply), prompt, SummaryFallback);
  }

  lemma EchoLabel(raw: string, prompt: string, fallback: string)
    requires Strip(raw) == Strip(prompt)
    ensures Label(raw, Strip(prompt), fallback) == fallback
  {
    EchoCleansToNothing(raw, prompt);
  }

  /** When the prompt has no surrounding whitespace the correction changes nothing. */
  lemma CorrectionAgreesOnTrimmedPrompts(reply: Reply, prompt: string)
    requires prompt != "" ==> !IsSpace(prompt[0]) && !IsSpace(prompt[|prompt| - 1])
    ensures Categorize(reply, prompt) == CategorizeAsWritten(reply, prompt)
    ensures Summarize(reply, prompt) == SummarizeAsWritten(reply, prompt)
  {
    StripNoOp(prompt);
  }

  /**
   * As written, a prompt that opens with `Margin`, a first line and `Margin` again is not removed
   * when echoed back: stripping the echo takes the margin off first, so the prompt no longer
   * occurs, and the label becomes the prompt's first line.
   */
  lemma EchoLeaksFirstLine(first: string, rest: string, fallback: string)
    requires first != "" && SingleLine(first) && !IsSpace(first[0])
    requires rest != "" && !IsSpace(rest[0])
    ensures var prompt := Margin + first + Margin + rest;
      Label(prompt, prompt, fallback) == first
  {
    var prompt := Margin + first + Margin + rest;
    var x := first + Margin + rest;
    assert AllSpace(Margin);
    assert prompt == Margin + x;
    var n := |first|;
    assert x[n + 5] == rest[0];
    StripAfterSpace(Margin, x, n + 5);
    var t := Strip(prompt);
    assert x[..n] == first && x[n] == '\n';
    assert t[..n] == t[..n + 6][..n] == x[..n + 6][..n];
    assert t[n] == t[..n + 6][n];
    FirstLineIff(t, first);
    RemoveAllShorter(t, prompt);
    StripIdempotent(prompt);
    assert Cleaned(prompt, prompt) == t;
  }

  /** Echoing the category prompt back makes the category its instruction sentence instead of "other". */
  lemma CategoryEchoLeaks(content: string)
    ensures CategorizeAsWritten(Dict(Candidate(Some(CategoryPrompt(content)))), CategoryPrompt(content))
      == CategoryInstruction
  {
    var rest := CategoryRest + Margin + "Document Content: " + content + Margin;
    assert rest[0] == 'T';
    assert CategoryPrompt(content) == Margin + CategoryInstruction + Margin + rest;
    EchoLeaksFirstLine(CategoryInstruction, rest, CategoryFallback);
  }

  /** Echoing the summary prompt back makes the summary its instruction sentence instead of the fallback. */
  lemma SummaryEchoLeaks(content: string)
    ensures SummarizeAsWritten(Dict(Candidate(Some(SummaryPrompt(content)))), SummaryPrompt(content))
      == SummaryInstruction
  {
    var rest := SummaryRest + Margin + "Document Content: " + content + Margin;
    assert rest[0] == 'R';
    assert SummaryPrompt(content) == Margin + SummaryInstruction + Margin + rest;
    EchoLeaksFirstLine(SummaryInstruction, rest, SummaryFallback);
  }
}
