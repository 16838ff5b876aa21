/**
 * Text extraction from an uploaded PDF or DOCX file (`extract_text_from_pdf`,
 * `extract_text_from_docx`). The parser libraries are not modelled: a parsed document is
 * given as the sequence of its page (PDF) or paragraph (DOCX) texts, each of which may
 * instead raise, and opening the document may itself raise.
 */
module Extract {
  import opened Results
  import opened Http
  import opened PyText

  datatype Format = Pdf | Docx

  /** One page's `extract_text()` or one paragraph's `text`, or the exception reading it raised. */
  datatype Part = Text(text: string) | Raises(cause: string)

  /** The parser's view of the file: its parts in document order, or the exception opening it raised. */
  datatype Parsed = Opened(parts: seq<Part>) | Unreadable(cause: string)

  function FormatName(format: Format): string {
    match format
    case Pdf => "PDF"
    case Docx => "DOCX"
  }

  function FailurePrefix(format: Format): string {
    "Failed to extract text from " + FormatName(format) + ": "
  }

  /** What one part adds to the text: nothing when empty, otherwise the text and a newline. */
  function Piece(t: string): string {
    if t == "" then "" else t + "\n"
  }

  /** One iteration of the loop, from the text so far (or an exception already met). */
  function Step(acc: Result<string, string>, part: Part): (r: Result<string, string>)
    ensures acc.Failure? ==> r == acc
    ensures acc.Success? ==> (r.Failure? <==> part.Raises?)
    ensures r.Success? ==> acc.value <= r.value
  {
    if acc.Failure? then acc
    else if part.Raises? then Failure(part.cause)
    else Success(acc.value + Piece(part.text))
  }

  /**
   * The accumulated `text` after the loop has visited `parts`, or the cause of the first
   * exception it met.
   */
  function Scan(parts: seq<Part>): (r: Result<string, string>)
    ensures r.Success? <==> forall k :: 0 <= k < |parts| ==> parts[k].Text?
    ensures r.Failure? ==> exists k ::
      && 0 <= k < |parts| && parts[k].Raises? && parts[k].cause == r.error
      && forall j :: 0 <= j < k ==> parts[j].Text?
  {
    if parts == [] then Success("") else Step(Scan(parts[..|parts| - 1]), parts[|parts| - 1])
  }

  /** The extractor's result: the stripped text, or a 400 error naming the format and the cause. */
  function ExtractSpec(format: Format, doc: Parsed): (r: Result<string, HttpError>)
    ensures r.Success? ==> Strip(r.value) == r.value
    ensures r.Failure? ==> r.error.status == 400 && FailurePrefix(format) <= r.error.detail
  {
    match doc
    case Unreadable(cause) => Failure(HttpError(400, FailurePrefix(format) + cause))
    case Opened(parts) =>
      match Scan(parts)
      case Failure(cause) => Failure(HttpError(400, FailurePrefix(format) + cause))
      case Success(text) => StripIdempotent(text); Success(Strip(text))
  }

  /** Once an exception has been met, later parts do not matter. */
  lemma {:induction false} ScanFailureSticks(parts: seq<Part>, n: int)
    requires 0 <= n <= |parts|
    requires Scan(parts[..n]).Failure?
    ensures Scan(parts) == Scan(parts[..n])
    decreases |parts|
  {
    if n < |parts| {
      assert parts[..|parts| - 1][..n] == parts[..n];
      ScanFailureSticks(parts[..|parts| - 1], n);
    } else {
      assert parts[..n] == parts;
    }
  }

  /** Visiting one more part that does not raise adds its piece. */
  lemma ScanStep(parts: seq<Part>, i: int)
    requires 0 <= i < |parts| && parts[i].Text? && Scan(parts[..i]).Success?
    ensures Scan(parts[..i + 1]) == Success(Scan(parts[..i]).value + Piece(parts[i].text))
    ensures parts[i].text != "" ==> Scan(parts[..i + 1]).value == Scan(parts[..i]).value + parts[i].text + "\n"
    ensures parts[i].text == "" ==> Scan(parts[..i + 1]).value == Scan(parts[..i]).value
  {
    assert parts[..i + 1][..i] == parts[..i];
  }

  /** Visiting a part that raises ends the scan with its cause, whatever follows. */
  lemma ScanStopsAt(parts: seq<Part>, i: int)
    requires 0 <= i < |parts| && parts[i].Raises? && Scan(parts[..i]).Success?
    ensures Scan(parts) == Failure(parts[i].cause)
  {
    assert parts[..i + 1][..i] == parts[..i];
    ScanFailureSticks(parts, i + 1);
  }

  /**
   * The loop of `extract_text_from_pdf` / `extract_text_from_docx`: appends each non-empty
   * part and a newline, strips the result, and turns any exception into a 400 error.
   */
  method ExtractText(format: Format, doc: Parsed) returns (r: Result<string, HttpError>)
    ensures r == ExtractSpec(format, doc)
  {
    if doc.Unreadable? {
      return Failure(HttpError(400, FailurePrefix(format) + doc.cause));
    }
    var parts := doc.parts;
    var text := "";
    var i := 0;
    while i < |parts|
      invariant 0 <= i <= |parts|
      invariant Scan(parts[..i]) == Success(text)
    {
      match parts[i]
      case Raises(cause) =>
        ScanStopsAt(parts, i);
        return Failure(HttpError(400, FailurePrefix(format) + cause));
      case Text(t) =>
        ScanStep(parts, i);
        if t != "" {
          text := text + t + "\n";
        }
        i := i + 1;
    }
    assert parts[..i] == parts;
    r := Success(Strip(text));
  }

  // ---------------------------------------------------------------------------------
  // Reference definition: the non-empty texts joined by newlines, then stripped.

  /** `"\n".join(lines)`. */
  function JoinLines(lines: seq<string>): string {
    if lines == [] then ""
    else if |lines| == 1 then lines[0]
    else JoinLines(lines[..|lines| - 1]) + "\n" + lines[|lines| - 1]
  }

  /** The texts of the parts, in order, leaving out the empty ones. */
  function NonEmptyTexts(parts: seq<Part>): seq<string> {
    if parts == [] then []
    else
      var last := parts[|parts| - 1];
      NonEmptyTexts(parts[..|parts| - 1]) + (if last.Text? && last.text != "" then [last.text] else [])
  }

  /** When nothing raises, the loop builds the non-empty texts joined by newlines, plus one final newline. */
  lemma {:induction false} ScanIsJoin(parts: seq<Part>)
    requires forall k :: 0 <= k < |parts| ==> parts[k].Text?
    ensures var lines := NonEmptyTexts(parts);
      Scan(parts) == Success(if lines == [] then "" else JoinLines(lines) + "\n")
  {
    if parts != [] {
      var init := parts[..|parts| - 1];
      ScanIsJoin(init);
      var lines := NonEmptyTexts(init);
      var last := parts[|parts| - 1].text;
      var before := if lines == [] then "" else JoinLines(lines) + "\n";
      assert Scan(parts) == Success(before + Piece(last));
      if last != "" {
        assert NonEmptyTexts(parts) == lines + [last];
        if lines != [] {
          assert (lines + [last])[..|lines|] == lines;
          assert JoinLines(lines + [last]) == JoinLines(lines) + "\n" + last;
          assert before + Piece(last) == JoinLines(lines + [last]) + "\n";
        } else {
          assert before + Piece(last) == JoinLines([last]) + "\n";
        }
      } else {
        assert NonEmptyTexts(parts) == lines;
        assert before + Piece(last) == before;
      }
    }
  }

  /**
   * Extraction succeeds exactly when the document opens and no part raises, and then yields
   * the non-empty texts, in order, joined by newlines and stripped.
   */
  lemma ExtractIsStrippedJoin(format: Format, doc: Parsed)
    ensures ExtractSpec(format, doc).Success? <==>
      doc.Opened? && forall k :: 0 <= k < |doc.parts| ==> doc.parts[k].Text?
    ensures ExtractSpec(format, doc).Success? ==>
      ExtractSpec(format, doc).value == Strip(JoinLines(NonEmptyTexts(doc.parts)))
  {
    if doc.Opened? {
      var parts := doc.parts;
      if forall k :: 0 <= k < |parts| ==> parts[k].Text? {
        ScanIsJoin(parts);
        var lines := NonEmptyTexts(parts);
        if lines != [] {
          assert AllSpace("\n");
          StripDropsTrailingSpace(JoinLines(lines), "\n");
        }
      } else {
        var k :| 0 <= k < |parts| && parts[k].Raises?;
        ExtractFailsAtRaise(format, parts, k);
      }
    }
  }

  /** A part that raises fails the extraction, with the first such part's cause after the prefix. */
  lemma ExtractFailsAtRaise(format: Format, parts: seq<Part>, k: int)
    requires 0 <= k < |parts| && parts[k].Raises?
    ensures ExtractSpec(format, Opened(parts)).Failure?
    ensures (forall j :: 0 <= j < k ==> parts[j].Text?) ==>
      ExtractSpec(format, Opened(parts)) == Failure(HttpError(400, FailurePrefix(format) + parts[k].cause))
  {
    var i := 0;
    while i < k && Scan(parts[..i + 1]).Success?
      invariant 0 <= i <= k
      invariant Scan(parts[..i]).Success?
    {
      i := i + 1;
    }
    assert parts[..i + 1][..i] == parts[..i];
    ScanFailureSticks(parts, i + 1);
  }

  /** Non-empty parts that neither start nor end with whitespace come out exactly newline-joined. */
  lemma {:induction false} JoinUnstripped(lines: seq<string>)
    requires lines != []
    requires forall k :: 0 <= k < |lines| ==> lines[k] != ""
    requires !IsSpace(lines[0][0]) && !IsSpace(lines[|lines| - 1][|lines[|lines| - 1]| - 1])
    ensures Strip(JoinLines(lines)) == JoinLines(lines)
  {
    var j := JoinLines(lines);
    JoinEnds(lines);
    StripNoOp(j);
  }

  lemma {:induction false} JoinEnds(lines: seq<string>)
    requires lines != []
    requires forall k :: 0 <= k < |lines| ==> lines[k] != ""
    ensures var j := JoinLines(lines);
      j != [] && j[0] == lines[0][0] && j[|j| - 1] == lines[|lines| - 1][|lines[|lines| - 1]| - 1]
  {
    if |lines| > 1 {
      JoinEnds(lines[..|lines| - 1]);
    }
  }

  /** Parts holding only whitespace leave only whitespace behind. */
  lemma {:induction false} ScanBlank(parts: seq<Part>)
    requires forall k :: 0 <= k < |parts| ==> parts[k].Text? && AllSpace(parts[k].text)
    ensures Scan(parts).Success? && AllSpace(Scan(parts).value)
  {
    if parts != [] {
      var init := parts[..|parts| - 1];
      ScanBlank(init);
      var acc, piece := Scan(init).value, Piece(parts[|parts| - 1].text);
      assert AllSpace(piece);
      forall k | 0 <= k < |acc + piece| ensures IsSpace((acc + piece)[k]) {
        if k >= |acc| { assert (acc + piece)[k] == piece[k - |acc|]; }
      }
    }
  }

  /** A document whose pages or paragraphs hold only whitespace (or that has none) extracts to the empty text. */
  lemma BlankPartsExtractEmpty(format: Format, parts: seq<Part>)
    requires forall k :: 0 <= k < |parts| ==> parts[k].Text? && AllSpace(parts[k].text)
    ensures ExtractSpec(format, Opened(parts)) == Success("")
  {
    ScanBlank(parts);
    StripEmptyIff(Scan(parts).value);
  }

  /** A single part that neither starts nor ends with whitespace extracts to itself. */
  lemma OnePage(format: Format, t: string)
    requires t != "" && !IsSpace(t[0]) && !IsSpace(t[|t| - 1])
    ensures ExtractSpec(format, Opened([Text(t)])) == Success(t)
  {
    var parts := [Text(t)];
    assert NonEmptyTexts(parts) == [t];
    ExtractIsStrippedJoin(format, Opened(parts));
    JoinUnstripped([t]);
  }

  /** One page reading "Hello World" extracts to "Hello World". */
  lemma OnePageHelloWorld()
    ensures ExtractSpec(Pdf, Opened([Text("Hello World")])) == Success("Hello World")
  {
    OnePage(Pdf, "Hello World");
  }

  /** Three non-empty paragraphs, the first and last without surrounding whitespace, come out newline-joined in order. */
  lemma ThreeParagraphs(a: string, b: string, c: string)
    requires a != "" && b != "" && c != ""
    requires !IsSpace(a[0]) && !IsSpace(c[|c| - 1])
    ensures ExtractSpec(Docx, Opened([Text(a), Text(b), Text(c)])) == Success(a + "\n" + b + "\n" + c)
  {
    var parts := [Text(a), Text(b), Text(c)];
    ThreeTexts(a, b, c);
    assert forall k :: 0 <= k < |parts| ==> parts[k].Text?;
    ExtractIsStrippedJoin(Docx, Opened(parts));
    assert ExtractSpec(Docx, Opened(parts)) == Success(Strip(JoinLines([a, b, c])));
    var j := a + "\n" + b + "\n" + c;
    assert j[0] == a[0] && j[|j| - 1] == c[|c| - 1];
    StripNoOp(j);
    assert Strip(JoinLines([a, b, c])) == JoinLines([a, b, c]);
  }

  lemma ThreeTexts(a: string, b: string, c: string)
    requires a != "" && b != "" && c != ""
    ensures NonEmptyTexts([Text(a), Text(b), Text(c)]) == [a, b, c]
    ensures JoinLines([a, b, c]) == a + "\n" + b + "\n" + c
  {
    var p1, p2, p3 := [Text(a)], [Text(a), Text(b)], [Text(a), Text(b), Text(c)];
    assert p1[..0] == [] && p2[..1] == p1 && p3[..2] == p2;
    assert NonEmptyTexts(p1) == [a];
    assert NonEmptyTexts(p2) == [a] + [b];
    assert NonEmptyTexts(p3) == [a, b] + [c];
    assert [a, b, c][..2] == [a, b] && [a, b][..1] == [a];
    assert JoinLines([a, b]) == a + "\n" + b;
  }
}
