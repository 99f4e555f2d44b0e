/**
 * The Mistral backend (`trivia-speed/scripts/mistral.py`): the JSON reply read with
 * defaults, the line scanner used when the reply is not JSON, and the way every
 * failure leaves `analyze_trivia_with_mistral` as a `ValueError`.
 */
module Mistral {
  import opened Wrappers
  import opened Text
  import opened Backend

  const Model := "pixtral-12b-2409"
  /** `MISTRAL_MAX_TOKENS` when unset. */
  const DefaultMaxTokens := 200
  /** `MISTRAL_API_TIMEOUT` when unset, in seconds. */
  const DefaultApiTimeout := 15

  const MissingKeyMessage := "Mistral API key not found. Please set it in the .env file."
  const OuterPrefix := "Failed to prepare API request: "
  const ProcessPrefix := "Failed to process Mistral response: "

  const AnswerLabel := "answer:"
  const RationaleLabel := "rationale:"

  // ---------------------------------------------------------------------------
  // The fallback for replies that are not JSON.
  // ---------------------------------------------------------------------------

  /** The two variables the fallback loop reassigns. */
  datatype Scan = Scan(rationale: string, answer: string)

  /** The text after the first `tag` of `low`, up to a second one, stripped:
      `low.split(tag)[1].strip()`. */
  function LabelValue(low: string, tag: string): (v: string)
    requires tag != [] && Contains(low, tag)
    ensures IsStripped(v)
  {
    Strip(SplitOn(low, tag)[1])
  }

  /** One iteration of the loop over the lines. `line.lower().startswith(l) or l in
      line.lower()` is the same test as `l in line.lower()`, and the split then always
      has a second piece. */
  function LabelStep(st: Scan, raw: string): Scan {
    var line := Strip(raw);
    var low := Lower(line);
    if Contains(low, AnswerLabel) then
      st.(answer := LabelValue(low, AnswerLabel))
    else if Contains(low, RationaleLabel) then
      st.(rationale := LabelValue(low, RationaleLabel))
    else if st.answer == "" && line != "" then
      st.(rationale := st.rationale + line + " ")
    else
      st
  }

  /** The loop run over `lines` from `rationale = ""`, `answer = ""`. */
  function ScanLines(lines: seq<string>): Scan
    decreases |lines|
  {
    if lines == [] then Scan("", "")
    else LabelStep(ScanLines(lines[..|lines| - 1]), lines[|lines| - 1])
  }

  /** Whether the labelled scan runs: the lower-cased reply mentions a label word. */
  predicate MentionsLabels(content: string) {
    Contains(Lower(content), "rationale") || Contains(Lower(content), "answer")
  }

  /** Without label words: the last line is the answer, the earlier ones the rationale. */
  function LastLineScan(content: string): Scan {
    var lines := StrippedLines(content);
    Scan(Strip(Join(" ", lines[..|lines| - 1])), Strip(lines[|lines| - 1]))
  }

  /** The scan that runs: the labelled one when the reply mentions a label word. */
  function ChosenScan(content: string): Scan {
    if MentionsLabels(content) then ScanLines(StrippedLines(content)) else LastLineScan(content)
  }

  /** Lines 191-195: the whole stripped reply stands in for a missing answer, and the
      rationale is stripped once more. */
  function Finish(st: Scan, content: string): Analysis {
    Analysis(Strip(st.rationale), if st.answer == "" then Strip(content) else st.answer)
  }

  /** The fallback of lines 166-195. */
  function FallbackAnalysis(content: string): Analysis {
    Finish(ChosenScan(content), content)
  }

  /** The returned rationale is stripped. */
  lemma FallbackRationaleStripped(content: string)
    ensures IsStripped(FallbackAnalysis(content).rationale)
  {
  }

  /** An answer is found exactly when the reply has a non-whitespace character. */
  lemma FallbackAnswerIff(content: string)
    ensures FallbackAnalysis(content).answer == "" <==> IsBlank(content)
  {
    var st := ChosenScan(content);
    FinishAnswer(st, content);
    if IsBlank(content) {
      BlankReplyScan(content);
    }
  }

  /** The answer is empty only when the scan found none and the reply is blank. */
  lemma FinishAnswer(st: Scan, content: string)
    ensures Finish(st, content).answer == "" <==> st.answer == "" && IsBlank(content)
  {
  }

  /** A blank reply is one empty line, and neither scan finds an answer in it. */
  lemma BlankReplyScan(content: string)
    requires IsBlank(content)
    ensures StrippedLines(content) == [""]
    ensures ScanLines(StrippedLines(content)).answer == "" && LastLineScan(content).answer == ""
  {
    assert Strip(content) == "";
    assert IndexFrom("", "\n", 0) == None;
    assert [""][..0] == [];
    assert Lower("") == "";
    assert !Contains("", AnswerLabel) && !Contains("", RationaleLabel);
  }

  /** One more line scanned is one more step. */
  lemma ScanLinesPrefix(lines: seq<string>, i: nat)
    requires i < |lines|
    ensures ScanLines(lines[..i + 1]) == LabelStep(ScanLines(lines[..i]), lines[i])
  {
    assert lines[..i + 1][..i] == lines[..i];
  }

  /** The body of the loop over the lines. */
  method ScanLine(rationale: string, answer: string, raw: string) returns (rationale': string, answer': string)
    ensures Scan(rationale', answer') == LabelStep(Scan(rationale, answer), raw)
  {
    rationale', answer' := rationale, answer;
    var line := Strip(raw);
    var low := Lower(line);
    if Contains(low, AnswerLabel) {
      var parts := SplitOn(low, AnswerLabel);
      if |parts| > 1 {
        answer' := Strip(parts[1]);
      }
    } else if Contains(low, RationaleLabel) {
      var parts := SplitOn(low, RationaleLabel);
      if |parts| > 1 {
        rationale' := Strip(parts[1]);
      }
    } else if answer == "" && line != "" {
      rationale' := rationale + line + " ";
    }
  }

  /** The `for line in lines` loop, run from two empty strings. */
  method ScanAll(lines: seq<string>) returns (rationale: string, answer: string)
    ensures Scan(rationale, answer) == ScanLines(lines)
  {
    rationale, answer := "", "";
    var i := 0;
    while i < |lines|
      invariant 0 <= i <= |lines|
      invariant Scan(rationale, answer) == ScanLines(lines[..i])
    {
      ScanLinesPrefix(lines, i);
      rationale, answer := ScanLine(rationale, answer, lines[i]);
      i := i + 1;
    }
    assert lines[..|lines|] == lines;
  }

  /** The fallback as the source writes it: a loop that reassigns the two variables. */
  method ScanFallback(content: string) returns (a: Analysis)
    ensures a == FallbackAnalysis(content)
  {
    var rationale, answer;
    if MentionsLabels(content) {
      rationale, answer := ScanAll(StrippedLines(content));
    } else {
      var st := LastLineScan(content);
      rationale, answer := st.rationale, st.answer;
    }
    if answer == "" {
      answer := Strip(content);
    }
    a := Analysis(Strip(rationale), answer);
  }

  /** A line holding `answer:` sets the answer and leaves the rationale alone, even when
      it also holds `rationale:`. */
  lemma AnswerLabelWins(st: Scan, raw: string)
    requires Contains(Lower(Strip(raw)), AnswerLabel)
    ensures LabelStep(st, raw) == Scan(st.rationale, LabelValue(Lower(Strip(raw)), AnswerLabel))
  {
  }

  /** A `rationale:` line without `answer:` replaces whatever rationale was gathered. */
  lemma RationaleLabelReplaces(st: Scan, raw: string)
    requires !Contains(Lower(Strip(raw)), AnswerLabel) && Contains(Lower(Strip(raw)), RationaleLabel)
    ensures LabelStep(st, raw) == Scan(LabelValue(Lower(Strip(raw)), RationaleLabel), st.answer)
  {
  }

  /** The line mentions the answer label. */
  predicate HasAnswerLabel(raw: string) {
    Contains(Lower(Strip(raw)), AnswerLabel)
  }

  /** The last `answer:` line decides the answer; earlier ones are overridden. */
  lemma {:induction false} LastAnswerLineWins(lines: seq<string>, k: nat)
    requires k < |lines| && HasAnswerLabel(lines[k])
    requires forall m :: k < m < |lines| ==> !HasAnswerLabel(lines[m])
    ensures ScanLines(lines).answer == LabelValue(Lower(Strip(lines[k])), AnswerLabel)
    decreases |lines|
  {
    var init := lines[..|lines| - 1];
    if k < |lines| - 1 {
      assert init[k] == lines[k];
      forall m | k < m < |init| ensures !HasAnswerLabel(init[m]) {
        assert init[m] == lines[m];
      }
      LastAnswerLineWins(init, k);
    }
  }

  /** Without any `answer:` line the scan leaves the answer empty. */
  lemma {:induction false} NoAnswerLine(lines: seq<string>)
    requires forall m :: 0 <= m < |lines| ==> !HasAnswerLabel(lines[m])
    ensures ScanLines(lines).answer == ""
    decreases |lines|
  {
    if lines != [] {
      var init := lines[..|lines| - 1];
      forall m | 0 <= m < |init| ensures !HasAnswerLabel(init[m]) {
        assert init[m] == lines[m];
      }
      NoAnswerLine(init);
    }
  }

  /** No character of `s` is an upper-case letter. */
  predicate NoUpper(s: string) {
    forall m :: 0 <= m < |s| ==> !IsUpper(s[m])
  }

  /** A labelled value is lower case: it is cut from the lower-cased line. */
  lemma LabelValueLower(low: string, tag: string)
    requires tag != [] && Contains(low, tag) && NoUpper(low)
    ensures NoUpper(LabelValue(low, tag))
  {
    var parts := SplitOn(low, tag);
    SplitOnChars(low, tag);
    var piece := parts[1];
    forall m | 0 <= m < |piece| ensures !IsUpper(piece[m]) {
      assert piece[m] in low;
    }
    StripChars(piece);
    forall m | 0 <= m < |Strip(piece)| ensures !IsUpper(Strip(piece)[m]) {
      assert Strip(piece)[m] in piece;
    }
  }

  /** Every answer the scan settles on is lower case, whatever the reply's case. */
  lemma {:induction false} ScanAnswerLower(lines: seq<string>)
    ensures NoUpper(ScanLines(lines).answer)
    decreases |lines|
  {
    if lines != [] {
      var init := lines[..|lines| - 1];
      ScanAnswerLower(init);
      var low := Lower(Strip(lines[|lines| - 1]));
      if Contains(low, AnswerLabel) {
        LabelValueLower(low, AnswerLabel);
      }
    }
  }

  /** A reply that mentions the labels and has an `answer:` line with a value returns
      that value lower-cased. */
  lemma LabelledAnswerLowerCase(content: string)
    requires MentionsLabels(content) && ScanLines(StrippedLines(content)).answer != ""
    ensures FallbackAnalysis(content).answer == ScanLines(StrippedLines(content)).answer
    ensures NoUpper(FallbackAnalysis(content).answer)
  {
    ScanAnswerLower(StrippedLines(content));
  }

  /** What an unlabelled line adds to the rationale: its stripped text and a space,
      or nothing when it is blank. */
  function Share(raw: string): string {
    if Strip(raw) != "" then Strip(raw) + " " else ""
  }

  /** The reference reading of unlabelled text: the shares of all the lines, in order,
      concatenated. */
  function Accumulated(lines: seq<string>): string {
    ConcatMap(Share, lines)
  }

  /** The line carries neither label. */
  predicate Unlabelled(raw: string) {
    !Contains(Lower(Strip(raw)), AnswerLabel) && !Contains(Lower(Strip(raw)), RationaleLabel)
  }

  /** An unlabelled line, while the answer is empty, appends its share. */
  lemma UnlabelledStep(st: Scan, raw: string)
    requires Unlabelled(raw) && st.answer == ""
    ensures LabelStep(st, raw) == Scan(st.rationale + Share(raw), "")
  {
  }

  /** Lines without labels only accumulate: the scan gathers exactly the reference text. */
  lemma {:induction false} UnlabelledAccumulate(lines: seq<string>)
    requires forall m :: 0 <= m < |lines| ==> Unlabelled(lines[m])
    ensures ScanLines(lines) == Scan(Accumulated(lines), "")
    decreases |lines|
  {
    if lines != [] {
      var init := lines[..|lines| - 1];
      var last := lines[|lines| - 1];
      forall m | 0 <= m < |init| ensures Unlabelled(init[m]) {
        assert init[m] == lines[m];
      }
      UnlabelledAccumulate(init);
      ConcatMapLast(Share, lines);
      UnlabelledStep(Scan(Accumulated(init), ""), last);
    }
  }

  /** The last line of a reply that is not blank has a non-whitespace character: the
      stripped reply ends with it. */
  lemma LastReplyLine(content: string)
    ensures var lines := StrippedLines(content);
            Strip(lines[|lines| - 1]) == "" ==> IsBlank(content)
  {
    var s := Strip(content);
    if s != "" {
      LastPieceNotBlank(s, '\n');
    }
  }

  /** Without label words the answer is the last line of the stripped reply and the
      rationale the earlier lines joined by single spaces, both stripped. */
  lemma NoLabelsLastLine(content: string)
    requires !MentionsLabels(content)
    ensures var lines := StrippedLines(content);
            FallbackAnalysis(content) == Analysis(Strip(Join(" ", lines[..|lines| - 1])), Strip(lines[|lines| - 1]))
  {
    var lines := StrippedLines(content);
    LastReplyLine(content);
    StripStripped(Strip(Join(" ", lines[..|lines| - 1])));
    assert IsBlank(content) ==> Strip(content) == "";
  }

  // ---------------------------------------------------------------------------
  // `analyze_trivia_with_mistral`.
  // ---------------------------------------------------------------------------

  /** The inner `try`: the reply decoded with `.get` defaults (`AnalysisWithDefaults`),
      else the fallback; a fault is an exception. */
  function Process(content: string, loads: Decoder): Result<Analysis, string> {
    match loads(content)
    case None => Success(FallbackAnalysis(content))
    case Some(v) =>
      match AnalysisWithDefaults(v)
      case Success(a) => Success(a)
      case Failure(f) => Failure(Describe(f))
  }

  /** `analyze_trivia_with_mistral`. A missing key raises before any request; every
      other failure, the timeout included, is rewrapped by the outer handler, so the
      function raises nothing but `ValueError`. */
  function AnalyzeTriviaWithMistral(apiKey: Option<string>, timeout: int, reply: Reply, loads: Decoder)
    : (r: Result<Analysis, BackendError>)
    ensures !KeyPresent(apiKey) ==> r == Failure(ValueError(MissingKeyMessage))
    ensures r.Failure? ==> r.error.ValueError?
    ensures KeyPresent(apiKey) && r.Failure? ==> StartsWith(r.error.message, OuterPrefix)
    ensures KeyPresent(apiKey) ==> (r.Success? <==> reply.Reply? && Process(reply.content, loads).Success?)
    ensures KeyPresent(apiKey) && r.Success? ==> reply.Reply? && r.value == Process(reply.content, loads).value
  {
    if !KeyPresent(apiKey) then Failure(ValueError(MissingKeyMessage))
    else
      match reply
      case TimedOut =>
        Failure(ValueError(OuterPrefix + "Mistral API request timed out after " + IntToString(timeout) + " seconds"))
      case PrepFailed(m) => Failure(ValueError(OuterPrefix + m))
      case Raised(m) => Failure(ValueError(OuterPrefix + ProcessPrefix + m))
      case Reply(content) =>
        match Process(content, loads)
        case Success(a) => Success(a)
        case Failure(m) => Failure(ValueError(OuterPrefix + ProcessPrefix + m))
  }

  /** A reply that is not JSON never fails: the fallback always yields an analysis, with
      an answer as soon as the reply has a non-whitespace character. */
  lemma NonJsonNeverFails(apiKey: Option<string>, timeout: int, content: string, loads: Decoder)
    requires KeyPresent(apiKey) && loads(content).None?
    ensures AnalyzeTriviaWithMistral(apiKey, timeout, Reply(content), loads) == Success(FallbackAnalysis(content))
    ensures !IsBlank(content) ==> AnalyzeTriviaWithMistral(apiKey, timeout, Reply(content), loads).value.answer != ""
  {
  }

  /** A failure before the request is rewrapped once, by the outer handler only. */
  lemma PrepFailureWrappedOnce(apiKey: Option<string>, timeout: int, m: string, loads: Decoder)
    requires KeyPresent(apiKey)
    ensures AnalyzeTriviaWithMistral(apiKey, timeout, PrepFailed(m), loads) == Failure(ValueError(OuterPrefix + m))
    ensures AnalyzeTriviaWithMistral(apiKey, timeout, Raised(m), loads) == Failure(ValueError(OuterPrefix + ProcessPrefix + m))
  {
  }

  /** The timeout raised inside is rewrapped with the outer prefix. */
  lemma TimeoutBecomesValueError(apiKey: Option<string>, timeout: int, loads: Decoder)
    requires KeyPresent(apiKey)
    ensures AnalyzeTriviaWithMistral(apiKey, timeout, TimedOut, loads)
            == Failure(ValueError(OuterPrefix + "Mistral API request timed out after " + IntToString(timeout) + " seconds"))
  {
  }

  /** A JSON reply whose fields read with the `.get` defaults is returned as exactly
      that analysis. */
  lemma JsonReplyReturned(apiKey: Option<string>, timeout: int, content: string, v: Json, a: Analysis,
                          loads: Decoder)
    requires KeyPresent(apiKey) && loads(content) == Some(v) && AnalysisWithDefaults(v) == Success(a)
    ensures AnalyzeTriviaWithMistral(apiKey, timeout, Reply(content), loads) == Success(a)
  {
  }

  /** A JSON object without either field reads as two empty strings. */
  lemma JsonFieldsDefault(apiKey: Option<string>, timeout: int, content: string, fields: map<string, Json>, loads: Decoder)
    requires KeyPresent(apiKey) && loads(content) == Some(JObj(fields))
    requires "rationale" !in fields && "answer" !in fields
    ensures AnalyzeTriviaWithMistral(apiKey, timeout, Reply(content), loads) == Success(Analysis("", ""))
  {
  }
}
