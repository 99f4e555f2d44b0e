/**
 * The Gemini OCR backend (`trivia-speed/scripts/ocr_and_gemini.py`): the JSON reply
 * read with defaults into an `OCRResult`, the line scanner used when the reply is not
 * JSON, and the way every failure leaves `extract_text_with_gemini` as a `ValueError`.
 */
module OcrGemini {
  import opened Wrappers
  import opened Text
  import opened Backend

  const Model := "gemini-2.0-flash"
  /** `GEMINI_MAX_TOKENS` when unset. */
  const DefaultMaxTokens := 10000
  /** `GEMINI_API_TIMEOUT` when unset, in seconds. */
  const DefaultApiTimeout := 15

  const MissingKeyMessage := "Gemini API key not found. Please set it in the .env file."
  const OuterPrefix := "Failed to prepare API request: "
  const ProcessPrefix := "Failed to process Gemini response: "
  const NoRationale := "Unable to determine rationale from response."

  // ---------------------------------------------------------------------------
  // The JSON path.
  // ---------------------------------------------------------------------------

  /** A JSON list whose items are all strings, as those strings. */
  function StringList(v: Json): (r: Option<seq<string>>)
    ensures r.Some? ==> v.JArr? && |r.value| == |v.items|
    ensures r.Some? ==> forall i :: 0 <= i < |v.items| ==> v.items[i] == JStr(r.value[i])
    ensures v.JArr? && (forall i :: 0 <= i < |v.items| ==> v.items[i].JStr?) ==> r.Some?
  {
    if v.JArr? && forall i :: 0 <= i < |v.items| ==> v.items[i].JStr? then
      Some(seq(|v.items|, i requires 0 <= i < |v.items| => v.items[i].s))
    else None
  }

  /** `OCRResult(question=result.get("question", ""), options=result.get("options", []), ...)`:
      missing fields take their defaults; a decoded value that is not an object, or a
      field of the wrong type, fails validation. */
  function OcrWithDefaults(v: Json): (r: Result<OcrResult, Fault>)
    ensures r.Success? <==> v.JObj? && StringField(v.fields, "question").Success?
                                    && StringList(GetOr(v.fields, "options", JArr([]))).Some?
                                    && StringField(v.fields, "rationale").Success?
                                    && StringField(v.fields, "answer").Success?
    ensures r.Success? ==> r.value == OcrResult(StringField(v.fields, "question").value,
                                                StringList(GetOr(v.fields, "options", JArr([]))).value,
                                                StringField(v.fields, "rationale").value,
                                                StringField(v.fields, "answer").value)
  {
    match v
    case JObj(fields) =>
      (match (StringField(fields, "question"), StringList(GetOr(fields, "options", JArr([]))),
              StringField(fields, "rationale"), StringField(fields, "answer"))
       case (Success(q), Some(opts), Success(rat), Success(ans)) => Success(OcrResult(q, opts, rat, ans))
       case (Failure(f), _, _, _) => Failure(f)
       case (_, None, _, _) => Failure(NotAStringList("options"))
       case (_, _, Failure(f), _) => Failure(f)
       case (_, _, _, Failure(f)) => Failure(f))
    case _ => Failure(NotAnObject)
  }

  // ---------------------------------------------------------------------------
  // The fallback for replies that are not JSON.
  // ---------------------------------------------------------------------------

  /** `line.split(":", 1)[1].strip() if ":" in line else otherwise`. */
  function ColonValue(line: string, otherwise: string): (v: string)
    ensures !Contains(line, ":") ==> v == otherwise
    ensures Contains(line, ":") ==> IsStripped(v)
  {
    match IndexFrom(line, ":", 0)
    case Some(i) => Strip(line[i + 1..])
    case None => otherwise
  }

  /** `"option" in line.lower() or (line and line[0].isalpha() and line[1:2] == '.')`. */
  predicate IsOptionLine(line: string) {
    Contains(Lower(line), "option") || (line != "" && IsAlpha(line[0]) && |line| >= 2 && line[1] == '.')
  }

  /** The text an option line contributes: after the first `:`, or from the third character on. */
  function OptionText(line: string): string {
    ColonValue(line, Strip(DropFrom(line, 2)))
  }

  /** The variables the loop updates. */
  datatype OcrScan = OcrScan(question: string, options: seq<string>, rationale: string, answer: string)

  /** One iteration of `for i, line in enumerate(lines)`: the tests run in the order
      question, option, answer, rationale, and the first that holds decides. In the
      last test `or` binds looser than `and`, so a `reason` line always sets the
      rationale and a `rationale` line only while it is empty. */
  function OcrStep(st: OcrScan, raw: string): OcrScan {
    var line := Strip(raw);
    var low := Lower(line);
    if Contains(low, "question") && st.question == "" then
      st.(question := ColonValue(line, line))
    else if IsOptionLine(line) then
      st.(options := st.options + [OptionText(line)])
    else if Contains(low, "answer") && st.answer == "" then
      st.(answer := ColonValue(line, line))
    else if Contains(low, "reason") || (Contains(low, "rationale") && st.rationale == "") then
      st.(rationale := ColonValue(line, line))
    else
      st
  }

  /** The loop run over `lines` from empty fields. */
  function OcrLines(lines: seq<string>): OcrScan
    decreases |lines|
  {
    if lines == [] then OcrScan("", [], "", "")
    else OcrStep(OcrLines(lines[..|lines| - 1]), lines[|lines| - 1])
  }

  /** Lines 196-204: the first line stands in for a missing question, the last line for
      a missing answer, and a fixed text for a missing rationale. */
  function OcrFinish(st: OcrScan, lines: seq<string>): OcrResult
    requires |lines| >= 1
  {
    OcrResult(if st.question == "" then lines[0] else st.question,
              st.options,
              if st.rationale == "" then NoRationale else st.rationale,
              if st.answer == "" then lines[|lines| - 1] else st.answer)
  }

  /** The fallback of lines 174-204 on the reply text. */
  function OcrFallback(text: string): OcrResult {
    OcrFinish(OcrLines(StrippedLines(text)), StrippedLines(text))
  }

  /** One more line scanned is one more step. */
  lemma OcrLinesPrefix(lines: seq<string>, i: nat)
    requires i < |lines|
    ensures OcrLines(lines[..i + 1]) == OcrStep(OcrLines(lines[..i]), lines[i])
  {
    assert lines[..i + 1][..i] == lines[..i];
  }

  /** The body of the loop. */
  method ScanOcrLine(st: OcrScan, raw: string) returns (st': OcrScan)
    ensures st' == OcrStep(st, raw)
  {
    var question, options, rationale, answer := st.question, st.options, st.rationale, st.answer;
    var line := Strip(raw);
    var low := Lower(line);
    if Contains(low, "question") && question == "" {
      question := ColonValue(line, line);
    } else if IsOptionLine(line) {
      var optionText := OptionText(line);
      options := options + [optionText];
    } else if Contains(low, "answer") && answer == "" {
      answer := ColonValue(line, line);
    } else if Contains(low, "reason") || (Contains(low, "rationale") && rationale == "") {
      rationale := ColonValue(line, line);
    }
    st' := OcrScan(question, options, rationale, answer);
  }

  /** The loop over the lines. */
  method ScanOcrLines(lines: seq<string>) returns (st: OcrScan)
    ensures st == OcrLines(lines)
  {
    st := OcrScan("", [], "", "");
    var i := 0;
    while i < |lines|
      invariant 0 <= i <= |lines|
      invariant st == OcrLines(lines[..i])
    {
      OcrLinesPrefix(lines, i);
      st := ScanOcrLine(st, lines[i]);
      i := i + 1;
    }
    assert lines[..|lines|] == lines;
  }

  /** The fallback as the source writes it: the loop, then the defaults patched in. */
  method ParseOcrText(text: string) returns (r: OcrResult)
    ensures r == OcrFallback(text)
  {
    var lines := StrippedLines(text);
    var st := ScanOcrLines(lines);
    var question := if st.question == "" then lines[0] else st.question;
    var answer := if st.answer == "" then lines[|lines| - 1] else st.answer;
    var rationale := if st.rationale == "" then NoRationale else st.rationale;
    r := OcrResult(question, st.options, rationale, answer);
  }

  /** The line mentions "question". */
  predicate MentionsQuestion(raw: string) {
    Contains(Lower(Strip(raw)), "question")
  }

  /** How one line changes the question: only a line mentioning "question" while
      none is set. */
  lemma QuestionStep(st: OcrScan, raw: string)
    ensures st.question != "" ==> OcrStep(st, raw).question == st.question
    ensures !MentionsQuestion(raw) ==> OcrStep(st, raw).question == st.question
    ensures st.question == "" && MentionsQuestion(raw) ==> OcrStep(st, raw).question == ColonValue(Strip(raw), Strip(raw))
  {
  }

  /** How a line that the question test does not claim changes the options. */
  lemma OptionsStep(st: OcrScan, raw: string)
    requires !(MentionsQuestion(raw) && st.question == "" && OptionLine(raw))
    ensures OcrStep(st, raw).options == st.options + (if OptionLine(raw) then [OptionOf(raw)] else [])
  {
  }

  /** The first line that mentions "question" supplies the question when its value is not
      empty, and no later line replaces it. */
  lemma FirstQuestionLineWins(lines: seq<string>, k: nat)
    requires k < |lines| && MentionsQuestion(lines[k])
    requires forall m :: 0 <= m < k ==> !MentionsQuestion(lines[m])
    requires ColonValue(Strip(lines[k]), Strip(lines[k])) != ""
    ensures OcrLines(lines).question == ColonValue(Strip(lines[k]), Strip(lines[k]))
  {
    QuestionScanned(lines);
    assert QuestionValue(lines[k]) != "";
    SettleFirst(MentionsQuestion, QuestionValue, lines, k);
  }

  /** The value a "question" line offers. */
  function QuestionValue(raw: string): string {
    ColonValue(Strip(raw), Strip(raw))
  }

  /** A field that the first line passing `p` with a non-empty value `v` sets for good:
      the way the loop follows the question. */
  function Settle(p: string -> bool, v: string -> string, lines: seq<string>): string
    decreases |lines|
  {
    if lines == [] then ""
    else
      var q := Settle(p, v, lines[..|lines| - 1]);
      var last := lines[|lines| - 1];
      if q == "" && p(last) then v(last) else q
  }

  /** The scan's question is the field `Settle` follows. */
  lemma {:induction false} QuestionScanned(lines: seq<string>)
    ensures OcrLines(lines).question == Settle(MentionsQuestion, QuestionValue, lines)
    decreases |lines|
  {
    if lines != [] {
      var init := lines[..|lines| - 1];
      QuestionScanned(init);
      QuestionStep(OcrLines(init), lines[|lines| - 1]);
    }
  }

  /** Before any line passes `p`, the field is empty. */
  lemma {:induction false} SettleNone(p: string -> bool, v: string -> string, lines: seq<string>)
    requires forall m :: 0 <= m < |lines| ==> !p(lines[m])
    ensures Settle(p, v, lines) == ""
    decreases |lines|
  {
    if lines != [] {
      var init := lines[..|lines| - 1];
      forall m | 0 <= m < |init| ensures !p(init[m]) {
        assert init[m] == lines[m];
      }
      SettleNone(p, v, init);
    }
  }

  /** The first line passing `p`, when its value is not empty, fixes the field. */
  lemma {:induction false} SettleFirst(p: string -> bool, v: string -> string, lines: seq<string>, k: nat)
    requires k < |lines| && p(lines[k]) && v(lines[k]) != ""
    requires forall m :: 0 <= m < k ==> !p(lines[m])
    ensures Settle(p, v, lines) == v(lines[k])
    decreases |lines|
  {
    var init := lines[..|lines| - 1];
    if k < |lines| - 1 {
      forall m | 0 <= m < k ensures !p(init[m]) {
        assert init[m] == lines[m];
      }
      assert init[k] == lines[k];
      SettleFirst(p, v, init, k);
    } else {
      forall m | 0 <= m < |init| ensures !p(init[m]) {
        assert init[m] == lines[m];
      }
      SettleNone(p, v, init);
    }
  }

  /** Without a line mentioning "question" the scan finds no question. */
  lemma {:induction false} NoQuestionLine(lines: seq<string>)
    requires forall m :: 0 <= m < |lines| ==> !MentionsQuestion(lines[m])
    ensures OcrLines(lines).question == ""
    decreases |lines|
  {
    if lines != [] {
      var init := lines[..|lines| - 1];
      forall m | 0 <= m < |init| ensures !MentionsQuestion(init[m]) {
        assert init[m] == lines[m];
      }
      NoQuestionLine(init);
    }
  }

  /** The line mentions "answer". */
  predicate MentionsAnswer(raw: string) {
    Contains(Lower(Strip(raw)), "answer")
  }

  /** The line reaches the answer test and passes it: neither the question test nor
      the option test claims it first, and it mentions "answer". */
  predicate AnswerTaken(st: OcrScan, raw: string) {
    !(MentionsQuestion(raw) && st.question == "") && !OptionLine(raw) && MentionsAnswer(raw)
  }

  /** How one line changes the answer: only a line that reaches the answer test while
      no answer is set. */
  lemma AnswerStep(st: OcrScan, raw: string)
    ensures st.answer != "" ==> OcrStep(st, raw).answer == st.answer
    ensures !AnswerTaken(st, raw) ==> OcrStep(st, raw).answer == st.answer
    ensures st.answer == "" && AnswerTaken(st, raw) ==> OcrStep(st, raw).answer == ColonValue(Strip(raw), Strip(raw))
  {
  }

  /** Before the first line that reaches the answer test, the answer is still empty. */
  lemma {:induction false} NoAnswerBefore(lines: seq<string>, k: nat)
    requires k <= |lines|
    requires forall m :: 0 <= m < k ==> !AnswerTaken(OcrLines(lines[..m]), lines[m])
    ensures OcrLines(lines[..k]).answer == ""
  {
    if k > 0 {
      NoAnswerBefore(lines, k - 1);
      OcrLinesPrefix(lines, k - 1);
      AnswerStep(OcrLines(lines[..k - 1]), lines[k - 1]);
    } else {
      assert lines[..0] == [];
    }
  }

  /** Once an answer is set, every later line keeps it. */
  lemma {:induction false} AnswerKept(lines: seq<string>, k: nat, j: nat)
    requires k <= j <= |lines|
    requires OcrLines(lines[..k]).answer != ""
    ensures OcrLines(lines[..j]).answer == OcrLines(lines[..k]).answer
    decreases j - k
  {
    if j > k {
      AnswerKept(lines, k, j - 1);
      OcrLinesPrefix(lines, j - 1);
      AnswerStep(OcrLines(lines[..j - 1]), lines[j - 1]);
    }
  }

  /** The first line that reaches the answer test supplies the answer when its value is
      not empty, and no later line replaces it. Lines that the question or option test
      claims first never set it. */
  lemma FirstAnswerLineWins(lines: seq<string>, k: nat)
    requires k < |lines|
    requires forall m :: 0 <= m < k ==> !AnswerTaken(OcrLines(lines[..m]), lines[m])
    requires AnswerTaken(OcrLines(lines[..k]), lines[k])
    requires ColonValue(Strip(lines[k]), Strip(lines[k])) != ""
    ensures OcrLines(lines).answer == ColonValue(Strip(lines[k]), Strip(lines[k]))
  {
    NoAnswerBefore(lines, k);
    AnswerSetAt(lines, k);
  }

  /** A line that reaches the answer test while the answer is empty sets it for good. */
  lemma AnswerSetAt(lines: seq<string>, k: nat)
    requires k < |lines|
    requires OcrLines(lines[..k]).answer == ""
    requires AnswerTaken(OcrLines(lines[..k]), lines[k])
    requires ColonValue(Strip(lines[k]), Strip(lines[k])) != ""
    ensures OcrLines(lines).answer == ColonValue(Strip(lines[k]), Strip(lines[k]))
  {
    var st := OcrLines(lines[..k]);
    OcrLinesPrefix(lines, k);
    AnswerStep(st, lines[k]);
    assert OcrLines(lines[..k + 1]).answer == ColonValue(Strip(lines[k]), Strip(lines[k]));
    AnswerKept(lines, k + 1, |lines|);
    assert lines[..|lines|] == lines;
  }

  /** Each line adds at most one option. */
  lemma {:induction false} OptionsBounded(lines: seq<string>)
    ensures |OcrLines(lines).options| <= |lines|
    decreases |lines|
  {
    if lines != [] {
      OptionsBounded(lines[..|lines| - 1]);
    }
  }

  /** The stripped line is an option line. */
  predicate OptionLine(raw: string) {
    IsOptionLine(Strip(raw))
  }

  /** The option a line contributes, read from the stripped line. */
  function OptionOf(raw: string): string {
    OptionText(Strip(raw))
  }

  /** The options are exactly the option lines' texts, in input order
      (`[text(l) for l in lines if is_option(l)]`), provided the question test claims no
      option line first: an option line that mentions "question" comes after the
      question is set. */
  lemma {:induction false} OptionsInOrder(lines: seq<string>)
    requires forall m :: 0 <= m < |lines| && OptionLine(lines[m]) && MentionsQuestion(lines[m]) ==>
               OcrLines(lines[..m]).question != ""
    ensures OcrLines(lines).options == FilterMap(OptionLine, OptionOf, lines)
    decreases |lines|
  {
    if lines != [] {
      var init := lines[..|lines| - 1];
      forall m | 0 <= m < |init| && OptionLine(init[m]) && MentionsQuestion(init[m])
        ensures OcrLines(init[..m]).question != ""
      {
        assert init[m] == lines[m];
        assert init[..m] == lines[..m];
      }
      OptionsInOrder(init);
      FilterMapLast(OptionLine, OptionOf, lines);
      assert lines[..|lines| - 1] == init;
      OptionsStep(OcrLines(init), lines[|lines| - 1]);
    }
  }

  /** A `reason` line that no earlier test claims always sets the rationale, whatever
      was there, and changes nothing else. */
  lemma ReasonOverwrites(st: OcrScan, raw: string)
    requires var low := Lower(Strip(raw));
             !(Contains(low, "question") && st.question == "") && !IsOptionLine(Strip(raw))
             && !(Contains(low, "answer") && st.answer == "") && Contains(low, "reason")
    ensures OcrStep(st, raw) == st.(rationale := ColonValue(Strip(raw), Strip(raw)))
  {
  }

  /** A `rationale` line without `reason` fills the rationale only while it is empty: once
      it is set, such a line changes nothing. */
  lemma RationaleKeepsFirst(st: OcrScan, raw: string)
    requires var low := Lower(Strip(raw));
             !(Contains(low, "question") && st.question == "") && !IsOptionLine(Strip(raw))
             && !(Contains(low, "answer") && st.answer == "") && !Contains(low, "reason")
    requires st.rationale != ""
    ensures OcrStep(st, raw) == st
  {
  }

  /** The returned rationale is never empty, and the fields the scan left empty are the
      first line, the last line and the fixed text. */
  lemma OcrFallbackDefaults(text: string)
    ensures OcrFallback(text).rationale != ""
    ensures var lines := StrippedLines(text);
            var st := OcrLines(lines);
            (st.question == "" ==> OcrFallback(text).question == lines[0]) &&
            (st.answer == "" ==> OcrFallback(text).answer == lines[|lines| - 1]) &&
            (st.rationale == "" ==> OcrFallback(text).rationale == NoRationale)
  {
  }

  // ---------------------------------------------------------------------------
  // `extract_text_with_gemini`.
  // ---------------------------------------------------------------------------

  /** The inner `try`: the reply decoded, else the fallback; a fault is an exception. */
  function Process(text: string, loads: Decoder): Result<OcrResult, string> {
    match loads(text)
    case None => Success(OcrFallback(text))
    case Some(v) =>
      match OcrWithDefaults(v)
      case Success(r) => Success(r)
      case Failure(f) => Failure(Describe(f))
  }

  /** `extract_text_with_gemini`. A missing key raises before any request; every other
      failure, the timeout included, is rewrapped by the outer handler, so the function
      raises nothing but `ValueError`. */
  function ExtractTextWithGemini(apiKey: Option<string>, timeout: int, reply: Reply, loads: Decoder)
    : (r: Result<OcrResult, BackendError>)
    ensures !KeyPresent(apiKey) ==> r == Failure(ValueError(MissingKeyMessage))
    ensures r.Failure? ==> r.error.ValueError?
    ensures KeyPresent(apiKey) && r.Failure? ==> StartsWith(r.error.message, OuterPrefix)
    ensures KeyPresent(apiKey) ==> (r.Success? <==> reply.Reply? && Process(reply.content, loads).Success?)
    ensures KeyPresent(apiKey) && r.Success? ==> reply.Reply? && r.value == Process(reply.content, loads).value
  {
    if !KeyPresent(apiKey) then Failure(ValueError(MissingKeyMessage))
    else
      match reply
      case TimedOut =>
        Failure(ValueError(OuterPrefix + "Gemini API request timed out after " + IntToString(timeout) + " seconds"))
      case PrepFailed(m) => Failure(ValueError(OuterPrefix + m))
      case Raised(m) => Failure(ValueError(OuterPrefix + ProcessPrefix + m))
      case Reply(text) =>
        match Process(text, loads)
        case Success(r) => Success(r)
        case Failure(m) => Failure(ValueError(OuterPrefix + ProcessPrefix + m))
  }

  /** A reply that is not JSON never fails, and its rationale is never empty. */
  lemma NonJsonNeverFails(apiKey: Option<string>, timeout: int, text: string, loads: Decoder)
    requires KeyPresent(apiKey) && loads(text).None?
    ensures ExtractTextWithGemini(apiKey, timeout, Reply(text), loads) == Success(OcrFallback(text))
    ensures ExtractTextWithGemini(apiKey, timeout, Reply(text), loads).value.rationale != ""
  {
    OcrFallbackDefaults(text);
  }

  /** The timeout raised inside is rewrapped with the outer prefix. */
  lemma TimeoutBecomesValueError(apiKey: Option<string>, timeout: int, loads: Decoder)
    requires KeyPresent(apiKey)
    ensures ExtractTextWithGemini(apiKey, timeout, TimedOut, loads)
            == Failure(ValueError(OuterPrefix + "Gemini API request timed out after " + IntToString(timeout) + " seconds"))
  {
  }

  /** A failure before the request is rewrapped once, by the outer handler only. */
  lemma PrepFailureWrappedOnce(apiKey: Option<string>, timeout: int, m: string, loads: Decoder)
    requires KeyPresent(apiKey)
    ensures ExtractTextWithGemini(apiKey, timeout, PrepFailed(m), loads) == Failure(ValueError(OuterPrefix + m))
    ensures ExtractTextWithGemini(apiKey, timeout, Raised(m), loads) == Failure(ValueError(OuterPrefix + ProcessPrefix + m))
  {
  }

  /** A JSON reply whose fields read with the `.get` defaults is returned as exactly
      that OCR result. */
  lemma JsonReplyReturned(apiKey: Option<string>, timeout: int, text: string, v: Json, o: OcrResult,
                          loads: Decoder)
    requires KeyPresent(apiKey) && loads(text) == Some(v) && OcrWithDefaults(v) == Success(o)
    ensures ExtractTextWithGemini(apiKey, timeout, Reply(text), loads) == Success(o)
  {
  }

  /** A JSON object without any of the four fields reads as the all-default result. */
  lemma JsonFieldsDefault(apiKey: Option<string>, timeout: int, text: string, loads: Decoder)
    requires KeyPresent(apiKey) && loads(text) == Some(JObj(map[]))
    ensures ExtractTextWithGemini(apiKey, timeout, Reply(text), loads) == Success(OcrResult("", [], "", ""))
  {
  }
}
