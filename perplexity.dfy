/**
 * The Perplexity backend (`trivia-speed/scripts/perplexity.py`): the request built
 * from the OCR result, the four-step fallback ladder that turns a
 * `sonar-reasoning` reply into JSON, and the mapping of HTTP outcomes to results.
 */
module Perplexity {
  import opened Wrappers
  import opened Text
  import opened Backend

  const DefaultModel := "sonar-pro"
  const ReasoningModel := "sonar-reasoning"
  /** `PERPLEXITY_MAX_TOKENS` when unset. */
  const DefaultMaxTokens := 10000
  /** `PERPLEXITY_API_TIMEOUT` when unset, in seconds. */
  const DefaultApiTimeout := 15
  const Temperature: real := 0.1

  /** The system prompt, section by section. */
  const SystemPrompt := RoleSection + TaskSection + FormatSection + ExampleSection
  const RoleSection := "\n# Role\nYou are an expert trivia player.\n\n"
  const TaskSection := TaskIntro + TaskSource + TaskUnknown
  const TaskIntro := TaskQuestion + TaskOptions
  const TaskQuestion := "# Task\nI will give you a trivia question that has been extracted using OCR. "
  const TaskOptions := "The question will include multiple choice options. \n"
  const TaskSource := "These questions are coming from Robinhood's trivia game " + "so they are mostly financial questions. \n"
  const TaskUnknown := "If you clearly do not know the answer, then say that you do not know.\n\n"
  const FormatSection := FormatIntro + FormatFields
  const FormatIntro := "# Output Format\n" + "You MUST provide your response in valid JSON format with these fields:\n"
  const FormatFields := RationaleField + AnswerField
  const RationaleField := "- \"rationale\": A very brief explanation (1-2 sentences)\n"
  const AnswerField := "- \"answer\": The final answer " + "(just the letter or specific answer word/phrase)\n\n"
  const ExampleSection := "Example:\n{\n" + ExampleRationale + "  \"answer\": \"Microsoft\"\n}\n"
  const ExampleRationale := "  \"rationale\": " + "\"Company X was founded in 1975 by Bill Gates and Paul Allen.\",\n"

  datatype Message = Message(role: string, content: string)

  /** The JSON body that is posted; `schemaFields` stands for the `TriviaAnalysis`
      JSON schema sent as `response_format`. */
  datatype Request = Request(model: string, messages: seq<Message>, maxTokens: int,
                             temperature: real, schemaFields: seq<string>)

  /** `f"{i+1}. {option}"` for each option, numbered from one. */
  function NumberedOptions(options: seq<string>): (lines: seq<string>)
    ensures |lines| == |options|
    ensures forall i :: 0 <= i < |options| ==> lines[i] == NatToString(i + 1) + ". " + options[i]
  {
    seq(|options|, i requires 0 <= i < |options| => NatToString(i + 1) + ". " + options[i])
  }

  function PromptHeader(question: string): string {
    "Question: " + question + "\n\nOptions:\n"
  }

  /** The user prompt: the question, then the numbered options one per line. */
  function UserPrompt(ocr: OcrResult): string {
    PromptHeader(ocr.question) + Join("\n", NumberedOptions(ocr.options))
  }

  /** `prepare_api_request`: one system and one user message, fixed temperature. */
  function PrepareRequest(ocr: OcrResult, model: string, maxTokens: int): (r: Request)
    ensures r.model == model && r.maxTokens == maxTokens && r.temperature == 0.1
    ensures |r.messages| == 2
    ensures r.messages[0] == Message("system", SystemPrompt)
    ensures r.messages[1].role == "user"
    ensures StartsWith(r.messages[1].content, "Question: " + ocr.question + "\n\nOptions:\n")
    ensures ocr.options == [] ==> r.messages[1].content == "Question: " + ocr.question + "\n\nOptions:\n"
    ensures r.messages[1].content == PromptHeader(ocr.question) + Join("\n", NumberedOptions(ocr.options))
    ensures r.schemaFields == ["rationale", "answer"]
  {
    var prompt := UserPrompt(ocr);
    assert prompt[..|PromptHeader(ocr.question)|] == PromptHeader(ocr.question);
    Request(model, [Message("system", SystemPrompt), Message("user", prompt)],
            maxTokens, Temperature, ["rationale", "answer"])
  }

  /** When no option spans lines, the text after the header splits into exactly the
      numbered option lines, in order, the i-th reading `"{i+1}. {option}"`. */
  lemma PromptOptionLines(ocr: OcrResult)
    requires |ocr.options| >= 1
    requires forall o :: o in ocr.options ==> '\n' !in o
    ensures var lines := Split(UserPrompt(ocr)[|PromptHeader(ocr.question)|..], '\n');
            |lines| == |ocr.options| &&
            forall i :: 0 <= i < |lines| ==> lines[i] == NatToString(i + 1) + ". " + ocr.options[i]
  {
    var numbered := NumberedOptions(ocr.options);
    forall l | l in numbered ensures '\n' !in l {
      var i :| 0 <= i < |numbered| && numbered[i] == l;
      var n := NatToString(i + 1);
      assert ocr.options[i] in ocr.options;
      assert l == n + ". " + ocr.options[i];
      forall m | 0 <= m < |l| ensures l[m] != '\n' {
        if m < |n| { assert l[m] == n[m] && IsDigit(n[m]); }
        else if m < |n| + 2 { assert l[m] == ". "[m - |n|]; }
        else { assert l[m] == ocr.options[i][m - |n| - 2]; }
      }
    }
    assert UserPrompt(ocr)[|PromptHeader(ocr.question)|..] == Join("\n", numbered);
    SplitJoin(numbered, '\n');
  }

  // ---------------------------------------------------------------------------
  // The fallback ladder of `extract_json_from_sonar_reasoning`.
  // ---------------------------------------------------------------------------

  const ThinkTag := "<think>"
  const JsonFence := "```json"
  const Fence := "```"
  const QuotedRationale := "\"rationale\""
  const QuotedAnswer := "\"answer\""

  /** Step 1's regex `json\s*(.*?)\s*` between fences, stripped: the text between the
      first "```json" and the first "```" after it. */
  function FenceBlock(content: string): (b: Option<string>)
    ensures b.Some? ==> IsStripped(b.value)
  {
    match IndexFrom(content, JsonFence, 0)
    case None => None
    case Some(p) =>
      match IndexFrom(content, Fence, p + |JsonFence|)
      case None => None
      case Some(f) => Some(Strip(content[p + |JsonFence|..f]))
  }

  /** The block exists exactly when a closing fence follows an opening one. */
  lemma FenceBlockExists(content: string)
    ensures FenceBlock(content).Some? <==>
            exists p, f :: OccursAt(content, JsonFence, p) && p + |JsonFence| <= f && OccursAt(content, Fence, f)
  {
    var p0 := IndexFrom(content, JsonFence, 0);
    if p0.Some? {
      var f0 := IndexFrom(content, Fence, p0.value + |JsonFence|);
      if f0.Some? {
        assert OccursAt(content, JsonFence, p0.value) && OccursAt(content, Fence, f0.value);
      }
    }
  }

  /** Step 2's regex `\{.*"rationale".*"answer".*\}` (DOTALL): from the first `{`, a
      quoted `rationale`, then a quoted `answer`, then a `}`; the match runs to the last `}`. */
  function BraceSpan(content: string): (r: Option<string>)
    ensures r.Some? ==> |r.value| >= 2 && r.value[0] == '{' && r.value[|r.value| - 1] == '}'
  {
    match IndexFrom(content, "{", 0)
    case None => None
    case Some(b) =>
      match IndexFrom(content, QuotedRationale, b + 1)
      case None => None
      case Some(i) =>
        match IndexFrom(content, QuotedAnswer, i + |QuotedRationale|)
        case None => None
        case Some(j) =>
          match LastIndexOf(content, '}')
          case None => None
          case Some(k) =>
            if k >= j + |QuotedAnswer| then
              assert content[b..b + 1] == "{";
              var span := content[b..k + 1];
              assert span[0] == content[b] && span[|span| - 1] == content[k];
              Some(span)
            else None
  }

  /** The span runs from the first `{` of the text to its last `}`. */
  lemma BraceSpanExtent(content: string)
    ensures BraceSpan(content).Some? ==>
              exists b, k :: 0 <= b <= k < |content| && BraceSpan(content).value == content[b..k + 1]
                             && content[b] == '{' && (forall m :: 0 <= m < b ==> content[m] != '{')
                             && content[k] == '}' && (forall m :: k < m < |content| ==> content[m] != '}')
  {
    if BraceSpan(content).Some? {
      var b := IndexFrom(content, "{", 0).value;
      var k := LastIndexOf(content, '}').value;
      assert content[b..b + 1] == "{";
      forall m | 0 <= m < b ensures content[m] != '{' {
        assert !OccursAt(content, "{", m);
        assert content[m..m + 1] == [content[m]];
      }
      assert BraceSpan(content).value == content[b..k + 1];
    }
  }

  /** The span exists exactly when the four pieces occur in that order. */
  lemma BraceSpanExists(content: string)
    ensures BraceSpan(content).Some? <==>
            exists b, i, j, k :: OccursAt(content, "{", b) && b < i && OccursAt(content, QuotedRationale, i)
                                 && i + |QuotedRationale| <= j && OccursAt(content, QuotedAnswer, j)
                                 && j + |QuotedAnswer| <= k < |content| && content[k] == '}'
  {
    var b0 := IndexFrom(content, "{", 0);
    if b0.Some? {
      var i0 := IndexFrom(content, QuotedRationale, b0.value + 1);
      if i0.Some? {
        var j0 := IndexFrom(content, QuotedAnswer, i0.value + |QuotedRationale|);
        if j0.Some? {
          var k0 := LastIndexOf(content, '}');
          if k0.Some? && k0.value >= j0.value + |QuotedAnswer| {
            assert OccursAt(content, "{", b0.value) && OccursAt(content, QuotedRationale, i0.value)
                   && OccursAt(content, QuotedAnswer, j0.value);
          }
        }
      }
    }
  }

  /** A text that is itself `{...}` with a quoted `rationale` before a quoted
      `answer` is its own span. */
  lemma BraceSpanWhole(content: string, i: nat, j: nat)
    requires |content| >= 2 && content[0] == '{' && content[|content| - 1] == '}'
    requires 1 <= i && OccursAt(content, QuotedRationale, i)
    requires i + |QuotedRationale| <= j && OccursAt(content, QuotedAnswer, j)
    requires j + |QuotedAnswer| <= |content| - 1
    ensures BraceSpan(content) == Some(content)
  {
    assert content[0..1] == "{";
    assert OccursAt(content, "{", 0);
    var i0 := IndexFrom(content, QuotedRationale, 1);
    var j0 := IndexFrom(content, QuotedAnswer, i0.value + |QuotedRationale|);
    assert j0.Some? && j0.value <= j;
    assert content[0..|content|] == content;
  }

  /** Index of the first non-whitespace character at or after `pos`. */
  function SkipSpaces(s: string, pos: nat): (e: nat)
    requires pos <= |s|
    ensures pos <= e <= |s|
    ensures forall m :: pos <= m < e ==> IsSpace(s[m])
    ensures e < |s| ==> !IsSpace(s[e])
    decreases |s| - pos
  {
    if pos < |s| && IsSpace(s[pos]) then SkipSpaces(s, pos + 1) else pos
  }

  /** The rest of step 3's regex, `\s*:\s*"([^"]*)"`, tried at `pos`: the capture, if it matches. */
  function PairValueAt(s: string, pos: nat): (r: Option<string>)
    requires pos <= |s|
    ensures r.Some? ==> forall m :: 0 <= m < |r.value| ==> r.value[m] != '"'
  {
    var a := SkipSpaces(s, pos);
    if a < |s| && s[a] == ':' then
      var c := SkipSpaces(s, a + 1);
      if c < |s| && s[c] == '"' then
        match IndexFrom(s, "\"", c + 1)
        case None => None
        case Some(e) =>
          assert forall m :: c + 1 <= m < e ==> s[m] != '"' by {
            forall m | c + 1 <= m < e ensures s[m] != '"' {
              assert !OccursAt(s, "\"", m);
              assert s[m..m + 1] == [s[m]];
            }
          }
          Some(s[c + 1..e])
      else None
    else None
  }

  function Quoted(key: string): string { "\"" + key + "\"" }

  /** Step 3's pattern `"key"\s*:\s*"([^"]*)"` tried at index `i`. */
  function PairAt(s: string, key: string, i: nat): Option<string> {
    if OccursAt(s, Quoted(key), i) then PairValueAt(s, i + |Quoted(key)|) else None
  }

  /** `re.search` for step 3's pattern: the least index at or after `from` where it matches. */
  function FirstPair(s: string, key: string, from: nat): (r: Option<nat>)
    ensures r.Some? ==> from <= r.value && PairAt(s, key, r.value).Some?
    ensures r.Some? ==> forall m :: from <= m < r.value ==> PairAt(s, key, m).None?
    ensures r.None? ==> forall m :: from <= m ==> PairAt(s, key, m).None?
    decreases |s| - from
  {
    if from >= |s| then
      assert forall m :: from <= m ==> !OccursAt(s, Quoted(key), m);
      None
    else if PairAt(s, key, from).Some? then Some(from)
    else FirstPair(s, key, from + 1)
  }

  /** `match.group(1)` of the first match of step 3's pattern, or `""` when there is none. */
  function QuotedValue(s: string, key: string): (v: string)
    ensures '"' !in v
  {
    match FirstPair(s, key, 0)
    case None => ""
    case Some(i) => PairAt(s, key, i).value
  }

  function TwoFieldObject(rationale: string, answer: string): Json {
    JObj(map["rationale" := JStr(rationale), "answer" := JStr(answer)])
  }

  /** The dictionary returned when nothing parses. */
  const ParseFailure := TwoFieldObject("Failed to parse response from model", "Unknown (parsing error)")

  /** Step 1: only when the text holds both "<think>" and "```json". */
  function TraceBlockStep(content: string, loads: Decoder): Option<Json> {
    if Contains(content, ThinkTag) && Contains(content, JsonFence) then
      match FenceBlock(content)
      case Some(b) => loads(b)
      case None => None
    else None
  }

  /** Step 2. */
  function BraceSpanStep(content: string, loads: Decoder): Option<Json> {
    match BraceSpan(content)
    case Some(span) => loads(span)
    case None => None
  }

  /** Step 3: a dictionary as soon as either value is non-empty. */
  function QuotedPairsStep(content: string): Option<Json> {
    var rationale := QuotedValue(content, "rationale");
    var answer := QuotedValue(content, "answer");
    if rationale != "" || answer != "" then Some(TwoFieldObject(rationale, answer)) else None
  }

  /** Steps 2 to 4, what step 1 falls through to. */
  function AfterTraceStep(content: string, loads: Decoder): Json {
    match BraceSpanStep(content, loads)
    case Some(v) => v
    case None =>
      match QuotedPairsStep(content)
      case Some(v) => v
      case None =>
        match loads(content)
        case Some(v) => v
        case None => ParseFailure
  }

  /** `extract_json_from_sonar_reasoning`: total; the first step that yields a value wins. */
  function ExtractJsonFromSonarReasoning(content: string, loads: Decoder): Json {
    match TraceBlockStep(content, loads)
    case Some(v) => v
    case None => AfterTraceStep(content, loads)
  }

  /** Step 1 wins: a trace with a fenced block that decodes gives that block's value,
      whatever the later steps would have found. The block is the text between the
      first "```json" and the first "```" after it, stripped. */
  lemma TraceBlockWins(content: string, t: nat, p: nat, f: nat, v: Json, loads: Decoder)
    requires OccursAt(content, ThinkTag, t)
    requires OccursAt(content, JsonFence, p) && forall m :: 0 <= m < p ==> !OccursAt(content, JsonFence, m)
    requires p + |JsonFence| <= f && OccursAt(content, Fence, f)
    requires forall m :: p + |JsonFence| <= m < f ==> !OccursAt(content, Fence, m)
    requires loads(Strip(content[p + |JsonFence|..f])) == Some(v)
    ensures ExtractJsonFromSonarReasoning(content, loads) == v
  {
    ContainsAt(content, ThinkTag, t);
    ContainsAt(content, JsonFence, p);
    FenceBlockAt(content, p, f);
  }

  /** The fenced block runs from the first "```json" to the first "```" after it. */
  lemma FenceBlockAt(content: string, p: nat, f: nat)
    requires OccursAt(content, JsonFence, p) && forall m :: 0 <= m < p ==> !OccursAt(content, JsonFence, m)
    requires p + |JsonFence| <= f && OccursAt(content, Fence, f)
    requires forall m :: p + |JsonFence| <= m < f ==> !OccursAt(content, Fence, m)
    ensures FenceBlock(content) == Some(Strip(content[p + |JsonFence|..f]))
  {
    IndexFromAt(content, JsonFence, 0, p);
    IndexFromAt(content, Fence, p + |JsonFence|, f);
  }

  /** Without a "<think>" tag, without a fenced block, or when the block does not decode, step 1 is
      passed over and the later steps decide. */
  lemma TraceBlockFallsThrough(content: string, loads: Decoder)
    requires !Contains(content, ThinkTag) || FenceBlock(content).None? || loads(FenceBlock(content).value).None?
    ensures ExtractJsonFromSonarReasoning(content, loads) == AfterTraceStep(content, loads)
  {
  }

  /** A reply that is a plain JSON object (no trace), with a quoted `rationale` before
      a quoted `answer`, is decoded as a whole by step 2. */
  lemma PlainObjectAccepted(content: string, i: nat, j: nat, v: Json, loads: Decoder)
    requires !Contains(content, ThinkTag)
    requires |content| >= 2 && content[0] == '{' && content[|content| - 1] == '}'
    requires 1 <= i && OccursAt(content, QuotedRationale, i)
    requires i + |QuotedRationale| <= j && OccursAt(content, QuotedAnswer, j)
    requires j + |QuotedAnswer| <= |content| - 1
    requires loads(content) == Some(v)
    ensures ExtractJsonFromSonarReasoning(content, loads) == v
  {
    BraceSpanWhole(content, i, j);
  }

  /** Step 3 decides when steps 1 and 2 give nothing: a dictionary with both keys, the
      value not found being `""`; it always validates as a `TriviaAnalysis`. */
  lemma QuotedPairsDecide(content: string, loads: Decoder)
    requires TraceBlockStep(content, loads).None? && BraceSpanStep(content, loads).None?
    requires QuotedValue(content, "rationale") != "" || QuotedValue(content, "answer") != ""
    ensures var v := ExtractJsonFromSonarReasoning(content, loads);
            AnalysisStrict(v) == Success(Analysis(QuotedValue(content, "rationale"), QuotedValue(content, "answer")))
  {
  }

  /** When nothing decodes and no quoted value is found, the parse-failure dictionary is returned. */
  lemma NothingParses(content: string, loads: Decoder)
    requires TraceBlockStep(content, loads).None? && BraceSpanStep(content, loads).None?
    requires QuotedPairsStep(content).None? && loads(content).None?
    ensures AnalysisStrict(ExtractJsonFromSonarReasoning(content, loads))
            == Success(Analysis("Failed to parse response from model", "Unknown (parsing error)"))
  {
  }

  /** A reply shaped like the model's output: a "<think>" trace without backticks,
      then a fenced JSON block on its own lines. The block decides. */
  lemma FencedReplyWins(trace: string, block: string, v: Json, loads: Decoder)
    requires forall m :: 0 <= m < |trace| ==> trace[m] != '`'
    requires forall m :: 0 <= m < |block| ==> block[m] != '`'
    requires IsStripped(block) && loads(block) == Some(v)
    ensures ExtractJsonFromSonarReasoning(ThinkTag + trace + JsonFence + "\n" + block + "\n" + Fence, loads) == v
  {
    var c := ThinkTag + trace + JsonFence + "\n" + block + "\n" + Fence;
    var p := |ThinkTag| + |trace|;
    var f := p + |JsonFence| + 1 + |block| + 1;
    assert |c| == f + 3;
    assert c[..p] == ThinkTag + trace;
    forall m | 0 <= m < p ensures c[m] != '`' {
      if m < |ThinkTag| { assert c[m] == ThinkTag[m]; } else { assert c[m] == trace[m - |ThinkTag|]; }
    }
    forall m | p + |JsonFence| <= m < f ensures c[m] != '`' {
      if m == p + |JsonFence| || m == f - 1 { assert c[m] == '\n'; }
      else { assert c[m] == block[m - p - |JsonFence| - 1]; }
    }
    forall m | 0 <= m < p ensures !OccursAt(c, JsonFence, m) {
      if m + |JsonFence| <= |c| { assert c[m..m + 7][0] == c[m]; }
    }
    forall m | p + |JsonFence| <= m < f ensures !OccursAt(c, Fence, m) {
      if m + |Fence| <= |c| { assert c[m..m + 3][0] == c[m]; }
    }
    assert c[0..7] == ThinkTag;
    assert c[p..p + 7] == JsonFence;
    assert c[f..f + 3] == Fence;
    assert c[p + |JsonFence|..f] == ['\n'] + block + ['\n'];
    StripSurrounded(block, '\n', '\n');
    TraceBlockWins(c, 0, p, f, v, loads);
  }

  // ---------------------------------------------------------------------------
  // `analyze_trivia_with_perplexity`: from the HTTP outcome to a `TriviaAnalysis`.
  // ---------------------------------------------------------------------------

  /** What the POST gives back: a status with a body (`None` when `response.json()`
      fails), `asyncio.TimeoutError`, or any other exception with its text. */
  datatype HttpReply = Answered(status: int, body: Option<Json>) | HttpTimedOut | HttpRaised(message: string)

  /** Which return statement of `analyze_trivia_with_perplexity` is taken. */
  datatype Handling =
    | Parsed(analysis: Analysis)
    | ApiFailed(status: int)
    | CallTimedOut
    | ProcessingFailed(reason: string)
    | JsonFailed

  /** `result.get("choices", [{}])[0].get("message", {}).get("content", "{}")`; a body of
      another shape raises, and so does a non-string content once it is parsed. */
  function ReplyContent(body: Json): (r: Result<string, Fault>)
    ensures r.Success? ==> body.JObj?
  {
    match body
    case JObj(top) =>
      (match GetOr(top, "choices", JArr([JObj(map[])]))
       case JArr(items) =>
         if |items| == 0 then Failure(BadResponseShape)
         else
           (match items[0]
            case JObj(choice) =>
              (match GetOr(choice, "message", JObj(map[]))
               case JObj(message) =>
                 (match GetOr(message, "content", JStr("{}"))
                  case JStr(c) => Success(c)
                  case _ => Failure(NotAString("content")))
               case _ => Failure(NotAnObject))
            case _ => Failure(NotAnObject))
       case _ => Failure(BadResponseShape))
    case _ => Failure(NotAnObject)
  }

  /** A chat-completion body whose first choice carries `content`. */
  function Completion(content: string, others: seq<Json>): Json {
    JObj(map["choices" := JArr([JObj(map["message" := JObj(map["content" := JStr(content)])])] + others)])
  }

  /** The content of the first choice of a well-formed completion is read. */
  lemma CompletionContent(content: string, others: seq<Json>)
    ensures ReplyContent(Completion(content, others)) == Success(content)
  {
    var items := [JObj(map["message" := JObj(map["content" := JStr(content)])])] + others;
    assert items[0] == JObj(map["message" := JObj(map["content" := JStr(content)])]);
  }

  /** A body without `choices` reads as the content `"{}"`, whatever other keys it has. */
  lemma MissingContentDefaults(top: map<string, Json>)
    requires "choices" !in top
    ensures ReplyContent(JObj(top)) == Success("{}")
  {
    assert [JObj(map[])][0] == JObj(map[]);
  }

  /** A first choice without `message` reads as the content `"{}"`. */
  lemma MissingMessageDefaults(top: map<string, Json>, choice: map<string, Json>, others: seq<Json>)
    requires "choices" in top && top["choices"] == JArr([JObj(choice)] + others)
    requires "message" !in choice
    ensures ReplyContent(JObj(top)) == Success("{}")
  {
    assert ([JObj(choice)] + others)[0] == JObj(choice);
  }

  /** A message without `content` reads as the content `"{}"`. */
  lemma MissingTextDefaults(top: map<string, Json>, choice: map<string, Json>, message: map<string, Json>,
                            others: seq<Json>)
    requires "choices" in top && top["choices"] == JArr([JObj(choice)] + others)
    requires "message" in choice && choice["message"] == JObj(message)
    requires "content" !in message
    ensures ReplyContent(JObj(top)) == Success("{}")
  {
    assert ([JObj(choice)] + others)[0] == JObj(choice);
  }

  /** `TriviaAnalysis(**parsed_content)`: a validation failure is caught as an exception. */
  function Validate(v: Json): (h: Handling)
    ensures h.Parsed? <==> AnalysisStrict(v).Success?
    ensures h.Parsed? ==> h.analysis == AnalysisStrict(v).value
    ensures !h.Parsed? ==> h.ProcessingFailed?
  {
    match AnalysisStrict(v)
    case Success(a) => Parsed(a)
    case Failure(f) => ProcessingFailed(Describe(f))
  }

  /** The inner `try` of `analyze_trivia_with_perplexity`, for a given model and reply. */
  function Handle(model: string, reply: HttpReply, loads: Decoder): Handling {
    match reply
    case HttpTimedOut => CallTimedOut
    case HttpRaised(m) => ProcessingFailed(m)
    case Answered(status, body) =>
      if status != 200 then ApiFailed(status)
      else
        match body
        case None => ProcessingFailed(Describe(BodyNotJson))
        case Some(b) =>
          match ReplyContent(b)
          case Failure(f) => ProcessingFailed(Describe(f))
          case Success(c) =>
            if model == ReasoningModel then Validate(ExtractJsonFromSonarReasoning(c, loads))
            else
              match loads(c)
              case None => JsonFailed
              case Some(v) => Validate(v)
  }

  /** The `TriviaAnalysis` each return statement builds. */
  function Report(h: Handling, timeout: int): (a: Analysis)
    ensures h.Parsed? ==> a == h.analysis
    ensures !h.Parsed? ==> StartsWith(a.answer, "Error (")
    ensures h.CallTimedOut? ==> a.rationale == "Request timed out after " + IntToString(timeout) + " seconds"
    ensures h.ApiFailed? ==> a.rationale == "API error: " + IntToString(h.status)
  {
    match h
    case Parsed(a) => a
    case ApiFailed(status) => Analysis("API error: " + IntToString(status), "Error (API failed)")
    case CallTimedOut => Analysis("Request timed out after " + IntToString(timeout) + " seconds", "Error (timeout)")
    case ProcessingFailed(reason) => Analysis("Error: " + reason, "Error (processing failed)")
    case JsonFailed => Analysis("Failed to parse JSON response", "Error (parsing failed)")
  }

  /** The failure sentinels tell the outcomes apart: two failures give the same answer
      exactly when they took the same return statement. */
  lemma SentinelIdentifiesOutcome(h1: Handling, h2: Handling, t1: int, t2: int)
    requires !h1.Parsed? && !h2.Parsed?
    ensures Report(h1, t1).answer == Report(h2, t2).answer <==>
            (h1.ApiFailed? && h2.ApiFailed?) || (h1.CallTimedOut? && h2.CallTimedOut?)
            || (h1.ProcessingFailed? && h2.ProcessingFailed?) || (h1.JsonFailed? && h2.JsonFailed?)
  {
    var a1, a2 := Report(h1, t1).answer, Report(h2, t2).answer;
    if !((h1.ApiFailed? && h2.ApiFailed?) || (h1.CallTimedOut? && h2.CallTimedOut?)
         || (h1.ProcessingFailed? && h2.ProcessingFailed?) || (h1.JsonFailed? && h2.JsonFailed?)) {
      assert |a1| != |a2|;
    }
  }

  /** One call: the request that is posted, if any, and the value returned. */
  datatype Call = Call(sent: Option<Request>, result: Option<Analysis>)

  /** `analyze_trivia_with_perplexity`: without a key nothing is sent and `None` is
      returned; otherwise the prepared request is posted and some analysis comes back. */
  function AnalyzeTriviaWithPerplexity(apiKey: Option<string>, ocr: OcrResult, model: string, timeout: int,
                                       maxTokens: int, reply: HttpReply, loads: Decoder): (c: Call)
    ensures c.sent.None? <==> !KeyPresent(apiKey)
    ensures c.result.None? <==> !KeyPresent(apiKey)
    ensures KeyPresent(apiKey) ==> c.sent == Some(PrepareRequest(ocr, model, maxTokens))
    ensures KeyPresent(apiKey) ==> c.result == Some(Report(Handle(model, reply, loads), timeout))
  {
    if !KeyPresent(apiKey) then Call(None, None)
    else Call(Some(PrepareRequest(ocr, model, maxTokens)), Some(Report(Handle(model, reply, loads), timeout)))
  }

  /** A non-200 status comes back as the API-failure analysis carrying that status. */
  lemma ApiErrorAnalysis(apiKey: Option<string>, ocr: OcrResult, model: string, timeout: int, maxTokens: int,
                         status: int, body: Option<Json>, loads: Decoder)
    requires KeyPresent(apiKey) && status != 200
    ensures AnalyzeTriviaWithPerplexity(apiKey, ocr, model, timeout, maxTokens, Answered(status, body), loads).result
            == Some(Analysis("API error: " + IntToString(status), "Error (API failed)"))
  {
  }

  /** A timeout comes back as the timeout analysis naming the configured timeout. */
  lemma TimeoutAnalysis(apiKey: Option<string>, ocr: OcrResult, model: string, timeout: int, maxTokens: int,
                        loads: Decoder)
    requires KeyPresent(apiKey)
    ensures AnalyzeTriviaWithPerplexity(apiKey, ocr, model, timeout, maxTokens, HttpTimedOut, loads).result
            == Some(Analysis("Request timed out after " + IntToString(timeout) + " seconds", "Error (timeout)"))
  {
  }

  /** Any other exception comes back as the processing-failure analysis carrying its text. */
  lemma RaisedAnalysis(apiKey: Option<string>, ocr: OcrResult, model: string, timeout: int, maxTokens: int,
                       m: string, loads: Decoder)
    requires KeyPresent(apiKey)
    ensures AnalyzeTriviaWithPerplexity(apiKey, ocr, model, timeout, maxTokens, HttpRaised(m), loads).result
            == Some(Analysis("Error: " + m, "Error (processing failed)"))
  {
  }

  /** Content that does not decode, from a model other than `sonar-reasoning`, comes
      back as the parse-failure analysis. */
  lemma ParseErrorAnalysis(apiKey: Option<string>, ocr: OcrResult, model: string, timeout: int, maxTokens: int,
                           body: Json, loads: Decoder)
    requires KeyPresent(apiKey) && model != ReasoningModel
    requires ReplyContent(body).Success? && loads(ReplyContent(body).value).None?
    ensures AnalyzeTriviaWithPerplexity(apiKey, ocr, model, timeout, maxTokens, Answered(200, Some(body)), loads).result
            == Some(Analysis("Failed to parse JSON response", "Error (parsing failed)"))
  {
  }

  /** A non-200 status is reported as an API failure with that status, and only then. */
  lemma ApiFailedIff(model: string, reply: HttpReply, loads: Decoder)
    ensures Handle(model, reply, loads).ApiFailed? <==> reply.Answered? && reply.status != 200
    ensures Handle(model, reply, loads).ApiFailed? ==> Handle(model, reply, loads).status == reply.status
  {
  }

  /** The JSON-parse failure is reported exactly when a model other than
      `sonar-reasoning` answers 200 with content that does not decode; the
      reasoning model's extraction never raises it. */
  lemma JsonFailedIff(model: string, reply: HttpReply, loads: Decoder)
    ensures Handle(model, reply, loads) == JsonFailed <==>
            model != ReasoningModel && reply.Answered? && reply.status == 200 && reply.body.Some? &&
            ReplyContent(reply.body.value).Success? && loads(ReplyContent(reply.body.value).value).None?
  {
  }

  /** A well-formed completion whose content validates is returned as it was sent,
      whichever model was asked, when the content is itself the JSON object. */
  lemma DirectAnswerReturned(model: string, content: string, others: seq<Json>, rationale: string, answer: string, loads: Decoder)
    requires model != ReasoningModel
    requires loads(content) == Some(TwoFieldObject(rationale, answer))
    ensures AnalyzeTriviaWithPerplexity(Some("key"), OcrResult("", [], "", ""), model, DefaultApiTimeout,
                                        DefaultMaxTokens, Answered(200, Some(Completion(content, others))), loads).result
            == Some(Analysis(rationale, answer))
  {
    CompletionContent(content, others);
  }

  /** An empty body `{}` always ends in a validation failure, for every model: the
      defaulted content `"{}"` decodes to an object without the two fields. */
  lemma EmptyBodyFails(model: string, loads: Decoder)
    requires loads("{}") == Some(JObj(map[]))
    ensures Handle(model, Answered(200, Some(JObj(map[]))), loads).ProcessingFailed?
  {
    MissingContentDefaults(map[]);
    if model == ReasoningModel {
      assert !Contains("{}", ThinkTag) by { ContainsIff("{}", ThinkTag); }
      assert BraceSpan("{}").None? by { BraceSpanExists("{}"); }
      assert QuotedValue("{}", "rationale") == "" && QuotedValue("{}", "answer") == "";
    }
  }

  /** The reasoning model can return an empty answer: a reply holding only a quoted
      rationale passes steps 1 and 2, and step 3 returns it with `""` for the answer. */
  lemma ReasoningEmptyAnswer(loads: Decoder)
    ensures Handle(ReasoningModel, Answered(200, Some(Completion(RationaleOnly, []))), loads)
            == Parsed(Analysis("x", ""))
  {
    CompletionContent(RationaleOnly, []);
    RationaleOnlyPassesSteps(loads);
    RationaleOnlyValues();
    QuotedPairsDecide(RationaleOnly, loads);
  }

  lemma RationaleOnlyChars()
    ensures forall m :: 0 <= m < |RationaleOnly| ==> RationaleOnly[m] !in "{<w"
  {
  }

  lemma RationaleOnlyPassesSteps(loads: Decoder)
    ensures TraceBlockStep(RationaleOnly, loads).None? && BraceSpanStep(RationaleOnly, loads).None?
  {
    RationaleOnlyChars();
    AbsentCharNoOccurrence(RationaleOnly, ThinkTag, 0);
    ContainsIff(RationaleOnly, ThinkTag);
    AbsentCharNoOccurrence(RationaleOnly, "{", 0);
    assert IndexFrom(RationaleOnly, "{", 0).None?;
  }

  lemma RationaleOnlyValues()
    ensures QuotedValue(RationaleOnly, "answer") == ""
    ensures QuotedValue(RationaleOnly, "rationale") == "x"
  {
    RationaleOnlyChars();
    AbsentCharNoOccurrence(RationaleOnly, Quoted("answer"), 4);
    assert FirstPair(RationaleOnly, "answer", 0).None?;
    RationaleOnlyPair();
  }

  lemma RationaleOnlyPair()
    ensures PairAt(RationaleOnly, "rationale", 0) == Some("x")
  {
    var c := RationaleOnly;
    assert c[..11] == Quoted("rationale");
    assert c[11] == ':' && c[13] == '"' && c[15] == '"' && |c| == 16;
    assert SkipSpaces(c, 11) == 11;
    assert SkipSpaces(c, 13) == 13;
    assert c[15..16] == "\"" && c[14..15] != "\"";
    assert IndexFrom(c, "\"", 14) == Some(15);
    assert c[14..15] == "x";
  }

  const RationaleOnly := "\"rationale\": \"x\""
}
