/**
 * The values every backend module exchanges: decoded JSON, the two result
 * records (`TriviaAnalysis`, `OCRResult`), a provider reply as the SDK
 * hands it back, and the exceptions a backend function lets escape.
 */
module Backend {
  import opened Wrappers

  /** A decoded JSON document; numbers keep their literal text. */
  datatype Json =
    | JNull
    | JBool(b: bool)
    | JNum(literal: string)
    | JStr(s: string)
    | JArr(items: seq<Json>)
    | JObj(fields: map<string, Json>)

  /** `json.loads`: `Some(value)` when the text decodes, `None` where Python raises
      `JSONDecodeError`. The decoder is a parameter of every member that parses. */
  type Decoder = string -> Option<Json>

  /** `TriviaAnalysis`: the normalised answer of one backend. */
  datatype Analysis = Analysis(rationale: string, answer: string)

  /** `OCRResult`: what the OCR backend extracts from the image, plus its own answer. */
  datatype OcrResult = OcrResult(question: string, options: seq<string>, rationale: string, answer: string)

  /** One SDK call: the reply text, `asyncio.TimeoutError`, any other exception raised
      inside the request handler (with its text), or an exception raised while the
      request was being prepared (encoding the image, building the client), before
      that handler is entered. */
  datatype Reply = Reply(content: string) | TimedOut | Raised(message: string) | PrepFailed(message: string)

  /** The exceptions a backend function lets escape to its caller. */
  datatype BackendError = ValueError(message: string) | TimeoutError(message: string)

  /** Why a decoded value does not fit a record: the `AttributeError` of calling
      `.get` on a non-dict, a pydantic validation error, an index into a reply
      that is not there, or a reply body that is not JSON. */
  datatype Fault = NotAnObject | NotAString(field: string) | NotAStringList(field: string) | BadResponseShape | BodyNotJson

  /** A fixed text for a fault; Python's own exception texts are not modelled. */
  function Describe(f: Fault): (d: string)
    ensures d != ""
  {
    match f
    case NotAnObject => "decoded value is not an object"
    case NotAString(k) => "field " + k + " is not a string"
    case NotAStringList(k) => "field " + k + " is not a list of strings"
    case BadResponseShape => "response body does not have the expected shape"
    case BodyNotJson => "response body is not JSON"
  }

  /** `os.getenv(...)` is truthy: set and not empty. */
  predicate KeyPresent(key: Option<string>) {
    key.Some? && key.value != ""
  }

  /** `d.get(k, default)` on the fields of an object. */
  function GetOr(fields: map<string, Json>, k: string, default: Json): (v: Json)
    ensures k in fields ==> v == fields[k]
    ensures k !in fields ==> v == default
  {
    if k in fields then fields[k] else default
  }

  /** A string-valued field with a default, as `str(d.get(k, ""))` would be validated by pydantic. */
  function StringField(fields: map<string, Json>, k: string): (r: Result<string, Fault>)
    ensures r.Success? <==> (k !in fields || fields[k].JStr?)
    ensures r.Success? && k !in fields ==> r.value == ""
    ensures r.Success? && k in fields ==> fields[k] == JStr(r.value)
  {
    match GetOr(fields, k, JStr(""))
    case JStr(s) => Success(s)
    case _ => Failure(NotAString(k))
  }

  /** Build a `TriviaAnalysis` from a JSON object whose missing fields default to `""`
      (`result.get("rationale", "")`, `result.get("answer", "")`). */
  function AnalysisWithDefaults(v: Json): (r: Result<Analysis, Fault>)
    ensures r.Success? <==> v.JObj? && StringField(v.fields, "rationale").Success?
                                    && StringField(v.fields, "answer").Success?
    ensures r.Success? ==> r.value == Analysis(StringField(v.fields, "rationale").value,
                                               StringField(v.fields, "answer").value)
  {
    match v
    case JObj(fields) =>
      (match (StringField(fields, "rationale"), StringField(fields, "answer"))
       case (Success(rat), Success(ans)) => Success(Analysis(rat, ans))
       case (Failure(f), _) => Failure(f)
       case (_, Failure(f)) => Failure(f))
    case _ => Failure(NotAnObject)
  }

  /** `TriviaAnalysis(**v)`: both fields required and strings; other keys are ignored. */
  function AnalysisStrict(v: Json): (r: Result<Analysis, Fault>)
    ensures r.Success? <==> v.JObj? && "rationale" in v.fields && v.fields["rationale"].JStr?
                                    && "answer" in v.fields && v.fields["answer"].JStr?
    ensures r.Success? ==> r.value == Analysis(v.fields["rationale"].s, v.fields["answer"].s)
  {
    match v
    case JObj(fields) =>
      if "rationale" in fields && fields["rationale"].JStr? && "answer" in fields && fields["answer"].JStr? then
        Success(Analysis(fields["rationale"].s, fields["answer"].s))
      else if "rationale" in fields && fields["rationale"].JStr? then
        Failure(NotAString("answer"))
      else
        Failure(NotAString("rationale"))
    case _ => Failure(NotAnObject)
  }
}
