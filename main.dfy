/**
 * The orchestration of one run of the trivia assistant (`main.py`): resolving the
 * `--only-sonar*` flags, the mutual-exclusion check, pushing the one timeout to
 * every backend, the never-raise `process_with_*` wrappers, and the launch plan:
 * GPT and Mistral on the image, Gemini OCR at most once, then the enabled
 * Perplexity models on the OCR result. Tasks that the program runs concurrently
 * are run here one after the other, in the order in which they are created, and
 * every backend call that is started is recorded in an invocation log.
 */
module Orchestrator {
  import opened Wrappers
  import opened Backend
  import Mistral
  import OcrGemini
  import Perplexity

  /** The three Perplexity models a run can launch. */
  datatype SonarModel = Sonar | SonarPro | SonarReasoning

  /** The model name sent to Perplexity. */
  function ModelName(m: SonarModel): string {
    match m
    case Sonar => "sonar"
    case SonarPro => Perplexity.DefaultModel
    case SonarReasoning => Perplexity.ReasoningModel
  }

  /** Distinct models are sent under distinct names. */
  lemma ModelNamesDistinct(a: SonarModel, b: SonarModel)
    ensures ModelName(a) == ModelName(b) <==> a == b
  {
    if a != b {
      assert ModelName(a)[|ModelName(a)| - 1] != ModelName(b)[|ModelName(b)| - 1] || |ModelName(a)| != |ModelName(b)|;
    }
  }

  /** `API_TIMEOUT` when the environment does not set it. */
  const DefaultTimeout := 15

  // ---------------------------------------------------------------------------
  // Command-line flags
  // ---------------------------------------------------------------------------

  /** The flags of `args` that decide what runs, as one value. */
  datatype Flags = Flags(noGpt: bool, noMistral: bool, noGeminiOcr: bool,
                         noSonar: bool, noSonarPro: bool, noSonarReasoning: bool,
                         onlySonar: bool, onlySonarPro: bool, onlySonarReasoning: bool,
                         showOcr: bool)

  predicate AnyOnlySonar(f: Flags) {
    f.onlySonar || f.onlySonarPro || f.onlySonarReasoning
  }

  /** `sum([args.only_sonar, args.only_sonar_pro, args.only_sonar_reasoning])`. */
  function OnlySonarCount(f: Flags): (n: nat)
    ensures n <= 3
    ensures n == 0 <==> !AnyOnlySonar(f)
    ensures n == 1 <==> ((f.onlySonar && !f.onlySonarPro && !f.onlySonarReasoning)
                         || (!f.onlySonar && f.onlySonarPro && !f.onlySonarReasoning)
                         || (!f.onlySonar && !f.onlySonarPro && f.onlySonarReasoning))
  {
    (if f.onlySonar then 1 else 0) + (if f.onlySonarPro then 1 else 0) + (if f.onlySonarReasoning then 1 else 0)
  }

  /** The flags after `async_main` has applied an `--only-sonar*` flag: the first one
      set, in the order only-sonar, only-sonar-pro, only-sonar-reasoning, wins. */
  function Resolved(f: Flags): Flags {
    if AnyOnlySonar(f) then
      var g := f.(noGpt := true, noMistral := true, noGeminiOcr := false, showOcr := false);
      if f.onlySonar then g.(noSonar := false, noSonarPro := true, noSonarReasoning := true)
      else if f.onlySonarPro then g.(noSonar := true, noSonarPro := false, noSonarReasoning := true)
      else g.(noSonar := true, noSonarPro := true, noSonarReasoning := false)
    else f
  }

  /** With exactly one `--only-sonar*` flag: GPT and Mistral are off, OCR is on, exactly
      the chosen Sonar model is on, `show_ocr` is off, and the only-flags stay as given. */
  lemma OnlySonarResolution(f: Flags)
    requires OnlySonarCount(f) == 1
    ensures Resolved(f).noGpt && Resolved(f).noMistral && !Resolved(f).noGeminiOcr && !Resolved(f).showOcr
    ensures !Resolved(f).noSonar <==> f.onlySonar
    ensures !Resolved(f).noSonarPro <==> f.onlySonarPro
    ensures !Resolved(f).noSonarReasoning <==> f.onlySonarReasoning
    ensures Resolved(f).onlySonar == f.onlySonar && Resolved(f).onlySonarPro == f.onlySonarPro
            && Resolved(f).onlySonarReasoning == f.onlySonarReasoning
  {
  }

  /** Without an `--only-sonar*` flag the flags are used as given. */
  lemma NoOnlySonarKeepsFlags(f: Flags)
    requires !AnyOnlySonar(f)
    ensures Resolved(f) == f
  {
  }

  /** Resolving twice is resolving once. */
  lemma ResolvedIdempotent(f: Flags)
    ensures Resolved(Resolved(f)) == Resolved(f)
  {
  }

  /** The parsed command line; `async_main` rewrites its flags in place. */
  class Args {
    var noGpt: bool
    var noMistral: bool
    var noGeminiOcr: bool
    var noSonar: bool
    var noSonarPro: bool
    var noSonarReasoning: bool
    var onlySonar: bool
    var onlySonarPro: bool
    var onlySonarReasoning: bool
    var showOcr: bool
    var debug: bool
    var timeout: int

    constructor (f: Flags, debug: bool, timeout: int)
      ensures Snapshot() == f && this.debug == debug && this.timeout == timeout
    {
      noGpt, noMistral, noGeminiOcr := f.noGpt, f.noMistral, f.noGeminiOcr;
      noSonar, noSonarPro, noSonarReasoning := f.noSonar, f.noSonarPro, f.noSonarReasoning;
      onlySonar, onlySonarPro, onlySonarReasoning := f.onlySonar, f.onlySonarPro, f.onlySonarReasoning;
      showOcr := f.showOcr;
      this.debug, this.timeout := debug, timeout;
    }

    function Snapshot(): Flags
      reads this
    {
      Flags(noGpt, noMistral, noGeminiOcr, noSonar, noSonarPro, noSonarReasoning,
            onlySonar, onlySonarPro, onlySonarReasoning, showOcr)
    }

    /** The flag rewriting at the head of `async_main`. */
    method ResolveOnlySonar()
      modifies this
      ensures Snapshot() == Resolved(old(Snapshot()))
      ensures debug == old(debug) && timeout == old(timeout)
    {
      if onlySonar || onlySonarPro || onlySonarReasoning {
        noGpt := true;
        noMistral := true;
        noGeminiOcr := false;
        if onlySonar {
          noSonar, noSonarPro, noSonarReasoning := false, true, true;
        } else if onlySonarPro {
          noSonar, noSonarPro, noSonarReasoning := true, false, true;
        } else if onlySonarReasoning {
          noSonar, noSonarPro, noSonarReasoning := true, true, false;
        }
        if showOcr {
          showOcr := false;
        }
      }
    }
  }

  // ---------------------------------------------------------------------------
  // Timeouts
  // ---------------------------------------------------------------------------

  /** The module-level `API_TIMEOUT` of `main.py` and of each backend module. */
  class Settings {
    var apiTimeout: int
    var gptTimeout: int
    var mistralTimeout: int
    var geminiTimeout: int
    var perplexityTimeout: int

    constructor ()
      ensures apiTimeout == DefaultTimeout && gptTimeout == DefaultTimeout
      ensures mistralTimeout == Mistral.DefaultApiTimeout && geminiTimeout == OcrGemini.DefaultApiTimeout
      ensures perplexityTimeout == Perplexity.DefaultApiTimeout
    {
      apiTimeout, gptTimeout := DefaultTimeout, DefaultTimeout;
      mistralTimeout, geminiTimeout := Mistral.DefaultApiTimeout, OcrGemini.DefaultApiTimeout;
      perplexityTimeout := Perplexity.DefaultApiTimeout;
    }

    predicate AllAre(t: int)
      reads this
    {
      apiTimeout == t && gptTimeout == t && mistralTimeout == t && geminiTimeout == t && perplexityTimeout == t
    }

    /** `API_TIMEOUT = args.timeout` followed by the four `set_api_timeout` calls. */
    method PushTimeout(t: int)
      modifies this
      ensures AllAre(t)
    {
      apiTimeout := t;
      gptTimeout := t;
      mistralTimeout := t;
      geminiTimeout := t;
      perplexityTimeout := t;
    }
  }

  // ---------------------------------------------------------------------------
  // The never-raise wrappers
  // ---------------------------------------------------------------------------

  /** What a wrapper reports: the answer, the timeout message, or a failure message. */
  datatype Report = ShowAnswer(answer: string) | TimeoutReported | FailureReported(message: string)

  /** `process_with_gpt` and `process_with_mistral`: the answer is shown, a
      `TimeoutError` is reported as a timeout, any other exception as a failure with
      its text; nothing escapes. */
  function ProcessAnalysis(r: Result<Analysis, BackendError>): (rep: Report)
    ensures rep.ShowAnswer? <==> r.Success?
    ensures r.Success? ==> rep.answer == r.value.answer
    ensures rep.TimeoutReported? <==> r.Failure? && r.error.TimeoutError?
    ensures rep.FailureReported? ==> rep.message == r.error.message && r.error.ValueError?
  {
    match r
    case Success(a) => ShowAnswer(a.answer)
    case Failure(TimeoutError(_)) => TimeoutReported
    case Failure(ValueError(m)) => FailureReported(m)
  }

  /** The timeout branch of `process_with_mistral` is dead: the Mistral backend turns
      its own timeout into a `ValueError`. */
  lemma MistralNeverReportsTimeout(apiKey: Option<string>, timeout: int, reply: Reply, loads: Decoder)
    ensures !ProcessAnalysis(Mistral.AnalyzeTriviaWithMistral(apiKey, timeout, reply, loads)).TimeoutReported?
    ensures reply.TimedOut? ==> ProcessAnalysis(Mistral.AnalyzeTriviaWithMistral(apiKey, timeout, reply, loads)).FailureReported?
  {
  }

  /** `process_with_gemini_ocr`: the OCR result, or `None` on any exception. */
  function ProcessGeminiOcr(r: Result<OcrResult, BackendError>): (o: Option<OcrResult>)
    ensures o.Some? <==> r.Success?
    ensures o.Some? ==> o.value == r.value
  {
    match r
    case Success(ocr) => Some(ocr)
    case Failure(_) => None
  }

  /** A Gemini timeout reaches `process_with_gemini_ocr` as a `ValueError`, so that
      wrapper's timeout branch is dead as well; the run then goes on without OCR. */
  lemma GeminiTimeoutIsValueError(apiKey: Option<string>, timeout: int, reply: Reply, loads: Decoder)
    ensures OcrGemini.ExtractTextWithGemini(apiKey, timeout, reply, loads).Failure? ==>
              OcrGemini.ExtractTextWithGemini(apiKey, timeout, reply, loads).error.ValueError?
    ensures reply.TimedOut? ==> ProcessGeminiOcr(OcrGemini.ExtractTextWithGemini(apiKey, timeout, reply, loads)) == None
  {
  }

  /** `process_with_perplexity`: a `None` result is reported as a failure to get a
      response from that model and returned as `None`; a result is shown and returned. */
  function ProcessWithPerplexity(model: string, result: Option<Analysis>): (p: (Report, Option<Analysis>))
    ensures p.1 == result
    ensures p.0.ShowAnswer? <==> result.Some?
    ensures result.Some? ==> p.0.answer == result.value.answer
    ensures result.None? ==> p.0 == FailureReported("Failed to get response from Perplexity (" + model + ")")
  {
    match result
    case Some(a) => (ShowAnswer(a.answer), Some(a))
    case None => (FailureReported("Failed to get response from Perplexity (" + model + ")"), None)
  }

  /** Without a Perplexity key the wrapper returns `None`; with one it always returns
      the backend's analysis, an error analysis included. */
  lemma PerplexityWrapperResult(apiKey: Option<string>, ocr: OcrResult, model: string, timeout: int,
                                maxTokens: int, reply: Perplexity.HttpReply, loads: Decoder)
    ensures var c := Perplexity.AnalyzeTriviaWithPerplexity(apiKey, ocr, model, timeout, maxTokens, reply, loads);
            (ProcessWithPerplexity(model, c.result).1.None? <==> !KeyPresent(apiKey))
    ensures KeyPresent(apiKey) ==>
              ProcessWithPerplexity(model, Perplexity.AnalyzeTriviaWithPerplexity(apiKey, ocr, model, timeout, maxTokens, reply, loads).result).1
              == Some(Perplexity.Report(Perplexity.Handle(model, reply, loads), timeout))
  {
  }

  // ---------------------------------------------------------------------------
  // The launch plan
  // ---------------------------------------------------------------------------

  /** The image every task of a run receives: the given file or the new screenshot. */
  datatype Image = Image(path: string)

  /** An entry of `tasks` in `async_main`. */
  datatype Task = GptTask(image: Image) | MistralTask(image: Image) | OcrChainTask(image: Image)

  /** A backend call that a run starts. */
  datatype Invocation =
    | InvokeGpt(image: Image)
    | InvokeMistral(image: Image)
    | InvokeOcr(image: Image)
    | InvokePerplexity(model: SonarModel, ocr: OcrResult)

  /** The task list: GPT and Mistral when enabled, then always the OCR chain. */
  function PlannedTasks(f: Flags, image: Image): seq<Task> {
    (if !f.noGpt then [GptTask(image)] else []) + (if !f.noMistral then [MistralTask(image)] else [])
      + [OcrChainTask(image)]
  }

  /** The enabled Perplexity models, in launch order. */
  function EnabledSonarModels(f: Flags): seq<SonarModel> {
    (if !f.noSonar then [Sonar] else []) + (if !f.noSonarPro then [SonarPro] else [])
      + (if !f.noSonarReasoning then [SonarReasoning] else [])
  }

  /** `perplexity_tasks`: one call per enabled model, all on the same OCR result. */
  function SonarCalls(f: Flags, ocr: OcrResult): seq<Invocation> {
    (if !f.noSonar then [InvokePerplexity(Sonar, ocr)] else [])
      + (if !f.noSonarPro then [InvokePerplexity(SonarPro, ocr)] else [])
      + (if !f.noSonarReasoning then [InvokePerplexity(SonarReasoning, ocr)] else [])
  }

  /** `process_ocr_and_perplexity`, given what `process_with_gemini_ocr` returns. */
  function ChainCalls(f: Flags, image: Image, ocr: Option<OcrResult>): seq<Invocation> {
    if f.noGeminiOcr then []
    else [InvokeOcr(image)] + (if ocr.Some? then SonarCalls(f, ocr.value) else [])
  }

  function TaskCalls(t: Task, f: Flags, ocr: Option<OcrResult>): seq<Invocation> {
    match t
    case GptTask(im) => [InvokeGpt(im)]
    case MistralTask(im) => [InvokeMistral(im)]
    case OcrChainTask(im) => ChainCalls(f, im, ocr)
  }

  /** The calls of a task list, run in list order. */
  function TasksCalls(ts: seq<Task>, f: Flags, ocr: Option<OcrResult>): seq<Invocation>
    decreases |ts|
  {
    if ts == [] then [] else TasksCalls(ts[..|ts| - 1], f, ocr) + TaskCalls(ts[|ts| - 1], f, ocr)
  }

  predicate HasChain(ts: seq<Task>) {
    exists k :: 0 <= k < |ts| && ts[k].OcrChainTask?
  }

  /** The calls of one run with resolved flags `f`; `None` for the image means that
      loading it failed, which the outer handler of `async_main` catches. */
  function RunCalls(f: Flags, image: Option<Image>, ocr: Option<OcrResult>): seq<Invocation> {
    if image.None? then [] else TasksCalls(PlannedTasks(f, image.value), f, ocr)
  }

  /** The task list always ends with the OCR chain, so it is never empty and the
      "all analysis options are disabled" return of `async_main` cannot be taken. */
  lemma TasksNeverEmpty(f: Flags, image: Image)
    ensures |PlannedTasks(f, image)| >= 1
    ensures PlannedTasks(f, image)[|PlannedTasks(f, image)| - 1] == OcrChainTask(image)
    ensures HasChain(PlannedTasks(f, image))
  {
    var ts := PlannedTasks(f, image);
    assert ts[|ts| - 1].OcrChainTask?;
  }

  /** The calls of a run, written out. */
  lemma {:induction false} RunCallsExpanded(f: Flags, image: Image, ocr: Option<OcrResult>)
    ensures RunCalls(f, Some(image), ocr)
            == (if !f.noGpt then [InvokeGpt(image)] else []) + (if !f.noMistral then [InvokeMistral(image)] else [])
               + ChainCalls(f, image, ocr)
  {
    var g := if !f.noGpt then [GptTask(image)] else [];
    var gm := g + (if !f.noMistral then [MistralTask(image)] else []);
    var ts := PlannedTasks(f, image);
    assert ts[..|ts| - 1] == gm;
    assert TasksCalls(ts, f, ocr) == TasksCalls(gm, f, ocr) + ChainCalls(f, image, ocr);
    if !f.noMistral {
      assert gm[..|gm| - 1] == g;
      assert TasksCalls(gm, f, ocr) == TasksCalls(g, f, ocr) + [InvokeMistral(image)];
    } else {
      assert gm == g;
    }
    if !f.noGpt {
      assert g[..0] == [];
      assert TasksCalls(g, f, ocr) == [InvokeGpt(image)];
    }
  }

  /** GPT is launched iff `not no_gpt`, Mistral iff `not no_mistral`, each once, and
      every image-based call receives the run's one image. */
  lemma {:induction false} ImageCalls(f: Flags, image: Image, ocr: Option<OcrResult>)
    ensures InvokeGpt(image) in RunCalls(f, Some(image), ocr) <==> !f.noGpt
    ensures InvokeMistral(image) in RunCalls(f, Some(image), ocr) <==> !f.noMistral
    ensures forall inv :: inv in RunCalls(f, Some(image), ocr) && !inv.InvokePerplexity? ==> inv.image == image
  {
    RunCallsExpanded(f, image, ocr);
    var pre := (if !f.noGpt then [InvokeGpt(image)] else []) + (if !f.noMistral then [InvokeMistral(image)] else []);
    var chain := ChainCalls(f, image, ocr);
    ChainCallsShape(f, image, ocr);
    assert InvokeGpt(image) !in chain && InvokeMistral(image) !in chain;
    assert InvokeGpt(image) in pre <==> !f.noGpt;
    assert InvokeMistral(image) in pre <==> !f.noMistral;
  }

  /** The OCR chain makes one OCR call on its image, then only Perplexity calls. */
  lemma ChainCallsShape(f: Flags, image: Image, ocr: Option<OcrResult>)
    ensures forall k :: 0 <= k < |ChainCalls(f, image, ocr)| ==>
              (k == 0 <==> !ChainCalls(f, image, ocr)[k].InvokePerplexity?)
    ensures forall k :: 0 <= k < |ChainCalls(f, image, ocr)| && !ChainCalls(f, image, ocr)[k].InvokePerplexity? ==>
              ChainCalls(f, image, ocr)[k] == InvokeOcr(image)
    ensures ChainCalls(f, image, ocr) != [] <==> !f.noGeminiOcr
  {
  }

  /** OCR is invoked at most once, and exactly when there is an image and OCR is not
      disabled; with `no_gemini_ocr` nothing after the GPT and Mistral calls runs. */
  lemma {:induction false} OcrAtMostOnce(f: Flags, image: Option<Image>, ocr: Option<OcrResult>)
    ensures forall i, j :: 0 <= i < j < |RunCalls(f, image, ocr)| ==>
              !(RunCalls(f, image, ocr)[i].InvokeOcr? && RunCalls(f, image, ocr)[j].InvokeOcr?)
    ensures (exists i :: 0 <= i < |RunCalls(f, image, ocr)| && RunCalls(f, image, ocr)[i].InvokeOcr?)
            <==> image.Some? && !f.noGeminiOcr
    ensures image.Some? && f.noGeminiOcr ==>
              RunCalls(f, image, ocr) == (if !f.noGpt then [InvokeGpt(image.value)] else [])
                                         + (if !f.noMistral then [InvokeMistral(image.value)] else [])
  {
    if image.Some? {
      RunCallsExpanded(f, image.value, ocr);
      var pre := (if !f.noGpt then [InvokeGpt(image.value)] else []) + (if !f.noMistral then [InvokeMistral(image.value)] else []);
      var chain := ChainCalls(f, image.value, ocr);
      LeadCallsShape(f, image.value);
      ChainOcr(f, image.value, ocr);
      OcrAfterLead(RunCalls(f, image, ocr), pre, chain);
    }
  }

  /** A lead with no OCR call followed by a chain whose only OCR call is its first. */
  lemma OcrAfterLead(calls: seq<Invocation>, pre: seq<Invocation>, chain: seq<Invocation>)
    requires calls == pre + chain
    requires forall i :: 0 <= i < |pre| ==> !pre[i].InvokeOcr?
    requires forall k :: 0 <= k < |chain| ==> (chain[k].InvokeOcr? <==> k == 0)
    ensures forall i, j :: 0 <= i < j < |calls| ==> !(calls[i].InvokeOcr? && calls[j].InvokeOcr?)
    ensures (exists i :: 0 <= i < |calls| && calls[i].InvokeOcr?) <==> chain != []
    ensures chain == [] ==> calls == pre
  {
    forall i, j | 0 <= i < j < |calls| && calls[i].InvokeOcr?
      ensures !calls[j].InvokeOcr?
    {
      assert calls[i] == chain[i - |pre|];
      assert calls[j] == chain[j - |pre|];
    }
    if chain != [] {
      assert calls[|pre|] == chain[0];
    } else {
      assert calls == pre;
    }
  }

  /** The OCR chain's one OCR call is its first, present unless OCR is disabled. */
  lemma ChainOcr(f: Flags, image: Image, ocr: Option<OcrResult>)
    ensures forall k :: 0 <= k < |ChainCalls(f, image, ocr)| ==> (ChainCalls(f, image, ocr)[k].InvokeOcr? <==> k == 0)
    ensures ChainCalls(f, image, ocr) != [] <==> !f.noGeminiOcr
  {
    ChainCallsShape(f, image, ocr);
  }

  /** Perplexity models run only after OCR ran and returned a result, all on that one
      result, in the order sonar, sonar-pro, sonar-reasoning, each iff it is enabled. */
  lemma {:induction false} PerplexityAfterOcr(f: Flags, image: Option<Image>, ocr: Option<OcrResult>)
    ensures forall i :: 0 <= i < |RunCalls(f, image, ocr)| && RunCalls(f, image, ocr)[i].InvokePerplexity? ==>
              image.Some? && ocr.Some? && RunCalls(f, image, ocr)[i].ocr == ocr.value
              && PerplexityStart(f) < i && RunCalls(f, image, ocr)[PerplexityStart(f)] == InvokeOcr(image.value)
    ensures image.Some? && !f.noGeminiOcr && ocr.Some? ==>
              RunCalls(f, image, ocr)[|RunCalls(f, image, ocr)| - |EnabledSonarModels(f)|..]
              == SonarCalls(f, ocr.value)
    ensures !(image.Some? && !f.noGeminiOcr && ocr.Some?) ==>
              forall i :: 0 <= i < |RunCalls(f, image, ocr)| ==> !RunCalls(f, image, ocr)[i].InvokePerplexity?
  {
    PerplexityAfterOcrCall(f, image, ocr);
    if image.Some? && !f.noGeminiOcr && ocr.Some? {
      SonarCallsLast(f, image.value, ocr.value);
    }
    if !(image.Some? && !f.noGeminiOcr && ocr.Some?) {
      NoSonarCalls(f, image, ocr);
    }
  }

  /** Every Perplexity call of a run comes after the OCR call and carries its result. */
  lemma PerplexityAfterOcrCall(f: Flags, image: Option<Image>, ocr: Option<OcrResult>)
    ensures forall i :: 0 <= i < |RunCalls(f, image, ocr)| && RunCalls(f, image, ocr)[i].InvokePerplexity? ==>
              image.Some? && ocr.Some? && RunCalls(f, image, ocr)[i].ocr == ocr.value
              && PerplexityStart(f) < i && RunCalls(f, image, ocr)[PerplexityStart(f)] == InvokeOcr(image.value)
  {
    if image.Some? {
      RunCallsExpanded(f, image.value, ocr);
      var pre := (if !f.noGpt then [InvokeGpt(image.value)] else []) + (if !f.noMistral then [InvokeMistral(image.value)] else []);
      LeadCallsShape(f, image.value);
      ChainPerplexity(f, image.value, ocr);
      PerplexityAfterLead(RunCalls(f, image, ocr), pre, ChainCalls(f, image.value, ocr), InvokeOcr(image.value), ocr);
    }
  }

  /** With OCR and a result, the run ends with the Perplexity calls. */
  lemma SonarCallsLast(f: Flags, image: Image, ocr: OcrResult)
    requires !f.noGeminiOcr
    ensures RunCalls(f, Some(image), Some(ocr))[|RunCalls(f, Some(image), Some(ocr))| - |EnabledSonarModels(f)|..]
            == SonarCalls(f, ocr)
  {
    RunCallsExpanded(f, image, Some(ocr));
    var pre := (if !f.noGpt then [InvokeGpt(image)] else []) + (if !f.noMistral then [InvokeMistral(image)] else []);
    var calls := RunCalls(f, Some(image), Some(ocr));
    var chain := ChainCalls(f, image, Some(ocr));
    ChainPerplexity(f, image, Some(ocr));
    assert calls[|pre| + 1..] == chain[1..];
    assert |calls| - |EnabledSonarModels(f)| == |pre| + 1;
  }

  /** Without an image, with OCR disabled or without its result, no Perplexity call runs. */
  lemma NoSonarCalls(f: Flags, image: Option<Image>, ocr: Option<OcrResult>)
    requires !(image.Some? && !f.noGeminiOcr && ocr.Some?)
    ensures forall i :: 0 <= i < |RunCalls(f, image, ocr)| ==> !RunCalls(f, image, ocr)[i].InvokePerplexity?
  {
    if image.Some? {
      RunCallsExpanded(f, image.value, ocr);
      var pre := (if !f.noGpt then [InvokeGpt(image.value)] else []) + (if !f.noMistral then [InvokeMistral(image.value)] else []);
      LeadCallsShape(f, image.value);
      ChainPerplexity(f, image.value, ocr);
      PerplexityAfterLead(RunCalls(f, image, ocr), pre, ChainCalls(f, image.value, ocr), InvokeOcr(image.value), ocr);
    }
  }

  /** Calls that follow a lead with no Perplexity call, and whose Perplexity calls
      all come after a first call and carry the one OCR result. */
  lemma PerplexityAfterLead(calls: seq<Invocation>, pre: seq<Invocation>, chain: seq<Invocation>,
                            first: Invocation, ocr: Option<OcrResult>)
    requires calls == pre + chain
    requires forall i :: 0 <= i < |pre| ==> !pre[i].InvokePerplexity?
    requires forall k :: 0 <= k < |chain| && chain[k].InvokePerplexity? ==> 0 < k && ocr.Some? && chain[k].ocr == ocr.value
    requires chain != [] ==> chain[0] == first
    ensures forall i :: 0 <= i < |calls| && calls[i].InvokePerplexity? ==>
              ocr.Some? && calls[i].ocr == ocr.value && |pre| < i && calls[|pre|] == first
    ensures chain != [] ==> calls[|calls| - (|chain| - 1)..] == chain[1..]
    ensures (forall k :: 0 <= k < |chain| ==> !chain[k].InvokePerplexity?) ==>
              forall i :: 0 <= i < |calls| ==> !calls[i].InvokePerplexity?
  {
    forall i | 0 <= i < |calls| && calls[i].InvokePerplexity?
      ensures ocr.Some? && calls[i].ocr == ocr.value && |pre| < i && calls[|pre|] == first
    {
      assert calls[i] == chain[i - |pre|];
    }
    if chain != [] {
      assert calls[|pre| + 1..] == chain[1..];
    }
  }

  /** The GPT and Mistral calls come first: `PerplexityStart(f)` of them, neither OCR
      nor Perplexity. */
  lemma LeadCallsShape(f: Flags, image: Image)
    ensures var pre := (if !f.noGpt then [InvokeGpt(image)] else []) + (if !f.noMistral then [InvokeMistral(image)] else []);
            |pre| == PerplexityStart(f) && forall i :: 0 <= i < |pre| ==> !pre[i].InvokePerplexity? && !pre[i].InvokeOcr?
  {
  }

  /** In the OCR chain the OCR call comes first, and the Perplexity calls after it are
      exactly the enabled models on the OCR result. */
  lemma ChainPerplexity(f: Flags, image: Image, ocr: Option<OcrResult>)
    ensures forall k :: 0 <= k < |ChainCalls(f, image, ocr)| && ChainCalls(f, image, ocr)[k].InvokePerplexity? ==>
              0 < k && ocr.Some? && !f.noGeminiOcr && ChainCalls(f, image, ocr)[k].ocr == ocr.value
    ensures ChainCalls(f, image, ocr) != [] ==> ChainCalls(f, image, ocr)[0] == InvokeOcr(image)
    ensures !f.noGeminiOcr && ocr.Some? ==>
              ChainCalls(f, image, ocr)[1..] == SonarCalls(f, ocr.value) && |SonarCalls(f, ocr.value)| == |EnabledSonarModels(f)|
  {
    if !f.noGeminiOcr && ocr.Some? {
      SonarCallsModels(f, ocr.value);
      assert ChainCalls(f, image, ocr)[1..] == SonarCalls(f, ocr.value);
    }
  }

  /** The index of the OCR call in a run: after the GPT and Mistral calls. */
  function PerplexityStart(f: Flags): nat {
    (if !f.noGpt then 1 else 0) + (if !f.noMistral then 1 else 0)
  }

  /** The Perplexity calls are exactly the enabled models, in order, on one OCR result. */
  lemma SonarCallsModels(f: Flags, ocr: OcrResult)
    ensures |SonarCalls(f, ocr)| == |EnabledSonarModels(f)|
    ensures forall k :: 0 <= k < |SonarCalls(f, ocr)| ==> SonarCalls(f, ocr)[k] == InvokePerplexity(EnabledSonarModels(f)[k], ocr)
  {
  }

  /** Each model is enabled iff its flag is off, and the enabled ones keep the fixed order. */
  lemma EnabledSonarOrder(f: Flags)
    ensures Sonar in EnabledSonarModels(f) <==> !f.noSonar
    ensures SonarPro in EnabledSonarModels(f) <==> !f.noSonarPro
    ensures SonarReasoning in EnabledSonarModels(f) <==> !f.noSonarReasoning
    ensures forall k, l :: 0 <= k < l < |EnabledSonarModels(f)| ==>
              Rank(EnabledSonarModels(f)[k]) < Rank(EnabledSonarModels(f)[l])
  {
  }

  /** The position of a model in the order sonar, sonar-pro, sonar-reasoning. */
  function Rank(model: SonarModel): nat {
    match model
    case Sonar => 0
    case SonarPro => 1
    case SonarReasoning => 2
  }

  // ---------------------------------------------------------------------------
  // One run
  // ---------------------------------------------------------------------------

  /** Running one more task of a list appends its calls, and it is the chain iff the
      longer prefix has one the shorter lacks. */
  lemma TasksPrefix(ts: seq<Task>, i: nat, f: Flags, ocr: Option<OcrResult>)
    requires i < |ts|
    ensures TasksCalls(ts[..i + 1], f, ocr) == TasksCalls(ts[..i], f, ocr) + TaskCalls(ts[i], f, ocr)
    ensures HasChain(ts[..i + 1]) <==> HasChain(ts[..i]) || ts[i].OcrChainTask?
  {
    var longer := ts[..i + 1];
    assert longer[..i] == ts[..i];
    if ts[i].OcrChainTask? {
      assert longer[i].OcrChainTask?;
    }
    if HasChain(longer) {
      var k :| 0 <= k < i + 1 && longer[k].OcrChainTask?;
      if k < i {
        assert ts[..i][k].OcrChainTask?;
      }
    }
    if HasChain(ts[..i]) {
      var k :| 0 <= k < i && ts[..i][k].OcrChainTask?;
      assert longer[k].OcrChainTask?;
    }
  }

  lemma AppendAssoc<T>(a: seq<T>, b: seq<T>, c: seq<T>)
    ensures (a + b) + c == a + (b + c)
  {
  }

  /** The state of one program run: the global `ocr_result` and the calls made so far. */
  class Run {
    var ocrResult: Option<OcrResult>
    var log: seq<Invocation>

    constructor ()
      ensures ocrResult == None && log == []
    {
      ocrResult := None;
      log := [];
    }

    /** `process_ocr_and_perplexity`: skip when OCR is disabled; otherwise run OCR once,
        store its result in the global, and stop when it is `None`; otherwise launch the
        enabled Perplexity models on it. */
    method RunOcrChain(f: Flags, image: Image, ocrReply: Result<OcrResult, BackendError>)
      modifies this
      ensures log == old(log) + ChainCalls(f, image, ProcessGeminiOcr(ocrReply))
      ensures ocrResult == if f.noGeminiOcr then old(ocrResult) else ProcessGeminiOcr(ocrReply)
    {
      if f.noGeminiOcr {
        return;
      }
      log := log + [InvokeOcr(image)];
      ocrResult := ProcessGeminiOcr(ocrReply);
      if ocrResult.None? {
        return;
      }
      var perplexityTasks: seq<Invocation> := [];
      if !f.noSonar {
        perplexityTasks := perplexityTasks + [InvokePerplexity(Sonar, ocrResult.value)];
      }
      if !f.noSonarPro {
        perplexityTasks := perplexityTasks + [InvokePerplexity(SonarPro, ocrResult.value)];
      }
      if !f.noSonarReasoning {
        perplexityTasks := perplexityTasks + [InvokePerplexity(SonarReasoning, ocrResult.value)];
      }
      log := log + perplexityTasks;
    }

    method RunTask(t: Task, f: Flags, ocrReply: Result<OcrResult, BackendError>)
      modifies this
      ensures log == old(log) + TaskCalls(t, f, ProcessGeminiOcr(ocrReply))
      ensures ocrResult == if t.OcrChainTask? && !f.noGeminiOcr then ProcessGeminiOcr(ocrReply) else old(ocrResult)
    {
      match t
      case GptTask(im) => log := log + [InvokeGpt(im)];
      case MistralTask(im) => log := log + [InvokeMistral(im)];
      case OcrChainTask(im) => RunOcrChain(f, im, ocrReply);
    }

    /** `asyncio.gather(*tasks)`, run in list order. */
    method Gather(tasks: seq<Task>, f: Flags, ocrReply: Result<OcrResult, BackendError>)
      modifies this
      ensures log == old(log) + TasksCalls(tasks, f, ProcessGeminiOcr(ocrReply))
      ensures ocrResult == if HasChain(tasks) && !f.noGeminiOcr then ProcessGeminiOcr(ocrReply) else old(ocrResult)
    {
      var o := ProcessGeminiOcr(ocrReply);
      var i := 0;
      while i < |tasks|
        invariant 0 <= i <= |tasks|
        invariant log == old(log) + TasksCalls(tasks[..i], f, o)
        invariant HasChain(tasks[..i]) && !f.noGeminiOcr ==> ocrResult == o
        invariant !(HasChain(tasks[..i]) && !f.noGeminiOcr) ==> ocrResult == old(ocrResult)
      {
        RunTask(tasks[i], f, ocrReply);
        TasksPrefix(tasks, i, f, o);
        AppendAssoc(old(log), TasksCalls(tasks[..i], f, o), TaskCalls(tasks[i], f, o));
        i := i + 1;
      }
      assert tasks[..i] == tasks;
    }

    /** `async_main`: resolve the flags, then, when the image loaded, build the task
        list and run it. */
    method AsyncMain(args: Args, image: Option<Image>, ocrReply: Result<OcrResult, BackendError>)
      modifies this, args
      ensures args.Snapshot() == Resolved(old(args.Snapshot()))
      ensures args.debug == old(args.debug) && args.timeout == old(args.timeout)
      ensures log == old(log) + RunCalls(Resolved(old(args.Snapshot())), image, ProcessGeminiOcr(ocrReply))
      ensures ocrResult == if image.Some? && !Resolved(old(args.Snapshot())).noGeminiOcr
                           then ProcessGeminiOcr(ocrReply) else old(ocrResult)
    {
      args.ResolveOnlySonar();
      if image.None? {
        return;
      }
      var f := args.Snapshot();
      var tasks: seq<Task> := [];
      if !f.noGpt {
        tasks := tasks + [GptTask(image.value)];
      }
      if !f.noMistral {
        tasks := tasks + [MistralTask(image.value)];
      }
      tasks := tasks + [OcrChainTask(image.value)];
      assert tasks == PlannedTasks(f, image.value);
      TasksNeverEmpty(f, image.value);
      Gather(tasks, f, ocrReply);
    }
  }

  /** What `main` did: refused conflicting flags, or ran. */
  datatype Outcome = FlagsConflict | Ran

  /** `main` after argument parsing: refuse more than one `--only-sonar*` flag before
      anything else happens; otherwise push the timeout to every module and run. */
  method Cli(args: Args, settings: Settings, run: Run, image: Option<Image>,
             ocrReply: Result<OcrResult, BackendError>) returns (o: Outcome)
    modifies args, settings, run
    ensures o == FlagsConflict <==> OnlySonarCount(old(args.Snapshot())) > 1
    ensures o == FlagsConflict ==> unchanged(args) && unchanged(settings) && unchanged(run)
    ensures o == Ran ==> settings.AllAre(old(args.timeout))
    ensures o == Ran ==> args.Snapshot() == Resolved(old(args.Snapshot()))
    ensures o == Ran ==> args.debug == old(args.debug) && args.timeout == old(args.timeout)
    ensures o == Ran ==> run.log == old(run.log) + RunCalls(Resolved(old(args.Snapshot())), image, ProcessGeminiOcr(ocrReply))
    ensures o == Ran ==> run.ocrResult == if image.Some? && !Resolved(old(args.Snapshot())).noGeminiOcr
                                          then ProcessGeminiOcr(ocrReply) else old(run.ocrResult)
  {
    if OnlySonarCount(args.Snapshot()) > 1 {
      return FlagsConflict;
    }
    settings.PushTimeout(args.timeout);
    run.AsyncMain(args, image, ocrReply);
    o := Ran;
  }
}
