# Trivia-speed and the filename standardiser, modelled in Dafny

This project models two programs of the `tballard34/scripts` repository.

**trivia-speed** answers a multiple-choice trivia question from a screenshot.
It asks several AI backends at once:
- GPT-4o and Mistral look at the image;
- Gemini extracts the question and options (OCR);
- up to three Perplexity "sonar" models answer from Gemini's text.

The model covers:
- each backend's reply normaliser, that is, the JSON reading with defaults and the text fallbacks used when a reply is not JSON;
- the Perplexity request that is built;
- the mapping of provider outcomes (status, timeout, exceptions) to results or exceptions;
- the `--only-sonar*` flag resolution and the mutual-exclusion check;
- the timeout pushed to every backend;
- the never-raising `process_with_*` wrappers;
- the launch plan: which backend calls a run starts, and in what order;
- the answer-grading helpers of the test script.

**rename_files.py** renames every file and directory under a root to a standard form.
The model covers:
- `standardize_name`;
- `get_unique_path`;
- the case-insensitive rename decision.

## Modules

| file | module | flavour |
|---|---|---|
| `wrappers.dfy` | `Wrappers` | `Option`, `Result` |
| `text.dfy` | `Text` | Python's `str` operations used by the code (`strip`, `lower`, `split`, `in`, `endswith`, ...), ASCII only |
| `backend.dfy` | `Backend` | the values the backends exchange: JSON, `TriviaAnalysis`, `OCRResult`, replies, exceptions |
| `perplexity.dfy` | `Perplexity` | functions: request, four-step extraction ladder, outcome mapping |
| `mistral.dfy` | `Mistral` | JSON path and error wrapping as functions; the fallback loop as methods proved against a function |
| `ocr_and_gemini.dfy` | `OcrGemini` | the same shape as `Mistral`, for the OCR scanner |
| `main.dfy` | `Orchestrator` | classes `Args`, `Settings` and `Run`, whose methods update fields in place; the launch plan as functions |
| `grading.dfy` | `Grading` | `extract_answer` and `check_answer` as functions |
| `rename.dfy` | `Rename` | `standardize_name` as functions; `get_unique_path` as a method with a loop |

These inputs are parameters:
- `json.loads` is a parameter of type `Decoder = string -> Option<Json>`. `None` means that decoding raises `JSONDecodeError`.
- Every SDK or HTTP call is given as its outcome: a reply text, a timeout, or another exception.
- API keys are `Option<string>` parameters.
- `os.path.exists` is membership in a finite set of existing paths.

Concurrent tasks are run one after the other, in the order in which they are created. A `Run` object records every backend call that a run starts, in an invocation log.

A successful normalisation can have an empty answer:
- Mistral's and Gemini's JSON paths default a missing answer to `""` (`Mistral.JsonFieldsDefault`, `OcrGemini.JsonFieldsDefault`).
- Step 3 of the Perplexity ladder returns `""` when only a rationale is found (`Perplexity.ReasoningEmptyAnswer`).

The Mistral fallback lower-cases every labelled value, because it cuts the value from the lower-cased line (`Mistral.ScanAnswerLower`).

## Model

| member | source | states |
|---|---|---|
| Backend.AnalysisWithDefaults | trivia-speed/scripts/mistral.py:157-162 | a decoded object yields an analysis iff each of the two fields is missing or a string; a missing field reads as `""` |
| Backend.AnalysisStrict | trivia-speed/scripts/perplexity.py:241 | `TriviaAnalysis(**v)` succeeds iff `v` is an object whose `rationale` and `answer` are both present and strings, and then carries exactly those two strings |
| Perplexity.UserPrompt | trivia-speed/scripts/perplexity.py:78-83 | defines the user prompt as the header then the numbered options joined by newlines; PrepareRequest, NumberedOptions and PromptOptionLines state its shape |
| Perplexity.NumberedOptions | trivia-speed/scripts/perplexity.py:81 | one line per option, the i-th reading `"{i+1}. {option}"` |
| Perplexity.PrepareRequest | trivia-speed/scripts/perplexity.py:68-108 | the request has the given model and max_tokens, and temperature 0.1; its messages are exactly the system prompt and then one user message; the user message starts with `"Question: " + q + "\n\nOptions:\n"` and is exactly that when there are no options; the user message is the header followed by the numbered options joined by newlines; the schema names `rationale` and `answer` |
| Perplexity.PromptOptionLines | trivia-speed/scripts/perplexity.py:80-83 | when no option spans lines, the text after the header splits into exactly the numbered option lines, in order |
| Perplexity.FenceBlock | trivia-speed/scripts/perplexity.py:123-125 | the fenced block, when there is one, is stripped |
| Perplexity.FenceBlockExists | trivia-speed/scripts/perplexity.py:123-124 | the block exists iff a "```json" fence is followed by a "```" fence |
| Perplexity.BraceSpan | trivia-speed/scripts/perplexity.py:133 | a span starts with `{` and ends with `}` |
| Perplexity.BraceSpanExtent | trivia-speed/scripts/perplexity.py:133 | a span runs from the first `{` of the text to its last `}` |
| Perplexity.BraceSpanExists | trivia-speed/scripts/perplexity.py:133-134 | the span exists iff a `{`, a quoted `rationale`, a quoted `answer` and a `}` occur in that order |
| Perplexity.BraceSpanWhole | trivia-speed/scripts/perplexity.py:133-136 | a text that is itself `{...}`, holding a quoted `rationale` before a quoted `answer`, is its own span |
| Perplexity.SkipSpaces | trivia-speed/scripts/perplexity.py:146-147 | returns the first non-whitespace index at or after the start; everything skipped is whitespace |
| Perplexity.PairValueAt | trivia-speed/scripts/perplexity.py:146-147 | the captured value holds no `"` |
| Perplexity.FirstPair | trivia-speed/scripts/perplexity.py:146-147 | returns the least index where the pattern matches, and none when it matches nowhere |
| Perplexity.QuotedValue | trivia-speed/scripts/perplexity.py:146-152 | the extracted value holds no `"` |
| Perplexity.ExtractJsonFromSonarReasoning | trivia-speed/scripts/perplexity.py:110-167 | defines the four-step ladder, where the first step that yields a value wins; TraceBlockWins, TraceBlockFallsThrough, PlainObjectAccepted, QuotedPairsDecide, NothingParses and FencedReplyWins state what each step decides |
| Perplexity.TraceBlockWins | trivia-speed/scripts/perplexity.py:120-127 | with `<think>` present and a fenced block that decodes, that block's value is returned, whatever the later steps would give |
| Perplexity.TraceBlockFallsThrough | trivia-speed/scripts/perplexity.py:120-132 | without `<think>`, without a fenced block, or when the block does not decode, steps 2 to 4 decide |
| Perplexity.PlainObjectAccepted | trivia-speed/scripts/perplexity.py:133-136 | a plain JSON object without a trace, holding a quoted `rationale` before a quoted `answer`, is decoded whole |
| Perplexity.QuotedPairsDecide | trivia-speed/scripts/perplexity.py:141-156 | when steps 1 and 2 give nothing and either quoted pair is found, the result validates as the two found values, with `""` for a missing one |
| Perplexity.NothingParses | trivia-speed/scripts/perplexity.py:158-167 | when nothing decodes and no pair is found, the fixed parse-failure analysis is returned |
| Perplexity.FencedReplyWins | trivia-speed/scripts/perplexity.py:110-127 | a reply shaped like the reasoning model's output (a trace, then a fenced JSON block) yields the block's value |
| Perplexity.Handle | trivia-speed/scripts/perplexity.py:206-261 | defines the outcome of the request handler for a model and a reply; ApiFailedIff, JsonFailedIff, DirectAnswerReturned, EmptyBodyFails and SentinelIdentifiesOutcome characterise it |
| Perplexity.ReplyContent | trivia-speed/scripts/perplexity.py:229 | content can be read only from an object body |
| Perplexity.CompletionContent | trivia-speed/scripts/perplexity.py:229 | returns the content of the first choice of a well-formed completion |
| Perplexity.MissingContentDefaults | trivia-speed/scripts/perplexity.py:229 | any body without `choices` reads as the content `"{}"` |
| Perplexity.MissingMessageDefaults | trivia-speed/scripts/perplexity.py:229 | a body whose first choice has no `message` reads as the content `"{}"`, whatever the other choices are |
| Perplexity.MissingTextDefaults | trivia-speed/scripts/perplexity.py:229 | a body whose first choice's message has no `content` reads as the content `"{}"` |
| Perplexity.ApiErrorAnalysis | trivia-speed/scripts/perplexity.py:214-220 | with a key, a non-200 status yields exactly the analysis "API error: <status>" / "Error (API failed)" |
| Perplexity.TimeoutAnalysis | trivia-speed/scripts/perplexity.py:250-255 | with a key, a timeout yields exactly the analysis "Request timed out after <timeout> seconds" / "Error (timeout)" |
| Perplexity.RaisedAnalysis | trivia-speed/scripts/perplexity.py:256-261 | with a key, another exception yields exactly the analysis "Error: <message>" / "Error (processing failed)" |
| Perplexity.ParseErrorAnalysis | trivia-speed/scripts/perplexity.py:236-249 | with a key and a model other than sonar-reasoning, content that does not decode yields exactly the analysis "Failed to parse JSON response" / "Error (parsing failed)" |
| Perplexity.Validate | trivia-speed/scripts/perplexity.py:241-261 | the result is parsed iff strict validation succeeds; it is then that analysis; every other case is a processing failure |
| Perplexity.Report | trivia-speed/scripts/perplexity.py:214-267 | returns a parsed analysis as it is; every failure answer starts with `Error (`; the timeout and API-error rationales carry the timeout and the status |
| Perplexity.SentinelIdentifiesOutcome | trivia-speed/scripts/perplexity.py:217-261 | two failure answers are equal iff they come from the same kind of failure |
| Perplexity.AnalyzeTriviaWithPerplexity | trivia-speed/scripts/perplexity.py:169-267 | without a key, nothing is sent and `None` is returned; with a key, the prepared request is sent and the reported analysis is returned |
| Perplexity.ApiFailedIff | trivia-speed/scripts/perplexity.py:214-220 | the API-failure result occurs iff the status is not 200, and it carries that status |
| Perplexity.JsonFailedIff | trivia-speed/scripts/perplexity.py:232-248 | the JSON-failure result occurs iff a model other than `sonar-reasoning` gets 200 and content that does not decode |
| Perplexity.DirectAnswerReturned | trivia-speed/scripts/perplexity.py:228-241 | a completion whose content decodes to the two strings is returned as exactly that analysis |
| Perplexity.EmptyBodyFails | trivia-speed/scripts/perplexity.py:229-241 | an empty body ends in a processing failure, for every model |
| Perplexity.ReasoningEmptyAnswer | trivia-speed/scripts/perplexity.py:141-156 | the reasoning model can return an empty answer |
| Mistral.LabelStep | trivia-speed/scripts/mistral.py:174-184 | defines one iteration of the labelled-line loop; AnswerLabelWins, RationaleLabelReplaces and UnlabelledStep state its three branches |
| Mistral.FallbackAnalysis | trivia-speed/scripts/mistral.py:163-195 | defines the fallback for a reply that is not JSON; ScanFallback computes it, and FallbackAnswerIff, FallbackRationaleStripped, LastAnswerLineWins and NoLabelsLastLine characterise it |
| Mistral.Process | trivia-speed/scripts/mistral.py:155-195 | defines the inner handler as the JSON path (AnalysisWithDefaults) or the fallback; NonJsonNeverFails and JsonFieldsDefault state its two paths |
| Mistral.LabelValue | trivia-speed/scripts/mistral.py:176-182 | a labelled value is stripped |
| Mistral.ScanLine | trivia-speed/scripts/mistral.py:174-184 | one loop iteration performs exactly one scan step |
| Mistral.ScanAll | trivia-speed/scripts/mistral.py:173-184 | the loop computes exactly the scan of all lines |
| Mistral.ScanFallback | trivia-speed/scripts/mistral.py:166-195 | the imperative fallback returns exactly the reference fallback analysis |
| Mistral.ScanLinesPrefix | trivia-speed/scripts/mistral.py:173-184 | scanning one more line is one more step |
| Mistral.FallbackRationaleStripped | trivia-speed/scripts/mistral.py:195 | the returned rationale is stripped |
| Mistral.FallbackAnswerIff | trivia-speed/scripts/mistral.py:191-195 | the fallback answer is empty iff the reply is blank |
| Mistral.BlankReplyScan | trivia-speed/scripts/mistral.py:166-189 | a blank reply is one empty line, in which neither scan finds an answer |
| Mistral.AnswerLabelWins | trivia-speed/scripts/mistral.py:175-178 | a line holding `answer:` sets only the answer, even when it also holds `rationale:` |
| Mistral.RationaleLabelReplaces | trivia-speed/scripts/mistral.py:179-182 | a `rationale:` line without `answer:` replaces the rationale gathered so far |
| Mistral.LastAnswerLineWins | trivia-speed/scripts/mistral.py:173-178 | the last `answer:` line decides the answer |
| Mistral.NoAnswerLine | trivia-speed/scripts/mistral.py:173-184 | without an `answer:` line the scanned answer is empty |
| Mistral.LabelValueLower | trivia-speed/scripts/mistral.py:176-182 | a value cut from lower-case text has no upper-case letter |
| Mistral.ScanAnswerLower | trivia-speed/scripts/mistral.py:173-184 | every answer the scan settles on has no upper-case letter |
| Mistral.LabelledAnswerLowerCase | trivia-speed/scripts/mistral.py:171-195 | a found labelled answer is returned, and it is lower case |
| Mistral.UnlabelledStep | trivia-speed/scripts/mistral.py:183-184 | an unlabelled line seen while the answer is empty appends its stripped text and a space |
| Mistral.UnlabelledAccumulate | trivia-speed/scripts/mistral.py:173-184 | over unlabelled lines the scan gathers exactly the concatenation of the lines' shares |
| Mistral.LastReplyLine | trivia-speed/scripts/mistral.py:186-189 | the last line of a reply that is not blank is not blank |
| Mistral.NoLabelsLastLine | trivia-speed/scripts/mistral.py:185-189 | without label words, the answer is the last line and the rationale is the earlier lines joined by spaces, both stripped |
| Mistral.AnalyzeTriviaWithMistral | trivia-speed/scripts/mistral.py:116-205 | a missing key raises the key error; every failure is a `ValueError`; with a key, every failure carries the outer prefix; success holds iff there was a reply and its processing succeeded, and then the result is the processed reply |
| Mistral.JsonReplyReturned | trivia-speed/scripts/mistral.py:156-162 | a JSON reply whose fields read with the `.get` defaults is returned as exactly that analysis |
| Mistral.NonJsonNeverFails | trivia-speed/scripts/mistral.py:163-195 | a non-JSON reply always gives the fallback analysis, with an answer when the reply is not blank |
| Mistral.TimeoutBecomesValueError | trivia-speed/scripts/mistral.py:197-205 | the timeout leaves as a `ValueError` whose message is the outer prefix followed by the timeout text |
| Mistral.PrepFailureWrappedOnce | trivia-speed/scripts/mistral.py:197-205 | a failure while preparing the request carries only the outer prefix; a failure inside the request handler carries the outer and the processing prefix |
| Mistral.JsonFieldsDefault | trivia-speed/scripts/mistral.py:156-162 | a JSON object without either field succeeds with two empty strings |
| OcrGemini.OcrStep | trivia-speed/scripts/ocr_and_gemini.py:185-194 | defines one iteration of the line scanner; QuestionStep, OptionsStep, AnswerStep, ReasonOverwrites and RationaleKeepsFirst state what each test does |
| OcrGemini.OcrFallback | trivia-speed/scripts/ocr_and_gemini.py:171-204 | defines the fallback for a reply that is not JSON; ParseOcrText computes it, and OcrFallbackDefaults, FirstQuestionLineWins, FirstAnswerLineWins and OptionsInOrder characterise it |
| OcrGemini.Process | trivia-speed/scripts/ocr_and_gemini.py:159-204 | defines the inner handler as the JSON path (OcrWithDefaults) or the fallback; NonJsonNeverFails and JsonFieldsDefault state its two paths |
| OcrGemini.StringList | trivia-speed/scripts/ocr_and_gemini.py:166 | returns a list iff every item is a string, and the list holds exactly those strings |
| OcrGemini.OcrWithDefaults | trivia-speed/scripts/ocr_and_gemini.py:162-170 | the reply validates iff it is an object whose `question`, `rationale` and `answer` are each missing or a string and whose `options` is missing or a list of strings; the result then holds exactly those values, with `""` and `[]` for missing fields |
| OcrGemini.ColonValue | trivia-speed/scripts/ocr_and_gemini.py:187 | without `:` the given default is used; with one, the value is stripped |
| OcrGemini.ScanOcrLine | trivia-speed/scripts/ocr_and_gemini.py:185-194 | one loop iteration performs exactly one scan step |
| OcrGemini.ScanOcrLines | trivia-speed/scripts/ocr_and_gemini.py:184-194 | the loop computes exactly the scan of all lines |
| OcrGemini.ParseOcrText | trivia-speed/scripts/ocr_and_gemini.py:174-204 | the imperative fallback returns exactly the reference fallback result |
| OcrGemini.OcrLinesPrefix | trivia-speed/scripts/ocr_and_gemini.py:184-194 | scanning one more line is one more step |
| OcrGemini.QuestionStep | trivia-speed/scripts/ocr_and_gemini.py:186-187 | only a line mentioning "question" while none is set changes the question, to its value |
| OcrGemini.OptionsStep | trivia-speed/scripts/ocr_and_gemini.py:185-190 | unless the question test claims the line (it mentions "question", no question is set yet, and it is also an option line), a line adds one option iff it is an option line |
| OcrGemini.FirstQuestionLineWins | trivia-speed/scripts/ocr_and_gemini.py:186-187 | the first "question" line supplies the question, and later lines never replace it |
| OcrGemini.NoQuestionLine | trivia-speed/scripts/ocr_and_gemini.py:186-187 | without a "question" line, the scanned question is empty |
| OcrGemini.AnswerStep | trivia-speed/scripts/ocr_and_gemini.py:186-192 | a line changes the answer only if it reaches the answer test (the question and option tests do not claim it), mentions "answer", and no answer is set yet; it then sets the line's value |
| OcrGemini.NoAnswerBefore | trivia-speed/scripts/ocr_and_gemini.py:185-192 | while no line has reached the answer test, the answer stays empty |
| OcrGemini.AnswerKept | trivia-speed/scripts/ocr_and_gemini.py:191-192 | once the answer is set, no later line changes it |
| OcrGemini.AnswerSetAt | trivia-speed/scripts/ocr_and_gemini.py:191-192 | a line that reaches the answer test while the answer is empty, with a non-empty value, fixes the final answer |
| OcrGemini.FirstAnswerLineWins | trivia-speed/scripts/ocr_and_gemini.py:185-192 | the first line that reaches the answer test supplies the answer when its value is not empty, and no later line replaces it; earlier "answer" lines that the question or option test claims do not count |
| OcrGemini.OptionsBounded | trivia-speed/scripts/ocr_and_gemini.py:188-190 | each line adds at most one option |
| OcrGemini.OptionsInOrder | trivia-speed/scripts/ocr_and_gemini.py:185-190 | the options are exactly the option lines' texts, in input order, whenever every option line that mentions "question" comes after the question is set |
| OcrGemini.ReasonOverwrites | trivia-speed/scripts/ocr_and_gemini.py:193-194 | an unclaimed `reason` line always overwrites the rationale and changes nothing else |
| OcrGemini.RationaleKeepsFirst | trivia-speed/scripts/ocr_and_gemini.py:193-194 | a `rationale` line without `reason` changes nothing once a rationale is set |
| OcrGemini.OcrFallbackDefaults | trivia-speed/scripts/ocr_and_gemini.py:196-204 | the rationale is never empty; a missing question, answer and rationale become the first line, the last line and the fixed text |
| OcrGemini.ExtractTextWithGemini | trivia-speed/scripts/ocr_and_gemini.py:112-214 | a missing key raises the key error; every failure is a `ValueError`; with a key, every failure carries the outer prefix; success holds iff there was a reply and its processing succeeded, and then the result is the processed reply |
| OcrGemini.JsonReplyReturned | trivia-speed/scripts/ocr_and_gemini.py:160-170 | a JSON reply whose fields read with the `.get` defaults is returned as exactly that OCR result |
| OcrGemini.NonJsonNeverFails | trivia-speed/scripts/ocr_and_gemini.py:171-204 | a non-JSON reply always gives the fallback result, whose rationale is not empty |
| OcrGemini.TimeoutBecomesValueError | trivia-speed/scripts/ocr_and_gemini.py:206-214 | the timeout leaves as a `ValueError` with the outer prefix |
| OcrGemini.PrepFailureWrappedOnce | trivia-speed/scripts/ocr_and_gemini.py:206-214 | a failure while preparing the request carries only the outer prefix; a failure inside the request handler carries the outer and the processing prefix |
| OcrGemini.JsonFieldsDefault | trivia-speed/scripts/ocr_and_gemini.py:160-170 | an empty JSON object succeeds with all defaults |
| Orchestrator.ModelNamesDistinct | trivia-speed/scripts/main.py:335-342 | the three Perplexity models are sent under three distinct names |
| Orchestrator.OnlySonarCount | trivia-speed/scripts/main.py:411-412 | the count is at most 3; it is 0 iff no only-flag is set, and 1 iff exactly one is set |
| Orchestrator.Resolved | trivia-speed/scripts/main.py:247-277 | defines the flags after the `--only-sonar*` handling; OnlySonarResolution, NoOnlySonarKeepsFlags and ResolvedIdempotent characterise it |
| Orchestrator.OnlySonarResolution | trivia-speed/scripts/main.py:247-277 | with exactly one only-flag: GPT and Mistral off, OCR on, exactly the chosen Sonar model on, `show_ocr` off |
| Orchestrator.NoOnlySonarKeepsFlags | trivia-speed/scripts/main.py:247 | without an only-flag the flags are untouched |
| Orchestrator.ResolvedIdempotent | trivia-speed/scripts/main.py:247-277 | resolving twice is resolving once |
| Orchestrator.Args.constructor | trivia-speed/scripts/main.py:405-408 | the parsed arguments hold the given flags, debug and timeout |
| Orchestrator.Args.ResolveOnlySonar | trivia-speed/scripts/main.py:247-277 | the fields of `args` become the resolved flags; debug and timeout are kept |
| Orchestrator.Settings.constructor | trivia-speed/scripts/main.py:69 | every module timeout starts at its default, 15 |
| Orchestrator.Settings.PushTimeout | trivia-speed/scripts/main.py:418-423 | `main`'s timeout and the four module timeouts all become the given value |
| Orchestrator.ProcessAnalysis | trivia-speed/scripts/main.py:79-133 | it shows the answer iff the call succeeded; it reports a timeout iff the call raised `TimeoutError`; otherwise it reports the exception's message |
| Orchestrator.MistralNeverReportsTimeout | trivia-speed/scripts/main.py:122-127 | the timeout branch of `process_with_mistral` is never taken; a Mistral timeout reaches it as a failure |
| Orchestrator.ProcessGeminiOcr | trivia-speed/scripts/main.py:188-240 | returns the OCR result iff the call succeeded, and `None` on any exception |
| Orchestrator.GeminiTimeoutIsValueError | trivia-speed/scripts/main.py:227-233 | every Gemini failure is a `ValueError`, and a timeout gives `None` |
| Orchestrator.ProcessWithPerplexity | trivia-speed/scripts/main.py:135-186 | the result is passed through; it is shown iff present; `None` is reported as a failure naming the model |
| Orchestrator.PerplexityWrapperResult | trivia-speed/scripts/main.py:149-172 | the wrapper returns `None` iff there is no key, and otherwise the backend's analysis |
| Orchestrator.TasksNeverEmpty | trivia-speed/scripts/main.py:349-355 | the task list always ends with the OCR chain, so the "all disabled" return is unreachable |
| Orchestrator.RunCalls | trivia-speed/scripts/main.py:301-358 | defines the backend calls one run starts; RunCallsExpanded, ImageCalls, OcrAtMostOnce and PerplexityAfterOcr characterise it |
| Orchestrator.RunCallsExpanded | trivia-speed/scripts/main.py:301-358 | a run calls GPT if enabled, then Mistral if enabled, then the OCR chain |
| Orchestrator.ImageCalls | trivia-speed/scripts/main.py:304-312 | GPT is called iff `not no_gpt` and Mistral iff `not no_mistral`; every image call gets the run's one image |
| Orchestrator.ChainCallsShape | trivia-speed/scripts/main.py:316-346 | the chain is one OCR call on the image followed only by Perplexity calls; it is empty iff OCR is disabled |
| Orchestrator.OcrAtMostOnce | trivia-speed/scripts/main.py:316-330 | OCR is called at most once, and exactly when there is an image and OCR is enabled; with OCR disabled only GPT and Mistral run |
| Orchestrator.PerplexityAfterOcr | trivia-speed/scripts/main.py:326-346 | Perplexity runs only after OCR returned a result, all on that one result; the run ends with exactly the enabled models' calls |
| Orchestrator.SonarCallsModels | trivia-speed/scripts/main.py:333-342 | one Perplexity call per enabled model, in order, on the same OCR result |
| Orchestrator.EnabledSonarOrder | trivia-speed/scripts/main.py:335-342 | each model is enabled iff its `no_*` flag is false, in the order sonar, sonar-pro, sonar-reasoning |
| Orchestrator.Run.constructor | trivia-speed/scripts/main.py:76-77 | the global `ocr_result` starts as `None`, and nothing has been called yet |
| Orchestrator.Run.RunOcrChain | trivia-speed/scripts/main.py:316-346 | appends exactly the chain's calls to the log; the global `ocr_result` changes only when OCR ran, to what it returned |
| Orchestrator.Run.RunTask | trivia-speed/scripts/main.py:301-349 | appends exactly the task's calls to the log; only the OCR chain writes `ocr_result` |
| Orchestrator.Run.Gather | trivia-speed/scripts/main.py:358 | appends the calls of all tasks, in list order |
| Orchestrator.Run.AsyncMain | trivia-speed/scripts/main.py:242-358 | `args` becomes the resolved flags, and the log grows by exactly the run's calls on the resolved flags |
| Orchestrator.Cli | trivia-speed/scripts/main.py:410-434 | conflict iff more than one only-flag is set, and then nothing changes; otherwise every timeout takes the given value, `args` becomes the resolved flags with debug and timeout kept, the run's calls are logged, and the OCR result is stored exactly when there is an image and OCR is enabled |
| Grading.ExtractAnswer | trivia-speed/scripts/test/test-script.py:105-134 | defines `extract_answer`; EmptyOutput, MarkedLineWins, IntroducedLineWins, LastNonBlankLine and AllBlankLines state what each stage returns |
| Grading.FirstMarked | trivia-speed/scripts/test/test-script.py:112-113 | returns the first line holding `ANSWER:`, or none when no line holds it |
| Grading.Truncated | trivia-speed/scripts/test/test-script.py:132-134 | the result has at most 50 characters; an output of up to 50 is returned as it is; a longer one becomes its first 47 characters and `...` |
| Grading.EmptyOutput | trivia-speed/scripts/test/test-script.py:108-109 | `extract_answer("")` is `""` |
| Grading.MarkedLineWins | trivia-speed/scripts/test/test-script.py:112-114 | the first marked line, with every marker removed and then stripped, is the answer |
| Grading.ByLines | trivia-speed/scripts/test/test-script.py:108-117 | a non-empty output is answered from the lines it splits into at `\n` |
| Grading.FirstOfferAt | trivia-speed/scripts/test/test-script.py:118-124 | the search over the lines' offers stops at the first line that offers a follow-up |
| Grading.NoOffer | trivia-speed/scripts/test/test-script.py:118-124 | when no line offers a follow-up, the search finds nothing |
| Grading.NoneOffered | trivia-speed/scripts/test/test-script.py:116-124 | lines none of which introduces the answer with a non-blank follow-up give no follow-up |
| Grading.IntroducedLineWins | trivia-speed/scripts/test/test-script.py:116-124 | otherwise, at the first introducing line with a non-blank next or next-but-one line, that following line, stripped, is the answer |
| Grading.FilterMapEmpty | trivia-speed/scripts/test/test-script.py:127 | the comprehension is empty iff no line passes its test |
| Grading.FilterMapLastKept | trivia-speed/scripts/test/test-script.py:127-129 | the last kept element is the image of the last element that passes the test |
| Grading.LastNonBlankLine | trivia-speed/scripts/test/test-script.py:126-129 | for lines with no marker and no follow-up, the last non-blank line, stripped, is the answer, and it is not empty |
| Grading.LastKept | trivia-speed/scripts/test/test-script.py:127-129 | the last resort picks the last non-blank line, stripped |
| Grading.AllBlankLines | trivia-speed/scripts/test/test-script.py:131-134 | lines that are all blank give the truncated output, at most 50 characters |
| Grading.BlankHasNoMarker | trivia-speed/scripts/test/test-script.py:113 | a blank line never holds the marker |
| Grading.AsList | trivia-speed/scripts/test/test-script.py:71-72 | a single string is the one-element list; a list stays as it is |
| Grading.AnyMatchesIff | trivia-speed/scripts/test/test-script.py:82-103 | the loop returns True iff some expected answer matches |
| Grading.Matches | trivia-speed/scripts/test/test-script.py:82-101 | defines the match of one expected answer; CaseInsensitive, DigitsOnly and DollarsMatchDigits state its three tests |
| Grading.CheckAnswer | trivia-speed/scripts/test/test-script.py:68-103 | defines `check_answer`; CheckAnswerIff, SingleIsList and NothingExpected characterise it |
| Grading.CheckAnswerIff | trivia-speed/scripts/test/test-script.py:68-103 | `check_answer` holds iff some expected answer matches the output or the extracted answer |
| Grading.SingleIsList | trivia-speed/scripts/test/test-script.py:71-72 | a string and its one-element list are graded alike |
| Grading.NothingExpected | trivia-speed/scripts/test/test-script.py:82-103 | an empty expected list never matches |
| Grading.CaseInsensitive | trivia-speed/scripts/test/test-script.py:75-87 | an expected answer that occurs in the output, ignoring case, is accepted |
| Grading.DigitsOnly | trivia-speed/scripts/test/test-script.py:93-101 | an expected answer with a digit is accepted when its digits occur among the output's digits |
| Grading.DollarsMatchDigits | trivia-speed/scripts/test/test-script.py:93-101 | `"$7,000"` is accepted for the output `"7000"` |
| Rename.StandardizeName | rename_files.py:4-101 | defines `standardize_name`; PreservedUnchanged, StandardCharset, Rewritten, StandardFixed and Idempotent characterise it |
| Rename.SnakeCase | rename_files.py:97 | defines the camel-case split: an `_` before each upper-case letter that is not first and follows a letter or digit; SnakeCaseIdentity and SnakeCaseMyFile characterise it |
| Rename.AmpToAnd | rename_files.py:96 | the result holds no `&` |
| Rename.DropSeps | rename_files.py:99 | the result does not start with a separator |
| Rename.CollapseSeps | rename_files.py:99 | the result holds no whitespace and no `-` |
| Rename.KeepStandard | rename_files.py:100 | the result holds only `[a-z0-9_.]` |
| Rename.PreservedUnchanged | rename_files.py:92-93 | a preserved name is returned unchanged |
| Rename.StandardCharset | rename_files.py:95-100 | every other name comes out over `[a-z0-9_.]` |
| Rename.Rewritten | rename_files.py:95-101 | a name that is not preserved goes through the four rewriting steps |
| Rename.AmpToAndIdentity | rename_files.py:96 | replacing `&` leaves a name without `&` unchanged |
| Rename.SnakeCaseIdentity | rename_files.py:97 | inserting `_` leaves a name without upper-case letters unchanged |
| Rename.LowerIdentity | rename_files.py:98 | lower-casing leaves a name without upper-case letters unchanged |
| Rename.CollapseSepsIdentity | rename_files.py:99 | collapsing separators leaves a name without separators unchanged |
| Rename.KeepStandardIdentity | rename_files.py:100 | filtering leaves a standard name unchanged |
| Rename.StandardFixed | rename_files.py:91-101 | a name over `[a-z0-9_.]` is returned unchanged |
| Rename.Idempotent | rename_files.py:91-101 | standardising twice is standardising once |
| Rename.LiteralPatternKept | rename_files.py:34-93 | a name that is literally `~$*` is kept through set membership, although it does not end in `~$` |
| Rename.SeparatorRun | rename_files.py:99 | a run of whitespace and `-` before another character becomes one `_` |
| Rename.DropAllSeps | rename_files.py:99 | dropping separators removes exactly the leading run |
| Rename.KeepsNonSeparator | rename_files.py:99 | any other character is kept in place |
| Rename.NoStarSuffix | rename_files.py:92 | a name without `.` or `~` matches no starred pattern |
| Rename.MyFileNotPreserved | rename_files.py:14-92 | `myFile` is not preserved |
| Rename.SnakeCaseMyFile | rename_files.py:97 | `myFile` becomes `my_File` before lower-casing |
| Rename.CamelCaseExample | rename_files.py:95-101 | `myFile` becomes `my_file` |
| Rename.SplitExt | rename_files.py:111 | base and extension make up the path; the extension is empty, or it is one `.` with no further `.` or `/`; a non-empty extension has a non-dot character before it in the last component |
| Rename.NumberedDistinct | rename_files.py:115-118 | distinct counters give distinct candidate paths |
| Rename.TriedGrows | rename_files.py:115-116 | each new candidate is one not tried before |
| Rename.GetUniquePath | rename_files.py:103-118 | the result never exists; it is the path itself when that is free; otherwise it is the candidate with the least free counter, which is at most one more than the number of existing paths |
| Rename.PathJoin | rename_files.py:141-142 | defines POSIX two-argument `os.path.join`; JoinRelative states its form for a relative name |
| Rename.ShouldRename | rename_files.py:145 | defines the case-insensitive rename test `old_path.lower() != new_path.lower()`; RenameIff reduces it to the names |
| Rename.JoinRelative | rename_files.py:140-142 | joining a name without `/` puts the root's prefix before the name |
| Rename.LowerPrefixIff | rename_files.py:145 | a shared prefix does not change whether two paths agree up to case |
| Rename.StandardNoSlash | rename_files.py:138-141 | the standard form of a name without `/` has no `/` |
| Rename.RenameIff | rename_files.py:137-147 | an entry is renamed iff its name and its standard form differ other than in case |
| Rename.StandardNotRenamed | rename_files.py:137-147 | a name that is already standard is never renamed |
| Rename.RenameTarget | rename_files.py:103-161 | a target exists iff the entry is to be renamed; the target never exists already; it is the standard path when that is free, and otherwise the standard path numbered with the least counter whose path is free, at most one above the number of existing paths |

## Left out

- `trivia-speed/scripts/chatgpt.py` is not part of this model. It is a thin SDK wrapper. `process_with_gpt` is modelled on its result (`Orchestrator.ProcessAnalysis`).
- `trivia-speed/scripts/screenshot.py` is not part of this model. It covers screen capture, PIL resizing and JPEG/base64 encoding, and its float region arithmetic. An image is an opaque `Image` value, and a failed load is `None`.
- I/O and external services are left out: network clients, SDK calls, `asyncio` scheduling, thread pools and `shutdown()`, printing, ANSI colours, logging, `argparse`, `time.time()`, and `os.walk`/`os.rename`/`input()`. SDK and HTTP outcomes are parameters.
- Concurrency: tasks are run sequentially, in creation order. Interleavings of concurrent tasks are not modelled.
- `json.loads` is a parameter, not a parser. Lemmas state what they require of it.
- Character classes (`str.lower`, `isspace`, `isalpha`, `isdigit`, and `\w`/`\s` in `standardize_name`) are ASCII only. Other Unicode letters, digits and spaces are treated as other characters.
- Python's own exception texts (pydantic, `AttributeError`, indexing) are not modelled. One fixed text per kind of fault stands in for them (`Backend.Describe`).
- Pydantic's coercions are not modelled. A field validates only when it is a JSON string, or a list of JSON strings for `options`.
- The `prepare_api_request` of Mistral and Gemini are left out: they only encode the image. An exception while the request is prepared is a `PrepFailed` reply, which only the outer handler rewraps. An exception inside the request handler, such as one raised by the client, is a `Raised` reply, which both handlers rewrap.
- Perplexity's "Error (preparation failed)" result is left out. Building the request from an `OcrResult` cannot raise in the model.
- The sample reasoning trace of `trivia-speed/scripts/test_sonar_reasoning.py` is not checked literally. `Perplexity.FencedReplyWins` covers every reply of that shape.
- `Perplexity.Temperature` is a `real` constant. Floats are otherwise absent.
- The timeout is a plain integer. The `set_api_timeout` functions are the `Orchestrator.Settings` fields that `PushTimeout` writes.
- The `if not tasks` branch of `async_main` is not modelled. `Orchestrator.TasksNeverEmpty` proves it unreachable.
- The printed text is not modelled. `Orchestrator.Report` records the answer shown, that a timeout was reported, or the exception text of a failure, which only debug mode prints. The fixed non-debug messages are left out.
- `Rename.StarSuffixes` lists the starred patterns with `*` already removed, rather than computing `pat.replace('*', '')`.
- `Rename.PathJoin` models POSIX `os.path.join` with two arguments. `Rename.RenameIff` requires an entry name without `/`, as `os.walk` yields them.
- `rename_files_recursive` is modelled by its per-entry decision only (`Rename.RenameTarget`). The walk, the files-then-directories order and the renames on disk are left out.
- The `main()` functions of `main.py` and of the test script are left out beyond the flag check, timeout push and run in `Orchestrator.Cli`. This includes timing, result tables and `subprocess.run`.
