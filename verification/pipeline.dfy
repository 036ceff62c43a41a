/** The two-stage analysis pipeline: `validate_and_analyze_sentence`
    (main.py:57-112) and `analyze_sentence_with_allam` (main.py:115-162).

    The service talks to two remote endpoints: the token exchange and the
    text-generation API. Their answers for one analysis are fixed in advance
    in an `Upstream` record, and the pipeline returns, besides its outcome,
    the trace of the exchanges it actually performed. A step that is not in
    the trace never happened, so properties about ordering ("the gate runs
    before any token fetch", "stage 2 never runs after a rejection") are
    properties of the trace. */
module Pipeline {
  import opened Options
  import Text
  import Gate
  import Messages

  /** The `input` of a generation request: which template, around which sentence. */
  datatype Prompt = ValidationPrompt(sentence: string) | AnalysisPrompt(sentence: string)

  /** The body of one generation request, apart from the configured model
      and project identifiers. Decoding is always greedy; the repetition
      penalty is kept in tenths (the source's 1.1 and 1.2). */
  datatype ModelRequest = ModelRequest(
    bearer: string,
    prompt: Prompt,
    maxNewTokens: nat,
    repetitionPenaltyTenths: nat)

  /** One answer of the generation API: the HTTP status, the raw response
      text, and the `generated_text` of the first result. */
  datatype ModelResponse = ModelResponse(status: int, body: string, generatedText: string)

  /** The answers of the four exchanges one analysis may perform: a token
      fetch and a generation call for each stage. A token is `None` when the
      exchange failed. */
  datatype Upstream = Upstream(
    token1: Option<string>,
    stage1: ModelResponse,
    token2: Option<string>,
    stage2: ModelResponse)

  /** An exchange with a remote endpoint, with the request that was sent. */
  datatype Step =
    | FetchToken1
    | CallStage1(request: ModelRequest)
    | FetchToken2
    | CallStage2(request: ModelRequest)

  /** The dictionary the pipeline returns: `{"result": ...}` or `{"error": ...}`.
      Being a datatype, it always holds exactly one of the two. */
  datatype Outcome = Result(text: string) | Error(message: string)

  datatype Run = Run(outcome: Outcome, trace: seq<Step>)

  /** `if not access_token`: a failed exchange and an empty token both count as missing. */
  predicate HasToken(token: Option<string>) {
    token.Some? && token.value != ""
  }

  function Bearer(token: Option<string>): string {
    if token.Some? then token.value else ""
  }

  /** The text sent as `input`. The validation prompt is the instruction,
      the worked examples and the sentence (main.py:67-83); the analysis
      prompt has its own instruction and ends in the analysis cue
      (main.py:121-136). */
  function Render(prompt: Prompt): string {
    match prompt
    case ValidationPrompt(s) =>
      Messages.ValidationInstruction + Messages.WorkedExamples() + Messages.SentenceLabel + s
    case AnalysisPrompt(s) =>
      Messages.AnalysisInstruction + Messages.WorkedExamples() + Messages.SentenceLabel + s + Messages.AnalysisCue
  }

  /** Stage 1 asks for at most 50 new tokens with penalty 1.1 (main.py:85-94). */
  function ValidationRequest(sentence: string, bearer: string): ModelRequest {
    ModelRequest(bearer, ValidationPrompt(sentence), 50, 11)
  }

  /** Stage 2 asks for at most 300 new tokens with penalty 1.2 (main.py:120-144). */
  function AnalysisRequest(sentence: string, bearer: string): ModelRequest {
    ModelRequest(bearer, AnalysisPrompt(sentence), 300, 12)
  }

  /** The error for a non-200 answer: the fixed prefix followed by the raw body. */
  function UpstreamError(body: string): string {
    Messages.UpstreamPrefix + body
  }

  /** The validation stage's verdict: the generated text mentions
      "incomplete" or "not understood" (main.py:109). */
  predicate FlagsUnanalyzable(validationText: string) {
    Text.Contains(validationText, Messages.IncompleteMarker)
    || Text.Contains(validationText, Messages.NotUnderstoodMarker)
  }

  /** The success text of stage 2: the generated text stripped, or the
      fallback message when nothing but whitespace was generated
      (main.py:157-160). Never empty. */
  function FinalText(generated: string): (r: string)
    ensures r != []
    ensures Text.AllSpace(generated) ==> r == Messages.Fallback
    ensures !Text.AllSpace(generated) ==> r == Text.Strip(generated)
  {
    Text.StripEmptyIff(generated);
    var stripped := Text.Strip(generated);
    if stripped == [] then Messages.Fallback else stripped
  }

  /** Every exchange a full analysis performs, in the order it performs them. */
  function FullTrace(sentence: string, up: Upstream): seq<Step> {
    [ FetchToken1, CallStage1(ValidationRequest(sentence, Bearer(up.token1))),
      FetchToken2, CallStage2(AnalysisRequest(sentence, Bearer(up.token2))) ]
  }

  /** Every check of the pipeline passes: the conditions under which the
      service answers with a result. */
  predicate Passes(sentence: string, up: Upstream) {
    && Gate.IsMostlyArabic(sentence)
    && HasToken(up.token1)
    && up.stage1.status == 200
    && !FlagsUnanalyzable(up.stage1.generatedText)
    && HasToken(up.token2)
    && up.stage2.status == 200
  }

  /** `analyze_sentence_with_allam`: fetch a token, request the full
      analysis, and turn the answer into a result or an error. */
  function AnalyzeWithAllam(sentence: string, up: Upstream): (r: Run)
    ensures r.trace <= [FetchToken2, CallStage2(AnalysisRequest(sentence, Bearer(up.token2)))]
    ensures r.trace != []
    // the generation call is made exactly when a token arrived, with that token
    ensures HasToken(up.token2) ==> r.trace == [FetchToken2, CallStage2(AnalysisRequest(sentence, up.token2.value))]
    ensures r.outcome.Result? <==> HasToken(up.token2) && up.stage2.status == 200
    ensures !HasToken(up.token2) ==> r.outcome == Error(Messages.TokenFailure) && |r.trace| == 1
    ensures HasToken(up.token2) && up.stage2.status != 200 ==> r.outcome == Error(UpstreamError(up.stage2.body))
    ensures r.outcome.Result? ==> r.outcome.text != []
    ensures r.outcome.Result? ==>
              r.outcome.text == (if Text.AllSpace(up.stage2.generatedText) then Messages.Fallback
                                 else Text.Strip(up.stage2.generatedText))
  {
    if !HasToken(up.token2) then
      Run(Error(Messages.TokenFailure), [FetchToken2])
    else
      var trace := [FetchToken2, CallStage2(AnalysisRequest(sentence, up.token2.value))];
      if up.stage2.status != 200 then
        Run(Error(UpstreamError(up.stage2.body)), trace)
      else
        Run(Result(FinalText(up.stage2.generatedText)), trace)
  }

  /** `validate_and_analyze_sentence`: the Arabic gate, then a token and the
      validation call, then the verdict, then stage 2. */
  function ValidateAndAnalyze(sentence: string, up: Upstream): (r: Run)
    // exchanges happen only in the fixed order, and none is skipped
    ensures r.trace <= FullTrace(sentence, up)
    // the gate decides before any exchange
    ensures r.trace == [] <==> !Gate.IsMostlyArabic(sentence)
    // a result exactly when every check passes, and then all four exchanges ran
    ensures r.outcome.Result? <==> Passes(sentence, up)
    ensures r.outcome.Result? ==> r.trace == FullTrace(sentence, up) && r.outcome.text != []
    // the result is stage 2's generated text, stripped, or the fallback
    ensures r.outcome.Result? ==> r.outcome.text == FinalText(up.stage2.generatedText)
    // a missing first token ends the run right after its fetch, before any model call
    ensures Gate.IsMostlyArabic(sentence) && !HasToken(up.token1) ==>
              r == Run(Error(Messages.TokenFailure), [FetchToken1])
    // a non-200 validation answer ends the run with that answer's body, before the second fetch
    ensures Gate.IsMostlyArabic(sentence) && HasToken(up.token1) && up.stage1.status != 200 ==>
              r == Run(Error(UpstreamError(up.stage1.body)),
                       [FetchToken1, CallStage1(ValidationRequest(sentence, up.token1.value))])
    // a missing second token ends the run right after its fetch, before stage 2
    ensures (Gate.IsMostlyArabic(sentence) && HasToken(up.token1) && up.stage1.status == 200
             && !FlagsUnanalyzable(up.stage1.generatedText) && !HasToken(up.token2)) ==>
              r == Run(Error(Messages.TokenFailure),
                       [FetchToken1, CallStage1(ValidationRequest(sentence, up.token1.value)), FetchToken2])
    // a non-200 analysis answer ends the run with that answer's body, after all four exchanges
    ensures (Gate.IsMostlyArabic(sentence) && HasToken(up.token1) && up.stage1.status == 200
             && !FlagsUnanalyzable(up.stage1.generatedText) && HasToken(up.token2) && up.stage2.status != 200) ==>
              r == Run(Error(UpstreamError(up.stage2.body)), FullTrace(sentence, up))
    // stage 2 is reached only past a 200 answer that does not flag the sentence
    ensures |r.trace| > 2 ==> up.stage1.status == 200 && !FlagsUnanalyzable(up.stage1.generatedText)
    // and it is always reached past such an answer
    ensures (Gate.IsMostlyArabic(sentence) && HasToken(up.token1) && up.stage1.status == 200
             && !FlagsUnanalyzable(up.stage1.generatedText)) ==> |r.trace| > 2
  {
    if !Gate.IsMostlyArabic(sentence) then
      Run(Error(Messages.NotArabic), [])
    else if !HasToken(up.token1) then
      Run(Error(Messages.TokenFailure), [FetchToken1])
    else
      var trace := [FetchToken1, CallStage1(ValidationRequest(sentence, up.token1.value))];
      if up.stage1.status != 200 then
        Run(Error(UpstreamError(up.stage1.body)), trace)
      else if FlagsUnanalyzable(up.stage1.generatedText) then
        Run(Error(Messages.ValidationRejected), trace)
      else
        var stage2 := AnalyzeWithAllam(sentence, up);
        Run(stage2.outcome, trace + stage2.trace)
  }

  /** The error a run ends with is the one its last exchange explains:
      no exchange means the gate refused, a last token fetch means the
      token was missing, a last stage-1 call means a non-200 answer (whose
      body the message embeds) or a rejection, a last stage-2 call means a
      non-200 answer. */
  lemma ErrorExplainedByLastStep(sentence: string, up: Upstream)
    ensures var r := ValidateAndAnalyze(sentence, up);
      r.outcome.Error? ==>
        && (r.trace == [] ==> r.outcome.message == Messages.NotArabic)
        && (|r.trace| in {1, 3} ==> r.outcome.message == Messages.TokenFailure)
        && (|r.trace| == 2 && up.stage1.status != 200 ==>
              r.outcome.message == UpstreamError(up.stage1.body)
              && Text.Contains(r.outcome.message, up.stage1.body))
        && (|r.trace| == 2 && up.stage1.status == 200 ==> r.outcome.message == Messages.ValidationRejected)
        && (|r.trace| == 4 ==>
              r.outcome.message == UpstreamError(up.stage2.body)
              && Text.Contains(r.outcome.message, up.stage2.body))
  {
    Text.ContainsSuffix(Messages.UpstreamPrefix, up.stage1.body);
    Text.ContainsSuffix(Messages.UpstreamPrefix, up.stage2.body);
  }

  /** A sentence the gate refuses is answered with the non-Arabic error and
      no exchange at all. */
  lemma GateRunsFirst(sentence: string, up: Upstream)
    requires !Gate.IsMostlyArabic(sentence)
    ensures ValidateAndAnalyze(sentence, up) == Run(Error(Messages.NotArabic), [])
  {
  }

  /** When the validation stage flags the sentence, the answer is the
      rejection and neither the second token fetch nor stage 2 happens. */
  lemma RejectionSkipsStage2(sentence: string, up: Upstream)
    requires Gate.IsMostlyArabic(sentence) && HasToken(up.token1) && up.stage1.status == 200
    requires FlagsUnanalyzable(up.stage1.generatedText)
    ensures ValidateAndAnalyze(sentence, up).outcome == Error(Messages.ValidationRejected)
    ensures forall step <- ValidateAndAnalyze(sentence, up).trace :: !step.FetchToken2? && !step.CallStage2?
  {
  }

  /** Two upstream records that agree on every exchange a run performs
      lead to the same run: answers of exchanges that never happened
      cannot influence the outcome. */
  predicate AgreeOn(trace: seq<Step>, up: Upstream, up': Upstream) {
    && (|trace| > 0 ==> up.token1 == up'.token1)
    && (|trace| > 1 ==> up.stage1 == up'.stage1)
    && (|trace| > 2 ==> up.token2 == up'.token2)
    && (|trace| > 3 ==> up.stage2 == up'.stage2)
  }

  lemma OnlyPerformedExchangesMatter(sentence: string, up: Upstream, up': Upstream)
    requires AgreeOn(ValidateAndAnalyze(sentence, up).trace, up, up')
    ensures ValidateAndAnalyze(sentence, up') == ValidateAndAnalyze(sentence, up)
  {
  }
}
