/** The decision logic of the two POST routes that carry logic: `/analyze`
    (`analyze_sentence`, main.py:170-183) and `/submit-quiz-answer`
    (main.py:381-389). The request's JSON fields arrive as optional strings
    (`request.json.get(...)` yields `None` for a missing field), and the
    session's history is passed in and handed back explicitly. */
module Routes {
  import opened Options
  import Text
  import Gate
  import Messages
  import Pipeline
  import History

  /** The HTTP reply: status code and JSON body. */
  datatype Reply = Reply(status: nat, body: Pipeline.Outcome)

  /** What one `/analyze` request produces: the reply, the session's
      history afterwards, and the remote exchanges performed. */
  datatype Exchange = Exchange(reply: Reply, session: History.Session, trace: seq<Pipeline.Step>)

  /** `not sentence or len(sentence.strip()) < 2`: a missing or empty
      sentence, or one with fewer than two code points once stripped. */
  predicate TooShort(sentence: Option<string>) {
    sentence.None? || sentence.value == [] || |Text.Strip(sentence.value)| < 2
  }

  /** What `/analyze` does with the session once the pipeline has answered
      (main.py:179-182): an error leaves it exactly as it was, even without
      a history key; a result is appended to the history as one entry. */
  function Record(session: History.Session, sentence: string, body: Pipeline.Outcome): (s': History.Session)
    ensures body.Error? ==> s' == session
    ensures body.Result? ==> s'.Some? && History.Stored(s') == History.Stored(session) + [History.Entry(sentence, body.text)]
  {
    match body
    case Error(_) => session
    case Result(text) => History.AddToHistory(session, sentence, text)
  }

  /** `analyze_sentence`: the length check, then the pipeline; an error
      becomes a 400 reply and leaves the history alone, a result is
      returned with status 200 and appended to the history. */
  function Analyze(sentence: Option<string>, session: History.Session, up: Pipeline.Upstream): (x: Exchange)
    // the length check answers alone: no exchange, no history change
    ensures TooShort(sentence) ==>
              x == Exchange(Reply(400, Pipeline.Error(Messages.TooShort)), session, [])
    // 400 exactly for errors, 200 exactly for results
    ensures x.reply.status == 400 <==> x.reply.body.Error?
    ensures x.reply.status == 200 <==> x.reply.body.Result?
    // a result exactly when the sentence is long enough and every pipeline check passes
    ensures x.reply.body.Result? <==> !TooShort(sentence) && Pipeline.Passes(sentence.value, up)
    // an error leaves the session exactly as it was, even without a history key
    ensures x.reply.body.Error? ==> x.session == session
    // a result adds exactly one entry, the sentence as sent with the non-empty result, at the end
    ensures x.reply.body.Result? ==>
              && x.reply.body.text != []
              && |History.Stored(x.session)| == |History.Stored(session)| + 1
              && History.Stored(x.session)[..|History.Stored(session)|] == History.Stored(session)
              && History.Stored(x.session)[|History.Stored(session)|] == History.Entry(sentence.value, x.reply.body.text)
    // past the length check, the reply carries the pipeline's outcome unchanged, and its exchanges are the pipeline's
    ensures !TooShort(sentence) ==>
              && x.reply.body == Pipeline.ValidateAndAnalyze(sentence.value, up).outcome
              && x.trace == Pipeline.ValidateAndAnalyze(sentence.value, up).trace
    // so a result is stage 2's stripped text, or the fallback
    ensures x.reply.body.Result? ==> x.reply.body.text == Pipeline.FinalText(up.stage2.generatedText)
    // exchanges happen only past the length check and the Arabic gate
    ensures x.trace != [] ==> !TooShort(sentence) && Gate.IsMostlyArabic(sentence.value)
  {
    if TooShort(sentence) then
      Exchange(Reply(400, Pipeline.Error(Messages.TooShort)), session, [])
    else
      var run := Pipeline.ValidateAndAnalyze(sentence.value, up);
      var status := if run.outcome.Error? then 400 else 200;
      Exchange(Reply(status, run.outcome), Record(session, sentence.value, run.outcome), run.trace)
  }

  /** The reply to `/analyze` does not depend on the session it runs in. */
  lemma ReplyIgnoresSession(sentence: Option<string>, s1: History.Session, s2: History.Session, up: Pipeline.Upstream)
    ensures Analyze(sentence, s1, up).reply == Analyze(sentence, s2, up).reply
    ensures Analyze(sentence, s1, up).trace == Analyze(sentence, s2, up).trace
  {
  }

  /** One answered `/analyze` request: the sentence as sent and the reply's body. */
  datatype Answered = Answered(sentence: string, body: Pipeline.Outcome)

  /** The session after the answered requests, one after the other. */
  function RecordAll(session: History.Session, answered: seq<Answered>): History.Session
    decreases |answered|
  {
    if answered == [] then session
    else RecordAll(Record(session, answered[0].sentence, answered[0].body), answered[1..])
  }

  /** The entries the successful requests among `answered` contribute, in order. */
  function Successes(answered: seq<Answered>): seq<History.Entry>
    decreases |answered|
  {
    if answered == [] then []
    else
      var a := answered[0];
      (if a.body.Result? then [History.Entry(a.sentence, a.body.text)] else []) + Successes(answered[1..])
  }

  /** The history only grows at its end: after any run of requests it is
      the history before them followed by one entry per successful request,
      in order. Entries are never changed, reordered or removed, and failed
      requests leave no trace in it. */
  lemma {:induction false} HistoryIsAppendOnly(session: History.Session, answered: seq<Answered>)
    ensures History.Stored(RecordAll(session, answered)) == History.Stored(session) + Successes(answered)
    decreases |answered|
  {
    if answered != [] {
      var a := answered[0];
      var next := Record(session, a.sentence, a.body);
      HistoryIsAppendOnly(next, answered[1..]);
      if a.body.Result? {
        assert History.Stored(next) == History.Stored(session) + [History.Entry(a.sentence, a.body.text)];
      }
    }
  }

  /** A session in which no request succeeds keeps its history key exactly
      as it was: absent stays absent. */
  lemma {:induction false} FailuresLeaveSessionAlone(session: History.Session, answered: seq<Answered>)
    requires forall i :: 0 <= i < |answered| ==> answered[i].body.Error?
    ensures RecordAll(session, answered) == session
    decreases |answered|
  {
    if answered != [] {
      assert forall i :: 0 <= i < |answered[1..]| ==> answered[1..][i] == answered[i + 1];
      FailuresLeaveSessionAlone(session, answered[1..]);
    }
  }

  /** `/submit-quiz-answer`: the success feedback exactly when the two
      submitted values are equal. A missing value is `None`, and two missing
      values compare equal, as `None == None` does. */
  function QuizFeedback(answer: Option<string>, correct: Option<string>): (feedback: string)
    ensures feedback == Messages.QuizCorrect <==> answer == correct
    ensures feedback == Messages.QuizWrong <==> answer != correct
  {
    if answer == correct then Messages.QuizCorrect else Messages.QuizWrong
  }
}
