# Arabic sentence analysis service — decision core in Dafny

The service accepts an Arabic sentence, checks that it is long enough and
mostly Arabic, asks a hosted language model in two stages whether the
sentence can be analysed and then for its full case-ending analysis
("i'rab"), and returns the generated text. Successful analyses are kept in
a per-session history. A small quiz endpoint compares a submitted answer
with the expected one.

This project models that decision logic as pure functions:

- `Text` — Python's `str.strip()` (with the exact set of code points
  `str.isspace()` accepts) and the substring test `needle in hay`, each
  with an independent characterisation.
- `Gate` — `is_mostly_arabic`: the Arabic code points of the sentence
  (U+0600..U+06FF, as `re.findall` returns them) must be strictly more than
  half of it, stated as `2 * count > |s|` instead of the source's float
  product.
- `Messages` — the user-facing messages and both prompt templates,
  character for character.
- `Pipeline` — `validate_and_analyze_sentence` and
  `analyze_sentence_with_allam`. The answers of the token exchange and of
  the generation API are an `Upstream` record given in advance, and every
  run returns the trace of the exchanges it performed, with the request it
  sent (bearer token, prompt, token budget, repetition penalty). A request
  names its prompt as a template and the sentence; `Pipeline.Render` gives
  the text that template produces.
- `History` — the session's `history` key and `add_to_history`.
- `Routes` — the decision logic of `/analyze` and `/submit-quiz-answer`,
  and the session's history over a sequence of answered requests.

The model follows the code on four points that are easy to misread: the generation call fails on any status other than exactly 200 (a
201 is a failure, not only non-2xx answers); an empty token counts as
missing, as `if not access_token` does; the Arabic gate sees the sentence
unstripped, so surrounding whitespace counts toward its length; and the
quiz answer compares the two JSON values as sent, so two missing values
are "equal" and earn the success feedback.

## Model

| member | source | states |
|---|---|---|
| `Text.Strip` | main.py:157 | `str.strip()`: the slice between the bounds `StripBounds` characterises, with whitespace being exactly the code points `Text.IsSpace` lists (CPython's `str.isspace()` table); the lemmas below state what it returns |
| `Text.StripBounds` | main.py:174 | the text `strip()` keeps is a slice of the input with only whitespace before and after it and no whitespace at either of its own ends |
| `Text.StripUnique` | main.py:157 | any such slice is the result of stripping, so the characterisation fixes `strip()` completely |
| `Text.StripIdempotent` | main.py:157 | stripping a stripped string changes nothing |
| `Text.StripEmptyIff` | main.py:159 | a string strips to the empty string exactly when every code point of it is whitespace |
| `Text.Contains` | main.py:109 | `needle in hay` holds exactly when some slice of `hay` equals `needle` |
| `Text.ContainsSuffix` | main.py:105 | a string is contained in any string that ends with it |
| `Gate.ArabicMatches` | main.py:41 | the match list holds each Arabic code point of the input as often as the input does, and nothing else; Arabic is `Gate.IsArabic`, the class `[\u0600-\u06FF]` |
| `Gate.ArabicMatchesAppend` | main.py:41 | the matches of a concatenation are the matches of the parts, in order |
| `Gate.AllArabicIff` | main.py:41 | every code point matches exactly when all code points are in U+0600..U+06FF |
| `Gate.IsMostlyArabic` | main.py:40-42 | the gate itself: twice the number of Arabic matches exceeds the length; the lemmas below state what it accepts and refuses |
| `Gate.GateBoundary` | main.py:40-42 | the empty string is refused, and so is any sentence that ends in a run of non-Arabic code points at least as long as what precedes it, whatever that is; so exactly half Arabic is refused when the Arabic half comes first |
| `Gate.AllArabicPasses` | main.py:40-42 | a non-empty, all-Arabic string passes |
| `Gate.PaddingNeverHelps` | main.py:40-42 | if a sentence padded with whitespace on either side, in any amounts, passes the gate, the bare sentence passes too |
| `Gate.GateExamples` | main.py:40-42 | two Latin letters and one Arabic letter are refused, a Latin phrase is refused, a three-letter Arabic word passes |
| `Gate.CountArabic` | main.py:41-42 | a left-to-right count of Arabic code points equals the length of the match list and never exceeds the sentence length |
| `Pipeline.HasToken` | main.py:63 | `if not access_token` inverted (also main.py:117): a token is usable when one arrived and it is not the empty string |
| `Pipeline.FlagsUnanalyzable` | main.py:109 | the validation verdict: the generated text contains either of the two markers, as the substring test `Text.Contains` characterises |
| `Pipeline.Render` | main.py:67-83 | the `input` text of a request: instruction, worked examples, the sentence label and the sentence, and for the analysis prompt the closing cue (main.py:121-136) |
| `Pipeline.ValidationRequest` | main.py:85-94 | the stage-1 request: the validation prompt around the sentence, at most 50 new tokens, repetition penalty 1.1 |
| `Pipeline.AnalysisRequest` | main.py:137-141 | the stage-2 request: the analysis prompt around the sentence, at most 300 new tokens, repetition penalty 1.2 |
| `Pipeline.UpstreamError` | main.py:104-105 | the error for a non-200 answer (also main.py:154-155): the fixed prefix followed by the raw response text; `ErrorExplainedByLastStep` states that it contains the body |
| `Pipeline.FinalText` | main.py:157-160 | the success text is never empty; it is the fallback message when the generated text is all whitespace and otherwise the stripped generated text |
| `Pipeline.AnalyzeWithAllam` | main.py:115-162 | the token fetch always happens and the generation call only after it, with that token; a result exactly when a token arrived and the status is 200; a missing token stops after the fetch; once a token arrived the generation call is made, with that token; a non-200 answer yields the prefix plus the body; a result is the stripped generated text or the fallback, never empty |
| `Pipeline.ValidateAndAnalyze` | main.py:57-112 | exchanges run only in the order token, stage 1, token, stage 2, with no step skipped; a missing first token ends the run with the token failure after one fetch; a non-200 validation answer ends it with the upstream error after stage 1; a missing second token ends it with the token failure after the second fetch; a non-200 analysis answer ends it with the upstream error after all four exchanges; no exchange happens exactly when the gate refuses; a result exactly when every check passes, and then all four exchanges ran and the text is stage 2's stripped generated text or the fallback; stage 2 is reached exactly past a 200 validation answer that does not flag the sentence |
| `Pipeline.ErrorExplainedByLastStep` | main.py:57-162 | each error is the one the last exchange explains: none means non-Arabic, a token fetch means the token failure, a stage call means the upstream failure (whose message contains the response body) or the validation rejection |
| `Pipeline.GateRunsFirst` | main.py:59-60 | a sentence the gate refuses gets the non-Arabic error and no exchange at all |
| `Pipeline.RejectionSkipsStage2` | main.py:109-112 | a flagged validation answer yields the rejection, and neither the second token fetch nor stage 2 happens |
| `Pipeline.OnlyPerformedExchangesMatter` | main.py:57-162 | answers of exchanges that did not happen cannot change the run |
| `History.Stored` | main.py:53 | `session.get('history', [])`: the stored list, or the empty list when the key is absent |
| `History.AddToHistory` | main.py:45-48 | the key exists afterwards; the list grows by one, earlier entries keep their places, and the new entry is last |
| `Routes.Record` | main.py:179-182 | an error leaves the session exactly as it was, absent history key included; a result leaves a history key whose list is the old one followed by the sentence and result |
| `Routes.TooShort` | main.py:174 | `not sentence or len(sentence.strip()) < 2` for a missing or string field |
| `Routes.Analyze` | main.py:171-183 | a missing, empty or too-short sentence gets the "too short" 400 with no exchange and no session change; 400 exactly for errors and 200 exactly for results; a result exactly when the length check and every pipeline check pass; an error leaves the session untouched; a result appends exactly one entry, the sentence as sent with its non-empty result; past the length check the reply body is the pipeline's outcome unchanged and the exchanges are the pipeline's, so a result is stage 2's stripped text or the fallback; exchanges happen only past the length check and the gate |
| `Routes.ReplyIgnoresSession` | main.py:171-183 | the reply and the exchanges do not depend on the session's history |
| `Routes.HistoryIsAppendOnly` | main.py:45-48 | if the list the handlers build is carried from each request to the next, after any sequence of answered requests it is the old list followed by one entry per successful request, in request order (what Flask actually writes back is under Left out) |
| `Routes.FailuresLeaveSessionAlone` | main.py:179-180 | when no answered request succeeded the session's history key stays exactly as it was, absent included |
| `Routes.QuizFeedback` | main.py:386-389 | the success feedback exactly when the submitted and the expected value are equal, the failure feedback otherwise |

## Left out

- The network: `get_access_token` (main.py:24-37) and both `requests.post`
  calls to the generation API are replaced by the `Upstream` record; the
  model does not distinguish why a token exchange failed (network error,
  4xx/5xx status), only that no usable token arrived.
- Transport failures of the generation calls: unlike the token fetch, the
  `requests.post` calls at main.py:102 and main.py:152 are not inside a
  `try`, so a connection error there escapes `analyze_sentence` and Flask
  answers 500 without a JSON `error`; neither call sets a timeout, so an
  endpoint that stalls leaves the request unanswered. A `ModelResponse`
  always carries a status, so the model has neither case, and the route's
  "400 exactly for errors, 200 exactly for results" holds for requests whose
  generation calls are answered.
- JSON decoding of responses: the extracted `access_token` and
  `generated_text` are given. For the token exchange, a body that is not
  JSON raises a decoding error that `requests` (2.27 and later) derives from
  `RequestException`, so main.py:35 catches it and the user gets the token
  failure, which the model covers as a missing token; an `access_token` key
  that is missing raises `KeyError`, which is not caught. For the generation
  call, a body that is not JSON or a `results` list that is empty (the `[0]`
  index raises) ends in a server error. Those server errors are not modelled.
- Routes.QuizFeedback: the submitted and expected values are modelled as
  optional strings, but the route compares any two JSON values with Python
  `==` (so `1`, `1.0` and `true` are equal, and so are two equal lists);
  non-string JSON values are not modelled.
- Lone surrogates: Dafny's `char` holds Unicode scalar values only, while a
  Python `str` decoded from JSON such as `"\ud800"` can hold a surrogate
  code point; sentences containing one are not modelled.
- A request body that is not JSON, and a `sentence` that is not a string:
  the model takes the field as an optional string. A falsy non-string (`0`,
  `false`, `[]`, `{}`) stops at `not sentence` (main.py:174) and gets the
  "too short" 400 just as a missing field does; a truthy non-string makes
  `.strip()` raise, which is not modelled.
- Flask plumbing: routing, `jsonify`, `render_template` for `/`. The
  session is an explicit value passed from request to request. That is not
  what Flask's default cookie session does with this code: the session marks
  itself modified only when a top-level key is assigned, and changes inside
  a mutable value are not detected. `add_to_history` assigns
  `session['history']` only when the key is absent (main.py:46-47) and
  otherwise appends in place (main.py:48), so with the default,
  non-permanent session the first successful analysis is written back and
  the entries of later ones are lost at the end of their request.
  `Routes.HistoryIsAppendOnly` states the list the handlers build, not what
  `/history` returns across requests.
- Configuration read from the environment (main.py:10-21): the model and
  project identifiers sent with each generation request are left out of
  `ModelRequest`.
- `/random-sentence` and `/get-quiz-question`: a random choice over static
  lists, with no logic beyond the choice.
- The browser script (static/js/script.js): page manipulation, audio and
  speech input.
- Floating point: the gate's `len(text) * 0.5` is exact for every string
  length, so it is stated in integers; the repetition penalties 1.1 and 1.2
  are kept in tenths.
- Console logging of token failures.
- Prompt content: the prompt texts are kept in full, but no property of
  the rendered text is proved; requests are compared by template and
  sentence.
