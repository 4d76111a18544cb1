# Plan reply normalizer and rate-limit classifier

A Dafny model of the two pieces of text processing in the Smart Task Planner web
service (`app.py`). They sit between the external text-generation call and the
HTTP response.

* **Reply normalizer** (`generate_plan`, app.py lines 164-192). The model's raw
  reply can be missing. A missing reply reads as `""`. The reply is then
  whitespace-stripped. Next it loses a leading Markdown fence (with an optional
  `json` tag in any case) and the whitespace after it, then a trailing fence and
  the whitespace before it. A leading `json` token in any case is dropped after
  that, and the text is stripped again. Finally the text is cut down to the span
  from its first `{` to its last `}` when there is one; otherwise the cleaned
  text is kept. That candidate goes to the JSON parser. A
  parse failure becomes the fixed record
  `{"error": "AI returned invalid JSON. See server logs or last_raw_model_response.txt for details."}`.
* **Rate-limit classifier** (`create_plan_endpoint`, app.py lines 77-100). An
  error message is rate limited when its lower-cased form contains `quota` or
  the message contains `429`. For such a message a retry delay is looked for
  with two regular expressions, and the first one wins:
  * `Please retry in\s*(\d+(?:\.\d+)?)s`, ignoring case, gives the ceiling of
    the decimal;
  * `retry_delay\s*\{[^}]*seconds:\s*(\d+)` gives the integer.

  The response has status 429 or 500, and its body's `error` is the message.
  `retry_after` and the `Retry-After` header are present exactly when a delay was
  found.

Files and modules:

* `text.dfy` (module `Text`) holds the shared pieces: ASCII whitespace, case
  mapping, substring search, `str.strip()`, runs of whitespace and digits,
  decimal numerals (`int(...)`, `str(n)`) and the exact decimal ceiling.
* `normalizer.dfy` (module `Normalizer`) holds the reply pipeline and its
  properties.
* `classifier.dfy` (module `RateLimit`) holds the classifier, the two retry
  patterns, the response mapping and worked messages.

Every regular expression is a function that returns the match indices. Its
contract says two things. First, the indices are a match of the pattern, and a
declarative predicate states what a match is. Second, they are the match
Python's backtracking engine reports: the leftmost match, and at that start the
one that the greedy quantifiers and the preference for taking an optional group
lead to. `^` and `$` have their meaning without `re.MULTILINE`. `^` is position
0. `$` is the end of the text or the position just before a final newline. The
JSON parser `json.loads` is a function parameter `parse: string -> Option<J>`,
and nothing is assumed about it.

A message such as `Rate limit: Please retry in 12.4s` spells a delay of 13,
but the guard at app.py line 78 tests only for `quota` and `429`, so it gets
status 500 and no hint (`RateLimit.RateLimitWordingIsNotRateLimited`). The same
holds for a bare `retry_delay { seconds: 7 }` message. With `quota` in the
message, it gets 429 with a hint of 7 (`RateLimit.QuotaRetryDelaySeven`).

## Model

| member | source | states |
|---|---|---|
| `Normalizer.ReplyText` | app.py:164 | (no contract; see `Normalizer.EmptyReply`) |
| `Text.Strip` | app.py:164 | `str.strip()` leaves no whitespace at either end and never lengthens the text |
| `Text.LowerStr` | app.py:78 | `str.lower()` keeps the length and lower-cases each character, ASCII only |
| `Text.StripFrames` | app.py:164 | what `str.strip()` removes is whitespace on both sides of the result |
| `Text.StripFramed` | app.py:172 | whatever split of a text into whitespace, a trimmed middle and whitespace is chosen, stripping returns that middle (so the strip is unique) |
| `Text.TrimmedStrip` | app.py:177 | stripping a text that has no surrounding whitespace changes nothing, which is why the `.strip()` of a brace span is a no-op |
| `Normalizer.LeadingFenceEnd` | app.py:167 | the prefix line 167 removes is empty unless the text starts with three backticks; otherwise it is a match of `^```(?:json)?\s*` ignoring case, and no match is longer |
| `Normalizer.StripLeadingFence` | app.py:167 | (no contract; see `Normalizer.LeadingFenceOf` and `Normalizer.LeadingFenceSuffix`) |
| `Normalizer.LeadingFenceOf` | app.py:167 | on a fence, an optional `json` tag in any case, whitespace, and a rest that does not start with whitespace, exactly the fence, tag and whitespace are removed and the rest is kept |
| `Normalizer.FindTrailingFence` | app.py:168 | the reported match of `\s*```$` is a match; every match ends at the same place and none starts earlier; `None` only when nothing matches |
| `Normalizer.StripTrailingFence` | app.py:168 | (no contract; see `Normalizer.TrailingFenceOf` and `Normalizer.TrailingFenceOnlyAtEnd`) |
| `Normalizer.TrailingFenceOf` | app.py:168 | on text, whitespace and a closing fence, exactly the fence and the whole whitespace run go, and the text before them is kept |
| `Normalizer.TrailingFenceOnlyAtEnd` | app.py:168 | on input without trailing whitespace (as in the pipeline), the removal fires only when the text ends with three backticks; it removes those and the maximal whitespace run before them, and otherwise the text is unchanged |
| `Normalizer.LeadingFenceSuffix` | app.py:167 | line 167 keeps a contiguous piece of its input, and a text that does not end in whitespace still does not afterwards |
| `Normalizer.DropJsonTag` | app.py:171-172 | if the lower-cased text starts with `json`, the result is the text after its first four characters with the surrounding whitespace removed; otherwise the text is unchanged |
| `Normalizer.FindBraceSpan` | app.py:175 | the match of `\{[\s\S]*\}` starts at a `{` and ends after a `}`; no match starts earlier or ends later; `None` exactly when no `{` precedes a `}` |
| `Normalizer.ExtractCandidate` | app.py:175-179 | (no contract; see `Normalizer.BraceSpanCandidate` and `Normalizer.SpanCandidateBraced`) |
| `Normalizer.Clean` | app.py:164-172 | (no contract; see `Normalizer.FenceRoundTrip` and `Normalizer.TagOnOwnLine`) |
| `Normalizer.Candidate` | app.py:164-179 | (no contract; see `Normalizer.BraceSpanCandidate`, `Normalizer.CandidateIsInfix` and `Normalizer.EmptyReply`) |
| `Normalizer.BraceSpanCandidate` | app.py:175-179 | without a `{` before a `}`, the candidate is the cleaned text; otherwise a span exists with no `{` before it and no `}` after it, and the candidate is exactly that span |
| `Normalizer.SpanCandidateBraced` | app.py:175-177 | when the cleaned text has a `{` before a `}`, the candidate begins with `{` and ends with `}` |
| `Normalizer.GeneratePlan` | app.py:181-192 | a value the parser accepts is returned unchanged; a rejected candidate yields the fixed invalid-JSON error record |
| `Normalizer.EmptyReply` | app.py:164-192 | a missing, empty or blank reply gives the empty candidate, and, since the parser rejects `""`, the invalid-JSON error record rather than a crash |
| `Normalizer.BracedIsFixedPoint` | app.py:164-179 | a text that starts with `{` and ends with `}` is its own candidate |
| `Normalizer.FenceRoundTrip` | app.py:164-177 | a braced text wrapped as whitespace, a fence with or without a `json` tag in any case, whitespace, the text, whitespace, a fence and whitespace gives the same candidate as the bare text, and that candidate is the text |
| `Normalizer.FencedParsesLikeBare` | app.py:164-183 | for every parser, the fenced reply and the bare reply give the same outcome |
| `Normalizer.TagOnOwnLine` | app.py:167-172 | with a bare fence followed by whitespace and then a `json` tag on its own, line 167 leaves the tag and lines 171-172 remove it, so the candidate is the braced text |
| `Normalizer.CandidateIsInfix` | app.py:164-179 | the candidate is a contiguous piece of the raw reply, so no inner text is ever changed |
| `Normalizer.ExtractIdempotent` | app.py:175-179 | when the cleaned text holds a `{` before a `}`, normalizing the candidate again returns the candidate |
| `Normalizer.CandidateIdempotentOnSpans` | app.py:164-179 | normalizing a reply's candidate a second time changes nothing when the reply held a brace span |
| `Normalizer.FencedReplyExample` | app.py:164-177 | the blank-padded, fenced `{"project_name":"X","tasks":[]}` reply has that object as its candidate |
| `Text.ContainsFrom` | app.py:78 | Python's `pat in s` from a start position holds exactly when an occurrence starts at or after it |
| `Text.Contains` | app.py:78 | (no contract; see `Text.ContainsFrom` and `RateLimit.IsRateLimited`) |
| `RateLimit.IsRateLimited` | app.py:77-78 | a message is rate limited exactly when `quota` occurs in it ignoring case or `429` occurs in it |
| `RateLimit.PleaseRetryMatchAt` | app.py:81 | at one start, the first pattern has at most one match, and this is it |
| `RateLimit.FindPleaseRetryFrom` | app.py:81 | `re.search` for the first pattern returns a match, and no match starts earlier |
| `RateLimit.FindPleaseRetry` | app.py:81 | (no contract; see `RateLimit.FindPleaseRetryFrom` and `RateLimit.PleaseRetryDecides`) |
| `RateLimit.WholeDigits` | app.py:81 | the integer part of group 1 is a non-empty run of digits |
| `RateLimit.FractionDigits` | app.py:81 | the fractional part of group 1 is a run of digits, non-empty exactly when the group has a `.` |
| `RateLimit.PleaseRetrySeconds` | app.py:86 | (no contract; see `RateLimit.PleaseRetryCeiling`) |
| `RateLimit.LastSecondsBefore` | app.py:83 | the last place before a bound where `seconds:`, whitespace and a digit follow, which is where the greedy `[^}]*` stops |
| `RateLimit.LastSecondsPreferred` | app.py:83 | every match of the second pattern at a start is beaten or equalled by the one built from the last `seconds:` before the first `}` after `retry_delay ... {` |
| `RateLimit.RetryDelayMatchAt` | app.py:83 | at one start, the match is the one the engine prefers: the longest `[^}]*`, then the longest `\d+` |
| `RateLimit.FindRetryDelayFrom` | app.py:83 | `re.search` for the second pattern returns the leftmost start and, there, the preferred match |
| `RateLimit.FindRetryDelay` | app.py:83 | (no contract; see `RateLimit.FindRetryDelayFrom` and `RateLimit.RetryDelayDecides`) |
| `RateLimit.RetryAfter` | app.py:80-88 | there is no delay exactly when neither pattern matches anywhere |
| `RateLimit.PleaseRetryDecides` | app.py:81-86 | when the first pattern matches, its leftmost match decides the delay, whatever the second pattern would find |
| `RateLimit.PleaseRetryCeiling` | app.py:86 | that delay is the least integer not below the decimal `int.frac` that group 1 spells |
| `RateLimit.RetryDelayDecides` | app.py:82-86 | with no match of the first pattern, the leftmost preferred match of the second decides, and the delay is the integer its digits spell |
| `Text.CeilDecimalIsCeiling` | app.py:86 | `ceil` of an exact decimal `i.f` is the least integer `c` with `i.f <= c` |
| `Text.CeilDecimal` | app.py:86 | (no contract; see `Text.CeilDecimalIsCeiling`) |
| `Text.DigitsValue` | app.py:86 | (no contract; see `Text.CeilDecimalIsCeiling`, `Text.DecimalString` and `Text.CanonicalRoundTrip`) |
| `Text.DecimalString` | app.py:96 | `str(n)` is a numeral without superfluous leading zeros that denotes `n` |
| `Text.CanonicalRoundTrip` | app.py:96 | every such numeral is `str` of its own value, so the header string and the number determine each other |
| `RateLimit.Respond` | app.py:77-100 | the body's `error` is the message; status 429 iff rate limited, 500 otherwise; `retry_after` is the delay for a rate-limited message and absent otherwise; the `Retry-After` header is present exactly with `retry_after` and is its decimal string |
| `RateLimit.RateLimitWordingIsNotRateLimited` | app.py:78-100 | `Rate limit: Please retry in 12.4s` holds a delay of 13 but names neither `quota` nor `429`, so it gets 500 and no hint |
| `RateLimit.QuotaRetryDelaySeven` | app.py:78-98 | `quota exceeded; retry_delay { seconds: 7 }` gets 429, `retry_after` 7 and the header `7` |
| `RateLimit.PlainFaultIs500` | app.py:77-100 | `Internal server fault` gets 500 with the message and no retry hint |

## Left out

- SQLite persistence is not modelled: `init_db`, the INSERT after a successful plan, `view_plans` and `get_plan` (app.py:17-32, 47-58, 103-134). It is I/O against `plans.db`. `inspect_db.py` is not part of this model for the same reason.
- Flask routing, templates, the `goal` field checks that answer 400, and `make_response`/`jsonify` are not modelled. The response is the value `RateLimit.ErrorResponse`.
- The generation call is not modelled: `genai.configure`, `model.generate_content`, and the wrapper that turns its exceptions into `{"error": str(e)}` (app.py:34-39, 157-161, 193-196). The raw reply and the error message are inputs instead.
- The `DISABLE_AI` switch (app.py:147-155) is not modelled, because it reads the process environment.
- The debug-file write on a parse failure (app.py:187-191) is not modelled. It is best-effort file I/O whose failure is swallowed, so only the returned error record is modelled.
- `json.loads` is the parameter `parse`. Its grammar is not modelled. A parser exception other than `JSONDecodeError` (such as a `RecursionError` on very deep nesting) would reach the outer handler at app.py:193-196, and that path is not modelled.
- Logging `print` calls are not modelled.
- Whitespace, digits and case are ASCII only. `str.strip()`, `\s`, `\d`, `str.lower()` and `re.IGNORECASE` also accept other Unicode characters (for example `ſ` matches `s` when case is ignored); those are not modelled.
- RateLimit.PleaseRetrySeconds: computes the exact decimal ceiling. It does not model `float` rounding of any numeral with more than about 15-17 significant digits, fractional or not (`Please retry in 1000000000000000.01s` gives 1000000000000000 in the code and 1000000000000001 in the model; `12.0000000000000001` rounds to `12.0`). It also does not model the overflow to infinity that the `except` at app.py:87-88 turns into "no delay".
- RateLimit.RetryAfter: group 1 of both patterns is read as an exact integer or decimal, while app.py:86 reads it with `float`. Rounding of numerals with more than about 15-17 significant digits is not modelled for either pattern (`quota; retry_delay { seconds: 9007199254740993 }` gives a hint of 9007199254740992 in the code and 9007199254740993 in the model). Nor is the overflow of a numeral beyond about 1.8e308 to infinity, which the `except` at app.py:87-88 turns into "no delay", for either pattern.
- The Plan and Task record shapes are not modelled, because the code never checks the parsed value against them.
