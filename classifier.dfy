/**
 * The rate-limit classification in `create_plan_endpoint` (app.py, lines
 * 77-100): an error message is "rate limited" when it mentions `quota` in
 * any case or `429`; for such a message a retry delay is looked for with
 * two regular expressions, the first one taking precedence; the response
 * is 429 (with `retry_after` and a `Retry-After` header when a delay was
 * found) or 500, and its body always carries the message.
 *
 * As in the normalizer, each regular expression is a Find function whose
 * contract says that what it returns is a match and is the one Python's
 * engine reports: the leftmost, and at that start the one the greedy
 * quantifiers prefer.
 */
module RateLimit {
  import opened Text

  const Quota: string := "quota"
  const Code429: string := "429"

  /** Line 78: `quota` occurs ignoring ASCII case, or `429` occurs. */
  function IsRateLimited(msg: string): (r: bool)
    ensures r <==> (exists i: nat :: CiOccursAt(msg, Quota, i)) || (exists i: nat :: OccursAt(msg, Code429, i))
  {
    assert forall i: nat :: OccursAt(LowerStr(msg), Quota, i) <==> CiOccursAt(msg, Quota, i);
    Contains(LowerStr(msg), Quota) || Contains(msg, Code429)
  }

  // -----------------------------------------------------------------------
  // Line 81: `Please retry in\s*(\d+(?:\.\d+)?)s`, ignoring case, leftmost match

  const PleaseRetry: string := "please retry in"

  /** The pattern of line 81 matches at p: the phrase in any case,
      whitespace up to a, the integer digits s[a..k], when k < b a `.` at k
      followed by the fraction digits s[k+1..b], and an `s` or `S` at b.
      Group 1 is s[a..b]. */
  predicate PleaseRetryAt(s: string, p: nat, a: nat, k: nat, b: nat) {
    && p + |PleaseRetry| <= a < k <= b < |s|
    && CiOccursAt(s, PleaseRetry, p)
    && SpacesIn(s, p + |PleaseRetry|, a)
    && DigitsIn(s, a, k)
    && (k == b || (s[k] == '.' && k + 1 < b && DigitsIn(s, k + 1, b)))
    && Lower(s[b]) == 's'
  }

  datatype PleaseRetryHit = PleaseRetryHit(start: nat, numStart: nat, intEnd: nat, numEnd: nat)

  predicate IsPleaseRetryHit(s: string, h: PleaseRetryHit) {
    PleaseRetryAt(s, h.start, h.numStart, h.intEnd, h.numEnd)
  }

  /** A match at p is pinned down by its start: `\s*` stops at the first
      digit, the integer `\d+` at the first non-digit, and the fraction
      `\d+` likewise. */
  lemma PleaseRetryAtParts(s: string, p: nat, a: nat, k: nat, b: nat)
    requires PleaseRetryAt(s, p, a, k, b)
    ensures a == SkipSpaces(s, p + |PleaseRetry|) && k == SkipDigits(s, a)
    ensures k < b ==> b == SkipDigits(s, k + 1)
  {
    SpaceRunEnd(s, p + |PleaseRetry|, a);
    DigitRunEnd(s, a, k);
    if k < b {
      DigitRunEnd(s, k + 1, b);
    }
  }

  /** The match that starts at p. There is at most one: `\s*` must stop at
      the first digit, `\d+` before the `.` or the `s`. */
  function PleaseRetryMatchAt(s: string, p: nat): (m: Option<PleaseRetryHit>)
    ensures m.Some? ==> m.value.start == p && IsPleaseRetryHit(s, m.value)
    ensures forall a: nat, k: nat, b: nat ::
      PleaseRetryAt(s, p, a, k, b) ==> m == Some(PleaseRetryHit(p, a, k, b))
  {
    if !CiOccursAt(s, PleaseRetry, p) then None
    else
      var a := SkipSpaces(s, p + |PleaseRetry|);
      var k := SkipDigits(s, a);
      assert forall a': nat, k': nat, b': nat :: PleaseRetryAt(s, p, a', k', b') ==>
        a' == a && k' == k && (k' < b' ==> b' == SkipDigits(s, k + 1)) by {
        forall a': nat, k': nat, b': nat | PleaseRetryAt(s, p, a', k', b')
          ensures a' == a && k' == k && (k' < b' ==> b' == SkipDigits(s, k + 1))
        {
          PleaseRetryAtParts(s, p, a', k', b');
        }
      }
      if k == a || k == |s| then None
      else if Lower(s[k]) == 's' then Some(PleaseRetryHit(p, a, k, k))
      else if s[k] == '.' then
        var b := SkipDigits(s, k + 1);
        if b == k + 1 || b == |s| || Lower(s[b]) != 's' then None
        else Some(PleaseRetryHit(p, a, k, b))
      else None
  }

  /** re.search from position p on: the leftmost match. */
  function FindPleaseRetryFrom(s: string, p: nat): (m: Option<PleaseRetryHit>)
    requires p <= |s|
    ensures m.Some? ==> p <= m.value.start && IsPleaseRetryHit(s, m.value)
    ensures forall q: nat, a: nat, k: nat, b: nat :: p <= q && PleaseRetryAt(s, q, a, k, b) ==>
      m.Some? && (m.value.start < q || m.value == PleaseRetryHit(q, a, k, b))
    decreases |s| - p
  {
    match PleaseRetryMatchAt(s, p)
    case Some(h) => Some(h)
    case None => if p == |s| then None else FindPleaseRetryFrom(s, p + 1)
  }

  function FindPleaseRetry(s: string): Option<PleaseRetryHit> {
    FindPleaseRetryFrom(s, 0)
  }

  /** The integer digits of group 1 of line 81. */
  function WholeDigits(s: string, h: PleaseRetryHit): (r: string)
    requires IsPleaseRetryHit(s, h)
    ensures |r| > 0 && AllDigits(r)
  {
    s[h.numStart..h.intEnd]
  }

  /** The fraction digits of group 1 of line 81; empty when it has no `.`. */
  function FractionDigits(s: string, h: PleaseRetryHit): (r: string)
    requires IsPleaseRetryHit(s, h)
    ensures AllDigits(r) && (h.intEnd < h.numEnd <==> |r| > 0)
  {
    if h.intEnd < h.numEnd then s[h.intEnd + 1..h.numEnd] else ""
  }

  /** Line 86 on group 1 of line 81: the ceiling of the decimal it spells. */
  function PleaseRetrySeconds(s: string, h: PleaseRetryHit): nat
    requires IsPleaseRetryHit(s, h)
  {
    CeilDecimal(WholeDigits(s, h), FractionDigits(s, h))
  }

  // -----------------------------------------------------------------------
  // Line 83: `retry_delay\s*\{[^}]*seconds:\s*(\d+)`, leftmost match

  const RetryDelay: string := "retry_delay"
  const SecondsKey: string := "seconds:"

  /** The pattern of line 83 matches at p: the key, whitespace, `{` at b - 1,
      `[^}]*` over s[b..q], `seconds:` at q, whitespace up to d, and the
      digits s[d..e], which are group 1. */
  predicate RetryDelayAt(s: string, p: nat, b: nat, q: nat, d: nat, e: nat) {
    && p + |RetryDelay| < b <= q && q + |SecondsKey| <= d < e <= |s|
    && OccursAt(s, RetryDelay, p)
    && SpacesIn(s, p + |RetryDelay|, b - 1)
    && s[b - 1] == '{'
    && NoneIn(s, '}', b, q)
    && OccursAt(s, SecondsKey, q)
    && SpacesIn(s, q + |SecondsKey|, d)
    && DigitsIn(s, d, e)
  }

  datatype RetryDelayHit = RetryDelayHit(start: nat, body: nat, key: nat, numStart: nat, numEnd: nat)

  predicate IsRetryDelayHit(s: string, h: RetryDelayHit) {
    RetryDelayAt(s, h.start, h.body, h.key, h.numStart, h.numEnd)
  }

  /** Among the matches at one start the engine reports the one with the
      longest `[^}]*` and, for that, the longest `\d+`. */
  predicate Preferred(h: RetryDelayHit, b: nat, q: nat, d: nat, e: nat) {
    b == h.body && (q < h.key || (q == h.key && d == h.numStart && e <= h.numEnd))
  }

  /** `seconds:`, optional whitespace and a digit at q. */
  predicate SecondsAt(s: string, q: nat) {
    && OccursAt(s, SecondsKey, q)
    && var d := SkipSpaces(s, q + |SecondsKey|); d < |s| && IsDigit(s[d])
  }

  /** The last q in [lo, hi) where SecondsAt holds: where the greedy
      `[^}]*` gives back enough for the rest to match. */
  function LastSecondsBefore(s: string, lo: nat, hi: nat): (r: Option<nat>)
    requires hi <= |s|
    ensures r.Some? ==> lo <= r.value < hi && SecondsAt(s, r.value)
    ensures forall q: nat :: lo <= q < hi && SecondsAt(s, q) ==> r.Some? && q <= r.value
  {
    if hi <= lo then None
    else if SecondsAt(s, hi - 1) then Some(hi - 1)
    else LastSecondsBefore(s, lo, hi - 1)
  }

  /** A match at p is pinned down by its start up to the choice of q and
      e: `\s*` stops at the `{`, and q lies before the first `}` after it. */
  lemma RetryDelayAtParts(s: string, p: nat, b: nat, q: nat, d: nat, e: nat)
    requires RetryDelayAt(s, p, b, q, d, e)
    ensures b == SkipSpaces(s, p + |RetryDelay|) + 1
    ensures SecondsAt(s, q) && d == SkipSpaces(s, q + |SecondsKey|) && e <= SkipDigits(s, d)
    ensures b <= |s| && q < CloseFrom(s, b)
  {
    SpaceRunEnd(s, p + |RetryDelay|, b - 1);
    SpaceRunEnd(s, q + |SecondsKey|, d);
    assert s[q] == SecondsKey[0] == 's';
  }

  /** The `}` that ends `[^}]*` from b on, or the end of s. */
  function CloseFrom(s: string, b: nat): (c: nat)
    requires b <= |s|
    ensures b <= c <= |s| && NoneIn(s, '}', b, c) && (c == |s| || s[c] == '}')
  {
    match FirstFrom(s, '}', b) case Some(c) => c case None => |s|
  }

  /** The hit whose `[^}]*` runs from b to q. */
  function SecondsHit(s: string, p: nat, b: nat, q: nat): RetryDelayHit
    requires SecondsAt(s, q)
  {
    var d := SkipSpaces(s, q + |SecondsKey|);
    RetryDelayHit(p, b, q, d, SkipDigits(s, d))
  }

  /** The hit built from the last `seconds:` before the closing brace. */
  lemma LastSecondsHit(s: string, p: nat, q: nat)
    requires OccursAt(s, RetryDelay, p)
    requires SkipSpaces(s, p + |RetryDelay|) < |s| && s[SkipSpaces(s, p + |RetryDelay|)] == '{'
    requires SkipSpaces(s, p + |RetryDelay|) + 1 <= q < CloseFrom(s, SkipSpaces(s, p + |RetryDelay|) + 1)
    requires SecondsAt(s, q)
    ensures IsRetryDelayHit(s, SecondsHit(s, p, SkipSpaces(s, p + |RetryDelay|) + 1, q))
  {
  }

  /** A match at p is beaten or equalled by the hit at the last `seconds:`
      before the closing brace. */
  lemma LastSecondsBeats(s: string, p: nat, b': nat, q': nat, d': nat, e': nat)
    requires RetryDelayAt(s, p, b', q', d', e')
    ensures var b := SkipSpaces(s, p + |RetryDelay|) + 1;
      var found := LastSecondsBefore(s, b, CloseFrom(s, b));
      found.Some? && Preferred(SecondsHit(s, p, b, found.value), b', q', d', e')
  {
    RetryDelayAtParts(s, p, b', q', d', e');
    var b := SkipSpaces(s, p + |RetryDelay|) + 1;
    var c := CloseFrom(s, b);
    var found := LastSecondsBefore(s, b, c);
    assert found.Some? && q' <= found.value;
    var h := SecondsHit(s, p, b, found.value);
    assert h.body == b' && h.key == found.value;
    if q' == found.value {
      assert h.numStart == d' && e' <= h.numEnd;
    }
  }

  /** Every match at p is beaten or equalled by the hit at the last
      `seconds:` before the closing brace. */
  lemma LastSecondsPreferred(s: string, p: nat)
    ensures forall b': nat, q': nat, d': nat, e': nat :: RetryDelayAt(s, p, b', q', d', e') ==>
      var b := SkipSpaces(s, p + |RetryDelay|) + 1;
      var found := LastSecondsBefore(s, b, CloseFrom(s, b));
      found.Some? && Preferred(SecondsHit(s, p, b, found.value), b', q', d', e')
  {
    forall b': nat, q': nat, d': nat, e': nat | RetryDelayAt(s, p, b', q', d', e')
      ensures var b := SkipSpaces(s, p + |RetryDelay|) + 1;
        var found := LastSecondsBefore(s, b, CloseFrom(s, b));
        found.Some? && Preferred(SecondsHit(s, p, b, found.value), b', q', d', e')
    {
      LastSecondsBeats(s, p, b', q', d', e');
    }
  }

  /** The match the engine reports among those that start at p. */
  function RetryDelayMatchAt(s: string, p: nat): (m: Option<RetryDelayHit>)
    ensures m.Some? ==> m.value.start == p && IsRetryDelayHit(s, m.value)
    ensures forall b: nat, q: nat, d: nat, e: nat ::
      RetryDelayAt(s, p, b, q, d, e) ==> m.Some? && Preferred(m.value, b, q, d, e)
  {
    if !OccursAt(s, RetryDelay, p) then None
    else
      var brace := SkipSpaces(s, p + |RetryDelay|);
      if brace == |s| || s[brace] != '{' then None
      else
        LastSecondsPreferred(s, p);
        match LastSecondsBefore(s, brace + 1, CloseFrom(s, brace + 1))
        case None => None
        case Some(q) =>
          LastSecondsHit(s, p, q);
          Some(SecondsHit(s, p, brace + 1, q))
  }

  /** re.search from position p on: the leftmost start, and there the
      preferred match. */
  function FindRetryDelayFrom(s: string, p: nat): (m: Option<RetryDelayHit>)
    requires p <= |s|
    ensures m.Some? ==> p <= m.value.start && IsRetryDelayHit(s, m.value)
    ensures forall p': nat, b: nat, q: nat, d: nat, e: nat :: p <= p' && RetryDelayAt(s, p', b, q, d, e) ==>
      m.Some? && (m.value.start < p' || (m.value.start == p' && Preferred(m.value, b, q, d, e)))
    decreases |s| - p
  {
    match RetryDelayMatchAt(s, p)
    case Some(h) => Some(h)
    case None => if p == |s| then None else FindRetryDelayFrom(s, p + 1)
  }

  function FindRetryDelay(s: string): Option<RetryDelayHit> {
    FindRetryDelayFrom(s, 0)
  }

  // -----------------------------------------------------------------------
  // Lines 80-88 and 92-100.

  /** The retry delay: from the first pattern if it matches anywhere,
      otherwise from the second, otherwise none. */
  function RetryAfter(msg: string): (r: Option<nat>)
    ensures r.None? <==>
      (forall p: nat, a: nat, k: nat, b: nat :: !PleaseRetryAt(msg, p, a, k, b)) &&
      (forall p: nat, b: nat, q: nat, d: nat, e: nat :: !RetryDelayAt(msg, p, b, q, d, e))
  {
    match FindPleaseRetry(msg)
    case Some(h) => Some(PleaseRetrySeconds(msg, h))
    case None =>
      match FindRetryDelay(msg)
      case Some(h) => Some(DigitsValue(msg[h.numStart..h.numEnd]))
      case None => None
  }

  /** The JSON body and status of the error response, and the value of the
      `Retry-After` header when there is one. */
  datatype ErrorResponse = ErrorResponse(status: nat, error: string, retryAfter: Option<nat>,
                                         retryAfterHeader: Option<string>)

  function Respond(msg: string): (r: ErrorResponse)
    ensures r.error == msg
    ensures r.status == 429 <==> IsRateLimited(msg)
    ensures r.status == 500 <==> !IsRateLimited(msg)
    ensures r.retryAfter == (if IsRateLimited(msg) then RetryAfter(msg) else None)
    ensures r.retryAfterHeader.Some? <==> r.retryAfter.Some?
    ensures r.retryAfter.Some? ==>
      Canonical(r.retryAfterHeader.value) && DigitsValue(r.retryAfterHeader.value) == r.retryAfter.value
  {
    if IsRateLimited(msg) then
      match RetryAfter(msg)
      case Some(n) => ErrorResponse(429, msg, Some(n), Some(DecimalString(n)))
      case None => ErrorResponse(429, msg, None, None)
    else ErrorResponse(500, msg, None, None)
  }

  // -----------------------------------------------------------------------
  // The retry delay in terms of the patterns alone.

  /** The search of line 81 reports the leftmost match. */
  lemma PleaseRetryFound(msg: string, p: nat, a: nat, k: nat, b: nat)
    requires PleaseRetryAt(msg, p, a, k, b)
    requires forall p': nat, a': nat, k': nat, b': nat :: p' < p ==> !PleaseRetryAt(msg, p', a', k', b')
    ensures FindPleaseRetry(msg) == Some(PleaseRetryHit(p, a, k, b))
  {
    var h := FindPleaseRetry(msg);
    assert h.Some? && (h.value.start < p || h.value == PleaseRetryHit(p, a, k, b));
    var hv := h.value;
    assert PleaseRetryAt(msg, hv.start, hv.numStart, hv.intEnd, hv.numEnd);
  }

  /** When the first pattern matches, its leftmost match decides, whatever the
      second pattern would find; the delay is the ceiling of the decimal. */
  lemma {:induction false} PleaseRetryDecides(msg: string, p: nat, a: nat, k: nat, b: nat)
    requires PleaseRetryAt(msg, p, a, k, b)
    requires forall p': nat, a': nat, k': nat, b': nat :: p' < p ==> !PleaseRetryAt(msg, p', a', k', b')
    ensures RetryAfter(msg) == Some(PleaseRetrySeconds(msg, PleaseRetryHit(p, a, k, b)))
  {
    PleaseRetryFound(msg, p, a, k, b);
  }

  /** The delay of the first pattern is the least whole number of seconds
      not below the decimal s[a..b]. */
  lemma PleaseRetryCeiling(msg: string, p: nat, a: nat, k: nat, b: nat)
    requires PleaseRetryAt(msg, p, a, k, b)
    requires forall p': nat, a': nat, k': nat, b': nat :: p' < p ==> !PleaseRetryAt(msg, p', a', k', b')
    ensures var h := PleaseRetryHit(p, a, k, b);
      var i, f := WholeDigits(msg, h), FractionDigits(msg, h);
      RetryAfter(msg).Some? &&
      IsCeilingOf(RetryAfter(msg).value, DigitsValue(i) * Pow10(|f|) + DigitsValue(f), Pow10(|f|))
  {
    var h := PleaseRetryHit(p, a, k, b);
    PleaseRetryDecides(msg, p, a, k, b);
    CeilDecimalIsCeiling(WholeDigits(msg, h), FractionDigits(msg, h));
  }

  /** With no match of the first pattern anywhere, its search finds nothing. */
  lemma NoPleaseRetryFound(msg: string)
    requires forall p': nat, a': nat, k': nat, b': nat :: !PleaseRetryAt(msg, p', a', k', b')
    ensures FindPleaseRetry(msg) == None
  {
    var h := FindPleaseRetry(msg);
    if h.Some? {
      assert false;
    }
  }

  /** Without a match of the first pattern, the second pattern's leftmost
      preferred match decides: the delay is the integer its digits spell. */
  lemma {:induction false} RetryDelayDecides(msg: string, p: nat, b: nat, q: nat, d: nat, e: nat)
    requires forall p': nat, a': nat, k': nat, b': nat :: !PleaseRetryAt(msg, p', a', k', b')
    requires RetryDelayAt(msg, p, b, q, d, e)
    requires forall p': nat, b': nat, q': nat, d': nat, e': nat :: p' < p ==> !RetryDelayAt(msg, p', b', q', d', e')
    requires forall b': nat, q': nat, d': nat, e': nat :: RetryDelayAt(msg, p, b', q', d', e') ==>
      q' < q || (q' == q && e' <= e)
    ensures RetryAfter(msg) == Some(DigitsValue(msg[d..e]))
  {
    NoPleaseRetryFound(msg);
    var h := FindRetryDelay(msg);
    assert h.Some? && (h.value.start < p || (h.value.start == p && Preferred(h.value, b, q, d, e)));
    var hv := h.value;
    assert RetryDelayAt(msg, hv.start, hv.body, hv.key, hv.numStart, hv.numEnd);
    assert !(hv.start < p);
    assert hv.key <= q;
    assert hv == RetryDelayHit(p, b, q, d, e);
  }

  // -----------------------------------------------------------------------
  // Worked messages.

  /** No character of s[i..j] reads as the lower-case letter c once
      lower-cased, given that neither c nor its upper-case form occurs there. */
  lemma NoLowerIn(s: string, c: char, i: nat, j: nat, m: nat)
    requires 'a' <= c <= 'z' && i <= m < j
    requires NoneIn(s, c, i, j) && NoneIn(s, (c as int - 32) as char, i, j)
    ensures Lower(s[m]) != c
  {
  }

  /** A message without `q`, `Q` and `4` is not rate limited. */
  lemma NotRateLimitedWithout(msg: string)
    requires NoneIn(msg, 'q', 0, |msg|) && NoneIn(msg, 'Q', 0, |msg|) && NoneIn(msg, '4', 0, |msg|)
    ensures !IsRateLimited(msg)
  {
    forall i: nat ensures !CiOccursAt(msg, Quota, i) && !OccursAt(msg, Code429, i) {
      if i < |msg| {
        NoLowerIn(msg, 'q', 0, |msg|, i);
      }
      NotCiOccursAt(msg, Quota, i);
      NotOccursAt(msg, Code429, i);
    }
  }

  /** A message with neither the quota wording nor a status code is a plain
      server error. */
  lemma PlainFaultIs500(msg: string)
    requires msg == "Internal server fault"
    ensures Respond(msg) == ErrorResponse(500, msg, None, None)
  {
    assert NoneIn(msg, 'q', 0, |msg|) && NoneIn(msg, 'Q', 0, |msg|) && NoneIn(msg, '4', 0, |msg|);
    NotRateLimitedWithout(msg);
  }

  const RateLimitWording: string := "Rate limit: Please retry in 12.4s"

  lemma RateLimitWordingNoEarlier(msg: string)
    requires msg == RateLimitWording
    ensures forall p': nat, a': nat, k': nat, b': nat :: p' < 12 ==> !PleaseRetryAt(msg, p', a', k', b')
  {
    assert NoneIn(msg, 'p', 0, 12) && NoneIn(msg, 'P', 0, 12);
    forall p': nat, a': nat, k': nat, b': nat | p' < 12 ensures !PleaseRetryAt(msg, p', a', k', b') {
      NoLowerIn(msg, 'p', 0, 12, p');
      NotCiOccursAt(msg, PleaseRetry, p');
    }
  }

  lemma RateLimitWordingPhrase(msg: string)
    requires msg == RateLimitWording
    ensures CiOccursAt(msg, PleaseRetry, 12)
  {
    var w := "Please retry in";
    assert msg == "Rate limit: " + w + " 12.4s";
    assert forall k :: 0 <= k < |w| ==> Lower(w[k]) == PleaseRetry[k];
    CiOccursInMiddle("Rate limit: ", w, " 12.4s", PleaseRetry);
  }

  lemma RateLimitWordingNumeral(msg: string)
    requires msg == RateLimitWording
    ensures |msg| == 33 && SpacesIn(msg, 27, 28) && DigitsIn(msg, 28, 30) && msg[30] == '.'
    ensures DigitsIn(msg, 31, 32) && Lower(msg[32]) == 's'
  {
  }

  lemma RateLimitWordingMatch(msg: string)
    requires msg == RateLimitWording
    ensures PleaseRetryAt(msg, 12, 28, 30, 32)
  {
    RateLimitWordingPhrase(msg);
    RateLimitWordingNumeral(msg);
  }

  lemma RateLimitWordingNumber(msg: string)
    requires msg == RateLimitWording
    ensures IsPleaseRetryHit(msg, PleaseRetryHit(12, 28, 30, 32))
    ensures PleaseRetrySeconds(msg, PleaseRetryHit(12, 28, 30, 32)) == 13
  {
    RateLimitWordingMatch(msg);
    assert msg[28..30] == "12" && msg[31..32] == "4";
    assert DigitsValue("12") == 12 by { assert "12"[..1] == "1"; }
  }

  lemma RateLimitWordingUnclassified(msg: string)
    requires msg == RateLimitWording
    ensures !IsRateLimited(msg)
  {
    assert NoneIn(msg, 'q', 0, |msg|) && NoneIn(msg, 'Q', 0, |msg|) && NoneIn(msg, '4', 0, 31);
    assert msg[32] == 's';
    forall i: nat | i < |msg| ensures Lower(msg[i]) != Quota[0] {
      NoLowerIn(msg, 'q', 0, |msg|, i);
    }
    forall i: nat | i < 31 ensures !OccursAt(msg, Code429, i) {
      NotOccursAt(msg, Code429, i);
    }
  }

  /** `Rate limit: Please retry in 12.4s` holds a delay of 13 seconds, but it
      names neither `quota` nor `429`, so the endpoint answers 500 without a
      retry hint. */
  lemma RateLimitWordingIsNotRateLimited(msg: string)
    requires msg == RateLimitWording
    ensures RetryAfter(msg) == Some(13)
    ensures Respond(msg) == ErrorResponse(500, msg, None, None)
  {
    RateLimitWordingMatch(msg);
    RateLimitWordingNoEarlier(msg);
    PleaseRetryDecides(msg, 12, 28, 30, 32);
    RateLimitWordingNumber(msg);
    RateLimitWordingUnclassified(msg);
  }

  const QuotaDelay: string := "quota exceeded; retry_delay { seconds: 7 }"

  lemma QuotaDelayNoPleaseRetry(msg: string)
    requires msg == QuotaDelay
    ensures forall p': nat, a': nat, k': nat, b': nat :: !PleaseRetryAt(msg, p', a', k', b')
  {
    assert NoneIn(msg, 'p', 0, |msg|) && NoneIn(msg, 'P', 0, |msg|);
    forall p': nat, a': nat, k': nat, b': nat ensures !PleaseRetryAt(msg, p', a', k', b') {
      if p' < |msg| {
        NoLowerIn(msg, 'p', 0, |msg|, p');
      }
      NotCiOccursAt(msg, PleaseRetry, p');
    }
  }

  lemma QuotaDelayNoEarlier(msg: string)
    requires msg == QuotaDelay
    ensures forall p': nat, b': nat, q': nat, d': nat, e': nat :: p' < 16 ==> !RetryDelayAt(msg, p', b', q', d', e')
  {
    assert NoneIn(msg, 'r', 0, 16);
    forall p': nat, b': nat, q': nat, d': nat, e': nat | p' < 16
      ensures !RetryDelayAt(msg, p', b', q', d', e')
    {
      NotOccursAt(msg, RetryDelay, p');
    }
  }

  lemma QuotaDelayKeys(msg: string)
    requires msg == QuotaDelay
    ensures OccursAt(msg, RetryDelay, 16) && OccursAt(msg, SecondsKey, 30)
  {
    assert RetryDelay == "retry_delay";
    assert msg == "quota exceeded; " + RetryDelay + " { seconds: 7 }";
    OccursInMiddle("quota exceeded; ", RetryDelay, " { seconds: 7 }");
    assert msg == "quota exceeded; retry_delay { " + SecondsKey + " 7 }";
    OccursInMiddle("quota exceeded; retry_delay { ", SecondsKey, " 7 }");
  }

  lemma QuotaDelayBlock(msg: string)
    requires msg == QuotaDelay
    ensures |msg| == 42 && SpacesIn(msg, 27, 28) && msg[28] == '{' && NoneIn(msg, '}', 29, 30)
    ensures SpacesIn(msg, 38, 39) && DigitsIn(msg, 39, 40)
  {
  }

  lemma QuotaDelayMatch(msg: string)
    requires msg == QuotaDelay
    ensures RetryDelayAt(msg, 16, 29, 30, 39, 40)
  {
    QuotaDelayKeys(msg);
    QuotaDelayBlock(msg);
  }

  lemma QuotaDelayGreedy(msg: string)
    requires msg == QuotaDelay
    ensures forall b': nat, q': nat, d': nat, e': nat :: RetryDelayAt(msg, 16, b', q', d', e') ==>
      q' < 30 || (q' == 30 && e' <= 40)
  {
    assert NoneIn(msg, 's', 37, |msg|) && NoneIn(msg, '}', 29, 41) && msg[41] == '}';
    assert msg[37] != SecondsKey[1];
    forall b': nat, q': nat, d': nat, e': nat | RetryDelayAt(msg, 16, b', q', d', e')
      ensures q' < 30 || (q' == 30 && e' <= 40)
    {
      RetryDelayAtParts(msg, 16, b', q', d', e');
      assert msg[q' + 0] == SecondsKey[0] && msg[q' + 1] == SecondsKey[1];
      if q' == 30 {
        assert SkipSpaces(msg, 38) == 39;
        assert SkipDigits(msg, 39) == 40;
      }
    }
  }

  lemma QuotaDelayClassified(msg: string)
    requires msg == QuotaDelay
    ensures IsRateLimited(msg)
  {
    assert CiOccursAt(msg, Quota, 0);
  }

  lemma QuotaDelaySeconds(msg: string)
    requires forall p': nat, a': nat, k': nat, b': nat :: !PleaseRetryAt(msg, p', a', k', b')
    requires RetryDelayAt(msg, 16, 29, 30, 39, 40)
    requires forall p': nat, b': nat, q': nat, d': nat, e': nat :: p' < 16 ==> !RetryDelayAt(msg, p', b', q', d', e')
    requires forall b': nat, q': nat, d': nat, e': nat :: RetryDelayAt(msg, 16, b', q', d', e') ==>
      q' < 30 || (q' == 30 && e' <= 40)
    requires msg[39..40] == "7"
    ensures RetryAfter(msg) == Some(7)
  {
    RetryDelayDecides(msg, 16, 29, 30, 39, 40);
  }

  lemma QuotaDelayRetryAfter(msg: string)
    requires msg == QuotaDelay
    ensures RetryAfter(msg) == Some(7)
  {
    QuotaDelayNoPleaseRetry(msg);
    QuotaDelayNoEarlier(msg);
    QuotaDelayMatch(msg);
    QuotaDelayGreedy(msg);
    assert msg[39..40] == "7";
    QuotaDelaySeconds(msg);
  }

  /** A quota message whose delay sits in a `retry_delay { seconds: 7 }`
      block gets status 429, `retry_after` 7 and the header `7`. */
  lemma QuotaRetryDelaySeven(msg: string)
    requires msg == QuotaDelay
    ensures Respond(msg) == ErrorResponse(429, msg, Some(7), Some("7"))
  {
    QuotaDelayClassified(msg);
    QuotaDelayRetryAfter(msg);
  }
}
