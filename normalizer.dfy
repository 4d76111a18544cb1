/**
 * The reply normalizer of `generate_plan` (app.py, lines 164-192): the
 * model's raw reply is stripped, loses a leading and a trailing Markdown
 * code fence and a leading `json` token, and is cut down to the span from
 * its first `{` to its last `}`; that candidate goes to the JSON parser,
 * and a parse failure becomes a fixed error record.
 *
 * Each regular expression of the source is a Find/End function whose
 * contract says two things: the indices it returns are a match of the
 * pattern, and they are the match Python's backtracking engine reports
 * (the leftmost one, and at that position the one greedy quantifiers and
 * the preference for an optional group lead to).
 *
 * The JSON parser `json.loads` is the parameter `parse`, about which
 * nothing is assumed.
 */
module Normalizer {
  import opened Text

  const Fence: string := "```"
  const JsonTag: string := "json"
  const InvalidJsonMessage: string :=
    "AI returned invalid JSON. See server logs or last_raw_model_response.txt for details."

  /** What `generate_plan` returns on the paths modelled here: the parsed
      reply, or a record whose only field is `error`. */
  datatype PlanOutcome<J> = Plan(value: J) | ErrorRecord(error: string)

  /** `raw_text or ''`: a missing reply reads as the empty string. */
  function ReplyText(raw: Option<string>): string {
    match raw
    case None => ""
    case Some(t) => t
  }

  // -----------------------------------------------------------------------
  // Line 167: `^```(?:json)?\s*`, ignoring case, removed

  /** `^```(?:json)?\s*`, ignoring case, matches s[..e]. Without re.MULTILINE
      `^` holds only at position 0, so no other match exists. */
  predicate LeadingFenceMatch(s: string, e: nat) {
    && OccursAt(s, Fence, 0)
    && ((3 <= e && SpacesIn(s, 3, e)) || (CiOccursAt(s, JsonTag, 3) && 7 <= e && SpacesIn(s, 7, e)))
  }

  /** The length of the prefix line 167 removes: nothing when s does not
      start with a fence, and otherwise the longest match (the engine tries
      the optional tag first and `\s*` is greedy, which yields the longest). */
  function LeadingFenceEnd(s: string): (e: nat)
    ensures e <= |s|
    ensures !OccursAt(s, Fence, 0) ==> e == 0
    ensures OccursAt(s, Fence, 0) ==>
      LeadingFenceMatch(s, e) && forall e': nat :: LeadingFenceMatch(s, e') ==> e' <= e
  {
    if OccursAt(s, Fence, 0) then SkipSpaces(s, if CiOccursAt(s, JsonTag, 3) then 7 else 3)
    else 0
  }

  function StripLeadingFence(s: string): string {
    s[LeadingFenceEnd(s)..]
  }

  // -----------------------------------------------------------------------
  // Line 168: `\s*```$`, removed

  /** `$` without re.MULTILINE: the end of s, or just before a newline that
      ends s. */
  predicate AtEnd(s: string, e: nat) {
    e == |s| || (e + 1 == |s| && s[e] == '\n')
  }

  /** `\s*```$` matches s[p..e]. */
  predicate TrailingFenceMatch(s: string, p: nat, e: nat) {
    && p + 3 <= e && AtEnd(s, e)
    && SpacesIn(s, p, e - 3)
    && OccursAt(s, Fence, e - 3)
  }

  /** The match re.sub replaces: every match ends at the same place, and the
      engine reports the one that starts leftmost. After it nothing is left
      that could match again. */
  function FindTrailingFence(s: string): (m: Option<(nat, nat)>)
    ensures m.Some? ==> TrailingFenceMatch(s, m.value.0, m.value.1)
    ensures m.Some? ==> forall p: nat, e: nat ::
      TrailingFenceMatch(s, p, e) ==> m.value.0 <= p && e == m.value.1
    ensures m.None? ==> forall p: nat, e: nat :: !TrailingFenceMatch(s, p, e)
  {
    var e := if |s| > 0 && s[|s| - 1] == '\n' then |s| - 1 else |s|;
    assert forall p: nat, e': nat :: TrailingFenceMatch(s, p, e') ==> e' == e by {
      forall p: nat, e': nat | TrailingFenceMatch(s, p, e') ensures e' == e {
        assert s[e' - 1] == Fence[2] == '`';
      }
    }
    if e >= 3 && OccursAt(s, Fence, e - 3) then Some((SpacesBefore(s, e - 3), e)) else None
  }

  function StripTrailingFence(s: string): string {
    match FindTrailingFence(s)
    case Some((p, e)) => s[..p] + s[e..]
    case None => s
  }

  // -----------------------------------------------------------------------
  // Lines 171-172: a leading `json` token, in any case, and the whitespace
  // around what follows it.

  function DropJsonTag(s: string): (r: string)
    ensures OccursAt(LowerStr(s), JsonTag, 0) ==> Trimmed(r) && Framed(s[4..], r)
    ensures !OccursAt(LowerStr(s), JsonTag, 0) ==> r == s
  {
    if OccursAt(LowerStr(s), JsonTag, 0) then StripFrames(s[4..]); Strip(s[4..]) else s
  }

  // -----------------------------------------------------------------------
  // Lines 175-179: `\{[\s\S]*\}`, leftmost match

  /** `\{[\s\S]*\}` matches s[i..j]. */
  predicate BraceMatch(s: string, i: nat, j: nat) {
    i + 2 <= j <= |s| && s[i] == '{' && s[j - 1] == '}'
  }

  /** The match re.search reports: it starts at the first `{` and, since
      `[\s\S]*` is greedy, ends after the last `}`; no match starts earlier
      or ends later. */
  function FindBraceSpan(s: string): (m: Option<(nat, nat)>)
    ensures m.Some? ==> BraceMatch(s, m.value.0, m.value.1)
    ensures m.Some? ==> forall i: nat, j: nat ::
      BraceMatch(s, i, j) ==> m.value.0 <= i && j <= m.value.1
    ensures m.None? ==> forall i: nat, j: nat :: !BraceMatch(s, i, j)
  {
    match (FirstFrom(s, '{', 0), LastBefore(s, '}', |s|))
    case (Some(i), Some(k)) => if i < k then Some((i, k + 1)) else None
    case _ => None
  }

  /** The JSON candidate cut out of the cleaned text. */
  function ExtractCandidate(t: string): string {
    match FindBraceSpan(t)
    case Some((i, j)) => Strip(t[i..j])
    case None => t
  }

  // -----------------------------------------------------------------------
  // The whole pipeline.

  /** The reply after lines 164-172. */
  function Clean(raw: Option<string>): string {
    DropJsonTag(StripTrailingFence(StripLeadingFence(Strip(ReplyText(raw)))))
  }

  /** The text handed to `json.loads` (line 182). */
  function Candidate(raw: Option<string>): string {
    ExtractCandidate(Clean(raw))
  }

  /** Lines 181-192: a parsed candidate is returned as it is; a candidate the
      parser rejects yields the fixed error record. */
  function GeneratePlan<J>(raw: Option<string>, parse: string -> Option<J>): (r: PlanOutcome<J>)
    ensures parse(Candidate(raw)).Some? ==> r == Plan(parse(Candidate(raw)).value)
    ensures parse(Candidate(raw)).None? ==> r == ErrorRecord(InvalidJsonMessage)
  {
    match parse(Candidate(raw))
    case Some(v) => Plan(v)
    case None => ErrorRecord(InvalidJsonMessage)
  }

  // -----------------------------------------------------------------------
  // Properties of the pipeline.

  /** A JSON object as the prompt asks for it: `{` first, `}` last. */
  predicate Braced(t: string) {
    |t| >= 2 && t[0] == '{' && t[|t| - 1] == '}'
  }

  /** A fence tag `json`, in any case. */
  predicate IsJsonTag(tag: string) {
    |tag| == 4 && CiOccursAt(tag, JsonTag, 0)
  }

  /** r is a contiguous piece of s. */
  ghost predicate Infix(r: string, s: string) {
    exists p, q :: s == p + r + q
  }

  lemma InfixWitness(r: string, s: string, p: string, q: string)
    requires s == p + r + q
    ensures Infix(r, s)
  {
  }

  lemma InfixTrans(r: string, t: string, s: string)
    requires Infix(r, t) && Infix(t, s)
    ensures Infix(r, s)
  {
    var p, q :| t == p + r + q;
    var p', q' :| s == p' + t + q';
    assert s == (p' + p) + r + (q + q');
  }

  lemma SliceInfix(s: string, i: nat, j: nat)
    requires i <= j <= |s|
    ensures Infix(s[i..j], s)
  {
    assert s == s[..i] + s[i..j] + s[j..];
    InfixWitness(s[i..j], s, s[..i], s[j..]);
  }

  /** Line 167 on a fenced text: the fence, its optional tag and the
      whitespace after it go, and the rest stays. */
  lemma {:induction false} LeadingFenceOf(tag: string, ws: string, y: string)
    requires tag == [] || IsJsonTag(tag)
    requires AllSpace(ws) && (y == [] || !IsSpace(y[0]))
    requires tag == [] && ws == [] ==> !CiOccursAt(y, JsonTag, 0)
    ensures StripLeadingFence(Fence + tag + ws + y) == y
  {
    var s := Fence + tag + ws + y;
    var k := 3 + |tag| + |ws|;
    assert s[k..] == y;
    assert SpacesIn(s, 3 + |tag|, k) by {
      forall m | 3 + |tag| <= m < k ensures IsSpace(s[m]) {
        assert s[m] == ws[m - 3 - |tag|];
      }
    }
    assert k == |s| || s[k] == y[0];
    if tag != [] {
      assert CiOccursAt(s, JsonTag, 3) by {
        forall m | 0 <= m < 4 ensures Lower(s[3 + m]) == JsonTag[m] {
          assert s[3 + m] == tag[m];
        }
      }
    } else if ws != [] {
      assert s[3] == ws[0] && IsSpace(s[3]);
      assert JsonTag[0] == 'j';
      assert !CiOccursAt(s, JsonTag, 3);
    } else {
      assert s[3..] == y;
      assert !CiOccursAt(s, JsonTag, 3);
    }
    SpaceRunEnd(s, 3 + |tag|, k);
  }

  /** Line 168 on a text that ends with whitespace and a fence: exactly
      those go. */
  lemma {:induction false} TrailingFenceOf(x: string, ws: string)
    requires AllSpace(ws) && (x == [] || !IsSpace(x[|x| - 1]))
    ensures StripTrailingFence(x + ws + Fence) == x
  {
    var s := x + ws + Fence;
    assert s[|s| - 1] == '`';
    assert OccursAt(s, Fence, |s| - 3) by {
      forall m | 0 <= m < 3 ensures s[|s| - 3 + m] == Fence[m] {
        assert s[|s| - 3 + m] == Fence[m];
      }
    }
    assert SpacesIn(s, |x|, |s| - 3) by {
      forall m | |x| <= m < |s| - 3 ensures IsSpace(s[m]) {
        assert s[m] == ws[m - |x|];
      }
    }
    assert |x| > 0 ==> s[|x| - 1] == x[|x| - 1];
    SpaceRunStart(s, |x|, |s| - 3);
    assert s[..|x|] == x;
  }

  lemma LeadingFenceAbsent(s: string)
    requires s == [] || s[0] != '`'
    ensures StripLeadingFence(s) == s
  {
    assert !OccursAt(s, Fence, 0) by {
      if |s| >= 3 {
        assert Fence[0] == '`';
      }
    }
    assert s[0..] == s;
  }

  lemma TrailingFenceAbsent(s: string)
    requires s == [] || (s[|s| - 1] != '`' && s[|s| - 1] != '\n')
    ensures StripTrailingFence(s) == s
  {
    assert !(|s| >= 3 && OccursAt(s, Fence, |s| - 3)) by {
      if |s| >= 3 {
        assert Fence[2] == '`';
      }
    }
  }

  lemma JsonTagAbsent(s: string)
    requires s == [] || Lower(s[0]) != 'j'
    ensures DropJsonTag(s) == s
  {
    assert JsonTag[0] == 'j';
  }

  lemma BracedCandidate(t: string)
    requires Braced(t)
    ensures ExtractCandidate(t) == t
  {
    assert BraceMatch(t, 0, |t|);
    assert FindBraceSpan(t) == Some((0, |t|));
    assert t[0..|t|] == t;
    TrimmedStrip(t);
  }

  /** A braced text passes lines 164-172 unchanged. */
  lemma BracedClean(t: string)
    requires Braced(t)
    ensures Clean(Some(t)) == t
  {
    assert t[0] == '{' && t[|t| - 1] == '}';
    calc {
      Clean(Some(t));
      DropJsonTag(StripTrailingFence(StripLeadingFence(Strip(t))));
      { TrimmedStrip(t); }
      DropJsonTag(StripTrailingFence(StripLeadingFence(t)));
      { LeadingFenceAbsent(t); }
      DropJsonTag(StripTrailingFence(t));
      { TrailingFenceAbsent(t); }
      DropJsonTag(t);
      { JsonTagAbsent(t); }
      t;
    }
  }

  /** A braced text is its own candidate. */
  lemma BracedIsFixedPoint(t: string)
    requires Braced(t)
    ensures Candidate(Some(t)) == t
  {
    BracedClean(t);
    BracedCandidate(t);
  }

  /** Lines 164-172 on a fenced braced text, one step at a time. */
  lemma {:induction false} FencedClean(t: string, ws1: string, tag: string, ws2: string, ws3: string, ws4: string)
    requires Braced(t)
    requires tag == [] || IsJsonTag(tag)
    requires AllSpace(ws1) && AllSpace(ws2) && AllSpace(ws3) && AllSpace(ws4)
    ensures Clean(Some(ws1 + Fence + tag + ws2 + t + ws3 + Fence + ws4)) == t
  {
    var s0 := ws1 + Fence + tag + ws2 + t + ws3 + Fence + ws4;
    var y := t + ws3 + Fence;
    var inner := Fence + tag + ws2 + y;
    assert inner[0] == '`' && inner[|inner| - 1] == '`';
    assert s0 == ws1 + inner + ws4;
    StripFramed(ws1, inner, ws4);
    var s1 := Strip(ReplyText(Some(s0)));
    assert s1 == inner;
    assert y[0] == '{' && Lower(y[0]) == '{';
    assert JsonTag[0] == 'j';
    assert !CiOccursAt(y, JsonTag, 0);
    LeadingFenceOf(tag, ws2, y);
    var s2 := StripLeadingFence(s1);
    assert s2 == y;
    TrailingFenceOf(t, ws3);
    var s3 := StripTrailingFence(s2);
    assert s3 == t;
    JsonTagAbsent(t);
    assert DropJsonTag(s3) == t;
  }

  /** The fence round trip: a braced text wrapped in a fence, with or
      without a `json` tag in any case, and with any whitespace around and
      inside the fence, gives the same candidate as the bare text, and that
      candidate is the text itself. */
  lemma FenceRoundTrip(t: string, ws1: string, tag: string, ws2: string, ws3: string, ws4: string)
    requires Braced(t)
    requires tag == [] || IsJsonTag(tag)
    requires AllSpace(ws1) && AllSpace(ws2) && AllSpace(ws3) && AllSpace(ws4)
    ensures Candidate(Some(ws1 + Fence + tag + ws2 + t + ws3 + Fence + ws4)) == t
    ensures Candidate(Some(t)) == t
  {
    FencedClean(t, ws1, tag, ws2, ws3, ws4);
    BracedCandidate(t);
    BracedIsFixedPoint(t);
  }

  lemma {:induction false} TagLineFences(t: string, ws2: string, tag: string, ws3: string, ws4: string)
    requires Braced(t) && IsJsonTag(tag)
    requires |ws2| > 0
    requires AllSpace(ws2) && AllSpace(ws3) && AllSpace(ws4)
    ensures StripTrailingFence(StripLeadingFence(Fence + ws2 + (tag + ws3 + t + ws4 + Fence)))
         == tag + ws3 + t
  {
    var x := tag + ws3 + t;
    var y := x + ws4 + Fence;
    assert y[0] == tag[0] && Lower(tag[0]) == JsonTag[0] == 'j';
    var noTag: string := [];
    assert Fence + noTag + ws2 + y == Fence + ws2 + y;
    LeadingFenceOf(noTag, ws2, y);
    assert x[|x| - 1] == t[|t| - 1];
    TrailingFenceOf(x, ws4);
  }

  lemma {:induction false} TagLineToken(t: string, tag: string, ws3: string)
    requires Braced(t) && IsJsonTag(tag) && AllSpace(ws3)
    ensures DropJsonTag(tag + ws3 + t) == t
  {
    var x := tag + ws3 + t;
    assert OccursAt(LowerStr(x), JsonTag, 0) by {
      forall m | 0 <= m < 4 ensures LowerStr(x)[m] == JsonTag[m] {
        assert x[m] == tag[m];
      }
    }
    assert x[4..] == ws3 + t + [];
    StripFramed(ws3, t, []);
  }

  /** Lines 164-172 on a bare fence whose tag stands on a line of its own. */
  lemma {:induction false} TagLineClean(t: string, ws1: string, ws2: string, tag: string, ws3: string,
                                        ws4: string, ws5: string)
    requires Braced(t) && IsJsonTag(tag)
    requires |ws2| > 0
    requires AllSpace(ws1) && AllSpace(ws2) && AllSpace(ws3) && AllSpace(ws4) && AllSpace(ws5)
    ensures Clean(Some(ws1 + Fence + ws2 + tag + ws3 + t + ws4 + Fence + ws5)) == t
  {
    var s0 := ws1 + Fence + ws2 + tag + ws3 + t + ws4 + Fence + ws5;
    var inner := Fence + ws2 + (tag + ws3 + t + ws4 + Fence);
    assert inner[0] == '`' && inner[|inner| - 1] == '`';
    assert s0 == ws1 + inner + ws5;
    StripFramed(ws1, inner, ws5);
    TagLineFences(t, ws2, tag, ws3, ws4);
    TagLineToken(t, tag, ws3);
  }

  /** A bare fence with the tag on a line of its own: line 167 leaves the
      tag, and lines 171-172 remove it. */
  lemma TagOnOwnLine(t: string, ws1: string, ws2: string, tag: string, ws3: string, ws4: string, ws5: string)
    requires Braced(t) && IsJsonTag(tag)
    requires |ws2| > 0
    requires AllSpace(ws1) && AllSpace(ws2) && AllSpace(ws3) && AllSpace(ws4) && AllSpace(ws5)
    ensures Candidate(Some(ws1 + Fence + ws2 + tag + ws3 + t + ws4 + Fence + ws5)) == t
  {
    TagLineClean(t, ws1, ws2, tag, ws3, ws4, ws5);
    BracedCandidate(t);
  }

  /** A missing, empty or blank reply leaves the empty candidate, and when
      the parser rejects the empty text (as `json.loads` does) the fixed
      error record is returned rather than anything raised. */
  lemma {:induction false} EmptyReply<J>(raw: Option<string>, parse: string -> Option<J>)
    requires raw == None || AllSpace(raw.value)
    ensures Candidate(raw) == ""
    ensures parse("") == None ==> GeneratePlan(raw, parse) == ErrorRecord(InvalidJsonMessage)
  {
    var s := ReplyText(raw);
    assert s == s + [] + [];
    StripFramed(s, [], []);
    assert !OccursAt(LowerStr(""), JsonTag, 0);
    assert FindBraceSpan("") == None;
  }

  /** Line 168 inside the pipeline: its input never ends with whitespace, so
      `$` means the very end. The removal happens only when the text ends
      with a fence, and it takes those three backticks and the whole run of
      whitespace before them; otherwise nothing changes. */
  lemma {:induction false} TrailingFenceOnlyAtEnd(s: string)
    requires s == [] || !IsSpace(s[|s| - 1])
    ensures var r := StripTrailingFence(s);
      if |s| >= 3 && OccursAt(s, Fence, |s| - 3) then
        && |r| <= |s| - 3
        && s == r + s[|r|..|s| - 3] + Fence
        && AllSpace(s[|r|..|s| - 3])
        && (r == [] || !IsSpace(r[|r| - 1]))
      else r == s
  {
    var r := StripTrailingFence(s);
    if |s| >= 3 && OccursAt(s, Fence, |s| - 3) {
      var p := SpacesBefore(s, |s| - 3);
      assert FindTrailingFence(s) == Some((p, |s|));
      assert r == s[..p];
      assert s[p..|s| - 3] == s[|r|..|s| - 3];
      assert s == s[..p] + s[p..|s| - 3] + s[|s| - 3..];
      assert s[|s| - 3..] == Fence;
      assert AllSpace(s[p..|s| - 3]);
    } else {
      assert FindTrailingFence(s) == None;
    }
  }

  lemma StripInfix(x: string)
    ensures Infix(Strip(x), x)
  {
    StripFrames(x);
    var a, b :| x == a + Strip(x) + b && AllSpace(a) && AllSpace(b);
    InfixWitness(Strip(x), x, a, b);
  }

  /** Line 167 removes a prefix only, so a text that does not end with
      whitespace still does not afterwards. */
  lemma LeadingFenceSuffix(s: string)
    ensures var u := StripLeadingFence(s);
      Infix(u, s) && (s == [] || !IsSpace(s[|s| - 1]) ==> u == [] || !IsSpace(u[|u| - 1]))
  {
    var e := LeadingFenceEnd(s);
    SliceInfix(s, e, |s|);
    assert s[e..|s|] == StripLeadingFence(s);
  }

  lemma TrailingFenceInfix(s: string)
    requires s == [] || !IsSpace(s[|s| - 1])
    ensures Infix(StripTrailingFence(s), s)
  {
    TrailingFenceOnlyAtEnd(s);
    var r := StripTrailingFence(s);
    assert |r| <= |s| && r == s[0..|r|];
    SliceInfix(s, 0, |r|);
  }

  lemma JsonTagInfix(s: string)
    ensures Infix(DropJsonTag(s), s)
  {
    if OccursAt(LowerStr(s), JsonTag, 0) {
      var t := s[4..];
      StripInfix(t);
      SliceInfix(s, 4, |s|);
      assert s[4..|s|] == t;
      InfixTrans(Strip(t), t, s);
    } else {
      SliceInfix(s, 0, |s|);
      assert s[0..|s|] == s;
    }
  }

  lemma ExtractInfix(t: string)
    ensures Infix(ExtractCandidate(t), t)
  {
    match FindBraceSpan(t)
    case Some((i, j)) => {
      StripInfix(t[i..j]);
      SliceInfix(t, i, j);
      InfixTrans(Strip(t[i..j]), t[i..j], t);
    }
    case None => {
      SliceInfix(t, 0, |t|);
      assert t[0..|t|] == t;
    }
  }

  /** Inner text is never changed: the candidate is a contiguous piece of
      the raw reply. */
  lemma {:induction false} CandidateIsInfix(raw: Option<string>)
    ensures Infix(Candidate(raw), ReplyText(raw))
  {
    var x := ReplyText(raw);
    var s := Strip(x);
    StripInfix(x);
    var u := StripLeadingFence(s);
    LeadingFenceSuffix(s);
    InfixTrans(u, s, x);
    var v := StripTrailingFence(u);
    TrailingFenceInfix(u);
    InfixTrans(v, u, x);
    var w := DropJsonTag(v);
    JsonTagInfix(v);
    InfixTrans(w, v, x);
    ExtractInfix(w);
    InfixTrans(ExtractCandidate(w), w, x);
  }

  /** Lines 175-179: when the cleaned text holds a `{` before a `}`, the
      candidate is exactly the span from its first `{` to its last `}`; when
      it does not, the candidate is the cleaned text. */
  lemma {:induction false} BraceSpanCandidate(t: string)
    ensures (forall i: nat, j: nat :: !BraceMatch(t, i, j)) ==> ExtractCandidate(t) == t
    ensures forall i: nat, j: nat ::
      BraceMatch(t, i, j) && NoneIn(t, '{', 0, i) && NoneIn(t, '}', j, |t|) ==>
        ExtractCandidate(t) == t[i..j]
    ensures (exists i: nat, j: nat :: BraceMatch(t, i, j)) ==>
      exists i: nat, j: nat :: BraceMatch(t, i, j) && NoneIn(t, '{', 0, i) && NoneIn(t, '}', j, |t|)
  {
    match FindBraceSpan(t)
    case Some((i, j)) => {
      var c := t[i..j];
      assert c[0] == '{' && c[|c| - 1] == '}';
      TrimmedStrip(c);
      assert NoneIn(t, '{', 0, i);
      assert NoneIn(t, '}', j, |t|);
      forall i': nat, j': nat | BraceMatch(t, i', j') && NoneIn(t, '{', 0, i') && NoneIn(t, '}', j', |t|)
        ensures ExtractCandidate(t) == t[i'..j']
      {
        assert i' == i && j' == j;
      }
    }
    case None => {
    }
  }

  /** When the cleaned text holds a `{` before a `}`, its candidate is
      braced. */
  lemma SpanCandidateBraced(t: string, i: nat, j: nat)
    requires BraceMatch(t, i, j)
    ensures Braced(ExtractCandidate(t))
  {
    match FindBraceSpan(t)
    case Some((i', j')) => {
      var c := t[i'..j'];
      assert c[0] == '{' && c[|c| - 1] == '}';
      TrimmedStrip(c);
    }
    case None => {
      assert false;
    }
  }

  /** Normalizing a brace-span candidate again leaves it as it is. */
  lemma ExtractIdempotent(t: string, i: nat, j: nat)
    requires BraceMatch(t, i, j)
    ensures Candidate(Some(ExtractCandidate(t))) == ExtractCandidate(t)
  {
    SpanCandidateBraced(t, i, j);
    BracedIsFixedPoint(ExtractCandidate(t));
  }

  /** Re-normalizing a candidate that is a brace span changes nothing. */
  lemma CandidateIdempotentOnSpans(raw: Option<string>, i: nat, j: nat)
    requires BraceMatch(Clean(raw), i, j)
    ensures Candidate(Some(Candidate(raw))) == Candidate(raw)
  {
    ExtractIdempotent(Clean(raw), i, j);
  }

  /** The fence round trip seen through the parser: whatever `parse` is, the
      fenced reply and the bare one give the same outcome. */
  lemma FencedParsesLikeBare<J>(t: string, ws1: string, tag: string, ws2: string, ws3: string, ws4: string,
                                parse: string -> Option<J>)
    requires Braced(t)
    requires tag == [] || IsJsonTag(tag)
    requires AllSpace(ws1) && AllSpace(ws2) && AllSpace(ws3) && AllSpace(ws4)
    ensures GeneratePlan(Some(ws1 + Fence + tag + ws2 + t + ws3 + Fence + ws4), parse)
         == GeneratePlan(Some(t), parse)
  {
    FenceRoundTrip(t, ws1, tag, ws2, ws3, ws4);
  }

  /** A fenced reply with surrounding blanks: its candidate is the bare
      object between the fences. */
  lemma FencedReplyExample(raw: string, obj: string)
    requires obj == "{\"project_name\":\"X\",\"tasks\":[]}"
    requires raw == "  ```json\n" + obj + "\n```  "
    ensures Candidate(Some(raw)) == obj
  {
    assert raw == "  " + Fence + "json" + "\n" + obj + "\n" + Fence + "  ";
    assert IsJsonTag("json");
    assert AllSpace("  ") && AllSpace("\n");
    FenceRoundTrip(obj, "  ", "json", "\n", "\n", "  ");
  }
}

