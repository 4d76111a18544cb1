/**
 * Character classes, case mapping, substring search, whitespace runs and
 * decimal numerals, as the reply normalizer and the rate-limit classifier
 * of app.py use them through Python's `str` methods and `re` patterns.
 *
 * Whitespace is what Python's `str.isspace()` and the `\s` class accept
 * among ASCII characters; case-insensitivity is ASCII case-insensitivity.
 */
module Text {

  datatype Option<+T> = None | Some(value: T)

  /** Tab, line feed, vertical tab, form feed, carriage return (9-13), the
      four information separators (28-31) and space. */
  predicate IsSpace(c: char) {
    c == ' ' || ('\t' <= c <= '\r') || ('\U{1C}' <= c <= '\U{1F}')
  }

  /** The `\d` class on ASCII. */
  predicate IsDigit(c: char) {
    '0' <= c <= '9'
  }

  /** `str.lower()` on one ASCII character; every other character is kept. */
  function Lower(c: char): char {
    if 'A' <= c <= 'Z' then (c as int + 32) as char else c
  }

  /** `str.lower()` on a whole string. */
  function LowerStr(s: string): (r: string)
    ensures |r| == |s|
    ensures forall i :: 0 <= i < |s| ==> r[i] == Lower(s[i])
  {
    seq(|s|, i requires 0 <= i < |s| => Lower(s[i]))
  }

  /** Every character of s[i..j] is whitespace. */
  predicate SpacesIn(s: string, i: nat, j: nat) {
    j <= |s| && forall m :: i <= m < j ==> IsSpace(s[m])
  }

  /** Every character of s[i..j] is a digit. */
  predicate DigitsIn(s: string, i: nat, j: nat) {
    j <= |s| && forall m :: i <= m < j ==> IsDigit(s[m])
  }

  /** No character of s[i..j] is c (and j is within s). */
  predicate NoneIn(s: string, c: char, i: nat, j: nat) {
    j <= |s| && forall m :: i <= m < j ==> s[m] != c
  }

  predicate AllSpace(s: string) {
    SpacesIn(s, 0, |s|)
  }

  predicate AllDigits(s: string) {
    DigitsIn(s, 0, |s|)
  }

  /** s has no whitespace at either end: the form `str.strip()` returns. */
  predicate Trimmed(s: string) {
    s == [] || (!IsSpace(s[0]) && !IsSpace(s[|s| - 1]))
  }

  /** t is r with whitespace on both sides. */
  ghost predicate Framed(t: string, r: string) {
    exists a, b :: t == a + r + b && AllSpace(a) && AllSpace(b)
  }

  /** pat occurs in s at position i. */
  predicate OccursAt(s: string, pat: string, i: nat) {
    i + |pat| <= |s| && forall k :: 0 <= k < |pat| ==> s[i + k] == pat[k]
  }

  /** pat (given in lower case) occurs in s at position i, ignoring ASCII case:
      what a literal in a pattern compiled with `re.IGNORECASE` matches. */
  predicate CiOccursAt(s: string, pat: string, i: nat) {
    i + |pat| <= |s| && forall k :: 0 <= k < |pat| ==> Lower(s[i + k]) == pat[k]
  }

  /** `pat in s[i..]`, by scanning the start positions from i on. */
  function ContainsFrom(s: string, pat: string, i: nat): (r: bool)
    requires i <= |s|
    ensures r <==> exists k: nat :: i <= k && OccursAt(s, pat, k)
    decreases |s| - i
  {
    if OccursAt(s, pat, i) then true
    else if i + |pat| >= |s| then false
    else ContainsFrom(s, pat, i + 1)
  }

  /** Python's `pat in s`. */
  function Contains(s: string, pat: string): bool {
    ContainsFrom(s, pat, 0)
  }

  /** A piece w that equals pat up to case occurs, ignoring case, where it
      stands in x + w + y. */
  lemma CiOccursInMiddle(x: string, w: string, y: string, pat: string)
    requires |w| == |pat| && forall k :: 0 <= k < |w| ==> Lower(w[k]) == pat[k]
    ensures CiOccursAt(x + w + y, pat, |x|)
  {
    var s := x + w + y;
    forall k | 0 <= k < |pat| ensures Lower(s[|x| + k]) == pat[k] {
      assert s[|x| + k] == w[k];
    }
  }

  /** w occurs where it stands in x + w + y. */
  lemma OccursInMiddle(x: string, w: string, y: string)
    ensures OccursAt(x + w + y, w, |x|)
  {
    var s := x + w + y;
    forall k | 0 <= k < |w| ensures s[|x| + k] == w[k] {
    }
  }

  /** pat cannot occur at i, ignoring case, when its first character does
      not match there. */
  lemma NotCiOccursAt(s: string, pat: string, i: nat)
    requires |pat| > 0 && (i < |s| ==> Lower(s[i]) != pat[0])
    ensures !CiOccursAt(s, pat, i)
  {
    assert i < |s| ==> Lower(s[i + 0]) != pat[0];
  }

  /** pat cannot occur at i when its first character is not there. */
  lemma NotOccursAt(s: string, pat: string, i: nat)
    requires |pat| > 0 && (i < |s| ==> s[i] != pat[0])
    ensures !OccursAt(s, pat, i)
  {
    assert i < |s| ==> s[i + 0] != pat[0];
  }

  /** `\s*` starting at i: the end of the longest run of whitespace there. */
  function SkipSpaces(s: string, i: nat): (k: nat)
    requires i <= |s|
    ensures i <= k <= |s| && SpacesIn(s, i, k)
    ensures k == |s| || !IsSpace(s[k])
    decreases |s| - i
  {
    if i < |s| && IsSpace(s[i]) then SkipSpaces(s, i + 1) else i
  }

  /** `\d*` starting at i: the end of the longest run of digits there. */
  function SkipDigits(s: string, i: nat): (k: nat)
    requires i <= |s|
    ensures i <= k <= |s| && DigitsIn(s, i, k)
    ensures k == |s| || !IsDigit(s[k])
    decreases |s| - i
  {
    if i < |s| && IsDigit(s[i]) then SkipDigits(s, i + 1) else i
  }

  /** The start of the longest run of whitespace that ends at j. */
  function SpacesBefore(s: string, j: nat): (k: nat)
    requires j <= |s|
    ensures k <= j && SpacesIn(s, k, j)
    ensures k == 0 || !IsSpace(s[k - 1])
  {
    if j > 0 && IsSpace(s[j - 1]) then SpacesBefore(s, j - 1) else j
  }

  /** A run of whitespace from i that stops at a non-space (or the end) is
      the one SkipSpaces finds. */
  lemma SpaceRunEnd(s: string, i: nat, k: nat)
    requires i <= k <= |s| && SpacesIn(s, i, k) && (k == |s| || !IsSpace(s[k]))
    ensures SkipSpaces(s, i) == k
  {
  }

  lemma DigitRunEnd(s: string, i: nat, k: nat)
    requires i <= k <= |s| && DigitsIn(s, i, k) && (k == |s| || !IsDigit(s[k]))
    ensures SkipDigits(s, i) == k
  {
  }

  /** A run of whitespace ending at j that starts after a non-space (or at
      the start) is the one SpacesBefore finds. */
  lemma SpaceRunStart(s: string, k: nat, j: nat)
    requires k <= j <= |s| && SpacesIn(s, k, j) && (k == 0 || !IsSpace(s[k - 1]))
    ensures SpacesBefore(s, j) == k
  {
  }

  /** Python's `str.strip()` (on ASCII whitespace). */
  function Strip(s: string): (r: string)
    ensures Trimmed(r) && |r| <= |s|
  {
    var t := s[SkipSpaces(s, 0)..];
    t[..SpacesBefore(t, |t|)]
  }

  /** What Strip removes is whitespace on both sides. */
  lemma StripFrames(s: string)
    ensures Framed(s, Strip(s))
  {
    var i := SkipSpaces(s, 0);
    var t := s[i..];
    var j := SpacesBefore(t, |t|);
    assert s == s[..i] + t[..j] + t[j..];
    assert AllSpace(s[..i]) && AllSpace(t[j..]);
  }

  /** Stripping removes exactly the surrounding whitespace: whatever framing
      of s by whitespace leaves a trimmed middle, that middle is Strip(s). */
  lemma {:induction false} StripFramed(a: string, u: string, b: string)
    requires AllSpace(a) && AllSpace(b) && Trimmed(u)
    ensures Strip(a + u + b) == u
  {
    var s := a + u + b;
    if u == [] {
      assert s == a + b;
      SpaceRunEnd(s, 0, |s|);
      assert s[|s|..] == [];
    } else {
      assert s[|a|] == u[0];
      SpaceRunEnd(s, 0, |a|);
      var t := s[|a|..];
      assert t == u + b;
      assert t[|u| - 1] == u[|u| - 1];
      assert SpacesIn(t, |u|, |t|) by {
        forall m | |u| <= m < |t| ensures IsSpace(t[m]) {
          assert t[m] == b[m - |u|];
        }
      }
      SpaceRunStart(t, |u|, |t|);
      var j := SpacesBefore(t, |t|);
      assert t[..j] == u;
    }
  }

  /** Python's `str.strip()` returns its argument when it is already trimmed. */
  lemma TrimmedStrip(u: string)
    requires Trimmed(u)
    ensures Strip(u) == u
  {
    assert u == [] + u + [];
    StripFramed([], u, []);
  }

  /** The first occurrence of c in s at or after i. */
  function FirstFrom(s: string, c: char, i: nat): (r: Option<nat>)
    requires i <= |s|
    ensures r.Some? ==> i <= r.value < |s| && s[r.value] == c && NoneIn(s, c, i, r.value)
    ensures r.None? ==> NoneIn(s, c, i, |s|)
    decreases |s| - i
  {
    if i == |s| then None
    else if s[i] == c then Some(i)
    else FirstFrom(s, c, i + 1)
  }

  /** The last occurrence of c in s[..j]. */
  function LastBefore(s: string, c: char, j: nat): (r: Option<nat>)
    requires j <= |s|
    ensures r.Some? ==> r.value < j && s[r.value] == c && NoneIn(s, c, r.value + 1, j)
    ensures r.None? ==> NoneIn(s, c, 0, j)
  {
    if j == 0 then None
    else if s[j - 1] == c then Some(j - 1)
    else LastBefore(s, c, j - 1)
  }

  // ---------------------------------------------------------------------
  // Decimal numerals: `int(...)` of a run of digits and `str(n)` of a
  // non-negative integer.

  function DigitValue(c: char): (d: nat)
    requires IsDigit(c)
    ensures d < 10
  {
    c as int - '0' as int
  }

  function DigitChar(d: nat): (c: char)
    requires d < 10
    ensures IsDigit(c) && DigitValue(c) == d
  {
    ('0' as int + d) as char
  }

  /** The value of a string of decimal digits, most significant first. */
  function DigitsValue(t: string): nat
    requires AllDigits(t)
  {
    if t == [] then 0
    else
      assert AllDigits(t[..|t| - 1]);
      DigitsValue(t[..|t| - 1]) * 10 + DigitValue(t[|t| - 1])
  }

  /** A numeral without superfluous leading zeros. */
  predicate Canonical(t: string) {
    |t| > 0 && AllDigits(t) && (t[0] == '0' ==> |t| == 1)
  }

  /** Python's `str(n)` for n >= 0. */
  function DecimalString(n: nat): (r: string)
    ensures Canonical(r) && DigitsValue(r) == n
  {
    if n < 10 then [DigitChar(n)]
    else
      var p := DecimalString(n / 10);
      var r := p + [DigitChar(n % 10)];
      assert r[..|r| - 1] == p;
      r
  }

  function Pow10(n: nat): (p: nat)
    ensures p >= 1
  {
    if n == 0 then 1 else 10 * Pow10(n - 1)
  }

  /** n digits denote a number below 10^n. */
  lemma {:induction false} DigitsValueBound(t: string)
    requires AllDigits(t)
    ensures DigitsValue(t) < Pow10(|t|)
  {
    if t != [] {
      var p := t[..|t| - 1];
      assert AllDigits(p);
      DigitsValueBound(p);
      assert DigitsValue(t) == DigitsValue(p) * 10 + DigitValue(t[|t| - 1]);
    }
  }

  /** A numeral that does not start with 0 denotes a positive number. */
  lemma {:induction false} LeadingDigitPositive(t: string)
    requires |t| > 0 && AllDigits(t) && t[0] != '0'
    ensures DigitsValue(t) > 0
  {
    if |t| > 1 {
      var p := t[..|t| - 1];
      assert p[0] == t[0];
      LeadingDigitPositive(p);
    }
  }

  /** `str(int(t)) == t` for every canonical numeral t: together with the
      contract of DecimalString, numerals and their values determine each
      other. */
  lemma {:induction false} CanonicalRoundTrip(t: string)
    requires Canonical(t)
    ensures DecimalString(DigitsValue(t)) == t
  {
    if |t| > 1 {
      var p := t[..|t| - 1];
      assert p[0] == t[0];
      assert Canonical(p);
      LeadingDigitPositive(p);
      CanonicalRoundTrip(p);
      var n := DigitsValue(t);
      assert n == DigitsValue(p) * 10 + DigitValue(t[|t| - 1]);
      assert n / 10 == DigitsValue(p) && n % 10 == DigitValue(t[|t| - 1]);
      assert t == p + [t[|t| - 1]];
    } else {
      assert t == [DigitChar(DigitValue(t[0]))];
    }
  }

  /** `int(math.ceil(float(i + "." + f)))` on exact decimals: the integer
      part, plus one when the fraction is not zero. An empty f stands for a
      numeral without a fractional part. */
  function CeilDecimal(i: string, f: string): (c: nat)
    requires AllDigits(i) && AllDigits(f)
  {
    DigitsValue(i) + (if DigitsValue(f) == 0 then 0 else 1)
  }

  /** c is the ceiling of num / den (for den > 0): the least integer with
      num / den <= c. */
  predicate IsCeilingOf(c: int, num: int, den: int) {
    num <= c * den && (c - 1) * den < num
  }

  /** CeilDecimal is the ceiling: with x = i.f = (i * 10^n + f) / 10^n for
      n = |f|, the result c is the least integer with x <= c. */
  lemma {:induction false} CeilDecimalIsCeiling(i: string, f: string)
    requires AllDigits(i) && AllDigits(f)
    ensures IsCeilingOf(CeilDecimal(i, f), DigitsValue(i) * Pow10(|f|) + DigitsValue(f), Pow10(|f|))
  {
    DigitsValueBound(f);
    var n: int, v: int, w: int := Pow10(|f|), DigitsValue(i), DigitsValue(f);
    if w == 0 {
      assert (v - 1) * n == v * n - n;
    } else {
      assert (v + 1) * n == v * n + n;
    }
  }
}
