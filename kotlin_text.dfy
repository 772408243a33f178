/** The pieces of Kotlin's string library that the repository relies on:
    `Char.isWhitespace`, `String?.isNullOrBlank` and `String.trim`. */
module KotlinText {

  /** Kotlin's `Char.isWhitespace()`: Java's `Character.isWhitespace` (the
      ASCII controls TAB..CR and FS..US, and the Unicode space, line and
      paragraph separators other than the no-break ones) together with
      `Character.isSpaceChar` (which adds the three no-break spaces). */
  predicate IsWhitespace(c: char) {
    || '\U{0009}' <= c <= '\U{000D}'
    || '\U{001C}' <= c <= '\U{0020}'
    || c == '\U{00A0}' || c == '\U{1680}'
    || '\U{2000}' <= c <= '\U{200A}'
    || c == '\U{2028}' || c == '\U{2029}' || c == '\U{202F}' || c == '\U{205F}'
    || c == '\U{3000}'
  }

  /** `isBlank()`: empty, or whitespace only. */
  predicate IsBlank(s: string) {
    forall i | 0 <= i < |s| :: IsWhitespace(s[i])
  }

  /** Where a forward scan from `from` stops: the first position that does
      not hold whitespace, or the end. */
  function SkipBlanks(s: string, from: nat): (k: nat)
    requires from <= |s|
    ensures from <= k <= |s|
    ensures forall j | from <= j < k :: IsWhitespace(s[j])
    ensures k == |s| || !IsWhitespace(s[k])
    decreases |s| - from
  {
    if from < |s| && IsWhitespace(s[from]) then SkipBlanks(s, from + 1) else from
  }

  /** Where a backward scan from `to` down to `lo` stops: just past the last
      position before `to` that does not hold whitespace, or `lo`. */
  function SkipBlanksBack(s: string, lo: nat, to: nat): (k: nat)
    requires lo <= to <= |s|
    ensures lo <= k <= to
    ensures forall j | k <= j < to :: IsWhitespace(s[j])
    ensures k == lo || !IsWhitespace(s[k - 1])
  {
    if lo < to && IsWhitespace(s[to - 1]) then SkipBlanksBack(s, lo, to - 1) else to
  }

  /** `trim()`: the text between the leading and the trailing whitespace,
      found by scanning in from both ends; the backward scan never passes
      the forward one. It leaves nothing exactly when `s` is blank. */
  function Trim(s: string): (r: string)
    ensures |r| <= |s|
    ensures r == [] <==> IsBlank(s)
    ensures r == [] || (!IsWhitespace(r[0]) && !IsWhitespace(r[|r| - 1]))
  {
    var start := SkipBlanks(s, 0);
    var end := SkipBlanksBack(s, start, |s|);
    assert start < |s| ==> start < end;
    s[start..end]
  }

  /** Where `Trim` cut: `s` is blank text, then `Trim(s)`, then blank text;
      the cut at the front is where the forward scan stopped. */
  lemma {:induction false} TrimIsInfix(s: string)
    ensures var i, r := SkipBlanks(s, 0), Trim(s);
      && i + |r| <= |s|
      && s[i..i + |r|] == r
      && IsBlank(s[..i]) && IsBlank(s[i + |r|..])
  {
    var i := SkipBlanks(s, 0);
    var end := SkipBlanksBack(s, i, |s|);
    assert Trim(s) == s[i..end];
    assert forall j | 0 <= j < |s[end..]| :: s[end..][j] == s[end + j];
  }
}
