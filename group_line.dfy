/**
 * The group-status line of the outage page, recognised as the source does
 * with `/^Група\s+(\d+\.\d+)\.?\s*(.*)/i` on a paragraph's trimmed text.
 *
 * `MatchGroupLine` is the hand-written matcher; it returns the two captures
 * exactly as the regular expression yields them (the caller trims the status).
 * `Captures` states independently, by positions in the text, what a successful
 * leftmost, greedy match captures; the lemmas below prove that the matcher
 * succeeds exactly when the pattern can match and that it then returns those
 * captures and no others.
 */
module GroupLine {
  import opened Wrappers
  import opened JsString

  /** The label as written in the pattern. */
  const GROUP_LABEL := "Група"
  /** Its lower- and upper-case spellings, letter by letter. */
  const LABEL_LOWER := "група"
  const LABEL_UPPER := "ГРУПА"

  /** `^Група` under the `i` flag: each of the five letters matches its lower-
      or upper-case form (no other code point upper-cases to Г, Р, У, П or А). */
  predicate LabelMatches(t: string) {
    |t| >= |GROUP_LABEL| &&
    forall k :: 0 <= k < |GROUP_LABEL| ==> t[k] == LABEL_LOWER[k] || t[k] == LABEL_UPPER[k]
  }

  /** A group id as the capture `\d+\.\d+` produces it: digits, a dot, digits. */
  ghost predicate IsGroupId(g: string) {
    exists k :: DotAt(g, k)
  }

  ghost predicate DotAt(g: string, k: int) {
    && 0 < k < |g| - 1
    && g[k] == '.'
    && forall i :: 0 <= i < |g| && i != k ==> IsAsciiDigit(g[i])
  }

  /** After the label: a `\s` run up to `w`, digits up to `d1`, the dot at
      `d1`, digits up to `d2` -- the part of the pattern that can fail. */
  ghost predicate ShapeAt(t: string, w: int, d1: int, d2: int) {
    && |GROUP_LABEL| < w < d1 && d1 + 1 < d2 <= |t|
    && (forall i :: |GROUP_LABEL| <= i < w ==> IsJsSpace(t[i]))
    && (forall i :: w <= i < d1 ==> IsAsciiDigit(t[i]))
    && t[d1] == '.'
    && (forall i :: d1 + 1 <= i < d2 ==> IsAsciiDigit(t[i]))
  }

  /** The pattern matches `t` (its tail `\.?\s*(.*)` can always match empty). */
  ghost predicate StartsGroupLine(t: string) {
    LabelMatches(t) && exists w, d1, d2 :: ShapeAt(t, w, d1, d2)
  }

  /** Where `\.?` leaves off after the group id ending at `d2`. */
  function AfterDot(t: string, d2: nat): (q: nat)
    requires d2 <= |t|
  {
    if d2 < |t| && t[d2] == '.' then d2 + 1 else d2
  }

  /** The captures of the leftmost, greedy match: the second `\d+` stops at a
      non-digit `d2`, `\.?` takes a dot when there is one, `\s*` runs on to `p`,
      and `(.*)` runs from `p` to the first line terminator or the end, `e`. */
  ghost predicate CapturesAt(t: string, group: string, status: string, w: int, d1: int, d2: int, p: int, e: int) {
    && LabelMatches(t)
    && ShapeAt(t, w, d1, d2)
    && MaximalRun(t, d1 + 1, d2, IsAsciiDigit)
    && group == t[w..d2]
    && MaximalRun(t, AfterDot(t, d2), p, IsJsSpace)
    && MaximalRun(t, p, e, NotLineTerminator)
    && status == t[p..e]
  }

  ghost predicate Captures(t: string, group: string, status: string) {
    exists w, d1, d2, p, e :: CapturesAt(t, group, status, w, d1, d2, p, e)
  }

  /** `text.match(/^Група\s+(\d+\.\d+)\.?\s*(.*)/i)`, giving the group and
      status captures when it matches. */
  function MatchGroupLine(t: string): (m: Option<(string, string)>)
    ensures m.Some? ==> Captures(t, m.value.0, m.value.1)
    ensures m.Some? ==> IsGroupId(m.value.0) && NoLineTerminator(m.value.1)
  {
    if !LabelMatches(t) then None
    else
      var w := RunEnd(t, |GROUP_LABEL|, IsJsSpace);
      if w == |GROUP_LABEL| then None
      else
        var d1 := RunEnd(t, w, IsAsciiDigit);
        if d1 == w || d1 == |t| || t[d1] != '.' then None
        else
          var d2 := RunEnd(t, d1 + 1, IsAsciiDigit);
          if d2 == d1 + 1 then None
          else
            var p := RunEnd(t, AfterDot(t, d2), IsJsSpace);
            var e := RunEnd(t, p, NotLineTerminator);
            FoundCaptures(t, w, d1, d2, p, e);
            Some((t[w..d2], t[p..e]))
  }

  /** The runs the matcher walks make up the captures of the pattern. */
  lemma FoundCaptures(t: string, w: int, d1: int, d2: int, p: int, e: int)
    requires LabelMatches(t)
    requires MaximalRun(t, |GROUP_LABEL|, w, IsJsSpace) && w > |GROUP_LABEL|
    requires MaximalRun(t, w, d1, IsAsciiDigit) && d1 > w && d1 < |t| && t[d1] == '.'
    requires MaximalRun(t, d1 + 1, d2, IsAsciiDigit) && d2 > d1 + 1
    requires MaximalRun(t, AfterDot(t, d2), p, IsJsSpace)
    requires MaximalRun(t, p, e, NotLineTerminator)
    ensures CapturesAt(t, t[w..d2], t[p..e], w, d1, d2, p, e)
    ensures IsGroupId(t[w..d2]) && NoLineTerminator(t[p..e])
  {
    assert DotAt(t[w..d2], d1 - w);
  }

  /** Whenever the pattern can match, the matcher finds the match. */
  lemma MatchGroupLineComplete(t: string)
    requires StartsGroupLine(t)
    ensures MatchGroupLine(t).Some?
  {
    var w, d1, d2 :| ShapeAt(t, w, d1, d2);
    ShapeRuns(t, w, d1, d2);
    MaximalRunUnique(t, |GROUP_LABEL|, RunEnd(t, |GROUP_LABEL|, IsJsSpace), w, IsJsSpace);
    MaximalRunUnique(t, w, RunEnd(t, w, IsAsciiDigit), d1, IsAsciiDigit);
    assert IsAsciiDigit(t[d1 + 1]);
  }

  /** The captures of a match are determined by the text. */
  lemma CapturesUnique(t: string, g1: string, s1: string, g2: string, s2: string)
    requires Captures(t, g1, s1) && Captures(t, g2, s2)
    ensures g1 == g2 && s1 == s2
  {
    var w, d1, d2, p, e :| CapturesAt(t, g1, s1, w, d1, d2, p, e);
    var w', d1', d2', p', e' :| CapturesAt(t, g2, s2, w', d1', d2', p', e');
    ShapeRuns(t, w, d1, d2);
    ShapeRuns(t, w', d1', d2');
    MaximalRunUnique(t, |GROUP_LABEL|, w, w', IsJsSpace);
    MaximalRunUnique(t, w, d1, d1', IsAsciiDigit);
    MaximalRunUnique(t, d1 + 1, d2, d2', IsAsciiDigit);
    MaximalRunUnique(t, AfterDot(t, d2), p, p', IsJsSpace);
    MaximalRunUnique(t, p, e, e', NotLineTerminator);
  }

  /** The space run and the first digit run of a shape are both greedy. */
  lemma ShapeRuns(t: string, w: int, d1: int, d2: int)
    requires ShapeAt(t, w, d1, d2)
    ensures MaximalRun(t, |GROUP_LABEL|, w, IsJsSpace)
    ensures MaximalRun(t, w, d1, IsAsciiDigit)
  {
    assert IsAsciiDigit(t[w]);
  }

  /** The matcher succeeds exactly on the lines the pattern matches. */
  lemma MatchGroupLineIff(t: string)
    ensures MatchGroupLine(t).Some? <==> StartsGroupLine(t)
  {
    if MatchGroupLine(t).Some? {
      var m := MatchGroupLine(t).value;
      var w, d1, d2, p, e :| CapturesAt(t, m.0, m.1, w, d1, d2, p, e);
      assert ShapeAt(t, w, d1, d2);
    } else if StartsGroupLine(t) {
      MatchGroupLineComplete(t);
    }
  }

  /** The matcher returns exactly the captures of the pattern's match. */
  lemma MatchGroupLineExact(t: string, group: string, status: string)
    ensures MatchGroupLine(t) == Some((group, status)) <==> Captures(t, group, status)
  {
    if Captures(t, group, status) {
      var w, d1, d2, p, e :| CapturesAt(t, group, status, w, d1, d2, p, e);
      assert ShapeAt(t, w, d1, d2);
      MatchGroupLineComplete(t);
      var m := MatchGroupLine(t).value;
      CapturesUnique(t, m.0, m.1, group, status);
    }
  }
}
