/**
 * The JavaScript string built-ins the schedule extractor and the message
 * builder call, over `seq<char>`: the `\s` character class (which is also
 * the set `String.prototype.trim` removes), line terminators (what `.` refuses
 * in a regular expression without the `s` flag), ASCII digits (`\d`), `trim`,
 * `includes` and an ASCII `toLowerCase`. `IndexOf` is the leftmost search a
 * non-global `replace` performs for a literal pattern. `SplitLines` and
 * `JoinLines` are not built-ins the program calls: they are helpers for
 * reading a reply as its list of lines.
 */
module JsString {
  import opened Wrappers

  /** `\s`: WhiteSpace (tab, vertical tab, form feed, space, no-break space,
      byte order mark, the other Zs code points) and LineTerminator. */
  predicate IsJsSpace(c: char) {
    || c == '\t' || c == '\n' || c == '\U{000B}' || c == '\U{000C}' || c == '\r'
    || c == ' ' || c == '\U{00A0}' || c == '\U{1680}'
    || ('\U{2000}' <= c <= '\U{200A}')
    || c == '\U{2028}' || c == '\U{2029}' || c == '\U{202F}' || c == '\U{205F}'
    || c == '\U{3000}' || c == '\U{FEFF}'
  }

  /** LineTerminator: the code points `.` does not match. */
  predicate IsLineTerminator(c: char) {
    c == '\n' || c == '\r' || c == '\U{2028}' || c == '\U{2029}'
  }

  /** `\d` without the `u` flag: ASCII digits only. */
  predicate IsAsciiDigit(c: char) {
    '0' <= c <= '9'
  }

  predicate NotLineTerminator(c: char) {
    !IsLineTerminator(c)
  }

  predicate NotNewline(c: char) {
    c != '\n'
  }

  ghost predicate AllSpace(s: string) {
    forall i :: 0 <= i < |s| ==> IsJsSpace(s[i])
  }

  ghost predicate NoLineTerminator(s: string) {
    forall i :: 0 <= i < |s| ==> !IsLineTerminator(s[i])
  }

  /** No leading and no trailing `\s` character: what `trim` leaves. */
  ghost predicate IsTrimmed(s: string) {
    s == [] || (!IsJsSpace(s[0]) && !IsJsSpace(s[|s| - 1]))
  }

  /** `p` holds on every character of `t[from..to]` and fails at `to` (or
      `to` is the end): the stretch a greedy `x*` consumes from `from`. */
  ghost predicate MaximalRun(t: string, from: int, to: int, p: char -> bool) {
    && 0 <= from <= to <= |t|
    && (forall i :: from <= i < to ==> p(t[i]))
    && (to == |t| || !p(t[to]))
  }

  /** Where the greedy run of characters satisfying `p` that starts at `from` ends. */
  function RunEnd(t: string, from: nat, p: char -> bool): (r: nat)
    requires from <= |t|
    ensures MaximalRun(t, from, r, p)
    decreases |t| - from
  {
    if from == |t| || !p(t[from]) then from else RunEnd(t, from + 1, p)
  }

  /** A maximal run has one end only. */
  lemma MaximalRunUnique(t: string, from: int, a: int, b: int, p: char -> bool)
    requires MaximalRun(t, from, a, p) && MaximalRun(t, from, b, p)
    ensures a == b
  {
  }

  /** `trimStart`: drop the leading `\s` run. */
  function TrimStart(s: string): (r: string)
    ensures |r| <= |s| && r == s[|s| - |r|..]
    ensures AllSpace(s[..|s| - |r|])
    ensures r == [] || !IsJsSpace(r[0])
  {
    s[RunEnd(s, 0, IsJsSpace)..]
  }

  /** `trimEnd`: drop the trailing `\s` run. */
  function TrimEnd(s: string): (r: string)
    ensures |r| <= |s| && r == s[..|r|]
    ensures AllSpace(s[|r|..])
    ensures r == [] || !IsJsSpace(r[|r| - 1])
  {
    if s == [] || !IsJsSpace(s[|s| - 1]) then s
    else
      var r := TrimEnd(s[..|s| - 1]);
      assert s[..|s| - 1][..|r|] == s[..|r|];
      assert s[|r|..] == s[..|s| - 1][|r|..] + [s[|s| - 1]];
      r
  }

  /** `String.prototype.trim`: `s` is the result surrounded by `\s` runs, and
      the result neither starts nor ends with a `\s` character. */
  function Trim(s: string): (r: string)
    ensures |r| <= |s|
    ensures IsTrimmed(r)
    ensures exists a :: TrimmedAt(s, r, a)
  {
    var t := TrimStart(s);
    var r := TrimEnd(t);
    TrimmedBetween(s, t, r);
    r
  }

  /** Dropping a `\s` prefix and then a `\s` suffix leaves a slice of `s`
      surrounded by `\s` characters. */
  lemma TrimmedBetween(s: string, t: string, r: string)
    requires |t| <= |s| && t == s[|s| - |t|..] && AllSpace(s[..|s| - |t|])
    requires |r| <= |t| && r == t[..|r|] && AllSpace(t[|r|..])
    ensures TrimmedAt(s, r, |s| - |t|)
  {
    var a := |s| - |t|;
    assert s[a..][..|r|] == s[a..a + |r|];
    assert s[a + |r|..] == t[|r|..];
  }

  /** `r` sits at offset `a` of `s`, with only `\s` characters around it. */
  ghost predicate TrimmedAt(s: string, r: string, a: int) {
    && 0 <= a && a + |r| <= |s|
    && r == s[a..a + |r|]
    && AllSpace(s[..a])
    && AllSpace(s[a + |r|..])
  }

  /** Trimming keeps only characters of the input, so it cannot introduce a line terminator. */
  lemma TrimKeepsNoLineTerminator(s: string)
    requires NoLineTerminator(s)
    ensures NoLineTerminator(Trim(s))
  {
    var r := Trim(s);
    var a :| TrimmedAt(s, r, a);
    forall i | 0 <= i < |r| ensures !IsLineTerminator(r[i]) {
      assert r[i] == s[a + i];
    }
  }

  /** `trim` is idempotent. */
  lemma TrimIdempotent(s: string)
    ensures Trim(Trim(s)) == Trim(s)
  {
    var r := Trim(s);
    MaximalRunUnique(r, 0, RunEnd(r, 0, IsJsSpace), 0, IsJsSpace);
  }

  /** `indexOf`: the leftmost position at which `pat` occurs in `s`. */
  function IndexOf(s: string, pat: string): (r: Option<nat>)
    ensures r.Some? ==> OccursAt(s, pat, r.value)
    ensures forall j :: 0 <= j && (r.None? || j < r.value) ==> !OccursAt(s, pat, j)
    decreases |s|
  {
    if |s| < |pat| then None
    else if s[..|pat|] == pat then Some(0)
    else
      var r := IndexOf(s[1..], pat);
      assert forall j :: 1 <= j ==> (OccursAt(s, pat, j) <==> OccursAt(s[1..], pat, j - 1));
      match r
      case None => None
      case Some(k) => Some(k + 1)
  }

  ghost predicate OccursAt(s: string, pat: string, j: int) {
    0 <= j && j + |pat| <= |s| && s[j..j + |pat|] == pat
  }

  /** `includes`: `pat` occurs somewhere in `s`. */
  function Contains(s: string, pat: string): (b: bool)
    ensures b <==> exists j :: OccursAt(s, pat, j)
  {
    IndexOf(s, pat).Some?
  }

  /** Only a string at least as long as `pat` can contain it. */
  lemma ContainsNonEmpty(s: string, pat: string)
    requires pat != [] && Contains(s, pat)
    ensures s != []
  {
    var j :| OccursAt(s, pat, j);
  }

  function LowerAsciiChar(c: char): char {
    if 'A' <= c <= 'Z' then (c as int + 32) as char else c
  }

  /** `toLowerCase` restricted to ASCII letters. */
  function AsciiLower(s: string): (r: string)
    ensures |r| == |s|
    ensures forall i :: 0 <= i < |r| ==> !('A' <= r[i] <= 'Z')
  {
    seq(|s|, i requires 0 <= i < |s| => LowerAsciiChar(s[i]))
  }

  /** A name lower-cases to a lower-case word exactly when it spells that word
      letter by letter, each letter in either case. */
  lemma AsciiLowerEquals(s: string, w: string)
    requires forall i :: 0 <= i < |w| ==> 'a' <= w[i] <= 'z'
    ensures AsciiLower(s) == w <==>
      |s| == |w| && forall i :: 0 <= i < |s| ==> s[i] == w[i] || s[i] as int == w[i] as int - 32
  {
    if |s| == |w| && forall i :: 0 <= i < |s| ==> s[i] == w[i] || s[i] as int == w[i] as int - 32 {
      forall i | 0 <= i < |s| ensures AsciiLower(s)[i] == w[i] {
      }
    }
  }

  /** `split("\n")`: the pieces between newline characters, in order. */
  function SplitLines(s: string): (lines: seq<string>)
    ensures |lines| >= 1
    decreases |s|
  {
    var n := RunEnd(s, 0, NotNewline);
    if n == |s| then [s] else [s[..n]] + SplitLines(s[n + 1..])
  }

  /** A piece without a newline, followed by a newline, is one line of its own. */
  lemma SplitLinesCons(a: string, b: string)
    requires '\n' !in a
    ensures SplitLines(a + "\n" + b) == [a] + SplitLines(b)
    ensures SplitLines(a) == [a]
  {
    var s := a + "\n" + b;
    assert s[|a|] == '\n';
    MaximalRunUnique(s, 0, RunEnd(s, 0, NotNewline), |a|, NotNewline);
    assert s[..|a|] == a;
    assert s[|a| + 1..] == b;
    MaximalRunUnique(a, 0, RunEnd(a, 0, NotNewline), |a|, NotNewline);
  }

  /** `lines.join("\n")`. */
  function JoinLines(lines: seq<string>): string
    requires |lines| >= 1
  {
    if |lines| == 1 then lines[0] else lines[0] + "\n" + JoinLines(lines[1..])
  }

  /** Joining a line in front of at least one more. */
  lemma JoinCons(line: string, rest: seq<string>)
    requires |rest| >= 1
    ensures JoinLines([line] + rest) == line + "\n" + JoinLines(rest)
  {
    assert ([line] + rest)[1..] == rest;
  }

  /** Splitting undoes joining, as long as no line holds a newline. */
  lemma {:induction false} SplitJoinLines(lines: seq<string>)
    requires |lines| >= 1
    requires forall i :: 0 <= i < |lines| ==> '\n' !in lines[i]
    ensures SplitLines(JoinLines(lines)) == lines
  {
    if |lines| == 1 {
      SplitLinesCons(lines[0], "");
    } else {
      SplitJoinLines(lines[1..]);
      SplitLinesCons(lines[0], JoinLines(lines[1..]));
    }
  }
}
