/**
 * The two target scanners of lib/handle-relative-links.js, written out as
 * the regex engine runs them (leftmost match, lazy and greedy quantifiers,
 * `.` refusing line terminators, a global scan resuming after each match):
 *
 *  - `linkReg`: a `(target)` right after a `[label]` on the same line, whose
 *    target does not begin with `http` or with one of `= > ( ) <`, and which
 *    runs lazily to the first `)`;
 *  - `imgReg`: `<img`, lazily up to the first `src="` after which the rest of
 *    the tag can match, then greedily up to the LAST `"` on the line that is
 *    followed by `>` or `/>`.
 */
module Scan {
  import opened Strings

  // ---------------------------------------------------------------- links

  /**
   * A `[` lies before index `e` on the same line, with everything from just
   * after it up to and including `e` matchable by `.`: the lookbehind's
   * `\[.+?` when the label's last character is at `e`.
   */
  predicate BracketOpens(s: string, e: nat)
    requires e < |s|
    decreases e
  {
    !IsLineTerminator(s[e]) && e > 0 && (s[e - 1] == '[' || BracketOpens(s, e - 1))
  }

  /** The lookbehind `(?<=!{0,1}\[.+?\])` holds at index `i`. */
  predicate LabelBefore(s: string, i: nat)
    requires i <= |s|
  {
    i >= 3 && s[i - 1] == ']' && BracketOpens(s, i - 2)
  }

  /** A character the target may not begin with: `(?![=>()<])`. */
  predicate IsRefusedFirst(c: char) {
    c == '=' || c == '>' || c == '(' || c == ')' || c == '<'
  }

  /** The first `)` at or after `j` before the line ends, or -1: where the lazy `.+?\)` stops. */
  function CloseParen(s: string, j: nat): (k: int)
    requires j <= |s|
    decreases |s| - j
    ensures k == -1 || (j <= k < |s| && s[k] == ')')
    ensures k >= 0 ==> forall m :: j <= m < k ==> s[m] != ')' && !IsLineTerminator(s[m])
  {
    if j == |s| then -1
    else if s[j] == ')' then j
    else if IsLineTerminator(s[j]) then -1
    else CloseParen(s, j + 1)
  }

  /** What every collected link target is. */
  ghost predicate LinkTarget(t: string) {
    && |t| >= 1
    && OneLine(t)
    && ')' !in t
    && !IsRefusedFirst(t[0])
    && !StartsWith(t, "http")
  }

  /** The `)` closing a link target whose `(` is at `i`, or -1 when no match starts at `i`. */
  function LinkCloseAt(s: string, i: nat): (k: int)
    requires i < |s|
    ensures k == -1 || (i + 2 <= k < |s| && s[k] == ')' && LinkTarget(s[i + 1..k]))
  {
    if s[i] == '(' && LabelBefore(s, i) && i + 1 < |s| && !IsLineTerminator(s[i + 1])
       && !IsRefusedFirst(s[i + 1]) && !StartsWith(s[i + 1..], "http")
    then
      var k := CloseParen(s, i + 2);
      if k < 0 then -1
      else
        assert s[i + 1..k][0] == s[i + 1];
        assert s[i + 1..k] <= s[i + 1..];
        k
    else -1
  }

  function LinksFrom(s: string, i: nat): (ts: seq<string>)
    requires i <= |s|
    decreases |s| - i
    ensures forall k :: 0 <= k < |ts| ==> LinkTarget(ts[k])
  {
    if i == |s| then []
    else
      var k := LinkCloseAt(s, i);
      if k >= 0 then [s[i + 1..k]] + LinksFrom(s, k + 1) else LinksFrom(s, i + 1)
  }

  /**
   * `Array.from(str.matchAll(linkReg), m => m[1])`.  No target begins with
   * `http`, so external links are never collected.
   */
  function ScanLinks(s: string): (ts: seq<string>)
    ensures forall k :: 0 <= k < |ts| ==> LinkTarget(ts[k])
    ensures forall k :: 0 <= k < |ts| ==> !StartsWith(ts[k], "http")
  {
    LinksFrom(s, 0)
  }

  lemma {:induction false} NoParenNoLinksFrom(s: string, i: nat)
    requires i <= |s|
    requires '(' !in s
    decreases |s| - i
    ensures LinksFrom(s, i) == []
  {
    if i < |s| {
      NoParenNoLinksFrom(s, i + 1);
    }
  }

  /** Text without `(` has no link targets. */
  lemma NoParenNoLinks(s: string)
    requires '(' !in s
    ensures ScanLinks(s) == []
  {
    NoParenNoLinksFrom(s, 0);
  }

  /** A label character run after `[` satisfies the lookbehind at its last character. */
  lemma {:induction false} LabelOpens(s: string, lbl: string, e: nat)
    requires |lbl| >= 1 && OneLine(lbl)
    requires |s| > |lbl| && s[0] == '[' && s[1..|lbl| + 1] == lbl
    requires 1 <= e <= |lbl|
    decreases e
    ensures BracketOpens(s, e)
  {
    assert s[e] == lbl[e - 1];
    if e > 1 {
      LabelOpens(s, lbl, e - 1);
    }
  }

  lemma {:induction false} LinksFromSkips(s: string, i: nat, j: nat)
    requires i <= j <= |s|
    requires forall m :: i <= m < j ==> s[m] != '('
    decreases j - i
    ensures LinksFrom(s, i) == LinksFrom(s, j)
  {
    if i < j {
      LinksFromSkips(s, i + 1, j);
    }
  }

  /**
   * Round trip: writing a valid target as `[label](target)` and scanning it
   * back yields exactly that target.
   */
  lemma LinkRoundTrip(lbl: string, t: string)
    requires |lbl| >= 1 && OneLine(lbl) && '(' !in lbl
    requires LinkTarget(t)
    ensures ScanLinks("[" + lbl + "](" + t + ")") == [t]
  {
    var s := "[" + lbl + "](" + t + ")";
    var i := |lbl| + 2;
    assert s[1..|lbl| + 1] == lbl;
    assert s[i - 1] == ']' && s[i] == '(';
    LabelOpens(s, lbl, |lbl|);
    assert s[i + 1..] == t + ")";
    NoHttpWithParen(t);
    forall m | i + 2 <= m < |s| - 1
      ensures s[m] != ')' && !IsLineTerminator(s[m])
    {
      assert s[m] == t[m - i - 1];
    }
    CloseParenReaches(s, i + 2, |s| - 1);
    assert s[i + 1..|s| - 1] == t;
    forall m | 0 <= m < i
      ensures s[m] != '('
    {
      if 1 <= m <= |lbl| {
        assert s[m] == lbl[m - 1];
      }
    }
    LinksFromSkips(s, 0, i);
  }

  lemma NoHttpWithParen(t: string)
    requires !StartsWith(t, "http")
    ensures !StartsWith(t + ")", "http")
  {
    if |t| >= 4 {
      assert (t + ")")[..4] == t[..4];
    } else {
      assert (t + ")")[|t|] == ')';
    }
  }

  lemma {:induction false} CloseParenReaches(s: string, j: nat, k: nat)
    requires j <= k < |s| && s[k] == ')'
    requires forall m :: j <= m < k ==> s[m] != ')' && !IsLineTerminator(s[m])
    decreases k - j
    ensures CloseParen(s, j) == k
  {
    if j < k {
      CloseParenReaches(s, j + 1, k);
    }
  }

  // --------------------------------------------------------------- images

  /** A `"` at `e` followed by `>` or `/>`: where `"[/]?>` can match. */
  predicate CloseQuoteAt(s: string, e: nat) {
    e + 1 < |s| && s[e] == '"' && (s[e + 1] == '>' || (s[e + 1] == '/' && e + 2 < |s| && s[e + 2] == '>'))
  }

  /** The largest `e` in `[lo, hi)` where the tag can close, or -1. */
  function LastCloseQuote(s: string, lo: nat, hi: nat): (e: int)
    decreases hi
    ensures e == -1 || (lo <= e < hi && CloseQuoteAt(s, e))
    ensures forall m :: lo <= m < hi && (e == -1 || e < m) ==> !CloseQuoteAt(s, m)
  {
    if hi <= lo then -1
    else if CloseQuoteAt(s, hi - 1) then hi - 1
    else LastCloseQuote(s, lo, hi - 1)
  }

  /** The end of the greedy group `(.+)` that starts at `g`, or -1 when the tag cannot close. */
  function GreedyClose(s: string, g: nat): (e: int)
    requires g <= |s|
    ensures e == -1 || (g + 1 <= e && CloseQuoteAt(s, e) && forall m :: g <= m < e ==> !IsLineTerminator(s[m]))
  {
    LastCloseQuote(s, g + 1, LineEnd(s, g))
  }

  /** The first `src="` at or after `p` after which the tag can close, with `.+?` consuming `s[p-1]`. */
  function SrcFrom(s: string, p: nat): (r: int)
    requires 1 <= p <= |s|
    decreases |s| - p
    ensures r == -1 || (p <= r && r + 5 <= |s| && s[r..r + 5] == "src=\"" && GreedyClose(s, r + 5) >= 0)
  {
    if IsLineTerminator(s[p - 1]) then -1
    else if p + 5 <= |s| && s[p..p + 5] == "src=\"" && GreedyClose(s, p + 5) >= 0 then p
    else if p == |s| then -1
    else SrcFrom(s, p + 1)
  }

  /** What every collected image target is. */
  ghost predicate ImgTarget(t: string) {
    |t| >= 1 && OneLine(t)
  }

  lemma OneLineSlice(s: string, a: nat, b: nat)
    requires a <= b <= |s|
    requires forall m :: a <= m < b ==> !IsLineTerminator(s[m])
    ensures OneLine(s[a..b])
  {
    forall j | 0 <= j < b - a
      ensures !IsLineTerminator(s[a..b][j])
    {
      assert s[a..b][j] == s[a + j];
    }
  }

  datatype ImgMatch = NoImg | Img(target: string, next: nat)

  /** The `imgReg` match starting at `i`: its captured `src` and the index the scan resumes at. */
  function ImgAt(s: string, i: nat): (m: ImgMatch)
    requires i < |s|
    ensures m.Img? ==> i < m.next <= |s| && ImgTarget(m.target)
  {
    if i + 5 <= |s| && s[i..i + 4] == "<img" then
      var p := SrcFrom(s, i + 5);
      if p < 0 then NoImg
      else
        var e := GreedyClose(s, p + 5);
        OneLineSlice(s, p + 5, e);
        Img(s[p + 5..e], if s[e + 1] == '>' then e + 2 else e + 3)
    else NoImg
  }

  function ImgsFrom(s: string, i: nat): (ts: seq<string>)
    requires i <= |s|
    decreases |s| - i
    ensures forall k :: 0 <= k < |ts| ==> ImgTarget(ts[k])
  {
    if i == |s| then []
    else
      match ImgAt(s, i)
      case Img(t, next) => [t] + ImgsFrom(s, next)
      case NoImg => ImgsFrom(s, i + 1)
  }

  /** `Array.from(str.matchAll(imgReg), m => m[1])`: unlike `linkReg`, it does collect `http` sources. */
  function ScanImgs(s: string): (ts: seq<string>)
    ensures forall k :: 0 <= k < |ts| ==> ImgTarget(ts[k])
  {
    ImgsFrom(s, 0)
  }

  lemma {:induction false} NoAngleNoImgsFrom(s: string, i: nat)
    requires i <= |s|
    requires '<' !in s
    decreases |s| - i
    ensures ImgsFrom(s, i) == []
  {
    if i < |s| {
      if i + 5 <= |s| {
        assert s[i..i + 4][0] == s[i];
      }
      NoAngleNoImgsFrom(s, i + 1);
    }
  }

  /** Text without `<` has no image targets. */
  lemma NoAngleNoImgs(s: string)
    requires '<' !in s
    ensures ScanImgs(s) == []
  {
    NoAngleNoImgsFrom(s, 0);
  }

  /**
   * Round trip: any one-line, non-empty source written as
   * `<img src="source">` is scanned back whole, even if it contains `"` or
   * `">`, because the group is greedy.
   */
  lemma ImgRoundTrip(t: string)
    requires ImgTarget(t)
    ensures ScanImgs("<img src=\"" + t + "\">") == [t]
  {
    var s := "<img src=\"" + t + "\">";
    assert s[..4] == "<img";
    assert s[5..10] == "src=\"";
    assert s[4] == ' ';
    forall m | 10 <= m < |s|
      ensures !IsLineTerminator(s[m])
    {
      if m < |s| - 2 {
        assert s[m] == t[m - 10];
      }
    }
    LineEndAtEnd(s, 10);
    assert CloseQuoteAt(s, |s| - 2);
    assert !CloseQuoteAt(s, |s| - 1);
    assert GreedyClose(s, 10) == |s| - 2;
    assert SrcFrom(s, 5) == 5;
    assert s[10..|s| - 2] == t;
    assert ImgAt(s, 0) == Img(t, |s|);
    assert ImgsFrom(s, |s|) == [];
    assert ImgsFrom(s, 0) == [t] + ImgsFrom(s, |s|);
  }

  /** Everything the rewriter collects from a page: the link targets, then the image sources. */
  function CollectTargets(s: string): (ts: seq<string>)
    ensures |ts| == |ScanLinks(s)| + |ScanImgs(s)|
    ensures forall k :: 0 <= k < |ts| ==> |ts[k]| >= 1
  {
    ScanLinks(s) + ScanImgs(s)
  }
}
