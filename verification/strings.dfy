/**
 * String primitives with the meaning the JavaScript built-ins give them:
 * `indexOf`/`includes`, `startsWith`/`endsWith`, `replace` with a string
 * pattern (first occurrence only), `replace` with a global literal regex,
 * `split('/').pop()`, `Array.prototype.join`, and the character classes
 * `\s` and "line terminator" that `.` refuses to match.
 */
module Strings {

  /** `p` occurs in `s` starting at index `i`. */
  ghost predicate OccursAt(s: string, p: string, i: int) {
    0 <= i && i + |p| <= |s| && s[i..i + |p|] == p
  }

  /** The first occurrence of `p` in `s` at or after `i`, or -1. */
  function IndexFrom(s: string, p: string, i: nat): (r: int)
    requires i <= |s|
    decreases |s| - i
    ensures r == -1 || (i <= r && OccursAt(s, p, r))
    ensures r == -1 ==> forall j :: i <= j ==> !OccursAt(s, p, j)
    ensures r >= 0 ==> forall j :: i <= j < r ==> !OccursAt(s, p, j)
  {
    if i + |p| > |s| then -1
    else if s[i..i + |p|] == p then i
    else IndexFrom(s, p, i + 1)
  }

  /** `s.indexOf(p)`: the first index of `p` in `s`, or -1; 0 for the empty pattern. */
  function IndexOf(s: string, p: string): int {
    IndexFrom(s, p, 0)
  }

  /** `s.includes(p)`. */
  predicate Contains(s: string, p: string)
    ensures Contains(s, p) <==> exists i :: OccursAt(s, p, i)
  {
    IndexOf(s, p) >= 0
  }

  /** Concatenation regroups freely. */
  lemma ConcatAssoc(a: string, b: string, c: string)
    ensures a + (b + c) == (a + b) + c
  {
  }

  /** A slice with one character taken off the front, then that character put back. */
  lemma ConsSlice(s: string, i: nat, k: nat, t: string)
    requires i < k <= |s|
    ensures [s[i]] + (s[i + 1..k] + t) == s[i..k] + t
  {
    assert s[i..k] == [s[i]] + s[i + 1..k];
  }

  /** A suffix is the slice up to any later point followed by the rest. */
  lemma SplitAt(s: string, i: nat, j: nat)
    requires i <= j <= |s|
    ensures s[i..] == s[i..j] + s[j..]
  {
  }

  /** Whatever is put in front of a text, the text's suffix is still a suffix. */
  lemma EndsWithAfter(a: string, b: string, u: string)
    requires EndsWith(b, u)
    ensures EndsWith(a + b, u)
  {
    assert (a + b)[|a + b| - |u|..] == b[|b| - |u|..];
  }

  /** The head and tail of a concatenation whose first part is not empty. */
  lemma ConcatTail(x: string, y: string)
    requires x != []
    ensures (x + y)[0] == x[0] && (x + y)[1..] == x[1..] + y
  {
  }

  /** Two adjacent slices make one. */
  lemma SliceConcat(s: string, a: nat, b: nat, c: nat)
    requires a <= b <= c <= |s|
    ensures s[a..b] + s[b..c] == s[a..c]
  {
  }

  /** A slice within the first part of a concatenation is a slice of that part. */
  lemma SliceOfFirst(x: string, y: string, i: nat, j: nat)
    requires i <= j <= |x|
    ensures (x + y)[i..j] == x[i..j]
  {
  }

  /** What is appended occurs where it was appended. */
  lemma OccursAppended(x: string, p: string)
    ensures OccursAt(x + p, p, |x|)
  {
    assert (x + p)[|x|..] == p;
    assert (x + p)[|x|..|x| + |p|] == (x + p)[|x|..];
  }

  lemma ContainsAt(s: string, p: string, i: int)
    requires OccursAt(s, p, i)
    ensures Contains(s, p)
  {
  }

  /** Occurrences in the tail of `s` are occurrences in `s`, shifted by one, and conversely away from index 0. */
  lemma ContainsTail(s: string, p: string)
    requires |s| >= 1
    ensures Contains(s[1..], p) ==> Contains(s, p)
    ensures Contains(s, p) && !OccursAt(s, p, 0) ==> Contains(s[1..], p)
  {
    if Contains(s[1..], p) {
      var i :| OccursAt(s[1..], p, i);
      assert s[i + 1..i + 1 + |p|] == s[1..][i..i + |p|];
      assert OccursAt(s, p, i + 1);
    }
    if Contains(s, p) && !OccursAt(s, p, 0) {
      var i :| OccursAt(s, p, i);
      assert s[1..][i - 1..i - 1 + |p|] == s[i..i + |p|];
      assert OccursAt(s[1..], p, i - 1);
    }
  }

  /** A pattern whose first character never appears in `s` does not occur in it. */
  lemma AbsentFirstChar(s: string, p: string)
    requires p != [] && p[0] !in s
    ensures !Contains(s, p)
  {
  }

  /** `s.startsWith(p)`. */
  predicate StartsWith(s: string, p: string) {
    p <= s
  }

  /** `s.endsWith(p)`. */
  predicate EndsWith(s: string, p: string) {
    |p| <= |s| && s[|s| - |p|..] == p
  }

  /**
   * `s.replace(p, r)` with a string (or a non-global, metacharacter-free
   * regex) pattern: only the first occurrence is replaced.  The result equals
   * the input exactly when there was nothing to replace or `r` is `p`.
   */
  function ReplaceFirst(s: string, p: string, r: string): (t: string)
    ensures !Contains(s, p) ==> t == s
    ensures Contains(s, p) ==> |t| == |s| - |p| + |r|
    ensures t == s <==> !Contains(s, p) || r == p
  {
    var k := IndexOf(s, p);
    if k < 0 then s
    else
      var t := s[..k] + r + s[k + |p|..];
      assert t == s ==> r == p by {
        if t == s {
          assert |r| == |p|;
          assert t[k..k + |r|] == r;
          assert s[k..k + |p|] == p;
        }
      }
      t
  }

  /** `p` occurs in `s` at `i` and nowhere before. */
  ghost predicate FirstAt(s: string, p: string, i: int) {
    OccursAt(s, p, i) && forall j :: 0 <= j < i ==> !OccursAt(s, p, j)
  }

  /** The first occurrence, stated by position, is the one `replace` rewrites. */
  lemma ReplaceFirstAt(s: string, p: string, r: string, k: nat)
    requires FirstAt(s, p, k)
    ensures ReplaceFirst(s, p, r) == s[..k] + r + s[k + |p|..]
  {
    assert IndexOf(s, p) == k;
  }

  /** Every first occurrence is the one `replace` rewrites. */
  lemma ReplaceFirstEvery(s: string, p: string, r: string)
    ensures forall i :: FirstAt(s, p, i) ==> ReplaceFirst(s, p, r) == s[..i] + r + s[i + |p|..]
  {
    forall i | FirstAt(s, p, i)
      ensures ReplaceFirst(s, p, r) == s[..i] + r + s[i + |p|..]
    {
      ReplaceFirstAt(s, p, r, i);
    }
  }

  /**
   * `s.replace(/p/g, r)` for a literal, non-empty pattern: every occurrence,
   * scanning left to right and resuming after each replaced occurrence.
   */
  function ReplaceEvery(s: string, p: string, r: string): (t: string)
    requires |p| > 0
    decreases |s|
    ensures !Contains(s, p) ==> t == s
  {
    if |s| < |p| then s
    else if s[..|p|] == p then r + ReplaceEvery(s[|p|..], p, r)
    else
      assert !Contains(s, p) ==> !Contains(s[1..], p) by {
        if Contains(s[1..], p) {
          var i :| OccursAt(s[1..], p, i);
          assert s[i + 1..i + 1 + |p|] == s[1..][i..i + |p|];
          assert OccursAt(s, p, i + 1);
        }
      }
      [s[0]] + ReplaceEvery(s[1..], p, r)
  }

  /** When `p` does not start `s`, it occurs in `s` exactly when it occurs after the first character. */
  lemma ContainsPastHead(s: string, p: string)
    requires |p| > 0 && |s| >= |p| && s[..|p|] != p
    ensures Contains(s, p) <==> Contains(s[1..], p)
  {
    if Contains(s, p) {
      var i :| OccursAt(s, p, i);
      assert i != 0;
      assert s[1..][i - 1..i - 1 + |p|] == s[i..i + |p|];
      assert OccursAt(s[1..], p, i - 1);
    }
    if Contains(s[1..], p) {
      var i :| OccursAt(s[1..], p, i);
      assert s[i + 1..i + 1 + |p|] == s[1..][i..i + |p|];
      assert OccursAt(s, p, i + 1);
    }
  }

  /** Deleting every occurrence never lengthens, and shortens exactly when `p` occurs. */
  lemma {:induction false} RemoveEveryShortens(s: string, p: string)
    requires |p| > 0
    decreases |s|
    ensures |ReplaceEvery(s, p, "")| <= |s|
    ensures Contains(s, p) <==> |ReplaceEvery(s, p, "")| < |s|
  {
    if |s| < |p| {
    } else if s[..|p|] == p {
      RemoveEveryShortens(s[|p|..], p);
      assert OccursAt(s, p, 0);
    } else {
      RemoveEveryShortens(s[1..], p);
      assert ReplaceEvery(s, p, "") == [s[0]] + ReplaceEvery(s[1..], p, "");
      ContainsPastHead(s, p);
    }
  }

  /** JavaScript's `\s` class (ECMAScript WhiteSpace and LineTerminator). */
  predicate IsSpace(c: char) {
    c == ' ' || c == '\t' || c == '\n' || c == '\r' || c == '\U{000B}' || c == '\U{000C}'
    || c == '\U{00A0}' || c == '\U{1680}' || ('\U{2000}' <= c <= '\U{200A}')
    || c == '\U{2028}' || c == '\U{2029}' || c == '\U{202F}' || c == '\U{205F}'
    || c == '\U{3000}' || c == '\U{FEFF}'
  }

  /** The characters a regex `.` does not match. */
  predicate IsLineTerminator(c: char) {
    c == '\n' || c == '\r' || c == '\U{2028}' || c == '\U{2029}'
  }

  /** No character of `s` is a line terminator. */
  ghost predicate OneLine(s: string) {
    forall j :: 0 <= j < |s| ==> !IsLineTerminator(s[j])
  }

  /** The index of the first line terminator at or after `i`, or `|s|`: where a greedy `.+` stops. */
  function LineEnd(s: string, i: nat): (r: nat)
    requires i <= |s|
    decreases |s| - i
    ensures i <= r <= |s|
    ensures forall j :: i <= j < r ==> !IsLineTerminator(s[j])
    ensures r < |s| ==> IsLineTerminator(s[r])
  {
    if i == |s| || IsLineTerminator(s[i]) then i else LineEnd(s, i + 1)
  }

  /** A line with no terminator after `i` runs to the end of `s`. */
  lemma {:induction false} LineEndAtEnd(s: string, i: nat)
    requires i <= |s|
    requires forall m :: i <= m < |s| ==> !IsLineTerminator(s[m])
    decreases |s| - i
    ensures LineEnd(s, i) == |s|
  {
    if i < |s| {
      LineEndAtEnd(s, i + 1);
    }
  }

  /**
   * The first `c` at or after `i` that has a non-terminator after it, or -1:
   * where the regex `c.+` starts to match.
   */
  function RunStart(n: string, c: char, i: nat): (j: int)
    requires i <= |n|
    decreases |n| - i
    ensures j == -1 || (i <= j && j + 1 < |n| && n[j] == c && !IsLineTerminator(n[j + 1]))
    ensures forall m :: i <= m < (if j == -1 then |n| else j) && m + 1 < |n| ==> !(n[m] == c && !IsLineTerminator(n[m + 1]))
  {
    if i + 1 >= |n| then -1
    else if n[i] == c && !IsLineTerminator(n[i + 1]) then i
    else RunStart(n, c, i + 1)
  }

  lemma {:induction false} RunStartNone(n: string, c: char, i: nat)
    requires i <= |n| && c !in n
    decreases |n| - i
    ensures RunStart(n, c, i) == -1
  {
    if i + 1 < |n| {
      RunStartNone(n, c, i + 1);
    }
  }

  lemma {:induction false} RunStartReaches(n: string, c: char, i: nat, j: nat)
    requires i <= j && j + 1 < |n| && n[j] == c && !IsLineTerminator(n[j + 1])
    requires forall m :: i <= m < j ==> n[m] != c
    decreases j - i
    ensures RunStart(n, c, i) == j
  {
    if i < j {
      RunStartReaches(n, c, i + 1, j);
    }
  }

  /**
   * `s.split('/').pop()`: the text after the last `/`, or all of `s` when it
   * has none.
   */
  function LastSegment(s: string): (r: string)
    ensures EndsWith(s, r)
    ensures '/' !in r
    ensures |r| < |s| ==> s[|s| - |r| - 1] == '/'
  {
    if s == [] then []
    else if s[|s| - 1] == '/' then []
    else
      var r := LastSegment(s[..|s| - 1]);
      assert s[..|s| - 1][|s| - 1 - |r|..] == s[|s| - 1 - |r|..|s| - 1];
      r + [s[|s| - 1]]
  }

  /** A `/`-free suffix ends the last segment exactly when it ends the path. */
  lemma LastSegmentSuffix(s: string, u: string)
    requires '/' !in u
    ensures EndsWith(LastSegment(s), u) <==> EndsWith(s, u)
  {
    var last := LastSegment(s);
    if EndsWith(s, u) {
      assert last[|last| - |u|..] == s[|s| - |u|..];
    }
    if EndsWith(last, u) {
      assert s[|s| - |u|..] == last[|last| - |u|..];
    }
  }

  /** The last segment is empty exactly for the empty path and a path ending in `/`. */
  lemma LastSegmentEmpty(s: string)
    ensures LastSegment(s) == [] <==> s == [] || s[|s| - 1] == '/'
  {
  }

  /**
   * `s.replace(/[/]+/g, '-')`, scanning from a state that says whether the
   * previous character was a `/` already replaced.
   */
  function CollapseFrom(s: string, inRun: bool): (r: string)
    ensures '/' !in r
    ensures |r| <= |s|
    ensures !inRun ==> (r == [] <==> s == [])
    ensures '/' !in s ==> r == s
  {
    if s == [] then []
    else if s[0] == '/' then (if inRun then [] else ['-']) + CollapseFrom(s[1..], true)
    else [s[0]] + CollapseFrom(s[1..], false)
  }

  /** Every maximal run of `/` in `s` becomes one `-`. */
  function CollapseSlashes(s: string): (r: string)
    ensures '/' !in r
    ensures r == [] <==> s == []
    ensures r == s <==> '/' !in s
  {
    CollapseFrom(s, false)
  }

  /** `c` repeated `n` times: a run of `#` or of `/`. */
  function Repeat(c: char, n: nat): (r: string)
    ensures |r| == n && forall i :: 0 <= i < n ==> r[i] == c
  {
    if n == 0 then [] else [c] + Repeat(c, n - 1)
  }

  /** Text without `/` is copied, and the scan leaves it outside a run. */
  lemma {:induction false} CollapseCopies(a: string, t: string)
    requires '/' !in a
    ensures CollapseFrom(a + t, false) == a + CollapseFrom(t, false)
  {
    if a == [] {
      assert a + t == t;
    } else {
      ConcatTail(a, t);
      assert a[0] in a;
      assert CollapseFrom(a + t, false) == [a[0]] + CollapseFrom(a[1..] + t, false);
      CollapseCopies(a[1..], t);
      assert a == [a[0]] + a[1..];
      ConcatAssoc([a[0]], a[1..], CollapseFrom(t, false));
    }
  }

  /** Inside a run, further slashes produce nothing. */
  lemma {:induction false} CollapseAbsorbs(n: nat, b: string)
    ensures CollapseFrom(Repeat('/', n) + b, true) == CollapseFrom(b, true)
  {
    if n == 0 {
      assert Repeat('/', n) + b == b;
    } else {
      ConcatTail(Repeat('/', n), b);
      assert Repeat('/', n)[1..] == Repeat('/', n - 1);
      assert CollapseFrom(Repeat('/', n) + b, true) == CollapseFrom(Repeat('/', n - 1) + b, true);
      CollapseAbsorbs(n - 1, b);
    }
  }

  /**
   * A maximal run of slashes after `/`-free text becomes exactly one `-`,
   * and the scan goes on with the rest as if from the start.
   */
  lemma CollapseRun(a: string, n: nat, b: string)
    requires '/' !in a && n >= 1 && (b == [] || b[0] != '/')
    ensures CollapseSlashes(a + Repeat('/', n) + b) == a + "-" + CollapseSlashes(b)
  {
    ConcatAssoc(a, Repeat('/', n), b);
    CollapseCopies(a, Repeat('/', n) + b);
    ConcatTail(Repeat('/', n), b);
    assert Repeat('/', n)[1..] == Repeat('/', n - 1);
    CollapseAbsorbs(n - 1, b);
    assert CollapseFrom(b, true) == CollapseFrom(b, false);
    ConcatAssoc(a, "-", CollapseFrom(b, false));
  }

  /** `xs.join(sep)`. */
  function Join(xs: seq<string>, sep: string): string {
    if |xs| == 0 then []
    else if |xs| == 1 then xs[0]
    else xs[0] + sep + Join(xs[1..], sep)
  }
}
