/**
 * The text half of the link rewriter (`main` of
 * lib/handle-relative-links.js): every resolved target is substituted into
 * the page, at every occurrence not wrapped by `{`/`}`, one target after the
 * other in collection order.
 */
module Rewrite {
  import opened Wrappers
  import opened Strings
  import opened OnlinePaths
  import opened Faults
  import opened Scan
  import opened Resolve

  /** The `n` characters at `i` are directly preceded by `{` or directly followed by `}` (the `(?<!{)` / `(?!})` guards). */
  predicate Guarded(s: string, i: nat, n: nat)
    requires i + n <= |s|
  {
    (i > 0 && s[i - 1] == '{') || (i + n < |s| && s[i + n] == '}')
  }

  /** An occurrence of `p` at `i` that the replacement regex matches. */
  ghost predicate FreeAt(s: string, p: string, i: int) {
    OccursAt(s, p, i) && !Guarded(s, i, |p|)
  }

  /** The first unguarded occurrence of `p` at or after `i`, or -1. */
  function FirstFree(s: string, p: string, i: nat): (k: int)
    requires |p| > 0 && i <= |s|
    decreases |s| - i
    ensures k == -1 || (i <= k && FreeAt(s, p, k))
    ensures k == -1 ==> forall j :: i <= j ==> !FreeAt(s, p, j)
    ensures k >= 0 ==> forall j :: i <= j < k ==> !FreeAt(s, p, j)
  {
    if i + |p| > |s| then -1
    else if s[i..i + |p|] == p && !Guarded(s, i, |p|) then i
    else FirstFree(s, p, i + 1)
  }

  /** The global scan from `i`: an unguarded occurrence is replaced and the scan resumes after it. */
  function ReplaceFrom(s: string, p: string, r: string, i: nat): string
    requires |p| > 0 && i <= |s|
    decreases |s| - i
  {
    if i + |p| > |s| then s[i..]
    else if s[i..i + |p|] == p && !Guarded(s, i, |p|) then r + ReplaceFrom(s, p, r, i + |p|)
    else [s[i]] + ReplaceFrom(s, p, r, i + 1)
  }

  /** `s.replace(new RegExp(`(?<!{)${p}(?!})`, 'g'), r)`, reading `p` literally. */
  function ReplaceUnbraced(s: string, p: string, r: string): string
    requires |p| > 0
  {
    ReplaceFrom(s, p, r, 0)
  }

  /** Without an unguarded occurrence the text is copied. */
  lemma {:induction false} ReplaceFromNoFree(s: string, p: string, r: string, i: nat)
    requires |p| > 0 && i <= |s|
    requires FirstFree(s, p, i) == -1
    decreases |s| - i
    ensures ReplaceFrom(s, p, r, i) == s[i..]
  {
    if i + |p| <= |s| {
      ReplaceFromNoFree(s, p, r, i + 1);
      assert s[i..] == [s[i]] + s[i + 1..];
    }
  }

  /** At an unguarded occurrence the scan emits `r` and resumes after the occurrence. */
  lemma ReplaceFromAtFree(s: string, p: string, r: string, i: nat)
    requires |p| > 0 && i <= |s| && FreeAt(s, p, i)
    ensures ReplaceFrom(s, p, r, i) == r + ReplaceFrom(s, p, r, i + |p|)
  {
    assert s[i..i + |p|] == p;
  }

  /** Anywhere else the scan copies one character. */
  lemma ReplaceFromSkip(s: string, p: string, r: string, i: nat)
    requires |p| > 0 && i + |p| <= |s| && !FreeAt(s, p, i)
    ensures ReplaceFrom(s, p, r, i) == [s[i]] + ReplaceFrom(s, p, r, i + 1)
  {
  }

  /** Up to the first unguarded occurrence the text is copied; that occurrence becomes `r`. */
  lemma {:induction false} ReplaceFromFirst(s: string, p: string, r: string, i: nat, k: nat)
    requires |p| > 0 && i <= k && k + |p| <= |s|
    requires FreeAt(s, p, k)
    requires forall j :: i <= j < k ==> !FreeAt(s, p, j)
    decreases k - i
    ensures ReplaceFrom(s, p, r, i) == s[i..k] + (r + ReplaceFrom(s, p, r, k + |p|))
  {
    if i == k {
      ReplaceFromAtFree(s, p, r, i);
      assert s[i..k] == [];
    } else {
      ReplaceFromSkip(s, p, r, i);
      ReplaceFromFirst(s, p, r, i + 1, k);
      ConsSlice(s, i, k, r + ReplaceFrom(s, p, r, k + |p|));
    }
  }

  /** A replacement no shorter than the pattern never shortens the text, and one no longer never lengthens it. */
  lemma {:induction false} ReplaceFromLength(s: string, p: string, r: string, i: nat)
    requires |p| > 0 && i <= |s|
    decreases |s| - i
    ensures |r| >= |p| ==> |ReplaceFrom(s, p, r, i)| >= |s| - i
    ensures |r| <= |p| ==> |ReplaceFrom(s, p, r, i)| <= |s| - i
  {
    if i + |p| > |s| {
    } else if s[i..i + |p|] == p && !Guarded(s, i, |p|) {
      ReplaceFromLength(s, p, r, i + |p|);
    } else {
      ReplaceFromLength(s, p, r, i + 1);
    }
  }

  /** Replacing a pattern by itself changes nothing. */
  lemma {:induction false} ReplaceFromSelf(s: string, p: string, i: nat)
    requires |p| > 0 && i <= |s|
    decreases |s| - i
    ensures ReplaceFrom(s, p, p, i) == s[i..]
  {
    if i + |p| <= |s| && FreeAt(s, p, i) {
      ReplaceFromSelf(s, p, i + |p|);
      SelfAtFree(s, p, i);
    } else if i + |p| <= |s| {
      ReplaceFromSelf(s, p, i + 1);
      SelfSkip(s, p, i);
    }
  }

  lemma SelfAtFree(s: string, p: string, i: nat)
    requires |p| > 0 && i + |p| <= |s| && FreeAt(s, p, i)
    requires ReplaceFrom(s, p, p, i + |p|) == s[i + |p|..]
    ensures ReplaceFrom(s, p, p, i) == s[i..]
  {
    ReplaceFromAtFree(s, p, p, i);
    SplitAt(s, i, i + |p|);
  }

  lemma SelfSkip(s: string, p: string, i: nat)
    requires |p| > 0 && i + |p| <= |s| && !FreeAt(s, p, i)
    requires ReplaceFrom(s, p, p, i + 1) == s[i + 1..]
    ensures ReplaceFrom(s, p, p, i) == s[i..]
  {
    ReplaceFromSkip(s, p, p, i);
    SplitAt(s, i, i + 1);
    assert s[i..i + 1] == [s[i]];
  }

  /** The substitution leaves the text alone exactly when it replaces the target by itself or finds no unguarded occurrence. */
  lemma ReplaceUnbracedFixedIff(s: string, p: string, r: string)
    requires |p| > 0
    ensures ReplaceUnbraced(s, p, r) == s <==> r == p || forall i :: !FreeAt(s, p, i)
  {
    if r == p {
      ReplaceFromSelf(s, p, 0);
    } else {
      var k := FirstFree(s, p, 0);
      if k == -1 {
        ReplaceFromNoFree(s, p, r, 0);
      } else {
        ReplaceFromFirst(s, p, r, 0, k);
        var rest := ReplaceFrom(s, p, r, k + |p|);
        ReplaceFromLength(s, p, r, k + |p|);
        SpliceDiffers(s, p, r, k, rest);
      }
    }
  }

  /** Putting a different replacement in place of an occurrence, with a tail of the right length, changes the text. */
  lemma SpliceDiffers(s: string, p: string, r: string, k: nat, rest: string)
    requires r != p && OccursAt(s, p, k)
    requires |r| >= |p| ==> |rest| >= |s| - k - |p|
    requires |r| <= |p| ==> |rest| <= |s| - k - |p|
    ensures s[0..k] + (r + rest) != s
  {
    var t := s[0..k] + (r + rest);
    if |r| == |p| {
      assert t[k..k + |r|] == r;
      assert s[k..k + |p|] == p;
    } else if |r| > |p| {
      assert |t| > |s|;
    } else {
      assert |t| < |s|;
    }
  }

  /** An occurrence wrapped in braces, like the `#api` of a heading's `{#api}`, is not rewritten. */
  lemma BracedUntouched(p: string, r: string)
    requires |p| > 0 && p[0] != '{' && p[|p| - 1] != '}'
    ensures ReplaceUnbraced("{" + p + "}", p, r) == "{" + p + "}"
  {
    var s := "{" + p + "}";
    forall i | OccursAt(s, p, i)
      ensures Guarded(s, i, |p|)
    {
      if i == 0 {
        assert s[0] == p[0];
      }
    }
    ReplaceUnbracedFixedIff(s, p, r);
  }

  /** One step of the `forEach`: a `-1` result is skipped, a URL is substituted for the target. */
  function ApplyOne(s: string, target: string, res: Resolution): string
    requires |target| > 0
  {
    match res
    case Unresolved => s
    case Url(u) => ReplaceUnbraced(s, target, u)
  }

  /** The `forEach` over the targets with their index-aligned results. */
  function ApplyResults(s: string, targets: seq<string>, results: seq<Resolution>): string
    requires |targets| == |results|
    requires forall k :: 0 <= k < |targets| ==> |targets[k]| > 0
    decreases |targets|
  {
    if targets == [] then s
    else ApplyResults(ApplyOne(s, targets[0], results[0]), targets[1..], results[1..])
  }

  /** When nothing resolved, the text is returned as it was read. */
  lemma {:induction false} AllUnresolvedUnchanged(s: string, targets: seq<string>, results: seq<Resolution>)
    requires |targets| == |results|
    requires forall k :: 0 <= k < |targets| ==> |targets[k]| > 0
    requires forall k :: 0 <= k < |results| ==> results[k].Unresolved?
    ensures ApplyResults(s, targets, results) == s
  {
    if targets != [] {
      assert results[0].Unresolved?;
      AllUnresolvedUnchanged(s, targets[1..], results[1..]);
    }
  }

  /** A result equal to its own target, as an image without a table entry gives, changes nothing. */
  lemma {:induction false} SelfResultsUnchanged(s: string, targets: seq<string>, results: seq<Resolution>)
    requires |targets| == |results|
    requires forall k :: 0 <= k < |targets| ==> |targets[k]| > 0
    requires forall k :: 0 <= k < |results| ==> results[k].Unresolved? || results[k] == Url(targets[k])
    ensures ApplyResults(s, targets, results) == s
  {
    if targets != [] {
      if results[0].Url? {
        ReplaceFromSelf(s, targets[0], 0);
      }
      SelfResultsUnchanged(s, targets[1..], results[1..]);
    }
  }

  /**
   * `handleLinks(str, oriPageConfPath, paths, pkgName)`: `None` is the
   * `undefined` an empty page gets; a failure is the exception the
   * resolution throws, before any text is replaced.
   */
  function HandleLinks(str: string, page: string, paths: seq<string>, profile: Profile): (r: Result<Option<string>, Fault>)
    ensures r == Success(None) <==> str == []
    ensures r.Failure? <==> str != [] && ResolveAll(CollectTargets(str), page, paths, profile).Failure?
    ensures r.Failure? ==> exists t :: t in CollectTargets(str) && ResolveTarget(t, page, paths, profile).Failure?
    ensures r.Failure? ==> r.error == NoImageTable(profile.pkg)
  {
    if str == [] then Success(None)
    else
      var targets := CollectTargets(str);
      var results :- ResolveAll(targets, page, paths, profile);
      Success(Some(ApplyResults(str, targets, results)))
  }

  /** A page with no `(` and no `<` has nothing to collect and comes back unchanged. */
  lemma PlainPageUnchanged(str: string, page: string, paths: seq<string>, profile: Profile)
    requires str != [] && '(' !in str && '<' !in str
    ensures HandleLinks(str, page, paths, profile) == Success(Some(str))
  {
    NoParenNoLinks(str);
    NoAngleNoImgs(str);
  }

  /** A page each of whose targets resolves to `-1` comes back unchanged. */
  lemma UnresolvedPageUnchanged(str: string, page: string, paths: seq<string>, profile: Profile)
    requires str != []
    requires forall k :: 0 <= k < |CollectTargets(str)| ==>
      ResolveTarget(CollectTargets(str)[k], page, paths, profile) == Success(Unresolved)
    ensures HandleLinks(str, page, paths, profile) == Success(Some(str))
  {
    var targets := CollectTargets(str);
    var rs := ResolveAll(targets, page, paths, profile);
    AllUnresolvedUnchanged(str, targets, rs.value);
  }

  /**
   * A page holding one Markdown link whose target resolves to `u`, and that
   * mentions the target nowhere else, comes back with `u` in the target's
   * place and everything else as it was.
   */
  lemma LinkRewritten(lbl: string, t: string, u: string, page: string, paths: seq<string>, profile: Profile)
    requires |lbl| >= 1 && OneLine(lbl) && '(' !in lbl && '<' !in lbl && '<' !in t
    requires LinkTarget(t)
    requires forall j :: OccursAt("[" + lbl + "](" + t + ")", t, j) ==> j == |lbl| + 3
    requires ResolveTarget(t, page, paths, profile) == Success(Url(u))
    ensures HandleLinks("[" + lbl + "](" + t + ")", page, paths, profile) == Success(Some("[" + lbl + "](" + u + ")"))
  {
    var s := "[" + lbl + "](" + t + ")";
    LinkRoundTrip(lbl, t);
    NoAngleNoImgs(s);
    assert CollectTargets(s) == [t];
    ResolveOne(t, u, page, paths, profile);
    assert ApplyResults(s, [t], [Url(u)]) == ReplaceUnbraced(s, t, u);
    ReplaceOnlyOccurrence("[" + lbl + "](", t, ")", u);
  }

  /** A single target that resolves to `u` resolves the list to `[u]`. */
  lemma ResolveOne(t: string, u: string, page: string, paths: seq<string>, profile: Profile)
    requires ResolveTarget(t, page, paths, profile) == Success(Url(u))
    ensures ResolveAll([t], page, paths, profile) == Success([Url(u)])
  {
    var rs := ResolveAll([t], page, paths, profile);
    assert [t][0] == t;
    assert rs.Success?;
    assert rs.value[0] == Url(u);
    assert rs.value == [Url(u)];
  }

  /** A target between `(` and `)` that occurs nowhere else is replaced there and only there. */
  lemma ReplaceOnlyOccurrence(head: string, t: string, tail: string, u: string)
    requires |t| > 0 && |head| > 0 && head[|head| - 1] == '(' && tail == ")"
    requires forall j :: OccursAt(head + t + tail, t, j) ==> j == |head|
    ensures ReplaceUnbraced(head + t + tail, t, u) == head + u + tail
  {
    var s := head + t + tail;
    var k := |head|;
    assert s[k..k + |t|] == t && s[k - 1] == '(' && s[k + |t|] == ')';
    assert FreeAt(s, t, k);
    ReplaceFromFirst(s, t, u, 0, k);
    var f := FirstFree(s, t, k + |t|);
    assert f == -1;
    ReplaceFromNoFree(s, t, u, k + |t|);
    assert s[0..k] == head && s[k + |t|..] == tail;
  }

  /** The only image source of a package without an image table makes the whole call throw. */
  lemma ImageWithoutTableThrows(t: string, page: string, paths: seq<string>, profile: Profile)
    requires ImgTarget(t) && '(' !in t
    requires !StartsWith(Normalise(t), "#") && IsImage(Normalise(t))
    requires profile.images.None?
    ensures HandleLinks("<img src=\"" + t + "\">", page, paths, profile) == Failure(NoImageTable(profile.pkg))
  {
    var s := "<img src=\"" + t + "\">";
    assert '(' !in s;
    NoParenNoLinks(s);
    ImgRoundTrip(t);
    assert CollectTargets(s) == [t];
  }
}
