/**
 * The earlier link rewriter of lib/handle-links.js: a three-pass
 * normalisation, a split at the first `#`, "first known path containing the
 * target", and a first-occurrence replacement that pairs the i-th collected
 * target with the i-th result pushed, whether or not the two belong together.
 */
module LegacyLinks {
  import opened Wrappers
  import opened Strings
  import opened Nav
  import opened OnlinePaths
  import opened Scan
  import opened Resolve

  /** `hostMap` of the earlier rewriter, which still lists vite and the unnamed vue3 package. */
  const LegacyHostMap: map<string, string> := map[
    "vuex" := "https://vuex.vuejs.org/",
    "vue-router" := "https://v3.router.vuejs.org",
    "@pinia/root" := "https://pinia.vuejs.org/zh",
    "vite-docs-cn" := "https://cn.vitejs.dev",
    "" := "https://cn.vuejs.org/"
  ]

  /** The host text a template literal prints for the package. */
  function LegacyHost(pkg: string): (h: string)
    ensures pkg in LegacyHostMap ==> StartsWith(h, "https://")
    ensures pkg !in LegacyHostMap ==> h == "undefined"
  {
    if pkg in LegacyHostMap then LegacyHostMap[pkg] else "undefined"
  }

  /** `.replace(/[.]{1,2}[/]/g, '').replace(/[.]md/g, '').replace(/[.]html/g, '')`: three separate passes. */
  function LegacyNormalise(t: string): (r: string)
    ensures |r| <= |t|
  {
    var a := StripRelative(t);
    var b := ReplaceEvery(a, ".md", "");
    RemoveEveryShortens(a, ".md");
    RemoveEveryShortens(b, ".html");
    ReplaceEvery(b, ".html", "")
  }

  /** The three passes leave a target alone exactly when it has no `./`, `.md` or `.html` in it. */
  lemma LegacyNormaliseFixedIff(t: string)
    ensures LegacyNormalise(t) == t <==> !Contains(t, "./") && !Contains(t, ".md") && !Contains(t, ".html")
  {
    StripRelativeFixedIff(t);
    var a := StripRelative(t);
    RemoveEveryShortens(a, ".md");
    RemoveEveryShortens(ReplaceEvery(a, ".md", ""), ".html");
  }

  /** The characters before the first `#` (all of `n` when it has none): the `shift` loop. */
  function BeforeHash(n: string): (r: string)
    ensures '#' !in r
    ensures StartsWith(n, r)
    ensures |r| < |n| ==> n[|r|] == '#'
  {
    if n == [] || n[0] == '#' then []
    else [n[0]] + BeforeHash(n[1..])
  }

  /** `purePath` and `hash` of the earlier rewriter. */
  function LegacySplit(n: string): (r: Split)
    ensures '#' !in r.pure && StartsWith(n, r.pure)
    ensures r.hash == [] || HashCapture(r.hash)
    ensures r.hash != [] ==> Contains(n, r.hash)
  {
    var j := RunStart(n, '#', 0);
    if j == -1 then Split(BeforeHash(n), [])
    else
      var hash := n[j..LineEnd(n, j + 1)];
      OneLineSlice(n, j, LineEnd(n, j + 1));
      assert OccursAt(n, hash, j);
      Split(BeforeHash(n), hash)
  }

  /** A `#`-free path part followed by a hash capture splits back into the two. */
  lemma LegacySplitRoundTrip(pure: string, hash: string)
    requires '#' !in pure
    requires hash == [] || HashCapture(hash)
    ensures LegacySplit(pure + hash) == Split(pure, hash)
  {
    if hash == [] {
      assert pure + hash == pure;
      LegacySplitPlain(pure);
    } else {
      LegacySplitHashed(pure, hash);
    }
  }

  lemma LegacySplitPlain(pure: string)
    requires '#' !in pure
    ensures LegacySplit(pure) == Split(pure, [])
  {
    BeforeHashOfPrefix(pure, []);
    assert pure + [] == pure;
    RunStartNone(pure, '#', 0);
  }

  lemma LegacySplitHashed(pure: string, hash: string)
    requires '#' !in pure && HashCapture(hash)
    ensures LegacySplit(pure + hash) == Split(pure, hash)
  {
    var n := pure + hash;
    BeforeHashOfPrefix(pure, hash);
    HashStartsAfter(pure, hash);
    HashRunsToEnd(pure, hash);
    assert n[|pure|..] == hash;
  }

  /** The first `#` with something after it on the line is the one that starts the hash part. */
  lemma HashStartsAfter(pure: string, hash: string)
    requires '#' !in pure && HashCapture(hash)
    ensures RunStart(pure + hash, '#', 0) == |pure|
  {
    var n := pure + hash;
    forall m | 0 <= m < |pure| ensures n[m] != '#' {
      assert n[m] == pure[m];
      assert pure[m] in pure;
    }
    assert n[|pure|] == '#' && n[|pure| + 1] == hash[1];
    RunStartReaches(n, '#', 0, |pure|);
  }

  /** The hash part is one line, so its line ends with the text. */
  lemma HashRunsToEnd(pure: string, hash: string)
    requires HashCapture(hash)
    ensures LineEnd(pure + hash, |pure| + 1) == |pure + hash|
  {
    var n := pure + hash;
    forall m | |pure| + 1 <= m < |n| ensures !IsLineTerminator(n[m]) {
      assert n[m] == hash[m - |pure|];
    }
    LineEndAtEnd(n, |pure| + 1);
  }

  lemma {:induction false} BeforeHashOfPrefix(pure: string, hash: string)
    requires '#' !in pure
    requires hash == [] || hash[0] == '#'
    ensures BeforeHash(pure + hash) == pure
  {
    if pure != [] {
      ConcatTail(pure, hash);
      assert pure[0] in pure;
      BeforeHashOfPrefix(pure[1..], hash);
    } else {
      assert pure + hash == hash;
    }
  }

  /**
   * One step of the earlier `reduce`: the first known path containing the
   * pure part, if it is not the empty (falsy) string, gives
   * host ++ that path without its first `.md` ++ hash; otherwise nothing.
   */
  function LegacyResolve(target: string, paths: seq<string>, host: string): Option<string> {
    var sp := LegacySplit(LegacyNormalise(target));
    var k := FirstContaining(paths, sp.pure);
    if k >= 0 && paths[k] != [] then Some(host + ReplaceFirst(paths[k], ".md", "") + sp.hash) else None
  }

  /** What a resolved target is, in terms of the list order of the known paths. */
  lemma LegacyResolveFirstMatch(target: string, paths: seq<string>, host: string)
    ensures var sp := LegacySplit(LegacyNormalise(target));
      LegacyResolve(target, paths, host).Some?
      <==> (exists k :: 0 <= k < |paths| && Contains(paths[k], sp.pure) && paths[k] != []
                      && forall j :: 0 <= j < k ==> !Contains(paths[j], sp.pure))
    ensures var sp := LegacySplit(LegacyNormalise(target));
      var r := LegacyResolve(target, paths, host);
      r.Some? ==> (exists k :: 0 <= k < |paths| && Contains(paths[k], sp.pure)
                     && (forall j :: 0 <= j < k ==> !Contains(paths[j], sp.pure))
                     && r.value == host + ReplaceFirst(paths[k], ".md", "") + sp.hash)
  {
    var sp := LegacySplit(LegacyNormalise(target));
    var k := FirstContaining(paths, sp.pure);
    if LegacyResolve(target, paths, host).Some? {
      assert 0 <= k < |paths| && Contains(paths[k], sp.pure) && paths[k] != [];
    }
  }

  /** The `reduce`: only the targets that resolve push a result. */
  function LegacyResults(targets: seq<string>, paths: seq<string>, host: string): (rs: seq<string>)
    ensures |rs| <= |targets|
    ensures |rs| == |targets| <==> forall i :: 0 <= i < |targets| ==> LegacyResolve(targets[i], paths, host).Some?
  {
    if targets == [] then []
    else
      var head := LegacyResolve(targets[0], paths, host);
      var tail := LegacyResults(targets[1..], paths, host);
      assert forall i :: 1 <= i < |targets| ==> targets[i] == targets[1..][i - 1];
      if head.Some? then [head.value] + tail else tail
  }

  /** When every target resolves, the results line up with the targets. */
  lemma {:induction false} LegacyResultsAligned(targets: seq<string>, paths: seq<string>, host: string)
    requires forall i :: 0 <= i < |targets| ==> LegacyResolve(targets[i], paths, host).Some?
    ensures forall i :: 0 <= i < |targets| ==>
      LegacyResults(targets, paths, host)[i] == LegacyResolve(targets[i], paths, host).value
  {
    if targets != [] {
      var tail := LegacyResults(targets[1..], paths, host);
      assert forall i :: 1 <= i < |targets| ==> targets[i] == targets[1..][i - 1];
      LegacyResultsAligned(targets[1..], paths, host);
      var rs := LegacyResults(targets, paths, host);
      assert rs == [LegacyResolve(targets[0], paths, host).value] + tail;
      forall i | 0 <= i < |targets|
        ensures rs[i] == LegacyResolve(targets[i], paths, host).value
      {
        if i > 0 {
          assert rs[i] == tail[i - 1];
        }
      }
    }
  }

  /** An unresolved first target drops out, so the first result now belongs to a later target. */
  lemma ResultsShiftPastUnresolved(targets: seq<string>, paths: seq<string>, host: string)
    requires |targets| >= 2
    requires LegacyResolve(targets[0], paths, host).None?
    requires LegacyResolve(targets[1], paths, host).Some?
    ensures LegacyResults(targets, paths, host)
         == [LegacyResolve(targets[1], paths, host).value] + LegacyResults(targets[2..], paths, host)
  {
    assert targets[1..][0] == targets[1];
    assert targets[1..][1..] == targets[2..];
  }

  /** The `forEach`: target `k` is replaced, at its first occurrence, by result `k`, or by `undefined` past the end. */
  function LegacyReplace(s: string, targets: seq<string>, results: seq<string>, k: nat): string
    requires k <= |targets|
    decreases |targets| - k
  {
    if k == |targets| then s
    else
      var res := if k < |results| then results[k] else "undefined";
      LegacyReplace(ReplaceFirst(s, targets[k], res), targets, results, k + 1)
  }

  /**
   * The mispairing the shift causes: with the first of two targets
   * unresolved, the `forEach` writes the second target's URL over the first
   * target and `undefined` over the second.
   */
  lemma MispairedReplace(s: string, t0: string, t1: string, paths: seq<string>, host: string)
    requires LegacyResolve(t0, paths, host).None?
    requires LegacyResolve(t1, paths, host).Some?
    ensures LegacyReplace(s, [t0, t1], LegacyResults([t0, t1], paths, host), 0)
         == ReplaceFirst(ReplaceFirst(s, t0, LegacyResolve(t1, paths, host).value), t1, "undefined")
  {
    var u := LegacyResolve(t1, paths, host).value;
    ResultsShiftPastUnresolved([t0, t1], paths, host);
    assert [t0, t1][2..] == [];
    var rs := LegacyResults([t0, t1], paths, host);
    assert rs == [u];
    var s1 := ReplaceFirst(s, t0, u);
    assert LegacyReplace(s, [t0, t1], rs, 0) == LegacyReplace(s1, [t0, t1], rs, 1);
    assert LegacyReplace(s1, [t0, t1], rs, 1) == LegacyReplace(ReplaceFirst(s1, t1, "undefined"), [t0, t1], rs, 2);
  }

  /** The forEach over one target: its result, or `undefined` when it did not resolve. */
  lemma ReplaceOne(s: string, t: string, paths: seq<string>, host: string)
    ensures var r := LegacyResolve(t, paths, host);
      LegacyReplace(s, [t], LegacyResults([t], paths, host), 0)
      == ReplaceFirst(s, t, if r.Some? then r.value else "undefined")
  {
    var r := LegacyResolve(t, paths, host);
    assert [t][1..] == [];
    assert LegacyResults([t], paths, host) == if r.Some? then [r.value] else [];
  }

  /** Targets absent from the text leave it alone. */
  lemma {:induction false} LegacyReplaceAbsent(s: string, targets: seq<string>, results: seq<string>, k: nat)
    requires k <= |targets|
    requires forall i :: k <= i < |targets| ==> !Contains(s, targets[i])
    decreases |targets| - k
    ensures LegacyReplace(s, targets, results, k) == s
  {
    if k < |targets| {
      LegacyReplaceAbsent(s, targets, results, k + 1);
    }
  }

  /** The known paths: nav leaves then sidebar leaves, each in `flatterArr` order, after the vue-router exception. */
  method LegacyKnownPaths(nav: seq<NavNode>, sidebar: seq<NavNode>, pkg: string) returns (paths: seq<string>)
    ensures |paths| == |Leaves(nav)| + |Leaves(sidebar)|
    ensures paths == HandlePaths(Reverse(Leaves(nav)) + Reverse(Leaves(sidebar)), pkg)
  {
    var rest, collected := FlatterArr(nav, []);
    assert collected == Reverse(Leaves(nav));
    rest, collected := FlatterArr(sidebar, collected);
    assert collected == Reverse(Leaves(nav)) + Reverse(Leaves(sidebar));
    paths := HandlePaths(collected, pkg);
  }

  /** The rewrite itself (lines 52-96): `None` for the `undefined` an empty page gets. */
  function LegacyHandleLinks(str: string, paths: seq<string>, pkg: string): (r: Option<string>)
    ensures r.None? <==> str == []
    ensures '(' !in str && str != [] ==> r == Some(str)
  {
    if str == [] then None
    else
      var targets := ScanLinks(str);
      assert '(' !in str ==> targets == [] by {
        if '(' !in str { NoParenNoLinks(str); }
      }
      Some(LegacyReplace(str, targets, LegacyResults(targets, paths, LegacyHost(pkg)), 0))
  }

  /** A page whose two links have an unresolved first target gets the second URL in the first link and `undefined` in the second. */
  lemma PageMispaired(str: string, t0: string, t1: string, paths: seq<string>, pkg: string)
    requires str != [] && ScanLinks(str) == [t0, t1]
    requires LegacyResolve(t0, paths, LegacyHost(pkg)).None?
    requires LegacyResolve(t1, paths, LegacyHost(pkg)).Some?
    ensures LegacyHandleLinks(str, paths, pkg)
         == Some(ReplaceFirst(ReplaceFirst(str, t0, LegacyResolve(t1, paths, LegacyHost(pkg)).value), t1, "undefined"))
  {
    MispairedReplace(str, t0, t1, paths, LegacyHost(pkg));
  }

  /**
   * A page holding one link whose target first occurs inside the
   * parentheses: the target becomes its URL when it resolves and the text
   * `undefined` when it does not.
   */
  lemma OneLinkPage(lbl: string, t: string, paths: seq<string>, pkg: string)
    requires |lbl| >= 1 && OneLine(lbl) && '(' !in lbl && LinkTarget(t)
    requires forall j :: 0 <= j < |lbl| + 3 ==> !OccursAt("[" + lbl + "](" + t + ")", t, j)
    ensures var r := LegacyResolve(t, paths, LegacyHost(pkg));
      LegacyHandleLinks("[" + lbl + "](" + t + ")", paths, pkg)
      == Some("[" + lbl + "](" + (if r.Some? then r.value else "undefined") + ")")
  {
    var s := "[" + lbl + "](" + t + ")";
    var k := |lbl| + 3;
    var r := LegacyResolve(t, paths, LegacyHost(pkg));
    var v := if r.Some? then r.value else "undefined";
    LinkRoundTrip(lbl, t);
    ReplaceOne(s, t, paths, LegacyHost(pkg));
    assert s[k..k + |t|] == t;
    ReplaceFirstAt(s, t, v, k);
    assert s[..k] == "[" + lbl + "](" && s[k + |t|..] == ")";
  }
}
