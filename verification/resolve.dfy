/**
 * The per-target half of the link rewriter (`main` of
 * lib/handle-relative-links.js): normalise a collected target, classify it as
 * a same-page anchor, an image or a page reference, and resolve it to a URL,
 * to the `-1` sentinel (`Unresolved`), or to the exception the lookup raises.
 */
module Resolve {
  import opened Wrappers
  import opened Strings
  import opened OnlinePaths
  import opened Faults

  /** `t.replace(/[.]{1,2}[/]/g, '')`: at each position `../` is tried before `./`. */
  function StripRelative(t: string): (r: string)
    decreases |t|
    ensures |r| <= |t|
  {
    if |t| >= 3 && t[..3] == "../" then StripRelative(t[3..])
    else if |t| >= 2 && t[..2] == "./" then StripRelative(t[2..])
    else if t == [] then []
    else [t[0]] + StripRelative(t[1..])
  }

  /** The relative-segment pass changes a target exactly when the target contains `./`. */
  lemma {:induction false} StripRelativeFixedIff(t: string)
    decreases |t|
    ensures StripRelative(t) == t <==> !Contains(t, "./")
    ensures Contains(t, "./") ==> |StripRelative(t)| < |t|
  {
    if |t| >= 3 && t[..3] == "../" {
      assert OccursAt(t, "./", 1) by { assert t[1..3] == t[..3][1..]; }
    } else if |t| >= 2 && t[..2] == "./" {
      assert OccursAt(t, "./", 0);
    } else if t != [] {
      StripRelativeFixedIff(t[1..]);
      ContainsTail(t, "./");
      assert !OccursAt(t, "./", 0);
    }
  }

  /** `t.replace(/[.](md|html)/g, '')`: at each position `.md` is tried before `.html`. */
  function StripExtensions(t: string): (r: string)
    decreases |t|
    ensures |r| <= |t|
  {
    if |t| >= 3 && t[..3] == ".md" then StripExtensions(t[3..])
    else if |t| >= 5 && t[..5] == ".html" then StripExtensions(t[5..])
    else if t == [] then []
    else [t[0]] + StripExtensions(t[1..])
  }

  /** The extension pass changes a target exactly when it contains `.md` or `.html`. */
  lemma {:induction false} StripExtensionsFixedIff(t: string)
    decreases |t|
    ensures StripExtensions(t) == t <==> !Contains(t, ".md") && !Contains(t, ".html")
    ensures Contains(t, ".md") || Contains(t, ".html") ==> |StripExtensions(t)| < |t|
  {
    if |t| >= 3 && t[..3] == ".md" {
      assert OccursAt(t, ".md", 0);
    } else if |t| >= 5 && t[..5] == ".html" {
      assert OccursAt(t, ".html", 0);
    } else if t != [] {
      StripExtensionsFixedIff(t[1..]);
      ContainsTail(t, ".md");
      ContainsTail(t, ".html");
      assert !OccursAt(t, ".md", 0);
      assert !OccursAt(t, ".html", 0);
    }
  }

  /** `pathWithoutRelative`: relative segments first, then extensions. */
  function Normalise(t: string): (r: string)
    ensures |r| <= |t|
  {
    StripExtensions(StripRelative(t))
  }

  /** Normalisation leaves a target alone exactly when it has no `./`, `.md` or `.html` in it. */
  lemma NormaliseFixedIff(t: string)
    ensures Normalise(t) == t <==> !Contains(t, "./") && !Contains(t, ".md") && !Contains(t, ".html")
  {
    StripRelativeFixedIff(t);
    StripExtensionsFixedIff(StripRelative(t));
  }

  /** The class `[a-zA-Z0-9-_/]`. */
  predicate IsPathChar(c: char) {
    ('a' <= c <= 'z') || ('A' <= c <= 'Z') || ('0' <= c <= '9') || c == '-' || c == '_' || c == '/'
  }

  /** The first index at or after `i` holding a path character, or `|s|`. */
  function SkipNonPath(s: string, i: nat): (a: nat)
    requires i <= |s|
    decreases |s| - i
    ensures i <= a <= |s|
    ensures a < |s| ==> IsPathChar(s[a])
    ensures forall m :: i <= m < a ==> !IsPathChar(s[m])
  {
    if i == |s| || IsPathChar(s[i]) then i else SkipNonPath(s, i + 1)
  }

  /** The end of the run of path characters starting at `i`. */
  function RunEnd(s: string, i: nat): (b: nat)
    requires i <= |s|
    decreases |s| - i
    ensures i <= b <= |s|
    ensures forall m :: i <= m < b ==> IsPathChar(s[m])
    ensures b < |s| ==> !IsPathChar(s[b])
  {
    if i == |s| || !IsPathChar(s[i]) then i else RunEnd(s, i + 1)
  }

  /** The two captures `purePath` and `hash`. */
  datatype Split = Split(pure: string, hash: string)

  /** A capture of `(#.+)`: a `#` and at least one more character, all on one line. */
  ghost predicate HashCapture(h: string) {
    |h| >= 2 && h[0] == '#' && OneLine(h)
  }

  /**
   * The regex `([a-zA-Z0-9-_/]+)(#.+)*` executed on `n`, with `''` for a missing match or
   * capture: `pure` is the leftmost maximal run of path characters, and
   * `hash` is the rest of that line when the run is directly followed by `#`
   * and one more character on the same line.
   */
  function SplitTarget(n: string): (r: Split)
    ensures forall m :: 0 <= m < |r.pure| ==> IsPathChar(r.pure[m])
    ensures r.pure == [] <==> forall m :: 0 <= m < |n| ==> !IsPathChar(n[m])
    ensures r.hash == [] || HashCapture(r.hash)
    ensures r.pure == [] ==> r.hash == []
    ensures r.pure != [] ==> Contains(n, r.pure + r.hash)
  {
    var a := SkipNonPath(n, 0);
    if a == |n| then Split([], [])
    else
      var b := RunEnd(n, a);
      var e := HashEnd(n, b);
      SliceConcat(n, a, b, e);
      ContainsAt(n, n[a..e], a);
      Split(n[a..b], n[b..e])
  }

  /** Where the `(#.+)` capture after position `b` ends: the end of the line when `#` and one more character follow, else `b`. */
  function HashEnd(n: string, b: nat): (e: nat)
    requires b <= |n|
    ensures b <= e <= |n|
    ensures e == b || HashCapture(n[b..e])
    ensures e == b <==> !(b + 1 < |n| && n[b] == '#' && !IsLineTerminator(n[b + 1]))
  {
    if b + 1 < |n| && n[b] == '#' && !IsLineTerminator(n[b + 1]) then
      var e := LineEnd(n, b + 1);
      assert OneLine(n[b..e]) by {
        forall j | 0 <= j < e - b ensures !IsLineTerminator(n[b..e][j]) {
          assert n[b..e][j] == n[b + j];
        }
      }
      e
    else b
  }

  /** Splitting a path-character run followed by a hash capture gives the two pieces back. */
  lemma SplitRoundTrip(pure: string, hash: string)
    requires pure != [] && forall m :: 0 <= m < |pure| ==> IsPathChar(pure[m])
    requires hash == [] || HashCapture(hash)
    ensures SplitTarget(pure + hash) == Split(pure, hash)
  {
    var n := pure + hash;
    assert n[0] == pure[0];
    assert SkipNonPath(n, 0) == 0;
    assert forall m :: 0 <= m < |pure| ==> IsPathChar(n[m]);
    RunEndOfRun(n, 0, |pure|);
    assert n[..|pure|] == pure;
    if hash != [] {
      assert n[|pure|] == '#' && !IsLineTerminator(n[|pure| + 1]);
      assert forall m :: |pure| + 1 <= m < |n| ==> !IsLineTerminator(n[m]) by {
        forall m | |pure| + 1 <= m < |n| ensures !IsLineTerminator(n[m]) {
          assert n[m] == hash[m - |pure|];
        }
      }
      LineEndAtEnd(n, |pure| + 1);
      assert n[|pure|..] == hash;
    }
  }

  lemma {:induction false} RunEndOfRun(s: string, i: nat, b: nat)
    requires i <= b <= |s|
    requires forall m :: i <= m < b ==> IsPathChar(s[m])
    requires b < |s| ==> !IsPathChar(s[b])
    decreases b - i
    ensures RunEnd(s, i) == b
  {
    if i < b {
      RunEndOfRun(s, i + 1, b);
    }
  }

  /** `remain`: how many characters of `path` follow the first character of the first occurrence of `pure`. */
  function Remain(path: string, pure: string): int {
    |path| - (IndexOf(path, pure) + 1)
  }

  /**
   * Candidate `k` ranks no worse than candidate `j`: smaller `remain`, then
   * shorter path, then earlier in the list, which is the order the two stable
   * sorts of `main` leave at the front.
   */
  predicate NoWorse(paths: seq<string>, pure: string, k: nat, j: nat) {
    k < |paths| && j < |paths|
    && var rk, rj := Remain(paths[k], pure), Remain(paths[j], pure);
       rk < rj || (rk == rj && (|paths[k]| < |paths[j]| || (|paths[k]| == |paths[j]| && k <= j)))
  }

  /** `k` is the candidate `main` picks: it contains `pure` and ranks no worse than any other containing path. */
  ghost predicate IsBest(paths: seq<string>, pure: string, k: nat) {
    k < |paths| && Contains(paths[k], pure)
    && forall j :: 0 <= j < |paths| && Contains(paths[j], pure) ==> NoWorse(paths, pure, k, j)
  }

  /** Candidate `k` ranks strictly before the earlier-listed candidate `j` (list order cannot break this tie). */
  predicate Better(paths: seq<string>, pure: string, k: nat, j: nat) {
    k < |paths| && j < |paths|
    && var rk, rj := Remain(paths[k], pure), Remain(paths[j], pure);
       rk < rj || (rk == rj && |paths[k]| < |paths[j]|)
  }

  /** Taking the later candidate exactly when it is strictly better keeps the running best no worse than anything seen. */
  lemma RankStep(paths: seq<string>, pure: string, b: nat, x: nat, j: nat)
    requires b < x < |paths| && j < |paths| && NoWorse(paths, pure, b, j)
    ensures Better(paths, pure, x, b) ==> NoWorse(paths, pure, x, j)
    ensures !Better(paths, pure, x, b) ==> NoWorse(paths, pure, b, x)
  {
  }

  /** Adding candidate `x` to those before it: the running best stays no worse than every candidate so far. */
  lemma BestStep(paths: seq<string>, pure: string, b: nat, x: nat)
    requires b < x < |paths| && Contains(paths[x], pure)
    requires forall j :: 0 <= j < x && Contains(paths[j], pure) ==> NoWorse(paths, pure, b, j)
    ensures var c := if Better(paths, pure, x, b) then x else b;
      forall j :: 0 <= j <= x && Contains(paths[j], pure) ==> NoWorse(paths, pure, c, j)
  {
    var c := if Better(paths, pure, x, b) then x else b;
    forall j | 0 <= j <= x && Contains(paths[j], pure)
      ensures NoWorse(paths, pure, c, j)
    {
      if j < x {
        RankStep(paths, pure, b, x, j);
      } else {
        RankStep(paths, pure, b, x, b);
      }
    }
  }

  /** The best candidate among the first `n` paths. */
  function BestUpTo(paths: seq<string>, pure: string, n: nat): (r: Option<nat>)
    requires n <= |paths|
    ensures r.None? <==> forall j :: 0 <= j < n ==> !Contains(paths[j], pure)
    ensures r.Some? ==> r.value < n && Contains(paths[r.value], pure)
    ensures r.Some? ==> forall j :: 0 <= j < n && Contains(paths[j], pure) ==> NoWorse(paths, pure, r.value, j)
  {
    if n == 0 then None
    else
      var b := BestUpTo(paths, pure, n - 1);
      if !Contains(paths[n - 1], pure) then b
      else if b.None? then Some(n - 1)
      else
        BestStep(paths, pure, b.value, n - 1);
        Some(if Better(paths, pure, n - 1, b.value) then n - 1 else b.value)
  }

  /** The selection over the whole list. */
  function Select(paths: seq<string>, pure: string): (r: Option<nat>)
    ensures r.None? <==> forall j :: 0 <= j < |paths| ==> !Contains(paths[j], pure)
    ensures r.Some? ==> IsBest(paths, pure, r.value)
  {
    BestUpTo(paths, pure, |paths|)
  }

  /** The ranking is total, so there is only one best candidate. */
  lemma BestIsUnique(paths: seq<string>, pure: string, k: nat, k': nat)
    requires IsBest(paths, pure, k) && IsBest(paths, pure, k')
    ensures k == k'
  {
    assert NoWorse(paths, pure, k, k') && NoWorse(paths, pure, k', k);
  }

  /** A known path equal to the target's pure part always wins: nothing can have a smaller `remain` without being it. */
  lemma ExactMatchWins(paths: seq<string>, pure: string, j: nat)
    requires j < |paths| && paths[j] == pure
    ensures Select(paths, pure).Some?
    ensures paths[Select(paths, pure).value] == pure
  {
    assert OccursAt(paths[j], pure, 0);
    assert IndexOf(paths[j], pure) == 0;
    var k := Select(paths, pure).value;
    assert NoWorse(paths, pure, k, j);
    var i := IndexOf(paths[k], pure);
    assert OccursAt(paths[k], pure, i);
    assert i == 0 && |paths[k]| == |pure|;
    assert paths[k] == paths[k][0..|pure|];
  }

  /** Equal `remain` goes to the shorter path even when it is listed later. */
  lemma ShorterWinsOnEqualRemain()
    ensures Select(["/guide/api", "/core/api"], "api") == Some(1)
  {
    var paths := ["/guide/api", "/core/api"];
    assert OccursAt(paths[0], "api", 7);
    assert OccursAt(paths[1], "api", 6);
    assert forall m :: 0 <= m < 7 ==> !OccursAt(paths[0], "api", m) by {
      assert 'a' !in paths[0][..7];
      forall m | 0 <= m < 7 ensures !OccursAt(paths[0], "api", m) {
        assert paths[0][m] in paths[0][..7];
      }
    }
    assert forall m :: 0 <= m < 6 ==> !OccursAt(paths[1], "api", m) by {
      assert 'a' !in paths[1][..6];
      forall m | 0 <= m < 6 ensures !OccursAt(paths[1], "api", m) {
        assert paths[1][m] in paths[1][..6];
      }
    }
    assert Remain(paths[0], "api") == 2;
    assert Remain(paths[1], "api") == 2;
    var k := Select(paths, "api").value;
    assert NoWorse(paths, "api", k, 0) && NoWorse(paths, "api", k, 1);
  }

  /** What one target resolves to: a URL, or the `-1` sentinel that leaves the text alone. */
  datatype Resolution = Url(url: string) | Unresolved

  predicate IsImage(n: string) {
    EndsWith(n, ".png") || EndsWith(n, ".jpg") || EndsWith(n, ".svg")
  }

  /**
   * One step of the `reduce` in `main`: `page` is the configured path of the
   * page being rewritten, `paths` the known page paths, `profile` the
   * package's host and image table.
   */
  function ResolveTarget(target: string, page: string, paths: seq<string>, profile: Profile): (r: Result<Resolution, Fault>)
    // same page: host, the page's public path, and the target as written; the known paths play no part
    ensures StartsWith(Normalise(target), "#") ==>
      r == Success(Url(profile.host + PublicPath(page, profile.pkg) + target))
    // image: a missing image table throws; otherwise the table's non-empty entry, or the target as written
    ensures !StartsWith(Normalise(target), "#") && IsImage(Normalise(target)) ==>
      (r.Failure? <==> profile.images.None?)
      && (r.Failure? ==> r.error == NoImageTable(profile.pkg))
      && (r.Success? ==>
            (r.value.Url?
             && var n := Normalise(target);
                r.value.url == (if n in profile.images.value && profile.images.value[n] != [] then profile.images.value[n] else target)))
    // page: never throws; unresolved exactly when no known path contains the pure part; else the best path
    ensures !StartsWith(Normalise(target), "#") && !IsImage(Normalise(target)) ==>
      r.Success?
      && var sp := SplitTarget(Normalise(target));
         (r.value.Unresolved? <==> forall j :: 0 <= j < |paths| ==> !Contains(paths[j], sp.pure))
         && (r.value.Url? ==>
               exists k: nat :: IsBest(paths, sp.pure, k)
                 && r.value.url == profile.host + ReplaceFirst(paths[k], ".md", "") + sp.hash)
  {
    var n := Normalise(target);
    if StartsWith(n, "#") then
      Success(Url(profile.host + PublicPath(page, profile.pkg) + target))
    else if IsImage(n) then
      match profile.images
      case None => Failure(NoImageTable(profile.pkg))
      case Some(table) =>
        Success(Url(if n in table && table[n] != [] then table[n] else target))
    else
      var sp := SplitTarget(n);
      match Select(paths, sp.pure)
      case None => Success(Unresolved)
      case Some(k) => Success(Url(profile.host + ReplaceFirst(paths[k], ".md", "") + sp.hash))
  }

  /**
   * The whole `reduce`: one resolution per target, in order, or the
   * exception of the first target that throws.
   */
  function ResolveAll(targets: seq<string>, page: string, paths: seq<string>, profile: Profile): (r: Result<seq<Resolution>, Fault>)
    ensures r.Success? ==> |r.value| == |targets|
    ensures r.Success? ==> forall i :: 0 <= i < |targets| ==> ResolveTarget(targets[i], page, paths, profile) == Success(r.value[i])
    ensures r.Failure? <==> exists i :: 0 <= i < |targets| && ResolveTarget(targets[i], page, paths, profile).Failure?
    ensures r.Failure? ==> r.error == NoImageTable(profile.pkg)
  {
    AllOf(targets, t => ResolveTarget(t, page, paths, profile))
  }
}
