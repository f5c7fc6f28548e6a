/**
 * Per-package data of the link rewriter (lib/handle-relative-links.js) and
 * the per-package exceptions where a page stored as `.md` is served under a
 * `.html` URL (`handlePathDiffInOnlineAndFile` in lib/util.js and its
 * predecessor `handlePaths` in lib/handle-links.js).
 */
module OnlinePaths {
  import opened Wrappers
  import opened Strings

  /** `hostMap` of lib/handle-relative-links.js. */
  const HostMap: map<string, string> := map[
    "vuex" := "https://vuex.vuejs.org",
    "vue-router" := "https://v3.router.vuejs.org",
    "@pinia/root" := "https://pinia.vuejs.org"
  ]

  /** `imgOnlineMap` of lib/handle-relative-links.js: only vuex has an image table. */
  const ImgOnlineMap: map<string, map<string, string>> := map[
    "vuex" := map[
      "/flow.png" := "https://vuex.vuejs.org/flow.png",
      "/vuex.png" := "https://vuex.vuejs.org/vuex.png"
    ]
  ]

  /**
   * What the rewriter knows about one package: its name (which selects the
   * path exceptions), its public host, and its image table if it has one.
   */
  datatype Profile = Profile(pkg: string, host: string, images: Option<map<string, string>>)

  /**
   * The profile the module-level tables give a package.  A package missing
   * from `hostMap` gets the host text `undefined`, which is what a template
   * literal prints for a missing key.
   */
  function ProfileFor(pkg: string): (p: Profile)
    ensures p.pkg == pkg
    ensures pkg in HostMap <==> p.host != "undefined"
    ensures p.images.Some? <==> pkg == "vuex"
  {
    Profile(pkg,
            if pkg in HostMap then HostMap[pkg] else "undefined",
            if pkg in ImgOnlineMap then Some(ImgOnlineMap[pkg]) else None)
  }

  /** `paths.findIndex(p => p.includes(needle))`. */
  function FirstContainingFrom(paths: seq<string>, needle: string, i: nat): (k: int)
    requires i <= |paths|
    decreases |paths| - i
    ensures k == -1 || (i <= k < |paths| && Contains(paths[k], needle))
    ensures forall j :: i <= j < |paths| && (k == -1 || j < k) ==> !Contains(paths[j], needle)
  {
    if i == |paths| then -1
    else if Contains(paths[i], needle) then i
    else FirstContainingFrom(paths, needle, i + 1)
  }

  function FirstContaining(paths: seq<string>, needle: string): (k: int)
    ensures k == -1 || (0 <= k < |paths| && Contains(paths[k], needle))
    ensures forall j :: 0 <= j < |paths| && (k == -1 || j < k) ==> !Contains(paths[j], needle)
  {
    FirstContainingFrom(paths, needle, 0)
  }

  const DynamicMatching := "dynamic-matching.md"
  const Migrating := "migrating-to-4-0-from-3-x"

  lemma DynamicMatchingHasMd(x: string)
    requires Contains(x, DynamicMatching)
    ensures Contains(x, ".md")
  {
    var i :| OccursAt(x, DynamicMatching, i);
    var w := x[i..i + 19];
    assert w == DynamicMatching;
    assert x[i + 16] == w[16] == '.' && x[i + 17] == w[17] == 'm' && x[i + 18] == w[18] == 'd';
    assert x[i + 16..i + 19] == ".md";
    assert OccursAt(x, ".md", i + 16);
  }

  /**
   * The vue-router exception: the first path mentioning
   * `dynamic-matching.md` has its first `.md` turned into `.html`; every other
   * path, and the length of the list, stay the same.
   */
  function VueRouterFix(paths: seq<string>): (r: seq<string>)
    ensures |r| == |paths|
    ensures forall i :: 0 <= i < |paths| && i != FirstContaining(paths, DynamicMatching) ==> r[i] == paths[i]
    ensures var k := FirstContaining(paths, DynamicMatching);
      k >= 0 ==> (Contains(paths[k], ".md") &&
        forall i :: FirstAt(paths[k], ".md", i) ==> r[k] == paths[k][..i] + ".html" + paths[k][i + 3..])
  {
    var k := FirstContaining(paths, DynamicMatching);
    if k < 0 then paths
    else
      DynamicMatchingHasMd(paths[k]);
      ReplaceFirstEvery(paths[k], ".md", ".html");
      paths[k := ReplaceFirst(paths[k], ".md", ".html")]
  }

  /**
   * The vuex rewrite of one path: its first `.md` becomes `.html`, and
   * `.html` is appended when the result does not then end in `.html`.
   */
  function VuexPath(p: string): (q: string)
    ensures EndsWith(q, ".html")
    ensures !Contains(p, ".md") ==> q == if EndsWith(p, ".html") then p else p + ".html"
    ensures forall i :: FirstAt(p, ".md", i) ==>
      var fixed := p[..i] + ".html" + p[i + 3..];
      q == if EndsWith(fixed, ".html") then fixed else fixed + ".html"
  {
    var fixed := ReplaceFirst(p, ".md", ".html");
    ReplaceFirstEvery(p, ".md", ".html");
    if EndsWith(fixed, ".html") then fixed
    else
      assert (fixed + ".html")[|fixed|..] == ".html";
      fixed + ".html"
  }

  /**
   * The vuex exception: the first path mentioning
   * `migrating-to-4-0-from-3-x` is rewritten by `VuexPath`; every other
   * path, and the length of the list, stay the same.
   */
  function VuexFix(paths: seq<string>): (r: seq<string>)
    ensures |r| == |paths|
    ensures forall i :: 0 <= i < |paths| && i != FirstContaining(paths, Migrating) ==> r[i] == paths[i]
    ensures var k := FirstContaining(paths, Migrating);
      k >= 0 ==> r[k] == VuexPath(paths[k])
  {
    var k := FirstContaining(paths, Migrating);
    if k < 0 then paths else paths[k := VuexPath(paths[k])]
  }

  /**
   * `handlePathDiffInOnlineAndFile(paths, pkgName)`, as a function of the
   * list it mutates in place: one exception for vue-router, one for vuex,
   * none for any other package.  At most one element ever changes.
   */
  function HandlePathDiff(paths: seq<string>, pkg: string): (r: seq<string>)
    ensures |r| == |paths|
    ensures forall i, j :: 0 <= i < j < |paths| ==> r[i] == paths[i] || r[j] == paths[j]
    ensures pkg != "vue-router" && pkg != "vuex" ==> r == paths
  {
    if pkg == "vue-router" then VueRouterFix(paths)
    else if pkg == "vuex" then VuexFix(paths)
    else paths
  }

  /** `handlePaths(paths, pkgName)`: the earlier hook, which only knows the vue-router exception. */
  function HandlePaths(paths: seq<string>, pkg: string): (r: seq<string>)
    ensures |r| == |paths|
    ensures forall i :: 0 <= i < |paths| && i != FirstContaining(paths, DynamicMatching) ==> r[i] == paths[i]
    ensures pkg != "vue-router" ==> r == paths
  {
    if pkg == "vue-router" then VueRouterFix(paths) else paths
  }

  /** The public path of the page being rewritten: its configured path after the exceptions. */
  function PublicPath(page: string, pkg: string): string {
    HandlePathDiff([page], pkg)[0]
  }

  /** The two hooks agree on every package except vuex, whose exception only the later one knows. */
  lemma HooksAgreeExceptVuex(paths: seq<string>, pkg: string)
    requires pkg != "vuex"
    ensures HandlePaths(paths, pkg) == HandlePathDiff(paths, pkg)
  {
  }
}
