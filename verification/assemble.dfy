/**
 * The assembler of lib/get-all-zh-docs.js: each top-level sidebar entry
 * becomes one block of the merged document.  A bare path is read and
 * link-rewritten; a group gets its title as a level-one heading, and each of
 * its children is read, given its own title when it has one, link-rewritten,
 * and demoted one level under the group.
 *
 * The storage prefix of the package and the known page paths the rewriter
 * searches are parameters, and reading a file is the function `read`
 * (`None` when `readFile` rejects).
 */
module Assemble {
  import opened Wrappers
  import opened Strings
  import opened Nav
  import opened OnlinePaths
  import opened Faults
  import opened Headings
  import opened Scan
  import opened Resolve
  import opened Rewrite
  import opened Pages

  /** `docsConfPathMap` of lib/util.js: the packages the assembler supports and where their sidebar is configured. */
  const DocsConfPathMap: map<string, string> := map[
    "vuex" := "vuex/docs/.vitepress/config.js",
    "vue-router" := "vue-router/docs/.vuepress/config.js",
    "@pinia/root" := "pinia/packages/docs/.vitepress/config/zh.ts"
  ]

  /** `paddingSuffix`: a directory path names `README.md` on a VuePress site and `index.md` otherwise. */
  function PaddingSuffix(full: string, pkg: string): (r: string)
    requires pkg in DocsConfPathMap
    ensures r == full + "README.md" || r == full + "index.md"
    ensures r == full + "README.md" <==> Contains(DocsConfPathMap[pkg], ".vuepress")
  {
    if Contains(DocsConfPathMap[pkg], ".vuepress") then full + "README.md" else full + "index.md"
  }

  /** vue-router is the VuePress site: its directory paths name `README.md`. */
  lemma VueRouterReadme(full: string)
    ensures PaddingSuffix(full, "vue-router") == full + "README.md"
  {
    var cfg := DocsConfPathMap["vue-router"];
    assert cfg[16..25] == ".vuepress";
    ContainsAt(cfg, ".vuepress", 16);
  }

  /**
   * `addPathToFull(fsPath, pkgName)`: the storage file a configured path
   * names.  Every result is a Markdown file: a `.md` path is only prefixed,
   * a directory path gets its index page, and any other path gets `.md`
   * after its first `.html` (searched in the prefixed path) is dropped.
   */
  function AddPathToFull(fsPath: string, prefix: string, pkg: string): (r: string)
    requires pkg in DocsConfPathMap
    ensures EndsWith(r, ".md")
    ensures EndsWith(fsPath, ".md") ==> r == prefix + fsPath
    ensures (fsPath == [] || fsPath[|fsPath| - 1] == '/') ==> r == PaddingSuffix(prefix + fsPath, pkg)
    ensures (fsPath != [] && fsPath[|fsPath| - 1] != '/' && !EndsWith(fsPath, ".md")
             && !Contains(prefix + fsPath, ".html")) ==> r == prefix + fsPath + ".md"
  {
    LastSegmentSuffix(fsPath, ".md");
    LastSegmentEmpty(fsPath);
    var last := LastSegment(fsPath);
    var full := prefix + fsPath;
    if !EndsWith(last, ".md") then
      if last == [] then PaddingSuffix(full, pkg)
      else ReplaceFirst(full, ".html", "") + ".md"
    else
      EndsWithAfter(prefix, fsPath, ".md");
      full
  }

  /** A page linked with `.html` is stored in the same file as the page linked without it. */
  lemma HtmlLinkSameFile(p: string, prefix: string, pkg: string)
    requires pkg in DocsConfPathMap
    requires p != [] && p[|p| - 1] != '/' && !EndsWith(p, ".md")
    requires !Contains(prefix + p, ".html")
    ensures AddPathToFull(p + ".html", prefix, pkg) == AddPathToFull(p, prefix, pkg)
  {
    HtmlPathFile(p, prefix, pkg);
    assert AddPathToFull(p, prefix, pkg) == prefix + p + ".md";
  }

  lemma HtmlPathFile(p: string, prefix: string, pkg: string)
    requires pkg in DocsConfPathMap
    requires !Contains(prefix + p, ".html")
    ensures AddPathToFull(p + ".html", prefix, pkg) == prefix + p + ".md"
  {
    var x := prefix + p;
    var q := p + ".html";
    ConcatAssoc(prefix, p, ".html");
    assert AddPathToFull(q, prefix, pkg) == ReplaceFirst(prefix + q, ".html", "") + ".md" by {
      HtmlPathIsPlain(p);
      PlainPathFile(q, prefix, pkg);
    }
    assert ReplaceFirst(x + ".html", ".html", "") == x by {
      DropSeamHtml(x);
    }
  }

  lemma HtmlPathIsPlain(p: string)
    ensures var q := p + ".html"; q != [] && q[|q| - 1] != '/' && !EndsWith(q, ".md")
  {
    var q := p + ".html";
    assert q[|q| - 3..] == "tml";
    assert q[|q| - 1] == 'l';
  }

  /** A path that is neither a directory nor a `.md` file: `.md` after the first `.html` is dropped. */
  lemma PlainPathFile(fsPath: string, prefix: string, pkg: string)
    requires pkg in DocsConfPathMap
    requires fsPath != [] && fsPath[|fsPath| - 1] != '/' && !EndsWith(fsPath, ".md")
    ensures AddPathToFull(fsPath, prefix, pkg) == ReplaceFirst(prefix + fsPath, ".html", "") + ".md"
  {
    LastSegmentSuffix(fsPath, ".md");
    LastSegmentEmpty(fsPath);
  }

  /** Dropping the first `.html` of a text that ends in its only one gives the rest. */
  lemma DropSeamHtml(x: string)
    requires !Contains(x, ".html")
    ensures ReplaceFirst(x + ".html", ".html", "") == x
  {
    var s := x + ".html";
    assert ".html"[1..] == "html";
    FirstAtSeam(x, ".html");
    assert FirstAt(s, ".html", |x|);
    ReplaceFirstAt(s, ".html", "", |x|);
    assert s[..|x|] == x;
    assert s[|x| + 5..] == [];
  }

  /** A pattern whose first character does not recur in it is found first where it is appended to a text that lacks it. */
  lemma FirstAtSeam(x: string, p: string)
    requires p != [] && !Contains(x, p)
    requires p[0] !in p[1..]
    ensures IndexOf(x + p, p) == |x|
  {
    var s := x + p;
    OccursAppended(x, p);
    var r := IndexOf(s, p);
    if 0 <= r < |x| {
      if r + |p| <= |x| {
        SliceOfFirst(x, p, r, r + |p|);
        assert OccursAt(x, p, r);
      }
    }
  }

  /** The storage file a child is read from. */
  function ChildFile(child: NavNode, prefix: string, pkg: string): string
    requires pkg in DocsConfPathMap
  {
    AddPathToFull(ChildPath(child), prefix, pkg)
  }

  /**
   * One step of the `map` in `childTxtHandler`: read the child's file, give
   * it its title, rewrite its links against the child's own path.  `None` is
   * the `undefined` the rewriter returns for an empty text.
   */
  function ChildText(child: NavNode, prefix: string, pkg: string, read: string -> Option<string>,
                     paths: seq<string>, profile: Profile): (r: Result<Option<string>, Fault>)
    requires pkg in DocsConfPathMap
    ensures read(ChildFile(child, prefix, pkg)).None? <==> r == Failure(PageNotFound(ChildFile(child, prefix, pkg)))
    ensures r == Success(None) <==> read(ChildFile(child, prefix, pkg)) == Some([]) && !HasTitle(child)
    ensures read(ChildFile(child, prefix, pkg)).Some? ==>
      var page := TitledPage(child, read(ChildFile(child, prefix, pkg)).value, WordStart);
      (r.Failure? <==> page != [] && ResolveAll(CollectTargets(page), ChildPath(child), paths, profile).Failure?)
  {
    var full := ChildFile(child, prefix, pkg);
    match read(full)
    case None => Failure(PageNotFound(full))
    case Some(str) => HandleLinks(TitledPage(child, str, WordStart), ChildPath(child), paths, profile)
  }

  /**
   * A titled child whose page opens with a heading and holds no link or
   * image tag comes out as its title followed by the page, that heading one
   * level deeper.
   */
  lemma TitledChildHeadingShift(child: NavNode, prefix: string, pkg: string, read: string -> Option<string>,
                                paths: seq<string>, profile: Profile, k: nat, rest: string)
    requires pkg in DocsConfPathMap && HasTitle(child)
    requires read(ChildFile(child, prefix, pkg)) == Some(Repeat('#', k) + rest)
    requires k >= 1 && (rest == [] || rest[0] != '#')
    requires '(' !in TitleText(child) && '<' !in TitleText(child) && '(' !in rest && '<' !in rest
    ensures ChildText(child, prefix, pkg, read, paths, profile)
         == Success(Some("# " + TitleText(child) + "\n\n" + Repeat('#', k + 1) + DemoteFrom(rest, false, WordStart)))
  {
    var title := TitleText(child);
    var tail := DemoteFrom(rest, false, WordStart);
    var page := "# " + title + "\n\n" + Repeat('#', k + 1) + tail;
    assert TitledPage(child, Repeat('#', k) + rest, WordStart) == page by {
      DemoteHeading(k, rest, WordStart);
      ConcatAssoc("# " + title + "\n\n", Repeat('#', k + 1), tail);
    }
    DemoteKeepsChars(rest, false, WordStart, '(');
    DemoteKeepsChars(rest, false, WordStart, '<');
    HeadingPageLacks(title, k + 1, tail, '(');
    HeadingPageLacks(title, k + 1, tail, '<');
    PlainPageUnchanged(page, ChildPath(child), paths, profile);
    assert ChildText(child, prefix, pkg, read, paths, profile) == HandleLinks(page, ChildPath(child), paths, profile);
  }

  /** A character that is not part of the heading syntax and is absent from the title and the tail is absent from the page. */
  lemma HeadingPageLacks(title: string, k: nat, tail: string, c: char)
    requires c != '#' && c != ' ' && c != '\n' && c !in title && c !in tail
    ensures c !in "# " + title + "\n\n" + Repeat('#', k) + tail
  {
  }

  /** The texts as strings, or the TypeError `str.replace` raises on the first `undefined`. */
  function Defined(xs: seq<Option<string>>): (r: Result<seq<string>, Fault>)
    ensures r.Success? <==> forall i :: 0 <= i < |xs| ==> xs[i].Some?
    ensures r.Success? ==> |r.value| == |xs| && forall i :: 0 <= i < |xs| ==> xs[i] == Some(r.value[i])
    ensures r.Failure? ==> r.error == UndefinedPageText
  {
    if xs == [] then Success([])
    else
      assert forall i :: 1 <= i < |xs| ==> xs[i] == xs[1..][i - 1];
      if xs[0].None? then Failure(UndefinedPageText)
      else
        var tail := Defined(xs[1..]);
        if tail.Failure? then Failure(UndefinedPageText)
        else Success([xs[0].value] + tail.value)
  }

  /** A child text that stops its group: an exception, or the `undefined` of an empty page. */
  predicate Breaks(c: Result<Option<string>, Fault>) {
    c.Failure? || c == Success(None)
  }

  /**
   * The group step for any child-text function `f`: every child's text in
   * order (the first exception wins), then the first `undefined` stops the
   * demotion; otherwise the title and the demoted texts joined by blank
   * lines.
   */
  function TitledGroup(title: string, children: seq<NavNode>, f: NavNode -> Result<Option<string>, Fault>): (r: Result<string, Fault>)
    ensures r.Failure? <==> exists i :: 0 <= i < |children| && Breaks(f(children[i]))
    ensures ((forall i :: 0 <= i < |children| ==> f(children[i]).Success?) && r.Failure?) ==> r.error == UndefinedPageText
    ensures r.Success? ==> exists texts: seq<string> ::
      |texts| == |children|
      && (forall i :: 0 <= i < |texts| ==> f(children[i]) == Success(Some(texts[i])))
      && r.value == Join(AddSelectedTitle(title, texts, WordStart), "\n\n")
  {
    var texts :- AllOf(children, f);
    var strs :- Defined(texts);
    Success(Join(AddSelectedTitle(title, strs, WordStart), "\n\n"))
  }

  /**
   * `childTxtHandler(pathConf, pkgName)` for a group: the group's title as
   * a level-one heading, then every child text demoted one level, joined by
   * blank lines.
   */
  function GroupText(group: NavNode, prefix: string, pkg: string, read: string -> Option<string>,
                     paths: seq<string>, profile: Profile): (r: Result<string, Fault>)
    requires group.Obj? && pkg in DocsConfPathMap
    ensures r.Failure? <==>
      exists i :: 0 <= i < |ChildList(group)| && Breaks(ChildText(ChildList(group)[i], prefix, pkg, read, paths, profile))
    ensures ((forall i :: 0 <= i < |ChildList(group)| ==> ChildText(ChildList(group)[i], prefix, pkg, read, paths, profile).Success?)
             && r.Failure?) ==> r.error == UndefinedPageText
    ensures r.Success? ==> exists texts: seq<string> ::
      |texts| == |ChildList(group)|
      && (forall i :: 0 <= i < |texts| ==> ChildText(ChildList(group)[i], prefix, pkg, read, paths, profile) == Success(Some(texts[i])))
      && r.value == Join(AddSelectedTitle(TitleText(group), texts, WordStart), "\n\n")
  {
    TitledGroup(TitleText(group), ChildList(group), c => ChildText(c, prefix, pkg, read, paths, profile))
  }

  /** A group without children is its title alone. */
  lemma EmptyGroupIsTitle(group: NavNode, prefix: string, pkg: string, read: string -> Option<string>,
                          paths: seq<string>, profile: Profile)
    requires group.Obj? && group.children == [] && group.items == [] && pkg in DocsConfPathMap
    ensures GroupText(group, prefix, pkg, read, paths, profile) == Success("# " + TitleText(group))
  {
  }

  /** One top-level entry: a group's text, or a bare path read from prefix ++ path and rewritten. */
  function EntryText(conf: NavNode, prefix: string, pkg: string, read: string -> Option<string>,
                     paths: seq<string>, profile: Profile): (r: Result<Option<string>, Fault>)
    requires pkg in DocsConfPathMap
    ensures conf.Obj? ==> (r.Success? <==> GroupText(conf, prefix, pkg, read, paths, profile).Success?)
    ensures conf.Obj? && r.Success? ==> r.value == Some(GroupText(conf, prefix, pkg, read, paths, profile).value)
    ensures conf.Str? && read(prefix + conf.s).None? ==> r == Failure(PageNotFound(prefix + conf.s))
    ensures conf.Str? && read(prefix + conf.s) == Some([]) ==> r == Success(None)
    ensures conf.Str? && read(prefix + conf.s).Some? ==>
      (r.Failure? <==> read(prefix + conf.s).value != []
                       && ResolveAll(CollectTargets(read(prefix + conf.s).value), conf.s, paths, profile).Failure?)
  {
    match conf
    case Obj(_, _, _, _, _) =>
      var text :- GroupText(conf, prefix, pkg, read, paths, profile);
      Success(Some(text))
    case Str(s) =>
      match read(prefix + s)
      case None => Failure(PageNotFound(prefix + s))
      case Some(str) => HandleLinks(str, s, paths, profile)
  }

  /** `Array.prototype.join` prints `undefined` as the empty string. */
  function Printed(xs: seq<Option<string>>): (r: seq<string>)
    ensures |r| == |xs|
    ensures forall i :: 0 <= i < |xs| ==> r[i] == xs[i].GetOr([])
  {
    if xs == [] then [] else [xs[0].GetOr([])] + Printed(xs[1..])
  }

  /** The merged document and the file it is written to. */
  datatype Output = Output(name: string, text: string)

  /** The file name the merged document is written to. */
  function OutputName(pkg: string): string {
    "./" + OutputStem(pkg) + "-all-zh-docs.md"
  }

  /**
   * `mergeDocs(pkg)` after the sidebar `docsConf` has been loaded: an
   * unsupported package throws; otherwise every entry's text, in order,
   * joined by newlines, or the first entry's exception.
   */
  function MergeDocs(pkg: string, docsConf: seq<NavNode>, prefix: string, read: string -> Option<string>,
                     paths: seq<string>): (r: Result<Output, Fault>)
    ensures pkg !in DocsConfPathMap ==> r == Failure(ConfigNotSupported(pkg))
    ensures pkg in DocsConfPathMap ==>
      (r.Failure? <==> exists i :: 0 <= i < |docsConf| && EntryText(docsConf[i], prefix, pkg, read, paths, ProfileFor(pkg)).Failure?)
    ensures r.Success? ==> r.value.name == OutputName(pkg)
    ensures r.Success? ==> exists texts: seq<Option<string>> ::
      |texts| == |docsConf|
      && (forall i :: 0 <= i < |docsConf| ==> EntryText(docsConf[i], prefix, pkg, read, paths, ProfileFor(pkg)) == Success(texts[i]))
      && r.value.text == Join(Printed(texts), "\n")
  {
    if pkg !in DocsConfPathMap then Failure(ConfigNotSupported(pkg))
    else
      var profile := ProfileFor(pkg);
      var texts :- AllOf(docsConf, c => EntryText(c, prefix, pkg, read, paths, profile));
      Success(Output(OutputName(pkg), Join(Printed(texts), "\n")))
  }
}
