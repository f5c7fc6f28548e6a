/**
 * The root-level assembler get-all-zh-docs.js, the predecessor of the lib/
 * one: it knows two more packages, reads bare paths without rewriting their
 * links, demotes every run of `#`, and counts pages with the truthy-`link`
 * loop.  Its `paddingSuffix` reads a `pkgName` that is not in scope, so a
 * directory path throws.
 */
module RootAssemble {
  import opened Wrappers
  import opened Strings
  import opened Nav
  import opened Faults
  import opened Headings
  import opened Pages
  import Assemble

  /** `docsConfPathMap` of the root-level assembler. */
  const RootDocsConfPathMap: map<string, string> := map[
    "vuex" := "vuex-docs/docs/.vitepress/config.js",
    "vue-router" := "vue-router/docs/.vuepress/config.js",
    "@pinia/root" := "pinia/packages/docs/.vitepress/config/zh.ts",
    "vite-docs-cn" := "docs-cn/.vitepress/config.ts",
    "" := "docs-zh-cn/.vitepress/config.ts"
  ]

  /** `accessPathPrefixMap`: where each package's Markdown sources are stored. */
  const RootPrefixMap: map<string, string> := map[
    "vuex" := "vuex-docs/docs",
    "vue-router" := "vue-router/docs",
    "@pinia/root" := "pinia/packages/docs",
    "vite-docs-cn" := "docs-cn",
    "" := "docs-zh-cn/src"
  ]

  /**
   * `addPathToFull(fsPath, pkgName)`: a `.md` path is only prefixed, a
   * directory path throws in `paddingSuffix`, and any other path gets `.md`
   * appended as it is (an `.html` stays in the name).
   */
  function RootAddPathToFull(fsPath: string, pkg: string): (r: Result<string, Fault>)
    requires pkg in RootPrefixMap
    ensures r.Failure? <==> fsPath == [] || fsPath[|fsPath| - 1] == '/'
    ensures r.Failure? ==> r.error == UnboundPkgName
    ensures EndsWith(fsPath, ".md") ==> r == Success(RootPrefixMap[pkg] + fsPath)
    ensures r.Success? && !EndsWith(fsPath, ".md") ==> r.value == RootPrefixMap[pkg] + fsPath + ".md"
  {
    LastSegmentSuffix(fsPath, ".md");
    LastSegmentEmpty(fsPath);
    var last := LastSegment(fsPath);
    var full := RootPrefixMap[pkg] + fsPath;
    if !EndsWith(last, ".md") then
      if last == [] then Failure(UnboundPkgName)
      else Success(full + ".md")
    else Success(full)
  }

  /** Every file the root-level assembler reads for a child is a Markdown file under the package's prefix. */
  lemma RootFileIsMarkdown(fsPath: string, pkg: string)
    requires pkg in RootPrefixMap
    requires RootAddPathToFull(fsPath, pkg).Success?
    ensures StartsWith(RootAddPathToFull(fsPath, pkg).value, RootPrefixMap[pkg])
    ensures EndsWith(RootAddPathToFull(fsPath, pkg).value, ".md")
  {
    var full := RootPrefixMap[pkg] + fsPath;
    if !EndsWith(fsPath, ".md") {
      EndsWithAfter(full, ".md", ".md");
      assert full + ".md" == RootPrefixMap[pkg] + (fsPath + ".md");
    } else {
      EndsWithAfter(RootPrefixMap[pkg], fsPath, ".md");
    }
  }

  /**
   * On a path that is not a directory and holds no `.html`, the root-level
   * rule names the same file as the lib/ one given the same prefix.
   */
  lemma AgreesWithLibRule(fsPath: string, pkg: string, libPkg: string)
    requires pkg in RootPrefixMap && libPkg in Assemble.DocsConfPathMap
    requires fsPath != [] && fsPath[|fsPath| - 1] != '/'
    requires !Contains(RootPrefixMap[pkg] + fsPath, ".html")
    ensures RootAddPathToFull(fsPath, pkg) == Success(Assemble.AddPathToFull(fsPath, RootPrefixMap[pkg], libPkg))
  {
  }

  /** A directory link, such as the `/guide/` of a sidebar group, makes the child throw. */
  lemma DirectoryLinkThrows(child: NavNode, pkg: string, read: string -> Option<string>)
    requires pkg in RootPrefixMap
    requires child.Obj? && (child.link.None? || child.link == Some("/guide/"))
    ensures RootChildText(child, pkg, read) == Failure(UnboundPkgName)
  {
  }

  /**
   * One step of the `map` in `childTxtHandler`: the child's file, read,
   * with the child's title put in front when it has one.
   */
  function RootChildText(child: NavNode, pkg: string, read: string -> Option<string>): (r: Result<string, Fault>)
    requires pkg in RootPrefixMap
    ensures RootAddPathToFull(ChildPath(child), pkg).Failure? ==> r == Failure(UnboundPkgName)
    ensures RootAddPathToFull(ChildPath(child), pkg).Success? ==>
      var full := RootAddPathToFull(ChildPath(child), pkg).value;
      (read(full).None? ==> r == Failure(PageNotFound(full)))
      && (read(full).Some? ==> r == Success(TitledPage(child, read(full).value, Anywhere)))
  {
    var full :- RootAddPathToFull(ChildPath(child), pkg);
    match read(full)
    case None => Failure(PageNotFound(full))
    case Some(str) => Success(TitledPage(child, str, Anywhere))
  }

  /**
   * A titled child whose file opens with a level-`k` heading comes out as
   * its title at level one, a blank line, and that heading at level `k + 1`,
   * the rest of the page demoted with every `#` run.
   */
  lemma RootTitledChildHeadingShift(child: NavNode, pkg: string, read: string -> Option<string>, k: nat, rest: string)
    requires pkg in RootPrefixMap && HasTitle(child)
    requires RootAddPathToFull(ChildPath(child), pkg).Success?
    requires read(RootAddPathToFull(ChildPath(child), pkg).value) == Some(Repeat('#', k) + rest)
    requires k >= 1 && (rest == [] || rest[0] != '#')
    ensures RootChildText(child, pkg, read)
         == Success("# " + TitleText(child) + "\n\n" + Repeat('#', k + 1) + DemoteFrom(rest, false, Anywhere))
  {
    DemoteHeading(k, rest, Anywhere);
    ConcatAssoc("# " + TitleText(child) + "\n\n", Repeat('#', k + 1), DemoteFrom(rest, false, Anywhere));
  }

  /**
   * `childTxtHandler(pathConf, pkgName)`: the group's title as a level-one
   * heading, then every child text demoted one more level, joined by blank
   * lines; or the exception of the first child that throws.
   */
  function RootGroupText(group: NavNode, pkg: string, read: string -> Option<string>): (r: Result<string, Fault>)
    requires group.Obj? && pkg in RootPrefixMap
    ensures r.Failure? <==> exists i :: 0 <= i < |ChildList(group)| && RootChildText(ChildList(group)[i], pkg, read).Failure?
    ensures r.Success? ==> exists texts: seq<string> ::
      |texts| == |ChildList(group)|
      && (forall i :: 0 <= i < |texts| ==> RootChildText(ChildList(group)[i], pkg, read) == Success(texts[i]))
      && r.value == Join(AddSelectedTitle(TitleText(group), texts, Anywhere), "\n\n")
  {
    GroupOf(TitleText(group), ChildList(group), c => RootChildText(c, pkg, read), Anywhere)
  }

  /** One top-level entry: a group's text, or a bare path read from prefix ++ path as it is. */
  function RootEntryText(conf: NavNode, pkg: string, read: string -> Option<string>): (r: Result<string, Fault>)
    requires pkg in RootPrefixMap
    ensures conf.Obj? ==> r == RootGroupText(conf, pkg, read)
    ensures conf.Str? && read(RootPrefixMap[pkg] + conf.s).None? ==> r == Failure(PageNotFound(RootPrefixMap[pkg] + conf.s))
    ensures conf.Str? && read(RootPrefixMap[pkg] + conf.s).Some? ==> r == Success(read(RootPrefixMap[pkg] + conf.s).value)
  {
    match conf
    case Obj(_, _, _, _, _) => RootGroupText(conf, pkg, read)
    case Str(s) =>
      match read(RootPrefixMap[pkg] + s)
      case None => Failure(PageNotFound(RootPrefixMap[pkg] + s))
      case Some(str) => Success(str)
  }

  /** The merged document, the file it is written to, and the page count the log reports. */
  datatype RootOutput = RootOutput(name: string, text: string, count: nat)

  /**
   * `mergeDocs(pkg)` after the sidebar `docsConf` has been loaded: an
   * unsupported package throws; otherwise the entries' texts joined by
   * newlines, written to `<stem>-all-zh-docs.md`, and the pages counted by
   * draining `docsConf`.
   */
  method RootMergeDocs(pkg: string, docsConf: seq<NavNode>, read: string -> Option<string>) returns (r: Result<RootOutput, Fault>)
    ensures pkg !in RootDocsConfPathMap ==> r == Failure(ConfigNotSupported(pkg))
    ensures pkg in RootDocsConfPathMap ==>
      (r.Failure? <==> exists i :: 0 <= i < |docsConf| && RootEntryText(docsConf[i], pkg, read).Failure?)
    ensures r.Success? ==> r.value.name == OutputStem(pkg) + "-all-zh-docs.md"
    ensures r.Success? ==> r.value.count == TruthyCount(docsConf)
    ensures r.Success? ==> exists texts: seq<string> ::
      |texts| == |docsConf|
      && (forall i :: 0 <= i < |docsConf| ==> RootEntryText(docsConf[i], pkg, read) == Success(texts[i]))
      && r.value.text == Join(texts, "\n")
  {
    if pkg !in RootDocsConfPathMap {
      return Failure(ConfigNotSupported(pkg));
    }
    var all := AllOf(docsConf, c => RootEntryText(c, pkg, read));
    if all.Failure? {
      return Failure(all.error);
    }
    var rest, count := CountPagesTruthy(docsConf);
    r := Success(RootOutput(OutputStem(pkg) + "-all-zh-docs.md", Join(all.value, "\n"), count));
  }
}
