/**
 * The ES-module assembler ts-get-all-zh-docs.js: like the root-level one,
 * but its storage rule cuts a path at its first `.`, its `paddingSuffix`
 * is inlined (so directory paths work), and every child page loses the
 * `%…%` badges that follow a `#` on the same line.
 */
module TsAssemble {
  import opened Wrappers
  import opened Strings
  import opened Nav
  import opened Faults
  import opened Headings
  import opened Pages

  /** `docsConfPathMap` of the ES-module assembler. */
  const TsDocsConfPathMap: map<string, string> := map[
    "vuex" := "vuex-docs/docs/.vitepress/config.js",
    "vue-router" := "vue-router/docs/.vuepress/config.js",
    "@pinia/root" := "pinia/packages/docs/.vitepress/config/zh.ts",
    "" := "docs-zh-cn/.vitepress/config.ts"
  ]

  /** `accessPathPrefixMap` of the ES-module assembler. */
  const TsPrefixMap: map<string, string> := map[
    "vuex" := "vuex-docs/docs",
    "vue-router" := "vue-router/docs",
    "@pinia/root" := "pinia/packages/docs",
    "" := "docs-zh-cn/src"
  ]

  /**
   * `s.replace(/[.].+/, '')`: from the first `.` that has a non-terminator
   * after it, to the end of that line, is deleted.
   */
  function CutAtDot(s: string): (r: string)
    ensures '.' !in s ==> r == s
    ensures |r| <= |s|
    ensures OneLine(s) ==> StartsWith(s, r)
  {
    var j := RunStart(s, '.', 0);
    if j == -1 then s
    else
      var e := LineEnd(s, j + 1);
      assert OneLine(s) ==> e == |s| by {
        if OneLine(s) { LineEndAtEnd(s, j + 1); }
      }
      s[..j] + s[e..]
  }

  /** On one line, the cut keeps exactly what comes before the first `.` that is not the last character. */
  lemma CutAtFirstDot(a: string, rest: string)
    requires '.' !in a && rest != [] && OneLine(rest)
    ensures CutAtDot(a + "." + rest) == a
  {
    var s := a + "." + rest;
    assert s[|a|] == '.' && s[|a| + 1] == rest[0];
    forall m | 0 <= m < |a| ensures s[m] != '.' {
      assert s[m] == a[m];
      assert a[m] in a;
    }
    RunStartReaches(s, '.', 0, |a|);
    forall m | |a| + 1 <= m < |s| ensures !IsLineTerminator(s[m]) {
      assert s[m] == rest[m - |a| - 1];
    }
    LineEndAtEnd(s, |a| + 1);
    assert s[..|a|] == a;
  }

  /** The suffix a directory path gets: `README.md` on the VuePress site, `index.md` elsewhere. */
  function TsSuffix(pkg: string): (r: string)
    requires pkg in TsDocsConfPathMap
    ensures r == "README.md" || r == "index.md"
    ensures r == "README.md" <==> Contains(TsDocsConfPathMap[pkg], ".vuepress")
  {
    if Contains(TsDocsConfPathMap[pkg], ".vuepress") then "README.md" else "index.md"
  }

  /**
   * `addPathToFull(fsPath, pkgName)`: a `.md` path is only prefixed; any
   * other path is cut at its first `.` and prefixed, then gets the index
   * page when its last segment is empty and `.md` otherwise.
   */
  function TsAddPathToFull(fsPath: string, pkg: string): (r: string)
    requires pkg in TsPrefixMap
    ensures EndsWith(r, ".md")
    ensures EndsWith(fsPath, ".md") ==> r == TsPrefixMap[pkg] + fsPath
    ensures (fsPath == [] || fsPath[|fsPath| - 1] == '/') ==> r == TsPrefixMap[pkg] + CutAtDot(fsPath) + TsSuffix(pkg)
    ensures (fsPath != [] && fsPath[|fsPath| - 1] != '/' && !EndsWith(fsPath, ".md")) ==>
      r == TsPrefixMap[pkg] + CutAtDot(fsPath) + ".md"
  {
    LastSegmentSuffix(fsPath, ".md");
    LastSegmentEmpty(fsPath);
    var last := LastSegment(fsPath);
    if !EndsWith(last, ".md") then
      var full := TsPrefixMap[pkg] + CutAtDot(fsPath);
      if last == [] then
        var suffix := TsSuffix(pkg);
        assert EndsWith(suffix, ".md") by {
          assert "README.md"[6..] == ".md" && "index.md"[5..] == ".md";
        }
        EndsWithAfter(full, suffix, ".md");
        full + suffix
      else
        EndsWithAfter(full, ".md", ".md");
        full + ".md"
    else
      EndsWithAfter(TsPrefixMap[pkg], fsPath, ".md");
      TsPrefixMap[pkg] + fsPath
  }

  /**
   * A one-line path with a `.` in it names the file of whatever precedes
   * the first `.`: `guide/api.html` is stored as `guide/api.md`, and
   * `guide/v2.0/intro` as `guide/v2.md`.
   */
  lemma CutPathFile(a: string, rest: string, pkg: string)
    requires pkg in TsPrefixMap
    requires '.' !in a && rest != [] && OneLine(rest)
    requires rest[|rest| - 1] != '/' && !EndsWith(a + "." + rest, ".md")
    ensures TsAddPathToFull(a + "." + rest, pkg) == TsPrefixMap[pkg] + a + ".md"
  {
    CutAtFirstDot(a, rest);
    assert (a + "." + rest)[|a + "." + rest| - 1] == rest[|rest| - 1];
  }

  /** As in the lib/ rule, a page linked with `.html` is stored in the same file as the page linked without it. */
  lemma TsHtmlLinkSameFile(p: string, pkg: string)
    requires pkg in TsPrefixMap
    requires p != [] && p[|p| - 1] != '/' && '.' !in p
    ensures TsAddPathToFull(p + ".html", pkg) == TsAddPathToFull(p, pkg)
  {
    assert TsAddPathToFull(p + ".html", pkg) == TsPrefixMap[pkg] + p + ".md" by {
      assert p + ".html" == p + "." + "html";
      assert "html"[3] == 'l';
      assert (p + ".html")[|p| + 2..] == "tml";
      CutPathFile(p, "html", pkg);
    }
    assert TsAddPathToFull(p, pkg) == TsPrefixMap[pkg] + p + ".md" by {
      NoDotNotMd(p);
    }
  }

  lemma NoDotNotMd(p: string)
    requires '.' !in p
    ensures !EndsWith(p, ".md")
  {
    if |p| >= 3 {
      assert p[|p| - 3] in p;
      assert p[|p| - 3..][0] == p[|p| - 3];
    }
  }

  /**
   * The start of the line that holds index `i` (the index just after the
   * last line terminator before `i`).
   */
  function LineStartBefore(s: string, i: nat): (ls: nat)
    requires i <= |s|
    ensures ls <= i
    ensures forall m :: ls <= m < i ==> !IsLineTerminator(s[m])
    ensures ls > 0 ==> IsLineTerminator(s[ls - 1])
  {
    if i == 0 || IsLineTerminator(s[i - 1]) then i else LineStartBefore(s, i - 1)
  }

  /** The lookbehind `(?<=(#.+?))`: a `#` earlier on the same line, with at least one character between it and `i`. */
  predicate HashBehind(s: string, i: nat)
    requires i <= |s|
  {
    var ls := LineStartBefore(s, i);
    i >= 1 && ls <= i - 1 && '#' in s[ls..i - 1]
  }

  /** The first `%` at or after `k` on the same line, or -1. */
  function PercentClose(s: string, k: nat): (m: int)
    requires k <= |s|
    decreases |s| - k
    ensures m == -1 || (k <= m < |s| && s[m] == '%')
    ensures m >= 0 ==> forall j :: k <= j < m ==> !IsLineTerminator(s[j]) && s[j] != '%'
  {
    if k == |s| || IsLineTerminator(s[k]) then -1
    else if s[k] == '%' then k
    else PercentClose(s, k + 1)
  }

  /** `\%.+?\%` at a `%`: the index of the closing `%`, at least two characters on, or -1. */
  function BadgeEnd(s: string, i: nat): (m: int)
    requires i < |s|
    ensures m == -1 || (i + 2 <= m < |s| && s[m] == '%')
  {
    if i + 2 <= |s| && !IsLineTerminator(s[i + 1]) then PercentClose(s, i + 2) else -1
  }

  /** The global scan from `i`: a badge is dropped and the scan resumes after it; anything else is copied. */
  function StripBadgesFrom(s: string, i: nat): (r: string)
    requires i <= |s|
    decreases |s| - i
    ensures |r| <= |s| - i
  {
    if i == |s| then []
    else if s[i] == '%' && HashBehind(s, i) && BadgeEnd(s, i) >= 0 then StripBadgesFrom(s, BadgeEnd(s, i) + 1)
    else [s[i]] + StripBadgesFrom(s, i + 1)
  }

  /** `str.replace(/(?<=(#.+?))\%.+?\%/g, '')`: the pinia headings' `%…%` badges are removed. */
  function StripBadges(s: string): (r: string)
    ensures |r| <= |s|
  {
    StripBadgesFrom(s, 0)
  }

  /** Only a `%` can start a badge. */
  lemma {:induction false} NoPercentKept(s: string, i: nat)
    requires i <= |s| && '%' !in s[i..]
    decreases |s| - i
    ensures StripBadgesFrom(s, i) == s[i..]
  {
    if i < |s| {
      assert s[i] == s[i..][0];
      assert s[i + 1..] == s[i..][1..];
      NoPercentKept(s, i + 1);
      assert s[i..] == [s[i]] + s[i + 1..];
    }
  }

  /** Only text after a `#` can lose a badge. */
  lemma {:induction false} NoHashKept(s: string, i: nat)
    requires i <= |s| && '#' !in s
    decreases |s| - i
    ensures StripBadgesFrom(s, i) == s[i..]
  {
    if i < |s| {
      if i >= 1 && LineStartBefore(s, i) <= i - 1 {
        assert '#' !in s[LineStartBefore(s, i)..i - 1];
      }
      NoHashKept(s, i + 1);
      assert s[i..] == [s[i]] + s[i + 1..];
    }
  }

  /** A text without `%` or without `#` is left as it is. */
  lemma StripBadgesUnchanged(s: string)
    requires '%' !in s || '#' !in s
    ensures StripBadges(s) == s
  {
    if '%' !in s {
      assert s[0..] == s;
      NoPercentKept(s, 0);
    } else {
      NoHashKept(s, 0);
    }
  }

  /** A heading `#a` followed by the badge `%b%` keeps its heading and loses its badge. */
  lemma BadgeStripped(a: string, b: string)
    requires a != [] && OneLine(a) && '%' !in a
    requires b != [] && OneLine(b) && '%' !in b
    ensures StripBadges("#" + a + "%" + b + "%") == "#" + a
  {
    var s := "#" + a + "%" + b + "%";
    var i := |a| + 1;
    assert s[..i] == "#" + a;
    forall m | 0 <= m < i ensures !IsLineTerminator(s[m]) && s[m] != '%' {
      if m > 0 {
        assert s[m] == a[m - 1];
        assert a[m - 1] in a;
      }
    }
    CopyPrefix(s, 0, i);
    assert s[i] == '%';
    LineStartFromZero(s, i);
    assert s[0..i - 1][0] == '#';
    assert HashBehind(s, i);
    forall j | i + 1 <= j < |s| - 1 ensures !IsLineTerminator(s[j]) && s[j] != '%' {
      assert s[j] == b[j - i - 1];
      assert b[j - i - 1] in b;
    }
    PercentCloseReaches(s, i + 2, |s| - 1);
    assert BadgeEnd(s, i) == |s| - 1;
    assert StripBadgesFrom(s, i) == [];
    assert s[0..i] == "#" + a;
  }

  lemma {:induction false} LineStartFromZero(s: string, i: nat)
    requires i <= |s|
    requires forall m :: 0 <= m < i ==> !IsLineTerminator(s[m])
    ensures LineStartBefore(s, i) == 0
  {
    if i > 0 {
      LineStartFromZero(s, i - 1);
    }
  }

  lemma {:induction false} PercentCloseReaches(s: string, k: nat, m: nat)
    requires k <= m < |s| && s[m] == '%'
    requires forall j :: k <= j < m ==> !IsLineTerminator(s[j]) && s[j] != '%'
    decreases m - k
    ensures PercentClose(s, k) == m
  {
    if k < m {
      PercentCloseReaches(s, k + 1, m);
    }
  }

  /** Over a stretch with no `%`, the scan copies. */
  lemma {:induction false} CopyPrefix(s: string, i: nat, k: nat)
    requires i <= k <= |s|
    requires forall m :: i <= m < k ==> s[m] != '%'
    decreases k - i
    ensures StripBadgesFrom(s, i) == s[i..k] + StripBadgesFrom(s, k)
  {
    if i < k {
      CopyPrefix(s, i + 1, k);
      assert StripBadgesFrom(s, i) == [s[i]] + StripBadgesFrom(s, i + 1);
      ConsSlice(s, i, k, StripBadgesFrom(s, k));
    }
  }

  /**
   * One step of the `map` in `childTxtHandler`: the child's file, read,
   * its badges removed, and its title put in front when it has one.
   */
  function TsChildText(child: NavNode, pkg: string, read: string -> Option<string>): (r: Result<string, Fault>)
    requires pkg in TsPrefixMap
    ensures var full := TsAddPathToFull(ChildPath(child), pkg);
      (read(full).None? ==> r == Failure(PageNotFound(full)))
      && (read(full).Some? ==> r == Success(TitledPage(child, StripBadges(read(full).value), Anywhere)))
  {
    var full := TsAddPathToFull(ChildPath(child), pkg);
    match read(full)
    case None => Failure(PageNotFound(full))
    case Some(str) => Success(TitledPage(child, StripBadges(str), Anywhere))
  }

  /**
   * A titled child whose file, once its badges are stripped, opens with a
   * level-`k` heading comes out as its title at level one, a blank line, and
   * that heading at level `k + 1`; `StripBadgesUnchanged` gives the stripped
   * page for a file without `%`.
   */
  lemma TsTitledChildHeadingShift(child: NavNode, pkg: string, read: string -> Option<string>, page: string, k: nat, rest: string)
    requires pkg in TsPrefixMap && HasTitle(child)
    requires read(TsAddPathToFull(ChildPath(child), pkg)) == Some(page)
    requires StripBadges(page) == Repeat('#', k) + rest
    requires k >= 1 && (rest == [] || rest[0] != '#')
    ensures TsChildText(child, pkg, read)
         == Success("# " + TitleText(child) + "\n\n" + Repeat('#', k + 1) + DemoteFrom(rest, false, Anywhere))
  {
    DemoteHeading(k, rest, Anywhere);
    ConcatAssoc("# " + TitleText(child) + "\n\n", Repeat('#', k + 1), DemoteFrom(rest, false, Anywhere));
  }

  /** `childTxtHandler(pathConf, pkgName)`: the group's title, then the demoted child texts, joined by blank lines. */
  function TsGroupText(group: NavNode, pkg: string, read: string -> Option<string>): (r: Result<string, Fault>)
    requires group.Obj? && pkg in TsPrefixMap
    ensures r.Failure? <==> exists i :: 0 <= i < |ChildList(group)| && TsChildText(ChildList(group)[i], pkg, read).Failure?
    ensures r.Success? ==> exists texts: seq<string> ::
      |texts| == |ChildList(group)|
      && (forall i :: 0 <= i < |texts| ==> TsChildText(ChildList(group)[i], pkg, read) == Success(texts[i]))
      && r.value == Join(AddSelectedTitle(TitleText(group), texts, Anywhere), "\n\n")
  {
    GroupOf(TitleText(group), ChildList(group), c => TsChildText(c, pkg, read), Anywhere)
  }

  /** One top-level entry: a group's text, or a bare path read from prefix ++ path as it is. */
  function TsEntryText(conf: NavNode, pkg: string, read: string -> Option<string>): (r: Result<string, Fault>)
    requires pkg in TsPrefixMap
    ensures conf.Obj? ==> r == TsGroupText(conf, pkg, read)
    ensures conf.Str? && read(TsPrefixMap[pkg] + conf.s).None? ==> r == Failure(PageNotFound(TsPrefixMap[pkg] + conf.s))
    ensures conf.Str? && read(TsPrefixMap[pkg] + conf.s).Some? ==> r == Success(read(TsPrefixMap[pkg] + conf.s).value)
  {
    match conf
    case Obj(_, _, _, _, _) => TsGroupText(conf, pkg, read)
    case Str(s) =>
      match read(TsPrefixMap[pkg] + s)
      case None => Failure(PageNotFound(TsPrefixMap[pkg] + s))
      case Some(str) => Success(str)
  }

  /** The merged document and the file it is written to. */
  datatype TsOutput = TsOutput(name: string, text: string)

  /**
   * `mergeDocs(pkg)` after the sidebar has been loaded: an unsupported
   * package throws; otherwise the entries' texts joined by newlines, written
   * to `<stem>-all-zh-docs.md`.
   */
  function TsMergeDocs(pkg: string, docsConf: seq<NavNode>, read: string -> Option<string>): (r: Result<TsOutput, Fault>)
    ensures pkg !in TsDocsConfPathMap ==> r == Failure(ConfigNotSupported(pkg))
    ensures pkg in TsDocsConfPathMap ==>
      (r.Failure? <==> exists i :: 0 <= i < |docsConf| && TsEntryText(docsConf[i], pkg, read).Failure?)
    ensures r.Success? ==> r.value.name == OutputStem(pkg) + "-all-zh-docs.md"
    ensures r.Success? ==> exists texts: seq<string> ::
      |texts| == |docsConf|
      && (forall i :: 0 <= i < |docsConf| ==> TsEntryText(docsConf[i], pkg, read) == Success(texts[i]))
      && r.value.text == Join(texts, "\n")
  {
    if pkg !in TsDocsConfPathMap then Failure(ConfigNotSupported(pkg))
    else
      var texts :- AllOf(docsConf, c => TsEntryText(c, pkg, read));
      Success(TsOutput(OutputStem(pkg) + "-all-zh-docs.md", Join(texts, "\n")))
  }
}
