/**
 * What the three assemblers (lib/get-all-zh-docs.js, get-all-zh-docs.js,
 * ts-get-all-zh-docs.js) share: the child list of a sidebar group, the
 * `title || text` heading, the path a child names, the group step of the
 * two earlier assemblers, and the output file name.
 */
module Pages {
  import opened Wrappers
  import opened Strings
  import opened Nav
  import opened Faults
  import opened Headings

  /** `children?.length ? children : items`. */
  function ChildList(group: NavNode): (r: seq<NavNode>)
    requires group.Obj?
    ensures group.children != [] ==> r == group.children
    ensures group.children == [] ==> r == group.items
  {
    if |group.children| > 0 then group.children else group.items
  }

  /** An optional string field is truthy: present and non-empty. */
  predicate Truthy(x: Option<string>) {
    x.Some? && x.value != []
  }

  /** `title || text` is truthy: the condition for giving a child its own heading. */
  predicate HasTitle(n: NavNode) {
    n.Obj? && (Truthy(n.title) || Truthy(n.text))
  }

  /**
   * The text `${title || text}` prints: `title` when truthy, otherwise
   * `text` as it is, and `undefined` when `text` is absent.
   */
  function TitleText(n: NavNode): (r: string)
    ensures n.Obj? && Truthy(n.title) ==> r == n.title.value
    ensures n.Obj? && !Truthy(n.title) && n.text.Some? ==> r == n.text.value
    ensures HasTitle(n) ==> r != []
    ensures !n.Obj? || (!Truthy(n.title) && n.text.None?) ==> r == "undefined"
  {
    if n.Obj? && Truthy(n.title) then n.title.value
    else if n.Obj? && n.text.Some? then n.text.value
    else "undefined"
  }

  /**
   * The text of one child before anything else is done to it: the page
   * itself, or, when the child has a truthy `title || text`, that title as a
   * level-one heading followed by the page demoted one level
   * (`addSelectedTitleToArticles(title || text, [str]).join('\n\n')`).
   */
  function TitledPage(child: NavNode, str: string, rule: Rule): (r: string)
    ensures !HasTitle(child) ==> r == str
    ensures HasTitle(child) ==> r == "# " + TitleText(child) + "\n\n" + Demote(str, rule)
    ensures r == [] <==> str == [] && !HasTitle(child)
  {
    if HasTitle(child) then
      var list := AddSelectedTitle(TitleText(child), [str], rule);
      assert list == ["# " + TitleText(child), Demote(str, rule)];
      assert list[1..] == [Demote(str, rule)];
      assert Join(list[1..], "\n\n") == Demote(str, rule);
      Join(list, "\n\n")
    else Join([str], "\n\n")
  }

  /** The path a child names: the string itself, or its `link`; an absent `link` becomes the default `''`. */
  function ChildPath(n: NavNode): (r: string)
    ensures n.Str? ==> r == n.s
    ensures n.Obj? ==> r == n.link.GetOr([])
  {
    if n.Str? then n.s else n.link.GetOr([])
  }

  /**
   * `pkgName.replace(/[/]+/g, '-') || 'vue3'`: the stem of the output file
   * name, never empty and free of `/`.
   */
  function OutputStem(pkg: string): (r: string)
    ensures r != [] && '/' !in r
    ensures pkg == [] ==> r == "vue3"
    ensures pkg != [] ==> r == CollapseSlashes(pkg)
    ensures pkg != [] && '/' !in pkg ==> r == pkg
  {
    var c := CollapseSlashes(pkg);
    if c == [] then "vue3" else c
  }

  /** A scoped package name such as `@pinia/root` keeps its two halves around one `-`. */
  lemma ScopedNameStem(scope: string, name: string)
    requires '/' !in scope && '/' !in name
    ensures OutputStem(scope + "/" + name) == scope + "-" + name
  {
    CollapseAppend(scope, name);
  }

  lemma {:induction false} CollapseAppend(a: string, b: string)
    requires '/' !in a && '/' !in b
    ensures CollapseFrom(a + "/" + b, false) == a + "-" + b
  {
    if a == [] {
      assert a + "/" + b == "/" + b;
      ConcatTail("/", b);
    } else {
      ConcatTail(a, "/" + b);
      ConcatAssoc(a, "/", b);
      ConcatAssoc(a[1..], "/", b);
      assert a[0] in a;
      CollapseAppend(a[1..], b);
      ConcatTail(a, "-" + b);
      ConcatAssoc(a, "-", b);
      ConcatAssoc(a[1..], "-", b);
    }
  }

  /**
   * The group step of the two earlier assemblers for any child-text
   * function `f`: every child's text in order, or the first exception; then
   * the title and the demoted texts joined by blank lines.
   */
  function GroupOf(title: string, children: seq<NavNode>, f: NavNode -> Result<string, Fault>, rule: Rule): (r: Result<string, Fault>)
    ensures r.Failure? <==> exists i :: 0 <= i < |children| && f(children[i]).Failure?
    ensures r.Success? ==> exists texts: seq<string> ::
      |texts| == |children|
      && (forall i :: 0 <= i < |texts| ==> f(children[i]) == Success(texts[i]))
      && r.value == Join(AddSelectedTitle(title, texts, rule), "\n\n")
  {
    var texts :- AllOf(children, f);
    Success(Join(AddSelectedTitle(title, texts, rule), "\n\n"))
  }
}
