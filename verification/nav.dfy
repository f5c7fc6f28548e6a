/**
 * The navigation (sidebar) tree and the stack-driven walks over it:
 * `flatterArr` (lib/util.js, and its copy in lib/handle-links.js) and the two
 * page counters (`getPageCount` in lib/get-all-zh-docs.js and the
 * truthy-`link` loop of the root-level get-all-zh-docs.js).
 */
module Nav {
  import opened Wrappers

  /**
   * A sidebar entry: a bare path string, or an object whose optional `link`,
   * `title` and `text` are strings and whose absent `children`/`items` are
   * empty.
   */
  datatype NavNode =
    | Str(s: string)
    | Obj(link: Option<string>, title: Option<string>, text: Option<string>,
          children: seq<NavNode>, items: seq<NavNode>)

  /** A node the walkers emit instead of expanding: a string, or an object with a string `link`. */
  predicate IsLeaf(n: NavNode) {
    n.Str? || n.link.Some?
  }

  /** The path a leaf contributes. */
  function LeafPath(n: NavNode): string
    requires IsLeaf(n)
  {
    if n.Str? then n.s else n.link.value
  }

  /** Leaf paths in pre-order, `children` before `items`: the reference the walkers are measured against. */
  function NodeLeaves(n: NavNode): seq<string> {
    match n
    case Str(s) => [s]
    case Obj(link, _, _, children, items) =>
      if link.Some? then [link.value] else Leaves(children) + Leaves(items)
  }

  function Leaves(xs: seq<NavNode>): seq<string> {
    if xs == [] then [] else NodeLeaves(xs[0]) + Leaves(xs[1..])
  }

  lemma {:induction false} LeavesAppend(a: seq<NavNode>, b: seq<NavNode>)
    ensures Leaves(a + b) == Leaves(a) + Leaves(b)
  {
    if a == [] {
      assert a + b == b;
    } else {
      assert (a + b)[1..] == a[1..] + b;
      LeavesAppend(a[1..], b);
    }
  }

  /** Leaf count under the truthy-`link` rule: an object whose `link` is `''` is expanded. */
  function TruthyNodeCount(n: NavNode): nat {
    match n
    case Str(_) => 1
    case Obj(link, _, _, children, items) =>
      if link.Some? && link.value != [] then 1 else TruthyCount(children) + TruthyCount(items)
  }

  function TruthyCount(xs: seq<NavNode>): nat {
    if xs == [] then 0 else TruthyNodeCount(xs[0]) + TruthyCount(xs[1..])
  }

  lemma {:induction false} TruthyCountAppend(a: seq<NavNode>, b: seq<NavNode>)
    ensures TruthyCount(a + b) == TruthyCount(a) + TruthyCount(b)
  {
    if a == [] {
      assert a + b == b;
    } else {
      assert (a + b)[1..] == a[1..] + b;
      TruthyCountAppend(a[1..], b);
    }
  }

  /** Number of nodes, the measure that shrinks at every pop of a walker. */
  function NodeSize(n: NavNode): nat {
    match n
    case Str(_) => 1
    case Obj(_, _, _, children, items) => 1 + Size(children) + Size(items)
  }

  function Size(xs: seq<NavNode>): nat {
    if xs == [] then 0 else NodeSize(xs[0]) + Size(xs[1..])
  }

  lemma {:induction false} SizeAppend(a: seq<NavNode>, b: seq<NavNode>)
    ensures Size(a + b) == Size(a) + Size(b)
  {
    if a == [] {
      assert a + b == b;
    } else {
      assert (a + b)[1..] == a[1..] + b;
      SizeAppend(a[1..], b);
    }
  }

  function Reverse<T>(xs: seq<T>): (r: seq<T>)
    ensures |r| == |xs|
  {
    if xs == [] then [] else Reverse(xs[1..]) + [xs[0]]
  }

  lemma {:induction false} ReverseAppend<T>(a: seq<T>, b: seq<T>)
    ensures Reverse(a + b) == Reverse(b) + Reverse(a)
  {
    if a == [] {
      assert a + b == b;
    } else {
      assert (a + b)[1..] == a[1..] + b;
      ReverseAppend(a[1..], b);
    }
  }

  /**
   * Splitting off the top of the stack: what the leaves of `rest` contribute
   * is the leaves of the top node followed by those of the nodes below it.
   */
  lemma PopLeaves(rest: seq<NavNode>)
    requires rest != []
    ensures Reverse(Leaves(rest))
         == Reverse(NodeLeaves(rest[|rest| - 1])) + Reverse(Leaves(rest[..|rest| - 1]))
    ensures Size(rest) == Size(rest[..|rest| - 1]) + NodeSize(rest[|rest| - 1])
  {
    var below, top := rest[..|rest| - 1], rest[|rest| - 1];
    assert rest == below + [top];
    LeavesAppend(below, [top]);
    assert Leaves([top]) == NodeLeaves(top) by {
      assert [top][1..] == [];
    }
    ReverseAppend(Leaves(below), NodeLeaves(top));
    SizeAppend(below, [top]);
    assert Size([top]) == NodeSize(top) by {
      assert [top][1..] == [];
    }
  }

  /** Replacing an inner object on the stack by its `children` then `items` keeps the leaves and shrinks the stack. */
  lemma ExpandStep(below: seq<NavNode>, n: NavNode)
    requires n.Obj?
    ensures n.link.None? ==>
      Reverse(Leaves(below + n.children + n.items)) == Reverse(NodeLeaves(n)) + Reverse(Leaves(below))
    ensures TruthyCount(below + n.children + n.items) == TruthyCount(below) + TruthyCount(n.children) + TruthyCount(n.items)
    ensures Size(below + n.children + n.items) < Size(below) + NodeSize(n)
  {
    LeavesAppend(below + n.children, n.items);
    LeavesAppend(below, n.children);
    ReverseAppend(Leaves(below), Leaves(n.children) + Leaves(n.items));
    assert Leaves(below + n.children + n.items)
        == Leaves(below) + (Leaves(n.children) + Leaves(n.items));
    TruthyCountAppend(below + n.children, n.items);
    TruthyCountAppend(below, n.children);
    SizeAppend(below + n.children, n.items);
    SizeAppend(below, n.children);
  }

  lemma SingletonReverse<T>(x: T)
    ensures Reverse([x]) == [x]
  {
    assert [x][1..] == [];
  }

  /**
   * `flatterArr(list, collections)`: pops `list` until it is empty, appending
   * each leaf's path to `collections` and pushing an inner object's
   * `children` then `items`.  The paths arrive in reverse pre-order, one per
   * leaf, after the prior contents of `collections`.
   */
  method FlatterArr(list: seq<NavNode>, collections: seq<string>)
    returns (rest: seq<NavNode>, out: seq<string>)
    ensures rest == []
    ensures out == collections + Reverse(Leaves(list))
  {
    rest, out := list, collections;
    while |rest| > 0
      invariant out + Reverse(Leaves(rest)) == collections + Reverse(Leaves(list))
      decreases Size(rest)
    {
      PopLeaves(rest);
      var item := rest[|rest| - 1];
      var below := rest[..|rest| - 1];
      if item.Str? {
        SingletonReverse(item.s);
        out := out + [item.s];
        rest := below;
      } else if item.link.Some? {
        SingletonReverse(item.link.value);
        out := out + [item.link.value];
        rest := below;
      } else {
        ExpandStep(below, item);
        rest := below + item.children + item.items;
      }
    }
  }

  /**
   * `getPageCount(docsConf)`: the same walk on a private copy, counting
   * instead of collecting; `[]` gives 0 and the argument is a value, so it is
   * not consumed.
   */
  method GetPageCount(docsConf: seq<NavNode>) returns (count: nat)
    ensures count == |Leaves(docsConf)|
  {
    var list := docsConf;
    count := 0;
    while |list| > 0
      invariant count + |Leaves(list)| == |Leaves(docsConf)|
      decreases Size(list)
    {
      PopLeaves(list);
      var item := list[|list| - 1];
      var below := list[..|list| - 1];
      if item.Str? || item.link.Some? {
        count := count + 1;
        list := below;
      } else {
        ExpandStep(below, item);
        list := below + item.children + item.items;
      }
    }
  }

  /**
   * The counting loop of the root-level `mergeDocs`: pops `docsConf` itself
   * until it is empty, counting strings and objects whose `link` is truthy.
   */
  method CountPagesTruthy(docsConf: seq<NavNode>) returns (rest: seq<NavNode>, count: nat)
    ensures rest == []
    ensures count == TruthyCount(docsConf)
  {
    rest := docsConf;
    count := 0;
    while |rest| > 0
      invariant count + TruthyCount(rest) == TruthyCount(docsConf)
      decreases Size(rest)
    {
      var item := rest[|rest| - 1];
      var below := rest[..|rest| - 1];
      PopTruthy(rest);
      PopLeaves(rest);
      if item.Str? || (item.link.Some? && item.link.value != []) {
        count := count + 1;
        rest := below;
      } else {
        ExpandStep(below, item);
        rest := below + item.children + item.items;
      }
    }
  }

  lemma PopTruthy(rest: seq<NavNode>)
    requires rest != []
    ensures TruthyCount(rest) == TruthyCount(rest[..|rest| - 1]) + TruthyNodeCount(rest[|rest| - 1])
  {
    var below, top := rest[..|rest| - 1], rest[|rest| - 1];
    assert rest == below + [top];
    TruthyCountAppend(below, [top]);
    assert [top][1..] == [];
  }

  /** Each leaf contributes exactly one path, so the count is the number of leaf nodes reached. */
  lemma {:induction false} LeafCountIsTruthyCountWithoutEmptyLinks(xs: seq<NavNode>)
    requires NoEmptyLinks(xs)
    ensures |Leaves(xs)| == TruthyCount(xs)
  {
    if xs != [] {
      NodeLeafCount(xs[0]);
      LeafCountIsTruthyCountWithoutEmptyLinks(xs[1..]);
    }
  }

  lemma {:induction false} NodeLeafCount(n: NavNode)
    requires NodeNoEmptyLink(n)
    ensures |NodeLeaves(n)| == TruthyNodeCount(n)
  {
    match n
    case Str(_) =>
    case Obj(link, _, _, children, items) =>
      if link.None? {
        LeafCountIsTruthyCountWithoutEmptyLinks(children);
        LeafCountIsTruthyCountWithoutEmptyLinks(items);
      }
  }

  /** No object in the tree has `link: ''`, the one shape on which the two counting rules part. */
  predicate NodeNoEmptyLink(n: NavNode) {
    match n
    case Str(_) => true
    case Obj(link, _, _, children, items) =>
      link != Some([]) && (link.None? ==> NoEmptyLinks(children) && NoEmptyLinks(items))
  }

  predicate NoEmptyLinks(xs: seq<NavNode>) {
    xs == [] || (NodeNoEmptyLink(xs[0]) && NoEmptyLinks(xs[1..]))
  }

  /** An object with `link: ''` and two children: one page for `getPageCount`, two for the truthy rule. */
  lemma EmptyLinkCountsDiffer()
    ensures |Leaves([Obj(Some(""), None, None, [Str("/a"), Str("/b")], [])])| == 1
    ensures TruthyCount([Obj(Some(""), None, None, [Str("/a"), Str("/b")], [])]) == 2
  {
    var n := Obj(Some(""), None, None, [Str("/a"), Str("/b")], []);
    assert [n][1..] == [];
    assert [Str("/a"), Str("/b")][1..] == [Str("/b")];
    assert [Str("/b")][1..] == [];
  }
}
