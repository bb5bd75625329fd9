/**
  XPath axes and node tests: which nodes a step reaches from a context node, in which
  order, and the pointer-chasing loops that collect them.
 */
module Axes {
  import opened DocumentOrder
  import opened Documents

  datatype Axis =
    | Ancestor | AncestorOrSelf | AttributeAxis | Child | Descendant | DescendantOrSelf
    | Following | FollowingSibling | Namespace | ParentAxis | Preceding | PrecedingSibling | Self

  datatype NodeTest =
    | NameTest(name: string) | AnyNode | CommentTest | PiTest | TextTest
    | PiTarget(target: string) | AnyName | InNamespace(prefix: string)

  predicate ReverseAxis(axis: Axis) {
    axis.Ancestor? || axis.AncestorOrSelf? || axis.Preceding? || axis.PrecedingSibling?
  }

  // ----- The axes as relations (section 2.2 of XPath 1.0) -----

  predicate SameDocument(p: Path, q: Path) {
    p != [] && q != [] && p[0] == q[0]
  }

  predicate TreeOnAxis(axis: Axis, p: Path, q: Path) {
    match axis
    case Ancestor => q < p
    case AncestorOrSelf => q <= p
    case AttributeAxis => false
    case Child => |q| == |p| + 1 && p < q
    case Descendant => p < q
    case DescendantOrSelf => p <= q
    case Following => SameDocument(p, q) && Lex(p, q) && !(p <= q)
    case FollowingSibling => Siblings(p, q) && LastIndex(p) < LastIndex(q)
    case Namespace => false
    case ParentAxis => |q| + 1 == |p| && q < p
    case Preceding => SameDocument(p, q) && Lex(q, p) && !(q <= p)
    case PrecedingSibling => Siblings(p, q) && LastIndex(q) < LastIndex(p)
    case Self => p == q
  }

  predicate Siblings(p: Path, q: Path) {
    |p| > 1 && |q| == |p| && ParentPath(p) == ParentPath(q)
  }

  predicate OnAxis(axis: Axis, x: XNode, y: XNode) {
    match x
    case Nothing => false
    case Tree(p) =>
      if axis.AttributeAxis? then y.Attr? && y.path == p
      else y.Tree? && TreeOnAxis(axis, p, y.path)
    case Attr(p, _) =>
      match axis
      case Self => y == x
      case DescendantOrSelf => y == x
      case ParentAxis => y == Tree(p)
      case Ancestor => y.Tree? && y.path <= p
      case AncestorOrSelf => y == x || (y.Tree? && y.path <= p)
      case Following => y.Tree? && SameDocument(p, y.path) && Lex(p, y.path)
      case Preceding => y.Tree? && TreeOnAxis(Preceding, p, y.path)
      case _ => false
  }

  predicate ValidNode(d: Forest, x: XNode) {
    match x
    case Nothing => false
    case Tree(p) => p in d
    case Attr(p, i) => p in d && i < |d[p].attributes|
  }

  predicate IsXpathAttribute(name: string) {
    !("xmlns" <= name && (|name| == 5 || name[5] == ':'))
  }

  predicate AttributePasses(test: NodeTest, name: string) {
    IsXpathAttribute(name) &&
    match test
    case NameTest(n) => name == n
    case AnyNode => true
    case AnyName => true
    case InNamespace(prefix) => prefix <= name
    case _ => false
  }

  predicate TreePasses(test: NodeTest, n: NodeData) {
    match test
    case NameTest(name) => n.kind.Element? && n.name != "" && n.name == name
    case AnyNode => true
    case CommentTest => n.kind.Comment?
    case TextTest => n.kind.Pcdata? || n.kind.Cdata?
    case PiTest => n.kind.Pi?
    case PiTarget(t) => n.kind.Pi? && n.name != "" && n.name == t
    case AnyName => n.kind.Element?
    case InNamespace(prefix) => n.kind.Element? && n.name != "" && prefix <= n.name
  }

  predicate Passes(d: Forest, test: NodeTest, x: XNode)
    requires ValidNode(d, x)
  {
    if x.Tree? then TreePasses(test, d[x.path])
    else AttributePasses(test, d[x.path].attributes[x.index].name)
  }

  function AllNodes(d: Forest): (s: set<XNode>)
    ensures forall x :: x in s <==> ValidNode(d, x)
  {
    (set p | p in d :: Tree(p)) +
    (set p, i | p in d && 0 <= i < |d[p].attributes| :: Attr(p, i))
  }

  /** What a step selects before its predicates.  An attribute is on its own axes only for node(). */
  function Candidates(d: Forest, axis: Axis, test: NodeTest, x: XNode): (c: set<XNode>)
    ensures forall y :: y in c <==>
      ValidNode(d, y) && OnAxis(axis, x, y) && Passes(d, test, y) && (x.Attr? && y == x ==> test.AnyNode?)
  {
    set y | y in AllNodes(d) && OnAxis(axis, x, y) && Passes(d, test, y) && (x.Attr? && y == x ==> test.AnyNode?)
  }

  /** A set in document order, or in the opposite order. */
  function Listed(forward: bool, c: set<XNode>): (r: seq<XNode>) {
    if forward then SortedOf(c) else Reverse(SortedOf(c))
  }

  function Take1<T>(s: seq<T>): seq<T> {
    if s == [] then [] else [s[0]]
  }

  function TakeOnce<T>(once: bool, s: seq<T>): seq<T> {
    if once then Take1(s) else s
  }

  /** The nodes a step selects before its predicates, in axis order. */
  function StepSeq(d: Forest, axis: Axis, test: NodeTest, x: XNode): seq<XNode> {
    Listed(!ReverseAxis(axis), Candidates(d, axis, test, x))
  }

  /**
    Section 2.2 of XPath 1.0: ancestor, descendant, following, preceding and self part
    the tree nodes of the document, and each axis but self lies on its side of the node.
   */
  lemma AxesPartition(p: Path, q: Path)
    requires SameDocument(p, q)
    ensures Count(p == q) + Count(TreeOnAxis(Ancestor, p, q)) + Count(TreeOnAxis(Descendant, p, q))
            + Count(TreeOnAxis(Following, p, q)) + Count(TreeOnAxis(Preceding, p, q)) == 1
    ensures TreeOnAxis(Ancestor, p, q) || TreeOnAxis(Preceding, p, q) <==> Lex(q, p)
    ensures TreeOnAxis(Descendant, p, q) || TreeOnAxis(Following, p, q) <==> Lex(p, q)
  {
    LexTotal(p, q);
    if p < q { LexPrefix(p, q); }
    if q < p { LexPrefix(q, p); }
  }

  /** For an attribute: its ancestors, what follows and what precedes it are the tree nodes. */
  lemma AttributeAxesPartition(p: Path, i: nat, q: Path)
    requires SameDocument(p, q)
    ensures Count(OnAxis(Ancestor, Attr(p, i), Tree(q))) + Count(OnAxis(Following, Attr(p, i), Tree(q)))
            + Count(OnAxis(Preceding, Attr(p, i), Tree(q))) == 1
    ensures OnAxis(Following, Attr(p, i), Tree(q)) <==> Before(Attr(p, i), Tree(q))
  {
    LexTotal(p, q);
    if q < p { LexPrefix(q, p); }
  }

  function Count(b: bool): nat {
    if b then 1 else 0
  }

  // ----- Collecting nodes in axis order -----

  predicate Ahead(forward: bool, x: XNode, y: XNode) {
    if forward then Before(x, y) else Before(y, x)
  }

  /** `out` lists, in order, the members of `c` among the nodes seen so far. */
  ghost predicate Gathered(forward: bool, out: seq<XNode>, c: set<XNode>, done: set<XNode>) {
    && (if forward then Increasing(out) else Decreasing(out))
    && (forall y :: y in out <==> y in c && y in done)
  }

  /** `x` is next: what has been seen is ahead of it, what is still wanted is not. */
  ghost predicate AtFrontier(forward: bool, c: set<XNode>, done: set<XNode>, x: XNode) {
    && (forall y :: y in done ==> Ahead(forward, y, x))
    && (forall y :: y in c && y !in done ==> y == x || Ahead(forward, x, y))
  }

  lemma GatherNext(forward: bool, out: seq<XNode>, c: set<XNode>, done: set<XNode>, x: XNode)
    requires Gathered(forward, out, c, done) && AtFrontier(forward, c, done, x)
    ensures Gathered(forward, if x in c then out + [x] else out, c, done + {x})
  {
    BeforeTotal(x, x);
    assert forall i :: 0 <= i < |out| ==> out[i] in done;
  }

  lemma GatheredAll(forward: bool, out: seq<XNode>, c: set<XNode>, done: set<XNode>)
    requires Gathered(forward, out, c, done) && c <= done
    ensures out == Listed(forward, c)
  {
    assert Elements(out) == c;
    if forward {
      SortedOfIs(out);
    } else {
      ReverseElements(out);
      ReverseOrder(out);
      SortedOfIs(Reverse(out));
    }
  }

  lemma GatheredFirst(forward: bool, c: set<XNode>, done: set<XNode>, x: XNode)
    requires Gathered(forward, [], c, done) && AtFrontier(forward, c, done, x) && x in c
    ensures Take1(Listed(forward, c)) == [x]
  {
    var r := SortedOf(c);
    assert x in r && Elements(r) == c;
    var i :| 0 <= i < |r| && r[i] == x;
    BeforeTotal(x, x);
    if forward {
      assert r[0] in c;
      BeforeTotal(r[0], x);
    } else {
      assert r[|r| - 1] in c;
      BeforeTotal(r[|r| - 1], x);
    }
  }

  // ----- The loops -----

  datatype Order = Unsorted | Sorted | SortedReverse

  /** The evaluator's growing node set. */
  class NodeSetRaw {
    var order: Order
    var nodes: seq<XNode>

    constructor (o: Order)
      ensures order == o && nodes == []
    {
      order, nodes := o, [];
    }

    method PushBack(x: XNode)
      modifies this`nodes
      ensures nodes == old(nodes) + [x]
    {
      nodes := nodes + [x];
    }
  }

  method StepPush(d: Forest, test: NodeTest, x: XNode, ns: NodeSetRaw) returns (pushed: bool)
    requires ValidNode(d, x)
    modifies ns`nodes
    ensures pushed == Passes(d, test, x)
    ensures ns.nodes == old(ns.nodes) + if pushed then [x] else []
  {
    pushed := Passes(d, test, x);
    if pushed { ns.PushBack(x); }
  }

  /** Offers the next node of the axis to the set; `stop` once a single node is enough. */
  method Visit(d: Forest, test: NodeTest, x: XNode, once: bool, ns: NodeSetRaw, ghost forward: bool,
               ghost c: set<XNode>, ghost base: seq<XNode>, ghost out: seq<XNode>, ghost done: set<XNode>)
    returns (stop: bool, ghost out': seq<XNode>, ghost done': set<XNode>)
    requires ValidNode(d, x) && (x in c <==> Passes(d, test, x))
    requires ns.nodes == base + out && Gathered(forward, out, c, done) && (once ==> out == [])
    requires AtFrontier(forward, c, done, x)
    modifies ns`nodes
    ensures stop ==> ns.nodes == base + TakeOnce(once, Listed(forward, c))
    ensures !stop ==> ns.nodes == base + out' && (once ==> out' == [])
    ensures !stop ==> Gathered(forward, out', c, done')
    ensures done' == done + {x}
  {
    var pushed := StepPush(d, test, x, ns);
    GatherNext(forward, out, c, done, x);
    out' := if pushed then out + [x] else out;
    done' := done + {x};
    stop := pushed && once;
    if stop { GatheredFirst(forward, c, done, x); }
  }

  /** All of the axis has been seen. */
  lemma Finished(forward: bool, once: bool, out: seq<XNode>, c: set<XNode>, done: set<XNode>)
    requires Gathered(forward, out, c, done) && c <= done && (once ==> out == [])
    ensures out == TakeOnce(once, Listed(forward, c))
  {
    GatheredAll(forward, out, c, done);
  }

  ghost predicate OnlyTrees(d: Forest, c: set<XNode>) {
    forall y :: y in c ==> y.Tree? && y.path in d
  }

  lemma ForwardFrontier(d: Forest, c: set<XNode>, p: Path)
    requires OnlyTrees(d, c)
    ensures AtFrontier(true, c, Earlier(d, p), Tree(p))
  {
    forall y | y in c && y !in Earlier(d, p) ensures y == Tree(p) || Before(Tree(p), y) {
      LexTotal(y.path, p);
    }
  }

  lemma BackwardFrontier(d: Forest, c: set<XNode>, p: Path)
    requires OnlyTrees(d, c)
    ensures AtFrontier(false, c, Later(d, p), Tree(p))
  {
    forall y | y in c && y !in Later(d, p) ensures y == Tree(p) || Before(y, Tree(p)) {
      LexTotal(y.path, p);
    }
  }

  /** Leaves the subtree of `v`: the next node in preorder that is not below it, if any inside `limit`. */
  method ExitSubtree(d: Forest, v: Path, limit: Option<Path>) returns (next: Option<Path>, ghost top: Path)
    requires WellFormed(d) && v in d
    requires limit.Some? ==> limit.value < v && limit.value != []
    ensures next.Some? ==> next.value in d && Earlier(d, next.value) == Through(d, v)
    ensures next.Some? ==> SameDocument(v, next.value) && (limit.Some? ==> limit.value < next.value)
    ensures next.Some? ==> Lex(v, next.value) && !(v <= next.value)
    ensures next.None? ==> top in d && Through(d, top) == Through(d, v) && top <= v
    ensures next.None? ==> if limit.Some? then top == limit.value else |top| == 1
  {
    var up := v;
    assert NodeOk(d, up);
    while NextSibling(d, up).None?
      invariant up in d && NodeOk(d, up) && up <= v && Through(d, up) == Through(d, v)
      invariant limit.Some? ==> limit.value < up
      decreases |up|
    {
      if |up| == 1 { return None, up; }
      LastChildCloses(d, up);
      assert limit.Some? ==> limit.value <= ParentPath(up);
      up := ParentPath(up);
      assert NodeOk(d, up) && (limit.Some? && |limit.value| == |up| ==> limit.value == up);
      if limit == Some(up) { return None, up; }
    }
    next := NextSibling(d, up);
    top := up;
    assert NodeOk(d, ParentPath(up));
    assert limit.Some? ==> limit.value <= ParentPath(up);
    NextSiblingIsNext(d, up, next.value);
    NextSiblingSplits(up, next.value, v);
    assert Tree(v) in Through(d, v);
  }

  method FillDescendant(d: Forest, orSelf: bool, test: NodeTest, p: Path, once: bool, ns: NodeSetRaw)
    requires WellFormed(d) && p in d
    modifies ns`nodes
    ensures ns.nodes == old(ns.nodes) +
      TakeOnce(once, StepSeq(d, if orSelf then DescendantOrSelf else Descendant, test, Tree(p)))
  {
    ghost var base := ns.nodes;
    ghost var c := Candidates(d, if orSelf then DescendantOrSelf else Descendant, test, Tree(p));
    ghost var out: seq<XNode>, done := [], Earlier(d, p);
    NothingBelowEarlier(d, c, p);
    if orSelf {
      var stop: bool;
      ForwardFrontier(d, c, p);
      stop, out, done := Visit(d, test, Tree(p), once, ns, true, c, base, out, done);
      if stop { return; }
    } else {
      done := done + {Tree(p)};
    }
    WalkDescendants(d, test, p, once, ns, c, base, out, done);
  }

  /** The preorder walk below `p`. */
  method WalkDescendants(d: Forest, test: NodeTest, p: Path, once: bool, ns: NodeSetRaw,
                         ghost c: set<XNode>, ghost base: seq<XNode>, ghost out0: seq<XNode>, ghost done0: set<XNode>)
    requires WellFormed(d) && p in d
    requires OnlyTrees(d, c) && (forall y :: y in c ==> p <= y.path)
    requires forall q :: q in d && p < q ==> (Tree(q) in c <==> TreePasses(test, d[q]))
    requires ns.nodes == base + out0 && (once ==> out0 == [])
    requires done0 == Earlier(d, p) + {Tree(p)} && Gathered(true, out0, c, done0)
    modifies ns`nodes
    ensures ns.nodes == base + TakeOnce(once, Listed(true, c))
  {
    ghost var out, done, top := out0, done0, p;
    var stop: bool;
    assert NodeOk(d, p);
    var cur := FirstChild(d, p);
    EnterChildren(d, p);
    if cur.None? { BelowDone(d, c, p); }
    while cur.Some?
      invariant cur.Some? ==> cur.value in d && p < cur.value && done == Earlier(d, cur.value)
      invariant cur.None? ==> c <= done
      invariant ns.nodes == base + out && Gathered(true, out, c, done) && (once ==> out == [])
      decreases if cur.Some? then Later(d, cur.value) else {}
    {
      var v := cur.value;
      ForwardFrontier(d, c, v);
      stop, out, done := Visit(d, test, Tree(v), once, ns, true, c, base, out, done);
      if stop { return; }
      cur := FirstChild(d, v);
      EnterChildren(d, v);
      if cur.None? {
        cur, top := ExitSubtree(d, v, Some(p));
        if cur.None? {
          BelowDone(d, c, p);
          break;
        }
      }
      LaterShrinks(d, v, cur.value);
    }
    Finished(true, once, out, c, done);
  }

  /** Going down: a node with children is followed by the first, a leaf has no descendants. */
  lemma EnterChildren(d: Forest, p: Path)
    requires WellFormed(d) && p in d
    ensures d[p].arity > 0 ==> p + [0] in d && p < p + [0] && Lex(p, p + [0])
    ensures d[p].arity > 0 ==> Earlier(d, p + [0]) == Earlier(d, p) + {Tree(p)}
    ensures d[p].arity > 0 ==> Later(d, p) == Later(d, p + [0]) + {Tree(p + [0])}
    ensures d[p].arity == 0 ==> Through(d, p) == Earlier(d, p) + {Tree(p)}
    ensures d[p].arity == 0 ==> Beyond(d, p) == Later(d, p)
  {
    assert NodeOk(d, p);
    if d[p].arity > 0 {
      FirstChildIsNext(d, p);
      LexPrefix(p, p + [0]);
    } else {
      LeafThrough(d, p);
    }
  }

  lemma NothingBelowEarlier(d: Forest, c: set<XNode>, p: Path)
    requires OnlyTrees(d, c) && forall y :: y in c ==> p <= y.path
    ensures c !! Earlier(d, p)
  {
    forall y | y in c ensures !Lex(y.path, p) { PrefixOrLater(p, y.path); }
  }

  lemma BelowDone(d: Forest, c: set<XNode>, p: Path)
    requires OnlyTrees(d, c) && forall y :: y in c ==> p <= y.path
    ensures c <= Through(d, p)
  {
  }

  /** The walk along following:: from a node, or (descendants first) from one of its attributes. */
  method FillFollowing(d: Forest, test: NodeTest, x: XNode, once: bool, ns: NodeSetRaw)
    requires WellFormed(d) && ValidNode(d, x)
    modifies ns`nodes
    ensures ns.nodes == old(ns.nodes) + TakeOnce(once, StepSeq(d, Following, test, x))
  {
    var p := x.path;
    ghost var c := Candidates(d, Following, test, x);
    ghost var top := p;
    var cur: Option<Path>;
    assert NodeOk(d, p);
    EnterChildren(d, p);
    forall y | y in c ensures Lex(p, y.path) { }
    cur := if x.Attr? then FirstChild(d, p) else None;
    if cur.None? {
      NothingThrough(d, c, p, x.Attr?);
      cur, top := ExitSubtree(d, p, None);
      if cur.None? {
        AllThroughRoot(d, c, p, top);
        assert Gathered(true, [], c, Through(d, p));
        Finished(true, once, [], c, Through(d, p));
        return;
      }
    } else {
      NothingEarlier(d, c, p);
    }
    FollowingRegion(d, test, x, cur.value);
    WalkFollowing(d, test, p, cur.value, once, ns, c);
  }

  /** What the following axis selects is what passes the test from its first node on. */
  lemma FollowingRegion(d: Forest, test: NodeTest, x: XNode, first: Path)
    requires ValidNode(d, x) && first in d
    requires Earlier(d, first) == Through(d, x.path)
          || (x.Attr? && Earlier(d, first) == Earlier(d, x.path) + {Tree(x.path)})
    ensures forall q :: q in d && SameDocument(x.path, q) && !Lex(q, first) ==>
      (Tree(q) in Candidates(d, Following, test, x) <==> TreePasses(test, d[q]))
  {
    var p := x.path;
    forall q | q in d && SameDocument(p, q) && !Lex(q, first)
      ensures Tree(q) in Candidates(d, Following, test, x) <==> TreePasses(test, d[q])
    {
      assert Tree(q) !in Earlier(d, first);
      LexTotal(p, q);
      PrefixOrLater(p, q);
    }
  }

  /** The preorder walk from `first` to the end of the document. */
  method WalkFollowing(d: Forest, test: NodeTest, p: Path, first: Path, once: bool, ns: NodeSetRaw, ghost c: set<XNode>)
    requires WellFormed(d) && p in d && first in d && SameDocument(p, first) && Lex(p, first)
    requires OnlyTrees(d, c) && (forall y :: y in c ==> SameDocument(p, y.path))
    requires forall q :: q in d && SameDocument(p, q) && !Lex(q, first) ==> (Tree(q) in c <==> TreePasses(test, d[q]))
    requires c !! Earlier(d, first)
    modifies ns`nodes
    ensures ns.nodes == old(ns.nodes) + TakeOnce(once, Listed(true, c))
  {
    ghost var base, out, done, top := ns.nodes, [], Earlier(d, first), p;
    var stop: bool;
    var cur := Some(first);
    LexTotal(first, first);
    while cur.Some?
      invariant cur.Some? ==> cur.value in d && SameDocument(p, cur.value) && !Lex(cur.value, first)
      invariant cur.Some? ==> done == Earlier(d, cur.value)
      invariant cur.None? ==> c <= done
      invariant ns.nodes == base + out && Gathered(true, out, c, done) && (once ==> out == [])
      decreases if cur.Some? then Later(d, cur.value) else {}
    {
      var v := cur.value;
      ForwardFrontier(d, c, v);
      stop, out, done := Visit(d, test, Tree(v), once, ns, true, c, base, out, done);
      if stop { return; }
      cur := FirstChild(d, v);
      EnterChildren(d, v);
      if cur.None? {
        cur, top := ExitSubtree(d, v, None);
        if cur.None? {
          AllThroughRoot(d, c, v, top);
          break;
        }
      }
      StillAfter(first, v, cur.value);
      LaterShrinks(d, v, cur.value);
    }
    Finished(true, once, out, c, done);
  }

  lemma StillAfter(first: Path, v: Path, w: Path)
    requires !Lex(v, first) && Lex(v, w)
    ensures !Lex(w, first)
  {
    if Lex(w, first) { LexTransitive(v, w, first); }
  }

  lemma AllThroughRoot(d: Forest, c: set<XNode>, p: Path, top: Path)
    requires OnlyTrees(d, c) && (forall y :: y in c ==> SameDocument(p, y.path))
    requires p != [] && top <= p && |top| == 1
    ensures c <= Through(d, top)
  {
    forall y | y in c ensures top <= y.path {
      assert top == [p[0]];
    }
  }

  lemma NothingThrough(d: Forest, c: set<XNode>, p: Path, leaf: bool)
    requires WellFormed(d) && p in d && (leaf ==> d[p].arity == 0)
    requires OnlyTrees(d, c) && forall y :: y in c ==> Lex(p, y.path) && (leaf || !(p <= y.path))
    ensures c !! Through(d, p)
  {
    LeafOrNot(d, p, leaf);
    forall y | y in c ensures y !in Through(d, p) { LexTotal(p, y.path); }
  }

  lemma LeafOrNot(d: Forest, p: Path, leaf: bool)
    requires WellFormed(d) && p in d && (leaf ==> d[p].arity == 0)
    ensures leaf ==> forall q :: q in d && p <= q ==> q == p
  {
    if leaf {
      forall q | q in d && p <= q ensures q == p {
        assert NodeOk(d, p);
        if p < q { ChildToward(d, p, q); }
      }
    }
  }

  lemma NothingEarlier(d: Forest, c: set<XNode>, p: Path)
    requires WellFormed(d) && p in d && d[p].arity > 0
    requires OnlyTrees(d, c) && forall y :: y in c ==> Lex(p, y.path)
    ensures c !! Earlier(d, p + [0])
  {
    EnterChildren(d, p);
    forall y | y in c ensures y !in Earlier(d, p + [0]) { LexTotal(p, y.path); }
  }

  // ----- preceding:: -----

  /** Everything after `p` in preorder, and `p`. */
  ghost function From(d: Forest, p: Path): set<XNode> {
    Later(d, p) + {Tree(p)}
  }

  lemma FromShrinks(d: Forest, p: Path, q: Path)
    requires p in d && q in d && Lex(p, q)
    ensures From(d, q) < From(d, p)
  {
    LaterShrinks(d, p, q);
    LexTotal(p, p);
    LexTotal(p, q);
    assert Tree(p) in From(d, p) && Tree(p) !in From(d, q);
  }

  ghost function Below(d: Forest, p: Path): set<Path> {
    set q | q in d && p <= q
  }

  lemma PreviousSibling(d: Forest, up: Path, p: Path)
    requires WellFormed(d) && up in d && |up| > 1 && LastIndex(up) > 0
    requires !Lex(p, up) && SameDocument(up, p)
    ensures ParentPath(up) in d
    ensures var s := ParentPath(up) + [LastIndex(up) - 1];
            && BackTarget(d, p, s) && From(d, up) == Beyond(d, s) && Through(d, s) == Earlier(d, up)
  {
    assert NodeOk(d, up) && NodeOk(d, ParentPath(up));
    var s := ParentPath(up) + [LastIndex(up) - 1];
    assert s in d && ParentPath(s) == ParentPath(up);
    NextSiblingIsNext(d, s, up);
    NextSiblingSplits(s, up, p);
    LexTotal(p, s);
  }

  lemma FirstChildFrom(d: Forest, p: Path)
    requires WellFormed(d) && p in d && |p| > 1 && LastIndex(p) == 0
    ensures ParentPath(p) in d && Later(d, ParentPath(p)) == From(d, p)
    ensures Earlier(d, ParentPath(p)) < Earlier(d, p)
  {
    assert NodeOk(d, p);
    assert p == ParentPath(p) + [0];
    EnterChildren(d, ParentPath(p));
    EarlierShrinks(d, p, ParentPath(p));
  }

  lemma LastChildBeyond(d: Forest, p: Path)
    requires WellFormed(d) && p in d && d[p].arity > 0
    ensures var l := p + [d[p].arity - 1];
            && l in d && SameDocument(p, l) && Beyond(d, l) == Beyond(d, p) && Through(d, l) == Through(d, p)
            && Below(d, l) < Below(d, p)
  {
    var l := p + [d[p].arity - 1];
    assert NodeOk(d, p);
    assert l in d && ParentPath(l) == p;
    LastChildCloses(d, l);
    assert p in Below(d, p) && p !in Below(d, l);
  }

  method FillPreceding(d: Forest, test: NodeTest, x: XNode, once: bool, ns: NodeSetRaw)
    requires WellFormed(d) && ValidNode(d, x)
    modifies ns`nodes
    ensures ns.nodes == old(ns.nodes) + TakeOnce(once, StepSeq(d, Preceding, test, x))
  {
    var p := x.path;
    ghost var c := Candidates(d, Preceding, test, x);
    assert forall q :: q in d && SameDocument(p, q) && Lex(q, p) && !(q <= p) ==>
        (Tree(q) in c <==> TreePasses(test, d[q]));
    assert forall q :: q in d && q <= p ==> Tree(q) !in c;
    NotFrom(d, c, p);
    WalkPreceding(d, test, p, once, ns, c);
  }

  lemma NotFrom(d: Forest, c: set<XNode>, p: Path)
    requires OnlyTrees(d, c) && forall y :: y in c ==> Lex(y.path, p)
    ensures c !! From(d, p)
  {
    forall y | y in c ensures y !in From(d, p) { LexTotal(y.path, p); }
  }

  /** A node and its ancestors are never collected, so climbing over them changes nothing. */
  lemma SkipAncestor(c: set<XNode>, out: seq<XNode>, done: set<XNode>, x: XNode)
    requires Gathered(false, out, c, done) && x !in c
    ensures Gathered(false, out, c, done + {x})
  {
  }

  /** Climbs to the nearest ancestor-or-self that has a previous sibling and moves to that sibling. */
  method StepBack(d: Forest, p: Path, ghost c: set<XNode>) returns (prev: Option<Path>)
    requires WellFormed(d) && p in d && c !! From(d, p)
    requires OnlyTrees(d, c) && (forall q :: q in d && q <= p ==> Tree(q) !in c)
    requires forall y :: y in c ==> SameDocument(p, y.path)
    ensures prev.Some? ==> BackTarget(d, p, prev.value) && c !! Beyond(d, prev.value)
    ensures prev.None? ==> c == {}
  {
    var up := p;
    LexTotal(p, p);
    while NextSiblingOfPrev(d, up).None?
      invariant up in d && up <= p && !Lex(p, up) && c !! From(d, up)
      decreases |up|
    {
      assert NodeOk(d, up);
      if |up| == 1 {
        AllFromRoot(d, c, p, up);
        return None;
      }
      FirstChildFrom(d, up);
      up := ParentPath(up);
      PrefixOrLater(up, p);
    }
    assert NodeOk(d, up);
    PreviousSibling(d, up, p);
    prev := Some(PrevSiblingCyclic(d, up));
  }

  /** A node before `p`, in its document, and not one of its ancestors. */
  ghost predicate BackTarget(d: Forest, p: Path, q: Path) {
    q in d && SameDocument(p, q) && Lex(q, p) && !(q <= p)
  }

  /** `prev_sibling_c->next_sibling`: none exactly for a first child or a document. */
  function NextSiblingOfPrev(d: Forest, p: Path): (r: Option<Path>)
    requires p in d
    requires WellFormed(d)
    ensures r.None? <==> |p| == 1 || LastIndex(p) == 0
  {
    assert NodeOk(d, p);
    var c := PrevSiblingCyclic(d, p);
    assert |p| > 1 ==> NodeOk(d, ParentPath(p)) && c in d && ParentPath(c) == ParentPath(p);
    NextSibling(d, c)
  }

  lemma AllFromRoot(d: Forest, c: set<XNode>, p: Path, top: Path)
    requires OnlyTrees(d, c) && |top| == 1 && SameDocument(p, top)
    requires forall y :: y in c ==> SameDocument(p, y.path)
    ensures c <= From(d, top)
  {
    forall y | y in c ensures y in From(d, top) {
      assert top <= y.path;
      if top != y.path { LexPrefix(top, y.path); }
    }
  }

  lemma LastChildTarget(d: Forest, p: Path, v: Path)
    requires WellFormed(d) && BackTarget(d, p, v) && d[v].arity > 0
    ensures var l := v + [d[v].arity - 1];
            && BackTarget(d, p, l) && Beyond(d, l) == Beyond(d, v) && Through(d, l) == Through(d, v)
            && Below(d, l) < Below(d, v)
            && FirstChild(d, v) == Some(v + [0]) && v + [0] in d && PrevSiblingCyclic(d, v + [0]) == l
  {
    LastChildBeyond(d, v);
    assert NodeOk(d, v) && ParentPath(v + [0]) == v;
    DivergeBelow(v, p, v + [d[v].arity - 1]);
    assert v + [d[v].arity - 1] <= p ==> v <= p;
  }

  lemma LeafTarget(d: Forest, p: Path, v: Path)
    requires WellFormed(d) && BackTarget(d, p, v) && d[v].arity == 0
    ensures Beyond(d, v) == Later(d, v) && !Lex(p, v)
  {
    EnterChildren(d, v);
    LexTotal(p, v);
  }

  method WalkPreceding(d: Forest, test: NodeTest, p: Path, once: bool, ns: NodeSetRaw, ghost c: set<XNode>)
    requires WellFormed(d) && p in d && c !! From(d, p)
    requires OnlyTrees(d, c) && (forall y :: y in c ==> SameDocument(p, y.path))
    requires forall q :: BackTarget(d, p, q) ==> (Tree(q) in c <==> TreePasses(test, d[q]))
    requires forall q :: q in d && q <= p ==> Tree(q) !in c
    modifies ns`nodes
    ensures ns.nodes == old(ns.nodes) + TakeOnce(once, Listed(false, c))
  {
    ghost var base, out, done := ns.nodes, [], From(d, p);
    var stop: bool;
    var cur := StepBack(d, p, c);
    if cur.Some? { done := Beyond(d, cur.value); }
    while cur.Some?
      invariant cur.Some? ==> BackTarget(d, p, cur.value) && done == Beyond(d, cur.value)
      invariant cur.None? ==> c <= done
      invariant ns.nodes == base + out && Gathered(false, out, c, done) && (once ==> out == [])
      decreases if cur.Some? then Through(d, cur.value) else {}, if cur.Some? then Below(d, cur.value) else {}
    {
      var v := cur.value;
      var child := FirstChild(d, v);
      if child.Some? {
        LastChildTarget(d, p, v);
        assert ParentPath(child.value) == v;
        cur := Some(PrevSiblingCyclic(d, child.value));
      } else {
        LeafTarget(d, p, v);
        BackwardFrontier(d, c, v);
        stop, out, done := Visit(d, test, Tree(v), once, ns, false, c, base, out, done);
        if stop { return; }
        stop, cur, out, done := ClimbBack(d, test, p, v, once, ns, c, base, out, done);
        if stop { return; }
      }
    }
    Finished(false, once, out, c, done);
  }

  /** From a finished node to the next one backwards, visiting the parents left on the way that are not ancestors of `p`. */
  method ClimbBack(d: Forest, test: NodeTest, p: Path, v: Path, once: bool, ns: NodeSetRaw,
                   ghost c: set<XNode>, ghost base: seq<XNode>, ghost out0: seq<XNode>, ghost done0: set<XNode>)
    returns (stop: bool, cur: Option<Path>, ghost out: seq<XNode>, ghost done: set<XNode>)
    requires WellFormed(d) && p in d && v in d && SameDocument(p, v) && !Lex(p, v)
    requires OnlyTrees(d, c) && (forall y :: y in c ==> SameDocument(p, y.path))
    requires forall q :: BackTarget(d, p, q) ==> (Tree(q) in c <==> TreePasses(test, d[q]))
    requires forall q :: q in d && q <= p ==> Tree(q) !in c
    requires ns.nodes == base + out0 && Gathered(false, out0, c, done0) && (once ==> out0 == [])
    requires done0 == From(d, v)
    modifies ns`nodes
    ensures stop ==> ns.nodes == base + TakeOnce(once, Listed(false, c))
    ensures !stop ==> ns.nodes == base + out && Gathered(false, out, c, done) && (once ==> out == [])
    ensures !stop && cur.None? ==> c <= done
    ensures !stop && cur.Some? ==> BackTarget(d, p, cur.value) && done == Beyond(d, cur.value)
    ensures !stop && cur.Some? ==> Through(d, cur.value) < Through(d, v)
  {
    out, done := out0, done0;
    var up := v;
    while NextSiblingOfPrev(d, up).None?
      invariant up in d && SameDocument(p, up) && !Lex(p, up) && done == From(d, up)
      invariant Earlier(d, up) <= Earlier(d, v)
      invariant ns.nodes == base + out && Gathered(false, out, c, done) && (once ==> out == [])
      decreases |up|
    {
      assert NodeOk(d, up);
      if |up| == 1 {
        AllFromRoot(d, c, p, up);
        return false, None, out, done;
      }
      FirstChildFrom(d, up);
      ParentStays(p, up);
      up := ParentPath(up);
      BackwardFrontier(d, c, up);
      if up <= p {
        SkipAncestor(c, out, done, Tree(up));
        done := done + {Tree(up)};
      } else {
        stop, out, done := Visit(d, test, Tree(up), once, ns, false, c, base, out, done);
        if stop { return true, None, out, done; }
      }
    }
    assert NodeOk(d, up);
    PreviousSibling(d, up, p);
    cur := Some(PrevSiblingCyclic(d, up));
    done := Beyond(d, cur.value);
    LexTotal(v, v);
    assert Tree(v) in Through(d, v) && Tree(v) !in Earlier(d, v);
    stop := false;
  }

  lemma ParentStays(p: Path, up: Path)
    requires |up| > 1 && SameDocument(p, up) && !Lex(p, up)
    ensures SameDocument(p, ParentPath(up)) && !Lex(p, ParentPath(up))
    ensures !(ParentPath(up) <= p) ==> Lex(ParentPath(up), p)
  {
    LexPrefix(ParentPath(up), up);
    PrefixOrLater(ParentPath(up), p);
    if Lex(p, ParentPath(up)) { LexTransitive(p, ParentPath(up), up); }
  }

  // ----- The axes that stay on one level, and the ancestors -----

  lemma GatherSame(forward: bool, out: seq<XNode>, c: set<XNode>, done: set<XNode>, done': set<XNode>)
    requires Gathered(forward, out, c, done)
    requires forall y :: y in c ==> (y in done <==> y in done')
    ensures Gathered(forward, out, c, done')
  {
  }

  ghost predicate ChildrenOf(d: Forest, u: Path, c: set<XNode>) {
    forall y :: y in c ==> y.Tree? && y.path in d && |y.path| == |u| + 1 && u < y.path
  }

  /** Follows next-sibling links from `first`. */
  method WalkSiblings(d: Forest, test: NodeTest, u: Path, first: Option<Path>, once: bool, ns: NodeSetRaw, ghost c: set<XNode>)
    requires WellFormed(d) && u in d && ChildrenOf(d, u, c)
    requires first.Some? ==> first.value in d && |first.value| == |u| + 1 && u < first.value
    requires first.Some? ==> c !! Earlier(d, first.value)
    requires first.None? ==> c == {}
    requires forall q :: q in d && |q| == |u| + 1 && u < q && first.Some? && !Lex(q, first.value) ==>
        (Tree(q) in c <==> TreePasses(test, d[q]))
    modifies ns`nodes
    ensures ns.nodes == old(ns.nodes) + TakeOnce(once, Listed(true, c))
  {
    ghost var base, out, done := ns.nodes, [], if first.Some? then Earlier(d, first.value) else {};
    var stop: bool;
    var cur := first;
    if cur.Some? { LexTotal(cur.value, cur.value); }
    while cur.Some?
      invariant cur.Some? ==> cur.value in d && |cur.value| == |u| + 1 && u < cur.value
      invariant cur.Some? ==> done == Earlier(d, cur.value) && first.Some? && !Lex(cur.value, first.value)
      invariant cur.None? ==> c <= done
      invariant ns.nodes == base + out && Gathered(true, out, c, done) && (once ==> out == [])
      decreases if cur.Some? then From(d, cur.value) else {}
    {
      var v := cur.value;
      assert Tree(v) in From(d, v);
      assert NodeOk(d, v) && ParentPath(v) == u && NodeOk(d, u);
      ForwardFrontier(d, c, v);
      stop, out, done := Visit(d, test, Tree(v), once, ns, true, c, base, out, done);
      if stop { return; }
      assert forall y :: y in c && v <= y.path ==> y.path == v;
      GatherSame(true, out, c, done, Through(d, v));
      done := Through(d, v);
      cur := NextSibling(d, v);
      if cur.Some? {
        NextSiblingIsNext(d, v, cur.value);
        FromShrinks(d, v, cur.value);
        StillAfter(first.value, v, cur.value);
      } else {
        LastChildCloses(d, v);
      }
    }
    Finished(true, once, out, c, done);
  }

  method FillChild(d: Forest, test: NodeTest, p: Path, once: bool, ns: NodeSetRaw)
    requires WellFormed(d) && p in d
    modifies ns`nodes
    ensures ns.nodes == old(ns.nodes) + TakeOnce(once, StepSeq(d, Child, test, Tree(p)))
  {
    ghost var c := Candidates(d, Child, test, Tree(p));
    assert NodeOk(d, p);
    forall y | y in c ensures d[p].arity > 0 && !Lex(y.path, p + [0]) {
      ChildToward(d, p, y.path);
      FirstOfChildren(p, y.path);
    }
    WalkSiblings(d, test, p, FirstChild(d, p), once, ns, c);
  }

  lemma FirstOfChildren(p: Path, q: Path)
    requires p < q
    ensures !Lex(q, p + [0])
  {
    if q[..|p| + 1] == p + [0] {
      PrefixOrLater(p + [0], q);
    } else {
      LexDiverge(p + [0], q, |p|);
      LexTotal(q, p + [0]);
    }
  }

  method FillFollowingSibling(d: Forest, test: NodeTest, p: Path, once: bool, ns: NodeSetRaw)
    requires WellFormed(d) && p in d
    modifies ns`nodes
    ensures ns.nodes == old(ns.nodes) + TakeOnce(once, StepSeq(d, FollowingSibling, test, Tree(p)))
  {
    ghost var c := Candidates(d, FollowingSibling, test, Tree(p));
    assert NodeOk(d, p);
    if |p| == 1 {
      assert c == {};
      assert Gathered(true, [], c, {});
      Finished(true, once, [], c, {});
      return;
    }
    FollowingSiblings(d, test, p);
    WalkSiblings(d, test, ParentPath(p), NextSibling(d, p), once, ns, c);
  }

  lemma FollowingSiblings(d: Forest, test: NodeTest, p: Path)
    requires WellFormed(d) && p in d && |p| > 1 && ParentPath(p) in d
    ensures var u, c, next := ParentPath(p), Candidates(d, FollowingSibling, test, Tree(p)), NextSibling(d, p);
            && (next.Some? ==> next.value in d && |next.value| == |p| && u < next.value && c !! Earlier(d, next.value))
            && (next.None? ==> c == {})
            && (forall q :: q in d && |q| == |p| && u < q && next.Some? && !Lex(q, next.value) ==>
                  (Tree(q) in c <==> TreePasses(test, d[q])))
  {
    var u := ParentPath(p);
    assert NodeOk(d, u);
    forall q | q in d && |q| == |p| && u < q
      ensures ParentPath(q) == u && LastIndex(q) < d[u].arity
      ensures LastIndex(p) < LastIndex(q) <==> Lex(p, q)
      ensures NextSibling(d, p).Some? ==> (Lex(p, q) <==> !Lex(q, NextSibling(d, p).value))
    {
      assert NodeOk(d, q) && ParentPath(q) == u;
      SiblingOrder(p, q);
      if NextSibling(d, p).Some? {
        NextSiblingSplits(p, NextSibling(d, p).value, q);
        LexTotal(p, q);
      }
    }
  }

  lemma SiblingOrder(p: Path, q: Path)
    requires p != [] && |q| == |p| && ParentPath(p) == ParentPath(q)
    ensures LastIndex(p) < LastIndex(q) <==> Lex(p, q)
    ensures p <= q ==> p == q
  {
    LexTotal(p, q);
    if LastIndex(p) < LastIndex(q) {
      LexDiverge(p, q, |p| - 1);
    } else if LastIndex(q) < LastIndex(p) {
      LexDiverge(q, p, |p| - 1);
    } else {
      PathSplit(p);
      PathSplit(q);
    }
  }

  method FillPrecedingSibling(d: Forest, test: NodeTest, p: Path, once: bool, ns: NodeSetRaw)
    requires WellFormed(d) && p in d
    modifies ns`nodes
    ensures ns.nodes == old(ns.nodes) + TakeOnce(once, StepSeq(d, PrecedingSibling, test, Tree(p)))
  {
    ghost var base, out := ns.nodes, [];
    ghost var c := Candidates(d, PrecedingSibling, test, Tree(p));
    ghost var done := From(d, p);
    var stop: bool;
    assert NodeOk(d, p);
    forall y | y in c ensures Lex(y.path, p) { SiblingOrder(y.path, p); }
    NotFrom(d, c, p);
    LexTotal(p, p);
    var cur := p;
    while NextSiblingOfPrev(d, cur).Some?
      invariant cur in d && |cur| == |p| && (|p| > 1 ==> ParentPath(cur) == ParentPath(p)) && !Lex(p, cur)
      invariant done == From(d, cur)
      invariant ns.nodes == base + out && Gathered(false, out, c, done) && (once ==> out == [])
      decreases Earlier(d, cur)
    {
      assert NodeOk(d, cur);
      PreviousSiblingOf(d, cur, p);
      var prev := PrevSiblingCyclic(d, cur);
      GatherSame(false, out, c, done, Later(d, prev));
      BackwardFrontier(d, c, prev);
      EarlierShrinks(d, cur, prev);
      stop, out, done := Visit(d, test, Tree(prev), once, ns, false, c, base, out, Later(d, prev));
      if stop { return; }
      cur := prev;
    }
    NoneBeforeFirst(d, c, p, cur);
    Finished(false, once, out, c, done);
  }

  lemma PreviousSiblingOf(d: Forest, last: Path, p: Path)
    requires WellFormed(d) && last in d && |last| == |p| && |p| > 1
    requires ParentPath(last) == ParentPath(p) && !Lex(p, last) && LastIndex(last) > 0
    ensures ParentPath(last) in d
    ensures var s := ParentPath(last) + [LastIndex(last) - 1];
            && s in d && Lex(s, last) && !Lex(p, s) && LastIndex(s) < LastIndex(p) && From(d, last) == Beyond(d, s)
            && forall y :: y in d && Siblings(p, y) ==> (Lex(s, y) && !(s <= y) <==> Lex(s, y))
  {
    assert p[..1] == ParentPath(p)[..1] == ParentPath(last)[..1] == last[..1];
    PreviousSibling(d, last, p);
    SiblingOrder(last, p);
    var s := ParentPath(last) + [LastIndex(last) - 1];
    assert ParentPath(s) == ParentPath(last);
    NextSiblingSplits(s, last, s);
    LexTotal(p, s);
    LexTotal(p, last);
    forall y | y in d && Siblings(p, y) ensures s <= y ==> !Lex(s, y) {
      SiblingOrder(s, y);
      LexTotal(s, s);
    }
  }

  lemma NoneBeforeFirst(d: Forest, c: set<XNode>, p: Path, last: Path)
    requires forall y :: y in c ==> y.Tree? && y.path in d && Siblings(p, y.path)
    requires last in d && last != [] && |last| == |p| && (|last| == 1 || (ParentPath(last) == ParentPath(p) && LastIndex(last) == 0))
    ensures c <= From(d, last)
  {
    forall y | y in c ensures y in From(d, last) {
      SiblingOrder(last, y.path);
      PathSplit(last);
      PathSplit(y.path);
    }
  }

  method FillAttribute(d: Forest, test: NodeTest, p: Path, once: bool, ns: NodeSetRaw)
    requires p in d
    modifies ns`nodes
    ensures ns.nodes == old(ns.nodes) + TakeOnce(once, StepSeq(d, AttributeAxis, test, Tree(p)))
  {
    ghost var base, out := ns.nodes, [];
    ghost var c := Candidates(d, AttributeAxis, test, Tree(p));
    var stop: bool;
    var i := 0;
    LexTotal(p, p);
    while i < |d[p].attributes|
      invariant 0 <= i <= |d[p].attributes|
      invariant ns.nodes == base + out && Gathered(true, out, c, FirstAttributes(p, i)) && (once ==> out == [])
    {
      ghost var done;
      stop, out, done := Visit(d, test, Attr(p, i), once, ns, true, c, base, out, FirstAttributes(p, i));
      if stop { return; }
      i := i + 1;
      assert done == FirstAttributes(p, i);
    }
    Finished(true, once, out, c, FirstAttributes(p, i));
  }

  ghost function FirstAttributes(p: Path, k: nat): set<XNode> {
    set i | 0 <= i < k :: Attr(p, i)
  }

  /** Climbs the parent links from `cur` and offers every node on the way. */
  method WalkAncestors(d: Forest, test: NodeTest, p: Path, start: Option<Path>, once: bool, ns: NodeSetRaw,
                       ghost c: set<XNode>, ghost base: seq<XNode>, ghost out0: seq<XNode>, ghost done0: set<XNode>)
    requires WellFormed(d) && p in d
    requires start.Some? ==> start.value in d && start.value <= p
    requires start.Some? ==> forall q :: q in d && q <= start.value ==> (Tree(q) in c <==> TreePasses(test, d[q]))
    requires start.Some? ==> forall y, q :: y in done0 && q in d && q <= start.value ==> Before(Tree(q), y)
    requires forall y :: y in c && y !in done0 ==> y.Tree? && y.path in d && start.Some? && y.path <= start.value
    requires ns.nodes == base + out0 && Gathered(false, out0, c, done0) && (once ==> out0 == [])
    modifies ns`nodes
    ensures ns.nodes == base + TakeOnce(once, Listed(false, c))
  {
    ghost var out, done := out0, done0;
    var stop: bool;
    var cur := start;
    while cur.Some?
      invariant cur.Some? ==> cur.value in d && start.Some? && cur.value <= start.value
      invariant forall y :: y in c && y !in done ==> y.Tree? && y.path in d && cur.Some? && y.path <= cur.value
      invariant cur.Some? ==> forall y, q :: y in done && q in d && q <= cur.value ==> Before(Tree(q), y)
      invariant ns.nodes == base + out && Gathered(false, out, c, done) && (once ==> out == [])
      decreases if cur.Some? then |cur.value| else 0
    {
      var v := cur.value;
      assert NodeOk(d, v);
      forall y | y in c && y !in done ensures y == Tree(v) || Before(y, Tree(v)) {
        if y.path != v { LexPrefix(y.path, v); }
      }
      stop, out, done := Visit(d, test, Tree(v), once, ns, false, c, base, out, done);
      if stop { return; }
      cur := Parent(d, v);
      forall y | y in c && y !in done ensures cur.Some? && y.path <= cur.value {
        assert NodeOk(d, y.path) && y.path != v;
        assert y.path < v;
      }
      if cur.Some? {
        forall q | q in d && q <= cur.value ensures Before(Tree(q), Tree(v)) { LexPrefix(q, v); }
      }
    }
    Finished(false, once, out, c, done);
  }

  method FillAncestor(d: Forest, orSelf: bool, test: NodeTest, x: XNode, once: bool, ns: NodeSetRaw)
    requires WellFormed(d) && ValidNode(d, x)
    modifies ns`nodes
    ensures ns.nodes == old(ns.nodes) +
      TakeOnce(once, StepSeq(d, if orSelf then AncestorOrSelf else Ancestor, test, x))
  {
    var p := x.path;
    ghost var base, out, done := ns.nodes, [], {};
    ghost var c := Candidates(d, if orSelf then AncestorOrSelf else Ancestor, test, x);
    assert NodeOk(d, p);
    var start := if x.Tree? then Parent(d, p) else Some(p);
    AncestorsAhead(d, x, start);
    AncestorCandidates(d, orSelf, test, x, start);
    // only node() accepts an attribute on its own axes
    if orSelf && (x.Attr? ==> test.AnyNode?) {
      var stop: bool;
      stop, out, done := Visit(d, test, x, once, ns, false, c, base, out, done);
      if stop { return; }
    }
    WalkAncestors(d, test, p, start, once, ns, c, base, out, done);
  }

  lemma AncestorCandidates(d: Forest, orSelf: bool, test: NodeTest, x: XNode, start: Option<Path>)
    requires WellFormed(d) && ValidNode(d, x)
    requires start == if x.Tree? then (if |x.path| > 1 then Some(ParentPath(x.path)) else None) else Some(x.path)
    ensures var c := Candidates(d, if orSelf then AncestorOrSelf else Ancestor, test, x);
            && (forall y :: y in c && y != x ==> y.Tree? && y.path in d && start.Some? && y.path <= start.value)
            && (forall y :: y in c ==> y == x || Before(y, x))
            && (start.Some? ==> forall q :: q in d && q <= start.value ==> (Tree(q) in c <==> TreePasses(test, d[q])))
            && (x in c ==> orSelf && (x.Attr? ==> test.AnyNode?))
            && (orSelf && (x.Attr? ==> test.AnyNode?) ==> (x in c <==> Passes(d, test, x)))
  {
    var c := Candidates(d, if orSelf then AncestorOrSelf else Ancestor, test, x);
    AncestorsAhead(d, x, start);
    forall y | y in c && y != x
      ensures y.Tree? && y.path in d && start.Some? && y.path <= start.value
    {
      assert NodeOk(d, y.path);
      assert x.Tree? ==> y.path < x.path;
    }
  }

  lemma AncestorsAhead(d: Forest, x: XNode, start: Option<Path>)
    requires WellFormed(d) && ValidNode(d, x)
    requires start == if x.Tree? then (if |x.path| > 1 then Some(ParentPath(x.path)) else None) else Some(x.path)
    ensures start.Some? ==> start.value in d && start.value <= x.path
    ensures start.Some? ==> forall q :: q in d && q <= start.value ==> Before(Tree(q), x)
    ensures start.Some? && x.Tree? ==> forall q :: q in d && q <= start.value ==> q < x.path
  {
    assert NodeOk(d, x.path);
    if start.Some? {
      forall q | q in d && q <= start.value ensures Before(Tree(q), x) {
        if q < x.path { LexPrefix(q, x.path); }
      }
    }
  }

  method FillSelf(d: Forest, axis: Axis, test: NodeTest, x: XNode, once: bool, ns: NodeSetRaw)
    requires ValidNode(d, x) && (axis == Self || (axis == DescendantOrSelf && x.Attr?))
    modifies ns`nodes
    ensures ns.nodes == old(ns.nodes) + TakeOnce(once, StepSeq(d, axis, test, x))
  {
    ghost var c := Candidates(d, axis, test, x);
    if x.Attr? ==> test.AnyNode? {
      SingleStep(c, x);
      var pushed := StepPush(d, test, x, ns);
    } else {
      assert c == {};
    }
  }

  lemma SingleStep(c: set<XNode>, x: XNode)
    requires forall y :: y in c ==> y == x
    ensures forall once :: TakeOnce(once, Listed(true, c)) == if x in c then [x] else []
  {
    if x in c {
      assert Elements([x]) == c;
      SortedOfIs([x]);
    } else {
      assert c == {};
    }
  }

  method FillParent(d: Forest, test: NodeTest, x: XNode, once: bool, ns: NodeSetRaw)
    requires WellFormed(d) && ValidNode(d, x)
    modifies ns`nodes
    ensures ns.nodes == old(ns.nodes) + TakeOnce(once, StepSeq(d, ParentAxis, test, x))
  {
    ghost var c := Candidates(d, ParentAxis, test, x);
    assert NodeOk(d, x.path);
    var parent := if x.Tree? then Parent(d, x.path) else Some(x.path);
    if parent.Some? {
      forall y | y in c ensures y == Tree(parent.value) {
        if x.Tree? { assert y.path == ParentPath(x.path); }
      }
      SingleStep(c, Tree(parent.value));
      var pushed := StepPush(d, test, Tree(parent.value), ns);
    } else {
      assert forall y :: y in c ==> NodeOk(d, y.path);
      assert c == {};
    }
  }

  /** Appends what a step selects from `x`, in axis order; with `once`, only the first node of it. */
  method StepFill(d: Forest, axis: Axis, test: NodeTest, x: XNode, once: bool, ns: NodeSetRaw)
    requires WellFormed(d) && (x.Nothing? || ValidNode(d, x))
    modifies ns`nodes
    ensures ns.nodes == old(ns.nodes) + TakeOnce(once, StepSeq(d, axis, test, x))
  {
    if x.Nothing? || axis.Namespace? || (x.Attr? && !AxisHasAttributes(axis)) {
      assert Candidates(d, axis, test, x) == {};
      return;
    }
    match axis
    case Ancestor => FillAncestor(d, false, test, x, once, ns);
    case AncestorOrSelf => FillAncestor(d, true, test, x, once, ns);
    case AttributeAxis => FillAttribute(d, test, x.path, once, ns);
    case Child => FillChild(d, test, x.path, once, ns);
    case Descendant => FillDescendant(d, false, test, x.path, once, ns);
    case DescendantOrSelf =>
      if x.Tree? { FillDescendant(d, true, test, x.path, once, ns); }
      else { FillSelf(d, DescendantOrSelf, test, x, once, ns); }
    case Following => FillFollowing(d, test, x, once, ns);
    case FollowingSibling => FillFollowingSibling(d, test, x.path, once, ns);
    case ParentAxis => FillParent(d, test, x, once, ns);
    case Preceding => FillPreceding(d, test, x, once, ns);
    case PrecedingSibling => FillPrecedingSibling(d, test, x.path, once, ns);
    case Self => FillSelf(d, Self, test, x, once, ns);
  }

  /** The axes that lead somewhere from an attribute. */
  predicate AxisHasAttributes(axis: Axis) {
    axis.Ancestor? || axis.AncestorOrSelf? || axis.DescendantOrSelf? || axis.Following?
    || axis.ParentAxis? || axis.Preceding? || axis.Self?
  }
}
