/** The walk over a tree: down to the first child, along to the next sibling, and up to the
    parent, and what is left to be printed at every turn. */
module MarkupPrinter {
  import opened Escapes
  import opened EscapedText
  import opened Markup

  function ChildrenOf(x: Item): seq<Item> {
    match x
    case Text(_) => []
    case Leaf(_) => []
    case Element(_, _, children) => children
    case Document(children) => children
  }

  /** One step on the way from the root to a node: the parent, how deep it stands, and which
      of its children comes next on the way. */
  datatype Step = Step(parent: Item, depth: nat, index: nat)

  /** The way from the root to a node, which its parent links lead back. */
  predicate IsWay(root: Item, way: seq<Step>, depth: nat) {
    way == [] ||
    (var s := way[|way| - 1];
     && s.index < |ChildrenOf(s.parent)|
     && IsWay(root, way[..|way| - 1], depth)
     && s.parent == NodeAt(root, way[..|way| - 1])
     && s.depth == DepthAt(way[..|way| - 1], depth))
  }

  function NodeAt(root: Item, way: seq<Step>): Item {
    if way == [] then root
    else
      var s := way[|way| - 1];
      if s.index < |ChildrenOf(s.parent)| then ChildrenOf(s.parent)[s.index] else root
  }

  function DepthAt(way: seq<Step>, depth: nat): nat {
    if way == [] then depth else Below(way[|way| - 1].parent, way[|way| - 1].depth)
  }

  /** What is written when all children of `p` have been. */
  function Close(p: Item, f: Format, depth: nat, due: Due): Output {
    if p.Element? then Output(Lead(f, depth, due) + EndTag(p), BOTH) else Output([], due)
  }

  /** What is written when a node with children is begun. */
  function Open(x: Item, f: Format, depth: nat, due: Due): Output {
    if x.Element? then Output(Lead(f, depth, due) + StartTag(x, f, depth), BOTH)
    else Output(Lead(f, depth, due), INDENT)
  }

  /** The rest of the children of `s.parent`, after child `s.index`, and its end. */
  function Rest(s: Step, f: Format, due: Due): Output
    requires s.index < |ChildrenOf(s.parent)|
  {
    var rest := PrintList(ChildrenOf(s.parent)[s.index + 1..], f, Below(s.parent, s.depth), due);
    var close := Close(s.parent, f, s.depth, rest.due);
    Output(rest.bytes + close.bytes, close.due)
  }

  /** What is still to be written once the node that `way` leads to has been. */
  function After(root: Item, way: seq<Step>, f: Format, depth: nat, due: Due): seq<Byte>
    requires IsWay(root, way, depth)
  {
    if way == [] then (if due.newline && !f.raw then [NEWLINE] else [])
    else
      var rest := Rest(way[|way| - 1], f, due);
      rest.bytes + After(root, way[..|way| - 1], f, depth, rest.due)
  }

  /** What is still to be written when that node comes next. */
  function From(root: Item, way: seq<Step>, f: Format, depth: nat, due: Due): seq<Byte>
    requires IsWay(root, way, depth)
  {
    var x := PrintItem(NodeAt(root, way), f, DepthAt(way, depth), due);
    x.bytes + After(root, way, f, depth, x.due)
  }

  lemma PrintOpen(x: Item, f: Format, depth: nat, due: Due)
    requires ChildrenOf(x) != []
    ensures var open := Open(x, f, depth, due);
      var first := PrintItem(ChildrenOf(x)[0], f, Below(x, depth), open.due);
      var rest := Rest(Step(x, depth, 0), f, first.due);
      PrintItem(x, f, depth, due) == Output(open.bytes + (first.bytes + rest.bytes), rest.due)
  {
    var open := Open(x, f, depth, due);
    var ks := ChildrenOf(x);
    var first := PrintItem(ks[0], f, Below(x, depth), open.due);
    var others := PrintList(ks[1..], f, Below(x, depth), first.due);
    var body := PrintList(ks, f, Below(x, depth), open.due);
    assert body == Output(first.bytes + others.bytes, others.due);
    var close := Close(x, f, depth, others.due);
    Join(open.bytes, first.bytes, others.bytes, close.bytes);
    if x.Element? {
      assert PrintItem(x, f, depth, due).bytes == open.bytes + body.bytes + Lead(f, depth, body.due) + EndTag(x);
      assert open.bytes + body.bytes + Lead(f, depth, body.due) + EndTag(x) == open.bytes + body.bytes + close.bytes;
    } else {
      assert close.bytes == [] && open.bytes + body.bytes + close.bytes == open.bytes + body.bytes;
    }
  }

  lemma Join(a: seq<Byte>, b: seq<Byte>, c: seq<Byte>, d: seq<Byte>)
    ensures a + (b + c) + d == a + (b + (c + d))
    ensures a + b + c + d == a + b + (c + d)
    ensures (a + b) + c == a + (b + c)
  {
  }

  lemma NextStep(root: Item, way: seq<Step>, depth: nat, s: Step)
    requires IsWay(root, way, depth) && s.index < |ChildrenOf(s.parent)|
    requires s.parent == NodeAt(root, way) && s.depth == DepthAt(way, depth)
    ensures var next := way + [s];
      IsWay(root, next, depth) && NodeAt(root, next) == ChildrenOf(s.parent)[s.index]
      && DepthAt(next, depth) == Below(s.parent, s.depth) && next[..|next| - 1] == way && next[|next| - 1] == s
  {
    assert (way + [s])[..|way|] == way;
  }

  /** Going down to the first child, after the start of its parent. */
  lemma GoDown(root: Item, way: seq<Step>, f: Format, depth: nat, due: Due, s: Step)
    requires IsWay(root, way, depth) && s == Step(NodeAt(root, way), DepthAt(way, depth), 0)
    requires ChildrenOf(s.parent) != []
    ensures IsWay(root, way + [s], depth)
    ensures var open := Open(s.parent, f, s.depth, due);
      From(root, way, f, depth, due) == open.bytes + From(root, way + [s], f, depth, open.due)
  {
    NextStep(root, way, depth, s);
    PrintOpen(s.parent, f, s.depth, due);
    var open := Open(s.parent, f, s.depth, due);
    var first := PrintItem(ChildrenOf(s.parent)[0], f, Below(s.parent, s.depth), open.due);
    var rest := Rest(s, f, first.due);
    Join(open.bytes, first.bytes, rest.bytes, After(root, way, f, depth, rest.due));
  }

  /** Going along to the next sibling. */
  lemma GoAlong(root: Item, way: seq<Step>, f: Format, depth: nat, due: Due, s: Step)
    requires IsWay(root, way, depth) && way != [] && s == way[|way| - 1] && s.index + 1 < |ChildrenOf(s.parent)|
    ensures var next := way[..|way| - 1] + [s.(index := s.index + 1)];
      IsWay(root, next, depth) && After(root, way, f, depth, due) == From(root, next, f, depth, due)
  {
    var up, t := way[..|way| - 1], s.(index := s.index + 1);
    NextStep(root, up, depth, t);
    var ks := ChildrenOf(s.parent);
    assert ks[s.index + 1..][0] == ks[t.index] && ks[s.index + 1..][1..] == ks[t.index + 1..];
    var first := PrintItem(ks[t.index], f, Below(s.parent, s.depth), due);
    var rest := Rest(t, f, first.due);
    var others := PrintList(ks[t.index + 1..], f, Below(s.parent, s.depth), first.due);
    var close := Close(s.parent, f, s.depth, others.due);
    assert Rest(s, f, due) == Output(first.bytes + others.bytes + close.bytes, close.due);
    assert rest == Output(others.bytes + close.bytes, close.due);
    Join(first.bytes, others.bytes, close.bytes, []);
    Join(first.bytes, rest.bytes, After(root, up, f, depth, rest.due), []);
  }

  /** Going up to the parent, whose end comes next. */
  lemma GoUp(root: Item, way: seq<Step>, f: Format, depth: nat, due: Due, s: Step)
    requires IsWay(root, way, depth) && way != [] && s == way[|way| - 1] && s.index + 1 == |ChildrenOf(s.parent)|
    ensures IsWay(root, way[..|way| - 1], depth)
    ensures var close := Close(s.parent, f, s.depth, due);
      After(root, way, f, depth, due) == close.bytes + After(root, way[..|way| - 1], f, depth, close.due)
  {
    assert ChildrenOf(s.parent)[s.index + 1..] == [];
    assert Rest(s, f, due).bytes == Close(s.parent, f, s.depth, due).bytes;
  }

  // ---------- the walk ----------

  function Size(x: Item): (n: nat)
    ensures n > 0
    decreases x
  {
    match x
    case Text(_) => 1
    case Leaf(_) => 1
    case Element(_, _, children) => 1 + SizeAll(children)
    case Document(children) => 1 + SizeAll(children)
  }

  function SizeAll(xs: seq<Item>): nat
    decreases xs
  {
    if xs == [] then 0 else Size(xs[0]) + SizeAll(xs[1..])
  }

  /** How many nodes come after the one that `way` leads to. */
  function SizeAfter(way: seq<Step>): nat {
    if way == [] then 0
    else
      var s := way[|way| - 1];
      (if s.index < |ChildrenOf(s.parent)| then SizeAll(ChildrenOf(s.parent)[s.index + 1..]) else 0)
      + SizeAfter(way[..|way| - 1])
  }

  lemma LeadIs(f: Format, depth: nat, due: Due)
    ensures |f.indent| == 0 ==> Indentation(f.indent, depth) == []
  {
    if depth > 0 {
      LeadIs(f, depth - 1, due);
    }
  }

  lemma SizeAlong(root: Item, way: seq<Step>, depth: nat, s: Step)
    requires IsWay(root, way, depth) && way != [] && s == way[|way| - 1] && s.index + 1 < |ChildrenOf(s.parent)|
    ensures var next := way[..|way| - 1] + [s.(index := s.index + 1)];
      Size(NodeAt(root, next)) + SizeAfter(next) == SizeAfter(way)
  {
    var next := way[..|way| - 1] + [s.(index := s.index + 1)];
    var ks := ChildrenOf(s.parent);
    assert next[..|next| - 1] == way[..|way| - 1];
    assert ks[s.index + 1..][1..] == ks[s.index + 2..];
  }

  lemma SizeDown(root: Item, way: seq<Step>, s: Step)
    requires s.parent == NodeAt(root, way) && s.index == 0 && ChildrenOf(s.parent) != []
    ensures Size(NodeAt(root, way + [s])) + SizeAfter(way + [s]) < Size(s.parent) + SizeAfter(way)
  {
    assert (way + [s])[..|way + [s]| - 1] == way;
    assert Size(s.parent) == 1 + SizeAll(ChildrenOf(s.parent));
  }
}
