/** The printer's walk over linked nodes: down to the first child, along to the next sibling,
    up to the parent, without recursion and without a stack. */
module DomPrinter {
  import opened Escapes
  import opened EscapedText
  import opened DomLinks
  import opened DomTree
  import opened DomCopy
  import opened Markup
  import opened SimpleNodes
  import W = MarkupPrinter

  // ---------- what a node is to the printer ----------

  /** `:anonymous`, for what has no name. */
  const ANONYMOUS: CText := [58, 97, 110, 111, 110, 121, 109, 111, 117, 115]

  function NameOf(t: DomLinks.Text): (s: CText) {
    if t.Present? then t.text else ANONYMOUS
  }

  function ValueOf(t: DomLinks.Text): (s: CText) {
    if t.Present? then t.text else []
  }

  function DataOf(t: DomLinks.Text): Optional {
    if t.Present? then Given(t.text) else Missing
  }

  function AttributeOf(a: DomLinks.Attribute): Attr {
    Attr(NameOf(a.name), ValueOf(a.value))
  }

  function AttributesOf(s: seq<DomLinks.Attribute>): (r: seq<Attr>)
    ensures |r| == |s|
  {
    if s == [] then [] else [AttributeOf(s[0])] + AttributesOf(s[1..])
  }

  function ItemOf(x: Shape): Item
    decreases x
  {
    match x.kind
    case DocumentKind => Document(ItemsOf(x.children))
    case ElementKind => Element(NameOf(x.name), AttributesOf(x.attributes), ItemsOf(x.children))
    case PcdataKind => Item.Text(ValueOf(x.value))
    case CdataKind => Leaf(Cdata(ValueOf(x.value)))
    case CommentKind => Leaf(Comment(ValueOf(x.value)))
    case PiKind => Leaf(Instruction(NameOf(x.name), DataOf(x.value)))
    case DeclarationKind => Leaf(Declaration(NameOf(x.name), AttributesOf(x.attributes)))
    case DoctypeKind => Leaf(Doctype(DataOf(x.value)))
  }

  function ItemsOf(xs: seq<Shape>): (r: seq<Item>)
    ensures |r| == |xs|
    decreases xs
  {
    if xs == [] then [] else [ItemOf(xs[0])] + ItemsOf(xs[1..])
  }

  lemma {:induction false} ItemsAt(xs: seq<Shape>, i: nat)
    requires i < |xs|
    ensures ItemsOf(xs)[i] == ItemOf(xs[i])
  {
    if i > 0 {
      ItemsAt(xs[1..], i - 1);
    }
  }

  lemma {:induction false} ShapesAt(t: Trees, n: Node, from: nat, i: nat)
    requires t.Valid() && n in t.nodes && from <= |t.kids[n]| && i < |t.kids[n]| - from
    ensures |ShapesFrom(t, n, from)| == |t.kids[n]| - from
    ensures ShapesFrom(t, n, from)[i] == ShapeOf(t, Kid(t, n, from + i))
    decreases i
  {
    ShapesCount(t, n, from);
    if i > 0 {
      ShapesAt(t, n, from + 1, i - 1);
    }
  }

  lemma {:induction false} ShapesCount(t: Trees, n: Node, from: nat)
    requires t.Valid() && n in t.nodes && from <= |t.kids[n]|
    ensures |ShapesFrom(t, n, from)| == |t.kids[n]| - from
    decreases |t.kids[n]| - from
  {
    if from < |t.kids[n]| {
      ShapesCount(t, n, from + 1);
    }
  }

  /** A node as the printer sees it. */
  ghost function ItemAt(t: Trees, n: Node): Item
    requires t.Valid() && n in t.nodes
    reads t.nodes`name, t.nodes`value, t.nodes`attributes
  {
    ItemOf(ShapeOf(t, n))
  }

  predicate IsParent(n: Node) {
    n.kind.DocumentKind? || n.kind.ElementKind?
  }

  /** The children of the item are the items of the children. */
  lemma ChildItems(t: Trees, n: Node)
    requires t.Valid() && n in t.nodes
    ensures IsParent(n) ==> |W.ChildrenOf(ItemAt(t, n))| == |t.kids[n]|
    ensures !IsParent(n) ==> W.ChildrenOf(ItemAt(t, n)) == []
  {
    ShapesCount(t, n, 0);
  }

  lemma ChildItem(t: Trees, n: Node, i: nat)
    requires t.Valid() && n in t.nodes && IsParent(n) && i < |t.kids[n]|
    ensures i < |W.ChildrenOf(ItemAt(t, n))|
    ensures W.ChildrenOf(ItemAt(t, n))[i] == ItemAt(t, Kid(t, n, i))
  {
    ShapesCount(t, n, 0);
    ShapesAt(t, n, 0, i);
    ItemsAt(ShapesFrom(t, n, 0), i);
  }

  // ---------- writing one node ----------

  method WriteText(s: CText, attribute: bool, f: Format) returns (out: seq<Byte>)
    ensures out == PrintText(s, attribute, f)
  {
    if f.escapes {
      out := TextOutputEscaped(s, Style(attribute, f.singleQuote, f.skipControl));
    } else {
      out := s;
    }
  }

  /** `text_output_indent`. */
  method WriteIndent(indent: seq<Byte>, depth: nat) returns (out: seq<Byte>)
    ensures out == Indentation(indent, depth)
  {
    out := [];
    for i := 0 to depth
      invariant out == Indentation(indent, i)
    {
      out := out + indent;
    }
  }

  method WriteLead(f: Format, depth: nat, due: Due) returns (out: seq<Byte>)
    ensures out == Lead(f, depth, due)
  {
    out := [];
    if due.newline && !f.raw {
      out := out + [NEWLINE];
    }
    if due.indent && |f.indent| > 0 {
      var indentation := WriteIndent(f.indent, depth);
      out := out + indentation;
    }
    W.LeadIs(f, depth, due);
  }

  lemma {:induction false} AttributesGrow(s: seq<DomLinks.Attribute>, i: nat, f: Format, depth: nat)
    requires i < |s|
    ensures PrintAttributes(AttributesOf(s[..i + 1]), f, depth)
         == PrintAttributes(AttributesOf(s[..i]), f, depth) + PrintAttribute(AttributeOf(s[i]), f, depth)
    decreases i
  {
    if i == 0 {
      assert s[..1] == [s[0]] && s[..1][1..] == [];
      assert AttributesOf(s[..1]) == [AttributeOf(s[0])];
    } else {
      assert s[..i + 1][1..] == s[1..][..i] && s[..i][1..] == s[1..][..i - 1];
      AttributesGrow(s[1..], i - 1, f, depth);
    }
  }

  method WriteAttribute(name: CText, value: CText, f: Format, depth: nat) returns (out: seq<Byte>)
    ensures out == PrintAttribute(Attr(name, value), f, depth)
  {
    var quote := if f.singleQuote then APOSTROPHE else QUOTE;
    if f.indentAttributes && !f.raw {
      out := WriteIndent(f.indent, depth + 1);
      out := [NEWLINE] + out;
    } else {
      out := [SPACE];
    }
    var text := WriteText(value, true, f);
    out := out + name + [EQUALS, quote] + text + [quote];
  }

  /** `node_output_attributes`. */
  method WriteAttributes(node: Node, f: Format, depth: nat) returns (out: seq<Byte>)
    ensures out == PrintAttributes(AttributesOf(node.attributes), f, depth)
  {
    out := [];
    var i := 0;
    while i < |node.attributes|
      invariant i <= |node.attributes| && out == PrintAttributes(AttributesOf(node.attributes[..i]), f, depth)
    {
      AttributesGrow(node.attributes, i, f, depth);
      var a := node.attributes[i];
      var bytes := WriteAttribute(NameOf(a.name), ValueOf(a.value), f, depth);
      out := out + bytes;
      i := i + 1;
    }
    assert node.attributes[..i] == node.attributes;
  }

  /** `node_output_start`: whether the children are still to come. */
  method WriteStart(node: Node, f: Format, depth: nat, ghost x: Item) returns (out: seq<Byte>, open: bool)
    requires x.Element? && x.name == NameOf(node.name) && x.attributes == AttributesOf(node.attributes)
    requires node.first == null <==> x.children == []
    ensures out == StartTag(x, f, depth) && (open <==> x.children != [])
  {
    var name := NameOf(node.name);
    var attributes := WriteAttributes(node, f, depth);
    out := [LESS] + name + attributes;
    open := node.first != null;
    if open {
      out := out + [GREATER];
    } else {
      var end := WriteEmptyEnd(name, f);
      out := out + end;
    }
  }

  method WriteEmptyEnd(name: seq<Byte>, f: Format) returns (out: seq<Byte>)
    ensures out == EmptyEnd(name, f)
  {
    if f.closeEmpty {
      out := [GREATER, LESS, SLASH] + name + [GREATER];
    } else {
      out := if f.raw then [] else [SPACE];
      out := out + [SLASH, GREATER];
    }
  }

  /** `node_output_end`. */
  method WriteEnd(name: seq<Byte>, ghost x: Item) returns (out: seq<Byte>)
    requires x.Element? && x.name == name
    ensures out == EndTag(x)
  {
    out := [LESS, SLASH] + name + [GREATER];
  }

  function SimpleOf(node: Node): Simple
    requires !IsParent(node) && !node.kind.PcdataKind?
    reads node
  {
    match node.kind
    case CdataKind => Cdata(ValueOf(node.value))
    case CommentKind => Comment(ValueOf(node.value))
    case PiKind => Instruction(NameOf(node.name), DataOf(node.value))
    case DeclarationKind => Declaration(NameOf(node.name), AttributesOf(node.attributes))
    case DoctypeKind => Doctype(DataOf(node.value))
    case _ => Doctype(Missing)
  }

  /** `node_output_simple`, but for character data. */
  method WriteSimple(node: Node, f: Format) returns (out: seq<Byte>)
    requires !IsParent(node) && !node.kind.PcdataKind?
    ensures out == PrintSimple(SimpleOf(node), f)
  {
    match node.kind {
      case CdataKind => out := OutputCdata(ValueOf(node.value), f);
      case CommentKind => out := OutputComment(ValueOf(node.value), f);
      case PiKind => out := WriteInstruction(NameOf(node.name), node.value, f);
      case DeclarationKind =>
        var attributes := WriteAttributes(node, f.(raw := true), 0);
        out := WriteDeclaration(NameOf(node.name), attributes, node, f);
      case DoctypeKind => out := WriteDoctype(node.value, f);
    }
  }

  method WriteInstruction(name: CText, value: DomLinks.Text, f: Format) returns (out: seq<Byte>)
    ensures out == PrintSimple(Instruction(name, DataOf(value)), f)
  {
    out := [LESS, QUESTION] + name;
    if value.Present? {
      var body := OutputInstructionValue(value.text);
      out := out + ([SPACE] + body);
    }
    out := out + [QUESTION, GREATER];
  }

  method WriteDeclaration(name: CText, attributes: seq<Byte>, node: Node, f: Format) returns (out: seq<Byte>)
    requires attributes == PrintAttributes(AttributesOf(node.attributes), f.(raw := true), 0)
    ensures out == PrintSimple(Declaration(name, AttributesOf(node.attributes)), f)
  {
    out := [LESS, QUESTION] + name + attributes + [QUESTION, GREATER];
  }

  method WriteDoctype(value: DomLinks.Text, f: Format) returns (out: seq<Byte>)
    ensures out == PrintSimple(Doctype(DataOf(value)), f)
  {
    out := DOCTYPE_START;
    if value.Present? {
      out := out + ([SPACE] + value.text);
    }
    out := out + [GREATER];
  }

  // ---------- the walk ----------

  /** The nodes on the way from the root, which the parent links lead back through. */
  ghost predicate Along(t: Trees, root: Node, way: seq<W.Step>, path: seq<Node>, node: Node)
    requires t.Valid()
    reads t.nodes`name, t.nodes`value, t.nodes`attributes
    decreases |way|
  {
    && node in t.nodes && |path| == |way|
    && if way == [] then node == root
       else
         var p, s := path[|path| - 1], way[|way| - 1];
         && p in t.nodes && IsParent(p) && s.parent == ItemAt(t, p)
         && s.index < |t.kids[p]| && t.kids[p][s.index] == node
         && Along(t, root, way[..|way| - 1], path[..|path| - 1], p)
  }

  /** The walk stands at `node`, and the way to it on values is `way`. */
  ghost predicate StandsAt(t: Trees, root: Node, way: seq<W.Step>, path: seq<Node>, node: Node, depth: nat, level: nat)
    requires t.Valid()
    reads t.nodes`name, t.nodes`value, t.nodes`attributes
  {
    && root in t.nodes && Along(t, root, way, path, node)
    && W.IsWay(ItemAt(t, root), way, depth) && level == W.DepthAt(way, depth)
    && W.NodeAt(ItemAt(t, root), way) == ItemAt(t, node)
  }

  lemma {:induction false} AlongBelow(t: Trees, root: Node, way: seq<W.Step>, path: seq<Node>, node: Node)
    requires t.Valid() && root in t.nodes && Along(t, root, way, path, node)
    ensures way != [] ==> t.rank[root] < t.rank[node]
    ensures way == [] <==> node == root
    decreases |way|
  {
    if way != [] {
      var p := path[|path| - 1];
      assert node == Kid(t, p, way[|way| - 1].index);
      AlongBelow(t, root, way[..|way| - 1], path[..|path| - 1], p);
    }
  }

  lemma AlongStep(t: Trees, root: Node, way: seq<W.Step>, path: seq<Node>, p: Node, s: W.Step, depth: nat, level: nat)
    requires t.Valid() && StandsAt(t, root, way, path, p, depth, level) && IsParent(p)
    requires s.parent == ItemAt(t, p) && s.depth == level && s.index < |t.kids[p]|
    ensures StandsAt(t, root, way + [s], path + [p], t.kids[p][s.index], depth, Below(s.parent, level))
    ensures (way + [s])[..|way|] == way && (path + [p])[..|path|] == path
  {
    assert (way + [s])[..|way|] == way && (path + [p])[..|path|] == path;
    ChildItem(t, p, s.index);
    W.NextStep(ItemAt(t, root), way, depth, s);
    assert t.kids[p][s.index] == Kid(t, p, s.index);
  }

  /** Back from a node to its parent. */
  lemma AlongBack(t: Trees, root: Node, way: seq<W.Step>, path: seq<Node>, node: Node, depth: nat, level: nat)
    requires t.Valid() && StandsAt(t, root, way, path, node, depth, level) && way != []
    ensures var p, s := path[|path| - 1], way[|way| - 1];
            && StandsAt(t, root, way[..|way| - 1], path[..|path| - 1], p, depth, s.depth)
            && s.parent == ItemAt(t, p) && IsParent(p) && p in t.nodes && level == Below(s.parent, s.depth)
            && s.index < |t.kids[p]| == |W.ChildrenOf(s.parent)| && t.kids[p][s.index] == node
            && node in t.up && t.up[node] == p
  {
    var p, s := path[|path| - 1], way[|way| - 1];
    ChildItems(t, p);
    assert node == Kid(t, p, s.index);
  }

  /** What is left to be written and how many nodes are left, at a node that comes next or has
      been written. */
  datatype View = View(from: (seq<W.Step>, Due) -> seq<Byte>, after: (seq<W.Step>, Due) -> seq<Byte>, togo: seq<W.Step> -> int,
                       behind: seq<W.Step> -> int)

  ghost predicate IsView(v: View, x: Item, f: Format, depth: nat) {
    && (forall way, due {:trigger W.From(x, way, f, depth, due)} :: W.IsWay(x, way, depth) ==>
          v.from(way, due) == W.From(x, way, f, depth, due))
    && (forall way, due {:trigger W.After(x, way, f, depth, due)} :: W.IsWay(x, way, depth) ==>
          v.after(way, due) == W.After(x, way, f, depth, due))
    && (forall way {:trigger W.NodeAt(x, way)} :: v.togo(way) == W.Size(W.NodeAt(x, way)) + W.SizeAfter(way))
    && (forall way {:trigger W.SizeAfter(way)} :: v.behind(way) == W.SizeAfter(way))
  }

  function ViewOf(x: Item, f: Format, depth: nat): View {
    View((way: seq<W.Step>, due: Due) => if W.IsWay(x, way, depth) then W.From(x, way, f, depth, due) else [],
      (way: seq<W.Step>, due: Due) => if W.IsWay(x, way, depth) then W.After(x, way, f, depth, due) else [],
      (way: seq<W.Step>) => W.Size(W.NodeAt(x, way)) + W.SizeAfter(way),
      (way: seq<W.Step>) => W.SizeAfter(way))
  }

  lemma ViewIs(x: Item, f: Format, depth: nat)
    ensures IsView(ViewOf(x, f, depth), x, f, depth)
    ensures Print(x, f, depth) == ViewOf(x, f, depth).from([], INDENT)
    ensures forall due: Due :: ViewOf(x, f, depth).after([], due) == if due.newline && !f.raw then [NEWLINE] else []
  {
    var v := ViewOf(x, f, depth);
    assert W.IsWay(x, [], depth) && W.NodeAt(x, []) == x && W.DepthAt([], depth) == depth;
    forall due: Due ensures v.after([], due) == if due.newline && !f.raw then [NEWLINE] else [] {
      assert v.after([], due) == W.After(x, [], f, depth, due);
    }
    var whole := PrintItem(x, f, depth, INDENT);
    assert v.from([], INDENT) == W.From(x, [], f, depth, INDENT) == whole.bytes + W.After(x, [], f, depth, whole.due);
  }

  lemma ViewAlong(v: View, x: Item, f: Format, depth: nat, way: seq<W.Step>, due: Due, s: W.Step, way': seq<W.Step>)
    requires IsView(v, x, f, depth) && W.IsWay(x, way, depth) && way != [] && s == way[|way| - 1]
    requires s.index + 1 < |W.ChildrenOf(s.parent)| && way' == way[..|way| - 1] + [s.(index := s.index + 1)]
    ensures v.after(way, due) == v.from(way', due) && 0 <= v.togo(way') == v.behind(way)
  {
    W.GoAlong(x, way, f, depth, due, s);
    W.SizeAlong(x, way, depth, s);
    assert v.after(way, due) == W.After(x, way, f, depth, due);
    assert v.from(way', due) == W.From(x, way', f, depth, due);
  }

  lemma StandsAlong(d: Store, root: Node, way: seq<W.Step>, path: seq<Node>, node: Node, depth: nat, level: nat, s: W.Step)
    requires d.Mirrors() && StandsAt(d.trees, root, way, path, node, depth, level) && way != [] && node.next != null
    requires s == way[|way| - 1]
    ensures s.index + 1 < |W.ChildrenOf(s.parent)|
    ensures StandsAt(d.trees, root, way[..|way| - 1] + [s.(index := s.index + 1)], path, node.next, depth, level)
  {
    var p := path[|path| - 1];
    AlongBack(d.trees, root, way, path, node, depth, level);
    NextLink(d, p, s.index);
    AlongStep(d.trees, root, way[..|way| - 1], path[..|path| - 1], p, s.(index := s.index + 1), depth, s.depth);
    assert path[..|path| - 1] + [p] == path;
  }

  /** From a node with a next sibling to that sibling. */
  lemma Onward(d: Store, root: Node, way: seq<W.Step>, path: seq<Node>, node: Node, f: Format, depth: nat, level: nat, due: Due, v: View)
    returns (way': seq<W.Step>)
    requires d.Mirrors() && StandsAt(d.trees, root, way, path, node, depth, level) && way != [] && node.next != null
    requires IsView(v, ItemAt(d.trees, root), f, depth)
    ensures StandsAt(d.trees, root, way', path, node.next, depth, level) && way' != [] && node.next != root
    ensures v.after(way, due) == v.from(way', due) && 0 <= v.togo(way') == v.behind(way)
  {
    var s := way[|way| - 1];
    way' := way[..|way| - 1] + [s.(index := s.index + 1)];
    StandsAlong(d, root, way, path, node, depth, level, s);
    ViewAlong(v, ItemAt(d.trees, root), f, depth, way, due, s, way');
    AlongBelow(d.trees, root, way', path, node.next);
  }

  /** From a last child to its parent. */
  lemma Upward(d: Store, root: Node, way: seq<W.Step>, path: seq<Node>, node: Node, f: Format, depth: nat, level: nat, due: Due, v: View)
    returns (way': seq<W.Step>, path': seq<Node>, level': nat)
    requires d.Mirrors() && StandsAt(d.trees, root, way, path, node, depth, level) && way != [] && node.next == null
    requires IsView(v, ItemAt(d.trees, root), f, depth)
    ensures node.parent != null && node.parent in d.trees.nodes && IsParent(node.parent)
    ensures StandsAt(d.trees, root, way', path', node.parent, depth, level') && |way'| < |way|
    ensures level == Below(ItemAt(d.trees, node.parent), level') && (node.parent == root <==> way' == [])
    ensures var close := W.Close(ItemAt(d.trees, node.parent), f, level', due);
            v.after(way, due) == close.bytes + v.after(way', close.due) && 0 <= v.behind(way') <= v.behind(way)
  {
    var x, p, s := ItemAt(d.trees, root), path[|path| - 1], way[|way| - 1];
    AlongBack(d.trees, root, way, path, node, depth, level);
    NextLink(d, p, s.index);
    LinksOf(d, node);
    W.GoUp(x, way, f, depth, due, s);
    way', path', level' := way[..|way| - 1], path[..|path| - 1], s.depth;
    AlongBelow(d.trees, root, way', path', p);
  }

  /** From a node to its first child. */
  lemma Downward(d: Store, root: Node, way: seq<W.Step>, path: seq<Node>, node: Node, f: Format, depth: nat, level: nat, due: Due, v: View)
    returns (way': seq<W.Step>)
    requires d.Mirrors() && StandsAt(d.trees, root, way, path, node, depth, level) && W.ChildrenOf(ItemAt(d.trees, node)) != []
    requires IsView(v, ItemAt(d.trees, root), f, depth)
    ensures node.first != null
    ensures StandsAt(d.trees, root, way', path + [node], node.first, depth, Below(ItemAt(d.trees, node), level))
    ensures var open := W.Open(ItemAt(d.trees, node), f, level, due);
            v.from(way, due) == open.bytes + v.from(way', open.due) && 0 <= v.togo(way') < v.togo(way)
  {
    var x, s := ItemAt(d.trees, root), W.Step(ItemAt(d.trees, node), level, 0);
    ChildItems(d.trees, node);
    LinksOf(d, node);
    W.GoDown(x, way, f, depth, due, s);
    W.SizeDown(x, way, s);
    AlongStep(d.trees, root, way, path, node, s, depth, level);
    way' := way + [s];
  }

  /** A node without children is written whole. */
  lemma Staying(t: Trees, root: Node, way: seq<W.Step>, path: seq<Node>, node: Node, f: Format, depth: nat, level: nat, due: Due, v: View)
    requires t.Valid() && StandsAt(t, root, way, path, node, depth, level) && IsView(v, ItemAt(t, root), f, depth)
    ensures var whole := PrintItem(ItemAt(t, node), f, level, due);
            v.from(way, due) == whole.bytes + v.after(way, whole.due) && 0 <= v.behind(way) < v.togo(way)
  {
    var x := ItemAt(t, root);
    var whole := PrintItem(ItemAt(t, node), f, level, due);
    assert W.From(x, way, f, depth, due) == whole.bytes + W.After(x, way, f, depth, whole.due);
    assert W.SizeAfter(way) < W.Size(W.NodeAt(x, way)) + W.SizeAfter(way);
  }

  /** What the links of a node say. */
  lemma LinksOf(d: Store, node: Node)
    requires d.Mirrors() && node in d.trees.nodes
    ensures node.first == FirstOf(d.trees.kids[node])
    ensures node in d.trees.up ==> node.parent == d.trees.up[node]
  {
    assert d.MirrorsAt(node);
  }

  lemma NextLink(d: Store, p: Node, i: nat)
    requires d.Mirrors() && p in d.trees.nodes && i < |d.trees.kids[p]|
    ensures d.trees.kids[p][i].next == NextOf(d.trees.kids[p], i)
  {
    assert d.MirrorsAt(p);
    assert Linked(p, d.trees.kids[p], i);
  }

  /** Write a node that has no children, or the start of one that has; the latter if `open`. */
  method Begin(d: Store, node: Node, f: Format, depth: nat, due: Due) returns (bytes: seq<Byte>, due': Due, open: bool)
    requires d.Mirrors() && node in d.trees.nodes
    ensures var x := ItemAt(d.trees, node);
            && (open <==> W.ChildrenOf(x) != [])
            && Output(bytes, due') == if open then W.Open(x, f, depth, due) else PrintItem(x, f, depth, due)
  {
    ghost var x := ItemAt(d.trees, node);
    ChildItems(d.trees, node);
    LinksOf(d, node);
    match node.kind {
      case PcdataKind =>
        bytes := WriteText(ValueOf(node.value), false, f);
        due', open := NONE, false;
      case CdataKind =>
        bytes := WriteSimple(node, f);
        due', open := NONE, false;
      case ElementKind =>
        var lead := WriteLead(f, depth, due);
        var start;
        start, open := WriteStart(node, f, depth, x);
        bytes, due' := lead + start, BOTH;
      case DocumentKind =>
        bytes := WriteLead(f, depth, due);
        due', open := INDENT, node.first != null;
        assert bytes + [] == bytes;
      case _ =>
        var lead := WriteLead(f, depth, due);
        var simple := WriteSimple(node, f);
        bytes, due', open := lead + simple, BOTH, false;
    }
  }

  /** Write what ends a node when all of its children have been written. */
  method End(d: Store, p: Node, f: Format, level: nat, due: Due, ghost depth: nat)
    returns (bytes: seq<Byte>, due': Due, level': nat)
    requires d.Mirrors() && p in d.trees.nodes && IsParent(p) && level == Below(ItemAt(d.trees, p), depth)
    ensures level' == depth && Output(bytes, due') == W.Close(ItemAt(d.trees, p), f, depth, due)
  {
    if p.kind.ElementKind? {
      level' := level - 1;
      var lead := WriteLead(f, level', due);
      var end := WriteEnd(NameOf(p.name), ItemAt(d.trees, p));
      return lead + end, BOTH, level';
    }
    return [], due, level;
  }

  /** On to the next node: along if there is a next sibling, else up until there is one, or
      until the root is reached again. */
  method Proceed(d: Store, root: Node, from: Node, f: Format, from_level: nat, from_due: Due, so_far: seq<Byte>,
                 ghost depth: nat, ghost from_way: seq<W.Step>, ghost from_path: seq<Node>, ghost v: View, ghost total: seq<Byte>)
    returns (node: Node, level: nat, due: Due, out: seq<Byte>, ghost way: seq<W.Step>, ghost path: seq<Node>)
    requires d.Mirrors() && StandsAt(d.trees, root, from_way, from_path, from, depth, from_level)
    requires IsView(v, ItemAt(d.trees, root), f, depth) && so_far + v.after(from_way, from_due) == total
    ensures StandsAt(d.trees, root, way, path, node, depth, level)
    ensures out + (if node == root then v.after(way, due) else v.from(way, due)) == total
    ensures node == root <==> way == []
    ensures node != root ==> 0 <= v.togo(way) <= v.behind(from_way)
  {
    node, level, due, out, way, path := from, from_level, from_due, so_far, from_way, from_path;
    AlongBelow(d.trees, root, way, path, node);
    while node != root
      invariant StandsAt(d.trees, root, way, path, node, depth, level) && (node == root <==> way == [])
      invariant out + v.after(way, due) == total && v.behind(way) <= v.behind(from_way)
      decreases |way|
    {
      if node.next != null {
        way := Onward(d, root, way, path, node, f, depth, level, due, v);
        node := node.next;
        return;
      }
      ghost var rest, levels;
      rest, path, levels := Upward(d, root, way, path, node, f, depth, level, due, v);
      node := node.parent;
      var bytes;
      bytes, due, level := End(d, node, f, level, due, levels);
      W.Join(out, bytes, v.after(rest, due), []);
      way := rest;
      out := out + bytes;
    }
  }

  /** `node_output`: the walk writes what the recursive reading of the tree says. */
  method NodeOutput(d: Store, root: Node, f: Format, depth: nat) returns (out: seq<Byte>)
    requires d.Mirrors() && root in d.trees.nodes
    ensures out == Print(ItemAt(d.trees, root), f, depth)
  {
    ViewIs(ItemAt(d.trees, root), f, depth);
    out := Walk(d, root, f, depth, ViewOf(ItemAt(d.trees, root), f, depth));
  }

  method Walk(d: Store, root: Node, f: Format, depth: nat, ghost v: View) returns (out: seq<Byte>)
    requires d.Mirrors() && root in d.trees.nodes && IsView(v, ItemAt(d.trees, root), f, depth)
    requires forall due: Due :: v.after([], due) == if due.newline && !f.raw then [NEWLINE] else []
    ensures out == v.from([], INDENT)
  {
    ghost var way: seq<W.Step>, path: seq<Node> := [], [];
    out := [];
    var node: Node := root;
    var level, due := depth, INDENT;
    while true
      invariant StandsAt(d.trees, root, way, path, node, depth, level)
      invariant out + v.from(way, due) == v.from([], INDENT)
      decreases v.togo(way)
    {
      var bytes, due', open := Begin(d, node, f, level, due);
      if open {
        ghost var further := Downward(d, root, way, path, node, f, depth, level, due, v);
        W.Join(out, bytes, v.from(further, due'), []);
        way, path := further, path + [node];
        level := if node.kind.ElementKind? then level + 1 else level;
        node := node.first;
        due, out := due', out + bytes;
      } else {
        Staying(d.trees, root, way, path, node, f, depth, level, due, v);
        W.Join(out, bytes, v.after(way, due'), []);
        node, level, due, out, way, path := Proceed(d, root, node, f, level, due', out + bytes, depth, way, path, v, v.from([], INDENT));
        if node == root {
          break;
        }
      }
    }
    if due.newline && !f.raw {
      out := out + [NEWLINE];
    }
  }
}
