/** A parsed document as the nodes that XPath sees, and the comparison of nodes by the
    addresses of their strings, after any edits. */
module ParsedNodes {
  import opened Escapes
  import opened Markup
  import opened DocumentOrder
  import opened Documents
  import opened Axes
  import opened Comparator
  import P = ParsedAddresses
  import M = MarkupParser
  import B = BufferAddresses

  // ---------- the nodes of a document ----------

  function Chars(s: seq<Byte>): string {
    seq(|s|, i requires 0 <= i < |s| => s[i] as char)
  }

  function NodeAttributes(s: seq<Attr>): seq<Documents.Attribute> {
    seq(|s|, i requires 0 <= i < |s| => Documents.Attribute(Chars(s[i].name), Chars(s[i].value)))
  }

  function DataChars(data: Optional): string {
    if data.Given? then Chars(data.value) else ""
  }

  function SimpleData(x: Simple): NodeData {
    match x
    case Cdata(value) => NodeData(NodeKind.Cdata, "", Chars(value), [], 0)
    case Comment(value) => NodeData(NodeKind.Comment, "", Chars(value), [], 0)
    case Instruction(target, data) => NodeData(Pi, Chars(target), DataChars(data), [], 0)
    case Declaration(target, attributes) => NodeData(NodeKind.Declaration, Chars(target), "", NodeAttributes(attributes), 0)
    case Doctype(data) => NodeData(NodeKind.Doctype, "", DataChars(data), [], 0)
  }

  function DataOf(x: Item): NodeData {
    match x
    case Text(value) => NodeData(Pcdata, "", Chars(value), [], 0)
    case Element(name, attributes, children) => NodeData(NodeKind.Element, Chars(name), "", NodeAttributes(attributes), |children|)
    case Document(children) => NodeData(DocumentNode, "", "", [], |children|)
    case Leaf(what) => SimpleData(what)
  }

  function KidsOf(x: Item): seq<Item> {
    match x
    case Text(_) => []
    case Leaf(_) => []
    case Element(_, _, children) => children
    case Document(children) => children
  }

  /** The item at the address `p` with all below it. */
  function ItemForest(x: Item, p: Path): Forest
    decreases x, 1, 0
  {
    map[p := DataOf(x)] + KidsForest(x, p, 0)
  }

  function KidsForest(x: Item, p: Path, k: nat): Forest
    requires k <= |KidsOf(x)|
    decreases x, 0, |KidsOf(x)| - k
  {
    if k == |KidsOf(x)| then map[] else ItemForest(KidsOf(x)[k], p + [k]) + KidsForest(x, p, k + 1)
  }

  function AttributeNodes(p: Path, n: nat): seq<XNode> {
    seq(n, i requires 0 <= i < n => XNode.Attr(p, i))
  }

  /** The same, as a listing. */
  function ItemNodes(x: Item, p: Path): seq<XNode>
    decreases x, 1, 0
  {
    [Tree(p)] + AttributeNodes(p, |DataOf(x).attributes|) + KidsNodes(x, p, 0)
  }

  function KidsNodes(x: Item, p: Path, k: nat): seq<XNode>
    requires k <= |KidsOf(x)|
    decreases x, 0, |KidsOf(x)| - k
  {
    if k == |KidsOf(x)| then [] else ItemNodes(KidsOf(x)[k], p + [k]) + KidsNodes(x, p, k + 1)
  }

  function ForestOf(children: seq<Item>): Forest {
    ItemForest(Document(children), [0])
  }

  // ---------- they are a well-formed forest ----------

  /** All below `p`, from its child number `k` on. */
  ghost predicate Branch(f: Forest, p: Path, k: nat, n: nat) {
    && (forall q :: q in f ==> p < q && k <= q[|p|] < n)
    && (forall q :: q in f && |q| > |p| + 1 ==> ParentPath(q) in f && LastIndex(q) < f[ParentPath(q)].arity)
    && (forall q, j: nat {:trigger q + [j]} :: q in f && j < f[q].arity ==> q + [j] in f)
    && (forall j: nat {:trigger p + [j]} :: k <= j < n ==> p + [j] in f)
  }

  ghost predicate Whole(f: Forest, p: Path) {
    && p in f
    && (forall q :: q in f ==> p <= q)
    && (forall q :: q in f && q != p ==> ParentPath(q) in f && LastIndex(q) < f[ParentPath(q)].arity)
    && (forall q, j: nat {:trigger q + [j]} :: q in f && j < f[q].arity ==> q + [j] in f)
  }

  lemma {:induction false} ItemWhole(x: Item, p: Path)
    ensures Whole(ItemForest(x, p), p) && ItemForest(x, p)[p] == DataOf(x)
    decreases x, 1, 0
  {
    KidsBranch(x, p, 0);
    assert DataOf(x).arity == |KidsOf(x)|;
    JoinHead(DataOf(x), p, KidsForest(x, p, 0));
  }

  lemma {:induction false} KidsBranch(x: Item, p: Path, k: nat)
    requires k <= |KidsOf(x)|
    ensures Branch(KidsForest(x, p, k), p, k, |KidsOf(x)|)
    decreases x, 0, |KidsOf(x)| - k
  {
    if k < |KidsOf(x)| {
      ItemWhole(KidsOf(x)[k], p + [k]);
      KidsBranch(x, p, k + 1);
      JoinKid(ItemForest(KidsOf(x)[k], p + [k]), KidsForest(x, p, k + 1), p, k, |KidsOf(x)|);
    }
  }

  lemma JoinHead(data: NodeData, p: Path, f: Forest)
    requires Branch(f, p, 0, data.arity)
    ensures Whole(map[p := data] + f, p) && (map[p := data] + f)[p] == data
  {
    var g := map[p := data] + f;
    forall q | q in g && q != p ensures ParentPath(q) in g && LastIndex(q) < g[ParentPath(q)].arity {
      assert q in f;
      if |q| == |p| + 1 {
        assert ParentPath(q) == p;
      }
    }
  }

  lemma JoinKid(f: Forest, g: Forest, p: Path, k: nat, n: nat)
    requires k < n && Whole(f, p + [k]) && Branch(g, p, k + 1, n)
    ensures Branch(f + g, p, k, n) && f.Keys !! g.Keys
  {
    forall q | q in f ensures p < q && q[|p|] == k && q !in g {
      assert (p + [k])[|p|] == k;
    }
    forall q | q in f + g && |q| > |p| + 1 ensures ParentPath(q) in f + g && LastIndex(q) < (f + g)[ParentPath(q)].arity {
      assert q in f ==> q != p + [k];
    }
  }

  // ---------- the listing is in document order ----------

  ghost predicate Lists(s: seq<XNode>, f: Forest) {
    Increasing(s) && forall y :: y in s <==> ValidNode(f, y)
  }

  lemma {:induction false} ItemListed(x: Item, p: Path)
    ensures Lists(ItemNodes(x, p), ItemForest(x, p))
    decreases x, 1, 0
  {
    KidsListed(x, p, 0);
    KidsBranch(x, p, 0);
    HeadListed(x, p);
    forall r | r in KidsForest(x, p, 0) ensures Lex(p, r) { LexPrefix(p, r); }
    JoinLists([Tree(p)] + AttributeNodes(p, |DataOf(x).attributes|), map[p := DataOf(x)], KidsNodes(x, p, 0), KidsForest(x, p, 0));
  }

  lemma HeadListed(x: Item, p: Path)
    ensures Lists([Tree(p)] + AttributeNodes(p, |DataOf(x).attributes|), map[p := DataOf(x)])
  {
    LexTotal(p, p);
    var s := [Tree(p)] + AttributeNodes(p, |DataOf(x).attributes|);
    forall y | ValidNode(map[p := DataOf(x)], y) ensures y in s {
      if y.Attr? { assert s[y.index + 1] == y; } else { assert s[0] == y; }
    }
  }

  lemma {:induction false} KidsListed(x: Item, p: Path, k: nat)
    requires k <= |KidsOf(x)|
    ensures Lists(KidsNodes(x, p, k), KidsForest(x, p, k))
    decreases x, 0, |KidsOf(x)| - k
  {
    if k < |KidsOf(x)| {
      ItemListed(KidsOf(x)[k], p + [k]);
      KidsListed(x, p, k + 1);
      ItemWhole(KidsOf(x)[k], p + [k]);
      KidsBranch(x, p, k + 1);
      KidsAfter(ItemForest(KidsOf(x)[k], p + [k]), KidsForest(x, p, k + 1), p, k, |KidsOf(x)|);
      JoinLists(ItemNodes(KidsOf(x)[k], p + [k]), ItemForest(KidsOf(x)[k], p + [k]), KidsNodes(x, p, k + 1), KidsForest(x, p, k + 1));
    }
  }

  /** Whatever is in `f` comes before whatever is in `g`. */
  ghost predicate AllBefore(f: Forest, g: Forest) {
    forall q, r :: q in f && r in g ==> Lex(q, r)
  }

  lemma KidsAfter(f: Forest, g: Forest, p: Path, k: nat, n: nat)
    requires k < n && Whole(f, p + [k]) && Branch(g, p, k + 1, n)
    ensures AllBefore(f, g)
  {
    forall q, r | q in f && r in g ensures Lex(q, r) {
      assert (p + [k])[|p|] == k && q[..|p| + 1] == p + [k];
      assert q[..|p|] == p == r[..|p|];
      LexDiverge(q, r, |p|);
    }
  }

  lemma JoinLists(s: seq<XNode>, f: Forest, t: seq<XNode>, g: Forest)
    requires Lists(s, f) && Lists(t, g) && AllBefore(f, g)
    ensures Lists(s + t, f + g)
  {
    forall q | q in f ensures q !in g { LexTotal(q, q); }
    forall y, z | y in s && z in t ensures Before(y, z) { }
  }

  // ---------- nodes and their strings ----------

  /** One label for each node, and the attributes are the attributes. */
  ghost predicate Match(nodes: seq<XNode>, labels: seq<P.Label>) {
    |nodes| == |labels| && forall i :: 0 <= i < |nodes| ==> nodes[i].Attr? == labels[i].attribute
  }

  lemma MatchJoins(s: seq<XNode>, l: seq<P.Label>, t: seq<XNode>, m: seq<P.Label>)
    requires Match(s, l) && Match(t, m)
    ensures Match(s + t, l + m)
  {
  }

  lemma {:induction false} AttributesMatch(s: seq<Attr>, p: Path, n: nat)
    requires n <= |s|
    ensures Match(AttributeNodes(p, |s| - n), P.AttributeLabels(s[n..]))
    decreases |s| - n
  {
    if n < |s| {
      AttributesMatch(s, p, n + 1);
      assert s[n..][1..] == s[n + 1..];
    }
  }

  lemma {:induction false} ItemMatches(x: Item, p: Path)
    ensures Match(ItemNodes(x, p), P.ItemLabels(x))
    decreases x, 1, 0
  {
    KidsMatch(x, p, 0);
    assert KidsOf(x)[0..] == KidsOf(x);
    if x.Leaf? && x.what.Declaration? {
      AttributesMatch(x.what.attributes, p, 0);
      assert x.what.attributes[0..] == x.what.attributes;
      MatchJoins([Tree(p)], [P.Label(false, P.Has(|x.what.target|), P.Absent)],
                 AttributeNodes(p, |x.what.attributes|), P.AttributeLabels(x.what.attributes));
      assert ItemNodes(x, p) == [Tree(p)] + AttributeNodes(p, |x.what.attributes|);
    } else if x.Element? {
      AttributesMatch(x.attributes, p, 0);
      assert x.attributes[0..] == x.attributes;
      MatchJoins([Tree(p)], [P.Label(false, P.Has(|x.name|), P.Absent)], AttributeNodes(p, |x.attributes|), P.AttributeLabels(x.attributes));
      MatchJoins([Tree(p)] + AttributeNodes(p, |x.attributes|), P.HeadLabels(x.name, x.attributes), KidsNodes(x, p, 0), P.ListLabels(x.children));
    } else {
      assert AttributeNodes(p, 0) == [];
      assert [Tree(p)] + [] == [Tree(p)];
    }
  }

  lemma {:induction false} KidsMatch(x: Item, p: Path, k: nat)
    requires k <= |KidsOf(x)|
    ensures Match(KidsNodes(x, p, k), P.ListLabels(KidsOf(x)[k..]))
    decreases x, 0, |KidsOf(x)| - k
  {
    var kids := KidsOf(x);
    if k < |kids| {
      ItemMatches(kids[k], p + [k]);
      KidsMatch(x, p, k + 1);
      assert kids[k..][0] == kids[k] && kids[k..][1..] == kids[k + 1..];
      MatchJoins(ItemNodes(kids[k], p + [k]), P.ItemLabels(kids[k]), KidsNodes(x, p, k + 1), P.ListLabels(kids[k + 1..]));
    }
  }

  /** The items of a state are the nodes and attributes of a forest in document order. */
  ghost predicate Describes(s: B.State, d: Forest) {
    var l := SortedOf(AllNodes(d));
    |s.items| == |l| && forall i :: 0 <= i < |l| ==> s.items[i].attribute == l[i].Attr?
  }

  /** A freshly parsed document is described by what the parser stored of it. */
  lemma ParsedDescribed(t: seq<Byte>, o: M.Options)
    requires M.Parse(t, o).Parsed?
    ensures var d := ForestOf(M.Parse(t, o).children); WellFormed(d) && Describes(P.Loaded(t, o), d)
    ensures B.Inv(P.Loaded(t, o))
  {
    var x := Document(M.Parse(t, o).children);
    var d, s, nodes := ItemForest(x, [0]), P.Loaded(t, o), ItemNodes(x, [0]);
    P.LoadedInOrder(t, o);
    ItemMatches(x, [0]);
    ItemListed(x, [0]);
    ItemWhole(x, [0]);
    assert Elements(nodes) == AllNodes(d);
    SortedOfIs(nodes);
    assert |P.Labels(s.items)| == |s.items|;
    forall i | 0 <= i < |nodes| ensures s.items[i].attribute == nodes[i].Attr? {
      assert P.Labels(s.items)[i] == P.LabelOf(s.items[i]);
    }
  }

  // ---------- comparing by address ----------

  function ToOption(a: B.Option): Documents.Option<nat> {
    if a.Address? then Some(a.a) else None
  }

  /** The shortcut looks at the strings that the state has for the node. */
  ghost predicate Addressed(s: B.State, d: Forest, buffer: BufferOrder)
    requires Describes(s, d)
  {
    && buffer(Nothing).None?
    && forall i :: 0 <= i < |s.items| ==> buffer(SortedOf(AllNodes(d))[i]) == ToOption(B.OrderAddress(s, i))
  }

  lemma AddressedFaithful(s: B.State, d: Forest, buffer: BufferOrder)
    requires B.Inv(s) && Describes(s, d) && Addressed(s, d, buffer)
    ensures Faithful(d, buffer)
  {
    var l := SortedOf(AllNodes(d));
    forall x, y | ValidNode(d, x) && ValidNode(d, y) && x != y && buffer(x).Some? && buffer(y).Some?
      ensures buffer(x).value < buffer(y).value <==> Before(x, y)
    {
      assert x in Elements(l) && y in Elements(l);
      var i :| 0 <= i < |l| && l[i] == x;
      var j :| 0 <= j < |l| && l[j] == y;
      B.AddressesAgree(s, i, j);
      BeforeTotal(x, y);
    }
  }
}
