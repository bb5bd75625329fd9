/** A step that names an attribute stops at the first one of that name, where XPath 1.0
    (section 2.3) selects every one: when that is the same, and that documents in which it is
    not can be parsed. */
module AttributeSteps {
  import opened Escapes
  import opened Markup
  import opened DocumentOrder
  import opened Documents
  import opened Axes
  import opened Xpath
  import opened Semantics
  import M = MarkupParser
  import R = MarkupRoundTrip
  import N = ParsedNodes

  ghost predicate AtMostOne(attributes: seq<Documents.Attribute>, name: string) {
    forall i, j :: 0 <= i < j < |attributes| && attributes[i].name == name ==> attributes[j].name != name
  }

  ghost predicate UniqueNames(d: Forest) {
    forall p, n {:trigger AtMostOne(d[p].attributes, n)} :: p in d ==> AtMostOne(d[p].attributes, n)
  }

  /** The attributes of a name, in their order. */
  lemma NamedAttributes(d: Forest, p: Path, n: string)
    requires p in d && IsXpathAttribute(n)
    ensures var l := StepSeq(d, AttributeAxis, NameTest(n), Tree(p));
            Increasing(l) && forall y :: y in l <==> y.Attr? && y.path == p && y.index < |d[p].attributes| && d[p].attributes[y.index].name == n
  {
    var c := Candidates(d, AttributeAxis, NameTest(n), Tree(p));
    assert Elements(SortedOf(c)) == c;
    assert forall y :: y in SortedOf(c) <==> y in c;
  }

  /** The step is what XPath 1.0 says exactly if no two attributes of the node have the name. */
  lemma OneAttributeExact(d: Forest, p: Path, n: string)
    requires p in d && IsXpathAttribute(n)
    ensures var l := StepSeq(d, AttributeAxis, NameTest(n), Tree(p));
            TakeOnce(OneAttribute(AttributeAxis, NameTest(n)), l) == l <==> AtMostOne(d[p].attributes, n)
  {
    var l := StepSeq(d, AttributeAxis, NameTest(n), Tree(p));
    NamedAttributes(d, p, n);
    OrderedIsDistinct(l);
    if |l| >= 2 {
      assert l[0] in l && l[1] in l && l[0] != l[1];
      assert l[0].index != l[1].index;
      assert !AtMostOne(d[p].attributes, n);
    }
    forall i, j | 0 <= i < j < |d[p].attributes| && d[p].attributes[i].name == n && d[p].attributes[j].name == n
      ensures |l| >= 2
    {
      TwoMembers(l, XNode.Attr(p, i), XNode.Attr(p, j));
    }
  }

  lemma TwoMembers<T>(s: seq<T>, x: T, y: T)
    requires x in s && y in s && x != y
    ensures |s| >= 2
  {
  }

  /** Where no node has two attributes of one name, no step stops early. */
  lemma UniqueNamesSelect(env: Env, x: XNode, axis: Axis, test: NodeTest, preds: Preds)
    requires UniqueNames(env.doc) && ValidNode(env.doc, x)
    ensures SemStep(env, x, axis, test, preds) == SemPreds(env, StepSeq(env.doc, axis, test, x), preds)
  {
    if OneAttribute(axis, test) {
      if x.Tree? && IsXpathAttribute(test.name) {
        assert AtMostOne(env.doc[x.path].attributes, test.name);
        OneAttributeExact(env.doc, x.path, test.name);
      } else {
        assert Elements(SortedOf({})) == {};
        assert Candidates(env.doc, axis, test, x) == {};
      }
    }
  }

  // ---------- a document with a repeated name ----------

  const LETTER_A: Byte := 97
  const LETTER_B: Byte := 98

  /** An element `a` with two attributes `b`. */
  function Repeated(v: seq<Byte>, w: seq<Byte>): Item {
    Item.Element([LETTER_A], [Markup.Attr.Attr([LETTER_B], v), Markup.Attr.Attr([LETTER_B], w)], [])
  }

  lemma RepeatedPrintable(v: seq<Byte>, w: seq<Byte>)
    requires 0 !in v && 0 !in w
    ensures R.PrintableAll([Repeated(v, w)]) && R.OnlyElements([Repeated(v, w)])
  {
    var x := Repeated(v, w);
    assert R.ValidAttributes(x.attributes[1..][1..]);
    assert x.attributes[1..] == [x.attributes[1]];
    assert R.ValidAttributes(x.attributes[1..]);
    assert R.Printable(x);
    assert [x][1..] == [];
  }

  lemma RepeatedForest(x: Item)
    requires x.Element?
    ensures var d := N.ForestOf([x]); var p: Path := [0, 0]; p in d && d[p] == N.DataOf(x)
  {
    var p: Path := [0, 0];
    N.ItemWhole(x, p);
    assert N.KidsForest(Document([x]), [0], 1) == map[];
    assert [0] + [0] == p;
    assert N.KidsForest(Document([x]), [0], 0) == N.ItemForest(x, p);
  }

  lemma TwoSelected(d: Forest, p: Path, n: string)
    requires p in d && IsXpathAttribute(n) && |d[p].attributes| == 2
    requires d[p].attributes[0].name == n && d[p].attributes[1].name == n
    ensures StepSeq(d, AttributeAxis, NameTest(n), Tree(p)) == [XNode.Attr(p, 0), XNode.Attr(p, 1)]
  {
    NamedAttributes(d, p, n);
    var l := [XNode.Attr(p, 0), XNode.Attr(p, 1)];
    LexTotal(p, p);
    assert Increasing(l);
    IncreasingUnique(StepSeq(d, AttributeAxis, NameTest(n), Tree(p)), l);
  }

  lemma RepeatedStep(v: seq<Byte>, w: seq<Byte>)
    ensures var d := N.ForestOf([Repeated(v, w)]); var p: Path := [0, 0];
            && p in d && StepSeq(d, AttributeAxis, NameTest("b"), Tree(p)) == [XNode.Attr(p, 0), XNode.Attr(p, 1)]
  {
    var x := Repeated(v, w);
    RepeatedForest(x);
    assert N.Chars([LETTER_B]) == "b";
    TwoSelected(N.ForestOf([x]), [0, 0], "b");
  }

  /** The parser accepts it, whatever the values are; and of the two attributes `@b` selects
      only the first. */
  lemma RepeatedParses(v: seq<Byte>, w: seq<Byte>, f: Format, o: M.Options, depth: nat)
    requires R.Reads(f, o) && 0 !in v && 0 !in w
    ensures var x := Repeated(v, w); var d := N.ForestOf([x]); var p: Path := [0, 0];
            && M.Parse(Print(Document([x]), f, depth), o) == M.Parsed([x])
            && p in d && IsXpathAttribute("b")
            && StepSeq(d, AttributeAxis, NameTest("b"), Tree(p)) == [XNode.Attr(p, 0), XNode.Attr(p, 1)]
            && TakeOnce(OneAttribute(AttributeAxis, NameTest("b")), StepSeq(d, AttributeAxis, NameTest("b"), Tree(p))) == [XNode.Attr(p, 0)]
  {
    var x := Repeated(v, w);
    RepeatedPrintable(v, w);
    R.RoundTrip([x], f, o, depth);
    assert R.BackAll([x], o) == [R.BackItem(x, o)];
    assert R.BackItem(x, o) == x;
    RepeatedStep(v, w);
  }
}
