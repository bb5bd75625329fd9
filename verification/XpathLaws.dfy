/**
  What XPath 1.0 says of comparisons, connectives, conversions and string functions, as laws of
  what expressions mean.
 */
module XpathLaws {
  import opened DocumentOrder
  import opened Documents
  import opened Axes
  import opened Xpath
  import opened Semantics

  // ----- Comparisons (section 3.4) -----

  predicate IsRelational(op: CompareOp) {
    op.Less? || op.Greater? || op.LessEq? || op.GreaterEq?
  }

  /** The order of the operands turned around. */
  function Mirrored(op: CompareOp): CompareOp {
    match op
    case Less => Greater
    case Greater => Less
    case LessEq => GreaterEq
    case GreaterEq => LessEq
    case _ => op
  }

  /** Finite numbers compare as numbers do. */
  lemma NumbersCompared(env: Env, x: real, y: real)
    ensures var l, r := MNum(Fin(x)), MNum(Fin(y));
      && (CompareMeanings(env, Eq, l, r) <==> x == y) && (CompareMeanings(env, Ne, l, r) <==> x != y)
      && (CompareMeanings(env, Less, l, r) <==> x < y) && (CompareMeanings(env, Greater, l, r) <==> x > y)
      && (CompareMeanings(env, LessEq, l, r) <==> x <= y) && (CompareMeanings(env, GreaterEq, l, r) <==> x >= y)
  {
  }

  /** Infinities stand at the two ends, and with a number that is not one only `!=` holds. */
  lemma SpecialCompared(env: Env, op: CompareOp, m: Num)
    ensures CompareMeanings(env, op, MNum(NaN), MNum(m)) <==> op.Ne?
    ensures CompareMeanings(env, op, MNum(m), MNum(NaN)) <==> op.Ne?
    ensures m.Fin? ==> CompareMeanings(env, Less, MNum(NegInf), MNum(m)) && CompareMeanings(env, Less, MNum(m), MNum(PosInf))
    ensures CompareMeanings(env, Less, MNum(NegInf), MNum(PosInf))
    ensures !m.NaN? ==> (CompareMeanings(env, op, MNum(m), MNum(m)) <==> op.Eq? || op.LessEq? || op.GreaterEq?)
    ensures !CompareMeanings(env, Less, MNum(m), MNum(NegInf)) && !CompareMeanings(env, Less, MNum(PosInf), MNum(m))
  {
  }

  /** Turning the operands around turns the operator around. */
  lemma Turned(env: Env, op: CompareOp, l: Meaning, r: Meaning)
    ensures CompareMeanings(env, op, l, r) <==> CompareMeanings(env, Mirrored(op), r, l)
  {
    if l.MNodes? && r.MNodes? {
      NodesTurned(env, op, l.nodes, r.nodes);
    }
  }

  lemma NodesTurned(env: Env, op: CompareOp, s: set<XNode>, t: set<XNode>)
    ensures CompareMeanings(env, op, MNodes(s), MNodes(t)) <==> CompareMeanings(env, Mirrored(op), MNodes(t), MNodes(s))
  {
    if IsRelational(op) {
      var strict := op.Less? || op.Greater?;
      if op.Less? || op.LessEq? {
        RelationTurned(env, strict, s, t);
      } else {
        RelationTurned(env, strict, t, s);
      }
    } else {
      EqualityTurned(env, op.Eq?, s, t);
    }
  }

  lemma EqualityTurned(env: Env, eq: bool, s: set<XNode>, t: set<XNode>)
    ensures EqualMeanings(env, eq, MNodes(s), MNodes(t)) <==> EqualMeanings(env, eq, MNodes(t), MNodes(s))
  {
  }

  lemma RelationTurned(env: Env, strict: bool, s: set<XNode>, t: set<XNode>)
    ensures RelatedMeanings(env, strict, MNodes(s), MNodes(t))
      <==> exists y, x | y in t && x in s :: Related(strict, NodeNumber(env, x), NodeNumber(env, y))
  {
  }

  /** Equality of values that are no node-sets: as booleans if one is a boolean, else as numbers if
      one is a number, else as strings; `!=` is its opposite. */
  lemma ScalarsEqual(env: Env, l: Meaning, r: Meaning)
    requires !l.MNodes? && !r.MNodes?
    ensures CompareMeanings(env, Ne, l, r) <==> !CompareMeanings(env, Eq, l, r)
    ensures l.MBool? ==> (CompareMeanings(env, Eq, l, r) <==> l.b == ToBool(r))
    ensures l.MNum? && !r.MBool? ==> (CompareMeanings(env, Eq, l, r) <==> CompareMeanings(env, Eq, l, MNum(ToNum(env, r))))
    ensures l.MStr? && r.MStr? ==> (CompareMeanings(env, Eq, l, r) <==> l.s == r.s)
  {
  }

  /** The other comparisons convert to numbers. */
  lemma ScalarsRelated(env: Env, op: CompareOp, l: Meaning, r: Meaning)
    requires !l.MNodes? && !r.MNodes? && IsRelational(op)
    ensures CompareMeanings(env, op, l, r) <==> CompareMeanings(env, op, MNum(ToNum(env, l)), MNum(ToNum(env, r)))
  {
  }

  /** A comparison with a node-set holds if it does with the string-value of one of the nodes. */
  lemma NodesCompared(env: Env, op: CompareOp, s: set<XNode>, r: Meaning)
    requires r.MNum? || r.MStr?
    ensures CompareMeanings(env, op, MNodes(s), r)
      <==> exists x :: x in s && CompareMeanings(env, op, MStr(StringValue(env.doc, x)), r)
  {
    forall x | x in s
      ensures CompareMeanings(env, Eq, MStr(StringValue(env.doc, x)), r)
        <==> (if r.MNum? then NumEq(r.n, NodeNumber(env, x)) else r.s == StringValue(env.doc, x))
    {
      assert NodeNumber(env, x) == ToNum(env, MStr(StringValue(env.doc, x)));
    }
  }

  lemma TwoSetsCompared(env: Env, op: CompareOp, s: set<XNode>, t: set<XNode>)
    ensures CompareMeanings(env, op, MNodes(s), MNodes(t))
      <==> exists x, y :: x in s && y in t
             && CompareMeanings(env, op, MStr(StringValue(env.doc, x)), MStr(StringValue(env.doc, y)))
  {
    forall x, y | x in s && y in t
      ensures NodeNumber(env, x) == ToNum(env, MStr(StringValue(env.doc, x)))
    {
    }
  }

  /** A boolean is equal to a node-set if it says whether that has a member. */
  lemma BooleanAndNodes(env: Env, b: bool, s: set<XNode>)
    ensures CompareMeanings(env, Eq, MBool(b), MNodes(s)) <==> b == (s != {})
    ensures CompareMeanings(env, Ne, MBool(b), MNodes(s)) <==> b != (s != {})
  {
  }

  /** The other comparisons of a boolean with a node-set are not those of XPath 1.0, which converts
      the set to a boolean: the nodes are converted to numbers, so that `true() > nothing` is false. */
  lemma BooleanBesideNothing(env: Env)
    ensures !CompareMeanings(env, Greater, MBool(true), MNodes({}))
    ensures CompareMeanings(env, Greater, MBool(true), MBool(ToBool(MNodes({}))))
  {
  }

  // ----- Conversions (sections 4.2 to 4.4) -----

  lemma Converted(env: Env, r: real, w: string, s: set<XNode>)
    ensures (ToBool(MNum(Fin(r))) <==> r != 0.0) && !ToBool(MNum(NaN)) && ToBool(MNum(PosInf)) && ToBool(MNum(NegInf))
    ensures (ToBool(MStr(w)) <==> |w| > 0) && (ToBool(MNodes(s)) <==> exists x :: x in s)
    ensures ToText(env, MBool(true)) == "true" && ToText(env, MBool(false)) == "false" && ToText(env, MNodes({})) == ""
    ensures ToNum(env, MBool(true)) == Fin(1.0) && ToNum(env, MBool(false)) == Fin(0.0)
    ensures ToNum(env, MStr(w)) == env.toNumber(w) && ToNum(env, MNodes(s)) == env.toNumber(ToText(env, MNodes(s)))
  {
  }

  /** The string of a node-set is the string-value of the node that is first in document order. */
  lemma FirstConverted(env: Env, s: set<XNode>, x: XNode)
    requires x in s && forall y :: y in s && y != x ==> Before(x, y)
    ensures ToText(env, MNodes(s)) == StringValue(env.doc, x)
  {
    var m := MinOf(s);
    if m != x {
      BeforeTotal(m, x);
    }
  }

  // ----- Functions and operators -----

  function One(a: Expr): Args {
    Arg(a, NoArgs)
  }

  function Two(a: Expr, b: Expr): Args {
    Arg(a, One(b))
  }

  /** The connectives, whatever their operands are. */
  lemma ConnectivesMean(env: Env, a: Expr, b: Expr, c: Context)
    ensures var p, q := ToBool(Sem(env, a, c)), ToBool(Sem(env, b, c));
      && Sem(env, Call(OrFn, Two(a, b)), c) == MBool(p || q)
      && Sem(env, Call(AndFn, Two(a, b)), c) == MBool(p && q)
      && Sem(env, Call(NotFn, One(a)), c) == MBool(!p)
      && Sem(env, Call(BooleanFn, One(a)), c) == MBool(p)
      && Sem(env, Call(TrueFn, NoArgs), c) == MBool(true) && Sem(env, Call(FalseFn, NoArgs), c) == MBool(false)
  {
    TwoArgs(env, OrFn, a, b, c);
    TwoArgs(env, AndFn, a, b, c);
    OneArg(env, NotFn, a, c);
    OneArg(env, BooleanFn, a, c);
  }

  lemma OneArg(env: Env, fn: Fn, a: Expr, c: Context)
    ensures SemArgs(env, fn, 0, One(a), c) == [Convert(env, ArgType(fn, 0), Sem(env, a, c))]
  {
  }

  lemma TwoArgs(env: Env, fn: Fn, a: Expr, b: Expr, c: Context)
    ensures SemArgs(env, fn, 0, Two(a, b), c)
      == [Convert(env, ArgType(fn, 0), Sem(env, a, c)), Convert(env, ArgType(fn, 1), Sem(env, b, c))]
  {
    assert SemArgs(env, fn, 1, One(b), c) == [Convert(env, ArgType(fn, 1), Sem(env, b, c))];
  }

  /** Arithmetic takes its operands as numbers, in their order. */
  lemma ArithmeticMeans(env: Env, op: ArithOp, a: Expr, b: Expr, c: Context)
    ensures Sem(env, Call(ArithFn(op), Two(a, b)), c)
      == MNum(env.arith(op, ToNum(env, Sem(env, a, c)), ToNum(env, Sem(env, b, c))))
  {
    TwoArgs(env, ArithFn(op), a, b, c);
  }

  /** `starts-with`, `contains` and `concat`, by what the strings are made of. */
  lemma StringsMean(env: Env, a: Expr, b: Expr, c: Context)
    ensures var v, w := ToText(env, Sem(env, a, c)), ToText(env, Sem(env, b, c));
      && Sem(env, Call(StartsWithFn, Two(a, b)), c) == MBool(exists z :: v == w + z)
      && Sem(env, Call(ContainsFn, Two(a, b)), c) == MBool(exists y, z :: v == y + w + z)
      && Sem(env, Call(ConcatFn, Two(a, b)), c) == MStr(v + w)
  {
    var v, w := ToText(env, Sem(env, a, c)), ToText(env, Sem(env, b, c));
    TwoTexts(env, StartsWithFn, a, b, c);
    TwoTexts(env, ContainsFn, a, b, c);
    TwoTexts(env, ConcatFn, a, b, c);
    StartsWithIs(v, w);
    ContainsIs(v, w);
    TwoJoined(v, w);
  }

  lemma TwoTexts(env: Env, fn: Fn, a: Expr, b: Expr, c: Context)
    requires fn.StartsWithFn? || fn.ContainsFn? || fn.ConcatFn?
    ensures Sem(env, Call(fn, Two(a, b)), c)
      == Apply(env, fn, c.node, [MStr(ToText(env, Sem(env, a, c))), MStr(ToText(env, Sem(env, b, c)))])
  {
    TwoArgs(env, fn, a, b, c);
  }

  lemma TwoJoined(v: string, w: string)
    ensures ConcatAll([MStr(v), MStr(w)]) == v + w
  {
    assert [MStr(v), MStr(w)][1..] == [MStr(w)] && [MStr(w)][1..] == [];
    assert ConcatAll([MStr(w)]) == w + "" == w;
  }

  lemma StartsWithIs(v: string, w: string)
    ensures w <= v <==> exists z :: v == w + z
  {
    if w <= v {
      assert v == w + v[|w|..];
    }
  }

  lemma ContainsIs(v: string, w: string)
    ensures IsSubstring(v, w) <==> exists y, z :: v == y + w + z
  {
    if IsSubstring(v, w) {
      var i :| 0 <= i <= |v| && w <= v[i..];
      assert v == v[..i] + w + v[i + |w|..];
    }
    if y, z :| v == y + w + z {
      assert v[|y|..] == w + z;
      assert w <= v[|y|..];
    }
  }

  /** Without an argument the string-value of the context node is taken. */
  lemma DefaultArgument(env: Env, a: Expr, c: Context)
    ensures Sem(env, Call(StringFn, NoArgs), c) == MStr(StringValue(env.doc, c.node))
    ensures Sem(env, Call(NumberFn, NoArgs), c) == MNum(env.toNumber(StringValue(env.doc, c.node)))
    ensures Sem(env, Call(StringLengthFn, NoArgs), c) == MNum(FromNat(|StringValue(env.doc, c.node)|))
    ensures Sem(env, Call(StringFn, One(a)), c) == MStr(ToText(env, Sem(env, a, c)))
    ensures Sem(env, Call(NumberFn, One(a)), c) == MNum(ToNum(env, Sem(env, a, c)))
    ensures Sem(env, Call(StringLengthFn, One(a)), c) == MNum(FromNat(|ToText(env, Sem(env, a, c))|))
  {
    OneArg(env, StringFn, a, c);
    OneArg(env, NumberFn, a, c);
    OneArg(env, StringLengthFn, a, c);
  }

  /** The other functions get their arguments as the types they want, in their order. */
  lemma TextsPassed(env: Env, a: Expr, b: Expr, c: Context)
    ensures var v, w := ToText(env, Sem(env, a, c)), ToText(env, Sem(env, b, c));
      && Sem(env, Call(SubstringBeforeFn, Two(a, b)), c) == MStr(env.substringBefore(v, w))
      && Sem(env, Call(SubstringAfterFn, Two(a, b)), c) == MStr(env.substringAfter(v, w))
  {
    TwoArgs(env, SubstringBeforeFn, a, b, c);
    TwoArgs(env, SubstringAfterFn, a, b, c);
  }

  lemma PlacePassed(env: Env, a: Expr, b: Expr, n: Expr, c: Context)
    ensures var v, x, y := ToText(env, Sem(env, a, c)), ToNum(env, Sem(env, b, c)), ToNum(env, Sem(env, n, c));
      && Sem(env, Call(SubstringFn, Two(a, b)), c) == MStr(env.substring(v, x, None))
      && Sem(env, Call(SubstringFn, Arg(a, Two(b, n))), c) == MStr(env.substring(v, x, Some(y)))
  {
    TwoArgs(env, SubstringFn, a, b, c);
    ThreeArgs(env, SubstringFn, a, b, n, c);
  }

  lemma OnePassed(env: Env, a: Expr, f: NumFn, c: Context)
    ensures var v := ToText(env, Sem(env, a, c));
      && Sem(env, Call(NormalizeSpaceFn, One(a)), c) == MStr(env.normalizeSpace(v))
      && Sem(env, Call(NormalizeSpaceFn, NoArgs), c) == MStr(env.normalizeSpace(StringValue(env.doc, c.node)))
      && Sem(env, Call(LangFn, One(a)), c) == MBool(env.lang(v, c.node))
      && Sem(env, Call(NumericFn(f), One(a)), c) == MNum(env.numeric(f, ToNum(env, Sem(env, a, c))))
  {
    OneArg(env, NormalizeSpaceFn, a, c);
    OneArg(env, LangFn, a, c);
    OneArg(env, NumericFn(f), a, c);
  }

  lemma ThreeArgs(env: Env, fn: Fn, a: Expr, b: Expr, n: Expr, c: Context)
    ensures var s := SemArgs(env, fn, 0, Arg(a, Two(b, n)), c);
      && |s| == 3 && s[0] == Convert(env, ArgType(fn, 0), Sem(env, a, c))
      && s[1] == Convert(env, ArgType(fn, 1), Sem(env, b, c)) && s[2] == Convert(env, ArgType(fn, 2), Sem(env, n, c))
  {
    NextArg(env, fn, 0, a, Two(b, n), c);
    NextArg(env, fn, 1, b, One(n), c);
    NextArg(env, fn, 2, n, NoArgs, c);
  }

  lemma NextArg(env: Env, fn: Fn, i: nat, a: Expr, next: Args, c: Context)
    ensures SemArgs(env, fn, i, Arg(a, next), c) == [Convert(env, ArgType(fn, i), Sem(env, a, c))] + SemArgs(env, fn, i + 1, next, c)
    ensures next.NoArgs? ==> SemArgs(env, fn, i + 1, next, c) == []
  {
  }

  /** `translate` character by character: one that does not occur in `from` stays, and of one that
      does the first occurrence decides, for the character at that place in `to` or for none. */
  lemma TranslatedCharacter(c: char, a: string, b: string, to: string)
    requires c !in a
    ensures TranslateString([c], a, to) == [c]
    ensures TranslateString([c], a + [c] + b, to) == if |a| < |to| then [to[|a|]] else ""
  {
    var from := a + [c] + b;
    assert from[|a|] == c;
    assert forall j :: 0 <= j < |a| ==> from[j] == a[j] && a[j] in a;
    assert IndexOf(from, c) == |a|;
    assert IndexOf(a, c) == |a|;
    assert [c][1..] == [];
  }

  lemma {:induction false} TranslatedJoined(s: string, t: string, from: string, to: string)
    ensures TranslateString(s + t, from, to) == TranslateString(s, from, to) + TranslateString(t, from, to)
    decreases |s|
  {
    if s == "" {
      assert s + t == t;
    } else {
      assert (s + t)[0] == s[0] && (s + t)[1..] == s[1..] + t;
      TranslatedJoined(s[1..], t, from, to);
    }
  }

  /** What the numbers of some nodes add up to. */
  function Total(value: XNode -> real, s: seq<XNode>): real {
    if s == [] then 0.0 else value(s[0]) + Total(value, s[1..])
  }

  lemma {:induction false} TotalLast(value: XNode -> real, s: seq<XNode>)
    requires s != []
    ensures Total(value, s) == Total(value, s[..|s| - 1]) + value(s[|s| - 1])
    decreases |s|
  {
    if |s| == 1 {
      assert s[..0] == [] && s[1..] == [];
      assert Total(value, s[1..]) == 0.0;
    } else {
      TotalLast(value, s[1..]);
      assert s[1..][..|s| - 2] == s[..|s| - 1][1..];
    }
  }

  /** Where addition is exact and the nodes have finite numbers, their sum is that of XPath. */
  lemma {:induction false} SumsUp(env: Env, value: XNode -> real, s: seq<XNode>)
    requires forall x, y {:trigger env.arith(Add, Fin(x), Fin(y))} :: env.arith(Add, Fin(x), Fin(y)) == Fin(x + y)
    requires forall x :: x in s ==> NodeNumber(env, x) == Fin(value(x))
    ensures SumOf(env, s) == Fin(Total(value, s))
    decreases |s|
  {
    if s != [] {
      var front, last := s[..|s| - 1], s[|s| - 1];
      SumsUp(env, value, front);
      TotalLast(value, s);
      assert env.arith(Add, Fin(Total(value, front)), Fin(value(last))) == Fin(Total(value, front) + value(last));
    }
  }

  // ----- Nodes -----

  /** The root of a node is the node above it, or itself, that has no parent. */
  lemma RootIsTop(d: Forest, x: XNode, y: XNode)
    requires WellFormed(d) && ValidNode(d, x)
    ensures y in RootOf(x) <==> y.Tree? && y.path <= x.path && |y.path| == 1
  {
    assert NodeOk(d, x.path);
    assert x.path[..1] <= x.path;
    if y.Tree? && y.path <= x.path && |y.path| == 1 {
      assert y.path == x.path[..|y.path|];
    }
  }

  /** Of the four tests for kinds of nodes, every node other than a document, declaration or
      document type passes exactly one. */
  lemma TestsPartition(n: NodeData)
    ensures TreePasses(AnyNode, n)
    ensures |set t | t in {AnyName, TextTest, CommentTest, PiTest} && TreePasses(t, n)|
      == if n.kind in {DocumentNode, Declaration, Doctype} then 0 else 1
    ensures TreePasses(AnyName, n) <==> n.kind == Element
    ensures TreePasses(CommentTest, n) <==> n.kind == Comment
    ensures TreePasses(PiTest, n) <==> n.kind == Pi
  {
    var passed := set t | t in {AnyName, TextTest, CommentTest, PiTest} && TreePasses(t, n);
    if n.kind in {DocumentNode, Declaration, Doctype} {
      assert passed == {};
    } else {
      var one := if n.kind == Element then AnyName else if n.kind == Comment then CommentTest
        else if n.kind == Pi then PiTest else TextTest;
      assert passed == {one};
    }
  }

  /** A test with a name narrows the one without: to the nodes with that name. */
  lemma NamesNarrow(n: NodeData, name: string)
    requires name != ""
    ensures TreePasses(NameTest(name), n) <==> TreePasses(AnyName, n) && n.name == name
    ensures TreePasses(PiTarget(name), n) <==> TreePasses(PiTest, n) && n.name == name
    ensures TreePasses(InNamespace(name), n) <==> TreePasses(AnyName, n) && exists local :: n.name == name + local
  {
    StartsWithIs(n.name, name);
  }

  /** Declarations of namespaces are no attributes to XPath (section 5.3). */
  lemma NamespacesHidden(name: string, test: NodeTest)
    ensures IsXpathAttribute(name) <==> name != "xmlns" && !exists prefix :: name == "xmlns:" + prefix
    ensures AttributePasses(test, name) ==> IsXpathAttribute(name)
    ensures IsXpathAttribute(name) ==> AttributePasses(AnyName, name) && AttributePasses(AnyNode, name) && AttributePasses(NameTest(name), name)
  {
    StartsWithIs(name, "xmlns:");
    if "xmlns" <= name && |name| > 5 {
      assert name[..5] == "xmlns";
      assert name[..6] == name[..5] + [name[5]];
    }
    if "xmlns:" <= name {
      assert name[..6] == "xmlns:";
      assert name[..6][..5] == name[..5] && name[5] == name[..6][5];
    }
  }
}
