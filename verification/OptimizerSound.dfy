/**
  Optimizing an expression changes neither its type nor its meaning, and leaves it with
  true predicate tags; so the optimized query, evaluated in any mode, answers the original.
 */
module OptimizerSound {
  import opened DocumentOrder
  import opened Documents
  import opened Axes
  import opened Xpath
  import opened Semantics
  import opened Evaluator
  import opened NodeSets
  import opened Optimizer
  import opened EvaluatorSound

  // ----- Shape -----

  lemma {:induction false} OptimizeShape(e: Expr)
    requires Parsed(e) && WellBuilt(e)
    ensures WellBuilt(Optimize(e)) && RetType(Optimize(e)) == RetType(e)
    decreases e
  {
    match e
    case Call(_, args) => ArgsShape(args);
    case Compare(_, l, r) => OptimizeShape(l); OptimizeShape(r);
    case Union(l, r) => OptimizeShape(l); OptimizeShape(r);
    case Filter(l, p, _) => OptimizeShape(l); OptimizeShape(p);
    case Count(a) => OptimizeShape(a);
    case Sum(a) => OptimizeShape(a);
    case Id(a) => OptimizeShape(a);
    case Label(_, a) => if a.Of? { OptimizeShape(a.e); }
    case Step(left, _, _, preds) =>
      if left.Of? { OptimizeShape(left.e); }
      PredsShape(preds);
    case _ =>
  }

  lemma {:induction false} ArgsShape(args: Args)
    requires ArgsParsed(args) && ArgsWellBuilt(args)
    ensures ArgsWellBuilt(OptimizeArgs(args))
    decreases args
  {
    if args.Arg? {
      OptimizeShape(args.e);
      ArgsShape(args.next);
    }
  }

  lemma {:induction false} PredsShape(preds: Preds)
    requires PredsParsed(preds) && PredsWellBuilt(preds)
    ensures PredsWellBuilt(OptimizePreds(preds))
    decreases preds
  {
    if preds.Pred? {
      OptimizeShape(preds.e);
      PredsShape(preds.next);
    }
  }

  // ----- [position() = e] -----

  lemma RewriteKeeps(env: Env, p: Expr, c: Context)
    ensures SemKeep(env, RewritePosition(p), c) == SemKeep(env, p, c)
  {
    if RewritePosition(p) != p {
      SemTypeOf(env, p.r, c);
      assert Sem(env, p.l, c) == MNum(FromNat(c.position));
      assert Sem(env, p, c) == MBool(EqualMeanings(env, true, Sem(env, p.l, c), Sem(env, p.r, c)));
    }
  }

  // ----- // -----

  /** Every predicate of a chain holds of a node, whatever its position. */
  predicate AllKeep(env: Env, preds: Preds, y: XNode) {
    preds.Pred? ==> ToBool(Sem(env, preds.e, Context(y, 1, 1))) && AllKeep(env, preds.next, y)
  }

  lemma {:induction false} InvariantPreds(env: Env, s: seq<XNode>, preds: Preds, y: XNode)
    requires PredsWellBuilt(preds) && IsPosInvariantStep(preds)
    ensures y in SemPreds(env, s, preds) <==> y in s && AllKeep(env, preds, y)
    decreases preds
  {
    if preds.Pred? {
      InvariantFilter(env, s, 0, preds.e, y);
      assert s[0..] == s;
      InvariantPreds(env, SemFilter(env, s, 0, preds.e), preds.next, y);
    }
  }

  lemma ListedMember(forward: bool, c: set<XNode>, y: XNode)
    ensures y in Listed(forward, c) <==> y in c
  {
    assert Elements(SortedOf(c)) == c;
    assert y in SortedOf(c) <==> y in Elements(SortedOf(c));
    ReverseElements(SortedOf(c));
    assert y in Reverse(SortedOf(c)) <==> y in Elements(Reverse(SortedOf(c)));
  }

  lemma StepSeqMember(d: Forest, axis: Axis, test: NodeTest, x: XNode, y: XNode)
    ensures y in StepSeq(d, axis, test, x) <==> y in Candidates(d, axis, test, x)
  {
    ListedMember(!ReverseAxis(axis), Candidates(d, axis, test, x), y);
  }

  lemma InvariantStepMember(env: Env, x: XNode, axis: Axis, test: NodeTest, preds: Preds, y: XNode)
    requires PredsWellBuilt(preds) && IsPosInvariantStep(preds) && !axis.AttributeAxis?
    ensures y in SemStep(env, x, axis, test, preds) <==> y in Candidates(env.doc, axis, test, x) && AllKeep(env, preds, y)
  {
    InvariantPreds(env, StepSeq(env.doc, axis, test, x), preds, y);
    StepSeqMember(env.doc, axis, test, x, y);
  }

  /** descendant-or-self::node() and one of four axes, in one walk. */
  lemma MergedCandidates(d: Forest, axis: Axis, test: NodeTest, x: XNode, y: XNode)
    requires WellFormed(d) && (x.Nothing? || ValidNode(d, x)) && MergedAxis(axis).Some?
    ensures y in Candidates(d, MergedAxis(axis).value, test, x) <==>
      exists z :: z in Candidates(d, DescendantOrSelf, AnyNode, x) && y in Candidates(d, axis, test, z)
  {
    var m := MergedAxis(axis).value;
    if y in Candidates(d, m, test, x) {
      var z :=
        if x.Attr? then x
        else if axis.Child? then Tree(y.path[..|y.path| - 1])
        else if axis.Descendant? then x
        else y;
      if axis.Child? && x.Tree? { assert NodeOk(d, y.path); }
      assert z in Candidates(d, DescendantOrSelf, AnyNode, x);
      assert y in Candidates(d, axis, test, z);
    }
  }

  lemma MergedUnion(env: Env, base: set<XNode>, axis: Axis, test: NodeTest, preds: Preds)
    requires WellFormed(env.doc) && (forall x :: x in base ==> x.Nothing? || ValidNode(env.doc, x))
    requires PredsWellBuilt(preds) && IsPosInvariantStep(preds) && MergedAxis(axis).Some?
    ensures UnionOf(UnionOf(base, StepFrom(env, DescendantOrSelf, AnyNode, NoPreds)), StepFrom(env, axis, test, preds))
         == UnionOf(base, StepFrom(env, MergedAxis(axis).value, test, preds))
  {
    var m := MergedAxis(axis).value;
    var down, near, far := StepFrom(env, DescendantOrSelf, AnyNode, NoPreds), StepFrom(env, axis, test, preds),
                           StepFrom(env, m, test, preds);
    forall x, y | x in base ensures y in far(x) <==> exists z :: z in down(x) && y in near(z) {
      InvariantStepMember(env, x, m, test, preds, y);
      MergedCandidates(env.doc, axis, test, x, y);
      forall z ensures z in down(x) <==> z in Candidates(env.doc, DescendantOrSelf, AnyNode, x) {
        InvariantStepMember(env, x, DescendantOrSelf, AnyNode, NoPreds, z);
      }
      forall z ensures y in near(z) <==> y in Candidates(env.doc, axis, test, z) && AllKeep(env, preds, y) {
        InvariantStepMember(env, z, axis, test, preds, y);
      }
      if y in far(x) {
        var z :| z in Candidates(env.doc, DescendantOrSelf, AnyNode, x) && y in Candidates(env.doc, axis, test, z);
        assert z in down(x) && y in near(z);
      }
    }
    UnionNested(base, down, near, far);
  }

  lemma UnionNested(base: set<XNode>, down: XNode -> seq<XNode>, near: XNode -> seq<XNode>, far: XNode -> seq<XNode>)
    requires forall x, y :: x in base ==> (y in far(x) <==> exists z :: z in down(x) && y in near(z))
    ensures UnionOf(UnionOf(base, down), near) == UnionOf(base, far)
  {
    forall y ensures y in UnionOf(UnionOf(base, down), near) <==> y in UnionOf(base, far) {
      if y in UnionOf(UnionOf(base, down), near) {
        var z :| z in UnionOf(base, down) && y in near(z);
        var x :| x in base && z in down(x);
        assert y in far(x);
      }
      if y in UnionOf(base, far) {
        var x :| x in base && y in far(x);
        var z :| z in down(x) && y in near(z);
        assert z in UnionOf(base, down);
      }
    }
  }

  lemma UnionSame(inputs: set<XNode>, f: XNode -> seq<XNode>, g: XNode -> seq<XNode>)
    requires forall x :: x in inputs ==> f(x) == g(x)
    ensures UnionOf(inputs, f) == UnionOf(inputs, g)
  {
  }

  /** Node sets hold nodes of the documents only. */
  lemma {:induction false} NodesValid(env: Env, e: Expr, c: Context)
    requires EnvOk(env) && (c.node.Nothing? || ValidNode(env.doc, c.node)) && WellBuilt(e)
    ensures forall y :: y in Nodes(Sem(env, e, c)) ==> ValidNode(env.doc, y)
    decreases e
  {
    match e
    case Call(_, _) => SemTypeOf(env, e, c);
    case Union(l, r) => NodesValid(env, l, c); NodesValid(env, r, c);
    case Filter(l, p, _) =>
      NodesValid(env, l, c);
      var s := SortedOf(Nodes(Sem(env, l, c)));
      FilterPart(env, s, 0, p);
      forall y | y in SemFilter(env, s, 0, p) ensures ValidNode(env.doc, y) {
        var j :| 0 <= j < |s| && s[j] == y;
        assert y in Elements(s);
      }
    case Root =>
      if !c.node.Nothing? {
        assert NodeOk(env.doc, c.node.path);
        AncestorsPresent(env.doc, c.node.path, c.node.path[..1]);
      }
    case Step(left, axis, test, preds) =>
      forall x, y | y in SemStep(env, x, axis, test, preds) ensures ValidNode(env.doc, y) {
        StepMemberValid(env, x, axis, test, preds, y);
      }
    case _ =>
  }

  lemma StepMemberValid(env: Env, x: XNode, axis: Axis, test: NodeTest, preds: Preds, y: XNode)
    requires y in SemStep(env, x, axis, test, preds)
    ensures ValidNode(env.doc, y)
  {
    var l := StepSeq(env.doc, axis, test, x);
    var k := TakeOnce(OneAttribute(axis, test), l);
    PredsPart(env, k, preds);
    var j :| 0 <= j < |k| && k[j] == y;
    assert l[j] == y;
    StepSeqMember(env.doc, axis, test, x, y);
  }

  // ----- translate() by table -----

  /** The entry a table must have for a character after the first `i` characters of `from`. */
  function Expected(from: string, to: string, i: nat, k: nat): nat
    requires i <= |from| && k < 128
  {
    var j := IndexOf(from[..i], k as char);
    if j == i then 0 else if j < |to| then to[j] as nat else 128
  }

  lemma IndexOfGrows(s: string, i: nat, ch: char)
    requires i < |s|
    ensures IndexOf(s[..i], ch) < i ==> IndexOf(s[..i + 1], ch) == IndexOf(s[..i], ch)
    ensures IndexOf(s[..i], ch) == i ==> IndexOf(s[..i + 1], ch) == if s[i] == ch then i else i + 1
  {
    var j, k := IndexOf(s[..i], ch), IndexOf(s[..i + 1], ch);
    assert forall m :: 0 <= m < j ==> s[..i][m] == s[..i + 1][m];
    assert j < i ==> s[..i + 1][j] == s[..i][j];
    assert s[..i + 1][i] == s[i];
    assert forall m :: 0 <= m < k && m < i ==> s[..i][m] == s[..i + 1][m];
  }

  lemma {:induction false} FillTableFills(table: seq<nat>, from: string, to: string, i: nat)
    requires |table| == 128 && i <= |from| && NulFree(to)
    requires forall k :: 0 <= k < 128 ==> table[k] == Expected(from, to, i, k)
    requires forall j :: 0 <= j < i ==> from[j] as nat < 128 && (j < |to| ==> to[j] as nat < 128)
    ensures var t := FillTable(table, from, to, i);
            t.Some? ==>
              && (forall k :: 0 <= k < 128 ==> t.value[k] == Expected(from, to, |from|, k))
              && (forall j :: 0 <= j < |from| ==> from[j] as nat < 128 && (j < |to| ==> to[j] as nat < 128))
    decreases |from| - i
  {
    if i < |from| && FillTable(table, from, to, i).Some? {
      var fc, tc := from[i] as nat, if i < |to| then to[i] as nat else 0;
      assert fc < 128 && tc < 128;
      var next := if table[fc] == 0 then table[fc := if tc != 0 then tc else 128] else table;
      forall k | 0 <= k < 128 ensures next[k] == Expected(from, to, i + 1, k) {
        IndexOfGrows(from, i, k as char);
      }
      FillTableFills(next, from, to, i + 1);
    }
  }

  lemma {:induction false} TableTranslates(s: string, from: string, to: string, table: seq<nat>)
    requires NulFree(to) && TranslateTable(from, to) == Some(table)
    ensures TranslateByTable(s, table) == TranslateString(s, from, to)
  {
    if s != [] {
      FillTableFills(ZeroTable(), from, to, 0);
      assert from[..|from|] == from;
      var k := s[0] as nat;
      assert k < 128 ==> k as char == s[0];
      TableTranslates(s[1..], from, to, table);
    }
  }

  lemma CallMeaning(env: Env, fn: Fn, args: Args, c: Context)
    requires args.Arg? && args.next.Arg? && args.next.next.Arg?
    requires args.next.e.StringConst? ==> NulFree(args.next.e.text)
    requires args.next.next.e.StringConst? ==> NulFree(args.next.next.e.text)
    ensures Sem(env, OptimizeCall(fn, args), c) == Sem(env, Call(fn, args), c)
  {
    var opt := OptimizeCall(fn, args);
    if opt != Call(fn, args) {
      var f, t := args.next.e, args.next.next.e;
      var table := TranslateTable(f.text, t.text).value;
      var l := ToText(env, Sem(env, args.e, c));
      var a, b := SemArgs(env, fn, 0, args, c), SemArgs(env, opt.fn, 0, opt.args, c);
      assert Sem(env, f, c) == MStr(f.text) && Sem(env, t, c) == MStr(t.text);
      assert SemArgs(env, fn, 1, args.next, c)
          == [MStr(f.text)] + SemArgs(env, fn, 2, args.next.next, c);
      assert a[0] == MStr(l) && a[1] == MStr(f.text) && a[2] == MStr(t.text);
      assert b[0] == MStr(l);
      TableTranslates(l, f.text, t.text, table);
    }
  }

  // ----- @name = 'value' -----

  lemma NamedAttribute(d: Forest, x: XNode, name: string)
    requires name != ""
    ensures Take1(StepSeq(d, AttributeAxis, NameTest(name), x)) ==
      if x.Tree? && x.path in d && IsXpathAttribute(name) && FindAttribute(d[x.path].attributes, name).Some?
      then [Attr(x.path, FindAttribute(d[x.path].attributes, name).value)] else []
  {
    var c := Candidates(d, AttributeAxis, NameTest(name), x);
    if x.Tree? && x.path in d && IsXpathAttribute(name) && FindAttribute(d[x.path].attributes, name).Some? {
      var m := Attr(x.path, FindAttribute(d[x.path].attributes, name).value);
      LexTotal(x.path, x.path);
      assert IsMin(m, c);
      MinUnique(m, MinOf(c), c);
      HeadOfSorted(c);
    } else {
      assert c == {};
    }
  }

  lemma AttributeMeaning(env: Env, axis: Axis, name: string, r: Expr, c: Context)
    requires axis.AttributeAxis? && name != "" && RetType(r).TString?
    ensures Sem(env, OptAttribute(name, r), c)
         == Sem(env, Compare(Eq, Step(Absent, axis, NameTest(name), NoPreds), r), c)
  {
    AttributeStepSet(env, axis, name, c);
    SemTypeOf(env, r, c);
    AttributeComparison(env, c.node, name, Sem(env, r, c).s);
  }

  /** The nodes `@name` selects. */
  function AttributeSet(d: Forest, x: XNode, name: string): set<XNode> {
    Elements(Take1(StepSeq(d, AttributeAxis, NameTest(name), x)))
  }

  lemma AttributeStepSet(env: Env, axis: Axis, name: string, c: Context)
    requires axis.AttributeAxis?
    ensures Sem(env, Step(Absent, axis, NameTest(name), NoPreds), c) == MNodes(AttributeSet(env.doc, c.node, name))
  {
    var select := StepFrom(env, axis, NameTest(name), NoPreds);
    assert select(c.node) == Take1(StepSeq(env.doc, axis, NameTest(name), c.node));
    SingleInput(c.node, select);
  }

  lemma SingleInput(x: XNode, select: XNode -> seq<XNode>)
    ensures UnionOf({x}, select) == Elements(select(x))
  {
  }

  lemma AttributeComparison(env: Env, x: XNode, name: string, v: string)
    requires name != ""
    ensures EqualMeanings(env, true, MNodes(AttributeSet(env.doc, x, name)), MStr(v)) == AttributeEquals(env.doc, x, name, v)
  {
    NamedAttribute(env.doc, x, name);
    var s := AttributeSet(env.doc, x, name);
    if x.Tree? && x.path in env.doc && IsXpathAttribute(name) && FindAttribute(env.doc[x.path].attributes, name).Some? {
      var y := Attr(x.path, FindAttribute(env.doc[x.path].attributes, name).value);
      assert s == {y};
      assert StringValue(env.doc, y) == env.doc[x.path].attributes[y.index].value;
    } else {
      assert s == {};
    }
  }

  // ----- The whole expression -----

  /** A context node is nothing or a node of the documents. */
  predicate ContextOk(env: Env, c: Context) {
    c.node.Nothing? || ValidNode(env.doc, c.node)
  }

  lemma {:induction false} PredicateMeaning(env: Env, p: Expr, c: Context)
    requires EnvOk(env) && ContextOk(env, c) && Parsed(p) && WellBuilt(p)
    ensures SemKeep(env, RewritePosition(Optimize(p)), c) == SemKeep(env, p, c)
    decreases p, 1, 0
  {
    OptimizeMeaning(env, p, c);
    RewriteKeeps(env, Optimize(p), c);
  }

  lemma {:induction false} FilterMeaning(env: Env, s: seq<XNode>, i: nat, p: Expr)
    requires EnvOk(env) && Parsed(p) && WellBuilt(p) && i <= |s|
    requires forall y :: y in s ==> ValidNode(env.doc, y)
    ensures SemFilter(env, s, i, RewritePosition(Optimize(p))) == SemFilter(env, s, i, p)
    decreases p, 2, |s| - i
  {
    if i < |s| {
      PredicateMeaning(env, p, Context(s[i], i + 1, |s|));
      FilterMeaning(env, s, i + 1, p);
    }
  }

  lemma {:induction false} PredsMeaning(env: Env, s: seq<XNode>, preds: Preds)
    requires EnvOk(env) && PredsParsed(preds) && PredsWellBuilt(preds)
    requires forall y :: y in s ==> ValidNode(env.doc, y)
    ensures SemPreds(env, s, OptimizePreds(preds)) == SemPreds(env, s, preds)
    decreases preds, 0, 0
  {
    if preds.Pred? {
      FilterMeaning(env, s, 0, preds.e);
      FilterPart(env, s, 0, preds.e);
      PredsMeaning(env, SemFilter(env, s, 0, preds.e), preds.next);
    }
  }

  lemma {:induction false} StepMeaning(env: Env, x: XNode, axis: Axis, test: NodeTest, preds: Preds)
    requires EnvOk(env) && PredsParsed(preds) && PredsWellBuilt(preds)
    ensures SemStep(env, x, axis, test, OptimizePreds(preds)) == SemStep(env, x, axis, test, preds)
    decreases preds, 1, 0
  {
    var l := StepSeq(env.doc, axis, test, x);
    forall y | y in l ensures ValidNode(env.doc, y) { StepSeqMember(env.doc, axis, test, x, y); }
    PredsMeaning(env, TakeOnce(OneAttribute(axis, test), l), preds);
  }

  lemma {:induction false} ArgsMeaning(env: Env, fn: Fn, i: nat, args: Args, c: Context)
    requires EnvOk(env) && ContextOk(env, c) && ArgsParsed(args) && ArgsWellBuilt(args)
    ensures SemArgs(env, fn, i, OptimizeArgs(args), c) == SemArgs(env, fn, i, args, c)
    decreases args, 0, 0
  {
    if args.Arg? {
      OptimizeMeaning(env, args.e, c);
      ArgsMeaning(env, fn, i + 1, args.next, c);
    }
  }

  lemma InnerBuilt(e: Expr)
    requires e.Step? && WellBuilt(e)
    ensures e.left.Of? ==> WellBuilt(e.left.e) && IsNodeSet(e.left.e)
  {
  }

  lemma OptimizeStepMeaning(env: Env, left: Operand, axis: Axis, test: NodeTest, preds: Preds, c: Context)
    requires EnvOk(env) && ContextOk(env, c)
    requires OperandWellBuilt(left) && (left.Of? ==> IsNodeSet(left.e)) && PredsWellBuilt(preds)
    ensures Sem(env, OptimizeStep(left, axis, test, preds), c) == Sem(env, Step(left, axis, test, preds), c)
  {
    if OptimizeStep(left, axis, test, preds) != Step(left, axis, test, preds) {
      var inner := left.e;
      var base := if inner.left.Absent? then {c.node} else Nodes(Sem(env, inner.left.e, c));
      InnerBuilt(inner);
      if inner.left.Of? { NodesValid(env, inner.left.e, c); }
      assert Sem(env, inner, c) == MNodes(UnionOf(base, StepFrom(env, inner.axis, inner.test, inner.preds)));
      MergedUnion(env, base, axis, test, preds);
    }
  }

  /** What string literals become when optimized: themselves. */
  lemma LiteralStays(e: Expr)
    requires Parsed(e) && Optimize(e).StringConst?
    ensures Optimize(e) == e
  {
  }

  /** Optimizing does not change what an expression means, in any context. */
  lemma {:induction false} OptimizeMeaning(env: Env, e: Expr, c: Context)
    requires EnvOk(env) && ContextOk(env, c) && Parsed(e) && WellBuilt(e)
    ensures Sem(env, Optimize(e), c) == Sem(env, e, c)
    decreases e, 0, 0
  {
    match e
    case Call(fn, args) =>
      ArgsMeaning(env, fn, 0, args, c);
      OptimizeCallMeaning(env, fn, args, c);
    case Compare(op, l, r) =>
      OptimizeMeaning(env, l, c);
      OptimizeMeaning(env, r, c);
      OptimizeCompareMeaning(env, op, l, r, c);
    case Union(l, r) => OptimizeMeaning(env, l, c); OptimizeMeaning(env, r, c);
    case Filter(l, p, _) =>
      OptimizeMeaning(env, l, c);
      NodesValid(env, l, c);
      var s := SortedOf(Nodes(Sem(env, l, c)));
      forall y | y in s ensures ValidNode(env.doc, y) { assert y in Elements(s); }
      FilterMeaning(env, s, 0, p);
    case Count(a) => OptimizeMeaning(env, a, c);
    case Sum(a) => OptimizeMeaning(env, a, c);
    case Id(a) =>
    case Label(_, a) => if a.Of? { OptimizeMeaning(env, a.e, c); }
    case Step(left, axis, test, preds) =>
      var left', preds' := OptimizeOperand(left), OptimizePreds(preds);
      OptimizeShape(e);
      if left.Of? {
        OptimizeShape(left.e);
        OptimizeMeaning(env, left.e, c);
      }
      PredsShape(preds);
      var inputs := if left.Absent? then {c.node} else Nodes(Sem(env, left.e, c));
      forall x ensures StepFrom(env, axis, test, preds')(x) == StepFrom(env, axis, test, preds)(x) {
        StepMeaning(env, x, axis, test, preds);
      }
      UnionSame(inputs, StepFrom(env, axis, test, preds'), StepFrom(env, axis, test, preds));
      OptimizeStepMeaning(env, left', axis, test, preds', c);
    case _ =>
  }

  lemma OptimizeCallMeaning(env: Env, fn: Fn, args: Args, c: Context)
    requires ArgsParsed(args)
    ensures Sem(env, OptimizeCall(fn, OptimizeArgs(args)), c) == Sem(env, Call(fn, OptimizeArgs(args)), c)
  {
    var opt := OptimizeArgs(args);
    if OptimizeCall(fn, opt) != Call(fn, opt) {
      assert opt.next == OptimizeArgs(args.next);
      assert opt.next.next == OptimizeArgs(args.next.next);
      assert ArgsParsed(args.next) && ArgsParsed(args.next.next);
      LiteralStays(args.next.e);
      LiteralStays(args.next.next.e);
      CallMeaning(env, fn, opt, c);
    }
  }

  lemma OptimizeCompareMeaning(env: Env, op: CompareOp, l: Expr, r: Expr, c: Context)
    requires Parsed(l)
    ensures Sem(env, OptimizeCompare(op, Optimize(l), Optimize(r)), c) == Sem(env, Compare(op, Optimize(l), Optimize(r)), c)
  {
    var l', r' := Optimize(l), Optimize(r);
    if OptimizeCompare(op, l', r') != Compare(op, l', r') {
      NameStays(l);
      AttributeMeaning(env, l'.axis, l'.test.name, r', c);
    }
  }

  /** A step that tests for a name after optimization tested for it before. */
  lemma NameStays(e: Expr)
    requires Parsed(e) && Optimize(e).Step? && Optimize(e).test.NameTest?
    ensures Optimize(e).test.name != ""
  {
  }

  // ----- What callers see -----

  /** Stopping early loses nothing: any-mode finds a node when there is one, first-mode the first one. */
  lemma EarlyExit(env: Env, e: Expr, c: Context)
    requires EnvOk(env) && WellBuilt(e) && IsNodeSet(e)
    ensures FirstNode(EvalNodes(env, e, c, First)) == FirstNode(EvalNodes(env, e, c, All))
    ensures EvalNodes(env, e, c, Any).nodes == [] <==> EvalNodes(env, e, c, All).nodes == []
    ensures EvalNodes(env, e, c, First).nodes == [] <==> EvalNodes(env, e, c, All).nodes == []
    ensures Elements(EvalNodes(env, e, c, First).nodes) <= Elements(EvalNodes(env, e, c, All).nodes)
  {
    var m := Sem(env, e, c);
    SemTypeOf(env, e, c);
    EvalAgrees(env, e, c, All);
    EvalAgrees(env, e, c, First);
    EvalAgrees(env, e, c, Any);
    FirstNodeMeans(All, EvalNodes(env, e, c, All), m.nodes);
    FirstNodeMeans(First, EvalNodes(env, e, c, First), m.nodes);
    FirstNodeMeans(Any, EvalNodes(env, e, c, Any), m.nodes);
  }

  /** The optimized query means the original and the evaluator finds that meaning in any mode. */
  lemma OptimizedAgrees(env: Env, e: Expr, c: Context, mode: Mode)
    requires EnvOk(env) && ContextOk(env, c) && Parsed(e) && WellBuilt(e)
    ensures Agrees(mode, Eval(env, Optimize(e), c, mode), Sem(env, e, c))
  {
    OptimizeShape(e);
    OptimizeMeaning(env, e, c);
    EvalAgrees(env, Optimize(e), c, mode);
  }

  /** Boolean, number and string results are those of the unoptimized query. */
  lemma OptimizedScalars(env: Env, e: Expr, c: Context)
    requires EnvOk(env) && ContextOk(env, c) && Parsed(e) && WellBuilt(e)
    ensures EvalBool(env, Optimize(e), c) == EvalBool(env, e, c)
    ensures EvalNum(env, Optimize(e), c) == EvalNum(env, e, c)
    ensures EvalText(env, Optimize(e), c) == EvalText(env, e, c)
  {
    var m := Sem(env, e, c);
    OptimizedAgrees(env, e, c, Any);
    OptimizedAgrees(env, e, c, First);
    EvalAgrees(env, e, c, Any);
    EvalAgrees(env, e, c, First);
    Conversions(env, Any, Eval(env, Optimize(e), c, Any), m);
    Conversions(env, First, Eval(env, Optimize(e), c, First), m);
    Conversions(env, Any, Eval(env, e, c, Any), m);
    Conversions(env, First, Eval(env, e, c, First), m);
  }

  /** So are node sets: the same members without repetition, the same order once sorted, the same first node. */
  lemma OptimizedNodes(env: Env, e: Expr, c: Context)
    requires EnvOk(env) && ContextOk(env, c) && Parsed(e) && WellBuilt(e) && IsNodeSet(e)
    ensures Distinct(EvalNodes(env, Optimize(e), c, All).nodes)
    ensures Elements(EvalNodes(env, Optimize(e), c, All).nodes) == Elements(EvalNodes(env, e, c, All).nodes)
    ensures SortDo(EvalNodes(env, Optimize(e), c, All)) == SortDo(EvalNodes(env, e, c, All))
    ensures FirstNode(EvalNodes(env, Optimize(e), c, First)) == FirstNode(EvalNodes(env, e, c, All))
  {
    SemTypeOf(env, e, c);
    OptimizedAgrees(env, e, c, All);
    OptimizedAgrees(env, e, c, First);
    EvalAgrees(env, e, c, All);
    SameAnswers(EvalNodes(env, Optimize(e), c, All), EvalNodes(env, Optimize(e), c, First),
                EvalNodes(env, e, c, All), Sem(env, e, c).nodes);
  }

  lemma SameAnswers(a: NodeSet, f: NodeSet, b: NodeSet, meant: set<XNode>)
    requires Fits(All, a, meant) && Fits(First, f, meant) && Fits(All, b, meant)
    ensures SortDo(a) == SortDo(b)
    ensures FirstNode(f) == FirstNode(b)
  {
    SortDoSorts(a);
    SortDoSorts(b);
    FirstNodeMeans(First, f, meant);
    FirstNodeMeans(All, b, meant);
  }
}
