/**
  The evaluator computes what expressions mean, in every mode and for every true tagging
  of predicates: stopping early, skipping sorts and indexing by constants lose nothing.
 */
module EvaluatorSound {
  import opened DocumentOrder
  import opened Documents
  import opened Axes
  import opened Xpath
  import opened Semantics
  import opened Evaluator
  import opened NodeSets
  import opened Optimizer

  /** Node-set variables hold distinct nodes in the order they claim; addition is exact. */
  ghost predicate EnvOk(env: Env) {
    && WellFormed(env.doc)
    && OrderFreeAddition(env)
    && (forall name :: SetOk(env.nodesVar(name)))
    && (forall name, y :: y in env.nodesVar(name).nodes ==> ValidNode(env.doc, y))
  }

  ghost predicate Agrees(mode: Mode, v: Value, m: Meaning) {
    if v.VNodes? then m.MNodes? && Fits(mode, v.ns, m.nodes)
    else m == Forget(v)
  }

  // ----- Types and positions -----

  /** Position and size play no part in node sets and in position-invariant expressions. */
  lemma {:induction false} PositionFree(env: Env, e: Expr, c: Context, c': Context)
    requires c.node == c'.node && WellBuilt(e) && (IsPosInvariant(e) || IsNodeSet(e))
    ensures Sem(env, e, c) == Sem(env, e, c')
    decreases e
  {
    match e
    case Call(fn, args) => ArgsPositionFree(env, fn, 0, args, c, c');
    case Compare(_, l, r) => PositionFree(env, l, c, c'); PositionFree(env, r, c, c');
    case Union(l, r) => PositionFree(env, l, c, c'); PositionFree(env, r, c, c');
    case Filter(l, _, _) => PositionFree(env, l, c, c');
    case Count(a) => PositionFree(env, a, c, c');
    case Sum(a) => PositionFree(env, a, c, c');
    case Label(_, a) => if a.Of? { PositionFree(env, a.e, c, c'); }
    case Step(left, _, _, _) => if left.Of? { PositionFree(env, left.e, c, c'); }
    case OptAttribute(_, r) => PositionFree(env, r, c, c');
    case _ =>
  }

  lemma {:induction false} ArgsPositionFree(env: Env, fn: Fn, i: nat, args: Args, c: Context, c': Context)
    requires c.node == c'.node && ArgsWellBuilt(args) && ArgsPosInvariant(args)
    ensures SemArgs(env, fn, i, args, c) == SemArgs(env, fn, i, args, c')
    decreases args
  {
    if args.Arg? {
      PositionFree(env, args.e, c, c');
      ArgsPositionFree(env, fn, i + 1, args.next, c, c');
    }
  }

  // ----- Filtering keeps order -----

  /** `r` is what is left of `s` from index `i` on. */
  ghost predicate PartOf(r: seq<XNode>, s: seq<XNode>, i: nat) {
    && (forall y :: y in r ==> exists j :: i <= j < |s| && s[j] == y)
    && (Increasing(s) ==> Increasing(r))
    && (Decreasing(s) ==> Decreasing(r))
    && (Distinct(s) ==> Distinct(r))
  }

  lemma {:induction false} FilterPart(env: Env, s: seq<XNode>, i: nat, p: Expr)
    requires i <= |s|
    ensures PartOf(SemFilter(env, s, i, p), s, i)
    decreases |s| - i
  {
    if i < |s| {
      FilterPart(env, s, i + 1, p);
      var r, t := SemFilter(env, s, i, p), SemFilter(env, s, i + 1, p);
      forall k | 0 <= k < |t| ensures exists j :: i < j < |s| && s[j] == t[k] {
        assert t[k] in t;
      }
      forall y | y in r ensures exists j :: i <= j < |s| && s[j] == y {
        assert r == t || y == s[i] || y in t;
      }
    }
  }

  lemma {:induction false} PredsPart(env: Env, s: seq<XNode>, preds: Preds)
    ensures PartOf(SemPreds(env, s, preds), s, 0)
    decreases preds
  {
    if preds.Pred? {
      var t := SemFilter(env, s, 0, preds.e);
      FilterPart(env, s, 0, preds.e);
      PredsPart(env, t, preds.next);
      forall y | y in SemPreds(env, s, preds) ensures exists j :: 0 <= j < |s| && s[j] == y {
        var k :| 0 <= k < |t| && t[k] == y;
        assert y in t;
      }
    }
  }

  // ----- Conversions -----

  lemma Conversions(env: Env, mode: Mode, v: Value, m: Meaning)
    requires Agrees(mode, v, m)
    ensures ToBool(Forget(v)) == ToBool(m)
    ensures !mode.Any? ==> AsText(env, v) == ToText(env, m)
    ensures !mode.Any? ==> AsNum(env, v) == ToNum(env, m)
    ensures Fits(mode, AsNodes(v), Nodes(m))
    ensures mode.All? ==> Forget(v) == m
  {
    if v.VNodes? {
      FirstNodeMeans(mode, v.ns, m.nodes);
      assert v.ns.nodes != [] ==> v.ns.nodes[0] in Elements(v.ns.nodes);
    }
  }

  lemma ComparesSame(env: Env, op: CompareOp, l: Value, r: Value, l': Meaning, r': Meaning)
    requires Agrees(CompareMode(op, TypeOf(r')), l, l') && Agrees(CompareMode(op, TypeOf(l')), r, r')
    ensures CompareMeanings(env, op, Forget(l), Forget(r)) == CompareMeanings(env, op, l', r')
  {
    Conversions(env, CompareMode(op, TypeOf(r')), l, l');
    Conversions(env, CompareMode(op, TypeOf(l')), r, r');
  }

  function TypeOf(m: Meaning): ValueType {
    match m
    case MBool(_) => TBoolean
    case MNum(_) => TNumber
    case MStr(_) => TString
    case MNodes(_) => TNodeSet
  }

  lemma SemTypeOf(env: Env, e: Expr, c: Context)
    ensures TypeOf(Sem(env, e, c)) == RetType(e)
  {
    ApplyType(env, e, c);
  }

  lemma ApplyType(env: Env, e: Expr, c: Context)
    ensures e.Call? ==> TypeOf(Sem(env, e, c)) == FnType(e.fn)
  {
  }

  // ----- Predicates -----

  /** Filtering with a fixed number picks the node at that position. */
  lemma {:induction false} NthFilter(env: Env, s: seq<XNode>, i: nat, p: Expr, n: Num)
    requires i <= |s|
    requires forall j :: 0 <= j < |s| ==> SemKeep(env, p, Context(s[j], j + 1, |s|)) == NumEq(n, FromNat(j + 1))
    ensures SemFilter(env, s, i, p) ==
      if n.Fin? && n.r == n.r.Floor as real && i + 1 <= n.r.Floor <= |s| then [s[n.r.Floor - 1]] else []
    decreases |s| - i
  {
    if i < |s| { NthFilter(env, s, i + 1, p, n); }
  }

  lemma FixedNumber(env: Env, p: Expr, c: Context, c': Context)
    requires RetType(p).TNumber? && (p.NumberConst? || p.Var? || p.Last?) && c.size == c'.size
    ensures Eval(env, p, c, First) == Eval(env, p, c', First)
    ensures Sem(env, p, c) == MNum(EvalNum(env, p, c'))
  {
  }

  lemma ConstantAgrees(env: Env, s: seq<XNode>, p: Expr, tag: PredTag)
    requires TagTrue(p, tag) && (tag.Constant? || tag.ConstantOne?)
    ensures EvalConstant(env, s, p) == SemFilter(env, s, 0, p)
    ensures |SemFilter(env, s, 0, p)| <= 1
    ensures tag.ConstantOne? ==> SemFilter(env, s, 0, p) == Take1(s)
  {
    var n := EvalNum(env, p, Context(Nothing, 1, |s|));
    forall j | 0 <= j < |s| ensures SemKeep(env, p, Context(s[j], j + 1, |s|)) == NumEq(n, FromNat(j + 1)) {
      FixedNumber(env, p, Context(s[j], j + 1, |s|), Context(Nothing, 1, |s|));
    }
    NthFilter(env, s, 0, p, n);
  }

  lemma {:induction false} KeepAgrees(env: Env, p: Expr, c: Context)
    requires EnvOk(env) && WellBuilt(p)
    ensures EvalKeep(env, p, c) == SemKeep(env, p, c)
    decreases p, 2, 0
  {
    SemTypeOf(env, p, c);
    EvalAgrees(env, p, c, First);
    EvalAgrees(env, p, c, Any);
    Conversions(env, First, Eval(env, p, c, First), Sem(env, p, c));
    Conversions(env, Any, Eval(env, p, c, Any), Sem(env, p, c));
  }

  lemma {:induction false} FilterAgrees(env: Env, s: seq<XNode>, i: nat, p: Expr, once: bool)
    requires EnvOk(env) && WellBuilt(p) && i <= |s|
    ensures EvalFilter(env, s, i, p, once) == TakeOnce(once, SemFilter(env, s, i, p))
    decreases p, 3, |s| - i
  {
    if i < |s| {
      KeepAgrees(env, p, Context(s[i], i + 1, |s|));
      FilterAgrees(env, s, i + 1, p, once);
    }
  }

  lemma {:induction false} ApplyPredicateAgrees(env: Env, s: seq<XNode>, p: Expr, tag: PredTag, once: bool)
    requires EnvOk(env) && WellBuilt(p) && TagTrue(p, tag)
    ensures ApplyPredicate(env, s, p, tag, once) == TakeOnce(once, SemFilter(env, s, 0, p))
    decreases p, 4, 0
  {
    if s == [] {
    } else if tag.Constant? || tag.ConstantOne? {
      ConstantAgrees(env, s, p, tag);
    } else {
      FilterAgrees(env, s, 0, p, once);
    }
  }

  lemma {:induction false} ApplyPredicatesAgrees(env: Env, s: seq<XNode>, preds: Preds, lastOnce: bool)
    requires EnvOk(env) && PredsWellBuilt(preds)
    ensures ApplyPredicates(env, s, preds, lastOnce) == TakeOnce(lastOnce && preds.Pred?, SemPreds(env, s, preds))
    decreases preds, 0, 0
  {
    if preds.Pred? {
      var once := preds.next.NoPreds? && lastOnce;
      ApplyPredicateAgrees(env, s, preds.e, preds.tag, once);
      ApplyPredicatesAgrees(env, ApplyPredicate(env, s, preds.e, preds.tag, once), preds.next, lastOnce);
    }
  }

  // ----- One input of a step -----

  /** Stopping early is allowed where the first node found is all that is needed. */
  ghost predicate MayStop(axis: Axis, mode: Mode) {
    mode.Any? || (mode.First? && !ReverseAxis(axis))
  }

  lemma {:induction false} StepOneAgrees(env: Env, x: XNode, order: Order, axis: Axis, test: NodeTest, preds: Preds, mode: Mode)
    requires EnvOk(env) && PredsWellBuilt(preds)
    requires order == AxisOrder(axis) || order.Unsorted? || axis.Self?
    ensures var r, full := StepOne(env, x, order, axis, test, preds, mode), SemStep(env, x, axis, test, preds);
            r == full || (r == Take1(full) && MayStop(axis, mode))
    decreases preds, 1, 0
  {
    var l := StepSeq(env.doc, axis, test, x);
    var found := TakeOnce(FillOnce(axis, test, preds, mode), l);
    ApplyPredicatesAgrees(env, found, preds, EvalOnce(order, mode));
    if !OneAttribute(axis, test) && preds.Pred? && preds.next.NoPreds? && preds.tag.ConstantOne? {
      ConstantAgrees(env, l, preds.e, preds.tag);
      ConstantAgrees(env, Take1(l), preds.e, preds.tag);
    }
  }

  lemma {:induction false} StepSeqOrder(env: Env, x: XNode, axis: Axis, test: NodeTest, preds: Preds)
    ensures var full := SemStep(env, x, axis, test, preds);
            && (if ReverseAxis(axis) then Decreasing(full) else Increasing(full))
            && (forall y :: y in full ==> OnAxis(axis, x, y) && !y.Nothing?)
  {
    var c := Candidates(env.doc, axis, test, x);
    var l := StepSeq(env.doc, axis, test, x);
    assert Elements(l) == c && (if ReverseAxis(axis) then Decreasing(l) else Increasing(l)) by {
      assert Elements(SortedOf(c)) == c;
      ReverseOrder(SortedOf(c));
      ReverseElements(SortedOf(c));
    }
    var k := TakeOnce(OneAttribute(axis, test), l);
    PredsPart(env, k, preds);
    forall y | y in SemPreds(env, k, preds) ensures y in c {
      var j :| 0 <= j < |k| && k[j] == y;
      assert l[j] == y && y in Elements(l);
    }
  }

  lemma StepOneOk(axis: Axis, mode: Mode, r: seq<XNode>, full: seq<XNode>)
    requires r == full || (r == Take1(full) && MayStop(axis, mode))
    requires if ReverseAxis(axis) then Decreasing(full) else Increasing(full)
    ensures Approximates(mode, Elements(r), Elements(full))
    ensures if ReverseAxis(axis) then Decreasing(r) else Increasing(r)
  {
    if mode.First? {
      forall y | y in full ensures Covers(Elements(r), y) {
        if r == full {
          assert y in Elements(r) && AtOrBefore(y, y);
        } else {
          var i :| 0 <= i < |full| && full[i] == y;
          assert r == [full[0]];
          assert full[0] in Elements(r) && AtOrBefore(full[0], y);
        }
      }
    }
    assert full != [] ==> r != [] && r[0] in Elements(r);
  }

  // ----- All inputs of a step -----

  lemma UnionSplit(s: seq<XNode>, i: nat, select: XNode -> seq<XNode>)
    requires i < |s|
    ensures UnionOf(Elements(s[i..]), select) == Elements(select(s[i])) + UnionOf(Elements(s[i + 1..]), select)
  {
    assert s[i..] == [s[i]] + s[i + 1..];
    assert Elements(s[i..]) == {s[i]} + Elements(s[i + 1..]);
  }

  /** From these axes no node is reached twice, whatever the inputs. */
  predicate Disjoint(axis: Axis) {
    axis.Child? || axis.AttributeAxis? || axis.Self?
  }

  /** The nodes collected from the first `i` inputs, and what is known of their order. */
  ghost predicate LoopOk(axis: Axis, start: Order, inputs: seq<XNode>, i: nat, acc: NodeSet) {
    && OrderTrue(acc) && Nothing !in acc.nodes
    && (if axis.Self? then acc.order == start else acc.order == AxisOrder(axis) || acc.order.Unsorted?)
    && (Disjoint(axis) ==> Distinct(acc.nodes))
    && (Disjoint(axis) ==> forall y :: y in acc.nodes ==> Owned(axis, inputs, i, y))
  }

  ghost predicate Owned(axis: Axis, inputs: seq<XNode>, i: nat, y: XNode) {
    exists k :: 0 <= k < i && k < |inputs| && OnAxis(axis, inputs[k], y)
  }

  lemma OneOwner(axis: Axis, x: XNode, x': XNode, y: XNode)
    requires Disjoint(axis) && OnAxis(axis, x, y) && OnAxis(axis, x', y)
    ensures x == x'
  {
    if axis.Child? {
      assert x.path == y.path[..|y.path| - 1] == x'.path;
    }
  }

  lemma OnSelf(x: XNode, y: XNode)
    requires OnAxis(Self, x, y)
    ensures x == y
  {
  }

  lemma AppendDistinct(axis: Axis, inputs: seq<XNode>, i: nat, acc: seq<XNode>, found: seq<XNode>)
    requires Disjoint(axis) && Distinct(inputs) && i < |inputs| && Distinct(acc)
    requires forall y :: y in acc ==> Owned(axis, inputs, i, y)
    requires forall y :: y in found ==> OnAxis(axis, inputs[i], y)
    requires Distinct(found)
    ensures Distinct(acc + found)
    ensures forall y :: y in acc + found ==> Owned(axis, inputs, i + 1, y)
  {
    forall y | y in acc ensures y !in found && Owned(axis, inputs, i + 1, y) {
      var k :| 0 <= k < i && k < |inputs| && OnAxis(axis, inputs[k], y);
      if y in found { OneOwner(axis, inputs[k], inputs[i], y); }
    }
    forall y | y in found ensures Owned(axis, inputs, i + 1, y) {
      assert OnAxis(axis, inputs[i], y);
    }
    var r := acc + found;
    forall j, k | 0 <= j < k < |r| ensures r[j] != r[k] {
      if j < |acc| <= k { assert r[j] in acc && r[k] in found; }
    }
  }

  lemma AppendSelf(order: Order, inputs: seq<XNode>, i: nat, acc: seq<XNode>, found: seq<XNode>)
    requires OrderTrue(NodeSet(order, inputs)) && i < |inputs| && OrderTrue(NodeSet(order, acc))
    requires forall y :: y in acc ==> Owned(Self, inputs, i, y)
    requires forall y :: y in found ==> y == inputs[i]
    requires Distinct(found)
    ensures OrderTrue(NodeSet(order, acc + found))
  {
    DistinctSize(found);
    assert Elements(found) == {} || Elements(found) == {inputs[i]};
    forall j | 0 <= j < |acc| ensures exists k :: 0 <= k < i && inputs[k] == acc[j] {
      assert acc[j] in acc;
      var k :| 0 <= k < i && k < |inputs| && OnAxis(Self, inputs[k], acc[j]);
      OnSelf(inputs[k], acc[j]);
    }
    assert found != [] ==> found[0] in found;
  }

  lemma LoopStepOrder(axis: Axis, start: Order, inputs: seq<XNode>, i: nat, acc: NodeSet, order: Order, found: seq<XNode>)
    requires LoopOk(axis, start, inputs, i, acc) && i < |inputs| && Distinct(found)
    requires order == if !axis.Self? && acc.nodes != [] then Unsorted else acc.order
    requires axis.Self? ==> OrderTrue(NodeSet(start, inputs))
    requires forall y :: y in found ==> OnAxis(axis, inputs[i], y)
    requires if ReverseAxis(axis) then Decreasing(found) else Increasing(found)
    ensures OrderTrue(NodeSet(order, acc.nodes + found))
  {
    if axis.Self? {
      forall y | y in found ensures y == inputs[i] { OnSelf(inputs[i], y); }
      AppendSelf(start, inputs, i, acc.nodes, found);
    } else if acc.nodes == [] {
      assert acc.nodes + found == found;
    }
  }

  lemma LoopStep(axis: Axis, start: Order, inputs: seq<XNode>, i: nat, acc: NodeSet, order: Order, found: seq<XNode>)
    requires LoopOk(axis, start, inputs, i, acc) && i < |inputs|
    requires order == if !axis.Self? && acc.nodes != [] then Unsorted else acc.order
    requires Disjoint(axis) ==> Distinct(inputs)
    requires axis.Self? ==> OrderTrue(NodeSet(start, inputs))
    requires forall y :: y in found ==> OnAxis(axis, inputs[i], y) && !y.Nothing?
    requires if ReverseAxis(axis) then Decreasing(found) else Increasing(found)
    ensures LoopOk(axis, start, inputs, i + 1, NodeSet(order, acc.nodes + found))
  {
    OrderedIsDistinct(found);
    LoopStepOrder(axis, start, inputs, i, acc, order, found);
    if Disjoint(axis) {
      AppendDistinct(axis, inputs, i, acc.nodes, found);
    }
  }

  lemma {:induction false} StepLoopAgrees(env: Env, inputs: seq<XNode>, i: nat, acc: NodeSet, start: Order, meant: set<XNode>,
                                          axis: Axis, test: NodeTest, preds: Preds, mode: Mode)
    requires EnvOk(env) && PredsWellBuilt(preds) && i <= |inputs|
    requires LoopOk(axis, start, inputs, i, acc)
    requires Disjoint(axis) ==> Distinct(inputs)
    requires axis.Self? ==> OrderTrue(NodeSet(start, inputs))
    requires Approximates(mode, Elements(acc.nodes), meant)
    ensures var r := StepLoop(env, inputs, i, acc, axis, test, preds, mode);
            && LoopOk(axis, start, inputs, |inputs|, r)
            && Approximates(mode, Elements(r.nodes), meant + UnionOf(Elements(inputs[i..]), StepFrom(env, axis, test, preds)))
    decreases preds, 2, |inputs| - i
  {
    var select := StepFrom(env, axis, test, preds);
    if i == |inputs| {
      UnionNone(inputs, meant, select);
    } else {
      var x := inputs[i];
      var order := if !axis.Self? && acc.nodes != [] then Unsorted else acc.order;
      var found := StepOne(env, x, order, axis, test, preds, mode);
      OneInput(env, x, order, axis, test, preds, mode);
      LoopAdvance(axis, start, inputs, i, acc, order, found, select(x), meant, mode);
      StepLoopAgrees(env, inputs, i + 1, NodeSet(order, acc.nodes + found), start, meant + Elements(select(x)),
                     axis, test, preds, mode);
      UnionSplit(inputs, i, select);
      UnionAssociates(meant, Elements(select(x)), UnionOf(Elements(inputs[i + 1..]), select));
    }
  }

  lemma UnionNone(inputs: seq<XNode>, meant: set<XNode>, select: XNode -> seq<XNode>)
    ensures meant + UnionOf(Elements(inputs[|inputs|..]), select) == meant
  {
  }

  lemma UnionAssociates(a: set<XNode>, b: set<XNode>, c: set<XNode>)
    ensures a + b + c == a + (b + c)
  {
  }

  lemma {:induction false} OneInput(env: Env, x: XNode, order: Order, axis: Axis, test: NodeTest, preds: Preds, mode: Mode)
    requires EnvOk(env) && PredsWellBuilt(preds)
    requires order == AxisOrder(axis) || order.Unsorted? || axis.Self?
    ensures var r, full := StepOne(env, x, order, axis, test, preds, mode), StepFrom(env, axis, test, preds)(x);
            && (r == full || (r == Take1(full) && MayStop(axis, mode)))
            && (if ReverseAxis(axis) then Decreasing(full) else Increasing(full))
            && (forall y :: y in full ==> OnAxis(axis, x, y) && !y.Nothing?)
    decreases preds, 1, 1
  {
    StepOneAgrees(env, x, order, axis, test, preds, mode);
    StepSeqOrder(env, x, axis, test, preds);
  }

  lemma LoopAdvance(axis: Axis, start: Order, inputs: seq<XNode>, i: nat, acc: NodeSet, order: Order,
                    found: seq<XNode>, full: seq<XNode>, meant: set<XNode>, mode: Mode)
    requires LoopOk(axis, start, inputs, i, acc) && i < |inputs|
    requires order == if !axis.Self? && acc.nodes != [] then Unsorted else acc.order
    requires Disjoint(axis) ==> Distinct(inputs)
    requires axis.Self? ==> OrderTrue(NodeSet(start, inputs))
    requires found == full || (found == Take1(full) && MayStop(axis, mode))
    requires forall y :: y in full ==> OnAxis(axis, inputs[i], y) && !y.Nothing?
    requires if ReverseAxis(axis) then Decreasing(full) else Increasing(full)
    requires Approximates(mode, Elements(acc.nodes), meant)
    ensures LoopOk(axis, start, inputs, i + 1, NodeSet(order, acc.nodes + found))
    ensures Approximates(mode, Elements(acc.nodes + found), meant + Elements(full))
  {
    StepOneOk(axis, mode, found, full);
    assert forall y :: y in found ==> y in full;
    LoopStep(axis, start, inputs, i, acc, order, found);
    ApproximateUnion(mode, Elements(acc.nodes), meant, Elements(found), Elements(full));
    assert Elements(acc.nodes + found) == Elements(acc.nodes) + Elements(found);
  }

  lemma {:induction false} StepAgrees(env: Env, inputs: NodeSet, start: Order, axis: Axis, test: NodeTest, preds: Preds, mode: Mode)
    requires EnvOk(env) && PredsWellBuilt(preds)
    requires Distinct(inputs.nodes) && OrderTrue(inputs)
    requires start == (if axis.Self? then inputs.order else AxisOrder(axis))
    ensures var all := StepLoop(env, inputs.nodes, 0, NodeSet(start, []), axis, test, preds, mode);
            var r := if !axis.Child? && !axis.AttributeAxis? && !axis.Self? && all.order.Unsorted? then RemoveDuplicates(all) else all;
            Fits(mode, r, UnionOf(Elements(inputs.nodes), StepFrom(env, axis, test, preds)))
    decreases preds, 3, 0
  {
    var all := StepLoop(env, inputs.nodes, 0, NodeSet(start, []), axis, test, preds, mode);
    assert inputs.nodes[0..] == inputs.nodes;
    assert Elements<XNode>([]) == {};
    assert Approximates(mode, Elements([]), {});
    StepLoopAgrees(env, inputs.nodes, 0, NodeSet(start, []), start, {}, axis, test, preds, mode);
    if !Disjoint(axis) {
      if all.order.Unsorted? {
        RemoveDuplicatesKeeps(all);
      } else {
        OrderedIsDistinct(all.nodes);
      }
    }
  }

  // ----- Filters -----

  /** A position-invariant predicate keeps the same members however they are listed. */
  lemma {:induction false} InvariantFilter(env: Env, s: seq<XNode>, i: nat, p: Expr, y: XNode)
    requires WellBuilt(p) && IsPosInvariant(p) && !RetType(p).TNumber? && i <= |s|
    ensures y in SemFilter(env, s, i, p) <==> y in s[i..] && ToBool(Sem(env, p, Context(y, 1, 1)))
    decreases |s| - i
  {
    if i < |s| {
      assert s[i..] == [s[i]] + s[i + 1..];
      InvariantFilter(env, s, i + 1, p, y);
      SemTypeOf(env, p, Context(s[i], i + 1, |s|));
      PositionFree(env, p, Context(s[i], i + 1, |s|), Context(s[i], 1, 1));
    }
  }

  lemma FilterOrder(order: Order, s: seq<XNode>, r: seq<XNode>)
    requires SetOk(NodeSet(order, s)) && PartOf(r, s, 0)
    ensures SetOk(NodeSet(order, r))
  {
  }

  lemma OnceFits(mode: Mode, order: Order, r: seq<XNode>)
    requires SetOk(NodeSet(order, r))
    ensures Fits(mode, NodeSet(order, TakeOnce(EvalOnce(order, mode), r)), Elements(r))
  {
    var t := TakeOnce(EvalOnce(order, mode), r);
    if t == r {
      forall y | y in r ensures Covers(Elements(t), y) { assert y in Elements(t) && AtOrBefore(y, y); }
    } else {
      assert t == [r[0]];
      assert r[0] in Elements(t);
      if mode.First? {
        forall y | y in r ensures Covers(Elements(t), y) {
          var i :| 0 <= i < |r| && r[i] == y;
          assert AtOrBefore(r[0], y);
        }
      }
    }
  }

  lemma SortedIsSet(ns: NodeSet)
    requires SetOk(ns)
    ensures SetOk(SortDo(ns)) && SortDo(ns) == NodeSet(Sorted, SortedOf(Elements(ns.nodes)))
  {
    SortDoSorts(ns);
    OrderedIsDistinct(SortedOf(Elements(ns.nodes)));
    assert forall y :: y in SortedOf(Elements(ns.nodes)) ==> y in Elements(SortedOf(Elements(ns.nodes)));
  }

  /** A position-invariant predicate keeps the same members of a set in any order. */
  lemma InvariantKeeps(env: Env, s: seq<XNode>, t: seq<XNode>, p: Expr)
    requires WellBuilt(p) && IsPosInvariant(p) && !RetType(p).TNumber? && Elements(s) == Elements(t)
    ensures Elements(SemFilter(env, s, 0, p)) == Elements(SemFilter(env, t, 0, p))
  {
    assert t[0..] == t && s[0..] == s;
    forall y ensures y in SemFilter(env, s, 0, p) <==> y in SemFilter(env, t, 0, p) {
      InvariantFilter(env, s, 0, p, y);
      InvariantFilter(env, t, 0, p, y);
      assert y in t <==> y in Elements(t);
      assert y in s <==> y in Elements(s);
    }
  }

  lemma {:induction false} FilterFits(env: Env, ns: NodeSet, meant: set<XNode>, p: Expr, tag: PredTag, mode: Mode)
    requires EnvOk(env) && WellBuilt(p) && TagTrue(p, tag)
    requires Fits(if tag.ConstantOne? then First else All, ns, meant)
    ensures var sorted := if tag.PosInvariant? then ns else SortDo(ns);
            Fits(mode, sorted.(nodes := ApplyPredicate(env, sorted.nodes, p, tag, EvalOnce(sorted.order, mode))),
                 Elements(SemFilter(env, SortedOf(meant), 0, p)))
    decreases p, 5, 0
  {
    var sorted := if tag.PosInvariant? then ns else SortDo(ns);
    SortedIsSet(ns);
    var kept := SemFilter(env, sorted.nodes, 0, p);
    ApplyPredicateAgrees(env, sorted.nodes, p, tag, EvalOnce(sorted.order, mode));
    FilterPart(env, sorted.nodes, 0, p);
    FilterOrder(sorted.order, sorted.nodes, kept);
    OnceFits(mode, sorted.order, kept);
    if tag.PosInvariant? {
      InvariantKeeps(env, ns.nodes, SortedOf(meant), p);
    } else if tag.ConstantOne? {
      ConstantAgrees(env, sorted.nodes, p, tag);
      ConstantAgrees(env, SortedOf(meant), p, tag);
      FirstOfSorted(ns, meant);
    }
  }

  lemma FirstOfSorted(ns: NodeSet, meant: set<XNode>)
    requires Fits(First, ns, meant)
    ensures Take1(SortedOf(Elements(ns.nodes))) == Take1(SortedOf(meant))
  {
    FirstNodeMeans(First, ns, meant);
    if ns.nodes != [] {
      FirstNodeIsMin(ns);
      HeadOfSorted(meant);
      HeadOfSorted(Elements(ns.nodes));
      MinUnique(MinOf(meant), MinOf(Elements(ns.nodes)), Elements(ns.nodes));
    } else {
      assert Elements(ns.nodes) == {};
    }
  }

  lemma HeadOfSorted(s: set<XNode>)
    requires s != {}
    ensures SortedOf(s) != [] && SortedOf(s)[0] == MinOf(s)
  {
    assert SortedOf(s) == [MinOf(s)] + SortedOf(s - {MinOf(s)});
  }

  // ----- The evaluator -----

  lemma {:induction false} ArgsAgree(env: Env, fn: Fn, i: nat, args: Args, c: Context)
    requires EnvOk(env) && ArgsWellBuilt(args)
    ensures EvalArgs(env, fn, i, args, c) == SemArgs(env, fn, i, args, c)
    decreases args, 0, 0
  {
    if args.Arg? {
      var a, m := args.e, Sem(env, args.e, c);
      EvalAgrees(env, a, c, Any);
      EvalAgrees(env, a, c, First);
      EvalAgrees(env, a, c, All);
      Conversions(env, Any, Eval(env, a, c, Any), m);
      Conversions(env, First, Eval(env, a, c, First), m);
      Conversions(env, All, Eval(env, a, c, All), m);
      assert EvalArg(env, ArgType(fn, i), a, c) == Convert(env, ArgType(fn, i), m);
      ArgsAgree(env, fn, i + 1, args.next, c);
    }
  }

  lemma RootFits(c: Context, mode: Mode)
    ensures Fits(mode, NodeSet(Sorted, SortedOf(RootOf(c.node))), RootOf(c.node))
  {
    var s := SortedOf(RootOf(c.node));
    assert Elements(s) == RootOf(c.node);
    assert forall y :: y in s ==> y in Elements(s);
    OrderedIsDistinct(s);
    forall y | y in s ensures Covers(Elements(s), y) { assert AtOrBefore(y, y); }
  }

  lemma {:induction false} UnionFits(mode: Mode, a: NodeSet, s: set<XNode>, b: NodeSet, t: set<XNode>)
    requires Fits(mode, a, s) && Fits(mode, b, t)
    ensures Fits(mode, RemoveDuplicates(NodeSet(Unsorted, a.nodes + b.nodes)), s + t)
  {
    RemoveDuplicatesKeeps(NodeSet(Unsorted, a.nodes + b.nodes));
    assert Elements(a.nodes + b.nodes) == Elements(a.nodes) + Elements(b.nodes);
    ApproximateUnion(mode, Elements(a.nodes), s, Elements(b.nodes), t);
  }

  lemma SetVariableFits(ns: NodeSet, mode: Mode)
    requires SetOk(ns)
    ensures Fits(mode, ns, Elements(ns.nodes))
  {
    forall y | y in ns.nodes ensures Covers(Elements(ns.nodes), y) {
      assert y in Elements(ns.nodes) && AtOrBefore(y, y);
    }
  }

  /** count() and sum() do not depend on how the nodes are listed. */
  lemma Totals(env: Env, v: Value, m: Meaning)
    requires EnvOk(env) && Agrees(All, v, m)
    ensures |AsNodes(v).nodes| == |Nodes(m)|
    ensures SumOf(env, AsNodes(v).nodes) == SumOf(env, SortedOf(Nodes(m)))
  {
    Conversions(env, All, v, m);
    var s := AsNodes(v).nodes;
    DistinctSize(s);
    OrderedIsDistinct(SortedOf(Elements(s)));
    SumAnyOrder(env, s, SortedOf(Elements(s)));
  }

  lemma CompareCase(env: Env, op: CompareOp, l: Expr, r: Expr, c: Context, mode: Mode)
    requires EnvOk(env) && WellBuilt(Compare(op, l, r))
    requires Agrees(CompareMode(op, RetType(r)), Eval(env, l, c, CompareMode(op, RetType(r))), Sem(env, l, c))
    requires Agrees(CompareMode(op, RetType(l)), Eval(env, r, c, CompareMode(op, RetType(l))), Sem(env, r, c))
    ensures Agrees(mode, Eval(env, Compare(op, l, r), c, mode), Sem(env, Compare(op, l, r), c))
  {
    SemTypeOf(env, l, c);
    SemTypeOf(env, r, c);
    ComparesSame(env, op, Eval(env, l, c, CompareMode(op, RetType(r))), Eval(env, r, c, CompareMode(op, RetType(l))),
                 Sem(env, l, c), Sem(env, r, c));
  }

  lemma UnionCase(env: Env, l: Expr, r: Expr, c: Context, mode: Mode)
    requires EnvOk(env) && WellBuilt(Union(l, r))
    requires Agrees(mode, Eval(env, l, c, mode), Sem(env, l, c)) && Agrees(mode, Eval(env, r, c, mode), Sem(env, r, c))
    ensures Agrees(mode, Eval(env, Union(l, r), c, mode), Sem(env, Union(l, r), c))
  {
    Conversions(env, mode, Eval(env, l, c, mode), Sem(env, l, c));
    Conversions(env, mode, Eval(env, r, c, mode), Sem(env, r, c));
    UnionFits(mode, EvalNodes(env, l, c, mode), Nodes(Sem(env, l, c)), EvalNodes(env, r, c, mode), Nodes(Sem(env, r, c)));
  }

  lemma LabelCase(env: Env, fn: LabelFn, a: Operand, c: Context, mode: Mode)
    requires EnvOk(env) && WellBuilt(Label(fn, a))
    requires a.Of? ==> Agrees(First, Eval(env, a.e, c, First), Sem(env, a.e, c))
    ensures Agrees(mode, Eval(env, Label(fn, a), c, mode), Sem(env, Label(fn, a), c))
  {
    if a.Of? {
      Conversions(env, First, Eval(env, a.e, c, First), Sem(env, a.e, c));
      FirstNodeMeans(First, EvalNodes(env, a.e, c, First), Nodes(Sem(env, a.e, c)));
    }
  }

  /**
    In every mode the evaluator's answer fits the meaning of the expression: scalars are
    equal, all-mode sets have exactly the meant members, first-mode sets the same first
    node, any-mode sets are empty exactly when they should be.
   */
  lemma {:induction false} EvalAgrees(env: Env, e: Expr, c: Context, mode: Mode)
    requires EnvOk(env) && WellBuilt(e)
    ensures Agrees(mode, Eval(env, e, c, mode), Sem(env, e, c))
    decreases e, 0, 0
  {
    match e
    case Call(fn, args) => ArgsAgree(env, fn, 0, args, c); SemTypeOf(env, e, c);
    case Compare(op, l, r) =>
      SemTypeOf(env, l, c);
      SemTypeOf(env, r, c);
      EvalAgrees(env, l, c, CompareMode(op, RetType(r)));
      EvalAgrees(env, r, c, CompareMode(op, RetType(l)));
      CompareCase(env, op, l, r, c, mode);
    case Union(l, r) =>
      EvalAgrees(env, l, c, mode);
      EvalAgrees(env, r, c, mode);
      UnionCase(env, l, r, c, mode);
    case Filter(l, p, tag) =>
      var m := if tag.ConstantOne? then First else All;
      EvalAgrees(env, l, c, m);
      Conversions(env, m, Eval(env, l, c, m), Sem(env, l, c));
      FilterFits(env, EvalNodes(env, l, c, m), Nodes(Sem(env, l, c)), p, tag, mode);
    case Var(t, name) => if t.TNodeSet? { SetVariableFits(env.nodesVar(name), mode); }
    case Count(a) => EvalAgrees(env, a, c, All); Totals(env, Eval(env, a, c, All), Sem(env, a, c));
    case Sum(a) => EvalAgrees(env, a, c, All); Totals(env, Eval(env, a, c, All), Sem(env, a, c));
    case Id(_) => assert Elements<XNode>([]) == {};
    case Label(fn, a) =>
      if a.Of? {
        EvalAgrees(env, a.e, c, First);
      }
      LabelCase(env, fn, a, c, mode);
    case Step(left, axis, test, preds) => StepMeans(env, left, axis, test, preds, c, mode);
    case Root => RootFits(c, mode);
    case OptAttribute(name, r) =>
      EvalAgrees(env, r, c, First);
      Conversions(env, First, Eval(env, r, c, First), Sem(env, r, c));
    case _ =>
  }

  lemma {:induction false} StepMeans(env: Env, left: Operand, axis: Axis, test: NodeTest, preds: Preds, c: Context, mode: Mode)
    requires EnvOk(env) && OperandWellBuilt(left) && PredsWellBuilt(preds)
    ensures var e := Step(left, axis, test, preds); Agrees(mode, Eval(env, e, c, mode), Sem(env, e, c))
    decreases Step(left, axis, test, preds), 0, -1
  {
    var inputs := if left.Absent? then NodeSet(Sorted, [c.node]) else EvalNodes(env, left.e, c, All);
    var meant := if left.Absent? then {c.node} else Nodes(Sem(env, left.e, c));
    if left.Of? {
      EvalAgrees(env, left.e, c, All);
      Conversions(env, All, Eval(env, left.e, c, All), Sem(env, left.e, c));
    }
    assert Elements(inputs.nodes) == meant;
    if axis.Namespace? {
      NamespaceEmpty(env, meant, test, preds);
    } else {
      var start := if axis.Self? && left.Of? then inputs.order else AxisOrder(axis);
      StepAgrees(env, inputs, start, axis, test, preds, mode);
    }
  }

  lemma NamespaceEmpty(env: Env, inputs: set<XNode>, test: NodeTest, preds: Preds)
    ensures UnionOf(inputs, StepFrom(env, Namespace, test, preds)) == {}
    ensures Elements<XNode>([]) == {}
  {
    forall x ensures SemStep(env, x, Namespace, test, preds) == [] {
      var r := SemStep(env, x, Namespace, test, preds);
      assert r == [] || r[0] in r;
      StepSeqOrder(env, x, Namespace, test, preds);
    }
  }
}
