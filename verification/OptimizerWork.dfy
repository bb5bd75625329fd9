/** What the optimizer leaves nothing of: four ways of writing that it replaces wherever they stand. */
module OptimizerWork {
  import opened DocumentOrder
  import opened Documents
  import opened Axes
  import opened Xpath
  import opened Optimizer

  predicate Ascii(s: string) {
    forall i :: 0 <= i < |s| ==> s[i] < 128 as char
  }

  /** `translate(e, 'from', 'to')` with constants in ASCII. */
  predicate IsConstantTranslation(args: Args) {
    && args.Arg? && args.next.Arg? && args.next.next.Arg?
    && args.next.e.StringConst? && args.next.next.e.StringConst?
    && Ascii(args.next.e.text) && Ascii(args.next.next.e.text)
  }

  /** `@name = 'value'` or `@name = $value`. */
  predicate IsAttributeTest(op: CompareOp, l: Expr, r: Expr) {
    && op.Eq? && l.Step? && l.left.Absent? && l.axis.AttributeAxis? && l.test.NameTest? && l.preds.NoPreds?
    && (r.StringConst? || (r.Var? && r.t.TString?))
  }

  /** `position() = e` with a number. */
  predicate AsksPosition(p: Expr) {
    p.Compare? && p.cop.Eq? && p.l.Position? && RetType(p.r).TNumber?
  }

  /** `descendant-or-self::node()`, which is what `//` abbreviates. */
  predicate IsAnywhere(a: Operand) {
    a.Of? && a.e.Step? && a.e.axis.DescendantOrSelf? && a.e.test.AnyNode? && a.e.preds.NoPreds?
  }

  /** Predicates that do not look at positions. */
  predicate IgnorePositions(preds: Preds) {
    preds.Pred? ==> !RetType(preds.e).TNumber? && IsPosInvariant(preds.e) && IgnorePositions(preds.next)
  }

  /** None of the four stands anywhere in the expression. */
  predicate Simplified(e: Expr) {
    match e
    case Call(fn, args) => ArgsSimplified(args) && !(fn.TranslateFn? && IsConstantTranslation(args))
    case Compare(op, l, r) => Simplified(l) && Simplified(r) && !IsAttributeTest(op, l, r)
    case Union(l, r) => Simplified(l) && Simplified(r)
    case Filter(l, p, _) => Simplified(l) && Simplified(p) && !AsksPosition(p)
    case Count(a) => Simplified(a)
    case Sum(a) => Simplified(a)
    case Id(a) => Simplified(a)
    case Label(_, a) => OperandSimplified(a)
    case Step(left, axis, _, preds) =>
      && OperandSimplified(left) && PredsSimplified(preds)
      && !(IsAnywhere(left) && axis in {Child, Descendant, Self, DescendantOrSelf} && IgnorePositions(preds))
    case OptAttribute(_, r) => Simplified(r)
    case _ => true
  }

  predicate OperandSimplified(a: Operand) {
    a.Of? ==> Simplified(a.e)
  }

  predicate ArgsSimplified(args: Args) {
    args.Arg? ==> Simplified(args.e) && ArgsSimplified(args.next)
  }

  predicate PredsSimplified(preds: Preds) {
    preds.Pred? ==> Simplified(preds.e) && !AsksPosition(preds.e) && PredsSimplified(preds.next)
  }

  lemma {:induction false} AsciiTable(table: seq<nat>, from: string, to: string, i: nat)
    requires |table| == 128 && i <= |from| && Ascii(from) && Ascii(to)
    ensures FillTable(table, from, to, i).Some?
    decreases |from| - i
  {
    if i < |from| {
      var fc, tc := from[i] as nat, if i < |to| then to[i] as nat else 0;
      AsciiTable(if table[fc] == 0 then table[fc := if tc != 0 then tc else 128] else table, from, to, i + 1);
    }
  }

  lemma CallSimplified(fn: Fn, args: Args)
    requires ArgsSimplified(args)
    ensures Simplified(OptimizeCall(fn, args))
  {
    if fn.TranslateFn? && IsConstantTranslation(args) {
      AsciiTable(ZeroTable(), args.next.e.text, args.next.next.e.text, 0);
    }
  }

  lemma CompareSimplified(op: CompareOp, l: Expr, r: Expr)
    requires Simplified(l) && Simplified(r)
    ensures Simplified(OptimizeCompare(op, l, r))
  {
  }

  /** A step behind `//` takes over what was in front of it; and that does not end in `//`, or it
      would not have been left there. */
  lemma StepSimplified(left: Operand, axis: Axis, test: NodeTest, preds: Preds)
    requires OperandSimplified(left) && PredsSimplified(preds) && (IgnorePositions(preds) ==> IsPosInvariantStep(preds))
    ensures Simplified(OptimizeStep(left, axis, test, preds))
  {
    if IsAnywhere(left) {
      assert IgnorePositions(left.e.preds);
      assert !IsAnywhere(left.e.left);
    }
  }

  lemma {:induction false} PredsTagged(preds: Preds)
    ensures IgnorePositions(OptimizePreds(preds)) ==> IsPosInvariantStep(OptimizePreds(preds))
    decreases preds
  {
    if preds.Pred? {
      PredsTagged(preds.next);
    }
  }

  /** Whatever was parsed, the optimizer leaves none of the four. */
  lemma {:induction false} OptimizeSimplifies(e: Expr)
    requires Parsed(e)
    ensures Simplified(Optimize(e))
    decreases e
  {
    match e {
      case Call(fn, args) =>
        ArgsSimplify(args);
        CallSimplified(fn, OptimizeArgs(args));
      case Compare(op, l, r) =>
        OptimizeSimplifies(l);
        OptimizeSimplifies(r);
        CompareSimplified(op, Optimize(l), Optimize(r));
      case Union(l, r) =>
        OptimizeSimplifies(l);
        OptimizeSimplifies(r);
      case Filter(l, p, _) =>
        OptimizeSimplifies(l);
        OptimizeSimplifies(p);
        RewriteSimplifies(Optimize(p));
      case Count(a) =>
        OptimizeSimplifies(a);
      case Sum(a) =>
        OptimizeSimplifies(a);
      case Id(a) =>
        OptimizeSimplifies(a);
      case Label(_, a) =>
        OperandSimplifies(a);
      case Step(left, axis, test, preds) =>
        OperandSimplifies(left);
        PredsSimplify(preds);
        PredsTagged(preds);
        StepSimplified(OptimizeOperand(left), axis, test, OptimizePreds(preds));
      case _ =>
    }
  }

  lemma {:induction false} OperandSimplifies(a: Operand)
    requires OperandParsed(a)
    ensures OperandSimplified(OptimizeOperand(a))
    decreases a
  {
    if a.Of? {
      OptimizeSimplifies(a.e);
    }
  }

  lemma {:induction false} ArgsSimplify(args: Args)
    requires ArgsParsed(args)
    ensures ArgsSimplified(OptimizeArgs(args))
    decreases args
  {
    if args.Arg? {
      OptimizeSimplifies(args.e);
      ArgsSimplify(args.next);
    }
  }

  lemma {:induction false} PredsSimplify(preds: Preds)
    requires PredsParsed(preds)
    ensures PredsSimplified(OptimizePreds(preds))
    decreases preds
  {
    if preds.Pred? {
      OptimizeSimplifies(preds.e);
      RewriteSimplifies(Optimize(preds.e));
      PredsSimplify(preds.next);
    }
  }

  lemma RewriteSimplifies(p: Expr)
    requires Simplified(p)
    ensures Simplified(RewritePosition(p)) && !AsksPosition(RewritePosition(p))
  {
  }

  // ----- What comes of them -----

  /** `//name` becomes one step down. */
  lemma AnywhereMerged(left: Operand, test: NodeTest)
    requires left.Absent? || (left.e.Root? && left.Of?)
    ensures Optimize(Step(Of(Step(left, DescendantOrSelf, AnyNode, NoPreds)), Child, test, NoPreds))
      == Step(left, Descendant, test, NoPreds)
  {
    var anywhere := Step(left, DescendantOrSelf, AnyNode, NoPreds);
    assert Optimize(anywhere) == anywhere;
  }
}
