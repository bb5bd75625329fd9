/**
  The query optimizer: predicates are classified, `//` steps merged, translate() with
  constant arguments tabulated and `@name = 'value'` turned into a lookup.
 */
module Optimizer {
  import opened DocumentOrder
  import opened Documents
  import opened Axes
  import opened Xpath

  /** An expression whose value does not depend on the context position and size. */
  predicate IsPosInvariant(e: Expr) {
    match e
    case Position => false
    case Last => false
    case StringConst(_) => true
    case NumberConst(_) => true
    case Var(_, _) => true
    case Step(_, _, _, _) => true
    case Root => true
    case Filter(_, _, _) => true
    case Call(_, args) => ArgsPosInvariant(args)
    case Compare(_, l, r) => IsPosInvariant(l) && IsPosInvariant(r)
    case Union(l, r) => IsPosInvariant(l) && IsPosInvariant(r)
    case Count(a) => IsPosInvariant(a)
    case Sum(a) => IsPosInvariant(a)
    case Id(a) => IsPosInvariant(a)
    case Label(_, a) => a.Of? ==> IsPosInvariant(a.e)
    case OptAttribute(_, r) => IsPosInvariant(r)
  }

  predicate ArgsPosInvariant(args: Args) {
    args.Arg? ==> IsPosInvariant(args.e) && ArgsPosInvariant(args.next)
  }

  /** All predicates of a step ignore positions. */
  predicate IsPosInvariantStep(preds: Preds) {
    preds.Pred? ==> preds.tag.PosInvariant? && IsPosInvariantStep(preds.next)
  }

  /** `[position() = e]` with a number `e` says the same as `[e]`. */
  function RewritePosition(p: Expr): Expr {
    if p.Compare? && p.cop.Eq? && p.l.Position? && RetType(p.r).TNumber? then p.r else p
  }

  function Classify(p: Expr): PredTag {
    if p.NumberConst? && p.n == Fin(1.0) then ConstantOne
    else if RetType(p).TNumber? && (p.NumberConst? || p.Var? || p.Last?) then Constant
    else if !RetType(p).TNumber? && IsPosInvariant(p) then PosInvariant
    else Default
  }

  // ----- translate() tables -----

  function ZeroTable(): (t: seq<nat>)
    ensures |t| == 128
  {
    seq(128, _ => 0)
  }

  /** The entries for `from` from index `i` on; the first entry for a character wins. */
  function FillTable(table: seq<nat>, from: string, to: string, i: nat): (t: Option<seq<nat>>)
    requires |table| == 128 && i <= |from|
    ensures t.Some? ==> |t.value| == 128
    decreases |from| - i
  {
    if i == |from| then Some(table)
    else
      var fc, tc := from[i] as nat, if i < |to| then to[i] as nat else 0;
      if fc >= 128 || tc >= 128 then None
      else FillTable(if table[fc] == 0 then table[fc := if tc != 0 then tc else 128] else table, from, to, i + 1)
  }

  /** 128 codes, one per ASCII character, or nothing when a character is not ASCII. */
  function TranslateTable(from: string, to: string): Option<seq<nat>> {
    var t := FillTable(ZeroTable(), from, to, 0);
    if t.None? then None
    else Some(seq(128, i requires 0 <= i < 128 => if t.value[i] == 0 then i else t.value[i]))
  }

  /** translate() with constant second and third arguments. */
  function OptimizeCall(fn: Fn, args: Args): Expr {
    if fn.TranslateFn? && args.Arg? && args.next.Arg? && args.next.e.StringConst?
       && args.next.next.Arg? && args.next.next.e.StringConst?
       && TranslateTable(args.next.e.text, args.next.next.e.text).Some?
    then Call(TranslateTableFn(TranslateTable(args.next.e.text, args.next.next.e.text).value), Arg(args.e, NoArgs))
    else Call(fn, args)
  }

  /** `@name = 'value'` and `@name = $value`. */
  function OptimizeCompare(op: CompareOp, l: Expr, r: Expr): Expr {
    if op.Eq? && l.Step? && l.axis.AttributeAxis? && l.test.NameTest? && l.left.Absent? && l.preds.NoPreds?
       && (r.StringConst? || (r.Var? && RetType(r).TString?))
    then OptAttribute(l.test.name, r)
    else Compare(op, l, r)
  }

  /** The axis that does the work of descendant-or-self::node() followed by a step, if there is one. */
  function MergedAxis(axis: Axis): Option<Axis> {
    if axis.Child? || axis.Descendant? then Some(Descendant)
    else if axis.Self? || axis.DescendantOrSelf? then Some(DescendantOrSelf)
    else None
  }

  function OptimizeStep(left: Operand, axis: Axis, test: NodeTest, preds: Preds): Expr {
    if MergedAxis(axis).Some? && left.Of? && left.e.Step? && left.e.axis.DescendantOrSelf?
       && left.e.test.AnyNode? && left.e.preds.NoPreds? && IsPosInvariantStep(preds)
    then Step(left.e.left, MergedAxis(axis).value, test, preds)
    else Step(left, axis, test, preds)
  }

  /** Children first, then the node itself. */
  function Optimize(e: Expr): Expr {
    match e
    case Call(fn, args) => OptimizeCall(fn, OptimizeArgs(args))
    case Compare(op, l, r) => OptimizeCompare(op, Optimize(l), Optimize(r))
    case Union(l, r) => Union(Optimize(l), Optimize(r))
    case Filter(l, p, _) =>
      var q := RewritePosition(Optimize(p));
      Filter(Optimize(l), q, Classify(q))
    case Count(a) => Count(Optimize(a))
    case Sum(a) => Sum(Optimize(a))
    case Id(a) => Id(Optimize(a))
    case Label(fn, a) => Label(fn, OptimizeOperand(a))
    case Step(left, axis, test, preds) => OptimizeStep(OptimizeOperand(left), axis, test, OptimizePreds(preds))
    case _ => e
  }

  function OptimizeOperand(a: Operand): Operand {
    if a.Absent? then a else Of(Optimize(a.e))
  }

  function OptimizeArgs(args: Args): Args {
    match args
    case NoArgs => NoArgs
    case Arg(a, next) => Arg(Optimize(a), OptimizeArgs(next))
  }

  function OptimizePreds(preds: Preds): Preds {
    match preds
    case NoPreds => NoPreds
    case Pred(p, _, next) =>
      var q := RewritePosition(Optimize(p));
      Pred(q, Classify(q), OptimizePreds(next))
  }

  // ----- What the parser and the optimizer guarantee about an expression -----

  predicate IsNodeSet(e: Expr) {
    RetType(e).TNodeSet?
  }

  /** A tag promises what its predicate looks like. */
  predicate TagTrue(p: Expr, tag: PredTag) {
    match tag
    case Default => true
    case PosInvariant => !RetType(p).TNumber? && IsPosInvariant(p)
    case Constant => RetType(p).TNumber? && (p.NumberConst? || p.Var? || p.Last?)
    case ConstantOne => p == NumberConst(Fin(1.0))
  }

  /** Node sets where node sets are needed, and true tags, throughout. */
  predicate WellBuilt(e: Expr) {
    match e
    case Call(_, args) => ArgsWellBuilt(args)
    case Compare(_, l, r) => WellBuilt(l) && WellBuilt(r)
    case Union(l, r) => WellBuilt(l) && WellBuilt(r) && IsNodeSet(l) && IsNodeSet(r)
    case Filter(l, p, tag) => WellBuilt(l) && IsNodeSet(l) && WellBuilt(p) && TagTrue(p, tag)
    case Count(a) => WellBuilt(a) && IsNodeSet(a)
    case Sum(a) => WellBuilt(a) && IsNodeSet(a)
    case Id(a) => WellBuilt(a)
    case Label(_, a) => OperandWellBuilt(a) && (a.Of? ==> IsNodeSet(a.e))
    case Step(left, _, _, preds) => OperandWellBuilt(left) && (left.Of? ==> IsNodeSet(left.e)) && PredsWellBuilt(preds)
    case OptAttribute(_, r) => WellBuilt(r)
    case _ => true
  }

  predicate OperandWellBuilt(a: Operand) {
    a.Of? ==> WellBuilt(a.e)
  }

  predicate ArgsWellBuilt(args: Args) {
    args.Arg? ==> WellBuilt(args.e) && ArgsWellBuilt(args.next)
  }

  predicate PredsWellBuilt(preds: Preds) {
    preds.Pred? ==> WellBuilt(preds.e) && TagTrue(preds.e, preds.tag) && PredsWellBuilt(preds.next)
  }

  /** A string in memory ends at its first NUL. */
  predicate NulFree(s: string) {
    forall i :: 0 <= i < |s| ==> s[i] != 0 as char
  }

  /** What the parser builds: string literals without NUL, node tests with a name to test for. */
  predicate Parsed(e: Expr) {
    match e
    case Call(fn, args) => !fn.TranslateTableFn? && ArgsParsed(args)
    case Compare(_, l, r) => Parsed(l) && Parsed(r)
    case Union(l, r) => Parsed(l) && Parsed(r)
    case Filter(l, p, tag) => tag.Default? && Parsed(l) && Parsed(p)
    case StringConst(s) => NulFree(s)
    case Count(a) => Parsed(a)
    case Sum(a) => Parsed(a)
    case Id(a) => Parsed(a)
    case Label(_, a) => OperandParsed(a)
    case Step(left, _, test, preds) => OperandParsed(left) && (test.NameTest? ==> test.name != "") && PredsParsed(preds)
    case OptAttribute(_, _) => false
    case _ => true
  }

  predicate OperandParsed(a: Operand) {
    a.Of? ==> Parsed(a.e)
  }

  predicate ArgsParsed(args: Args) {
    args.Arg? ==> Parsed(args.e) && ArgsParsed(args.next)
  }

  predicate PredsParsed(preds: Preds) {
    preds.Pred? ==> preds.tag.Default? && Parsed(preds.e) && PredsParsed(preds.next)
  }
}
