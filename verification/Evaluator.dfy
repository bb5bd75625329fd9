/**
  The evaluator: node sets are sequences that carry a claim about their order, and every
  evaluation of a node set has a mode that says how much of the set the caller needs.
 */
module Evaluator {
  import opened DocumentOrder
  import opened Documents
  import opened Axes
  import opened Xpath

  /** All of the set, any member of it, or its first member in document order. */
  datatype Mode = All | Any | First

  /** Whether one match is enough, given the order of the set being filtered. */
  predicate EvalOnce(order: Order, mode: Mode) {
    if order.Sorted? then !mode.All? else mode.Any?
  }

  // ----- Node sets -----

  /** The last of the least elements seen from the left. */
  function MinElement(s: seq<XNode>): (m: XNode)
    requires s != []
    ensures m in s
  {
    if |s| == 1 then s[0]
    else
      var m := MinElement(s[..|s| - 1]);
      if Before(s[|s| - 1], m) then s[|s| - 1] else m
  }

  function FirstNode(ns: NodeSet): XNode {
    if ns.nodes == [] then Nothing
    else match ns.order
      case Sorted => ns.nodes[0]
      case SortedReverse => ns.nodes[|ns.nodes| - 1]
      case Unsorted => MinElement(ns.nodes)
  }

  /** Whether all neighbours compare as the first two do. */
  function OrderOf(s: seq<XNode>): Order {
    if |s| < 2 then Sorted
    else
      var first := Before(s[0], s[1]);
      if exists i | 1 <= i < |s| - 1 :: Before(s[i], s[i + 1]) != first then Unsorted
      else if first then Sorted else SortedReverse
  }

  /** Sorting by insertion, the meaning of the evaluator's sort. */
  function InsertSorted(s: seq<XNode>, x: XNode): seq<XNode> {
    if s == [] || !Before(x, s[|s| - 1]) then s + [x]
    else InsertSorted(s[..|s| - 1], x) + [s[|s| - 1]]
  }

  function SortNodes(s: seq<XNode>): seq<XNode> {
    if s == [] then [] else InsertSorted(SortNodes(s[..|s| - 1]), s[|s| - 1])
  }

  /** Brings a node set into document order. */
  function SortDo(ns: NodeSet): NodeSet {
    var order := if ns.order.Unsorted? then OrderOf(ns.nodes) else ns.order;
    match order
    case Unsorted => NodeSet(Sorted, SortNodes(ns.nodes))
    case Sorted => NodeSet(Sorted, ns.nodes)
    case SortedReverse => NodeSet(Sorted, Reverse(ns.nodes))
  }

  /** Keeps the first occurrence of each node. */
  function KeepFirst(s: seq<XNode>): seq<XNode> {
    if s == [] then []
    else
      var r := KeepFirst(s[..|s| - 1]);
      if s[|s| - 1] in r then r else r + [s[|s| - 1]]
  }

  /** Drops a node equal to the one kept before it. */
  function KeepChanges(s: seq<XNode>): seq<XNode> {
    if s == [] then []
    else
      var r := KeepChanges(s[..|s| - 1]);
      if r != [] && r[|r| - 1] == s[|s| - 1] then r else r + [s[|s| - 1]]
  }

  /** Hashing for large unsorted sets (which also drops null nodes), neighbours otherwise. */
  function RemoveDuplicates(ns: NodeSet): NodeSet {
    if ns.order.Unsorted? && |ns.nodes| > 2
    then ns.(nodes := KeepFirst(DropNulls(ns.nodes)))
    else ns.(nodes := KeepChanges(ns.nodes))
  }

  function DropNulls(s: seq<XNode>): seq<XNode> {
    if s == [] then []
    else DropNulls(s[..|s| - 1]) + if s[|s| - 1].Nothing? then [] else [s[|s| - 1]]
  }

  // ----- Conversions of values -----

  /** The value with its order forgotten. */
  function Forget(v: Value): Meaning {
    match v
    case VBool(b) => MBool(b)
    case VNum(n) => MNum(n)
    case VStr(s) => MStr(s)
    case VNodes(ns) => MNodes(Elements(ns.nodes))
  }

  /** A boolean, number or string as a value. */
  function Lift(m: Meaning): Value {
    match m
    case MBool(b) => VBool(b)
    case MNum(n) => VNum(n)
    case MStr(s) => VStr(s)
    case MNodes(nodes) => VNodes(NodeSet(Sorted, SortedOf(nodes)))
  }

  function AsText(env: Env, v: Value): string {
    if v.VNodes? then (if v.ns.nodes == [] then "" else StringValue(env.doc, FirstNode(v.ns)))
    else ToText(env, Forget(v))
  }

  function AsNum(env: Env, v: Value): Num {
    if v.VNodes? then env.toNumber(AsText(env, v)) else ToNum(env, Forget(v))
  }

  function AsNodes(v: Value): NodeSet {
    if v.VNodes? then v.ns else NodeSet(Unsorted, [])
  }

  // ----- Evaluation -----

  function EvalBool(env: Env, e: Expr, c: Context): bool
    decreases e, 1, 0
  {
    ToBool(Forget(Eval(env, e, c, Any)))
  }

  function EvalNum(env: Env, e: Expr, c: Context): Num
    decreases e, 1, 0
  {
    AsNum(env, Eval(env, e, c, First))
  }

  function EvalText(env: Env, e: Expr, c: Context): string
    decreases e, 1, 0
  {
    AsText(env, Eval(env, e, c, First))
  }

  function EvalNodes(env: Env, e: Expr, c: Context, mode: Mode): NodeSet
    decreases e, 1, 0
  {
    AsNodes(Eval(env, e, c, mode))
  }

  /** Comparing with a boolean needs to know only whether a node set is empty. */
  function CompareMode(op: CompareOp, other: ValueType): Mode {
    if (op.Eq? || op.Ne?) && other.TBoolean? then Any else All
  }

  function Eval(env: Env, e: Expr, c: Context, mode: Mode): Value
    decreases e, 0, 0
  {
    match e
    case Call(fn, args) => Lift(Apply(env, fn, c.node, EvalArgs(env, fn, 0, args, c)))
    case Compare(op, l, r) =>
      VBool(CompareMeanings(env, op, Forget(Eval(env, l, c, CompareMode(op, RetType(r)))),
                                     Forget(Eval(env, r, c, CompareMode(op, RetType(l))))))
    case Union(l, r) =>
      VNodes(RemoveDuplicates(NodeSet(Unsorted, EvalNodes(env, l, c, mode).nodes + EvalNodes(env, r, c, mode).nodes)))
    case Filter(l, p, tag) =>
      var ns := EvalNodes(env, l, c, if tag.ConstantOne? then First else All);
      var sorted := if tag.PosInvariant? then ns else SortDo(ns);
      VNodes(sorted.(nodes := ApplyPredicate(env, sorted.nodes, p, tag, EvalOnce(sorted.order, mode))))
    case StringConst(s) => VStr(s)
    case NumberConst(n) => VNum(n)
    case Var(t, name) =>
      (match t
       case TBoolean => VBool(env.boolVar(name))
       case TNumber => VNum(env.numVar(name))
       case TString => VStr(env.textVar(name))
       case TNodeSet => VNodes(env.nodesVar(name)))
    case Last => VNum(FromNat(c.size))
    case Position => VNum(FromNat(c.position))
    case Count(a) => VNum(FromNat(|EvalNodes(env, a, c, All).nodes|))
    case Sum(a) => VNum(SumOf(env, EvalNodes(env, a, c, All).nodes))
    case Id(_) => VNodes(NodeSet(Unsorted, []))
    case Label(fn, a) => VStr(env.nameOf(fn, if a.Absent? then c.node else FirstNode(EvalNodes(env, a.e, c, First))))
    case Step(left, axis, test, preds) =>
      if axis.Namespace? then VNodes(NodeSet(Unsorted, []))
      else
        var inputs := if left.Absent? then NodeSet(Sorted, [c.node]) else EvalNodes(env, left.e, c, All);
        var start := if axis.Self? && left.Of? then inputs.order else AxisOrder(axis);
        var all := StepLoop(env, inputs.nodes, 0, NodeSet(start, []), axis, test, preds, mode);
        VNodes(if !axis.Child? && !axis.AttributeAxis? && !axis.Self? && all.order.Unsorted?
               then RemoveDuplicates(all) else all)
    case Root => VNodes(NodeSet(Sorted, SortedOf(RootOf(c.node))))
    case OptAttribute(name, r) => VBool(AttributeEquals(env.doc, c.node, name, EvalText(env, r, c)))
  }

  function EvalArgs(env: Env, fn: Fn, i: nat, args: Args, c: Context): seq<Meaning>
    decreases args, 0, 0
  {
    match args
    case NoArgs => []
    case Arg(a, next) => [EvalArg(env, ArgType(fn, i), a, c)] + EvalArgs(env, fn, i + 1, next, c)
  }

  /** An argument in the type its function wants. */
  function EvalArg(env: Env, t: ValueType, a: Expr, c: Context): Meaning
    decreases a, 2, 0
  {
    match t
    case TBoolean => MBool(EvalBool(env, a, c))
    case TNumber => MNum(EvalNum(env, a, c))
    case TString => MStr(EvalText(env, a, c))
    case TNodeSet => Forget(Eval(env, a, c, All))
  }

  // ----- Predicates -----

  predicate EvalKeep(env: Env, p: Expr, c: Context)
    decreases p, 2, 0
  {
    if RetType(p).TNumber? then NumEq(EvalNum(env, p, c), FromNat(c.position)) else EvalBool(env, p, c)
  }

  /** The members of `s` from index `i` on that the predicate keeps; `once`, the first of them only. */
  function EvalFilter(env: Env, s: seq<XNode>, i: nat, p: Expr, once: bool): seq<XNode>
    requires i <= |s|
    decreases p, 3, |s| - i
  {
    if i == |s| then []
    else if EvalKeep(env, p, Context(s[i], i + 1, |s|)) then
      if once then [s[i]] else [s[i]] + EvalFilter(env, s, i + 1, p, once)
    else EvalFilter(env, s, i + 1, p, once)
  }

  /** A number that does not depend on the node is evaluated once and used as an index. */
  function EvalConstant(env: Env, s: seq<XNode>, p: Expr): seq<XNode>
    decreases p, 3, 0
  {
    var er := EvalNum(env, p, Context(Nothing, 1, |s|));
    if er.Fin? && 1.0 <= er.r <= |s| as real && er.r == er.r.Floor as real then [s[er.r.Floor - 1]] else []
  }

  function ApplyPredicate(env: Env, s: seq<XNode>, p: Expr, tag: PredTag, once: bool): seq<XNode>
    decreases p, 4, 0
  {
    if s == [] then []
    else if tag.Constant? || tag.ConstantOne? then EvalConstant(env, s, p)
    else EvalFilter(env, s, 0, p, once)
  }

  /** All predicates of a step; only the last may stop early. */
  function ApplyPredicates(env: Env, s: seq<XNode>, preds: Preds, lastOnce: bool): seq<XNode>
    decreases preds, 0, 0
  {
    match preds
    case NoPreds => s
    case Pred(p, tag, next) =>
      ApplyPredicates(env, ApplyPredicate(env, s, p, tag, next.NoPreds? && lastOnce), next, lastOnce)
  }

  // ----- Steps -----

  function AxisOrder(axis: Axis): Order {
    if ReverseAxis(axis) then SortedReverse else Sorted
  }

  /** Whether the walk along the axis may stop at the first node that passes the node test. */
  predicate FillOnce(axis: Axis, test: NodeTest, preds: Preds, mode: Mode) {
    || OneAttribute(axis, test)
    || (preds.NoPreds? && EvalOnce(AxisOrder(axis), mode))
    || (preds.Pred? && preds.next.NoPreds? && preds.tag.ConstantOne?)
  }

  /** One input of a step: walk the axis, apply the predicates to what was found. */
  function StepOne(env: Env, x: XNode, order: Order, axis: Axis, test: NodeTest, preds: Preds, mode: Mode): seq<XNode>
    decreases preds, 1, 0
  {
    var found := TakeOnce(FillOnce(axis, test, preds, mode), StepSeq(env.doc, axis, test, x));
    ApplyPredicates(env, found, preds, EvalOnce(order, mode))
  }

  /** The inputs from index `i` on.  A second contribution forfeits the order. */
  function StepLoop(env: Env, inputs: seq<XNode>, i: nat, acc: NodeSet,
                    axis: Axis, test: NodeTest, preds: Preds, mode: Mode): NodeSet
    requires i <= |inputs|
    decreases preds, 2, |inputs| - i
  {
    if i == |inputs| then acc
    else
      var order := if !axis.Self? && acc.nodes != [] then Unsorted else acc.order;
      var found := StepOne(env, inputs[i], order, axis, test, preds, mode);
      StepLoop(env, inputs, i + 1, NodeSet(order, acc.nodes + found), axis, test, preds, mode)
  }
}
