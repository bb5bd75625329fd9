/**
  What an XPath expression means: a direct reading of XPath 1.0 with node sets as sets.
  No evaluation modes, no order bookkeeping, no optimizer tags.
 */
module Semantics {
  import opened DocumentOrder
  import opened Documents
  import opened Axes
  import opened Xpath

  /** The nodes selected from any of the inputs. */
  function UnionOf(inputs: set<XNode>, select: XNode -> seq<XNode>): set<XNode> {
    set x, y | x in inputs && y in select(x) :: y
  }

  function Sem(env: Env, e: Expr, c: Context): Meaning
    decreases e, 0, 0
  {
    match e
    case Call(fn, args) => Apply(env, fn, c.node, SemArgs(env, fn, 0, args, c))
    case Compare(op, l, r) => MBool(CompareMeanings(env, op, Sem(env, l, c), Sem(env, r, c)))
    case Union(l, r) => MNodes(Nodes(Sem(env, l, c)) + Nodes(Sem(env, r, c)))
    case Filter(l, p, _) => MNodes(Elements(SemFilter(env, SortedOf(Nodes(Sem(env, l, c))), 0, p)))
    case StringConst(s) => MStr(s)
    case NumberConst(n) => MNum(n)
    case Var(t, name) =>
      (match t
       case TBoolean => MBool(env.boolVar(name))
       case TNumber => MNum(env.numVar(name))
       case TString => MStr(env.textVar(name))
       case TNodeSet => MNodes(Elements(env.nodesVar(name).nodes)))
    case Last => MNum(FromNat(c.size))
    case Position => MNum(FromNat(c.position))
    case Count(a) => MNum(FromNat(|Nodes(Sem(env, a, c))|))
    case Sum(a) => MNum(SumOf(env, SortedOf(Nodes(Sem(env, a, c)))))
    case Id(_) => MNodes({})
    case Label(fn, a) =>
      var nodes := if a.Absent? then {c.node} else Nodes(Sem(env, a.e, c));
      MStr(env.nameOf(fn, if nodes == {} then Nothing else MinOf(nodes)))
    case Step(left, axis, test, preds) =>
      var inputs := if left.Absent? then {c.node} else Nodes(Sem(env, left.e, c));
      MNodes(UnionOf(inputs, StepFrom(env, axis, test, preds)))
    case Root => MNodes(RootOf(c.node))
    case OptAttribute(name, r) => MBool(AttributeEquals(env.doc, c.node, name, ToText(env, Sem(env, r, c))))
  }

  /** The arguments from the `i`-th on, each in the type its function wants. */
  function SemArgs(env: Env, fn: Fn, i: nat, args: Args, c: Context): seq<Meaning>
    decreases args, 0, 0
  {
    match args
    case NoArgs => []
    case Arg(a, next) => [Convert(env, ArgType(fn, i), Sem(env, a, c))] + SemArgs(env, fn, i + 1, next, c)
  }

  /** Whether a predicate keeps a node at its position: a number is compared with the position. */
  predicate SemKeep(env: Env, p: Expr, c: Context)
    decreases p, 1, 0
  {
    var m := Sem(env, p, c);
    if m.MNum? then NumEq(m.n, FromNat(c.position)) else ToBool(m)
  }

  /** The members of `s` from index `i` on that a predicate keeps. */
  function SemFilter(env: Env, s: seq<XNode>, i: nat, p: Expr): seq<XNode>
    requires i <= |s|
    decreases p, 2, |s| - i
  {
    if i == |s| then []
    else if SemKeep(env, p, Context(s[i], i + 1, |s|)) then [s[i]] + SemFilter(env, s, i + 1, p)
    else SemFilter(env, s, i + 1, p)
  }

  /** Predicates one after the other, positions counted anew for each. */
  function SemPreds(env: Env, s: seq<XNode>, preds: Preds): seq<XNode>
    decreases preds, 0, 0
  {
    match preds
    case NoPreds => s
    case Pred(p, _, next) => SemPreds(env, SemFilter(env, s, 0, p), next)
  }

  /** What a step selects from one node, in axis order. */
  function SemStep(env: Env, x: XNode, axis: Axis, test: NodeTest, preds: Preds): seq<XNode>
    decreases preds, 1, 0
  {
    SemPreds(env, TakeOnce(OneAttribute(axis, test), StepSeq(env.doc, axis, test, x)), preds)
  }

  function StepFrom(env: Env, axis: Axis, test: NodeTest, preds: Preds): XNode -> seq<XNode>
    decreases preds, 2, 0
  {
    x => SemStep(env, x, axis, test, preds)
  }
}
