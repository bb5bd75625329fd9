/**
  The evaluator's loops over node sets: filtering in place, walking a step over its
  inputs, bringing a set into document order.  Each leaves behind what the functions of
  the evaluator say.
 */
module StepLoops {
  import opened DocumentOrder
  import opened Documents
  import opened Axes
  import opened Xpath
  import opened Semantics
  import opened Evaluator
  import opened NodeSets
  import opened Optimizer
  import opened EvaluatorSound
  import opened OptimizerSound
  import opened Sorting
  import opened Comparator
  import opened Duplicates

  // ----- Predicates -----

  /** Whether a node is kept at a position in a set of a given size. */
  type Test = (XNode, nat, nat) -> bool

  function FilterBy(keep: Test, s: seq<XNode>, i: nat, once: bool): seq<XNode>
    requires i <= |s|
    decreases |s| - i
  {
    if i == |s| then []
    else if keep(s[i], i + 1, |s|) then
      if once then [s[i]] else [s[i]] + FilterBy(keep, s, i + 1, once)
    else FilterBy(keep, s, i + 1, once)
  }

  lemma {:induction false} FilterByEval(env: Env, p: Expr, keep: Test, s: seq<XNode>, i: nat, once: bool)
    requires i <= |s| && forall x, k, n :: keep(x, k, n) == EvalKeep(env, p, Context(x, k, n))
    ensures FilterBy(keep, s, i, once) == EvalFilter(env, s, i, p, once)
    decreases |s| - i
  {
    if i < |s| { FilterByEval(env, p, keep, s, i + 1, once); }
  }

  /** The kept ones among the first `k`. */
  function FilterTo(keep: Test, s: seq<XNode>, k: nat): seq<XNode>
    requires k <= |s|
  {
    if k == 0 then []
    else FilterTo(keep, s, k - 1) + if keep(s[k - 1], k, |s|) then [s[k - 1]] else []
  }

  lemma {:induction false} FilterToAll(keep: Test, s: seq<XNode>, k: nat)
    requires k <= |s|
    ensures FilterTo(keep, s, k) + FilterBy(keep, s, k, false) == FilterBy(keep, s, 0, false)
  {
    if k > 0 {
      FilterToAll(keep, s, k - 1);
      var l, m, r := FilterTo(keep, s, k - 1), if keep(s[k - 1], k, |s|) then [s[k - 1]] else [], FilterBy(keep, s, k, false);
      assert FilterBy(keep, s, k - 1, false) == m + r;
      assert (l + m) + r == l + (m + r);
    }
  }

  lemma {:induction false} FilterToNone(keep: Test, s: seq<XNode>, k: nat)
    requires k <= |s| && FilterTo(keep, s, k) == []
    ensures FilterBy(keep, s, 0, true) == FilterBy(keep, s, k, true)
  {
    if k > 0 { FilterToNone(keep, s, k - 1); }
  }

  lemma FoundOne(keep: Test, s: seq<XNode>, n: nat)
    requires n < |s| && FilterTo(keep, s, n) == [] && keep(s[n], n + 1, |s|)
    ensures FilterBy(keep, s, 0, true) == [s[n]]
  {
    FilterToNone(keep, s, n);
  }

  lemma LookedAtAll(keep: Test, s: seq<XNode>, once: bool)
    requires once ==> FilterTo(keep, s, |s|) == []
    ensures FilterBy(keep, s, 0, once) == FilterTo(keep, s, |s|)
  {
    if once { FilterToNone(keep, s, |s|); } else { FilterToAll(keep, s, |s|); }
  }

  /** `looked(n)` is what is kept of the first `n`. */
  ghost predicate LooksOn(looked: int -> seq<XNode>, keep: Test, s: seq<XNode>, n: nat) {
    n < |s| ==> looked(n + 1) == looked(n) + if keep(s[n], n + 1, |s|) then [s[n]] else []
  }

  ghost function Looked(keep: Test, s: seq<XNode>): int -> seq<XNode> {
    (n: int) => if 0 <= n <= |s| then FilterTo(keep, s, n) else []
  }

  lemma LookedLooksOn(keep: Test, s: seq<XNode>)
    ensures Looked(keep, s)(0) == []
    ensures forall n: nat {:trigger LooksOn(Looked(keep, s), keep, s, n)} :: LooksOn(Looked(keep, s), keep, s, n)
  {
  }

  /** With the nodes up to `it` looked at: those kept are behind the first ones, the others are
      as they were. */
  ghost predicate Compacting(nodes: seq<XNode>, head: seq<XNode>, kept: seq<XNode>, s: seq<XNode>, n: nat) {
    && n <= |s| && |kept| <= n && |nodes| == |head| + |s|
    && (forall k :: 0 <= k < |head| ==> nodes[k] == head[k])
    && (forall k :: 0 <= k < |kept| ==> nodes[|head| + k] == kept[k])
    && (forall k :: n <= k < |s| ==> nodes[|head| + k] == s[k])
  }

  lemma CompactOne(nodes: seq<XNode>, head: seq<XNode>, kept: seq<XNode>, s: seq<XNode>, n: nat)
    requires Compacting(nodes, head, kept, s, n) && n < |s|
    ensures Compacting(nodes, head, kept, s, n + 1) && nodes[|head| + n] == s[n]
    ensures Compacting(nodes[|head| + |kept| := s[n]], head, kept + [s[n]], s, n + 1)
  {
  }

  lemma CompactCut(nodes: seq<XNode>, head: seq<XNode>, kept: seq<XNode>, s: seq<XNode>, n: nat)
    requires Compacting(nodes, head, kept, s, n)
    ensures nodes[..|head| + |kept|] == head + kept
  {
  }

  /** Moves the kept nodes of `ns.nodes[first..]` down over the others and cuts the rest off, at
      the first one if that is all that is asked for. */
  method Compact(ns: NodeSetRaw, first: nat, keep: Test, once: bool, ghost looked: int -> seq<XNode>)
    returns (ghost found: Option<nat>)
    requires first <= |ns.nodes| && looked(0) == []
    requires forall n: nat {:trigger LooksOn(looked, keep, ns.nodes[first..], n)} :: LooksOn(looked, keep, ns.nodes[first..], n)
    modifies ns`nodes
    ensures var s := old(ns.nodes[first..]);
            if found.Some? then
              && once && found.value < |s| && looked(found.value) == [] && keep(s[found.value], found.value + 1, |s|)
              && ns.nodes == old(ns.nodes[..first]) + [s[found.value]]
            else (once ==> looked(|s|) == []) && ns.nodes == old(ns.nodes[..first]) + looked(|s|)
  {
    ghost var head, s := ns.nodes[..first], ns.nodes[first..];
    var i, size := 1, |ns.nodes| - first;
    var last, it := first, first;
    found := None;
    while it != |ns.nodes|
      invariant first <= last <= it <= |ns.nodes| == first + |s| && i == it - first + 1
      invariant |looked(it - first)| == last - first && (once ==> looked(it - first) == [])
      invariant Compacting(ns.nodes, head, looked(it - first), s, it - first)
    {
      ghost var n, kept := it - first, looked(it - first);
      CompactOne(ns.nodes, head, kept, s, n);
      assert LooksOn(looked, keep, s, n);
      if keep(ns.nodes[it], i, size) {
        ns.nodes := ns.nodes[last := ns.nodes[it]];
        last := last + 1;
        if once {
          CompactCut(ns.nodes, head, kept + [s[n]], s, n + 1);
          ns.nodes := ns.nodes[..last];
          found := Some(n);
          return;
        }
      }
      it, i := it + 1, i + 1;
    }
    CompactCut(ns.nodes, head, looked(|s|), s, |s|);
    ns.nodes := ns.nodes[..last];
  }

  method RemoveIf(ns: NodeSetRaw, first: nat, keep: Test, once: bool)
    requires first <= |ns.nodes|
    modifies ns`nodes
    ensures ns.nodes == old(ns.nodes[..first]) + FilterBy(keep, old(ns.nodes[first..]), 0, once)
  {
    ghost var s := ns.nodes[first..];
    LookedLooksOn(keep, s);
    ghost var found := Compact(ns, first, keep, once, Looked(keep, s));
    if found.Some? {
      FoundOne(keep, s, found.value);
    } else {
      LookedAtAll(keep, s, once);
    }
  }

  method ApplyPredicateLoop(env: Env, ns: NodeSetRaw, first: nat, p: Expr, once: bool)
    requires first <= |ns.nodes|
    modifies ns`nodes
    ensures ns.nodes == old(ns.nodes[..first]) + EvalFilter(env, old(ns.nodes[first..]), 0, p, once)
  {
    var keep := (x: XNode, k: nat, n: nat) => EvalKeep(env, p, Context(x, k, n));
    FilterByEval(env, p, keep, ns.nodes[first..], 0, once);
    RemoveIf(ns, first, keep, once);
  }

  /** A constant index: one evaluation, one node. */
  method ApplyPredicateNumberConst(env: Env, ns: NodeSetRaw, first: nat, p: Expr)
    requires first <= |ns.nodes|
    modifies ns`nodes
    ensures ns.nodes == old(ns.nodes[..first]) + EvalConstant(env, old(ns.nodes[first..]), p)
  {
    ghost var s := ns.nodes[first..];
    var last, size := first, |ns.nodes| - first;
    var er := EvalNum(env, p, Context(Nothing, 1, size));
    if er.Fin? && 1.0 <= er.r <= size as real {
      var eri := er.r.Floor;
      if er.r == eri as real {
        ns.nodes := ns.nodes[last := ns.nodes[last + (eri - 1)]];
        last := last + 1;
      }
    }
    ns.nodes := ns.nodes[..last];
  }

  method ApplyPredicateAt(env: Env, ns: NodeSetRaw, first: nat, p: Expr, tag: PredTag, once: bool)
    requires first <= |ns.nodes|
    modifies ns`nodes
    ensures ns.nodes == old(ns.nodes[..first]) + ApplyPredicate(env, old(ns.nodes[first..]), p, tag, once)
  {
    if |ns.nodes| == first {
      return;
    }
    if tag.Constant? || tag.ConstantOne? {
      ApplyPredicateNumberConst(env, ns, first, p);
    } else {
      ApplyPredicateLoop(env, ns, first, p, once);
    }
  }

  /** The chain of predicates of a step, applied to the nodes from `first` on. */
  method ApplyPredicatesAt(env: Env, ns: NodeSetRaw, first: nat, preds: Preds, mode: Mode)
    requires first <= |ns.nodes|
    modifies ns`nodes
    ensures ns.nodes == old(ns.nodes[..first]) + ApplyPredicates(env, old(ns.nodes[first..]), preds, EvalOnce(ns.order, mode))
  {
    ghost var head := ns.nodes[..first];
    ghost var s := ns.nodes[first..];
    if |ns.nodes| == first {
      NoNodesNoPredicates(env, preds, EvalOnce(ns.order, mode));
      return;
    }
    var lastOnce := EvalOnce(ns.order, mode);
    var pred := preds;
    while pred.Pred?
      invariant first <= |ns.nodes| && ns.nodes[..first] == head
      invariant ApplyPredicates(env, s, preds, lastOnce) == ApplyPredicates(env, ns.nodes[first..], pred, lastOnce)
      decreases pred
    {
      ghost var t := ns.nodes[first..];
      ApplyPredicateAt(env, ns, first, pred.e, pred.tag, pred.next.NoPreds? && lastOnce);
      assert ns.nodes[first..] == ApplyPredicate(env, t, pred.e, pred.tag, pred.next.NoPreds? && lastOnce);
      pred := pred.next;
    }
  }

  lemma {:induction false} NoNodesNoPredicates(env: Env, preds: Preds, once: bool)
    ensures ApplyPredicates(env, [], preds, once) == []
    decreases preds
  {
    if preds.Pred? { NoNodesNoPredicates(env, preds.next, once); }
  }

  // ----- Steps -----

  /** One input: walk the axis into the set, then filter what was added. */
  method StepInput(env: Env, x: XNode, axis: Axis, test: NodeTest, preds: Preds, mode: Mode, ns: NodeSetRaw)
    requires WellFormed(env.doc) && (x.Nothing? || ValidNode(env.doc, x))
    modifies ns`nodes
    ensures ns.nodes == old(ns.nodes) + StepOne(env, x, ns.order, axis, test, preds, mode)
  {
    ghost var before := ns.nodes;
    var size := |ns.nodes|;
    StepFill(env.doc, axis, test, x, FillOnce(axis, test, preds, mode), ns);
    ghost var found := TakeOnce(FillOnce(axis, test, preds, mode), StepSeq(env.doc, axis, test, x));
    assert ns.nodes[..size] == before && ns.nodes[size..] == found;
    if preds.Pred? {
      ApplyPredicatesAt(env, ns, size, preds, mode);
    }
  }

  /** All inputs in turn; a second contribution makes the set unsorted, and an unsorted set may need its repetitions removed. */
  method StepDo(env: Env, left: Operand, axis: Axis, test: NodeTest, preds: Preds, c: Context, mode: Mode, hash: XNode -> nat)
    returns (ns: NodeSetRaw)
    requires EnvOk(env) && ContextOk(env, c) && WellBuilt(Step(left, axis, test, preds)) && !axis.Namespace?
    ensures Eval(env, Step(left, axis, test, preds), c, mode) == VNodes(NodeSet(ns.order, ns.nodes))
    ensures fresh(ns)
  {
    ns := new NodeSetRaw(AxisOrder(axis));
    if left.Of? {
      var s := EvalNodes(env, left.e, c, All);
      InputsValid(env, left.e, c);
      if axis.Self? { ns.order := s.order; }
      StepInputs(env, s.nodes, axis, test, preds, mode, ns);
    } else {
      StepInputs(env, [c.node], axis, test, preds, mode, ns);
    }
    if !axis.Child? && !axis.AttributeAxis? && !axis.Self? && ns.order.Unsorted? {
      DropRepetitions(ns, hash);
    }
  }

  method StepInputs(env: Env, inputs: seq<XNode>, axis: Axis, test: NodeTest, preds: Preds, mode: Mode, ns: NodeSetRaw)
    requires WellFormed(env.doc) && (forall x :: x in inputs ==> x.Nothing? || ValidNode(env.doc, x)) && ns.nodes == []
    modifies ns
    ensures NodeSet(ns.order, ns.nodes) == StepLoop(env, inputs, 0, NodeSet(old(ns.order), []), axis, test, preds, mode)
  {
    ghost var start := NodeSet(ns.order, []);
    var i := 0;
    while i != |inputs|
      invariant 0 <= i <= |inputs|
      invariant StepLoop(env, inputs, 0, start, axis, test, preds, mode)
             == StepLoop(env, inputs, i, NodeSet(ns.order, ns.nodes), axis, test, preds, mode)
    {
      StepLoopNext(env, inputs, i, NodeSet(ns.order, ns.nodes), axis, test, preds, mode);
      if !axis.Self? && ns.nodes != [] { ns.order := Unsorted; }
      assert inputs[i] in inputs;
      StepInput(env, inputs[i], axis, test, preds, mode, ns);
      i := i + 1;
    }
  }

  lemma StepLoopNext(env: Env, inputs: seq<XNode>, i: nat, acc: NodeSet, axis: Axis, test: NodeTest, preds: Preds, mode: Mode)
    requires i < |inputs|
    ensures StepLoop(env, inputs, i, acc, axis, test, preds, mode) == (
      var order := if !axis.Self? && acc.nodes != [] then Unsorted else acc.order;
      var found := StepOne(env, inputs[i], order, axis, test, preds, mode);
      StepLoop(env, inputs, i + 1, NodeSet(order, acc.nodes + found), axis, test, preds, mode))
  {
  }

  lemma InputsValid(env: Env, e: Expr, c: Context)
    requires EnvOk(env) && ContextOk(env, c) && WellBuilt(e) && IsNodeSet(e)
    ensures forall y :: y in EvalNodes(env, e, c, All).nodes ==> ValidNode(env.doc, y)
  {
    NodesValid(env, e, c);
    EvalAgrees(env, e, c, All);
    Conversions(env, All, Eval(env, e, c, All), Sem(env, e, c));
    assert forall y :: y in EvalNodes(env, e, c, All).nodes ==> y in Elements(EvalNodes(env, e, c, All).nodes);
  }

  /** Removes repetitions: by hashing in a larger unsorted set, among neighbours otherwise. */
  method DropRepetitions(ns: NodeSetRaw, hash: XNode -> nat)
    modifies ns`nodes
    ensures NodeSet(ns.order, ns.nodes) == RemoveDuplicates(NodeSet(ns.order, old(ns.nodes)))
  {
    var nodes := ns.nodes;
    var a := new XNode[|nodes|](i requires 0 <= i < |nodes| => nodes[i]);
    assert a[..] == nodes;
    var n: nat;
    if ns.order.Unsorted? && |nodes| > 2 {
      n := KeepFirstInPlace(a, hash);
    } else {
      n := UniqueInPlace(a);
    }
    ns.nodes := a[..n];
  }

  // ----- Document order -----

  lemma ComparesOrders(buffer: BufferOrder)
    ensures Orders(Compares(buffer))
  {
    var less := Compares(buffer);
    forall x, y | x != y ensures less(x, y) != less(y, x) {
      BeforeTotal(x, y);
    }
    forall x, y, z | x != z && less(x, y) && less(y, z) ensures less(x, z) {
      if x != y && y != z { BeforeTransitive(x, y, z); }
    }
  }

  /** The order that distinct nodes turn out to have: it is true of them, and they have neither
      if none is found. */
  method GetOrder(a: array<XNode>, buffer: BufferOrder) returns (order: Order)
    requires Distinct(a[..])
    ensures order == OrderOf(a[..]) && OrderTrue(NodeSet(order, a[..]))
    ensures order.Unsorted? ==> !Increasing(a[..]) && !Decreasing(a[..])
  {
    OrderOfTrue(a[..]);
    if a.Length < 2 { return Sorted; }
    assert a[..][0] != a[..][1];
    BeforeTotal(a[0], a[1]);
    var less := Compares(buffer);
    var first := less(a[0], a[1]);
    var it := 1;
    while it + 1 < a.Length
      invariant 1 <= it < a.Length
      invariant forall i :: 1 <= i < it ==> Before(a[..][i], a[..][i + 1]) == first
    {
      assert a[..][it] != a[..][it + 1];
      BeforeTotal(a[it], a[it + 1]);
      if less(a[it], a[it + 1]) != first {
        assert Before(a[..][it], a[..][it + 1]) != first;
        return Unsorted;
      }
      it := it + 1;
    }
    order := if first then Sorted else SortedReverse;
  }

  method ReverseInPlace(a: array<XNode>)
    modifies a
    ensures a[..] == Reverse(old(a[..]))
  {
    var begin, end := 0, a.Length;
    while end - begin > 1
      invariant 0 <= begin <= a.Length && end == a.Length - begin && begin <= end + 1
      invariant forall k :: 0 <= k < begin || end <= k < a.Length ==> a[k] == old(a[a.Length - 1 - k])
      invariant forall k :: begin <= k < end ==> a[k] == old(a[k])
    {
      end := end - 1;
      a[begin], a[end] := a[end], a[begin];
      begin := begin + 1;
    }
  }

  /** A strictly sorted rearrangement of distinct nodes is their listing in document order. */
  lemma SortedIsSortedOf(s: seq<XNode>, t: seq<XNode>, buffer: BufferOrder)
    requires Distinct(s) && Rearranged(s, t, 0, |s|) && SortedRange(t, 0, |t|, Compares(buffer))
    ensures t == SortedOf(Elements(s))
  {
    assert s[0..|s|] == s && t[0..|t|] == t;
    assert multiset(s) == multiset(t);
    assert forall x :: x in s <==> x in multiset(s);
    assert forall x :: x in t <==> x in multiset(t);
    assert Elements(s) == Elements(t);
    DistinctSize(s);
    ShortestIsDistinct(t);
    forall i, j | 0 <= i < j < |t| ensures Before(t[i], t[j]) {
      BeforeTotal(t[i], t[j]);
      assert !Compares(buffer)(t[j], t[i]);
    }
    SortedOfIs(t);
  }

  /** A sequence no longer than its set of members repeats nothing. */
  lemma {:induction false} ShortestIsDistinct(t: seq<XNode>)
    requires |Elements(t)| == |t|
    ensures Distinct(t)
  {
    if t != [] {
      var r, x := t[..|t| - 1], t[|t| - 1];
      assert t == r + [x] && Elements(t) == Elements(r) + {x};
      ElementsAtMost(r);
      assert x in r ==> Elements(t) == Elements(r);
      ShortestIsDistinct(r);
    }
  }

  lemma {:induction false} ElementsAtMost(s: seq<XNode>)
    ensures |Elements(s)| <= |s|
  {
    if s != [] {
      assert Elements(s) == Elements(s[..|s| - 1]) + {s[|s| - 1]};
      ElementsAtMost(s[..|s| - 1]);
    }
  }

  /** Brings a set of distinct nodes into document order, sorting only when it has to, with the
      comparator as it is: whatever addresses there are, and an attribute without one being
      before itself. */
  method SortNodeSet(ns: NodeSetRaw, buffer: BufferOrder)
    requires SetOk(NodeSet(ns.order, ns.nodes))
    modifies ns
    ensures NodeSet(ns.order, ns.nodes) == SortDo(old(NodeSet(ns.order, ns.nodes)))
  {
    SortDoSorts(NodeSet(ns.order, ns.nodes));
    var nodes := ns.nodes;
    var a := new XNode[|nodes|](i requires 0 <= i < |nodes| => nodes[i]);
    assert a[..] == nodes;
    var order := ns.order;
    if order.Unsorted? {
      order := GetOrder(a, buffer);
      if order.Unsorted? {
        ComparesOrders(buffer);
        var _ := Sort(a, 0, a.Length, Compares(buffer));
        SortedIsSortedOf(nodes, a[..], buffer);
        SortNodesSorts(nodes);
        order := Sorted;
      }
    }
    if !order.Sorted? {
      ReverseInPlace(a);
    }
    ns.order, ns.nodes := Sorted, a[..];
  }
}
