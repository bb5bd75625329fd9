/**
  Facts about the evaluator's node sets: what sorting, duplicate removal and first() yield
  on a set whose order claim is true.
 */
module NodeSets {
  import opened DocumentOrder
  import opened Documents
  import opened Axes
  import opened Xpath
  import opened Evaluator

  /** The order claim of a node set is true. */
  ghost predicate OrderTrue(ns: NodeSet) {
    match ns.order
    case Sorted => Increasing(ns.nodes)
    case SortedReverse => Decreasing(ns.nodes)
    case Unsorted => true
  }

  ghost predicate SetOk(ns: NodeSet) {
    OrderTrue(ns) && Distinct(ns.nodes) && Nothing !in ns.nodes
  }

  /** Some member is at or before `y`. */
  ghost predicate Covers(got: set<XNode>, y: XNode) {
    exists z :: z in got && AtOrBefore(z, y)
  }

  /** How much of `meant` an evaluation in some mode must produce. */
  ghost predicate Approximates(mode: Mode, got: set<XNode>, meant: set<XNode>) {
    got <= meant &&
    match mode
    case All => got == meant
    case First => forall y {:trigger Covers(got, y)} :: y in meant ==> Covers(got, y)
    case Any => meant != {} ==> got != {}
  }

  ghost predicate Fits(mode: Mode, ns: NodeSet, meant: set<XNode>) {
    SetOk(ns) && Approximates(mode, Elements(ns.nodes), meant)
  }

  lemma Weaken(mode: Mode, got: set<XNode>, meant: set<XNode>)
    requires Approximates(mode, got, meant)
    ensures mode.All? ==> Approximates(First, got, meant)
    ensures Approximates(Any, got, meant)
  {
    if mode.All? {
      forall y | y in meant ensures Covers(got, y) { assert y in got && AtOrBefore(y, y); }
    }
    if mode.First? && meant != {} {
      var y :| y in meant;
      assert Covers(got, y);
    }
  }

  lemma ApproximateUnion(mode: Mode, a: set<XNode>, s: set<XNode>, b: set<XNode>, t: set<XNode>)
    requires Approximates(mode, a, s) && Approximates(mode, b, t)
    ensures Approximates(mode, a + b, s + t)
  {
    if mode.First? {
      forall y | y in s + t ensures Covers(a + b, y) {
        if y in s {
          assert Covers(a, y);
          var z :| z in a && AtOrBefore(z, y);
          assert z in a + b;
        } else {
          assert Covers(b, y);
          var z :| z in b && AtOrBefore(z, y);
          assert z in a + b;
        }
      }
    }
  }

  // ----- first() -----

  lemma {:induction false} MinElementIsMin(s: seq<XNode>)
    requires s != []
    ensures IsMin(MinElement(s), Elements(s))
  {
    if |s| > 1 {
      var t, x := s[..|s| - 1], s[|s| - 1];
      MinElementIsMin(t);
      var m := MinElement(t);
      BeforeTotal(x, m);
      forall y | y in s ensures AtOrBefore(MinElement(s), y) {
        if y != x {
          var i :| 0 <= i < |s| && s[i] == y;
          assert t[i] == y && y in Elements(t) && AtOrBefore(m, y);
          if Before(x, m) && m != y { BeforeTransitive(x, m, y); }
        }
      }
    }
  }

  lemma FirstNodeIsMin(ns: NodeSet)
    requires SetOk(ns) && ns.nodes != []
    ensures IsMin(FirstNode(ns), Elements(ns.nodes))
  {
    if ns.order.Unsorted? { MinElementIsMin(ns.nodes); }
  }

  lemma FirstNodeMeans(mode: Mode, ns: NodeSet, meant: set<XNode>)
    requires Fits(mode, ns, meant)
    ensures ns.nodes == [] <==> meant == {}
    ensures !mode.Any? && meant != {} ==> FirstNode(ns) == MinOf(meant)
  {
    Weaken(mode, Elements(ns.nodes), meant);
    assert ns.nodes != [] ==> ns.nodes[0] in Elements(ns.nodes);
    if !mode.Any? && meant != {} {
      FirstNodeIsMin(ns);
      var m, f := MinOf(meant), FirstNode(ns);
      assert Covers(Elements(ns.nodes), m);
      var z :| z in Elements(ns.nodes) && AtOrBefore(z, m);
      BeforeTotal(z, m);
      MinUnique(f, m, Elements(ns.nodes));
    }
  }

  // ----- Sorting -----

  lemma {:induction false} InsertSortedKeeps(s: seq<XNode>, x: XNode)
    requires Increasing(s) && x !in s
    ensures Increasing(InsertSorted(s, x))
    ensures forall y :: y in InsertSorted(s, x) <==> y in s || y == x
  {
    if s != [] {
      var l := s[|s| - 1];
      BeforeTotal(x, l);
      if Before(x, l) {
        var t := s[..|s| - 1];
        InsertSortedKeeps(t, x);
        assert s == t + [l];
        var r := InsertSorted(t, x);
        forall i | 0 <= i < |r| ensures Before(r[i], l) {
          assert r[i] in r;
          if r[i] != x {
            var j :| 0 <= j < |t| && t[j] == r[i];
            assert s[j] == r[i];
          }
        }
      } else {
        forall i | 0 <= i < |s| - 1 ensures Before(s[i], x) { BeforeTransitive(s[i], l, x); }
      }
    }
  }

  lemma {:induction false} SortNodesSorts(s: seq<XNode>)
    requires Distinct(s)
    ensures SortNodes(s) == SortedOf(Elements(s))
  {
    if s == [] {
      SortedOfIs([]);
      assert Elements<XNode>([]) == {};
    } else {
      var t, x := s[..|s| - 1], s[|s| - 1];
      assert Distinct(t) && x !in t && s == t + [x];
      SortNodesSorts(t);
      InsertNext(SortNodes(t), Elements(t), x);
      assert Elements(s) == Elements(t) + {x};
    }
  }

  lemma InsertNext(r: seq<XNode>, e: set<XNode>, x: XNode)
    requires r == SortedOf(e) && x !in e
    ensures InsertSorted(r, x) == SortedOf(e + {x})
  {
    assert Elements(r) == e;
    assert x !in r;
    InsertSortedKeeps(r, x);
    assert Elements(InsertSorted(r, x)) == e + {x};
    SortedOfIs(InsertSorted(r, x));
  }

  lemma {:induction false} NeighboursIncreasing(s: seq<XNode>)
    requires forall i, j :: 0 <= i < |s| && j == i + 1 < |s| ==> Before(s[i], s[j])
    ensures Increasing(s)
  {
    if |s| > 1 {
      var t := s[..|s| - 1];
      assert forall i :: 0 <= i < |t| ==> t[i] == s[i];
      NeighboursIncreasing(t);
      forall i | 0 <= i < |s| - 1 ensures Before(s[i], s[|s| - 1]) {
        if i < |s| - 2 { BeforeTransitive(s[i], s[|s| - 2], s[|s| - 1]); }
      }
    }
  }

  lemma OrderOfTrue(s: seq<XNode>)
    requires Distinct(s)
    ensures OrderTrue(NodeSet(OrderOf(s), s))
  {
    if |s| >= 2 && !OrderOf(s).Unsorted? {
      var first := Before(s[0], s[1]);
      forall i, j | 0 <= i < |s| && j == i + 1 < |s| ensures if first then Before(s[i], s[j]) else Before(s[j], s[i]) {
        BeforeTotal(s[i], s[j]);
        if i > 0 { assert Before(s[i], s[i + 1]) == first; }
      }
      if first {
        NeighboursIncreasing(s);
      } else {
        var r := Reverse(s);
        NeighboursIncreasing(r);
        ReverseOrder(r);
        ReverseElements(s);
      }
    }
  }

  /** Sorting lists exactly the members, in document order, however they came. */
  lemma SortDoSorts(ns: NodeSet)
    requires SetOk(ns)
    ensures SortDo(ns) == NodeSet(Sorted, SortedOf(Elements(ns.nodes)))
  {
    OrderOfTrue(ns.nodes);
    var order := if ns.order.Unsorted? then OrderOf(ns.nodes) else ns.order;
    match order
    case Unsorted => SortNodesSorts(ns.nodes);
    case Sorted => SortedOfIs(ns.nodes);
    case SortedReverse =>
      ReverseOrder(ns.nodes);
      ReverseElements(ns.nodes);
      SortedOfIs(Reverse(ns.nodes));
  }

  // ----- Duplicates -----

  lemma {:induction false} KeepFirstKeeps(s: seq<XNode>)
    ensures Distinct(KeepFirst(s))
    ensures Elements(KeepFirst(s)) == Elements(s)
  {
    if s != [] {
      var t := s[..|s| - 1];
      var x := s[|s| - 1];
      KeepFirstKeeps(t);
      assert s == t + [x] && Elements(s) == Elements(t) + {x};
      var r := KeepFirst(t);
      assert x in r <==> x in Elements(r);
      assert Elements(r + [x]) == Elements(r) + {x};
    }
  }

  lemma {:induction false} DropNullsKeeps(s: seq<XNode>)
    requires Nothing !in s
    ensures DropNulls(s) == s
  {
    if s != [] {
      DropNullsKeeps(s[..|s| - 1]);
      assert s[|s| - 1] in s;
    }
  }

  lemma RemoveDuplicatesKeeps(ns: NodeSet)
    requires ns.order.Unsorted? && Nothing !in ns.nodes
    ensures SetOk(RemoveDuplicates(ns))
    ensures Elements(RemoveDuplicates(ns).nodes) == Elements(ns.nodes)
  {
    var s := ns.nodes;
    if |s| > 2 {
      DropNullsKeeps(s);
      KeepFirstKeeps(s);
      assert forall y :: y in KeepFirst(s) ==> y in Elements(KeepFirst(s));
    } else if |s| == 2 {
      assert s[..1] == [s[0]] && s[..1][..0] == [];
      assert KeepChanges(s[..1]) == [s[0]];
      assert s == [s[0], s[1]];
    } else if |s| == 1 {
      assert s[..0] == [];
      assert KeepChanges(s) == s;
    }
  }

  lemma {:induction false} DistinctSize(s: seq<XNode>)
    requires Distinct(s)
    ensures |Elements(s)| == |s|
  {
    if s != [] {
      var t, x := s[..|s| - 1], s[|s| - 1];
      DistinctSize(t);
      assert s == t + [x];
      assert Elements(s) == Elements(t) + {x};
    }
  }

  // ----- Sums -----

  /** Addition does not care about order, as exact addition does not. */
  ghost predicate OrderFreeAddition(env: Env) {
    forall a, b, c :: env.arith(Add, env.arith(Add, a, b), c) == env.arith(Add, env.arith(Add, a, c), b)
  }

  function Without<T>(s: seq<T>, i: nat): seq<T>
    requires i < |s|
  {
    s[..i] + s[i + 1..]
  }

  lemma {:induction false} SumPulls(env: Env, s: seq<XNode>, i: nat)
    requires OrderFreeAddition(env) && i < |s|
    ensures SumOf(env, s) == env.arith(Add, SumOf(env, Without(s, i)), NodeNumber(env, s[i]))
  {
    var n := |s| - 1;
    if i == n {
      assert Without(s, i) == s[..n];
    } else {
      var t := s[..n];
      SumPulls(env, t, i);
      var w := Without(s, i);
      assert w[..|w| - 1] == Without(t, i) && w[|w| - 1] == s[n];
    }
  }

  lemma {:induction false} SumAnyOrder(env: Env, s: seq<XNode>, t: seq<XNode>)
    requires OrderFreeAddition(env)
    requires Distinct(s) && Distinct(t) && Elements(s) == Elements(t)
    ensures SumOf(env, s) == SumOf(env, t)
  {
    assert t != [] ==> t[0] in Elements(t);
    if s != [] {
      var n := |s| - 1;
      assert s[n] in Elements(s) && s[n] in t;
      var i :| 0 <= i < |t| && t[i] == s[n];
      SumPulls(env, t, i);
      WithoutElements(t, i);
      WithoutElements(s, n);
      assert Without(s, n) == s[..n];
      SumAnyOrder(env, s[..n], Without(t, i));
    }
  }

  lemma WithoutElements(s: seq<XNode>, i: nat)
    requires Distinct(s) && i < |s|
    ensures Distinct(Without(s, i)) && Elements(Without(s, i)) == Elements(s) - {s[i]}
  {
    var w := Without(s, i);
    forall y | y in Elements(s) - {s[i]} ensures y in w {
      var j :| 0 <= j < |s| && s[j] == y;
      assert y == if j < i then w[j] else w[j - 1];
    }
    forall y | y in w ensures y in s && y != s[i] {
      var j :| 0 <= j < |w| && w[j] == y;
      assert y == if j < i then s[j] else s[j + 1];
    }
  }
}
