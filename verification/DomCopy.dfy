/** Copying a node with all that is below it, possibly to a place inside itself. */
module DomCopy {
  import opened DomLinks
  import opened DomTree

  // ---------- what a copy is ----------

  /** A node with all that is below it, as a value. */
  datatype Shape = Shape(kind: Kind, name: Text, value: Text, attributes: seq<Attribute>, children: seq<Shape>)

  ghost function Deeper(t: Trees, n: Node): set<Node>
    requires t.Valid() && n in t.nodes
  {
    set m | m in t.nodes && t.rank[m] > t.rank[n]
  }

  ghost function Kid(t: Trees, n: Node, i: nat): (k: Node)
    requires t.Valid() && n in t.nodes && i < |t.kids[n]|
    ensures k in t.nodes && k in t.up && t.up[k] == n && t.rank[n] < t.rank[k]
    ensures k == t.kids[n][i]
  {
    assert Edge(t.kids, n, t.kids[n][i]);
    t.kids[n][i]
  }

  ghost function ShapeOf(t: Trees, n: Node): Shape
    requires t.Valid() && n in t.nodes
    reads t.nodes`name, t.nodes`value, t.nodes`attributes
    decreases Deeper(t, n), 1, 0
  {
    Shape(n.kind, n.name, n.value, n.attributes, ShapesFrom(t, n, 0))
  }

  ghost function ShapesFrom(t: Trees, n: Node, i: nat): seq<Shape>
    requires t.Valid() && n in t.nodes && i <= |t.kids[n]|
    reads t.nodes`name, t.nodes`value, t.nodes`attributes
    decreases Deeper(t, n), 0, |t.kids[n]| - i
  {
    if i == |t.kids[n]| then []
    else
      var k := Kid(t, n, i);
      assert k in Deeper(t, n) && k !in Deeper(t, k);
      assert Deeper(t, k) <= Deeper(t, n);
      [ShapeOf(t, k)] + ShapesFrom(t, n, i + 1)
  }

  ghost predicate SameContents(a: Node, b: Node)
    reads {a, b}`name, {a, b}`value, {a, b}`attributes
  {
    a.kind == b.kind && a.name == b.name && a.value == b.value && a.attributes == b.attributes
  }

  /** The children of `c` in `u` are copies of the children of `s` in `t`. */
  ghost predicate KidsCopied(t: Trees, u: Trees, copy: map<Node, Node>, s: Node)
    requires s in copy && s in t.kids && copy[s] in u.kids
  {
    && |u.kids[copy[s]]| == |t.kids[s]|
    && forall i :: 0 <= i < |t.kids[s]| ==> t.kids[s][i] in copy && u.kids[copy[s]][i] == copy[t.kids[s][i]]
  }

  ghost predicate IsCopy(t: Trees, u: Trees, copy: map<Node, Node>)
    requires t.Valid() && u.Valid()
    reads copy.Keys`name, copy.Keys`value, copy.Keys`attributes
    reads copy.Values`name, copy.Values`value, copy.Values`attributes
  {
    forall s {:trigger copy[s]} :: s in copy ==>
      s in t.nodes && copy[s] in u.nodes && SameContents(s, copy[s]) && KidsCopied(t, u, copy, s)
  }

  /** A copy, node by node, has the shape of the original. */
  lemma {:induction false} CopyShape(t: Trees, u: Trees, copy: map<Node, Node>, s: Node)
    requires t.Valid() && u.Valid() && IsCopy(t, u, copy) && s in copy
    ensures s in t.nodes && copy[s] in u.nodes && ShapeOf(u, copy[s]) == ShapeOf(t, s)
    decreases Deeper(t, s), 1, 0
  {
    CopyShapes(t, u, copy, s, 0);
  }

  lemma {:induction false} CopyShapes(t: Trees, u: Trees, copy: map<Node, Node>, s: Node, i: nat)
    requires t.Valid() && u.Valid() && IsCopy(t, u, copy) && s in copy && s in t.nodes && i <= |t.kids[s]|
    ensures copy[s] in u.nodes && |u.kids[copy[s]]| == |t.kids[s]|
    ensures ShapesFrom(u, copy[s], i) == ShapesFrom(t, s, i)
    decreases Deeper(t, s), 0, |t.kids[s]| - i
  {
    assert KidsCopied(t, u, copy, s);
    if i < |t.kids[s]| {
      var k := Kid(t, s, i);
      assert k in Deeper(t, s) && k !in Deeper(t, k);
      assert Deeper(t, k) <= Deeper(t, s);
      CopyShape(t, u, copy, k);
      assert Kid(u, copy[s], i) == copy[k];
      CopyShapes(t, u, copy, s, i + 1);
    }
  }

  // ---------- how far the walk has come ----------

  /** A copy of `sn` grows under `dn`, which has just been put at place `at` of the children
      of `p`: `before` is without it, `start` with it; `below` has `sn` and what is below it. */
  datatype Job = Job(before: Trees, start: Trees, dn: Node, sn: Node, p: Node, at: nat, below: set<Node>) {
    ghost predicate Valid() {
      && before.Valid() && start.Valid() && sn in before.nodes && p in before.nodes && dn !in before.nodes
      && start.nodes == before.nodes + {dn}
      && at <= |before.kids[p]|
      && start.up == before.up[dn := p] && start.kids[dn] == []
      && (forall s {:trigger Inserted(s)} :: s in before.nodes ==> Inserted(s))
      && (forall s {:trigger Distinct(s)} :: s in start.nodes ==> Distinct(s))
      && (forall s {:trigger BelowIs(s)} :: s in start.nodes ==> BelowIs(s))
    }

    ghost predicate Inserted(s: Node)
      requires s in before.kids && s in start.kids
    {
      start.kids[s] == if s == p && at <= |before.kids[p]| then Insert(before.kids[p], at, dn) else before.kids[s]
    }

    ghost predicate BelowIs(s: Node)
      requires start.Valid() && s in start.nodes
    {
      s in below <==> start.Under(s, sn)
    }

    ghost predicate Distinct(s: Node)
      requires s in start.kids
    {
      forall i, k :: 0 <= i < k < |start.kids[s]| ==> start.kids[s][i] != start.kids[s][k]
    }

    /** How many of the first `n` children of `s` were there before. */
    function Old(s: Node, n: nat): nat {
      if s == p && n > at then n - 1 else n
    }
  }

  /** The copy of every node that has one, how many of its children are dealt with, and the
      nodes that are dealt with. */
  datatype Walk = Walk(copy: map<Node, Node>, count: map<Node, nat>, seen: set<Node>)

  /** The trees with the unfinished copy: the original is as it was. */
  ghost predicate Kept(j: Job, t: Trees) {
    && j.Valid() && t.Valid() && j.start.nodes <= t.nodes
    && (forall s :: s in j.before.nodes ==> t.kids[s] == j.start.kids[s])
    && (forall s :: s in j.start.nodes ==> (s in t.up <==> s in j.start.up) && (s in t.up ==> t.up[s] == j.start.up[s]))
    && (forall s :: s in t.nodes - j.start.nodes ==> s in t.up)
  }

  /** As many children of the copy of `s` as are dealt with are copies of the children of
      `s`. */
  ghost predicate Part(j: Job, w: Walk, t: Trees, s: Node) {
    && s in w.copy && s in w.count && s in j.below && s in j.before.nodes && s in j.before.kids && s in j.start.kids
    && w.copy[s] in t.nodes - j.before.nodes && w.copy[s] in t.kids
    && w.count[s] <= |j.start.kids[s]|
    && |t.kids[w.copy[s]]| == j.Old(s, w.count[s]) <= |j.before.kids[s]|
    && (forall i :: 0 <= i < j.Old(s, w.count[s]) ==>
          j.before.kids[s][i] in w.copy && t.kids[w.copy[s]][i] == w.copy[j.before.kids[s][i]])
    && (s != j.sn ==> s in j.start.up && j.start.up[s] in w.copy && w.copy[s] in t.up
                      && t.up[w.copy[s]] == w.copy[j.start.up[s]])
  }

  ghost predicate Injective(copy: map<Node, Node>) {
    forall s, r {:trigger copy[s], copy[r]} :: s in copy && r in copy && copy[s] == copy[r] ==> s == r
  }

  ghost predicate Parts(j: Job, w: Walk, t: Trees) {
    && Kept(j, t)
    && (forall s {:trigger Part(j, w, t, s)} :: s in w.copy ==> Part(j, w, t, s))
    && Injective(w.copy)
    && j.sn in w.copy && w.copy[j.sn] == j.dn
    && t.nodes == j.before.nodes + w.copy.Values
  }

  ghost predicate Closed(j: Job, w: Walk, s: Node)
    requires s in w.count && s in j.start.kids
  {
    w.count[s] == |j.start.kids[s]|
  }

  ghost predicate Ancestor(j: Job, a: Node, s: Node)
    requires j.Valid() && s in j.start.nodes
  {
    s != a && j.start.Under(s, a)
  }

  /** `s` is child number `i` of its parent, which has a copy. */
  ghost predicate Stands(j: Job, w: Walk, s: Node, i: nat)
    requires j.Valid()
  {
    && s in j.start.up && j.start.up[s] in w.copy && j.start.up[s] in j.before.nodes
    && i < |j.start.kids[j.start.up[s]]| && j.start.kids[j.start.up[s]][i] == s
  }

  /** The child of `s`'s parent that was dealt with last is `s`. */
  ghost predicate IsLatest(j: Job, w: Walk, s: Node)
    requires j.Valid()
  {
    s in j.start.up && j.start.up[s] in w.count && w.count[j.start.up[s]] > 0 && Stands(j, w, s, w.count[j.start.up[s]] - 1)
  }

  ghost predicate IsComing(j: Job, w: Walk, s: Node)
    requires j.Valid()
  {
    s in j.start.up && j.start.up[s] in w.count && Stands(j, w, s, w.count[j.start.up[s]])
  }

  /** With the walk at `sit`: what is neither above it nor it is finished, and the way to it
      leads through the latest children. */
  ghost predicate OnTheWay(j: Job, w: Walk, t: Trees, sit: Node)
    requires Parts(j, w, t) && sit in j.start.nodes
  {
    forall s {:trigger Part(j, w, t, s)} :: s in w.copy && s != sit && Part(j, w, t, s) ==>
      if Ancestor(j, s, sit) then s != j.sn ==> IsLatest(j, w, s) else Closed(j, w, s)
  }

  ghost predicate AllClosed(j: Job, w: Walk, t: Trees)
    requires Parts(j, w, t)
  {
    forall s {:trigger Part(j, w, t, s)} :: s in w.copy && Part(j, w, t, s) ==> Closed(j, w, s)
  }

  /** Every node that was seen is a child that is dealt with. */
  ghost predicate SeenDone(j: Job, w: Walk, k: Node)
    requires j.Valid()
  {
    k in j.start.up && j.start.up[k] in w.count && exists i {:trigger Stands(j, w, k, i)} :: Stands(j, w, k, i) && i < w.count[j.start.up[k]]
  }

  ghost predicate Walking(j: Job, w: Walk, t: Trees, sit: Node, dit: Node) {
    && Parts(j, w, t) && sit in j.start.nodes && OnTheWay(j, w, t, sit)
    && sit in j.start.up && j.start.up[sit] in w.copy && dit == w.copy[j.start.up[sit]]
    && (forall k :: k in w.seen ==> SeenDone(j, w, k))
    && w.copy.Keys - {j.sn} <= w.seen
  }

  // ---------- the steps of the walk ----------

  lemma {:induction false} UnderRank(t: Trees, n: Node, top: Node)
    requires t.Valid() && n in t.nodes && t.Under(n, top)
    ensures top in t.nodes && (n != top ==> t.rank[top] < t.rank[n])
    decreases t.rank[n]
  {
    if n != top {
      UnderRank(t, t.up[n], top);
    }
  }

  /** Down to the first child of the node copied last. */
  lemma DownStep(j: Job, w: Walk, t: Trees, sit: Node, dit: Node, k: Node)
    requires Walking(j, w, t, sit, dit) && IsLatest(j, w, sit)
    requires sit in w.copy && sit in j.before.nodes && sit in w.count && w.count[sit] == 0
    requires j.start.kids[sit] != [] && k == j.start.kids[sit][0]
    ensures Walking(j, w, t, k, w.copy[sit]) && IsComing(j, w, k) && k != j.sn
  {
    assert k == Kid(j.start, sit, 0);
    assert Part(j, w, t, sit);
    BelowParent(j, k);
    UnderParent(j.start, k, sit);
    forall s | s in w.copy && s != k && Part(j, w, t, s)
      ensures if Ancestor(j, s, k) then s != j.sn ==> IsLatest(j, w, s) else Closed(j, w, s)
    {
      UnderParent(j.start, k, s);
    }
  }

  /** On to the next sibling. */
  lemma NextStep(j: Job, w: Walk, t: Trees, sit: Node, dit: Node, k: Node)
    requires Walking(j, w, t, sit, dit) && IsLatest(j, w, sit)
    requires sit in w.copy ==> sit in w.count && sit in j.before.nodes && Closed(j, w, sit)
    requires w.count[j.start.up[sit]] < |j.start.kids[j.start.up[sit]]|
    requires k == j.start.kids[j.start.up[sit]][w.count[j.start.up[sit]]]
    ensures Walking(j, w, t, k, dit) && IsComing(j, w, k) && k != j.sn
  {
    var p := j.start.up[sit];
    assert k == Kid(j.start, p, w.count[p]);
    assert Part(j, w, t, p);
    BelowParent(j, k);
    forall s | s in w.copy && s != k && Part(j, w, t, s)
      ensures if Ancestor(j, s, k) then s != j.sn ==> IsLatest(j, w, s) else Closed(j, w, s)
    {
      UnderParent(j.start, k, s);
      if s != sit {
        UnderParent(j.start, sit, s);
      } else if j.start.Under(p, s) {
        UnderRank(j.start, p, s);
      }
    }
  }

  /** Up to the parent, when there is no next sibling. */
  lemma UpStep(j: Job, w: Walk, t: Trees, sit: Node, dit: Node)
    requires Walking(j, w, t, sit, dit) && IsLatest(j, w, sit)
    requires sit in w.copy ==> sit in w.count && sit in j.before.nodes && Closed(j, w, sit)
    requires w.count[j.start.up[sit]] == |j.start.kids[j.start.up[sit]]|
    ensures dit in t.up
    ensures var p := j.start.up[sit];
            if p == j.sn then AllClosed(j, w, t) && dit == j.dn
            else Walking(j, w, t, p, t.up[dit]) && IsLatest(j, w, p) && Closed(j, w, p)
  {
    var p := j.start.up[sit];
    assert Part(j, w, t, p);
    assert Stands(j, w, sit, w.count[p] - 1);
    UnderParent(j.start, sit, p);
    assert j.start.Under(p, p);
    assert j.BelowIs(p);
    if p != j.sn {
      UnderRank(j.start, p, j.sn);
      assert IsLatest(j, w, p);
    }
    forall s | s in w.copy && s != p && Part(j, w, t, s)
      ensures if Ancestor(j, s, p) then s != j.sn ==> IsLatest(j, w, s) else Closed(j, w, s)
    {
      if s != sit {
        UnderParent(j.start, sit, s);
      } else if j.start.Under(p, s) {
        UnderRank(j.start, p, s);
      }
    }
    if p == j.sn {
      forall s | s in w.copy && Part(j, w, t, s) ensures Closed(j, w, s) {
        assert j.BelowIs(s);
        if s != p && j.start.Under(p, s) {
          UnderRank(j.start, p, s);
          UnderRank(j.start, s, p);
        }
      }
    }
  }

  /** The next node to deal with has not been seen, and is not where copying started. */
  lemma ComingIsNew(j: Job, w: Walk, t: Trees, sit: Node, dit: Node)
    requires Walking(j, w, t, sit, dit) && IsComing(j, w, sit)
    ensures sit !in w.seen && sit !in w.copy
  {
    var p := j.start.up[sit];
    assert Part(j, w, t, p);
    assert j.BelowIs(p);
    UnderRank(j.start, p, j.sn);
    assert j.Distinct(p);
  }

  /** Where a child stood before the copy was put in. */
  lemma OldPlace(j: Job, s: Node, n: nat)
    requires j.Valid() && s in j.before.nodes && n < |j.start.kids[s]|
    ensures s == j.p && n == j.at <==> j.start.kids[s][n] == j.dn
    ensures if s == j.p && n == j.at then j.Old(s, n + 1) == j.Old(s, n)
            else j.Old(s, n + 1) == j.Old(s, n) + 1 && j.Old(s, n) < |j.before.kids[s]|
                 && j.start.kids[s][n] == j.before.kids[s][j.Old(s, n)]
  {
    assert j.Inserted(s);
    if s != j.p || n != j.at {
      assert j.start.kids[s][n] == Kid(j.before, s, j.Old(s, n));
    }
  }

  /** The node `sit` with its copy `c`. */
  ghost function WithCopy(j: Job, w: Walk, sit: Node, c: Node): Walk
    requires j.Valid() && sit in j.start.up && j.start.up[sit] in w.count
  {
    var p := j.start.up[sit];
    Walk(w.copy[sit := c], w.count[p := w.count[p] + 1][sit := 0], w.seen + {sit})
  }

  ghost function Passed(j: Job, w: Walk, sit: Node): Walk
    requires j.Valid() && sit in j.start.up && j.start.up[sit] in w.count
  {
    var p := j.start.up[sit];
    w.(count := w.count[p := w.count[p] + 1], seen := w.seen + {sit})
  }

  /** A new node `c` at the end of the children of `d`. */
  ghost predicate Longer(t: Trees, c: Node, d: Node, u: Trees) {
    && t.nodes == t.kids.Keys && u.nodes == u.kids.Keys && c !in t.nodes && d in t.nodes
    && u.nodes == t.nodes + {c} && u.up == t.up[c := d] && u.kids[c] == []
    && (forall s :: s in t.nodes && s != d ==> u.kids[s] == t.kids[s])
    && u.kids[d] == t.kids[d] + [c]
  }

  lemma GrownLonger(t: Trees, c: Node, d: Node, at: nat, u: Trees)
    requires t.Valid() && Grown(t, c, d, AtEnd, at, u) && u.Valid()
    ensures Longer(t, c, d, u)
  {
  }

  lemma PartOther(j: Job, w: Walk, t: Trees, sit: Node, dit: Node, c: Node, u: Trees, s: Node)
    requires j.Valid() && sit in j.start.up && j.start.up[sit] in w.count
    requires Part(j, w, t, s) && Longer(t, c, dit, u) && sit !in w.copy && s != j.start.up[sit] && w.copy[s] != dit
    ensures Part(j, WithCopy(j, w, sit, c), u, s)
  {
  }

  lemma PartParent(j: Job, w: Walk, t: Trees, sit: Node, dit: Node, c: Node, u: Trees)
    requires j.Valid() && IsComing(j, w, sit) && Part(j, w, t, j.start.up[sit]) && w.copy[j.start.up[sit]] == dit
    requires Longer(t, c, dit, u) && sit !in w.copy && sit != j.dn
    ensures Part(j, WithCopy(j, w, sit, c), u, j.start.up[sit])
  {
    var p := j.start.up[sit];
    OldPlace(j, p, w.count[p]);
    OneMoreKid(t.kids[dit], j.before.kids[p], w.copy, j.Old(p, w.count[p]), sit, c);
  }

  lemma OneMoreKid(ks: seq<Node>, bs: seq<Node>, copy: map<Node, Node>, n: nat, sit: Node, c: Node)
    requires |ks| == n < |bs| && bs[n] == sit && sit !in copy
    requires forall i :: 0 <= i < n ==> bs[i] in copy && ks[i] == copy[bs[i]]
    ensures forall i :: 0 <= i < n + 1 ==> bs[i] in copy[sit := c] && (ks + [c])[i] == copy[sit := c][bs[i]]
  {
  }

  lemma BelowParent(j: Job, sit: Node)
    requires j.Valid() && sit in j.start.up && j.start.up[sit] in j.below
    ensures sit in j.below && sit != j.sn
  {
    var p := j.start.up[sit];
    assert j.BelowIs(p) && j.BelowIs(sit);
    UnderRank(j.start, p, j.sn);
  }

  lemma PartNew(j: Job, w: Walk, t: Trees, sit: Node, dit: Node, c: Node, u: Trees)
    requires j.Valid() && IsComing(j, w, sit) && Part(j, w, t, j.start.up[sit]) && w.copy[j.start.up[sit]] == dit
    requires Longer(t, c, dit, u) && sit !in w.copy && sit != j.dn && c !in j.before.nodes
    ensures Part(j, WithCopy(j, w, sit, c), u, sit)
  {
    BelowParent(j, sit);
  }

  lemma KeptLonger(j: Job, t: Trees, c: Node, d: Node, u: Trees)
    requires Kept(j, t) && Longer(t, c, d, u) && d !in j.before.nodes && u.Valid()
    ensures Kept(j, u)
  {
  }

  lemma EachPart(j: Job, w: Walk, t: Trees, sit: Node, dit: Node, c: Node, u: Trees)
    requires Parts(j, w, t) && IsComing(j, w, sit) && dit == w.copy[j.start.up[sit]] && sit !in w.copy && sit != j.dn && Longer(t, c, dit, u) && u.Valid()
    ensures Kept(j, u) && forall s :: s in w.copy || s == sit ==> Part(j, WithCopy(j, w, sit, c), u, s)
  {
    assert Part(j, w, t, j.start.up[sit]);
    KeptLonger(j, t, c, dit, u);
    PartParent(j, w, t, sit, dit, c, u);
    PartNew(j, w, t, sit, dit, c, u);
    forall s | s in w.copy && s != j.start.up[sit] ensures Part(j, WithCopy(j, w, sit, c), u, s) {
      assert Part(j, w, t, s) && w.copy[s] != dit;
      PartOther(j, w, t, sit, dit, c, u, s);
    }
  }

  /** A copy under the copy of its parent. */
  lemma CopyParts(j: Job, w: Walk, t: Trees, sit: Node, dit: Node, c: Node, u: Trees)
    requires Parts(j, w, t) && IsComing(j, w, sit) && dit == w.copy[j.start.up[sit]] && sit !in w.copy && sit != j.dn && Longer(t, c, dit, u) && u.Valid()
    ensures Parts(j, WithCopy(j, w, sit, c), u)
  {
    EachPart(j, w, t, sit, dit, c, u);
    ValuesGrow(w.copy, sit, c);
  }

  lemma ValuesGrow(copy: map<Node, Node>, s: Node, c: Node)
    requires s !in copy && Injective(copy) && c !in copy.Values
    ensures copy[s := c].Values == copy.Values + {c} && Injective(copy[s := c])
  {
    forall x | x in copy ensures copy[x] in copy[s := c].Values {
      assert copy[s := c][x] == copy[x];
    }
    assert copy[s := c][s] == c;
  }

  /** With `sit` dealt with, and a copy of it or not. */
  ghost predicate OneMore(j: Job, w: Walk, sit: Node, v: Walk)
    requires j.Valid()
  {
    && sit in j.start.up && sit !in w.copy
    && (forall s :: s in w.copy ==> s in v.copy)
    && (forall s :: s in v.copy && s != sit ==> s in w.copy)
    && v.seen == w.seen + {sit}
    && forall s :: s in w.count && s != sit ==>
         s in v.count && v.count[s] == if s == j.start.up[sit] then w.count[s] + 1 else w.count[s]
  }

  lemma LatestNow(j: Job, w: Walk, sit: Node, v: Walk)
    requires j.Valid() && OneMore(j, w, sit, v) && IsComing(j, w, sit)
    ensures IsLatest(j, v, sit)
  {
    var p := j.start.up[sit];
    assert Stands(j, w, sit, w.count[p]);
    assert p != sit;
    assert Stands(j, v, sit, w.count[p]);
  }

  lemma LatestStill(j: Job, w: Walk, sit: Node, v: Walk, s: Node)
    requires j.Valid() && OneMore(j, w, sit, v) && sit in j.start.nodes && IsLatest(j, w, s)
    requires s != sit && j.start.Under(sit, s)
    ensures IsLatest(j, v, s)
  {
    var p, q := j.start.up[sit], j.start.up[s];
    UnderParent(j.start, sit, s);
    UnderRank(j.start, p, s);
    assert q != p && q != sit;
    assert Stands(j, w, s, w.count[q] - 1);
    assert Stands(j, v, s, w.count[q] - 1);
  }

  lemma SeenStill(j: Job, w: Walk, sit: Node, v: Walk, k: Node)
    requires j.Valid() && OneMore(j, w, sit, v) && SeenDone(j, w, k)
    requires j.start.up[k] in w.copy
    ensures SeenDone(j, v, k)
  {
    var i :| Stands(j, w, k, i) && i < w.count[j.start.up[k]];
    assert Stands(j, v, k, i);
  }

  /** Dealing with one more child keeps what is known of the way to it. */
  lemma StillOnTheWay(j: Job, w: Walk, t: Trees, sit: Node, dit: Node, v: Walk, u: Trees)
    requires Walking(j, w, t, sit, dit) && IsComing(j, w, sit) && Parts(j, v, u) && OneMore(j, w, sit, v)
    ensures OnTheWay(j, v, u, sit)
  {
    forall s | s in v.copy && s != sit && Part(j, v, u, s)
      ensures if Ancestor(j, s, sit) then s != j.sn ==> IsLatest(j, v, s) else Closed(j, v, s)
    {
      assert Part(j, w, t, s);
      if Ancestor(j, s, sit) {
        if s != j.sn {
          LatestStill(j, w, sit, v, s);
        }
      } else {
        assert Closed(j, w, s);
        UnderParent(j.start, sit, j.start.up[sit]);
      }
    }
  }

  lemma AllSeen(j: Job, w: Walk, t: Trees, sit: Node, dit: Node, v: Walk)
    requires Walking(j, w, t, sit, dit) && IsComing(j, w, sit) && OneMore(j, w, sit, v) && IsLatest(j, v, sit)
    ensures forall k :: k in v.seen ==> SeenDone(j, v, k)
  {
    forall k | k in v.seen ensures SeenDone(j, v, k) {
      if k != sit {
        assert SeenDone(j, w, k);
        SeenStill(j, w, sit, v, k);
      }
    }
  }

  lemma WithCopyOneMore(j: Job, w: Walk, sit: Node, c: Node)
    requires j.Valid() && sit in j.start.up && j.start.up[sit] in w.count && sit !in w.copy && sit != j.start.up[sit]
    ensures OneMore(j, w, sit, WithCopy(j, w, sit, c))
  {
  }

  lemma CopyStep(j: Job, w: Walk, t: Trees, sit: Node, dit: Node, c: Node, u: Trees)
    requires Walking(j, w, t, sit, dit) && IsComing(j, w, sit) && sit != j.dn && Longer(t, c, dit, u) && u.Valid()
    ensures var v := WithCopy(j, w, sit, c);
            Walking(j, v, u, sit, dit) && IsLatest(j, v, sit) && sit in v.copy && v.count[sit] == 0
  {
    ComingIsNew(j, w, t, sit, dit);
    CopyParts(j, w, t, sit, dit, c, u);
    var v := WithCopy(j, w, sit, c);
    WithCopyOneMore(j, w, sit, c);
    LatestNow(j, w, sit, v);
    StillOnTheWay(j, w, t, sit, dit, v, u);
    AllSeen(j, w, t, sit, dit, v);
  }

  lemma PassedPart(j: Job, w: Walk, t: Trees, s: Node)
    requires j.Valid() && IsComing(j, w, j.dn) && Part(j, w, t, s)
    ensures Part(j, Passed(j, w, j.dn), t, s)
  {
    var p := j.start.up[j.dn];
    OldPlace(j, p, w.count[p]);
  }

  /** The new copy itself is passed over when the walk meets it. */
  lemma SkipStep(j: Job, w: Walk, t: Trees, dit: Node)
    requires Walking(j, w, t, j.dn, dit) && IsComing(j, w, j.dn)
    ensures var v := Passed(j, w, j.dn); Walking(j, v, t, j.dn, dit) && IsLatest(j, v, j.dn) && j.dn !in v.copy
  {
    ComingIsNew(j, w, t, j.dn, dit);
    var v := Passed(j, w, j.dn);
    forall s | s in v.copy ensures Part(j, v, t, s) {
      assert Part(j, w, t, s);
      PassedPart(j, w, t, s);
    }
    assert OneMore(j, w, j.dn, v);
    LatestNow(j, w, j.dn, v);
    StillOnTheWay(j, w, t, j.dn, dit, v, t);
    AllSeen(j, w, t, j.dn, dit, v);
  }

  // ---------- copying ----------

  /** `node_copy_contents`: into a node that is still blank. */
  method NodeCopyContents(dn: Node, sn: Node)
    requires dn != sn && Blank(dn)
    modifies dn`name, dn`value, dn`attributes
    ensures dn.name == sn.name && dn.value == sn.value && dn.attributes == sn.attributes
  {
    if sn.name.Present? {
      dn.name := sn.name;
    }
    if sn.value.Present? {
      dn.value := sn.value;
    }
    var i := 0;
    while i < |sn.attributes|
      invariant i <= |sn.attributes| && dn.attributes == sn.attributes[..i]
      invariant dn.name == sn.name && dn.value == sn.value
    {
      dn.attributes := dn.attributes + [sn.attributes[i]];
      i := i + 1;
    }
  }

  /** The links of a child of a node that has a copy. */
  lemma LinksAt(d: Store, j: Job, w: Walk, s: Node, i: nat)
    requires d.Mirrors() && Kept(j, d.trees) && Stands(j, w, s, i)
    ensures var p := j.start.up[s]; s.parent == p && s.next == NextOf(j.start.kids[p], i)
  {
    var p := j.start.up[s];
    assert d.MirrorsAt(p);
    assert Linked(p, d.trees.kids[p], i);
  }

  lemma UpLink(d: Store, n: Node)
    requires d.Mirrors() && n in d.trees.up
    ensures n.parent == d.trees.up[n]
  {
    assert d.MirrorsAt(n);
  }

  ghost predicate Done(j: Job, w: Walk, t: Trees, sit: Node, dit: Node) {
    && Walking(j, w, t, sit, dit) && IsLatest(j, w, sit)
    && (sit in w.copy ==> sit in w.count && sit in j.before.nodes && Closed(j, w, sit))
  }

  lemma GoAlong(d: Store, j: Job, w: Walk, sit: Node, dit: Node)
    requires d.Mirrors() && Done(j, w, d.trees, sit, dit) && sit.next != null
    ensures Walking(j, w, d.trees, sit.next, dit) && IsComing(j, w, sit.next) && sit.next != j.sn
  {
    LinksAt(d, j, w, sit, w.count[j.start.up[sit]] - 1);
    NextStep(j, w, d.trees, sit, dit, sit.next);
  }

  lemma GoUp(d: Store, j: Job, w: Walk, sit: Node, dit: Node)
    requires d.Mirrors() && Done(j, w, d.trees, sit, dit) && sit.next == null
    ensures sit.parent != null && sit.parent in j.start.nodes && j.start.rank[sit.parent] < j.start.rank[sit]
    ensures if sit.parent == j.sn then AllClosed(j, w, d.trees) && dit == j.dn
            else dit.parent != null && Done(j, w, d.trees, sit.parent, dit.parent)
  {
    LinksAt(d, j, w, sit, w.count[j.start.up[sit]] - 1);
    UpStep(j, w, d.trees, sit, dit);
    UpLink(d, dit);
  }

  /** On from a node that is dealt with: to its next sibling, or to that of the nearest
      ancestor that has one, or back to where copying started. */
  method Advance(d: Store, sn: Node, from: Node, under: Node, ghost j: Job, ghost w: Walk)
    returns (sit: Node, dit: Node?)
    requires d.Mirrors() && Done(j, w, d.trees, from, under) && sn == j.sn
    ensures sit == sn ==> AllClosed(j, w, d.trees) && dit == j.dn.parent
    ensures sit != sn ==> dit != null && Walking(j, w, d.trees, sit, dit) && IsComing(j, w, sit)
  {
    sit, dit := from, under;
    while true
      invariant dit != null && Done(j, w, d.trees, sit, dit)
      decreases j.start.rank[sit]
    {
      if sit.next != null {
        GoAlong(d, j, w, sit, dit);
        sit := sit.next;
        return;
      }
      GoUp(d, j, w, sit, dit);
      sit := sit.parent;
      dit := dit.parent;
      if sit == sn {
        return;
      }
    }
  }

  /** A copy of the node `sit` alone, as the last child of `dit`. */
  method CopyOne(d: Store, sit: Node, dit: Node) returns (copy: Node)
    requires d.Mirrors() && sit in d.trees.nodes && dit in d.trees.nodes
    modifies d`trees, d.trees.nodes`parent, d.trees.nodes`first, d.trees.nodes`next, d.trees.nodes`prev
    ensures d.Mirrors() && fresh(copy) && copy.owner == dit.Root() && SameContents(sit, copy) && Longer(old(d.trees), copy, dit, d.trees)
  {
    ghost var t := d.trees;
    ghost var at;
    copy, at := d.Hang(dit, sit.kind, AtEnd);
    GrownLonger(t, copy, dit, at, d.trees);
    NodeCopyContents(copy, sit);
  }

  ghost predicate AllSame(copy: map<Node, Node>)
    reads copy.Keys`name, copy.Keys`value, copy.Keys`attributes
    reads copy.Values`name, copy.Values`value, copy.Values`attributes
  {
    forall s {:trigger copy[s]} :: s in copy ==> SameContents(s, copy[s])
  }

  /** Before the first step: nothing but the topmost node is copied. */
  ghost function Begun(j: Job): Walk {
    Walk(map[j.sn := j.dn], map[j.sn := 0], {})
  }

  lemma BeginStep(j: Job)
    requires j.Valid()
    ensures Parts(j, Begun(j), j.start)
    ensures j.start.kids[j.sn] == [] ==> AllClosed(j, Begun(j), j.start)
    ensures j.start.kids[j.sn] != [] ==>
              var k := j.start.kids[j.sn][0];
              Walking(j, Begun(j), j.start, k, j.dn) && IsComing(j, Begun(j), k) && k != j.sn
  {
    var w := Begun(j);
    assert j.BelowIs(j.sn) && j.Inserted(j.sn);
    assert Part(j, w, j.start, j.sn);
    assert Parts(j, w, j.start);
    if j.start.kids[j.sn] != [] {
      var k := Kid(j.start, j.sn, 0);
      BelowParent(j, k);
      UnderParent(j.start, k, j.sn);
    }
  }

  /** When everything is dealt with, the copy is complete. */
  lemma FinishStep(j: Job, w: Walk, t: Trees)
    requires Parts(j, w, t) && AllClosed(j, w, t) && AllSame(w.copy)
    ensures IsCopy(j.before, t, w.copy)
  {
    forall s | s in w.copy
      ensures s in j.before.nodes && w.copy[s] in t.nodes && KidsCopied(j.before, t, w.copy, s)
    {
      assert Part(j, w, t, s);
      assert Closed(j, w, s);
      assert j.Inserted(s);
    }
  }

  lemma SameAfter(copy: map<Node, Node>, s: Node, c: Node)
    requires AllSame(copy) && s !in copy && SameContents(s, c)
    ensures AllSame(copy[s := c])
  {
  }

  /** What holds whenever the walk comes to a node that has not been dealt with, or to its
      end. */
  ghost predicate At(j: Job, w: Walk, t: Trees, sit: Node?, dit: Node?) {
    && Parts(j, w, t)
    && if sit == null || sit == j.sn then AllClosed(j, w, t)
       else dit != null && Walking(j, w, t, sit, dit) && IsComing(j, w, sit)
  }

  /** The same when the node has been copied. */
  ghost predicate Copied(j: Job, w: Walk, t: Trees, sit: Node, dit: Node) {
    && Walking(j, w, t, sit, dit) && IsLatest(j, w, sit)
    && sit in j.before.nodes && sit in w.copy && sit in w.count && w.count[sit] == 0
  }

  /** What holds is looked into only where a seal is broken. */
  ghost predicate Broken(b: bool) {
    true
  }

  ghost predicate SealedAt(j: Job, w: Walk, t: Trees, sit: Node?, dit: Node?) {
    forall b: bool {:trigger Broken(b)} :: Broken(b) ==> At(j, w, t, sit, dit)
  }

  ghost predicate SealedCopied(j: Job, w: Walk, t: Trees, sit: Node, dit: Node) {
    forall b: bool {:trigger Broken(b)} :: Broken(b) ==> Copied(j, w, t, sit, dit)
  }

  ghost predicate SealedDone(j: Job, w: Walk, t: Trees, sit: Node, dit: Node) {
    forall b: bool {:trigger Broken(b)} :: Broken(b) ==> Done(j, w, t, sit, dit)
  }

  /** The node the walk comes to is new. */
  lemma NewNode(j: Job, w: Walk, t: Trees, sit: Node, dit: Node)
    requires SealedAt(j, w, t, sit, dit) && sit != j.sn
    ensures sit in j.start.nodes && sit in t.nodes && dit in t.nodes && sit !in w.seen && sit !in w.copy
  {
    assert Broken(true);
    ComingIsNew(j, w, t, sit, dit);
    assert Part(j, w, t, j.start.up[sit]);
  }

  lemma CopyRound(j: Job, w: Walk, t: Trees, sit: Node, dit: Node, copy: Node, u: Trees) returns (v: Walk)
    requires SealedAt(j, w, t, sit, dit) && sit != j.sn && sit != j.dn && Longer(t, copy, dit, u) && u.Valid()
    ensures SealedCopied(j, v, u, sit, dit) && v.seen == w.seen + {sit} && v.copy == w.copy[sit := copy]
  {
    assert Broken(true);
    CopyStep(j, w, t, sit, dit, copy, u);
    v := WithCopy(j, w, sit, copy);
  }

  lemma SkipRound(j: Job, w: Walk, t: Trees, dit: Node) returns (v: Walk)
    requires SealedAt(j, w, t, j.dn, dit) && j.dn != j.sn
    ensures SealedDone(j, v, t, j.dn, dit) && v.seen == w.seen + {j.dn} && v.copy == w.copy
  {
    assert Broken(true);
    SkipStep(j, w, t, dit);
    v := Passed(j, w, j.dn);
  }

  /** With a node copied: down to its first child, or on. */
  method Proceed(d: Store, sn: Node, sit: Node, copy: Node, dit: Node, ghost j: Job, ghost w: Walk)
    returns (s: Node, q: Node?)
    requires d.Mirrors() && SealedCopied(j, w, d.trees, sit, dit) && sn == j.sn && sit in w.copy && w.copy[sit] == copy
    ensures SealedAt(j, w, d.trees, s, q) && if s == sn then q == j.dn.parent else q != null
  {
    assert Broken(true);
    assert d.MirrorsAt(sit);
    if sit.first != null {
      DownStep(j, w, d.trees, sit, dit, sit.first);
      return sit.first, copy;
    }
    s, q := Advance(d, sn, sit, dit, j, w);
  }

  method Pass(d: Store, sn: Node, sit: Node, dit: Node, ghost j: Job, ghost w: Walk) returns (s: Node, q: Node?)
    requires d.Mirrors() && SealedDone(j, w, d.trees, sit, dit) && sn == j.sn
    ensures SealedAt(j, w, d.trees, s, q) && if s == sn then q == j.dn.parent else q != null
  {
    assert Broken(true);
    s, q := Advance(d, sn, sit, dit, j, w);
  }

  /** What is new belongs to the document that its parent belongs to. */
  ghost predicate NewOwned(t: Trees, before: set<Node>) {
    forall m :: m in t.nodes - before ==> m in t.up && m.owner != null && m.Root() == t.up[m].Root()
  }

  ghost predicate NewBelow(t: Trees, before: set<Node>) {
    forall m :: m in t.nodes - before ==> m.kind != DocumentKind && m in t.up
  }

  lemma LongerOwned(t: Trees, c: Node, d: Node, u: Trees, before: set<Node>)
    requires Longer(t, c, d, u) && NewOwned(t, before) && c.owner == d.Root()
    ensures NewOwned(u, before)
  {
  }

  /** A round in which a copy is made. */
  method CopyHere(d: Store, sn: Node, sit: Node, dit: Node, ghost j: Job, ghost w: Walk)
    returns (s: Node, q: Node?, ghost v: Walk)
    requires d.Mirrors() && SealedAt(j, w, d.trees, sit, dit) && sit != sn && sit != j.dn && sn == j.sn && AllSame(w.copy)
    requires sit in d.trees.nodes && dit in d.trees.nodes && sit !in w.copy && NewOwned(d.trees, j.before.nodes)
    modifies d`trees, d.trees.nodes`parent, d.trees.nodes`first, d.trees.nodes`next, d.trees.nodes`prev
    ensures d.Mirrors() && SealedAt(j, v, d.trees, s, q) && AllSame(v.copy) && fresh(d.trees.nodes - old(d.trees.nodes))
    ensures v.seen == w.seen + {sit} && NewOwned(d.trees, j.before.nodes)
    ensures if s == sn then q == j.dn.parent else q != null
  {
    ghost var t := d.trees;
    var copy := CopyOne(d, sit, dit);
    v := CopyRound(j, w, t, sit, dit, copy, d.trees);
    LongerOwned(t, copy, dit, d.trees, j.before.nodes);
    SameAfter(w.copy, sit, copy);
    s, q := Proceed(d, sn, sit, copy, dit, j, v);
  }

  /** One round of the loop. */
  method DealWith(d: Store, dn: Node, sn: Node, sit: Node, dit: Node, ghost j: Job, ghost w: Walk)
    returns (s: Node, q: Node?, ghost v: Walk)
    requires d.Mirrors() && SealedAt(j, w, d.trees, sit, dit) && sit != sn && dn == j.dn && sn == j.sn && AllSame(w.copy)
    requires NewOwned(d.trees, j.before.nodes)
    modifies d`trees, d.trees.nodes`parent, d.trees.nodes`first, d.trees.nodes`next, d.trees.nodes`prev
    ensures d.Mirrors() && SealedAt(j, v, d.trees, s, q) && AllSame(v.copy) && fresh(d.trees.nodes - old(d.trees.nodes))
    ensures sit in j.start.nodes && sit !in w.seen && v.seen == w.seen + {sit}
    ensures if s == sn then q == dn.parent else q != null
    ensures NewOwned(d.trees, j.before.nodes)
  {
    NewNode(j, w, d.trees, sit, dit);
    if sit != dn {
      s, q, v := CopyHere(d, sn, sit, dit, j, w);
    } else {
      v := SkipRound(j, w, d.trees, dit);
      s, q := Pass(d, sn, sit, dit, j, v);
    }
  }

  lemma StartAt(d: Store, j: Job)
    requires d.Mirrors() && j.Valid() && d.trees == j.start
    ensures SealedAt(j, Begun(j), d.trees, j.sn.first, j.dn) && j.sn.first != j.sn
  {
    BeginStep(j);
    assert d.MirrorsAt(j.sn);
  }

  lemma EndAt(j: Job, w: Walk, t: Trees, sit: Node?, dit: Node?)
    requires SealedAt(j, w, t, sit, dit) && (sit == null || sit == j.sn) && AllSame(w.copy)
    ensures Kept(j, t) && IsCopy(j.before, t, w.copy) && j.sn in w.copy && w.copy[j.sn] == j.dn
    ensures t.nodes == j.before.nodes + w.copy.Values && w.copy.Keys <= j.below
  {
    assert Broken(true);
    forall s | s in w.copy ensures s in j.below {
      assert Part(j, w, t, s);
    }
    FinishStep(j, w, t);
  }

  /** `node_copy_tree`: `dn` has just been put in, and becomes a copy of `sn` as that was
      before, even if it stands below `sn`. */
  method NodeCopyTree(d: Store, dn: Node, sn: Node, ghost j: Job) returns (ghost copy: map<Node, Node>)
    requires d.Mirrors() && j.Valid() && d.trees == j.start && dn == j.dn && sn == j.sn
    requires Blank(dn) && dn.kind == sn.kind && NewOwned(d.trees, j.before.nodes)
    modifies d`trees, d.trees.nodes`parent, d.trees.nodes`first, d.trees.nodes`next, d.trees.nodes`prev
    modifies dn`name, dn`value, dn`attributes
    ensures d.Mirrors() && IsCopy(j.before, d.trees, copy) && sn in copy && copy[sn] == dn
    ensures Kept(j, d.trees) && d.trees.nodes == j.before.nodes + copy.Values && copy.Keys <= j.below
    ensures fresh(d.trees.nodes - old(d.trees.nodes))
    ensures NewOwned(d.trees, j.before.nodes)
  {
    NodeCopyContents(dn, sn);
    StartAt(d, j);
    copy := CopyBelow(d, dn, sn, j);
  }

  /** What is below the topmost node. */
  method CopyBelow(d: Store, dn: Node, sn: Node, ghost j: Job) returns (ghost copy: map<Node, Node>)
    requires d.Mirrors() && SealedAt(j, Begun(j), d.trees, sn.first, dn) && sn.first != sn && dn == j.dn && sn == j.sn
    requires AllSame(Begun(j).copy) && NewOwned(d.trees, j.before.nodes)
    modifies d`trees, d.trees.nodes`parent, d.trees.nodes`first, d.trees.nodes`next, d.trees.nodes`prev
    ensures d.Mirrors() && Kept(j, d.trees) && IsCopy(j.before, d.trees, copy) && sn in copy && copy[sn] == dn
    ensures d.trees.nodes == j.before.nodes + copy.Values && copy.Keys <= j.below
    ensures fresh(d.trees.nodes - old(d.trees.nodes)) && NewOwned(d.trees, j.before.nodes)
  {
    ghost var w := Begun(j);
    var dit: Node? := dn;
    var sit := sn.first;
    while sit != null && sit != sn
      invariant d.Mirrors() && SealedAt(j, w, d.trees, sit, dit) && AllSame(w.copy)
      invariant fresh(d.trees.nodes - old(d.trees.nodes))
      invariant NewOwned(d.trees, j.before.nodes)
      invariant if sit == null || sit == sn then sit == null || dit == dn.parent else dit != null
      decreases j.start.nodes - w.seen
    {
      sit, dit, w := DealWith(d, dn, sn, sit, dit, j, w);
    }
    assert sit == null || dit == dn.parent;
    EndAt(j, w, d.trees, sit, dit);
    copy := w.copy;
  }

  /** The trees `u` are the trees `t` with a new tree `n` at place `at` of the children of
      `p`. */
  ghost predicate Planted(t: Trees, n: Node, p: Node, place: Place, at: nat, u: Trees)
    requires t.Valid() && u.Valid()
  {
    && p in t.nodes && n in u.nodes - t.nodes && t.nodes <= u.nodes
    && IsPlace(place, t.kids[p], at) && u.kids[p] == Insert(t.kids[p], at, n)
    && (forall s :: s in t.nodes && s != p ==> u.kids[s] == t.kids[s])
    && (forall s :: s in t.nodes ==> (s in u.up <==> s in t.up) && (s in u.up ==> u.up[s] == t.up[s]))
  }

  ghost function JobOf(t: Trees, u: Trees, n: Node, proto: Node, p: Node, at: nat): Job
    requires u.Valid()
  {
    Job(t, u, n, proto, p, at, set m | m in u.nodes && u.Under(m, proto))
  }

  ghost predicate SealedGrown(t: Trees, n: Node, p: Node, place: Place, at: nat, u: Trees) {
    forall b: bool {:trigger Broken(b)} :: Broken(b) ==> Grown(t, n, p, place, at, u)
  }

  lemma JobValid(d: Store, t: Trees, n: Node, proto: Node, p: Node, place: Place, at: nat)
    requires d.Mirrors() && t.Valid() && proto in t.nodes && p in t.nodes && SealedGrown(t, n, p, place, at, d.trees)
    ensures JobOf(t, d.trees, n, proto, p, at).Valid() && IsPlace(place, t.kids[p], at)
  {
    assert Broken(true);
    var u := d.trees;
    var j := JobOf(t, u, n, proto, p, at);
    assert u.kids == t.kids[n := []][p := Insert(t.kids[p], at, n)];
    forall s | s in u.nodes ensures j.Distinct(s) {
      assert d.MirrorsAt(s);
    }
  }

  lemma PlantedSo(j: Job, t: Trees, place: Place)
    requires Kept(j, t) && IsPlace(place, j.before.kids[j.p], j.at)
    ensures Planted(j.before, j.dn, j.p, place, j.at, t)
  {
    forall s | s in j.before.nodes ensures j.Inserted(s) {
    }
  }

  /** No copy is a document: what is below `sn` is not at the top. */
  lemma KindsKept(j: Job, u: Trees, copy: map<Node, Node>)
    requires j.Valid() && u.Valid() && IsCopy(j.before, u, copy) && copy.Keys <= j.below
    requires u.nodes == j.before.nodes + copy.Values
    requires j.sn.kind != DocumentKind && forall s :: s in j.before.up ==> s.kind != DocumentKind
    ensures forall m :: m in u.nodes - j.before.nodes ==> m.kind != DocumentKind
  {
    forall m | m in u.nodes - j.before.nodes ensures m.kind != DocumentKind {
      var s :| s in copy && copy[s] == m;
      assert SameContents(s, copy[s]);
      assert j.BelowIs(s);
    }
  }

  /** Every pair of parent and child in `t` is one that may be. */
  ghost predicate Held(t: Trees) {
    forall s :: s in t.up ==> MayHold(t.up[s].kind, s.kind)
  }

  /** Nor does a copy bring in a pair that may not be: it repeats those of the original. */
  lemma PairsKept(t: Trees, u: Trees, copy: map<Node, Node>, n: Node, p: Node, place: Place, at: nat, m: Node)
    requires t.Valid() && u.Valid() && IsCopy(t, u, copy) && u.nodes == t.nodes + copy.Values
    requires Planted(t, n, p, place, at, u) && Held(t) && MayHold(p.kind, n.kind)
    requires m in u.nodes - t.nodes && m in u.up
    ensures MayHold(u.up[m].kind, m.kind)
  {
    var r := u.up[m];
    assert Edge(u.kids, r, m);
    if r in t.nodes {
      PlantedOld(t, n, p, place, at, u, r, m);
    } else {
      var q :| q in copy && copy[q] == r;
      assert SameContents(q, copy[q]) && KidsCopied(t, u, copy, q);
      var i :| 0 <= i < |u.kids[r]| && u.kids[r][i] == m;
      var k := t.kids[q][i];
      assert Edge(t.kids, q, k);
      assert SameContents(k, copy[k]);
    }
  }

  lemma PlantedOld(t: Trees, n: Node, p: Node, place: Place, at: nat, u: Trees, r: Node, m: Node)
    requires t.Valid() && u.Valid() && Planted(t, n, p, place, at, u) && r in t.nodes && m in u.kids[r] && m !in t.nodes
    ensures r == p && m == n
  {
    assert Edge(t.kids, r, m) ==> m in t.up;
    InsertElements(t.kids[p], at, n);
  }

  /** Every pair with a new child is one that may be. */
  ghost predicate NewHeld(u: Trees, before: set<Node>) {
    forall m :: m in u.nodes - before && m in u.up ==> MayHold(u.up[m].kind, m.kind)
  }

  lemma AllPairsKept(t: Trees, u: Trees, copy: map<Node, Node>, n: Node, p: Node, place: Place, at: nat)
    requires t.Valid() && u.Valid() && IsCopy(t, u, copy) && u.nodes == t.nodes + copy.Values
    requires Planted(t, n, p, place, at, u) && Held(t) && MayHold(p.kind, n.kind)
    ensures NewHeld(u, t.nodes)
  {
    forall m | m in u.nodes - t.nodes && m in u.up ensures MayHold(u.up[m].kind, m.kind) {
      PairsKept(t, u, copy, n, p, place, at, m);
    }
  }

  lemma CopyDone(j: Job, u: Trees, copy: map<Node, Node>, place: Place)
    requires Kept(j, u) && IsPlace(place, j.before.kids[j.p], j.at)
    requires IsCopy(j.before, u, copy) && copy.Keys <= j.below && j.sn in copy && copy[j.sn] == j.dn
    requires u.nodes == j.before.nodes + copy.Values
    requires j.sn.kind != DocumentKind && forall s :: s in j.before.up ==> s.kind != DocumentKind
    ensures Planted(j.before, j.dn, j.p, place, j.at, u)
    ensures NewBelow(u, j.before.nodes)
    ensures ShapeOf(u, j.dn) == ShapeOf(j.before, j.sn)
  {
    PlantedSo(j, u, place);
    KindsKept(j, u, copy);
    CopyShape(j.before, u, copy, j.sn);
  }

  /** What makes a growing copy of `sn` out of the new node `dn`. */
  method CopyInto(d: Store, dn: Node, sn: Node, ghost t: Trees, ghost p: Node, ghost place: Place, ghost at: nat)
    requires d.Mirrors() && t.Valid() && sn in t.nodes && p in t.nodes && SealedGrown(t, dn, p, place, at, d.trees)
    requires Blank(dn) && dn.kind == sn.kind && dn.owner == p.Root() && Held(t) && MayHold(p.kind, dn.kind)
    modifies d`trees, d.trees.nodes`parent, d.trees.nodes`first, d.trees.nodes`next, d.trees.nodes`prev
    modifies dn`name, dn`value, dn`attributes
    ensures d.Mirrors() && fresh(d.trees.nodes - old(d.trees.nodes))
    ensures Planted(t, dn, p, place, at, d.trees)
    ensures NewBelow(d.trees, t.nodes) && ShapeOf(d.trees, dn) == ShapeOf(t, sn)
    ensures NewOwned(d.trees, t.nodes) && NewHeld(d.trees, t.nodes)
  {
    ghost var j := JobOf(t, d.trees, dn, sn, p, at);
    JobValid(d, t, dn, sn, p, place, at);
    ghost var copy := NodeCopyTree(d, dn, sn, j);
    CopyDone(j, d.trees, copy, place);
    AllPairsKept(t, d.trees, copy, dn, p, place, at);
  }

  method PutNew(d: Store, parent: Node, kind: Kind, place: Place) returns (n: Node, ghost at: nat)
    requires d.Mirrors() && parent in d.trees.nodes && Fits(place, d.trees.kids[parent])
    modifies d`trees, d.trees.nodes`parent, d.trees.nodes`first, d.trees.nodes`next, d.trees.nodes`prev
    ensures d.Mirrors() && fresh(n) && n.kind == kind && n.owner == parent.Root() && Blank(n) && d.trees.nodes == old(d.trees.nodes) + {n}
    ensures SealedGrown(old(d.trees), n, parent, place, at, d.trees)
  {
    n, at := d.Hang(parent, kind, place);
  }

  /** A copy of `proto` at a place that has been found to be there. */
  method Plant(d: Store, parent: Node, proto: Node, place: Place) returns (n: Node, ghost at: nat)
    requires d.Mirrors() && parent in d.trees.nodes && proto in d.trees.nodes && Fits(place, d.trees.kids[parent])
    requires Held(d.trees) && MayHold(parent.kind, proto.kind)
    modifies d`trees, d.trees.nodes`parent, d.trees.nodes`first, d.trees.nodes`next, d.trees.nodes`prev
    ensures d.Mirrors() && old(d.trees).Valid() && proto in old(d.trees).nodes
    ensures fresh(n) && fresh(d.trees.nodes - old(d.trees).nodes)
    ensures Planted(old(d.trees), n, parent, place, at, d.trees)
    ensures NewBelow(d.trees, old(d.trees).nodes) && NewOwned(d.trees, old(d.trees).nodes)
    ensures NewHeld(d.trees, old(d.trees).nodes)
    ensures ShapeOf(d.trees, n) == ShapeOf(old(d.trees), proto)
  {
    ghost var t := d.trees;
    n, at := PutNew(d, parent, proto.kind, place);
    ghost var grown := d.trees.nodes;
    CopyInto(d, n, proto, t, parent, place, at);
    assert d.trees.nodes - t.nodes <= (d.trees.nodes - grown) + {n};
  }

  /** With new nodes that are not documents, the documents are still trees. */
  lemma StillOwned(t: Trees, u: Trees)
    requires t.Valid() && u.Valid() && Owned(t) && t.nodes <= u.nodes && NewOwned(u, t.nodes)
    requires forall s :: s in t.nodes ==> (s in u.up <==> s in t.up) && (s in u.up ==> u.up[s] == t.up[s])
    requires NewBelow(u, t.nodes) && NewHeld(u, t.nodes)
    ensures Owned(u)
  {
    forall m | m in u.nodes ensures OwnedAt(u, m) {
      assert m in t.nodes ==> OwnedAt(t, m);
    }
  }

  lemma OwnedHeld(t: Trees)
    requires t.Valid() && Owned(t)
    ensures Held(t)
  {
    forall s | s in t.up ensures MayHold(t.up[s].kind, s.kind) {
      assert OwnedAt(t, s);
    }
  }

  /** The two refusals: by kind, and where the place is not among the children. */
  method MayInsert(d: Store, parent: Node?, proto: Node?, place: Place) returns (ok: bool)
    requires d.Valid() && (parent != null ==> parent in d.trees.nodes) && (proto != null ==> proto in d.trees.nodes)
    requires (place.After? || place.Before?) && place.node != null ==> place.node in d.trees.nodes
    ensures ok <==> MayTake(parent, proto) && (place.After? || place.Before? ==> place.node != null && place.node.parent == parent)
    ensures ok ==> Fits(place, d.trees.kids[parent])
  {
    if !MayTake(parent, proto) {
      return false;
    }
    if place.After? || place.Before? {
      if place.node == null || place.node.parent != parent {
        return false;
      }
      d.ChildFits(parent, place.node);
    }
    return true;
  }

  /** `append_copy`, `prepend_copy`, `insert_copy_after`, `insert_copy_before`: a copy of
      `proto` as it was, from this document or another, where its kind may stand; everything
      else stays. */
  method InsertCopy(d: Store, parent: Node?, proto: Node?, place: Place) returns (n: Node?, ghost at: nat)
    requires d.Valid() && (parent != null ==> parent in d.trees.nodes) && (proto != null ==> proto in d.trees.nodes)
    requires (place.After? || place.Before?) && place.node != null ==> place.node in d.trees.nodes
    modifies d`trees, d.trees.nodes`parent, d.trees.nodes`first, d.trees.nodes`next, d.trees.nodes`prev
    ensures d.Valid() && old(d.trees).Valid()
    ensures n != null <==> (MayTake(parent, proto)
                            && (place.After? || place.Before? ==> place.node != null && old(place.node.parent) == parent))
    ensures n == null ==> d.trees == old(d.trees)
    ensures n != null ==> fresh(n) && fresh(d.trees.nodes - old(d.trees).nodes)
    ensures n != null ==> Planted(old(d.trees), n, parent, place, at, d.trees)
    ensures n != null ==> proto in old(d.trees).nodes && ShapeOf(d.trees, n) == old(ShapeOf(d.trees, proto))
  {
    var ok := MayInsert(d, parent, proto, place);
    if !ok {
      return null, 0;
    }
    ghost var t, shape := d.trees, ShapeOf(d.trees, proto);
    OwnedHeld(t);
    AllowedIsHeld(parent.kind, proto.kind);
    n, at := Plant(d, parent, proto, place);
    assert shape == ShapeOf(t, proto);
    StillOwned(t, d.trees);
  }
}
