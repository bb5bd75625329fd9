/** The document as one tree of linked nodes, and the moves within it. */
module DomTree {
  import opened DomLinks

  // ---------- trees, as values ----------

  ghost predicate Edge(kids: map<Node, seq<Node>>, p: Node, k: Node) {
    p in kids && k in kids[p]
  }

  /** A set of nodes with their children, parents, and a rank that grows from parents to
      children: the nodes form trees, whose tops are those without a parent. */
  datatype Trees = Trees(nodes: set<Node>, kids: map<Node, seq<Node>>, up: map<Node, Node>, rank: map<Node, nat>) {
    ghost predicate Valid() {
      && up.Keys <= nodes == kids.Keys == rank.Keys
      && (forall p, k {:trigger Edge(kids, p, k)} :: p in kids && k in kids[p] ==> k in up && up[k] == p)
      && (forall k {:trigger up[k]} :: k in up ==> up[k] in nodes && Edge(kids, up[k], k) && rank[up[k]] < rank[k])
    }

    /** Walking up from `n` comes to `top`. */
    ghost predicate Under(n: Node, top: Node)
      requires Valid() && n in nodes
      decreases rank[n]
    {
      n == top || (n in up && Under(up[n], top))
    }

    ghost function Detached(n: Node, at: nat): Trees
      requires n in up && up[n] in kids && at < |kids[up[n]]|
    {
      this.(kids := kids[up[n] := Remove(kids[up[n]], at)], up := up - {n})
    }

    ghost function Attached(n: Node, p: Node, at: nat): Trees
      requires Valid() && p in nodes && at <= |kids[p]|
    {
      this.(kids := kids[p := Insert(kids[p], at, n)], up := up[n := p],
            rank := map m | m in nodes :: if Under(m, n) then rank[m] + rank[p] + 1 else rank[m])
    }

    /** With a new node that stands alone. */
    ghost function Added(n: Node): Trees {
      Trees(nodes + {n}, kids[n := []], up, rank[n := 0])
    }

    /** Without the tree under `n`. */
    ghost function Dropped(n: Node): Trees
      requires Valid()
    {
      var rest := set m | m in nodes && !Under(m, n);
      Trees(rest, map m | m in rest :: kids[m], map m | m in up.Keys * rest :: up[m], map m | m in rest :: rank[m])
    }
  }

  lemma RemoveElements(ks: seq<Node>, at: nat)
    requires at < |ks| && forall i, j :: 0 <= i < j < |ks| ==> ks[i] != ks[j]
    ensures forall k :: k in Remove(ks, at) <==> k in ks && k != ks[at]
  {
    forall k | k in ks && k != ks[at] ensures k in Remove(ks, at) {
      var i :| 0 <= i < |ks| && ks[i] == k;
      assert Remove(ks, at)[if i < at then i else i - 1] == k;
    }
  }

  lemma InsertElements(ks: seq<Node>, at: nat, c: Node)
    requires at <= |ks|
    ensures forall k :: k in Insert(ks, at, c) <==> k in ks || k == c
  {
    assert Insert(ks, at, c)[at] == c;
    forall k | k in ks ensures k in Insert(ks, at, c) {
      var i :| 0 <= i < |ks| && ks[i] == k;
      assert Insert(ks, at, c)[if i < at then i else i + 1] == k;
    }
  }

  /** Cutting a tree out leaves trees, one more of them. */
  lemma DetachedValid(t: Trees, n: Node, at: nat)
    requires t.Valid() && n in t.up && at < |t.kids[t.up[n]]| && t.kids[t.up[n]][at] == n
    requires forall i, j :: 0 <= i < j < |t.kids[t.up[n]]| ==> t.kids[t.up[n]][i] != t.kids[t.up[n]][j]
    ensures t.Detached(n, at).Valid()
  {
    var p, d := t.up[n], t.Detached(n, at);
    RemoveElements(t.kids[p], at);
    forall q, k | q in d.kids && k in d.kids[q] ensures k in d.up && d.up[k] == q {
      assert Edge(t.kids, q, k);
    }
    forall k | k in d.up ensures d.up[k] in d.nodes && Edge(d.kids, d.up[k], k) {
      var q := t.up[k];
      assert Edge(t.kids, q, k) && d.up[k] == q;
      assert k in d.kids[q];
    }
  }

  lemma UnderParent(t: Trees, k: Node, top: Node)
    requires t.Valid() && k in t.up && k != top
    ensures t.Under(k, top) == t.Under(t.up[k], top)
  {
  }

  /** Hanging a tree under a node that is not in it leaves trees. */
  lemma AttachedValid(t: Trees, n: Node, p: Node, at: nat)
    requires t.Valid() && n in t.nodes && n !in t.up && p in t.nodes && !t.Under(p, n) && at <= |t.kids[p]|
    ensures t.Attached(n, p, at).Valid()
  {
    var a := t.Attached(n, p, at);
    InsertElements(t.kids[p], at, n);
    forall q, k | q in a.kids && k in a.kids[q] ensures k in a.up && a.up[k] == q {
      assert k != n || q != p ==> Edge(t.kids, q, k);
    }
    forall k | k in a.up ensures a.up[k] in a.nodes && Edge(a.kids, a.up[k], k) && a.rank[a.up[k]] < a.rank[k] {
      if k != n {
        var q := t.up[k];
        assert Edge(t.kids, q, k) && a.up[k] == q;
        assert k in a.kids[q];
        UnderParent(t, k, n);
      } else {
        assert n in a.kids[p];
      }
    }
  }

  lemma AddedValid(t: Trees, n: Node)
    requires t.Valid() && n !in t.nodes
    ensures t.Added(n).Valid()
  {
    var a := t.Added(n);
    forall q, k | q in a.kids && k in a.kids[q] ensures k in a.up && a.up[k] == q {
      assert Edge(t.kids, q, k);
    }
    forall k | k in a.up ensures a.up[k] in a.nodes && Edge(a.kids, a.up[k], k) && a.rank[a.up[k]] < a.rank[k] {
      assert Edge(t.kids, t.up[k], k);
    }
  }

  lemma {:induction false} AddedApart(t: Trees, n: Node, x: Node)
    requires t.Valid() && n !in t.nodes && t.Added(n).Valid() && x in t.nodes
    ensures !t.Added(n).Under(x, n)
    decreases t.rank[x]
  {
    if x in t.up {
      AddedApart(t, n, t.up[x]);
    }
  }

  lemma AttachedKids(t: Trees, n: Node, p: Node, at: nat)
    requires t.Valid() && n in t.nodes && n !in t.up && p in t.nodes && !t.Under(p, n) && at <= |t.kids[p]|
    ensures t.Attached(n, p, at).Valid()
    ensures forall k :: k in Insert(t.kids[p], at, n) ==> k in t.nodes
  {
    AttachedValid(t, n, p, at);
    InsertElements(t.kids[p], at, n);
    forall k | k in t.kids[p] ensures k in t.nodes {
      assert Edge(t.kids, p, k);
    }
  }

  /** A place found before a node is taken out is there afterwards. */
  lemma StillFits(t: Trees, n: Node, from: nat, p: Node, place: Place)
    requires t.Valid() && n in t.up && from < |t.kids[t.up[n]]| && t.kids[t.up[n]][from] == n && p in t.nodes
    requires t.Detached(n, from).Valid() && !t.Under(p, n) && Fits(place, t.kids[p])
    requires place.After? || place.Before? ==> place.node != n
    ensures !t.Detached(n, from).Under(p, n) && Fits(place, t.Detached(n, from).kids[p])
  {
    var d := t.Detached(n, from);
    DetachedUnder(t, n, from, p);
    if place.After? || place.Before? {
      var k := place.node;
      assert Edge(t.kids, p, k);
      assert d.up[k] == p && Edge(d.kids, d.up[k], k);
    }
  }

  /** Cutting a tree out does not change what is in it. */
  lemma {:induction false} DetachedUnder(t: Trees, n: Node, at: nat, x: Node)
    requires t.Valid() && n in t.up && at < |t.kids[t.up[n]]| && t.Detached(n, at).Valid() && x in t.nodes
    ensures t.Detached(n, at).Under(x, n) == t.Under(x, n)
    decreases t.rank[x]
  {
    if x != n && x in t.up {
      DetachedUnder(t, n, at, t.up[x]);
    }
  }

  lemma DroppedAt(t: Trees, n: Node, q: Node)
    requires t.Valid() && n in t.nodes && n !in t.up && q in t.Dropped(n).nodes
    ensures q in t.nodes && t.Dropped(n).kids[q] == t.kids[q] && (q in t.Dropped(n).up <==> q in t.up)
    ensures forall k :: k in t.kids[q] ==> k in t.Dropped(n).nodes
  {
    forall k | k in t.kids[q] ensures k in t.Dropped(n).nodes {
      assert Edge(t.kids, q, k);
      UnderParent(t, k, n);
    }
  }

  lemma DroppedValid(t: Trees, n: Node)
    requires t.Valid() && n in t.nodes && n !in t.up
    ensures t.Dropped(n).Valid()
  {
    var d := t.Dropped(n);
    forall q, k | q in d.kids && k in d.kids[q] ensures k in d.up && d.up[k] == q {
      assert Edge(t.kids, q, k) && t.up[k] == q;
      UnderParent(t, k, n);
    }
    forall k | k in d.up ensures d.up[k] in d.nodes && Edge(d.kids, d.up[k], k) && d.rank[d.up[k]] < d.rank[k] {
      var q := t.up[k];
      assert Edge(t.kids, q, k) && d.up[k] == q;
      UnderParent(t, k, n);
      assert q in d.nodes && k in d.kids[q];
    }
  }

  // ---------- places among the children ----------

  /** Where a node goes among the children of its new parent. */
  datatype Place = AtStart | AtEnd | After(node: Node?) | Before(node: Node?)

  ghost predicate Fits(place: Place, ks: seq<Node>) {
    match place
    case After(node) => node in ks
    case Before(node) => node in ks
    case _ => true
  }

  ghost predicate IsPlace(place: Place, ks: seq<Node>, at: nat) {
    && at <= |ks|
    && match place
       case AtStart => at == 0
       case AtEnd => at == |ks|
       case After(node) => at > 0 && ks[at - 1] == node
       case Before(node) => at < |ks| && ks[at] == node
  }

  /** The four ways to link a node into a list of children. */
  method Link(child: Node, parent: Node, place: Place, ghost ks: seq<Node>) returns (ghost at: nat)
    requires Children(parent, ks) && child !in ks && child.next == null && Fits(place, ks)
    modifies child`parent, child`next, child`prev, parent`first, Elements(ks)`next, Elements(ks)`prev
    ensures IsPlace(place, ks, at) && Children(parent, Insert(ks, at, child))
  {
    match place {
      case AtEnd =>
        at := |ks|;
        AppendNode(child, parent, ks);
      case AtStart =>
        at := 0;
        PrependNode(child, parent, ks);
      case After(node) =>
        ghost var j: nat :| j < |ks| && ks[j] == node;
        at := j + 1;
        InsertNodeAfter(child, node, parent, ks, j);
      case Before(node) =>
        at :| at < |ks| && ks[at] == node;
        InsertNodeBefore(child, node, parent, ks, at);
    }
  }

  method Unlink(node: Node, ghost parent: Node, ghost ks: seq<Node>, ghost at: nat)
    requires Children(parent, ks) && at < |ks| && ks[at] == node
    modifies node`parent, parent`first, Elements(ks)`next, Elements(ks)`prev
    ensures Children(parent, Remove(ks, at)) && node.parent == null && node.next == null
  {
    RemoveNode(node, parent, ks, at);
  }

  // ---------- the document ----------

  /** A node that nothing has been written to. */
  ghost predicate Blank(n: Node)
    reads n`name, n`value, n`attributes
  {
    n.name == Absent && n.value == Absent && n.attributes == []
  }

  predicate AllowInsertChild(parent: Kind, child: Kind) {
    && (parent.DocumentKind? || parent.ElementKind?)
    && !child.DocumentKind?
    && (parent.DocumentKind? || (!child.DeclarationKind? && !child.DoctypeKind?))
  }

  /** What may stand in a tree: an element holds elements, character data, comments and
      instructions; a document holds these, declarations and document types; nothing else holds
      anything, and nothing holds a document. */
  predicate MayHold(parent: Kind, child: Kind) {
    match child
    case DocumentKind => false
    case DeclarationKind => parent.DocumentKind?
    case DoctypeKind => parent.DocumentKind?
    case _ => parent.DocumentKind? || parent.ElementKind?
  }

  /** The refusals of `allow_insert_child` leave exactly that. */
  lemma AllowedIsHeld(parent: Kind, child: Kind)
    ensures AllowInsertChild(parent, child) <==> MayHold(parent, child)
  {
  }

  /** `allow_insert_child` on the kinds of two nodes; what is not there has no kind and takes
      part in nothing. */
  predicate MayTake(parent: Node?, child: Node?) {
    parent != null && child != null && AllowInsertChild(parent.kind, child.kind)
  }

  /** The tops are the document nodes, and every other node lies in the memory of the document
      that its parent belongs to, under a node that may hold it. */
  ghost predicate Owned(t: Trees) {
    forall n {:trigger OwnedAt(t, n)} :: n in t.nodes ==> OwnedAt(t, n)
  }

  ghost predicate OwnedAt(t: Trees, n: Node) {
    && (n.kind == DocumentKind <==> n !in t.up)
    && (n.owner == null <==> n !in t.up)
    && (n in t.up ==> n.Root() == t.up[n].Root() && MayHold(t.up[n].kind, n.kind))
  }

  /** Walking up leads to the document that the node belongs to: every document is one tree. */
  lemma {:induction false} UnderRoot(t: Trees, n: Node)
    requires t.Valid() && Owned(t) && n in t.nodes
    ensures t.Under(n, n.Root()) && n.Root() in t.nodes && n.Root().kind == DocumentKind
    decreases t.rank[n]
  {
    assert OwnedAt(t, n);
    if n in t.up {
      UnderRoot(t, t.up[n]);
    }
  }

  /** The documents there are. */
  class Store {
    ghost var trees: Trees

    /** The links of the nodes say what `trees` says. */
    ghost predicate Mirrors()
      reads this`trees, trees.nodes`parent, trees.nodes`first, trees.nodes`next, trees.nodes`prev
    {
      && trees.Valid()
      && forall p {:trigger MirrorsAt(p)} :: p in trees.nodes ==> MirrorsAt(p)
    }

    ghost predicate MirrorsAt(p: Node)
      requires trees.Valid() && p in trees.nodes
      reads this`trees, trees.nodes`parent, trees.nodes`first, trees.nodes`next, trees.nodes`prev
    {
      && (forall k :: k in trees.kids[p] ==> k in trees.nodes)
      && Children(p, trees.kids[p])
      && (if p in trees.up then p.parent == trees.up[p] else p.parent == null && p.next == null)
    }

    ghost predicate Valid()
      reads this`trees, trees.nodes`parent, trees.nodes`first, trees.nodes`next, trees.nodes`prev
    {
      Mirrors() && Owned(trees)
    }

    constructor ()
      ensures Valid() && trees.nodes == {}
    {
      trees := Trees({}, map[], map[], map[]);
    }

    /** The children of a node have it for their parent, and no other node has them. */
    lemma KidsOf(p: Node)
      requires trees.Valid() && p in trees.nodes
      ensures forall k :: k in trees.kids[p] ==> k in trees.up && trees.up[k] == p
    {
      forall k | k in trees.kids[p] ensures k in trees.up && trees.up[k] == p {
        assert Edge(trees.kids, p, k);
      }
    }

    lemma KidsApart(p: Node, q: Node, i: nat)
      requires trees.Valid() && p in trees.nodes && q in trees.nodes && p != q && i < |trees.kids[q]|
      ensures trees.kids[q][i] !in trees.kids[p] && trees.kids[q][i] in trees.up
    {
      assert Edge(trees.kids, q, trees.kids[q][i]);
      KidsOf(p);
    }

    /** Everything but the list of the children of `p` is linked as it was. */
    ghost predicate OthersMirror(p: Node, n: Node)
      requires trees.Valid() && p in trees.nodes
      reads this`trees, trees.nodes`parent, trees.nodes`first, trees.nodes`next, trees.nodes`prev
    {
      forall q {:trigger MirrorsOther(q, n)} :: q in trees.nodes && q != p ==> MirrorsOther(q, n)
    }

    /** The links of `q`, but for those that say where `n` stands. */
    ghost predicate MirrorsOther(q: Node, n: Node)
      requires trees.Valid() && q in trees.nodes
      reads this`trees, trees.nodes`parent, trees.nodes`first, trees.nodes`next, trees.nodes`prev
    {
      && (forall k :: k in trees.kids[q] ==> k in trees.nodes)
      && Children(q, trees.kids[q])
      && (q != n ==> if q in trees.up then q.parent == trees.up[q] else q.parent == null && q.next == null)
    }

    method CutOut(node: Node, ghost p: Node, ghost at: nat)
      requires Mirrors() && node in trees.up && p == trees.up[node] && at < |trees.kids[p]| && trees.kids[p][at] == node
      modifies trees.nodes`parent, trees.nodes`first, trees.nodes`next, trees.nodes`prev
      ensures Children(p, Remove(trees.kids[p], at)) && OthersMirror(p, node)
      ensures node.parent == null && node.next == null && p.parent == old(p.parent) && p.next == old(p.next)
    {
      ghost var ks := trees.kids[p];
      KidsOf(p);
      assert MirrorsAt(p) && MirrorsAt(node);
      assert p !in ks;
      Unlink(node, p, ks, at);
      forall q | q in trees.nodes && q != p ensures MirrorsOther(q, node) {
        assert old(MirrorsAt(q));
        forall i: nat | i < |trees.kids[q]| ensures Linked(q, trees.kids[q], i) {
          assert old(Linked(q, trees.kids[q], i));
          KidsApart(p, q, i);
        }
      }
    }

    method Detach(node: Node) returns (ghost at: nat)
      requires Mirrors() && node in trees.up
      modifies this`trees, trees.nodes`parent, trees.nodes`first, trees.nodes`next, trees.nodes`prev
      ensures Mirrors() && node in old(trees).up
      ensures var t := old(trees); var p := t.up[node];
        p in t.kids && at < |t.kids[p]| && t.kids[p][at] == node && trees == t.Detached(node, at)
    {
      ghost var t := trees;
      ghost var p := t.up[node];
      assert Edge(t.kids, p, node) && MirrorsAt(p);
      at :| at < |t.kids[p]| && t.kids[p][at] == node;
      DetachedValid(t, node, at);
      RemoveElements(t.kids[p], at);
      CutOut(node, p, at);
      label Cut:
      trees := t.Detached(node, at);
      forall q | q in trees.nodes ensures MirrorsAt(q) {
        if q != p {
          assert old@Cut(MirrorsOther(q, node));
        }
      }
    }

    method PutIn(child: Node, parent: Node, place: Place) returns (ghost at: nat)
      requires Mirrors() && child in trees.nodes && child !in trees.up && parent in trees.nodes && parent != child
      requires Fits(place, trees.kids[parent])
      modifies trees.nodes`parent, trees.nodes`first, trees.nodes`next, trees.nodes`prev
      ensures IsPlace(place, trees.kids[parent], at) && Children(parent, Insert(trees.kids[parent], at, child))
      ensures OthersMirror(parent, child)
      ensures child.parent == parent && parent.parent == old(parent.parent) && parent.next == old(parent.next)
    {
      ghost var ks := trees.kids[parent];
      KidsOf(parent);
      assert MirrorsAt(parent) && MirrorsAt(child);
      assert parent !in ks;
      at := Link(child, parent, place, ks);
      assert Linked(parent, Insert(ks, at, child), at);
      forall q | q in trees.nodes && q != parent ensures MirrorsOther(q, child) {
        assert old(MirrorsAt(q));
        forall i: nat | i < |trees.kids[q]| ensures Linked(q, trees.kids[q], i) {
          assert old(Linked(q, trees.kids[q], i));
          KidsApart(parent, q, i);
        }
      }
    }

    method Attach(child: Node, parent: Node, place: Place) returns (ghost at: nat)
      requires Mirrors() && child in trees.nodes && child !in trees.up && parent in trees.nodes
      requires !trees.Under(parent, child) && Fits(place, trees.kids[parent])
      modifies this`trees, trees.nodes`parent, trees.nodes`first, trees.nodes`next, trees.nodes`prev
      ensures Mirrors() && old(trees).Valid() && parent in old(trees).nodes
      ensures IsPlace(place, old(trees).kids[parent], at) && trees == old(trees).Attached(child, parent, at)
    {
      ghost var t := trees;
      assert MirrorsAt(parent);
      at := PutIn(child, parent, place);
      AttachedKids(t, child, parent, at);
      label Put:
      trees := t.Attached(child, parent, at);
      forall q | q in trees.nodes ensures MirrorsAt(q) {
        if q != parent {
          assert old@Put(MirrorsOther(q, child));
        }
      }
    }

    /** `allow_move`: the kinds allow it, the nodes are of one document, and the new parent is
        not the node itself or below it. */
    method AllowMove(parent: Node?, child: Node?) returns (ok: bool)
      requires Valid() && (parent != null ==> parent in trees.nodes) && (child != null ==> child in trees.nodes)
      ensures ok <==> MayTake(parent, child) && parent.Root() == child.Root() && !trees.Under(parent, child)
    {
      if !MayTake(parent, child) {
        return false;
      }
      if parent.Root() != child.Root() {
        return false;
      }
      var cur: Node? := parent;
      while cur != null
        invariant cur != null ==> cur in trees.nodes && trees.Under(parent, child) == trees.Under(cur, child)
        invariant cur == null ==> !trees.Under(parent, child)
        decreases if cur == null then 0 else trees.rank[cur] + 1
      {
        if cur == child {
          return false;
        }
        assert MirrorsAt(cur);
        cur := cur.parent;
      }
      return true;
    }

    /** The four moves. A move that is allowed takes the node with all below it out of its
        list and puts it at its new place; one that is not leaves everything as it is. Either
        way the documents remain trees of the same nodes. */
    method Move(parent: Node?, moved: Node?, place: Place) returns (ok: bool, ghost from: nat, ghost at: nat)
      requires Valid() && (parent != null ==> parent in trees.nodes) && (moved != null ==> moved in trees.nodes)
      requires (place.After? || place.Before?) && place.node != null ==> place.node in trees.nodes
      modifies this`trees, trees.nodes`parent, trees.nodes`first, trees.nodes`next, trees.nodes`prev
      ensures Valid() && trees.nodes == old(trees).nodes
      ensures ok <==> (MayTake(parent, moved) && parent.Root() == moved.Root() && !old(trees.Under(parent, moved))
                       && (place.After? || place.Before? ==>
                             place.node != null && old(place.node.parent) == parent && place.node != moved))
      ensures !ok ==> trees == old(trees)
      ensures ok ==> Moved(old(trees), moved, from, parent, place, at, trees)
    {
      from, at := 0, 0;
      ok := AllowMove(parent, moved);
      if !ok {
        return;
      }
      if place.After? || place.Before? {
        if place.node == null || place.node.parent != parent || place.node == moved {
          ok := false;
          return;
        }
        ChildFits(parent, place.node);
      }
      assert OwnedAt(trees, moved);
      AllowedIsHeld(parent.kind, moved.kind);
      from, at := Relocate(parent, moved, place);
      MovedOwned(old(trees), moved, from, parent, place, at, trees);
    }

    /** Whoever has a node for its parent is among its children. */
    lemma ChildFits(parent: Node, node: Node)
      requires Mirrors() && parent in trees.nodes && node in trees.nodes && node.parent == parent
      ensures node in trees.kids[parent]
    {
      assert MirrorsAt(node);
      assert Edge(trees.kids, parent, node);
    }

    /** `append_child` and its companions: a new node, where its kind may stand. */
    method AddChild(parent: Node?, kind: Kind, place: Place) returns (child: Node?, ghost at: nat)
      requires Valid() && (parent != null ==> parent in trees.nodes)
      requires (place.After? || place.Before?) && place.node != null ==> place.node in trees.nodes
      modifies this`trees, trees.nodes`parent, trees.nodes`first, trees.nodes`next, trees.nodes`prev
      ensures Valid()
      ensures child != null <==> (parent != null && AllowInsertChild(parent.kind, kind)
                                  && (place.After? || place.Before? ==> place.node != null && old(place.node.parent) == parent))
      ensures child == null ==> trees == old(trees)
      ensures child != null ==> fresh(child) && child.kind == kind && Blank(child) && Grown(old(trees), child, parent, place, at, trees)
    {
      at := 0;
      if parent == null || !AllowInsertChild(parent.kind, kind) {
        return null, 0;
      }
      if place.After? || place.Before? {
        if place.node == null || place.node.parent != parent {
          return null, 0;
        }
        ChildFits(parent, place.node);
      }
      AllowedIsHeld(parent.kind, kind);
      child, at := Hang(parent, kind, place);
      GrownOwned(old(trees), child, parent, place, at, trees);
    }

    method Hang(parent: Node, kind: Kind, place: Place) returns (n: Node, ghost at: nat)
      requires Mirrors() && parent in trees.nodes && Fits(place, trees.kids[parent])
      modifies this`trees, trees.nodes`parent, trees.nodes`first, trees.nodes`next, trees.nodes`prev
      ensures Mirrors() && fresh(n) && n.kind == kind && n.owner == parent.Root() && Blank(n) && Grown(old(trees), n, parent, place, at, trees)
    {
      ghost var t := trees;
      n := Allocate(kind, parent.Root());
      AddedApart(t, n, parent);
      at := Attach(n, parent, place);
    }

    /** A new document. */
    method NewDocument() returns (n: Node)
      requires Valid()
      modifies this`trees
      ensures Valid() && fresh(n) && n.kind == DocumentKind && n !in old(trees).nodes && trees == old(trees).Added(n)
    {
      n := Allocate(DocumentKind, null);
      forall m | m in trees.nodes ensures OwnedAt(trees, m) {
        assert m != n ==> OwnedAt(old(trees), m);
      }
    }

    /** `allocate_node`: a node that is in no list yet. */
    method Allocate(kind: Kind, owner: Node?) returns (n: Node)
      requires Mirrors()
      modifies this`trees
      ensures fresh(n) && n.kind == kind && n.owner == owner && Blank(n) && n !in old(trees).nodes && Mirrors() && trees == old(trees).Added(n)
    {
      n := new Node(kind, owner);
      AddedValid(trees, n);
      ghost var t := trees;
      forall q | q in t.nodes ensures MirrorsAt(q) && q != n {
      }
      label New:
      trees := t.Added(n);
      forall q | q in trees.nodes ensures MirrorsAt(q) {
        assert q != n ==> old@New(MirrorsAt(q));
      }
    }

    /** `remove_child`: the node goes, with all below it. */
    method RemoveChild(parent: Node?, node: Node?) returns (ok: bool, ghost at: nat)
      requires Valid() && (parent != null ==> parent in trees.nodes) && (node != null ==> node in trees.nodes)
      modifies this`trees, trees.nodes`parent, trees.nodes`first, trees.nodes`next, trees.nodes`prev
      ensures Valid()
      ensures ok <==> parent != null && node != null && old(node.parent) == parent
      ensures !ok ==> trees == old(trees)
      ensures ok ==> Pruned(old(trees), node, parent, at, trees)
    {
      if parent == null || node == null || node.parent != parent {
        return false, 0;
      }
      assert MirrorsAt(node);
      at := Prune(node);
      PrunedOwned(old(trees), node, parent, at, trees);
      return true, at;
    }

    method Prune(node: Node) returns (ghost at: nat)
      requires Mirrors() && node in trees.up
      modifies this`trees, trees.nodes`parent, trees.nodes`first, trees.nodes`next, trees.nodes`prev
      ensures Mirrors() && node in old(trees).up && Pruned(old(trees), node, old(trees).up[node], at, trees)
    {
      ghost var t := trees;
      at := Detach(node);
      ghost var d := trees;
      label Cut:
      DroppedValid(d, node);
      trees := d.Dropped(node);
      forall q | q in trees.nodes ensures MirrorsAt(q) {
        DroppedAt(d, node, q);
        assert old@Cut(MirrorsAt(q));
      }
    }

    /** Cut out and put in. */
    method Relocate(parent: Node, moved: Node, place: Place) returns (ghost from: nat, ghost at: nat)
      requires Mirrors() && parent in trees.nodes && moved in trees.up && !trees.Under(parent, moved)
      requires Fits(place, trees.kids[parent]) && (place.After? || place.Before? ==> place.node != moved)
      modifies this`trees, trees.nodes`parent, trees.nodes`first, trees.nodes`next, trees.nodes`prev
      ensures Mirrors() && Moved(old(trees), moved, from, parent, place, at, trees)
    {
      ghost var t := trees;
      from := Detach(moved);
      StillFits(t, moved, from, parent, place);
      at := Attach(moved, parent, place);
    }
  }

  /** The trees `a` are the trees `t` with `n` moved from place `from` of its list to place
      `at` of the children of `p`. */
  ghost predicate Moved(t: Trees, n: Node, from: nat, p: Node, place: Place, at: nat, a: Trees) {
    && n in t.up && t.up[n] in t.kids && from < |t.kids[t.up[n]]| && t.kids[t.up[n]][from] == n
    && var d := t.Detached(n, from);
       d.Valid() && p in d.nodes && IsPlace(place, d.kids[p], at) && a == d.Attached(n, p, at)
  }

  /** The trees `a` are the trees `t` with the new node `n` at place `at` of the children of
      `p`. */
  ghost predicate Grown(t: Trees, n: Node, p: Node, place: Place, at: nat, a: Trees) {
    && n !in t.nodes
    && var d := t.Added(n);
       d.Valid() && p in t.nodes && IsPlace(place, d.kids[p], at) && a == d.Attached(n, p, at)
  }

  /** The trees `a` are the trees `t` without child number `at` of `p`, and without anything
      below it. */
  ghost predicate Pruned(t: Trees, n: Node, p: Node, at: nat, a: Trees) {
    && n in t.up && t.up[n] == p && p in t.kids && at < |t.kids[p]| && t.kids[p][at] == n
    && var d := t.Detached(n, at);
       d.Valid() && a == d.Dropped(n)
  }

  lemma MovedOwned(t: Trees, n: Node, from: nat, p: Node, place: Place, at: nat, a: Trees)
    requires t.Valid() && Owned(t) && Moved(t, n, from, p, place, at, a) && n.Root() == p.Root()
    requires MayHold(p.kind, n.kind)
    ensures a.nodes == t.nodes && Owned(a)
  {
    forall m | m in a.nodes ensures OwnedAt(a, m) {
      assert OwnedAt(t, m);
    }
  }

  lemma GrownOwned(t: Trees, n: Node, p: Node, place: Place, at: nat, a: Trees)
    requires t.Valid() && Owned(t) && Grown(t, n, p, place, at, a) && MayHold(p.kind, n.kind) && n.owner == p.Root()
    ensures a.nodes == t.nodes + {n} && Owned(a)
  {
    forall m | m in a.nodes ensures OwnedAt(a, m) {
      assert m != n ==> OwnedAt(t, m);
    }
  }

  lemma PrunedOwned(t: Trees, n: Node, p: Node, at: nat, a: Trees)
    requires t.Valid() && Owned(t) && Pruned(t, n, p, at, a) && a.Valid()
    ensures Owned(a)
  {
    var d := t.Detached(n, at);
    forall m | m in a.nodes ensures OwnedAt(a, m) {
      assert OwnedAt(t, m);
      if m in d.up {
        UnderParent(d, m, n);
      }
    }
  }
}
