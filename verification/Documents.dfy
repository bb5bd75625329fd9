/**
  A collection of parsed documents as XPath sees it: node data by address, and the
  links from node to node (parent, first child, next sibling, and the previous-sibling
  link, which is cyclic: on a first child it leads to the last).
 */
module Documents {
  import opened DocumentOrder

  datatype Option<+T> = None | Some(value: T)

  datatype NodeKind =
    DocumentNode | Element | Pcdata | Cdata | Comment | Pi | Declaration | Doctype

  datatype Attribute = Attribute(name: string, value: string)

  /** A name or value that the source stores as a null pointer is the empty string here. */
  datatype NodeData = NodeData(kind: NodeKind, name: string, value: string,
                               attributes: seq<Attribute>, arity: nat)

  type Forest = map<Path, NodeData>

  function ParentPath(p: Path): Path
    requires p != []
  {
    p[..|p| - 1]
  }

  function LastIndex(p: Path): nat
    requires p != []
  {
    p[|p| - 1]
  }

  /** An address is that of a document, or of one of the children its parent says it has. */
  ghost predicate NodeOk(d: Forest, p: Path)
    requires p in d
  {
    && p != []
    && (|p| > 1 ==> ParentPath(p) in d && LastIndex(p) < d[ParentPath(p)].arity)
    && (forall k: nat {:trigger p + [k]} :: k < d[p].arity ==> p + [k] in d)
  }

  ghost predicate WellFormed(d: Forest) {
    forall p {:trigger NodeOk(d, p)} :: p in d ==> NodeOk(d, p)
  }

  function Parent(d: Forest, p: Path): (r: Option<Path>)
    requires p in d && p != []
  {
    if |p| > 1 then Some(ParentPath(p)) else None
  }

  function FirstChild(d: Forest, p: Path): (r: Option<Path>)
    requires p in d
  {
    if d[p].arity > 0 then Some(p + [0]) else None
  }

  function NextSibling(d: Forest, p: Path): (r: Option<Path>)
    requires p in d && p != []
    requires |p| > 1 ==> ParentPath(p) in d
  {
    if |p| > 1 && LastIndex(p) + 1 < d[ParentPath(p)].arity
    then Some(ParentPath(p) + [LastIndex(p) + 1]) else None
  }

  /** The cyclic previous-sibling link; a document is its own. */
  function PrevSiblingCyclic(d: Forest, p: Path): (r: Path)
    requires p in d && p != []
    requires |p| > 1 ==> ParentPath(p) in d && d[ParentPath(p)].arity > 0
  {
    if |p| == 1 then p
    else if LastIndex(p) > 0 then ParentPath(p) + [LastIndex(p) - 1]
    else ParentPath(p) + [d[ParentPath(p)].arity - 1]
  }

  lemma PathSplit(p: Path)
    requires p != []
    ensures p == ParentPath(p) + [LastIndex(p)]
    ensures ParentPath(p) < p
  {
  }

  /** Every prefix of an address is an address. */
  lemma {:induction false} AncestorsPresent(d: Forest, p: Path, a: Path)
    requires WellFormed(d) && p in d && a <= p && a != []
    ensures a in d
    decreases |p|
  {
    if a != p {
      assert NodeOk(d, p) && a <= ParentPath(p);
      AncestorsPresent(d, ParentPath(p), a);
    }
  }

  // ----- Where the links lead in document order -----

  /** The tree nodes before `p`. */
  ghost function Earlier(d: Forest, p: Path): set<XNode> {
    set q | q in d && Lex(q, p) :: Tree(q)
  }

  /** The tree nodes before `p`, `p` itself and its descendants. */
  ghost function Through(d: Forest, p: Path): set<XNode> {
    set q | q in d && (Lex(q, p) || p <= q) :: Tree(q)
  }

  /** The tree nodes after `p`, its descendants included. */
  ghost function Later(d: Forest, p: Path): set<XNode> {
    set q | q in d && Lex(p, q) :: Tree(q)
  }

  /** The tree nodes after `p` and after its descendants. */
  ghost function Beyond(d: Forest, p: Path): set<XNode> {
    set q | q in d && Lex(p, q) && !(p <= q) :: Tree(q)
  }

  lemma LaterShrinks(d: Forest, p: Path, q: Path)
    requires q in d && Lex(p, q)
    ensures Later(d, q) < Later(d, p)
  {
    LexTotal(q, q);
    assert Tree(q) in Later(d, p) && Tree(q) !in Later(d, q);
    forall r | r in d && Lex(q, r) ensures Lex(p, r) { LexTransitive(p, q, r); }
  }

  lemma EarlierShrinks(d: Forest, p: Path, q: Path)
    requires q in d && Lex(q, p)
    ensures Earlier(d, q) < Earlier(d, p)
  {
    LexTotal(q, q);
    assert Tree(q) in Earlier(d, p) && Tree(q) !in Earlier(d, q);
    forall r | r in d && Lex(r, q) ensures Lex(r, p) { LexTransitive(r, q, p); }
  }

  /** A first child follows immediately on its parent. */
  lemma FirstChildIsNext(d: Forest, p: Path)
    requires p + [0] in d && p in d
    ensures Earlier(d, p + [0]) == Earlier(d, p) + {Tree(p)}
    ensures Later(d, p) == Later(d, p + [0]) + {Tree(p + [0])}
  {
    var c := p + [0];
    LexPrefix(p, c);
    forall q | q in d
      ensures Lex(q, c) <==> Lex(q, p) || q == p
      ensures Lex(p, q) <==> Lex(c, q) || q == c
    {
      LexTotal(q, c);
      LexTotal(q, p);
      if Lex(q, p) { LexTransitive(q, p, c); }
      if Lex(c, q) { LexTransitive(p, c, q); }
      if Lex(p, q) && q != c {
        var k := LexCases(p, q);
        if k == |p| {
          assert c[..k] == p == q[..k];
          if q[k] == 0 {
            assert c == q[..k + 1];
            LexPrefix(c, q);
          } else {
            LexDiverge(c, q, k);
          }
        } else {
          assert c[..k] == p[..k];
          LexDiverge(c, q, k);
        }
      }
    }
  }

  /** The way down to a descendant starts with one of the node's children. */
  lemma ChildToward(d: Forest, p: Path, q: Path)
    requires WellFormed(d) && q in d && p < q && p != []
    ensures p in d && q[|p|] < d[p].arity && p + [q[|p|]] in d && p + [q[|p|]] <= q
  {
    var c := q[..|p| + 1];
    assert c == p + [q[|p|]];
    AncestorsPresent(d, q, c);
    assert NodeOk(d, c) && ParentPath(c) == p;
  }

  lemma LeafThrough(d: Forest, p: Path)
    requires WellFormed(d) && p in d && d[p].arity == 0
    ensures Through(d, p) == Earlier(d, p) + {Tree(p)}
    ensures Beyond(d, p) == Later(d, p)
  {
    LexTotal(p, p);
    assert NodeOk(d, p);
    forall q | q in d && p <= q ensures q == p {
      if p < q { ChildToward(d, p, q); }
    }
  }

  lemma NextSiblingAfter(p: Path, n: Path, q: Path)
    requires p != [] && n == ParentPath(p) + [LastIndex(p) + 1]
    requires Lex(p, q) && !(p <= q)
    ensures q == n || Lex(n, q)
  {
    var m := |p| - 1;
    var k := LexCases(p, q);
    assert n[..k] == p[..k];
    if k == m && q[k] == n[k] {
      assert n == q[..m + 1];
      if q != n { LexPrefix(n, q); }
    } else {
      LexDiverge(n, q, k);
    }
  }

  lemma NextSiblingSplits(p: Path, n: Path, q: Path)
    requires p != [] && n == ParentPath(p) + [LastIndex(p) + 1]
    ensures Lex(p, n)
    ensures Lex(q, n) <==> Lex(q, p) || p <= q
    ensures (Lex(n, q) || q == n) <==> Lex(p, q) && !(p <= q)
  {
    var m := |p| - 1;
    assert n[..m] == p[..m];
    LexDiverge(p, n, m);
    LexTotal(q, n);
    LexTotal(q, p);
    if Lex(q, p) {
      LexTransitive(q, p, n);
      if p <= q { LexTotal(p, q); if p != q { LexPrefix(p, q); } }
    } else if p <= q {
      assert q[..m] == p[..m] && q[m] == p[m];
      LexDiverge(q, n, m);
    } else {
      NextSiblingAfter(p, n, q);
    }
  }

  /** A node's next sibling follows immediately on the node's descendants. */
  lemma NextSiblingIsNext(d: Forest, p: Path, n: Path)
    requires p in d && n in d && p != []
    requires n == ParentPath(p) + [LastIndex(p) + 1]
    ensures Earlier(d, n) == Through(d, p)
    ensures Later(d, n) + {Tree(n)} == Beyond(d, p)
    ensures Lex(p, n)
  {
    forall q ensures Lex(q, n) <==> Lex(q, p) || p <= q
             ensures (Lex(n, q) || q == n) <==> Lex(p, q) && !(p <= q) {
      NextSiblingSplits(p, n, q);
    }
    NextSiblingSplits(p, n, p);
  }

  lemma LastChildCovers(d: Forest, p: Path, q: Path)
    requires WellFormed(d) && p in d && q in d && |p| > 1 && ParentPath(p) in d
    requires LastIndex(p) + 1 == d[ParentPath(p)].arity
    requires ParentPath(p) <= q
    ensures Lex(q, p) || p <= q
  {
    var u := ParentPath(p);
    if u == q {
      LexPrefix(u, p);
    } else {
      ChildToward(d, u, q);
      if q[|u|] < LastIndex(p) {
        LexDiverge(q, p, |u|);
      }
    }
  }

  /** What comes after a node but not below it comes after the node's descendants. */
  lemma DivergeBelow(u: Path, q: Path, p: Path)
    requires Lex(u, q) && !(u <= q) && u <= p
    ensures Lex(p, q) && !(p <= q)
  {
    var k := LexCases(u, q);
    assert p[..k] == u[..k];
    LexDiverge(p, q, k);
  }

  /** When a last child's descendants are done, so are its parent's. */
  lemma LastChildCloses(d: Forest, p: Path)
    requires WellFormed(d) && p in d && |p| > 1 && ParentPath(p) in d
    requires LastIndex(p) + 1 == d[ParentPath(p)].arity
    ensures Through(d, ParentPath(p)) == Through(d, p)
    ensures Beyond(d, ParentPath(p)) == Beyond(d, p)
  {
    var u := ParentPath(p);
    forall q | q in d
      ensures (Lex(q, u) || u <= q) <==> (Lex(q, p) || p <= q)
      ensures Lex(u, q) && !(u <= q) <==> Lex(p, q) && !(p <= q)
    {
      LastChildSplits(d, p, q);
    }
  }

  lemma LastChildSplits(d: Forest, p: Path, q: Path)
    requires WellFormed(d) && p in d && q in d && |p| > 1 && ParentPath(p) in d
    requires LastIndex(p) + 1 == d[ParentPath(p)].arity
    ensures var u := ParentPath(p);
            && ((Lex(q, u) || u <= q) <==> (Lex(q, p) || p <= q))
            && (Lex(u, q) && !(u <= q) <==> Lex(p, q) && !(p <= q))
  {
    var u := ParentPath(p);
    PrefixOrLater(u, q);
    PrefixOrLater(p, q);
    if u <= q {
      LastChildCovers(d, p, q);
    } else if Lex(q, u) {
      LexPrefix(u, p);
      LexTransitive(q, u, p);
    } else {
      DivergeBelow(u, q, p);
    }
  }

  lemma PrefixOrLater(p: Path, q: Path)
    ensures p <= q ==> !Lex(q, p)
    ensures Lex(q, p) || p <= q || Lex(p, q)
    ensures !(Lex(q, p) && Lex(p, q))
  {
    LexTotal(p, q);
    if p < q { LexPrefix(p, q); }
  }
}
