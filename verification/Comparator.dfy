/**
  Comparing two nodes in document order by climbing to where their ancestors part, with a
  shortcut through the addresses of their text in the parse buffer.
 */
module Comparator {
  import opened DocumentOrder
  import opened Documents
  import opened Axes

  /** Which of two siblings comes first; for documents, which one is listed first. */
  method NodeIsBeforeSibling(d: Forest, ln: Path, rn: Path) returns (before: bool)
    requires WellFormed(d) && ln in d && rn in d && ln != [] && rn != [] && ln != rn
    requires Parent(d, ln) == Parent(d, rn)
    ensures before == Lex(ln, rn)
  {
    assert NodeOk(d, ln) && NodeOk(d, rn);
    if Parent(d, ln).None? {
      assert ln == [ln[0]] && rn == [rn[0]];
      return ln[0] < rn[0];
    }
    var u := ParentPath(ln);
    assert NodeOk(d, u) && ParentPath(rn) == u;
    SiblingOrder(ln, rn);
    SiblingOrder(rn, ln);
    PathSplit(ln);
    PathSplit(rn);
    var ls, rs := Some(ln), Some(rn);
    ghost var k := 0;
    while ls.Some? && rs.Some?
      invariant ls == SiblingAt(d, u, LastIndex(ln) + k) && rs == SiblingAt(d, u, LastIndex(rn) + k)
      invariant ls.Some? ==> ls.value in d
      invariant rs.Some? ==> rs.value in d
      invariant LastIndex(ln) < LastIndex(rn) ==> LastIndex(ln) + k <= LastIndex(rn)
      invariant LastIndex(rn) < LastIndex(ln) ==> LastIndex(rn) + k <= LastIndex(ln)
      invariant LastIndex(ln) + k <= d[u].arity && LastIndex(rn) + k <= d[u].arity
      decreases d[u].arity - (LastIndex(ln) + k)
    {
      if ls == Some(rn) { return true; }
      if rs == Some(ln) { return false; }
      NextSiblingAt(d, u, LastIndex(ln) + k);
      NextSiblingAt(d, u, LastIndex(rn) + k);
      ls := NextSibling(d, ls.value);
      rs := NextSibling(d, rs.value);
      k := k + 1;
    }
    return rs.None?;
  }

  function SiblingAt(d: Forest, u: Path, k: nat): Option<Path>
    requires u in d
  {
    if k < d[u].arity then Some(u + [k]) else None
  }

  lemma NextSiblingAt(d: Forest, u: Path, k: nat)
    requires WellFormed(d) && u in d && k < d[u].arity
    ensures u + [k] in d && u + [k] != [] && |u + [k]| > 1 && ParentPath(u + [k]) == u && LastIndex(u + [k]) == k
    ensures NextSibling(d, u + [k]) == SiblingAt(d, u, k + 1)
    ensures k + 1 < d[u].arity ==> u + [k + 1] in d
  {
    assert NodeOk(d, u);
    assert u + [k] in d;
    assert ParentPath(u + [k]) == u;
  }

  /** The node `k` levels above `p`, if there is one. */
  function Up(p: Path, k: nat): Option<Path> {
    if k < |p| then Some(p[..|p| - k]) else None
  }

  lemma UpParent(d: Forest, p: Path, k: nat)
    requires WellFormed(d) && p in d && k < |p|
    ensures Up(p, k).value in d && Up(p, k).value != [] && Parent(d, Up(p, k).value) == Up(p, k + 1)
  {
    AncestorsPresent(d, p, p[..|p| - k]);
    if k + 1 < |p| { assert ParentPath(p[..|p| - k]) == p[..|p| - k - 1]; }
  }

  /** Where two paths of one length part decides the order of everything below. */
  lemma OrderAbove(p: Path, q: Path, k: nat)
    requires |p| == |q| && k < |p| && p[..|p| - k] != q[..|q| - k]
    ensures Lex(p, q) <==> Lex(p[..|p| - k], q[..|q| - k])
  {
    OrderBelow(p[..|p| - k], q[..|q| - k], p, q);
  }

  lemma OrderBelow(a: Path, b: Path, p: Path, q: Path)
    requires |a| == |b| && a != b && a <= p && b <= q
    ensures Lex(p, q) <==> Lex(a, b)
    ensures p != q
  {
    LexTotal(a, b);
    LexTotal(p, q);
    assert p == a + p[|a|..] && q == b + q[|b|..];
    if Lex(a, b) {
      LexExtend(a, b, p[|a|..], q[|b|..]);
    } else {
      LexExtend(b, a, q[|b|..], p[|a|..]);
    }
  }

  /** Climbs both chains until the parents agree; the siblings found decide. */
  method ClimbToSiblings(d: Forest, ln: Path, rn: Path) returns (before: bool)
    requires WellFormed(d) && ln in d && rn in d && ln != rn && |ln| == |rn|
    ensures before == Lex(ln, rn)
  {
    var l, r := ln, rn;
    ghost var k := 0;
    assert NodeOk(d, ln) && NodeOk(d, rn);
    while Parent(d, l) != Parent(d, r)
      invariant k < |ln| && l == ln[..|ln| - k] && r == rn[..|rn| - k] && l != r
      invariant l in d && r in d && l != [] && r != []
      decreases |l|
    {
      UpParent(d, ln, k);
      UpParent(d, rn, k);
      l, r := ParentPath(l), ParentPath(r);
      k := k + 1;
      UpParent(d, ln, k);
      UpParent(d, rn, k);
    }
    OrderAbove(ln, rn, k);
    before := NodeIsBeforeSibling(d, l, r);
  }

  /** Preorder comparison of two different nodes. */
  method NodeIsBefore(d: Forest, left: Path, right: Path) returns (before: bool)
    requires WellFormed(d) && left in d && right in d && left != right
    ensures before == Lex(left, right)
  {
    var ln, rn := left, right;
    var lp, rp := Some(ln), Some(rn);
    ghost var k := 0;
    assert NodeOk(d, ln) && NodeOk(d, rn) && ln[..|ln|] == ln && rn[..|rn|] == rn;
    while lp.Some? && rp.Some? && Parent(d, lp.value) != Parent(d, rp.value)
      invariant lp == Up(ln, k) && rp == Up(rn, k) && k <= |ln| && k <= |rn|
      invariant lp.Some? ==> lp.value in d && lp.value != []
      invariant rp.Some? ==> rp.value in d && rp.value != []
      invariant lp.Some? && rp.Some? ==> lp != rp
      decreases |ln| - k
    {
      UpParent(d, ln, k);
      UpParent(d, rn, k);
      lp, rp := Parent(d, lp.value), Parent(d, rp.value);
      k := k + 1;
      if lp.Some? { UpParent(d, ln, k); }
      if rp.Some? { UpParent(d, rn, k); }
    }
    // the parents are the same
    if lp.Some? && rp.Some? {
      SameParents(d, lp.value, rp.value);
      OrderBelow(lp.value, rp.value, ln, rn);
      before := NodeIsBeforeSibling(d, lp.value, rp.value);
      return;
    }
    // different depths: bring both to the smaller one
    var leftHigher := lp.None?;
    ln := Raise(d, left, lp, k);
    rn := Raise(d, right, rp, k);
    if ln == rn {
      if leftHigher { LexPrefix(left, right); } else { LexPrefix(right, left); LexTotal(left, right); }
      return leftHigher;
    }
    before := ClimbToSiblings(d, ln, rn);
    OrderBelow(ln, rn, left, right);
  }

  lemma SameParents(d: Forest, l: Path, r: Path)
    requires WellFormed(d) && l in d && r in d && l != [] && r != [] && Parent(d, l) == Parent(d, r)
    ensures |l| == |r|
  {
  }

  /** Moves `node` up as long as `above` still has ancestors. */
  method Raise(d: Forest, start: Path, above: Option<Path>, ghost k: nat) returns (node: Path)
    requires WellFormed(d) && start in d && 0 < k <= |start| && above == Up(start, k)
    ensures node in d && node == start[..k]
  {
    var p := above;
    node := start;
    ghost var j := 0;
    if k < |start| { UpParent(d, start, k); }
    while p.Some?
      invariant j <= |start| - k && p == Up(start, k + j) && node == start[..|start| - j]
      invariant p.Some? ==> p.value in d && p.value != []
      invariant node in d && node != []
      decreases |start| - j
    {
      UpParent(d, start, k + j);
      UpParent(d, start, j);
      UpParent(d, start, j + 1);
      if k + j + 1 < |start| { UpParent(d, start, k + j + 1); }
      p := Parent(d, p.value);
      node := ParentPath(node);
      j := j + 1;
    }
  }

  // ----- The comparator -----

  /** The place in the parse buffer by which a node may be ordered, if it has one. */
  type BufferOrder = XNode -> Option<nat>

  /** Buffer addresses, where they are used, agree with document order. */
  ghost predicate Faithful(d: Forest, buffer: BufferOrder) {
    forall x, y :: ValidNode(d, x) && ValidNode(d, y) && x != y && buffer(x).Some? && buffer(y).Some? ==>
      (buffer(x).value < buffer(y).value <==> Before(x, y))
  }

  /** What the comparator answers: document order, but for a node compared with itself. */
  function Compares(buffer: BufferOrder): (XNode, XNode) -> bool {
    (x: XNode, y: XNode) => if x == y then x.Attr? && buffer(x).None? else Before(x, y)
  }

  /** Attributes of one node: the list from the left one on contains the right one or not. */
  method AttributeIsBefore(d: Forest, p: Path, i: nat, j: nat) returns (before: bool)
    requires p in d && i < |d[p].attributes| && j < |d[p].attributes|
    ensures before == (i <= j)
  {
    var a := i;
    while a < |d[p].attributes|
      invariant i <= a <= |d[p].attributes|
      invariant i <= j ==> a <= j
    {
      if a == j { return true; }
      a := a + 1;
    }
    return false;
  }

  /**
    Agrees with document order on any two different nodes, by either route.  Compared with
    itself a tree node is not before itself; an attribute without a buffer address is.
   */
  method CompareNodes(d: Forest, buffer: BufferOrder, lhs: XNode, rhs: XNode) returns (before: bool)
    requires WellFormed(d) && Faithful(d, buffer) && buffer(Nothing).None?
    requires lhs.Nothing? || ValidNode(d, lhs)
    requires rhs.Nothing? || ValidNode(d, rhs)
    ensures lhs != rhs ==> before == Before(lhs, rhs)
    ensures lhs == rhs ==> before == (lhs.Attr? && buffer(lhs).None?)
    ensures before == Compares(buffer)(lhs, rhs)
  {
    var lo, ro := buffer(lhs), buffer(rhs);
    if lo.Some? && ro.Some? {
      return lo.value < ro.value;
    }
    var ln := if lhs.Tree? then Some(lhs.path) else None;
    var rn := if rhs.Tree? then Some(rhs.path) else None;
    if lhs.Attr? && rhs.Attr? {
      if lhs.path == rhs.path {
        LexTotal(lhs.path, lhs.path);
        before := AttributeIsBefore(d, lhs.path, lhs.index, rhs.index);
        return;
      }
      ln, rn := Some(lhs.path), Some(rhs.path);
    } else if lhs.Attr? {
      if rn == Some(lhs.path) {
        LexTotal(lhs.path, lhs.path);
        return false;
      }
      ln := Some(lhs.path);
    } else if rhs.Attr? {
      if ln == Some(rhs.path) { return true; }
      rn := Some(rhs.path);
    }
    if ln == rn { return false; }
    if ln.None? || rn.None? { return ln.None?; }
    before := NodeIsBefore(d, ln.value, rn.value);
  }
}
