/**
  Nodes of XML documents and document order.

  A node is named by its address: the child indices on the way from the list of
  documents down to it, so `[k]` is the root of document `k`.  An XPath node is a tree
  node, an attribute of a tree node, or nothing.  Document order is lexicographic on
  addresses, a parent before its attributes and these before its children.
 */
module DocumentOrder {

  type Path = seq<nat>

  datatype XNode =
    | Nothing
    | Tree(path: Path)
    | Attr(path: Path, index: nat)

  /** The length of the longest common prefix. */
  function Common(p: Path, q: Path): (k: nat)
    ensures k <= |p| && k <= |q|
    ensures p[..k] == q[..k]
    ensures k == |p| || k == |q| || p[k] != q[k]
  {
    if p == [] || q == [] || p[0] != q[0] then 0
    else
      var k := Common(p[1..], q[1..]);
      assert p == [p[0]] + p[1..] && q == [q[0]] + q[1..];
      1 + k
  }

  /** Preorder on addresses. */
  predicate Lex(p: Path, q: Path) {
    q != [] && (p == [] || p[0] < q[0] || (p[0] == q[0] && Lex(p[1..], q[1..])))
  }

  lemma {:induction false} LexAt(p: Path, q: Path)
    ensures var k := Common(p, q); Lex(p, q) <==> k < |q| && (k == |p| || p[k] < q[k])
  {
    if p != [] && q != [] && p[0] == q[0] {
      LexAt(p[1..], q[1..]);
      CommonIs(p, q, 1 + Common(p[1..], q[1..]));
    }
  }

  /** A common prefix that ends in a difference is the longest one. */
  lemma CommonIs(p: Path, q: Path, k: nat)
    requires k <= |p| && k <= |q| && p[..k] == q[..k]
    requires k == |p| || k == |q| || p[k] != q[k]
    ensures Common(p, q) == k
  {
    var c := Common(p, q);
    assert forall i :: 0 <= i < k ==> p[i] == p[..k][i] == q[i];
    assert forall i :: 0 <= i < c ==> p[i] == p[..c][i] == q[i];
  }

  lemma LexTotal(p: Path, q: Path)
    ensures p != q ==> Lex(p, q) || Lex(q, p)
    ensures !(Lex(p, q) && Lex(q, p))
    ensures !Lex(p, p)
  {
    var k := Common(p, q);
    LexAt(p, q);
    LexAt(q, p);
    LexAt(p, p);
    CommonIs(q, p, k);
    CommonIs(p, p, |p|);
    if k == |p| && k == |q| {
      assert p == p[..k] == q[..k] == q;
    }
  }

  lemma LexTransitive(p: Path, q: Path, r: Path)
    requires Lex(p, q) && Lex(q, r)
    ensures Lex(p, r)
  {
    LexAt(p, q);
    LexAt(q, r);
    LexAt(p, r);
    var j, k := Common(p, q), Common(q, r);
    var m := if j < k then j else k;
    assert forall i :: 0 <= i < j ==> p[i] == p[..j][i] == q[i];
    assert forall i :: 0 <= i < k ==> q[i] == q[..k][i] == r[i];
    assert p[..m] == r[..m];
    CommonIs(p, r, m);
  }

  /** An ancestor comes before its descendants. */
  lemma LexPrefix(p: Path, q: Path)
    requires p < q
    ensures Lex(p, q)
  {
    LexAt(p, q);
    CommonIs(p, q, |p|);
  }

  /** Two paths in order: the first is an ancestor, or they part at some index. */
  lemma LexCases(p: Path, q: Path) returns (k: nat)
    requires Lex(p, q)
    ensures k <= |p| && k < |q| && p[..k] == q[..k]
    ensures if k == |p| then p < q else p[k] < q[k]
  {
    LexAt(p, q);
    k := Common(p, q);
    assert k == |p| ==> p == q[..k];
  }

  lemma LexDiverge(p: Path, q: Path, k: nat)
    requires k < |p| && k < |q| && p[..k] == q[..k] && p[k] < q[k]
    ensures Lex(p, q) && !(p <= q)
  {
    LexAt(p, q);
    CommonIs(p, q, k);
  }

  /** Paths that part ways keep their order whatever is appended to them. */
  lemma LexExtend(p: Path, q: Path, s: Path, t: Path)
    requires Lex(p, q) && !(p <= q)
    ensures Lex(p + s, q + t)
  {
    var k := Common(p, q);
    LexAt(p, q);
    assert p[..|p|] == p;
    assert k < |p|;
    assert (p + s)[..k] == p[..k] == q[..k] == (q + t)[..k];
    CommonIs(p + s, q + t, k);
    LexAt(p + s, q + t);
  }

  /** `x` strictly before `y` in document order; only tree nodes and attributes are ordered. */
  predicate Before(x: XNode, y: XNode) {
    if x.Nothing? || y.Nothing? then x.Nothing? && !y.Nothing?
    else Lex(x.path, y.path) || (x.path == y.path && Rank(x) < Rank(y))
  }

  /** Among the things at one address: the node itself, then its attributes in turn. */
  function Rank(x: XNode): nat
    requires !x.Nothing?
  {
    if x.Tree? then 0 else x.index + 1
  }

  predicate AtOrBefore(x: XNode, y: XNode) {
    x == y || Before(x, y)
  }

  lemma BeforeTotal(x: XNode, y: XNode)
    ensures x != y ==> Before(x, y) || Before(y, x)
    ensures !(Before(x, y) && Before(y, x))
    ensures !Before(x, x)
  {
    if !x.Nothing? && !y.Nothing? {
      LexTotal(x.path, y.path);
    }
    if !x.Nothing? { LexTotal(x.path, x.path); }
  }

  lemma BeforeTransitive(x: XNode, y: XNode, z: XNode)
    requires Before(x, y) && Before(y, z)
    ensures Before(x, z)
  {
    if !x.Nothing? && !y.Nothing? && !z.Nothing? {
      if Lex(x.path, y.path) && Lex(y.path, z.path) {
        LexTransitive(x.path, y.path, z.path);
      }
    }
  }

  // ----- Sequences and sets of nodes in document order -----

  ghost predicate Increasing(s: seq<XNode>) {
    forall i, j :: 0 <= i < j < |s| ==> Before(s[i], s[j])
  }

  ghost predicate Decreasing(s: seq<XNode>) {
    forall i, j :: 0 <= i < j < |s| ==> Before(s[j], s[i])
  }

  ghost predicate Distinct<T(!new)>(s: seq<T>) {
    forall i, j :: 0 <= i < j < |s| ==> s[i] != s[j]
  }

  function Elements<T>(s: seq<T>): set<T> {
    set x | x in s
  }

  lemma OrderedIsDistinct(s: seq<XNode>)
    requires Increasing(s) || Decreasing(s)
    ensures Distinct(s)
  {
    forall i, j | 0 <= i < j < |s| ensures s[i] != s[j] {
      BeforeTotal(s[i], s[j]);
    }
  }

  predicate IsMin(m: XNode, s: set<XNode>) {
    m in s && forall x :: x in s ==> AtOrBefore(m, x)
  }

  lemma MinExists(s: set<XNode>)
    requires s != {}
    ensures exists m :: IsMin(m, s)
  {
    var x :| x in s;
    if forall y :: y in s ==> y == x {
      assert IsMin(x, s);
    } else {
      var t := s - {x};
      var y :| y in s && y != x;
      assert y in t;
      MinExists(t);
      var m :| IsMin(m, t);
      BeforeTotal(x, m);
      if Before(x, m) {
        forall y | y in s ensures AtOrBefore(x, y) {
          if y != x {
            assert y in t && AtOrBefore(m, y);
            if y != m { BeforeTransitive(x, m, y); }
          }
        }
        assert IsMin(x, s);
      } else {
        assert IsMin(m, s);
      }
    }
  }

  lemma MinUnique(a: XNode, b: XNode, s: set<XNode>)
    requires IsMin(a, s) && IsMin(b, s)
    ensures a == b
  {
    BeforeTotal(a, b);
  }

  /** The first node of a nonempty set in document order. */
  function MinOf(s: set<XNode>): (m: XNode)
    requires s != {}
    ensures IsMin(m, s)
  {
    MinExists(s);
    assert forall a, b :: IsMin(a, s) && IsMin(b, s) ==> a == b by {
      forall a, b | IsMin(a, s) && IsMin(b, s) ensures a == b { MinUnique(a, b, s); }
    }
    var m :| m in s && IsMin(m, s);
    m
  }

  /** A set of nodes listed in document order. */
  function SortedOf(s: set<XNode>): (r: seq<XNode>)
    ensures Elements(r) == s
    ensures Increasing(r)
  {
    if s == {} then []
    else
      var m := MinOf(s);
      var r := SortedOf(s - {m});
      assert Elements([m] + r) == {m} + Elements(r);
      assert forall j :: 0 <= j < |r| ==> r[j] in Elements(r) && AtOrBefore(m, r[j]) && r[j] != m;
      [m] + r
  }

  /** Document order leaves only one way to list a set. */
  lemma IncreasingUnique(s: seq<XNode>, t: seq<XNode>)
    requires Increasing(s) && Increasing(t) && Elements(s) == Elements(t)
    ensures s == t
  {
    assert t != [] ==> t[0] in Elements(t);
    if s != [] {
      assert s[0] in Elements(s) && s[0] in t;
      assert t[0] in Elements(t) && t[0] in s;
      if s[0] != t[0] {
        var i :| 0 <= i < |t| && t[i] == s[0];
        var j :| 0 <= j < |s| && s[j] == t[0];
        BeforeTotal(s[0], t[0]);
        assert false;
      }
      TailElements(s);
      TailElements(t);
      IncreasingUnique(s[1..], t[1..]);
      assert s == [s[0]] + s[1..] && t == [t[0]] + t[1..];
    }
  }

  lemma TailElements(s: seq<XNode>)
    requires Increasing(s) && s != []
    ensures Elements(s[1..]) == Elements(s) - {s[0]}
    ensures Increasing(s[1..])
  {
    OrderedIsDistinct(s);
    forall x | x in Elements(s) - {s[0]} ensures x in Elements(s[1..]) {
      var i :| 0 <= i < |s| && s[i] == x;
      assert s[1..][i - 1] == x;
    }
  }

  lemma SortedOfIs(s: seq<XNode>)
    requires Increasing(s)
    ensures SortedOf(Elements(s)) == s
  {
    IncreasingUnique(SortedOf(Elements(s)), s);
  }

  function Reverse<T>(s: seq<T>): (r: seq<T>)
    ensures |r| == |s|
    ensures forall i :: 0 <= i < |s| ==> r[i] == s[|s| - 1 - i]
  {
    seq(|s|, i requires 0 <= i < |s| => s[|s| - 1 - i])
  }

  lemma ReverseElements<T>(s: seq<T>)
    ensures Elements(Reverse(s)) == Elements(s)
    ensures Reverse(Reverse(s)) == s
  {
    forall x | x in s ensures x in Reverse(s) {
      var i :| 0 <= i < |s| && s[i] == x;
      assert Reverse(s)[|s| - 1 - i] == x;
    }
  }

  lemma ReverseOrder(s: seq<XNode>)
    ensures Increasing(s) ==> Decreasing(Reverse(s))
    ensures Decreasing(s) ==> Increasing(Reverse(s))
  {
  }
}
