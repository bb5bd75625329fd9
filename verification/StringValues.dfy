/** The string-value of a node: what its parts contribute, child by child, and the loop that
    collects it. */
module StringValues {
  import opened DocumentOrder
  import opened Documents
  import opened Axes
  import opened Xpath

  /** Only character data, in either form, contributes to the nodes above it. */
  predicate IsText(n: NodeData) {
    n.kind == Pcdata || n.kind == Cdata
  }

  ghost function Below(d: Forest, p: Path): set<Path> {
    set q | q in d && p < q
  }

  lemma ChildBelow(d: Forest, p: Path, k: nat)
    requires WellFormed(d) && p in d && k < d[p].arity
    ensures p + [k] in d && Below(d, p + [k]) < Below(d, p)
  {
    assert NodeOk(d, p);
    assert p + [k] in Below(d, p) && p + [k] !in Below(d, p + [k]);
  }

  /** What the children of `p` contribute, from number `k` on. */
  function Contributed(d: Forest, p: Path, k: nat): string
    requires WellFormed(d) && p in d && k <= d[p].arity
    decreases Below(d, p), d[p].arity - k
  {
    if k == d[p].arity then ""
    else
      ChildBelow(d, p, k);
      var c := p + [k];
      (if IsText(d[c]) then d[c].value else "") + Contributed(d, c, 0) + Contributed(d, p, k + 1)
  }

  /** The text nodes below `p`, from child number `k` on, in document order. */
  ghost function TextsBelow(d: Forest, p: Path, k: nat): seq<XNode>
    requires WellFormed(d) && p in d && k <= d[p].arity
    decreases Below(d, p), d[p].arity - k
  {
    if k == d[p].arity then []
    else
      ChildBelow(d, p, k);
      var c := p + [k];
      (if IsText(d[c]) then [Tree(c)] else []) + TextsBelow(d, c, 0) + TextsBelow(d, p, k + 1)
  }

  ghost predicate ListsBelow(d: Forest, p: Path, k: nat, s: seq<XNode>) {
    && Increasing(s)
    && forall y :: y in s <==> y.Tree? && y.path in d && p < y.path && k <= y.path[|p|] && IsText(d[y.path])
  }

  /** The children of `c`, behind `c` itself if that is a text node, and then the rest. */
  lemma ListsJoin(d: Forest, p: Path, k: nat, s: seq<XNode>, t: seq<XNode>)
    requires WellFormed(d) && p in d && k < d[p].arity && p + [k] in d
    requires ListsBelow(d, p + [k], 0, s) && ListsBelow(d, p, k + 1, t)
    ensures ListsBelow(d, p, k, (if IsText(d[p + [k]]) then [Tree(p + [k])] else []) + s + t)
  {
    var c := p + [k];
    var h: seq<XNode> := if IsText(d[c]) then [Tree(c)] else [];
    assert c[..|p|] == p && c[|p|] == k;
    forall y | y in h + s ensures c <= y.path && y.Tree? { }
    forall y | y in s ensures Before(Tree(c), y) { LexPrefix(c, y.path); }
    forall y, z | y in h + s && z in t ensures Before(y, z) {
      assert y.path[..|p|] == p == z.path[..|p|] && y.path[|p|] == k;
      LexDiverge(y.path, z.path, |p|);
    }
    forall q | q in d && p < q && k <= q[|p|] ensures q == c || c < q || k + 1 <= q[|p|] {
      if q[|p|] == k { assert q[..|p| + 1] == c; }
    }
    var r := h + s + t;
    forall y ensures y in r <==> y.Tree? && y.path in d && p < y.path && k <= y.path[|p|] && IsText(d[y.path]) {
      assert y in r <==> y in h || y in s || y in t;
    }
  }

  lemma {:induction false} TextsListed(d: Forest, p: Path, k: nat)
    requires WellFormed(d) && p in d && k <= d[p].arity && p != []
    ensures ListsBelow(d, p, k, TextsBelow(d, p, k))
    decreases Below(d, p), d[p].arity - k
  {
    if k == d[p].arity {
      forall q | q in d && p < q ensures q[|p|] < k { ChildToward(d, p, q); }
    } else {
      ChildBelow(d, p, k);
      TextsListed(d, p + [k], 0);
      TextsListed(d, p, k + 1);
      ListsJoin(d, p, k, TextsBelow(d, p + [k], 0), TextsBelow(d, p, k + 1));
    }
  }

  lemma {:induction false} JoinAppend(d: Forest, s: seq<XNode>, t: seq<XNode>)
    ensures JoinValues(d, s + t) == JoinValues(d, s) + JoinValues(d, t)
    decreases |s|
  {
    if s == [] {
      assert s + t == t;
    } else {
      assert (s + t)[0] == s[0] && (s + t)[1..] == s[1..] + t;
      JoinAppend(d, s[1..], t);
    }
  }

  lemma {:induction false} TextsJoined(d: Forest, p: Path, k: nat)
    requires WellFormed(d) && p in d && k <= d[p].arity
    ensures JoinValues(d, TextsBelow(d, p, k)) == Contributed(d, p, k)
    decreases Below(d, p), d[p].arity - k
  {
    if k < d[p].arity {
      ChildBelow(d, p, k);
      var c := p + [k];
      var h: seq<XNode> := if IsText(d[c]) then [Tree(c)] else [];
      TextsJoined(d, c, 0);
      TextsJoined(d, p, k + 1);
      JoinAppend(d, h + TextsBelow(d, c, 0), TextsBelow(d, p, k + 1));
      JoinAppend(d, h, TextsBelow(d, c, 0));
      assert JoinValues(d, h) == if IsText(d[c]) then d[c].value else "" by {
        assert IsText(d[c]) ==> h[1..] == [];
      }
    }
  }

  /** An element or a document has its own value, if any, followed by what its children
      contribute, in their order: a text its value, an element what its own children do. */
  lemma StringValueContributed(d: Forest, p: Path)
    requires WellFormed(d) && p in d && (d[p].kind == Element || d[p].kind == DocumentNode)
    ensures StringValue(d, Tree(p)) == d[p].value + Contributed(d, p, 0)
  {
    assert NodeOk(d, p);
    TextsListed(d, p, 0);
    TextsJoined(d, p, 0);
    TextsAreCandidates(d, p, TextsBelow(d, p, 0));
  }

  lemma TextsAreCandidates(d: Forest, p: Path, s: seq<XNode>)
    requires WellFormed(d) && p in d && p != [] && ListsBelow(d, p, 0, s)
    ensures StepSeq(d, Descendant, TextTest, Tree(p)) == s
  {
    var c := Candidates(d, Descendant, TextTest, Tree(p));
    forall y ensures y in s <==> y in c { }
    assert Elements(s) == c;
    SortedOfIs(s);
  }

  /** Any other node has its own value, or nothing. */
  lemma StringValueOwn(d: Forest, x: XNode)
    requires ValidNode(d, x) && (x.Attr? || (d[x.path].kind != Element && d[x.path].kind != DocumentNode))
    ensures StringValue(d, x) == if x.Attr? then d[x.path].attributes[x.index].value
                                 else if d[x.path].kind in {Pcdata, Cdata, Comment, Pi} then d[x.path].value else ""
  {
  }

  /** The text nodes below `p`, as a set. */
  ghost predicate AreTexts(d: Forest, p: Path, c: set<XNode>) {
    && OnlyTrees(d, c) && (forall y :: y in c ==> p < y.path)
    && forall q :: q in d && p < q ==> (Tree(q) in c <==> IsText(d[q]))
  }

  lemma JoinOne(d: Forest, out: seq<XNode>, v: Path)
    requires v in d
    ensures JoinValues(d, out + [Tree(v)]) == JoinValues(d, out) + d[v].value
  {
    JoinAppend(d, out, [Tree(v)]);
    assert [Tree(v)][1..] == [] && JoinValues(d, [Tree(v)]) == d[v].value + "";
  }

  lemma GatherText(d: Forest, v: Path, p: Path, c: set<XNode>, out: seq<XNode>, done: set<XNode>)
    requires v in d && p < v && AreTexts(d, p, c) && Gathered(true, out, c, done) && done == Earlier(d, v)
    ensures Gathered(true, if IsText(d[v]) then out + [Tree(v)] else out, c, done + {Tree(v)})
  {
    ForwardFrontier(d, c, v);
    GatherNext(true, out, c, done, Tree(v));
  }

  lemma Appended(own: string, a: string, b: string)
    ensures own + a + b == own + (a + b)
  {
  }

  /** What the walk does with one node. */
  method TakeText(d: Forest, v: Path, so_far: string, ghost own: string, ghost out: seq<XNode>)
    returns (result: string, ghost out': seq<XNode>)
    requires v in d && so_far == own + JoinValues(d, out)
    ensures out' == if IsText(d[v]) then out + [Tree(v)] else out
    ensures result == own + JoinValues(d, out')
  {
    result, out' := so_far, out;
    if d[v].kind == Pcdata || d[v].kind == Cdata {
      JoinOne(d, out, v);
      Appended(own, JoinValues(d, out), d[v].value);
      result := so_far + d[v].value;
      out' := out + [Tree(v)];
    }
  }

  /** The walk of `string_value` over everything below a node. */
  method WalkTexts(d: Forest, p: Path, ghost c: set<XNode>) returns (result: string)
    requires WellFormed(d) && p in d && AreTexts(d, p, c)
    ensures result == d[p].value + JoinValues(d, SortedOf(c))
  {
    ghost var out: seq<XNode>, done, top := [], Earlier(d, p) + {Tree(p)}, p;
    NothingBelowEarlier(d, c, p);
    assert NodeOk(d, p);
    result := d[p].value;
    var cur := FirstChild(d, p);
    EnterChildren(d, p);
    if cur.None? { BelowDone(d, c, p); }
    while cur.Some?
      invariant cur.Some? ==> cur.value in d && p < cur.value && done == Earlier(d, cur.value)
      invariant cur.None? ==> c <= done
      invariant Gathered(true, out, c, done) && result == d[p].value + JoinValues(d, out)
      decreases if cur.Some? then Later(d, cur.value) else {}
    {
      var v := cur.value;
      GatherText(d, v, p, c, out, done);
      result, out := TakeText(d, v, result, d[p].value, out);
      done := done + {Tree(v)};
      cur := FirstChild(d, v);
      EnterChildren(d, v);
      if cur.None? {
        cur, top := ExitSubtree(d, v, Some(p));
        if cur.None? {
          BelowDone(d, c, p);
          break;
        }
      }
      LaterShrinks(d, v, cur.value);
    }
    GatheredAll(true, out, c, done);
  }

  method CollectText(d: Forest, p: Path) returns (result: string)
    requires WellFormed(d) && p in d && (d[p].kind == Element || d[p].kind == DocumentNode)
    ensures result == d[p].value + Contributed(d, p, 0)
  {
    assert NodeOk(d, p);
    ghost var s := TextsBelow(d, p, 0);
    TextsListed(d, p, 0);
    TextsJoined(d, p, 0);
    SortedOfIs(s);
    result := WalkTexts(d, p, Elements(s));
  }

  /** `string_value`. */
  method StringValueOf(d: Forest, x: XNode) returns (result: string)
    requires WellFormed(d) && (x.Nothing? || ValidNode(d, x))
    ensures result == StringValue(d, x)
  {
    match x {
      case Nothing => result := "";
      case Attr(p, i) => result := d[p].attributes[i].value;
      case Tree(p) =>
        match d[p].kind {
          case Pcdata => result := d[p].value;
          case Cdata => result := d[p].value;
          case Comment => result := d[p].value;
          case Pi => result := d[p].value;
          case DocumentNode =>
            StringValueContributed(d, p);
            result := CollectText(d, p);
          case Element =>
            StringValueContributed(d, p);
            result := CollectText(d, p);
          case _ => result := "";
        }
    }
  }
}
