/** Edits of a document as a tree, and what each of them does to the list of its nodes and
    attributes in document order. */
module TreeEdits {
  import opened Escapes
  import opened Markup
  import opened DocumentOrder
  import opened Documents
  import opened Axes
  import opened Comparator
  import opened ParsedNodes
  import P = ParsedAddresses
  import M = MarkupParser
  import B = BufferAddresses

  // ---------- the list of nodes and attributes ----------

  function AttributeCount(x: Item): nat {
    |ParsedNodes.DataOf(x).attributes|
  }

  /** The node and its attributes: `true` for an attribute. */
  function Head(x: Item): (s: seq<bool>)
    ensures |s| == 1 + AttributeCount(x)
  {
    seq(1 + AttributeCount(x), i requires 0 <= i < 1 + AttributeCount(x) => i > 0)
  }

  function Flags(x: Item): (s: seq<bool>)
    ensures |s| > 0
    decreases x
  {
    match x
    case Element(_, _, children) => Head(x) + AllFlags(children)
    case Document(children) => Head(x) + AllFlags(children)
    case _ => Head(x)
  }

  function AllFlags(xs: seq<Item>): seq<bool>
    decreases xs
  {
    if xs == [] then [] else Flags(xs[0]) + AllFlags(xs[1..])
  }

  /** `f` and `g` are `Flags` and `AllFlags`; to know what those are, one has to ask. */
  ghost predicate IsFlags(f: Item -> seq<bool>, g: seq<Item> -> seq<bool>) {
    && (forall x {:trigger Flags(x)} :: f(x) == Flags(x))
    && (forall xs {:trigger AllFlags(xs)} :: g(xs) == AllFlags(xs))
  }

  lemma FlagsAreFlags()
    ensures IsFlags(Flags, AllFlags)
  {
  }

  lemma FlagsOf(f: Item -> seq<bool>, g: seq<Item> -> seq<bool>, x: Item)
    requires IsFlags(f, g)
    ensures f(x) == Head(x) + g(KidsOf(x))
  {
    assert Flags(x) == Head(x) + AllFlags(KidsOf(x));
  }

  lemma {:induction false} AllFlagsJoin(xs: seq<Item>, ys: seq<Item>)
    ensures AllFlags(xs + ys) == AllFlags(xs) + AllFlags(ys)
    decreases |xs|
  {
    if xs == [] {
      assert xs + ys == ys;
    } else {
      assert (xs + ys)[0] == xs[0] && (xs + ys)[1..] == xs[1..] + ys;
      AllFlagsJoin(xs[1..], ys);
    }
  }

  lemma OneFlags(x: Item)
    ensures AllFlags([x]) == Flags(x)
  {
    assert [x][1..] == [];
  }

  lemma FlagsJoin(f: Item -> seq<bool>, g: seq<Item> -> seq<bool>, xs: seq<Item>, ys: seq<Item>)
    requires IsFlags(f, g)
    ensures g(xs + ys) == g(xs) + g(ys)
  {
    AllFlagsJoin(xs, ys);
  }

  lemma ThreeParts(f: Item -> seq<bool>, g: seq<Item> -> seq<bool>, xs: seq<Item>, a: seq<Item>, s: seq<Item>, b: seq<Item>)
    requires IsFlags(f, g) && xs == a + s + b
    ensures g(xs) == g(a) + g(s) + g(b)
  {
    FlagsJoin(f, g, a + s, b);
    FlagsJoin(f, g, a, s);
  }

  lemma FlagsOfOne(f: Item -> seq<bool>, g: seq<Item> -> seq<bool>, x: Item)
    requires IsFlags(f, g)
    ensures g([x]) == f(x)
  {
    OneFlags(x);
  }

  // ---------- places in the tree ----------

  function WithKids(x: Item, ks: seq<Item>): Item {
    match x
    case Element(name, attributes, _) => Item.Element(name, attributes, ks)
    case Document(_) => Item.Document(ks)
    case _ => x
  }

  function At(x: Item, q: Path): Documents.Option<Item>
    decreases |q|
  {
    if q == [] then Some(x)
    else if q[0] < |KidsOf(x)| then At(KidsOf(x)[q[0]], q[1..])
    else None
  }

  /** The tree with another one in place of the node at `q`. */
  function Put(x: Item, q: Path, y: Item): Item
    requires At(x, q).Some?
    decreases |q|
  {
    if q == [] then y else WithKids(x, KidsOf(x)[q[0] := Put(KidsOf(x)[q[0]], q[1..], y)])
  }

  /** With `n` members from `i` on replaced by `r`. */
  function Splice<T>(s: seq<T>, i: nat, n: nat, r: seq<T>): seq<T>
    requires i + n <= |s|
  {
    s[..i] + r + s[i + n..]
  }

  lemma SpliceInside<T>(a: seq<T>, s: seq<T>, b: seq<T>, i: nat, n: nat, r: seq<T>)
    requires i + n <= |s|
    ensures Splice(a + s + b, |a| + i, n, r) == a + Splice(s, i, n, r) + b
    ensures (a + s + b)[|a| + i..|a| + i + n] == s[i..i + n]
  {
    var t := a + s + b;
    assert t[..|a| + i] == a + s[..i];
    assert t[|a| + i + n..] == s[i + n..] + b;
    assert a + s[..i] + r + (s[i + n..] + b) == a + (s[..i] + r + s[i + n..]) + b;
  }

  lemma Regroup<T>(h: seq<T>, a: seq<T>, s: seq<T>, b: seq<T>)
    ensures h + (a + s + b) == h + a + s + b
  {
  }

  /** The parts of the list around child number `k`. */
  lemma AroundKid(f: Item -> seq<bool>, g: seq<Item> -> seq<bool>, x: Item, k: nat)
    requires IsFlags(f, g) && k < |KidsOf(x)|
    ensures f(x) == Head(x) + g(KidsOf(x)[..k]) + f(KidsOf(x)[k]) + g(KidsOf(x)[k + 1..])
  {
    var ks := KidsOf(x);
    FlagsOf(f, g, x);
    ThreeParts(f, g, ks, ks[..k], [ks[k]], ks[k + 1..]);
    FlagsOfOne(f, g, ks[k]);
    Regroup(Head(x), g(ks[..k]), f(ks[k]), g(ks[k + 1..]));
  }

  /** The same with another child there. */
  lemma AroundOther(f: Item -> seq<bool>, g: seq<Item> -> seq<bool>, x: Item, k: nat, kid: Item)
    requires IsFlags(f, g) && k < |KidsOf(x)|
    ensures f(WithKids(x, KidsOf(x)[k := kid])) == Head(x) + g(KidsOf(x)[..k]) + f(kid) + g(KidsOf(x)[k + 1..])
  {
    var ks := KidsOf(x);
    var u := WithKids(x, ks[k := kid]);
    assert KidsOf(u) == ks[k := kid] && Head(u) == Head(x);
    AroundKid(f, g, u, k);
    assert ks[k := kid][..k] == ks[..k] && ks[k := kid][k + 1..] == ks[k + 1..];
  }

  /** Where the node at `q` is in the list. */
  function Index(g: seq<Item> -> seq<bool>, x: Item, q: Path): nat
    requires At(x, q).Some?
    decreases |q|
  {
    if q == [] then 0 else |Head(x)| + |g(KidsOf(x)[..q[0]])| + Index(g, KidsOf(x)[q[0]], q[1..])
  }

  /** Replacing a subtree replaces its part of the list. */
  lemma {:induction false} PutFlags(f: Item -> seq<bool>, g: seq<Item> -> seq<bool>, x: Item, q: Path, y: Item)
    requires IsFlags(f, g) && At(x, q).Some?
    ensures var z := At(x, q).value; var i := Index(g, x, q);
            && i + |f(z)| <= |f(x)| && f(x)[i..i + |f(z)|] == f(z)
            && f(Put(x, q, y)) == Splice(f(x), i, |f(z)|, f(y))
    decreases |q|
  {
    if q == [] {
      assert f(x)[0..|f(x)|] == f(x);
      assert Splice(f(x), 0, |f(x)|, f(y)) == f(y);
    } else {
      var kid := Put(KidsOf(x)[q[0]], q[1..], y);
      PutFlags(f, g, KidsOf(x)[q[0]], q[1..], y);
      var ks, k := KidsOf(x), q[0];
      AroundKid(f, g, x, k);
      AroundOther(f, g, x, k, kid);
      PutInside(Head(x) + g(ks[..k]), f(ks[k]), g(ks[k + 1..]), Index(g, ks[k], q[1..]), f(At(x, q).value), f(y), f(kid), f(x),
                f(Put(x, q, y)));
    }
  }

  lemma PutInside<T>(a: seq<T>, s: seq<T>, b: seq<T>, i: nat, z: seq<T>, y: seq<T>, t: seq<T>, whole: seq<T>, after: seq<T>)
    requires i + |z| <= |s| && s[i..i + |z|] == z && t == Splice(s, i, |z|, y)
    requires whole == a + s + b && after == a + t + b
    ensures |a| + i + |z| <= |whole| && whole[|a| + i..|a| + i + |z|] == z && after == Splice(whole, |a| + i, |z|, y)
  {
    SpliceInside(a, s, b, i, |z|, y);
  }

  // ---------- edits of the tree ----------

  predicate MayHaveKids(x: Item) {
    x.Element? || x.Document?
  }

  predicate MayHaveAttributes(x: Item) {
    x.Element? || (x.Leaf? && x.what.Declaration?)
  }

  function AttributesOf(x: Item): seq<Attr>
    requires MayHaveAttributes(x)
  {
    if x.Element? then x.attributes else x.what.attributes
  }

  function WithAttributes(x: Item, s: seq<Attr>): Item
    requires MayHaveAttributes(x)
  {
    if x.Element? then x.(attributes := s) else x.(what := x.what.(attributes := s))
  }

  /** Other nodes refuse a name or a value. */
  predicate TakesName(x: Item) {
    x.Element? || (x.Leaf? && (x.what.Instruction? || x.what.Declaration?))
  }

  predicate TakesValue(x: Item) {
    x.Text? || (x.Leaf? && !x.what.Declaration?)
  }

  function Renamed(x: Item, name: seq<Byte>): Item {
    match x
    case Element(_, attributes, children) => Item.Element(name, attributes, children)
    case Leaf(Instruction(_, data)) => Leaf(Instruction(name, data))
    case Leaf(Declaration(_, attributes)) => Leaf(Simple.Declaration(name, attributes))
    case _ => x
  }

  function Revalued(x: Item, value: seq<Byte>): Item {
    match x
    case Text(_) => Item.Text(value)
    case Leaf(Cdata(_)) => Leaf(Simple.Cdata(value))
    case Leaf(Comment(_)) => Leaf(Simple.Comment(value))
    case Leaf(Instruction(target, _)) => Leaf(Instruction(target, Given(value)))
    case Leaf(Doctype(_)) => Leaf(Simple.Doctype(Given(value)))
    case _ => x
  }

  /** Nodes are named by their places, `q` being that of the parent where a child is meant. */
  datatype TreeEdit =
    | SetNodeName(q: Path, name: seq<Byte>)
    | SetNodeValue(q: Path, value: seq<Byte>)
    | SetAttributeName(q: Path, i: nat, name: seq<Byte>)
    | SetAttributeValue(q: Path, i: nat, value: seq<Byte>)
    | AddAttribute(q: Path, i: nat, a: Attr)
    | DropAttribute(q: Path, i: nat)
    | CopyAttribute(from: Path, i: nat, q: Path, j: nat)
    | AddChild(q: Path, k: nat, y: Item)
    | DropChild(q: Path, k: nat)
    | CopyChild(from: Path, q: Path, k: nat)
    /** a copy from another document, where its strings are those of `block` */
    | CopyForeign(q: Path, k: nat, y: Item, block: seq<B.Item>)
    /** the place to go to is one in the tree without the child */
    | MoveChild(p: Path, i: nat, q: Path, k: nat)
    | AppendBuffer(q: Path, ys: seq<Item>, block: seq<B.Item>)

  function FlagList(items: seq<B.Item>): (s: seq<bool>)
    ensures |s| == |items|
  {
    seq(|items|, i requires 0 <= i < |items| => items[i].attribute)
  }

  predicate HasKid(x: Item, q: Path, k: nat) {
    At(x, q).Some? && MayHaveKids(At(x, q).value) && k < |KidsOf(At(x, q).value)|
  }

  predicate HasPlace(x: Item, q: Path, k: nat) {
    At(x, q).Some? && MayHaveKids(At(x, q).value) && k <= |KidsOf(At(x, q).value)|
  }

  predicate HasAttribute(x: Item, q: Path, i: nat) {
    At(x, q).Some? && MayHaveAttributes(At(x, q).value) && i < |AttributesOf(At(x, q).value)|
  }

  predicate HasAttributePlace(x: Item, q: Path, i: nat) {
    At(x, q).Some? && MayHaveAttributes(At(x, q).value) && i <= |AttributesOf(At(x, q).value)|
  }

  /** The tree with `n` children of the node at `q`, from number `k` on, replaced by `ys`. */
  function PutKids(x: Item, q: Path, k: nat, n: nat, ys: seq<Item>): Item
    requires At(x, q).Some? && k + n <= |KidsOf(At(x, q).value)|
  {
    var z := At(x, q).value;
    Put(x, q, WithKids(z, Splice(KidsOf(z), k, n, ys)))
  }

  function PutAttributes(x: Item, q: Path, i: nat, n: nat, s: seq<Attr>): Item
    requires At(x, q).Some? && MayHaveAttributes(At(x, q).value) && i + n <= |AttributesOf(At(x, q).value)|
  {
    var z := At(x, q).value;
    Put(x, q, WithAttributes(z, Splice(AttributesOf(z), i, n, s)))
  }

  predicate Applies(x: Item, e: TreeEdit) {
    match e
    case SetNodeName(q, _) => At(x, q).Some? && TakesName(At(x, q).value)
    case SetNodeValue(q, _) => At(x, q).Some? && TakesValue(At(x, q).value)
    case SetAttributeName(q, i, _) => HasAttribute(x, q, i)
    case SetAttributeValue(q, i, _) => HasAttribute(x, q, i)
    case AddAttribute(q, i, _) => HasAttributePlace(x, q, i)
    case DropAttribute(q, i) => HasAttribute(x, q, i)
    case CopyAttribute(from, i, q, j) => HasAttribute(x, from, i) && HasAttributePlace(x, q, j)
    case AddChild(q, k, y) => HasPlace(x, q, k) && Flags(y) == [false]
    case DropChild(q, k) => HasKid(x, q, k)
    case CopyChild(from, q, k) => At(x, from).Some? && HasPlace(x, q, k)
    case CopyForeign(q, k, y, block) => HasPlace(x, q, k) && FlagList(block) == Flags(y)
    case MoveChild(p, i, q, k) => HasKid(x, p, i) && HasPlace(PutKids(x, p, i, 1, []), q, k)
    case AppendBuffer(q, ys, block) => HasPlace(x, q, 0) && FlagList(block) == AllFlags(ys)
  }

  function ApplyTree(x: Item, e: TreeEdit): Item
    requires Applies(x, e)
  {
    match e
    case SetNodeName(q, name) => Put(x, q, Renamed(At(x, q).value, name))
    case SetNodeValue(q, value) => Put(x, q, Revalued(At(x, q).value, value))
    case SetAttributeName(q, i, name) => PutAttributes(x, q, i, 1, [AttributesOf(At(x, q).value)[i].(name := name)])
    case SetAttributeValue(q, i, value) => PutAttributes(x, q, i, 1, [AttributesOf(At(x, q).value)[i].(value := value)])
    case AddAttribute(q, i, a) => PutAttributes(x, q, i, 0, [a])
    case DropAttribute(q, i) => PutAttributes(x, q, i, 1, [])
    case CopyAttribute(from, i, q, j) => PutAttributes(x, q, j, 0, [AttributesOf(At(x, from).value)[i]])
    case AddChild(q, k, y) => PutKids(x, q, k, 0, [y])
    case DropChild(q, k) => PutKids(x, q, k, 1, [])
    case CopyChild(from, q, k) => PutKids(x, q, k, 0, [At(x, from).value])
    case CopyForeign(q, k, y, _) => PutKids(x, q, k, 0, [y])
    case MoveChild(p, i, q, k) => PutKids(PutKids(x, p, i, 1, []), q, k, 0, [KidsOf(At(x, p).value)[i]])
    case AppendBuffer(q, ys, _) => PutKids(x, q, |KidsOf(At(x, q).value)|, 0, ys)
  }

  /** Where child number `k` of the node at `q` is in the list, or would be. */
  function KidIndex(g: seq<Item> -> seq<bool>, x: Item, q: Path, k: nat): nat
    requires At(x, q).Some? && k <= |KidsOf(At(x, q).value)|
  {
    Index(g, x, q) + |Head(At(x, q).value)| + |g(KidsOf(At(x, q).value)[..k])|
  }

  /** What a tree edit does to the list. */
  function FlatEdit(f: Item -> seq<bool>, g: seq<Item> -> seq<bool>, x: Item, e: TreeEdit): B.Edit
    requires Applies(x, e)
  {
    match e
    case SetNodeName(q, name) => B.SetName(Index(g, x, q), |name|)
    case SetNodeValue(q, value) => B.SetValue(Index(g, x, q), |value|)
    case SetAttributeName(q, i, name) => B.SetName(Index(g, x, q) + 1 + i, |name|)
    case SetAttributeValue(q, i, value) => B.SetValue(Index(g, x, q) + 1 + i, |value|)
    case AddAttribute(q, i, _) => B.Insert(Index(g, x, q) + 1 + i, true)
    case DropAttribute(q, i) => B.Remove(Index(g, x, q) + 1 + i, Index(g, x, q) + 1 + i + 1)
    case CopyAttribute(from, i, q, j) => B.Copy(Index(g, x, from) + 1 + i, Index(g, x, from) + 1 + i + 1, Index(g, x, q) + 1 + j)
    case AddChild(q, k, _) => B.Insert(KidIndex(g, x, q, k), false)
    case DropChild(q, k) => B.Remove(KidIndex(g, x, q, k), KidIndex(g, x, q, k) + |f(KidsOf(At(x, q).value)[k])|)
    case CopyChild(from, q, k) => B.Copy(Index(g, x, from), Index(g, x, from) + |f(At(x, from).value)|, KidIndex(g, x, q, k))
    case CopyForeign(q, k, _, block) => B.CopyForeign(block, KidIndex(g, x, q, k))
    case MoveChild(p, i, q, k) =>
      B.Move(KidIndex(g, x, p, i), KidIndex(g, x, p, i) + |f(KidsOf(At(x, p).value)[i])|, KidIndex(g, PutKids(x, p, i, 1, []), q, k))
    case AppendBuffer(q, _, block) => B.AppendBuffer(KidIndex(g, x, q, |KidsOf(At(x, q).value)|), block)
  }

  // ---------- they do that ----------

  lemma KidsSpliced(f: Item -> seq<bool>, g: seq<Item> -> seq<bool>, z: Item, k: nat, n: nat, ys: seq<Item>, u: Item, i: nat,
                    part: seq<bool>)
    requires IsFlags(f, g) && MayHaveKids(z) && k + n <= |KidsOf(z)| && u == WithKids(z, Splice(KidsOf(z), k, n, ys))
    requires i == |Head(z)| + |g(KidsOf(z)[..k])| && part == g(KidsOf(z)[k..k + n])
    ensures i + |part| <= |f(z)| && f(z)[i..i + |part|] == part && f(u) == Splice(f(z), i, |part|, g(ys))
  {
    var ks := KidsOf(z);
    var a, s, b := ks[..k], ks[k..k + n], ks[k + n..];
    assert ks == a + s + b && KidsOf(u) == a + ys + b && Head(u) == Head(z);
    ThreeParts(f, g, ks, a, s, b);
    ThreeParts(f, g, KidsOf(u), a, ys, b);
    FlagsOf(f, g, z);
    FlagsOf(f, g, u);
    Spliced(Head(z), g(a), g(s), g(b), g(ys));
  }

  lemma Spliced<T>(h: seq<T>, a: seq<T>, s: seq<T>, b: seq<T>, r: seq<T>)
    ensures var t := h + (a + s + b); var i := |h| + |a|;
            t[i..i + |s|] == s && Splice(t, i, |s|, r) == h + (a + r + b)
  {
    var t := h + (a + s + b);
    assert t == (h + a) + s + b;
    assert t[..|h| + |a|] == h + a && t[|h| + |a| + |s|..] == b;
  }

  function Trues(n: nat): seq<bool> {
    seq(n, j requires 0 <= j < n => true)
  }

  lemma AttributesSpliced(f: Item -> seq<bool>, g: seq<Item> -> seq<bool>, z: Item, i: nat, n: nat, s: seq<Attr>)
    requires IsFlags(f, g) && MayHaveAttributes(z) && i + n <= |AttributesOf(z)|
    ensures 1 + i + n <= |f(z)| && f(z)[1 + i..1 + i + n] == Trues(n)
    ensures f(WithAttributes(z, Splice(AttributesOf(z), i, n, s))) == Splice(f(z), 1 + i, n, Trues(|s|))
  {
    var u := WithAttributes(z, Splice(AttributesOf(z), i, n, s));
    FlagsOf(f, g, z);
    FlagsOf(f, g, u);
    assert KidsOf(u) == KidsOf(z);
    HeadsSpliced(Head(z), Head(u), g(KidsOf(z)), |AttributesOf(z)|, i, n, |s|);
  }

  lemma HeadsSpliced(h: seq<bool>, h': seq<bool>, r: seq<bool>, count: nat, i: nat, n: nat, m: nat)
    requires i + n <= count && |h| == 1 + count && |h'| == 1 + count - n + m
    requires forall j :: 0 <= j < |h| ==> h[j] == (j > 0)
    requires forall j :: 0 <= j < |h'| ==> h'[j] == (j > 0)
    ensures (h + r)[1 + i..1 + i + n] == Trues(n) && h' + r == Splice(h + r, 1 + i, n, Trues(m))
  {
  }

  /** A splice within a part of a list is a splice of the list. */
  lemma SpliceTwice<T>(s: seq<T>, i: nat, u: seq<T>, j: nat, n: nat, r: seq<T>)
    requires i + |u| <= |s| && s[i..i + |u|] == u && j + n <= |u|
    ensures Splice(s, i, |u|, Splice(u, j, n, r)) == Splice(s, i + j, n, r)
    ensures s[i + j..i + j + n] == u[j..j + n]
  {
    var a, b := s[..i], s[i + |u|..];
    assert s == a + u + b;
    SpliceInside(a, u, b, j, n, r);
  }

  lemma Combined<T>(s: seq<T>, i: nat, u: seq<T>, j: nat, n: nat, r: seq<T>, w: seq<T>, t: seq<T>)
    requires i + |u| <= |s| && s[i..i + |u|] == u && j + n <= |u|
    requires w == Splice(u, j, n, r) && t == Splice(s, i, |u|, w)
    ensures t == Splice(s, i + j, n, r) && s[i + j..i + j + n] == u[j..j + n]
  {
    SpliceTwice(s, i, u, j, n, r);
  }

  /** A splice within a subtree, in terms of the whole list. */
  lemma PutInner(f: Item -> seq<bool>, g: seq<Item> -> seq<bool>, x: Item, q: Path, z: Item, y: Item, j: nat, m: nat, r: seq<bool>)
    requires IsFlags(f, g) && At(x, q) == Some(z) && j + m <= |f(z)| && f(y) == Splice(f(z), j, m, r)
    ensures Index(g, x, q) + j + m <= |f(x)|
    ensures f(x)[Index(g, x, q) + j..Index(g, x, q) + j + m] == f(z)[j..j + m]
    ensures f(Put(x, q, y)) == Splice(f(x), Index(g, x, q) + j, m, r)
  {
    PutFlags(f, g, x, q, y);
    Combined(f(x), Index(g, x, q), f(z), j, m, r, f(y), f(Put(x, q, y)));
  }

  lemma PutKidsFlags(f: Item -> seq<bool>, g: seq<Item> -> seq<bool>, x: Item, q: Path, k: nat, n: nat, ys: seq<Item>,
                     z: Item, i: nat, part: seq<bool>)
    requires IsFlags(f, g) && At(x, q) == Some(z) && MayHaveKids(z) && k + n <= |KidsOf(z)|
    requires i == KidIndex(g, x, q, k) && part == g(KidsOf(z)[k..k + n])
    ensures i + |part| <= |f(x)| && f(x)[i..i + |part|] == part
    ensures f(PutKids(x, q, k, n, ys)) == Splice(f(x), i, |part|, g(ys))
  {
    var u, j := WithKids(z, Splice(KidsOf(z), k, n, ys)), |Head(z)| + |g(KidsOf(z)[..k])|;
    KidsSpliced(f, g, z, k, n, ys, u, j, part);
    PutInner(f, g, x, q, z, u, j, |part|, g(ys));
  }

  lemma PutAttributesFlags(f: Item -> seq<bool>, g: seq<Item> -> seq<bool>, x: Item, q: Path, i: nat, n: nat, s: seq<Attr>,
                           z: Item, at: nat)
    requires IsFlags(f, g) && At(x, q) == Some(z) && MayHaveAttributes(z) && i + n <= |AttributesOf(z)|
    requires at == Index(g, x, q) + 1 + i
    ensures at + n <= |f(x)| && f(x)[at..at + n] == Trues(n)
    ensures f(PutAttributes(x, q, i, n, s)) == Splice(f(x), at, n, Trues(|s|))
  {
    AttributesSpliced(f, g, z, i, n, s);
    PutInner(f, g, x, q, z, WithAttributes(z, Splice(AttributesOf(z), i, n, s)), 1 + i, n, Trues(|s|));
  }

  lemma FlatInsert(items: seq<B.Item>, at: nat, block: seq<B.Item>)
    requires at <= |items|
    ensures FlagList(B.InsertAt(items, at, block)) == Splice(FlagList(items), at, 0, FlagList(block))
  {
  }

  lemma FlatRemove(items: seq<B.Item>, lo: nat, hi: nat)
    requires lo <= hi <= |items|
    ensures FlagList(items[..lo] + items[hi..]) == Splice(FlagList(items), lo, hi - lo, [])
    ensures FlagList(items[lo..hi]) == FlagList(items)[lo..hi]
  {
  }

  lemma FlatCopies(items: seq<B.Item>, lo: nat, hi: nat)
    ensures FlagList(B.Marked(items, lo, hi)) == FlagList(items)
    ensures FlagList(B.CopiesOf(items)) == FlagList(items) && FlagList(B.ForeignCopiesOf(items)) == FlagList(items)
  {
  }

  lemma FlatCopy(items: seq<B.Item>, lo: nat, hi: nat, at: nat, r: seq<bool>)
    requires lo <= hi <= |items| && at <= |items| && r == FlagList(items)[lo..hi]
    ensures FlagList(B.InsertAt(B.Marked(items, lo, hi), at, B.CopiesOf(items[lo..hi]))) == Splice(FlagList(items), at, 0, r)
  {
    FlatRemove(items, lo, hi);
    FlatCopies(items, lo, hi);
    FlatCopies(items[lo..hi], 0, 0);
    FlatInsert(B.Marked(items, lo, hi), at, B.CopiesOf(items[lo..hi]));
  }

  /** What a copy within the list comes to. */
  lemma CopyEnds(s: B.State, lo: nat, hi: nat, at: nat, r: seq<bool>, after: seq<bool>)
    requires lo <= hi <= |s.items| && at <= |s.items| && FlagList(s.items)[lo..hi] == r
    requires after == Splice(FlagList(s.items), at, 0, r)
    ensures B.Applicable(s, B.Copy(lo, hi, at)) && FlagList(B.Apply(s, B.Copy(lo, hi, at)).items) == after
  {
    FlatCopy(s.items, lo, hi, at, r);
  }

  lemma FlatMove(items: seq<B.Item>, lo: nat, hi: nat, at: nat, r: seq<bool>)
    requires lo <= hi <= |items| && at <= |items| - (hi - lo) && r == FlagList(items)[lo..hi]
    ensures FlagList(B.InsertAt(items[..lo] + items[hi..], at, items[lo..hi]))
         == Splice(Splice(FlagList(items), lo, hi - lo, []), at, 0, r)
  {
    FlatRemove(items, lo, hi);
    FlatInsert(items[..lo] + items[hi..], at, items[lo..hi]);
  }

  lemma NoFlags(f: Item -> seq<bool>, g: seq<Item> -> seq<bool>, z: Item)
    requires IsFlags(f, g)
    ensures g([]) == [] && |f(z)| > 0
  {
    assert AllFlags([]) == [];
    FlagsOf(f, g, z);
  }

  lemma SpliceSame<T>(s: seq<T>, i: nat, n: nat, r: seq<T>)
    requires i + n <= |s| && s[i..i + n] == r
    ensures Splice(s, i, n, r) == s
  {
  }

  /** A name or a value changes nothing about which nodes and attributes there are. */
  lemma NodeTextListed(f: Item -> seq<bool>, g: seq<Item> -> seq<bool>, x: Item, q: Path, z: Item, y: Item)
    requires IsFlags(f, g) && At(x, q) == Some(z) && Head(y) == Head(z) && KidsOf(y) == KidsOf(z)
    ensures f(Put(x, q, y)) == f(x) && Index(g, x, q) < |f(x)|
  {
    NoFlags(f, g, z);
    FlagsOf(f, g, z);
    FlagsOf(f, g, y);
    PutFlags(f, g, x, q, y);
    SpliceSame(f(x), Index(g, x, q), |f(z)|, f(z));
  }

  lemma AttributeTextListed(f: Item -> seq<bool>, g: seq<Item> -> seq<bool>, x: Item, q: Path, i: nat, a: Attr)
    requires IsFlags(f, g) && HasAttribute(x, q, i)
    ensures f(PutAttributes(x, q, i, 1, [a])) == f(x) && Index(g, x, q) + 1 + i < |f(x)|
  {
    PutAttributesFlags(f, g, x, q, i, 1, [a], At(x, q).value, Index(g, x, q) + 1 + i);
    SpliceSame(f(x), Index(g, x, q) + 1 + i, 1, Trues(1));
  }

  /** The state as it is, but for the texts of one item. */
  lemma SameList(f: Item -> seq<bool>, s: B.State, i: nat, n: nat, x: Item, y: Item)
    requires Lists(f, s, x) && f(y) == f(x) && i < |f(x)|
    ensures B.Applicable(s, B.SetName(i, n)) && Lists(f, B.Apply(s, B.SetName(i, n)), y)
    ensures B.Applicable(s, B.SetValue(i, n)) && Lists(f, B.Apply(s, B.SetValue(i, n)), y)
  {
  }

  lemma NodeNameListed(f: Item -> seq<bool>, g: seq<Item> -> seq<bool>, x: Item, e: TreeEdit, s: B.State)
    requires IsFlags(f, g) && Applies(x, e) && Lists(f, s, x) && (e.SetNodeName? || e.SetNodeValue?)
    ensures Follows(f, g, s, x, e)
  {
    var z := At(x, e.q).value;
    var y, n := if e.SetNodeName? then Renamed(z, e.name) else Revalued(z, e.value), if e.SetNodeName? then |e.name| else |e.value|;
    NodeTextListed(f, g, x, e.q, z, y);
    var u, i := Put(x, e.q, y), Index(g, x, e.q);
    SameList(f, s, i, n, x, u);
    FollowsIs(f, g, s, x, e, if e.SetNodeName? then B.SetName(i, n) else B.SetValue(i, n), u);
  }

  lemma AttributeNameListed(f: Item -> seq<bool>, g: seq<Item> -> seq<bool>, x: Item, e: TreeEdit, s: B.State)
    requires IsFlags(f, g) && Applies(x, e) && Lists(f, s, x) && (e.SetAttributeName? || e.SetAttributeValue?)
    ensures Follows(f, g, s, x, e)
  {
    var a := AttributesOf(At(x, e.q).value)[e.i];
    var b, n := if e.SetAttributeName? then a.(name := e.name) else a.(value := e.value),
                if e.SetAttributeName? then |e.name| else |e.value|;
    AttributeTextListed(f, g, x, e.q, e.i, b);
    var u, i := PutAttributes(x, e.q, e.i, 1, [b]), Index(g, x, e.q) + 1 + e.i;
    SameList(f, s, i, n, x, u);
    FollowsIs(f, g, s, x, e, if e.SetAttributeName? then B.SetName(i, n) else B.SetValue(i, n), u);
  }

  /** The state `s` lists the nodes and attributes of `x`. */
  ghost predicate Lists(f: Item -> seq<bool>, s: B.State, x: Item) {
    FlagList(s.items) == f(x)
  }

  ghost predicate Follows(f: Item -> seq<bool>, g: seq<Item> -> seq<bool>, s: B.State, x: Item, e: TreeEdit)
    requires Applies(x, e)
  {
    B.Applicable(s, FlatEdit(f, g, x, e)) && Lists(f, B.Apply(s, FlatEdit(f, g, x, e)), ApplyTree(x, e))
  }

  lemma AttributeListed(f: Item -> seq<bool>, g: seq<Item> -> seq<bool>, x: Item, e: TreeEdit, s: B.State)
    requires IsFlags(f, g) && Applies(x, e) && Lists(f, s, x)
    requires e.AddAttribute? || e.DropAttribute?
    ensures Follows(f, g, s, x, e)
  {
    var z, at := At(x, e.q).value, Index(g, x, e.q) + 1 + e.i;
    if e.AddAttribute? {
      PutAttributesFlags(f, g, x, e.q, e.i, 0, [e.a], z, at);
      var block := [B.Item(true, B.Null, B.Null, false, false, false)];
      FlatInsert(s.items, at, block);
      assert FlagList(block) == Trues(1);
      FollowsIs(f, g, s, x, e, B.Insert(at, true), PutAttributes(x, e.q, e.i, 0, [e.a]));
    } else {
      PutAttributesFlags(f, g, x, e.q, e.i, 1, [], z, at);
      FlatRemove(s.items, at, at + 1);
      assert Trues(0) == [];
      FollowsIs(f, g, s, x, e, B.Remove(at, at + 1), PutAttributes(x, e.q, e.i, 1, []));
    }
  }

  lemma CopiedAttributeParts(f: Item -> seq<bool>, g: seq<Item> -> seq<bool>, x: Item, from: Path, i: nat, q: Path, j: nat, a: Attr)
    returns (lo: nat, at: nat)
    requires IsFlags(f, g) && HasAttribute(x, from, i) && HasAttributePlace(x, q, j)
    ensures lo == Index(g, x, from) + 1 + i && at == Index(g, x, q) + 1 + j
    ensures lo + 1 <= |f(x)| && f(x)[lo..lo + 1] == Trues(1) && at <= |f(x)|
    ensures f(PutAttributes(x, q, j, 0, [a])) == Splice(f(x), at, 0, Trues(1))
  {
    lo, at := Index(g, x, from) + 1 + i, Index(g, x, q) + 1 + j;
    PutAttributesFlags(f, g, x, from, i, 1, [], At(x, from).value, lo);
    PutAttributesFlags(f, g, x, q, j, 0, [a], At(x, q).value, at);
  }

  lemma CopiedAttributeListed(f: Item -> seq<bool>, g: seq<Item> -> seq<bool>, x: Item, e: TreeEdit, s: B.State)
    requires IsFlags(f, g) && Applies(x, e) && Lists(f, s, x) && e.CopyAttribute?
    ensures Follows(f, g, s, x, e)
  {
    var a := AttributesOf(At(x, e.from).value)[e.i];
    var lo, at := CopiedAttributeParts(f, g, x, e.from, e.i, e.q, e.j, a);
    var y := PutAttributes(x, e.q, e.j, 0, [a]);
    CopyEnds(s, lo, lo + 1, at, Trues(1), f(y));
    FollowsIs(f, g, s, x, e, B.Copy(lo, lo + 1, at), y);
  }

  lemma FollowsIs(f: Item -> seq<bool>, g: seq<Item> -> seq<bool>, s: B.State, x: Item, e: TreeEdit, b: B.Edit, y: Item)
    requires Applies(x, e) && FlatEdit(f, g, x, e) == b && ApplyTree(x, e) == y
    requires B.Applicable(s, b) && FlagList(B.Apply(s, b).items) == f(y)
    ensures Follows(f, g, s, x, e)
  {
  }

  /** A subtree put in: in the list, its nodes and attributes. */
  lemma InsertListed(f: Item -> seq<bool>, g: seq<Item> -> seq<bool>, x: Item, q: Path, k: nat, ys: seq<Item>, r: seq<bool>, at: nat)
    requires IsFlags(f, g) && HasPlace(x, q, k) && g(ys) == r && at == KidIndex(g, x, q, k)
    ensures at <= |f(x)| && f(PutKids(x, q, k, 0, ys)) == Splice(f(x), at, 0, r)
  {
    NoFlags(f, g, x);
    var z := At(x, q).value;
    assert KidsOf(z)[k..k + 0] == [];
    PutKidsFlags(f, g, x, q, k, 0, ys, z, at, []);
  }

  lemma DropListed(f: Item -> seq<bool>, g: seq<Item> -> seq<bool>, x: Item, q: Path, k: nat, at: nat, y: Item)
    requires IsFlags(f, g) && HasKid(x, q, k) && at == KidIndex(g, x, q, k) && y == KidsOf(At(x, q).value)[k]
    ensures at + |f(y)| <= |f(x)| && f(x)[at..at + |f(y)|] == f(y)
    ensures f(PutKids(x, q, k, 1, [])) == Splice(f(x), at, |f(y)|, [])
  {
    NoFlags(f, g, x);
    FlagsOfOne(f, g, y);
    var z := At(x, q).value;
    assert KidsOf(z)[k..k + 1] == [y];
    PutKidsFlags(f, g, x, q, k, 1, [], z, at, f(y));
  }

  lemma ChildListed(f: Item -> seq<bool>, g: seq<Item> -> seq<bool>, x: Item, e: TreeEdit, s: B.State)
    requires IsFlags(f, g) && Applies(x, e) && Lists(f, s, x)
    requires e.AddChild? || e.DropChild? || e.CopyForeign? || e.AppendBuffer?
    ensures Follows(f, g, s, x, e)
  {
    match e
    case AddChild(q, k, y) =>
      assert Flags(y) == [false];
      FlagsOfOne(f, g, y);
      InsertListed(f, g, x, q, k, [y], [false], KidIndex(g, x, q, k));
      var block := [B.Item(false, B.Null, B.Null, false, false, false)];
      FlatInsert(s.items, KidIndex(g, x, q, k), block);
      assert FlagList(block) == [false];
    case DropChild(q, k) =>
      var at, y := KidIndex(g, x, q, k), KidsOf(At(x, q).value)[k];
      DropListed(f, g, x, q, k, at, y);
      FlatRemove(s.items, at, at + |f(y)|);
    case CopyForeign(q, k, y, block) =>
      assert Flags(y) == FlagList(block);
      FlagsOfOne(f, g, y);
      InsertListed(f, g, x, q, k, [y], FlagList(block), KidIndex(g, x, q, k));
      FlatCopies(block, 0, 0);
      FlatInsert(s.items, KidIndex(g, x, q, k), B.ForeignCopiesOf(block));
    case AppendBuffer(q, ys, block) =>
      assert AllFlags(ys) == FlagList(block);
      var k := |KidsOf(At(x, q).value)|;
      InsertListed(f, g, x, q, k, ys, FlagList(block), KidIndex(g, x, q, k));
      FlatInsert(s.items, KidIndex(g, x, q, k), block);
  }

  lemma CopiedChildParts(f: Item -> seq<bool>, g: seq<Item> -> seq<bool>, x: Item, from: Path, y: Item, q: Path, k: nat)
    returns (lo: nat, at: nat)
    requires IsFlags(f, g) && At(x, from) == Some(y) && HasPlace(x, q, k)
    ensures lo == Index(g, x, from) && at == KidIndex(g, x, q, k)
    ensures lo + |f(y)| <= |f(x)| && f(x)[lo..lo + |f(y)|] == f(y) && at <= |f(x)|
    ensures f(PutKids(x, q, k, 0, [y])) == Splice(f(x), at, 0, f(y))
  {
    lo, at := Index(g, x, from), KidIndex(g, x, q, k);
    PutFlags(f, g, x, from, y);
    FlagsOfOne(f, g, y);
    InsertListed(f, g, x, q, k, [y], f(y), at);
  }

  lemma CopiedChildListed(f: Item -> seq<bool>, g: seq<Item> -> seq<bool>, x: Item, e: TreeEdit, s: B.State)
    requires IsFlags(f, g) && Applies(x, e) && Lists(f, s, x) && e.CopyChild?
    ensures Follows(f, g, s, x, e)
  {
    var y := At(x, e.from).value;
    var lo, at := CopiedChildParts(f, g, x, e.from, y, e.q, e.k);
    var z := PutKids(x, e.q, e.k, 0, [y]);
    CopyEnds(s, lo, lo + |f(y)|, at, f(y), f(z));
    FollowsIs(f, g, s, x, e, B.Copy(lo, lo + |f(y)|, at), z);
  }

  lemma MoveListed(f: Item -> seq<bool>, g: seq<Item> -> seq<bool>, x: Item, e: TreeEdit, s: B.State)
    requires IsFlags(f, g) && Applies(x, e) && Lists(f, s, x) && e.MoveChild?
    ensures Follows(f, g, s, x, e)
  {
    var y, lo := KidsOf(At(x, e.p).value)[e.i], KidIndex(g, x, e.p, e.i);
    var hi, u := lo + |f(y)|, PutKids(x, e.p, e.i, 1, []);
    var at := KidIndex(g, u, e.q, e.k);
    DropListed(f, g, x, e.p, e.i, lo, y);
    FlagsOfOne(f, g, y);
    InsertListed(f, g, u, e.q, e.k, [y], f(y), at);
    FlatMove(s.items, lo, hi, at, f(y));
  }

  /** Whatever the edit, the list after it is that of the tree after it. */
  lemma EditListed(f: Item -> seq<bool>, g: seq<Item> -> seq<bool>, x: Item, e: TreeEdit, s: B.State)
    requires IsFlags(f, g) && Applies(x, e) && Lists(f, s, x)
    ensures Follows(f, g, s, x, e)
  {
    match e
    case CopyAttribute(_, _, _, _) => CopiedAttributeListed(f, g, x, e, s);
    case AddAttribute(_, _, _) => AttributeListed(f, g, x, e, s);
    case DropAttribute(_, _) => AttributeListed(f, g, x, e, s);
    case CopyChild(_, _, _) => CopiedChildListed(f, g, x, e, s);
    case MoveChild(_, _, _, _) => MoveListed(f, g, x, e, s);
    case SetNodeName(_, _) => NodeNameListed(f, g, x, e, s);
    case SetNodeValue(_, _) => NodeNameListed(f, g, x, e, s);
    case SetAttributeName(_, _, _) => AttributeNameListed(f, g, x, e, s);
    case SetAttributeValue(_, _, _) => AttributeNameListed(f, g, x, e, s);
    case _ => ChildListed(f, g, x, e, s);
  }

  // ---------- runs ----------

  predicate RunApplies(x: Item, edits: seq<TreeEdit>)
    decreases |edits|
  {
    edits != [] ==> Applies(x, edits[0]) && RunApplies(ApplyTree(x, edits[0]), edits[1..])
  }

  function RunTree(x: Item, edits: seq<TreeEdit>): Item
    requires RunApplies(x, edits)
    decreases |edits|
  {
    if edits == [] then x else RunTree(ApplyTree(x, edits[0]), edits[1..])
  }

  /** The edits of the list that go with the edits of the tree. */
  function FlatRun(f: Item -> seq<bool>, g: seq<Item> -> seq<bool>, x: Item, edits: seq<TreeEdit>): seq<B.Edit>
    requires RunApplies(x, edits)
    decreases |edits|
  {
    if edits == [] then [] else [FlatEdit(f, g, x, edits[0])] + FlatRun(f, g, ApplyTree(x, edits[0]), edits[1..])
  }

  lemma {:induction false} RunListed(f: Item -> seq<bool>, g: seq<Item> -> seq<bool>, x: Item, edits: seq<TreeEdit>, s: B.State)
    requires IsFlags(f, g) && RunApplies(x, edits) && Lists(f, s, x)
    ensures B.RunApplicable(s, FlatRun(f, g, x, edits))
    ensures Lists(f, B.Run(s, FlatRun(f, g, x, edits)), RunTree(x, edits))
    decreases |edits|
  {
    if edits != [] {
      var e, rest := FlatEdit(f, g, x, edits[0]), FlatRun(f, g, ApplyTree(x, edits[0]), edits[1..]);
      EditListed(f, g, x, edits[0], s);
      RunListed(f, g, ApplyTree(x, edits[0]), edits[1..], B.Apply(s, e));
      assert ([e] + rest)[0] == e && ([e] + rest)[1..] == rest;
    }
  }

  /** The flags of a listing are the flags of the tree. */
  lemma {:induction false} ItemFlags(x: Item, p: Path)
    ensures |ItemNodes(x, p)| == |Flags(x)| && forall i :: 0 <= i < |Flags(x)| ==> Flags(x)[i] == ItemNodes(x, p)[i].Attr?
    decreases x, 1, 0
  {
    KidFlags(x, p, 0);
    assert KidsOf(x)[0..] == KidsOf(x);
    FlagsAreFlags();
    FlagsOf(Flags, AllFlags, x);
  }

  lemma {:induction false} KidFlags(x: Item, p: Path, k: nat)
    requires k <= |KidsOf(x)|
    ensures var l := AllFlags(KidsOf(x)[k..]);
            |KidsNodes(x, p, k)| == |l| && forall i :: 0 <= i < |l| ==> l[i] == KidsNodes(x, p, k)[i].Attr?
    decreases x, 0, |KidsOf(x)| - k
  {
    var kids := KidsOf(x);
    if k < |kids| {
      ItemFlags(kids[k], p + [k]);
      KidFlags(x, p, k + 1);
      assert kids[k..][0] == kids[k] && kids[k..][1..] == kids[k + 1..];
    }
  }

  /** A state that lists a tree describes it as XPath sees it. */
  lemma ListedDescribes(s: B.State, x: Item)
    requires Lists(Flags, s, x)
    ensures var d := ItemForest(x, [0]); WellFormed(d) && Describes(s, d)
  {
    var d, nodes := ItemForest(x, [0]), ItemNodes(x, [0]);
    ItemFlags(x, [0]);
    ItemListed(x, [0]);
    ItemWhole(x, [0]);
    assert Elements(nodes) == AllNodes(d);
    SortedOfIs(nodes);
    forall i | 0 <= i < |nodes| ensures s.items[i].attribute == nodes[i].Attr? {
      assert FlagList(s.items)[i] == Flags(x)[i];
    }
  }

  /** What the parser stores of a document lists it. */
  lemma ParsedListed(t: seq<Byte>, o: M.Options)
    requires M.Parse(t, o).Parsed?
    ensures Lists(Flags, P.Loaded(t, o), Document(M.Parse(t, o).children)) && B.Inv(P.Loaded(t, o))
  {
    var x, s := Document(M.Parse(t, o).children), P.Loaded(t, o);
    P.LoadedInOrder(t, o);
    ItemMatches(x, [0]);
    ItemFlags(x, [0]);
    assert |P.Labels(s.items)| == |s.items|;
    forall i | 0 <= i < |s.items| ensures FlagList(s.items)[i] == Flags(x)[i] {
      assert P.Labels(s.items)[i] == P.LabelOf(s.items[i]);
    }
  }

  /** The state that the edits of a parsed document lead to. */
  ghost function Edited(t: seq<Byte>, o: M.Options, edits: seq<TreeEdit>): B.State
    requires M.Parse(t, o).Parsed? && RunApplies(Document(M.Parse(t, o).children), edits)
  {
    var x := Document(M.Parse(t, o).children);
    ParsedListed(t, o);
    FlagsAreFlags();
    RunListed(Flags, AllFlags, x, edits, P.Loaded(t, o));
    B.Run(P.Loaded(t, o), FlatRun(Flags, AllFlags, x, edits))
  }

  /** Parse, edit in any way, compare by addresses: the shortcut is faithful to the tree that the
      edits have made. */
  lemma EditedFaithful(t: seq<Byte>, o: M.Options, edits: seq<TreeEdit>, buffer: BufferOrder)
    requires M.Parse(t, o).Parsed? && RunApplies(Document(M.Parse(t, o).children), edits)
    ensures var d := ItemForest(RunTree(Document(M.Parse(t, o).children), edits), [0]);
            WellFormed(d) && Describes(Edited(t, o, edits), d) && (Addressed(Edited(t, o, edits), d, buffer) ==> Faithful(d, buffer))
  {
    var x := Document(M.Parse(t, o).children);
    var y := RunTree(x, edits);
    ParsedListed(t, o);
    FlagsAreFlags();
    RunListed(Flags, AllFlags, x, edits, P.Loaded(t, o));
    ListedDescribes(Edited(t, o, edits), y);
    B.RunKeeps(P.Loaded(t, o), FlatRun(Flags, AllFlags, x, edits));
    if Addressed(Edited(t, o, edits), ItemForest(y, [0]), buffer) {
      AddressedFaithful(Edited(t, o, edits), ItemForest(y, [0]), buffer);
    }
  }

  /** The comparator on a document that came from parsing `t` and any edits of its tree. */
  method CompareEdited(ghost t: seq<Byte>, ghost o: M.Options, ghost edits: seq<TreeEdit>, d: Forest, buffer: BufferOrder,
                       lhs: XNode, rhs: XNode) returns (before: bool)
    requires M.Parse(t, o).Parsed? && RunApplies(Document(M.Parse(t, o).children), edits)
    requires d == ItemForest(RunTree(Document(M.Parse(t, o).children), edits), [0])
    requires Describes(Edited(t, o, edits), d) ==> Addressed(Edited(t, o, edits), d, buffer)
    requires lhs.Nothing? || ValidNode(d, lhs)
    requires rhs.Nothing? || ValidNode(d, rhs)
    ensures lhs != rhs ==> before == Before(lhs, rhs)
    ensures lhs == rhs ==> before == (lhs.Attr? && buffer(lhs).None?)
  {
    EditedFaithful(t, o, edits, buffer);
    before := CompareNodes(d, buffer, lhs, rhs);
  }
}
