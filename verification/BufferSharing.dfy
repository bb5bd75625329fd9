/**
  Why a string in the parse buffer may be overwritten in place: one that another node or
  attribute uses as well is marked as shared, and one that is marked is never overwritten.
 */
module BufferSharing {
  import opened BufferAddresses

  /** Two strings with their NULs do not overlap in the buffer. */
  predicate Apart(a: Text, b: Text) {
    a.InBuffer? && b.InBuffer? ==> a.at + a.length < b.at || b.at + b.length < a.at
  }

  /** The first string lies where the second one does. */
  predicate Inside(a: Text, b: Text) {
    a.InBuffer? ==> b.InBuffer? && b.at <= a.at && a.at + a.length <= b.at + b.length
  }

  predicate ApartItems(x: Item, y: Item) {
    Apart(x.name, y.name) && Apart(x.name, y.value) && Apart(x.value, y.name) && Apart(x.value, y.value)
  }

  /** Strings of its own lie on the heap, and name and value are different strings. */
  predicate Sound(x: Item) {
    (x.nameAllocated ==> !x.name.InBuffer?) && (x.valueAllocated ==> !x.value.InBuffer?) && Apart(x.name, x.value)
  }

  predicate Separate(x: Item, y: Item) {
    ApartItems(x, y) || (x.shared && y.shared)
  }

  /** Whatever overlaps is marked at both ends. */
  ghost predicate Exclusive(items: seq<Item>) {
    && (forall i :: 0 <= i < |items| ==> Sound(items[i]))
    && (forall i, j :: 0 <= i < j < |items| ==> Separate(items[i], items[j]))
  }

  /** A buffer that is parsed into the document has addresses that are not in use, and so do the
      strings of the nodes parsed from it among each other. */
  ghost predicate Foreign(items: seq<Item>, block: seq<Item>) {
    && Exclusive(block)
    && forall i, j :: 0 <= i < |items| && 0 <= j < |block| ==> ApartItems(items[i], block[j])
  }

  ghost predicate OwnBuffer(s: State, e: Edit) {
    e.AppendBuffer? ==> Foreign(s.items, e.block)
  }

  // ----- One edit -----

  /** What an item becomes when one of its strings is set, copied or marked: its strings stay where
      they are, at most, and a mark is not taken away. */
  predicate Shrunk(x: Item, y: Item) {
    Sound(x) && Inside(x.name, y.name) && Inside(x.value, y.value) && (y.shared ==> x.shared)
  }

  lemma ShrunkSeparate(x: Item, y: Item, x': Item, y': Item)
    requires Separate(x, y) && Shrunk(x', x) && Shrunk(y', y)
    ensures Separate(x', y') && Separate(y', x')
  {
  }

  lemma AllShrunk(items: seq<Item>, items': seq<Item>)
    requires Exclusive(items) && |items'| == |items|
    requires forall i :: 0 <= i < |items| ==> Shrunk(items'[i], items[i])
    ensures Exclusive(items')
  {
    forall i, j | 0 <= i < j < |items'| ensures Separate(items'[i], items'[j]) {
      ShrunkSeparate(items[i], items[j], items'[i], items'[j]);
    }
  }

  lemma NameSet(x: Item, n: nat)
    requires Sound(x)
    ensures var (t, owned) := CopyInsitu(x.name, x.nameAllocated, x.shared, n);
      Shrunk(x.(name := t, nameAllocated := owned), x)
  {
  }

  lemma ValueSet(x: Item, n: nat)
    requires Sound(x)
    ensures var (t, owned) := CopyInsitu(x.value, x.valueAllocated, x.shared, n);
      Shrunk(x.(value := t, valueAllocated := owned), x)
  {
  }

  /** A copy and its original share their strings in the buffer, and both are marked if there are
      any. */
  lemma CopyMarked(x: Item)
    requires Sound(x)
    ensures Shrunk(CopyOf(x), x.(shared := CopyShares(x))) && Shrunk(MarkedSource(x), x)
    ensures Separate(CopyOf(x), MarkedSource(x))
  {
  }

  /** What a copy overlaps, its original does. */
  lemma CopySeparate(x: Item, y: Item, y': Item)
    requires Sound(x) && Separate(x, y) && Shrunk(y', y)
    ensures Separate(CopyOf(x), y') && Separate(y', CopyOf(x))
  {
    CopyMarked(x);
    if !ApartItems(x, y) {
      assert !ApartItems(CopyOf(x), y') ==> CopyShares(x);
    }
  }

  lemma Inserted(items: seq<Item>, at: nat, block: seq<Item>)
    requires Exclusive(items) && Exclusive(block) && at <= |items|
    requires forall i, j :: 0 <= i < |items| && 0 <= j < |block| ==> Separate(items[i], block[j])
    ensures Exclusive(InsertAt(items, at, block))
  {
    var r := InsertAt(items, at, block);
    forall i | 0 <= i < |r|
      ensures r[i] == if i < at then items[i] else if i < at + |block| then block[i - at] else items[i - |block|]
    {
    }
    forall i, j | 0 <= i < j < |r| ensures Separate(r[i], r[j]) {
      if i < at + |block| && at <= i && at + |block| <= j {
        assert Separate(items[j - |block|], block[i - at]);
      }
    }
  }

  lemma Removed(items: seq<Item>, lo: nat, hi: nat)
    requires Exclusive(items) && lo <= hi <= |items|
    ensures Exclusive(items[..lo] + items[hi..]) && Exclusive(items[lo..hi])
    ensures forall i, j :: 0 <= i < |items[..lo] + items[hi..]| && 0 <= j < hi - lo ==>
      Separate((items[..lo] + items[hi..])[i], items[lo..hi][j])
  {
    var r := items[..lo] + items[hi..];
    forall i | 0 <= i < |r| ensures r[i] == if i < lo then items[i] else items[i + (hi - lo)] { }
    forall i, j | 0 <= i < |r| && 0 <= j < hi - lo ensures Separate(r[i], items[lo..hi][j]) {
      if i >= lo {
        assert Separate(items[lo + j], items[i + (hi - lo)]);
      }
    }
  }

  lemma EitherWay(items: seq<Item>, i: nat, j: nat)
    requires Exclusive(items) && i < |items| && j < |items| && i != j
    ensures Separate(items[i], items[j])
  {
    if j < i {
      assert Separate(items[j], items[i]);
    }
  }

  lemma Copied(items: seq<Item>, lo: nat, hi: nat, at: nat)
    requires Exclusive(items) && lo <= hi <= |items| && at <= |items|
    ensures Exclusive(InsertAt(Marked(items, lo, hi), at, CopiesOf(items[lo..hi])))
  {
    var marked, copies := Marked(items, lo, hi), CopiesOf(items[lo..hi]);
    forall i | 0 <= i < |items| ensures Shrunk(marked[i], items[i]) {
      CopyMarked(items[i]);
    }
    AllShrunk(items, marked);
    forall j | 0 <= j < |copies| ensures copies[j] == CopyOf(items[lo + j]) && Sound(copies[j]) {
      CopyMarked(items[lo + j]);
    }
    forall i, j | 0 <= i < |items| && 0 <= j < |copies| ensures Separate(marked[i], copies[j]) {
      if i == lo + j {
        CopyMarked(items[i]);
      } else {
        EitherWay(items, lo + j, i);
        CopySeparate(items[lo + j], items[i], marked[i]);
      }
    }
    forall i, j | 0 <= i < j < |copies| ensures Separate(copies[i], copies[j]) {
      CopiesSeparate(items[lo + i], items[lo + j]);
    }
    Inserted(marked, at, copies);
  }

  lemma CopiesSeparate(x: Item, y: Item)
    requires Sound(x) && Sound(y) && Separate(x, y)
    ensures Separate(CopyOf(x), CopyOf(y))
  {
    CopyMarked(x);
    CopyMarked(y);
  }

  /** Every edit keeps what overlaps marked. */
  lemma EditKeepsExclusive(s: State, e: Edit)
    requires Exclusive(s.items) && Applicable(s, e) && OwnBuffer(s, e)
    ensures Exclusive(Apply(s, e).items)
  {
    match e
    case SetName(i, n) =>
      NameSet(s.items[i], n);
      AllShrunk(s.items, Apply(s, e).items);
    case SetValue(i, n) =>
      ValueSet(s.items[i], n);
      AllShrunk(s.items, Apply(s, e).items);
    case Insert(at, attribute) => Inserted(s.items, at, [Item(attribute, Null, Null, false, false, false)]);
    case Remove(lo, hi) => Removed(s.items, lo, hi);
    case Copy(lo, hi, at) => Copied(s.items, lo, hi, at);
    case CopyForeign(block, at) => Inserted(s.items, at, ForeignCopiesOf(block));
    case Move(lo, hi, at) =>
      Removed(s.items, lo, hi);
      Inserted(s.items[..lo] + s.items[hi..], at, s.items[lo..hi]);
    case AppendBuffer(at, block) => Inserted(s.items, at, block);
  }

  /** A run in which every buffer that is parsed into the document is one of its own. */
  ghost predicate OwnBuffers(s: State, edits: seq<Edit>)
    requires RunApplicable(s, edits)
    decreases |edits|
  {
    edits != [] ==> OwnBuffer(s, edits[0]) && OwnBuffers(Apply(s, edits[0]), edits[1..])
  }

  lemma {:induction false} RunKeepsExclusive(s: State, edits: seq<Edit>)
    requires Exclusive(s.items) && RunApplicable(s, edits) && OwnBuffers(s, edits)
    ensures Exclusive(Run(s, edits).items)
    decreases |edits|
  {
    if edits != [] {
      EditKeepsExclusive(s, edits[0]);
      RunKeepsExclusive(Apply(s, edits[0]), edits[1..]);
    }
  }

  // ----- What that is for -----

  /** Whenever setting a name leaves it in the buffer, it has been written over no more than the old
      name, and no other string of the document overlaps that; after any run of edits. */
  lemma NameOverwritesItself(s: State, edits: seq<Edit>, i: nat, n: nat, j: nat)
    requires Exclusive(s.items) && RunApplicable(s, edits) && OwnBuffers(s, edits)
    requires var r := Run(s, edits); i < |r.items| && j < |r.items|
    ensures var r := Run(s, edits); var x, y := r.items[i], r.items[j];
      var t := Apply(r, SetName(i, n)).items[i].name;
      t.InBuffer? ==>
        Inside(t, x.name) && t.length == n && Apart(x.name, x.value)
        && (j != i ==> Apart(x.name, y.name) && Apart(x.name, y.value))
  {
    RunKeepsExclusive(s, edits);
  }

  lemma ValueOverwritesItself(s: State, edits: seq<Edit>, i: nat, n: nat, j: nat)
    requires Exclusive(s.items) && RunApplicable(s, edits) && OwnBuffers(s, edits)
    requires var r := Run(s, edits); i < |r.items| && j < |r.items|
    ensures var r := Run(s, edits); var x, y := r.items[i], r.items[j];
      var t := Apply(r, SetValue(i, n)).items[i].value;
      t.InBuffer? ==>
        Inside(t, x.value) && t.length == n && Apart(x.value, x.name)
        && (j != i ==> Apart(x.value, y.name) && Apart(x.value, y.value))
  {
    RunKeepsExclusive(s, edits);
  }
}
