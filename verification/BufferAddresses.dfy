/**
  Why comparing text addresses is a sound way to compare nodes: the names and values of a
  parsed document lie in the parse buffer in document order, and every edit either keeps
  the addresses that are still in use in order or raises a flag that stops their use.
 */
module BufferAddresses {

  /** Where a name or value is stored. */
  datatype Text = Null | InBuffer(at: nat, length: nat) | OnHeap(length: nat)

  /** A node or an attribute, with the flag bits of its header. */
  datatype Item = Item(attribute: bool, name: Text, value: Text,
                       nameAllocated: bool, valueAllocated: bool, shared: bool)

  /** The nodes and attributes of a document in document order, and the document's own flag. */
  datatype State = State(items: seq<Item>, shared: bool)

  /** The address by which an item is compared, if any. */
  function OrderAddress(s: State, i: nat): (a: Option)
    requires i < |s.items|
  {
    var x := s.items[i];
    if s.shared then NoAddress
    else if x.attribute then
      if !x.nameAllocated && !x.shared then AddressOf(x.name)
      else if !x.valueAllocated && !x.shared then AddressOf(x.value)
      else NoAddress
    else
      if !x.name.Null? && !x.nameAllocated && !x.shared then AddressOf(x.name)
      else if !x.value.Null? && !x.valueAllocated && !x.shared then AddressOf(x.value)
      else NoAddress
  }

  datatype Option = NoAddress | Address(a: nat)

  function AddressOf(t: Text): Option {
    if t.InBuffer? then Address(t.at) else NoAddress
  }

  // ----- Edits -----

  /** Overwrites a string in place when it fits, else allocates; nothing is left of an empty string. */
  function CopyInsitu(t: Text, owned: bool, shared: bool, n: nat): (Text, bool) {
    if n == 0 then (Null, false)
    else if !t.Null? && ReuseAllowed(t.length, owned, shared, n) then (t.(length := n), owned)
    else (OnHeap(n), true)
  }

  predicate ReuseAllowed(length: nat, owned: bool, shared: bool, n: nat) {
    if shared then false
    else if !owned then length >= n
    else length >= n && (length < 32 || length - n < length / 2)
  }

  /** A copied string is shared while it lies in the buffer and duplicated once it is on the heap. */
  function CopiedText(t: Text, owned: bool): (Text, bool) {
    if t.Null? then (Null, false)
    else if !owned then (t, false)
    else CopyInsitu(Null, false, false, t.length)
  }

  /** Sharing either string marks both headers. */
  predicate CopyShares(x: Item) {
    (!x.name.Null? && !x.nameAllocated) || (!x.value.Null? && !x.valueAllocated)
  }

  function CopyOf(x: Item): Item {
    var (name, nameAllocated) := CopiedText(x.name, x.nameAllocated);
    var (value, valueAllocated) := CopiedText(x.value, x.valueAllocated);
    Item(x.attribute, name, value, nameAllocated, valueAllocated, CopyShares(x))
  }

  function MarkedSource(x: Item): Item {
    x.(shared := x.shared || CopyShares(x))
  }

  /** A copy from another document gets strings of its own. */
  function ForeignCopyOf(x: Item): Item {
    var (name, nameAllocated) := CopyInsitu(Null, false, false, if x.name.Null? then 0 else x.name.length);
    var (value, valueAllocated) := CopyInsitu(Null, false, false, if x.value.Null? then 0 else x.value.length);
    Item(x.attribute, name, value, nameAllocated, valueAllocated, false)
  }

  function CopiesOf(items: seq<Item>): seq<Item> {
    seq(|items|, i requires 0 <= i < |items| => CopyOf(items[i]))
  }

  function ForeignCopiesOf(items: seq<Item>): seq<Item> {
    seq(|items|, i requires 0 <= i < |items| => ForeignCopyOf(items[i]))
  }

  function Marked(items: seq<Item>, lo: nat, hi: nat): seq<Item> {
    seq(|items|, i requires 0 <= i < |items| => if lo <= i < hi then MarkedSource(items[i]) else items[i])
  }

  function InsertAt(items: seq<Item>, at: nat, block: seq<Item>): seq<Item>
    requires at <= |items|
  {
    items[..at] + block + items[at..]
  }

  datatype Edit =
    | SetName(i: nat, length: nat)
    | SetValue(i: nat, length: nat)
    /** a new node or attribute, still without strings */
    | Insert(at: nat, attribute: bool)
    /** a node with its subtree, or an attribute */
    | Remove(lo: nat, hi: nat)
    /** copies of the items from `lo` to `hi`, placed elsewhere */
    | Copy(lo: nat, hi: nat, at: nat)
    | CopyForeign(block: seq<Item>, at: nat)
    | Move(lo: nat, hi: nat, at: nat)
    | AppendBuffer(at: nat, block: seq<Item>)

  predicate Applicable(s: State, e: Edit) {
    match e
    case SetName(i, _) => i < |s.items|
    case SetValue(i, _) => i < |s.items|
    case Insert(at, _) => at <= |s.items|
    case Remove(lo, hi) => lo <= hi <= |s.items|
    case Copy(lo, hi, at) => lo <= hi <= |s.items| && at <= |s.items|
    case CopyForeign(_, at) => at <= |s.items|
    case Move(lo, hi, at) => lo <= hi <= |s.items| && at <= |s.items| - (hi - lo)
    case AppendBuffer(at, _) => at <= |s.items|
  }

  function Apply(s: State, e: Edit): State
    requires Applicable(s, e)
  {
    match e
    case SetName(i, n) =>
      var x := s.items[i];
      var (t, owned) := CopyInsitu(x.name, x.nameAllocated, x.shared, n);
      s.(items := s.items[i := x.(name := t, nameAllocated := owned)])
    case SetValue(i, n) =>
      var x := s.items[i];
      var (t, owned) := CopyInsitu(x.value, x.valueAllocated, x.shared, n);
      s.(items := s.items[i := x.(value := t, valueAllocated := owned)])
    case Insert(at, attribute) => s.(items := InsertAt(s.items, at, [Item(attribute, Null, Null, false, false, false)]))
    case Remove(lo, hi) => s.(items := s.items[..lo] + s.items[hi..])
    case Copy(lo, hi, at) =>
      s.(items := InsertAt(Marked(s.items, lo, hi), at, CopiesOf(s.items[lo..hi])))
    case CopyForeign(block, at) => s.(items := InsertAt(s.items, at, ForeignCopiesOf(block)))
    case Move(lo, hi, at) => State(InsertAt(s.items[..lo] + s.items[hi..], at, s.items[lo..hi]), true)
    case AppendBuffer(at, block) => State(InsertAt(s.items, at, block), true)
  }

  predicate RunApplicable(s: State, edits: seq<Edit>)
    decreases |edits|
  {
    edits != [] ==> Applicable(s, edits[0]) && RunApplicable(Apply(s, edits[0]), edits[1..])
  }

  function Run(s: State, edits: seq<Edit>): State
    requires RunApplicable(s, edits)
    decreases |edits|
  {
    if edits == [] then s else Run(Apply(s, edits[0]), edits[1..])
  }

  // ----- The invariant -----

  /** Buffer addresses an item still answers for. */
  function Addresses(x: Item): set<nat> {
    if x.shared then {}
    else
      (if x.name.InBuffer? && !x.nameAllocated then {x.name.at} else {}) +
      (if x.value.InBuffer? && !x.valueAllocated then {x.value.at} else {})
  }

  ghost predicate InOrder(items: seq<Item>) {
    forall i, j, p, q :: 0 <= i < j < |items| && p in Addresses(items[i]) && q in Addresses(items[j]) ==> p < q
  }

  ghost predicate Inv(s: State) {
    s.shared || InOrder(s.items)
  }

  lemma ReplaceKeeps(items: seq<Item>, i: nat, x: Item)
    requires InOrder(items) && i < |items| && Addresses(x) <= Addresses(items[i])
    ensures InOrder(items[i := x])
  {
  }

  lemma MarkKeeps(items: seq<Item>, lo: nat, hi: nat)
    requires InOrder(items)
    ensures InOrder(Marked(items, lo, hi))
  {
    assert forall i :: 0 <= i < |items| ==> Addresses(Marked(items, lo, hi)[i]) <= Addresses(items[i]);
  }

  lemma InsertKeeps(items: seq<Item>, at: nat, block: seq<Item>)
    requires InOrder(items) && at <= |items| && forall i :: 0 <= i < |block| ==> Addresses(block[i]) == {}
    ensures InOrder(InsertAt(items, at, block))
  {
    var r := InsertAt(items, at, block);
    forall i | 0 <= i < |r| ensures r[i] == if i < at then items[i] else if i < at + |block| then block[i - at] else items[i - |block|] { }
  }

  lemma RemoveKeeps(items: seq<Item>, lo: nat, hi: nat)
    requires InOrder(items) && lo <= hi <= |items|
    ensures InOrder(items[..lo] + items[hi..])
  {
    var r := items[..lo] + items[hi..];
    forall i | 0 <= i < |r| ensures r[i] == if i < lo then items[i] else items[i + (hi - lo)] { }
  }

  /** Overwriting a string in place keeps its address; a string put elsewhere gives its address up. */
  lemma StepKeeps(s: State, e: Edit)
    requires Inv(s) && Applicable(s, e)
    ensures Inv(Apply(s, e))
  {
    if !s.shared {
      match e
      case SetName(i, n) => ReplaceKeeps(s.items, i, Apply(s, e).items[i]);
      case SetValue(i, n) => ReplaceKeeps(s.items, i, Apply(s, e).items[i]);
      case Insert(at, attribute) => InsertKeeps(s.items, at, [Item(attribute, Null, Null, false, false, false)]);
      case Remove(lo, hi) => RemoveKeeps(s.items, lo, hi);
      case Copy(lo, hi, at) =>
        MarkKeeps(s.items, lo, hi);
        InsertKeeps(Marked(s.items, lo, hi), at, CopiesOf(s.items[lo..hi]));
      case CopyForeign(block, at) => InsertKeeps(s.items, at, ForeignCopiesOf(block));
      case _ =>
    }
  }

  lemma {:induction false} RunKeeps(s: State, edits: seq<Edit>)
    requires Inv(s) && RunApplicable(s, edits)
    ensures Inv(Run(s, edits))
    decreases |edits|
  {
    if edits != [] {
      StepKeeps(s, edits[0]);
      RunKeeps(Apply(s, edits[0]), edits[1..]);
    }
  }

  /** Addresses that are compared agree with the order of the items. */
  lemma AddressesAgree(s: State, i: nat, j: nat)
    requires Inv(s) && i < |s.items| && j < |s.items| && i != j
    requires OrderAddress(s, i).Address? && OrderAddress(s, j).Address?
    ensures OrderAddress(s, i).a < OrderAddress(s, j).a <==> i < j
  {
    assert OrderAddress(s, i).a in Addresses(s.items[i]);
    assert OrderAddress(s, j).a in Addresses(s.items[j]);
  }
}
