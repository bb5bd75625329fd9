/**
  Removing repeated nodes from a node set in place.
 */
module Duplicates {
  import opened DocumentOrder
  import opened Axes
  import opened Xpath
  import opened Evaluator
  import opened NodeSets
  import opened Hashing

  // ----- The hash table -----

  ghost function Keys(t: seq<XNode>): set<XNode> {
    set b | 0 <= b < |t| && !t[b].Nothing? :: t[b]
  }

  /** The key in a bucket is found by its own probe sequence, before any empty bucket. */
  ghost predicate FoundAt(t: seq<XNode>, start: nat, key: XNode, i: nat, b: nat) {
    && i < |t| && Probe(start, i, |t|) == b
    && (forall j :: 0 <= j < i ==> !t[Probe(start, j, |t|)].Nothing? && t[Probe(start, j, |t|)] != key)
  }

  ghost predicate Findable(t: seq<XNode>, hash: XNode -> nat, b: nat)
    requires b < |t|
  {
    !t[b].Nothing? ==> exists i: nat :: FoundAt(t, hash(t[b]), t[b], i, b)
  }

  ghost predicate TableOk(t: seq<XNode>, hash: XNode -> nat) {
    PowerOfTwo(|t|) && forall b {:trigger Findable(t, hash, b)} :: 0 <= b < |t| ==> Findable(t, hash, b)
  }

  /** Every key sits in one bucket. */
  lemma KeysOnce(t: seq<XNode>, hash: XNode -> nat, b: nat, c: nat)
    requires TableOk(t, hash) && b < |t| && c < |t| && !t[b].Nothing? && t[b] == t[c]
    ensures b == c
  {
    assert Findable(t, hash, b) && Findable(t, hash, c);
    var i: nat :| FoundAt(t, hash(t[b]), t[b], i, b);
    var j: nat :| FoundAt(t, hash(t[c]), t[c], j, c);
  }

  lemma FullTable(t: seq<XNode>, hash: XNode -> nat)
    requires TableOk(t, hash) && forall b :: 0 <= b < |t| ==> !t[b].Nothing?
    ensures |Keys(t)| == |t|
  {
    forall b, c | 0 <= b < c < |t| && t[b] == t[c] ensures false { KeysOnce(t, hash, b, c); }
    DistinctSize(t);
    assert Keys(t) == Elements(t);
  }

  /** An empty bucket met before the key means the key is not in the table. */
  lemma KeyAbsent(t: seq<XNode>, hash: XNode -> nat, key: XNode, probe: nat)
    requires TableOk(t, hash) && !key.Nothing? && probe < |t|
    requires FoundAt(t, hash(key), key, probe, Probe(hash(key), probe, |t|))
    requires t[Probe(hash(key), probe, |t|)].Nothing?
    ensures key !in Keys(t)
  {
    forall b | 0 <= b < |t| ensures t[b] != key {
      assert Findable(t, hash, b);
      if t[b] == key {
        var i: nat :| FoundAt(t, hash(t[b]), t[b], i, b);
      }
    }
  }

  lemma InsertKeeps(t: seq<XNode>, hash: XNode -> nat, key: XNode, probe: nat)
    requires TableOk(t, hash) && !key.Nothing? && probe < |t|
    requires FoundAt(t, hash(key), key, probe, Probe(hash(key), probe, |t|))
    requires t[Probe(hash(key), probe, |t|)].Nothing?
    ensures var t' := t[Probe(hash(key), probe, |t|) := key]; TableOk(t', hash) && Keys(t') == Keys(t) + {key}
  {
    var b := Probe(hash(key), probe, |t|);
    var t' := t[b := key];
    KeyAbsent(t, hash, key, probe);
    forall c | 0 <= c < |t| ensures Findable(t', hash, c) {
      assert Findable(t, hash, c);
      if c == b {
        assert FoundAt(t', hash(key), key, probe, b) by {
          forall j | 0 <= j < probe ensures !t'[Probe(hash(key), j, |t|)].Nothing? && t'[Probe(hash(key), j, |t|)] != key {
            assert !t[Probe(hash(key), j, |t|)].Nothing?;
          }
        }
      } else if !t[c].Nothing? {
        var i: nat :| FoundAt(t, hash(t[c]), t[c], i, c);
        assert t[c] in Keys(t);
        assert FoundAt(t', hash(t[c]), t[c], i, c);
      }
    }
    assert t'[b] == key;
    forall x | x in Keys(t) ensures x in Keys(t') {
      var c :| 0 <= c < |t| && !t[c].Nothing? && t[c] == x;
      assert t'[c] == x;
    }
  }

  /** Inserts a key unless it is there; with a free bucket in the table the probing always ends in the loop. */
  method HashInsert(table: array<XNode>, hash: XNode -> nat, key: XNode) returns (inserted: bool)
    requires TableOk(table[..], hash) && !key.Nothing?
    requires |Keys(table[..])| < table.Length
    modifies table
    ensures TableOk(table[..], hash)
    ensures inserted <==> key !in old(Keys(table[..]))
    ensures Keys(table[..]) == old(Keys(table[..])) + {key}
  {
    var size := table.Length;
    var bucket := hash(key) % size;
    var probe := 0;
    ghost var t := table[..];
    assert Triangle(0) == 0;
    while probe < size
      invariant 0 <= probe <= size && table[..] == t
      invariant bucket == Probe(hash(key), probe, size)
      invariant forall j :: 0 <= j < probe ==> !t[Probe(hash(key), j, size)].Nothing? && t[Probe(hash(key), j, size)] != key
    {
      if table[bucket].Nothing? {
        KeyAbsent(t, hash, key, probe);
        InsertKeeps(t, hash, key, probe);
        table[bucket] := key;
        return true;
      }
      if table[bucket] == key {
        return false;
      }
      ProbeNext(hash(key), probe, size);
      bucket := (bucket + probe + 1) % size;
      probe := probe + 1;
    }
    forall b | 0 <= b < size ensures !t[b].Nothing? {
      ProbesReachAll(hash(key), b, size);
    }
    FullTable(t, hash);
    assert false;
    inserted := false;
  }

  // ----- Keeping the first of each -----

  /** The first occurrences among the first `k` nodes, nulls left out. */
  function KeepFirstTo(s: seq<XNode>, k: nat): seq<XNode>
    requires k <= |s|
  {
    if k == 0 then []
    else
      var r := KeepFirstTo(s, k - 1);
      if s[k - 1].Nothing? || s[k - 1] in r then r else r + [s[k - 1]]
  }

  lemma {:induction false} KeepFirstToIs(s: seq<XNode>, k: nat)
    requires k <= |s|
    ensures KeepFirstTo(s, k) == KeepFirst(DropNulls(s[..k]))
  {
    if k > 0 {
      KeepFirstToIs(s, k - 1);
      assert s[..k][..k - 1] == s[..k - 1];
      var t := DropNulls(s[..k - 1]);
      if s[k - 1].Nothing? {
        assert DropNulls(s[..k]) == t + [] == t;
      } else {
        assert (t + [s[k - 1]])[..|t|] == t;
      }
    }
  }

  lemma EmptyTable(t: seq<XNode>, hash: XNode -> nat)
    requires PowerOfTwo(|t|) && forall b :: 0 <= b < |t| ==> t[b].Nothing?
    ensures TableOk(t, hash) && Keys(t) == {}
  {
  }

  lemma {:induction false} DoublePower(n: nat)
    requires PowerOfTwo(n)
    ensures PowerOfTwo(2 * n)
  {
    assert 2 * n / 2 == n;
  }

  /** Removes nulls and repetitions with a hash table one and a half times the size, or more. */
  method KeepFirstInPlace(a: array<XNode>, hash: XNode -> nat) returns (write: nat)
    modifies a
    ensures write <= a.Length && a[..write] == KeepFirst(DropNulls(old(a[..])))
  {
    ghost var s := a[..];
    var size := a.Length;
    var hashSize := 1;
    while hashSize < size + size / 2
      invariant PowerOfTwo(hashSize) && a[..] == s
    {
      DoublePower(hashSize);
      hashSize := hashSize * 2;
    }
    if size == 0 {
      assert a[..] == [];
      write := 0;
      return;
    }
    var table := new XNode[hashSize](_ => Nothing);
    EmptyTable(table[..], hash);
    assert Elements<XNode>([]) == {};
    assert a[..] == s;
    write := KeepNew(a, table, hash);
  }

  /** The pass over the nodes: every key not yet in the table is kept. */
  method KeepNew(a: array<XNode>, table: array<XNode>, hash: XNode -> nat) returns (write: nat)
    requires a != table && a.Length <= table.Length
    requires TableHolds(table[..], hash, [])
    modifies a, table
    ensures write <= a.Length && a[..write] == KeepFirst(DropNulls(old(a[..])))
  {
    ghost var s, kept := a[..], [];
    write := 0;
    var it := 0;
    while it != a.Length
      invariant 0 <= write <= it <= a.Length
      invariant |kept| == write && forall k :: 0 <= k < write ==> a[k] == kept[k]
      invariant kept == KeepFirstTo(s, it)
      invariant forall k :: it <= k < a.Length ==> a[k] == s[k]
      invariant TableHolds(table[..], hash, kept)
    {
      var key := a[it];
      if !key.Nothing? {
        var inserted := InsertNew(table, hash, key, kept);
        if inserted {
          a[write] := key;
          write := write + 1;
          kept := kept + [key];
        }
      }
      it := it + 1;
    }
    KeepFirstToIs(s, |s|);
    assert s[..|s|] == s;
    assert a[..write] == kept;
  }

  ghost predicate TableHolds(t: seq<XNode>, hash: XNode -> nat, kept: seq<XNode>) {
    TableOk(t, hash) && Keys(t) == Elements(kept)
  }

  method InsertNew(table: array<XNode>, hash: XNode -> nat, key: XNode, ghost kept: seq<XNode>) returns (inserted: bool)
    requires TableHolds(table[..], hash, kept) && !key.Nothing? && |kept| < table.Length
    modifies table
    ensures inserted <==> key !in kept
    ensures TableHolds(table[..], hash, if inserted then kept + [key] else kept)
  {
    KeysFit(kept);
    inserted := HashInsert(table, hash, key);
    assert key in kept <==> key in Elements(kept);
    assert Elements(kept + [key]) == Elements(kept) + {key};
  }

  lemma {:induction false} KeysFit(s: seq<XNode>)
    ensures |Elements(s)| <= |s|
  {
    if s != [] {
      assert Elements(s) == Elements(s[..|s| - 1]) + {s[|s| - 1]};
      KeysFit(s[..|s| - 1]);
    }
  }

  // ----- Keeping changes -----

  function KeepChangesTo(s: seq<XNode>, k: nat): seq<XNode>
    requires k <= |s|
  {
    if k == 0 then []
    else
      var r := KeepChangesTo(s, k - 1);
      if r != [] && r[|r| - 1] == s[k - 1] then r else r + [s[k - 1]]
  }

  lemma {:induction false} KeepChangesToIs(s: seq<XNode>, k: nat)
    requires k <= |s|
    ensures KeepChangesTo(s, k) == KeepChanges(s[..k])
  {
    if k > 0 {
      KeepChangesToIs(s, k - 1);
      assert s[..k][..k - 1] == s[..k - 1];
    }
  }

  /** Drops every node equal to the one before it; skips the part of the array that stays as it is. */
  method UniqueInPlace(a: array<XNode>) returns (end: nat)
    modifies a
    ensures end <= a.Length && a[..end] == KeepChanges(old(a[..]))
  {
    ghost var s := a[..];
    KeepChangesToIs(s, |s|);
    assert s[..|s|] == s;
    var begin := SkipHead(a);
    assert a[..] == s;
    if begin == a.Length {
      return begin;
    }
    end := MergeUnique(a, begin);
  }

  /** Merges runs of equals, given that nothing changes up to `head`. */
  method MergeUnique(a: array<XNode>, head: nat) returns (end: nat)
    requires head < a.Length && KeepChangesTo(a[..], head + 1) == a[..head + 1]
    modifies a
    ensures end <= a.Length && a[..end] == KeepChangesTo(old(a[..]), a.Length)
  {
    ghost var s, kept := a[..], a[..head + 1];
    var write, begin := head, head + 1;
    while begin != a.Length
      invariant 0 <= write < begin <= a.Length
      invariant |kept| == write + 1 && forall k :: 0 <= k <= write ==> a[k] == kept[k]
      invariant kept == KeepChangesTo(s, begin)
      invariant forall k :: begin <= k < a.Length ==> a[k] == s[k]
    {
      if a[begin] != a[write] {
        write := write + 1;
        a[write] := a[begin];
        kept := kept + [s[begin]];
      }
      begin := begin + 1;
    }
    assert a[..write + 1] == kept;
    end := write + 1;
  }

  /** The start of the first run of equal neighbours. */
  method SkipHead(a: array<XNode>) returns (begin: nat)
    ensures begin < a.Length || begin == a.Length == 0
    ensures begin < a.Length ==> KeepChangesTo(a[..], begin + 1) == a[..begin + 1]
  {
    begin := 0;
    while a.Length - begin > 1 && a[begin] != a[begin + 1]
      invariant begin < a.Length || begin == a.Length == 0
      invariant begin < a.Length ==> KeepChangesTo(a[..], begin + 1) == a[..begin + 1]
    {
      begin := begin + 1;
    }
  }
}
