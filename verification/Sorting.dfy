/**
  The sort behind node sets: insertion sort for small ranges, three-way quicksort above,
  recursing on the smaller side and looping on the larger.
 */
module Sorting {

  /** Total, asymmetric and transitive on different arguments.  Nothing is said of an argument
      compared with itself. */
  ghost predicate Orders<T(!new)>(less: (T, T) -> bool) {
    && (forall x, y :: x != y ==> less(x, y) != less(y, x))
    && (forall x, y, z :: x != z && less(x, y) && less(y, z) ==> less(x, z))
  }

  /** A member that occurs more than once is not before itself.  So it is in every range
      without repetitions, and in every range if nothing is before itself. */
  ghost predicate Suits<T(!new)>(s: seq<T>, begin: nat, end: nat, less: (T, T) -> bool)
    requires begin <= end <= |s|
  {
    forall i, j :: begin <= i < j < end && s[i] == s[j] ==> !less(s[i], s[j])
  }

  /** What occurs twice in a range occurs twice in a rearrangement of it. */
  lemma {:induction false} Twice<T>(s: seq<T>, x: T) returns (i: nat, j: nat)
    requires multiset(s)[x] >= 2
    ensures i < j < |s| && s[i] == s[j] == x
  {
    var n := |s| - 1;
    assert s == s[..n] + [s[n]];
    if s[n] == x {
      assert x in multiset(s[..n]);
      i, j :| 0 <= i < n && j == n && s[i] == x;
    } else {
      i, j := Twice(s[..n], x);
    }
  }

  lemma TwiceCounted<T>(s: seq<T>, i: nat, j: nat)
    requires i < j < |s| && s[i] == s[j]
    ensures multiset(s)[s[i]] >= 2
  {
    assert s == s[..j] + [s[j]] + s[j + 1..];
    assert s[i] in s[..j];
  }

  lemma SuitsKeeps<T(!new)>(s: seq<T>, t: seq<T>, begin: nat, end: nat, less: (T, T) -> bool)
    requires Rearranged(s, t, begin, end) && Suits(s, begin, end, less)
    ensures Suits(t, begin, end, less)
  {
    forall i, j | begin <= i < j < end && t[i] == t[j] ensures !less(t[i], t[j]) {
      TwiceCounted(t[begin..end], i - begin, j - begin);
      var k, l := Twice(s[begin..end], t[i]);
      assert s[begin + k] == t[i] && s[begin + l] == t[i];
    }
  }

  /** `t` is `s` with the range from `begin` to `end` rearranged and nothing else changed. */
  ghost predicate Rearranged<T>(s: seq<T>, t: seq<T>, begin: nat, end: nat) {
    && begin <= end <= |s| == |t|
    && multiset(t[begin..end]) == multiset(s[begin..end])
    && t[..begin] == s[..begin]
    && t[end..] == s[end..]
  }

  ghost predicate SortedRange<T>(s: seq<T>, begin: nat, end: nat, less: (T, T) -> bool)
    requires begin <= end <= |s|
  {
    forall i, j :: begin <= i < j < end ==> !less(s[j], s[i])
  }

  lemma RearrangedTrans<T>(s: seq<T>, t: seq<T>, u: seq<T>, begin: nat, end: nat)
    requires Rearranged(s, t, begin, end) && Rearranged(t, u, begin, end)
    ensures Rearranged(s, u, begin, end)
  {
  }

  lemma RearrangedWiden<T>(s: seq<T>, t: seq<T>, begin: nat, end: nat, b: nat, e: nat)
    requires Rearranged(s, t, begin, end) && b <= begin && end <= e <= |s|
    ensures Rearranged(s, t, b, e)
  {
    assert s[b..e] == s[..begin][b..] + s[begin..end] + s[end..][..e - end];
    assert t[b..e] == t[..begin][b..] + t[begin..end] + t[end..][..e - end];
    assert t[..b] == t[..begin][..b] == s[..b];
    assert t[e..] == t[end..][e - end..] == s[e..];
  }

  /** A rearranged range has the members it had. */
  lemma RearrangedMember<T>(s: seq<T>, t: seq<T>, begin: nat, end: nat, k: nat) returns (j: nat)
    requires Rearranged(s, t, begin, end) && begin <= k < end
    ensures begin <= j < end && s[j] == t[k]
  {
    assert t[k] == t[begin..end][k - begin];
    assert t[k] in multiset(t[begin..end]);
    assert t[k] in s[begin..end];
    var i :| 0 <= i < end - begin && s[begin..end][i] == t[k];
    j := begin + i;
  }

  lemma RearrangedOutside<T>(s: seq<T>, t: seq<T>, begin: nat, end: nat)
    requires Rearranged(s, t, begin, end)
    ensures forall k :: 0 <= k < begin || end <= k < |s| ==> t[k] == s[k]
  {
    assert forall k :: 0 <= k < begin ==> t[k] == t[..begin][k] && s[k] == s[..begin][k];
    assert forall k :: end <= k < |s| ==> t[k] == t[end..][k - end] && s[k] == s[end..][k - end];
  }

  // ----- Swapping -----

  function Swapped<T>(s: seq<T>, i: nat, j: nat): (t: seq<T>)
    requires i < |s| && j < |s|
  {
    s[i := s[j]][j := s[i]]
  }

  lemma SwappedPermutes<T>(s: seq<T>, i: nat, j: nat)
    requires i < |s| && j < |s|
    ensures multiset(Swapped(s, i, j)) == multiset(s)
  {
    assert multiset(s[i := s[j]]) == multiset(s) - multiset{s[i]} + multiset{s[j]};
  }

  lemma SwappedRearranges<T>(s: seq<T>, i: nat, j: nat, begin: nat, end: nat)
    requires begin <= i < end <= |s| && begin <= j < end
    ensures Rearranged(s, Swapped(s, i, j), begin, end)
  {
    SwappedPermutes(s[begin..end], i - begin, j - begin);
    assert Swapped(s, i, j)[begin..end] == Swapped(s[begin..end], i - begin, j - begin);
  }

  method Swap<T>(a: array<T>, i: nat, j: nat)
    requires i < a.Length && j < a.Length
    modifies a
    ensures a[..] == Swapped(old(a[..]), i, j)
  {
    a[i], a[j] := a[j], a[i];
  }

  // ----- Insertion sort -----

  method InsertionSort<T(!new)>(a: array<T>, begin: nat, end: nat, less: (T, T) -> bool)
    requires begin <= end <= a.Length && Orders(less) && Suits(a[..], begin, end, less)
    modifies a
    ensures SortedRange(a[..], begin, end, less)
    ensures Rearranged(old(a[..]), a[..], begin, end)
  {
    if begin == end { return; }
    var it := begin + 1;
    while it != end
      invariant begin < it <= end
      invariant SortedRange(a[..], begin, it, less)
      invariant Rearranged(old(a[..]), a[..], begin, end)
    {
      ghost var s := a[..];
      SuitsKeeps(old(a[..]), s, begin, end, less);
      InsertOne(a, begin, it, less);
      RearrangedWiden(s, a[..], begin, it + 1, begin, end);
      RearrangedTrans(old(a[..]), s, a[..], begin, end);
      it := it + 1;
    }
  }

  /** Moves the hole left by `a[it]` backwards to where its value belongs. */
  method InsertOne<T(!new)>(a: array<T>, begin: nat, it: nat, less: (T, T) -> bool)
    requires begin < it < a.Length && Orders(less) && Suits(a[..], begin, it + 1, less)
    requires SortedRange(a[..], begin, it, less)
    modifies a
    ensures SortedRange(a[..], begin, it + 1, less)
    ensures Rearranged(old(a[..]), a[..], begin, it + 1)
  {
    ghost var s := a[..];
    var val := a[it];
    var hole := it;
    while hole > begin && less(val, a[hole - 1])
      invariant begin <= hole <= it
      invariant forall k :: 0 <= k < hole || it < k < a.Length ==> a[k] == s[k]
      invariant forall k :: hole < k <= it ==> a[k] == s[k - 1]
      invariant forall k :: hole <= k < it ==> less(val, s[k])
    {
      a[hole] := a[hole - 1];
      hole := hole - 1;
    }
    a[hole] := val;
    InsertedSorted(s, a[..], begin, hole, it, less);
    InsertedRearranges(s, a[..], begin, hole, it);
  }

  /** `t` is `s` with the member at `it` moved back to `hole`. */
  ghost predicate MovedBack<T>(s: seq<T>, t: seq<T>, hole: nat, it: nat) {
    && hole <= it < |s| == |t|
    && t[hole] == s[it]
    && (forall k :: 0 <= k < hole || it < k < |s| ==> t[k] == s[k])
    && (forall k :: hole < k <= it ==> t[k] == s[k - 1])
  }

  lemma InsertedSorted<T(!new)>(s: seq<T>, t: seq<T>, begin: nat, hole: nat, it: nat, less: (T, T) -> bool)
    requires Orders(less) && begin <= hole <= it && MovedBack(s, t, hole, it) && Suits(s, begin, it + 1, less)
    requires SortedRange(s, begin, it, less)
    requires hole > begin ==> !less(s[it], s[hole - 1])
    requires forall k :: hole <= k < it ==> less(s[it], s[k])
    ensures SortedRange(t, begin, it + 1, less)
  {
    forall i | begin <= i < hole ensures !less(s[it], s[i]) {
      assert i < hole - 1 ==> !less(s[hole - 1], s[i]);
      assert i < hole - 1 && s[it] != s[hole - 1] && s[i] != s[hole - 1] ==> less(s[i], s[hole - 1]) && less(s[hole - 1], s[it]);
    }
    forall i, j | begin <= i < j <= it ensures !less(t[j], t[i]) {
      if i == hole { assert t[j] == s[j - 1]; }
    }
  }

  lemma InsertedRearranges<T>(s: seq<T>, t: seq<T>, begin: nat, hole: nat, it: nat)
    requires begin <= hole <= it && MovedBack(s, t, hole, it)
    ensures Rearranged(s, t, begin, it + 1)
  {
    var x, y, v := s[begin..hole], s[hole..it], s[it];
    assert s[begin..it + 1] == x + y + [v];
    assert t[begin..hole] == x && t[hole + 1..it + 1] == y;
    assert t[begin..it + 1] == t[begin..hole] + [t[hole]] + t[hole + 1..it + 1];
  }

  // ----- Three-way partition -----

  ghost predicate InZone<T(!new)>(x: T, pivot: T, rel: int, less: (T, T) -> bool) {
    if rel < 0 then less(x, pivot) else !less(x, pivot) && if rel > 0 then x != pivot && less(pivot, x) else x == pivot
  }

  /** Members of `s` from `lo` to `hi` stand in relation `rel` to the pivot: -1 less, 0 equal, 1 greater. */
  ghost predicate Zone<T(!new)>(s: seq<T>, lo: int, hi: int, pivot: T, rel: int, less: (T, T) -> bool) {
    0 <= lo <= hi <= |s| && forall k :: lo <= k < hi ==>
      InZone(s[k], pivot, rel, less)
  }

  /** The range becomes less, equal, greater.  A pivot from the range is found in the middle,
      unless it is before itself: then it is among the lesser ones, and the middle is empty. */
  method Partition3<T(!new, ==)>(a: array<T>, begin: nat, end: nat, pivot: T, less: (T, T) -> bool)
    returns (eqbeg: nat, eqend: nat)
    requires begin <= end <= a.Length && Orders(less)
    modifies a
    ensures Rearranged(old(a[..]), a[..], begin, end)
    ensures begin <= eqbeg <= eqend <= end
    ensures Zone(a[..], begin, eqbeg, pivot, -1, less)
    ensures Zone(a[..], eqbeg, eqend, pivot, 0, less)
    ensures Zone(a[..], eqend, end, pivot, 1, less)
    ensures pivot in old(a[begin..end]) ==> if less(pivot, pivot) then begin < eqbeg else eqbeg < eqend
  {
    var eq, gt := Split(a, begin, end, pivot, less);
    ghost var s := a[..];
    GatherEqual(a, begin, eq, gt, end, pivot, less);
    RearrangedTrans(old(a[..]), s, a[..], begin, end);
    eqbeg, eqend := gt - (eq - begin), gt;
    if pivot in old(a[begin..end]) {
      PivotKept(old(a[..]), a[..], begin, eqbeg, eqend, end, pivot, less);
    }
  }

  /** Equal members to the front, lesser ones behind them, greater ones to the end. */
  method Split<T(!new, ==)>(a: array<T>, begin: nat, end: nat, pivot: T, less: (T, T) -> bool)
    returns (eq: nat, gt: nat)
    requires begin <= end <= a.Length && Orders(less)
    modifies a
    ensures Rearranged(old(a[..]), a[..], begin, end)
    ensures begin <= eq <= gt <= end
    ensures Zone(a[..], begin, eq, pivot, 0, less)
    ensures Zone(a[..], eq, gt, pivot, -1, less)
    ensures Zone(a[..], gt, end, pivot, 1, less)
  {
    var lt: nat;
    eq, lt, gt := begin, begin, end;
    while lt < gt
      invariant begin <= eq <= lt <= gt <= end
      invariant Rearranged(old(a[..]), a[..], begin, end)
      invariant Zones(a[..], begin, eq, lt, gt, end, pivot, less)
    {
      ghost var s := a[..];
      if less(a[lt], pivot) {
        lt := lt + 1;
      } else if a[lt] == pivot {
        Swap(a, eq, lt);
        SwapEqual(s, begin, eq, lt, gt, end, pivot, less);
        RearrangedTrans(old(a[..]), s, a[..], begin, end);
        eq, lt := eq + 1, lt + 1;
      } else {
        gt := gt - 1;
        Swap(a, lt, gt);
        SwapGreater(s, begin, eq, lt, gt, end, pivot, less);
        RearrangedTrans(old(a[..]), s, a[..], begin, end);
      }
    }
  }

  /** The loop's picture: equal, less, not yet seen, greater. */
  ghost predicate Zones<T(!new)>(s: seq<T>, begin: nat, eq: nat, lt: nat, gt: nat, end: nat, pivot: T, less: (T, T) -> bool) {
    Zone(s, begin, eq, pivot, 0, less) && Zone(s, eq, lt, pivot, -1, less) && Zone(s, gt, end, pivot, 1, less)
  }

  lemma SwapEqual<T(!new)>(s: seq<T>, begin: nat, eq: nat, lt: nat, gt: nat, end: nat, pivot: T, less: (T, T) -> bool)
    requires begin <= eq <= lt < gt <= end <= |s| && Zones(s, begin, eq, lt, gt, end, pivot, less) && s[lt] == pivot && !less(pivot, pivot)
    ensures Rearranged(s, Swapped(s, eq, lt), begin, end)
    ensures Zones(Swapped(s, eq, lt), begin, eq + 1, lt + 1, gt, end, pivot, less)
  {
    SwappedRearranges(s, eq, lt, begin, end);
  }

  lemma SwapGreater<T(!new)>(s: seq<T>, begin: nat, eq: nat, lt: nat, gt: nat, end: nat, pivot: T, less: (T, T) -> bool)
    requires begin <= eq <= lt <= gt < end <= |s| && Zones(s, begin, eq, lt, gt + 1, end, pivot, less)
    requires Orders(less) && !less(s[lt], pivot) && s[lt] != pivot
    ensures Rearranged(s, Swapped(s, lt, gt), begin, end)
    ensures Zones(Swapped(s, lt, gt), begin, eq, lt, gt, end, pivot, less)
  {
    SwappedRearranges(s, lt, gt, begin, end);
    assert less(pivot, s[lt]);
  }

  lemma PivotKept<T(!new)>(s: seq<T>, t: seq<T>, begin: nat, eqbeg: nat, eqend: nat, end: nat, pivot: T, less: (T, T) -> bool)
    requires Rearranged(s, t, begin, end) && pivot in s[begin..end]
    requires begin <= eqbeg <= eqend <= end
    requires Zone(t, begin, eqbeg, pivot, -1, less) && Zone(t, eqbeg, eqend, pivot, 0, less) && Zone(t, eqend, end, pivot, 1, less)
    ensures if less(pivot, pivot) then begin < eqbeg else eqbeg < eqend
  {
    assert pivot in multiset(t[begin..end]);
    var i :| 0 <= i < end - begin && t[begin..end][i] == pivot;
    assert t[begin + i] == pivot;
  }

  /** Swaps the equal members from the front to just before `gt`; the two blocks may overlap. */
  method GatherEqual<T(!new)>(a: array<T>, begin: nat, eq: nat, gt: nat, end: nat, pivot: T, less: (T, T) -> bool)
    requires begin <= eq <= gt <= end <= a.Length
    requires Zone(a[..], begin, eq, pivot, 0, less) && Zone(a[..], eq, gt, pivot, -1, less)
    requires Zone(a[..], gt, end, pivot, 1, less)
    modifies a
    ensures Rearranged(old(a[..]), a[..], begin, end)
    ensures Zone(a[..], begin, gt - (eq - begin), pivot, -1, less)
    ensures Zone(a[..], gt - (eq - begin), gt, pivot, 0, less)
    ensures Zone(a[..], gt, end, pivot, 1, less)
  {
    var eqbeg := gt;
    var it := begin;
    // lesser members moved to the front so far; once all are there, the swaps exchange equals
    ghost var m := 0;
    while it != eq
      invariant begin <= it <= eq && eqbeg == gt - (it - begin)
      invariant m <= gt - eq && (m == it - begin || (m == gt - eq < it - begin))
      invariant Rearranged(old(a[..]), a[..], begin, end)
      invariant Gathering(a[..], begin, m, eq, gt, end, pivot, less)
    {
      ghost var s := a[..];
      eqbeg := eqbeg - 1;
      m := GatherOne(a, begin, it, eqbeg, m, eq, gt, end, pivot, less);
      RearrangedTrans(old(a[..]), s, a[..], begin, end);
      it := it + 1;
    }
  }

  method GatherOne<T(!new)>(a: array<T>, begin: nat, it: nat, eqbeg: nat, ghost m: nat, eq: nat, gt: nat, end: nat,
                            pivot: T, less: (T, T) -> bool)
    returns (ghost m': nat)
    requires end <= a.Length && Gathering(a[..], begin, m, eq, gt, end, pivot, less)
    requires begin <= it < eq && eqbeg == gt - (it - begin) - 1
    requires m == it - begin || (m == gt - eq < it - begin)
    modifies a
    ensures Rearranged(old(a[..]), a[..], begin, end)
    ensures m' == if m < gt - eq then m + 1 else m
    ensures Gathering(a[..], begin, m', eq, gt, end, pivot, less)
  {
    SwappedRearranges(a[..], it, eqbeg, begin, end);
    GatherStep(a[..], begin, it, eqbeg, m, eq, gt, end, pivot, less);
    Swap(a, it, eqbeg);
    m' := if m < gt - eq then m + 1 else m;
  }

  /** With `m` swaps done: lesser, equal, lesser, equal, greater. */
  ghost predicate Gathering<T(!new)>(s: seq<T>, begin: nat, m: nat, eq: nat, gt: nat, end: nat, pivot: T, less: (T, T) -> bool) {
    && begin + m <= eq <= gt - m <= gt <= end <= |s|
    && Zone(s, begin, begin + m, pivot, -1, less)
    && Zone(s, begin + m, eq, pivot, 0, less)
    && Zone(s, eq, gt - m, pivot, -1, less)
    && Zone(s, gt - m, gt, pivot, 0, less)
    && Zone(s, gt, end, pivot, 1, less)
  }

  lemma GatherStep<T(!new)>(s: seq<T>, begin: nat, it: nat, eqbeg: nat, m: nat, eq: nat, gt: nat, end: nat, pivot: T, less: (T, T) -> bool)
    requires Gathering(s, begin, m, eq, gt, end, pivot, less) && begin <= it < eq && eqbeg == gt - (it - begin) - 1
    requires m == it - begin || (m == gt - eq < it - begin)
    ensures Gathering(Swapped(s, it, eqbeg), begin, if m < gt - eq then m + 1 else m, eq, gt, end, pivot, less)
  {
    if m == gt - eq {
      assert InZone(s[it], pivot, 0, less) && InZone(s[eqbeg], pivot, 0, less);
      assert Swapped(s, it, eqbeg) == s;
    }
  }

  // ----- Quicksort -----

  /** The index of the median of three members; only indices are exchanged. */
  method Median3<T(!new)>(a: array<T>, first: nat, middle: nat, last: nat, less: (T, T) -> bool)
    returns (m: nat, ghost lo: nat, ghost hi: nat)
    requires first < middle < last < a.Length && Orders(less) && Suits(a[..], first, last + 1, less)
    ensures multiset{lo, m, hi} == multiset{first, middle, last}
    ensures lo < a.Length && m < a.Length && hi < a.Length && m != hi
    ensures !less(a[m], a[lo]) && !less(a[hi], a[m])
  {
    var f, l := first, last;
    m := middle;
    if less(a[m], a[f]) { m, f := f, m; }
    if less(a[l], a[m]) { l, m := m, l; }
    if less(a[m], a[f]) { m, f := f, m; }
    lo, hi := f, l;
  }

  function Pow2(n: nat): nat {
    if n == 0 then 1 else 2 * Pow2(n - 1)
  }

  /** Everything outside `b..e` is where it belongs for good. */
  ghost predicate Settled<T(!new)>(s: seq<T>, begin: nat, b: nat, e: nat, end: nat, less: (T, T) -> bool) {
    begin <= b <= e <= end <= |s| &&
    forall i, j :: begin <= i < j < end && (i < b || e <= j) ==> !less(s[j], s[i])
  }

  lemma SettledKeeps<T(!new)>(s: seq<T>, t: seq<T>, begin: nat, b: nat, e: nat, end: nat, less: (T, T) -> bool)
    requires Settled(s, begin, b, e, end, less) && Rearranged(s, t, b, e)
    ensures Settled(t, begin, b, e, end, less)
  {
    RearrangedOutside(s, t, b, e);
    forall i, j | begin <= i < j < end && (i < b || e <= j) ensures !less(t[j], t[i]) {
      var i', j' := i, j;
      if b <= i < e { i' := RearrangedMember(s, t, b, e, i); }
      if b <= j < e { j' := RearrangedMember(s, t, b, e, j); }
      assert t[i] == s[i'] && t[j] == s[j'];
    }
  }

  lemma ZoneKeeps<T(!new)>(s: seq<T>, t: seq<T>, lo: nat, hi: nat, pivot: T, rel: int, less: (T, T) -> bool)
    requires Zone(s, lo, hi, pivot, rel, less) && Rearranged(s, t, lo, hi)
    ensures Zone(t, lo, hi, pivot, rel, less)
  {
    forall k | lo <= k < hi ensures InZone(t[k], pivot, rel, less) {
      var j := RearrangedMember(s, t, lo, hi, k);
    }
  }

  /** Less, equal and greater members are in order across their zones. */
  lemma AcrossZones<T(!new)>(s: seq<T>, b: nat, eqbeg: nat, eqend: nat, e: nat, pivot: T, less: (T, T) -> bool)
    requires Orders(less) && b <= eqbeg <= eqend <= e <= |s| && Suits(s, b, e, less)
    requires Zone(s, b, eqbeg, pivot, -1, less) && Zone(s, eqbeg, eqend, pivot, 0, less) && Zone(s, eqend, e, pivot, 1, less)
    ensures forall i, j :: b <= i < j < e && (i < eqbeg <= j || i < eqend <= j || eqbeg <= i < j < eqend) ==> !less(s[j], s[i])
  {
    forall i, j | b <= i < j < e && (i < eqbeg <= j || i < eqend <= j || eqbeg <= i < j < eqend) ensures !less(s[j], s[i]) {
      assert InZone(s[i], pivot, if i < eqbeg then -1 else if i < eqend then 0 else 1, less);
      assert InZone(s[j], pivot, if j < eqbeg then -1 else if j < eqend then 0 else 1, less);
    }
  }

  lemma Narrow<T(!new)>(t: seq<T>, u: seq<T>, begin: nat, b: nat, eqbeg: nat, eqend: nat, e: nat, end: nat,
                        right: bool, pivot: T, less: (T, T) -> bool)
    requires Orders(less) && Settled(t, begin, b, e, end, less) && b <= eqbeg <= eqend <= e && Suits(t, b, e, less)
    requires Zone(t, b, eqbeg, pivot, -1, less) && Zone(t, eqbeg, eqend, pivot, 0, less) && Zone(t, eqend, e, pivot, 1, less)
    requires if right then Rearranged(t, u, eqend, e) else Rearranged(t, u, b, eqbeg)
    requires if right then SortedRange(u, eqend, e, less) else SortedRange(u, b, eqbeg, less)
    ensures if right then Settled(u, begin, b, eqbeg, end, less) else Settled(u, begin, eqend, e, end, less)
  {
    var lo, hi := if right then eqend else b, if right then e else eqbeg;
    RearrangedWiden(t, u, lo, hi, b, e);
    SettledKeeps(t, u, begin, b, e, end, less);
    SuitsKeeps(t, u, b, e, less);
    RearrangedOutside(t, u, lo, hi);
    if right {
      ZoneKeeps(t, u, eqend, e, pivot, 1, less);
    } else {
      ZoneKeeps(t, u, b, eqbeg, pivot, -1, less);
    }
    AcrossZones(u, b, eqbeg, eqend, e, pivot, less);
  }

  /**
    Sorts the range.  The depth of the recursion is at most the logarithm of the length,
    since the smaller side has less than half of the members.
   */
  method Sort<T(!new, ==)>(a: array<T>, begin: nat, end: nat, less: (T, T) -> bool) returns (ghost depth: nat)
    requires begin <= end <= a.Length && Orders(less) && Suits(a[..], begin, end, less)
    modifies a
    ensures SortedRange(a[..], begin, end, less)
    ensures Rearranged(old(a[..]), a[..], begin, end)
    ensures depth > 0 ==> Pow2(depth) <= end - begin
    decreases end - begin, 1
  {
    var b, e := begin, end;
    depth := 0;
    while e - b > 16
      invariant Settled(a[..], begin, b, e, end, less)
      invariant Rearranged(old(a[..]), a[..], begin, end)
      invariant depth > 0 ==> Pow2(depth) <= end - begin
      decreases e - b
    {
      ghost var s, d := a[..], 0;
      SuitsKeeps(old(a[..]), s, begin, end, less);
      b, e, d := SortSmallerSide(a, begin, b, e, end, less);
      RearrangedTrans(old(a[..]), s, a[..], begin, end);
      if d + 1 > depth { depth := d + 1; }
    }
    ghost var s := a[..];
    SuitsKeeps(old(a[..]), s, begin, end, less);
    InsertionSort(a, b, e, less);
    SettledKeeps(s, a[..], begin, b, e, end, less);
    RearrangedWiden(s, a[..], b, e, begin, end);
    RearrangedTrans(old(a[..]), s, a[..], begin, end);
  }

  /** The greatest of the three that were compared is not among the lesser ones, so both sides
      are smaller than the range. */
  lemma SidesShrink<T(!new)>(s: seq<T>, t: seq<T>, b: nat, eqbeg: nat, eqend: nat, e: nat, m: nat, hi: nat, less: (T, T) -> bool)
    requires Orders(less) && Rearranged(s, t, b, e) && Suits(s, b, e, less)
    requires b <= eqbeg <= eqend <= e && b <= m < e && b <= hi < e && m != hi && !less(s[hi], s[m])
    requires Zone(t, b, eqbeg, s[m], -1, less) && Zone(t, eqbeg, eqend, s[m], 0, less) && Zone(t, eqend, e, s[m], 1, less)
    requires if less(s[m], s[m]) then b < eqbeg else eqbeg < eqend
    ensures eqbeg < e && b < eqend
  {
    assert Rearranged(t, s, b, e);
    var k := RearrangedMember(t, s, b, e, hi);
    assert t[k] == s[hi];
  }

  /** The three-way split about the median of three. */
  method SplitRange<T(!new, ==)>(a: array<T>, b: nat, e: nat, less: (T, T) -> bool) returns (eqbeg: nat, eqend: nat, ghost pivot: T)
    requires b <= e <= a.Length && e - b > 16 && Orders(less) && Suits(a[..], b, e, less)
    modifies a
    ensures Rearranged(old(a[..]), a[..], b, e) && Suits(a[..], b, e, less)
    ensures b <= eqbeg <= eqend <= e && eqbeg < e && b < eqend
    ensures Zone(a[..], b, eqbeg, pivot, -1, less)
    ensures Zone(a[..], eqbeg, eqend, pivot, 0, less)
    ensures Zone(a[..], eqend, e, pivot, 1, less)
  {
    ghost var s := a[..];
    var median, lo, hi := Median3(a, b, b + (e - b) / 2, e - 1, less);
    assert median in multiset{b, b + (e - b) / 2, e - 1} && hi in multiset{b, b + (e - b) / 2, e - 1};
    pivot := a[median];
    assert pivot == a[b..e][median - b];
    eqbeg, eqend := Partition3(a, b, e, a[median], less);
    SuitsKeeps(s, a[..], b, e, less);
    SidesShrink(s, a[..], b, eqbeg, eqend, e, median, hi, less);
  }

  /** One turn of the loop: partition, sort the smaller side, keep the larger for the next turn. */
  method SortSmallerSide<T(!new, ==)>(a: array<T>, begin: nat, b: nat, e: nat, end: nat, less: (T, T) -> bool)
    returns (b': nat, e': nat, ghost depth: nat)
    requires b <= e <= end <= a.Length && e - b > 16 && Orders(less) && Suits(a[..], b, e, less)
    requires Settled(a[..], begin, b, e, end, less)
    modifies a
    ensures Settled(a[..], begin, b', e', end, less)
    ensures Rearranged(old(a[..]), a[..], begin, end)
    ensures e' - b' < e - b && Pow2(depth + 1) <= e - b
    decreases e - b, 0
  {
    ghost var s := a[..];
    var eqbeg, eqend;
    ghost var pivot;
    eqbeg, eqend, pivot := SplitRange(a, b, e, less);
    ghost var t := a[..];
    SettledKeeps(s, t, begin, b, e, end, less);
    RearrangedWiden(s, t, b, e, begin, end);
    if eqbeg - b > e - eqend {
      depth := Sort(a, eqend, e, less);
      RearrangedWiden(t, a[..], eqend, e, begin, end);
      Narrow(t, a[..], begin, b, eqbeg, eqend, e, end, true, pivot, less);
      b', e' := b, eqbeg;
    } else {
      depth := Sort(a, b, eqbeg, less);
      RearrangedWiden(t, a[..], b, eqbeg, begin, end);
      Narrow(t, a[..], begin, b, eqbeg, eqend, e, end, false, pivot, less);
      b', e' := eqend, e;
    }
    RearrangedTrans(s, t, a[..], begin, end);
  }
}
