/**
  The hash set that finds repeated nodes: open addressing in a table whose size is a power
  of two, probing at triangular distances.
 */
module Hashing {
  import opened Arithmetic

  // ----- Powers of two -----

  predicate PowerOfTwo(n: nat) {
    n == 1 || (n > 1 && n % 2 == 0 && PowerOfTwo(n / 2))
  }

  /** An odd factor does not help with divisibility by a power of two. */
  lemma {:induction false} OddFactor(a: int, b: int, n: nat)
    requires PowerOfTwo(n) && b % 2 == 1 && (a * b) % n == 0
    ensures a % n == 0
    decreases n
  {
    if n > 1 {
      EvenFactor(a, b, n);
      var h := a / 2;
      assert a == 2 * h;
      HalfDivides(h, b, n);
      OddFactor(h, b, n / 2);
      DoubleDivides(h, n);
    }
  }

  lemma EvenFactor(a: int, b: int, n: nat)
    requires n > 1 && n % 2 == 0 && b % 2 == 1 && (a * b) % n == 0
    ensures a % 2 == 0
  {
    var q, m, k := (a * b) / n, n / 2, b / 2;
    assert a * b == q * n;
    assert q * (2 * m) == 2 * (q * m);
    assert a * (2 * k + 1) == 2 * (a * k) + a;
  }

  lemma HalfDivides(h: int, b: int, n: nat)
    requires n > 1 && n % 2 == 0 && (2 * h * b) % n == 0
    ensures (h * b) % (n / 2) == 0
  {
    var q, m := (2 * h * b) / n, n / 2;
    assert 2 * h * b == q * n == q * (2 * m) == 2 * (q * m);
    assert 2 * h * b == 2 * (h * b);
    MultipleMod(q, m);
  }

  lemma DoubleDivides(h: int, n: nat)
    requires n > 1 && n % 2 == 0 && h % (n / 2) == 0
    ensures (2 * h) % n == 0
  {
    var m := n / 2;
    var q := h / m;
    assert 2 * h == 2 * (q * m) == q * n;
    MultipleMod(q, n);
  }

  // ----- Triangular probing -----

  function Triangle(i: nat): nat {
    if i == 0 then 0 else Triangle(i - 1) + i
  }

  lemma {:induction false} TriangleTwice(i: nat)
    ensures 2 * Triangle(i) == i * (i + 1)
  {
    if i > 0 {
      TriangleTwice(i - 1);
      assert (i - 1) * i + 2 * i == i * (i + 1);
    }
  }

  /** The bucket looked at in the `i`-th probe. */
  function Probe(start: nat, i: nat, size: nat): nat
    requires size > 0
  {
    (start + Triangle(i)) % size
  }

  lemma ProbeNext(start: nat, i: nat, size: nat)
    requires size > 0
    ensures (Probe(start, i, size) + i + 1) % size == Probe(start, i + 1, size)
  {
    var a := start + Triangle(i);
    assert a == a / size * size + a % size;
    ModAbsorbs(a, i + 1, size);
  }

  lemma SmallFactor(a: nat, b: int, m: nat)
    requires PowerOfTwo(m) && b % 2 == 1 && (a * b) % m == 0 && a < m
    ensures a == 0
  {
    OddFactor(a, b, m);
    SmallMultiple(a, m);
  }

  lemma DoubledProbe(d: int, a: int, b: int, size: nat)
    requires PowerOfTwo(size) && d % size == 0 && 2 * d == a * b
    ensures (a * b) % (2 * size) == 0 && (b * a) % (2 * size) == 0 && PowerOfTwo(2 * size)
  {
    DoubleDivides(d, 2 * size);
    assert b * a == a * b;
  }

  lemma TriangleGap(i: nat, j: nat)
    requires i <= j
    ensures 2 * (Triangle(j) - Triangle(i)) == (j - i) * (j + i + 1)
  {
    TriangleTwice(i);
    TriangleTwice(j);
    assert (j - i) * (j + i + 1) == j * (j + 1) - i * (i + 1);
  }

  lemma ProbeGap(start: nat, i: nat, j: nat, size: nat)
    requires size > 0 && i <= j && Probe(start, i, size) == Probe(start, j, size)
    ensures (Triangle(j) - Triangle(i)) % size == 0
  {
    SameRemainder(start + Triangle(j), start + Triangle(i), size);
  }

  /** Of two factors exactly one is odd; if both are small and their product is divisible, the first is zero. */
  lemma OneFactorOdd(d: int, a: nat, b: nat, size: nat)
    requires PowerOfTwo(size) && d % size == 0 && 2 * d == a * b
    requires a < 2 * size && 0 < b < 2 * size && a % 2 != b % 2
    ensures a == 0
  {
    DoubledProbe(d, a, b, size);
    if b % 2 == 1 { SmallFactor(a, b, 2 * size); } else { SmallFactor(b, a, 2 * size); }
  }

  lemma OppositeParity(i: nat, j: nat)
    requires i <= j
    ensures (j - i) % 2 != (j + i + 1) % 2
  {
    assert j + i + 1 == (j - i) + (2 * i + 1);
  }

  /** In a table of a power of two, no two of the first `size` probes meet. */
  lemma ProbesDistinct(start: nat, i: nat, j: nat, size: nat)
    requires PowerOfTwo(size) && i <= j < size
    requires Probe(start, i, size) == Probe(start, j, size)
    ensures i == j
  {
    ProbeGap(start, i, j, size);
    GapIsZero(Triangle(j) - Triangle(i), i, j, size);
  }

  lemma GapIsZero(d: int, i: nat, j: nat, size: nat)
    requires PowerOfTwo(size) && i <= j < size && d == Triangle(j) - Triangle(i) && d % size == 0
    ensures i == j
  {
    TriangleGap(i, j);
    OppositeParity(i, j);
    OneFactorOdd(d, j - i, j + i + 1, size);
  }

  lemma {:induction false} ProbeSetSize(start: nat, n: nat, size: nat)
    requires PowerOfTwo(size) && n <= size
    ensures |set i | 0 <= i < n :: Probe(start, i, size)| == n
  {
    var s := set i | 0 <= i < n :: Probe(start, i, size);
    if n > 0 {
      ProbeSetSize(start, n - 1, size);
      var t := set i | 0 <= i < n - 1 :: Probe(start, i, size);
      forall i | 0 <= i < n - 1 && Probe(start, i, size) == Probe(start, n - 1, size) ensures false {
        ProbesDistinct(start, i, n - 1, size);
      }
      assert s == t + {Probe(start, n - 1, size)};
    }
  }

  function Below(n: nat): (s: set<nat>)
    ensures forall b: nat :: b in s <==> b < n
    ensures |s| == n
  {
    if n == 0 then {} else Below(n - 1) + {n - 1}
  }

  lemma SubsetSize(s: set<nat>, t: set<nat>)
    requires s <= t
    ensures |s| <= |t|
    ensures |s| == |t| ==> s == t
  {
    assert t == s + (t - s);
  }

  /** The first `size` probes reach every bucket. */
  lemma ProbesReachAll(start: nat, b: nat, size: nat)
    requires PowerOfTwo(size) && b < size
    ensures exists i :: 0 <= i < size && Probe(start, i, size) == b
  {
    var s := set i | 0 <= i < size :: Probe(start, i, size);
    ProbeSetSize(start, size, size);
    SubsetSize(s, Below(size));
    assert b in Below(size);
  }
}
