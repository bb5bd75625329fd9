/**
  Facts about division with remainder that the solver does not find by itself.
 */
module Arithmetic {

  lemma MulAtLeast(x: int, m: nat)
    requires m > 0
    ensures x >= 1 ==> x * m >= m
    ensures x <= -1 ==> x * m <= 0 - m
  {
    if x >= 1 {
      assert x * m == (x - 1) * m + m;
    } else if x <= -1 {
      assert x * m == (x + 1) * m - m;
    }
  }

  lemma ModUnique(a: int, m: nat, q: int, r: int)
    requires m > 0 && 0 <= r < m && a == q * m + r
    ensures a % m == r
  {
    var x := a / m - q;
    assert a == a / m * m + a % m;
    assert x * m == r - a % m;
    MulAtLeast(x, m);
  }

  lemma MultipleMod(q: int, m: nat)
    requires m > 0
    ensures (q * m) % m == 0
  {
    ModUnique(q * m, m, q, 0);
  }

  lemma ModAbsorbs(a: nat, b: nat, m: nat)
    requires m > 0
    ensures (a % m + b) % m == (a + b) % m
  {
    var q := a / m;
    assert a + b == q * m + (a % m + b);
    MultiplesVanish(q, a % m + b, m);
  }

  lemma MultiplesVanish(q: nat, r: nat, m: nat)
    requires m > 0
    ensures (q * m + r) % m == r % m
  {
    assert q * m + r == (q + r / m) * m + r % m;
    ModUnique(q * m + r, m, q + r / m, r % m);
  }

  lemma SameRemainder(a: int, b: int, m: nat)
    requires m > 0 && a % m == b % m
    ensures (a - b) % m == 0
  {
    var p, q := a / m, b / m;
    assert a - b == (p - q) * m;
    MultipleMod(p - q, m);
  }

  lemma SmallMultiple(a: nat, m: nat)
    requires m > 0 && a % m == 0 && a < m
    ensures a == 0
  {
    MulAtLeast(a / m, m);
  }
}
