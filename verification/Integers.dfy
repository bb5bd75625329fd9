/** Reading and writing integers as text, in unsigned arithmetic that wraps around. */
module Integers {
  import opened Arithmetic
  import opened Escapes

  const ZERO: Byte := 48
  const PLUS: Byte := 43
  const MINUS: Byte := 45

  /** The widths the conversion is written for, in bits. */
  predicate IsWidth(w: nat) {
    w == 16 || w == 32 || w == 64
  }

  function Modulus(w: nat): (m: nat)
    requires IsWidth(w)
    ensures m > 0
  {
    if w == 16 then 0x1_0000 else if w == 32 then 0x1_0000_0000 else 0x1_0000_0000_0000_0000
  }

  // ---------- what the text says ----------

  /** The byte of a C string; behind its last byte stands a NUL. */
  function CharAt(t: seq<Byte>, i: nat): Byte {
    if i < |t| then t[i] else 0
  }

  function SkipSpace(t: seq<Byte>, i: nat): (k: nat)
    requires i <= |t|
    ensures i <= k <= |t| && (k < |t| ==> !IsSpace(t[k])) && forall j :: i <= j < k ==> IsSpace(t[j])
    decreases |t| - i
  {
    if i < |t| && IsSpace(t[i]) then SkipSpace(t, i + 1) else i
  }

  /** The number that digits `j` to `e` write. */
  function Value(t: seq<Byte>, j: nat, e: nat, base: nat): nat
    requires j <= e <= |t|
  {
    if j == e then 0 else base * Value(t, j, e - 1, base) + Digit(t[e - 1], base)
  }

  /** White space, a sign, and a decimal or hexadecimal number: the integer the text starts
      with. */
  function Written(t: seq<Byte>): int {
    var s := SkipSpace(t, 0);
    var j := if CharAt(t, s) == PLUS || CharAt(t, s) == MINUS then s + 1 else s;
    var hex := IsHex(t, j);
    var base := if hex then 16 else 10;
    var start := if hex then j + 2 else j;
    var v := Value(t, start, DigitsEnd(t, start, base), base);
    if CharAt(t, s) == MINUS then 0 - v else v
  }

  predicate IsHex(t: seq<Byte>, j: nat) {
    CharAt(t, j) == ZERO && (CharAt(t, j + 1) == 120 || CharAt(t, j + 1) == 88)
  }

  // ---------- digits ----------

  function Power(base: nat, n: nat): nat {
    if n == 0 then 1 else base * Power(base, n - 1)
  }

  lemma Scale(base: nat, x: nat, p: nat)
    ensures x * (base * p) == base * (x * p)
  {
  }

  lemma Grows(base: nat, v: nat, digit: nat, low: nat, high: nat)
    requires (base == 10 || base == 16) && digit < base && low <= v < high
    ensures base * low <= base * v + digit < base * high
  {
    if base == 10 {
      assert 10 * low <= 10 * v + digit < 10 * high;
    } else {
      assert 16 * low <= 16 * v + digit < 16 * high;
    }
  }

  /** The leading digit and the number of digits say how large a number is. */
  lemma {:induction false} ValueBounds(t: seq<Byte>, j: nat, e: nat, base: nat)
    requires j < e <= |t| && (base == 10 || base == 16) && forall k :: j <= k < e ==> IsDigit(t[k], base)
    ensures var d, p := Digit(t[j], base), Power(base, e - j - 1);
      d * p <= Value(t, j, e, base) < (d + 1) * p && p > 0
    decreases e
  {
    var d := Digit(t[j], base);
    assert IsDigit(t[e - 1], base);
    if j < e - 1 {
      ValueBounds(t, j, e - 1, base);
      var p, n := Power(base, e - j - 2), e - j - 1;
      var low, high := d * p, (d + 1) * p;
      assert Power(base, n) == base * p;
      Scale(base, d, p);
      Scale(base, d + 1, p);
      Grows(base, Value(t, j, e - 1, base), Digit(t[e - 1], base), low, high);
      assert d * Power(base, n) == base * low && (d + 1) * Power(base, n) == base * high;
    } else {
      assert Value(t, j, j, base) == 0 && Power(base, 0) == 1;
    }
  }

  /** Leading zeros do not change a number. */
  lemma {:induction false} ValueSkips(t: seq<Byte>, j: nat, k: nat, e: nat, base: nat)
    requires j <= k <= e <= |t| && forall i :: j <= i < k ==> t[i] == ZERO
    ensures Value(t, j, e, base) == Value(t, k, e, base)
    decreases e
  {
    if e > k {
      ValueSkips(t, j, k, e - 1, base);
    } else if e > j {
      ValueSkips(t, j, k - 1, e - 1, base);
    }
  }

  lemma {:induction false} DigitsEndSkips(t: seq<Byte>, j: nat, k: nat, base: nat)
    requires j <= k <= |t| && forall i :: j <= i < k ==> t[i] == ZERO
    ensures DigitsEnd(t, j, base) == DigitsEnd(t, k, base)
    decreases k - j
  {
    if j < k {
      assert t[j] == ZERO;
      DigitsEndSkips(t, j + 1, k, base);
    }
  }

  lemma {:induction false} PowerGrows(base: nat, m: nat, n: nat)
    requires base > 0 && m <= n
    ensures 0 < Power(base, m) <= Power(base, n)
    decreases n
  {
    if m < n {
      PowerGrows(base, m, n - 1);
      assert base * Power(base, n - 1) >= Power(base, n - 1);
    } else if n > 0 {
      PowerGrows(base, n - 1, n - 1);
    }
  }

  lemma PowersOfTen()
    ensures Power(10, 4) == 1_0000
    ensures Power(10, 9) == 10_0000_0000
    ensures Power(10, 19) == 1000_0000_0000_0000_0000
  {
  }

  lemma PowersOfSixteen()
    ensures Power(16, 4) == Modulus(16) && Power(16, 8) == Modulus(32) && Power(16, 16) == Modulus(64)
  {
  }

  // ---------- overflow ----------

  function MaxDigits(w: nat): (n: nat)
    requires IsWidth(w)
  {
    if w == 64 then 20 else if w == 32 then 10 else 5
  }

  function MaxLead(w: nat): (c: Byte)
    requires IsWidth(w)
    ensures 48 <= c <= 57
  {
    if w == 64 then 49 else if w == 32 then 52 else 54
  }

  /** The decimal test: more digits than the largest number has, or as many and a larger
      leading digit, or the same leading digit and a sum whose high bit was lost. */
  predicate DecimalOverflows(digits: nat, lead: Byte, result: nat, w: nat)
    requires IsWidth(w)
  {
    digits >= MaxDigits(w)
    && !(digits == MaxDigits(w) && (lead < MaxLead(w) || (lead == MaxLead(w) && result >= Modulus(w) / 2)))
  }

  lemma DecimalOverflowExact(t: seq<Byte>, j: nat, e: nat, w: nat)
    requires IsWidth(w) && j <= e <= |t| && (j < e ==> t[j] != ZERO) && forall k :: j <= k < e ==> IsDigit(t[k], 10)
    ensures var v := Value(t, j, e, 10);
      DecimalOverflows(e - j, CharAt(t, j), v % Modulus(w), w) <==> v >= Modulus(w)
  {
    if j < e {
      assert IsDigit(t[j], 10);
      ValueBounds(t, j, e, 10);
      var n := e - j - 1;
      var d, v := Digit(t[j], 10), Value(t, j, e, 10);
      if e - j > MaxDigits(w) {
        PowerGrows(10, MaxDigits(w), n);
        LargePower(w);
        AtLeast(d, Power(10, n));
      } else if e - j < MaxDigits(w) {
        PowerGrows(10, n + 1, MaxDigits(w) - 1);
        LargePower(w);
        AtMost(d, 10, Power(10, n));
      } else {
        LeadDecides(d, v, w);
      }
    } else {
      assert Value(t, j, e, 10) == 0;
    }
  }

  /** Among the numbers with the most digits, the leading digit and the high bit of the
      wrapped value tell those that are too large. */
  lemma LeadDecides(d: nat, v: nat, w: nat)
    requires IsWidth(w) && 1 <= d <= 9
    requires d * Power(10, MaxDigits(w) - 1) <= v < (d + 1) * Power(10, MaxDigits(w) - 1)
    ensures v >= Modulus(w) <==>
      d > MaxLead(w) - 48 || (d == MaxLead(w) - 48 && v % Modulus(w) < Modulus(w) / 2)
  {
    PowersOfTen();
    var lead := MaxLead(w) - 48;
    if d == lead && v >= Modulus(w) {
      ModUnique(v, Modulus(w), 1, v - Modulus(w));
    }
  }

  lemma LargePower(w: nat)
    requires IsWidth(w)
    ensures Power(10, MaxDigits(w)) >= Modulus(w) && Power(10, MaxDigits(w) - 1) <= Modulus(w)
  {
    assert Power(10, 5) == 10_0000 && Power(10, 10) == 100_0000_0000 && Power(10, 20) == 1_0000_0000_0000_0000_0000;
    PowersOfTen();
  }

  lemma AtLeast(d: nat, p: nat)
    requires d >= 1
    ensures d * p >= p
  {
  }

  lemma AtMost(d: nat, base: nat, p: nat)
    requires d < base
    ensures (d + 1) * p <= base * p
  {
    assert (base - 1 - d) * p >= 0;
    assert (base - 1 - d) * p == base * p - (d + 1) * p;
  }

  lemma HexOverflowExact(t: seq<Byte>, j: nat, e: nat, w: nat)
    requires IsWidth(w) && j <= e <= |t| && (j < e ==> t[j] != ZERO) && forall k :: j <= k < e ==> IsDigit(t[k], 16)
    ensures e - j > w / 4 <==> Value(t, j, e, 16) >= Modulus(w)
  {
    if j < e {
      assert IsDigit(t[j], 16);
      ValueBounds(t, j, e, 16);
      PowersOfSixteen();
      var n := e - j - 1;
      var d, p := Digit(t[j], 16), Power(16, n);
      if e - j > w / 4 {
        PowerGrows(16, w / 4, n);
        AtLeast(d, p);
      } else {
        PowerGrows(16, n + 1, w / 4);
        AtMost(d, 16, p);
      }
    }
  }

  // ---------- reading ----------

  function Clamp(x: int, low: int, high: int): (r: int)
    requires low <= high
    ensures low <= r <= high && (low <= x <= high ==> r == x)
  {
    if x < low then low else if x > high then high else x
  }

  /** The smallest value of the target type, from its unsigned representation. */
  function Lowest(minv: nat, w: nat): (x: int)
    requires IsWidth(w)
    ensures x <= 0
  {
    0 - (0 - minv) % Modulus(w)
  }

  /** Accumulate digits modulo the width: where they end, and their value with its high part
      lost. */
  method ReadDigits(t: seq<Byte>, j: nat, base: nat, w: nat) returns (e: nat, result: nat)
    requires IsWidth(w) && j <= |t| && (base == 10 || base == 16)
    ensures e == DigitsEnd(t, j, base) && result == Value(t, j, e, base) % Modulus(w)
  {
    e, result := j, 0;
    while IsDigit(CharAt(t, e), base)
      invariant j <= e <= |t| && DigitsEnd(t, j, base) == DigitsEnd(t, e, base)
      invariant result == Value(t, j, e, base) % Modulus(w)
      decreases |t| - e
    {
      var d := Digit(t[e], base);
      Accumulate(base, Value(t, j, e, base), d, Modulus(w));
      result := (result * base + d) % Modulus(w);
      e := e + 1;
    }
  }

  lemma Accumulate(base: nat, v: nat, d: nat, m: nat)
    requires m > 0
    ensures (v % m * base + d) % m == (base * v + d) % m
  {
    var q := v / m;
    assert base * v + d == (base * q) * m + (v % m * base + d);
    MultiplesVanish(base * q, v % m * base + d, m);
  }

  /** The digits of the number, in either notation, and whether it fits the width. */
  method ReadMagnitude(t: seq<Byte>, j: nat, w: nat) returns (result: nat, overflow: bool, ghost v: nat)
    requires IsWidth(w) && j <= |t|
    ensures v == (if IsHex(t, j) then Value(t, j + 2, DigitsEnd(t, j + 2, 16), 16) else Value(t, j, DigitsEnd(t, j, 10), 10))
    ensures result == v % Modulus(w) && (overflow <==> v >= Modulus(w))
  {
    var s := j;
    if CharAt(t, s) == ZERO && (CharAt(t, s + 1) == 120 || CharAt(t, s + 1) == 88) {
      s := s + 2;
      while CharAt(t, s) == ZERO
        invariant j + 2 <= s <= |t| && forall i :: j + 2 <= i < s ==> t[i] == ZERO
        decreases |t| - s
      {
        s := s + 1;
      }
      var start := s;
      s, result := ReadDigits(t, s, 16, w);
      overflow := s - start > w / 4;
      HexOverflowExact(t, start, s, w);
      DigitsEndSkips(t, j + 2, start, 16);
      ValueSkips(t, j + 2, start, s, 16);
      v := Value(t, start, s, 16);
    } else {
      while CharAt(t, s) == ZERO
        invariant j <= s <= |t| && forall i :: j <= i < s ==> t[i] == ZERO
        decreases |t| - s
      {
        s := s + 1;
      }
      var start := s;
      s, result := ReadDigits(t, s, 10, w);
      overflow := DecimalOverflows(s - start, CharAt(t, start), result, w);
      DecimalOverflowExact(t, start, s, w);
      DigitsEndSkips(t, j, start, 10);
      ValueSkips(t, j, start, s, 10);
      v := Value(t, start, s, 10);
    }
  }

  /** Although the sum wraps around, the result is the integer the text starts with, clamped
      to the range of the target type. */
  method StringToInteger(t: seq<Byte>, w: nat, minv: nat, maxv: nat) returns (r: nat)
    requires IsWidth(w) && minv < Modulus(w) && maxv < Modulus(w)
    ensures r == Clamp(Written(t), Lowest(minv, w), maxv) % Modulus(w)
  {
    var s := 0;
    while IsSpace(CharAt(t, s))
      invariant s <= |t| && SkipSpace(t, 0) == SkipSpace(t, s)
      decreases |t| - s
    {
      s := s + 1;
    }
    var negative := CharAt(t, s) == MINUS;
    if CharAt(t, s) == PLUS || CharAt(t, s) == MINUS {
      s := s + 1;
    }
    var result, overflow;
    ghost var v;
    result, overflow, v := ReadMagnitude(t, s, w);
    assert Written(t) == if negative then 0 - v as int else v as int;
    if negative {
      WrapNegative(v, result, overflow, w, minv, maxv);
      return if overflow || result > (0 - minv) % Modulus(w) then minv else (0 - result) % Modulus(w);
    } else {
      WrapPositive(v, result, overflow, w, minv, maxv);
      return if overflow || result > maxv then maxv else result;
    }
  }

  lemma WrapNegative(v: nat, result: nat, overflow: bool, w: nat, minv: nat, maxv: nat)
    requires IsWidth(w) && minv < Modulus(w)
    requires result == v % Modulus(w) && (overflow <==> v >= Modulus(w))
    ensures Clamp(0 - v as int, Lowest(minv, w), maxv) % Modulus(w)
         == if overflow || result > (0 - minv) % Modulus(w) then minv else (0 - result) % Modulus(w)
  {
    var m := Modulus(w);
    if minv > 0 {
      ModUnique(0 - minv, m, -1, m - minv);
      ModUnique(minv - m, m, -1, minv);
      assert Lowest(minv, w) == minv - m;
    } else {
      assert Lowest(minv, w) == 0;
    }
  }

  lemma WrapPositive(v: nat, result: nat, overflow: bool, w: nat, minv: nat, maxv: nat)
    requires IsWidth(w) && maxv < Modulus(w)
    requires result == v % Modulus(w) && (overflow <==> v >= Modulus(w))
    ensures Clamp(v, Lowest(minv, w), maxv) % Modulus(w) == if overflow || result > maxv then maxv else result
  {
  }

  // ---------- writing ----------

  function DigitsText(n: nat): (s: seq<Byte>)
    ensures |s| > 0
  {
    if n < 10 then [48 + n] else DigitsText(n / 10) + [48 + n % 10]
  }

  /** The text of the number whose unsigned representation is `value`. */
  function IntegerText(value: nat, negative: bool, w: nat): seq<Byte>
    requires IsWidth(w) && value < Modulus(w)
  {
    if negative then [MINUS] + DigitsText((0 - value) % Modulus(w)) else DigitsText(value)
  }

  lemma {:induction false} DigitsTextLength(n: nat, k: nat)
    requires k > 0 && n < Power(10, k)
    ensures |DigitsText(n)| <= k
    decreases k
  {
    if n >= 10 {
      assert k > 1 by {
        assert Power(10, 1) == 10 * Power(10, 0);
      }
      assert n / 10 < Power(10, k - 1);
      DigitsTextLength(n / 10, k - 1);
    }
  }

  lemma FitsBuffer(n: nat, w: nat)
    requires IsWidth(w) && n < Modulus(w)
    ensures |DigitsText(n)| <= 20
  {
    LargePower(64);
    DigitsTextLength(n, 20);
  }

  /** The digits are written backwards from the end of the buffer, and the place for a sign
      in front of them is always there. */
  method IntegerToString(buf: array<Byte>, value: nat, negative: bool, w: nat) returns (begin: nat)
    requires IsWidth(w) && value < Modulus(w) && buf.Length == 64
    modifies buf
    ensures begin <= 64 && buf[begin..] == IntegerText(value, negative, w)
  {
    var result := buf.Length - 1;
    var rest: nat := if negative then (0 - value) % Modulus(w) else value;
    ghost var n := rest;
    ghost var done: seq<Byte> := [];
    FitsBuffer(n, w);
    while true
      invariant |DigitsText(rest)| + |done| <= 20 && result == 63 - |done| && buf[result + 1..] == done
      invariant DigitsText(rest) + done == DigitsText(n)
      decreases rest
    {
      ghost var before := rest;
      buf[result] := 48 + rest % 10;
      done := [48 + rest % 10] + done;
      assert buf[result..] == done;
      result := result - 1;
      rest := rest / 10;
      if rest == 0 {
        assert DigitsText(before) == [48 + before % 10];
        break;
      }
      assert DigitsText(before) == DigitsText(rest) + [48 + before % 10];
    }
    buf[result] := MINUS;
    assert buf[result..] == [MINUS] + done;
    return if negative then result else result + 1;
  }

  lemma {:induction false} DigitsTextValue(n: nat)
    ensures var s := DigitsText(n); (forall k :: 0 <= k < |s| ==> IsDigit(s[k], 10)) && Value(s, 0, |s|, 10) == n
  {
    if n >= 10 {
      DigitsTextValue(n / 10);
      var s := DigitsText(n / 10);
      ValueAppend([], s, [48 + n % 10]);
      assert [] + s + [48 + n % 10] == DigitsText(n);
    }
  }

  /** A number in the middle of a text has the value it has by itself. */
  lemma {:induction false} ValueAppend(p: seq<Byte>, s: seq<Byte>, q: seq<Byte>)
    ensures Value(p + s + q, |p|, |p| + |s|, 10) == Value(s, 0, |s|, 10)
    decreases |s|
  {
    if s != [] {
      var front, last := s[..|s| - 1], s[|s| - 1..];
      ValueAppend(p, front, last + q);
      ValueAppend([], front, last);
      assert p + front + (last + q) == p + s + q && [] + front + last == s;
    }
  }

  lemma {:induction false} AllDigits(t: seq<Byte>, j: nat)
    requires j <= |t| && forall k :: j <= k < |t| ==> IsDigit(t[k], 10)
    ensures DigitsEnd(t, j, 10) == |t|
    decreases |t| - j
  {
    if j < |t| {
      AllDigits(t, j + 1);
    }
  }

  /** The text of an integer says that integer. */
  lemma TextIsWritten(n: nat, negative: bool)
    ensures Written((if negative then [MINUS] else []) + DigitsText(n)) == if negative then 0 - n as int else n as int
  {
    var sign, s := if negative then [MINUS] else [], DigitsText(n);
    var t, j := sign + s, |sign|;
    DigitsTextValue(n);
    assert forall k :: j <= k < |t| ==> t[k] == s[k - j] && IsDigit(t[k], 10);
    assert SkipSpace(t, 0) == 0;
    assert !IsHex(t, j);
    AllDigits(t, j);
    ValueAppend(sign, s, []);
    assert sign + s + [] == t;
  }

  lemma Negated(n: nat, m: nat)
    requires 0 < n < m
    ensures (0 - n) % m == m - n && (0 - (m - n)) % m == n
  {
    ModUnique(0 - n, m, -1, m - n);
    ModUnique(0 - (m - n), m, -1, n);
  }

  lemma NegativeSays(n: nat, w: nat, m: nat, value: nat)
    requires IsWidth(w) && m == Modulus(w) && 0 < n < m && value == m - n
    ensures Written(IntegerText(value, true, w)) == 0 - n as int
  {
    Negated(n, m);
    assert IntegerText(value, true, w) == [MINUS] + DigitsText(n);
    TextIsWritten(n, true);
  }

  lemma PositiveSays(n: nat, w: nat)
    requires IsWidth(w) && n < Modulus(w)
    ensures Written(IntegerText(n, false, w)) == n
  {
    TextIsWritten(n, false);
    assert [] + DigitsText(n) == DigitsText(n);
  }

  lemma TextSays(x: int, w: nat, m: nat)
    requires IsWidth(w) && m == Modulus(w) && 0 - m < x < m
    ensures Written(IntegerText(x % m, x < 0, w)) == x
  {
    if x < 0 {
      Negated(0 - x, m);
      NegativeSays(0 - x, w, m, x % m);
    } else {
      ModUnique(x, m, 0, x);
      PositiveSays(x, w);
    }
  }

  /** Reading undoes writing, for every value of the target type. */
  lemma IntegerRoundTrip(x: int, w: nat, minv: nat, maxv: nat)
    requires IsWidth(w) && minv < Modulus(w) && maxv < Modulus(w) && Lowest(minv, w) <= x <= maxv
    ensures Clamp(Written(IntegerText(x % Modulus(w), x < 0, w)), Lowest(minv, w), maxv) % Modulus(w) == x % Modulus(w)
  {
    TextSays(x, w, Modulus(w));
  }
}
