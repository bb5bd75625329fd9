/** Which integer a text that is put together from white space, a sign, a prefix and digits says. */
module IntegerTexts {
  import opened Escapes
  import opened References
  import opened Integers

  lemma {:induction false} NumeralValue(t: seq<Byte>, j: nat, e: nat, c: nat, base: nat)
    requires (base == 10 || base == 16) && j <= e <= |t| && IsNumeral(t[j..e], c, base)
    ensures j < e && Value(t, j, e, base) == c
    ensures forall k :: j <= k < e ==> IsDigit(t[k], base) && t[k] != 120 && t[k] != 88
    decreases e - j
  {
    var s := t[j..e];
    DigitReads(s[|s| - 1], c % base, base);
    if |s| > 1 {
      assert s[..|s| - 1] == t[j..e - 1];
      NumeralValue(t, j, e - 1, c / base, base);
    } else {
      assert Value(t, j, j, base) == 0;
    }
    NextValue(t, j, e, c, base);
  }

  lemma NextValue(t: seq<Byte>, j: nat, e: nat, c: nat, base: nat)
    requires (base == 10 || base == 16) && j < e <= |t|
    requires Value(t, j, e - 1, base) == c / base && Digit(t[e - 1], base) == c % base
    ensures Value(t, j, e, base) == c
  {
    assert base * (c / base) + c % base == c;
  }

  lemma {:induction false} DigitsUpTo(t: seq<Byte>, j: nat, e: nat, base: nat)
    requires j <= e <= |t| && (forall k :: j <= k < e ==> IsDigit(t[k], base)) && (e < |t| ==> !IsDigit(t[e], base))
    ensures DigitsEnd(t, j, base) == e
    decreases e - j
  {
    if j < e {
      DigitsUpTo(t, j + 1, e, base);
    }
  }

  lemma {:induction false} SpacesBefore(t: seq<Byte>, i: nat, k: nat)
    requires i <= k < |t| && (forall j :: i <= j < k ==> IsSpace(t[j])) && !IsSpace(t[k])
    ensures SkipSpace(t, i) == k
    decreases k - i
  {
    if i < k {
      SpacesBefore(t, i + 1, k);
    }
  }

  /** White space up to `s`, a sign up to `j`, `0x` up to `start` if the number is hexadecimal, and
      its digits up to `e`: that is the integer, whatever follows. */
  lemma WrittenIs(t: seq<Byte>, s: nat, j: nat, start: nat, e: nat, c: nat)
    requires s <= j <= start <= e <= |t| && forall k :: 0 <= k < s ==> IsSpace(t[k])
    requires t[s..j] == [] || t[s..j] == Bytes("-") || t[s..j] == Bytes("+")
    requires t[j..start] == [] || t[j..start] == Bytes("0x") || t[j..start] == Bytes("0X")
    requires var base := if j < start then 16 else 10;
      IsNumeral(t[start..e], c, base) && (e < |t| ==> !IsDigit(t[e], base))
    requires j == start && e < |t| && t[j] == 48 && e == j + 1 ==> t[e] != 120 && t[e] != 88
    ensures Written(t) == if t[s..j] == Bytes("-") then 0 - c else c
  {
    var base := if j < start then 16 else 10;
    NumeralValue(t, start, e, c, base);
    DigitsUpTo(t, start, e, base);
    assert IsDigit(t[start], base);
    SignAt(t, s, j);
    PrefixAt(t, j, start);
    PutTogether(t, s, j, start, e, c, t[s..j] == Bytes("-"));
  }

  lemma PutTogether(t: seq<Byte>, s: nat, j: nat, start: nat, e: nat, c: nat, negative: bool)
    requires s <= j <= start < e <= |t| && forall k :: 0 <= k < s ==> IsSpace(t[k])
    requires if j == s then !negative else j == s + 1 && t[s] == if negative then MINUS else PLUS
    requires j == start || (start == j + 2 && t[j] == ZERO && (t[j + 1] == 120 || t[j + 1] == 88))
    requires var base := if j < start then 16 else 10;
      IsDigit(t[start], base) && DigitsEnd(t, start, base) == e && Value(t, start, e, base) == c
    requires j == start && t[j] == ZERO && j + 1 < |t| ==> t[j + 1] != 120 && t[j + 1] != 88
    ensures Written(t) == if negative then 0 - c else c
  {
    SpacesBefore(t, 0, s);
    assert IsHex(t, j) <==> j < start;
  }

  lemma SignAt(t: seq<Byte>, s: nat, j: nat)
    requires s <= j <= |t| && (t[s..j] == [] || t[s..j] == Bytes("-") || t[s..j] == Bytes("+"))
    ensures j == s || (j == s + 1 && t[s] == if t[s..j] == Bytes("-") then MINUS else PLUS)
    ensures j == s ==> t[s..j] != Bytes("-")
  {
    assert Bytes("-") == [MINUS] && Bytes("+") == [PLUS];
    if j > s {
      assert t[s..j][0] == t[s];
    }
  }

  lemma PrefixAt(t: seq<Byte>, j: nat, start: nat)
    requires j <= start <= |t| && (t[j..start] == [] || t[j..start] == Bytes("0x") || t[j..start] == Bytes("0X"))
    ensures j == start || (start == j + 2 && t[j] == ZERO && (t[j + 1] == 120 || t[j + 1] == 88))
  {
    assert Bytes("0x") == [ZERO, 120] && Bytes("0X") == [ZERO, 88];
    if j < start {
      assert t[j..start][0] == t[j] && t[j..start][1] == t[j + 1];
    }
  }
}
