/** What references stand for: every numeral of a scalar value is read as the UTF-8 text of that
    value, and every predefined name as its character. */
module References {
  import opened Escapes
  import Utf

  // ---------- the bytes of a code point ----------

  /** What a decoder of UTF-8 is to report of the code point `c`. */
  function Reported(c: nat): Utf.Event {
    if c < 0x1_0000 then Utf.Low(c) else Utf.High(c)
  }

  /** The bytes of a code point decode to exactly that code point, whatever follows them. */
  lemma Utf8Decodes(c: nat, rest: seq<Byte>)
    requires c < 0x11_0000
    ensures Utf.Utf8Step(Utf8(c) + rest) == Utf.Decoded(|Utf8(c)|, Reported(c))
  {
    var w := Utf8(c);
    var s := w + rest;
    assert forall k :: 0 <= k < |w| ==> s[k] == w[k];
    if c < 0x80 {
      assert s[0] == c;
    } else if c < 0x800 {
      Utf.TwoBack(c, s);
    } else if c < 0x1_0000 {
      Utf.ThreeBack(c, s);
    } else {
      Utf.FourBack(c, s);
    }
  }

  /** The examples of RFC 3629, section 7: letters, Greek, Hangul and Han, and a character from
      beyond U+FFFF. */
  lemma Utf8Examples()
    ensures Utf8(0x0041) == [0x41] && Utf8(0x0391) == [0xCE, 0x91]
    ensures Utf8(0x2262) == [0xE2, 0x89, 0xA2] && Utf8(0xD55C) == [0xED, 0x95, 0x9C]
    ensures Utf8(0x8A9E) == [0xE8, 0xAA, 0x9E] && Utf8(0x2_33B4) == [0xF0, 0xA3, 0x8E, 0xB4]
  {
  }

  // ---------- numerals ----------

  /** `b` is the digit for `d`, in either case. */
  predicate Writes(b: Byte, d: nat, base: nat)
    requires base <= 16
  {
    d < base && (b == "0123456789ABCDEF"[d] as int || b == "0123456789abcdef"[d] as int)
  }

  /** The digits `s` write the number `c`, possibly with zeros in front. */
  predicate IsNumeral(s: seq<Byte>, c: nat, base: nat)
    requires 0 < base <= 16
    decreases |s|
  {
    s != []
    && Writes(s[|s| - 1], c % base, base)
    && (if |s| == 1 then c < base else IsNumeral(s[..|s| - 1], c / base, base))
  }

  /** Every number has a numeral in either case. */
  function Numeral(c: nat, base: nat, digits: string): (s: seq<Byte>)
    requires base == 10 || base == 16
    requires digits == "0123456789ABCDEF" || digits == "0123456789abcdef"
    ensures IsNumeral(s, c, base)
  {
    var last := digits[c % base] as int;
    if c < base then [last] else
      var front := Numeral(c / base, base, digits);
      assert (front + [last])[..|front|] == front;
      front + [last]
  }

  lemma DigitReads(b: Byte, d: nat, base: nat)
    requires (base == 10 || base == 16) && Writes(b, d, base)
    ensures Digit(b, base) == d && b != 120
  {
  }

  lemma {:induction false} NumeralReads(t: seq<Byte>, j: nat, e: nat, c: nat, base: nat)
    requires (base == 10 || base == 16) && j <= e <= |t| && IsNumeral(t[j..e], c, base) && c < 0x1_0000_0000
    ensures j < e && Number(t, j, e, base) == c
    ensures forall k :: j <= k < e ==> IsDigit(t[k], base) && t[k] != 120
    decreases e - j
  {
    var s := t[j..e];
    DigitReads(s[|s| - 1], c % base, base);
    if |s| > 1 {
      assert s[..|s| - 1] == t[j..e - 1];
      NumeralReads(t, j, e - 1, c / base, base);
    } else {
      assert Number(t, j, j, base) == 0;
    }
    NextDigit(t, j, e, c, base);
  }

  lemma NextDigit(t: seq<Byte>, j: nat, e: nat, c: nat, base: nat)
    requires (base == 10 || base == 16) && j < e <= |t| && c < 0x1_0000_0000
    requires Number(t, j, e - 1, base) == c / base && Digit(t[e - 1], base) == c % base
    ensures Number(t, j, e, base) == c
  {
    assert base * (c / base) + c % base == c;
  }

  lemma {:induction false} DigitsRun(t: seq<Byte>, j: nat, e: nat, base: nat)
    requires j <= e < |t| && (forall k :: j <= k < e ==> IsDigit(t[k], base)) && !IsDigit(t[e], base)
    ensures DigitsEnd(t, j, base) == e
    decreases e - j
  {
    if j < e {
      DigitsRun(t, j + 1, e, base);
    }
  }

  lemma NumericReads(t: seq<Byte>, j: nat, e: nat, c: nat, base: nat)
    requires (base == 10 || base == 16) && j <= e < |t| && IsNumeral(t[j..e], c, base) && c < 0x1_0000_0000
    requires t[e] == SEMICOLON
    ensures Numeric(t, j, base) == Refers(Utf8(c), e + 1)
  {
    NumeralReads(t, j, e, c, base);
    DigitsRun(t, j, e, base);
  }

  /** The bytes of a text of characters below U+0100. */
  function Bytes(s: string): (r: seq<Byte>)
    ensures |r| == |s|
  {
    seq(|s|, k requires 0 <= k < |s| => s[k] as int % 256)
  }

  lemma Between(t: seq<Byte>, i: nat, n: nat, a: seq<Byte>, s: seq<Byte>, b: Byte)
    requires i <= n <= |t| && t[i..n] == a + s + [b]
    ensures n == i + |a| + |s| + 1 && t[i + |a|..n - 1] == s && t[n - 1] == b
    ensures forall k :: 0 <= k < |a| ==> At(t, i + k, a[k])
  {
    var w := a + s + [b];
    assert forall k :: 0 <= k < |w| ==> t[i + k] == w[k];
    assert forall k :: 0 <= k < |s| ==> t[i + |a| + k] == s[k];
  }

  /** A decimal reference, with any zeros in front, stands for the bytes of its code point ... */
  lemma DecimalReference(t: seq<Byte>, i: nat, n: nat, s: seq<Byte>, c: nat)
    requires i <= n <= |t| && t[i..n] == Bytes("&#") + s + Bytes(";") && IsNumeral(s, c, 10) && c < 0x11_0000
    ensures ReferenceAt(t, i) == Refers(Utf8(c), n)
  {
    var opening := Bytes("&#");
    assert opening == [AMPERSAND, HASH] && Bytes(";") == [SEMICOLON];
    Between(t, i, n, opening, s, SEMICOLON);
    assert At(t, i + 1, opening[1]);
    NumeralReads(t, i + 2, n - 1, c, 10);
    NumericReads(t, i + 2, n - 1, c, 10);
  }

  /** ... and so does a hexadecimal one, in upper case, lower case or both. */
  lemma HexadecimalReference(t: seq<Byte>, i: nat, n: nat, s: seq<Byte>, c: nat)
    requires i <= n <= |t| && t[i..n] == Bytes("&#x") + s + Bytes(";") && IsNumeral(s, c, 16) && c < 0x11_0000
    ensures ReferenceAt(t, i) == Refers(Utf8(c), n)
  {
    var opening := Bytes("&#x");
    assert opening == [AMPERSAND, HASH, 120] && Bytes(";") == [SEMICOLON];
    Between(t, i, n, opening, s, SEMICOLON);
    assert At(t, i + 1, opening[1]) && At(t, i + 2, opening[2]);
    NumericReads(t, i + 3, n - 1, c, 16);
  }

  // ---------- names ----------

  lemma NameAt(t: seq<Byte>, i: nat, n: nat, w: seq<Byte>)
    requires i <= n <= |t| && t[i..n] == w
    ensures n == i + |w| && forall k :: 0 <= k < |w| ==> At(t, i + k, w[k])
  {
  }

  /** The five predefined entities stand for their characters. */
  lemma LessReference(t: seq<Byte>, i: nat, n: nat)
    requires i <= n <= |t| && t[i..n] == Bytes("&lt;")
    ensures ReferenceAt(t, i) == Refers(Bytes("<"), n)
  {
    var w := [AMPERSAND, 108, 116, SEMICOLON];
    assert w == Bytes("&lt;") && Bytes("<") == [LESS];
    NameAt(t, i, n, w);
    assert At(t, i + 1, w[1]) && At(t, i + 2, w[2]) && At(t, i + 3, w[3]);
  }

  lemma GreaterReference(t: seq<Byte>, i: nat, n: nat)
    requires i <= n <= |t| && t[i..n] == Bytes("&gt;")
    ensures ReferenceAt(t, i) == Refers(Bytes(">"), n)
  {
    var w := [AMPERSAND, 103, 116, SEMICOLON];
    assert w == Bytes("&gt;") && Bytes(">") == [GREATER];
    NameAt(t, i, n, w);
    assert At(t, i + 1, w[1]) && At(t, i + 2, w[2]) && At(t, i + 3, w[3]);
  }

  lemma AmpersandReference(t: seq<Byte>, i: nat, n: nat)
    requires i <= n <= |t| && t[i..n] == Bytes("&amp;")
    ensures ReferenceAt(t, i) == Refers(Bytes("&"), n)
  {
    var w := [AMPERSAND, 97, 109, 112, SEMICOLON];
    assert w == Bytes("&amp;") && Bytes("&") == [AMPERSAND];
    NameAt(t, i, n, w);
    assert At(t, i + 1, w[1]) && At(t, i + 2, w[2]) && At(t, i + 3, w[3]) && At(t, i + 4, w[4]);
  }

  lemma ApostropheReference(t: seq<Byte>, i: nat, n: nat)
    requires i <= n <= |t| && t[i..n] == Bytes("&apos;")
    ensures ReferenceAt(t, i) == Refers(Bytes("'"), n)
  {
    var w := [AMPERSAND, 97, 112, 111, 115, SEMICOLON];
    assert w == Bytes("&apos;") && Bytes("'") == [APOSTROPHE];
    NameAt(t, i, n, w);
    assert At(t, i + 1, w[1]) && At(t, i + 2, w[2]) && At(t, i + 3, w[3]) && At(t, i + 4, w[4]) && At(t, i + 5, w[5]);
  }

  lemma QuoteReference(t: seq<Byte>, i: nat, n: nat)
    requires i <= n <= |t| && t[i..n] == Bytes("&quot;")
    ensures ReferenceAt(t, i) == Refers(Bytes("\""), n)
  {
    var w := [AMPERSAND, 113, 117, 111, 116, SEMICOLON];
    assert w == Bytes("&quot;") && Bytes("\"") == [QUOTE];
    NameAt(t, i, n, w);
    assert At(t, i + 1, w[1]) && At(t, i + 2, w[2]) && At(t, i + 3, w[3]) && At(t, i + 4, w[4]) && At(t, i + 5, w[5]);
  }
}
