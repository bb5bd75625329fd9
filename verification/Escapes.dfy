/** Character references and escaping in XML text, on byte sequences: what the parser's
    in-place conversions are to leave in the buffer, and what the printer writes. */
module Escapes {

  type Byte = b: int | 0 <= b < 256

  const TAB: Byte := 9
  const NEWLINE: Byte := 10
  const RETURN: Byte := 13
  const SPACE: Byte := 32
  const QUOTE: Byte := 34
  const HASH: Byte := 35
  const AMPERSAND: Byte := 38
  const APOSTROPHE: Byte := 39
  const SEMICOLON: Byte := 59
  const LESS: Byte := 60
  const GREATER: Byte := 62

  // ---------- references ----------

  /** UTF-8, as the writer lays it out; values too large for it lose their high bits. */
  function Utf8(c: nat): (s: seq<Byte>)
    ensures 1 <= |s| <= 4
    ensures c > 0 && c < 0x80 ==> s == [c]
  {
    if c < 0x80 then [c]
    else if c < 0x800 then [0xC0 + c / 64, 0x80 + c % 64]
    else if c < 0x1_0000 then [0xE0 + c / 4096, 0x80 + c / 64 % 64, 0x80 + c % 64]
    else [0xF0 + c / 0x4_0000 % 16, 0x80 + c / 4096 % 64, 0x80 + c / 64 % 64, 0x80 + c % 64]
  }

  /** The digit `c` stands for in base ten or sixteen, or a number that is no digit. */
  function Digit(c: Byte, base: nat): (d: nat) {
    if 48 <= c <= 57 then c - 48
    else if base == 16 && 65 <= c <= 70 then c - 55
    else if base == 16 && 97 <= c <= 102 then c - 87
    else 99
  }

  predicate IsDigit(c: Byte, base: nat) {
    Digit(c, base) < 99
  }

  function DigitsEnd(t: seq<Byte>, j: nat, base: nat): (e: nat)
    requires j <= |t|
    ensures j <= e <= |t| && (forall k :: j <= k < e ==> IsDigit(t[k], base))
    ensures e < |t| ==> !IsDigit(t[e], base)
    decreases |t| - j
  {
    if j < |t| && IsDigit(t[j], base) then DigitsEnd(t, j + 1, base) else j
  }

  /** The number that digits `j` to `e` write, in 32 bits. */
  function Number(t: seq<Byte>, j: nat, e: nat, base: nat): (v: nat)
    requires j <= e <= |t|
    ensures v < 0x1_0000_0000
  {
    if j == e then 0 else (base * Number(t, j, e - 1, base) + Digit(t[e - 1], base)) % 0x1_0000_0000
  }

  datatype Reference = NoReference | Refers(bytes: seq<Byte>, next: nat)

  function Numeric(t: seq<Byte>, j: nat, base: nat): (r: Reference)
    requires j <= |t|
    ensures r.Refers? ==> j + 2 <= r.next <= |t| && |r.bytes| <= 4
  {
    var e := DigitsEnd(t, j, base);
    if j < e < |t| && t[e] == SEMICOLON then Refers(Utf8(Number(t, j, e, base)), e + 1) else NoReference
  }

  predicate At(t: seq<Byte>, i: nat, c: Byte) {
    i < |t| && t[i] == c
  }

  predicate IsAmp(t: seq<Byte>, i: nat) {
    At(t, i, 97) && At(t, i + 1, 109) && At(t, i + 2, 112) && At(t, i + 3, SEMICOLON)
  }

  predicate IsApos(t: seq<Byte>, i: nat) {
    At(t, i, 97) && At(t, i + 1, 112) && At(t, i + 2, 111) && At(t, i + 3, 115) && At(t, i + 4, SEMICOLON)
  }

  predicate IsGt(t: seq<Byte>, i: nat) {
    At(t, i, 103) && At(t, i + 1, 116) && At(t, i + 2, SEMICOLON)
  }

  predicate IsLt(t: seq<Byte>, i: nat) {
    At(t, i, 108) && At(t, i + 1, 116) && At(t, i + 2, SEMICOLON)
  }

  predicate IsQuot(t: seq<Byte>, i: nat) {
    At(t, i, 113) && At(t, i + 1, 117) && At(t, i + 2, 111) && At(t, i + 3, 116) && At(t, i + 4, SEMICOLON)
  }

  /** What the character reference or predefined entity at the ampersand `i` stands for
      (XML 1.0, sections 4.1 and 4.6). */
  function ReferenceAt(t: seq<Byte>, i: nat): (r: Reference)
    requires i < |t|
    ensures r.Refers? ==> i + 4 <= r.next <= |t| && 1 <= |r.bytes| <= 4
  {
    if At(t, i + 1, HASH) then
      if At(t, i + 2, 120) then Numeric(t, i + 3, 16) else Numeric(t, i + 2, 10)
    else if IsAmp(t, i + 1) then Refers([AMPERSAND], i + 5)
    else if IsApos(t, i + 1) then Refers([APOSTROPHE], i + 6)
    else if IsGt(t, i + 1) then Refers([GREATER], i + 4)
    else if IsLt(t, i + 1) then Refers([LESS], i + 4)
    else if IsQuot(t, i + 1) then Refers([QUOTE], i + 6)
    else NoReference
  }

  // ---------- conversion ----------

  datatype Breaks = Keep | ToNewline | ToSpace

  /** The byte that ends the text, and what is converted in it: references or not, and
      line ends not at all, to single newlines, or with all other white space to spaces. */
  datatype Mode = Mode(stop: Byte, escapes: bool, breaks: Breaks)

  predicate IsSpace(c: Byte) {
    c == RETURN || c == NEWLINE || c == SPACE || c == TAB
  }

  predicate Ends(c: Byte, m: Mode) {
    c == m.stop || c == 0
  }

  /** What the text at `i` turns into, and where it goes on. */
  function Piece(t: seq<Byte>, i: nat, m: Mode): (r: (seq<Byte>, nat))
    requires i < |t|
    ensures i < r.1 <= |t| && |r.0| <= r.1 - i
  {
    if m.breaks != Keep && t[i] == RETURN then
      ([if m.breaks == ToSpace then SPACE else NEWLINE], if i + 1 < |t| && t[i + 1] == NEWLINE then i + 2 else i + 1)
    else if m.breaks == ToSpace && IsSpace(t[i]) then
      ([SPACE], i + 1)
    else if m.escapes && t[i] == AMPERSAND && ReferenceAt(t, i).Refers? then
      (ReferenceAt(t, i).bytes, ReferenceAt(t, i).next)
    else
      ([t[i]], i + 1)
  }

  /** The whole text from `i` to its end, converted. */
  function Convert(t: seq<Byte>, i: nat, m: Mode): (s: seq<Byte>)
    requires i <= |t|
    decreases |t| - i
  {
    if i == |t| || Ends(t[i], m) then [] else Piece(t, i, m).0 + Convert(t, Piece(t, i, m).1, m)
  }

  function StopAt(t: seq<Byte>, i: nat, m: Mode): (k: nat)
    requires i <= |t|
    ensures i <= k <= |t| && (forall j :: i <= j < k ==> !Ends(t[j], m)) && (k < |t| ==> Ends(t[k], m))
    decreases |t| - i
  {
    if i == |t| || Ends(t[i], m) then i else StopAt(t, i + 1, m)
  }

  /** A byte that the mode neither ends at nor converts. */
  predicate Copied(c: Byte, m: Mode) {
    && !Ends(c, m) && c != AMPERSAND
    && (m.breaks != Keep ==> c != RETURN)
    && (m.breaks == ToSpace ==> c == SPACE || !IsSpace(c))
  }

  lemma {:induction false} ConvertCopied(t: seq<Byte>, i: nat, j: nat, m: Mode)
    requires i <= j <= |t| && forall k :: i <= k < j ==> Copied(t[k], m)
    ensures Convert(t, i, m) == t[i..j] + Convert(t, j, m) && StopAt(t, i, m) == StopAt(t, j, m)
    decreases j - i
  {
    if i < j {
      assert Copied(t[i], m) && Piece(t, i, m) == ([t[i]], i + 1);
      ConvertCopied(t, i + 1, j, m);
      assert t[i..j] == [t[i]] + t[i + 1..j];
    } else {
      assert t[i..j] == [];
    }
  }

  /** The bytes of a reference are none of the bytes a text can end at. */
  lemma ReferenceBytes(t: seq<Byte>, i: nat, m: Mode)
    requires i < |t| && t[i] == AMPERSAND && ReferenceAt(t, i).Refers?
    requires m.stop in {QUOTE, APOSTROPHE, LESS}
    ensures forall k :: i <= k < ReferenceAt(t, i).next ==> !Ends(t[k], m)
  {
    if At(t, i + 1, HASH) {
      if At(t, i + 2, 120) {
        NumericBytes(t, i + 3, 16, m);
      } else {
        NumericBytes(t, i + 2, 10, m);
      }
    }
  }

  lemma NumericBytes(t: seq<Byte>, j: nat, base: nat, m: Mode)
    requires j <= |t| && Numeric(t, j, base).Refers? && m.stop in {QUOTE, APOSTROPHE, LESS}
    ensures forall k :: j <= k < Numeric(t, j, base).next ==> !Ends(t[k], m)
  {
    forall k | j <= k < DigitsEnd(t, j, base) ensures !Ends(t[k], m) {
      assert IsDigit(t[k], base);
    }
  }

  lemma {:induction false} StopAtSkips(t: seq<Byte>, i: nat, j: nat, m: Mode)
    requires i <= j <= |t| && forall k :: i <= k < j ==> !Ends(t[k], m)
    ensures StopAt(t, i, m) == StopAt(t, j, m)
    decreases j - i
  {
    if i < j {
      StopAtSkips(t, i + 1, j, m);
    }
  }

  /** Converting piece by piece ends where scanning byte by byte ends. */
  lemma PieceStop(t: seq<Byte>, i: nat, m: Mode)
    requires i < |t| && !Ends(t[i], m) && m.stop in {QUOTE, APOSTROPHE, LESS}
    ensures StopAt(t, i, m) == StopAt(t, Piece(t, i, m).1, m)
  {
    if m.breaks == Keep || t[i] != RETURN {
      if m.escapes && t[i] == AMPERSAND && ReferenceAt(t, i).Refers? {
        ReferenceBytes(t, i, m);
      }
    }
    StopAtSkips(t, i, Piece(t, i, m).1, m);
  }

  /** A conversion is never longer than the text it replaces. */
  lemma {:induction false} ConvertShrinks(t: seq<Byte>, i: nat, m: Mode)
    requires i <= |t| && m.stop in {QUOTE, APOSTROPHE, LESS}
    ensures |Convert(t, i, m)| <= StopAt(t, i, m) - i
    decreases |t| - i
  {
    if i < |t| && !Ends(t[i], m) {
      PieceStop(t, i, m);
      ConvertShrinks(t, Piece(t, i, m).1, m);
    }
  }

  /** The text without white space at its end. */
  function TrimEnd(s: seq<Byte>): (r: seq<Byte>)
    ensures r <= s && (r != [] ==> !IsSpace(r[|r| - 1]))
    ensures forall k :: |r| <= k < |s| ==> IsSpace(s[k])
  {
    if s != [] && IsSpace(s[|s| - 1]) then TrimEnd(s[..|s| - 1]) else s
  }

  function Trimmed(s: seq<Byte>, trim: bool): (r: seq<Byte>)
    ensures r <= s
  {
    if trim then TrimEnd(s) else s
  }
}
