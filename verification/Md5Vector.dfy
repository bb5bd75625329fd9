/** What a rotation and a word of the block are, and the digest of one message of the test suite
    in RFC 1321, appendix A.5, operation by operation: the lower-case alphabet. */
module Md5Vector {
  import opened Md5Rounds
  import opened Md5

  // ---------- rotations and words ----------

  predicate Bit(x: bv32, i: bv6)
    requires i < 32
  {
    (x >> i) & 1 == 1
  }

  lemma RotatedBits(x: bv32, s: bv6, i: bv6)
    requires 0 < s < 32 && i < 32
    ensures Bit((x << s) | (x >> (32 - s)), (i + s) % 32) <==> Bit(x, i)
  {
  }

  /** A rotation takes every bit `s` places up, and those that fall out at the top come in again
      at the bottom. */
  lemma RotateLeftBits(x: bv32, s: bv6, i: bv6)
    requires 0 < s < 32 && i < 32
    ensures Bit(RotateLeft(x, s), (i + s) % 32) <==> Bit(x, i)
  {
    RotatedBits(x, s, i);
  }

  lemma OctetBack(a: bv8)
    ensures a as nat as bv8 == a
  {
  }

  lemma NextOctet(a: bv8)
    requires a as nat < 255
    ensures (a + 1) as nat == a as nat + 1
  {
  }

  function OctetBits(n: nat): (a: bv8)
    requires n < 256
    ensures a as nat == n
  {
    if n == 0 then 0
    else
      NextOctet(OctetBits(n - 1));
      OctetBits(n - 1) + 1
  }

  lemma OctetValue(n: Octet)
    ensures n as bv8 as nat == n
  {
    OctetBack(OctetBits(n));
  }

  lemma FourValue(a: bv8, b: bv8, c: bv8, d: bv8)
    ensures ((a as bv32) | (b as bv32 << 8) | (c as bv32 << 16) | (d as bv32 << 24)) as nat
      == a as nat + 0x100 * b as nat + 0x1_0000 * c as nat + 0x100_0000 * d as nat
  {
  }

  lemma FirstOctet(a: Octet, n: nat, k: nat)
    ensures LittleEndian(a as nat + 0x100 * n, k + 1) == [a] + LittleEndian(n, k)
  {
  }

  lemma FourOctets(n: nat, a: Octet, b: Octet, c: Octet, d: Octet)
    requires n == a as nat + 0x100 * b as nat + 0x1_0000 * c as nat + 0x100_0000 * d as nat
    ensures LittleEndian(n, 4) == [a, b, c, d]
  {
    var high := c as nat + 0x100 * d as nat;
    FirstOctet(a, b as nat + 0x100 * high, 3);
    FirstOctet(b, high, 2);
    FirstOctet(c, d as nat, 1);
    FirstOctet(d, 0, 0);
  }

  lemma WordValue(s: seq<Octet>, k: nat)
    requires k + 4 <= |s|
    ensures WordAt(s, k).bits as nat
      == s[k] as nat + 0x100 * s[k + 1] as nat + 0x1_0000 * s[k + 2] as nat + 0x100_0000 * s[k + 3] as nat
  {
    OctetValue(s[k]);
    OctetValue(s[k + 1]);
    OctetValue(s[k + 2]);
    OctetValue(s[k + 3]);
    FourValue(s[k] as bv8, s[k + 1] as bv8, s[k + 2] as bv8, s[k + 3] as bv8);
  }

  /** A word is read from its octets lowest first: written back that way it gives the same four. */
  lemma WordOctets(s: seq<Octet>, k: nat)
    requires k + 4 <= |s|
    ensures LittleEndian(WordAt(s, k).bits as nat, 4) == s[k..k + 4]
  {
    WordValue(s, k);
    var n := WordAt(s, k).bits as nat;
    FourOctets(n, s[k], s[k + 1], s[k + 2], s[k + 3]);
  }

  lemma WordFrom(s: seq<Octet>, k: nat, a: bv8, b: bv8, c: bv8, d: bv8)
    requires k + 4 <= |s|
    requires s[k] == a as Octet && s[k + 1] == b as Octet && s[k + 2] == c as Octet && s[k + 3] == d as Octet
    ensures WordAt(s, k).bits == (a as bv32) | (b as bv32 << 8) | (c as bv32 << 16) | (d as bv32 << 24)
  {
    OctetBack(a);
    OctetBack(b);
    OctetBack(c);
    OctetBack(d);
  }

  // ---------- the message and its block ----------

  function Octets(s: string): (r: seq<Octet>)
    ensures |r| == |s|
  {
    seq(|s|, i requires 0 <= i < |s| => s[i] as int % 256)
  }

  const ALPHABET: string := "abcdefghijklmnopqrstuvwxyz"

  /** The words of the one block that the padded alphabet is. */
  predicate IsAlphabet(x: seq<Word>) {
    x == [
      Word(0x64636261), Word(0x68676665), Word(0x6c6b6a69), Word(0x706f6e6d),
      Word(0x74737271), Word(0x78777675), Word(0x00807a79), Word(0x00000000),
      Word(0x00000000), Word(0x00000000), Word(0x00000000), Word(0x00000000),
      Word(0x00000000), Word(0x00000000), Word(0x000000d0), Word(0x00000000)
    ]
  }

  /** Letters, the one bit, zeros, and the length in bits. */
  lemma PaddedAlphabet(s: seq<Octet>)
    requires s == Pad(Octets(ALPHABET))
    ensures |s| == 64 && s[26] == 0x80 && s[56] == 208
    ensures forall i :: 0 <= i < 26 ==> s[i] == ALPHABET[i] as int
    ensures forall i :: 27 <= i < 64 && i != 56 ==> s[i] == 0
  {
    var m := Octets(ALPHABET);
    assert |m| == 26 && PadZeros(26) == 29;
    assert s == m + [0x80] + Zeros(29) + LengthOctets(m);
    LengthOfAlphabet(m);
  }

  lemma LengthOfAlphabet(m: seq<Octet>)
    requires |m| == 26
    ensures LengthOctets(m) == [208, 0, 0, 0, 0, 0, 0, 0]
  {
    FourOctets(208, 208, 0, 0, 0);
    FourOctets(0, 0, 0, 0, 0);
    LittleEndianSplit(0, 208, 4, 4);
  }

  lemma AlphabetWord0(s: seq<Octet>)
    requires s == Pad(Octets(ALPHABET))
    ensures |s| == 64 && Words(s)[0] == Word(0x64636261)
  {
    PaddedAlphabet(s);
    WordFrom(s, 0, 0x61, 0x62, 0x63, 0x64);
  }

  lemma AlphabetWord1(s: seq<Octet>)
    requires s == Pad(Octets(ALPHABET))
    ensures |s| == 64 && Words(s)[1] == Word(0x68676665)
  {
    PaddedAlphabet(s);
    WordFrom(s, 4, 0x65, 0x66, 0x67, 0x68);
  }

  lemma AlphabetWord2(s: seq<Octet>)
    requires s == Pad(Octets(ALPHABET))
    ensures |s| == 64 && Words(s)[2] == Word(0x6c6b6a69)
  {
    PaddedAlphabet(s);
    WordFrom(s, 8, 0x69, 0x6a, 0x6b, 0x6c);
  }

  lemma AlphabetWord3(s: seq<Octet>)
    requires s == Pad(Octets(ALPHABET))
    ensures |s| == 64 && Words(s)[3] == Word(0x706f6e6d)
  {
    PaddedAlphabet(s);
    WordFrom(s, 12, 0x6d, 0x6e, 0x6f, 0x70);
  }

  lemma AlphabetWord4(s: seq<Octet>)
    requires s == Pad(Octets(ALPHABET))
    ensures |s| == 64 && Words(s)[4] == Word(0x74737271)
  {
    PaddedAlphabet(s);
    WordFrom(s, 16, 0x71, 0x72, 0x73, 0x74);
  }

  lemma AlphabetWord5(s: seq<Octet>)
    requires s == Pad(Octets(ALPHABET))
    ensures |s| == 64 && Words(s)[5] == Word(0x78777675)
  {
    PaddedAlphabet(s);
    WordFrom(s, 20, 0x75, 0x76, 0x77, 0x78);
  }

  lemma AlphabetWord6(s: seq<Octet>)
    requires s == Pad(Octets(ALPHABET))
    ensures |s| == 64 && Words(s)[6] == Word(0x00807a79)
  {
    PaddedAlphabet(s);
    WordFrom(s, 24, 0x79, 0x7a, 0x80, 0x00);
  }

  lemma AlphabetWord7(s: seq<Octet>)
    requires s == Pad(Octets(ALPHABET))
    ensures |s| == 64 && Words(s)[7] == Word(0x00000000)
  {
    PaddedAlphabet(s);
    WordFrom(s, 28, 0x00, 0x00, 0x00, 0x00);
  }

  lemma AlphabetWord8(s: seq<Octet>)
    requires s == Pad(Octets(ALPHABET))
    ensures |s| == 64 && Words(s)[8] == Word(0x00000000)
  {
    PaddedAlphabet(s);
    WordFrom(s, 32, 0x00, 0x00, 0x00, 0x00);
  }

  lemma AlphabetWord9(s: seq<Octet>)
    requires s == Pad(Octets(ALPHABET))
    ensures |s| == 64 && Words(s)[9] == Word(0x00000000)
  {
    PaddedAlphabet(s);
    WordFrom(s, 36, 0x00, 0x00, 0x00, 0x00);
  }

  lemma AlphabetWord10(s: seq<Octet>)
    requires s == Pad(Octets(ALPHABET))
    ensures |s| == 64 && Words(s)[10] == Word(0x00000000)
  {
    PaddedAlphabet(s);
    WordFrom(s, 40, 0x00, 0x00, 0x00, 0x00);
  }

  lemma AlphabetWord11(s: seq<Octet>)
    requires s == Pad(Octets(ALPHABET))
    ensures |s| == 64 && Words(s)[11] == Word(0x00000000)
  {
    PaddedAlphabet(s);
    WordFrom(s, 44, 0x00, 0x00, 0x00, 0x00);
  }

  lemma AlphabetWord12(s: seq<Octet>)
    requires s == Pad(Octets(ALPHABET))
    ensures |s| == 64 && Words(s)[12] == Word(0x00000000)
  {
    PaddedAlphabet(s);
    WordFrom(s, 48, 0x00, 0x00, 0x00, 0x00);
  }

  lemma AlphabetWord13(s: seq<Octet>)
    requires s == Pad(Octets(ALPHABET))
    ensures |s| == 64 && Words(s)[13] == Word(0x00000000)
  {
    PaddedAlphabet(s);
    WordFrom(s, 52, 0x00, 0x00, 0x00, 0x00);
  }

  lemma AlphabetWord14(s: seq<Octet>)
    requires s == Pad(Octets(ALPHABET))
    ensures |s| == 64 && Words(s)[14] == Word(0x000000d0)
  {
    PaddedAlphabet(s);
    WordFrom(s, 56, 0xd0, 0x00, 0x00, 0x00);
  }

  lemma AlphabetWord15(s: seq<Octet>)
    requires s == Pad(Octets(ALPHABET))
    ensures |s| == 64 && Words(s)[15] == Word(0x00000000)
  {
    PaddedAlphabet(s);
    WordFrom(s, 60, 0x00, 0x00, 0x00, 0x00);
  }

  lemma AlphabetWords(s: seq<Octet>)
    requires s == Pad(Octets(ALPHABET))
    ensures |s| == 64 && IsAlphabet(Words(s))
  {
    AlphabetWord0(s);
    AlphabetWord1(s);
    AlphabetWord2(s);
    AlphabetWord3(s);
    AlphabetWord4(s);
    AlphabetWord5(s);
    AlphabetWord6(s);
    AlphabetWord7(s);
    AlphabetWord8(s);
    AlphabetWord9(s);
    AlphabetWord10(s);
    AlphabetWord11(s);
    AlphabetWord12(s);
    AlphabetWord13(s);
    AlphabetWord14(s);
    AlphabetWord15(s);
  }

  // ---------- the operations ----------

  /** The operation at hand, from the values of its parts. */
  lemma Applied(trace: seq<Regs>, x: seq<Word>, i: nat, p: Regs, mixed: Word, word: Word, sine: Word, s: bv6, kept: Word)
    requires IsTrace(trace, x) && i < 64 && trace[i] == p && s <= 32
    requires Mix(i, p.b.bits, p.c.bits, p.d.bits) == mixed.bits && x[WordIndex(i)] == word
    requires SINES[i] == sine && Shift(i) == s && StepWord(mixed, p.a, p.b, word, sine, s) == kept
    ensures trace[i + 1] == Regs(p.d, kept, p.b, p.c)
  {
    assert trace[i + 1] == RfcStep(trace[i], x, i);
  }

  lemma Operation0(trace: seq<Regs>, x: seq<Word>)
    requires IsTrace(trace, x) && IsAlphabet(x) && trace[0] == Regs(Word(0x67452301), Word(0xefcdab89), Word(0x98badcfe), Word(0x10325476))
    ensures trace[1] == Regs(Word(0x10325476), Word(0xd6d117a6), Word(0xefcdab89), Word(0x98badcfe))
  {
    Applied(trace, x, 0, Regs(Word(0x67452301), Word(0xefcdab89), Word(0x98badcfe), Word(0x10325476)),
      Word(0x98badcfe), Word(0x64636261), Word(0xd76aa478), 7, Word(0xd6d117a6));
  }

  lemma Operation1(trace: seq<Regs>, x: seq<Word>)
    requires IsTrace(trace, x) && IsAlphabet(x) && trace[1] == Regs(Word(0x10325476), Word(0xd6d117a6), Word(0xefcdab89), Word(0x98badcfe))
    ensures trace[2] == Regs(Word(0x98badcfe), Word(0xaab1aaaa), Word(0xd6d117a6), Word(0xefcdab89))
  {
    Applied(trace, x, 1, Regs(Word(0x10325476), Word(0xd6d117a6), Word(0xefcdab89), Word(0x98badcfe)),
      Word(0xceebcbd8), Word(0x68676665), Word(0xe8c7b756), 12, Word(0xaab1aaaa));
  }

  lemma Operation2(trace: seq<Regs>, x: seq<Word>)
    requires IsTrace(trace, x) && IsAlphabet(x) && trace[2] == Regs(Word(0x98badcfe), Word(0xaab1aaaa), Word(0xd6d117a6), Word(0xefcdab89))
    ensures trace[3] == Regs(Word(0xefcdab89), Word(0x227d8cf1), Word(0xaab1aaaa), Word(0xd6d117a6))
  {
    Applied(trace, x, 2, Regs(Word(0x98badcfe), Word(0xaab1aaaa), Word(0xd6d117a6), Word(0xefcdab89)),
      Word(0xc7dd03a3), Word(0x6c6b6a69), Word(0x242070db), 17, Word(0x227d8cf1));
  }

  lemma Operation3(trace: seq<Regs>, x: seq<Word>)
    requires IsTrace(trace, x) && IsAlphabet(x) && trace[3] == Regs(Word(0xefcdab89), Word(0x227d8cf1), Word(0xaab1aaaa), Word(0xd6d117a6))
    ensures trace[4] == Regs(Word(0xd6d117a6), Word(0x4503b812), Word(0x227d8cf1), Word(0xaab1aaaa))
  {
    Applied(trace, x, 3, Regs(Word(0xefcdab89), Word(0x227d8cf1), Word(0xaab1aaaa), Word(0xd6d117a6)),
      Word(0xf6b19ba6), Word(0x706f6e6d), Word(0xc1bdceee), 22, Word(0x4503b812));
  }

  lemma Operation4(trace: seq<Regs>, x: seq<Word>)
    requires IsTrace(trace, x) && IsAlphabet(x) && trace[4] == Regs(Word(0xd6d117a6), Word(0x4503b812), Word(0x227d8cf1), Word(0xaab1aaaa))
    ensures trace[5] == Regs(Word(0xaab1aaaa), Word(0xfe15f787), Word(0x4503b812), Word(0x227d8cf1))
  {
    Applied(trace, x, 4, Regs(Word(0xd6d117a6), Word(0x4503b812), Word(0x227d8cf1), Word(0xaab1aaaa)),
      Word(0xaab18ab8), Word(0x74737271), Word(0xf57c0faf), 7, Word(0xfe15f787));
  }

  lemma Operation5(trace: seq<Regs>, x: seq<Word>)
    requires IsTrace(trace, x) && IsAlphabet(x) && trace[5] == Regs(Word(0xaab1aaaa), Word(0xfe15f787), Word(0x4503b812), Word(0x227d8cf1))
    ensures trace[6] == Regs(Word(0x227d8cf1), Word(0xa811b278), Word(0xfe15f787), Word(0x4503b812))
  {
    Applied(trace, x, 5, Regs(Word(0xaab1aaaa), Word(0xfe15f787), Word(0x4503b812), Word(0x227d8cf1)),
      Word(0x4469b872), Word(0x78777675), Word(0x4787c62a), 12, Word(0xa811b278));
  }

  lemma Operation6(trace: seq<Regs>, x: seq<Word>)
    requires IsTrace(trace, x) && IsAlphabet(x) && trace[6] == Regs(Word(0x227d8cf1), Word(0xa811b278), Word(0xfe15f787), Word(0x4503b812))
    ensures trace[7] == Regs(Word(0x4503b812), Word(0xb71122fc), Word(0xa811b278), Word(0xfe15f787))
  {
    Applied(trace, x, 6, Regs(Word(0x227d8cf1), Word(0xa811b278), Word(0xfe15f787), Word(0x4503b812)),
      Word(0xed13ba02), Word(0x00807a79), Word(0xa8304613), 17, Word(0xb71122fc));
  }

  lemma Operation7(trace: seq<Regs>, x: seq<Word>)
    requires IsTrace(trace, x) && IsAlphabet(x) && trace[7] == Regs(Word(0x4503b812), Word(0xb71122fc), Word(0xa811b278), Word(0xfe15f787))
    ensures trace[8] == Regs(Word(0xfe15f787), Word(0xda9bbb0d), Word(0xb71122fc), Word(0xa811b278))
  {
    Applied(trace, x, 7, Regs(Word(0x4503b812), Word(0xb71122fc), Word(0xa811b278), Word(0xfe15f787)),
      Word(0xe815f77b), Word(0x00000000), Word(0xfd469501), 22, Word(0xda9bbb0d));
  }

  lemma Operation8(trace: seq<Regs>, x: seq<Word>)
    requires IsTrace(trace, x) && IsAlphabet(x) && trace[8] == Regs(Word(0xfe15f787), Word(0xda9bbb0d), Word(0xb71122fc), Word(0xa811b278))
    ensures trace[9] == Regs(Word(0xa811b278), Word(0xae752899), Word(0xda9bbb0d), Word(0xb71122fc))
  {
    Applied(trace, x, 8, Regs(Word(0xfe15f787), Word(0xda9bbb0d), Word(0xb71122fc), Word(0xa811b278)),
      Word(0xb211227c), Word(0x00000000), Word(0x698098d8), 7, Word(0xae752899));
  }

  lemma Operation9(trace: seq<Regs>, x: seq<Word>)
    requires IsTrace(trace, x) && IsAlphabet(x) && trace[9] == Regs(Word(0xa811b278), Word(0xae752899), Word(0xda9bbb0d), Word(0xb71122fc))
    ensures trace[10] == Regs(Word(0xb71122fc), Word(0x2bbe757f), Word(0xae752899), Word(0xda9bbb0d))
  {
    Applied(trace, x, 9, Regs(Word(0xa811b278), Word(0xae752899), Word(0xda9bbb0d), Word(0xb71122fc)),
      Word(0x9b112a6d), Word(0x00000000), Word(0x8b44f7af), 12, Word(0x2bbe757f));
  }

  lemma Operation10(trace: seq<Regs>, x: seq<Word>)
    requires IsTrace(trace, x) && IsAlphabet(x) && trace[10] == Regs(Word(0xb71122fc), Word(0x2bbe757f), Word(0xae752899), Word(0xda9bbb0d))
    ensures trace[11] == Regs(Word(0xda9bbb0d), Word(0x7d4bd80b), Word(0x2bbe757f), Word(0xae752899))
  {
    Applied(trace, x, 10, Regs(Word(0xb71122fc), Word(0x2bbe757f), Word(0xae752899), Word(0xda9bbb0d)),
      Word(0xfa35aa19), Word(0x00000000), Word(0xffff5bb1), 17, Word(0x7d4bd80b));
  }

  lemma Operation11(trace: seq<Regs>, x: seq<Word>)
    requires IsTrace(trace, x) && IsAlphabet(x) && trace[11] == Regs(Word(0xda9bbb0d), Word(0x7d4bd80b), Word(0x2bbe757f), Word(0xae752899))
    ensures trace[12] == Regs(Word(0xae752899), Word(0x56cfa5cb), Word(0x7d4bd80b), Word(0x2bbe757f))
  {
    Applied(trace, x, 11, Regs(Word(0xda9bbb0d), Word(0x7d4bd80b), Word(0x2bbe757f), Word(0xae752899)),
      Word(0xab3e709b), Word(0x00000000), Word(0x895cd7be), 22, Word(0x56cfa5cb));
  }

  lemma Operation12(trace: seq<Regs>, x: seq<Word>)
    requires IsTrace(trace, x) && IsAlphabet(x) && trace[12] == Regs(Word(0xae752899), Word(0x56cfa5cb), Word(0x7d4bd80b), Word(0x2bbe757f))
    ensures trace[13] == Regs(Word(0x2bbe757f), Word(0x1754a316), Word(0x56cfa5cb), Word(0x7d4bd80b))
  {
    Applied(trace, x, 12, Regs(Word(0xae752899), Word(0x56cfa5cb), Word(0x7d4bd80b), Word(0x2bbe757f)),
      Word(0x7d7bd03f), Word(0x00000000), Word(0x6b901122), 7, Word(0x1754a316));
  }

  lemma Operation13(trace: seq<Regs>, x: seq<Word>)
    requires IsTrace(trace, x) && IsAlphabet(x) && trace[13] == Regs(Word(0x2bbe757f), Word(0x1754a316), Word(0x56cfa5cb), Word(0x7d4bd80b))
    ensures trace[14] == Regs(Word(0x7d4bd80b), Word(0x85567d90), Word(0x1754a316), Word(0x56cfa5cb))
  {
    Applied(trace, x, 13, Regs(Word(0x2bbe757f), Word(0x1754a316), Word(0x56cfa5cb), Word(0x7d4bd80b)),
      Word(0x7e4ff90b), Word(0x00000000), Word(0xfd987193), 12, Word(0x85567d90));
  }

  lemma Operation14(trace: seq<Regs>, x: seq<Word>)
    requires IsTrace(trace, x) && IsAlphabet(x) && trace[14] == Regs(Word(0x7d4bd80b), Word(0x85567d90), Word(0x1754a316), Word(0x56cfa5cb))
    ensures trace[15] == Regs(Word(0x56cfa5cb), Word(0x00df74d5), Word(0x85567d90), Word(0x1754a316))
  {
    Applied(trace, x, 14, Regs(Word(0x7d4bd80b), Word(0x85567d90), Word(0x1754a316), Word(0x56cfa5cb)),
      Word(0x57dda15b), Word(0x000000d0), Word(0xa679438e), 17, Word(0x00df74d5));
  }

  lemma Operation15(trace: seq<Regs>, x: seq<Word>)
    requires IsTrace(trace, x) && IsAlphabet(x) && trace[15] == Regs(Word(0x56cfa5cb), Word(0x00df74d5), Word(0x85567d90), Word(0x1754a316))
    ensures trace[16] == Regs(Word(0x1754a316), Word(0x608d6b7e), Word(0x00df74d5), Word(0x85567d90))
  {
    Applied(trace, x, 15, Regs(Word(0x56cfa5cb), Word(0x00df74d5), Word(0x85567d90), Word(0x1754a316)),
      Word(0x1756f792), Word(0x00000000), Word(0x49b40821), 22, Word(0x608d6b7e));
  }

  lemma Operation16(trace: seq<Regs>, x: seq<Word>)
    requires IsTrace(trace, x) && IsAlphabet(x) && trace[16] == Regs(Word(0x1754a316), Word(0x608d6b7e), Word(0x00df74d5), Word(0x85567d90))
    ensures trace[17] == Regs(Word(0x85567d90), Word(0x2d8071cc), Word(0x608d6b7e), Word(0x00df74d5))
  {
    Applied(trace, x, 16, Regs(Word(0x1754a316), Word(0x608d6b7e), Word(0x00df74d5), Word(0x85567d90)),
      Word(0x008d6955), Word(0x68676665), Word(0xf61e2562), 5, Word(0x2d8071cc));
  }

  lemma Operation17(trace: seq<Regs>, x: seq<Word>)
    requires IsTrace(trace, x) && IsAlphabet(x) && trace[17] == Regs(Word(0x85567d90), Word(0x2d8071cc), Word(0x608d6b7e), Word(0x00df74d5))
    ensures trace[18] == Regs(Word(0x00df74d5), Word(0x5dcee119), Word(0x2d8071cc), Word(0x608d6b7e))
  {
    Applied(trace, x, 17, Regs(Word(0x85567d90), Word(0x2d8071cc), Word(0x608d6b7e), Word(0x00df74d5)),
      Word(0x60807bee), Word(0x00807a79), Word(0xc040b340), 9, Word(0x5dcee119));
  }

  lemma Operation18(trace: seq<Regs>, x: seq<Word>)
    requires IsTrace(trace, x) && IsAlphabet(x) && trace[18] == Regs(Word(0x00df74d5), Word(0x5dcee119), Word(0x2d8071cc), Word(0x608d6b7e))
    ensures trace[19] == Regs(Word(0x608d6b7e), Word(0xedfe7e4b), Word(0x5dcee119), Word(0x2d8071cc))
  {
    Applied(trace, x, 18, Regs(Word(0x00df74d5), Word(0x5dcee119), Word(0x2d8071cc), Word(0x608d6b7e)),
      Word(0x4d8c7198), Word(0x00000000), Word(0x265e5a51), 14, Word(0xedfe7e4b));
  }

  lemma Operation19(trace: seq<Regs>, x: seq<Word>)
    requires IsTrace(trace, x) && IsAlphabet(x) && trace[19] == Regs(Word(0x608d6b7e), Word(0xedfe7e4b), Word(0x5dcee119), Word(0x2d8071cc))
    ensures trace[20] == Regs(Word(0x2d8071cc), Word(0x4c2145b3), Word(0xedfe7e4b), Word(0x5dcee119))
  {
    Applied(trace, x, 19, Regs(Word(0x608d6b7e), Word(0xedfe7e4b), Word(0x5dcee119), Word(0x2d8071cc)),
      Word(0x7dcef059), Word(0x64636261), Word(0xe9b6c7aa), 20, Word(0x4c2145b3));
  }

  lemma Operation20(trace: seq<Regs>, x: seq<Word>)
    requires IsTrace(trace, x) && IsAlphabet(x) && trace[20] == Regs(Word(0x2d8071cc), Word(0x4c2145b3), Word(0xedfe7e4b), Word(0x5dcee119))
    ensures trace[21] == Regs(Word(0x5dcee119), Word(0x570c43e0), Word(0x4c2145b3), Word(0xedfe7e4b))
  {
    Applied(trace, x, 20, Regs(Word(0x2d8071cc), Word(0x4c2145b3), Word(0xedfe7e4b), Word(0x5dcee119)),
      Word(0xec305f53), Word(0x78777675), Word(0xd62f105d), 5, Word(0x570c43e0));
  }

  lemma Operation21(trace: seq<Regs>, x: seq<Word>)
    requires IsTrace(trace, x) && IsAlphabet(x) && trace[21] == Regs(Word(0x5dcee119), Word(0x570c43e0), Word(0x4c2145b3), Word(0xedfe7e4b))
    ensures trace[22] == Regs(Word(0xedfe7e4b), Word(0x977efd2a), Word(0x570c43e0), Word(0x4c2145b3))
  {
    Applied(trace, x, 21, Regs(Word(0x5dcee119), Word(0x570c43e0), Word(0x4c2145b3), Word(0xedfe7e4b)),
      Word(0x450d43f0), Word(0x00000000), Word(0x02441453), 9, Word(0x977efd2a));
  }

  lemma Operation22(trace: seq<Regs>, x: seq<Word>)
    requires IsTrace(trace, x) && IsAlphabet(x) && trace[22] == Regs(Word(0xedfe7e4b), Word(0x977efd2a), Word(0x570c43e0), Word(0x4c2145b3))
    ensures trace[23] == Regs(Word(0x4c2145b3), Word(0xc28ab49d), Word(0x977efd2a), Word(0x570c43e0))
  {
    Applied(trace, x, 22, Regs(Word(0xedfe7e4b), Word(0x977efd2a), Word(0x570c43e0), Word(0x4c2145b3)),
      Word(0x172c4762), Word(0x00000000), Word(0xd8a1e681), 14, Word(0xc28ab49d));
  }

  lemma Operation23(trace: seq<Regs>, x: seq<Word>)
    requires IsTrace(trace, x) && IsAlphabet(x) && trace[23] == Regs(Word(0x4c2145b3), Word(0xc28ab49d), Word(0x977efd2a), Word(0x570c43e0))
    ensures trace[24] == Regs(Word(0x570c43e0), Word(0xc9f162d4), Word(0xc28ab49d), Word(0x977efd2a))
  {
    Applied(trace, x, 23, Regs(Word(0x4c2145b3), Word(0xc28ab49d), Word(0x977efd2a), Word(0x570c43e0)),
      Word(0xc27abc8a), Word(0x74737271), Word(0xe7d3fbc8), 20, Word(0xc9f162d4));
  }

  lemma Operation24(trace: seq<Regs>, x: seq<Word>)
    requires IsTrace(trace, x) && IsAlphabet(x) && trace[24] == Regs(Word(0x570c43e0), Word(0xc9f162d4), Word(0xc28ab49d), Word(0x977efd2a))
    ensures trace[25] == Regs(Word(0x977efd2a), Word(0x25bfae3b), Word(0xc9f162d4), Word(0xc28ab49d))
  {
    Applied(trace, x, 24, Regs(Word(0x570c43e0), Word(0xc9f162d4), Word(0xc28ab49d), Word(0x977efd2a)),
      Word(0xc1f06095), Word(0x00000000), Word(0x21e1cde6), 5, Word(0x25bfae3b));
  }

  lemma Operation25(trace: seq<Regs>, x: seq<Word>)
    requires IsTrace(trace, x) && IsAlphabet(x) && trace[25] == Regs(Word(0x977efd2a), Word(0x25bfae3b), Word(0xc9f162d4), Word(0xc28ab49d))
    ensures trace[26] == Regs(Word(0xc28ab49d), Word(0x89980104), Word(0x25bfae3b), Word(0xc9f162d4))
  {
    Applied(trace, x, 25, Regs(Word(0x977efd2a), Word(0x25bfae3b), Word(0xc9f162d4), Word(0xc28ab49d)),
      Word(0x09fbe659), Word(0x000000d0), Word(0xc33707d6), 9, Word(0x89980104));
  }

  lemma Operation26(trace: seq<Regs>, x: seq<Word>)
    requires IsTrace(trace, x) && IsAlphabet(x) && trace[26] == Regs(Word(0xc28ab49d), Word(0x89980104), Word(0x25bfae3b), Word(0xc9f162d4))
    ensures trace[27] == Regs(Word(0xc9f162d4), Word(0xf8c8365f), Word(0x89980104), Word(0x25bfae3b))
  {
    Applied(trace, x, 26, Regs(Word(0xc28ab49d), Word(0x89980104), Word(0x25bfae3b), Word(0xc9f162d4)),
      Word(0xad9e8c2f), Word(0x706f6e6d), Word(0xf4d50d87), 14, Word(0xf8c8365f));
  }

  lemma Operation27(trace: seq<Regs>, x: seq<Word>)
    requires IsTrace(trace, x) && IsAlphabet(x) && trace[27] == Regs(Word(0xc9f162d4), Word(0xf8c8365f), Word(0x89980104), Word(0x25bfae3b))
    ensures trace[28] == Regs(Word(0x25bfae3b), Word(0xe6d3b398), Word(0xf8c8365f), Word(0x89980104))
  {
    Applied(trace, x, 27, Regs(Word(0xc9f162d4), Word(0xf8c8365f), Word(0x89980104), Word(0x25bfae3b)),
      Word(0xa888271f), Word(0x00000000), Word(0x455a14ed), 20, Word(0xe6d3b398));
  }

  lemma Operation28(trace: seq<Regs>, x: seq<Word>)
    requires IsTrace(trace, x) && IsAlphabet(x) && trace[28] == Regs(Word(0x25bfae3b), Word(0xe6d3b398), Word(0xf8c8365f), Word(0x89980104))
    ensures trace[29] == Regs(Word(0x89980104), Word(0xf54d8710), Word(0xe6d3b398), Word(0xf8c8365f))
  {
    Applied(trace, x, 28, Regs(Word(0x25bfae3b), Word(0xe6d3b398), Word(0xf8c8365f), Word(0x89980104)),
      Word(0xf0d0375b), Word(0x00000000), Word(0xa9e3e905), 5, Word(0xf54d8710));
  }

  lemma Operation29(trace: seq<Regs>, x: seq<Word>)
    requires IsTrace(trace, x) && IsAlphabet(x) && trace[29] == Regs(Word(0x89980104), Word(0xf54d8710), Word(0xe6d3b398), Word(0xf8c8365f))
    ensures trace[30] == Regs(Word(0xf8c8365f), Word(0x927b72e2), Word(0xf54d8710), Word(0xe6d3b398))
  {
    Applied(trace, x, 29, Regs(Word(0x89980104), Word(0xf54d8710), Word(0xe6d3b398), Word(0xf8c8365f)),
      Word(0xf65b8790), Word(0x6c6b6a69), Word(0xfcefa3f8), 9, Word(0x927b72e2));
  }

  lemma Operation30(trace: seq<Regs>, x: seq<Word>)
    requires IsTrace(trace, x) && IsAlphabet(x) && trace[30] == Regs(Word(0xf8c8365f), Word(0x927b72e2), Word(0xf54d8710), Word(0xe6d3b398))
    ensures trace[31] == Regs(Word(0xe6d3b398), Word(0x2e69afc7), Word(0x927b72e2), Word(0xf54d8710))
  {
    Applied(trace, x, 30, Regs(Word(0xf8c8365f), Word(0x927b72e2), Word(0xf54d8710), Word(0xe6d3b398)),
      Word(0x935f3680), Word(0x00000000), Word(0x676f02d9), 14, Word(0x2e69afc7));
  }

  lemma Operation31(trace: seq<Regs>, x: seq<Word>)
    requires IsTrace(trace, x) && IsAlphabet(x) && trace[31] == Regs(Word(0xe6d3b398), Word(0x2e69afc7), Word(0x927b72e2), Word(0xf54d8710))
    ensures trace[32] == Regs(Word(0xf54d8710), Word(0xaeb35766), Word(0x2e69afc7), Word(0x927b72e2))
  {
    Applied(trace, x, 31, Regs(Word(0xe6d3b398), Word(0x2e69afc7), Word(0x927b72e2), Word(0xf54d8710)),
      Word(0x267bf7e2), Word(0x00000000), Word(0x8d2a4c8a), 20, Word(0xaeb35766));
  }

  lemma Operation32(trace: seq<Regs>, x: seq<Word>)
    requires IsTrace(trace, x) && IsAlphabet(x) && trace[32] == Regs(Word(0xf54d8710), Word(0xaeb35766), Word(0x2e69afc7), Word(0x927b72e2))
    ensures trace[33] == Regs(Word(0x927b72e2), Word(0xb4bf680e), Word(0xaeb35766), Word(0x2e69afc7))
  {
    Applied(trace, x, 32, Regs(Word(0xf54d8710), Word(0xaeb35766), Word(0x2e69afc7), Word(0x927b72e2)),
      Word(0x12a18a43), Word(0x78777675), Word(0xfffa3942), 4, Word(0xb4bf680e));
  }

  lemma Operation33(trace: seq<Regs>, x: seq<Word>)
    requires IsTrace(trace, x) && IsAlphabet(x) && trace[33] == Regs(Word(0x927b72e2), Word(0xb4bf680e), Word(0xaeb35766), Word(0x2e69afc7))
    ensures trace[34] == Regs(Word(0x2e69afc7), Word(0x4c8ffa80), Word(0xb4bf680e), Word(0xaeb35766))
  {
    Applied(trace, x, 33, Regs(Word(0x927b72e2), Word(0xb4bf680e), Word(0xaeb35766), Word(0x2e69afc7)),
      Word(0x346590af), Word(0x00000000), Word(0x8771f681), 11, Word(0x4c8ffa80));
  }

  lemma Operation34(trace: seq<Regs>, x: seq<Word>)
    requires IsTrace(trace, x) && IsAlphabet(x) && trace[34] == Regs(Word(0x2e69afc7), Word(0x4c8ffa80), Word(0xb4bf680e), Word(0xaeb35766))
    ensures trace[35] == Regs(Word(0xaeb35766), Word(0x2361ed0a), Word(0x4c8ffa80), Word(0xb4bf680e))
  {
    Applied(trace, x, 34, Regs(Word(0x2e69afc7), Word(0x4c8ffa80), Word(0xb4bf680e), Word(0xaeb35766)),
      Word(0x5683c5e8), Word(0x00000000), Word(0x6d9d6122), 16, Word(0x2361ed0a));
  }

  lemma Operation35(trace: seq<Regs>, x: seq<Word>)
    requires IsTrace(trace, x) && IsAlphabet(x) && trace[35] == Regs(Word(0xaeb35766), Word(0x2361ed0a), Word(0x4c8ffa80), Word(0xb4bf680e))
    ensures trace[36] == Regs(Word(0xb4bf680e), Word(0x06a5e211), Word(0x2361ed0a), Word(0x4c8ffa80))
  {
    Applied(trace, x, 35, Regs(Word(0xaeb35766), Word(0x2361ed0a), Word(0x4c8ffa80), Word(0xb4bf680e)),
      Word(0xdb517f84), Word(0x000000d0), Word(0xfde5380c), 23, Word(0x06a5e211));
  }

  lemma Operation36(trace: seq<Regs>, x: seq<Word>)
    requires IsTrace(trace, x) && IsAlphabet(x) && trace[36] == Regs(Word(0xb4bf680e), Word(0x06a5e211), Word(0x2361ed0a), Word(0x4c8ffa80))
    ensures trace[37] == Regs(Word(0x4c8ffa80), Word(0xb9c0c733), Word(0x06a5e211), Word(0x2361ed0a))
  {
    Applied(trace, x, 36, Regs(Word(0xb4bf680e), Word(0x06a5e211), Word(0x2361ed0a), Word(0x4c8ffa80)),
      Word(0x694bf59b), Word(0x68676665), Word(0xa4beea44), 4, Word(0xb9c0c733));
  }

  lemma Operation37(trace: seq<Regs>, x: seq<Word>)
    requires IsTrace(trace, x) && IsAlphabet(x) && trace[37] == Regs(Word(0x4c8ffa80), Word(0xb9c0c733), Word(0x06a5e211), Word(0x2361ed0a))
    ensures trace[38] == Regs(Word(0x2361ed0a), Word(0xf1e6dc7a), Word(0xb9c0c733), Word(0x06a5e211))
  {
    Applied(trace, x, 37, Regs(Word(0x4c8ffa80), Word(0xb9c0c733), Word(0x06a5e211), Word(0x2361ed0a)),
      Word(0x9c04c828), Word(0x74737271), Word(0x4bdecfa9), 11, Word(0xf1e6dc7a));
  }

  lemma Operation38(trace: seq<Regs>, x: seq<Word>)
    requires IsTrace(trace, x) && IsAlphabet(x) && trace[38] == Regs(Word(0x2361ed0a), Word(0xf1e6dc7a), Word(0xb9c0c733), Word(0x06a5e211))
    ensures trace[39] == Regs(Word(0x06a5e211), Word(0x23a9451b), Word(0xf1e6dc7a), Word(0xb9c0c733))
  {
    Applied(trace, x, 38, Regs(Word(0x2361ed0a), Word(0xf1e6dc7a), Word(0xb9c0c733), Word(0x06a5e211)),
      Word(0x4e83f958), Word(0x00000000), Word(0xf6bb4b60), 16, Word(0x23a9451b));
  }

  lemma Operation39(trace: seq<Regs>, x: seq<Word>)
    requires IsTrace(trace, x) && IsAlphabet(x) && trace[39] == Regs(Word(0x06a5e211), Word(0x23a9451b), Word(0xf1e6dc7a), Word(0xb9c0c733))
    ensures trace[40] == Regs(Word(0xb9c0c733), Word(0x8d41bf99), Word(0x23a9451b), Word(0xf1e6dc7a))
  {
    Applied(trace, x, 39, Regs(Word(0x06a5e211), Word(0x23a9451b), Word(0xf1e6dc7a), Word(0xb9c0c733)),
      Word(0x6b8f5e52), Word(0x00000000), Word(0xbebfbc70), 23, Word(0x8d41bf99));
  }

  lemma Operation40(trace: seq<Regs>, x: seq<Word>)
    requires IsTrace(trace, x) && IsAlphabet(x) && trace[40] == Regs(Word(0xb9c0c733), Word(0x8d41bf99), Word(0x23a9451b), Word(0xf1e6dc7a))
    ensures trace[41] == Regs(Word(0xf1e6dc7a), Word(0xa3e88ead), Word(0x8d41bf99), Word(0x23a9451b))
  {
    Applied(trace, x, 40, Regs(Word(0xb9c0c733), Word(0x8d41bf99), Word(0x23a9451b), Word(0xf1e6dc7a)),
      Word(0x5f0e26f8), Word(0x00000000), Word(0x289b7ec6), 4, Word(0xa3e88ead));
  }

  lemma Operation41(trace: seq<Regs>, x: seq<Word>)
    requires IsTrace(trace, x) && IsAlphabet(x) && trace[41] == Regs(Word(0xf1e6dc7a), Word(0xa3e88ead), Word(0x8d41bf99), Word(0x23a9451b))
    ensures trace[42] == Regs(Word(0x23a9451b), Word(0x02c0b11c), Word(0xa3e88ead), Word(0x8d41bf99))
  {
    Applied(trace, x, 41, Regs(Word(0xf1e6dc7a), Word(0xa3e88ead), Word(0x8d41bf99), Word(0x23a9451b)),
      Word(0x0d00742f), Word(0x64636261), Word(0xeaa127fa), 11, Word(0x02c0b11c));
  }

  lemma Operation42(trace: seq<Regs>, x: seq<Word>)
    requires IsTrace(trace, x) && IsAlphabet(x) && trace[42] == Regs(Word(0x23a9451b), Word(0x02c0b11c), Word(0xa3e88ead), Word(0x8d41bf99))
    ensures trace[43] == Regs(Word(0x8d41bf99), Word(0x66f6468d), Word(0x02c0b11c), Word(0xa3e88ead))
  {
    Applied(trace, x, 42, Regs(Word(0x23a9451b), Word(0x02c0b11c), Word(0xa3e88ead), Word(0x8d41bf99)),
      Word(0x2c698028), Word(0x706f6e6d), Word(0xd4ef3085), 16, Word(0x66f6468d));
  }

  lemma Operation43(trace: seq<Regs>, x: seq<Word>)
    requires IsTrace(trace, x) && IsAlphabet(x) && trace[43] == Regs(Word(0x8d41bf99), Word(0x66f6468d), Word(0x02c0b11c), Word(0xa3e88ead))
    ensures trace[44] == Regs(Word(0xa3e88ead), Word(0x90a35af5), Word(0x66f6468d), Word(0x02c0b11c))
  {
    Applied(trace, x, 43, Regs(Word(0x8d41bf99), Word(0x66f6468d), Word(0x02c0b11c), Word(0xa3e88ead)),
      Word(0xc7de793c), Word(0x00807a79), Word(0x04881d05), 23, Word(0x90a35af5));
  }

  lemma Operation44(trace: seq<Regs>, x: seq<Word>)
    requires IsTrace(trace, x) && IsAlphabet(x) && trace[44] == Regs(Word(0xa3e88ead), Word(0x90a35af5), Word(0x66f6468d), Word(0x02c0b11c))
    ensures trace[45] == Regs(Word(0x02c0b11c), Word(0xb5d41f9c), Word(0x90a35af5), Word(0x66f6468d))
  {
    Applied(trace, x, 44, Regs(Word(0xa3e88ead), Word(0x90a35af5), Word(0x66f6468d), Word(0x02c0b11c)),
      Word(0xf495ad64), Word(0x00000000), Word(0xd9d4d039), 4, Word(0xb5d41f9c));
  }

  lemma Operation45(trace: seq<Regs>, x: seq<Word>)
    requires IsTrace(trace, x) && IsAlphabet(x) && trace[45] == Regs(Word(0x02c0b11c), Word(0xb5d41f9c), Word(0x90a35af5), Word(0x66f6468d))
    ensures trace[46] == Regs(Word(0x66f6468d), Word(0xa04b4904), Word(0xb5d41f9c), Word(0x90a35af5))
  {
    Applied(trace, x, 45, Regs(Word(0x02c0b11c), Word(0xb5d41f9c), Word(0x90a35af5), Word(0x66f6468d)),
      Word(0x438103e4), Word(0x00000000), Word(0xe6db99e5), 11, Word(0xa04b4904));
  }

  lemma Operation46(trace: seq<Regs>, x: seq<Word>)
    requires IsTrace(trace, x) && IsAlphabet(x) && trace[46] == Regs(Word(0x66f6468d), Word(0xa04b4904), Word(0xb5d41f9c), Word(0x90a35af5))
    ensures trace[47] == Regs(Word(0x90a35af5), Word(0x703d54d8), Word(0xa04b4904), Word(0xb5d41f9c))
  {
    Applied(trace, x, 46, Regs(Word(0x66f6468d), Word(0xa04b4904), Word(0xb5d41f9c), Word(0x90a35af5)),
      Word(0x853c0c6d), Word(0x00000000), Word(0x1fa27cf8), 16, Word(0x703d54d8));
  }

  lemma Operation47(trace: seq<Regs>, x: seq<Word>)
    requires IsTrace(trace, x) && IsAlphabet(x) && trace[47] == Regs(Word(0x90a35af5), Word(0x703d54d8), Word(0xa04b4904), Word(0xb5d41f9c))
    ensures trace[48] == Regs(Word(0xb5d41f9c), Word(0x71d10367), Word(0x703d54d8), Word(0xa04b4904))
  {
    Applied(trace, x, 47, Regs(Word(0x90a35af5), Word(0x703d54d8), Word(0xa04b4904), Word(0xb5d41f9c)),
      Word(0x65a20240), Word(0x6c6b6a69), Word(0xc4ac5665), 23, Word(0x71d10367));
  }

  lemma Operation48(trace: seq<Regs>, x: seq<Word>)
    requires IsTrace(trace, x) && IsAlphabet(x) && trace[48] == Regs(Word(0xb5d41f9c), Word(0x71d10367), Word(0x703d54d8), Word(0xa04b4904))
    ensures trace[49] == Regs(Word(0xa04b4904), Word(0xfc32dd6e), Word(0x71d10367), Word(0x703d54d8))
  {
    Applied(trace, x, 48, Regs(Word(0xb5d41f9c), Word(0x71d10367), Word(0x703d54d8), Word(0xa04b4904)),
      Word(0x0fc8e327), Word(0x64636261), Word(0xf4292244), 6, Word(0xfc32dd6e));
  }

  lemma Operation49(trace: seq<Regs>, x: seq<Word>)
    requires IsTrace(trace, x) && IsAlphabet(x) && trace[49] == Regs(Word(0xa04b4904), Word(0xfc32dd6e), Word(0x71d10367), Word(0x703d54d8))
    ensures trace[50] == Regs(Word(0x703d54d8), Word(0x65456b34), Word(0xfc32dd6e), Word(0x71d10367))
  {
    Applied(trace, x, 49, Regs(Word(0xa04b4904), Word(0xfc32dd6e), Word(0x71d10367), Word(0x703d54d8)),
      Word(0x8e23fc08), Word(0x00000000), Word(0x432aff97), 10, Word(0x65456b34));
  }

  lemma Operation50(trace: seq<Regs>, x: seq<Word>)
    requires IsTrace(trace, x) && IsAlphabet(x) && trace[50] == Regs(Word(0x703d54d8), Word(0x65456b34), Word(0xfc32dd6e), Word(0x71d10367))
    ensures trace[51] == Regs(Word(0x71d10367), Word(0xb35602cb), Word(0x65456b34), Word(0xfc32dd6e))
  {
    Applied(trace, x, 50, Regs(Word(0x703d54d8), Word(0x65456b34), Word(0xfc32dd6e), Word(0x71d10367)),
      Word(0x135d22d2), Word(0x000000d0), Word(0xab9423a7), 15, Word(0xb35602cb));
  }

  lemma Operation51(trace: seq<Regs>, x: seq<Word>)
    requires IsTrace(trace, x) && IsAlphabet(x) && trace[51] == Regs(Word(0x71d10367), Word(0xb35602cb), Word(0x65456b34), Word(0xfc32dd6e))
    ensures trace[52] == Regs(Word(0xfc32dd6e), Word(0x33edb197), Word(0xb35602cb), Word(0x65456b34))
  {
    Applied(trace, x, 51, Regs(Word(0x71d10367), Word(0xb35602cb), Word(0x65456b34), Word(0xfc32dd6e)),
      Word(0xd69a49ef), Word(0x78777675), Word(0xfc93a039), 21, Word(0x33edb197));
  }

  lemma Operation52(trace: seq<Regs>, x: seq<Word>)
    requires IsTrace(trace, x) && IsAlphabet(x) && trace[52] == Regs(Word(0xfc32dd6e), Word(0x33edb197), Word(0xb35602cb), Word(0x65456b34))
    ensures trace[53] == Regs(Word(0x65456b34), Word(0xc1e942f1), Word(0x33edb197), Word(0xb35602cb))
  {
    Applied(trace, x, 52, Regs(Word(0xfc32dd6e), Word(0x33edb197), Word(0xb35602cb), Word(0x65456b34)),
      Word(0x08a9b714), Word(0x00000000), Word(0x655b59c3), 6, Word(0xc1e942f1));
  }

  lemma Operation53(trace: seq<Regs>, x: seq<Word>)
    requires IsTrace(trace, x) && IsAlphabet(x) && trace[53] == Regs(Word(0x65456b34), Word(0xc1e942f1), Word(0x33edb197), Word(0xb35602cb))
    ensures trace[54] == Regs(Word(0xb35602cb), Word(0xd9bb987c), Word(0xc1e942f1), Word(0x33edb197))
  {
    Applied(trace, x, 53, Regs(Word(0x65456b34), Word(0xc1e942f1), Word(0x33edb197), Word(0xb35602cb)),
      Word(0xfe044e62), Word(0x706f6e6d), Word(0x8f0ccc92), 10, Word(0xd9bb987c));
  }

  lemma Operation54(trace: seq<Regs>, x: seq<Word>)
    requires IsTrace(trace, x) && IsAlphabet(x) && trace[54] == Regs(Word(0xb35602cb), Word(0xd9bb987c), Word(0xc1e942f1), Word(0x33edb197))
    ensures trace[55] == Regs(Word(0x33edb197), Word(0x23a68048), Word(0xd9bb987c), Word(0xc1e942f1))
  {
    Applied(trace, x, 54, Regs(Word(0xb35602cb), Word(0xd9bb987c), Word(0xc1e942f1), Word(0x33edb197)),
      Word(0x1c529c8d), Word(0x00000000), Word(0xffeff47d), 15, Word(0x23a68048));
  }

  lemma Operation55(trace: seq<Regs>, x: seq<Word>)
    requires IsTrace(trace, x) && IsAlphabet(x) && trace[55] == Regs(Word(0x33edb197), Word(0x23a68048), Word(0xd9bb987c), Word(0xc1e942f1))
    ensures trace[56] == Regs(Word(0xc1e942f1), Word(0x83877d1b), Word(0x23a68048), Word(0xd9bb987c))
  {
    Applied(trace, x, 55, Regs(Word(0x33edb197), Word(0x23a68048), Word(0xd9bb987c), Word(0xc1e942f1)),
      Word(0xe60d2532), Word(0x68676665), Word(0x85845dd1), 21, Word(0x83877d1b));
  }

  lemma Operation56(trace: seq<Regs>, x: seq<Word>)
    requires IsTrace(trace, x) && IsAlphabet(x) && trace[56] == Regs(Word(0xc1e942f1), Word(0x83877d1b), Word(0x23a68048), Word(0xd9bb987c))
    ensures trace[57] == Regs(Word(0xd9bb987c), Word(0x0077c208), Word(0x83877d1b), Word(0x23a68048))
  {
    Applied(trace, x, 56, Regs(Word(0xc1e942f1), Word(0x83877d1b), Word(0x23a68048), Word(0xd9bb987c)),
      Word(0x8461ffd3), Word(0x00000000), Word(0x6fa87e4f), 6, Word(0x0077c208));
  }

  lemma Operation57(trace: seq<Regs>, x: seq<Word>)
    requires IsTrace(trace, x) && IsAlphabet(x) && trace[57] == Regs(Word(0xd9bb987c), Word(0x0077c208), Word(0x83877d1b), Word(0x23a68048))
    ensures trace[58] == Regs(Word(0x23a68048), Word(0x847fc2e7), Word(0x0077c208), Word(0x83877d1b))
  {
    Applied(trace, x, 57, Regs(Word(0xd9bb987c), Word(0x0077c208), Word(0x83877d1b), Word(0x23a68048)),
      Word(0x5ff882a4), Word(0x00000000), Word(0xfe2ce6e0), 10, Word(0x847fc2e7));
  }

  lemma Operation58(trace: seq<Regs>, x: seq<Word>)
    requires IsTrace(trace, x) && IsAlphabet(x) && trace[58] == Regs(Word(0x23a68048), Word(0x847fc2e7), Word(0x0077c208), Word(0x83877d1b))
    ensures trace[59] == Regs(Word(0x83877d1b), Word(0xa3e2247f), Word(0x847fc2e7), Word(0x0077c208))
  {
    Applied(trace, x, 58, Regs(Word(0x23a68048), Word(0x847fc2e7), Word(0x0077c208), Word(0x83877d1b)),
      Word(0xfc0800ef), Word(0x00807a79), Word(0xa3014314), 15, Word(0xa3e2247f));
  }

  lemma Operation59(trace: seq<Regs>, x: seq<Word>)
    requires IsTrace(trace, x) && IsAlphabet(x) && trace[59] == Regs(Word(0x83877d1b), Word(0xa3e2247f), Word(0x847fc2e7), Word(0x0077c208))
    ensures trace[60] == Regs(Word(0x0077c208), Word(0x5e6bc930), Word(0xa3e2247f), Word(0x847fc2e7))
  {
    Applied(trace, x, 59, Regs(Word(0x83877d1b), Word(0xa3e2247f), Word(0x847fc2e7), Word(0x0077c208)),
      Word(0x7b95ff18), Word(0x00000000), Word(0x4e0811a1), 21, Word(0x5e6bc930));
  }

  lemma Operation60(trace: seq<Regs>, x: seq<Word>)
    requires IsTrace(trace, x) && IsAlphabet(x) && trace[60] == Regs(Word(0x0077c208), Word(0x5e6bc930), Word(0xa3e2247f), Word(0x847fc2e7))
    ensures trace[61] == Regs(Word(0x847fc2e7), Word(0x708ed9c2), Word(0x5e6bc930), Word(0xa3e2247f))
  {
    Applied(trace, x, 60, Regs(Word(0x0077c208), Word(0x5e6bc930), Word(0xa3e2247f), Word(0x847fc2e7)),
      Word(0xdc09d947), Word(0x74737271), Word(0xf7537e82), 6, Word(0x708ed9c2));
  }

  lemma Operation61(trace: seq<Regs>, x: seq<Word>)
    requires IsTrace(trace, x) && IsAlphabet(x) && trace[61] == Regs(Word(0x847fc2e7), Word(0x708ed9c2), Word(0x5e6bc930), Word(0xa3e2247f))
    ensures trace[62] == Regs(Word(0xa3e2247f), Word(0x2baf1354), Word(0x708ed9c2), Word(0x5e6bc930))
  {
    Applied(trace, x, 61, Regs(Word(0x847fc2e7), Word(0x708ed9c2), Word(0x5e6bc930), Word(0xa3e2247f)),
      Word(0x22f412f2), Word(0x00000000), Word(0xbd3af235), 10, Word(0x2baf1354));
  }

  lemma Operation62(trace: seq<Regs>, x: seq<Word>)
    requires IsTrace(trace, x) && IsAlphabet(x) && trace[62] == Regs(Word(0xa3e2247f), Word(0x2baf1354), Word(0x708ed9c2), Word(0x5e6bc930))
    ensures trace[63] == Regs(Word(0x5e6bc930), Word(0xd38f1e7f), Word(0x2baf1354), Word(0x708ed9c2))
  {
    Applied(trace, x, 62, Regs(Word(0xa3e2247f), Word(0x2baf1354), Word(0x708ed9c2), Word(0x5e6bc930)),
      Word(0xdb31ee1d), Word(0x6c6b6a69), Word(0x2ad7d2bb), 15, Word(0xd38f1e7f));
  }

  lemma Operation63(trace: seq<Regs>, x: seq<Word>)
    requires IsTrace(trace, x) && IsAlphabet(x) && trace[63] == Regs(Word(0x5e6bc930), Word(0xd38f1e7f), Word(0x2baf1354), Word(0x708ed9c2))
    ensures trace[64] == Regs(Word(0x708ed9c2), Word(0x1116e6d8), Word(0xd38f1e7f), Word(0x2baf1354))
  {
    Applied(trace, x, 63, Regs(Word(0x5e6bc930), Word(0xd38f1e7f), Word(0x2baf1354), Word(0x708ed9c2)),
      Word(0xf4502d2b), Word(0x00000000), Word(0xeb86d391), 21, Word(0x1116e6d8));
  }

  lemma AlphabetRound1(trace: seq<Regs>, x: seq<Word>)
    requires IsTrace(trace, x) && IsAlphabet(x) && trace[0] == Regs(Word(0x67452301), Word(0xefcdab89), Word(0x98badcfe), Word(0x10325476))
    ensures trace[16] == Regs(Word(0x1754a316), Word(0x608d6b7e), Word(0x00df74d5), Word(0x85567d90))
  {
    Operation0(trace, x);
    Operation1(trace, x);
    Operation2(trace, x);
    Operation3(trace, x);
    Operation4(trace, x);
    Operation5(trace, x);
    Operation6(trace, x);
    Operation7(trace, x);
    Operation8(trace, x);
    Operation9(trace, x);
    Operation10(trace, x);
    Operation11(trace, x);
    Operation12(trace, x);
    Operation13(trace, x);
    Operation14(trace, x);
    Operation15(trace, x);
  }

  lemma AlphabetRound2(trace: seq<Regs>, x: seq<Word>)
    requires IsTrace(trace, x) && IsAlphabet(x) && trace[16] == Regs(Word(0x1754a316), Word(0x608d6b7e), Word(0x00df74d5), Word(0x85567d90))
    ensures trace[32] == Regs(Word(0xf54d8710), Word(0xaeb35766), Word(0x2e69afc7), Word(0x927b72e2))
  {
    Operation16(trace, x);
    Operation17(trace, x);
    Operation18(trace, x);
    Operation19(trace, x);
    Operation20(trace, x);
    Operation21(trace, x);
    Operation22(trace, x);
    Operation23(trace, x);
    Operation24(trace, x);
    Operation25(trace, x);
    Operation26(trace, x);
    Operation27(trace, x);
    Operation28(trace, x);
    Operation29(trace, x);
    Operation30(trace, x);
    Operation31(trace, x);
  }

  lemma AlphabetRound3(trace: seq<Regs>, x: seq<Word>)
    requires IsTrace(trace, x) && IsAlphabet(x) && trace[32] == Regs(Word(0xf54d8710), Word(0xaeb35766), Word(0x2e69afc7), Word(0x927b72e2))
    ensures trace[48] == Regs(Word(0xb5d41f9c), Word(0x71d10367), Word(0x703d54d8), Word(0xa04b4904))
  {
    Operation32(trace, x);
    Operation33(trace, x);
    Operation34(trace, x);
    Operation35(trace, x);
    Operation36(trace, x);
    Operation37(trace, x);
    Operation38(trace, x);
    Operation39(trace, x);
    Operation40(trace, x);
    Operation41(trace, x);
    Operation42(trace, x);
    Operation43(trace, x);
    Operation44(trace, x);
    Operation45(trace, x);
    Operation46(trace, x);
    Operation47(trace, x);
  }

  lemma AlphabetRound4(trace: seq<Regs>, x: seq<Word>)
    requires IsTrace(trace, x) && IsAlphabet(x) && trace[48] == Regs(Word(0xb5d41f9c), Word(0x71d10367), Word(0x703d54d8), Word(0xa04b4904))
    ensures trace[64] == Regs(Word(0x708ed9c2), Word(0x1116e6d8), Word(0xd38f1e7f), Word(0x2baf1354))
  {
    Operation48(trace, x);
    Operation49(trace, x);
    Operation50(trace, x);
    Operation51(trace, x);
    Operation52(trace, x);
    Operation53(trace, x);
    Operation54(trace, x);
    Operation55(trace, x);
    Operation56(trace, x);
    Operation57(trace, x);
    Operation58(trace, x);
    Operation59(trace, x);
    Operation60(trace, x);
    Operation61(trace, x);
    Operation62(trace, x);
    Operation63(trace, x);
  }

  lemma AlphabetSteps(x: seq<Word>)
    requires IsAlphabet(x)
    ensures Steps(INITIAL, x, 64) == Regs(Word(0x708ed9c2), Word(0x1116e6d8), Word(0xd38f1e7f), Word(0x2baf1354))
  {
    var trace := seq(65, i requires 0 <= i < 65 => Steps(INITIAL, x, i));
    assert IsTrace(trace, x);
    AlphabetRound1(trace, x);
    AlphabetRound2(trace, x);
    AlphabetRound3(trace, x);
    AlphabetRound4(trace, x);
    assert trace[64] == Steps(INITIAL, x, 64);
  }

  lemma AlphabetOutputA(w: Word)
    requires w == Word(0xd7d3fcc3)
    ensures LittleEndian(w.bits as nat, 4) == [0xc3, 0xfc, 0xd3, 0xd7]
  {
    var n := w.bits as nat;
    assert n == 0xd7d3fcc3;
    FourOctets(n, 0xc3, 0xfc, 0xd3, 0xd7);
  }

  lemma AlphabetOutputB(w: Word)
    requires w == Word(0x00e49261)
    ensures LittleEndian(w.bits as nat, 4) == [0x61, 0x92, 0xe4, 0x00]
  {
    var n := w.bits as nat;
    assert n == 0x00e49261;
    FourOctets(n, 0x61, 0x92, 0xe4, 0x00);
  }

  lemma AlphabetOutputC(w: Word)
    requires w == Word(0x6c49fb7d)
    ensures LittleEndian(w.bits as nat, 4) == [0x7d, 0xfb, 0x49, 0x6c]
  {
    var n := w.bits as nat;
    assert n == 0x6c49fb7d;
    FourOctets(n, 0x7d, 0xfb, 0x49, 0x6c);
  }

  lemma AlphabetOutputD(w: Word)
    requires w == Word(0x3be167ca)
    ensures LittleEndian(w.bits as nat, 4) == [0xca, 0x67, 0xe1, 0x3b]
  {
    var n := w.bits as nat;
    assert n == 0x3be167ca;
    FourOctets(n, 0xca, 0x67, 0xe1, 0x3b);
  }

  lemma AlphabetOutput(r: Regs)
    requires r == Regs(Word(0xd7d3fcc3), Word(0x00e49261), Word(0x6c49fb7d), Word(0x3be167ca))
    ensures Output(r) == [
      0xc3, 0xfc, 0xd3, 0xd7, 0x61, 0x92, 0xe4, 0x00,
      0x7d, 0xfb, 0x49, 0x6c, 0xca, 0x67, 0xe1, 0x3b]
  {
    AlphabetOutputA(r.a);
    AlphabetOutputB(r.b);
    AlphabetOutputC(r.c);
    AlphabetOutputD(r.d);
  }

  lemma AlphabetSum(r: Regs)
    requires r == Regs(Word(0x708ed9c2), Word(0x1116e6d8), Word(0xd38f1e7f), Word(0x2baf1354))
    ensures AddRegs(r, INITIAL) == Regs(Word(0xd7d3fcc3), Word(0x00e49261), Word(0x6c49fb7d), Word(0x3be167ca))
  {
  }

  lemma OneBlock(s: Block)
    ensures Absorb(Compress, INITIAL, s) == Compress(INITIAL, s)
  {
    assert s[..64] == s && s[64..] == [];
  }

  /** `MD5 ("abcdefghijklmnopqrstuvwxyz") = c3fcd3d76192e4007dfb496cca67e13b` */
  lemma AlphabetDigest()
    ensures Md5Of(Octets("abcdefghijklmnopqrstuvwxyz")) == [
      0xc3, 0xfc, 0xd3, 0xd7, 0x61, 0x92, 0xe4, 0x00,
      0x7d, 0xfb, 0x49, 0x6c, 0xca, 0x67, 0xe1, 0x3b]
  {
    var s := Pad(Octets(ALPHABET));
    AlphabetWords(s);
    var x := Words(s);
    AlphabetSteps(x);
    OneBlock(s);
    AlphabetSum(Steps(INITIAL, x, 64));
    AlphabetOutput(Compress(INITIAL, s));
  }
}
