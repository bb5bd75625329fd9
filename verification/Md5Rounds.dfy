/** The compression function of MD5 (RFC 1321, section 3.4): the definition the RFC
    gives, and the unrolled, register-renaming form that the daemon runs. */
module Md5Rounds {

  type Octet = b: int | 0 <= b < 256

  type Block = s: seq<Octet> | |s| == 64 witness seq(64, i => 0)

  /** An unsigned 32-bit integer. */
  datatype Word = Word(bits: bv32)

  datatype Regs = Regs(a: Word, b: Word, c: Word, d: Word)

  // ---------- the RFC's definition ----------

  function Plus(x: Word, y: Word): Word { Word(x.bits + y.bits) }

  function RfcF(x: bv32, y: bv32, z: bv32): bv32 { (x & y) | (!x & z) }

  function RfcG(x: bv32, y: bv32, z: bv32): bv32 { (x & z) | (y & !z) }

  function RfcH(x: bv32, y: bv32, z: bv32): bv32 { x ^ y ^ z }

  function RfcI(x: bv32, y: bv32, z: bv32): bv32 { y ^ (x | !z) }

  function RotateLeft(x: bv32, s: bv6): bv32
    requires s <= 32
  {
    (x << s) | (x >> (32 - s))
  }

  // `T[i + 1]` of the RFC at `i`: the integer part of 4294967296 times abs(sin(i + 1)).

  const SINES1: seq<Word> := [
    Word(0xd76aa478), Word(0xe8c7b756), Word(0x242070db), Word(0xc1bdceee),
    Word(0xf57c0faf), Word(0x4787c62a), Word(0xa8304613), Word(0xfd469501),
    Word(0x698098d8), Word(0x8b44f7af), Word(0xffff5bb1), Word(0x895cd7be),
    Word(0x6b901122), Word(0xfd987193), Word(0xa679438e), Word(0x49b40821)
  ]

  const SINES2: seq<Word> := [
    Word(0xf61e2562), Word(0xc040b340), Word(0x265e5a51), Word(0xe9b6c7aa),
    Word(0xd62f105d), Word(0x02441453), Word(0xd8a1e681), Word(0xe7d3fbc8),
    Word(0x21e1cde6), Word(0xc33707d6), Word(0xf4d50d87), Word(0x455a14ed),
    Word(0xa9e3e905), Word(0xfcefa3f8), Word(0x676f02d9), Word(0x8d2a4c8a)
  ]

  const SINES3: seq<Word> := [
    Word(0xfffa3942), Word(0x8771f681), Word(0x6d9d6122), Word(0xfde5380c),
    Word(0xa4beea44), Word(0x4bdecfa9), Word(0xf6bb4b60), Word(0xbebfbc70),
    Word(0x289b7ec6), Word(0xeaa127fa), Word(0xd4ef3085), Word(0x04881d05),
    Word(0xd9d4d039), Word(0xe6db99e5), Word(0x1fa27cf8), Word(0xc4ac5665)
  ]

  const SINES4: seq<Word> := [
    Word(0xf4292244), Word(0x432aff97), Word(0xab9423a7), Word(0xfc93a039),
    Word(0x655b59c3), Word(0x8f0ccc92), Word(0xffeff47d), Word(0x85845dd1),
    Word(0x6fa87e4f), Word(0xfe2ce6e0), Word(0xa3014314), Word(0x4e0811a1),
    Word(0xf7537e82), Word(0xbd3af235), Word(0x2ad7d2bb), Word(0xeb86d391)
  ]

  const SINES: seq<Word> := SINES1 + SINES2 + SINES3 + SINES4

  /** Which word of the block step `i` reads. */
  function WordIndex(i: nat): (k: nat)
    ensures k < 16
  {
    if i < 16 then i
    else if i < 32 then (5 * i + 1) % 16
    else if i < 48 then (3 * i + 5) % 16
    else 7 * i % 16
  }

  function Shift(i: nat): (s: bv6)
    ensures s <= 32
  {
    var j := i % 4;
    if i < 16 then (if j == 0 then 7 else if j == 1 then 12 else if j == 2 then 17 else 22)
    else if i < 32 then (if j == 0 then 5 else if j == 1 then 9 else if j == 2 then 14 else 20)
    else if i < 48 then (if j == 0 then 4 else if j == 1 then 11 else if j == 2 then 16 else 23)
    else (if j == 0 then 6 else if j == 1 then 10 else if j == 2 then 15 else 21)
  }

  function Mix(i: nat, x: bv32, y: bv32, z: bv32): bv32 {
    if i < 16 then RfcF(x, y, z) else if i < 32 then RfcG(x, y, z) else if i < 48 then RfcH(x, y, z) else RfcI(x, y, z)
  }

  /** One operation of the RFC: the register whose turn it is gets a new value, and the
      four registers change roles for the next operation. */
  function RfcStep(r: Regs, x: seq<Word>, i: nat): Regs
    requires |x| == 16 && i < 64
  {
    Regs(r.d, StepWord(Word(Mix(i, r.b.bits, r.c.bits, r.d.bits)), r.a, r.b, x[WordIndex(i)], SINES[i], Shift(i)), r.b, r.c)
  }

  /** The registers after the first `n` operations on the words `x`. */
  function Steps(r: Regs, x: seq<Word>, n: nat): Regs
    requires |x| == 16 && n <= 64
  {
    if n == 0 then r else RfcStep(Steps(r, x, n - 1), x, n - 1)
  }

  /** The word that starts at octet `k`, least significant octet first. */
  function WordAt(s: seq<Octet>, k: nat): Word
    requires k + 4 <= |s|
  {
    Word((s[k] as bv8 as bv32) | (s[k + 1] as bv8 as bv32 << 8)
      | (s[k + 2] as bv8 as bv32 << 16) | (s[k + 3] as bv8 as bv32 << 24))
  }

  function Words(s: Block): (x: seq<Word>)
    ensures |x| == 16
  {
    seq(16, n requires 0 <= n < 16 => WordAt(s, 4 * n))
  }

  function AddRegs(r: Regs, s: Regs): Regs {
    Regs(Plus(r.a, s.a), Plus(r.b, s.b), Plus(r.c, s.c), Plus(r.d, s.d))
  }

  function Compress(r: Regs, block: Block): Regs
  {
    var x := Words(block);
    AddRegs(Steps(r, x, 4 * |x|), r)
  }

  /** `f` computes the compression function; callers that carry this only as a predicate
      need not look inside it. */
  ghost predicate IsCompression(f: (Regs, Block) -> Regs) {
    forall r, block {:trigger Compress(r, block)} :: f(r, block) == Compress(r, block)
  }

  /** `trace` lists what the registers hold before and after each operation. */
  ghost predicate IsTrace(trace: seq<Regs>, x: seq<Word>) {
    && |x| == 16 && |trace| == 65
    && forall i {:trigger RfcStep(trace[i], x, i)} :: 0 <= i < 64 ==> trace[i + 1] == RfcStep(trace[i], x, i)
  }

  // ---------- the daemon's form ----------

  /** What one step leaves in its register, once the mixing function has been applied. */
  function StepWord(mixed: Word, a: Word, b: Word, x: Word, t: Word, s: bv6): Word
    requires s <= 32
  {
    Plus(Word(RotateLeft(Plus(Plus(Plus(a, mixed), x), t).bits, s)), b)
  }

  function MixF(x: bv32, y: bv32, z: bv32): bv32 { z ^ (x & (y ^ z)) }

  function MixG(x: bv32, y: bv32, z: bv32): bv32 { y ^ (z & (x ^ y)) }

  function MixH(x: bv32, y: bv32, z: bv32): bv32 { (x ^ y) ^ z }

  function MixH2(x: bv32, y: bv32, z: bv32): bv32 { x ^ (y ^ z) }

  function MixI(x: bv32, y: bv32, z: bv32): bv32 { y ^ (x | !z) }

  lemma ChooseFirst(x: bv32, y: bv32, z: bv32)
    ensures z ^ (x & (y ^ z)) == (x & y) | (!x & z)
  {
  }

  lemma ChooseSecond(x: bv32, y: bv32, z: bv32)
    ensures y ^ (z & (x ^ y)) == (x & z) | (y & !z)
  {
  }

  /** Two exclusive ors replace the RFC's and, or and complement in `F` ... */
  lemma MixFIsRfc(x: bv32, y: bv32, z: bv32)
    ensures MixF(x, y, z) == RfcF(x, y, z)
  {
    ChooseFirst(x, y, z);
  }

  /** ... and in `G`. */
  lemma MixGIsRfc(x: bv32, y: bv32, z: bv32)
    ensures MixG(x, y, z) == RfcG(x, y, z)
  {
    ChooseSecond(x, y, z);
  }

  lemma MixHIsRfc(x: bv32, y: bv32, z: bv32)
    ensures MixH(x, y, z) == MixH2(x, y, z) == RfcH(x, y, z)
  {
  }

  /** What the `STEP` macro leaves in its register is what operation `i` puts there. */
  method Step(ghost trace: seq<Regs>, ghost i: nat, x: seq<Word>,
      a: Word, b: Word, ghost c: Word, ghost d: Word, mixed: Word, k: nat, t: Word, s: bv6)
    returns (r: Word)
    requires IsTrace(trace, x) && i < 64 && Regs(a, b, c, d) == trace[i]
    requires mixed == Word(Mix(i, b.bits, c.bits, d.bits)) && k == WordIndex(i) && t == SINES[i] && s == Shift(i)
    ensures Regs(d, r, b, c) == trace[i + 1]
  {
    assert trace[i + 1] == RfcStep(trace[i], x, i);
    r := StepWord(mixed, a, b, x[k], t, s);
  }

  /** The `STEP` macro with `F` for its mixing function, as operation `i` of the block. */
  method StepF(ghost trace: seq<Regs>, ghost i: nat, x: seq<Word>, a: Word, b: Word, c: Word, d: Word,
      k: nat, t: Word, s: bv6)
    returns (r: Word)
    requires IsTrace(trace, x) && 0 <= i < 16 && Regs(a, b, c, d) == trace[i]
    requires k == i && t == SINES[i]
    requires var j := i % 4; s == if j == 0 then 7 else if j == 1 then 12 else if j == 2 then 17 else 22
    ensures Regs(d, r, b, c) == trace[i + 1]
  {
    MixFIsRfc(b.bits, c.bits, d.bits);
    r := Step(trace, i, x, a, b, c, d, Word(MixF(b.bits, c.bits, d.bits)), k, t, s);
  }

  /** The `STEP` macro with `G` for its mixing function, as operation `i` of the block. */
  method StepG(ghost trace: seq<Regs>, ghost i: nat, ghost laps: nat, x: seq<Word>, a: Word, b: Word,
      c: Word, d: Word, k: nat, t: Word, s: bv6)
    returns (r: Word)
    requires IsTrace(trace, x) && 16 <= i < 32 && Regs(a, b, c, d) == trace[i]
    requires 5 * i + 1 == 16 * laps + k && k < 16 && t == SINES[i]
    requires var j := i % 4; s == if j == 0 then 5 else if j == 1 then 9 else if j == 2 then 14 else 20
    ensures Regs(d, r, b, c) == trace[i + 1]
  {
    MixGIsRfc(b.bits, c.bits, d.bits);
    r := Step(trace, i, x, a, b, c, d, Word(MixG(b.bits, c.bits, d.bits)), k, t, s);
  }

  /** The `STEP` macro with `H` for its mixing function, as operation `i` of the block. */
  method StepH(ghost trace: seq<Regs>, ghost i: nat, ghost laps: nat, x: seq<Word>, a: Word, b: Word,
      c: Word, d: Word, k: nat, t: Word, s: bv6)
    returns (r: Word)
    requires IsTrace(trace, x) && 32 <= i < 48 && Regs(a, b, c, d) == trace[i]
    requires 3 * i + 5 == 16 * laps + k && k < 16 && t == SINES[i]
    requires var j := i % 4; s == if j == 0 then 4 else if j == 1 then 11 else if j == 2 then 16 else 23
    ensures Regs(d, r, b, c) == trace[i + 1]
  {
    MixHIsRfc(b.bits, c.bits, d.bits);
    r := Step(trace, i, x, a, b, c, d, Word(MixH(b.bits, c.bits, d.bits)), k, t, s);
  }

  /** The `STEP` macro with `H2` for its mixing function, as operation `i` of the block. */
  method StepH2(ghost trace: seq<Regs>, ghost i: nat, ghost laps: nat, x: seq<Word>, a: Word, b: Word,
      c: Word, d: Word, k: nat, t: Word, s: bv6)
    returns (r: Word)
    requires IsTrace(trace, x) && 32 <= i < 48 && Regs(a, b, c, d) == trace[i]
    requires 3 * i + 5 == 16 * laps + k && k < 16 && t == SINES[i]
    requires var j := i % 4; s == if j == 0 then 4 else if j == 1 then 11 else if j == 2 then 16 else 23
    ensures Regs(d, r, b, c) == trace[i + 1]
  {
    MixHIsRfc(b.bits, c.bits, d.bits);
    r := Step(trace, i, x, a, b, c, d, Word(MixH2(b.bits, c.bits, d.bits)), k, t, s);
  }

  /** The `STEP` macro with `I` for its mixing function, as operation `i` of the block. */
  method StepI(ghost trace: seq<Regs>, ghost i: nat, ghost laps: nat, x: seq<Word>, a: Word, b: Word,
      c: Word, d: Word, k: nat, t: Word, s: bv6)
    returns (r: Word)
    requires IsTrace(trace, x) && 48 <= i < 64 && Regs(a, b, c, d) == trace[i]
    requires 7 * i == 16 * laps + k && k < 16 && t == SINES[i]
    requires var j := i % 4; s == if j == 0 then 6 else if j == 1 then 10 else if j == 2 then 15 else 21
    ensures Regs(d, r, b, c) == trace[i + 1]
  {
    r := Step(trace, i, x, a, b, c, d, Word(MixI(b.bits, c.bits, d.bits)), k, t, s);
  }

  method Round1Front(ghost trace: seq<Regs>, x: seq<Word>, r: Regs)
    returns (q: Regs)
    requires IsTrace(trace, x) && r == trace[0]
    ensures q == trace[8]
  {
    var a, b, c, d := r.a, r.b, r.c, r.d;
    a := StepF(trace, 0, x, a, b, c, d, 0, SINES[0], 7);
    d := StepF(trace, 1, x, d, a, b, c, 1, SINES[1], 12);
    c := StepF(trace, 2, x, c, d, a, b, 2, SINES[2], 17);
    b := StepF(trace, 3, x, b, c, d, a, 3, SINES[3], 22);
    a := StepF(trace, 4, x, a, b, c, d, 4, SINES[4], 7);
    d := StepF(trace, 5, x, d, a, b, c, 5, SINES[5], 12);
    c := StepF(trace, 6, x, c, d, a, b, 6, SINES[6], 17);
    b := StepF(trace, 7, x, b, c, d, a, 7, SINES[7], 22);
    q := Regs(a, b, c, d);
  }

  method Round1Back(ghost trace: seq<Regs>, x: seq<Word>, r: Regs)
    returns (q: Regs)
    requires IsTrace(trace, x) && r == trace[8]
    ensures q == trace[16]
  {
    var a, b, c, d := r.a, r.b, r.c, r.d;
    a := StepF(trace, 8, x, a, b, c, d, 8, SINES[8], 7);
    d := StepF(trace, 9, x, d, a, b, c, 9, SINES[9], 12);
    c := StepF(trace, 10, x, c, d, a, b, 10, SINES[10], 17);
    b := StepF(trace, 11, x, b, c, d, a, 11, SINES[11], 22);
    a := StepF(trace, 12, x, a, b, c, d, 12, SINES[12], 7);
    d := StepF(trace, 13, x, d, a, b, c, 13, SINES[13], 12);
    c := StepF(trace, 14, x, c, d, a, b, 14, SINES[14], 17);
    b := StepF(trace, 15, x, b, c, d, a, 15, SINES[15], 22);
    q := Regs(a, b, c, d);
  }

  /** Round 1: sixteen operations carry the RFC's loop on from operation 0. */
  method Round1(ghost trace: seq<Regs>, x: seq<Word>, r: Regs)
    returns (q: Regs)
    requires IsTrace(trace, x) && r == trace[0]
    ensures q == trace[16]
  {
    q := Round1Front(trace, x, r);
    q := Round1Back(trace, x, q);
  }

  method Round2Front(ghost trace: seq<Regs>, x: seq<Word>, r: Regs)
    returns (q: Regs)
    requires IsTrace(trace, x) && r == trace[16]
    ensures q == trace[24]
  {
    var a, b, c, d := r.a, r.b, r.c, r.d;
    a := StepG(trace, 16, 5, x, a, b, c, d, 1, SINES[16], 5);
    d := StepG(trace, 17, 5, x, d, a, b, c, 6, SINES[17], 9);
    c := StepG(trace, 18, 5, x, c, d, a, b, 11, SINES[18], 14);
    b := StepG(trace, 19, 6, x, b, c, d, a, 0, SINES[19], 20);
    a := StepG(trace, 20, 6, x, a, b, c, d, 5, SINES[20], 5);
    d := StepG(trace, 21, 6, x, d, a, b, c, 10, SINES[21], 9);
    c := StepG(trace, 22, 6, x, c, d, a, b, 15, SINES[22], 14);
    b := StepG(trace, 23, 7, x, b, c, d, a, 4, SINES[23], 20);
    q := Regs(a, b, c, d);
  }

  method Round2Back(ghost trace: seq<Regs>, x: seq<Word>, r: Regs)
    returns (q: Regs)
    requires IsTrace(trace, x) && r == trace[24]
    ensures q == trace[32]
  {
    var a, b, c, d := r.a, r.b, r.c, r.d;
    a := StepG(trace, 24, 7, x, a, b, c, d, 9, SINES[24], 5);
    d := StepG(trace, 25, 7, x, d, a, b, c, 14, SINES[25], 9);
    c := StepG(trace, 26, 8, x, c, d, a, b, 3, SINES[26], 14);
    b := StepG(trace, 27, 8, x, b, c, d, a, 8, SINES[27], 20);
    a := StepG(trace, 28, 8, x, a, b, c, d, 13, SINES[28], 5);
    d := StepG(trace, 29, 9, x, d, a, b, c, 2, SINES[29], 9);
    c := StepG(trace, 30, 9, x, c, d, a, b, 7, SINES[30], 14);
    b := StepG(trace, 31, 9, x, b, c, d, a, 12, SINES[31], 20);
    q := Regs(a, b, c, d);
  }

  /** Round 2: sixteen operations carry the RFC's loop on from operation 16. */
  method Round2(ghost trace: seq<Regs>, x: seq<Word>, r: Regs)
    returns (q: Regs)
    requires IsTrace(trace, x) && r == trace[16]
    ensures q == trace[32]
  {
    q := Round2Front(trace, x, r);
    q := Round2Back(trace, x, q);
  }

  method Round3Front(ghost trace: seq<Regs>, x: seq<Word>, r: Regs)
    returns (q: Regs)
    requires IsTrace(trace, x) && r == trace[32]
    ensures q == trace[40]
  {
    var a, b, c, d := r.a, r.b, r.c, r.d;
    a := StepH(trace, 32, 6, x, a, b, c, d, 5, SINES[32], 4);
    d := StepH2(trace, 33, 6, x, d, a, b, c, 8, SINES[33], 11);
    c := StepH(trace, 34, 6, x, c, d, a, b, 11, SINES[34], 16);
    b := StepH2(trace, 35, 6, x, b, c, d, a, 14, SINES[35], 23);
    a := StepH(trace, 36, 7, x, a, b, c, d, 1, SINES[36], 4);
    d := StepH2(trace, 37, 7, x, d, a, b, c, 4, SINES[37], 11);
    c := StepH(trace, 38, 7, x, c, d, a, b, 7, SINES[38], 16);
    b := StepH2(trace, 39, 7, x, b, c, d, a, 10, SINES[39], 23);
    q := Regs(a, b, c, d);
  }

  method Round3Back(ghost trace: seq<Regs>, x: seq<Word>, r: Regs)
    returns (q: Regs)
    requires IsTrace(trace, x) && r == trace[40]
    ensures q == trace[48]
  {
    var a, b, c, d := r.a, r.b, r.c, r.d;
    a := StepH(trace, 40, 7, x, a, b, c, d, 13, SINES[40], 4);
    d := StepH2(trace, 41, 8, x, d, a, b, c, 0, SINES[41], 11);
    c := StepH(trace, 42, 8, x, c, d, a, b, 3, SINES[42], 16);
    b := StepH2(trace, 43, 8, x, b, c, d, a, 6, SINES[43], 23);
    a := StepH(trace, 44, 8, x, a, b, c, d, 9, SINES[44], 4);
    d := StepH2(trace, 45, 8, x, d, a, b, c, 12, SINES[45], 11);
    c := StepH(trace, 46, 8, x, c, d, a, b, 15, SINES[46], 16);
    b := StepH2(trace, 47, 9, x, b, c, d, a, 2, SINES[47], 23);
    q := Regs(a, b, c, d);
  }

  /** Round 3: sixteen operations carry the RFC's loop on from operation 32. */
  method Round3(ghost trace: seq<Regs>, x: seq<Word>, r: Regs)
    returns (q: Regs)
    requires IsTrace(trace, x) && r == trace[32]
    ensures q == trace[48]
  {
    q := Round3Front(trace, x, r);
    q := Round3Back(trace, x, q);
  }

  method Round4Front(ghost trace: seq<Regs>, x: seq<Word>, r: Regs)
    returns (q: Regs)
    requires IsTrace(trace, x) && r == trace[48]
    ensures q == trace[56]
  {
    var a, b, c, d := r.a, r.b, r.c, r.d;
    a := StepI(trace, 48, 21, x, a, b, c, d, 0, SINES[48], 6);
    d := StepI(trace, 49, 21, x, d, a, b, c, 7, SINES[49], 10);
    c := StepI(trace, 50, 21, x, c, d, a, b, 14, SINES[50], 15);
    b := StepI(trace, 51, 22, x, b, c, d, a, 5, SINES[51], 21);
    a := StepI(trace, 52, 22, x, a, b, c, d, 12, SINES[52], 6);
    d := StepI(trace, 53, 23, x, d, a, b, c, 3, SINES[53], 10);
    c := StepI(trace, 54, 23, x, c, d, a, b, 10, SINES[54], 15);
    b := StepI(trace, 55, 24, x, b, c, d, a, 1, SINES[55], 21);
    q := Regs(a, b, c, d);
  }

  method Round4Back(ghost trace: seq<Regs>, x: seq<Word>, r: Regs)
    returns (q: Regs)
    requires IsTrace(trace, x) && r == trace[56]
    ensures q == trace[64]
  {
    var a, b, c, d := r.a, r.b, r.c, r.d;
    a := StepI(trace, 56, 24, x, a, b, c, d, 8, SINES[56], 6);
    d := StepI(trace, 57, 24, x, d, a, b, c, 15, SINES[57], 10);
    c := StepI(trace, 58, 25, x, c, d, a, b, 6, SINES[58], 15);
    b := StepI(trace, 59, 25, x, b, c, d, a, 13, SINES[59], 21);
    a := StepI(trace, 60, 26, x, a, b, c, d, 4, SINES[60], 6);
    d := StepI(trace, 61, 26, x, d, a, b, c, 11, SINES[61], 10);
    c := StepI(trace, 62, 27, x, c, d, a, b, 2, SINES[62], 15);
    b := StepI(trace, 63, 27, x, b, c, d, a, 9, SINES[63], 21);
    q := Regs(a, b, c, d);
  }

  /** Round 4: sixteen operations carry the RFC's loop on from operation 48. */
  method Round4(ghost trace: seq<Regs>, x: seq<Word>, r: Regs)
    returns (q: Regs)
    requires IsTrace(trace, x) && r == trace[48]
    ensures q == trace[64]
  {
    q := Round4Front(trace, x, r);
    q := Round4Back(trace, x, q);
  }

  /** One turn of the block loop: decode the sixteen words, run the four rounds, and add
      what the registers held before. */
  method Transform(ghost f: (Regs, Block) -> Regs, r: Regs, block: Block) returns (q: Regs)
    requires IsCompression(f)
    ensures q == f(r, block)
  {
    var x := Words(block);
    ghost var trace := seq(65, i requires 0 <= i < 65 => Steps(r, x, i));
    q := Round1(trace, x, r);
    q := Round2(trace, x, q);
    q := Round3(trace, x, q);
    q := Round4(trace, x, q);
    q := AddRegs(q, r);
    assert q == Compress(r, block);
  }
}
