/** The streaming MD5 digest the daemon compares its own executable with: a context that
    is fed the message in pieces of any size. */
module Md5 {
  import opened Arithmetic
  import opened Md5Rounds

  // ---------- one-shot hashing, as section 3 of RFC 1321 has it ----------

  const INITIAL: Regs := Regs(Word(0x67452301), Word(0xefcdab89), Word(0x98badcfe), Word(0x10325476))

  const ZERO: Regs := Regs(Word(0), Word(0), Word(0), Word(0))

  /** The registers after the whole blocks of `s`; what is left of `s` is ignored. */
  function Absorb(f: (Regs, Block) -> Regs, r: Regs, s: seq<Octet>): Regs
    decreases |s|
  {
    if |s| < 64 then r else Absorb(f, f(r, s[..64]), s[64..])
  }

  /** The octets after the last whole block. */
  function Tail(s: seq<Octet>): (t: seq<Octet>)
    ensures |t| == |s| % 64
  {
    s[|s| - |s| % 64..]
  }

  function LittleEndian(v: nat, k: nat): (s: seq<Octet>)
    ensures |s| == k
  {
    if k == 0 then [] else [v % 256] + LittleEndian(v / 256, k - 1)
  }

  function Zeros(n: nat): (s: seq<Octet>)
    ensures |s| == n
  {
    seq(n, i => 0)
  }

  /** How many zeros leave room for exactly the eight length octets. */
  function PadZeros(n: nat): (z: nat)
    ensures z < 64 && (n + 1 + z + 8) % 64 == 0
  {
    (55 - n % 64) % 64
  }

  function LengthOctets(m: seq<Octet>): (s: seq<Octet>)
    ensures |s| == 8
  {
    LittleEndian(8 * |m| % 0x1_0000_0000_0000_0000, 8)
  }

  /** The message, a one bit, zeros up to eight octets short of a whole block, and the
      number of bits modulo 2^64. */
  function Pad(m: seq<Octet>): (s: seq<Octet>)
    ensures |s| % 64 == 0
  {
    m + [0x80] + Zeros(PadZeros(|m|)) + LengthOctets(m)
  }

  function Output(r: Regs): (s: seq<Octet>)
    ensures |s| == 16
  {
    LittleEndian(r.a.bits as nat, 4) + LittleEndian(r.b.bits as nat, 4)
    + LittleEndian(r.c.bits as nat, 4) + LittleEndian(r.d.bits as nat, 4)
  }

  function Digest(f: (Regs, Block) -> Regs, m: seq<Octet>): (s: seq<Octet>)
    ensures |s| == 16
  {
    Output(Absorb(f, INITIAL, Pad(m)))
  }

  function Md5Of(m: seq<Octet>): (s: seq<Octet>)
    ensures |s| == 16
  {
    Digest(Compress, m)
  }

  lemma CompressIsCompression()
    ensures IsCompression(Compress)
  {
  }

  lemma {:induction false} AbsorbSame(f: (Regs, Block) -> Regs, r: Regs, s: seq<Octet>)
    requires IsCompression(f)
    ensures Absorb(f, r, s) == Absorb(Compress, r, s)
    decreases |s|
  {
    if |s| >= 64 {
      assert f(r, s[..64]) == Compress(r, s[..64]);
      AbsorbSame(f, f(r, s[..64]), s[64..]);
    }
  }

  // ---------- feeding in pieces ----------

  lemma {:induction false} AbsorbWhole(f: (Regs, Block) -> Regs, r: Regs, s: seq<Octet>, t: seq<Octet>)
    requires |s| % 64 == 0
    ensures Absorb(f, r, s + t) == Absorb(f, Absorb(f, r, s), t)
    decreases |s|
  {
    if s == [] {
      assert s + t == t;
    } else {
      assert (s + t)[..64] == s[..64] && (s + t)[64..] == s[64..] + t;
      AbsorbWhole(f, f(r, s[..64]), s[64..], t);
    }
  }

  lemma AbsorbBlock(f: (Regs, Block) -> Regs, r: Regs, s: seq<Octet>, k: nat, block: Block)
    requires k + 64 <= |s| && block == s[k..k + 64]
    ensures Absorb(f, r, s[k..]) == Absorb(f, f(r, block), s[k + 64..])
  {
    assert s[k..][..64] == block && s[k..][64..] == s[k + 64..];
  }

  lemma AbsorbNothing(f: (Regs, Block) -> Regs, r: Regs, s: seq<Octet>)
    ensures s[0..] == s && Absorb(f, r, s[|s|..]) == r
  {
  }

  /** The whole blocks of `s` are all that counts; the rest is what to keep. */
  lemma AbsorbWholeOnly(f: (Regs, Block) -> Regs, r: Regs, s: seq<Octet>, whole: nat)
    requires whole == |s| - |s| % 64
    ensures Absorb(f, r, s) == Absorb(f, r, s[..whole]) && Tail(s) == s[whole..]
  {
    assert s == s[..whole] + s[whole..];
    AbsorbWhole(f, r, s[..whole], s[whole..]);
  }

  /** Feeding `d` after `m` only needs what the registers hold and the unfinished block. */
  lemma AbsorbMore(f: (Regs, Block) -> Regs, r: Regs, m: seq<Octet>, d: seq<Octet>)
    ensures Absorb(f, r, m + d) == Absorb(f, Absorb(f, r, m), Tail(m) + d)
    ensures Tail(m + d) == Tail(Tail(m) + d)
  {
    var whole := m[..|m| - |m| % 64];
    assert whole + Tail(m) == m;
    AbsorbWhole(f, r, whole, Tail(m));
    assert whole + (Tail(m) + d) == m + d;
    AbsorbWhole(f, r, whole, Tail(m) + d);
    assert Absorb(f, Absorb(f, r, whole), Tail(m)) == Absorb(f, r, whole);
  }

  /** A piece too short to complete the unfinished block joins it. */
  lemma AbsorbShort(f: (Regs, Block) -> Regs, r: Regs, m: seq<Octet>, d: seq<Octet>)
    requires |m| % 64 + |d| < 64
    ensures Absorb(f, r, m + d) == Absorb(f, r, m) && Tail(m + d) == Tail(m) + d
  {
    AbsorbMore(f, r, m, d);
  }

  /** A longer piece first completes it. */
  lemma AbsorbFilled(f: (Regs, Block) -> Regs, r: Regs, m: seq<Octet>, d: seq<Octet>, k: nat)
    requires |m| % 64 + k == 64 && k <= |d|
    ensures Absorb(f, r, m + d) == Absorb(f, Absorb(f, Absorb(f, r, m), Tail(m) + d[..k]), d[k..])
    ensures Tail(m + d) == Tail(d[k..])
  {
    AbsorbMore(f, r, m, d);
    var block := Tail(m) + d[..k];
    assert |block| == 64 && Tail(m) + d == block + d[k..];
    AbsorbWhole(f, Absorb(f, r, m), block, d[k..]);
    TailAfterBlock(block, d[k..]);
  }

  lemma TailAfterBlock(block: Block, d: seq<Octet>)
    ensures Tail(block + d) == Tail(d)
  {
  }

  lemma AbsorbAligned(f: (Regs, Block) -> Regs, r: Regs, m: seq<Octet>, d: seq<Octet>)
    requires |m| % 64 == 0
    ensures Absorb(f, r, m + d) == Absorb(f, Absorb(f, r, m), d) && Tail(m + d) == Tail(d)
  {
    AbsorbMore(f, r, m, d);
    assert Tail(m) + d == d;
  }

  // ---------- the split byte counter ----------

  /** `hi` and `lo` together count bytes modulo 2^61. */
  ghost predicate Counts(hi: nat, lo: nat, n: nat) {
    lo < 0x2000_0000 && hi < 0x1_0000_0000 && hi * 0x2000_0000 + lo == n % 0x2000_0000_0000_0000
  }

  lemma CountTail(hi: nat, lo: nat, n: nat)
    requires Counts(hi, lo, n)
    ensures lo % 64 == n % 64
  {
    var q := n / 0x2000_0000_0000_0000;
    assert n == 0x2000_0000_0000_0000 * q + hi * 0x2000_0000 + lo;
    assert n - lo == 64 * (0x80_0000_0000_0000 * q + hi * 0x80_0000);
  }

  lemma CountMore(hi: nat, lo: nat, n: nat, size: nat, lo': nat, carried: nat, hi': nat)
    requires Counts(hi, lo, n) && size < 0x1_0000_0000_0000_0000
    requires lo' == (lo + size) % 0x1_0000_0000_0000_0000 % 0x2000_0000
    requires carried == if lo' < lo then (hi + 1) % 0x1_0000_0000 else hi
    requires hi' == (carried + size / 0x2000_0000) % 0x1_0000_0000
    ensures Counts(hi', lo', n + size)
  {
    var high := size / 0x2000_0000;
    var carry := if lo' < lo then 1 else 0;
    LowCounter(lo, size, lo', carry);
    ModAbsorbs(hi + carry, high, 0x1_0000_0000);
    var wraps := (hi + carry + high) / 0x1_0000_0000;
    Recombine(n / 0x2000_0000_0000_0000, hi, lo, n, high, size, carry, wraps, hi', lo');
  }

  lemma Recombine(q: nat, hi: nat, lo: nat, n: nat, high: nat, size: nat, carry: nat, wraps: nat, hi': nat, lo': nat)
    requires n == q * 0x2000_0000_0000_0000 + hi * 0x2000_0000 + lo && hi' < 0x1_0000_0000 && lo' < 0x2000_0000
    requires size == high * 0x2000_0000 + (carry * 0x2000_0000 + lo' - lo)
    requires hi + carry + high == wraps * 0x1_0000_0000 + hi'
    ensures (n + size) % 0x2000_0000_0000_0000 == hi' * 0x2000_0000 + lo'
  {
    ModUnique(n + size, 0x2000_0000_0000_0000, q + wraps, hi' * 0x2000_0000 + lo');
  }

  /** The low word wrapped around exactly when it got smaller. */
  lemma LowCounter(lo: nat, size: nat, lo': nat, carry: nat)
    requires lo < 0x2000_0000 && lo' == (lo + size) % 0x1_0000_0000_0000_0000 % 0x2000_0000
    requires carry == if lo' < lo then 1 else 0
    ensures lo + size % 0x2000_0000 == carry * 0x2000_0000 + lo'
  {
    var sum := lo + size;
    var wraps := sum / 0x1_0000_0000_0000_0000;
    assert sum % 0x1_0000_0000_0000_0000 == sum - 0x2000_0000 * (0x8_0000_0000 * wraps);
    assert lo' == sum % 0x2000_0000;
  }

  /** The two counter words, with three bits made room for in the low one, are the two
      halves of the number of bits. */
  lemma CountBits(hi: nat, lo: nat, n: nat)
    requires Counts(hi, lo, n)
    ensures lo * 8 < 0x1_0000_0000
    ensures 8 * n % 0x1_0000_0000_0000_0000 == hi * 0x1_0000_0000 + lo * 8
  {
    var q := n / 0x2000_0000_0000_0000;
    assert 8 * n == q * 0x1_0000_0000_0000_0000 + (hi * 0x1_0000_0000 + lo * 8);
  }

  function Pow256(k: nat): (p: nat)
    ensures p > 0
  {
    if k == 0 then 1 else 256 * Pow256(k - 1)
  }

  /** The octets of a number are those of its low part and then those of its high part. */
  lemma {:induction false} LittleEndianSplit(high: nat, low: nat, k: nat, j: nat)
    requires low < Pow256(k)
    ensures LittleEndian(high * Pow256(k) + low, k + j) == LittleEndian(low, k) + LittleEndian(high, j)
    decreases k
  {
    if k > 0 {
      var p := high * Pow256(k - 1);
      assert high * Pow256(k) == 256 * p;
      var v := 256 * p + low;
      assert v % 256 == low % 256 && v / 256 == p + low / 256;
      LittleEndianSplit(high, low / 256, k - 1, j);
      assert LittleEndian(v, k + j) == [v % 256] + LittleEndian(v / 256, k - 1 + j);
    }
  }

  lemma LittleEndianHalves(high: nat, low: nat)
    requires low < 0x1_0000_0000
    ensures LittleEndian(high * 0x1_0000_0000 + low, 8) == LittleEndian(low, 4) + LittleEndian(high, 4)
  {
    var k := 4;
    assert Pow256(k) == 256 * Pow256(3) == 0x1_0000_0000;
    LittleEndianSplit(high, low, k, 4);
  }

  lemma FourOctets(v: nat)
    ensures LittleEndian(v, 4) == [v % 256, v / 0x100 % 256, v / 0x1_0000 % 256, v / 0x100_0000 % 256]
  {
    var v1 := v / 0x100;
    var v2 := v1 / 0x100;
    var v3 := v2 / 0x100;
    DivisionsCompose(v);
    assert LittleEndian(v3, 1) == [v3 % 256];
    assert LittleEndian(v2, 2) == [v2 % 256, v3 % 256];
    assert LittleEndian(v1, 3) == [v1 % 256, v2 % 256, v3 % 256];
  }

  lemma DivisionsCompose(v: nat)
    ensures v / 0x100 / 0x100 == v / 0x1_0000
    ensures v / 0x100 / 0x100 / 0x100 == v / 0x100_0000
  {
  }

  // ---------- the padded end of a message ----------

  lemma AbsorbPad(f: (Regs, Block) -> Regs, m: seq<Octet>, end: seq<Octet>)
    requires end == [0x80] + Zeros(PadZeros(|m|)) + LengthOctets(m)
    ensures Absorb(f, INITIAL, Pad(m)) == Absorb(f, Absorb(f, INITIAL, m), Tail(m) + end)
  {
    assert Pad(m) == m + end;
    AbsorbMore(f, INITIAL, m, end);
  }

  /** Where the unfinished block has room for the length, it is the last block. */
  lemma AbsorbPadOnce(f: (Regs, Block) -> Regs, m: seq<Octet>, block: Block)
    requires |m| % 64 <= 55
    requires block == Tail(m) + [0x80] + Zeros(55 - |m| % 64) + LengthOctets(m)
    ensures Absorb(f, INITIAL, Pad(m)) == Absorb(f, Absorb(f, INITIAL, m), block)
  {
    var end := [0x80] + Zeros(PadZeros(|m|)) + LengthOctets(m);
    AbsorbPad(f, m, end);
    assert Tail(m) + end == block;
  }

  /** Where it has not, one more block of zeros and the length follows it. */
  lemma AbsorbPadTwice(f: (Regs, Block) -> Regs, m: seq<Octet>, first: Block, second: Block)
    requires |m| % 64 > 55
    requires first == Tail(m) + [0x80] + Zeros(63 - |m| % 64) && second == Zeros(56) + LengthOctets(m)
    ensures Absorb(f, INITIAL, Pad(m)) == Absorb(f, Absorb(f, Absorb(f, INITIAL, m), first), second)
  {
    var end := [0x80] + Zeros(PadZeros(|m|)) + LengthOctets(m);
    AbsorbPad(f, m, end);
    assert Zeros(PadZeros(|m|)) == Zeros(63 - |m| % 64) + Zeros(56);
    assert Tail(m) + end == first + second;
    AbsorbWhole(f, Absorb(f, INITIAL, m), first, second);
  }

  lemma LengthFromCounters(hi: nat, lo: nat, m: seq<Octet>)
    requires Counts(hi, lo, |m|)
    ensures lo * 8 < 0x1_0000_0000 && LengthOctets(m) == LittleEndian(lo * 8, 4) + LittleEndian(hi, 4)
  {
    CountBits(hi, lo, |m|);
    LittleEndianHalves(hi, lo * 8);
  }

  lemma DigestIsMd5(f: (Regs, Block) -> Regs, m: seq<Octet>)
    requires IsCompression(f)
    ensures Output(Absorb(f, INITIAL, Pad(m))) == Md5Of(m)
  {
    AbsorbSame(f, INITIAL, Pad(m));
  }

  // ---------- the context ----------

  class Context {
    var lo: nat
    var hi: nat
    var a: Word
    var b: Word
    var c: Word
    var d: Word
    const buffer: array<Octet>
    /** The compression function, as the predicate `IsCompression` describes it. */
    ghost const compress: (Regs, Block) -> Regs
    /** Everything fed in since the context was initialised. */
    ghost var message: seq<Octet>

    ghost function Registers(): Regs
      reads this
    {
      Regs(a, b, c, d)
    }

    /** The counters count the message, the registers have absorbed its whole blocks, and
        the buffer starts with the rest of it. */
    ghost predicate Valid()
      reads this, buffer
    {
      && buffer.Length == 64
      && IsCompression(compress)
      && Counts(hi, lo, |message|)
      && Registers() == Absorb(compress, INITIAL, message)
      && buffer[..|message| % 64] == Tail(message)
    }

    constructor Init()
      ensures Valid() && fresh(buffer) && message == []
    {
      a := INITIAL.a;
      b := INITIAL.b;
      c := INITIAL.c;
      d := INITIAL.d;
      lo := 0;
      hi := 0;
      buffer := new Octet[64];
      message := [];
      compress := Compress;
      new;
      CompressIsCompression();
    }

    /** `body`: absorb one or more whole blocks, leaving the counters alone. */
    method Body(data: array<Octet>, at: nat, size: nat) returns (next: nat)
      requires IsCompression(compress) && size > 0 && size % 64 == 0 && at + size <= data.Length
      modifies this`a, this`b, this`c, this`d
      ensures Registers() == Absorb(compress, old(Registers()), data[at..at + size])
      ensures next == at + size
    {
      ghost var s := data[at..at + size];
      ghost var total := Absorb(compress, Registers(), s);
      AbsorbNothing(compress, Registers(), s);
      ghost var blocks := size / 64;
      var left := size;
      next := at;
      while true
        invariant 0 < blocks && left == at + size - next == 64 * blocks && at <= next
        invariant Absorb(compress, Registers(), s[next - at..]) == total
        decreases left
      {
        var block: Block := data[next..next + 64];
        assert next - at + 64 <= |s|;
        assert block == s[next - at..next - at + 64];
        AbsorbBlock(compress, Registers(), s, next - at, block);
        var r := Transform(compress, Regs(a, b, c, d), block);
        a, b, c, d := r.a, r.b, r.c, r.d;
        next := next + 64;
        left := left - 64;
        blocks := blocks - 1;
        if left == 0 {
          AbsorbNothing(compress, Registers(), s);
          break;
        }
      }
    }

    /** Feeding a piece of any size extends the message by it. */
    method Update(data: array<Octet>, size: nat)
      requires Valid() && data != buffer
      requires size <= data.Length && size < 0x1_0000_0000_0000_0000
      modifies this`lo, this`hi, this`a, this`b, this`c, this`d, this`message, buffer
      ensures Valid() && message == old(message) + data[..size]
    {
      var savedLo := lo;
      lo := (savedLo + size) % 0x1_0000_0000_0000_0000 % 0x2000_0000;
      var savedHi := hi;
      if lo < savedLo {
        hi := (hi + 1) % 0x1_0000_0000;
      }
      ghost var carried := hi;
      hi := (hi + size / 0x2000_0000) % 0x1_0000_0000;
      CountMore(savedHi, savedLo, |message|, size, lo, carried, hi);
      CountTail(savedHi, savedLo, |message|);
      Feed(data, size, savedLo % 64);
      message := message + data[..size];
    }

    /** The rest of `MD5_Update`: fill up the buffered block, absorb what whole blocks
        there are, and keep the remainder. */
    method Feed(data: array<Octet>, size: nat, used: nat)
      requires buffer.Length == 64 && IsCompression(compress) && data != buffer && size <= data.Length
      requires Registers() == Absorb(compress, INITIAL, message)
      requires used == |message| % 64 && buffer[..used] == Tail(message)
      modifies this`a, this`b, this`c, this`d, buffer
      ensures Registers() == Absorb(compress, INITIAL, message + data[..size])
      ensures buffer[..|message + data[..size]| % 64] == Tail(message + data[..size])
    {
      ghost var d := data[..size];
      if used == 0 {
        AbsorbAligned(compress, INITIAL, message, d);
        assert data[0..size] == d;
        Store(data, 0, size);
        return;
      }
      var available := 64 - used;
      if size < available {
        AbsorbShort(compress, INITIAL, message, d);
        Copy(data, 0, used, size);
        assert data[0..size] == d && buffer[..used + size] == Tail(message) + d;
        return;
      }
      AbsorbFilled(compress, INITIAL, message, d, available);
      assert data[0..available] == d[..available] && data[available..size] == d[available..];
      Complete(data, used, available);
      Store(data, available, size - available);
    }

    /** The part of `MD5_Update` that fills up the buffered block and absorbs it. */
    method Complete(data: array<Octet>, used: nat, available: nat)
      requires buffer.Length == 64 && IsCompression(compress) && data != buffer
      requires used + available == 64 && available <= data.Length
      modifies this`a, this`b, this`c, this`d, buffer
      ensures Registers() == Absorb(compress, old(Registers()), old(buffer[..used]) + data[0..available])
    {
      Copy(data, 0, used, available);
      assert buffer[0..64] == old(buffer[..used]) + data[0..available];
      var _ := Body(buffer, 0, 64);
    }

    /** The last part of `MD5_Update`, when the buffered block is empty. */
    method Store(data: array<Octet>, from: nat, size: nat)
      requires buffer.Length == 64 && IsCompression(compress) && data != buffer && from + size <= data.Length
      modifies this`a, this`b, this`c, this`d, buffer
      ensures Registers() == Absorb(compress, old(Registers()), data[from..from + size])
      ensures buffer[..size % 64] == Tail(data[from..from + size])
    {
      ghost var s := data[from..from + size];
      ghost var whole := size - size % 64;
      AbsorbWholeOnly(compress, Registers(), s, whole);
      assert s[..whole] == data[from..from + whole] && s[whole..] == data[from + whole..from + size];
      var at, left := from, size;
      if left >= 64 {
        at := Body(data, at, left - left % 64);
        left := left % 64;
      }
      Copy(data, at, 0, left);
    }

    /** `MD5_Final`: the result is the digest of everything that was fed in, however it
        was cut into pieces; the context is wiped. */
    method Final(result: array<Octet>)
      requires Valid() && result != buffer && result.Length >= 16
      modifies this`lo, this`hi, this`a, this`b, this`c, this`d, this`message, buffer, result
      ensures result[..] == Md5Of(old(message)) + old(result[16..])
      ensures lo == hi == 0 && Registers() == ZERO && buffer[..] == Zeros(64)
    {
      CountTail(hi, lo, |message|);
      LengthFromCounters(hi, lo, message);
      var used := lo % 64;
      buffer[used] := 0x80;
      used := used + 1;
      Finish(used);
      Emit(result);
      DigestIsMd5(compress, message);
      Wipe();
    }

    /** `memset` of the whole context. */
    method Wipe()
      requires buffer.Length == 64
      modifies this`lo, this`hi, this`a, this`b, this`c, this`d, buffer
      ensures lo == hi == 0 && Registers() == ZERO && buffer[..] == Zeros(64)
    {
      a, b, c, d := Word(0), Word(0), Word(0), Word(0);
      lo, hi := 0, 0;
      Clear(0, 64);
      assert buffer[..] == buffer[..64];
    }

    /** Zeros, the length and the last one or two blocks. */
    method Finish(start: nat)
      requires buffer.Length == 64 && IsCompression(compress) && Registers() == Absorb(compress, INITIAL, message)
      requires start == |message| % 64 + 1 && buffer[..start] == Tail(message) + [0x80]
      requires lo * 8 < 0x1_0000_0000 && LengthOctets(message) == LittleEndian(lo * 8, 4) + LittleEndian(hi, 4)
      modifies this`lo, this`a, this`b, this`c, this`d, buffer
      ensures Registers() == Absorb(compress, INITIAL, Pad(message))
    {
      var used, available := start, 64 - start;
      if available < 8 {
        Clear(used, available);
        assert buffer[0..64] == Tail(message) + [0x80] + Zeros(available);
        AbsorbPadTwice(compress, message, buffer[0..64], Zeros(56) + LengthOctets(message));
        var _ := Body(buffer, 0, 64);
        used := 0;
        available := 64;
        assert buffer[..used] + Zeros(available - 8) + LengthOctets(message) == Zeros(56) + LengthOctets(message);
      } else {
        AbsorbPadOnce(compress, message, buffer[..used] + Zeros(available - 8) + LengthOctets(message));
      }
      LastBlock(used, available);
    }

    method LastBlock(used: nat, available: nat)
      requires buffer.Length == 64 && IsCompression(compress) && used + available == 64 && available >= 8
      requires lo * 8 < 0x1_0000_0000
      modifies this`lo, this`a, this`b, this`c, this`d, buffer
      ensures Registers() == Absorb(compress, old(Registers()),
                  old(buffer[..used]) + Zeros(available - 8) + (LittleEndian(old(lo) * 8, 4) + LittleEndian(hi, 4)))
    {
      Clear(used, available - 8);
      ghost var front := buffer[..56];
      PutLength();
      assert buffer[0..64] == front + (LittleEndian(old(lo) * 8, 4) + LittleEndian(hi, 4));
      var _ := Body(buffer, 0, 64);
    }

    /** The number of bits: the low counter makes room for three more. */
    method PutLength()
      requires buffer.Length == 64 && lo * 8 < 0x1_0000_0000
      modifies this`lo, buffer
      ensures buffer[..64] == old(buffer[..56]) + (LittleEndian(old(lo) * 8, 4) + LittleEndian(hi, 4))
    {
      ghost var front := buffer[..56];
      lo := lo * 8 % 0x1_0000_0000;
      PutTwo(buffer, 56, lo, hi);
      assert buffer[..56 + 8] == front + LittleEndian(lo, 4) + LittleEndian(hi, 4);
    }

    /** Write out the four registers. */
    method Emit(result: array<Octet>)
      requires result.Length >= 16
      modifies result
      ensures result[..] == Output(Registers()) + old(result[16..])
    {
      PutTwo(result, 0, a.bits as nat, b.bits as nat);
      PutTwo(result, 8, c.bits as nat, d.bits as nat);
      assert result[..] == result[..16] + result[16..];
    }

    static method PutTwo(dst: array<Octet>, at: nat, v: nat, w: nat)
      requires at + 8 <= dst.Length
      modifies dst
      ensures dst[..at + 8] == old(dst[..at]) + LittleEndian(v, 4) + LittleEndian(w, 4)
      ensures forall k :: at + 8 <= k < dst.Length ==> dst[k] == old(dst[k])
    {
      Put(dst, at, v);
      Put(dst, at + 4, w);
    }

    /** `OUT`: the four octets of a word, lowest first. */
    static method Put(dst: array<Octet>, at: nat, v: nat)
      requires at + 4 <= dst.Length
      modifies dst
      ensures dst[..at + 4] == old(dst[..at]) + LittleEndian(v, 4)
      ensures forall k :: at + 4 <= k < dst.Length ==> dst[k] == old(dst[k])
    {
      FourOctets(v);
      dst[at] := v % 256;
      dst[at + 1] := v / 0x100 % 256;
      dst[at + 2] := v / 0x1_0000 % 256;
      dst[at + 3] := v / 0x100_0000 % 256;
    }

    /** `memcpy` into the buffer. */
    method Copy(data: array<Octet>, from: nat, to: nat, size: nat)
      requires data != buffer && from + size <= data.Length && to + size <= buffer.Length
      modifies buffer
      ensures buffer[..to + size] == old(buffer[..to]) + data[from..from + size]
      ensures buffer[to + size..] == old(buffer[to + size..])
    {
      forall k | 0 <= k < size {
        buffer[to + k] := data[from + k];
      }
    }

    /** `memset` to zero inside the buffer. */
    method Clear(from: nat, size: nat)
      requires from + size <= buffer.Length
      modifies buffer
      ensures buffer[..from + size] == old(buffer[..from]) + Zeros(size)
      ensures buffer[from + size..] == old(buffer[from + size..])
    {
      forall k | 0 <= k < size {
        buffer[from + k] := 0;
      }
    }
  }

  // ---------- hashing a file read in pieces ----------

  function Concat(pieces: seq<seq<Octet>>, n: nat): (s: seq<Octet>)
    requires n <= |pieces|
  {
    if n == 0 then [] else Concat(pieces, n - 1) + pieces[n - 1]
  }

  /** One read into the array, and what it adds. */
  method FeedPiece(context: Context, data: array<Octet>, piece: seq<Octet>)
    requires context.Valid() && data != context.buffer && data.Length == 1024 && |piece| <= 1024
    modifies context`lo, context`hi, context`a, context`b, context`c, context`d, context`message, context.buffer, data
    ensures context.Valid() && context.message == old(context.message) + piece
  {
    forall k | 0 <= k < |piece| {
      data[k] := piece[k];
    }
    assert data[..|piece|] == piece;
    context.Update(data, |piece|);
  }

  method DigestOf(context: Context) returns (digest: seq<Octet>)
    requires context.Valid()
    modifies context, context.buffer
    ensures digest == Md5Of(old(context.message))
  {
    ghost var message := context.message;
    var result := new Octet[16];
    context.Final(result);
    digest := result[..];
    assert digest == Md5Of(message) + [];
  }

  /** A file is read 1024 octets at most at a time; how the reads fall makes no difference
      to the digest. */
  method HashReads(pieces: seq<seq<Octet>>) returns (digest: seq<Octet>)
    requires forall i :: 0 <= i < |pieces| ==> |pieces[i]| <= 1024
    ensures digest == Md5Of(Concat(pieces, |pieces|))
  {
    var context := new Context.Init();
    var data := new Octet[1024];
    for i := 0 to |pieces|
      invariant context.Valid() && fresh(context) && fresh(context.buffer) && data != context.buffer
      invariant context.message == Concat(pieces, i)
    {
      FeedPiece(context, data, pieces[i]);
    }
    digest := DigestOf(context);
  }
}
