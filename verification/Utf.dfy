/** The decoders and writers of the Unicode encoding forms. A decoder is run twice over its
    input: once to count what a writer will write, and once to write it. */
module Utf {
  import opened Escapes

  /** What a decoder reports: a code point below U+10000, or one from there on. */
  datatype Event = Low(ch: nat) | High(ch: nat)

  /** What is done with the code points; `R` is a count or the units written so far. */
  datatype Traits<!R> = Traits(low: (R, nat) -> R, high: (R, nat) -> R)

  function Apply<R>(result: R, e: Event, t: Traits<R>): R {
    match e
    case Low(ch) => t.low(result, ch)
    case High(ch) => t.high(result, ch)
  }

  function Fold<R>(result: R, es: seq<Event>, t: Traits<R>): R {
    if es == [] then result else Fold(Apply(result, es[0], t), es[1..], t)
  }

  // ---------- counters and writers ----------

  function Utf8Counter(): Traits<int> {
    Traits((n: int, ch: nat) => n + (if ch < 0x80 then 1 else if ch < 0x800 then 2 else 3), (n: int, ch: nat) => n + 4)
  }

  function Utf16Counter(): Traits<int> {
    Traits((n: int, ch: nat) => n + 1, (n: int, ch: nat) => n + 2)
  }

  function Utf32Counter(): Traits<int> {
    Traits((n: int, ch: nat) => n + 1, (n: int, ch: nat) => n + 1)
  }

  function Utf8Low(ch: nat): seq<Byte> {
    if ch < 0x80 then [ch]
    else if ch < 0x800 then [(0xC0 + ch / 64) % 256, 0x80 + ch % 64]
    else [(0xE0 + ch / 4096 % 16) % 256, 0x80 + ch / 64 % 64, 0x80 + ch % 64]
  }

  function Utf8High(ch: nat): seq<Byte> {
    [0xF0 + ch / 0x4_0000 % 16, 0x80 + ch / 4096 % 64, 0x80 + ch / 64 % 64, 0x80 + ch % 64]
  }

  /** A surrogate pair, in 32-bit arithmetic cut down to 16 bits. */
  function Utf16High(ch: nat): seq<Unit16> {
    var rest := (ch - 0x1_0000) % 0x1_0000_0000;
    [(0xD800 + rest / 0x400) % 0x1_0000, 0xDC00 + rest % 0x400]
  }

  function Utf8Writer(): Traits<seq<int>> {
    Traits((s: seq<int>, ch: nat) => s + Utf8Low(ch), (s: seq<int>, ch: nat) => s + Utf8High(ch))
  }

  function Utf16Writer(): Traits<seq<int>> {
    Traits((s: seq<int>, ch: nat) => s + [ch as int % 0x1_0000], (s: seq<int>, ch: nat) => s + Utf16High(ch))
  }

  function Utf32Writer(): Traits<seq<int>> {
    Traits((s: seq<int>, ch: nat) => s + [ch], (s: seq<int>, ch: nat) => s + [ch as int])
  }

  function Latin1Writer(): Traits<seq<int>> {
    Traits((s: seq<int>, ch: nat) => s + [if ch > 255 then 63 else ch as int], (s: seq<int>, ch: nat) => s + [63])
  }

  /** A counter belongs to a writer if each event adds to the count as many as to the
      output, and the writer only ever adds. */
  ghost predicate Counts(c: Traits<int>, w: Traits<seq<int>>) {
    forall n: int, s: seq<int>, e: Event {:trigger Apply(n, e, c), Apply(s, e, w)} ::
      Apply(n, e, c) - n == |Apply(s, e, w)| - |s|
  }

  lemma CountersCount()
    ensures Counts(Utf8Counter(), Utf8Writer())
    ensures Counts(Utf16Counter(), Utf16Writer())
    ensures Counts(Utf32Counter(), Utf32Writer())
  {
  }

  /** The counting pass yields the number of units that the writing pass writes. */
  lemma {:induction false} PassesAgree(n: int, s: seq<int>, es: seq<Event>, c: Traits<int>, w: Traits<seq<int>>)
    requires Counts(c, w)
    ensures Fold(n, es, c) - n == |Fold(s, es, w)| - |s|
    decreases |es|
  {
    if es != [] {
      PassesAgree(Apply(n, es[0], c), Apply(s, es[0], w), es[1..], c, w);
    }
  }

  // ---------- decoders ----------

  predicate IsTail(s: seq<Byte>, k: nat) {
    k < |s| && 0x80 <= s[k] < 0xC0
  }

  datatype Decoded = Decoded(size: nat, event: Event) | Invalid

  /** The code point at the start of UTF-8 text. */
  function Utf8Step(s: seq<Byte>): (d: Decoded)
    requires s != []
    ensures d.Decoded? ==> 1 <= d.size <= |s| && d.size <= 4
    ensures d.Decoded? ==> forall k :: 1 <= k < d.size ==> IsTail(s, k)
  {
    var lead := s[0] as int;
    if lead < 0x80 then Decoded(1, Low(lead))
    else if 0xC0 <= lead < 0xE0 && IsTail(s, 1) then
      Decoded(2, Low((lead - 0xC0) * 64 + Bits(s, 1)))
    else if 0xE0 <= lead < 0xF0 && IsTail(s, 1) && IsTail(s, 2) then
      Decoded(3, Low((lead - 0xE0) * 4096 + Bits(s, 1) * 64 + Bits(s, 2)))
    else if 0xF0 <= lead < 0xF8 && IsTail(s, 1) && IsTail(s, 2) && IsTail(s, 3) then
      Decoded(4, High((lead - 0xF0) * 0x4_0000 + Bits(s, 1) * 4096 + Bits(s, 2) * 64 + Bits(s, 3)))
    else Invalid
  }

  /** The six bits of a byte behind the first. */
  function Bits(s: seq<Byte>, k: nat): (v: int)
    requires k < |s|
    ensures 0 <= v < 64
  {
    s[k] as int % 64
  }

  /** What the decoder reports of UTF-8 text; bytes that start nothing are passed over. */
  function Utf8Events(s: seq<Byte>): seq<Event>
    decreases |s|
  {
    if s == [] then []
    else
      match Utf8Step(s)
      case Decoded(size, e) => [e] + Utf8Events(s[size..])
      case Invalid => Utf8Events(s[1..])
  }

  type Unit16 = x: int | 0 <= x < 0x1_0000

  type Unit32 = x: int | 0 <= x < 0x1_0000_0000

  function Swap16(x: Unit16): Unit16 {
    x % 256 * 256 + x / 256
  }

  function Swap32(x: Unit32): Unit32 {
    x % 256 * 0x100_0000 + x / 256 % 256 * 0x1_0000 + x / 0x1_0000 % 256 * 256 + x / 0x100_0000
  }

  /** What the decoder reports of UTF-16 text in the byte order of the machine. */
  function Utf16Events(s: seq<Unit16>): seq<Event>
    decreases |s|
  {
    if s == [] then []
    else if s[0] < 0xD800 || s[0] >= 0xE000 then [Low(s[0])] + Utf16Events(s[1..])
    else if s[0] < 0xDC00 && |s| >= 2 && 0xDC00 <= s[1] < 0xE000 then
      [High(0x1_0000 + (s[0] as int - 0xD800) * 0x400 + (s[1] as int - 0xDC00))] + Utf16Events(s[2..])
    else Utf16Events(s[1..])
  }

  function Utf32Events(s: seq<Unit32>): seq<Event>
    decreases |s|
  {
    if s == [] then []
    else [if s[0] < 0x1_0000 then Low(s[0]) else High(s[0])] + Utf32Events(s[1..])
  }

  function Latin1Events(s: seq<Byte>): seq<Event>
    decreases |s|
  {
    if s == [] then [] else [Low(s[0])] + Latin1Events(s[1..])
  }

  // ---------- the decoding loops ----------

  lemma FoldOne<R>(result: R, e: Event, es: seq<Event>, t: Traits<R>)
    ensures Fold(result, [e] + es, t) == Fold(Apply(result, e, t), es, t)
  {
    assert ([e] + es)[0] == e && ([e] + es)[1..] == es;
  }

  lemma AsciiBlock(s: seq<Byte>)
    requires |s| >= 4 && forall k :: 0 <= k < 4 ==> s[k] < 0x80
    ensures Utf8Events(s) == [Low(s[0])] + ([Low(s[1])] + ([Low(s[2])] + ([Low(s[3])] + Utf8Events(s[4..]))))
  {
    assert s[1..][1..] == s[2..] && s[2..][1..] == s[3..] && s[3..][1..] == s[4..];
    assert Utf8Events(s[3..]) == [Low(s[3])] + Utf8Events(s[4..]);
    assert Utf8Events(s[2..]) == [Low(s[2])] + Utf8Events(s[3..]);
    assert Utf8Events(s[1..]) == [Low(s[1])] + Utf8Events(s[2..]);
  }

  /** `utf8_decoder`: wherever the text lies in memory, the blocks of four plain bytes make
      no difference to what is reported. */
  method ProcessUtf8<R>(data: seq<Byte>, address: nat, result: R, t: Traits<R>) returns (r: R)
    ensures r == Fold(result, Utf8Events(data), t)
  {
    r := result;
    var i := 0;
    while i < |data|
      invariant i <= |data| && Fold(r, Utf8Events(data[i..]), t) == Fold(result, Utf8Events(data), t)
    {
      ghost var s := data[i..];
      match Utf8Step(data[i..]) {
        case Decoded(size, e) =>
          assert s[size..] == data[i + size..];
          FoldOne(r, e, Utf8Events(s[size..]), t);
          r := Apply(r, e, t);
          i := i + size;
          if size == 1 && (address + i) % 4 == 0 {
            r, i := ProcessBlocks(data, i, r, t);
          }
        case Invalid =>
          assert s[1..] == data[i + 1..];
          i := i + 1;
      }
    }
    assert data[i..] == [];
  }

  method ProcessBlocks<R>(data: seq<Byte>, from: nat, result: R, t: Traits<R>) returns (r: R, i: nat)
    requires from <= |data|
    ensures from <= i <= |data| && Fold(r, Utf8Events(data[i..]), t) == Fold(result, Utf8Events(data[from..]), t)
  {
    r, i := result, from;
    while |data| - i >= 4 && data[i] < 0x80 && data[i + 1] < 0x80 && data[i + 2] < 0x80 && data[i + 3] < 0x80
      invariant from <= i <= |data| && Fold(r, Utf8Events(data[i..]), t) == Fold(result, Utf8Events(data[from..]), t)
    {
      ghost var s := data[i..];
      ghost var rest := Utf8Events(data[i + 4..]);
      AsciiBlock(s);
      assert s[4..] == data[i + 4..];
      FoldOne(r, Low(s[0]), [Low(s[1])] + ([Low(s[2])] + ([Low(s[3])] + rest)), t);
      r := t.low(r, data[i]);
      FoldOne(r, Low(s[1]), [Low(s[2])] + ([Low(s[3])] + rest), t);
      r := t.low(r, data[i + 1]);
      FoldOne(r, Low(s[2]), [Low(s[3])] + rest, t);
      r := t.low(r, data[i + 2]);
      FoldOne(r, Low(s[3]), rest, t);
      r := t.low(r, data[i + 3]);
      i := i + 4;
    }
  }

  function Swap16All(s: seq<Unit16>, swap: bool): (r: seq<Unit16>)
    ensures |r| == |s| && forall k :: 0 <= k < |s| ==> r[k] == if swap then Swap16(s[k]) else s[k]
  {
    if s == [] then [] else [if swap then Swap16(s[0]) else s[0]] + Swap16All(s[1..], swap)
  }

  /** `utf16_decoder`, for text in either byte order. */
  method ProcessUtf16<R>(data: seq<Unit16>, swap: bool, result: R, t: Traits<R>) returns (r: R)
    ensures r == Fold(result, Utf16Events(Swap16All(data, swap)), t)
  {
    ghost var u := Swap16All(data, swap);
    r := result;
    var i := 0;
    while i < |data|
      invariant i <= |data| && Fold(r, Utf16Events(u[i..]), t) == Fold(result, Utf16Events(u), t)
    {
      ghost var s := u[i..];
      var lead := if swap then Swap16(data[i]) else data[i];
      assert lead == s[0] && s[1..] == u[i + 1..];
      if lead < 0xD800 || (0xE000 <= lead && lead - 0xE000 < 0x2000) {
        FoldOne(r, Low(lead), Utf16Events(s[1..]), t);
        r, i := t.low(r, lead), i + 1;
      } else if lead - 0xD800 < 0x400 && |data| - i >= 2 {
        var next := if swap then Swap16(data[i + 1]) else data[i + 1];
        assert next == s[1] && s[2..] == u[i + 2..];
        if 0xDC00 <= next && next - 0xDC00 < 0x400 {
          var ch := 0x1_0000 + lead as int % 0x400 * 0x400 + next as int % 0x400;
          assert lead as int % 0x400 == lead - 0xD800 && next as int % 0x400 == next - 0xDC00;
          FoldOne(r, High(ch), Utf16Events(s[2..]), t);
          r, i := t.high(r, ch), i + 2;
        } else {
          i := i + 1;
        }
      } else {
        i := i + 1;
      }
    }
    assert u[i..] == [];
  }

  function Swap32All(s: seq<Unit32>, swap: bool): (r: seq<Unit32>)
    ensures |r| == |s| && forall k :: 0 <= k < |s| ==> r[k] == if swap then Swap32(s[k]) else s[k]
  {
    if s == [] then [] else [if swap then Swap32(s[0]) else s[0]] + Swap32All(s[1..], swap)
  }

  /** `utf32_decoder`, for text in either byte order. */
  method ProcessUtf32<R>(data: seq<Unit32>, swap: bool, result: R, t: Traits<R>) returns (r: R)
    ensures r == Fold(result, Utf32Events(Swap32All(data, swap)), t)
  {
    ghost var u := Swap32All(data, swap);
    r := result;
    var i := 0;
    while i < |data|
      invariant i <= |data| && Fold(r, Utf32Events(u[i..]), t) == Fold(result, Utf32Events(u), t)
    {
      var lead := if swap then Swap32(data[i]) else data[i];
      assert lead == u[i..][0] && u[i..][1..] == u[i + 1..];
      FoldOne(r, if lead < 0x1_0000 then Low(lead) else High(lead), Utf32Events(u[i + 1..]), t);
      r := if lead < 0x1_0000 then t.low(r, lead) else t.high(r, lead);
      i := i + 1;
    }
    assert u[i..] == [];
  }

  /** `latin1_decoder`. */
  method ProcessLatin1<R>(data: seq<Byte>, result: R, t: Traits<R>) returns (r: R)
    ensures r == Fold(result, Latin1Events(data), t)
  {
    r := result;
    var i := 0;
    while i < |data|
      invariant i <= |data| && Fold(r, Latin1Events(data[i..]), t) == Fold(result, Latin1Events(data), t)
    {
      assert data[i..][0] == data[i] && data[i..][1..] == data[i + 1..];
      FoldOne(r, Low(data[i]), Latin1Events(data[i + 1..]), t);
      r := t.low(r, data[i]);
      i := i + 1;
    }
    assert data[i..] == [];
  }

  // ---------- the two passes ----------

  /** A text with the decoder it is for. */
  datatype Source =
    | Utf8Text(bytes: seq<Byte>, address: nat)
    | Utf16Text(words: seq<Unit16>, swap: bool)
    | Utf32Text(units: seq<Unit32>, swap: bool)
    | Latin1Text(bytes: seq<Byte>)

  function EventsOf(s: Source): seq<Event> {
    match s
    case Utf8Text(bytes, _) => Utf8Events(bytes)
    case Utf16Text(words, swap) => Utf16Events(Swap16All(words, swap))
    case Utf32Text(units, swap) => Utf32Events(Swap32All(units, swap))
    case Latin1Text(bytes) => Latin1Events(bytes)
  }

  method Process<R>(s: Source, result: R, t: Traits<R>) returns (r: R)
    ensures r == Fold(result, EventsOf(s), t)
  {
    match s {
      case Utf8Text(bytes, address) => r := ProcessUtf8(bytes, address, result, t);
      case Utf16Text(words, swap) => r := ProcessUtf16(words, swap, result, t);
      case Utf32Text(units, swap) => r := ProcessUtf32(units, swap, result, t);
      case Latin1Text(bytes) => r := ProcessLatin1(bytes, result, t);
    }
  }

  /** `convert_buffer_generic`: count, allocate, write; what is written fills what was allocated,
      but for the NUL behind it. */
  method ConvertGeneric(s: Source, c: Traits<int>, w: Traits<seq<int>>) returns (buffer: array<int>, length: nat)
    requires Counts(c, w)
    ensures fresh(buffer) && length == buffer.Length
    ensures buffer[..] == Fold([], EventsOf(s), w) + [0]
  {
    var count := Process(s, 0, c);
    PassesAgree(0, [], EventsOf(s), c, w);
    buffer := new int[count + 1];
    var units := Process(s, [], w);
    forall i | 0 <= i < |units| {
      buffer[i] := units[i];
    }
    assert |units| == count;
    buffer[|units|] := 0;
    length := count + 1;
    assert buffer[..] == units + [0];
  }

  /** `get_latin1_7bit_prefix_length`. */
  method PlainPrefix(data: seq<Byte>) returns (n: nat)
    ensures n <= |data| && (forall k :: 0 <= k < n ==> data[k] < 128) && (n < |data| ==> data[n] >= 128)
  {
    n := 0;
    while n < |data|
      invariant n <= |data| && forall k :: 0 <= k < n ==> data[k] < 128
    {
      if data[n] > 127 {
        return;
      }
      n := n + 1;
    }
  }

  lemma {:induction false} PlainLatin1(s: seq<int>, data: seq<Byte>, n: nat)
    requires n <= |data| && forall k :: 0 <= k < n ==> data[k] < 128
    ensures Fold(s, Latin1Events(data), Utf8Writer()) == Fold(s + data[..n], Latin1Events(data[n..]), Utf8Writer())
    decreases n
  {
    if n == 0 {
      assert data[0..] == data && s + data[..0] == s;
    } else {
      PlainLatin1(s + [data[0]], data[1..], n - 1);
      assert s + [data[0]] + data[1..][..n - 1] == s + data[..n];
      assert data[1..][n - 1..] == data[n..];
      FoldOne(s, Low(data[0]), Latin1Events(data[1..]), Utf8Writer());
    }
  }

  /** `convert_buffer_latin1`: plain bytes in front are copied, or the whole text is kept if it
      has no others; the outcome is that of the generic conversion. */
  method ConvertLatin1(data: seq<Byte>) returns (out: seq<int>, length: nat)
    ensures out == Fold([], Latin1Events(data), Utf8Writer()) && length == |out|
  {
    var prefix := PlainPrefix(data);
    PlainLatin1([], data, prefix);
    assert [] + data[..prefix] == data[..prefix];
    var postfix := data[prefix..];
    if |postfix| == 0 {
      return data, |data|;
    }
    var counted := ProcessLatin1(postfix, 0, Utf8Counter());
    CountersCount();
    PassesAgree(0, data[..prefix], Latin1Events(postfix), Utf8Counter(), Utf8Writer());
    length := prefix + counted;
    out := ProcessLatin1(postfix, data[..prefix], Utf8Writer());
  }

  // ---------- text that is cut in two ----------

  /** Text that the decoder understands to its end. */
  predicate Complete(s: seq<Byte>)
    decreases |s|
  {
    s == [] || (Utf8Step(s).Decoded? && Complete(s[Utf8Step(s).size..]))
  }

  lemma StepAppend(a: seq<Byte>, b: seq<Byte>)
    requires a != [] && Utf8Step(a).Decoded?
    ensures Utf8Step(a + b) == Utf8Step(a)
  {
    forall k | 0 <= k < |a| ensures (a + b)[k] == a[k] {
    }
  }

  /** Decoding can stop and go on wherever the first part is complete. */
  lemma {:induction false} EventsAppend(a: seq<Byte>, b: seq<Byte>)
    requires Complete(a)
    ensures Utf8Events(a + b) == Utf8Events(a) + Utf8Events(b)
    ensures Complete(a + b) == Complete(b)
    decreases |a|
  {
    if a == [] {
      assert a + b == b;
    } else {
      var d := Utf8Step(a);
      var rest := a[d.size..];
      StepAppend(a, b);
      assert (a + b)[d.size..] == rest + b;
      EventsStep(a, d, rest);
      EventsStep(a + b, d, rest + b);
      EventsAppend(rest, b);
    }
  }

  lemma EventsStep(s: seq<Byte>, d: Decoded, rest: seq<Byte>)
    requires s != [] && Utf8Step(s) == d && d.Decoded? && rest == s[d.size..]
    ensures Utf8Events(s) == [d.event] + Utf8Events(rest) && Complete(s) == Complete(rest)
  {
  }

  /** A position in complete text is the start of a code point exactly if the byte there is
      not one that continues one; what is in front of it is then complete. */
  lemma {:induction false} CutBefore(s: seq<Byte>, k: nat)
    requires Complete(s) && k < |s| && !(0x80 <= s[k] < 0xC0)
    ensures Complete(s[..k]) && Complete(s[k..])
    decreases |s|
  {
    var d := Utf8Step(s);
    if k == 0 {
      assert s[..0] == [] && s[0..] == s;
    } else {
      assert k >= d.size;
      var rest := s[d.size..];
      if k == d.size {
        assert s[k..] == rest;
        StepAlone(s, k);
      } else {
        assert rest[k - d.size] == s[k];
        CutBefore(rest, k - d.size);
        assert rest[k - d.size..] == s[k..];
        StepFront(s, k);
        assert s[..k][d.size..] == rest[..k - d.size];
      }
    }
  }

  lemma StepFront(s: seq<Byte>, k: nat)
    requires s != [] && Utf8Step(s).Decoded? && Utf8Step(s).size <= k <= |s|
    ensures Utf8Step(s[..k]) == Utf8Step(s)
  {
    assert forall j :: 0 <= j < k ==> s[..k][j] == s[j];
  }

  lemma StepAlone(s: seq<Byte>, k: nat)
    requires s != [] && Utf8Step(s).Decoded? && Utf8Step(s).size == k
    ensures Complete(s[..k])
  {
    StepFront(s, k);
    assert s[..k][k..] == [];
  }

  /** Of any four bytes in a row in complete text, one is the start of a code point. */
  lemma {:induction false} StartAmongFour(s: seq<Byte>, k: nat)
    requires Complete(s) && k + 4 <= |s|
    ensures !(0x80 <= s[k] < 0xC0) || !(0x80 <= s[k + 1] < 0xC0) || !(0x80 <= s[k + 2] < 0xC0) || !(0x80 <= s[k + 3] < 0xC0)
    decreases |s|
  {
    var d := Utf8Step(s);
    if k >= d.size {
      StartAmongFour(s[d.size..], k - d.size);
    } else if k > 0 {
      var rest := s[d.size..];
      assert rest != [] && rest[0] == s[d.size];
      assert Utf8Step(rest).Decoded?;
    }
  }

  // ---------- how long the output is ----------

  /** What a writer appends for one event. */
  function Flat<U>(es: seq<Event>, unit: Event -> seq<U>): seq<U> {
    if es == [] then [] else unit(es[0]) + Flat(es[1..], unit)
  }

  lemma {:induction false} FlatAppend<U>(a: seq<Event>, b: seq<Event>, unit: Event -> seq<U>)
    ensures Flat(a + b, unit) == Flat(a, unit) + Flat(b, unit)
    decreases |a|
  {
    if a == [] {
      assert a + b == b;
    } else {
      assert (a + b)[0] == a[0] && (a + b)[1..] == a[1..] + b;
      FlatAppend(a[1..], b, unit);
    }
  }

  /** A writer that appends `unit` of every event. */
  ghost predicate Appends(w: Traits<seq<int>>, unit: Event -> seq<int>) {
    forall s: seq<int>, e: Event {:trigger Apply(s, e, w)} :: Apply(s, e, w) == s + unit(e)
  }

  lemma {:induction false} FoldFlat(s: seq<int>, es: seq<Event>, w: Traits<seq<int>>, unit: Event -> seq<int>)
    requires Appends(w, unit)
    ensures Fold(s, es, w) == s + Flat(es, unit)
    decreases |es|
  {
    if es != [] {
      assert Apply(s, es[0], w) == s + unit(es[0]);
      FoldFlat(s + unit(es[0]), es[1..], w, unit);
      assert s + unit(es[0]) + Flat(es[1..], unit) == s + (unit(es[0]) + Flat(es[1..], unit));
    }
  }

  /** The encodings that the printer can write besides its own. */
  datatype Encoding = Utf16(swap: bool) | Utf32(swap: bool) | Latin1

  /** A unit in the byte order of the encoding. */
  function InOrder(x: int, e: Encoding): int {
    match e
    case Utf16(true) => Swap16(x % 0x1_0000)
    case Utf32(true) => Swap32(x % 0x1_0000_0000)
    case _ => x
  }

  function AllInOrder(s: seq<int>, e: Encoding): (r: seq<int>)
    ensures |r| == |s|
  {
    seq(|s|, i requires 0 <= i < |s| => InOrder(s[i], e))
  }

  lemma LowByte(a: Byte, z: nat)
    ensures (a + 256 * z) / 256 == z && (a + 256 * z) % 256 == a
  {
  }

  lemma FourBytes(a: Byte, b: Byte, c: Byte, d: Byte, y: Unit32)
    requires y == a + 256 * (b + 256 * (c + 256 * d))
    ensures Swap32(y) == d + 256 * (c + 256 * (b + 256 * a))
  {
    LowByte(a, b + 256 * (c + 256 * d));
    LowByte(b, c + 256 * d);
    LowByte(c, d);
    assert y / 0x1_0000 == y / 256 / 256 && y / 0x100_0000 == y / 0x1_0000 / 256;
  }

  lemma BytesOf(y: Unit32) returns (a: Byte, b: Byte, c: Byte, d: Byte)
    ensures y == a + 256 * (b + 256 * (c + 256 * d))
  {
    a, b, c, d := y % 256, y / 256 % 256, y / 256 / 256 % 256, y / 256 / 256 / 256;
  }

  /** What swapping does to the bytes of a unit: it puts them in the opposite order. */
  lemma BytesSwapped(a: Byte, b: Byte, c: Byte, d: Byte)
    ensures Swap16(a as int + 256 * b as int) == b as int + 256 * a as int
    ensures Swap32(a as int + 256 * (b as int + 256 * (c as int + 256 * d as int)))
      == d as int + 256 * (c as int + 256 * (b as int + 256 * a as int))
  {
    LowByte(a, b);
    FourBytes(a, b, c, d, a as int + 256 * (b as int + 256 * (c as int + 256 * d as int)));
  }

  /** Swapping twice is swapping not at all. */
  lemma SwapsBack(x: Unit16, y: Unit32)
    ensures Swap16(Swap16(x)) == x && Swap32(Swap32(y)) == y
  {
    LowByte(x / 256, x % 256);
    var a, b, c, d := BytesOf(y);
    FourBytes(a, b, c, d, y);
    FourBytes(d, c, b, a, Swap32(y));
  }

  function Units(e: Encoding): Event -> seq<int> {
    match e
    case Utf16(_) => (v: Event) => if v.Low? then [v.ch as int % 0x1_0000] else Utf16High(v.ch)
    case Utf32(_) => (v: Event) => [v.ch as int]
    case Latin1 => (v: Event) => [if v.High? || v.ch > 255 then 63 else v.ch as int]
  }

  function WriterFor(e: Encoding): Traits<seq<int>> {
    match e
    case Utf16(_) => Utf16Writer()
    case Utf32(_) => Utf32Writer()
    case Latin1 => Latin1Writer()
  }

  lemma WriterAppends(e: Encoding)
    ensures Appends(WriterFor(e), Units(e))
  {
  }

  /** No encoding has more units than UTF-8 has bytes. */
  lemma {:induction false} OutputFits(s: seq<Byte>, e: Encoding)
    ensures |Flat(Utf8Events(s), Units(e))| <= |s|
    decreases |s|
  {
    if s != [] {
      match Utf8Step(s) {
        case Decoded(size, v) =>
          OutputFits(s[size..], e);
          assert ([v] + Utf8Events(s[size..]))[1..] == Utf8Events(s[size..]);
          assert v.High? ==> size == 4;
        case Invalid =>
          OutputFits(s[1..], e);
      }
    }
  }

  // ---------- UTF-16 to UTF-8 and back ----------

  predicate IsScalar(e: Event) {
    if e.Low? then e.ch < 0xD800 || 0xE000 <= e.ch < 0x1_0000 else 0x1_0000 <= e.ch < 0x11_0000
  }

  function Utf8Bytes(e: Event): (s: seq<Byte>)
    ensures 1 <= |s| <= 4
  {
    if e.Low? then Utf8Low(e.ch) else Utf8High(e.ch)
  }

  function Utf16Units(e: Event): (s: seq<Unit16>)
    ensures 1 <= |s| <= 2
  {
    if e.Low? then [e.ch % 0x1_0000] else Utf16High(e.ch)
  }

  lemma TailBits(s: seq<Byte>, k: nat, x: nat)
    requires k < |s| && x < 64 && s[k] == 0x80 + x
    ensures IsTail(s, k) && Bits(s, k) == x
  {
  }

  lemma SixBits(ch: nat)
    ensures ch == ch / 4096 * 4096 + ch / 64 % 64 * 64 + ch % 64
    ensures ch / 0x4_0000 * 64 + ch / 4096 % 64 == ch / 4096
  {
    assert ch / 64 / 64 == ch / 4096 && ch / 4096 / 64 == ch / 0x4_0000;
  }

  lemma TwoBack(ch: nat, s: seq<Byte>)
    requires 0x80 <= ch < 0x800 && |s| >= 2 && s[0] == 0xC0 + ch / 64 && s[1] == 0x80 + ch % 64
    ensures Utf8Step(s) == Decoded(2, Low(ch))
  {
    TailBits(s, 1, ch % 64);
  }

  lemma ThreeBack(ch: nat, s: seq<Byte>)
    requires 0x800 <= ch < 0x1_0000 && |s| >= 3
    requires s[0] == 0xE0 + ch / 4096 && s[1] == 0x80 + ch / 64 % 64 && s[2] == 0x80 + ch % 64
    ensures Utf8Step(s) == Decoded(3, Low(ch))
  {
    TailBits(s, 1, ch / 64 % 64);
    TailBits(s, 2, ch % 64);
    SixBits(ch);
  }

  lemma FourBack(ch: nat, s: seq<Byte>)
    requires 0x1_0000 <= ch < 0x11_0000 && |s| >= 4 && s[0] == 0xF0 + ch / 0x4_0000
    requires s[1] == 0x80 + ch / 4096 % 64 && s[2] == 0x80 + ch / 64 % 64 && s[3] == 0x80 + ch % 64
    ensures Utf8Step(s) == Decoded(4, High(ch))
  {
    TailBits(s, 1, ch / 4096 % 64);
    TailBits(s, 2, ch / 64 % 64);
    TailBits(s, 3, ch % 64);
    SixBits(ch);
  }

  /** Section 3 of RFC 3629: the decoder undoes the writer on a scalar value. */
  lemma Utf8OneBack(e: Event, rest: seq<Byte>)
    requires IsScalar(e)
    ensures Utf8Step(Utf8Bytes(e) + rest) == Decoded(|Utf8Bytes(e)|, e)
  {
    var w, ch := Utf8Bytes(e), e.ch;
    var s := w + rest;
    assert forall k :: 0 <= k < |w| ==> s[k] == w[k];
    if ch < 0x80 {
      assert s[0] == ch;
    } else if ch < 0x800 {
      TwoBack(ch, s);
    } else if ch < 0x1_0000 {
      ThreeBack(ch, s);
    } else {
      FourBack(ch, s);
    }
  }

  lemma {:induction false} Utf8Back(es: seq<Event>)
    requires forall e :: e in es ==> IsScalar(e)
    ensures Utf8Events(Flat(es, Utf8Bytes)) == es && Complete(Flat(es, Utf8Bytes))
    decreases |es|
  {
    if es != [] {
      var bytes, rest := Utf8Bytes(es[0]), Flat(es[1..], Utf8Bytes);
      Utf8OneBack(es[0], rest);
      Utf8Back(es[1..]);
      assert (bytes + rest)[|bytes|..] == rest;
      assert es == [es[0]] + es[1..];
    }
  }

  /** UTF-16 text in which every surrogate has its partner. */
  predicate WellFormed16(u: seq<Unit16>)
    decreases |u|
  {
    u == []
    || ((u[0] < 0xD800 || u[0] >= 0xE000) && WellFormed16(u[1..]))
    || (0xD800 <= u[0] < 0xDC00 && |u| >= 2 && 0xDC00 <= u[1] < 0xE000 && WellFormed16(u[2..]))
  }

  /** Section 2 of RFC 2781: the writer undoes the decoder on well-formed text. */
  lemma {:induction false} Utf16Back(u: seq<Unit16>)
    requires WellFormed16(u)
    ensures Flat(Utf16Events(u), Utf16Units) == u && forall e :: e in Utf16Events(u) ==> IsScalar(e)
    decreases |u|
  {
    if u != [] {
      if u[0] < 0xD800 || u[0] >= 0xE000 {
        Utf16Back(u[1..]);
        OneFlat(Low(u[0]), Utf16Events(u[1..]), [u[0]], u, 1);
      } else {
        var ch := 0x1_0000 + (u[0] as int - 0xD800) * 0x400 + (u[1] as int - 0xDC00);
        Utf16Back(u[2..]);
        assert Utf16High(ch) == [u[0], u[1]];
        OneFlat(High(ch), Utf16Events(u[2..]), [u[0], u[1]], u, 2);
      }
    }
  }

  lemma OneFlat(e: Event, es: seq<Event>, first: seq<Unit16>, u: seq<Unit16>, k: nat)
    requires k <= |u| && first == u[..k] && Utf16Units(e) == first && Flat(es, Utf16Units) == u[k..]
    ensures Flat([e] + es, Utf16Units) == u
  {
    assert ([e] + es)[0] == e && ([e] + es)[1..] == es;
    assert u == u[..k] + u[k..];
  }

  /** Converting UTF-16 to UTF-8 and back is the identity. */
  lemma Utf16RoundTrip(u: seq<Unit16>)
    requires WellFormed16(u)
    ensures Flat(Utf8Events(Flat(Utf16Events(u), Utf8Bytes)), Utf16Units) == u
  {
    Utf16Back(u);
    Utf8Back(Utf16Events(u));
  }

  // ---------- one code point in every encoding ----------

  /** The units of one code point, read again, are that code point; Latin-1 has a question mark for
      those it does not know. */
  lemma OneBack(e: Event, swap: bool)
    requires IsScalar(e)
    ensures Utf16Events(Utf16Units(e)) == [e] && Units(Utf16(swap))(e) == Utf16Units(e)
    ensures Units(Utf32(swap))(e) == [e.ch] && Utf32Events([e.ch]) == [e]
    ensures e.ch < 256 ==> Units(Latin1)(e) == [e.ch] && Latin1Events([e.ch]) == [e]
    ensures e.ch >= 256 ==> Units(Latin1)(e) == ['?' as int]
  {
    var u := Utf16Units(e);
    assert u[|u|..] == [] && [e.ch][1..] == [];
    if e.High? {
      SurrogatesBack(e.ch);
    }
  }

  lemma SurrogatesBack(ch: nat)
    requires 0x1_0000 <= ch < 0x11_0000
    ensures var u := Utf16High(ch);
      && 0xD800 <= u[0] < 0xDC00 <= u[1] < 0xE000 && 0x1_0000 + (u[0] as int - 0xD800) * 0x400 + (u[1] as int - 0xDC00) == ch
  {
    var rest := ch - 0x1_0000;
    assert rest == rest / 0x400 * 0x400 + rest % 0x400;
  }

  /** The character U+12345 of the examples in RFC 2781, section 5. */
  lemma Utf16Example()
    ensures Utf16High(0x1_2345) == [0xD808, 0xDF45]
  {
  }
}
