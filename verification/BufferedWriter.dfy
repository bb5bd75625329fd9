/** The printer's output buffer. Text is handed on in chunks, each converted by itself; what
    arrives is the conversion of the whole. */
module BufferedWriter {
  import opened Escapes
  import opened Utf

  const CAPACITY: nat := 2048

  /** UTF-8 goes out as it is. */
  datatype Target = Native | Converted(encoding: Encoding)

  /** One-shot conversion. */
  function Conversion(s: seq<Byte>, target: Target): seq<int> {
    match target
    case Native => s
    case Converted(e) => AllInOrder(Flat(Utf8Events(s), Units(e)), e)
  }

  /** Text that may be cut off after it. */
  predicate Whole(s: seq<Byte>, target: Target) {
    target.Converted? ==> Complete(s)
  }

  lemma ConversionAppend(a: seq<Byte>, b: seq<Byte>, target: Target)
    requires Whole(a, target)
    ensures Conversion(a + b, target) == Conversion(a, target) + Conversion(b, target)
    ensures Whole(a + b, target) == Whole(b, target)
  {
    if target.Converted? {
      EventsAppend(a, b);
      FlatAppend(Utf8Events(a), Utf8Events(b), Units(target.encoding));
      AllInOrderAppend(Flat(Utf8Events(a), Units(target.encoding)), Flat(Utf8Events(b), Units(target.encoding)), target.encoding);
    }
  }

  lemma AllInOrderAppend(a: seq<int>, b: seq<int>, e: Encoding)
    ensures AllInOrder(a + b, e) == AllInOrder(a, e) + AllInOrder(b, e)
  {
  }

  /** `get_valid_length`: where to cut a chunk. */
  method ValidLength(data: seq<Byte>, length: nat) returns (n: nat)
    requires length <= |data|
    ensures n <= length && (length < 5 ==> n == 0) && (length >= 5 ==> n >= length - 4)
    ensures Complete(data) ==> Complete(data[..n]) && Complete(data[n..])
  {
    if length < 5 {
      assert data[..0] == [] && data[0..] == data;
      return 0;
    }
    var i := 1;
    while i <= 4
      invariant 1 <= i <= 5 && forall k :: length - i < k < length ==> 0x80 <= data[k] < 0xC0
    {
      var ch := data[length - i];
      if !(0x80 <= ch < 0xC0) {
        if Complete(data) {
          CutBefore(data, length - i);
        }
        return length - i;
      }
      i := i + 1;
    }
    if Complete(data) {
      StartAmongFour(data, length - 4);
      assert false;
    }
    return length;
  }

  class Writer {
    const target: Target
    const buffer: array<Byte>
    var bufsize: nat
    /** What the sink behind the buffer has received. */
    var out: seq<int>
    /** Everything written so far. */
    ghost var text: seq<Byte>

    /** The text that has left the buffer. */
    ghost function Done(): seq<Byte>
      requires bufsize <= |text|
      reads this
    {
      text[..|text| - bufsize]
    }

    ghost predicate Valid()
      reads this, buffer
    {
      && buffer.Length == CAPACITY && bufsize <= CAPACITY && bufsize <= |text|
      && text == Done() + buffer[..bufsize]
      && out == Conversion(Done(), target)
      && Whole(Done(), target) && Whole(text, target)
    }

    constructor (target: Target)
      ensures Valid() && fresh(buffer) && this.target == target && text == []
    {
      this.target := target;
      buffer := new Byte[CAPACITY];
      bufsize := 0;
      out := [];
      text := [];
    }

    /** Convert a chunk and hand it on; the converted chunk fits the scratch area. */
    method Emit(data: seq<Byte>)
      requires target.Converted? ==> |data| <= CAPACITY
      modifies this`out
      ensures out == old(out) + Conversion(data, target)
      ensures target.Converted? ==> |Conversion(data, target)| <= CAPACITY
    {
      if |data| == 0 {
        return;
      }
      match target {
        case Native =>
          out := out + data;
        case Converted(e) =>
          var result: seq<int> := ProcessUtf8(data, 0, [], WriterFor(e));
          ghost var written := result;
          if !e.Latin1? && e.swap {
            result := SwapUnits(result, e);
          }
          WriterAppends(e);
          FoldFlat([], Utf8Events(data), WriterFor(e), Units(e));
          OutputFits(data, e);
          assert result == AllInOrder(written, e);
          out := out + result;
      }
    }

    /** Unit by unit into the other byte order. */
    method SwapUnits(units: seq<int>, e: Encoding) returns (r: seq<int>)
      ensures r == AllInOrder(units, e)
    {
      r := units;
      var i := 0;
      while i < |r|
        invariant i <= |r| == |units|
        invariant forall k :: 0 <= k < i ==> r[k] == InOrder(units[k], e)
        invariant forall k :: i <= k < |r| ==> r[k] == units[k]
      {
        r := r[i := InOrder(r[i], e)];
        i := i + 1;
      }
    }

    method Flush()
      requires Valid()
      modifies this`out, this`bufsize
      ensures Valid() && bufsize == 0 && text == old(text) && out == Conversion(text, target)
    {
      ghost var done, rest := Done(), buffer[..bufsize];
      ConversionAppend(done, rest, target);
      Emit(buffer[..bufsize]);
      bufsize := 0;
      assert Done() == text && text + buffer[..0] == text;
    }

    /** `memcpy` behind what is buffered. */
    method Store(data: seq<Byte>)
      requires Valid() && bufsize + |data| <= CAPACITY && Whole(data, target)
      modifies this`bufsize, this`text, buffer
      ensures Valid() && text == old(text) + data && out == old(out)
    {
      ghost var before := buffer[..bufsize];
      ConversionAppend(text, data, target);
      forall k | 0 <= k < |data| {
        buffer[bufsize + k] := data[k];
      }
      bufsize := bufsize + |data|;
      text := text + data;
      assert buffer[..bufsize] == before + data;
      assert Done() == old(Done());
    }

    /** `write_direct`: too much for what is left of the buffer, or for all of it. */
    method WriteDirect(data: seq<Byte>)
      requires Valid() && Whole(data, target)
      modifies this`out, this`bufsize, this`text, buffer
      ensures Valid() && text == old(text) + data
    {
      Flush();
      var rest := data;
      if |rest| > CAPACITY {
        if target.Native? {
          Forward(rest);
          return;
        }
        while |rest| > CAPACITY
          invariant Valid() && bufsize == 0 && text + rest == old(text) + data && Whole(rest, target)
        {
          var chunk := ValidLength(rest, CAPACITY);
          assert chunk > 0;
          Regroup(text, rest, chunk);
          Forward(rest[..chunk]);
          rest := rest[chunk..];
        }
        bufsize := 0;
      }
      Store(rest);
    }

    lemma Regroup(s: seq<Byte>, rest: seq<Byte>, n: nat)
      requires n <= |rest|
      ensures s + rest == s + rest[..n] + rest[n..]
    {
    }

    /** Hand text on past the empty buffer. */
    method Forward(data: seq<Byte>)
      requires Valid() && bufsize == 0 && Whole(data, target) && (target.Converted? ==> |data| <= CAPACITY)
      modifies this`out, this`text
      ensures Valid() && bufsize == 0 && text == old(text) + data
    {
      ConversionAppend(text, data, target);
      assert Done() == text;
      Emit(data);
      text := text + data;
      assert Done() == text && text + buffer[..0] == text;
    }

    method WriteBuffer(data: seq<Byte>)
      requires Valid() && Whole(data, target)
      modifies this`out, this`bufsize, this`text, buffer
      ensures Valid() && text == old(text) + data
    {
      if bufsize + |data| <= CAPACITY {
        Store(data);
      } else {
        WriteDirect(data);
      }
    }

    /** `write_string`: copy what fits; if that is not all, take back what belongs to a code
        point that would be cut, and write the rest directly. */
    method WriteString(data: seq<Byte>)
      requires Valid() && Whole(data, target)
      modifies this`out, this`bufsize, this`text, buffer
      ensures Valid() && text == old(text) + data
    {
      var offset := CopyIn(data);
      if offset < CAPACITY {
        assert data[..offset - bufsize] == data;
        Accept(data, offset);
      } else {
        var length := offset - bufsize;
        var valid := ValidLength(data, length);
        var extra := length - valid;
        KeepsWhole(data, valid);
        assert buffer[bufsize..offset - extra] == buffer[bufsize..offset][..valid] == data[..valid];
        Accept(data[..valid], offset - extra);
        Regroup(old(text), data, valid);
        WriteDirect(data[valid..]);
      }
    }

    /** Copy as much as fits behind the buffered text, without counting it yet. */
    method CopyIn(data: seq<Byte>) returns (offset: nat)
      requires Valid()
      modifies buffer
      ensures Valid() && bufsize <= offset <= CAPACITY && offset - bufsize <= |data|
      ensures offset < CAPACITY ==> offset - bufsize == |data|
      ensures buffer[bufsize..offset] == data[..offset - bufsize]
    {
      ghost var before := buffer[..bufsize];
      var i := 0;
      offset := bufsize;
      while i < |data| && offset < CAPACITY
        invariant i <= |data| && offset == bufsize + i <= CAPACITY
        invariant buffer[..bufsize] == before && buffer[bufsize..offset] == data[..i]
      {
        buffer[offset] := data[i];
        offset, i := offset + 1, i + 1;
      }
    }

    lemma KeepsWhole(data: seq<Byte>, n: nat)
      requires n <= |data| && Whole(data, target) && (Complete(data) ==> Complete(data[..n]) && Complete(data[n..]))
      ensures Whole(data[..n], target) && Whole(data[n..], target)
    {
    }

    /** Text that has been copied behind the buffered text becomes part of it. */
    method Accept(ghost data: seq<Byte>, offset: nat)
      requires Valid() && bufsize <= offset <= CAPACITY
      requires buffer[bufsize..offset] == data && Whole(data, target)
      modifies this`bufsize, this`text
      ensures Valid() && text == old(text) + data && out == old(out)
    {
      ghost var before := buffer[..bufsize];
      ConversionAppend(text, data, target);
      bufsize := offset;
      text := text + data;
      assert buffer[..bufsize] == before + data;
      assert Done() == old(Done());
    }

    /** The six fixed-length forms of `write`. */
    method Write(data: seq<Byte>)
      requires Valid() && 1 <= |data| <= 6 && Whole(data, target)
      modifies this`out, this`bufsize, this`text, buffer
      ensures Valid() && text == old(text) + data
    {
      if bufsize > CAPACITY - |data| {
        Flush();
      }
      Store(data);
    }
  }

  /** A writing call: the string form or the counted form. */
  datatype Call = String(data: seq<Byte>) | Counted(data: seq<Byte>) | Fixed(data: seq<Byte>)

  function TextOf(calls: seq<Call>, n: nat): seq<Byte>
    requires n <= |calls|
  {
    if n == 0 then [] else TextOf(calls, n - 1) + calls[n - 1].data
  }

  /** However text is cut into calls, at whatever code points: what arrives is what converting
      the whole text at once gives. */
  method WriteAll(calls: seq<Call>, target: Target) returns (out: seq<int>)
    requires forall c :: c in calls ==> Whole(c.data, target) && (c.Fixed? ==> 1 <= |c.data| <= 6)
    ensures out == Conversion(TextOf(calls, |calls|), target)
  {
    var w := new Writer(target);
    for i := 0 to |calls|
      invariant w.Valid() && fresh(w) && fresh(w.buffer) && w.target == target && w.text == TextOf(calls, i)
    {
      match calls[i] {
        case String(data) =>
          w.WriteString(data);
        case Counted(data) =>
          w.WriteBuffer(data);
        case Fixed(data) =>
          w.Write(data);
      }
    }
    w.Flush();
    out := w.out;
  }
}
