/** `parse_tree` on the buffer itself: a loop that scans, ends names in place, and leaves
    the converted text where it found it. */
module MarkupLoop {
  import opened Escapes
  import opened InPlaceText
  import opened Markup
  import opened MarkupParser

  /** From `s` on the buffer is as it was. */
  ghost predicate Ahead(u: seq<Byte>, t: seq<Byte>, s: nat) {
    |u| == |t| && s <= |t| && forall k {:trigger u[k]} {:trigger t[k]} :: s <= k < |t| ==> u[k] == t[k]
  }

  lemma AheadSlice(u: seq<Byte>, t: seq<Byte>, s: nat, e: nat)
    requires Ahead(u, t, s) && s <= e <= |t|
    ensures u[s..e] == t[s..e]
  {
  }

  method SkipWs(buf: array<Byte>, s: nat, ghost t: seq<Byte>) returns (k: nat)
    requires Ahead(buf[..], t, s) && s < |t| && t[|t| - 1] == 0
    ensures k == SkipSpaces(t, s) && k < |t|
  {
    k := s;
    while IsSpace(buf[k])
      invariant s <= k < |t| && SkipSpaces(t, s) == SkipSpaces(t, k)
      decreases |t| - k
    {
      assert buf[..][k] == t[k];
      k := k + 1;
    }
    assert buf[..][k] == t[k];
  }

  method ScanName(buf: array<Byte>, s: nat, ghost t: seq<Byte>) returns (k: nat, name: seq<Byte>)
    requires Ahead(buf[..], t, s) && s < |t| && t[|t| - 1] == 0
    ensures k == NameEnd(t, s) && k < |t| && name == t[s..k]
  {
    k := s;
    while IsSymbol(buf[k])
      invariant s <= k < |t| && NameEnd(t, s) == NameEnd(t, k)
      decreases |t| - k
    {
      assert buf[..][k] == t[k];
      k := k + 1;
    }
    assert buf[..][k] == t[k];
    AheadSlice(buf[..], t, s, k);
    name := buf[s..k];
    assert name == buf[..][s..k];
  }

  /** The string that starts at `s`. */
  method StringAt(buf: array<Byte>, s: nat, ghost out: seq<Byte>) returns (v: seq<Byte>)
    requires s + |out| < buf.Length && buf[s..s + |out|] == out && buf[s + |out|] == 0
    ensures v == CString(out)
  {
    var k := s;
    assert buf[s..s + |out|][0..] == out;
    while buf[k] != 0
      invariant s <= k <= s + |out| && |CString(out)| == k - s + |CString(out[k - s..])|
      decreases s + |out| - k
    {
      assert buf[s..s + |out|][k - s] == buf[k];
      assert out[k - s..][1..] == out[k + 1 - s..];
      k := k + 1;
    }
    if k < s + |out| {
      assert buf[s..s + |out|][k - s] == buf[k];
    }
    v := buf[s..k];
    ghost var w := buf[..];
    assert w[s..s + |out|] == out && v == w[s..k] == w[s..s + |out|][..k - s];
  }

  // ---------- what lies behind does not matter ----------

  lemma {:induction false} SameDigits(u: seq<Byte>, t: seq<Byte>, j: nat, base: nat)
    requires Ahead(u, t, j)
    ensures DigitsEnd(u, j, base) == DigitsEnd(t, j, base)
    decreases |t| - j
  {
    if j < |t| {
      assert u[j] == t[j];
      SameDigits(u, t, j + 1, base);
    }
  }

  lemma {:induction false} SameNumber(u: seq<Byte>, t: seq<Byte>, j: nat, e: nat, base: nat)
    requires Ahead(u, t, j) && j <= e <= |t|
    ensures Number(u, j, e, base) == Number(t, j, e, base)
    decreases e
  {
    if j < e {
      SameNumber(u, t, j, e - 1, base);
      assert Digit(u[e - 1], base) == Digit(t[e - 1], base);
    }
  }

  lemma SameNumeric(u: seq<Byte>, t: seq<Byte>, j: nat, base: nat)
    requires Ahead(u, t, j)
    ensures Numeric(u, j, base) == Numeric(t, j, base)
  {
    SameDigits(u, t, j, base);
    SameNumber(u, t, j, DigitsEnd(t, j, base), base);
  }

  lemma SameReference(u: seq<Byte>, t: seq<Byte>, i: nat)
    requires Ahead(u, t, i) && i < |t|
    ensures ReferenceAt(u, i) == ReferenceAt(t, i)
  {
    forall k: nat, c: Byte | i <= k ensures At(u, k, c) == At(t, k, c) {
    }
    if At(t, i + 1, HASH) {
      if At(t, i + 2, 120) {
        SameNumeric(u, t, i + 3, 16);
      } else {
        SameNumeric(u, t, i + 2, 10);
      }
    }
  }

  lemma SamePiece(u: seq<Byte>, t: seq<Byte>, i: nat, m: Mode)
    requires Ahead(u, t, i) && i < |t|
    ensures Piece(u, i, m) == Piece(t, i, m)
  {
    SameReference(u, t, i);
    assert u[i] == t[i];
    assert i + 1 < |t| ==> u[i + 1] == t[i + 1];
  }

  lemma {:induction false} SameConversion(u: seq<Byte>, t: seq<Byte>, i: nat, m: Mode)
    requires Ahead(u, t, i)
    ensures Convert(u, i, m) == Convert(t, i, m)
    decreases |t| - i
  {
    if i < |t| && !Ends(t[i], m) {
      SamePiece(u, t, i, m);
      SameConversion(u, t, Piece(t, i, m).1, m);
    }
  }

  lemma {:induction false} SameStop(u: seq<Byte>, t: seq<Byte>, i: nat, m: Mode)
    requires Ahead(u, t, i)
    ensures StopAt(u, i, m) == StopAt(t, i, m)
    decreases |t| - i
  {
    if i < |t| && !Ends(t[i], m) {
      SameStop(u, t, i + 1, m);
    }
  }

  // ---------- attributes ----------

  /** `strconv_attribute`, as the options select it. */
  method StrconvAttribute(buf: array<Byte>, i: nat, q: Byte, o: Options) returns (ok: bool, next: nat)
    requires i < buf.Length && buf[buf.Length - 1] == 0 && (q == QUOTE || q == APOSTROPHE)
    modifies buf
    ensures InPlaceText.Parsed(buf[..], old(buf[..]), i, AttributeText(q, o), ok, next)
  {
    if o.wconv {
      ok, next := ParseWconv(buf, i, q, o.escapes, buf.Length - 1);
    } else if o.eol {
      ok, next := ParseEol(buf, i, q, o.escapes, buf.Length - 1);
    } else {
      ok, next := ParseSimple(buf, i, q, o.escapes, buf.Length - 1);
    }
  }

  method ReadValue(buf: array<Byte>, i: nat, q: Byte, o: Options, ghost t: seq<Byte>) returns (v: Read)
    requires Ahead(buf[..], t, i) && i < |t| && t[|t| - 1] == 0 && (q == QUOTE || q == APOSTROPHE)
    modifies buf
    ensures v == ReadAttribute(t, i, q, o) && (v.Read? ==> Ahead(buf[..], t, v.next))
  {
    ghost var u, m := buf[..], AttributeText(q, o);
    SameConversion(u, t, i, m);
    SameStop(u, t, i, m);
    assert u[|t| - 1] == t[|t| - 1];
    var ok, next := StrconvAttribute(buf, i, q, o);
    ghost var out, stop := Convert(t, i, m), StopAt(t, i, m);
    assert u[stop] == t[stop];
    if !ok {
      return Unread;
    }
    ghost var w := buf[..];
    assert w[i..i + |out|] == out && w[i + |out|] == 0 && w[stop + 1..] == u[stop + 1..];
    Beyond(w, u, t, i, stop + 1);
    var value := StringAt(buf, i, out);
    v := Read(value, next);
  }

  lemma Beyond(w: seq<Byte>, u: seq<Byte>, t: seq<Byte>, i: nat, s: nat)
    requires Ahead(u, t, i) && i <= s <= |t| == |w| && w[s..] == u[s..]
    ensures Ahead(w, t, s)
  {
    forall k | s <= k < |t| ensures w[k] == t[k] {
      assert w[s..][k - s] == u[s..][k - s];
    }
  }

  /** The NUL that ends a name in place. */
  method EndName(buf: array<Byte>, e: nat, ghost t: seq<Byte>) returns (c: Byte)
    requires Ahead(buf[..], t, e) && e < |t|
    modifies buf
    ensures c == t[e] && Ahead(buf[..], t, e + 1)
  {
    c := buf[e];
    assert buf[..][e] == t[e];
    ghost var u := buf[..];
    buf[e] := 0;
    assert buf[..] == u[e := 0];
  }

  /** The value part of an attribute, from its opening quote. */
  method ParseQuoted(buf: array<Byte>, i: nat, name: seq<Byte>, o: Options, ghost t: seq<Byte>)
      returns (a: MarkupParser.Attribute)
    requires Ahead(buf[..], t, i) && i < |t| && t[|t| - 1] == 0
    modifies buf
    ensures a == ParseValue(t, i, name, ReaderFor(o)) && (a.Attribute? ==> Ahead(buf[..], t, a.next) && a.next < |t|)
  {
    var q := buf[i];
    assert buf[..][i] == t[i];
    if q != QUOTE && q != APOSTROPHE {
      return BadAttribute;
    }
    var v := ReadValue(buf, i + 1, q, o, t);
    QuotedIs(t, i, name, o, q, v);
    if v.Unread? {
      return BadAttribute;
    }
    assert t[v.next - 1] == q;
    var c := buf[v.next];
    assert buf[..][v.next] == t[v.next];
    if IsStartSymbol(c) {
      return BadAttribute;
    }
    return MarkupParser.Attribute(Attr(name, v.value), v.next);
  }

  lemma QuotedIs(t: seq<Byte>, i: nat, name: seq<Byte>, o: Options, q: Byte, v: Read)
    requires i < |t| && t[i] == q && (q == QUOTE || q == APOSTROPHE) && v == ReadAttribute(t, i + 1, q, o)
    ensures ParseValue(t, i, name, ReaderFor(o))
         == if v.Unread? || IsStartSymbol(ByteAt(t, v.next)) then BadAttribute
            else MarkupParser.Attribute(Attr(name, v.value), v.next)
  {
    assert ReaderFor(o).attribute(t, i + 1, q) == v;
  }

  /** From the end of a name to the equals sign, if there is one. */
  method ScanEquals(buf: array<Byte>, e: nat, ghost t: seq<Byte>) returns (s: nat, ch: Byte)
    requires Ahead(buf[..], t, e) && e < |t| && t[|t| - 1] == 0
    modifies buf
    ensures s == (if IsSpace(t[e]) then SkipSpaces(t, e + 1) else e) && s < |t| && ch == t[s]
    ensures ch != 0 ==> Ahead(buf[..], t, s + 1) && s + 1 < |t|
  {
    ch := EndName(buf, e, t);
    s := e;
    if IsSpace(ch) {
      s := SkipWs(buf, e + 1, t);
      ch := buf[s];
      assert buf[..][s] == t[s];
    }
  }

  method ParseOne(buf: array<Byte>, i: nat, o: Options, ghost t: seq<Byte>) returns (a: MarkupParser.Attribute)
    requires Ahead(buf[..], t, i) && i < |t| && t[|t| - 1] == 0
    modifies buf
    ensures a == ParseAttribute(t, i, ReaderFor(o)) && (a.Attribute? ==> Ahead(buf[..], t, a.next) && a.next < |t|)
  {
    var e, name := ScanName(buf, i, t);
    var s, ch := ScanEquals(buf, e, t);
    if ch != EQUALS {
      return BadAttribute;
    }
    s := SkipWs(buf, s + 1, t);
    a := ParseQuoted(buf, s, name, o, t);
  }

  /** The tag `tag`, with the attributes `s` in front of its own. */
  function WithAttributes(s: seq<Attr>, tag: Tag): Tag {
    match tag
    case Opened(more, next) => Opened(s + more, next)
    case Closed(more, next) => Closed(s + more, next)
    case BadTag => BadTag
  }

  lemma WithOneMore(s: seq<Attr>, a: Attr, tag: Tag)
    ensures WithAttributes(s, WithAttributes([a], tag)) == WithAttributes(s + [a], tag)
  {
    match tag {
      case Opened(more, _) => assert s + ([a] + more) == s + [a] + more;
      case Closed(more, _) => assert s + ([a] + more) == s + [a] + more;
      case BadTag =>
    }
  }

  /** The loop over the attributes of a start tag. */
  method ParseTag(buf: array<Byte>, i: nat, o: Options, ghost t: seq<Byte>) returns (tag: Tag)
    requires Ahead(buf[..], t, i) && i < |t| && t[|t| - 1] == 0
    modifies buf
    ensures tag == ParseAttributes(t, i, ReaderFor(o)) && (!tag.BadTag? ==> Ahead(buf[..], t, tag.next) && tag.next < |t|)
  {
    var done: seq<Attr> := [];
    var s := i;
    while true
      invariant s < |t| && Ahead(buf[..], t, s)
      invariant ParseAttributes(t, i, ReaderFor(o)) == WithAttributes(done, ParseAttributes(t, s, ReaderFor(o)))
      decreases |t| - s
    {
      ghost var s0 := s;
      s := SkipWs(buf, s, t);
      var c := buf[s];
      assert buf[..][s] == t[s];
      if IsStartSymbol(c) {
        var a := ParseOne(buf, s, o, t);
        if a.BadAttribute? {
          NoAttribute(t, s0, s, ReaderFor(o));
          return BadTag;
        }
        OneAttribute(t, s0, s, a.attribute, a.next, ReaderFor(o));
        WithOneMore(done, a.attribute, ParseAttributes(t, a.next, ReaderFor(o)));
        done, s := done + [a.attribute], a.next;
      } else {
        tag := ParseTagEnd(buf, s, done, t);
        LastOfTag(t, s0, s, ReaderFor(o));
        return;
      }
    }
  }

  /** How a tag may end. */
  function TagEndAt(t: seq<Byte>, s: nat): Tag {
    if ByteAt(t, s) == SLASH then
      if ByteAt(t, s + 1) == GREATER then Closed([], s + 2) else BadTag
    else if ByteAt(t, s) == GREATER then Opened([], s + 1)
    else BadTag
  }

  method ParseTagEnd(buf: array<Byte>, s: nat, done: seq<Attr>, ghost t: seq<Byte>) returns (tag: Tag)
    requires Ahead(buf[..], t, s) && s < |t| && t[|t| - 1] == 0
    ensures tag == WithAttributes(done, TagEndAt(t, s)) && (!tag.BadTag? ==> Ahead(buf[..], t, tag.next) && tag.next < |t|)
  {
    assert buf[..][s] == t[s] && done + [] == done;
    if buf[s] == SLASH {
      assert buf[..][s + 1] == t[s + 1];
      return if buf[s + 1] == GREATER then Closed(done, s + 2) else BadTag;
    }
    return if buf[s] == GREATER then Opened(done, s + 1) else BadTag;
  }

  lemma LastOfTag(t: seq<Byte>, i: nat, s: nat, r: Reader)
    requires i <= |t| && s == SkipSpaces(t, i) && !IsStartSymbol(ByteAt(t, s))
    ensures ParseAttributes(t, i, r) == TagEndAt(t, s)
  {
  }

  lemma NoAttribute(t: seq<Byte>, i: nat, s: nat, r: Reader)
    requires i <= |t| && s == SkipSpaces(t, i) && IsStartSymbol(ByteAt(t, s)) && ParseAttribute(t, s, r).BadAttribute?
    ensures ParseAttributes(t, i, r) == BadTag
  {
  }

  lemma OneAttribute(t: seq<Byte>, i: nat, s: nat, a: Attr, next: nat, r: Reader)
    requires i <= |t| && s == SkipSpaces(t, i) && IsStartSymbol(ByteAt(t, s))
    requires ParseAttribute(t, s, r) == MarkupParser.Attribute(a, next) && i < next <= |t|
    ensures ParseAttributes(t, i, r) == WithAttributes([a], ParseAttributes(t, next, r))
  {
  }

  // ---------- tags and text ----------

  /** Where the scan goes on, nothing has been touched. */
  ghost predicate Fresh(u: seq<Byte>, t: seq<Byte>, st: State) {
    st.Content? || st.Markup? ==> Ahead(u, t, st.at) && st.at < |t|
  }

  method ParseStart(buf: array<Byte>, s: nat, p: Progress, o: Options, ghost t: seq<Byte>) returns (st: State)
    requires Ahead(buf[..], t, s) && s < |t| && t[|t| - 1] == 0
    modifies buf
    ensures st == StartStep(t, s, p, ReaderFor(o)) && Fresh(buf[..], t, st)
  {
    var e, name := ScanName(buf, s, t);
    var ch := EndName(buf, e, t);
    st := FinishStart(buf, e, name, ch, p, o, t);
  }

  /** What comes behind the name, which ended with `ch`. */
  method FinishStart(buf: array<Byte>, e: nat, name: seq<Byte>, ch: Byte, p: Progress, o: Options, ghost t: seq<Byte>)
    returns (st: State)
    requires e < |t| && t[|t| - 1] == 0 && Ahead(buf[..], t, e + 1) && ch == ByteAt(t, e)
    modifies buf
    ensures st == StartResult(name, e, ByteAt(t, e), ByteAt(t, e + 1), TagBehind(t, e, ReaderFor(o)), p)
    ensures Fresh(buf[..], t, st)
  {
    if ch == GREATER {
      return Content(e + 1, PushFrame(p, name, []));
    } else if IsSpace(ch) {
      var tag := ParseTag(buf, e + 1, o, t);
      match tag {
        case Opened(attributes, next) =>
          return Content(next, PushFrame(p, name, attributes));
        case Closed(attributes, next) =>
          return Content(next, AddItem(p, Element(name, attributes, [])));
        case BadTag =>
          return Bad;
      }
    } else if ch == SLASH {
      assert buf[..][e + 1] == t[e + 1];
      if buf[e + 1] != GREATER {
        return Bad;
      }
      return Content(e + 2, AddItem(p, Element(name, [], [])));
    }
    return Bad;
  }

  /** The name of an end tag is compared as it is scanned. */
  method ParseEnd(buf: array<Byte>, s: nat, p: Progress, ghost t: seq<Byte>) returns (st: State)
    requires Ahead(buf[..], t, s) && s < |t| && t[|t| - 1] == 0
    ensures st == EndStep(t, s, p) && Fresh(buf[..], t, st)
  {
    if p.open == [] {
      return Bad;
    }
    var name := p.open[|p.open| - 1].name;
    var e := s;
    while IsSymbol(buf[e])
      invariant s <= e < |t| && NameEnd(t, s) == NameEnd(t, e) && e - s <= |name| && t[s..e] == name[..e - s]
      decreases |t| - e
    {
      assert buf[..][e] == t[e];
      if e - s == |name| || buf[e] != name[e - s] {
        Mismatch(t, s, e, name);
        return Bad;
      }
      assert t[s..e + 1] == t[s..e] + [t[e]] && name[..e + 1 - s] == name[..e - s] + [name[e - s]];
      e := e + 1;
    }
    assert buf[..][e] == t[e];
    if e - s != |name| {
      return Bad;
    }
    assert name[..e - s] == name;
    var k := SkipWs(buf, e, t);
    assert buf[..][k] == t[k];
    if buf[k] != GREATER {
      return Bad;
    }
    return Content(k + 1, PopFrame(p));
  }

  lemma Mismatch(t: seq<Byte>, s: nat, e: nat, name: seq<Byte>)
    requires s <= e < |t| && IsSymbol(t[e]) && NameEnd(t, s) == NameEnd(t, e) && e - s <= |name|
    requires e - s == |name| || t[e] != name[e - s]
    ensures t[s..NameEnd(t, s)] != name
  {
    var end := NameEnd(t, s);
    assert end > e && t[s..end][e - s] == t[e];
  }

  /** `strconv_pcdata`: the text, and what is behind the `<` that ends it. */
  method ReadText(buf: array<Byte>, i: nat, o: Options, ghost t: seq<Byte>)
      returns (value: seq<Byte>, next: nat, ghost stop: nat)
    requires Ahead(buf[..], t, i) && i < |t| && t[|t| - 1] == 0
    modifies buf
    ensures ReadCharacters(t, i, o) == Read(value, stop) && i <= stop < |t| && (t[stop] == LESS || t[stop] == 0)
    ensures next == (if t[stop] == LESS then stop + 1 else stop) && next < |t| && (buf[next] == 0 <==> t[next] == 0)
    ensures t[next] != 0 ==> Ahead(buf[..], t, next)
  {
    ghost var u := buf[..];
    ghost var out;
    next, out, stop := StrconvPcdata(buf, i, o, t);
    ghost var w := buf[..];
    Beyond(w, u, t, i, stop + 1);
    assert u[stop] == t[stop] && w[i..i + |out|] == buf[i..i + |out|];
    assert stop + 1 < |t| ==> w[stop + 1] == t[stop + 1];
    value := StringAt(buf, i, out);
  }

  method StrconvPcdata(buf: array<Byte>, i: nat, o: Options, ghost t: seq<Byte>)
      returns (next: nat, ghost out: seq<Byte>, ghost stop: nat)
    requires Ahead(buf[..], t, i) && i < |t| && t[|t| - 1] == 0
    modifies buf
    ensures ReadCharacters(t, i, o) == Read(CString(out), stop) && i <= stop < |t| && (t[stop] == LESS || t[stop] == 0)
    ensures next == if t[stop] == LESS then stop + 1 else stop
    ensures Converted(buf[..], old(buf[..]), i, out, stop)
  {
    ghost var u, m := buf[..], CharacterData(o);
    SameConversion(u, t, i, m);
    SameStop(u, t, i, m);
    assert u[|t| - 1] == t[|t| - 1];
    out, stop := Trimmed(Convert(t, i, m), o.trim), StopAt(t, i, m);
    next := ParsePcdata(buf, i, o.trim, o.eol, o.escapes, buf.Length - 1);
    assert u[stop] == t[stop];
  }

  /** Content that is not a tag: white space to skip, or character data. */
  method ParseText(buf: array<Byte>, mark: nat, p: Progress, o: Options, ghost t: seq<Byte>) returns (st: State)
    requires Ahead(buf[..], t, mark) && mark < |t| && t[|t| - 1] == 0 && t[mark] != LESS && t[mark] != 0
    modifies buf
    ensures st == ContentStep(t, mark, p, ReaderFor(o)) && Fresh(buf[..], t, st)
  {
    var k := SkipWs(buf, mark, t);
    assert buf[..][k] == t[k];
    if buf[k] == LESS || buf[k] == 0 {
      assert k + 1 < |t| ==> buf[..][k + 1] == t[k + 1];
      var first := if p.open == [] then p.top == [] else p.open[|p.open| - 1].children == [];
      if !(o.wsPcdata || o.wsSingle) || o.trim {
        return Content(k, p);
      } else if o.wsSingle && (buf[k] != LESS || buf[k + 1] != SLASH || !first) {
        return Content(k, p);
      }
    }
    var s := if o.trim then k else mark;
    if p.open != [] || o.fragment {
      st := ParseData(buf, s, p, o, t);
    } else {
      st := SkipData(buf, s, p, t);
    }
  }

  method ParseData(buf: array<Byte>, s: nat, p: Progress, o: Options, ghost t: seq<Byte>) returns (st: State)
    requires Ahead(buf[..], t, s) && s < |t| && t[|t| - 1] == 0 && (p.open != [] || o.fragment)
    modifies buf
    ensures st == TextStep(t, s, p, ReaderFor(o)) && Fresh(buf[..], t, st)
  {
    var value, next;
    ghost var stop;
    value, next, stop := ReadText(buf, s, o, t);
    assert ReaderFor(o).text(t, s) == Read(value, stop);
    var q := AddItem(p, Item.Text(value));
    if buf[next] == 0 {
      return if q.open == [] then Finished(q) else Bad;
    }
    return State.Markup(next, q);
  }

  /** Character data outside of elements is passed over. */
  method SkipData(buf: array<Byte>, s: nat, p: Progress, ghost t: seq<Byte>) returns (st: State)
    requires Ahead(buf[..], t, s) && s < |t| && t[|t| - 1] == 0 && p.open == []
    ensures (var k := FindLess(t, s); st == if ByteAt(t, k) == LESS then State.Markup(k + 1, p) else Ended(p))
    ensures Fresh(buf[..], t, st)
  {
    var k := s;
    while buf[k] != LESS && buf[k] != 0
      invariant s <= k < |t| && FindLess(t, s) == FindLess(t, k)
      decreases |t| - k
    {
      assert buf[..][k] == t[k];
      k := k + 1;
    }
    assert buf[..][k] == t[k];
    return if buf[k] == LESS then State.Markup(k + 1, p) else Finished(p);
  }

  method ParseMarkup(buf: array<Byte>, s: nat, p: Progress, o: Options, ghost t: seq<Byte>) returns (st: State)
    requires Ahead(buf[..], t, s) && s < |t| && t[|t| - 1] == 0
    modifies buf
    ensures st == MarkupStep(t, s, p, ReaderFor(o)) && Fresh(buf[..], t, st)
  {
    var c := buf[s];
    assert buf[..][s] == t[s];
    if IsStartSymbol(c) {
      st := ParseStart(buf, s, p, o, t);
    } else if c == SLASH {
      st := ParseEnd(buf, s + 1, p, t);
    } else if c == QUESTION || c == EXCLAMATION {
      st := Other;
    } else {
      st := Bad;
    }
  }

  /** `parse_tree`, from `s` on. */
  method ParseTree(buf: array<Byte>, s: nat, o: Options) returns (result: State)
    requires s < buf.Length && buf[buf.Length - 1] == 0
    modifies buf
    ensures result == Run(old(buf[..]), Content(s, Progress([], [])), ReaderFor(o))
  {
    ghost var t, r := buf[..], ReaderFor(o);
    var st := Content(s, Progress([], []));
    while st.Content? || st.Markup?
      invariant Fresh(buf[..], t, st) && Run(t, Content(s, Progress([], [])), r) == Run(t, st, r)
      decreases 2 * |t| + 2 - Reached(t, st)
    {
      ghost var before := st;
      OneStep(t, st, r);
      if st.Content? {
        var c := buf[st.at];
        assert buf[..][st.at] == t[st.at];
        if c == 0 {
          st := if st.p.open == [] then Finished(st.p) else Bad;
        } else if c == LESS {
          st := State.Markup(st.at + 1, st.p);
        } else {
          st := ParseText(buf, st.at, st.p, o, t);
        }
      } else {
        st := ParseMarkup(buf, st.at, st.p, o, t);
      }
      assert st == Step(t, before, r);
    }
    result := st;
  }

  lemma OneStep(t: seq<Byte>, st: State, r: Reader)
    requires (st.Content? || st.Markup?) && st.at <= |t|
    ensures Run(t, st, r) == Run(t, Step(t, st, r), r) && Reached(t, st) < Reached(t, Step(t, st, r)) <= 2 * |t| + 2
  {
  }

  /** `parse`: the whole document, in a buffer that a NUL ends. */
  method ParseDocument(buf: array<Byte>, o: Options) returns (result: Result)
    requires buf.Length > 0 && buf[buf.Length - 1] == 0
    modifies buf
    ensures result == Parse(old(buf[..]), o)
  {
    var s := 0;
    if buf.Length > 3 && buf[0] == 0xEF && buf[1] == 0xBB && buf[2] == 0xBF {
      s := 3;
    }
    assert s == MarkupParser.Start(buf[..]);
    var st := ParseTree(buf, s, o);
    match st {
      case Finished(p) =>
        if o.fragment {
          return MarkupParser.Parsed(p.top);
        }
        var i := 0;
        while i < |p.top|
          invariant i <= |p.top| && forall j :: 0 <= j < i ==> !p.top[j].Element?
        {
          if p.top[i].Element? {
            return MarkupParser.Parsed(p.top);
          }
          i := i + 1;
        }
        return MarkupParser.Failed;
      case Other => return NotModelled;
      case _ => return MarkupParser.Failed;
    }
  }
}
