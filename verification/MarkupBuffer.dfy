/** Printing into a buffer and parsing it there: the NUL that ends the buffer makes no
    difference to what is parsed. */
module MarkupBuffer {
  import opened Escapes
  import opened Markup
  import opened MarkupParser
  import opened MarkupRoundTrip
  import DomLinks
  import DomTree
  import DomPrinter
  import opened MarkupLoop

  // ---------- the terminating NUL ----------

  function Terminated(t: seq<Byte>): seq<Byte> {
    t + [0]
  }

  lemma {:induction false} DigitsNul(t: seq<Byte>, j: nat, base: nat)
    requires j <= |t|
    ensures DigitsEnd(Terminated(t), j, base) == DigitsEnd(t, j, base)
    decreases |t| - j
  {
    if j < |t| {
      DigitsNul(t, j + 1, base);
    }
  }

  lemma {:induction false} NumberNul(t: seq<Byte>, j: nat, e: nat, base: nat)
    requires j <= e <= |t|
    ensures Number(Terminated(t), j, e, base) == Number(t, j, e, base)
    decreases e
  {
    if j < e {
      NumberNul(t, j, e - 1, base);
      assert Terminated(t)[e - 1] == t[e - 1];
    }
  }

  lemma NumericNul(t: seq<Byte>, j: nat, base: nat)
    requires j <= |t|
    ensures Numeric(Terminated(t), j, base) == Numeric(t, j, base)
  {
    DigitsNul(t, j, base);
    NumberNul(t, j, DigitsEnd(t, j, base), base);
  }

  lemma ReferenceNul(t: seq<Byte>, i: nat)
    requires i < |t|
    ensures ReferenceAt(Terminated(t), i) == ReferenceAt(t, i)
  {
    forall k: nat, c: Byte | c != 0 ensures At(Terminated(t), k, c) == At(t, k, c) {
    }
    if At(t, i + 1, HASH) {
      if At(t, i + 2, 120) {
        NumericNul(t, i + 3, 16);
      } else {
        NumericNul(t, i + 2, 10);
      }
    }
  }

  lemma PieceNul(t: seq<Byte>, i: nat, m: Mode)
    requires i < |t|
    ensures Piece(Terminated(t), i, m) == Piece(t, i, m)
  {
    ReferenceNul(t, i);
    assert Terminated(t)[i] == t[i];
  }

  lemma {:induction false} ConvertNul(t: seq<Byte>, i: nat, m: Mode)
    requires i <= |t|
    ensures Convert(Terminated(t), i, m) == Convert(t, i, m) && StopAt(Terminated(t), i, m) == StopAt(t, i, m)
    decreases |t| - i
  {
    if i < |t| && !Ends(t[i], m) {
      PieceNul(t, i, m);
      ConvertNul(t, Piece(t, i, m).1, m);
      StopNul(t, i, m);
    }
  }

  lemma {:induction false} StopNul(t: seq<Byte>, i: nat, m: Mode)
    requires i <= |t|
    ensures StopAt(Terminated(t), i, m) == StopAt(t, i, m)
    decreases |t| - i
  {
    if i < |t| && !Ends(t[i], m) {
      StopNul(t, i + 1, m);
    }
  }

  lemma BytesNul(t: seq<Byte>, i: nat)
    ensures ByteAt(Terminated(t), i) == ByteAt(t, i)
  {
  }

  lemma {:induction false} SpacesNul(t: seq<Byte>, i: nat)
    requires i <= |t|
    ensures SkipSpaces(Terminated(t), i) == SkipSpaces(t, i)
    decreases |t| - i
  {
    if i < |t| {
      SpacesNul(t, i + 1);
    }
  }

  lemma {:induction false} NameNul(t: seq<Byte>, i: nat)
    requires i <= |t|
    ensures NameEnd(Terminated(t), i) == NameEnd(t, i)
    ensures Terminated(t)[i..NameEnd(t, i)] == t[i..NameEnd(t, i)]
    decreases |t| - i
  {
    if i < |t| {
      NameNul(t, i + 1);
    }
  }

  lemma {:induction false} LessNul(t: seq<Byte>, i: nat)
    requires i <= |t|
    ensures FindLess(Terminated(t), i) == FindLess(t, i)
    decreases |t| - i
  {
    if i < |t| {
      LessNul(t, i + 1);
    }
  }

  /** What a reader makes of a text does not depend on the NUL. */
  ghost predicate SameReads(t: seq<Byte>, r: Reader) {
    && (forall i: nat, q: Byte {:trigger r.attribute(Terminated(t), i, q)} :: i <= |t| && q != 0 ==>
          r.attribute(Terminated(t), i, q) == r.attribute(t, i, q))
    && (forall i: nat {:trigger r.text(Terminated(t), i)} :: i <= |t| ==> r.text(Terminated(t), i) == r.text(t, i))
    && (forall i: nat, q: Byte {:trigger r.attribute(Terminated(t), i, q)} :: i > |t| ==>
          r.attribute(Terminated(t), i, q).Unread? && r.attribute(t, i, q).Unread?)
  }

  lemma ReaderNul(t: seq<Byte>, o: Options)
    ensures SameReads(t, ReaderFor(o))
  {
    forall i: nat, q: Byte | i <= |t| && q != 0 ensures ReadAttribute(Terminated(t), i, q, o) == ReadAttribute(t, i, q, o) {
      ConvertNul(t, i, AttributeText(q, o));
    }
    forall i: nat | i <= |t| ensures ReadCharacters(Terminated(t), i, o) == ReadCharacters(t, i, o) {
      ConvertNul(t, i, CharacterData(o));
    }
    forall i: nat, q: Byte | i > |t| ensures ReadAttribute(Terminated(t), i, q, o).Unread? {
    }
  }

  lemma AllBytesNul(t: seq<Byte>)
    ensures forall i: nat :: ByteAt(Terminated(t), i) == ByteAt(t, i)
  {
  }

  lemma ValueNul(t: seq<Byte>, i: nat, name: seq<Byte>, r: Reader)
    requires SameReads(t, r) && i <= |t| && Bounded(t, r)
    ensures ParseValue(Terminated(t), i, name, r) == ParseValue(t, i, name, r)
  {
    AllBytesNul(t);
    var q := ByteAt(t, i);
    if q == QUOTE || q == APOSTROPHE {
      assert r.attribute(Terminated(t), i + 1, q) == r.attribute(t, i + 1, q);
    }
  }

  /** A reader stays in the text. */
  ghost predicate Bounded(t: seq<Byte>, r: Reader) {
    && (forall i: nat, q: Byte {:trigger r.attribute(t, i, q)} :: r.attribute(t, i, q).Read? ==> r.attribute(t, i, q).next <= |t|)
    && (forall i: nat {:trigger r.text(t, i)} :: r.text(t, i).Read? ==> r.text(t, i).next <= |t|)
  }

  /** Where the equals sign of an attribute is looked for. */
  function EqualsAt(t: seq<Byte>, e: nat): (k: nat)
    requires e <= |t|
    ensures e <= k && (e < |t| ==> k <= |t|)
  {
    if IsSpace(ByteAt(t, e)) then SkipSpaces(t, e + 1) else e
  }

  lemma EqualsNul(t: seq<Byte>, e: nat)
    requires e <= |t|
    ensures EqualsAt(Terminated(t), e) == EqualsAt(t, e) <= |t|
  {
    BytesNul(t, e);
    if IsSpace(ByteAt(t, e)) {
      SpacesNul(t, e + 1);
    }
  }

  /** The parts that an attribute is read from are the same. */
  lemma AttributeParts(t: seq<Byte>, i: nat, r: Reader) returns (e: nat, k: nat, v: nat)
    requires SameReads(t, r) && i <= |t| && Bounded(t, r)
    ensures e == NameEnd(t, i) == NameEnd(Terminated(t), i) && Terminated(t)[i..e] == t[i..e]
    ensures k == EqualsAt(t, e) == EqualsAt(Terminated(t), e) <= |t| && ByteAt(Terminated(t), k) == ByteAt(t, k)
    ensures ByteAt(t, k) == EQUALS ==>
              k < |t| && v == SkipSpaces(t, k + 1) == SkipSpaces(Terminated(t), k + 1)
              && ParseValue(Terminated(t), v, t[i..e], r) == ParseValue(t, v, t[i..e], r)
  {
    NameNul(t, i);
    e := NameEnd(t, i);
    EqualsNul(t, e);
    k, v := EqualsAt(t, e), 0;
    BytesNul(t, k);
    if ByteAt(t, k) == EQUALS {
      SpacesNul(t, k + 1);
      v := SkipSpaces(t, k + 1);
      ValueNul(t, v, t[i..e], r);
    }
  }

  lemma AttributeFrom(t: seq<Byte>, i: nat, r: Reader, e: nat, k: nat)
    requires i <= |t| && e == NameEnd(t, i) && k == EqualsAt(t, e)
    ensures ParseAttribute(t, i, r) == if ByteAt(t, k) != EQUALS then BadAttribute else ParseValue(t, SkipSpaces(t, k + 1), t[i..e], r)
  {
  }

  lemma AttributeNul(t: seq<Byte>, i: nat, r: Reader)
    requires SameReads(t, r) && i <= |t| && Bounded(t, r)
    ensures ParseAttribute(Terminated(t), i, r) == ParseAttribute(t, i, r)
  {
    var e, k, v := AttributeParts(t, i, r);
    AttributeFrom(t, i, r, e, k);
    AttributeFrom(Terminated(t), i, r, e, k);
  }

  lemma {:induction false} AttributesNul(t: seq<Byte>, i: nat, r: Reader)
    requires SameReads(t, r) && i <= |t| && Bounded(t, r)
    ensures ParseAttributes(Terminated(t), i, r) == ParseAttributes(t, i, r)
    decreases |t| - i
  {
    SpacesNul(t, i);
    var s := SkipSpaces(t, i);
    AllBytesNul(t);
    if IsStartSymbol(ByteAt(t, s)) {
      AttributeNul(t, s, r);
      var a := ParseAttribute(t, s, r);
      if a.Attribute? {
        AttributesNul(t, a.next, r);
      }
    }
  }

  lemma TagNul(t: seq<Byte>, e: nat, r: Reader)
    requires SameReads(t, r) && e <= |t| && Bounded(t, r)
    ensures TagBehind(Terminated(t), e, r) == TagBehind(t, e, r)
  {
    BytesNul(t, e);
    if IsSpace(ByteAt(t, e)) {
      AttributesNul(t, e + 1, r);
    }
  }

  lemma StartNul(t: seq<Byte>, s: nat, p: Progress, r: Reader)
    requires SameReads(t, r) && s < |t| && Bounded(t, r)
    ensures StartStep(Terminated(t), s, p, r) == StartStep(t, s, p, r)
  {
    NameNul(t, s);
    var e := NameEnd(t, s);
    BytesNul(t, e);
    BytesNul(t, e + 1);
    TagNul(t, e, r);
  }

  lemma EndNul(t: seq<Byte>, s: nat, p: Progress)
    requires s <= |t|
    ensures EndStep(Terminated(t), s, p) == EndStep(t, s, p)
  {
    NameNul(t, s);
    AllBytesNul(t);
    SpacesNul(t, NameEnd(t, s));
  }

  lemma TextNul(t: seq<Byte>, from: nat, p: Progress, r: Reader)
    requires SameReads(t, r) && from <= |t| && Bounded(t, r)
    ensures TextStep(Terminated(t), from, p, r) == TextStep(t, from, p, r)
  {
    AllBytesNul(t);
    if p.open != [] || r.o.fragment {
      assert r.text(Terminated(t), from) == r.text(t, from);
    } else {
      LessNul(t, from);
    }
  }

  lemma StepNul(t: seq<Byte>, st: State, r: Reader)
    requires SameReads(t, r) && Bounded(t, r) && (st.Content? || st.Markup?) && st.at <= |t|
    ensures Step(Terminated(t), st, r) == Step(t, st, r)
  {
    BytesNul(t, st.at);
    if st.Content? {
      SpacesNul(t, st.at);
      AllBytesNul(t);
      var k := SkipSpaces(t, st.at);
      TextNul(t, if r.o.trim then k else st.at, st.p, r);
    } else if IsStartSymbol(ByteAt(t, st.at)) {
      StartNul(t, st.at, st.p, r);
    } else if ByteAt(t, st.at) == SLASH {
      EndNul(t, st.at + 1, st.p);
    }
  }

  lemma {:induction false} RunNul(t: seq<Byte>, st: State, r: Reader)
    requires SameReads(t, r) && Bounded(t, r) && (st.Content? || st.Markup? ==> st.at <= |t|)
    ensures Run(Terminated(t), st, r) == Run(t, st, r)
    decreases 2 * |t| + 2 - Reached(t, st)
  {
    if st.Content? || st.Markup? {
      StepNul(t, st, r);
      RunNul(t, Step(t, st, r), r);
    }
  }

  /** The NUL that ends the buffer makes no difference. */
  lemma ParseNul(t: seq<Byte>, o: Options)
    ensures Parse(Terminated(t), o) == Parse(t, o)
  {
    AllBytesNul(t);
    ReaderNul(t, o);
    RunNul(t, Content(Start(t), Progress([], [])), ReaderFor(o));
  }

  // ---------- through the buffer ----------

  /** Prints a document, ends the printout with a NUL, and parses it in place. */
  method PrintAndParse(d: DomTree.Store, root: DomLinks.Node, f: Format, o: Options, depth: nat, ghost xs: seq<Item>)
    returns (result: Result)
    requires d.Mirrors() && root in d.trees.nodes && DomPrinter.ItemAt(d.trees, root) == Document(xs)
    requires Reads(f, o) && PrintableAll(xs) && OnlyElements(xs) && xs != []
    ensures result == Parsed(BackAll(xs, o))
    ensures result == Parsed(xs) <==> !o.eol || NoReturnsIn(xs)
  {
    var out := DomPrinter.NodeOutput(d, root, f, depth);
    var bytes := out + [0];
    var buf := new Byte[|bytes|](i requires 0 <= i < |bytes| => bytes[i]);
    assert buf[..] == Terminated(out);
    result := ParseDocument(buf, o);
    ParseNul(out, o);
    RoundTrip(xs, f, o, depth);
    BackAllSame(xs, o);
  }
}
