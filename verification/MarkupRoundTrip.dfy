/** Parsing the printout of a document gives the document back: of the raw one always, and of one
    with line ends and indentation if the parser drops the white space between tags. */
module MarkupRoundTrip {
  import opened Escapes
  import opened EscapedText
  import opened Markup
  import opened MarkupParser

  // ---------- what can be printed ----------

  predicate ValidName(name: seq<Byte>) {
    name != [] && IsStartSymbol(name[0]) && forall c :: c in name ==> IsSymbol(c)
  }

  predicate ValidAttribute(a: Attr) {
    ValidName(a.name) && 0 !in a.value
  }

  predicate ValidAttributes(s: seq<Attr>) {
    s == [] || (ValidAttribute(s[0]) && ValidAttributes(s[1..]))
  }

  predicate Blank(value: seq<Byte>) {
    forall c :: c in value ==> IsSpace(c)
  }

  /** Elements with names that the parser reads as names, and character data that is not
      blank and does not stand next to other character data. */
  predicate Printable(x: Item)
    decreases x
  {
    match x
    case Text(value) => 0 !in value && !Blank(value)
    case Element(name, attributes, children) =>
      ValidName(name) && ValidAttributes(attributes) && PrintableAll(children)
    case Document(_) => false
    case Leaf(_) => false
  }

  predicate PrintableAll(xs: seq<Item>)
    decreases xs
  {
    xs == [] || (Printable(xs[0]) && PrintableAll(xs[1..]) && (|xs| > 1 ==> !(xs[0].Text? && xs[1].Text?)))
  }

  /** What the parser makes of it: the same, but for the line ends in character data. */
  function BackItem(x: Item, o: Options): Item
    decreases x
  {
    match x
    case Text(value) => Text(Back(value, CharacterData(o)))
    case Element(name, attributes, children) => Element(name, attributes, BackAll(children, o))
    case Document(children) => Document(BackAll(children, o))
    case Leaf(_) => x
  }

  function BackAll(xs: seq<Item>, o: Options): (ys: seq<Item>)
    ensures |ys| == |xs|
    decreases xs
  {
    if xs == [] then [] else [BackItem(xs[0], o)] + BackAll(xs[1..], o)
  }

  /** A printout with white space between the tags, or, where there is to be none, without. */
  predicate Sensible(f: Format) {
    Blank(f.indent) && (f.raw ==> f.indent == []) && f.escapes && !f.skipControl
  }

  /** The formats and options of the round trip. */
  predicate Reads(f: Format, o: Options) {
    Sensible(f) && o.escapes && !o.trim && (f.raw || !o.wsPcdata)
  }

  function ValueStyle(f: Format): Style {
    Style(true, f.singleQuote, f.skipControl)
  }

  function TextStyleOf(f: Format): Style {
    Style(false, f.singleQuote, f.skipControl)
  }

  /** The conversions of `r` undo the escaping of format `f`. */
  ghost predicate Undoes(r: Reader, f: Format) {
    && (forall t: seq<Byte>, i: nat, v: seq<Byte> {:trigger Printed(t, i, v, ValueStyle(f), Quote(f))} ::
          0 !in v && Printed(t, i, v, ValueStyle(f), Quote(f)) ==>
          r.attribute(t, i, Quote(f)) == Read(v, i + |Escape(v, ValueStyle(f))| + 1))
    && (forall t: seq<Byte>, i: nat, v: seq<Byte> {:trigger Printed(t, i, v, TextStyleOf(f), LESS)} ::
          0 !in v && Printed(t, i, v, TextStyleOf(f), LESS) ==>
          r.text(t, i) == Read(Back(v, CharacterData(r.o)), i + |Escape(v, TextStyleOf(f))|))
  }

  lemma ReaderUndoes(f: Format, o: Options)
    requires Reads(f, o)
    ensures Undoes(ReaderFor(o), f)
  {
    var r := ReaderFor(o);
    forall t: seq<Byte>, i: nat, v: seq<Byte> | 0 !in v && Printed(t, i, v, ValueStyle(f), Quote(f))
      ensures r.attribute(t, i, Quote(f)) == Read(v, i + |Escape(v, ValueStyle(f))| + 1)
    {
      UndoesValue(t, i, v, f, o);
    }
    forall t: seq<Byte>, i: nat, v: seq<Byte> | 0 !in v && Printed(t, i, v, TextStyleOf(f), LESS)
      ensures r.text(t, i) == Read(Back(v, CharacterData(r.o)), i + |Escape(v, TextStyleOf(f))|)
    {
      UndoesText(t, i, v, f, o);
    }
  }

  lemma UndoesValue(t: seq<Byte>, i: nat, v: seq<Byte>, f: Format, o: Options)
    requires Reads(f, o) && 0 !in v && Printed(t, i, v, ValueStyle(f), Quote(f))
    ensures ReadAttribute(t, i, Quote(f), o) == Read(v, i + |Escape(v, ValueStyle(f))| + 1)
  {
    var stop := i + |Escape(v, ValueStyle(f))|;
    assert stop < |t| && t[stop] == Quote(f);
    AttributeRoundTrip(t, i, v, ValueStyle(f), AttributeText(Quote(f), o));
    ReadAttributeIs(t, i, Quote(f), o, v, stop);
  }

  lemma ReadAttributeIs(t: seq<Byte>, i: nat, q: Byte, o: Options, v: seq<Byte>, stop: nat)
    requires i <= stop < |t| && t[stop] == q
    requires StopAt(t, i, AttributeText(q, o)) == stop && Convert(t, i, AttributeText(q, o)) == v && 0 !in v
    ensures ReadAttribute(t, i, q, o) == Read(v, stop + 1)
  {
  }

  lemma UndoesText(t: seq<Byte>, i: nat, v: seq<Byte>, f: Format, o: Options)
    requires Reads(f, o) && 0 !in v && Printed(t, i, v, TextStyleOf(f), LESS)
    ensures ReadCharacters(t, i, o) == Read(Back(v, CharacterData(o)), i + |Escape(v, TextStyleOf(f))|)
  {
    TextRoundTrip(t, i, v, TextStyleOf(f), CharacterData(o));
    BackNoNul(v, CharacterData(o));
  }

  lemma {:induction false} BackNoNul(v: seq<Byte>, m: Mode)
    requires 0 !in v
    ensures 0 !in Back(v, m)
    decreases |v|
  {
    if v != [] {
      BackStep(v, m);
      BackNoNul(v[Width(v, m)..], m);
    }
  }

  // ---------- white space ----------

  /** There is nothing but white space from `i` to `k`. */
  ghost predicate Spaces(t: seq<Byte>, i: nat, k: nat) {
    i <= k <= |t| && forall j :: i <= j < k ==> IsSpace(t[j])
  }

  lemma {:induction false} SpacesSkipped(t: seq<Byte>, i: nat, k: nat)
    requires Spaces(t, i, k) && !IsSpace(ByteAt(t, k))
    ensures SkipSpaces(t, i) == k
    decreases k - i
  {
    if i < k {
      SpacesSkipped(t, i + 1, k);
    }
  }

  lemma {:induction false} IndentationBlank(indent: seq<Byte>, depth: nat)
    requires Blank(indent)
    ensures Blank(Indentation(indent, depth)) && (indent == [] ==> Indentation(indent, depth) == [])
  {
    if depth > 0 {
      IndentationBlank(indent, depth - 1);
    }
  }

  /** In front of a tag stands nothing but white space; nothing at all in the raw format, and
      behind character data. */
  lemma LeadBlank(f: Format, depth: nat, due: Due)
    requires Sensible(f)
    ensures Blank(Lead(f, depth, due)) && (f.raw || due == NONE ==> Lead(f, depth, due) == [])
  {
    IndentationBlank(f.indent, depth);
  }

  lemma AttributesRaw(s: seq<Attr>, f: Format, depth: nat)
    requires f.raw
    ensures PrintAttributes(s, f, depth) == PrintAttributes(s, f, 0)
    decreases s
  {
    if s != [] {
      assert PrintAttribute(s[0], f, depth) == PrintAttribute(s[0], f, 0);
      AttributesRaw(s[1..], f, depth);
    }
  }

  /** In the raw format, depth and line ends do not matter. */
  lemma {:induction false} RawIsPrinted(x: Item, f: Format, depth: nat, due: Due)
    requires Sensible(f) && f.raw
    ensures PrintItem(x, f, depth, due).bytes == PrintItem(x, f, 0, NONE).bytes
    decreases x, 0
  {
    LeadBlank(f, depth, due);
    LeadBlank(f, 0, NONE);
    match x {
      case Text(_) =>
      case Leaf(_) =>
      case Document(children) =>
        RawAllPrinted(children, f, depth, INDENT);
        RawAllPrinted(children, f, 0, INDENT);
      case Element(_, attributes, children) =>
        AttributesRaw(attributes, f, depth);
        assert StartTag(x, f, depth) == StartTag(x, f, 0);
        if children != [] {
          RawAllPrinted(children, f, depth + 1, BOTH);
          RawAllPrinted(children, f, 1, BOTH);
          LeadBlank(f, depth, PrintList(children, f, depth + 1, BOTH).due);
          LeadBlank(f, 0, PrintList(children, f, 1, BOTH).due);
        }
    }
  }

  lemma {:induction false} RawAllPrinted(xs: seq<Item>, f: Format, depth: nat, due: Due)
    requires Sensible(f) && f.raw
    ensures PrintList(xs, f, depth, due).bytes == PrintList(xs, f, 0, NONE).bytes
    decreases xs, 1
  {
    if xs != [] {
      var first, plain := PrintItem(xs[0], f, depth, due), PrintItem(xs[0], f, 0, NONE);
      RawIsPrinted(xs[0], f, depth, due);
      RawAllPrinted(xs[1..], f, depth, first.due);
      RawAllPrinted(xs[1..], f, 0, plain.due);
    }
  }

  // ---------- names and attributes ----------

  /** The bytes `w` stand at `i`. */
  ghost predicate Here(t: seq<Byte>, i: nat, w: seq<Byte>) {
    i + |w| <= |t| && forall k {:trigger w[k]} :: 0 <= k < |w| ==> t[i + k] == w[k]
  }

  lemma HereSplit(t: seq<Byte>, i: nat, a: seq<Byte>, b: seq<Byte>)
    requires Here(t, i, a + b)
    ensures Here(t, i, a) && Here(t, i + |a|, b)
  {
    forall k | 0 <= k < |a| ensures t[i + k] == a[k] {
      assert (a + b)[k] == a[k];
    }
    forall k | 0 <= k < |b| ensures t[i + |a| + k] == b[k] {
      assert (a + b)[|a| + k] == b[k];
    }
  }

  lemma HereByte(t: seq<Byte>, i: nat, w: seq<Byte>, k: nat)
    requires Here(t, i, w) && k < |w|
    ensures i + k < |t| && t[i + k] == w[k]
  {
  }

  lemma HereSlice(t: seq<Byte>, i: nat, w: seq<Byte>)
    requires Here(t, i, w)
    ensures t[i..i + |w|] == w
  {
  }

  lemma HereBlank(t: seq<Byte>, i: nat, w: seq<Byte>)
    requires Here(t, i, w) && Blank(w)
    ensures Spaces(t, i, i + |w|)
  {
    forall j | i <= j < i + |w| ensures IsSpace(t[j]) {
      HereByte(t, i, w, j - i);
      assert w[j - i] in w;
    }
  }

  lemma {:induction false} NameRead(t: seq<Byte>, i: nat, name: seq<Byte>)
    requires Here(t, i, name) && (forall c :: c in name ==> IsSymbol(c)) && !IsSymbol(ByteAt(t, i + |name|))
    ensures NameEnd(t, i) == i + |name|
    decreases |name|
  {
    if name != [] {
      HereByte(t, i, name, 0);
      assert name == [name[0]] + name[1..];
      HereSplit(t, i, [name[0]], name[1..]);
      NameRead(t, i + 1, name[1..]);
    }
  }

  /** What stands in front of an attribute. */
  function AttributeLead(f: Format, depth: nat): (w: seq<Byte>)
    ensures w != []
  {
    if f.indentAttributes && !f.raw then [NEWLINE] + Indentation(f.indent, depth + 1) else [SPACE]
  }

  function Regrouped(a: Attr, f: Format, depth: nat): seq<Byte> {
    AttributeLead(f, depth) + (a.name + ([EQUALS, Quote(f)] + (PrintText(a.value, true, f) + [Quote(f)])))
  }

  lemma RegroupedIs(a: Attr, f: Format, depth: nat)
    ensures PrintAttribute(a, f, depth) == Regrouped(a, f, depth)
  {
  }

  lemma AttributeLeadBlank(f: Format, depth: nat)
    requires Sensible(f)
    ensures Blank(AttributeLead(f, depth))
  {
    IndentationBlank(f.indent, depth + 1);
  }

  /** An equals sign, with what white space there may be before it and behind it. */
  ghost predicate EqualsAt(t: seq<Byte>, e: nat, q: nat, b: nat) {
    Spaces(t, e, q) && q < |t| && t[q] == EQUALS && Spaces(t, q + 1, b)
  }

  /** A value between quotes. */
  ghost predicate ValueAt(t: seq<Byte>, b: nat, a: Attr, f: Format, end: nat) {
    && b + 1 < end <= |t| && t[b] == Quote(f)
    && Printed(t, b + 1, a.value, ValueStyle(f), Quote(f)) && end == b + 1 + |Escape(a.value, ValueStyle(f))| + 1
  }

  /** The attribute `a` stands at `i`, with white space up to `k` in front of it. */
  ghost predicate AttributeAt(t: seq<Byte>, i: nat, k: nat, a: Attr, f: Format, end: nat) {
    && i < k && Spaces(t, i, k) && Here(t, k, a.name)
    && exists e: nat, q: nat, b: nat :: e == k + |a.name| && EqualsAt(t, e, q, b) && ValueAt(t, b, a, f, end)
  }

  lemma AttributeLayout(t: seq<Byte>, i: nat, a: Attr, f: Format, depth: nat)
    requires Sensible(f) && Here(t, i, Regrouped(a, f, depth))
    ensures AttributeAt(t, i, i + |AttributeLead(f, depth)|, a, f, i + |Regrouped(a, f, depth)|)
  {
    var q, body, lead := Quote(f), PrintText(a.value, true, f), AttributeLead(f, depth);
    AttributeLeadBlank(f, depth);
    LaidOut(t, i, a, f, lead, q, body);
  }

  lemma LaidOut(t: seq<Byte>, i: nat, a: Attr, f: Format, lead: seq<Byte>, q: Byte, body: seq<Byte>)
    requires Blank(lead) && lead != [] && q == Quote(f) && body == Escape(a.value, ValueStyle(f))
    requires Here(t, i, lead + (a.name + ([EQUALS, q] + (body + [q]))))
    ensures AttributeAt(t, i, i + |lead|, a, f, i + |lead| + |a.name| + |body| + 3)
  {
    var k := i + |lead|;
    var e := k + |a.name|;
    Layout(t, i, lead, a.name, q, body);
    HereBlank(t, i, lead);
    ValuePrinted(t, e + 1, a.value, q, body, ValueStyle(f));
    assert EqualsAt(t, e, e, e + 1) && ValueAt(t, e + 1, a, f, i + |lead| + |a.name| + |body| + 3);
  }

  lemma ValuePrinted(t: seq<Byte>, i: nat, value: seq<Byte>, q: Byte, body: seq<Byte>, style: Style)
    requires Here(t, i, [q] + (body + [q])) && body == Escape(value, style)
    ensures i + 1 + |body| < |t| && t[i] == q && Printed(t, i + 1, value, style, q)
  {
    HereSplit(t, i, [q], body + [q]);
    HereByte(t, i, [q], 0);
    HereSplit(t, i + 1, body, [q]);
    HereByte(t, i + 1 + |body|, [q], 0);
    HereSlice(t, i + 1, body);
  }

  lemma Layout(t: seq<Byte>, i: nat, lead: seq<Byte>, name: seq<Byte>, q: Byte, body: seq<Byte>)
    requires Here(t, i, lead + (name + ([EQUALS, q] + (body + [q]))))
    ensures var k := i + |lead|; var e := k + |name|;
      && e + 1 < |t| && Here(t, i, lead) && Here(t, k, name)
      && t[e] == EQUALS && t[e + 1] == q && Here(t, e + 1, [q] + (body + [q]))
  {
    var tail := [EQUALS, q] + (body + [q]);
    HereSplit(t, i, lead, name + tail);
    HereSplit(t, i + |lead|, name, tail);
    var e := i + |lead| + |name|;
    HereByte(t, e, tail, 0);
    HereByte(t, e, tail, 1);
    assert tail == [EQUALS] + ([q] + (body + [q]));
    HereSplit(t, e, [EQUALS], [q] + (body + [q]));
  }

  lemma WholeName(t: seq<Byte>, k: nat, name: seq<Byte>)
    requires ValidName(name) && Here(t, k, name) && !IsSymbol(ByteAt(t, k + |name|))
    ensures var e := k + |name|; k < e <= |t| && NameEnd(t, k) == e && t[k..e] == name && IsStartSymbol(t[k])
  {
    HereByte(t, k, name, 0);
    NameRead(t, k, name);
    HereSlice(t, k, name);
  }

  lemma ValueRead(t: seq<Byte>, b: nat, a: Attr, f: Format, r: Reader, end: nat)
    requires Undoes(r, f) && 0 !in a.value && ValueAt(t, b, a, f, end) && !IsStartSymbol(ByteAt(t, end))
    ensures ParseValue(t, b, a.name, r) == Attribute(a, end) && !IsSpace(t[b])
  {
    assert r.attribute(t, b + 1, Quote(f)) == Read(a.value, end);
  }

  lemma EqualsRead(t: seq<Byte>, e: nat, q: nat, b: nat)
    requires EqualsAt(t, e, q, b) && !IsSpace(ByteAt(t, b))
    ensures e < |t| && !IsSymbol(t[e]) && (if IsSpace(t[e]) then SkipSpaces(t, e + 1) else e) == q && SkipSpaces(t, q + 1) == b
  {
    SpacesSkipped(t, e, q);
    SpacesSkipped(t, q + 1, b);
  }

  lemma AttributeRead(t: seq<Byte>, i: nat, k: nat, a: Attr, f: Format, r: Reader, end: nat)
    requires Undoes(r, f) && ValidAttribute(a) && AttributeAt(t, i, k, a, f, end) && !IsStartSymbol(ByteAt(t, end))
    ensures k <= |t| && SkipSpaces(t, i) == k && IsStartSymbol(ByteAt(t, k))
    ensures ParseAttribute(t, k, r) == Attribute(a, end)
  {
    var e: nat, q: nat, b: nat :| e == k + |a.name| && EqualsAt(t, e, q, b) && ValueAt(t, b, a, f, end);
    ValueRead(t, b, a, f, r, end);
    EqualsRead(t, e, q, b);
    WholeName(t, k, a.name);
    SpacesSkipped(t, i, k);
    Assembled(t, k, e, q, b, Attribute(a, end), r);
  }

  lemma Assembled(t: seq<Byte>, i: nat, e: nat, q: nat, b: nat, a: Attribute, r: Reader)
    requires i <= e < |t| && q < |t| && NameEnd(t, i) == e && (if IsSpace(t[e]) then SkipSpaces(t, e + 1) else e) == q
    requires t[q] == EQUALS && SkipSpaces(t, q + 1) == b && ParseValue(t, b, t[i..e], r) == a
    ensures ParseAttribute(t, i, r) == a
  {
  }

  /** The attributes `s` stand at `i`, one after the other; `end` is behind the white space that
      follows them. */
  ghost predicate AttributesAt(t: seq<Byte>, i: nat, s: seq<Attr>, f: Format, end: nat)
    decreases |s|
  {
    if s == [] then Spaces(t, i, end)
    else exists k: nat, m: nat :: AttributeAt(t, i, k, s[0], f, m) && AttributesAt(t, m, s[1..], f, end)
  }

  lemma {:induction false} MoreSpaces(t: seq<Byte>, i: nat, s: seq<Attr>, f: Format, m: nat, end: nat)
    requires AttributesAt(t, i, s, f, m) && Spaces(t, m, end)
    ensures AttributesAt(t, i, s, f, end)
    decreases |s|
  {
    if s != [] {
      var k: nat, n: nat :| AttributeAt(t, i, k, s[0], f, n) && AttributesAt(t, n, s[1..], f, m);
      MoreSpaces(t, n, s[1..], f, m, end);
    }
  }

  /** What `h` prints of all the attributes. */
  function AttributesOf(h: Attr -> seq<Byte>, s: seq<Attr>): seq<Byte> {
    if s == [] then [] else h(s[0]) + AttributesOf(h, s[1..])
  }

  /** `h` prints attributes at this depth. */
  ghost predicate IsAttributePrinter(h: Attr -> seq<Byte>, f: Format, depth: nat) {
    forall a {:trigger Regrouped(a, f, depth)} :: h(a) == Regrouped(a, f, depth)
  }

  lemma {:induction false} PrintedAttributesOf(h: Attr -> seq<Byte>, s: seq<Attr>, f: Format, depth: nat)
    requires IsAttributePrinter(h, f, depth)
    ensures PrintAttributes(s, f, depth) == AttributesOf(h, s)
    decreases |s|
  {
    if s != [] {
      RegroupedIs(s[0], f, depth);
      assert h(s[0]) == Regrouped(s[0], f, depth);
      PrintedAttributesOf(h, s[1..], f, depth);
    }
  }

  lemma AttributeLaid(t: seq<Byte>, i: nat, a: Attr, f: Format, depth: nat, h: Attr -> seq<Byte>) returns (k: nat)
    requires Sensible(f) && IsAttributePrinter(h, f, depth) && Here(t, i, h(a))
    ensures AttributeAt(t, i, k, a, f, i + |h(a)|)
  {
    assert h(a) == Regrouped(a, f, depth);
    AttributeLayout(t, i, a, f, depth);
    k := i + |AttributeLead(f, depth)|;
  }

  lemma {:induction false} AttributesLaid(t: seq<Byte>, i: nat, s: seq<Attr>, f: Format, depth: nat, h: Attr -> seq<Byte>,
      w: seq<Byte>, end: nat)
    requires Sensible(f) && IsAttributePrinter(h, f, depth) && w == AttributesOf(h, s) && Here(t, i, w) && end == i + |w|
    ensures AttributesAt(t, i, s, f, end)
    decreases |s|
  {
    if s == [] {
      NoneLaid(t, i, s, f, h, w);
    } else {
      var more := s[1..];
      var first, rest := h(s[0]), AttributesOf(h, more);
      var k := FirstLaid(t, i, s[0], f, depth, h, first, rest, w);
      var m := i + |first|;
      AttributesLaid(t, m, more, f, depth, h, rest, end);
      AttributesCons(t, i, s, more, f, k, m, end);
    }
  }

  lemma NoneLaid(t: seq<Byte>, i: nat, s: seq<Attr>, f: Format, h: Attr -> seq<Byte>, w: seq<Byte>)
    requires s == [] && w == AttributesOf(h, s) && Here(t, i, w)
    ensures AttributesAt(t, i, s, f, i + |w|)
  {
  }

  lemma FirstLaid(t: seq<Byte>, i: nat, a: Attr, f: Format, depth: nat, h: Attr -> seq<Byte>,
      first: seq<Byte>, rest: seq<Byte>, w: seq<Byte>) returns (k: nat)
    requires Sensible(f) && IsAttributePrinter(h, f, depth) && first == h(a) && w == first + rest && Here(t, i, w)
    ensures AttributeAt(t, i, k, a, f, i + |first|) && Here(t, i + |first|, rest)
  {
    HereSplit(t, i, first, rest);
    k := AttributeLaid(t, i, a, f, depth, h);
  }

  lemma AttributesCons(t: seq<Byte>, i: nat, s: seq<Attr>, rest: seq<Attr>, f: Format, k: nat, m: nat, end: nat)
    requires s != [] && rest == s[1..] && AttributeAt(t, i, k, s[0], f, m) && AttributesAt(t, m, rest, f, end)
    ensures AttributesAt(t, i, s, f, end)
  {
  }

  /** What `ParseAttributes` makes of the end of a tag whose attributes are `s`. */
  function TagEnd(t: seq<Byte>, i: nat, s: seq<Attr>): Tag {
    if ByteAt(t, i) == GREATER then Opened(s, i + 1)
    else if ByteAt(t, i + 1) == GREATER then Closed(s, i + 2)
    else BadTag
  }

  /** `parse` reads the rest of a start tag. */
  ghost predicate IsTagParser(parse: nat -> Tag, t: seq<Byte>, r: Reader) {
    forall i: nat {:trigger ParseAttributes(t, i, r)} :: i <= |t| ==> parse(i) == ParseAttributes(t, i, r)
  }

  /** All attributes of a start tag, up to what ends it. */
  lemma {:induction false} AttributesRead(parse: nat -> Tag, t: seq<Byte>, i: nat, s: seq<Attr>, f: Format, r: Reader, end: nat)
    requires IsTagParser(parse, t, r) && Undoes(r, f) && ValidAttributes(s) && AttributesAt(t, i, s, f, end)
    requires ByteAt(t, end) == SLASH || ByteAt(t, end) == GREATER
    ensures parse(i) == TagEnd(t, end, s)
    decreases |s|
  {
    if s == [] {
      NoMore(parse, t, i, end, r);
    } else {
      var more := s[1..];
      var k: nat, m: nat :| AttributeAt(t, i, k, s[0], f, m) && AttributesAt(t, m, more, f, end);
      FirstRead(t, i, k, s[0], m, more, f, r, end);
      AttributesRead(parse, t, m, more, f, r, end);
      OneMore(parse, t, i, k, s, m, more, end, r);
    }
  }

  lemma WholeTag(t: seq<Byte>, i: nat, s: seq<Attr>, f: Format, r: Reader, end: nat)
    requires Undoes(r, f) && ValidAttributes(s) && AttributesAt(t, i, s, f, end)
    requires i <= |t| && (ByteAt(t, end) == SLASH || ByteAt(t, end) == GREATER)
    ensures ParseAttributes(t, i, r) == TagEnd(t, end, s)
  {
    AttributesRead((i: nat) => if i <= |t| then ParseAttributes(t, i, r) else BadTag, t, i, s, f, r, end);
  }

  lemma FirstRead(t: seq<Byte>, i: nat, k: nat, a: Attr, m: nat, rest: seq<Attr>, f: Format, r: Reader, end: nat)
    requires Undoes(r, f) && ValidAttribute(a) && AttributeAt(t, i, k, a, f, m) && AttributesAt(t, m, rest, f, end)
    requires ByteAt(t, end) == SLASH || ByteAt(t, end) == GREATER
    ensures i <= k <= |t| && SkipSpaces(t, i) == k && IsStartSymbol(ByteAt(t, k))
    ensures i < m <= |t| && ParseAttribute(t, k, r) == Attribute(a, m)
  {
    NotSymbol(t, m, rest, f, end);
    AttributeRead(t, i, k, a, f, r, m);
  }

  lemma NoMore(parse: nat -> Tag, t: seq<Byte>, i: nat, end: nat, r: Reader)
    requires IsTagParser(parse, t, r) && Spaces(t, i, end) && (ByteAt(t, end) == SLASH || ByteAt(t, end) == GREATER)
    ensures parse(i) == TagEnd(t, end, [])
  {
    SpacesSkipped(t, i, end);
    assert parse(i) == ParseAttributes(t, i, r);
  }

  lemma OneMore(parse: nat -> Tag, t: seq<Byte>, i: nat, k: nat, s: seq<Attr>, next: nat, more: seq<Attr>, end: nat, r: Reader)
    requires IsTagParser(parse, t, r) && i <= k <= |t| && SkipSpaces(t, i) == k && IsStartSymbol(ByteAt(t, k))
    requires s != [] && more == s[1..] && i < next <= |t| && ParseAttribute(t, k, r) == Attribute(s[0], next)
    requires parse(next) == TagEnd(t, end, more)
    ensures parse(i) == TagEnd(t, end, s)
  {
    assert parse(next) == ParseAttributes(t, next, r);
    assert parse(i) == ParseAttributes(t, i, r);
    HeadAndTail(s, more);
  }

  lemma HeadAndTail(s: seq<Attr>, more: seq<Attr>)
    requires s != [] && more == s[1..]
    ensures [s[0]] + more == s
  {
  }

  lemma NotSymbol(t: seq<Byte>, i: nat, s: seq<Attr>, f: Format, end: nat)
    requires AttributesAt(t, i, s, f, end) && (ByteAt(t, end) == SLASH || ByteAt(t, end) == GREATER)
    ensures i <= end && i < |t| && !IsSymbol(t[i]) && (IsSpace(t[i]) || (s == [] && i == end))
  {
    AtEnd(t, i, s, f, end);
    if s != [] {
      SpaceFirst(t, i, s, f, end);
    }
  }

  lemma SpaceFirst(t: seq<Byte>, i: nat, s: seq<Attr>, f: Format, end: nat)
    requires s != [] && AttributesAt(t, i, s, f, end)
    ensures i < |t| && IsSpace(t[i])
  {
  }

  lemma {:induction false} AtEnd(t: seq<Byte>, i: nat, s: seq<Attr>, f: Format, end: nat)
    requires AttributesAt(t, i, s, f, end)
    ensures i <= end
    decreases |s|
  {
    if s != [] {
      var k: nat, m: nat :| AttributeAt(t, i, k, s[0], f, m) && AttributesAt(t, m, s[1..], f, end);
      AtEnd(t, m, s[1..], f, end);
    }
  }

  // ---------- elements and their content ----------

  function AddAll(p: Progress, xs: seq<Item>): Progress
    decreases |xs|
  {
    if xs == [] then p else AddAll(AddItem(p, xs[0]), xs[1..])
  }

  lemma {:induction false} AddAllOpen(p: Progress, xs: seq<Item>)
    requires p.open != []
    ensures var last := |p.open| - 1;
      AddAll(p, xs) == p.(open := p.open[last := p.open[last].(children := p.open[last].children + xs)])
    decreases |xs|
  {
    if xs != [] {
      AddAllOpen(AddItem(p, xs[0]), xs[1..]);
      var last := |p.open| - 1;
      assert p.open[last].children + xs == p.open[last].children + [xs[0]] + xs[1..];
    } else {
      var last := |p.open| - 1;
      assert p.open[last].children + xs == p.open[last].children;
      assert p.open[last := p.open[last]] == p.open;
    }
  }

  /** An element is put together from its frame and its children. */
  lemma PushPop(p: Progress, name: seq<Byte>, attributes: seq<Attr>, xs: seq<Item>)
    ensures var q := AddAll(PushFrame(p, name, attributes), xs);
      && q.open != [] && q.open[|q.open| - 1].name == name && q.open[|q.open| - 1].children == xs
      && PopFrame(q) == AddItem(p, Element(name, attributes, xs))
  {
    AddAllOpen(PushFrame(p, name, attributes), xs);
    var q := AddAll(PushFrame(p, name, attributes), xs);
    assert q.open[..|q.open| - 1] == p.open;
    assert q.open[|q.open| - 1].children == [] + xs == xs;
  }

  /** `run` takes a state to where the parser ends up from it. */
  ghost predicate Runs(run: State -> State, t: seq<Byte>, r: Reader) {
    forall st: State {:trigger Step(t, st, r)} ::
      (st.Content? || st.Markup?) && st.at <= |t| ==> run(st) == run(Step(t, st, r))
  }

  /** From content through a `<` to what the markup behind it makes. */
  lemma ThroughLess(run: State -> State, t: seq<Byte>, s: nat, p: Progress, r: Reader)
    requires Runs(run, t, r) && s < |t| && t[s] == LESS
    ensures run(Content(s, p)) == run(Markup(s + 1, p))
  {
    assert Step(t, Content(s, p), r) == Markup(s + 1, p);
  }

  lemma ThroughStart(run: State -> State, t: seq<Byte>, s: nat, p: Progress, r: Reader)
    requires Runs(run, t, r) && s < |t| && IsStartSymbol(t[s])
    ensures run(Markup(s, p)) == run(StartStep(t, s, p, r))
  {
    assert Step(t, Markup(s, p), r) == StartStep(t, s, p, r);
  }

  lemma ThroughEnd(run: State -> State, t: seq<Byte>, s: nat, p: Progress, r: Reader)
    requires Runs(run, t, r) && s < |t| && t[s] == SLASH
    ensures run(Markup(s, p)) == run(EndStep(t, s + 1, p))
  {
    assert Step(t, Markup(s, p), r) == EndStep(t, s + 1, p);
  }

  /** An end tag for `name` stands at `s`; there may be white space behind the name. */
  ghost predicate EndAt(t: seq<Byte>, s: nat, name: seq<Byte>, end: nat) {
    && s + 2 + |name| < end <= |t|
    && t[s] == LESS && t[s + 1] == SLASH && Here(t, s + 2, name) && Spaces(t, s + 2 + |name|, end - 1) && t[end - 1] == GREATER
  }

  /** The end tag of the innermost open element. */
  lemma EndRead(run: State -> State, t: seq<Byte>, s: nat, p: Progress, name: seq<Byte>, r: Reader, end: nat)
    requires Runs(run, t, r) && EndAt(t, s, name, end) && ValidName(name)
    requires p.open != [] && p.open[|p.open| - 1].name == name
    ensures run(Content(s, p)) == run(Content(end, PopFrame(p)))
  {
    NameRead(t, s + 2, name);
    HereSlice(t, s + 2, name);
    ThroughLess(run, t, s, p, r);
    ThroughEnd(run, t, s + 1, p, r);
    SpacesSkipped(t, s + 2 + |name|, end - 1);
    assert EndStep(t, s + 2, p) == Content(end, PopFrame(p));
  }

  /** From content through the start of a tag. */
  lemma StartRead(run: State -> State, t: seq<Byte>, s: nat, p: Progress, name: seq<Byte>, r: Reader)
    requires Runs(run, t, r) && s < |t| && t[s] == LESS && Here(t, s + 1, name) && ValidName(name)
    ensures s + 1 < |t| && run(Content(s, p)) == run(StartStep(t, s + 1, p, r))
  {
    HereByte(t, s + 1, name, 0);
    ThroughLess(run, t, s, p, r);
    ThroughStart(run, t, s + 1, p, r);
  }

  /** What a start tag, or an element without children, makes. */
  lemma StartStepIs(t: seq<Byte>, s: nat, p: Progress, name: seq<Byte>, attributes: seq<Attr>, f: Format, r: Reader, end: nat)
    requires Undoes(r, f) && ValidName(name) && ValidAttributes(attributes)
    requires Here(t, s, name) && s < |t| && AttributesAt(t, s + |name|, attributes, f, end)
    requires ByteAt(t, end) == SLASH || ByteAt(t, end) == GREATER
    ensures StartStep(t, s, p, r) == TagState(TagEnd(t, end, attributes), p, name)
  {
    var e := s + |name|;
    NotSymbol(t, e, attributes, f, end);
    NameRead(t, s, name);
    HereSlice(t, s, name);
    WholeTag(t, e, attributes, f, r, end);
    if IsSpace(t[e]) {
      AfterFirstSpace(t, e, r);
    }
    StartAssembled(t, s, e, p, name, attributes, end, r);
  }

  function TagState(tag: Tag, p: Progress, name: seq<Byte>): State {
    match tag
    case Opened(attributes, next) => Content(next, PushFrame(p, name, attributes))
    case Closed(attributes, next) => Content(next, AddItem(p, Element(name, attributes, [])))
    case BadTag => Bad
  }

  lemma AfterFirstSpace(t: seq<Byte>, e: nat, r: Reader)
    requires e < |t| && IsSpace(t[e])
    ensures ParseAttributes(t, e, r) == ParseAttributes(t, e + 1, r)
  {
    assert SkipSpaces(t, e) == SkipSpaces(t, e + 1);
  }

  lemma StartAssembled(t: seq<Byte>, s: nat, e: nat, p: Progress, name: seq<Byte>, attributes: seq<Attr>, end: nat, r: Reader)
    requires s < e < |t| && NameEnd(t, s) == e && t[s..e] == name
    requires ByteAt(t, end) == SLASH || ByteAt(t, end) == GREATER
    requires if IsSpace(t[e]) then ParseAttributes(t, e + 1, r) == TagEnd(t, end, attributes) else attributes == [] && e == end
    ensures StartStep(t, s, p, r) == TagState(TagEnd(t, end, attributes), p, name)
  {
  }

  // ---------- where the printout stands in the text ----------

  /** A start tag with these attributes stands at `s`, up to what ends it. */
  ghost predicate StartAt(t: seq<Byte>, s: nat, name: seq<Byte>, attributes: seq<Attr>, f: Format, end: nat) {
    && s + 1 + |name| <= |t| && t[s] == LESS && Here(t, s + 1, name)
    && AttributesAt(t, s + 1 + |name|, attributes, f, end) && end + 1 < |t|
  }

  /** White space from `s` to `k` that may stand in front of a tag. */
  ghost predicate Gap(t: seq<Byte>, s: nat, k: nat, f: Format, due: Due) {
    Spaces(t, s, k) && (f.raw || due == NONE ==> s == k)
  }

  /** What is due after an item, and after a list of them. */
  function DueAfter(x: Item): Due {
    if x.Text? then NONE else BOTH
  }

  function DueAtEnd(xs: seq<Item>, due: Due): Due {
    if xs == [] then due else DueAfter(xs[|xs| - 1])
  }

  /** An item stands at `s`, with what may be in front of it. */
  ghost predicate ItemAt(t: seq<Byte>, s: nat, x: Item, f: Format, due: Due, end: nat)
    decreases x, 1
  {
    match x
    case Text(v) => Here(t, s, PrintText(v, false, f)) && end == s + |PrintText(v, false, f)|
    case Document(_) => false
    case Leaf(_) => false
    case Element(name, attributes, children) =>
      exists k: nat, e: nat {:trigger Gap(t, s, k, f, due), StartAt(t, k, name, attributes, f, e)} ::
        Gap(t, s, k, f, due) && StartAt(t, k, name, attributes, f, e)
        && if children == [] then EmptyAt(t, e, name, f, end)
           else t[e] == GREATER && InsideAt(t, e + 1, x, f, end)
  }

  /** The children of an element stand at `s`, and then its end tag. */
  ghost predicate InsideAt(t: seq<Byte>, s: nat, x: Item, f: Format, end: nat)
    requires x.Element?
    decreases x, 0
  {
    exists c: nat, d: nat {:trigger Gap(t, c, d, f, DueAtEnd(x.children, BOTH)), EndAt(t, d, x.name, end)} ::
      AllAt(t, s, x.children, f, BOTH, c) && Gap(t, c, d, f, DueAtEnd(x.children, BOTH)) && EndAt(t, d, x.name, end)
  }

  ghost predicate EmptyAt(t: seq<Byte>, e: nat, name: seq<Byte>, f: Format, end: nat)
    requires e + 1 < |t|
  {
    if f.closeEmpty then t[e] == GREATER && EndAt(t, e + 1, name, end)
    else t[e] == SLASH && t[e + 1] == GREATER && end == e + 2
  }

  ghost predicate AllAt(t: seq<Byte>, s: nat, xs: seq<Item>, f: Format, due: Due, end: nat)
    decreases xs
  {
    if xs == [] then s == end
    else exists m: nat :: ItemAt(t, s, xs[0], f, due, m) && AllAt(t, m, xs[1..], f, DueAfter(xs[0]), end)
  }

  /** The white space in front of a tag stands there. */
  lemma LeadGap(t: seq<Byte>, s: nat, f: Format, depth: nat, due: Due, lead: seq<Byte>)
    requires Sensible(f) && lead == Lead(f, depth, due) && Here(t, s, lead)
    ensures Gap(t, s, s + |lead|, f, due)
  {
    LeadBlank(f, depth, due);
    HereBlank(t, s, lead);
  }

  lemma EndLayout(t: seq<Byte>, s: nat, name: seq<Byte>, end: nat)
    requires Here(t, s, [LESS, SLASH] + (name + [GREATER])) && end == s + |name| + 3
    ensures EndAt(t, s, name, end)
  {
    var w := [LESS, SLASH] + (name + [GREATER]);
    HereByte(t, s, w, 0);
    HereByte(t, s, w, 1);
    HereSplit(t, s, [LESS, SLASH], name + [GREATER]);
    HereSplit(t, s + 2, name, [GREATER]);
    HereByte(t, s + 2 + |name|, [GREATER], 0);
  }

  lemma StartLayout(t: seq<Byte>, s: nat, name: seq<Byte>, w: seq<Byte>, rest: seq<Byte>)
    requires Here(t, s, [LESS] + (name + (w + rest)))
    ensures s + 1 + |name| + |w| + |rest| <= |t| && t[s] == LESS && Here(t, s + 1, name)
    ensures Here(t, s + 1 + |name|, w) && Here(t, s + 1 + |name| + |w|, rest)
  {
    HereByte(t, s, [LESS] + (name + (w + rest)), 0);
    HereSplit(t, s, [LESS], name + (w + rest));
    HereSplit(t, s + 1, name, w + rest);
    HereSplit(t, s + 1 + |name|, w, rest);
  }

  /** How an element without children ends, and the white space in front of that. */
  function Pad(f: Format): seq<Byte> {
    if f.raw || f.closeEmpty then [] else [SPACE]
  }

  function EmptyTail(name: seq<Byte>, f: Format): seq<Byte> {
    if f.closeEmpty then [GREATER] + ([LESS, SLASH] + (name + [GREATER])) else [SLASH, GREATER]
  }

  lemma EmptyEndIs(name: seq<Byte>, f: Format)
    ensures EmptyEnd(name, f) == Pad(f) + EmptyTail(name, f)
  {
  }

  lemma EmptyLayout(t: seq<Byte>, e: nat, name: seq<Byte>, f: Format)
    requires Here(t, e, EmptyTail(name, f))
    ensures e + 1 < |t| && EmptyAt(t, e, name, f, e + |EmptyTail(name, f)|)
  {
    if f.closeEmpty {
      var end := [LESS, SLASH] + (name + [GREATER]);
      HereSplit(t, e, [GREATER], end);
      HereByte(t, e, [GREATER], 0);
      EndLayout(t, e + 1, name, e + |name| + 4);
    } else {
      HereByte(t, e, [SLASH, GREATER], 0);
      HereByte(t, e, [SLASH, GREATER], 1);
    }
  }

  lemma PadSpaces(t: seq<Byte>, i: nat, f: Format)
    requires Here(t, i, Pad(f))
    ensures Spaces(t, i, i + |Pad(f)|)
  {
    HereBlank(t, i, Pad(f));
  }

  /** Wherever `w` stands, the attributes stand. */
  ghost predicate Lays(w: seq<Byte>, s: seq<Attr>, f: Format) {
    forall t, i: nat, end: nat {:trigger AttributesAt(t, i, s, f, end)} ::
      Here(t, i, w) && end == i + |w| ==> AttributesAt(t, i, s, f, end)
  }

  lemma LaysBy(h: Attr -> seq<Byte>, w: seq<Byte>, s: seq<Attr>, f: Format, depth: nat)
    requires Sensible(f) && IsAttributePrinter(h, f, depth) && w == AttributesOf(h, s)
    ensures Lays(w, s, f)
  {
    forall t, i: nat, end: nat | Here(t, i, w) && end == i + |w| ensures AttributesAt(t, i, s, f, end) {
      AttributesLaid(t, i, s, f, depth, h, w, end);
    }
  }

  lemma PrintedLays(s: seq<Attr>, f: Format, depth: nat)
    requires Sensible(f)
    ensures Lays(PrintAttributes(s, f, depth), s, f)
  {
    var h := (a: Attr) => Regrouped(a, f, depth);
    PrintedAttributesOf(h, s, f, depth);
    LaysBy(h, PrintAttributes(s, f, depth), s, f, depth);
  }

  lemma EmptyShape(x: Item, f: Format, depth: nat, due: Due) returns (lead: seq<Byte>, w: seq<Byte>)
    requires x.Element? && x.children == [] && Sensible(f)
    ensures lead == Lead(f, depth, due) && Lays(w, x.attributes, f)
    ensures PrintItem(x, f, depth, due).bytes == lead + ([LESS] + (x.name + (w + (Pad(f) + EmptyTail(x.name, f)))))
  {
    lead, w := Lead(f, depth, due), PrintAttributes(x.attributes, f, depth);
    PrintedLays(x.attributes, f, depth);
    EmptyEndIs(x.name, f);
    Joined(lead, x.name, w, EmptyEnd(x.name, f));
  }

  lemma Joined(lead: seq<Byte>, name: seq<Byte>, w: seq<Byte>, rest: seq<Byte>)
    ensures lead + ([LESS] + name + w + rest) == lead + ([LESS] + (name + (w + rest)))
  {
    assert [LESS] + name + w + rest == [LESS] + (name + (w + rest));
  }

  lemma FullShape(x: Item, f: Format, depth: nat, due: Due, body: Output)
      returns (lead: seq<Byte>, w: seq<Byte>, last: seq<Byte>)
    requires x.Element? && x.children != [] && Sensible(f) && body == PrintList(x.children, f, depth + 1, BOTH)
    ensures lead == Lead(f, depth, due) && last == Lead(f, depth, body.due) && Lays(w, x.attributes, f)
    ensures PrintItem(x, f, depth, due).bytes == lead + FullBytes(x.name, w, body.bytes, last)
  {
    lead, w, last := Lead(f, depth, due), PrintAttributes(x.attributes, f, depth), Lead(f, depth, body.due);
    PrintedLays(x.attributes, f, depth);
    assert PrintItem(x, f, depth, due).bytes == lead + ([LESS] + x.name + w + [GREATER]) + body.bytes + last + EndTag(x);
    Concatenated(lead, x.name, w, body.bytes, last, EndTag(x));
    assert EndTag(x) == [LESS, SLASH] + (x.name + [GREATER]);
  }

  /** An element with children, piece by piece. */
  function FullBytes(name: seq<Byte>, w: seq<Byte>, body: seq<Byte>, last: seq<Byte>): seq<Byte> {
    [LESS] + (name + (w + ([GREATER] + (body + (last + ([LESS, SLASH] + (name + [GREATER])))))))
  }

  lemma Concatenated(lead: seq<Byte>, b: seq<Byte>, c: seq<Byte>, e: seq<Byte>, g: seq<Byte>, h: seq<Byte>)
    ensures lead + ([LESS] + b + c + [GREATER]) + e + g + h
         == lead + ([LESS] + (b + (c + ([GREATER] + (e + (g + h))))))
  {
    assert [LESS] + b + c + [GREATER] == [LESS] + (b + (c + [GREATER]));
    Regrouped4(lead, [LESS] + (b + (c + [GREATER])), e, g, h);
    assert [LESS] + (b + (c + [GREATER])) + (e + (g + h)) == [LESS] + (b + (c + ([GREATER] + (e + (g + h)))));
  }

  lemma Regrouped4(a: seq<Byte>, b: seq<Byte>, c: seq<Byte>, d: seq<Byte>, e: seq<Byte>)
    ensures a + b + c + d + e == a + (b + (c + (d + e)))
  {
  }

  lemma FullPositions(t: seq<Byte>, s: nat, name: seq<Byte>, w: seq<Byte>, body: seq<Byte>, last: seq<Byte>, e: nat,
      d: nat, end: nat)
    requires Here(t, s, FullBytes(name, w, body, last)) && e == s + 1 + |name| + |w|
    requires d == e + 1 + |body| + |last| && end == d + |name| + 3
    ensures e + 1 < |t| && t[s] == LESS && Here(t, s + 1, name) && Here(t, s + 1 + |name|, w)
    ensures t[e] == GREATER && Here(t, e + 1, body) && Here(t, e + 1 + |body|, last) && EndAt(t, d, name, end)
  {
    var tag := [LESS, SLASH] + (name + [GREATER]);
    StartLayout(t, s, name, w, [GREATER] + (body + (last + tag)));
    HereByte(t, e, [GREATER] + (body + (last + tag)), 0);
    HereSplit(t, e, [GREATER], body + (last + tag));
    HereSplit(t, e + 1, body, last + tag);
    HereSplit(t, e + 1 + |body|, last, tag);
    EndLayout(t, d, name, end);
  }

  lemma StartIs(t: seq<Byte>, s: nat, name: seq<Byte>, attributes: seq<Attr>, f: Format, i: nat, e: nat)
    requires s < |t| && t[s] == LESS && Here(t, s + 1, name) && i == s + 1 + |name| && e + 1 < |t|
    requires AttributesAt(t, i, attributes, f, e)
    ensures StartAt(t, s, name, attributes, f, e)
  {
  }

  /** What `g` prints of all the items. */
  function AllOf(g: (Item, nat, Due) -> seq<Byte>, xs: seq<Item>, depth: nat, due: Due): seq<Byte> {
    if xs == [] then [] else g(xs[0], depth, due) + AllOf(g, xs[1..], depth, DueAfter(xs[0]))
  }

  /** `g` prints items; to know what that looks like, one has to ask. */
  ghost predicate IsPrinter(g: (Item, nat, Due) -> seq<Byte>, f: Format) {
    forall x, depth, due {:trigger PrintItem(x, f, depth, due)} :: g(x, depth, due) == PrintItem(x, f, depth, due).bytes
  }

  lemma PrintedDue(x: Item, f: Format, depth: nat, due: Due)
    requires Printable(x)
    ensures PrintItem(x, f, depth, due).due == DueAfter(x)
  {
  }

  lemma {:induction false} PrintedAllOf(g: (Item, nat, Due) -> seq<Byte>, xs: seq<Item>, f: Format, depth: nat, due: Due)
    requires IsPrinter(g, f) && PrintableAll(xs)
    ensures PrintList(xs, f, depth, due) == Output(AllOf(g, xs, depth, due), DueAtEnd(xs, due))
    decreases |xs|
  {
    if xs != [] {
      assert g(xs[0], depth, due) == PrintItem(xs[0], f, depth, due).bytes;
      PrintedDue(xs[0], f, depth, due);
      PrintedAllOf(g, xs[1..], f, depth, DueAfter(xs[0]));
    }
  }

  lemma EmptyPrinted(t: seq<Byte>, s: nat, x: Item, f: Format, depth: nat, due: Due, g: (Item, nat, Due) -> seq<Byte>,
      whole: seq<Byte>, end: nat)
    requires Sensible(f) && x.Element? && x.children == [] && IsPrinter(g, f) && whole == g(x, depth, due)
    requires Here(t, s, whole) && end == s + |whole|
    ensures ItemAt(t, s, x, f, due, end)
  {
    assert g(x, depth, due) == PrintItem(x, f, depth, due).bytes;
    var lead, w := EmptyShape(x, f, depth, due);
    EmptyLaid(t, s, x, f, depth, due, lead, w, Pad(f), EmptyTail(x.name, f), whole, end);
  }

  lemma EmptyLaid(t: seq<Byte>, s: nat, x: Item, f: Format, depth: nat, due: Due,
      lead: seq<Byte>, w: seq<Byte>, pad: seq<Byte>, tail: seq<Byte>, whole: seq<Byte>, end: nat)
    requires Sensible(f) && x.Element? && x.children == [] && Lays(w, x.attributes, f)
    requires lead == Lead(f, depth, due) && pad == Pad(f) && tail == EmptyTail(x.name, f)
    requires whole == lead + ([LESS] + (x.name + (w + (pad + tail)))) && Here(t, s, whole) && end == s + |whole|
    ensures ItemAt(t, s, x, f, due, end)
  {
    var k := s + |lead|;
    var e := k + 1 + |x.name| + |w| + |pad|;
    TagBehindLead(t, s, f, depth, due, lead, [LESS] + (x.name + (w + (pad + tail))), k);
    EmptyPieces(t, k, x, f, w, pad, tail, e, end);
    EmptyItem(t, s, k, x, f, due, e, end);
  }

  lemma TagBehindLead(t: seq<Byte>, s: nat, f: Format, depth: nat, due: Due, lead: seq<Byte>, tag: seq<Byte>, k: nat)
    requires Sensible(f) && lead == Lead(f, depth, due) && Here(t, s, lead + tag) && k == s + |lead|
    ensures Gap(t, s, k, f, due) && Here(t, k, tag)
  {
    HereSplit(t, s, lead, tag);
    LeadGap(t, s, f, depth, due, lead);
  }

  lemma EmptyItem(t: seq<Byte>, s: nat, k: nat, x: Item, f: Format, due: Due, e: nat, end: nat)
    requires x.Element? && x.children == [] && Gap(t, s, k, f, due)
    requires StartAt(t, k, x.name, x.attributes, f, e) && EmptyAt(t, e, x.name, f, end)
    ensures ItemAt(t, s, x, f, due, end)
  {
  }

  lemma EmptyPieces(t: seq<Byte>, s: nat, x: Item, f: Format, w: seq<Byte>, pad: seq<Byte>, tail: seq<Byte>, e: nat, end: nat)
    requires x.Element? && x.children == [] && Lays(w, x.attributes, f) && pad == Pad(f) && tail == EmptyTail(x.name, f)
    requires Here(t, s, [LESS] + (x.name + (w + (pad + tail))))
    requires e == s + 1 + |x.name| + |w| + |pad| && end == e + |tail|
    ensures StartAt(t, s, x.name, x.attributes, f, e) && EmptyAt(t, e, x.name, f, end)
  {
    var i := s + 1 + |x.name|;
    var m := i + |w|;
    StartLayout(t, s, x.name, w, pad + tail);
    EmptyMarks(t, m, x.name, f, pad, tail, e, end);
    LaidAttributes(t, i, w, x.attributes, f, m);
    PaddedStart(t, s, x.name, x.attributes, f, i, m, e);
  }

  lemma LaidAttributes(t: seq<Byte>, i: nat, w: seq<Byte>, attributes: seq<Attr>, f: Format, m: nat)
    requires Lays(w, attributes, f) && Here(t, i, w) && m == i + |w|
    ensures AttributesAt(t, i, attributes, f, m)
  {
  }

  lemma PaddedStart(t: seq<Byte>, s: nat, name: seq<Byte>, attributes: seq<Attr>, f: Format, i: nat, m: nat, e: nat)
    requires s < |t| && t[s] == LESS && Here(t, s + 1, name) && i == s + 1 + |name| && e + 1 < |t|
    requires AttributesAt(t, i, attributes, f, m) && Spaces(t, m, e)
    ensures StartAt(t, s, name, attributes, f, e)
  {
    MoreSpaces(t, i, attributes, f, m, e);
    StartIs(t, s, name, attributes, f, i, e);
  }

  lemma EmptyMarks(t: seq<Byte>, i: nat, name: seq<Byte>, f: Format, pad: seq<Byte>, tail: seq<Byte>, e: nat, end: nat)
    requires pad == Pad(f) && tail == EmptyTail(name, f) && Here(t, i, pad + tail)
    requires e == i + |pad| && end == e + |tail|
    ensures Spaces(t, i, e) && e + 1 < |t| && EmptyAt(t, e, name, f, end)
  {
    HereSplit(t, i, pad, tail);
    EmptyLayout(t, e, name, f);
    PadSpaces(t, i, f);
  }

  lemma FullPieces(t: seq<Byte>, s: nat, name: seq<Byte>, attributes: seq<Attr>, f: Format, w: seq<Byte>, body: seq<Byte>,
      last: seq<Byte>, e: nat, d: nat, end: nat)
    requires Here(t, s, FullBytes(name, w, body, last)) && e == s + 1 + |name| + |w| && Lays(w, attributes, f)
    requires d == e + 1 + |body| + |last| && end == d + |name| + 3
    ensures StartAt(t, s, name, attributes, f, e) && t[e] == GREATER && Here(t, e + 1, body) && Here(t, e + 1 + |body|, last)
    ensures EndAt(t, d, name, end)
  {
    var i := s + 1 + |name|;
    FullPositions(t, s, name, w, body, last, e, d, end);
    LaidAttributes(t, i, w, attributes, f, e);
    StartIs(t, s, name, attributes, f, i, e);
  }

  lemma FullLaid(t: seq<Byte>, s: nat, x: Item, f: Format, depth: nat, due: Due, due': Due,
      lead: seq<Byte>, w: seq<Byte>, body: seq<Byte>, last: seq<Byte>, whole: seq<Byte>, end: nat)
      returns (k: nat, e: nat, c: nat, d: nat)
    requires Sensible(f) && x.Element? && lead == Lead(f, depth, due) && last == Lead(f, depth, due')
    requires Lays(w, x.attributes, f) && whole == lead + FullBytes(x.name, w, body, last) && Here(t, s, whole)
    requires end == s + |whole|
    ensures Gap(t, s, k, f, due) && StartAt(t, k, x.name, x.attributes, f, e) && t[e] == GREATER
    ensures Here(t, e + 1, body) && c == e + 1 + |body|
    ensures Gap(t, c, d, f, due') && EndAt(t, d, x.name, end)
  {
    k := s + |lead|;
    TagBehindLead(t, s, f, depth, due, lead, FullBytes(x.name, w, body, last), k);
    e := k + 1 + |x.name| + |w|;
    c := e + 1 + |body|;
    d := c + |last|;
    FullPieces(t, k, x.name, x.attributes, f, w, body, last, e, d, end);
    LeadGap(t, c, f, depth, due', last);
  }

  lemma FullPrinted(t: seq<Byte>, s: nat, x: Item, f: Format, depth: nat, due: Due, g: (Item, nat, Due) -> seq<Byte>,
      whole: seq<Byte>, inner: seq<Byte>, due': Due, end: nat) returns (k: nat, e: nat, c: nat, d: nat)
    requires Sensible(f) && x.Element? && x.children != [] && PrintableAll(x.children) && IsPrinter(g, f)
    requires whole == g(x, depth, due) && inner == AllOf(g, x.children, depth + 1, BOTH) && due' == DueAtEnd(x.children, BOTH)
    requires Here(t, s, whole) && end == s + |whole|
    ensures Gap(t, s, k, f, due) && StartAt(t, k, x.name, x.attributes, f, e) && t[e] == GREATER
    ensures Here(t, e + 1, inner) && c == e + 1 + |inner|
    ensures Gap(t, c, d, f, due') && EndAt(t, d, x.name, end)
  {
    var lead, w, last := WholeShape(x, f, depth, due, g, whole, inner, due');
    k, e, c, d := FullLaid(t, s, x, f, depth, due, due', lead, w, inner, last, whole, end);
  }

  lemma WholeShape(x: Item, f: Format, depth: nat, due: Due, g: (Item, nat, Due) -> seq<Byte>,
      whole: seq<Byte>, inner: seq<Byte>, due': Due) returns (lead: seq<Byte>, w: seq<Byte>, last: seq<Byte>)
    requires Sensible(f) && x.Element? && x.children != [] && PrintableAll(x.children) && IsPrinter(g, f)
    requires whole == g(x, depth, due) && inner == AllOf(g, x.children, depth + 1, BOTH) && due' == DueAtEnd(x.children, BOTH)
    ensures lead == Lead(f, depth, due) && last == Lead(f, depth, due') && Lays(w, x.attributes, f)
    ensures whole == lead + FullBytes(x.name, w, inner, last)
  {
    PrintedAllOf(g, x.children, f, depth + 1, BOTH);
    assert g(x, depth, due) == PrintItem(x, f, depth, due).bytes;
    lead, w, last := FullShape(x, f, depth, due, Output(inner, due'));
  }

  lemma FullItem(t: seq<Byte>, s: nat, k: nat, x: Item, f: Format, due: Due, e: nat, c: nat, d: nat, end: nat)
    requires x.Element? && x.children != [] && Gap(t, s, k, f, due)
    requires StartAt(t, k, x.name, x.attributes, f, e) && t[e] == GREATER && AllAt(t, e + 1, x.children, f, BOTH, c)
    requires Gap(t, c, d, f, DueAtEnd(x.children, BOTH)) && EndAt(t, d, x.name, end)
    ensures ItemAt(t, s, x, f, due, end)
  {
    assert InsideAt(t, e + 1, x, f, end);
  }

  /** The printout of an item, piece by piece. */
  lemma {:induction false} ItemLayout(t: seq<Byte>, s: nat, x: Item, f: Format, depth: nat, due: Due,
      g: (Item, nat, Due) -> seq<Byte>, end: nat)
    requires Sensible(f) && IsPrinter(g, f) && Printable(x) && Here(t, s, g(x, depth, due)) && end == s + |g(x, depth, due)|
    ensures ItemAt(t, s, x, f, due, end)
    decreases x, 0
  {
    match x {
      case Text(_) =>
        assert g(x, depth, due) == PrintItem(x, f, depth, due).bytes;
      case Element(_, _, children) =>
        if children == [] {
          EmptyPrinted(t, s, x, f, depth, due, g, g(x, depth, due), end);
        } else {
          FullLayout(t, s, x, f, depth, due, g, g(x, depth, due), end);
        }
      case _ =>
    }
  }

  lemma {:induction false} FullLayout(t: seq<Byte>, s: nat, x: Item, f: Format, depth: nat, due: Due,
      g: (Item, nat, Due) -> seq<Byte>, whole: seq<Byte>, end: nat)
    requires Sensible(f) && IsPrinter(g, f) && x.Element? && x.children != [] && PrintableAll(x.children)
    requires whole == g(x, depth, due) && Here(t, s, whole) && end == s + |whole|
    ensures ItemAt(t, s, x, f, due, end)
    decreases x.children, 2
  {
    var inner := AllOf(g, x.children, depth + 1, BOTH);
    var k, e, c, d := FullPrinted(t, s, x, f, depth, due, g, whole, inner, DueAtEnd(x.children, BOTH), end);
    AllLayout(t, e + 1, x.children, f, depth + 1, BOTH, g, c);
    FullItem(t, s, k, x, f, due, e, c, d, end);
  }

  lemma {:induction false} AllLayout(t: seq<Byte>, s: nat, xs: seq<Item>, f: Format, depth: nat, due: Due,
      g: (Item, nat, Due) -> seq<Byte>, end: nat)
    requires Sensible(f) && IsPrinter(g, f) && PrintableAll(xs) && Here(t, s, AllOf(g, xs, depth, due))
    requires end == s + |AllOf(g, xs, depth, due)|
    ensures AllAt(t, s, xs, f, due, end)
    decreases xs, 1
  {
    if xs != [] {
      var x, more := xs[0], xs[1..];
      var first, rest := g(x, depth, due), AllOf(g, more, depth, DueAfter(x));
      HereSplit(t, s, first, rest);
      var m := s + |first|;
      ItemLayout(t, s, x, f, depth, due, g, m);
      AllLayout(t, m, more, f, depth, DueAfter(x), g, end);
      AllCons(t, s, xs, more, f, due, m, end);
    }
  }

  lemma AllCons(t: seq<Byte>, s: nat, xs: seq<Item>, more: seq<Item>, f: Format, due: Due, m: nat, end: nat)
    requires xs != [] && more == xs[1..] && ItemAt(t, s, xs[0], f, due, m) && AllAt(t, m, more, f, DueAfter(xs[0]), end)
    ensures AllAt(t, s, xs, f, due, end)
  {
  }

  // ---------- reading it ----------

  /** Where text may stand, and where character data must be followed by a tag. */
  predicate Followed(t: seq<Byte>, end: nat) {
    ByteAt(t, end) == LESS && ByteAt(t, end + 1) != 0
  }

  /** White space between tags is passed over. */
  lemma GapRead(run: State -> State, t: seq<Byte>, s: nat, k: nat, p: Progress, f: Format, due: Due, r: Reader)
    requires Runs(run, t, r) && Reads(f, r.o) && Gap(t, s, k, f, due) && (k == |t| || t[k] == LESS)
    requires ByteAt(t, k + 1) != SLASH || (p.open != [] && p.open[|p.open| - 1].children != [])
    ensures run(Content(s, p)) == run(Content(k, p))
  {
    if s < k {
      SpacesSkipped(t, s, k);
      assert Step(t, Content(s, p), r) == Content(k, p);
    }
  }

  lemma TagRead(run: State -> State, t: seq<Byte>, s: nat, p: Progress, name: seq<Byte>, attributes: seq<Attr>, f: Format,
      r: Reader, e: nat, next: State)
    requires Runs(run, t, r) && Undoes(r, f) && ValidName(name) && ValidAttributes(attributes)
    requires StartAt(t, s, name, attributes, f, e) && (t[e] == SLASH || t[e] == GREATER)
    requires next == TagState(TagEnd(t, e, attributes), p, name)
    ensures run(Content(s, p)) == run(next)
  {
    StartRead(run, t, s, p, name, r);
    StartStepIs(t, s + 1, p, name, attributes, f, r, e);
  }

  /** A start tag that opens an element. */
  lemma OpenRead(run: State -> State, t: seq<Byte>, s: nat, x: Item, p: Progress, f: Format, r: Reader, e: nat)
    requires Runs(run, t, r) && Undoes(r, f) && x.Element? && ValidName(x.name) && ValidAttributes(x.attributes)
    requires StartAt(t, s, x.name, x.attributes, f, e) && t[e] == GREATER
    ensures run(Content(s, p)) == run(Content(e + 1, PushFrame(p, x.name, x.attributes)))
  {
    TagRead(run, t, s, p, x.name, x.attributes, f, r, e, Content(e + 1, PushFrame(p, x.name, x.attributes)));
  }

  /** A tag that is a whole element. */
  lemma ClosedRead(run: State -> State, t: seq<Byte>, s: nat, x: Item, p: Progress, f: Format, r: Reader, e: nat)
    requires Runs(run, t, r) && Undoes(r, f) && x.Element? && x.children == [] && ValidName(x.name) && ValidAttributes(x.attributes)
    requires StartAt(t, s, x.name, x.attributes, f, e) && t[e] == SLASH && t[e + 1] == GREATER
    ensures run(Content(s, p)) == run(Content(e + 2, AddItem(p, x)))
  {
    TagRead(run, t, s, p, x.name, x.attributes, f, r, e, Content(e + 2, AddItem(p, x)));
  }

  lemma EmptyRead(run: State -> State, t: seq<Byte>, s: nat, x: Item, p: Progress, f: Format, r: Reader, e: nat, end: nat)
    requires Runs(run, t, r) && Undoes(r, f) && x.Element? && x.children == [] && ValidName(x.name) && ValidAttributes(x.attributes)
    requires StartAt(t, s, x.name, x.attributes, f, e) && EmptyAt(t, e, x.name, f, end)
    ensures run(Content(s, p)) == run(Content(end, AddItem(p, x)))
  {
    if f.closeEmpty {
      OpenRead(run, t, s, x, p, f, r, e);
      PushPop(p, x.name, x.attributes, []);
      EndRead(run, t, e + 1, PushFrame(p, x.name, x.attributes), x.name, r, end);
    } else {
      ClosedRead(run, t, s, x, p, f, r, e);
    }
  }

  /** Character data, up to the tag behind it. */
  lemma TextRead(run: State -> State, t: seq<Byte>, s: nat, v: seq<Byte>, p: Progress, f: Format, r: Reader, end: nat)
    requires Runs(run, t, r) && Undoes(r, f) && Reads(f, r.o) && 0 !in v && !Blank(v) && (p.open != [] || r.o.fragment)
    requires Here(t, s, PrintText(v, false, f)) && end == s + |PrintText(v, false, f)| && Followed(t, end)
    ensures run(Content(s, p)) == run(Content(end, AddItem(p, Text(Back(v, CharacterData(r.o))))))
  {
    var back := Back(v, CharacterData(r.o));
    assert r.text(t, s) == Read(back, end) by {
      HereSlice(t, s, PrintText(v, false, f));
      assert Printed(t, s, v, TextStyleOf(f), LESS);
    }
    TextInside(t, s, v, f, SkipSpaces(t, s));
    TextStepIs(t, s, p, r, back, end);
    ThroughLess(run, t, end, AddItem(p, Text(back)), r);
  }

  lemma TextStepIs(t: seq<Byte>, s: nat, p: Progress, r: Reader, v: seq<Byte>, end: nat)
    requires s <= end < |t| && t[s] != LESS && t[s] != 0 && (p.open != [] || r.o.fragment) && !r.o.trim
    requires var k := SkipSpaces(t, s); k < |t| && t[k] != LESS && t[k] != 0
    requires r.text(t, s) == Read(v, end) && Followed(t, end)
    ensures Step(t, Content(s, p), r) == Markup(end + 1, AddItem(p, Text(v)))
  {
  }

  /** Escaped character data that is not blank has a byte in it that is neither white space
      nor the start of a tag, and none that ends it. */
  lemma TextInside(t: seq<Byte>, s: nat, v: seq<Byte>, f: Format, k: nat)
    requires f.escapes && !f.skipControl && 0 !in v && !Blank(v) && Here(t, s, PrintText(v, false, f)) && k == SkipSpaces(t, s)
    ensures k < |t| && t[k] != LESS && t[k] != 0 && s < |t| && t[s] != LESS && t[s] != 0
  {
    var w := PrintText(v, false, f);
    var j := EscapedNotBlank(v, TextStyleOf(f));
    EscapedBytes(v, TextStyleOf(f));
    assert w[j] in w && t[s + j] == w[j];
    assert k <= s + j;
    assert w[k - s] in w && t[s + (k - s)] == w[k - s];
    assert w[0] in w && t[s + 0] == w[0];
  }

  lemma {:induction false} EscapedBytes(v: seq<Byte>, style: Style)
    requires 0 !in v && !style.attribute
    ensures forall c :: c in Escape(v, style) ==> c != LESS && c != 0
  {
    if v != [] {
      EscapedBytes(v[1..], style);
    }
  }

  lemma {:induction false} EscapedNotBlank(v: seq<Byte>, style: Style) returns (j: nat)
    requires !Blank(v) && !style.attribute && !style.skipControl
    ensures j < |Escape(v, style)| && !IsSpace(Escape(v, style)[j])
  {
    var first, rest := EscapeByte(v[0], style), Escape(v[1..], style);
    if IsSpace(v[0]) {
      assert v == [v[0]] + v[1..];
      var i := EscapedNotBlank(v[1..], style);
      j := |first| + i;
      assert Escape(v, style)[j] == rest[i];
    } else {
      j := 0;
      assert Escape(v, style)[0] == first[0];
    }
  }

  lemma {:induction false} ItemRead(run: State -> State, t: seq<Byte>, s: nat, x: Item, p: Progress, f: Format, due: Due,
      r: Reader, end: nat)
    requires Runs(run, t, r) && Undoes(r, f) && Reads(f, r.o) && Printable(x) && ItemAt(t, s, x, f, due, end)
    requires x.Text? ==> (p.open != [] || r.o.fragment) && Followed(t, end)
    ensures run(Content(s, p)) == run(Content(end, AddItem(p, BackItem(x, r.o))))
    decreases x, 0
  {
    match x {
      case Text(v) =>
        TextRead(run, t, s, v, p, f, r, end);
      case Element(_, _, _) =>
        ElementRead(run, t, s, x, p, f, due, r, end);
      case _ =>
    }
  }

  lemma {:induction false} ElementRead(run: State -> State, t: seq<Byte>, s: nat, x: Item, p: Progress, f: Format, due: Due,
      r: Reader, end: nat)
    requires Runs(run, t, r) && Undoes(r, f) && Reads(f, r.o) && Printable(x) && x.Element? && ItemAt(t, s, x, f, due, end)
    ensures run(Content(s, p)) == run(Content(end, AddItem(p, BackItem(x, r.o))))
    decreases x.children, 3
  {
    var k: nat, e: nat :| Gap(t, s, k, f, due) && StartAt(t, k, x.name, x.attributes, f, e)
      && if x.children == [] then EmptyAt(t, e, x.name, f, end) else t[e] == GREATER && InsideAt(t, e + 1, x, f, end);
    StartFollows(t, k, x, f, e);
    GapRead(run, t, s, k, p, f, due, r);
    if x.children == [] {
      EmptyRead(run, t, k, x, p, f, r, e, end);
      assert BackItem(x, r.o) == x;
    } else {
      OpenRead(run, t, k, x, p, f, r, e);
      InsideRead(run, t, e + 1, x, p, f, r, end);
    }
  }

  /** The children of an element and its end tag, from behind its start tag. */
  lemma {:induction false} InsideRead(run: State -> State, t: seq<Byte>, s: nat, x: Item, p: Progress, f: Format,
      r: Reader, end: nat)
    requires Runs(run, t, r) && Undoes(r, f) && Reads(f, r.o) && Printable(x) && x.Element? && x.children != []
    requires InsideAt(t, s, x, f, end)
    ensures run(Content(s, PushFrame(p, x.name, x.attributes))) == run(Content(end, AddItem(p, BackItem(x, r.o))))
    decreases x.children, 2
  {
    var due := DueAtEnd(x.children, BOTH);
    var c: nat, d: nat :| AllAt(t, s, x.children, f, BOTH, c) && Gap(t, c, d, f, due) && EndAt(t, d, x.name, end);
    var q := PushFrame(p, x.name, x.attributes);
    EndFollows(t, d, x.name, end);
    AllRead(run, t, s, x.children, q, f, BOTH, r, c);
    CloseRead(run, t, c, d, p, x.name, x.attributes, BackAll(x.children, r.o), f, due, r, end);
  }

  /** The end tag puts an element together from its frame and its children. */
  lemma CloseRead(run: State -> State, t: seq<Byte>, c: nat, d: nat, p: Progress, name: seq<Byte>, attributes: seq<Attr>,
      xs: seq<Item>, f: Format, due: Due, r: Reader, end: nat)
    requires Runs(run, t, r) && Reads(f, r.o) && ValidName(name) && Gap(t, c, d, f, due) && EndAt(t, d, name, end) && xs != []
    ensures run(Content(c, AddAll(PushFrame(p, name, attributes), xs)))
         == run(Content(end, AddItem(p, Element(name, attributes, xs))))
  {
    var q := AddAll(PushFrame(p, name, attributes), xs);
    PushPop(p, name, attributes, xs);
    GapRead(run, t, c, d, q, f, due, r);
    EndRead(run, t, d, q, name, r, end);
  }

  lemma EndFollows(t: seq<Byte>, c: nat, name: seq<Byte>, end: nat)
    requires EndAt(t, c, name, end)
    ensures Followed(t, c)
  {
  }

  lemma StartFollows(t: seq<Byte>, k: nat, x: Item, f: Format, e: nat)
    requires x.Element? && ValidName(x.name) && StartAt(t, k, x.name, x.attributes, f, e)
    ensures t[k] == LESS && Followed(t, k) && t[k + 1] != SLASH
  {
    HereByte(t, k + 1, x.name, 0);
  }

  /** Behind character data the tag of the next element follows at once. */
  lemma ElementFollows(t: seq<Byte>, s: nat, x: Item, f: Format, end: nat)
    requires ItemAt(t, s, x, f, NONE, end) && Printable(x) && x.Element?
    ensures Followed(t, s)
  {
    var k: nat, e: nat :| Gap(t, s, k, f, NONE) && StartAt(t, k, x.name, x.attributes, f, e);
    StartFollows(t, k, x, f, e);
  }

  predicate OnlyElements(xs: seq<Item>) {
    xs == [] || (xs[0].Element? && OnlyElements(xs[1..]))
  }

  /** A list of items, inside an element or at the top. */
  lemma {:induction false} AllRead(run: State -> State, t: seq<Byte>, s: nat, xs: seq<Item>, p: Progress, f: Format,
      due: Due, r: Reader, end: nat)
    requires Runs(run, t, r) && Undoes(r, f) && Reads(f, r.o) && PrintableAll(xs) && AllAt(t, s, xs, f, due, end)
    requires (p.open != [] && (DueAtEnd(xs, BOTH) == NONE ==> Followed(t, end))) || OnlyElements(xs)
    ensures run(Content(s, p)) == run(Content(end, AddAll(p, BackAll(xs, r.o))))
    decreases xs, 1
  {
    if xs != [] {
      var m: nat :| ItemAt(t, s, xs[0], f, due, m) && AllAt(t, m, xs[1..], f, DueAfter(xs[0]), end);
      if xs[0].Text? {
        TextFollowed(t, xs, f, m, end);
      }
      ItemRead(run, t, s, xs[0], p, f, due, r, m);
      var q := AddItem(p, BackItem(xs[0], r.o));
      AllRead(run, t, m, xs[1..], q, f, DueAfter(xs[0]), r, end);
      assert BackAll(xs, r.o)[0] == BackItem(xs[0], r.o) && BackAll(xs, r.o)[1..] == BackAll(xs[1..], r.o);
    }
  }

  lemma TextFollowed(t: seq<Byte>, xs: seq<Item>, f: Format, m: nat, end: nat)
    requires PrintableAll(xs) && xs != [] && xs[0].Text? && AllAt(t, m, xs[1..], f, NONE, end)
    requires DueAtEnd(xs, BOTH) == NONE ==> Followed(t, end)
    ensures Followed(t, m)
  {
    if |xs| > 1 {
      var rest := xs[1..];
      assert rest[0] == xs[1] && Printable(xs[1]);
      var k: nat :| ItemAt(t, m, rest[0], f, NONE, k) && AllAt(t, k, rest[1..], f, DueAfter(rest[0]), end);
      ElementFollows(t, m, xs[1], f, k);
    }
  }

  // ---------- the round trip ----------

  lemma {:induction false} AddAllTop(p: Progress, xs: seq<Item>)
    requires p.open == []
    ensures AddAll(p, xs) == p.(top := p.top + xs)
    decreases |xs|
  {
    if xs != [] {
      AddAllTop(AddItem(p, xs[0]), xs[1..]);
      assert p.top + xs == p.top + [xs[0]] + xs[1..];
    } else {
      assert p.top + xs == p.top;
    }
  }

  ghost function RunOf(t: seq<Byte>, r: Reader): State -> State {
    (st: State) => if (st.Content? || st.Markup?) && st.at > |t| then Bad else Run(t, st, r)
  }

  lemma RunRuns(t: seq<Byte>, r: Reader)
    ensures Runs(RunOf(t, r), t, r)
  {
  }

  /** Where the elements of a document stand in its printout: behind the first indentation, and
      in front of the last line end. */
  lemma DocumentLayout(t: seq<Byte>, xs: seq<Item>, f: Format, depth: nat) returns (s: nat, end: nat)
    requires Sensible(f) && PrintableAll(xs) && OnlyElements(xs) && t == Print(Document(xs), f, depth)
    ensures Gap(t, 0, s, f, BOTH) && AllAt(t, s, xs, f, INDENT, end) && Gap(t, end, |t|, f, BOTH)
  {
    s, end := DocumentBy((x: Item, n: nat, due: Due) => PrintItem(x, f, n, due).bytes, t, xs, f, depth);
  }

  lemma DocumentBy(g: (Item, nat, Due) -> seq<Byte>, t: seq<Byte>, xs: seq<Item>, f: Format, depth: nat)
      returns (s: nat, end: nat)
    requires Sensible(f) && PrintableAll(xs) && IsPrinter(g, f) && t == Print(Document(xs), f, depth)
    ensures Gap(t, 0, s, f, BOTH) && AllAt(t, s, xs, f, INDENT, end) && Gap(t, end, |t|, f, BOTH)
  {
    PrintedAllOf(g, xs, f, depth, INDENT);
    var lead, last := DocumentShape(xs, f, depth, AllOf(g, xs, depth, INDENT), t);
    s, end := DocumentLaid(g, t, xs, f, depth, lead, AllOf(g, xs, depth, INDENT), last);
  }

  lemma DocumentShape(xs: seq<Item>, f: Format, depth: nat, body: seq<Byte>, t: seq<Byte>)
      returns (lead: seq<Byte>, last: seq<Byte>)
    requires PrintList(xs, f, depth, INDENT).bytes == body && t == Print(Document(xs), f, depth)
    ensures t == lead + body + last && lead == Lead(f, depth, INDENT) && (last == [] || (last == [NEWLINE] && !f.raw))
  {
    lead := Lead(f, depth, INDENT);
    last := if PrintList(xs, f, depth, INDENT).due.newline && !f.raw then [NEWLINE] else [];
  }

  lemma DocumentLaid(g: (Item, nat, Due) -> seq<Byte>, t: seq<Byte>, xs: seq<Item>, f: Format, depth: nat,
      lead: seq<Byte>, body: seq<Byte>, last: seq<Byte>) returns (s: nat, end: nat)
    requires Sensible(f) && PrintableAll(xs) && IsPrinter(g, f) && t == lead + body + last
    requires body == AllOf(g, xs, depth, INDENT)
    requires lead == Lead(f, depth, INDENT) && (last == [] || (last == [NEWLINE] && !f.raw))
    ensures Gap(t, 0, s, f, BOTH) && AllAt(t, s, xs, f, INDENT, end) && Gap(t, end, |t|, f, BOTH)
  {
    s, end := |lead|, |lead| + |body|;
    ThreeParts(t, lead, body, last);
    AllLayout(t, s, xs, f, depth, INDENT, g, end);
    OuterGaps(t, f, depth, lead, end, last);
  }

  lemma OuterGaps(t: seq<Byte>, f: Format, depth: nat, lead: seq<Byte>, end: nat, last: seq<Byte>)
    requires Sensible(f) && lead == Lead(f, depth, INDENT) && Here(t, 0, lead)
    requires (last == [] || (last == [NEWLINE] && !f.raw)) && Here(t, end, last) && |t| == end + |last|
    ensures Gap(t, 0, |lead|, f, BOTH) && Gap(t, end, |t|, f, BOTH)
  {
    LeadGap(t, 0, f, depth, INDENT, lead);
    HereBlank(t, end, last);
  }

  lemma ThreeParts(t: seq<Byte>, a: seq<Byte>, b: seq<Byte>, c: seq<Byte>)
    requires t == a + b + c
    ensures Here(t, 0, a) && Here(t, |a|, b) && Here(t, |a| + |b|, c)
  {
    assert Here(t, 0, a + b + c);
    HereSplit(t, 0, a + b, c);
    HereSplit(t, 0, a, b);
  }

  /** White space in front of white space. */
  lemma WiderGap(t: seq<Byte>, i: nat, s: nat, xs: seq<Item>, f: Format, end: nat)
    requires Gap(t, i, s, f, BOTH) && AllAt(t, s, xs, f, INDENT, end) && PrintableAll(xs) && OnlyElements(xs) && xs != []
    ensures AllAt(t, i, xs, f, INDENT, end)
  {
    var m: nat :| ItemAt(t, s, xs[0], f, INDENT, m) && AllAt(t, m, xs[1..], f, DueAfter(xs[0]), end);
    WiderItem(t, i, s, xs[0], f, m);
  }

  lemma WiderItem(t: seq<Byte>, i: nat, s: nat, x: Item, f: Format, end: nat)
    requires Gap(t, i, s, f, BOTH) && x.Element? && ItemAt(t, s, x, f, INDENT, end)
    ensures ItemAt(t, i, x, f, INDENT, end)
  {
    var k: nat, e: nat :| Gap(t, s, k, f, INDENT) && StartAt(t, k, x.name, x.attributes, f, e)
      && if x.children == [] then EmptyAt(t, e, x.name, f, end) else t[e] == GREATER && InsideAt(t, e + 1, x, f, end);
    assert Gap(t, i, k, f, INDENT);
  }

  lemma DocumentRead(t: seq<Byte>, xs: seq<Item>, f: Format, r: Reader, end: nat)
    requires Undoes(r, f) && Reads(f, r.o) && PrintableAll(xs) && OnlyElements(xs) && xs != []
    requires AllAt(t, 0, xs, f, INDENT, end) && Gap(t, end, |t|, f, BOTH)
    ensures Run(t, Content(0, Progress([], [])), r) == Finished(Progress(BackAll(xs, r.o), []))
  {
    var run, p := RunOf(t, r), Progress([], []);
    RunRuns(t, r);
    AllRead(run, t, 0, xs, p, f, INDENT, r, end);
    AddAllTop(p, BackAll(xs, r.o));
    var q := AddAll(p, BackAll(xs, r.o));
    assert q == Progress(BackAll(xs, r.o), []);
    GapRead(run, t, end, |t|, q, f, BOTH, r);
    assert Step(t, Content(|t|, q), r) == Finished(q);
    assert run(Content(|t|, q)) == run(Finished(q));
  }

  /** Wherever the elements of a document stand in a text, in whatever white space the markup
      allows, parsing gives the document. */
  lemma TextParses(t: seq<Byte>, xs: seq<Item>, f: Format, o: Options, end: nat)
    requires Reads(f, o) && PrintableAll(xs) && OnlyElements(xs) && xs != []
    requires AllAt(t, 0, xs, f, INDENT, end) && Gap(t, end, |t|, f, BOTH)
    ensures Parse(t, o) == Parsed(BackAll(xs, o))
  {
    ReaderUndoes(f, o);
    DocumentRead(t, xs, f, ReaderFor(o), end);
    NoMark(t, xs, f, end);
    assert BackAll(xs, o)[0] == BackItem(xs[0], o) && BackItem(xs[0], o).Element?;
  }

  /** Parsing the printout of a document gives the document back, with the line ends in its
      character data normalised if the parser is asked to do that. */
  lemma RoundTrip(xs: seq<Item>, f: Format, o: Options, depth: nat)
    requires Reads(f, o) && PrintableAll(xs) && OnlyElements(xs) && xs != []
    ensures Parse(Print(Document(xs), f, depth), o) == Parsed(BackAll(xs, o))
  {
    var t := Print(Document(xs), f, depth);
    var s, end := DocumentLayout(t, xs, f, depth);
    WiderGap(t, 0, s, xs, f, end);
    TextParses(t, xs, f, o, end);
  }

  lemma NoMark(t: seq<Byte>, xs: seq<Item>, f: Format, end: nat)
    requires AllAt(t, 0, xs, f, INDENT, end) && PrintableAll(xs) && OnlyElements(xs) && xs != []
    ensures Start(t) == 0
  {
    var m: nat :| ItemAt(t, 0, xs[0], f, INDENT, m) && AllAt(t, m, xs[1..], f, DueAfter(xs[0]), end);
    var k: nat, e: nat :| Gap(t, 0, k, f, INDENT) && StartAt(t, k, xs[0].name, xs[0].attributes, f, e);
    assert k > 0 ==> IsSpace(t[0]);
  }

  predicate NoReturns(x: Item)
    decreases x
  {
    match x
    case Text(value) => RETURN !in value
    case Leaf(_) => true
    case Element(_, _, children) => NoReturnsIn(children)
    case Document(children) => NoReturnsIn(children)
  }

  predicate NoReturnsIn(xs: seq<Item>)
    decreases xs
  {
    xs == [] || (NoReturns(xs[0]) && NoReturnsIn(xs[1..]))
  }

  lemma {:induction false} BackSame(x: Item, o: Options)
    ensures BackItem(x, o) == x <==> !o.eol || NoReturns(x)
    decreases x, 0
  {
    match x {
      case Text(value) =>
        NormalisedSame(value);
      case Leaf(_) =>
      case Element(_, _, children) =>
        BackAllSame(children, o);
      case Document(children) =>
        BackAllSame(children, o);
    }
  }

  lemma {:induction false} BackAllSame(xs: seq<Item>, o: Options)
    ensures BackAll(xs, o) == xs <==> !o.eol || NoReturnsIn(xs)
    decreases xs, 1
  {
    if xs != [] {
      BackSame(xs[0], o);
      BackAllSame(xs[1..], o);
      assert BackAll(xs, o)[0] == BackItem(xs[0], o) && BackAll(xs, o)[1..] == BackAll(xs[1..], o);
      assert xs == [xs[0]] + xs[1..];
    }
  }

  /** A document comes back unchanged exactly if the parser does not convert line ends, or
      there is no carriage return in its character data. */
  lemma DocumentSurvives(xs: seq<Item>, f: Format, o: Options, depth: nat)
    requires Reads(f, o) && PrintableAll(xs) && OnlyElements(xs) && xs != []
    ensures Parse(Print(Document(xs), f, depth), o) == Parsed(xs) <==> !o.eol || NoReturnsIn(xs)
  {
    RoundTrip(xs, f, o, depth);
    BackAllSame(xs, o);
  }
}
