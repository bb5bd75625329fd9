/** The parser's scan of elements, attributes and character data. */
module MarkupParser {
  import opened Escapes
  import opened EscapedText
  import opened Markup

  /** The parse options that concern elements, attributes and character data. */
  datatype Options = Options(escapes: bool, eol: bool, wconv: bool, trim: bool, wsPcdata: bool, wsSingle: bool,
    fragment: bool)

  /** What a conversion makes of the text it is given: the text converted, and where parsing
      goes on. */
  datatype Read = Read(value: seq<Byte>, next: nat) | Unread

  /** The conversions for attribute values and for character data, which the parser selects
      by its options and calls through pointers. */
  datatype Reader = Reader(o: Options, attribute: (seq<Byte>, nat, Byte) -> Read, text: (seq<Byte>, nat) -> Read)

  function ReaderFor(o: Options): Reader {
    Reader(o, (t: seq<Byte>, i: nat, q: Byte) => ReadAttribute(t, i, q, o),
      (t: seq<Byte>, i: nat) => ReadCharacters(t, i, o))
  }

  /** A NUL that a reference stands for ends the string it is in. */
  function CString(s: seq<Byte>): (r: seq<Byte>)
    ensures r <= s && 0 !in r && (|r| < |s| ==> s[|r|] == 0)
    ensures 0 !in s ==> r == s
  {
    if s == [] || s[0] == 0 then [] else [s[0]] + CString(s[1..])
  }

  /** An attribute value, from behind its opening quote `q` to behind its closing one. */
  function ReadAttribute(t: seq<Byte>, i: nat, q: Byte, o: Options): (r: Read)
    ensures r.Read? ==> i < r.next <= |t|
  {
    if i > |t| then Unread
    else
      var m := AttributeText(q, o);
      var stop := StopAt(t, i, m);
      if stop == |t| || t[stop] != q then Unread else Read(CString(Convert(t, i, m)), stop + 1)
  }

  /** Character data, up to the next tag or the end. */
  function ReadCharacters(t: seq<Byte>, i: nat, o: Options): (r: Read)
    ensures r.Read? ==> i <= r.next <= |t|
  {
    if i > |t| then Unread
    else
      var m := CharacterData(o);
      Read(CString(Trimmed(Convert(t, i, m), o.trim)), StopAt(t, i, m))
  }

  function AttributeText(stop: Byte, o: Options): Mode {
    Mode(stop, o.escapes, if o.wconv then ToSpace else if o.eol then ToNewline else Keep)
  }

  function CharacterData(o: Options): Mode {
    Mode(LESS, o.escapes, if o.eol then ToNewline else Keep)
  }

  /** `ct_start_symbol` and `ct_symbol`. */
  predicate IsStartSymbol(c: Byte) {
    65 <= c <= 90 || 97 <= c <= 122 || c == 95 || c == 58 || c >= 128
  }

  predicate IsSymbol(c: Byte) {
    IsStartSymbol(c) || 48 <= c <= 57 || c == 45 || c == 46
  }

  /** The byte at `i`; behind the last one stands the NUL that ends the buffer. */
  function ByteAt(t: seq<Byte>, i: nat): Byte {
    if i < |t| then t[i] else 0
  }

  function SkipSpaces(t: seq<Byte>, i: nat): (k: nat)
    requires i <= |t|
    ensures i <= k <= |t| && (k < |t| ==> !IsSpace(t[k])) && forall j :: i <= j < k ==> IsSpace(t[j])
    decreases |t| - i
  {
    if i < |t| && IsSpace(t[i]) then SkipSpaces(t, i + 1) else i
  }

  function NameEnd(t: seq<Byte>, i: nat): (k: nat)
    requires i <= |t|
    ensures i <= k <= |t| && (k < |t| ==> !IsSymbol(t[k])) && forall j :: i <= j < k ==> IsSymbol(t[j])
    decreases |t| - i
  {
    if i < |t| && IsSymbol(t[i]) then NameEnd(t, i + 1) else i
  }

  // ---------- attributes ----------

  datatype Tag = Opened(attributes: seq<Attr>, next: nat) | Closed(attributes: seq<Attr>, next: nat) | BadTag

  /** One attribute, from the start of its name: itself and where it ends. */
  datatype Attribute = Attribute(attribute: Attr, next: nat) | BadAttribute

  /** The value, from the opening quote. */
  function ParseValue(t: seq<Byte>, i: nat, name: seq<Byte>, r: Reader): (a: Attribute)
    requires i <= |t|
    ensures a.Attribute? ==> i < a.next <= |t|
  {
    var q := ByteAt(t, i);
    if q != QUOTE && q != APOSTROPHE then BadAttribute
    else
      var v := r.attribute(t, i + 1, q);
      if v.Unread? || !(i < v.next <= |t|) || IsStartSymbol(ByteAt(t, v.next)) then BadAttribute
      else Attribute(Attr(name, v.value), v.next)
  }

  function ParseAttribute(t: seq<Byte>, i: nat, r: Reader): (a: Attribute)
    requires i <= |t|
    ensures a.Attribute? ==> i < a.next <= |t|
  {
    var e := NameEnd(t, i);
    var equals := if IsSpace(ByteAt(t, e)) then SkipSpaces(t, e + 1) else e;
    if ByteAt(t, equals) != EQUALS then BadAttribute
    else ParseValue(t, SkipSpaces(t, equals + 1), t[i..e], r)
  }

  /** The attributes of a start tag, and whether an end tag is to follow. */
  function ParseAttributes(t: seq<Byte>, i: nat, r: Reader): (tag: Tag)
    requires i <= |t|
    ensures !tag.BadTag? ==> i < tag.next <= |t|
    decreases |t| - i
  {
    var s := SkipSpaces(t, i);
    var c := ByteAt(t, s);
    if IsStartSymbol(c) then
      match ParseAttribute(t, s, r)
      case BadAttribute => BadTag
      case Attribute(a, next) =>
        match ParseAttributes(t, next, r)
        case Opened(more, end) => Opened([a] + more, end)
        case Closed(more, end) => Closed([a] + more, end)
        case BadTag => BadTag
    else if c == SLASH then
      if ByteAt(t, s + 1) == GREATER then Closed([], s + 2) else BadTag
    else if c == GREATER then Opened([], s + 1)
    else BadTag
  }

  // ---------- the tree ----------

  /** An element whose end tag has not been met yet, with its children so far. */
  datatype Frame = Frame(name: seq<Byte>, attributes: seq<Attr>, children: seq<Item>)

  /** What is parsed so far: the children of the document, and the open elements from the
      outermost to the innermost. */
  datatype Progress = Progress(top: seq<Item>, open: seq<Frame>)

  function AddItem(p: Progress, x: Item): Progress {
    if p.open == [] then p.(top := p.top + [x])
    else
      var last := |p.open| - 1;
      p.(open := p.open[last := p.open[last].(children := p.open[last].children + [x])])
  }

  function PushFrame(p: Progress, name: seq<Byte>, attributes: seq<Attr>): Progress {
    p.(open := p.open + [Frame(name, attributes, [])])
  }

  function PopFrame(p: Progress): Progress
    requires p.open != []
  {
    var f := p.open[|p.open| - 1];
    AddItem(p.(open := p.open[..|p.open| - 1]), Element(f.name, f.attributes, f.children))
  }

  /** Where the scan is: in front of content, behind a `<`, or at its end. `Other` is markup
      that is not part of this model. */
  datatype State = Content(at: nat, p: Progress) | Markup(at: nat, p: Progress) | Finished(p: Progress) | Bad | Other

  /** What follows the name of a start tag that ends at `e`: the attributes, if white space
      does. */
  function TagBehind(t: seq<Byte>, e: nat, r: Reader): (tag: Tag)
    requires e <= |t|
    ensures !tag.BadTag? ==> e < tag.next <= |t|
  {
    if IsSpace(ByteAt(t, e)) then ParseAttributes(t, e + 1, r) else BadTag
  }

  /** What a start tag comes to: from its name, the two bytes behind it, and its attributes. */
  function StartResult(name: seq<Byte>, e: nat, c: Byte, d: Byte, tag: Tag, p: Progress): State {
    if c == GREATER then Content(e + 1, PushFrame(p, name, []))
    else if IsSpace(c) then
      match tag
      case Opened(attributes, next) => Content(next, PushFrame(p, name, attributes))
      case Closed(attributes, next) => Content(next, AddItem(p, Element(name, attributes, [])))
      case BadTag => Bad
    else if c == SLASH && d == GREATER then Content(e + 2, AddItem(p, Element(name, [], [])))
    else Bad
  }

  /** A start tag, from its name. */
  function StartStep(t: seq<Byte>, s: nat, p: Progress, r: Reader): State
    requires s < |t|
  {
    var e := NameEnd(t, s);
    StartResult(t[s..e], e, ByteAt(t, e), ByteAt(t, e + 1), TagBehind(t, e, r), p)
  }

  /** An end tag, from behind its slash: its name must be that of the innermost open
      element. */
  function EndStep(t: seq<Byte>, s: nat, p: Progress): State
    requires s <= |t|
  {
    var e := NameEnd(t, s);
    if p.open == [] || t[s..e] != p.open[|p.open| - 1].name then Bad
    else
      var k := SkipSpaces(t, e);
      if ByteAt(t, k) == GREATER then Content(k + 1, PopFrame(p)) else Bad
  }

  /** What follows character data that ends at `stop`: markup, or the end of the document. */
  function AfterText(t: seq<Byte>, stop: nat, p: Progress): State
    requires stop <= |t|
  {
    if ByteAt(t, stop) == LESS && ByteAt(t, stop + 1) != 0 then Markup(stop + 1, p) else Ended(p)
  }

  function Ended(p: Progress): State {
    if p.open == [] then Finished(p) else Bad
  }

  /** Whether white space between tags becomes a node. */
  predicate KeepsSpace(t: seq<Byte>, k: nat, p: Progress, o: Options) {
    && (o.wsPcdata || o.wsSingle) && !o.trim
    && (o.wsSingle ==>
          ByteAt(t, k) == LESS && ByteAt(t, k + 1) == SLASH && (if p.open == [] then p.top == [] else p.open[|p.open| - 1].children == []))
  }

  /** The first `<` from `i` on, or the end of the document. */
  function FindLess(t: seq<Byte>, i: nat): (k: nat)
    requires i <= |t|
    ensures i <= k <= |t| && (k < |t| ==> t[k] == LESS || t[k] == 0)
    decreases |t| - i
  {
    if i < |t| && t[i] != LESS && t[i] != 0 then FindLess(t, i + 1) else i
  }

  /** Character data becomes a node inside an element, and is passed over outside. */
  function TextStep(t: seq<Byte>, from: nat, p: Progress, r: Reader): State
    requires from <= |t|
  {
    if p.open != [] || r.o.fragment then
      var v := r.text(t, from);
      if v.Unread? || !(from <= v.next <= |t|) then Bad else AfterText(t, v.next, AddItem(p, Text(v.value)))
    else
      var k := FindLess(t, from);
      if ByteAt(t, k) == LESS then Markup(k + 1, p) else Ended(p)
  }

  function ContentStep(t: seq<Byte>, s: nat, p: Progress, r: Reader): State
    requires s <= |t|
  {
    var c := ByteAt(t, s);
    if c == 0 then Ended(p)
    else if c == LESS then Markup(s + 1, p)
    else
      var k := SkipSpaces(t, s);
      var blank := ByteAt(t, k) == LESS || ByteAt(t, k) == 0;
      if blank && !KeepsSpace(t, k, p, r.o) then Content(k, p)
      else TextStep(t, if r.o.trim then k else s, p, r)
  }

  function MarkupStep(t: seq<Byte>, s: nat, p: Progress, r: Reader): State
    requires s <= |t|
  {
    var c := ByteAt(t, s);
    if IsStartSymbol(c) then StartStep(t, s, p, r)
    else if c == SLASH then EndStep(t, s + 1, p)
    else if c == QUESTION || c == EXCLAMATION then Other
    else Bad
  }

  /** How far a state has come, in half steps. */
  function Reached(t: seq<Byte>, st: State): nat {
    match st
    case Content(at, _) => 2 * at + 1
    case Markup(at, _) => 2 * at
    case _ => 2 * |t| + 2
  }

  function Step(t: seq<Byte>, st: State, r: Reader): (next: State)
    requires st.Content? || st.Markup?
    requires st.at <= |t|
    ensures Reached(t, st) < Reached(t, next)
    ensures next.Content? || next.Markup? ==> next.at <= |t|
  {
    if st.Content? then ContentStep(t, st.at, st.p, r) else MarkupStep(t, st.at, st.p, r)
  }

  /** The loop of `parse_tree`. */
  function Run(t: seq<Byte>, st: State, r: Reader): State
    requires st.Content? || st.Markup? ==> st.at <= |t|
    decreases 2 * |t| + 2 - Reached(t, st)
  {
    if st.Content? || st.Markup? then Run(t, Step(t, st, r), r) else st
  }

  /** A byte order mark is passed over. */
  function Start(t: seq<Byte>): (s: nat)
    ensures s <= |t|
  {
    if ByteAt(t, 0) == 0xEF && ByteAt(t, 1) == 0xBB && ByteAt(t, 2) == 0xBF then 3 else 0
  }

  datatype Result = Parsed(children: seq<Item>) | Failed | NotModelled

  predicate HasElement(xs: seq<Item>) {
    exists i :: 0 <= i < |xs| && xs[i].Element?
  }

  /** The children of the document, unless there is a mistake or no element. */
  function Parse(t: seq<Byte>, o: Options): Result {
    match Run(t, Content(Start(t), Progress([], [])), ReaderFor(o))
    case Finished(p) => if o.fragment || HasElement(p.top) then Parsed(p.top) else Failed
    case Other => NotModelled
    case _ => Failed
  }
}
