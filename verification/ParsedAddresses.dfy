/** Where the parser leaves the names and values of a document: in the buffer, in document
    order.  So the comparator may go by their addresses, in whatever way the document is
    edited afterwards. */
module ParsedAddresses {
  import opened Escapes
  import opened Markup
  import opened MarkupParser
  import opened DocumentOrder
  import opened Axes
  import opened Comparator
  import D = Documents
  import B = BufferAddresses
  import S = BufferSharing

  // ---------- the strings a step of the parser stores ----------

  function Stored(attribute: bool, name: B.Text, value: B.Text): B.Item {
    B.Item(attribute, name, value, false, false, false)
  }

  function ElementPlace(at: nat, name: seq<Byte>): B.Item {
    Stored(false, B.InBuffer(at, |name|), B.Null)
  }

  function TextPlace(at: nat, value: seq<Byte>): B.Item {
    Stored(false, B.Null, B.InBuffer(at, |value|))
  }

  /** The opening quote of the attribute whose name begins at `i`. */
  function QuoteAt(t: seq<Byte>, i: nat): (k: nat)
    requires i <= |t|
    ensures i <= k
  {
    var e := NameEnd(t, i);
    var equals := if IsSpace(ByteAt(t, e)) then SkipSpaces(t, e + 1) else e;
    if ByteAt(t, equals) == EQUALS then SkipSpaces(t, equals + 1) else equals
  }

  function AttributePlace(t: seq<Byte>, i: nat, a: Attr): B.Item
    requires i <= |t|
  {
    Stored(true, B.InBuffer(i, |a.name|), B.InBuffer(QuoteAt(t, i) + 1, |a.value|))
  }

  /** Along `ParseAttributes`. */
  function AttributePlaces(t: seq<Byte>, i: nat, r: Reader): seq<B.Item>
    requires i <= |t|
    decreases |t| - i
  {
    var s := SkipSpaces(t, i);
    if !IsStartSymbol(ByteAt(t, s)) then []
    else
      match ParseAttribute(t, s, r)
      case BadAttribute => []
      case Attribute(a, next) => [AttributePlace(t, s, a)] + AttributePlaces(t, next, r)
  }

  /** Along `TagBehind`. */
  function TagPlaces(t: seq<Byte>, e: nat, r: Reader): seq<B.Item>
    requires e <= |t|
  {
    if IsSpace(ByteAt(t, e)) then AttributePlaces(t, e + 1, r) else []
  }

  /** Along `StartStep`. */
  function StartPlaces(t: seq<Byte>, s: nat, r: Reader): seq<B.Item>
    requires s < |t|
  {
    var e := NameEnd(t, s);
    [ElementPlace(s, t[s..e])] + TagPlaces(t, e, r)
  }

  /** Along `ContentStep`: white space that is dropped is not stored. */
  function ContentPlaces(t: seq<Byte>, s: nat, p: Progress, r: Reader): seq<B.Item>
    requires s <= |t|
  {
    var c := ByteAt(t, s);
    var k := SkipSpaces(t, s);
    var blank := ByteAt(t, k) == LESS || ByteAt(t, k) == 0;
    if c == 0 || c == LESS || (blank && !KeepsSpace(t, k, p, r.o)) || (p.open == [] && !r.o.fragment) then []
    else
      var from := if r.o.trim then k else s;
      var v := r.text(t, from);
      if v.Read? then [TextPlace(from, v.value)] else []
  }

  function StepPlaces(t: seq<Byte>, st: State, r: Reader): seq<B.Item>
    requires st.Content? || st.Markup?
    requires st.at <= |t|
  {
    if st.Content? then ContentPlaces(t, st.at, st.p, r)
    else if IsStartSymbol(ByteAt(t, st.at)) then StartPlaces(t, st.at, r)
    else []
  }

  /** All the strings that a run stores, one item for each node or attribute, as they come. */
  function RunPlaces(t: seq<Byte>, st: State, r: Reader): seq<B.Item>
    requires st.Content? || st.Markup? ==> st.at <= |t|
    decreases 2 * |t| + 2 - Reached(t, st)
  {
    if st.Content? || st.Markup? then StepPlaces(t, st, r) + RunPlaces(t, Step(t, st, r), r) else []
  }

  /** The document as it is loaded: the document node, which has no strings, and the rest. */
  function Loaded(t: seq<Byte>, o: Options): B.State {
    B.State([Stored(false, B.Null, B.Null)] + RunPlaces(t, Content(Start(t), Progress([], [])), ReaderFor(o)), false)
  }

  // ---------- they are in order ----------

  /** A string with its NUL lies between two places in the buffer. */
  predicate Lies(x: B.Text, lo: nat, hi: nat) {
    x.InBuffer? ==> lo <= x.at && x.at + x.length < hi
  }

  predicate ItemLies(x: B.Item, lo: nat, hi: nat) {
    Lies(x.name, lo, hi) && Lies(x.value, lo, hi) && S.Sound(x)
  }

  /** In order, apart from each other, and between two places in the buffer. */
  ghost predicate Within(items: seq<B.Item>, lo: nat, hi: nat) {
    && B.InOrder(items)
    && (forall i :: 0 <= i < |items| ==> ItemLies(items[i], lo, hi))
    && (forall i, j :: 0 <= i < j < |items| ==> S.ApartItems(items[i], items[j]))
  }

  /** Behind an attribute value comes its closing quote, and no conversion makes text longer. */
  ghost predicate Advances(r: Reader) {
    && (forall t: seq<Byte>, i: nat, q: Byte {:trigger r.attribute(t, i, q)} ::
          r.attribute(t, i, q).Read? && (q == QUOTE || q == APOSTROPHE) ==>
          i + |r.attribute(t, i, q).value| < r.attribute(t, i, q).next)
    && (forall t: seq<Byte>, i: nat {:trigger r.text(t, i)} ::
          r.text(t, i).Read? ==> i + |r.text(t, i).value| <= r.text(t, i).next)
  }

  lemma LiesWider(x: B.Item, lo: nat, hi: nat, lo': nat, hi': nat)
    requires ItemLies(x, lo, hi) && lo' <= lo && hi <= hi'
    ensures ItemLies(x, lo', hi')
  {
  }

  lemma LieApart(x: B.Item, y: B.Item, lo: nat, mid: nat, hi: nat)
    requires ItemLies(x, lo, mid) && ItemLies(y, mid, hi)
    ensures S.ApartItems(x, y) && forall a, b :: a in B.Addresses(x) && b in B.Addresses(y) ==> a < b
  {
  }

  lemma WithinJoins(x: seq<B.Item>, y: seq<B.Item>, lo: nat, mid: nat, hi: nat)
    requires Within(x, lo, mid) && Within(y, mid, hi) && lo <= mid <= hi
    ensures Within(x + y, lo, hi)
  {
    var z := x + y;
    forall i | 0 <= i < |z| ensures ItemLies(z[i], lo, hi) {
      if i < |x| {
        LiesWider(x[i], lo, mid, lo, hi);
      } else {
        LiesWider(y[i - |x|], mid, hi, lo, hi);
      }
    }
    forall i, j | 0 <= i < j < |z|
      ensures S.ApartItems(z[i], z[j]) && forall a, b :: a in B.Addresses(z[i]) && b in B.Addresses(z[j]) ==> a < b
    {
      if i < |x| <= j {
        LieApart(x[i], y[j - |x|], lo, mid, hi);
      } else if j < |x| {
        assert S.ApartItems(x[i], x[j]);
      } else {
        assert S.ApartItems(y[i - |x|], y[j - |x|]);
      }
    }
  }

  lemma {:induction false} AttributePlacesWithin(t: seq<Byte>, i: nat, r: Reader)
    requires Advances(r) && i <= |t| && !ParseAttributes(t, i, r).BadTag?
    ensures Within(AttributePlaces(t, i, r), i, ParseAttributes(t, i, r).next)
    decreases |t| - i
  {
    var s := SkipSpaces(t, i);
    if IsStartSymbol(ByteAt(t, s)) {
      var a := ParseAttribute(t, s, r);
      AttributePlacesWithin(t, a.next, r);
      AttributePlaceWithin(t, s, r);
      WithinJoins([AttributePlace(t, s, a.attribute)], AttributePlaces(t, a.next, r), i, a.next, ParseAttributes(t, i, r).next);
    }
  }

  lemma AttributePlaceWithin(t: seq<Byte>, s: nat, r: Reader)
    requires Advances(r) && s <= |t| && ParseAttribute(t, s, r).Attribute?
    ensures Within([AttributePlace(t, s, ParseAttribute(t, s, r).attribute)], s, ParseAttribute(t, s, r).next)
  {
    var k := QuoteAt(t, s);
    assert r.attribute(t, k + 1, ByteAt(t, k)).Read?;
  }

  /** Where the scan goes on behind a start tag. */
  lemma StartGoesOn(t: seq<Byte>, s: nat, p: Progress, r: Reader, e: nat)
    requires s < |t| && StartStep(t, s, p, r).Content? && e == NameEnd(t, s)
    ensures s <= e < StartStep(t, s, p, r).at
    ensures IsSpace(ByteAt(t, e)) ==> !TagBehind(t, e, r).BadTag? && StartStep(t, s, p, r).at == TagBehind(t, e, r).next
  {
  }

  lemma TagWithin(t: seq<Byte>, e: nat, r: Reader, hi: nat)
    requires Advances(r) && e <= |t| && e < hi
    requires IsSpace(ByteAt(t, e)) ==> !TagBehind(t, e, r).BadTag? && hi == TagBehind(t, e, r).next
    ensures Within(TagPlaces(t, e, r), e + 1, hi)
  {
    if IsSpace(ByteAt(t, e)) {
      AttributePlacesWithin(t, e + 1, r);
    }
  }

  lemma StartWithin(t: seq<Byte>, s: nat, p: Progress, r: Reader)
    requires Advances(r) && s < |t| && StartStep(t, s, p, r).Content?
    ensures Within(StartPlaces(t, s, r), s, StartStep(t, s, p, r).at)
  {
    var e, hi := NameEnd(t, s), StartStep(t, s, p, r).at;
    StartGoesOn(t, s, p, r, e);
    TagWithin(t, e, r, hi);
    WithinJoins([ElementPlace(s, t[s..e])], TagPlaces(t, e, r), s, e + 1, hi);
  }

  lemma ContentWithin(t: seq<Byte>, s: nat, p: Progress, r: Reader)
    requires Advances(r) && s <= |t| && (ContentStep(t, s, p, r).Content? || ContentStep(t, s, p, r).Markup?)
    ensures s <= ContentStep(t, s, p, r).at && Within(ContentPlaces(t, s, p, r), s, ContentStep(t, s, p, r).at)
  {
  }

  lemma StepWithin(t: seq<Byte>, st: State, r: Reader)
    requires Advances(r) && (st.Content? || st.Markup?) && st.at <= |t|
    requires Step(t, st, r).Content? || Step(t, st, r).Markup?
    ensures st.at <= Step(t, st, r).at && Within(StepPlaces(t, st, r), st.at, Step(t, st, r).at)
  {
    if st.Content? {
      ContentWithin(t, st.at, st.p, r);
    } else if IsStartSymbol(ByteAt(t, st.at)) {
      StartWithin(t, st.at, st.p, r);
    }
  }

  /** What the last step stores, if anything. */
  lemma LastWithin(t: seq<Byte>, st: State, r: Reader)
    requires Advances(r) && (st.Content? || st.Markup?) && st.at <= |t| && Step(t, st, r).Finished?
    ensures Within(StepPlaces(t, st, r), st.at, |t| + 1)
  {
    if st.Content? {
      LastContentWithin(t, st.at, st.p, r);
    } else {
      TagsGoOn(t, st.at, st.p, r);
    }
  }

  lemma TagsGoOn(t: seq<Byte>, s: nat, p: Progress, r: Reader)
    requires s <= |t|
    ensures !MarkupStep(t, s, p, r).Finished?
  {
  }

  lemma LastContentWithin(t: seq<Byte>, s: nat, p: Progress, r: Reader)
    requires Advances(r) && s <= |t| && ContentStep(t, s, p, r).Finished?
    ensures Within(ContentPlaces(t, s, p, r), s, |t| + 1)
  {
    var k := SkipSpaces(t, s);
    assert s <= k <= |t|;
  }

  lemma ReaderAdvances(o: Options)
    ensures Advances(ReaderFor(o))
  {
    var r := ReaderFor(o);
    forall t: seq<Byte>, i: nat, q: Byte | r.attribute(t, i, q).Read? && (q == QUOTE || q == APOSTROPHE)
      ensures i + |r.attribute(t, i, q).value| < r.attribute(t, i, q).next
    {
      ConvertShrinks(t, i, AttributeText(q, o));
    }
    forall t: seq<Byte>, i: nat | r.text(t, i).Read? ensures i + |r.text(t, i).value| <= r.text(t, i).next {
      ConvertShrinks(t, i, CharacterData(o));
    }
  }

  // ---------- they are those of the document ----------

  /** A node or attribute by the lengths of its strings. */
  datatype Label = Label(attribute: bool, name: Size, value: Size)

  datatype Size = Absent | Has(length: nat)

  function SizeOf(text: B.Text): Size {
    if text.Null? then Absent else Has(text.length)
  }

  function LabelOf(x: B.Item): Label {
    Label(x.attribute, SizeOf(x.name), SizeOf(x.value))
  }

  function Labels(items: seq<B.Item>): seq<Label> {
    seq(|items|, i requires 0 <= i < |items| => LabelOf(items[i]))
  }

  function AttributeLabels(s: seq<Attr>): seq<Label> {
    if s == [] then [] else [Label(true, Has(|s[0].name|), Has(|s[0].value|))] + AttributeLabels(s[1..])
  }

  function HeadLabels(name: seq<Byte>, attributes: seq<Attr>): seq<Label> {
    [Label(false, Has(|name|), Absent)] + AttributeLabels(attributes)
  }

  function DataSize(data: Optional): Size {
    if data.Given? then Has(|data.value|) else Absent
  }

  function SimpleLabels(x: Simple): seq<Label> {
    match x
    case Cdata(value) => [Label(false, Absent, Has(|value|))]
    case Comment(value) => [Label(false, Absent, Has(|value|))]
    case Instruction(target, data) => [Label(false, Has(|target|), DataSize(data))]
    case Declaration(target, attributes) => HeadLabels(target, attributes)
    case Doctype(data) => [Label(false, Absent, DataSize(data))]
  }

  /** A node, its attributes, and all below it, in document order. */
  function ItemLabels(x: Item): seq<Label>
    decreases x
  {
    match x
    case Text(value) => [Label(false, Absent, Has(|value|))]
    case Element(name, attributes, children) => HeadLabels(name, attributes) + ListLabels(children)
    case Document(children) => [Label(false, Absent, Absent)] + ListLabels(children)
    case Leaf(what) => SimpleLabels(what)
  }

  function ListLabels(xs: seq<Item>): seq<Label>
    decreases xs
  {
    if xs == [] then [] else ItemLabels(xs[0]) + ListLabels(xs[1..])
  }

  function OpenLabels(open: seq<Frame>): seq<Label> {
    if open == [] then []
    else
      var f := open[|open| - 1];
      OpenLabels(open[..|open| - 1]) + HeadLabels(f.name, f.attributes) + ListLabels(f.children)
  }

  function ProgressLabels(p: Progress): seq<Label> {
    ListLabels(p.top) + OpenLabels(p.open)
  }

  lemma {:induction false} ListLabelsGrow(xs: seq<Item>, x: Item)
    ensures ListLabels(xs + [x]) == ListLabels(xs) + ItemLabels(x)
    decreases |xs|
  {
    if xs == [] {
      assert [x][1..] == [];
    } else {
      assert (xs + [x])[1..] == xs[1..] + [x];
      ListLabelsGrow(xs[1..], x);
    }
  }

  lemma AddLabels(p: Progress, x: Item)
    ensures ProgressLabels(AddItem(p, x)) == ProgressLabels(p) + ItemLabels(x)
  {
    if p.open == [] {
      ListLabelsGrow(p.top, x);
    } else {
      var last := |p.open| - 1;
      var q := AddItem(p, x);
      assert q.open[..last] == p.open[..last];
      ListLabelsGrow(p.open[last].children, x);
    }
  }

  lemma PushLabels(p: Progress, name: seq<Byte>, attributes: seq<Attr>)
    ensures ProgressLabels(PushFrame(p, name, attributes)) == ProgressLabels(p) + HeadLabels(name, attributes)
  {
    var q := PushFrame(p, name, attributes);
    assert q.open[..|p.open|] == p.open;
  }

  /** Closing an element changes nothing about the order of what there is. */
  lemma PopLabels(p: Progress)
    requires p.open != []
    ensures ProgressLabels(PopFrame(p)) == ProgressLabels(p)
  {
    var f := p.open[|p.open| - 1];
    AddLabels(p.(open := p.open[..|p.open| - 1]), Element(f.name, f.attributes, f.children));
  }

  lemma AttributeStep(t: seq<Byte>, i: nat, r: Reader) returns (a: Attr, place: B.Item, next: nat)
    requires i <= |t| && !ParseAttributes(t, i, r).BadTag? && IsStartSymbol(ByteAt(t, SkipSpaces(t, i)))
    ensures i < next <= |t| && !ParseAttributes(t, next, r).BadTag?
    ensures ParseAttributes(t, i, r).attributes == [a] + ParseAttributes(t, next, r).attributes
    ensures AttributePlaces(t, i, r) == [place] + AttributePlaces(t, next, r)
    ensures LabelOf(place) == Label(true, Has(|a.name|), Has(|a.value|))
  {
    var s := SkipSpaces(t, i);
    var p := ParseAttribute(t, s, r);
    a, next := p.attribute, p.next;
    place := AttributePlace(t, s, a);
  }

  lemma NoAttributes(t: seq<Byte>, i: nat, r: Reader)
    requires i <= |t| && !ParseAttributes(t, i, r).BadTag? && !IsStartSymbol(ByteAt(t, SkipSpaces(t, i)))
    ensures ParseAttributes(t, i, r).attributes == [] && AttributePlaces(t, i, r) == []
  {
  }

  lemma AttributeLabelsCons(a: Attr, more: seq<Attr>)
    ensures AttributeLabels([a] + more) == [Label(true, Has(|a.name|), Has(|a.value|))] + AttributeLabels(more)
  {
    assert ([a] + more)[1..] == more;
  }

  lemma {:induction false} AttributePlacesLabels(t: seq<Byte>, i: nat, r: Reader)
    requires i <= |t| && !ParseAttributes(t, i, r).BadTag?
    ensures Labels(AttributePlaces(t, i, r)) == AttributeLabels(ParseAttributes(t, i, r).attributes)
    decreases |t| - i
  {
    if IsStartSymbol(ByteAt(t, SkipSpaces(t, i))) {
      var a, place, next := AttributeStep(t, i, r);
      AttributePlacesLabels(t, next, r);
      LabelsJoin([place], AttributePlaces(t, next, r));
      AttributeLabelsCons(a, ParseAttributes(t, next, r).attributes);
    } else {
      NoAttributes(t, i, r);
    }
  }

  lemma LabelsJoin(x: seq<B.Item>, y: seq<B.Item>)
    ensures Labels(x + y) == Labels(x) + Labels(y)
  {
  }

  function TagAttributes(tag: Tag): seq<Attr> {
    if tag.BadTag? then [] else tag.attributes
  }

  lemma StartProgress(t: seq<Byte>, s: nat, p: Progress, r: Reader, e: nat)
    requires s < |t| && StartStep(t, s, p, r).Content? && e == NameEnd(t, s)
    ensures var name, attributes := t[s..e], TagAttributes(TagBehind(t, e, r));
            var q := StartStep(t, s, p, r).p;
            q == PushFrame(p, name, attributes) || q == AddItem(p, Element(name, attributes, []))
    ensures IsSpace(ByteAt(t, e)) ==> !TagBehind(t, e, r).BadTag?
  {
  }

  lemma TagLabels(t: seq<Byte>, e: nat, r: Reader)
    requires e <= |t| && (IsSpace(ByteAt(t, e)) ==> !TagBehind(t, e, r).BadTag?)
    ensures Labels(TagPlaces(t, e, r)) == AttributeLabels(TagAttributes(TagBehind(t, e, r)))
  {
    if IsSpace(ByteAt(t, e)) {
      AttributePlacesLabels(t, e + 1, r);
    }
  }

  lemma HeadPlacesLabels(at: nat, name: seq<Byte>, places: seq<B.Item>, attributes: seq<Attr>)
    requires Labels(places) == AttributeLabels(attributes)
    ensures Labels([ElementPlace(at, name)] + places) == HeadLabels(name, attributes)
  {
    LabelsJoin([ElementPlace(at, name)], places);
  }

  lemma EmptyLabels(name: seq<Byte>, attributes: seq<Attr>)
    ensures ItemLabels(Element(name, attributes, [])) == HeadLabels(name, attributes)
  {
  }

  lemma StartLabels(t: seq<Byte>, s: nat, p: Progress, r: Reader)
    requires s < |t| && StartStep(t, s, p, r).Content?
    ensures ProgressLabels(StartStep(t, s, p, r).p) == ProgressLabels(p) + Labels(StartPlaces(t, s, r))
  {
    var e := NameEnd(t, s);
    var name, attributes := t[s..e], TagAttributes(TagBehind(t, e, r));
    StartProgress(t, s, p, r, e);
    TagLabels(t, e, r);
    HeadPlacesLabels(s, name, TagPlaces(t, e, r), attributes);
    PushLabels(p, name, attributes);
    AddLabels(p, Element(name, attributes, []));
    EmptyLabels(name, attributes);
  }

  lemma StepLabels(t: seq<Byte>, st: State, r: Reader)
    requires (st.Content? || st.Markup?) && st.at <= |t|
    requires var next := Step(t, st, r); next.Content? || next.Markup? || next.Finished?
    ensures ProgressLabels(Step(t, st, r).p) == ProgressLabels(st.p) + Labels(StepPlaces(t, st, r))
  {
    if st.Markup? && IsStartSymbol(ByteAt(t, st.at)) {
      StartLabels(t, st.at, st.p, r);
    } else if st.Markup? {
      if st.p.open != [] { PopLabels(st.p); }
    } else {
      ContentLabels(t, st.at, st.p, r);
    }
  }

  lemma ContentLabels(t: seq<Byte>, s: nat, p: Progress, r: Reader)
    requires s <= |t|
    requires var next := ContentStep(t, s, p, r); next.Content? || next.Markup? || next.Finished?
    ensures ProgressLabels(ContentStep(t, s, p, r).p) == ProgressLabels(p) + Labels(ContentPlaces(t, s, p, r))
  {
    var x := ContentProgress(t, s, p, r);
    if x.Some? {
      AddLabels(p, Text(x.value));
    }
  }

  /** The character data that a step adds, if any. */
  lemma ContentProgress(t: seq<Byte>, s: nat, p: Progress, r: Reader) returns (x: D.Option<seq<Byte>>)
    requires s <= |t|
    requires var next := ContentStep(t, s, p, r); next.Content? || next.Markup? || next.Finished?
    ensures ContentStep(t, s, p, r).p == if x.Some? then AddItem(p, Text(x.value)) else p
    ensures Labels(ContentPlaces(t, s, p, r)) == if x.Some? then [Label(false, Absent, Has(|x.value|))] else []
  {
    var places := ContentPlaces(t, s, p, r);
    x := if places == [] then D.None else D.Some(r.text(t, if r.o.trim then SkipSpaces(t, s) else s).value);
  }

  predicate Fits(t: seq<Byte>, st: State) {
    st.Content? || st.Markup? ==> st.at <= |t|
  }

  /** A run as a function of where it starts. */
  function Runner(t: seq<Byte>, r: Reader): State -> State {
    (st: State) => if Fits(t, st) then Run(t, st, r) else st
  }

  function Placer(t: seq<Byte>, r: Reader): State -> seq<B.Item> {
    (st: State) => if Fits(t, st) then RunPlaces(t, st, r) else []
  }

  ghost predicate IsRun(t: seq<Byte>, r: Reader, run: State -> State, places: State -> seq<B.Item>) {
    forall st: State {:trigger Step(t, st, r)} :: (st.Content? || st.Markup?) && st.at <= |t| ==>
      run(st) == run(Step(t, st, r)) && places(st) == StepPlaces(t, st, r) + places(Step(t, st, r))
  }

  lemma RunnerRuns(t: seq<Byte>, r: Reader)
    ensures IsRun(t, r, Runner(t, r), Placer(t, r))
  {
  }

  /** One step of a run, and what it adds. */
  lemma RunStep(t: seq<Byte>, st: State, r: Reader, run: State -> State, places: State -> seq<B.Item>)
    returns (next: State, stored: seq<B.Item>)
    requires IsRun(t, r, run, places) && (st.Content? || st.Markup?) && st.at <= |t|
    ensures Fits(t, next) && Reached(t, st) < Reached(t, next)
    ensures run(st) == run(next) && places(st) == stored + places(next)
    ensures next.Content? || next.Markup? || next.Finished? ==> ProgressLabels(next.p) == ProgressLabels(st.p) + Labels(stored)
    ensures next.Finished? ==> next.p.open == []
  {
    next := Step(t, st, r);
    stored := StepPlaces(t, st, r);
    StepFinished(t, st, r, next);
    if next.Content? || next.Markup? || next.Finished? {
      StepLabels(t, st, r);
    }
  }

  lemma StepFinished(t: seq<Byte>, st: State, r: Reader, next: State)
    requires (st.Content? || st.Markup?) && st.at <= |t| && next == Step(t, st, r)
    ensures Fits(t, next) && Reached(t, st) < Reached(t, next) && (next.Finished? ==> next.p.open == [])
  {
  }

  /** One step of a run, and where what it adds is stored. */
  lemma PlaceStep(t: seq<Byte>, st: State, r: Reader, run: State -> State, places: State -> seq<B.Item>)
    returns (next: State, stored: seq<B.Item>)
    requires Advances(r) && IsRun(t, r, run, places) && (st.Content? || st.Markup?) && st.at <= |t|
    ensures Fits(t, next) && Reached(t, st) < Reached(t, next)
    ensures run(st) == run(next) && places(st) == stored + places(next)
    ensures next.Content? || next.Markup? ==> st.at <= next.at && Within(stored, st.at, next.at)
    ensures next.Finished? ==> Within(stored, st.at, |t| + 1)
  {
    next := Step(t, st, r);
    stored := StepPlaces(t, st, r);
    if next.Finished? {
      LastWithin(t, st, r);
    } else if next.Content? || next.Markup? {
      StepWithin(t, st, r);
    }
  }

  /** Everything a successful run stores lies in order from where it starts. */
  lemma {:induction false} RunWithin(t: seq<Byte>, st: State, r: Reader, run: State -> State, places: State -> seq<B.Item>)
    requires Advances(r) && IsRun(t, r, run, places) && (st.Content? || st.Markup?) && st.at <= |t| && run(st).Finished?
    requires forall s: State :: !(s.Content? || s.Markup?) ==> run(s) == s && places(s) == []
    ensures Within(places(st), st.at, |t| + 1)
    decreases 2 * |t| + 2 - Reached(t, st)
  {
    var next, stored := PlaceStep(t, st, r, run, places);
    if next.Content? || next.Markup? {
      RunWithin(t, next, r, run, places);
      WithinJoins(stored, places(next), st.at, next.at, |t| + 1);
    } else {
      assert places(next) == [] && stored + [] == stored;
    }
  }

  /** A run that finishes has met all end tags, and the nodes and attributes it stores strings
      for are those it adds, in their order. */
  lemma {:induction false} RunLabels(t: seq<Byte>, st: State, r: Reader, run: State -> State, places: State -> seq<B.Item>)
    requires IsRun(t, r, run, places) && Fits(t, st) && run(st).Finished?
    requires forall s: State :: !(s.Content? || s.Markup?) ==> run(s) == s && places(s) == []
    requires st.Finished? ==> st.p.open == []
    ensures run(st).p.open == []
    ensures ProgressLabels(run(st).p) == ProgressLabels(st.p) + Labels(places(st))
    decreases 2 * |t| + 2 - Reached(t, st)
  {
    if st.Content? || st.Markup? {
      var next, stored := RunStep(t, st, r, run, places);
      RunLabels(t, next, r, run, places);
      LabelsJoin(stored, places(next));
      var x, y, z := ProgressLabels(st.p), Labels(stored), Labels(places(next));
      assert x + y + z == x + (y + z);
    }
  }

  lemma ParseRuns(t: seq<Byte>, o: Options)
    ensures var st := Runner(t, ReaderFor(o))(Content(Start(t), Progress([], [])));
            Parse(t, o).Parsed? ==> st.Finished? && Parse(t, o).children == st.p.top
  {
  }

  /** A document that has been parsed: one item for each of its nodes and attributes in
      document order, with strings of the right sizes, which lie in the buffer in that order and do
      not overlap. */
  lemma LoadedInOrder(t: seq<Byte>, o: Options)
    requires Parse(t, o).Parsed?
    ensures B.InOrder(Loaded(t, o).items) && !Loaded(t, o).shared && S.Exclusive(Loaded(t, o).items)
    ensures Labels(Loaded(t, o).items) == ItemLabels(Document(Parse(t, o).children))
  {
    var r, st := ReaderFor(o), Content(Start(t), Progress([], []));
    ParseRuns(t, o);
    LoadedWithin(t, o);
    LoadedLabels(t, st, r, Parse(t, o).children);
  }

  lemma DocumentFirst(places: seq<B.Item>, lo: nat, hi: nat)
    requires Within(places, lo, hi)
    ensures B.InOrder([Stored(false, B.Null, B.Null)] + places) && S.Exclusive([Stored(false, B.Null, B.Null)] + places)
  {
    var all := [Stored(false, B.Null, B.Null)] + places;
    forall i, j | 0 <= i < j < |all| ensures S.Separate(all[i], all[j]) {
      assert i > 0 ==> S.ApartItems(places[i - 1], places[j - 1]);
    }
  }

  lemma LoadedIs(t: seq<Byte>, o: Options, st: State)
    requires st == Content(Start(t), Progress([], []))
    ensures Loaded(t, o).items == [Stored(false, B.Null, B.Null)] + Placer(t, ReaderFor(o))(st)
  {
  }

  lemma LoadedWithin(t: seq<Byte>, o: Options)
    requires Parse(t, o).Parsed?
    ensures B.InOrder(Loaded(t, o).items) && S.Exclusive(Loaded(t, o).items)
  {
    var r, st := ReaderFor(o), Content(Start(t), Progress([], []));
    ReaderAdvances(o);
    ParseRuns(t, o);
    RunnerRuns(t, r);
    RunWithin(t, st, r, Runner(t, r), Placer(t, r));
    LoadedIs(t, o, st);
    DocumentFirst(Placer(t, r)(st), st.at, |t| + 1);
  }

  lemma LoadedLabels(t: seq<Byte>, st: State, r: Reader, children: seq<Item>)
    requires st.Content? && st.at <= |t| && st.p == Progress([], [])
    requires Runner(t, r)(st).Finished? && Runner(t, r)(st).p.top == children
    ensures Labels([Stored(false, B.Null, B.Null)] + Placer(t, r)(st)) == ItemLabels(Document(children))
  {
    RunnerRuns(t, r);
    RunLabels(t, st, r, Runner(t, r), Placer(t, r));
    DocumentLabels(Placer(t, r)(st), Runner(t, r)(st).p);
  }

  lemma DocumentLabels(places: seq<B.Item>, p: Progress)
    requires p.open == [] && ProgressLabels(p) == ProgressLabels(Progress([], [])) + Labels(places)
    ensures Labels([Stored(false, B.Null, B.Null)] + places) == ItemLabels(Document(p.top))
  {
    var document := [Stored(false, B.Null, B.Null)];
    LabelsJoin(document, places);
    assert Labels(document) == [Label(false, Absent, Absent)];
    assert ListLabels([]) == [] && OpenLabels([]) == [];
    assert ProgressLabels(Progress([], [])) == [];
    assert ProgressLabels(p) == ListLabels(p.top) + [] == ListLabels(p.top);
    assert [] + Labels(places) == Labels(places);
    assert ItemLabels(Document(p.top)) == [Label(false, Absent, Absent)] + ListLabels(p.top);
  }
}
