/** What the parse options do to character data: white space between tags, and white space around
    text. */
module ParserOptions {
  import opened Escapes
  import opened EscapedText
  import opened Markup
  import opened MarkupParser
  import opened MarkupRoundTrip

  // ---------- text as it stands ----------

  /** Text in which nothing refers to anything or ends it. */
  predicate Unmarked(w: seq<Byte>) {
    forall k :: 0 <= k < |w| ==> w[k] != AMPERSAND && w[k] != LESS && w[k] != 0
  }

  /** Such text is read as it stands, with its line ends normalised if asked for. */
  lemma {:induction false} UnmarkedConverted(t: seq<Byte>, i: nat, w: seq<Byte>, k: nat, m: Mode)
    requires Unmarked(w) && Here(t, i, w) && k == i + |w| && k < |t| && t[k] == LESS == m.stop && m.breaks != ToSpace
    ensures Convert(t, i, m) == Back(w, m) && StopAt(t, i, m) == k
    decreases |w|
  {
    if w == [] {
      assert Back(w, m) == [];
    } else {
      var n := Width(w, m);
      FirstPiece(t, i, w, m, n);
      HereRest(t, i, w, n);
      UnmarkedConverted(t, i + n, w[n..], k, m);
      BackStep(w, m);
      StopAtSkips(t, i, i + n, m);
    }
  }

  lemma HereRest(t: seq<Byte>, i: nat, w: seq<Byte>, n: nat)
    requires n <= |w| && Here(t, i, w)
    ensures Here(t, i, w[..n]) && Here(t, i + n, w[n..])
  {
    assert w == w[..n] + w[n..];
    HereSplit(t, i, w[..n], w[n..]);
  }

  lemma FirstPiece(t: seq<Byte>, i: nat, w: seq<Byte>, m: Mode, n: nat)
    requires w != [] && Unmarked(w) && Here(t, i, w) && i + |w| < |t| && t[i + |w|] == LESS == m.stop && m.breaks != ToSpace
    requires n == Width(w, m)
    ensures Piece(t, i, m) == ([if m.breaks == ToNewline && w[0] == RETURN then NEWLINE else w[0]], i + n)
    ensures forall j :: i <= j < i + n ==> !Ends(t[j], m)
  {
    HereByte(t, i, w, 0);
    if |w| > 1 {
      HereByte(t, i, w, 1);
    }
  }

  // ---------- tags without attributes ----------

  function OpenTag(name: seq<Byte>): seq<Byte> {
    [LESS] + (name + [GREATER])
  }

  function CloseTag(name: seq<Byte>): seq<Byte> {
    [LESS, SLASH] + (name + [GREATER])
  }

  function EmptyTag(name: seq<Byte>): seq<Byte> {
    [LESS] + (name + [SLASH, GREATER])
  }

  lemma OpenTagRead(run: State -> State, t: seq<Byte>, s: nat, p: Progress, name: seq<Byte>, r: Reader, next: nat)
    requires Runs(run, t, r) && Here(t, s, OpenTag(name)) && ValidName(name) && next == s + |name| + 2
    ensures run(Content(s, p)) == run(Content(next, PushFrame(p, name, [])))
  {
    HereSplit(t, s, [LESS], name + [GREATER]);
    HereByte(t, s, [LESS], 0);
    HereSplit(t, s + 1, name, [GREATER]);
    HereByte(t, next - 1, [GREATER], 0);
    WholeName(t, s + 1, name);
    StartRead(run, t, s, p, name, r);
    assert StartStep(t, s + 1, p, r) == Content(next, PushFrame(p, name, []));
  }

  lemma EmptyTagRead(run: State -> State, t: seq<Byte>, s: nat, p: Progress, name: seq<Byte>, r: Reader, next: nat)
    requires Runs(run, t, r) && Here(t, s, EmptyTag(name)) && ValidName(name) && next == s + |name| + 3
    ensures run(Content(s, p)) == run(Content(next, AddItem(p, Element(name, [], []))))
    ensures s + 1 < |t| && t[s] == LESS && t[s + 1] != SLASH && t[s + 1] != 0
  {
    HereSplit(t, s, [LESS], name + [SLASH, GREATER]);
    HereByte(t, s, [LESS], 0);
    HereSplit(t, s + 1, name, [SLASH, GREATER]);
    HereByte(t, next - 2, [SLASH, GREATER], 0);
    HereByte(t, next - 2, [SLASH, GREATER], 1);
    WholeName(t, s + 1, name);
    StartRead(run, t, s, p, name, r);
    assert StartStep(t, s + 1, p, r) == Content(next, AddItem(p, Element(name, [], [])));
  }

  lemma CloseTagHere(t: seq<Byte>, s: nat, name: seq<Byte>, end: nat)
    requires Here(t, s, CloseTag(name)) && end == s + |name| + 3
    ensures EndAt(t, s, name, end)
  {
    EndLayout(t, s, name, end);
  }

  // ---------- white space between tags ----------

  /** White space in front of a tag, which is passed over or becomes a node. */
  lemma BlankRead(run: State -> State, t: seq<Byte>, s: nat, w: seq<Byte>, k: nat, p: Progress, o: Options, keep: bool)
    requires Runs(run, t, ReaderFor(o)) && w != [] && Blank(w) && Here(t, s, w) && k == s + |w| && k + 1 < |t|
    requires t[k] == LESS && t[k + 1] != 0 && p.open != [] && keep == KeepsSpace(t, k, p, o)
    ensures run(Content(s, p)) == run(Content(k, if keep then AddItem(p, Text(Back(w, CharacterData(o)))) else p))
  {
    var r, v := ReaderFor(o), Back(w, CharacterData(o));
    HereBlank(t, s, w);
    HereByte(t, s, w, 0);
    SpacesSkipped(t, s, k);
    if keep {
      BlankUnmarked(w);
      UnmarkedConverted(t, s, w, k, CharacterData(o));
      BackNoNul(w, CharacterData(o));
      assert r.text(t, s) == Read(v, k);
      assert Step(t, Content(s, p), r) == Markup(k + 1, AddItem(p, Text(v)));
      ThroughLess(run, t, k, AddItem(p, Text(v)), r);
    } else {
      assert Step(t, Content(s, p), r) == Content(k, p);
    }
  }

  lemma BlankUnmarked(w: seq<Byte>)
    requires Blank(w)
    ensures Unmarked(w) && 0 !in w
  {
    forall k | 0 <= k < |w| ensures IsSpace(w[k]) {
      assert w[k] in w;
    }
  }

  /** Which white space becomes a node: all of it, only what is alone in its element, or none. */
  function KeptAlone(w: seq<Byte>, o: Options): seq<Item> {
    if (o.wsPcdata || o.wsSingle) && !o.trim then [Text(Back(w, CharacterData(o)))] else []
  }

  function KeptBeside(w: seq<Byte>, o: Options): seq<Item> {
    if o.wsPcdata && !o.wsSingle && !o.trim then [Text(Back(w, CharacterData(o)))] else []
  }

  lemma FinishedAt(t: seq<Byte>, o: Options, name: seq<Byte>, xs: seq<Item>)
    requires t != [] && t[0] == LESS
    requires RunOf(t, ReaderFor(o))(Content(0, Progress([], [])))
      == RunOf(t, ReaderFor(o))(Content(|t|, Progress([Element(name, [], xs)], [])))
    ensures Parse(t, o) == Parsed([Element(name, [], xs)])
  {
    var p := Progress([Element(name, [], xs)], []);
    assert Step(t, Content(|t|, p), ReaderFor(o)) == Finished(p);
    RunRuns(t, ReaderFor(o));
    assert RunOf(t, ReaderFor(o))(Content(|t|, p)) == RunOf(t, ReaderFor(o))(Finished(p));
    assert p.top[0].Element?;
  }

  lemma CloseElement(run: State -> State, t: seq<Byte>, s: nat, name: seq<Byte>, xs: seq<Item>, r: Reader)
    requires Runs(run, t, r) && ValidName(name) && EndAt(t, s, name, |t|)
    ensures run(Content(s, Progress([], [Frame(name, [], xs)]))) == run(Content(|t|, Progress([Element(name, [], xs)], [])))
  {
    var p := Progress([], [Frame(name, [], xs)]);
    EndRead(run, t, s, p, name, r, |t|);
    assert PopFrame(p) == Progress([Element(name, [], xs)], []);
  }

  lemma HereAll(t: seq<Byte>, w: seq<Byte>)
    requires t == w
    ensures Here(t, 0, w)
  {
  }

  lemma ThreeHere(t: seq<Byte>, a: seq<Byte>, b: seq<Byte>, c: seq<Byte>)
    requires t == a + (b + c)
    ensures Here(t, 0, a) && Here(t, |a|, b) && Here(t, |a| + |b|, c)
  {
    HereAll(t, a + (b + c));
    HereSplit(t, 0, a, b + c);
    HereSplit(t, |a|, b, c);
  }

  /** The start of an element, up to what is inside. */
  lemma Entered(t: seq<Byte>, name: seq<Byte>, body: seq<Byte>, r: Reader, s: nat, k: nat)
    requires t == OpenTag(name) + (body + CloseTag(name)) && ValidName(name) && s == |name| + 2 && k == s + |body|
    ensures t[0] == LESS && Here(t, s, body) && EndAt(t, k, name, |t|) && k + 1 < |t| && t[k] == LESS && t[k + 1] == SLASH
    ensures RunOf(t, r)(Content(0, Progress([], []))) == RunOf(t, r)(Content(s, Progress([], [Frame(name, [], [])])))
  {
    RunRuns(t, r);
    ThreeHere(t, OpenTag(name), body, CloseTag(name));
    OpenTagRead(RunOf(t, r), t, 0, Progress([], []), name, r, s);
    assert PushFrame(Progress([], []), name, []) == Progress([], [Frame(name, [], [])]);
    CloseTagHere(t, k, name, |t|);
  }

  /** An element whose inside leaves `xs` is parsed to have the children `xs`. */
  lemma Left(t: seq<Byte>, name: seq<Byte>, o: Options, s: nat, k: nat, xs: seq<Item>)
    requires t != [] && t[0] == LESS && ValidName(name) && EndAt(t, k, name, |t|)
    requires var run := RunOf(t, ReaderFor(o));
      && run(Content(0, Progress([], []))) == run(Content(s, Progress([], [Frame(name, [], [])])))
      && run(Content(s, Progress([], [Frame(name, [], [])]))) == run(Content(k, Progress([], [Frame(name, [], xs)])))
    ensures Parse(t, o) == Parsed([Element(name, [], xs)])
  {
    RunRuns(t, ReaderFor(o));
    CloseElement(RunOf(t, ReaderFor(o)), t, k, name, xs, ReaderFor(o));
    FinishedAt(t, o, name, xs);
  }

  /** White space that is alone between the tags of an element. */
  lemma BlankAlone(name: seq<Byte>, w: seq<Byte>, o: Options)
    requires ValidName(name) && w != [] && Blank(w)
    ensures Parse(OpenTag(name) + (w + CloseTag(name)), o) == Parsed([Element(name, [], KeptAlone(w, o))])
  {
    var t, s := OpenTag(name) + (w + CloseTag(name)), |name| + 2;
    var k := s + |w|;
    Entered(t, name, w, ReaderFor(o), s, k);
    AloneRun(RunOf(t, ReaderFor(o)), t, s, w, k, name, o);
    Left(t, name, o, s, k, KeptAlone(w, o));
  }

  lemma AloneRun(run: State -> State, t: seq<Byte>, s: nat, w: seq<Byte>, k: nat, name: seq<Byte>, o: Options)
    requires run == RunOf(t, ReaderFor(o)) && w != [] && Blank(w) && Here(t, s, w) && k == s + |w| && k + 1 < |t|
    requires t[k] == LESS && t[k + 1] == SLASH
    ensures run(Content(s, Progress([], [Frame(name, [], [])]))) == run(Content(k, Progress([], [Frame(name, [], KeptAlone(w, o))])))
  {
    var p, v := Progress([], [Frame(name, [], [])]), Text(Back(w, CharacterData(o)));
    RunRuns(t, ReaderFor(o));
    BlankRead(run, t, s, w, k, p, o, KeepsSpace(t, k, p, o));
    Added(name, [], v);
  }

  lemma Added(name: seq<Byte>, xs: seq<Item>, x: Item)
    ensures AddItem(Progress([], [Frame(name, [], xs)]), x) == Progress([], [Frame(name, [], xs + [x])])
    ensures [] + [x] == [x]
  {
  }

  /** White space with another element beside it: before, and behind. */
  lemma BlankBeside(name: seq<Byte>, inner: seq<Byte>, w: seq<Byte>, v: seq<Byte>, o: Options)
    requires ValidName(name) && ValidName(inner) && w != [] && Blank(w) && v != [] && Blank(v)
    ensures Parse(OpenTag(name) + ((w + (EmptyTag(inner) + v)) + CloseTag(name)), o)
      == Parsed([Element(name, [], KeptBeside(w, o) + [Element(inner, [], [])] + KeptBeside(v, o))])
  {
    var body := w + (EmptyTag(inner) + v);
    var t, s := OpenTag(name) + (body + CloseTag(name)), |name| + 2;
    var k := s + |body|;
    Entered(t, name, body, ReaderFor(o), s, k);
    var i := s + |w|;
    var j := i + |inner| + 3;
    HereSplit(t, s, w, EmptyTag(inner) + v);
    HereSplit(t, i, EmptyTag(inner), v);
    BesideRun(RunOf(t, ReaderFor(o)), t, s, w, i, inner, j, v, k, name, o);
    Left(t, name, o, s, k, KeptBeside(w, o) + [Element(inner, [], [])] + KeptBeside(v, o));
  }

  lemma BesideRun(run: State -> State, t: seq<Byte>, s: nat, w: seq<Byte>, i: nat, inner: seq<Byte>, j: nat, v: seq<Byte>,
      k: nat, name: seq<Byte>, o: Options)
    requires run == RunOf(t, ReaderFor(o)) && w != [] && Blank(w) && v != [] && Blank(v) && ValidName(inner)
    requires Here(t, s, w) && i == s + |w| && Here(t, i, EmptyTag(inner)) && j == i + |inner| + 3
    requires Here(t, j, v) && k == j + |v| && k + 1 < |t| && t[k] == LESS && t[k + 1] == SLASH
    ensures run(Content(s, Progress([], [Frame(name, [], [])])))
      == run(Content(k, Progress([], [Frame(name, [], KeptBeside(w, o) + [Element(inner, [], [])] + KeptBeside(v, o))])))
  {
    var x, before := Element(inner, [], []), KeptBeside(w, o);
    var p := Progress([], [Frame(name, [], [])]);
    RunRuns(t, ReaderFor(o));
    var q := Progress([], [Frame(name, [], before)]);
    EmptyTagRead(run, t, i, q, inner, ReaderFor(o), j);
    BlankRead(run, t, s, w, i, p, o, KeepsSpace(t, i, p, o));
    Added(name, [], Text(Back(w, CharacterData(o))));
    Added(name, before, x);
    var z := Progress([], [Frame(name, [], before + [x])]);
    BlankRead(run, t, j, v, k, z, o, KeepsSpace(t, k, z, o));
    Added(name, before + [x], Text(Back(v, CharacterData(o))));
    assert before + [x] + [] == before + [x];
  }

  // ---------- white space around text ----------

  /** Text that neither begins nor ends with white space, and has no line ends to convert. */
  predicate Tight(v: seq<Byte>) {
    v != [] && Unmarked(v) && !IsSpace(v[0]) && !IsSpace(v[|v| - 1]) && RETURN !in v
  }

  lemma {:induction false} BackJoins(v: seq<Byte>, u: seq<Byte>, m: Mode)
    requires RETURN !in v
    ensures Back(v + u, m) == v + Back(u, m)
    decreases |v|
  {
    if v == [] {
      assert v + u == u;
    } else {
      assert Width(v + u, m) == 1 && (v + u)[1..] == v[1..] + u;
      BackStep(v + u, m);
      BackJoins(v[1..], u, m);
      assert v == [v[0]] + v[1..];
    }
  }

  lemma {:induction false} BackBlank(u: seq<Byte>, m: Mode)
    requires Blank(u)
    ensures Blank(Back(u, m))
    decreases |u|
  {
    if u != [] {
      BackStep(u, m);
      BackBlank(u[Width(u, m)..], m);
    }
  }

  lemma TrimmedTo(v: seq<Byte>, u: seq<Byte>)
    requires v != [] && !IsSpace(v[|v| - 1]) && Blank(u)
    ensures TrimEnd(v + u) == v
  {
    var r := TrimEnd(v + u);
    assert (v + u)[|v| - 1] == v[|v| - 1];
    assert forall k :: 0 <= k < |u| ==> (v + u)[|v| + k] == u[k] && u[k] in u;
    assert |r| == |v| && r == (v + u)[..|r|];
  }

  /** If the parser is to trim, what is left of a text is what lies between its white space. */
  lemma TextTrimmed(name: seq<Byte>, w: seq<Byte>, v: seq<Byte>, u: seq<Byte>, o: Options)
    requires ValidName(name) && Blank(w) && Tight(v) && Blank(u) && o.trim
    ensures Parse(OpenTag(name) + ((w + (v + u)) + CloseTag(name)), o) == Parsed([Element(name, [], [Text(v)])])
  {
    var body := w + (v + u);
    var t, s := OpenTag(name) + (body + CloseTag(name)), |name| + 2;
    var k := s + |body|;
    Entered(t, name, body, ReaderFor(o), s, k);
    HereSplit(t, s, w, v + u);
    TrimmedRun(RunOf(t, ReaderFor(o)), t, s, w, s + |w|, v, u, k, name, o);
    Left(t, name, o, s, k, [Text(v)]);
  }

  lemma TrimmedRead(t: seq<Byte>, i: nat, v: seq<Byte>, u: seq<Byte>, k: nat, o: Options)
    requires Tight(v) && Blank(u) && o.trim && Here(t, i, v + u) && k == i + |v| + |u| && k < |t| && t[k] == LESS
    ensures ReadCharacters(t, i, o) == Read(v, k)
  {
    var m := CharacterData(o);
    BlankUnmarked(u);
    UnmarkedConverted(t, i, v + u, k, m);
    BackJoins(v, u, m);
    BackBlank(u, m);
    TrimmedTo(v, Back(u, m));
    assert 0 !in v;
  }

  lemma TrimmedRun(run: State -> State, t: seq<Byte>, s: nat, w: seq<Byte>, i: nat, v: seq<Byte>, u: seq<Byte>, k: nat,
      name: seq<Byte>, o: Options)
    requires run == RunOf(t, ReaderFor(o)) && Blank(w) && Tight(v) && Blank(u) && o.trim
    requires Here(t, s, w) && i == s + |w| && Here(t, i, v + u) && k == i + |v| + |u|
    requires k + 1 < |t| && t[k] == LESS && t[k + 1] == SLASH
    ensures run(Content(s, Progress([], [Frame(name, [], [])]))) == run(Content(k, Progress([], [Frame(name, [], [Text(v)])])))
  {
    var p, r := Progress([], [Frame(name, [], [])]), ReaderFor(o);
    RunRuns(t, r);
    TrimmedRead(t, i, v, u, k, o);
    HereByte(t, i, v + u, 0);
    HereBlank(t, s, w);
    SpacesSkipped(t, s, i);
    if w != [] {
      HereByte(t, s, w, 0);
      assert w[0] in w;
    }
    Added(name, [], Text(v));
    assert Step(t, Content(s, p), r) == Markup(k + 1, AddItem(p, Text(v)));
    ThroughLess(run, t, k, AddItem(p, Text(v)), r);
  }

  // ---------- line ends and other white space ----------

  /** Line ends, whichever they are, become single newlines ... */
  lemma LineEnds()
    ensures Normalised([RETURN]) == [NEWLINE] && Normalised([NEWLINE]) == [NEWLINE]
    ensures Normalised([RETURN, NEWLINE]) == [NEWLINE] && Normalised([NEWLINE, RETURN]) == [NEWLINE, NEWLINE]
  {
    assert [NEWLINE, RETURN][1..] == [RETURN];
    assert [RETURN, NEWLINE][2..] == [] && [RETURN][1..] == [];
  }

  /** How many bytes the first line end or other byte takes. */
  function FirstWidth(w: seq<Byte>): (n: nat)
    requires w != []
    ensures 1 <= n <= |w|
  {
    if w[0] == RETURN && |w| > 1 && w[1] == NEWLINE then 2 else 1
  }

  lemma NormalisedStep(w: seq<Byte>, n: nat)
    requires w != [] && n == FirstWidth(w)
    ensures Normalised(w) == [if w[0] == RETURN then NEWLINE else w[0]] + Normalised(w[n..])
  {
  }

  /** ... wherever they stand in the text. */
  lemma {:induction false} NormalisedJoins(a: seq<Byte>, b: seq<Byte>)
    requires a == [] || b == [] || a[|a| - 1] != RETURN || b[0] != NEWLINE
    ensures Normalised(a + b) == Normalised(a) + Normalised(b)
    decreases |a|
  {
    if a == [] {
      assert a + b == b;
    } else if b == [] {
      assert a + b == a;
    } else {
      var n := FirstWidth(a);
      WidthJoins(a, b, n);
      NormalisedStep(a, n);
      NormalisedStep(a + b, n);
      NormalisedJoins(a[n..], b);
    }
  }

  lemma WidthJoins(a: seq<Byte>, b: seq<Byte>, n: nat)
    requires a != [] && b != [] && (a[|a| - 1] != RETURN || b[0] != NEWLINE) && n == FirstWidth(a)
    ensures FirstWidth(a + b) == n && (a + b)[n..] == a[n..] + b && (a + b)[0] == a[0]
  {
    assert |a| > 1 ==> (a + b)[1] == a[1];
    assert |a| == 1 ==> (a + b)[1] == b[0];
  }

  /** Text with a space for every white space in it. */
  function Flattened(w: seq<Byte>): (r: seq<Byte>)
    ensures |r| == |w|
  {
    seq(|w|, k requires 0 <= k < |w| => if IsSpace(w[k]) then SPACE else w[k])
  }

  /** Where white space is made spaces, a line end becomes one space, however it is written. */
  lemma {:induction false} WhiteSpaceFlattened(t: seq<Byte>, i: nat, w: seq<Byte>, k: nat, m: Mode)
    requires Unmarked(w) && Here(t, i, w) && k == i + |w| && k < |t| && t[k] == m.stop && m.breaks == ToSpace
    requires m.stop != NEWLINE && m.stop !in w
    ensures Convert(t, i, m) == Flattened(Normalised(w)) && StopAt(t, i, m) == k
    decreases |w|
  {
    if w != [] {
      var n := FirstWidth(w);
      FlatPiece(t, i, w, m, n);
      HereRest(t, i, w, n);
      WhiteSpaceFlattened(t, i + n, w[n..], k, m);
      StopAtSkips(t, i, i + n, m);
      FlattenedStep(w, n);
    }
  }

  lemma FlatPiece(t: seq<Byte>, i: nat, w: seq<Byte>, m: Mode, n: nat)
    requires w != [] && Unmarked(w) && Here(t, i, w) && i + |w| < |t| && t[i + |w|] == m.stop && m.breaks == ToSpace
    requires m.stop != NEWLINE && m.stop !in w && n == FirstWidth(w)
    ensures Piece(t, i, m) == ([if IsSpace(w[0]) then SPACE else w[0]], i + n)
    ensures forall j :: i <= j < i + n ==> !Ends(t[j], m)
  {
    HereByte(t, i, w, 0);
    if |w| > 1 {
      HereByte(t, i, w, 1);
    }
  }

  lemma FlattenedStep(w: seq<Byte>, n: nat)
    requires w != [] && n == FirstWidth(w)
    ensures Flattened(Normalised(w)) == [if IsSpace(w[0]) then SPACE else w[0]] + Flattened(Normalised(w[n..]))
  {
    NormalisedStep(w, n);
    FlattenedCons(if w[0] == RETURN then NEWLINE else w[0], Normalised(w[n..]));
  }

  lemma FlattenedCons(c: Byte, y: seq<Byte>)
    ensures Flattened([c] + y) == [if IsSpace(c) then SPACE else c] + Flattened(y)
  {
  }
}
