/**
  The tokenizer on the text of a JSON value: it finds exactly the tokens of the value.
 */
module JsonRuns {
  import opened Jsmn
  import opened JsonTexts

  // ----- Tokens that are closed -----

  ghost predicate AllClosed(ts: seq<Token>) {
    forall i :: 0 <= i < |ts| ==> !IsOpen(ts[i])
  }

  lemma {:induction false} LastOpenBehind(a: seq<Token>, b: seq<Token>)
    requires AllClosed(b)
    ensures LastOpen(a + b, |a + b|) == LastOpen(a, |a|)
    decreases |b|
  {
    if b == [] {
      assert a + b == a;
    } else {
      var last := |b| - 1;
      assert (a + b)[|a + b| - 1] == b[last];
      LastOpenFront(a + b, a + b[..last], |a| + last);
      LastOpenBehind(a, b[..last]);
    }
  }

  lemma {:induction false} LastOpenFront(a: seq<Token>, b: seq<Token>, n: nat)
    requires n <= |a| && n <= |b| && forall i :: 0 <= i < n ==> IsOpen(a[i]) == IsOpen(b[i])
    ensures LastOpen(a, n) == LastOpen(b, n)
    decreases n
  {
    if n > 0 {
      LastOpenFront(a, b, n - 1);
    }
  }

  // ----- Steps -----

  /** `run` takes a state to what the machine comes to from it. */
  ghost predicate Runs(run: State -> (RunResult, State), js: string, n: nat) {
    forall s {:trigger Step(js, Capacity(n), s)} ::
      SuperOk(s) && !AtEnd(js, s.pos) && Step(js, Capacity(n), s).Next? ==> run(s) == run(Step(js, Capacity(n), s).s)
  }

  lemma {:induction false} SpacesRun(run: State -> (RunResult, State), js: string, n: nat, s: State, w: string)
    requires Runs(run, js, n) && SuperOk(s) && Spaces(w) && Here(js, s.pos, w)
    ensures run(s) == run(s.(pos := s.pos + |w|))
    decreases |w|
  {
    if w != "" {
      HereChar(js, s.pos, w, 0);
      assert w == w[..1] + w[1..];
      HereSplit(js, s.pos, w[..1], w[1..]);
      assert Step(js, Capacity(n), s) == Next(s.(pos := s.pos + 1));
      SpacesRun(run, js, n, s.(pos := s.pos + 1), w[1..]);
    }
  }

  /** The state after a leaf. */
  function Leafed(s: State, t: Token, next: nat): State
    requires SuperOk(s)
  {
    State(next, s.super, Grow(s.tokens, s.super) + [t], s.count + 1)
  }

  lemma QuotedRun(run: State -> (RunResult, State), js: string, n: nat, s: State, w: string, t: Token, next: nat)
    requires Runs(run, js, n) && SuperOk(s) && StringText(w) && Here(js, s.pos, InQuotes(w)) && |s.tokens| < n
    requires t == Token(Str, s.pos + 1, s.pos + 1 + |w|, 0) && next == s.pos + |w| + 2
    ensures run(s) == run(Leafed(s, t, next))
  {
    QuotesHere(js, s.pos, w);
    StringScanned((i: nat) => ScanString(js, i), js, s.pos + 1, w, next - 1);
    QuotedStep(run, js, n, s, t, next);
  }

  lemma QuotesHere(js: string, i: nat, w: string)
    requires Here(js, i, InQuotes(w))
    ensures i + 1 + |w| < |js| && js[i] == '\"' && Here(js, i + 1, w) && js[i + 1 + |w|] == '\"'
  {
    HereSplit(js, i, "\"", w + "\"");
    HereSplit(js, i + 1, w, "\"");
    HereChar(js, i, "\"", 0);
    HereChar(js, i + 1 + |w|, "\"", 0);
  }

  lemma QuotedStep(run: State -> (RunResult, State), js: string, n: nat, s: State, t: Token, next: nat)
    requires Runs(run, js, n) && SuperOk(s) && s.pos < |js| && js[s.pos] == '\"' && next > 0
    requires ScanString(js, s.pos + 1) == Found(next - 1) && |s.tokens| < n && t == Token(Str, s.pos + 1, next - 1, 0)
    ensures run(s) == run(Leafed(s, t, next))
  {
    GrowBehind(s.tokens, s.super, t);
    assert Step(js, Capacity(n), s) == Next(Leafed(s, t, next));
  }

  lemma GrowBehind(ts: seq<Token>, super: int, t: Token)
    requires -1 <= super < |ts|
    ensures Grow(ts + [t], super) == Grow(ts, super) + [t]
  {
  }

  lemma PlainRun(run: State -> (RunResult, State), js: string, n: nat, s: State, w: string, t: Token, next: nat)
    requires Runs(run, js, n) && SuperOk(s) && PlainText(w) && Here(js, s.pos, w) && Delimited(js, s.pos + |w|)
    requires |s.tokens| < n && t == Token(Primitive, s.pos, next, 0) && next == s.pos + |w|
    ensures run(s) == run(Leafed(s, t, next))
  {
    forall k | s.pos <= k < next ensures IsPlain(js[k]) {
      HereChar(js, s.pos, w, k - s.pos);
    }
    PlainExact(js, s.pos, next);
    HereChar(js, s.pos, w, 0);
    PlainStep(run, js, n, s, t, next);
  }

  lemma PlainStep(run: State -> (RunResult, State), js: string, n: nat, s: State, t: Token, next: nat)
    requires Runs(run, js, n) && SuperOk(s) && s.pos < |js| && IsPlain(js[s.pos])
    requires js[s.pos] != '{' && js[s.pos] != '[' && js[s.pos] != '\"'
    requires ScanPrimitive(js, s.pos) == Found(next) && |s.tokens| < n && t == Token(Primitive, s.pos, next, 0)
    ensures run(s) == run(Leafed(s, t, next))
  {
    GrowBehind(s.tokens, s.super, t);
    assert Step(js, Capacity(n), s) == Next(Leafed(s, t, next));
  }

  // ----- Members -----

  /** The tokens while a container is open: those before it, its own, and those of its members so
      far. */
  function Amid(a: seq<Token>, h: Token, b: seq<Token>): seq<Token> {
    a + [h] + b
  }

  lemma GrowAmid(a: seq<Token>, h: Token, b: seq<Token>)
    ensures Grow(Amid(a, h, b), |a|) == Amid(a, h.(size := h.size + 1), b)
  {
  }

  lemma LastOpenAmid(a: seq<Token>, h: Token, b: seq<Token>)
    requires IsOpen(h) && AllClosed(b)
    ensures LastOpen(Amid(a, h, b), |Amid(a, h, b)|) == |a|
  {
    LastOpenBehind(a + [h], b);
  }

  predicate IsLeaf(t: Token) {
    t.kind.Str? || t.kind.Primitive?
  }

  /** The machine stands among the members of an open container. */
  ghost predicate Within(s: State, a: seq<Token>, h: Token, b: seq<Token>) {
    && s.tokens == Amid(a, h, b) && IsOpen(h) && (h.kind.Array? || h.kind.Object?) && AllClosed(b)
    && 0 <= s.super < |s.tokens| && (s.super == |a| || IsLeaf(s.tokens[s.super]))
  }

  lemma CommaRun(run: State -> (RunResult, State), js: string, n: nat, s: State, a: seq<Token>, h: Token, b: seq<Token>)
    requires Runs(run, js, n) && Within(s, a, h, b) && s.pos < |js| && js[s.pos] == ','
    ensures run(s) == run(s.(pos := s.pos + 1, super := |a|))
  {
    LastOpenAmid(a, h, b);
    assert s.tokens[|a|] == h;
    assert Step(js, Capacity(n), s) == Next(s.(pos := s.pos + 1, super := |a|));
  }

  lemma ColonRun(run: State -> (RunResult, State), js: string, n: nat, s: State)
    requires Runs(run, js, n) && SuperOk(s) && s.pos < |js| && js[s.pos] == ':'
    ensures run(s) == run(s.(pos := s.pos + 1, super := |s.tokens| - 1))
  {
    assert Step(js, Capacity(n), s) == Next(s.(pos := s.pos + 1, super := |s.tokens| - 1));
  }

  /** A closing bracket, after all members. */
  lemma CloseRun(run: State -> (RunResult, State), js: string, n: nat, s: State, a: seq<Token>, h: Token, b: seq<Token>)
    requires Runs(run, js, n) && Within(s, a, h, b)
    requires s.pos < |js| && js[s.pos] == if h.kind.Array? then ']' else '}'
    ensures run(s) == run(State(s.pos + 1, LastOpen(a, |a|), Amid(a, h.(end := s.pos + 1), b), s.count))
  {
    var closed := Amid(a, h.(end := s.pos + 1), b);
    CloseFacts(s.tokens, a, h, b, s.pos + 1, closed);
    CloseStep(js, n, s, h.kind, |a|, LastOpen(a, |a|), closed);
  }

  lemma CloseFacts(ts: seq<Token>, a: seq<Token>, h: Token, b: seq<Token>, end: nat, closed: seq<Token>)
    requires ts == Amid(a, h, b) && IsOpen(h) && AllClosed(b) && closed == Amid(a, h.(end := end), b)
    ensures LastOpen(ts, |ts|) == |a| && ts[|a|] == h && ts[|a| := h.(end := end)] == closed
    ensures LastOpen(closed, |a| + 1) == LastOpen(a, |a|)
  {
    LastOpenAmid(a, h, b);
    assert closed[|a|] == h.(end := end);
    LastOpenFront(closed, a, |a|);
  }

  lemma CloseStep(js: string, n: nat, s: State, kind: Kind, i: nat, above: int, closed: seq<Token>)
    requires SuperOk(s) && s.pos < |js| && (kind.Array? || kind.Object?) && js[s.pos] == if kind.Array? then ']' else '}'
    requires i < |s.tokens| && LastOpen(s.tokens, |s.tokens|) == i && s.tokens[i].kind == kind
    requires closed == s.tokens[i := s.tokens[i].(end := s.pos + 1)] && LastOpen(closed, i + 1) == above
    ensures Step(js, Capacity(n), s) == Next(State(s.pos + 1, above, closed, s.count))
  {
  }

  /** An opening bracket. */
  lemma OpenRun(run: State -> (RunResult, State), js: string, n: nat, s: State, kind: Kind) returns (s': State)
    requires Runs(run, js, n) && SuperOk(s) && (kind.Array? || kind.Object?) && |s.tokens| < n
    requires s.pos < |js| && js[s.pos] == if kind.Array? then '[' else '{'
    ensures run(s) == run(s') && s'.pos == s.pos + 1 && s'.super == |s.tokens| && s'.count == s.count + 1
    ensures Within(s', Grow(s.tokens, s.super), Token(kind, s.pos, -1, 0), [])
  {
    var a, h := Grow(s.tokens, s.super), Token(kind, s.pos, -1, 0);
    s' := State(s.pos + 1, |s.tokens|, a + [h], s.count + 1);
    assert Amid(a, h, []) == a + [h];
    assert Step(js, Capacity(n), s) == Next(s');
  }

  lemma GrowOpen(ts: seq<Token>, super: int)
    requires -1 <= super < |ts|
    ensures LastOpen(Grow(ts, super), |ts|) == LastOpen(ts, |ts|)
  {
    LastOpenFront(Grow(ts, super), ts, |ts|);
  }

  // ----- What the machine reads -----

  /** The machine has read `ts` behind `s`, up to `end`. */
  ghost predicate Past(s: State, s': State, ts: seq<Token>, end: nat) {
    && SuperOk(s) && s'.pos == end && s'.tokens == Grow(s.tokens, s.super) + ts && s'.count == s.count + |ts|
    && (s'.super == s.super || s'.super == LastOpen(s.tokens, |s.tokens|))
  }

  ghost predicate GetsPast(run: State -> (RunResult, State), s: State, ts: seq<Token>, end: nat) {
    exists s' :: run(s) == run(s') && Past(s, s', ts, end)
  }

  /** What is sealed can be passed on without being looked into, until the seal is broken. */
  ghost predicate Broken(b: bool) {
    b
  }

  /** Between `i` and `j` the machine reads a value, whose tokens are `ts`. */
  ghost predicate ReadsValue(run: State -> (RunResult, State), n: nat, i: nat, j: nat, ts: seq<Token>) {
    forall b: bool {:trigger Broken(b)} :: Broken(b) ==> ValueBetween(run, n, i, j, ts)
  }

  /** Between `i` and `j` it reads `c` members of a container, whose tokens are `ts`. */
  ghost predicate ReadsMembers(run: State -> (RunResult, State), n: nat, i: nat, j: nat, ts: seq<Token>, c: nat) {
    forall b: bool {:trigger Broken(b)} :: Broken(b) ==> MembersBetween(run, n, i, j, ts, c)
  }

  ghost predicate ValueBetween(run: State -> (RunResult, State), n: nat, i: nat, j: nat, ts: seq<Token>) {
    && AllClosed(ts)
    && forall s {:trigger GetsPast(run, s, ts, j)} ::
         SuperOk(s) && s.pos == i && |s.tokens| + |ts| <= n ==> GetsPast(run, s, ts, j)
  }

  ghost predicate GetsOn(run: State -> (RunResult, State), s: State, a: seq<Token>, h: Token, b: seq<Token>,
      ts: seq<Token>, end: nat) {
    exists s' :: run(s) == run(s') && Within(s', a, h, b) && s'.pos == end && s'.count == s.count + |ts|
  }

  ghost predicate MembersBetween(run: State -> (RunResult, State), n: nat, i: nat, j: nat, ts: seq<Token>, c: nat) {
    && AllClosed(ts)
    && forall s, a, h, b, h', b' {:trigger Within(s, a, h, b), GetsOn(run, s, a, h', b', ts, j)} ::
      Within(s, a, h, b) && s.super == |a| && s.pos == i && |s.tokens| + |ts| <= n
      && h' == h.(size := h.size + c) && b' == b + ts
      ==> GetsOn(run, s, a, h', b', ts, j)
  }

  lemma QuotedReads(run: State -> (RunResult, State), js: string, n: nat, i: nat, w: string, t: Token, j: nat)
    requires Runs(run, js, n) && StringText(w) && Here(js, i, InQuotes(w))
    requires t == Token(Str, i + 1, i + 1 + |w|, 0) && j == i + |w| + 2
    ensures ReadsValue(run, n, i, j, [t])
  {
    assert Broken(true);
    forall s | SuperOk(s) && s.pos == i && |s.tokens| + 1 <= n ensures GetsPast(run, s, [t], j) {
      QuotedRun(run, js, n, s, w, t, j);
      assert Past(s, Leafed(s, t, j), [t], j);
    }
  }

  lemma PlainReads(run: State -> (RunResult, State), js: string, n: nat, i: nat, w: string, t: Token, j: nat)
    requires Runs(run, js, n) && PlainText(w) && Here(js, i, w) && Delimited(js, i + |w|)
    requires t == Token(Primitive, i, j, 0) && j == i + |w|
    ensures ReadsValue(run, n, i, j, [t])
  {
    assert Broken(true);
    forall s | SuperOk(s) && s.pos == i && |s.tokens| + 1 <= n ensures GetsPast(run, s, [t], j) {
      PlainRun(run, js, n, s, w, t, j);
      assert Past(s, Leafed(s, t, j), [t], j);
    }
  }

  /** From an opening bracket to the closing one. */
  lemma GroupReads(run: State -> (RunResult, State), js: string, n: nat, i: nat, j: nat, kind: Kind, ts: seq<Token>, c: nat,
      all: seq<Token>)
    requires Runs(run, js, n) && 0 < j && ReadsMembers(run, n, i + 1, j - 1, ts, c) && (kind.Array? || kind.Object?)
    requires i + 1 < j <= |js| && js[i] == (if kind.Array? then '[' else '{') && js[j - 1] == if kind.Array? then ']' else '}'
    requires all == [Token(kind, i, j, c)] + ts
    ensures ReadsValue(run, n, i, j, all)
  {
    assert Broken(true);
    forall s | SuperOk(s) && s.pos == i && |s.tokens| + |all| <= n ensures GetsPast(run, s, all, j) {
      var s' := GroupRun(run, js, n, s, j - 1, kind, ts, c, Token(kind, i, j, c));
    }
  }

  lemma GroupRun(run: State -> (RunResult, State), js: string, n: nat, s: State, j: nat, kind: Kind, ts: seq<Token>, c: nat,
      t: Token) returns (s': State)
    requires Runs(run, js, n) && SuperOk(s) && ReadsMembers(run, n, s.pos + 1, j, ts, c) && (kind.Array? || kind.Object?)
    requires s.pos < j < |js| && |s.tokens| + 1 + |ts| <= n
    requires js[s.pos] == (if kind.Array? then '[' else '{') && js[j] == if kind.Array? then ']' else '}'
    requires t == Token(kind, s.pos, j + 1, c)
    ensures run(s) == run(s') && Past(s, s', [t] + ts, j + 1)
  {
    var a, h, h' := Grow(s.tokens, s.super), Token(kind, s.pos, -1, 0), Token(kind, s.pos, -1, c);
    var s1 := OpenRun(run, js, n, s, kind);
    var s2 := ThroughMembers(run, n, s1, j, ts, c, a, h, [], h', [] + ts);
    assert [] + ts == ts;
    CloseRun(run, js, n, s2, a, h', ts);
    GrowOpen(s.tokens, s.super);
    s' := State(j + 1, LastOpen(a, |a|), Amid(a, t, ts), s2.count);
    Grouped(a, t, ts);
  }

  lemma ThroughMembers(run: State -> (RunResult, State), n: nat, s: State, j: nat, ts: seq<Token>, c: nat,
      a: seq<Token>, h: Token, b: seq<Token>, h': Token, b': seq<Token>) returns (s': State)
    requires ReadsMembers(run, n, s.pos, j, ts, c) && Within(s, a, h, b) && s.super == |a| && |s.tokens| + |ts| <= n
    requires h' == h.(size := h.size + c) && b' == b + ts
    ensures run(s) == run(s') && Within(s', a, h', b') && s'.pos == j && s'.count == s.count + |ts|
  {
    assert Broken(true);
    assert GetsOn(run, s, a, h', b', ts, j);
    s' :| run(s) == run(s') && Within(s', a, h', b') && s'.pos == j && s'.count == s.count + |ts|;
  }

  lemma Grouped(a: seq<Token>, t: Token, ts: seq<Token>)
    ensures Amid(a, t, ts) == a + ([t] + ts)
  {
  }

  lemma NoneRead(run: State -> (RunResult, State), js: string, n: nat, i: nat, j: nat, space: string)
    requires Runs(run, js, n) && Spaces(space) && Here(js, i, space) && j == i + |space|
    ensures ReadsMembers(run, n, i, j, [], 0)
  {
    assert Broken(true);
    forall s, a, h, b, h', b' | Within(s, a, h, b) && s.super == |a| && s.pos == i && |s.tokens| + 0 <= n
        && h' == h.(size := h.size + 0) && b' == b + []
      ensures GetsOn(run, s, a, h', b', [], j)
    {
      SpacesRun(run, js, n, s, space);
      assert h' == h && b' == b;
      assert Within(s.(pos := j), a, h, b);
    }
  }

  /** One member, a comma, and the others. */
  lemma MoreRead(run: State -> (RunResult, State), js: string, n: nat, i: nat, k: nat, j: nat, first: seq<Token>,
      rest: seq<Token>, c: nat, all: seq<Token>, count: nat)
    requires Runs(run, js, n) && ReadsMembers(run, n, i, k, first, 1) && ReadsMembers(run, n, k + 1, j, rest, c)
    requires k < |js| && js[k] == ',' && all == first + rest && count == 1 + c
    ensures ReadsMembers(run, n, i, j, all, count)
  {
    assert Broken(true);
    forall s, a, h, b, h', b' | Within(s, a, h, b) && s.super == |a| && s.pos == i && |s.tokens| + |all| <= n
        && h' == h.(size := h.size + count) && b' == b + all
      ensures GetsOn(run, s, a, h', b', all, j)
    {
      var s' := MoreRun(run, js, n, s, k, j, first, rest, c, a, h, b, h', b');
    }
  }

  lemma MoreRun(run: State -> (RunResult, State), js: string, n: nat, s: State, k: nat, j: nat, first: seq<Token>,
      rest: seq<Token>, c: nat, a: seq<Token>, h: Token, b: seq<Token>, h': Token, b': seq<Token>) returns (s': State)
    requires Runs(run, js, n) && ReadsMembers(run, n, s.pos, k, first, 1) && ReadsMembers(run, n, k + 1, j, rest, c)
    requires k < |js| && js[k] == ',' && Within(s, a, h, b) && s.super == |a| && |s.tokens| + |first| + |rest| <= n
    requires h' == h.(size := h.size + (1 + c)) && b' == b + (first + rest)
    ensures run(s) == run(s') && Within(s', a, h', b') && s'.pos == j && s'.count == s.count + |first| + |rest|
  {
    var h1, b1 := h.(size := h.size + 1), b + first;
    var s1 := ThroughMembers(run, n, s, k, first, 1, a, h, b, h1, b1);
    CommaRun(run, js, n, s1, a, h1, b1);
    var s2 := s1.(pos := k + 1, super := |a|);
    Associative(b, first, rest);
    s' := ThroughMembers(run, n, s2, j, rest, c, a, h1, b1, h', b');
  }

  lemma Associative(a: seq<Token>, b: seq<Token>, c: seq<Token>)
    ensures a + b + c == a + (b + c)
  {
  }

  /** The machine is ready for the value of a member, whose key, if it has one, is `ns`. */
  ghost predicate Ready(s: State, q: State, a: seq<Token>, h: Token, b: seq<Token>, ns: seq<Token>) {
    || (ns == [] && q.(pos := s.pos) == s)
    || (|ns| == 1 && IsLeaf(ns[0]) && ns[0].size == 1 && q.count == s.count + 1 && q.super == |s.tokens|
        && q.tokens == Amid(a, h.(size := h.size + 1), b) + [ns[0].(size := 0)])
  }

  ghost predicate GetsReady(run: State -> (RunResult, State), s: State, a: seq<Token>, h: Token, b: seq<Token>,
      ns: seq<Token>, end: nat) {
    exists q :: run(s) == run(q) && Ready(s, q, a, h, b, ns) && q.pos == end
  }

  ghost predicate NameBetween(run: State -> (RunResult, State), n: nat, i: nat, j: nat, ns: seq<Token>) {
    && AllClosed(ns)
    && forall s, a, h, b {:trigger Within(s, a, h, b), GetsReady(run, s, a, h, b, ns, j)} ::
      Within(s, a, h, b) && s.super == |a| && s.pos == i && |s.tokens| + |ns| <= n ==> GetsReady(run, s, a, h, b, ns, j)
  }

  /** Between `i` and `j` the machine reads what stands in front of the value of a member. */
  ghost predicate ReadsName(run: State -> (RunResult, State), n: nat, i: nat, j: nat, ns: seq<Token>) {
    forall b: bool {:trigger Broken(b)} :: Broken(b) ==> NameBetween(run, n, i, j, ns)
  }

  /** One member, with its key if it has one. */
  lemma MemberReads(run: State -> (RunResult, State), js: string, n: nat, i: nat, before: string, k: nat, ns: seq<Token>,
      at: nat, ts: seq<Token>, next: nat, after: string, j: nat, all: seq<Token>)
    requires Runs(run, js, n) && Spaces(before) && Here(js, i, before) && k == i + |before|
    requires ReadsName(run, n, k, at, ns) && ReadsValue(run, n, at, next, ts)
    requires Spaces(after) && Here(js, next, after) && j == next + |after| && all == ns + ts
    ensures ReadsMembers(run, n, i, j, all, 1)
  {
    assert Broken(true);
    forall s, a, h, b, h', b' | Within(s, a, h, b) && s.super == |a| && s.pos == i && |s.tokens| + |all| <= n
        && h' == h.(size := h.size + 1) && b' == b + all
      ensures GetsOn(run, s, a, h', b', all, j)
    {
      var s' := MemberRun(run, js, n, s, before, k, ns, at, ts, next, after, a, h, b, h', b');
    }
  }

  lemma MemberRun(run: State -> (RunResult, State), js: string, n: nat, s: State, before: string, k: nat, ns: seq<Token>,
      at: nat, ts: seq<Token>, next: nat, after: string, a: seq<Token>, h: Token, b: seq<Token>, h': Token, b': seq<Token>)
      returns (s': State)
    requires Runs(run, js, n) && Spaces(before) && Here(js, s.pos, before) && k == s.pos + |before|
    requires ReadsName(run, n, k, at, ns) && ReadsValue(run, n, at, next, ts) && Spaces(after) && Here(js, next, after)
    requires Within(s, a, h, b) && s.super == |a| && |s.tokens| + |ns| + |ts| <= n
    requires h' == h.(size := h.size + 1) && b' == b + (ns + ts)
    ensures run(s) == run(s') && Within(s', a, h', b') && s'.pos == next + |after| && s'.count == s.count + |ns| + |ts|
  {
    SpacesRun(run, js, n, s, before);
    var s1 := s.(pos := k);
    var q := ThroughName(run, n, s1, at, ns, a, h, b);
    var s2 := ThroughValue(run, n, q, next, ts);
    ValueWithin(s1, q, s2, a, h, b, ns, ts, h', b');
    SpacesRun(run, js, n, s2, after);
    s' := s2.(pos := next + |after|);
  }

  lemma ThroughName(run: State -> (RunResult, State), n: nat, s: State, at: nat, ns: seq<Token>,
      a: seq<Token>, h: Token, b: seq<Token>) returns (q: State)
    requires ReadsName(run, n, s.pos, at, ns) && Within(s, a, h, b) && s.super == |a| && |s.tokens| + |ns| <= n
    ensures run(s) == run(q) && Ready(s, q, a, h, b, ns) && q.pos == at && AllClosed(ns)
    ensures SuperOk(q) && |q.tokens| == |s.tokens| + |ns|
  {
    assert Broken(true);
    assert GetsReady(run, s, a, h, b, ns, at);
    q :| run(s) == run(q) && Ready(s, q, a, h, b, ns) && q.pos == at;
  }

  lemma ThroughValue(run: State -> (RunResult, State), n: nat, q: State, k: nat, ts: seq<Token>) returns (s': State)
    requires ReadsValue(run, n, q.pos, k, ts) && SuperOk(q) && |q.tokens| + |ts| <= n
    ensures run(q) == run(s') && Past(q, s', ts, k) && AllClosed(ts)
  {
    assert Broken(true);
    assert GetsPast(run, q, ts, k);
    s' :| run(q) == run(s') && Past(q, s', ts, k);
  }

  lemma ValueWithin(s: State, q: State, s': State, a: seq<Token>, h: Token, b: seq<Token>, ns: seq<Token>, ts: seq<Token>,
      h': Token, b': seq<Token>)
    requires Within(s, a, h, b) && s.super == |a| && AllClosed(ts) && AllClosed(ns) && Past(q, s', ts, s'.pos)
    requires Ready(s, q, a, h, b, ns) && h' == h.(size := h.size + 1) && b' == b + (ns + ts)
    ensures Within(s', a, h', b') && s'.count == s.count + |ns| + |ts|
  {
    if ns == [] {
      UnnamedWithin(s, s', a, h, b, ts);
      assert ns + ts == ts;
    } else {
      assert ns == [ns[0]];
      NamedWithin(q, s', a, h', b, ns[0].(size := 0), ts);
    }
  }

  lemma UnnamedWithin(s: State, s': State, a: seq<Token>, h: Token, b: seq<Token>, ts: seq<Token>)
    requires Within(s, a, h, b) && s.super == |a| && AllClosed(ts)
    requires s'.tokens == Grow(s.tokens, s.super) + ts && (s'.super == s.super || s'.super == LastOpen(s.tokens, |s.tokens|))
    ensures Within(s', a, h.(size := h.size + 1), b + ts)
  {
    GrowAmid(a, h, b);
    LastOpenAmid(a, h, b);
    Added(a, h.(size := h.size + 1), b, ts);
  }

  lemma Added(a: seq<Token>, h: Token, b: seq<Token>, ts: seq<Token>)
    ensures Amid(a, h, b) + ts == Amid(a, h, b + ts)
  {
  }

  lemma NamedWithin(q: State, s': State, a: seq<Token>, h: Token, b: seq<Token>, key: Token, ts: seq<Token>)
    requires IsOpen(h) && (h.kind.Array? || h.kind.Object?) && AllClosed(b) && AllClosed(ts) && !IsOpen(key) && IsLeaf(key)
    requires q.tokens == Amid(a, h, b) + [key] && q.super == |a| + 1 + |b| && Past(q, s', ts, s'.pos)
    ensures Within(s', a, h, b + ([key.(size := key.size + 1)] + ts))
  {
    var named := key.(size := key.size + 1);
    Added(a, h, b, [key]);
    LastOpenAmid(a, h, b + [key]);
    assert Grow(q.tokens, q.super) == Amid(a, h, b) + [named];
    Added(a, h, b, [named] + ts);
    Associative(Amid(a, h, b), [named], ts);
    assert s'.tokens[q.super] == named;
    assert s'.tokens == Amid(a, h, b + ([named] + ts));
  }

  lemma PartsHere(js: string, i: nat, a: string, b: string, c: string, d: string)
    requires Here(js, i, a + (b + (c + d))) && Delimited(js, i + |a| + |b| + |c| + |d|) && Spaces(d)
    ensures Here(js, i, a) && Here(js, i + |a|, b) && Here(js, i + |a| + |b|, c) && Here(js, i + |a| + |b| + |c|, d)
    ensures Delimited(js, i + |a| + |b| + |c|)
  {
    HereSplit(js, i, a, b + (c + d));
    HereSplit(js, i + |a|, b, c + d);
    HereSplit(js, i + |a| + |b|, c, d);
    AfterValue(js, i + |a| + |b| + |c|, d);
  }

  lemma AfterValue(js: string, i: nat, after: string)
    requires Spaces(after) && Here(js, i, after) && Delimited(js, i + |after|)
    ensures Delimited(js, i)
  {
    if after != "" {
      HereChar(js, i, after, 0);
    }
  }

  lemma UnnamedReads(run: State -> (RunResult, State), n: nat, i: nat)
    ensures ReadsName(run, n, i, i, [])
  {
    forall s, a, h, b | Within(s, a, h, b) && s.super == |a| && s.pos == i && |s.tokens| + 0 <= n
      ensures GetsReady(run, s, a, h, b, [], i)
    {
      assert Ready(s, s, a, h, b, []);
    }
  }

  /** A key and its colon: what comes next counts for the key. */
  lemma NameReads(run: State -> (RunResult, State), js: string, n: nat, i: nat, key: string, k: nat, t: Token, behind: string,
      gap: string, j: nat, ns: seq<Token>)
    requires Runs(run, js, n) && ReadsValue(run, n, i, k, [t]) && IsLeaf(t) && t.size == 0 && k == i + |key|
    requires Here(js, i, key + (behind + (":" + gap))) && Spaces(behind) && Spaces(gap)
    requires j == k + |behind| + 1 + |gap| && ns == [t.(size := 1)]
    ensures ReadsName(run, n, i, j, ns)
  {
    assert Broken(true);
    assert !IsOpen([t][0]);
    NameParts(js, i, key, behind, gap);
    forall s, a, h, b | Within(s, a, h, b) && s.super == |a| && s.pos == i && |s.tokens| + |ns| <= n
      ensures GetsReady(run, s, a, h, b, ns, j)
    {
      var q := NameRun(run, js, n, s, k, t, behind, gap, a, h, b);
    }
  }

  lemma NameRun(run: State -> (RunResult, State), js: string, n: nat, s: State, k: nat, t: Token, behind: string, gap: string,
      a: seq<Token>, h: Token, b: seq<Token>) returns (q: State)
    requires Runs(run, js, n) && ReadsValue(run, n, s.pos, k, [t]) && IsLeaf(t) && t.size == 0
    requires Spaces(behind) && Spaces(gap) && Here(js, k, behind) && Here(js, k + |behind| + 1, gap)
    requires k + |behind| < |js| && js[k + |behind|] == ':' && Within(s, a, h, b) && s.super == |a| && |s.tokens| < n
    ensures run(s) == run(q) && q.pos == k + |behind| + 1 + |gap| && Ready(s, q, a, h, b, [t.(size := 1)])
  {
    var s1 := ThroughValue(run, n, s, k, [t]);
    GrowAmid(a, h, b);
    SpacesRun(run, js, n, s1, behind);
    var s2 := s1.(pos := k + |behind|);
    ColonRun(run, js, n, s2);
    var s3 := s2.(pos := s2.pos + 1, super := |s2.tokens| - 1);
    SpacesRun(run, js, n, s3, gap);
    q := s3.(pos := s3.pos + |gap|);
    assert t.(size := 1).(size := 0) == t;
  }

  lemma NameParts(js: string, i: nat, key: string, behind: string, gap: string)
    requires Here(js, i, key + (behind + (":" + gap)))
    ensures var k := i + |key| + |behind|;
      Here(js, i, key) && Here(js, i + |key|, behind) && k < |js| && js[k] == ':' && Here(js, k + 1, gap)
  {
    HereSplit(js, i, key, behind + (":" + gap));
    HereSplit(js, i + |key|, behind, ":" + gap);
    HereSplit(js, i + |key| + |behind|, ":", gap);
    HereChar(js, i + |key| + |behind|, ":", 0);
  }

  // ----- Values -----

  /** `w` is the text of a value that starts at `i`, and `ts` are its tokens. */
  ghost predicate Written(v: Json, i: nat, w: string, ts: seq<Token>) {
    forall b: bool {:trigger Broken(b)} :: Broken(b) ==> Valid(v) && w == Text(v) && ts == TokensOf(v, i)
  }

  /** The same of a member, of its key and colon, and of all members of a container. */
  ghost predicate EntryWritten(e: Entry, keys: bool, i: nat, w: string, ts: seq<Token>) {
    forall b: bool {:trigger Broken(b)} :: Broken(b) ==> ValidEntry(e, keys) && w == EntryText(e) && ts == EntryTokens(e, i)
  }

  ghost predicate NameWritten(m: Name, i: nat, w: string, ns: seq<Token>) {
    forall b: bool {:trigger Broken(b)} :: Broken(b) ==> ValidName(m) && w == NameText(m) && ns == NameTokens(m, i)
  }

  ghost predicate EntriesWritten(space: string, es: seq<Entry>, keys: bool, i: nat, w: string, ts: seq<Token>) {
    forall b: bool {:trigger Broken(b)} :: Broken(b) ==>
      Spaces(space) && ValidEntries(es, keys) && w == Inside(space, es) && ts == EntriesTokens(es, i)
  }

  lemma LeafShape(v: Json, i: nat, w: string, ts: seq<Token>)
    requires Written(v, i, w, ts)
    ensures v.Plain? ==> PlainText(w) && ts == [Token(Primitive, i, i + |w|, 0)]
    ensures v.Quoted? ==> StringText(v.text) && w == InQuotes(v.text) && ts == [Token(Str, i + 1, i + 1 + |v.text|, 0)]
  {
    assert Broken(true);
  }

  lemma GroupShape(v: Json, i: nat, w: string, ts: seq<Token>, kind: Kind, open: string, close: string)
      returns (inside: string, its: seq<Token>)
    requires Written(v, i, w, ts)
    requires (v.List? && kind.Array? && open == "[" && close == "]") || (v.Dict? && kind.Object? && open == "{" && close == "}")
    ensures w == open + (inside + close) && ts == [Token(kind, i, i + |w|, |v.entries|)] + its
    ensures EntriesWritten(v.space, v.entries, v.Dict?, i + 1, inside, its)
  {
    assert Broken(true);
    inside, its := Inside(v.space, v.entries), EntriesTokens(v.entries, i + 1);
  }

  lemma NoneShape(space: string, es: seq<Entry>, keys: bool, i: nat, w: string, ts: seq<Token>)
    requires EntriesWritten(space, es, keys, i, w, ts) && es == []
    ensures Spaces(space) && w == space && ts == []
  {
    assert Broken(true);
  }

  lemma OneShape(space: string, es: seq<Entry>, keys: bool, i: nat, w: string, ts: seq<Token>)
    requires EntriesWritten(space, es, keys, i, w, ts) && |es| == 1
    ensures EntryWritten(es[0], keys, i, w, ts)
  {
    assert Broken(true);
    assert EntriesTokens(es[1..], i + |EntryText(es[0])| + 1) == [];
    assert EntryTokens(es[0], i) + [] == EntryTokens(es[0], i);
  }

  lemma MoreShape(space: string, es: seq<Entry>, keys: bool, i: nat, w: string, ts: seq<Token>)
      returns (text: string, first: seq<Token>, others: string, rest: seq<Token>)
    requires EntriesWritten(space, es, keys, i, w, ts) && |es| > 1
    ensures w == text + ("," + others) && ts == first + rest && EntryWritten(es[0], keys, i, text, first)
    ensures EntriesWritten(space, es[1..], keys, i + |text| + 1, others, rest)
  {
    assert Broken(true);
    text, first := EntryText(es[0]), EntryTokens(es[0], i);
    others, rest := Inside(space, es[1..]), EntriesTokens(es[1..], i + |text| + 1);
  }

  lemma EntryShape(e: Entry, keys: bool, i: nat, w: string, ts: seq<Token>)
      returns (name: string, ns: seq<Token>, value: string, vs: seq<Token>)
    requires EntryWritten(e, keys, i, w, ts)
    ensures w == e.before + (name + (value + e.after)) && ts == ns + vs && Spaces(e.before) && Spaces(e.after)
    ensures NameWritten(e.name, i + |e.before|, name, ns) && Written(e.value, i + |e.before| + |name|, value, vs)
  {
    assert Broken(true);
    name, ns := NameText(e.name), NameTokens(e.name, i + |e.before|);
    value, vs := Text(e.value), TokensOf(e.value, i + |e.before| + |name|);
  }

  lemma NameWrittenReads(run: State -> (RunResult, State), js: string, n: nat, i: nat, j: nat, m: Name, w: string, ns: seq<Token>)
    requires Runs(run, js, n) && NameWritten(m, i, w, ns) && Here(js, i, w) && j == i + |w|
    ensures ReadsName(run, n, i, j, ns)
  {
    assert Broken(true);
    if m.Unnamed? {
      UnnamedReads(run, n, i);
    } else {
      var key, t := KeyText(m), KeyToken(m, i, 0);
      var k := i + |key|;
      NameParts(js, i, key, m.behind, m.gap);
      if m.quoted {
        QuotedReads(run, js, n, i, m.text, t, k);
      } else {
        AfterValue(js, k, m.behind);
        PlainReads(run, js, n, i, m.text, t, k);
      }
      NameReads(run, js, n, i, key, k, t, m.behind, m.gap, j, ns);
    }
  }

  /** From the text of a value the machine goes on behind it with exactly its tokens added. */
  lemma {:induction false} ValueReads(run: State -> (RunResult, State), js: string, n: nat, i: nat, j: nat, v: Json, w: string,
      ts: seq<Token>)
    requires Runs(run, js, n) && Written(v, i, w, ts) && Here(js, i, w) && j == i + |w| && Delimited(js, j)
    ensures ReadsValue(run, n, i, j, ts)
    decreases v, 1
  {
    LeafShape(v, i, w, ts);
    match v {
      case Plain(_) =>
        PlainReads(run, js, n, i, w, Token(Primitive, i, j, 0), j);
      case Quoted(body) =>
        QuotedReads(run, js, n, i, body, Token(Str, i + 1, i + 1 + |body|, 0), j);
      case List(_, _) =>
        ContainerReads(run, js, n, i, j, v, Array, "[", "]", w, ts);
      case Dict(_, _) =>
        ContainerReads(run, js, n, i, j, v, Object, "{", "}", w, ts);
    }
  }

  lemma {:induction false} ContainerReads(run: State -> (RunResult, State), js: string, n: nat, i: nat, j: nat, v: Json,
      kind: Kind, open: string, close: string, w: string, ts: seq<Token>)
    requires Runs(run, js, n) && Written(v, i, w, ts) && Here(js, i, w) && j == i + |w|
    requires (v.List? && kind.Array? && open == "[" && close == "]") || (v.Dict? && kind.Object? && open == "{" && close == "}")
    ensures ReadsValue(run, n, i, j, ts)
    decreases v, 0
  {
    var inside, its := GroupShape(v, i, w, ts, kind, open, close);
    BracketsHere(js, i, open, inside, close);
    InsideReads(run, js, n, i + 1, j - 1, v.space, v.entries, v.Dict?, inside, its);
    GroupReads(run, js, n, i, j, kind, its, |v.entries|, ts);
  }

  lemma BracketsHere(js: string, i: nat, open: string, inside: string, close: string)
    requires Here(js, i, open + (inside + close)) && |open| == |close| == 1
    ensures i + 1 + |inside| < |js| && js[i] == open[0] && Here(js, i + 1, inside) && js[i + 1 + |inside|] == close[0]
  {
    HereSplit(js, i, open, inside + close);
    HereSplit(js, i + 1, inside, close);
    HereChar(js, i, open, 0);
    HereChar(js, i + 1 + |inside|, close, 0);
  }

  /** What stands between the brackets, up to the closing one. */
  lemma {:induction false} InsideReads(run: State -> (RunResult, State), js: string, n: nat, i: nat, j: nat, space: string,
      es: seq<Entry>, keys: bool, w: string, ts: seq<Token>)
    requires Runs(run, js, n) && EntriesWritten(space, es, keys, i, w, ts) && Here(js, i, w) && j == i + |w| && Delimited(js, j)
    ensures ReadsMembers(run, n, i, j, ts, |es|)
    decreases es
  {
    if es == [] {
      NoneShape(space, es, keys, i, w, ts);
      NoneRead(run, js, n, i, j, space);
    } else if |es| == 1 {
      OneShape(space, es, keys, i, w, ts);
      EntryReads(run, js, n, i, j, es[0], keys, w, ts);
    } else {
      var text, first, others, rest := MoreShape(space, es, keys, i, w, ts);
      var k, more := i + |text|, es[1..];
      SeparatedHere(js, i, text, others);
      EntryReads(run, js, n, i, k, es[0], keys, text, first);
      InsideReads(run, js, n, k + 1, j, space, more, keys, others, rest);
      MoreRead(run, js, n, i, k, j, first, rest, |more|, ts, |es|);
    }
  }

  lemma SeparatedHere(js: string, i: nat, first: string, others: string)
    requires Here(js, i, first + ("," + others))
    ensures Here(js, i, first) && i + |first| < |js| && js[i + |first|] == ',' && Here(js, i + |first| + 1, others)
  {
    HereSplit(js, i, first, "," + others);
    HereSplit(js, i + |first|, ",", others);
    HereChar(js, i + |first|, ",", 0);
  }

  lemma {:induction false} EntryReads(run: State -> (RunResult, State), js: string, n: nat, i: nat, j: nat, e: Entry, keys: bool,
      w: string, ts: seq<Token>)
    requires Runs(run, js, n) && EntryWritten(e, keys, i, w, ts) && Here(js, i, w) && j == i + |w| && Delimited(js, j)
    ensures ReadsMembers(run, n, i, j, ts, 1)
    decreases e
  {
    var name, ns, value, vs := EntryShape(e, keys, i, w, ts);
    var k := i + |e.before|;
    var at := k + |name|;
    var next := at + |value|;
    PartsHere(js, i, e.before, name, value, e.after);
    NameWrittenReads(run, js, n, k, at, e.name, name, ns);
    ValueReads(run, js, n, at, next, e.value, value, vs);
    MemberReads(run, js, n, i, e.before, k, ns, at, vs, next, e.after, j, ts);
  }

  // ----- The whole text -----

  ghost function RunOf(js: string, n: nat): State -> (RunResult, State) {
    (s: State) => if SuperOk(s) then Run(js, Capacity(n), s) else (Failed(Invalid), s)
  }

  lemma RunRuns(js: string, n: nat)
    ensures Runs(RunOf(js, n), js, n)
  {
    forall s | SuperOk(s) && !AtEnd(js, s.pos) && Step(js, Capacity(n), s).Next?
      ensures RunOf(js, n)(s) == RunOf(js, n)(Step(js, Capacity(n), s).s)
    {
      StepMoves(js, Capacity(n), s);
    }
  }

  /** The tokens of the text of a value, with room for all of them, are exactly those of the
      value. */
  lemma Tokenized(before: string, v: Json, after: string, n: nat)
    requires Spaces(before) && Valid(v) && Spaces(after) && |TokensOf(v, |before|)| <= n
    ensures var js, ts := before + (Text(v) + after), TokensOf(v, |before|);
      Run(js, Capacity(n), Init()) == (Done(|ts|), State(|js|, -1, ts, |ts|))
  {
    var w, ts := Text(v), TokensOf(v, |before|);
    assert Written(v, |before|, w, ts);
    TokenizedBy(before, v, w, after, n, ts, before + (w + after), Init());
  }

  lemma TokenizedBy(before: string, v: Json, w: string, after: string, n: nat, ts: seq<Token>, js: string, s: State)
    requires Spaces(before) && Spaces(after) && js == before + (w + after) && |ts| <= n
    requires Written(v, |before|, w, ts) && s == Init()
    ensures Run(js, Capacity(n), s) == (Done(|ts|), State(|js|, -1, ts, |ts|))
  {
    var run, k := RunOf(js, n), |before| + |w|;
    RunRuns(js, n);
    WholeParts(js, before, w, after);
    ValueReads(run, js, n, |before|, k, v, w, ts);
    WholeRun(run, js, n, before, k, after, ts);
    RunOfIs(js, n, s);
    AtTheEnd(js, n, ts);
  }

  lemma RunOfIs(js: string, n: nat, s: State)
    requires SuperOk(s)
    ensures RunOf(js, n)(s) == Run(js, Capacity(n), s)
  {
  }

  lemma WholeRun(run: State -> (RunResult, State), js: string, n: nat, before: string, k: nat, after: string, ts: seq<Token>)
    requires Runs(run, js, n) && Spaces(before) && Spaces(after) && |ts| <= n && Here(js, 0, before) && Here(js, k, after)
    requires |js| == k + |after| && ReadsValue(run, n, |before|, k, ts)
    ensures run(Init()) == run(State(|js|, -1, ts, |ts|)) && AllClosed(ts)
  {
    var s := Init();
    SpacesRun(run, js, n, s, before);
    var s1 := s.(pos := |before|);
    var s2 := ThroughValue(run, n, s1, k, ts);
    PastNothing(s1, s2, ts, k);
    SpacesRun(run, js, n, s2, after);
  }

  lemma PastNothing(s: State, s': State, ts: seq<Token>, end: nat)
    requires Past(s, s', ts, end) && s.tokens == [] && s.super == -1 && s.count == 0
    ensures s' == State(end, -1, ts, |ts|)
  {
    assert [] + ts == ts;
  }

  lemma WholeParts(js: string, before: string, w: string, after: string)
    requires js == before + (w + after) && Spaces(after)
    ensures Here(js, 0, before) && Here(js, |before|, w) && Here(js, |before| + |w|, after)
    ensures Delimited(js, |before| + |w|)
  {
    HereWhole(js, before + (w + after));
    HereSplit(js, 0, before, w + after);
    HereSplit(js, |before|, w, after);
    AfterValue(js, |before| + |w|, after);
  }

  lemma AtTheEnd(js: string, n: nat, ts: seq<Token>)
    requires AllClosed(ts)
    ensures var s := State(|js|, -1, ts, |ts|); RunOf(js, n)(s) == (Done(|ts|), s)
  {
    LastOpenBehind([], ts);
    assert [] + ts == ts;
  }

  /** With less room than that the tokens run out, and the run without tokens counts them. */
  lemma RoomNeeded(before: string, v: Json, after: string, n: nat)
    requires Spaces(before) && Valid(v) && Spaces(after) && n < |TokensOf(v, |before|)|
    ensures var js := before + (Text(v) + after);
      && Run(js, Capacity(n), Init()).0 == Failed(NoMemory)
      && Run(js, Dry, Init()).0 == Done(|TokensOf(v, |before|)|)
  {
    var js, m := before + (Text(v) + after), |TokensOf(v, |before|)|;
    Tokenized(before, v, after, m);
    DryRunCounts(js, m, Init(), Init());
    RunFits(js, n, Init());
    if Run(js, Capacity(n), Init()).0 != Failed(NoMemory) {
      MoreRoomSame(js, n, m, Init());
    }
  }
}
