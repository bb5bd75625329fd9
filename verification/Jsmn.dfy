/**
  The JSON tokenizer as a state machine: one step per character that starts something.

  With a token array of a given capacity the machine fills it; without one it only counts.
  A step that fails leaves the machine where it was, so that parsing can be resumed.
 */
module Jsmn {

  datatype Kind = Object | Array | Str | Primitive

  /** `end` is -1 while an object or array is open. */
  datatype Token = Token(kind: Kind, start: int, end: int, size: nat)

  datatype State = State(pos: nat, super: int, tokens: seq<Token>, count: nat)

  /** Room for tokens; `Dry` is a run without an array. */
  datatype Room = Dry | Capacity(n: nat)

  datatype Error = NoMemory | Invalid | Partial

  datatype StepResult = Next(s: State) | Fail(error: Error)
  datatype RunResult = Done(count: nat) | Failed(error: Error)

  const NUL := 0 as char

  function Init(): State {
    State(0, -1, [], 0)
  }

  predicate AtEnd(js: string, i: nat) {
    i >= |js| || js[i] == NUL
  }

  // ----- Scanning one string or primitive -----

  datatype Scan = Found(at: nat) | BadScan(error: Error)

  predicate IsHex(c: char) {
    '0' <= c <= '9' || 'A' <= c <= 'F' || 'a' <= c <= 'f'
  }

  /** Where up to `n` hexadecimal digits end; nothing when another character comes first. */
  function ScanHex(js: string, i: nat, n: nat): (r: Scan)
    ensures r.Found? ==> i <= r.at && (i <= |js| ==> r.at <= |js|)
    ensures r.BadScan? ==> r.error.Invalid?
    decreases n
  {
    if n == 0 || AtEnd(js, i) then Found(i)
    else if IsHex(js[i]) then ScanHex(js, i + 1, n - 1)
    else BadScan(Invalid)
  }

  predicate SimpleEscape(c: char) {
    c == '\"' || c == '/' || c == '\\' || c == 'b' || c == 'f' || c == 'r' || c == 'n' || c == 't'
  }

  /** The closing quote of a string, from inside it. */
  function ScanString(js: string, i: nat): (r: Scan)
    ensures r.Found? ==> i <= r.at < |js| && js[r.at] == '\"'
    ensures r.BadScan? ==> !r.error.NoMemory?
    decreases |js| - i
  {
    if AtEnd(js, i) then BadScan(Partial)
    else if js[i] == '\"' then Found(i)
    else if js[i] == '\\' && i + 1 < |js| then
      if SimpleEscape(js[i + 1]) then ScanString(js, i + 2)
      else if js[i + 1] == 'u' then
        var h := ScanHex(js, i + 2, 4);
        if h.Found? then ScanString(js, h.at) else h
      else BadScan(Invalid)
    else ScanString(js, i + 1)
  }

  predicate Delimiter(c: char) {
    c == ':' || c == '\t' || c == '\r' || c == '\n' || c == ' ' || c == ',' || c == ']' || c == '}'
  }

  /** Where a primitive that has begun before `i` ends. */
  function ScanPrimitive(js: string, i: nat): (r: Scan)
    requires i <= |js|
    ensures r.Found? ==> i <= r.at <= |js| && (AtEnd(js, r.at) || Delimiter(js[r.at]))
    ensures r.BadScan? ==> r.error.Invalid?
    decreases |js| - i
  {
    if AtEnd(js, i) || Delimiter(js[i]) then Found(i)
    else if js[i] < 32 as char || js[i] >= 127 as char then BadScan(Invalid)
    else ScanPrimitive(js, i + 1)
  }

  // ----- One step -----

  predicate IsOpen(t: Token) {
    t.start != -1 && t.end == -1
  }

  /** The last open token among the first `n`, or -1. */
  function LastOpen(tokens: seq<Token>, n: nat): (i: int)
    requires n <= |tokens|
    ensures -1 <= i < n
    ensures i >= 0 ==> IsOpen(tokens[i])
    ensures forall j :: i < j < n ==> !IsOpen(tokens[j])
  {
    if n == 0 then -1
    else if IsOpen(tokens[n - 1]) then n - 1
    else LastOpen(tokens, n - 1)
  }

  predicate Full(room: Room, tokens: seq<Token>) {
    room.Capacity? && |tokens| >= room.n
  }

  predicate SuperOk(s: State) {
    -1 <= s.super < |s.tokens|
  }

  /** One more child for the token above. */
  function Grow(tokens: seq<Token>, super: int): seq<Token>
    requires -1 <= super < |tokens|
  {
    if super == -1 then tokens else tokens[super := tokens[super].(size := tokens[super].size + 1)]
  }

  function OpenBracket(room: Room, s: State, kind: Kind): StepResult
    requires SuperOk(s)
  {
    if room.Dry? then Next(s.(pos := s.pos + 1, count := s.count + 1))
    else if Full(room, s.tokens) then Fail(NoMemory)
    else
      Next(State(s.pos + 1, |s.tokens|, Grow(s.tokens, s.super) + [Token(kind, s.pos, -1, 0)], s.count + 1))
  }

  function CloseBracket(room: Room, s: State, kind: Kind): StepResult {
    if room.Dry? then Next(s.(pos := s.pos + 1))
    else
      var i := LastOpen(s.tokens, |s.tokens|);
      if i == -1 || s.tokens[i].kind != kind then Fail(Invalid)
      else
        var closed := s.tokens[i := s.tokens[i].(end := s.pos + 1)];
        Next(State(s.pos + 1, LastOpen(closed, i + 1), closed, s.count))
  }

  /** A string or primitive that lies between `start` and `end`; parsing goes on at `next`. */
  function AddLeaf(room: Room, s: State, kind: Kind, start: nat, end: nat, next: nat): StepResult
    requires SuperOk(s)
  {
    if room.Dry? then Next(s.(pos := next, count := s.count + 1))
    else if Full(room, s.tokens) then Fail(NoMemory)
    else Next(State(next, s.super, Grow(s.tokens + [Token(kind, start, end, 0)], s.super), s.count + 1))
  }

  function Comma(room: Room, s: State): State
    requires SuperOk(s)
  {
    var t := s.(pos := s.pos + 1);
    if room.Capacity? && s.super != -1 && !s.tokens[s.super].kind.Array? && !s.tokens[s.super].kind.Object? then
      var i := LastOpen(s.tokens, |s.tokens|);
      if i == -1 then t else t.(super := i)
    else t
  }

  function Step(js: string, room: Room, s: State): StepResult
    requires !AtEnd(js, s.pos) && SuperOk(s)
  {
    var c := js[s.pos];
    if c == '{' then OpenBracket(room, s, Object)
    else if c == '[' then OpenBracket(room, s, Array)
    else if c == '}' then CloseBracket(room, s, Object)
    else if c == ']' then CloseBracket(room, s, Array)
    else if c == '\"' then
      var r := ScanString(js, s.pos + 1);
      if r.BadScan? then Fail(r.error) else AddLeaf(room, s, Str, s.pos + 1, r.at, r.at + 1)
    else if c == '\t' || c == '\r' || c == '\n' || c == ' ' then Next(s.(pos := s.pos + 1))
    else if c == ':' then Next(s.(pos := s.pos + 1, super := |s.tokens| - 1))
    else if c == ',' then Next(Comma(room, s))
    else
      var r := ScanPrimitive(js, s.pos);
      if r.BadScan? then Fail(r.error) else AddLeaf(room, s, Primitive, s.pos, r.at, r.at)
  }

  lemma StepMoves(js: string, room: Room, s: State)
    requires !AtEnd(js, s.pos) && SuperOk(s)
    ensures var r := Step(js, room, s); r.Next? ==> s.pos < r.s.pos <= |js| && SuperOk(r.s)
  {
  }

  // ----- A run -----

  /** Runs to the end of the text or to the first failure; also says where the machine stands then. */
  function Run(js: string, room: Room, s: State): (RunResult, State)
    requires SuperOk(s)
    decreases |js| - s.pos
  {
    if AtEnd(js, s.pos) then
      (if room.Capacity? && LastOpen(s.tokens, |s.tokens|) != -1 then Failed(Partial) else Done(s.count), s)
    else
      StepMoves(js, room, s);
      var r := Step(js, room, s);
      if r.Fail? then (Failed(r.error), s) else Run(js, room, r.s)
  }

  // ----- Running out of tokens -----

  /** Room for more tokens changes a step only where the step had no room. */
  lemma StepMoreRoom(js: string, n: nat, m: nat, s: State)
    requires !AtEnd(js, s.pos) && SuperOk(s) && n <= m
    ensures Step(js, Capacity(n), s) == Fail(NoMemory) || Step(js, Capacity(m), s) == Step(js, Capacity(n), s)
  {
  }

  /**
    Resuming after the tokens ran out, with a larger array that keeps those already filled,
    ends as a run with the larger array from the start.
   */
  lemma {:induction false} ResumeEqualsOneShot(js: string, n: nat, m: nat, s: State)
    requires SuperOk(s) && n <= m
    requires Run(js, Capacity(n), s).0 == Failed(NoMemory)
    ensures SuperOk(Run(js, Capacity(n), s).1)
    ensures Run(js, Capacity(m), Run(js, Capacity(n), s).1) == Run(js, Capacity(m), s)
    decreases |js| - s.pos
  {
    StepMoves(js, Capacity(n), s);
    StepMoreRoom(js, n, m, s);
    if Step(js, Capacity(n), s).Next? {
      ResumeEqualsOneShot(js, n, m, Step(js, Capacity(n), s).s);
    }
  }

  /** A run that did not run out of tokens is the same with more room. */
  lemma {:induction false} MoreRoomSame(js: string, n: nat, m: nat, s: State)
    requires SuperOk(s) && n <= m
    requires Run(js, Capacity(n), s).0 != Failed(NoMemory)
    ensures Run(js, Capacity(m), s) == Run(js, Capacity(n), s)
    decreases |js| - s.pos
  {
    if !AtEnd(js, s.pos) {
      StepMoves(js, Capacity(n), s);
      StepMoreRoom(js, n, m, s);
      if Step(js, Capacity(n), s).Next? {
        MoreRoomSame(js, n, m, Step(js, Capacity(n), s).s);
      }
    }
  }

  // ----- Counting without an array -----

  /** A counting run beside a filling run: the same place, the same count. */
  predicate Beside(dry: State, s: State) {
    dry.pos == s.pos && dry.count == s.count && dry.tokens == [] && dry.super == -1
  }

  lemma StepBeside(js: string, n: nat, dry: State, s: State)
    requires !AtEnd(js, s.pos) && SuperOk(s) && Beside(dry, s)
    ensures var r, d := Step(js, Capacity(n), s), Step(js, Dry, dry);
            && (r.Next? ==> d.Next? && Beside(d.s, r.s))
            && (d.Fail? ==> r.Fail?)
            && (d.Next? ==> r.Next? || r.error.NoMemory? || r.error.Invalid?)
  {
  }

  /** When a filling run succeeds, the counting run gives the same number. */
  lemma {:induction false} DryRunCounts(js: string, n: nat, dry: State, s: State)
    requires SuperOk(s) && Beside(dry, s) && Run(js, Capacity(n), s).0.Done?
    ensures Run(js, Dry, dry).0 == Run(js, Capacity(n), s).0
    decreases |js| - s.pos
  {
    if !AtEnd(js, s.pos) {
      StepMoves(js, Capacity(n), s);
      StepBeside(js, n, dry, s);
      DryRunCounts(js, n, Step(js, Dry, dry).s, Step(js, Capacity(n), s).s);
    }
  }

  lemma {:induction false} CountGrows(js: string, dry: State)
    requires SuperOk(dry) && Run(js, Dry, dry).0.Done?
    ensures dry.count <= Run(js, Dry, dry).0.count
    decreases |js| - dry.pos
  {
    if !AtEnd(js, dry.pos) {
      StepMoves(js, Dry, dry);
      CountGrows(js, Step(js, Dry, dry).s);
    }
  }

  /** As many tokens as the counting run found are enough. */
  lemma {:induction false} CountedRoomSuffices(js: string, n: nat, dry: State, s: State)
    requires SuperOk(s) && Beside(dry, s) && |s.tokens| == s.count
    requires Run(js, Dry, dry).0.Done? && Run(js, Dry, dry).0.count <= n
    ensures Run(js, Capacity(n), s).0 != Failed(NoMemory)
    decreases |js| - s.pos
  {
    if !AtEnd(js, s.pos) {
      StepMoves(js, Capacity(n), s);
      StepMoves(js, Dry, dry);
      StepBeside(js, n, dry, s);
      var d := Step(js, Dry, dry);
      CountGrows(js, d.s);
      var r := Step(js, Capacity(n), s);
      if r.Next? {
        CountedRoomSuffices(js, n, d.s, r.s);
      }
    }
  }

  // ----- The shape of the tokens -----

  predicate OpensWith(c: char, kind: Kind) {
    (kind.Object? && c == '{') || (kind.Array? && c == '[')
  }

  predicate ClosesWith(c: char, kind: Kind) {
    (kind.Object? && c == '}') || (kind.Array? && c == ']')
  }

  /** A token that lies before `pos` and starts and ends where its kind says. */
  ghost predicate TokenOk(js: string, t: Token, pos: nat) {
    && 0 <= t.start < pos <= |js|
    && (t.end == -1 || t.start <= t.end <= pos)
    && match t.kind
       case Str => 0 < t.start && t.start <= t.end < pos && js[t.start - 1] == '"' && js[t.end] == '"'
       case Primitive => t.start < t.end
       case _ => OpensWith(js[t.start], t.kind) && (t.end != -1 ==> t.start + 1 < t.end && ClosesWith(js[t.end - 1], t.kind))
  }

  /** A later token starts later; it is inside an earlier one or behind it. */
  ghost predicate Ordered(a: Token, b: Token) {
    && a.start < b.start
    && (a.end != -1 ==> a.end <= b.start || (b.end != -1 && b.end <= a.end))
  }

  ghost predicate Structure(js: string, tokens: seq<Token>, pos: nat) {
    && (forall i :: 0 <= i < |tokens| ==> TokenOk(js, tokens[i], pos))
    && (forall i, j :: 0 <= i < j < |tokens| ==> Ordered(tokens[i], tokens[j]))
  }

  ghost predicate Inv(js: string, s: State) {
    SuperOk(s) && s.count == |s.tokens| && Structure(js, s.tokens, s.pos)
  }

  lemma GrowKeeps(js: string, tokens: seq<Token>, super: int, pos: nat)
    requires -1 <= super < |tokens| && Structure(js, tokens, pos)
    ensures Structure(js, Grow(tokens, super), pos)
  {
    var g := Grow(tokens, super);
    assert forall i :: 0 <= i < |g| ==> g[i].kind == tokens[i].kind && g[i].start == tokens[i].start && g[i].end == tokens[i].end;
  }

  lemma AppendKeeps(js: string, tokens: seq<Token>, pos: nat, t: Token, next: nat)
    requires Structure(js, tokens, pos) && pos <= next && TokenOk(js, t, next) && pos <= t.start
    ensures Structure(js, tokens + [t], next)
  {
    var r := tokens + [t];
    forall i | 0 <= i < |r| ensures TokenOk(js, r[i], next) {
      if i < |tokens| { assert TokenOk(js, tokens[i], pos); }
    }
  }

  lemma MoveKeeps(js: string, tokens: seq<Token>, pos: nat, next: nat)
    requires Structure(js, tokens, pos) && pos <= next <= |js|
    ensures Structure(js, tokens, next)
  {
    forall i | 0 <= i < |tokens| ensures TokenOk(js, tokens[i], next) {
      assert TokenOk(js, tokens[i], pos);
    }
  }

  lemma CloseKeeps(js: string, tokens: seq<Token>, pos: nat, i: nat)
    requires Structure(js, tokens, pos) && pos < |js| && i < |tokens| && i == LastOpen(tokens, |tokens|)
    requires ClosesWith(js[pos], tokens[i].kind)
    ensures Structure(js, tokens[i := tokens[i].(end := pos + 1)], pos + 1)
  {
    var r := tokens[i := tokens[i].(end := pos + 1)];
    forall j | 0 <= j < |r| ensures TokenOk(js, r[j], pos + 1) {
      assert TokenOk(js, tokens[j], pos);
    }
    forall j, k | 0 <= j < k < |r| ensures Ordered(r[j], r[k]) {
      assert Ordered(tokens[j], tokens[k]);
      assert TokenOk(js, tokens[k], pos);
    }
  }

  /** Every step that succeeds keeps the tokens ordered, nested or disjoint, and matched by type. */
  lemma StepKeeps(js: string, n: nat, s: State)
    requires !AtEnd(js, s.pos) && Inv(js, s) && Step(js, Capacity(n), s).Next?
    ensures Inv(js, Step(js, Capacity(n), s).s)
  {
    var c := js[s.pos];
    var r := Step(js, Capacity(n), s).s;
    StepMoves(js, Capacity(n), s);
    if c == '{' || c == '[' {
      GrowKeeps(js, s.tokens, s.super, s.pos);
      AppendKeeps(js, Grow(s.tokens, s.super), s.pos, Token(if c == '{' then Object else Array, s.pos, -1, 0), s.pos + 1);
    } else if c == '}' || c == ']' {
      CloseKeeps(js, s.tokens, s.pos, LastOpen(s.tokens, |s.tokens|));
    } else if |r.tokens| == |s.tokens| {
      MoveKeeps(js, s.tokens, s.pos, r.pos);
    } else {
      LeafKeeps(js, n, s);
    }
  }

  lemma LeafKeeps(js: string, n: nat, s: State)
    requires !AtEnd(js, s.pos) && Inv(js, s) && Step(js, Capacity(n), s).Next?
    requires js[s.pos] != '{' && js[s.pos] != '[' && |Step(js, Capacity(n), s).s.tokens| != |s.tokens|
    ensures Inv(js, Step(js, Capacity(n), s).s)
  {
    var r := Step(js, Capacity(n), s).s;
    var str := js[s.pos] == '"';
    var end := if str then ScanString(js, s.pos + 1).at else ScanPrimitive(js, s.pos).at;
    var t := Token(if str then Str else Primitive, if str then s.pos + 1 else s.pos, end, 0);
    assert r.pos == if str then end + 1 else end;
    AppendKeeps(js, s.tokens, s.pos, t, r.pos);
    GrowKeeps(js, s.tokens + [t], s.super, r.pos);
  }

  lemma {:induction false} RunKeeps(js: string, n: nat, s: State)
    requires Inv(js, s)
    ensures Inv(js, Run(js, Capacity(n), s).1)
    ensures Run(js, Capacity(n), s).0.Done? ==>
      var r := Run(js, Capacity(n), s); r.0.count == |r.1.tokens| && forall t :: t in r.1.tokens ==> !IsOpen(t)
    decreases |js| - s.pos
  {
    if !AtEnd(js, s.pos) && Step(js, Capacity(n), s).Next? {
      StepMoves(js, Capacity(n), s);
      StepKeeps(js, n, s);
      RunKeeps(js, n, Step(js, Capacity(n), s).s);
    }
  }

  /**
    A successful run returns the number of tokens.  They start in increasing order, are all
    closed and in bounds, pairwise nested or disjoint, and their brackets match by type.
   */
  lemma SuccessMeans(js: string, n: nat)
    requires Run(js, Capacity(n), Init()).0.Done?
    ensures var (r, s) := Run(js, Capacity(n), Init());
            && r.count == |s.tokens| <= n
            && (forall i :: 0 <= i < |s.tokens| ==> TokenOk(js, s.tokens[i], s.pos) && s.tokens[i].end != -1)
            && (forall i, j :: 0 <= i < j < |s.tokens| ==>
                  s.tokens[i].start < s.tokens[j].start
                  && (s.tokens[i].end <= s.tokens[j].start || s.tokens[j].end <= s.tokens[i].end))
  {
    RunKeeps(js, n, Init());
    RunFits(js, n, Init());
    var tokens := Run(js, Capacity(n), Init()).1.tokens;
    forall i | 0 <= i < |tokens| ensures tokens[i].end != -1 {
      assert tokens[i] in tokens && !IsOpen(tokens[i]);
      assert TokenOk(js, tokens[i], Run(js, Capacity(n), Init()).1.pos);
    }
    forall i, j | 0 <= i < j < |tokens| ensures Ordered(tokens[i], tokens[j]) { }
  }

  lemma {:induction false} RunFits(js: string, n: nat, s: State)
    requires SuperOk(s) && |s.tokens| <= n
    ensures |Run(js, Capacity(n), s).1.tokens| <= n
    decreases |js| - s.pos
  {
    if !AtEnd(js, s.pos) && Step(js, Capacity(n), s).Next? {
      StepMoves(js, Capacity(n), s);
      RunFits(js, n, Step(js, Capacity(n), s).s);
    }
  }
}
