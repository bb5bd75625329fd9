/**
  The tokenizer itself: a parser object whose position, token counter and current parent
  are updated in place while it fills the caller's token array, or only counts.
 */
module JsmnParser {
  import opened Jsmn

  datatype Status = Fine | Problem(error: Error)

  ghost function RoomOf(tokens: array?<Token>): Room {
    if tokens == null then Dry else Capacity(tokens.Length)
  }

  /** What scanning reports: its own error, no token left, or success. */
  ghost function ScanStatus(scan: Scan, tokens: array?<Token>, toknext: nat): Status {
    if scan.BadScan? then Problem(scan.error)
    else if tokens != null && toknext >= tokens.Length then Problem(NoMemory)
    else Fine
  }

  class Parser {
    var pos: nat
    var toknext: nat
    var toksuper: int

    constructor ()
      ensures pos == 0 && toknext == 0 && toksuper == -1
    {
      pos, toknext, toksuper := 0, 0, -1;
    }

    /** A parser that counts is fresh; a parser that fills has its tokens in the array. */
    ghost predicate Valid(tokens: array?<Token>)
      reads this
    {
      && -1 <= toksuper < toknext
      && (if tokens == null then toknext == 0 else toknext <= tokens.Length)
    }

    ghost function Filled(tokens: array?<Token>): seq<Token>
      reads this, tokens
      requires Valid(tokens)
    {
      if tokens == null then [] else tokens[..toknext]
    }

    ghost function StateOf(tokens: array?<Token>, count: nat): State
      reads this, tokens
      requires Valid(tokens)
    {
      State(pos, toksuper, Filled(tokens), count)
    }

    /** Takes the next free token of the array, if there is one. */
    method AllocToken(tokens: array<Token>, token: Token) returns (ok: bool)
      requires Valid(tokens)
      modifies this`toknext, tokens
      ensures Valid(tokens) && ok == (old(toknext) < tokens.Length)
      ensures Filled(tokens) == old(Filled(tokens)) + if ok then [token] else []
    {
      if toknext >= tokens.Length { return false; }
      ghost var before := tokens[..toknext];
      tokens[toknext] := token;
      toknext := toknext + 1;
      assert tokens[..toknext] == before + [token];
      ok := true;
    }

    /** Consumes a primitive up to, not including, the character that ends it; the caller's loop steps on from there. */
    method ParsePrimitive(js: string, tokens: array?<Token>) returns (r: Status)
      requires Valid(tokens) && pos < |js| && !AtEnd(js, pos) && !Delimiter(js[pos])
      modifies this`pos, this`toknext, tokens
      ensures Valid(tokens)
      ensures r == ScanStatus(ScanPrimitive(js, old(pos)), tokens, old(toknext))
      ensures r.Fine? ==> var scan := ScanPrimitive(js, old(pos)); (pos + 1 == scan.at && Filled(tokens) == old(Filled(tokens)) + if tokens == null then [] else [Token(Primitive, old(pos), scan.at, 0)])
      ensures r.Problem? ==> pos == old(pos) && Filled(tokens) == old(Filled(tokens))
    {
      var start := pos;
      while pos < |js| && js[pos] != NUL && !Delimiter(js[pos])
        invariant start <= pos <= |js|
        invariant ScanPrimitive(js, start) == ScanPrimitive(js, pos)
        invariant Valid(tokens) && Filled(tokens) == old(Filled(tokens)) && toknext == old(toknext)
      {
        if js[pos] < 32 as char || js[pos] >= 127 as char {
          pos := start;
          return Problem(Invalid);
        }
        pos := pos + 1;
      }
      if tokens == null {
        pos := pos - 1;
        return Fine;
      }
      var ok := AllocToken(tokens, Token(Primitive, start, pos, 0));
      if !ok {
        pos := start;
        return Problem(NoMemory);
      }
      pos := pos - 1;
      r := Fine;
    }

    /** Steps over the digits of a \u escape; false when another character interrupts them. */
    method SkipHex(js: string) returns (ok: bool)
      requires pos <= |js|
      modifies this`pos
      ensures var h := ScanHex(js, old(pos), 4); if h.Found? then ok && pos == h.at else !ok
      ensures old(pos) <= pos <= |js|
    {
      var i := 0;
      while i < 4 && pos < |js| && js[pos] != NUL
        invariant 0 <= i <= 4 && old(pos) <= pos <= |js|
        invariant ScanHex(js, old(pos), 4) == ScanHex(js, pos, 4 - i)
      {
        if !IsHex(js[pos]) { return false; }
        pos := pos + 1;
        i := i + 1;
      }
      ok := true;
    }

    /** Consumes a string up to its closing quote. */
    method ParseString(js: string, tokens: array?<Token>) returns (r: Status)
      requires Valid(tokens) && pos < |js| && js[pos] == '\"'
      modifies this`pos, this`toknext, tokens
      ensures Valid(tokens)
      ensures r == ScanStatus(ScanString(js, old(pos) + 1), tokens, old(toknext))
      ensures r.Fine? ==> var scan := ScanString(js, old(pos) + 1); (pos == scan.at && Filled(tokens) == old(Filled(tokens)) + if tokens == null then [] else [Token(Str, old(pos) + 1, scan.at, 0)])
      ensures r.Problem? ==> pos == old(pos) && Filled(tokens) == old(Filled(tokens))
    {
      var start := pos;
      pos := pos + 1;
      while pos < |js| && js[pos] != NUL
        invariant start < pos <= |js|
        invariant ScanString(js, start + 1) == ScanString(js, pos)
        invariant Valid(tokens) && Filled(tokens) == old(Filled(tokens)) && toknext == old(toknext)
        decreases |js| - pos
      {
        var c := js[pos];
        if c == '\"' {
          if tokens == null { return Fine; }
          var ok := AllocToken(tokens, Token(Str, start + 1, pos, 0));
          if !ok {
            pos := start;
            return Problem(NoMemory);
          }
          return Fine;
        }
        if c == '\\' && pos + 1 < |js| {
          pos := pos + 1;
          if js[pos] == 'u' {
            pos := pos + 1;
            var ok := SkipHex(js);
            if !ok {
              pos := start;
              return Problem(Invalid);
            }
            pos := pos - 1;
          } else if !SimpleEscape(js[pos]) {
            pos := start;
            return Problem(Invalid);
          }
        }
        pos := pos + 1;
      }
      pos := start;
      r := Problem(Partial);
    }

    /** The last open token below index `n`, looked for from the end. */
    method FindOpen(tokens: array<Token>, n: nat) returns (i: int)
      requires n <= toknext <= tokens.Length
      ensures i == LastOpen(tokens[..toknext], n)
    {
      i := n - 1;
      while i >= 0 && !IsOpen(tokens[i])
        invariant -1 <= i < n
        invariant LastOpen(tokens[..toknext], n) == LastOpen(tokens[..toknext], i + 1)
      {
        i := i - 1;
      }
    }

    method GrowSuper(tokens: array<Token>)
      requires Valid(tokens)
      modifies tokens
      ensures Filled(tokens) == Grow(old(Filled(tokens)), toksuper)
    {
      if toksuper != -1 {
        tokens[toksuper] := tokens[toksuper].(size := tokens[toksuper].size + 1);
      }
    }

    /** `{` or `[`: the new token becomes the parent of what follows. */
    method OpenToken(tokens: array<Token>, kind: Kind, ghost count: nat) returns (r: Status)
      requires Valid(tokens)
      modifies this`toknext, this`toksuper, tokens
      ensures Valid(tokens)
      ensures match OpenBracket(RoomOf(tokens), old(StateOf(tokens, count)), kind)
        case Fail(e) => r == Problem(e) && StateOf(tokens, count) == old(StateOf(tokens, count))
        case Next(s) => r == Fine && StateOf(tokens, count + 1) == s.(pos := pos)
    {
      ghost var before := Filled(tokens);
      if toknext >= tokens.Length { return Problem(NoMemory); }
      GrowSuper(tokens);
      var ok := AllocToken(tokens, Token(kind, pos, -1, 0));
      toksuper := toknext - 1;
      r := Fine;
    }

    /** `}` or `]`: closes the last open token, whose parent becomes the current one. */
    method CloseToken(tokens: array<Token>, kind: Kind, ghost count: nat) returns (r: Status)
      requires Valid(tokens)
      modifies this`toksuper, tokens
      ensures Valid(tokens)
      ensures match CloseBracket(RoomOf(tokens), old(StateOf(tokens, count)), kind)
        case Fail(e) => r == Problem(e) && StateOf(tokens, count) == old(StateOf(tokens, count))
        case Next(s) => r == Fine && StateOf(tokens, count) == s.(pos := pos)
    {
      ghost var before := tokens[..toknext];
      var i := FindOpen(tokens, toknext);
      if i == -1 || tokens[i].kind != kind { return Problem(Invalid); }
      tokens[i] := tokens[i].(end := pos + 1);
      assert tokens[..toknext] == before[i := before[i].(end := pos + 1)];
      toksuper := FindOpen(tokens, i + 1);
      r := Fine;
    }

    /** `,` after a value that was the parent, as a key is: the enclosing container is the parent again. */
    method LeaveKey(tokens: array<Token>, ghost count: nat)
      requires Valid(tokens)
      modifies this`toksuper
      ensures Valid(tokens)
      ensures StateOf(tokens, count) == Comma(RoomOf(tokens), old(StateOf(tokens, count))).(pos := pos)
    {
      if toksuper != -1 && !tokens[toksuper].kind.Array? && !tokens[toksuper].kind.Object? {
        var i := FindOpen(tokens, toknext);
        if i != -1 { toksuper := i; }
      }
    }

    /**
      Parses on from where the parser stands.  Result, tokens and parser end up as the state
      machine says, whether it succeeds or fails.
     */
    method Parse(js: string, tokens: array?<Token>) returns (r: RunResult)
      requires Valid(tokens)
      modifies this, tokens
      ensures Valid(tokens)
      ensures var (res, s) := Run(js, RoomOf(tokens), old(StateOf(tokens, toknext)));
        && r == res
        && s.pos == pos && s.tokens == Filled(tokens) && (tokens != null ==> s.super == toksuper)
    {
      var count := toknext;
      ghost var room := RoomOf(tokens);
      ghost var s0 := StateOf(tokens, toknext);
      while pos < |js| && js[pos] != NUL
        invariant Valid(tokens) && SuperOk(StateOf(tokens, count))
        invariant Run(js, room, s0) == Run(js, room, StateOf(tokens, count))
        decreases |js| - pos
      {
        ghost var s := StateOf(tokens, count);
        StepMoves(js, room, s);
        var status;
        status, count := ParseOne(js, tokens, count);
        if status.Problem? { return Failed(status.error); }
        pos := pos + 1;
      }
      if tokens != null {
        var i := FindOpen(tokens, toknext);
        if i != -1 { return Failed(Partial); }
      }
      return Done(count);
    }

    /** What one character starts; the loop moves on by one afterwards. */
    method ParseOne(js: string, tokens: array?<Token>, count: nat) returns (status: Status, count': nat)
      requires Valid(tokens) && !AtEnd(js, pos)
      modifies this, tokens
      ensures Valid(tokens)
      ensures match Step(js, RoomOf(tokens), old(StateOf(tokens, count)))
        case Fail(e) => status == Problem(e) && StateOf(tokens, count) == old(StateOf(tokens, count))
        case Next(s) => status == Fine && StateOf(tokens, count') == s.(pos := pos) && pos + 1 == s.pos
    {
      var c := js[pos];
      status, count' := Fine, count;
      if c == '{' || c == '[' {
        if tokens != null { status := OpenToken(tokens, if c == '{' then Object else Array, count); }
        count' := count + 1;
      } else if c == '}' || c == ']' {
        if tokens != null { status := CloseToken(tokens, if c == '}' then Object else Array, count); }
      } else if c == '\t' || c == '\r' || c == '\n' || c == ' ' {
      } else if c == ':' {
        toksuper := toknext - 1;
      } else if c == ',' {
        if tokens != null { LeaveKey(tokens, count); }
      } else {
        status := ParseLeaf(js, tokens, count);
        count' := count + 1;
      }
    }

    /** A string or a primitive, counted as a child of the current parent; stops on its last character. */
    method ParseLeaf(js: string, tokens: array?<Token>, ghost count: nat) returns (r: Status)
      requires Valid(tokens) && !AtEnd(js, pos) && LeafStart(js[pos])
      modifies this`pos, this`toknext, tokens
      ensures Valid(tokens)
      ensures match Step(js, RoomOf(tokens), old(StateOf(tokens, count)))
        case Fail(e) => r == Problem(e) && StateOf(tokens, count) == old(StateOf(tokens, count))
        case Next(s) => r == Fine && StateOf(tokens, count + 1) == s.(pos := pos) && pos + 1 == s.pos
    {
      if js[pos] == '\"' {
        r := ParseString(js, tokens);
      } else {
        r := ParsePrimitive(js, tokens);
      }
      if r.Fine? && tokens != null { GrowSuper(tokens); }
    }
  }

  /** Characters that begin a string or a primitive. */
  predicate LeafStart(c: char) {
    c != '{' && c != '[' && c != '}' && c != ']' && c != '\t' && c != '\r' && c != '\n' && c != ' ' && c != ':' && c != ','
  }
}
