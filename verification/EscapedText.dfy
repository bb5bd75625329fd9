/** What the printer makes of attribute values and character data, and that the parser's
    conversions take it back. */
module EscapedText {
  import opened Escapes

  /** Where the text stands, which quote an attribute value is put in, and whether control
      characters are dropped. */
  datatype Style = Style(attribute: bool, singleQuote: bool, skipControl: bool)

  /** The bytes that do not stand for themselves: in attribute values, control characters,
      markup and quotes; in character data, control characters other than white space, and
      markup. */
  predicate IsSpecial(c: Byte, attribute: bool) {
    || c == AMPERSAND || c == LESS
    || if attribute then c < 32 || c == QUOTE || c == APOSTROPHE
       else c == GREATER || (c < 32 && c != TAB && c != NEWLINE && c != RETURN)
  }

  function EscapeByte(c: Byte, style: Style): (s: seq<Byte>)
    ensures |s| <= 6 && (s == [] ==> style.skipControl)
  {
    if !IsSpecial(c, style.attribute) then [c]
    else if c == AMPERSAND then [AMPERSAND, 97, 109, 112, SEMICOLON]
    else if c == LESS then [AMPERSAND, 108, 116, SEMICOLON]
    else if c == GREATER then [AMPERSAND, 103, 116, SEMICOLON]
    else if c == QUOTE then if style.singleQuote then [c] else [AMPERSAND, 113, 117, 111, 116, SEMICOLON]
    else if c == APOSTROPHE then if style.singleQuote then [AMPERSAND, 97, 112, 111, 115, SEMICOLON] else [c]
    else if style.skipControl then []
    else [AMPERSAND, HASH, 48 + c / 10, 48 + c % 10, SEMICOLON]
  }

  function Escape(s: seq<Byte>, style: Style): seq<Byte> {
    if s == [] then [] else EscapeByte(s[0], style) + Escape(s[1..], style)
  }

  lemma {:induction false} EscapeSplit(s: seq<Byte>, i: nat, style: Style)
    requires i <= |s|
    ensures Escape(s, style) == Escape(s[..i], style) + Escape(s[i..], style)
  {
    if i > 0 {
      EscapeSplit(s[1..], i - 1, style);
      assert s[1..][..i - 1] == s[..i][1..] && s[1..][i - 1..] == s[i..];
    } else {
      assert s[..i] == [] && s[i..] == s;
    }
  }

  lemma {:induction false} EscapePlain(s: seq<Byte>, style: Style)
    requires forall k :: 0 <= k < |s| ==> !IsSpecial(s[k], style.attribute)
    ensures Escape(s, style) == s
  {
    if s != [] {
      EscapePlain(s[1..], style);
    }
  }

  /** `text_output_escaped`: runs of usual bytes are written as they are, and the special
      byte that ends each is written by the case it falls into. */
  method TextOutputEscaped(s: seq<Byte>, style: Style) returns (out: seq<Byte>)
    requires 0 !in s
    ensures out == Escape(s, style)
  {
    out := [];
    var i := 0;
    assert s[..0] == [];
    while i < |s|
      invariant i <= |s| && out == Escape(s[..i], style)
    {
      var prev := i;
      while i < |s| && !IsSpecial(s[i], style.attribute)
        invariant prev <= i <= |s| && forall k :: prev <= k < i ==> !IsSpecial(s[k], style.attribute)
      {
        i := i + 1;
      }
      out := out + s[prev..i];
      EscapePlain(s[prev..i], style);
      EscapeExtend(s, prev, i, style);
      if i < |s| {
        var written := EscapeSpecial(s[i], style);
        out := out + written;
        EscapeExtend(s, i, i + 1, style);
        assert s[i..i + 1] == [s[i]] && s[i..i + 1][1..] == [];
        i := i + 1;
      }
    }
    assert s[..i] == s;
  }

  /** The cases of the switch. */
  method EscapeSpecial(c: Byte, style: Style) returns (out: seq<Byte>)
    requires IsSpecial(c, style.attribute) && c != 0
    ensures out == EscapeByte(c, style)
  {
    if c == AMPERSAND {
      out := [AMPERSAND, 97, 109, 112, SEMICOLON];
    } else if c == LESS {
      out := [AMPERSAND, 108, 116, SEMICOLON];
    } else if c == GREATER {
      out := [AMPERSAND, 103, 116, SEMICOLON];
    } else if c == QUOTE {
      out := if style.singleQuote then [QUOTE] else [AMPERSAND, 113, 117, 111, 116, SEMICOLON];
    } else if c == APOSTROPHE {
      out := if style.singleQuote then [AMPERSAND, 97, 112, 111, 115, SEMICOLON] else [APOSTROPHE];
    } else {
      assert c < 32;
      out := if style.skipControl then [] else [AMPERSAND, HASH, 48 + c / 10, 48 + c % 10, SEMICOLON];
    }
  }

  lemma EscapeExtend(s: seq<Byte>, i: nat, j: nat, style: Style)
    requires i <= j <= |s|
    ensures Escape(s[..j], style) == Escape(s[..i], style) + Escape(s[i..j], style)
  {
    EscapeSplit(s[..j], i, style);
    assert s[..j][..i] == s[..i] && s[..j][i..] == s[i..j];
  }

  // ---------- back again ----------

  /** Line ends as section 2.11 of XML 1.0 has them after parsing. */
  function Normalised(s: seq<Byte>): seq<Byte> {
    if s == [] then []
    else if s[0] == RETURN then
      [NEWLINE] + if |s| > 1 && s[1] == NEWLINE then Normalised(s[2..]) else Normalised(s[1..])
    else [s[0]] + Normalised(s[1..])
  }

  /** Normalising changes exactly the texts with a carriage return in them. */
  lemma {:induction false} NormalisedSame(s: seq<Byte>)
    ensures RETURN !in Normalised(s)
    ensures Normalised(s) == s <==> RETURN !in s
    ensures |Normalised(s)| <= |s|
  {
    if s != [] {
      if s[0] == RETURN && |s| > 1 && s[1] == NEWLINE {
        NormalisedSame(s[2..]);
      } else {
        NormalisedSame(s[1..]);
        assert s == [s[0]] + s[1..];
      }
    }
  }

  /** A control character goes out as two decimal digits and comes back as itself. */
  lemma NumberBack(t: seq<Byte>, i: nat, c: Byte)
    requires i + 5 <= |t| && c < 32
    requires t[i..i + 5] == [AMPERSAND, HASH, 48 + c / 10, 48 + c % 10, SEMICOLON]
    requires c != 0
    ensures ReferenceAt(t, i) == Refers([c], i + 5)
  {
    var e := t[i..i + 5];
    assert t[i + 1] == e[1] && t[i + 2] == e[2] && t[i + 3] == e[3] && t[i + 4] == e[4];
    assert DigitsEnd(t, i + 4, 10) == i + 4;
    assert DigitsEnd(t, i + 3, 10) == i + 4;
    assert DigitsEnd(t, i + 2, 10) == i + 4;
    assert Number(t, i + 2, i + 2, 10) == 0;
    assert Number(t, i + 2, i + 3, 10) == c / 10;
    assert Number(t, i + 2, i + 4, 10) == c;
  }

  /** Every escape is read back as the byte it was written for. */
  lemma EscapeBack(t: seq<Byte>, i: nat, c: Byte, style: Style)
    requires c != 0 && !style.skipControl
    requires var e := EscapeByte(c, style); i + |e| <= |t| && t[i..i + |e|] == e
    ensures EscapeByte(c, style) != [c] ==>
      t[i] == AMPERSAND && ReferenceAt(t, i) == Refers([c], i + |EscapeByte(c, style)|)
    ensures EscapeByte(c, style) == [c] ==> t[i] == c
  {
    var e := EscapeByte(c, style);
    assert forall k {:trigger e[k]} :: 0 <= k < |e| ==> t[i + k] == t[i..i + |e|][k] == e[k];
    assert e[0] == t[i];
    if e != [c] {
      assert t[i + 1] == e[1] && t[i + 2] == e[2] && t[i + 3] == e[3];
      if c < 32 {
        NumberBack(t, i, c);
      } else if c == AMPERSAND {
        assert t[i + 4] == e[4];
      } else if c == QUOTE || c == APOSTROPHE {
        assert t[i + 4] == e[4] && t[i + 5] == e[5];
      }
    }
  }

  /** `t` has the escaped form of `s` at `i`, and behind it the byte that ends the text. */
  ghost predicate Printed(t: seq<Byte>, i: nat, s: seq<Byte>, style: Style, stop: Byte) {
    var e := Escape(s, style);
    i + |e| < |t| && t[i..i + |e|] == e && t[i + |e|] == stop
  }

  lemma Halves(t: seq<Byte>, i: nat, e: seq<Byte>, rest: seq<Byte>)
    requires i + |e + rest| <= |t| && t[i..i + |e + rest|] == e + rest
    ensures t[i..i + |e|] == e && t[i + |e|..i + |e| + |rest|] == rest
  {
    var w := t[i..i + |e| + |rest|];
    assert w[..|e|] == e && w[|e|..] == rest;
    assert t[i..i + |e|] == w[..|e|] && t[i + |e|..i + |e| + |rest|] == w[|e|..];
  }

  lemma PrintedStep(t: seq<Byte>, i: nat, s: seq<Byte>, style: Style, stop: Byte)
    requires Printed(t, i, s, style, stop) && s != []
    ensures var e := EscapeByte(s[0], style);
      i + |e| <= |t| && t[i..i + |e|] == e && Printed(t, i + |e|, s[1..], style, stop)
  {
    var e, rest := EscapeByte(s[0], style), Escape(s[1..], style);
    Halves(t, i, e, rest);
  }

  predicate AttributeStyle(style: Style, m: Mode) {
    && style.attribute && !style.skipControl && m.escapes
    && m.stop == if style.singleQuote then APOSTROPHE else QUOTE
  }

  lemma AttributePiece(t: seq<Byte>, i: nat, c: Byte, style: Style, m: Mode)
    requires c != 0 && AttributeStyle(style, m)
    requires var e := EscapeByte(c, style); i + |e| <= |t| && t[i..i + |e|] == e
    ensures i < |t| && !Ends(t[i], m) && Piece(t, i, m) == ([c], i + |EscapeByte(c, style)|)
  {
    EscapeBack(t, i, c, style);
  }

  /** An attribute value that is printed and parsed comes back as it was, whatever bytes
      other than NUL it is made of, whichever quote it is put in, and whatever the parser
      does to line ends and white space. */
  lemma {:induction false} AttributeRoundTrip(t: seq<Byte>, i: nat, s: seq<Byte>, style: Style, m: Mode)
    requires 0 !in s && AttributeStyle(style, m) && Printed(t, i, s, style, m.stop)
    ensures Convert(t, i, m) == s && StopAt(t, i, m) == i + |Escape(s, style)|
    decreases |s|
  {
    if s != [] {
      PrintedStep(t, i, s, style, m.stop);
      AttributePiece(t, i, s[0], style, m);
      PieceStop(t, i, m);
      AttributeRoundTrip(t, i + |EscapeByte(s[0], style)|, s[1..], style, m);
      assert s == [s[0]] + s[1..];
    }
  }

  predicate TextStyle(style: Style, m: Mode) {
    !style.attribute && !style.skipControl && m.escapes && m.stop == LESS && m.breaks != ToSpace
  }

  lemma TextPiece(t: seq<Byte>, i: nat, c: Byte, style: Style, m: Mode)
    requires c != 0 && TextStyle(style, m)
    requires var e := EscapeByte(c, style); i + |e| <= |t| && t[i..i + |e|] == e
    ensures i < |t| && !Ends(t[i], m) && (t[i] == NEWLINE <==> c == NEWLINE) && (c == RETURN ==> t[i] == RETURN)
    ensures c != RETURN || m.breaks == Keep ==> Piece(t, i, m) == ([c], i + |EscapeByte(c, style)|)
  {
    EscapeBack(t, i, c, style);
  }

  /** The line end at a carriage return in printed text, when line ends are converted. */
  lemma TextReturn(t: seq<Byte>, i: nat, s: seq<Byte>, style: Style, m: Mode)
    requires 0 !in s && TextStyle(style, m) && m.breaks == ToNewline && Printed(t, i, s, style, LESS)
    requires s != [] && s[0] == RETURN
    ensures i < |t| && !Ends(t[i], m)
    ensures Piece(t, i, m) == ([NEWLINE], if |s| > 1 && s[1] == NEWLINE then i + 2 else i + 1)
    ensures |s| > 1 && s[1] == NEWLINE ==> Printed(t, i + 2, s[2..], style, LESS)
    ensures Printed(t, i + 1, s[1..], style, LESS)
  {
    PrintedStep(t, i, s, style, LESS);
    TextPiece(t, i, RETURN, style, m);
    if |s| > 1 {
      PrintedStep(t, i + 1, s[1..], style, LESS);
      TextPiece(t, i + 1, s[1], style, m);
    }
  }

  /** What the parser makes of character data. */
  function Back(s: seq<Byte>, m: Mode): seq<Byte> {
    if m.breaks == ToNewline then Normalised(s) else s
  }

  /** How many bytes the first of the parsed text comes from. */
  function Width(s: seq<Byte>, m: Mode): (n: nat)
    requires s != []
    ensures 1 <= n <= |s|
  {
    if m.breaks == ToNewline && s[0] == RETURN && |s| > 1 && s[1] == NEWLINE then 2 else 1
  }

  lemma BackStep(s: seq<Byte>, m: Mode)
    requires s != []
    ensures Back(s, m) == [if m.breaks == ToNewline && s[0] == RETURN then NEWLINE else s[0]] + Back(s[Width(s, m)..], m)
  {
    assert s == [s[0]] + s[1..];
  }

  lemma TextStep(t: seq<Byte>, i: nat, s: seq<Byte>, style: Style, m: Mode, next: nat)
    requires 0 !in s && TextStyle(style, m) && Printed(t, i, s, style, LESS) && s != []
    requires next == i + |Escape(s[..Width(s, m)], style)|
    ensures i < |t| && !Ends(t[i], m)
    ensures Piece(t, i, m) == ([if m.breaks == ToNewline && s[0] == RETURN then NEWLINE else s[0]], next)
    ensures Printed(t, next, s[Width(s, m)..], style, LESS)
    ensures |Escape(s, style)| == next - i + |Escape(s[Width(s, m)..], style)|
  {
    EscapeSplit(s, Width(s, m), style);
    OneEscape(s, style);
    if m.breaks == ToNewline && s[0] == RETURN {
      TextReturn(t, i, s, style, m);
      assert EscapeByte(RETURN, style) == [RETURN] && EscapeByte(NEWLINE, style) == [NEWLINE];
    } else {
      PrintedStep(t, i, s, style, LESS);
      TextPiece(t, i, s[0], style, m);
      assert Width(s, m) == 1;
    }
  }

  lemma OneEscape(s: seq<Byte>, style: Style)
    requires s != []
    ensures Escape(s[..1], style) == EscapeByte(s[0], style)
    ensures |s| > 1 ==> Escape(s[..2], style) == EscapeByte(s[0], style) + EscapeByte(s[1], style)
  {
    assert s[..1] == [s[0]] && s[..1][1..] == [];
    if |s| > 1 {
      assert s[..2] == [s[0], s[1]] && s[..2][1..] == [s[1]] && s[..2][1..][1..] == [];
    }
  }

  /** Character data comes back with its line ends normalised, if the parser is asked to do
      that, and as it was otherwise. */
  lemma {:induction false} TextRoundTrip(t: seq<Byte>, i: nat, s: seq<Byte>, style: Style, m: Mode)
    requires 0 !in s && TextStyle(style, m) && Printed(t, i, s, style, LESS)
    ensures Convert(t, i, m) == Back(s, m)
    ensures StopAt(t, i, m) == i + |Escape(s, style)|
    decreases |s|
  {
    if s != [] {
      var next := i + |Escape(s[..Width(s, m)], style)|;
      TextStep(t, i, s, style, m, next);
      PieceStop(t, i, m);
      TextRoundTrip(t, next, s[Width(s, m)..], style, m);
      BackStep(s, m);
    }
  }

  /** Exactly the character data without carriage returns survives the default parser. */
  lemma TextSurvives(t: seq<Byte>, i: nat, s: seq<Byte>, style: Style, m: Mode)
    requires 0 !in s && TextStyle(style, m) && Printed(t, i, s, style, LESS) && m.breaks == ToNewline
    ensures Convert(t, i, m) == s <==> RETURN !in s
  {
    TextRoundTrip(t, i, s, style, m);
    NormalisedSame(s);
  }
}
