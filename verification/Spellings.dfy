/** The characters behind the names of bytes, and how markup is spelled. */
module Spellings {
  import opened Escapes
  import opened EscapedText
  import opened Markup
  import opened MarkupParser
  import opened References

  /** The named bytes. */
  lemma NamedBytes()
    ensures Bytes("\t\n\r ") == [TAB, NEWLINE, RETURN, SPACE]
    ensures Bytes("\"'#&;<>") == [QUOTE, APOSTROPHE, HASH, AMPERSAND, SEMICOLON, LESS, GREATER]
    ensures Bytes("/=?!-]") == [SLASH, EQUALS, QUESTION, EXCLAMATION, MINUS, BRACKET]
  {
  }

  lemma CdataSpelled()
    ensures CDATA_START == Bytes("<![CDATA[") && CDATA_END == Bytes("]]>") && DOCTYPE_START == Bytes("<!DOCTYPE")
  {
  }

  /** What stands around the contents of nodes without children. */
  lemma LeavesSpelled(f: Format, value: seq<Byte>, target: seq<Byte>)
    ensures PrintSimple(Comment(value), f) == Bytes("<!--") + CommentBody(value) + Bytes("-->")
    ensures PrintSimple(Instruction(target, Given(value)), f)
      == Bytes("<?") + target + Bytes(" ") + InstructionBody(value) + Bytes("?>")
    ensures PrintSimple(Instruction(target, Missing), f) == Bytes("<?") + target + Bytes("?>")
    ensures PrintSimple(Doctype(Given(value)), f) == Bytes("<!DOCTYPE ") + value + Bytes(">")
    ensures PrintSimple(Doctype(Missing), f) == Bytes("<!DOCTYPE>")
  {
    NamedBytes();
    assert Bytes("<!--") == [LESS, EXCLAMATION, MINUS, MINUS] && Bytes("-->") == [MINUS, MINUS, GREATER];
    InstructionSpelled(target, InstructionBody(value));
    assert Bytes("<?") == [LESS, QUESTION] && Bytes("?>") == [QUESTION, GREATER];
    CdataSpelled();
    assert Bytes("<!DOCTYPE ") == Bytes("<!DOCTYPE") + [SPACE] && Bytes("<!DOCTYPE>") == Bytes("<!DOCTYPE") + [GREATER];
    assert Bytes(">") == [GREATER];
  }

  lemma InstructionSpelled(target: seq<Byte>, body: seq<Byte>)
    ensures [LESS, QUESTION] + target + ([SPACE] + body) + [QUESTION, GREATER]
      == Bytes("<?") + target + Bytes(" ") + body + Bytes("?>")
    ensures [LESS, QUESTION] + target + [] + [QUESTION, GREATER] == Bytes("<?") + target + Bytes("?>")
  {
    assert Bytes("<?") == [LESS, QUESTION] && Bytes(" ") == [SPACE] && Bytes("?>") == [QUESTION, GREATER];
  }

  /** The tag of an element without children or attributes. */
  lemma EmptyElementSpelled(name: seq<Byte>, f: Format, depth: nat)
    ensures StartTag(Element(name, [], []), f, depth)
      == Bytes("<") + name + if f.closeEmpty then Bytes("></") + name + Bytes(">") else if f.raw then Bytes("/>") else Bytes(" />")
  {
    assert Bytes("<") == [LESS] && Bytes(">") == [GREATER] && Bytes("></") == [GREATER, LESS, SLASH];
    assert Bytes("/>") == [SLASH, GREATER] && Bytes(" />") == [SPACE, SLASH, GREATER];
  }

  /** An attribute on the line of its tag, or on one of its own. */
  lemma AttributeSpelled(a: Attr, f: Format, depth: nat)
    ensures var lead := if f.indentAttributes && !f.raw then Bytes("\n") + Indentation(f.indent, depth + 1) else Bytes(" ");
      var quote := if f.singleQuote then Bytes("'") else Bytes("\"");
      PrintAttribute(a, f, depth) == lead + a.name + Bytes("=") + quote + PrintText(a.value, true, f) + quote
  {
    NamedBytes();
    assert Bytes("\n") == [NEWLINE] && Bytes(" ") == [SPACE] && Bytes("=") == [EQUALS];
    assert Bytes("'") == [APOSTROPHE] && Bytes("\"") == [QUOTE];
  }

  /** Which bytes begin a name, go on in one, and are white space. */
  lemma NameBytes(c: Byte, ch: char)
    requires c == ch as int
    ensures IsStartSymbol(c) <==> 'A' <= ch <= 'Z' || 'a' <= ch <= 'z' || ch == '_' || ch == ':' || c >= 128
    ensures IsSymbol(c) <==> IsStartSymbol(c) || '0' <= ch <= '9' || ch == '-' || ch == '.'
    ensures IsSpace(c) <==> ch == ' ' || ch == '\t' || ch == '\r' || ch == '\n'
  {
  }

  /** A byte order mark is the character U+FEFF at the start of the text. */
  lemma MarkSkipped(t: seq<Byte>)
    ensures Start(t) == if Utf8(0xFEFF) <= t then 3 else 0
  {
    var mark := Utf8(0xFEFF);
    assert mark == [0xEF, 0xBB, 0xBF];
    if |t| >= 3 {
      assert t[..3] == [t[0], t[1], t[2]];
    }
  }

  // ---------- escaping ----------

  /** The bytes that are never written as they are, and those that always are. */
  lemma EscapedBytes(c: Byte, style: Style)
    ensures EscapeByte('&' as int, style) == Bytes("&amp;") && EscapeByte('<' as int, style) == Bytes("&lt;")
    ensures !style.attribute ==> EscapeByte('>' as int, style) == Bytes("&gt;")
    ensures !style.attribute ==> EscapeByte('\"' as int, style) == Bytes("\"") && EscapeByte('\'' as int, style) == Bytes("'")
    ensures style.attribute ==> EscapeByte('>' as int, style) == Bytes(">")
    ensures style.attribute && style.singleQuote ==>
      EscapeByte('\"' as int, style) == Bytes("\"") && EscapeByte('\'' as int, style) == Bytes("&apos;")
    ensures style.attribute && !style.singleQuote ==>
      EscapeByte('\"' as int, style) == Bytes("&quot;") && EscapeByte('\'' as int, style) == Bytes("'")
    ensures c >= 32 && c !in Bytes("&<>\"'") ==> EscapeByte(c, style) == [c]
    ensures c < 32 && (style.attribute || c !in Bytes("\t\n\r")) ==>
      EscapeByte(c, style) == if style.skipControl then [] else Bytes("&#") + [48 + c / 10, 48 + c % 10] + Bytes(";")
    ensures !style.attribute && c in Bytes("\t\n\r") ==> EscapeByte(c, style) == [c]
  {
    NamedBytes();
    assert Bytes("&<>\"'") == [AMPERSAND, LESS, GREATER, QUOTE, APOSTROPHE] && Bytes("\t\n\r") == [TAB, NEWLINE, RETURN];
  }
}
