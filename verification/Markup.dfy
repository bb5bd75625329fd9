/** Documents as values, and how they are printed: the recursive reading of what the
    printer's walk over the tree writes. */
module Markup {
  import opened Escapes
  import opened EscapedText

  datatype Attr = Attr(name: seq<Byte>, value: seq<Byte>)

  datatype Optional = Missing | Given(value: seq<Byte>)

  /** Nodes that never have children, other than character data. */
  datatype Simple =
    | Cdata(value: seq<Byte>)
    | Comment(value: seq<Byte>)
    | Instruction(target: seq<Byte>, data: Optional)
    | Declaration(target: seq<Byte>, attributes: seq<Attr>)
    | Doctype(data: Optional)

  datatype Item =
    | Text(value: seq<Byte>)
    | Leaf(what: Simple)
    | Element(name: seq<Byte>, attributes: seq<Attr>, children: seq<Item>)
    | Document(children: seq<Item>)

  const SLASH: Byte := 47
  const EQUALS: Byte := 61
  const QUESTION: Byte := 63
  const EXCLAMATION: Byte := 33
  const MINUS: Byte := 45
  const BRACKET: Byte := 93

  /** `<![CDATA[` and `<!DOCTYPE`. */
  const CDATA_START: seq<Byte> := [LESS, EXCLAMATION, 91, 67, 68, 65, 84, 65, 91]
  const CDATA_END: seq<Byte> := [BRACKET, BRACKET, GREATER]
  const DOCTYPE_START: seq<Byte> := [LESS, EXCLAMATION, 68, 79, 67, 84, 89, 80, 69]

  /** The format flags, with the indentation string that they leave in effect. */
  datatype Format = Format(raw: bool, indent: seq<Byte>, indentAttributes: bool, closeEmpty: bool, escapes: bool,
    singleQuote: bool, skipControl: bool)

  /** `indent_flags`: whether a line end and indentation are due before the next tag. */
  datatype Due = Due(newline: bool, indent: bool)

  const BOTH: Due := Due(true, true)
  const NONE: Due := Due(false, false)
  const INDENT: Due := Due(false, true)

  /** What a printing step writes, and what is due after it. */
  datatype Output = Output(bytes: seq<Byte>, due: Due)

  function Indentation(indent: seq<Byte>, depth: nat): seq<Byte> {
    if depth == 0 then [] else Indentation(indent, depth - 1) + indent
  }

  /** What stands before a tag. */
  function Lead(f: Format, depth: nat, due: Due): seq<Byte> {
    (if due.newline && !f.raw then [NEWLINE] else []) + (if due.indent then Indentation(f.indent, depth) else [])
  }

  function Quote(f: Format): Byte {
    if f.singleQuote then APOSTROPHE else QUOTE
  }

  function PrintText(value: seq<Byte>, attribute: bool, f: Format): seq<Byte> {
    if f.escapes then Escape(value, Style(attribute, f.singleQuote, f.skipControl)) else value
  }

  function PrintAttribute(a: Attr, f: Format, depth: nat): seq<Byte> {
    (if f.indentAttributes && !f.raw then [NEWLINE] + Indentation(f.indent, depth + 1) else [SPACE])
    + a.name + [EQUALS, Quote(f)] + PrintText(a.value, true, f) + [Quote(f)]
  }

  function PrintAttributes(s: seq<Attr>, f: Format, depth: nat): seq<Byte> {
    if s == [] then [] else PrintAttribute(s[0], f, depth) + PrintAttributes(s[1..], f, depth)
  }

  function EmptyEnd(name: seq<Byte>, f: Format): seq<Byte> {
    if f.closeEmpty then [GREATER, LESS, SLASH] + name + [GREATER]
    else (if f.raw then [] else [SPACE]) + [SLASH, GREATER]
  }

  /** A start tag, or the whole of an element without children. */
  function StartTag(e: Item, f: Format, depth: nat): seq<Byte>
    requires e.Element?
  {
    [LESS] + e.name + PrintAttributes(e.attributes, f, depth)
    + if e.children == [] then EmptyEnd(e.name, f) else [GREATER]
  }

  function EndTag(e: Item): seq<Byte>
    requires e.Element?
  {
    [LESS, SLASH] + e.name + [GREATER]
  }

  /** A comment may not have two hyphens in a row, or one at its end: a space goes between. */
  function CommentBody(s: seq<Byte>): seq<Byte> {
    if s == [] then []
    else if s[0] == MINUS && (|s| == 1 || s[1] == MINUS) then [MINUS, SPACE] + CommentBody(s[1..])
    else [s[0]] + CommentBody(s[1..])
  }

  /** An instruction ends with the first question mark that a `>` follows: a space goes
      between. */
  function InstructionBody(s: seq<Byte>): seq<Byte> {
    if s == [] then []
    else if |s| >= 2 && s[0] == QUESTION && s[1] == GREATER then [QUESTION, SPACE, GREATER] + InstructionBody(s[2..])
    else [s[0]] + InstructionBody(s[1..])
  }

  predicate EndsCdata(s: seq<Byte>, i: nat) {
    i + 3 <= |s| && s[i] == BRACKET && s[i + 1] == BRACKET && s[i + 2] == GREATER
  }

  /** How much of the text goes into one section: up to the middle of what would end it. */
  function CdataCut(s: seq<Byte>, i: nat): (k: nat)
    requires i <= |s|
    ensures i <= k <= |s| && (k < |s| ==> i + 2 <= k && EndsCdata(s, k - 2))
    ensures forall j :: i <= j && j + 2 < k ==> !EndsCdata(s, j)
    decreases |s| - i
  {
    if i == |s| then i else if EndsCdata(s, i) then i + 2 else CdataCut(s, i + 1)
  }

  /** The sections of a text, each between `start` and `end`. */
  function CdataSections(s: seq<Byte>, start: seq<Byte>, end: seq<Byte>): seq<Byte>
    decreases |s|
  {
    var k := CdataCut(s, 0);
    start + s[..k] + end + if k < |s| then CdataSections(s[k..], start, end) else []
  }

  function PrintSimple(x: Simple, f: Format): seq<Byte> {
    match x
    case Cdata(value) => CdataSections(value, CDATA_START, CDATA_END)
    case Comment(value) => [LESS, EXCLAMATION, MINUS, MINUS] + CommentBody(value) + [MINUS, MINUS, GREATER]
    case Instruction(target, data) =>
      [LESS, QUESTION] + target + (if data.Given? then [SPACE] + InstructionBody(data.value) else []) + [QUESTION, GREATER]
    case Declaration(target, attributes) =>
      [LESS, QUESTION] + target + PrintAttributes(attributes, f.(raw := true), 0) + [QUESTION, GREATER]
    case Doctype(data) => DOCTYPE_START + (if data.Given? then [SPACE] + data.value else []) + [GREATER]
  }

  /** How deep the children of an item are indented. */
  function Below(x: Item, depth: nat): nat {
    if x.Element? then depth + 1 else depth
  }

  function PrintItem(x: Item, f: Format, depth: nat, due: Due): Output
    decreases x
  {
    match x
    case Text(value) => Output(PrintText(value, false, f), NONE)
    case Leaf(what) =>
      if what.Cdata? then Output(PrintSimple(what, f), NONE)
      else Output(Lead(f, depth, due) + PrintSimple(what, f), BOTH)
    case Document(children) => (
      var body := PrintList(children, f, depth, INDENT);
      Output(Lead(f, depth, due) + body.bytes, body.due))
    case Element(_, _, children) => (
      var start := Lead(f, depth, due) + StartTag(x, f, depth);
      if children == [] then Output(start, BOTH)
      else
        var body := PrintList(children, f, depth + 1, BOTH);
        Output(start + body.bytes + Lead(f, depth, body.due) + EndTag(x), BOTH))
  }

  function PrintList(xs: seq<Item>, f: Format, depth: nat, due: Due): Output
    decreases xs
  {
    if xs == [] then Output([], due)
    else
      var first := PrintItem(xs[0], f, depth, due);
      var rest := PrintList(xs[1..], f, depth, first.due);
      Output(first.bytes + rest.bytes, rest.due)
  }

  /** The whole printout. */
  function Print(root: Item, f: Format, depth: nat): seq<Byte> {
    var body := PrintItem(root, f, depth, INDENT);
    body.bytes + if body.due.newline && !f.raw then [NEWLINE] else []
  }
}
