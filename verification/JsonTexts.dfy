/**
  JSON values, the texts that write them, and the tokens that are to be found in such a text.
 */
module JsonTexts {
  import opened Jsmn

  /** A value as it is written, with the white space that stands between its parts. */
  datatype Json =
    | Plain(text: string)
    | Quoted(text: string)
    | List(space: string, entries: seq<Entry>)
    | Dict(space: string, entries: seq<Entry>)

  /** A member of an array or object; in an object it has a key, with or without quotes. */
  datatype Entry = Entry(before: string, name: Name, value: Json, after: string)

  datatype Name = Unnamed | Named(quoted: bool, text: string, behind: string, gap: string)

  // ----- Which texts are values -----

  predicate IsWhite(c: char) {
    c == ' ' || c == '\t' || c == '\r' || c == '\n'
  }

  predicate Spaces(w: string) {
    forall k :: 0 <= k < |w| ==> IsWhite(w[k])
  }

  /** A printable character that neither ends a value nor separates two. */
  predicate IsPlain(c: char) {
    '!' <= c <= '~' && c != ',' && c != ':' && c != ']' && c != '}'
  }

  /** Numbers, `true`, `false` and `null`, and whatever else stands there without quotes. */
  predicate PlainText(w: string) {
    w != "" && w[0] != '{' && w[0] != '[' && w[0] != '\"' && forall k :: 0 <= k < |w| ==> IsPlain(w[k])
  }

  predicate Hexadecimal(w: string) {
    forall k :: 0 <= k < |w| ==> w[k] in "0123456789ABCDEFabcdef"
  }

  predicate Unescaped(c: char) {
    c != '\"' && c != '\\' && c != NUL
  }

  /** A character that stands for itself. */
  predicate StringChar(w: string) {
    |w| == 1 && Unescaped(w[0])
  }

  /** A backslash and a letter, or `\u` and four digits. */
  predicate StringEscape(w: string) {
    (|w| == 2 && w[0] == '\\' && w[1] in "\"\\/bfnrt") || (|w| == 6 && w[..2] == "\\u" && Hexadecimal(w[2..]))
  }

  /** What may stand between the quotes of a string: `m` says how long the first part is. */
  ghost predicate StringText(w: string)
    decreases |w|
  {
    w == "" || exists m: nat {:trigger StringFrom(w, m)} :: 0 < m <= |w| && StringFrom(w, m) && StringText(w[m..])
  }

  ghost predicate StringFrom(w: string, m: nat)
    requires m <= |w|
  {
    StringChar(w[..m]) || StringEscape(w[..m])
  }

  ghost predicate Valid(v: Json)
    decreases v
  {
    match v
    case Plain(w) => PlainText(w)
    case Quoted(w) => StringText(w)
    case List(space, entries) => Spaces(space) && ValidEntries(entries, false)
    case Dict(space, entries) => Spaces(space) && ValidEntries(entries, true)
  }

  ghost predicate ValidEntries(es: seq<Entry>, keys: bool)
    decreases es
  {
    es == [] || (ValidEntry(es[0], keys) && ValidEntries(es[1..], keys))
  }

  ghost predicate ValidEntry(e: Entry, keys: bool)
    decreases e
  {
    Spaces(e.before) && Spaces(e.after) && e.name.Named? == keys && ValidName(e.name) && Valid(e.value)
  }

  ghost predicate ValidName(l: Name) {
    l.Named? ==> (if l.quoted then StringText(l.text) else PlainText(l.text)) && Spaces(l.behind) && Spaces(l.gap)
  }

  // ----- Texts -----

  function InQuotes(w: string): string {
    "\"" + (w + "\"")
  }

  function Text(v: Json): (w: string)
    ensures w != "" || v.Plain?
    decreases v
  {
    match v
    case Plain(w) => w
    case Quoted(w) => InQuotes(w)
    case List(space, entries) => "[" + (Inside(space, entries) + "]")
    case Dict(space, entries) => "{" + (Inside(space, entries) + "}")
  }

  function Inside(space: string, es: seq<Entry>): string
    decreases es
  {
    if es == [] then space
    else if |es| == 1 then EntryText(es[0])
    else EntryText(es[0]) + ("," + Inside(space, es[1..]))
  }

  function EntryText(e: Entry): string
    decreases e
  {
    e.before + (NameText(e.name) + (Text(e.value) + e.after))
  }

  function NameText(l: Name): string {
    match l
    case Unnamed => ""
    case Named(_, _, behind, gap) => KeyText(l) + (behind + (":" + gap))
  }

  function KeyText(l: Name): string
    requires l.Named?
  {
    if l.quoted then InQuotes(l.text) else l.text
  }

  // ----- Tokens -----

  /** The tokens of a value whose text starts at `at`: one for every value and every key, in the
      order of their starts. The size of a container is the number of its members, that of a key
      is one. */
  function TokensOf(v: Json, at: nat): (ts: seq<Token>)
    decreases v
  {
    match v
    case Plain(w) => [Token(Primitive, at, at + |w|, 0)]
    case Quoted(w) => [Token(Str, at + 1, at + 1 + |w|, 0)]
    case List(_, entries) => [Token(Array, at, at + |Text(v)|, |entries|)] + EntriesTokens(entries, at + 1)
    case Dict(_, entries) => [Token(Object, at, at + |Text(v)|, |entries|)] + EntriesTokens(entries, at + 1)
  }

  function EntriesTokens(es: seq<Entry>, at: nat): seq<Token>
    decreases es
  {
    if es == [] then [] else EntryTokens(es[0], at) + EntriesTokens(es[1..], at + |EntryText(es[0])| + 1)
  }

  function EntryTokens(e: Entry, at: nat): seq<Token>
    decreases e
  {
    var k := at + |e.before|;
    NameTokens(e.name, k) + TokensOf(e.value, k + |NameText(e.name)|)
  }

  function NameTokens(l: Name, at: nat): seq<Token> {
    match l
    case Unnamed => []
    case Named(_, _, _, _) => [KeyToken(l, at, 1)]
  }

  function KeyToken(l: Name, at: nat, size: nat): Token
    requires l.Named?
  {
    if l.quoted then Token(Str, at + 1, at + 1 + |l.text|, size) else Token(Primitive, at, at + |l.text|, size)
  }

  // ----- Where a text stands -----

  /** The text `w` stands at `i`. */
  ghost predicate Here(js: string, i: nat, w: string) {
    i + |w| <= |js| && forall k {:trigger w[k]} :: 0 <= k < |w| ==> js[i + k] == w[k]
  }

  lemma HereSplit(js: string, i: nat, a: string, b: string)
    requires Here(js, i, a + b)
    ensures Here(js, i, a) && Here(js, i + |a|, b)
  {
    forall k | 0 <= k < |a| ensures js[i + k] == a[k] {
      assert (a + b)[k] == a[k];
    }
    forall k | 0 <= k < |b| ensures js[i + |a| + k] == b[k] {
      assert (a + b)[|a| + k] == b[k];
    }
  }

  lemma HereWhole(js: string, w: string)
    requires js == w
    ensures Here(js, 0, w)
  {
  }

  lemma HereChar(js: string, i: nat, w: string, k: nat)
    requires Here(js, i, w) && k < |w|
    ensures i + k < |js| && js[i + k] == w[k]
  {
  }

  // ----- Strings and primitives -----

  ghost predicate IsScanner(scan: nat -> Scan, js: string) {
    forall i: nat {:trigger ScanString(js, i)} :: scan(i) == ScanString(js, i)
  }

  lemma {:induction false} StringScanned(scan: nat -> Scan, js: string, i: nat, w: string, j: nat)
    requires IsScanner(scan, js) && StringText(w) && Here(js, i, w) && j == i + |w| && j < |js| && js[j] == '\"'
    ensures scan(i) == Found(j)
    decreases |w|
  {
    if w == "" {
      assert scan(i) == ScanString(js, i);
    } else {
      var m: nat :| 0 < m <= |w| && StringFrom(w, m) && StringText(w[m..]);
      HereParts(js, i, w, m);
      StringScanned(scan, js, i + m, w[m..], j);
      PartScanned(scan, js, i, w[..m], i + m);
    }
  }

  lemma HereParts(js: string, i: nat, w: string, m: nat)
    requires m <= |w| && Here(js, i, w)
    ensures Here(js, i, w[..m]) && Here(js, i + m, w[m..])
  {
    assert w == w[..m] + w[m..];
    HereSplit(js, i, w[..m], w[m..]);
  }

  lemma PartScanned(scan: nat -> Scan, js: string, i: nat, p: string, k: nat)
    requires IsScanner(scan, js) && (StringChar(p) || StringEscape(p)) && Here(js, i, p) && k == i + |p| && k < |js|
    ensures scan(i) == scan(k)
  {
    HereChar(js, i, p, 0);
    if StringEscape(p) {
      HereChar(js, i, p, 1);
      if |p| == 6 {
        UnicodeScanned(js, i, p);
      }
    }
    assert scan(i) == ScanString(js, i) && scan(k) == ScanString(js, k);
  }

  lemma UnicodeScanned(js: string, i: nat, p: string)
    requires |p| == 6 && p[..2] == "\\u" && Hexadecimal(p[2..]) && Here(js, i, p)
    ensures js[i] == '\\' && js[i + 1] == 'u' && ScanHex(js, i + 2, 4) == Found(i + 6)
  {
    var u, h := p[..2], p[2..];
    assert p[0] == u[0] && p[1] == u[1];
    HereChar(js, i, p, 0);
    HereChar(js, i, p, 1);
    forall k | i + 2 <= k < i + 6 ensures IsHex(js[k]) && js[k] != NUL {
      HereChar(js, i, p, k - i);
      assert p[k - i] == h[k - i - 2];
    }
    HexScanned(js, i + 2, 4);
  }

  /** And nothing else is taken for a string. */
  lemma {:induction false} StringOnly(js: string, i: nat)
    requires ScanString(js, i).Found?
    ensures StringText(js[i..ScanString(js, i).at])
    decreases |js| - i
  {
    var j := ScanString(js, i).at;
    var w := js[i..j];
    if i < j {
      var m := if js[i] != '\\' then 1 else if js[i + 1] == 'u' then 6 else 2;
      if m == 6 {
        UnicodeOnly(js, i);
      }
      StringOnly(js, i + m);
      assert w[..m] == js[i..i + m] && w[m..] == js[i + m..j];
      assert StringFrom(w, m);
    }
  }

  lemma UnicodeOnly(js: string, i: nat)
    requires i + 1 < |js| && js[i] == '\\' && js[i + 1] == 'u' && ScanString(js, i).Found?
    ensures i + 6 <= |js| && js[i..i + 6][..2] == "\\u" && Hexadecimal(js[i..i + 6][2..])
    ensures ScanString(js, i) == ScanString(js, i + 6)
  {
    UnicodeEnd(js, i);
    UnicodeSlices(js[i..i + 6]);
  }

  lemma UnicodeEnd(js: string, i: nat)
    requires i + 1 < |js| && js[i] == '\\' && js[i + 1] == 'u' && ScanString(js, i).Found?
    ensures i + 6 <= |js| && ScanString(js, i) == ScanString(js, i + 6)
    ensures forall j :: i + 2 <= j < i + 6 ==> js[j] in "0123456789ABCDEFabcdef"
  {
    var k := ScanHex(js, i + 2, 4).at;
    HexOnly(js, i + 2, 4);
    assert ScanString(js, i) == ScanString(js, k);
    forall j | i + 2 <= j < i + 6 ensures js[j] in "0123456789ABCDEFabcdef" {
      HexDigits(js[j]);
    }
  }

  lemma HexDigits(c: char)
    ensures IsHex(c) <==> c in "0123456789ABCDEFabcdef"
  {
  }

  lemma UnicodeSlices(w: string)
    requires |w| == 6 && w[0] == '\\' && w[1] == 'u'
    requires forall j :: 2 <= j < 6 ==> w[j] in "0123456789ABCDEFabcdef"
    ensures w[..2] == "\\u" && Hexadecimal(w[2..])
  {
    assert w[..2] == [w[0], w[1]];
  }

  lemma {:induction false} HexOnly(js: string, i: nat, n: nat)
    requires i <= |js| && ScanHex(js, i, n).Found?
    ensures ScanHex(js, i, n).at <= i + n && (ScanHex(js, i, n).at < i + n ==> AtEnd(js, ScanHex(js, i, n).at))
    ensures forall j :: i <= j < ScanHex(js, i, n).at ==> IsHex(js[j])
    decreases n
  {
    if n > 0 && !AtEnd(js, i) {
      HexOnly(js, i + 1, n - 1);
    }
  }

  /** A string is found, and ends at `j`, exactly if what stands there is the text of one. */
  lemma StringExact(js: string, i: nat, j: nat)
    requires i <= j < |js|
    ensures ScanString(js, i) == Found(j) <==> StringText(js[i..j]) && js[j] == '\"'
  {
    if ScanString(js, i) == Found(j) {
      StringOnly(js, i);
    }
    if StringText(js[i..j]) && js[j] == '\"' {
      StringScanned((k: nat) => ScanString(js, k), js, i, js[i..j], j);
    }
  }

  lemma {:induction false} HexScanned(js: string, i: nat, n: nat)
    requires i + n <= |js| && forall k :: i <= k < i + n ==> IsHex(js[k]) && js[k] != NUL
    ensures ScanHex(js, i, n) == Found(i + n)
    decreases n
  {
    if n > 0 {
      HexScanned(js, i + 1, n - 1);
    }
  }

  /** What may follow a value. */
  predicate Delimited(js: string, i: nat) {
    i >= |js| || IsWhite(js[i]) || js[i] == ',' || js[i] == ':' || js[i] == ']' || js[i] == '}'
  }

  /** A primitive that begins at `i` ends at `j` exactly if all between are characters of one and
      `j` is the end of the text or something that may follow. */
  lemma {:induction false} PlainExact(js: string, i: nat, j: nat)
    requires i <= j <= |js|
    ensures ScanPrimitive(js, i) == Found(j)
      <==> (AtEnd(js, j) || Delimited(js, j)) && forall k :: i <= k < j ==> IsPlain(js[k])
    decreases |js| - i
  {
    if i < j {
      PlainExact(js, i + 1, j);
    }
  }
}
