/** Where the lines of an indented printout begin. */
module PrintedLines {
  import opened Escapes
  import opened Markup
  import R = MarkupRoundTrip

  /** What the indentation of a line is: copies of one string, one for every level. */
  lemma {:induction false} IndentationCopies(indent: seq<Byte>, depth: nat)
    ensures |Indentation(indent, depth)| == depth * |indent|
    ensures forall i: nat {:trigger i * |indent|} :: i < depth ==>
      i * |indent| + |indent| <= depth * |indent|
      && Indentation(indent, depth)[i * |indent|..i * |indent| + |indent|] == indent
    decreases depth
  {
    if depth > 0 {
      IndentationCopies(indent, depth - 1);
      var front := Indentation(indent, depth - 1);
      assert depth * |indent| == (depth - 1) * |indent| + |indent|;
      forall i: nat | i < depth
        ensures i * |indent| + |indent| <= depth * |indent|
        ensures (front + indent)[i * |indent|..i * |indent| + |indent|] == indent
      {
        CopyAt(front, indent, i, depth);
      }
    }
  }

  lemma CopyAt(front: seq<Byte>, indent: seq<Byte>, i: nat, depth: nat)
    requires i < depth && |front| == (depth - 1) * |indent|
    requires i < depth - 1 ==>
      i * |indent| + |indent| <= |front| && front[i * |indent|..i * |indent| + |indent|] == indent
    ensures i * |indent| + |indent| <= depth * |indent|
    ensures (front + indent)[i * |indent|..i * |indent| + |indent|] == indent
  {
    assert depth * |indent| == |front| + |indent|;
    if i < depth - 1 {
      var from := i * |indent|;
      assert (front + indent)[from..from + |indent|] == front[from..from + |indent|];
    } else {
      assert i * |indent| == |front|;
    }
  }

  // ---------- the way to a node ----------

  /** `way` leads from a list of siblings down through elements. */
  predicate Leads(xs: seq<Item>, way: seq<nat>)
    decreases |way|
  {
    way != [] && way[0] < |xs| && (|way| > 1 ==> xs[way[0]].Element? && Leads(xs[way[0]].children, way[1..]))
  }

  function NodeOn(xs: seq<Item>, way: seq<nat>): Item
    requires Leads(xs, way)
    decreases |way|
  {
    if |way| == 1 then xs[way[0]] else NodeOn(xs[way[0]].children, way[1..])
  }

  /** Character data and what follows it stay on one line. */
  predicate KeepsLine(x: Item) {
    x.Text? || (x.Leaf? && x.what.Cdata?)
  }

  /** Whether the node begins a line of its own: it is not character data and does not follow any.
      The first node of all does if `due` says so. */
  predicate OwnLine(xs: seq<Item>, way: seq<nat>, due: Due)
    requires Leads(xs, way)
    decreases |way|
  {
    if |way| > 1 then OwnLine(xs[way[0]].children, way[1..], BOTH)
    else
      !KeepsLine(xs[way[0]]) && !xs[way[0]].Document?
      && if way[0] == 0 then due == BOTH else !KeepsLine(xs[way[0] - 1]) && !xs[way[0] - 1].Document?
  }

  function DueBefore(xs: seq<Item>, i: nat, f: Format, depth: nat, due: Due): Due
    requires i <= |xs|
    decreases i
  {
    if i == 0 then due else PrintItem(xs[i - 1], f, depth, DueBefore(xs, i - 1, f, depth, due)).due
  }

  lemma DueIsBoth(xs: seq<Item>, i: nat, f: Format, depth: nat, due: Due)
    requires 0 < i <= |xs| && !KeepsLine(xs[i - 1]) && !xs[i - 1].Document?
    ensures DueBefore(xs, i, f, depth, due) == BOTH
  {
  }

  /** Where an item of a list is printed. */
  lemma {:induction false} ItemInList(xs: seq<Item>, i: nat, f: Format, depth: nat, due: Due) returns (k: nat)
    requires i < |xs|
    ensures R.Here(PrintList(xs, f, depth, due).bytes, k, PrintItem(xs[i], f, depth, DueBefore(xs, i, f, depth, due)).bytes)
    decreases i
  {
    var first := PrintItem(xs[0], f, depth, due);
    var rest := PrintList(xs[1..], f, depth, first.due).bytes;
    if i == 0 {
      k := 0;
      HereJoined(first.bytes, rest, []);
    } else {
      var j := ItemInList(xs[1..], i - 1, f, depth, first.due);
      k := |first.bytes| + j;
      DueShifts(xs, i, f, depth, due);
      HereBehind(first.bytes, rest, j, PrintItem(xs[i], f, depth, DueBefore(xs, i, f, depth, due)).bytes);
    }
  }

  lemma {:induction false} DueShifts(xs: seq<Item>, i: nat, f: Format, depth: nat, due: Due)
    requires 0 < i <= |xs|
    ensures DueBefore(xs, i, f, depth, due) == DueBefore(xs[1..], i - 1, f, depth, PrintItem(xs[0], f, depth, due).due)
    decreases i
  {
    if i > 1 {
      DueShifts(xs, i - 1, f, depth, due);
      assert xs[1..][i - 2] == xs[i - 1];
    } else {
      assert DueBefore(xs, 0, f, depth, due) == due;
    }
  }

  lemma HereJoined(a: seq<Byte>, b: seq<Byte>, c: seq<Byte>)
    ensures R.Here(a + b + c, 0, a) && R.Here(a + b + c, |a|, b) && R.Here(a + b, 0, a)
  {
    assert R.Here(a + b + c, 0, a + b + c);
    R.HereSplit(a + b + c, 0, a + b, c);
    R.HereSplit(a + b + c, 0, a, b);
    assert R.Here(a + b, 0, a + b);
    R.HereSplit(a + b, 0, a, b);
  }

  lemma HereBehind(a: seq<Byte>, b: seq<Byte>, j: nat, w: seq<Byte>)
    requires R.Here(b, j, w)
    ensures R.Here(a + b, |a| + j, w)
  {
    forall k | 0 <= k < |w| ensures (a + b)[|a| + j + k] == w[k] {
      R.HereByte(b, j, w, k);
    }
  }

  lemma HereInside(t: seq<Byte>, i: nat, v: seq<Byte>, j: nat, w: seq<Byte>)
    requires R.Here(t, i, v) && R.Here(v, j, w)
    ensures R.Here(t, i + j, w)
  {
    forall k | 0 <= k < |w| ensures t[i + j + k] == w[k] {
      R.HereByte(v, j, w, k);
      R.HereByte(t, i, v, j + k);
    }
  }

  /** Where the children of an element are printed: one level deeper. */
  lemma BodyInItem(x: Item, f: Format, depth: nat, due: Due) returns (k: nat)
    requires x.Element? && x.children != []
    ensures R.Here(PrintItem(x, f, depth, due).bytes, k, PrintList(x.children, f, depth + 1, BOTH).bytes)
  {
    var body := PrintList(x.children, f, depth + 1, BOTH);
    var start, end := Lead(f, depth, due) + StartTag(x, f, depth), Lead(f, depth, body.due) + EndTag(x);
    assert PrintItem(x, f, depth, due).bytes == start + body.bytes + end;
    HereJoined(start, body.bytes, end);
    k := |start|;
  }

  // ---------- lines ----------

  lemma FirstLine(x: Item, f: Format, depth: nat)
    requires !f.raw && !KeepsLine(x) && !x.Document?
    ensures var w := PrintItem(x, f, depth, BOTH).bytes;
      && R.Here(w, 0, [NEWLINE] + Indentation(f.indent, depth) + [LESS])
      && (x.Element? ==> R.Here(w, 1 + |Indentation(f.indent, depth)|, [LESS] + x.name))
  {
    var lead := [NEWLINE] + Indentation(f.indent, depth);
    assert Lead(f, depth, BOTH) == lead;
    if x.Element? {
      var rest := PrintAttributes(x.attributes, f, depth) + if x.children == [] then EmptyEnd(x.name, f) else [GREATER];
      assert StartTag(x, f, depth) == [LESS] + x.name + rest;
      var behind := if x.children == [] then [] else
        var body := PrintList(x.children, f, depth + 1, BOTH);
        body.bytes + Lead(f, depth, body.due) + EndTag(x);
      LineOf(lead, x.name, rest, behind);
      assert PrintItem(x, f, depth, BOTH).bytes == lead + ([LESS] + x.name + rest) + behind;
    } else {
      var y := PrintSimple(x.what, f);
      SimpleStart(x.what, f);
      assert PrintItem(x, f, depth, BOTH).bytes == lead + y;
      assert y == [LESS] + y[1..];
      LineOf(lead, [], y[1..], []);
      assert [LESS] + [] + y[1..] == y && lead + y + [] == lead + y;
    }
  }

  lemma SimpleStart(x: Simple, f: Format)
    requires !x.Cdata?
    ensures PrintSimple(x, f) != [] && PrintSimple(x, f)[0] == LESS
  {
  }

  lemma LineOf(lead: seq<Byte>, name: seq<Byte>, rest: seq<Byte>, behind: seq<Byte>)
    ensures var w := lead + ([LESS] + name + rest) + behind;
      R.Here(w, 0, lead + [LESS]) && R.Here(w, |lead|, [LESS] + name)
  {
    var w := lead + ([LESS] + name + rest) + behind;
    assert w == lead + [LESS] + (name + rest + behind) == lead + ([LESS] + name) + (rest + behind);
    HereJoined(lead + [LESS], name + rest + behind, []);
    HereJoined(lead, [LESS] + name, rest + behind);
  }

  /** A line for `y`, with its indentation, begins at `k`. */
  ghost predicate LineAt(w: seq<Byte>, k: nat, f: Format, n: nat, y: Item) {
    && R.Here(w, k, [NEWLINE] + Indentation(f.indent, n) + [LESS])
    && (y.Element? ==> R.Here(w, k + 1 + |Indentation(f.indent, n)|, [LESS] + y.name))
  }

  lemma LineInside(w: seq<Byte>, i: nat, v: seq<Byte>, j: nat, f: Format, n: nat, y: Item)
    requires R.Here(w, i, v) && LineAt(v, j, f, n, y)
    ensures LineAt(w, i + j, f, n, y)
  {
    HereInside(w, i, v, j, [NEWLINE] + Indentation(f.indent, n) + [LESS]);
    if y.Element? {
      HereInside(w, i, v, j + 1 + |Indentation(f.indent, n)|, [LESS] + y.name);
    }
  }

  lemma LastLine(xs: seq<Item>, i: nat, f: Format, depth: nat, due: Due, w: seq<Byte>) returns (k: nat)
    requires !f.raw && i < |xs| && OwnLine(xs, [i], due) && w == PrintList(xs, f, depth, due).bytes
    ensures LineAt(w, k, f, depth, xs[i])
  {
    if i > 0 {
      DueIsBoth(xs, i, f, depth, due);
    }
    FirstLine(xs[i], f, depth);
    k := ItemInList(xs, i, f, depth, due);
    LineInside(w, k, PrintItem(xs[i], f, depth, BOTH).bytes, 0, f, depth, xs[i]);
  }

  lemma BodyInList(xs: seq<Item>, i: nat, f: Format, depth: nat, due: Due, w: seq<Byte>, body: seq<Byte>) returns (k: nat)
    requires i < |xs| && xs[i].Element? && xs[i].children != []
    requires w == PrintList(xs, f, depth, due).bytes && body == PrintList(xs[i].children, f, depth + 1, BOTH).bytes
    ensures R.Here(w, k, body)
  {
    var before := DueBefore(xs, i, f, depth, due);
    var m := ItemInList(xs, i, f, depth, due);
    var j := BodyInItem(xs[i], f, depth, before);
    HereInside(w, m, PrintItem(xs[i], f, depth, before).bytes, j, body);
    k := m + j;
  }

  /** Wherever a node of the tree begins a line of its own, that line begins with the indentation
      for its depth: one copy for every element around it. */
  lemma {:induction false} NodeLine(xs: seq<Item>, way: seq<nat>, f: Format, depth: nat, due: Due, w: seq<Byte>)
      returns (k: nat)
    requires !f.raw && Leads(xs, way) && OwnLine(xs, way, due) && w == PrintList(xs, f, depth, due).bytes
    ensures LineAt(w, k, f, depth + |way| - 1, NodeOn(xs, way))
    decreases |way|
  {
    if |way| == 1 {
      assert way == [way[0]];
      k := LastLine(xs, way[0], f, depth, due, w);
    } else {
      var children := xs[way[0]].children;
      var body := PrintList(children, f, depth + 1, BOTH).bytes;
      var i := BodyInList(xs, way[0], f, depth, due, w, body);
      var m := NodeLine(children, way[1..], f, depth + 1, BOTH, body);
      LineInside(w, i, body, m, f, depth + |way| - 1, NodeOn(xs, way));
      k := i + m;
    }
  }

  /** In the printout of a whole document. */
  lemma DocumentLine(xs: seq<Item>, way: seq<nat>, f: Format, depth: nat) returns (k: nat)
    requires !f.raw && Leads(xs, way) && OwnLine(xs, way, INDENT)
    ensures LineAt(Print(Document(xs), f, depth), k, f, depth + |way| - 1, NodeOn(xs, way))
  {
    var lead, body := Lead(f, depth, INDENT), PrintList(xs, f, depth, INDENT);
    var last := if body.due.newline && !f.raw then [NEWLINE] else [];
    var t := Print(Document(xs), f, depth);
    assert t == lead + body.bytes + last;
    HereJoined(lead, body.bytes, last);
    var m := NodeLine(xs, way, f, depth, INDENT, body.bytes);
    k := |lead| + m;
    LineInside(t, |lead|, body.bytes, m, f, depth + |way| - 1, NodeOn(xs, way));
  }

  /** The end tag of an element begins a line of its own, indented like its start tag, unless its
      last child is character data. */
  lemma EndLine(x: Item, f: Format, depth: nat, due: Due)
    requires !f.raw && x.Element? && x.children != []
    requires var last := x.children[|x.children| - 1]; !KeepsLine(last) && !last.Document?
    ensures var w := PrintItem(x, f, depth, due).bytes;
      var tag := [NEWLINE] + Indentation(f.indent, depth) + EndTag(x);
      |tag| <= |w| && w[|w| - |tag|..] == tag
  {
    var body := PrintList(x.children, f, depth + 1, BOTH);
    ListDue(x.children, f, depth + 1, BOTH);
    var front := Lead(f, depth, due) + StartTag(x, f, depth) + body.bytes;
    var tag := [NEWLINE] + Indentation(f.indent, depth) + EndTag(x);
    assert Lead(f, depth, BOTH) == [NEWLINE] + Indentation(f.indent, depth);
    assert PrintItem(x, f, depth, due).bytes == front + Lead(f, depth, BOTH) + EndTag(x) == front + tag;
  }

  lemma {:induction false} ListDue(xs: seq<Item>, f: Format, depth: nat, due: Due)
    requires xs != [] && !KeepsLine(xs[|xs| - 1]) && !xs[|xs| - 1].Document?
    ensures PrintList(xs, f, depth, due).due == BOTH
    decreases |xs|
  {
    var first := PrintItem(xs[0], f, depth, due);
    if |xs| > 1 {
      ListDue(xs[1..], f, depth, first.due);
    } else {
      assert PrintList(xs[1..], f, depth, first.due).due == first.due;
    }
  }
}
