/** Printing the nodes that have no children: the loops that keep a text from ending its node,
    and what they achieve. */
module SimpleNodes {
  import opened Escapes
  import opened Markup

  // ---------- comments ----------

  predicate BreaksComment(s: seq<Byte>, i: nat) {
    i < |s| && s[i] == MINUS && (i + 1 == |s| || s[i + 1] == MINUS)
  }

  /** No two hyphens in a row, and none at the end. */
  ghost predicate CommentText(s: seq<Byte>) {
    forall i: nat :: !BreaksComment(s, i)
  }

  lemma CommentStart(s: seq<Byte>)
    requires s != []
    ensures CommentBody(s) != [] && CommentBody(s)[0] == s[0]
  {
  }

  /** What is written is a text that a comment may have (XML 1.0, section 2.5). */
  lemma {:induction false} CommentSafe(s: seq<Byte>)
    ensures CommentText(CommentBody(s))
    decreases |s|
  {
    if s != [] {
      var r, rest := CommentBody(s), CommentBody(s[1..]);
      CommentSafe(s[1..]);
      if |s| > 1 {
        CommentStart(s[1..]);
      }
      forall i: nat ensures !BreaksComment(r, i) {
        var n := |r| - |rest|;
        if i >= n {
          assert !BreaksComment(rest, i - n);
          assert r[n..] == rest;
          assert i < |r| ==> r[i] == rest[i - n];
        }
      }
    }
  }

  /** A comment is written as it is exactly if its text is one that a comment may have. */
  lemma {:induction false} CommentSame(s: seq<Byte>)
    ensures CommentBody(s) == s <==> CommentText(s)
    decreases |s|
  {
    CommentSafe(s);
    if CommentText(s) && s != [] {
      assert !BreaksComment(s, 0);
      forall i: nat ensures !BreaksComment(s[1..], i) {
        assert !BreaksComment(s, i + 1);
      }
      CommentSame(s[1..]);
      assert s == [s[0]] + s[1..];
    }
  }

  lemma CommentCons(s: seq<Byte>, i: nat)
    requires i < |s|
    ensures CommentBody(s[i..]) == (if BreaksComment(s, i) then [MINUS, SPACE] else [s[i]]) + CommentBody(s[i + 1..])
  {
    assert s[i..][0] == s[i] && s[i..][1..] == s[i + 1..];
  }

  lemma CommentCopied(s: seq<Byte>, from: nat, i: nat)
    requires from <= i < |s| && !BreaksComment(s, i) && CommentBody(s[from..]) == s[from..i] + CommentBody(s[i..])
    ensures CommentBody(s[from..]) == s[from..i + 1] + CommentBody(s[i + 1..])
  {
    CommentCons(s, i);
    assert s[from..i + 1] == s[from..i] + [s[i]];
  }

  /** Up to the next hyphen that has to be kept apart from what follows. */
  method ScanComment(s: seq<Byte>, from: nat) returns (i: nat)
    requires from <= |s|
    ensures from <= i <= |s| && (i < |s| ==> BreaksComment(s, i))
    ensures CommentBody(s[from..]) == s[from..i] + CommentBody(s[i..])
  {
    i := from;
    while i < |s| && !BreaksComment(s, i)
      invariant from <= i <= |s| && CommentBody(s[from..]) == s[from..i] + CommentBody(s[i..])
    {
      CommentCopied(s, from, i);
      i := i + 1;
    }
  }

  /** `node_output_comment`. */
  method OutputComment(s: seq<Byte>, f: Format) returns (out: seq<Byte>)
    ensures out == PrintSimple(Comment(s), f)
  {
    ghost var start := [LESS, EXCLAMATION, MINUS, MINUS];
    out := [LESS, EXCLAMATION, MINUS, MINUS];
    var i := 0;
    assert s[0..] == s;
    while i < |s|
      invariant i <= |s| && out + CommentBody(s[i..]) == start + CommentBody(s)
    {
      var prev := i;
      i := ScanComment(s, prev);
      out := out + s[prev..i];
      if i < |s| {
        CommentCons(s, i);
        out := out + [MINUS, SPACE];
        i := i + 1;
      }
    }
    assert CommentBody(s[i..]) == [] && out + [] == out;
    out := out + [MINUS, MINUS, GREATER];
  }

  // ---------- processing instructions ----------

  /** A text without its spaces. */
  function Spaceless(s: seq<Byte>): seq<Byte> {
    if s == [] then [] else (if s[0] == SPACE then [] else [s[0]]) + Spaceless(s[1..])
  }

  lemma SpacelessStep(a: seq<Byte>, b: seq<Byte>)
    requires |a| == 1
    ensures Spaceless(a + b) == (if a[0] == SPACE then [] else a) + Spaceless(b)
  {
    assert (a + b)[1..] == b;
  }

  /** All that is done to the text of a comment is that spaces are put in. */
  lemma {:induction false} CommentSpaced(s: seq<Byte>)
    ensures Spaceless(CommentBody(s)) == Spaceless(s)
    decreases |s|
  {
    if s != [] {
      var rest := CommentBody(s[1..]);
      CommentSpaced(s[1..]);
      SpacelessStep([s[0]], rest);
      SpacelessStep([SPACE], rest);
      SpacelessStep([MINUS], [SPACE] + rest);
      assert [MINUS, SPACE] + rest == [MINUS] + ([SPACE] + rest);
    }
  }

  predicate EndsInstruction(s: seq<Byte>, i: nat) {
    i + 1 < |s| && s[i] == QUESTION && s[i + 1] == GREATER
  }

  ghost predicate InstructionText(s: seq<Byte>) {
    forall i: nat :: !EndsInstruction(s, i)
  }

  lemma InstructionStart(s: seq<Byte>)
    requires s != []
    ensures InstructionBody(s) != [] && InstructionBody(s)[0] == s[0]
  {
  }

  /** What is written does not end the instruction (XML 1.0, section 2.6). */
  lemma {:induction false} InstructionSafe(s: seq<Byte>)
    ensures InstructionText(InstructionBody(s))
    decreases |s|
  {
    if s != [] {
      var r := InstructionBody(s);
      var n := if EndsInstruction(s, 0) then 2 else 1;
      var rest := InstructionBody(s[n..]);
      InstructionSafe(s[n..]);
      if |s| > n {
        InstructionStart(s[n..]);
      }
      var m := |r| - |rest|;
      forall i: nat ensures !EndsInstruction(r, i) {
        if i >= m {
          assert !EndsInstruction(rest, i - m);
          assert r[m..] == rest;
          assert i < |r| ==> r[i] == rest[i - m];
          assert i + 1 < |r| ==> r[i + 1] == rest[i + 1 - m];
        }
      }
    }
  }

  lemma {:induction false} InstructionSame(s: seq<Byte>)
    ensures InstructionBody(s) == s <==> InstructionText(s)
    decreases |s|
  {
    InstructionSafe(s);
    if InstructionText(s) && s != [] {
      assert !EndsInstruction(s, 0);
      forall i: nat ensures !EndsInstruction(s[1..], i) {
        assert !EndsInstruction(s, i + 1);
      }
      InstructionSame(s[1..]);
      assert s == [s[0]] + s[1..];
    }
  }

  lemma InstructionCons(s: seq<Byte>, i: nat)
    requires i < |s|
    ensures InstructionBody(s[i..]) == if EndsInstruction(s, i) then [QUESTION, SPACE, GREATER] + InstructionBody(s[i + 2..])
                                       else [s[i]] + InstructionBody(s[i + 1..])
  {
    assert s[i..][0] == s[i] && s[i..][1..] == s[i + 1..];
    if i + 1 < |s| {
      assert s[i..][1] == s[i + 1] && s[i..][2..] == s[i + 2..];
    }
  }

  lemma InstructionCopied(s: seq<Byte>, from: nat, i: nat)
    requires from <= i < |s| && !EndsInstruction(s, i)
    requires InstructionBody(s[from..]) == s[from..i] + InstructionBody(s[i..])
    ensures InstructionBody(s[from..]) == s[from..i + 1] + InstructionBody(s[i + 1..])
  {
    InstructionCons(s, i);
    assert s[from..i + 1] == s[from..i] + [s[i]];
  }

  method ScanInstruction(s: seq<Byte>, from: nat) returns (i: nat)
    requires from <= |s|
    ensures from <= i <= |s| && (i < |s| ==> EndsInstruction(s, i))
    ensures InstructionBody(s[from..]) == s[from..i] + InstructionBody(s[i..])
  {
    i := from;
    while i < |s| && !EndsInstruction(s, i)
      invariant from <= i <= |s| && InstructionBody(s[from..]) == s[from..i] + InstructionBody(s[i..])
    {
      InstructionCopied(s, from, i);
      i := i + 1;
    }
  }

  /** `node_output_pi_value`. */
  method OutputInstructionValue(s: seq<Byte>) returns (out: seq<Byte>)
    ensures out == InstructionBody(s)
  {
    out := [];
    var i := 0;
    assert s[0..] == s;
    while i < |s|
      invariant i <= |s| && out + InstructionBody(s[i..]) == InstructionBody(s)
    {
      var prev := i;
      i := ScanInstruction(s, prev);
      out := out + s[prev..i];
      if i < |s| {
        InstructionCons(s, i);
        out := out + [QUESTION, SPACE, GREATER];
        i := i + 2;
      }
    }
    assert InstructionBody(s[i..]) == [] && out + [] == out;
  }

  /** Nor is anything else done to the value of an instruction. */
  lemma {:induction false} InstructionSpaced(s: seq<Byte>)
    ensures Spaceless(InstructionBody(s)) == Spaceless(s)
    decreases |s|
  {
    if s != [] {
      if |s| >= 2 && s[0] == QUESTION && s[1] == GREATER {
        var rest := InstructionBody(s[2..]);
        InstructionSpaced(s[2..]);
        SpacelessStep([QUESTION], [SPACE] + ([GREATER] + rest));
        SpacelessStep([SPACE], [GREATER] + rest);
        SpacelessStep([GREATER], rest);
        assert [QUESTION, SPACE, GREATER] + rest == [QUESTION] + ([SPACE] + ([GREATER] + rest));
        assert s[1..][1..] == s[2..];
      } else {
        InstructionSpaced(s[1..]);
        SpacelessStep([s[0]], InstructionBody(s[1..]));
      }
    }
  }

  // ---------- CDATA sections ----------

  /** Where the section that goes on at `i` ends. */
  function SectionEnd(t: seq<Byte>, i: nat): (k: nat)
    requires i <= |t|
    ensures i <= k <= |t| && (k < |t| ==> EndsCdata(t, k)) && forall j :: i <= j < k ==> !EndsCdata(t, j)
    decreases |t| - i
  {
    if i == |t| || EndsCdata(t, i) then i else SectionEnd(t, i + 1)
  }

  /** The text of CDATA sections that follow each other (XML 1.0, section 2.7). */
  function ReadSections(t: seq<Byte>): Optional
    decreases |t|
  {
    if t == [] then Given([])
    else if !(CDATA_START <= t) then Missing
    else
      var k := SectionEnd(t, |CDATA_START|);
      if k == |t| then Missing
      else
        var rest := ReadSections(t[k + 3..]);
        if rest.Given? then Given(t[|CDATA_START|..k] + rest.value) else Missing
  }

  lemma SectionEndIs(t: seq<Byte>, i: nat, k: nat)
    requires i <= k <= |t| && (k < |t| ==> EndsCdata(t, k)) && forall j :: i <= j < k ==> !EndsCdata(t, j)
    ensures SectionEnd(t, i) == k
  {
    var e := SectionEnd(t, i);
    assert e < |t| ==> EndsCdata(t, e);
  }

  lemma SectionReads(piece: seq<Byte>, rest: seq<Byte>)
    requires forall j: nat :: !EndsCdata(piece, j)
    ensures var t := CDATA_START + piece + CDATA_END + rest;
            && CDATA_START <= t && SectionEnd(t, |CDATA_START|) == |CDATA_START| + |piece| < |t|
            && t[|CDATA_START|..|CDATA_START| + |piece|] == piece && t[|CDATA_START| + |piece| + 3..] == rest
  {
    var t, n, k := CDATA_START + piece + CDATA_END + rest, |CDATA_START|, |CDATA_START| + |piece|;
    assert forall j :: 0 <= j < |piece| ==> t[n + j] == piece[j];
    assert t[k] == BRACKET && t[k + 1] == BRACKET && t[k + 2] == GREATER;
    forall j | n <= j < k ensures !EndsCdata(t, j) {
      assert !EndsCdata(piece, j - n);
    }
    SectionEndIs(t, n, k);
  }

  lemma ReadOne(piece: seq<Byte>, rest: seq<Byte>, v: seq<Byte>)
    requires (forall j: nat :: !EndsCdata(piece, j)) && ReadSections(rest) == Given(v)
    ensures ReadSections(CDATA_START + piece + CDATA_END + rest) == Given(piece + v)
  {
    SectionReads(piece, rest);
  }

  /** The first section, and what is left. */
  lemma CdataFirst(s: seq<Byte>, start: seq<Byte>, end: seq<Byte>) returns (piece: seq<Byte>, tail: seq<Byte>)
    ensures s == piece + tail && (forall j: nat :: !EndsCdata(piece, j)) && (tail != [] ==> |tail| < |s|)
    ensures CdataSections(s, start, end) == start + piece + end + if tail != [] then CdataSections(tail, start, end) else []
  {
    var k := CdataCut(s, 0);
    piece, tail := s[..k], s[k..];
    forall j: nat ensures !EndsCdata(piece, j) {
      if j + 2 < k {
        assert !EndsCdata(s, j);
      }
    }
  }

  lemma {:induction false} SectionsRead(s: seq<Byte>, start: seq<Byte>, end: seq<Byte>)
    requires start == CDATA_START && end == CDATA_END
    ensures ReadSections(CdataSections(s, start, end)) == Given(s)
    decreases |s|
  {
    var piece, tail := CdataFirst(s, start, end);
    var rest := if tail != [] then CdataSections(tail, start, end) else [];
    if tail != [] {
      SectionsRead(tail, start, end);
    }
    ReadOne(piece, rest, tail);
  }

  /** Whatever the text: the sections that are written read back as the text. */
  lemma CdataRoundTrip(s: seq<Byte>, f: Format)
    ensures ReadSections(PrintSimple(Cdata(s), f)) == Given(s)
  {
    SectionsRead(s, CDATA_START, CDATA_END);
  }

  method ScanCdata(s: seq<Byte>, from: nat) returns (i: nat)
    requires from <= |s|
    ensures from <= i <= |s| && i == from + CdataCut(s[from..], 0)
  {
    i := from;
    while i < |s| && !EndsCdata(s, i)
      invariant from <= i <= |s| && CdataCut(s[from..], i - from) == CdataCut(s[from..], 0)
    {
      assert EndsCdata(s[from..], i - from) == EndsCdata(s, i);
      i := i + 1;
    }
    if i < |s| {
      assert EndsCdata(s[from..], i - from);
      i := i + 2;
    }
  }

  lemma Parts(s: seq<Byte>, from: nat, i: nat)
    requires from <= i <= |s|
    ensures s[from..][..i - from] == s[from..i] && s[from..][i - from..] == s[i..]
  {
  }

  lemma CdataUnfolds(u: seq<Byte>, k: nat, front: seq<Byte>, back: seq<Byte>, start: seq<Byte>, end: seq<Byte>)
    requires k == CdataCut(u, 0) && front == u[..k] && back == u[k..]
    ensures CdataSections(u, start, end) == start + front + end + if k < |u| then CdataSections(back, start, end) else []
  {
  }

  lemma CdataStep(s: seq<Byte>, from: nat, i: nat, start: seq<Byte>, end: seq<Byte>)
    requires from <= i <= |s| && i == from + CdataCut(s[from..], 0)
    ensures CdataSections(s[from..], start, end)
         == start + s[from..i] + end + if i < |s| then CdataSections(s[i..], start, end) else []
  {
    Parts(s, from, i);
    CdataUnfolds(s[from..], i - from, s[from..i], s[i..], start, end);
  }

  lemma Wrapped(out: seq<Byte>, start: seq<Byte>, piece: seq<Byte>, end: seq<Byte>, rest: seq<Byte>)
    ensures out + (start + piece + end + rest) == out + start + piece + end + rest
  {
  }

  /** One section, and how far it goes. */
  method OutputSection(s: seq<Byte>, from: nat, start: seq<Byte>, end: seq<Byte>, out: seq<Byte>, ghost total: seq<Byte>)
    returns (i: nat, longer: seq<Byte>)
    requires from <= |s| && out + CdataSections(s[from..], start, end) == total
    ensures from <= i <= |s| && (i < |s| ==> from < i)
    ensures longer + (if i < |s| then CdataSections(s[i..], start, end) else []) == total
  {
    i := ScanCdata(s, from);
    CdataStep(s, from, i, start, end);
    Wrapped(out, start, s[from..i], end, if i < |s| then CdataSections(s[i..], start, end) else []);
    longer := out + start + s[from..i] + end;
  }

  method OutputSections(s: seq<Byte>, start: seq<Byte>, end: seq<Byte>) returns (out: seq<Byte>)
    ensures out == CdataSections(s, start, end)
  {
    ghost var total := CdataSections(s, start, end);
    out := [];
    var i := 0;
    assert s[0..] == s;
    while true
      invariant i <= |s| && (i == |s| ==> i == 0) && out + CdataSections(s[i..], start, end) == total
      decreases |s| - i
    {
      i, out := OutputSection(s, i, start, end, out, total);
      if i == |s| {
        break;
      }
    }
  }

  /** `text_output_cdata`. */
  method OutputCdata(s: seq<Byte>, f: Format) returns (out: seq<Byte>)
    ensures out == PrintSimple(Cdata(s), f)
  {
    out := OutputSections(s, CDATA_START, CDATA_END);
  }
}
