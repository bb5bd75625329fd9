/** The parser's in-place text conversions: a replacement is written over its source, and
    the gap that opens behind it travels with the scan until the end. */
module InPlaceText {
  import opened Escapes
  import opened EscapedText

  function Moved(u: seq<Byte>, to: nat, from: nat, n: nat): (v: seq<Byte>)
    requires to + n <= |u| && from + n <= |u|
    ensures |v| == |u|
  {
    u[..to] + u[from..from + n] + u[to + n..]
  }

  /** `memmove`. */
  method Move(buf: array<Byte>, to: nat, from: nat, n: nat)
    requires to + n <= buf.Length && from + n <= buf.Length
    modifies buf
    ensures buf[..] == Moved(old(buf[..]), to, from, n)
  {
    forall k | 0 <= k < n {
      buf[to + k] := buf[from + k];
    }
  }

  /** Closing the gap joins what is kept on its two sides. */
  lemma MovedJoins(u: seq<Byte>, begin: nat, start: nat, end: nat, s: nat, v: seq<Byte>)
    requires begin <= start <= end <= s <= |u| && v == Moved(u, start, end, s - end)
    ensures v[begin..start + (s - end)] == u[begin..start] + u[end..s]
    ensures v[..begin] == u[..begin] && v[s..] == u[s..]
  {
  }

  lemma NothingBehind(v: seq<Byte>, begin: nat, e: nat, r: nat)
    requires begin <= e <= r <= |v|
    ensures v[begin..e] + v[r..r] == v[begin..e]
  {
  }

  class Gap {
    var open: bool
    var end: nat
    var size: nat

    constructor ()
      ensures !open && size == 0
    {
      open, end, size := false, 0, 0;
    }

    /** The gap lies between the start of the text and the scan position. */
    ghost predicate Fits(begin: nat, s: nat)
      reads this
    {
      begin <= s && if open then begin + size <= end <= s else size == 0
    }

    /** The text so far, from `begin` to `s`, without the gap. */
    ghost function Kept(t: seq<Byte>, begin: nat, s: nat): (k: seq<Byte>)
      requires Fits(begin, s) && s <= |t|
      reads this
      ensures |k| == s - begin - size
    {
      if open then t[begin..end - size] + t[end..s] else t[begin..s]
    }

    method Push(buf: array<Byte>, ghost begin: nat, s: nat, count: nat) returns (r: nat)
      requires Fits(begin, s) && s + count <= buf.Length
      modifies this, buf
      ensures r == s + count && Fits(begin, r)
      ensures Kept(buf[..], begin, r) == old(Kept(buf[..], begin, s))
      ensures buf[..][..begin] == old(buf[..][..begin]) && buf[..][s..] == old(buf[..][s..])
    {
      ghost var u, kept := buf[..], Kept(buf[..], begin, s);
      if open {
        Move(buf, end - size, end, s - end);
        MovedJoins(u, begin, end - size, end, s, buf[..]);
      }
      ghost var v := buf[..];
      NothingBehind(v, begin, s - size, s + count);
      r := s + count;
      open := true;
      end := r;
      size := size + count;
    }

    method Flush(buf: array<Byte>, ghost begin: nat, s: nat) returns (e: nat)
      requires Fits(begin, s) && s <= buf.Length
      modifies buf
      ensures begin <= e <= s && buf[begin..e] == old(Kept(buf[..], begin, s))
      ensures buf[..begin] == old(buf[..begin]) && buf[s..] == old(buf[s..])
    {
      if open {
        ghost var u := buf[..];
        Move(buf, end - size, end, s - end);
        MovedJoins(u, begin, end - size, end, s, buf[..]);
        assert buf[..begin] == buf[..][..begin] && buf[s..] == buf[..][s..];
        return s - size;
      } else {
        return s;
      }
    }

    lemma Extend(u: seq<Byte>, begin: nat, s: nat, r: nat)
      requires Fits(begin, s) && s <= r <= |u|
      ensures Fits(begin, r) && Kept(u, begin, r) == Kept(u, begin, s) + u[s..r]
    {
    }

    /** What is behind the scan position does not matter for what is ahead of it. */
    lemma Behind(u: seq<Byte>, v: seq<Byte>, begin: nat, s: nat)
      requires Fits(begin, s) && s <= |u| <= |v| && u[..s] == v[..s]
      ensures Kept(u, begin, s) == Kept(v, begin, s)
    {
      if open {
        assert u[begin..end - size] == u[..s][begin..end - size] && u[end..s] == u[..s][end..s];
        assert v[begin..end - size] == v[..s][begin..end - size] && v[end..s] == v[..s][end..s];
      } else {
        assert u[begin..s] == u[..s][begin..] && v[begin..s] == v[..s][begin..];
      }
    }

    /** The buffer `u`, once `t`, holds `done` for the text up to `s` and is otherwise
        untouched. */
    ghost predicate Holds(u: seq<Byte>, t: seq<Byte>, begin: nat, s: nat, done: seq<Byte>)
      reads this
    {
      && Fits(begin, s) && s <= |t| == |u|
      && u[..begin] == t[..begin] && u[s..] == t[s..]
      && Kept(u, begin, s) == done
    }

    /** Bytes that stand for themselves are just passed over. */
    lemma PassOver(u: seq<Byte>, t: seq<Byte>, begin: nat, s: nat, r: nat, done: seq<Byte>)
      requires Holds(u, t, begin, s, done) && s <= r <= |t|
      ensures Holds(u, t, begin, r, done + t[s..r])
    {
      Extend(u, begin, s, r);
      SubSlices(u, t, s, r);
    }
  }

  lemma SubSlices(u: seq<Byte>, t: seq<Byte>, s: nat, r: nat)
    requires s <= r <= |u| == |t| && u[s..] == t[s..]
    ensures u[s..r] == t[s..r] && u[r..] == t[r..]
  {
    assert u[s..r] == u[s..][..r - s] && t[s..r] == t[s..][..r - s];
    assert u[r..] == u[s..][r - s..] && t[r..] == t[s..][r - s..];
  }

  /** Write `bytes` at `s`. */
  method Write(buf: array<Byte>, s: nat, bytes: seq<Byte>)
    requires s + |bytes| <= buf.Length
    modifies buf
    ensures buf[..] == old(buf[..s]) + bytes + old(buf[s + |bytes|..])
  {
    forall k | 0 <= k < |bytes| {
      buf[s + k] := bytes[k];
    }
  }

  lemma Written(u: seq<Byte>, t: seq<Byte>, s: nat, bytes: seq<Byte>, next: nat, w: seq<Byte>)
    requires s + |bytes| <= next <= |u| == |t| && w == u[..s] + bytes + u[s + |bytes|..] && u[s..] == t[s..]
    ensures |w| == |u| && w[..s] == u[..s] && w[s..s + |bytes|] == bytes
    ensures w[s + |bytes|..][next - (s + |bytes|)..] == t[next..]
  {
    assert w[s + |bytes|..] == u[s + |bytes|..];
    SubSlices(u, t, s, next);
  }

  /** Write `bytes` over the text at `s` and open the gap from there to `next`. */
  method Replace(buf: array<Byte>, g: Gap, s: nat, bytes: seq<Byte>, next: nat,
      ghost t: seq<Byte>, ghost begin: nat, ghost done: seq<Byte>)
    requires g.Holds(buf[..], t, begin, s, done) && s + |bytes| <= next <= buf.Length
    modifies buf, g
    ensures g.Holds(buf[..], t, begin, next, done + bytes)
  {
    ghost var u := buf[..];
    Write(buf, s, bytes);
    ghost var w := buf[..];
    Written(u, t, s, bytes, next, w);
    g.Behind(u, w, begin, s);
    g.Extend(w, begin, s, s + |bytes|);
    assert w[..begin] == w[..s][..begin] && u[..begin] == u[..s][..begin];
    var _ := g.Push(buf, begin, s + |bytes|, next - (s + |bytes|));
    ghost var v := buf[..];
    assert v[next..] == v[s + |bytes|..][next - (s + |bytes|)..];
  }

  // ---------- references ----------

  /** The bytes that a reference that turns out not to be one may have been read past. */
  predicate NameByte(c: Byte) {
    c == HASH || 48 <= c <= 57 || 65 <= c <= 90 || 97 <= c <= 122
  }

  lemma SameFrom(u: seq<Byte>, t: seq<Byte>, s: nat)
    requires |u| == |t| && s <= |t| && u[s..] == t[s..]
    ensures forall k :: s <= k < |t| ==> u[k] == t[k]
  {
    forall k | s <= k < |t| ensures u[k] == t[k] {
      assert u[s..][k - s] == t[s..][k - s];
    }
  }

  method ScanDigits(buf: array<Byte>, j: nat, base: nat, ghost t: seq<Byte>, ghost limit: nat)
      returns (e: nat, v: nat)
    requires base == 10 || base == 16
    requires j <= limit < |t| == buf.Length && t[limit] == 0 && forall k :: j <= k < |t| ==> buf[k] == t[k]
    ensures e == DigitsEnd(t, j, base) && v == Number(t, j, e, base) && e <= limit
    ensures forall k :: j <= k < e ==> NameByte(t[k])
  {
    e, v := j, 0;
    while IsDigit(buf[e], base)
      invariant j <= e <= limit && DigitsEnd(t, j, base) == DigitsEnd(t, e, base) && v == Number(t, j, e, base)
      invariant forall k :: j <= k < e ==> NameByte(t[k])
      decreases limit - e
    {
      v := (base * v + Digit(buf[e], base)) % 0x1_0000_0000;
      e := e + 1;
    }
  }

  /** What scanning the text at the ampersand `s` found, and where it stopped. */
  ghost predicate Found(t: seq<Byte>, s: nat, ref: Reference, r: nat)
    requires s < |t|
  {
    && ref == ReferenceAt(t, s) && s < r <= |t|
    && match ref
       case NoReference => forall k :: s < k < r ==> NameByte(t[k])
       case Refers(_, next) => r == next
  }

  /** The scanning part of `strconv_escape`. */
  method ScanReference(buf: array<Byte>, s: nat, ghost t: seq<Byte>, ghost limit: nat)
      returns (ref: Reference, stre: nat)
    requires s < limit < |t| == buf.Length && t[limit] == 0 && t[s] == AMPERSAND
    requires forall k :: s <= k < |t| ==> buf[k] == t[k]
    ensures Found(t, s, ref, stre) && stre <= limit
  {
    stre := s + 1;
    if buf[stre] == HASH {
      ref, stre := ScanNumeric(buf, s, t, limit);
      return;
    } else if buf[stre] == 97 {
      stre := stre + 1;
      if buf[stre] == 109 {
        stre := stre + 1;
        if buf[stre] == 112 {
          stre := stre + 1;
          if buf[stre] == SEMICOLON {
            return Refers([AMPERSAND], stre + 1), stre + 1;
          }
        }
      } else if buf[stre] == 112 {
        stre := stre + 1;
        if buf[stre] == 111 {
          stre := stre + 1;
          if buf[stre] == 115 {
            stre := stre + 1;
            if buf[stre] == SEMICOLON {
              return Refers([APOSTROPHE], stre + 1), stre + 1;
            }
          }
        }
      }
    } else if buf[stre] == 103 {
      stre := stre + 1;
      if buf[stre] == 116 {
        stre := stre + 1;
        if buf[stre] == SEMICOLON {
          return Refers([GREATER], stre + 1), stre + 1;
        }
      }
    } else if buf[stre] == 108 {
      stre := stre + 1;
      if buf[stre] == 116 {
        stre := stre + 1;
        if buf[stre] == SEMICOLON {
          return Refers([LESS], stre + 1), stre + 1;
        }
      }
    } else if buf[stre] == 113 {
      stre := stre + 1;
      if buf[stre] == 117 {
        stre := stre + 1;
        if buf[stre] == 111 {
          stre := stre + 1;
          if buf[stre] == 116 {
            stre := stre + 1;
            if buf[stre] == SEMICOLON {
              return Refers([QUOTE], stre + 1), stre + 1;
            }
          }
        }
      }
    }
    ref := NoReference;
  }

  method ScanNumeric(buf: array<Byte>, s: nat, ghost t: seq<Byte>, ghost limit: nat)
      returns (ref: Reference, stre: nat)
    requires s + 1 < limit < |t| == buf.Length && t[limit] == 0 && t[s + 1] == HASH
    requires forall k :: s <= k < |t| ==> buf[k] == t[k]
    ensures Found(t, s, ref, stre) && stre <= limit
  {
    stre := s + 1;
    var ucsc: nat;
    if buf[stre + 1] == 120 {
      stre := stre + 2;
      if buf[stre] == SEMICOLON {
        return NoReference, stre;
      }
      stre, ucsc := ScanDigits(buf, stre, 16, t, limit);
    } else {
      stre := stre + 1;
      if buf[stre] == SEMICOLON {
        return NoReference, stre;
      }
      stre, ucsc := ScanDigits(buf, stre, 10, t, limit);
    }
    if buf[stre] != SEMICOLON {
      return NoReference, stre;
    }
    return Refers(Utf8(ucsc), stre + 1), stre + 1;
  }

  /** A character or predefined entity reference becomes what it stands for; anything else
      that starts with an ampersand stays. */
  method StrconvEscape(buf: array<Byte>, g: Gap, s: nat,
      ghost t: seq<Byte>, ghost begin: nat, ghost done: seq<Byte>, ghost limit: nat)
    returns (r: nat, ghost ref: Reference)
    requires g.Holds(buf[..], t, begin, s, done) && s < limit < |t| && t[limit] == 0 && t[s] == AMPERSAND
    modifies buf, g
    ensures Found(t, s, ref, r) && r <= limit
    ensures g.Holds(buf[..], t, begin, r, done + (match ref case NoReference => t[s..r] case Refers(bytes, _) => bytes))
  {
    SameFrom(buf[..], t, s);
    var found, stre := ScanReference(buf, s, t, limit);
    match found {
      case NoReference =>
        g.PassOver(buf[..], t, begin, s, stre, done);
      case Refers(bytes, _) =>
        Replace(buf, g, s, bytes, stre, t, begin, done);
    }
    return stre, found;
  }

  // ---------- the scanning loops ----------

  predicate AttributeMode(m: Mode) {
    m.stop == QUOTE || m.stop == APOSTROPHE
  }

  /** Up to `s` the text has become `done`. */
  ghost predicate Progress(t: seq<Byte>, begin: nat, s: nat, m: Mode, done: seq<Byte>) {
    && begin <= s <= |t| && m.stop in {QUOTE, APOSTROPHE, LESS}
    && done + Convert(t, s, m) == Convert(t, begin, m) && StopAt(t, s, m) == StopAt(t, begin, m)
  }

  lemma Advance(t: seq<Byte>, begin: nat, s: nat, r: nat, m: Mode, done: seq<Byte>, more: seq<Byte>)
    requires Progress(t, begin, s, m, done) && s <= r <= |t|
    requires Convert(t, s, m) == more + Convert(t, r, m) && StopAt(t, s, m) == StopAt(t, r, m)
    ensures Progress(t, begin, r, m, done + more)
  {
    assert done + (more + Convert(t, r, m)) == done + more + Convert(t, r, m);
  }

  lemma AdvanceCopied(t: seq<Byte>, begin: nat, s: nat, r: nat, m: Mode, done: seq<Byte>)
    requires Progress(t, begin, s, m, done) && s <= r <= |t| && forall k :: s <= k < r ==> Copied(t[k], m)
    ensures Progress(t, begin, r, m, done + t[s..r])
  {
    ConvertCopied(t, s, r, m);
    Advance(t, begin, s, r, m, done, t[s..r]);
  }

  lemma AdvancePiece(t: seq<Byte>, begin: nat, s: nat, m: Mode, done: seq<Byte>)
    requires Progress(t, begin, s, m, done) && s < |t| && !Ends(t[s], m)
    ensures Progress(t, begin, Piece(t, s, m).1, m, done + Piece(t, s, m).0)
  {
    PieceStop(t, s, m);
    Advance(t, begin, s, Piece(t, s, m).1, m, done, Piece(t, s, m).0);
  }

  lemma AdvanceEscape(t: seq<Byte>, begin: nat, s: nat, r: nat, m: Mode, done: seq<Byte>, ref: Reference)
    requires Progress(t, begin, s, m, done) && s < |t| && t[s] == AMPERSAND && m.escapes && Found(t, s, ref, r)
    ensures Progress(t, begin, r, m, done + (match ref case NoReference => t[s..r] case Refers(bytes, _) => bytes))
  {
    AdvancePiece(t, begin, s, m, done);
    if ref.NoReference? {
      assert Piece(t, s, m) == ([t[s]], s + 1);
      AdvanceNames(t, begin, s, r, m, done);
    }
  }

  lemma AdvanceNames(t: seq<Byte>, begin: nat, s: nat, r: nat, m: Mode, done: seq<Byte>)
    requires s < r <= |t| && Progress(t, begin, s + 1, m, done + [t[s]]) && forall k :: s < k < r ==> NameByte(t[k])
    ensures Progress(t, begin, r, m, done + t[s..r])
  {
    NameBytesCopied(t, s, r, m);
    AdvanceCopied(t, begin, s + 1, r, m, done + [t[s]]);
    assert done + [t[s]] + t[s + 1..r] == done + t[s..r];
  }

  lemma NameBytesCopied(t: seq<Byte>, s: nat, r: nat, m: Mode)
    requires s < r <= |t| && m.stop in {QUOTE, APOSTROPHE, LESS} && forall k :: s < k < r ==> NameByte(t[k])
    ensures forall k :: s + 1 <= k < r ==> Copied(t[k], m)
  {
  }

  /** `t` has been converted in place from `begin` to the end of the text: the result is
      there, with a NUL behind it, and the rest of the document is as it was. */
  ghost predicate Converted(u: seq<Byte>, t: seq<Byte>, begin: nat, out: seq<Byte>, stop: nat) {
    && begin + |out| <= stop < |t| == |u|
    && u[..begin] == t[..begin] && u[begin..begin + |out|] == out && u[begin + |out|] == 0
    && (u[stop] == t[stop] || u[stop] == 0) && u[stop + 1..] == t[stop + 1..]
  }

  /** `*end = 0`. */
  method PutNul(buf: array<Byte>, end: nat, ghost t: seq<Byte>, ghost begin: nat, ghost s: nat, ghost out: seq<Byte>)
    requires begin <= end <= s < |t| == buf.Length && buf[..][begin..end] == out
    requires buf[..][..begin] == t[..begin] && buf[..][s..] == t[s..]
    modifies buf
    ensures Converted(buf[..], t, begin, out, s)
  {
    ghost var u := buf[..];
    SubSlices(u, t, s, s + 1);
    SameFrom(u, t, s);
    buf[end] := 0;
    ghost var v := buf[..];
    assert v == u[end := 0];
    assert v[begin..end] == u[begin..end] && v[..begin] == u[..begin] && v[s + 1..] == u[s + 1..];
  }

  /** `*g.flush(s) = 0`. */
  method Terminate(buf: array<Byte>, g: Gap, s: nat, ghost t: seq<Byte>, ghost begin: nat, ghost done: seq<Byte>)
    requires g.Holds(buf[..], t, begin, s, done) && s < |t|
    modifies buf
    ensures Converted(buf[..], t, begin, done, s)
  {
    var e := g.Flush(buf, begin, s);
    PutNul(buf, e, t, begin, s, done);
  }

  /** The classes of bytes at which the unrolled scans stop. */
  datatype Class = Attribute | AttributeSpace | Text

  predicate InClass(c: Byte, k: Class) {
    c == 0 || c == AMPERSAND || c == RETURN ||
    match k
    case Attribute => c == APOSTROPHE || c == QUOTE
    case AttributeSpace => c == APOSTROPHE || c == QUOTE || c == NEWLINE || c == TAB
    case Text => c == LESS
  }

  predicate Suits(k: Class, m: Mode) {
    match k
    case Attribute => AttributeMode(m) && m.breaks != ToSpace
    case AttributeSpace => AttributeMode(m)
    case Text => m.stop == LESS && m.breaks != ToSpace
  }

  /** The state of every scanning loop. */
  ghost predicate Scanning(u: seq<Byte>, g: Gap, t: seq<Byte>, begin: nat, s: nat, limit: nat, m: Mode, done: seq<Byte>)
    reads g
  {
    g.Holds(u, t, begin, s, done) && Progress(t, begin, s, m, done) && s <= limit < |t| && t[limit] == 0
  }

  lemma Reads(u: seq<Byte>, g: Gap, t: seq<Byte>, begin: nat, s: nat, limit: nat, m: Mode, done: seq<Byte>)
    requires Scanning(u, g, t, begin, s, limit, m, done)
    ensures u[s] == t[s] && s <= limit && (t[s] != 0 ==> s < limit)
    ensures u[s + 1..] == t[s + 1..]
    ensures StopAt(t, begin, m) == StopAt(t, s, m)
  {
    SameFrom(u, t, s);
    SubSlices(u, t, s, s + 1);
  }

  method ScanWhile(buf: array<Byte>, g: Gap, s: nat, k: Class,
      ghost t: seq<Byte>, ghost begin: nat, ghost limit: nat, ghost m: Mode, ghost done: seq<Byte>)
    returns (r: nat, ghost done': seq<Byte>)
    requires Scanning(buf[..], g, t, begin, s, limit, m, done)
    requires Suits(k, m)
    ensures Scanning(buf[..], g, t, begin, r, limit, m, done') && s <= r && InClass(t[r], k)
  {
    SameFrom(buf[..], t, s);
    r := s;
    while !InClass(buf[r], k)
      invariant s <= r <= limit && forall j :: s <= j < r ==> Copied(t[j], m)
      decreases limit - r
    {
      r := r + 1;
    }
    g.PassOver(buf[..], t, begin, s, r, done);
    AdvanceCopied(t, begin, s, r, m, done);
    done' := done + t[s..r];
  }

  /** The `&` case of the loops. */
  method StepEscape(buf: array<Byte>, g: Gap, s: nat,
      ghost t: seq<Byte>, ghost begin: nat, ghost limit: nat, ghost m: Mode, ghost done: seq<Byte>)
    returns (r: nat, ghost done': seq<Byte>)
    requires Scanning(buf[..], g, t, begin, s, limit, m, done) && m.escapes && t[s] == AMPERSAND
    modifies buf, g
    ensures Scanning(buf[..], g, t, begin, r, limit, m, done') && s < r
  {
    ghost var ref;
    r, ref := StrconvEscape(buf, g, s, t, begin, done, limit);
    AdvanceEscape(t, begin, s, r, m, done, ref);
    done' := done + match ref case NoReference => t[s..r] case Refers(bytes, _) => bytes;
  }

  lemma AdvanceReturn(t: seq<Byte>, begin: nat, s: nat, m: Mode, c: Byte, done: seq<Byte>)
    requires Progress(t, begin, s, m, done) && s + 1 < |t| && t[s] == RETURN && !Ends(t[s], m)
    requires m.breaks != Keep && c == if m.breaks == ToSpace then SPACE else NEWLINE
    ensures Progress(t, begin, if t[s + 1] == NEWLINE then s + 2 else s + 1, m, done + [c])
  {
    AdvancePiece(t, begin, s, m, done);
  }

  /** The `\r` case: one line end, of one or two bytes, becomes one byte. */
  method StepReturn(buf: array<Byte>, g: Gap, s: nat, c: Byte,
      ghost t: seq<Byte>, ghost begin: nat, ghost limit: nat, ghost m: Mode, ghost done: seq<Byte>)
    returns (r: nat, ghost done': seq<Byte>)
    requires Scanning(buf[..], g, t, begin, s, limit, m, done) && t[s] == RETURN
    requires m.breaks != Keep && c == if m.breaks == ToSpace then SPACE else NEWLINE
    modifies buf, g
    ensures Scanning(buf[..], g, t, begin, r, limit, m, done') && s < r
  {
    AdvanceReturn(t, begin, s, m, c, done);
    done' := done + [c];
    r := ReplaceReturn(buf, g, s, c, t, begin, done);
  }

  method ReplaceReturn(buf: array<Byte>, g: Gap, s: nat, c: Byte, ghost t: seq<Byte>, ghost begin: nat, ghost done: seq<Byte>)
    returns (r: nat)
    requires g.Holds(buf[..], t, begin, s, done) && s + 1 < |t|
    modifies buf, g
    ensures r == (if t[s + 1] == NEWLINE then s + 2 else s + 1) && g.Holds(buf[..], t, begin, r, done + [c])
  {
    StepByte(buf, g, s, c, t, begin, done);
    r := s + 1;
    SameFrom(buf[..], t, r);
    if buf[r] == NEWLINE {
      r := StepAway(buf, g, r, t, begin, done + [c]);
    }
  }

  /** Push a gap over one byte. */
  method StepAway(buf: array<Byte>, g: Gap, s: nat, ghost t: seq<Byte>, ghost begin: nat, ghost done: seq<Byte>)
    returns (r: nat)
    requires g.Holds(buf[..], t, begin, s, done) && s < |t|
    modifies buf, g
    ensures r == s + 1 && g.Holds(buf[..], t, begin, r, done)
  {
    r := g.Push(buf, begin, s, 1);
    SubSlices(buf[..], t, s, r);
  }

  method StepByte(buf: array<Byte>, g: Gap, s: nat, c: Byte, ghost t: seq<Byte>, ghost begin: nat, ghost done: seq<Byte>)
    requires g.Holds(buf[..], t, begin, s, done) && s < |t|
    modifies buf
    ensures g.Holds(buf[..], t, begin, s + 1, done + [c])
  {
    ghost var u := buf[..];
    buf[s] := c;
    ghost var v := buf[..];
    assert v == u[s := c] && v[..s] == u[..s] && v[s..s + 1] == [c];
    SubSlices(u, t, s, s + 1);
    assert v[s + 1..] == u[s + 1..];
    g.Behind(u, v, begin, s);
    g.Extend(v, begin, s, s + 1);
    assert v[..begin] == v[..s][..begin] && u[..begin] == u[..s][..begin];
  }

  /** A single byte written over itself or over white space. */
  method StepOver(buf: array<Byte>, g: Gap, s: nat,
      ghost t: seq<Byte>, ghost begin: nat, ghost limit: nat, ghost m: Mode, ghost done: seq<Byte>)
    returns (r: nat, ghost done': seq<Byte>)
    requires Scanning(buf[..], g, t, begin, s, limit, m, done) && !Ends(t[s], m) && Piece(t, s, m) == ([t[s]], s + 1)
    ensures Scanning(buf[..], g, t, begin, r, limit, m, done') && r == s + 1
  {
    Reads(buf[..], g, t, begin, s, limit, m, done);
    AdvanceOne(t, begin, s, m, done);
    g.PassOver(buf[..], t, begin, s, s + 1, done);
    done' := done + t[s..s + 1];
    r := s + 1;
  }

  lemma AdvanceOne(t: seq<Byte>, begin: nat, s: nat, m: Mode, done: seq<Byte>)
    requires Progress(t, begin, s, m, done) && s < |t| && !Ends(t[s], m) && Piece(t, s, m) == ([t[s]], s + 1)
    ensures Progress(t, begin, s + 1, m, done + t[s..s + 1])
  {
    AdvancePiece(t, begin, s, m, done);
    assert t[s..s + 1] == [t[s]];
  }

  /** The contract of the attribute parsers: they fail where the text does not end in the
      quote; otherwise the text has been converted and parsing goes on behind the quote. */
  ghost predicate Parsed(u: seq<Byte>, t: seq<Byte>, begin: nat, m: Mode, ok: bool, next: nat)
    requires begin <= |t|
  {
    var stop := StopAt(t, begin, m);
    && stop < |t| && ok == (t[stop] == m.stop)
    && (ok ==> next == stop + 1 && Converted(u, t, begin, Convert(t, begin, m), stop))
  }

  lemma Start(t: seq<Byte>, g: Gap, begin: nat, limit: nat, m: Mode)
    requires begin <= limit < |t| && t[limit] == 0 && m.stop in {QUOTE, APOSTROPHE, LESS} && !g.open && g.size == 0
    ensures Scanning(t, g, t, begin, begin, limit, m, [])
  {
  }

  /** The text ends at `s`. */
  method Finish(buf: array<Byte>, g: Gap, s: nat,
      ghost t: seq<Byte>, ghost begin: nat, ghost limit: nat, ghost m: Mode, ghost done: seq<Byte>)
    requires Scanning(buf[..], g, t, begin, s, limit, m, done) && t[s] == m.stop
    modifies buf
    ensures Parsed(buf[..], t, begin, m, true, s + 1)
  {
    Terminate(buf, g, s, t, begin, done);
  }

  lemma Failed(u: seq<Byte>, g: Gap, t: seq<Byte>, begin: nat, s: nat, limit: nat, m: Mode, done: seq<Byte>)
    requires Scanning(u, g, t, begin, s, limit, m, done) && t[s] == 0
    ensures Parsed(u, t, begin, m, false, 0)
  {
  }

  method ParseSimple(buf: array<Byte>, begin: nat, endQuote: Byte, escapes: bool, ghost limit: nat)
      returns (ok: bool, next: nat)
    requires begin <= limit < buf.Length && buf[limit] == 0 && (endQuote == QUOTE || endQuote == APOSTROPHE)
    modifies buf
    ensures Parsed(buf[..], old(buf[..]), begin, Mode(endQuote, escapes, Keep), ok, next)
  {
    ghost var t, m := buf[..], Mode(endQuote, escapes, Keep);
    ghost var done: seq<Byte> := [];
    var g := new Gap();
    var s := begin;
    Start(t, g, begin, limit, m);
    while true
      invariant fresh(g) && Scanning(buf[..], g, t, begin, s, limit, m, done)
      decreases limit - s
    {
      s, done := ScanWhile(buf, g, s, Attribute, t, begin, limit, m, done);
      Reads(buf[..], g, t, begin, s, limit, m, done);
      if buf[s] == endQuote {
        Finish(buf, g, s, t, begin, limit, m, done);
        return true, s + 1;
      } else if escapes && buf[s] == AMPERSAND {
        s, done := StepEscape(buf, g, s, t, begin, limit, m, done);
      } else if buf[s] == 0 {
        Failed(buf[..], g, t, begin, s, limit, m, done);
        return false, 0;
      } else {
        s, done := StepOver(buf, g, s, t, begin, limit, m, done);
      }
    }
  }

  method ParseEol(buf: array<Byte>, begin: nat, endQuote: Byte, escapes: bool, ghost limit: nat)
      returns (ok: bool, next: nat)
    requires begin <= limit < buf.Length && buf[limit] == 0 && (endQuote == QUOTE || endQuote == APOSTROPHE)
    modifies buf
    ensures Parsed(buf[..], old(buf[..]), begin, Mode(endQuote, escapes, ToNewline), ok, next)
  {
    ghost var t, m := buf[..], Mode(endQuote, escapes, ToNewline);
    ghost var done: seq<Byte> := [];
    var g := new Gap();
    var s := begin;
    Start(t, g, begin, limit, m);
    while true
      invariant fresh(g) && Scanning(buf[..], g, t, begin, s, limit, m, done)
      decreases limit - s
    {
      s, done := ScanWhile(buf, g, s, Attribute, t, begin, limit, m, done);
      Reads(buf[..], g, t, begin, s, limit, m, done);
      if buf[s] == endQuote {
        Finish(buf, g, s, t, begin, limit, m, done);
        return true, s + 1;
      } else if buf[s] == RETURN {
        s, done := StepReturn(buf, g, s, NEWLINE, t, begin, limit, m, done);
      } else if escapes && buf[s] == AMPERSAND {
        s, done := StepEscape(buf, g, s, t, begin, limit, m, done);
      } else if buf[s] == 0 {
        Failed(buf[..], g, t, begin, s, limit, m, done);
        return false, 0;
      } else {
        s, done := StepOver(buf, g, s, t, begin, limit, m, done);
      }
    }
  }

  /** `*s++ = ' '` for white space that is not a carriage return. */
  method StepSpace(buf: array<Byte>, g: Gap, s: nat,
      ghost t: seq<Byte>, ghost begin: nat, ghost limit: nat, ghost m: Mode, ghost done: seq<Byte>)
    returns (r: nat, ghost done': seq<Byte>)
    requires Scanning(buf[..], g, t, begin, s, limit, m, done)
    requires !Ends(t[s], m) && m.breaks == ToSpace && IsSpace(t[s]) && t[s] != RETURN
    modifies buf
    ensures Scanning(buf[..], g, t, begin, r, limit, m, done') && r == s + 1
  {
    AdvancePiece(t, begin, s, m, done);
    done' := done + [SPACE];
    StepByte(buf, g, s, SPACE, t, begin, done);
    r := s + 1;
  }

  method ParseWconv(buf: array<Byte>, begin: nat, endQuote: Byte, escapes: bool, ghost limit: nat)
      returns (ok: bool, next: nat)
    requires begin <= limit < buf.Length && buf[limit] == 0 && (endQuote == QUOTE || endQuote == APOSTROPHE)
    modifies buf
    ensures Parsed(buf[..], old(buf[..]), begin, Mode(endQuote, escapes, ToSpace), ok, next)
  {
    ghost var t, m := buf[..], Mode(endQuote, escapes, ToSpace);
    ghost var done: seq<Byte> := [];
    var g := new Gap();
    var s := begin;
    Start(t, g, begin, limit, m);
    while true
      invariant fresh(g) && Scanning(buf[..], g, t, begin, s, limit, m, done)
      decreases limit - s
    {
      s, done := ScanWhile(buf, g, s, AttributeSpace, t, begin, limit, m, done);
      Reads(buf[..], g, t, begin, s, limit, m, done);
      if buf[s] == endQuote {
        Finish(buf, g, s, t, begin, limit, m, done);
        return true, s + 1;
      } else if IsSpace(buf[s]) {
        if buf[s] == RETURN {
          s, done := StepReturn(buf, g, s, SPACE, t, begin, limit, m, done);
        } else {
          s, done := StepSpace(buf, g, s, t, begin, limit, m, done);
        }
      } else if escapes && buf[s] == AMPERSAND {
        s, done := StepEscape(buf, g, s, t, begin, limit, m, done);
      } else if buf[s] == 0 {
        Failed(buf[..], g, t, begin, s, limit, m, done);
        return false, 0;
      } else {
        s, done := StepOver(buf, g, s, t, begin, limit, m, done);
      }
    }
  }

  // ---------- character data ----------

  /** `*end = 0` behind the text, or behind what is left of it without white space at its
      end. */
  method TerminateTrimmed(buf: array<Byte>, g: Gap, s: nat, trim: bool,
      begin: nat, ghost t: seq<Byte>, ghost done: seq<Byte>)
    requires g.Holds(buf[..], t, begin, s, done) && s < |t|
    modifies buf
    ensures Converted(buf[..], t, begin, Trimmed(done, trim), s)
  {
    var end := g.Flush(buf, begin, s);
    if trim {
      ghost var last := end;
      end := Trim(buf, begin, end);
      assert buf[begin..last] == done && buf[begin..end] == TrimEnd(done);
    }
    PutNul(buf, end, t, begin, s, Trimmed(done, trim));
  }

  method Trim(buf: array<Byte>, begin: nat, last: nat) returns (end: nat)
    requires begin <= last <= buf.Length
    ensures begin <= end <= last && buf[begin..end] == TrimEnd(buf[begin..last])
  {
    end := last;
    while end > begin && IsSpace(buf[end - 1])
      invariant begin <= end <= last && TrimEnd(buf[begin..end]) == TrimEnd(buf[begin..last])
    {
      assert buf[begin..end][..end - begin - 1] == buf[begin..end - 1];
      end := end - 1;
    }
  }

  /** The contract of the character data parsers: the text ends at the next tag or at the
      end of the document. */
  ghost predicate ParsedText(u: seq<Byte>, t: seq<Byte>, begin: nat, m: Mode, trim: bool, next: nat)
    requires begin <= |t|
  {
    var stop := StopAt(t, begin, m);
    && stop < |t| && next == (if t[stop] == LESS then stop + 1 else stop)
    && Converted(u, t, begin, Trimmed(Convert(t, begin, m), trim), stop)
  }

  method FinishText(buf: array<Byte>, g: Gap, s: nat, trim: bool,
      begin: nat, ghost t: seq<Byte>, ghost limit: nat, ghost m: Mode, ghost done: seq<Byte>)
    requires Scanning(buf[..], g, t, begin, s, limit, m, done) && m.stop == LESS && (t[s] == LESS || t[s] == 0)
    modifies buf
    ensures ParsedText(buf[..], t, begin, m, trim, if t[s] == LESS then s + 1 else s)
  {
    assert done == Convert(t, begin, m);
    TerminateTrimmed(buf, g, s, trim, begin, t, done);
  }

  /** The eight character data parsers, by their three switches. */
  method ParsePcdata(buf: array<Byte>, begin: nat, trim: bool, eol: bool, escapes: bool, ghost limit: nat)
      returns (next: nat)
    requires begin <= limit < buf.Length && buf[limit] == 0
    modifies buf
    ensures ParsedText(buf[..], old(buf[..]), begin, Mode(LESS, escapes, if eol then ToNewline else Keep), trim, next)
  {
    ghost var t, m := buf[..], Mode(LESS, escapes, if eol then ToNewline else Keep);
    ghost var done: seq<Byte> := [];
    var g := new Gap();
    var s := begin;
    Start(t, g, begin, limit, m);
    while true
      invariant fresh(g) && Scanning(buf[..], g, t, begin, s, limit, m, done)
      decreases limit - s
    {
      s, done := ScanWhile(buf, g, s, Text, t, begin, limit, m, done);
      Reads(buf[..], g, t, begin, s, limit, m, done);
      if buf[s] == LESS {
        FinishText(buf, g, s, trim, begin, t, limit, m, done);
        return s + 1;
      } else if eol && buf[s] == RETURN {
        s, done := StepReturn(buf, g, s, NEWLINE, t, begin, limit, m, done);
      } else if escapes && buf[s] == AMPERSAND {
        s, done := StepEscape(buf, g, s, t, begin, limit, m, done);
      } else if buf[s] == 0 {
        FinishText(buf, g, s, trim, begin, t, limit, m, done);
        return s;
      } else {
        s, done := StepOver(buf, g, s, t, begin, limit, m, done);
      }
    }
  }

  // ---------- printed text, parsed in place ----------

  lemma AttributeOutcome(u: seq<Byte>, t: seq<Byte>, begin: nat, m: Mode, ok: bool, next: nat, out: seq<Byte>, stop: nat)
    requires begin <= |t| && Parsed(u, t, begin, m, ok, next)
    requires Convert(t, begin, m) == out && StopAt(t, begin, m) == stop && stop < |t| && t[stop] == m.stop
    ensures ok && next == stop + 1 && begin + |out| <= stop && |u| == |t|
    ensures u[begin..begin + |out|] == out && u[begin + |out|] == 0 && u[next..] == t[next..]
  {
  }

  lemma TextOutcome(u: seq<Byte>, t: seq<Byte>, begin: nat, m: Mode, trim: bool, next: nat, out: seq<Byte>, stop: nat)
    requires begin <= |t| && ParsedText(u, t, begin, m, trim, next)
    requires Convert(t, begin, m) == out && StopAt(t, begin, m) == stop && stop < |t| && t[stop] == LESS
    ensures next == stop + 1 && |u| == |t|
    ensures var r := Trimmed(out, trim); begin + |r| < |u| && u[begin..begin + |r|] == r && u[begin + |r|] == 0
    ensures u[next..] == t[next..]
  {
  }

  /** However an attribute value was printed, every attribute parser leaves exactly that
      value in the buffer, NUL-terminated, and goes on behind the quote. */
  lemma PrintedAttributeParses(u: seq<Byte>, t: seq<Byte>, begin: nat, s: seq<Byte>, style: Style, m: Mode,
      ok: bool, next: nat)
    requires 0 !in s && AttributeStyle(style, m) && Printed(t, begin, s, style, m.stop)
    requires Parsed(u, t, begin, m, ok, next)
    ensures ok && next == begin + |Escape(s, style)| + 1
    ensures begin + |s| < next <= |u| == |t|
    ensures u[begin..begin + |s|] == s && u[begin + |s|] == 0 && u[next..] == t[next..]
  {
    var stop := begin + |Escape(s, style)|;
    assert stop < |t| && t[stop] == m.stop;
    AttributeRoundTrip(t, begin, s, style, m);
    AttributeOutcome(u, t, begin, m, ok, next, s, stop);
  }

  /** Character data that neither starts nor ends with anything to drop: what is left in the
      buffer is the text that was printed, with its line ends normalised. */
  lemma PrintedTextParses(u: seq<Byte>, t: seq<Byte>, begin: nat, s: seq<Byte>, style: Style, m: Mode,
      trim: bool, next: nat)
    requires 0 !in s && TextStyle(style, m) && Printed(t, begin, s, style, LESS)
    requires ParsedText(u, t, begin, m, trim, next)
    ensures next == begin + |Escape(s, style)| + 1 && |u| == |t|
    ensures var out := Trimmed(Back(s, m), trim);
      begin + |out| < |u| && u[begin..begin + |out|] == out && u[begin + |out|] == 0
    ensures u[next..] == t[next..]
  {
    var stop, out := begin + |Escape(s, style)|, Back(s, m);
    assert stop < |t| && t[stop] == LESS;
    TextRoundTrip(t, begin, s, style, m);
    TextOutcome(u, t, begin, m, trim, next, out, stop);
  }
}
