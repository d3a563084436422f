/** The write/zero staging buffer, read as an overlay: a later entry hides an earlier one. */
module WriteBuffer {
  import opened Common
  import opened Remaps

  const ENTRY_LIMIT: nat := 1024 * 1024

  datatype Staged = Staged(ino: nat, offset: nat, len: nat, data: seq<byte>, zero: bool)

  function End(e: Staged): nat { e.offset + e.len }

  predicate Holds(e: Staged, ino: nat, k: nat) {
    e.ino == ino && e.offset <= k < End(e)
  }

  ghost predicate WellStaged(e: Staged) {
    e.len > 0 && (if e.zero then e.data == [] else |e.data| == e.len)
  }

  /** What a staged entry puts over a byte. */
  datatype Mark = Zeroing | Putting(b: byte)

  function Value(m: Mark): byte { if m.Zeroing? then 0 else m.b }

  function MarkOf(e: Staged, k: nat): Mark {
    if e.zero || !(e.offset <= k < e.offset + |e.data|) then Zeroing else Putting(e.data[k - e.offset])
  }

  ghost predicate AllStaged(buf: seq<Staged>) {
    forall e :: e in buf ==> WellStaged(e)
  }

  /** What the buffer lays over (ino, k), if any. */
  ghost function Overlay(buf: seq<Staged>, ino: nat, k: nat): (m: Option<Mark>) {
    if buf == [] then None
    else
      var e := buf[|buf| - 1];
      if Holds(e, ino, k) then Some(MarkOf(e, k)) else Overlay(buf[..|buf| - 1], ino, k)
  }

  ghost predicate Disjoint(a: Staged, b: Staged) {
    a.ino == b.ino ==> End(a) <= b.offset || End(b) <= a.offset
  }

  ghost predicate AllDisjoint(buf: seq<Staged>) {
    forall i, j :: 0 <= i < j < |buf| ==> Disjoint(buf[i], buf[j])
  }

  lemma {:induction false} OverlayNone(buf: seq<Staged>, ino: nat, k: nat)
    requires AllStaged(buf)
    ensures Overlay(buf, ino, k).None? <==> forall e :: e in buf ==> !Holds(e, ino, k)
  {
    if buf != [] {
      var n := |buf| - 1;
      assert buf == buf[..n] + [buf[n]] && buf[n] in buf;
      OverlayNone(buf[..n], ino, k);
    }
  }

  /** Without overlaps the order of the entries does not matter. */
  lemma {:induction false} OverlayIs(buf: seq<Staged>, i: nat, k: nat)
    requires AllStaged(buf) && AllDisjoint(buf) && i < |buf| && buf[i].offset <= k < End(buf[i])
    ensures buf[i] in buf && Overlay(buf, buf[i].ino, k) == Some(MarkOf(buf[i], k))
  {
    var n := |buf| - 1;
    assert buf[i] in buf && buf[n] in buf;
    if i < n {
      assert Disjoint(buf[i], buf[n]);
      OverlayIs(buf[..n], i, k);
    }
  }

  // ---------- push_write_buffer_entry ----------

  /** The source answers EIO when `data` is shorter than `len`; no caller passes it so. */
  function Push(out: seq<Staged>, ino: nat, offset: nat, len: nat, data: seq<byte>, zero: bool): (r: seq<Staged>) {
    var payload := if zero then [] else data[..Min(len, |data|)];
    if len == 0 then out
    else if out != []
         && out[|out| - 1].ino == ino && out[|out| - 1].zero == zero
         && End(out[|out| - 1]) == offset && out[|out| - 1].len + len <= ENTRY_LIMIT then
      var last := out[|out| - 1];
      out[..|out| - 1] + [last.(len := last.len + len, data := last.data + payload)]
    else out + [Staged(ino, offset, len, payload, zero)]
  }

  function PushEntry(out: seq<Staged>, e: Staged): (r: seq<Staged>) {
    Push(out, e.ino, e.offset, e.len, e.data, e.zero)
  }

  lemma PushShape(out: seq<Staged>, e: Staged)
    requires AllStaged(out) && WellStaged(e)
    ensures AllStaged(PushEntry(out, e))
    ensures PushEntry(out, e) == out + [e] ||
            (&& out != [] && out[|out| - 1].ino == e.ino && out[|out| - 1].zero == e.zero
             && End(out[|out| - 1]) == e.offset
             && PushEntry(out, e) == out[..|out| - 1] +
                                     [Staged(e.ino, out[|out| - 1].offset, out[|out| - 1].len + e.len,
                                       out[|out| - 1].data + e.data, e.zero)])
  {
    assert e.data[..|e.data|] == e.data;
    if out != [] { assert out[|out| - 1] in out; }
  }

  lemma OverlayAppend(out: seq<Staged>, e: Staged, ino: nat, k: nat)
    requires AllStaged(out) && WellStaged(e)
    ensures AllStaged(out + [e])
    ensures Overlay(out + [e], ino, k) == if Holds(e, ino, k) then Some(MarkOf(e, k)) else Overlay(out, ino, k)
  {
    assert (out + [e])[..|out|] == out;
  }

  lemma PushOverlay(out: seq<Staged>, e: Staged, ino: nat, k: nat)
    requires AllStaged(out) && WellStaged(e)
    ensures AllStaged(PushEntry(out, e))
    ensures Overlay(PushEntry(out, e), ino, k) == if Holds(e, ino, k) then Some(MarkOf(e, k)) else Overlay(out, ino, k)
  {
    PushShape(out, e);
    if PushEntry(out, e) == out + [e] {
      OverlayAppend(out, e, ino, k);
    } else {
      var n := |out| - 1;
      var last, merged := out[n], PushEntry(out, e)[n];
      assert last in out && out == out[..n] + [last];
      OverlayAppend(out[..n], merged, ino, k);
      OverlayAppend(out[..n], last, ino, k);
    }
  }

  lemma PushDisjoint(out: seq<Staged>, e: Staged)
    requires AllStaged(out) && WellStaged(e) && AllDisjoint(out + [e])
    ensures AllDisjoint(PushEntry(out, e))
  {
    PushShape(out, e);
    if PushEntry(out, e) != out + [e] {
      var s, r, n := out + [e], PushEntry(out, e), |out| - 1;
      assert s[n] == out[n] && s[n + 1] == e;
      forall i | 0 <= i < n ensures Disjoint(r[i], r[n]) {
        assert r[i] == s[i] && Disjoint(s[i], s[n]) && Disjoint(s[i], s[n + 1]) && s[i] in out && out[n] in out;
      }
      assert forall i, j :: 0 <= i < j < n ==> r[i] == s[i] && r[j] == s[j];
    }
  }

  lemma PushKeepsClear(out: seq<Staged>, e: Staged, f: Staged)
    requires AllStaged(out) && WellStaged(e) && WellStaged(f) && Disjoint(e, f)
               && forall x :: x in out ==> Disjoint(x, f)
    ensures forall x :: x in PushEntry(out, e) ==> Disjoint(x, f)
  {
    PushShape(out, e);
    if out != [] {
      assert out[|out| - 1] in out;
      assert forall x :: x in out[..|out| - 1] ==> x in out;
    }
  }

  // ---------- cutting the entries of one file ----------

  function Left(e: Staged, cut: nat): Staged {
    var len := Monus(cut, e.offset);
    e.(len := len, data := if e.zero then [] else e.data[..Min(len, |e.data|)])
  }

  function Right(e: Staged, from: nat, to: nat): Staged {
    e.(offset := to, len := Monus(End(e), from),
       data := if e.zero then [] else e.data[Min(Monus(from, e.offset), |e.data|)..])
  }

  function Pieces(m: Remap, e: Staged): (ps: seq<Staged>)
    ensures |ps| <= 2
  {
    match m
    case Punch(lo, hi) =>
      if End(e) <= lo || hi <= e.offset then [e]
      else Opt(e.offset < lo, Left(e, lo)) + Opt(hi < End(e), Right(e, hi, hi))
    case Truncate(size) =>
      if size <= e.offset then [] else [Left(e, Min(End(e), size))]
    case Collapse(lo, hi) =>
      if End(e) <= lo then [e]
      else if hi <= e.offset then [Right(e, e.offset, Monus(e.offset, Monus(hi, lo)))]
      else Opt(e.offset < lo, Left(e, lo)) + Opt(hi < End(e), Right(e, hi, lo))
    case Insert(lo, len) =>
      if End(e) <= lo then [e]
      else if lo <= e.offset then [Right(e, e.offset, e.offset + len)]
      else [Left(e, lo), Right(e, lo, lo + len)]
  }

  function PiecesFor(m: Remap, target: nat, e: Staged): (ps: seq<Staged>)
    ensures |ps| <= 2
  {
    if e.ino == target then Pieces(m, e) else [e]
  }

  ghost predicate PieceOf(m: Remap, target: nat, p: Staged, e: Staged) {
    && p.ino == e.ino && p.zero == e.zero && WellStaged(p)
    && forall k :: p.offset <= k < End(p) ==>
                     var j := SourceFor(m, target, e.ino, k);
                     j.Some? && e.offset <= j.value < End(e) && MarkOf(p, k) == MarkOf(e, j.value)
  }

  lemma LeftIsPart(m: Remap, target: nat, e: Staged, cut: nat)
    requires WellStaged(e) && e.offset < cut <= End(e)
    requires forall k :: e.offset <= k < cut ==> SourceFor(m, target, e.ino, k) == Some(k)
    ensures PieceOf(m, target, Left(e, cut), e)
  {
  }

  lemma RightIsPart(m: Remap, target: nat, e: Staged, from: nat, to: nat)
    requires WellStaged(e) && e.offset <= from < End(e)
    requires forall k :: to <= k < to + (End(e) - from) ==> SourceFor(m, target, e.ino, k) == Some(k - to + from)
    ensures PieceOf(m, target, Right(e, from, to), e)
  {
  }

  lemma WholeIsPart(m: Remap, target: nat, e: Staged)
    requires WellStaged(e)
    requires forall k :: e.offset <= k < End(e) ==> SourceFor(m, target, e.ino, k) == Some(k)
    ensures PieceOf(m, target, e, e)
  {
  }

  lemma PiecesAreParts(m: Remap, target: nat, e: Staged)
    requires WellStaged(e) && Sensible(m)
    ensures forall p :: p in PiecesFor(m, target, e) ==> PieceOf(m, target, p, e)
  {
    if e.ino != target {
      WholeIsPart(m, target, e);
    } else {
      match m {
        case Punch(lo, hi) => PunchParts(m, e);
        case Truncate(size) =>
          if e.offset < size { LeftIsPart(m, target, e, Min(End(e), size)); }
        case Collapse(lo, hi) => CollapseParts(m, e);
        case Insert(lo, len) => InsertParts(m, e);
      }
    }
  }

  lemma PunchParts(m: Remap, e: Staged)
    requires WellStaged(e) && Sensible(m) && m.Punch?
    ensures forall p :: p in Pieces(m, e) ==> PieceOf(m, e.ino, p, e)
  {
    if End(e) <= m.lo || m.hi <= e.offset {
      WholeIsPart(m, e.ino, e);
    } else {
      if e.offset < m.lo { LeftIsPart(m, e.ino, e, m.lo); }
      if m.hi < End(e) { RightIsPart(m, e.ino, e, m.hi, m.hi); }
      OptMembers(e.offset < m.lo, Left(e, m.lo), m.hi < End(e), Right(e, m.hi, m.hi));
    }
  }

  lemma InsertParts(m: Remap, e: Staged)
    requires WellStaged(e) && m.Insert?
    ensures forall p :: p in Pieces(m, e) ==> PieceOf(m, e.ino, p, e)
  {
    if End(e) <= m.lo {
      WholeIsPart(m, e.ino, e);
    } else if m.lo <= e.offset {
      RightIsPart(m, e.ino, e, e.offset, e.offset + m.len);
    } else {
      LeftIsPart(m, e.ino, e, m.lo);
      RightIsPart(m, e.ino, e, m.lo, m.lo + m.len);
    }
  }

  lemma CollapseParts(m: Remap, e: Staged)
    requires WellStaged(e) && Sensible(m) && m.Collapse?
    ensures forall p :: p in Pieces(m, e) ==> PieceOf(m, e.ino, p, e)
  {
    if End(e) <= m.lo {
      WholeIsPart(m, e.ino, e);
    } else if m.hi <= e.offset {
      RightIsPart(m, e.ino, e, e.offset, e.offset - (m.hi - m.lo));
      assert Pieces(m, e) == [Right(e, e.offset, e.offset - (m.hi - m.lo))];
    } else {
      StraddleParts(m.lo, m.hi, e);
    }
  }

  lemma StraddleParts(lo: nat, hi: nat, e: Staged)
    requires WellStaged(e) && lo <= hi && lo < End(e) && e.offset < hi
    ensures forall p :: p in Pieces(Collapse(lo, hi), e) ==> PieceOf(Collapse(lo, hi), e.ino, p, e)
  {
    var m := Collapse(lo, hi);
    if e.offset < lo { LeftIsPart(m, e.ino, e, lo); }
    if hi < End(e) { RightIsPart(m, e.ino, e, hi, lo); }
    OptMembers(e.offset < lo, Left(e, lo), hi < End(e), Right(e, hi, lo));
  }

  lemma PiecesAreApart(m: Remap, target: nat, e: Staged)
    requires WellStaged(e) && Sensible(m)
    ensures var ps := PiecesFor(m, target, e); |ps| == 2 ==> End(ps[0]) <= ps[1].offset
  {
  }

  lemma PiecesAreAll(m: Remap, target: nat, e: Staged, k: nat)
    requires WellStaged(e) && Sensible(m)
    requires var j := SourceFor(m, target, e.ino, k); j.Some? && e.offset <= j.value < End(e)
    ensures exists p :: p in PiecesFor(m, target, e) && Holds(p, e.ino, k)
  {
    if e.ino != target {
      assert PiecesFor(m, target, e) == [e] && Holds(e, e.ino, k);
    } else {
      match m {
        case Punch(lo, hi) => PunchAll(lo, hi, e, k);
        case Truncate(size) => TruncateAll(size, e, k);
        case Collapse(lo, hi) => CollapseAll(lo, hi, e, k);
        case Insert(lo, len) => InsertAll(lo, len, e, k);
      }
    }
  }

  lemma TruncateAll(size: nat, e: Staged, k: nat)
    requires WellStaged(e) && k < size && e.offset <= k < End(e)
    ensures exists p :: p in Pieces(Truncate(size), e) && Holds(p, e.ino, k)
  {
    var p := Left(e, Min(End(e), size));
    assert Pieces(Truncate(size), e) == [p] && Holds(p, e.ino, k);
  }

  lemma PunchAll(lo: nat, hi: nat, e: Staged, k: nat)
    requires WellStaged(e) && lo <= hi && !(lo <= k < hi) && e.offset <= k < End(e)
    ensures exists p :: p in Pieces(Punch(lo, hi), e) && Holds(p, e.ino, k)
  {
    var ps := Pieces(Punch(lo, hi), e);
    assert Holds(ps[if |ps| == 2 && hi <= k then 1 else 0], e.ino, k);
  }

  lemma CollapseAll(lo: nat, hi: nat, e: Staged, k: nat)
    requires WellStaged(e) && lo <= hi && (var j := if k < lo then k else k + (hi - lo); e.offset <= j < End(e))
    ensures exists p :: p in Pieces(Collapse(lo, hi), e) && Holds(p, e.ino, k)
  {
    var ps := Pieces(Collapse(lo, hi), e);
    assert Holds(ps[if |ps| == 2 && lo <= k then 1 else 0], e.ino, k);
  }

  lemma InsertAll(lo: nat, len: nat, e: Staged, k: nat)
    requires WellStaged(e) && !(lo <= k < lo + len) && (var j := if k < lo then k else k - len; e.offset <= j < End(e))
    ensures exists p :: p in Pieces(Insert(lo, len), e) && Holds(p, e.ino, k)
  {
    var ps := Pieces(Insert(lo, len), e);
    assert Holds(ps[if |ps| == 2 && lo <= k then 1 else 0], e.ino, k);
  }

  lemma PiecesOfTwo(m: Remap, target: nat, p: Staged, a: Staged, q: Staged, b: Staged)
    requires WellStaged(a) && WellStaged(b) && PieceOf(m, target, p, a) && PieceOf(m, target, q, b) && Disjoint(a, b)
    ensures Disjoint(p, q)
  {
    if a.ino == b.ino {
      var i, j := SourceFor(m, target, a.ino, End(p) - 1), SourceFor(m, target, a.ino, q.offset);
      var i', j' := SourceFor(m, target, a.ino, p.offset), SourceFor(m, target, a.ino, End(q) - 1);
      if a.ino == target {
        SourceMonotone(m, End(p) - 1, q.offset);
        SourceMonotone(m, End(q) - 1, p.offset);
      }
    }
  }
}
