/** Rebuilding the extent vector: each operation cuts every entry of one inode into pieces, pushes the
    pieces in order, and sorts that inode's entries to the end of the vector. */
module ExtentOps {
  import opened Common
  import opened Remaps
  import opened Extents

  /** The part of `e` before `cut`. */
  function Left(e: Extent, cut: nat): Extent {
    e.(end := cut, reserved := if e.kind.Data? then e.phys + Monus(cut, e.start) else 0)
  }

  /** The part of `e` from `from` on, moved to start at `to`. */
  function Right(e: Extent, from: nat, to: nat): Extent {
    var phys := if e.kind.Data? then e.phys + Monus(from, e.start) else 0;
    Extent(e.ino, to, to + Monus(e.end, from), phys, e.reserved, e.kind)
  }

  function Pieces(m: Remap, e: Extent): (ps: seq<Extent>) {
    match m
    case Punch(lo, hi) =>
      if e.end <= lo || hi <= e.start then [e]
      else Opt(e.start < lo, Left(e, lo)) + Opt(hi < e.end, Right(e, hi, hi))
    case Truncate(size) =>
      if size <= e.start then [] else [e.(end := Min(e.end, size))]
    case Collapse(lo, hi) =>
      if e.end <= lo then [e]
      else if hi <= e.start then [Right(e, e.start, Monus(e.start, Monus(hi, lo)))]
      else Opt(e.start < lo, Left(e, lo)) + Opt(hi < e.end, Right(e, hi, lo))
    case Insert(lo, len) =>
      if e.end <= lo then [e]
      else if lo <= e.start then [Right(e, e.start, e.start + len)]
      else [Left(e, lo), Right(e, lo, lo + len)]
  }

  function PiecesFor(m: Remap, target: nat, e: Extent): (ps: seq<Extent>) {
    if e.ino == target then Pieces(m, e) else [e]
  }

  /** `p` is a piece of `e`: same file and kind, physically inside it, and every byte of it the byte
      of `e` that the remap puts there. */
  ghost predicate PieceOf(m: Remap, target: nat, p: Extent, e: Extent) {
    && p.ino == e.ino && p.kind == e.kind && WellFormed(p)
    && (p.kind.Data? ==> e.phys <= p.phys && p.reserved <= e.reserved)
    && forall k :: p.start <= k < p.end ==>
                     var j := SourceFor(m, target, e.ino, k);
                     j.Some? && e.start <= j.value < e.end && CellOf(p, k) == CellOf(e, j.value)
  }

  lemma LeftIsPart(m: Remap, target: nat, e: Extent, cut: nat)
    requires WellFormed(e) && e.start < cut <= e.end
    requires forall k :: e.start <= k < cut ==> SourceFor(m, target, e.ino, k) == Some(k)
    ensures PieceOf(m, target, Left(e, cut), e) && PieceOf(m, target, e.(end := cut), e)
  {
  }

  lemma RightIsPart(m: Remap, target: nat, e: Extent, from: nat, to: nat)
    requires WellFormed(e) && e.start <= from < e.end
    requires forall k :: to <= k < to + (e.end - from) ==> SourceFor(m, target, e.ino, k) == Some(k - to + from)
    ensures PieceOf(m, target, Right(e, from, to), e)
  {
  }

  lemma WholeIsPart(m: Remap, target: nat, e: Extent)
    requires WellFormed(e)
    requires forall k :: e.start <= k < e.end ==> SourceFor(m, target, e.ino, k) == Some(k)
    ensures PieceOf(m, target, e, e)
  {
  }

  lemma PiecesAreParts(m: Remap, target: nat, e: Extent)
    requires WellFormed(e) && Sensible(m)
    ensures forall p :: p in PiecesFor(m, target, e) ==> PieceOf(m, target, p, e)
  {
    if e.ino != target {
      WholeIsPart(m, target, e);
    } else {
      match m {
        case Punch(lo, hi) => PunchParts(m, e);
        case Truncate(size) =>
          if e.start < size { LeftIsPart(m, target, e, Min(e.end, size)); }
        case Collapse(lo, hi) => CollapseParts(m, e);
        case Insert(lo, len) => InsertParts(m, e);
      }
    }
  }

  lemma PunchParts(m: Remap, e: Extent)
    requires WellFormed(e) && Sensible(m) && m.Punch?
    ensures forall p :: p in Pieces(m, e) ==> PieceOf(m, e.ino, p, e)
  {
    if e.end <= m.lo || m.hi <= e.start {
      WholeIsPart(m, e.ino, e);
    } else {
      if e.start < m.lo { LeftIsPart(m, e.ino, e, m.lo); }
      if m.hi < e.end { RightIsPart(m, e.ino, e, m.hi, m.hi); }
      OptMembers(e.start < m.lo, Left(e, m.lo), m.hi < e.end, Right(e, m.hi, m.hi));
    }
  }

  lemma InsertParts(m: Remap, e: Extent)
    requires WellFormed(e) && m.Insert?
    ensures forall p :: p in Pieces(m, e) ==> PieceOf(m, e.ino, p, e)
  {
    if e.end <= m.lo {
      WholeIsPart(m, e.ino, e);
    } else if m.lo <= e.start {
      RightIsPart(m, e.ino, e, e.start, e.start + m.len);
    } else {
      LeftIsPart(m, e.ino, e, m.lo);
      RightIsPart(m, e.ino, e, m.lo, m.lo + m.len);
      assert Pieces(m, e) == [Left(e, m.lo), Right(e, m.lo, m.lo + m.len)];
    }
  }

  lemma CollapseParts(m: Remap, e: Extent)
    requires WellFormed(e) && Sensible(m) && m.Collapse?
    ensures forall p :: p in Pieces(m, e) ==> PieceOf(m, e.ino, p, e)
  {
    if e.end <= m.lo {
      WholeIsPart(m, e.ino, e);
    } else if m.hi <= e.start {
      RightIsPart(m, e.ino, e, e.start, e.start - (m.hi - m.lo));
      assert Pieces(m, e) == [Right(e, e.start, e.start - (m.hi - m.lo))];
    } else {
      StraddleParts(m.lo, m.hi, e);
    }
  }

  lemma StraddleParts(lo: nat, hi: nat, e: Extent)
    requires WellFormed(e) && lo <= hi && lo < e.end && e.start < hi
    ensures forall p :: p in Pieces(Collapse(lo, hi), e) ==> PieceOf(Collapse(lo, hi), e.ino, p, e)
  {
    var m := Collapse(lo, hi);
    if e.start < lo { LeftIsPart(m, e.ino, e, lo); }
    if hi < e.end { RightIsPart(m, e.ino, e, hi, lo); }
    OptMembers(e.start < lo, Left(e, lo), hi < e.end, Right(e, hi, lo));
  }

  lemma PiecesAreApart(m: Remap, target: nat, e: Extent)
    requires WellFormed(e) && Sensible(m)
    ensures var ps := PiecesFor(m, target, e);
            |ps| <= 2 && (|ps| == 2 ==> ps[0].end <= ps[1].start && Apart(ps[0], ps[1]))
  {
  }

  /** Every byte of `e` the remap keeps is in one of the pieces. */
  lemma PiecesAreAll(m: Remap, target: nat, e: Extent, k: nat)
    requires WellFormed(e) && Sensible(m)
    requires var j := SourceFor(m, target, e.ino, k); j.Some? && e.start <= j.value < e.end
    ensures exists p :: p in PiecesFor(m, target, e) && Covers(p, e.ino, k)
  {
    var ps := PiecesFor(m, target, e);
    var p := ps[if |ps| == 2 && ps[1].start <= k then 1 else 0];
    assert Covers(p, e.ino, k);
  }

  /** Pieces of two entries that are apart are apart, and in the same order. */
  lemma PiecesOfTwo(m: Remap, target: nat, p: Extent, a: Extent, q: Extent, b: Extent)
    requires WellFormed(a) && WellFormed(b) && PieceOf(m, target, p, a) && PieceOf(m, target, q, b)
    requires Apart(a, b)
    ensures Apart(p, q)
    ensures a.ino == b.ino && a.end <= b.start ==> p.end <= q.start
  {
    if a.ino == b.ino {
      var pl, qf := SourceFor(m, target, a.ino, p.end - 1), SourceFor(m, target, a.ino, q.start);
      var ql, pf := SourceFor(m, target, a.ino, q.end - 1), SourceFor(m, target, a.ino, p.start);
      if a.ino == target {
        SourceMonotone(m, p.end - 1, q.start);
        SourceMonotone(m, q.end - 1, p.start);
      }
    }
  }

  function Flatten(m: Remap, target: nat, es: seq<Extent>): (r: seq<Extent>) {
    if es == [] then []
    else Flatten(m, target, es[..|es| - 1]) + PiecesFor(m, target, es[|es| - 1])
  }

  lemma {:induction false} FlattenOrigin(m: Remap, target: nat, es: seq<Extent>, p: Extent) returns (i: nat)
    requires Laid(es) && Sensible(m) && p in Flatten(m, target, es)
    ensures i < |es| && p in PiecesFor(m, target, es[i]) && PieceOf(m, target, p, es[i])
  {
    var n := |es| - 1;
    if p in PiecesFor(m, target, es[n]) {
      assert es[n] in es;
      PiecesAreParts(m, target, es[n]);
      i := n;
    } else {
      LaidPrefix(es, n);
      i := FlattenOrigin(m, target, es[..n], p);
    }
  }

  lemma {:induction false} FlattenHasPieces(m: Remap, target: nat, es: seq<Extent>, i: nat)
    requires Laid(es) && Sensible(m) && i < |es|
    ensures forall p :: p in PiecesFor(m, target, es[i]) ==> p in Flatten(m, target, es)
  {
    var n := |es| - 1;
    if i < n {
      LaidPrefix(es, n);
      FlattenHasPieces(m, target, es[..n], i);
    }
  }

  lemma {:induction false} FlattenLaid(m: Remap, target: nat, es: seq<Extent>)
    requires Laid(es) && Sensible(m)
    ensures Laid(Flatten(m, target, es))
  {
    if es != [] {
      var n := |es| - 1;
      var e, f, ps := es[n], Flatten(m, target, es[..n]), PiecesFor(m, target, es[n]);
      LaidPrefix(es, n);
      FlattenLaid(m, target, es[..n]);
      assert e in es;
      PiecesAreParts(m, target, e);
      PiecesAreApart(m, target, e);
      forall x, p | x in f && p in ps ensures Apart(x, p) {
        var i := FlattenOrigin(m, target, es[..n], x);
        assert Apart(es[i], es[n]) && es[i] in es;
        PiecesOfTwo(m, target, x, es[i], p, e);
      }
      AppendPieces(f, ps);
    }
  }

  lemma AppendPieces(f: seq<Extent>, ps: seq<Extent>)
    requires Laid(f) && |ps| <= 2 && (|ps| == 2 ==> Apart(ps[0], ps[1]))
    requires forall p :: p in ps ==> WellFormed(p) && forall x :: x in f ==> Apart(x, p)
    ensures Laid(f + ps)
  {
    if |ps| == 0 {
      assert f + ps == f;
    } else {
      LaidAppend(f, ps[0]);
      if |ps| == 1 {
        assert f + ps == f + [ps[0]];
      } else {
        LaidAppend(f + [ps[0]], ps[1]);
        assert f + ps == f + [ps[0]] + [ps[1]];
      }
    }
  }

  /** The rebuilt vector maps each byte to what the remap's source was mapped to. */
  lemma FlattenMap(m: Remap, target: nat, es: seq<Extent>, ino: nat, k: nat)
    requires Laid(es) && Sensible(m)
    ensures At(Flatten(m, target, es), ino, k) == Moved(m, target, es, ino, k)
  {
    var f, j := Flatten(m, target, es), SourceFor(m, target, ino, k);
    FlattenLaid(m, target, es);
    if Mapped(f, ino, k) {
      var p :| p in f && Covers(p, ino, k);
      var i := FlattenOrigin(m, target, es, p);
      AtIs(f, p, k);
      AtIs(es, es[i], j.value);
    } else if j.Some? && Mapped(es, ino, j.value) {
      var e :| e in es && Covers(e, ino, j.value);
      var i :| 0 <= i < |es| && es[i] == e;
      PiecesAreAll(m, target, e, k);
      FlattenHasPieces(m, target, es, i);
      assert false;
    }
  }

  ghost function Moved(m: Remap, target: nat, es: seq<Extent>, ino: nat, k: nat): Cell {
    match SourceFor(m, target, ino, k)
    case None => Hole
    case Some(j) => At(es, ino, j)
  }

  predicate EndsIn(s: seq<Extent>, ino: nat) { s != [] && s[|s| - 1].ino == ino }

  lemma EndsInPiece(f: seq<Extent>, ps: seq<Extent>, ino: nat)
    requires ps != [] && forall p :: p in ps ==> p.ino == ino
    ensures EndsIn(f + ps, ino)
  {
    assert ps[|ps| - 1] in ps && (f + ps)[|f + ps| - 1] == ps[|ps| - 1];
  }

  lemma PiecesInFile(m: Remap, target: nat, e: Extent)
    requires WellFormed(e) && Sensible(m)
    ensures forall p :: p in PiecesFor(m, target, e) ==> p.ino == e.ino
  {
    PiecesAreParts(m, target, e);
  }

  lemma SameFileBehind(es: seq<Extent>, i: nat)
    requires Laid(es) && Ordered(es) && i < |es| && es[i].ino == es[|es| - 1].ino
    ensures forall j :: i <= j < |es| ==> es[j].ino == es[i].ino && WellFormed(es[j])
  {
    forall j | i <= j < |es| ensures es[j].ino == es[i].ino && WellFormed(es[j]) {
      assert es[j] in es;
    }
  }

  lemma FlattenEnd(m: Remap, target: nat, es: seq<Extent>, ino: nat)
    requires Sensible(m) && es != [] && WellFormed(es[|es| - 1]) && es[|es| - 1].ino == ino
    requires PiecesFor(m, target, es[|es| - 1]) != [] || EndsIn(Flatten(m, target, es[..|es| - 1]), ino)
    ensures EndsIn(Flatten(m, target, es), ino)
  {
    var n := |es| - 1;
    var f, ps := Flatten(m, target, es[..n]), PiecesFor(m, target, es[n]);
    if ps == [] {
      assert f + ps == f;
    } else {
      PiecesInFile(m, target, es[n]);
      EndsInPiece(f, ps, ino);
    }
  }

  /** If an entry has a piece and all entries behind it are of its file, the last piece is of its file. */
  lemma {:induction false} FlattenLast(m: Remap, target: nat, es: seq<Extent>, ino: nat, i: nat)
    requires Sensible(m) && i < |es| && PiecesFor(m, target, es[i]) != []
    requires forall j :: i <= j < |es| ==> es[j].ino == ino && WellFormed(es[j])
    ensures EndsIn(Flatten(m, target, es), ino)
  {
    if i < |es| - 1 {
      FlattenLast(m, target, es[..|es| - 1], ino, i);
    }
    FlattenEnd(m, target, es, ino);
  }

  lemma {:induction false} FlattenOrdered(m: Remap, target: nat, es: seq<Extent>)
    requires Laid(es) && Ordered(es) && Sensible(m)
    ensures Ordered(Flatten(m, target, es))
  {
    if es != [] {
      var n := |es| - 1;
      var f, ps := Flatten(m, target, es[..n]), PiecesFor(m, target, es[n]);
      LaidPrefix(es, n);
      OrderedPrefix(es, n);
      FlattenOrdered(m, target, es[..n]);
      PiecesAreApart(m, target, es[n]);
      if |ps| == 0 {
        assert f + ps == f;
      } else {
        FlattenOrderedNext(m, target, es);
        if |ps| == 1 {
          assert f + ps == f + [ps[0]];
        } else {
          var g := f + [ps[0]];
          forall x | x in g && x.ino == ps[1].ino ensures x.end <= ps[1].start && g[|g| - 1].ino == ps[1].ino {
            FlattenBefore(m, target, es, ps[1]);
          }
          OrderedAppend(g, ps[1]);
          assert f + ps == g + [ps[1]];
        }
      }
    }
  }

  lemma FlattenBefore(m: Remap, target: nat, es: seq<Extent>, p: Extent)
    requires Laid(es) && Ordered(es) && Sensible(m) && es != [] && p in PiecesFor(m, target, es[|es| - 1])
    ensures Laid(es[..|es| - 1])
    ensures forall x :: x in Flatten(m, target, es[..|es| - 1]) && x.ino == p.ino ==> x.end <= p.start
  {
    var n := |es| - 1;
    LaidPrefix(es, n);
    assert es[n] in es;
    PiecesAreParts(m, target, es[n]);
    forall x | x in Flatten(m, target, es[..n]) && x.ino == p.ino ensures x.end <= p.start {
      var i := FlattenOrigin(m, target, es[..n], x);
      assert Apart(es[i], es[n]) && es[i] in es;
      PiecesOfTwo(m, target, x, es[i], p, es[n]);
    }
  }

  /** If the file of the entry to come has a piece already, it has the last piece. */
  lemma LastOfFile(m: Remap, target: nat, es: seq<Extent>, x: Extent)
    requires Laid(es) && Ordered(es) && Sensible(m) && es != [] && Laid(es[..|es| - 1])
    requires x in Flatten(m, target, es[..|es| - 1]) && x.ino == es[|es| - 1].ino
    ensures EndsIn(Flatten(m, target, es[..|es| - 1]), x.ino)
  {
    var n := |es| - 1;
    var i := FlattenOrigin(m, target, es[..n], x);
    SameFileBehind(es, i);
    assert es[..n][i] == es[i] && PiecesFor(m, target, es[i]) != [];
    FlattenLast(m, target, es[..n], x.ino, i);
  }

  lemma FlattenOrderedNext(m: Remap, target: nat, es: seq<Extent>)
    requires Laid(es) && Ordered(es) && Sensible(m) && es != [] && PiecesFor(m, target, es[|es| - 1]) != []
    requires Laid(es[..|es| - 1]) && Ordered(Flatten(m, target, es[..|es| - 1]))
    ensures Ordered(Flatten(m, target, es[..|es| - 1]) + [PiecesFor(m, target, es[|es| - 1])[0]])
  {
    var n := |es| - 1;
    var f, p := Flatten(m, target, es[..n]), PiecesFor(m, target, es[n])[0];
    FlattenBefore(m, target, es, p);
    assert es[n] in es;
    PiecesAreParts(m, target, es[n]);
    forall x | x in f && x.ino == p.ino ensures f[|f| - 1].ino == p.ino {
      LastOfFile(m, target, es, x);
    }
    OrderedAppend(f, p);
  }
}
