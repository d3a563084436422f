/** One whole update of the extent vector: cut the entries of a file, push what is new, sort, and
    recompute the allocator tail. */
module ExtentUpdate {
  import opened Common
  import opened Remaps
  import opened Extents
  import opened ExtentOps
  import opened ExtentSort

  const LIVE_BLOCK: nat := 4096

  /** Every DATA extent, up to its reserved end, is below `tail`. */
  ghost predicate BelowTail(es: seq<Extent>, tail: nat) {
    forall e :: e in es && e.kind.Data? ==> e.reserved <= tail
  }

  /** `align_up_to_live_block` */
  function AlignUp(value: nat): (r: nat)
    ensures value <= r < value + LIVE_BLOCK && r % LIVE_BLOCK == 0
    ensures value % LIVE_BLOCK == 0 ==> r == value
  {
    if value % LIVE_BLOCK == 0 then value else value + (LIVE_BLOCK - value % LIVE_BLOCK)
  }

  lemma AlignedBound(value: nat, bound: nat)
    requires value <= bound && bound % LIVE_BLOCK == 0
    ensures AlignUp(value) <= bound
  {
  }

  /** `reserved_extent_tail` */
  function EntryTail(e: Extent): nat {
    AlignUp(Max(e.phys + Monus(e.end, e.start), e.reserved))
  }

  /** `recompute_live_data_allocator_tail` */
  function TailOf(es: seq<Extent>): (tail: nat) {
    if es == [] then 0
    else
      var rest, e := TailOf(es[..|es| - 1]), es[|es| - 1];
      if e.kind.Data? then Max(rest, EntryTail(e)) else rest
  }

  /** The recomputed tail clears every extent, and never passes an aligned bound they all respect. */
  lemma {:induction false} TailIsLeast(es: seq<Extent>, bound: nat)
    requires forall e :: e in es ==> WellFormed(e)
    ensures BelowTail(es, TailOf(es)) && TailOf(es) % LIVE_BLOCK == 0
    ensures BelowTail(es, bound) && bound % LIVE_BLOCK == 0 ==> TailOf(es) <= bound
  {
    if es != [] {
      var n := |es| - 1;
      var e := es[n];
      assert es == es[..n] + [e] && e in es;
      TailIsLeast(es[..n], bound);
      if e.kind.Data? && BelowTail(es, bound) && bound % LIVE_BLOCK == 0 {
        AlignedBound(e.reserved, bound);
      }
    }
  }

  lemma TailsBelow(r: seq<Extent>, es: seq<Extent>, tail: nat)
    requires TailsFrom(r, es) && BelowTail(es, tail)
    ensures BelowTail(r, tail)
  {
    forall x | x in r && x.kind.Data? ensures x.reserved <= tail {
      var y :| y in es && SameTail(x, y);
    }
  }

  lemma FlattenBelow(m: Remap, target: nat, es: seq<Extent>, tail: nat)
    requires Laid(es) && Sensible(m) && BelowTail(es, tail)
    ensures BelowTail(Flatten(m, target, es), tail)
  {
    forall p | p in Flatten(m, target, es) && p.kind.Data? ensures p.reserved <= tail {
      var i := FlattenOrigin(m, target, es, p);
      assert es[i] in es;
    }
  }

  function Cut(es: seq<Extent>, m: Remap, target: nat): seq<Extent> {
    PushAll([], Flatten(m, target, es))
  }

  lemma CutKeeps(es: seq<Extent>, m: Remap, target: nat, tail: nat)
    requires Laid(es) && Ordered(es) && Sensible(m) && BelowTail(es, tail)
    ensures Laid(Cut(es, m, target)) && Ordered(Cut(es, m, target)) && Joined(Cut(es, m, target))
    ensures BelowTail(Cut(es, m, target), tail)
    ensures forall ino, k :: At(Cut(es, m, target), ino, k) == Moved(m, target, es, ino, k)
  {
    var f := Flatten(m, target, es);
    assert [] + f == f;
    FlattenLaid(m, target, es);
    FlattenOrdered(m, target, es);
    FlattenBelow(m, target, es, tail);
    PushAllKeeps([], f);
    PushAllOrdered([], f);
    PushAllTails([], f);
    PushAllSpaced([], f);
    SpacedIsJoined(Cut(es, m, target));
    TailsBelow(Cut(es, m, target), f, tail);
    forall ino, k ensures At(Cut(es, m, target), ino, k) == Moved(m, target, es, ino, k) {
      FlattenMap(m, target, es, ino, k);
    }
  }

  lemma {:induction false} PushAllOthers(out: seq<Extent>, es: seq<Extent>, ino: nat)
    requires forall e :: e in es ==> e.ino == ino
    ensures Others(PushAll(out, es), ino) == Others(out, ino)
    decreases |es|
  {
    if es != [] {
      var n := |es| - 1;
      assert es[n] in es;
      PushAllOthers(out, es[..n], ino);
      PushOthers(PushAll(out, es[..n]), es[n]);
    }
  }

  lemma PushOthers(out: seq<Extent>, e: Extent)
    ensures Others(Push(out, e), e.ino) == Others(out, e.ino)
  {
    var r := Push(out, e);
    if r == out + [e] {
      assert r[..|r| - 1] == out;
    } else if r != out {
      assert r[..|r| - 1] == out[..|out| - 1];
    }
  }

  /** What `n` new extents of one file, laid out with the others, leave after the sort. */
  lemma AddAndSort(es: seq<Extent>, added: seq<Extent>, ino: nat)
    requires Laid(es + added) && Ordered(es) && Joined(es) && forall e :: e in added ==> e.ino == ino
    ensures var r := SortFor(PushAll(es, added), ino);
            Laid(r) && Ordered(r) && Joined(r) && SameMap(r, es + added) && TailsFrom(r, es + added)
  {
    var mid := PushAll(es, added);
    PushAllKeeps(es, added);
    PushAllTails(es, added);
    PushAllOthers(es, added, ino);
    OthersOrdered(es, ino);
    OthersJoined(es, ino);
    SortKeeps(mid, ino);
    SortJoined(mid, ino);
    TailsTrans(SortFor(mid, ino), mid, es + added);
  }

  /** Everything an update guarantees: the invariant, what each byte now maps to, and the tail. */
  lemma CutAndSort(es: seq<Extent>, m: Remap, ino: nat, tail: nat)
    requires Laid(es) && Ordered(es) && Sensible(m) && BelowTail(es, tail) && tail % LIVE_BLOCK == 0
    ensures var r := SortFor(Cut(es, m, ino), ino);
            && Laid(r) && Ordered(r) && Joined(r)
            && BelowTail(r, TailOf(r)) && TailOf(r) % LIVE_BLOCK == 0 && TailOf(r) <= tail
            && forall i, k :: At(r, i, k) == Moved(m, ino, es, i, k)
  {
    var c := Cut(es, m, ino);
    var r := SortFor(c, ino);
    CutKeeps(es, m, ino, tail);
    OthersOrdered(c, ino);
    OthersJoined(c, ino);
    SortKeeps(c, ino);
    SortJoined(c, ino);
    TailsBelow(r, c, tail);
    TailIsLeast(r, tail);
    forall i, k ensures At(r, i, k) == Moved(m, ino, es, i, k) {
      assert At(r, i, k) == At(c, i, k);
    }
  }

  /** A hole has room for an extent of the same file that is physically clear of the others. */
  lemma RoomInHole(es: seq<Extent>, e: Extent)
    requires Laid(es) && WellFormed(e) && forall k :: e.start <= k < e.end ==> At(es, e.ino, k).Hole?
    requires e.kind.Data? ==> BelowTail(es, e.phys)
    ensures Laid(es + [e])
  {
    forall x | x in es ensures Apart(x, e) {
      if x.ino == e.ino && !(x.end <= e.start || e.end <= x.start) {
        AtIs(es, x, Max(x.start, e.start));
      }
    }
    LaidAppend(es, e);
  }

  /** Cutting [start, end) out of a file makes room there for a freshly allocated extent. */
  lemma CutLeavesRoom(es: seq<Extent>, e: Extent, tail: nat)
    requires Laid(es) && Ordered(es) && BelowTail(es, tail)
    requires WellFormed(e) && (e.kind.Data? ==> tail <= e.phys)
    ensures Laid(Cut(es, Punch(e.start, e.end), e.ino) + [e])
  {
    var m := Punch(e.start, e.end);
    CutKeeps(es, m, e.ino, tail);
    forall k | e.start <= k < e.end ensures At(Cut(es, m, e.ino), e.ino, k).Hole? {
      assert Moved(m, e.ino, es, e.ino, k).Hole?;
    }
    RoomInHole(Cut(es, m, e.ino), e);
  }

  function Placed(es: seq<Extent>, e: Extent): seq<Extent> {
    SortFor(Push(Cut(es, Punch(e.start, e.end), e.ino), e), e.ino)
  }

  ghost predicate PlacedMap(es: seq<Extent>, e: Extent, r: seq<Extent>) {
    forall i, k :: At(r, i, k) == if Covers(e, i, k) then CellOf(e, k) else At(es, i, k)
  }

  /** Adding one extent where there is room for it. */
  lemma PlaceInto(c: seq<Extent>, e: Extent, tail: nat)
    requires Laid(c + [e]) && Ordered(c) && Joined(c) && BelowTail(c, tail)
    ensures var r := SortFor(Push(c, e), e.ino);
            && Laid(r) && Ordered(r) && Joined(r) && SameMap(r, c + [e])
            && BelowTail(r, Max(tail, if e.kind.Data? then e.reserved else 0))
  {
    var r, bound := SortFor(Push(c, e), e.ino), Max(tail, if e.kind.Data? then e.reserved else 0);
    PushOne(c, e);
    AddAndSort(c, [e], e.ino);
    BelowWith(c, e, tail);
    TailsBelow(r, c + [e], bound);
  }

  lemma PushOne(c: seq<Extent>, e: Extent)
    ensures PushAll(c, [e]) == Push(c, e)
  {
    assert [e][..0] == [];
  }

  lemma BelowWith(c: seq<Extent>, e: Extent, tail: nat)
    requires BelowTail(c, tail)
    ensures BelowTail(c + [e], Max(tail, if e.kind.Data? then e.reserved else 0))
  {
  }

  lemma PlacedOver(es: seq<Extent>, e: Extent, c: seq<Extent>, r: seq<Extent>)
    requires Laid(c + [e]) && SameMap(r, c + [e])
    requires forall i, k :: At(c, i, k) == Moved(Punch(e.start, e.end), e.ino, es, i, k)
    ensures PlacedMap(es, e, r)
  {
    forall i, k ensures At(r, i, k) == if Covers(e, i, k) then CellOf(e, k) else At(es, i, k) {
      assert At(r, i, k) == At(c + [e], i, k);
      AtAppend(c, e, i, k);
      assert At(c, i, k) == Moved(Punch(e.start, e.end), e.ino, es, i, k);
    }
  }

  /** Replacing [start, end) of a file by one new extent. */
  lemma PlaceExtent(es: seq<Extent>, e: Extent, tail: nat)
    requires Laid(es) && Ordered(es) && BelowTail(es, tail)
    requires WellFormed(e) && (e.kind.Data? ==> tail <= e.phys)
    ensures Laid(Placed(es, e)) && Ordered(Placed(es, e)) && Joined(Placed(es, e)) && PlacedMap(es, e, Placed(es, e))
    ensures BelowTail(Placed(es, e), Max(tail, if e.kind.Data? then e.reserved else 0))
  {
    var c := Cut(es, Punch(e.start, e.end), e.ino);
    CutKeeps(es, Punch(e.start, e.end), e.ino, tail);
    CutLeavesRoom(es, e, tail);
    PlaceInto(c, e, tail);
    PlacedOver(es, e, c, Placed(es, e));
  }

  /** The vector with a batch of UNWRITTEN extents filled into the holes of [lo, hi). */
  ghost predicate FilledMap(es: seq<Extent>, ino: nat, lo: nat, hi: nat, r: seq<Extent>) {
    forall i, k :: At(r, i, k) == FilledCell(es, ino, lo, hi, i, k)
  }

  ghost function FilledCell(es: seq<Extent>, ino: nat, lo: nat, hi: nat, i: nat, k: nat): Cell {
    if i == ino && lo <= k < hi && At(es, i, k).Hole? then Preallocated else At(es, i, k)
  }

  lemma FilledFurther(es: seq<Extent>, ino: nat, lo: nat, from: nat, to: nat, r: seq<Extent>)
    requires lo <= from <= to && FilledMap(es, ino, lo, from, r)
    requires forall k :: from <= k < to ==> !At(es, ino, k).Hole?
    ensures FilledMap(es, ino, lo, to, r)
  {
    forall i, k ensures At(r, i, k) == FilledCell(es, ino, lo, to, i, k) {
      assert At(r, i, k) == FilledCell(es, ino, lo, from, i, k);
    }
  }

  lemma AddGap(es: seq<Extent>, gaps: seq<Extent>, ino: nat, lo: nat, from: nat, to: nat)
    requires Laid(es + gaps) && lo <= from < to && FilledMap(es, ino, lo, from, es + gaps)
    requires forall k :: from <= k < to ==> At(es, ino, k).Hole?
    ensures var g := Extent(ino, from, to, 0, 0, Unwritten);
            Laid(es + (gaps + [g])) && FilledMap(es, ino, lo, to, es + (gaps + [g]))
  {
    var g := Extent(ino, from, to, 0, 0, Unwritten);
    assert es + (gaps + [g]) == (es + gaps) + [g];
    RoomInHole(es + gaps, g);
    forall i, k ensures At(es + (gaps + [g]), i, k) == FilledCell(es, ino, lo, to, i, k) {
      AtAppend(es + gaps, g, i, k);
    }
  }

  lemma FillAndSort(es: seq<Extent>, gaps: seq<Extent>, ino: nat, lo: nat, hi: nat, tail: nat)
    requires Laid(es + gaps) && Ordered(es) && Joined(es) && BelowTail(es, tail) && tail % LIVE_BLOCK == 0
    requires forall g :: g in gaps ==> g.ino == ino && g.kind.Unwritten?
    requires FilledMap(es, ino, lo, hi, es + gaps)
    ensures var r := SortFor(PushAll(es, gaps), ino);
            && Laid(r) && Ordered(r) && Joined(r) && FilledMap(es, ino, lo, hi, r)
            && BelowTail(r, TailOf(r)) && TailOf(r) % LIVE_BLOCK == 0 && TailOf(r) <= tail
  {
    var r := SortFor(PushAll(es, gaps), ino);
    AddAndSort(es, gaps, ino);
    TailsBelow(r, es + gaps, tail);
    TailIsLeast(r, tail);
    forall i, k ensures At(r, i, k) == FilledCell(es, ino, lo, hi, i, k) {
      assert At(r, i, k) == At(es + gaps, i, k);
    }
  }
}
