/** Rebuilding the write buffer under a remap: every entry is cut into pieces and pushed again. */
module BufferOps {
  import opened Common
  import opened Remaps
  import opened WriteBuffer

  function PushList(out: seq<Staged>, ps: seq<Staged>): (r: seq<Staged>)
    requires |ps| <= 2
  {
    if |ps| == 0 then out
    else if |ps| == 1 then PushEntry(out, ps[0])
    else PushEntry(PushEntry(out, ps[0]), ps[1])
  }

  function Rebuild(m: Remap, target: nat, buf: seq<Staged>): (r: seq<Staged>) {
    if buf == [] then []
    else PushList(Rebuild(m, target, buf[..|buf| - 1]), PiecesFor(m, target, buf[|buf| - 1]))
  }

  lemma PiecesStaged(m: Remap, target: nat, e: Staged)
    requires WellStaged(e) && Sensible(m)
    ensures var ps := PiecesFor(m, target, e);
            && (|ps| >= 1 ==> PieceOf(m, target, ps[0], e))
            && (|ps| == 2 ==> PieceOf(m, target, ps[1], e) && Disjoint(ps[0], ps[1]))
  {
    var ps := PiecesFor(m, target, e);
    PiecesAreParts(m, target, e);
    PiecesAreApart(m, target, e);
    assert |ps| >= 1 ==> ps[0] in ps;
    assert |ps| == 2 ==> ps[1] in ps;
  }

  ghost function AfterEntry(m: Remap, target: nat, out: seq<Staged>, e: Staged, ino: nat, k: nat): Option<Mark> {
    var j := SourceFor(m, target, ino, k);
    if j.Some? && Holds(e, ino, j.value) then Some(MarkOf(e, j.value)) else Overlay(out, ino, k)
  }

  /** The overlay of one more entry, cut up and pushed. */
  lemma PushPieces(m: Remap, target: nat, out: seq<Staged>, e: Staged, ino: nat, k: nat)
    requires AllStaged(out) && WellStaged(e) && Sensible(m)
    ensures AllStaged(PushList(out, PiecesFor(m, target, e)))
    ensures Overlay(PushList(out, PiecesFor(m, target, e)), ino, k) == AfterEntry(m, target, out, e, ino, k)
  {
    var ps := PiecesFor(m, target, e);
    PieceMarks(m, target, ps, e, ino, k);
    PushListOverlay(out, ps, ino, k);
  }

  /** A byte is in one of the pieces exactly if its source is in the entry, and is marked the same. */
  lemma PieceMarks(m: Remap, target: nat, ps: seq<Staged>, e: Staged, ino: nat, k: nat)
    requires WellStaged(e) && Sensible(m) && ps == PiecesFor(m, target, e)
    ensures forall n :: 0 <= n < |ps| ==> WellStaged(ps[n])
    ensures var j := SourceFor(m, target, ino, k);
            && ((exists n :: 0 <= n < |ps| && Holds(ps[n], ino, k)) <==> j.Some? && Holds(e, ino, j.value))
            && (forall n :: 0 <= n < |ps| && Holds(ps[n], ino, k) ==> MarkOf(ps[n], k) == MarkOf(e, j.value))
  {
    var j := SourceFor(m, target, ino, k);
    PiecesAreParts(m, target, e);
    assert forall n :: 0 <= n < |ps| ==> ps[n] in ps && PieceOf(m, target, ps[n], e);
    if j.Some? && Holds(e, ino, j.value) {
      PiecesAreAll(m, target, e, k);
      var p :| p in ps && Holds(p, ino, k);
    }
  }

  lemma PushListOverlay(out: seq<Staged>, ps: seq<Staged>, ino: nat, k: nat)
    requires AllStaged(out) && |ps| <= 2 && forall n :: 0 <= n < |ps| ==> WellStaged(ps[n])
    ensures AllStaged(PushList(out, ps))
    ensures Overlay(PushList(out, ps), ino, k) ==
            if |ps| == 2 && Holds(ps[1], ino, k) then Some(MarkOf(ps[1], k))
            else if |ps| > 0 && Holds(ps[0], ino, k) then Some(MarkOf(ps[0], k)) else Overlay(out, ino, k)
  {
    if |ps| > 0 {
      PushOverlay(out, ps[0], ino, k);
      if |ps| == 2 {
        PushOverlay(PushEntry(out, ps[0]), ps[1], ino, k);
      }
    }
  }

  ghost function MovedOverlay(m: Remap, target: nat, buf: seq<Staged>, ino: nat, k: nat): Option<Mark> {
    match SourceFor(m, target, ino, k)
    case None => None
    case Some(j) => Overlay(buf, ino, j)
  }

  /** The rebuilt buffer overlays each byte with what the remap's source was overlaid with. */
  lemma {:induction false} RebuildOverlay(m: Remap, target: nat, buf: seq<Staged>)
    requires AllStaged(buf) && Sensible(m)
    ensures AllStaged(Rebuild(m, target, buf))
    ensures forall ino, k :: Overlay(Rebuild(m, target, buf), ino, k) == MovedOverlay(m, target, buf, ino, k)
  {
    if buf != [] {
      var n := |buf| - 1;
      var e, out := buf[n], Rebuild(m, target, buf[..n]);
      assert e in buf;
      RebuildOverlay(m, target, buf[..n]);
      PushPieces(m, target, out, e, 0, 0);
      forall ino, k ensures Overlay(Rebuild(m, target, buf), ino, k) == MovedOverlay(m, target, buf, ino, k) {
        PushPieces(m, target, out, e, ino, k);
        assert Overlay(out, ino, k) == MovedOverlay(m, target, buf[..n], ino, k);
      }
    }
  }

  /** Pieces of an entry that keeps clear of the buffer keep clear of the rebuilt buffer. */
  lemma {:induction false} RebuildClear(m: Remap, target: nat, buf: seq<Staged>, p: Staged, e: Staged)
    requires AllStaged(buf) && Sensible(m) && WellStaged(e) && PieceOf(m, target, p, e)
    requires forall x :: x in buf ==> Disjoint(x, e)
    ensures forall x :: x in Rebuild(m, target, buf) ==> Disjoint(x, p)
  {
    if buf != [] {
      var n := |buf| - 1;
      var b, out := buf[n], Rebuild(m, target, buf[..n]);
      var ps := PiecesFor(m, target, b);
      assert b in buf;
      PiecesStaged(m, target, b);
      RebuildClear(m, target, buf[..n], p, e);
      RebuildOverlay(m, target, buf[..n]);
      if |ps| >= 1 {
        PiecesOfTwo(m, target, ps[0], b, p, e);
        PushKeepsClear(out, ps[0], p);
        if |ps| == 2 {
          PiecesOfTwo(m, target, ps[1], b, p, e);
          PushShape(out, ps[0]);
          PushKeepsClear(PushEntry(out, ps[0]), ps[1], p);
        }
      }
    }
  }

  lemma {:induction false} RebuildDisjoint(m: Remap, target: nat, buf: seq<Staged>)
    requires AllStaged(buf) && Sensible(m) && AllDisjoint(buf)
    ensures AllDisjoint(Rebuild(m, target, buf))
  {
    if buf != [] {
      var n := |buf| - 1;
      var out, e := Rebuild(m, target, buf[..n]), buf[n];
      var ps := PiecesFor(m, target, e);
      assert e in buf;
      PiecesStaged(m, target, e);
      RebuildDisjoint(m, target, buf[..n]);
      RebuildOverlay(m, target, buf[..n]);
      DisjointPrefix(buf, n);
      if |ps| >= 1 {
        RebuildClear(m, target, buf[..n], ps[0], e);
        DisjointAppend(out, ps[0]);
        PushDisjoint(out, ps[0]);
        if |ps| == 2 {
          var mid := PushEntry(out, ps[0]);
          RebuildClear(m, target, buf[..n], ps[1], e);
          PushKeepsClear(out, ps[0], ps[1]);
          PushShape(out, ps[0]);
          DisjointAppend(mid, ps[1]);
          PushDisjoint(mid, ps[1]);
        }
      }
    }
  }

  lemma DisjointAppend(buf: seq<Staged>, e: Staged)
    requires AllDisjoint(buf) && forall x :: x in buf ==> Disjoint(x, e)
    ensures AllDisjoint(buf + [e])
  {
  }

  lemma DisjointPrefix(buf: seq<Staged>, n: nat)
    requires AllDisjoint(buf) && n <= |buf|
    ensures AllDisjoint(buf[..n]) && (n < |buf| ==> forall x :: x in buf[..n] ==> Disjoint(x, buf[n]))
  {
  }

  lemma RoomForEntry(buf: seq<Staged>, e: Staged)
    requires AllStaged(buf) && AllDisjoint(buf) && WellStaged(e)
    requires forall k :: e.offset <= k < End(e) ==> Overlay(buf, e.ino, k).None?
    ensures AllDisjoint(buf + [e])
  {
    forall x | x in buf ensures Disjoint(x, e) {
      if x.ino == e.ino && !(End(x) <= e.offset || End(e) <= x.offset) {
        var k := Max(x.offset, e.offset);
        assert Holds(x, e.ino, k);
        OverlayNone(buf, e.ino, k);
      }
    }
    DisjointAppend(buf, e);
  }

  /** `set_live_write_buffer_range`: cut the range out, then push the new entry. */
  function Stage(buf: seq<Staged>, e: Staged): seq<Staged> {
    PushEntry(Rebuild(Punch(e.offset, End(e)), e.ino, buf), e)
  }

  lemma StageKeeps(buf: seq<Staged>, e: Staged)
    requires AllStaged(buf) && AllDisjoint(buf) && WellStaged(e)
    ensures AllStaged(Stage(buf, e)) && AllDisjoint(Stage(buf, e))
    ensures forall ino, k ::
              Overlay(Stage(buf, e), ino, k) == if Holds(e, ino, k) then Some(MarkOf(e, k)) else Overlay(buf, ino, k)
  {
    var m := Punch(e.offset, End(e));
    var c := Rebuild(m, e.ino, buf);
    RebuildOverlay(m, e.ino, buf);
    RebuildDisjoint(m, e.ino, buf);
    forall k | e.offset <= k < End(e) ensures Overlay(c, e.ino, k).None? {
      assert MovedOverlay(m, e.ino, buf, e.ino, k).None?;
    }
    RoomForEntry(c, e);
    PushShape(c, e);
    PushDisjoint(c, e);
    forall ino, k
      ensures Overlay(Stage(buf, e), ino, k) == if Holds(e, ino, k) then Some(MarkOf(e, k)) else Overlay(buf, ino, k) {
      PushOverlay(c, e, ino, k);
      assert Overlay(c, ino, k) == MovedOverlay(m, e.ino, buf, ino, k);
    }
  }

  /** Taking one entry out of a buffer without overlaps uncovers exactly its bytes. */
  lemma DropEntry(front: seq<Staged>, e: Staged, rest: seq<Staged>, ino: nat, k: nat)
    requires AllStaged(front + [e] + rest) && AllDisjoint(front + [e] + rest)
    ensures AllStaged(front + rest) && AllDisjoint(front + rest)
    ensures Overlay(front + [e] + rest, ino, k)
              == if Holds(e, ino, k) then Some(MarkOf(e, k)) else Overlay(front + rest, ino, k)
    ensures Holds(e, ino, k) ==> Overlay(front + rest, ino, k).None?
  {
    var all, less := front + [e] + rest, front + rest;
    assert all[|front|] == e;
    assert forall i :: 0 <= i < |less| ==> less[i] == all[if i < |front| then i else i + 1];
    assert forall x :: x in less ==> x in all;
    if Holds(e, ino, k) {
      OverlayIs(all, |front|, k);
      forall x | x in less ensures !Holds(x, ino, k) {
        var i :| 0 <= i < |less| && less[i] == x;
        if i < |front| { assert Disjoint(all[i], all[|front|]); } else { assert Disjoint(all[|front|], all[i + 1]); }
      }
      OverlayNone(less, ino, k);
    } else {
      OverlaySkip(front, e, rest, ino, k);
    }
  }

  lemma {:induction false} OverlaySkip(front: seq<Staged>, e: Staged, rest: seq<Staged>, ino: nat, k: nat)
    requires !Holds(e, ino, k)
    ensures Overlay(front + [e] + rest, ino, k) == Overlay(front + rest, ino, k)
    decreases |rest|
  {
    if rest == [] {
      assert front + [e] + rest == front + [e] && front + rest == front && (front + [e])[..|front|] == front;
    } else {
      var n := |rest| - 1;
      assert (front + [e] + rest)[..|front| + 1 + n] == front + [e] + rest[..n];
      assert (front + rest)[..|front| + n] == front + rest[..n];
      OverlaySkip(front, e, rest[..n], ino, k);
    }
  }

  /** `retain` on everything but one file's entries. */
  function Without(buf: seq<Staged>, ino: nat): seq<Staged> {
    if buf == [] then []
    else
      var rest, e := Without(buf[..|buf| - 1], ino), buf[|buf| - 1];
      if e.ino == ino then rest else rest + [e]
  }

  lemma {:induction false} WithoutOf(buf: seq<Staged>, ino: nat)
    ensures forall e :: e in Without(buf, ino) <==> e in buf && e.ino != ino
  {
    if buf != [] {
      var n := |buf| - 1;
      WithoutOf(buf[..n], ino);
      assert buf == buf[..n] + [buf[n]];
    }
  }

  lemma {:induction false} WithoutKeeps(buf: seq<Staged>, ino: nat)
    requires AllStaged(buf) && AllDisjoint(buf)
    ensures AllStaged(Without(buf, ino)) && AllDisjoint(Without(buf, ino))
              && forall x :: x in Without(buf, ino) ==> x in buf
    ensures forall i, k :: Overlay(Without(buf, ino), i, k) == if i == ino then None else Overlay(buf, i, k)
  {
    if buf != [] {
      var n := |buf| - 1;
      var rest, e := Without(buf[..n], ino), buf[n];
      assert e in buf;
      DisjointPrefix(buf, n);
      WithoutKeeps(buf[..n], ino);
      if e.ino != ino {
        DisjointAppend(rest, e);
        assert (rest + [e])[..|rest|] == rest;
      }
    }
  }

  // ---------- ends past the 64-bit range ----------

  /** Every staged entry ends inside the 64-bit range. */
  predicate EndsFit(buf: seq<Staged>) {
    forall e :: e in buf ==> End(e) <= U64_MAX
  }

  /** `push_write_buffer_entry` refuses `q` behind `p`: it needs the end of `p` to see whether the two merge. */
  predicate Clogs(p: Staged, q: Staged) {
    p.ino == q.ino && p.zero == q.zero && End(p) > U64_MAX
  }

  predicate Flows(ps: seq<Staged>) {
    forall n :: 0 < n < |ps| ==> !Clogs(ps[n - 1], ps[n])
  }

  /** The pieces of all entries, in the order in which they are pushed. */
  function Cut(m: Remap, target: nat, buf: seq<Staged>): seq<Staged> {
    if buf == [] then [] else Cut(m, target, buf[..|buf| - 1]) + PiecesFor(m, target, buf[|buf| - 1])
  }

  /** The additions checked for one entry: its end, except by truncate, and its offset moved up by insert. */
  predicate EntryFits(m: Remap, target: nat, e: Staged) {
    && (m.Truncate? || End(e) <= U64_MAX)
    && (m.Insert? && e.ino == target && m.lo <= e.offset ==> e.offset + m.len <= U64_MAX)
  }

  /** The rebuild meets no addition that leaves the 64-bit range. */
  predicate Fits(m: Remap, target: nat, buf: seq<Staged>) {
    (forall e :: e in buf ==> EntryFits(m, target, e)) && Flows(Cut(m, target, buf))
  }

  predicate CanPush(out: seq<Staged>, p: Staged) {
    out == [] || !Clogs(out[|out| - 1], p)
  }

  /** The last entry of the rebuilt buffer stands for the last piece. */
  ghost predicate SameLast(out: seq<Staged>, ps: seq<Staged>) {
    && (out == [] <==> ps == [])
    && (out != [] ==> var a, b := out[|out| - 1], ps[|ps| - 1]; a.ino == b.ino && a.zero == b.zero && End(a) == End(b))
  }

  lemma PushLast(out: seq<Staged>, p: Staged, ps: seq<Staged>)
    requires AllStaged(out) && WellStaged(p) && SameLast(out, ps) && Flows(ps)
    ensures AllStaged(PushEntry(out, p)) && SameLast(PushEntry(out, p), ps + [p])
    ensures Flows(ps + [p]) <==> CanPush(out, p)
  {
    PushShape(out, p);
    var all := ps + [p];
    if CanPush(out, p) {
      forall n | 0 < n < |all| ensures !Clogs(all[n - 1], all[n]) {
        if n < |ps| { assert all[n - 1] == ps[n - 1] && all[n] == ps[n]; }
      }
    } else {
      assert Clogs(all[|ps| - 1], all[|ps|]);
    }
  }

  /** The first `i` entries have been checked, cut and pushed. */
  ghost predicate SoFar(m: Remap, target: nat, buf: seq<Staged>, i: nat, out: seq<Staged>)
    requires i <= |buf|
  {
    && out == Rebuild(m, target, buf[..i]) && AllStaged(out)
    && (forall j :: 0 <= j < i ==> EntryFits(m, target, buf[j]))
    && Flows(Cut(m, target, buf[..i])) && SameLast(out, Cut(m, target, buf[..i]))
  }

  lemma OneMore(m: Remap, target: nat, buf: seq<Staged>, i: nat, out: seq<Staged>, next: seq<Staged>, ok: bool)
    requires i < |buf| && SoFar(m, target, buf, i, out) && EntryFits(m, target, buf[i])
    requires var ps := PiecesFor(m, target, buf[i]);
             && (ok <==> Flows(Cut(m, target, buf[..i]) + ps))
             && (ok ==> next == PushList(out, ps) && AllStaged(next) && SameLast(next, Cut(m, target, buf[..i]) + ps))
    ensures if ok then SoFar(m, target, buf, i + 1, next) else !Fits(m, target, buf)
  {
    RebuildStep(m, target, buf, i);
    if !ok && Flows(Cut(m, target, buf)) {
      CutPrefix(m, target, buf, i + 1);
    }
  }

  lemma RebuildStep(m: Remap, target: nat, buf: seq<Staged>, i: nat)
    requires i < |buf|
    ensures Rebuild(m, target, buf[..i + 1]) == PushList(Rebuild(m, target, buf[..i]), PiecesFor(m, target, buf[i]))
    ensures Cut(m, target, buf[..i + 1]) == Cut(m, target, buf[..i]) + PiecesFor(m, target, buf[i])
  {
    assert buf[..i + 1][..i] == buf[..i];
  }

  lemma AllSoFar(m: Remap, target: nat, buf: seq<Staged>, out: seq<Staged>)
    requires SoFar(m, target, buf, |buf|, out)
    ensures out == Rebuild(m, target, buf) && Fits(m, target, buf)
  {
    assert buf[..|buf|] == buf;
  }

  lemma FlowsPrefix(ps: seq<Staged>, qs: seq<Staged>)
    requires Flows(ps + qs)
    ensures Flows(ps)
  {
    forall n | 0 < n < |ps| ensures !Clogs(ps[n - 1], ps[n]) {
      assert (ps + qs)[n - 1] == ps[n - 1] && (ps + qs)[n] == ps[n];
    }
  }

  lemma {:induction false} CutPrefix(m: Remap, target: nat, buf: seq<Staged>, i: nat)
    requires i <= |buf| && Flows(Cut(m, target, buf))
    ensures Flows(Cut(m, target, buf[..i]))
    decreases |buf|
  {
    if i == |buf| {
      assert buf[..i] == buf;
    } else {
      var n := |buf| - 1;
      FlowsPrefix(Cut(m, target, buf[..n]), PiecesFor(m, target, buf[n]));
      CutPrefix(m, target, buf[..n], i);
      assert buf[..n][..i] == buf[..i];
    }
  }

  ghost predicate NothingBeyond(buf: seq<Staged>) {
    forall i: nat, k: nat :: Overlay(buf, i, k).Some? ==> k < U64_MAX
  }

  /** An entry ends past the range exactly if some byte past the range is overlaid. */
  lemma EndsByOverlay(buf: seq<Staged>)
    requires AllStaged(buf)
    ensures EndsFit(buf) <==> NothingBeyond(buf)
  {
    if EndsFit(buf) {
      forall i: nat, k: nat | Overlay(buf, i, k).Some? ensures k < U64_MAX { OverlayNone(buf, i, k); }
    }
    if NothingBeyond(buf) {
      forall e | e in buf ensures End(e) <= U64_MAX { LastByteOverlaid(buf, e); }
    }
  }

  lemma LastByteOverlaid(buf: seq<Staged>, e: Staged)
    requires AllStaged(buf) && e in buf
    ensures e.len > 0 && Overlay(buf, e.ino, End(e) - 1).Some?
  {
    assert WellStaged(e) && Holds(e, e.ino, End(e) - 1);
    OverlayNone(buf, e.ino, End(e) - 1);
  }

  /** No entry of the file that an insert moves is moved past the range. */
  predicate RoomAbove(buf: seq<Staged>, target: nat, lo: nat, len: nat) {
    forall e :: e in buf && e.ino == target && lo < End(e) ==> End(e) + len <= U64_MAX
  }

  lemma PiecesEnd(m: Remap, target: nat, e: Staged)
    requires WellStaged(e) && Sensible(m) && End(e) <= U64_MAX
    requires m.Insert? && e.ino == target && m.lo < End(e) ==> End(e) + m.len <= U64_MAX
    ensures EndsFit(PiecesFor(m, target, e))
  {
  }

  lemma {:induction false} CutEnds(m: Remap, target: nat, buf: seq<Staged>)
    requires AllStaged(buf) && Sensible(m) && EndsFit(buf) && (m.Insert? ==> RoomAbove(buf, target, m.lo, m.len))
    ensures EndsFit(Cut(m, target, buf))
  {
    if buf != [] {
      var n := |buf| - 1;
      assert buf[n] in buf && WellStaged(buf[n]);
      PiecesEnd(m, target, buf[n]);
      CutEnds(m, target, buf[..n]);
    }
  }

  /** As long as nothing ends past the range, the only operation that can fail is an insert that would move something
      there. */
  lemma FitsWithin(m: Remap, target: nat, buf: seq<Staged>)
    requires AllStaged(buf) && Sensible(m) && EndsFit(buf) && (m.Insert? ==> RoomAbove(buf, target, m.lo, m.len))
    ensures Fits(m, target, buf) && EndsFit(Rebuild(m, target, buf))
  {
    var ps := Cut(m, target, buf);
    CutEnds(m, target, buf);
    forall n | 0 < n < |ps| ensures !Clogs(ps[n - 1], ps[n]) {
      assert ps[n - 1] in ps;
    }
    RebuildEnds(m, target, buf);
  }

  lemma FitsIff(m: Remap, target: nat, buf: seq<Staged>)
    requires AllStaged(buf) && Sensible(m) && !m.Truncate?
    ensures Fits(m, target, buf) ==> EndsFit(buf)
    ensures EndsFit(buf) && (m.Insert? ==> RoomAbove(buf, target, m.lo, m.len)) ==> Fits(m, target, buf)
  {
    if EndsFit(buf) && (m.Insert? ==> RoomAbove(buf, target, m.lo, m.len)) {
      FitsWithin(m, target, buf);
    } else if Fits(m, target, buf) {
      assert forall e :: e in buf ==> EntryFits(m, target, e);
    }
  }

  lemma RebuildEnds(m: Remap, target: nat, buf: seq<Staged>)
    requires AllStaged(buf) && Sensible(m) && EndsFit(buf) && (m.Insert? ==> RoomAbove(buf, target, m.lo, m.len))
    ensures EndsFit(Rebuild(m, target, buf))
  {
    RebuildOverlay(m, target, buf);
    forall i: nat, k: nat | Overlay(Rebuild(m, target, buf), i, k).Some? ensures k < U64_MAX {
      OverlayNone(buf, i, SourceFor(m, target, i, k).value);
    }
    EndsByOverlay(Rebuild(m, target, buf));
  }

  /** An insert leaves an entry past the range exactly if it moves one there. */
  lemma InsertEndsIff(target: nat, buf: seq<Staged>, lo: nat, len: nat)
    requires AllStaged(buf) && EndsFit(buf)
    ensures EndsFit(Rebuild(Insert(lo, len), target, buf)) <==> RoomAbove(buf, target, lo, len)
  {
    var m := Insert(lo, len);
    RebuildOverlay(m, target, buf);
    if RoomAbove(buf, target, lo, len) {
      RebuildEnds(m, target, buf);
    }
    if EndsFit(Rebuild(m, target, buf)) {
      MovedUp(target, buf, Rebuild(m, target, buf), lo, len);
    }
  }

  lemma MovedUp(target: nat, buf: seq<Staged>, now: seq<Staged>, lo: nat, len: nat)
    requires AllStaged(buf) && AllStaged(now) && EndsFit(now)
    requires forall i, k :: Overlay(now, i, k) == MovedOverlay(Insert(lo, len), target, buf, i, k)
    ensures RoomAbove(buf, target, lo, len)
  {
    EndsByOverlay(now);
    forall e | e in buf && e.ino == target && lo < End(e) ensures End(e) + len <= U64_MAX {
      LastByteOverlaid(buf, e);
      assert SourceFor(Insert(lo, len), target, target, End(e) - 1 + len) == Some(End(e) - 1);
      assert Overlay(now, target, End(e) - 1 + len).Some?;
    }
  }

  lemma StageEnds(buf: seq<Staged>, e: Staged)
    requires AllStaged(buf) && AllDisjoint(buf) && WellStaged(e) && EndsFit(buf) && End(e) <= U64_MAX
    ensures Fits(Punch(e.offset, End(e)), e.ino, buf) && EndsFit(Stage(buf, e))
  {
    FitsWithin(Punch(e.offset, End(e)), e.ino, buf);
    StageKeeps(buf, e);
    EndsByOverlay(buf);
    EndsByOverlay(Stage(buf, e));
  }
}
