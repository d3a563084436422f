/** SEEK_DATA and SEEK_HOLE: the data ranges of a file, and the two searches over them. */
module Seek {
  import opened Common
  import opened Extents
  import opened ExtentUpdate
  import opened Media
  import B = WriteBuffer
  import opened LiveData
  import R = Runs

  datatype Range = Range(start: nat, end: nat)

  ghost predicate InRanges(rs: seq<Range>, k: nat) {
    exists i :: 0 <= i < |rs| && rs[i].start <= k < rs[i].end
  }

  /** Non-empty, ascending ranges inside [lo, hi). */
  ghost predicate Ascending(rs: seq<Range>, lo: nat, hi: nat) {
    && (forall i :: 0 <= i < |rs| ==> lo <= rs[i].start < rs[i].end <= hi)
    && (forall i, j :: 0 <= i < j < |rs| ==> rs[i].end <= rs[j].start)
  }

  /** The inner scan of `live_data_ranges_for_inode`: the entry that comes first from `cursor` on. */
  method FirstEntry(e: LiveEngine, ino: nat, cursor: nat, end: nat) returns (best: Option<Extent>)
    requires e.ExtentsOk() && cursor < end
    ensures best.None? ==> forall k :: cursor <= k < end ==> At(e.extents, ino, k).Hole?
    ensures best.Some? ==>
              && best.value in e.extents && best.value.ino == ino && cursor < best.value.end && best.value.start < end
              && forall k :: cursor <= k < best.value.start ==> At(e.extents, ino, k).Hole?
  {
    best := None;
    var bestStart := end;
    for i := 0 to |e.extents|
      invariant bestStart <= end && (best.None? ==> bestStart == end)
      invariant best.Some? ==>
                  && best.value in e.extents && best.value.ino == ino
                  && cursor < best.value.end && best.value.start < end
                  && bestStart == Max(best.value.start, cursor)
      invariant forall j ::
                  0 <= j < i && e.extents[j].ino == ino && cursor < e.extents[j].end && e.extents[j].start < end ==>
                    bestStart <= Max(e.extents[j].start, cursor)
    {
      var x := e.extents[i];
      if x.ino == ino && cursor < x.end && x.start < end && Max(x.start, cursor) < bestStart {
        bestStart, best := Max(x.start, cursor), Some(x);
      }
    }
    forall k | cursor <= k < bestStart ensures At(e.extents, ino, k).Hole? {
      forall x | x in e.extents ensures !Covers(x, ino, k) {
        var j :| 0 <= j < |e.extents| && e.extents[j] == x;
      }
    }
  }

  /** `live_data_ranges_for_inode` */
  method DataRanges(e: LiveEngine, ino: nat, offset: nat, length: nat) returns (r: Result<seq<Range>>)
    requires e.Valid()
    ensures ino !in e.sizes ==> r == Err(ENOENT)
    ensures ino in e.sizes && offset + length <= U64_MAX ==> r.Ok?
    ensures r.Ok? ==> ino in e.sizes && Ascending(r.value, offset, Max(offset, Min(offset + length, e.sizes[ino])))
    ensures r.Ok? ==> forall k :: offset <= k < offset + length && k < e.sizes[ino] ==>
                                    (InRanges(r.value, k) <==> At(e.extents, ino, k).Stored?)
  {
    if ino !in e.sizes {
      return Err(ENOENT);
    }
    var size := e.sizes[ino];
    if length == 0 || offset >= size {
      return Ok([]);
    }
    if offset + length > U64_MAX {
      return Err(EFBIG);
    }
    var end, cursor, rs: seq<Range> := Min(offset + length, size), offset, [];
    while cursor < end
      invariant offset <= cursor <= end && Ascending(rs, offset, cursor)
      invariant forall k :: offset <= k < cursor ==> (InRanges(rs, k) <==> At(e.extents, ino, k).Stored?)
      decreases end - cursor
    {
      var best := FirstEntry(e, ino, cursor, end);
      if best.None? {
        NoMoreData(rs, e.extents, ino, offset, cursor, end);
        break;
      }
      var x := best.value;
      var logical, extentEnd := Max(x.start, cursor), Min(x.end, end);
      forall k | logical <= k < extentEnd ensures At(e.extents, ino, k) == CellOf(x, k) {
        AtIs(e.extents, x, k);
      }
      var more := if x.kind.Data? then rs + [Range(logical, extentEnd)] else rs;
      MoreRanges(rs, e.extents, ino, offset, cursor, logical, extentEnd, x.kind.Data?);
      rs, cursor := more, extentEnd;
    }
    return Ok(rs);
  }

  lemma NoMoreData(rs: seq<Range>, es: seq<Extent>, ino: nat, lo: nat, cursor: nat, end: nat)
    requires Ascending(rs, lo, cursor) && lo <= cursor <= end
    requires forall k :: lo <= k < cursor ==> (InRanges(rs, k) <==> At(es, ino, k).Stored?)
    requires forall k :: cursor <= k < end ==> At(es, ino, k).Hole?
    ensures forall k :: lo <= k < end ==> (InRanges(rs, k) <==> At(es, ino, k).Stored?)
  {
  }

  lemma MoreRanges(rs: seq<Range>, es: seq<Extent>, ino: nat, lo: nat, cursor: nat, from: nat, to: nat, data: bool)
    requires Ascending(rs, lo, cursor) && lo <= cursor <= from < to
    requires forall k :: lo <= k < cursor ==> (InRanges(rs, k) <==> At(es, ino, k).Stored?)
    requires forall k :: cursor <= k < from ==> At(es, ino, k).Hole?
    requires forall k :: from <= k < to ==> At(es, ino, k).Stored? == data
    ensures var more := if data then rs + [Range(from, to)] else rs;
            && Ascending(more, lo, to)
            && forall k :: lo <= k < to ==> (InRanges(more, k) <==> At(es, ino, k).Stored?)
  {
    var more := if data then rs + [Range(from, to)] else rs;
    forall k | lo <= k < to ensures InRanges(more, k) <==> At(es, ino, k).Stored? {
      if k < cursor {
        if InRanges(rs, k) {
          var i :| 0 <= i < |rs| && rs[i].start <= k < rs[i].end;
          assert more[i] == rs[i];
        }
      } else if data && from <= k {
        assert more[|rs|].start <= k < more[|rs|].end;
      }
    }
  }

  /** `seek_data_from_ranges` */
  method SeekData(rs: seq<Range>, offset: nat, ghost hi: nat) returns (r: Result<nat>)
    requires Ascending(rs, 0, hi)
    ensures r.Ok? ==>
              offset <= r.value < hi && InRanges(rs, r.value) && forall k :: offset <= k < r.value ==> !InRanges(rs, k)
    ensures r.Err? ==> r.errno == ENXIO && forall k :: offset <= k ==> !InRanges(rs, k)
  {
    for i := 0 to |rs|
      invariant forall j :: 0 <= j < i ==> rs[j].end <= offset
    {
      if rs[i].end > offset {
        assert forall j :: i < j < |rs| ==> rs[i].end <= rs[j].start;
        var pos := Max(offset, rs[i].start);
        assert rs[i].start <= pos < rs[i].end;
        return Ok(pos);
      }
    }
    return Err(ENXIO);
  }

  /** `seek_hole_from_ranges` */
  method SeekHole(rs: seq<Range>, offset: nat, ghost hi: nat) returns (pos: nat)
    requires Ascending(rs, 0, hi) && offset <= hi
    ensures offset <= pos <= hi && !InRanges(rs, pos) && forall k :: offset <= k < pos ==> InRanges(rs, k)
  {
    pos := offset;
    for i := 0 to |rs|
      invariant offset <= pos <= hi
      invariant forall k :: offset <= k < pos ==> InRanges(rs, k)
      invariant forall j :: 0 <= j < i ==> rs[j].end <= pos
    {
      if rs[i].end > pos {
        assert forall j :: i < j < |rs| ==> rs[i].end <= rs[j].start;
        if rs[i].start > pos {
          return;
        }
        forall k | pos <= k < rs[i].end ensures InRanges(rs, k) {
          assert rs[i].start <= k < rs[i].end;
        }
        pos := rs[i].end;
      }
    }
  }

  /** Byte `k` is inside the file, and no byte from `offset` to it is stored: a SEEK_DATA from `offset` passes over
      it. */
  ghost predicate Skipped(es: seq<Extent>, size: nat, ino: nat, offset: nat, k: nat) {
    offset <= k < size && forall j: nat :: offset <= j <= k ==> !At(es, ino, j).Stored?
  }

  /** lseek(SEEK_DATA): the least stored offset at or after `offset`. While staged data lies over stored bytes, what it
      passes over reads as zeros. */
  method LseekData(e: LiveEngine, ino: nat, offset: nat) returns (r: Result<nat>)
    requires e.Valid() && offset <= U64_MAX && (ino in e.sizes ==> e.sizes[ino] <= U64_MAX)
    ensures ino !in e.sizes ==> r == Err(ENOENT)
    ensures r.Ok? ==> ino in e.sizes && offset <= r.value < e.sizes[ino] && At(e.extents, ino, r.value).Stored?
    ensures r.Err? && ino in e.sizes ==> r.errno == ENXIO
    ensures ino in e.sizes ==>
              forall k: nat :: Skipped(e.extents, e.sizes[ino], ino, offset, k) <==>
                               offset <= k < if r.Ok? then r.value else e.sizes[ino]
    ensures ino in e.sizes && e.Covered() ==>
              forall k: nat :: offset <= k < (if r.Ok? then r.value else e.sizes[ino]) ==> e.Byte(ino, k) == 0
  {
    var rs := DataRanges(e, ino, offset, U64_MAX - offset);
    if rs.Err? {
      return Err(rs.errno);
    }
    r := SeekData(rs.value, offset, Max(offset, e.sizes[ino]));
    ghost var upto := if r.Ok? then r.value else e.sizes[ino];
    forall k: nat | offset <= k < upto ensures !At(e.extents, ino, k).Stored? && (e.Covered() ==> e.Byte(ino, k) == 0) {
      assert !InRanges(rs.value, k);
      if e.Covered() { ZeroUnlessStored(R.StateOf(e), ino, k); }
    }
  }

  /** lseek(SEEK_HOLE): the least offset at or after `offset` that is not stored, the end of file at the latest. */
  method LseekHole(e: LiveEngine, ino: nat, offset: nat) returns (r: Result<nat>)
    requires e.Valid() && offset <= U64_MAX && (ino in e.sizes ==> e.sizes[ino] <= U64_MAX)
    ensures ino !in e.sizes ==> r == Err(ENOENT)
    ensures ino in e.sizes ==> r.Ok? && offset <= r.value <= Max(offset, e.sizes[ino])
    ensures r.Ok? ==> forall k: nat :: offset <= k < r.value ==> At(e.extents, ino, k).Stored?
    ensures r.Ok? && r.value < e.sizes[ino] ==> !At(e.extents, ino, r.value).Stored?
  {
    var rs := DataRanges(e, ino, offset, U64_MAX - offset);
    if rs.Err? {
      return Err(rs.errno);
    }
    var pos := SeekHole(rs.value, offset, Max(offset, e.sizes[ino]));
    r := Ok(pos);
  }

  // ---------- what SEEK_DATA passes over ----------

  /** While staged data lies over stored bytes, every byte that is not zero is stored. */
  lemma ZeroUnlessStored(s: R.State, ino: nat, k: nat)
    requires R.Covered(s)
    ensures R.ByteAt(s, ino, k) != 0 ==> At(s.extents, ino, k).Stored?
  {
    if Put(s.buffer, ino, k) { assert At(s.extents, ino, k).Stored?; }
  }

  /** No SEEK_DATA, in any file and from any offset, passes over a byte that is not zero. */
  ghost predicate SeeksSafely(s: R.State) {
    forall ino: nat, offset: nat, k: nat ::
      ino in s.sizes && Skipped(s.extents, s.sizes[ino], ino, offset, k) ==> R.ByteAt(s, ino, k) == 0
  }

  /** Byte `k` is staged as data other than zero. */
  ghost predicate PutsNonzero(buf: seq<B.Staged>, ino: nat, k: nat) {
    Put(buf, ino, k) && B.Value(B.Overlay(buf, ino, k).value) != 0
  }

  ghost predicate DataCovered(s: R.State) {
    forall ino: nat, k: nat ::
      ino in s.sizes && k < s.sizes[ino] && PutsNonzero(s.buffer, ino, k) ==> At(s.extents, ino, k).Stored?
  }

  /** SEEK_DATA passes over nothing but zeros exactly if every staged byte of a file that is not zero lies over a stored
      one. */
  lemma SeeksSafelyIff(s: R.State)
    ensures SeeksSafely(s) <==> DataCovered(s)
  {
    if SeeksSafely(s) {
      forall ino: nat, k: nat | ino in s.sizes && k < s.sizes[ino] && PutsNonzero(s.buffer, ino, k)
        ensures At(s.extents, ino, k).Stored?
      {
        assert !Skipped(s.extents, s.sizes[ino], ino, k, k);
      }
    }
    if DataCovered(s) {
      forall ino: nat, offset: nat, k: nat | ino in s.sizes && Skipped(s.extents, s.sizes[ino], ino, offset, k)
        ensures R.ByteAt(s, ino, k) == 0
      {
        assert !At(s.extents, ino, k).Stored? && !PutsNonzero(s.buffer, ino, k);
      }
    }
  }

  lemma CoveredSeeksSafely(s: R.State)
    requires R.Covered(s)
    ensures SeeksSafely(s)
  {
    forall ino: nat, k: nat | Put(s.buffer, ino, k) ensures At(s.extents, ino, k).Stored? {
    }
    SeeksSafelyIff(s);
  }

  /** In every state of every run with active storage SEEK_DATA passes over nothing but zeros; without active storage it
      does as long as no truncate or insert has stopped half-way. */
  lemma RunSeeksSafely(steps: seq<R.Step>, outs: seq<R.Outcome>, trace: seq<R.State>, n: nat)
    requires R.IsRun(steps, outs, trace) && n <= |steps| && R.Covered(trace[0])
    requires trace[0].active || forall m :: 0 <= m < n ==> !R.StopsHalfWay(trace[m], steps[m])
    ensures SeeksSafely(trace[n])
  {
    R.RunCovered(steps, outs, trace, n);
    CoveredSeeksSafely(trace[n]);
  }
}
