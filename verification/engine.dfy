/** The live file-data engine: the extent vector, the write buffer and the device behind it. */
module LiveData {
  import opened Common
  import opened Remaps
  import opened Extents
  import opened ExtentSort
  import opened ExtentUpdate
  import opened Handout
  import EO = ExtentOps
  import B = WriteBuffer
  import BO = BufferOps
  import opened Pool
  import opened Media
  import opened FileSpec

  /** The byte a file holds at `k`: the overlay if there is one, else the stored byte, else zero. */
  ghost function Contents(
    active: bool, base: nat, image: seq<byte>, es: seq<Extent>, buf: seq<B.Staged>, ino: nat, k: nat
  ): byte {
    match B.Overlay(buf, ino, k)
    case Some(m) => B.Value(m)
    case None =>
      if active then StoredAt(es, base, image, ino, k) else 0
  }

  /** Only known files have extents or staged bytes. */
  ghost predicate Consistent(es: seq<Extent>, buf: seq<B.Staged>, sizes: map<nat, nat>) {
    && (forall ino, k :: At(es, ino, k) != Hole ==> ino in sizes)
    && (forall ino, k :: B.Overlay(buf, ino, k).Some? ==> ino in sizes)
  }

  /** Byte `k` is staged as data, not as part of a zero range. */
  ghost predicate Put(buf: seq<B.Staged>, ino: nat, k: nat) {
    B.Overlay(buf, ino, k).Some? && B.Overlay(buf, ino, k).value.Putting?
  }

  /** Data is staged only without active storage, and there only over stored bytes. */
  ghost predicate PutsCovered(active: bool, es: seq<Extent>, buf: seq<B.Staged>) {
    forall ino, k :: Put(buf, ino, k) ==> !active && At(es, ino, k).Stored?
  }

  /** The map has only gained stored bytes, and only in [lo, hi) of `ino`. */
  ghost predicate OnlyGains(was: seq<Extent>, now: seq<Extent>, ino: nat, lo: nat, hi: nat) {
    forall i: nat, k: nat ::
      At(now, i, k) == At(was, i, k) || (i == ino && lo <= k < hi && !At(was, i, k).Stored? && At(now, i, k).Stored?)
  }

  ghost predicate AllStored(es: seq<Extent>, ino: nat, lo: nat, hi: nat) {
    forall k: nat :: lo <= k < hi ==> At(es, ino, k).Stored?
  }

  /** Byte `k` has been given storage it did not have. */
  ghost predicate Given(was: seq<Extent>, now: seq<Extent>, ino: nat, k: nat) {
    !At(was, ino, k).Stored? && At(now, ino, k).Stored?
  }

  /** The place of byte `k` is above `tail`, and starts a block unless the byte before has been given storage too and
      was unmapped or preallocated like it. */
  ghost predicate FreshAt(was: seq<Extent>, now: seq<Extent>, tail: nat, i: nat, k: nat)
    requires Given(was, now, i, k)
  {
    && At(now, i, k).at >= tail
    && ((k == 0 || !Given(was, now, i, k - 1) || At(was, i, k - 1) != At(was, i, k)) ==>
         At(now, i, k).at % LIVE_BLOCK == 0)
  }

  ghost predicate FreshGains(was: seq<Extent>, now: seq<Extent>, tail: nat) {
    forall i: nat, k: nat :: Given(was, now, i, k) ==> FreshAt(was, now, tail, i, k)
  }

  lemma MoreFresh(es: seq<Extent>, was: seq<Extent>, now: seq<Extent>, ino: nat, a: nat, lo: nat, hi: nat, tail: nat,
                  tail': nat)
    requires FreshGains(es, was, tail) && FreshGains(was, now, tail') && tail <= tail'
    requires OnlyGains(es, was, ino, a, lo) && OnlyGains(was, now, ino, lo, hi)
    ensures FreshGains(es, now, tail)
  {
    forall i: nat, k: nat | Given(es, now, i, k) ensures FreshAt(es, now, tail, i, k) {
      GivenTwice(es, was, now, ino, a, lo, hi, i, k);
      if k > 0 {
        GivenTwice(es, was, now, ino, a, lo, hi, i, k - 1);
      }
      if Given(was, now, i, k) {
        assert FreshAt(was, now, tail', i, k);
      } else {
        assert At(now, i, k) == At(was, i, k) && Given(es, was, i, k);
        assert FreshAt(es, was, tail, i, k);
      }
    }
  }

  lemma GivenTwice(es: seq<Extent>, was: seq<Extent>, now: seq<Extent>, ino: nat, a: nat, lo: nat, hi: nat, i: nat,
                   k: nat)
    requires OnlyGains(es, was, ino, a, lo) && OnlyGains(was, now, ino, lo, hi)
    ensures Given(was, now, i, k) || Given(es, was, i, k) ==> Given(es, now, i, k)
    ensures Given(was, now, i, k) ==> At(was, i, k) == At(es, i, k)
  {
    assert At(was, i, k) == At(es, i, k) || (At(was, i, k).Stored? && !At(es, i, k).Stored?);
    assert At(now, i, k) == At(was, i, k) || At(now, i, k).Stored?;
  }

  /** One data extent placed over a stretch without storage. */
  lemma FreshPlaced(was: seq<Extent>, e: Extent, now: seq<Extent>, tail: nat)
    requires PlacedMap(was, e, now) && e.kind.Data? && e.start < e.end && e.phys >= tail && e.phys % LIVE_BLOCK == 0
    requires forall k: nat ::
               e.start <= k < e.end ==> !At(was, e.ino, k).Stored? && At(was, e.ino, k) == At(was, e.ino, e.start)
    ensures OnlyGains(was, now, e.ino, e.start, e.end) && AllStored(now, e.ino, e.start, e.end)
              && FreshGains(was, now, tail)
  {
    forall i: nat, k: nat ensures At(now, i, k) == if Covers(e, i, k) then CellOf(e, k) else At(was, i, k) {
    }
    forall i: nat, k: nat | Given(was, now, i, k) ensures FreshAt(was, now, tail, i, k) {
      assert Covers(e, i, k);
      if k > e.start {
        assert Covers(e, i, k - 1) && Given(was, now, i, k - 1);
      }
    }
  }

  /** The bytes of [lo, cursor) have storage, the new part of it above the tail `start`. */
  ghost predicate Gained(es: seq<Extent>, now: seq<Extent>, ino: nat, lo: nat, cursor: nat, hi: nat, start: nat,
                         tail: nat)
  {
    && lo <= cursor <= hi && OnlyGains(es, now, ino, lo, cursor) && AllStored(now, ino, lo, cursor)
         && FreshGains(es, now, start)
    && (cursor == lo ==> now == es && tail == start) && tail <= start + LIVE_BLOCK * (cursor - lo)
    && (now != es ==> start <= tail) && (now == es ==> tail == start)
  }

  /** The loop that gives [lo, hi) storage has come to `cursor`. */
  ghost predicate Ensured(
    es: seq<Extent>, now: seq<Extent>, ino: nat, lo: nat, cursor: nat, hi: nat, start: nat, tail: nat,
    capacity: Option<nat>
  ) {
    Gained(es, now, ino, lo, cursor, hi, start, tail) && HandedUpTo(es, now, ino, lo, cursor, hi, start, tail, capacity)
  }

  ghost predicate NoRoom(lo: nat, cursor: nat, hi: nat, start: nat, tail: nat, capacity: Option<nat>, r: Result<()>) {
    && lo <= cursor <= hi && r.Err? && (r.errno == ENOSPC || r.errno == EFBIG)
    && (exists n: nat :: n <= hi - cursor && !InBounds(capacity, tail + AlignUp(Max(n, LIVE_BLOCK))))
    && !InBounds(capacity, start + LIVE_BLOCK * (hi - lo))
  }

  /** Why the loop stops at `cursor`: there is no room for the run there, and nothing more is handed out. */
  ghost predicate Stopped(
    es: seq<Extent>, now: seq<Extent>, ino: nat, lo: nat, cursor: nat, hi: nat, start: nat, tail: nat,
    capacity: Option<nat>, r: Result<()>
  ) {
    && NoRoom(lo, cursor, hi, start, tail, capacity, r)
    && r == StorageVerdict(es, ino, lo, hi, start, capacity) && HandedOut(es, now, ino, lo, hi, start, capacity)
  }

  lemma RunGiven(
    es: seq<Extent>, was: seq<Extent>, now: seq<Extent>, ino: nat, lo: nat, cursor: nat, h: nat, hi: nat, start: nat,
    tail: nat, capacity: Option<nat>
  )
    requires Ensured(es, was, ino, lo, cursor, hi, start, tail, capacity) && WholeRun(was, ino, cursor, h, hi)
    requires RoomVerdict(capacity, TailAfter(tail, h - cursor)).Ok?
               && TailAfter(tail, h - cursor) <= tail + LIVE_BLOCK * (h - cursor)
    requires OnlyGains(was, now, ino, cursor, h) && AllStored(now, ino, cursor, h) && FreshGains(was, now, tail)
    requires forall k: nat :: cursor <= k < h ==> At(now, ino, k) == Stored(tail + (k - cursor))
    ensures Ensured(es, now, ino, lo, h, hi, start, TailAfter(tail, h - cursor), capacity)
  {
    HandedRun(es, was, now, ino, lo, cursor, h, hi, start, tail, capacity);
    MoreGains(es, was, now, ino, lo, cursor, h);
    MoreFresh(es, was, now, ino, lo, cursor, h, start, tail);
    assert At(now, ino, cursor).Stored? && !At(was, ino, cursor).Stored?;
  }

  lemma RunRefused(
    es: seq<Extent>, was: seq<Extent>, ino: nat, lo: nat, cursor: nat, h: nat, hi: nat, start: nat, tail: nat,
    capacity: Option<nat>
  )
    requires Ensured(es, was, ino, lo, cursor, hi, start, tail, capacity) && WholeRun(was, ino, cursor, h, hi)
    requires RoomVerdict(capacity, TailAfter(tail, h - cursor)).Err?
               && TailAfter(tail, h - cursor) <= tail + LIVE_BLOCK * (h - cursor)
    ensures Stopped(es, was, ino, lo, cursor, hi, start, tail, capacity,
              RoomVerdict(capacity, TailAfter(tail, h - cursor)))
  {
    HandedShort(es, was, ino, lo, cursor, h, hi, start, tail, capacity);
    assert h - cursor <= hi - cursor && !InBounds(capacity, tail + AlignUp(Max(h - cursor, LIVE_BLOCK)));
  }

  lemma GainsFurther(es: seq<Extent>, now: seq<Extent>, ino: nat, lo: nat, mid: nat, hi: nat)
    requires mid <= hi && OnlyGains(es, now, ino, lo, mid)
    ensures OnlyGains(es, now, ino, lo, hi)
  {
  }

  lemma MoreGains(es: seq<Extent>, was: seq<Extent>, now: seq<Extent>, ino: nat, lo: nat, mid: nat, hi: nat)
    requires lo <= mid <= hi && OnlyGains(es, was, ino, lo, mid) && AllStored(was, ino, lo, mid)
    requires OnlyGains(was, now, ino, mid, hi) && AllStored(now, ino, mid, hi)
    ensures OnlyGains(es, now, ino, lo, hi) && AllStored(now, ino, lo, hi)
  {
    forall k: nat | lo <= k < hi ensures At(now, ino, k).Stored? {
      assert k < mid ==> At(was, ino, k).Stored?;
    }
  }

  lemma GainsAreConsistent(es: seq<Extent>, es': seq<Extent>, buf: seq<B.Staged>, sizes: map<nat, nat>, active: bool,
                           ino: nat, lo: nat, hi: nat)
    requires Consistent(es, buf, sizes) && OnlyGains(es, es', ino, lo, hi) && ino in sizes
    ensures Consistent(es', buf, sizes) && (PutsCovered(active, es, buf) ==> PutsCovered(active, es', buf))
  {
    forall i, k | At(es', i, k) != Hole ensures i in sizes {
      assert At(es', i, k) == At(es, i, k) || i == ino;
    }
    forall i, k | Put(buf, i, k) && At(es, i, k).Stored? ensures At(es', i, k).Stored? {
      assert At(es', i, k) == At(es, i, k) || At(es', i, k).Stored?;
    }
  }

  lemma LessOverlayIsConsistent(es: seq<Extent>, buf: seq<B.Staged>, buf': seq<B.Staged>, sizes: map<nat, nat>,
                                active: bool)
    requires Consistent(es, buf, sizes)
    requires forall i, k ::
               B.Overlay(buf', i, k).Some? ==>
               B.Overlay(buf', i, k) == B.Overlay(buf, i, k) || (B.Overlay(buf', i, k).value.Zeroing? && i in sizes)
    ensures Consistent(es, buf', sizes) && (PutsCovered(active, es, buf) ==> PutsCovered(active, es, buf'))
  {
    forall i, k | Put(buf', i, k) ensures Put(buf, i, k) {
    }
  }

  ghost function PunchedOverlay(buf: seq<B.Staged>, ino: nat, lo: nat, hi: nat, i: nat, k: nat): Option<B.Mark> {
    if i == ino && lo <= k < hi then None else B.Overlay(buf, i, k)
  }

  lemma OverlayPunched(buf: seq<B.Staged>, buf': seq<B.Staged>, ino: nat, lo: nat, hi: nat)
    requires lo <= hi && forall i, k :: B.Overlay(buf', i, k) == BO.MovedOverlay(Punch(lo, hi), ino, buf, i, k)
    ensures forall i, k :: B.Overlay(buf', i, k) == PunchedOverlay(buf, ino, lo, hi, i, k)
  {
  }

  /** A write into [lo, hi) of `ino`, finished or not, does not reach any other byte of any file. */
  lemma WriteStaysInside(
    active: bool, base: nat, image: seq<byte>, image': seq<byte>, es: seq<Extent>, es': seq<Extent>,
    buf: seq<B.Staged>, ino: nat, lo: nat, hi: nat
  )
    requires OnlyGains(es, es', ino, lo, hi) && SameElsewhere(es', base, image, image', ino, lo, hi)
    ensures forall i: nat, k: nat :: !(i == ino && lo <= k < hi) ==>
              Contents(active, base, image', es', buf, i, k) == Contents(active, base, image, es, buf, i, k)
  {
    forall i: nat, k: nat | !(i == ino && lo <= k < hi)
      ensures Contents(active, base, image', es', buf, i, k) == Contents(active, base, image, es, buf, i, k)
    {
      assert At(es', i, k) == At(es, i, k);
    }
  }

  /** Past the end of a file nothing is mapped and nothing but zero ranges is staged. */
  ghost predicate NothingPast(es: seq<Extent>, buf: seq<B.Staged>, sizes: map<nat, nat>) {
    forall ino, k: nat :: ino in sizes && sizes[ino] <= k ==>
                            At(es, ino, k) == Hole && (B.Overlay(buf, ino, k).Some? ==>
                              B.Overlay(buf, ino, k).value.Zeroing?)
  }

  lemma NothingPastMoved(
    m: Remap, ino: nat, es: seq<Extent>, es': seq<Extent>, buf: seq<B.Staged>, buf': seq<B.Staged>,
    sizes: map<nat, nat>, size: nat
  )
    requires ino in sizes && NothingPast(es, buf, sizes)
    requires forall i, k :: At(es', i, k) == EO.Moved(m, ino, es, i, k)
    requires forall i, k :: B.Overlay(buf', i, k) == BO.MovedOverlay(m, ino, buf, i, k)
    requires forall k :: size <= k ==> Source(m, k).None? || sizes[ino] <= Source(m, k).value
    ensures NothingPast(es', buf', sizes[ino := size])
  {
    forall i, k: nat | i in sizes && sizes[ino := size][i] <= k
      ensures At(es', i, k) == Hole && (B.Overlay(buf', i, k).Some? ==> B.Overlay(buf', i, k).value.Zeroing?)
    {
      assert At(es', i, k) == EO.Moved(m, ino, es, i, k);
      assert B.Overlay(buf', i, k) == BO.MovedOverlay(m, ino, buf, i, k);
    }
  }

  lemma GrownPast(
    es: seq<Extent>, es': seq<Extent>, buf: seq<B.Staged>, buf': seq<B.Staged>, sizes: map<nat, nat>, ino: nat,
    lo: nat, hi: nat
  )
    requires ino in sizes && NothingPast(es, buf, sizes) && OnlyGains(es, es', ino, lo, hi)
    requires forall i, k :: B.Overlay(buf', i, k) == PunchedOverlay(buf, ino, lo, hi, i, k)
    ensures NothingPast(es', buf', sizes[ino := Max(sizes[ino], hi)])
  {
    var grown := sizes[ino := Max(sizes[ino], hi)];
    forall i, k: nat | i in grown && grown[i] <= k
      ensures At(es', i, k) == Hole && (B.Overlay(buf', i, k).Some? ==> B.Overlay(buf', i, k).value.Zeroing?)
    {
      assert At(es', i, k) == At(es, i, k);
    }
  }

  function SourceOrigin(m: Remap, k: nat): Origin {
    match Source(m, k) case None => NewByte(0) case Some(j) => OldByte(j)
  }

  ghost function MovedByte(
    m: Remap, ino: nat, active: bool, base: nat, image: seq<byte>, es: seq<Extent>, buf: seq<B.Staged>, i: nat, k: nat
  ): byte {
    match SourceFor(m, ino, i, k)
    case None => 0
    case Some(j) => Contents(active, base, image, es, buf, i, j)
  }

  /** A buffer that is rearranged before its extents. */
  lemma MovedAlone(m: Remap, ino: nat, es: seq<Extent>, buf: seq<B.Staged>, buf': seq<B.Staged>, sizes: map<nat, nat>)
    requires Consistent(es, buf, sizes)
    requires forall i, k :: B.Overlay(buf', i, k) == BO.MovedOverlay(m, ino, buf, i, k)
    ensures Consistent(es, buf', sizes) && (PutsCovered(true, es, buf) ==> PutsCovered(true, es, buf'))
  {
    forall i, k | Put(buf', i, k) ensures SourceFor(m, ino, i, k).Some? && Put(buf, i, SourceFor(m, ino, i, k).value) {
      assert B.Overlay(buf', i, k) == BO.MovedOverlay(m, ino, buf, i, k);
    }
  }

  /** Extents that are rearranged before the buffer over them. */
  lemma CutAlone(m: Remap, ino: nat, es: seq<Extent>, es': seq<Extent>, buf: seq<B.Staged>, sizes: map<nat, nat>)
    requires Consistent(es, buf, sizes) && forall i, k :: At(es', i, k) == EO.Moved(m, ino, es, i, k)
    ensures Consistent(es', buf, sizes) && (PutsCovered(true, es, buf) ==> PutsCovered(true, es', buf))
  {
    forall i, k | At(es', i, k) != Hole ensures i in sizes {
      assert At(es', i, k) == EO.Moved(m, ino, es, i, k);
    }
  }

  /** Rearranging the extents and the buffer in step rearranges the contents, and keeps them consistent. */
  lemma RemapInStep(
    m: Remap, ino: nat, active: bool, base: nat, image: seq<byte>,
    es: seq<Extent>, es': seq<Extent>, buf: seq<B.Staged>, buf': seq<B.Staged>, sizes: map<nat, nat>
  )
    requires Consistent(es, buf, sizes)
    requires forall i, k :: At(es', i, k) == EO.Moved(m, ino, es, i, k)
    requires forall i, k :: B.Overlay(buf', i, k) == BO.MovedOverlay(m, ino, buf, i, k)
    ensures Consistent(es', buf', sizes) && (PutsCovered(active, es, buf) ==> PutsCovered(active, es', buf'))
    ensures forall i, k ::
              Contents(active, base, image, es', buf', i, k) == MovedByte(m, ino, active, base, image, es, buf, i, k)
  {
    forall i, k
      ensures Contents(active, base, image, es', buf', i, k) == MovedByte(m, ino, active, base, image, es, buf, i, k) {
      assert At(es', i, k) == EO.Moved(m, ino, es, i, k);
      assert B.Overlay(buf', i, k) == BO.MovedOverlay(m, ino, buf, i, k);
    }
    forall i, k | PutsCovered(active, es, buf) && Put(buf', i, k) ensures !active && At(es', i, k).Stored? {
      assert At(es', i, k) == EO.Moved(m, ino, es, i, k);
      assert SourceFor(m, ino, i, k).Some? && Put(buf, i, SourceFor(m, ino, i, k).value);
    }
    forall i, k | At(es', i, k) != Hole ensures i in sizes {
      assert At(es', i, k) == EO.Moved(m, ino, es, i, k);
    }
  }

  /** A zero entry whose stored bytes have been zeroed can go. */
  lemma FlushedZero(
    base: nat, image: seq<byte>, image': seq<byte>, es: seq<Extent>,
    front: seq<B.Staged>, e: B.Staged, rest: seq<B.Staged>, i: nat, k: nat
  )
    requires B.AllStaged(front + [e] + rest) && B.AllDisjoint(front + [e] + rest) && e.zero
    requires Zeroed(es, base, image', e.ino, e.offset, B.End(e), |es|)
    requires SameElsewhere(es, base, image, image', e.ino, e.offset, B.End(e))
    ensures Contents(true, base, image', es, front + rest, i, k)
              == Contents(true, base, image, es, front + [e] + rest, i, k)
  {
    BO.DropEntry(front, e, rest, i, k);
    if B.Holds(e, i, k) && At(es, i, k).Stored? {
      var j := AtFrom(es, i, k);
    }
  }

  /** A data entry that has landed can go. */
  lemma FlushedData(
    base: nat, image: seq<byte>, image': seq<byte>, es: seq<Extent>, es': seq<Extent>,
    front: seq<B.Staged>, e: B.Staged, rest: seq<B.Staged>, i: nat, k: nat
  )
    requires B.AllStaged(front + [e] + rest) && B.AllDisjoint(front + [e] + rest) && !e.zero && |e.data| == e.len
    requires OnlyGains(es, es', e.ino, e.offset, B.End(e))
    requires Landed(es', base, image', e.ino, e.offset, B.End(e), e.data)
    requires SameElsewhere(es', base, image, image', e.ino, e.offset, B.End(e))
    ensures Contents(true, base, image', es', front + rest, i, k)
              == Contents(true, base, image, es, front + [e] + rest, i, k)
  {
    BO.DropEntry(front, e, rest, i, k);
    if B.Holds(e, i, k) {
      assert At(es', i, k).Stored?;
    } else {
      WriteStaysInside(true, base, image, image', es, es', front + rest, e.ino, e.offset, B.End(e));
    }
  }

  /** While an entry is still in the buffer, what happens under it does not show. */
  lemma StillCovered(
    base: nat, image: seq<byte>, image': seq<byte>, es: seq<Extent>, es': seq<Extent>, buf: seq<B.Staged>, e: B.Staged,
    i: nat, k: nat
  )
    requires B.AllStaged(buf) && e in buf && OnlyGains(es, es', e.ino, e.offset, B.End(e))
    requires SameElsewhere(es', base, image, image', e.ino, e.offset, B.End(e))
    ensures Contents(true, base, image', es', buf, i, k) == Contents(true, base, image, es, buf, i, k)
  {
    if B.Holds(e, i, k) {
      B.OverlayNone(buf, i, k);
    } else {
      WriteStaysInside(true, base, image, image', es, es', buf, e.ino, e.offset, B.End(e));
    }
  }

  lemma DroppedIsConsistent(es: seq<Extent>, front: seq<B.Staged>, e: B.Staged, rest: seq<B.Staged>,
                            sizes: map<nat, nat>, active: bool)
    requires B.AllStaged(front + [e] + rest) && B.AllDisjoint(front + [e] + rest)
    requires Consistent(es, front + [e] + rest, sizes)
    ensures B.AllStaged(front + rest) && B.AllDisjoint(front + rest) && Consistent(es, front + rest, sizes)
    ensures PutsCovered(active, es, front + [e] + rest) ==> PutsCovered(active, es, front + rest)
    ensures NothingPast(es, front + [e] + rest, sizes) ==> NothingPast(es, front + rest, sizes)
  {
    BO.DropEntry(front, e, rest, 0, 0);
    forall i, k
      ensures B.Overlay(front + rest, i, k).Some? ==>
      B.Overlay(front + rest, i, k) == B.Overlay(front + [e] + rest, i, k) {
      BO.DropEntry(front, e, rest, i, k);
    }
    LessOverlayIsConsistent(es, front + [e] + rest, front + rest, sizes, active);
  }

  /** Storage gained under staged data is not past the end, because the data is not. */
  lemma GainsUnderData(es: seq<Extent>, es': seq<Extent>, front: seq<B.Staged>, e: B.Staged, rest: seq<B.Staged>,
                       sizes: map<nat, nat>)
    requires B.AllStaged(front + [e] + rest) && B.AllDisjoint(front + [e] + rest) && B.WellStaged(e) && !e.zero
    requires OnlyGains(es, es', e.ino, e.offset, B.End(e)) && NothingPast(es, front + [e] + rest, sizes)
    ensures NothingPast(es', front + [e] + rest, sizes)
  {
    forall i, k: nat | i in sizes && sizes[i] <= k ensures At(es', i, k) == Hole {
      BO.DropEntry(front, e, rest, i, k);
      assert !B.Holds(e, i, k);
    }
  }

  lemma WriteShows(base: nat, image: seq<byte>, es: seq<Extent>, buf: seq<B.Staged>, ino: nat, lo: nat,
                   data: seq<byte>, k: nat)
    requires Landed(es, base, image, ino, lo, lo + |data|, data) && lo <= k < lo + |data|
               && B.Overlay(buf, ino, k).None?
    ensures Contents(true, base, image, es, buf, ino, k) == data[k - lo]
  {
    assert At(es, ino, k).Stored?;
  }

  /** A byte after a write that has gone through: the data inside the range, the old byte outside. */
  lemma WrittenByte(
    base: nat, image: seq<byte>, image': seq<byte>, es: seq<Extent>, es': seq<Extent>, buf: seq<B.Staged>,
    buf': seq<B.Staged>, ino: nat, lo: nat, data: seq<byte>, i: nat, k: nat
  )
    requires OnlyGains(es, es', ino, lo, lo + |data|) && SameElsewhere(es', base, image, image', ino, lo, lo + |data|)
    requires Landed(es', base, image', ino, lo, lo + |data|, data)
    requires B.Overlay(buf', i, k) == PunchedOverlay(buf, ino, lo, lo + |data|, i, k)
    ensures Contents(true, base, image', es', buf', i, k)
         == if i == ino && lo <= k < lo + |data| then data[k - lo] else Contents(true, base, image, es, buf, i, k)
  {
    if i == ino && lo <= k < lo + |data| {
      WriteShows(base, image', es', buf', ino, lo, data, k);
    } else {
      WriteStaysInside(true, base, image, image', es, es', buf, ino, lo, lo + |data|);
    }
  }

  /** What a byte in the range of a failed write reads. What is staged over it still shows. Otherwise a byte that had
      storage holds its old value or the new one; a byte that had none and has none now reads as before; a byte that
      has just been given storage, which lies above the old tail, reads what that storage held or the new value. */
  ghost predicate HalfByte(
    base: nat, image: seq<byte>, image': seq<byte>, es: seq<Extent>, es': seq<Extent>, buf: seq<B.Staged>, tail: nat,
    ino: nat, lo: nat, data: seq<byte>, k: nat
  )
    requires lo <= k < lo + |data|
  {
    var d := data[k - lo];
    var was, now := Contents(true, base, image, es, buf, ino, k), Contents(true, base, image', es', buf, ino, k);
    if B.Overlay(buf, ino, k).Some? then now == was
    else if Given(es, es', ino, k) then
      At(es', ino, k).at >= tail && (now == ImageAt(image, base + At(es', ino, k).at) || now == d)
    else now == was || (At(es, ino, k).Stored? && now == d)
  }

  lemma HalfByteIs(
    base: nat, image: seq<byte>, image': seq<byte>, es: seq<Extent>, es': seq<Extent>, buf: seq<B.Staged>, tail: nat,
    ino: nat, lo: nat, data: seq<byte>, k: nat
  )
    requires lo <= k < lo + |data| && OnlyGains(es, es', ino, lo, lo + |data|) && FreshGains(es, es', tail)
    requires Partly(es', base, image, image', ino, lo, data)
    ensures HalfByte(base, image, image', es, es', buf, tail, ino, lo, data, k)
  {
    assert At(es', ino, k) == At(es, ino, k) || Given(es, es', ino, k);
  }

  lemma HalfWay(
    active: bool, base: nat, image: seq<byte>, image': seq<byte>, es: seq<Extent>, es': seq<Extent>,
    buf: seq<B.Staged>, tail: nat, ino: nat, lo: nat, data: seq<byte>
  )
    requires OnlyGains(es, es', ino, lo, lo + |data|) && FreshGains(es, es', tail)
               && Partly(es', base, image, image', ino, lo, data)
    requires SameElsewhere(es', base, image, image', ino, lo, lo + |data|)
    ensures forall i: nat, k: nat :: !(i == ino && lo <= k < lo + |data|) ==>
              Contents(active, base, image', es', buf, i, k) == Contents(active, base, image, es, buf, i, k)
    ensures forall k: nat ::
              lo <= k < lo + |data| ==> HalfByte(base, image, image', es, es', buf, tail, ino, lo, data, k)
  {
    WriteStaysInside(active, base, image, image', es, es', buf, ino, lo, lo + |data|);
    forall k: nat | lo <= k < lo + |data| ensures HalfByte(base, image, image', es, es', buf, tail, ino, lo, data, k) {
      HalfByteIs(base, image, image', es, es', buf, tail, ino, lo, data, k);
    }
  }

  /** Dropping a file's extents and staged bytes leaves every other file alone. */
  lemma WithoutFile(es: seq<Extent>, buf: seq<B.Staged>, sizes: map<nat, nat>, active: bool, ino: nat, tail: nat)
    requires Laid(es) && Ordered(es) && Joined(es) && BelowTail(es, tail)
    requires B.AllStaged(buf) && B.AllDisjoint(buf) && Consistent(es, buf, sizes)
    ensures var r, b := Others(es, ino), BO.Without(buf, ino);
            && Laid(r) && Ordered(r) && Joined(r) && BelowTail(r, tail) && B.AllStaged(b) && B.AllDisjoint(b)
            && Consistent(r, b, sizes - {ino}) && (PutsCovered(active, es, buf) ==> PutsCovered(active, r, b))
            && (forall i, k :: At(r, i, k) == if i == ino then Hole else At(es, i, k))
            && (forall i, k :: B.Overlay(b, i, k) == if i == ino then None else B.Overlay(buf, i, k))
  {
    var r := Others(es, ino);
    OthersAre(es, ino);
    OthersOrdered(es, ino);
    OthersJoined(es, ino);
    OrderedIsLaid(es, r);
    BO.WithoutKeeps(buf, ino);
    forall i, k ensures At(r, i, k) == if i == ino then Hole else At(es, i, k) {
      if Mapped(r, i, k) {
        var e :| e in r && Covers(e, i, k);
        AtIs(r, e, k);
        AtIs(es, e, k);
      }
    }
  }

  lemma {:induction false} OthersOf(es: seq<Extent>, ino: nat)
    ensures forall e :: e in Others(es, ino) <==> e in es && e.ino != ino
  {
    if es != [] {
      var n := |es| - 1;
      OthersOf(es[..n], ino);
      assert es == es[..n] + [es[n]];
    }
  }

  /** What is not a file has no bytes. */
  lemma NoFileNoBytes(
    active: bool, base: nat, image: seq<byte>, es: seq<Extent>, buf: seq<B.Staged>, sizes: map<nat, nat>, ino: nat
  )
    requires Consistent(es, buf, sizes) && ino !in sizes
    ensures forall k: nat :: Contents(active, base, image, es, buf, ino, k) == 0
    ensures forall k: nat :: At(es, ino, k) == Hole && B.Overlay(buf, ino, k).None?
  {
  }

  lemma RemovedFile(
    active: bool, base: nat, image: seq<byte>, es: seq<Extent>, es': seq<Extent>, buf: seq<B.Staged>,
    buf': seq<B.Staged>, ino: nat, sizes: map<nat, nat>
  )
    requires forall i, k :: At(es', i, k) == if i == ino then Hole else At(es, i, k)
    requires forall i, k :: B.Overlay(buf', i, k) == if i == ino then None else B.Overlay(buf, i, k)
    ensures forall i, k ::
              Contents(active, base, image, es', buf', i, k)
              == if i == ino then 0 else Contents(active, base, image, es, buf, i, k)
    ensures NothingPast(es, buf, sizes) ==> NothingPast(es', buf', sizes - {ino})
  {
    forall i: nat, k: nat
      ensures Contents(active, base, image, es', buf', i, k)
      == if i == ino then 0 else Contents(active, base, image, es, buf, i, k) {
      assert At(es', i, k) == if i == ino then Hole else At(es, i, k);
    }
    if NothingPast(es, buf, sizes) {
      forall i, k: nat | i in sizes - {ino} && sizes[i] <= k
        ensures At(es', i, k) == Hole && (B.Overlay(buf', i, k).Some? ==> B.Overlay(buf', i, k).value.Zeroing?)
      {
        assert At(es', i, k) == At(es, i, k);
      }
    }
  }

  lemma StagedOver(
    es: seq<Extent>, es': seq<Extent>, buf: seq<B.Staged>, buf': seq<B.Staged>, staged: B.Staged, e: Extent,
    sizes: map<nat, nat>
  )
    requires Consistent(es, buf, sizes) && staged.ino in sizes && e.kind.Data?
    requires e.ino == staged.ino && e.start == staged.offset && e.end == B.End(staged)
    requires PlacedMap(es, e, es')
    requires forall i, k ::
               B.Overlay(buf', i, k) == if B.Holds(staged, i, k) then Some(B.MarkOf(staged, k))
               else B.Overlay(buf, i, k)
    ensures Consistent(es', buf', sizes) && (PutsCovered(false, es, buf) ==> PutsCovered(false, es', buf'))
    ensures NothingPast(es, buf, sizes) ==> NothingPast(es', buf', sizes[e.ino := Max(sizes[e.ino], e.end)])
  {
    forall i: nat, k: nat
      ensures At(es', i, k) == if Covers(e, i, k) then CellOf(e, k) else At(es, i, k)
      ensures B.Overlay(buf', i, k) == if Covers(e, i, k) then Some(B.MarkOf(staged, k)) else B.Overlay(buf, i, k)
    {
    }
    var grown := sizes[e.ino := Max(sizes[e.ino], e.end)];
    if NothingPast(es, buf, sizes) {
      forall i, k: nat | i in grown && grown[i] <= k
        ensures At(es', i, k) == Hole && (B.Overlay(buf', i, k).Some? ==> B.Overlay(buf', i, k).value.Zeroing?)
      {
        assert !Covers(e, i, k) && At(es', i, k) == At(es, i, k);
      }
    }
  }

  /** A byte after data has been staged without active storage. */
  lemma StagedByte(
    base: nat, image: seq<byte>, es: seq<Extent>, es': seq<Extent>, buf: seq<B.Staged>, buf': seq<B.Staged>,
    e: B.Staged, i: nat, k: nat
  )
    requires !e.zero && |e.data| == e.len
    requires B.Overlay(buf', i, k) == if B.Holds(e, i, k) then Some(B.MarkOf(e, k)) else B.Overlay(buf, i, k)
    ensures Contents(false, base, image, es', buf', i, k)
         == if i == e.ino && e.offset <= k < e.offset + e.len then e.data[k - e.offset]
              else Contents(false, base, image, es, buf, i, k)
  {
  }

  lemma PastFurther(es: seq<Extent>, buf: seq<B.Staged>, sizes: map<nat, nat>, ino: nat, size: nat)
    requires NothingPast(es, buf, sizes) && ino in sizes && sizes[ino] <= size
    ensures NothingPast(es, buf, sizes[ino := size])
  {
  }

  lemma UnmappedUnder(
    es: seq<Extent>, es': seq<Extent>, buf: seq<B.Staged>, sizes: map<nat, nat>, active: bool, ino: nat, from: nat,
    to: nat, size: nat
  )
    requires Consistent(es, buf, sizes) && ino in sizes && to <= size
    requires forall i: nat, k: nat :: i == ino && from <= k < to ==> B.Overlay(buf, i, k) == Some(B.Zeroing)
    requires forall i: nat, k: nat :: At(es', i, k) == if i == ino && from <= k < to then Preallocated else At(es, i, k)
    ensures Consistent(es', buf, sizes) && (PutsCovered(active, es, buf) ==> PutsCovered(active, es', buf))
    ensures NothingPast(es, buf, sizes[ino := size]) ==> NothingPast(es', buf, sizes[ino := size])
  {
  }

  lemma UnwrittenPlaced(es: seq<Extent>, e: Extent, es': seq<Extent>)
    requires PlacedMap(es, e, es') && e.kind.Unwritten?
    ensures forall i: nat, k: nat ::
              At(es', i, k) == if i == e.ino && e.start <= k < e.end then Preallocated else At(es, i, k)
  {
    forall i: nat, k: nat ensures At(es', i, k) == if Covers(e, i, k) then CellOf(e, k) else At(es, i, k) {
    }
  }

  lemma UnmappedBytes(
    active: bool, base: nat, image: seq<byte>, es: seq<Extent>, es': seq<Extent>, buf: seq<B.Staged>, ino: nat,
    from: nat, to: nat
  )
    requires forall i: nat, k: nat :: i == ino && from <= k < to ==> B.Overlay(buf, i, k) == Some(B.Zeroing)
    requires forall i: nat, k: nat :: At(es', i, k) == if i == ino && from <= k < to then Preallocated else At(es, i, k)
    ensures forall i: nat, k: nat ::
              Contents(active, base, image, es', buf, i, k) == Contents(active, base, image, es, buf, i, k)
  {
  }

  lemma FilledUnder(
    es: seq<Extent>, es': seq<Extent>, buf: seq<B.Staged>, sizes: map<nat, nat>, active: bool, ino: nat, lo: nat,
    len: nat, size: nat
  )
    requires Consistent(es, buf, sizes) && ino in sizes && sizes[ino] <= size && (len > 0 ==> lo + len <= size)
    requires FilledMap(es, ino, lo, lo + len, es')
    ensures Consistent(es', buf, sizes) && (PutsCovered(active, es, buf) ==> PutsCovered(active, es', buf))
    ensures NothingPast(es, buf, sizes) ==> NothingPast(es', buf, sizes[ino := size])
  {
    forall i: nat, k: nat ensures At(es', i, k) == FilledCell(es, ino, lo, lo + len, i, k) {
    }
  }

  lemma MappedHere(es: seq<Extent>, e: Extent)
    requires Laid(es) && e in es
    ensures forall k: nat :: e.start <= k < e.end ==> !At(es, e.ino, k).Hole?
  {
    forall k: nat | e.start <= k < e.end ensures !At(es, e.ino, k).Hole? {
      AtIs(es, e, k);
    }
  }

  ghost predicate CutSoFar(m: Remap, ino: nat, es: seq<Extent>, i: nat, out: seq<Extent>)
    requires i <= |es|
  {
    out == PushAll([], EO.Flatten(m, ino, es[..i]))
  }

  lemma CutAllOf(m: Remap, ino: nat, es: seq<Extent>, out: seq<Extent>)
    requires CutSoFar(m, ino, es, |es|, out)
    ensures out == Cut(es, m, ino)
  {
    assert es[..|es|] == es;
  }

  lemma CutStep(m: Remap, ino: nat, es: seq<Extent>, i: nat)
    requires i < |es|
    ensures PushAll(PushAll([], EO.Flatten(m, ino, es[..i])), EO.PiecesFor(m, ino, es[i]))
              == PushAll([], EO.Flatten(m, ino, es[..i + 1]))
  {
    assert es[..i + 1][..i] == es[..i];
    PushAllConcat([], EO.Flatten(m, ino, es[..i]), EO.PiecesFor(m, ino, es[i]));
  }

  lemma SameOverlays(buf: seq<B.Staged>, buf': seq<B.Staged>, offset: nat, ino: nat)
    requires forall i, k :: B.Overlay(buf', i, k) == BO.MovedOverlay(Collapse(offset, offset), ino, buf, i, k)
    ensures forall i, k :: B.Overlay(buf', i, k) == B.Overlay(buf, i, k)
  {
    forall i, k ensures B.Overlay(buf', i, k) == B.Overlay(buf, i, k) {
      assert BO.MovedOverlay(Collapse(offset, offset), ino, buf, i, k) == B.Overlay(buf, i, k);
    }
  }

  /** The live block that holds byte `k` lies wholly inside [offset, offset + length). */
  predicate InFullBlock(offset: nat, length: nat, k: nat) {
    var block := k - k % LIVE_BLOCK;
    offset <= block && block + LIVE_BLOCK <= offset + length
  }

  /** Exactly the whole blocks of a range have lost their storage. */
  ghost predicate BlocksUnmapped(es: seq<Extent>, es': seq<Extent>, ino: nat, offset: nat, length: nat) {
    forall i: nat, k: nat ::
      At(es', i, k) == if i == ino && InFullBlock(offset, length, k) then Preallocated else At(es, i, k)
  }

  /** The end of an extent that an insert moves is checked. */
  predicate ExtentFits(m: Remap, ino: nat, e: Extent) {
    m.Insert? && e.ino == ino && m.lo < e.end ==> e.end + m.len <= U64_MAX
  }

  predicate ExtentsFit(m: Remap, ino: nat, es: seq<Extent>) {
    forall e :: e in es ==> ExtentFits(m, ino, e)
  }

  /** Where nothing is mapped past the end of the file, the size is checked for all extents. */
  lemma SizeBoundsExtents(es: seq<Extent>, buf: seq<B.Staged>, sizes: map<nat, nat>, ino: nat, lo: nat, len: nat)
    requires Laid(es) && NothingPast(es, buf, sizes) && ino in sizes && sizes[ino] + len <= U64_MAX
    ensures ExtentsFit(Insert(lo, len), ino, es)
  {
    forall e | e in es && e.ino == ino ensures e.end <= sizes[ino] {
      assert WellFormed(e);
      MappedHere(es, e);
      assert !At(es, ino, e.end - 1).Hole?;
    }
  }

  /** The answer a `fallocate` call gets for a file of the given size, if there is one, as long as nothing is
      staged or mapped near the end of the 64-bit range. */
  function FallocateVerdict(size: Option<nat>, op: FileOp, offset: nat, length: nat): Result<()> {
    if size.None? then Err(ENOENT)
    else if offset + length > U64_MAX then Err(EFBIG)
    else if !Allowed(op, size.value) then Err(EINVAL)
    else if op.InsertZeros? && size.value + length > U64_MAX then Err(EFBIG)
    else if op.ZeroOut? && (length > U32_MAX || AlignUp(offset) > U64_MAX) then Err(EFBIG)
    else Ok(())
  }

  /** The buffer can be rebuilt for `op`: no addition on a staged entry, of this file or another, leaves the range. */
  predicate StagingFits(op: FileOp, ino: nat, buf: seq<B.Staged>) {
    match op
    case CollapseOut(o, len) => BO.Fits(Collapse(o, o + len), ino, buf)
    case InsertZeros(o, len) => len == 0 || BO.Fits(Insert(o, len), ino, buf)
    case PunchHole(o, len) => len == 0 || BO.Fits(Punch(o, o + len), ino, buf)
    case ZeroOut(_, len, _) => len == 0 || BO.EndsFit(buf)
    case _ => true
  }

  /** The extents can be rebuilt for `op`. */
  predicate MappingFits(op: FileOp, ino: nat, es: seq<Extent>) {
    op.InsertZeros? && op.length > 0 ==> ExtentsFit(Insert(op.offset, op.length), ino, es)
  }

  /** The answer a `fallocate` call gets in every state. */
  function FallocateAnswer(size: Option<nat>, op: FileOp, offset: nat, length: nat, ino: nat, buf: seq<B.Staged>,
                           es: seq<Extent>): Result<()>
  {
    var v := FallocateVerdict(size, op, offset, length);
    if v.Ok? && !(StagingFits(op, ino, buf) && MappingFits(op, ino, es)) then Err(EFBIG) else v
  }

  lemma InsertAnswer(size: nat, offset: nat, length: nat, ino: nat, buf: seq<B.Staged>, es: seq<Extent>)
    requires offset + length <= U64_MAX
    ensures FallocateAnswer(Some(size), InsertZeros(offset, length), offset, length, ino, buf, es)
         == if offset >= size then Err(EINVAL) else if size + length > U64_MAX then Err(EFBIG)
            else if length > 0 && !(BO.Fits(Insert(offset, length), ino, buf)
              && ExtentsFit(Insert(offset, length), ino, es)) then Err(EFBIG)
            else Ok(())
  {
  }

  lemma CollapseAnswer(size: nat, offset: nat, length: nat, ino: nat, buf: seq<B.Staged>, es: seq<Extent>)
    requires offset + length <= U64_MAX
    ensures FallocateAnswer(Some(size), CollapseOut(offset, length), offset, length, ino, buf, es)
         == if offset + length >= size then Err(EINVAL)
            else if !BO.Fits(Collapse(offset, offset + length), ino, buf) then Err(EFBIG) else Ok(())
  {
  }

  lemma PunchAnswer(size: nat, offset: nat, length: nat, ino: nat, buf: seq<B.Staged>, es: seq<Extent>)
    requires offset + length <= U64_MAX
    ensures FallocateAnswer(Some(size), PunchHole(offset, length), offset, length, ino, buf, es)
         == if length > 0 && !BO.Fits(Punch(offset, offset + length), ino, buf) then Err(EFBIG) else Ok(())
  {
  }

  lemma ZeroAnswer(size: nat, offset: nat, length: nat, keep: bool, ino: nat, buf: seq<B.Staged>, es: seq<Extent>)
    requires offset + length <= U64_MAX
    ensures FallocateAnswer(Some(size), ZeroOut(offset, length, keep), offset, length, ino, buf, es)
         == if length > U32_MAX || (length > 0 && !BO.EndsFit(buf)) || AlignUp(offset) > U64_MAX then Err(EFBIG)
              else Ok(())
  {
  }

  /** An insert that the buffer takes and the extents refuse. */
  ghost predicate StopsShort(size: Option<nat>, op: FileOp, ino: nat, buf: seq<B.Staged>, es: seq<Extent>) {
    && op.InsertZeros? && op.length > 0 && FallocateVerdict(size, op, op.offset, op.length).Ok?
    && BO.Fits(Insert(op.offset, op.length), ino, buf) && !ExtentsFit(Insert(op.offset, op.length), ino, es)
  }

  /** Nothing is moved past the end of the range: no entry of the buffer and no extent of the file. */
  predicate NothingMovedPast(op: FileOp, ino: nat, buf: seq<B.Staged>, es: seq<Extent>) {
    op.InsertZeros? && op.length > 0 ==>
      BO.RoomAbove(buf, ino, op.offset, op.length) && ExtentsFit(Insert(op.offset, op.length), ino, es)
  }

  lemma InsertSources(size: nat, offset: nat, length: nat)
    requires offset < size
    ensures forall k :: OriginOf(InsertZeros(offset, length), size, k) == SourceOrigin(Insert(offset, length), k)
    ensures forall k ::
              size + length <= k ==>
              Source(Insert(offset, length), k).None? || size <= Source(Insert(offset, length), k).value
  {
  }

  /** The plain verdict is the answer of every call as long as all staged entries end inside the range and the call
      moves none past it; and a call that rewrites the buffer gets it only if they do. */
  lemma AnswerIff(size: Option<nat>, op: FileOp, offset: nat, length: nat, ino: nat, buf: seq<B.Staged>,
                  es: seq<Extent>)
    requires B.AllStaged(buf)
    ensures BO.EndsFit(buf) && NothingMovedPast(op, ino, buf, es) ==>
              FallocateAnswer(size, op, offset, length, ino, buf, es) == FallocateVerdict(size, op, offset, length)
    ensures (op.CollapseOut? || ((op.PunchHole? || op.ZeroOut?) && op.length > 0))
              && FallocateVerdict(size, op, offset, length).Ok? ==>
              (FallocateAnswer(size, op, offset, length, ino, buf, es).Ok? <==> BO.EndsFit(buf))
    ensures op.InsertZeros? && op.length > 0 && FallocateAnswer(size, op, offset, length, ino, buf, es).Ok? ==>
              BO.EndsFit(buf)
  {
    StagingIff(op, ino, buf);
  }

  lemma StagingIff(op: FileOp, ino: nat, buf: seq<B.Staged>)
    requires B.AllStaged(buf)
    ensures BO.EndsFit(buf) && (op.InsertZeros? && op.length > 0 ==> BO.RoomAbove(buf, ino, op.offset, op.length)) ==>
              StagingFits(op, ino, buf)
    ensures (op.CollapseOut? || ((op.PunchHole? || op.ZeroOut? || op.InsertZeros?) && op.length > 0))
            && StagingFits(op, ino, buf) ==>
              BO.EndsFit(buf)
  {
    match op
    case CollapseOut(o, len) => BO.FitsIff(Collapse(o, o + len), ino, buf);
    case InsertZeros(o, len) => BO.FitsIff(Insert(o, len), ino, buf);
    case PunchHole(o, len) => BO.FitsIff(Punch(o, o + len), ino, buf);
    case _ =>
  }

  /** The answer of a write to active storage, as far as it does not depend on the device. */
  ghost function WriteAnswer(
    es: seq<Extent>, buf: seq<B.Staged>, ino: nat, lo: nat, length: nat, tail: nat, capacity: Option<nat>
  ): Result<()> {
    var v := RangeVerdict(es, ino, lo, length, tail, capacity);
    if v.Err? then v else if BO.EndsFit(buf) then Ok(()) else Err(EFBIG)
  }

  /** The buffer after a write: with active storage the range is cleared, without it the data is staged. */
  ghost function Restaged(active: bool, ino: nat, offset: nat, data: seq<byte>, buf: seq<B.Staged>): seq<B.Staged> {
    if active then BO.Rebuild(Punch(offset, offset + |data|), ino, buf)
    else BO.Stage(buf, B.Staged(ino, offset, |data|, data, false))
  }

  class LiveEngine {
    const pool: BlockPool
    const active: bool            // the I/O context is registered
    const capacity: Option<nat>   // bytes of live-data area, when the pool reports a capacity
    var extents: seq<Extent>
    var buffer: seq<B.Staged>
    var tail: nat                 // next_live_data_offset
    var sizes: map<nat, nat>      // inode -> file size

    constructor (pool: BlockPool, active: bool, capacity: Option<nat>)
      requires pool.Valid()
      ensures Valid() && this.pool == pool && this.active == active && this.capacity == capacity
      ensures sizes == map[] && extents == [] && buffer == [] && tail == 0 && Covered()
    {
      this.pool, this.active, this.capacity := pool, active, capacity;
      extents, buffer, tail, sizes := [], [], 0, map[];
    }

    ghost predicate ExtentsOk()
      reads this
    {
      && Laid(extents) && Ordered(extents) && Joined(extents) && BelowTail(extents, tail)
      && tail % LIVE_BLOCK == 0 && WithinBounds(tail)
    }

    ghost predicate Valid()
      reads this
    {
      && pool.Valid()
      && ExtentsOk()
      && B.AllStaged(buffer) && B.AllDisjoint(buffer)
      && Consistent(extents, buffer, sizes)
    }

    /** Every byte staged as data lies over a stored one; with active storage no data is staged. */
    ghost predicate Covered()
      reads this`extents, this`buffer
    {
      PutsCovered(active, extents, buffer)
    }

    /** A healthy device that holds the whole live-data area. */
    ghost predicate Roomy()
      reads pool
    {
      pool.Healthy(|pool.image|) && capacity.Some? && pool.dataBase + capacity.value <= |pool.image|
    }

    /** Every stored byte lies on a healthy device. */
    ghost predicate Reachable()
      reads this`extents, pool
    {
      pool.Healthy(|pool.image|)
        && forall e :: e in extents && e.kind.Data? ==> pool.dataBase + e.reserved <= |pool.image|
    }

    /** The allocator holds on to nothing above the last reservation. */
    ghost predicate Snug()
      reads this`tail, this`extents
    {
      tail == TailOf(extents)
    }

    /** Free space for `n` bytes even if each of them needed a block of its own. */
    ghost predicate Spare(n: nat)
      reads this`tail
    {
      WithinBounds(tail + LIVE_BLOCK * n)
    }

    ghost predicate WithinBounds(end: nat) {
      InBounds(capacity, end)
    }

    /** No staged entry ends past the 64-bit range. */
    ghost predicate Within()
      reads this`buffer
    {
      BO.EndsFit(buffer)
    }

    lemma RoomyReaches()
      requires ExtentsOk() && Roomy()
      ensures Reachable()
    {
    }

    ghost function Byte(ino: nat, k: nat): byte
      reads this`extents, this`buffer, pool
    {
      Contents(active, pool.dataBase, pool.image, extents, buffer, ino, k)
    }

    /** Every byte of every file is what `op` on `target` makes of the bytes a state with these parts had. */
    ghost predicate ChangedFrom(op: FileOp, target: nat, size: nat, image: seq<byte>, es: seq<Extent>,
                                buf: seq<B.Staged>)
      reads this`extents, this`buffer, pool
    {
      forall i: nat, k: nat ::
        Byte(i, k) == match OriginFor(op, target, size, i, k)
                      case OldByte(j) => Contents(active, pool.dataBase, image, es, buf, i, j)
                      case NewByte(b) => b
    }

    /** An operation that keeps every byte where it is. */
    lemma ChangesNothing(op: FileOp, target: nat, size: nat, image: seq<byte>, es: seq<Extent>, buf: seq<B.Staged>)
      requires forall k: nat :: OriginOf(op, size, k) == OldByte(k)
      requires forall i: nat, k: nat :: Byte(i, k) == Contents(active, pool.dataBase, image, es, buf, i, k)
      ensures ChangedFrom(op, target, size, image, es, buf)
    {
    }

    /** Every byte of every file is what `op` on `target` makes of the bytes before. */
    twostate predicate Changed(op: FileOp, target: nat, size: nat)
      reads this`extents, this`buffer, pool
    {
      ChangedFrom(op, target, size, old(pool.image), old(extents), old(buffer))
    }

    /** Extents and staged bytes of `ino` have both been rearranged by `m`, and no others. */
    twostate predicate Rearranged(m: Remap, ino: nat)
      reads this`extents, this`buffer
    {
      && (forall i, k :: At(extents, i, k) == EO.Moved(m, ino, old(extents), i, k))
      && (forall i, k :: B.Overlay(buffer, i, k) == BO.MovedOverlay(m, ino, old(buffer), i, k))
    }

    /** A write has failed: the buffer is as it was, and the range reads as `HalfByte` says. */
    twostate predicate HalfWritten(ino: nat, lo: nat, data: seq<byte>)
      reads this`extents, this`buffer, pool
    {
      && buffer == old(buffer)
      && forall k: nat :: lo <= k < lo + |data| ==>
                            HalfByte(pool.dataBase, old(pool.image), pool.image, old(extents), extents, buffer,
                              old(tail), ino, lo, data, k)
    }

    /** Storage was handed out as foreseen; if there was not enough of it nothing was written, and otherwise a healthy
        device took all of the data. */
    twostate predicate Foretold(ino: nat, lo: nat, data: seq<byte>)
      reads this`extents, pool
    {
      && RangeHanded(old(extents), extents, ino, lo, |data|, old(tail), capacity)
      && if RangeVerdict(old(extents), ino, lo, |data|, old(tail), capacity).Err? then pool.image == old(pool.image)
         else old(Roomy()) && |data| <= U32_MAX ==>
           Landed(extents, pool.dataBase, pool.image, ino, lo, lo + |data|, data)
    }

    /** The answer is the one foreseen, unless the device had a say in it. */
    twostate predicate AsForeseen(ino: nat, lo: nat, length: nat, r: Result<()>) {
      var v := RangeVerdict(old(extents), ino, lo, length, old(tail), capacity);
      if v.Err? then r == v
      else old(Roomy()) && length <= U32_MAX ==>
        r == WriteAnswer(old(extents), old(buffer), ino, lo, length, old(tail), capacity)
    }

    /** The buffer has been rearranged by `m`, the extents have not. */
    twostate predicate HalfRearranged(m: Remap, ino: nat)
      reads this`extents, this`buffer
    {
      && extents == old(extents) && buffer == BO.Rebuild(m, ino, old(buffer))
      && forall i, k :: B.Overlay(buffer, i, k) == BO.MovedOverlay(m, ino, old(buffer), i, k)
    }

    /** Every byte of every file reads as before. */
    twostate predicate Untouched()
      reads this`extents, this`buffer, pool
    {
      forall i: nat, k: nat :: Byte(i, k) == old(Byte(i, k))
    }

    // ---------- the extent vector ----------

    /** The rebuild loop shared by the four extent operations, up to the assignment of the vector. */
    method CutExtents(m: Remap, ino: nat) returns (ok: bool)
      modifies this`extents
      ensures ok <==> ExtentsFit(m, ino, old(extents))
      ensures extents == if ok then Cut(old(extents), m, ino) else old(extents)
    {
      var next;
      ok, next := CutAll(m, ino, extents);
      if ok {
        extents := next;
      }
    }

    static method CutAll(m: Remap, ino: nat, was: seq<Extent>) returns (ok: bool, next: seq<Extent>)
      ensures ok <==> ExtentsFit(m, ino, was)
      ensures ok ==> next == Cut(was, m, ino)
    {
      next := [];
      for i := 0 to |was|
        invariant CutSoFar(m, ino, was, i, next)
        invariant forall j :: 0 <= j < i ==> ExtentFits(m, ino, was[j])
      {
        if !ExtentFits(m, ino, was[i]) {
          return false, next;
        }
        next := CutEntry(m, ino, was, i, next);
      }
      CutAllOf(m, ino, was, next);
      ok := true;
    }

    static method CutEntry(m: Remap, ino: nat, was: seq<Extent>, i: nat, out: seq<Extent>) returns (next: seq<Extent>)
      requires i < |was| && CutSoFar(m, ino, was, i, out)
      ensures CutSoFar(m, ino, was, i + 1, next)
    {
      CutStep(m, ino, was, i);
      next := PushPieces(out, EO.PiecesFor(m, ino, was[i]));
    }

    /** `push_live_extent_entry` for each piece of an entry. */
    static method PushPieces(out: seq<Extent>, ps: seq<Extent>) returns (next: seq<Extent>)
      ensures next == PushAll(out, ps)
    {
      next := out;
      for j := 0 to |ps|
        invariant next == PushAll(out, ps[..j])
      {
        assert ps[..j + 1][..j] == ps[..j];
        next := Push(next, ps[j]);
      }
      assert ps[..|ps|] == ps;
    }

    /** `insert_live_extent_entry_sorted` */
    method InsertEntry(ts: seq<Extent>, e: Extent) returns (r: seq<Extent>)
      ensures r == InsertSorted(ts, e)
    {
      if e.start >= e.end {
        return ts;
      }
      var pos := 0;
      while pos < |ts| && ts[pos].start <= e.start
        invariant pos <= |ts|
        invariant InsertSorted(ts, e) == ts[..pos] + InsertSorted(ts[pos..], e)
      {
        InsertFurther(ts, e, pos);
        pos := pos + 1;
      }
      InsertHere(ts, e, pos);
      r := ts[..pos] + [e] + ts[pos..];
    }

    /** `sort_live_extents_for_inode` */
    method SortExtents(ino: nat)
      modifies this`extents
      ensures extents == SortFor(old(extents), ino)
    {
      var was := extents;
      var others, target: seq<Extent> := [], [];
      for i := 0 to |was|
        invariant others == Others(was[..i], ino) && target == Target(was[..i], ino)
      {
        assert was[..i + 1][..i] == was[..i];
        if was[i].ino == ino {
          target := InsertEntry(target, was[i]);
        } else {
          others := others + [was[i]];
        }
      }
      assert was[..|was|] == was;
      ghost var front := others;
      for i := 0 to |target|
        invariant others == PushAll(front, target[..i])
      {
        assert target[..i + 1][..i] == target[..i];
        others := Push(others, target[i]);
      }
      assert target[..|target|] == target;
      extents := others;
    }

    /** `recompute_live_data_allocator_tail` */
    method RecomputeTail()
      modifies this`tail
      ensures tail == TailOf(extents)
    {
      var t := 0;
      for i := 0 to |extents|
        invariant t == TailOf(extents[..i])
      {
        assert extents[..i + 1][..i] == extents[..i];
        if extents[i].kind.Data? {
          t := Max(t, EntryTail(extents[i]));
        }
      }
      assert extents[..|extents|] == extents;
      tail := t;
    }

    /** `truncate_live_extents`, `collapse_live_extents`, `insert_live_extents` and the hole-punching
        form of `set_live_extent_range`: cut, sort, recompute. */
    method RemapExtents(m: Remap, ino: nat) returns (ok: bool)
      requires ExtentsOk() && Sensible(m)
      modifies this`extents, this`tail
      ensures ok <==> ExtentsFit(m, ino, old(extents))
      ensures ExtentsOk() && tail <= old(tail)
      ensures ok ==> Snug() && forall i, k :: At(extents, i, k) == EO.Moved(m, ino, old(extents), i, k)
      ensures !ok ==> extents == old(extents) && tail == old(tail)
    {
      CutAndSort(extents, m, ino, tail);
      ok := CutExtents(m, ino);
      if ok {
        SortExtents(ino);
        RecomputeTail();
      }
    }

    /** `set_live_extent_range_with_physical` with a kind. */
    method PlaceRange(e: Extent)
      requires ExtentsOk() && WellFormed(e)
      requires e.kind.Data? ==>
                 && BelowTail(extents, e.phys) && e.phys % LIVE_BLOCK == 0 && e.reserved <= tail
      modifies this`extents, this`tail
      ensures ExtentsOk() && Snug() && tail <= old(tail)
      ensures PlacedMap(old(extents), e, extents)
    {
      ghost var was, bound := extents, tail;
      PlaceExtent(extents, e, if e.kind.Data? then e.phys else tail);
      var ok := CutExtents(Punch(e.start, e.end), e.ino);
      extents := Push(extents, e);
      SortExtents(e.ino);
      assert extents == Placed(was, e);
      RecomputeTail();
      TailIsLeast(extents, bound);
    }

    /** `allocate_live_data_range` */
    method Allocate(length: nat) returns (r: Result<nat>)
      requires ExtentsOk() && length > 0
      modifies this`tail
      ensures ExtentsOk()
      ensures r.Ok? ==>
                && r.value == old(tail) && BelowTail(extents, r.value) && r.value % LIVE_BLOCK == 0
                && r.value + length <= tail
      ensures var next := old(tail) + AlignUp(Max(length, LIVE_BLOCK));
              && r == (if next > U64_MAX then Err(EFBIG)
                   else if capacity.Some? && next > capacity.value then Err(ENOSPC) else Ok(old(tail)))
              && tail == if r.Ok? then next else old(tail)
      ensures tail <= old(tail) + LIVE_BLOCK * length && (old(Spare(length)) ==> r.Ok?)
    {
      var start := AlignUp(tail);
      var next := start + AlignUp(Max(length, LIVE_BLOCK));
      if next > U64_MAX {
        return Err(EFBIG);
      }
      if capacity.Some? && next > capacity.value {
        return Err(ENOSPC);
      }
      tail := next;
      return Ok(start);
    }

    /** The scan of `fill_live_extent_holes`: how far the bytes from `cursor` on are mapped, or where
        the next mapped byte is. */
    method ScanCover(ino: nat, cursor: nat, end: nat) returns (coveredEnd: nat, nextStart: nat)
      requires Laid(extents) && cursor < end
      ensures cursor <= coveredEnd <= end && cursor < nextStart <= end
      ensures forall k :: cursor <= k < coveredEnd ==> !At(extents, ino, k).Hole?
      ensures coveredEnd == cursor ==> forall k :: cursor <= k < nextStart ==> At(extents, ino, k).Hole?
      ensures coveredEnd == cursor && nextStart < end ==> !At(extents, ino, nextStart).Hole?
    {
      coveredEnd, nextStart := cursor, end;
      for i := 0 to |extents|
        invariant cursor <= coveredEnd <= end && cursor < nextStart <= end
        invariant forall k :: cursor <= k < coveredEnd ==> !At(extents, ino, k).Hole?
        invariant nextStart < end ==> !At(extents, ino, nextStart).Hole?
        invariant forall j ::
                    0 <= j < i && extents[j].ino == ino && cursor < extents[j].end && extents[j].start < end ==>
                      if extents[j].start <= cursor then coveredEnd > cursor else nextStart <= extents[j].start
      {
        var e := extents[i];
        assert WellFormed(e) by { assert e in extents; }
        if e.ino == ino && cursor < e.end && e.start < end {
          if e.start <= cursor {
            MappedHere(extents, e);
            coveredEnd := Max(coveredEnd, Min(e.end, end));
          } else {
            MappedHere(extents, e);
            nextStart := Min(nextStart, e.start);
          }
        }
      }
      if coveredEnd == cursor {
        forall k | cursor <= k < nextStart ensures At(extents, ino, k).Hole? {
          forall e | e in extents ensures !Covers(e, ino, k) {
            var j :| 0 <= j < |extents| && extents[j] == e;
          }
        }
      }
    }

    /** The cursor loop of `fill_live_extent_holes`: the holes of [offset, end) as UNWRITTEN extents. */
    method FindGaps(ino: nat, offset: nat, end: nat) returns (gaps: seq<Extent>)
      requires ExtentsOk() && offset <= end
      ensures Laid(extents + gaps) && FilledMap(extents, ino, offset, end, extents + gaps)
      ensures forall g :: g in gaps ==> g.ino == ino && g.kind.Unwritten?
    {
      var cursor := offset;
      gaps := [];
      assert extents + gaps == extents;
      while cursor < end
        invariant offset <= cursor <= end
        invariant Laid(extents + gaps) && FilledMap(extents, ino, offset, cursor, extents + gaps)
        invariant forall g :: g in gaps ==> g.ino == ino && g.kind.Unwritten?
        invariant gaps != [] ==> gaps[|gaps| - 1].end <= cursor
        invariant gaps != [] && gaps[|gaps| - 1].end == cursor < end ==> !At(extents, ino, cursor).Hole?
      {
        var coveredEnd, nextStart := ScanCover(ino, cursor, end);
        if coveredEnd > cursor {
          FilledFurther(extents, ino, offset, cursor, coveredEnd, extents + gaps);
          cursor := coveredEnd;
        } else {
          AddGap(extents, gaps, ino, offset, cursor, nextStart);
          gaps := Push(gaps, Extent(ino, cursor, nextStart, 0, 0, Unwritten));
          cursor := nextStart;
        }
      }
    }

    /** `fill_live_extent_holes` for UNWRITTEN extents. */
    method FillHoles(ino: nat, offset: nat, length: nat)
      requires ExtentsOk()
      modifies this`extents, this`tail
      ensures ExtentsOk() && tail <= old(tail)
      ensures FilledMap(old(extents), ino, offset, offset + length, extents)
    {
      if length == 0 {
        return;
      }
      var gaps := FindGaps(ino, offset, offset + length);
      FillAndSort(extents, gaps, ino, offset, offset + length, tail);
      ghost var was := extents;
      for i := 0 to |gaps|
        invariant extents == PushAll(was, gaps[..i])
      {
        assert gaps[..i + 1][..i] == gaps[..i];
        extents := Push(extents, gaps[i]);
      }
      assert gaps[..|gaps|] == gaps;
      SortExtents(ino);
      RecomputeTail();
    }

    // ---------- the write buffer ----------

    /** The rebuild loop shared by `clear_live_write_buffer_range`, `truncate_live_write_buffer`,
        `collapse_live_write_buffer` and `insert_live_write_buffer`; not `ok` stands for EFBIG. */
    method RemapBuffer(m: Remap, ino: nat) returns (ok: bool)
      requires B.AllStaged(buffer) && B.AllDisjoint(buffer) && Sensible(m)
      modifies this`buffer
      ensures ok <==> BO.Fits(m, ino, old(buffer))
      ensures B.AllStaged(buffer) && B.AllDisjoint(buffer)
      ensures buffer == if ok then BO.Rebuild(m, ino, old(buffer)) else old(buffer)
      ensures ok ==> forall i, k :: B.Overlay(buffer, i, k) == BO.MovedOverlay(m, ino, old(buffer), i, k)
    {
      var was, next: seq<B.Staged> := buffer, [];
      for i := 0 to |was|
        invariant buffer == was && BO.SoFar(m, ino, was, i, next)
      {
        ok, next := RebuildEntry(m, ino, was, i, next);
        if !ok {
          return;
        }
      }
      BO.AllSoFar(m, ino, was, next);
      BO.RebuildOverlay(m, ino, was);
      BO.RebuildDisjoint(m, ino, was);
      buffer, ok := next, true;
    }

    /** One entry of the old buffer: checked, cut and pushed. */
    static method RebuildEntry(m: Remap, ino: nat, was: seq<B.Staged>, i: nat, out: seq<B.Staged>)
      returns (ok: bool, next: seq<B.Staged>)
      requires i < |was| && B.AllStaged(was) && Sensible(m) && BO.SoFar(m, ino, was, i, out)
      ensures ok ==> BO.SoFar(m, ino, was, i + 1, next)
      ensures !ok ==> !BO.Fits(m, ino, was)
    {
      assert was[i] in was;
      if !BO.EntryFits(m, ino, was[i]) {
        return false, out;
      }
      BO.PiecesStaged(m, ino, was[i]);
      ok, next := PushStaged(out, B.PiecesFor(m, ino, was[i]), BO.Cut(m, ino, was[..i]));
      BO.OneMore(m, ino, was, i, out, next, ok);
    }

    /** `push_write_buffer_entry` for the pieces of one entry, behind `cut`. */
    static method PushStaged(out: seq<B.Staged>, ps: seq<B.Staged>, ghost cut: seq<B.Staged>)
      returns (ok: bool, next: seq<B.Staged>)
      requires |ps| <= 2 && B.AllStaged(out) && BO.SameLast(out, cut) && BO.Flows(cut)
      requires forall j :: 0 <= j < |ps| ==> B.WellStaged(ps[j])
      ensures ok <==> BO.Flows(cut + ps)
      ensures ok ==> next == BO.PushList(out, ps) && B.AllStaged(next) && BO.SameLast(next, cut + ps)
    {
      next, ok := out, true;
      if |ps| > 0 {
        ok, next := PushOne(out, ps[0], cut);
        if ok && |ps| == 2 {
          ok, next := PushOne(next, ps[1], cut + [ps[0]]);
          assert cut + [ps[0]] + [ps[1]] == cut + ps;
        } else if !ok {
          assert cut + ps == cut + [ps[0]] + ps[1..];
          if BO.Flows(cut + ps) { BO.FlowsPrefix(cut + [ps[0]], ps[1..]); }
        } else {
          assert cut + [ps[0]] == cut + ps;
        }
      } else {
        assert cut + ps == cut;
      }
    }

    static method PushOne(out: seq<B.Staged>, p: B.Staged, ghost cut: seq<B.Staged>)
      returns (ok: bool, next: seq<B.Staged>)
      requires B.AllStaged(out) && BO.SameLast(out, cut) && BO.Flows(cut) && B.WellStaged(p)
      ensures ok <==> BO.Flows(cut + [p])
      ensures ok ==> next == B.PushEntry(out, p) && B.AllStaged(next) && BO.SameLast(next, cut + [p])
    {
      BO.PushLast(out, p, cut);
      if !BO.CanPush(out, p) {
        return false, out;
      }
      return true, B.PushEntry(out, p);
    }

    /** `set_live_write_buffer_range`; not `ok` stands for EFBIG. */
    method StageRange(e: B.Staged) returns (ok: bool)
      requires B.AllStaged(buffer) && B.AllDisjoint(buffer) && (e.len == 0 || B.WellStaged(e))
      modifies this`buffer
      ensures ok <==> e.len == 0 || (B.End(e) <= U64_MAX && old(Within()))
      ensures B.AllStaged(buffer) && B.AllDisjoint(buffer)
      ensures buffer == if ok && e.len > 0 then BO.Stage(old(buffer), e) else old(buffer)
      ensures ok ==> forall i, k :: B.Overlay(buffer, i, k) ==
                                    if B.Holds(e, i, k) then Some(B.MarkOf(e, k)) else B.Overlay(old(buffer), i, k)
      ensures old(Within()) ==> Within()
    {
      if e.len == 0 {
        return true;
      }
      if B.End(e) > U64_MAX {
        return false;
      }
      if Within() {
        BO.StageKeeps(buffer, e);
        BO.StageEnds(buffer, e);
      }
      ok := RemapBuffer(Punch(e.offset, B.End(e)), e.ino);
      if ok {
        // No entry is left that ends past the range, so the last push is not refused.
        buffer := B.PushEntry(buffer, e);
      }
    }

    // ---------- storage ----------

    /** The scan of `ensure_live_data_extents_for_writeback` at `cursor`. */
    method ScanForData(ino: nat, cursor: nat, end: nat)
      returns (dataEnd: Option<nat>, convertEnd: Option<nat>, nextStart: nat)
      requires ExtentsOk() && cursor < end
      ensures dataEnd.Some? ==>
                cursor < dataEnd.value <= end && forall k :: cursor <= k < dataEnd.value ==> At(extents, ino, k).Stored?
      ensures convertEnd.Some? ==>
                cursor < convertEnd.value <= end
                  && forall k :: cursor <= k < convertEnd.value ==> At(extents, ino, k).Preallocated?
      ensures convertEnd.Some? && convertEnd.value < end ==> !At(extents, ino, convertEnd.value).Preallocated?
      ensures dataEnd.None? && convertEnd.None? ==>
                cursor < nextStart <= end && forall k :: cursor <= k < nextStart ==> At(extents, ino, k).Hole?
      ensures dataEnd.None? && convertEnd.None? && nextStart < end ==> !At(extents, ino, nextStart).Hole?
    {
      dataEnd, convertEnd, nextStart := None, None, end;
      for i := 0 to |extents|
        invariant convertEnd.None? && cursor < nextStart <= end
                    && (nextStart < end ==> !At(extents, ino, nextStart).Hole?)
        invariant dataEnd.Some? ==>
                    cursor < dataEnd.value <= end
                      && forall k :: cursor <= k < dataEnd.value ==> At(extents, ino, k).Stored?
        invariant forall j ::
                    0 <= j < i && extents[j].ino == ino && cursor < extents[j].end && extents[j].start < end ==>
                      if extents[j].start <= cursor then dataEnd.Some? else nextStart <= extents[j].start
      {
        var e := extents[i];
        if e.ino == ino && cursor < e.end && e.start < end {
          if e.start <= cursor {
            var entryEnd := Min(e.end, end);
            forall k | cursor <= k < entryEnd ensures At(extents, ino, k) == CellOf(e, k) {
              AtIs(extents, e, k);
            }
            if e.kind.Data? {
              dataEnd := Some(if dataEnd.Some? then Max(dataEnd.value, entryEnd) else entryEnd);
            } else {
              convertEnd := Some(entryEnd);
              PreallocatedEnds(extents, e);
              return;
            }
          } else {
            AtIs(extents, e, e.start);
            nextStart := Min(nextStart, e.start);
          }
        }
      }
      if dataEnd.None? { HoleBefore(extents, ino, cursor, nextStart, end); }
    }

    /** No entry reaches into the stretch, so it is a hole. */
    static lemma HoleBefore(es: seq<Extent>, ino: nat, cursor: nat, next: nat, end: nat)
      requires next <= end
      requires forall j :: 0 <= j < |es| && es[j].ino == ino && cursor < es[j].end && es[j].start < end ==>
                 cursor < es[j].start && next <= es[j].start
      ensures forall k :: cursor <= k < next ==> At(es, ino, k).Hole?
    {
      forall k | cursor <= k < next ensures At(es, ino, k).Hole? {
        forall e | e in es ensures !Covers(e, ino, k) {
          var j :| 0 <= j < |es| && es[j] == e;
        }
      }
    }

    /** A stretch without storage gets a fresh extent of its own. */
    method GiveStorage(ino: nat, lo: nat, hi: nat) returns (r: Result<()>)
      requires ExtentsOk() && lo < hi
      requires forall k: nat ::
                 lo <= k < hi ==> !At(extents, ino, k).Stored? && At(extents, ino, k) == At(extents, ino, lo)
      modifies this`extents, this`tail
      ensures ExtentsOk() && tail <= old(tail) + LIVE_BLOCK * (hi - lo)
      ensures r.Ok? ==> OnlyGains(old(extents), extents, ino, lo, hi) && AllStored(extents, ino, lo, hi)
      ensures r.Ok? ==> FreshGains(old(extents), extents, old(tail)) && old(tail) <= tail
      ensures r.Err? ==> extents == old(extents) && tail == old(tail) && (r.errno == ENOSPC || r.errno == EFBIG)
      ensures r.Err? ==> !WithinBounds(tail + AlignUp(Max(hi - lo, LIVE_BLOCK)))
      ensures old(Spare(hi - lo)) ==> r.Ok?
      ensures r == RoomVerdict(capacity, TailAfter(old(tail), hi - lo))
                && (r.Ok? ==> tail == TailAfter(old(tail), hi - lo))
      ensures r.Ok? ==> forall k: nat :: lo <= k < hi ==> At(extents, ino, k) == Stored(old(tail) + (k - lo))
    {
      var physical := Allocate(hi - lo);
      if physical.Err? {
        return Err(physical.errno);
      }
      var e := Extent(ino, lo, hi, physical.value, physical.value + (hi - lo), Data);
      PlaceRange(e);
      FreshPlaced(old(extents), e, extents, old(tail));
      ghost var j := AtFrom(extents, ino, lo);
      assert extents[j] in extents && WellFormed(extents[j]);
      TailBehind(extents, ino, hi, physical.value, hi - lo);
      r := Ok(());
    }

    /** The data extents of [lo, upto) are there; for the stretch behind there was no room. */
    twostate predicate GaveUpTo(ino: nat, lo: nat, upto: nat, hi: nat)
      reads this`extents, this`tail, pool
    {
      && lo <= upto <= hi && AllStored(extents, ino, lo, upto) && OnlyGains(old(extents), extents, ino, lo, upto)
      && FreshGains(old(extents), extents, old(tail))
      && (upto == lo ==> extents == old(extents) && tail == old(tail)) && (upto < hi ==> pool.image == old(pool.image))
      && (upto < hi <= U64_MAX ==> exists n: nat :: n <= hi - upto && !WithinBounds(tail + AlignUp(Max(n, LIVE_BLOCK))))
    }

    twostate predicate GaveSome(ino: nat, lo: nat, hi: nat)
      reads this`extents, this`tail, pool
    {
      exists upto: nat :: GaveUpTo(ino, lo, upto, hi)
    }

    /** `ensure_live_data_extents_for_writeback` */
    method EnsureData(ino: nat, offset: nat, length: nat) returns (r: Result<()>, ghost upto: nat)
      requires ExtentsOk()
      modifies this`extents, this`tail
      ensures ExtentsOk() && OnlyGains(old(extents), extents, ino, offset, offset + length)
      ensures r.Ok? ==> upto == offset + length
      ensures GaveUpTo(ino, offset, upto, offset + length)
      ensures r.Err? ==> r.errno == ENOSPC || r.errno == EFBIG
      ensures tail <= old(tail) + LIVE_BLOCK * length
      ensures offset + length <= U64_MAX && old(Spare(length)) ==> r.Ok?
      ensures r == RangeVerdict(old(extents), ino, offset, length, old(tail), capacity)
      ensures RangeHanded(old(extents), extents, ino, offset, length, old(tail), capacity)
    {
      upto := offset;
      if length == 0 {
        NothingHanded(extents, ino, offset, length, tail, capacity);
        return Ok(()), upto;
      }
      if offset + length > U64_MAX {
        NothingHanded(extents, ino, offset, length, tail, capacity);
        return Err(EFBIG), upto;
      }
      r, upto := EnsureRange(ino, offset, length);
      GainsFurther(old(extents), extents, ino, offset, upto, offset + length);
    }

    method EnsureRange(ino: nat, lo: nat, length: nat) returns (r: Result<()>, ghost upto: nat)
      requires ExtentsOk() && 0 < length && lo + length <= U64_MAX
      modifies this`extents, this`tail
      ensures ExtentsOk() && Gained(old(extents), extents, ino, lo, upto, lo + length, old(tail), tail)
      ensures r.Ok? ==> upto == lo + length
      ensures r.Err? ==> upto < lo + length && NoRoom(lo, upto, lo + length, old(tail), tail, capacity, r)
      ensures r == RangeVerdict(old(extents), ino, lo, length, old(tail), capacity)
      ensures RangeHanded(old(extents), extents, ino, lo, length, old(tail), capacity)
    {
      var hi := lo + length;
      r, upto := EnsureAll(ino, lo, hi);
      ProvidedRange(old(extents), extents, ino, lo, hi, length, old(tail), capacity, r);
    }

    /** The loop of `ensure_live_data_extents_for_writeback`. */
    method EnsureAll(ino: nat, lo: nat, hi: nat) returns (r: Result<()>, ghost upto: nat)
      requires ExtentsOk() && lo < hi <= U64_MAX
      modifies this`extents, this`tail
      ensures ExtentsOk() && Gained(old(extents), extents, ino, lo, upto, hi, old(tail), tail)
      ensures if r.Ok? then upto == hi else upto < hi && NoRoom(lo, upto, hi, old(tail), tail, capacity, r)
      ensures Provided(old(extents), extents, ino, lo, hi, old(tail), capacity, r)
    {
      ghost var es, start := extents, tail;
      var cursor := lo;
      upto := lo;
      while cursor < hi
        invariant ExtentsOk() && upto == cursor && Ensured(es, extents, ino, lo, cursor, hi, start, tail, capacity)
      {
        r, cursor := EnsureNext(ino, lo, cursor, hi, es, start);
        upto := cursor;
        if r.Err? {
          return;
        }
      }
      HandedAll(es, extents, ino, lo, hi, start, tail, capacity);
      r := Ok(());
    }

    /** One turn of the loop. */
    method EnsureNext(ino: nat, ghost lo: nat, cursor: nat, hi: nat, ghost es: seq<Extent>, ghost start: nat)
      returns (r: Result<()>, next: nat)
      requires ExtentsOk() && cursor < hi <= U64_MAX && Ensured(es, extents, ino, lo, cursor, hi, start, tail, capacity)
      modifies this`extents, this`tail
      ensures ExtentsOk() && Ensured(es, extents, ino, lo, next, hi, start, tail, capacity)
      ensures r.Ok? ==> cursor < next
      ensures r.Err? ==> next == cursor && Stopped(es, extents, ino, lo, cursor, hi, start, tail, capacity, r)
    {
      var dataEnd, convertEnd, nextStart := ScanForData(ino, cursor, hi);
      if dataEnd.Some? {
        GainsFurther(es, extents, ino, lo, cursor, dataEnd.value);
        HandedPast(es, extents, ino, lo, cursor, dataEnd.value, hi, start, tail, capacity);
        return Ok(()), dataEnd.value;
      }
      next := if convertEnd.Some? then convertEnd.value else nextStart;
      r := GiveRun(ino, lo, cursor, next, hi, es, start);
      if r.Err? { next := cursor; }
    }

    /** The run that starts at `cursor` gets storage of its own. */
    method GiveRun(ino: nat, ghost lo: nat, cursor: nat, h: nat, ghost hi: nat, ghost es: seq<Extent>, ghost start: nat)
      returns (r: Result<()>)
      requires ExtentsOk() && hi <= U64_MAX && Ensured(es, extents, ino, lo, cursor, hi, start, tail, capacity)
                 && WholeRun(extents, ino, cursor, h, hi)
      modifies this`extents, this`tail
      ensures ExtentsOk() && (r.Ok? ==> Ensured(es, extents, ino, lo, h, hi, start, tail, capacity))
      ensures r.Err? ==>
                Ensured(es, extents, ino, lo, cursor, hi, start, tail, capacity)
                && Stopped(es, extents, ino, lo, cursor, hi, start, tail, capacity, r)
    {
      ghost var was, below := extents, tail;
      r := GiveStorage(ino, cursor, h);
      BlockPerByte(below, h - cursor);
      if r.Err? {
        RunRefused(es, was, ino, lo, cursor, h, hi, start, below, capacity);
      } else {
        RunGiven(es, was, extents, ino, lo, cursor, h, hi, start, below, capacity);
      }
    }

    /** `write_live_data_range_to_storage`: the DATA extents under the range are collected after they
        have all been allocated; they do not change while they are written. */
    method WriteRange(ino: nat, offset: nat, data: seq<byte>) returns (r: Result<()>, ghost upto: nat)
      requires ExtentsOk() && pool.Valid()
      modifies this`extents, this`tail, pool
      ensures ExtentsOk() && OnlyGains(old(extents), extents, ino, offset, offset + |data|)
      ensures GaveUpTo(ino, offset, upto, offset + |data|) && (r.Ok? ==> upto == offset + |data|)
      ensures Partly(extents, pool.dataBase, old(pool.image), pool.image, ino, offset, data)
      ensures SameElsewhere(extents, pool.dataBase, old(pool.image), pool.image, ino, offset, offset + |data|)
      ensures r.Ok? ==> Landed(extents, pool.dataBase, pool.image, ino, offset, offset + |data|, data)
      ensures r.Ok? ==> AllStored(extents, ino, offset, offset + |data|)
      ensures r.Err? ==> r.errno == ENOSPC || StorageError(r.errno)
      ensures |pool.image| == |old(pool.image)|
      ensures old(Roomy()) && |data| <= U32_MAX && r.Err? ==> r.errno == ENOSPC || r.errno == EFBIG
      ensures tail <= old(tail) + LIVE_BLOCK * |data| && (data != [] && offset + |data| > U64_MAX ==> r == Err(EFBIG))
      ensures old(Roomy() && Spare(|data|)) && |data| <= U32_MAX && offset + |data| <= U64_MAX ==> r.Ok?
      ensures SameBelow(old(pool.image), pool.image, pool.dataBase)
      ensures Foretold(ino, offset, data)
      ensures var v := RangeVerdict(old(extents), ino, offset, |data|, old(tail), capacity);
              if v.Err? then r == v else old(Roomy()) && |data| <= U32_MAX ==> r.Ok?
    {
      r, upto := EnsureData(ino, offset, |data|);
      if r.Ok? {
        if Roomy() { RoomyReaches(); }
        r := WriteExtents(ino, offset, data);
      }
    }

    /** The writing loop of `write_live_data_range_to_storage`. */
    method WriteExtents(ino: nat, offset: nat, data: seq<byte>) returns (r: Result<()>)
      requires Laid(extents) && Ordered(extents) && pool.Valid()
      requires forall k :: offset <= k < offset + |data| ==> At(extents, ino, k).Stored?
      modifies pool
      ensures SameElsewhere(extents, pool.dataBase, old(pool.image), pool.image, ino, offset, offset + |data|)
      ensures Partly(extents, pool.dataBase, old(pool.image), pool.image, ino, offset, data)
      ensures r.Ok? ==> Landed(extents, pool.dataBase, pool.image, ino, offset, offset + |data|, data)
      ensures r.Err? ==> StorageError(r.errno)
      ensures |pool.image| == |old(pool.image)| && (old(Reachable()) && |data| <= U32_MAX ==> r.Ok?)
      ensures SameBelow(old(pool.image), pool.image, pool.dataBase)
    {
      ghost var fr := FindFrontier(extents, ino, offset, offset + |data|);
      r := WriteAlong(ino, offset, data, fr);
    }

    method WriteAlong(ino: nat, offset: nat, data: seq<byte>, ghost fr: seq<nat>) returns (r: Result<()>)
      requires Laid(extents) && pool.Valid() && Frontier(extents, ino, offset, offset + |data|, fr)
      modifies pool
      ensures SameElsewhere(extents, pool.dataBase, old(pool.image), pool.image, ino, offset, offset + |data|)
      ensures Partly(extents, pool.dataBase, old(pool.image), pool.image, ino, offset, data)
      ensures r.Ok? ==> Landed(extents, pool.dataBase, pool.image, ino, offset, offset + |data|, data)
      ensures r.Err? ==> StorageError(r.errno)
      ensures |pool.image| == |old(pool.image)| && (old(Reachable()) && |data| <= U32_MAX ==> r.Ok?)
      ensures SameBelow(old(pool.image), pool.image, pool.dataBase)
    {
      var written: nat := 0;
      for i := 0 to |extents|
        invariant |pool.image| == |old(pool.image)|
        invariant offset + written == fr[i] <= offset + |data|
        invariant SameElsewhere(extents, pool.dataBase, old(pool.image), pool.image, ino, offset, offset + |data|)
        invariant Partly(extents, pool.dataBase, old(pool.image), pool.image, ino, offset, data)
        invariant SameBelow(old(pool.image), pool.image, pool.dataBase)
        invariant Landed(extents, pool.dataBase, pool.image, ino, offset, offset + written, data)
      {
        ghost var was := pool.image;
        assert FrontierStep(extents[i], ino, offset, offset + |data|, fr[i], fr[i + 1]);
        r, written := WriteAt(i, ino, offset, data, written);
        SameElsewhereTrans(extents, pool.dataBase, old(pool.image), was, pool.image, ino, offset, offset + |data|);
        PartlyTrans(extents, pool.dataBase, old(pool.image), was, pool.image, ino, offset, data);
        if r.Err? {
          return;
        }
      }
      // The source answers EIO here if the pieces do not add up to the request; they always do.
      r := Ok(());
    }

    /** One turn of that loop. */
    method WriteAt(i: nat, ino: nat, offset: nat, data: seq<byte>, done: nat) returns (r: Result<()>, written: nat)
      requires Laid(extents) && pool.Valid() && i < |extents| && done <= |data|
      requires Overlaps(extents[i], ino, offset, offset + |data|) ==> offset + done == Max(offset, extents[i].start)
      requires Landed(extents, pool.dataBase, pool.image, ino, offset, offset + done, data)
      modifies pool
      ensures SameElsewhere(extents, pool.dataBase, old(pool.image), pool.image, ino, offset, offset + |data|)
      ensures Partly(extents, pool.dataBase, old(pool.image), pool.image, ino, offset, data)
      ensures written == if Overlaps(extents[i], ino, offset, offset + |data|)
                then Min(offset + |data|, extents[i].end) - offset else done
      ensures r.Ok? ==> Landed(extents, pool.dataBase, pool.image, ino, offset, offset + written, data)
      ensures r.Err? ==> StorageError(r.errno)
      ensures |pool.image| == |old(pool.image)| && (old(Reachable()) && |data| <= U32_MAX ==> r.Ok?)
      ensures SameBelow(old(pool.image), pool.image, pool.dataBase)
    {
      var e, end := extents[i], offset + |data|;
      r, written := Ok(()), done;
      if Overlaps(e, ino, offset, end) {
        r := WritePiece(e, offset, Max(offset, e.start), Min(end, e.end), data);
        written := Min(end, e.end) - offset;
      }
    }

    /** The part [from, to) of a write at `offset`, which lies in one extent. */
    method WritePiece(e: Extent, offset: nat, from: nat, to: nat, data: seq<byte>) returns (r: Result<()>)
      requires Laid(extents) && pool.Valid() && e in extents && e.kind.Data?
      requires e.start <= from < to <= e.end && offset <= from && to - offset <= |data|
      modifies pool
      ensures SameElsewhere(extents, pool.dataBase, old(pool.image), pool.image, e.ino, offset, offset + |data|)
      ensures Partly(extents, pool.dataBase, old(pool.image), pool.image, e.ino, offset, data)
      ensures r.Ok? && old(Landed(extents, pool.dataBase, pool.image, e.ino, offset, from, data)) ==>
                Landed(extents, pool.dataBase, pool.image, e.ino, offset, to, data)
      ensures r.Err? ==> StorageError(r.errno)
      ensures |pool.image| == |old(pool.image)| && (old(Reachable()) && |data| <= U32_MAX ==> r.Ok?)
      ensures SameBelow(old(pool.image), pool.image, pool.dataBase)
    {
      ghost var was := pool.image;
      assert WellFormed(e);
      var piece := data[from - offset..to - offset];
      r := pool.WriteLiveEntry(e.phys + (from - e.start), to - from, piece, false);
      assert BlockPool.Payload(to - from, piece, false) == piece;
      WriteInside(extents, e, pool.dataBase, was, pool.image, from, piece, offset, offset + |data|);
      PartlyInside(extents, e, pool.dataBase, was, pool.image, from, piece, offset, data);
      if r.Ok? && Landed(extents, pool.dataBase, was, e.ino, offset, from, data) {
        LandedFurther(extents, e, pool.dataBase, was, pool.image, offset, from, to, data);
      }
    }

    /** `zero_live_data_range_to_storage` */
    method ZeroRange(ino: nat, offset: nat, length: nat) returns (r: Result<()>)
      requires Laid(extents) && pool.Valid()
      modifies pool
      ensures SameElsewhere(extents, pool.dataBase, old(pool.image), pool.image, ino, offset, offset + length)
      ensures r.Ok? ==> Zeroed(extents, pool.dataBase, pool.image, ino, offset, offset + length, |extents|)
      ensures r.Err? ==> StorageError(r.errno)
      ensures |pool.image| == |old(pool.image)| && (old(Reachable()) && length <= U32_MAX ==>
                r == if length > 0 && offset + length > U64_MAX then Err(EFBIG) else Ok(()))
      ensures SameBelow(old(pool.image), pool.image, pool.dataBase)
    {
      if length == 0 {
        return Ok(());
      }
      var end := offset + length;
      if end > U64_MAX {
        return Err(EFBIG);
      }
      for i := 0 to |extents|
        invariant |pool.image| == |old(pool.image)|
        invariant SameElsewhere(extents, pool.dataBase, old(pool.image), pool.image, ino, offset, end)
        invariant SameBelow(old(pool.image), pool.image, pool.dataBase)
        invariant Zeroed(extents, pool.dataBase, pool.image, ino, offset, end, i)
      {
        ghost var was := pool.image;
        r := ZeroAt(i, ino, offset, end);
        SameElsewhereTrans(extents, pool.dataBase, old(pool.image), was, pool.image, ino, offset, end);
        if r.Err? {
          return;
        }
      }
      r := Ok(());
    }

    /** One turn of that loop. */
    method ZeroAt(i: nat, ino: nat, offset: nat, end: nat) returns (r: Result<()>)
      requires Laid(extents) && pool.Valid() && i < |extents| && offset <= end
      requires Zeroed(extents, pool.dataBase, pool.image, ino, offset, end, i)
      modifies pool
      ensures SameElsewhere(extents, pool.dataBase, old(pool.image), pool.image, ino, offset, end)
      ensures r.Ok? ==> Zeroed(extents, pool.dataBase, pool.image, ino, offset, end, i + 1)
      ensures r.Err? ==> StorageError(r.errno)
      ensures |pool.image| == |old(pool.image)| && (old(Reachable()) && end - offset <= U32_MAX ==> r.Ok?)
      ensures SameBelow(old(pool.image), pool.image, pool.dataBase)
    {
      var e := extents[i];
      assert e in extents && WellFormed(e);
      r := Ok(());
      if Overlaps(e, ino, offset, end) {
        var from, to := Max(offset, e.start), Min(end, e.end);
        r := pool.WriteLiveEntry(e.phys + (from - e.start), to - from, [], true);
        WriteInside(extents, e, pool.dataBase, old(pool.image), pool.image, from, Zeros(to - from), offset, end);
      }
    }

    // ---------- read ----------

    /** One staged entry holds the whole range. */
    static ghost predicate Spans(e: B.Staged, ino: nat, offset: nat, length: nat) {
      e.ino == ino && e.offset <= offset && offset + length <= B.End(e) <= U64_MAX
    }

    /** `live_write_buffer_covers_range` */
    method BufferCovers(ino: nat, offset: nat, length: nat) returns (covered: bool)
      requires B.AllStaged(buffer)
      ensures covered ==> forall k :: offset <= k < offset + length ==> B.Overlay(buffer, ino, k).Some?
      ensures covered <==> length == 0 || exists e :: e in buffer && Spans(e, ino, offset, length)
    {
      if length == 0 {
        return true;
      }
      for i := 0 to |buffer|
        invariant forall j :: 0 <= j < i ==> !Spans(buffer[j], ino, offset, length)
      {
        var e := buffer[i];
        if e.ino == ino && B.End(e) <= U64_MAX && e.offset <= offset && offset + length <= B.End(e) {
          assert e in buffer && Spans(e, ino, offset, length);
          forall k | offset <= k < offset + length ensures B.Overlay(buffer, ino, k).Some? {
            assert e in buffer && B.Holds(e, ino, k);
            B.OverlayNone(buffer, ino, k);
          }
          return true;
        }
      }
      return false;
    }

    /** The extent scan of `read_live_inode_data`, with its early exits. */
    method ReadExtents(ino: nat, offset: nat, length: nat) returns (r: Result<seq<byte>>)
      requires ExtentsOk() && pool.Valid()
      ensures r.Ok? ==> |r.value| == length && Gathered(extents, pool.dataBase, pool.image, ino, offset, r.value)
      ensures r.Err? ==> StorageError(r.errno)
      ensures Reachable() && length <= U32_MAX ==> r.Ok?
    {
      var out := Zeros(length);
      var i, sawInode, end := 0, false, offset + length;
      while i < |extents| && !MayStop(extents, i, ino, end, sawInode)
        invariant i <= |extents| && |out| == length
        invariant sawInode ==> exists j :: 0 <= j < i && extents[j].ino == ino
        invariant Gathered(extents[..i], pool.dataBase, pool.image, ino, offset, out)
      {
        r := ReadEntry(i, ino, offset, out);
        if r.Err? {
          return;
        }
        out := r.value;
        sawInode := sawInode || extents[i].ino == ino;
        i := i + 1;
      }
      EarlyExit(extents, i, pool.dataBase, pool.image, ino, offset, out, sawInode);
      return Ok(out);
    }

    /** One turn of that scan. */
    method ReadEntry(i: nat, ino: nat, offset: nat, out: seq<byte>) returns (r: Result<seq<byte>>)
      requires Laid(extents) && pool.Valid() && i < |extents|
      requires Gathered(extents[..i], pool.dataBase, pool.image, ino, offset, out)
      ensures r.Ok? ==>
                |r.value| == |out| && Gathered(extents[..i + 1], pool.dataBase, pool.image, ino, offset, r.value)
      ensures r.Err? ==> StorageError(r.errno)
      ensures Reachable() && |out| <= U32_MAX ==> r.Ok?
    {
      var e, end := extents[i], offset + |out|;
      assert e in extents && WellFormed(e);
      LaidPrefix(extents, i + 1);
      assert extents[..i + 1] == extents[..i] + [e];
      if !Overlaps(e, ino, offset, end) {
        GatherNone(extents[..i], e, pool.dataBase, pool.image, ino, offset, out);
        return Ok(out);
      }
      var from := Max(offset, e.start);
      var got := pool.ReadLiveData(e.phys + (from - e.start), Min(end, e.end) - from);
      if got.Err? {
        return got;
      }
      GatherMore(extents[..i], e, pool.dataBase, pool.image, ino, offset, out, got.value);
      r := Ok(Splice(out, from - offset, got.value));
    }

    /** The overlay loop of `read_live_inode_data`: later entries override earlier ones. */
    method LayOver(ino: nat, offset: nat, under: seq<byte>) returns (out: seq<byte>)
      requires B.AllStaged(buffer)
      ensures |out| == |under|
      ensures forall k: nat :: offset <= k < offset + |under| ==>
                            out[k - offset] == match B.Overlay(buffer, ino, k) case Some(m) => B.Value(m)
                              case None => under[k - offset]
    {
      out := under;
      var end := offset + |under|;
      for i := 0 to |buffer|
        invariant |out| == |under|
        invariant forall k: nat :: offset <= k < end ==>
                                out[k - offset] == match B.Overlay(buffer[..i], ino, k) case Some(m) => B.Value(m)
                                  case None => under[k - offset]
      {
        var e := buffer[i];
        assert e in buffer && buffer[..i + 1][..i] == buffer[..i];
        var from, to := Max(offset, e.offset), Min(end, B.End(e));
        if e.ino == ino && from < to {
          var bytes := if e.zero then Zeros(to - from) else e.data[from - e.offset..to - e.offset];
          out := Splice(out, from - offset, bytes);
        }
      }
      assert buffer[..|buffer|] == buffer;
    }

    /** `read_live_inode_data` */
    method Read(ino: nat, offset: nat, size: nat) returns (r: Result<seq<byte>>)
      requires Valid()
      ensures ino !in sizes ==> r == Err(ENOENT)
      ensures r.Ok? ==> ino in sizes && |r.value| == Min(size, Monus(sizes[ino], offset))
      ensures r.Ok? ==> forall k: nat :: offset <= k < offset + |r.value| ==> r.value[k - offset] == Byte(ino, k)
      ensures r.Err? && ino in sizes ==> StorageError(r.errno)
      ensures Roomy() && ino in sizes && size <= U32_MAX ==> r.Ok?
      ensures ino in sizes && !active ==> r.Ok?
      ensures ino in sizes
              && (exists e :: e in buffer && Spans(e, ino, offset, Min(size, Monus(sizes[ino], offset)))) ==>
                r.Ok?
    {
      if ino !in sizes {
        return Err(ENOENT);
      }
      if Roomy() { RoomyReaches(); }
      if size == 0 || offset >= sizes[ino] {
        return Ok([]);
      }
      var length := Min(size, sizes[ino] - offset);
      var under := Zeros(length);
      var covered := BufferCovers(ino, offset, length);
      if !covered && active {
        var stored := ReadExtents(ino, offset, length);
        if stored.Err? {
          return stored;
        }
        under := stored.value;
      }
      var out := LayOver(ino, offset, under);
      forall k: nat | offset <= k < offset + length ensures out[k - offset] == Byte(ino, k) {
        if active && !covered {
          assert under[k - offset] == StoredAt(extents, pool.dataBase, pool.image, ino, k);
        }
      }
      return Ok(out);
    }

    // ---------- the operations ----------

    /** Nothing is stored past the end of a file, so growing it exposes zeros. */
    ghost predicate Tidy()
      reads this
    {
      NothingPast(extents, buffer, sizes)
    }

    /** `update_inode_size_after_write` */
    method GrowTo(ino: nat, end: nat)
      requires Valid() && ino in sizes
      modifies this`sizes
      ensures Valid()
      ensures sizes == old(sizes)[ino := Max(old(sizes)[ino], end)]
      ensures NothingPast(extents, buffer, old(sizes)[ino := Max(old(sizes)[ino], end)]) ==> Tidy()
    {
      sizes := sizes[ino := Max(sizes[ino], end)];
    }

    /** `write` of an in-memory inode: `stage_live_inode_write`.  The length is a u32, so only that
        much of a longer buffer is written. */
    method Write(ino: nat, offset: nat, data: seq<byte>) returns (r: Result<nat>)
      requires Valid()
      modifies this, pool
      ensures Valid() && (old(Within()) ==> Within()) && (old(Covered()) ==> Covered())
      ensures |data| % (U32_MAX + 1) == 0 ==> r == Ok(0)
      ensures ino !in old(sizes) && |data| % (U32_MAX + 1) != 0 ==> r == Err(EIO)
      ensures r.Ok? ==> r.value == |data| % (U32_MAX + 1) && (r.value > 0 ==> ino in old(sizes))
      ensures r.Ok? && r.value == 0 ==> sizes == old(sizes) && Untouched()
      ensures r.Ok? && r.value > 0 ==>
                var op := Overwrite(offset, data[..r.value]);
                && sizes == old(sizes)[ino := SizeAfter(op, old(sizes)[ino])]
                && Changed(op, ino, old(sizes)[ino])
      ensures r.Err? ==>
                && sizes == old(sizes)
                && forall i: nat, k: nat ::
                     !(i == ino && offset <= k < offset + |data| % (U32_MAX + 1)) ==> Byte(i, k) == old(Byte(i, k))
      ensures r.Err? && (!active || ino !in old(sizes)) ==> Untouched()
      ensures r.Err? && active && ino in old(sizes) ==>
                && HalfWritten(ino, offset, data[..|data| % (U32_MAX + 1)])
                && GaveSome(ino, offset, offset + |data| % (U32_MAX + 1))
      ensures r.Ok? && old(Tidy()) ==> Tidy()
      ensures r.Ok? && active && r.value > 0 ==> GaveUpTo(ino, offset, offset + r.value, offset + r.value)
      ensures r.Ok? ==> AllStored(extents, ino, offset, offset + r.value)
      ensures r.Ok? && |data| % (U32_MAX + 1) > 0 ==>
                buffer == Restaged(active, ino, offset, data[..|data| % (U32_MAX + 1)], old(buffer))
      ensures r.Err? && ino in old(sizes) && (old(Roomy()) || !active) ==> r.errno == ENOSPC || r.errno == EFBIG
      ensures tail <= old(tail) + LIVE_BLOCK * (|data| % (U32_MAX + 1))
      ensures r.Ok? && r.value > 0 ==> offset + r.value <= U64_MAX && old(Within())
      ensures ino in old(sizes) && (old(Roomy()) || !active) && offset + |data| % (U32_MAX + 1) <= U64_MAX ==>
                old(Spare(|data| % (U32_MAX + 1)) && Within()) ==> r.Ok?
      ensures SameBelow(old(pool.image), pool.image, pool.dataBase)
      ensures active && ino in old(sizes) && |data| % (U32_MAX + 1) > 0 ==>
                && Foretold(ino, offset, data[..|data| % (U32_MAX + 1)])
                && AsForeseen(ino, offset, |data| % (U32_MAX + 1), if r.Ok? then Ok(()) else Err(r.errno))
    {
      var len := |data| % (U32_MAX + 1);
      if len == 0 {
        return Ok(0);
      }
      if ino !in sizes {
        return Err(EIO);
      }
      var wrote := WriteSome(ino, offset, data[..len]);
      r := if wrote.Ok? then Ok(len) else Err(wrote.errno);
    }

    /** `stage_live_inode_write` of a buffer that is not empty and not too long. */
    method WriteSome(ino: nat, offset: nat, data: seq<byte>) returns (r: Result<()>)
      requires Valid() && ino in sizes && 0 < |data| <= U32_MAX
      modifies this, pool
      ensures Valid() && (old(Within()) ==> Within()) && (old(Covered()) ==> Covered())
      ensures r.Ok? ==>
                var op := Overwrite(offset, data);
                && sizes == old(sizes)[ino := SizeAfter(op, old(sizes)[ino])]
                && Changed(op, ino, old(sizes)[ino])
      ensures r.Err? ==> sizes == old(sizes)
      ensures r.Err? ==>
                forall i: nat, k: nat :: !(i == ino && offset <= k < offset + |data|) ==> Byte(i, k) == old(Byte(i, k))
      ensures r.Err? && !active ==> Untouched()
      ensures r.Err? && active ==> HalfWritten(ino, offset, data) && GaveSome(ino, offset, offset + |data|)
      ensures r.Ok? && old(Tidy()) ==> Tidy()
      ensures r.Ok? && active ==> GaveUpTo(ino, offset, offset + |data|, offset + |data|)
      ensures r.Ok? ==> AllStored(extents, ino, offset, offset + |data|) && offset + |data| <= U64_MAX && old(Within())
      ensures r.Ok? ==> buffer == Restaged(active, ino, offset, data, old(buffer))
      ensures r.Err? && (old(Roomy()) || !active) ==> r.errno == ENOSPC || r.errno == EFBIG
      ensures tail <= old(tail) + LIVE_BLOCK * |data|
      ensures (old(Roomy()) || !active) && old(Spare(|data|) && Within()) && offset + |data| <= U64_MAX ==> r.Ok?
      ensures SameBelow(old(pool.image), pool.image, pool.dataBase)
      ensures active ==> Foretold(ino, offset, data) && AsForeseen(ino, offset, |data|, r)
    {
      ghost var upto;
      r, upto := WriteBytes(ino, offset, data);
      assert active ==> GaveSome(ino, offset, offset + |data|) by {
        assert active ==> GaveUpTo(ino, offset, upto, offset + |data|);
      }
      if r.Ok? {
        assert Changed(Overwrite(offset, data), ino, old(sizes)[ino]);
        GrowTo(ino, offset + |data|);
      }
    }

    /** The two paths of a write, up to the size update. */
    method WriteBytes(ino: nat, offset: nat, data: seq<byte>) returns (r: Result<()>, ghost upto: nat)
      requires Valid() && ino in sizes && 0 < |data| <= U32_MAX
      modifies this`extents, this`tail, this`buffer, pool
      ensures Valid() && (old(Within()) ==> Within()) && (old(Covered()) ==> Covered())
      ensures r.Err? ==>
                forall i: nat, k: nat :: !(i == ino && offset <= k < offset + |data|) ==> Byte(i, k) == old(Byte(i, k))
      ensures r.Err? && active ==> HalfWritten(ino, offset, data)
      ensures r.Err? && !active ==> Untouched()
      ensures active ==> GaveUpTo(ino, offset, upto, offset + |data|) && (r.Ok? ==> upto == offset + |data|)
      ensures r.Ok? ==> Changed(Overwrite(offset, data), ino, sizes[ino])
      ensures r.Ok? && old(Tidy()) ==> NothingPast(extents, buffer, sizes[ino := Max(sizes[ino], offset + |data|)])
      ensures r.Ok? ==> AllStored(extents, ino, offset, offset + |data|) && offset + |data| <= U64_MAX && old(Within())
      ensures r.Ok? ==> buffer == Restaged(active, ino, offset, data, old(buffer))
      ensures r.Err? && (old(Roomy()) || !active) ==> r.errno == ENOSPC || r.errno == EFBIG
      ensures tail <= old(tail) + LIVE_BLOCK * |data|
      ensures (old(Roomy()) || !active) && old(Spare(|data|) && Within()) && offset + |data| <= U64_MAX ==> r.Ok?
      ensures SameBelow(old(pool.image), pool.image, pool.dataBase)
      ensures active ==> Foretold(ino, offset, data) && AsForeseen(ino, offset, |data|, r)
    {
      upto := offset;
      if active {
        r, upto := WriteThrough(ino, offset, data);
      } else {
        r := StageWrite(ino, offset, data);
      }
    }

    /** `write_live_inode_data_to_active_storage`, up to the size update.  The data goes to storage before the range
        is cleared in the buffer, and the clearing is refused when any staged entry ends past the 64-bit range. */
    method WriteThrough(ino: nat, offset: nat, data: seq<byte>) returns (r: Result<()>, ghost upto: nat)
      requires Valid() && ino in sizes && active && data != []
      modifies this`extents, this`tail, this`buffer, pool
      ensures Valid() && (old(Within()) ==> Within()) && (old(Covered()) ==> Covered())
      ensures r.Err? ==>
                forall i: nat, k: nat :: !(i == ino && offset <= k < offset + |data|) ==> Byte(i, k) == old(Byte(i, k))
      ensures r.Err? ==> HalfWritten(ino, offset, data)
      ensures GaveUpTo(ino, offset, upto, offset + |data|) && (r.Ok? ==> upto == offset + |data|)
      ensures r.Ok? ==> Changed(Overwrite(offset, data), ino, sizes[ino]) && old(Within())
      ensures r.Ok? && old(Tidy()) ==> NothingPast(extents, buffer, sizes[ino := Max(sizes[ino], offset + |data|)])
      ensures r.Ok? ==> buffer == Restaged(true, ino, offset, data, old(buffer))
      ensures r.Ok? ==> AllStored(extents, ino, offset, offset + |data|)
      ensures old(Roomy()) && |data| <= U32_MAX && r.Err? ==> r.errno == ENOSPC || r.errno == EFBIG
      ensures tail <= old(tail) + LIVE_BLOCK * |data| && (offset + |data| > U64_MAX ==> r == Err(EFBIG))
      ensures old(Roomy() && Spare(|data|) && Within()) && |data| <= U32_MAX && offset + |data| <= U64_MAX ==> r.Ok?
      ensures SameBelow(old(pool.image), pool.image, pool.dataBase)
      ensures Foretold(ino, offset, data) && AsForeseen(ino, offset, |data|, r)
    {
      ghost var es, buf, image := extents, buffer, pool.image;
      r, upto := WriteRange(ino, offset, data);
      GainsAreConsistent(es, extents, buffer, sizes, active, ino, offset, offset + |data|);
      if r.Ok? {
        var ok := DropUnder(ino, offset, data, es, image);
        r := if ok then Ok(()) else Err(EFBIG);
      }
      if r.Err? { HalfWay(active, pool.dataBase, image, pool.image, es, extents, buf, old(tail), ino, offset, data); }
    }

    /** The staged bytes under data that has reached storage go; not `ok` stands for EFBIG. */
    method DropUnder(ino: nat, offset: nat, data: seq<byte>, ghost es: seq<Extent>, ghost image: seq<byte>)
      returns (ok: bool)
      requires Valid() && ino in sizes && active && OnlyGains(es, extents, ino, offset, offset + |data|)
      requires SameElsewhere(extents, pool.dataBase, image, pool.image, ino, offset, offset + |data|)
      requires Landed(extents, pool.dataBase, pool.image, ino, offset, offset + |data|, data)
      modifies this`buffer
      ensures Valid() && ok == old(Within()) && (ok ==> Within()) && (old(Covered()) ==> Covered())
      ensures buffer == if ok then Restaged(true, ino, offset, data, old(buffer)) else old(buffer)
      ensures ok ==> ChangedFrom(Overwrite(offset, data), ino, sizes[ino], image, es, old(buffer))
      ensures ok && NothingPast(es, old(buffer), sizes) ==>
                NothingPast(extents, buffer, sizes[ino := Max(sizes[ino], offset + |data|)])
    {
      ghost var buf := buffer;
      if Within() { BO.FitsWithin(Punch(offset, offset + |data|), ino, buffer); }
      ok := RemapBuffer(Punch(offset, offset + |data|), ino);
      if !ok {
        return;
      }
      OverlayPunched(buf, buffer, ino, offset, offset + |data|);
      LessOverlayIsConsistent(extents, buf, buffer, sizes, active);
      if NothingPast(es, buf, sizes) {
        GrownPast(es, extents, buf, buffer, sizes, ino, offset, offset + |data|);
      }
      DroppedUnder(ino, offset, data, es, image, buf);
    }

    lemma DroppedUnder(ino: nat, offset: nat, data: seq<byte>, es: seq<Extent>, image: seq<byte>, buf: seq<B.Staged>)
      requires ino in sizes && active && OnlyGains(es, extents, ino, offset, offset + |data|)
      requires SameElsewhere(extents, pool.dataBase, image, pool.image, ino, offset, offset + |data|)
      requires Landed(extents, pool.dataBase, pool.image, ino, offset, offset + |data|, data)
      requires forall i: nat, k: nat ::
                 B.Overlay(buffer, i, k) == PunchedOverlay(buf, ino, offset, offset + |data|, i, k)
      ensures ChangedFrom(Overwrite(offset, data), ino, sizes[ino], image, es, buf)
    {
      var op := Overwrite(offset, data);
      forall i: nat, k: nat
        ensures Byte(i, k) == match OriginFor(op, ino, sizes[ino], i, k)
                              case OldByte(j) => Contents(active, pool.dataBase, image, es, buf, i, j)
                              case NewByte(b) => b
      {
        WrittenByte(pool.dataBase, image, pool.image, es, extents, buf, buffer, ino, offset, data, i, k);
      }
    }

    /** The branch of `stage_live_inode_write` without active storage. */
    method StageWrite(ino: nat, offset: nat, data: seq<byte>) returns (r: Result<()>)
      requires Valid() && ino in sizes && !active && data != []
      modifies this`extents, this`tail, this`buffer
      ensures Valid() && (old(Within()) ==> Within()) && (old(Covered()) ==> Covered())
      ensures r.Err? ==> extents == old(extents) && buffer == old(buffer)
      ensures r.Ok? ==> Changed(Overwrite(offset, data), ino, sizes[ino]) && old(Within()) && offset + |data| <= U64_MAX
      ensures r.Ok? && old(Tidy()) ==> NothingPast(extents, buffer, sizes[ino := Max(sizes[ino], offset + |data|)])
      ensures r.Ok? ==> AllStored(extents, ino, offset, offset + |data|)
      ensures r.Ok? ==> buffer == Restaged(false, ino, offset, data, old(buffer))
      ensures r.Err? ==> r.errno == ENOSPC || r.errno == EFBIG
      ensures tail <= old(tail) + LIVE_BLOCK * |data|
      ensures old(Spare(|data|) && Within()) && offset + |data| <= U64_MAX ==> r.Ok?
    {
      var physical := Allocate(|data|);
      if physical.Err? {
        return Err(physical.errno);
      }
      var staged := B.Staged(ino, offset, |data|, data, false);
      var e := Extent(ino, offset, offset + |data|, physical.value, physical.value + |data|, Data);
      var ok := StageOver(staged, e);
      r := if ok then Ok(()) else Err(EFBIG);
    }

    /** Data is staged together with the extent it will go to; not `ok` stands for EFBIG. */
    method StageOver(staged: B.Staged, e: Extent) returns (ok: bool)
      requires Valid() && !active && B.WellStaged(staged) && !staged.zero && staged.ino in sizes
      requires WellFormed(e) && e.kind.Data? && e.ino == staged.ino && e.start == staged.offset
                 && e.end == B.End(staged)
      requires BelowTail(extents, e.phys) && e.phys % LIVE_BLOCK == 0 && e.reserved <= tail
      modifies this`extents, this`tail, this`buffer
      ensures Valid() && tail <= old(tail) && (old(Covered()) ==> Covered())
      ensures ok ==> buffer == BO.Stage(old(buffer), staged)
      ensures ok <==> e.end <= U64_MAX && old(Within())
      ensures old(Within()) ==> Within()
      ensures !ok ==> extents == old(extents) && buffer == old(buffer)
      ensures ok ==> ChangedFrom(Overwrite(e.start, staged.data), e.ino, sizes[e.ino], pool.image, old(extents),
                old(buffer))
      ensures ok && old(Tidy()) ==> NothingPast(extents, buffer, sizes[e.ino := Max(sizes[e.ino], e.end)])
      ensures ok ==> AllStored(extents, e.ino, e.start, e.end)
    {
      ghost var es, buf := extents, buffer;
      ok := StageRange(staged);
      if !ok {
        return;
      }
      PlaceRange(e);
      StagedOver(es, extents, buf, buffer, staged, e, sizes);
      StagedHere(staged, es, buf);
    }

    lemma StagedHere(staged: B.Staged, es: seq<Extent>, buf: seq<B.Staged>)
      requires !active && !staged.zero && |staged.data| == staged.len && staged.ino in sizes
      requires forall i, k ::
                 B.Overlay(buffer, i, k) == if B.Holds(staged, i, k) then Some(B.MarkOf(staged, k))
                 else B.Overlay(buf, i, k)
      ensures ChangedFrom(Overwrite(staged.offset, staged.data), staged.ino, sizes[staged.ino], pool.image, es, buf)
    {
      var op := Overwrite(staged.offset, staged.data);
      forall i: nat, k: nat
        ensures Byte(i, k) == match OriginFor(op, staged.ino, sizes[staged.ino], i, k)
                              case OldByte(j) => Contents(active, pool.dataBase, pool.image, es, buf, i, j)
                              case NewByte(b) => b
      {
        StagedByte(pool.dataBase, pool.image, es, extents, buf, buffer, staged, i, k);
      }
    }

    /** The buffer and then the extents of one file rearranged by the same remap.  An insert that the buffer takes and
        the extents refuse stops half-way. */
    method RemapFile(m: Remap, ino: nat) returns (r: Result<()>)
      requires Valid() && Sensible(m) && !m.Truncate?
      modifies this`extents, this`tail, this`buffer
      ensures Valid() && tail <= old(tail) && (old(Covered()) && (r.Ok? || active) ==> Covered())
      ensures r == if BO.Fits(m, ino, old(buffer)) && ExtentsFit(m, ino, old(extents)) then Ok(()) else Err(EFBIG)
      ensures r.Ok? ==> Rearranged(m, ino) && buffer == BO.Rebuild(m, ino, old(buffer))
      ensures r.Ok? ==> MovedFrom(m, ino, old(extents), old(buffer))
      ensures r.Err? ==> if BO.Fits(m, ino, old(buffer)) then HalfRearranged(m, ino)
                         else buffer == old(buffer) && extents == old(extents)
    {
      ghost var es, buf := extents, buffer;
      var ok := RemapBuffer(m, ino);
      if !ok {
        return Err(EFBIG);
      }
      MovedAlone(m, ino, es, buf, buffer, sizes);
      ok := RemapExtents(m, ino);
      if !ok {
        return Err(EFBIG);
      }
      RemapInStep(m, ino, active, pool.dataBase, pool.image, es, extents, buf, buffer, sizes);
      r := Ok(());
    }

    /** `RemapFile` together with the size that goes with it. */
    method Rearrange(m: Remap, ino: nat, size: nat, ghost op: FileOp) returns (r: Result<()>)
      requires Valid() && Sensible(m) && !m.Truncate? && ino in sizes
      requires forall k :: OriginOf(op, sizes[ino], k) == SourceOrigin(m, k)
      modifies this
      ensures Valid() && tail <= old(tail) && (old(Covered()) && (r.Ok? || active) ==> Covered())
      ensures r == if BO.Fits(m, ino, old(buffer)) && ExtentsFit(m, ino, old(extents)) then Ok(()) else Err(EFBIG)
      ensures r.Ok? ==> sizes == old(sizes)[ino := size] && Changed(op, ino, old(sizes)[ino])
      ensures r.Ok? ==> Rearranged(m, ino) && buffer == BO.Rebuild(m, ino, old(buffer))
      ensures r.Err? ==> if BO.Fits(m, ino, old(buffer)) then sizes == old(sizes) && HalfRearranged(m, ino) else Kept()
      ensures r.Ok? && old(Tidy())
              && (forall k :: size <= k ==> Source(m, k).None? || old(sizes)[ino] <= Source(m, k).value) ==>
                Tidy()
    {
      ghost var es, buf := extents, buffer;
      r := RemapFile(m, ino);
      if r.Err? {
        return;
      }
      if NothingPast(es, buf, sizes)
        && (forall k :: size <= k ==> Source(m, k).None? || sizes[ino] <= Source(m, k).value) {
        NothingPastMoved(m, ino, es, extents, buf, buffer, sizes, size);
      }
      MovedBytes(m, ino, op, es, buf);
      sizes := sizes[ino := size];
    }

    ghost predicate MovedFrom(m: Remap, ino: nat, es: seq<Extent>, buf: seq<B.Staged>)
      reads this`extents, this`buffer, pool
    {
      forall i, k :: Byte(i, k) == MovedByte(m, ino, active, pool.dataBase, pool.image, es, buf, i, k)
    }

    lemma MovedBytes(m: Remap, ino: nat, op: FileOp, es: seq<Extent>, buf: seq<B.Staged>)
      requires ino in sizes && forall k :: OriginOf(op, sizes[ino], k) == SourceOrigin(m, k)
      requires MovedFrom(m, ino, es, buf)
      ensures ChangedFrom(op, ino, sizes[ino], pool.image, es, buf)
    {
      forall i: nat, k: nat
        ensures Byte(i, k) == match OriginFor(op, ino, sizes[ino], i, k)
                              case OldByte(j) => Contents(active, pool.dataBase, pool.image, es, buf, i, j)
                              case NewByte(b) => b
      {
        assert i == ino ==> OriginOf(op, sizes[ino], k) == SourceOrigin(m, k);
      }
    }

    /** `setattr` with FATTR_SIZE: the size is set and the extents are cut before the buffer is, and cutting the buffer
        is refused when an entry that ends past the 64-bit range comes before one it could merge with. */
    method Truncate(ino: nat, size: nat) returns (r: Result<()>)
      requires Valid()
      modifies this
      ensures Valid() && tail <= old(tail) && (old(Within()) ==> Within())
      ensures old(Covered()) && (r.Ok? || active) ==> Covered()
      ensures r == if ino !in old(sizes) then Err(ENOENT)
                   else if size != old(sizes)[ino] && !BO.Fits(Remap.Truncate(size), ino, old(buffer)) then Err(EFBIG)
                     else Ok(())
      ensures ino in old(sizes) && old(Within()) ==> r.Ok?
      ensures sizes == if ino in old(sizes) then old(sizes)[ino := size] else old(sizes)
      ensures r.Ok? ==> Changed(Resize(size), ino, old(sizes)[ino])
      ensures r.Ok? && size != old(sizes)[ino] ==>
                Rearranged(Remap.Truncate(size), ino) && buffer == BO.Rebuild(Remap.Truncate(size), ino, old(buffer))
      ensures r == Err(ENOENT) ==> Kept() && Untouched()
      ensures r == Err(EFBIG) ==>
                && buffer == old(buffer)
                && forall i, k :: At(extents, i, k) == EO.Moved(Remap.Truncate(size), ino, old(extents), i, k)
      ensures r != Err(EFBIG) && old(Tidy()) ==> Tidy()
    {
      if ino !in sizes {
        return Err(ENOENT);
      }
      if Within() { BO.FitsWithin(Remap.Truncate(size), ino, buffer); }
      r := Ok(());
      if size != sizes[ino] {
        r := CutFile(ino, size);
      }
    }

    method CutFile(ino: nat, size: nat) returns (r: Result<()>)
      requires Valid() && ino in sizes && size != sizes[ino]
      modifies this
      ensures Valid() && sizes == old(sizes)[ino := size] && tail <= old(tail)
      ensures old(Covered()) && (r.Ok? || active) ==> Covered()
      ensures r == if BO.Fits(Remap.Truncate(size), ino, old(buffer)) then Ok(()) else Err(EFBIG)
      ensures r.Ok? ==>
                Changed(Resize(size), ino, old(sizes)[ino]) && Rearranged(Remap.Truncate(size), ino)
      ensures r.Ok? ==> buffer == BO.Rebuild(Remap.Truncate(size), ino, old(buffer))
      ensures r.Err? ==>
                && buffer == old(buffer)
                && forall i, k :: At(extents, i, k) == EO.Moved(Remap.Truncate(size), ino, old(extents), i, k)
      ensures r.Ok? && old(Tidy()) ==> Tidy()
    {
      ghost var es, buf, was := extents, buffer, sizes;
      var m := Remap.Truncate(size);
      sizes := sizes[ino := size];
      var ok := RemapExtents(m, ino);
      CutAlone(m, ino, es, extents, buf, sizes);
      ok := RemapBuffer(m, ino);
      if !ok {
        return Err(EFBIG);
      }
      RemapInStep(m, ino, active, pool.dataBase, pool.image, es, extents, buf, buffer, sizes);
      if NothingPast(es, buf, was) {
        NothingPastMoved(m, ino, es, extents, buf, buffer, was, size);
      }
      CutBytes(ino, size, was[ino], es, buf);
      r := Ok(());
    }

    lemma CutBytes(ino: nat, size: nat, was: nat, es: seq<Extent>, buf: seq<B.Staged>)
      requires size != was && MovedFrom(Remap.Truncate(size), ino, es, buf)
      ensures ChangedFrom(Resize(size), ino, was, pool.image, es, buf)
    {
    }

    /** The operation a `fallocate` mode asks for, in the order the flags are tested. */
    static function Classify(mode: bv32, offset: nat, length: nat): FileOp {
      var keep := mode & 0x01 != 0;
      if mode & 0x08 != 0 then CollapseOut(offset, length)
      else if mode & 0x20 != 0 then InsertZeros(offset, length)
      else if mode & 0x02 != 0 then PunchHole(offset, length)
      else if mode & 0x10 != 0 then ZeroOut(offset, length, keep)
      else Reserve(offset, length, keep)
    }

    /** A `fallocate` call that succeeded has done exactly its operation. */
    twostate predicate Fallocated(ino: nat, op: FileOp)
      reads this, pool
    {
      && ino in old(sizes) && Allowed(op, old(sizes)[ino])
      && sizes == old(sizes)[ino := SizeAfter(op, old(sizes)[ino])]
      && Changed(op, ino, old(sizes)[ino])
    }

    twostate predicate Inserted(o: nat, len: nat, ino: nat)
      reads this`extents, this`buffer
    {
      Rearranged(Insert(o, len), ino) && buffer == BO.Rebuild(Insert(o, len), ino, old(buffer))
    }

    twostate predicate ZeroStaged(o: nat, len: nat, keep: bool, ino: nat)
      reads this`extents, this`buffer
    {
      && ino in old(sizes) && buffer == BO.Stage(old(buffer), B.Staged(ino, o, len, [], true))
      && BlocksUnmapped(old(extents), extents, ino, o, old(ExtentLength(ino, o, len, keep)))
    }

    twostate predicate HolesFilled(o: nat, len: nat, keep: bool, ino: nat)
      reads this`extents, this`buffer
    {
      && ino in old(sizes) && buffer == old(buffer)
      && FilledMap(old(extents), ino, o, o + old(ExtentLength(ino, o, len, keep)), extents)
    }

    /** What a `fallocate` call that succeeded has done to the two layers. */
    twostate predicate Relayered(op: FileOp, ino: nat)
      reads this`extents, this`buffer
    {
      match op
      case InsertZeros(o, len) => Inserted(o, len, ino)
      case ZeroOut(o, len, keep) => ZeroStaged(o, len, keep, ino)
      case Reserve(o, len, keep) => HolesFilled(o, len, keep, ino)
      case _ => true
    }

    twostate predicate Kept()
      reads this
    {
      sizes == old(sizes) && extents == old(extents) && buffer == old(buffer)
    }

    /** A zero-range request that starts in the last block of the 64-bit range: the zeros are staged before the end of
        that block is looked for. */
    ghost predicate TooLate(ino: nat, op: FileOp)
      reads this
    {
      && op.ZeroOut? && ino in sizes && op.offset + op.length <= U64_MAX && op.length <= U32_MAX
      && AlignUp(op.offset) > U64_MAX && (op.length > 0 ==> Within())
    }

    /** A `fallocate` call that failed has changed nothing, except that such a zero-range request has staged its zeros,
        and that an insert may have stopped half-way. */
    twostate predicate FailedFallocate(ino: nat, op: FileOp)
      reads this, pool
    {
      var size := if ino in old(sizes) then Some(old(sizes)[ino]) else None;
      if old(TooLate(ino, op)) then sizes == old(sizes) && Changed(op, ino, sizes[ino])
      else if StopsShort(size, op, ino, old(buffer), old(extents)) then
        sizes == old(sizes) && HalfRearranged(Insert(op.offset, op.length), ino)
      else Kept()
    }

    /** `fallocate` */
    method Fallocate(ino: nat, mode: bv32, offset: nat, length: nat) returns (r: Result<()>)
      requires Valid()
      modifies this
      ensures Valid()
      ensures r == FallocateAnswer(if ino in old(sizes) then Some(old(sizes)[ino]) else None,
                                   Classify(mode, offset, length), offset, length, ino, old(buffer), old(extents))
      ensures if r.Ok? then Fallocated(ino, Classify(mode, offset, length))
                else FailedFallocate(ino, Classify(mode, offset, length))
      ensures old(Tidy()) ==> Tidy()
      ensures var size := if ino in old(sizes) then Some(old(sizes)[ino]) else None;
              old(Covered())
              && (active || !StopsShort(size, Classify(mode, offset, length), ino, old(buffer), old(extents))) ==>
                Covered()
      ensures old(Within()) && NothingMovedPast(Classify(mode, offset, length), ino, old(buffer), old(extents)) ==>
                Within()
      ensures var op := Classify(mode, offset, length);
              r.Ok? && length > 0 && !op.CollapseOut? && !op.PunchHole? ==> Relayered(op, ino)
      ensures tail <= old(tail)
    {
      if ino !in sizes {
        return Err(ENOENT);
      }
      if offset + length > U64_MAX {
        return Err(EFBIG);
      }
      var op := Classify(mode, offset, length);
      match op
      case CollapseOut(_, _) =>
        CollapseAnswer(sizes[ino], offset, length, ino, buffer, extents);
        r := CollapseRange(ino, offset, length);
      case InsertZeros(_, _) =>
        InsertAnswer(sizes[ino], offset, length, ino, buffer, extents);
        r := InsertRange(ino, offset, length);
      case PunchHole(_, _) =>
        PunchAnswer(sizes[ino], offset, length, ino, buffer, extents);
        r := PunchRange(ino, offset, length);
      case ZeroOut(_, _, keep) =>
        ZeroAnswer(sizes[ino], offset, length, keep, ino, buffer, extents);
        r := ZeroFileRange(ino, offset, length, keep);
      case Reserve(_, _, keep) => r := ReserveRange(ino, offset, length, keep);
    }

    method CollapseRange(ino: nat, offset: nat, length: nat) returns (r: Result<()>)
      requires Valid() && ino in sizes && offset + length <= U64_MAX
      modifies this
      ensures Valid() && tail <= old(tail)
      ensures r == if offset + length >= old(sizes)[ino] then Err(EINVAL)
                   else if !BO.Fits(Collapse(offset, offset + length), ino, old(buffer)) then Err(EFBIG) else Ok(())
      ensures if r.Ok? then Fallocated(ino, CollapseOut(offset, length)) else Kept()
      ensures r.Ok? && length > 0 ==> Rearranged(Collapse(offset, offset + length), ino)
      ensures (old(Tidy()) ==> Tidy()) && (old(Within()) ==> Within())
      ensures old(Covered()) ==> Covered()
    {
      if offset + length >= sizes[ino] {
        return Err(EINVAL);
      }
      if length > 0 {
        r := RearrangeDown(Collapse(offset, offset + length), ino, CollapseOut(offset, length));
      } else {
        r := CollapseNothing(ino, offset, length);
      }
    }

    /** Punch and collapse: the extents never refuse, and nothing moves up. */
    method RearrangeDown(m: Remap, ino: nat, op: FileOp) returns (r: Result<()>)
      requires Valid() && ino in sizes && Allowed(op, sizes[ino])
      requires || (op.CollapseOut? && op.length > 0 && m == Collapse(op.offset, op.offset + op.length))
               || (op.PunchHole? && m == Punch(op.offset, op.offset + op.length))
      modifies this
      ensures Valid() && tail <= old(tail)
      ensures r == if BO.Fits(m, ino, old(buffer)) then Ok(()) else Err(EFBIG)
      ensures if r.Ok? then Fallocated(ino, op) && Rearranged(m, ino) else Kept()
      ensures (old(Tidy()) ==> Tidy()) && (old(Within()) ==> Within())
      ensures old(Covered()) ==> Covered()
    {
      if Within() { BO.FitsWithin(m, ino, buffer); }
      assert ExtentsFit(m, ino, extents);
      r := Rearrange(m, ino, SizeAfter(op, sizes[ino]), op);
    }

    /** Collapsing an empty range only rebuilds the buffer. */
    method CollapseNothing(ino: nat, offset: nat, length: nat) returns (r: Result<()>)
      requires Valid() && ino in sizes && offset < sizes[ino] && length == 0
      modifies this`buffer
      ensures Valid()
      ensures r == if BO.Fits(Collapse(offset, offset + length), ino, old(buffer)) then Ok(()) else Err(EFBIG)
      ensures buffer == if r.Ok? then BO.Rebuild(Collapse(offset, offset + length), ino, old(buffer)) else old(buffer)
      ensures if r.Ok? then Fallocated(ino, CollapseOut(offset, length)) else Kept()
      ensures (old(Tidy()) ==> Tidy()) && (old(Within()) ==> Within())
      ensures old(Covered()) ==> Covered()
    {
      ghost var buf := buffer;
      if Within() { BO.FitsWithin(Collapse(offset, offset + length), ino, buffer); }
      var ok := RemapBuffer(Collapse(offset, offset + length), ino);
      if !ok {
        return Err(EFBIG);
      }
      NothingCollapsed(buf, ino, offset, length);
      r := Ok(());
    }

    lemma NothingCollapsed(buf: seq<B.Staged>, ino: nat, offset: nat, length: nat)
      requires Consistent(extents, buf, sizes) && ino in sizes && length == 0
      requires forall i, k ::
                 B.Overlay(buffer, i, k) == BO.MovedOverlay(Collapse(offset, offset + length), ino, buf, i, k)
      ensures Consistent(extents, buffer, sizes)
                && (NothingPast(extents, buf, sizes) ==> NothingPast(extents, buffer, sizes))
      ensures PutsCovered(active, extents, buf) ==> Covered()
      ensures ChangedFrom(CollapseOut(offset, length), ino, sizes[ino], pool.image, extents, buf)
    {
      SameOverlays(buf, buffer, offset, ino);
      LessOverlayIsConsistent(extents, buf, buffer, sizes, active);
      forall i: nat, k: nat ensures Byte(i, k) == Contents(active, pool.dataBase, pool.image, extents, buf, i, k) {
        assert B.Overlay(buffer, i, k) == B.Overlay(buf, i, k);
      }
      ChangesNothing(CollapseOut(offset, length), ino, sizes[ino], pool.image, extents, buf);
    }

    /** The buffer goes first; what it takes the extents may still refuse, unless nothing is mapped past the end of the
        file. */
    method InsertRange(ino: nat, offset: nat, length: nat) returns (r: Result<()>)
      requires Valid() && ino in sizes && offset + length <= U64_MAX
      modifies this
      ensures Valid() && tail <= old(tail)
      ensures r == if offset >= old(sizes)[ino] then Err(EINVAL)
                else if old(sizes)[ino] + length > U64_MAX then Err(EFBIG)
                   else if length > 0 && !(BO.Fits(Insert(offset, length), ino, old(buffer))
                     && ExtentsFit(Insert(offset, length), ino, old(extents)))
                   then Err(EFBIG) else Ok(())
      ensures r.Ok? ==> Fallocated(ino, InsertZeros(offset, length))
      ensures r.Err? ==>
                if offset < old(sizes)[ino] && old(sizes)[ino] + length <= U64_MAX
                   && BO.Fits(Insert(offset, length), ino, old(buffer))
                then sizes == old(sizes) && HalfRearranged(Insert(offset, length), ino) else Kept()
      ensures r.Ok? && length > 0 ==> Inserted(offset, length, ino)
      ensures old(Tidy()) ==> Tidy()
      ensures old(Covered()) && (r.Ok? || active) ==> Covered()
      ensures old(Within()) && (length > 0 ==> BO.RoomAbove(old(buffer), ino, offset, length)) ==> Within()
    {
      if offset >= sizes[ino] {
        return Err(EINVAL);
      }
      if sizes[ino] + length > U64_MAX {
        return Err(EFBIG);
      }
      r := Ok(());
      if length > 0 {
        if Within() && BO.RoomAbove(buffer, ino, offset, length) {
          BO.RebuildEnds(Insert(offset, length), ino, buffer);
        }
        r := RearrangeUp(ino, offset, length);
      }
    }

    method RearrangeUp(ino: nat, offset: nat, length: nat) returns (r: Result<()>)
      requires Valid() && ino in sizes && offset < sizes[ino] && sizes[ino] + length <= U64_MAX && length > 0
      modifies this
      ensures Valid() && tail <= old(tail)
      ensures r == if BO.Fits(Insert(offset, length), ino, old(buffer))
                && ExtentsFit(Insert(offset, length), ino, old(extents)) then Ok(()) else Err(EFBIG)
      ensures r.Ok? ==> Fallocated(ino, InsertZeros(offset, length)) && Inserted(offset, length, ino)
      ensures r.Err? ==>
                if BO.Fits(Insert(offset, length), ino, old(buffer))
                then sizes == old(sizes) && HalfRearranged(Insert(offset, length), ino) else Kept()
      ensures old(Tidy()) ==> Tidy()
      ensures old(Covered()) && (r.Ok? || active) ==> Covered()
    {
      if Tidy() { SizeBoundsExtents(extents, buffer, sizes, ino, offset, length); }
      InsertSources(sizes[ino], offset, length);
      r := Rearrange(Insert(offset, length), ino, sizes[ino] + length, InsertZeros(offset, length));
    }

    method PunchRange(ino: nat, offset: nat, length: nat) returns (r: Result<()>)
      requires Valid() && ino in sizes && offset + length <= U64_MAX
      modifies this
      ensures Valid() && tail <= old(tail)
      ensures r == if length > 0 && !BO.Fits(Punch(offset, offset + length), ino, old(buffer)) then Err(EFBIG)
                else Ok(())
      ensures if r.Ok? then Fallocated(ino, PunchHole(offset, length)) else Kept()
      ensures r.Ok? && length > 0 ==> Rearranged(Punch(offset, offset + length), ino)
      ensures (old(Tidy()) ==> Tidy()) && (old(Within()) ==> Within())
      ensures old(Covered()) ==> Covered()
    {
      if length == 0 {
        return Ok(());
      }
      r := RearrangeDown(Punch(offset, offset + length), ino, PunchHole(offset, length));
    }

    /** The part of a KEEP_SIZE request that is inside the file. */
    function ExtentLength(ino: nat, offset: nat, length: nat, keep: bool): nat
      requires ino in sizes
      reads this
    {
      if !keep then length else if offset >= sizes[ino] then 0 else Min(length, sizes[ino] - offset)
    }

    method ZeroFileRange(ino: nat, offset: nat, length: nat, keep: bool) returns (r: Result<()>)
      requires Valid() && ino in sizes && offset + length <= U64_MAX
      modifies this
      ensures Valid() && tail <= old(tail)
      ensures r == if length > U32_MAX || (length > 0 && !old(Within())) || AlignUp(offset) > U64_MAX then Err(EFBIG)
                else Ok(())
      ensures if r.Ok? then Fallocated(ino, ZeroOut(offset, length, keep))
                else FailedFallocate(ino, ZeroOut(offset, length, keep))
      ensures r.Ok? && length > 0 ==> ZeroStaged(offset, length, keep, ino)
      ensures (old(Tidy()) ==> Tidy()) && (old(Within()) ==> Within())
      ensures old(Covered()) ==> Covered()
    {
      if length > U32_MAX {
        return Err(EFBIG);
      }
      ghost var within := ExtentLength(ino, offset, length, keep);
      r := ZeroBytes(ino, offset, length, ExtentLength(ino, offset, length, keep), keep);
      if r.Ok? {
        if NothingPast(extents, buffer, sizes[ino := Reach(sizes[ino], offset, within)]) {
          PastFurther(extents, buffer, sizes[ino := Reach(sizes[ino], offset, within)], ino,
            SizeAfter(ZeroOut(offset, length, keep), sizes[ino]));
        }
        GrowAfter(ino, ZeroOut(offset, length, keep));
      }
    }

    /** The size a `fallocate` call leaves behind. */
    method GrowAfter(ino: nat, op: FileOp)
      requires Valid() && ino in sizes && (op.ZeroOut? || op.Reserve?)
      modifies this`sizes
      ensures Valid() && sizes == old(sizes)[ino := SizeAfter(op, old(sizes)[ino])]
      ensures NothingPast(extents, buffer, old(sizes)[ino := SizeAfter(op, old(sizes)[ino])]) ==> Tidy()
    {
      if op.keepSize {
        assert sizes == sizes[ino := sizes[ino]];
      } else {
        GrowTo(ino, op.offset + op.length);
      }
    }

    /** The size a file must have so that nothing mapped in [offset, offset + length) lies past it. */
    static function Reach(size: nat, offset: nat, length: nat): nat {
      if length == 0 then size else Max(size, offset + length)
    }

    /** Stage the zeros, then turn the whole blocks under them into UNWRITTEN extents. */
    method ZeroBytes(ino: nat, offset: nat, length: nat, extentLength: nat, ghost keep: bool) returns (r: Result<()>)
      requires Valid() && ino in sizes && extentLength <= length && offset + length <= U64_MAX
      modifies this`extents, this`tail, this`buffer
      ensures Valid() && tail <= old(tail)
      ensures r == if (length > 0 && !old(Within())) || AlignUp(offset) > U64_MAX then Err(EFBIG) else Ok(())
      ensures if length > 0 && !old(Within()) then Kept() else Changed(ZeroOut(offset, length, keep), ino, sizes[ino])
      ensures r.Ok? ==> BlocksUnmapped(old(extents), extents, ino, offset, extentLength)
      ensures r.Ok? && length > 0 ==> buffer == BO.Stage(old(buffer), B.Staged(ino, offset, length, [], true))
      ensures old(Tidy()) ==> NothingPast(extents, buffer, sizes[ino := Reach(sizes[ino], offset, extentLength)])
      ensures r.Err? && old(Tidy()) ==> Tidy()
      ensures (old(Within()) ==> Within()) && (old(Covered()) ==> Covered())
    {
      ghost var es := extents;
      var ok := StageZeros(ino, offset, length, keep);
      if NothingPast(extents, buffer, sizes) {
        PastFurther(extents, buffer, sizes, ino, Reach(sizes[ino], offset, extentLength));
      }
      if !ok {
        return Err(EFBIG);
      }
      var blocks := FullBlocks(offset, extentLength);
      if blocks.Err? {
        return Err(EFBIG);
      }
      if blocks.value.Some? {
        Unmap(ino, blocks.value.value.0, blocks.value.value.1, Reach(sizes[ino], offset, extentLength));
      }
      assert BlocksUnmapped(es, extents, ino, offset, extentLength);
      r := Ok(());
    }

    /** `full_live_blocks_in_range` */
    method FullBlocks(offset: nat, length: nat) returns (r: Result<Option<(nat, nat)>>)
      ensures r.Err? <==> AlignUp(offset) > U64_MAX
      ensures r.Ok? && r.value.Some? ==> offset <= r.value.value.0 < r.value.value.1 <= offset + length
      ensures r.Ok? ==>
                forall k: nat ::
                InFullBlock(offset, length, k) <==> r.value.Some? && r.value.value.0 <= k < r.value.value.1
    {
      if AlignUp(offset) > U64_MAX {
        return Err(EFBIG);
      }
      var from, to := AlignUp(offset), offset + length - (offset + length) % LIVE_BLOCK;
      r := Ok(if from < to then Some((from, to)) else None);
    }

    /** `stage_live_zero_range`; not `ok` stands for EFBIG. */
    method StageZeros(ino: nat, offset: nat, length: nat, ghost keep: bool) returns (ok: bool)
      requires Valid() && ino in sizes && offset + length <= U64_MAX
      modifies this`buffer
      ensures Valid() && (ok <==> length == 0 || old(Within()))
      ensures buffer == if ok && length > 0 then BO.Stage(old(buffer), B.Staged(ino, offset, length, [], true))
                else old(buffer)
      ensures ok ==> forall i: nat, k: nat ::
                i == ino && offset <= k < offset + length ==> B.Overlay(buffer, i, k) == Some(B.Zeroing)
      ensures ok ==> Changed(ZeroOut(offset, length, keep), ino, sizes[ino])
      ensures (old(Tidy()) ==> Tidy()) && (old(Within()) ==> Within())
      ensures old(Covered()) ==> Covered()
    {
      ghost var buf := buffer;
      ok := StageRange(B.Staged(ino, offset, length, [], true));
      if ok {
        LessOverlayIsConsistent(extents, buf, buffer, sizes, active);
        ZerosHere(B.Staged(ino, offset, length, [], true), keep, buf);
      }
    }

    lemma ZerosHere(e: B.Staged, keep: bool, buf: seq<B.Staged>)
      requires e.zero && e.ino in sizes
      requires forall i, k ::
                 B.Overlay(buffer, i, k) == if B.Holds(e, i, k) then Some(B.MarkOf(e, k)) else B.Overlay(buf, i, k)
      ensures ChangedFrom(ZeroOut(e.offset, e.len, keep), e.ino, sizes[e.ino], pool.image, extents, buf)
    {
      forall i: nat, k: nat
        ensures Byte(i, k) == if B.Holds(e, i, k) then 0
                  else Contents(active, pool.dataBase, pool.image, extents, buf, i, k)
      {
      }
    }

    /** `set_live_extent_range` to UNWRITTEN under bytes that are staged as zeros. */
    method Unmap(ino: nat, from: nat, to: nat, ghost size: nat)
      requires Valid() && ino in sizes && from < to <= size
      requires forall i: nat, k: nat :: i == ino && from <= k < to ==> B.Overlay(buffer, i, k) == Some(B.Zeroing)
      modifies this`extents, this`tail
      ensures Valid() && tail <= old(tail) && (old(Covered()) ==> Covered())
      ensures Untouched()
      ensures forall i: nat, k: nat ::
                At(extents, i, k) == if i == ino && from <= k < to then Preallocated else At(old(extents), i, k)
      ensures old(NothingPast(extents, buffer, sizes[ino := size])) ==> NothingPast(extents, buffer, sizes[ino := size])
    {
      ghost var es := extents;
      var e := Extent(ino, from, to, 0, 0, Unwritten);
      PlaceRange(e);
      UnwrittenPlaced(es, e, extents);
      UnmappedBytes(active, pool.dataBase, pool.image, es, extents, buffer, ino, from, to);
      UnmappedUnder(es, extents, buffer, sizes, active, ino, from, to, size);
    }

    method ReserveRange(ino: nat, offset: nat, length: nat, keep: bool) returns (r: Result<()>)
      requires Valid() && ino in sizes
      modifies this
      ensures Valid() && tail <= old(tail) && buffer == old(buffer)
      ensures r == Ok(()) && Fallocated(ino, Reserve(offset, length, keep))
      ensures HolesFilled(offset, length, keep, ino)
      ensures (old(Tidy()) ==> Tidy()) && (old(Covered()) ==> Covered())
    {
      FillFile(ino, offset, ExtentLength(ino, offset, length, keep), Reserve(offset, length, keep));
      GrowAfter(ino, Reserve(offset, length, keep));
      r := Ok(());
    }

    /** Preallocating the holes of a range shows in no byte. */
    method FillFile(ino: nat, offset: nat, length: nat, ghost op: FileOp)
      requires Valid() && ino in sizes && op.Reserve?
      modifies this`extents, this`tail
      ensures Valid() && tail <= old(tail)
      ensures Changed(op, ino, sizes[ino]) && FilledMap(old(extents), ino, offset, offset + length, extents)
      ensures old(Tidy()) ==> NothingPast(extents, buffer, sizes[ino := Reach(sizes[ino], offset, length)])
      ensures old(Covered()) ==> Covered()
    {
      ghost var es := extents;
      FillHoles(ino, offset, length);
      FilledUnder(es, extents, buffer, sizes, active, ino, offset, length, Reach(sizes[ino], offset, length));
      forall i: nat, k: nat ensures Byte(i, k) == Contents(active, pool.dataBase, pool.image, es, buffer, i, k) {
        assert At(extents, i, k) == FilledCell(es, ino, offset, offset + length, i, k);
      }
      ChangesNothing(op, ino, sizes[ino], pool.image, es, buffer);
    }

    // ---------- flush ----------

    static predicate Selected(e: B.Staged, target: Option<nat>, lo: nat, hi: nat) {
      target.None? || (e.ino == target.value && lo < Min(B.End(e), U64_MAX) && e.offset < hi)
    }

    static function Unselected(buf: seq<B.Staged>, target: Option<nat>, lo: nat, hi: nat): seq<B.Staged> {
      if buf == [] then []
      else
        var rest, e := Unselected(buf[..|buf| - 1], target, lo, hi), buf[|buf| - 1];
        if Selected(e, target, lo, hi) then rest else rest + [e]
    }

    /** An entry whose length and end the storage path can express. */
    static ghost predicate Writable(e: B.Staged) {
      e.len <= U32_MAX && B.End(e) <= U64_MAX
    }

    /** What a flush of `buf` may answer on a healthy device when the tail was at `start`: with room enough it
        succeeds. */
    static ghost predicate FlushVerdict(capacity: Option<nat>, buf: seq<B.Staged>, start: nat, r: Result<()>) {
      && (r.Err? && (forall e :: e in buf ==> e.len <= U32_MAX) ==> r.errno == ENOSPC || r.errno == EFBIG)
      && ((forall e :: e in buf ==> Writable(e)) && InBounds(capacity, start + LIVE_BLOCK * StagedBytes(buf)) ==> r.Ok?)
    }

    static ghost function StagedBytes(buf: seq<B.Staged>): nat {
      if buf == [] then 0 else StagedBytes(buf[..|buf| - 1]) + buf[|buf| - 1].len
    }

    static lemma {:induction false} StagedSoFar(buf: seq<B.Staged>, i: nat)
      requires i < |buf|
      ensures StagedBytes(buf[..i + 1]) == StagedBytes(buf[..i]) + buf[i].len <= StagedBytes(buf)
      decreases |buf|
    {
      assert buf[..i + 1][..i] == buf[..i];
      if i + 1 == |buf| {
        assert buf[..i + 1] == buf;
      } else {
        var front := buf[..|buf| - 1];
        StagedSoFar(front, i);
        assert front[..i + 1] == buf[..i + 1] && front[..i] == buf[..i];
      }
    }

    /** `flush_live_write_buffer_to_storage`: what any read returns does not change, even when the
        flush stops at a failing sector or allocation. */
    method Flush(target: Option<nat>, lo: nat, length: nat) returns (r: Result<()>)
      requires Valid()
      modifies this`extents, this`tail, this`buffer, pool
      ensures Valid()
      ensures Untouched()
      ensures r.Ok? ==>
                buffer == if active then Unselected(old(buffer), target, lo, Min(lo + length, U64_MAX)) else old(buffer)
      ensures r.Err? ==> active && (r.errno == ENOSPC || StorageError(r.errno))
      ensures old(Roomy()) ==> FlushVerdict(capacity, old(buffer), old(tail), r)
      ensures tail <= old(tail) + LIVE_BLOCK * StagedBytes(old(buffer))
      ensures (old(Tidy()) ==> Tidy()) && (old(Within()) ==> Within())
      ensures old(Covered()) ==> Covered()
      ensures SameBelow(old(pool.image), pool.image, pool.dataBase)
    {
      if !active {
        return Ok(());
      }
      var hi, was, kept: seq<B.Staged> := Min(lo + length, U64_MAX), buffer, [];
      assert kept + was[0..] == buffer;
      for i := 0 to |was|
        invariant Valid() && buffer == kept + was[i..] && kept == Unselected(was[..i], target, lo, hi)
        invariant SameBelow(old(pool.image), pool.image, pool.dataBase)
                    && tail <= old(tail) + LIVE_BLOCK * StagedBytes(was[..i])
        invariant Untouched()
        invariant (old(Tidy()) ==> Tidy()) && (old(Roomy()) ==> Roomy()) && (old(Within()) ==> Within())
        invariant old(Covered()) ==> Covered()
      {
        r, kept := FlushNext(was, i, kept, target, lo, hi, old(tail));
        if r.Err? {
          return;
        }
      }
      assert was[..|was|] == was;
      r := Ok(());
    }

    /** The `retain` closure on entry `i`: `kept` are the entries before it that stay. */
    method FlushNext(was: seq<B.Staged>, i: nat, kept: seq<B.Staged>, target: Option<nat>, lo: nat, hi: nat,
                     ghost start: nat)
      returns (r: Result<()>, next: seq<B.Staged>)
      requires Valid() && active && i < |was| && buffer == kept + was[i..]
                 && kept == Unselected(was[..i], target, lo, hi)
      requires tail <= start + LIVE_BLOCK * StagedBytes(was[..i])
      modifies this`extents, this`tail, this`buffer, pool
      ensures Valid()
      ensures Untouched()
      ensures r.Ok? ==> buffer == next + was[i + 1..] && next == Unselected(was[..i + 1], target, lo, hi)
      ensures r.Err? ==> r.errno == ENOSPC || StorageError(r.errno)
      ensures |pool.image| == |old(pool.image)|
      ensures tail <= start + LIVE_BLOCK * StagedBytes(was)
                && (r.Ok? ==> tail <= start + LIVE_BLOCK * StagedBytes(was[..i + 1]))
      ensures old(Roomy()) ==> Roomy()
      ensures old(Roomy()) ==> FlushVerdict(capacity, was, start, r)
      ensures (old(Tidy()) ==> Tidy()) && (old(Within()) ==> Within())
      ensures old(Covered()) ==> Covered()
      ensures SameBelow(old(pool.image), pool.image, pool.dataBase)
    {
      var e, rest := was[i], was[i + 1..];
      assert was[..i + 1][..i] == was[..i];
      assert kept + was[i..] == kept + [e] + rest;
      StagedSoFar(was, i);
      r, next := Ok(()), kept;
      if Selected(e, target, lo, hi) {
        r := FlushEntry(kept, e, rest);
      } else {
        next := kept + [e];
      }
    }

    /** One selected entry: written to its place and dropped from the buffer, or left as an overlay. */
    method FlushEntry(front: seq<B.Staged>, e: B.Staged, rest: seq<B.Staged>) returns (r: Result<()>)
      requires Valid() && active && buffer == front + [e] + rest
      modifies this`extents, this`tail, this`buffer, pool
      ensures Valid()
      ensures buffer == if r.Ok? then front + rest else old(buffer)
      ensures forall i: nat, k: nat :: Byte(i, k) == old(Byte(i, k))
      ensures r.Err? ==> r.errno == ENOSPC || StorageError(r.errno)
      ensures |pool.image| == |old(pool.image)|
      ensures old(Roomy()) && e.len <= U32_MAX && r.Err? ==> r.errno == ENOSPC || r.errno == EFBIG
      ensures tail <= old(tail) + LIVE_BLOCK * e.len && (old(Roomy() && Spare(e.len)) && Writable(e) ==> r.Ok?)
      ensures (old(Tidy()) ==> Tidy()) && (old(Within()) ==> Within())
      ensures old(Covered()) ==> Covered()
      ensures SameBelow(old(pool.image), pool.image, pool.dataBase)
    {
      assert buffer[|front|] == e && e in buffer && B.WellStaged(e);
      // The source drops an entry whose inode is gone; no such entry exists in a valid state.
      assert e.ino in sizes by { B.OverlayIs(buffer, |front|, e.offset); }
      if e.zero {
        r := FlushZeros(front, e, rest);
      } else {
        r := FlushData(front, e, rest);
      }
    }

    method FlushZeros(front: seq<B.Staged>, e: B.Staged, rest: seq<B.Staged>) returns (r: Result<()>)
      requires Valid() && active && buffer == front + [e] + rest && e in buffer && e.zero
      modifies this`buffer, pool
      ensures Valid()
      ensures buffer == if r.Ok? then front + rest else old(buffer)
      ensures forall i: nat, k: nat :: Byte(i, k) == old(Byte(i, k))
      ensures r.Err? ==> StorageError(r.errno)
      ensures |pool.image| == |old(pool.image)| && (old(Roomy()) && e.len <= U32_MAX ==>
                r == if e.len > 0 && B.End(e) > U64_MAX then Err(EFBIG) else Ok(()))
      ensures (old(Tidy()) ==> Tidy()) && (old(Covered()) ==> Covered())
      ensures SameBelow(old(pool.image), pool.image, pool.dataBase)
    {
      ghost var image, base := pool.image, pool.dataBase;
      r := ZeroUnder(e);
      if r.Err? {
        forall i: nat, k: nat ensures Byte(i, k) == old(Byte(i, k)) {
          StillCovered(base, image, pool.image, extents, extents, buffer, e, i, k);
        }
        return;
      }
      DroppedIsConsistent(extents, front, e, rest, sizes, active);
      buffer := front + rest;
      forall i: nat, k: nat ensures Byte(i, k) == old(Byte(i, k)) {
        FlushedZero(base, image, pool.image, extents, front, e, rest, i, k);
      }
    }

    method ZeroUnder(e: B.Staged) returns (r: Result<()>)
      requires ExtentsOk() && pool.Valid()
      modifies pool
      ensures SameElsewhere(extents, pool.dataBase, old(pool.image), pool.image, e.ino, e.offset, B.End(e))
      ensures r.Ok? ==> Zeroed(extents, pool.dataBase, pool.image, e.ino, e.offset, B.End(e), |extents|)
      ensures r.Err? ==> StorageError(r.errno)
      ensures |pool.image| == |old(pool.image)| && (old(Roomy()) && e.len <= U32_MAX ==>
                r == if e.len > 0 && B.End(e) > U64_MAX then Err(EFBIG) else Ok(()))
      ensures SameBelow(old(pool.image), pool.image, pool.dataBase)
    {
      if Roomy() { RoomyReaches(); }
      r := ZeroRange(e.ino, e.offset, e.len);
    }

    method FlushData(front: seq<B.Staged>, e: B.Staged, rest: seq<B.Staged>) returns (r: Result<()>)
      requires Valid() && active && buffer == front + [e] + rest && e in buffer && !e.zero && e.ino in sizes
      modifies this`extents, this`tail, this`buffer, pool
      ensures Valid()
      ensures buffer == if r.Ok? then front + rest else old(buffer)
      ensures forall i: nat, k: nat :: Byte(i, k) == old(Byte(i, k))
      ensures r.Err? ==> r.errno == ENOSPC || StorageError(r.errno)
      ensures |pool.image| == |old(pool.image)|
      ensures old(Roomy()) && e.len <= U32_MAX && r.Err? ==> r.errno == ENOSPC || r.errno == EFBIG
      ensures tail <= old(tail) + LIVE_BLOCK * e.len && (old(Roomy() && Spare(e.len)) && Writable(e) ==> r.Ok?)
      ensures (old(Tidy()) ==> Tidy()) && (old(Covered()) ==> Covered())
      ensures SameBelow(old(pool.image), pool.image, pool.dataBase)
    {
      ghost var image, base, es := pool.image, pool.dataBase, extents;
      assert B.WellStaged(e);
      ghost var upto;
      r, upto := WriteRange(e.ino, e.offset, e.data);
      GainsAreConsistent(es, extents, buffer, sizes, active, e.ino, e.offset, B.End(e));
      if NothingPast(es, buffer, sizes) {
        GainsUnderData(es, extents, front, e, rest, sizes);
      }
      if r.Err? {
        forall i: nat, k: nat ensures Byte(i, k) == old(Byte(i, k)) {
          StillCovered(base, image, pool.image, es, extents, buffer, e, i, k);
        }
        return;
      }
      DroppedIsConsistent(extents, front, e, rest, sizes, active);
      buffer := front + rest;
      forall i: nat, k: nat ensures Byte(i, k) == old(Byte(i, k)) {
        FlushedData(base, image, pool.image, es, extents, front, e, rest, i, k);
      }
    }

    // ---------- files come and go ----------

    /** A fresh inode: a file of zeros, empty except for a symbolic link. */
    method CreateFile(ino: nat, size: nat)
      requires Valid() && ino !in sizes
      modifies this`sizes
      ensures Valid() && sizes == old(sizes)[ino := size] && Untouched()
      ensures old(Tidy()) ==> Tidy()
      ensures forall k: nat :: Byte(ino, k) == 0
    {
      NoFileNoBytes(active, pool.dataBase, pool.image, extents, buffer, sizes, ino);
      sizes := sizes[ino := size];
    }

    /** `remove_transient_inode_state` */
    method RemoveFile(ino: nat)
      requires Valid()
      modifies this
      ensures Valid() && sizes == old(sizes) - {ino} && (old(Covered()) ==> Covered())
      ensures Snug() && tail <= old(tail) && (old(Within()) ==> Within())
      ensures extents == Others(old(extents), ino) && buffer == BO.Without(old(buffer), ino)
      ensures forall i: nat, k: nat :: Byte(i, k) == if i == ino then 0 else old(Byte(i, k))
      ensures old(Tidy()) ==> Tidy()
    {
      ghost var bound := tail;
      Purge(ino);
      RecomputeTail();
      TailIsLeast(extents, bound);
    }

    /** Everything of one file goes. */
    method Purge(ino: nat)
      requires Valid()
      modifies this`extents, this`buffer, this`sizes
      ensures Valid() && sizes == old(sizes) - {ino} && (old(Within()) ==> Within()) && (old(Covered()) ==> Covered())
      ensures extents == Others(old(extents), ino) && buffer == BO.Without(old(buffer), ino)
      ensures forall i: nat, k: nat :: Byte(i, k) == if i == ino then 0 else old(Byte(i, k))
      ensures old(Tidy()) ==> Tidy()
    {
      ghost var es, buf := extents, buffer;
      WithoutFile(extents, buffer, sizes, active, ino, tail);
      var keptExtents := KeepExtents(ino);
      var keptEntries := KeepEntries(ino);
      BO.WithoutOf(buffer, ino);
      extents, buffer, sizes := keptExtents, keptEntries, sizes - {ino};
      RemovedFile(active, pool.dataBase, pool.image, es, extents, buf, buffer, ino, sizes);
    }

    /** `live_extents.retain` */
    method KeepExtents(ino: nat) returns (kept: seq<Extent>)
      ensures kept == Others(extents, ino)
    {
      kept := [];
      for i := 0 to |extents|
        invariant kept == Others(extents[..i], ino)
      {
        assert extents[..i + 1][..i] == extents[..i];
        if extents[i].ino != ino {
          kept := kept + [extents[i]];
        }
      }
      assert extents[..|extents|] == extents;
    }

    /** `write_buffer.retain` */
    method KeepEntries(ino: nat) returns (kept: seq<B.Staged>)
      ensures kept == BO.Without(buffer, ino)
    {
      kept := [];
      for i := 0 to |buffer|
        invariant kept == BO.Without(buffer[..i], ino)
      {
        assert buffer[..i + 1][..i] == buffer[..i];
        if buffer[i].ino != ino {
          kept := kept + [buffer[i]];
        }
      }
      assert buffer[..|buffer|] == buffer;
    }
  }
}
