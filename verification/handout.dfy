/** How storage is handed out for a range that is about to be written: which bytes get it, where, and how far it goes.
    All of it follows from the extents and the allocator's tail before. */
module Handout {
  import opened Common
  import opened Extents
  import opened ExtentUpdate

  /** The allocator may move its tail to `end`. */
  predicate InBounds(capacity: Option<nat>, end: nat) {
    end <= U64_MAX && (capacity.Some? ==> end <= capacity.value)
  }

  /** The tail after an allocation of `length` bytes: whole blocks. */
  function TailAfter(tail: nat, length: nat): nat { tail + AlignUp(Max(length, LIVE_BLOCK)) }

  function RoomVerdict(capacity: Option<nat>, next: nat): Result<()> {
    if next > U64_MAX then Err(EFBIG) else if capacity.Some? && next > capacity.value then Err(ENOSPC) else Ok(())
  }

  /** The end of the run of bytes in the state of byte `k`, holes or preallocated ones. */
  ghost function RunEnd(es: seq<Extent>, ino: nat, k: nat, end: nat): (h: nat)
    requires k < end
    ensures k < h <= end && (h < end ==> At(es, ino, h) != At(es, ino, k))
    ensures forall j: nat :: k <= j < h ==> At(es, ino, j) == At(es, ino, k)
    decreases end - k
  {
    if k + 1 < end && At(es, ino, k + 1) == At(es, ino, k) then RunEnd(es, ino, k + 1, end) else k + 1
  }

  /** What the caller is told: each run without storage gets whole blocks from the tail on, in order, until one does
      not fit. */
  ghost function StorageVerdict(es: seq<Extent>, ino: nat, k: nat, end: nat, tail: nat,
                                capacity: Option<nat>): Result<()>
    decreases end - k
  {
    if k >= end then Ok(())
    else if At(es, ino, k).Stored? then StorageVerdict(es, ino, k + 1, end, tail, capacity)
    else
      var h := RunEnd(es, ino, k, end);
      var next := TailAfter(tail, h - k);
      if RoomVerdict(capacity, next).Err? then RoomVerdict(capacity, next)
      else StorageVerdict(es, ino, h, end, next, capacity)
  }

  /** The place that byte `b` is handed, if it is reached. */
  ghost function Handed(es: seq<Extent>, ino: nat, k: nat, end: nat, tail: nat, capacity: Option<nat>,
                        b: nat): (place: Option<nat>)
    ensures place.Some? ==> place.value >= tail && k <= b < end && !At(es, ino, b).Stored?
    decreases end - k
  {
    if k >= end then None
    else if At(es, ino, k).Stored? then Handed(es, ino, k + 1, end, tail, capacity, b)
    else
      var h := RunEnd(es, ino, k, end);
      var next := TailAfter(tail, h - k);
      if RoomVerdict(capacity, next).Err? then None
      else if k <= b < h then Some(tail + (b - k))
      else Handed(es, ino, h, end, next, capacity, b)
  }

  /** Stored bytes are passed over. */
  lemma {:induction false} PassStored(es: seq<Extent>, ino: nat, k: nat, next: nat, end: nat, tail: nat,
                                      capacity: Option<nat>)
    requires k <= next <= end && forall j: nat :: k <= j < next ==> At(es, ino, j).Stored?
    ensures StorageVerdict(es, ino, k, end, tail, capacity) == StorageVerdict(es, ino, next, end, tail, capacity)
    ensures forall b: nat :: Handed(es, ino, k, end, tail, capacity, b) == Handed(es, ino, next, end, tail, capacity, b)
    decreases next - k
  {
    if k < next {
      PassStored(es, ino, k + 1, next, end, tail, capacity);
    }
  }

  /** When everything is given storage, every byte without it is handed a place. */
  lemma {:induction false} AllHanded(es: seq<Extent>, ino: nat, k: nat, end: nat, tail: nat, capacity: Option<nat>,
                                     b: nat)
    requires StorageVerdict(es, ino, k, end, tail, capacity).Ok? && k <= b < end && !At(es, ino, b).Stored?
    ensures Handed(es, ino, k, end, tail, capacity, b).Some?
    decreases end - k
  {
    if At(es, ino, k).Stored? {
      AllHanded(es, ino, k + 1, end, tail, capacity, b);
    } else {
      var h := RunEnd(es, ino, k, end);
      if h <= b { AllHanded(es, ino, h, end, TailAfter(tail, h - k), capacity, b); }
    }
  }

  /** A run is the one that `RunEnd` finds if it cannot be made longer. */
  lemma {:induction false} RunIs(es: seq<Extent>, ino: nat, k: nat, h: nat, end: nat)
    requires k < h <= end && (h < end ==> At(es, ino, h) != At(es, ino, k))
    requires forall j: nat :: k <= j < h ==> At(es, ino, j) == At(es, ino, k)
    ensures RunEnd(es, ino, k, end) == h
    decreases h - k
  {
    if k + 1 < h {
      RunIs(es, ino, k + 1, h, end);
    }
  }

  /** A preallocated entry ends where its run of preallocated bytes ends. */
  lemma PreallocatedEnds(es: seq<Extent>, e: Extent)
    requires Laid(es) && Joined(es) && e in es && e.kind.Unwritten?
    ensures At(es, e.ino, e.end) != Preallocated
  {
    if Mapped(es, e.ino, e.end) {
      var f :| f in es && Covers(f, e.ino, e.end);
      AtIs(es, f, e.end);
      var i :| 0 <= i < |es| && es[i] == e;
      var j :| 0 <= j < |es| && es[j] == f;
      LaidApart(es, i, j);
      assert WellFormed(e) && !CanMerge(e, f);
    }
  }

  lemma WholeBlocks(at: nat, length: nat)
    requires at % LIVE_BLOCK == 0 && 0 < length
    ensures AlignUp(at + length) == TailAfter(at, length)
  {
  }

  lemma BlockPerByte(tail: nat, length: nat)
    requires 0 < length
    ensures TailAfter(tail, length) <= tail + LIVE_BLOCK * length
  {
  }

  /** The tail behind a run that was placed at the old tail. */
  lemma TailBehind(es: seq<Extent>, ino: nat, hi: nat, at: nat, length: nat)
    requires Laid(es) && 0 < length && hi > 0 && At(es, ino, hi - 1) == Stored(at + length - 1) && at % LIVE_BLOCK == 0
    requires TailOf(es) <= TailAfter(at, length)
    ensures TailOf(es) == TailAfter(at, length)
  {
    TailIsLeast(es, 0);
    var e :| e in es && Covers(e, ino, hi - 1) && At(es, ino, hi - 1) == CellOf(e, hi - 1);
    assert WellFormed(e);
    AlignedBound(at + length, TailOf(es));
    WholeBlocks(at, length);
  }

  // ---------- handing out, run by run ----------

  /** `now` is `es` with storage handed out for the bytes of [lo, hi) that had none. */
  ghost predicate HandedOut(es: seq<Extent>, now: seq<Extent>, ino: nat, lo: nat, hi: nat, tail: nat,
                            capacity: Option<nat>)
  {
    forall k: nat :: lo <= k < hi ==> ByteHanded(es, now, ino, lo, hi, tail, capacity, k)
  }

  ghost predicate ByteHanded(es: seq<Extent>, now: seq<Extent>, ino: nat, lo: nat, hi: nat, tail: nat,
                             capacity: Option<nat>, k: nat)
  {
    At(now, ino, k) == match Handed(es, ino, lo, hi, tail, capacity, k) case Some(p) => Stored(p)
      case None => At(es, ino, k)
  }

  /** That is done up to `cursor`, and the tail has moved to `next`; the bytes behind are as they were. */
  ghost predicate HandedUpTo(
    es: seq<Extent>, now: seq<Extent>, ino: nat, lo: nat, cursor: nat, hi: nat, tail: nat, next: nat,
    capacity: Option<nat>
  ) {
    && lo <= cursor <= hi
    && StorageVerdict(es, ino, lo, hi, tail, capacity) == StorageVerdict(es, ino, cursor, hi, next, capacity)
    && (forall k: nat ::
         cursor <= k < hi ==>
         Handed(es, ino, lo, hi, tail, capacity, k) == Handed(es, ino, cursor, hi, next, capacity, k))
    && (forall k: nat :: lo <= k < cursor ==> ByteHanded(es, now, ino, lo, hi, tail, capacity, k))
    && (forall k: nat :: cursor <= k < hi ==> At(now, ino, k) == At(es, ino, k))
  }

  lemma HandedPast(
    es: seq<Extent>, now: seq<Extent>, ino: nat, lo: nat, cursor: nat, past: nat, hi: nat, tail: nat, next: nat,
    capacity: Option<nat>
  )
    requires HandedUpTo(es, now, ino, lo, cursor, hi, tail, next, capacity) && cursor <= past <= hi
    requires forall k: nat :: cursor <= k < past ==> At(now, ino, k).Stored?
    ensures HandedUpTo(es, now, ino, lo, past, hi, tail, next, capacity)
  {
    PassStored(es, ino, cursor, past, hi, next, capacity);
  }

  /** One run: it gets the next blocks, or there is no room and nothing further is handed out. */
  lemma OneRun(es: seq<Extent>, ino: nat, k: nat, h: nat, end: nat, tail: nat, capacity: Option<nat>)
    requires k < h <= end && !At(es, ino, k).Stored? && (h < end ==> At(es, ino, h) != At(es, ino, k))
    requires forall j: nat :: k <= j < h ==> At(es, ino, j) == At(es, ino, k)
    ensures RoomVerdict(capacity, TailAfter(tail, h - k)).Ok? ==>
              && StorageVerdict(es, ino, k, end, tail, capacity)
                   == StorageVerdict(es, ino, h, end, TailAfter(tail, h - k), capacity)
              && forall b: nat :: Handed(es, ino, k, end, tail, capacity, b)
                               == if k <= b < h then Some(tail + (b - k))
                                    else Handed(es, ino, h, end, TailAfter(tail, h - k), capacity, b)
    ensures RoomVerdict(capacity, TailAfter(tail, h - k)).Err? ==>
              && StorageVerdict(es, ino, k, end, tail, capacity) == RoomVerdict(capacity, TailAfter(tail, h - k))
              && forall b: nat :: Handed(es, ino, k, end, tail, capacity, b) == None
  {
    RunIs(es, ino, k, h, end);
  }

  /** The bytes of [cursor, h) are a whole run without storage. */
  ghost predicate WholeRun(es: seq<Extent>, ino: nat, cursor: nat, h: nat, hi: nat) {
    && cursor < h <= hi && !At(es, ino, cursor).Stored? && (h < hi ==> At(es, ino, h) != At(es, ino, cursor))
    && forall k: nat :: cursor <= k < h ==> At(es, ino, k) == At(es, ino, cursor)
  }

  lemma SameRun(es: seq<Extent>, was: seq<Extent>, ino: nat, cursor: nat, h: nat, hi: nat)
    requires WholeRun(was, ino, cursor, h, hi)
               && forall k: nat :: cursor <= k < hi ==> At(was, ino, k) == At(es, ino, k)
    ensures WholeRun(es, ino, cursor, h, hi)
  {
  }

  lemma HandedRun(
    es: seq<Extent>, was: seq<Extent>, now: seq<Extent>, ino: nat, lo: nat, cursor: nat, h: nat, hi: nat, tail: nat,
    next: nat, capacity: Option<nat>
  )
    requires HandedUpTo(es, was, ino, lo, cursor, hi, tail, next, capacity) && WholeRun(was, ino, cursor, h, hi)
    requires RoomVerdict(capacity, TailAfter(next, h - cursor)).Ok?
    requires forall k: nat :: cursor <= k < h ==> At(now, ino, k) == Stored(next + (k - cursor))
    requires forall k: nat :: lo <= k < hi && !(cursor <= k < h) ==> At(now, ino, k) == At(was, ino, k)
    ensures HandedUpTo(es, now, ino, lo, h, hi, tail, TailAfter(next, h - cursor), capacity)
  {
    SameRun(es, was, ino, cursor, h, hi);
    OneRun(es, ino, cursor, h, hi, next, capacity);
    forall k: nat | lo <= k < h ensures ByteHanded(es, now, ino, lo, hi, tail, capacity, k) {
      if k < cursor { assert ByteHanded(es, was, ino, lo, hi, tail, capacity, k); }
    }
  }

  lemma HandedShort(
    es: seq<Extent>, was: seq<Extent>, ino: nat, lo: nat, cursor: nat, h: nat, hi: nat, tail: nat, next: nat,
    capacity: Option<nat>
  )
    requires HandedUpTo(es, was, ino, lo, cursor, hi, tail, next, capacity) && WholeRun(was, ino, cursor, h, hi)
    requires RoomVerdict(capacity, TailAfter(next, h - cursor)).Err?
    ensures StorageVerdict(es, ino, lo, hi, tail, capacity) == RoomVerdict(capacity, TailAfter(next, h - cursor))
    ensures HandedOut(es, was, ino, lo, hi, tail, capacity)
  {
    SameRun(es, was, ino, cursor, h, hi);
    OneRun(es, ino, cursor, h, hi, next, capacity);
  }

  lemma HandedAll(es: seq<Extent>, now: seq<Extent>, ino: nat, lo: nat, hi: nat, tail: nat, next: nat,
                  capacity: Option<nat>)
    requires HandedUpTo(es, now, ino, lo, hi, hi, tail, next, capacity)
    ensures StorageVerdict(es, ino, lo, hi, tail, capacity) == Ok(()) && HandedOut(es, now, ino, lo, hi, tail, capacity)
  {
  }

  // ---------- a range of 64-bit offsets ----------

  /** What giving [lo, lo + length) storage comes to. */
  ghost function RangeVerdict(es: seq<Extent>, ino: nat, lo: nat, length: nat, tail: nat,
                              capacity: Option<nat>): Result<()>
  {
    if length > 0 && lo + length > U64_MAX then Err(EFBIG) else StorageVerdict(es, ino, lo, lo + length, tail, capacity)
  }

  /** The place byte `k` is given by that, if it is given one. */
  ghost function PlaceFor(es: seq<Extent>, ino: nat, lo: nat, length: nat, tail: nat, capacity: Option<nat>,
                          k: nat): (place: Option<nat>)
    ensures place.Some? ==> place.value >= tail && lo <= k < lo + length && !At(es, ino, k).Stored?
  {
    if lo + length > U64_MAX then None else Handed(es, ino, lo, lo + length, tail, capacity, k)
  }

  ghost predicate RangeHanded(es: seq<Extent>, now: seq<Extent>, ino: nat, lo: nat, length: nat, tail: nat,
                              capacity: Option<nat>)
  {
    forall k: nat :: lo <= k < lo + length ==> PlaceGiven(es, now, ino, lo, length, tail, capacity, k)
  }

  ghost predicate PlaceGiven(es: seq<Extent>, now: seq<Extent>, ino: nat, lo: nat, length: nat, tail: nat,
                             capacity: Option<nat>, k: nat)
  {
    At(now, ino, k) == match PlaceFor(es, ino, lo, length, tail, capacity, k) case Some(p) => Stored(p)
      case None => At(es, ino, k)
  }

  /** The bytes have been handed what they are due, and the caller is told so. */
  ghost predicate Provided(es: seq<Extent>, now: seq<Extent>, ino: nat, lo: nat, hi: nat, tail: nat,
                           capacity: Option<nat>, r: Result<()>)
  {
    r == StorageVerdict(es, ino, lo, hi, tail, capacity) && HandedOut(es, now, ino, lo, hi, tail, capacity)
  }

  lemma ProvidedRange(es: seq<Extent>, now: seq<Extent>, ino: nat, lo: nat, hi: nat, length: nat, tail: nat,
                      capacity: Option<nat>, r: Result<()>)
    requires hi == lo + length <= U64_MAX && Provided(es, now, ino, lo, hi, tail, capacity, r)
    ensures r == RangeVerdict(es, ino, lo, length, tail, capacity)
    ensures RangeHanded(es, now, ino, lo, length, tail, capacity)
  {
    forall k: nat | lo <= k < lo + length ensures PlaceGiven(es, now, ino, lo, length, tail, capacity, k) {
      assert ByteHanded(es, now, ino, lo, lo + length, tail, capacity, k);
    }
  }

  lemma NothingHanded(es: seq<Extent>, ino: nat, lo: nat, length: nat, tail: nat, capacity: Option<nat>)
    requires length == 0 || lo + length > U64_MAX
    ensures RangeVerdict(es, ino, lo, length, tail, capacity) == (if length == 0 then Ok(()) else Err(EFBIG))
    ensures RangeHanded(es, es, ino, lo, length, tail, capacity)
  {
  }
}
