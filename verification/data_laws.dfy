/** Laws of the live-data engine that span several calls. */
module DataLaws {
  import opened Common
  import opened Remaps
  import opened Extents
  import opened ExtentUpdate
  import opened Handout
  import opened FileSpec
  import opened Media
  import opened Pool
  import opened LiveData
  import EO = ExtentOps
  import B = WriteBuffer
  import BO = BufferOps

  // ---------- insert, then collapse ----------

  lemma InsertCollapseMaps(es: seq<Extent>, mid: seq<Extent>, es': seq<Extent>, ino: nat, lo: nat, len: nat)
    requires forall i, k :: At(mid, i, k) == EO.Moved(Insert(lo, len), ino, es, i, k)
    requires forall i, k :: At(es', i, k) == EO.Moved(Collapse(lo, lo + len), ino, mid, i, k)
    ensures SameMap(es', es)
  {
    forall i, k ensures At(es', i, k) == At(es, i, k) {
      Remaps.InsertThenCollapse(lo, len, k);
      var j := SourceFor(Collapse(lo, lo + len), ino, i, k).value;
      assert At(mid, i, j) == EO.Moved(Insert(lo, len), ino, es, i, j);
    }
  }

  lemma InsertCollapseOverlays(buf: seq<B.Staged>, mid: seq<B.Staged>, buf': seq<B.Staged>, ino: nat, lo: nat, len: nat)
    requires forall i, k :: B.Overlay(mid, i, k) == BO.MovedOverlay(Insert(lo, len), ino, buf, i, k)
    requires forall i, k :: B.Overlay(buf', i, k) == BO.MovedOverlay(Collapse(lo, lo + len), ino, mid, i, k)
    ensures forall i, k :: B.Overlay(buf', i, k) == B.Overlay(buf, i, k)
  {
    forall i, k ensures B.Overlay(buf', i, k) == B.Overlay(buf, i, k) {
      Remaps.InsertThenCollapse(lo, len, k);
      var j := SourceFor(Collapse(lo, lo + len), ino, i, k).value;
      assert B.Overlay(mid, i, j) == BO.MovedOverlay(Insert(lo, len), ino, buf, i, j);
    }
  }

  /** Inserting a range and collapsing it again restores the file's size, its map from logical to physical bytes, what
      is staged over it, and with these every byte. The way back is open exactly if the insert moved no staged entry
      past the end of the 64-bit range. */
  method InsertAndCollapse(e: LiveEngine, ino: nat, offset: nat, length: nat)
    returns (there: Result<()>, back: Result<()>)
    requires e.Valid() && length > 0
    modifies e
    ensures e.Valid()
    ensures there == FallocateAnswer(if ino in old(e.sizes) then Some(old(e.sizes)[ino]) else None,
                                     InsertZeros(offset, length), offset, length, ino, old(e.buffer), old(e.extents))
    ensures there.Ok? ==> (back.Ok? <==> BO.RoomAbove(old(e.buffer), ino, offset, length))
    ensures there.Ok? && back.Ok? ==> e.sizes == old(e.sizes) && SameMap(e.extents, old(e.extents))
    ensures there.Ok? && back.Ok? ==> forall i, k :: B.Overlay(e.buffer, i, k) == B.Overlay(old(e.buffer), i, k)
  {
    ghost var es, buf, sizes := e.extents, e.buffer, e.sizes;
    there := Opening(e, ino, offset, length);
    back := there;
    if there.Err? { return; }
    ghost var es1, buf1 := e.extents, e.buffer;
    back := Closing(e, ino, offset, length);
    if back.Ok? {
      InsertCollapseMaps(es, es1, e.extents, ino, offset, length);
      InsertCollapseOverlays(buf, buf1, e.buffer, ino, offset, length);
      assert e.sizes == sizes;
    }
  }

  method Opening(e: LiveEngine, ino: nat, offset: nat, length: nat) returns (r: Result<()>)
    requires e.Valid() && length > 0
    modifies e
    ensures e.Valid()
    ensures r == FallocateAnswer(if ino in old(e.sizes) then Some(old(e.sizes)[ino]) else None,
                                 InsertZeros(offset, length), offset, length, ino, old(e.buffer), old(e.extents))
    ensures r.Ok? ==> ino in old(e.sizes) && offset < old(e.sizes)[ino] && offset + length <= U64_MAX
    ensures r.Ok? ==> e.sizes == old(e.sizes)[ino := old(e.sizes)[ino] + length]
    ensures r.Ok? ==>
              e.Rearranged(Insert(offset, length), ino)
              && (e.Within() <==> BO.RoomAbove(old(e.buffer), ino, offset, length))
  {
    ghost var buf, es, size := e.buffer, e.extents, if ino in e.sizes then Some(e.sizes[ino]) else None;
    r := Inserting(e, ino, offset, length);
    if r.Ok? {
      InsertTaken(size, offset, length, ino, buf, es);
      BO.InsertEndsIff(ino, buf, offset, length);
    }
  }

  method Inserting(e: LiveEngine, ino: nat, offset: nat, length: nat) returns (r: Result<()>)
    requires e.Valid() && length > 0
    modifies e
    ensures e.Valid()
    ensures r == FallocateAnswer(if ino in old(e.sizes) then Some(old(e.sizes)[ino]) else None,
                                 InsertZeros(offset, length), offset, length, ino, old(e.buffer), old(e.extents))
    ensures r.Ok? ==> ino in old(e.sizes) && e.sizes == old(e.sizes)[ino := old(e.sizes)[ino] + length]
    ensures r.Ok? ==>
              e.Rearranged(Insert(offset, length), ino)
              && e.buffer == BO.Rebuild(Insert(offset, length), ino, old(e.buffer))
  {
    if ino !in e.sizes { return Err(ENOENT); }
    if offset + length > U64_MAX { return Err(EFBIG); }
    ghost var answer := FallocateAnswer(Some(e.sizes[ino]), InsertZeros(offset, length), offset, length, ino, e.buffer,
                                        e.extents);
    InsertAnswer(e.sizes[ino], offset, length, ino, e.buffer, e.extents);
    r := e.InsertRange(ino, offset, length);
    assert r == answer;
  }

  lemma InsertTaken(size: Option<nat>, offset: nat, length: nat, ino: nat, buf: seq<B.Staged>, es: seq<Extent>)
    requires length > 0 && FallocateAnswer(size, InsertZeros(offset, length), offset, length, ino, buf, es).Ok?
    ensures size.Some? && offset < size.value && offset + length <= U64_MAX && BO.EndsFit(buf)
  {
  }

  method Closing(e: LiveEngine, ino: nat, offset: nat, length: nat) returns (r: Result<()>)
    requires e.Valid() && length > 0 && ino in e.sizes && offset + length < e.sizes[ino] && offset + length <= U64_MAX
    modifies e
    ensures e.Valid() && (r.Ok? <==> old(e.Within()))
    ensures r.Ok? ==>
              e.sizes == old(e.sizes)[ino := old(e.sizes)[ino] - length]
              && e.Rearranged(Collapse(offset, offset + length), ino)
  {
    if e.Within() { BO.FitsWithin(Collapse(offset, offset + length), ino, e.buffer); }
    r := e.CollapseRange(ino, offset, length);
  }

  // ---------- entries past the end of the 64-bit range ----------

  /** Calls that all succeed leave a staged zero range that ends past the 64-bit range. From then on every call that
      rewrites the buffer is refused, on every file, and no write succeeds. */
  method StuckBuffer(pool: BlockPool)
    returns (e: LiveEngine, zero: Result<()>, insert: Result<()>, punch: Result<()>, write: Result<nat>)
    requires pool.Valid()
    modifies pool
    ensures zero.Ok? && insert.Ok? && punch == Err(EFBIG) && write.Err?
  {
    e := new LiveEngine(pool, true, None);
    TwoFiles(e);
    zero := StageFar(e);
    insert := MoveUp(e);
    punch := Punching(e, 2, 0, 1);
    write := e.Write(2, 0, [1]);
  }

  const FAR: nat := 0xFFFF_FFFF_FFFF_E000

  /** ZERO_RANGE with KEEP_SIZE over the last block but one of the 64-bit range. */
  method StageFar(e: LiveEngine) returns (r: Result<()>)
    requires e.Valid() && e.Tidy() && e.buffer == [] && e.sizes == map[1 := 10, 2 := 5]
    modifies e
    ensures e.Valid() && e.Tidy() && r.Ok? && e.sizes == old(e.sizes) && e.buffer == [B.Staged(1, FAR, 4096, [], true)]
  {
    assert AlignUp(FAR) == FAR;
    assert BO.EndsFit([]);
    r := e.Fallocate(1, 0x11, FAR, 4096);
    assert r.Ok? && e.Relayered(ZeroOut(FAR, 4096, true), 1);
    assert BO.Rebuild(Punch(FAR, FAR + 4096), 1, []) == [];
  }

  /** INSERT_RANGE of one block at the start of the same file. */
  method MoveUp(e: LiveEngine) returns (r: Result<()>)
    requires e.Valid() && e.Tidy() && e.sizes == map[1 := 10, 2 := 5] && e.buffer == [B.Staged(1, FAR, 4096, [], true)]
    modifies e
    ensures e.Valid() && r.Ok? && 2 in e.sizes && !e.Within()
  {
    SizeBoundsExtents(e.extents, e.buffer, e.sizes, 1, 0, 4096);
    MovedPast(e.buffer[0]);
    r := e.Fallocate(1, 0x20, 0, 4096);
    assert r.Ok? && e.Relayered(InsertZeros(0, 4096), 1);
  }

  method Punching(e: LiveEngine, ino: nat, offset: nat, length: nat) returns (r: Result<()>)
    requires e.Valid() && ino in e.sizes && length > 0 && offset + length <= U64_MAX
    modifies e
    ensures e.Valid() && r == if old(e.Within()) then Ok(()) else Err(EFBIG)
    ensures r.Err? ==> e.buffer == old(e.buffer)
  {
    AnswerIff(Some(e.sizes[ino]), PunchHole(offset, length), offset, length, ino, e.buffer, e.extents);
    r := e.Fallocate(ino, 0x03, offset, length);
  }

  method TwoFiles(e: LiveEngine)
    requires e.Valid() && e.sizes == map[] && e.extents == [] && e.buffer == []
    modifies e
    ensures e.Valid() && e.Tidy() && e.buffer == [] && e.sizes == map[1 := 10, 2 := 5]
  {
    e.CreateFile(1, 0);
    e.CreateFile(2, 0);
    var r := e.Truncate(1, 10);
    r := e.Truncate(2, 5);
  }

  lemma MovedPast(staged: B.Staged)
    requires staged == B.Staged(1, FAR, 4096, [], true)
    ensures BO.Fits(Insert(0, 4096), 1, [staged]) && !BO.EndsFit(BO.Rebuild(Insert(0, 4096), 1, [staged]))
  {
    var moved := B.Right(staged, staged.offset, staged.offset + 4096);
    assert B.PiecesFor(Insert(0, 4096), 1, staged) == [moved];
    assert [staged][..0] == [];
    assert BO.Cut(Insert(0, 4096), 1, [staged]) == [moved];
    assert BO.Rebuild(Insert(0, 4096), 1, [staged]) == [moved];
    assert moved in [moved];
  }

  // ---------- physical bytes ----------

  /** In every state of the engine a stored byte has a physical place of its own, below the allocator's tail
      and inside the capacity. */
  lemma PhysicalBytes(e: LiveEngine, i: nat, k: nat, j: nat, l: nat)
    requires e.Valid() && At(e.extents, i, k).Stored?
    ensures At(e.extents, i, k).at < e.tail && (e.capacity.Some? ==> e.tail <= e.capacity.value)
    ensures At(e.extents, j, l) == At(e.extents, i, k) ==> i == j && k == l
  {
    var n := AtFrom(e.extents, i, k);
    assert e.extents[n] in e.extents && WellFormed(e.extents[n]);
    if At(e.extents, j, l) == At(e.extents, i, k) {
      PhysInjective(e.extents, i, k, j, l);
    }
  }

  // ---------- what a failed write leaves ----------

  /** Every byte of the range reads as before the write or as the write would have left it. */
  ghost predicate OldOrNew(
    base: nat, image: seq<byte>, image': seq<byte>, es: seq<Extent>, es': seq<Extent>, buf: seq<B.Staged>, ino: nat,
    lo: nat, data: seq<byte>
  ) {
    forall k: nat :: lo <= k < lo + |data| ==>
                       || Contents(true, base, image', es', buf, ino, k) == Contents(true, base, image, es, buf, ino, k)
                       || Contents(true, base, image', es', buf, ino, k) == data[k - lo]
  }

  /** The storage newly given to bytes of the range that nothing is staged over and that the data has not reached held
      zeros. */
  ghost predicate NewStorageZero(
    base: nat, image: seq<byte>, image': seq<byte>, es: seq<Extent>, es': seq<Extent>, buf: seq<B.Staged>, ino: nat,
    lo: nat, data: seq<byte>
  ) {
    forall k: nat :: lo <= k < lo + |data| && Given(es, es', ino, k) && B.Overlay(buf, ino, k).None?
                     && Contents(true, base, image', es', buf, ino, k) != data[k - lo] ==>
                       ImageAt(image, base + At(es', ino, k).at) == 0
  }

  lemma FailedWriteIff(
    base: nat, image: seq<byte>, image': seq<byte>, es: seq<Extent>, es': seq<Extent>, buf: seq<B.Staged>, tail: nat,
    ino: nat, lo: nat, data: seq<byte>
  )
    requires forall k: nat ::
               lo <= k < lo + |data| ==> HalfByte(base, image, image', es, es', buf, tail, ino, lo, data, k)
    ensures OldOrNew(base, image, image', es, es', buf, ino, lo, data) <==>
              NewStorageZero(base, image, image', es, es', buf, ino, lo, data)
  {
    if NewStorageZero(base, image, image', es, es', buf, ino, lo, data) {
      forall k: nat | lo <= k < lo + |data|
        ensures || Contents(true, base, image', es', buf, ino, k) == Contents(true, base, image, es, buf, ino, k)
                || Contents(true, base, image', es', buf, ino, k) == data[k - lo]
      {
        assert HalfByte(base, image, image', es, es', buf, tail, ino, lo, data, k);
      }
    }
    if OldOrNew(base, image, image', es, es', buf, ino, lo, data) {
      forall k: nat | lo <= k < lo + |data| && Given(es, es', ino, k) && B.Overlay(buf, ino, k).None?
                      && Contents(true, base, image', es', buf, ino, k) != data[k - lo]
        ensures ImageAt(image, base + At(es', ino, k).at) == 0
      {
        assert HalfByte(base, image, image', es, es', buf, tail, ino, lo, data, k);
      }
    }
  }

  /** A write through active storage, and what its range reads when it fails: every byte is the old or the new one if
      and only if the storage newly given to bytes the data did not reach held zeros. */
  method FailedWriteReads(e: LiveEngine, ino: nat, offset: nat, data: seq<byte>) returns (r: Result<nat>)
    requires e.Valid() && e.active && ino in e.sizes && |data| <= U32_MAX
    modifies e, e.pool
    ensures e.Valid()
    ensures r.Err? ==>
              var base, was, now := e.pool.dataBase, old(e.pool.image), e.pool.image;
              && e.buffer == old(e.buffer) && e.sizes == old(e.sizes)
              && (OldOrNew(base, was, now, old(e.extents), e.extents, e.buffer, ino, offset, data)
                  <==> NewStorageZero(base, was, now, old(e.extents), e.extents, e.buffer, ino, offset, data))
  {
    ghost var es, was, tail := e.extents, e.pool.image, e.tail;
    r := e.Write(ino, offset, data);
    if r.Err? {
      assert data[..|data| % (U32_MAX + 1)] == data;
      FailedWriteIff(e.pool.dataBase, was, e.pool.image, es, e.extents, e.buffer, tail, ino, offset, data);
    }
  }

  /** What can be checked before a write: every byte of the range that is not staged and will be handed storage will get
      a place that holds zero or the byte to be written. */
  ghost predicate Harmless(
    base: nat, image: seq<byte>, es: seq<Extent>, buf: seq<B.Staged>, tail: nat, capacity: Option<nat>, ino: nat,
    lo: nat, data: seq<byte>
  ) {
    forall k: nat :: lo <= k < lo + |data| ==> HarmlessAt(base, image, es, buf, tail, capacity, ino, lo, data, k)
  }

  ghost predicate HarmlessAt(
    base: nat, image: seq<byte>, es: seq<Extent>, buf: seq<B.Staged>, tail: nat, capacity: Option<nat>, ino: nat,
    lo: nat, data: seq<byte>, k: nat
  )
    requires lo <= k < lo + |data|
  {
    var place := PlaceFor(es, ino, lo, |data|, tail, capacity, k);
    B.Overlay(buf, ino, k).None? && place.Some? ==>
      ImageAt(image, base + place.value) == 0 || ImageAt(image, base + place.value) == data[k - lo]
  }

  /** Storage that holds zeros from the tail on is harmless to every write. */
  lemma ZerosAreHarmless(
    base: nat, image: seq<byte>, es: seq<Extent>, buf: seq<B.Staged>, tail: nat, capacity: Option<nat>, ino: nat,
    lo: nat, data: seq<byte>
  )
    requires forall x: nat :: base + tail <= x ==> ImageAt(image, x) == 0
    ensures Harmless(base, image, es, buf, tail, capacity, ino, lo, data)
  {
  }

  /** Whatever the device has done of the write, harmless storage shows nothing but old and new bytes. */
  lemma HarmlessShowsNothing(
    base: nat, image: seq<byte>, image': seq<byte>, es: seq<Extent>, es': seq<Extent>, buf: seq<B.Staged>, tail: nat,
    capacity: Option<nat>, ino: nat, lo: nat, data: seq<byte>
  )
    requires forall k: nat ::
               lo <= k < lo + |data| ==> HalfByte(base, image, image', es, es', buf, tail, ino, lo, data, k)
    requires RangeHanded(es, es', ino, lo, |data|, tail, capacity)
    requires Harmless(base, image, es, buf, tail, capacity, ino, lo, data)
    ensures OldOrNew(base, image, image', es, es', buf, ino, lo, data)
  {
    forall k: nat | lo <= k < lo + |data|
      ensures || Contents(true, base, image', es', buf, ino, k) == Contents(true, base, image, es, buf, ino, k)
              || Contents(true, base, image', es', buf, ino, k) == data[k - lo]
    {
      assert HalfByte(base, image, image', es, es', buf, tail, ino, lo, data, k)
               && PlaceGiven(es, es', ino, lo, |data|, tail, capacity, k);
      assert HarmlessAt(base, image, es, buf, tail, capacity, ino, lo, data, k);
    }
  }

  /** Where storage was handed out and nothing written, it shows nothing else only if it was harmless. */
  lemma UnwrittenShows(
    base: nat, image: seq<byte>, es: seq<Extent>, es': seq<Extent>, buf: seq<B.Staged>, tail: nat,
    capacity: Option<nat>, ino: nat, lo: nat, data: seq<byte>
  )
    requires RangeHanded(es, es', ino, lo, |data|, tail, capacity)
               && OldOrNew(base, image, image, es, es', buf, ino, lo, data)
    ensures Harmless(base, image, es, buf, tail, capacity, ino, lo, data)
  {
    forall k: nat | lo <= k < lo + |data| ensures HarmlessAt(base, image, es, buf, tail, capacity, ino, lo, data, k) {
      assert PlaceGiven(es, es', ino, lo, |data|, tail, capacity, k);
      assert || Contents(true, base, image, es', buf, ino, k) == Contents(true, base, image, es, buf, ino, k)
             || Contents(true, base, image, es', buf, ino, k) == data[k - lo];
    }
  }

  lemma LandedIsNew(
    base: nat, image: seq<byte>, image': seq<byte>, es: seq<Extent>, es': seq<Extent>, buf: seq<B.Staged>, ino: nat,
    lo: nat, data: seq<byte>
  )
    requires Landed(es', base, image', ino, lo, lo + |data|, data)
    ensures OldOrNew(base, image, image', es, es', buf, ino, lo, data)
  {
  }

  /** A failed write by the state before it: on any device harmless storage leaves every byte old or new. Without `room`
      for the whole range nothing is written, and the storage has to be harmless; with room a `healthy` device takes all
      of the data. */
  lemma FailedWriteBefore(
    base: nat, image: seq<byte>, image': seq<byte>, es: seq<Extent>, es': seq<Extent>, buf: seq<B.Staged>, tail: nat,
    capacity: Option<nat>, ino: nat, lo: nat, data: seq<byte>, healthy: bool
  )
    requires forall k: nat ::
               lo <= k < lo + |data| ==> HalfByte(base, image, image', es, es', buf, tail, ino, lo, data, k)
    requires RangeHanded(es, es', ino, lo, |data|, tail, capacity)
    requires if RangeVerdict(es, ino, lo, |data|, tail, capacity).Err? then image' == image
             else healthy ==> Landed(es', base, image', ino, lo, lo + |data|, data)
    ensures SafeIff(base, image, image', es, es', buf, tail, capacity, ino, lo, data, healthy)
  {
    if Harmless(base, image, es, buf, tail, capacity, ino, lo, data) {
      HarmlessShowsNothing(base, image, image', es, es', buf, tail, capacity, ino, lo, data);
    }
    if RangeVerdict(es, ino, lo, |data|, tail, capacity).Err? {
      if OldOrNew(base, image, image, es, es', buf, ino, lo, data) {
        UnwrittenShows(base, image, es, es', buf, tail, capacity, ino, lo, data);
      }
    } else if healthy {
      LandedIsNew(base, image, image', es, es', buf, ino, lo, data);
    }
  }

  ghost predicate SafeIff(
    base: nat, image: seq<byte>, image': seq<byte>, es: seq<Extent>, es': seq<Extent>, buf: seq<B.Staged>, tail: nat,
    capacity: Option<nat>, ino: nat, lo: nat, data: seq<byte>, healthy: bool
  ) {
    var room := RangeVerdict(es, ino, lo, |data|, tail, capacity).Ok?;
    var harmless := Harmless(base, image, es, buf, tail, capacity, ino, lo, data);
    var safe := OldOrNew(base, image, image', es, es', buf, ino, lo, data);
    (harmless ==> safe) && (!room ==> (safe <==> harmless)) && (healthy ==> (safe <==> room || harmless))
  }

  /** The same of a write call on any engine with active storage. */
  method FailedWriteForeseen(e: LiveEngine, ino: nat, offset: nat, data: seq<byte>) returns (r: Result<nat>)
    requires e.Valid() && e.active && ino in e.sizes && |data| <= U32_MAX
    modifies e, e.pool
    ensures e.Valid()
    ensures r.Err? ==>
              SafeIff(e.pool.dataBase, old(e.pool.image), e.pool.image, old(e.extents), e.extents, old(e.buffer),
                      old(e.tail), e.capacity, ino, offset, data, old(e.Roomy()))
  {
    ghost var es, was, tail, buf := e.extents, e.pool.image, e.tail, e.buffer;
    r := WriteWhole(e, ino, offset, data);
    if r.Err? {
      FailedWriteBefore(e.pool.dataBase, was, e.pool.image, es, e.extents, buf, tail, e.capacity, ino, offset, data,
        old(e.Roomy()));
    }
  }

  /** A write whose length needs no cutting. */
  method WriteWhole(e: LiveEngine, ino: nat, offset: nat, data: seq<byte>) returns (r: Result<nat>)
    requires e.Valid() && e.active && ino in e.sizes && |data| <= U32_MAX
    modifies e, e.pool
    ensures e.Valid() && (r.Err? ==> e.HalfWritten(ino, offset, data) && e.Foretold(ino, offset, data))
    ensures data != [] ==> e.AsForeseen(ino, offset, |data|, if r.Ok? then Ok(()) else Err(r.errno))
  {
    r := e.Write(ino, offset, data);
    assert data[..|data| % (U32_MAX + 1)] == data;
  }

  /** An engine with room for one block, on storage that holds sevens, and a file whose second byte is preallocated. */
  method OneReservedByte() returns (e: LiveEngine)
    ensures fresh(e) && fresh(e.pool) && e.Valid() && e.active && e.capacity == Some(4096) && e.tail == 0
              && e.buffer == []
    ensures e.pool.dataBase == 0 && e.pool.image == seq(4096, _ => 7) && 1 in e.sizes
    ensures At(e.extents, 1, 0) == Hole && At(e.extents, 1, 1) == Preallocated && At(e.extents, 1, 2) == Hole
  {
    var pool := new BlockPool(seq(4096, _ => 7), true, 4096, 4096, 0);
    e := new LiveEngine(pool, true, Some(4096));
    e.CreateFile(1, 0);
    ghost var es := e.extents;
    label Before:
    var r := e.Fallocate(1, 0, 1, 1);
    assert r.Ok? && e.Relayered@Before(Reserve(1, 1, false), 1);
    assert forall k: nat :: At(e.extents, 1, k) == FilledCell(es, 1, 1, 2, 1, k);
  }

  /** Room for one block: the first of three runs gets it, and the second finds none. */
  lemma OneBlockForThree(es: seq<Extent>)
    requires At(es, 1, 0) == Hole && At(es, 1, 1) == Preallocated && At(es, 1, 2) == Hole
    ensures RangeVerdict(es, 1, 0, 3, 0, Some(4096)) == Err(ENOSPC)
    ensures PlaceFor(es, 1, 0, 3, 0, Some(4096), 0) == Some(0)
  {
    OneRun(es, 1, 0, 1, 3, 0, Some(4096));
    OneRun(es, 1, 1, 2, 3, 4096, Some(4096));
    assert TailAfter(0, 1) == 4096 && TailAfter(4096, 1) == 8192;
  }

  /** Room for one block, on storage that holds sevens, and a file with one preallocated byte in the middle of two
      holes: a write over the three gives the first hole the block, finds no room for the rest, and fails. A byte that
      read 0 before the write now reads 7. */
  method FailedWriteShowsOldBytes() returns (e: LiveEngine, r: Result<nat>, ghost before: byte)
    ensures r == Err(ENOSPC) && before == 0 && e.Byte(1, 0) == 7
  {
    e := OneReservedByte();
    before := e.Byte(1, 0);
    ghost var es := e.extents;
    OneBlockForThree(es);
    r := RefusedWrite(e, 1, 0, [9, 9, 9]);
    assert PlaceGiven(es, e.extents, 1, 0, 3, 0, Some(4096), 0);
  }

  /** A write without room for its range: it fails as foreseen, with storage handed out and nothing written. */
  method RefusedWrite(e: LiveEngine, ino: nat, offset: nat, data: seq<byte>) returns (r: Result<nat>)
    requires e.Valid() && e.active && ino in e.sizes && 0 < |data| <= U32_MAX
    requires RangeVerdict(e.extents, ino, offset, |data|, e.tail, e.capacity).Err?
    modifies e, e.pool
    ensures e.Valid() && r == Err(RangeVerdict(old(e.extents), ino, offset, |data|, old(e.tail), e.capacity).errno)
    ensures e.buffer == old(e.buffer) && e.pool.image == old(e.pool.image)
    ensures RangeHanded(old(e.extents), e.extents, ino, offset, |data|, old(e.tail), e.capacity)
  {
    r := WriteWhole(e, ino, offset, data);
  }
}
