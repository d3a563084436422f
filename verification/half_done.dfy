/** Calls that fail with part of their work done: a run to each of them. */
module HalfDone {
  import opened Common
  import opened Remaps
  import opened Extents
  import opened ExtentUpdate
  import opened Handout
  import opened Media
  import EO = ExtentOps
  import B = WriteBuffer
  import BO = BufferOps
  import opened Pool
  import opened FileSpec
  import opened LiveData
  import Seek
  import R = Runs
  import opened DataLaws

  lemma ThreeEntries(m: Remap, target: nat, a: B.Staged, b: B.Staged, c: B.Staged)
    ensures BO.Rebuild(m, target, [a, b, c])
         == BO.PushList(BO.PushList(BO.PushList([], B.PiecesFor(m, target, a)), B.PiecesFor(m, target, b)),
                        B.PiecesFor(m, target, c))
    ensures BO.Cut(m, target, [a, b, c])
         == B.PiecesFor(m, target, a) + B.PiecesFor(m, target, b) + B.PiecesFor(m, target, c)
  {
    TwoEntries(m, target, a, b);
    assert [a, b, c][..2] == [a, b];
  }

  lemma TwoEntries(m: Remap, target: nat, a: B.Staged, b: B.Staged)
    ensures BO.Rebuild(m, target, [a, b])
         == BO.PushList(BO.PushList([], B.PiecesFor(m, target, a)), B.PiecesFor(m, target, b))
    ensures BO.Cut(m, target, [a, b]) == B.PiecesFor(m, target, a) + B.PiecesFor(m, target, b)
  {
    OneEntry(m, target, a);
    assert [a, b][..1] == [a];
  }

  lemma OneEntry(m: Remap, target: nat, a: B.Staged)
    ensures BO.Rebuild(m, target, [a]) == BO.PushList([], B.PiecesFor(m, target, a))
    ensures BO.Cut(m, target, [a]) == B.PiecesFor(m, target, a)
  {
    assert [a][..0] == [];
  }

  lemma PushBehind(out: seq<B.Staged>, e: B.Staged)
    requires B.WellStaged(e) && (out == [] || out[|out| - 1].ino != e.ino)
    ensures B.PushEntry(out, e) == out + [e]
  {
    assert !e.zero ==> e.data[..Min(e.len, |e.data|)] == e.data;
  }

  // ---------- truncate ----------

  /** A zero range of file 2 far up, data at the start of file 1, and a zero range at the start of file 2. */
  ghost predicate InTurn(a: B.Staged, b: B.Staged, c: B.Staged) {
    && B.WellStaged(a) && B.WellStaged(b) && B.WellStaged(c)
    && a.ino == c.ino == 2 && b.ino == 1 && a.zero && c.zero && c.offset + 1 == B.End(c) < a.offset
  }

  lemma StagedInTurn(a: B.Staged, b: B.Staged, c: B.Staged)
    requires InTurn(a, b, c)
    ensures BO.Stage([], a) == [a] && BO.Stage([a], b) == [a, b] && BO.Stage([a, b], c) == [a, b, c]
  {
    var p, q := Punch(b.offset, B.End(b)), Punch(c.offset, B.End(c));
    OneEntry(p, 1, a);
    TwoEntries(q, 2, a, b);
    PushBehind([], a);
    PushBehind([a], b);
    PushBehind([a, b], c);
    assert B.PiecesFor(p, 1, a) == [a] && B.PiecesFor(q, 2, a) == [a] && B.PiecesFor(q, 2, b) == [b];
    assert BO.Rebuild(q, 2, [a, b]) == [a, b];
  }

  /** The insert moves the zero range up and leaves the two other entries. */
  lemma MovedUp(a: B.Staged, b: B.Staged, c: B.Staged, a': B.Staged, len: nat)
    requires InTurn(a, b, c) && a' == a.(offset := a.offset + len)
    requires B.End(a) <= U64_MAX && B.End(b) <= U64_MAX && a.offset + len <= U64_MAX
    ensures BO.Fits(Insert(B.End(c), len), 2, [a, b, c])
    ensures BO.Rebuild(Insert(B.End(c), len), 2, [a, b, c]) == [a', b, c]
  {
    var m := Insert(B.End(c), len);
    ThreeEntries(m, 2, a, b, c);
    assert B.PiecesFor(m, 2, a) == [a'] && B.PiecesFor(m, 2, b) == [b] && B.PiecesFor(m, 2, c) == [c];
    PushBehind([], a');
    PushBehind([a'], b);
    PushBehind([a', b], c);
    var cut := BO.Cut(m, 2, [a, b, c]);
    assert cut == [a', b, c];
  }

  /** Without the entry between them the zero ranges of file 2 are neighbours, and the first has no end. */
  lemma Clogged(a: B.Staged, b: B.Staged, c: B.Staged)
    requires InTurn(a, b, c) && B.End(a) > U64_MAX
    ensures !BO.Fits(Truncate(0), 1, [a, b, c])
  {
    ThreeEntries(Truncate(0), 1, a, b, c);
    var cut := BO.Cut(Truncate(0), 1, [a, b, c]);
    assert cut == [a, c] && BO.Clogs(cut[0], cut[1]);
  }

  lemma WholePiece(e: B.Staged, size: nat)
    requires B.WellStaged(e) && B.End(e) <= size
    ensures B.PiecesFor(Truncate(size), e.ino, e) == [e]
  {
    assert !e.zero ==> e.data[..Min(e.len, |e.data|)] == e.data;
    assert B.Left(e, Min(B.End(e), size)) == e;
  }

  lemma Unclogged(a: B.Staged, b: B.Staged, c: B.Staged, size: nat)
    requires InTurn(a, b, c) && B.End(b) <= size
    ensures BO.Fits(Truncate(size), 1, [a, b, c]) && BO.Rebuild(Truncate(size), 1, [a, b, c]) == [a, b, c]
  {
    var m := Truncate(size);
    ThreeEntries(m, 1, a, b, c);
    WholePiece(b, size);
    assert B.PiecesFor(m, 1, a) == [a] && B.PiecesFor(m, 1, c) == [c];
    PushBehind([], a);
    PushBehind([a], b);
    PushBehind([a, b], c);
    var cut := BO.Cut(m, 1, [a, b, c]);
    assert cut == [a, b, c];
  }

  /** ZERO_RANGE with KEEP_SIZE. */
  method Zeroing(e: LiveEngine, z: B.Staged, ghost next: seq<B.Staged>) returns (r: Result<()>)
    requires e.Valid() && e.Within() && z.ino in e.sizes && B.WellStaged(z) && z.zero && next == BO.Stage(e.buffer, z)
    requires B.End(z) <= U64_MAX && z.len <= U32_MAX && AlignUp(z.offset) <= U64_MAX
    modifies e
    ensures e.Valid() && e.Within() && r.Ok? && e.tail <= old(e.tail) && (old(e.Tidy()) ==> e.Tidy())
    ensures e.sizes == old(e.sizes) && e.buffer == next
    ensures e.Changed(ZeroOut(z.offset, z.len, true), z.ino, old(e.sizes)[z.ino])
    ensures BlocksUnmapped(old(e.extents), e.extents, z.ino, z.offset,
              old(e.ExtentLength(z.ino, z.offset, z.len, true)))
  {
    r := e.Fallocate(z.ino, 0x11, z.offset, z.len);
    assert r.Ok? && e.Relayered(ZeroOut(z.offset, z.len, true), z.ino);
  }

  /** A write without active storage, with room for a block for each byte. */
  method Putting(e: LiveEngine, d: B.Staged) returns (r: Result<nat>)
    requires e.Valid() && e.Tidy() && e.Within() && !e.active && e.Spare(d.len) && d.ino in e.sizes
    requires B.WellStaged(d) && !d.zero && B.End(d) <= U64_MAX && d.len <= U32_MAX
    modifies e, e.pool
    ensures e.Valid() && e.Tidy() && e.Within() && r.Ok? && e.buffer == BO.Stage(old(e.buffer), d)
    ensures e.sizes == old(e.sizes)[d.ino := Max(old(e.sizes)[d.ino], B.End(d))]
  {
    assert |d.data| % (U32_MAX + 1) == d.len && d.data[..|d.data| % (U32_MAX + 1)] == d.data;
    assert B.Staged(d.ino, d.offset, |d.data|, d.data, false) == d;
    r := e.Write(d.ino, d.offset, d.data);
  }

  /** INSERT_RANGE, with nothing in its way. */
  method MovingUp(e: LiveEngine, ino: nat, offset: nat, len: nat, ghost next: seq<B.Staged>) returns (r: Result<()>)
    requires e.Valid() && e.Tidy() && ino in e.sizes && offset < e.sizes[ino] && e.sizes[ino] + len <= U64_MAX
               && len > 0
    requires BO.Fits(Insert(offset, len), ino, e.buffer) && next == BO.Rebuild(Insert(offset, len), ino, e.buffer)
    modifies e
    ensures e.Valid() && e.Tidy() && r.Ok? && e.sizes == old(e.sizes)[ino := old(e.sizes)[ino] + len]
    ensures e.buffer == next && e.tail <= old(e.tail)
    ensures forall i: nat, k: nat :: i != ino ==> e.Byte(i, k) == old(e.Byte(i, k))
  {
    SizeBoundsExtents(e.extents, e.buffer, e.sizes, ino, offset, len);
    r := e.InsertRange(ino, offset, len);
  }

  /** Calls that all succeed put an over-long zero range of one file, data of another, and a zero range of the first one
      behind each other. */
  method Clogging(e: LiveEngine, a: B.Staged, b: B.Staged, c: B.Staged, len: nat) returns (ok: bool)
    requires e.Valid() && e.Tidy() && !e.active && e.capacity.None? && e.tail == 0 && e.buffer == []
    requires e.sizes == map[1 := 0, 2 := 5] && InTurn(a, b, c) && B.End(c) < 5 && a.len <= U32_MAX && b.len == 1
    requires !b.zero && b.offset < U64_MAX && B.End(a) <= U64_MAX && a.offset + len <= U64_MAX && 5 + len <= U64_MAX
    requires len > 0 && AlignUp(a.offset) <= U64_MAX && AlignUp(c.offset) <= U64_MAX
    modifies e, e.pool
    ensures ok && e.Valid() && e.buffer == [a.(offset := a.offset + len), b, c]
    ensures e.sizes == map[1 := B.End(b), 2 := 5 + len]
  {
    ok := StagingAll(e, a, b, c);
    MovedUp(a, b, c, a.(offset := a.offset + len), len);
    var insert := MovingUp(e, 2, B.End(c), len, [a.(offset := a.offset + len), b, c]);
    ok := ok && insert.Ok?;
  }

  method StagingAll(e: LiveEngine, a: B.Staged, b: B.Staged, c: B.Staged) returns (ok: bool)
    requires e.Valid() && e.Tidy() && !e.active && e.capacity.None? && e.tail == 0 && e.buffer == []
    requires e.sizes == map[1 := 0, 2 := 5] && InTurn(a, b, c) && a.len <= U32_MAX && b.len == 1 && !b.zero
    requires B.End(a) <= U64_MAX && b.offset < U64_MAX && AlignUp(a.offset) <= U64_MAX && AlignUp(c.offset) <= U64_MAX
    modifies e, e.pool
    ensures ok && e.Valid() && e.Tidy() && e.buffer == [a, b, c] && e.sizes == map[1 := B.End(b), 2 := 5]
  {
    StagedInTurn(a, b, c);
    var zero := Zeroing(e, a, [a]);
    var write := Putting(e, b);
    var again := Zeroing(e, c, [a, b, c]);
    ok := zero.Ok? && write.Ok? && again.Ok?;
  }

  method TwoFilesOn(pool: BlockPool) returns (e: LiveEngine)
    requires pool.Valid()
    ensures fresh(e) && e.pool == pool && e.Valid() && e.Tidy() && !e.active && e.capacity.None? && e.tail == 0
    ensures e.buffer == [] && e.sizes == map[1 := 0, 2 := 5]
  {
    e := new LiveEngine(pool, false, None);
    e.CreateFile(1, 0);
    e.CreateFile(2, 0);
    var sized := e.Truncate(2, 5);
  }

  /** Without active storage, in that state: a truncate of the other file to nothing is refused with its extents cut,
      one to its old size puts the size back, and now SEEK_DATA finds no data in a file that reads 7. */
  method SeekPastData(pool: BlockPool)
    returns (e: LiveEngine, ok: bool, cut: Result<()>, grown: Result<()>, seek: Result<nat>)
    requires pool.Valid()
    modifies pool
    ensures e.Valid() && ok && cut == Err(EFBIG) && grown.Ok? && seek == Err(ENXIO)
    ensures 1 in e.sizes && e.sizes[1] == 1 && e.Byte(1, 0) == 7
  {
    e := TwoFilesOn(pool);
    var a, b, c := B.Staged(2, FAR, 4096, [], true), B.Staged(1, 0, 1, [7], false), B.Staged(2, 0, 1, [], true);
    ok := Clogging(e, a, b, c, 4096);
    cut := Refused(e, a.(offset := a.offset + 4096), b, c);
    grown := Regrown(e, a.(offset := a.offset + 4096), b, c, 1);
    seek := Seek.LseekData(e, 1, 0);
  }

  method Refused(e: LiveEngine, a: B.Staged, b: B.Staged, c: B.Staged) returns (r: Result<()>)
    requires e.Valid() && !e.active && e.buffer == [a, b, c] && InTurn(a, b, c) && B.End(a) > U64_MAX
    requires 1 in e.sizes && e.sizes[1] != 0
    modifies e
    ensures e.Valid() && r == Err(EFBIG) && e.buffer == [a, b, c] && e.sizes == old(e.sizes)[1 := 0]
    ensures forall k: nat :: At(e.extents, 1, k) == Hole
  {
    Clogged(a, b, c);
    r := e.Truncate(1, 0);
  }

  /** A truncate of a file without extents that the buffer takes. */
  method Resizing(e: LiveEngine, ino: nat, size: nat, ghost next: seq<B.Staged>) returns (r: Result<()>)
    requires e.Valid() && ino in e.sizes && e.sizes[ino] != size && forall k: nat :: At(e.extents, ino, k) == Hole
    requires BO.Fits(Truncate(size), ino, e.buffer) && next == BO.Rebuild(Truncate(size), ino, e.buffer)
    modifies e
    ensures e.Valid() && r.Ok? && e.buffer == next && e.sizes == old(e.sizes)[ino := size]
    ensures forall k: nat :: At(e.extents, ino, k) == Hole
  {
    ghost var es := e.extents;
    r := e.Truncate(ino, size);
    forall k: nat ensures At(e.extents, ino, k) == Hole {
      assert At(e.extents, ino, k) == EO.Moved(Truncate(size), ino, es, ino, k);
    }
  }

  method Regrown(e: LiveEngine, a: B.Staged, b: B.Staged, c: B.Staged, size: nat) returns (r: Result<()>)
    requires e.Valid() && !e.active && e.buffer == [a, b, c] && InTurn(a, b, c) && !b.zero && B.End(b) <= size
    requires 1 in e.sizes && e.sizes[1] != size && forall k: nat :: At(e.extents, 1, k) == Hole
    modifies e
    ensures e.Valid() && r.Ok? && 1 in e.sizes && e.sizes[1] == size && e.Byte(1, b.offset) == b.data[0]
    ensures forall k: nat :: At(e.extents, 1, k) == Hole
  {
    Unclogged(a, b, c, size);
    DataThere(a, b, c, b.offset);
    r := Resizing(e, 1, size, [a, b, c]);
  }

  lemma DataThere(a: B.Staged, b: B.Staged, c: B.Staged, k: nat)
    requires InTurn(a, b, c) && b.offset <= k < B.End(b)
    ensures B.Overlay([a, b, c], 1, k) == Some(B.MarkOf(b, k))
  {
    assert [a, b, c][..2] == [a, b] && [a, b][..1] == [a];
  }

  // ---------- zero range ----------

  /** A zero-range request that starts in the last block of the 64-bit range is refused after its zeros are staged: a
      byte that read 7 reads 0. */
  method ZeroTooLate(pool: BlockPool, offset: nat)
    returns (e: LiveEngine, write: Result<nat>, zero: Result<()>, ghost before: byte)
    requires pool.Valid() && offset < U64_MAX && AlignUp(offset) > U64_MAX
    modifies pool
    ensures write.Ok? && zero == Err(EFBIG) && before == 7 && e.Byte(1, offset) == 0
  {
    e := new LiveEngine(pool, false, None);
    e.CreateFile(1, 0);
    write := e.Write(1, offset, [7]);
    assert [7][..1] == [7];
    before := e.Byte(1, offset);
    zero := ZeroOne(e, 1, offset);
  }

  method ZeroOne(e: LiveEngine, ino: nat, offset: nat) returns (r: Result<()>)
    requires e.Valid() && e.Within() && ino in e.sizes && offset < U64_MAX && AlignUp(offset) > U64_MAX
    modifies e
    ensures e.Valid() && r == Err(EFBIG) && e.Byte(ino, offset) == 0
  {
    r := e.Fallocate(ino, 0x11, offset, 1);
    assert e.Changed(ZeroOut(offset, 1, true), ino, e.sizes[ino]);
  }

  // ---------- insert ----------

  /** A file of one byte, on active storage. */
  ghost predicate OneByte(e: LiveEngine)
    reads e, e.pool
  {
    e.Valid() && e.active && 1 in e.sizes && e.sizes[1] == 1 && e.Byte(1, 0) == 7
  }

  /** Healthy storage with room for one more block. */
  ghost predicate OneBlock(e: LiveEngine)
    reads e, e.pool
  {
    e.Tidy() && e.Roomy() && e.capacity == Some(8192) && e.tail <= 4096
  }

  method EmptyFiles() returns (e: LiveEngine)
    ensures fresh(e) && fresh(e.pool) && e.Valid() && e.Tidy() && e.active && e.Roomy() && e.capacity == Some(8192)
    ensures e.tail == 0 && e.buffer == [] && e.sizes == map[1 := 0, 2 := 5]
  {
    var pool := new BlockPool(Zeros(8192), true, 4096, 4096, 0);
    e := new LiveEngine(pool, true, Some(8192));
    e.CreateFile(1, 0);
    e.CreateFile(2, 0);
    var sized := e.Truncate(2, 5);
  }

  method WriteSeven(e: LiveEngine)
    requires e.Valid() && e.Tidy() && e.active && e.Roomy() && e.capacity == Some(8192)
    requires e.tail == 0 && e.buffer == [] && e.sizes == map[1 := 0, 2 := 5]
    modifies e, e.pool
    ensures OneByte(e) && OneBlock(e) && e.buffer == [] && e.sizes == map[1 := 1, 2 := 5]
  {
    assert |[7 as byte]| % (U32_MAX + 1) == 1 && [7 as byte][..1] == [7];
    var r := e.Write(1, 0, [7]);
    assert r.Ok? && e.Changed(Overwrite(0, [7]), 1, 0);
  }

  lemma OneMoved(z: B.Staged, z': B.Staged, offset: nat, len: nat)
    requires B.WellStaged(z) && z.zero && offset <= z.offset && z' == z.(offset := z.offset + len)
    requires B.End(z) <= U64_MAX && z.offset + len <= U64_MAX
    ensures BO.Stage([], z) == [z]
    ensures BO.Fits(Insert(offset, len), z.ino, [z]) && BO.Rebuild(Insert(offset, len), z.ino, [z]) == [z']
  {
    var m := Insert(offset, len);
    OneEntry(m, z.ino, z);
    assert B.PiecesFor(m, z.ino, z) == [z'];
    PushBehind([], z);
    PushBehind([], z');
  }

  /** A zero range of file 2 far up, moved so that it ends past the 64-bit range. */
  method OverLong(e: LiveEngine, z: B.Staged, len: nat) returns (ok: bool)
    requires OneByte(e) && OneBlock(e) && e.buffer == []
    requires 2 in e.sizes && e.sizes[2] > 0 && e.sizes[2] + len <= U64_MAX
    requires z.ino == 2 && z.zero && B.WellStaged(z) && B.End(z) <= U64_MAX && z.len <= U32_MAX && len > 0
    requires AlignUp(z.offset) <= U64_MAX && z.offset + len <= U64_MAX < B.End(z) + len
    modifies e
    ensures ok && OneByte(e) && OneBlock(e) && e.buffer == [z.(offset := z.offset + len)]
    ensures e.sizes.Keys == old(e.sizes).Keys
  {
    ghost var z' := z.(offset := z.offset + len);
    OneMoved(z, z', 0, len);
    var zero := Zeroing(e, z, [z]);
    var insert := MovingUp(e, 2, 0, len, [z']);
    ok := zero.Ok? && insert.Ok?;
  }

  /** A write far up that the buffer refuses once the data is on storage: the storage stays. */
  method GiveFar(e: LiveEngine, far: nat) returns (r: Result<nat>)
    requires OneByte(e) && OneBlock(e) && !e.Within() && 0 < far < U64_MAX
    modifies e, e.pool
    ensures OneByte(e) && r == Err(EFBIG) && e.buffer == old(e.buffer) && e.sizes == old(e.sizes)
    ensures At(e.extents, 1, far).Stored?
  {
    RoomFor(e.extents, far, e.tail);
    ghost var es, tail := e.extents, e.tail;
    assert |[1 as byte]| % (U32_MAX + 1) == 1 && [1 as byte][..1] == [1];
    r := e.Write(1, far, [1]);
    assert PlaceGiven(es, e.extents, 1, far, 1, tail, e.capacity, far);
  }

  lemma RoomFor(es: seq<Extent>, far: nat, tail: nat)
    requires At(es, 1, far) == Hole && tail <= 4096 && tail % LIVE_BLOCK == 0 && far < U64_MAX
    ensures RangeVerdict(es, 1, far, 1, tail, Some(8192)).Ok? && PlaceFor(es, 1, far, 1, tail, Some(8192), far).Some?
  {
    OneRun(es, 1, far, far + 1, far + 1, tail, Some(8192));
    assert TailAfter(tail, 1) == tail + 4096;
  }

  /** File 2 goes, and with it the over-long entry. */
  method DropTwo(e: LiveEngine, ghost far: nat, ghost z: B.Staged)
    requires OneByte(e) && e.buffer == [z] && z.ino == 2 && At(e.extents, 1, far).Stored?
    modifies e
    ensures OneByte(e) && e.buffer == [] && At(e.extents, 1, far).Stored?
  {
    WithoutFile(e.extents, e.buffer, e.sizes, e.active, 2, e.tail);
    e.RemoveFile(2);
    assert [z][..0] == [];
  }

  /** One stored byte of a file is zeroed. */
  method ZeroOver(e: LiveEngine, ghost far: nat, z: B.Staged) returns (r: Result<()>)
    requires e.Valid() && e.active && e.buffer == [] && z.ino in e.sizes && At(e.extents, z.ino, far).Stored?
    requires z.zero && B.WellStaged(z) && z.len == 1 && B.End(z) <= U64_MAX && AlignUp(z.offset) <= U64_MAX
    modifies e
    ensures e.Valid() && r.Ok? && e.buffer == [z] && e.sizes == old(e.sizes) && e.Byte(z.ino, z.offset) == 0
    ensures At(e.extents, z.ino, far).Stored?
    ensures StoredAt(e.extents, e.pool.dataBase, e.pool.image, z.ino, z.offset) == old(e.Byte(z.ino, z.offset))
  {
    ghost var es, was := e.extents, e.Byte(z.ino, z.offset);
    assert StoredAt(es, e.pool.dataBase, e.pool.image, z.ino, z.offset) == was;
    assert BO.Stage([], z) == [z] by { PushBehind([], z); }
    r := Zeroing(e, z, [z]);
    NoBlock(z.offset, z.offset);
    NoBlock(z.offset, far);
    assert At(e.extents, z.ino, z.offset) == At(es, z.ino, z.offset) && At(e.extents, z.ino, far) == At(es, z.ino, far);
  }

  lemma NoBlock(offset: nat, k: nat)
    ensures forall length :: length <= 1 ==> !InFullBlock(offset, length, k)
  {
  }

  lemma Refuses(es: seq<Extent>, ino: nat, far: nat, lo: nat, len: nat)
    requires At(es, ino, far).Stored? && lo <= far && far + len > U64_MAX
    ensures !ExtentsFit(Insert(lo, len), ino, es)
  {
    var e :| e in es && Covers(e, ino, far);
    assert !ExtentFits(Insert(lo, len), ino, e);
  }

  /** A range is inserted before it. The buffer takes the insert and the extents refuse it: the zero has moved away, and
      the stored byte is to be read again. */
  method InsertShort(e: LiveEngine, ghost far: nat, ghost z: B.Staged, ino: nat, lo: nat, len: nat)
    returns (r: Result<()>)
    requires e.Valid() && e.active && ino in e.sizes && lo < e.sizes[ino] && e.buffer == [z]
    requires z.ino == ino && z.offset == lo && z.zero && B.WellStaged(z) && B.End(z) <= U64_MAX
    requires At(e.extents, ino, far).Stored? && lo <= far && 0 < len && e.sizes[ino] + len <= U64_MAX < far + len
    modifies e
    ensures e.Valid() && r == Err(EFBIG)
    ensures e.Byte(ino, lo) == old(StoredAt(e.extents, e.pool.dataBase, e.pool.image, ino, lo))
  {
    ghost var buf := e.buffer;
    OneMoved(z, z.(offset := z.offset + len), lo, len);
    Refuses(e.extents, ino, far, lo, len);
    assert StopsShort(Some(e.sizes[ino]), InsertZeros(lo, len), ino, buf, e.extents);
    r := e.Fallocate(ino, 0x20, lo, len);
    assert B.Overlay(e.buffer, ino, lo) == BO.MovedOverlay(Insert(lo, len), ino, buf, ino, lo);
  }

  /** The whole run: a file with a stored 7; an over-long zero range of another file; a write far up that fails and
      leaves storage behind; the other file removed; the 7 zeroed; and an insert that fails, after which it reads 7. */
  method ZeroMovesAway()
    returns (e: LiveEngine, ok: bool, write: Result<nat>, zero: Result<()>, insert: Result<()>, ghost before: byte)
    ensures e.Valid() && ok && write == Err(EFBIG) && zero.Ok? && before == 0 && insert == Err(EFBIG)
              && e.Byte(1, 0) == 7
  {
    e := EmptyFiles();
    WriteSeven(e);
    var far := B.Staged(2, FAR, 4096, [], true);
    ok := OverLong(e, far, 4096);
    ghost var up := far.(offset := far.offset + 4096);
    assert up in [up] && B.End(up) > U64_MAX;
    write := GiveFar(e, FAR);
    DropTwo(e, FAR, up);
    var z := B.Staged(1, 0, 1, [], true);
    zero := ZeroOver(e, FAR, z);
    before := e.Byte(1, 0);
    insert := InsertShort(e, FAR, z, 1, 0, 8192);
  }
}
