/** Whole runs of the data engine against the simplest file system there is: a map from inode to the
    bytes of the file. */
module Runs {
  import opened Common
  import opened FileSpec
  import opened Remaps
  import opened Extents
  import opened ExtentUpdate
  import opened Handout
  import EO = ExtentOps
  import B = WriteBuffer
  import BO = BufferOps
  import opened Media
  import opened Pool
  import opened LiveData

  datatype Step =
    | DoCreate(ino: nat)
    | DoRemove(ino: nat)
    | DoWrite(ino: nat, offset: nat, data: seq<byte>)
    | DoTruncate(ino: nat, size: nat)
    | DoFallocate(ino: nat, mode: bv32, offset: nat, length: nat)
    | DoFlush(target: Option<nat>, lo: nat, len: nat)
    | DoRead(ino: nat, offset: nat, count: nat)

  datatype Outcome = Done | Bytes(data: seq<byte>) | Failed(errno: Errno)

  type Fs = map<nat, seq<byte>>

  /** The file operation a step asks for, if it changes a file's bytes at all. */
  function OpOf(step: Step): Option<FileOp> {
    match step
    case DoWrite(_, o, d) =>
      var n := |d| % (U32_MAX + 1);
      if n == 0 then None else Some(Overwrite(o, d[..n]))
    case DoTruncate(_, n) => Some(Resize(n))
    case DoFallocate(_, mode, o, len) => Some(LiveEngine.Classify(mode, o, len))
    case _ => None
  }

  /** The files after a step, given the answer. */
  function After(fs: Fs, step: Step, out: Outcome): Fs {
    if out.Failed? then fs
    else
      match step
      case DoCreate(ino) => fs[ino := []]
      case DoRemove(ino) => fs - {ino}
      case DoFlush(_, _, _) => fs
      case DoRead(_, _, _) => fs
      case _ =>
        match OpOf(step)
        case Some(op) => if step.ino in fs && Allowed(op, |fs[step.ino]|) then fs[step.ino := Apply(op, fs[step.ino])]
          else fs
        case None => fs
  }

  function Slice(file: seq<byte>, offset: nat, count: nat): seq<byte> {
    if offset >= |file| then [] else file[offset..offset + Min(count, |file| - offset)]
  }

  function Told(v: Result<()>): Outcome { match v case Ok(_) => Done case Err(e) => Failed(e) }

  /** An engine state as a value. */
  datatype State = State(
    active: bool, roomy: bool, base: nat, image: seq<byte>, capacity: Option<nat>,
    extents: seq<Extent>, buffer: seq<B.Staged>, tail: nat, sizes: map<nat, nat>)

  ghost function StateOf(e: LiveEngine): State
    reads e, e.pool
  {
    State(e.active, e.Roomy(), e.pool.dataBase, e.pool.image, e.capacity, e.extents, e.buffer, e.tail, e.sizes)
  }

  ghost function ByteAt(s: State, ino: nat, k: nat): byte {
    Contents(s.active, s.base, s.image, s.extents, s.buffer, ino, k)
  }

  ghost function View(s: State): Fs {
    map ino | ino in s.sizes :: seq(s.sizes[ino], k requires k >= 0 => ByteAt(s, ino, k))
  }

  ghost predicate Tidy(s: State) {
    NothingPast(s.extents, s.buffer, s.sizes)
  }

  /** Every byte staged as data lies over a stored one; with active storage no data is staged. */
  ghost predicate Covered(s: State) {
    PutsCovered(s.active, s.extents, s.buffer)
  }

  function SizeIn(s: State, ino: nat): Option<nat> { if ino in s.sizes then Some(s.sizes[ino]) else None }

  /** Nothing but space and the 64-bit range stands in the way: the device is healthy, or not used. */
  predicate Unhindered(s: State) { s.roomy || !s.active }

  predicate SpareFor(s: State, n: nat) { InBounds(s.capacity, s.tail + LIVE_BLOCK * n) }

  ghost predicate ReadTruth(s: State, ino: nat, o: nat, n: nat, out: Outcome) {
    if ino !in s.sizes then out == Failed(ENOENT)
    else
      || (out.Bytes? && out.data == Slice(View(s)[ino], o, n))
      || (out.Failed? && s.active && StorageError(out.errno) && !(s.roomy && n <= U32_MAX))
  }

  ghost predicate WriteTruth(s: State, ino: nat, o: nat, n: nat, out: Outcome) {
    if n == 0 then out == Done
    else if ino !in s.sizes then out == Failed(EIO)
    else
      && !out.Bytes?
      && (out.Done? ==> o + n <= U64_MAX && BO.EndsFit(s.buffer))
      && (out.Failed? && Unhindered(s) ==> out.errno == ENOSPC || out.errno == EFBIG)
      && (Unhindered(s) && o + n <= U64_MAX && BO.EndsFit(s.buffer) && SpareFor(s, n) ==> out.Done?)
      && (s.active && RangeVerdict(s.extents, ino, o, n, s.tail, s.capacity).Err? ==>
            out == Failed(RangeVerdict(s.extents, ino, o, n, s.tail, s.capacity).errno))
      && (s.active && s.roomy ==> out == Told(WriteAnswer(s.extents, s.buffer, ino, o, n, s.tail, s.capacity)))
  }

  ghost predicate FlushTruth(s: State, out: Outcome) {
    if !s.active then out == Done
    else
      && !out.Bytes?
      && (out.Failed? ==> out.errno == ENOSPC || StorageError(out.errno))
      && (s.roomy ==>
           LiveEngine.FlushVerdict(s.capacity, s.buffer, s.tail, if out.Failed? then Err(out.errno) else Ok(())))
  }

  function ResizeAnswer(s: State, ino: nat, n: nat): Result<()> {
    if ino !in s.sizes then Err(ENOENT)
    else if n != s.sizes[ino] && !BO.Fits(Truncate(n), ino, s.buffer) then Err(EFBIG)
    else Ok(())
  }

  /** The answer a caller may get in a state. */
  ghost predicate Truthful(s: State, step: Step, out: Outcome) {
    match step
    case DoCreate(ino) => out == if ino in s.sizes then Failed(EEXIST) else Done
    case DoRemove(_) => out == Done
    case DoRead(ino, o, n) => ReadTruth(s, ino, o, n, out)
    case DoWrite(ino, o, d) => WriteTruth(s, ino, o, |d| % (U32_MAX + 1), out)
    case DoTruncate(ino, n) => out == Told(ResizeAnswer(s, ino, n))
    case DoFallocate(ino, mode, o, len) =>
      out == Told(FallocateAnswer(SizeIn(s, ino), LiveEngine.Classify(mode, o, len), o, len, ino, s.buffer, s.extents))
    case DoFlush(_, _, _) => FlushTruth(s, out)
  }

  /** The failures that leave something behind: a write may leave its own range half-written, a zero-range request that
      starts in the last block of the address space has staged its zeros, and a truncate that is refused by the buffer
      has already cut the extents. Every other failure is without effect. */
  predicate Clean(step: Step, out: Outcome) {
    out.Failed? ==>
      && !step.DoWrite?
      && (step.DoFallocate? ==> AlignUp(step.offset) <= U64_MAX)
      && (step.DoTruncate? ==> out.errno != EFBIG)
  }

  /** The step will stop between the extents and the buffer: a truncate that the buffer refuses, or an insert that the
      buffer takes and the extents refuse. */
  ghost predicate StopsHalfWay(s: State, step: Step) {
    match step
    case DoTruncate(ino, n) => ResizeAnswer(s, ino, n) == Err(EFBIG)
    case DoFallocate(ino, mode, o, len) =>
      StopsShort(SizeIn(s, ino), LiveEngine.Classify(mode, o, len), ino, s.buffer, s.extents)
    case _ => false
  }

  /** The step moves no staged entry past the end of the 64-bit range. */
  predicate StaysWithin(s: State, step: Step) {
    step.DoFallocate? ==>
      NothingMovedPast(LiveEngine.Classify(step.mode, step.offset, step.length), step.ino, s.buffer, s.extents)
  }

  /** Past the end of a file of a tidy engine every byte is zero. */
  lemma TidyZero(s: State, ino: nat, k: nat)
    requires Tidy(s) && ino in s.sizes
    ensures ByteAt(s, ino, k) == ByteIn(View(s)[ino], k)
  {
    if s.sizes[ino] <= k {
      assert At(s.extents, ino, k) == Hole;
    }
  }

  ghost predicate SameBytes(s: State, t: State, ino: nat) {
    forall k: nat :: ByteAt(t, ino, k) == ByteAt(s, ino, k)
  }

  ghost predicate Effect(s: State, t: State, op: FileOp, ino: nat)
    requires ino in s.sizes
  {
    && t.sizes == s.sizes[ino := SizeAfter(op, s.sizes[ino])]
    && forall i: nat, k: nat ::
         ByteAt(t, i, k) == match OriginFor(op, ino, s.sizes[ino], i, k) case OldByte(j) => ByteAt(s, i, j)
           case NewByte(b) => b
  }

  /** The engine's effect on bytes is the plain operation on the plain file. */
  lemma EffectOnView(s: State, t: State, op: FileOp, ino: nat)
    requires Tidy(s) && ino in s.sizes && Allowed(op, s.sizes[ino]) && Effect(s, t, op, ino)
    ensures View(t) == View(s)[ino := Apply(op, View(s)[ino])]
  {
    var was, now := View(s), View(t);
    ApplyByBytes(op, was[ino], 0);
    forall k: nat | k < |now[ino]| ensures now[ino][k] == Apply(op, was[ino])[k] {
      ApplyByBytes(op, was[ino], k);
      var o := OriginOf(op, s.sizes[ino], k);
      if o.OldByte? {
        TidyZero(s, ino, o.j);
      }
      assert OriginFor(op, ino, s.sizes[ino], ino, k) == o;
      assert ByteAt(t, ino, k) == Chosen(o, was[ino]);
    }
    assert now[ino] == Apply(op, was[ino]);
    forall i | i in was && i != ino ensures now[i] == was[i] {
      forall k: nat ensures ByteAt(t, i, k) == ByteAt(s, i, k) {
        assert OriginFor(op, ino, s.sizes[ino], i, k) == OldByte(k);
      }
    }
  }

  lemma EffectElsewhere(s: State, t: State, op: FileOp, ino: nat)
    requires ino in s.sizes
    requires forall i: nat, k: nat ::
               ByteAt(t, i, k) == match OriginFor(op, ino, s.sizes[ino], i, k) case OldByte(j) => ByteAt(s, i, j)
                 case NewByte(b) => b
    ensures forall i: nat :: i != ino ==> SameBytes(s, t, i)
  {
    forall i: nat, k: nat | i != ino ensures ByteAt(t, i, k) == ByteAt(s, i, k) {
      assert OriginFor(op, ino, s.sizes[ino], i, k) == OldByte(k);
    }
  }

  lemma EffectAll(s: State, t: State, op: FileOp, ino: nat)
    requires ino in s.sizes && Allowed(op, s.sizes[ino]) && Effect(s, t, op, ino)
    ensures forall i: nat :: i in s.sizes && i != ino ==> i in t.sizes && t.sizes[i] == s.sizes[i] && SameBytes(s, t, i)
    ensures Tidy(s) ==> View(t) == View(s)[ino := Apply(op, View(s)[ino])]
  {
    EffectElsewhere(s, t, op, ino);
    if Tidy(s) { EffectOnView(s, t, op, ino); }
  }

  /** What is laid out and staged for the other files is as it was. */
  lemma LaidElsewhere(s: State, t: State, ino: nat)
    requires t.active == s.active && t.base == s.base && t.image == s.image
    requires forall i, k ::
               i != ino ==>
               At(t.extents, i, k) == At(s.extents, i, k) && B.Overlay(t.buffer, i, k) == B.Overlay(s.buffer, i, k)
    ensures forall i: nat :: i != ino ==> SameBytes(s, t, i)
  {
  }

  lemma SameView(s: State, t: State)
    requires s.sizes == t.sizes && forall i: nat, k: nat :: ByteAt(t, i, k) == ByteAt(s, i, k)
    ensures View(t) == View(s)
  {
    forall i | i in s.sizes ensures View(t)[i] == View(s)[i] {
      assert forall k: nat :: k < s.sizes[i] ==> View(t)[i][k] == ByteAt(t, i, k) && View(s)[i][k] == ByteAt(s, i, k);
    }
  }

  predicate Changes(step: Step, i: nat) {
    (step.DoWrite? || step.DoTruncate? || step.DoFallocate? || step.DoRemove?) && step.ino == i
  }

  /** Whatever the answer, no file is touched but the one the step is about; flushes and reads touch none. */
  ghost predicate OthersKept(s: State, step: Step, t: State) {
    forall i: nat ::
      i in s.sizes && !Changes(step, i) ==> i in t.sizes && t.sizes[i] == s.sizes[i] && SameBytes(s, t, i)
  }

  /** `t` may follow `s`: the answer is one the step may get; no other file is touched; if nothing was amiss before and
      the answer is clean, nothing is amiss after and the files are what the plain operation makes of them; the staged
      entries stay in range; and staged data stays over stored bytes, unless a call stops half-way without active
      storage. */
  ghost predicate Follows(s: State, step: Step, out: Outcome, t: State) {
    && Truthful(s, step, out) && OthersKept(s, step, t)
    && (Tidy(s) && Clean(step, out) ==> Tidy(t) && View(t) == After(View(s), step, out))
    && (BO.EndsFit(s.buffer) && StaysWithin(s, step) ==> BO.EndsFit(t.buffer))
    && t.active == s.active && (Covered(s) && (s.active || !StopsHalfWay(s, step)) ==> Covered(t))
  }

  /** One step on the engine. */
  method Do(e: LiveEngine, step: Step) returns (out: Outcome)
    requires e.Valid()
    modifies e, e.pool
    ensures e.Valid() && Follows(old(StateOf(e)), step, out, StateOf(e))
    ensures !step.DoCreate? && !step.DoRemove? ==> e.sizes.Keys == old(e.sizes).Keys
    ensures SameBelow(old(e.pool.image), e.pool.image, e.pool.dataBase)
  {
    match step
    case DoCreate(ino) => out := Create(e, step);
    case DoRemove(ino) => out := Remove(e, step);
    case DoWrite(ino, offset, data) => out := Write(e, step);
    case DoTruncate(ino, size) => out := Resizing(e, step);
    case DoFallocate(ino, mode, offset, length) => out := Fallocating(e, step);
    case DoFlush(target, lo, len) => out := Flushing(e, step);
    case DoRead(ino, offset, count) => out := Reading(e, step);
  }

  lemma OneFileMore(s: State, t: State, ino: nat)
    requires ino !in s.sizes && t.sizes == s.sizes[ino := 0] && forall i: nat :: SameBytes(s, t, i)
    ensures View(t) == View(s)[ino := []]
  {
    var now := View(t);
    assert now[ino] == [];
    forall i | i in s.sizes ensures now[i] == View(s)[i] {
      assert SameBytes(s, t, i);
    }
    assert now.Keys == View(s).Keys + {ino};
  }

  lemma OneFileLess(s: State, t: State, ino: nat)
    requires t.sizes == s.sizes - {ino} && forall i: nat :: i != ino ==> SameBytes(s, t, i)
    ensures View(t) == View(s) - {ino}
  {
    forall i | i in t.sizes ensures View(t)[i] == View(s)[i] {
      assert SameBytes(s, t, i);
    }
  }

  method Create(e: LiveEngine, step: Step) returns (out: Outcome)
    requires e.Valid() && step.DoCreate?
    modifies e
    ensures e.Valid() && Follows(old(StateOf(e)), step, out, StateOf(e))
  {
    ghost var s := StateOf(e);
    if step.ino in e.sizes {
      return Failed(EEXIST);
    }
    e.CreateFile(step.ino, 0);
    OneFileMore(s, StateOf(e), step.ino);
    out := Done;
  }

  method Remove(e: LiveEngine, step: Step) returns (out: Outcome)
    requires e.Valid() && step.DoRemove?
    modifies e
    ensures e.Valid() && Follows(old(StateOf(e)), step, out, StateOf(e))
  {
    ghost var s := StateOf(e);
    e.RemoveFile(step.ino);
    forall i: nat | i != step.ino ensures SameBytes(s, StateOf(e), i) {
      forall k: nat ensures ByteAt(StateOf(e), i, k) == ByteAt(s, i, k) { assert e.Byte(i, k) == old(e.Byte(i, k)); }
    }
    OneFileLess(s, StateOf(e), step.ino);
    out := Done;
  }

  method Write(e: LiveEngine, step: Step) returns (out: Outcome)
    requires e.Valid() && step.DoWrite?
    modifies e, e.pool
    ensures e.Valid() && Follows(old(StateOf(e)), step, out, StateOf(e))
    ensures e.sizes.Keys == old(e.sizes).Keys
    ensures SameBelow(old(e.pool.image), e.pool.image, e.pool.dataBase)
  {
    var r := Writing(e, step.ino, step.offset, step.data);
    out := if r.Ok? then Done else Failed(r.errno);
  }

  method Writing(e: LiveEngine, ino: nat, offset: nat, data: seq<byte>) returns (r: Result<nat>)
    requires e.Valid()
    modifies e, e.pool
    ensures e.Valid() && e.sizes.Keys == old(e.sizes).Keys
              && SameBelow(old(e.pool.image), e.pool.image, e.pool.dataBase)
    ensures forall i ::
              i in e.sizes && i != ino ==> e.sizes[i] == old(e.sizes)[i] && SameBytes(old(StateOf(e)), StateOf(e), i)
    ensures var s, n := old(StateOf(e)), |data| % (U32_MAX + 1);
            && WriteTruth(s, ino, offset, n, if r.Ok? then Done else Failed(r.errno))
            && (BO.EndsFit(s.buffer) ==> BO.EndsFit(e.buffer)) && (r.Ok? && n > 0 ==> ino in s.sizes)
            && (Covered(s) ==> e.Covered())
            && (Tidy(s) && r.Ok? ==> Tidy(StateOf(e)))
            && (Tidy(s) && r.Ok? ==>
                  View(StateOf(e)) == if n == 0 then View(s)
                    else View(s)[ino := Apply(Overwrite(offset, data[..n]), View(s)[ino])])
  {
    ghost var s := StateOf(e);
    r := e.Write(ino, offset, data);
    if r.Err? {
      forall i: nat, k: nat | i != ino ensures ByteAt(StateOf(e), i, k) == ByteAt(s, i, k) {
        assert e.Byte(i, k) == old(e.Byte(i, k));
      }
    } else if r.value == 0 {
      forall i: nat, k: nat ensures ByteAt(StateOf(e), i, k) == ByteAt(s, i, k) {
        assert e.Byte(i, k) == old(e.Byte(i, k));
      }
      SameView(s, StateOf(e));
    } else {
      EffectAll(s, StateOf(e), Overwrite(offset, data[..r.value]), ino);
    }
  }

  method Resizing(e: LiveEngine, step: Step) returns (out: Outcome)
    requires e.Valid() && step.DoTruncate?
    modifies e
    ensures e.Valid() && Follows(old(StateOf(e)), step, out, StateOf(e))
    ensures e.sizes.Keys == old(e.sizes).Keys
  {
    var r := Cutting(e, step.ino, step.size);
    out := Told(r);
  }

  method Cutting(e: LiveEngine, ino: nat, size: nat) returns (r: Result<()>)
    requires e.Valid()
    modifies e
    ensures e.Valid() && e.sizes.Keys == old(e.sizes).Keys
    ensures forall i ::
              i in e.sizes && i != ino ==> e.sizes[i] == old(e.sizes)[i] && SameBytes(old(StateOf(e)), StateOf(e), i)
    ensures var s := old(StateOf(e));
            && r == ResizeAnswer(s, ino, size) && (BO.EndsFit(s.buffer) ==> BO.EndsFit(e.buffer))
            && (Covered(s) && (s.active || r != Err(EFBIG)) ==> e.Covered())
            && (r == Err(ENOENT) ==> e.sizes == s.sizes && forall i: nat :: SameBytes(s, StateOf(e), i))
            && (Tidy(s) && r != Err(EFBIG) ==> Tidy(StateOf(e)))
            && (Tidy(s) && r == Err(ENOENT) ==> View(StateOf(e)) == View(s))
            && (Tidy(s) && r.Ok? ==> View(StateOf(e)) == View(s)[ino := Apply(Resize(size), View(s)[ino])])
  {
    ghost var s := StateOf(e);
    r := e.Truncate(ino, size);
    if r == Err(ENOENT) {
      forall i: nat, k: nat ensures ByteAt(StateOf(e), i, k) == ByteAt(s, i, k) {
        assert e.Byte(i, k) == old(e.Byte(i, k));
      }
      SameView(s, StateOf(e));
    } else if r.Ok? {
      EffectAll(s, StateOf(e), Resize(size), ino);
    } else {
      LaidElsewhere(s, StateOf(e), ino);
    }
  }

  method Fallocating(e: LiveEngine, step: Step) returns (out: Outcome)
    requires e.Valid() && step.DoFallocate?
    modifies e
    ensures e.Valid() && Follows(old(StateOf(e)), step, out, StateOf(e))
    ensures e.sizes.Keys == old(e.sizes).Keys
  {
    var r := Allocating(e, step.ino, step.mode, step.offset, step.length);
    out := Told(r);
  }

  method Allocating(e: LiveEngine, ino: nat, mode: bv32, offset: nat, length: nat) returns (r: Result<()>)
    requires e.Valid()
    modifies e
    ensures e.Valid() && e.sizes.Keys == old(e.sizes).Keys
    ensures forall i ::
              i in e.sizes && i != ino ==> e.sizes[i] == old(e.sizes)[i] && SameBytes(old(StateOf(e)), StateOf(e), i)
    ensures var s, op := old(StateOf(e)), LiveEngine.Classify(mode, offset, length);
            && r == FallocateAnswer(SizeIn(s, ino), op, offset, length, ino, s.buffer, s.extents)
            && (r.Ok? ==> ino in s.sizes && Allowed(op, s.sizes[ino]))
            && (BO.EndsFit(s.buffer) && NothingMovedPast(op, ino, s.buffer, s.extents) ==> BO.EndsFit(e.buffer))
            && (Covered(s) && (s.active || !StopsShort(SizeIn(s, ino), op, ino, s.buffer, s.extents)) ==> e.Covered())
            && (Tidy(s) ==> Tidy(StateOf(e)))
            && (Tidy(s) && r.Ok? ==> View(StateOf(e)) == View(s)[ino := Apply(op, View(s)[ino])])
            && (Tidy(s) && r.Err? && AlignUp(offset) <= U64_MAX ==> View(StateOf(e)) == View(s))
  {
    ghost var s, op := StateOf(e), LiveEngine.Classify(mode, offset, length);
    r := e.Fallocate(ino, mode, offset, length);
    if r.Ok? || (ino in s.sizes && e.Changed(op, ino, s.sizes[ino])) {
      EffectElsewhere(s, StateOf(e), op, ino);
    } else {
      LaidElsewhere(s, StateOf(e), ino);
    }
    if Tidy(s) && r.Ok? {
      EffectOnView(s, StateOf(e), op, ino);
    } else if Tidy(s) && AlignUp(offset) <= U64_MAX {
      NotHalfDone(s, ino, op);
      assert e.Kept();
      SameView(s, StateOf(e));
    }
  }

  /** A tidy engine cannot stop an insert half-way. */
  lemma NotHalfDone(s: State, ino: nat, op: FileOp)
    requires Tidy(s) && Laid(s.extents)
    ensures op.InsertZeros? && ino in s.sizes && s.sizes[ino] + op.length <= U64_MAX ==>
              ExtentsFit(Insert(op.offset, op.length), ino, s.extents)
  {
    if op.InsertZeros? && ino in s.sizes && s.sizes[ino] + op.length <= U64_MAX {
      SizeBoundsExtents(s.extents, s.buffer, s.sizes, ino, op.offset, op.length);
    }
  }

  method Flushing(e: LiveEngine, step: Step) returns (out: Outcome)
    requires e.Valid() && step.DoFlush?
    modifies e, e.pool
    ensures e.Valid() && Follows(old(StateOf(e)), step, out, StateOf(e))
    ensures e.sizes.Keys == old(e.sizes).Keys
    ensures SameBelow(old(e.pool.image), e.pool.image, e.pool.dataBase)
  {
    ghost var s := StateOf(e);
    var r := e.Flush(step.target, step.lo, step.len);
    forall i: nat, k: nat ensures ByteAt(StateOf(e), i, k) == ByteAt(s, i, k) {
      assert e.Byte(i, k) == old(e.Byte(i, k));
    }
    SameView(s, StateOf(e));
    out := if r.Ok? then Done else Failed(r.errno);
  }

  method Reading(e: LiveEngine, step: Step) returns (out: Outcome)
    requires e.Valid() && step.DoRead?
    ensures Follows(StateOf(e), step, out, StateOf(e))
  {
    var r := e.Read(step.ino, step.offset, step.count);
    if r.Err? {
      return Failed(r.errno);
    }
    forall k: nat | step.offset <= k < step.offset + |r.value|
      ensures r.value[k - step.offset] == ByteAt(StateOf(e), step.ino, k)
    {
      assert r.value[k - step.offset] == e.Byte(step.ino, k);
    }
    SliceIs(StateOf(e), step.ino, step.offset, step.count, r.value);
    out := Bytes(r.value);
  }

  lemma SliceIs(s: State, ino: nat, offset: nat, count: nat, data: seq<byte>)
    requires ino in s.sizes && |data| == Min(count, Monus(s.sizes[ino], offset))
    requires forall k: nat :: offset <= k < offset + |data| ==> data[k - offset] == ByteAt(s, ino, k)
    ensures data == Slice(View(s)[ino], offset, count)
  {
    var file := View(s)[ino];
    forall k | 0 <= k < |data| ensures data[k] == file[offset + k] {
      assert data[offset + k - offset] == ByteAt(s, ino, offset + k);
    }
  }

  /** A run: states that follow one another, from a tidy one. */
  ghost predicate IsRun(steps: seq<Step>, outs: seq<Outcome>, trace: seq<State>) {
    && |outs| == |steps| && |trace| == |steps| + 1 && Tidy(trace[0])
    && (forall n :: 0 <= n < |steps| ==> Follows(trace[n], steps[n], outs[n], trace[n + 1]))
    && (forall n :: 0 <= n < |trace| ==> B.AllStaged(trace[n].buffer))
  }

  /** Any run: each answer is one the state before it allows, and as long as no failure has left something behind, the
      files are at every point what the plain operations make of them. */
  method Run(e: LiveEngine, steps: seq<Step>) returns (outs: seq<Outcome>, ghost trace: seq<State>)
    requires e.Valid() && e.Tidy()
    modifies e, e.pool
    ensures e.Valid() && |trace| == |steps| + 1 && trace[0] == old(StateOf(e)) && trace[|steps|] == StateOf(e)
    ensures IsRun(steps, outs, trace)
  {
    outs, trace := [], [StateOf(e)];
    for i := 0 to |steps|
      invariant e.Valid() && trace != [] && trace[0] == old(StateOf(e)) && trace[|trace| - 1] == StateOf(e)
      invariant |outs| == i && IsRun(steps[..i], outs, trace)
    {
      var out := Do(e, steps[i]);
      OneStepMore(steps, i, outs, trace, out, StateOf(e));
      outs, trace := outs + [out], trace + [StateOf(e)];
    }
    assert steps[..|steps|] == steps;
  }

  lemma OneStepMore(steps: seq<Step>, i: nat, outs: seq<Outcome>, trace: seq<State>, out: Outcome, t: State)
    requires i < |steps| && IsRun(steps[..i], outs, trace) && Follows(trace[i], steps[i], out, t)
               && B.AllStaged(t.buffer)
    ensures IsRun(steps[..i + 1], outs + [out], trace + [t])
  {
    var more, outs', trace' := steps[..i + 1], outs + [out], trace + [t];
    forall n | 0 <= n < i + 1 ensures Follows(trace'[n], more[n], outs'[n], trace'[n + 1]) {
      if n < i {
        assert Follows(trace[n], steps[..i][n], outs[n], trace[n + 1]);
      }
    }
  }

  /** None of the first `n` answers has left something behind. */
  predicate AllClean(steps: seq<Step>, outs: seq<Outcome>, n: nat)
    requires n <= |steps| && n <= |outs|
  {
    forall m :: 0 <= m < n ==> Clean(steps[m], outs[m])
  }

  /** The files a clean run ends with are the starting ones with the plain operations applied. */
  function Replay(fs: Fs, steps: seq<Step>, outs: seq<Outcome>): Fs
    requires |outs| <= |steps|
  {
    if outs == [] then fs
    else After(Replay(fs, steps, outs[..|outs| - 1]), steps[|outs| - 1], outs[|outs| - 1])
  }

  lemma {:induction false} CleanRun(steps: seq<Step>, outs: seq<Outcome>, trace: seq<State>, n: nat)
    requires IsRun(steps, outs, trace) && n <= |steps| && AllClean(steps, outs, n)
    ensures Tidy(trace[n]) && View(trace[n]) == Replay(View(trace[0]), steps, outs[..n])
  {
    if n > 0 {
      CleanRun(steps, outs, trace, n - 1);
      assert outs[..n][..n - 1] == outs[..n - 1] && outs[..n][n - 1] == outs[n - 1];
      assert Follows(trace[n - 1], steps[n - 1], outs[n - 1], trace[n]);
    }
  }

  /** A run that starts with every staged entry inside the 64-bit range and moves none past its end keeps them there. */
  lemma {:induction false} RunWithin(steps: seq<Step>, outs: seq<Outcome>, trace: seq<State>, n: nat)
    requires IsRun(steps, outs, trace) && n <= |steps| && BO.EndsFit(trace[0].buffer)
    requires forall m :: 0 <= m < n ==> StaysWithin(trace[m], steps[m])
    ensures BO.EndsFit(trace[n].buffer)
  {
    if n > 0 {
      RunWithin(steps, outs, trace, n - 1);
      assert Follows(trace[n - 1], steps[n - 1], outs[n - 1], trace[n]);
    }
  }

  /** Staged data stays over stored bytes in every run with active storage, and without it as long as no call stops
      half-way. */
  lemma {:induction false} RunCovered(steps: seq<Step>, outs: seq<Outcome>, trace: seq<State>, n: nat)
    requires IsRun(steps, outs, trace) && n <= |steps| && Covered(trace[0])
    requires trace[0].active || forall m :: 0 <= m < n ==> !StopsHalfWay(trace[m], steps[m])
    ensures Covered(trace[n]) && trace[n].active == trace[0].active
  {
    if n > 0 {
      RunCovered(steps, outs, trace, n - 1);
      assert Follows(trace[n - 1], steps[n - 1], outs[n - 1], trace[n]);
    }
  }

  /** In such a run truncate never fails on a file and `fallocate` gets the plain verdict. */
  lemma PlainAnswers(steps: seq<Step>, outs: seq<Outcome>, trace: seq<State>, n: nat)
    requires IsRun(steps, outs, trace) && n < |steps| && BO.EndsFit(trace[0].buffer)
    requires forall m :: 0 <= m <= n ==> StaysWithin(trace[m], steps[m])
    ensures steps[n].DoTruncate? && steps[n].ino in trace[n].sizes ==> outs[n] == Done
    ensures steps[n].DoFallocate? ==>
              outs[n] == Told(FallocateVerdict(SizeIn(trace[n], steps[n].ino),
                                               LiveEngine.Classify(steps[n].mode, steps[n].offset, steps[n].length),
                                                 steps[n].offset, steps[n].length))
  {
    var s, step := trace[n], steps[n];
    RunWithin(steps, outs, trace, n);
    assert Follows(s, step, outs[n], trace[n + 1]) && StaysWithin(s, step);
    if step.DoTruncate? {
      BO.FitsWithin(Truncate(step.size), step.ino, s.buffer);
    } else if step.DoFallocate? {
      AnswerIff(SizeIn(s, step.ino), LiveEngine.Classify(step.mode, step.offset, step.length), step.offset,
        step.length, step.ino, s.buffer, s.extents);
    }
  }
}
