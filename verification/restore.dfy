/** What a snapshot means for the engine: after loading there is a good engine again, and every file reads as before. */
module Restore {
  import opened Common
  import opened Wire
  import opened SnapshotCodec
  import opened SnapshotParts
  import opened Snapshot
  import opened SnapshotIO
  import opened Pool
  import opened Extents
  import opened ExtentUpdate
  import opened LiveData
  import B = WriteBuffer
  import BO = BufferOps

  /** Staged bytes and extents as the engine keeps them, all of them of files that have a record. */
  ghost predicate EngineState(s: State) {
    && Laid(s.extents) && (forall e ::
         e in s.extents ==> e.ino in Live(s.inodes) && (e.kind.Data? ==> e.phys + (e.end - e.start) <= U64_MAX))
    && B.AllStaged(s.writes) && (forall e :: e in s.writes ==> e.ino in Live(s.inodes))
    && OneStoreEach(s.stores)
  }

  lemma {:induction false} PlainRecords(rs: seq<Record>)
    requires forall r :: r in rs ==> Writable(r) && (r.Inode? || r.Name? || r.Attr?)
    ensures ReloadMany(rs) == rs
  {
    if rs != [] {
      assert rs[0] in rs;
      PlainRecords(rs[1..]);
    }
  }

  lemma {:induction false} WritesSurvive(ws: seq<B.Staged>, live: set<nat>)
    requires B.AllStaged(ws) && (forall e :: e in ws ==> e.ino in live)
    requires forall r :: r in DataRecords(ws, live) ==> Writable(r)
    ensures Datas(ReloadMany(DataRecords(ws, live))) == ws
  {
    if ws != [] {
      assert ws[0] in ws && B.WellStaged(ws[0]);
      assert DataRecords(ws, live) == [Record.Data(ws[0])] + DataRecords(ws[1..], live);
      WritesSurvive(ws[1..], live);
      assert Record.Data(ws[0]) in DataRecords(ws, live);
      assert DataRecords(ws, live)[1..] == DataRecords(ws[1..], live);
      assert Reloaded(Record.Data(ws[0])) == Record.Data(ws[0]) by {
        assert ws[0].zero || ws[0].data[..ws[0].len] == ws[0].data;
      }
      assert ReloadMany(DataRecords(ws, live))[1..] == ReloadMany(DataRecords(ws[1..], live));
    }
  }

  function Trim(e: Extent): Extent
  {
    if e.start < e.end then Rebuilt(e.ino, e.start, e.end, e.phys, e.kind.Data?) else e
  }

  function Trimmed(es: seq<Extent>): (r: seq<Extent>)
    ensures |r| == |es| && forall i :: 0 <= i < |es| ==> r[i] == Trim(es[i])
  {
    if es == [] then [] else [Trim(es[0])] + Trimmed(es[1..])
  }

  lemma {:induction false} ExtentsSurvive(es: seq<Extent>, live: set<nat>)
    requires forall e :: e in es ==> e.start < e.end && e.ino in live
    requires forall r :: r in ExtentRecords(es, live) ==> Writable(r)
    ensures ExtentsIn(ReloadMany(ExtentRecords(es, live))) == Trimmed(es)
  {
    if es != [] {
      assert es[0] in es;
      var rs := ExtentRecords(es, live);
      assert rs == [Record.Extent(es[0])] + ExtentRecords(es[1..], live);
      ExtentsSurvive(es[1..], live);
      assert rs[0] in rs && rs[1..] == ExtentRecords(es[1..], live);
      assert ReloadMany(rs)[1..] == ReloadMany(rs[1..]);
    }
  }

  lemma TrimApart(a: Extent, b: Extent)
    requires WellFormed(a) && WellFormed(b) && Apart(a, b)
    ensures Apart(Trim(a), Trim(b))
  {
  }

  /** Shortening the reservations keeps the extents laid out and mapped as they were. */
  lemma TrimmedLaid(es: seq<Extent>)
    requires Laid(es) && forall e :: e in es && e.kind.Data? ==> e.phys + (e.end - e.start) <= U64_MAX
    ensures Laid(Trimmed(es)) && SameMap(Trimmed(es), es)
  {
    var ts := Trimmed(es);
    forall i, j | 0 <= i < j < |ts| ensures Apart(ts[i], ts[j]) {
      assert es[i] in es && es[j] in es;
      TrimApart(es[i], es[j]);
    }
    forall t | t in ts ensures WellFormed(t) {
      var i :| 0 <= i < |ts| && ts[i] == t;
      assert es[i] in es && WellFormed(es[i]);
    }
    forall ino, k ensures At(ts, ino, k) == At(es, ino, k) {
      TrimmedAt(es, ino, k);
    }
  }

  lemma TrimmedAt(es: seq<Extent>, ino: nat, k: nat)
    requires Laid(es) && Laid(Trimmed(es))
    ensures At(Trimmed(es), ino, k) == At(es, ino, k)
  {
    if Mapped(es, ino, k) {
      var e :| e in es && Covers(e, ino, k);
      TrimmedOver(es, e, k);
    } else {
      TrimmedOff(es, ino, k);
    }
  }

  lemma TrimmedOver(es: seq<Extent>, e: Extent, k: nat)
    requires Laid(es) && Laid(Trimmed(es)) && e in es && Covers(e, e.ino, k)
    ensures At(Trimmed(es), e.ino, k) == At(es, e.ino, k)
  {
    var i :| 0 <= i < |es| && es[i] == e;
    AtIs(es, e, k);
    assert WellFormed(e) && Trimmed(es)[i] == Trim(e) && Trim(e) in Trimmed(es);
    AtIs(Trimmed(es), Trim(e), k);
  }

  lemma TrimmedOff(es: seq<Extent>, ino: nat, k: nat)
    requires !Mapped(es, ino, k)
    ensures !Mapped(Trimmed(es), ino, k)
  {
    if t :| t in Trimmed(es) && Covers(t, ino, k) {
      var i :| 0 <= i < |es| && Trimmed(es)[i] == t;
      assert es[i] in es && t == Trim(es[i]);
      assert !Covers(es[i], ino, k);
    }
  }

  lemma {:induction false} StoreRecordsPlain(stores: seq<Store>, live: set<nat>)
    ensures forall r :: r in StoreRecords(stores, live) ==> r.Attr?
  {
    if stores != [] {
      StoreRecordsPlain(stores[..|stores| - 1], live);
    }
  }

  lemma {:induction false} MaxIsTop(rs: seq<Record>)
    ensures forall r :: r in rs && r.Inode? ==> r.ino <= MaxOf(rs)
    ensures forall r :: r in rs && r.Name? ==> r.cookie <= MaxOf(rs)
  {
    if rs != [] {
      MaxIsTop(rs[1..]);
      assert rs == [rs[0]] + rs[1..];
    }
  }

  lemma SameLists(s: State, rootIno: nat)
    requires Persistable(s, rootIno) && EngineState(s)
    ensures var t := Restored(s, rootIno);
            && t.inodes == s.inodes && t.names == s.names && t.writes == s.writes
            && t.extents == Trimmed(s.extents) && t.stores == Kept(s.stores, Live(s.inodes))
  {
    var live := Live(s.inodes);
    PlainRecords(s.inodes);
    PlainRecords(s.names);
    WritesSurvive(s.writes, live);
    assert forall e :: e in s.extents ==> WellFormed(e);
    ExtentsSurvive(s.extents, live);
    StoreRecordsPlain(s.stores, live);
    PlainRecords(StoreRecords(s.stores, live));
    RegroupStores(s.stores, live);
  }

  /** Across a snapshot the same inodes, names and cookies are there, every store that held something for a
      live inode is there, and every byte of every file reads the same from the same storage. New inode
      numbers and cookies are past all the old ones. */
  lemma RestoredReads(s: State, rootIno: nat, active: bool, base: nat, image: seq<byte>)
    requires Persistable(s, rootIno) && EngineState(s)
    ensures var t := Restored(s, rootIno);
            && t.inodes == s.inodes && t.names == s.names && t.stores == Kept(s.stores, Live(s.inodes))
            && Laid(t.extents) && SameMap(t.extents, s.extents) && t.writes == s.writes
            && (forall i, k :: Contents(active, base, image, t.extents, t.writes, i, k)
                               == Contents(active, base, image, s.extents, s.writes, i, k))
            && t.nextIno >= s.nextIno && t.nextCookie >= s.nextCookie
            && NumbersFree(t)
  {
    SameLists(s, rootIno);
    TrimmedLaid(s.extents);
    NumbersPast(s, rootIno);
    var t := Restored(s, rootIno);
    forall i, k ensures Contents(active, base, image, t.extents, t.writes, i, k)
                        == Contents(active, base, image, s.extents, s.writes, i, k) {
      SameByte(t.extents, s.extents, t.writes, active, base, image, i, k);
    }
  }

  lemma SameByte(es: seq<Extent>, es': seq<Extent>, ws: seq<B.Staged>, active: bool, base: nat, image: seq<byte>,
                 i: nat, k: nat)
    requires SameMap(es, es')
    ensures Contents(active, base, image, es, ws, i, k) == Contents(active, base, image, es', ws, i, k)
  {
    assert At(es, i, k) == At(es', i, k);
  }

  /** The next inode number and the next cookie are past every one in the tables, but for the largest of each kind. */
  ghost predicate NumbersFree(t: State) {
    && (forall r :: r in t.inodes && r.Inode? ==> r.ino < t.nextIno || r.ino == U64_MAX)
    && (forall r :: r in t.names && r.Name? ==> r.cookie < t.nextCookie || r.cookie == U32_MAX)
  }

  lemma NumbersPast(s: State, rootIno: nat)
    requires Persistable(s, rootIno) && Restored(s, rootIno).inodes == s.inodes && Restored(s, rootIno).names == s.names
    ensures var t := Restored(s, rootIno);
            && t.nextIno >= s.nextIno && t.nextCookie >= s.nextCookie
            && NumbersFree(t)
  {
    MaxIsTop(s.inodes);
    MaxIsTop(s.names);
    TopBound(s.inodes, s.names);
  }

  lemma TopBound(inodes: seq<Record>, names: seq<Record>)
    requires AllWritable(inodes, InodeTag) && AllWritable(names, NameTag)
    ensures forall r :: r in inodes && r.Inode? ==> r.ino <= U64_MAX
    ensures forall r :: r in names && r.Name? ==> r.cookie <= U32_MAX
  {
  }

  // ---------- an engine, its snapshot, and the engine that comes back ----------

  /** The sizes the inode records give. */
  function SizesOf(rs: seq<Record>): (sizes: map<nat, nat>)
    ensures sizes.Keys == Live(rs)
  {
    if rs == [] then map[]
    else
      var n := |rs| - 1;
      assert rs == rs[..n] + [rs[n]];
      if rs[n].Inode? then SizesOf(rs[..n])[rs[n].ino := rs[n].size] else SizesOf(rs[..n])
  }

  /** The state that is snapshotted is the engine's. */
  ghost predicate Portrays(s: State, e: LiveEngine)
    reads e
  {
    s.extents == e.extents && s.writes == e.buffer && SizesOf(s.inodes) == e.sizes && OneStoreEach(s.stores)
  }

  lemma ValidMeansSavable(s: State, e: LiveEngine)
    requires e.Valid() && Portrays(s, e)
    ensures EngineState(s)
  {
    forall x | x in s.extents ensures x.ino in Live(s.inodes) {
      assert WellFormed(x);
      MappedHere(s.extents, x);
      assert !At(s.extents, x.ino, x.start).Hole?;
    }
    forall x | x in s.writes ensures x.ino in Live(s.inodes) {
      BO.LastByteOverlaid(s.writes, x);
    }
  }

  /** The trimmed extents are as good as the old ones, and the recomputed tail is no higher. */
  lemma TrimmedOk(es: seq<Extent>, tail: nat)
    requires Laid(es) && Ordered(es) && Joined(es) && BelowTail(es, tail) && tail % LIVE_BLOCK == 0 && tail <= U64_MAX
    ensures var ts := Trimmed(es);
            && Laid(ts) && SameMap(ts, es) && Ordered(ts) && Joined(ts)
            && BelowTail(ts, TailOf(ts)) && TailOf(ts) % LIVE_BLOCK == 0 && TailOf(ts) <= tail
  {
    TrimmedLaid(es);
    TrimmedOrdered(es);
    TrimmedJoined(es);
    TrimmedBelow(es, tail);
    TailIsLeast(Trimmed(es), tail);
  }

  lemma TrimmedBelow(es: seq<Extent>, tail: nat)
    requires Laid(es) && BelowTail(es, tail)
    ensures BelowTail(Trimmed(es), tail)
  {
    var ts := Trimmed(es);
    forall i | 0 <= i < |ts| ensures ts[i].kind.Data? ==> ts[i].reserved <= tail {
      assert es[i] in es && WellFormed(es[i]);
    }
  }

  lemma TrimmedOrdered(es: seq<Extent>)
    requires Laid(es) && Ordered(es)
    ensures Ordered(Trimmed(es))
  {
    var ts := Trimmed(es);
    forall i | 0 <= i < |es| ensures ts[i].ino == es[i].ino && ts[i].start == es[i].start && ts[i].end == es[i].end {
      assert es[i] in es && WellFormed(es[i]);
    }
  }

  lemma TrimmedJoined(es: seq<Extent>)
    requires Laid(es) && Joined(es)
    ensures Joined(Trimmed(es))
  {
    var ts := Trimmed(es);
    forall a, b | a in ts && b in ts ensures !CanMerge(a, b) {
      var i :| 0 <= i < |ts| && ts[i] == a;
      var j :| 0 <= j < |ts| && ts[j] == b;
      assert es[i] in es && es[j] in es && WellFormed(es[i]) && WellFormed(es[j]);
      assert a == Trim(es[i]) && b == Trim(es[j]) && !CanMerge(es[i], es[j]);
    }
  }

  lemma SameConsistency(es: seq<Extent>, es': seq<Extent>, buf: seq<B.Staged>, sizes: map<nat, nat>, active: bool)
    requires SameMap(es', es) && Consistent(es, buf, sizes)
    ensures Consistent(es', buf, sizes) && (NothingPast(es, buf, sizes) ==> NothingPast(es', buf, sizes))
    ensures PutsCovered(active, es, buf) ==> PutsCovered(active, es', buf)
  {
    forall i, k ensures At(es', i, k) == At(es, i, k) {
    }
  }

  /** The loaded tables take the place of the engine's; the allocator starts over behind the loaded extents. */
  method Install(f: LiveEngine, t: State)
    requires f.pool.Valid()
    modifies f
    ensures f.extents == t.extents && f.buffer == t.writes && f.sizes == SizesOf(t.inodes) && f.Snug()
  {
    f.extents, f.buffer, f.sizes := t.extents, t.writes, SizesOf(t.inodes);
    f.RecomputeTail();
  }

  /** What was restored from an engine's snapshot makes a good engine with the same files. */
  method Reload(e: LiveEngine, f: LiveEngine, s: State, t: State, ghost rootIno: nat)
    requires e.Valid() && Portrays(s, e) && Persistable(s, rootIno) && t == Restored(s, rootIno)
    requires f != e && f.pool == e.pool && f.active == e.active && f.capacity == e.capacity
    modifies f
    ensures f.Valid() && f.sizes == e.sizes && f.buffer == e.buffer && f.Snug() && f.tail <= e.tail
    ensures f.extents == t.extents && SameMap(f.extents, e.extents)
    ensures (e.Tidy() ==> f.Tidy()) && (e.Covered() ==> f.Covered())
    ensures t.inodes == s.inodes && t.names == s.names && t.stores == Kept(s.stores, Live(s.inodes))
    ensures t.nextIno >= s.nextIno && t.nextCookie >= s.nextCookie && NumbersFree(t)
  {
    ValidMeansSavable(s, e);
    SameLists(s, rootIno);
    TrimmedOk(e.extents, e.tail);
    SameConsistency(e.extents, t.extents, e.buffer, e.sizes, e.active);
    NumbersPast(s, rootIno);
    Install(f, t);
  }

  /** The snapshot lies below the file data. */
  lemma BelowData(was: seq<byte>, image: seq<byte>, at: nat, d: seq<byte>, base: nat, active: bool, es: seq<Extent>,
                  buf: seq<B.Staged>)
    requires Torn(was, image, at, d) && at + |d| <= base
    ensures forall i: nat, k: nat ::
              Contents(active, base, image, es, buf, i, k) == Contents(active, base, was, es, buf, i, k)
  {
  }

  /** Saving and loading leave the files alone. */
  method SaveAndLoad(e: LiveEngine, at: nat, s: State, root: seq<byte>, rootIno: nat, digest: seq<byte> -> seq<byte>)
    returns (r: Result<Option<State>>)
    requires e.Valid() && StateTyped(s) && rootIno <= U64_MAX && |root| == HEADER - HASH_END
    requires forall b :: |digest(b)| == HASH_END - HASH_AT
    requires at + MAX_IMAGE <= e.pool.dataBase
    modifies e.pool
    ensures e.Valid() && SameBelow(old(e.pool.image), e.pool.image, at)
              && forall i: nat, k: nat :: e.Byte(i, k) == old(e.Byte(i, k))
    ensures r.Ok? && r.value.Some? ==> Persistable(s, rootIno) && r.value.value == Restored(s, rootIno)
    ensures Persistable(s, rootIno) && Takes(e.pool, |old(e.pool.image)|, at, |Image(s, root, rootIno, digest)|) ==>
              r.Ok? && r.value.Some?
  {
    ghost var was := e.pool.image;
    r := PersistAndLoad(e.pool, at, s, root, rootIno, digest);
    if Persistable(s, rootIno) {
      ImageSize(s, root, rootIno, digest);
      BelowData(was, e.pool.image, at, Image(s, root, rootIno, digest), e.pool.dataBase, e.active, e.extents, e.buffer);
    }
  }

  lemma ImageSize(s: State, root: seq<byte>, rootIno: nat, digest: seq<byte> -> seq<byte>)
    requires Persistable(s, rootIno) && |root| == HEADER - HASH_END && forall b :: |digest(b)| == HASH_END - HASH_AT
    ensures |Image(s, root, rootIno, digest)| <= MAX_IMAGE
  {
    AroundSize(s, root, rootIno, digest, Body(ListsOf(s)));
  }

  lemma AroundSize(s: State, root: seq<byte>, rootIno: nat, digest: seq<byte> -> seq<byte>, body: seq<byte>)
    requires |root| == HEADER - HASH_END && forall b :: |digest(b)| == HASH_END - HASH_AT
    ensures |ImageAround(s, root, rootIno, digest, body)| == HEADER + |body|
  {
  }

  lemma SameBytesThere(e: LiveEngine, f: LiveEngine)
    requires f.pool == e.pool && f.active == e.active && f.buffer == e.buffer && SameMap(f.extents, e.extents)
    ensures forall i: nat, k: nat :: f.Byte(i, k) == e.Byte(i, k)
  {
    forall i: nat, k: nat ensures f.Byte(i, k) == e.Byte(i, k) { assert At(f.extents, i, k) == At(e.extents, i, k); }
  }

  /** An engine is saved to its device, and another one on the same device is loaded from there. Whatever happens, the
      files of the first are not touched. If there is something to load, the second engine is a good one, with the
      same files, every byte of every file the same, and an allocator that holds on to no more than before; and on a
      device that takes the snapshot there is. */
  method SaveAndRestore(e: LiveEngine, f: LiveEngine, at: nat, s: State, root: seq<byte>, rootIno: nat,
                        digest: seq<byte> -> seq<byte>)
    returns (r: Result<Option<State>>)
    requires e.Valid() && Portrays(s, e) && StateTyped(s) && rootIno <= U64_MAX && |root| == HEADER - HASH_END
    requires forall b :: |digest(b)| == HASH_END - HASH_AT
    requires at + MAX_IMAGE <= e.pool.dataBase && f != e && f.pool == e.pool && f.active == e.active
               && f.capacity == e.capacity
    modifies f, e.pool
    ensures e.Valid() && SameBelow(old(e.pool.image), e.pool.image, at)
              && forall i: nat, k: nat :: e.Byte(i, k) == old(e.Byte(i, k))
    ensures r.Ok? && r.value.Some? ==>
              && f.Valid() && f.sizes == e.sizes && f.buffer == e.buffer && f.Snug() && f.tail <= e.tail
              && (e.Tidy() ==> f.Tidy()) && (e.Covered() ==> f.Covered())
              && forall i: nat, k: nat :: f.Byte(i, k) == old(e.Byte(i, k))
    ensures r.Ok? && r.value.Some? ==>
              var t := r.value.value;
              && t.inodes == s.inodes && t.names == s.names && t.stores == Kept(s.stores, Live(s.inodes))
                   && t.extents == f.extents
              && t.nextIno >= s.nextIno && t.nextCookie >= s.nextCookie && NumbersFree(t)
              && Persistable(s, rootIno) && t == Restored(s, rootIno)
    ensures Persistable(s, rootIno) && Takes(e.pool, |old(e.pool.image)|, at, |Image(s, root, rootIno, digest)|) ==>
              r.Ok? && r.value.Some?
  {
    r := SaveAndLoad(e, at, s, root, rootIno, digest);
    if r.Ok? && r.value.Some? {
      Reload(e, f, s, r.value.value, rootIno);
      SameBytesThere(e, f);
    }
  }
}
