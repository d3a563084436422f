/** The engine as a whole across a snapshot. */
module KernelRestore {
  import opened Common
  import opened Pool
  import opened SnapshotCodec
  import opened SnapshotParts
  import opened SnapshotIO
  import opened Restore
  import S = Snapshot
  import L = Links
  import DE = Dirents
  import N = Namespace
  import D = LiveData
  import R = Runs
  import IL = IntentLog
  import X = Xattrs
  import W = Wire
  import B = WriteBuffer
  import E = Extents
  import opened Kernel

  // ---------- the tables as they are saved ----------

  function KindOf(b: byte): L.NodeKind { if b == 0 then L.File else if b == 1 then L.Dir else L.Symlink }

  function NodesOf(rs: seq<Record>): (nodes: L.Inodes)
    ensures nodes.Keys == S.Live(rs)
  {
    if rs == [] then map[]
    else
      var n := |rs| - 1;
      assert rs == rs[..n] + [rs[n]];
      if rs[n].Inode? then NodesOf(rs[..n])[rs[n].ino := L.Inode(KindOf(rs[n].kind), rs[n].nlink)] else NodesOf(rs[..n])
  }

  function EntryOf(r: Record): DE.Dirent
    requires r.Name?
  {
    DE.Dirent(r.parent, r.name, r.child, KindOf(r.kind), r.cookie)
  }

  function EntriesOf(rs: seq<Record>): (es: seq<DE.Dirent>)
    requires forall r :: r in rs ==> r.Name?
    ensures |es| == |rs|
  {
    seq(|rs|, i requires 0 <= i < |rs| => EntryOf(rs[i]))
  }

  function StoresOf(ss: seq<Store>): map<nat, X.Attrs> {
    if ss == [] then map[] else var n := |ss| - 1; StoresOf(ss[..n])[ss[n].owner := ss[n].attrs]
  }

  /** The tables that are saved are the engine's. */
  ghost predicate Pictures(s: S.State, k: KernelEngine)
    reads k, k.ns, k.data, k.xattrs
  {
    && Portrays(s, k.data) && NodesOf(s.inodes) == k.ns.inodes
    && (forall r :: r in s.names ==> r.Name?) && EntriesOf(s.names) == k.ns.entries
    && StoresOf(s.stores) == k.xattrs.stores && s.nextIno == k.ns.nextIno && s.nextCookie == k.ns.nextCookie
  }

  // ---------- every engine has tables ----------

  function ByteOf(kind: L.NodeKind): byte { if kind.File? then 0 else if kind.Dir? then 1 else 2 }

  lemma OneRecordMore(rs: seq<Record>, r: Record)
    requires r.Inode?
    ensures NodesOf(rs + [r]) == NodesOf(rs)[r.ino := L.Inode(KindOf(r.kind), r.nlink)]
    ensures SizesOf(rs + [r]) == SizesOf(rs)[r.ino := r.size]
  {
    assert (rs + [r])[..|rs|] == rs;
  }

  lemma PutBack<T>(m: map<nat, T>, i: nat)
    requires i in m
    ensures (m - {i})[i := m[i]] == m
  {
  }

  function RecordFor(i: nat, node: L.Inode, size: nat): Record {
    Inode(i, 0, 0, 0, node.nlink, size, 0, 0, 0, 0, 0, ByteOf(node.kind), None)
  }

  lemma NodeDrawn(rs: seq<Record>, nodes: L.Inodes, i: nat, size: nat)
    requires i in nodes && NodesOf(rs) == nodes - {i}
    ensures NodesOf(rs + [RecordFor(i, nodes[i], size)]) == nodes
  {
    OneRecordMore(rs, RecordFor(i, nodes[i], size));
    assert L.Inode(KindOf(ByteOf(nodes[i].kind)), nodes[i].nlink) == nodes[i];
    PutBack(nodes, i);
  }

  lemma SizeDrawn(rs: seq<Record>, sizes: map<nat, nat>, i: nat, node: L.Inode)
    requires i in sizes && SizesOf(rs) == sizes - {i}
    ensures SizesOf(rs + [RecordFor(i, node, sizes[i])]) == sizes
  {
    OneRecordMore(rs, RecordFor(i, node, sizes[i]));
    PutBack(sizes, i);
  }

  lemma {:induction false} InodesDrawn(nodes: L.Inodes, sizes: map<nat, nat>, left: set<nat>) returns (rs: seq<Record>)
    requires nodes.Keys == sizes.Keys == left
    ensures NodesOf(rs) == nodes && SizesOf(rs) == sizes
    ensures forall r :: r in rs ==> r.Inode? && r.ino in nodes && r == RecordFor(r.ino, nodes[r.ino], sizes[r.ino])
    decreases left
  {
    if left == {} {
      rs := [];
    } else {
      var i :| i in left;
      var some := InodesDrawn(nodes - {i}, sizes - {i}, left - {i});
      NodeDrawn(some, nodes, i, sizes[i]);
      SizeDrawn(some, sizes, i, nodes[i]);
      rs := some + [RecordFor(i, nodes[i], sizes[i])];
    }
  }

  function NameFor(e: DE.Dirent): (r: Record)
    ensures r.Name? && EntryOf(r) == e
  {
    Name(e.parent, e.child, e.cookie, ByteOf(e.kind), e.name)
  }

  function NamesDrawn(es: seq<DE.Dirent>): (rs: seq<Record>)
    ensures |rs| == |es| && forall i :: 0 <= i < |rs| ==> rs[i] == NameFor(es[i])
    ensures (forall r :: r in rs ==> r.Name?) && EntriesOf(rs) == es
  {
    var rs := seq(|es|, i requires 0 <= i < |es| => NameFor(es[i]));
    assert forall i :: 0 <= i < |es| ==> EntriesOf(rs)[i] == es[i];
    rs
  }

  lemma {:induction false} StoresDrawn(stores: map<nat, X.Attrs>) returns (ss: seq<Store>)
    ensures StoresOf(ss) == stores && OneStoreEach(ss)
    decreases |stores|
  {
    if stores == map[] {
      ss := [];
    } else {
      var i :| i in stores;
      assert i in stores.Keys;
      var some := StoresDrawn(stores - {i});
      ss := some + [Store(i, stores[i])];
      assert ss[..|ss| - 1] == some;
      StoresAt(some, i);
    }
  }

  /** Every number is in the range of its type. */
  ghost predicate InRange(k: KernelEngine)
    reads k, k.ns, k.data
  {
    && k.ns.nextIno <= U64_MAX && k.ns.nextCookie <= U32_MAX
    && (forall i :: i in k.ns.inodes ==> i <= U64_MAX && k.ns.inodes[i].nlink <= U32_MAX)
    && (forall i :: i in k.data.sizes ==> k.data.sizes[i] <= U64_MAX)
    && (forall e :: e in k.ns.entries ==> e.parent <= U64_MAX && e.child <= U64_MAX && e.cookie <= U32_MAX)
    && (forall e :: e in k.data.buffer ==> e.offset <= U64_MAX)
    && (forall e :: e in k.data.extents ==> e.end <= U64_MAX && e.phys <= U64_MAX)
  }

  lemma {:induction false} DataTyped(ws: seq<B.Staged>, live: set<nat>)
    requires (forall i :: i in live ==> i <= U64_MAX) && forall e :: e in ws ==> e.offset <= U64_MAX
    ensures AllTyped(S.DataRecords(ws, live), DataTag)
  {
    if ws != [] {
      DataTyped(ws[1..], live);
      assert ws[0] in ws;
    }
  }

  lemma {:induction false} ExtentsTyped(es: seq<E.Extent>, live: set<nat>)
    requires (forall i :: i in live ==> i <= U64_MAX) && forall e :: e in es ==> e.end <= U64_MAX && e.phys <= U64_MAX
    ensures AllTyped(S.ExtentRecords(es, live), ExtentTag)
  {
    if es != [] {
      ExtentsTyped(es[1..], live);
      assert es[0] in es;
    }
  }

  lemma {:induction false} AttrsTyped(ss: seq<Store>, live: set<nat>)
    requires forall i :: i in live ==> i <= U64_MAX
    ensures AllTyped(StoreRecords(ss, live), AttrTag)
  {
    if ss != [] { AttrsTyped(ss[..|ss| - 1], live); }
  }

  /** There are tables to save for every engine with a file for every record. */
  lemma TablesDrawn(k: KernelEngine) returns (s: S.State)
    requires k.data.sizes.Keys == k.ns.inodes.Keys
    ensures Pictures(s, k) && (InRange(k) ==> StateTyped(s))
  {
    var rs := InodesDrawn(k.ns.inodes, k.data.sizes, k.ns.inodes.Keys);
    var ss := StoresDrawn(k.xattrs.stores);
    s := S.State(rs, NamesDrawn(k.ns.entries), k.data.buffer, k.data.extents, ss, k.ns.nextIno, k.ns.nextCookie);
    if InRange(k) {
      DataTyped(s.writes, S.Live(rs));
      ExtentsTyped(s.extents, S.Live(rs));
      AttrsTyped(ss, S.Live(rs));
    }
  }

  // ---------- attributes ----------

  lemma {:induction false} StoresAt(ss: seq<Store>, i: nat)
    ensures i in StoresOf(ss) <==> exists s :: s in ss && s.owner == i
  {
    if ss != [] {
      var n := |ss| - 1;
      assert ss == ss[..n] + [ss[n]];
      StoresAt(ss[..n], i);
    }
  }

  lemma {:induction false} KeptSome(ss: seq<Store>, live: set<nat>)
    ensures forall s :: s in Kept(ss, live) ==> s in ss
  {
    if ss != [] {
      KeptSome(ss[..|ss| - 1], live);
    }
  }

  lemma StoresLast(ss: seq<Store>, last: Store, i: nat)
    ensures X.Of(StoresOf(ss + [last]), i) == if i == last.owner then last.attrs else X.Of(StoresOf(ss), i)
  {
    assert (ss + [last])[..|ss|] == ss;
  }

  lemma KeptLast(ss: seq<Store>, last: Store, live: set<nat>)
    ensures Kept(ss + [last], live)
         == if last.owner in live && last.attrs != [] then Kept(ss, live) + [last] else Kept(ss, live)
  {
    assert (ss + [last])[..|ss|] == ss;
  }

  lemma NoStoreYet(ss: seq<Store>, last: Store, live: set<nat>)
    requires OneStoreEach(ss + [last])
    ensures last.owner !in StoresOf(Kept(ss, live))
  {
    KeptSome(ss, live);
    StoresAt(Kept(ss, live), last.owner);
    forall s | s in ss ensures s.owner != last.owner {
      var j :| 0 <= j < |ss| && ss[j] == s;
      assert (ss + [last])[j] == s && (ss + [last])[|ss|] == last;
    }
  }

  /** The attributes of every inode with a record are kept, and those of the others are not. */
  lemma {:induction false} KeptAttrs(ss: seq<Store>, live: set<nat>, i: nat)
    requires OneStoreEach(ss)
    ensures X.Of(StoresOf(Kept(ss, live)), i) == if i in live then X.Of(StoresOf(ss), i) else []
  {
    if ss != [] {
      var rest, last := ss[..|ss| - 1], ss[|ss| - 1];
      assert ss == rest + [last];
      KeptAttrs(rest, live, i);
      KeptLast(rest, last, live);
      NoStoreYet(rest, last, live);
      StoresLast(rest, last, i);
      StoresLast(Kept(rest, live), last, i);
    }
  }

  // ---------- numbers ----------

  lemma {:induction false} MaxBelow(rs: seq<Record>, n: nat)
    requires n > 0 && forall r :: r in rs ==> (r.Inode? ==> r.ino < n) && (r.Name? ==> r.cookie < n)
    ensures S.MaxOf(rs) < n
  {
    if rs != [] {
      MaxBelow(rs[1..], n);
    }
  }

  lemma InosBelow(rs: seq<Record>, n: nat)
    requires n > 0 && AllWritable(rs, InodeTag) && forall i :: i in NodesOf(rs) ==> i < n
    ensures S.MaxOf(rs) < n
  {
    forall r | r in rs && r.Inode? ensures r.ino < n {
      assert r.ino in S.Live(rs) && r.ino in NodesOf(rs);
    }
    MaxBelow(rs, n);
  }

  lemma CookiesBelow(rs: seq<Record>, n: nat)
    requires (forall r :: r in rs ==> r.Name?) && DE.CookiesGrow(EntriesOf(rs), n) && n > 0
    ensures S.MaxOf(rs) < n
  {
    forall r | r in rs ensures r.cookie < n {
      var i :| 0 <= i < |rs| && rs[i] == r;
      assert EntriesOf(rs)[i].cookie == r.cookie;
    }
    MaxBelow(rs, n);
  }

  /** The numbers to continue with are the ones that were saved. */
  lemma SameNumbers(s: S.State, rootIno: nat)
    requires S.Persistable(s, rootIno) && 2 <= s.nextIno && rootIno < s.nextIno && 1 <= s.nextCookie
    requires S.MaxOf(s.inodes) < s.nextIno && (s.nextCookie < U32_MAX ==> S.MaxOf(s.names) < s.nextCookie)
    requires S.Restored(s, rootIno).inodes == s.inodes && S.Restored(s, rootIno).names == s.names
    ensures var t := S.Restored(s, rootIno); t.nextIno == s.nextIno && t.nextCookie == s.nextCookie
  {
  }

  lemma NumbersStay(s: S.State, k: KernelEngine)
    requires k.ns.Valid() && Pictures(s, k) && S.Persistable(s, k.ns.root)
    requires S.Restored(s, k.ns.root).inodes == s.inodes && S.Restored(s, k.ns.root).names == s.names
    ensures var t := S.Restored(s, k.ns.root); t.nextIno == s.nextIno && t.nextCookie == s.nextCookie
  {
    assert k.ns.root in k.ns.inodes;
    InosBelow(s.inodes, s.nextIno);
    if s.nextCookie < U32_MAX { CookiesBelow(s.names, s.nextCookie); }
    SameNumbers(s, k.ns.root);
  }

  // ---------- the engine that comes back ----------

  /** Loaded tables make a namespace: that of `ns`, without its handles. */
  method LoadNames(ghost ns: N.Namespace, root: nat, sound: bool, t: S.State) returns (f: N.Namespace)
    requires ns.Valid() && ns.root == root && NodesOf(t.inodes) == ns.inodes
    requires (forall r :: r in t.names ==> r.Name?) && EntriesOf(t.names) == ns.entries
    requires t.nextIno == ns.nextIno && t.nextCookie == ns.nextCookie
    ensures fresh(f) && f.Valid() && f.root == root && f.sound == sound && f.entries == ns.entries
              && f.inodes == ns.inodes
    ensures f.opens == map[] && f.nextIno == ns.nextIno && f.nextCookie == ns.nextCookie
    ensures f.unopened == set i | i in ns.inodes && ns.inodes[i].nlink == 0
  {
    f := new N.Namespace.Loaded(root, sound, EntriesOf(t.names), NodesOf(t.inodes), t.nextIno, t.nextCookie);
  }

  /** The names, records, numbers and attributes of `k`, without its handles and without the attributes of inodes that
      have no record. */
  ghost predicate CameBack(k: KernelEngine, k': KernelEngine)
    reads k, k.ns, k.xattrs, k', k'.ns, k'.xattrs
  {
    && k'.ns.root == k.ns.root && k'.ns.entries == k.ns.entries && k'.ns.inodes == k.ns.inodes
    && k'.ns.nextIno == k.ns.nextIno && k'.ns.nextCookie == k.ns.nextCookie
    && k'.ns.opens == map[] && k'.ns.unopened == (set i | i in k.ns.inodes && k.ns.inodes[i].nlink == 0)
    && forall i :: X.Of(k'.xattrs.stores, i) == if i in k.ns.inodes then X.Of(k.xattrs.stores, i) else []
  }

  method LoadAttrs(pool: BlockPool, base: nat, active: bool, s: S.State, t: S.State) returns (xattrs: X.XattrStore)
    requires pool.Valid() && base <= |pool.image| && OneStoreEach(s.stores)
               && t.stores == Kept(s.stores, S.Live(s.inodes))
    ensures fresh(xattrs) && fresh(xattrs.log) && xattrs.Valid() && xattrs.log.pool == pool && xattrs.log.base == base
    ensures forall i :: X.Of(xattrs.stores, i) == if i in S.Live(s.inodes) then X.Of(StoresOf(s.stores), i) else []
  {
    var log := new IL.IntentLog(pool, base, active);
    xattrs := new X.XattrStore(log, StoresOf(t.stores));
    forall i ensures X.Of(xattrs.stores, i) == if i in S.Live(s.inodes) then X.Of(StoresOf(s.stores), i) else [] {
      KeptAttrs(s.stores, S.Live(s.inodes), i);
    }
  }

  /** What was loaded are the saved tables of `k`, and `f` has its files. */
  ghost predicate Ready(k: KernelEngine, f: D.LiveEngine, s: S.State, t: S.State)
    reads k, k.ns, k.data, k.xattrs, k.xattrs.log, f, f.pool
  {
    && k.ns.Valid() && Pictures(s, k) && TablesBack(s, k.ns.root, t)
    && f.Valid() && f.sizes.Keys == k.ns.inodes.Keys && k.xattrs.log.base <= |f.pool.image|
    && k.xattrs.log.base + IL.LOG_BYTES + MAX_SECTOR_SIZE <= f.pool.dataBase
  }

  /** The loaded tables around an engine for the files. */
  method Assemble(k: KernelEngine, f: D.LiveEngine, s: S.State, t: S.State) returns (k': KernelEngine)
    requires Ready(k, f, s, t)
    ensures fresh(k') && k'.Valid() && CameBack(k, k') && k'.data == f
  {
    NumbersStay(s, k);
    var ns := LoadNames(k.ns, k.ns.root, k.ns.sound, t);
    var xattrs := LoadAttrs(f.pool, k.xattrs.log.base, k.xattrs.log.active, s, t);
    k' := new KernelEngine(ns, f, xattrs);
  }

  /** The tables can be saved, and the device takes them. */
  ghost predicate Fits(pool: BlockPool, at: nat, s: S.State, root: seq<byte>, rootIno: nat,
                       digest: seq<byte> -> seq<byte>)
    reads pool
  {
    S.Persistable(s, rootIno) && Takes(pool, |pool.image|, at, |S.Image(s, root, rootIno, digest)|)
  }

  /** The parts of an engine that its files depend on. */
  ghost predicate Shows(f: D.LiveEngine, now: R.State)
    reads f, f.pool
  {
    && f.active == now.active && f.pool.dataBase == now.base && f.pool.image == now.image
    && f.extents == now.extents && f.buffer == now.buffer && f.sizes == now.sizes
  }

  /** The same files, and data staged over stored bytes if it was before. */
  ghost predicate FilesBack(was: R.State, now: R.State) {
    now.sizes == was.sizes && (forall i: nat :: R.SameBytes(was, now, i)) && (R.Covered(was) ==> R.Covered(now))
  }

  /** The tables that were saved, but for attributes of inodes without a record. */
  ghost predicate TablesBack(s: S.State, rootIno: nat, t: S.State) {
    && t.inodes == s.inodes && t.names == s.names && t.stores == Kept(s.stores, S.Live(s.inodes))
    && S.Persistable(s, rootIno) && t == S.Restored(s, rootIno)
  }

  /** The files, saved and loaded into a new engine. */
  method RestoreFiles(data: D.LiveEngine, at: nat, s: S.State, root: seq<byte>, rootIno: nat,
                      digest: seq<byte> -> seq<byte>)
    returns (f: D.LiveEngine, r: Result<Option<S.State>>, ghost now: R.State)
    requires data.Valid() && Portrays(s, data) && StateTyped(s) && rootIno <= U64_MAX && |root| == S.HEADER - S.HASH_END
    requires forall b :: |digest(b)| == S.HASH_END - S.HASH_AT
    requires at + S.MAX_IMAGE <= data.pool.dataBase
    modifies data.pool
    ensures data.Valid() && SameBelow(old(data.pool.image), data.pool.image, at)
    ensures fresh(f) && f.pool == data.pool && Shows(f, now)
    ensures r.Ok? && r.value.Some? ==>
              f.Valid() && FilesBack(old(R.StateOf(data)), now) && TablesBack(s, rootIno, r.value.value)
    ensures old(Fits(data.pool, at, s, root, rootIno, digest)) ==> r.Ok? && r.value.Some?
  {
    f := new D.LiveEngine(data.pool, data.active, data.capacity);
    ghost var was := R.StateOf(data);
    r := SaveAndRestore(data, f, at, s, root, rootIno, digest);
    now := R.StateOf(f);
    if r.Ok? && r.value.Some? {
      forall i: nat ensures R.SameBytes(was, now, i) {
        forall j: nat ensures R.ByteAt(now, i, j) == R.ByteAt(was, i, j) {
          assert f.Byte(i, j) == old(data.Byte(i, j));
        }
      }
    }
  }

  /** A log that ends before the snapshot is as it was. */
  ghost predicate Holds(image: seq<byte>, base: nat, text: seq<byte>) {
    base + |text| <= |image| && image[base..base + |text|] == text
  }

  lemma LogStays(was: seq<byte>, image: seq<byte>, at: nat, base: nat, text: seq<byte>)
    requires SameBelow(was, image, at) && base + |text| <= at && Holds(was, base, text)
    ensures Holds(image, base, text)
  {
  }

  method RestoreBeside(ghost log: IL.IntentLog, data: D.LiveEngine, at: nat, s: S.State, root: seq<byte>, rootIno: nat,
                       digest: seq<byte> -> seq<byte>)
    returns (f: D.LiveEngine, r: Result<Option<S.State>>, ghost now: R.State)
    requires data.Valid() && Portrays(s, data) && StateTyped(s) && rootIno <= U64_MAX && |root| == S.HEADER - S.HASH_END
    requires forall b :: |digest(b)| == S.HASH_END - S.HASH_AT
    requires log.Valid() && log.pool == data.pool
    requires log.base + IL.LOG_BYTES <= at && at + S.MAX_IMAGE <= data.pool.dataBase
    modifies data.pool
    ensures data.Valid() && log.Valid() && |data.pool.image| == |old(data.pool.image)|
    ensures fresh(f) && f.pool == data.pool && Shows(f, now)
    ensures r.Ok? && r.value.Some? ==>
              f.Valid() && FilesBack(old(R.StateOf(data)), now) && TablesBack(s, rootIno, r.value.value)
    ensures old(Fits(data.pool, at, s, root, rootIno, digest)) ==> r.Ok? && r.value.Some?
  {
    ghost var was, text := data.pool.image, W.Concat(log.flushed);
    assert log.active && log.tail > 0 ==> Holds(was, log.base, text);
    f, r, now := RestoreFiles(data, at, s, root, rootIno, digest);
    if log.active && log.tail > 0 { LogStays(was, data.pool.image, at, log.base, text); }
  }

  /** Every file of the state is in the engine, with every byte. */
  ghost predicate SameFiles(was: R.State, f: D.LiveEngine)
    reads f, f.pool
  {
    && f.sizes == was.sizes && (forall i: nat, j: nat :: f.Byte(i, j) == R.ByteAt(was, i, j))
    && (R.Covered(was) ==> f.Covered())
  }

  lemma FilesShown(was: R.State, now: R.State, f: D.LiveEngine)
    requires Shows(f, now) && FilesBack(was, now)
    ensures SameFiles(was, f)
  {
    forall i: nat, j: nat ensures f.Byte(i, j) == R.ByteAt(was, i, j) {
      assert R.SameBytes(was, now, i);
    }
  }

  method Rebuild(k: KernelEngine, f: D.LiveEngine, s: S.State, loaded: Result<Option<S.State>>, ghost now: R.State)
    returns (r: Result<Option<KernelEngine>>)
    requires Shows(f, now) && (loaded.Ok? && loaded.value.Some? ==> Ready(k, f, s, loaded.value.value))
    ensures (r.Ok? && r.value.Some?) == (loaded.Ok? && loaded.value.Some?)
    ensures r.Ok? && r.value.Some? ==> var k' := r.value.value;
              fresh(k') && k'.Valid() && CameBack(k, k') && Shows(k'.data, now)
  {
    if loaded.Err? { return Err(loaded.errno); }
    if loaded.value.None? { return Ok(None); }
    var k' := Assemble(k, f, s, loaded.value.value);
    r := Ok(Some(k'));
  }

  /** Saving `k` and loading its tables back gives what `Assemble` needs. */
  method SaveAndLoadAll(k: KernelEngine, at: nat, s: S.State, root: seq<byte>, digest: seq<byte> -> seq<byte>)
    returns (f: D.LiveEngine, loaded: Result<Option<S.State>>, ghost now: R.State)
    requires k.Valid() && Pictures(s, k) && StateTyped(s) && k.ns.root <= U64_MAX && |root| == S.HEADER - S.HASH_END
    requires forall b :: |digest(b)| == S.HASH_END - S.HASH_AT
    requires k.xattrs.log.base + IL.LOG_BYTES <= at && at + S.MAX_IMAGE <= k.data.pool.dataBase
    modifies k.data.pool
    ensures k.Valid() && fresh(f) && Shows(f, now)
    ensures loaded.Ok? && loaded.value.Some? ==>
              Ready(k, f, s, loaded.value.value) && FilesBack(old(R.StateOf(k.data)), now)
    ensures old(Fits(k.data.pool, at, s, root, k.ns.root, digest)) ==> loaded.Ok? && loaded.value.Some?
  {
    f, loaded, now := RestoreBeside(k.xattrs.log, k.data, at, s, root, k.ns.root, digest);
  }

  /** What comes out of a save and a load of `k`, if anything does. */
  ghost predicate Reborn(k: KernelEngine, was: R.State, k': KernelEngine)
    reads k, k.ns, k.xattrs, k', k'.ns, k'.data, k'.data.pool, k'.xattrs, k'.xattrs.log, k'.xattrs.log.pool
  {
    k'.Valid() && CameBack(k, k') && SameFiles(was, k'.data)
  }

  method RebuildAs(k: KernelEngine, f: D.LiveEngine, s: S.State, loaded: Result<Option<S.State>>, ghost was: R.State,
                   ghost now: R.State)
    returns (r: Result<Option<KernelEngine>>)
    requires Shows(f, now)
    requires loaded.Ok? && loaded.value.Some? ==> Ready(k, f, s, loaded.value.value) && FilesBack(was, now)
    ensures (r.Ok? && r.value.Some?) == (loaded.Ok? && loaded.value.Some?)
    ensures r.Ok? && r.value.Some? ==> fresh(r.value.value) && Reborn(k, was, r.value.value)
  {
    r := Rebuild(k, f, s, loaded, now);
    if r.Ok? && r.value.Some? { FilesShown(was, now, r.value.value.data); }
  }

  method Finish(k: KernelEngine, f: D.LiveEngine, s: S.State, loaded: Result<Option<S.State>>, ghost was: R.State,
                ghost now: R.State)
    returns (r: Result<Option<KernelEngine>>)
    requires k.Valid() && Shows(f, now)
    requires loaded.Ok? && loaded.value.Some? ==> Ready(k, f, s, loaded.value.value) && FilesBack(was, now)
    ensures k.Valid() && (r.Ok? && r.value.Some?) == (loaded.Ok? && loaded.value.Some?)
    ensures r.Ok? && r.value.Some? ==> fresh(r.value.value) && Reborn(k, was, r.value.value)
  {
    r := RebuildAs(k, f, s, loaded, was, now);
  }

  /** A good engine, saved between its log and its file data and loaded from there, is a good engine again. It has the
      same names, records and numbers, the same bytes in every file and the same attributes of every inode with a
      record; no handle is open, and no attribute of an inode without a record is left. The old one is not harmed. */
  method SaveAndRestoreAll(k: KernelEngine, at: nat, s: S.State, root: seq<byte>, digest: seq<byte> -> seq<byte>)
    returns (r: Result<Option<KernelEngine>>)
    requires k.Valid() && Pictures(s, k) && StateTyped(s) && k.ns.root <= U64_MAX && |root| == S.HEADER - S.HASH_END
    requires forall b :: |digest(b)| == S.HASH_END - S.HASH_AT
    requires k.xattrs.log.base + IL.LOG_BYTES <= at && at + S.MAX_IMAGE <= k.data.pool.dataBase
    modifies k.data.pool
    ensures k.Valid()
    ensures r.Ok? && r.value.Some? ==> fresh(r.value.value) && Reborn(k, old(R.StateOf(k.data)), r.value.value)
    ensures old(Fits(k.data.pool, at, s, root, k.ns.root, digest)) ==> r.Ok? && r.value.Some?
  {
    ghost var was := R.StateOf(k.data);
    var f, loaded;
    ghost var now;
    f, loaded, now := SaveAndLoadAll(k, at, s, root, digest);
    r := Finish(k, f, s, loaded, was, now);
  }
}
