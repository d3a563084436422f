/** Two things the engine as a whole can be brought to by calls alone: a log with no room, and an attribute of an inode
    that has no record. */
module KernelLaws {
  import opened Common
  import opened Pool
  import L = Links
  import N = Namespace
  import NR = NamespaceRuns
  import D = LiveData
  import R = Runs
  import I = IntentRecords
  import IL = IntentLog
  import W = Wire
  import X = Xattrs
  import opened Kernel
  import opened KernelRuns

  // ---------- a full log ----------

  lemma MadeAndRemoved(s: NR.State, p: nat, n: seq<byte>, ino: nat)
    requires L.Anchored(s.names, s.inodes) && L.LiveDir(s.inodes, p) && (p, n) !in s.names && ino !in s.inodes
               && ino !in s.opens
    ensures var t := NR.Granted(s, NR.Make(p, n, NR.ByMkdir(0)), ino);
            (forall limit: nat :: NR.Verdict(t, NR.DropDir(p, n), limit).Ok?) && NR.Granted(t, NR.DropDir(p, n), 0) == s
  {
    var t := NR.Granted(s, NR.Make(p, n, NR.ByMkdir(0)), ino);
    assert t.inodes - {ino} == s.inodes[p := t.inodes[p]];
    assert t.names - {(p, n)} == s.names && s.opens - {ino} == s.opens;
  }

  lemma MkdirLength(p: nat, n: seq<byte>, ino: nat)
    ensures 22 <= |I.Encode(I.Mkdir(p, n, 0, ino))| <= 277
  {
  }

  function Room(): nat { IL.LOG_BYTES + IL.MAX_PENDING_BYTES }

  /** Making and removing one directory over and over ends, on any engine whose device does not fail, with the
      directory made and ENOSPC for an answer: nothing takes records out of the log. */
  method FillLog(k: KernelEngine, p: nat, n: seq<byte>) returns (r: Result<nat>)
    requires k.Valid() && k.ns.sound && k.LogNow().steady && k.ns.nextIno + Room() + 300 < U64_MAX
    requires L.LiveDir(k.ns.inodes, p) && (p, n) !in k.ns.Tree()
    modifies k.ns, k.data, k.data.pool, k.xattrs, k.xattrs.log
    ensures k.Valid() && r == Err(ENOSPC) && (p, n) in k.ns.Tree() && (p, n) !in old(k.ns.Tree())
  {
    ghost var s, start := NR.Now(k.ns), |W.Concat(k.LogNow().records)|;
    r := Ok(0);
    while r.Ok?
      invariant k.Valid() && k.LogNow().steady
      invariant if r.Ok? then NR.Now(k.ns) == s else r == Err(ENOSPC) && (p, n) in k.ns.Tree()
      invariant var total := |W.Concat(k.LogNow().records)|;
                r.Ok? ==> k.ns.nextIno <= old(k.ns.nextIno) + total - start && (total == start || total <= Room() + 277)
      decreases r.Ok?, Room() - |W.Concat(k.LogNow().records)|
    {
      r := MakeAndRemove(k, p, n);
    }
  }

  /** What the log makes of a mkdir that the tables grant. */
  lemma MkdirAnswer(s: State, p: nat, n: seq<byte>, made: Result<nat>, r: Result<nat>, t: State)
    requires NameFollows(s, NR.Make(p, n, NR.ByMkdir(0)), made, r, t) && s.sound && s.log.steady
    requires L.LiveDir(s.names.inodes, p) && (p, n) !in s.names.names
    ensures made.Ok? && made.value !in s.names.inodes
              && t.names == NR.Granted(s.names, NR.Make(p, n, NR.ByMkdir(0)), made.value)
    ensures t.log.steady && (r.Err? ==> r == Err(ENOSPC))
    ensures r.Ok? ==> s.log.tail + |W.Concat(s.log.pending)| <= Room() || s.log.tail > IL.LOG_BYTES
    ensures r.Ok? ==> r == made && 22 <= |W.Concat(t.log.records)| - |W.Concat(s.log.records)| <= 277
    ensures s.log.tail + |W.Concat(s.log.pending)| <= IL.LOG_BYTES ==> r.Ok?
    ensures t.attrs == s.attrs
  {
    MkdirLength(p, n, made.value);
    assert s.names.inodes.Keys - t.names.inodes.Keys == {};
    IL.OneMore(s.log.records, I.Encode(I.Mkdir(p, n, 0, made.value)));
  }

  method Making(k: KernelEngine, p: nat, n: seq<byte>) returns (r: Result<nat>, ghost ino: nat)
    requires k.Valid() && k.ns.sound && k.LogNow().steady && k.ns.nextIno < U64_MAX
    requires L.LiveDir(k.ns.inodes, p) && (p, n) !in k.ns.Tree()
    modifies k.ns, k.data, k.data.pool, k.xattrs, k.xattrs.log
    ensures k.Valid() && k.LogNow().steady && k.ns.nextIno <= old(k.ns.nextIno) + 1 && (r.Err? ==> r == Err(ENOSPC))
    ensures ino !in old(k.ns.inodes) && NR.Now(k.ns) == NR.Granted(old(NR.Now(k.ns)), NR.Make(p, n, NR.ByMkdir(0)), ino)
    ensures r.Ok? ==> old(|W.Concat(k.LogNow().records)|) <= Room()
    ensures r.Ok? ==>
              r.value == ino && 22 <= |W.Concat(k.LogNow().records)| - old(|W.Concat(k.LogNow().records)|) <= 277
    ensures old(|W.Concat(k.LogNow().records)|) <= IL.LOG_BYTES ==> r.Ok?
    ensures k.xattrs.stores == old(k.xattrs.stores)
  {
    ghost var s := k.Now();
    W.ConcatAppend(k.xattrs.log.flushed, k.xattrs.log.pending);
    ghost var made;
    r, made := k.NameCall(NR.Make(p, n, NR.ByMkdir(0)));
    MkdirAnswer(s, p, n, made, r, k.Now());
    ino := made.value;
  }

  /** Calls that record nothing. */
  lemma QuietAnswer(s: State, c: NR.Call, made: Result<nat>, r: Result<nat>, t: State)
    requires NameFollows(s, c, made, r, t) && (c.DropDir? || c.OpenNode?) && NR.Verdict(s.names, c, s.limit).Ok?
    ensures t.names == NR.Granted(s.names, c, 0) && t.log == s.log
              && t.attrs == s.attrs - (s.names.inodes.Keys - t.names.inodes.Keys)
  {
  }

  method Quietly(k: KernelEngine, c: NR.Call)
    requires k.Valid() && k.ns.nextIno < U64_MAX && (c.DropDir? || c.OpenNode?)
               && NR.Verdict(NR.Now(k.ns), c, k.ns.walkLimit).Ok?
    modifies k.ns, k.data, k.data.pool, k.xattrs, k.xattrs.log
    ensures k.Valid() && k.LogNow() == old(k.LogNow()) && k.ns.nextIno <= old(k.ns.nextIno) + 1
    ensures NR.Now(k.ns) == NR.Granted(old(NR.Now(k.ns)), c, 0)
    ensures k.xattrs.stores == old(k.xattrs.stores) - (old(k.ns.inodes.Keys) - k.ns.inodes.Keys)
  {
    ghost var s := k.Now();
    var r;
    ghost var made;
    r, made := k.NameCall(c);
    QuietAnswer(s, c, made, r, k.Now());
  }

  method MakeAndRemove(k: KernelEngine, p: nat, n: seq<byte>) returns (r: Result<nat>)
    requires k.Valid() && k.ns.sound && k.LogNow().steady && k.ns.nextIno + 1 < U64_MAX
    requires L.LiveDir(k.ns.inodes, p) && (p, n) !in k.ns.Tree()
    modifies k.ns, k.data, k.data.pool, k.xattrs, k.xattrs.log
    ensures k.Valid() && k.LogNow().steady && k.ns.nextIno <= old(k.ns.nextIno) + 2
    ensures if r.Ok? then NR.Now(k.ns) == old(NR.Now(k.ns)) else r == Err(ENOSPC) && (p, n) in k.ns.Tree()
    ensures r.Ok? ==> old(|W.Concat(k.LogNow().records)|) <= Room()
    ensures r.Ok? ==> 22 <= |W.Concat(k.LogNow().records)| - old(|W.Concat(k.LogNow().records)|) <= 277
  {
    ghost var s := NR.Now(k.ns);
    NothingLeft(k);
    ghost var ino;
    r, ino := Making(k, p, n);
    if r.Ok? {
      MadeAndRemoved(s, p, n, ino);
      Quietly(k, NR.DropDir(p, n));
    }
  }

  lemma {:induction false} WholeTimes(n: nat, unit: nat)
    requires unit > 0
    ensures Whole(n * unit, unit)
  {
    if n > 0 {
      WholeTimes(n - 1, unit);
      assert n * unit == (n - 1) * unit + unit;
    }
  }

  method FreshPool(blocks: nat) returns (pool: BlockPool)
    requires 4096 <= blocks <= U32_MAX
    ensures fresh(pool) && pool.Valid() && pool.Healthy(|pool.image|) && |pool.image| == blocks * 4096
    ensures pool.dataBase == 64 * 1024 * 1024
  {
    var size := blocks * 4096;
    WholeTimes(blocks, 4096);
    pool := new BlockPool(Zeros(size), true, 4096, 4096, 64 * 1024 * 1024);
  }

  method EmptyRoot(root: nat, pool: BlockPool) returns (data: D.LiveEngine)
    requires pool.Valid()
    ensures fresh(data) && data.Valid() && data.Covered() && data.pool == pool && data.sizes.Keys == {root}
  {
    data := new D.LiveEngine(pool, true, None);
    data.CreateFile(root, 0);
  }

  /** An engine on an empty, sound device with its file data area. */
  method Fresh(root: nat, pool: BlockPool) returns (k: KernelEngine)
    requires pool.Valid() && pool.Healthy(|pool.image|) && pool.dataBase == 64 * 1024 * 1024 < |pool.image|
    requires 0 < root < U64_MAX
    ensures fresh(k) && fresh(k.ns) && fresh(k.data) && fresh(k.xattrs) && fresh(k.xattrs.log) && k.data.pool == pool
    ensures k.Valid() && k.ns.sound && k.LogNow().steady && k.LogNow().records == [] && k.xattrs.stores == map[]
    ensures k.ns.nextIno <= root + 1 && k.ns.Tree() == map[] && L.LiveDir(k.ns.inodes, root) && k.data.Covered()
  {
    var log := new IL.IntentLog(pool, 4096, true);
    var data := EmptyRoot(root, pool);
    var ns := new N.Namespace(root, true);
    var xattrs := new X.XattrStore(log, map[]);
    k := new KernelEngine(ns, data, xattrs);
  }

  /** A mkdir on a sound device that is told there is no space, with the directory there. */
  method FullLogMkdir(root: nat, name: seq<byte>) returns (k: KernelEngine, r: Result<nat>)
    requires 0 < root <= U32_MAX
    ensures k.Valid() && r == Err(ENOSPC) && (root, name) in k.ns.Tree()
  {
    var pool := FreshPool(0x8000);
    k := Fresh(root, pool);
    r := FillLog(k, root, name);
  }

  // ---------- an attribute without a record ----------

  lemma OpenedAndRemoved(s: NR.State, p: nat, n: seq<byte>, ino: nat, limit: nat)
    requires L.Anchored(s.names, s.inodes) && L.LiveDir(s.inodes, p) && (p, n) !in s.names && ino !in s.inodes
    ensures var made := NR.Granted(s, NR.Make(p, n, NR.ByMkdir(0)), ino);
            var held := NR.Granted(made, NR.OpenNode(ino), 0);
            && NR.Verdict(made, NR.OpenNode(ino), limit).Ok? && NR.Verdict(held, NR.DropDir(p, n), limit).Ok?
            && ino !in NR.Granted(held, NR.DropDir(p, n), 0).inodes
  {
  }

  /** A new attribute, while the log has room. */
  lemma SetAnswer(s: State, i: nat, name: seq<byte>, value: seq<byte>, r: Result<()>, t: State)
    requires AttrFollows(s, SetAttr(i, name, value, 0), r, t) && X.SetVerdict(X.Of(s.attrs, i), name, value, 0).Ok?
    requires s.log.steady && s.log.tail + |W.Concat(s.log.pending)| <= IL.LOG_BYTES
    ensures r.Ok? && X.Get(t.attrs, i, name) == Some(value)
  {
  }

  method Setting(k: KernelEngine, i: nat, name: seq<byte>, value: seq<byte>) returns (r: Result<()>)
    requires k.Valid() && k.LogNow().steady && |W.Concat(k.LogNow().records)| <= IL.LOG_BYTES
    requires X.SetVerdict(X.Of(k.xattrs.stores, i), name, value, 0).Ok?
    modifies k.xattrs, k.xattrs.log, k.data.pool
    ensures k.Valid() && r.Ok? && X.Get(k.xattrs.stores, i, name) == Some(value)
  {
    W.ConcatAppend(k.xattrs.log.flushed, k.xattrs.log.pending);
    ghost var s := k.Now();
    r := k.ChangeAttr(SetAttr(i, name, value, 0));
    SetAnswer(s, i, name, value, r, k.Now());
  }

  method OpenedAndGone(k: KernelEngine, p: nat, n: seq<byte>) returns (ino: nat)
    requires k.Valid() && k.ns.sound && k.LogNow().steady && k.ns.nextIno + 2 < U64_MAX
    requires L.LiveDir(k.ns.inodes, p) && (p, n) !in k.ns.Tree() && |W.Concat(k.LogNow().records)| <= IL.LOG_BYTES
    modifies k.ns, k.data, k.data.pool, k.xattrs, k.xattrs.log
    ensures k.Valid() && k.LogNow().steady && ino !in k.ns.inodes && k.xattrs.stores.Keys <= old(k.xattrs.stores.Keys)
    ensures |W.Concat(k.LogNow().records)| <= old(|W.Concat(k.LogNow().records)|) + 277
  {
    ghost var s := NR.Now(k.ns);
    var r;
    ghost var made;
    r, made := Making(k, p, n);
    ino := r.value;
    OpenedAndRemoved(s, p, n, ino, k.ns.walkLimit);
    Quietly(k, NR.OpenNode(ino));
    Quietly(k, NR.DropDir(p, n));
  }

  method LeaveAttribute(k: KernelEngine, p: nat, n: seq<byte>, name: seq<byte>, value: seq<byte>)
    returns (ino: nat, r: Result<()>)
    requires k.Valid() && k.ns.sound && k.LogNow().steady && k.ns.nextIno + 2 < U64_MAX
    requires L.LiveDir(k.ns.inodes, p) && (p, n) !in k.ns.Tree() && |W.Concat(k.LogNow().records)| + 277 <= IL.LOG_BYTES
    requires k.xattrs.stores == map[] && X.SetVerdict([], name, value, 0).Ok?
    modifies k.ns, k.data, k.data.pool, k.xattrs, k.xattrs.log
    ensures k.Valid() && r.Ok? && ino !in k.ns.inodes && X.Get(k.xattrs.stores, ino, name) == Some(value)
  {
    ino := OpenedAndGone(k, p, n);
    r := Setting(k, ino, name, value);
  }

  /** Make a directory, open it, remove it, and set an attribute through the open handle: the attribute is there, and
      there is no record of the directory. */
  method LeftoverAttribute(root: nat, n: seq<byte>, name: seq<byte>, value: seq<byte>)
    returns (k: KernelEngine, ino: nat, r: Result<()>)
    requires 0 < root <= U32_MAX && X.SetVerdict([], name, value, 0).Ok?
    ensures k.Valid() && r.Ok? && ino !in k.ns.inodes && X.Get(k.xattrs.stores, ino, name) == Some(value)
  {
    var pool := FreshPool(0x8000);
    k := Fresh(root, pool);
    assert W.Concat([]) == [];
    ino, r := LeaveAttribute(k, root, n, name, value);
  }
}
