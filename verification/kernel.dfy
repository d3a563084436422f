/** The engine as a whole: names and inode records, file data, attributes and the intent log, on one device. */
module Kernel {
  import opened Common
  import opened Pool
  import L = Links
  import N = Namespace
  import NR = NamespaceRuns
  import B = WriteBuffer
  import BO = BufferOps
  import E = Extents
  import D = LiveData
  import R = Runs
  import I = IntentRecords
  import IL = IntentLog
  import X = Xattrs

  function Found(names: L.Names, k: L.Key): Option<L.Target> { if k in names then Some(names[k]) else None }

  function ChildOf(t: Option<L.Target>): Option<nat> { if t.Some? then Some(t.value.child) else None }

  /** The name a call takes away or moves, and the name it moves to. */
  function Taken(c: NR.Call): Option<L.Key> {
    match c
    case DropFile(p, n) => Some((p, n))
    case DropDir(p, n) => Some((p, n))
    case Move(p, n, _, _, _) => Some((p, n))
    case _ => None
  }

  function Given(c: NR.Call): Option<L.Key> { if c.Move? then Some((c.newParent, c.newName)) else None }

  /** The intent a granted call records once it has done its work, when `src` and `dst` were under those names. Unlink,
      rmdir, open, close and unnamed files record none, and neither does a rename of a name to itself. */
  function IntentWith(c: NR.Call, ino: nat, src: Option<L.Target>, dst: Option<L.Target>): (op: Option<I.Intent>)
    ensures op.Some? ==> !op.value.SetXattr? && !op.value.RemoveXattr?
  {
    match c
    case Make(p, n, how) =>
      (match how
       case ByCreate(mode) => Some(I.Create(p, n, mode, ino))
       case ByMkdir(mode) => Some(I.Mkdir(p, n, mode, ino))
       case BySymlink(path) => Some(I.Symlink(p, n, path, ino))
       case ByMknod(mode, rdev) => Some(I.Mknod(p, n, mode, rdev, ino)))
    case AddName(t, p, n) => Some(I.Link(t, p, n))
    case Move(p, n, q, o, _) =>
      if (p, n) == (q, o) || src.None? then None else Some(I.Rename(p, n, q, o, src.value.child, ChildOf(dst)))
    case _ => None
  }

  /** A call the tables refuse records nothing. */
  function IntentFor(c: NR.Call, made: Result<nat>, src: Option<L.Target>,
                     dst: Option<L.Target>): (op: Option<I.Intent>)
    ensures op.Some? ==> made.Ok? && !op.value.SetXattr? && !op.value.RemoveXattr?
  {
    if made.Ok? then IntentWith(c, made.value, src, dst) else None
  }

  /** The inode whose record the call may take away. */
  function EndangeredBy(c: NR.Call, src: Option<L.Target>, dst: Option<L.Target>): Option<nat> {
    match c
    case DropFile(_, _) => ChildOf(src)
    case DropDir(_, _) => ChildOf(src)
    case Move(_, _, _, _, _) => ChildOf(dst)
    case CloseNode(i) => Some(i)
    case _ => None
  }

  ghost function Sources(s: NR.State, c: NR.Call): Option<L.Target>
  {
    if Taken(c).Some? then Found(s.names, Taken(c).value) else None
  }

  ghost function Targets(s: NR.State, c: NR.Call): Option<L.Target>
  {
    if Given(c).Some? then Found(s.names, Given(c).value) else None
  }

  ghost predicate Seen(s: NR.State, c: NR.Call, src: Option<L.Target>, dst: Option<L.Target>)
  {
    src == Sources(s, c) && dst == Targets(s, c)
  }

  ghost function IntentOf(s: NR.State, c: NR.Call, ino: nat): Option<I.Intent>
  {
    IntentWith(c, ino, Sources(s, c), Targets(s, c))
  }

  ghost function Endangered(s: NR.State, c: NR.Call): Option<nat> { EndangeredBy(c, Sources(s, c), Targets(s, c)) }

  /** A granted call adds the record it was given a number for, and takes away at most the endangered one. */
  lemma RecordsAfter(s: NR.State, c: NR.Call, ino: nat, limit: nat)
    requires NR.Verdict(s, c, limit).Ok?
               && (forall k :: k in s.names ==> k.0 in s.inodes && s.names[k].child in s.inodes)
    ensures var t := NR.Granted(s, c, ino);
            if NR.Allocates(c) then t.inodes.Keys == s.inodes.Keys + {ino}
            else
              && t.inodes.Keys <= s.inodes.Keys
              && forall i :: i in s.inodes && Endangered(s, c) != Some(i) ==> i in t.inodes
  {
  }

  /** What of the log a caller can see before a call: its length, the records waiting in the buffer, whether the device
      can stand in the way; and all records accepted so far. */
  datatype LogState = LogState(tail: nat, pending: seq<seq<byte>>, steady: bool, records: seq<seq<byte>>)

  ghost function LogOf(log: IL.IntentLog): LogState
    reads log, log.pool
  {
    LogState(log.tail, log.pending, log.Holding() || !log.active, log.flushed + log.pending)
  }

  datatype State = State(names: NR.State, sound: bool, limit: nat, log: LogState, attrs: map<nat, X.Attrs>,
    data: R.State)

  /** The size of what the call makes: a symbolic link is as long as its target. */
  function BornSize(c: NR.Call): nat { if c.Make? && c.how.BySymlink? then |c.how.path| else 0 }

  /** Staged data stays over stored bytes. */
  ghost predicate CoverKept(s: R.State, t: R.State) { t.active == s.active && (R.Covered(s) ==> R.Covered(t)) }

  /** Files that are there before and after are the same byte for byte; a new file has its size and is all zeros. */
  ghost predicate FilesKept(s: R.State, t: R.State, born: nat) {
    && CoverKept(s, t)
    && (forall i :: i in s.sizes && i in t.sizes ==> t.sizes[i] == s.sizes[i] && R.SameBytes(s, t, i))
    && (forall i :: i in t.sizes && i !in s.sizes ==> t.sizes[i] == born)
    && (forall i, k: nat :: i in t.sizes && i !in s.sizes ==> R.ByteAt(t, i, k) == 0)
  }

  lemma LogWritesElsewhere(s: R.State, t: R.State)
    requires t == s.(image := t.image, roomy := t.roomy) && SameFrom(s.image, t.image, s.base)
    ensures forall i: nat :: R.SameBytes(s, t, i)
  {
    forall i: nat, k: nat ensures R.ByteAt(t, i, k) == R.ByteAt(s, i, k) {
    }
  }

  /** A call on names: `made` is what became of it in the tables. Refused by the tables it has changed nothing and gets
      their answer. Granted, it has been carried out, and gets the answer of the log if it records an intent: the
      record comes last, so a refusal by the log comes too late. */
  ghost predicate NameFollows(s: State, c: NR.Call, made: Result<nat>, r: Result<nat>, t: State) {
    && t.sound == s.sound && t.limit == s.limit && t.data.sizes.Keys == t.names.inodes.Keys
    && FilesKept(s.data, t.data, BornSize(c)) && t.attrs == s.attrs - (s.names.inodes.Keys - t.names.inodes.Keys)
    && InTables(s.names, c, s.limit, s.sound, made, t.names)
    && Answered(s.log, IntentFor(c, made, Sources(s.names, c), Targets(s.names, c)), made, r, t.log)
  }

  /** The part of that before the log is asked. */
  ghost predicate TablesChanged(s: State, c: NR.Call, made: Result<nat>, t: State) {
    && t == s.(names := t.names, attrs := t.attrs, data := t.data) && t.data.sizes.Keys == t.names.inodes.Keys
    && FilesKept(s.data, t.data, BornSize(c)) && t.attrs == s.attrs - (s.names.inodes.Keys - t.names.inodes.Keys)
    && InTables(s.names, c, s.limit, s.sound, made, t.names)
  }

  /** And the rest of it. */
  ghost predicate Recorded(s: State, op: Option<I.Intent>, made: Result<nat>, r: Result<nat>, t: State) {
    && t == s.(log := t.log, data := t.data) && t.data.sizes == s.data.sizes
    && CoverKept(s.data, t.data) && (forall i: nat :: R.SameBytes(s.data, t.data, i))
    && Answered(s.log, op, made, r, t.log)
  }

  lemma ChangedThenRecorded(s: State, c: NR.Call, op: Option<I.Intent>, made: Result<nat>, m: State, r: Result<nat>,
                            t: State)
    requires TablesChanged(s, c, made, m) && Recorded(m, op, made, r, t)
    requires op == IntentFor(c, made, Sources(s.names, c), Targets(s.names, c))
    ensures NameFollows(s, c, made, r, t)
  {
    forall i, k: nat | i in t.data.sizes && i !in s.data.sizes ensures R.ByteAt(t.data, i, k) == 0 {
      assert R.SameBytes(m.data, t.data, i) && R.ByteAt(m.data, i, k) == 0;
    }
    forall i | i in s.data.sizes && i in t.data.sizes ensures R.SameBytes(s.data, t.data, i) {
      assert R.SameBytes(s.data, m.data, i) && R.SameBytes(m.data, t.data, i);
    }
  }

  ghost predicate Answered(log: LogState, op: Option<I.Intent>, made: Result<nat>, r: Result<nat>, log': LogState) {
    match op
    case None => r == made && log' == log
    case Some(op) =>
      && (r.Ok? ==> r == made)
      && IL.RecordTruth(log.tail, log.pending, log.steady, I.Encode(op), if r.Ok? then Ok(()) else Err(r.errno))
      && log'.steady == log.steady && log'.records == log.records + if r.Ok? then [I.Encode(op)] else []
  }

  /** What the tables make of a call. */
  ghost predicate InTables(s: NR.State, c: NR.Call, limit: nat, sound: bool, made: Result<nat>, t: NR.State) {
    var v := NR.Verdict(s, c, limit);
    && (made.Err? ==> t == s && (v == Err(made.errno) || (v.Ok? && NR.Allocates(c) && made.errno == EIO && !sound)))
    && (made.Ok? ==> v.Ok? && t == NR.Granted(s, c, made.value) && (NR.Allocates(c) ==> made.value !in s.inodes))
  }

  /** The calls on extended attributes. Neither looks at the inode table. */
  datatype AttrCall = SetAttr(ino: nat, name: I.Name, value: X.Value, flags: nat) | RemoveAttr(ino: nat, name: I.Name)

  ghost function AttrVerdict(attrs: map<nat, X.Attrs>, a: AttrCall): Result<()> {
    match a
    case SetAttr(i, n, v, flags) => X.SetVerdict(X.Of(attrs, i), n, v, flags)
    case RemoveAttr(i, n) => X.RemoveVerdict(X.Of(attrs, i), n)
  }

  function AttrIntent(a: AttrCall): I.Intent {
    match a
    case SetAttr(i, n, v, _) => I.Intent.SetXattr(i, X.NamespaceByte(n), n, v)
    case RemoveAttr(i, n) => I.Intent.RemoveXattr(i, X.NamespaceByte(n), n)
  }

  function NewValue(a: AttrCall): Option<X.Value> { if a.SetAttr? then Some(a.value) else None }

  /** A call on attributes: refused by the attributes it gets their answer, otherwise the answer of the log, which is
      asked first; and one value of one inode changes if the answer is good. Names and files are left alone. */
  ghost predicate AttrFollows(s: State, a: AttrCall, r: Result<()>, t: State) {
    && t == s.(log := t.log, attrs := t.attrs, data := t.data)
    && t.data.sizes == s.data.sizes && t.data.extents == s.data.extents && t.data.buffer == s.data.buffer
    && t.data.active == s.data.active
    && (forall i: nat :: R.SameBytes(s.data, t.data, i))
    && (forall i, n ::
         X.Get(t.attrs, i, n) == if r.Ok? && i == a.ino && n == a.name then NewValue(a) else X.Get(s.attrs, i, n))
    && AttrAnswered(s.log, AttrVerdict(s.attrs, a), I.Encode(AttrIntent(a)), r, t.log)
  }

  ghost predicate AttrAnswered(log: LogState, verdict: Result<()>, entry: seq<byte>, r: Result<()>, log': LogState) {
    if verdict.Err? then r == verdict && log' == log
    else
      && IL.RecordTruth(log.tail, log.pending, log.steady, entry, r) && log'.steady == log.steady
      && log'.records == log.records + if r.Ok? then [entry] else []
  }

  /** The records that come and go with a call. */
  ghost predicate RecordStep(was: set<nat>, c: NR.Call, endangered: Option<nat>, made: Result<nat>, now: set<nat>) {
    if made.Err? then now == was
    else if NR.Allocates(c) then made.value !in was && now == was + {made.value}
    else now <= was && forall i :: i in was && endangered != Some(i) ==> i in now
  }

  class KernelEngine {
    const ns: N.Namespace
    const data: D.LiveEngine
    const xattrs: X.XattrStore

    constructor (ns: N.Namespace, data: D.LiveEngine, xattrs: X.XattrStore)
      requires ns.Valid() && data.Valid() && xattrs.Valid() && xattrs.log.pool == data.pool
      requires xattrs.log.base + IL.LOG_BYTES + MAX_SECTOR_SIZE <= data.pool.dataBase
      requires data.sizes.Keys == ns.inodes.Keys
      ensures Valid() && this.ns == ns && this.data == data && this.xattrs == xattrs
    {
      this.ns, this.data, this.xattrs := ns, data, xattrs;
    }

    /** The parts are in order, the log ends before the file data begins, and there is a file for every record. */
    ghost predicate Valid()
      reads this, ns, data, data.pool, xattrs, xattrs.log, xattrs.log.pool
    {
      ns.Valid() && Backed() && data.sizes.Keys == ns.inodes.Keys
    }

    ghost predicate Backed()
      reads data, data.pool, xattrs, xattrs.log, xattrs.log.pool
    {
      && data.Valid() && xattrs.Valid()
      && xattrs.log.pool == data.pool && xattrs.log.base + IL.LOG_BYTES + MAX_SECTOR_SIZE <= data.pool.dataBase
    }

    ghost function LogNow(): LogState
      reads xattrs, xattrs.log, xattrs.log.pool
    {
      LogOf(xattrs.log)
    }

    ghost function Now(): State
      reads this, ns, data, data.pool, xattrs, xattrs.log, xattrs.log.pool
    {
      State(NR.Now(ns), ns.sound, ns.walkLimit, LogNow(), xattrs.stores, R.StateOf(data))
    }

    /** `record_intent_entry` */
    method Record(op: I.Intent) returns (r: Result<()>)
      requires Backed() && !op.SetXattr? && !op.RemoveXattr?
      modifies xattrs`events, xattrs.log, data.pool
      ensures Backed() && xattrs.log.flushed + xattrs.log.pending
                == old(xattrs.log.flushed + xattrs.log.pending) + (if r.Ok? then [I.Encode(op)] else [])
      ensures IL.RecordTruth(old(xattrs.log.tail), old(xattrs.log.pending), old(LogNow()).steady, I.Encode(op), r)
      ensures LogNow().steady == old(LogNow()).steady
      ensures data.sizes == old(data.sizes) && forall i: nat :: R.SameBytes(old(R.StateOf(data)), R.StateOf(data), i)
    {
      ghost var s := R.StateOf(data);
      ghost var events := xattrs.events;
      r := xattrs.NoteOther(op);
      if r.Ok? { X.OneOpMore(events, op); }
      LogWritesElsewhere(s, R.StateOf(data));
    }

    /** `remove_transient_inode_state` for an inode whose record has just gone. */
    method Forget(i: nat)
      requires data.Valid() && xattrs.Valid() && i in data.sizes
      modifies data, xattrs
      ensures data.Valid() && xattrs.Valid() && data.sizes == old(data.sizes) - {i}
      ensures forall j: nat, k: nat :: j != i ==> data.Byte(j, k) == old(data.Byte(j, k))
      ensures old(data.Covered()) ==> data.Covered()
      ensures xattrs.stores == old(xattrs.stores) - {i}
    {
      data.RemoveFile(i);
      xattrs.Forget(i);
    }

    method Look(k: Option<L.Key>) returns (t: Option<L.Target>)
      requires ns.Valid()
      ensures t == if k.Some? then Found(ns.Tree(), k.value) else None
    {
      t := None;
      if k.Some? { t := ns.FindDirEntry(k.value.0, k.value.1); }
    }

    /** The calls that change names or handles. */
    method NameCall(c: NR.Call) returns (r: Result<nat>, ghost made: Result<nat>)
      requires Valid() && ns.nextIno < U64_MAX
      modifies ns, data, data.pool, xattrs, xattrs.log
      ensures Valid() && ns.nextIno <= old(ns.nextIno) + 1
      ensures NameFollows(old(Now()), c, made, r, Now())
    {
      var src := Look(Taken(c));
      var dst := Look(Given(c));
      r, made := Carry(c, src, dst);
    }

    method Carry(c: NR.Call, src: Option<L.Target>, dst: Option<L.Target>)
      returns (r: Result<nat>, ghost made: Result<nat>)
      requires Valid() && ns.nextIno < U64_MAX && Seen(NR.Now(ns), c, src, dst)
      modifies ns, data, data.pool, xattrs, xattrs.log
      ensures Valid() && ns.nextIno <= old(ns.nextIno) + 1
      ensures NameFollows(old(Now()), c, made, r, Now())
    {
      ghost var s := Now();
      var done := ChangeTables(c, src, dst);
      made := done;
      ghost var m := Now();
      r := Answer(IntentFor(c, done, src, dst), done);
      ChangedThenRecorded(s, c, IntentFor(c, done, src, dst), made, m, r, Now());
    }

    /** The intent, if there is one, goes into the log last. */
    method Answer(op: Option<I.Intent>, made: Result<nat>) returns (r: Result<nat>)
      requires Valid() && (op.Some? ==> made.Ok? && !op.value.SetXattr? && !op.value.RemoveXattr?)
      modifies xattrs`events, xattrs.log, data.pool
      ensures Valid() && ns.nextIno == old(ns.nextIno) && Recorded(old(Now()), op, made, r, Now())
    {
      r := made;
      if op.Some? {
        var l := Record(op.value);
        if l.Err? { r := Err(l.errno); }
      }
    }

    /** The tables change, and with the records the files. */
    method ChangeTables(c: NR.Call, src: Option<L.Target>, dst: Option<L.Target>) returns (r: Result<nat>)
      requires Valid() && ns.nextIno < U64_MAX && Seen(NR.Now(ns), c, src, dst)
      modifies ns, data, xattrs
      ensures Valid() && ns.nextIno <= old(ns.nextIno) + 1
      ensures TablesChanged(old(Now()), c, r, Now())
    {
      ghost var was, d, log, attrs := ns.inodes.Keys, R.StateOf(data), LogNow(), xattrs.stores;
      r := Tables(ns, c, src, dst);
      assert Backed() && data.sizes.Keys == was && R.StateOf(data) == d && LogNow() == log;
      SyncFiles(c, EndangeredBy(c, src, dst), r, was, d);
      assert Valid() && LogNow() == log && xattrs.stores == attrs - (was - ns.inodes.Keys);
    }

    static method Tables(ns: N.Namespace, c: NR.Call, ghost src: Option<L.Target>, ghost dst: Option<L.Target>)
      returns (r: Result<nat>)
      requires ns.Valid() && ns.nextIno < U64_MAX && Seen(NR.Now(ns), c, src, dst)
      modifies ns
      ensures ns.Valid() && ns.nextIno <= old(ns.nextIno) + 1
      ensures InTables(old(NR.Now(ns)), c, ns.walkLimit, ns.sound, r, NR.Now(ns))
      ensures RecordStep(old(ns.inodes.Keys), c, EndangeredBy(c, src, dst), r, ns.inodes.Keys)
    {
      ghost var s := NR.Now(ns);
      assert L.Anchored(s.names, s.inodes);
      r := NR.Do(ns, c);
      if r.Ok? { RecordsAfter(s, c, r.value, ns.walkLimit); }
    }

    /** A file for every record, again. */
    method SyncFiles(c: NR.Call, endangered: Option<nat>, made: Result<nat>, ghost was: set<nat>, ghost d: R.State)
      requires Backed() && R.StateOf(data) == d && data.sizes.Keys == was
      requires RecordStep(was, c, endangered, made, ns.inodes.Keys)
      modifies data, xattrs
      ensures NR.Now(ns) == old(NR.Now(ns)) && (old(ns.Valid()) ==> ns.Valid())
      ensures Backed() && data.sizes.Keys == ns.inodes.Keys && LogNow() == old(LogNow())
      ensures FilesKept(d, R.StateOf(data), BornSize(c))
      ensures xattrs.stores == old(xattrs.stores) - (was - ns.inodes.Keys)
    {
      if made.Ok? {
        if NR.Allocates(c) {
          AddFile(made.value, BornSize(c));
        } else {
          DropFile(endangered, BornSize(c));
        }
      }
    }

    method AddFile(i: nat, size: nat)
      requires data.Valid() && i !in data.sizes
      modifies data`sizes
      ensures data.Valid() && data.sizes.Keys == old(data.sizes).Keys + {i}
      ensures FilesKept(old(R.StateOf(data)), R.StateOf(data), size)
    {
      data.CreateFile(i, size);
    }

    method DropFile(endangered: Option<nat>, ghost born: nat)
      requires data.Valid() && xattrs.Valid() && ns.inodes.Keys <= data.sizes.Keys
      requires forall i :: i in data.sizes && endangered != Some(i) ==> i in ns.inodes
      modifies data, xattrs
      ensures data.Valid() && xattrs.Valid() && data.sizes.Keys == ns.inodes.Keys
      ensures FilesKept(old(R.StateOf(data)), R.StateOf(data), born)
      ensures xattrs.stores == old(xattrs.stores) - (old(data.sizes.Keys) - ns.inodes.Keys)
    {
      if endangered.Some? && endangered.value !in ns.inodes && endangered.value in data.sizes {
        ghost var s := R.StateOf(data);
        Forget(endangered.value);
        forall i | i in s.sizes && i in data.sizes ensures R.SameBytes(s, R.StateOf(data), i) {
          forall k: nat ensures R.ByteAt(R.StateOf(data), i, k) == R.ByteAt(s, i, k) {
            assert data.Byte(i, k) == old(data.Byte(i, k));
          }
        }
      }
    }

    /** The calls on extended attributes. */
    method ChangeAttr(a: AttrCall) returns (r: Result<()>)
      requires Valid()
      modifies xattrs, xattrs.log, data.pool
      ensures Valid() && AttrFollows(old(Now()), a, r, Now())
    {
      ghost var s := R.StateOf(data);
      r := Attributes(xattrs, a);
      LogWritesElsewhere(s, R.StateOf(data));
    }

    static method Attributes(xattrs: X.XattrStore, a: AttrCall) returns (r: Result<()>)
      requires xattrs.Valid()
      modifies xattrs, xattrs.log, xattrs.log.pool
      ensures xattrs.Valid() && SameFrom(old(xattrs.log.pool.image), xattrs.log.pool.image,
                xattrs.log.base + IL.LOG_BYTES + MAX_SECTOR_SIZE)
      ensures forall i, n :: X.Get(xattrs.stores, i, n)
                          == if r.Ok? && i == a.ino && n == a.name then NewValue(a) else old(X.Get(xattrs.stores, i, n))
      ensures AttrAnswered(old(LogOf(xattrs.log)), AttrVerdict(old(xattrs.stores), a), I.Encode(AttrIntent(a)), r,
                LogOf(xattrs.log))
    {
      ghost var events := xattrs.events;
      match a {
        case SetAttr(i, n, v, flags) => r := xattrs.SetXattr(i, n, v, flags);
        case RemoveAttr(i, n) => r := xattrs.RemoveXattr(i, n);
      }
      if r.Ok? { X.OneOpMore(events, AttrIntent(a)); }
    }

    /** The calls that read or change file data. */
    method DataCall(step: R.Step) returns (out: R.Outcome)
      requires Valid() && !step.DoCreate? && !step.DoRemove?
      modifies data, data.pool
      ensures Valid() && LogNow() == old(LogNow())
      ensures R.Follows(old(R.StateOf(data)), step, out, R.StateOf(data))
    {
      out := DataStep(data, xattrs.log, step);
    }

    /** The log lies below the file data and is not touched. */
    static method DataStep(data: D.LiveEngine, ghost log: IL.IntentLog, step: R.Step) returns (out: R.Outcome)
      requires data.Valid() && log.Valid() && log.pool == data.pool && log.base + IL.LOG_BYTES <= data.pool.dataBase
      requires !step.DoCreate? && !step.DoRemove?
      modifies data, data.pool
      ensures data.Valid() && log.Valid() && |data.pool.image| == |old(data.pool.image)|
                && data.sizes.Keys == old(data.sizes).Keys
      ensures R.Follows(old(R.StateOf(data)), step, out, R.StateOf(data))
    {
      ghost var was := data.pool.image;
      out := R.Do(data, step);
      if log.active && log.tail > 0 {
        assert data.pool.image[log.base..log.base + log.tail] == was[log.base..log.base + log.tail];
      }
    }
  }
}
