/** Whole runs of the engine: calls on names and on data in any order. */
module KernelRuns {
  import opened Common
  import opened Pool
  import L = Links
  import N = Namespace
  import NR = NamespaceRuns
  import B = WriteBuffer
  import BO = BufferOps
  import E = Extents
  import D = LiveData
  import R = Runs
  import Seek
  import I = IntentRecords
  import IL = IntentLog
  import W = Wire
  import X = Xattrs
  import opened Kernel

  datatype Call = Names(c: NR.Call) | Data(step: R.Step) | Attrs(a: AttrCall)

  datatype Reply = Told(r: Result<nat>) | Out(out: R.Outcome) | Answered(answer: Result<()>)

  /** Files come and go with names and handles only. */
  predicate Proper(c: Call) { c.Data? ==> !c.step.DoCreate? && !c.step.DoRemove? }

  /** `t` may follow `s`; `made` is what became of a call on names in the tables. */
  ghost predicate Follows(s: State, c: Call, made: Result<nat>, r: Reply, t: State) {
    match c
    case Names(c) => r.Told? && NameFollows(s, c, made, r.r, t)
    case Data(step) =>
      && r.Out? && R.Follows(s.data, step, r.out, t.data)
      && t == s.(data := t.data) && t.data.sizes.Keys == s.data.sizes.Keys
    case Attrs(a) => r.Answered? && AttrFollows(s, a, r.answer, t)
  }

  /** Link counts are right; there is a file for every record, every name and every handle has a record, and no extent
      and no staged entry belongs to an inode without one. */
  ghost predicate Good(s: State) {
    && L.Linked(s.names.names, s.names.inodes) && B.AllStaged(s.data.buffer)
    && s.data.sizes.Keys == s.names.inodes.Keys
    && (forall k :: k in s.names.names ==> s.names.names[k].child in s.names.inodes)
    && (forall i :: i in s.names.opens ==> i in s.names.inodes)
    && (forall e :: e in s.data.extents ==> e.ino in s.names.inodes)
    && (forall e :: e in s.data.buffer ==> e.ino in s.names.inodes)
  }

  lemma NothingLeft(k: KernelEngine)
    requires k.Valid()
    ensures Good(k.Now())
  {
    var d := k.data;
    forall e | e in d.extents ensures e.ino in k.ns.inodes {
      assert E.WellFormed(e);
      D.MappedHere(d.extents, e);
      assert !E.At(d.extents, e.ino, e.start).Hole?;
    }
    forall e | e in d.buffer ensures e.ino in k.ns.inodes {
      BO.LastByteOverlaid(d.buffer, e);
    }
    assert L.Anchored(k.ns.Tree(), k.ns.inodes);
  }

  method Do(k: KernelEngine, c: Call) returns (r: Reply, ghost made: Result<nat>)
    requires k.Valid() && k.ns.nextIno < U64_MAX && Proper(c)
    modifies k.ns, k.data, k.data.pool, k.xattrs, k.xattrs.log
    ensures k.Valid() && k.ns.nextIno <= old(k.ns.nextIno) + 1
    ensures Follows(old(k.Now()), c, made, r, k.Now())
  {
    match c {
      case Names(n) =>
        var x;
        x, made := k.NameCall(n);
        r := Told(x);
      case Data(step) =>
        var out := k.DataCall(step);
        r, made := Out(out), Ok(0);
      case Attrs(a) =>
        var answer := k.ChangeAttr(a);
        r, made := Answered(answer), Ok(0);
    }
  }

  ghost predicate IsRun(calls: seq<Call>, mades: seq<Result<nat>>, replies: seq<Reply>, trace: seq<State>) {
    && |mades| == |replies| == |calls| && |trace| == |calls| + 1
    && (forall n {:trigger Good(trace[n])} :: 0 <= n < |trace| ==> Good(trace[n]))
    && (forall n :: 0 <= n < |calls| ==> Follows(trace[n], calls[n], mades[n], replies[n], trace[n + 1]))
  }

  method DoNext(k: KernelEngine, calls: seq<Call>, i: nat, ghost mades: seq<Result<nat>>, ghost replies: seq<Reply>,
                ghost trace: seq<State>)
    returns (r: Reply, ghost made: Result<nat>)
    requires k.Valid() && i < |calls| && Proper(calls[i]) && k.ns.nextIno < U64_MAX
    requires IsRun(calls[..i], mades, replies, trace) && trace[i] == k.Now()
    modifies k.ns, k.data, k.data.pool, k.xattrs, k.xattrs.log
    ensures k.Valid() && k.ns.nextIno <= old(k.ns.nextIno) + 1
    ensures IsRun(calls[..i + 1], mades + [made], replies + [r], trace + [k.Now()])
  {
    r, made := Do(k, calls[i]);
    NothingLeft(k);
    OneCallMore(calls, i, mades, replies, trace, made, r, k.Now());
  }

  /** Any run of calls keeps the engine in order; every reply is one the state before the call allows, and every state
      is what the call makes of the one before. The bound on the run is the one set by 64-bit inode numbers. */
  method Run(k: KernelEngine, calls: seq<Call>)
    returns (replies: seq<Reply>, ghost mades: seq<Result<nat>>, ghost trace: seq<State>)
    requires k.Valid() && k.ns.nextIno + |calls| <= U64_MAX && forall n :: 0 <= n < |calls| ==> Proper(calls[n])
    modifies k.ns, k.data, k.data.pool, k.xattrs, k.xattrs.log
    ensures k.Valid() && IsRun(calls, mades, replies, trace) && trace[0] == old(k.Now()) && trace[|calls|] == k.Now()
  {
    NothingLeft(k);
    ghost var start := k.Now();
    replies, mades, trace := [], [], [start];
    for i := 0 to |calls|
      invariant k.Valid() && k.ns.nextIno <= old(k.ns.nextIno) + i
      invariant |replies| == i && IsRun(calls[..i], mades, replies, trace)
      invariant trace[0] == start && trace[i] == k.Now()
    {
      ghost var made;
      var r;
      r, made := DoNext(k, calls, i, mades, replies, trace);
      replies, mades, trace := replies + [r], mades + [made], trace + [k.Now()];
    }
    assert calls[..|calls|] == calls;
  }

  lemma OneCallMore(calls: seq<Call>, i: nat, mades: seq<Result<nat>>, replies: seq<Reply>, trace: seq<State>,
                    made: Result<nat>, r: Reply, t: State)
    requires i < |calls| && IsRun(calls[..i], mades, replies, trace) && Follows(trace[i], calls[i], made, r, t)
               && Good(t)
    ensures IsRun(calls[..i + 1], mades + [made], replies + [r], trace + [t])
  {
    var more, mades', replies', trace' := calls[..i + 1], mades + [made], replies + [r], trace + [t];
    forall n | 0 <= n < i + 1 ensures Follows(trace'[n], more[n], mades'[n], replies'[n], trace'[n + 1]) {
      if n < i {
        assert Follows(trace[n], calls[..i][n], mades[n], replies[n], trace[n + 1]);
      }
    }
  }

  // ---------- staged data and SEEK_DATA ----------

  /** The call will stop between the extents and the buffer of a file. */
  ghost predicate StopsHalfWay(s: State, c: Call) { c.Data? && R.StopsHalfWay(s.data, c.step) }

  lemma {:induction false} RunCovered(calls: seq<Call>, mades: seq<Result<nat>>, replies: seq<Reply>,
                                      trace: seq<State>, n: nat)
    requires IsRun(calls, mades, replies, trace) && n <= |calls| && R.Covered(trace[0].data)
    requires trace[0].data.active || forall m :: 0 <= m < n ==> !StopsHalfWay(trace[m], calls[m])
    ensures R.Covered(trace[n].data) && trace[n].data.active == trace[0].data.active
  {
    if n > 0 {
      RunCovered(calls, mades, replies, trace, n - 1);
      assert Follows(trace[n - 1], calls[n - 1], mades[n - 1], replies[n - 1], trace[n - 1 + 1]);
      CoveredStep(trace[n - 1], calls[n - 1], mades[n - 1], replies[n - 1], trace[n]);
    }
  }

  lemma CoveredStep(s: State, c: Call, made: Result<nat>, r: Reply, t: State)
    requires Follows(s, c, made, r, t) && R.Covered(s.data) && (s.data.active || !StopsHalfWay(s, c))
    ensures R.Covered(t.data) && t.data.active == s.data.active
  {
  }

  /** Whatever calls are made, with active storage SEEK_DATA passes over nothing but zeros; and without it as long as no
      truncate or insert has stopped half-way. */
  lemma RunSeeksSafely(calls: seq<Call>, mades: seq<Result<nat>>, replies: seq<Reply>, trace: seq<State>, n: nat)
    requires IsRun(calls, mades, replies, trace) && n <= |calls| && R.Covered(trace[0].data)
    requires trace[0].data.active || forall m :: 0 <= m < n ==> !StopsHalfWay(trace[m], calls[m])
    ensures Seek.SeeksSafely(trace[n].data)
  {
    RunCovered(calls, mades, replies, trace, n);
    Seek.CoveredSeeksSafely(trace[n].data);
  }

  // ---------- the bytes of a file live as long as its record ----------

  predicate Touches(c: Call, i: nat) { c.Data? && R.Changes(c.step, i) }

  /** A name leads to the inode, or somebody has it open. */
  ghost predicate Held(s: State, i: nat) {
    (exists k :: k in s.names.names && s.names.names[k].child == i) || i in s.names.opens
  }

  ghost predicate SameFile(s: State, t: State, i: nat) {
    i in s.data.sizes && i in t.data.sizes && t.data.sizes[i] == s.data.sizes[i] && R.SameBytes(s.data, t.data, i)
  }

  lemma OneStepKeeps(s: State, c: Call, made: Result<nat>, r: Reply, t: State, i: nat)
    requires Follows(s, c, made, r, t) && Good(s) && Good(t) && !Touches(c, i) && i in s.names.inodes
               && i in t.names.inodes
    ensures SameFile(s, t, i)
  {
    assert i in s.data.sizes && i in t.data.sizes;
    if c.Names? {
      assert FilesKept(s.data, t.data, BornSize(c.c));
    } else if c.Data? {
      assert R.OthersKept(s.data, c.step, t.data);
    }
  }

  /** A file keeps its size and every byte, buffered ones included, as long as it has a name or a handle and no call on
      data is about it: whatever happens to names, to other files, and however calls fail. */
  lemma {:induction false} BytesSurvive(calls: seq<Call>, mades: seq<Result<nat>>, replies: seq<Reply>,
                                        trace: seq<State>, i: nat, n: nat, m: nat)
    requires IsRun(calls, mades, replies, trace) && n <= m <= |calls|
    requires forall q :: n <= q <= m ==> Held(trace[q], i)
    requires forall q :: n <= q < m ==> !Touches(calls[q], i)
    ensures SameFile(trace[n], trace[m], i)
    decreases m - n
  {
    assert Held(trace[m], i) && Good(trace[m]);
    assert i in trace[m].names.inodes && i in trace[m].data.sizes;
    if n < m {
      BytesSurvive(calls, mades, replies, trace, i, n, m - 1);
      var q := m - 1;
      assert Held(trace[q], i) && Good(trace[q]) && !Touches(calls[q], i);
      assert Follows(trace[q], calls[q], mades[q], replies[q], trace[q + 1]);
      OneStepKeeps(trace[q], calls[q], mades[q], replies[q], trace[m], i);
    }
  }

  /** Where there is no record there is no name, no handle, no extent, no staged entry, and no byte that is not zero. */
  lemma NothingAfter(s: State, i: nat)
    requires Good(s) && i !in s.names.inodes
    ensures !Held(s, i) && i !in s.data.sizes
    ensures forall k: nat :: E.At(s.data.extents, i, k) == E.Hole && B.Overlay(s.data.buffer, i, k) == None
    ensures forall k: nat :: R.ByteAt(s.data, i, k) == 0
  {
    forall k: nat ensures E.At(s.data.extents, i, k) == E.Hole && B.Overlay(s.data.buffer, i, k) == None {
      B.OverlayNone(s.data.buffer, i, k);
    }
  }

  // ---------- attributes ----------

  /** The call at `n` was granted and is about this attribute. */
  ghost predicate Changed(calls: seq<Call>, replies: seq<Reply>, n: nat, i: nat, name: I.Name)
    requires |replies| == |calls|
  {
    n < |calls| && calls[n].Attrs? && calls[n].a.ino == i && calls[n].a.name == name && replies[n].Answered?
      && replies[n].answer.Ok?
  }

  /** The record of `i` goes with the call at `n`. */
  ghost predicate Dropped(trace: seq<State>, n: nat, i: nat) {
    n + 1 < |trace| && i in trace[n].names.inodes && i !in trace[n + 1].names.inodes
  }

  /** What the calls make of an attribute: it holds what was last set, unless that was removed or the record went. */
  ghost function ValueAfter(calls: seq<Call>, replies: seq<Reply>, trace: seq<State>, n: nat, i: nat,
                            name: I.Name): Option<X.Value>
    requires |replies| == |calls| && |trace| == |calls| + 1 && n <= |calls|
  {
    if n == 0 then X.Get(trace[0].attrs, i, name)
    else if Changed(calls, replies, n - 1, i, name) then NewValue(calls[n - 1].a)
    else if Dropped(trace, n - 1, i) then None
    else ValueAfter(calls, replies, trace, n - 1, i, name)
  }

  lemma AttrStep(s: State, c: Call, made: Result<nat>, r: Reply, t: State, i: nat, name: I.Name)
    requires Follows(s, c, made, r, t)
    ensures X.Get(t.attrs, i, name)
         == if c.Attrs? && c.a.ino == i && c.a.name == name && r.answer.Ok? then NewValue(c.a)
            else if i in s.names.inodes && i !in t.names.inodes then None
            else X.Get(s.attrs, i, name)
  {
    if c.Names? {
      assert t.attrs == s.attrs - (s.names.inodes.Keys - t.names.inodes.Keys);
      assert X.Of(t.attrs, i) == if i in s.names.inodes && i !in t.names.inodes then [] else X.Of(s.attrs, i);
    }
  }

  /** In every state of every run the attributes are what the calls have made of them. */
  lemma {:induction false} AttrsAreCalls(calls: seq<Call>, mades: seq<Result<nat>>, replies: seq<Reply>,
                                         trace: seq<State>, n: nat, i: nat, name: I.Name)
    requires IsRun(calls, mades, replies, trace) && n <= |calls|
    ensures X.Get(trace[n].attrs, i, name) == ValueAfter(calls, replies, trace, n, i, name)
    decreases n
  {
    if n > 0 {
      var m := n - 1;
      AttrsAreCalls(calls, mades, replies, trace, m, i, name);
      assert Follows(trace[m], calls[m], mades[m], replies[m], trace[m + 1]);
      AttrStep(trace[m], calls[m], mades[m], replies[m], trace[n], i, name);
    }
  }

  /** The attribute was there at the start, or was set by the call before state `m`; and no call from `m` to `n` has
      changed it again, and the inode has had no record from `m` to `n`. */
  ghost predicate SetWithoutRecord(calls: seq<Call>, replies: seq<Reply>, trace: seq<State>, m: nat, n: nat, i: nat,
                                   name: I.Name)
    requires |replies| == |calls| && |trace| == |calls| + 1 && m <= n <= |calls|
  {
    && (if m == 0 then X.Get(trace[0].attrs, i, name).Some?
         else Changed(calls, replies, m - 1, i, name) && calls[m - 1].a.SetAttr?)
    && (forall q: nat :: m <= q < n ==> !Changed(calls, replies, q, i, name))
    && (forall q: nat :: m <= q <= n ==> i !in trace[q].names.inodes)
  }

  lemma {:induction false} SetFound(calls: seq<Call>, replies: seq<Reply>, trace: seq<State>, n: nat, i: nat,
                                    name: I.Name) returns (m: nat)
    requires |replies| == |calls| && |trace| == |calls| + 1 && n <= |calls| && i !in trace[n].names.inodes
    requires ValueAfter(calls, replies, trace, n, i, name).Some?
    ensures m <= n && SetWithoutRecord(calls, replies, trace, m, n, i, name)
    decreases n
  {
    m := n;
    if n > 0 && !Changed(calls, replies, n - 1, i, name) {
      assert !Dropped(trace, n - 1, i);
      m := SetFound(calls, replies, trace, n - 1, i, name);
    }
  }

  lemma {:induction false} SetStays(calls: seq<Call>, replies: seq<Reply>, trace: seq<State>, m: nat, n: nat, i: nat,
                                    name: I.Name)
    requires |replies| == |calls| && |trace| == |calls| + 1 && m <= n <= |calls|
    requires SetWithoutRecord(calls, replies, trace, m, n, i, name)
    ensures ValueAfter(calls, replies, trace, n, i, name).Some?
    decreases n
  {
    if m < n {
      assert !Changed(calls, replies, n - 1, i, name) && i !in trace[n - 1].names.inodes;
      SetStays(calls, replies, trace, m, n - 1, i, name);
    }
  }

  /** An inode without a record has an attribute if and only if it was set while there was no record, and since then has
      neither been removed nor seen a record. */
  lemma LeftoverIff(calls: seq<Call>, mades: seq<Result<nat>>, replies: seq<Reply>, trace: seq<State>, n: nat, i: nat,
                    name: I.Name)
    requires IsRun(calls, mades, replies, trace) && n <= |calls| && i !in trace[n].names.inodes
    ensures X.Get(trace[n].attrs, i, name).Some? <==>
              exists m: nat :: m <= n && SetWithoutRecord(calls, replies, trace, m, n, i, name)
  {
    AttrsAreCalls(calls, mades, replies, trace, n, i, name);
    if X.Get(trace[n].attrs, i, name).Some? {
      var m := SetFound(calls, replies, trace, n, i, name);
    }
    if m: nat :| m <= n && SetWithoutRecord(calls, replies, trace, m, n, i, name) {
      SetStays(calls, replies, trace, m, n, i, name);
    }
  }

  // ---------- what a failed call on names has done ----------

  /** An exchange of two names of the same thing has nothing to change. */
  predicate Idle(s: NR.State, c: NR.Call) {
    c.Move? && N.Exchange(c.flags) && (c.parent, c.name) in s.names && (c.newParent, c.newName) in s.names
    && s.names[(c.parent, c.name)] == s.names[(c.newParent, c.newName)]
  }

  /** Otherwise a granted call that records an intent has changed the names. */
  lemma RecordedMeansChanged(s: NR.State, c: NR.Call, ino: nat, limit: nat)
    requires NR.Verdict(s, c, limit).Ok? && IntentOf(s, c, ino).Some? && !Idle(s, c)
    ensures NR.Granted(s, c, ino).names != s.names
  {
    var t := NR.Granted(s, c, ino);
    match c
    case Make(p, n, how) => assert (p, n) in t.names;
    case AddName(_, p, n) => assert (p, n) in t.names;
    case Move(p, n, q, o, flags) =>
      if N.Exchange(flags) && (q, o) in s.names {
        assert t.names[(q, o)] == s.names[(p, n)];
      } else {
        assert (p, n) !in t.names;
      }
  }

  lemma IdleChangesNothing(s: NR.State, c: NR.Call, ino: nat, limit: nat)
    requires L.Linked(s.names, s.inodes) && NR.Verdict(s, c, limit).Ok? && Idle(s, c)
    ensures NR.Granted(s, c, ino) == s
  {
    IdleTrade(s.names, s.inodes, s.opens.Keys, (c.parent, c.name), (c.newParent, c.newName), c.flags);
  }

  /** Two names of one thing are names of a file, so no link moves. */
  lemma IdleTrade(m: L.Names, nodes: L.Inodes, held: set<nat>, a: L.Key, b: L.Key, flags: nat)
    requires L.OneParent(m) && a in m && b in m && m[a] == m[b] && N.Exchange(flags)
    ensures N.Renamed(m, a, b, flags) == m && N.RenamedNodes(m, nodes, held, a, b, flags) == nodes
  {
    assert a != b ==> !m[a].kind.Dir?;
  }

  /** A call on names that is answered with an error has left names, records and handles alone if and only if the
      tables refused it, or it had nothing to change. The record comes last: when the log refuses, it is too late. */
  lemma FailedIff(s: State, c: NR.Call, made: Result<nat>, r: Result<nat>, t: State)
    requires NameFollows(s, c, made, r, t) && Good(s) && r.Err?
    ensures t.names == s.names <==> made.Err? || Idle(s.names, c)
    ensures s.sound ==> (made.Err? <==> NR.Verdict(s.names, c, s.limit).Err?)
  {
    if made.Ok? {
      if Idle(s.names, c) {
        IdleChangesNothing(s.names, c, made.value, s.limit);
      } else {
        RecordedMeansChanged(s.names, c, made.value, s.limit);
      }
    }
  }

  /** What a caller can work out before the call: the verdict of the tables, or else that of the log. The number of the
      inode to come does not matter, only the length of its record. */
  ghost function Foreseen(s: State, c: NR.Call): Result<()> {
    var v := NR.Verdict(s.names, c, s.limit);
    match IntentOf(s.names, c, 0)
    case None => v
    case Some(op) => if v.Err? then v else IL.RecordVerdict(s.log.tail, s.log.pending, I.Encode(op))
  }

  lemma SameLength(c: NR.Call, ino: nat, src: Option<L.Target>, dst: Option<L.Target>)
    ensures IntentWith(c, ino, src, dst).Some? == IntentWith(c, 0, src, dst).Some?
    ensures IntentWith(c, ino, src, dst).Some? ==>
              |I.Encode(IntentWith(c, ino, src, dst).value)| == |I.Encode(IntentWith(c, 0, src, dst).value)|
  {
    if c.Make? { MadeLength(c.parent, c.name, c.how, ino); }
  }

  lemma MadeLength(p: nat, n: seq<byte>, how: NR.How, ino: nat)
    ensures var c := NR.Make(p, n, how);
            |I.Encode(IntentWith(c, ino, None, None).value)| == |I.Encode(IntentWith(c, 0, None, None).value)|
  {
    match how
    case ByCreate(mode) => assert |I.Encode(I.Create(p, n, mode, ino))| == |I.Encode(I.Create(p, n, mode, 0))|;
    case ByMkdir(mode) => assert |I.Encode(I.Mkdir(p, n, mode, ino))| == |I.Encode(I.Mkdir(p, n, mode, 0))|;
    case BySymlink(path) => assert |I.Encode(I.Symlink(p, n, path, ino))| == |I.Encode(I.Symlink(p, n, path, 0))|;
    case ByMknod(mode, rdev) => assert |I.Encode(I.Mknod(p, n, mode, rdev, ino))|
      == |I.Encode(I.Mknod(p, n, mode, rdev, 0))|;
  }

  /** While allocator and device do not fail, every call on names gets exactly the foreseen answer. */
  lemma AnswerForeseen(s: State, c: NR.Call, made: Result<nat>, r: Result<nat>, t: State)
    requires NameFollows(s, c, made, r, t) && s.sound && s.log.steady
    ensures Foreseen(s, c) == if r.Ok? then Ok(()) else Err(r.errno)
  {
    if made.Ok? { SameLength(c, made.value, Sources(s.names, c), Targets(s.names, c)); }
  }

  /** So it fails with its work done if and only if the tables grant it and the log has no room. */
  lemma TooLateIff(s: State, c: NR.Call, made: Result<nat>, r: Result<nat>, t: State)
    requires NameFollows(s, c, made, r, t) && Good(s) && s.sound && s.log.steady
    ensures r.Err? && t.names != s.names <==>
              NR.Verdict(s.names, c, s.limit).Ok? && Foreseen(s, c).Err? && !Idle(s.names, c)
  {
    AnswerForeseen(s, c, made, r, t);
    if r.Err? { FailedIff(s, c, made, r, t); }
  }

  lemma {:induction false} StaysSteady(calls: seq<Call>, mades: seq<Result<nat>>, replies: seq<Reply>,
                                       trace: seq<State>, n: nat)
    requires IsRun(calls, mades, replies, trace) && n <= |calls|
    ensures trace[n].sound == trace[0].sound && trace[n].log.steady == trace[0].log.steady
  {
    if n > 0 {
      StaysSteady(calls, mades, replies, trace, n - 1);
      assert Follows(trace[n - 1], calls[n - 1], mades[n - 1], replies[n - 1], trace[n - 1 + 1]);
    }
  }

  /** In a run that starts on a sound device every call on names gets the foreseen answer, and fails with its work done
      exactly when the tables grant it and the log has no room. */
  lemma RunForeseen(calls: seq<Call>, mades: seq<Result<nat>>, replies: seq<Reply>, trace: seq<State>, n: nat)
    requires IsRun(calls, mades, replies, trace) && trace[0].sound && trace[0].log.steady
    requires n < |calls| && calls[n].Names?
    ensures replies[n].Told?
              && Foreseen(trace[n], calls[n].c) == if replies[n].r.Ok? then Ok(()) else Err(replies[n].r.errno)
    ensures replies[n].r.Err? && trace[n + 1].names != trace[n].names <==>
              var s, c := trace[n], calls[n].c;
              NR.Verdict(s.names, c, s.limit).Ok? && Foreseen(s, c).Err? && !Idle(s.names, c)
  {
    StaysSteady(calls, mades, replies, trace, n);
    assert Follows(trace[n], calls[n], mades[n], replies[n], trace[n + 1]) && Good(trace[n]);
    AnswerForeseen(trace[n], calls[n].c, mades[n], replies[n].r, trace[n + 1]);
    TooLateIff(trace[n], calls[n].c, mades[n], replies[n].r, trace[n + 1]);
  }
}
