/** POSIX byte-range advisory locks: one list for all inodes, split and replaced range by range. */
module Locks {
  import opened Common

  const F_RDLCK: nat := 0
  const F_WRLCK: nat := 1
  const F_UNLCK: nat := 2
  const SEEK_SET: nat := 0

  datatype Lock = Lock(start: nat, end: nat, typ: nat, pid: nat, whence: nat) {
    predicate On(x: int) { start <= x < end }
  }

  datatype Entry = Entry(ino: nat, lock: Lock) {
    /** Process `p` holds byte `x` of inode `i` with a lock of type `t` through this entry. */
    predicate Gives(i: nat, p: nat, t: nat, x: int) { ino == i && lock.pid == p && lock.typ == t && lock.On(x) }
  }

  function Normalized(l: Lock): Lock { if l.end == 0 then l.(end := U64_MAX) else l }

  predicate WellMade(l: Lock) { l.typ <= F_UNLCK && l.whence == SEEK_SET && l.start < l.end }

  predicate Overlap(a: Lock, b: Lock) { a.start < b.end && b.start < a.end }

  predicate Conflict(held: Lock, want: Lock) {
    && held.pid != want.pid && held.typ != F_UNLCK && want.typ != F_UNLCK && Overlap(held, want)
    && !(held.typ == F_RDLCK && want.typ == F_RDLCK)
  }

  // ---------- what the list means ----------

  /** Process `p` holds byte `x` of inode `i` with a lock of type `t`. */
  ghost predicate Held(es: seq<Entry>, i: nat, p: nat, t: nat, x: int) {
    exists e :: e in es && e.Gives(i, p, t, x)
  }

  /** Two entries for overlapping ranges of one inode belong to different processes and both only read. */
  predicate Friendly(a: Entry, b: Entry) {
    a.ino == b.ino && Overlap(a.lock, b.lock)
    ==> a.lock.pid != b.lock.pid && a.lock.typ == b.lock.typ == F_RDLCK
  }

  ghost predicate AllFriendly(es: seq<Entry>) {
    forall j, k :: 0 <= j < k < |es| ==> Friendly(es[j], es[k])
  }

  predicate Granted(e: Entry) { e.lock.start < e.lock.end && e.lock.typ < F_UNLCK }

  ghost predicate Good(es: seq<Entry>) {
    AllFriendly(es) && forall e :: e in es ==> Granted(e)
  }

  /** What a good list guarantees byte by byte: a process holds a byte in one way only, and whoever holds a
      byte for writing holds it alone. */
  lemma GoodMeans(es: seq<Entry>, i: nat, x: int, p: nat, t: nat, q: nat, u: nat)
    requires Good(es) && Held(es, i, p, t, x) && Held(es, i, q, u, x)
    ensures p == q ==> t == u
    ensures p != q ==> t == u == F_RDLCK
  {
    var a :| a in es && a.Gives(i, p, t, x);
    var b :| b in es && b.Gives(i, q, u, x);
    var j :| 0 <= j < |es| && es[j] == a;
    var k :| 0 <= k < |es| && es[k] == b;
    assert j < k ==> Friendly(es[j], es[k]);
    assert k < j ==> Friendly(es[k], es[j]);
  }

  /** A request is in the way of the list exactly when some byte of it is held by another process and one
      of the two wants to write. */
  lemma ConflictMeans(es: seq<Entry>, ino: nat, q: Lock)
    requires (forall e :: e in es ==> Granted(e)) && q.typ < F_UNLCK && q.start < q.end
    ensures (exists e :: e in es && e.ino == ino && Conflict(e.lock, q))
       <==> (exists p, t, x :: q.On(x) && p != q.pid && Held(es, ino, p, t, x) && !(t == F_RDLCK && q.typ == F_RDLCK))
  {
    if e :| e in es && e.ino == ino && Conflict(e.lock, q) {
      var x := Max(e.lock.start, q.start);
      assert e.Gives(ino, e.lock.pid, e.lock.typ, x);
      assert q.On(x) && Held(es, ino, e.lock.pid, e.lock.typ, x);
    }
    if p, t, x :| q.On(x) && p != q.pid && Held(es, ino, p, t, x) && !(t == F_RDLCK && q.typ == F_RDLCK) {
      var e :| e in es && e.Gives(ino, p, t, x);
      assert Conflict(e.lock, q);
    }
  }

  // ---------- cutting a range out ----------

  /** What is left of an entry once the owner's hold on `q` is cut out of it. */
  function Pieces(e: Entry, ino: nat, q: Lock): seq<Entry> {
    var left, right := Entry(ino, e.lock.(end := q.start)), Entry(ino, e.lock.(start := q.end));
    if e.ino != ino || e.lock.pid != q.pid || !Overlap(e.lock, q) then [e]
    else Opt(e.lock.start < q.start, left) + Opt(q.end < e.lock.end, right)
  }

  function Cut(es: seq<Entry>, ino: nat, q: Lock): seq<Entry> {
    if es == [] then [] else Cut(es[..|es| - 1], ino, q) + Pieces(es[|es| - 1], ino, q)
  }

  /** `a` is a part of `b`. */
  predicate Part(a: Entry, b: Entry) {
    && a.ino == b.ino && a.lock.pid == b.lock.pid && a.lock.typ == b.lock.typ
    && b.lock.start <= a.lock.start && a.lock.end <= b.lock.end
  }

  predicate Clear(e: Entry, ino: nat, q: Lock) {
    e.ino == ino && e.lock.pid == q.pid ==> !Overlap(e.lock, q)
  }

  lemma PieceParts(e: Entry, ino: nat, q: Lock, a: Entry)
    requires Granted(e) && q.start < q.end && a in Pieces(e, ino, q)
    ensures Part(a, e) && Granted(a) && Clear(a, ino, q)
  {
  }

  lemma PieceBytes(e: Entry, ino: nat, q: Lock, i: nat, p: nat, t: nat, x: int)
    requires q.start < q.end
    ensures Held(Pieces(e, ino, q), i, p, t, x) <==> e.Gives(i, p, t, x) && !(i == ino && p == q.pid && q.On(x))
  {
    var l, r := Entry(ino, e.lock.(end := q.start)), Entry(ino, e.lock.(start := q.end));
    OptMembers(e.lock.start < q.start, l, q.end < e.lock.end, r);
    var ps := Pieces(e, ino, q);
    if e.Gives(i, p, t, x) && !(i == ino && p == q.pid && q.On(x)) {
      var a := if ps == [e] then e else if x < q.start then l else r;
      assert a in ps && a.Gives(i, p, t, x);
    }
  }

  lemma {:induction false} CutBytes(es: seq<Entry>, ino: nat, q: Lock, i: nat, p: nat, t: nat, x: int)
    requires q.start < q.end
    ensures Held(Cut(es, ino, q), i, p, t, x) <==> Held(es, i, p, t, x) && !(i == ino && p == q.pid && q.On(x))
  {
    if es != [] {
      var front, e := es[..|es| - 1], es[|es| - 1];
      CutBytes(front, ino, q, i, p, t, x);
      PieceBytes(e, ino, q, i, p, t, x);
      assert es == front + [e];
      HeldConcat(Cut(front, ino, q), Pieces(e, ino, q), i, p, t, x);
      HeldConcat(front, [e], i, p, t, x);
    }
  }

  lemma HeldConcat(a: seq<Entry>, b: seq<Entry>, i: nat, p: nat, t: nat, x: int)
    ensures Held(a + b, i, p, t, x) <==> Held(a, i, p, t, x) || Held(b, i, p, t, x)
  {
    if Held(a, i, p, t, x) {
      var e :| e in a && e.Gives(i, p, t, x);
      assert e in a + b;
    }
    if Held(b, i, p, t, x) {
      var e :| e in b && e.Gives(i, p, t, x);
      assert e in a + b;
    }
  }

  lemma {:induction false} CutOrigin(es: seq<Entry>, ino: nat, q: Lock, a: Entry) returns (k: nat)
    requires a in Cut(es, ino, q)
    ensures k < |es| && a in Pieces(es[k], ino, q)
  {
    if a in Pieces(es[|es| - 1], ino, q) {
      k := |es| - 1;
    } else {
      k := CutOrigin(es[..|es| - 1], ino, q, a);
    }
  }

  lemma FriendlyParts(a: Entry, b: Entry, a': Entry, b': Entry)
    requires Friendly(a, b) && Part(a', a) && Part(b', b)
    ensures Friendly(a', b') && Friendly(b', a')
  {
  }

  lemma FriendlyAppend(es: seq<Entry>, e: Entry)
    requires AllFriendly(es) && forall a :: a in es ==> Friendly(a, e)
    ensures AllFriendly(es + [e])
  {
  }

  lemma FriendlyConcat(es: seq<Entry>, bs: seq<Entry>)
    requires AllFriendly(es) && AllFriendly(bs) && forall a, b :: a in es && b in bs ==> Friendly(a, b)
    ensures AllFriendly(es + bs)
  {
  }

  lemma PiecesFriendly(e: Entry, ino: nat, q: Lock)
    requires Granted(e) && q.start < q.end
    ensures AllFriendly(Pieces(e, ino, q))
  {
  }

  lemma {:induction false} CutGood(es: seq<Entry>, ino: nat, q: Lock)
    requires Good(es) && q.start < q.end
    ensures Good(Cut(es, ino, q)) && forall a :: a in Cut(es, ino, q) ==> Clear(a, ino, q)
  {
    forall a | a in Cut(es, ino, q) ensures Granted(a) && Clear(a, ino, q) {
      var k := CutOrigin(es, ino, q, a);
      PieceParts(es[k], ino, q, a);
    }
    if es != [] {
      var front, e := es[..|es| - 1], es[|es| - 1];
      CutGood(front, ino, q);
      PiecesFriendly(e, ino, q);
      forall a, b | a in Cut(front, ino, q) && b in Pieces(e, ino, q) ensures Friendly(a, b) {
        var k := CutOrigin(front, ino, q, a);
        PieceParts(front[k], ino, q, a);
        PieceParts(e, ino, q, b);
        assert front[k] == es[k] && Friendly(es[k], es[|es| - 1]);
        FriendlyParts(es[k], e, a, b);
      }
      FriendlyConcat(Cut(front, ino, q), Pieces(e, ino, q));
    }
  }

  lemma GrantKeeps(es: seq<Entry>, ino: nat, q: Lock)
    requires Good(es) && q.start < q.end && q.typ < F_UNLCK
    requires forall e :: e in es && e.ino == ino ==> !Conflict(e.lock, q)
    ensures Good(Cut(es, ino, q) + [Entry(ino, q)])
  {
    CutGood(es, ino, q);
    forall a | a in Cut(es, ino, q) ensures Friendly(a, Entry(ino, q)) {
      var k := CutOrigin(es, ino, q, a);
      PieceParts(es[k], ino, q, a);
      assert es[k].ino == ino ==> !Conflict(es[k].lock, q);
    }
    FriendlyAppend(Cut(es, ino, q), Entry(ino, q));
  }

  function Verdict(q: Lock, found: Result<()>): Result<()> {
    if !WellMade(Normalized(q)) then Err(EINVAL) else found
  }

  class LockTable {
    var locks: seq<Entry>

    ghost predicate Valid() reads this { Good(locks) }

    constructor ()
      ensures Valid() && locks == []
    {
      locks := [];
    }

    method FindConflict(ino: nat, q: Lock) returns (r: Option<Lock>)
      ensures r.Some? <==> exists e :: e in locks && e.ino == ino && Conflict(e.lock, q)
      ensures r.Some? ==> Entry(ino, r.value) in locks && Conflict(r.value, q)
    {
      for k := 0 to |locks|
        invariant forall j :: 0 <= j < k ==> !(locks[j].ino == ino && Conflict(locks[j].lock, q))
      {
        if locks[k].ino == ino && Conflict(locks[k].lock, q) {
          return Some(locks[k].lock);
        }
      }
      r := None;
    }

    method ReplaceRange(ino: nat, q: Lock, new': Option<Lock>)
      modifies this
      ensures locks == Cut(old(locks), ino, q) + (if new'.Some? then [Entry(ino, new'.value)] else [])
    {
      var next: seq<Entry> := [];
      for k := 0 to |locks|
        invariant next == Cut(locks[..k], ino, q)
        invariant locks == old(locks)
      {
        var e := locks[k];
        assert locks[..k + 1][..k] == locks[..k];
        if e.ino != ino || e.lock.pid != q.pid || !Overlap(e.lock, q) {
          next := next + [e];
          continue;
        }
        ghost var before := next;
        if e.lock.start < q.start {
          next := next + [Entry(ino, e.lock.(end := q.start))];
        }
        if q.end < e.lock.end {
          next := next + [Entry(ino, e.lock.(start := q.end))];
        }
        assert next == before + Pieces(e, ino, q);
      }
      assert locks[..|locks|] == locks;
      if new'.Some? {
        next := next + [Entry(ino, new'.value)];
      }
      locks := next;
    }

    /** `found` is what looking up the inode answered. */
    method GetLk(ino: nat, lock: Lock, found: Result<()>) returns (r: Result<Option<Lock>>)
      requires Valid()
      ensures Verdict(lock, found).Err? ==> r == Err(Verdict(lock, found).errno)
      ensures Verdict(lock, found).Ok? ==> r.Ok? && (r.value.Some? <==> Blocked(locks, ino, Normalized(lock)))
      ensures r.Ok? && r.value.Some? ==> Entry(ino, r.value.value) in locks && Conflict(r.value.value, Normalized(lock))
    {
      var q := Normalized(lock);
      if !WellMade(q) { return Err(EINVAL); }
      if found.Err? { return Err(found.errno); }
      if q.typ == F_UNLCK { return Ok(None); }
      ConflictMeans(locks, ino, q);
      var c := FindConflict(ino, q);
      r := Ok(c);
    }

    method SetLk(ino: nat, lock: Lock, found: Result<()>) returns (r: Result<()>)
      requires Valid()
      modifies this
      ensures Valid()
      ensures var q := Normalized(lock);
              r == if Verdict(lock, found).Err? then Verdict(lock, found)
                   else if Blocked(old(locks), ino, q) then Err(EAGAIN) else Ok(())
      ensures r.Err? ==> locks == old(locks)
      ensures r.Ok? ==>
                forall i, p, t, x ::
                Held(locks, i, p, t, x) <==> HeldAfter(old(locks), ino, Normalized(lock), i, p, t, x)
    {
      var q := Normalized(lock);
      if !WellMade(q) { return Err(EINVAL); }
      if found.Err? { return Err(found.errno); }
      ghost var was := locks;
      if q.typ == F_UNLCK {
        CutGood(locks, ino, q);
        ReplaceRange(ino, q, None);
        assert locks == Cut(was, ino, q);
        forall i, p, t, x ensures Held(locks, i, p, t, x) <==> HeldAfter(was, ino, q, i, p, t, x) {
          CutBytes(was, ino, q, i, p, t, x);
        }
        return Ok(());
      }
      ConflictMeans(locks, ino, q);
      var c := FindConflict(ino, q);
      if c.Some? { return Err(EAGAIN); }
      GrantKeeps(locks, ino, q);
      ReplaceRange(ino, q, Some(q));
      forall i, p, t, x ensures Held(locks, i, p, t, x) <==> HeldAfter(was, ino, q, i, p, t, x) {
        CutBytes(was, ino, q, i, p, t, x);
        HeldConcat(Cut(was, ino, q), [Entry(ino, q)], i, p, t, x);
        assert Held([Entry(ino, q)], i, p, t, x) <==> Entry(ino, q).Gives(i, p, t, x) by {
          assert Entry(ino, q) in [Entry(ino, q)];
        }
      }
      r := Ok(());
    }

    /** Removing an inode removes its locks and nobody else's. */
    method Forget(ino: nat)
      requires Valid()
      modifies this
      ensures Valid()
      ensures forall i, p, t, x :: Held(locks, i, p, t, x) <==> i != ino && Held(old(locks), i, p, t, x)
    {
      var kept: seq<Entry> := [];
      for k := 0 to |locks|
        invariant locks == old(locks) && Good(kept)
        invariant forall e :: e in kept <==> e in locks[..k] && e.ino != ino
      {
        if locks[k].ino != ino {
          forall a | a in kept ensures Friendly(a, locks[k]) {
            var j :| 0 <= j < k && locks[j] == a;
          }
          FriendlyAppend(kept, locks[k]);
          kept := kept + [locks[k]];
        }
      }
      locks := kept;
    }
  }

  /** A request is refused when another process holds one of its bytes and either of them writes. */
  ghost predicate Blocked(es: seq<Entry>, ino: nat, q: Lock) {
    q.typ < F_UNLCK
    && exists p, t, x :: q.On(x) && p != q.pid && Held(es, ino, p, t, x) && !(t == F_RDLCK && q.typ == F_RDLCK)
  }

  /** Who holds what once the request `q` has been carried out: its owner holds exactly the requested type on
      the requested bytes, and nothing else has changed. */
  ghost predicate HeldAfter(es: seq<Entry>, ino: nat, q: Lock, i: nat, p: nat, t: nat, x: int) {
    if i == ino && p == q.pid && q.On(x) then q.typ != F_UNLCK && t == q.typ else Held(es, i, p, t, x)
  }

  // ---------- whole runs ----------

  datatype Request = Request(ino: nat, lock: Lock, found: Result<()>)

  /** The type of the last granted request of process `p` that covers byte `x` of inode `i`. */
  function LastWord(qs: seq<Request>, rs: seq<Result<()>>, i: nat, p: nat, x: int): Option<nat>
    requires |rs| == |qs|
  {
    if qs == [] then None
    else
      var n := |qs| - 1;
      var q := Normalized(qs[n].lock);
      if rs[n].Ok? && qs[n].ino == i && q.pid == p && q.On(x) then Some(q.typ)
      else LastWord(qs[..n], rs[..n], i, p, x)
  }

  ghost predicate Holding(qs: seq<Request>, rs: seq<Result<()>>, i: nat, p: nat, t: nat, x: int)
    requires |rs| == |qs|
  {
    t != F_UNLCK && LastWord(qs, rs, i, p, x) == Some(t)
  }

  /** After any run of requests on a new table, a process holds a byte exactly as its last granted request
      for that byte said, and the table is still free of conflicts. */
  method Run(table: LockTable, qs: seq<Request>) returns (rs: seq<Result<()>>)
    requires table.locks == []
    modifies table
    ensures table.Valid() && |rs| == |qs|
    ensures forall i, p, t, x :: Held(table.locks, i, p, t, x) <==> Holding(qs, rs, i, p, t, x)
  {
    rs := [];
    for k := 0 to |qs|
      invariant table.Valid() && |rs| == k
      invariant forall i, p, t, x :: Held(table.locks, i, p, t, x) <==> Holding(qs[..k], rs, i, p, t, x)
    {
      ghost var was := table.locks;
      var r := table.SetLk(qs[k].ino, qs[k].lock, qs[k].found);
      var rs' := rs + [r];
      forall i, p, t, x ensures Held(table.locks, i, p, t, x) <==> Holding(qs[..k + 1], rs', i, p, t, x) {
        assert qs[..k + 1][..k] == qs[..k] && rs'[..k] == rs;
        assert Held(was, i, p, t, x) <==> Holding(qs[..k], rs, i, p, t, x);
        assert r.Ok? ==>
                 (Held(table.locks, i, p, t, x) <==> HeldAfter(was, qs[k].ino, Normalized(qs[k].lock), i, p, t, x));
      }
      rs := rs';
    }
    assert qs[..|qs|] == qs;
  }
}
