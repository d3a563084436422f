/** Whole runs of namespace calls. */
module NamespaceRuns {
  import opened Common
  import opened Trees
  import opened Links
  import opened LinkOps
  import opened Dirents
  import opened Namespace

  /** How a new inode comes about; the kernel makes directories with mkdir or, by the type bits of the mode, with
      mknod. */
  datatype How = ByCreate(mode: nat) | ByMkdir(mode: nat) | BySymlink(path: seq<byte>) | ByMknod(mode: nat, rdev: nat)

  function KindOf(how: How): NodeKind {
    match how
    case ByCreate(_) => File
    case ByMkdir(_) => Dir
    case BySymlink(_) => Symlink
    case ByMknod(mode, _) => if mode / 0x1000 % 16 == 4 then Dir else File
  }

  datatype Call =
    | Make(parent: nat, name: Name, how: How)
    | MakeUnnamed(parent: nat)
    | AddName(target: nat, parent: nat, name: Name)
    | DropFile(parent: nat, name: Name)
    | DropDir(parent: nat, name: Name)
    | Move(parent: nat, name: Name, newParent: nat, newName: Name, flags: nat)
    | OpenNode(ino: nat)
    | CloseNode(ino: nat)

  datatype State = State(names: Names, inodes: Inodes, opens: map<nat, nat>)

  ghost function Now(ns: Namespace): State
    reads ns
  {
    State(ns.Tree(), ns.inodes, ns.opens)
  }

  /** What a call has to be told before it changes anything. */
  ghost function Verdict(s: State, c: Call, limit: nat): Result<()> {
    match c
    case Make(p, n, _) => CreateVerdict(s.names, s.inodes, (p, n))
    case MakeUnnamed(p) => DirCheck(s.inodes, p)
    case AddName(t, p, n) => LinkVerdict(s.names, s.inodes, t, (p, n))
    case DropFile(p, n) => UnlinkVerdict(s.names, s.inodes, (p, n))
    case DropDir(p, n) => RmdirVerdict(s.names, s.inodes, (p, n))
    case Move(p, n, q, o, flags) => RenameVerdict(s.names, s.inodes, (p, n), (q, o), flags, limit)
    case OpenNode(i) => if i in s.inodes then Ok(()) else Err(ENOENT)
    case CloseNode(_) => Ok(())
  }

  /** What a call that was granted does to the namespace. */
  function Granted(s: State, c: Call, ino: nat): State {
    match c
    case Make(p, n, how) =>
      s.(names := s.names[(p, n) := Target(ino, KindOf(how))], inodes := Created(s.inodes, (p, n), ino, KindOf(how)))
    case MakeUnnamed(p) => s.(inodes := s.inodes[ino := Inode(File, 0)])
    case AddName(t, p, n) =>
      if t !in s.inodes then s
      else s.(names := s.names[(p, n) := Target(t, s.inodes[t].kind)], inodes := Inc(s.inodes, t))
    case DropFile(p, n) =>
      if (p, n) !in s.names then s
      else s.(names := s.names - {(p, n)}, inodes := Unlinked(s.inodes, s.opens.Keys, s.names[(p, n)].child))
    case DropDir(p, n) =>
      if (p, n) !in s.names then s
      else var c := s.names[(p, n)].child;
           State(s.names - {(p, n)}, Removed(s.inodes, p, c), s.opens - {c})
    case Move(p, n, q, o, flags) =>
      s.(names := Renamed(s.names, (p, n), (q, o), flags),
         inodes := RenamedNodes(s.names, s.inodes, s.opens.Keys, (p, n), (q, o), flags))
    case OpenNode(i) => s.(opens := s.opens[i := Handles(s.opens, i) + 1])
    case CloseNode(i) =>
      var opens := Closed(s.opens, i);
      State(s.names, Forgotten(s.inodes, opens.Keys, i), opens)
  }

  /** Calls that need a new inode number, which may fail to be persisted. */
  predicate Allocates(c: Call) { c.Make? || c.MakeUnnamed? }

  /** One call on the tables: the verdict, or for want of an inode number EIO; and exactly what was granted.
      A call that was not granted has changed nothing. */
  method Do(ns: Namespace, c: Call) returns (r: Result<nat>)
    requires ns.Valid() && ns.nextIno < U64_MAX
    modifies ns
    ensures ns.Valid() && ns.nextIno <= old(ns.nextIno) + 1
    ensures var s, v := old(Now(ns)), Verdict(old(Now(ns)), c, ns.walkLimit);
            && (r.Err? ==>
                 Now(ns) == s && (v == Err(r.errno) || (v.Ok? && Allocates(c) && r.errno == EIO && !ns.sound)))
            && (r.Ok? ==> v.Ok? && Now(ns) == Granted(s, c, r.value) && (Allocates(c) ==> r.value !in s.inodes))
  {
    if c.Make? || c.MakeUnnamed? || c.AddName? {
      r := DoAdd(ns, c);
    } else {
      var x := DoOther(ns, c);
      r := if x.Ok? then Ok(0) else Err(x.errno);
    }
  }

  method DoAdd(ns: Namespace, c: Call) returns (r: Result<nat>)
    requires ns.Valid() && ns.nextIno < U64_MAX && (c.Make? || c.MakeUnnamed? || c.AddName?)
    modifies ns
    ensures ns.Valid() && ns.nextIno <= old(ns.nextIno) + 1
    ensures var s, v := old(Now(ns)), Verdict(old(Now(ns)), c, ns.walkLimit);
            && (r.Err? ==>
                 Now(ns) == s && (v == Err(r.errno) || (v.Ok? && Allocates(c) && r.errno == EIO && !ns.sound)))
            && (r.Ok? ==> v.Ok? && Now(ns) == Granted(s, c, r.value) && (Allocates(c) ==> r.value !in s.inodes))
  {
    match c {
      case Make(p, n, how) => r := ns.Create(p, n, KindOf(how));
      case MakeUnnamed(p) => r := ns.Tmpfile(p);
      case AddName(t, p, n) =>
        var x := ns.Link(t, p, n);
        r := if x.Ok? then Ok(0) else Err(x.errno);
    }
  }

  method DoOther(ns: Namespace, c: Call) returns (r: Result<()>)
    requires ns.Valid() && !c.Make? && !c.MakeUnnamed? && !c.AddName?
    modifies ns
    ensures ns.Valid() && ns.nextIno == old(ns.nextIno) && r == Verdict(old(Now(ns)), c, ns.walkLimit)
    ensures Now(ns) == if r.Ok? then Granted(old(Now(ns)), c, 0) else old(Now(ns))
  {
    match c {
      case DropFile(p, n) => r := ns.Unlink(p, n);
      case DropDir(p, n) => r := ns.Rmdir(p, n);
      case Move(p, n, q, o, flags) => r := ns.Rename(p, n, q, o, flags);
      case OpenNode(i) => r := ns.Open(i);
      case CloseNode(i) =>
        ns.Release(i);
        r := Ok(());
    }
  }

  // ---------- what a good namespace is good for ----------

  /** A file's record is there exactly while something needs it: a name, a handle, or the caller that
      was just given an unnamed file. A record that is gone has no name and no handle. */
  lemma Lifetime(ns: Namespace, i: nat)
    requires ns.Valid()
    ensures i in ns.inodes && !ns.inodes[i].kind.Dir? ==>
              NamesOf(ns.Tree(), i) != {} || Handles(ns.opens, i) > 0 || i in ns.unopened
    ensures i !in ns.inodes ==> NamesOf(ns.Tree(), i) == {} && Handles(ns.opens, i) == 0
  {
    if i in ns.inodes {
      assert RightCount(ns.Tree(), i, ns.inodes[i]);
    } else {
      assert Anchored(ns.Tree(), ns.inodes);
    }
  }

  /** Every live directory is reached from the root by names, and no directory is below itself. */
  lemma DirectoriesFormATree(ns: Namespace, i: nat)
    requires ns.Valid() && LiveDir(ns.inodes, i)
    ensures Descends(ParentMap(ns.Tree()), i, ns.root)
    ensures i != ns.root ==> exists k :: k in ns.Tree() && ns.Tree()[k] == Target(i, Dir)
    ensures forall k, l :: k in ns.Tree() && l in ns.Tree() && ns.Tree()[k] == ns.Tree()[l] == Target(i, Dir) ==> k == l
    ensures forall n: nat :: n > 0 ==> Climb(ParentMap(ns.Tree()), i, n) != Some(i)
  {
    var par := ParentMap(ns.Tree());
    assert i in LiveDirs(ns.inodes);
    if i != ns.root {
      assert i in par;
    }
    forall n: nat | n > 0 ensures Climb(par, i, n) != Some(i) {
      NoCycle(par, LiveDirs(ns.inodes), ns.root, i, n);
    }
  }

  lemma ShiftsCancel(nodes: Inodes, s: Target, t: Target, p: nat, q: nat)
    requires p in nodes && q in nodes
    requires (s.kind.Dir? ==> nodes[p].nlink > 0) && (t.kind.Dir? ==> nodes[q].nlink > 0)
    ensures var once := Shifted(Shifted(nodes, s, p, q), t, q, p);
            Shifted(Shifted(once, t, p, q), s, q, p) == nodes
  {
  }

  /** A climb that does not meet what was moved goes as before. */
  lemma ClimbAsBefore(par: Parents, s: Target, q: nat, t: Target, p: nat, x: nat, n: nat)
    requires (s.kind.Dir? ==> !Descends(par, x, s.child)) && (t.kind.Dir? ==> !Descends(par, x, t.child))
    ensures Climb(Under(Under(par, s, q), t, p), x, n) == Climb(par, x, n)
  {
    var mid := Under(par, s, q);
    if s.kind.Dir? {
      forall k: nat ensures Climb(mid, x, k) == Climb(par, x, k) { ClimbAvoids(par, mid, s.child, x, k); }
    }
    if t.kind.Dir? { ClimbAvoids(mid, Under(mid, t, p), t.child, x, n); }
  }

  /** So the walk up from there finds nothing, and can only be too long. */
  lemma BlockedAsBefore(par: Parents, s: Target, q: nat, t: Target, p: nat, x: nat, a: nat, limit: nat)
    requires (s.kind.Dir? ==> !Descends(par, x, s.child)) && (t.kind.Dir? ==> !Descends(par, x, t.child))
               && !Descends(par, x, a)
    ensures Blocked(Under(Under(par, s, q), t, p), x, a, limit) <==> Climb(par, x, limit).Some?
  {
    forall n: nat ensures Climb(Under(Under(par, s, q), t, p), x, n) == Climb(par, x, n) {
      ClimbAsBefore(par, s, q, t, p, x, n);
    }
  }

  lemma NotAboveItself(m: Names, nodes: Inodes, root: nat, k: Key)
    requires WellRooted(m, nodes, root) && k in m && m[k].kind.Dir?
    ensures !Descends(ParentMap(m), k.0, m[k].child)
  {
    ParentAt(m, k);
    NotBelowSelf(ParentMap(m), LiveDirs(nodes), root, m[k].child);
  }

  /** A directory leaves a place too deep for the walk: it can be moved out, but not back in. */
  ghost predicate NoWayBack(m: Names, k: Key, limit: nat) {
    k in m && m[k].kind.Dir? && Climb(ParentMap(m), k.0, limit).Some?
  }

  lemma StillLive(nodes: Inodes, nodes': Inodes, i: nat)
    requires LiveDirs(nodes') == LiveDirs(nodes) && LiveDir(nodes, i)
    ensures LiveDir(nodes', i)
  {
    assert i in LiveDirs(nodes');
  }

  /** Neither name's new parent is below what is moved there. */
  ghost predicate Separate(m: Names, a: Key, b: Key)
    requires a in m && b in m
  {
    && (m[a].kind.Dir? ==> !Descends(ParentMap(m), b.0, m[a].child))
    && (m[b].kind.Dir? ==> !Descends(ParentMap(m), a.0, m[b].child))
  }

  lemma GrantedExchange(m: Names, nodes: Inodes, a: Key, b: Key, limit: nat)
    requires a != b && RenameVerdict(m, nodes, a, b, RENAME_EXCHANGE, limit).Ok?
    ensures a in m && b in m && Separate(m, a, b) && LiveDir(nodes, a.0) && LiveDir(nodes, b.0)
  {
    assert Exchange(RENAME_EXCHANGE);
  }

  /** After an exchange the same exchange is granted again if and only if neither name is too deep for what is brought
      back to it. */
  lemma ExchangeVerdict(m: Names, nodes: Inodes, root: nat, a: Key, b: Key, limit: nat)
    requires WellRooted(m, nodes, root) && a in m && b in m && a != b
    requires Separate(m, a, b) && LiveDir(nodes, a.0) && LiveDir(nodes, b.0)
    ensures RenameVerdict(Traded(m, a, b), Shifted(Shifted(nodes, m[a], a.0, b.0), m[b], b.0, a.0), a, b,
              RENAME_EXCHANGE, limit)
         == if NoWayBack(m, a, limit) || NoWayBack(m, b, limit) then Err(EINVAL) else Ok(())
  {
    TradedLive(m, nodes, a, b);
    if m[a].kind.Dir? { TradedBlocked(m, nodes, root, a, b, limit, a); }
    if m[b].kind.Dir? { TradedBlocked(m, nodes, root, a, b, limit, b); }
    ToTakenName(Traded(m, a, b), Shifted(Shifted(nodes, m[a], a.0, b.0), m[b], b.0, a.0), a, b, limit);
  }

  lemma TradedLive(m: Names, nodes: Inodes, a: Key, b: Key)
    requires Linked(m, nodes) && a in m && b in m && a != b && LiveDir(nodes, a.0) && LiveDir(nodes, b.0)
    ensures var nodes' := Shifted(Shifted(nodes, m[a], a.0, b.0), m[b], b.0, a.0);
            LiveDir(nodes', a.0) && LiveDir(nodes', b.0)
  {
    TradeLinks(m, nodes, a, b);
    StillLive(nodes, Shifted(Shifted(nodes, m[a], a.0, b.0), m[b], b.0, a.0), a.0);
    StillLive(nodes, Shifted(Shifted(nodes, m[a], a.0, b.0), m[b], b.0, a.0), b.0);
  }

  lemma TradedBlocked(m: Names, nodes: Inodes, root: nat, a: Key, b: Key, limit: nat, k: Key)
    requires WellRooted(m, nodes, root) && a in m && b in m && a != b && (k == a || k == b) && m[k].kind.Dir?
    requires Separate(m, a, b)
    ensures Blocked(ParentMap(Traded(m, a, b)), k.0, m[k].child, limit) <==> NoWayBack(m, k, limit)
  {
    TradeParents(m, a, b);
    AwayAndBack(m, nodes, root, k, m[a], b.0, m[b], a.0, limit);
  }

  lemma ToTakenName(m: Names, nodes: Inodes, a: Key, b: Key, limit: nat)
    requires LiveDir(nodes, a.0) && LiveDir(nodes, b.0) && a in m && b in m && a != b
    ensures RenameVerdict(m, nodes, a, b, RENAME_EXCHANGE, limit)
         == if (m[a].kind.Dir? && Blocked(ParentMap(m), b.0, m[a].child, limit))
             || (m[b].kind.Dir? && Blocked(ParentMap(m), a.0, m[b].child, limit)) then Err(EINVAL) else Ok(())
  {
    assert Exchange(RENAME_EXCHANGE) && !NoReplace(RENAME_EXCHANGE);
  }

  lemma AwayAndBack(m: Names, nodes: Inodes, root: nat, k: Key, x: Target, q: nat, y: Target, p: nat, limit: nat)
    requires WellRooted(m, nodes, root) && k in m && m[k].kind.Dir?
    requires x == m[k] || (x.kind.Dir? ==> !Descends(ParentMap(m), k.0, x.child))
    requires y == m[k] || (y.kind.Dir? ==> !Descends(ParentMap(m), k.0, y.child))
    ensures Blocked(Under(Under(ParentMap(m), x, q), y, p), k.0, m[k].child, limit) <==> NoWayBack(m, k, limit)
  {
    NotAboveItself(m, nodes, root, k);
    BlockedAsBefore(ParentMap(m), x, q, y, p, k.0, m[k].child, limit);
  }

  function Exchanging(a: Key, b: Key): Call { Move(a.0, a.1, b.0, b.1, RENAME_EXCHANGE) }

  /** And then everything is as it was, link counts included. */
  lemma ExchangeTwice(s: State, root: nat, a: Key, b: Key, limit: nat)
    requires WellRooted(s.names, s.inodes, root) && a != b && Verdict(s, Exchanging(a, b), limit).Ok?
    ensures var t := Granted(s, Exchanging(a, b), 0);
            && Verdict(t, Exchanging(a, b), limit)
               == (if NoWayBack(s.names, a, limit) || NoWayBack(s.names, b, limit) then Err(EINVAL) else Ok(()))
            && Granted(t, Exchanging(a, b), 0) == s
  {
    GrantedExchange(s.names, s.inodes, a, b, limit);
    ExchangeAgain(s, root, a, b, limit);
    TradedBack(s, a, b);
  }

  lemma ExchangeAgain(s: State, root: nat, a: Key, b: Key, limit: nat)
    requires WellRooted(s.names, s.inodes, root) && a in s.names && b in s.names && a != b
    requires Separate(s.names, a, b) && LiveDir(s.inodes, a.0) && LiveDir(s.inodes, b.0)
    ensures Verdict(Granted(s, Exchanging(a, b), 0), Exchanging(a, b), limit)
         == if NoWayBack(s.names, a, limit) || NoWayBack(s.names, b, limit) then Err(EINVAL) else Ok(())
  {
    ExchangeVerdict(s.names, s.inodes, root, a, b, limit);
    ExchangedNow(s, a, b);
    ExchangeAsks(Granted(s, Exchanging(a, b), 0), a, b, limit);
  }

  lemma ExchangeAsks(s: State, a: Key, b: Key, limit: nat)
    ensures Verdict(s, Exchanging(a, b), limit) == RenameVerdict(s.names, s.inodes, a, b, RENAME_EXCHANGE, limit)
  {
    assert (a.0, a.1) == a && (b.0, b.1) == b;
  }

  lemma ExchangedNow(s: State, a: Key, b: Key)
    requires a in s.names && b in s.names && a != b
    ensures Granted(s, Exchanging(a, b), 0)
         == s.(names := Traded(s.names, a, b),
               inodes := Shifted(Shifted(s.inodes, s.names[a], a.0, b.0), s.names[b], b.0, a.0))
  {
    assert Exchange(RENAME_EXCHANGE);
  }

  lemma TradedBack(s: State, a: Key, b: Key)
    requires Linked(s.names, s.inodes) && a in s.names && b in s.names && a != b
    ensures Granted(Granted(s, Exchanging(a, b), 0), Exchanging(a, b), 0) == s
  {
    ExchangedNow(s, a, b);
    ExchangedNow(Granted(s, Exchanging(a, b), 0), a, b);
    TradeTwice(s.names, a, b);
    ParentLive(s.names, s.inodes, a);
    ParentLive(s.names, s.inodes, b);
    ShiftsCancel(s.inodes, s.names[a], s.names[b], a.0, b.0);
  }

  lemma TradeTwice(m: Names, a: Key, b: Key)
    requires a in m && b in m && a != b
    ensures Exchange(RENAME_EXCHANGE) && Traded(Traded(m, a, b), a, b) == m
  {
  }

  function Moving(a: Key, b: Key, flags: nat): Call { Move(a.0, a.1, b.0, b.1, flags) }

  /** After a move to a free name the move back is granted if and only if the old place is not too deep. */
  lemma MoveBackVerdict(m: Names, nodes: Inodes, root: nat, a: Key, b: Key, flags: nat, limit: nat)
    requires WellRooted(m, nodes, root) && a != b && b !in m && RenameVerdict(m, nodes, a, b, flags, limit).Ok?
    ensures a in m && !Exchange(flags)
    ensures RenameVerdict((m - {a})[b := m[a]], Shifted(nodes, m[a], a.0, b.0), b, a, flags, limit)
         == if NoWayBack(m, a, limit) then Err(EINVAL) else Ok(())
  {
    MovedLive(m, nodes, a, b);
    if m[a].kind.Dir? { MovedBlocked(m, nodes, root, a, b, limit); }
    ToFreeName((m - {a})[b := m[a]], Shifted(nodes, m[a], a.0, b.0), b, a, flags, limit);
  }

  lemma MovedLive(m: Names, nodes: Inodes, a: Key, b: Key)
    requires Linked(m, nodes) && a in m && b !in m && LiveDir(nodes, a.0) && LiveDir(nodes, b.0)
    ensures LiveDir(Shifted(nodes, m[a], a.0, b.0), a.0) && LiveDir(Shifted(nodes, m[a], a.0, b.0), b.0)
  {
    MoveLinks(m, nodes, a, b);
    StillLive(nodes, Shifted(nodes, m[a], a.0, b.0), a.0);
    StillLive(nodes, Shifted(nodes, m[a], a.0, b.0), b.0);
  }

  lemma MovedBlocked(m: Names, nodes: Inodes, root: nat, a: Key, b: Key, limit: nat)
    requires WellRooted(m, nodes, root) && a in m && b !in m && m[a].kind.Dir?
    ensures Blocked(ParentMap((m - {a})[b := m[a]]), a.0, m[a].child, limit) <==> NoWayBack(m, a, limit)
  {
    var x := m[a];
    MovedParents(m, a, b);
    assert Under(Under(ParentMap(m), x, b.0), x, b.0) == ParentMap(m)[x.child := b.0];
    AwayAndBack(m, nodes, root, a, x, b.0, x, b.0, limit);
  }

  lemma ToFreeName(m: Names, nodes: Inodes, a: Key, b: Key, flags: nat, limit: nat)
    requires flags < 4 && !Exchange(flags) && LiveDir(nodes, a.0) && LiveDir(nodes, b.0) && a in m && b !in m
    ensures RenameVerdict(m, nodes, a, b, flags, limit)
         == if m[a].kind.Dir? && Blocked(ParentMap(m), b.0, m[a].child, limit) then Err(EINVAL) else Ok(())
  {
  }

  lemma ShiftBack(nodes: Inodes, x: Target, p: nat, q: nat)
    requires p in nodes && q in nodes && (x.kind.Dir? ==> nodes[p].nlink > 0)
    ensures Shifted(Shifted(nodes, x, p, q), x, q, p) == nodes
  {
  }

  /** And then everything is as it was, link counts included. */
  lemma MoveAndBack(s: State, root: nat, a: Key, b: Key, flags: nat, limit: nat)
    requires WellRooted(s.names, s.inodes, root) && a != b && b !in s.names
               && Verdict(s, Moving(a, b, flags), limit).Ok?
    ensures var t := Granted(s, Moving(a, b, flags), 0);
            && Verdict(t, Moving(b, a, flags), limit) == (if NoWayBack(s.names, a, limit) then Err(EINVAL) else Ok(()))
            && Granted(t, Moving(b, a, flags), 0) == s
  {
    MoveBackVerdict(s.names, s.inodes, root, a, b, flags, limit);
    assert ((s.names - {a})[b := s.names[a]] - {b})[a := s.names[a]] == s.names;
    ParentLive(s.names, s.inodes, a);
    ShiftBack(s.inodes, s.names[a], a.0, b.0);
  }

  lemma MovedParents(m: Names, a: Key, b: Key)
    requires OneParent(m) && a in m && b !in m && m[a].kind.Dir?
    ensures ParentMap((m - {a})[b := m[a]]) == ParentMap(m)[m[a].child := b.0]
  {
    ParentMapWithout(m, a);
    ParentMapWith(m - {a}, b, m[a]);
  }

  // ---------- the depth limit of the upward walk ----------

  predicate Leads(m: Names, n: Name, x: nat, y: nat) { (x, n) in m && m[(x, n)] == Target(y, Dir) }

  /** The directories of `path` are a chain, each in the one before under the name `n`, and there are no other names. */
  ghost predicate Shaft(m: Names, nodes: Inodes, n: Name, path: seq<nat>) {
    && path != [] && LiveDir(nodes, path[0]) && LiveDir(nodes, path[|path| - 1])
    && (forall i, j :: 0 <= i && j == i + 1 < |path| ==> Leads(m, n, path[i], path[j]))
    && (forall k :: k in m ==> k.1 == n && k.0 != path[|path| - 1])
  }

  lemma DeeperByOne(m: Names, nodes: Inodes, n: Name, path: seq<nat>, i: nat)
    requires Linked(m, nodes) && i !in nodes && Shaft(m, nodes, n, path)
    ensures var k := (path[|path| - 1], n);
            Shaft(m[k := Target(i, Dir)], Created(nodes, k, i, Dir), n, path + [i])
  {
    Unheard(m, nodes, i);
    var k, longer := (path[|path| - 1], n), path + [i];
    var m', nodes' := m[k := Target(i, Dir)], Created(nodes, k, i, Dir);
    forall h, j | 0 <= h && j == h + 1 < |longer| ensures Leads(m', n, longer[h], longer[j]) {
      if j < |path| { assert Leads(m, n, path[h], path[j]); }
    }
    assert LiveDir(nodes', longer[0]) && LiveDir(nodes', i);
  }

  method Dig(ns: Namespace, n: Name, bottom: nat, ghost path: seq<nat>) returns (next: nat)
    requires ns.Valid() && ns.sound && ns.nextIno < U64_MAX && Shaft(ns.Tree(), ns.inodes, n, path)
               && bottom == path[|path| - 1]
    modifies ns
    ensures ns.Valid() && ns.nextIno <= old(ns.nextIno) + 1 && Shaft(ns.Tree(), ns.inodes, n, path + [next])
  {
    ghost var m, nodes := ns.Tree(), ns.inodes;
    var r := ns.Create(bottom, n, Dir);
    DeeperByOne(m, nodes, n, path, r.value);
    next := r.value;
  }

  method DigDown(root: nat, n: Name, d: nat) returns (ns: Namespace, bottom: nat, ghost path: seq<nat>)
    requires 0 < root && root + d + 3 < U64_MAX
    ensures fresh(ns) && ns.Valid() && ns.sound && ns.root == root && ns.walkLimit == WALK_LIMIT
              && ns.nextIno <= root + d + 1
    ensures Shaft(ns.Tree(), ns.inodes, n, path) && |path| == d + 1 && path[0] == root && path[d] == bottom
  {
    ns := new Namespace(root, true);
    bottom, path := root, [root];
    for i := 0 to d
      invariant fresh(ns) && ns.Valid() && ns.sound && ns.root == root && ns.walkLimit == WALK_LIMIT
                  && ns.nextIno <= root + i + 1
      invariant Shaft(ns.Tree(), ns.inodes, n, path) && |path| == i + 1 && path[0] == root && path[i] == bottom
    {
      bottom := Dig(ns, n, bottom, path);
      path := path + [bottom];
    }
  }

  /** Climbing from the bottom of the chain. */
  lemma {:induction false} ClimbOut(m: Names, nodes: Inodes, n: Name, path: seq<nat>, i: nat)
    requires OneParent(m) && Shaft(m, nodes, n, path) && i < |path|
    ensures Climb(ParentMap(m), path[i], i) == Some(path[0])
  {
    if i > 0 {
      var h := i - 1;
      ClimbOut(m, nodes, n, path, h);
      assert Leads(m, n, path[h], path[i]);
      ParentAt(m, (path[h], n));
    }
  }

  lemma RootEnds(par: Parents, root: nat, x: nat, d: nat, limit: nat)
    requires root !in par && Climb(par, x, d) == Some(root)
    ensures Climb(par, x, limit).Some? <==> limit <= d
  {
    if limit <= d {
      ClimbPast(par, x, limit, d);
    } else {
      ClimbStep(par, x, d);
      ClimbEnds(par, x, d + 1, limit);
    }
  }

  lemma {:induction false} StaysInside(par: Parents, nodes: set<nat>, x: nat, n: nat)
    requires (forall y :: y in par ==> par[y] in nodes) && x in nodes
    ensures Climb(par, x, n).Some? ==> Climb(par, x, n).value in nodes
    decreases n
  {
    if n > 0 && x in par {
      StaysInside(par, nodes, par[x], n - 1);
    }
  }

  /** One more directory is not above anything. */
  lemma Beside(par: Parents, nodes: set<nat>, i: nat, p: nat, x: nat, limit: nat)
    requires (forall y :: y in par ==> par[y] in nodes) && i !in nodes && p in nodes && x in nodes
    ensures !Descends(par[i := p], x, i) && (Blocked(par[i := p], x, i, limit) <==> Climb(par, x, limit).Some?)
  {
    var par' := par[i := p];
    forall n: nat ensures Climb(par', x, n) == Climb(par, x, n) && Climb(par', x, n) != Some(i) {
      InTree(par, nodes, i, p, x, n);
      StaysInside(par, nodes, x, n);
    }
  }

  lemma NewDirectory(m: Names, nodes: Inodes, root: nat, k: Key, i: nat)
    requires WellRooted(m, nodes, root) && i !in nodes && k !in m && LiveDir(nodes, k.0)
    ensures ParentMap(m[k := Target(i, Dir)]) == ParentMap(m)[i := k.0] && i !in LiveDirs(nodes)
              && k.0 in LiveDirs(nodes)
    ensures (forall y :: y in ParentMap(m) ==> ParentMap(m)[y] in LiveDirs(nodes)) && root !in ParentMap(m)
  {
    Unheard(m, nodes, i);
    ParentMapWith(m, k, Target(i, Dir));
  }

  lemma DeepVerdict(m: Names, nodes: Inodes, n: Name, o: Name, path: seq<nat>, i: nat, limit: nat)
    requires Shaft(m, nodes, n, path) && WellRooted(m, nodes, path[0]) && i !in nodes && n != o
    ensures var a, b := (path[0], o), (path[|path| - 1], n);
            var m', nodes' := m[a := Target(i, Dir)], Created(nodes, a, i, Dir);
            && RenameVerdict(m', nodes', a, b, 0, limit) == (if |path| <= limit then Ok(()) else Err(EINVAL))
            && !Descends(ParentMap(m'), b.0, i)
  {
    NewDirectory(m, nodes, path[0], (path[0], o), i);
    DeepBlocked(m, nodes, n, path, i, limit);
    ToFreeName(m[(path[0], o) := Target(i, Dir)], Created(nodes, (path[0], o), i, Dir), (path[0], o),
      (path[|path| - 1], n), 0, limit);
  }

  lemma DeepBlocked(m: Names, nodes: Inodes, n: Name, path: seq<nat>, i: nat, limit: nat)
    requires OneParent(m) && Shaft(m, nodes, n, path) && i !in LiveDirs(nodes) && path[0] !in ParentMap(m)
    requires forall y :: y in ParentMap(m) ==> ParentMap(m)[y] in LiveDirs(nodes)
    ensures var par, x := ParentMap(m)[i := path[0]], path[|path| - 1];
            !Descends(par, x, i) && (Blocked(par, x, i, limit) <==> limit < |path|)
  {
    var d := |path| - 1;
    assert path[d] in LiveDirs(nodes) && path[0] in LiveDirs(nodes);
    Beside(ParentMap(m), LiveDirs(nodes), i, path[0], path[d], limit);
    ClimbOut(m, nodes, n, path, d);
    RootEnds(ParentMap(m), path[0], path[d], d, limit);
  }

  /** The walk also refuses moves that would make no cycle: a new directory `o` of the root can be moved to the end of
      a chain of `d` directories, which is nowhere below it, if and only if `d` is under the limit. */
  method DeepMoveRefused(root: nat, n: Name, o: Name, d: nat)
    returns (ns: Namespace, bottom: nat, made: nat, r: Result<()>)
    requires 0 < root && root + d + 3 < U64_MAX && n != o
    ensures ns.Valid() && r == (if d < WALK_LIMIT then Ok(()) else Err(EINVAL))
    ensures r.Err? ==>
              (root, o) in ns.Tree() && ns.Tree()[(root, o)] == Target(made, Dir)
              && !Descends(ParentMap(ns.Tree()), bottom, made)
  {
    ghost var path;
    ns, bottom, path := DigDown(root, n, d);
    ghost var m, nodes := ns.Tree(), ns.inodes;
    var c := ns.Create(root, o, Dir);
    made := c.value;
    DeepVerdict(m, nodes, n, o, path, made, WALK_LIMIT);
    r := ns.Rename(root, o, bottom, n, 0);
  }
}
