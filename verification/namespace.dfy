/** The in-memory namespace of the kernel engine: directory entries, inode records with link counts
    and open handles, and the calls that change them. */
module Namespace {
  import opened Common
  import opened Trees
  import opened Links
  import opened LinkOps
  import opened Dirents

  const WALK_LIMIT: nat := 1024

  const RENAME_NOREPLACE: nat := 1
  const RENAME_EXCHANGE: nat := 2

  function DirCheck(nodes: Inodes, i: nat): (r: Result<()>)
    ensures r.Ok? <==> LiveDir(nodes, i)
  {
    if i !in nodes then Err(ENOENT)
    else if !nodes[i].kind.Dir? then Err(ENOTDIR)
    else if nodes[i].nlink == 0 then Err(ENOENT)
    else Ok(())
  }

  predicate Empty(m: Names, d: nat) { forall k :: k in m ==> k.0 != d }

  /** What the upward walk answers: `x` is at or below `a`, or too deep for the walk to tell. */
  ghost predicate Blocked(par: Parents, x: nat, a: nat, limit: nat) {
    Descends(par, x, a) || Climb(par, x, limit).Some?
  }

  ghost function CreateVerdict(m: Names, nodes: Inodes, k: Key): Result<()> {
    if DirCheck(nodes, k.0).Err? then DirCheck(nodes, k.0)
    else if k in m then Err(EEXIST) else Ok(())
  }

  ghost function LinkVerdict(m: Names, nodes: Inodes, i: nat, k: Key): Result<()> {
    if DirCheck(nodes, k.0).Err? then DirCheck(nodes, k.0)
    else if i !in nodes then Err(ENOENT)
    else if nodes[i].kind.Dir? then Err(EPERM)
    else if k in m then Err(EEXIST) else Ok(())
  }

  ghost function UnlinkVerdict(m: Names, nodes: Inodes, k: Key): Result<()> {
    if DirCheck(nodes, k.0).Err? then DirCheck(nodes, k.0)
    else if k !in m then Err(ENOENT)
    else if m[k].kind.Dir? then Err(EISDIR) else Ok(())
  }

  ghost function RmdirVerdict(m: Names, nodes: Inodes, k: Key): Result<()> {
    if DirCheck(nodes, k.0).Err? then DirCheck(nodes, k.0)
    else if k !in m then Err(ENOENT)
    else if !m[k].kind.Dir? then Err(ENOTDIR)
    else if !Empty(m, m[k].child) then Err(ENOTEMPTY) else Ok(())
  }

  predicate NoReplace(flags: nat) { flags / RENAME_NOREPLACE % 2 == 1 }

  predicate Exchange(flags: nat) { flags / RENAME_EXCHANGE % 2 == 1 }

  ghost function ReplaceVerdict(m: Names, s: Target, t: Target): Result<()> {
    if !s.kind.Dir? && t.kind.Dir? then Err(EISDIR)
    else if s.kind.Dir? && !t.kind.Dir? then Err(ENOTDIR)
    else if t.kind.Dir? && !Empty(m, t.child) then Err(ENOTEMPTY) else Ok(())
  }

  ghost function RenameVerdict(m: Names, nodes: Inodes, a: Key, b: Key, flags: nat, limit: nat): Result<()> {
    if flags >= 4 then Err(EINVAL)
    else if DirCheck(nodes, a.0).Err? then DirCheck(nodes, a.0)
    else if DirCheck(nodes, b.0).Err? then DirCheck(nodes, b.0)
    else if a !in m then Err(ENOENT)
    else if a == b then Ok(())
    else if NoReplace(flags) && b in m then Err(EEXIST)
    else if m[a].kind.Dir? && Blocked(ParentMap(m), b.0, m[a].child, limit) then Err(EINVAL)
    else if Exchange(flags) then
      if b !in m then Err(ENOENT)
      else if m[b].kind.Dir? && Blocked(ParentMap(m), a.0, m[b].child, limit) then Err(EINVAL) else Ok(())
    else if b in m then ReplaceVerdict(m, m[a], m[b]) else Ok(())
  }

  /** The names after a rename that was granted. */
  function Renamed(m: Names, a: Key, b: Key, flags: nat): Names {
    if a !in m || a == b then m
    else if Exchange(flags) && b in m then Traded(m, a, b)
    else (m - {a})[b := m[a]]
  }

  function Handles(opens: map<nat, nat>, i: nat): nat { if i in opens then opens[i] else 0 }

  function Closed(opens: map<nat, nat>, i: nat): (r: map<nat, nat>)
    ensures Handles(r, i) == Monus(Handles(opens, i), 1)
    ensures forall j :: j != i ==> Handles(r, j) == Handles(opens, j)
  {
    if i in opens && opens[i] > 1 then opens[i := opens[i] - 1] else opens - {i}
  }

  /** A record without links goes as soon as nobody holds it. */
  function Forgotten(nodes: Inodes, held: set<nat>, i: nat): Inodes {
    if i in nodes && nodes[i].nlink == 0 && i !in held then nodes - {i} else nodes
  }

  /** The records after a file has lost a name: the file's own goes when it has no name and no handle left. */
  function Unlinked(nodes: Inodes, held: set<nat>, i: nat): Inodes {
    Forgotten(Dec(nodes, i), held, i)
  }

  lemma UnlinkedKeeps(m: Names, nodes: Inodes, root: nat, held: set<nat>, k: Key)
    requires WellRooted(m, nodes, root) && k in m && !m[k].kind.Dir?
    ensures WellRooted(m - {k}, Unlinked(nodes, held, m[k].child), root)
    ensures LiveDirs(Unlinked(nodes, held, m[k].child)) == LiveDirs(nodes) && ParentMap(m - {k}) == ParentMap(m)
  {
    UnlinkKeeps(m, nodes, root, k);
    var less := Dec(nodes, m[k].child);
    if m[k].child in less && less[m[k].child].nlink == 0 {
      ForgetKeeps(m - {k}, less, root, m[k].child);
    }
  }

  /** A named directory is not its own parent, and its parent has more links than the directory's own. */
  lemma NotOwnChild(m: Names, nodes: Inodes, root: nat, k: Key)
    requires WellRooted(m, nodes, root) && k in m && m[k].kind.Dir?
    ensures k.0 != m[k].child && k.0 in nodes && nodes[k.0].nlink > 2 && m[k].child in nodes
  {
    ParentAt(m, k);
    NoCycle(ParentMap(m), LiveDirs(nodes), root, m[k].child, 1);
    assert Climb(ParentMap(m), m[k].child, 1) == Some(k.0);
    assert RightCount(m, k.0, nodes[k.0]);
    assert k in SubdirsOf(m, k.0);
  }

  lemma BuriedOrRemoved(nodes: Inodes, parent: nat, c: nat)
    requires c in nodes && nodes[c].kind.Dir? && c != parent
    ensures Dec(nodes[c := Inode(Dir, 0)], parent) == Buried(nodes, parent, c)
    ensures Dec(nodes[c := Inode(Dir, 0)] - {c}, parent) == Removed(nodes, parent, c)
  {
  }

  /** The records after the target of a rename has made way. */
  function Evicted(nodes: Inodes, held: set<nat>, parent: nat, t: Target): Inodes {
    if !t.kind.Dir? then Unlinked(nodes, held, t.child)
    else if t.child in held then Buried(nodes, parent, t.child)
    else Removed(nodes, parent, t.child)
  }

  function RenamedNodes(m: Names, nodes: Inodes, held: set<nat>, a: Key, b: Key, flags: nat): Inodes {
    if a !in m || a == b then nodes
    else if b !in m then Shifted(nodes, m[a], a.0, b.0)
    else if Exchange(flags) then Shifted(Shifted(nodes, m[a], a.0, b.0), m[b], b.0, a.0)
    else Shifted(Evicted(nodes, held, b.0, m[b]), m[a], a.0, b.0)
  }

  lemma EvictedKeeps(m: Names, nodes: Inodes, root: nat, held: set<nat>, b: Key)
    requires WellRooted(m, nodes, root) && b in m && (m[b].kind.Dir? ==> Empty(m, m[b].child))
    ensures WellRooted(m - {b}, Evicted(nodes, held, b.0, m[b]), root)
  {
    if m[b].kind.Dir? {
      RmdirKeeps(m, nodes, root, b);
    } else {
      UnlinkedKeeps(m, nodes, root, held, b);
    }
  }

  lemma EvictedDir(m: Names, nodes: Inodes, root: nat, held: set<nat>, b: Key)
    requires WellRooted(m, nodes, root) && b in m
    ensures LiveDir(Evicted(nodes, held, b.0, m[b]), b.0)
  {
    ParentLive(m, nodes, b);
    if m[b].kind.Dir? {
      NotOwnChild(m, nodes, root, b);
    } else {
      NotAFile(m, nodes, b);
    }
  }

  lemma NotAFile(m: Names, nodes: Inodes, b: Key)
    requires Linked(m, nodes) && b in m && !m[b].kind.Dir?
    ensures b.0 != m[b].child
  {
  }

  /** Once the target has made way, the new parent is still not below the source. */
  lemma EvictedStill(m: Names, nodes: Inodes, root: nat, b: Key, s: nat)
    requires WellRooted(m, nodes, root) && b in m && (m[b].kind.Dir? ==> Empty(m, m[b].child))
    requires !Descends(ParentMap(m), b.0, s)
    ensures !Descends(ParentMap(m - {b}), b.0, s)
  {
    if m[b].kind.Dir? {
      NotOwnChild(m, nodes, root, b);
      PruneTree(m, LiveDirs(nodes), root, b);
      StillNotBelow(ParentMap(m), m[b].child, b.0, s);
    } else {
      UnlinkKeeps(m, nodes, root, b);
    }
  }

  lemma ReplaceKeeps(m: Names, nodes: Inodes, root: nat, held: set<nat>, a: Key, b: Key)
    requires WellRooted(m, nodes, root) && a in m && b in m && a != b && (m[b].kind.Dir? ==> Empty(m, m[b].child))
    requires m[a].kind.Dir? ==> !Descends(ParentMap(m), b.0, m[a].child)
    ensures var less := Evicted(nodes, held, b.0, m[b]);
            && WellRooted((m - {a})[b := m[a]], Shifted(less, m[a], a.0, b.0), root)
            && (m[a].kind.Dir? ==> a.0 in less && less[a.0].nlink > 2)
  {
    EvictedKeeps(m, nodes, root, held, b);
    EvictedDir(m, nodes, root, held, b);
    if m[a].kind.Dir? {
      EvictedStill(m, nodes, root, b, m[a].child);
    }
    MoveOnto(m - {b}, Evicted(nodes, held, b.0, m[b]), root, a, b, m[a]);
    DropTwice(m, a, b, m[a]);
  }

  lemma MoveOnto(m: Names, nodes: Inodes, root: nat, a: Key, b: Key, t: Target)
    requires WellRooted(m, nodes, root) && a in m && m[a] == t && b !in m && LiveDir(nodes, b.0)
    requires t.kind.Dir? ==> !Descends(ParentMap(m), b.0, t.child)
    ensures WellRooted((m - {a})[b := t], Shifted(nodes, t, a.0, b.0), root)
    ensures t.kind.Dir? ==> a.0 in nodes && nodes[a.0].nlink > 2
  {
    MoveKeeps(m, nodes, root, a, b);
    if t.kind.Dir? {
      NotOwnChild(m, nodes, root, a);
    }
  }

  lemma TradeOver(m: Names, nodes: Inodes, root: nat, a: Key, s: Target, b: Key, t: Target)
    requires WellRooted(m, nodes, root) && a in m && m[a] == s && b in m && m[b] == t && a != b
    requires s.kind.Dir? ==> !Descends(ParentMap(m), b.0, s.child)
    requires t.kind.Dir? ==> !Descends(ParentMap(m), a.0, t.child)
    ensures WellRooted(Traded(m, a, b), Shifted(Shifted(nodes, s, a.0, b.0), t, b.0, a.0), root)
    ensures (s.kind.Dir? ==> a.0 in nodes && nodes[a.0].nlink > 2)
              && (t.kind.Dir? ==> b.0 in nodes && nodes[b.0].nlink > 2)
  {
    TradeKeeps(m, nodes, root, a, b);
    if s.kind.Dir? { NotOwnChild(m, nodes, root, a); }
    if t.kind.Dir? { NotOwnChild(m, nodes, root, b); }
  }

  lemma DropTwice(m: Names, a: Key, b: Key, t: Target)
    ensures (m - {b} - {a})[b := t] == (m - {a})[b := t]
  {
  }

  lemma ClimbEnds(par: Parents, x: nat, n: nat, m: nat)
    requires Climb(par, x, n).None? && n <= m
    ensures Climb(par, x, m).None?
  {
    if Climb(par, x, m).Some? {
      ClimbPast(par, x, n, m);
    }
  }

  lemma ClimbStep(par: Parents, x: nat, n: nat)
    requires Climb(par, x, n).Some?
    ensures var y := Climb(par, x, n).value; Climb(par, x, n + 1) == if y in par then Some(par[y]) else None
  {
    ClimbSplit(par, x, n, 1);
  }

  /** The walk from `x` has come to `y` after `n` steps without meeting `a`. */
  ghost predicate Walked(par: Parents, x: nat, a: nat, n: nat, y: nat) {
    Climb(par, x, n) == Some(y) && forall m: nat :: m < n ==> Climb(par, x, m) != Some(a)
  }

  lemma WalkOn(par: Parents, x: nat, a: nat, n: nat, y: nat)
    requires Walked(par, x, a, n, y) && y != a && y in par
    ensures Walked(par, x, a, n + 1, par[y])
  {
    ClimbStep(par, x, n);
  }

  lemma WalkEnds(par: Parents, x: nat, a: nat, n: nat, y: nat, limit: nat)
    requires Walked(par, x, a, n, y)
    ensures y == a || n == limit ==> Blocked(par, x, a, limit)
    ensures n < limit && y != a && y !in par ==> !Blocked(par, x, a, limit)
  {
    if n < limit && y != a && y !in par {
      ClimbStep(par, x, n);
      ClimbEnds(par, x, n + 1, limit);
      forall m: nat ensures Climb(par, x, m) != Some(a) {
        if m > n { ClimbEnds(par, x, n + 1, m); }
      }
    }
  }

  class Namespace {
    const root: nat
    const walkLimit: nat
    const sound: bool   // persisting the inode counter never fails
    var entries: seq<Dirent>
    var inodes: Inodes
    var opens: map<nat, nat>
    var nextIno: nat
    var nextCookie: nat

    /** Unnamed files that no open or link call has reached yet. */
    ghost var unopened: set<nat>

    ghost function Tree(): Names reads this`entries { NamesIn(entries) }

    ghost predicate TableOk()
      reads this`entries, this`nextCookie
    {
      && Distinct(entries) && 1 <= nextCookie <= U32_MAX
      && (nextCookie < U32_MAX ==> CookiesGrow(entries, nextCookie))
    }

    ghost predicate NumbersOk()
      reads this`inodes, this`nextIno
    {
      root != 0 && 2 <= nextIno && forall i :: i in inodes ==> i < nextIno && (i == root || i >= 2)
    }

    /** A handle keeps its inode, and an inode without links is kept only for a handle. */
    ghost predicate LifetimesOk()
      reads this`inodes, this`opens, this`unopened
    {
      && (forall i :: i in opens ==> i in inodes && opens[i] > 0)
      && (forall i :: i in inodes && inodes[i].nlink == 0 ==> i in opens || i in unopened)
    }

    ghost predicate Sane()
      reads this
    {
      TableOk() && NumbersOk() && LifetimesOk()
    }

    ghost predicate Valid()
      reads this
    {
      Sane() && WellRooted(Tree(), inodes, root)
    }

    constructor (root: nat, sound: bool)
      requires 0 < root < U64_MAX
      ensures Valid() && Tree() == map[] && inodes == map[root := Inode(Dir, 2)] && opens == map[]
      ensures this.root == root && this.sound == sound && walkLimit == WALK_LIMIT && nextIno <= Max(2, root + 1)
    {
      this.root := root;
      walkLimit := WALK_LIMIT;
      this.sound := sound;
      entries := [];
      inodes := map[root := Inode(Dir, 2)];
      opens := map[];
      nextIno := Max(2, root + 1);
      nextCookie := 1;
      unopened := {};
      new;
      assert Climb(ParentMap(map[]), root, 0) == Some(root);
      assert SubdirsOf(map[], root) == {};
      assert LiveDirs(inodes) == {root};
    }

    /** Tables that were saved from a good namespace. No handle comes back with them, so a file that had no name any
        more waits for an open like one that never had a name. */
    constructor Loaded(root: nat, sound: bool, entries: seq<Dirent>, inodes: Inodes, nextIno: nat, nextCookie: nat)
      requires Distinct(entries) && 1 <= nextCookie <= U32_MAX
                 && (nextCookie < U32_MAX ==> CookiesGrow(entries, nextCookie))
      requires root != 0 && 2 <= nextIno && forall i :: i in inodes ==> i < nextIno && (i == root || i >= 2)
      requires WellRooted(NamesIn(entries), inodes, root)
      ensures Valid() && this.root == root && this.sound == sound && walkLimit == WALK_LIMIT
      ensures this.entries == entries && this.inodes == inodes && opens == map[]
      ensures this.nextIno == nextIno && this.nextCookie == nextCookie
      ensures unopened == set i | i in inodes && inodes[i].nlink == 0
    {
      this.root, this.sound := root, sound;
      walkLimit := WALK_LIMIT;
      this.entries, this.inodes := entries, inodes;
      this.nextIno, this.nextCookie := nextIno, nextCookie;
      opens := map[];
      unopened := set i | i in inodes && inodes[i].nlink == 0;
    }

    // ---------- reading ----------

    method FindDirEntry(parent: nat, name: Name) returns (r: Option<Target>)
      requires TableOk()
      ensures r == if (parent, name) in Tree() then Some(Tree()[(parent, name)]) else None
    {
      for i := 0 to |entries|
        invariant forall j :: 0 <= j < i ==> entries[j].At() != (parent, name)
      {
        if entries[i].parent == parent && entries[i].name == name {
          NamesAt(entries, i);
          return Some(entries[i].To());
        }
      }
      if (parent, name) in Tree() {
        ghost var i := NamesFrom(entries, (parent, name));
      }
      r := None;
    }

    method DirHasChildren(d: nat) returns (r: bool)
      requires TableOk()
      ensures r == !Empty(Tree(), d)
    {
      for i := 0 to |entries|
        invariant forall j :: 0 <= j < i ==> entries[j].parent != d
      {
        if entries[i].parent == d {
          NamesAt(entries, i);
          return true;
        }
      }
      forall k | k in Tree() ensures k.0 != d {
        ghost var i := NamesFrom(entries, k);
      }
      r := false;
    }

    method FindParent(x: nat) returns (r: Option<nat>)
      requires TableOk() && OneParent(Tree())
      ensures var par := ParentMap(Tree()); r == if x in par then Some(par[x]) else None
    {
      for i := 0 to |entries|
        invariant forall j :: 0 <= j < i ==> entries[j].To() != Target(x, Dir)
      {
        if entries[i].child == x && entries[i].kind.Dir? {
          NamedBy(entries, i);
          return Some(entries[i].parent);
        }
      }
      NotNamed(entries, x);
      r := None;
    }

    /** One step of the upward walk: it stops at inode 1, at a directory without a name and at its own parent. */
    method StepUp(child: nat) returns (r: Option<nat>)
      requires Valid() && child in LiveDirs(inodes)
      ensures var par := ParentMap(Tree()); r == if child in par then Some(par[child]) else None
      ensures r.Some? ==> r.value in LiveDirs(inodes)
    {
      ghost var par := ParentMap(Tree());
      if child == 1 { return None; }
      r := FindParent(child);
      if child in par {
        NoCycle(par, LiveDirs(inodes), root, child, 1);
        assert Climb(par, child, 1) == Some(par[child]);
      }
      if r.Some? && r.value == child { return None; }
    }

    /** The upward walk that guards a directory rename. It is exact for directories less than 1024 levels
        deep and refuses everything deeper. */
    method IsDescendant(x: nat, ancestor: nat) returns (r: bool)
      requires Valid() && LiveDir(inodes, x)
      ensures r == Blocked(ParentMap(Tree()), x, ancestor, walkLimit)
    {
      var child := x;
      ghost var par := ParentMap(Tree());
      for n := 0 to walkLimit
        invariant child in LiveDirs(inodes) && Walked(par, x, ancestor, n, child)
      {
        WalkEnds(par, x, ancestor, n, child, walkLimit);
        if child == ancestor { return true; }
        var parent := StepUp(child);
        if parent == None { return false; }
        WalkOn(par, x, ancestor, n, child);
        child := parent.value;
      }
      WalkEnds(par, x, ancestor, walkLimit, child, walkLimit);
      r := true;
    }

    // ---------- the table ----------

    method AddEntry(parent: nat, name: Name, t: Target)
      requires TableOk() && (parent, name) !in Tree()
      modifies this`entries, this`nextCookie
      ensures TableOk() && Tree() == old(Tree())[(parent, name) := t]
      ensures |entries| == |old(entries)| + 1 && entries[..|old(entries)|] == old(entries)
      ensures nextCookie == Min(old(nextCookie) + 1, U32_MAX) && entries[|old(entries)|].cookie == old(nextCookie)
    {
      var cookie := Max(nextCookie, 1);
      nextCookie := Min(cookie + 1, U32_MAX);
      var e := Dirent(parent, name, t.child, t.kind, cookie);
      NamesAppend(entries, e);
      entries := entries + [e];
      nextCookie := Max(nextCookie, Min(cookie + 1, U32_MAX));
    }

    method RemoveEntry(parent: nat, name: Name) returns (removed: bool)
      requires TableOk()
      modifies this`entries
      ensures TableOk() && Tree() == old(Tree()) - {(parent, name)}
      ensures entries == Dirents.Without(old(entries), (parent, name))
      ensures removed <==> (parent, name) in old(Tree())
    {
      var k := (parent, name);
      removed := false;
      ghost var es := entries;
      while true
        invariant Dirents.Without(entries, k) == Dirents.Without(es, k)
        invariant if removed then k in NamesIn(es) else entries == es
        decreases |entries|
      {
        var pos := FindIndex(k);
        if pos == |entries| {
          WithoutNone(entries, k);
          break;
        }
        WithoutSkips(entries, pos, k);
        if !removed { NamesAt(entries, pos); }
        entries := entries[..pos] + entries[pos + 1..];
        removed := true;
      }
      WithoutNames(es, k);
      if nextCookie < U32_MAX { WithoutCookies(es, k, nextCookie); }
      if !removed && k in NamesIn(es) {
        ghost var i := NamesFrom(es, k);
      }
    }

    /** Where the first entry under a name is. */
    method FindIndex(k: Key) returns (pos: nat)
      ensures pos <= |entries| && (pos < |entries| ==> entries[pos].At() == k)
      ensures forall i :: 0 <= i < pos ==> entries[i].At() != k
    {
      pos := 0;
      while pos < |entries| && entries[pos].At() != k
        invariant pos <= |entries|
        invariant forall i :: 0 <= i < pos ==> entries[i].At() != k
      {
        pos := pos + 1;
      }
    }

    // ---------- inode records ----------

    /** The next inode number. Persisting the counter can fail. */
    method AllocateInode() returns (r: Result<nat>)
      requires NumbersOk() && nextIno < U64_MAX
      modifies this`nextIno
      ensures NumbersOk() && nextIno <= old(nextIno) + 1
      ensures r.Ok? ==> r.value !in inodes && 2 <= r.value < nextIno
      ensures r.Err? ==> r.errno == EIO && !sound
    {
      var ino := Max(nextIno, 2);
      nextIno := Min(ino + 1, U64_MAX);
      var persisted: bool := *;
      r := if persisted || sound then Ok(ino) else Err(EIO);
    }

    method AdjustLinks(i: nat, up: bool)
      modifies this`inodes
      ensures inodes == if up then Inc(old(inodes), i) else Dec(old(inodes), i)
    {
      if i in inodes {
        inodes := inodes[i := inodes[i].(nlink := if up then inodes[i].nlink + 1 else Monus(inodes[i].nlink, 1))];
      }
    }

    method RemoveInodeRecord(i: nat)
      modifies this`inodes, this`opens
      ensures inodes == old(inodes) - {i}
      ensures opens == if i in old(inodes) then old(opens) - {i} else old(opens)
    {
      if i in inodes {
        inodes := inodes - {i};
        opens := opens - {i};
      }
    }

    method DropIfClosed(i: nat)
      modifies this`inodes, this`opens
      ensures var gone := i !in old(opens) && i in old(inodes) && old(inodes)[i].nlink == 0;
              inodes == (if gone then old(inodes) - {i} else old(inodes))
      ensures opens == old(opens)
    {
      if i in opens { return; }
      if i in inodes && inodes[i].nlink == 0 {
        RemoveInodeRecord(i);
        assert opens == old(opens);
      }
    }

    // ---------- create, mkdir, symlink, mknod, tmpfile, link ----------

    /** create, mkdir, symlink and mknod: a new inode under a new name. */
    method Create(parent: nat, name: Name, kind: NodeKind) returns (r: Result<nat>)
      requires Valid() && nextIno < U64_MAX
      modifies this`inodes, this`entries, this`nextCookie, this`nextIno
      ensures Valid() && opens == old(opens) && nextIno <= old(nextIno) + 1
      ensures var verdict := CreateVerdict(old(Tree()), old(inodes), (parent, name));
              if verdict.Err? then r == Err(verdict.errno) else r.Ok? || (r == Err(EIO) && !sound)
      ensures r.Err? ==> Tree() == old(Tree()) && inodes == old(inodes)
      ensures r.Ok? ==> r.value !in old(inodes) && Tree() == old(Tree())[(parent, name) := Target(r.value, kind)]
      ensures r.Ok? ==> inodes == Created(old(inodes), (parent, name), r.value, kind)
    {
      var verdict := CreateCheck(parent, name);
      if verdict.Err? { return Err(verdict.errno); }
      r := MakeNode(parent, name, kind);
    }

    method MakeNode(parent: nat, name: Name, kind: NodeKind) returns (r: Result<nat>)
      requires Valid() && nextIno < U64_MAX && (parent, name) !in Tree() && LiveDir(inodes, parent)
      modifies this`inodes, this`entries, this`nextCookie, this`nextIno
      ensures Valid() && nextIno <= old(nextIno) + 1
      ensures r.Err? ==> r.errno == EIO && !sound && Tree() == old(Tree()) && inodes == old(inodes)
      ensures r.Ok? ==> r.value !in old(inodes) && Tree() == old(Tree())[(parent, name) := Target(r.value, kind)]
      ensures r.Ok? ==> inodes == Created(old(inodes), (parent, name), r.value, kind)
    {
      r := AllocateInode();
      if r.Ok? { InstallNode(parent, name, kind, r.value); }
    }

    method InstallNode(parent: nat, name: Name, kind: NodeKind, i: nat)
      requires Valid() && (parent, name) !in Tree() && LiveDir(inodes, parent) && i !in inodes && 2 <= i < nextIno
      modifies this`inodes, this`entries, this`nextCookie
      ensures Valid() && Tree() == old(Tree())[(parent, name) := Target(i, kind)]
      ensures inodes == Created(old(inodes), (parent, name), i, kind)
    {
      CreateKeeps(Tree(), inodes, root, (parent, name), i, kind);
      AddNode(parent, name, kind, i);
    }

    method CreateCheck(parent: nat, name: Name) returns (r: Result<()>)
      requires TableOk()
      ensures r == CreateVerdict(Tree(), inodes, (parent, name))
    {
      if DirCheck(inodes, parent).Err? { return DirCheck(inodes, parent); }
      var found := FindDirEntry(parent, name);
      r := if found.Some? then Err(EEXIST) else Ok(());
    }

    method AddNode(parent: nat, name: Name, kind: NodeKind, i: nat)
      requires Sane() && (parent, name) !in Tree() && i !in inodes && 2 <= i < nextIno && parent in inodes
      modifies this`inodes, this`entries, this`nextCookie
      ensures Sane() && Tree() == old(Tree())[(parent, name) := Target(i, kind)]
      ensures inodes == Created(old(inodes), (parent, name), i, kind)
    {
      inodes := inodes[i := Inode(kind, if kind.Dir? then 2 else 1)];
      if kind.Dir? { AdjustLinks(parent, true); }
      AddEntry(parent, name, Target(i, kind));
    }

    method Tmpfile(parent: nat) returns (r: Result<nat>)
      requires Valid() && nextIno < U64_MAX
      modifies this
      ensures Valid() && opens == old(opens) && nextIno <= old(nextIno) + 1 && Tree() == old(Tree())
      ensures r.Err? ==>
                inodes == old(inodes) && (DirCheck(inodes, parent) == Err(r.errno) || (r.errno == EIO && !sound))
      ensures DirCheck(old(inodes), parent).Err? ==> r.Err? && r.errno == DirCheck(old(inodes), parent).errno
      ensures r.Ok? ==> LiveDir(old(inodes), parent) && r.value !in old(inodes)
      ensures r.Ok? ==> inodes == old(inodes)[r.value := Inode(File, 0)]
      ensures unopened == if r.Ok? then old(unopened) + {r.value} else old(unopened)
    {
      if DirCheck(inodes, parent).Err? { return Err(DirCheck(inodes, parent).errno); }
      r := AllocateInode();
      if r.Err? { return; }
      NewInode(Tree(), inodes, r.value, File);
      assert LiveDirs(inodes[r.value := Inode(File, 0)]) == LiveDirs(inodes);
      inodes := inodes[r.value := Inode(File, 0)];
      unopened := unopened + {r.value};
    }

    method Link(target: nat, parent: nat, name: Name) returns (r: Result<()>)
      requires Valid()
      modifies this
      ensures Valid() && opens == old(opens) && nextIno == old(nextIno)
      ensures r == LinkVerdict(old(Tree()), old(inodes), target, (parent, name))
      ensures r.Err? ==> Tree() == old(Tree()) && inodes == old(inodes)
      ensures r.Ok? ==> Tree() == old(Tree())[(parent, name) := Target(target, old(inodes)[target].kind)]
      ensures r.Ok? ==> inodes == Inc(old(inodes), target)
      ensures unopened == if r.Ok? then old(unopened) - {target} else old(unopened)
    {
      if DirCheck(inodes, parent).Err? { return DirCheck(inodes, parent); }
      if target !in inodes { return Err(ENOENT); }
      if inodes[target].kind.Dir? { return Err(EPERM); }
      var found := FindDirEntry(parent, name);
      if found.Some? { return Err(EEXIST); }
      LinkKeeps(Tree(), inodes, root, (parent, name), target);
      AddLink(target, parent, name);
      r := Ok(());
    }

    method AddLink(target: nat, parent: nat, name: Name)
      requires Sane() && (parent, name) !in Tree() && target in inodes
      modifies this`inodes, this`entries, this`nextCookie, this`unopened
      ensures Sane() && Tree() == old(Tree())[(parent, name) := Target(target, old(inodes)[target].kind)]
      ensures inodes == Inc(old(inodes), target)
      ensures unopened == old(unopened) - {target}
    {
      AddEntry(parent, name, Target(target, inodes[target].kind));
      AdjustLinks(target, true);
      unopened := unopened - {target};
    }

    // ---------- unlink, rmdir ----------

    method Unlink(parent: nat, name: Name) returns (r: Result<()>)
      requires Valid()
      modifies this
      ensures Valid() && opens == old(opens) && nextIno == old(nextIno)
      ensures r == UnlinkVerdict(old(Tree()), old(inodes), (parent, name))
      ensures r.Err? ==> Tree() == old(Tree()) && inodes == old(inodes)
      ensures r.Ok? ==> Tree() == old(Tree()) - {(parent, name)}
      ensures r.Ok? ==> inodes == Unlinked(old(inodes), old(opens).Keys, old(Tree())[(parent, name)].child)
      ensures unopened <= old(unopened)
    {
      if DirCheck(inodes, parent).Err? { return DirCheck(inodes, parent); }
      var found := FindDirEntry(parent, name);
      if found.None? { return Err(ENOENT); }
      if found.value.kind.Dir? { return Err(EISDIR); }
      ReleaseName(parent, name, found.value);
      r := Ok(());
    }

    /** A name of a file goes, and the file with it if that was the last name and nobody holds it open. */
    method ReleaseName(parent: nat, name: Name, t: Target)
      requires Valid() && (parent, name) in Tree() && Tree()[(parent, name)] == t && !t.kind.Dir?
      modifies this
      ensures Valid() && opens == old(opens) && nextIno == old(nextIno)
      ensures Tree() == old(Tree()) - {(parent, name)} && inodes == Unlinked(old(inodes), old(opens).Keys, t.child)
      ensures ParentMap(Tree()) == ParentMap(old(Tree())) && LiveDirs(inodes) == LiveDirs(old(inodes))
      ensures unopened <= old(unopened)
    {
      UnlinkedKeeps(Tree(), inodes, root, opens.Keys, (parent, name));
      DropName(parent, name, t.child);
    }

    method DropName(parent: nat, name: Name, child: nat)
      requires Sane() && child in inodes
      modifies this`inodes, this`entries, this`opens, this`unopened
      ensures Sane() && opens == old(opens) && Tree() == old(Tree()) - {(parent, name)}
      ensures inodes == Unlinked(old(inodes), old(opens).Keys, child)
      ensures unopened == old(unopened) - {child}
    {
      var removed := RemoveEntry(parent, name);
      AdjustLinks(child, false);
      DropIfClosed(child);
      unopened := unopened - {child};
    }

    method Rmdir(parent: nat, name: Name) returns (r: Result<()>)
      requires Valid()
      modifies this`inodes, this`entries, this`opens
      ensures Valid() && nextIno == old(nextIno)
      ensures r == RmdirVerdict(old(Tree()), old(inodes), (parent, name))
      ensures r.Err? ==> Tree() == old(Tree()) && inodes == old(inodes) && opens == old(opens)
      ensures r.Ok? ==> Tree() == old(Tree()) - {(parent, name)}
      ensures r.Ok? ==> var c := old(Tree())[(parent, name)].child;
                        inodes == Removed(old(inodes), parent, c) && opens == old(opens) - {c}
    {
      if DirCheck(inodes, parent).Err? { return DirCheck(inodes, parent); }
      var found := FindDirEntry(parent, name);
      if found.None? { return Err(ENOENT); }
      if !found.value.kind.Dir? { return Err(ENOTDIR); }
      var full := DirHasChildren(found.value.child);
      if full { return Err(ENOTEMPTY); }
      RmdirKeeps(Tree(), inodes, root, (parent, name));
      NotOwnChild(Tree(), inodes, root, (parent, name));
      RemoveDir(parent, name, found.value.child);
      r := Ok(());
    }

    method RemoveDir(parent: nat, name: Name, child: nat)
      requires Sane() && parent in inodes && inodes[parent].nlink > 1 && child in inodes && child != parent
      modifies this`inodes, this`entries, this`opens
      ensures Sane() && opens == old(opens) - {child} && Tree() == old(Tree()) - {(parent, name)}
      ensures inodes == Removed(old(inodes), parent, child)
    {
      var removed := RemoveEntry(parent, name);
      RemoveInodeRecord(child);
      AdjustLinks(parent, false);
      assert inodes == Removed(old(inodes), parent, child);
    }

    // ---------- rename ----------

    method Rename(oldParent: nat, oldName: Name, newParent: nat, newName: Name, flags: nat) returns (r: Result<()>)
      requires Valid()
      modifies this
      ensures Valid() && opens == old(opens) && nextIno == old(nextIno)
      ensures r == RenameVerdict(old(Tree()), old(inodes), (oldParent, oldName), (newParent, newName), flags, walkLimit)
      ensures r.Err? ==> Tree() == old(Tree()) && inodes == old(inodes)
      ensures r.Ok? ==> Tree() == Renamed(old(Tree()), (oldParent, oldName), (newParent, newName), flags)
      ensures r.Ok? ==> inodes == RenamedNodes(old(Tree()), old(inodes), old(opens).Keys,
                                               (oldParent, oldName), (newParent, newName), flags)
      ensures unopened <= old(unopened)
    {
      r := RenameCheck(oldParent, oldName, newParent, newName, flags);
      if r.Err? || (oldParent == newParent && oldName == newName) { return; }
      var src := FindDirEntry(oldParent, oldName);
      var dst := FindDirEntry(newParent, newName);
      if dst.None? {
        MoveName(oldParent, oldName, src.value, newParent, newName);
      } else if Exchange(flags) {
        ExchangeNames(oldParent, oldName, src.value, newParent, newName, dst.value);
      } else {
        Replace(oldParent, oldName, src.value, newParent, newName, dst.value);
      }
    }

    /** Every check a rename makes before it changes anything. */
    method RenameCheck(oldParent: nat, oldName: Name, newParent: nat, newName: Name, flags: nat) returns (r: Result<()>)
      requires Valid()
      ensures r == RenameVerdict(Tree(), inodes, (oldParent, oldName), (newParent, newName), flags, walkLimit)
    {
      if flags >= 4 { return Err(EINVAL); }
      if DirCheck(inodes, oldParent).Err? { return DirCheck(inodes, oldParent); }
      if DirCheck(inodes, newParent).Err? { return DirCheck(inodes, newParent); }
      var src := FindDirEntry(oldParent, oldName);
      if src.None? { return Err(ENOENT); }
      if oldParent == newParent && oldName == newName { return Ok(()); }
      var dst := FindDirEntry(newParent, newName);
      if NoReplace(flags) && dst.Some? { return Err(EEXIST); }
      var below := WouldLoop(newParent, src.value);
      if below { return Err(EINVAL); }
      if Exchange(flags) {
        if dst.None? { return Err(ENOENT); }
        var above := WouldLoop(oldParent, dst.value);
        return if above then Err(EINVAL) else Ok(());
      }
      r := Ok(());
      if dst.Some? { r := ReplaceCheck(src.value, dst.value); }
    }

    /** A directory must not come to lie below itself. */
    method WouldLoop(parent: nat, t: Target) returns (r: bool)
      requires Valid() && LiveDir(inodes, parent)
      ensures r == (t.kind.Dir? && Blocked(ParentMap(Tree()), parent, t.child, walkLimit))
    {
      r := false;
      if t.kind.Dir? { r := IsDescendant(parent, t.child); }
    }

    method ReplaceCheck(src: Target, dst: Target) returns (r: Result<()>)
      requires TableOk()
      ensures r == ReplaceVerdict(Tree(), src, dst)
    {
      if !src.kind.Dir? && dst.kind.Dir? { return Err(EISDIR); }
      if src.kind.Dir? && !dst.kind.Dir? { return Err(ENOTDIR); }
      if dst.kind.Dir? {
        var full := DirHasChildren(dst.child);
        if full { return Err(ENOTEMPTY); }
      }
      r := Ok(());
    }

    method ExchangeNames(oldParent: nat, oldName: Name, src: Target, newParent: nat, newName: Name, dst: Target)
      requires Valid() && Holds((oldParent, oldName), src) && Holds((newParent, newName), dst)
      requires (oldParent, oldName) != (newParent, newName)
      requires src.kind.Dir? ==> !Descends(ParentMap(Tree()), newParent, src.child)
      requires dst.kind.Dir? ==> !Descends(ParentMap(Tree()), oldParent, dst.child)
      modifies this
      ensures Valid() && opens == old(opens) && nextIno == old(nextIno)
      ensures Tree() == Traded(old(Tree()), (oldParent, oldName), (newParent, newName))
      ensures inodes == Shifted(Shifted(old(inodes), src, oldParent, newParent), dst, newParent, oldParent)
      ensures unopened <= old(unopened)
    {
      TradeOver(Tree(), inodes, root, (oldParent, oldName), src, (newParent, newName), dst);
      SwapEntries(oldParent, oldName, src, newParent, newName, dst);
    }

    ghost predicate Holds(k: Key, t: Target)
      reads this`entries
    {
      k in Tree() && Tree()[k] == t
    }

    method SwapEntries(oldParent: nat, oldName: Name, src: Target, newParent: nat, newName: Name, dst: Target)
      requires Sane() && Holds((oldParent, oldName), src) && Holds((newParent, newName), dst)
      requires (oldParent, oldName) != (newParent, newName)
      requires src.kind.Dir? ==> oldParent in inodes && inodes[oldParent].nlink > 2
      requires dst.kind.Dir? ==> newParent in inodes && inodes[newParent].nlink > 2
      modifies this`entries, this`nextCookie, this`inodes
      ensures Sane() && Tree() == Traded(old(Tree()), (oldParent, oldName), (newParent, newName))
      ensures inodes == Shifted(Shifted(old(inodes), src, oldParent, newParent), dst, newParent, oldParent)
    {
      SwapTable(oldParent, oldName, src, newParent, newName, dst);
      if oldParent != newParent {
        ShiftLink(src, oldParent, newParent);
        ShiftLink(dst, newParent, oldParent);
      }
    }

    method SwapTable(oldParent: nat, oldName: Name, src: Target, newParent: nat, newName: Name, dst: Target)
      requires TableOk() && Holds((oldParent, oldName), src) && Holds((newParent, newName), dst)
      requires (oldParent, oldName) != (newParent, newName)
      modifies this`entries, this`nextCookie
      ensures TableOk() && Tree() == Traded(old(Tree()), (oldParent, oldName), (newParent, newName))
    {
      TradeNames(Tree(), (newParent, newName), (oldParent, oldName));
      var removed := RemoveEntry(oldParent, oldName);
      removed := RemoveEntry(newParent, newName);
      AddEntry(oldParent, oldName, dst);
      AddEntry(newParent, newName, src);
      assert Tree() == Traded(old(Tree()), (oldParent, oldName), (newParent, newName));
    }

    /** A directory that changes parents takes its link along. */
    method ShiftLink(t: Target, from: nat, to: nat)
      requires from != to
      modifies this`inodes
      ensures inodes == Shifted(old(inodes), t, from, to)
    {
      if t.kind.Dir? {
        AdjustLinks(from, false);
        AdjustLinks(to, true);
      }
    }

    method MoveName(oldParent: nat, oldName: Name, src: Target, newParent: nat, newName: Name)
      requires Valid() && Holds((oldParent, oldName), src) && (newParent, newName) !in Tree()
      requires LiveDir(inodes, newParent)
      requires src.kind.Dir? ==> !Descends(ParentMap(Tree()), newParent, src.child)
      modifies this
      ensures Valid() && opens == old(opens) && nextIno == old(nextIno)
      ensures Tree() == (old(Tree()) - {(oldParent, oldName)})[(newParent, newName) := src]
      ensures inodes == Shifted(old(inodes), src, oldParent, newParent)
      ensures unopened <= old(unopened)
    {
      MoveOnto(Tree(), inodes, root, (oldParent, oldName), (newParent, newName), src);
      MoveEntry(oldParent, oldName, src, newParent, newName);
    }

    method MoveEntry(oldParent: nat, oldName: Name, src: Target, newParent: nat, newName: Name)
      requires Sane() && (newParent, newName) !in Tree()
      requires src.kind.Dir? ==> oldParent in inodes && inodes[oldParent].nlink > 2
      modifies this`entries, this`nextCookie, this`inodes
      ensures Sane() && Tree() == (old(Tree()) - {(oldParent, oldName)})[(newParent, newName) := src]
      ensures inodes == Shifted(old(inodes), src, oldParent, newParent)
    {
      var removed := RemoveEntry(oldParent, oldName);
      AddEntry(newParent, newName, src);
      if oldParent != newParent { ShiftLink(src, oldParent, newParent); }
    }

    method Replace(oldParent: nat, oldName: Name, src: Target, newParent: nat, newName: Name, dst: Target)
      requires Valid() && Holds((oldParent, oldName), src) && Holds((newParent, newName), dst)
      requires (oldParent, oldName) != (newParent, newName) && (dst.kind.Dir? ==> Empty(Tree(), dst.child))
      requires src.kind.Dir? ==> !Descends(ParentMap(Tree()), newParent, src.child)
      modifies this
      ensures Valid() && opens == old(opens) && nextIno == old(nextIno)
      ensures Tree() == (old(Tree()) - {(oldParent, oldName)})[(newParent, newName) := src]
      ensures inodes == Shifted(Evicted(old(inodes), old(opens).Keys, newParent, dst), src, oldParent, newParent)
      ensures unopened <= old(unopened)
    {
      ReplaceKeeps(Tree(), inodes, root, opens.Keys, (oldParent, oldName), (newParent, newName));
      if dst.kind.Dir? { NotOwnChild(Tree(), inodes, root, (newParent, newName)); }
      ReplaceEntry(oldParent, oldName, src, newParent, newName, dst);
    }

    method ReplaceEntry(oldParent: nat, oldName: Name, src: Target, newParent: nat, newName: Name, dst: Target)
      requires Sane() && dst.child in inodes && inodes[dst.child].kind == dst.kind
      requires dst.kind.Dir? ==> newParent in inodes && inodes[newParent].nlink > 2 && dst.child != newParent
      requires var less := Evicted(inodes, opens.Keys, newParent, dst);
               src.kind.Dir? ==> oldParent in less && less[oldParent].nlink > 2
      modifies this`entries, this`nextCookie, this`inodes, this`opens, this`unopened
      ensures Sane() && opens == old(opens)
      ensures Tree() == (old(Tree()) - {(oldParent, oldName)})[(newParent, newName) := src]
      ensures inodes == Shifted(Evicted(old(inodes), old(opens).Keys, newParent, dst), src, oldParent, newParent)
      ensures unopened <= old(unopened)
    {
      if dst.kind.Dir? {
        BuryDir(newParent, newName, dst.child);
      } else {
        DropName(newParent, newName, dst.child);
      }
      MoveEntry(oldParent, oldName, src, newParent, newName);
      assert (old(Tree()) - {(newParent, newName)} - {(oldParent, oldName)})[(newParent, newName) := src]
          == (old(Tree()) - {(oldParent, oldName)})[(newParent, newName) := src];
    }

    method BuryDir(parent: nat, name: Name, child: nat)
      requires Sane() && parent in inodes && inodes[parent].nlink > 2 && child in inodes && child != parent
      requires inodes[child].kind.Dir?
      modifies this`entries, this`inodes, this`opens
      ensures Sane() && opens == old(opens) && Tree() == old(Tree()) - {(parent, name)}
      ensures inodes == if child in opens then Buried(old(inodes), parent, child)
                else Removed(old(inodes), parent, child)
    {
      var removed := RemoveEntry(parent, name);
      BuryRecord(parent, child);
    }

    method BuryRecord(parent: nat, child: nat)
      requires NumbersOk() && LifetimesOk() && parent in inodes && inodes[parent].nlink > 2 && child in inodes
                 && child != parent
      requires inodes[child].kind.Dir?
      modifies this`inodes, this`opens
      ensures NumbersOk() && LifetimesOk() && opens == old(opens)
      ensures inodes == if child in opens then Buried(old(inodes), parent, child)
                else Removed(old(inodes), parent, child)
    {
      BuriedOrRemoved(inodes, parent, child);
      inodes := inodes[child := inodes[child].(nlink := 0)];
      DropIfClosed(child);
      AdjustLinks(parent, false);
    }

    // ---------- handles ----------

    method Open(i: nat) returns (r: Result<()>)
      requires Valid()
      modifies this
      ensures Valid() && Tree() == old(Tree()) && inodes == old(inodes) && nextIno == old(nextIno)
      ensures r == if i in inodes then Ok(()) else Err(ENOENT)
      ensures opens == if r.Ok? then old(opens)[i := Handles(old(opens), i) + 1] else old(opens)
      ensures unopened == if r.Ok? then old(unopened) - {i} else old(unopened)
    {
      if i !in inodes { return Err(ENOENT); }
      opens := opens[i := if i in opens then opens[i] + 1 else 1];
      unopened := unopened - {i};
      r := Ok(());
    }

    /** The last close of an inode without names takes its record away. */
    method Release(i: nat)
      requires Valid()
      modifies this`inodes, this`opens
      ensures Valid() && Tree() == old(Tree()) && nextIno == old(nextIno)
      ensures opens == Closed(old(opens), i) && inodes == Forgotten(old(inodes), opens.Keys, i)
    {
      if i in inodes && inodes[i].nlink == 0 {
        ForgetKeeps(Tree(), inodes, root, i);
      }
      CloseHandle(i);
    }

    method CloseHandle(i: nat)
      requires Sane()
      modifies this`opens, this`inodes
      ensures Sane()
      ensures opens == Closed(old(opens), i) && inodes == Forgotten(old(inodes), opens.Keys, i)
    {
      var remaining := 0;
      if i in opens {
        remaining := Monus(opens[i], 1);
        opens := if remaining == 0 then opens - {i} else opens[i := remaining];
      }
      if remaining == 0 && i in inodes && inodes[i].nlink == 0 {
        RemoveInodeRecord(i);
      }
    }
  }
}
