/** What the namespace calls do to names and link counts, and why every one of them keeps the
    directories a tree with true counts. */
module LinkOps {
  import opened Common
  import opened Trees
  import opened Links

  /** A new inode `i` under the name `k`: a directory starts with two links and gives its parent one. */
  function Created(nodes: Inodes, k: Key, i: nat, kind: NodeKind): Inodes {
    if kind.Dir? then Inc(nodes[i := Inode(Dir, 2)], k.0) else nodes[i := Inode(kind, 1)]
  }

  /** A directory starts with two links, anything else with none. */
  function Born(nodes: Inodes, i: nat, kind: NodeKind): Inodes { nodes[i := Inode(kind, if kind.Dir? then 2 else 0)] }

  lemma BornDirs(nodes: Inodes, i: nat, kind: NodeKind)
    requires i !in nodes
    ensures LiveDirs(Born(nodes, i, kind)) == if kind.Dir? then LiveDirs(nodes) + {i} else LiveDirs(nodes)
  {
  }

  lemma Unheard(m: Names, nodes: Inodes, i: nat)
    requires Linked(m, nodes) && i !in nodes
    ensures forall k :: k in m ==> m[k].child != i
    ensures i !in ParentMap(m)
  {
  }

  lemma CreateLinks(m: Names, nodes: Inodes, k: Key, i: nat, kind: NodeKind)
    requires Linked(m, nodes) && k !in m && LiveDir(nodes, k.0) && i !in nodes
    ensures Linked(m[k := Target(i, kind)], Created(nodes, k, i, kind))
    ensures LiveDirs(Created(nodes, k, i, kind)) == if kind.Dir? then LiveDirs(nodes) + {i} else LiveDirs(nodes)
  {
    var born := Born(nodes, i, kind);
    Unheard(m, nodes, i);
    NewInode(m, nodes, i, kind);
    BornDirs(nodes, i, kind);
    AddName(m, born, k, Target(i, kind));
    BornCounts(nodes, k, i, kind);
  }

  lemma BornCounts(nodes: Inodes, k: Key, i: nat, kind: NodeKind)
    requires i !in nodes
    ensures Inc(Born(nodes, i, kind), Counter(k, Target(i, kind))) == Created(nodes, k, i, kind)
  {
  }

  lemma GrowTree(m: Names, dirs: set<nat>, root: nat, k: Key, t: Target)
    requires Rooted(m, dirs, root) && k !in m && k.0 in dirs && t.child !in ParentMap(m) && t.child !in dirs
    ensures Rooted(m[k := t], if t.kind.Dir? then dirs + {t.child} else dirs, root)
  {
    ParentMapWith(m, k, t);
    if t.kind.Dir? {
      Grow(ParentMap(m), dirs, root, t.child, k.0);
    }
  }

  lemma CreateKeeps(m: Names, nodes: Inodes, root: nat, k: Key, i: nat, kind: NodeKind)
    requires WellRooted(m, nodes, root) && k !in m && LiveDir(nodes, k.0) && i !in nodes
    ensures WellRooted(m[k := Target(i, kind)], Created(nodes, k, i, kind), root)
  {
    CreateLinks(m, nodes, k, i, kind);
    Unheard(m, nodes, i);
    GrowTree(m, LiveDirs(nodes), root, k, Target(i, kind));
  }

  lemma LinkKeeps(m: Names, nodes: Inodes, root: nat, k: Key, i: nat)
    requires WellRooted(m, nodes, root) && k !in m && LiveDir(nodes, k.0) && i in nodes && !nodes[i].kind.Dir?
    ensures WellRooted(m[k := Target(i, nodes[i].kind)], Inc(nodes, i), root)
  {
    AddName(m, nodes, k, Target(i, nodes[i].kind));
    ParentMapWith(m, k, Target(i, nodes[i].kind));
  }

  lemma UnlinkKeeps(m: Names, nodes: Inodes, root: nat, k: Key)
    requires WellRooted(m, nodes, root) && k in m && !m[k].kind.Dir?
    ensures WellRooted(m - {k}, Dec(nodes, m[k].child), root)
    ensures LiveDirs(Dec(nodes, m[k].child)) == LiveDirs(nodes)
    ensures ParentMap(m - {k}) == ParentMap(m)
  {
    RemoveName(m, nodes, k);
    ParentMapWithout(m, k);
  }

  /** An inode without links can be forgotten. */
  lemma ForgetKeeps(m: Names, nodes: Inodes, root: nat, i: nat)
    requires WellRooted(m, nodes, root) && i in nodes && nodes[i].nlink == 0
    ensures WellRooted(m, nodes - {i}, root) && LiveDirs(nodes - {i}) == LiveDirs(nodes)
  {
    NoLinksNoNames(m, nodes, i);
    DropInode(m, nodes, i);
    assert LiveDirs(nodes - {i}) == LiveDirs(nodes);
  }

  lemma NoLinksNoNames(m: Names, nodes: Inodes, i: nat)
    requires Linked(m, nodes) && i in nodes && nodes[i].nlink == 0
    ensures Unmentioned(m, i)
  {
    assert RightCount(m, i, nodes[i]);
    assert forall k :: k in m && m[k].child == i ==> k in NamesOf(m, i);
  }

  /** An empty directory loses its name: its record goes, or stays behind with no links while it is open. */
  lemma PruneTree(m: Names, dirs: set<nat>, root: nat, k: Key)
    requires Rooted(m, dirs, root) && k in m && m[k].kind.Dir? && forall k' :: k' in m ==> k'.0 != m[k].child
    ensures Rooted(m - {k}, dirs - {m[k].child}, root)
    ensures ParentMap(m - {k}) == ParentMap(m) - {m[k].child}
    ensures forall x :: x in ParentMap(m) ==> ParentMap(m)[x] != m[k].child
  {
    ParentMapWithout(m, k);
    ParentAt(m, k);
    Prune(ParentMap(m), dirs, root, m[k].child);
  }

  function Removed(nodes: Inodes, parent: nat, c: nat): Inodes { Dec(nodes, parent) - {c} }

  function Buried(nodes: Inodes, parent: nat, c: nat): Inodes { Dec(nodes, parent)[c := Inode(Dir, 0)] }

  lemma RmdirLinks(m: Names, nodes: Inodes, k: Key)
    requires Linked(m, nodes) && k in m && m[k].kind.Dir? && forall k' :: k' in m ==> k'.0 != m[k].child
    ensures Linked(m - {k}, Removed(nodes, k.0, m[k].child))
    ensures Linked(m - {k}, Buried(nodes, k.0, m[k].child))
    ensures LiveDirs(Removed(nodes, k.0, m[k].child)) == LiveDirs(nodes) - {m[k].child}
    ensures LiveDirs(Buried(nodes, k.0, m[k].child)) == LiveDirs(nodes) - {m[k].child}
  {
    var c := m[k].child;
    RemoveName(m, nodes, k);
    assert c in Dec(nodes, k.0) && Dec(nodes, k.0)[c].kind.Dir?;
    assert Unmentioned(m - {k}, c);
    DropInode(m - {k}, Dec(nodes, k.0), c);
    WithoutDir(Dec(nodes, k.0), c);
  }

  lemma WithoutDir(nodes: Inodes, c: nat)
    ensures LiveDirs(nodes - {c}) == LiveDirs(nodes) - {c} == LiveDirs(nodes[c := Inode(Dir, 0)])
  {
  }

  lemma RmdirKeeps(m: Names, nodes: Inodes, root: nat, k: Key)
    requires WellRooted(m, nodes, root) && k in m && m[k].kind.Dir?
    requires forall k' :: k' in m ==> k'.0 != m[k].child
    ensures WellRooted(m - {k}, Removed(nodes, k.0, m[k].child), root)
    ensures WellRooted(m - {k}, Buried(nodes, k.0, m[k].child), root)
  {
    RmdirLinks(m, nodes, k);
    PruneTree(m, LiveDirs(nodes), root, k);
  }

  // ---------- a name moves ----------

  /** A directory that changes parents takes its link along; anything else leaves the counts alone. */
  function Shifted(nodes: Inodes, t: Target, from: nat, to: nat): Inodes {
    if t.kind.Dir? && from != to then Inc(Dec(nodes, from), to) else nodes
  }

  lemma DecThenInc(nodes: Inodes, i: nat)
    requires i in nodes && nodes[i].nlink > 0
    ensures Inc(Dec(nodes, i), i) == nodes
  {
  }

  /** The entry under a name is part of somebody's count, so that count is not zero. */
  lemma CounterPositive(m: Names, nodes: Inodes, k: Key)
    requires Linked(m, nodes) && k in m
    ensures Counter(k, m[k]) in nodes && nodes[Counter(k, m[k])].nlink > 0
  {
    var c := Counter(k, m[k]);
    assert RightCount(m, c, nodes[c]);
    assert m[k].kind.Dir? || k in NamesOf(m, c);
  }

  lemma MoveLinks(m: Names, nodes: Inodes, k: Key, to: Key)
    requires Linked(m, nodes) && k in m && to !in m && LiveDir(nodes, to.0)
    ensures Linked((m - {k})[to := m[k]], Shifted(nodes, m[k], k.0, to.0))
    ensures LiveDirs(Shifted(nodes, m[k], k.0, to.0)) == LiveDirs(nodes)
  {
    var t := m[k];
    RemoveName(m, nodes, k);
    CounterPositive(m, nodes, k);
    DecThenInc(nodes, Counter(k, t));
    var less := Dec(nodes, Counter(k, t));
    assert to.0 in LiveDirs(less) && (t.kind.Dir? ==> t.child in LiveDirs(less));
    assert t.kind.Dir? ==> forall k' :: k' in m - {k} ==> m[k'] != t;
    AddName(m - {k}, less, to, t);
  }

  lemma MoveTree(m: Names, dirs: set<nat>, root: nat, k: Key, to: Key)
    requires Rooted(m, dirs, root) && k in m && to !in m && to.0 in dirs
    requires m[k].kind.Dir? ==> !Descends(ParentMap(m), to.0, m[k].child)
    ensures Rooted((m - {k})[to := m[k]], dirs, root)
  {
    var t, par := m[k], ParentMap(m);
    ParentMapWithout(m, k);
    ParentMapWith(m - {k}, to, t);
    if t.kind.Dir? {
      ParentAt(m, k);
      Rehang(par, dirs, root, t.child, to.0);
      assert (par - {t.child})[t.child := to.0] == par[t.child := to.0];
    }
  }

  lemma MoveKeeps(m: Names, nodes: Inodes, root: nat, k: Key, to: Key)
    requires WellRooted(m, nodes, root) && k in m && to !in m && LiveDir(nodes, to.0)
    requires m[k].kind.Dir? ==> !Descends(ParentMap(m), to.0, m[k].child)
    ensures WellRooted((m - {k})[to := m[k]], Shifted(nodes, m[k], k.0, to.0), root)
  {
    MoveLinks(m, nodes, k, to);
    assert to.0 in LiveDirs(nodes);
    MoveTree(m, LiveDirs(nodes), root, k, to);
  }

  /** Pruning an empty directory hides nothing from a climb that starts elsewhere. */
  lemma StillNotBelow(par: Parents, s: nat, x: nat, a: nat)
    requires x != s && (forall y :: y in par ==> par[y] != s) && !Descends(par, x, a)
    ensures !Descends(par - {s}, x, a)
  {
    forall n: nat ensures Climb(par - {s}, x, n) != Some(a) {
      Unpruned(par, s, x, n);
    }
  }

  // ---------- two names trade places ----------

  function Traded(m: Names, a: Key, b: Key): Names
    requires a in m && b in m
  {
    m[a := m[b]][b := m[a]]
  }

  lemma TradeNames(m: Names, a: Key, b: Key)
    requires a in m && b in m && a != b
    ensures (m - {b} - {a})[b := m[a]][a := m[b]] == Traded(m, a, b)
  {
  }

  lemma TradeLinks(m: Names, nodes: Inodes, a: Key, b: Key)
    requires Linked(m, nodes) && a in m && b in m && a != b
    ensures Linked(Traded(m, a, b), Shifted(Shifted(nodes, m[a], a.0, b.0), m[b], b.0, a.0))
    ensures LiveDirs(Shifted(Shifted(nodes, m[a], a.0, b.0), m[b], b.0, a.0)) == LiveDirs(nodes)
  {
    // free b's place, move a there, then bring b's old target to a's place
    var s, t := m[a], m[b];
    assert {a.0, b.0} <= LiveDirs(nodes) && (t.kind.Dir? ==> t.child in LiveDirs(nodes));
    CounterPositive(m, nodes, b);
    RemoveName(m, nodes, b);
    var m1, n1 := m - {b}, Dec(nodes, Counter(b, t));
    assert LiveDir(n1, b.0);
    MoveLinks(m1, n1, a, b);
    var m2, n2 := (m1 - {a})[b := s], Shifted(n1, s, a.0, b.0);
    assert LiveDirs(n2) == LiveDirs(nodes);
    Comeback(m, nodes, a, b, n2);
    AddName(m2, n2, a, t);
    TradeNames(m, a, b);
    TradeCounts(nodes, s, t, a, b);
  }

  lemma Comeback(m: Names, nodes: Inodes, a: Key, b: Key, n2: Inodes)
    requires Linked(m, nodes) && a in m && b in m && a != b && LiveDirs(n2) == LiveDirs(nodes)
    requires n2 == Shifted(Dec(nodes, Counter(b, m[b])), m[a], a.0, b.0)
    ensures var m2, t := (m - {b} - {a})[b := m[a]], m[b];
            && LiveDir(n2, a.0) && t.child in n2 && n2[t.child].kind == t.kind
            && (t.kind.Dir? ==> LiveDir(n2, t.child) && forall k :: k in m2 ==> m2[k] != t)
  {
    var t := m[b];
    assert a.0 in LiveDirs(nodes) && (t.kind.Dir? ==> t.child in LiveDirs(nodes));
    assert a.0 in LiveDirs(n2) && (t.kind.Dir? ==> t.child in LiveDirs(n2));
  }

  lemma TradeCounts(nodes: Inodes, s: Target, t: Target, a: Key, b: Key)
    requires a.0 in nodes && b.0 in nodes && (!t.kind.Dir? ==> t.child != a.0 && t.child != b.0)
    requires Counter(b, t) in nodes && nodes[Counter(b, t)].nlink > 0
    requires s.kind.Dir? ==> nodes[a.0].nlink > 0
    ensures Inc(Shifted(Dec(nodes, Counter(b, t)), s, a.0, b.0), Counter(a, t))
         == Shifted(Shifted(nodes, s, a.0, b.0), t, b.0, a.0)
  {
    var l := Inc(Shifted(Dec(nodes, Counter(b, t)), s, a.0, b.0), Counter(a, t));
    var r := Shifted(Shifted(nodes, s, a.0, b.0), t, b.0, a.0);
    assert l.Keys == r.Keys == nodes.Keys;
    forall i | i in nodes ensures l[i] == r[i] {
    }
  }

  function Without(par: Parents, t: Target): Parents { if t.kind.Dir? then par - {t.child} else par }

  function Under(par: Parents, t: Target, p: nat): Parents { if t.kind.Dir? then par[t.child := p] else par }

  lemma FreedParents(m: Names, a: Key, b: Key)
    requires OneParent(m) && a in m && b in m && a != b
    ensures OneParent(m - {b} - {a}) && ParentMap(m - {b} - {a}) == Without(Without(ParentMap(m), m[b]), m[a])
  {
    ParentMapWithout(m, b);
    ParentMapWithout(m - {b}, a);
  }

  lemma PlacedParents(m: Names, a: Key, s: Target, b: Key, t: Target)
    requires OneParent(m) && a !in m && b !in m && a != b && (s.kind.Dir? && t.kind.Dir? ==> s.child != t.child)
    requires (s.kind.Dir? ==> s.child !in ParentMap(m)) && (t.kind.Dir? ==> t.child !in ParentMap(m))
    ensures OneParent(m[b := s][a := t]) && ParentMap(m[b := s][a := t]) == Under(Under(ParentMap(m), s, b.0), t, a.0)
  {
    ParentMapWith(m, b, s);
    ParentMapWith(m[b := s], a, t);
  }

  lemma FreedThenPlaced(par: Parents, s: Target, t: Target, p: nat, q: nat)
    requires s.kind.Dir? && t.kind.Dir? ==> s.child != t.child
    ensures Under(Under(Without(Without(par, t), s), s, q), t, p) == Under(Under(par, s, q), t, p)
  {
  }

  lemma TradeParents(m: Names, a: Key, b: Key)
    requires OneParent(m) && a in m && b in m && a != b
    ensures OneParent(Traded(m, a, b)) && ParentMap(Traded(m, a, b)) == Under(Under(ParentMap(m), m[a], b.0), m[b], a.0)
  {
    TradeApart(m, a, b);
    FreedParents(m, a, b);
    PlacedParents(m - {b} - {a}, a, m[a], b, m[b]);
    TradeNames(m, a, b);
    FreedThenPlaced(ParentMap(m), m[a], m[b], a.0, b.0);
  }

  /** Two names that both lead to directories lead to different ones. */
  lemma TradeApart(m: Names, a: Key, b: Key)
    requires OneParent(m) && a in m && b in m && a != b
    ensures m[a].kind.Dir? && m[b].kind.Dir? ==> m[a].child != m[b].child
  {
  }

  lemma TradeTree(m: Names, dirs: set<nat>, root: nat, a: Key, b: Key)
    requires Rooted(m, dirs, root) && a in m && b in m && a != b && a.0 in dirs && b.0 in dirs
    requires m[a].kind.Dir? ==> !Descends(ParentMap(m), b.0, m[a].child)
    requires m[b].kind.Dir? ==> !Descends(ParentMap(m), a.0, m[b].child)
    ensures Rooted(Traded(m, a, b), dirs, root)
  {
    TradeParents(m, a, b);
    TradeApart(m, a, b);
    var s, t, par := m[a], m[b], ParentMap(m);
    if s.kind.Dir? { ParentAt(m, a); }
    if t.kind.Dir? { ParentAt(m, b); }
    if s.kind.Dir? && t.kind.Dir? {
      Swap(par, dirs, root, s.child, t.child);
    } else if s.kind.Dir? {
      Rehang(par, dirs, root, s.child, b.0);
    } else if t.kind.Dir? {
      Rehang(par, dirs, root, t.child, a.0);
    }
  }

  lemma ParentLive(m: Names, nodes: Inodes, k: Key)
    requires Linked(m, nodes) && k in m
    ensures k.0 in LiveDirs(nodes)
  {
  }

  lemma TradeKeeps(m: Names, nodes: Inodes, root: nat, a: Key, b: Key)
    requires WellRooted(m, nodes, root) && a in m && b in m && a != b
    requires m[a].kind.Dir? ==> !Descends(ParentMap(m), b.0, m[a].child)
    requires m[b].kind.Dir? ==> !Descends(ParentMap(m), a.0, m[b].child)
    ensures WellRooted(Traded(m, a, b), Shifted(Shifted(nodes, m[a], a.0, b.0), m[b], b.0, a.0), root)
  {
    ParentLive(m, nodes, a);
    ParentLive(m, nodes, b);
    TradeTree(m, LiveDirs(nodes), root, a, b);
    TradeLinks(m, nodes, a, b);
  }
}
