/** The namespace as a value: a map from (directory, name) to what the name means, and the inode
    records with their link counts. */
module Links {
  import opened Common
  import opened Trees

  type Name = seq<byte>
  type Key = (nat, Name)

  datatype NodeKind = File | Dir | Symlink

  datatype Target = Target(child: nat, kind: NodeKind)

  datatype Inode = Inode(kind: NodeKind, nlink: nat)

  type Names = map<Key, Target>
  type Inodes = map<nat, Inode>

  function NamesOf(m: Names, i: nat): set<Key> { set k | k in m && m[k].child == i }

  function SubdirsOf(m: Names, i: nat): set<Key> { set k | k in m && k.0 == i && m[k].kind.Dir? }

  predicate LiveDir(nodes: Inodes, i: nat) { i in nodes && nodes[i].kind.Dir? && nodes[i].nlink > 0 }

  function LiveDirs(nodes: Inodes): set<nat> { set i | i in nodes && LiveDir(nodes, i) }

  /** A directory has at most one name. */
  ghost predicate OneParent(m: Names) {
    forall k, k' :: k in m && k' in m && m[k].kind.Dir? && m[k'].kind.Dir? && m[k].child == m[k'].child ==> k == k'
  }

  /** No entry dangles: it sits in a live directory and names an inode of the kind it says. */
  ghost predicate Anchored(m: Names, nodes: Inodes) {
    forall k :: k in m ==>
                  && LiveDir(nodes, k.0)
                  && m[k].child in nodes && nodes[m[k].child].kind == m[k].kind
                  && (m[k].kind.Dir? ==> LiveDir(nodes, m[k].child))
  }

  /** The link count an inode ought to have. */
  ghost predicate RightCount(m: Names, i: nat, n: Inode) {
    if n.kind.Dir? then n.nlink == 0 || n.nlink == 2 + |SubdirsOf(m, i)| else n.nlink == |NamesOf(m, i)|
  }

  ghost predicate Counted(m: Names, nodes: Inodes) {
    forall i :: i in nodes ==> RightCount(m, i, nodes[i])
  }

  ghost predicate Linked(m: Names, nodes: Inodes) {
    OneParent(m) && Anchored(m, nodes) && Counted(m, nodes)
  }

  function Named(m: Names): set<nat> { set k | k in m && m[k].kind.Dir? :: m[k].child }

  ghost function ParentOf(m: Names, x: nat): nat
    requires x in Named(m)
  {
    var k :| k in m && m[k].kind.Dir? && m[k].child == x;
    k.0
  }

  /** The parent of every directory that has a name. */
  ghost function ParentMap(m: Names): Parents {
    map x | x in Named(m) :: ParentOf(m, x)
  }

  lemma ParentAt(m: Names, k: Key)
    requires OneParent(m) && k in m && m[k].kind.Dir?
    ensures m[k].child in ParentMap(m) && ParentMap(m)[m[k].child] == k.0
  {
  }

  ghost predicate Rooted(m: Names, dirs: set<nat>, root: nat) {
    OneParent(m) && IsTree(ParentMap(m), dirs, root)
  }

  ghost predicate WellRooted(m: Names, nodes: Inodes, root: nat) {
    Linked(m, nodes) && Rooted(m, LiveDirs(nodes), root)
  }

  // ---------- one name less, one name more ----------

  /** The counts after the name `k` is gone: a directory's parent, or a file itself, has one link less. */
  function Dec(nodes: Inodes, i: nat): Inodes {
    if i in nodes then nodes[i := nodes[i].(nlink := Monus(nodes[i].nlink, 1))] else nodes
  }

  function Inc(nodes: Inodes, i: nat): Inodes {
    if i in nodes then nodes[i := nodes[i].(nlink := nodes[i].nlink + 1)] else nodes
  }

  /** Whose link count an entry is part of. */
  function Counter(k: Key, t: Target): nat { if t.kind.Dir? then k.0 else t.child }

  lemma SetsWithout(m: Names, k: Key, i: nat)
    requires k in m
    ensures NamesOf(m - {k}, i) == NamesOf(m, i) - {k} && SubdirsOf(m - {k}, i) == SubdirsOf(m, i) - {k}
    ensures |NamesOf(m - {k}, i)| == |NamesOf(m, i)| - (if m[k].child == i then 1 else 0)
    ensures |SubdirsOf(m - {k}, i)| == |SubdirsOf(m, i)| - (if k.0 == i && m[k].kind.Dir? then 1 else 0)
  {
    assert NamesOf(m - {k}, i) == NamesOf(m, i) - {k};
    assert SubdirsOf(m - {k}, i) == SubdirsOf(m, i) - {k};
    assert k in NamesOf(m, i) <==> m[k].child == i;
    assert k in SubdirsOf(m, i) <==> k.0 == i && m[k].kind.Dir?;
  }

  lemma SetsWith(m: Names, k: Key, t: Target, i: nat)
    requires k !in m
    ensures |NamesOf(m[k := t], i)| == |NamesOf(m, i)| + (if t.child == i then 1 else 0)
    ensures |SubdirsOf(m[k := t], i)| == |SubdirsOf(m, i)| + (if k.0 == i && t.kind.Dir? then 1 else 0)
  {
    assert m[k := t] - {k} == m;
    SetsWithout(m[k := t], k, i);
  }

  lemma RemoveCount(m: Names, nodes: Inodes, k: Key, i: nat)
    requires Linked(m, nodes) && k in m && i in nodes
    ensures var nodes' := Dec(nodes, Counter(k, m[k])); i in nodes' && RightCount(m - {k}, i, nodes'[i])
  {
    SetsWithout(m, k, i);
    assert RightCount(m, i, nodes[i]);
    assert k in NamesOf(m, m[k].child);
  }

  /** Losing a subdirectory does not bring a live directory's count to zero. */
  lemma CountKeepsDirs(m: Names, nodes: Inodes, k: Key, i: nat)
    requires Linked(m, nodes) && k in m
    ensures LiveDir(Dec(nodes, Counter(k, m[k])), i) == LiveDir(nodes, i)
  {
    if i in nodes {
      assert RightCount(m, i, nodes[i]);
      SetsWithout(m, k, i);
    }
  }

  lemma RemoveName(m: Names, nodes: Inodes, k: Key)
    requires Linked(m, nodes) && k in m
    ensures Linked(m - {k}, Dec(nodes, Counter(k, m[k])))
    ensures LiveDirs(Dec(nodes, Counter(k, m[k]))) == LiveDirs(nodes)
  {
    var m', nodes' := m - {k}, Dec(nodes, Counter(k, m[k]));
    assert OneParent(m');
    assert Counted(m', nodes') by {
      forall i | i in nodes' ensures RightCount(m', i, nodes'[i]) { RemoveCount(m, nodes, k, i); }
    }
    forall i: nat ensures LiveDir(nodes', i) == LiveDir(nodes, i) { CountKeepsDirs(m, nodes, k, i); }
    assert Anchored(m', nodes');
  }

  lemma AddCount(m: Names, nodes: Inodes, k: Key, t: Target, i: nat)
    requires Counted(m, nodes) && k !in m && i in nodes && LiveDir(nodes, k.0)
    requires t.child in nodes && nodes[t.child].kind == t.kind
    ensures var nodes' := Inc(nodes, Counter(k, t)); i in nodes' && RightCount(m[k := t], i, nodes'[i])
  {
    SetsWith(m, k, t, i);
    assert RightCount(m, i, nodes[i]);
  }

  lemma AddOneParent(m: Names, k: Key, t: Target)
    requires OneParent(m) && k !in m && (t.kind.Dir? ==> forall k' :: k' in m ==> m[k'] != t)
    ensures OneParent(m[k := t])
  {
  }

  lemma AddAnchored(m: Names, nodes: Inodes, k: Key, t: Target)
    requires Anchored(m, nodes) && LiveDir(nodes, k.0) && t.child in nodes && nodes[t.child].kind == t.kind
    requires t.kind.Dir? ==> LiveDir(nodes, t.child)
    ensures Anchored(m[k := t], Inc(nodes, Counter(k, t))) && LiveDirs(Inc(nodes, Counter(k, t))) == LiveDirs(nodes)
  {
    assert forall i :: LiveDir(Inc(nodes, Counter(k, t)), i) == LiveDir(nodes, i);
  }

  lemma AddName(m: Names, nodes: Inodes, k: Key, t: Target)
    requires Linked(m, nodes) && k !in m && LiveDir(nodes, k.0) && t.child in nodes && nodes[t.child].kind == t.kind
    requires t.kind.Dir? ==> LiveDir(nodes, t.child) && forall k' :: k' in m ==> m[k'] != t
    ensures Linked(m[k := t], Inc(nodes, Counter(k, t)))
    ensures LiveDirs(Inc(nodes, Counter(k, t))) == LiveDirs(nodes)
  {
    var m', nodes' := m[k := t], Inc(nodes, Counter(k, t));
    AddOneParent(m, k, t);
    assert Counted(m', nodes') by {
      forall i | i in nodes' ensures RightCount(m', i, nodes'[i]) { AddCount(m, nodes, k, t, i); }
    }
    AddAnchored(m, nodes, k, t);
  }

  // ---------- inode records come and go ----------

  ghost predicate Unmentioned(m: Names, i: nat) {
    forall k :: k in m ==> k.0 != i && m[k].child != i
  }

  lemma UnmentionedCounts(m: Names, i: nat)
    requires Unmentioned(m, i)
    ensures NamesOf(m, i) == {} && SubdirsOf(m, i) == {}
  {
  }

  lemma NewInode(m: Names, nodes: Inodes, i: nat, kind: NodeKind)
    requires Linked(m, nodes) && i !in nodes
    ensures Linked(m, nodes[i := Inode(kind, if kind.Dir? then 2 else 0)])
  {
    var nodes' := nodes[i := Inode(kind, if kind.Dir? then 2 else 0)];
    assert Unmentioned(m, i);
    UnmentionedCounts(m, i);
    assert forall j :: j in nodes ==> RightCount(m, j, nodes[j]);
    assert forall j :: LiveDir(nodes, j) ==> LiveDir(nodes', j);
  }

  /** A record that no entry mentions can be dropped, or its count zeroed. */
  lemma DropInode(m: Names, nodes: Inodes, i: nat)
    requires Linked(m, nodes) && Unmentioned(m, i)
    ensures Linked(m, nodes - {i})
    ensures i in nodes && nodes[i].kind.Dir? ==> Linked(m, nodes[i := Inode(Dir, 0)])
  {
    assert forall j :: j in nodes ==> RightCount(m, j, nodes[j]);
    assert forall j :: j != i && LiveDir(nodes, j) ==> LiveDir(nodes - {i}, j) && LiveDir(nodes[i := Inode(Dir, 0)], j);
  }

  // ---------- the parent map ----------

  lemma NamedWithout(m: Names, k: Key)
    requires OneParent(m) && k in m
    ensures OneParent(m - {k})
    ensures Named(m - {k}) == if m[k].kind.Dir? then Named(m) - {m[k].child} else Named(m)
  {
    var m' := m - {k};
    forall x | x in Named(m) && m[k] != Target(x, Dir) ensures x in Named(m') {
      var k' :| k' in m && m[k'].kind.Dir? && m[k'].child == x;
      assert k' in m';
    }
  }

  lemma ParentMapWithout(m: Names, k: Key)
    requires OneParent(m) && k in m
    ensures OneParent(m - {k})
    ensures ParentMap(m - {k}) == if m[k].kind.Dir? then ParentMap(m) - {m[k].child} else ParentMap(m)
  {
    NamedWithout(m, k);
    forall x | x in Named(m - {k}) ensures ParentOf(m - {k}, x) == ParentOf(m, x) {
      var k' :| k' in m - {k} && m[k'].kind.Dir? && m[k'].child == x;
      ParentAt(m, k');
      ParentAt(m - {k}, k');
    }
  }

  lemma ParentMapWith(m: Names, k: Key, t: Target)
    requires OneParent(m) && k !in m && (t.kind.Dir? ==> t.child !in ParentMap(m))
    ensures OneParent(m[k := t])
    ensures ParentMap(m[k := t]) == if t.kind.Dir? then ParentMap(m)[t.child := k.0] else ParentMap(m)
  {
    var m' := m[k := t];
    AddOneParent(m, k, t);
    assert m' - {k} == m;
    ParentMapWithout(m', k);
    if t.kind.Dir? {
      ParentAt(m', k);
    }
  }
}
