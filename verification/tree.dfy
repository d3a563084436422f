/** Rooted trees given by a parent map, and what re-hanging a subtree does to them. */
module Trees {
  import opened Common

  type Parents = map<nat, nat>

  /** The node `n` steps above `x`, if the chain is that long. */
  function Climb(par: Parents, x: nat, n: nat): (r: Option<nat>)
    decreases n
  {
    if n == 0 then Some(x)
    else if x in par then Climb(par, par[x], n - 1)
    else None
  }

  ghost predicate Descends(par: Parents, x: nat, a: nat) {
    exists n: nat :: Climb(par, x, n) == Some(a)
  }

  /** Every node but the root has a parent among the nodes, and climbing from any node reaches the root. */
  ghost predicate IsTree(par: Parents, nodes: set<nat>, root: nat) {
    && root in nodes && par.Keys == nodes - {root}
    && (forall x {:trigger par[x]} :: x in par ==> par[x] in nodes)
    && (forall x {:trigger Descends(par, x, root)} :: x in nodes ==> Descends(par, x, root))
  }

  lemma {:induction false} ClimbSplit(par: Parents, x: nat, m: nat, n: nat)
    requires Climb(par, x, m).Some?
    decreases m
    ensures Climb(par, x, m + n) == Climb(par, Climb(par, x, m).value, n)
  {
    if m > 0 {
      ClimbSplit(par, par[x], m - 1, n);
    }
  }

  lemma ClimbPast(par: Parents, x: nat, m: nat, n: nat)
    requires m <= n && Climb(par, x, n).Some?
    ensures Climb(par, x, m).Some?
    decreases m
  {
    if m > 0 {
      ClimbPast(par, par[x], m - 1, n - 1);
    }
  }

  /** A tree has no cycle. */
  lemma NoCycle(par: Parents, nodes: set<nat>, root: nat, x: nat, n: nat)
    requires IsTree(par, nodes, root) && x in nodes && n > 0
    ensures Climb(par, x, n) != Some(x)
  {
    assert Descends(par, x, root);
    var d: nat :| Climb(par, x, d) == Some(root);
    NoCycleBelow(par, root, x, n, d);
  }

  lemma {:induction false} NoCycleBelow(par: Parents, root: nat, x: nat, n: nat, d: nat)
    requires root !in par && Climb(par, x, d) == Some(root) && n > 0
    ensures Climb(par, x, n) != Some(x)
    decreases d
  {
    if d > 0 {
      NoCycleBelow(par, root, par[x], n, d - 1);
      assert Climb(par, x, 1) == Some(par[x]);
      if Climb(par, x, n) == Some(x) {
        ClimbSplit(par, x, n, 1);
      }
    }
  }

  lemma BelowParent(par: Parents, x: nat, a: nat)
    requires x in par
    ensures Descends(par, par[x], a) ==> Descends(par, x, a)
  {
    if Descends(par, par[x], a) {
      var n: nat :| Climb(par, par[x], n) == Some(a);
      assert Climb(par, x, n + 1) == Some(a);
    }
  }

  /** A chain that never meets `s` does not see what happens to `s`. */
  lemma {:induction false} ClimbAvoids(par: Parents, par': Parents, s: nat, x: nat, n: nat)
    requires !Descends(par, x, s)
               && forall y :: y != s ==> (y in par <==> y in par') && (y in par ==> par[y] == par'[y])
    ensures Climb(par', x, n) == Climb(par, x, n)
    decreases n
  {
    assert Climb(par, x, 0) == Some(x);
    if n > 0 && x in par {
      BelowParent(par, x, s);
      ClimbAvoids(par, par', s, par[x], n - 1);
    }
  }

  /** Re-hanging `s` under `p`, where `p` is not below `s`, keeps everything rooted. */
  lemma {:induction false} Rehung(par: Parents, root: nat, s: nat, p: nat, x: nat, n: nat)
    requires Climb(par, x, n) == Some(root) && root !in par && s != root
    requires !Descends(par, p, s) && Descends(par, p, root)
    ensures Descends(par[s := p], x, root)
    decreases n
  {
    var par' := par[s := p];
    if x == s {
      var m: nat :| Climb(par, p, m) == Some(root);
      ClimbAvoids(par, par', s, p, m);
      assert Climb(par', s, m + 1) == Some(root);
    } else if n == 0 {
      assert Climb(par', x, 0) == Some(root);
    } else {
      Rehung(par, root, s, p, par[x], n - 1);
      var m: nat :| Climb(par', par[x], m) == Some(root);
      assert Climb(par', x, m + 1) == Some(root);
    }
  }

  lemma Rehang(par: Parents, nodes: set<nat>, root: nat, s: nat, p: nat)
    requires IsTree(par, nodes, root) && s in nodes && s != root && p in nodes && !Descends(par, p, s)
    ensures IsTree(par[s := p], nodes, root)
  {
    forall x | x in nodes ensures Descends(par[s := p], x, root) {
      assert Descends(par, x, root);
      var n: nat :| Climb(par, x, n) == Some(root);
      Rehung(par, root, s, p, x, n);
    }
  }

  lemma Grow(par: Parents, nodes: set<nat>, root: nat, s: nat, p: nat)
    requires IsTree(par, nodes, root) && s !in nodes && p in nodes
    ensures IsTree(par[s := p], nodes + {s}, root)
  {
    var par' := par[s := p];
    forall x | x in nodes ensures Descends(par', x, root) {
      assert Descends(par, x, root);
      var n: nat :| Climb(par, x, n) == Some(root);
      InTree(par, nodes, s, p, x, n);
      assert Climb(par', x, n) == Some(root);
    }
    var n: nat :| Climb(par', p, n) == Some(root);
    assert Climb(par', s, n + 1) == Some(root);
  }

  lemma {:induction false} InTree(par: Parents, nodes: set<nat>, s: nat, p: nat, x: nat, n: nat)
    requires (forall y :: y in par ==> par[y] in nodes) && x in nodes && s !in nodes
    ensures Climb(par[s := p], x, n) == Climb(par, x, n)
    decreases n
  {
    if n > 0 && x in par {
      InTree(par, nodes, s, p, par[x], n - 1);
    }
  }

  lemma Prune(par: Parents, nodes: set<nat>, root: nat, s: nat)
    requires IsTree(par, nodes, root) && s in nodes && s != root && forall x :: x in par ==> par[x] != s
    ensures IsTree(par - {s}, nodes - {s}, root)
  {
    var par' := par - {s};
    forall x | x in nodes - {s} ensures Descends(par', x, root) {
      assert Descends(par, x, root);
      var n: nat :| Climb(par, x, n) == Some(root);
      Unpruned(par, s, x, n);
      assert Climb(par', x, n) == Some(root);
    }
  }

  lemma {:induction false} Unpruned(par: Parents, s: nat, x: nat, n: nat)
    requires x != s && forall y :: y in par ==> par[y] != s
    ensures Climb(par - {s}, x, n) == Climb(par, x, n)
    decreases n
  {
    if n > 0 && x in par {
      Unpruned(par, s, par[x], n - 1);
    }
  }

  /** Two subtrees trade places when neither new parent is below the subtree it receives. */
  lemma Swap(par: Parents, nodes: set<nat>, root: nat, s: nat, t: nat)
    requires IsTree(par, nodes, root) && s in par && t in par && s != t
    requires !Descends(par, par[t], s) && !Descends(par, par[s], t)
    ensures IsTree(par[s := par[t]][t := par[s]], nodes, root)
  {
    var mid := par[s := par[t]];
    Rehang(par, nodes, root, s, par[t]);
    assert !Descends(mid, par[s], t) by {
      if Descends(mid, par[s], t) {
        var n: nat :| Climb(mid, par[s], n) == Some(t);
        assert !Descends(par, par[s], s) by { NotBelowSelf(par, nodes, root, s); }
        ClimbAvoids(par, mid, s, par[s], n);
      }
    }
    Rehang(mid, nodes, root, t, par[s]);
  }

  lemma NotBelowSelf(par: Parents, nodes: set<nat>, root: nat, s: nat)
    requires IsTree(par, nodes, root) && s in par
    ensures !Descends(par, par[s], s)
  {
    if Descends(par, par[s], s) {
      var n: nat :| Climb(par, par[s], n) == Some(s);
      assert Climb(par, s, n + 1) == Some(s);
      NoCycle(par, nodes, root, s, n + 1);
    }
  }
}
