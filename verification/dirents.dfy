/** The directory entry table: a list searched from the front, read as a map of names. */
module Dirents {
  import opened Common
  import opened Trees
  import opened Links

  datatype Dirent = Dirent(parent: nat, name: Name, child: nat, kind: NodeKind, cookie: nat) {
    function At(): Key { (parent, name) }
    function To(): Target { Target(child, kind) }
  }

  ghost predicate Distinct(es: seq<Dirent>) {
    forall i, j :: 0 <= i < j < |es| ==> es[i].At() != es[j].At()
  }

  function NamesIn(es: seq<Dirent>): Names {
    if es == [] then map[] else var e := es[|es| - 1]; NamesIn(es[..|es| - 1])[e.At() := e.To()]
  }

  /** The table without every entry under the name `k`. */
  function Without(es: seq<Dirent>, k: Key): seq<Dirent> {
    if es == [] then []
    else var rest := Without(es[..|es| - 1], k); if es[|es| - 1].At() == k then rest else rest + [es[|es| - 1]]
  }

  /** Cookies grow along the table and stay below the next one to be given out. */
  ghost predicate CookiesGrow(es: seq<Dirent>, next: nat) {
    && (forall i :: 0 <= i < |es| ==> 0 < es[i].cookie < next)
    && (forall i, j :: 0 <= i < j < |es| ==> es[i].cookie < es[j].cookie)
  }

  lemma {:induction false} NamesAt(es: seq<Dirent>, i: nat)
    requires Distinct(es) && i < |es|
    ensures es[i].At() in NamesIn(es) && NamesIn(es)[es[i].At()] == es[i].To()
  {
    if i < |es| - 1 {
      NamesAt(es[..|es| - 1], i);
    }
  }

  lemma {:induction false} NamesFrom(es: seq<Dirent>, k: Key) returns (i: nat)
    requires k in NamesIn(es)
    ensures i < |es| && es[i].At() == k
  {
    if es[|es| - 1].At() == k {
      i := |es| - 1;
    } else {
      i := NamesFrom(es[..|es| - 1], k);
    }
  }

  lemma NamesAppend(es: seq<Dirent>, e: Dirent)
    requires Distinct(es) && e.At() !in NamesIn(es)
    ensures Distinct(es + [e]) && NamesIn(es + [e]) == NamesIn(es)[e.At() := e.To()]
  {
    assert (es + [e])[..|es|] == es;
    forall i | 0 <= i < |es| ensures es[i].At() != e.At() { NamesAt(es, i); }
  }

  lemma WithoutOther(es: seq<Dirent>, k: Key)
    ensures forall e :: e in Without(es, k) <==> e in es && e.At() != k
  {
    if es != [] {
      WithoutOther(es[..|es| - 1], k);
      assert es == es[..|es| - 1] + [es[|es| - 1]];
    }
  }

  lemma LastIsNew(es: seq<Dirent>)
    requires Distinct(es) && es != []
    ensures es[|es| - 1].At() !in NamesIn(es[..|es| - 1])
  {
    var k := es[|es| - 1].At();
    if k in NamesIn(es[..|es| - 1]) {
      var i := NamesFrom(es[..|es| - 1], k);
    }
  }

  lemma WithoutStep(front: seq<Dirent>, e: Dirent, k: Key)
    ensures Without(front + [e], k) == if e.At() == k then Without(front, k) else Without(front, k) + [e]
    ensures NamesIn(front + [e]) == NamesIn(front)[e.At() := e.To()]
  {
    assert (front + [e])[..|front|] == front;
  }

  lemma DropThenPut(m: Names, k: Key, l: Key, t: Target)
    ensures m[l := t] - {k} == if l == k then m - {k} else (m - {k})[l := t]
  {
  }

  lemma {:induction false} WithoutNames(es: seq<Dirent>, k: Key)
    requires Distinct(es)
    ensures Distinct(Without(es, k)) && NamesIn(Without(es, k)) == NamesIn(es) - {k}
  {
    if es != [] {
      var front, e := es[..|es| - 1], es[|es| - 1];
      assert es == front + [e];
      WithoutNames(front, k);
      LastIsNew(es);
      WithoutStep(front, e, k);
      DropThenPut(NamesIn(front), k, e.At(), e.To());
      if e.At() != k {
        NamesAppend(Without(front, k), e);
      }
    }
  }

  lemma {:induction false} WithoutCookies(es: seq<Dirent>, k: Key, next: nat)
    requires CookiesGrow(es, next)
    ensures CookiesGrow(Without(es, k), next)
  {
    if es != [] {
      var front, e := es[..|es| - 1], es[|es| - 1];
      assert CookiesGrow(front, e.cookie);
      WithoutCookies(front, k, e.cookie);
    }
  }

  /** Taking one matching entry out of the table does not change what is left without the matches. */
  lemma {:induction false} WithoutSkips(es: seq<Dirent>, i: nat, k: Key)
    requires i < |es| && es[i].At() == k
    ensures Without(es[..i] + es[i + 1..], k) == Without(es, k)
    decreases |es|
  {
    var n := |es| - 1;
    if i < n {
      WithoutSkips(es[..n], i, k);
      assert (es[..i] + es[i + 1..])[..n - 1] == es[..n][..i] + es[..n][i + 1..];
      assert (es[..i] + es[i + 1..])[n - 1] == es[n];
    } else {
      assert es[..i] + es[i + 1..] == es[..n];
    }
  }

  lemma {:induction false} WithoutNone(es: seq<Dirent>, k: Key)
    requires forall i :: 0 <= i < |es| ==> es[i].At() != k
    ensures Without(es, k) == es
  {
    if es != [] {
      WithoutNone(es[..|es| - 1], k);
    }
  }

  /** The first entry that names the directory `x` gives its parent. */
  lemma NamedBy(es: seq<Dirent>, i: nat)
    requires Distinct(es) && OneParent(NamesIn(es)) && i < |es| && es[i].kind.Dir?
    ensures es[i].child in ParentMap(NamesIn(es)) && ParentMap(NamesIn(es))[es[i].child] == es[i].parent
  {
    NamesAt(es, i);
    ParentAt(NamesIn(es), es[i].At());
  }

  lemma NotNamed(es: seq<Dirent>, x: nat)
    requires Distinct(es) && forall i :: 0 <= i < |es| ==> es[i].To() != Target(x, Dir)
    ensures x !in ParentMap(NamesIn(es))
  {
    if x in ParentMap(NamesIn(es)) {
      var k :| k in NamesIn(es) && NamesIn(es)[k].kind.Dir? && NamesIn(es)[k].child == x;
      var i := NamesFrom(es, k);
      NamesAt(es, i);
    }
  }
}
