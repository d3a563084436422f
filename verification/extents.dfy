/** The live extent vector: one global sequence holding the DATA and UNWRITTEN extents of every file.
    `At` reads it as a map from (inode, logical byte) to a cell; `Laid` and `Ordered` are what every
    operation keeps: logically and physically disjoint entries, grouped by inode and sorted. */
module Extents {
  import opened Common
  import opened Remaps

  datatype Kind = Data | Unwritten

  datatype Extent = Extent(ino: nat, start: nat, end: nat, phys: nat, reserved: nat, kind: Kind)

  /** What the vector says about one logical byte. */
  datatype Cell = Hole | Preallocated | Stored(at: nat)

  predicate Covers(e: Extent, ino: nat, k: nat) {
    e.ino == ino && e.start <= k < e.end
  }

  function CellOf(e: Extent, k: nat): Cell
    requires e.start <= k
  {
    if e.kind.Data? then Stored(e.phys + (k - e.start)) else Preallocated
  }

  ghost predicate Mapped(es: seq<Extent>, ino: nat, k: nat) {
    exists e :: e in es && Covers(e, ino, k)
  }

  ghost function At(es: seq<Extent>, ino: nat, k: nat): Cell {
    if Mapped(es, ino, k) then
      var e :| e in es && Covers(e, ino, k);
      CellOf(e, k)
    else Hole
  }

  ghost predicate SameMap(a: seq<Extent>, b: seq<Extent>) {
    forall ino, k :: At(a, ino, k) == At(b, ino, k)
  }

  ghost predicate WellFormed(e: Extent) {
    && e.start < e.end
    && (e.kind.Data? ==> e.phys + (e.end - e.start) <= e.reserved)
    && (e.kind.Unwritten? ==> e.phys == e.reserved == 0)
  }

  /** No logical byte in common, and no physical byte in common up to the reserved ends. */
  ghost predicate Apart(a: Extent, b: Extent) {
    && (a.ino == b.ino ==> a.end <= b.start || b.end <= a.start)
    && (a.kind.Data? && b.kind.Data? ==> a.reserved <= b.phys || b.reserved <= a.phys)
  }

  ghost predicate Laid(es: seq<Extent>) {
    && (forall e :: e in es ==> WellFormed(e))
    && (forall i, j :: 0 <= i < j < |es| ==> Apart(es[i], es[j]))
  }

  /** Per inode sorted, and the entries of one inode contiguous. */
  ghost predicate Ordered(es: seq<Extent>) {
    && (forall i, j :: 0 <= i < j < |es| && es[i].ino == es[j].ino ==> es[i].end <= es[j].start)
    && (forall i, m, j :: 0 <= i < m < j < |es| && es[i].ino == es[j].ino ==> es[m].ino == es[i].ino)
  }

  lemma LaidApart(es: seq<Extent>, i: nat, j: nat)
    requires Laid(es) && i < |es| && j < |es|
    ensures i != j ==> Apart(es[i], es[j])
  {
    if j < i {
      assert Apart(es[j], es[i]);
    }
  }

  lemma AtIs(es: seq<Extent>, e: Extent, k: nat)
    requires Laid(es) && e in es && e.start <= k < e.end
    ensures At(es, e.ino, k) == CellOf(e, k)
  {
    assert Covers(e, e.ino, k);
    var f :| f in es && Covers(f, e.ino, k) && At(es, e.ino, k) == CellOf(f, k);
    var i :| 0 <= i < |es| && es[i] == e;
    var j :| 0 <= j < |es| && es[j] == f;
    LaidApart(es, i, j);
  }

  lemma SameMembers(a: seq<Extent>, b: seq<Extent>)
    requires Laid(a) && Laid(b) && forall e :: e in a <==> e in b
    ensures SameMap(a, b)
  {
    forall ino, k ensures At(a, ino, k) == At(b, ino, k) {
      if Mapped(a, ino, k) {
        var e :| e in a && Covers(e, ino, k);
        AtIs(a, e, k);
        AtIs(b, e, k);
      }
    }
  }

  lemma LaidAppend(es: seq<Extent>, e: Extent)
    requires Laid(es) && WellFormed(e) && forall x :: x in es ==> Apart(x, e)
    ensures Laid(es + [e])
  {
  }

  lemma LaidPrefix(es: seq<Extent>, n: nat)
    requires Laid(es) && n <= |es|
    ensures Laid(es[..n]) && (n < |es| ==> forall x :: x in es[..n] ==> Apart(x, es[n]))
  {
  }

  lemma OrderedAppend(es: seq<Extent>, e: Extent)
    requires Ordered(es)
    requires forall x :: x in es && x.ino == e.ino ==> x.end <= e.start && es[|es| - 1].ino == e.ino
    ensures Ordered(es + [e])
  {
    var s := es + [e];
    forall i, m, j | 0 <= i < m < j < |s| && s[i].ino == s[j].ino ensures s[m].ino == s[i].ino {
      if j == |es| {
        assert es[i] in es;
        assert es[i].ino == es[|es| - 1].ino;
      }
    }
    forall i, j | 0 <= i < j < |s| && s[i].ino == s[j].ino ensures s[i].end <= s[j].start {
      if j == |es| {
        assert es[i] in es;
      }
    }
  }

  // ---------- push_live_extent_entry ----------

  predicate CanMerge(left: Extent, right: Extent) {
    && left.ino == right.ino && left.kind == right.kind && left.end == right.start
    && (left.kind.Data? ==> left.phys + Monus(left.end, left.start) == right.phys)
  }

  function Push(out: seq<Extent>, e: Extent): (r: seq<Extent>) {
    if e.start >= e.end then out
    else if out != [] && CanMerge(out[|out| - 1], e) then
      var last := out[|out| - 1];
      out[..|out| - 1] + [last.(end := e.end, reserved := Max(last.reserved, e.reserved))]
    else out + [e]
  }

  function PushAll(out: seq<Extent>, es: seq<Extent>): (r: seq<Extent>) {
    if es == [] then out else Push(PushAll(out, es[..|es| - 1]), es[|es| - 1])
  }

  /** Merging gives an entry the end and the reserved end of the entry it swallowed. */
  predicate SameTail(x: Extent, y: Extent) {
    x.ino == y.ino && x.kind == y.kind && x.end == y.end && x.reserved == y.reserved
  }

  /** Every tail in `r` is a tail in `es`. */
  ghost predicate TailsFrom(r: seq<Extent>, es: seq<Extent>) {
    forall x :: x in r ==> exists y :: y in es && SameTail(x, y)
  }

  function Merged(left: Extent, right: Extent): Extent {
    left.(end := right.end, reserved := Max(left.reserved, right.reserved))
  }

  lemma MergedFacts(left: Extent, right: Extent)
    requires WellFormed(left) && WellFormed(right) && Apart(left, right) && CanMerge(left, right)
    ensures WellFormed(Merged(left, right)) && SameTail(Merged(left, right), right)
    ensures forall ino, k :: Covers(Merged(left, right), ino, k) <==> Covers(left, ino, k) || Covers(right, ino, k)
    ensures forall k :: left.start <= k < left.end ==> CellOf(Merged(left, right), k) == CellOf(left, k)
    ensures forall k :: right.start <= k < right.end ==> CellOf(Merged(left, right), k) == CellOf(right, k)
    ensures forall f :: WellFormed(f) && Apart(f, left) && Apart(f, right) ==> Apart(f, Merged(left, right))
  {
  }

  lemma PushLaid(out: seq<Extent>, e: Extent)
    requires Laid(out + [e])
    ensures Laid(Push(out, e))
  {
    var s, n := out + [e], |out| - 1;
    assert e == s[n + 1] && e in s;
    if out != [] && CanMerge(out[n], e) {
      assert Apart(s[n], s[n + 1]);
      MergedFacts(out[n], e);
      LaidPrefix(s, n);
      var front, m := out[..n], Merged(out[n], e);
      assert Push(out, e) == front + [m];
      assert front == s[..n];
      forall x | x in front ensures Apart(x, m) {
        var i :| 0 <= i < n && s[i] == x;
        assert Apart(s[i], s[n]) && Apart(s[i], s[n + 1]);
      }
      LaidAppend(front, m);
    }
  }

  lemma PushSame(out: seq<Extent>, e: Extent, ino: nat, k: nat)
    requires Laid(out + [e])
    ensures At(Push(out, e), ino, k) == At(out + [e], ino, k)
  {
    var s, n := out + [e], |out| - 1;
    assert e == s[n + 1] && e in s;
    if out != [] && CanMerge(out[n], e) {
      PushLaid(out, e);
      assert Apart(s[n], s[n + 1]) && s[n] in s;
      MergedFacts(out[n], e);
      LaidPrefix(s, n + 1);
      LaidPrefix(s, n);
      var front, m := out[..n], Merged(out[n], e);
      assert Push(out, e) == front + [m] && s == (front + [out[n]]) + [e];
      assert s[..n + 1] == front + [out[n]] && s[..n] == front;
      AtAppend(front, m, ino, k);
      AtAppend(front, out[n], ino, k);
      AtAppend(front + [out[n]], e, ino, k);
    }
  }

  /** What a laid-out entry adds to the map. */
  lemma AtAppend(es: seq<Extent>, e: Extent, ino: nat, k: nat)
    requires Laid(es + [e])
    ensures At(es + [e], ino, k) == if Covers(e, ino, k) then CellOf(e, k) else At(es, ino, k)
  {
    var s := es + [e];
    LaidPrefix(s, |es|);
    assert s[..|es|] == es && e == s[|es|];
    if Covers(e, ino, k) {
      AtIs(s, e, k);
    } else if Mapped(es, ino, k) {
      var x :| x in es && Covers(x, ino, k);
      AtIs(es, x, k);
      AtIs(s, x, k);
    } else {
      assert forall x :: x in s && Covers(x, ino, k) ==> x in es;
    }
  }

  lemma LaidLast(out: seq<Extent>, e: Extent)
    requires Laid(out + [e])
    ensures WellFormed(e) && (out != [] ==> WellFormed(out[|out| - 1]) && Apart(out[|out| - 1], e))
  {
    var s, n := out + [e], |out| - 1;
    assert e == s[n + 1] && e in s;
    if out != [] {
      assert s[n] == out[n] && s[n] in s && Apart(s[n], s[n + 1]);
    }
  }

  lemma PushTails(out: seq<Extent>, e: Extent)
    requires WellFormed(e) && (out != [] ==> WellFormed(out[|out| - 1]) && Apart(out[|out| - 1], e))
    ensures TailsFrom(Push(out, e), out + [e])
    ensures Push(out, e) != [] && SameTail(Push(out, e)[|Push(out, e)| - 1], e)
  {
    var n := |out| - 1;
    if out != [] && CanMerge(out[n], e) {
      MergedFacts(out[n], e);
      TailsOfPart(out[..n], out + [e]);
      TailsSnoc(out[..n], Merged(out[n], e), out + [e], e);
    } else {
      TailsOfSelf(out + [e]);
    }
  }

  lemma TailsOfPart(part: seq<Extent>, es: seq<Extent>)
    requires forall x :: x in part ==> x in es
    ensures TailsFrom(part, es)
  {
    forall x | x in part ensures exists y :: y in es && SameTail(x, y) {
      assert x in es && SameTail(x, x);
    }
  }

  lemma TailsSnoc(a: seq<Extent>, x: Extent, es: seq<Extent>, y: Extent)
    requires TailsFrom(a, es) && y in es && SameTail(x, y)
    ensures TailsFrom(a + [x], es)
  {
  }

  lemma TailsOfSelf(es: seq<Extent>)
    ensures TailsFrom(es, es)
  {
    TailsOfPart(es, es);
  }

  lemma TailsTrans(a: seq<Extent>, b: seq<Extent>, c: seq<Extent>)
    requires TailsFrom(a, b) && TailsFrom(b, c)
    ensures TailsFrom(a, c)
  {
    forall x | x in a ensures exists y :: y in c && SameTail(x, y) {
      var y :| y in b && SameTail(x, y);
      var z :| z in c && SameTail(y, z);
      assert SameTail(x, z);
    }
  }

  lemma PushOrdered(out: seq<Extent>, e: Extent)
    requires Laid(out + [e]) && Ordered(out + [e])
    ensures Ordered(Push(out, e))
  {
    var s, r := out + [e], Push(out, e);
    assert e in s;
    assert forall i :: 0 <= i < |r| ==> r[i].ino == s[i].ino && r[i].start == s[i].start;
    assert forall i :: 0 <= i < |r| - 1 ==> r[i].end == s[i].end;
  }

  /** Whatever keeps clear of every entry pushed keeps clear of the merged result. */
  lemma PushApart(out: seq<Extent>, e: Extent, f: Extent)
    requires Laid(out + [e]) && WellFormed(f) && forall x :: x in out + [e] ==> Apart(x, f)
    ensures forall x :: x in Push(out, e) ==> Apart(x, f)
  {
    var s, n := out + [e], |out| - 1;
    assert e == s[n + 1] && e in s;
    if out != [] && CanMerge(out[n], e) {
      assert Apart(s[n], s[n + 1]) && s[n] in s;
      MergedFacts(out[n], e);
      assert forall x :: x in out[..n] ==> x in s;
    }
  }

  /** Pushing a laid-out sequence entry by entry, merging where it can, changes nothing `At` sees. */
  lemma {:induction false} PushAllKeeps(out: seq<Extent>, es: seq<Extent>)
    requires Laid(out + es)
    ensures Laid(PushAll(out, es)) && SameMap(PushAll(out, es), out + es)
    decreases |es|
  {
    if es == [] {
      assert out + es == out;
    } else {
      var n := |es| - 1;
      var front, e, all := es[..n], es[n], out + es;
      var mid := PushAll(out, front);
      PushNext(out, es);
      PushLaid(mid, e);
      forall ino, k ensures At(Push(mid, e), ino, k) == At(all, ino, k) {
        PushSame(mid, e, ino, k);
        AtAppend(mid, e, ino, k);
        AtAppend(out + front, e, ino, k);
        assert At(mid, ino, k) == At(out + front, ino, k) by { PushAllKeeps(out, front); }
        assert all == (out + front) + [e];
      }
    }
  }

  /** The last entry of a laid-out sequence still fits after the others have been merged. */
  lemma {:induction false} PushNext(out: seq<Extent>, es: seq<Extent>)
    requires Laid(out + es) && es != []
    ensures Laid(out + es[..|es| - 1]) && Laid(PushAll(out, es[..|es| - 1]) + [es[|es| - 1]])
    ensures (out + es[..|es| - 1]) + [es[|es| - 1]] == out + es
    decreases |es|, 0
  {
    var n := |es| - 1;
    var front, e, all := es[..n], es[n], out + es;
    assert all[..|all| - 1] == out + front && all[|all| - 1] == e && e in all;
    LaidPrefix(all, |all| - 1);
    PushAllKeeps(out, front);
    PushAllApart(out, front, e);
    LaidAppend(PushAll(out, front), e);
  }

  lemma {:induction false} PushAllApart(out: seq<Extent>, es: seq<Extent>, f: Extent)
    requires Laid(out + es) && WellFormed(f) && forall x :: x in out + es ==> Apart(x, f)
    ensures forall x :: x in PushAll(out, es) ==> Apart(x, f)
    decreases |es|
  {
    if es == [] {
      assert out + es == out;
    } else {
      var n := |es| - 1;
      PushNext(out, es);
      PushAllApart(out, es[..n], f);
      assert es[n] in out + es;
      PushApart(PushAll(out, es[..n]), es[n], f);
    }
  }

  lemma {:induction false} PushAllTails(out: seq<Extent>, es: seq<Extent>)
    requires Laid(out + es)
    ensures TailsFrom(PushAll(out, es), out + es)
    ensures out + es != [] ==>
              && PushAll(out, es) != []
              && SameTail(PushAll(out, es)[|PushAll(out, es)| - 1], (out + es)[|out + es| - 1])
    decreases |es|
  {
    if es == [] {
      assert out + es == out;
      TailsOfSelf(out);
    } else {
      var n := |es| - 1;
      var mid, e := PushAll(out, es[..n]), es[n];
      PushNext(out, es);
      PushAllTails(out, es[..n]);
      LaidLast(mid, e);
      PushTails(mid, e);
      TailsAppend(mid, out + es[..n], e);
      TailsTrans(Push(mid, e), mid + [e], out + es);
    }
  }

  lemma TailsAppend(a: seq<Extent>, b: seq<Extent>, e: Extent)
    requires TailsFrom(a, b)
    ensures TailsFrom(a + [e], b + [e])
  {
    forall x | x in a + [e] ensures exists y :: y in b + [e] && SameTail(x, y) {
      if x in a {
        var y :| y in b && SameTail(x, y);
        assert y in b + [e];
      } else {
        assert e in b + [e] && SameTail(e, e);
      }
    }
  }

  lemma OrderedNext(mid: seq<Extent>, front: seq<Extent>, e: Extent)
    requires Ordered(mid) && Ordered(front + [e]) && TailsFrom(mid, front)
    requires front != [] ==> mid != [] && mid[|mid| - 1].ino == front[|front| - 1].ino
    ensures Ordered(mid + [e])
  {
    var all, n := front + [e], |front|;
    forall x | x in mid && x.ino == e.ino ensures x.end <= e.start && mid[|mid| - 1].ino == e.ino {
      var y :| y in front && SameTail(x, y);
      var i :| 0 <= i < n && front[i] == y;
      assert all[i] == y && all[n] == e && all[n - 1] == front[n - 1];
    }
    OrderedAppend(mid, e);
  }

  lemma OrderedPrefix(es: seq<Extent>, n: nat)
    requires Ordered(es) && n <= |es|
    ensures Ordered(es[..n])
  {
  }

  lemma {:induction false} PushAllOrdered(out: seq<Extent>, es: seq<Extent>)
    requires Laid(out + es) && Ordered(out + es)
    ensures Ordered(PushAll(out, es))
    decreases |es|
  {
    if es == [] {
      assert out + es == out;
    } else {
      var n := |es| - 1;
      PushNext(out, es);
      OrderedPrefix(out + es, |out| + n);
      assert (out + es)[..|out| + n] == out + es[..n];
      PushAllOrdered(out, es[..n]);
      PushAllTails(out, es[..n]);
      OrderedNext(PushAll(out, es[..n]), out + es[..n], es[n]);
      PushOrdered(PushAll(out, es[..n]), es[n]);
    }
  }

  lemma {:induction false} PushAllConcat(out: seq<Extent>, a: seq<Extent>, b: seq<Extent>)
    ensures PushAll(out, a + b) == PushAll(PushAll(out, a), b)
    decreases |b|
  {
    if b == [] {
      assert a + b == a;
    } else {
      assert (a + b)[..|a + b| - 1] == a + b[..|b| - 1];
      PushAllConcat(out, a, b[..|b| - 1]);
    }
  }

  // ---------- whole runs ----------

  /** No entry could be merged with another: each preallocated entry is a whole run of preallocated bytes, and each data
      entry a whole run of bytes that follow one another in storage. */
  ghost predicate Joined(es: seq<Extent>) {
    forall a, b {:trigger CanMerge(a, b)} :: a in es && b in es ==> !CanMerge(a, b)
  }

  /** The same of neighbours only. */
  ghost predicate Spaced(es: seq<Extent>) {
    forall i, j :: 0 <= i && j == i + 1 < |es| ==> !CanMerge(es[i], es[j])
  }

  lemma JoinedIsSpaced(es: seq<Extent>)
    requires Joined(es)
    ensures Spaced(es)
  {
  }

  /** In an ordered vector entries that could be merged are neighbours. */
  lemma Neighbours(es: seq<Extent>, i: nat, j: nat)
    requires Laid(es) && Ordered(es) && i < |es| && j < |es| && es[i].ino == es[j].ino && es[i].end == es[j].start
    ensures j == i + 1
  {
    assert es[i] in es && es[j] in es && WellFormed(es[i]) && WellFormed(es[j]);
    if i < j {
      assert es[i + 1] in es && WellFormed(es[i + 1]);
    }
  }

  lemma SpacedIsJoined(es: seq<Extent>)
    requires Laid(es) && Ordered(es) && Spaced(es)
    ensures Joined(es)
  {
    forall a, b | a in es && b in es ensures !CanMerge(a, b) {
      var i :| 0 <= i < |es| && es[i] == a;
      var j :| 0 <= j < |es| && es[j] == b;
      if CanMerge(es[i], es[j]) { Neighbours(es, i, j); }
    }
  }

  lemma PushSpaced(out: seq<Extent>, e: Extent)
    requires Spaced(out)
    ensures Spaced(Push(out, e))
  {
    var r := Push(out, e);
    forall i, j | 0 <= i && j == i + 1 < |r| ensures !CanMerge(r[i], r[j]) {
      if j < |out| { assert !CanMerge(out[i], out[j]); }
    }
  }

  lemma {:induction false} PushAllSpaced(out: seq<Extent>, es: seq<Extent>)
    requires Spaced(out)
    ensures Spaced(PushAll(out, es))
    decreases |es|
  {
    if es != [] {
      PushAllSpaced(out, es[..|es| - 1]);
      PushSpaced(PushAll(out, es[..|es| - 1]), es[|es| - 1]);
    }
  }
}
