/** `sort_live_extents_for_inode`: one inode's entries are insertion-sorted behind all the others. */
module ExtentSort {
  import opened Common
  import opened Extents

  function Others(es: seq<Extent>, ino: nat): (r: seq<Extent>) {
    if es == [] then []
    else
      var rest, e := Others(es[..|es| - 1], ino), es[|es| - 1];
      if e.ino == ino then rest else rest + [e]
  }

  /** `insert_live_extent_entry_sorted`: behind every entry that starts no later. */
  function InsertSorted(ts: seq<Extent>, e: Extent): (r: seq<Extent>) {
    if e.start >= e.end then ts
    else if ts == [] || e.start < ts[0].start then [e] + ts
    else [ts[0]] + InsertSorted(ts[1..], e)
  }

  /** The search for the place to insert at passes one entry. */
  lemma InsertFurther(ts: seq<Extent>, e: Extent, pos: nat)
    requires e.start < e.end && pos < |ts| && ts[pos].start <= e.start
    ensures ts[..pos] + InsertSorted(ts[pos..], e) == ts[..pos + 1] + InsertSorted(ts[pos + 1..], e)
  {
    var rest := InsertSorted(ts[pos + 1..], e);
    assert ts[pos..][1..] == ts[pos + 1..] && ts[pos..][0] == ts[pos];
    assert ts[..pos] + ([ts[pos]] + rest) == ts[..pos + 1] + rest;
  }

  lemma InsertHere(ts: seq<Extent>, e: Extent, pos: nat)
    requires e.start < e.end && pos <= |ts| && (pos < |ts| ==> e.start < ts[pos].start)
    ensures ts[..pos] + InsertSorted(ts[pos..], e) == ts[..pos] + [e] + ts[pos..]
  {
    assert InsertSorted(ts[pos..], e) == [e] + ts[pos..];
  }

  function Target(es: seq<Extent>, ino: nat): (r: seq<Extent>) {
    if es == [] then []
    else
      var rest, e := Target(es[..|es| - 1], ino), es[|es| - 1];
      if e.ino == ino then InsertSorted(rest, e) else rest
  }

  function SortFor(es: seq<Extent>, ino: nat): (r: seq<Extent>) {
    PushAll(Others(es, ino), Target(es, ino))
  }

  lemma {:induction false} OthersAre(es: seq<Extent>, ino: nat)
    ensures forall x :: x in Others(es, ino) <==> x in es && x.ino != ino
  {
    if es != [] {
      var n := |es| - 1;
      OthersAre(es[..n], ino);
      assert es == es[..n] + [es[n]];
    }
  }

  lemma {:induction false} InsertMembers(ts: seq<Extent>, e: Extent)
    requires e.start < e.end
    ensures forall x :: x in InsertSorted(ts, e) <==> x in ts || x == e
  {
    if ts != [] && ts[0].start <= e.start {
      InsertMembers(ts[1..], e);
      assert ts == [ts[0]] + ts[1..];
    }
  }

  lemma {:induction false} TargetIs(es: seq<Extent>, ino: nat)
    requires forall e :: e in es ==> e.start < e.end
    ensures forall x :: x in Target(es, ino) <==> x in es && x.ino == ino
  {
    if es != [] {
      var n := |es| - 1;
      TargetIs(es[..n], ino);
      assert es == es[..n] + [es[n]] && es[n] in es;
      InsertMembers(Target(es[..n], ino), es[n]);
    }
  }

  /** Entries of one file that are apart and sorted. */
  ghost predicate InLine(ts: seq<Extent>, ino: nat) {
    && (forall x :: x in ts ==> WellFormed(x) && x.ino == ino)
    && (forall i, j :: 0 <= i < j < |ts| ==> ts[i].end <= ts[j].start)
  }

  lemma InLineCons(x: Extent, ts: seq<Extent>, ino: nat)
    requires WellFormed(x) && x.ino == ino && InLine(ts, ino) && forall y :: y in ts ==> x.end <= y.start
    ensures InLine([x] + ts, ino)
  {
  }

  lemma {:induction false} InsertInLine(ts: seq<Extent>, e: Extent, ino: nat)
    requires InLine(ts, ino) && WellFormed(e) && e.ino == ino && forall x :: x in ts ==> Apart(x, e)
    ensures InLine(InsertSorted(ts, e), ino)
  {
    if ts == [] {
      InLineCons(e, ts, ino);
    } else {
      var t, rest := ts[0], ts[1..];
      assert t in ts && Apart(t, e);
      assert forall i :: 0 < i < |ts| ==> t.end <= ts[i].start;
      if e.start < t.start {
        InLineCons(e, ts, ino);
      } else {
        assert InLine(rest, ino);
        InsertInLine(rest, e, ino);
        InsertMembers(rest, e);
        InLineCons(t, InsertSorted(rest, e), ino);
      }
    }
  }

  lemma {:induction false} TargetInLine(es: seq<Extent>, ino: nat)
    requires Laid(es)
    ensures InLine(Target(es, ino), ino)
  {
    if es != [] {
      var n := |es| - 1;
      LaidPrefix(es, n);
      TargetInLine(es[..n], ino);
      TargetIs(es[..n], ino);
      assert es[n] in es;
      if es[n].ino == ino {
        var t := Target(es[..n], ino);
        InsertInLine(t, es[n], ino);
      }
    }
  }

  /** Leaving one file out of an ordered vector keeps the rest ordered. */
  lemma {:induction false} OthersOrdered(es: seq<Extent>, ino: nat)
    requires Ordered(es)
    ensures Ordered(Others(es, ino))
  {
    if es != [] {
      var n := |es| - 1;
      var rest, e := Others(es[..n], ino), es[n];
      OrderedPrefix(es, n);
      OthersOrdered(es[..n], ino);
      if e.ino != ino {
        OthersAre(es[..n], ino);
        forall x | x in rest && x.ino == e.ino ensures x.end <= e.start && rest[|rest| - 1].ino == e.ino {
          var i :| 0 <= i < n && es[i] == x;
          OthersLast(es[..n], ino, i);
        }
        OrderedAppend(rest, e);
      }
    }
  }

  lemma {:induction false} OthersLast(es: seq<Extent>, ino: nat, i: nat)
    requires i < |es| && es[i].ino != ino && forall j :: i < j < |es| ==> es[j].ino == es[i].ino
    ensures Others(es, ino) != [] && Others(es, ino)[|Others(es, ino)| - 1].ino == es[i].ino
  {
    assert i < |es| - 1 ==> es[|es| - 1].ino == es[i].ino;
  }

  lemma {:induction false} OthersAppend(es: seq<Extent>, gaps: seq<Extent>, ino: nat)
    requires forall g :: g in gaps ==> g.ino == ino
    ensures Others(es + gaps, ino) == Others(es, ino)
    decreases |gaps|
  {
    if gaps == [] {
      assert es + gaps == es;
    } else {
      var n := |gaps| - 1;
      assert (es + gaps)[..|es| + n] == es + gaps[..n];
      assert gaps[n] in gaps;
      OthersAppend(es, gaps[..n], ino);
    }
  }

  lemma SortParts(es: seq<Extent>, ino: nat)
    requires Laid(es) && Ordered(Others(es, ino))
    ensures var r := Others(es, ino) + Target(es, ino); Laid(r) && Ordered(r) && SameMap(r, es)
    ensures forall x :: x in Others(es, ino) + Target(es, ino) <==> x in es
  {
    var o, t := Others(es, ino), Target(es, ino);
    var r := o + t;
    OthersAre(es, ino);
    TargetIs(es, ino);
    TargetInLine(es, ino);
    assert forall x :: x in r <==> x in o || x in t;
    OrderedThenTarget(o, t, ino);
    OrderedIsLaid(es, r);
    SameMembers(r, es);
  }

  lemma OrderedThenTarget(o: seq<Extent>, t: seq<Extent>, ino: nat)
    requires Ordered(o) && InLine(t, ino) && forall x :: x in o ==> x.ino != ino
    ensures Ordered(o + t)
  {
    var r := o + t;
    assert forall i :: |o| <= i < |r| ==> r[i] == t[i - |o|] && r[i] in t;
    assert forall i :: 0 <= i < |o| ==> r[i] == o[i] && r[i] in o;
  }

  /** A rearrangement of a laid-out vector that is ordered is laid out. */
  lemma OrderedIsLaid(es: seq<Extent>, r: seq<Extent>)
    requires Laid(es) && Ordered(r) && forall x :: x in r ==> x in es
    ensures Laid(r)
  {
    forall i, j | 0 <= i < j < |r| ensures Apart(r[i], r[j]) {
      assert r[i] in r && r[j] in r;
      var a :| 0 <= a < |es| && es[a] == r[i];
      var b :| 0 <= b < |es| && es[b] == r[j];
      assert WellFormed(r[i]);
      assert a != b;
      if a < b { assert Apart(es[a], es[b]); } else { assert Apart(es[b], es[a]); }
    }
  }

  /** Sorting keeps the map and restores the order. */
  lemma SortKeeps(es: seq<Extent>, ino: nat)
    requires Laid(es) && Ordered(Others(es, ino))
    ensures Laid(SortFor(es, ino)) && Ordered(SortFor(es, ino)) && SameMap(SortFor(es, ino), es)
    ensures TailsFrom(SortFor(es, ino), es)
  {
    var o, t := Others(es, ino), Target(es, ino);
    SortParts(es, ino);
    PushAllKeeps(o, t);
    PushAllOrdered(o, t);
    PushAllTails(o, t);
  }

  lemma SortJoined(es: seq<Extent>, ino: nat)
    requires Laid(es) && Ordered(Others(es, ino)) && Joined(Others(es, ino))
    ensures Joined(SortFor(es, ino))
  {
    SortKeeps(es, ino);
    JoinedIsSpaced(Others(es, ino));
    PushAllSpaced(Others(es, ino), Target(es, ino));
    SpacedIsJoined(SortFor(es, ino));
  }

  lemma OthersJoined(es: seq<Extent>, ino: nat)
    requires Joined(es)
    ensures Joined(Others(es, ino))
  {
    OthersAre(es, ino);
  }
}
