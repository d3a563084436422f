/** What device writes to one file's extents do to the bytes the extent vector maps. */
module Media {
  import opened Common
  import opened Extents
  import opened Pool

  function ImageAt(image: seq<byte>, x: nat): byte { if x < |image| then image[x] else 0 }

  /** The stored bytes of everything but [lo, hi) of `ino` are the same on both images. */
  ghost predicate SameElsewhere(es: seq<Extent>, base: nat, a: seq<byte>, b: seq<byte>, ino: nat, lo: nat, hi: nat) {
    forall i: nat, k: nat :: At(es, i, k).Stored? && !(i == ino && lo <= k < hi) ==>
                     ImageAt(b, base + At(es, i, k).at) == ImageAt(a, base + At(es, i, k).at)
  }

  lemma AtFrom(es: seq<Extent>, ino: nat, k: nat) returns (j: nat)
    requires At(es, ino, k) != Hole
    ensures j < |es| && Covers(es[j], ino, k) && At(es, ino, k) == CellOf(es[j], k)
  {
    var e :| e in es && Covers(e, ino, k) && At(es, ino, k) == CellOf(e, k);
    j :| 0 <= j < |es| && es[j] == e;
  }

  /** A stored byte inside the physical range of an extent is a byte of that extent. */
  lemma PhysOwner(es: seq<Extent>, e: Extent, ino: nat, k: nat)
    requires Laid(es) && e in es && e.kind.Data? && At(es, ino, k).Stored?
    requires e.phys <= At(es, ino, k).at < e.phys + (e.end - e.start)
    ensures Covers(e, ino, k) && At(es, ino, k) == CellOf(e, k)
  {
    var j := AtFrom(es, ino, k);
    var i :| 0 <= i < |es| && es[i] == e;
    assert es[j] in es && WellFormed(es[j]) && WellFormed(e);
    LaidApart(es, i, j);
  }

  /** No physical byte serves two places, of one file or of two. */
  lemma PhysInjective(es: seq<Extent>, i: nat, k: nat, i': nat, k': nat)
    requires Laid(es) && At(es, i, k).Stored? && At(es, i', k') == At(es, i, k)
    ensures i == i' && k == k'
  {
    var j := AtFrom(es, i, k);
    assert es[j] in es && WellFormed(es[j]);
    PhysOwner(es, es[j], i', k');
  }

  /** A write, whole or torn, into the part of an extent that lies in [lo, hi) of its file. */
  lemma WriteInside(
    es: seq<Extent>, e: Extent, base: nat, was: seq<byte>, now: seq<byte>, from: nat, payload: seq<byte>, lo: nat,
    hi: nat
  )
    requires Laid(es) && e in es && e.kind.Data? && lo <= from && e.start <= from && from + |payload| <= Min(e.end, hi)
    requires Torn(was, now, base + e.phys + (from - e.start), payload)
    ensures SameElsewhere(es, base, was, now, e.ino, lo, hi)
  {
    forall i: nat, k: nat | At(es, i, k).Stored? && !(i == e.ino && lo <= k < hi)
      ensures ImageAt(now, base + At(es, i, k).at) == ImageAt(was, base + At(es, i, k).at)
    {
      var p := At(es, i, k).at;
      if e.phys + (from - e.start) <= p < e.phys + (from - e.start) + |payload| {
        PhysOwner(es, e, i, k);
      }
    }
  }

  lemma SameElsewhereTrans(es: seq<Extent>, base: nat, a: seq<byte>, b: seq<byte>, c: seq<byte>, ino: nat, lo: nat,
                           hi: nat)
    requires SameElsewhere(es, base, a, b, ino, lo, hi) && SameElsewhere(es, base, b, c, ino, lo, hi)
    ensures SameElsewhere(es, base, a, c, ino, lo, hi)
  {
  }

  /** Every stored byte of the range holds on `b` what it held on `a` or its byte of `data`. */
  ghost predicate Partly(es: seq<Extent>, base: nat, a: seq<byte>, b: seq<byte>, ino: nat, lo: nat, data: seq<byte>) {
    forall k: nat :: lo <= k < lo + |data| && At(es, ino, k).Stored? ==>
                       var p := base + At(es, ino, k).at;
                         ImageAt(b, p) == ImageAt(a, p) || ImageAt(b, p) == data[k - lo]
  }

  lemma PartlyTrans(es: seq<Extent>, base: nat, a: seq<byte>, b: seq<byte>, c: seq<byte>, ino: nat, lo: nat,
                    data: seq<byte>)
    requires Partly(es, base, a, b, ino, lo, data) && Partly(es, base, b, c, ino, lo, data)
    ensures Partly(es, base, a, c, ino, lo, data)
  {
  }

  lemma PartlyInside(
    es: seq<Extent>, e: Extent, base: nat, was: seq<byte>, now: seq<byte>, from: nat, piece: seq<byte>, lo: nat,
    data: seq<byte>
  )
    requires Laid(es) && e in es && e.kind.Data? && lo <= from && e.start <= from
               && from + |piece| <= Min(e.end, lo + |data|)
    requires piece == data[from - lo..from - lo + |piece|]
    requires Torn(was, now, base + e.phys + (from - e.start), piece)
    ensures Partly(es, base, was, now, e.ino, lo, data)
  {
    forall k: nat | lo <= k < lo + |data| && At(es, e.ino, k).Stored?
      ensures var p := base + At(es, e.ino, k).at; ImageAt(now, p) == ImageAt(was, p) || ImageAt(now, p) == data[k - lo]
    {
      var p := At(es, e.ino, k).at;
      if e.phys + (from - e.start) <= p < e.phys + (from - e.start) + |piece| {
        PhysOwner(es, e, e.ino, k);
        assert piece[k - from] == data[k - lo];
      }
    }
  }

  /** [lo, hi) of the file is stored and reads `data`. */
  ghost predicate Landed(es: seq<Extent>, base: nat, image: seq<byte>, ino: nat, lo: nat, hi: nat, data: seq<byte>)
    requires hi - lo <= |data|
  {
    forall k :: lo <= k < hi ==> At(es, ino, k).Stored? && ImageAt(image, base + At(es, ino, k).at) == data[k - lo]
  }

  /** Every stored byte of [lo, hi) reads zero. */
  ghost predicate Zeroed(es: seq<Extent>, base: nat, image: seq<byte>, ino: nat, lo: nat, hi: nat, upto: nat)
    requires upto <= |es|
  {
    forall j, k: nat :: 0 <= j < upto && Covers(es[j], ino, k) && es[j].kind.Data? && lo <= k < hi ==>
                     ImageAt(image, base + es[j].phys + (k - es[j].start)) == 0
  }

  predicate Overlaps(e: Extent, ino: nat, lo: nat, hi: nat) {
    e.ino == ino && e.kind.Data? && Max(lo, e.start) < Min(hi, e.end)
  }

  /** The DATA extents of the file before index `i` end, inside [lo, hi), at `frontier`; the others start there or
      later. */
  ghost predicate Reached(es: seq<Extent>, i: nat, ino: nat, lo: nat, hi: nat, frontier: nat) {
    forall j :: 0 <= j < |es| && Overlaps(es[j], ino, lo, hi) ==>
                  if j < i then Min(hi, es[j].end) <= frontier else frontier <= Max(lo, es[j].start)
  }

  lemma NextStartsHere(es: seq<Extent>, i: nat, ino: nat, lo: nat, hi: nat, frontier: nat)
    requires Laid(es) && Ordered(es) && i < |es| && Overlaps(es[i], ino, lo, hi)
               && Reached(es, i, ino, lo, hi, frontier)
    requires lo <= frontier <= hi && forall k :: lo <= k < hi ==> At(es, ino, k).Stored?
    ensures frontier == Max(lo, es[i].start)
    ensures Reached(es, i + 1, ino, lo, hi, Min(hi, es[i].end))
  {
    if frontier < Max(lo, es[i].start) {
      var j := AtFrom(es, ino, frontier);
      assert Overlaps(es[j], ino, lo, hi);
    }
    forall j | i < j < |es| && Overlaps(es[j], ino, lo, hi) ensures Min(hi, es[i].end) <= Max(lo, es[j].start) {
      assert es[i].ino == es[j].ino;
    }
  }

  lemma ReachNext(es: seq<Extent>, i: nat, ino: nat, lo: nat, hi: nat, frontier: nat)
    requires Laid(es) && Ordered(es) && i < |es| && Reached(es, i, ino, lo, hi, frontier)
    requires lo <= frontier <= hi && forall k :: lo <= k < hi ==> At(es, ino, k).Stored?
    ensures Overlaps(es[i], ino, lo, hi) ==>
              frontier == Max(lo, es[i].start) && Reached(es, i + 1, ino, lo, hi, Min(hi, es[i].end))
    ensures !Overlaps(es[i], ino, lo, hi) ==> Reached(es, i + 1, ino, lo, hi, frontier)
  {
    if Overlaps(es[i], ino, lo, hi) {
      NextStartsHere(es, i, ino, lo, hi, frontier);
    }
  }

  lemma NothingLeft(es: seq<Extent>, ino: nat, lo: nat, hi: nat, frontier: nat)
    requires Reached(es, |es|, ino, lo, hi, frontier) && lo <= frontier <= hi
    requires forall k :: lo <= k < hi ==> At(es, ino, k).Stored?
    ensures frontier == hi
  {
    if frontier < hi {
      var j := AtFrom(es, ino, frontier);
      assert Overlaps(es[j], ino, lo, hi);
    }
  }

  /** How far [lo, hi) has been covered before each extent: every DATA extent that meets the range begins
      exactly where the ones before it ended. */
  ghost predicate Frontier(es: seq<Extent>, ino: nat, lo: nat, hi: nat, fr: seq<nat>) {
    && |fr| == |es| + 1 && fr[0] == lo && fr[|es|] == hi
    && forall i :: 0 <= i < |es| ==> lo <= fr[i] <= hi && FrontierStep(es[i], ino, lo, hi, fr[i], fr[i + 1])
  }

  predicate FrontierStep(e: Extent, ino: nat, lo: nat, hi: nat, at: nat, next: nat) {
    if Overlaps(e, ino, lo, hi) then at == Max(lo, e.start) && next == Min(hi, e.end) else next == at
  }

  lemma FindFrontier(es: seq<Extent>, ino: nat, lo: nat, hi: nat) returns (fr: seq<nat>)
    requires Laid(es) && Ordered(es) && lo <= hi && forall k :: lo <= k < hi ==> At(es, ino, k).Stored?
    ensures Frontier(es, ino, lo, hi, fr)
  {
    fr := [lo];
    for i := 0 to |es|
      invariant |fr| == i + 1 && fr[0] == lo && lo <= fr[i] <= hi && Reached(es, i, ino, lo, hi, fr[i])
      invariant forall j :: 0 <= j < i ==> lo <= fr[j] <= hi && FrontierStep(es[j], ino, lo, hi, fr[j], fr[j + 1])
    {
      ReachNext(es, i, ino, lo, hi, fr[i]);
      fr := fr + [if Overlaps(es[i], ino, lo, hi) then Min(hi, es[i].end) else fr[i]];
    }
    NothingLeft(es, ino, lo, hi, fr[|es|]);
  }

  lemma LandedFurther(
    es: seq<Extent>, e: Extent, base: nat, was: seq<byte>, now: seq<byte>, lo: nat, from: nat, to: nat, data: seq<byte>
  )
    requires Laid(es) && e in es && e.kind.Data? && e.start <= from < to <= e.end && lo <= from && to - lo <= |data|
    requires Landed(es, base, was, e.ino, lo, from, data)
    requires Written(was, now, base + e.phys + (from - e.start), data[from - lo..to - lo])
    ensures Landed(es, base, now, e.ino, lo, to, data)
  {
    forall k | lo <= k < to
      ensures At(es, e.ino, k).Stored? && ImageAt(now, base + At(es, e.ino, k).at) == data[k - lo] {
      if k < from {
        var p := At(es, e.ino, k).at;
        if e.phys + (from - e.start) <= p < e.phys + (to - e.start) {
          PhysOwner(es, e, e.ino, k);
        }
      } else {
        AtIs(es, e, k);
      }
    }
  }

  ghost function StoredAt(es: seq<Extent>, base: nat, image: seq<byte>, ino: nat, k: nat): byte {
    match At(es, ino, k)
    case Stored(p) => ImageAt(image, base + p)
    case _ => 0
  }

  /** `out` holds what the extents `es` store in [lo, lo + |out|) of the file, and zero elsewhere. */
  ghost predicate Gathered(es: seq<Extent>, base: nat, image: seq<byte>, ino: nat, lo: nat, out: seq<byte>) {
    forall k: nat :: lo <= k < lo + |out| ==> out[k - lo] == StoredAt(es, base, image, ino, k)
  }

  lemma GatherMore(es: seq<Extent>, e: Extent, base: nat, image: seq<byte>, ino: nat, lo: nat, out: seq<byte>,
                   got: seq<byte>)
    requires Laid(es + [e]) && Gathered(es, base, image, ino, lo, out) && Overlaps(e, ino, lo, lo + |out|)
    requires |got| == Min(lo + |out|, e.end) - Max(lo, e.start)
    requires ReadBack(image, base + e.phys + (Max(lo, e.start) - e.start), got)
    ensures Gathered(es + [e], base, image, ino, lo, Splice(out, Max(lo, e.start) - lo, got))
  {
    var next := Splice(out, Max(lo, e.start) - lo, got);
    forall k: nat | lo <= k < lo + |next| ensures next[k - lo] == StoredAt(es + [e], base, image, ino, k) {
      AtAppend(es, e, ino, k);
      assert out[k - lo] == StoredAt(es, base, image, ino, k);
    }
  }

  lemma GatherNone(es: seq<Extent>, e: Extent, base: nat, image: seq<byte>, ino: nat, lo: nat, out: seq<byte>)
    requires Laid(es + [e]) && Gathered(es, base, image, ino, lo, out) && !Overlaps(e, ino, lo, lo + |out|)
    ensures Gathered(es + [e], base, image, ino, lo, out)
  {
    forall k: nat | lo <= k < lo + |out| ensures out[k - lo] == StoredAt(es + [e], base, image, ino, k) {
      AtAppend(es, e, ino, k);
      assert out[k - lo] == StoredAt(es, base, image, ino, k);
      if Covers(e, ino, k) {
        LaidPrefix(es + [e], |es|);
        assert (es + [e])[..|es|] == es && (es + [e])[|es|] == e;
        assert At(es, ino, k).Hole? by { UniqueCover(es, e, ino, k); }
      }
    }
  }

  lemma UniqueCover(es: seq<Extent>, e: Extent, ino: nat, k: nat)
    requires Covers(e, ino, k) && forall x :: x in es ==> Apart(x, e)
    ensures At(es, ino, k).Hole?
  {
    assert forall x :: x in es ==> !Covers(x, ino, k);
  }

  /** Where the scan of `read_live_inode_data` stops: the file's entries are all past, or past the range. */
  predicate MayStop(es: seq<Extent>, i: nat, ino: nat, end: nat, sawInode: bool)
    requires i <= |es|
  {
    i == |es| || (if es[i].ino == ino then end <= es[i].start else sawInode)
  }

  lemma NoneLater(es: seq<Extent>, i: nat, ino: nat, end: nat, sawInode: bool)
    requires Laid(es) && Ordered(es) && i <= |es| && MayStop(es, i, ino, end, sawInode)
    requires sawInode ==> exists j :: 0 <= j < i && es[j].ino == ino
    ensures forall j :: i <= j < |es| && es[j].ino == ino ==> end <= es[j].start
  {
    if i < |es| {
      assert es[i] in es && WellFormed(es[i]);
      if es[i].ino != ino {
        var s :| 0 <= s < i && es[s].ino == ino;
        assert forall j :: i < j < |es| ==> es[j].ino != es[s].ino;
      }
    }
  }

  /** Stopping early misses nothing: the early-exit scan gathers what a full scan would. */
  lemma EarlyExit(es: seq<Extent>, i: nat, base: nat, image: seq<byte>, ino: nat, lo: nat, out: seq<byte>,
                  sawInode: bool)
    requires Laid(es) && Ordered(es) && i <= |es| && Gathered(es[..i], base, image, ino, lo, out)
    requires sawInode ==> exists j :: 0 <= j < i && es[j].ino == ino
    requires MayStop(es, i, ino, lo + |out|, sawInode)
    ensures Gathered(es, base, image, ino, lo, out)
  {
    NoneLater(es, i, ino, lo + |out|, sawInode);
    forall k: nat | lo <= k < lo + |out| ensures out[k - lo] == StoredAt(es, base, image, ino, k) {
      PrefixAt(es, i, ino, k);
      assert out[k - lo] == StoredAt(es[..i], base, image, ino, k);
    }
  }

  lemma PrefixAt(es: seq<Extent>, i: nat, ino: nat, k: nat)
    requires Laid(es) && i <= |es| && forall j :: i <= j < |es| ==> !Covers(es[j], ino, k)
    ensures At(es, ino, k) == At(es[..i], ino, k)
  {
    LaidPrefix(es, i);
    if Mapped(es, ino, k) {
      var j := AtFrom(es, ino, k);
      assert es[..i][j] == es[j];
      AtIs(es[..i], es[j], k);
    } else {
      assert forall x :: x in es[..i] ==> x in es;
    }
  }
}
