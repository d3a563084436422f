/** Directory iteration by stable cookies: the one-entry call, the batched call, and whole scans during
    which the directory keeps changing. */
module Readdir {
  import opened Common
  import opened Links
  import opened Dirents

  const BATCH: nat := 128

  predicate Beyond(e: Dirent, dir: nat, c: nat) { e.parent == dir && e.cookie > c }

  /** No two entries of the table carry the same cookie. */
  ghost predicate OneCookieEach(es: seq<Dirent>) {
    forall i, j :: 0 <= i < j < |es| ==> es[i].cookie != es[j].cookie
  }

  /** The cookies of a list rise strictly from above `c` to at most `d`. */
  ghost predicate Rising(out: seq<Dirent>, c: nat, d: nat) {
    && (forall i :: 0 <= i < |out| ==> c < out[i].cookie <= d)
    && (forall i, j :: 0 <= i < j < |out| ==> out[i].cookie < out[j].cookie)
  }

  /** `out` is exactly what the directory holds between the cookies `c` and `d`, in cookie order. */
  ghost predicate Exactly(es: seq<Dirent>, dir: nat, c: nat, out: seq<Dirent>, d: nat) {
    && c <= d && Rising(out, c, d)
    && (forall e :: e in out <==> e in es && Beyond(e, dir, c) && e.cookie <= d)
  }

  /** The entry with the smallest cookie past `cookie`. */
  method NextEntry(es: seq<Dirent>, dir: nat, cookie: nat) returns (r: Option<Dirent>)
    ensures r.None? <==> forall e :: e in es ==> !Beyond(e, dir, cookie)
    ensures r.Some? ==> r.value in es && Beyond(r.value, dir, cookie)
    ensures r.Some? ==> forall e :: e in es && Beyond(e, dir, cookie) ==> r.value.cookie <= e.cookie
    ensures r.Some? ==>
              exists i ::
              0 <= i < |es| && es[i] == r.value
              && forall j :: 0 <= j < i && Beyond(es[j], dir, cookie) ==> es[j].cookie != r.value.cookie
  {
    var bestIndex: Option<nat> := None;
    var bestCookie := 0;
    for i := 0 to |es|
      invariant bestIndex.None? ==> forall j :: 0 <= j < i ==> !Beyond(es[j], dir, cookie)
      invariant bestIndex.Some? ==> bestIndex.value < i && es[bestIndex.value].cookie == bestCookie
      invariant bestIndex.Some? ==> Beyond(es[bestIndex.value], dir, cookie)
      invariant bestIndex.Some? ==> forall j :: 0 <= j < i && Beyond(es[j], dir, cookie) ==> bestCookie <= es[j].cookie
      invariant bestIndex.Some? ==>
                  forall j :: 0 <= j < bestIndex.value && Beyond(es[j], dir, cookie) ==> bestCookie < es[j].cookie
    {
      if es[i].parent != dir { continue; }
      if es[i].cookie <= cookie { continue; }
      if bestIndex.None? || es[i].cookie < bestCookie {
        bestIndex := Some(i);
        bestCookie := es[i].cookie;
      }
    }
    r := if bestIndex.Some? then Some(es[bestIndex.value]) else None;
  }

  lemma SameCookieSameEntry(es: seq<Dirent>, e: Dirent, f: Dirent)
    requires OneCookieEach(es) && e in es && f in es && e.cookie == f.cookie
    ensures e == f
  {
    var i :| 0 <= i < |es| && es[i] == e;
    var j :| 0 <= j < |es| && es[j] == f;
  }

  lemma ExactlyNext(es: seq<Dirent>, dir: nat, c: nat, out: seq<Dirent>, d: nat, next: Dirent)
    requires OneCookieEach(es) && Exactly(es, dir, c, out, d)
    requires next in es && Beyond(next, dir, d) && forall e :: e in es && Beyond(e, dir, d) ==> next.cookie <= e.cookie
    ensures Exactly(es, dir, c, out + [next], next.cookie)
  {
    forall e | e in es && Beyond(e, dir, c) && e.cookie <= next.cookie ensures e in out + [next] {
      if e.cookie > d {
        SameCookieSameEntry(es, e, next);
      }
    }
  }

  /** The batched call. `d` is the cookie to continue from, and `more` says whether anything is left. */
  method ReaddirBatch(es: seq<Dirent>, dir: nat, offset: nat, ghost bound: nat)
    returns (out: seq<Dirent>, more: bool, d: nat)
    requires OneCookieEach(es) && forall e :: e in es ==> e.cookie <= bound
    ensures Exactly(es, dir, offset, out, d) && |out| <= BATCH
    ensures more <==> exists e :: e in es && Beyond(e, dir, d)
    ensures d == if out == [] then offset else out[|out| - 1].cookie
    ensures more ==> |out| == BATCH
  {
    out := [];
    d := offset;
    while true
      invariant Exactly(es, dir, offset, out, d) && |out| < BATCH
      invariant d == if out == [] then offset else out[|out| - 1].cookie
      decreases bound - d
    {
      var next := NextEntry(es, dir, d);
      if next.None? { return out, false, d; }
      ExactlyNext(es, dir, offset, out, d, next.value);
      out := out + [next.value];
      d := next.value.cookie;
      if |out| >= BATCH {
        var rest := NextEntry(es, dir, d);
        return out, rest.Some?, d;
      }
    }
  }

  /** What the one-entry call returns when started from `c`. */
  ghost predicate IsNext(es: seq<Dirent>, dir: nat, c: nat, e: Dirent) {
    e in es && Beyond(e, dir, c) && forall f :: f in es && Beyond(f, dir, c) ==> e.cookie <= f.cookie
  }

  lemma BatchOrder(out: seq<Dirent>, c: nat, d: nat, i: nat, j: nat)
    requires Rising(out, c, d) && i < |out| && j < |out|
    ensures j < i ==> out[j].cookie <= out[i - 1].cookie
    ensures i <= j ==> out[i].cookie <= out[j].cookie
  {
  }

  /** A batch is what as many one-entry calls return, each started from the cookie before. */
  lemma BatchIsOneByOne(es: seq<Dirent>, dir: nat, c: nat, out: seq<Dirent>, d: nat, i: nat)
    requires Exactly(es, dir, c, out, d) && i < |out|
    ensures IsNext(es, dir, if i == 0 then c else out[i - 1].cookie, out[i])
  {
    var from := if i == 0 then c else out[i - 1].cookie;
    assert out[i] in out;
    forall f | f in es && Beyond(f, dir, from) ensures out[i].cookie <= f.cookie {
      if f.cookie <= d {
        assert f in out;
        var j :| 0 <= j < |out| && out[j] == f;
        BatchOrder(out, c, d, i, j);
      }
    }
  }

  // ---------- a scan while the directory changes ----------

  /** A scan made of calls `k = 0, 1, ...`: call `k` sees table `tables[k]`, starts from cookie `cs[k]`,
      returns `outs[k]` and hands back `cs[k + 1]`. */
  ghost predicate IsScan(tables: seq<seq<Dirent>>, dir: nat, cs: seq<nat>, outs: seq<seq<Dirent>>) {
    && |outs| == |tables| && |cs| == |tables| + 1
    && forall k :: 0 <= k < |tables| ==>
         OneCookieEach(tables[k]) && Exactly(tables[k], dir, cs[k], outs[k], cs[k + 1])
  }

  /** The last call left nothing behind. */
  ghost predicate Finished(tables: seq<seq<Dirent>>, dir: nat, cs: seq<nat>) {
    && |cs| == |tables| + 1 && tables != []
    && forall e :: e in tables[|tables| - 1] ==> !Beyond(e, dir, cs[|tables|])
  }

  ghost predicate Throughout(tables: seq<seq<Dirent>>, e: Dirent) {
    forall k :: 0 <= k < |tables| ==> e in tables[k]
  }

  lemma {:induction false} CookiesRise(tables: seq<seq<Dirent>>, dir: nat, cs: seq<nat>, outs: seq<seq<Dirent>>,
                                       j: nat, k: nat)
    requires IsScan(tables, dir, cs, outs) && j <= k <= |tables|
    ensures cs[j] <= cs[k]
    decreases k
  {
    if j < k {
      CookiesRise(tables, dir, cs, outs, j, k - 1);
      assert Exactly(tables[k - 1], dir, cs[k - 1], outs[k - 1], cs[k]);
    }
  }

  /** No cookie is reported twice in a scan, whatever happens to the directory meanwhile. */
  lemma ReportedOnce(tables: seq<seq<Dirent>>, dir: nat, cs: seq<nat>, outs: seq<seq<Dirent>>,
                     k: nat, i: nat, k': nat, i': nat)
    requires IsScan(tables, dir, cs, outs)
    requires k < |outs| && i < |outs[k]| && k' < |outs| && i' < |outs[k']| && outs[k][i].cookie == outs[k'][i'].cookie
    ensures k == k' && i == i'
  {
    assert Exactly(tables[k], dir, cs[k], outs[k], cs[k + 1]);
    assert Exactly(tables[k'], dir, cs[k'], outs[k'], cs[k' + 1]);
    if k < k' {
      CookiesRise(tables, dir, cs, outs, k + 1, k');
    } else if k' < k {
      CookiesRise(tables, dir, cs, outs, k' + 1, k);
    }
  }

  /** The call that a cookie falls to. */
  lemma {:induction false} CallFor(tables: seq<seq<Dirent>>, dir: nat, cs: seq<nat>, outs: seq<seq<Dirent>>, c: nat,
                                   n: nat)
    returns (k: nat)
    requires IsScan(tables, dir, cs, outs) && n <= |tables| && cs[0] < c <= cs[n]
    ensures k < n && cs[k] < c <= cs[k + 1]
    decreases n
  {
    if cs[n - 1] < c {
      k := n - 1;
    } else {
      k := CallFor(tables, dir, cs, outs, c, n - 1);
    }
  }

  /** An entry that is there during a whole finished scan is reported, exactly once; an entry that is
      reported was there at the time. */
  lemma ScanReports(tables: seq<seq<Dirent>>, dir: nat, cs: seq<nat>, outs: seq<seq<Dirent>>, e: Dirent)
    returns (k: nat)
    requires IsScan(tables, dir, cs, outs) && Finished(tables, dir, cs)
    requires Throughout(tables, e) && Beyond(e, dir, cs[0])
    ensures k < |outs| && e in outs[k]
    ensures forall j :: 0 <= j < |outs| && e in outs[j] ==> j == k
    ensures forall f :: f in outs[k] ==> f in tables[k] && f.parent == dir
  {
    var n := |tables|;
    assert e in tables[n - 1] && !Beyond(e, dir, cs[n]);
    k := CallFor(tables, dir, cs, outs, e.cookie, n);
    assert Exactly(tables[k], dir, cs[k], outs[k], cs[k + 1]);
    assert e in tables[k];
    forall j | 0 <= j < |outs| && e in outs[j] ensures j == k {
      var a :| 0 <= a < |outs[k]| && outs[k][a] == e;
      var b :| 0 <= b < |outs[j]| && outs[j][b] == e;
      ReportedOnce(tables, dir, cs, outs, k, a, j, b);
    }
  }

  /** A scan by one-entry calls over any succession of tables, from the start of the directory. */
  method ScanByEntry(tables: seq<seq<Dirent>>, dir: nat) returns (outs: seq<seq<Dirent>>, cs: seq<nat>, done: bool)
    requires forall k :: 0 <= k < |tables| ==> OneCookieEach(tables[k])
    ensures |outs| <= |tables| && IsScan(tables[..|outs|], dir, cs, outs) && cs[0] == 0
    ensures done ==> Finished(tables[..|outs|], dir, cs)
    ensures !done ==> |outs| == |tables|
  {
    outs, cs, done := [], [0], false;
    for k := 0 to |tables|
      invariant |outs| == k && IsScan(tables[..k], dir, cs, outs) && cs[0] == 0
    {
      var next := NextEntry(tables[k], dir, cs[k]);
      assert Exactly(tables[k], dir, cs[k], [], cs[k]);
      var d := cs[k];
      var out: seq<Dirent> := [];
      if next.Some? {
        ExactlyNext(tables[k], dir, cs[k], [], cs[k], next.value);
        out, d := [next.value], next.value.cookie;
        assert [] + [next.value] == out;
      }
      ScanOn(tables, dir, cs, outs, k, out, d);
      outs, cs := outs + [out], cs + [d];
      if next.None? {
        done := true;
        return;
      }
    }
    assert tables[..|tables|] == tables;
  }

  lemma ScanOn(tables: seq<seq<Dirent>>, dir: nat, cs: seq<nat>, outs: seq<seq<Dirent>>, k: nat, out: seq<Dirent>,
               d: nat)
    requires k < |tables| && IsScan(tables[..k], dir, cs, outs) && OneCookieEach(tables[k])
    requires Exactly(tables[k], dir, cs[k], out, d)
    ensures IsScan(tables[..k + 1], dir, cs + [d], outs + [out])
  {
    var tables', cs', outs' := tables[..k + 1], cs + [d], outs + [out];
    forall j | 0 <= j < |tables'|
      ensures OneCookieEach(tables'[j]) && Exactly(tables'[j], dir, cs'[j], outs'[j], cs'[j + 1]) {
      if j < k {
        assert tables'[j] == tables[..k][j];
      }
    }
  }

  /** A scan by batches over any succession of tables. */
  method ScanByBatch(tables: seq<seq<Dirent>>, dir: nat, ghost bound: nat)
    returns (outs: seq<seq<Dirent>>, cs: seq<nat>, done: bool)
    requires forall k :: 0 <= k < |tables| ==> OneCookieEach(tables[k])
    requires forall k, e :: 0 <= k < |tables| && e in tables[k] ==> e.cookie <= bound
    ensures |outs| <= |tables| && IsScan(tables[..|outs|], dir, cs, outs) && cs[0] == 0
    ensures done ==> Finished(tables[..|outs|], dir, cs)
    ensures !done ==> |outs| == |tables|
  {
    outs, cs, done := [], [0], false;
    for k := 0 to |tables|
      invariant |outs| == k && IsScan(tables[..k], dir, cs, outs) && cs[0] == 0
    {
      var out, more, d := ReaddirBatch(tables[k], dir, cs[k], bound);
      ScanOn(tables, dir, cs, outs, k, out, d);
      outs, cs := outs + [out], cs + [d];
      if !more {
        done := true;
        return;
      }
    }
    assert tables[..|tables|] == tables;
  }

  /** The engine's own tables meet what the scans need, as long as cookies have not run out. */
  lemma CookiesAreDistinct(es: seq<Dirent>, next: nat)
    requires CookiesGrow(es, next)
    ensures OneCookieEach(es) && forall e :: e in es ==> 0 < e.cookie <= next
  {
    forall i, j | 0 <= i < j < |es| ensures es[i].cookie != es[j].cookie {
      assert es[i].cookie < es[j].cookie;
    }
  }
}
