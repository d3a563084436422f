/** Copying a block request's payload between its bio chain and one flat buffer. */
module Bio {
  import opened Common
  import opened Wire

  datatype BioVec = BioVec(page: nat, len: nat, offset: nat)

  /** A bio: its vectors (none when the pointer is null) and its iterator: bytes left, vector index, bytes
      of that vector already completed. */
  datatype BioReq = BioReq(vecs: Option<seq<BioVec>>, size: nat, idx: nat, done: nat)

  /** One piece of a page that a copy covers. */
  datatype Seg = Seg(page: nat, at: nat, n: nat)

  type Pages = map<nat, seq<byte>>

  // ---------- which pieces a chain covers ----------

  /** The pieces from a vector on, or `None` where the vectors contradict the byte count. */
  function Walk(vecs: seq<BioVec>, idx: nat, done: nat, remaining: nat): Option<seq<Seg>>
    decreases remaining
  {
    if remaining == 0 then Some([])
    else if idx >= |vecs| || vecs[idx].len <= done then None
    else
      var n := Min(vecs[idx].len - done, remaining);
      Before([PieceOf(vecs[idx], done, remaining)], Walk(vecs, idx + 1, 0, remaining - n))
  }

  function Before(a: seq<Seg>, b: Option<seq<Seg>>): Option<seq<Seg>> {
    match b
    case None => None
    case Some(s) => Some(a + s)
  }

  function WalkBio(b: BioReq): Option<seq<Seg>> {
    if b.vecs.None? then if b.size == 0 then Some([]) else None
    else Walk(b.vecs.value, b.idx, b.done, b.size)
  }

  function WalkChain(bios: seq<BioReq>): Option<seq<Seg>> {
    if bios == [] then Some([])
    else
      match WalkBio(bios[0])
      case None => None
      case Some(s) => Before(s, WalkChain(bios[1..]))
  }

  /** What the kernel promises of a bio: its vectors are not exhausted before its bytes are, and every
      vector lies inside its page. */
  predicate InBounds(vecs: seq<BioVec>, idx: nat, done: nat, remaining: nat)
    decreases remaining
  {
    remaining == 0 ||
    (idx < |vecs| &&
     (vecs[idx].len <= done || InBounds(vecs, idx + 1, 0, remaining - Min(vecs[idx].len - done, remaining))))
  }

  predicate OnPages(b: BioReq, mem: Pages) {
    b.vecs.Some? ==>
      && InBounds(b.vecs.value, b.idx, b.done, b.size)
      && forall v :: v in b.vecs.value ==> v.page in mem && v.offset + v.len <= |mem[v.page]|
  }

  // ---------- gather and scatter on values ----------

  function Total(segs: seq<Seg>): nat {
    if segs == [] then 0 else Total(segs[..|segs| - 1]) + segs[|segs| - 1].n
  }

  predicate Fits(s: Seg, mem: Pages) { s.page in mem && s.at + s.n <= |mem[s.page]| }

  predicate AllFit(segs: seq<Seg>, mem: Pages) { forall i :: 0 <= i < |segs| ==> Fits(segs[i], mem) }

  function Gathered(mem: Pages, segs: seq<Seg>): (b: seq<byte>)
    requires AllFit(segs, mem)
    ensures |b| == Total(segs)
  {
    if segs == [] then []
    else
      var s := segs[|segs| - 1];
      Gathered(mem, segs[..|segs| - 1]) + mem[s.page][s.at..s.at + s.n]
  }

  function Put(mem: Pages, s: Seg, d: seq<byte>): Pages
    requires Fits(s, mem) && |d| == s.n
  {
    mem[s.page := mem[s.page][..s.at] + d + mem[s.page][s.at + s.n..]]
  }

  function Scattered(mem: Pages, segs: seq<Seg>, b: seq<byte>): (r: Pages)
    requires AllFit(segs, mem) && |b| == Total(segs)
    ensures r.Keys == mem.Keys && forall p :: p in mem ==> |r[p]| == |mem[p]|
  {
    if segs == [] then mem
    else
      var k := |segs| - 1;
      var before := Scattered(mem, segs[..k], b[..Total(segs[..k])]);
      Put(before, segs[k], b[Total(segs[..k])..])
  }

  predicate Apart(a: Seg, b: Seg) { a.page != b.page || a.at + a.n <= b.at || b.at + b.n <= a.at }

  ghost predicate AllApart(segs: seq<Seg>) {
    forall i, j :: 0 <= i < j < |segs| ==> Apart(segs[i], segs[j])
  }

  /** Putting bytes into one piece does not change what is gathered from pieces apart from it. */
  lemma {:induction false} GatherAround(mem: Pages, segs: seq<Seg>, s: Seg, d: seq<byte>)
    requires AllFit(segs, mem) && Fits(s, mem) && |d| == s.n && forall a :: a in segs ==> Apart(a, s)
    ensures AllFit(segs, Put(mem, s, d)) && Gathered(Put(mem, s, d), segs) == Gathered(mem, segs)
  {
    var mem' := Put(mem, s, d);
    assert forall p :: p in mem ==> p in mem' && |mem'[p]| == |mem[p]|;
    assert AllFit(segs, mem');
    if segs != [] {
      var a := segs[|segs| - 1];
      GatherAround(mem, segs[..|segs| - 1], s, d);
      assert a in segs && Apart(a, s);
      assert mem'[a.page][a.at..a.at + a.n] == mem[a.page][a.at..a.at + a.n];
    }
  }

  /** With pieces that do not overlap, gathering after a scatter gives back the buffer. */
  lemma {:induction false} ScatterThenGather(mem: Pages, segs: seq<Seg>, b: seq<byte>)
    requires AllFit(segs, mem) && |b| == Total(segs) && AllApart(segs)
    ensures AllFit(segs, Scattered(mem, segs, b)) && Gathered(Scattered(mem, segs, b), segs) == b
  {
    if segs != [] {
      var k := |segs| - 1;
      var n := Total(segs[..k]);
      var before := Scattered(mem, segs[..k], b[..n]);
      ScatterThenGather(mem, segs[..k], b[..n]);
      assert forall a :: a in segs[..k] ==> Apart(a, segs[k]);
      GatherAround(before, segs[..k], segs[k], b[n..]);
      assert b == b[..n] + b[n..];
    }
  }

  lemma TotalAppend(segs: seq<Seg>, s: Seg)
    ensures Total(segs + [s]) == Total(segs) + s.n
  {
    assert (segs + [s])[..|segs|] == segs;
  }

  // ---------- the copy loops ----------

  /** The pieces still to come: the rest of the current bio, then the bios after it. */
  function Ahead(vecs: seq<BioVec>, idx: nat, done: nat, remaining: nat, later: seq<BioReq>): Option<seq<Seg>> {
    match Walk(vecs, idx, done, remaining)
    case None => None
    case Some(s) => Before(s, WalkChain(later))
  }

  /** What the next turn copies, when the vector has anything left. */
  function PieceOf(v: BioVec, done: nat, remaining: nat): Seg {
    Seg(v.page, v.offset + done, Min(Monus(v.len, done), remaining))
  }

  lemma AheadStep(segs: seq<Seg>, vecs: seq<BioVec>, idx: nat, done: nat, remaining: nat, later: seq<BioReq>)
    requires remaining > 0 && InBounds(vecs, idx, done, remaining)
    ensures idx < |vecs|
    ensures var s := PieceOf(vecs[idx], done, remaining);
              var whole := Before(segs, Ahead(vecs, idx, done, remaining, later));
            if vecs[idx].len <= done then whole == None
            else
              && whole == Before(segs + [s], Ahead(vecs, idx + 1, 0, remaining - s.n, later))
              && InBounds(vecs, idx + 1, 0, remaining - s.n)
              && (whole.Some? ==> Total(whole.value) >= Total(segs) + s.n)
  {
    var s := PieceOf(vecs[idx], done, remaining);
    if vecs[idx].len > done {
      var w := Walk(vecs, idx + 1, 0, remaining - s.n);
      if w.Some? && WalkChain(later).Some? {
        Assoc([s], w.value, WalkChain(later).value);
        Assoc(segs, [s], w.value + WalkChain(later).value);
      }
      TotalAppend(segs, s);
      TooLong(segs + [s], Ahead(vecs, idx + 1, 0, remaining - s.n, later));
    }
  }

  class PageMemory {
    var mem: Pages

    constructor (mem: Pages)
      ensures this.mem == mem
    {
      this.mem := mem;
    }

    /** One piece moves, in the direction asked for. */
    method CopyPiece(s: Seg, buf: array<byte>, copied: nat, toBuffer: bool, ghost segs: seq<Seg>, ghost was: Pages,
                     ghost old': seq<byte>)
      requires AllFit(segs, was) && Fits(s, was) && copied == Total(segs) && copied + s.n <= buf.Length == |old'|
      requires Progress(toBuffer, was, old', segs, mem, buf[..])
      modifies this, buf
      ensures AllFit(segs + [s], was) && Total(segs + [s]) == copied + s.n
      ensures Progress(toBuffer, was, old', segs + [s], mem, buf[..])
    {
      TotalAppend(segs, s);
      if toBuffer {
        GatherOn(was, segs, s, old');
        GatherPiece(s, buf, copied);
      } else {
        ScatterOn(was, segs, s, buf[..]);
        ScatterPiece(s, buf, copied);
      }
    }

    method GatherPiece(s: Seg, buf: array<byte>, copied: nat)
      requires Fits(s, mem) && copied + s.n <= buf.Length
      modifies buf
      ensures buf[..] == old(buf[..copied]) + mem[s.page][s.at..s.at + s.n] + old(buf[copied + s.n..])
    {
      var src := mem[s.page];
      for i := 0 to s.n
        invariant buf[..copied] == old(buf[..copied]) && buf[copied + s.n..] == old(buf[copied + s.n..])
        invariant buf[copied..copied + i] == src[s.at..s.at + i]
      {
        buf[copied + i] := src[s.at + i];
      }
      assert buf[..] == buf[..copied] + buf[copied..copied + s.n] + buf[copied + s.n..];
    }

    method ScatterPiece(s: Seg, buf: array<byte>, copied: nat)
      requires Fits(s, mem) && copied + s.n <= buf.Length
      modifies this
      ensures mem == Put(old(mem), s, buf[copied..copied + s.n])
    {
      mem := mem[s.page := mem[s.page][..s.at] + buf[copied..copied + s.n] + mem[s.page][s.at + s.n..]];
    }

    /** Succeeds exactly when the chain's pieces fill the buffer. To the buffer: the buffer then holds the
        pieces in order. From it: the pieces then hold the buffer. */
    method CopyRequestPayload(bios: seq<BioReq>, buf: array<byte>, toBuffer: bool) returns (r: Result<()>)
      requires forall b :: b in bios ==> OnPages(b, mem)
      modifies this, buf
      ensures r == if WalkChain(bios).Some? && Total(WalkChain(bios).value) == buf.Length then Ok(()) else Err(EIO)
      ensures r.Ok? ==> AllFit(WalkChain(bios).value, old(mem))
      ensures r.Ok? && toBuffer ==> mem == old(mem) && buf[..] == Gathered(old(mem), WalkChain(bios).value)
      ensures r.Ok? && !toBuffer ==>
                buf[..] == old(buf[..]) && mem == Scattered(old(mem), WalkChain(bios).value, buf[..])
    {
      var copied := 0;
      ghost var segs: seq<Seg> := [];
      ghost var was, whole := mem, WalkChain(bios);
      ghost var old' := buf[..];
      assert bios[0..] == bios;
      if whole.Some? { Nothing(whole.value); }
      for k := 0 to |bios|
        invariant AllFit(segs, was) && copied == Total(segs) <= buf.Length
        invariant Progress(toBuffer, was, old', segs, mem, buf[..])
        invariant whole == Before(segs, WalkChain(bios[k..]))
      {
        assert bios[k] in bios && bios[k..][1..] == bios[k + 1..];
        ghost var rest := WalkChain(bios[k + 1..]);
        if bios[k].vecs.None? {
          if bios[k].size != 0 { return Err(EIO); }
          if rest.Some? { Nothing(rest.value); }
        } else {
          var ok;
          ok, copied, segs := CopyBio(bios[k].vecs.value, bios[k], buf, toBuffer, copied, segs, was, old',
            bios[k + 1..], whole);
          if !ok { return Err(EIO); }
        }
      }
      assert bios[|bios|..] == [];
      Nothing(segs);
      r := if copied == buf.Length then Ok(()) else Err(EIO);
      if r.Ok? {
        assert buf[..copied] == buf[..] && old'[copied..] == [];
        Nothing(Gathered(was, segs));
      }
    }

    /** One turn of the inner loop: the next piece of the current vector, unless it is used up or does not fit. */
    method CopyNext(v: BioVec, done: nat, remaining: nat, buf: array<byte>, toBuffer: bool, copied: nat,
                    ghost segs: seq<Seg>, ghost was: Pages, ghost old': seq<byte>)
      returns (ok: bool, n: nat)
      requires remaining > 0 && |old'| == buf.Length && v.page in was && v.offset + v.len <= |was[v.page]|
      requires AllFit(segs, was) && copied == Total(segs) <= buf.Length
                 && Progress(toBuffer, was, old', segs, mem, buf[..])
      modifies this, buf
      ensures ok ==> n == PieceOf(v, done, remaining).n && v.len > done
      ensures ok ==> var all := segs + [PieceOf(v, done, remaining)];
                     AllFit(all, was) && Total(all) == copied + n <= buf.Length
                       && Progress(toBuffer, was, old', all, mem, buf[..])
      ensures !ok ==> v.len <= done || copied + PieceOf(v, done, remaining).n > buf.Length
    {
      if v.len <= done { return false, 0; }
      n := Min(v.len - done, remaining);
      if copied + n > buf.Length { return false, n; }
      CopyPiece(PieceOf(v, done, remaining), buf, copied, toBuffer, segs, was, old');
      ok := true;
    }

    /** The inner loop: one bio, with `later` still to come and `whole` the pieces of the entire chain. */
    method CopyBio(vecs: seq<BioVec>, bio: BioReq, buf: array<byte>, toBuffer: bool, copied: nat, ghost segs: seq<Seg>,
                   ghost was: Pages, ghost old': seq<byte>, ghost later: seq<BioReq>, ghost whole: Option<seq<Seg>>)
      returns (ok: bool, copied': nat, ghost segs': seq<Seg>)
      requires bio.vecs == Some(vecs) && OnPages(bio, was) && |old'| == buf.Length
      requires AllFit(segs, was) && copied == Total(segs) <= buf.Length
      requires Progress(toBuffer, was, old', segs, mem, buf[..])
      requires whole == Before(segs, Ahead(vecs, bio.idx, bio.done, bio.size, later))
      modifies this, buf
      ensures ok ==> AllFit(segs', was) && copied' == Total(segs') <= buf.Length
      ensures ok ==> Progress(toBuffer, was, old', segs', mem, buf[..])
      ensures ok ==> whole == Before(segs', WalkChain(later))
      ensures !ok ==> whole.None? || Total(whole.value) > buf.Length
    {
      var remaining: nat, index: nat, done: nat := bio.size, bio.idx, bio.done;
      copied', segs' := copied, segs;
      while remaining != 0
        invariant AllFit(segs', was) && copied' == Total(segs') <= buf.Length
        invariant Progress(toBuffer, was, old', segs', mem, buf[..])
        invariant whole == Before(segs', Ahead(vecs, index, done, remaining, later))
        invariant InBounds(vecs, index, done, remaining)
        decreases remaining
      {
        var n;
        AheadStep(segs', vecs, index, done, remaining, later);
        assert vecs[index] in vecs;
        ok, n := CopyNext(vecs[index], done, remaining, buf, toBuffer, copied', segs', was, old');
        if !ok { return; }
        segs' := segs' + [PieceOf(vecs[index], done, remaining)];
        copied', remaining, index, done := copied' + n, remaining - n, index + 1, 0;
      }
      ok := true;
      if WalkChain(later).Some? { Nothing(WalkChain(later).value); }
    }
  }

  /** How far a copy has come after the pieces `segs`. */
  ghost predicate Progress(toBuffer: bool, was: Pages, old': seq<byte>, segs: seq<Seg>, mem: Pages, buf: seq<byte>)
    requires AllFit(segs, was)
  {
    && Total(segs) <= |buf| == |old'|
    && if toBuffer then mem == was && buf == Gathered(was, segs) + old'[Total(segs)..]
       else buf == old' && mem == Scattered(was, segs, buf[..Total(segs)])
  }

  lemma GatherOn(was: Pages, segs: seq<Seg>, s: Seg, old': seq<byte>)
    requires AllFit(segs, was) && Fits(s, was) && Total(segs) + s.n <= |old'|
    ensures AllFit(segs + [s], was) && Total(segs + [s]) == Total(segs) + s.n
    ensures var b := Gathered(was, segs) + old'[Total(segs)..];
            b[..Total(segs)] + was[s.page][s.at..s.at + s.n] + b[Total(segs) + s.n..]
            == Gathered(was, segs + [s]) + old'[Total(segs) + s.n..]
  {
    TotalAppend(segs, s);
    assert (segs + [s])[..|segs|] == segs;
    var g := Gathered(was, segs);
    var b := g + old'[Total(segs)..];
    assert b[..Total(segs)] == g && b[Total(segs) + s.n..] == old'[Total(segs) + s.n..];
  }

  lemma ScatterOn(was: Pages, segs: seq<Seg>, s: Seg, buf: seq<byte>)
    requires AllFit(segs, was) && Fits(s, was) && Total(segs) + s.n <= |buf|
    ensures AllFit(segs + [s], was) && Total(segs + [s]) == Total(segs) + s.n
    ensures Fits(s, Scattered(was, segs, buf[..Total(segs)]))
    ensures Scattered(was, segs + [s], buf[..Total(segs) + s.n])
         == Put(Scattered(was, segs, buf[..Total(segs)]), s, buf[Total(segs)..Total(segs) + s.n])
  {
    TotalAppend(segs, s);
    assert (segs + [s])[..|segs|] == segs;
    var n := Total(segs);
    assert buf[..n + s.n][..n] == buf[..n] && buf[..n + s.n][n..] == buf[n..n + s.n];
  }

  lemma {:induction false} TotalConcat(a: seq<Seg>, b: seq<Seg>)
    ensures Total(a + b) == Total(a) + Total(b)
  {
    if b == [] {
      Nothing(a);
    } else {
      var n := |b| - 1;
      TotalConcat(a, b[..n]);
      assert (a + b)[..|a + b| - 1] == a + b[..n];
    }
  }

  lemma TooLong(segs: seq<Seg>, more: Option<seq<Seg>>)
    ensures Before(segs, more).Some? ==> Total(Before(segs, more).value) >= Total(segs)
  {
    if more.Some? {
      TotalConcat(segs, more.value);
    }
  }
}
