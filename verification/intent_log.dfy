/** The intent log: records are buffered in memory and appended to a byte log on storage, one sector at
    a time, by a commit barrier; recovery reads the log back and splits it. */
module IntentLog {
  import opened Common
  import opened Wire
  import opened Pool
  import opened IntentRecords

  const LOG_OFFSET: nat := 4096
  const LOG_BYTES: nat := 16 * 1024 * 1024 - LOG_OFFSET
  const MAX_PENDING: nat := 256
  const MAX_PENDING_BYTES: nat := 256 * 1024
  const MAX_ENTRY: nat := 4096

  // ---------- the sector being filled ----------

  /** `text` is on its way to storage from the sector boundary `s` on: its first `i` bytes are there, and
      the other `cursor` bytes are at the head of the sector buffer. */
  ghost predicate Staged(was: seq<byte>, image: seq<byte>, s: nat, text: seq<byte>, i: nat, cursor: nat, buf: seq<byte>)
  {
    && cursor <= |buf| && i + cursor == |text|
    && Written(was, image, s, text[..i]) && buf[..cursor] == text[i..]
  }

  /** The sector goes out, whatever lies in it behind the text. */
  lemma StagedOut(was: seq<byte>, image: seq<byte>, s: nat, text: seq<byte>, i: nat, cursor: nat, buf: seq<byte>,
                  image': seq<byte>)
    requires Staged(was, image, s, text, i, cursor, buf) && buf != []
    ensures Written(image, image', s + i, buf) ==> Written(was, image', s, text + buf[cursor..])
    ensures Torn(image, image', s + i, buf) ==> Torn(was, image', s, text + buf[cursor..])
  {
    var d := text + buf[cursor..];
    assert d[..i] == text[..i] && d[i..] == buf && d[i..][..|d| - i] == buf && d[..|d|] == d;
    if Written(image, image', s + i, buf) {
      WrittenExtend(was, image, image', s, d, i, |d|);
    }
    if Torn(image, image', s + i, buf) {
      TornExtend(was, image, image', s, d, i);
    }
  }

  lemma StagedPut(was: seq<byte>, image: seq<byte>, s: nat, text: seq<byte>, i: nat, cursor: nat, buf: seq<byte>,
                  d: seq<byte>)
    requires Staged(was, image, s, text, i, cursor, buf) && cursor + |d| <= |buf|
    ensures Staged(was, image, s, text + d, i, cursor + |d|, buf[..cursor] + d + buf[cursor + |d|..])
  {
    var buf' := buf[..cursor] + d + buf[cursor + |d|..];
    assert (text + d)[..i] == text[..i];
    assert buf'[..cursor + |d|] == buf[..cursor] + d == (text + d)[i..];
  }

  /** A write, finished or not, whose text begins with what is already there leaves that part alone. */
  lemma PrefixStays(was: seq<byte>, image: seq<byte>, s: nat, text: seq<byte>, start: nat)
    requires s <= start <= |was| && start - s <= |text| && text[..start - s] == was[s..start]
    requires Torn(was, image, s, text)
    ensures |image| == |was| && image[..start] == was[..start] && SameFrom(was, image, s + |text|)
  {
    assert forall x :: s <= x < start ==> text[x - s] == text[..start - s][x - s] == was[x];
  }

  lemma WrittenThere(was: seq<byte>, image: seq<byte>, s: nat, pre: seq<byte>, p: seq<byte>, junk: seq<byte>)
    requires Written(was, image, s, pre + p + junk) && p != []
    ensures s + |pre| + |p| <= |image| && image[s + |pre|..s + |pre| + |p|] == p
    ensures Torn(was, image, s, pre + p + junk)
  {
  }

  /** The last sector, which may hold anything behind the text, goes out. */
  lemma LastOut(was: seq<byte>, before: seq<byte>, image: seq<byte>, s: nat, pre: seq<byte>, p: seq<byte>, i: nat,
                start: nat, cursor: nat, buf: seq<byte>)
    requires Staged(was, before, s, pre + p, i, cursor, buf) && buf != [] && p != []
    requires s <= start <= |was| && pre == was[s..start]
    ensures |before| == |was|
    ensures Torn(before, image, s + i, buf) ==>
              |image| == |was| && image[..start] == was[..start] && SameFrom(was, image, start + |p| + |buf|)
    ensures Written(before, image, s + i, buf) ==> start + |p| <= |image| && image[start..start + |p|] == p
  {
    var text := pre + p + buf[cursor..];
    StagedOut(was, before, s, pre + p, i, cursor, buf, image);
    assert text[..start - s] == pre;
    if Torn(before, image, s + i, buf) {
      PrefixStays(was, image, s, text, start);
    }
    if Written(before, image, s + i, buf) {
      WrittenThere(was, image, s, pre, p, buf[cursor..]);
    }
  }

  lemma OneMore(pending: seq<seq<byte>>, entry: seq<byte>)
    ensures |Concat(pending + [entry])| == |Concat(pending)| + |entry|
    ensures [] !in pending && Concat(pending) == [] ==> pending == []
  {
    ConcatAppend(pending, [entry]);
    if pending != [] {
      assert pending[0] in pending && |Concat(pending)| >= |pending[0]|;
    }
  }

  /** The buffer takes one more entry without a flush. */
  predicate Roomy(pending: seq<seq<byte>>, entry: seq<byte>) {
    |pending| < MAX_PENDING && |Concat(pending)| + |entry| <= MAX_PENDING_BYTES
  }

  /** The answer a record gets from a log of `tail` bytes with `pending` records in the buffer, as long as the device
      does not fail. A full log is never emptied by the engine, so from then on every full buffer means ENOSPC. */
  function RecordVerdict(tail: nat, pending: seq<seq<byte>>, entry: seq<byte>): Result<()> {
    if |entry| > MAX_ENTRY then Err(E2BIG)
    else if !Roomy(pending, entry) && Concat(pending) != [] && tail + |Concat(pending)| > LOG_BYTES then Err(ENOSPC)
    else Ok(())
  }

  /** What a record may be answered: the verdict, or the error of a device that is not `steady` when it had to be
      used. */
  predicate RecordTruth(tail: nat, pending: seq<seq<byte>>, steady: bool, entry: seq<byte>, r: Result<()>) {
    || r == RecordVerdict(tail, pending, entry)
    || (!steady && RecordVerdict(tail, pending, entry).Ok? && !Roomy(pending, entry)
         && (r == Err(EIO) || r == Err(EINVAL)))
  }

  class IntentLog {
    const pool: BlockPool
    const base: nat
    const active: bool
    var tail: nat
    var pending: seq<seq<byte>>

    /** The records that have reached the log. */
    ghost var flushed: seq<seq<byte>>

    ghost predicate Valid()
      reads this, pool
    {
      && pool.Valid() && base <= |pool.image| && tail == |Concat(flushed)| <= LOG_BYTES
      && (active && tail > 0 ==> base + tail <= |pool.image| && pool.image[base..base + tail] == Concat(flushed))
    }

    /** A healthy device with room for the whole log. */
    ghost predicate Holding()
      reads pool
    {
      pool.Healthy(|pool.image|) && base + LOG_BYTES <= |pool.image|
    }

    /** The buffer takes one more entry without a flush. */
    ghost predicate HasRoom(entry: seq<byte>)
      reads this`pending
    {
      Roomy(pending, entry)
    }

    /** The buffer is inside its limits; no encoder makes an empty entry. */
    ghost predicate Bounded()
      reads this`pending
    {
      |pending| <= MAX_PENDING && |Concat(pending)| <= MAX_PENDING_BYTES && [] !in pending
    }

    constructor (pool: BlockPool, base: nat, active: bool)
      requires pool.Valid() && base <= |pool.image|
      ensures Valid() && this.pool == pool && this.base == base && this.active == active
      ensures flushed == [] && pending == [] && Bounded()
    {
      this.pool, this.base, this.active := pool, base, active;
      tail, pending, flushed := 0, [], [];
    }

    /** A full sector goes out before more is put into the buffer. */
    method MakeRoom(ghost was: seq<byte>, ghost s: nat, ghost text: seq<byte>, ghost i: nat,
                    sector: nat, cursor: nat, buf: seq<byte>)
      returns (ok: bool, sector': nat, cursor': nat, buf': seq<byte>, ghost i': nat)
      requires pool.Valid() && pool.sectorSize == |buf| > 0 && s + i == sector * pool.sectorSize
      requires Staged(was, pool.image, s, text, i, cursor, buf)
      modifies pool
      ensures ok ==> s + i' == sector' * pool.sectorSize && |buf'| == |buf| && cursor' < |buf'|
      ensures ok ==> Staged(was, pool.image, s, text, i', cursor', buf')
      ensures !ok ==> Torn(was, pool.image, s, text)
      ensures |pool.image| == |old(pool.image)| && (pool.Healthy(|pool.image|) && s + |text| <= |pool.image| ==> ok)
    {
      sector', cursor', buf', i' := sector, cursor, buf, i;
      ok := true;
      if cursor == pool.sectorSize {
        ghost var before := pool.image;
        ok := pool.WriteWhole(sector, sector * pool.sectorSize, buf);
        StagedOut(was, before, s, text, i, cursor, buf, pool.image);
        assert text + buf[cursor..] == text;
        assert (sector + 1) * pool.sectorSize == sector * pool.sectorSize + pool.sectorSize;
        sector', cursor', buf', i' := sector + 1, 0, Zeros(pool.sectorSize), |text|;
        assert text[..|text|] == text;
      }
    }

    /** One turn of the copy loop: as much of `d` as fits goes into the sector buffer. */
    method PutSome(ghost was: seq<byte>, ghost s: nat, ghost text: seq<byte>, ghost i: nat,
                   sector: nat, cursor: nat, buf: seq<byte>, d: seq<byte>)
      returns (ok: bool, sector': nat, cursor': nat, buf': seq<byte>, ghost i': nat, take: nat)
      requires pool.Valid() && pool.sectorSize == |buf| > 0 && s + i == sector * pool.sectorSize && d != []
      requires Staged(was, pool.image, s, text, i, cursor, buf)
      modifies pool
      ensures ok ==> s + i' == sector' * pool.sectorSize && |buf'| == |buf| && 0 < take <= |d| && cursor' > 0
      ensures ok ==> Staged(was, pool.image, s, text + d[..take], i', cursor', buf')
      ensures !ok ==> Torn(was, pool.image, s, text)
      ensures |pool.image| == |old(pool.image)| && (pool.Healthy(|pool.image|) && s + |text| <= |pool.image| ==> ok)
    {
      take := 0;
      ok, sector', cursor', buf', i' := MakeRoom(was, s, text, i, sector, cursor, buf);
      if !ok { return; }
      take := Min(pool.sectorSize - cursor', |d|);
      StagedPut(was, pool.image, s, text, i', cursor', buf', d[..take]);
      buf' := buf'[..cursor'] + d[..take] + buf'[cursor' + take..];
      cursor' := cursor' + take;
    }

    /** One entry is copied into the sector buffer, sector by sector. */
    method PutEntry(ghost was: seq<byte>, ghost s: nat, ghost text: seq<byte>, ghost i: nat,
                    sector: nat, cursor: nat, buf: seq<byte>, entry: seq<byte>)
      returns (ok: bool, sector': nat, cursor': nat, buf': seq<byte>, ghost i': nat)
      requires pool.Valid() && pool.sectorSize == |buf| > 0 && s + i == sector * pool.sectorSize
      requires Staged(was, pool.image, s, text, i, cursor, buf) && (cursor > 0 || text == [])
      modifies pool
      ensures ok ==> s + i' == sector' * pool.sectorSize && |buf'| == |buf|
      ensures ok ==> Staged(was, pool.image, s, text + entry, i', cursor', buf') && (cursor' > 0 || text + entry == [])
      ensures !ok ==> Torn(was, pool.image, s, text + entry)
      ensures |pool.image| == |old(pool.image)|
                && (pool.Healthy(|pool.image|) && s + |text + entry| <= |pool.image| ==> ok)
    {
      sector', cursor', buf', i' := sector, cursor, buf, i;
      ok := true;
      var n := 0;
      ghost var sofar := text;
      assert text + entry[..0] == text;
      while n < |entry|
        invariant n <= |entry| && |buf'| == |buf| && s + i' == sector' * pool.sectorSize && ok
        invariant |pool.image| == |old(pool.image)| && (cursor' > 0 || sofar == [])
        invariant sofar == text + entry[..n] && Staged(was, pool.image, s, sofar, i', cursor', buf')
      {
        var take;
        ok, sector', cursor', buf', i', take := PutSome(was, s, sofar, i', sector', cursor', buf', entry[n..]);
        PartOf(text, entry, n);
        if !ok {
          TornLonger(was, pool.image, s, sofar, text + entry);
          return;
        }
        NextPart(text, entry, n, take);
        sofar := sofar + entry[n..][..take];
        n := n + take;
      }
      assert entry[..n] == entry;
    }

    /** The copy loop over all entries, from the sector that holds the end of the log. */
    method PutAll(ghost was: seq<byte>, ghost s: nat, ghost pre: seq<byte>,
                  sector: nat, cursor: nat, buf: seq<byte>, entries: seq<seq<byte>>)
      returns (ok: bool, sector': nat, cursor': nat, buf': seq<byte>, ghost i': nat)
      requires pool.Valid() && pool.sectorSize == |buf| > 0 && s == sector * pool.sectorSize && pool.image == was
      requires cursor == |pre| <= |buf| && buf[..cursor] == pre
      modifies pool
      ensures ok ==> s + i' == sector' * pool.sectorSize && |buf'| == |buf|
      ensures ok ==> Staged(was, pool.image, s, pre + Concat(entries), i', cursor', buf')
      ensures ok ==> cursor' > 0 || pre + Concat(entries) == []
      ensures !ok ==> Torn(was, pool.image, s, pre + Concat(entries))
      ensures |pool.image| == |old(pool.image)|
                && (pool.Healthy(|pool.image|) && s + |pre + Concat(entries)| <= |pool.image| ==> ok)
    {
      sector', cursor', buf', i' := sector, cursor, buf, 0;
      ok := true;
      Nothing(pre);
      for n := 0 to |entries|
        invariant |buf'| == |buf| && s + i' == sector' * pool.sectorSize
        invariant |pool.image| == |old(pool.image)| && (cursor' > 0 || pre + Concat(entries[..n]) == [])
        invariant Staged(was, pool.image, s, pre + Concat(entries[..n]), i', cursor', buf')
      {
        ghost var text := pre + Concat(entries[..n]);
        EntryByEntry(pre, entries, n);
        ok, sector', cursor', buf', i' := PutEntry(was, s, text, i', sector', cursor', buf', entries[n]);
        if !ok {
          TornLonger(was, pool.image, s, text + entries[n], pre + Concat(entries));
          return;
        }
      }
      assert entries[..|entries|] == entries;
    }

    /** The bytes from `start` on become the entries; whatever lies before `start` stays, even if a write fails. */
    method WriteOut(start: nat, entries: seq<seq<byte>>) returns (r: Result<()>)
      requires pool.Valid() && 0 < pool.sectorSize && Concat(entries) != [] && start <= |pool.image|
      modifies pool
      ensures |pool.image| == |old(pool.image)| && pool.image[..start] == old(pool.image)[..start]
      ensures SameFrom(old(pool.image), pool.image, start + |Concat(entries)| + pool.sectorSize)
      ensures r.Ok? ==>
                var end := start + |Concat(entries)|; end <= |pool.image| && pool.image[start..end] == Concat(entries)
      ensures r.Err? ==> r.errno == EIO
      ensures pool.Healthy(|pool.image|) && start + |Concat(entries)| <= |pool.image| ==> r.Ok?
    {
      ghost var was, p := pool.image, Concat(entries);
      var sector, cursor := Locate(start, pool.sectorSize);
      if pool.Healthy(|was|) && start < |was| { UnitInside(start, pool.sectorSize, sector, cursor, |was|); }
      var buf: seq<byte> := Zeros(pool.sectorSize);
      if cursor != 0 {
        var got := pool.ReadSectors(sector, pool.sectorSize);
        if got.None? { return Err(EIO); }
        buf := got.value;
      }
      ghost var s := sector * pool.sectorSize;
      ghost var pre := was[s..start];
      assert buf[..cursor] == pre;
      var ok, sector', cursor', buf', i := PutAll(was, s, pre, sector, cursor, buf, entries);
      if !ok {
        PrefixStays(was, pool.image, s, pre + p, start);
        return Err(EIO);
      }
      r := LastSector(was, s, pre, p, i, start, sector', cursor', buf');
    }

    method LastSector(ghost was: seq<byte>, ghost s: nat, ghost pre: seq<byte>, ghost p: seq<byte>, ghost i: nat,
                      ghost start: nat, sector: nat, cursor: nat, buf: seq<byte>) returns (r: Result<()>)
      requires pool.Valid() && pool.sectorSize == |buf| > 0 && s + i == sector * pool.sectorSize && p != []
                 && cursor > 0
      requires Staged(was, pool.image, s, pre + p, i, cursor, buf)
      requires s <= start <= |was| && pre == was[s..start]
      modifies pool
      ensures |pool.image| == |was| && pool.image[..start] == was[..start]
                && SameFrom(was, pool.image, start + |p| + pool.sectorSize)
      ensures r.Ok? ==> start + |p| <= |pool.image| && pool.image[start..start + |p|] == p
      ensures r.Err? ==> r.errno == EIO
      ensures pool.Healthy(|pool.image|) && start + |p| <= |pool.image| ==> r.Ok?
    {
      ghost var before := pool.image;
      var lo := sector * pool.sectorSize;
      LastInside(was, before, s, pre, p, i, start, sector, cursor, buf);
      var ok := pool.WriteWhole(sector, lo, buf);
      LastOut(was, before, pool.image, s, pre, p, i, start, cursor, buf);
      r := if ok then Ok(()) else Err(EIO);
    }

    /** The sector that takes the end of the records is on the device. */
    lemma LastInside(was: seq<byte>, before: seq<byte>, s: nat, pre: seq<byte>, p: seq<byte>, i: nat, start: nat,
                     sector: nat, cursor: nat, buf: seq<byte>)
      requires pool.sectorSize == |buf| > 0 && s + i == sector * pool.sectorSize && cursor > 0
      requires Staged(was, before, s, pre + p, i, cursor, buf) && s <= start <= |was| && pre == was[s..start]
      ensures pool.Healthy(|before|) && start + |p| <= |before| ==>
                sector * pool.sectorSize + pool.sectorSize <= |before|
    {
      if pool.Healthy(|before|) && start + |p| <= |before| {
        UnitInside(sector * pool.sectorSize, pool.sectorSize, sector, 0, |before|);
      }
    }

    method PendingBytes() returns (n: nat)
      ensures n == |Concat(pending)|
    {
      n := 0;
      for k := 0 to |pending|
        invariant n == |Concat(pending[..k])|
      {
        EntryByEntry([], pending, k);
        n := n + |pending[k]|;
      }
      assert pending[..|pending|] == pending;
    }

    /** The commit barrier's append. No record is lost or reordered, finished or not. */
    method Flush() returns (r: Result<()>)
      requires Valid()
      modifies this, pool
      ensures Valid() && flushed + pending == old(flushed + pending) && old(flushed) <= flushed
      ensures r.Ok? ==> Concat(pending) == [] && pending == if Concat(old(pending)) != [] then [] else old(pending)
      ensures r.Err? ==> pending == old(pending) && tail == old(tail) && r.errno in {ENOSPC, EINVAL, EIO}
      ensures r == Err(ENOSPC) <==> Concat(old(pending)) != [] && old(tail) + |Concat(old(pending))| > LOG_BYTES
      ensures (Holding() || !active) && r.Err? ==> r.errno == ENOSPC
      ensures SameFrom(old(pool.image), pool.image, base + LOG_BYTES + MAX_SECTOR_SIZE)
    {
      var n := PendingBytes();
      if n == 0 { return Ok(()); }
      if tail + n > LOG_BYTES { return Err(ENOSPC); }
      if active {
        if pool.sectorSize == 0 || pool.sectorSize > MAX_SECTOR_SIZE { return Err(EINVAL); }
        r := Append();
        if r.Err? { return; }
      }
      Settle(n);
      r := Ok(());
    }

    /** The buffered records are in the log now. */
    method Settle(n: nat)
      requires Valid() && n == |Concat(pending)| && tail + n <= LOG_BYTES
      requires active ==>
                 base + tail + n <= |pool.image|
                 && pool.image[base..base + tail + n] == Concat(flushed) + Concat(pending)
      modifies this
      ensures Valid() && flushed == old(flushed + pending) && pending == []
                && flushed + pending == old(flushed + pending)
    {
      ConcatAppend(flushed, pending);
      Nothing(flushed + pending);
      flushed := flushed + pending;
      tail := tail + n;
      pending := [];
    }

    method Append() returns (r: Result<()>)
      requires Valid() && active && 0 < pool.sectorSize && Concat(pending) != []
      modifies pool
      ensures Valid() && (r.Err? ==> r.errno == EIO)
      ensures SameFrom(old(pool.image), pool.image, base + tail + |Concat(pending)| + pool.sectorSize)
      ensures pool.Healthy(|pool.image|) && base + tail + |Concat(pending)| <= |pool.image| ==> r.Ok?
      ensures r.Ok? ==> var end := base + tail + |Concat(pending)|;
                        end <= |pool.image| && pool.image[base..end] == Concat(flushed) + Concat(pending)
    {
      var start := base + tail;
      ghost var was := pool.image;
      r := WriteOut(start, pending);
      assert pool.image[base..start] == pool.image[..start][base..] == was[..start][base..] == was[base..start];
      if r.Ok? {
        ghost var end := start + |Concat(pending)|;
        assert pool.image[base..end] == pool.image[base..start] + pool.image[start..end];
        assert tail == 0 ==> Concat(flushed) == [] == pool.image[base..start];
      }
    }

    /** The buffer goes out first if it has no room for the entry. */
    method MakeWay(entry: seq<byte>) returns (r: Result<()>)
      requires Valid() && |entry| <= MAX_ENTRY
      modifies this, pool
      ensures Valid() && old(flushed) <= flushed && flushed + pending == old(flushed + pending)
      ensures RecordTruth(old(tail), old(pending), Holding() || !active, entry, r)
      ensures SameFrom(old(pool.image), pool.image, base + LOG_BYTES + MAX_SECTOR_SIZE)
      ensures old(HasRoom(entry)) ==>
                r.Ok? && flushed == old(flushed) && pending == old(pending) && pool.image == old(pool.image)
      ensures !old(HasRoom(entry)) && r.Ok? ==> pending == if Concat(old(pending)) != [] then [] else old(pending)
      ensures r.Err? ==> pending == old(pending)
    {
      var n := PendingBytes();
      if |pending| >= MAX_PENDING || n + |entry| > MAX_PENDING_BYTES {
        r := Flush();
        if r.Err? { return; }
      }
      r := Ok(());
    }

    /** A record is accepted behind all earlier ones or not at all. */
    method Record(entry: seq<byte>) returns (r: Result<()>)
      requires Valid()
      modifies this, pool
      ensures Valid() && old(flushed) <= flushed
      ensures flushed + pending == if r.Ok? then old(flushed + pending) + [entry] else old(flushed + pending)
      ensures |entry| > MAX_ENTRY ==> r == Err(E2BIG)
      ensures RecordTruth(old(tail), old(pending), Holding() || !active, entry, r)
      ensures SameFrom(old(pool.image), pool.image, base + LOG_BYTES + MAX_SECTOR_SIZE)
      ensures old(HasRoom(entry)) && |entry| <= MAX_ENTRY ==>
                r.Ok? && flushed == old(flushed) && pool.image == old(pool.image)
      ensures !old(HasRoom(entry)) && Concat(old(pending)) != [] && r.Ok? ==>
                flushed == old(flushed + pending) && pending == [entry]
      ensures old(Bounded()) && entry != [] ==> Bounded()
    {
      if |entry| > MAX_ENTRY { return Err(E2BIG); }
      r := MakeWay(entry);
      if r.Err? { return; }
      Assoc(flushed, pending, [entry]);
      OneMore(pending, entry);
      pending := pending + [entry];
    }

    /** Recovery: what the splitter makes of the log. It is the flushed records exactly when the splitter
        knows the length of each of them. */
    method Recover() returns (r: Option<seq<seq<byte>>>)
      requires Valid() && active
      ensures r.Some? ==> r.value == Split(Concat(flushed))
      ensures Holding() ==> r.Some?
      ensures r.Some? && (forall f :: f in flushed ==> Measured(f)) ==>
                (r.value == flushed <==> forall f :: f in flushed ==> Fits(f))
    {
      var bytes := pool.PoolRead(base, tail);
      if bytes.None? { return None; }
      assert bytes.value == Concat(flushed);
      var records := SplitIntentBuffer(bytes.value);
      if forall f :: f in flushed ==> Measured(f) {
        SplitIff(flushed);
      }
      r := Some(records);
    }
  }

  lemma PartOf(text: seq<byte>, entry: seq<byte>, n: nat)
    requires n <= |entry|
    ensures text + entry[..n] <= text + entry
  {
  }

  lemma NextPart(text: seq<byte>, entry: seq<byte>, n: nat, take: nat)
    requires n + take <= |entry|
    ensures text + entry[..n] + entry[n..][..take] == text + entry[..n + take]
  {
    assert entry[..n] + entry[n..][..take] == entry[..n + take];
  }

  lemma TornLonger(was: seq<byte>, image: seq<byte>, s: nat, d: seq<byte>, e: seq<byte>)
    requires Torn(was, image, s, d) && d <= e
    ensures Torn(was, image, s, e)
  {
  }

  lemma EntryByEntry(pre: seq<byte>, entries: seq<seq<byte>>, n: nat)
    requires n < |entries|
    ensures pre + Concat(entries[..n + 1]) == pre + Concat(entries[..n]) + entries[n]
    ensures pre + Concat(entries[..n]) + entries[n] <= pre + Concat(entries)
  {
    ConcatNext(entries, n);
    ConcatSome(entries, n + 1);
    Assoc(pre, Concat(entries[..n]), entries[n]);
  }

  lemma ConcatNext(entries: seq<seq<byte>>, n: nat)
    requires n < |entries|
    ensures Concat(entries[..n + 1]) == Concat(entries[..n]) + entries[n]
  {
    assert entries[..n + 1] == entries[..n] + [entries[n]];
    ConcatAppend(entries[..n], [entries[n]]);
    ConcatOne(entries[n]);
  }

  lemma ConcatSome(entries: seq<seq<byte>>, n: nat)
    requires n <= |entries|
    ensures Concat(entries[..n]) <= Concat(entries)
  {
    assert entries == entries[..n] + entries[n..];
    ConcatAppend(entries[..n], entries[n..]);
  }
}
