/** Persisting and loading a snapshot through the block device. */
module SnapshotIO {
  import opened Common
  import opened Wire
  import opened SnapshotCodec
  import opened SnapshotParts
  import opened Snapshot
  import opened Pool

  // ---------- writing ----------

  ghost predicate AllTyped(rs: seq<Record>, t: Tag) {
    forall r :: r in rs ==> Typed(r) && TagOf(r) == t
  }

  /** What the engine's types make sure of: every list holds records of its kind with fields in range. */
  ghost predicate StateTyped(s: State) {
    var l := ListsOf(s);
    && AllTyped(l.inodes, InodeTag) && AllTyped(l.names, NameTag) && AllTyped(l.parts.data, DataTag)
    && AllTyped(l.parts.extents, ExtentTag) && AllTyped(l.parts.attrs, AttrTag)
    && s.nextIno <= U64_MAX && s.nextCookie <= U32_MAX
  }

  lemma {:induction false} EncodeAppend(rs: seq<Record>, r: Record)
    requires (forall x :: x in rs ==> Writable(x)) && Writable(r)
    ensures EncodeMany(rs + [r]) == EncodeMany(rs) + Encode(r)
  {
    if rs == [] {
      assert (rs + [r])[1..] == [];
      Nothing(Encode(r));
    } else {
      assert (rs + [r])[1..] == rs[1..] + [r];
      EncodeAppend(rs[1..], r);
      Assoc(Encode(rs[0]), EncodeMany(rs[1..]), Encode(r));
    }
  }

  method EncodeOne(x: Record) returns (r: Result<seq<byte>>)
    requires Typed(x)
    ensures r.Ok? <==> Writable(x)
    ensures r.Ok? ==> r.value == Encode(x)
    ensures r.Err? ==> Refusal(x) == Some(r.errno)
  {
    var refusal := Refusal(x);
    if refusal.Some? { return Err(refusal.value); }
    r := Ok(Encode(x));
  }

  /** The records one after another, or the reason an unfit one is refused. */
  method EncodeRecords(rs: seq<Record>, ghost t: Tag) returns (r: Result<seq<byte>>)
    requires AllTyped(rs, t)
    ensures r.Ok? <==> AllWritable(rs, t)
    ensures r.Ok? ==> r.value == EncodeMany(rs)
    ensures r.Err? ==> exists x :: x in rs && Refusal(x) == Some(r.errno)
  {
    var out: seq<byte> := [];
    for i := 0 to |rs|
      invariant AllWritable(rs[..i], t) && out == EncodeMany(rs[..i])
    {
      assert rs[i] in rs;
      var e := EncodeOne(rs[i]);
      if e.Err? { return e; }
      EncodeStep(rs, i, t);
      out := out + e.value;
    }
    assert rs[..|rs|] == rs;
    r := Ok(out);
  }

  lemma EncodeStep(rs: seq<Record>, i: nat, t: Tag)
    requires i < |rs| && AllWritable(rs[..i], t) && Writable(rs[i]) && TagOf(rs[i]) == t
    ensures AllWritable(rs[..i + 1], t) && EncodeMany(rs[..i + 1]) == EncodeMany(rs[..i]) + Encode(rs[i])
  {
    assert rs[..i + 1] == rs[..i] + [rs[i]];
    EncodeAppend(rs[..i], rs[i]);
  }

  method EncodeSectionOf(t: Tag, rs: seq<Record>) returns (r: Result<seq<byte>>)
    requires AllTyped(rs, t)
    ensures r.Ok? <==> AllWritable(rs, t)
    ensures r.Ok? ==> r.value == EncodeSection(t, rs)
  {
    r := EncodeRecords(rs, t);
    if r.Err? || rs == [] { return; }
    r := Ok([SectionId(t)] + (Le(|rs|, 4) + r.value));
  }

  method EncodeBody(l: Lists) returns (r: Result<seq<byte>>)
    requires AllTyped(l.inodes, InodeTag) && AllTyped(l.names, NameTag) && AllTyped(l.parts.data, DataTag)
    requires AllTyped(l.parts.extents, ExtentTag) && AllTyped(l.parts.attrs, AttrTag)
    ensures r.Ok? <==> ListsWritable(l)
    ensures r.Ok? ==> r.value == Body(l)
  {
    if |l.inodes| > U32_MAX || |l.names| > U32_MAX { return Err(EOVERFLOW); }
    if |l.parts.data| > U32_MAX || |l.parts.extents| > U32_MAX || |l.parts.attrs| > U32_MAX { return Err(EOVERFLOW); }
    var inodes := EncodeRecords(l.inodes, InodeTag);
    if inodes.Err? { return Err(inodes.errno); }
    var names := EncodeRecords(l.names, NameTag);
    if names.Err? { return Err(names.errno); }
    var parts := EncodeSections(l.parts);
    if parts.Err? { return Err(parts.errno); }
    r := Ok(inodes.value + (names.value + parts.value));
  }

  method EncodeSections(p: Parts) returns (r: Result<seq<byte>>)
    requires AllTyped(p.data, DataTag) && AllTyped(p.extents, ExtentTag) && AllTyped(p.attrs, AttrTag)
    ensures r.Ok? <==>
              AllWritable(p.data, DataTag) && AllWritable(p.extents, ExtentTag) && AllWritable(p.attrs, AttrTag)
    ensures r.Ok? ==> r.value == EncodeParts(p)
  {
    var data := EncodeSectionOf(DataTag, p.data);
    if data.Err? { return Err(data.errno); }
    var extents := EncodeSectionOf(ExtentTag, p.extents);
    if extents.Err? { return Err(extents.errno); }
    var attrs := EncodeSectionOf(AttrTag, p.attrs);
    if attrs.Err? { return Err(attrs.errno); }
    r := Ok(data.value + (extents.value + attrs.value));
  }

  predicate Aligned(off: nat, ss: nat) { ss > 0 && off % ss == 0 }

  /** A healthy device of `size` bytes takes `len` bytes at the sector boundary `at`. */
  ghost predicate Takes(pool: BlockPool, size: nat, at: nat, len: nat) {
    pool.Healthy(size) && Aligned(at, pool.sectorSize) && at + len <= size
  }

  method SectorAt(at: nat, ss: nat) returns (sector: nat)
    requires Aligned(at, ss)
    ensures sector * ss == at
  {
    sector := at / ss;
  }

  method BuildImage(s: State, root: seq<byte>, rootIno: nat, digest: seq<byte> -> seq<byte>)
    returns (r: Result<seq<byte>>)
    requires StateTyped(s) && rootIno <= U64_MAX
    ensures r.Ok? <==> Persistable(s, rootIno)
    ensures r.Ok? ==> r.value == Image(s, root, rootIno, digest)
  {
    var l := ListsOf(s);
    MaxTyped(s.inodes);
    var b := EncodeBody(l);
    if b.Err? { return Err(b.errno); }
    var body := b.value;
    if HEADER + |body| > MAX_IMAGE { return Err(ENOSPC); }
    r := Ok(ImageAround(s, root, rootIno, digest, body));
  }

  /** `Ok(false)` when there is no usable storage to write to. A refused state writes nothing. */
  method Persist(pool: BlockPool, at: nat, s: State, root: seq<byte>, rootIno: nat, digest: seq<byte> -> seq<byte>)
    returns (r: Result<bool>)
    requires pool.Valid() && StateTyped(s) && rootIno <= U64_MAX
    modifies pool
    ensures pool.sectorSize == 0 || pool.sectorSize > MAX_SECTOR_SIZE ==>
              r == Ok(false) && pool.image == old(pool.image)
    ensures 0 < pool.sectorSize <= MAX_SECTOR_SIZE ==>
              r != Ok(false) && (!Aligned(at, pool.sectorSize) ==> r == Err(EINVAL))
    ensures r == Ok(true) ==>
              Persistable(s, rootIno) && Written(old(pool.image), pool.image, at, Image(s, root, rootIno, digest))
    ensures Persistable(s, rootIno) ==> Torn(old(pool.image), pool.image, at, Image(s, root, rootIno, digest))
    ensures !Persistable(s, rootIno) ==> pool.image == old(pool.image) && (r.Err? || r == Ok(false))
    ensures Persistable(s, rootIno) && Takes(pool, |old(pool.image)|, at, |Image(s, root, rootIno, digest)|) ==>
              r == Ok(true)
  {
    var ss := pool.sectorSize;
    if ss == 0 || ss > MAX_SECTOR_SIZE { return Ok(false); }
    if !Aligned(at, ss) { return Err(EINVAL); }
    var image := BuildImage(s, root, rootIno, digest);
    if image.Err? { return Err(image.errno); }
    var sector := SectorAt(at, ss);
    var ok := pool.WriteSectors(sector, image.value);
    r := if ok then Ok(true) else Err(EIO);
  }

  lemma {:induction false} MaxTyped(rs: seq<Record>)
    requires AllTyped(rs, InodeTag)
    ensures MaxOf(rs) <= U64_MAX
  {
    if rs != [] {
      assert rs[0] in rs;
      MaxTyped(rs[1..]);
    }
  }

  // ---------- reading ----------

  function Chain(recs: seq<Record>, more: Option<(seq<Record>, seq<byte>)>): Option<(seq<Record>, seq<byte>)> {
    match more
    case None => None
    case Some(p) => Some((recs + p.0, p.1))
  }

  lemma ChainStep(recs: seq<Record>, t: Tag, b: seq<byte>, n: nat)
    requires n > 0
    ensures Decode(t, b).None? ==> DecodeMany(t, b, n).None?
    ensures Decode(t, b).Some? ==>
              Chain(recs, DecodeMany(t, b, n))
                == Chain(recs + [Decode(t, b).value.0], DecodeMany(t, Decode(t, b).value.1, n - 1))
  {
    if Decode(t, b).Some? {
      var more := DecodeMany(t, Decode(t, b).value.1, n - 1);
      if more.Some? { Assoc(recs, [Decode(t, b).value.0], more.value.0); }
    }
  }

  method LoadOne(t: Tag, image: seq<byte>, cursor: nat) returns (r: Option<(Record, nat)>)
    requires cursor <= |image|
    ensures r.None? <==> Decode(t, image[cursor..]).None?
    ensures r.Some? ==>
              cursor <= r.value.1 <= |image| && Decode(t, image[cursor..]) == Some((r.value.0, image[r.value.1..]))
  {
    DecodeLeaves(t, image[cursor..]);
    var d := Decode(t, image[cursor..]);
    if d.None? { return None; }
    var next := |image| - |d.value.1|;
    assert image[next..] == d.value.1;
    r := Some((d.value.0, next));
  }

  /** `n` records from the cursor on. */
  method LoadRecords(t: Tag, image: seq<byte>, from: nat, n: nat) returns (r: Option<(seq<Record>, nat)>)
    requires from <= |image|
    ensures r.None? <==> DecodeMany(t, image[from..], n).None?
    ensures r.Some? ==>
              from <= r.value.1 <= |image| && DecodeMany(t, image[from..], n) == Some((r.value.0, image[r.value.1..]))
  {
    var recs: seq<Record>, cursor := [], from;
    ghost var whole := DecodeMany(t, image[from..], n);
    if whole.Some? { Nothing(whole.value.0); }
    for i := 0 to n
      invariant from <= cursor <= |image|
      invariant whole == Chain(recs, DecodeMany(t, image[cursor..], n - i))
    {
      ChainStep(recs, t, image[cursor..], n - i);
      var d := LoadOne(t, image, cursor);
      if d.None? { return None; }
      recs, cursor := recs + [d.value.0], d.value.1;
    }
    Nothing(recs);
    r := Some((recs, cursor));
  }

  method LoadSections(image: seq<byte>, from: nat) returns (r: Option<Parts>)
    requires from <= |image|
    ensures r == DecodeSections(image[from..], Parts([], [], []))
  {
    var parts, cursor := Parts([], [], []), from;
    while cursor < |image|
      invariant from <= cursor <= |image|
      invariant DecodeSections(image[from..], Parts([], [], [])) == DecodeSections(image[cursor..], parts)
    {
      SectionLeaves(image[cursor..]);
      var s := LoadSection(image, cursor);
      if s.None? { return None; }
      parts, cursor := AddTo(parts, s.value.0, s.value.1), s.value.2;
    }
    assert image[cursor..] == [];
    r := Some(parts);
  }

  method LoadSection(image: seq<byte>, cursor: nat) returns (r: Option<(Tag, seq<Record>, nat)>)
    requires cursor < |image|
    ensures r.None? <==> DecodeSection(image[cursor..]).None?
    ensures r.Some? ==> cursor < r.value.2 <= |image|
                        && DecodeSection(image[cursor..]) == Some((r.value.0, r.value.1, image[r.value.2..]))
  {
    ghost var b := image[cursor..];
    if cursor + 5 > |image| { return None; }
    assert b[0] == image[cursor] && b[1..5] == image[cursor + 1..cursor + 5] && b[5..] == image[cursor + 5..];
    var t := TagFor(image[cursor]);
    if t.None? { return None; }
    var recs := LoadRecords(t.value, image, cursor + 5, FromLe(image[cursor + 1..cursor + 5]));
    if recs.None? { return None; }
    r := Some((t.value, recs.value.0, recs.value.1));
  }

  method LoadLists(image: seq<byte>, inodes: nat, names: nat) returns (r: Option<Lists>)
    requires |image| >= HEADER
    ensures r == LoadBody(image[HEADER..], inodes, names)
  {
    var i := LoadRecords(InodeTag, image, HEADER, inodes);
    if i.None? { return None; }
    var n := LoadRecords(NameTag, image, i.value.1, names);
    if n.None? { return None; }
    var p := LoadSections(image, n.value.1);
    if p.None? { return None; }
    r := Some(Lists(i.value.0, n.value.0, p.value));
  }

  /** The bytes of the device from `at` on. */
  function From(image: seq<byte>, at: nat): seq<byte> { image[Min(at, |image|)..] }

  /** Loading from the device: what the bytes there stand for, unless the device cannot be read. */
  method Load(pool: BlockPool, at: nat, root: seq<byte>, digest: seq<byte> -> seq<byte>)
    returns (r: Result<Option<State>>)
    requires pool.Valid()
    ensures pool.sectorSize == 0 || pool.sectorSize > MAX_SECTOR_SIZE ==> r == Ok(None)
    ensures 0 < pool.sectorSize <= MAX_SECTOR_SIZE && !Aligned(at, pool.sectorSize) ==> r == Err(EINVAL)
    ensures 0 < pool.sectorSize <= MAX_SECTOR_SIZE && Aligned(at, pool.sectorSize) ==>
              r == Err(EIO) || r == LoadImage(From(pool.image, at), root, digest)
    ensures pool.Healthy(|pool.image|) && Aligned(at, pool.sectorSize) && at + HEADER <= |pool.image| ==>
              r == LoadImage(From(pool.image, at), root, digest)
  {
    var ss := pool.sectorSize;
    if ss == 0 || ss > MAX_SECTOR_SIZE { return Ok(None); }
    if !Aligned(at, ss) { return Err(EINVAL); }
    var header := ReadFrom(pool, at, Max(HEADER, ss));
    if header.None? { return Err(EIO); }
    r := LoadBehind(pool, at, header.value, root, digest);
  }

  /** The first `len` bytes of the device from `at` on. */
  method ReadFrom(pool: BlockPool, at: nat, len: nat) returns (r: Option<seq<byte>>)
    requires pool.Valid() && Aligned(at, pool.sectorSize) && len > 0
    ensures r.Some? ==> len <= |From(pool.image, at)| && r.value == From(pool.image, at)[..len]
    ensures pool.Healthy(|pool.image|)
            && (at + len <= |pool.image| || (len <= pool.sectorSize && at < |pool.image|)) ==>
              r.Some?
  {
    var sector := SectorAt(at, pool.sectorSize);
    if pool.Healthy(|pool.image|) && at < |pool.image| { UnitInside(at, pool.sectorSize, sector, 0, |pool.image|); }
    r := pool.ReadSectors(sector, len);
  }

  /** The header is judged, the whole image read, and its body decoded. */
  method LoadBehind(pool: BlockPool, at: nat, header: seq<byte>, root: seq<byte>, digest: seq<byte> -> seq<byte>)
    returns (r: Result<Option<State>>)
    requires pool.Valid() && Aligned(at, pool.sectorSize)
    requires HEADER <= |header| <= |From(pool.image, at)| && header == From(pool.image, at)[..|header|]
    ensures r == Err(EIO) || r == LoadImage(From(pool.image, at), root, digest)
    ensures pool.Healthy(|pool.image|) ==> r == LoadImage(From(pool.image, at), root, digest)
  {
    ghost var dev := From(pool.image, at);
    assert header[..4] == dev[..4] && header[4..HASH_AT] == dev[4..HASH_AT]
             && header[HASH_END..HEADER] == dev[HASH_END..HEADER];
    if header[..4] != MAGIC { return Ok(None); }
    var f := DecodeFields(header[4..HASH_AT], HEAD_WIDTHS);
    if f.None? { return Err(EINVAL); }
    var fields, len := f.value.0, f.value.0[6];
    if fields[0] != VERSION { return Err(EINVAL); }
    if len < HEADER || len > MAX_IMAGE { return Err(EINVAL); }
    if header[HASH_END..HEADER] != root { return Err(EIO); }
    var whole := ReadFrom(pool, at, len);
    if whole.None? { return Err(EIO); }
    var image := whole.value;
    SameParts(dev, image, header, len);
    if image[..4] != MAGIC { return Ok(None); }
    if image[..HEADER] != header[..HEADER] { return Err(EIO); }
    if digest(image[..HASH_AT] + image[HASH_END..]) != header[HASH_AT..HASH_END] { return Err(EIO); }
    var l := LoadLists(image, fields[1], fields[2]);
    if l.None? { return Err(EINVAL); }
    r := Ok(Some(Assemble(l.value, fields[3], fields[4])));
  }

  lemma SameParts(dev: seq<byte>, image: seq<byte>, header: seq<byte>, len: nat)
    requires HEADER <= len <= |dev| && image == dev[..len] && HEADER <= |header| <= |dev| && header == dev[..|header|]
    ensures image[..4] == dev[..4] && image[..HEADER] == header[..HEADER]
    ensures image[..HASH_AT] == dev[..HASH_AT] && image[HASH_END..] == dev[HASH_END..len]
    ensures header[HASH_AT..HASH_END] == dev[HASH_AT..HASH_END] && image[HEADER..] == dev[HEADER..len]
  {
  }

  lemma WrittenFrom(was: seq<byte>, image: seq<byte>, at: nat, d: seq<byte>)
    requires Written(was, image, at, d) && d != []
    ensures |d| <= |From(image, at)| && From(image, at) == d + From(image, at)[|d|..]
  {
  }

  lemma FoundAgain(was: seq<byte>, image: seq<byte>, at: nat, s: State, root: seq<byte>, rootIno: nat,
                   digest: seq<byte> -> seq<byte>)
    requires Persistable(s, rootIno) && |root| == HEADER - HASH_END
    requires forall b :: |digest(b)| == HASH_END - HASH_AT
    requires Written(was, image, at, Image(s, root, rootIno, digest))
    ensures LoadImage(From(image, at), root, digest) == Ok(Some(Restored(s, rootIno)))
  {
    var d := Image(s, root, rootIno, digest);
    assert d != [];
    WrittenFrom(was, image, at, d);
    ImageRoundTrip(s, root, rootIno, digest, From(image, at)[|d|..]);
  }

  /** Persisting a state and loading it from the same device under the same root gives the state back. */
  method PersistAndLoad(pool: BlockPool, at: nat, s: State, root: seq<byte>, rootIno: nat,
                        digest: seq<byte> -> seq<byte>)
    returns (r: Result<Option<State>>)
    requires pool.Valid() && StateTyped(s) && rootIno <= U64_MAX && |root| == HEADER - HASH_END
    requires forall b :: |digest(b)| == HASH_END - HASH_AT
    modifies pool
    ensures if Persistable(s, rootIno) then Torn(old(pool.image), pool.image, at, Image(s, root, rootIno, digest))
              else pool.image == old(pool.image)
    ensures r.Ok? && r.value.Some? ==> Persistable(s, rootIno) && r.value.value == Restored(s, rootIno)
    ensures Persistable(s, rootIno) && Takes(pool, |old(pool.image)|, at, |Image(s, root, rootIno, digest)|) ==>
              r == Ok(Some(Restored(s, rootIno)))
  {
    var p := Persist(pool, at, s, root, rootIno, digest);
    if p.Err? { return Err(p.errno); }
    if !p.value { return Ok(None); }
    FoundAgain(old(pool.image), pool.image, at, s, root, rootIno, digest);
    r := Load(pool, at, root, digest);
  }
}
