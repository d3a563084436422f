/** The namespace snapshot: the whole engine state written as one image and loaded back. */
module Snapshot {
  import opened Common
  import opened Wire
  import opened SnapshotCodec
  import opened SnapshotParts
  import opened Pool
  import E = Extents
  import B = WriteBuffer

  const MAGIC: seq<byte> := [0x56, 0x4E, 0x53, 0x31]
  const VERSION: nat := 4
  const HASH_AT: nat := 40
  const HASH_END: nat := 72
  const HEADER: nat := 152
  const MAX_IMAGE: nat := 16 * 1024 * 1024

  datatype State = State(inodes: seq<Record>, names: seq<Record>, writes: seq<B.Staged>, extents: seq<E.Extent>,
                         stores: seq<Store>, nextIno: nat, nextCookie: nat)

  function Live(inodes: seq<Record>): set<nat> { set r | r in inodes && r.Inode? :: r.ino }

  function DataRecords(ws: seq<B.Staged>, live: set<nat>): seq<Record> {
    if ws == [] then []
    else (if ws[0].len > 0 && ws[0].ino in live then [Data(ws[0])] else []) + DataRecords(ws[1..], live)
  }

  function ExtentRecords(es: seq<E.Extent>, live: set<nat>): seq<Record> {
    if es == [] then []
    else (if es[0].start < es[0].end && es[0].ino in live then [Extent(es[0])] else []) + ExtentRecords(es[1..], live)
  }

  function Datas(rs: seq<Record>): seq<B.Staged> {
    if rs == [] then [] else (if rs[0].Data? then [rs[0].staged] else []) + Datas(rs[1..])
  }

  function ExtentsIn(rs: seq<Record>): seq<E.Extent> {
    if rs == [] then [] else (if rs[0].Extent? then [rs[0].extent] else []) + ExtentsIn(rs[1..])
  }

  // ---------- the records of a state ----------

  datatype Lists = Lists(inodes: seq<Record>, names: seq<Record>, parts: Parts)

  function ListsOf(s: State): Lists {
    var live := Live(s.inodes);
    Lists(s.inodes, s.names,
          Parts(DataRecords(s.writes, live), ExtentRecords(s.extents, live), StoreRecords(s.stores, live)))
  }

  ghost predicate ListsWritable(l: Lists) {
    && AllWritable(l.inodes, InodeTag) && |l.inodes| <= U32_MAX
    && AllWritable(l.names, NameTag) && |l.names| <= U32_MAX
    && AllWritable(l.parts.data, DataTag) && |l.parts.data| <= U32_MAX
    && AllWritable(l.parts.extents, ExtentTag) && |l.parts.extents| <= U32_MAX
    && AllWritable(l.parts.attrs, AttrTag) && |l.parts.attrs| <= U32_MAX
  }

  function EncodeParts(p: Parts): seq<byte>
    requires AllWritable(p.data, DataTag) && AllWritable(p.extents, ExtentTag) && AllWritable(p.attrs, AttrTag)
  {
    EncodeSection(DataTag, p.data) + (EncodeSection(ExtentTag, p.extents) + EncodeSection(AttrTag, p.attrs))
  }

  ghost function Body(l: Lists): seq<byte>
    requires ListsWritable(l)
  {
    EncodeMany(l.inodes) + (EncodeMany(l.names) + EncodeParts(l.parts))
  }

  ghost function ReloadLists(l: Lists): Lists
    requires ListsWritable(l)
  {
    Lists(ReloadMany(l.inodes), ReloadMany(l.names),
          Parts(ReloadMany(l.parts.data), ReloadMany(l.parts.extents), ReloadMany(l.parts.attrs)))
  }

  function LoadBody(b: seq<byte>, inodes: nat, names: nat): Option<Lists> {
    match DecodeMany(InodeTag, b, inodes)
    case None => None
    case Some(i) =>
      match DecodeMany(NameTag, i.1, names)
      case None => None
      case Some(n) =>
        match DecodeSections(n.1, Parts([], [], []))
        case None => None
        case Some(p) => Some(Lists(i.0, n.0, p))
  }

  lemma PartsRoundTrip(p: Parts)
    requires AllWritable(p.data, DataTag) && |p.data| <= U32_MAX
    requires AllWritable(p.extents, ExtentTag) && |p.extents| <= U32_MAX
    requires AllWritable(p.attrs, AttrTag) && |p.attrs| <= U32_MAX
    ensures DecodeSections(EncodeParts(p), Parts([], [], []))
         == Some(Parts(ReloadMany(p.data), ReloadMany(p.extents), ReloadMany(p.attrs)))
  {
    var d, e, a := EncodeSection(DataTag, p.data), EncodeSection(ExtentTag, p.extents), EncodeSection(AttrTag, p.attrs);
    var p0 := Parts([], [], []);
    var p1 := AddTo(p0, DataTag, ReloadMany(p.data));
    var p2 := AddTo(p1, ExtentTag, ReloadMany(p.extents));
    SectionRoundTrip(DataTag, p.data, e + a, p0);
    SectionRoundTrip(ExtentTag, p.extents, a, p1);
    Nothing(a);
    SectionRoundTrip(AttrTag, p.attrs, [], p2);
    Nothing(ReloadMany(p.data));
    Nothing(ReloadMany(p.extents));
    Nothing(ReloadMany(p.attrs));
  }

  lemma BodyRoundTrip(l: Lists)
    requires ListsWritable(l)
    ensures LoadBody(Body(l), |l.inodes|, |l.names|) == Some(ReloadLists(l))
  {
    ManyRoundTrip(InodeTag, l.inodes, EncodeMany(l.names) + EncodeParts(l.parts));
    ManyRoundTrip(NameTag, l.names, EncodeParts(l.parts));
    PartsRoundTrip(l.parts);
  }

  // ---------- the image ----------

  const HEAD_WIDTHS: seq<nat> := [4, 4, 4, 8, 4, 4, 8]

  function Head(inodes: nat, names: nat, nextIno: nat, nextCookie: nat, len: nat): (h: seq<byte>)
    ensures |h| == HASH_AT
  {
    assert Sum(HEAD_WIDTHS) == 36 by { SumOfHead(); }
    MAGIC + EncodeFields([VERSION, inodes, names, nextIno, nextCookie, 0, len], HEAD_WIDTHS)
  }

  lemma SumOfHead()
    ensures Sum(HEAD_WIDTHS) == 36
  {
    assert HEAD_WIDTHS[1..] == [4, 4, 8, 4, 4, 8] && HEAD_WIDTHS[1..][1..] == [4, 8, 4, 4, 8];
    assert Sum([8]) == 8 by { assert [8][1..] == []; }
    assert Sum([4, 8]) == 12 by { assert [4, 8][1..] == [8]; }
    assert Sum([4, 4, 8]) == 16 by { assert [4, 4, 8][1..] == [4, 8]; }
    assert Sum([8, 4, 4, 8]) == 24 by { assert [8, 4, 4, 8][1..] == [4, 4, 8]; }
    assert Sum([4, 8, 4, 4, 8]) == 28 by { assert [4, 8, 4, 4, 8][1..] == [8, 4, 4, 8]; }
  }

  function MaxOf(rs: seq<Record>): nat {
    if rs == [] then 0
    else
      var x := match rs[0] case Inode(i, _, _, _, _, _, _, _, _, _, _, _, _) => i case Name(_, _, c, _, _) => c
        case _ => 0;
      Max(x, MaxOf(rs[1..]))
  }

  /** The inode number to continue with: past every inode in use and every number given out. */
  function NextIno(next: nat, top: nat): nat { Max(Max(next, Min(top + 1, U64_MAX)), 2) }

  function NextCookie(next: nat, top: nat): nat { Max(Max(next, Min(top + 1, U32_MAX)), 1) }

  /** `digest` hashes the image on both sides of the hash field; `root` is the committed root's identity. */
  ghost function Image(s: State, root: seq<byte>, rootIno: nat, digest: seq<byte> -> seq<byte>): seq<byte>
    requires ListsWritable(ListsOf(s))
  {
    ImageAround(s, root, rootIno, digest, Body(ListsOf(s)))
  }

  function ImageAround(s: State, root: seq<byte>, rootIno: nat, digest: seq<byte> -> seq<byte>,
                       body: seq<byte>): seq<byte>
  {
    var head := Head(|s.inodes|, |s.names|, NextIno(s.nextIno, Max(rootIno, MaxOf(s.inodes))), Max(s.nextCookie, 1),
                     HEADER + |body|);
    head + (digest(head + (root + body)) + (root + body))
  }

  function Assemble(l: Lists, nextIno: nat, nextCookie: nat): State {
    State(l.inodes, l.names, Datas(l.parts.data), ExtentsIn(l.parts.extents), Regroup(l.parts.attrs),
          NextIno(nextIno, MaxOf(l.inodes)), NextCookie(nextCookie, MaxOf(l.names)))
  }

  /** What loading makes of the bytes that begin where a snapshot is kept. */
  function LoadImage(dev: seq<byte>, root: seq<byte>, digest: seq<byte> -> seq<byte>): Result<Option<State>> {
    if |dev| < HEADER then Err(EIO)
    else if dev[..4] != MAGIC then Ok(None)
    else
      match DecodeFields(dev[4..HASH_AT], HEAD_WIDTHS)
      case None => Err(EINVAL)
      case Some(p) =>
        var f := p.0;
        var len := f[6];
        if f[0] != VERSION then Err(EINVAL)
        else if len < HEADER || len > MAX_IMAGE then Err(EINVAL)
        else if dev[HASH_END..HEADER] != root then Err(EIO)
        else if |dev| < len then Err(EIO)
        else if digest(dev[..HASH_AT] + dev[HASH_END..len]) != dev[HASH_AT..HASH_END] then Err(EIO)
        else
          Loaded(LoadBody(dev[HEADER..len], f[1], f[2]), f[3], f[4])
  }

  function Loaded(l: Option<Lists>, nextIno: nat, nextCookie: nat): Result<Option<State>> {
    match l
    case None => Err(EINVAL)
    case Some(l) => Ok(Some(Assemble(l, nextIno, nextCookie)))
  }

  lemma HeadFields(inodes: nat, names: nat, nextIno: nat, nextCookie: nat, len: nat)
    requires inodes <= U32_MAX && names <= U32_MAX && nextIno <= U64_MAX && nextCookie <= U32_MAX && len <= U64_MAX
    ensures var h := Head(inodes, names, nextIno, nextCookie, len);
            h[..4] == MAGIC && DecodeFields(h[4..], HEAD_WIDTHS)
              == Some(([VERSION, inodes, names, nextIno, nextCookie, 0, len], []))
  {
    var vs := [VERSION, inodes, names, nextIno, nextCookie, 0, len];
    Powers();
    FieldsRoundTrip(vs, HEAD_WIDTHS, []);
    Nothing(EncodeFields(vs, HEAD_WIDTHS));
    Ahead(MAGIC, EncodeFields(vs, HEAD_WIDTHS));
  }

  lemma Cuts(head: seq<byte>, hash: seq<byte>, root: seq<byte>, body: seq<byte>, junk: seq<byte>)
    requires |head| == HASH_AT && |hash| == HASH_END - HASH_AT && |root| == HEADER - HASH_END
    ensures var dev := head + (hash + (root + body)) + junk; var len := HEADER + |body|;
            && |dev| >= len && dev[..4] == head[..4] && dev[4..HASH_AT] == head[4..] && dev[..HASH_AT] == head
            && dev[HASH_AT..HASH_END] == hash && dev[HASH_END..HEADER] == root && dev[HEADER..len] == body
            && dev[HASH_END..len] == root + body
  {
  }

  /** What a state becomes across a snapshot. */
  ghost function Restored(s: State, rootIno: nat): State
    requires ListsWritable(ListsOf(s))
  {
    Assemble(ReloadLists(ListsOf(s)), NextIno(s.nextIno, Max(rootIno, MaxOf(s.inodes))), Max(s.nextCookie, 1))
  }

  ghost predicate Persistable(s: State, rootIno: nat) {
    && ListsWritable(ListsOf(s)) && HEADER + |Body(ListsOf(s))| <= MAX_IMAGE
    && s.nextIno <= U64_MAX && s.nextCookie <= U32_MAX && rootIno <= U64_MAX && MaxOf(s.inodes) <= U64_MAX
  }

  lemma LoadPieces(inodes: nat, names: nat, nextIno: nat, nextCookie: nat, root: seq<byte>, body: seq<byte>,
                   digest: seq<byte> -> seq<byte>, junk: seq<byte>)
    requires inodes <= U32_MAX && names <= U32_MAX && nextIno <= U64_MAX && nextCookie <= U32_MAX
    requires HEADER + |body| <= MAX_IMAGE && |root| == HEADER - HASH_END
    requires forall b :: |digest(b)| == HASH_END - HASH_AT
    ensures var head := Head(inodes, names, nextIno, nextCookie, HEADER + |body|);
            LoadImage(head + (digest(head + (root + body)) + (root + body)) + junk, root, digest)
            == Loaded(LoadBody(body, inodes, names), nextIno, nextCookie)
  {
    var head := Head(inodes, names, nextIno, nextCookie, HEADER + |body|);
    HeadFields(inodes, names, nextIno, nextCookie, HEADER + |body|);
    Cuts(head, digest(head + (root + body)), root, body, junk);
  }

  lemma NextFits(s: State, rootIno: nat)
    requires s.nextIno <= U64_MAX && s.nextCookie <= U32_MAX && rootIno <= U64_MAX && MaxOf(s.inodes) <= U64_MAX
    ensures NextIno(s.nextIno, Max(rootIno, MaxOf(s.inodes))) <= U64_MAX && Max(s.nextCookie, 1) <= U32_MAX
  {
  }

  /** Loading finds the state that was written, whatever lies behind the image. */
  lemma ImageRoundTrip(s: State, root: seq<byte>, rootIno: nat, digest: seq<byte> -> seq<byte>, junk: seq<byte>)
    requires Persistable(s, rootIno) && |root| == HEADER - HASH_END
    requires forall b :: |digest(b)| == HASH_END - HASH_AT
    ensures LoadImage(Image(s, root, rootIno, digest) + junk, root, digest) == Ok(Some(Restored(s, rootIno)))
  {
    BodyRoundTrip(ListsOf(s));
    LoadAround(s, root, rootIno, digest, Body(ListsOf(s)), junk);
  }

  lemma LoadAround(s: State, root: seq<byte>, rootIno: nat, digest: seq<byte> -> seq<byte>, body: seq<byte>,
                   junk: seq<byte>)
    requires |s.inodes| <= U32_MAX && |s.names| <= U32_MAX && HEADER + |body| <= MAX_IMAGE
               && |root| == HEADER - HASH_END
    requires s.nextIno <= U64_MAX && s.nextCookie <= U32_MAX && rootIno <= U64_MAX && MaxOf(s.inodes) <= U64_MAX
    requires forall b :: |digest(b)| == HASH_END - HASH_AT
    ensures LoadImage(ImageAround(s, root, rootIno, digest, body) + junk, root, digest)
         == Loaded(LoadBody(body, |s.inodes|, |s.names|), NextIno(s.nextIno, Max(rootIno, MaxOf(s.inodes))),
              Max(s.nextCookie, 1))
  {
    NextFits(s, rootIno);
    LoadPieces(|s.inodes|, |s.names|, NextIno(s.nextIno, Max(rootIno, MaxOf(s.inodes))), Max(s.nextCookie, 1),
               root, body, digest, junk);
  }
}
