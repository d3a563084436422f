/** The records of the namespace snapshot: fixed-width little-endian fields followed by names or data. */
module SnapshotCodec {
  import opened Common
  import opened Wire
  import E = Extents
  import B = WriteBuffer

  // ---------- rows of fixed-width fields ----------

  function Sum(ws: seq<nat>): nat { if ws == [] then 0 else ws[0] + Sum(ws[1..]) }

  function EncodeFields(vs: seq<nat>, ws: seq<nat>): (b: seq<byte>)
    requires |vs| == |ws|
    ensures |b| == Sum(ws)
  {
    if vs == [] then [] else Le(vs[0], ws[0]) + EncodeFields(vs[1..], ws[1..])
  }

  /** The fields at the head of `b` and what is behind them. */
  function DecodeFields(b: seq<byte>, ws: seq<nat>): (r: Option<(seq<nat>, seq<byte>)>)
    ensures r.Some? ==> |r.value.0| == |ws|
  {
    if ws == [] then Some(([], b))
    else if |b| < ws[0] then None
    else
      match DecodeFields(b[ws[0]..], ws[1..])
      case None => None
      case Some(p) => Some(([FromLe(b[..ws[0]])] + p.0, p.1))
  }

  predicate FitsWidths(vs: seq<nat>, ws: seq<nat>) {
    |vs| == |ws| && forall i :: 0 <= i < |vs| ==> vs[i] < Pow256(ws[i])
  }

  lemma {:induction false} FieldsRoundTrip(vs: seq<nat>, ws: seq<nat>, rest: seq<byte>)
    requires FitsWidths(vs, ws)
    ensures DecodeFields(EncodeFields(vs, ws) + rest, ws) == Some((vs, rest))
  {
    if vs == [] {
      Nothing(rest);
    } else {
      var head, tail := Le(vs[0], ws[0]), EncodeFields(vs[1..], ws[1..]);
      FieldsRoundTrip(vs[1..], ws[1..], rest);
      LeRoundTrip(vs[0], ws[0]);
      Assoc(head, tail, rest);
      Ahead(head, tail + rest);
      assert [vs[0]] + vs[1..] == vs;
    }
  }

  lemma Ahead(a: seq<byte>, b: seq<byte>)
    ensures (a + b)[..|a|] == a && (a + b)[|a|..] == b
  {
  }

  // ---------- the records ----------

  datatype Tag = InodeTag | NameTag | DataTag | ExtentTag | AttrTag

  datatype Record =
    | Inode(ino: nat, mode: nat, uid: nat, gid: nat, nlink: nat, size: nat, blocks: nat, generation: nat,
            atime: int, mtime: int, ctime: int, kind: byte, target: Option<seq<byte>>)
    | Name(parent: nat, child: nat, cookie: nat, kind: byte, name: seq<byte>)
    | Data(staged: B.Staged)
    | Extent(extent: E.Extent)
    | Attr(owner: nat, name: seq<byte>, value: seq<byte>)

  function TagOf(r: Record): Tag {
    match r
    case Inode(_, _, _, _, _, _, _, _, _, _, _, _, _) => InodeTag
    case Name(_, _, _, _, _) => NameTag
    case Data(_) => DataTag
    case Extent(_) => ExtentTag
    case Attr(_, _, _) => AttrTag
  }

  function Widths(t: Tag): seq<nat> {
    match t
    case InodeTag => [8, 4, 4, 4, 4, 8, 8, 8, 8, 8, 8, 1, 1, 2, 4]
    case NameTag => [8, 8, 4, 1, 2, 1]
    case DataTag => [8, 8, 4, 1, 1, 2]
    case ExtentTag => [8, 8, 8, 8, 1, 1, 2]
    case AttrTag => [8, 2, 4]
  }

  const I64_MIN: int := -0x8000_0000_0000_0000
  const I64_MAX: int := 0x7FFF_FFFF_FFFF_FFFF

  /** The two's-complement pattern of a 64-bit time. */
  function Unsigned(x: int): nat
    requires I64_MIN <= x <= I64_MAX
  {
    if x < 0 then x + U64_MAX + 1 else x
  }

  function Signed(u: nat): int { if u > I64_MAX then u - U64_MAX - 1 else u }

  function KindByte(k: E.Kind): nat { if k.Data? then 0 else 1 }

  /** What the engine's own types and invariants make sure of. */
  predicate Typed(r: Record) {
    match r
    case Inode(ino, mode, uid, gid, nlink, size, blocks, gen, at, mt, ct, _, _) =>
      && ino <= U64_MAX && mode <= U32_MAX && uid <= U32_MAX && gid <= U32_MAX && nlink <= U32_MAX
      && size <= U64_MAX && blocks <= U64_MAX && gen <= U64_MAX
      && I64_MIN <= at <= I64_MAX && I64_MIN <= mt <= I64_MAX && I64_MIN <= ct <= I64_MAX
    case Name(p, c, cookie, _, _) => p <= U64_MAX && c <= U64_MAX && cookie <= U32_MAX
    case Data(e) => e.ino <= U64_MAX && e.offset <= U64_MAX && 0 < e.len
    case Extent(e) => e.ino <= U64_MAX && e.start < e.end <= U64_MAX && e.phys <= U64_MAX
    case Attr(o, _, _) => o <= U64_MAX
  }

  /** Why the writer refuses a record. */
  function Refusal(r: Record): Option<Errno> {
    match r
    case Inode(_, _, _, _, _, _, _, _, _, _, _, _, target) =>
      if target.Some? && |target.value| > U16_MAX then Some(EOVERFLOW) else None
    case Name(_, _, _, _, name) => if |name| == 0 || |name| > 255 then Some(ENAMETOOLONG) else None
    case Data(e) =>
      if !e.zero && |e.data| < e.len then Some(EIO) else if e.len > U32_MAX then Some(EOVERFLOW) else None
    case Extent(_) => None
    case Attr(_, name, value) =>
      if |name| > U16_MAX || |value| > U32_MAX then Some(EOVERFLOW)
      else if |name| == 0 || |name| > 255 then Some(EINVAL)
      else if |value| > 65536 then Some(E2BIG)
      else None
  }

  predicate Writable(r: Record) { Typed(r) && Refusal(r).None? }

  function FieldsOf(r: Record): (vs: seq<nat>)
    requires Writable(r)
    ensures |vs| == |Widths(TagOf(r))|
  {
    match r
    case Inode(ino, mode, uid, gid, nlink, size, blocks, gen, at, mt, ct, kind, target) =>
      [ino, mode, uid, gid, nlink, size, blocks, gen, Unsigned(at), Unsigned(mt), Unsigned(ct), kind,
       if target.Some? then 1 else 0, if target.Some? then |target.value| else 0, 0]
    case Name(p, c, cookie, kind, name) => [p, c, cookie, kind, |name|, 0]
    case Data(e) => [e.ino, e.offset, e.len, if e.zero then 1 else 0, 0, 0]
    case Extent(e) => [e.ino, e.start, e.end, e.phys, KindByte(e.kind), 0, 0]
    case Attr(o, name, value) => [o, |name|, |value|]
  }

  function PayloadOf(r: Record): seq<byte>
    requires Writable(r)
  {
    match r
    case Inode(_, _, _, _, _, _, _, _, _, _, _, _, target) => if target.Some? then target.value else []
    case Name(_, _, _, _, name) => name
    case Data(e) => if e.zero then [] else e.data[..e.len]
    case Extent(_) => []
    case Attr(_, name, value) => name + value
  }

  function Encode(r: Record): seq<byte>
    requires Writable(r)
  {
    EncodeFields(FieldsOf(r), Widths(TagOf(r))) + PayloadOf(r)
  }

  /** The record that fields and the bytes behind them stand for, and what is left of the bytes. */
  function Build(t: Tag, vs: seq<nat>, b: seq<byte>): Option<(Record, seq<byte>)>
    requires |vs| == |Widths(t)|
  {
    match t
    case InodeTag =>
      var linked, len := vs[12] % 2 == 1, vs[13];
      if vs[11] > 255 || (linked && len > |b|) || (!linked && len != 0) then None
      else
        var r := Inode(vs[0], vs[1], vs[2], vs[3], vs[4], vs[5], vs[6], vs[7],
                       Signed(vs[8]), Signed(vs[9]), Signed(vs[10]), vs[11] as byte,
                       if linked then Some(b[..len]) else None);
        Some((r, if linked then b[len..] else b))
    case NameTag =>
      var len := vs[4];
      if vs[3] > 255 || len == 0 || len > 255 || len > |b| then None
      else Some((Name(vs[0], vs[1], vs[2], vs[3] as byte, b[..len]), b[len..]))
    case DataTag =>
      var len, zero := vs[2], vs[3] == 1;
      if vs[3] > 1 || len == 0 || (!zero && len > |b|) then None
      else if zero then Some((Data(B.Staged(vs[0], vs[1], len, [], true)), b))
      else Some((Data(B.Staged(vs[0], vs[1], len, b[..len], false)), b[len..]))
    case ExtentTag =>
      if vs[1] >= vs[2] || vs[4] > 1 then None
      else Some((Extent(Rebuilt(vs[0], vs[1], vs[2], vs[3], vs[4] == 0)), b))
    case AttrTag =>
      var n, m := vs[1], vs[2];
      if n == 0 || n > 255 || m > 65536 || n + m > |b| then None
      else Some((Attr(vs[0], b[..n], b[n..n + m]), b[n + m..]))
  }

  /** A loaded extent: only data has a physical place, and its reservation ends with the data. */
  function Rebuilt(ino: nat, start: nat, end: nat, phys: nat, data: bool): E.Extent
    requires start < end
  {
    if data then E.Extent(ino, start, end, phys, Min(phys + (end - start), U64_MAX), E.Data)
    else E.Extent(ino, start, end, 0, 0, E.Unwritten)
  }

  function Decode(t: Tag, b: seq<byte>): Option<(Record, seq<byte>)> {
    match DecodeFields(b, Widths(t))
    case None => None
    case Some(p) => Build(t, p.0, p.1)
  }

  /** What loading makes of a record that was written. */
  function Reloaded(r: Record): Record
    requires Writable(r)
  {
    match r
    case Data(e) => Data(e.(data := if e.zero then [] else e.data[..e.len]))
    case Extent(e) => Extent(Rebuilt(e.ino, e.start, e.end, e.phys, e.kind.Data?))
    case _ => r
  }

  lemma FieldsFit(r: Record)
    requires Writable(r)
    ensures FitsWidths(FieldsOf(r), Widths(TagOf(r)))
  {
    Powers();
  }

  lemma Powers()
    ensures Pow256(1) == 256 && Pow256(2) == U16_MAX + 1 && Pow256(4) == U32_MAX + 1 && Pow256(8) == U64_MAX + 1
  {
    assert Pow256(1) == 256 && Pow256(2) == 256 * 256;
    assert Pow256(3) == 256 * Pow256(2) && Pow256(4) == 256 * Pow256(3);
    assert Pow256(5) == 256 * Pow256(4) && Pow256(6) == 256 * Pow256(5);
    assert Pow256(7) == 256 * Pow256(6) && Pow256(8) == 256 * Pow256(7);
  }

  lemma AttrRoundTrip(r: Record, rest: seq<byte>)
    requires Writable(r) && r.Attr?
    ensures Build(AttrTag, FieldsOf(r), PayloadOf(r) + rest) == Some((r, rest))
  {
    var b := r.name + r.value + rest;
    Assoc(r.name, r.value, rest);
    Ahead(r.name, r.value + rest);
    Ahead(r.name + r.value, rest);
    assert b[|r.name|..|r.name| + |r.value|] == r.value;
  }

  lemma InodeRoundTrip(r: Record, rest: seq<byte>)
    requires Writable(r) && r.Inode?
    ensures Build(InodeTag, FieldsOf(r), PayloadOf(r) + rest) == Some((r, rest))
  {
    Ahead(PayloadOf(r), rest);
  }

  lemma DataRoundTrip(r: Record, rest: seq<byte>)
    requires Writable(r) && r.Data?
    ensures Build(DataTag, FieldsOf(r), PayloadOf(r) + rest) == Some((Reloaded(r), rest))
  {
    Ahead(PayloadOf(r), rest);
  }

  lemma NameRoundTrip(r: Record, rest: seq<byte>)
    requires Writable(r) && r.Name?
    ensures Build(NameTag, FieldsOf(r), PayloadOf(r) + rest) == Some((r, rest))
  {
    Ahead(PayloadOf(r), rest);
  }

  lemma ExtentRoundTrip(r: Record, rest: seq<byte>)
    requires Writable(r) && r.Extent?
    ensures Build(ExtentTag, FieldsOf(r), PayloadOf(r) + rest) == Some((Reloaded(r), rest))
  {
    Ahead(PayloadOf(r), rest);
  }

  lemma BuildRoundTrip(r: Record, rest: seq<byte>)
    requires Writable(r)
    ensures Build(TagOf(r), FieldsOf(r), PayloadOf(r) + rest) == Some((Reloaded(r), rest))
  {
    match TagOf(r) {
      case InodeTag => InodeRoundTrip(r, rest);
      case NameTag => NameRoundTrip(r, rest);
      case DataTag => DataRoundTrip(r, rest);
      case ExtentTag => ExtentRoundTrip(r, rest);
      case AttrTag => AttrRoundTrip(r, rest);
    }
  }

  /** Every record that is written reads back, whatever follows it. */
  lemma RecordRoundTrip(r: Record, rest: seq<byte>)
    requires Writable(r)
    ensures Decode(TagOf(r), Encode(r) + rest) == Some((Reloaded(r), rest))
  {
    FieldsFit(r);
    Assoc(EncodeFields(FieldsOf(r), Widths(TagOf(r))), PayloadOf(r), rest);
    FieldsRoundTrip(FieldsOf(r), Widths(TagOf(r)), PayloadOf(r) + rest);
    BuildRoundTrip(r, rest);
  }
}
