/** The parts of a namespace snapshot: lists of records, sections, and attribute stores. */
module SnapshotParts {
  import opened Common
  import opened Wire
  import opened SnapshotCodec

  // ---------- lists of records ----------

  ghost predicate AllWritable(rs: seq<Record>, t: Tag) {
    forall r :: r in rs ==> Writable(r) && TagOf(r) == t
  }

  function EncodeMany(rs: seq<Record>): seq<byte>
    requires forall r :: r in rs ==> Writable(r)
  {
    if rs == [] then [] else Encode(rs[0]) + EncodeMany(rs[1..])
  }

  function ReloadMany(rs: seq<Record>): (s: seq<Record>)
    requires forall r :: r in rs ==> Writable(r)
    ensures |s| == |rs| && forall i :: 0 <= i < |rs| ==> s[i] == Reloaded(rs[i])
  {
    if rs == [] then [] else [Reloaded(rs[0])] + ReloadMany(rs[1..])
  }

  function DecodeMany(t: Tag, b: seq<byte>, n: nat): (r: Option<(seq<Record>, seq<byte>)>)
    decreases n
  {
    if n == 0 then Some(([], b))
    else
      match Decode(t, b)
      case None => None
      case Some(p) =>
        match DecodeMany(t, p.1, n - 1)
        case None => None
        case Some(q) => Some(([p.0] + q.0, q.1))
  }

  lemma {:induction false} ManyRoundTrip(t: Tag, rs: seq<Record>, rest: seq<byte>)
    requires AllWritable(rs, t)
    ensures DecodeMany(t, EncodeMany(rs) + rest, |rs|) == Some((ReloadMany(rs), rest))
  {
    if rs == [] {
      Nothing(rest);
    } else {
      assert rs[0] in rs;
      ManyRoundTrip(t, rs[1..], rest);
      Assoc(Encode(rs[0]), EncodeMany(rs[1..]), rest);
      RecordRoundTrip(rs[0], EncodeMany(rs[1..]) + rest);
    }
  }

  /** What is left is the end of what there was. */
  ghost predicate EndOf(rest: seq<byte>, b: seq<byte>) { |rest| <= |b| && rest == b[|b| - |rest|..] }

  lemma EndOfEnd(c: seq<byte>, b: seq<byte>, a: seq<byte>)
    requires EndOf(c, b) && EndOf(b, a)
    ensures EndOf(c, a)
  {
  }

  lemma EndAt(b: seq<byte>, i: nat)
    requires i <= |b|
    ensures EndOf(b[i..], b)
  {
  }

  lemma {:induction false} FieldsLeave(b: seq<byte>, ws: seq<nat>)
    ensures DecodeFields(b, ws).Some? ==> EndOf(DecodeFields(b, ws).value.1, b)
    decreases |ws|
  {
    if ws != [] && |b| >= ws[0] {
      FieldsLeave(b[ws[0]..], ws[1..]);
      EndAt(b, ws[0]);
      if DecodeFields(b, ws).Some? {
        EndOfEnd(DecodeFields(b, ws).value.1, b[ws[0]..], b);
      }
    }
  }

  lemma DecodeLeaves(t: Tag, b: seq<byte>)
    ensures Decode(t, b).Some? ==> EndOf(Decode(t, b).value.1, b)
  {
    FieldsLeave(b, Widths(t));
    if Decode(t, b).Some? {
      var p := DecodeFields(b, Widths(t)).value;
      var rest := Decode(t, b).value.1;
      assert EndOf(rest, p.1);
      EndOfEnd(rest, p.1, b);
    }
  }

  lemma {:induction false} ManyLeaves(t: Tag, b: seq<byte>, n: nat)
    ensures DecodeMany(t, b, n).Some? ==> EndOf(DecodeMany(t, b, n).value.1, b)
    decreases n
  {
    if n > 0 && DecodeMany(t, b, n).Some? {
      DecodeLeaves(t, b);
      ManyLeaves(t, Decode(t, b).value.1, n - 1);
      EndOfEnd(DecodeMany(t, b, n).value.1, Decode(t, b).value.1, b);
    }
  }

  // ---------- sections ----------

  function SectionId(t: Tag): byte { if t.DataTag? then 1 else if t.AttrTag? then 2 else 3 }

  function EncodeSection(t: Tag, rs: seq<Record>): seq<byte>
    requires forall r :: r in rs ==> Writable(r)
  {
    if rs == [] then [] else [SectionId(t)] + (Le(|rs|, 4) + EncodeMany(rs))
  }

  datatype Parts = Parts(data: seq<Record>, extents: seq<Record>, attrs: seq<Record>)

  function AddTo(p: Parts, t: Tag, rs: seq<Record>): Parts {
    match t
    case DataTag => p.(data := p.data + rs)
    case ExtentTag => p.(extents := p.extents + rs)
    case AttrTag => p.(attrs := p.attrs + rs)
    case _ => p
  }

  function TagFor(id: byte): Option<Tag> {
    if id == 1 then Some(DataTag) else if id == 2 then Some(AttrTag) else if id == 3 then Some(ExtentTag) else None
  }

  /** One section: its records and what follows. */
  function DecodeSection(b: seq<byte>): Option<(Tag, seq<Record>, seq<byte>)> {
    if |b| < 5 || TagFor(b[0]).None? then None
    else
      var t := TagFor(b[0]).value;
      match DecodeMany(t, b[5..], FromLe(b[1..5]))
      case None => None
      case Some(p) => Some((t, p.0, p.1))
  }

  lemma SectionLeaves(b: seq<byte>)
    ensures DecodeSection(b).Some? ==> EndOf(DecodeSection(b).value.2, b) && |DecodeSection(b).value.2| < |b|
  {
    if DecodeSection(b).Some? {
      ManyLeaves(TagFor(b[0]).value, b[5..], FromLe(b[1..5]));
      EndAt(b, 5);
      EndOfEnd(DecodeSection(b).value.2, b[5..], b);
    }
  }

  function DecodeSections(b: seq<byte>, parts: Parts): Option<Parts>
    decreases |b|
  {
    if b == [] then Some(parts)
    else
      SectionLeaves(b);
      match DecodeSection(b)
      case None => None
      case Some(s) => DecodeSections(s.2, AddTo(parts, s.0, s.1))
  }

  lemma SectionHead(id: byte, count: seq<byte>, more: seq<byte>)
    requires |count| == 4
    ensures var b := [id] + (count + more); |b| >= 5 && b[0] == id && b[1..5] == count && b[5..] == more
  {
  }

  lemma CountRoundTrip(n: nat)
    requires n <= U32_MAX
    ensures FromLe(Le(n, 4)) == n
  {
    Powers();
    LeRoundTrip(n, 4);
  }

  lemma Regrouped(a: seq<byte>, b: seq<byte>, c: seq<byte>, d: seq<byte>)
    ensures a + (b + c) + d == a + (b + (c + d))
  {
  }

  lemma SectionBytes(t: Tag, rs: seq<Record>, rest: seq<byte>)
    requires AllWritable(rs, t) && rs != []
    ensures var b := EncodeSection(t, rs) + rest;
            |b| >= 5 && b[0] == SectionId(t) && b[1..5] == Le(|rs|, 4) && b[5..] == EncodeMany(rs) + rest
  {
    Regrouped([SectionId(t)], Le(|rs|, 4), EncodeMany(rs), rest);
    SectionHead(SectionId(t), Le(|rs|, 4), EncodeMany(rs) + rest);
  }

  lemma SectionFrom(t: Tag, b: seq<byte>, n: nat, more: seq<byte>, rs: seq<Record>, rest: seq<byte>)
    requires t.DataTag? || t.ExtentTag? || t.AttrTag?
    requires |b| >= 5 && b[0] == SectionId(t) && FromLe(b[1..5]) == n && b[5..] == more
    requires DecodeMany(t, more, n) == Some((rs, rest))
    ensures DecodeSection(b) == Some((t, rs, rest))
  {
  }

  lemma OneSection(t: Tag, rs: seq<Record>, rest: seq<byte>)
    requires t.DataTag? || t.ExtentTag? || t.AttrTag?
    requires AllWritable(rs, t) && 0 < |rs| <= U32_MAX
    ensures DecodeSection(EncodeSection(t, rs) + rest) == Some((t, ReloadMany(rs), rest))
  {
    SectionBytes(t, rs, rest);
    CountRoundTrip(|rs|);
    ManyRoundTrip(t, rs, rest);
    SectionFrom(t, EncodeSection(t, rs) + rest, |rs|, EncodeMany(rs) + rest, ReloadMany(rs), rest);
  }

  lemma SectionRoundTrip(t: Tag, rs: seq<Record>, rest: seq<byte>, parts: Parts)
    requires t.DataTag? || t.ExtentTag? || t.AttrTag?
    requires AllWritable(rs, t) && |rs| <= U32_MAX
    ensures DecodeSections(EncodeSection(t, rs) + rest, parts) == DecodeSections(rest, AddTo(parts, t, ReloadMany(rs)))
  {
    if rs == [] {
      Nothing(rest);
      Nothing(parts.data);
      Nothing(parts.extents);
      Nothing(parts.attrs);
    } else {
      OneSection(t, rs, rest);
    }
  }

  // ---------- extended attributes ----------

  datatype Store = Store(owner: nat, attrs: seq<(seq<byte>, seq<byte>)>)

  function AttrRecords(owner: nat, attrs: seq<(seq<byte>, seq<byte>)>): (rs: seq<Record>)
    ensures |rs| == |attrs| && forall i :: 0 <= i < |attrs| ==> rs[i] == Attr(owner, attrs[i].0, attrs[i].1)
  {
    seq(|attrs|, i requires 0 <= i < |attrs| => Attr(owner, attrs[i].0, attrs[i].1))
  }

  function StoreRecords(stores: seq<Store>, live: set<nat>): seq<Record> {
    if stores == [] then []
    else
      var n := |stores| - 1;
      StoreRecords(stores[..n], live)
      + (if stores[n].owner in live then AttrRecords(stores[n].owner, stores[n].attrs) else [])
  }

  /** The attribute goes to the first store of its owner, or to a new one. */
  function AddAttr(stores: seq<Store>, r: Record): seq<Store> {
    if !r.Attr? then stores
    else if stores == [] then [Store(r.owner, [(r.name, r.value)])]
    else if stores[0].owner == r.owner then [Store(r.owner, stores[0].attrs + [(r.name, r.value)])] + stores[1..]
    else [stores[0]] + AddAttr(stores[1..], r)
  }

  function Regroup(rs: seq<Record>): seq<Store> {
    if rs == [] then [] else AddAttr(Regroup(rs[..|rs| - 1]), rs[|rs| - 1])
  }

  ghost predicate OneStoreEach(stores: seq<Store>) {
    forall i, j :: 0 <= i < j < |stores| ==> stores[i].owner != stores[j].owner
  }

  /** The stores that hold something for a live inode. */
  function Kept(stores: seq<Store>, live: set<nat>): seq<Store> {
    if stores == [] then []
    else
      var n := |stores| - 1;
      Kept(stores[..n], live) + (if stores[n].owner in live && stores[n].attrs != [] then [stores[n]] else [])
  }

  lemma {:induction false} AddToLast(stores: seq<Store>, last: Store, name: seq<byte>, value: seq<byte>)
    requires forall s :: s in stores ==> s.owner != last.owner
    ensures AddAttr(stores + [last], Attr(last.owner, name, value))
              == stores + [last.(attrs := last.attrs + [(name, value)])]
  {
    var r := Attr(last.owner, name, value);
    if stores != [] {
      assert stores[0] in stores;
      AddToLast(stores[1..], last, name, value);
      assert (stores + [last])[1..] == stores[1..] + [last];
    }
  }

  lemma {:induction false} AddNew(stores: seq<Store>, owner: nat, name: seq<byte>, value: seq<byte>)
    requires forall s :: s in stores ==> s.owner != owner
    ensures AddAttr(stores, Attr(owner, name, value)) == stores + [Store(owner, [(name, value)])]
  {
    if stores != [] {
      assert stores[0] in stores;
      AddNew(stores[1..], owner, name, value);
    }
  }

  lemma RegroupLast(rs: seq<Record>, owner: nat, attrs: seq<(seq<byte>, seq<byte>)>)
    requires attrs != []
    ensures var n := |attrs| - 1;
            Regroup(rs + AttrRecords(owner, attrs))
            == AddAttr(Regroup(rs + AttrRecords(owner, attrs[..n])), Attr(owner, attrs[n].0, attrs[n].1))
  {
    var n := |attrs| - 1;
    var all := rs + AttrRecords(owner, attrs);
    assert all[..|all| - 1] == rs + AttrRecords(owner, attrs[..n])
             && all[|all| - 1] == Attr(owner, attrs[n].0, attrs[n].1);
  }

  /** Attributes of one new owner, read one after another, make one store. */
  lemma {:induction false} RegroupOne(rs: seq<Record>, owner: nat, attrs: seq<(seq<byte>, seq<byte>)>)
    requires (forall s :: s in Regroup(rs) ==> s.owner != owner) && attrs != []
    ensures Regroup(rs + AttrRecords(owner, attrs)) == Regroup(rs) + [Store(owner, attrs)]
    decreases |attrs|
  {
    var n := |attrs| - 1;
    RegroupLast(rs, owner, attrs);
    if n == 0 {
      assert rs + AttrRecords(owner, attrs[..n]) == rs;
      AddNew(Regroup(rs), owner, attrs[0].0, attrs[0].1);
      assert attrs == [(attrs[0].0, attrs[0].1)];
    } else {
      RegroupOne(rs, owner, attrs[..n]);
      AddToLast(Regroup(rs), Store(owner, attrs[..n]), attrs[n].0, attrs[n].1);
      assert attrs[..n] + [(attrs[n].0, attrs[n].1)] == attrs;
    }
  }

  lemma {:induction false} KeptAreThere(stores: seq<Store>, live: set<nat>)
    ensures forall s :: s in Kept(stores, live) ==> s in stores
  {
    if stores != [] {
      KeptAreThere(stores[..|stores| - 1], live);
    }
  }

  /** Writing the stores out attribute by attribute and grouping them again gives back every store that
      held something for a live inode. */
  lemma {:induction false} RegroupStores(stores: seq<Store>, live: set<nat>)
    requires OneStoreEach(stores)
    ensures Regroup(StoreRecords(stores, live)) == Kept(stores, live)
  {
    if stores != [] {
      var n := |stores| - 1;
      RegroupStores(stores[..n], live);
      KeptAreThere(stores[..n], live);
      assert forall s :: s in stores[..n] ==> s.owner != stores[n].owner;
      if stores[n].owner in live && stores[n].attrs != [] {
        RegroupOne(StoreRecords(stores[..n], live), stores[n].owner, stores[n].attrs);
      } else {
        Nothing(StoreRecords(stores[..n], live));
        Nothing(Kept(stores[..n], live));
      }
    }
  }
}
