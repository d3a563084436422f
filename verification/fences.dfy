/** The page-cache fence ring: a fixed ring of recent invalidations, consulted through snapshots to
    decide whether data read earlier may still be published. */
module Fences {
  import opened Common

  const SLOTS: nat := 128
  const PAGE: nat := 4096
  const LLONG_MAX: nat := 0x7FFF_FFFF_FFFF_FFFF

  datatype Fence = Fence(ino: nat, start: int, end: int, generation: nat)

  predicate Overlap(aStart: int, aEnd: int, bStart: int, bEnd: int) { aStart < bEnd && bStart < aEnd }

  predicate Over(f: Fence, ino: nat, start: int, end: int) { f.ino == ino && Overlap(start, end, f.start, f.end) }

  // ---------- page spans ----------

  function RangeEnd(pos: int, len: nat): int {
    if len == 0 || pos < 0 then pos
    else if len > LLONG_MAX || pos > LLONG_MAX - len then LLONG_MAX
    else pos + len
  }

  function PageStart(pos: int): int { pos - pos % PAGE }

  function PageEnd(pos: int, len: nat): int {
    var end := RangeEnd(pos, len);
    if end > LLONG_MAX - (PAGE - 1) then LLONG_MAX else PageStart(end + PAGE - 1)
  }

  /** A call with nothing to fence. */
  predicate Idle(pos: int, len: nat) { len == 0 || pos < 0 || PageEnd(pos, len) <= PageStart(pos) }

  predicate Touches(pos: int, len: nat, x: int) { pos <= x < pos + len }

  /** The span covers every byte of the range that a file offset can name. */
  lemma SpanCovers(pos: int, len: nat, x: int)
    requires 0 <= pos && Touches(pos, len, x) && x < LLONG_MAX
    ensures PageStart(pos) <= x < PageEnd(pos, len) && !Idle(pos, len)
  {
  }

  /** A byte of the range that a file offset can name. */
  predicate ByteOf(pos: int, len: nat, x: int) { Touches(pos, len, x) && x < LLONG_MAX }

  /** Spans overlap exactly when some page holds bytes of both ranges. */
  lemma SpansShareAPage(pos: int, len: nat, pos': int, len': nat)
    requires 0 <= pos < LLONG_MAX && 0 < len && 0 <= pos' < LLONG_MAX && 0 < len'
    ensures Overlap(PageStart(pos), PageEnd(pos, len), PageStart(pos'), PageEnd(pos', len'))
       <==> exists x, y :: ByteOf(pos, len, x) && ByteOf(pos', len', y) && PageStart(x) == PageStart(y)
  {
    if Overlap(PageStart(pos), PageEnd(pos, len), PageStart(pos'), PageEnd(pos', len')) {
      var p := Max(PageStart(pos), PageStart(pos'));
      var x, y := Max(p, pos), Max(p, pos');
      InSpan(pos, len, p);
      InSpan(pos', len', p);
      assert ByteOf(pos, len, x) && ByteOf(pos', len', y) && PageStart(x) == PageStart(y);
    }
    if x, y :| ByteOf(pos, len, x) && ByteOf(pos', len', y) && PageStart(x) == PageStart(y) {
      PageOf(pos, len, x);
      PageOf(pos', len', y);
    }
  }

  /** A page inside the span holds a byte of the range. */
  lemma InSpan(pos: int, len: nat, p: int)
    requires 0 <= pos < LLONG_MAX && 0 < len
    requires p % PAGE == 0 && PageStart(pos) <= p < PageEnd(pos, len)
    ensures ByteOf(pos, len, Max(p, pos)) && PageStart(Max(p, pos)) == p
  {
  }

  lemma PageOf(pos: int, len: nat, x: int)
    requires 0 <= pos < LLONG_MAX && ByteOf(pos, len, x)
    ensures PageStart(pos) <= PageStart(x) < PageEnd(pos, len)
  {
    SpanCovers(pos, len, x);
  }

  // ---------- the reference: every fence ever raised ----------

  /** Generations are given out in order, the first one being 2. */
  ghost predicate InOrder(h: seq<Fence>) {
    forall i :: 0 <= i < |h| ==> h[i].generation == i + 2
  }

  /** The generation of the last fence over a span, 0 if there is none. */
  function Latest(h: seq<Fence>, ino: nat, start: int, end: int): nat {
    if h == [] then 0
    else if Over(h[|h| - 1], ino, start, end) then h[|h| - 1].generation
    else Latest(h[..|h| - 1], ino, start, end)
  }

  lemma {:induction false} LatestIs(h: seq<Fence>, ino: nat, start: int, end: int)
    requires InOrder(h)
    ensures Latest(h, ino, start, end) <= |h| + 1
    ensures forall i :: 0 <= i < |h| && Over(h[i], ino, start, end) ==> h[i].generation <= Latest(h, ino, start, end)
    ensures Latest(h, ino, start, end) > 0 ==>
              exists i :: 0 <= i < |h| && Over(h[i], ino, start, end) && h[i].generation == Latest(h, ino, start, end)
  {
    if h != [] && !Over(h[|h| - 1], ino, start, end) {
      LatestIs(h[..|h| - 1], ino, start, end);
    }
  }

  /** What a snapshot reads: the last fence over the span while the ring still holds every fence, and the
      last fence of all once it has had to drop one. */
  function Reading(h: seq<Fence>, ino: nat, start: int, end: int): nat {
    if |h| <= SLOTS then Latest(h, ino, start, end) else |h| + 1
  }

  /** A snapshot stays current exactly while nothing over its span has been raised; after the ring has
      overflowed, exactly while nothing has been raised at all. */
  lemma CurrentIff(h: seq<Fence>, more: seq<Fence>, ino: nat, start: int, end: int)
    requires InOrder(h + more)
    ensures Reading(h + more, ino, start, end) == Reading(h, ino, start, end)
       <==> more == [] || (|h + more| <= SLOTS && forall f :: f in more ==> !Over(f, ino, start, end))
  {
    var all := h + more;
    assert InOrder(h) by { assert forall i :: 0 <= i < |h| ==> all[i] == h[i]; }
    LatestIs(h, ino, start, end);
    LatestIs(all, ino, start, end);
    if more == [] {
      assert all == h;
    } else if |all| <= SLOTS {
      if f :| f in more && Over(f, ino, start, end) {
        var i :| 0 <= i < |more| && more[i] == f;
        assert all[|h| + i] == f;
      } else {
        LatestSkips(h, more, ino, start, end);
      }
    }
  }

  lemma {:induction false} LatestSkips(h: seq<Fence>, more: seq<Fence>, ino: nat, start: int, end: int)
    requires forall f :: f in more ==> !Over(f, ino, start, end)
    ensures Latest(h + more, ino, start, end) == Latest(h, ino, start, end)
    decreases |more|
  {
    if more == [] {
      assert h + more == h;
    } else {
      var less := more[..|more| - 1];
      LatestSkips(h, less, ino, start, end);
      assert (h + more)[..|h + more| - 1] == h + less;
    }
  }

  /** Safety, with no condition on the ring: once a fence over the span has been raised, no earlier snapshot
      of the span is current again. */
  lemma NeverCurrentAgain(h: seq<Fence>, more: seq<Fence>, ino: nat, start: int, end: int, f: Fence)
    requires InOrder(h + more) && f in more && Over(f, ino, start, end)
    ensures Reading(h + more, ino, start, end) != Reading(h, ino, start, end)
  {
    CurrentIff(h, more, ino, start, end);
  }

  /** Readings only grow. */
  lemma ReadingGrows(h: seq<Fence>, more: seq<Fence>, ino: nat, start: int, end: int)
    requires InOrder(h + more)
    ensures Reading(h, ino, start, end) <= Reading(h + more, ino, start, end)
  {
    var all := h + more;
    assert InOrder(h) by { assert forall i :: 0 <= i < |h| ==> all[i] == h[i]; }
    LatestIs(h, ino, start, end);
    LatestIs(all, ino, start, end);
    if Latest(h, ino, start, end) > 0 {
      var i :| 0 <= i < |h| && Over(h[i], ino, start, end) && h[i].generation == Latest(h, ino, start, end);
      assert all[i] == h[i];
    }
  }

  // ---------- the ring ----------

  /** The ring holds the last `SLOTS` fences, each in its slot, and blanks where none has been yet. */
  ghost predicate RingHolds(ring: seq<Fence>, h: seq<Fence>) {
    && |ring| == SLOTS
    && (forall i :: Monus(|h|, SLOTS) <= i < |h| ==> ring[i % SLOTS] == h[i])
    && (forall j :: |h| <= j < SLOTS ==> ring[j].generation == 0)
  }

  lemma RingStep(ring: seq<Fence>, h: seq<Fence>, f: Fence)
    requires RingHolds(ring, h)
    ensures RingHolds(ring[|h| % SLOTS := f], h + [f])
  {
    var ring', h' := ring[|h| % SLOTS := f], h + [f];
    forall i | Monus(|h'|, SLOTS) <= i < |h'| ensures ring'[i % SLOTS] == h'[i] {
      if i < |h| { OtherSlot(i, |h|); }
    }
  }

  lemma OtherSlot(i: nat, n: nat)
    requires n - SLOTS < i < n
    ensures i % SLOTS != n % SLOTS
  {
  }

  /** The slot about to be used is in use exactly when the ring is full. */
  lemma SlotInUse(ring: seq<Fence>, h: seq<Fence>)
    requires RingHolds(ring, h) && InOrder(h)
    ensures ring[|h| % SLOTS].generation != 0 <==> |h| >= SLOTS
  {
    if |h| >= SLOTS {
      var i := |h| - SLOTS;
      assert i % SLOTS == |h| % SLOTS;
      assert ring[i % SLOTS] == h[i];
    }
  }

  /** The 32-bit cursor counts the fences modulo its width, which is a multiple of the ring. */
  lemma CursorSlot(n: nat)
    ensures n % (U32_MAX + 1) % SLOTS == n % SLOTS
  {
    var q, m := n / (U32_MAX + 1), n % (U32_MAX + 1);
    assert n == 128 * (q * 33554432) + m;
    SameSlot(q * 33554432, m);
  }

  lemma SameSlot(k: nat, m: nat)
    ensures (128 * k + m) % 128 == m % 128
  {
  }

  class FenceRing {
    var generation: nat
    var overflow: nat
    var cursor: nat
    const slots: array<Fence>

    /** Every fence raised so far. */
    ghost var history: seq<Fence>

    ghost predicate Valid()
      reads this, slots
    {
      && slots.Length == SLOTS && InOrder(history)
      && generation == |history| + 1 <= U64_MAX
      && cursor == |history| % (U32_MAX + 1)
      && overflow == (if |history| > SLOTS then generation else 0)
      && RingHolds(slots[..], history)
    }

    constructor ()
      ensures Valid() && history == [] && fresh(slots)
    {
      generation := 1;
      overflow := 0;
      cursor := 0;
      slots := new Fence[SLOTS](_ => Fence(0, 0, 0, 0));
      history := [];
    }

    method Raise(ino: nat, pos: int, len: nat) returns (r: nat)
      requires Valid() && generation < U64_MAX
      modifies this, slots
      ensures Valid()
      ensures Idle(pos, len) ==> r == 0 && history == old(history)
      ensures !Idle(pos, len) ==> history == old(history) + [Fence(ino, PageStart(pos), PageEnd(pos, len), r)]
      ensures !Idle(pos, len) ==> r == generation == old(generation) + 1
    {
      if len == 0 || pos < 0 { return 0; }
      var start, end := PageStart(pos), PageEnd(pos, len);
      if end <= start { return 0; }
      // a generation that wraps to 0 is stepped once more
      generation := Max((generation + 1) % (U64_MAX + 1), 1);
      r := generation;
      var slot := TakeSlot();
      StoreFence(slot, Fence(ino, start, end, generation));
    }

    /** The fence takes its slot; a fence it pushes out makes every older snapshot stale. */
    method StoreFence(slot: nat, f: Fence)
      requires slots.Length == SLOTS && InOrder(history) && f.generation == generation == |history| + 2
      requires overflow == (if |history| > SLOTS then |history| + 1 else 0)
      requires RingHolds(slots[..], history) && slot == |history| % SLOTS
      modifies this`overflow, this`history, slots
      ensures history == old(history) + [f] && InOrder(history) && RingHolds(slots[..], history)
      ensures overflow == (if |history| > SLOTS then |history| + 1 else 0)
    {
      SlotInUse(slots[..], history);
      RingStep(slots[..], history, f);
      if slots[slot].generation != 0 && overflow < generation {
        overflow := generation;
      }
      slots[slot] := f;
      history := history + [f];
    }

    method TakeSlot() returns (slot: nat)
      requires cursor == |history| % (U32_MAX + 1)
      modifies this`cursor
      ensures slot == |history| % SLOTS && cursor == (|history| + 1) % (U32_MAX + 1)
    {
      CursorSlot(|history|);
      slot := cursor % SLOTS;
      cursor := (cursor + 1) % (U32_MAX + 1);
    }

    method Snapshot(ino: nat, pos: int, len: nat) returns (r: nat)
      requires Valid()
      ensures r == if Idle(pos, len) then 0 else Reading(history, ino, PageStart(pos), PageEnd(pos, len))
    {
      if len == 0 || pos < 0 { return 0; }
      var start, end := PageStart(pos), PageEnd(pos, len);
      if end <= start { return 0; }
      LatestIs(history, ino, start, end);
      r := overflow;
      ghost var best := -1;
      for i := 0 to SLOTS
        invariant overflow <= r
        invariant r > overflow ==> 0 <= best < i && slots[best].generation == r && Over(slots[best], ino, start, end)
        invariant forall j ::
                    0 <= j < i && slots[j].generation != 0 && Over(slots[j], ino, start, end) ==>
                    slots[j].generation <= r
      {
        if slots[i].generation == 0 || slots[i].ino != ino { continue; }
        if !Overlap(start, end, slots[i].start, slots[i].end) { continue; }
        if slots[i].generation > r { best := i; }
        r := Max(r, slots[i].generation);
      }
      ReadRing(ino, start, end, r, best);
    }

    /** The largest generation in the ring is the reading. */
    lemma ReadRing(ino: nat, start: int, end: int, r: nat, best: int)
      requires Valid() && overflow <= r
      requires r > overflow ==> 0 <= best < SLOTS && slots[best].generation == r && Over(slots[best], ino, start, end)
      requires forall j ::
                 0 <= j < SLOTS && slots[j].generation != 0 && Over(slots[j], ino, start, end) ==>
                 slots[j].generation <= r
      ensures r == Reading(history, ino, start, end)
    {
      var n := |history|;
      LatestIs(history, ino, start, end);
      if n <= SLOTS {
        assert forall i :: 0 <= i < n ==> i % SLOTS == i && slots[..][i % SLOTS] == history[i];
        assert forall i :: 0 <= i < n ==> slots[i] == history[i];
      } else if 0 <= best < SLOTS {
        var i := IndexIn(n, best);
        assert slots[..][i % SLOTS] == history[i];
      }
    }

    method StillCurrent(ino: nat, pos: int, len: nat, snapshot: nat) returns (r: bool)
      requires Valid()
      ensures !Idle(pos, len) ==> r == (Reading(history, ino, PageStart(pos), PageEnd(pos, len)) == snapshot)
    {
      var now := Snapshot(ino, pos, len);
      r := now == snapshot;
    }
  }

  /** Which of the last `SLOTS` fences sits in a slot. */
  lemma IndexIn(n: nat, slot: int) returns (i: nat)
    requires n >= SLOTS && 0 <= slot < SLOTS
    ensures n - SLOTS <= i < n && i % SLOTS == slot
  {
    i := n - 1 - (n - 1 - slot) % SLOTS;
  }

  // ---------- a reader against any sequence of invalidations ----------

  datatype Invalidation = Invalidation(ino: nat, pos: int, len: nat)

  predicate From(f: Fence, e: Invalidation) {
    f.ino == e.ino && f.start == PageStart(e.pos) && f.end == PageEnd(e.pos, e.len)
  }

  /** A reader takes a snapshot, any number of invalidations happen, and the reader asks whether it may
      publish what it read: it may not if one of them touched a page of its range. */
  method ReadThenPublish(ring: FenceRing, ino: nat, pos: int, len: nat, events: seq<Invalidation>)
    returns (publish: bool)
    requires ring.Valid() && ring.generation + |events| <= U64_MAX && !Idle(pos, len)
    modifies ring, ring.slots
    ensures ring.Valid()
    ensures publish ==> forall e :: e in events && e.ino == ino && !Idle(e.pos, e.len) ==>
              !Overlap(PageStart(pos), PageEnd(pos, len), PageStart(e.pos), PageEnd(e.pos, e.len))
    ensures publish <== (forall e :: e in events ==> Idle(e.pos, e.len))
    ensures publish <== |ring.history| <= SLOTS && forall e :: e in events ==>
              Idle(e.pos, e.len) || e.ino != ino
              || !Overlap(PageStart(pos), PageEnd(pos, len), PageStart(e.pos), PageEnd(e.pos, e.len))
  {
    ghost var h := ring.history;
    ghost var more: seq<Fence> := [];
    var start, end := PageStart(pos), PageEnd(pos, len);
    var snapshot := ring.Snapshot(ino, pos, len);
    for i := 0 to |events|
      invariant ring.Valid() && ring.history == h + more && ring.generation <= old(ring.generation) + i
      invariant forall e :: e in events[..i] && !Idle(e.pos, e.len) ==>
                  exists f :: f in more && From(f, e)
      invariant forall f :: f in more ==> exists e :: e in events[..i] && !Idle(e.pos, e.len) && From(f, e)
    {
      var e := events[i];
      assert events[..i + 1] == events[..i] + [e];
      var r := ring.Raise(e.ino, e.pos, e.len);
      if !Idle(e.pos, e.len) {
        ghost var f := Fence(e.ino, PageStart(e.pos), PageEnd(e.pos, e.len), r);
        assert From(f, e) && f in more + [f];
        more := more + [f];
      }
    }
    assert events[..|events|] == events;
    CurrentIff(h, more, ino, start, end);
    assert more == [] || more[0] in more;
    publish := ring.StillCurrent(ino, pos, len, snapshot);
  }
}
