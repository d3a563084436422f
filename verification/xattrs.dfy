/** Extended attributes and their write-ahead intents. */
module Xattrs {
  import opened Common
  import opened Wire
  import opened Pool
  import opened IntentRecords
  import opened IntentLog

  type Value = seq<byte>
  type Attrs = seq<(Name, Value)>

  const MAX_VALUE: nat := 65536

  const SECURITY: Name := [115, 101, 99, 117, 114, 105, 116, 121, 46]
  const SYSTEM: Name := [115, 121, 115, 116, 101, 109, 46]
  const TRUSTED: Name := [116, 114, 117, 115, 116, 101, 100, 46]
  const USER: Name := [117, 115, 101, 114, 46]

  predicate KnownPrefix(name: Name) { SECURITY <= name || SYSTEM <= name || TRUSTED <= name || USER <= name }

  function NamespaceByte(name: Name): byte {
    if SECURITY <= name then 1 else if SYSTEM <= name then 2 else if TRUSTED <= name then 3 else 4
  }

  function Lookup(attrs: Attrs, name: Name): Option<Value> {
    if attrs == [] then None else if attrs[0].0 == name then Some(attrs[0].1) else Lookup(attrs[1..], name)
  }

  function Without(attrs: Attrs, name: Name): Attrs {
    if attrs == [] then []
    else if attrs[0].0 == name then Without(attrs[1..], name)
    else [attrs[0]] + Without(attrs[1..], name)
  }

  function Of(stores: map<nat, Attrs>, ino: nat): Attrs { if ino in stores then stores[ino] else [] }

  function Get(stores: map<nat, Attrs>, ino: nat, name: Name): Option<Value> { Lookup(Of(stores, ino), name) }

  lemma {:induction false} LookupWithout(attrs: Attrs, name: Name, n: Name)
    ensures Lookup(Without(attrs, name), n) == if n == name then None else Lookup(attrs, n)
  {
    if attrs != [] {
      LookupWithout(attrs[1..], name, n);
    }
  }

  lemma {:induction false} LookupAppend(attrs: Attrs, name: Name, value: Value, n: Name)
    ensures Lookup(attrs + [(name, value)], n)
         == if Lookup(attrs, n).Some? then Lookup(attrs, n) else if n == name then Some(value) else None
  {
    if attrs != [] {
      LookupAppend(attrs[1..], name, value, n);
      assert (attrs + [(name, value)])[1..] == attrs[1..] + [(name, value)];
    }
  }

  /** What happens to the attributes: an intent goes into the log, or an inode's store goes with its record, which
      leaves nothing in the log. */
  datatype Event = Logged(op: Intent) | Forgotten(ino: nat)

  function OpsOf(events: seq<Event>): seq<Intent> {
    if events == [] then []
    else
      var rest, last := OpsOf(events[..|events| - 1]), events[|events| - 1];
      if last.Logged? then rest + [last.op] else rest
  }

  /** What an event makes of the value of a name. */
  function Applied(e: Event, ino: nat, name: Name, was: Option<Value>): Option<Value> {
    match e
    case Forgotten(i) => if i == ino then None else was
    case Logged(op) =>
      if op.SetXattr? && op.ino == ino && op.name == name then Some(op.value)
      else if op.RemoveXattr? && op.ino == ino && op.name == name then None
      else was
  }

  /** What a name holds once the events have happened in order to the starting attributes. */
  function Replay(start: map<nat, Attrs>, events: seq<Event>, ino: nat, name: Name): Option<Value> {
    if events == [] then Get(start, ino, name)
    else Applied(events[|events| - 1], ino, name, Replay(start, events[..|events| - 1], ino, name))
  }

  ghost predicate Caught(start: map<nat, Attrs>, events: seq<Event>, stores: map<nat, Attrs>) {
    forall ino, name :: Get(stores, ino, name) == Replay(start, events, ino, name)
  }

  lemma CaughtOne(start: map<nat, Attrs>, events: seq<Event>, stores: map<nat, Attrs>, e: Event,
                  stores': map<nat, Attrs>)
    requires Caught(start, events, stores)
    requires forall ino, name :: Get(stores', ino, name) == Applied(e, ino, name, Get(stores, ino, name))
    ensures Caught(start, events + [e], stores')
    ensures OpsOf(events + [e]) == if e.Logged? then OpsOf(events) + [e.op] else OpsOf(events)
  {
    assert (events + [e])[..|events|] == events;
  }

  /** An inode that is never forgotten holds what the logged intents alone, replayed in order, give it: the log is
      enough to bring its attributes back. */
  lemma {:induction false} LogIsEnough(start: map<nat, Attrs>, events: seq<Event>, ino: nat, name: Name)
    requires Forgotten(ino) !in events
    ensures Replay(start, events, ino, name) == Replay(start, AsEvents(OpsOf(events)), ino, name)
  {
    if events != [] {
      var n := |events| - 1;
      assert events == events[..n] + [events[n]];
      LogIsEnough(start, events[..n], ino, name);
      if events[n].Logged? {
        var ops := OpsOf(events[..n]);
        assert AsEvents(ops + [events[n].op])[..|ops|] == AsEvents(ops);
      }
    }
  }

  function AsEvents(ops: seq<Intent>): (es: seq<Event>)
    ensures |es| == |ops| && forall k :: 0 <= k < |ops| ==> es[k] == Logged(ops[k])
  {
    seq(|ops|, k requires 0 <= k < |ops| => Logged(ops[k]))
  }

  function SetVerdict(attrs: Attrs, name: Name, value: Value, flags: nat): Result<()> {
    if !KnownPrefix(name) then Err(EOPNOTSUPP)
    else if name == [] || 0 in name then Err(EINVAL)
    else if |name| > 255 then Err(EINVAL)
    else if |value| > MAX_VALUE then Err(E2BIG)
    else if flags > 2 then Err(EINVAL)
    else PutVerdict(attrs, name, value, flags)
  }

  /** What the attributes themselves have to say about a new value. */
  function PutVerdict(attrs: Attrs, name: Name, value: Value, flags: nat): Result<()> {
    if flags == 1 && Lookup(attrs, name).Some? then Err(EEXIST)
    else if flags == 2 && Lookup(attrs, name).None? then Err(ENODATA)
    else if 15 + |name| + |value| > MAX_ENTRY then Err(E2BIG)
    else Ok(())
  }

  lemma StoreGone(start: map<nat, Attrs>, events: seq<Event>, stores: map<nat, Attrs>, ino: nat)
    requires Caught(start, events, stores)
    ensures Caught(start, events + [Forgotten(ino)], stores - {ino})
              && OpsOf(events + [Forgotten(ino)]) == OpsOf(events)
  {
    var e, left := Forgotten(ino), stores - {ino};
    forall i, n ensures Get(left, i, n) == Applied(e, i, n, Get(stores, i, n)) {
      assert Of(left, i) == if i == ino then [] else Of(stores, i);
    }
    CaughtOne(start, events, stores, e, left);
  }

  lemma OneOpMore(events: seq<Event>, op: Intent)
    ensures EncodeAll(OpsOf(events + [Logged(op)])) == EncodeAll(OpsOf(events)) + [Encode(op)]
  {
    assert (events + [Logged(op)])[..|events|] == events;
  }

  function RemoveVerdict(attrs: Attrs, name: Name): Result<()> {
    if !KnownPrefix(name) then Err(EOPNOTSUPP) else if Lookup(attrs, name).None? then Err(ENODATA) else Ok(())
  }

  class XattrStore {
    const log: IntentLog
    var stores: map<nat, Attrs>

    /** The attributes at mount, and everything that has happened to them since. */
    ghost const start: map<nat, Attrs>
    ghost var events: seq<Event>

    ghost predicate LogOk()
      reads this`events, log, log.pool
    {
      log.Valid() && log.flushed + log.pending == EncodeAll(OpsOf(events))
    }

    ghost predicate Valid()
      reads this, log, log.pool
    {
      LogOk() && Caught(start, events, stores)
    }

    constructor (log: IntentLog, stores: map<nat, Attrs>)
      requires log.Valid() && log.flushed == [] && log.pending == []
      ensures Valid() && this.log == log && this.stores == stores && start == stores && events == []
    {
      this.log, this.stores, this.start := log, stores, stores;
      events := [];
    }

    /** The log takes the record of an operation behind all earlier ones, or refuses it. */
    method Note(op: Intent) returns (r: Result<()>)
      requires LogOk()
      modifies log, log.pool, this`events
      ensures LogOk() && events == if r.Ok? then old(events) + [Logged(op)] else old(events)
      ensures RecordTruth(old(log.tail), old(log.pending), log.Holding() || !log.active, Encode(op), r)
      ensures SameFrom(old(log.pool.image), log.pool.image, log.base + LOG_BYTES + MAX_SECTOR_SIZE)
    {
      r := log.Record(Encode(op));
      if r.Ok? {
        OneOpMore(events, op);
        events := events + [Logged(op)];
      }
    }

    /** Any other operation's intent leaves the attributes alone. */
    method NoteOther(op: Intent) returns (r: Result<()>)
      requires Valid() && !op.SetXattr? && !op.RemoveXattr?
      modifies this`events, log, log.pool
      ensures Valid() && events == if r.Ok? then old(events) + [Logged(op)] else old(events)
      ensures RecordTruth(old(log.tail), old(log.pending), log.Holding() || !log.active, Encode(op), r)
      ensures SameFrom(old(log.pool.image), log.pool.image, log.base + LOG_BYTES + MAX_SECTOR_SIZE)
    {
      CaughtOne(start, events, stores, Logged(op), stores);
      r := Note(op);
    }

    /** The part of `remove_transient_inode_state` that concerns attributes. */
    method Forget(ino: nat)
      requires Valid()
      modifies this
      ensures Valid() && events == old(events) + [Forgotten(ino)] && stores == old(stores) - {ino}
    {
      StoreGone(start, events, stores, ino);
      stores := stores - {ino};
      events := events + [Forgotten(ino)];
    }

    /** The answer is the log's. */
    twostate predicate LogAnswers(op: Intent, new r: Result<()>)
      reads log, log.pool
    {
      && RecordTruth(old(log.tail), old(log.pending), log.Holding() || !log.active, Encode(op), r)
      && SameFrom(old(log.pool.image), log.pool.image, log.base + LOG_BYTES + MAX_SECTOR_SIZE)
    }

    twostate predicate LogKept()
      reads log, log.pool
    {
      log.tail == old(log.tail) && log.pending == old(log.pending) && log.flushed == old(log.flushed)
        && log.pool.image == old(log.pool.image)
    }

    method SetXattr(ino: nat, name: Name, value: Value, flags: nat) returns (r: Result<()>)
      requires Valid()
      modifies this, log, log.pool
      ensures Valid()
      ensures if SetVerdict(old(Of(stores, ino)), name, value, flags).Err? then LogKept()
              else LogAnswers(Intent.SetXattr(ino, NamespaceByte(name), name, value), r)
      ensures SetVerdict(old(Of(stores, ino)), name, value, flags).Err? ==>
                r == SetVerdict(old(Of(stores, ino)), name, value, flags)
      ensures SetVerdict(old(Of(stores, ino)), name, value, flags).Ok? && log.Holding() ==> r.Ok? || r == Err(ENOSPC)
      ensures events == if r.Ok? then old(events) + [Logged(Intent.SetXattr(ino, NamespaceByte(name), name, value))]
                else old(events)
      ensures forall i, n ::
                Get(stores, i, n) == if r.Ok? && i == ino && n == name then Some(value) else old(Get(stores, i, n))
    {
      if !KnownPrefix(name) { return Err(EOPNOTSUPP); }
      if name == [] || 0 in name { return Err(EINVAL); }
      if |name| > 255 { return Err(EINVAL); }
      if |value| > MAX_VALUE { return Err(E2BIG); }
      if flags > 2 { return Err(EINVAL); }
      r := PutXattr(ino, name, value, flags);
    }

    /** From the point where the store of the inode is looked up, or made. */
    method PutXattr(ino: nat, name: Name, value: Value, flags: nat) returns (r: Result<()>)
      requires Valid() && |name| <= 255
      modifies this, log, log.pool
      ensures Valid()
      ensures var verdict := PutVerdict(old(Of(stores, ino)), name, value, flags);
              if verdict.Err? then r == verdict && LogKept()
              else
                && LogAnswers(Intent.SetXattr(ino, NamespaceByte(name), name, value), r)
                && (log.Holding() ==> r.Ok? || r == Err(ENOSPC))
      ensures events == if r.Ok? then old(events) + [Logged(Intent.SetXattr(ino, NamespaceByte(name), name, value))]
                else old(events)
      ensures forall i, n ::
                Get(stores, i, n) == if r.Ok? && i == ino && n == name then Some(value) else old(Get(stores, i, n))
    {
      if ino !in stores { AddStore(ino); }
      var exists' := Lookup(stores[ino], name).Some?;
      if flags == 1 && exists' { return Err(EEXIST); }
      if flags == 2 && !exists' { return Err(ENODATA); }
      if 15 + |name| + |value| > MAX_ENTRY { return Err(E2BIG); }
      r := NoteAndStore(ino, name, value, exists');
    }

    /** An empty store says no more than none. */
    method AddStore(ino: nat)
      requires Valid() && ino !in stores
      modifies this`stores
      ensures Valid() && stores == old(stores)[ino := []] && forall i, n :: Get(stores, i, n) == old(Get(stores, i, n))
    {
      ghost var was := stores;
      stores := stores[ino := []];
      forall i, n ensures Get(stores, i, n) == Get(was, i, n) {
        assert Of(stores, i) == Of(was, i);
      }
    }

    method NoteAndStore(ino: nat, name: Name, value: Value, exists': bool) returns (r: Result<()>)
      requires Valid() && |name| <= 255 && 15 + |name| + |value| <= MAX_ENTRY
      requires ino in stores && exists' == Lookup(stores[ino], name).Some?
      modifies this, log, log.pool
      ensures Valid() && (log.Holding() ==> r.Ok? || r == Err(ENOSPC))
      ensures LogAnswers(Intent.SetXattr(ino, NamespaceByte(name), name, value), r)
      ensures events == if r.Ok? then old(events) + [Logged(Intent.SetXattr(ino, NamespaceByte(name), name, value))]
                else old(events)
      ensures forall i, n ::
                Get(stores, i, n) == if r.Ok? && i == ino && n == name then Some(value) else old(Get(stores, i, n))
    {
      r := Note(Intent.SetXattr(ino, NamespaceByte(name), name, value));
      if r.Err? { return; }
      StoreValue(ino, name, value, exists');
      CaughtOne(start, old(events), old(stores), Logged(Intent.SetXattr(ino, NamespaceByte(name), name, value)),
        stores);
    }

    method StoreValue(ino: nat, name: Name, value: Value, exists': bool)
      requires ino in stores && exists' == Lookup(stores[ino], name).Some?
      modifies this`stores
      ensures forall i, n :: Get(stores, i, n) == if i == ino && n == name then Some(value) else old(Get(stores, i, n))
    {
      var kept := if exists' then Without(stores[ino], name) else stores[ino];
      forall n ensures Lookup(kept + [(name, value)], n) == if n == name then Some(value) else Lookup(stores[ino], n) {
        LookupWithout(stores[ino], name, n);
        LookupAppend(kept, name, value, n);
      }
      stores := stores[ino := kept + [(name, value)]];
    }

    method RemoveXattr(ino: nat, name: Name) returns (r: Result<()>)
      requires Valid()
      modifies this, log, log.pool
      ensures Valid()
      ensures if RemoveVerdict(old(Of(stores, ino)), name).Err? then LogKept()
              else LogAnswers(Intent.RemoveXattr(ino, NamespaceByte(name), name), r)
      ensures RemoveVerdict(old(Of(stores, ino)), name).Err? ==> r == RemoveVerdict(old(Of(stores, ino)), name)
      ensures RemoveVerdict(old(Of(stores, ino)), name).Ok? && 11 + |name| <= MAX_ENTRY && log.Holding() ==>
                r.Ok? || r == Err(ENOSPC)
      ensures events == if r.Ok? then old(events) + [Logged(Intent.RemoveXattr(ino, NamespaceByte(name), name))]
                else old(events)
      ensures forall i, n ::
                Get(stores, i, n) == if r.Ok? && i == ino && n == name then None else old(Get(stores, i, n))
    {
      if !KnownPrefix(name) { return Err(EOPNOTSUPP); }
      if ino !in stores || Lookup(stores[ino], name).None? { return Err(ENODATA); }
      r := NoteAndDrop(ino, name);
    }

    method NoteAndDrop(ino: nat, name: Name) returns (r: Result<()>)
      requires Valid() && ino in stores
      modifies this, log, log.pool
      ensures Valid() && (11 + |name| <= MAX_ENTRY && log.Holding() ==> r.Ok? || r == Err(ENOSPC))
      ensures LogAnswers(Intent.RemoveXattr(ino, NamespaceByte(name), name), r)
      ensures events == if r.Ok? then old(events) + [Logged(Intent.RemoveXattr(ino, NamespaceByte(name), name))]
                else old(events)
      ensures forall i, n ::
                Get(stores, i, n) == if r.Ok? && i == ino && n == name then None else old(Get(stores, i, n))
    {
      r := Note(Intent.RemoveXattr(ino, NamespaceByte(name), name));
      if r.Err? { return; }
      DropValue(ino, name);
      CaughtOne(start, old(events), old(stores), Logged(Intent.RemoveXattr(ino, NamespaceByte(name), name)), stores);
    }

    method DropValue(ino: nat, name: Name)
      requires ino in stores
      modifies this`stores
      ensures forall i, n :: Get(stores, i, n) == if i == ino && n == name then None else old(Get(stores, i, n))
    {
      forall n ensures Lookup(Without(stores[ino], name), n) == if n == name then None else Lookup(stores[ino], n) {
        LookupWithout(stores[ino], name, n);
      }
      stores := stores[ino := Without(stores[ino], name)];
    }
  }
}
