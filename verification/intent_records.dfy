/** Intent-log records: how each is encoded, how long the recovery splitter believes it to be, and when
    splitting a log gives back the records that were written. */
module IntentRecords {
  import opened Common
  import opened Wire

  const DISC_WRITE: byte := 1
  const DISC_TRUNCATE: byte := 2
  const DISC_SETATTR: byte := 3
  const DISC_CREATE: byte := 4
  const DISC_UNLINK: byte := 5
  const DISC_RENAME: byte := 6
  const DISC_SYMLINK: byte := 7
  const DISC_HARDLINK: byte := 8
  const DISC_MKDIR: byte := 9
  const DISC_RMDIR: byte := 10
  const DISC_MKNOD: byte := 11
  const DISC_XATTRSET: byte := 12
  const DISC_FALLOCATE: byte := 13
  const DISC_XATTRREMOVE: byte := 16
  const DISC_TMPFILE: byte := 17

  type Name = seq<byte>

  datatype Intent =
    | Write(ino: nat, offset: nat, length: nat)
    | Truncate(ino: nat, size: nat)
    | Fallocate(ino: nat, mode: nat, offset: nat, length: nat)
    | Create(parent: nat, name: Name, mode: nat, ino: nat)
    | Mkdir(parent: nat, name: Name, mode: nat, ino: nat)
    | Unlink(parent: nat, name: Name, ino: nat)
    | Rmdir(parent: nat, name: Name, ino: nat)
    | Mknod(parent: nat, name: Name, mode: nat, rdev: nat, ino: nat)
    | Link(target: nat, parent: nat, name: Name)
    | Symlink(parent: nat, name: Name, path: seq<byte>, ino: nat)
    | Rename(parent: nat, name: Name, newParent: nat, newName: Name, ino: nat, overwrite: Option<nat>)
    | SetXattr(ino: nat, namespace: byte, name: Name, value: seq<byte>)
    | RemoveXattr(ino: nat, namespace: byte, name: Name)

  /** Names are cut at 255 bytes. */
  function Short(name: Name): (s: Name)
    ensures |s| <= 255
  {
    name[..Min(|name|, 255)]
  }

  /** A name behind its one-byte length. */
  function Prefixed(name: Name): seq<byte> { [|Short(name)| as byte] + Short(name) }

  /** Extended-attribute names are written whole; only their length byte is cut to eight bits. */
  function Attribute(name: Name): seq<byte> { [(|name| % 256) as byte] + name }

  function Encode(i: Intent): seq<byte> {
    match i
    case Write(ino, off, len) => [DISC_WRITE] + Le(ino, 8) + Le(off, 8) + Le(len, 8)
    case Truncate(ino, size) => [DISC_TRUNCATE] + Le(ino, 8) + Le(size, 8)
    case Fallocate(ino, mode, off, len) => [DISC_FALLOCATE] + Le(ino, 8) + Le(mode, 4) + Le(off, 8) + Le(len, 8)
    case Create(p, name, mode, ino) => [DISC_CREATE] + Le(p, 8) + Prefixed(name) + Le(mode, 4) + Le(ino, 8)
    case Mkdir(p, name, mode, ino) => [DISC_MKDIR] + Le(p, 8) + Prefixed(name) + Le(mode, 4) + Le(ino, 8)
    case Unlink(p, name, ino) => [DISC_UNLINK] + Le(p, 8) + Prefixed(name) + Le(ino, 8)
    case Rmdir(p, name, ino) => [DISC_RMDIR] + Le(p, 8) + Prefixed(name) + Le(ino, 8)
    case Mknod(p, name, mode, rdev, ino) =>
      [DISC_MKNOD] + Le(p, 8) + Prefixed(name) + Le(mode, 4) + Le(rdev, 4) + Le(ino, 8)
    case Link(t, p, name) => [DISC_HARDLINK] + Le(t, 8) + Le(p, 8) + Prefixed(name)
    case Symlink(p, name, path, ino) => [DISC_SYMLINK] + Le(p, 8) + Prefixed(name) + Prefixed(path) + Le(ino, 8)
    case Rename(p, name, q, name', ino, over) =>
      [DISC_RENAME] + Le(p, 8) + Prefixed(name) + Le(q, 8) + Prefixed(name')
      + (if over.Some? then [1] + Le(over.value, 8) else [0]) + Le(ino, 8)
    case SetXattr(ino, ns, name, value) =>
      [DISC_XATTRSET] + Le(ino, 8) + [ns] + Attribute(name) + Le(|value| % (U32_MAX + 1), 4) + value
    case RemoveXattr(ino, ns, name) => [DISC_XATTRREMOVE] + Le(ino, 8) + [ns] + Attribute(name)
  }

  // ---------- the splitter's length rule ----------

  /** The length the splitter gives to the record at the head of `data`; `None` when the bytes that
      hold the length are missing. */
  function RuleLen(data: seq<byte>): Option<nat>
    requires data != []
  {
    var disc := data[0];
    if disc == DISC_WRITE then Some(25)
    else if disc == DISC_TRUNCATE then Some(17)
    else if disc == DISC_SETATTR then Some(81)
    else if disc == DISC_TMPFILE then Some(21)
    else if disc == DISC_FALLOCATE then Some(29)
    else if disc == DISC_CREATE || disc == DISC_MKDIR then NameLen(data, 9, 22)
    else if disc == DISC_UNLINK then NameLen(data, 9, 18)
    else if disc == DISC_RMDIR then NameLen(data, 9, 10)
    else if disc == DISC_MKNOD then NameLen(data, 9, 18)
    else if disc == DISC_HARDLINK then NameLen(data, 17, 18)
    else if disc == DISC_SYMLINK then
      if |data| < 10 then None else NameLen(data, 10 + data[9] as nat, 11 + data[9] as nat)
    else if disc == DISC_RENAME then
      if |data| < 10 then None else NameLen(data, 18 + data[9] as nat, 28 + data[9] as nat)
    else Some(1)
  }

  /** `base` plus the length byte at `at`. */
  function NameLen(data: seq<byte>, at: nat, base: nat): Option<nat> {
    if at < |data| then Some(base + data[at] as nat) else None
  }

  /** The rule looks only at the head of the record: more bytes do not change its answer, and fewer can
      only take the answer away. */
  lemma RuleOnPrefix(p: seq<byte>, rest: seq<byte>)
    requires p != []
    ensures RuleLen(p).Some? ==> RuleLen(p + rest) == RuleLen(p)
    ensures RuleLen(p).None? || RuleLen(p) == RuleLen(p + rest)
  {
  }

  lemma RulePositive(data: seq<byte>)
    requires data != [] && RuleLen(data).Some?
    ensures RuleLen(data).value > 0
  {
  }

  /** The records the splitter finds. */
  function Split(data: seq<byte>): seq<seq<byte>>
    decreases |data|
  {
    if data == [] || RuleLen(data).None? || RuleLen(data).value > |data| then []
    else
      RulePositive(data);
      var n := RuleLen(data).value;
      [data[..n]] + Split(data[n..])
  }

  lemma SplitStep(data: seq<byte>, pos: nat)
    requires pos < |data| && RuleLen(data[pos..]).Some? && pos + RuleLen(data[pos..]).value <= |data|
    ensures var n := RuleLen(data[pos..]).value; Split(data[pos..]) == [data[pos..pos + n]] + Split(data[pos + n..])
  {
    var n := RuleLen(data[pos..]).value;
    assert data[pos..][..n] == data[pos..pos + n] && data[pos..][n..] == data[pos + n..];
  }

  lemma SplitEnds(data: seq<byte>)
    requires data == [] || RuleLen(data).None? || RuleLen(data).value > |data|
    ensures Split(data) == []
  {
  }

  method SplitIntentBuffer(data: seq<byte>) returns (records: seq<seq<byte>>)
    ensures records == Split(data)
  {
    records := [];
    var pos := 0;
    Nothing(Split(data));
    assert data[0..] == data;
    while pos < |data|
      invariant pos <= |data| && records + Split(data[pos..]) == Split(data)
      decreases |data| - pos
    {
      var n := RuleLen(data[pos..]);
      if n.None? { break; }
      if pos + n.value > |data| { break; }
      RulePositive(data[pos..]);
      SplitStep(data, pos);
      var r := data[pos..pos + n.value];
      Assoc(records, [r], Split(data[pos + n.value..]));
      records := records + [r];
      pos := pos + n.value;
    }
    SplitEnds(data[pos..]);
    Nothing(records);
  }

  /** What the splitter finds is the front of the buffer, nothing left out and nothing made up. */
  lemma {:induction false} SplitIsPrefix(data: seq<byte>)
    ensures Concat(Split(data)) <= data
    decreases |data|
  {
    if data != [] && RuleLen(data).Some? && RuleLen(data).value <= |data| {
      RulePositive(data);
      var n := RuleLen(data).value;
      SplitIsPrefix(data[n..]);
      var found := Split(data[n..]);
      assert ([data[..n]] + found)[1..] == found;
      assert data == data[..n] + data[n..];
    }
  }

  // ---------- when splitting undoes concatenation ----------

  /** The rule gives the record its true length. */
  predicate Measured(r: seq<byte>) { r != [] && RuleLen(r).Some? }

  predicate Fits(r: seq<byte>) { r != [] && RuleLen(r) == Some(|r|) }

  lemma SplitHead(r: seq<byte>, rest: seq<byte>)
    requires Fits(r)
    ensures Split(r + rest) == [r] + Split(rest)
  {
    RuleOnPrefix(r, rest);
    assert (r + rest)[..|r|] == r && (r + rest)[|r|..] == rest;
  }

  lemma {:induction false} SplitFitting(rs: seq<seq<byte>>, rest: seq<byte>)
    requires forall r :: r in rs ==> Fits(r)
    ensures Split(Concat(rs) + rest) == rs + Split(rest)
  {
    if rs == [] {
      assert Concat(rs) + rest == rest;
    } else {
      var r, tail := rs[0], rs[1..];
      assert rs == [r] + tail;
      SplitFitting(tail, rest);
      SplitHead(r, Concat(tail) + rest);
      Assoc(r, Concat(tail), rest);
      Assoc([r], tail, Split(rest));
    }
  }

  /** Splitting a log gives back its records exactly when the rule is right about every one of them. */
  lemma {:induction false} SplitIff(rs: seq<seq<byte>>)
    requires forall r :: r in rs ==> Measured(r)
    ensures Split(Concat(rs)) == rs <==> forall r :: r in rs ==> Fits(r)
  {
    if forall r :: r in rs ==> Fits(r) {
      SplitFitting(rs, []);
      assert Concat(rs) + [] == Concat(rs);
      assert rs + Split([]) == rs;
    } else {
      SplitGoesWrong(rs);
    }
  }

  lemma {:induction false} SplitGoesWrong(rs: seq<seq<byte>>)
    requires (forall r :: r in rs ==> Measured(r)) && exists r :: r in rs && !Fits(r)
    ensures Split(Concat(rs)) != rs
  {
    var r, tail := rs[0], rs[1..];
    assert rs == [r] + tail && r in rs && forall x :: x in tail ==> x in rs;
    if Fits(r) {
      SplitGoesWrong(tail);
      SplitHead(r, Concat(tail));
      assert Split(Concat(rs))[1..] == Split(Concat(tail));
    } else {
      SplitMisses(r, Concat(tail), tail);
    }
  }

  lemma SplitMisses(r: seq<byte>, rest: seq<byte>, tail: seq<seq<byte>>)
    requires Measured(r) && !Fits(r)
    ensures Split(r + rest) != [r] + tail
  {
    RuleOnPrefix(r, rest);
    if Split(r + rest) == [r] + tail {
      assert Split(r + rest)[0] == r;
    }
  }

  /** A part too short for the rule is too short for the record. */
  lemma RuleNeedsLess(p: seq<byte>, rest: seq<byte>)
    requires p != [] && RuleLen(p).None? && RuleLen(p + rest).Some?
    ensures RuleLen(p + rest).value > |p|
  {
  }

  /** Bytes cut anywhere, whatever they are, give the first of the records the whole would have given: exactly those
      that end before the cut. */
  lemma {:induction false} SplitCut(data: seq<byte>, n: nat)
    requires n <= |data|
    ensures var found, all := Split(data[..n]), Split(data);
            && found <= all && |Concat(found)| <= n
            && (|found| < |all| ==> n < |Concat(found)| + |all[|found|]|)
    decreases |data|
  {
    if n == 0 {
      if data != [] && RuleLen(data).Some? { RulePositive(data); }
    } else {
      var p := data[..n];
      assert data == p + data[n..];
      RuleOnPrefix(p, data[n..]);
      if RuleLen(p).None? {
        if RuleLen(data).Some? { RuleNeedsLess(p, data[n..]); }
      } else if RuleLen(p).value <= n {
        RulePositive(p);
        var m := RuleLen(p).value;
        SplitCut(data[m..], n - m);
        CutBehind(data, n, m);
      }
    }
  }

  /** The first record is before the cut. */
  lemma CutBehind(data: seq<byte>, n: nat, m: nat)
    requires 0 < m <= n <= |data| && RuleLen(data[..n]) == RuleLen(data) == Some(m)
    ensures Split(data[..n]) == [data[..m]] + Split(data[m..][..n - m]) && Split(data) == [data[..m]] + Split(data[m..])
    ensures |Concat(Split(data[..n]))| == m + |Concat(Split(data[m..][..n - m]))|
  {
    assert data[..n][..m] == data[..m] && data[..n][m..] == data[m..][..n - m];
    var found := Split(data[m..][..n - m]);
    assert ([data[..m]] + found)[1..] == found;
  }

  /** A log of records the rule is right about, cut anywhere, gives back exactly the records that are whole. */
  lemma SplitTorn(rs: seq<seq<byte>>, n: nat)
    requires (forall r :: r in rs ==> Fits(r)) && n <= |Concat(rs)|
    ensures var found := Split(Concat(rs)[..n]);
            && found <= rs && |Concat(found)| <= n && (|found| < |rs| ==> n < |Concat(found)| + |rs[|found|]|)
  {
    SplitFitting(rs, []);
    assert Concat(rs) + [] == Concat(rs) && rs + Split([]) == rs;
    SplitCut(Concat(rs), n);
  }

  // ---------- which records the rule is right about ----------

  /** The operations whose records the splitter measures correctly. */
  predicate Recoverable(i: Intent) {
    i.Write? || i.Truncate? || i.Fallocate? || i.Create? || i.Mkdir? || i.Unlink? || i.Link?
    || (i.Rename? && i.overwrite.None?)
  }

  /** The rule is right about exactly the recoverable operations, whatever their names and numbers. */
  lemma FitsIff(i: Intent)
    ensures Encode(i) != [] && RuleLen(Encode(i)).Some?
    ensures Fits(Encode(i)) <==> Recoverable(i)
  {
    var e := Encode(i);
    if i.Symlink? {
      assert e[9] == |Short(i.name)| as byte && e[10 + |Short(i.name)|] == |Short(i.path)| as byte;
    } else if i.Rename? {
      assert e[9] == |Short(i.name)| as byte && e[18 + |Short(i.name)|] == |Short(i.newName)| as byte;
    } else if i.Link? {
      assert e[17] == |Short(i.name)| as byte;
    } else if i.Create? || i.Mkdir? || i.Unlink? || i.Rmdir? || i.Mknod? {
      assert e[9] == |Short(i.name)| as byte;
    }
  }

  function EncodeAll(ops: seq<Intent>): (rs: seq<seq<byte>>)
    ensures |rs| == |ops| && forall k :: 0 <= k < |ops| ==> rs[k] == Encode(ops[k])
  {
    seq(|ops|, k requires 0 <= k < |ops| => Encode(ops[k]))
  }

  /** Recovery splits a log of operations into their records if and only if every operation in it is one
      whose length the splitter knows. */
  lemma RecoversIff(ops: seq<Intent>)
    ensures Split(Concat(EncodeAll(ops))) == EncodeAll(ops) <==> forall op :: op in ops ==> Recoverable(op)
  {
    var rs := EncodeAll(ops);
    forall r | r in rs ensures Measured(r) {
      var k :| 0 <= k < |rs| && rs[k] == r;
      FitsIff(ops[k]);
    }
    SplitIff(rs);
    if forall op :: op in ops ==> Recoverable(op) {
      forall r | r in rs ensures Fits(r) {
        var k :| 0 <= k < |rs| && rs[k] == r;
        FitsIff(ops[k]);
      }
    }
    if forall r :: r in rs ==> Fits(r) {
      forall op | op in ops ensures Recoverable(op) {
        var k :| 0 <= k < |ops| && ops[k] == op;
        assert rs[k] in rs;
        FitsIff(op);
      }
    }
  }

  /** One removed directory is enough to lose the record behind it: the splitter takes the rmdir record to
      end eight bytes early. */
  lemma RmdirHidesWhatFollows(next: Intent)
    ensures Split(Concat(EncodeAll([Rmdir(1, [97], 2), next]))) != EncodeAll([Rmdir(1, [97], 2), next])
  {
    var ops := [Rmdir(1, [97], 2), next];
    assert ops[0] in ops && !Recoverable(ops[0]);
    RecoversIff(ops);
  }
}
