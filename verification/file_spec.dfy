/** What the data operations mean for a file, stated twice: on the file as a plain byte sequence, and
    byte by byte for any content, past the end of the file too.  The engine is proved against the
    second; the lemmas here show the second is the first. */
module FileSpec {
  import opened Common

  datatype FileOp =
    | Overwrite(offset: nat, data: seq<byte>)
    | Resize(size: nat)
    | PunchHole(offset: nat, length: nat)
    | ZeroOut(offset: nat, length: nat, keepSize: bool)
    | Reserve(offset: nat, length: nat, keepSize: bool)
    | CollapseOut(offset: nat, length: nat)
    | InsertZeros(offset: nat, length: nat)

  /** Where a byte of the new content comes from. */
  datatype Origin = OldByte(j: nat) | NewByte(b: byte)

  function OriginOf(op: FileOp, size: nat, k: nat): Origin {
    match op
    case Overwrite(o, d) => if o <= k < o + |d| then NewByte(d[k - o]) else OldByte(k)
    case Resize(n) => if n != size && n <= k then NewByte(0) else OldByte(k)
    case PunchHole(o, len) => if o <= k < o + len then NewByte(0) else OldByte(k)
    case ZeroOut(o, len, _) => if o <= k < o + len then NewByte(0) else OldByte(k)
    case Reserve(_, _, _) => OldByte(k)
    case CollapseOut(o, len) => if k < o then OldByte(k) else OldByte(k + len)
    case InsertZeros(o, len) => if k < o then OldByte(k) else if k < o + len then NewByte(0) else OldByte(k - len)
  }

  /** `OriginOf` in a file system where the operation is on `target` only. */
  function OriginFor(op: FileOp, target: nat, size: nat, ino: nat, k: nat): Origin {
    if ino == target then OriginOf(op, size, k) else OldByte(k)
  }

  function SizeAfter(op: FileOp, size: nat): nat {
    match op
    case Overwrite(o, d) => if d == [] then size else Max(size, o + |d|)
    case Resize(n) => n
    case PunchHole(_, _) => size
    case ZeroOut(o, len, keep) => if keep then size else Max(size, o + len)
    case Reserve(o, len, keep) => if keep then size else Max(size, o + len)
    case CollapseOut(_, len) => Monus(size, len)
    case InsertZeros(_, len) => size + len
  }

  /** The range checks of `fallocate`: collapse must end before the file does, insert must start inside it. */
  predicate Allowed(op: FileOp, size: nat) {
    match op
    case CollapseOut(o, len) => o + len < size
    case InsertZeros(o, _) => o < size
    case _ => true
  }

  /** `file` cut or zero-extended to `n` bytes. */
  function Resized(file: seq<byte>, n: nat): seq<byte> {
    if n <= |file| then file[..n] else file + Zeros(n - |file|)
  }

  /** `d` written over `file` at `at`, with zeros in between if `at` is past the end. */
  function Patched(file: seq<byte>, at: nat, d: seq<byte>): seq<byte> {
    if d == [] then file
    else
      var f := Resized(file, Max(|file|, at + |d|));
      f[..at] + d + f[at + |d|..]
  }

  /** The part of [o, o + len) that is in the file, zeroed. */
  function Blanked(file: seq<byte>, o: nat, len: nat): seq<byte> {
    if o >= |file| then file
    else
      var n := Min(len, |file| - o);
      file[..o] + Zeros(n) + file[o + n..]
  }

  /** The operation on the whole file. */
  function Apply(op: FileOp, file: seq<byte>): seq<byte>
    requires Allowed(op, |file|)
  {
    match op
    case Overwrite(o, d) => Patched(file, o, d)
    case Resize(n) => Resized(file, n)
    case PunchHole(o, len) => Blanked(file, o, len)
    case ZeroOut(o, len, keep) => Blanked(if keep then file else Resized(file, Max(|file|, o + len)), o, len)
    case Reserve(o, len, keep) => if keep then file else Resized(file, Max(|file|, o + len))
    case CollapseOut(o, len) => file[..o] + file[o + len..]
    case InsertZeros(o, len) => file[..o] + Zeros(len) + file[o..]
  }

  function ByteIn(file: seq<byte>, k: nat): byte { if k < |file| then file[k] else 0 }

  function Chosen(o: Origin, file: seq<byte>): byte {
    match o case OldByte(j) => ByteIn(file, j) case NewByte(b) => b
  }

  /** Byte by byte, the operation on the whole file is what `OriginOf` and `SizeAfter` say. */
  lemma ApplyByBytes(op: FileOp, file: seq<byte>, k: nat)
    requires Allowed(op, |file|)
    ensures |Apply(op, file)| == SizeAfter(op, |file|)
    ensures k < |Apply(op, file)| ==> Apply(op, file)[k] == Chosen(OriginOf(op, |file|, k), file)
  {
    if op.CollapseOut? || op.InsertZeros? {
      ApplyMoving(op, file, k);
    } else if op.Overwrite? || op.PunchHole? {
      ApplyInPlace(op, file, k);
    } else {
      ApplyGrowing(op, file, k);
    }
  }

  lemma ApplyMoving(op: FileOp, file: seq<byte>, k: nat)
    requires Allowed(op, |file|) && (op.CollapseOut? || op.InsertZeros?)
    ensures |Apply(op, file)| == SizeAfter(op, |file|)
    ensures k < |Apply(op, file)| ==> Apply(op, file)[k] == Chosen(OriginOf(op, |file|, k), file)
  {
    match op
    case CollapseOut(o, len) => CollapseBytes(file, o, len, k);
    case InsertZeros(o, len) => InsertBytes(file, o, len, k);
  }

  lemma ApplyInPlace(op: FileOp, file: seq<byte>, k: nat)
    requires op.Overwrite? || op.PunchHole?
    ensures |Apply(op, file)| == SizeAfter(op, |file|)
    ensures k < |Apply(op, file)| ==> Apply(op, file)[k] == Chosen(OriginOf(op, |file|, k), file)
  {
    match op
    case Overwrite(o, d) => PatchedBytes(file, o, d, k);
    case PunchHole(o, len) => BlankedBytes(file, o, len, k);
  }

  lemma ApplyGrowing(op: FileOp, file: seq<byte>, k: nat)
    requires op.Resize? || op.ZeroOut? || op.Reserve?
    ensures |Apply(op, file)| == SizeAfter(op, |file|)
    ensures k < |Apply(op, file)| ==> Apply(op, file)[k] == Chosen(OriginOf(op, |file|, k), file)
  {
    match op
    case Resize(n) => ResizedBytes(file, n, k);
    case ZeroOut(o, len, keep) => ZeroOutBytes(file, o, len, keep, k);
    case Reserve(o, len, keep) => ResizedBytes(file, Max(|file|, o + len), k);
  }

  lemma ZeroOutBytes(file: seq<byte>, o: nat, len: nat, keep: bool, k: nat)
    ensures var f := Blanked(if keep then file else Resized(file, Max(|file|, o + len)), o, len);
            && |f| == (if keep then |file| else Max(|file|, o + len))
            && (k < |f| ==> f[k] == if o <= k < o + len then 0 else ByteIn(file, k))
  {
    ResizedBytes(file, Max(|file|, o + len), k);
    BlankedBytes(if keep then file else Resized(file, Max(|file|, o + len)), o, len, k);
  }

  lemma CollapseBytes(file: seq<byte>, o: nat, len: nat, k: nat)
    requires o + len < |file|
    ensures var f := file[..o] + file[o + len..];
            |f| == |file| - len && (k < |f| ==> f[k] == ByteIn(file, if k < o then k else k + len))
  {
  }

  lemma InsertBytes(file: seq<byte>, o: nat, len: nat, k: nat)
    requires o < |file|
    ensures var f := file[..o] + Zeros(len) + file[o..];
            |f| == |file| + len && (k < |f| ==>
              f[k] == if k < o then file[k] else if k < o + len then 0 else file[k - len])
  {
  }

  lemma ResizedBytes(file: seq<byte>, n: nat, k: nat)
    ensures |Resized(file, n)| == n && (k < n ==> Resized(file, n)[k] == ByteIn(file, k))
  {
  }

  lemma BlankedBytes(file: seq<byte>, o: nat, len: nat, k: nat)
    ensures |Blanked(file, o, len)| == |file|
    ensures k < |file| ==> Blanked(file, o, len)[k] == if o <= k < o + len then 0 else file[k]
  {
  }

  lemma PatchedBytes(file: seq<byte>, o: nat, d: seq<byte>, k: nat)
    ensures |Patched(file, o, d)| == if d == [] then |file| else Max(|file|, o + |d|)
    ensures k < |Patched(file, o, d)| ==>
              Patched(file, o, d)[k] == if o <= k < o + |d| then d[k - o] else ByteIn(file, k)
  {
    ResizedBytes(file, Max(|file|, o + |d|), k);
  }

  /** Shrinking and growing back leaves zeros. */
  lemma ShrinkThenExtend(file: seq<byte>, small: nat, large: nat)
    requires small <= |file| && small <= large
    ensures Apply(Resize(large), Apply(Resize(small), file)) == file[..small] + Zeros(large - small)
  {
  }

  lemma InsertThenCollapse(file: seq<byte>, o: nat, len: nat)
    requires o < |file|
    ensures Apply(CollapseOut(o, len), Apply(InsertZeros(o, len), file)) == file
  {
    var f := Apply(InsertZeros(o, len), file);
    assert f[..o] == file[..o] && f[o + len..] == file[o..];
    assert file == file[..o] + file[o..];
  }
}
