/** The storage path below the engine: the C shim's block-splitting loop over buffer heads, and the
    engine's read-modify-write sector loops on top of it.  Both are proved to act as byte-array
    operations at any offset, alignment, block size and sector size, with every device access
    allowed to fail. */
module Pool {
  import opened Common

  const MAX_SECTOR_SIZE: nat := 65536

  predicate StorageError(e: Errno) { e.EINVAL? || e.EIO? || e.EFBIG? || e.EOVERFLOW? }

  function Splice(s: seq<byte>, at: nat, d: seq<byte>): (r: seq<byte>)
    requires at + |d| <= |s|
    ensures |r| == |s|
    ensures forall x :: 0 <= x < |s| ==> r[x] == if at <= x < at + |d| then d[x - at] else s[x]
  {
    s[..at] + d + s[at + |d|..]
  }

  /** What a write of `d` at `at` that stopped part-way may leave behind: every byte is either the
      old one or the one the write was bringing. */
  ghost predicate Torn(before: seq<byte>, after: seq<byte>, at: nat, d: seq<byte>) {
    && |after| == |before|
    && forall x :: 0 <= x < |before| ==> after[x] == before[x] || (at <= x < at + |d| && after[x] == d[x - at])
  }

  /** `after` is `before` with exactly the bytes at `at` replaced by `d`. */
  ghost predicate Written(before: seq<byte>, after: seq<byte>, at: nat, d: seq<byte>) {
    if d == [] then after == before
    else at + |d| <= |before| && after == Splice(before, at, d)
  }

  /** The device is the same from byte `n` on. */
  ghost predicate SameFrom(a: seq<byte>, b: seq<byte>, n: nat) {
    |b| == |a| && forall x :: n <= x < |a| ==> b[x] == a[x]
  }

  /** The device is the same up to byte `n`. */
  ghost predicate SameBelow(a: seq<byte>, b: seq<byte>, n: nat) {
    |b| == |a| && forall x :: 0 <= x < n && x < |a| ==> b[x] == a[x]
  }

  /** `d` is what the image holds at `at`. */
  ghost predicate ReadBack(image: seq<byte>, at: nat, d: seq<byte>) {
    d == [] || (at + |d| <= |image| && d == image[at..at + |d|])
  }

  /** A write split in two pieces is the write of the two pieces together. */
  lemma WrittenExtend(s: seq<byte>, mid: seq<byte>, t: seq<byte>, at: nat, d: seq<byte>, i: nat, j: nat)
    requires i < j <= |d|
    requires Written(s, mid, at, d[..i]) && Written(mid, t, at + i, d[i..][..j - i])
    ensures Written(s, t, at, d[..j])
  {
    assert t == Splice(s, at, d[..j]);
  }

  /** Writing back a block that was read and patched in the middle is writing the patch alone. */
  lemma PatchBlock(s: seq<byte>, lo: nat, hi: nat, off: nat, d: seq<byte>)
    requires lo <= hi <= |s| && lo + off + |d| <= hi
    ensures Splice(s, lo, s[lo..hi][..off] + d + s[lo..hi][off + |d|..]) == Splice(s, lo + off, d)
  {
  }

  lemma TornExtend(s: seq<byte>, mid: seq<byte>, t: seq<byte>, at: nat, d: seq<byte>, i: nat)
    requires i <= |d|
    requires Written(s, mid, at, d[..i])
    requires Torn(mid, t, at + i, d[i..])
    ensures Torn(s, t, at, d)
  {
  }

  lemma TornPatch(s: seq<byte>, t: seq<byte>, lo: nat, hi: nat, off: nat, d: seq<byte>)
    requires lo <= hi <= |s| && lo + off + |d| <= hi
    requires Torn(s, t, lo, s[lo..hi][..off] + d + s[lo..hi][off + |d|..])
    ensures Torn(s, t, lo + off, d)
  {
  }

  lemma SliceOfSlice(s: seq<byte>, lo: nat, hi: nat, a: nat, b: nat)
    requires lo <= hi <= |s| && a <= b <= hi - lo
    ensures s[lo..hi][a..b] == s[lo + a..lo + b]
  {
    var t := s[lo..hi];
    assert forall i :: 0 <= i < b - a ==> t[a..b][i] == t[a + i] == s[lo + a + i] == s[lo + a..lo + b][i];
  }

  /** The unit a byte offset falls in, and the offset within it. */
  method Locate(off: nat, size: nat) returns (unit: nat, within: nat)
    requires size > 0
    ensures unit * size + within == off && within < size
  {
    unit, within := off / size, off % size;
  }

  /** `n` bytes are a whole number of units. */
  predicate Whole(n: nat, unit: nat)
    decreases n
  {
    unit > 0 && (n == 0 || (n >= unit && Whole(n - unit, unit)))
  }

  /** On a device of whole units, the unit that holds a byte of the device lies on the device. */
  lemma {:induction false} UnitInside(off: nat, unit: nat, u: nat, within: nat, n: nat)
    requires u * unit + within == off && within < unit && off < n && Whole(n, unit)
    ensures u * unit + unit <= n
    decreases n
  {
    if u > 0 {
      assert u * unit == (u - 1) * unit + unit;
      UnitInside(off - unit, unit, u - 1, within, n - unit);
    }
  }

  class BlockPool {
    var image: seq<byte>
    const sound: bool        // no access to a block of the device fails
    const ioBlockSize: nat   // sb->s_blocksize
    const sectorSize: nat    // the engine's sector size, equal to the pool's block size
    const dataBase: nat      // data_area_offset + ENGINE_FILE_DATA_OFFSET

    constructor (image: seq<byte>, sound: bool, ioBlockSize: nat, sectorSize: nat, dataBase: nat)
      requires ioBlockSize > 0
      ensures this.image == image && this.sound == sound && this.ioBlockSize == ioBlockSize
      ensures this.sectorSize == sectorSize && this.dataBase == dataBase
    {
      this.image, this.sound, this.ioBlockSize, this.sectorSize, this.dataBase := image, sound, ioBlockSize,
        sectorSize, dataBase;
    }

    ghost predicate Valid() {
      ioBlockSize > 0
    }

    /** Nothing about the device itself can make an access to one of its bytes fail. */
    ghost predicate Healthy(size: nat) {
      sound && 0 < sectorSize <= MAX_SECTOR_SIZE && size <= U64_MAX && Whole(size, ioBlockSize)
        && Whole(size, sectorSize)
    }

    /** `sb_bread`: a whole block, or nothing when the block is off the device or unreadable. */
    method ReadBlock(block: nat) returns (bh: Option<seq<byte>>)
      ensures bh.Some? ==>
                && block * ioBlockSize + ioBlockSize <= |image|
                && bh.value == image[block * ioBlockSize..block * ioBlockSize + ioBlockSize]
      ensures sound && block * ioBlockSize + ioBlockSize <= |image| ==> bh.Some?
    {
      var readable: bool := *;
      if (readable || sound) && block * ioBlockSize + ioBlockSize <= |image| {
        return Some(image[block * ioBlockSize..block * ioBlockSize + ioBlockSize]);
      }
      return None;
    }

    /** `sync_dirty_buffer`: a reported error says nothing about whether the block landed. */
    method SyncBlock(block: nat, data: seq<byte>) returns (ok: bool)
      requires |data| == ioBlockSize && block * ioBlockSize + ioBlockSize <= |image|
      modifies this
      ensures ok ==> image == Splice(old(image), block * ioBlockSize, data)
      ensures Torn(old(image), image, block * ioBlockSize, data)
      ensures sound ==> ok
    {
      ok := *;
      ok := ok || sound;
      var landed: bool := *;
      if ok || landed {
        image := Splice(image, block * ioBlockSize, data);
      }
    }

    /** One turn of the loop in `tidefs_kernel_pool_rw(.., write = true)`: read the block under
        `offset`, patch the part of it that `data` covers, and sync it. */
    method WriteChunk(offset: nat, data: seq<byte>) returns (chunk: nat, ok: bool)
      requires Valid() && data != []
      modifies this
      ensures 0 < chunk <= |data|
      ensures ok ==> offset + chunk <= |old(image)| && image == Splice(old(image), offset, data[..chunk])
      ensures Torn(old(image), image, offset, data)
      ensures Healthy(|old(image)|) && offset < |old(image)| ==> ok
    {
      var block, blockOff := Locate(offset, ioBlockSize);
      if Healthy(|image|) && offset < |image| { UnitInside(offset, ioBlockSize, block, blockOff, |image|); }
      chunk := Min(|data|, ioBlockSize - blockOff);
      ok := PatchBuffer(block, blockOff, data[..chunk]);
    }

    /** `sb_bread`, `memcpy` into the buffer head, `sync_dirty_buffer`. */
    method PatchBuffer(block: nat, blockOff: nat, patch: seq<byte>) returns (ok: bool)
      requires blockOff + |patch| <= ioBlockSize
      modifies this
      ensures ok ==>
                && block * ioBlockSize + blockOff + |patch| <= |old(image)|
                && image == Splice(old(image), block * ioBlockSize + blockOff, patch)
      ensures Torn(old(image), image, block * ioBlockSize + blockOff, patch)
      ensures sound && block * ioBlockSize + ioBlockSize <= |old(image)| ==> ok
    {
      var bh := ReadBlock(block);
      if bh.None? {
        return false;
      }
      var lo := block * ioBlockSize;
      ghost var was := image;
      var patched := bh.value[..blockOff] + patch + bh.value[blockOff + |patch|..];
      ok := SyncBlock(block, patched);
      PatchBlock(was, lo, lo + ioBlockSize, blockOff, patch);
      TornPatch(was, image, lo, lo + ioBlockSize, blockOff, patch);
    }

    /** One turn of that loop, with the first `cursor` bytes written to `was`. */
    method WriteStep(ghost was: seq<byte>, offset: nat, data: seq<byte>, cursor: nat) returns (next: nat, ok: bool)
      requires Valid() && cursor < |data| && |was| == |image| && Written(was, image, offset, data[..cursor])
      modifies this
      ensures |image| == |was| && (!ok ==> Torn(was, image, offset, data))
      ensures ok ==> cursor < next <= |data| && Written(was, image, offset, data[..next])
      ensures Healthy(|was|) && offset + |data| <= |was| ==> ok
    {
      ghost var mid := image;
      var chunk;
      chunk, ok := WriteChunk(offset + cursor, data[cursor..]);
      next := cursor + chunk;
      if !ok {
        TornExtend(was, mid, image, offset, data, cursor);
        return;
      }
      WrittenExtend(was, mid, image, offset, data, cursor, next);
    }

    /** `tidefs_kernel_pool_rw(.., write = true)` */
    method PoolWrite(offset: nat, data: seq<byte>) returns (ok: bool)
      requires Valid()
      modifies this
      ensures ok ==> Written(old(image), image, offset, data)
      ensures Torn(old(image), image, offset, data)
      ensures Healthy(|old(image)|) && offset + |data| <= |old(image)| ==> ok
    {
      var cursor := 0;
      while cursor < |data|
        invariant cursor <= |data| && |image| == |old(image)|
        invariant Written(old(image), image, offset, data[..cursor])
      {
        cursor, ok := WriteStep(old(image), offset, data, cursor);
        if !ok {
          return;
        }
      }
      assert data[..cursor] == data;
      ok := true;
    }

    /** One turn of the loop in `tidefs_kernel_pool_rw(.., write = false)`. */
    method ReadChunk(offset: nat, len: nat) returns (out: Option<seq<byte>>)
      requires Valid() && len > 0
      ensures out.Some? ==>
                && 0 < |out.value| <= len && offset + |out.value| <= |image|
                && out.value == image[offset..offset + |out.value|]
      ensures Healthy(|image|) && offset < |image| ==> out.Some?
    {
      var block, blockOff := Locate(offset, ioBlockSize);
      if Healthy(|image|) && offset < |image| { UnitInside(offset, ioBlockSize, block, blockOff, |image|); }
      var chunk := Min(len, ioBlockSize - blockOff);
      var bh := ReadBlock(block);
      if bh.None? {
        return None;
      }
      var lo := block * ioBlockSize;
      SliceOfSlice(image, lo, lo + ioBlockSize, blockOff, blockOff + chunk);
      return Some(bh.value[blockOff..blockOff + chunk]);
    }

    /** `tidefs_kernel_pool_rw(.., write = false)` */
    method PoolRead(offset: nat, len: nat) returns (out: Option<seq<byte>>)
      requires Valid()
      ensures out.Some? ==> |out.value| == len && ReadBack(image, offset, out.value)
      ensures Healthy(|image|) && offset + len <= |image| ==> out.Some?
    {
      var got: seq<byte> := [];
      while |got| < len
        invariant |got| <= len
        invariant ReadBack(image, offset, got)
      {
        var chunk := ReadChunk(offset + |got|, len - |got|);
        if chunk.None? {
          return None;
        }
        got := got + chunk.value;
      }
      return Some(got);
    }

    /** The `write_sectors_fn` callback. */
    method WriteSectors(sector: nat, data: seq<byte>) returns (ok: bool)
      requires Valid()
      modifies this
      ensures ok ==> Written(old(image), image, sector * sectorSize, data)
      ensures Torn(old(image), image, sector * sectorSize, data)
      ensures Healthy(|old(image)|) && sector * sectorSize + |data| <= |old(image)| ==> ok
    {
      ok := PoolWrite(sector * sectorSize, data);
    }

    /** The `read_sectors_fn` callback. */
    method ReadSectors(sector: nat, len: nat) returns (out: Option<seq<byte>>)
      requires Valid()
      ensures out.Some? ==> |out.value| == len && ReadBack(image, sector * sectorSize, out.value)
      ensures Healthy(|image|) && sector * sectorSize + len <= |image| ==> out.Some?
    {
      out := PoolRead(sector * sectorSize, len);
    }

    /** The part of `len` that fills whole sectors. */
    method WholeSectors(len: nat) returns (whole: nat)
      requires 0 < sectorSize
      ensures whole <= len < whole + sectorSize
    {
      var _, rest := Locate(len, sectorSize);
      whole := len - rest;
    }

    /** The bytes a live-entry write brings: `data`, or zeros for a zero entry. */
    static function Payload(length: nat, data: seq<byte>, zero: bool): (p: seq<byte>)
      requires zero || length <= |data|
      ensures |p| == length
    {
      if zero then Zeros(length) else data[..length]
    }

    /** One turn of the loop in `write_live_entry_to_storage`: a run of whole aligned sectors goes
        straight through; otherwise one sector is read, patched and written back. */
    method WriteLiveChunk(at: nat, data: seq<byte>, zero: bool) returns (take: nat, r: Result<()>)
      requires Valid() && 0 < sectorSize && data != []
      modifies this
      ensures take <= |data|
      ensures r.Ok? ==> 0 < take && Written(old(image), image, at, data[..take])
      ensures Torn(old(image), image, at, data)
      ensures r.Err? ==> StorageError(r.errno)
      ensures Healthy(|old(image)|) && at + |data| <= |old(image)| && |data| <= U32_MAX ==> r.Ok?
    {
      take := 0;
      if at > U64_MAX {
        return take, Err(EFBIG);
      }
      var sector, sectorCursor := Locate(at, sectorSize);
      if Healthy(|image|) && at < |image| { UnitInside(at, sectorSize, sector, sectorCursor, |image|); }
      var whole := WholeSectors(|data|);
      if !zero && sectorCursor == 0 && whole > 0 {
        if whole > U32_MAX {
          return take, Err(EOVERFLOW);
        }
        take := whole;
        var sent := WriteSectors(sector, data[..take]);
        r := if sent then Ok(()) else Err(EIO);
      } else {
        take := Min(sectorSize - sectorCursor, |data|);
        r := PatchSector(sector, sector * sectorSize, sectorCursor, data[..take]);
      }
    }

    /** Read the sector at byte `lo`, overwrite part of it and write it back. */
    method PatchSector(sector: nat, lo: nat, sectorCursor: nat, patch: seq<byte>) returns (r: Result<()>)
      requires Valid() && lo == sector * sectorSize && sectorCursor + |patch| <= sectorSize
      modifies this
      ensures r.Ok? ==> Written(old(image), image, lo + sectorCursor, patch)
      ensures Torn(old(image), image, lo + sectorCursor, patch)
      ensures r.Err? ==> r.errno == EIO
      ensures Healthy(|old(image)|) && lo + sectorSize <= |old(image)| ==> r.Ok?
    {
      var buf := ReadWhole(sector, lo);
      if buf.None? {
        return Err(EIO);
      }
      if sectorSize == 0 {
        assert patch == [];
        return Ok(());
      }
      PatchBlock(image, lo, lo + sectorSize, sectorCursor, patch);
      var sent := WriteWhole(sector, lo, buf.value[..sectorCursor] + patch + buf.value[sectorCursor + |patch|..]);
      TornPatch(old(image), image, lo, lo + sectorSize, sectorCursor, patch);
      r := if sent then Ok(()) else Err(EIO);
    }

    method ReadWhole(sector: nat, lo: nat) returns (out: Option<seq<byte>>)
      requires Valid() && lo == sector * sectorSize
      ensures out.Some? ==> |out.value| == sectorSize && ReadBack(image, lo, out.value)
      ensures Healthy(|image|) && lo + sectorSize <= |image| ==> out.Some?
    {
      out := ReadSectors(sector, sectorSize);
    }

    method WriteWhole(sector: nat, lo: nat, data: seq<byte>) returns (ok: bool)
      requires Valid() && lo == sector * sectorSize && |data| == sectorSize
      modifies this
      ensures ok ==> Written(old(image), image, lo, data)
      ensures Torn(old(image), image, lo, data)
      ensures Healthy(|old(image)|) && lo + sectorSize <= |old(image)| ==> ok
    {
      ok := WriteSectors(sector, data);
    }

    /** `write_live_entry_to_storage`: the write changes exactly its physical byte range, at any
        alignment; a failed one leaves each byte of the range old or new and no other byte touched. */
    method WriteLiveEntry(phys: nat, length: nat, data: seq<byte>, zero: bool) returns (r: Result<()>)
      requires Valid()
      modifies this
      ensures r.Ok? && length > 0 ==>
                && 0 < sectorSize <= MAX_SECTOR_SIZE && (zero || length <= |data|)
                && Written(old(image), image, dataBase + phys, Payload(length, data, zero))
      ensures zero || length <= |data| ==> Torn(old(image), image, dataBase + phys, Payload(length, data, zero))
      ensures length == 0 || (!zero && |data| < length) ==> image == old(image)
      ensures length == 0 ==> r.Ok?
      ensures r.Err? ==> StorageError(r.errno)
      ensures Healthy(|old(image)|) && dataBase + phys + length <= |old(image)| && length <= U32_MAX
              && (zero || length <= |data|) ==>
                r.Ok?
    {
      if length == 0 {
        return Ok(());
      }
      if sectorSize == 0 || sectorSize > MAX_SECTOR_SIZE {
        return Err(EINVAL);
      }
      if !zero && |data| < length {
        return Err(EIO);
      }
      r := WriteLivePayload(dataBase + phys, Payload(length, data, zero), zero);
    }

    /** One turn of the loop of `write_live_entry_to_storage`, with the first `cursor` bytes written to `was`. */
    method WriteLiveStep(ghost was: seq<byte>, at: nat, payload: seq<byte>, cursor: nat, zero: bool)
      returns (next: nat, r: Result<()>)
      requires Valid() && 0 < sectorSize && cursor < |payload| && |was| == |image|
                 && Written(was, image, at, payload[..cursor])
      modifies this
      ensures |image| == |was| && (r.Err? ==> StorageError(r.errno) && Torn(was, image, at, payload))
      ensures r.Ok? ==> cursor < next <= |payload| && Written(was, image, at, payload[..next])
      ensures Healthy(|was|) && at + |payload| <= |was| && |payload| <= U32_MAX ==> r.Ok?
    {
      ghost var mid := image;
      var take;
      take, r := WriteLiveChunk(at + cursor, payload[cursor..], zero);
      next := cursor + take;
      if r.Err? {
        TornExtend(was, mid, image, at, payload, cursor);
        return;
      }
      WrittenExtend(was, mid, image, at, payload, cursor, next);
    }

    /** The loop of `write_live_entry_to_storage`. */
    method WriteLivePayload(at: nat, payload: seq<byte>, zero: bool) returns (r: Result<()>)
      requires Valid() && 0 < sectorSize
      modifies this
      ensures r.Ok? ==> Written(old(image), image, at, payload)
      ensures Torn(old(image), image, at, payload)
      ensures r.Err? ==> StorageError(r.errno)
      ensures Healthy(|old(image)|) && at + |payload| <= |old(image)| && |payload| <= U32_MAX ==> r.Ok?
    {
      var cursor := 0;
      while cursor < |payload|
        invariant cursor <= |payload| && |image| == |old(image)|
        invariant Written(old(image), image, at, payload[..cursor])
      {
        cursor, r := WriteLiveStep(old(image), at, payload, cursor, zero);
        if r.Err? {
          return;
        }
      }
      assert payload[..cursor] == payload;
      r := Ok(());
    }

    /** One turn of the loop in `read_live_data_from_storage`. */
    method ReadLiveChunk(at: nat, len: nat) returns (r: Result<seq<byte>>)
      requires Valid() && 0 < sectorSize && len > 0
      ensures r.Ok? ==> 0 < |r.value| <= len && ReadBack(image, at, r.value)
      ensures r.Err? ==> StorageError(r.errno)
      ensures Healthy(|image|) && at + len <= |image| && len <= U32_MAX ==> r.Ok?
    {
      if at > U64_MAX {
        return Err(EFBIG);
      }
      var sector, sectorCursor := Locate(at, sectorSize);
      if Healthy(|image|) && at < |image| { UnitInside(at, sectorSize, sector, sectorCursor, |image|); }
      var whole := WholeSectors(len);
      if sectorCursor == 0 && whole > 0 {
        if whole > U32_MAX {
          return Err(EOVERFLOW);
        }
        var chunk := ReadSectors(sector, whole);
        r := if chunk.Some? then Ok(chunk.value) else Err(EIO);
      } else {
        r := ReadPartOfSector(sector, sector * sectorSize, sectorCursor, Min(sectorSize - sectorCursor, len));
      }
    }

    /** Read the sector at byte `lo` and keep `take` bytes of it. */
    method ReadPartOfSector(sector: nat, lo: nat, sectorCursor: nat, take: nat) returns (r: Result<seq<byte>>)
      requires Valid() && lo == sector * sectorSize && sectorCursor + take <= sectorSize
      ensures r.Ok? ==> |r.value| == take && ReadBack(image, lo + sectorCursor, r.value)
      ensures r.Err? ==> r.errno == EIO
      ensures Healthy(|image|) && lo + sectorSize <= |image| ==> r.Ok?
    {
      var buf := ReadWhole(sector, lo);
      if buf.None? {
        return Err(EIO);
      }
      if take > 0 {
        SliceOfSlice(image, lo, lo + sectorSize, sectorCursor, sectorCursor + take);
      }
      r := Ok(buf.value[sectorCursor..sectorCursor + take]);
    }

    /** `read_live_data_from_storage` */
    method ReadLiveData(phys: nat, len: nat) returns (r: Result<seq<byte>>)
      requires Valid()
      ensures r.Ok? ==> |r.value| == len && ReadBack(image, dataBase + phys, r.value)
      ensures r.Err? ==> StorageError(r.errno)
      ensures Healthy(|image|) && dataBase + phys + len <= |image| && len <= U32_MAX ==> r.Ok?
    {
      if len == 0 {
        return Ok([]);
      }
      if sectorSize == 0 || sectorSize > MAX_SECTOR_SIZE {
        return Err(EINVAL);
      }
      var got: seq<byte> := [];
      while |got| < len
        invariant |got| <= len
        invariant ReadBack(image, dataBase + phys, got)
      {
        var chunk := ReadLiveChunk(dataBase + phys + |got|, len - |got|);
        if chunk.Err? {
          return chunk;
        }
        got := got + chunk.value;
      }
      return Ok(got);
    }
  }
}
