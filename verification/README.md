# TideFS kernel engine: a verified model

TideFS runs a file system engine inside the kernel. This project models the parts of that engine with
the most state and proves what they are for:

- **The live file-data engine** (`extents`, `extent_ops`, `extent_sort`, `extent_update`, `buffer`,
  `handout`, `buffer_ops`, `media`, `file_spec`, `engine`, `runs`, `data_laws`, `seek`, `half_done`,
  on top of `pool`). A file is
  kept in three layers: one vector of extents for all files, a write and zero staging buffer laid over it,
  and sector storage reached by callbacks that may fail. Write, truncate, flush and the five fallocate
  modes split, shift, clip and merge entries of both vectors. The reference is one zero-extended byte
  sequence per file. `Runs.Run` says of whole runs, failures included, which answers a caller may get and
  that no other file is touched; `Runs.CleanRun` that without half-done calls the files are the reference.
- **The namespace** (`tree`, `links`, `link_ops`, `dirents`, `namespace`, `namespace_runs`): directory
  entries, inode records, link counts, open handles, rename and exchange with the bounded ancestor walk.
  Every run keeps a rooted tree with true counts and no dangling entry.
- **The engine as a whole** (`kernel`, `kernel_runs`, `kernel_laws`, `kernel_restore`): names and records, file data,
  attributes and the intent log on one device. A call on names changes the tables, then the files that go with the records,
  and records its intent last. In every run a file's bytes live exactly as long as its record, and it is
  known beforehand which calls fail with their work done. Saved and loaded, the engine is the same again.
- **Logs and images** (`wire`, `intent_records`, `intent_log`, `xattrs`, `snapshot_codec`,
  `snapshot_parts`, `snapshot`, `snapshot_io`, `restore`): the sector-packed intent log and its splitter,
  the write-ahead attribute store, and the snapshot, written and loaded into an engine that reads the same.
- **Smaller state machines** (`locks`, `fences`, `readdir`, `bio`): advisory byte-range locks, the
  page-cache fence ring, directory scans during change, and the bio-chain copy of the block module.

`dafny verify dfyconfig.toml` checks everything.

## How the model is built

- Objects whose methods update fields are classes (`KernelEngine`, `LiveEngine`, `Namespace`, `LockTable`, `FenceRing`,
  `IntentLog`, `XattrStore`, `BlockPool`, `PageMemory`); vectors are `seq` fields, the fence slots and the
  copy buffer are arrays, and the source's loops are loops. Each method is proved against a specification
  on values, and the laws are lemmas about that specification.
- A device is `sound` or not. Any access to one that is not may fail, without any rule: the choice is
  non-deterministic. A failed write may have written some of its bytes (`Pool.Torn`). Safety is stated for
  every device, progress (which errors are left) for healthy ones: sound and large enough. The inode
  allocator outside the engine is treated in the same way.
- The content hash is a function parameter. The identity of the committed root is its 80 bytes, the
  outcome of looking up an inode for a lock is a parameter, and the inode number of the root is a parameter.
- Memory allocation always succeeds, and the pool is mounted. Times, modes, owners and block counts are
  carried only where the snapshot stores them.
- Counters are unbounded numbers with explicit 32- or 64-bit limits where the source saturates or wraps:
  inode numbers, cookies, fence generations, the fence cursor, write lengths cut to 32 bits.

## What turned out to differ from the documentation

- `split_intent_buffer` is documented to cut a log back into its records. Its length rules are right only
  for some of the encoders in `intent_record.rs`; `IntentRecords.RecoversIff` gives the exact condition
  and `IntentRecords.RmdirHidesWhatFollows` a log for which it fails.
- mkdir, create, symlink, mknod, link and rename record their intent after the change. When the log has no
  room they answer ENOSPC with the change made: `KernelLaws.FullLogMkdir`, with the exact condition in
  `KernelRuns.TooLateIff`. Nothing takes records out of the log, so any engine comes to this
  (`KernelLaws.FillLog`).
- A write gives a hole storage before the data is there. When it then fails, old storage bytes become
  readable inside its range: `DataLaws.FailedWriteShowsOldBytes`. `DataLaws.FailedWriteForeseen` gives the
  condition on the state before the call: the places the write would be handed hold zeros or the bytes to be
  written, or, on a healthy device, there is room. Bytes outside the range never change.
- setxattr and removexattr do not look at the inode table. An attribute set through the handle of a removed
  directory stays behind without a record: `KernelLaws.LeftoverAttribute`, with the exact condition in
  `KernelRuns.LeftoverIff`. A snapshot leaves it out.
- Every call that rewrites the buffer checks the end of every staged entry of every file, and an insert
  checks only where an entry is moved to, not where it then ends. So calls that all succeed can leave an
  entry that makes every later rewrite and every write fail with EFBIG: `DataLaws.StuckBuffer`, with the
  exact condition in `LiveData.AnswerIff` and the calls that keep clear of it in `Runs.RunWithin`.
- An over-long entry like that one also stops a truncate when it becomes the neighbour of an entry of its own file
  and kind: the call fails after it has cut size and extents. An insert fails between buffer and extents when storage
  has been left far up by a write that failed. A zero-range request that starts in the last block of the 64-bit range
  fails after it has staged its zeros. `HalfDone.SeekPastData`, `HalfDone.ZeroMovesAway` and `HalfDone.ZeroTooLate`
  are runs to each; `Truncate` and `Fallocate` give the exact conditions and what is left.
- Without active storage, such a truncate leaves staged data over a hole, and then SEEK_DATA passes over data
  (`HalfDone.SeekPastData`). `Seek.SeeksSafelyIff` gives the exact condition, `Seek.RunSeeksSafely` the runs in which
  it holds: all of them with active storage.
- The ancestor walk that protects a directory rename refuses every target 1024 or more levels deep
  (`NamespaceRuns.DeepMoveRefused`); what it lets through is always safe. A directory that lies so deep can
  be moved out but not back (`NamespaceRuns.MoveAndBack`, `NamespaceRuns.ExchangeTwice`).
- After the fence ring has overflowed once, every new fence makes every older snapshot stale, not only
  the overlapping ones (`Fences.CurrentIff`).

## Model

| member | source | states |
|---|---|---|
| `Runs.Run` | crates/tidefs-kmod-posix-vfs/tidefs_posix_vfs_main.rs:5980-6337 | over every run of create, remove, write, truncate, fallocate (all modes), flush and read calls, whatever fails: every answer is one the state before the call allows, no call touches any file but the one it is about, and flushes and reads touch none |
| `Runs.CleanRun` | crates/tidefs-kmod-posix-vfs/tidefs_posix_vfs_main.rs:5980-6337 | as long as no write, no truncate refused by the buffer and no zero-range in the last block of the 64-bit range has failed, the files are at every step the plain zero-extended byte sequences obtained by applying the obvious operation for each call |
| `Runs.RunWithin` | crates/tidefs-kmod-posix-vfs/tidefs_posix_vfs_main.rs:2196-2502 | which calls keep every staged entry inside the 64-bit range: all but an insert that moves one past it |
| `Runs.RunCovered` | crates/tidefs-kmod-posix-vfs/tidefs_posix_vfs_main.rs:2032-2060 | from a new engine on, in every run with active storage no data is ever staged; in every run without it each byte staged as data lies over a stored one, as long as no truncate or insert has stopped half-way, which the state before the call tells |
| `Runs.PlainAnswers` | crates/tidefs-kmod-posix-vfs/tidefs_posix_vfs_main.rs:6211-6337 | while they are inside, every fallocate and truncate gets the plain verdict for its mode, range and size |
| `Runs.Do` | crates/tidefs-kmod-posix-vfs/tidefs_posix_vfs_main.rs:6211-6337 | one call of any kind: the exact answer of truncate, fallocate, create and remove, and of a write through active storage whenever it finds no room or the device is healthy; the possible answers of read, flush and the other writes with their progress on a healthy device; the effect on the files, and every other file as it was |
| `Runs.EffectOnView` | crates/tidefs-kmod-posix-vfs/tidefs_posix_vfs_main.rs:982-1005 | if every byte is what the operation says, the files as byte sequences are what `Apply` computes |
| `FileSpec.ApplyByBytes` | crates/tidefs-kmod-posix-vfs/tidefs_posix_vfs_main.rs:6211-6337 | the reference operations on byte sequences agree byte by byte with where each byte comes from |
| `FileSpec.ShrinkThenExtend` | crates/tidefs-kmod-posix-vfs/tidefs_posix_vfs_main.rs:4994-5065 | a file that is shrunk and extended again reads zeros in the part that was cut off |
| `FileSpec.InsertThenCollapse` | crates/tidefs-kmod-posix-vfs/tidefs_posix_vfs_main.rs:6233-6267 | on contents, collapsing the range just inserted gives the file back |
| `LiveData.LiveEngine.Read` | crates/tidefs-kmod-posix-vfs/tidefs_posix_vfs_main.rs:869-980 | a read returns exactly the bytes of the file in the range, clipped to the size, with staged bytes over stored ones over zeros; up to 2^32-1 bytes it succeeds on a healthy device with the capacity the engine was given |
| `LiveData.LiveEngine.Write` | crates/tidefs-kmod-posix-vfs/tidefs_posix_vfs_main.rs:5980-6002 | a successful write replaces exactly its range (and zero-fills up to it), and the buffer afterwards is the old one with the range cleared or the data staged; a failed one touches no byte outside its range, and inside it each byte by its history: staged bytes stay, stored ones are old or new, others still read 0 or are newly stored past the old tail and show the old storage byte or the new one; with active storage the place of every byte that is given storage and, with no room or on a healthy device, the answer follow from the state before |
| `LiveData.LiveEngine.WriteThrough` | crates/tidefs-kmod-posix-vfs/tidefs_posix_vfs_main.rs:982-1005 | the active-storage path: data goes to storage first, then the staged bytes under it go; it succeeds only if every staged entry of every file ends inside the 64-bit range, and then does exactly the write; a failure, with the data landed or not, leaves each byte of the range as its history says |
| `LiveData.LiveEngine.DropUnder` | crates/tidefs-kmod-posix-vfs/tidefs_posix_vfs_main.rs:2261-2360 | clearing the staged bytes under a write is refused exactly when some staged entry of any file ends past the 64-bit range |
| `LiveData.LiveEngine.StageWrite` | crates/tidefs-kmod-posix-vfs/tidefs_posix_vfs_main.rs:1007-1101 | the path without active storage: data is staged together with the extent it will go to; a failure, ENOSPC or EFBIG, has kept every extent and staged entry, though the tail may have moved; success needs the range and every staged entry inside the 64-bit range |
| `LiveData.LiveEngine.Truncate` | crates/tidefs-kmod-posix-vfs/tidefs_posix_vfs_main.rs:4994-5065 | resizing keeps the bytes below the new size and leaves zeros above, for buffer and extents together; EFBIG, with size and extents already cut, exactly when the buffer cannot be rebuilt |
| `LiveData.LiveEngine.Fallocate` | crates/tidefs-kmod-posix-vfs/tidefs_posix_vfs_main.rs:6211-6337 | collapse, insert, punch, zero-range and allocate each do exactly the reference operation; the exact answer for every mode, range, size, buffer and extent vector; and exactly which failures leave something: a zero-range that starts in the last block has zeroed its range, an insert that the buffer takes and the extents refuse has moved the buffer, every other one has changed nothing |
| `LiveData.AnswerIff` | crates/tidefs-kmod-posix-vfs/tidefs_posix_vfs_main.rs:6211-6337 | the plain verdict of a call is its answer if every staged entry ends inside the 64-bit range and the call moves none past it; and a call that rewrites the buffer succeeds only if they do |
| `LiveData.LiveEngine.CollapseRange` | crates/tidefs-kmod-posix-vfs/tidefs_posix_vfs_main.rs:6234-6248 | collapse removes exactly [offset, offset+length) from extents and buffer in step; EINVAL and EFBIG exactly, and then nothing has changed |
| `LiveData.LiveEngine.InsertRange` | crates/tidefs-kmod-posix-vfs/tidefs_posix_vfs_main.rs:6250-6267 | insert opens exactly `length` zero bytes in extents and buffer in step; the exact errors, and the half-done state when the buffer has moved and the extents cannot, which a tidy engine never reaches |
| `LiveData.LiveEngine.PunchRange` | crates/tidefs-kmod-posix-vfs/tidefs_posix_vfs_main.rs:6269-6276 | punching zeroes exactly the range inside the file, frees exactly that range of the map and keeps the size; EFBIG exactly when the buffer cannot be rebuilt, and then nothing has changed |
| `LiveData.LiveEngine.ZeroFileRange` | crates/tidefs-kmod-posix-vfs/tidefs_posix_vfs_main.rs:6271-6299 | zero-range zeroes exactly the range by staging zeros and unmapping exactly the whole blocks inside the range; the exact EFBIG condition |
| `LiveData.LiveEngine.ReserveRange` | crates/tidefs-kmod-posix-vfs/tidefs_posix_vfs_main.rs:6299-6320 | preallocation changes no byte of any file and fills exactly the holes of the range in the map |
| `LiveData.LiveEngine.Flush` | crates/tidefs-kmod-posix-vfs/tidefs_posix_vfs_main.rs:3427-3500 | flushing never changes what any read returns, whether it succeeds or stops at a failing sector or allocation; on success every selected entry is gone; on a healthy device it can fail only with ENOSPC or EFBIG |
| `LiveData.LiveEngine.FlushEntry` | crates/tidefs-kmod-posix-vfs/tidefs_posix_vfs_main.rs:3427-3500 | one staged entry: an entry that fails stays staged over what happened under it |
| `LiveData.LiveEngine.RemoveFile` | crates/tidefs-kmod-posix-vfs/tidefs_posix_vfs_main.rs:2770-2793 | the extents and staged entries of the file go and those of others stay in order, every byte of every other file is as it was, and the tail becomes the least one |
| `LiveData.RemapInStep` | crates/tidefs-kmod-posix-vfs/tidefs_posix_vfs_main.rs:2361-2704 | rearranging extents and buffer by the same remap rearranges the contents by it |
| `LiveData.WriteStaysInside` | crates/tidefs-kmod-posix-vfs/tidefs_posix_vfs_main.rs:3354-3425 | a write, finished or torn, changes no byte read from any other file or offset |
| `LiveData.StillCovered` | crates/tidefs-kmod-posix-vfs/tidefs_posix_vfs_main.rs:3427-3500 | while an entry is staged, what happens to storage under it does not show |
| `LiveData.LiveEngine.CutExtents` | crates/tidefs-kmod-posix-vfs/tidefs_posix_vfs_main.rs:2504-2704 | the rebuild loop of truncate, punch, collapse and insert computes the pieces of each entry pushed in order |
| `LiveData.LiveEngine.SortExtents` | crates/tidefs-kmod-posix-vfs/tidefs_posix_vfs_main.rs:1239-1261 | the per-file insertion sort of the extent vector |
| `LiveData.LiveEngine.InsertEntry` | crates/tidefs-kmod-posix-vfs/tidefs_posix_vfs_main.rs:1215-1237 | the search for the insertion point |
| `LiveData.LiveEngine.PushPieces` | crates/tidefs-kmod-posix-vfs/tidefs_posix_vfs_main.rs:1180-1201 | entries are pushed one after another, merging where they continue the last one |
| `LiveData.LiveEngine.RemapExtents` | crates/tidefs-kmod-posix-vfs/tidefs_posix_vfs_main.rs:2504-2704 | after the four extent operations the vector is still sorted, disjoint and below the tail, and maps each byte to what the remap moved there; an insert is refused, with the vector untouched, exactly when a moved extent would end past the 64-bit range |
| `LiveData.LiveEngine.PlaceRange` | crates/tidefs-kmod-posix-vfs/tidefs_posix_vfs_main.rs:1866-1958 | setting a range replaces exactly that range of the map |
| `LiveData.LiveEngine.Allocate` | crates/tidefs-kmod-posix-vfs/tidefs_posix_vfs_main.rs:1308-1338 | an allocation is block aligned, above every reservation, inside the capacity; ENOSPC and EFBIG exactly when the tail or the aligned length leaves no room |
| `LiveData.LiveEngine.RecomputeTail` | crates/tidefs-kmod-posix-vfs/tidefs_posix_vfs_main.rs:1368-1383 | the tail is the least aligned bound on every reservation, so it can move down safely |
| `LiveData.LiveEngine.FillHoles` | crates/tidefs-kmod-posix-vfs/tidefs_posix_vfs_main.rs:1960-2030 | exactly the unmapped bytes of the range become preallocated |
| `LiveData.LiveEngine.EnsureData` | crates/tidefs-kmod-posix-vfs/tidefs_posix_vfs_main.rs:3295-3352 | each run of bytes without storage gets whole blocks from the tail on, in order, until one does not fit: the answer and the place of every byte are those of a function of the old extents, tail and capacity; no byte that had storage has moved |
| `Handout.OneRun` | crates/tidefs-kmod-posix-vfs/tidefs_posix_vfs_main.rs:1308-1337 | how that function goes from one maximal run of holes or of preallocated bytes to the next: the run gets the blocks at the tail, or nothing further is handed out |
| `Handout.HandedRun` | crates/tidefs-kmod-posix-vfs/tidefs_posix_vfs_main.rs:3295-3352 | a turn of the allocation loop that gives a run its blocks keeps the invariant that the vector holds what the function hands out so far |
| `Handout.HandedShort` | crates/tidefs-kmod-posix-vfs/tidefs_posix_vfs_main.rs:3295-3352 | and one that finds no room has handed out exactly what the function does |
| `LiveData.LiveEngine.WriteExtents` | crates/tidefs-kmod-posix-vfs/tidefs_posix_vfs_main.rs:3354-3425 | the writing loop lands the data at the physical place of every byte of the range and nowhere else; its final length check never fires |
| `LiveData.LiveEngine.ZeroRange` | crates/tidefs-kmod-posix-vfs/tidefs_posix_vfs_main.rs:3253-3293 | every stored byte of the range becomes zero and no other stored byte changes |
| `LiveData.LiveEngine.RemapBuffer` | crates/tidefs-kmod-posix-vfs/tidefs_posix_vfs_main.rs:2261-2502 | the buffer rebuild loops overlay each byte with what the remap moved there, or refuse exactly when the checked end of some entry or merge leaves the 64-bit range |
| `LiveData.LiveEngine.StageRange` | crates/tidefs-kmod-posix-vfs/tidefs_posix_vfs_main.rs:2196-2259 | staging overlays exactly its range, or refuses exactly when the range or some staged entry ends past the 64-bit range |
| `LiveData.LiveEngine.ReadExtents` | crates/tidefs-kmod-posix-vfs/tidefs_posix_vfs_main.rs:902-939 | the early-exit scan gathers what a full scan of the vector would |
| `Media.EarlyExit` | crates/tidefs-kmod-posix-vfs/tidefs_posix_vfs_main.rs:902-939 | no extent behind the exit point can cover a byte of the range |
| `Media.PhysInjective` | crates/tidefs-kmod-posix-vfs/tidefs_posix_vfs_main.rs:1308-1383 | no physical byte serves two logical bytes, of one file or of two |
| `Media.WriteInside` | crates/tidefs-kmod-posix-vfs/tidefs_posix_vfs_main.rs:3094-3182 | a write into one extent, whole or torn, changes no stored byte outside the range |
| `Media.FindFrontier` | crates/tidefs-kmod-posix-vfs/tidefs_posix_vfs_main.rs:3354-3425 | the extents of a fully stored range follow one another without gap from its start to its end |
| `Extents.PushAllKeeps` | crates/tidefs-kmod-posix-vfs/tidefs_posix_vfs_main.rs:1180-1275 | pushing with merges keeps entries disjoint and preserves the logical-to-physical map |
| `Extents.PushAllOrdered` | crates/tidefs-kmod-posix-vfs/tidefs_posix_vfs_main.rs:1180-1275 | pushing with merges keeps the vector grouped by file and sorted |
| `ExtentOps.FlattenMap` | crates/tidefs-kmod-posix-vfs/tidefs_posix_vfs_main.rs:2504-2704 | splitting and shifting every entry moves the map exactly as the remap says |
| `ExtentOps.FlattenLaid` | crates/tidefs-kmod-posix-vfs/tidefs_posix_vfs_main.rs:2504-2704 | the split and shifted entries stay logically and physically disjoint |
| `ExtentOps.FlattenOrdered` | crates/tidefs-kmod-posix-vfs/tidefs_posix_vfs_main.rs:2504-2704 | the split and shifted entries stay grouped and sorted |
| `ExtentSort.SortKeeps` | crates/tidefs-kmod-posix-vfs/tidefs_posix_vfs_main.rs:1239-1261 | sorting one file keeps every entry, the map and the other files, and restores the order |
| `ExtentSort.SortJoined` | crates/tidefs-kmod-posix-vfs/tidefs_posix_vfs_main.rs:1239-1261 | sorting leaves no two entries that could be merged, of either kind |
| `Extents.SpacedIsJoined` | crates/tidefs-kmod-posix-vfs/tidefs_posix_vfs_main.rs:1264-1277 | in an ordered vector it is enough that no entry could be merged with the next one: then no two entries of a file that touch and agree in kind and place are left apart |
| `ExtentUpdate.AlignUp` | crates/tidefs-kmod-posix-vfs/tidefs_posix_vfs_main.rs:1134-1138 | rounding up to the 4096-byte block: the least multiple not below the value |
| `ExtentUpdate.TailIsLeast` | crates/tidefs-kmod-posix-vfs/tidefs_posix_vfs_main.rs:1354-1383 | the recomputed tail bounds every reservation and is the least such aligned value |
| `ExtentUpdate.CutAndSort` | crates/tidefs-kmod-posix-vfs/tidefs_posix_vfs_main.rs:2032-2060 | a cut vector, sorted, keeps all extent invariants and the moved map |
| `ExtentUpdate.PlaceExtent` | crates/tidefs-kmod-posix-vfs/tidefs_posix_vfs_main.rs:1866-1958 | one new extent replaces exactly its range of the map and keeps all extent invariants |
| `ExtentUpdate.FillAndSort` | crates/tidefs-kmod-posix-vfs/tidefs_posix_vfs_main.rs:1960-2030 | filling the holes of a range keeps all extent invariants |
| `WriteBuffer.PushOverlay` | crates/tidefs-kmod-posix-vfs/tidefs_posix_vfs_main.rs:2062-2133 | merging a staged entry into the last one, up to the entry limit, does not change what is overlaid |
| `BufferOps.RebuildOverlay` | crates/tidefs-kmod-posix-vfs/tidefs_posix_vfs_main.rs:2261-2502 | a rebuilt buffer overlays each byte with what its source was overlaid with |
| `BufferOps.RebuildDisjoint` | crates/tidefs-kmod-posix-vfs/tidefs_posix_vfs_main.rs:2261-2502 | a rebuilt buffer has disjoint entries |
| `BufferOps.StageKeeps` | crates/tidefs-kmod-posix-vfs/tidefs_posix_vfs_main.rs:2196-2259 | staging a range over a buffer keeps entries disjoint and overlays exactly the range |
| `BufferOps.FitsWithin` | crates/tidefs-kmod-posix-vfs/tidefs_posix_vfs_main.rs:2261-2502 | a rebuild is never refused while every entry ends inside the 64-bit range, unless it moves entries up past it |
| `BufferOps.InsertEndsIff` | crates/tidefs-kmod-posix-vfs/tidefs_posix_vfs_main.rs:2424-2502 | after an insert every entry ends inside the 64-bit range if and only if every moved entry had room above it |
| `DataLaws.InsertAndCollapse` | crates/tidefs-kmod-posix-vfs/tidefs_posix_vfs_main.rs:6233-6267 | insert followed by collapse of the same range: the way back is open exactly when the insert moved no staged entry past the 64-bit range, and then size, logical-to-physical map and staged bytes are restored |
| `DataLaws.StuckBuffer` | crates/tidefs-kmod-posix-vfs/tidefs_posix_vfs_main.rs:2196-2502 | calls that all succeed after which punching another file answers EFBIG and no write succeeds |
| `DataLaws.PhysicalBytes` | crates/tidefs-kmod-posix-vfs/tidefs_posix_vfs_main.rs:1308-1383 | in every state a stored byte has a physical place of its own, below the tail and inside the capacity |
| `DataLaws.FailedWriteIff` | crates/tidefs-kmod-posix-vfs/tidefs_posix_vfs_main.rs:3295-3425 | after a half-done write every byte of the range is the old or the new one if and only if the storage newly given to bytes the data did not reach held zeros (what has happened on the device decides it) |
| `DataLaws.FailedWriteReads` | crates/tidefs-kmod-posix-vfs/tidefs_posix_vfs_main.rs:5980-6002 | the same about the write call itself, on any engine with any data |
| `DataLaws.FailedWriteForeseen` | crates/tidefs-kmod-posix-vfs/tidefs_posix_vfs_main.rs:5980-6002 | and from the state before the call alone: if every place the write would be handed holds zero or the byte to be written, a failed write reads old or new on any device; with no room for the range this is if and only if; on a healthy device a failed write reads old or new if and only if there is room or the places are such |
| `DataLaws.FailedWriteBefore` | crates/tidefs-kmod-posix-vfs/tidefs_posix_vfs_main.rs:3295-3425 | the same about any outcome of the device |
| `DataLaws.ZerosAreHarmless` | crates/tidefs-kmod-posix-vfs/tidefs_posix_vfs_main.rs:1308-1340 | storage that holds zeros from the tail on is harmless to every write of every range |
| `DataLaws.RefusedWrite` | crates/tidefs-kmod-posix-vfs/tidefs_posix_vfs_main.rs:3295-3352 | a write without room for its range gets the foreseen error; the buffer and the device are untouched, and exactly the foreseen storage has been handed out |
| `DataLaws.FailedWriteShowsOldBytes` | crates/tidefs-kmod-posix-vfs/tidefs_posix_vfs_main.rs:5980-6002 | a call of write that fails after which a byte that read 0 reads 7 |
| `Pool.BlockPool.PoolWrite` | crates/tidefs-kmod-posix-vfs/tidefs_posix_vfs_shim.c:1182-1226 | the block-splitting loop writes exactly the byte range for any offset and block size; a failure leaves each byte old or new; a healthy device never fails inside its size |
| `Pool.BlockPool.PoolRead` | crates/tidefs-kmod-posix-vfs/tidefs_posix_vfs_shim.c:1182-1226 | the block-splitting loop returns exactly the byte range, and does so whenever a healthy device holds it |
| `Pool.BlockPool.WriteLiveEntry` | crates/tidefs-kmod-posix-vfs/tidefs_posix_vfs_main.rs:3094-3182 | the read-modify-write sector loop changes exactly its physical range for any sector size 1..65536 and alignment, composed with the block loop below it; no failure on a healthy device that holds the sectors |
| `Pool.BlockPool.ReadLiveData` | crates/tidefs-kmod-posix-vfs/tidefs_posix_vfs_main.rs:3184-3251 | the sector read loop returns exactly its physical range, and does so whenever a healthy device holds the sectors |
| `Seek.DataRanges` | crates/tidefs-kmod-posix-vfs/tidefs_posix_vfs_main.rs:3620-3682 | the ranges are exactly the stored bytes below the size, ascending and separate |
| `Seek.SeekData` | crates/tidefs-kmod-posix-vfs/tidefs_posix_vfs_main.rs:10353-10368 | the least offset in a data range at or after the argument, or none |
| `Seek.SeekHole` | crates/tidefs-kmod-posix-vfs/tidefs_posix_vfs_main.rs:10371-10388 | the least offset in no data range at or after the argument |
| `Seek.LseekData` | crates/tidefs-kmod-posix-vfs/tidefs_posix_vfs_main.rs:10202-10266 | SEEK_DATA answers the least stored offset at or after the argument and ENXIO exactly when there is none; exactly the bytes up to the answer are passed over, and while staged data lies over stored bytes they all read zero |
| `Seek.LseekHole` | crates/tidefs-kmod-posix-vfs/tidefs_posix_vfs_main.rs:10202-10266 | SEEK_HOLE answers the least offset at or after the argument that is not stored, the size at the latest |
| `Seek.ZeroUnlessStored` | crates/tidefs-kmod-posix-vfs/tidefs_posix_vfs_main.rs:3620-3682 | while staged data lies over stored bytes a byte that is not zero is a stored one |
| `Seek.SeeksSafelyIff` | crates/tidefs-kmod-posix-vfs/tidefs_posix_vfs_main.rs:3620-3682 | no SEEK_DATA in any file from any offset passes over a byte that is not zero if and only if every staged byte of a file that is not zero lies over a stored one |
| `Seek.RunSeeksSafely` | crates/tidefs-kmod-posix-vfs/tidefs_posix_vfs_main.rs:10202-10266 | from a new engine on, in every state of every run with active storage, whatever fails, SEEK_DATA passes over nothing but zeros; without active storage it does until a truncate or insert stops half-way |
| `HalfDone.SeekPastData` | crates/tidefs-kmod-posix-vfs/tidefs_posix_vfs_main.rs:2062-2100 | that such a stop can be reached: without active storage, after calls that all succeed, a truncate is refused with size and extents cut; the next one succeeds, and SEEK_DATA answers ENXIO for a file whose byte reads 7 |
| `HalfDone.ZeroMovesAway` | crates/tidefs-kmod-posix-vfs/tidefs_posix_vfs_main.rs:6250-6267 | a run to an insert that stops between buffer and extents: a byte that has been zeroed reads 7 again after the refused call |
| `HalfDone.ZeroTooLate` | crates/tidefs-kmod-posix-vfs/tidefs_posix_vfs_main.rs:6271-6299 | for every offset in the last block: a byte that reads 7 reads 0 after a zero-range request that is refused with EFBIG |
| `NamespaceRuns.Do` | crates/tidefs-kmod-posix-vfs/tidefs_posix_vfs_main.rs:5068-5821 | one call of any kind on the tables, up to the point where its intent is recorded: invariants kept, exact verdict, exact new state |
| `NamespaceRuns.DirectoriesFormATree` | crates/tidefs-kmod-posix-vfs/tidefs_posix_vfs_main.rs:780-801 | every live directory has exactly one name (the root none), is reached from the root and is not below itself |
| `NamespaceRuns.Lifetime` | crates/tidefs-kmod-posix-vfs/tidefs_posix_vfs_main.rs:2795-2811 | a file record is there exactly while the file has a name, a handle, or has just been handed out unnamed; a record that is gone has neither |
| `NamespaceRuns.ExchangeTwice` | crates/tidefs-kmod-posix-vfs/tidefs_posix_vfs_main.rs:5396-5440 | after an exchange the same exchange is granted again if and only if no directory has to go back to a place 1024 levels deep, and then names, records and counts are as they were |
| `NamespaceRuns.MoveAndBack` | crates/tidefs-kmod-posix-vfs/tidefs_posix_vfs_main.rs:5446-5490 | after a move to a free name the move back is granted if and only if it does not take a directory to a place 1024 levels deep, and then names, records and counts are as they were |
| `NamespaceRuns.DeepMoveRefused` | crates/tidefs-kmod-posix-vfs/tidefs_posix_vfs_main.rs:780-801 | on a namespace reached by calls, for any depth: a directory of the root can be moved to the end of a chain, which is nowhere below it, if and only if the chain is shorter than 1024 |
| `Namespace.Namespace.IsDescendant` | crates/tidefs-kmod-posix-vfs/tidefs_posix_vfs_main.rs:780-801 | the walk answers true if and only if the directory is at or below the ancestor, or lies at least 1024 levels deep |
| `Namespace.Namespace.StepUp` | crates/tidefs-kmod-posix-vfs/tidefs_posix_vfs_main.rs:786-798 | one step of the walk is the parent in the tree |
| `Namespace.Namespace.Rename` | crates/tidefs-kmod-posix-vfs/tidefs_posix_vfs_main.rs:5356-5490 | the table part of a rename: the exact verdict for every flag, kind, emptiness and ancestry case; names move, replace or trade places; records and counts follow; nothing else changes |
| `Namespace.Namespace.RenameCheck` | crates/tidefs-kmod-posix-vfs/tidefs_posix_vfs_main.rs:5375-5459 | the checks of a rename in their order |
| `Namespace.Namespace.ExchangeNames` | crates/tidefs-kmod-posix-vfs/tidefs_posix_vfs_main.rs:5396-5440 | RENAME_EXCHANGE trades two names and keeps the tree and the counts |
| `Namespace.Namespace.MoveName` | crates/tidefs-kmod-posix-vfs/tidefs_posix_vfs_main.rs:5473-5488 | moving a name to a free place keeps the tree and the counts |
| `Namespace.Namespace.Replace` | crates/tidefs-kmod-posix-vfs/tidefs_posix_vfs_main.rs:5441-5488 | replacing a target removes it (or leaves it unnamed while open) and keeps the tree and the counts |
| `Namespace.Namespace.Create` | crates/tidefs-kmod-posix-vfs/tidefs_posix_vfs_main.rs:5068-5110 | the table part of create, mkdir, symlink and mknod: one fresh inode under one fresh name with its starting link count; EIO only from an allocator that may fail |
| `Namespace.Namespace.Tmpfile` | crates/tidefs-kmod-posix-vfs/tidefs_posix_vfs_main.rs:5224-5284 | an unnamed file gets a fresh inode with no links |
| `Namespace.Namespace.Link` | crates/tidefs-kmod-posix-vfs/tidefs_posix_vfs_main.rs:5505-5534 | the table part of a hard link: a name and a link more, never for a directory |
| `Namespace.Namespace.Unlink` | crates/tidefs-kmod-posix-vfs/tidefs_posix_vfs_main.rs:5287-5316 | a name of a file goes, and the record with it exactly when it was the last name and nobody holds the file |
| `Namespace.Namespace.Rmdir` | crates/tidefs-kmod-posix-vfs/tidefs_posix_vfs_main.rs:5318-5352 | an empty directory goes with its record and handles, and its parent loses a link |
| `Namespace.Namespace.Open` | crates/tidefs-kmod-posix-vfs/tidefs_posix_vfs_main.rs:5751-5798 | a handle more for an existing inode |
| `Namespace.Namespace.Release` | crates/tidefs-kmod-posix-vfs/tidefs_posix_vfs_main.rs:5806-5821 | a handle less; the last close of an inode without links takes its record |
| `Namespace.Namespace.FindDirEntry` | crates/tidefs-kmod-posix-vfs/tidefs_posix_vfs_main.rs:707-714 | the first match in the table is the meaning of the name |
| `Namespace.Namespace.DirHasChildren` | crates/tidefs-kmod-posix-vfs/tidefs_posix_vfs_main.rs:753-760 | true exactly when some name lies in the directory |
| `Namespace.Namespace.RemoveEntry` | crates/tidefs-kmod-posix-vfs/tidefs_posix_vfs_main.rs:2826-2837 | every entry under the name goes and all others stay in order |
| `Namespace.Namespace.AddEntry` | crates/tidefs-kmod-posix-vfs/tidefs_posix_vfs_main.rs:803-843 | the entry goes to the end with a cookie above all earlier ones |
| `Namespace.Namespace.AllocateInode` | crates/tidefs-kmod-posix-vfs/tidefs_posix_vfs_main.rs:4730-4782 | the number handed out is not in use, and there is one unless the allocator may fail |
| `Namespace.Namespace.DropIfClosed` | crates/tidefs-kmod-posix-vfs/tidefs_posix_vfs_main.rs:2795-2811 | a record goes exactly when it has no links and no handle |
| `LinkOps.CreateKeeps` | crates/tidefs-kmod-posix-vfs/tidefs_posix_vfs_main.rs:5086-5112 | a new inode under a new name keeps one parent per directory, no dangling entry, true counts and the tree |
| `LinkOps.UnlinkKeeps` | crates/tidefs-kmod-posix-vfs/tidefs_posix_vfs_main.rs:5300-5315 | removing a file name keeps all namespace invariants |
| `LinkOps.RmdirKeeps` | crates/tidefs-kmod-posix-vfs/tidefs_posix_vfs_main.rs:5335-5351 | removing an empty directory keeps all namespace invariants, with its record dropped or left without links |
| `LinkOps.MoveKeeps` | crates/tidefs-kmod-posix-vfs/tidefs_posix_vfs_main.rs:5473-5488 | moving a name keeps all namespace invariants if a directory does not go below itself |
| `LinkOps.TradeKeeps` | crates/tidefs-kmod-posix-vfs/tidefs_posix_vfs_main.rs:5396-5440 | exchanging two names keeps all namespace invariants if neither directory goes below itself |
| `Trees.NoCycle` | crates/tidefs-kmod-posix-vfs/tidefs_posix_vfs_main.rs:780-801 | in a tree no directory is its own ancestor |
| `Trees.Rehang` | crates/tidefs-kmod-posix-vfs/tidefs_posix_vfs_main.rs:5473-5488 | hanging a subtree elsewhere, not below itself, keeps a tree |
| `Trees.Swap` | crates/tidefs-kmod-posix-vfs/tidefs_posix_vfs_main.rs:5396-5440 | exchanging two subtrees that are not above each other keeps a tree |
| `KernelRuns.Run` | crates/tidefs-kmod-posix-vfs/tidefs_posix_vfs_main.rs:5068-6717 | over every run of calls on names, data and attributes (fewer than 2^64 of them): the engine stays valid, link counts stay true, there is a file for every record and a record for every name and handle, no extent or staged entry is without one, and every reply and next state is what the state before and the call allow |
| `KernelRuns.BytesSurvive` | crates/tidefs-kmod-posix-vfs/tidefs_posix_vfs_main.rs:2770-2811 | a file keeps its size and every byte, buffered ones included, as long as it has a name or a handle and no call on data is about it, whatever happens to names, attributes and other files and however calls fail |
| `KernelRuns.NothingAfter` | crates/tidefs-kmod-posix-vfs/tidefs_posix_vfs_main.rs:2770-2793 | where the record is gone there is no name, no handle, no extent, no staged entry and no byte but zero |
| `KernelRuns.RunSeeksSafely` | crates/tidefs-kmod-posix-vfs/tidefs_posix_vfs_main.rs:10202-10266 | the same about SEEK_DATA in every state of every run of calls on names, data and attributes |
| `KernelRuns.AttrsAreCalls` | crates/tidefs-kmod-posix-vfs/tidefs_posix_vfs_main.rs:6585-6717 | in every state of every run each attribute is the one the last successful set or remove left since the record last went, or the starting one |
| `KernelRuns.LeftoverIff` | crates/tidefs-kmod-posix-vfs/tidefs_posix_vfs_main.rs:6585-6717 | an inode without a record has an attribute if and only if the attribute was set (or there at the start) while it had no record and has since been neither removed nor taken along with a record |
| `KernelRuns.FailedIff` | crates/tidefs-kmod-posix-vfs/tidefs_posix_vfs_main.rs:5068-5117 | a call on names that is answered with an error has changed nothing if and only if the tables refused it (or it exchanged two names of the same file) |
| `KernelRuns.AnswerForeseen` | crates/tidefs-kmod-posix-vfs/tidefs_posix_vfs_main.rs:5068-5721 | while allocator and device do not fail, the answer of every call on names can be worked out beforehand from the tables, the length of the log and the buffered records |
| `KernelRuns.TooLateIff` | crates/tidefs-kmod-posix-vfs/tidefs_posix_vfs_main.rs:5068-5721 | and it fails with its work done if and only if the tables grant it and the log has no room for the record |
| `KernelRuns.RunForeseen` | crates/tidefs-kmod-posix-vfs/tidefs_posix_vfs_main.rs:5068-5721 | both of these at every call of every run that starts on a sound device |
| `KernelLaws.FillLog` | crates/tidefs-kmod-posix-vfs/tidefs_posix_vfs_main.rs:3502-3591 | on any engine whose device does not fail, making and removing one directory over and over ends with ENOSPC and the directory there |
| `KernelLaws.FullLogMkdir` | crates/tidefs-kmod-posix-vfs/tidefs_posix_vfs_main.rs:5068-5117 | such an engine: a mkdir on a sound device that is told ENOSPC with the directory made |
| `KernelLaws.LeftoverAttribute` | crates/tidefs-kmod-posix-vfs/tidefs_posix_vfs_main.rs:6585-6655 | an attribute set through the handle of a directory that has been removed: the call succeeds and the attribute stays, without a record |
| `Kernel.KernelEngine.NameCall` | crates/tidefs-kmod-posix-vfs/tidefs_posix_vfs_main.rs:5068-5821 | a call on names: refused by the tables it changes nothing; granted it is carried out, the size and bytes of all files that remain are kept, a new file has its size and is all zeros, the attributes of exactly the inodes that go are gone, and the call gets the answer of the log |
| `Kernel.KernelEngine.DataCall` | crates/tidefs-kmod-posix-vfs/tidefs_posix_vfs_main.rs:5980-6337 | a call on data leaves names, records and the log alone |
| `Kernel.KernelEngine.ChangeAttr` | crates/tidefs-kmod-posix-vfs/tidefs_posix_vfs_main.rs:6585-6717 | a call on attributes gets the refusal of the attributes, or else the answer of the log, which is asked first; a good answer changes one value of one inode, with or without a record, and names and files stay as they are |
| `Kernel.KernelEngine.Record` | crates/tidefs-kmod-posix-vfs/tidefs_posix_vfs_main.rs:6764-6795 | recording an intent touches no byte of any file |
| `Kernel.KernelEngine.Forget` | crates/tidefs-kmod-posix-vfs/tidefs_posix_vfs_main.rs:2770-2793 | with a record go the extents, the staged entries and the attributes of the inode, and no byte of another file |
| `Kernel.RecordsAfter` | crates/tidefs-kmod-posix-vfs/tidefs_posix_vfs_main.rs:5068-5821 | a granted call takes away at most the one record that unlink, rmdir, an overwriting rename or the last close puts at risk |
| `Locks.Run` | crates/tidefs-kmod-posix-vfs/tidefs_posix_vfs_main.rs:6735-6751 | after any run of requests a process holds a byte exactly as its last granted request for that byte said, and no two processes conflict |
| `Locks.LockTable.SetLk` | crates/tidefs-kmod-posix-vfs/tidefs_posix_vfs_main.rs:6735-6751 | granted if and only if no byte of the range is held by another process with either side writing; then who holds what changes exactly on the requested bytes of the requesting process |
| `Locks.LockTable.GetLk` | crates/tidefs-kmod-posix-vfs/tidefs_posix_vfs_main.rs:6718-6734 | reports a conflicting lock exactly when a request would be refused |
| `Locks.LockTable.FindConflict` | crates/tidefs-kmod-posix-vfs/tidefs_posix_vfs_main.rs:453-465 | the first conflicting entry, if any |
| `Locks.LockTable.ReplaceRange` | crates/tidefs-kmod-posix-vfs/tidefs_posix_vfs_main.rs:499-539 | the rebuild loop cuts the range out of the owner's entries, splitting them where needed |
| `Locks.LockTable.Forget` | crates/tidefs-kmod-posix-vfs/tidefs_posix_vfs_main.rs:2770-2793 | removing an inode removes its locks and no others |
| `Locks.GoodMeans` | crates/tidefs-kmod-posix-vfs/tidefs_posix_vfs_main.rs:429-440 | a process holds a byte in one way only, and whoever writes holds it alone |
| `Locks.ConflictMeans` | crates/tidefs-kmod-posix-vfs/tidefs_posix_vfs_main.rs:422-440 | the pairwise conflict test is the byte-by-byte one |
| `Locks.CutBytes` | crates/tidefs-kmod-posix-vfs/tidefs_posix_vfs_main.rs:499-539 | cutting a range takes exactly the owner's hold on exactly those bytes |
| `Locks.GrantKeeps` | crates/tidefs-kmod-posix-vfs/tidefs_posix_vfs_main.rs:6735-6751 | granting a request that meets no conflict keeps the table free of conflicts |
| `Fences.FenceRing.Raise` | crates/tidefs-kmod-posix-vfs/tidefs_posix_vfs_shim.c:4178-4227 | a fence takes the next generation and the next slot; a non-empty range is widened to whole pages |
| `Fences.FenceRing.Snapshot` | crates/tidefs-kmod-posix-vfs/tidefs_posix_vfs_shim.c:4229-4267 | a snapshot reads the last fence over the span while the ring holds every fence, and the last fence of all after that |
| `Fences.FenceRing.StillCurrent` | crates/tidefs-kmod-posix-vfs/tidefs_posix_vfs_shim.c:4269-4277 | current exactly when the reading has not changed |
| `Fences.CurrentIff` | crates/tidefs-kmod-posix-vfs/tidefs_posix_vfs_shim.c:4178-4277 | a snapshot is current if and only if nothing has been raised since, or the ring has not overflowed and nothing raised since overlaps its span |
| `Fences.NeverCurrentAgain` | crates/tidefs-kmod-posix-vfs/tidefs_posix_vfs_shim.c:4178-4277 | once an overlapping fence has been raised an older snapshot is never current again, however often the ring wraps |
| `Fences.ReadingGrows` | crates/tidefs-kmod-posix-vfs/tidefs_posix_vfs_shim.c:4229-4267 | readings of a fixed span never decrease |
| `Fences.ReadThenPublish` | crates/tidefs-kmod-posix-vfs/tidefs_posix_vfs_shim.c:4178-4277 | a reader that snapshots, lets any invalidations happen and then asks may publish only if none of them touched a page of its range |
| `Fences.SpanCovers` | crates/tidefs-kmod-posix-vfs/tidefs_posix_vfs_shim.c:4159-4166 | the page span covers every byte of the range a file offset can name |
| `Fences.SpansShareAPage` | crates/tidefs-kmod-posix-vfs/tidefs_posix_vfs_shim.c:4159-4176 | spans overlap if and only if some page holds bytes of both ranges |
| `Readdir.NextEntry` | crates/tidefs-kmod-posix-vfs/tidefs_posix_vfs_main.rs:8225-8243 | the entry of the directory with the least cookie above the given one |
| `Readdir.ReaddirBatch` | crates/tidefs-kmod-posix-vfs/tidefs_posix_vfs_main.rs:6448-6540 | a batch of at most 128 is exactly the directory's entries between two cookies, in cookie order, and `more` is true exactly when entries remain |
| `Readdir.BatchIsOneByOne` | crates/tidefs-kmod-posix-vfs/tidefs_posix_vfs_main.rs:6448-6540 | a batch is what as many one-entry calls return |
| `Readdir.ReportedOnce` | crates/tidefs-kmod-posix-vfs/tidefs_posix_vfs_main.rs:8197-8265 | no cookie is reported twice in a scan, whatever happens to the directory meanwhile |
| `Readdir.ScanReports` | crates/tidefs-kmod-posix-vfs/tidefs_posix_vfs_main.rs:8197-8265 | an entry present during a whole finished scan is reported exactly once, and everything reported was there |
| `Readdir.ScanByEntry` | crates/tidefs-kmod-posix-vfs/tidefs_posix_vfs_main.rs:8197-8265 | a scan by one-entry calls over any succession of tables |
| `Readdir.ScanByBatch` | crates/tidefs-kmod-posix-vfs/tidefs_posix_vfs_main.rs:6448-6540 | a scan by batches over any succession of tables |
| `Readdir.CookiesAreDistinct` | crates/tidefs-kmod-posix-vfs/tidefs_posix_vfs_main.rs:803-843 | tables of the engine carry distinct cookies while the 32-bit counter has room |
| `IntentRecords.SplitIntentBuffer` | crates/tidefs-kmod-posix-vfs/tidefs_posix_vfs_main.rs:7513-7604 | the splitting loop, on any bytes, terminates inside the buffer and finds the records of `Split` |
| `IntentRecords.SplitIsPrefix` | crates/tidefs-kmod-posix-vfs/tidefs_posix_vfs_main.rs:7513-7604 | the records found, put together again, are the front of the buffer |
| `IntentRecords.SplitIff` | crates/tidefs-kmod-posix-vfs/tidefs_posix_vfs_main.rs:7513-7604 | splitting a log gives back its records if and only if the length rule is right about every one of them |
| `IntentRecords.SplitCut` | crates/tidefs-kmod-posix-vfs/tidefs_posix_vfs_main.rs:7513-7604 | any bytes, cut anywhere, give the first of the records the whole gives: exactly those that end before the cut |
| `IntentRecords.SplitTorn` | crates/tidefs-kmod-posix-vfs/tidefs_posix_vfs_main.rs:7513-7604 | so a log of well-measured records cut at any byte gives back exactly the records that are whole |
| `IntentRecords.FitsIff` | crates/tidefs-kmod-posix-vfs/src/intent_record.rs:222-447 | the length rule is right about exactly write, truncate, fallocate, create, mkdir, unlink, link and rename without overwrite, for all names and numbers |
| `IntentRecords.RecoversIff` | crates/tidefs-kmod-posix-vfs/tidefs_posix_vfs_main.rs:7513-7604 | recovery splits a log of encoded operations into their records if and only if every operation is one of those |
| `IntentRecords.RmdirHidesWhatFollows` | crates/tidefs-kmod-posix-vfs/src/intent_record.rs:288-300 | a log with a removed directory is not recovered, whatever follows it |
| `IntentLog.IntentLog.Record` | crates/tidefs-kmod-posix-vfs/tidefs_posix_vfs_main.rs:6764-6795 | a record is accepted behind all earlier ones or not at all; refused with E2BIG when too long, and otherwise on a healthy device only with ENOSPC |
| `IntentLog.IntentLog.Flush` | crates/tidefs-kmod-posix-vfs/tidefs_posix_vfs_main.rs:3502-3591 | appending loses and reorders nothing; flushed records stay flushed, a failure leaves tail, buffer and logged bytes as they were; ENOSPC exactly when the log would overflow, and on a healthy device nothing else |
| `IntentLog.IntentLog.WriteOut` | crates/tidefs-kmod-posix-vfs/tidefs_posix_vfs_main.rs:3521-3582 | the sector-packing loop puts the records right behind the log and changes no earlier byte, even if a sector write fails |
| `IntentLog.IntentLog.Recover` | crates/tidefs-kmod-posix-vfs/tidefs_posix_vfs_main.rs:7683-7684 | what recovery finds in the log, and exactly when that is the flushed records; on a healthy device it always answers |
| `Xattrs.XattrStore.SetXattr` | crates/tidefs-kmod-posix-vfs/tidefs_posix_vfs_main.rs:6585-6655 | the exact refusals; otherwise the intent is logged first and exactly one value changes; an allowed call on a healthy device fails only with ENOSPC |
| `Xattrs.XattrStore.RemoveXattr` | crates/tidefs-kmod-posix-vfs/tidefs_posix_vfs_main.rs:6688-6717 | the exact refusals; otherwise the intent is logged first and exactly one value goes; an allowed call on a healthy device fails only with ENOSPC |
| `Xattrs.XattrStore.NoteOther` | crates/tidefs-kmod-posix-vfs/tidefs_posix_vfs_main.rs:6764-6795 | intents of other operations leave the attributes equal to the replay of the log |
| `Xattrs.CaughtOne` | crates/tidefs-kmod-posix-vfs/tidefs_posix_vfs_main.rs:6585-6717 | one event, a logged intent or the removal of an inode, keeps the attributes of every inode equal to the starting ones with all events replayed |
| `Xattrs.LogIsEnough` | crates/tidefs-kmod-posix-vfs/tidefs_posix_vfs_main.rs:6585-6717 | for an inode that has not been removed, replaying the logged intents alone gives its attributes |
| `Xattrs.XattrStore.Forget` | crates/tidefs-kmod-posix-vfs/tidefs_posix_vfs_main.rs:2780-2782 | removing an inode takes its attributes and no others |
| `SnapshotCodec.RecordRoundTrip` | crates/tidefs-kmod-posix-vfs/tidefs_posix_vfs_main.rs:4014-4122 | every record the writer accepts reads back, whatever bytes follow it |
| `SnapshotCodec.FieldsRoundTrip` | crates/tidefs-kmod-posix-vfs/tidefs_posix_vfs_main.rs:3798-3912 | a row of little-endian fields reads back |
| `SnapshotParts.ManyRoundTrip` | crates/tidefs-kmod-posix-vfs/tidefs_posix_vfs_main.rs:4313-4411 | a list of records reads back |
| `SnapshotParts.SectionRoundTrip` | crates/tidefs-kmod-posix-vfs/tidefs_posix_vfs_main.rs:4425-4581 | a section reads back, and an empty one is not written |
| `SnapshotParts.RegroupStores` | crates/tidefs-kmod-posix-vfs/tidefs_posix_vfs_main.rs:4534-4578 | attributes written one by one regroup into the stores that held something for a live inode |
| `Snapshot.ImageRoundTrip` | crates/tidefs-kmod-posix-vfs/tidefs_posix_vfs_main.rs:4173-4646 | loading the image of a state gives the restored state, whatever lies behind the image on the device |
| `SnapshotIO.BuildImage` | crates/tidefs-kmod-posix-vfs/tidefs_posix_vfs_main.rs:3980-4152 | the image is built exactly when every record is acceptable, the counts fit and the image is at most 16 MiB |
| `SnapshotIO.Persist` | crates/tidefs-kmod-posix-vfs/tidefs_posix_vfs_main.rs:3942-4171 | persisting writes exactly the image; a refused state writes nothing, and an acceptable one is written whenever a healthy device has room |
| `SnapshotIO.EncodeRecords` | crates/tidefs-kmod-posix-vfs/tidefs_posix_vfs_main.rs:4014-4053 | records are appended in order, or one of them is refused with its reason |
| `SnapshotIO.LoadRecords` | crates/tidefs-kmod-posix-vfs/tidefs_posix_vfs_main.rs:4313-4411 | the counted record loops decode what the format says, or fail |
| `SnapshotIO.LoadSections` | crates/tidefs-kmod-posix-vfs/tidefs_posix_vfs_main.rs:4425-4581 | the section loop decodes what the format says, or fails |
| `SnapshotIO.Load` | crates/tidefs-kmod-posix-vfs/tidefs_posix_vfs_main.rs:4173-4588 | loading answers what the bytes on the device stand for: no snapshot, a stale or damaged one, or the state; on a healthy device it does answer |
| `SnapshotIO.PersistAndLoad` | crates/tidefs-kmod-posix-vfs/tidefs_posix_vfs_main.rs:3942-4646 | persisting and loading on the same device under the same root gives the restored state, and on a healthy device with room both steps succeed |
| `Restore.SaveAndRestore` | crates/tidefs-kmod-posix-vfs/tidefs_posix_vfs_main.rs:3942-4635 | an engine in any valid state is persisted below its file data and another engine loaded from the device: the first keeps every byte, and the second is valid, with the same sizes and buffer, every byte of every file the same, and the least tail, no higher than before; inodes, names and non-empty attribute stores are the same, and the next inode number and cookie are past all of them (but for the largest 64- and 32-bit one); on a healthy device with room this succeeds |
| `KernelRestore.SaveAndRestoreAll` | crates/tidefs-kmod-posix-vfs/tidefs_posix_vfs_main.rs:3942-4635 | the engine as a whole, in any valid state, saved between its log and its file data and loaded: a valid engine with the same entries, records, link counts and next numbers, every byte of every file, data staged over stored bytes if it was before, and the attributes of exactly the inodes with a record; no handle is open, so the files that had lost their last name wait for an open; the engine that was saved stays valid; on a healthy device with room this succeeds |
| `KernelRestore.KeptAttrs` | crates/tidefs-kmod-posix-vfs/tidefs_posix_vfs_main.rs:4101-4122 | the attributes of every inode with a record go through a snapshot, and no others |
| `KernelRestore.NumbersStay` | crates/tidefs-kmod-posix-vfs/tidefs_posix_vfs_main.rs:4589-4635 | loading the tables of a good namespace gives back its next inode number and its next cookie |
| `KernelRestore.TablesDrawn` | crates/tidefs-kmod-posix-vfs/tidefs_posix_vfs_main.rs:3980-4053 | every engine with a file for every record has tables to save, with every field in range if its numbers are |
| `Restore.Reload` | crates/tidefs-kmod-posix-vfs/tidefs_posix_vfs_main.rs:4589-4612 | the loaded tables take the place of the old ones and the allocator starts over behind the loaded extents: the engine is valid and maps every byte as before |
| `Restore.ValidMeansSavable` | crates/tidefs-kmod-posix-vfs/tidefs_posix_vfs_main.rs:3942-4152 | what a valid engine holds belongs to inodes with a record, so the snapshot leaves nothing of it out |
| `Restore.RestoredReads` | crates/tidefs-kmod-posix-vfs/tidefs_posix_vfs_main.rs:4589-4635 | across a snapshot the inodes, names, cookies and non-empty attribute stores are the same, and new inode numbers and cookies are past all old ones |
| `Restore.TrimmedLaid` | crates/tidefs-kmod-posix-vfs/tidefs_posix_vfs_main.rs:4487-4526 | forgetting the reservations beyond the data keeps the extents disjoint and their map |
| `Bio.PageMemory.CopyRequestPayload` | crates/tidefs-block-kmod/tidefs_block_kmod.rs:819-916 | succeeds exactly when the chain's pieces fill the buffer, honouring start index and partial completion; then gathers them in order or scatters the buffer into them |
| `Bio.ScatterThenGather` | crates/tidefs-block-kmod/tidefs_block_kmod.rs:819-916 | with pieces that do not overlap, gathering after a scatter gives back the buffer |

## Left out

- Runs.CleanRun: speaks of runs in which no write failed, no truncate was refused by the buffer and no zero-range failed in the last block of the 64-bit range; after such a failure `Runs.Run` still gives the answers and the other files, and the contract of the call gives its own file.
- Runs.Do: a flush, and a write with room, on a device that may fail is given the errors it can have, not which of them; the device decides that.
- Kernel.KernelEngine.Forget: advisory locks, which go with the record too, are a model of their own (`Locks.LockTable.Forget`).
- Restore.SaveAndRestore: that the inode records carry the sizes of the data engine is a hypothesis (`Portrays`), since the source keeps sizes in the records only; `KernelRestore.TablesDrawn` shows that every engine has such records.
- KernelRestore.SaveAndRestoreAll: the log of the loaded engine starts empty; replaying the old one is a matter of `IntentLog.IntentLog.Recover` and `Xattrs.LogIsEnough`.
- SnapshotIO.Load: the allocator metadata that is read and written after the tables are in place is not modelled, so neither is a failure of it that leaves the new tables behind; a committed root that does not decode is refused with EIO as one that differs, where the source answers EINVAL.
- Namespace.Namespace.Create: link counts are unbounded, so the saturation of a 32-bit count at 2^32-1 links does not occur; a run is bounded by the 64-bit inode numbers instead.
- Namespace.Namespace.AllocateInode: one counter in memory stands for the counter on disk, its generation and the error of writing it.
- Namespace.Namespace.Open: opening an inode that only exists in the on-disk table is not modelled.
- Fences.FenceRing.Raise: requires that the 64-bit generation counter has not wrapped.
- Readdir.CookiesAreDistinct: holds while the 32-bit cookie counter has not reached its ceiling.
- Xattrs.XattrStore.SetXattr: the attributes of one inode are kept in a map by inode instead of a list searched for the inode.
- Snapshot.ImageRoundTrip: images of versions before 4 are refused by the loader and not modelled further.
- Bio.PageMemory.CopyRequestPayload: mapping a page always succeeds, and vectors lie inside their pages as the kernel promises.
- The collapse cursor cache, the append fast paths and the dirty-inode list of the extent vector: they do not change results or are not reached from the live write path.
- Block counts of inodes: a derived number.
- The on-disk extent, inode and directory page formats used when no live state exists.
- Label, ledger and committed-root decoding, mount and unmount, and the C entry points that only pass pointers.
- The legacy fixed inode table and its mirror.
- Access control lists, permissions, statfs, mmap and readahead.
- The user-space crates of the repository.
