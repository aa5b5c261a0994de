# A verified model of the Nachos file system core

This project models the file-system layer of a Nachos teaching kernel
(`code/filesys`) and the thread-id allocator of `code/threads/tid.cc` in
Dafny, and proves properties of the model. The parts modelled are these:

- the file header (`FileHeader`): its on-disk layout, its allocation
  policy per file type, its growth by `Append` through direct,
  single-indirect and double-indirect tiers, its lookups `ByteToSector` and
  `ByteToINodeSector`, and `Deallocate`;
- the index block (`inode`), a one-sector array of sector pointers;
- the directory (`Directory`), a table of fixed-size entries;
- the file system (`FileSystem`): formatting, path resolution
  (`ParseDirectory`), `Create`, `Open` and `Remove`;
- the thread-id allocator, a next-fit scan over a 128-bit map.

## Model structure

Each module follows one source entity.

- **Geometry**: sector and tier constants. `SourceFormulas` proves that
  they are the values of the expressions `filehdr.h` defines them by, and
  that the header fills one sector exactly. It also holds C's int division
  and `divRoundUp`, the pointer width, and `SizeLess`, C's comparison of an
  int with a `size_t` bound.
- **Tiers**: how a virtual sector index splits into tier, block and slot.
  `ByteToSector` and `Append` each do this split in their own way.
- **Headers**: the header as a value (`Hdr`), its sector encoding with
  both round trips, and `SectorAt`, the lookup `ByteToSector` performs.
  It also defines two invariants. `Consistent` says that every reachable
  index block is on the disk, is marked in the bitmap, holds a genuine
  vptr, and is used by one role only. `DataOk` says that every index whose
  lookup names a sector names one that is on the disk and marked. No other
  index and no index block may name that sector.
- **BitMaps**, **Disk**: the environment. The bitmap is a `seq<bool>`, and
  `Find` hands out the lowest clear bit and marks it. The disk is a
  sequence of sectors of `SlotsPerBlock` words each.
- **Inodes**: the `Inode` class, with its vptr and its array `subNode`.
  The object as a value is `Obj`. What `FetchFrom` and `WriteBack` copy
  between an object and a sector is `Fetched` and `Image`. `ReadSlot` is
  what a fresh object reads from an image. There are also value functions
  for `Find` and `Remove`.
- **Allocation**, **Growth**: `Allocate`, `Deallocate`, `Append` and
  `ByteToINodeSector` as functions on a header, the disk and the bitmap.
  The lemmas about them live here.
- **FileHeaders**: the `FileHeader` class. Each of its methods changes
  its fields, the disk and the bitmap in place, loops included. Each is
  proved to leave exactly the state the functions above describe.
- **Directories**: the `Directory` class over a `seq` of entries, with
  value functions for lookup, stamping, appending, compaction and
  write-back.
- **FileSystems**: the `FileSystem` class. Its state is the disk, the
  bitmap file, the directory files and whether the directory handles are
  open. `Parse`, `CreateSpec`, `OpenSpec` and `RemoveSpec` are its
  specification functions, and the methods are proved against them.
- **Tids**: the `TidMap` class, holding `last_tid` and the map.

An operation that stops the program becomes the `Halted` outcome. This
covers these cases:

- a failing `ASSERT`;
- a sector number the disk rejects;
- a NULL handle that is dereferenced;
- a `delete` of an inode object whose vptr is not the one its constructor
  set, which would call through garbage.

The triple-indirect tier of `Append` and `ByteToINodeSector` becomes
`Unmodelled` (see "Left out").

## Behaviour of the source that the model keeps

The model follows the code as written, including these behaviours:

- **Append leaves the counts alone.** `Append` never changes `numBytes` or
  `numSectors`; callers are expected to use `IncFileLength`. It ends by
  asserting that the byte count rounds up to the sector count.
  `AppendUnsizedHalts` shows that this ASSERT stops any append on a header
  whose counts disagree. `AllocateOtherUnsized` shows that every file type
  other than normal, directory and bitmap gets such a header.
- **The triple tier is inconsistent.** `Append` subtracts only
  `MaxDoubleSize` before splitting a triple-tier index (`filehdr.cc:184`).
  `AppendTripleDiverges` shows it then files the first triple-tier index
  under a different block from the one `ByteToSector` reads.
  `AppendTripleOverflows` shows that its top-level slot runs past the end
  of an index block.
- **ByteToSector rereads a block.** In the triple tier `ByteToSector`
  fetches the double-indirect block a second time where it means the
  single-indirect one (`filehdr.cc:341`). `TripleLookupSkipsSubBlock`
  shows that the answer never depends on the single-indirect block.
- **Index blocks lose their last slots.** `inode` declares a virtual
  destructor (`inode.h:18`), so each object starts with a vptr, and
  `subNode` comes after it. `FetchFrom` and `WriteBack` copy the object's
  first `SectorSize` bytes (`inode.cc:69`, `82`). Those bytes are the
  vptr and the first `StoredSlots` slots. The last `PtrWords` slots of an
  index block never reach the disk. The lemmas about this are:
  - `RoundTripLosesLastSlots`: an object survives the round trip exactly
    when those slots are -1;
  - `LostLookupFaults`: `ByteToSector` faults on the indices filed there;
  - `INodeSingleLostSlotRedraws` and `INodeSingleLostSlotLeaks`: each
    `ByteToINodeSector` call for such an index draws, and leaks, another
    sector.

  So the growth results are stated for the indices whose slots are stored
  (`Persisted`).
- **ByteToINodeSector reads a stale block.** In the double tier it reads
  the sub-block from disk even when it has just drawn that sector from the
  bitmap (`filehdr.cc:410`). The read also overwrites sinode's vptr, and
  sinode is deleted at the end (`filehdr.cc:445`). `INodeDoubleStale`
  shows that the call completes exactly when the stale sector starts with
  a genuine vptr. It then returns the stale word as the data sector.
  `INodeDoubleOnBlankDisk` covers a never-written sector. There the vptr
  read is zero, and the call halts.
- **Directory::Remove.** It moves `tableSize-i-1` bytes rather than
  entries (`directory.cc:243`), so the slots after the removed entry are
  not determined. The model takes their contents as a parameter (`junk`).
  Its changes to a local bitmap and header are never written back, so only
  whether it halts is visible (`RemoveOutcome`). Its write-back never
  shrinks the directory file. `RemoveLastKeepsEntry` proves that removing
  the last entry of a directory leaves the directory file unchanged, and
  the removed name can still be opened.
- **Negative indices skip every tier.** The tier sizes of `filehdr.h`
  are `sizeof` expressions, so they are `size_t`. An int compared with one
  of them is converted to `size_t`, and a negative int becomes a value
  above every tier. `SizeLess` is this test, and `SizeLessIsUnsigned`
  relates it to the conversion. The methods make their tier tests with it.
  A negative index therefore gets -1 from `ByteToSector` and from
  `ByteToINodeSector`, which writes back its unchanged bitmap. An
  iteration of `Append`'s loop for a negative index does nothing.
  `AppendAllSkipsNegative` shows that a loop from a negative sector count
  acts like the loop from index 0 over the indices that remain.
  `AppendBelowZero` shows that an `Append` whose new indices are all
  negative answers TRUE and changes nothing. An example is a header with
  `numBytes = -255` and `numSectors = -1`, asked for 128 more bytes. The
  growth lemmas hold for every sector count, negative ones included.
- **ParseDirectory on one component.** It resolves any path with a single
  component to the root directory, even a relative one
  (`ParseSingleComponent`).
- **The tid scan never stops.** The loop counter of `find_next_zero_bit`
  never advances, so the loop test is always true. A scan that finds no
  clear bit at or above its start runs into the bitmap's range ASSERT,
  which is `Halted` in `NextZero`.
- **Formatting leaves the handles NULL.** The formatting constructor
  opens neither directory handle. `CreateUnmountedHalts` shows that every
  `Create` then halts on reading `rootDirectoryFile`.

## Model

| member | source | states |
|---|---|---|
| Geometry.SourceFormulas | code/filesys/filehdr.h:22-31 | `SlotsPerBlock`, `NumDirect` and the three tier sizes equal their defining expressions over `SectorSize` and `sizeof(int)`. `MaxFileSize` is the sum of the tiers times `SectorSize`. Four scalars, `NumDirect` slots and three tier pointers fill one sector. The tier start indices are the running sums. |
| Geometry.CDiv | code/filesys/filehdr.cc:302 | C's int division: the floor of the exact quotient for a non-negative dividend, and its ceiling for a negative one. |
| Geometry.CMod | code/filesys/filehdr.cc:124 | C's `%` has the sign of the dividend, and its magnitude is below the divisor. |
| Geometry.CDivRoundUp | code/filesys/filehdr.cc:124 | `divRoundUp` in C's int arithmetic gives the ceiling of the count over the sector size for every count, negative ones included. For a non-negative count this is `DivRoundUp`, the least number of sectors holding that many bytes. |
| Geometry.SizeLessIsUnsigned | code/filesys/filehdr.h:27-30 | For every C int and every bound below 2^31, `SizeLess` is the comparison after the int is converted to `size_t`, that is, taken modulo `SizeRange`. |
| Tiers.ClassifyPosition | code/filesys/filehdr.cc:308-346 | Every virtual index below `TierEnd` gets exactly one valid slot, and that slot's position is the index again. An index is "beyond" exactly when it is at least `TierEnd`. |
| Tiers.PositionClassify | code/filesys/filehdr.cc:308-346 | Every valid slot is the classification of its own position, so the decomposition is a bijection. |
| Tiers.AppendAgreesBelowTriple | code/filesys/filehdr.cc:137-182 | Below the triple tier, `Append` and `ByteToSector` split an index into the same slot. |
| Tiers.AppendTripleDiverges | code/filesys/filehdr.cc:183-184 | For the first triple-tier index, `Append` uses block 1 while `ByteToSector` uses block 0 of the same top slot. |
| Tiers.AppendTripleOverflows | code/filesys/filehdr.cc:192-194 | For an index inside the triple tier, `Append`'s top-level slot equals `SlotsPerBlock`, which is past the end of an index block. |
| Headers.DecodeEncode | code/filesys/filehdr.h:104-113 | Fetching a header that was written back gives the same header. |
| Headers.EncodeDecode | code/filesys/filehdr.cc:259-285 | Writing back a header fetched from a sector reproduces that sector. |
| Headers.VirtualIndex | code/filesys/filehdr.cc:302 | `offset/SectorSize` with C's division: a non-negative offset lies in the sector it names, and small negative offsets give 0. |
| Headers.VirtualIndexOfSector | code/filesys/filehdr.cc:238 | The byte offset `i*SectorSize` that `Deallocate` looks up names virtual index `i`. |
| Headers.SectorAtFrame | code/filesys/filehdr.cc:300-356 | `ByteToSector` for an index depends only on the index's own direct slot, the tier pointers and the blocks they reach. |
| Headers.TripleLookupSkipsSubBlock | code/filesys/filehdr.cc:331-346 | For a triple-tier index, `ByteToSector`'s answer is unchanged whatever the single-indirect block holds. When it answers, it gives the double-indirect block's own word at the data slot's index. |
| BitMaps.GrantCost | code/filesys/filehdr.cc:143 | `BitMap::Find` marks the bit it hands out and loses exactly one free sector. It hands out -1, changing nothing, exactly when no bit is clear. |
| Inodes.Inode.constructor | code/filesys/inode.cc:12-17 | A new index block has every one of its `SectorSize/sizeof(int)` slots absent. |
| Inodes.Inode.Find | code/filesys/inode.cc:22-40 | Without a bitmap, `Find` returns the slot and changes nothing. With a bitmap, it returns what `FoundSlot` describes. |
| Inodes.FoundSlotFrame | code/filesys/inode.cc:34-39 | With a bitmap, `Find` changes at most slot `i`. A populated slot is returned with the block and bitmap untouched. An absent slot receives the bitmap's lowest clear sector. |
| Inodes.FoundSlotIdempotent | code/filesys/inode.cc:34-39 | A second `Find` of the same slot returns the same sector and changes nothing. |
| Inodes.Inode.Remove | code/filesys/inode.cc:42-50 | The slots afterwards are `RemovedFirst` of the slots before. |
| Inodes.RemovedFirstSpec | code/filesys/inode.cc:42-50 | `Remove(s)` resets only the first slot equal to `s` among the first `SectorSize/BitsInByte` slots. With no match it changes nothing, and slots past the scan are untouched. |
| Inodes.Inode.FetchFrom | code/filesys/inode.cc:66-70 | The object becomes `Fetched` of itself and the sector. The sector's first `PtrWords` words replace the vptr and the rest replace the first `StoredSlots` slots; the array object is the same. |
| Inodes.Inode.WriteBack | code/filesys/inode.cc:80-83 | The sector becomes the object's `Image`: the vptr, then the first `StoredSlots` slots. No other sector changes. |
| Inodes.FetchedSlots | code/filesys/inode.cc:66-70 | After the read, slot i holds word `PtrWords+i` for a stored slot and keeps its old value otherwise. A slot that was -1 holds what `ReadSlot` says. |
| Inodes.ImageOfFetched | code/filesys/inode.cc:66-83 | Writing back an object that has just read a sector writes that sector again. |
| Inodes.ImageWithSlot | code/filesys/inode.cc:80-83 | Setting slot i and writing back changes the image only at word `PtrWords+i`, and not at all for a slot past `StoredSlots`. |
| Inodes.FetchedImage | code/filesys/inode.cc:66-83 | Reading an image back gives the writer's vptr and stored slots. The reader keeps its own last `PtrWords` slots. |
| Inodes.RoundTripLosesLastSlots | code/filesys/inode.cc:66-83 | A fresh object that reads back an image equals the written object exactly when that object's last `PtrWords` slots are -1. |
| Inodes.BlankSectorBreaksVptr | code/filesys/inode.cc:66-70 | A never-written sector is not a genuine image. An object that reads it gets a vptr that is not `Vtable`. |
| Inodes.WithSlotReads | code/filesys/inode.cc:66-83 | After setting stored slot i and writing back, a fresh reader sees the new value in slot i and every other slot as before. Genuineness is unchanged. |
| Inodes.BlankIndexReads | code/filesys/inode.cc:12-17 | The image of a new object is genuine, and every slot read back from it is -1. |
| Allocation.EmptyHdrOwned | code/filesys/filehdr.cc:31-43 | A header as the constructor builds it names no sector. It is `Consistent` and `DataOk` with any disk and bitmap. |
| Allocation.AllocateKeepsData | code/filesys/filehdr.cc:61-121 | After `Allocate`, the header is `Consistent` and `DataOk` with the new bitmap. For the bitmap file's header on a map with a free sector this holds whatever the header held before. For other cases it holds when the old header was `DataOk`. |
| Allocation.AllocateSpec | code/filesys/filehdr.cc:61-121 | `Allocate` always sets type, parent, counts and absent tier pointers. It succeeds exactly when enough sectors are free for the initial count. On failure the direct slots and the bitmap are unchanged. |
| Allocation.AllocateEmpty | code/filesys/filehdr.cc:115-120 | Directories and normal files succeed with zero bytes, zero sectors and every direct slot absent, and the bitmap is untouched. |
| Allocation.AllocateBitmap | code/filesys/filehdr.cc:105-114 | The bitmap file's header, on a map with a free sector, takes the lowest free sector as `dataSectors[0]` and marks only that bit. Its other slots are absent and its counts agree. |
| Allocation.AllocateOtherUnsized | code/filesys/filehdr.cc:83-90 | Other types claim `SectorSize` bytes and `NumDirect` sectors but draw none, so their counts disagree. |
| Allocation.FreedBitsSpec | code/filesys/filehdr.cc:236-243 | `Deallocate`'s loop completes exactly when the first `n` lookups give distinct marked sectors. It then clears exactly those bits and frees `n` sectors. |
| Allocation.FreedBitsStuck | code/filesys/filehdr.cc:238 | Once a `Test` ASSERT fails, every longer run of the loop fails too. |
| Allocation.ReleaseStep | code/filesys/filehdr.cc:238-239 | One more test-and-clear passes exactly when the longer list of sectors is still distinct and marked, and then clears only that sector. |
| Allocation.ReleasedSpec | code/filesys/filehdr.cc:234-249 | `Deallocate` succeeds exactly when the lookups name distinct marked sectors. It then clears exactly those bits and no others, and frees `numSectors` sectors (none for a negative count). The emptied header has zero counts and no index blocks. |
| Allocation.ReleasedKeepsIndexBlocks | code/filesys/filehdr.cc:234-249 | Under `Consistent` and `DataOk`, every index block the header reaches is still marked after `Deallocate`. |
| Allocation.ReleasedWhenOwned | code/filesys/filehdr.cc:236-239 | Under `DataOk`, take a header whose first `numSectors` lookups all name sectors. `Deallocate` never fails a `Test` on it. |
| Allocation.DataSectorsAt | code/filesys/filehdr.cc:238 | The i-th sector in `Deallocate`'s list is the lookup of index i. |
| Allocation.DataSectorsSome | code/filesys/filehdr.cc:236-238 | When none of the first n lookups faults, the list of n sectors exists. |
| Growth.AppendAllStep | code/filesys/filehdr.cc:136 | A run of `k+1` iterations is a completed run of `k` followed by one iteration. |
| Growth.AppendAllStuck | code/filesys/filehdr.cc:136-216 | Once an iteration halts or leaves the modelled tiers, every longer run ends the same way. |
| Growth.TraceRuns | code/filesys/filehdr.cc:136-216 | A state-by-state record of iterations is what the loop computes. |
| Growth.AppendSectorCases | code/filesys/filehdr.cc:137-182 | Below the triple tier, an iteration is the step of the index's tier, at the slot `Append`'s arithmetic computes. |
| Growth.AppendSectorGrows | code/filesys/filehdr.cc:137-182 | Below the triple tier, one iteration keeps `Consistent` and the loop's invariant on sinode and dinode. It moves no other answering lookup and leaves the counters alone. A persisted index then names a sector unless the bitmap ran out. |
| Growth.AppendSectorStepped | code/filesys/filehdr.cc:137-182 | The same iteration also moves an index block only onto a sector that was free. A sector newly named for the index was free, is now marked and holds no index block. On a header whose tier pointers are ordered, the order stays and no other lookup changes, whether it answered or faulted. |
| Growth.WithIndexSteady | code/filesys/filehdr.cc:146-162 | Drawing a missing single- or double-indirect block keeps the invariants and moves no other lookup. The lookup of an index in that tier faults before and after. |
| Growth.AppendSectorKeepsCounters | code/filesys/filehdr.cc:137-215 | One iteration never writes the counts, the type, the parent or the triple pointer. |
| Growth.AppendSectorHaltsOnlyWhenFull | code/filesys/filehdr.cc:143-168 | Below the triple tier, an iteration halts only when fewer than two sectors are free. |
| Growth.AppendSectorFilledNoop | code/filesys/filehdr.cc:140-177 | An iteration over a slot that is already populated changes nothing and draws no sector. |
| Growth.AppendAllFilledNoop | code/filesys/filehdr.cc:136-216 | Appending over a range whose slots are all populated changes nothing. |
| Growth.AppendAllKeepsCounters | code/filesys/filehdr.cc:136-216 | The loop never writes `numBytes`, `numSectors`, the type, the parent or the triple pointer. |
| Growth.AppendAllGrows | code/filesys/filehdr.cc:136-216 | After `k` iterations below the triple tier the header is consistent and answers outside the range are unchanged. Every persisted index in the range names a sector unless the bitmap ran out. |
| Growth.ReachesKeepsData | code/filesys/filehdr.cc:136-216 | A completed run of iterations below the triple tier keeps `Consistent`, the loop's invariant and `DataOk`. |
| Growth.StepKeepsData | code/filesys/filehdr.cc:137-182 | One iteration below the triple tier keeps the same three invariants. |
| Growth.DataStep | code/filesys/filehdr.cc:137-182 | Take a step that keeps marked bits marked, has index blocks only take free sectors, and names for v only a sector that was free and holds no index block. If it also moves no other lookup and keeps the pointers ordered, it keeps `DataOk`. |
| Growth.AppendSpecGrows | code/filesys/filehdr.cc:123-225 | For every sector count, negative ones included: `Append` fails, changing nothing, exactly when more sectors are asked for than are free. Success keeps the invariant and covers the new persisted indices, all as `AppendAllGrows` says. The counts must already have agreed. |
| Growth.AppendSpecKeepsData | code/filesys/filehdr.cc:123-225 | On a header that is `DataOk`, `Append` leaves one that is `DataOk`. Every sector it names, old or new, is on the disk and marked. No other index and no index block names the same sector. |
| Growth.AppendDeletesSafely | code/filesys/filehdr.cc:218-224 | Once the loop completes on a consistent header whose counts agree, the deletes of sinode and dinode are safe and `Append` answers TRUE. |
| Growth.AppendAllSkipsNegative | code/filesys/filehdr.cc:136-143 | The loop over indices from a negative `first` ends as the loop from index 0 over the indices from 0 on does. The iterations for negative indices do nothing. |
| Growth.GrownAllSkipsNegative | code/filesys/filehdr.cc:136-216 | Growth over the non-negative part of a loop's range is growth over the whole range. |
| Growth.AppendBelowZero | code/filesys/filehdr.cc:123-225 | When every new index is negative, the free-space check passes and the counts agree, `Append` answers TRUE and changes nothing. |
| Growth.AppendNothing | code/filesys/filehdr.cc:124-136 | `Append` of zero or fewer bytes, on a header whose counts agree, answers TRUE and changes nothing. |
| Growth.AppendOverFilled | code/filesys/filehdr.cc:136-224 | `Append` over indices whose slots are all populated, on a header whose counts agree, answers TRUE and changes nothing. |
| Growth.AppendUnsizedHalts | code/filesys/filehdr.cc:218 | A header whose byte count does not round up to its sector count never completes an `Append` that passed the free-space check. |
| Growth.INodeDirect | code/filesys/filehdr.cc:371-377 | For a direct index, `ByteToINodeSector` returns the slot and reads and writes nothing. `ByteToSector` gives the same slot. |
| Growth.INodeSectorSingle | code/filesys/filehdr.cc:382-399 | A single-tier index takes the single-indirect branch at slot `v - NumDirect`. |
| Growth.INodeSectorDouble | code/filesys/filehdr.cc:400-417 | A double-tier index takes the double-indirect branch at its sub-block and slot. |
| Growth.INodeSectorTriple | code/filesys/filehdr.cc:418-439 | A triple-tier index is `Unmodelled`. |
| Growth.INodeBeyond | code/filesys/filehdr.cc:379-455 | For a negative index, and past the last tier, the lookup answers -1 and changes nothing. `ByteToSector` then also gives -1. |
| Growth.INodeSectorIsAppend | code/filesys/filehdr.cc:382-417 | In the single tier, and in the double tier when the sub-block exists, the lookup completes exactly when one `Append` iteration does, and leaves its state. It returns -1 only when the bitmap ran out. For a persisted index, the sector it returns is the one `ByteToSector` then names. |
| Growth.INodeSingleIsAppend | code/filesys/filehdr.cc:382-399 | The single-tier case of `INodeSectorIsAppend`. |
| Growth.INodeDoubleIsAppend | code/filesys/filehdr.cc:400-417 | The double-tier case of `INodeSectorIsAppend`, when the sub-block exists. |
| Growth.INodeSingleIdempotent | code/filesys/filehdr.cc:382-399 | Asking again for a persisted single-tier index returns the same sector and changes nothing. |
| Growth.INodeSingleLostSlotRedraws | code/filesys/filehdr.cc:382-399 | For a single-tier index that is not persisted, each call hands out what `BitMap::Find` gives, the lowest free sector (marked) or -1. The block on disk is unchanged, and `ByteToSector` faults on that index. |
| Growth.INodeSingleLostSlotLeaks | code/filesys/filehdr.cc:382-399 | Two calls for such an index hand out two different sectors, and both remain marked. |
| Growth.INodeDoubleStale | code/filesys/filehdr.cc:400-445 | When the sub-block is missing, the sector drawn for it is read from disk. The call completes exactly when that sector starts with a genuine vptr. It then returns the stale word in the data slot and draws only the sub-block's sector. |
| Growth.INodeDoubleOnBlankDisk | code/filesys/filehdr.cc:410-445 | On a never-written free sector, sinode reads a zero vptr. The call halts at its `delete`. |
| Headers.LostLookupFaults | code/filesys/filehdr.cc:311-345 | Whatever the disk holds, `ByteToSector` faults for an index filed in a slot that no sector image stores. |
| FileHeaders.FileHeader.constructor | code/filesys/filehdr.cc:31-43 | A new header has zero counts, no type or parent, and every slot and tier pointer absent. |
| FileHeaders.FileHeader.Allocate | code/filesys/filehdr.cc:61-121 | The new header and bitmap, and the result, are `AllocateSpec` of the old header and bitmap. |
| FileHeaders.FileHeader.ClearSlotsFrom | code/filesys/filehdr.cc:106-118 | The direct slots from `from` on become absent, and the earlier ones are kept. |
| FileHeaders.FileHeader.GrowSingle | code/filesys/filehdr.cc:144-156 | One single-tier iteration leaves the header, disk and bitmap that `AppendSingle` describes, or halts as it does. |
| FileHeaders.FileHeader.GrowDouble | code/filesys/filehdr.cc:157-182 | One double-tier iteration leaves what `AppendDouble` describes, or halts as it does. |
| FileHeaders.FileHeader.GrowDoubleSub | code/filesys/filehdr.cc:166-181 | The rest of a double-tier iteration, once dinode holds the top block, leaves what `AppendDoubleSub` describes or halts as it does. A missing sub-block gets a new sinode. |
| FileHeaders.FileHeader.GrowAt | code/filesys/filehdr.cc:137-215 | One iteration for index `v`, with the `size_t` tier tests, leaves what `AppendSector` describes, or halts or leaves the model as it does. For a negative `v` it changes nothing. |
| FileHeaders.FileHeader.GrowNext | code/filesys/filehdr.cc:136-216 | Each completed iteration extends the recorded run. A failing one ends `AppendAll` the same way. |
| FileHeaders.FileHeader.GrowAll | code/filesys/filehdr.cc:136-216 | The loop over `sectorsToAdd` indices after `numSectors` leaves `AppendAll`'s state, or halts as it does. |
| FileHeaders.FileHeader.Append | code/filesys/filehdr.cc:123-225 | The result and the new header, disk and bitmap file are those of `AppendSpec`. |
| FileHeaders.FileHeader.ReleaseNext | code/filesys/filehdr.cc:236-243 | One iteration of `Deallocate`'s loop either extends the freed run by one sector and clears its direct slot, or fails with the whole loop. |
| FileHeaders.FileHeader.Deallocate | code/filesys/filehdr.cc:234-249 | `Deallocate` halts exactly when `Released` does. Otherwise it leaves `Released`'s header and bitmap. |
| FileHeaders.FileHeader.FetchFrom | code/filesys/filehdr.cc:259-267 | The header becomes the decoding of the sector. |
| FileHeaders.FileHeader.WriteBack | code/filesys/filehdr.cc:277-285 | The sector becomes the encoding of the header, and no other sector changes. |
| FileHeaders.FileHeader.LocateSingle | code/filesys/filehdr.cc:382-399 | The single-tier branch of `ByteToINodeSector` returns `INodeSector`'s sector and leaves its state. |
| FileHeaders.FileHeader.LocateDouble | code/filesys/filehdr.cc:400-417 | The double-tier branch returns `INodeSector`'s sector and leaves its state. |
| FileHeaders.FileHeader.LocateDoubleSub | code/filesys/filehdr.cc:409-445 | The rest of the double-tier branch, once dinode holds the top block, returns `INodeDoubleSub`'s sector and leaves its state, including the deletes. |
| FileHeaders.FileHeader.ByteToINodeSector | code/filesys/filehdr.cc:358-455 | The answer and the new header, disk and bitmap file are those of `INodeSector` at `offset/SectorSize`. For a negative index it answers -1 and writes the unchanged bitmap back. |
| FileHeaders.FileHeader.IncFileLength | code/filesys/filehdr.h:92 | `FileLength` grows by `bytesToAdd`, `numSectors` by `sectorsToAdd`, and nothing else changes. |
| FileHeaders.FileHeader.DecFileLength | code/filesys/filehdr.h:93-97 | Both counts drop by the given amounts, and nothing else changes. The length stays non-negative, as the ASSERT demands. |
| Directories.Truncate | code/filesys/directory.cc:197 | A stored name keeps at most `FileNameMaxLen` characters, is a prefix of the given name, and equals it when short enough. |
| Directories.IndexOf | code/filesys/directory.cc:117-128 | `FindIndex` gives the least index of an entry in use under the name (compared on `FileNameMaxLen` characters), or -1 exactly when there is none. |
| Directories.StampKeepsLookups | code/filesys/directory.cc:146-151 | Stamping the access and modify times changes no `FindIndex`, `Find` or `IsDirectory` answer. |
| Directories.AppendLookups | code/filesys/directory.cc:192-211 | The appended entry is found at the old table size, with its sector and type. Every lookup that already succeeded is unchanged. |
| Directories.Compacted | code/filesys/directory.cc:241-246 | The compacted table is one entry shorter and keeps the entries before `i`. The rest hold what the byte-count `memcpy` leaves. |
| Directories.CompactLast | code/filesys/directory.cc:241-246 | Dropping the last entry keeps exactly the others. |
| Directories.Written | code/filesys/directory.cc:98-106 | `WriteBack` overwrites the front of the file with the table and writes nothing for an empty table. The file never shrinks and keeps its tail. |
| Directories.WrittenRoundTrip | code/filesys/directory.cc:80-103 | Fetching the file back yields the table exactly when the file held no more entries than the table. |
| Directories.WrittenShorterKeeps | code/filesys/directory.cc:101-103 | Writing back a table that lacks only the file's last entry leaves the file as it was. |
| Directories.ListedNames | code/filesys/directory.cc:265-270 | Every listed name is found by `FindIndex`, and every entry in use is listed. |
| Directories.ShrinkCrossesSectorMeaning | code/filesys/directory.cc:248 | For a length of at least one entry, the size_t test asks whether dropping one entry's bytes frees a sector. A shorter length wraps around and never passes. |
| Directories.RemoveAbsent | code/filesys/directory.cc:224-227 | `Remove` answers FALSE exactly when the name is in no entry in use. |
| Directories.Directory.constructor | code/filesys/directory.cc:40-49 | A new directory has an empty table and the given sector. |
| Directories.Directory.FetchFrom | code/filesys/directory.cc:71-88 | The table becomes the file's entries, and `selfSector` becomes the file's descriptor. |
| Directories.Directory.WriteBack | code/filesys/directory.cc:98-106 | The file afterwards is `Written` of its old contents and the table. |
| Directories.Directory.FindIndex | code/filesys/directory.cc:117-128 | The scan returns `IndexOf`. |
| Directories.Directory.Find | code/filesys/directory.cc:140-155 | It returns the matched entry's sector or -1. Only that entry's access and modify stamps change. |
| Directories.Directory.IsDirectory | code/filesys/directory.cc:157-168 | It is true exactly when some entry matches and the first match is a directory. |
| Directories.Directory.Add | code/filesys/directory.cc:181-212 | It succeeds exactly when the name is absent and the table holds fewer than `MaxDirectorySize` entries. On success it appends one entry; on failure the table is unchanged. |
| Directories.Directory.Remove | code/filesys/directory.cc:223-257 | The answer is `RemoveOutcome`. FALSE leaves the table unchanged; TRUE leaves the compacted table. The disk and the bitmap file are untouched. |
| Directories.Directory.List | code/filesys/directory.cc:265-270 | It returns the names of the entries in use, in table order. |
| FileSystems.FirstSlash | code/filesys/filesys.cc:198 | `strchr(s, '/')` is -1 exactly when there is no slash. Otherwise it is the position of the first slash. |
| FileSystems.WalkNeverUnmodelled | code/filesys/filesys.cc:210-257 | The descent loop always ends with a sector or a halt. |
| FileSystems.ParseNeverUnmodelled | code/filesys/filesys.cc:173-258 | `ParseDirectory` always resolves or halts. |
| FileSystems.ParseSingleComponent | code/filesys/filesys.cc:192-208 | A path with one component resolves to `DirectorySector` with itself as the leaf. This holds absolute or relative, from any current directory. |
| FileSystems.ParseTwoComponents | code/filesys/filesys.cc:210-257 | `a/b` descends into `a` when it is a directory of the root on the disk, with leaf `b`. It gives -1 when `a` is absent or not a directory. |
| FileSystems.RemoveInDirShape | code/filesys/filesys.cc:515-539 | A successful `Remove` found the name, frees the header's sector, and leaves the header sectors and handles alone. It writes the table without the entry. |
| FileSystems.CreateUnmountedHalts | code/filesys/filesys.cc:340 | With NULL handles, as formatting leaves them, every `Create` halts. |
| FileSystems.CreateFailsCleanly | code/filesys/filesys.cc:308-321 | A `Create` that answers FALSE writes nothing. |
| FileSystems.CreateSucceeds | code/filesys/filesys.cc:313-332 | A successful `Create` puts the header in the lowest free sector, with the requested type and the directory as parent. That sector is marked and no other header sector changes. |
| FileSystems.CreateThenOpen | code/filesys/filesys.cc:289-398 | A file created under a root-level name opens under that name to its header's sector. Creating the name again answers FALSE and changes nothing. |
| FileSystems.RemoveAbsentFails | code/filesys/filesys.cc:515-520 | Removing a name absent from its directory answers FALSE and writes nothing. |
| FileSystems.RemoveKeepsHeaders | code/filesys/filesys.cc:521-529 | A successful `Remove` frees the header's sector but rewrites no header sector. |
| FileSystems.RemoveLastKeepsEntry | code/filesys/filesys.cc:530-533 | Removing a directory's last entry leaves the directory file unchanged, and `Open` of the name answers as before. |
| FileSystems.FormatLayout | code/filesys/filesys.cc:97-104 | After sectors 0 and 1 are reserved, the bitmap header receives sector 2 and the root header none. Both ASSERTed allocations succeed, with parent -1, and exactly sectors 0, 1 and 2 are marked. |
| FileSystems.FormatHeaders | code/filesys/filesys.cc:88-113 | Formatting's first half leaves the bitmap and the two header sectors that `FormatLayout` describes. |
| FileSystems.FileSystem.Format | code/filesys/filesys.cc:87-158 | Formatting also writes the bitmap file and the empty root directory, and leaves the handles NULL. |
| FileSystems.FileSystem.Mount | code/filesys/filesys.cc:159-167 | Mounting opens the existing files, and the handles are open. |
| FileSystems.FileSystem.ParseDirectory | code/filesys/filesys.cc:173-258 | The sector and the rewritten name buffer are those of `Parse`. |
| FileSystems.FileSystem.Descend | code/filesys/filesys.cc:210-257 | The loop over the components returns `Walk` from the root table. |
| FileSystems.FileSystem.Create | code/filesys/filesys.cc:289-353 | It halts exactly when `CreateSpec` halts. Otherwise it answers and leaves the state `CreateSpec` gives. |
| FileSystems.FileSystem.CreateIn | code/filesys/filesys.cc:308-332 | The steps between fetching and releasing the directory leave `CreateInDir`'s effect. |
| FileSystems.FileSystem.CreateNew | code/filesys/filesys.cc:313-332 | Once the name is known absent, the remaining steps leave `CreateInDir`'s effect. |
| FileSystems.FileSystem.CreateInstall | code/filesys/filesys.cc:320-332 | `Allocate` and then the three writes leave `Install`'s effect. |
| FileSystems.FileSystem.Open | code/filesys/filesys.cc:366-398 | The sector of the returned file, or -1 for NULL, is `OpenSpec`. Nothing is written. |
| FileSystems.FileSystem.Remove | code/filesys/filesys.cc:501-540 | It halts exactly when `RemoveSpec` halts. Otherwise it answers and leaves the state `RemoveSpec` gives. |
| FileSystems.FileSystem.RemoveIn | code/filesys/filesys.cc:515-539 | The steps after the directory fetch leave `RemoveInDir`'s effect. |
| FileSystems.FileSystem.ReleaseFile | code/filesys/filesys.cc:521-529 | It succeeds exactly when `Released` does. The bitmap file then has the data bits and the header's bit cleared. |
| FileSystems.FileSystem.DropIn | code/filesys/filesys.cc:530-533 | `Directory::Remove` and the write-back leave `DropEntry`'s effect. |
| Tids.NextZeroMeaning | code/threads/tid.cc:44-63 | `find_next_zero_bit` answers -1 exactly when no bit is clear. It halts exactly when a bit is clear but none at or above `t` (or `t` is negative). Otherwise it gives the least clear bit at or above `t`. |
| Tids.NextZeroAfterCursor | code/threads/tid.cc:17-38 | When every bit above the cursor is clear, the scan from just above it takes the next id. |
| Tids.TidMap.constructor | code/threads/tid.cc:11-12 | Initially `last_tid` is -1 and every bit is clear. |
| Tids.TidMap.FindNextZeroBit | code/threads/tid.cc:44-63 | The answer is `NextZero`. A found bit is marked and becomes `last_tid`; otherwise nothing changes. |
| Tids.TidMap.AllocTid | code/threads/tid.cc:17-38 | It answers -1 once `last_tid + 1` reaches `TID_MAX_DEFAULT` (128). Otherwise it hands out exactly `last_tid + 1` and marks it, so ids strictly increase. It never halts. |
| Tids.TidMap.ClearBit | code/threads/tid.cc:40-42 | It clears only bit `t`, or halts for an id out of range. The cursor never moves back. |
| Tids.TidMap.FreeTid | code/threads/tid.cc:14-16 | `free_tidmap` changes nothing: its body is empty, and the method may modify nothing and keeps the cursor and the map. |

## Left out

- The Nachos headers `disk.h`, `bitmap.h`, `utility.h` and `directory.h`
  are not part of this model. Their constants are taken at the values of
  standard Nachos: 128-byte sectors, 1024 sectors, 4-byte ints and 9-char
  names. The size of a directory entry is left as an unspecified positive
  constant. `divRoundUp` and `divRoundDown` are taken as the standard
  Nachos macros, in C's int arithmetic. `divRoundUp(n, s)` is `n / s` plus
  one when `n % s` is positive (`Geometry.CDivRoundUp`), and
  `divRoundDown(n, s)` is `n / s` (`Geometry.CDiv`).
- BitMap and the synchronous disk are modelled by their effect only: a
  bit sequence, and a sequence of sectors of ints.
- `OpenFile` is not part of this model. A directory file's contents are
  modelled as a sequence of whole entries, so its length is always a
  multiple of the entry size. `WriteAt` overwrites in place and never
  truncates. A newly created file holds no entries. When a write grows
  the directory file, `WriteAt` would also append sectors to that file's
  header and draw them from the bitmap. Those effects are not modelled.
  So `CreateSucceeds` and `RemoveKeepsHeaders`, which say that no other
  header sector changes, leave out the directory file's own header and
  the sectors its growth draws.
- The triple-indirect tier of `Append` and `ByteToINodeSector` is
  `Unmodelled`: its index arithmetic runs past the index blocks
  (`filehdr.cc:194`, `434`). Only its thresholds and the disagreements
  shown by the `AppendTriple…` lemmas are modelled. `ByteToSector`'s triple
  tier is modelled as written.
- Growth.AppendSpecGrows: proved only for ranges below the triple tier, for
  the reason above. The same holds for `AppendSpecKeepsData`,
  `AppendAllGrows`, `ReachesKeepsData` and `INodeSectorIsAppend`.
- Growth.AppendSpecGrows, Growth.AppendSpecKeepsData and
  Growth.AppendDeletesSafely: they require that a header whose sector
  count already reaches the double tier has a single-indirect block. This
  mirrors `ByteToSector`'s ASSERT on both pointers for a double-tier index
  (`filehdr.cc:323`). `Append` draws the single-indirect block only while
  it fills the single tier, so without one every later double-tier lookup
  halts.
- The pointer size and the address of `inode`'s virtual table are not in
  the source. `PtrWords` is a constant in 1..2 (4- or 8-byte pointers).
  `size_t` is taken as wide as a pointer, so `SizeRange` is 2^32 or 2^64.
  `Vtable` is a constant whose first word is non-zero, which assumes a
  little-endian machine when pointers are 8 bytes. Every result holds for
  either pointer size.
- Growth.AppendSpecKeepsData and Allocation.ReleasedKeepsIndexBlocks: the
  data-sector invariant is carried from a header that already holds it.
  `EmptyHdrOwned` and `AllocateKeepsData` establish it for a new header.
  It does not read the counts, so `IncFileLength` and `DecFileLength`
  cannot break it.
- Clock readings (`time`/`ctime`) become a stamp parameter (`now`).
- The slots that `Directory::Remove`'s byte-count `memcpy` leaves
  uninitialised become a parameter (`junk`).
- `Print` (FileHeader, Directory, FileSystem), `FileSystem::List` and the
  console output of `List`, `Open` and `Remove` are diagnostics and are
  not modelled. `Directory::List` returns the stored names it would
  print. `Add` copies a name with `strncpy` of `FileNameMaxLen` characters
  (`directory.cc:197`). It leaves no terminating NUL for a name that long
  or longer, and the entry's last byte is never set. `printf` would then
  print past the name, which the model does not describe.
- `FileSystem::RecurseRemove` is not modelled; it duplicates
  `ParseDirectory`.
- The state after a halt is not described: `Halted` says only that the
  program stops.
- FileHeaders.FileHeader.IncFileLength: does not model 32-bit wrap-around
  of the counts, which the source does not guard against.
- FileHeaders.FileHeader.DecFileLength: the source's ASSERT is a
  precondition, not a halt.
- Memory management (`delete` versus `delete[]`, leaked index blocks) and
  concurrency are not modelled.
- The current directory is always the root, because nothing in the
  modelled core changes it. `free_tidmap` has an empty body and is
  modelled as a method that changes nothing.
- `inode::Check` and `FileHeader::FileLength` are plain queries defined
  by their bodies. `ByteToSector` is the function `SectorAt`, described
  by the `Headers` and `Growth` lemmas rather than by contracts of its own.
