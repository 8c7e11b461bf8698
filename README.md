# FS-Driver-for-file, modelled in Dafny

A filesystem that lives inside one flat file. The file is cut into blocks of
1024 bytes:

- block 0 holds the header;
- a bitmap area follows, with one bit per block;
- then a table of descriptors (files, directories, symbolic links);
- then the data blocks, which hold the overflow segments of directories.

The model follows the program's layers, one module each:

| module | file | what it models |
|---|---|---|
| `Errors` | errors.dfy | the exception kinds the engine throws, and the `Result`/`Outcome` wrappers every layer returns |
| `Blocks` | blocks.dfy | bitmap blocks (get, set, first-zero scan, reset); directory entries with their fixed-width, NUL-terminated names; descriptor-variant flags; the typed block layouts (header, descriptor, data part) |
| `Storage` | storage.dfy | the buffer pool with its free list and occupied set; the move-only write-back block handles; the block accessor and its formatted layer (header checks, refusing block 0, format) |
| `Areas` | areas.dfy | the bitmap, descriptor and data areas: range checks, address ↔ (bitmap block, bit) and index ↔ (table block, slot) mappings, the three-phase first-free scan, first-fit descriptor append, reference counting |
| `Directory` | directory.dfy | a directory's stored listing and the iterator's walk over ".", "..", the inline entries and the chain of overflow blocks, as functions; the four storage callbacks the algorithms use |
| `Iterators` | iterator.dfy | the directory iterator as an object with mutable position fields, and the append-to-end and swap-with-last delete algorithms |
| `FileSystemDriver` | filesystem.dfy | formatting, path resolution, descriptor and data-block allocation, `create`, `mkdir`, `unlink`, `rmdir`, `link`, `cd`, and the open-file table |
| `Paths` | path.dfy | splitting a path into components at '/' |
| `Completion` | completion.dfy | the string helpers of the command line: deleting the last character, prefix filtering and the longest common prefix for tab completion |

The file is a map from block address to a typed block value. A block read as a
layout other than the one last written reads as that layout's zero value.
Buffers, handles, areas, iterators and the file system are classes whose
methods update their fields in place. The directory walk, the listing a
directory stores, path resolution and the removal decision are functions,
and the methods are proved against them.

Several methods that walk or change directories take a ghost flag `proved`.
With it false, a method runs on any state and promises only its basic
outcome (what it refuses, what it leaves unchanged). With it true, the caller
vouches for the named precondition, such as a healthy formatted file or a
directory stored as laid out, and the method promises its full effect. This
mirrors the source, whose code runs on any file contents but has a defined
effect only on a consistent file system.

Integer widths matter in two places, and both are written out:

- the iterator's position is an unsigned 64-bit value, whose wrap-around sentinels stand for "before start", "." and "..";
- the id counter of the open-file table is also unsigned 64-bit.

## Model

| member | source | states |
|---|---|---|
| Blocks.Or | FS-Driver-for-file/filesystemblock.cpp:7-10 | the union of two variants carries exactly the flags of either |
| Blocks.OrFlags | FS-Driver-for-file/filesystemblock.cpp:7-10 | bitwise or works flag by flag, for all eight flags |
| Blocks.And | FS-Driver-for-file/filesystemblock.cpp:12-15 | the intersection carries exactly the common flags, and it is zero exactly when the variants share no flag |
| Blocks.BitsAreFlags | FS-Driver-for-file/filesystemblock.cpp:12-15 | a byte is zero exactly when none of its eight flags is set |
| Blocks.VariantNameCases | FS-Driver-for-file/filesystemblock.cpp:65-100 | a mixed variant prints the names of its file, symlink and directory parts in that order joined by " or "; "bad variant" comes out exactly for a non-empty variant with no bit of Any |
| Blocks.JoinedParts | FS-Driver-for-file/filesystemblock.cpp:89-99 | the loop that appends " or " before every name but the first yields the names joined by " or ", and a non-empty result for at least one flag |
| Blocks.Truncated | FS-Driver-for-file/filesystemblock.cpp:111-113 | the stored name is the longest prefix of the name of at most the maximum length |
| Blocks.StoredName | FS-Driver-for-file/filesystemblock.cpp:115-121 | the buffer holds the truncated name, a terminating NUL right after it when it is shorter than the maximum, and its old contents elsewhere |
| Blocks.SetEntry | FS-Driver-for-file/filesystemblock.cpp:103-124 | an empty name is refused with an invalid-argument error; otherwise the entry holds the descriptor and the stored name |
| Blocks.NameChars | FS-Driver-for-file/filesystemblock.cpp:135-137 | the NUL-free prefix of the buffer that stops at the first NUL or at the length bound |
| Blocks.ReadName | FS-Driver-for-file/filesystemblock.cpp:126-140 | "~empty~" for an empty entry, otherwise the characters before the first NUL within the bound |
| Blocks.NameCharsIsPrefix | FS-Driver-for-file/filesystemblock.cpp:135-137 | any NUL-free prefix that ends at a NUL or at the bound is the name the loop reads |
| Blocks.SetThenName | FS-Driver-for-file/filesystemblock.cpp:103-140 | round trip: after storing a NUL-free name, reading it back gives the name cut to the maximum length, and a name within the maximum comes back unchanged; the entry is not empty |
| Blocks.EmptyName | FS-Driver-for-file/filesystemblock.cpp:126-133 | "~empty~" is read exactly for an empty entry or an entry storing that literal text; a non-empty entry never reads as the empty string |
| Blocks.Clear | FS-Driver-for-file/filesystemblock.cpp:155-163 | the entry becomes empty and keeps its descriptor and every character but the first |
| Blocks.InitHeader | FS-Driver-for-file/filesystem.cpp:404-406 | a freshly initialised header has the magic signature, version 1 and the requested block size |
| Blocks.InitDirectory | FS-Driver-for-file/filesystem.cpp:217-224 | an empty directory descriptor with the given parent, no entries in use and no overflow block |
| Blocks.InitFile | FS-Driver-for-file/filesystem.cpp:135-141 | an empty file descriptor of size 0 with no overflow block |
| Blocks.InitDataPart | FS-Driver-for-file/fsdescriptoriterator.cpp:227-230 | a new overflow block has no successor and entries of the header's shape |
| Blocks.SetInByteGet | FS-Driver-for-file/filesystemblock.cpp:35-47 | updating bit k of a byte makes it read the new value and keeps the other seven bits |
| Blocks.SetBitInBytes | FS-Driver-for-file/filesystemblock.cpp:35-47 | setting one bit of the bitmap bytes changes that bit alone |
| Blocks.BitMapBlock.Set | FS-Driver-for-file/filesystemblock.cpp:35-42 | afterwards get(bit) is the new value and every other bit reads as before |
| Blocks.FirstClearIn | FS-Driver-for-file/filesystemblock.cpp:17-33 | reference definition: a clear bit in the range with every bit before it set, or the end of the range |
| Blocks.FirstClearUnique | FS-Driver-for-file/filesystemblock.cpp:17-33 | a clear bit with every earlier bit of the range set is the first clear bit |
| Blocks.BitMapBlock.Scan | FS-Driver-for-file/filesystemblock.cpp:20-32 | the loop returns a clear bit with every earlier bit of the range set, or the end of the range |
| Blocks.BitMapBlock.FindFirstZero | FS-Driver-for-file/filesystemblock.cpp:17-33 | the least clear bit in [begin, maxBits), or maxBits when all are set |
| Blocks.BitMapBlock.Reset | FS-Driver-for-file/filesystemblock.cpp:49-54 | every byte, hence every bit, is zero afterwards |
| Blocks.VariantName | FS-Driver-for-file/filesystemblock.cpp:65-101 | `to_string` of a variant: every variant has a non-empty name, and "bad variant" is printed exactly for a non-empty variant sharing no flag with Any (the mixed names are given by `Blocks.VariantNameCases`) |
| Blocks.MixedNameNamed | FS-Driver-for-file/filesystemblock.cpp:87-100 | a variant sharing a flag with Any gets a non-empty mixed name that cannot be "bad variant" |
| Blocks.EntryName | FS-Driver-for-file/filesystemblock.cpp:126-140 | an empty entry reads as "~empty~"; any other reads as the longest NUL-free prefix of its buffer within the name width, stopping exactly at a NUL or at the width |
| Blocks.IsEmpty | FS-Driver-for-file/filesystemblock.cpp:155-158 | an entry is empty exactly when the name stored in its buffer is the empty string |
| Blocks.IsValidSignature | FS-Driver-for-file/fileaccessor.cpp:244 | a valid signature is the full-length magic mark, which the zero header of an unwritten block never carries |
| Storage.BufferPool.constructor | FS-Driver-for-file/blockbuffer.h:118-120 | a new pool has buffer size 0, no free buffers and none out |
| Storage.BufferPool.SetDefaultBuffersSize | FS-Driver-for-file/blockbuffer.cpp:108-121 | fails with a bad-state error and changes nothing while a buffer is out; otherwise the size is adopted, a new size empties the free list and the same size keeps it; pool invariant kept |
| Storage.BufferPool.GetAnyFreeBuffer | FS-Driver-for-file/blockbuffer.cpp:128-132 | the front of the free list when there is one, else a fresh buffer holding whatever bytes its allocation left (its unconstrained `initial` block); either way it is added to the occupied set and is no longer free |
| Storage.BufferPool.UnlockBuffer | FS-Driver-for-file/blockbuffer.cpp:134-139 | the buffer leaves the occupied set and goes to the front of the free list; contents untouched |
| Storage.BufferPool.LockFreeBuffer | FS-Driver-for-file/blockbuffer.cpp:141-148 | the old front of the free list is popped and becomes occupied |
| Storage.BufferPool.LockNewBuffer | FS-Driver-for-file/blockbuffer.cpp:150-156 | a fresh buffer of the pool's size becomes occupied, holding its `initial` block, about which nothing is known, as `new byte_tp[n]` leaves memory uninitialised; the free list is unchanged |
| Storage.BufferPool.GetLock | FS-Driver-for-file/blockbuffer.h:104-108 | fails exactly for the header address or a writing mode without a file; otherwise a fresh handle for that block, file and mode |
| Storage.NewHandle | FS-Driver-for-file/blockbuffer.cpp:10-25 | fails with an invalid-argument error exactly for a null pool, the header address, or a null file in a writing mode; otherwise a fresh valid handle holding no buffer yet |
| Storage.BufferHandle.Invalid | FS-Driver-for-file/blockbuffer.cpp:27-30 | the default handle is invalid and holds no buffer |
| Storage.BufferHandle.constructor | FS-Driver-for-file/blockbuffer.cpp:10-15 | the handle records pool, file, block and mode, is valid and holds no buffer |
| Storage.BufferHandle.Data | FS-Driver-for-file/blockbuffer.cpp:32-39 | an invalid handle fails; a valid one takes a buffer from the pool on the first call, a reused one with what it last held or a new one with its unconstrained `initial` bytes, and returns that same buffer on every later call |
| Storage.BufferHandle.View | FS-Driver-for-file/blockbuffer.h:46-50 | the block held by the handle's own buffer (not a copy), taking the buffer on first use; a new buffer shows its unconstrained `initial` bytes |
| Storage.BufferHandle.Put | FS-Driver-for-file/blockbuffer.h:80-96 | a write through the view changes the handle's buffer to the new block and no other buffer |
| Storage.BufferHandle.Length | FS-Driver-for-file/blockbuffer.cpp:41-45 | an invalid handle fails; otherwise the size of the buffer it holds |
| Storage.BufferHandle.Flush | FS-Driver-for-file/blockbuffer.cpp:47-52 | a handle that is not valid, or not in a writing mode, writes nothing and passes, with or without a file; a valid writing handle has a file and writes its pending block (its buffer, else the buffer it takes from the pool: the front of the free list as it was, or a new buffer with its unconstrained `initial` bytes) to its block address and nothing else, subject to the write checks |
| Storage.BufferHandle.Release | FS-Driver-for-file/blockbuffer.cpp:75-81 | flush, then a valid handle becomes invalid and its buffer goes back to the front of the free list; an invalid handle, or one that does not write, changes no block of the file, with or without a file |
| Storage.BufferHandle.MoveAssign | FS-Driver-for-file/blockbuffer.cpp:88-106 | nothing on self-assignment; otherwise the flush of this handle writes its pending block (a new buffer's unconstrained `initial` bytes when it held none and the free list was empty) to its old address exactly when it was valid in a writing mode (and nothing otherwise, with or without a file), then this handle takes over every field of the other, which becomes invalid; the buffer this handle held stays occupied and never returns to the free list |
| Storage.BufferHandle.MoveAssignReleasing | FS-Driver-for-file/blockbuffer.cpp:88-106 | as MoveAssign, including what the flush writes, but the buffer this handle held goes back to the pool |
| Storage.FileAccessor.constructor | FS-Driver-for-file/fileaccessor.h:70-76 | a new accessor has no file open, block size 0, last block address 0, file size 0 and an empty pool |
| Storage.FileAccessor.BlockToPos | FS-Driver-for-file/fileaccessor.cpp:160-166 | the header address maps to offset 0; any other address needs a block size, else a bad-state error |
| Storage.FileAccessor.LastBlockAddress | FS-Driver-for-file/fileaccessor.cpp:90-95 | succeeds exactly when the file is open and the block size is set, and then returns the stored last block address |
| Storage.FileAccessor.EnsureValidFS | FS-Driver-for-file/fileaccessor.cpp:231-240 | passes exactly for a valid signature with version 1; a bad signature is "not formatted", another version "unsupported version" |
| Storage.FileAccessor.HeaderExcept | FS-Driver-for-file/fileaccessor.cpp:195-200 | the header, exactly when the file is open and the file system valid |
| Storage.FileAccessor.HeaderOrNull | FS-Driver-for-file/fileaccessor.cpp:208-215 | present exactly when the header accessor above succeeds |
| Storage.FileAccessor.WriteCheck | FS-Driver-for-file/fileaccessor.cpp:65-81 | a passing write has an open file, a block size, a non-header address and a valid version-1 file system |
| Storage.FileAccessor.RawWrite | FS-Driver-for-file/fileaccessor.cpp:111-116 | on an open file exactly the addressed block changes; a closed stream ignores the write |
| Storage.FileAccessor.FormattedWrite | FS-Driver-for-file/fileaccessor.cpp:257-264 | the header address and an invalid file system are refused with nothing written; otherwise the raw write |
| Storage.FileAccessor.Write | FS-Driver-for-file/fileaccessor.cpp:65-81 | a null block is refused; otherwise the result is the write checks in the source's order, and on success exactly that block changes, else nothing |
| Storage.FileAccessor.ClearBlocks | FS-Driver-for-file/fileaccessor.cpp:54-63 | without a block size it fails; otherwise the blocks begin..end (both included) read as zero-filled and every other block is as before, or nothing changes when the first write is refused |
| Storage.FileAccessor.ClearBlock | FS-Driver-for-file/fileaccessor.cpp:49-52 | exactly the one block becomes zero-filled, under the same checks |
| Storage.FileAccessor.UpdateBlockConfiguration | FS-Driver-for-file/fileaccessor.cpp:124-133 | needs an open file; the last block address becomes the number of whole blocks in the file (0 without a block size) |
| Storage.FileAccessor.SetBlockSize | FS-Driver-for-file/fileaccessor.cpp:168-175 | the size is stored even when the pool refuses it; with no buffer out the pool adopts it and a non-zero size recomputes the block count |
| Storage.FileAccessor.SyncHeaderToFile | FS-Driver-for-file/fileaccessor.cpp:217-221 | needs an open file; block 0 then holds the in-memory header and nothing else changes |
| Storage.FileAccessor.SyncHeaderFromFile | FS-Driver-for-file/fileaccessor.cpp:223-229 | the header becomes what block 0 holds; a valid signature makes its block size the accessor's and the pool's |
| Storage.FileAccessor.FormatFS | FS-Driver-for-file/fileaccessor.cpp:247-255 | a bad signature is refused with nothing changed; otherwise the header is adopted, written to block 0 and reads back from it, and its block size is adopted |
| Storage.FileAccessor.Close | FS-Driver-for-file/fileaccessor.cpp:41-47 | the file is closed afterwards |
| Storage.FileAccessor.Open | FS-Driver-for-file/fileaccessor.cpp:28-39 | a missing file fails with a file-open error; otherwise the file is open with its contents and size, the header is read from block 0, and the block size is the header's when its signature is valid, else the requested one |
| Storage.FileAccessor.ReadCheck | FS-Driver-for-file/fileaccessor.h:31-45 | a passing read has an open file and a non-header address, and in a reading mode a valid version-1 file system; the check reports a stopped program exactly for a read-write read of a well-sized non-header block of an open file whose file system is invalid |
| Storage.FileAccessor.Read | FS-Driver-for-file/fileaccessor.h:31-45 | succeeds exactly when the read checks pass; a reading mode takes a buffer at once that holds the addressed block, and a write-only mode takes none; a failed check fails with its error, except that a failed file-system check in read-write mode stops the program (`AssertionFailed`), since the handle's destructor flushes through the same check while the first exception unwinds |
| Storage.ClearedRangeAt | FS-Driver-for-file/fileaccessor.cpp:54-63 | after clearing [lo, hi) exactly those blocks read as zero-filled and every other block is as before |
| Storage.BlockRangesDisjoint | FS-Driver-for-file/fileaccessor.cpp:160-166 | distinct non-header block addresses map to disjoint byte ranges, all past the header block |
| Storage.BlockCountFits | FS-Driver-for-file/fileaccessor.cpp:124-133 | the block count fits the file and one more block does not |
| Storage.FileAccessor.CheckOpen | FS-Driver-for-file/fileaccessor.cpp:135-143 | passes exactly when the host file is open, and otherwise fails with a bad-state error |
| Storage.FileAccessor.CheckBlockSize | FS-Driver-for-file/fileaccessor.cpp:145-151 | passes exactly when a block size is set and the size asked for does not exceed it; a missing block size is the bad-state error, a larger size the other failure |
| Storage.FileAccessor.CheckValidBlockSize | FS-Driver-for-file/fileaccessor.cpp:153-158 | passes exactly when a block size is set, and otherwise fails with a bad-state error |
| Storage.FileAccessor.FileSize | FS-Driver-for-file/fileaccessor.cpp:177-181 | the recorded file size exactly when the file is open |
| Storage.FileAccessor.GetBlockSize | FS-Driver-for-file/fileaccessor.cpp:189-193 | the block size, which is then positive, exactly when one is set |
| Storage.FileAccessor.IsFormattedFS | FS-Driver-for-file/fileaccessor.cpp:242-245 | a header block that was never written (the zero header) is not a formatted file system |
| Areas.BitMapPosFromBlock | FS-Driver-for-file/filesystemarea.cpp:259-272 | the header address is refused with an invalid-argument error; any other address maps to a bitmap block at or after the area's start and a bit below the per-block count, from which the address is recovered |
| Areas.BlockPosFromBitMapPos | FS-Driver-for-file/filesystemarea.cpp:274-281 | succeeds exactly for a block of the bitmap area and an offset inside a block; the address it yields divides back into that block and offset |
| Areas.BitMapPosRoundTrip | FS-Driver-for-file/filesystemarea.cpp:259-281 | a non-header address whose bit lies in the bitmap area is recovered from its position |
| Areas.BlockPosRoundTrip | FS-Driver-for-file/filesystemarea.cpp:259-281 | every position of the bitmap area except the header's own bit names an address that maps back to that position |
| Areas.DescriptorPosFromBlock | FS-Driver-for-file/filesystemarea.cpp:160-174 | succeeds exactly for a non-zero index whose block lies in the descriptor area; then the block is in the area, the slot is below the per-block count, and together they give back the index |
| Areas.BlockPosToDescriptorIndex | FS-Driver-for-file/filesystemarea.cpp:176-182 | as written: succeeds exactly for a block of the descriptor area and a slot inside it (the value scales the block address itself) |
| Areas.DescriptorIndexFromPos | FS-Driver-for-file/filesystemarea.cpp:176-182 | corrected: same guard, with the block's distance from the start of the area scaled |
| Areas.BlockPosToDescriptorIndexMisses | FS-Driver-for-file/filesystemarea.cpp:166-179 | the index built as written never maps back to the position it was built from |
| Areas.DescriptorIndexRoundTrip | FS-Driver-for-file/filesystemarea.cpp:166-179 | the corrected index maps back to its position, for every position except the reserved slot 0 of the first table block |
| Areas.BitBlockInBitMap | FS-Driver-for-file/filesystem.cpp:413-417 | on a layout whose bitmap covers the data area, the bit of every address up to the end of the data area lies in a bitmap block, after the header and before the descriptor table |
| Areas.BitInBlock | FS-Driver-for-file/filesystemarea.cpp:269-277 | bit k of the q-th bitmap block records address q times the bits per block plus k |
| Areas.SetBitChangesOnlyIt | FS-Driver-for-file/filesystemarea.cpp:197-204 | writing the bit of one address changes that bit alone, for every address |
| Areas.SetBitChangesOnlyThat | FS-Driver-for-file/filesystemarea.cpp:197-204 | after writing bit a it reads the new value and every other address's bit is as before |
| Areas.SlotUpdate | FS-Driver-for-file/filesystemarea.cpp:76-84 | storing a descriptor in one slot of one table block changes that slot alone |
| Areas.WithDescriptorChangesOnlyIt | FS-Driver-for-file/filesystemarea.cpp:76-84 | storing descriptor i changes descriptor i alone, for every index |
| Areas.ReadCheckWhenValid | FS-Driver-for-file/fileaccessor.h:31-45 | on a valid open file a whole-block read of a non-header block passes exactly when the block size is set, and then a whole-block write passes too |
| Areas.ReadBlock | FS-Driver-for-file/fileaccessor.h:31-45 | a read through a temporary read-only handle yields the block the file holds and changes no block |
| Areas.OpenForUpdate | FS-Driver-for-file/fileaccessor.h:31-45 | a read-write handle on the block, its buffer holding the block, exactly when the read checks pass |
| Areas.Commit | FS-Driver-for-file/blockbuffer.cpp:75-81 | a change made through a read-write handle and the handle's destruction store the new block at its address and change nothing else in the file |
| Areas.FirstFreeAddress | FS-Driver-for-file/filesystemarea.h:52-53 | reference definition of the scan's purpose: an address of [lo, hi] whose bit is clear with every earlier one set, or 0 with every bit of the range set |
| Areas.ScanOffsets | FS-Driver-for-file/filesystemarea.cpp:211-222 | scanning the offsets of one bitmap block is scanning the addresses they record |
| Areas.OffsetsAsAddresses | FS-Driver-for-file/filesystemarea.cpp:211-222 | the first clear offset of a block range is the least free address of the matching address range, and none means none |
| Areas.BitsOfBlock | FS-Driver-for-file/filesystemarea.cpp:269-277 | the bits of a bitmap block's offsets are the bits of the addresses they record |
| Areas.FirstFreeScanSameBlock | FS-Driver-for-file/filesystemarea.cpp:206-222 | when begin and end share a bitmap block and begin is not its first bit, the scan returns the least free address of [begin, end], or 0 when all are used |
| Areas.FirstPhaseOneBlock | FS-Driver-for-file/filesystemarea.cpp:211-222 | phase 1 within one bitmap block decides, and decides the least free address |
| Areas.FirstPhaseInOneBlock | FS-Driver-for-file/filesystemarea.cpp:211-222 | phase 1 within one block always returns: 0 when no bit is clear, else the address of the first clear bit |
| Areas.BlockPosOf | FS-Driver-for-file/filesystemarea.cpp:274-281 | bit off of the q-th bitmap block records address q times the bits per block plus off |
| Areas.MiddlePhaseFinds | FS-Driver-for-file/filesystemarea.cpp:225-231 | what phase 2 returns is a free address of the blocks it scans, and every address of those blocks before it is in use |
| Areas.BlockScan | FS-Driver-for-file/filesystemarea.cpp:225-231 | the first clear bit of a whole bitmap block is a free address and every address of the block before it is in use |
| Areas.FirstFreeScanSkipsFirstBlock | FS-Driver-for-file/filesystemarea.cpp:211-225 | a concrete layout where begin is the first bit of its bitmap block: every address is free, yet the scan reports none |
| Areas.FirstFreeScanReadsEnd | FS-Driver-for-file/filesystemarea.cpp:233-238 | a concrete layout where phase 3 reads block `end`, which is not a bitmap block, so the scan fails although a free address exists |
| Areas.FirstFreeSkipsSet | FS-Driver-for-file/filesystemarea.h:52-53 | over a stretch of used addresses the reference scan moves on past them |
| Areas.FirstClearAllSet | FS-Driver-for-file/filesystemblock.cpp:17-33 | with every bit of the range set the bit scan returns the end of the range |
| Areas.BitMapArea.AreaBegin | FS-Driver-for-file/filesystemarea.cpp:244-247 | the header's bitMapBegin, exactly when the header is usable |
| Areas.BitMapArea.AreaEnd | FS-Driver-for-file/filesystemarea.cpp:249-252 | the header's bitMapEnd, exactly when the header is usable |
| Areas.BitMapArea.Get | FS-Driver-for-file/filesystemarea.cpp:189-195 | refuses the header address and an unusable header; otherwise succeeds exactly when its bitmap block can be read, returns the bit recorded for the address, and changes no block |
| Areas.BitMapArea.Set | FS-Driver-for-file/filesystemarea.cpp:197-204 | refuses as Get does, changing nothing; on success only the address's bitmap block is written, the address's bit reads the new value and every other address's bit is as before |
| Areas.BitMapArea.FindFirstFreeBlockAsIntended | FS-Driver-for-file/filesystemarea.cpp:206-242 | corrected: refuses the header address at either end and passes on a failed header read; any address it returns is the least free address of [begin, end] by the bitmap, and when every bitmap block it needs reads cleanly it returns exactly that, changing no block |
| Areas.BitMapArea.FindFirstFreeBlock | FS-Driver-for-file/filesystemarea.cpp:206-242 | refuses the header address at either end; otherwise the three-phase scan as written, changing no block |
| Areas.BitMapArea.ScanAll | FS-Driver-for-file/filesystemarea.cpp:211-241 | the three phases in turn, each deciding or passing to the next |
| Areas.BitMapArea.ScanFirst | FS-Driver-for-file/filesystemarea.cpp:211-222 | phase 1 as written, changing no block |
| Areas.BitMapArea.ScanMiddle | FS-Driver-for-file/filesystemarea.cpp:225-231 | phase 2 as written: the loop over whole bitmap blocks, changing no block |
| Areas.BitMapArea.ScanLast | FS-Driver-for-file/filesystemarea.cpp:233-241 | phase 3 as written, reading block `end`, changing no block |
| Areas.BitMapArea.ReadBitMap | FS-Driver-for-file/filesystemarea.h:31-38 | refuses a block outside the bitmap area with an invalid-argument error; otherwise the block's bits, under the read checks |
| Areas.BitMapArea.InitBlocks | FS-Driver-for-file/filesystemarea.cpp:254-257 | the whole bitmap area is zero-filled, so every address whose bit lies in it reads as free; other blocks are kept |
| Areas.ClearedBitMapIsClear | FS-Driver-for-file/filesystemarea.cpp:254-257 | once the bitmap blocks are zero-filled every bit they record is clear |
| Areas.VariantCheck | FS-Driver-for-file/filesystemarea.cpp:68-71 | the type test of getDescriptor fails only with a file-system error |
| Areas.VariantCheckAsIntended | FS-Driver-for-file/filesystemarea.cpp:68-71 | corrected: a typed request fails, with a file-system error, only on a descriptor sharing no flag with it |
| Areas.VariantCheckAsIntendedAcceptsOwnKind | FS-Driver-for-file/filesystemarea.cpp:68-71 | corrected: a typed request accepts a descriptor of exactly that kind and refuses an unused slot; on an untyped request it agrees with the test as written, which always passes |
| Areas.VariantCheckRefusesOwnKind | FS-Driver-for-file/filesystemarea.cpp:68-71 | as written, a typed request refuses a descriptor of exactly that kind and accepts an unused slot |
| Areas.FreeSlot | FS-Driver-for-file/filesystemarea.cpp:95-107 | the first unused slot at or after the start, found whenever one exists, or the start itself |
| Areas.AppendOverwritesWhenFull | FS-Driver-for-file/filesystemarea.cpp:102-109 | with every slot from the start in use, the append overwrites the start slot, which holds a descriptor in use |
| Areas.AppendedSlotIsNotAnIndex | FS-Driver-for-file/filesystemarea.cpp:115 | the slot returned for a table block other than the first, read as a descriptor index, names a different position |
| Areas.DescriptorsArea.AreaBegin | FS-Driver-for-file/filesystemarea.cpp:118-121 | the first block after the bitmap, exactly when the header is usable |
| Areas.DescriptorsArea.AreaEnd | FS-Driver-for-file/filesystemarea.cpp:123-126 | the header's descriptorsEnd, exactly when the header is usable |
| Areas.DescriptorsArea.GetDescriptor | FS-Driver-for-file/filesystemarea.cpp:61-74 | refuses index 0, an unusable header and an index outside the table; otherwise descriptor i as stored, or a file-system error when the type test fails; no block changes |
| Areas.DescriptorsArea.UpdateDescriptor | FS-Driver-for-file/filesystemarea.cpp:76-84 | succeeds exactly for a ready file and an index in the table; then descriptor i reads the new value and every other descriptor reads as before; a failure changes nothing |
| Areas.DescriptorsArea.AppendDescriptor | FS-Driver-for-file/filesystemarea.cpp:86-116 | refuses a block outside the table; otherwise stores the descriptor in the first unused slot, never slot 0 of the first block, returns that slot, and reports filled exactly when it was the block's last |
| Areas.DescriptorsArea.InitBlocks | FS-Driver-for-file/filesystemarea.cpp:128-141 | the whole table is zero-filled, so every descriptor in it reads as unused |
| Areas.DescriptorsArea.IncrementReference | FS-Driver-for-file/filesystemarea.cpp:143-148 | succeeds exactly for a valid index of a ready file; then that descriptor has one reference more and nothing else in the table changes |
| Areas.DescriptorsArea.DecrementReference | FS-Driver-for-file/filesystemarea.cpp:150-158 | refused with a file-system error exactly for a directory that still has entries; otherwise one reference fewer and nothing else in the table changes |
| Areas.DataArea.AreaBegin | FS-Driver-for-file/filesystemarea.cpp:288-291 | the first block after the table, exactly when the header is usable |
| Areas.DataArea.AreaEnd | FS-Driver-for-file/filesystemarea.cpp:293-296 | the header's dataEnd, exactly when the header is usable |
| Areas.DataArea.ReadData | FS-Driver-for-file/filesystemarea.h:94-101 | refuses a block outside the data area before touching the file; otherwise the read of that block under the read checks |
| Areas.BitMapArea.constructor | FS-Driver-for-file/filesystemarea.cpp:184-187 | the area works on the given file accessor |
| Areas.DescriptorsArea.constructor | FS-Driver-for-file/filesystemarea.cpp:55-59 | the area works on the given file accessor |
| Areas.DataArea.constructor | FS-Driver-for-file/filesystemarea.cpp:283-286 | the area works on the given file accessor |
| Directory.Inc | FS-Driver-for-file/fsdescriptoriterator.cpp:118 | the iterator index steps by one on 64-bit unsigned arithmetic, so the largest value wraps to 0 |
| Directory.SegmentRead | FS-Driver-for-file/filesystem.cpp:20-22 | an overflow segment can be read exactly when its address lies in the data area and the block read check passes |
| Directory.WriteBackOf | FS-Driver-for-file/blockbuffer.cpp:75-81 | replacing an empty block handle writes nothing back and leaves the file as it was |
| Directory.WriteBackIdle | FS-Driver-for-file/blockbuffer.cpp:47-52 | writing back a handle whose block the file already holds leaves the file unchanged |
| Directory.Advance | FS-Driver-for-file/fsdescriptoriterator.cpp:100-121 | a step succeeds only where `hasNext` allows and the index does not reach the bad sentinel, and it always makes the index one larger; without a next entry it fails with out-of-range; inside a container only the offset grows; at the container's limit the offset restarts at 0, the next address comes from the descriptor or the held block, the previous address is recorded only when leaving an overflow block, the new block is held, and the old handle is written back |
| Directory.Walk | FS-Driver-for-file/fsdescriptoriterator.cpp:147-154 | `toLast` stops only where no next entry exists |
| Directory.Listing | FS-Driver-for-file/fsdescriptoriterator.cpp:181-184 | a directory within the iterator's capacity lists exactly `firstFreeElementIndex` entries |
| Directory.AdvanceInLayout | FS-Driver-for-file/fsdescriptoriterator.cpp:100-121 | inside the capacity, a step from entry i reaches the position of entry i + 1 and writes nothing back |
| Directory.WalkAlong | FS-Driver-for-file/fsdescriptoriterator.cpp:147-154 | inside the capacity, walking on from entry i passes through entry j for every later j |
| Directory.FreshReachesFirst | FS-Driver-for-file/fsdescriptoriterator.cpp:7-25 | a new iterator steps over "." and ".." and reaches the first entry, or stops at ".." in an empty directory |
| Directory.WalkFromFresh | FS-Driver-for-file/fsdescriptoriterator.cpp:147-154 | `toLast` on a new iterator ends at the last entry (at ".." when the directory is empty) without changing the file |
| Directory.WalkPastCapacityFails | FS-Driver-for-file/fsdescriptoriterator.cpp:166-174 | because the limit test compares the global index with the capacity of one container, when a block holds more entries than the descriptor, a walk over a directory with more than a block's worth of entries fails on the missing link |
| Directory.StepPastFirstBlock | FS-Driver-for-file/fsdescriptoriterator.cpp:108-118 | when a block holds no more entries than the descriptor, the iterator never leaves the first overflow block: the step after its last entry looks at an offset equal to the block's capacity |
| Directory.WriteCheckWhenValid | FS-Driver-for-file/fileaccessor.cpp:65-81 | on a file with a valid header, writing a whole block passes exactly when reading it would |
| Directory.Callbacks.constructor | FS-Driver-for-file/filesystem.cpp:13-33 | the four callbacks work on the same file through its bitmap, descriptor and data areas |
| Directory.Callbacks.ReadExtendedSegment | FS-Driver-for-file/filesystem.cpp:20-22 | fails with the header's error when the file system is not valid; otherwise returns what `SegmentRead` gives for the file's blocks |
| Directory.Callbacks.WriteBack | FS-Driver-for-file/blockbuffer.cpp:47-52 | the file changes exactly as `WriteBackOf` says, and not at all on failure |
| Directory.Callbacks.AllocNewFreeBlock | FS-Driver-for-file/filesystem.cpp:389-399 | returns the address the bitmap scan of the data area finds, never the header address; fails with not-enough-entries when the scan finds nothing, and with the scan's error when it fails; on success that block's bit is set and no other bit changes |
| Directory.Callbacks.DeallocBlock | FS-Driver-for-file/filesystem.cpp:26-28 | the header address is refused; otherwise the block's bit is cleared when its bitmap block can be read and nothing else changes |
| Directory.Callbacks.UpdateDescriptor | FS-Driver-for-file/filesystem.cpp:29-31 | succeeds exactly for a valid file system and an index inside the descriptor table; then descriptor i reads back as the one stored and only its slot changes |
| Directory.WeInDescriptorAt | FS-Driver-for-file/fsdescriptoriterator.cpp:166-169 | ".." always counts as inside the descriptor and "." never does (for any realistic capacity); an ordinary global index counts as inside exactly when it is below the inline capacity |
| Directory.HasNextAt | FS-Driver-for-file/fsdescriptoriterator.cpp:62-69 | the walk order "before start", ".", "..", 0, 1, …: before the start and at "." there is always a next; at ".." the index wraps to 0, so there is a next exactly when the directory has an entry; an ordinary index has a next exactly when the following index is below the entry count |
| Iterators.EntryUnderPos | FS-Driver-for-file/fsdescriptoriterator.cpp:81-93 | inside the capacity, dereferencing the iterator at entry i gives entry i of the directory's listing |
| Iterators.CopyOf | FS-Driver-for-file/fsdescriptoriterator.cpp:30-46 | a copy takes its index from the descriptor handle and every other position field from the original; it opens a block only when the original stands in one |
| Iterators.CopyMovesIndex | FS-Driver-for-file/fsdescriptoriterator.cpp:31 | whenever the descriptor handle differs from the iterator's index, the copy does not stand where the original stands |
| Iterators.DirectoryIterator.constructor | FS-Driver-for-file/fsdescriptoriterator.cpp:7-25 | a new iterator stands before "." with no block, "." names the directory and ".." its parent, and it synchronises its descriptor exactly when it was given an update function |
| Iterators.DirectoryIterator.Duplicate | FS-Driver-for-file/fsdescriptoriterator.cpp:30-46 | the copy shares the original's directory, descriptor copy, capacities and callbacks, stands at the given position, and starts with zeroed "." and ".." entries |
| Iterators.DirectoryIterator.Copy | FS-Driver-for-file/fsdescriptoriterator.cpp:48-52 | the copy with an explicit flag succeeds exactly when `CopyOf` does, stands where `CopyOf` says, and synchronises as the flag says |
| Iterators.DirectoryIterator.CopyFrom | FS-Driver-for-file/fsdescriptoriterator.cpp:30-46 | the copy constructor's work started from a given index: it succeeds exactly when `CopyOf` does and stands where `CopyOf` says |
| Iterators.DirectoryIterator.Assign | FS-Driver-for-file/fsdescriptoriterator.cpp:81-93 | assigning through `operator*` succeeds exactly when dereferencing would; afterwards the iterator dereferences to the new entry, which replaced exactly one slot of ".", "..", the descriptor copy or the held block, and nothing else changed |
| Iterators.DirectoryIterator.Next | FS-Driver-for-file/fsdescriptoriterator.cpp:100-121 | the step succeeds exactly when `Advance` does, and then the position and the file are the ones `Advance` gives |
| Iterators.DirectoryIterator.EnterNextSegment | FS-Driver-for-file/fsdescriptoriterator.cpp:108-114 | the crossing into the next container agrees with `Advance`: offset 0, previous address kept or recorded, next block read and held, old handle written back |
| Iterators.DirectoryIterator.ToLast | FS-Driver-for-file/fsdescriptoriterator.cpp:147-154 | the loop ends where `Walk` ends, with the file `Walk` gives, and fails with the error of the first failing step |
| Iterators.DirectoryIterator.FlushDescriptor | FS-Driver-for-file/fsdescriptoriterator.cpp:136-145 | refused with a bad-state error when "." or ".." has both another name and another descriptor; otherwise a synchronising iterator stores its descriptor copy in its slot of the table and changes no other descriptor, and a non-synchronising one changes nothing |
| Iterators.DirectoryIterator.CallUpdate | FS-Driver-for-file/fsdescriptoriterator.cpp:144 | the update function stores the descriptor copy under the iterator's handle exactly when the iterator synchronises, and otherwise leaves the file unchanged |
| Iterators.DirectoryIterator.SetInCurrentArray | FS-Driver-for-file/fsdescriptoriterator.cpp:181-184 | writing slot k of the current container succeeds exactly when that container can be reached and has a slot k; it changes that slot only, in the descriptor copy or the held block |
| Iterators.DirectoryIterator.Flush | FS-Driver-for-file/fsdescriptoriterator.cpp:130-134 | the descriptor is flushed, then the held block is written back; it succeeds whenever the dot entries are intact and both writes are possible |
| Iterators.DirectoryIterator.Release | FS-Driver-for-file/blockbuffer.cpp:75-81 | destroying the iterator lets go of its block handle, and the file changes exactly as writing that handle back does |
| Iterators.DirectoryIterator.SetNextAddressInCurrentContainer | FS-Driver-for-file/fsdescriptoriterator.cpp:186-193 | the link is set in the descriptor copy when the index is inline, else in the held block; without a held block the call fails and changes nothing |
| Iterators.ListingGrowsInline | FS-Driver-for-file/fsdescriptoriterator.cpp:223-225 | an entry stored in the next inline slot extends the listing by exactly that entry |
| Iterators.ListingGrowsInBlock | FS-Driver-for-file/fsdescriptoriterator.cpp:223-225 | an entry stored in the next slot of the overflow block extends the listing by exactly that entry |
| Iterators.ListingGrowsNewBlock | FS-Driver-for-file/fsdescriptoriterator.cpp:226-232 | an entry stored in slot 0 of a new block linked from the descriptor extends the listing by exactly that entry and stays within the capacity |
| Iterators.AppendedListing | FS-Driver-for-file/fsdescriptoriterator.cpp:219-235 | after either branch, the count increment, the flush and the destructor, the directory reads back with one more entry, the new one, at the end, and its other fields unchanged |
| Iterators.AppendedInline | FS-Driver-for-file/fsdescriptoriterator.cpp:223-225 | `AppendedListing` when the new entry is inline |
| Iterators.AppendedInBlock | FS-Driver-for-file/fsdescriptoriterator.cpp:223-225 | `AppendedListing` when the new entry goes in the overflow block |
| Iterators.AppendedNewBlock | FS-Driver-for-file/fsdescriptoriterator.cpp:226-232 | `AppendedListing` when the new entry opens a new overflow block |
| Iterators.Swapped | FS-Driver-for-file/fsdescriptoriterator.cpp:199-215 | the listing a deletion should leave is one entry shorter |
| Iterators.SwappedRemovesOne | FS-Driver-for-file/fsdescriptoriterator.cpp:199-215 | that listing is the old one with exactly one occurrence of entry i removed; every other slot keeps its entry and the last entry moves into slot i |
| Iterators.EntryUnderFits | FS-Driver-for-file/fsdescriptoriterator.cpp:81-93 | every entry that dereferencing yields has the stored name width |
| Iterators.CopyAtPos | FS-Driver-for-file/fsdescriptoriterator.cpp:30-46 | a copy that keeps the index of an iterator at entry i stands exactly where the original stands |
| Iterators.WalkToLast | FS-Driver-for-file/fsdescriptoriterator.cpp:147-154 | from any entry inside the capacity, `toLast` reaches the last entry and writes nothing |
| Iterators.CopyStaysPut | FS-Driver-for-file/fsdescriptoriterator.cpp:197-199 | the copy as written of an iterator at inline entry i, in a directory whose own index is inline and at least that of its last entry, cannot step and reads entry i back, so `*it = *itInEnd` assigns entry i to itself |
| Iterators.ListingAfterDelete | FS-Driver-for-file/fsdescriptoriterator.cpp:199-215 | once the last entry has replaced entry i and the count has dropped by one, the listing is the swapped one |
| Iterators.DeletedAsIntended | FS-Driver-for-file/fsdescriptoriterator.cpp:195-217 | the corrected deletion's steps leave the directory stored with the swapped listing, and free the overflow block when its only entry was the one moved |
| Iterators.AssignedLastFits | FS-Driver-for-file/fsdescriptoriterator.cpp:199 | the descriptor copy that receives the last entry still fits the layout, and a held block lies in the data area |
| Iterators.StoredAcrossWriteBack | FS-Driver-for-file/fsdescriptoriterator.cpp:130-134 | a descriptor that is stored and then followed by the write-back of a data block reads back as stored |
| Iterators.DeleteKeepsSegment | FS-Driver-for-file/fsdescriptoriterator.cpp:199-216 | when the overflow block keeps entries, it ends up holding what the iterator's copy of it held |
| Iterators.DeleteFreesSegment | FS-Driver-for-file/fsdescriptoriterator.cpp:202-206 | when the overflow block held only the last entry, its bit ends up clear |
| Iterators.DeletedAsWritten | FS-Driver-for-file/fsdescriptoriterator.cpp:195-217 | in the case the copy cannot step, deletion as written keeps entry i and drops the last entry instead |
| Iterators.DescriptorAlgorithms.constructor | FS-Driver-for-file/fsdescriptoriterator.h:118-131 | the algorithms use the given callbacks and have no capacities until they are set |
| Iterators.DescriptorAlgorithms.SetEntriesInfo | FS-Driver-for-file/fsdescriptoriterator.cpp:259-263 | the capacities become the given ones |
| Iterators.DescriptorAlgorithms.Iterator | FS-Driver-for-file/fsdescriptoriterator.cpp:238-257 | a new iterator over the given directory with the algorithms' capacities, standing before "."; it stores its descriptor on flush exactly when `sync` is set |
| Iterators.DescriptorAlgorithms.AppendToEnd | FS-Driver-for-file/fsdescriptoriterator.cpp:219-235 | on a directory with room inside the iterator's capacity and capacities matching the header, the append fails only when a new block was needed, and on success the directory has grown by exactly the new entry at the end |
| Iterators.DescriptorAlgorithms.WalkAndAppend | FS-Driver-for-file/fsdescriptoriterator.cpp:222-234 | the walk to the last entry followed by the append has the outcome `AppendToEnd` promises |
| Iterators.DescriptorAlgorithms.AppendAtLast | FS-Driver-for-file/fsdescriptoriterator.cpp:223-234 | from the last entry, the branch followed by the count, the flush and the destructor grows the directory by exactly the new entry |
| Iterators.DescriptorAlgorithms.AppendBranch | FS-Driver-for-file/fsdescriptoriterator.cpp:223-232 | the test for room after the last entry picks the in-place or the new-block branch, and the iterator's position is unchanged |
| Iterators.DescriptorAlgorithms.Finish | FS-Driver-for-file/fsdescriptoriterator.cpp:233-234 | the count grows by one, the descriptor is stored and the held block written back twice, once by the flush and once by the destructor; it succeeds when those writes are possible |
| Iterators.DescriptorAlgorithms.AppendInPlace | FS-Driver-for-file/fsdescriptoriterator.cpp:223-225 | the entry goes in the slot after the last one, in the descriptor copy or the held block, and the descriptor is stored |
| Iterators.DescriptorAlgorithms.AppendInNewBlock | FS-Driver-for-file/fsdescriptoriterator.cpp:226-232 | happens only when the descriptor is full; a free data block is allocated and initialised with the entry in slot 0, and the descriptor copy links to it |
| Iterators.DescriptorAlgorithms.NewSegment | FS-Driver-for-file/fsdescriptoriterator.cpp:227-228 | a block the allocation returns can be read as an overflow segment |
| Iterators.DescriptorAlgorithms.CopyToLast | FS-Driver-for-file/fsdescriptoriterator.cpp:197-198 | the copy made for deletion shares the iterator's directory; when its walk is known to succeed it stands at the walk's end and the file is unchanged |
| Iterators.DescriptorAlgorithms.AssignLast | FS-Driver-for-file/fsdescriptoriterator.cpp:199 | `*it = *itInEnd` succeeds exactly when both iterators dereference, and writes the copy's entry into the iterator's slot only |
| Iterators.DescriptorAlgorithms.FlushThenRelease | FS-Driver-for-file/fsdescriptoriterator.cpp:216-217 | the iterator is flushed and then the copy's block is written back over the result |
| Iterators.DescriptorAlgorithms.ReleaseThenFlush | FS-Driver-for-file/fsdescriptoriterator.cpp:216-217 | the copy's block is written back first, then the descriptor is stored and the iterator's block written |
| Iterators.DescriptorAlgorithms.DeleteEntry | FS-Driver-for-file/fsdescriptoriterator.cpp:195-217 | deletion as written: in the case the copy cannot step, it succeeds and leaves the listing without its LAST entry, whichever entry the iterator stood at |
| Iterators.DescriptorAlgorithms.TakeLastFromHandle | FS-Driver-for-file/fsdescriptoriterator.cpp:197-199 | the copy as written starts at the descriptor handle; in the case proved it reads back the entry under the iterator, which is assigned to itself |
| Iterators.DescriptorAlgorithms.RemoveLastAsWritten | FS-Driver-for-file/fsdescriptoriterator.cpp:202-217 | the emptied-block test on the iterator, the count decrement and the flush leave the listing without its last entry; whenever the test fails, which is always when the iterator stands at an inline entry, only the count of the descriptor copy changes, and the file is the flush followed by the copy's write-back (`FlushedThenReleased`) |
| Iterators.DescriptorAlgorithms.CountDownThenFlush | FS-Driver-for-file/fsdescriptoriterator.cpp:215-217 | lowering the count and flushing leaves the listing without its last entry; in general only the count of the descriptor copy changes, and the file is the iterator's flush followed by the copy's write-back |
| Iterators.DescriptorAlgorithms.DeleteEntryAsIntended | FS-Driver-for-file/fsdescriptoriterator.cpp:195-217 | corrected deletion: the last entry takes the place of entry i, the count drops by one, and an overflow block left empty is freed and unlinked |
| Iterators.EmptiedBlockKeptAsWritten | FS-Driver-for-file/fsdescriptoriterator.cpp:202-216 | as written, the emptied-block test reads the iterator: with the iterator at an inline entry and the last entry alone in slot 0 of the overflow block, the count drops to the inline capacity, the descriptor still links the block, its bit reads as before, and the result is not the shrunk directory a deletion should leave |
| Iterators.StaleCopyRestoresEntry | FS-Driver-for-file/fsdescriptoriterator.cpp:197-217 | as written, the iterator is flushed before the copy's destructor writes the copy's stale block back: with entry i and the last entry in the overflow block, that block ends as it was, the listing is the old one without its last entry, and entry i is not deleted |
| Iterators.DescriptorAlgorithms.TakeLast | FS-Driver-for-file/fsdescriptoriterator.cpp:197-199 | a copy at the iterator's own index walks to the last entry, which is assigned under the iterator |
| Iterators.DescriptorAlgorithms.AssignFromLast | FS-Driver-for-file/fsdescriptoriterator.cpp:199 | with the copy at the last entry, the iterator's slot receives that entry and the file is unchanged |
| Iterators.DescriptorAlgorithms.RemoveLast | FS-Driver-for-file/fsdescriptoriterator.cpp:202-216 | the corrected second half leaves the swapped listing stored and frees an emptied overflow block |
| Iterators.DescriptorAlgorithms.UnlinkIfEmptied | FS-Driver-for-file/fsdescriptoriterator.cpp:202-214 | the emptied-block test, made on the copy, frees and unlinks the overflow block exactly when the last entry was alone in it |
| Iterators.DescriptorAlgorithms.UnlinkEmptied | FS-Driver-for-file/fsdescriptoriterator.cpp:203-213 | with the copy at slot 0 of an overflow block, that block is freed and unlinked from the descriptor |
| Iterators.DescriptorAlgorithms.UnlinkLastBlock | FS-Driver-for-file/fsdescriptoriterator.cpp:203-213 | with no previous block, the descriptor's link must name the copy's block (else an assertion failure), its bit is cleared and the link in the descriptor copy reset; with a previous block, that block's link is cleared and the bit of the block it named is cleared |
| Iterators.DirectoryIterator.Equals | FS-Driver-for-file/fsdescriptoriterator.cpp:71-74 | every iterator equals itself; equality compares only the index and the directory |
| Iterators.DirectoryIterator.NotEquals | FS-Driver-for-file/fsdescriptoriterator.cpp:76-79 | two iterators differ exactly when their indices or their directories differ, and no iterator differs from itself |
| Iterators.DirectoryIterator.Deref | FS-Driver-for-file/fsdescriptoriterator.cpp:81-93 | a position before the start is refused as a bad state, "." and ".." give their own entries, and at an ordinary offset it fails only on an offset outside the container or a container that cannot be read |
| FileSystemDriver.FormattedHeader | FS-Driver-for-file/filesystem.cpp:401-417 | formatting fails with a bad-state error exactly when the file has fewer than 4 blocks of 1024 bytes; otherwise the header has a valid signature, the current version, 1024-byte blocks and the configured capacities |
| FileSystemDriver.FormattedLayout | FS-Driver-for-file/filesystem.cpp:413-417 | with at least 8 bits per bitmap block and 2 descriptors per table block, the header, bitmap, descriptor table and data areas follow one another without overlap, each is non-empty, the data area ends at the last block, and the bitmap has a bit for every block |
| FileSystemDriver.RootInTable | FS-Driver-for-file/filesystem.cpp:424-427 | a root index naming a slot of the first table block other than slot 0 is a valid descriptor index on every formatted file |
| FileSystemDriver.CheckArgumentsCount | FS-Driver-for-file/filesystem.cpp:282-287 | passes exactly when there are at least the required number of arguments, and otherwise fails with not-enough-arguments |
| FileSystemDriver.CheckFilename | FS-Driver-for-file/filesystem.cpp:289-294 | a header failure is passed on; otherwise the name passes exactly when it fits the header's file name width, and fails with a file name error when it does not |
| FileSystemDriver.NewEntry | FS-Driver-for-file/filesystem.cpp:333-334 | the entry built for a new name has the stored width and names the given descriptor |
| FileSystemDriver.CheckedNameReadsBack | FS-Driver-for-file/filesystem.cpp:289-294 | for a non-empty name without NUL, the name check passes exactly when the name reads back unchanged from its entry; a longer name reads back cut to the width |
| FileSystemDriver.DotNames | FS-Driver-for-file/fsdescriptoriterator.cpp:23-24 | the "." and ".." entries the iterator builds read back as "." and ".." |
| FileSystemDriver.Visible | FS-Driver-for-file/fsdescriptoriterator.cpp:62-93 | an iterator yields two entries more than the directory stores, all of the stored width |
| FileSystemDriver.FirstMatch | FS-Driver-for-file/filesystem.cpp:454-461 | the position of the first entry with the name, or the length when none has it: no earlier entry has the name and the entry there does |
| FileSystemDriver.FirstMatchAt | FS-Driver-for-file/filesystem.cpp:454-461 | a scan that saw no match before position k and stops at k on a match or at the end has found the first match |
| FileSystemDriver.LookupSkipsDots | FS-Driver-for-file/filesystem.cpp:454-461 | a name other than "." and ".." is found among the stored entries at the same place, or not at all |
| FileSystemDriver.LookupDots | FS-Driver-for-file/filesystem.cpp:454-461 | looking up "." finds the directory itself and ".." finds its parent |
| FileSystemDriver.SeenStep | FS-Driver-for-file/fsdescriptoriterator.cpp:100-121 | over a directory within the capacity, each step from before "." through the last entry is allowed, reaches the next position and writes nothing |
| FileSystemDriver.SeenEnd | FS-Driver-for-file/fsdescriptoriterator.cpp:62-69 | once every entry has been visited there is no next one |
| FileSystemDriver.SeenEntry | FS-Driver-for-file/fsdescriptoriterator.cpp:81-93 | after k steps the iterator dereferences to the k-th entry it yields |
| FileSystemDriver.SeenHasNext | FS-Driver-for-file/fsdescriptoriterator.cpp:62-69 | there is a next entry exactly until every entry has been visited |
| FileSystemDriver.MoveOn | FS-Driver-for-file/filesystem.cpp:454-455 | `++it` during a scan uses up one remaining position, and on a stored directory moves to the next position without writing |
| FileSystemDriver.Step | FS-Driver-for-file/filesystem.cpp:455-456 | `++it` then `*it` on a stored directory reads the next entry the iterator yields and writes nothing |
| FileSystemDriver.SearchedAll | FS-Driver-for-file/filesystem.cpp:454-462 | a scan that ran out of entries without a match has established that no entry has the name |
| FileSystemDriver.SearchHit | FS-Driver-for-file/filesystem.cpp:456-459 | a scan that reaches an entry with the name after no match has found the first match |
| FileSystemDriver.SearchOn | FS-Driver-for-file/filesystem.cpp:454-461 | a scan that passes an entry without the name goes on having seen no match |
| FileSystemDriver.Probe | FS-Driver-for-file/filesystem.cpp:455-456 | one turn of the search reports a match exactly when the next entry has the name, and the iterator then stands on it |
| FileSystemDriver.Lookup | FS-Driver-for-file/filesystem.cpp:454-461 | the search loop stops on the first entry with the name among ".", ".." and the stored entries, or visits them all when none has it, and writes nothing |
| FileSystemDriver.BitsBelowKept | FS-Driver-for-file/filesystem.cpp:421-427 | writing blocks past the bitmap area keeps every bitmap bit clear |
| FileSystemDriver.BitKept | FS-Driver-for-file/filesystemarea.cpp:189-195 | a bit reads as before while its bitmap block is as before |
| FileSystemDriver.ClearingTableKeeps | FS-Driver-for-file/filesystem.cpp:421-422 | clearing the descriptor table keeps the header and a clear bitmap |
| FileSystemDriver.StoringRootKeeps | FS-Driver-for-file/filesystem.cpp:427 | storing the root descriptor keeps the header and a clear bitmap |
| FileSystemDriver.FormattedIsHealthy | FS-Driver-for-file/filesystem.cpp:401-433 | a freshly formatted file is one every path walk and removal is proved for: the root is an empty directory and every other descriptor is unused |
| FileSystemDriver.ChildMissing | FS-Driver-for-file/filesystem.cpp:462-464 | a name no entry of a healthy directory has is looked for past every entry |
| FileSystemDriver.LinkScanStarts | FS-Driver-for-file/filesystem.cpp:191-192 | a fresh iterator over the current folder of a file `link` is proved for starts the loop in its initial state: nothing linked, the blocks as they were |
| FileSystemDriver.LinkedResolves | FS-Driver-for-file/filesystem.cpp:188-197 | what `link` leaves, in terms of path resolution: the blocks unchanged when `src` resolves to nothing in the current folder, and the folder grown by one entry named `dest` for the very descriptor `src` resolves to otherwise |
| FileSystemDriver.LinkHit | FS-Driver-for-file/filesystem.cpp:194-195 | the entry the loop of `link` finds with the source name is the first one, met before anything was written, in a directory with room for one more entry |
| FileSystemDriver.LinkPassed | FS-Driver-for-file/filesystem.cpp:192-194 | an entry without the source name leaves the loop state as it was |
| FileSystemDriver.LinkAdded | FS-Driver-for-file/filesystem.cpp:194-196 | adding the entry found under the new name takes the loop to its linked state |
| FileSystemDriver.LinkView | FS-Driver-for-file/filesystem.cpp:191-193 | the iterator's stale descriptor copy makes it yield, after the add, the entries the folder had when the loop started |
| FileSystemDriver.LinkIdle | FS-Driver-for-file/filesystem.cpp:197-198 | when the loop ends every entry was seen and destroying the iterator writes nothing |
| FileSystemDriver.LinkEnds | FS-Driver-for-file/filesystem.cpp:188-197 | the loop's promise over the current folder is `link`'s outcome; in particular, with no entry named the source, the outcome is success and no block changes |
| FileSystemDriver.InlineAnyBlocks | FS-Driver-for-file/filesystem.cpp:191-196 | over a directory whose entries all sit in its descriptor, the entries yielded and the iterator's positions do not depend on the blocks, and no block is held |
| FileSystemDriver.ResolveAppend | FS-Driver-for-file/filesystem.cpp:441-466 | resolving a path is resolving its first part and then the rest from where that leads; an error in the first part ends the walk |
| FileSystemDriver.ResolveDots | FS-Driver-for-file/filesystem.cpp:441-466 | in a directory, "." resolves to the directory itself and ".." to its parent |
| FileSystemDriver.ScanIdle | FS-Driver-for-file/blockbuffer.cpp:75-81 | releasing an iterator after a scan of a stored directory writes nothing |
| FileSystemDriver.SearchedListing | FS-Driver-for-file/filesystem.cpp:349-361 | for a name other than "." and "..", a finished search found the first stored entry with the name, with the iterator on it, or there is none and every entry was seen |
| FileSystemDriver.Find | FS-Driver-for-file/filesystem.cpp:349-351 | the search of removal reports whether a stored entry has the name and leaves the iterator on the first such entry, or past the end |
| FileSystemDriver.SearchAndRelease | FS-Driver-for-file/filesystem.cpp:452-464 | one path component over a stored directory gives the descriptor of the first entry with the name, or a file system error when none has it, and writes nothing |
| FileSystemDriver.FoundEntry | FS-Driver-for-file/filesystem.cpp:456-464 | a search that found nothing reports a file-system error; one that found the first entry with the name reports its descriptor, and the iterator holds no block that differs from the file's |
| FileSystemDriver.BitMapWriteKeepsDescriptors | FS-Driver-for-file/filesystem.cpp:320-322 | writing a block before the descriptor table changes no descriptor |
| FileSystemDriver.StoredInSlot | FS-Driver-for-file/filesystemarea.cpp:86-116 | storing a descriptor in a slot of a table block stores it at the index of that position and nowhere else |
| FileSystemDriver.MarkedFull | FS-Driver-for-file/filesystem.cpp:320-322 | marking a table block full in the bitmap changes no descriptor |
| FileSystemDriver.Removal | FS-Driver-for-file/filesystem.cpp:352-358 | the entry's descriptor is removed only when its index is valid, its variant is one of those allowed, and it is not a directory that still has entries; every refusal is an invalid-argument or file system error |
| FileSystemDriver.RemovalKinds | FS-Driver-for-file/filesystem.cpp:205 | `unlink` removes files and symbolic links and refuses directories; `rmdir` refuses files and symbolic links and removes a directory exactly when it is empty |
| FileSystemDriver.DecrementKeepsDirectory | FS-Driver-for-file/filesystemarea.cpp:150-158 | taking a reference from another descriptor leaves a stored directory's descriptor, overflow block, listing and iterator positions as they were |
| FileSystemDriver.FileSystem.constructor | FS-Driver-for-file/filesystem.cpp:13-33 | the areas and callbacks are wired to the file, no file is open, and the next opened file id is 0 |
| FileSystemDriver.FileSystem.FileFormatChanged | FS-Driver-for-file/filesystem.cpp:271-280 | fails unless the file holds a file system; on success the algorithms use the header's capacities and the root directory becomes the current folder, and on failure nothing changes |
| FileSystemDriver.FileSystem.GetDirectoryIterator | FS-Driver-for-file/filesystem.cpp:468-476 | succeeds exactly for a valid index of a directory, fails with an assertion failure for any other descriptor, and hands out a fresh iterator over the stored directory with the header's capacities; nothing is written |
| FileSystemDriver.FileSystem.FormatFile | FS-Driver-for-file/filesystem.cpp:401-433 | fails on a closed file or one with fewer than 4 blocks; otherwise succeeds exactly when no block handle is held and the root index names a table slot, and then the file holds the formatted header, a clear bitmap, the root as an empty directory, every other descriptor unused, and the root is the current folder |
| FileSystemDriver.FileSystem.Install | FS-Driver-for-file/filesystem.cpp:419-427 | the header installed, the areas cleared and the root stored leave exactly the formatted layout |
| FileSystemDriver.FileSystem.ClearAreas | FS-Driver-for-file/filesystem.cpp:419-422 | `formatFS` and both `initBlocks` leave the header in block 0, every bitmap bit clear and every descriptor unused |
| FileSystemDriver.FileSystem.Descend | FS-Driver-for-file/filesystem.cpp:452-464 | one component of a path walk on a healthy file gives what `Child` says and writes nothing |
| FileSystemDriver.FileSystem.WalkFrom | FS-Driver-for-file/filesystem.cpp:448-465 | the walk over all components on a healthy file gives what `Resolve` says and writes nothing |
| FileSystemDriver.FileSystem.GetLastPathElementDescriptor | FS-Driver-for-file/filesystem.cpp:435-466 | a path resolves from the root when absolute and from the current folder otherwise, to what `Resolve` gives for its components, without writing |
| FileSystemDriver.FileSystem.Open | FS-Driver-for-file/filesystem.cpp:143-157 | fails without a path or when the id counter is at its largest value; otherwise succeeds exactly when the path resolves, and then the new id, unused so far, maps to the resolved descriptor, the counter grows by one and no other entry changes |
| FileSystemDriver.FileSystem.Close | FS-Driver-for-file/filesystem.cpp:159-171 | succeeds exactly when the id is open, and then exactly that entry leaves the table; otherwise the table is unchanged |
| FileSystemDriver.FileSystem.Cd | FS-Driver-for-file/filesystem.cpp:237-242 | the current folder becomes what the path resolves to, without a check that it is a directory; on failure it is unchanged |
| FileSystemDriver.FileSystem.AddDescriptorToDirectory | FS-Driver-for-file/filesystem.cpp:327-341 | a name that is empty or too long is refused without writing; a target that is not a directory fails the assertion; on a directory with room the directory grows by exactly the new entry at its end, and otherwise it fails only when the descriptor is full and a new block cannot be had |
| FileSystemDriver.FileSystem.AllocDescriptor | FS-Driver-for-file/filesystem.cpp:310-322 | uses the first table block the bitmap marks as not full, fails with not-enough-entries when there is none, stores the descriptor in that block's first unused slot, changes no other descriptor, and marks the block full when its last slot was taken |
| FileSystemDriver.FileSystem.AllocAndAppend | FS-Driver-for-file/filesystem.cpp:306-325 | as written: the descriptor is allocated, and the current folder gains an entry naming the SLOT number, which is the new descriptor's index only in the first table block |
| FileSystemDriver.FileSystem.AllocAndAppendAsIntended | FS-Driver-for-file/filesystem.cpp:306-325 | corrected: the current folder gains an entry naming the index of the new descriptor, which maps back to the block and slot it was stored in |
| FileSystemDriver.FileSystem.Create | FS-Driver-for-file/filesystem.cpp:135-141 | through the corrected allocation (see Findings): a new empty file descriptor is allocated and entered in the current folder under the given name, by its index |
| FileSystemDriver.FileSystem.Mkdir | FS-Driver-for-file/filesystem.cpp:217-224 | through the corrected allocation (see Findings): a new empty directory whose parent is the current folder is allocated and entered in the current folder under the given name, by its index |
| FileSystemDriver.FileSystem.ReadTarget | FS-Driver-for-file/filesystem.cpp:351-353 | the entry found names a descriptor that must have a valid index and one of the allowed variants; each refusal is the one `Removal` states |
| FileSystemDriver.FileSystem.CheckTarget | FS-Driver-for-file/filesystem.cpp:352-353 | the named descriptor is read and accepted exactly when its index is valid and its variant is one of those allowed |
| FileSystemDriver.FileSystem.Unreference | FS-Driver-for-file/filesystem.cpp:354 | `decrementReference` fails exactly for a directory that still has entries; on success one reference is taken from the named descriptor only, and the iterator still stands on the entry |
| FileSystemDriver.FileSystem.TakeReference | FS-Driver-for-file/filesystem.cpp:352-354 | the check and the decrement together give the outcome `Removal` states, and write nothing on refusal |
| FileSystemDriver.FileSystem.RemoveFound | FS-Driver-for-file/filesystem.cpp:352-358 | through the corrected `deleteEntry` (see Findings): the entry found is refused as `Removal` says, or its descriptor loses a reference and the directory loses exactly that entry, the last entry taking its place; on every path, failures included, the iterator is destroyed and lets go of its block handle, as the source's `it` is when the function returns or an exception unwinds it |
| FileSystemDriver.FileSystem.Unmatched | FS-Driver-for-file/filesystem.cpp:362 | a scan that found nothing returns false and writes nothing |
| FileSystemDriver.FileSystem.RemoveFrom | FS-Driver-for-file/filesystem.cpp:347-362 | through the corrected `deleteEntry` (see Findings): the scan and removal give false with nothing changed when no entry has the name, and otherwise remove the first entry with the name as `RemovedAt` states |
| FileSystemDriver.FileSystem.RemoveMatch | FS-Driver-for-file/filesystem.cpp:351-358 | through the corrected `deleteEntry` (see Findings): once the scan stands on the first entry with the name, that entry is removed as `RemovedAt` states |
| FileSystemDriver.FileSystem.RemoveDescriptorFromDirectory | FS-Driver-for-file/filesystem.cpp:343-363 | through the corrected `deleteEntry` (see Findings): a bad name is refused without writing; an invalid index or a descriptor that is not a directory is refused; on a healthy file and a name other than "." and "..", the outcome is `RemovedAs` |
| FileSystemDriver.FileSystem.Unlink | FS-Driver-for-file/filesystem.cpp:200-210 | through the corrected `deleteEntry` (see Findings): without an argument nothing is written; otherwise the current folder's entry is removed when it names a file or symbolic link, as `RemovedAs` states |
| FileSystemDriver.FileSystem.Rmdir | FS-Driver-for-file/filesystem.cpp:226-235 | through the corrected `deleteEntry` (see Findings): without an argument nothing is written; otherwise the current folder's entry is removed when it names an empty directory, as `RemovedAs` states |
| FileSystemDriver.FileSystem.LinkEach | FS-Driver-for-file/filesystem.cpp:192-197 | the loop links the entry with the source name under the new name: over a stored directory without such an entry it writes nothing; over one keeping its entries in its descriptor with one such entry, the directory grows by exactly one entry for that entry's descriptor, and a failure comes only from a name that cannot be stored (nothing written) or a full descriptor |
| FileSystemDriver.FileSystem.LinkOne | FS-Driver-for-file/filesystem.cpp:193-196 | one turn of `link`'s loop keeps its state: an entry without the source name changes nothing, the one with it is added under the new name, and a failure is one `LinkFailed` allows |
| FileSystemDriver.FileSystem.LinkStep | FS-Driver-for-file/filesystem.cpp:192-193 | the step of `link`'s loop moves the iterator to entry `k` of the folder as the loop found it, keeping the loop's state and the header |
| FileSystemDriver.FileSystem.LinkMatch | FS-Driver-for-file/filesystem.cpp:194-196 | the entry with the source name, the first so named, is added to the folder under the new name, or the failure is one `LinkFailed` allows |
| FileSystemDriver.FileSystem.LinkDone | FS-Driver-for-file/filesystem.cpp:197-198 | the end of `link`'s loop releases the iterator, which writes nothing after a scan that matched nothing or kept to the descriptor, so the blocks are what the scan left |
| FileSystemDriver.FileSystem.LinkNames | FS-Driver-for-file/filesystem.cpp:188-197 | fails without writing on a missing header or a current folder that is not a directory; on a healthy file where no entry has the source name it succeeds and writes nothing; where the folder keeps its entries in its descriptor and one entry has the source name, success means the folder grew by one entry with the new name for that entry's descriptor (`LinkOutcome`) |
| FileSystemDriver.FileSystem.LinkFrom | FS-Driver-for-file/filesystem.cpp:191-197 | `link`'s loop over a fresh iterator on the current folder: writes nothing when no entry has the source name; links the one entry with that name once when the folder keeps its entries in its descriptor (`LinkOutcome`) |
| FileSystemDriver.FileSystem.Link | FS-Driver-for-file/filesystem.cpp:182-198 | fewer than two arguments are refused without writing; a current folder that is not a directory fails the assertion; when no entry has the source name nothing is written; when the folder keeps its entries in its descriptor and one entry has the source name, success adds exactly one entry named `args[1]` for that entry's descriptor, and failure leaves the blocks as they were for a bad name or means the descriptor was full |
| Paths.ComponentsWellFormed | FS-Driver-for-file/path.cpp:26-59 | no component of a path is empty or contains the delimiter |
| Paths.ComponentsSplit | FS-Driver-for-file/path.cpp:43-55 | a delimiter splits a path into two parts whose components are parsed independently and concatenated |
| Paths.ComponentsOfSlashFree | FS-Driver-for-file/path.cpp:36-55 | a delimiter-free path is a single component, or none when it is empty |
| Paths.RootHasNoComponents | FS-Driver-for-file/path.cpp:36-55 | the empty path and "/" have no components |
| Paths.ExtraDelimitersIgnored | FS-Driver-for-file/path.cpp:52 | leading, trailing and repeated delimiters do not change the components |
| Paths.JoinComponents | FS-Driver-for-file/path.cpp:26-59 | round trip: joining well-formed components with single delimiters and parsing the result gives them back |
| Paths.CollectDelimiters | FS-Driver-for-file/path.cpp:29-38 | the positions list starts with -1, holds every delimiter position in increasing order, and ends with the length when the path does not end with a delimiter |
| Paths.CutBetween | FS-Driver-for-file/path.cpp:43-55 | the non-empty stretches between consecutive positions are exactly the path's components |
| Paths.Path.constructor | FS-Driver-for-file/path.cpp:5-9 | the path is kept and nothing is parsed yet |
| Paths.Path.GetParsedPath | FS-Driver-for-file/path.cpp:26-59 | returns the path's components, computing them on the first call and keeping them for later calls |
| Completion.DeleteLastSymbol | FS-Driver-for-file/commandgetter.cpp:11-14 | on a non-empty string the result plus the erased character gives the string back; on an empty one the erase throws out-of-range |
| Completion.WithPrefixMembers | FS-Driver-for-file/commandgetter.cpp:16-26 | a string is a candidate exactly when it is one of the commands and starts with the prefix |
| Completion.GetU | FS-Driver-for-file/commandgetter.cpp:16-26 | the candidates are the commands starting with the typed prefix, in their order, and no others |
| Completion.FindMaxPrefixAfterPos | FS-Driver-for-file/commandgetter.cpp:43-61 | an empty list gives ""; otherwise it throws out-of-range exactly when the position lies past the end of the last string, and else gives the longest stretch of the last string from the position that every string shares |
| Completion.NoStopInsideAgreement | FS-Driver-for-file/commandgetter.cpp:49-59 | inside a stretch every string shares, no position ends the common prefix |
| Completion.CommonPrefixUnique | FS-Driver-for-file/commandgetter.cpp:43-61 | the shared stretch that ends where some string ends or differs is unique, so the result is the longest common prefix |
| Paths.IsAbsolute | FS-Driver-for-file/path.cpp:21-24 | an absolute path has the same components as the path without its leading delimiter, so resolution may start from the root with the rest |

## Left out

- Stream I/O: opening, creating and sizing the host file, and the byte-level reads and writes behind `_read`/`_write`, are replaced by the map of blocks; the file size is a field set by the caller. The write of a whole vector (`FS-Driver-for-file/fileaccessor.cpp:83-88`) goes with them.
- Raw layout aliasing: `reinterpret_cast` views, `sizeof` checks and the byte layout of the header and descriptors. `filesystemblock.h` is not part of this model; its layouts are datatypes here and its capacities are header fields. Its variant bit values are taken as None = 0, File = 1, Directory = 2, SymLink = 4, Any = 7. The descriptor's tagged union is modelled on its directory side only: the data-block addresses a file descriptor or a file's overflow block keeps in the same bytes are not modelled, since no core operation reads or writes file contents.
- Terminal input, the console, command dispatch, printing and logging: these are user interface. Operations report their success as a boolean or an `Outcome` where the source prints a message.
- `mount`, `umount`, `filestat` and `ls`: they open the host file or only print what the modelled operations already read.
- `pwd` and `getDirectoryPathFromDescriptor`: they follow the overflow link as if it were the parent, so they have no contract to state.
- The empty stubs `read`, `write`, `truncate` and `symlink`, and `createFile`, which only opens the host file.
- FileSystemDriver.FileSystem.Close: the id is a number parameter; the `stoull` parse of the argument text, with its own exceptions, is not modelled.
- FileSystemDriver.FileSystem.GetLastPathElementDescriptor: requires a non-empty path, because the source reads the first character of an empty path without checking. `Paths.IsAbsolute` has the same requirement.
- FileSystemDriver.FileSystem.constructor: the current folder starts at the invalid descriptor 0 as in the source. Only `FormatFile` establishes the `Healthy` state the walks and removals are proved for; a file mounted from outside is not assumed healthy.
- FileSystemDriver.FileSystem.Cd: does not check that the target is a directory, as in the source.
- FileSystemDriver.FileSystem.Link: the effect is proved when no entry has the source name, and when the current folder keeps all its entries in its descriptor and exactly one entry has the source name (`LinkCase`). It is not stated for a folder that uses an overflow block and has a match, because the iterator's stale copy of that block may be written back over the newly appended entry. It is also not stated for two or more matches, where later adds see a folder the iterator no longer reflects.
- FileSystemDriver.FileSystem.LinkNames: has the same bound as `Link`.
- FileSystemDriver.FileSystem.LinkFrom: has the same bound as `Link`.
- FileSystemDriver.FileSystem.LinkEach: has the same bound as `Link`.
- FileSystemDriver.FileSystem.LinkOne: has the same bound as `Link`.
- FileSystemDriver.FileSystem.LinkStep: has the same bound as `Link`.
- FileSystemDriver.FileSystem.LinkMatch: has the same bound as `Link`.
- FileSystemDriver.FileSystem.LinkDone: has the same bound as `Link`.
- FileSystemDriver.FileSystem.Create: allocates through `AllocAndAppendAsIntended`, the corrected allocation of the Findings table, so its entry names the new descriptor by its index. As written, the source enters the slot number instead, which `AllocAndAppend` models.
- FileSystemDriver.FileSystem.Mkdir: allocates through `AllocAndAppendAsIntended`, like `Create`.
- FileSystemDriver.FileSystem.RemoveDescriptorFromDirectory: the full effect is proved for names other than "." and "..", on a healthy file whose directory is stored as laid out. For "." and "..", only the refusals and the absence of other writes are stated.
- FileSystemDriver.FileSystem.RemoveDescriptorFromDirectory: removes through `DeleteEntryAsIntended`, the corrected `deleteEntry` of the Findings table. As written, `DeleteEntry` is proved only where the copy cannot step.
- FileSystemDriver.FileSystem.RemoveFound: removes through the corrected `deleteEntry`, like `RemoveDescriptorFromDirectory`.
- FileSystemDriver.FileSystem.RemoveMatch: removes through the corrected `deleteEntry`, like `RemoveDescriptorFromDirectory`.
- FileSystemDriver.FileSystem.RemoveFrom: removes through the corrected `deleteEntry`, like `RemoveDescriptorFromDirectory`.
- FileSystemDriver.FileSystem.Unlink: has the same bounds as `RemoveDescriptorFromDirectory`, the corrected `deleteEntry` included.
- FileSystemDriver.FileSystem.Rmdir: has the same bounds as `RemoveDescriptorFromDirectory`, the corrected `deleteEntry` included.
- Blocks.BitMapBlock.FindFirstZero: the counter is an unbounded natural where the source uses a 32-bit one; the bitmap blocks modelled are far smaller than 2^32 bits.
- Blocks.SetEntry: the source's debug `assert` that the name fits is not modelled; as in a release build, a longer name is truncated. The entry's buffer must hold `maxLength` characters.
- Storage.FileAccessor.SyncHeaderFromFile: takes the block size from the header just read. The source goes through `header()`, which is null when the signature is valid but the version is not.
- Storage.BufferHandle.Release: returns the write-back failure as an `Outcome`, where the source's destructor would throw from a destructor.
- Iterators.DirectoryIterator: a walk is proved only while the global index stays within the inline capacity whenever an overflow block holds more entries than the descriptor, as `Directory.WalkPastCapacityFails` shows.
- Iterators.DescriptorAlgorithms.constructor: the source leaves the capacities uninitialised until `setEntriesInfo`; here they start at 0.
- Iterators.DirectoryIterator.Deref: the source indexes the entry array without a check; an index outside it is reported as `OutOfRange` here.
- Iterators.DescriptorAlgorithms.DeleteEntry: as written, it is proved only where the copy cannot step, which is the case the first Findings row exhibits. Its two other slips, the emptied-block test on the iterator and the flush before the copy's write-back, are stated on its second half (`RemoveLastAsWritten`, `CountDownThenFlush`, `FlushThenRelease`) and exhibited by `EmptiedBlockKeptAsWritten` and `StaleCopyRestoresEntry`. The rest of the model uses `DeleteEntryAsIntended`.
- Areas.BitMapArea.FindFirstFreeBlock: modelled as written, including phase 2 skipping the first bitmap block when begin is its first bit, and phase 3 reading block `end` instead of the last bitmap block (see Findings). Allocation in the model keeps this scan, as the driver does; the corrected scan `Areas.BitMapArea.FindFirstFreeBlockAsIntended` stands beside it and is not used by allocation.
- Areas.DescriptorsArea.GetDescriptor: modelled as written. It refuses a descriptor whose variant intersects the requested one (see Findings). Every caller in the driver asks for `Any`, where the written and the corrected test agree, so the model keeps the test as written.

## Findings

| source | as written | input that shows it | evidently intended | confidence | as-written member | corrected member |
|---|---|---|---|---|---|---|
| FS-Driver-for-file/fsdescriptoriterator.cpp:197-199 | `deleteEntry` copies the iterator to find the last entry, but the copy constructor seeds the copy's index from the descriptor handle, so the copy may start elsewhere and `*it = *itInEnd` copies the wrong entry | a directory with two inline entries stored in descriptor 5, deleting entry 0: the copy starts at index 5, cannot step, and entry 0 is assigned to itself while the count drops, so entry 1 is lost and the deleted name stays (the two further slips of the same function are the last two rows) | the last entry is moved into the deleted slot and the count drops by one | high, not executed | Iterators.DeletedAsWritten | Iterators.DeletedAsIntended |
| FS-Driver-for-file/filesystemarea.cpp:176-182 | `blockPosToDescriptorIndex` scales the block address itself, without subtracting the start of the descriptor area | any layout whose descriptor area does not start at block 0, which is every formatted file: the index built never maps back to the block and slot it came from | `(block - descriptorsBegin) * perBlock + slot`, the inverse of `descriptorPosFromBlock` | high, not executed | Areas.BlockPosToDescriptorIndexMisses | Areas.DescriptorIndexRoundTrip |
| FS-Driver-for-file/filesystem.cpp:306-325 | `allocAndAppendDescriptorToCurrentFolder` enters in the directory the value `appendDescriptor` returns, which is the slot within the table block | the first table block is full and the new descriptor goes to slot 1 of the second block: the entry names descriptor 1, not the new one | the entry names the new descriptor's global index | high, not executed | FileSystemDriver.FileSystem.AllocAndAppend | FileSystemDriver.FileSystem.AllocAndAppendAsIntended |
| FS-Driver-for-file/blockbuffer.cpp:88-106 | move assignment takes over the other handle's buffer without returning its own to the pool | a valid handle holding buffer b is move-assigned from another valid handle holding buffer c: b stays occupied forever and the pool never hands it out again | the held buffer is unlocked and returned to the free list before the move | medium, not executed | Storage.BufferHandle.MoveAssign | Storage.BufferHandle.MoveAssignReleasing |
| FS-Driver-for-file/filesystemarea.cpp:206-242 | `findFirstFreeBlock` starts its middle phase one block past begin's bitmap block even when begin is that block's first bit, so the whole first block is skipped, and its last phase reads block `end` instead of the bitmap block that holds `end` | begin = 8 and end = 16 with eight bits per bitmap block and every address free: the scan reports no free address (`FirstFreeScanReadsEnd` shows the second slip) | the least free address in [begin, end], reading only bitmap blocks | medium, not executed | Areas.FirstFreeScanSkipsFirstBlock | Areas.BitMapArea.FindFirstFreeBlockAsIntended |
| FS-Driver-for-file/filesystemarea.cpp:61-73 | `getDescriptor` throws when the stored variant SHARES a flag with the requested one | a request for `Directory` on a slot that holds a directory: it is refused, while an unused slot is accepted | refuse when the variants share NO flag | medium, not executed | Areas.VariantCheckRefusesOwnKind | Areas.VariantCheckAsIntendedAcceptsOwnKind |
| FS-Driver-for-file/fsdescriptoriterator.cpp:202-216 | the emptied-block test of `deleteEntry` reads `it.weInDescriptor()`, the iterator's own position, instead of the copy's | a directory whose inline entries are all in use and whose last entry sits alone in slot 0 of its overflow block, deleting inline entry 0: the test is false, so the block is neither freed nor unlinked; the count drops to the inline capacity while the descriptor still links the block, and the next append to the now full descriptor links a new block in its place, so the old one is never freed | test the copy's position, freeing and unlinking the overflow block whenever the moved last entry was alone in it | high, not executed | Iterators.EmptiedBlockKeptAsWritten | Iterators.DeletedAsIntended |
| FS-Driver-for-file/fsdescriptoriterator.cpp:197-217 | `deleteEntry` flushes the iterator before the copy `itInEnd` is destroyed, and the copy's read-write handle on the overflow block then writes back the block as it first read it | a directory with entry i and its last entry both in the overflow block: `*it = *itInEnd` puts the last entry in the iterator's buffer and the flush stores it, then the copy's destructor writes the old block over it, so entry i is back and lowering the count loses the last entry instead | destroy the copy before flushing the iterator, so the iterator's block is written last | high, not executed | Iterators.StaleCopyRestoresEntry | Iterators.DeletedAsIntended |
