# Verified models of testfs, the thread library and the web server

This project models three stateful components and proves what they keep.

**testfs, the block layer (`fs/`).** Files are trees of 10 direct pointers, one
indirect and one double-indirect block on one shared disk, allocated first fit from
a bitmap. The disk is a map from block numbers to blocks of 8192 bytes; an indirect
block is those bytes read as 32-bit words. `Layout` and `BitWords` give areas, words and
bits their meaning in bytes and numbers. The central invariant, `Store.Owned`, says
that every allocated block is named by exactly one place of one inode and the other
way round, and that block counts are exact. `ReadWrite.AllocateBlock` is proved for
every case of space and of missing pointer blocks. `Ranges` and `WritePlan` foretell
from the state before a write how far it gets and what it returns, and
`ReadWrite.WriteData` does exactly that, out of space or not; `Reading` is its
counterpart. `FreeTree.FreeBlocks` says exactly which blocks are freed and when that is
all of them. `FileRuns` composes these over whole runs, and `FileExamples` holds the
inputs on which the code does not do what is meant.

**testfs, directories and inodes.** `DirLog` is a directory as bytes: a log of records
with tombstones, read through testfs_read_data; `DirMap` is the finite map it stands
for; `DirFile` has the functions that change it in place, and `DirStorage` ties its bytes to
the block layer. `DirTree` and `DirCommands` are the tree under mkdir, create, cd and rm,
and pwd, and `DirMeaning` says what each command does to entries, paths and the output of
pwd. `InodeCache` and `InodeTable` are the reference-counted inodes in memory and their
slots on disk, the latter as hash buckets along every run.

**Threads (`threads/thread.c`).** `Scheduler` is a step relation: what runs between
disabling interrupts and the next context switch is one step, and preemption is a yield to
any thread; `Interrupts` derives this from a machine with the interrupt flag, the flags
that each thread has saved, and the timer. `SchedulerOrder` is about the order of the
ready list, `SchedulerLocks` about locks and condition variables, compared with a
history of what each thread took, gave back and waited for, and `SchedulerWaits` about
who sleeps until when. `ThreadLists` and
`ThreadQueues` are the linked lists; `ThreadLibrary` has the functions on those lists
and on the thread table, whose state, read off the links, makes the steps of the
relation along every run.

**Web server (`webserver/server_thread.c`).** `RequestRing` is the bounded queue with
its two wait sets, `FileCache` and `CacheRuns` the cache as a value and under any
interleaving of workers, `CacheLists` and `ServerCache` the hash chains and the LRU
list with their links, tied to the value, and `ServerRuns` the workers on those links
along every run.

Runs are sequences of steps of any length by any threads; a step that is not enabled
does not happen. Constants are those of the source: 8192-byte blocks, 10 direct
pointers, 2048 pointers per block, 1024 threads, 128 inodes of 64 bytes per block.

Where code and intent differ the model follows the code, says exactly when the intended
property holds, and gives an input on which it does not: a lookup past the indirect
block, the dangling link of a failed allocation, a write reported as complete, a block
number that wraps around, a read that loses its last block, a removal that misses
blocks, a name added twice, a long name that is not found, a record that does not get to
its place in a large directory, a release by a thread that
does not hold the lock, a false miss and a negative bucket index. The one place where
the model does not follow `fs/read_write.c` is the order of two checks in
testfs_allocate_block: the block limit is compared before the lookup, as in the
top-level `read_write.c` lines 128 to 130.

## Model

| member | source | states |
|---|---|---|
| `BitWords.BitMeans` | fs/bitmap.c:93-100 | Bit k of a word, as the mask finds it, is the digit of weight 2^k of the number in the word. |
| `Bitmaps.Bitmap.constructor` | fs/bitmap.c:20-54 | A new bitmap stands for the empty set and its padding bits are set. |
| `Bitmaps.Bitmap.FindClear` | fs/bitmap.c:76-89 | The word-then-bit search finds the smallest clear index below nbits and never a padding bit; it fails only if all are set. |
| `Bitmaps.Bitmap.Alloc` | fs/bitmap.c:69-91 | First fit: fails if and only if every index below nbits is set; otherwise the smallest clear index joins the set, the number in word index / 8 grows by 2^(index % 8), the other words stay, and the count grows by one. |
| `Bitmaps.Bitmap.Mark` | fs/bitmap.c:102-113 | Set insert, count plus one; the number in word index / 8 grows by 2^(index % 8) and no other word changes. |
| `Bitmaps.Bitmap.Unmark` | fs/bitmap.c:115-126 | Set delete, count minus one; the number in word index / 8 falls by 2^(index % 8) and no other word changes. |
| `Bitmaps.Bitmap.NrAllocated` | fs/bitmap.c:146-157 | The counting loop returns the size of the set. |
| `Words.WordOfSetWord` | fs/read_write.c:242-242 | Storing a 32-bit word in a block of bytes reads back as itself and leaves the other 2047 words alone. |
| `Words.WordIsLittleEndian` | fs/read_write.c:187-187 | The word at index i of a block is the little-endian number in bytes 4 i to 4 i + 3, less 2^32 from 2^31 on. |
| `Words.SetWordBytes` | fs/read_write.c:242-242 | Storing a word changes these four bytes, lowest byte first, and no other byte of the block. |
| `Words.FieldIsLittleEndian` | fs/dir.c:16-42 | The same for the int fields of a directory record. |
| `Store.AddressingIsBijective` | fs/read_write.c:17-66 | Logical block numbers below 10 + 2048 + 2048 * 2048 and leaf pointer slots are in bijection under the div/mod arithmetic. |
| `Store.PointerIsStored` | fs/read_write.c:17-66 | Where the pointer to a logical block lies on disk: in four bytes at entry l - 10 of the indirect block, or, with d = l - 2058, at entry d % 2048 of the block that entry d / 2048 of the double-indirect block names. |
| `Layout.AreasAreApart` | fs/super.c:97-107 | The data area begins where super block, free maps and inode blocks end; the maps have enough bits; no inode block is a data block. |
| `Store.OwnedIsExact` | fs/read_write.c:160-286 | The ownership invariant without its witness: distinct places hold distinct blocks, and the allocated blocks are exactly the non-zero pointers reachable from the inodes. |
| `Store.AttachPointer` | fs/read_write.c:240-244 | Storing a fresh block at an empty place of the tree, through one or two pointer blocks, changes the pointer at that place and no other pointer of any inode. |
| `Store.AttachKeepsOwned` | fs/read_write.c:240-244 | Attaching a fresh block keeps ownership exact and raises the block count of that inode only. |
| `Growth.RollbackKeepsFiles` | fs/read_write.c:279-284 | If only free blocks differ on disk, ownership, all pointers and every byte of every file are as before. |
| `Growth.MappedByLeaf` | fs/read_write.c:182-286 | Attaching the data block below newly attached pointer blocks maps exactly that logical block. |
| `Ranges.NeedForeseen` | fs/read_write.c:160-286 | Once blocks [lo, m) of a file are mapped, mapping block m takes as many new blocks as the state before the run of allocations foretells. |
| `BlockLayer.FileSystem.AllocBlock` | fs/super.c:225-239 | Fails if and only if the number of used blocks reaches max_fs_blocks or the size of the free map; otherwise takes the lowest free data block; the used count stays the size of the set. |
| `BlockLayer.FileSystem.FreeBlock` | fs/super.c:243-255 | The block is zeroed on disk and leaves the used set; nothing else changes. |
| `BlockLayer.FileSystem.AllocBlockForInode` | fs/inode.c:235-246 | The allocation raises the block count of the one inode; failure changes nothing. |
| `BlockLayer.FileSystem.FreeBlockFromInode` | fs/inode.c:249-257 | The reverse, with block 0 ignored. |
| `BlockLayer.FileSystem.LookupBlock` | fs/read_write.c:11-76 | The pointer walk finds the block of the tree if and only if it does not index past the indirect block (block beyond the single-indirect range, no double-indirect block, an indirect block present) or the word found there is zero. |
| `BlockLayer.FileSystem.ReadBlock` | fs/read_write.c:77-84 | The buffer is the logical block, zero for a hole; past the indirect block, the block that the stray word names. |
| `FileExamples.StrayLookup` | fs/read_write.c:69-72 | A new file system and one write after which the lookup of block 2058 returns the stray word. |
| `Allocation.AllocateIndirect` | fs/read_write.c:260-285 | Single-indirect case: fails if and only if the blocks it needs do not fit, and is then rolled back; otherwise the bytes at entry l - 10 of the indirect block are the new block number. |
| `AllocationDouble.AllocateUnderDouble` | fs/read_write.c:205-254 | With a double-indirect block present: fails if and only if space is short; unchanged then, except the dangling case, which is described exactly. |
| `AllocationDouble.AllocateFromNoDouble` | fs/read_write.c:197-254 | Without one: three blocks are needed; fails if and only if they do not fit, and is rolled back. |
| `ReadWrite.DanglingLink` | fs/read_write.c:245-247 | The dangling link points at a free block, no assignment of owners fits the resulting state, and still every file reads as before. |
| `ReadWrite.AllocateBlock` | fs/read_write.c:160-286 | EFBIG from the limit on; an existing block, or a stray word, is returned and nothing changes; otherwise it fails if and only if the 1 to 3 blocks needed do not fit. Success maps exactly this logical block and changes no other resolution or content of any inode. Failure leaves all files as they were and is a full rollback if and only if not (fresh indirect block under an existing double-indirect block with one block left). |
| `FileExamples.DanglingWrite` | fs/read_write.c:245-247 | A file system of four blocks and two writes that end in the dangling state. |
| `FileWrites.ChunkStored` | fs/read_write.c:303-309 | Splicing a chunk into a mapped block changes exactly those bytes of that file and no byte of any other file, although all share one disk; it costs what the block needs. |
| `FileWrites.WroteMore` | fs/read_write.c:316-326 | Consecutive chunks compose into one write that costs what the whole run of blocks needs. |
| `ReadWrite.WriteChunk` | fs/read_write.c:303-309 | One chunk: stored, with nothing else changed; or ENOSPC if and only if the block needs space and that does not fit, with every file as it was and the tree sound unless the link dangles. |
| `ReadWrite.WriteFullBlocks` | fs/read_write.c:312-328 | The loop over full blocks stores a growing prefix and stops exactly at the first block that does not fit. |
| `ReadWrite.WriteTail` | fs/read_write.c:330-370 | The last block with its two different error exits ends as foreseen. |
| `ReadWrite.WriteData` | fs/read_write.c:288-371 | The state before the call decides everything: result, bytes stored (at the position the converted block number gives), sizes also after running out of space, blocks taken, and whether the tree stays sound or dangles. Every other byte of every file is kept. |
| `WritePlan.ReachedAll` | fs/read_write.c:303-346 | A write gets to all its blocks if and only if the need of the whole range fits the space left. |
| `WritePlan.WithSpace` | fs/read_write.c:288-371 | If it fits, exactly [start, min(start + size, limit)) is stored, and EFBIG is the result if and only if start + size exceeds the limit. |
| `WritePlan.MisreportedExactly` | fs/read_write.c:330-335 | The result claims more than was stored if and only if the write has two blocks of which the first fits and the second does not. |
| `WritePlan.OutcomeExactly` | fs/read_write.c:303-370 | A write gets through if and only if it stays below the limit and its blocks fit, or it has two blocks of which the first fits; then, and only then, it sets the size if it is not empty. Otherwise it returns ENOSPC if its blocks below the limit do not fit, else EFBIG. |
| `WritePlan.RefusedExactly` | fs/read_write.c:172-173 | A write is refused with EFBIG and nothing stored, whatever the space, if and only if its block number converted to int is at or above the limit. |
| `WritePlan.PositionExactly` | fs/read_write.c:292-303 | Bytes go where the offset says if and only if it is below 2^44; from there on the conversion of the block number to int moves them. |
| `ReadWrite.WrittenWithSpace` | fs/read_write.c:288-371 | A write that fits stores its bytes below the limit, sets i_size to the maximum of old size and end, and keeps mapped blocks below the size and pointer blocks non-empty. |
| `FileExamples.MisreportedWrite` | fs/read_write.c:332-334 | With one block left a write of two blocks returns full success; the second block reads as zeros below i_size. |
| `FileExamples.WrappedWrite` | fs/read_write.c:303-303 | A write at offset 2^45 overwrites byte 0 and sets the size to 2^45 + 1. |
| `Reading.ReadData` | fs/read_write.c:87-155 | The result counts the bytes up to the end of file; the buffer receives them all unless the read spans blocks and stops on a block boundary, when the last block is left out; the rest of the buffer is untouched. Behind the end of file, in a later block, the byte count wraps around and the read is refused with EFBIG. |
| `Reading.ShortReadsAreWhole` | fs/read_write.c:103-154 | A read of at most one block of bytes is never cut short. |
| `FileExamples.CutRead` | fs/read_write.c:134-142 | Writing two blocks and reading them back: both are reported, the second is not delivered. |
| `Freeing.BlocksUpToMeans` | fs/read_write.c:380-380 | The number of blocks that the loops work with is the least that holds the size. |
| `Freeing.RankCounts` | fs/read_write.c:415-434 | Under the double-indirect block an entry counts by its rank, which is the number of entries before it that are present. |
| `Freeing.HitIsBelow` | fs/read_write.c:382-434 | In sizes: direct and indirect block l is hit if and only if l * 8192 is below the size, a block under the double-indirect block if and only if its place by rank is. |
| `Freeing.PassSlot` | fs/read_write.c:383-388 | Freeing the block of one more slot: it was still allocated and had not been freed. |
| `Freeing.BoundedIsComplete` | fs/read_write.c:373-443 | If the mapped blocks of the inode start below its size and no pointer block is empty, the loops hit every slot: the counter k lags behind the logical position and never runs ahead. |
| `Freeing.FreedAllIsExact` | fs/read_write.c:373-443 | When exactly the blocks of an inode are gone, ownership of the rest is exact and no other file changed. |
| `FreeTree.FreeAllEntries` | fs/read_write.c:415-434 | The counter k advances only over entries that are present; exactly the entries and leaves it reaches are freed. |
| `FreeTree.FreeBlocks` | fs/read_write.c:373-443 | Told by the size, where its number of blocks fits an int: the assertion on the indirect block holds if and only if there is none or the size exceeds 81920; then direct or indirect block l is freed if and only if l * 8192 is below the size, entries under the double-indirect block by their rank among those present, each once, and other inodes are untouched. All blocks are freed and the inode ends blank if and only if every mapped slot is hit and the assertion holds. |
| `FileExamples.LostBlocks` | fs/read_write.c:373-388 | After a write of three blocks found room for two, freeing the file frees nothing. |
| `FileRuns.Do` | fs/read_write.c:288-443 | A write or a removal makes a step of the run relation. Lookups past the indirect block are excluded by the blocks of this write and the pointers of this inode, and only where they would find a non-zero word. |
| `FileRuns.LastTouchDecides` | fs/read_write.c:288-371 | The ideal file: a byte is the last value stored since the file was last removed, or zero. |
| `FileRuns.RunsAgree` | fs/read_write.c:288-443 | Any run on any number of inodes, writes that run out of space included: as long as no write dangled and no removal missed a block, ownership is exact and every byte and size of every file is what the effects so far leave, each effect being foretold by the state before it. |
| `FileRuns.RunsWithSpace` | fs/read_write.c:288-443 | A run of non-empty writes and of removals has its intended effects throughout if and only if each write fits the space there is when its turn comes. It then never breaks: ownership is exact, every byte is the last one written there or zero, and the shape that makes removal complete is kept. |
| `FileRuns.BoundedRunsFit` | fs/read_write.c:288-443 | A bound on the lengths of the writes that is known beforehand and guarantees this. |
| `FileRuns.ReadBack` | fs/read_write.c:87-155 | A read after such a run returns the ideal bytes up to the ideal size. |
| `Layout.InodeLies` | fs/inode.c:76-95 | Inode nr is the 64 bytes from byte 64 nr of the inode area on. |
| `InodeCache.SetSlotIsFramed` | fs/inode.c:76-95 | Inode slots do not overlap: writing one reads back and leaves every other as it was. |
| `InodeCache.StepIsFramed` | fs/inode.c:115-171 | No get, sync, put, change, create or remove touches the memory, slot, count or free-map bit of another inode. |
| `InodeCache.StepKeepsCoherent` | fs/inode.c:115-231 | Every operation keeps coherence: a clean inode equals its slot, the reference count is the number of references out, free slots are zero. |
| `InodeCache.CacheIsTransparent` | fs/inode.c:115-231 | What the program sees of every inode: get, sync and put change no contents, a change, creation or removal only those of its inode, to the new contents, zeros with the type, or zeros; the free map and the references follow. |
| `InodeCache.DiskFollows` | fs/inode.c:142-158 | The slot of an inode on disk changes in two ways only: a sync stores what is in memory, a removal stores zeros. |
| `InodeCache.CreatedIsZero` | fs/inode.c:198-216 | A created inode is all zero apart from its type. |
| `InodeCache.NothingLeaks` | fs/inode.c:37-46 | After any run in which every reference was given back no inode is in memory, as inode_hash_destroy asserts. |
| `InodeCache.SyncedSurvives` | fs/inode.c:142-171 | A sync, then any run of operations that do not change this inode, its last put included, then get: the contents at the time of the sync. |
| `InodeTable.Table.Find` | fs/inode.c:48-61 | The bucket scan finds the one inode of that number, or null if and only if there is none. |
| `InodeTable.Table.GetInode` | fs/inode.c:115-140 | On the hash table: the get step; at most one object per number. |
| `InodeTable.Table.SyncInode` | fs/inode.c:142-158 | On the hash table: the sync step; the slot is written only if the inode is dirty. |
| `InodeTable.Table.PutInode` | fs/inode.c:160-169 | On the hash table: the put step; the object leaves its bucket with the last reference. |
| `InodeTable.Table.CreateInode` | fs/inode.c:198-216 | On the hash table: the create step, with the number the free map gave. |
| `InodeTable.Table.RemoveInode` | fs/inode.c:219-231 | On the hash table: clearing, free map, sync and put in the order of the source are the remove step. |
| `InodeTable.Run` | fs/inode.c:37-231 | Any operations on the buckets from an empty file system: one object per number in the bucket of its hash, and the state the step relation reaches, which is coherent. |
| `DirLog.RecordBytes` | fs/dir.c:16-42 | The bytes of a record: four for the length of the name with its terminator, four for the inode number, lowest first, and the name. |
| `DirLog.RecordAt` | fs/dir.c:16-42 | Each record lies at the sum of the lengths before it, and the records end exactly at the end of the file. |
| `DirLog.SeenExactly` | fs/dir.c:34-40 | A scan sees a record as it is if and only if its name does not span blocks and end on a block boundary, or the memory happened to hold the missing bytes. |
| `DirLog.ReadsBack` | fs/dir.c:26-40 | Reading through testfs_read_data gives the record as a scan sees it; length and inode number are always right. |
| `DirLog.LogIsUnambiguous` | fs/dir.c:16-42 | The bytes of a directory determine its records. |
| `DirLog.OverwriteRecord` | fs/dir.c:170-171 | Writing a record over one of the same length changes that record and no other byte of the log. |
| `DirMap.LookupIsGet` | fs/dir.c:324-340 | Lookup is the get of the finite map of live names. |
| `DirMap.AddIsInsert` | fs/dir.c:86-114 | After a failed lookup, adding is the map insert: live names stay unique and no live record changes. |
| `DirMap.AddedIsUnique` | fs/dir.c:98-109 | Without that lookup names stay unique if and only if the name is not live, or is live before the first tombstone that fits. |
| `DirMap.AddedTwice` | fs/dir.c:98-109 | A log with a tombstone before the live name, in which adding the name makes a duplicate. |
| `DirMap.RemoveIsDelete` | fs/dir.c:145-176 | Removing is the map delete and changes one record. |
| `DirStorage.ReadThrough` | fs/read_write.c:87-155 | testfs_read_data on a file with the given contents delivers exactly the bytes the directory code is modelled to see. |
| `DirStorage.WriteThrough` | fs/read_write.c:288-371 | testfs_write_data on a file with the given contents, with space, overwrites in place or appends as the directory code is modelled to write. |
| `DirFile.WholeIsSeen` | fs/dir.c:16-42 | If no name is cut, scans see the records as they are; names of at most a block never are. |
| `DirFile.LongNameIsLost` | fs/dir.c:34-40 | A name of 16354 bytes created in a new root directory is not found again. |
| `DirFile.PlacedExactly` | fs/dir.c:65-81 | The offset of a new record is converted to int: where that is not negative, the log becomes the one with the record added if and only if the offset is below 2^31. |
| `DirFile.FullDirectory` | fs/dir.c:113-113 | A directory with two names of 2^30 bytes, in which the offset for a third name becomes negative. |
| `DirFile.Directory.NextDirent` | fs/dir.c:16-42 | Reads the next record as a scan sees it and advances to the one after it, or reports the exact end of the file. |
| `DirFile.Directory.NameToInode` | fs/dir.c:324-340 | The scan returns the lookup on the records as seen; where none is cut, the map entry, or -ENOENT if and only if there is none. |
| `DirFile.Directory.FindDirent` | fs/dir.c:47-61 | The scan finds the first record of an inode number, cut names or not. |
| `DirFile.Directory.WriteDirent` | fs/dir.c:65-81 | Does not come back if and only if the converted offset is negative; otherwise the bytes go to that offset, which is the place of the record if and only if the offset was below 2^31. |
| `DirFile.Directory.AddDirent` | fs/dir.c:86-114 | -EEXIST if and only if a scan sees the name live before the first tombstone of its length; otherwise the record goes there or to the end, where a failing write changes nothing, and does so correctly if and only if the offset is below 2^31. Insert when the name is new; unique afterwards exactly as DirMap.AddedIsUnique says. |
| `DirFile.Directory.RemoveAllowed` | fs/dir.c:118-138 | The emptiness scan refuses if and only if a record is seen live under a name other than the dot names. |
| `DirFile.Directory.RemoveDirent` | fs/dir.c:145-176 | -EINVAL for the dot names, -ENOENT if absent, -ENOTEMPTY if and only if the name leads to a directory that the emptiness scan refuses, else the inode number and the map delete. |
| `DirTree.StepKeepsTree` | fs/dir.c:200-424 | Every command, with names of any length, keeps the tree: dot and dot-dot entries, depth, one entry per inode, each leading back by dot-dot. What each command does is stated by the rows on DirMeaning. |
| `DirMeaning.CdMeans` | fs/dir.c:343-361 | cd moves to where the entry of the current directory leads if that is a directory and changes nothing else. A name other than the dot names is put at the end of the path, dot-dot takes the last one off, dot and a name that leads to no directory leave it. |
| `DirMeaning.MakeMeans` | fs/dir.c:200-238 | mkdir or create of a new name adds exactly that entry and that inode, a directory if and only if the command is mkdir, one name below the current one; every path stays. An existing name changes nothing. |
| `DirMeaning.RmMeans` | fs/dir.c:145-176 | rm takes away exactly the entry and its inode if it is not a dot name and leads to an inode without entries, and every other path stays; otherwise nothing changes. |
| `DirTree.TruePath` | fs/dir.c:240-265 | A walk without dot names from the root arrives at a directory if and only if it is its path. |
| `DirTree.OneEntryEach` | fs/dir.c:200-238 | After any commands each inode but the root has exactly one entry besides the dot names, in the directory its dot-dot names. |
| `DirCommands.MayRemoveIsEmpty` | fs/dir.c:118-138 | The emptiness scan accepts exactly files and directories without entries besides the dot names. |
| `DirCommands.ScansAreWhole` | fs/dir.c:16-42 | Where names are unique and none is cut, every scan of every directory sees the records as they are, whatever the memory of its buffers held. |
| `DirCommands.FitsExactly` | fs/dir.c:65-114 | The condition on a new name is exact: if its length fits, it holds if and only if the record gets to its place in the file and scans see every record whole afterwards. |
| `DirCommands.StepRefines` | fs/dir.c:200-424 | Each command, reading by scans, does to the logs what it does to the tree; names stay unique and whole. New names are those that can be read back at the place they get. |
| `DirMeaning.CdOnLogs` | fs/dir.c:343-361 | On the logs: cd changes the current directory only, to the inode of the map entry if that is a directory. |
| `DirMeaning.MakeOnLogs` | fs/dir.c:200-238 | On the logs: the map of the current directory gets the new name, a new directory gets the dot names, no other inode changes; an existing name changes nothing. |
| `DirMeaning.RmOnLogs` | fs/dir.c:407-424 | On the logs: if rm is allowed the name leaves the map of the current directory and its inode is gone, no other inode changes; otherwise nothing changes. |
| `DirCommands.RunsRefine` | fs/dir.c:200-424 | So does every run of commands, each with its own memory contents. |
| `DirCommands.PwdFacts` | fs/dir.c:250-259 | What testfs_pwd asserts: the dot-dot entry exists and the parent has a record of the directory, the one with its name; the depth falls. |
| `DirCommands.PwdPrintsTruePath` | fs/dir.c:240-265 | testfs_pwd terminates and prints the one dot-free path from the root. |
| `DirCommands.PwdAfterAnyRun` | fs/dir.c:364-373 | After any commands on a new file system, pwd prints the path that leads to the current directory. |
| `DirMeaning.PwdFollows` | fs/dir.c:343-373 | What pwd prints after a command: after cd to a name, the old path, a slash and the name; after cd to dot-dot, the old path without its last slash and name; after any other command, the same as before. |
| `Interrupts.RunsAreScheduled` | threads/thread.c:113-906 | With the saved flags of every thread, its context switches and the timer in the model: all work of the library is a run of the step relation, and the timer strikes only threads that are in no function of the library, where the yield is an enabled step. |
| `Interrupts.EventKeeps` | threads/interrupt.c:62-78 | Interrupts are on, and the timer can strike, if and only if the running thread is in no function of the library; threads that do not run are in one; only the outermost frame switches interrupts on. |
| `Interrupts.CvWaitIsUninterrupted` | threads/thread.c:860-877 | After the release in cv_wait there is neither a timer nor another thread until this thread works again, and its work is the sleep. |
| `Scheduler.CreateKeeps` | threads/thread.c:113-171 | Creation keeps the partition; it finds no identifier if and only if all of 1 to 1023 are in use. |
| `Scheduler.CreateWithoutMemory` | threads/thread.c:149-154 | The out-of-memory return leaves an existing thread in no queue: the partition is lost. |
| `Scheduler.StepKeepsPartition` | threads/thread.c:113-906 | Every step: each existing thread is running, in the ready list, or in one wait queue, exactly one of them and once, with the status to match. |
| `Scheduler.RunsArePartitioned` | threads/thread.c:81-906 | The same in every state of every run from thread_init. |
| `SchedulerOrder.WakeAllIsFifo` | threads/thread.c:677-694 | Waking all appends the sleepers in sleep order; the count is exact. |
| `SchedulerOrder.NobodyOvertakes` | threads/thread.c:173-345 | A ready thread never moves back, and moves up at each step that runs the head of the list. |
| `SchedulerOrder.BoundedWaiting` | threads/thread.c:173-345 | A thread at position p has run by the time the head has been run p + 1 times. |
| `SchedulerWaits.StepOnQueue` | threads/thread.c:113-906 | What any step does to any queue: those it wakes leave at the front, and the caller joins at the end exactly of the queue it sleeps on. |
| `SchedulerWaits.StepOnLine` | threads/thread.c:173-345 | A thread that sleeps hands over to the first that is ready; one that yields goes to the end, and a thread it names comes to the front; the others keep their order. |
| `SchedulerWaits.WaitLastsUntilExit` | threads/thread.c:697-730 | In every run from thread_init: a thread that calls thread_wait for another existing thread while some thread is ready is asleep in every state until that thread exits, whoever else exits, and is then ready or running. For itself, a thread that does not exist, or with none ready, nothing changes. |
| `SchedulerWaits.SleepLastsUntilWakeup` | threads/thread.c:605-694 | The same for thread_sleep and thread_wakeup on a queue of the user. |
| `SchedulerWaits.AcquireLastsUntilRelease` | threads/thread.c:776-821 | The same for lock_acquire of a lock that is taken and its release. |
| `SchedulerWaits.CvWaitLastsUntilSignal` | threads/thread.c:860-906 | The same for cv_wait by the thread that acquiredID names: asleep until a signal or broadcast on that condition variable. |
| `SchedulerWaits.WaitersAreQueued` | threads/thread.c:605-730 | Who sleeps on what, recorded from the calls alone, is what the queues hold in every state of every run. |
| `SchedulerWaits.WokenInOrder` | threads/thread.c:411-432 | A wake-up or an exit readies exactly the threads recorded as waiting, all or the first, in the order of their calls and behind those already ready; after an exit the first of all these runs. |
| `SchedulerWaits.JoinersInOrder` | threads/thread.c:697-730 | Of two threads that wait for the same thread the one that called first is ahead after its exit. |
| `SchedulerLocks.StepSafe` | threads/thread.c:776-906 | Every disciplined step keeps holders, queues of free locks and condition waiters exact. |
| `SchedulerLocks.UncheckedRelease` | threads/thread.c:802-821 | lock_release does not check the caller: the record of holders stays right if and only if no other thread holds the lock. |
| `SchedulerLocks.StolenLock` | threads/thread.c:802-821 | A run from thread_init in which two threads come to hold one lock. |
| `SchedulerLocks.RunsAreSafe` | threads/thread.c:776-906 | Safety in every state of every disciplined run. |
| `SchedulerLocks.MutualExclusion` | threads/thread.c:776-821 | Two threads never hold one lock; the holder is acquiredID; a free lock has an empty queue. |
| `SchedulerLocks.SignalsReachWaiters` | threads/thread.c:860-906 | No lost wake-up: a signal by the holder readies the longest waiter, a broadcast all waiters in the order of their cv_wait calls. |
| `ThreadLists.List.PushBack` | threads/thread.c:347-363 | The links spell the old sequence followed by the node. |
| `ThreadLists.List.PushBackByWalking` | threads/thread.c:503-526 | The walk finds the last node, and linking behind it appends. |
| `ThreadLists.List.Find` | threads/thread.c:215-221 | The search finds the node of a thread if and only if it is listed. |
| `ThreadLists.DeleteNode` | threads/thread.c:373-410 | Choosing the branch by thread identifier removes the intended node and no other. |
| `ThreadQueues.Queues.PushReady` | threads/thread.c:347-371 | A new node goes to the end of the ready list; the wait queues, which share no node with it, are untouched. |
| `ThreadQueues.Queues.PushWaiting` | threads/thread.c:503-534 | A new node goes to the end of one queue, made if needed; the ready list and the other queues are untouched. |
| `ThreadQueues.Queues.PopWaiting` | threads/thread.c:536-577 | The head leaves one queue; every other list is untouched. |
| `ThreadLibrary.Library.Create` | threads/thread.c:113-171 | On the links: the creation step; returns the smallest unused identifier, or THREAD_NOMORE if and only if none is left. |
| `ThreadLibrary.Library.Yield` | threads/thread.c:173-345 | On the links: the yield step; THREAD_NONE if and only if any thread is wanted and none is ready, THREAD_INVALID if and only if a thread is wanted that is neither the caller nor ready, else the thread that runs. |
| `ThreadLibrary.Library.Sleep` | threads/thread.c:605-643 | On the links: a node for the caller behind the last of the queue, the head of the ready list unlinked and running; THREAD_NONE if and only if there is none. The partition makes the link operations applicable and is kept. |
| `ThreadLibrary.Library.Wakeup` | threads/thread.c:648-694 | On the links: sleepers move one node at a time; the returned count is exact and they are readied in sleep order. |
| `ThreadLibrary.Library.Exit` | threads/thread.c:411-432 | On the links: the joiners of the caller line up behind the ready threads in the order of their waits and leave their queue; the first in this line runs and the caller no longer exists, or, if the line is empty, nothing changes. |
| `ThreadLibrary.Library.Wait` | threads/thread.c:697-730 | On the links: THREAD_INVALID and nothing changed if and only if the thread is the caller or does not exist; otherwise, if another thread is ready, the caller is the last in the queue of joiners of that thread, no other queue changes, and the first ready thread runs. |
| `ThreadLibrary.Library.Acquire` | threads/thread.c:776-800 | On the links: one turn of the acquire loop; taken if and only if the lock was free; otherwise the caller is the last in the queue of that lock, if another thread is ready. |
| `ThreadLibrary.Library.Release` | threads/thread.c:802-821 | On the links: the lock is free and everyone who slept on it is ready, in sleep order. |
| `ThreadLibrary.Library.CvRelease` | threads/thread.c:860-868 | On the links: the lock is released and the caller still runs, about to sleep. |
| `ThreadLibrary.Library.Notify` | threads/thread.c:879-906 | On the links: for the thread that acquiredID names, the longest waiter or all become ready in the order of their waits; for others nothing happens. |
| `ThreadLibrary.Run` | threads/thread.c:81-906 | Any calls from thread_init: the links stay sound, no node is in two lists, each thread is in exactly one place, and what the links spell out is the state the step relation reaches. |
| `RequestRing.PutAppends` | webserver/server_thread.c:460-466 | Storing at rq_start appends to the contents of the ring, wrapping around, and moves no other descriptor. |
| `RequestRing.TakeRemovesOldest` | webserver/server_thread.c:344-349 | Fetching at rq_end removes the oldest descriptor. |
| `RequestRing.RequestQueue.Store` | webserver/server_thread.c:460-466 | The in-place update appends, and broadcasts if and only if the ring was empty. |
| `RequestRing.RequestQueue.Fetch` | webserver/server_thread.c:344-349 | The in-place update returns the oldest, and broadcasts if and only if the ring was full. |
| `RequestRing.StepKeepsInv` | webserver/server_thread.c:331-471 | Every lock-held section of any thread keeps the ring invariant, including spurious wake-ups. |
| `RequestRing.SectionMeans` | webserver/server_thread.c:331-471 | One lock-held section, told by the contents: a caller waits if and only if the ring is full and else puts its descriptor behind the others; a worker waits if and only if the ring is empty and else gets the oldest; those who wait are woken on leaving empty and full. |
| `RequestRing.FirstInFirstOut` | webserver/server_thread.c:331-471 | After any interleaving: delivered is a prefix of accepted, each once; offered descriptors are delivered, in the ring or with a caller; (rq_end + counter) mod max is rq_start. |
| `RequestRing.NobodyWaitsInVain` | webserver/server_thread.c:331-471 | A sleeping worker means everything accepted was delivered, a sleeping caller means a full ring, and they never sleep at the same time. |
| `RequestRing.NextTurnSucceeds` | webserver/server_thread.c:331-471 | After any interleaving: with a descriptor in the ring any worker whose turn comes gets the oldest, and with room any caller whose turn comes gets its descriptor in. |
| `RequestRing.NoCapacityNoService` | webserver/server_thread.c:452-458 | With max_requests 0 no call ever returns. |
| `FileCache.IndexInTable` | webserver/server_thread.c:6-16 | With the C remainder the index is inside the table if and only if the hash is not negative or a multiple of the size; it is then the bucket of this model. |
| `FileCache.HashIsDjb2` | webserver/server_thread.c:6-16 | The hash, which wraps around at every byte, is the value in unbounded integers, 33 times what comes before plus the byte and 5381 at the start, wrapped around once. |
| `FileCache.IndexBeforeTable` | webserver/server_thread.c:217-217 | A concrete name whose index is negative. |
| `FileCache.RemoveCoherent` | webserver/server_thread.c:285-291 | Eviction keeps hash chains and list in agreement. |
| `FileCache.LookupIsSound` | webserver/server_thread.c:240-259 | A hit has the requested name; a cached name is missed if and only if another file heads its chain. |
| `FileCache.FalseMiss` | webserver/server_thread.c:249-254 | Two files in one bucket, the second cached and not found. |
| `FileCache.LookupWithoutCollisions` | webserver/server_thread.c:240-259 | Where no two elements share a bucket a hit happens if and only if the name is cached. |
| `FileCache.EvictExactly` | webserver/server_thread.c:260-301 | Eviction succeeds if and only if the first unused element of the list is at least as large as the amount asked for, and takes out that one. |
| `FileCache.AdmitExactly` | webserver/server_thread.c:139-163 | A file is admitted if and only if it fits as things are, or fits when the first unused element of the list is gone. |
| `FileCache.AdmitKeepsBudget` | webserver/server_thread.c:139-163 | After insert or evict-then-insert currentSize is the sum of the sizes and within max_cache_size. |
| `FileCache.OversizedIsNotCached` | webserver/server_thread.c:145-157 | A file larger than the cache is never stored. |
| `CacheRuns.StepKeepsInv` | webserver/server_thread.c:112-187 | Every lock-held section of every worker keeps: chains and list agree, budget, pin counts equal the number of senders, list strictly ordered by last use, contents as read. |
| `CacheRuns.Reachable` | webserver/server_thread.c:112-187 | The same after any interleaving from server_init. |
| `CacheRuns.StepKeepsPinned` | webserver/server_thread.c:112-187 | No step of another worker removes or changes an element being sent. |
| `CacheRuns.SentFileIsStable` | webserver/server_thread.c:171-187 | From pin to decrement, whatever the others do, the element stays cached with the same file, which has the requested name and was read. |
| `CacheRuns.VictimIsLeastRecentlyUsed` | webserver/server_thread.c:260-301 | The victim is the least recently used element that nobody sends. |
| `CacheLists.LruList.PushBack` | webserver/server_thread.c:504-520 | The links spell the old list followed by the node. |
| `CacheLists.LruList.DeleteSwap` | webserver/server_thread.c:530-576 | Head, tail and middle branch: the node leaves the list, or ends up last when the command says so, the tail case being a no-op. |
| `CacheLists.HashTable.Append` | webserver/server_thread.c:220-230 | The walk appends to the chain of the key; other chains are untouched. |
| `CacheLists.HashTable.Delete` | webserver/server_thread.c:578-609 | The element leaves its chain; the table stays valid. |
| `ServerCache.Server.CacheLookup` | webserver/server_thread.c:240-259 | On the links: the value-level lookup, although the loop walks the chain comparing the head. |
| `ServerCache.Server.CacheInsert` | webserver/server_thread.c:213-238 | On the links: the value-level insert; entry and node point at each other. |
| `ServerCache.Server.Acquire` | webserver/server_thread.c:171-176 | On the links: the value-level pin. |
| `ServerCache.Server.Begin` | webserver/server_thread.c:111-176 | On the links: the first critical section, a hit pinned or nothing changed. |
| `ServerCache.Server.Release` | webserver/server_thread.c:182-187 | On the links: the value-level unpin. |
| `ServerCache.Server.CacheEvict` | webserver/server_thread.c:260-301 | On the links: one element goes if and only if the first unused element of the list is at least as large as the amount, and it is that one; otherwise nothing changes. |
| `ServerCache.Server.Enter` | webserver/server_thread.c:129-177 | On the links: the second critical section. A hit is pinned. After a miss null is returned, and nothing changed, if and only if the file neither fits nor would fit without the first unused element; otherwise it is inserted and pinned. |
| `ServerRuns.Service.Request` | webserver/server_thread.c:111-177 | On the links, with any workers: the request step; a hit is pinned and will be sent, a miss changes no cache. |
| `ServerRuns.Service.Enter` | webserver/server_thread.c:129-177 | On the links, with any workers: the enter step. After a miss the worker sends its own copy if and only if the file neither fits nor would fit without the first unused element; otherwise the file is in the cache with one user, the worker. |
| `ServerRuns.Service.Finish` | webserver/server_thread.c:182-187 | On the links, with any workers: the finish step; what was pinned is unpinned, and that it is still in the table follows from the invariant. |
| `ServerRuns.Run` | webserver/server_thread.c:96-187 | Any interleaving of workers from server_init: chains and list stay linked, entries and nodes point at each other, and what the links spell out is the state the step relation reaches, with all that its invariant says. |

## Left out

- BlockLayer.FileSystem.LookupBlock: the word found past the end of a block buffer is one fixed value per file system; block numbers from the limit on, where the index into the double-indirect block is out of range too, are described only when it is zero.
- BlockLayer.FileSystem.ReadBlock: the same; a block that was never written is taken to hold zeros.
- ReadWrite.WriteData: the block number must not be negative after the conversion to int, as the source asserts, and the size must fit an int, as the result does. The lookups must not run past the indirect block unless they find a zero there; the condition is on the blocks of this write and the two pointers of this inode.
- ReadWrite.WriteChunk: the same condition on its one block; likewise ReadWrite.WriteFullBlocks and ReadWrite.WriteTail.
- Reading.ReadData: the same conditions; a start beyond i_size in the block where i_size lies is excluded, since the copy then runs over the caller's buffer.
- ReadWrite.AllocateBlock: an index past the double-indirect block does not occur, since the limit comes first.
- FileRuns.RunsAgree: what follows a write that dangled or a removal that missed blocks is not described.
- DirFile.Directory.AddDirent: a failing append leaves the directory as it was; that a two-block append can be reported as complete is stated for the write only (WritePlan.MisreportedExactly).
- DirFile.Directory.WriteDirent: what happens when the offset is negative is not followed further: an assertion fails, or, less than a block below zero, memory before a buffer is written.
- DirCommands.StepRefines: a new name is one that can be written and read back: its record begins below 2^31, its length fits an int, and it does not span blocks and end on a block boundary (DirFile.LongNameIsLost and DirFile.FullDirectory show what happens otherwise); the commands do not run out of space.
- DirTree.StepKeepsTree: the commands do not run out of space.
- SchedulerLocks.StepSafe: threads release, and wait with, only locks they hold; SchedulerLocks.UncheckedRelease says what happens otherwise.
- Scheduler.StepKeepsPartition: running out of memory in thread_create is a separate lemma, since it breaks the partition.
- ThreadLibrary.Library.Yield: the source restores interrupts and only then reads the identifier it returns (threads/thread.c lines 342 and 343); a preemption in between overwrites that value, which the result here does not show.
- ThreadLibrary.Library.Wait: the test of the source also admits identifier 1024, one past the table.
- ThreadLibrary.Library.Exit: the emptied queue of joiners is kept where the source frees it.
- FileCache.AdmitKeepsBudget: sizes are unbounded integers; overflow of currentSize plus file size is not modelled.
- Write-through of the free maps and the super block to disk (fs/super.c).
- Device input and output (fs/block.c), beyond a map read and a map write.
- Command parsing, listing and printing (fs/testfs.c, fs/file.c, fs/mktestfs.c, testfs_ls, cmd_stat).
- cmd_ls_internal, which keeps a reference on its error path.
- thread_kill, which can walk off the ready list and leaves a dead thread queued.
- thread_wait returns when thread_sleep fails, so "returns only after exit" is not claimed.
- Stacks, ucontext, signals and the reclaiming of stacks (threads/thread.c, threads/interrupt.c); two error returns of thread_create leave interrupts off, which Interrupts admits as a function that is not left.
- lock_destroy, cv_destroy and wait_queue_destroy.
- Shutdown of the server: workers look at the exiting flag only after a wait, so their termination does not follow.
- Reading and sending of files (webserver/request.c) are steps with arbitrary outcome; freed memory is not modelled beyond the reuse of addresses.
- At most one cache entry per name: a false miss leads to a second entry.
