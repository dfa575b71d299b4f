# A model of xv6 with users and groups

This project models the hard parts of the kernel's storage, process and memory code and of
three user-space algorithms, and proves what they are for. Code that updates state in place is
modelled by classes with the same fields and loops, specified over values; protocols between
processes are transition systems over any number of processes.

- Storage. `BufferCache` is the write-back cache with its circular list (`bio.c`, over `memide.c`
  as the disk), `Log` with `LogBuffers` the redo log (`log.c`), with readers at work during a
  commit. Every write of a block is a step of the disk, and `CrashRecovery` proves that a crash
  after any of them, and any number of recoveries cut short, leave all of a transaction or nothing.
  `LogReservation` proves that no interleaving of operations logs more than LOGSIZE blocks, and for
  which logs that is enough. `FileSystem`, with `BlockOwners`, `BlockCosts`, `LoggedBlocks`,
  `InodeTable`, `FileContents` and `Truncation`, models the bitmap, `bmap`, `readi`, `writei`,
  `itrunc` and `filewrite` (`fs.c`, `file.c`): blocks have one owner from the formatted disk on,
  files are byte sequences, each operation logs what it changes within its budget of the log, and
  it is exact when blocks suffice. `CrashSafety` puts these together: groups of file operations
  survive a crash as a whole or not at all.
- Processes. `SleepWakeup` proves that no wakeup is lost and that sleep locks exclude each other,
  for any number of processes; `ProcTable` and `ProcessStates` that zombies are reaped once and
  by a parent that is there; `Pipe` that bytes come out in order though the counters wrap;
  `Descriptors` that reference counts are numbers of descriptors at the end of every call.
- Memory. `Vm`, `PageTables` and `PageCosts` prove that every physical page has one use at any time,
  that the two-level tables act as a flat map, when exactly memory suffices, and that failures
  return every page (`vm.c`, `kalloc.c`). `Malloc` and `FreeList` model the heap of `umalloc.c`.
- Text. `Shell` with `ShellWords`, `ShellGrammar` and `ShellUnique` proves that the parser of `sh.c`
  accepts exactly the lines of a grammar, and terminates words in place without damage; `Passwd` and
  `Numbers` that the passwd file reads back; `Grep` that the matcher decides its pattern language.

A panic is an outcome of its own: a failed `Option`, a false result or a constructor such as
`Panic`; where it cannot happen the contract says so. Clocks, devices, user input, the grant
of `sbrk` and whether a page can be had for a pipe are parameters. Block writes are taken to be atomic.

Some promises turn out not to hold of the code, and the exact condition is proved instead, with
an input or a run that shows the failure:

- A commit panics for want of a buffer exactly if logged blocks and clean buffers in use are all
  the buffers (`EndOp`, `BufferForCommit`); one logged block is enough, with readers holding the
  other buffers (`StarvedCommit`).
- The guard of `log_write` is read without the lock. A log of LOGSIZE blocks, as mkfs makes it, has
  a slot too few: the guard stops writes within their budget (`GuardFiresIffLogTooSmall`), and two
  writes that pass it together overrun the log on disk (`OverrunIffLogTooSmall`).
- Writing a block that is already logged panics once the log is full (`LoggedBlockPanicsIff`,
  `LoggedBlockPanicsNow`).
- A killed writer on a full pipe leaves readers asleep (`StrandedReader`, `Pipe.Write`).
- A request whose rounding wraps is given a block too small for it (`LargeEnough`,
  `WrappedRequest`).
- Negative ids do not read back from the passwd file (`BodyReadBack`, `NumberReadBack`), the least
  number is not printed as itself (`Itoa`), a long user line overruns its buffer
  (`GetStringFromUser`, `LongLine`), and a line with fields missing is completed from the next one
  (`ShortLine`).

## Model

| member | source | states |
|---|---|---|
| Grep.Match | user/grep.c:72-82 | true exactly if a substring of the text, or a prefix for a pattern that begins with ^, is in the language of the pattern |
| Grep.MatchHere | user/grep.c:84-97 | true exactly if the pattern matches at the beginning of the text, under the declarative semantics; terminates together with MatchStar |
| Grep.MatchStar | user/grep.c:99-108 | true exactly if some number of copies of c, then the rest of the pattern, match at the beginning |
| Grep.HereIsSubstring | user/grep.c:72-82 | matching at one place of the text is having a substring from there in the language |
| Grep.OneHere | user/grep.c:93-96 | what a single-character item adds to a match |
| Grep.StarHere | user/grep.c:99-108 | what a starred item adds to a match |
| BufferCache.Bcache.constructor | kernel/bio.c:38-55 | the list is one doubly linked cycle through all buffers and the sentinel; no buffer holds anything |
| BufferCache.Bcache.FindCached | kernel/bio.c:67-75 | finds the buffer of a block exactly if there is one |
| BufferCache.Bcache.FindIdle | kernel/bio.c:77-90 | finds a buffer exactly if an unreferenced clean one exists, and then the one whose last release is oldest |
| BufferCache.Bcache.Bget | kernel/bio.c:60-92 | panics exactly if the block is not cached and no buffer is idle; otherwise one buffer changes, the cached one or the least recently released idle one; dirty blocks stay; the list, uniqueness of buffers per block and the readers' view of the disk are kept |
| BufferCache.Bcache.AcquireBuffer | kernel/sleeplock.c:22-32 | taking the lock of a referenced buffer changes that flag only |
| BufferCache.Bcache.Iderw | kernel/memide.c:39-60 | panics exactly in the four cases of the code; a dirty buffer goes to disk in one step and is clean, a buffer that is not valid is filled from disk |
| BufferCache.Bcache.Bread | kernel/bio.c:95-105 | a locked buffer with what readers are to see of the block; fails exactly if the device or block is none, or no buffer is to be had |
| BufferCache.Bcache.Store | kernel/log.c:75-77 | changing a locked buffer changes what readers see of that block and nothing else |
| BufferCache.Bcache.MarkDirty | kernel/log.c:231 | the block joins the dirty blocks |
| BufferCache.Bcache.Bwrite | kernel/bio.c:108-115 | panics exactly if the buffer is not locked; otherwise one write of the block, which is dirty no longer |
| BufferCache.Bcache.Brelse | kernel/bio.c:119-140 | the last release moves the buffer to the front and makes it the newest; any other leaves the list |
| BufferCache.Bcache.MoveToFront | kernel/bio.c:128-137 | four pointer writes take a buffer out of the cycle and put it in front; next and prev stay inverse |
| BufferCache.Recycled | kernel/bio.c:77-90 | recycling an idle buffer keeps the cache coherent: dirty buffers are never recycled, so nothing is lost |
| BufferCache.Retagged | kernel/bio.c:67-75 | counters, locks and dirty flags do not matter to readers |
| BufferCache.Refilled | kernel/memide.c:39-60 | a transfer keeps the cache coherent with the disk |
| CrashRecovery.CommitIsAtomic | kernel/log.c:69-122 | crash atomicity: after a crash at any block write of a commit, any number of recoveries themselves cut short, and one complete recovery, every home block is before the transaction or every one is after it, and which of them is decided by the header write |
| CrashRecovery.CrashBeforeCommit | kernel/log.c:177-202 | a crash before the header write leaves every home block as it was |
| CrashRecovery.CrashAfterCommit | kernel/log.c:69-82 | a crash from the header write on leaves every home block as the transaction has it |
| CrashRecovery.CommittedRecoversAll | kernel/log.c:115-122 | recovering a committed disk installs exactly the transaction |
| CrashRecovery.RestartsKeepHome | kernel/log.c:115-122 | recoveries cut short do not change what the next one leads to |
| CrashRecovery.InterruptedKeepsHome | kernel/log.c:69-82 | a recovery cut at any of its writes has the outcome it would have had |
| CrashRecovery.ReinstalledSame | kernel/log.c:69-82 | installing is idempotent, wherever it was cut |
| CrashRecovery.RecoveredIsStable | kernel/log.c:115-122 | after recovery the log is empty, and recovering again changes nothing at home |
| Log.Log.constructor | kernel/log.c:53-66 | a log in memory with no blocks and no operation |
| Log.Log.ReadBoth | kernel/log.c:75-76 | two breads succeed, and panic otherwise, exactly if there are buffers for both blocks: each is cached or one idle buffer is left for it; other buffers stay as they are, whoever holds them |
| Log.Log.CopyBlock | kernel/log.c:75-80 | copies what readers see of one block to another on disk in one write, exactly if there are buffers for both; whoever else holds buffers keeps them |
| Log.Log.BuildHead | kernel/log.c:101-110 | the header block with the count and the numbers of the logged blocks over the old one |
| Log.Log.WriteHead | kernel/log.c:101-113 | one write, of the header block, which then says what the header in memory says; panics exactly if no buffer is idle, with readers holding any of the others |
| Log.Log.LogSlot | kernel/log.c:181-188 | one write: the contents that readers see of a logged block go to its slot; panics exactly if no buffer is idle |
| Log.Log.WriteLog | kernel/log.c:177-190 | whatever readers do between the turns, the disks it goes through are those of filling the log slot by slot, up to the write before which it panics; with readers that stay where they are it panics exactly if no buffer is idle, before any write |
| Log.Log.Reader | kernel/bio.c:95-140 | a reader opens or closes a buffer of a block outside the log during a commit: the disk and what readers see stay, and so does all that the commit relies on |
| Log.Log.Readers | kernel/bio.c:95-140 | the same for any number of such steps, after which the block that the commit wants is unlocked |
| Log.Log.WaitFor | kernel/sleeplock.c:22-32 | waiting for a block ends the one reader of it; for a pinned block that neither takes nor gives an idle buffer |
| Log.Log.InstallSlot | kernel/log.c:74-81 | one write: a slot goes to its home block, which is pinned no longer; an idle buffer is enough for it |
| Log.Log.InstallTurn | kernel/log.c:74-81 | the same after any steps of readers |
| Log.Log.InstallTrans | kernel/log.c:69-82 | whatever readers do, the disks it goes through are those of installing slot by slot, up to the write before which it panics; with readers that stay it does not panic if a buffer is idle |
| Log.Log.LogTransaction | kernel/log.c:192-197 | write_log and write_head go through a prefix of the disks of a commit, and all of it up to the committed one exactly if they do not panic |
| Log.Log.ClearHead | kernel/log.c:199-201 | one write empties the log; then the disk is what readers see |
| Log.Log.InstallAndClear | kernel/log.c:198-201 | from a committed disk through a prefix of the disks of a recovery, to the recovered one exactly if there is no panic |
| Log.Log.Commit | kernel/log.c:192-202 | with readers holding buffers, and opening and closing them between any two block copies, the disk passes through a prefix of exactly the disks of which CommitIsAtomic speaks; without a panic it is all of them, and afterwards the log is empty, nothing is pinned, the disk is what readers see and they see what they saw; with readers that stay it panics exactly if blocks are logged and no buffer is idle, before any write |
| Log.Log.ReadHead | kernel/log.c:85-96 | the header in memory is the one on disk |
| Log.Log.RecoverFromLog | kernel/log.c:115-122 | leaves the recovered disk, through the disks of a recovery, with an empty log |
| Log.Log.ViewIsLatest | kernel/bio.c:95-105 | what readers see of a block is its contents last logged, or else the disk's |
| Log.Log.Read | kernel/bio.c:95-105 | bread returns the contents last logged for the block, or else those on disk |
| Log.Log.Modify | kernel/fs.c:43-51 | a holder changes its buffer; nothing reaches the disk |
| Log.Log.Append | kernel/log.c:222-232 | the block is logged with these contents and pinned, and counted once however often it is written; the disk does not change; wants a slot for a block that is new, which RoomToAppend provides |
| Log.Log.LogWrite | kernel/log.c:213-233 | guard and append with nothing in between: panics exactly if the guard does, and then changes nothing; steps of others in between are those of LogReservation |
| Log.Log.Absorb | kernel/log.c:222-230 | the logged blocks stay distinct, and the block is one of them |
| Log.Log.Release | kernel/bio.c:119-140 | releasing a logged or unchanged buffer keeps all agreements |
| Log.Log.BeginOp | kernel/log.c:125-141 | starts exactly if the reservations of all operations fit |
| Log.Log.EndOp | kernel/log.c:145-174 | the last operation commits, and only it: otherwise the disk does not change; whatever readers do during the commit the disk goes through a prefix of its disks, all of them without a panic; with readers that stay it panics exactly if blocks are logged and pinned buffers together with clean buffers in use are all the buffers there are |
| Log.Log.BufferForCommit | kernel/bio.c:77-92 | a commit finds a buffer exactly if logged blocks and clean buffers in use are fewer than the buffers |
| Log.InitLog | kernel/log.c:53-66 | from any disk with a well-formed log, however a crash has left it, the log is ready: every agreement of it holds, nothing is logged, and the disk is the recovered one |
| Log.StarvedCommit | kernel/file.c:96-113 | a run, for any disk, log and number of buffers, in which a commit of a single block panics, because readers outside of operations hold all other buffers |
| LogBuffers.SecondServed | kernel/bio.c:60-92 | whichever buffer the first of two breads has taken, the second is served exactly if there were buffers for two |
| LogBuffers.IdleIsEnough | kernel/log.c:74-81 | for a copy between a log slot and a pinned block there are buffers exactly if one is idle |
| LogBuffers.IdleByCount | kernel/bio.c:77-92 | a buffer is idle exactly if pinned blocks and clean buffers in use are fewer than the buffers |
| LogBuffers.BootIsEnough | kernel/log.c:115-122 | recovery at boot never runs out of two buffers |
| LogBuffers.StillRead | kernel/log.c:69-82 | a write of the commit to a block that nobody holds leaves every reader with what is on the disk |
| LogReservation.StepKeepsInv | kernel/log.c:125-233 | each step of any operation, the guard and the append of log_write being two, keeps: logged blocks plus unused reservations are at most LOGSIZE, and a commit runs only with no operation outstanding |
| LogReservation.RunKeepsInv | kernel/log.c:125-233 | the same, and at most LOGSIZE logged blocks, in every state of every interleaving of any number of operations, between guard and append too |
| LogReservation.RoomToAppend | kernel/log.c:222-230 | in every run, an append of a block that is new to the log finds a slot of its array, though the guard was read before |
| LogReservation.NoPanic | kernel/log.c:213-233 | within its budget no operation runs into a guard with a block that is new to the log, if the log has room for LOGSIZE blocks |
| LogReservation.GuardFiresIffLogTooSmall | kernel/log.c:217-218 | a run in which such a write runs into the guard exists exactly if the log has at most LOGSIZE blocks with its header, as mkfs makes it |
| LogReservation.OverrunIffLogTooSmall | kernel/log.c:217-230 | a run in which more blocks are logged than the log has slots on disk, because two writes pass the guard for the last one, exists exactly if the log has from two to LOGSIZE blocks with its header |
| LogReservation.LoggedBlockPanicsIff | kernel/log.c:213-233 | a run in which writing a block that is already logged panics, since the guard is read before the search, exists exactly for the logs into which anything can be written |
| LogReservation.LoggedBlockPanicsNow | kernel/log.c:213-233 | in every state of every run such a write panics exactly if LOGSIZE blocks or all slots of the log are taken |
| BlockOwners.SetInUseFrame | kernel/fs.c:56-95 | changing one bit of the bitmap changes the state of one block |
| BlockOwners.OwnedAdd | kernel/fs.c:376-404 | giving a free block to an empty slot keeps: a data block is in use exactly if one slot refers to it |
| BlockOwners.OwnedRemove | kernel/fs.c:411-439 | freeing the block of a slot keeps it too |
| BlockOwners.FreeingIsSafe | kernel/fs.c:411-439 | freeing a row of references one by one never meets a block that is free |
| BlockOwners.FreedExactly | kernel/fs.c:411-439 | what is freed is the row and no more |
| InodeTable.DecodeEncode | kernel/fs.c:219-238 | an inode read from its sixteen words is the inode written |
| InodeTable.FreeIsUnowned | kernel/fs.c:56-78 | a block that balloc takes is a data block that nobody refers to |
| InodeTable.RefsDistinct | kernel/fs.c:376-404 | no block is referred to twice |
| InodeTable.FillDirect | kernel/fs.c:382-386 | filling a direct slot keeps the file system consistent and changes no other reference |
| InodeTable.FillIndirect | kernel/fs.c:389-392 | the same for the indirect block |
| InodeTable.FillEntry | kernel/fs.c:393-400 | the same for an entry of the indirect block |
| InodeTable.InodeStored | kernel/fs.c:219-238 | writing an inode to its block changes no other inode |
| InodeTable.ResizeKeeps | kernel/fs.c:511-514 | a new size changes no reference |
| FileContents.OthersReadSame | kernel/fs.c:486-516 | growth and writes of one file leave the bytes of all other files |
| FileContents.BlockRewritten | kernel/fs.c:502-508 | changing a file block changes the bytes of that block of that file only |
| FileContents.WriteTurn | kernel/fs.c:502-508 | after each turn of writei exactly the first bytes of the range are replaced |
| FileContents.WrittenIsOverwrite | kernel/fs.c:486-516 | at the end the file is the old one overwritten, and extended if it was shorter |
| FileContents.InodeWriteKeepsBytes | kernel/fs.c:219-238 | writing the inode through keeps the bytes of every file |
| Truncation.FreeNext | kernel/fs.c:418-432 | the next reference is empty, or its block is in use: "freeing free block" cannot be |
| Truncation.FreedConsistent | kernel/fs.c:411-439 | the truncated file system is consistent |
| Truncation.FreedOnly | kernel/fs.c:411-439 | exactly the blocks of the inode have become free |
| FileSystem.Fs.Format | tools/mkfs.c:319-320 | a new file system is sound, for every layout: exactly the metadata is in use, every inode is empty and stored, nothing is logged |
| FileSystem.Fs.Balloc | kernel/fs.c:56-78 | the first free block, in use and zero, with two blocks logged; panics exactly if all blocks are in use |
| FileSystem.Fs.Bfree | kernel/fs.c:81-95 | panics exactly if the block is free; otherwise clears its bit and nothing else |
| FileSystem.Fs.Bmap | kernel/fs.c:376-404 | the block of a file block, the one there was if there was one; keeps ownership consistent, changes no byte of any file, logs whatever block it changes and at most four; fails exactly if out of range or the free blocks are fewer than the data block and the indirect block that are missing |
| FileSystem.Fs.BmapDirect | kernel/fs.c:382-386 | the same for direct blocks |
| FileSystem.Fs.BmapIndirect | kernel/fs.c:387-403 | the same with the indirect block made if need be |
| FileSystem.Fs.BmapEntry | kernel/fs.c:393-400 | the same for an entry of the indirect block |
| FileSystem.Fs.Iupdate | kernel/fs.c:219-238 | the inode is on disk, and the other inodes on disk stay |
| FileSystem.Fs.ReadInode | kernel/fs.c:289-317 | the inode last written through |
| FileSystem.Fs.Readi | kernel/fs.c:458-482 | the bytes of the range clipped to the size; an error exactly for offsets past the end and ranges that wrap at 2^32; nothing is allocated |
| FileSystem.Fs.ReadRange | kernel/fs.c:475-480 | the loop delivers exactly the range |
| FileSystem.Fs.ReadPiece | kernel/fs.c:475-480 | one turn delivers a piece of one block |
| FileSystem.Fs.Writei | kernel/fs.c:486-516 | exactly [off, off+n) of this file is replaced, and the size grows if need be; every other file is the same; every block changed is logged; an error exactly for offsets past the end, ranges that wrap and ranges beyond MAXFILE; panics exactly if the free blocks are fewer than the data blocks and the indirect block that the range lacks |
| FileSystem.Fs.WriteRange | kernel/fs.c:502-509 | the loop writes all bytes, logging at most four blocks for each block of the range, or panics exactly if blocks are lacking |
| FileSystem.Fs.WriteNext | kernel/fs.c:502-508 | one turn goes on, or blocks are lacking for the whole range |
| FileSystem.Fs.WritePiece | kernel/fs.c:502-508 | one turn writes a piece into one block |
| FileSystem.Fs.Conclude | kernel/fs.c:511-515 | the larger size is written through |
| FileSystem.Fs.Resize | kernel/fs.c:511-514 | a new size, and no byte changes |
| FileSystem.Fs.FreeSlot | kernel/fs.c:418-432 | one reference is freed, without the panic |
| FileSystem.Fs.FreeDirect | kernel/fs.c:418-423 | the direct blocks are freed |
| FileSystem.Fs.FreeIndirect | kernel/fs.c:425-434 | the indirect block and its entries are freed |
| FileSystem.Fs.Itrunc | kernel/fs.c:411-439 | the inode is empty, exactly its blocks become free, every other file is the same, every block changed is logged, only bitmap blocks and the inode's own block are, and "freeing free block" cannot be |
| FileSystem.Fs.TruncateOp | kernel/fs.c:345-348 | truncation is an operation within its budget of the log if the bitmap has so few blocks that they fit it |
| FileSystem.Fs.FinishTruncation | kernel/fs.c:436-438 | size zero, written through |
| FileSystem.Fs.WriteChunk | kernel/file.c:132-152 | one operation of filewrite logs every block it changes, and fewer than MAXOPBLOCKS, whatever the offset and the file |
| FileSystem.Fs.Filewrite | kernel/file.c:116-155 | writes exactly the bytes asked for, in operations that lead from one sound file system to the next, log every block they change and stay within their budget; fails exactly if the range is not writable or n is negative, having written whole chunks up to the failing one; panics exactly if the free blocks are fewer than those that these chunks lack; "short filewrite" cannot be |
| FileSystem.AllocLogged | kernel/fs.c:42-78 | what balloc changes, the zeroed block and the bitmap block, it logs, and no more |
| FileSystem.Formatted | tools/mkfs.c:447-460 | a disk of zeroes with the metadata marked in use is a sound file system |
| FileSystem.WantedMore | kernel/fs.c:502-508 | which references the next piece of a write wants |
| FileSystem.WantedJoin | kernel/file.c:132-152 | two adjacent writes want the references of both |
| BlockCosts.TookBoth | kernel/fs.c:376-404 | the blocks that two parts of a write take are those that the whole lacks, each counted once |
| BlockCosts.ShortAfter | kernel/fs.c:376-404 | what is too much for the second part is too much for the whole |
| FileSystem.EntryLogged | kernel/fs.c:393-400 | what bmap changes on the way to an entry it logs |
| FileSystem.FreeLogged | kernel/fs.c:81-95 | what bfree changes it logs |
| CrashSafety.GroupIsAtomic | kernel/log.c:192-202 | file operations are atomic: after a crash at any block write of the commit of a group of them, any number of recoveries cut short, and a complete one, the disk holds a sound file system with every file as before the group, or with every file as after it; the operations of the group follow one another |
| CrashSafety.CommitGroup | kernel/log.c:145-174 | the last end_op of a group, with readers at work: every disk it leaves behind, also one on which it panics, survives a crash and any recoveries with the files before or after the group; without a panic the disk has the files after it, and the log is ready for the next group |
| CrashSafety.LogHasGroup | kernel/log.c:177-202 | what the log commits is the blocks of the operations with the contents they have now |
| CrashSafety.GroupSurvives | kernel/log.c:115-122 | each disk of the commit leads, through any recoveries, to the files before or after |
| CrashSafety.GroupLogged | kernel/log.c:145-174 | a group of operations that follow each other has logged all that has changed |
| CrashSafety.HomeIsAll | kernel/fs.h:6-21 | a disk with the same home blocks has the same inodes and the same files |
| FileSystem.PiecesOfChunk | kernel/file.c:125-132 | the arithmetic of the chunk bound with BSIZE 2048 |
| FileSystem.OverwriteAt | kernel/fs.c:486-516 | what an overwritten file is, byte by byte |
| FileSystem.OverwriteTwice | kernel/file.c:132-152 | writing two adjacent pieces is writing both at once |
| FreeList.InsertedIs | user/umalloc.c:24-44 | freeing keeps the list address-ordered, disjoint and fully coalesced, and adds exactly the block's units |
| FreeList.TakenOrdered | user/umalloc.c:70-80 | cutting off the tail of a block, or taking all of it, keeps the list so |
| FreeList.TakenUnits | user/umalloc.c:70-80 | and removes exactly the units given out |
| FreeList.Canonical | user/umalloc.c:24-44 | an ordered, coalesced list is determined by the units it covers |
| FreeList.TakeThenInsert | user/umalloc.c:24-90 | freeing what was just allocated restores the list |
| FreeList.GapAfter | user/umalloc.c:33-42 | the unit after a listed block is never free |
| Malloc.LargeEnough | user/umalloc.c:69 | a block is large enough for the request exactly if the rounding does not wrap at 2^32 |
| Malloc.WrappedRequest | user/umalloc.c:69 | every request whose rounding wraps is given, if anything, a block of a header and no byte |
| Malloc.StopsThere | user/umalloc.c:30-32 | the condition of the search loop of free holds exactly at the block's place, the wrap point included |
| Malloc.PlaceBelow | user/umalloc.c:30-32 | there is such a place |
| Malloc.LinkNext | user/umalloc.c:33-37 | pointers after merging with the next block |
| Malloc.LinkJoined | user/umalloc.c:38-42 | pointers after merging with the previous block |
| Malloc.Heap.constructor | user/umalloc.c:21-22 | no list yet |
| Malloc.Heap.FindPlace | user/umalloc.c:30-32 | the search of free ends, from wherever freep is, at the block's place |
| Malloc.Heap.Release | user/umalloc.c:24-44 | the list is the old one with the block inserted, whatever merging that takes |
| Malloc.Heap.MergeNext | user/umalloc.c:33-37 | the block takes over the next one exactly if they touch |
| Malloc.Heap.MergePrevious | user/umalloc.c:38-42 | the previous one takes over the block exactly if they touch |
| Malloc.Heap.Free | user/umalloc.c:24-44 | one live block is no longer live and its units are free; the list stays one address-ordered cycle of disjoint, coalesced blocks, and free plus live units stay those obtained from sbrk |
| Malloc.Heap.Morecore | user/umalloc.c:46-61 | at least 4096 units are obtained and join the list, or nothing changes |
| Malloc.Heap.Take | user/umalloc.c:70-80 | n units leave the list and become a live block |
| Malloc.Heap.Begin | user/umalloc.c:70-73 | the first call makes the list of the empty block |
| Malloc.Heap.Extend | user/umalloc.c:86-88 | at freep nothing is large enough: sbrk is asked once; after an oversize request nothing is promised |
| Malloc.Heap.Turn | user/umalloc.c:74-89 | each turn ends the search or comes nearer to the end, also across the wrap point and morecore |
| Malloc.Heap.Malloc | user/umalloc.c:63-90 | fails exactly if no listed block is large enough and sbrk gives nothing; otherwise a block of exactly the units needed, disjoint from all live ones, with all units accounted for; terminates; a request for more memory than a signed word can say is the outcome Oversize, after which nothing is promised |
| Malloc.Heap.Search | user/umalloc.c:74-89 | the walk round the list ends, with a block if there is one or sbrk gives one |
| SleepWakeup.StepKeepsInv | kernel/proc.c:431-487 | each step of sleep, wakeup and their callers, by any process, keeps the invariant |
| SleepWakeup.NextKeepsInv | kernel/proc.c:492-510 | being killed keeps it too |
| SleepWakeup.RunKeepsInv | tools/sleep1.p:54-133 | so does every run, for any number of processes |
| SleepWakeup.NoLostWakeup | kernel/proc.c:431-487 | in every reachable state whoever sleeps although something is there is about to be woken by a waker that has not finished |
| SleepWakeup.NoDeadlock | tools/sleep1.p:54-133 | in every reachable state some process can go on, or all wait with nothing to wait for |
| SleepWakeup.LockRunKeepsInv | kernel/sleeplock.c:22-42 | the same for runs of acquiresleep and releasesleep |
| SleepWakeup.MutualExclusion | kernel/sleeplock.c:22-42 | two processes never hold the same sleep lock |
| SleepWakeup.AsleepImpliesHeld | kernel/sleeplock.c:22-42 | a process asleep for a sleep lock while its spin lock is free implies that the lock is held |
| ProcessStates.ExitFamily | kernel/proc.c:233-274 | exit keeps: every started process but init has a parent that is neither unused nor a zombie |
| ProcessStates.ExitReaper | kernel/proc.c:233-274 | exit keeps: nobody sleeps in wait with a zombie child |
| ProcessStates.ExitAccounts | kernel/proc.c:233-274 | exit keeps: zombies are those that have exited and not been reaped |
| ProcessStates.ExitCpu | kernel/proc.c:233-274 | exit keeps: each running process is on one CPU |
| ProcessStates.ExitKeeps | kernel/proc.c:233-274 | all of these together |
| ProcessStates.ReapKeeps | kernel/proc.c:287-304 | reaping keeps them |
| ProcessStates.BeginKeeps | kernel/proc.c:74-93 | allocproc keeps them |
| ProcessStates.EmbryoKeeps | kernel/proc.c:195-227 | each way on for a forked embryo keeps them |
| ProcessStates.LeaveKeeps | kernel/proc.c:379-406 | leaving the CPU, to run again or to sleep, keeps them, except to sleep in wait with a zombie child |
| ProcessStates.DispatchKeeps | kernel/proc.c:327-370 | the scheduler keeps them |
| ProcessStates.WakeKeeps | kernel/proc.c:470-510 | wakeups and kills keep them |
| ProcessStates.ZombieHasReaper | kernel/proc.c:233-318 | every zombie has a live parent, which is not asleep in wait |
| ProcTable.ProcTable.constructor | kernel/proc.c:119-156 | init alone is runnable |
| ProcTable.ProcTable.AllocProc | kernel/proc.c:74-93 | the first unused slot, if any, becomes an embryo with the next pid |
| ProcTable.ProcTable.AbandonFork | kernel/proc.c:195-200 | the slot is unused again |
| ProcTable.ProcTable.SetParent | kernel/proc.c:206 | the embryo has its parent |
| ProcTable.ProcTable.FinishFork | kernel/proc.c:219-227 | the embryo is runnable, and its pid is returned |
| ProcTable.ProcTable.Wakeup1 | kernel/proc.c:470-478 | exactly the sleepers on the channel become runnable |
| ProcTable.ProcTable.Wakeup | kernel/proc.c:481-487 | the same under the lock |
| ProcTable.ProcTable.Kill | kernel/proc.c:492-510 | finds a slot exactly if one has the pid; it is marked, and made runnable if asleep |
| ProcTable.ProcTable.Exit | kernel/proc.c:233-274 | panics exactly for init; otherwise the caller is a zombie, its children are init's, its parent is woken, and init if a zombie is among the children |
| ProcTable.ProcTable.Abandon | kernel/proc.c:258-268 | the children pass to init |
| ProcTable.ProcTable.WaitTurn | kernel/proc.c:278-318 | reaps the first zombie child, which had exited and is reaped this once; gives up exactly if there is none and the caller is killed or has no child; otherwise sleeps |
| ProcTable.ProcTable.Yield | kernel/proc.c:399-406 | the caller is runnable and its CPU free |
| ProcTable.ProcTable.Sleep | kernel/proc.c:431-455 | the caller sleeps on the channel and its CPU is free |
| ProcTable.ProcTable.Tidy | kernel/proc.c:457-459 | the channel is cleared |
| ProcTable.ProcTable.Dispatch | kernel/proc.c:338-365 | the next runnable process, if any, gets the CPU |
| Pipe.RingPlace | kernel/pipe.c:91 | the counters wrap at 2^32 without moving in the ring |
| Pipe.Counters | kernel/pipe.c:82-104 | comparisons of wrapped counters are comparisons of the counts |
| Pipe.Pipe.constructor | kernel/pipe.c:33-36 | an empty pipe with both ends open |
| Pipe.Pipe.Push | kernel/pipe.c:91 | one byte joins the ring |
| Pipe.Pipe.Write | kernel/pipe.c:76-96 | accepts a piece of the bytes in order, all of them unless the ring is full; fails exactly if bytes are left and the reader is gone or the writer killed; keeps "a reader asleep means an empty ring with an open write end" exactly unless it fails so with a reader asleep after filling a ring that the rest does not fit |
| Pipe.Pipe.Pop | kernel/pipe.c:112-114 | the next byte in order |
| Pipe.Pipe.Read | kernel/pipe.c:98-119 | delivers the next bytes in order, as many as asked for and there are; sleeps or fails exactly on an empty ring with an open write end |
| Pipe.Pipe.Close | kernel/pipe.c:58-74 | wakes whoever waits for the end closed; frees the page exactly if both ends are closed |
| Pipe.Pipe.Wake | kernel/proc.c:500-504 | a killed process sleeps no longer |
| Pipe.Pipe.NotBothAsleep | kernel/pipe.c:76-119 | readers and writers never wait for each other |
| Pipe.StrandedReader | kernel/pipe.c:82-86 | a run in which a killed writer leaves a reader asleep with a full ring |
| Descriptors.Files.constructor | kernel/file.c:13-23 | no file is in use |
| Descriptors.Files.FileAlloc | kernel/file.c:26-41 | a file exactly if one is not in use |
| Descriptors.Files.FileDup | kernel/file.c:44-53 | panics exactly if the count is zero |
| Descriptors.Files.FileClose | kernel/file.c:56-80 | panics exactly if the count is zero; the last reference closes the end of a pipe |
| Descriptors.Files.FdAlloc | kernel/sysfile.c:42-55 | the lowest free descriptor, exactly if there is one |
| Descriptors.Files.DropSlot | kernel/sysfile.c:103 | a descriptor is free and its reference the caller's |
| Descriptors.Files.SysDup | kernel/sysfile.c:57-69 | at its end each count is the number of slots; fails exactly for no open descriptor or no free one, changing nothing |
| Descriptors.Files.SysClose | kernel/sysfile.c:95-106 | at its end each count is the number of slots; fails exactly for no open descriptor |
| Descriptors.Files.SysOpen | kernel/sysfile.c:469-484 | the same for the end of open; fails exactly without a file or a descriptor, changing nothing |
| Descriptors.Files.PipeAlloc | kernel/pipe.c:22-56 | succeeds exactly with a page and two files; otherwise changes nothing |
| Descriptors.Files.SysPipe | kernel/sysfile.c:603-625 | succeeds exactly with a page, two files and two descriptors, the two lowest; otherwise files and descriptors are unchanged |
| Descriptors.Files.ClosePipe | kernel/sysfile.c:613-619 | the error path puts all files back |
| Descriptors.Files.ForkFiles | kernel/proc.c:212-214 | the child has the parent's descriptors, and the counts are right |
| Descriptors.Files.ExitFiles | kernel/proc.c:244-249 | no descriptor is left, the other processes keep theirs, and the counts are right |
| Descriptors.PutCount | kernel/file.c:44-80 | what one slot adds to the number of slots of a file |
| Descriptors.CountedSlot | kernel/sysfile.c:42-106 | moving a reference into a slot or out of it keeps the accounts |
| Descriptors.PipedClose | kernel/pipe.c:58-74 | closing an end keeps the accounts of pipes |
| Descriptors.PageFreedOnce | kernel/pipe.c:58-74 | a pipe's page is freed at most once, and exactly if no descriptor of any process leads to either end |
| PageTables.TakeFree | kernel/kalloc.c:82-95 | kalloc keeps the partition of pages by use |
| PageTables.GiveBack | kernel/kalloc.c:59-77 | kfree keeps it |
| PageTables.Repaint | kernel/vm.c:236 | what pages outside paging hold does not matter to it |
| PageTables.RemapKeeps | kernel/vm.c:60-80 | mapping a page that is nobody's, and unmapping, keep it |
| PageTables.WriteWalk | kernel/vm.c:60-80 | writing one entry of a table changes one translation: the two levels act as a flat map |
| PageTables.TableKeeps | kernel/vm.c:44-53 | a new table changes no translation and keeps the partition |
| PageTables.DirKeeps | kernel/vm.c:124-126 | a new directory keeps it |
| PageTables.DismissKeeps | kernel/vm.c:283-298 | an address space without user memory can be taken apart |
| PageCosts.PaidStep | kernel/vm.c:221-249 | how many pages each step of growing takes |
| PageCosts.PaidShort | kernel/vm.c:221-249 | a step for which pages are lacking means that the whole lacks them |
| Vm.Kernel.constructor | kernel/kalloc.c:46-53 | every page of the range is free, once |
| Vm.Kernel.Kalloc | kernel/kalloc.c:82-95 | a free page exactly if there is one |
| Vm.Kernel.Kfree | kernel/kalloc.c:59-77 | a page in use by nobody else is free again; the panic cannot be |
| Vm.Kernel.Walk | kernel/vm.c:32-55 | the table of a page; none exactly if it is missing and not to be made or no page is free; no translation changes |
| Vm.Kernel.AddTable | kernel/vm.c:44-53 | a blank table exactly if a page is free |
| Vm.Kernel.MapUser | kernel/vm.c:57-80 | panics exactly on a page mapped already; otherwise one translation changes, or a table is lacking and nothing does |
| Vm.Kernel.WriteUser | kernel/vm.c:71-73 | the write to the table |
| Vm.Kernel.Unmap | kernel/vm.c:268-275 | one translation is gone and its page free |
| Vm.Kernel.DeallocUvm | kernel/vm.c:251-279 | exactly the user pages of the range become free and unmapped; the skip over missing tables has the effect of the page-by-page walk; all else is the same |
| Vm.Kernel.FreePage | kernel/vm.c:264-277 | one turn of it, with the skip |
| Vm.Kernel.AllocUvm | kernel/vm.c:219-249 | fails exactly if the free pages do not suffice for the new pages, up to the first that is mapped already, and the tables they lack; panics exactly if they do and a page is mapped already; otherwise every new page is zero, fresh and mapped, and nothing else changes; a failure leaves no page of the range mapped, and if none was before, every mapping and every page in use as it was, with at most more tables |
| Vm.Kernel.GrowTo | kernel/vm.c:231-248 | the same for its loop |
| Vm.Kernel.GrowPage | kernel/vm.c:232-247 | one turn: a fresh page mapped, or memory has run out, or the page was mapped already |
| Vm.Kernel.GiveUp | kernel/vm.c:233-246 | the failure: the pages of the range are free, those mapped before among them |
| Vm.Kernel.FreeVm | kernel/vm.c:281-298 | every page of the address space is free: user pages, tables and directory; all others stay |
| Vm.Kernel.MapKernel | kernel/vm.c:57-80 | one translation of the kernel's half |
| Vm.Kernel.MapRange | kernel/vm.c:127-134 | a range of the kernel's half is mapped, or pages are lacking |
| Vm.Kernel.SetupKvm | kernel/vm.c:117-136 | succeeds exactly if the free pages suffice for a directory and the tables of the ranges; then the space maps exactly the ranges; a failure returns every page |
| Vm.Kernel.NewDir | kernel/vm.c:124-126 | a directory that maps nothing |
| Vm.Kernel.CopyUvm | kernel/vm.c:313-345 | fails exactly if the free pages do not suffice for a directory, its kernel half and the pages up to the first that is missing; panics exactly if they do and a page is missing; otherwise every page has equal contents and flags on a fresh page of its own, and the kernel's half is mapped; a failure leaks nothing |
| Vm.Kernel.CopyPage | kernel/vm.c:325-339 | one turn; a panic exactly if the page is not there |
| Vm.FailedView | kernel/vm.c:233-246 | growing and then freeing the range leaves every mapping and page as it was |
| Vm.GrowthUndone | kernel/vm.c:233-246 | what it frees if pages of the range were mapped before |
| Vm.SpaceUndone | kernel/vm.c:128-134 | building an address space and freeing it returns every page |
| Vm.CopyUndone | kernel/vm.c:341-344 | so does copying one |
| Vm.CopyStep | kernel/vm.c:325-339 | one page more is copied |
| Vm.SkipTable | kernel/vm.c:266-267 | where there is no table nothing is mapped up to the next |
| Vm.VacatedStep | kernel/vm.c:268-275 | freeing one page, as far as uses go |
| Shell.GetToken | user/sh.c:268-311 | the next token, whole, with no word before or after it passed over |
| Shell.Peek | user/sh.c:313-323 | whether the next character that is not white space is one of these |
| Shell.ParseRedirs | user/sh.c:377-400 | the longest sequence of redirections, or failure exactly if there is none |
| Shell.ParseRedir | user/sh.c:383-397 | one redirection, or failure exactly if there is no file |
| Shell.ParseLine | user/sh.c:347-362 | the command that the line stands for in the grammar, or failure exactly if it stands for none; every word of it occurs once |
| Shell.ParsePipe | user/sh.c:364-375 | the same for a pipeline |
| Shell.ParseBlock | user/sh.c:402-416 | the same for a line in parentheses |
| Shell.ParseExec | user/sh.c:418-449 | the same for a simple command or a block |
| Shell.Nulterminate | user/sh.c:451-496 | a NUL at the end of every word of the command, and no other character changes |
| Shell.ParseCmd | user/sh.c:330-345 | terminates on every line; yields a command exactly if the grammar derives it from the whole line; then every word of the line occurs exactly once, as argument or file, and reads as itself from its pointer as a C string; otherwise the line is unchanged |
| ShellWords.WordsSplit | user/sh.c:268-311 | the words of two adjacent parts are those of the whole |
| ShellWords.WordsApart | user/sh.c:268-311 | there is something between two words |
| ShellWords.OneToken | user/sh.c:268-311 | between white space and symbols there is one word or none |
| ShellWords.EndNotWord | user/sh.c:451-496 | no terminator is put on a word character |
| ShellWords.WordsReadBack | user/sh.c:451-496 | after termination each word reads as itself |
| ShellUnique.RedirsUnique | user/sh.c:377-400 | redirections have one reading |
| ShellUnique.PartsFixed | user/sh.c:418-449 | of two readings of a simple command one begins with the other |
| ShellUnique.OneReading | user/sh.c:418-449 | a simple command before a follower has one reading |
| ShellUnique.PipeSingle | user/sh.c:364-375 | without a bar the command is the pipeline |
| ShellUnique.PipeMore | user/sh.c:364-375 | with a bar it goes on, whatever the derivation |
| ShellUnique.LineSingle | user/sh.c:347-362 | without a semicolon the line is over |
| ShellUnique.LineMore | user/sh.c:347-362 | with one it goes on, whatever the derivation |
| Numbers.Atoi | user/ulib.c:112-121 | the value of the digits at the front, wrapped to 32 bits, which is the value exactly if it fits |
| Numbers.Itoa | user/ulib.c:275-311 | the decimal digits, with a sign if negative, for every 32-bit number but the least, and for that one something else |
| Numbers.Garbled | user/ulib.c:294-305 | what the loop makes of the least number: no digit comes first |
| Numbers.WrapStep | user/ulib.c:118-119 | wrapping at every step is wrapping at the end |
| Numbers.Backwards | user/ulib.c:294-305 | the digits, last first |
| Numbers.Reverse | user/ulib.c:266-272 | the buffer reversed in place |
| Numbers.ValueOfDecimal | user/ulib.c:112-121 | the value of a number in decimal is the number |
| Numbers.NumberReadBack | user/ulib.c:112-121 | atoi reads back what itoa prints exactly if the number is not negative |
| Numbers.DecimalLength | user/ulib.c:275-311 | how many digits a 32-bit number has |
| Passwd.GetStringFromUser | user/userhandler.c:36-60 | the six fields with colons and a newline; overruns the line buffer exactly if they are 127 characters or more |
| Passwd.LongLine | user/userhandler.c:36-60 | a user whose fields all fit their buffers, and whose line overruns its own |
| Passwd.GetUserFromString | user/userhandler.c:7-34 | the user of the six fields from a place of the text on, read across NULs as the code does; fails exactly if a field is too long for its buffer or the text ends before the six are read |
| Passwd.SplitLine | user/userhandler.c:7-34 | the fields from a place on, up to a colon or a NUL each |
| Passwd.SplitAcross | user/userhandler.c:13-23 | past the NUL at the end of a line it reads the fields of the next |
| Passwd.ShortLine | user/userhandler.c:13-23 | a line of one to five fields is completed from the next line: the user read is made of both |
| Passwd.FindColon | user/userhandler.c:16-26 | the end of a field |
| Passwd.Strtok.constructor | user/ulib.c:136-139 | no text yet |
| Passwd.Strtok.Next | user/ulib.c:136-188 | the next non-empty line, which is cut off in the buffer with a NUL, until there is none |
| Passwd.AddUserToListSorted | user/userhandler.c:101-121 | insertion behind all users with no larger uid |
| Passwd.InsertAt | user/userhandler.c:101-121 | where that is |
| Passwd.InsertSorted | user/userhandler.c:101-121 | a sorted list stays sorted, with this user and no other more |
| Passwd.SelectAllUsers | user/userhandler.c:123-143 | tokenises, parses and inserts line by line, over the text as strtok has cut it so far |
| Passwd.LoadOfLines | user/userhandler.c:123-143 | where every line has its six fields that loads exactly the users of the lines, for all texts |
| Passwd.LoadFromSorted | user/userhandler.c:101-143 | whatever the text, the users loaded are in the order of their uids |
| Passwd.LoadIsSorted | user/userhandler.c:123-143 | loading lines of six fields yields their users, each as often as there are lines, by uid |
| Passwd.UpdatePasswdFile | user/userhandler.c:249-265 | all lines in order, or a line overruns its buffer |
| Passwd.SplitJoined | user/userhandler.c:7-60 | fields without colons that fit their buffers are read back |
| Passwd.BodyReadBack | user/userhandler.c:7-60 | a line reads back as the user written exactly if uid and gid are not negative |
| Passwd.LinesOfFile | user/ulib.c:136-188 | the lines of the file are the lines written |
| Passwd.LoadSorted | user/userhandler.c:123-143 | inserting the users of a sorted list one after the other rebuilds it in order |
| Passwd.FileReadBack | user/userhandler.c:249-265 | writing a sorted list and loading the file gives the same list in the same order |
| Passwd.GetNextAvailableUid | user/userhandler.c:188-203 | on a sorted list, the least uid from 1000 on that is not taken |

## Left out

- Boot, interrupts, devices, the console and the hardware side of locks and address translation.
- Tearing of a block write: a crash falls between two writes of whole blocks.
- Log.Log.Commit: readers take their steps between the block copies of a commit, not within one; processes that wait in begin_op take none.
- Log.Log.LogWrite: joins the guard to the append; interleavings between the two are in LogReservation, over sets of block numbers and not over buffers.
- CrashSafety.GroupIsAtomic: the operations of a group follow one another; a group in which outstanding operations mix their writes is not modelled.
- CrashSafety.CommitGroup: begins when the operations are over; that the blocks of `FileSystem` are those that readers of `Log` see, and its logged blocks those of the log, is required, as the two classes are not one program.
- The inode cache with its reference counts, directories, path names, link counts, and the permission code with the references it keeps.
- FileSystem.Fs.Readi: for devices it says only that the device is called; so does Writei.
- FileSystem.Fs.Writei: the state after the panic "out of blocks" is not described, since the kernel stops.
- FileSystem.Fs.TruncateOp: only where the bitmap blocks fit the budget of an operation; the code does not check that.
- FileSystem.Fs.Format: the disk before any directory or file is put on it; those of mkfs are not modelled.
- FileSystem.Fs.Filewrite: is called with the offset of the file; pipes and files not open for writing are not modelled.
- Log.Log.RecoverFromLog: starts from an empty cache of at least two buffers and a header as write_head leaves it.
- SleepWakeup.NoDeadlock: says that some process can go on, not that each does in the end; fairness is not modelled.
- ProcTable.ProcTable.Kill: a pid left in an unused slot can be found, as in the code; kill(0) and the flag an embryo inherits are not singled out.
- ProcTable.ProcTable.AllocProc: pids are unbounded; the wrap of nextpid is not modelled.
- growproc, exec and the contents of trap frames.
- Descriptors.Files.SysOpen: begins when the inode is there; path lookup and permissions are not modelled. System calls on descriptors run one at a time.
- Descriptors.Files.SysPipe: validating the user's pointer is not modelled.
- Vm.Kernel.AllocUvm: the state after the panic on a page mapped already is not described.
- Vm.Kernel.CopyUvm: the state after its two panics is not described.
- Vm.Kernel.Unmap: the entry is cleared before the page is freed, and in the failures of AllocUvm and CopyUvm the page not mapped is freed first; the code does these in the other order, with the same outcome.
- Vm.Kernel.SetupKvm: the kernel's ranges are a parameter, given in pages and not overlapping; the limit PHYSTOP is not modelled.
- Malloc.Heap.Malloc: nothing is promised after a request for 2^31 bytes or more of new memory, because sbrk takes its argument as negative and shrinks the process; addresses are counted in headers of 8 bytes.
- Malloc.Heap.Free: only for blocks that malloc has given and that are live.
- Numbers.Itoa: only in base ten, the one base it is called with here; for the least 32-bit number it says only that what is printed is not the number.
- Passwd.Strtok.Next: for the one delimiter newline.
- Passwd.GetUserFromString: what is read past the end of the text, or written past the end of a field's buffer, is not described; both are the failure None.
- Passwd.GetNextAvailableUid: promises nothing for a list that is not in order, which SelectAllUsers never yields (LoadFromSorted).
- Shell.ParseCmd: which of the panics ends a failed parse is not stated.
- Running commands, reading lines and the built-in commands of the shell.
- grep's buffering of its input, and the group files.
