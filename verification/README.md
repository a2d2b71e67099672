# A verified model of the NorthOS kernel

A Dafny model of the parts of NorthOS, a kernel in the xv6 family, whose correctness rests on an argument
about whole runs rather than on one function, with the proofs of those arguments. `dafny verify dfyconfig.toml`
checks everything.

The code that changes state in place is modelled by classes whose methods follow the C line by line: the same
branches, loops, constants, error returns and panics. Where many processes interleave, or power can fail, a
machine of atomic steps stands beside the class: each method takes the machine by exactly the steps it makes,
and the theorems are about every run of the machine. An interleaving is then any order of the steps of different
processes; a step is one critical section of the lock that protects the state, or one single-block disk transfer.

| files | what they model |
|---|---|
| `Journal`, `JournalSafety`, `JournalSpace`, `Log` | the redo log with group commit, its recovery, its space accounting (kernel/log.c) |
| `CacheMachine`, `BufferCache` | the buffer cache: LRU list, reference counts, sleep locks, pinning (kernel/bio.c) |
| `CachedLog`, `CachePressure`, `PressureRun` | the log's machine run over the cache's, and when buffers run out |
| `Layout`, `Paths`, `FileBytes`, `FileSystem` | block ownership, the three-level block map and what it costs to fill, file contents, chunked writes (kernel/fs.c, kernel/file.c) |
| `Mkfs`, `Holes`, `Fletcher` | the first image (kernel/mkfs.c), what reading a hole and a full bitmap block lead to, the checksum (kernel/fs.c) |
| `Links`, `LinkCounts`, `Directories` | directory entries and link counts (kernel/sysfile.c, kernel/fs.c) |
| `Dirents`, `EntryViews`, `DirBlocks`, `Calls` | directories as bytes of files, and the transactions of create, link, unlink and the last iput (kernel/sysfile.c, kernel/fs.c) |
| `DiskImage`, `Recovery` | the blocks of the disk as bitmap, inodes and data, and the file system's invariant across power failures |
| `PageTables`, `PageCosts`, `Vm` | physical pages and address spaces (kernel/vm.c, kernel/kalloc.c) |
| `Monitor`, `Waits`, `ProcMachine`, `ProcTree`, `ProcTable`, `SleepTable` | sleep and wakeup, sleep locks, fork, exit, wait, kill (kernel/proc.c, kernel/sleeplock.c) |
| `Pipe` | the pipe's ring buffer (kernel/pipe.c) |
| `Heap` | the user-space allocator (user/umalloc.c) |
| `ShellGrammar`, `ShellRoundTrip`, `ShellSentences`, `Shell`, `ShellParser`, `ShellStrings` | the shell's parser (user/sh.c) |
| `Regex` | the matcher of grep (kernel/grep.c) |
| `Params`, `Wrappers` | constants of include/param.h and the test of begin_op; `Option` |

In the block layer, mkfs and the page tables an operation that can panic, fail or run out of blocks or pages says
exactly when: it returns normally if and only if a condition on the state before the call holds. For the calls on
directories this is said of directories without holes.

## What turned out not to hold

Some things the code or its comments promise are false. The model keeps the code as it is and states exactly when
the promise is kept:

- A system call may not log the 10 blocks MAXOPBLOCKS allows (include/param.h:13): three such calls can overflow
  the log. Nine is the exact bound (`JournalSpace.BudgetIsSafe`); file writes stay at eight
  (`FileBytes.ChunkBudget`, `FileSystem.FileSystem.WriteChunk`). On directories without holes create, link and
  unlink stay at seven, mkdir at eight, and a block more for each inode block the path lookup frees something of
  (`Calls.Create`, `Calls.Link`, `Calls.Unlink`): within nine if that is at most two blocks, for mkdir one.
- `balloc` can panic while blocks are free (`Holes.PanicsWithFreeBlocks`): bits past the last block are clear, and the
  scan stops at them. It returns exactly when a block is free from the hint's bitmap block on
  (`FileSystem.FileSystem.Balloc`).
- Reading can allocate. `readi` calls `bmap`, which fills holes, and `fileread` opens no transaction, so reading a hole
  panics (`Holes.ReadingAHolePanics`), or changes the inode without telling the disk when another call is open
  (`Holes.ReadingAHoleLeaks`). A write that does not make the file grow does the same (`Holes.WritingAHoleLoses`). The
  inode then still agrees with its copy exactly if no pointer in the inode was missing on the way, or a write made the
  file grow (`FileSystem.FileSystem.Readi`, `FileSystem.FileSystem.Writei`), and ownership survives a crash or a reload
  exactly if it agrees (`FileSystem.FileSystem.DiskOwn`, `FileSystem.FileSystem.Reload`). Writing and truncating make no
  hole; mkfs leaves one exactly when its root directory ends on a block boundary (`Mkfs.Image.Finish`,
  `Mkfs.HoleImage`).
- A killed pipe writer returns without waking readers, so readers can sleep beside data. Without kills they cannot
  (`Waits.ReadersNeedNoKills`).
- `kill` may mark a free slot, and the next child made there starts out killed (`ProcTree.KillExact`,
  `ProcTree.BornKilled`); over every run, exactly the slots hit since wait last freed them
  (`ProcTree.BornKilledExactly`).
- `link` and `create` do not check that the directory is still linked; the counts are kept exactly when it is
  (`LinkCounts.NeedsLinkedDirectory`, `Directories.Directories.LinkEnd`, `Directories.Directories.CreateName`).
- `fletcher32` folds each sum once and packs them, although a folded sum can be 65536 or more; the packed word holds
  the two sums exactly when neither is (`Fletcher.PackedAgrees`, `Fletcher.CarryIsLost`).
- `malloc` hands out enough units exactly when the request is at most 0xFFFFFFF8 bytes (`Heap.UnitsCover`), and its
  argument to `sbrk` is the right number exactly below 2^28 units (`Heap.SbrkArgumentIsBytes`).
- The jump in `deallocuvm` would wrap around and never end exactly from the last four megabytes of addresses
  (`Vm.JumpWraps`); every caller stays below KERNBASE.

## Model

| member | source | states |
|---|---|---|
| `JournalSafety.CrashAtomicity` | kernel/log.c:66-189 | Over every run of calls, commits, recoveries and crashes between any two disk-block writes (inside recovery too), recovering the disk gives the log_writes committed so far applied in order, exactly; and while the system runs, bread shows all log_writes that no crash has undone |
| `JournalSafety.AllOrNothing` | kernel/log.c:135-163 | The log_writes of one call survive together or not at all, and none of a call that has not reached end_op survives |
| `JournalSafety.CommitPoint` | kernel/log.c:97-107 | The set of surviving writes grows at the header write of a non-empty transaction and at no other step, and then to all of them; a crash keeps exactly that prefix |
| `JournalSafety.ConsistencySurvives` | kernel/log.c:66-189 | Any property of the home blocks that holds at the start and whenever the last of some concurrent calls ends holds of the recovered blocks after a power failure at any moment of any run |
| `JournalSafety.EndNeverMeetsCommit` | kernel/log.c:136-150 | No running call ever finds log.committing set in end_op, so that panic is unreachable |
| `JournalSafety.RecoveryFinishes` | kernel/log.c:109-114 | From any reachable state, a crash and an undisturbed recovery end in a running system with an empty log, on memory and on disk, and the recovered home blocks |
| `JournalSafety.StepKeeps` | kernel/log.c:66-218 | Every step of a call, of commit, of recovery and every crash keeps the invariant that ties the disk's header and slots, the cache and the in-memory list to the committed writes |
| `JournalSafety.CopyKeeps` | kernel/log.c:165-179 | Copying logged blocks to the log area changes nothing recovery can see, and the header write commits them |
| `JournalSafety.InstallOneKeepsView` | kernel/log.c:66-80 | Installing one block leaves what recovery would make of the disk unchanged, so a crash between installs is harmless |
| `Journal.HeaderRoundTrip` | kernel/log.c:82-107 | What write_head writes read_head reads, whatever the header block held before |
| `Journal.InstalledIs` | kernel/log.c:66-80 | After k installs each of the first k listed blocks holds its log slot and every other block is as before |
| `Journal.RecoveredIsPresented` | kernel/log.c:109-114 | Recovery, done block by block, makes of the home blocks exactly what the header and the slots say, and nothing else qualifies |
| `JournalSpace.BudgetIsSafe` | kernel/log.c:117-163 | The exact budget: no interleaving can reach the "too big a transaction" panic if and only if each call logs at most 9 distinct blocks; the documented 10 (include/param.h:13) is one too many, because the header takes one of the nlog blocks |
| `JournalSpace.ListStaysShort` | kernel/log.c:199-218 | With at most 9 distinct blocks per call, the list has at most 28 entries while calls run |
| `JournalSpace.CommitStaysShort` | kernel/log.c:165-189 | Nor are there more while they are committed |
| `JournalSpace.TenOverflows` | kernel/log.c:199-205 | A concrete run of three admitted calls with ten blocks each that meets the panic, from any disk with an empty log |
| `JournalSpace.StepSpace` | kernel/log.c:117-163 | Every step keeps the reservation: listed blocks plus what running calls may still log fit the log |
| `Log.Log.WriteLog` | kernel/log.c:165-179 | One disk write per listed block, each a step of the machine, none of which changes what is durable |
| `Log.Log.WriteHead` | kernel/log.c:94-107 | One step of the machine; afterwards the header on disk lists exactly the in-memory list |
| `Log.Log.InstallTrans` | kernel/log.c:66-80 | Home blocks become those the log slots hold, one machine step per block, with nothing more or less durable on the way |
| `Log.Log.Commit` | kernel/log.c:181-189 | Nothing is durable before the header write and everything after it; at the end the log is empty and the disk equals the cache |
| `Log.Log.RecoverFromLog` | kernel/log.c:109-114 | The disk becomes what recovery presented before, the log is empty on disk and in memory, and the cache agrees |
| `Log.Log.ReadHead` | kernel/log.c:82-92 | The in-memory list becomes the one on disk |
| `Log.Log.TryBeginOp` | kernel/log.c:117-132 | A call is let in if and only if no commit runs and ten more blocks would fit beside those listed and reserved, that is, if begin_op of Waits is not blocked; it is its Admit |
| `Log.Log.LogWrite` | kernel/log.c:191-218 | Panics if and only if the list is one short of the log size; else the block is listed once (absorbed when already there) and pinned with its new bytes |
| `Log.Log.EndOp` | kernel/log.c:134-163 | The last call to leave commits everything logged, and only it does |
| `Log.Log.Leave` | kernel/log.c:136-150 | The first critical section of end_op is the operation Leave or LeaveLast of Waits, and calls wakeup exactly when that operation wakes |
| `Log.Log.FinishCommit` | kernel/log.c:156-160 | The second is its Finish, with the wakeup |
| `Log.RunRecovers` | kernel/log.c:66-189 | A power failure in any state the methods pass through recovers to the committed writes |
| `Log.QuietState` | kernel/log.c:134-163 | When no call runs and no commit is in progress, the list is empty and disk, cache and committed writes agree |
| `CachedLog.CrashAtomicityOverCache` | kernel/log.c:66-218 | The same over the buffer cache: in every run in which processes bread, brelse and log_write through the cache, commit and recovery copy between its buffers, and power fails at any step, recovering the device gives exactly the committed log_writes in order |
| `CachedLog.ReadersSeeTheLog` | kernel/bio.c:91-100 | Whoever has read a block outside the log area while the system runs has before him every log_write that no crash has undone |
| `CachedLog.StepAgrees` | kernel/log.c:66-218 | Every step over the cache is one step of the log machine, or none for a bread or brelse, and keeps the agreement: the device is its disk, and the bytes last stored for a block are its memory |
| `CachedLog.Sees` | kernel/bio.c:91-100 | A buffer read for a block holds the log machine's memory of it, or inside the log area what is on the disk |
| `CachedLog.RewrittenIs` | kernel/log.c:66-80 | New bytes and a bwrite of a held buffer change the block on the device and in the cache, and no other block |
| `CachePressure.BuffersSuffice` | kernel/bio.c:56-89 | Over every run on the cache with at most nine blocks a call, bget finds a buffer as long as processes, commit included, reference at most one buffer the log has not pinned; in general, as long as these are fewer than the buffers left beside the listed blocks |
| `PressureRun.TwoReadersPanic` | kernel/bio.c:59-89 | Two are too many: from every disk with an empty log, four calls of at most nine blocks each and two processes that have bread a block lead to a commit whose first bget panics |
| `CachePressure.PanicsExactly` | kernel/bio.c:88 | bget panics if and only if the block is not cached and the pinned buffers and the referenced others are all there are |
| `CachePressure.RunListed` | kernel/log.c:191-218 | Over every run, the dirty buffers are those of listed blocks that are not yet installed |
| `CacheMachine.ReadsBack` | kernel/bio.c:56-131 | Over every interleaving from binit, a buffer that has been read holds the bytes last stored for its block, whatever was recycled in between; and so does the disk unless that buffer is pinned or locked |
| `CacheMachine.DiskKeepsUncached` | kernel/bio.c:72-89 | A block in no valid buffer has its last stored bytes on disk: recycling loses nothing |
| `CacheMachine.OneBuffer` | kernel/bio.c:38-89 | No block is in two buffers; block 0 of device 0, which all buffers name at first, is in at most one that was ever used |
| `CacheMachine.PinnedStays` | kernel/log.c:211-216 | A buffer marked by log_write keeps its block, and its block on disk stays unwritten, over every run without a bwrite of that buffer |
| `CacheMachine.PinnedIsFound` | kernel/log.c:166-179 | bget of a pinned block returns the pinned buffer, so write_log copies the logged bytes |
| `CacheMachine.VictimIsOldest` | kernel/bio.c:72-86 | The buffer bget recycles is, of those neither referenced nor dirty, the one released longest ago |
| `CacheMachine.PanicsWhenFull` | kernel/bio.c:59-89 | bget panics if and only if the block is not cached and every buffer is referenced or dirty |
| `CacheMachine.OneChoice` | kernel/bio.c:59-89 | bget's result is determined by the list, the reference counts and the dirty flags |
| `CacheMachine.StepKeeps` | kernel/bio.c:56-131 | Every critical section and transfer keeps: each buffer once in the list, one buffer per block, reference counts equal to outstanding references, clean unlocked buffers equal to the disk, list in release order |
| `CacheMachine.StartInv` | kernel/bio.c:38-54 | The state binit leaves has all of that |
| `BufferCache.UnlinkKeeps` | kernel/bio.c:122-123 | Unlinking a buffer leaves one circle, forward and backward, with exactly that buffer missing |
| `BufferCache.PushKeeps` | kernel/bio.c:46-53 | Linking a buffer behind the head leaves one circle with that buffer first |
| `BufferCache.Binit` | kernel/bio.c:38-54 | The list is a circle of all buffers, the last of the array first |
| `BufferCache.BufferCache.Bget` | kernel/bio.c:56-89 | One reference more to the first buffer with the block, or the last free clean buffer renamed and invalid, or the panic with nothing changed |
| `BufferCache.BufferCache.FindCached` | kernel/bio.c:64-71 | The first buffer in the list with the block, or none has it |
| `BufferCache.BufferCache.FindFree` | kernel/bio.c:73-87 | The last free clean buffer in the list, or there is none |
| `BufferCache.BufferCache.AcquireSleep` | kernel/sleeplock.c:20-28 | The lock is taken if and only if nobody holds it |
| `BufferCache.BufferCache.Bread` | kernel/bio.c:91-100 | The caller gets the bytes last stored for the block it asked for, even if others used the buffer since its bget |
| `BufferCache.BufferCache.StoreData` | kernel/bio.c:8-14 | A process that holds a buffer changes its bytes, which are the latest of that block, and nothing else |
| `BufferCache.BufferCache.MarkDirty` | kernel/log.c:216 | Exactly the one buffer becomes dirty, and is pinned |
| `BufferCache.BufferCache.Iderw` | kernel/ide.c:119-152 | A dirty buffer is written, an invalid one read, any other left alone; valid and clean afterwards |
| `BufferCache.BufferCache.Bwrite` | kernel/bio.c:102-108 | Panics without the lock; else the bytes in the buffer, read or not, become the disk block and the last stored bytes, and the pin is gone |
| `BufferCache.BufferCache.ReleaseSleep` | kernel/bio.c:112-116 | Panics without the lock; else the lock is free. It does not check what kernel/bio.c:8-14 asks, and the cache stays sound if and only if changed bytes were pinned or written |
| `BufferCache.BufferCache.Unreference` | kernel/bio.c:118-130 | One reference less; at none the buffer moves to the front of the list |
| `Layout.WordPutWord` | kernel/fs.c:391-420 | A pointer stored in a table block reads back, and the other pointers of the block do |
| `Layout.DataSlotInjective` | kernel/fs.c:375-432 | Different block numbers of a file are reached through different pointers |
| `Layout.LinkKeeps` | kernel/fs.c:375-432 | A free block put into an empty slot of any level keeps ownership (all pointers of all inodes distinct, marked bits exactly metadata plus owned blocks) and every byte of every file |
| `Layout.LinkedPtr` | kernel/fs.c:375-432 | Putting a block into a slot changes that pointer and no other of any inode, at all three levels |
| `Layout.StoredKeeps` | kernel/fs.c:534-569 | Overwriting a file's block changes exactly the bytes of that block of that file, and no pointer |
| `Layout.TruncatedKeeps` | kernel/fs.c:438-488 | When exactly the bits of the blocks an inode owned are cleared, ownership holds, the file is empty and every other file keeps its bytes |
| `Paths.FirstFreeUnique` | kernel/fs.c:119-191 | balloc's choice, the first free bit from the hint's bitmap block on and round again, is one block |
| `Paths.FirstFreeIsData` | kernel/fs.c:119-191 | As the bits beyond the last block are clear, that choice is a block of the disk if and only if some block from the hint's bitmap block on is free |
| `Paths.NoRoom` | kernel/fs.c:375-435 | Where balloc has nothing to give, blocks of a file can be reached if and only if none of them is missing |
| `Holes.PanicsWithFreeBlocks` | kernel/fs.c:161-172 | The promise that balloc finds a free block is false: in a file system that satisfies the ownership invariant, with the hint in the second bitmap block and all blocks from there on in use, it panics although block 100 is free |
| `Holes.FullOwn` | kernel/fs.c:375-432 | That file system: one file owns every data block of the second bitmap block through its double-indirect block |
| `Holes.ReadingAHolePanics` | kernel/file.c:85-101 | fileread runs outside a transaction, so reading the root directory of an image whose root ends on a block boundary runs into log_write's panic |
| `Holes.ReadingAHoleLeaks` | kernel/fs.c:504-531 | While another call is open the same read gives the inode a block that its copy on disk does not name: what is on disk no longer satisfies ownership, nor does memory once the inode is loaded again |
| `Holes.WritingAHoleLoses` | kernel/fs.c:560-567 | An entry written into that hole is in the directory, but its block is not on disk: the directory did not grow, so writei skipped iupdate |
| `FileSystem.FileSystem.constructor` | kernel/fs.c:68-87 | Starts from any image that satisfies the ownership invariant, as Mkfs.Image.Finish leaves it, with every inode as its block holds it |
| `FileSystem.FileSystem.ScanBlock` | kernel/fs.c:130-160 | The first free bit of a bitmap block, found a word at a time, or all are marked |
| `FileSystem.FileSystem.Balloc` | kernel/fs.c:119-191 | Inside a transaction, returns if and only if some block from the hint's bitmap block on is free; then the first free bit in its order and no other changes and the block is zeroed |
| `FileSystem.FileSystem.Bmap` | kernel/fs.c:375-435 | The block of a file's bn-th piece, filled in at up to three levels. Returns if and only if bn is below MAXFILE and there is a free block for each missing pointer on the way; no file's bytes change, ownership holds, only the path and the bitmap are logged, and nothing changes when the block was there |
| `FileSystem.FileSystem.Readi` | kernel/fs.c:504-531 | Returns exactly bytes off to off+n of the file, cut at its size; -1 if and only if off is past the end or off+n wraps; panics if and only if the free blocks do not cover what is missing. It changes something if and only if a pointer on the way is missing, and the inode if and only if one in the inode is; on a file without holes it always returns, and changes and logs nothing |
| `FileSystem.FileSystem.Writei` | kernel/fs.c:534-569 | -1 if and only if refused, and then nothing changes; otherwise panics if and only if the free blocks do not cover the missing pointers; else replaces exactly [off, off+n), extends the file if needed, leaves every other file alone and logs at most the listed blocks. The copy on disk is written if and only if the file grows, so one that agreed still does if and only if the file grew or no pointer in the inode was missing on the way |
| `FileSystem.FileSystem.Reload` | kernel/fs.c:304-332 | An inode that is loaded again is what its block holds, and ownership survives that if and only if the two agreed |
| `FileSystem.FileSystem.DiskOwn` | kernel/fs.c:237-253 | In every state the methods leave, what is on disk satisfies ownership if and only if every inode agrees with its copy there |
| `FileSystem.FileSystem.Bfree` | kernel/fs.c:194-213 | Clears one bit; panics if and only if the block is out of range or already free, or no transaction is open |
| `FileSystem.FileSystem.Itrunc` | kernel/fs.c:438-488 | Inside a transaction it always returns: it never meets bfree's panic and clears exactly the bits of the blocks the inode owned, at all three levels, and writes the inode |
| `FileSystem.FileSystem.WriteChunk` | kernel/file.c:117-136 | The set of blocks one transaction gives to log_write has at most 8 members, and every block of the disk it changes is among them. -1 if and only if writei refuses, and then nothing changes; panics if and only if the free blocks do not last; else the piece is written and the offset advanced. At end_op, a disk that satisfied ownership still does if and only if the file grew or no pointer in its inode was missing |
| `FileSystem.FileSystem.Filewrite` | kernel/file.c:103-140 | Writes the whole chunks that fit below the maximum file size and returns n if that was all of it, -1 otherwise; the write is one splice at the file offset; panics if and only if the free blocks do not last for those chunks; makes exactly one transaction for each chunk and for a refused one, each of at most 8 blocks, and one after the other they log every change to the disk. Inode and disk agree afterwards, if they did, if and only if the file grew or no pointer in the inode was missing; so always on a file without holes |
| `FileSystem.FileSystem.Fileread` | kernel/file.c:85-101 | Returns the bytes at the offset and advances it by as many; the panics are those of readi, with no transaction of its own. What is on disk stays owned if and only if no pointer in the inode was missing on the way |
| `FileBytes.ChunkBudget` | kernel/file.c:110-136 | At any offset up to the maximum file size, a write of at most 1536 bytes logs at most 8 distinct blocks, however many it must allocate |
| `FileBytes.AllFreed` | kernel/fs.c:438-488 | Once every slot of the inode has been dealt with, what itrunc freed is exactly what the inode owned |
| `FileBytes.WroteContents` | kernel/fs.c:546-568 | Block-by-block writing of a piece amounts to one splice of the file's bytes |
| `FileBytes.SplicedTwice` | kernel/file.c:117-136 | Two neighbouring chunks amount to one write |
| `FileBytes.WriteDense` | kernel/fs.c:546-568 | A write that starts at or below the size leaves no hole in a file that had none, and does not touch the pointers of one it does not extend |
| `FileBytes.TruncatedDense` | kernel/fs.c:438-488 | Truncation leaves no hole anywhere there was none |
| `Paths.BehindOwn` | kernel/fs.c:237-253 | A file system whose inodes lack pointers they should have satisfies ownership if and only if they lack none: a block nobody names stays marked |
| `Paths.SpentAddrs` | kernel/fs.c:375-435 | Filling slots of a file changes the pointers in its inode if and only if one of those was missing there |
| `FileBytes.ReadChanges` | kernel/fs.c:504-531 | A read changes nothing if and only if no block in its range is missing |
| `FileBytes.WrittenAgrees` | kernel/fs.c:560-567 | When the copy on disk still agrees after a write |
| `FileBytes.ChunksAgree` | kernel/file.c:117-136 | The same for all chunks of a filewrite together |
| `Mkfs.FreshOwn` | kernel/mkfs.c:112-120 | An image of zeros with only the metadata marked satisfies the ownership invariant |
| `Mkfs.Image.Take` | kernel/mkfs.c:300-380 | Succeeds if and only if a block of the disk is left; then the next unused block is one ownership allows to be linked |
| `Mkfs.Image.BlockFor` | kernel/mkfs.c:275-380 | iappend's own three-level choice fills the same slots bmap would read; it fails if and only if fewer blocks of the disk are left than pointers are missing on the way |
| `Mkfs.Image.Iappend` | kernel/mkfs.c:275-393 | The bytes go to the end of the file and no other file changes; succeeds if and only if the file stays within the maximum size and the blocks last; every file keeps exactly the blocks below its size |
| `Mkfs.Image.Ialloc` | kernel/mkfs.c:248-258 | The next inode, empty, if and only if one is left |
| `Mkfs.Image.Finish` | kernel/mkfs.c:187-194 | Fails its assertion if and only if more blocks are in use than one bitmap block can mark; else the bitmap written last makes the image satisfy the ownership invariant the kernel relies on. The rounded root directory has no hole if and only if it did not end on a block boundary, and no other file has one |
| `Mkfs.NewRoot` | kernel/mkfs.c:120-132 | The root starts with two entries, "." and "..", both naming the root |
| `Mkfs.FullRoot` | kernel/mkfs.c:120-168 | After 126 empty files the root lists "." and ".." and then every file under its name and inode, in order |
| `Mkfs.HoleImage` | kernel/mkfs.c:121-194 | main on any 126 empty files makes such an image: the root says 4096 bytes and has one block |
| `Mkfs.RoundedDense` | kernel/mkfs.c:187-192 | The exact condition for the rounding to leave no hole |
| `Mkfs.TightAppend` | kernel/mkfs.c:275-393 | Appending keeps the blocks of a file exactly those below its size |
| `Fletcher.Fletcher32` | kernel/fs.c:47-65 | With every addition cut to 32 bits, the two sums come out as if integers had no bound, for every length, zero and negative ones included, neither is zero, and they are congruent modulo 65535 to the plain sums. The word returned holds them so, one in each half, if and only if both are below 65536 |
| `Fletcher.NeverWraps` | kernel/fs.c:51-58 | At no word of any data does either sum reach 2^32 when it is folded every 360 words |
| `Fletcher.FinalAgrees` | kernel/fs.c:60-64 | The result is congruent modulo 65535 to the plain sums over all words |
| `Fletcher.PackedAgrees` | kernel/fs.c:64 | The packed word holds the two sums modulo 65535 in its halves if and only if neither sum has a carry left above its 16 bits |
| `Fletcher.CarryIsLost` | kernel/fs.c:60-64 | On the two words 0x8000, 0x8000 the first sum is 65536, and the low half of the checksum is 0 where 1 is right |
| `Fletcher.LargestBlock` | kernel/fs.c:51-58 | From the starting sums, n words can be added without folding whatever they are, if and only if n is at most 360 |
| `Fletcher.AgreeFolded` | kernel/fs.c:60-61 | A fold keeps both congruences |
| `Fletcher.InBlockFits` | kernel/fs.c:55-61 | Sums that start a block at most 65896 and 131070 stay below 2^32 for 360 words and fold back under the same bounds |
| `Heap.Heap.Malloc` | user/umalloc.c:59-84 | Valid from valid: an ordered circular free list with no two touching blocks, apart from live blocks, both together exactly what sbrk gave. The block is new and has Units(nbytes) units; sbrk is called only if nothing fits; the loop ends within a lap of a successful morecore |
| `Heap.Heap.Free` | user/umalloc.c:24-42 | The block leaves the live ones, other live blocks stay, the units are conserved, and the list is again ordered and coalesced |
| `Heap.Heap.FindSpot` | user/umalloc.c:29-31 | From any roving pointer the loop stops, within a lap, at the node after which the block belongs |
| `Heap.Heap.Relink` | user/umalloc.c:32-41 | The header writes for all four cases of merging above and below |
| `Heap.Heap.Morecore` | user/umalloc.c:44-57 | At least 4096 units join the list and no live block changes, or sbrk failed and nothing did |
| `Heap.Heap.TakeFrom` | user/umalloc.c:68-77 | An exact fit leaves the list, a larger block gives its tail |
| `Heap.UnitsCover` | user/umalloc.c:63 | The units requested hold nbytes and a header if and only if nbytes is at most 0xFFFFFFF8: above, the addition wraps |
| `Heap.SbrkArgumentIsBytes` | user/umalloc.c:48-50 | The argument of sbrk is the number of bytes if and only if fewer than 2^28 units are asked for; else it is not positive |
| `Heap.FreeKeeps` | user/umalloc.c:24-42 | Insertion with any combination of merges keeps order, separation, conservation, links and coalescing |
| `Heap.TakeExact` | user/umalloc.c:69-70 | Taking a whole free block keeps all of it |
| `Heap.TakeTail` | user/umalloc.c:71-75 | Splitting the tail off keeps all of it |
| `Heap.GrantKeeps` | user/umalloc.c:51-55 | New units are apart from everything live and free, and extend the arena by exactly themselves |
| `Heap.LapDone` | user/umalloc.c:80-82 | A full lap back at freep has seen every node: nothing fits, and after a successful morecore it cannot happen |
| `Heap.SpotTest` | user/umalloc.c:29-31 | The loop's stopping test holds at the place of the block and at no other node |
| `Monitor.NoLostWakeup` | kernel/proc.c:387-438 | For any shared state guarded by a spinlock and changed by operations that wake the channel whenever they end the reason to wait: in every interleaving with sleep, wakeup and kill, when lock and table are free nobody sleeps without a reason |
| `Monitor.DisciplineIsExact` | kernel/proc.c:387-438 | That condition on the operations holds if and only if no interleaving loses a wakeup |
| `Monitor.UndisciplinedLoses` | kernel/proc.c:387-438 | For any operation that breaks it, a concrete run of two processes that leaves one asleep for nothing |
| `Monitor.StepKeeps` | kernel/proc.c:387-459 | Every step, the two-lock handover of sleep included, keeps the invariant |
| `Waits.SleepLockSafe` | kernel/sleeplock.c:20-36 | In every interleaving at most one process owns a sleep lock, the pid field is the owner's, and with the inner lock free nobody sleeps on an unlocked one |
| `Waits.BeginOpSleepersWait` | kernel/log.c:117-163 | With log.lock free, a call asleep in begin_op faces a commit or a full reservation |
| `Waits.ReadersNeedNoKills` | kernel/pipe.c:74-114 | Pipe readers lose no wakeup if and only if writers cannot be killed: the early return of a killed writer skips the wakeup |
| `Waits.WritersAlwaysWoken` | kernel/pipe.c:74-114 | Pipe writers lose no wakeup, kills or not |
| `Waits.Sleeplock.TryAcquire` | kernel/sleeplock.c:20-28 | The lock is taken if and only if it is not held, which is the sleeping condition |
| `Waits.Sleeplock.Release` | kernel/sleeplock.c:30-36 | The lock is free and has no owner, and wakeup has been called once |
| `Waits.Sleeplock.Holding` | kernel/sleeplock.c:38-45 | True if and only if the caller is between its acquiresleep and its releasesleep |
| `ProcTree.ParentsLive` | kernel/proc.c:164-290 | Over every run from boot, each process other than init that can run or has exited has a parent that can run and is older, and descends from init |
| `ProcTree.TreeRooted` | kernel/proc.c:225-240 | Parent links from any process lead to init, in fewer steps than its pid |
| `ProcTree.WaitNeverMisses` | kernel/proc.c:209-290 | Over every run, nobody sleeps in wait while a child of his is a zombie |
| `ProcTree.ReapedOnce` | kernel/proc.c:252-290 | Over every run, each pid that exited belongs to a zombie or has been returned by exactly one wait, never both, and wait returns no other |
| `ProcTree.StepKeeps` | kernel/proc.c:63-459 | Each critical section of ptable.lock, and each unlocked write of fork, keeps the process-table invariant |
| `ProcTree.ExitPlaced` | kernel/proc.c:230-244 | Handing children to init leaves every process with a living, older parent |
| `ProcTree.ExitApart` | kernel/proc.c:227-244 | exit wakes its parent, and init for inherited zombies, whenever they sleep in wait |
| `ProcTree.KillExact` | kernel/proc.c:443-459 | The slot kill marks is in use if and only if some process in use has the pid; other numbers may match a free slot that kept an old one |
| `ProcTree.BornKilled` | kernel/proc.c:63-104 | allocproc does not clear `killed`: after kill(0), which hits a free slot, the next child is born killed |
| `ProcTree.BornKilledExactly` | kernel/proc.c:63-80 | Over every run from boot, a child starts out killed if and only if some kill hit its slot, free or in use, since wait last freed it |
| `ProcTree.KilledIsMarked` | kernel/proc.c:443-459 | Over every run from boot, a slot is marked killed if and only if some kill hit it since wait last freed it |
| `ProcTree.AsleepNext` | kernel/proc.c:387-459 | A slot is asleep on a channel after a step of any process if and only if the step put it to sleep there, or it was and the step was neither a wakeup of the channel nor a kill that finds the slot |
| `ProcTree.KillRouses` | kernel/proc.c:443-459 | Over every run from boot, no kill leaves a slot it found asleep: a marked process that is asleep has called sleep again since the last kill that found it, and never sleeps in wait |
| `SleepTable.StepSimulates` | kernel/proc.c:387-459 | On the process table, where who sleeps is for the slots to say, sleep, wakeup, kill of a sleeper and the scheduler's choice are the steps the monitor assumes, and every other step of the table is none of its business |
| `SleepTable.RunSimulates` | kernel/proc.c:387-459 | Every run of the protocol on the process table, with every other step of the table in between, is a run of the monitor and a run of the process table |
| `SleepTable.NoSleeperForgotten` | kernel/proc.c:387-459 | Over every such run from boot, with the lock free a slot that is SLEEPING on the channel still has its reason to wait, if every update that ends a wait wakes the channel under the lock |
| `SleepTable.DisciplineIsExact` | kernel/proc.c:387-438 | That condition is exact on the process table too: if some update breaks it, a run of init and its first child ends with a slot asleep for nothing |
| `SleepTable.SleepLockSleepers` | kernel/sleeplock.c:20-36 | No slot of the process table sleeps on a sleep lock that is free |
| `ProcTable.ProcTable.Allocproc` | kernel/proc.c:63-85 | The first free slot becomes an embryo with the next pid and no other slot changes but the caller's; fails if and only if there is none |
| `ProcTable.ProcTable.AbortFork` | kernel/proc.c:87-92 | Out of memory, the slot is free again and keeps its number; no other slot changes but the caller's |
| `ProcTable.ProcTable.AdoptChild` | kernel/proc.c:182 | The child has its parent, and no other slot changes but the caller's |
| `ProcTable.ProcTable.PublishChild` | kernel/proc.c:194-204 | The child becomes runnable, no other slot changes but the caller's, and its pid is one never returned by wait |
| `ProcTable.ProcTable.Wakeup1` | kernel/proc.c:425-431 | Nobody is asleep on the channel afterwards: exactly the slots that were become runnable, and nothing else of them or of any other slot changes |
| `ProcTable.ProcTable.WakeupOn` | kernel/proc.c:434-438 | The same for wakeup of any channel but a process |
| `ProcTable.ProcTable.PassChildren` | kernel/proc.c:230-237 | Exactly the children of the exiting process change parent, and init wakes if one was a zombie |
| `ProcTable.ProcTable.ExitProc` | kernel/proc.c:209-248 | Panics for init only; else the caller is a zombie, exactly its children have init as their parent, and exactly two kinds of sleepers are woken: the parent in its wait, and init in its wait if a child handed over was a zombie |
| `ProcTable.ProcTable.WaitChild` | kernel/proc.c:252-290 | Frees the first zombie child and returns its pid; -1 if and only if there is no zombie and no child, or killed; else sleeps on itself; no other slot changes |
| `ProcTable.ProcTable.KillPid` | kernel/proc.c:443-459 | 0 if and only if some slot has the pid, and then the first such slot is marked and is not asleep: a sleeper is runnable, any other state is kept, and no other slot changes; -1 changes nothing |
| `ProcTable.ProcTable.GoToSleep` | kernel/proc.c:406-408 | The caller is asleep on the channel it names, and no other slot changes |
| `ProcTable.ProcTable.Resume` | kernel/proc.c:310-318 | A process is chosen if and only if it is runnable, then runs, and no other slot changes |
| `ProcTable.ProcTable.YieldCpu` | kernel/proc.c:359-364 | The caller is runnable, and no other slot changes |
| `Pipe.Pipe.WriteSome` | kernel/pipe.c:74-93 | Appends bytes in order, as many as fit; stops only when all are in or the ring is full, and then fails if there is no reader or the writer is killed, and sleeps otherwise; wakes readers unless it fails; each return is the pipe operation of Waits it stands for |
| `Pipe.Pipe.Read` | kernel/pipe.c:95-114 | Returns the oldest unread bytes, as many as there are up to n, if and only if there are some or the write end is closed; else gives up if killed, and waits otherwise; a return is the Drain of Waits, with the wakeup |
| `Pipe.Pipe.Append` | kernel/pipe.c:88 | Overwrites no unread byte |
| `Pipe.Pipe.TakeByte` | kernel/pipe.c:109 | Delivers the next byte in the order written, across counter wrap-around |
| `Pipe.Pipe.Close` | kernel/pipe.c:57-71 | Exactly the one end is closed, and whoever waits on the other is woken; the pipe is to be freed if and only if both ends are closed; closing is the operation of Waits |
| `Pipe.CountersTell` | kernel/pipe.c:79-106 | With at most 512 bytes in flight, wrapped counters are equal if and only if the pipe is empty and a ring apart if and only if it is full |
| `Pipe.RingPosition` | kernel/pipe.c:88 | The wrap of a 32-bit counter does not disturb the position in the ring |
| `PageTables.MapKeeps` | kernel/vm.c:56-74 | Mapping a held page at a user address keeps the partition of physical pages between free list, kernel and directories, each page owned through one entry |
| `PageTables.UnmapKeeps` | kernel/vm.c:246-254 | Unmapping a user page takes it from its directory and keeps the partition |
| `PageTables.TableKeeps` | kernel/vm.c:38-49 | Installing an empty page table keeps the partition and every address space |
| `PageTables.WrotePte` | kernel/vm.c:66-68 | Writing the entry for one page of one directory changes no other entry of any directory |
| `PageTables.NewDirKeeps` | kernel/vm.c:116-118 | A zeroed page becomes a directory that maps nothing |
| `PageTables.DropDirKeeps` | kernel/vm.c:262-275 | What a directory owns is disjoint from everything else in use |
| `PageTables.GiveKeeps` | kernel/kalloc.c:53-69 | Freeing a page in use keeps the partition and every mapping, though the page is overwritten |
| `PageTables.TakeKeeps` | kernel/kalloc.c:74-85 | Taking the head of the free list keeps the partition |
| `PageTables.SameFree` | kernel/vm.c:314-317 | With the same directories and the same other pages in use, the same pages are free |
| `Vm.Memory.Kalloc` | kernel/kalloc.c:74-85 | The head of the list, unless it is empty; a page nothing else uses |
| `Vm.Memory.Kfree` | kernel/kalloc.c:53-69 | A page in use joins the list; no address space changes |
| `Vm.Memory.Freerange` | kernel/kalloc.c:42-47 | Exactly the whole pages between the two addresses join the free list |
| `Vm.Memory.Walkpgdir` | kernel/vm.c:33-51 | The page table for an address, made if asked for; fails if and only if absent and not asked for or no page is free; no mapping changes. The directory entry it goes through, old or new, is writable and open to users, as those of every directory are in every valid memory |
| `Vm.Memory.Mappages` | kernel/vm.c:56-74 | Maps exactly the given run of pages, if none is mapped and there is a free page for every page table it lacks; the panic "remap" if and only if the tables up to the first mapped page can be had; else exactly the pages up to the first whose table cannot be had |
| `Vm.Memory.Setupkvm` | kernel/vm.c:112-128 | Succeeds if and only if 49 pages are free; then a new directory that maps 128 megabytes of physical memory at KERNBASE and the devices at their own addresses and nothing else, none of it open to users, all of it writable except the kernel's text; else the same pages are free as before |
| `Vm.Memory.Allocuvm` | kernel/vm.c:203-230 | Below KERNBASE it succeeds if and only if none of the new pages is mapped and there is a free page for each and for each missing page table: zeroed pages at exactly the new addresses, which user code can read and write through both levels of entries; panics if and only if memory lasts up to the first mapped page; else nothing stays mapped there. What users can do with any other page, and every other directory, is as before |
| `Vm.Memory.Deallocuvm` | kernel/vm.c:236-258 | For sizes in user space, unmaps and frees exactly the pages between the two, as a page-by-page loop would, although it jumps over missing page tables; it terminates |
| `Vm.Memory.DropPage` | kernel/vm.c:246-254 | One page goes back to the free list and only its entry is cleared |
| `Vm.Memory.Freevm` | kernel/vm.c:262-275 | Exactly the pages the directory owned join the free list, each once; no other address space changes |
| `Vm.Memory.Copyuvm` | kernel/vm.c:290-318 | Succeeds if and only if all pages are there and 49 pages, one for each user page and one for each of their page tables are free: the child has the parent's user pages, flags and bytes, on pages of its own, and the kernel's mappings, and its user code can read and write through both levels of entries exactly what the parent's can; panics if and only if memory lasts up to the first page that is missing; else the same pages are free as before. The parent does not change |
| `Vm.Memory.CopyPage` | kernel/vm.c:299-311 | One page: the panic if it is missing, else a copy of its bytes and flags, or no memory |
| `PageTables.Access` | include/mmu.h:103-104 | Where every directory entry is writable and open to users, what user code can read and what the kernel can write is for the page's own entry to say |
| `Vm.GrownAllows` | kernel/vm.c:222-223 | After growing, user code reads and writes exactly the new pages more than before |
| `Vm.CopyAllows` | kernel/vm.c:304-308 | A copy allows its process exactly what the original allows, and nothing above KERNBASE |
| `Vm.KernelAllows` | kernel/vm.c:99-109 | Of the kernel's mappings users can read none, and the kernel can write all but its own text; each page is where physical memory or a device is |
| `Vm.SpacesDisjoint` | kernel/vm.c:290-318 | Two user entries that map one page are the same entry of the same directory |
| `Vm.JumpWraps` | kernel/vm.c:247 | The jump wraps to address zero, and the loop starts over, if and only if it is taken within the last page table; below KERNBASE it never does |
| `Vm.NextTable` | kernel/vm.c:247 | The jump lands on the first page of the next page table |
| `Vm.RangeFits` | kernel/vm.c:99-109 | The four lines of kmap are in order, do not overlap and describe the kernel's mappings |
| `Vm.KernelNext` | kernel/vm.c:99-128 | Each line of kmap finds its pages unmapped and needs exactly its share of the 48 page tables |
| `Vm.NeedFresh` | kernel/vm.c:290-318 | What the user pages of a new directory cost |
| `Vm.Memory.Abandon` | kernel/vm.c:114-127 | Giving up a half-built directory makes exactly the pages free that were free before |
| `PageCosts.NextPage` | kernel/vm.c:33-51 | A run of pages costs one table more exactly when the next page's table is not there yet |
| `LinkCounts.NlinkIsNames` | kernel/sysfile.c:104-262 | Over every run from mkfs that names only linked directories, nlink equals the number of entries naming the inode (own "." and unlinked directories aside) plus links under way; a free inode has no name; no name occurs twice in a directory |
| `LinkCounts.NeedsLinkedDirectory` | kernel/sysfile.c:221-262 | link and create keep the counts and the tree if and only if the directory they write to is still linked, which they do not check |
| `LinkCounts.RemovedDirectoryReached` | kernel/sysfile.c:166-262 | mkdir and rmdir reach a state with such a removed directory |
| `LinkCounts.RemovedDirectoryLoses` | kernel/sysfile.c:221-262 | A file made in it has a link count of one and no name |
| `LinkCounts.OneName` | kernel/sysfile.c:187-204 | A directory that unlink may remove has link count one, its only name is the entry being cleared, and its ".." is that directory |
| `LinkCounts.ParentStays` | kernel/sysfile.c:199-202 | Its parent stays linked |
| `LinkCounts.StepKeeps` | kernel/sysfile.c:104-262 | Every completed or half-done link, unlink, create and final iput keeps counts, shapes and the directory tree |
| `LinkCounts.BootInv` | kernel/mkfs.c:121-132 | The root mkfs makes satisfies the invariant |
| `Links.AddedIs` | kernel/fs.c:602-631 | dirlink changes one place, the first empty one or a new last one, and adds one name |
| `Directories.Directories.Dirlookup` | kernel/fs.c:575-599 | Finds the name if and only if it is there, and it is there once |
| `Directories.Directories.FreeSlot` | kernel/fs.c:613-622 | The first empty entry or the end |
| `Directories.Directories.Enter` | kernel/fs.c:613-627 | The name goes to the first empty entry or the end, and no other inode changes |
| `Directories.Directories.Isdirempty` | kernel/sysfile.c:152-163 | True if and only if nothing but "." and ".." is in use |
| `Directories.Directories.LinkBegin` | kernel/sysfile.c:118-127 | Refuses directories; else one link more |
| `Directories.Directories.LinkEnd` | kernel/sysfile.c:129-149 | The entry is made if the directory was found and lacks the name; else the count goes back. The link counts stay right if and only if nothing was entered into an unlinked directory |
| `Directories.Directories.UnlinkName` | kernel/sysfile.c:166-219 | Removes the name, or says why not: dots, no such name, directory not empty; the nlink panic is unreachable |
| `Directories.Directories.CreateName` | kernel/sysfile.c:221-262 | Makes file or directory with its name in one step; an existing name changes nothing and is returned only for file on file. The link counts stay right if and only if nothing was made in an unlinked directory |
| `Directories.Directories.Release` | kernel/fs.c:343-366 | An inode freed at link count zero has no name |
| `Dirents.EnteredIsFound` | kernel/fs.c:575-631 | After dirlink, dirlookup finds the new name in the entry that was filled, and every other name where it was |
| `EntryViews.EnteredViews` | kernel/fs.c:602-631 | What dirlink writes into the bytes of a directory is the entry the machine of Links adds |
| `EntryViews.AbsentViews` | kernel/fs.c:575-599 | dirlookup fails on the bytes if and only if the name is absent from the list |
| `EntryViews.ClearedViews` | kernel/sysfile.c:195-198 | Writing zeros over an entry is clearing it in the list |
| `EntryViews.EmptyDirViews` | kernel/sysfile.c:152-163 | isdirempty on the bytes is emptiness of the list from the third entry on |
| `EntryViews.DotViews` | kernel/sysfile.c:251-252 | The bytes of a new directory read as two entries, "." naming itself and ".." naming its parent |
| `EntryViews.RemovedViews` | kernel/sysfile.c:195-198 | The entry dirlookup finds is the first in use with the name, and zeros over it clear exactly that entry of the list |
| `DirBlocks.Dirlookup` | kernel/fs.c:575-599 | Entry by entry through readi: the first entry in use with the name; on a directory without holes it never panics and changes nothing |
| `DirBlocks.Dirlink` | kernel/fs.c:602-631 | -1 if and only if the name is there; else the first empty entry or the end gets it. On a directory without holes it panics if and only if the directory cannot grow or be given its block; no hole is made, the inode still agrees with the disk, other files are untouched, and at most six blocks are logged |
| `DirBlocks.Isdirempty` | kernel/sysfile.c:152-163 | True if and only if no entry from the third on is in use |
| `DirBlocks.PutEntry` | kernel/fs.c:626-628 | A write of one entry: the panic condition, the bytes, what it costs, and the six blocks it may log |
| `Calls.Create` | kernel/sysfile.c:221-262 | On a directory without holes it returns if and only if the name is there, or there are free blocks for the entry and for "." and "..". A new name is added to the list of entries as the machine of Links adds it, and the entries of a new directory are "." for itself and ".." for its parent. The transaction logs every block it changes, and at most seven distinct ones, eight with "." and "..", and one for each inode block the path lookup frees something of; at end_op the disk satisfies ownership if it did |
| `Calls.Link` | kernel/sysfile.c:104-149 | On a directory without holes it returns if and only if nothing is to be entered (a directory to be linked, no such directory, another device, the name is there) or there are free blocks for the entry; 0 if and only if it is entered, as the machine of Links enters it, and the count is taken back otherwise; at most seven distinct blocks and those of the two path lookups |
| `Calls.Unlink` | kernel/sysfile.c:166-219 | On directories without holes it always returns: 0 if and only if the name is in the list, is not "." or "..", and does not name a directory with entries; exactly the first entry of that name is cleared; at most seven distinct blocks, with the last iputs of both inodes, and those of the path lookup |
| `Calls.Walk` | kernel/fs.c:667-705 | The iputs of a path lookup log the bitmap and one block for each inode block they free something of, leave the files looked for untouched, and only add free blocks |
| `Calls.Drop` | kernel/fs.c:343-366 | The last iput frees the inode, logs at most three distinct blocks, all it changes, and keeps the disk owned |
| `Recovery.OwnedAfterCrash` | kernel/log.c:109-114 | If the image satisfies ownership and at every commit the log_writes so far are those of finished calls, each logging all it changes, then bitmap, inodes and pointer tables as read from the recovered blocks satisfy ownership after a power failure at any moment |
| `DiskImage.OfHome` | kernel/mkfs.c:100-102 | What the bitmap blocks, inode blocks and data blocks say does not depend on the log area |
| `DiskImage.ReplayHistory` | kernel/log.c:199-218 | Replaying what transactions one after the other logged turns a disk that holds the file system before them into one that holds it after them |
| `DiskImage.ReplayCarries` | kernel/log.c:199-218 | The same for one transaction: it suffices that every block it changes is logged |
| `DiskImage.EncodedTells` | include/fs.h:23-43 | Every bitmap, inode and data block can be written as 32-bit words and read back as it was |
| `DiskImage.SomeCarry` | kernel/log.c:199-218 | Every transaction has log_writes that carry it |
| `DiskImage.ImageOwned` | kernel/fs.c:375-432 | A disk that holds an owned file system decodes to an owned one |
| `ShellRoundTrip.RoundTrip` | user/sh.c:338-430 | Over tokens: every command printed with the parentheses it needs is read back exactly, if and only if no simple command has ten words or more; those are refused for that reason |
| `ShellRoundTrip.ReadLine` | user/sh.c:338-351 | The same before any tokens that may follow a line, which are left unread |
| `ShellSentences.AcceptsSentences` | user/sh.c:323-430 | Over all token lists: the parser accepts a list with a tree if and only if the list is a sentence of that tree, by a grammar of what commands look like, with arguments and redirections in any order, ">>" included, and parentheses anywhere they may stand; so no list has two trees |
| `ShellSentences.SimpleCommand` | user/sh.c:401-430 | On words and redirections in any order parseexec takes them all, if and only if every symbol has its file, there are fewer than ten arguments and a command can end there; arguments and redirections come out in the order of the tokens |
| `ShellSentences.LineAccepted` | user/sh.c:338-351 | A sentence before anything that may follow a line is read whole and the rest is left |
| `ShellSentences.LineIsLine` | user/sh.c:338-351 | Whatever the parser takes from the front of a token list is a sentence of the tree it builds |
| `ShellStrings.LineRoundTrip` | user/sh.c:264-430 | The same over characters: the text of a command is read back as that command |
| `ShellStrings.WordsStand` | user/sh.c:433-475 | After nulterminate every word of an accepted line is a C string equal to its token, none overwritten by another's terminator |
| `ShellStrings.Nulterminate` | user/sh.c:433-475 | Writes NUL at the end of every word of the tree and nowhere else |
| `ShellStrings.EndsInLine` | user/sh.c:433-475 | nulterminate writes inside the line or on its terminator |
| `ShellStrings.LexTokens` | user/sh.c:261-297 | Every word is a longest run of characters other than blank, tab, return, newline, vertical tab and the seven symbols |
| `ShellGrammar.ParseCmd` | user/sh.c:323-336 | An accepted line is consumed whole and each of its words occurs in the command exactly as often as in the line |
| `ShellGrammar.ParseLine` | user/sh.c:338-351 | Conservation of words for a prefix: what is not in the command is still unread |
| `Shell.LexRender` | user/sh.c:264-306 | Tokens written with blanks between them are read back |
| `Shell.TextLine` | user/sh.c:338-351 | The parser does not look inside words |
| `Shell.PeekTells` | user/sh.c:308-316 | peek sees the first character of the token gettoken would take |
| `ShellParser.Parser.GetToken` | user/sh.c:264-306 | Takes exactly the first token, reports its kind and ends, and always advances while there is one |
| `ShellParser.Parser.Peek` | user/sh.c:308-316 | Skips blanks and consumes no token |
| `ShellParser.Parser.Parseredirs` | user/sh.c:364-385 | Takes all redirections in front, or fails without a file word |
| `ShellParser.Parser.Parseexec` | user/sh.c:401-430 | Reads a simple command or a block as the grammar does, and terminates; in a simple command, in whatever order words and redirections stand, the arguments are the words that follow no redirection symbol, in order, and the redirections, innermost first, are the symbols with the words behind them |
| `ShellParser.Parser.Parseblock` | user/sh.c:387-399 | A parenthesised line with its redirections, or the missing-parenthesis panic |
| `ShellParser.Parser.Parseargs` | user/sh.c:409-429 | Takes all words and redirections that follow, in any order: words behind a redirection symbol become redirections, the others arguments, each in order. Fails if and only if a symbol has no file, there are ten arguments, or no command can end where they end |
| `ShellParser.Parser.Parsepipe` | user/sh.c:353-362 | Pipelines associate to the right, as the grammar says |
| `ShellParser.Parser.Parseline` | user/sh.c:338-351 | Lines against the grammar |
| `ShellParser.Parser.Parsecmd` | user/sh.c:323-334 | A line is accepted with a tree if and only if it is a sentence of that tree |
| `Regex.Match` | kernel/grep.c:68-76 | True if and only if a substring of the text starting at some position (position 0 after `^`) and ending at the end for a final `$` is in the language of the pattern |
| `Regex.MatchHere` | kernel/grep.c:79-89 | True if and only if some prefix of the text is in the language; the mutual recursion terminates |
| `Regex.MatchStar` | kernel/grep.c:92-98 | True if and only if skipping some run of fitting characters leaves a match |
| `Regex.StarStops` | kernel/grep.c:93-98 | Once a character does not fit no longer skip can match |

## Left out

- Devices, interrupts, assembly, the scheduler's context switch and the CPU structures; spinlock critical sections are
  atomic steps, and `iderw` is one atomic transfer of one block (the order of the IDE queue is not modelled).
- Log.Log: the class keeps the cache's contents as one sequence; that `bread` really yields them is proved of the log's
  machine over the cache's (`CachedLog`), not of the two classes together. There, a change of a buffer and the log_write
  that records it are one step under the buffer's lock, and so are the copy of a block and its bwrite.
- CacheMachine: a process changes bytes only while it holds the buffer, after reading it, and pins or writes the buffer
  before letting go, as the comment at kernel/bio.c:8-14 asks; `brelse` does not check it, and what then happens is
  stated at `BufferCache.BufferCache.ReleaseSleep`.
- Calls: of path lookup only the iputs are modelled; the inode numbers it yields are arguments, and so is whether an
  iput is the last. Type and link count of an inode, which the same blocks hold, are the subject of `LinkCounts`.
- Calls.Create: without a free inode the code panics; here one is given. On a directory with a hole the reads of
  dirlookup may need and log more blocks, and no bound is stated; likewise `Calls.Link` and `Calls.Unlink`.
- Recovery.OwnedAfterCrash: the calls are finished one after the other, as the class makes them; that log_writes of
  concurrent calls on different inodes come to the same as some such order is not shown.
- Layout, FileSystem: the inode has NDIRECT+2 pointers, as in the disk inode and as `bmap` and `itrunc` use it; the
  in-memory `struct inode` (include/file.h:31) is one short, so the last slot would overlap what follows it.
- FileSystem: each inode has a copy in memory and one in its block; of the inode cache only `iupdate` and the loading in
  `ilock` are modelled, not `iget`, `iput` and the reference counts, nor device inodes in `readi` and `writei`.
- FileSystem.FileSystem.Filewrite: no other process writes the file between two of its chunks.
- Mkfs: when inodes run out, main would write outside the inode table; the model stops there. Reading the host's files
  is left out.
- Heap: addresses are multiples of the header size, no user writes outside its block, and only live blocks are freed.
- ProcMachine: pids and the machine's count of processes are unbounded integers; a process makes one system call at a
  time, so nobody exits in the middle of its own fork; kernel stacks, page tables, open files and names are left out.
- ProcMachine: a woken process keeps its old channel until it sleeps again; the code clears it, and reads
  it only of sleepers.
- Monitor: operations are atomic under the one spinlock that guards the condition; liveness (that a woken process is
  ever scheduled) is not stated.
- Pipe: allocating and freeing the page and the two file objects.
- Vm: `inituvm`, `loaduvm`, `clearpteu`, `copyout` and segment set-up; the range check of `kfree` is the rule that only
  a page in use is freed; the bits of an entry other than present are one number, of which PTE_W and PTE_U are read and
  the accessed and dirty bits are not modelled; a page is what it is used for, a table or bytes.
- Vm.Memory.Deallocuvm: oldsz is at most KERNBASE, as at every call (kernel/vm.c:217, kernel/vm.c:224, kernel/vm.c:267,
  kernel/proc.c:153); above it the loop would hand pages of the kernel to `kfree`.
- Vm.Memory.Mappages: the pages are either all in user space, on frames the kernel holds, or all above it.
- Links: device nodes are files here, so `create` on one of them is not refused as the code refuses it.
- Links: path lookup (`namex`, `skipelem`), name truncation, and the 16-bit width of
  nlink; `unlink` is one step, although it lets the parent go before it lowers the count of the locked inode.
- Directories.Directories.CreateName: without a free inode the code panics; the model reports it and changes nothing.
- ShellParser: the tree is a value; the C code appends arguments to the innermost command through an alias, here by
  `ShellGrammar.AddArg`. Running commands, and the copies of the parser in user/shell.c and app/terminal, are left out.
- ShellGrammar.Print: writes output redirections as `>` and arguments before redirections; every other way to write a
  command is the subject of `ShellSentences.AcceptsSentences`. `>>` gives the same tree as `>`, as in the code.
- SleepTable: the other channels of sleep, and the wait of a parent, are there only as steps of the process table; the
  protocol is followed on one channel at a time.
- Regex: the line buffering of grep (kernel/grep.c:10-34).
- File-table reference counts of kernel/file.c, `exec`, argument fetching, the window system and all applications.
