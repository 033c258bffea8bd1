# Verification of the xv6 kernel, its allocator, shell and matcher

A Dafny model of the state-changing core of the teaching kernel xv6, in the copy with the stride scheduler
(`cs350-21f-proj2-psammon-main`), and proofs of what that code is for. Code that updates structures in place is
modelled by classes with the same fields and loops; each method is proved against a specification on values,
about which the properties are then proved.

| file | models |
|---|---|
| `Common.dfy` | an optional value, bytes |
| `Blocks.dfy` | disk blocks of 512 bytes, their 32-bit words, the log header |
| `LogMachine.dfy` | the redo log as a state machine over single-block disk writes, with crashes anywhere |
| `LogWait.dfy` | processes asleep in `begin_op`, and the wakeups of `end_op` |
| `MkfsLog.dfy` | when `log_write`'s panic can be reached, on the file system `mkfs` builds and on any other |
| `BufferCache.dfy` | the buffer cache: a circular LRU list of buffers over the in-memory disk |
| `RedoLog.dfy` | `log.c` over that cache; every disk write is a step of the log machine |
| `CommitPanic.dfy` | two runs of it: two operations that overlap, and a commit that panics |
| `FsModel.dfy`, `FileSystem.dfy` | bitmap, block maps, file contents, `readi`, `writei`, `itrunc`, `fileread`, `filewrite` |
| `LogUse.dfy` | which blocks those calls log, in order, told before the call, and when the log is full |
| `MkfsImage.dfy` | two runs on the file system that `mkfs` makes |
| `FsLog.dfy` | the operations of the file system on the log machine: crash consistency |
| `KrAllocator.dfy` | `malloc` and `free` over one flat memory of header-sized units |
| `PageTables.dfy` | two-level page tables and the frame allocator |
| `ShellGrammar.dfy`, `ShellParser.dfy` | the shell's grammar, a printer for it with any choice of optional parentheses, and the parser that builds nodes and cuts words |
| `SleepWakeup.dfy` | sleep and wakeup, step by step, for any number of processes |
| `Processes.dfy`, `Stride.dfy` | the process table, `fork`, `exit`, `wait`, `kill`, and the stride scheduler's fairness |
| `Pipe.dfy` | pipes with wrapping counters |
| `Grep.dfy` | the regular expression matcher |

How the pieces meet: `LogMachine` has the properties of all runs; `RedoLog` carries a ghost run of it and extends
it by one step at each disk write, so those properties hold between any two writes of its loops. `FileSystem`
records the blocks each operation logs, bounds their number by MAXOPBLOCKS and keeps them off the log, which is
what `LogMachine` asks of an operation; `FsLog` joins the two: the operations run on the log, and a crash at any
moment recovers to a file system in which every block is accounted for. Classes whose methods run from taking a
lock to giving it up (`Pipe`, `Processes.Table`) have an invariant that every method keeps, so it holds in every
interleaving of calls.

## What turned out not to hold

The model follows the code; where a natural property fails there is a concrete run, and the exact condition.

- `log_write` tests for room before it looks for the block in the log, and a log of up to LOGSIZE blocks, as `mkfs`
  makes, is shorter than what `begin_op` reserves: three well-behaved operations can reach its panic with a new block
  (`MkfsLog.LogTooShort`), on a longer log with one that is logged already (`MkfsLog.LongLogFills`). When it panics
  is `LogMachine.PanicCondition`.
- `readi` is no mere reader: where the file has a hole `bmap` allocates and logs. `fileread` begins no operation, so
  that reading a hole panics in `log_write` (`FileSystem.Fs.Readi` says when), and `mkfs` makes such a hole at the end
  of a root directory whose entries fill its last block (`MkfsImage.ListRoot`).
- `writei` accepts ranges that the log does not hold: it panics then, however many blocks are clear
  (`MkfsImage.WriteAtOnce`; `FileSystem.Fs.Writei` says exactly when). `filewrite`'s chunks always fit
  (`FileSystem.Fs.ChunkInLog`).
- `commit` needs a buffer for a log block while every logged block is pinned. It panics if and only if the logged
  blocks and the buffers that readers hold take up the cache (`RedoLog.Log.EndOp`, by
  `BufferCache.Bcache.BreadPanics`): on `mkfs`'s log 29 logged blocks and one reader (`CommitPanic.ReaderStopsCommit`).
  Without readers only a log longer than the cache allows it, and there `MkfsLog.LongLogFills` logs that many.
- A writer killed while the pipe fills returns without waking a reader asleep beside the bytes just stored
  (`Pipe.StrandReader`), until the write end closes (`Pipe.RescueReader`). It happens if and only if a reader
  sleeps, more bytes than the pipe holds are to be written, and the writer was killed or nobody can read
  (`Pipe.Pipe.Write`).
- `kill` does not look at a slot's state, so `kill(0)` marks a free slot and the next child is born killed
  (`Processes.KillZero`; the condition is `Processes.KillClean`).
- `growproc` reports shrinking to size 0 as a failure and keeps the old size although the pages are gone
  (`PageTables.ShrinkToNothing`; that this is the only case is `PageTables.Vm.GrowProc`).

## Model

| member | source | states |
|---|---|---|
| Blocks.WordRoundTrip | cs350-21f-proj2-psammon-main/fs.c:388-394 | Storing a 32-bit word in a block and reading any aligned word back: the written one is the value stored, every other one is as it was. |
| Blocks.WordBytes | cs350-21f-proj2-psammon-main/fs.c:388-394 | A 32-bit word lies in its block in four bytes, the lowest first. |
| Blocks.HeaderRoundTrip | cs350-21f-proj2-psammon-main/log.c:85-111 | The log header read back from its block is the list that was written, whatever the block held before: the count in the first word, the block numbers behind it, and every further word as it was. |
| LogMachine.GroupAtomicity | cs350-21f-proj2-psammon-main/log.c:125-202 | For every interleaving of begin_op, log_write and end_op steps of any number of operations, with a crash after any block write, recovery of the disk yields the initial image plus the committed groups in order; every group holds whole operations only, no running operation is in one, and between commits memory shows the groups and everything since. |
| LogMachine.OperationWhole | cs350-21f-proj2-psammon-main/log.c:125-174 | Every event of an operation in a committed group lies between that operation's begin and its end in the same group. |
| LogMachine.CommitPoint | cs350-21f-proj2-psammon-main/log.c:192-202 | Over any stretch of a run, crashes and recoveries included, in which no commit's header reaches the disk, what the disk recovers to does not change, however many blocks are written meanwhile. |
| LogMachine.Durable | cs350-21f-proj2-psammon-main/log.c:68-202 | Whatever happens later, crashes and recoveries included, the groups committed by now stay, in their order, and every later disk recovers to an image that has them. |
| LogMachine.CrashRecovery | cs350-21f-proj2-psammon-main/log.c:68-122 | From any reachable state, a crash, any number of recoveries cut short by further crashes, and one that completes: the home blocks are those of the committed groups, and memory agrees with the disk. |
| LogMachine.BootRuns | cs350-21f-proj2-psammon-main/log.c:115-122 | A boot that is not cut short ends, from any bootable disk, with an empty log, ready for operations. |
| LogMachine.Keep | cs350-21f-proj2-psammon-main/log.c:68-233 | Each of the twelve kinds of step keeps the invariant. |
| LogMachine.KeepWrite | cs350-21f-proj2-psammon-main/log.c:213-233 | A log_write within the operation's ten blocks keeps the invariant: the new contents are in memory, the list names the block once, and the disk is untouched. |
| LogMachine.HeadWritten | cs350-21f-proj2-psammon-main/log.c:99-111 | Writing the header when all blocks are copied makes the disk recover to memory: the header names exactly the copies in the log. |
| LogMachine.Reservation | cs350-21f-proj2-psammon-main/log.c:125-141 | In every reachable state the logged blocks plus the unspent budgets of all running operations fit in LOGSIZE; a commit or recovery runs only with no operation outstanding; an idle log is empty; begin_op waits only while a commit or recovery runs or some operation has yet to end. |
| LogWait.NoLostBegin | cs350-21f-proj2-psammon-main/log.c:125-174 | In every run, while a process sleeps in begin_op some operation has yet to end or a commit is under way, and that will call wakeup. |
| LogWait.NeverStuck | cs350-21f-proj2-psammon-main/log.c:125-174 | From every such state the others can go on, without a further begin_op, until nobody sleeps there and the next to try gets in. |
| LogWait.Keep | cs350-21f-proj2-psammon-main/log.c:125-174 | Every step, sleeping and waking included, keeps the log's invariant and a waker for the sleepers. |
| LogWait.CommitEnds | cs350-21f-proj2-psammon-main/log.c:192-202 | A commit under way can be driven to its end, which wakes all sleepers and leaves room for an operation. |
| LogMachine.PanicCondition | cs350-21f-proj2-psammon-main/log.c:217-219 | An operation within its budget meets log_write's first panic if and only if the log is full for its geometry; with more than LOGSIZE log blocks that can happen only for a block that is already logged, since the test comes before the search for absorption. |
| MkfsLog.LogTooShort | cs350-21f-proj2-psammon-main/log.c:217-219 | On every log of at most LOGSIZE blocks there is a run of three operations, each within ten blocks, that reaches log_write's panic for a block not yet logged. |
| MkfsLog.LongLogFills | cs350-21f-proj2-psammon-main/log.c:217-219 | On every longer log there is one that reaches it for a block already logged, with as many blocks logged as the cache has buffers. |
| MkfsLog.MkfsLogTooShort | cs350-21f-proj2-psammon-main/mkfs.c:25-102 | The file system that mkfs builds has such a log. |
| MkfsLog.FillLog | cs350-21f-proj2-psammon-main/log.c:213-233 | The run behind both: for any k up to what the log holds the machine reaches a state with k distinct blocks logged by three operations, ten at most each. |
| BufferCache.Bcache.constructor | cs350-21f-proj2-psammon-main/bio.c:38-56 | After binit the ring is a well-formed doubly linked list of all buffers, no block is cached, and the view is the disk. |
| BufferCache.Bcache.Binit | cs350-21f-proj2-psammon-main/bio.c:38-56 | binit links every buffer exactly once, in a ring ordered by insertion. |
| BufferCache.Bcache.Bget | cs350-21f-proj2-psammon-main/bio.c:58-93 | A cached block keeps its buffer, flags and contents; otherwise, of the unused clean buffers, the one released longest ago is emptied for it; null, the panic, if and only if there is none; no other buffer changes, and at most one buffer holds a block of a nonzero device. |
| BufferCache.Bcache.FindVictim | cs350-21f-proj2-psammon-main/bio.c:78-91 | The backward scan finds the least recently released buffer that is unused and clean, or shows that there is none. |
| BufferCache.Bcache.Iderw | cs350-21f-proj2-psammon-main/memide.c:38-60 | A dirty buffer goes to its block, one that is not valid gets the latest contents; afterwards it is valid and clean. |
| BufferCache.Bcache.Bread | cs350-21f-proj2-psammon-main/bio.c:95-106 | bread delivers the latest contents given to the block through any holder, however many evictions came between, and changes no other buffer and no disk block; it panics exactly when every buffer is in use or pinned and none is for the block; it waits in acquiresleep, with its reference counted, exactly when another process has the buffer locked. |
| BufferCache.Bcache.BreadApart | cs350-21f-proj2-psammon-main/bio.c:95-106 | For a block that the holders of buffers leave alone bread never waits, keeps what they hold and what is pinned, and panics exactly when no unused buffer is clean or for that block. |
| BufferCache.Bcache.Modify | cs350-21f-proj2-psammon-main/log.c:213-233 | New contents stored by the holder of a buffer are what every later bread of the block delivers. |
| BufferCache.Bcache.Pin | cs350-21f-proj2-psammon-main/log.c:213-233 | Setting B_DIRTY pins exactly the held block. |
| BufferCache.Bcache.Bwrite | cs350-21f-proj2-psammon-main/bio.c:108-116 | The disk block becomes the buffer's contents, and no other block changes. |
| BufferCache.Bcache.Brelse | cs350-21f-proj2-psammon-main/bio.c:118-141 | Dropping the last reference moves exactly that buffer to the front of the ring; otherwise the order stays; the ring stays ordered by last release. |
| BufferCache.Bcache.CopyBlock | cs350-21f-proj2-psammon-main/log.c:74-80 | One turn of the copying loops while other processes hold other buffers: the target block is the source's latest contents on the disk and in the view, only the target is unpinned, the others' buffers keep block and contents; it panics exactly when no buffer can be had for the first block, with nothing written. |
| BufferCache.Bcache.NoneRecyclable | cs350-21f-proj2-psammon-main/bio.c:78-92 | No buffer can be recycled if and only if the pinned blocks and the clean buffers in use, counted together, are as many as there are buffers. |
| BufferCache.Bcache.BreadPanics | cs350-21f-proj2-psammon-main/bio.c:78-92 | For a block that nobody holds and that is not pinned, bread panics if and only if that count is reached. |
| RedoLog.Log.constructor | cs350-21f-proj2-psammon-main/log.c:53-66 | Booting from any crash image of a run recovers, whatever the length of the log: the home blocks are those of the committed groups, the cache agrees, and operations may begin. |
| RedoLog.Log.RecoverFromLog | cs350-21f-proj2-psammon-main/log.c:115-122 | The real recovery, block by block, is a run of the log machine that ends with an empty log. |
| RedoLog.Log.AfterCrash | cs350-21f-proj2-psammon-main/log.c:68-122 | At every moment a crash leaves a disk from which the constructor can boot again, with the same committed groups. |
| RedoLog.Log.TryBeginOp | cs350-21f-proj2-psammon-main/log.c:125-141 | At any moment after the boot, also while a commit runs, one turn of begin_op lets the operation in if and only if no commit runs and n + (outstanding + 1) * 10 <= 30, whatever the log holds already, and that is the machine's step; otherwise nothing changes. |
| CommitPanic.Overlap | cs350-21f-proj2-psammon-main/log.c:125-141 | A concrete run: an operation begins while another has a block in the log. |
| RedoLog.Log.LogWrite | cs350-21f-proj2-psammon-main/log.c:213-233 | log_write panics exactly with n >= 30 or n >= size - 1 blocks in the log; otherwise it enters the block once in the list, pins its buffer, and is the machine's step. |
| RedoLog.Log.Enter | cs350-21f-proj2-psammon-main/log.c:222-229 | The absorption loop leaves the list alone for a block in it and appends any other. |
| RedoLog.Log.EndOp | cs350-21f-proj2-psammon-main/log.c:144-174 | The last operation to end commits everything since the last commit as one group and leaves the log empty, while readers hold buffers; any other just leaves. The commit panics if and only if something is logged and the logged blocks and the readers' buffers take up the whole cache; without readers that takes a log longer than the cache. |
| RedoLog.Log.Commit | cs350-21f-proj2-psammon-main/log.c:192-202 | A commit beside readers is the machine's run of copy, head, install and clear steps: afterwards the events since the last one form one more committed group, nothing is pinned, and the readers' buffers are as they were; or its first bread panics, under the condition above, with the disk unchanged. |
| RedoLog.Log.WriteLog | cs350-21f-proj2-psammon-main/log.c:176-190 | Every logged block is copied to its slot, in order, and stays pinned; where there is no spare buffer nothing is written. |
| RedoLog.Log.SlotAvailable | cs350-21f-proj2-psammon-main/log.c:181-183 | During a commit a buffer can be had for a log block exactly while pinned blocks and the readers' buffers leave one over. |
| CommitPanic.ReaderStopsCommit | cs350-21f-proj2-psammon-main/log.c:144-202 | A concrete run: on mkfs's log three operations log 29 blocks, a reader holds the last buffer of the cache, and the last end_op panics. |
| CommitPanic.Update | cs350-21f-proj2-psammon-main/log.c:204-233 | What an operation does to a block - bread, change, log_write, brelse - is the machine's step and leaves no buffer held. |
| RedoLog.Log.CommitHead | cs350-21f-proj2-psammon-main/log.c:99-111 | The header write is the step that adds the group. |
| RedoLog.Log.InstallTrans | cs350-21f-proj2-psammon-main/log.c:68-82 | Every logged block reaches its home, in order; each is pinned until then and not after. |
| FsModel.BitUpdates | cs350-21f-proj2-psammon-main/fs.c:65-67 | Setting and clearing a bit of the free map changes that bit and no other bit of the block. |
| FsModel.ClearCount | cs350-21f-proj2-psammon-main/fs.c:54-78 | The clear bits and the owned blocks together are the blocks behind the metadata. |
| LogUse.FullAtLast | cs350-21f-proj2-psammon-main/log.c:217-230 | log_write finds the log full somewhere in a sequence of blocks if and only if the blocks before the last one already fill it. |
| LogUse.PutsStep | cs350-21f-proj2-psammon-main/fs.c:365-401 | The plan of what a loop over bmap logs, made from the image before the call, goes on unchanged from the image after each turn. |
| LogUse.TurnsCount | cs350-21f-proj2-psammon-main/file.c:127-133 | Writing n blocks of a file, m of them missing, logs at most n + m blocks besides the indirect block, and two more for one that is new. |
| LogUse.LongWrite | cs350-21f-proj2-psammon-main/fs.c:497-504 | A write to more blocks than the log has room for never gets through, whatever the log holds. |
| FileSystem.Fs.Put | cs350-21f-proj2-psammon-main/log.c:213-233 | log_write panics exactly outside an operation or with the log full; otherwise the change is recorded and the block is in the log. |
| FileSystem.Fs.Balloc | cs350-21f-proj2-psammon-main/fs.c:54-78 | balloc marks and zeroes exactly the first free block and logs its bitmap block and it, in this order; it panics if and only if every bit is set or the log is full at one of the two. |
| FileSystem.Fs.FindClear | cs350-21f-proj2-psammon-main/fs.c:61-64 | The inner scan finds the first clear bit of a bitmap block. |
| FileSystem.Fs.Bfree | cs350-21f-proj2-psammon-main/fs.c:80-96 | bfree clears exactly the bit of its block, and panics exactly where log_write does. |
| FileSystem.Fs.Bmap | cs350-21f-proj2-psammon-main/fs.c:365-401 | bmap returns the block in the given place of the file, taking exactly what is missing from the front of the clear blocks and logging exactly what was planned; it panics if and only if fewer blocks are clear than are missing or the log is full on the way; a place that is filled stays unchanged; ownership is kept, and no byte of any file changes. |
| FsModel.FillDirect | cs350-21f-proj2-psammon-main/fs.c:379-383 | A fresh block in an empty direct slot keeps the ownership partition and every byte of every file. |
| FsModel.FillIndirect | cs350-21f-proj2-psammon-main/fs.c:387-389 | A fresh block as indirect block reads as "no block" in all its entries. |
| FsModel.FillEntry | cs350-21f-proj2-psammon-main/fs.c:390-397 | A fresh block in an empty entry of an indirect block keeps the partition and every byte of every file, and only that entry changes. |
| FileSystem.Fs.Iupdate | cs350-21f-proj2-psammon-main/fs.c:217-237 | iupdate writes exactly the inode's own slot of its inode block, in such a way that reading the slot gives the inode back, and moves no file block. |
| FileSystem.Fs.Ilock | cs350-21f-proj2-psammon-main/fs.c:286-312 | Reading an inode takes type, device numbers, links, size and thirteen block numbers from its sixteen words, and panics exactly for type 0; where the disk's copy is up to date the inode comes back as it was. |
| FsModel.UpdateSyncs | cs350-21f-proj2-psammon-main/fs.c:217-237 | After iupdate the disk's copy of the inode is the inode in memory, and reading it gives that inode. |
| FsModel.SyncedReads | cs350-21f-proj2-psammon-main/fs.c:294-303 | The disk's copy is up to date if and only if reading the sixteen words gives the inode in memory, in every field. |
| FsModel.ByteOnDisk | cs350-21f-proj2-psammon-main/fs.c:365-401 | Where a byte of a file lies: in the block the inode names, from the thirteenth place on in the block the indirect block names; at a block number 0 it is 0. |
| FsModel.BitOnDisk | cs350-21f-proj2-psammon-main/fs.c:62-68 | Which bit of which byte of which block tells that a block is in use. |
| FsModel.UpdateKeepsOthers | cs350-21f-proj2-psammon-main/fs.c:217-237 | iupdate leaves the disk copies of all other inodes as they were. |
| FileSystem.Fs.Readi | cs350-21f-proj2-psammon-main/fs.c:451-478 | readi returns exactly the slice of the file's bytes from off, clipped to the size; -1 exactly for an offset past the end or one that wraps. Holes on the way are filled with zeros, and no byte of any file changes. It panics if and only if the holes take more blocks than are clear or the log is full on the way: outside an operation, if and only if a block it touches is missing. With nothing missing nothing changes at all. |
| FileSystem.Fs.Fileread | cs350-21f-proj2-psammon-main/file.c:95-112 | fileread, which begins no operation, panics in that case; else the offset follows what was read; a device is handed the call, or it fails without one. |
| MkfsImage.ListRoot | cs350-21f-proj2-psammon-main/mkfs.c:158-163 | A concrete run: on the file system that mkfs makes, with a root directory whose entries fill its block, the read after the last entry reaches the hole that mkfs leaves behind them and panics, outside an operation, with 940 blocks clear. |
| MkfsImage.MkfsOwned | cs350-21f-proj2-psammon-main/mkfs.c:94-165 | In that image every block is accounted for: the metadata, the directory's block, and nothing else. |
| FsModel.ReadMore | cs350-21f-proj2-psammon-main/fs.c:470-475 | One turn of readi's loop: the next piece joins what was read, and exactly the place it lies in is filled, at its cost. |
| FileSystem.Fs.WriteBlock | cs350-21f-proj2-psammon-main/fs.c:497-504 | One turn of writei's loop overlays exactly its piece of the file, or panics exactly for want of clear blocks or of room in the log. |
| FileSystem.Fs.Writei | cs350-21f-proj2-psammon-main/fs.c:480-512 | writei replaces exactly the bytes [off, off+n), sets the size to max(size, off+n), changes no other inode's bytes or size, keeps ownership, the no-holes invariant and the disk copies of inodes; -1 exactly for the three rejected ranges, with nothing changed; on an accepted range it panics if and only if fewer blocks are clear at entry than are missing or what it will log, as planned at entry, does not fit in the log. |
| FsModel.RejectedIs | cs350-21f-proj2-psammon-main/fs.c:491-494 | The sums of writei's tests wrap at 32 bits, and yet they refuse exactly an offset past the end or an end past the largest file. |
| FileSystem.Fs.LongWrites | cs350-21f-proj2-psammon-main/fs.c:497-504 | So every call on more blocks than the log has room for panics, an overwrite too. |
| MkfsImage.WriteAtOnce | cs350-21f-proj2-psammon-main/fs.c:497-504 | A concrete run: one call with the bytes of 30 blocks panics on mkfs's log, with 940 blocks clear and at most 31 needed. |
| FsModel.SplicedContent | cs350-21f-proj2-psammon-main/fs.c:480-512 | The file after the loop and the size update is the old file with the source spliced in. |
| FsModel.SpliceReads | cs350-21f-proj2-psammon-main/fs.c:451-512 | Reading back a written range gives what was written; the bytes before and behind it are the old ones. |
| FsModel.SpliceTwice | cs350-21f-proj2-psammon-main/file.c:135-152 | Two writes in a row are one write of the concatenation. |
| FsModel.WriteCostTwice | cs350-21f-proj2-psammon-main/fs.c:497-504 | What two adjacent writes take is what the joined write takes: a place filled by the first is not missing for the second. |
| FsModel.WriteData | cs350-21f-proj2-psammon-main/fs.c:497-504 | New contents for one block of one file change only that file, in that block. |
| FsModel.ChunkCost | cs350-21f-proj2-psammon-main/file.c:127-138 | In a file without holes a chunk of at most 1536 bytes touches at most four blocks and finds at most three of them missing. |
| FsModel.AcceptedStep | cs350-21f-proj2-psammon-main/file.c:134-152 | How far a long write gets: a chunk is refused by the range tests if and only if the accepted length ends just before it. |
| FsModel.AcceptedIs | cs350-21f-proj2-psammon-main/file.c:127-151 | What filewrite accepts of n bytes: all of them, or the chunks of 1536 bytes before the first, perhaps shorter, one that starts past the end or ends past the largest file. |
| FileSystem.Fs.Itrunc | cs350-21f-proj2-psammon-main/fs.c:403-436 | itrunc frees exactly the blocks the inode owns, each once ("freeing free block" cannot happen), empties the inode in memory and on the disk, and changes no other file; it panics if and only if the bitmap blocks and the inode block, in their order, do not fit in the log. |
| FileSystem.Fs.Truncate | cs350-21f-proj2-psammon-main/fs.c:403-436 | Discarding a file as one operation stays within ten blocks when at most nine hold the bitmap, and leads to a consistent file system. |
| FsModel.FreedOne | cs350-21f-proj2-psammon-main/fs.c:414-430 | When its turn comes every block of the inode is still marked, and freeing it clears just its bit. |
| FsModel.TruncOwned | cs350-21f-proj2-psammon-main/fs.c:403-436 | Once every place is freed, ownership loses exactly the inode's blocks and the bitmap marks exactly the rest. |
| FileSystem.Fs.Filewrite | cs350-21f-proj2-psammon-main/file.c:116-156 | filewrite writes all of the source at the file's offset, which follows, or exactly the whole chunks before the first one the range tests refuse, and then fails; it panics if and only if that takes more blocks than are clear; "short filewrite" cannot happen; every operation it runs logs at most ten distinct blocks, none below the inode blocks, and leads from one consistent file system to another. |
| FileSystem.Fs.ChunkInLog | cs350-21f-proj2-psammon-main/file.c:127-133 | Four bitmap blocks, four data blocks, the indirect block and the inode block are all that a chunk can log: ten; an empty log has room for it. |
| FileSystem.Fs.WriteChunk | cs350-21f-proj2-psammon-main/file.c:134-148 | One transaction: the chunk is written and the offset follows, or it is refused exactly where the accepted length ends, or it panics exactly because the accepted write as a whole takes too many blocks; log_write never does. |
| FsLog.OperationRuns | cs350-21f-proj2-psammon-main/file.c:140-145 | The log records of any operation within ten home blocks are steps the log machine allows, in order, until they are all made or the log is full; memory is then the starting image with them applied, and the log has recorded exactly them. |
| FsLog.HomeBlocks | cs350-21f-proj2-psammon-main/mkfs.c:94-103 | On a disk laid out as mkfs does, with the log before the inode blocks, every block that a file system operation logs is one the log may carry. |
| FsLog.OperationCommits | cs350-21f-proj2-psammon-main/file.c:140-145 | Such an operation, on an idle log, runs through to the end of its commit and becomes one group. |
| FsLog.HistoryRuns | cs350-21f-proj2-psammon-main/log.c:115-233 | Every sequence of such operations runs from the boot on; in the end memory and the recovered disk are the image after all of them. |
| FsLog.CrashConsistent | cs350-21f-proj2-psammon-main/log.c:68-202 | Crash consistency, however operations overlap between commits: if memory holds a consistent file system whenever the last of them ends and a commit starts, then at every moment of every run, in the middle of a commit or of a recovery too, the disk recovers to a file system in which every block is accounted for and every inode is on the disk; the log lies apart from it. |
| FsLog.GoodImages | cs350-21f-proj2-psammon-main/log.c:68-202 | The same for any property of home blocks: what memory has at the start of every commit, the recovered disk has at every moment. |
| FsLog.ConsistentHome | cs350-21f-proj2-psammon-main/mkfs.c:94-103 | Consistency of a file system depends only on home blocks, where the log lies before the inode blocks. |
| FsLog.ConsistentReads | cs350-21f-proj2-psammon-main/fs.c:286-312 | On a consistent image, as every crash leaves it, the inodes that a boot reads from the disk own every block once. |
| FsLog.MountedCrash | cs350-21f-proj2-psammon-main/log.c:68-202 | For a mounted file system whose calls overlap on the log, in any way that at the start of each commit amounts to some of them one after the other: a crash at any moment recovers to the image after some of them, which is consistent. |
| FsLog.SerialCrash | cs350-21f-proj2-psammon-main/log.c:68-202 | Where operations do not overlap that needs no assumption on memory: the disk recovers to the image after some number of whole operations of the history. |
| FsLog.MountedSerial | cs350-21f-proj2-psammon-main/log.c:68-202 | The same for the mounted file system; with all its operations committed the disk recovers to its blocks as they are now. |
| KrAllocator.Heap.Malloc | cs350-21f-proj2-psammon-main/umalloc.c:63-90 | malloc terminates with at most one sbrk request; NULL exactly when no free block is large enough and sbrk refuses; else a new live block of exactly the units asked for, cut from the first large enough free block behind freep, no unit of any live block changed, free and live blocks still tiling the memory; the arena grows, by max(n,4096) units, only when no free block was large enough. |
| KrAllocator.Heap.Free | cs350-21f-proj2-psammon-main/umalloc.c:24-44 | free takes exactly its block out of the live ones, changes no unit of the others, and leaves the free list circular, address-ordered with one wrap, containing base and freep, and fully coalesced. |
| KrAllocator.Heap.FindPredecessor | cs350-21f-proj2-psammon-main/umalloc.c:30-32 | The search loop of free ends, at the one list element between which and its successor the block belongs, across the wrap too. |
| KrAllocator.Heap.Morecore | cs350-21f-proj2-psammon-main/umalloc.c:46-61 | What sbrk grants joins the free list as one block or by coalescing, so that the list then holds a block of the size asked for; a refusal changes nothing. |
| KrAllocator.Heap.Take | cs350-21f-proj2-psammon-main/umalloc.c:75-85 | A large enough block is unlinked or loses its tail of exactly n units. |
| KrAllocator.Heap.Store | cs350-21f-proj2-psammon-main/umalloc.c:11-19 | A program's store into a live block's payload keeps the allocator's invariant and every other live block. |
| KrAllocator.FreeKeeps | cs350-21f-proj2-psammon-main/umalloc.c:24-44 | Joining the upper and then the lower neighbour keeps the whole invariant: disjoint blocks tile the memory, the ring is ordered, no two free blocks touch. |
| KrAllocator.UpperKeeps | cs350-21f-proj2-psammon-main/umalloc.c:33-37 | The first join, with the block seen as still live. |
| KrAllocator.LowerKeeps | cs350-21f-proj2-psammon-main/umalloc.c:38-43 | The second join; some free block is then at least as large as the one freed. |
| KrAllocator.ExactKeeps | cs350-21f-proj2-psammon-main/umalloc.c:76-77 | Unlinking an exactly fitting block keeps the invariant. |
| KrAllocator.SplitKeeps | cs350-21f-proj2-psammon-main/umalloc.c:78-82 | Splitting the tail off a free block keeps the invariant. |
| KrAllocator.GrowKeeps | cs350-21f-proj2-psammon-main/umalloc.c:54-58 | Memory beyond all blocks becomes one new block. |
| KrAllocator.GrownSize | cs350-21f-proj2-psammon-main/umalloc.c:46-60 | A granted morecore ends memory exactly the units asked for, at least 4096, further on. |
| KrAllocator.Outside | cs350-21f-proj2-psammon-main/umalloc.c:24-90 | No unit of one block, nor its header, lies in another live block. |
| KrAllocator.UnitsFit | cs350-21f-proj2-psammon-main/umalloc.c:69 | The number of units asked for holds the header and the bytes, and one fewer would not. |
| PageTables.Vm.WalkPgdir | cs350-21f-proj2-psammon-main/vm.c:32-55 | walkpgdir finds the table of an address, or makes a zeroed one on request, whose directory entry allows writing and user access; no page's mapping changes; it fails exactly without a table and, when making one, without a free frame, and takes one frame exactly when it makes one. |
| PageTables.Translation | cs350-21f-proj2-psammon-main/vm.c:32-55 | The page of an address is what the hardware's walk finds: the upper ten bits of the address choose the directory entry, the next ten the table's. |
| PageTables.Access | cs350-21f-proj2-psammon-main/vm.c:47-53 | What both levels of a page table allow together is what the page's own entry allows. |
| PageTables.AccessAll | cs350-21f-proj2-psammon-main/vm.c:47-53 | The same with the permission bits spelled out, for every page of an address space. |
| PageTables.Vm.MapPages | cs350-21f-proj2-psammon-main/vm.c:57-80 | mappages maps exactly the first m pages that the range touches, in either half, to consecutive frames, all of them unless a page was present already or there were fewer free frames than missing tables; it takes exactly those; no other page changes, and the frames of user pages join the account of the address space. |
| PageTables.Vm.SetupKvm | cs350-21f-proj2-psammon-main/vm.c:117-136 | setupkvm yields exactly the kernel's direct map, page by page, with no page accessible to the user and the kernel's text not writable, or gives every frame back; it fails if and only if fewer than 65 frames are free, and takes 65; "remap" cannot happen. |
| PageTables.KernelAllows | cs350-21f-proj2-psammon-main/vm.c:105-114 | kmap page by page: frames and permissions of the four ranges, nothing elsewhere, no user access anywhere, no writing to text and read-only data. |
| PageTables.AllNew | cs350-21f-proj2-psammon-main/vm.c:117-136 | Mapping fresh pages takes one table for each directory entry they reach first. |
| PageTables.Vm.AllocUvm | cs350-21f-proj2-psammon-main/vm.c:219-249 | A successful allocuvm maps exactly the new pages, each to a frame that was free and writable by the user through both levels, and takes exactly the new pages and missing tables; it fails if and only if fewer frames are free, and then every page's mapping is as it was; frames are conserved either way. |
| PageTables.Vm.DeallocUvm | cs350-21f-proj2-psammon-main/vm.c:251-279 | deallocuvm ends, unmaps exactly the pages between the two sizes, passing over no present page when it skips a missing table, and conserves frames. |
| PageTables.Vm.Unmap | cs350-21f-proj2-psammon-main/vm.c:269-276 | Clearing a present entry gives its frame back once and changes no other page. |
| PageTables.Vm.FreeVm | cs350-21f-proj2-psammon-main/vm.c:281-298 | freevm returns every frame of the address space to the free list exactly once. |
| PageTables.Vm.GrowProc | cs350-21f-proj2-psammon-main/proc.c:175-192 | sbrk's size and pages: pages at or above the size are never mapped, pages below both sizes keep frame and permissions; growing succeeds exactly below KERNBASE with frames enough; the mapped pages stay exactly those below the size if and only if the call does not shrink to exactly 0, which is reported as a failure though the pages are gone. |
| PageTables.ShrinkToNothing | cs350-21f-proj2-psammon-main/proc.c:175-192 | A concrete run: a process of one page shrinks to nothing, the call fails, and the page is gone below the size that stays. |
| PageTables.Vm.Life | cs350-21f-proj2-psammon-main/vm.c:117-298 | After setup, any sequence of grows and shrinks, and teardown, the free list is a permutation of what it was. |
| PageTables.Vm.FreeRange | cs350-21f-proj2-psammon-main/kalloc.c:46-53 | Every whole page of the range becomes free, once. |
| PageTables.NoAliasing | cs350-21f-proj2-psammon-main/vm.c:219-249 | Two user pages never share a frame, and none lies in a free frame, a table or the directory. |
| PageTables.TableAdded | cs350-21f-proj2-psammon-main/vm.c:45-53 | A fresh zeroed table keeps every page's mapping and the account of frames. |
| PageTables.LeafAdded | cs350-21f-proj2-psammon-main/vm.c:71-73 | A fresh frame in an absent entry keeps the account: no frame used twice. |
| PageTables.LeafRemoved | cs350-21f-proj2-psammon-main/vm.c:269-276 | A cleared entry takes exactly its frame out of the account. |
| PageTables.SkipTable | cs350-21f-proj2-psammon-main/vm.c:266-268 | Every page the skip jumps over is absent. |
| ShellGrammar.RoundTrip | cs350-21f-proj2-psammon-main/sh.c:327-446 | For every command tree with at most nine words per command, nonempty words free of blanks, symbols and NUL, and the redirection modes the parser builds, parsing its printing succeeds and gives that tree. The printing puts parentheses only where the binding of |, & and ; asks for them, and besides at any other places one likes. |
| ShellGrammar.LineParses | cs350-21f-proj2-psammon-main/sh.c:344-446 | The same wherever the printing stands in a line, before its end or a closing parenthesis, with the cursor stopping right behind it. |
| ShellGrammar.ParsedIsClean | cs350-21f-proj2-psammon-main/sh.c:327-446 | Every tree the parser yields, from any line, is such a tree, and printing it, with any choice of optional parentheses, and parsing that gives it back: the parser's range is exactly the trees of the round trip. |
| ShellGrammar.PipeBinds | cs350-21f-proj2-psammon-main/sh.c:344-372 | | binds more tightly than ; and &: a | b ; r is the list of the pipe and r, and a | b & is the pipe in the background. |
| ShellGrammar.AppendReads | cs350-21f-proj2-psammon-main/sh.c:374-397 | A redirection after >> is read like one after >, without truncation or append mode. |
| ShellGrammar.TooManyArgs | cs350-21f-proj2-psammon-main/sh.c:415-446 | A command of ten words or more dies with "too many args". |
| ShellGrammar.ParenBehind | cs350-21f-proj2-psammon-main/sh.c:415-446 | A parenthesis behind a command's words dies with "syntax". |
| ShellGrammar.Leftovers | cs350-21f-proj2-psammon-main/sh.c:327-342 | A closing parenthesis too many, behind any command line, dies with "syntax". |
| ShellGrammar.Unclosed | cs350-21f-proj2-psammon-main/sh.c:399-413 | An opening one too many, before any command line, dies with "syntax - missing )". |
| ShellGrammar.MissingFile | cs350-21f-proj2-psammon-main/sh.c:374-397 | A redirection without a word behind it dies with "missing file for redirection". |
| ShellGrammar.TerminatedReads | cs350-21f-proj2-psammon-main/sh.c:448-493 | The NULs written by nulterminate spoil no word: read as C strings, all words of the parsed tree are the pieces of the line it was parsed from. |
| ShellParser.Shell.GetToken | cs350-21f-proj2-psammon-main/sh.c:265-308 | gettoken yields the token the grammar gives and moves the cursor past it and the blanks behind it. |
| ShellParser.Shell.Peek | cs350-21f-proj2-psammon-main/sh.c:310-320 | peek skips blanks and says whether one of the characters is next. |
| ShellParser.Shell.ParseRedirs | cs350-21f-proj2-psammon-main/sh.c:374-397 | parseredirs stacks one node for each redirection on the newest node, in order, or dies for want of a file name. |
| ShellParser.Shell.ParseLine | cs350-21f-proj2-psammon-main/sh.c:344-359 | parseline terminates on every line and builds, from the newest node down, the tree of the grammar, or dies with its reason. |
| ShellParser.Shell.ParsePipe | cs350-21f-proj2-psammon-main/sh.c:361-372 | The same for pipes, which nest to the right; `ShellGrammar.PipeBinds` and the round trip say how tightly. |
| ShellParser.Shell.ParseExec | cs350-21f-proj2-psammon-main/sh.c:415-446 | The same for simple commands, whose node is filled in after redirections have been stacked on it. |
| ShellParser.Shell.ParseBlock | cs350-21f-proj2-psammon-main/sh.c:399-413 | The same for parenthesised lines. |
| ShellParser.Shell.NulTerminate | cs350-21f-proj2-psammon-main/sh.c:448-493 | Exactly one NUL is written behind each word of the tree. |
| ShellParser.Shell.ParseCmd | cs350-21f-proj2-psammon-main/sh.c:327-342 | parsecmd yields the tree of the grammar with every word a C string of its own, or dies with the grammar's reason. |
| ShellParser.LinksWrap | cs350-21f-proj2-psammon-main/sh.c:374-397 | Redirection nodes stacked behind a node read as the tree wrapped in those redirections, the last one outermost. |
| SleepWakeup.NoLostWakeup | cs350-21f-proj2-psammon-main/proc.c:552-609 | For any number of processes and any interleaving, kills included, no process is asleep with the condition true unless a wakeup that will still look at it is on its way. |
| SleepWakeup.NeverStuck | cs350-21f-proj2-psammon-main/proc.c:552-609 | From such a state the other processes can always go on until the sleeper has been woken. |
| SleepWakeup.WakeupArrives | cs350-21f-proj2-psammon-main/proc.c:592-609 | A pending wakeup can be driven to the sleeper by steps of the others alone. |
| SleepWakeup.Keep | cs350-21f-proj2-psammon-main/proc.c:552-609 | Every step keeps the invariant: the locks are held by who thinks so, who is about to sleep saw the condition false, and every sleeper is covered. |
| SleepWakeup.CoveredKeep | cs350-21f-proj2-psammon-main/proc.c:569-577 | Coverage of one sleeper, through sleep's hand-over from lk to ptable.lock and wakeup1's scan. |
| Processes.Table.Exit | cs350-21f-proj2-psammon-main/proc.c:268-285 | exit makes the process a zombie, wakes a parent asleep in wait, passes all children to init and wakes init for a zombie among them; every other field of every slot stays; no live process is left with a parent that is gone, and nobody asleep in wait has a zombie child. |
| Processes.ExitKeeps | cs350-21f-proj2-psammon-main/proc.c:268-285 | The table invariant across exit: every process in use but init has a live parent; whoever sleeps in wait has a child and no zombie child; pids differ. |
| Processes.Table.Wait | cs350-21f-proj2-psammon-main/proc.c:288-330 | One pass of wait reaps the first zombie child, returns its pid and leaves its slot free, without pid and unmarked, or returns -1 exactly without children or when killed, or sleeps having a child and no zombie child. |
| Processes.ReapKeeps | cs350-21f-proj2-psammon-main/proc.c:305-319 | Freeing a zombie's slot keeps the table invariant. |
| Processes.ReapedClean | cs350-21f-proj2-psammon-main/proc.c:304-314 | Reaping keeps the slots out of use free of kill marks. |
| Processes.WaitKeeps | cs350-21f-proj2-psammon-main/proc.c:321-328 | Going to sleep in wait keeps the table invariant. |
| Processes.Table.AllocProc | cs350-21f-proj2-psammon-main/proc.c:95-107 | The first unused slot is reserved with a pid no other slot has. |
| Processes.Table.FinishFork | cs350-21f-proj2-psammon-main/proc.c:216-234 | The child becomes runnable with a live parent. |
| Processes.ForkKeeps | cs350-21f-proj2-psammon-main/proc.c:216-234 | Making the child runnable keeps the table invariant. |
| Processes.Table.Wakeup1 | cs350-21f-proj2-psammon-main/proc.c:592-600 | Exactly the processes asleep on the channel become runnable. |
| Processes.Table.Kill | cs350-21f-proj2-psammon-main/proc.c:614-632 | kill marks the first slot with the pid and, if it sleeps, makes it runnable, and changes no other slot; -1 exactly when no slot has the pid, and then nothing changes. |
| Processes.KillWakes | cs350-21f-proj2-psammon-main/proc.c:614-632 | After kill the slot found is marked and not asleep, and every other slot is as it was. |
| Processes.KillClean | cs350-21f-proj2-psammon-main/proc.c:614-632 | kill leaves slots out of use unmarked if and only if the first slot with that pid, if any, is in use: it does not look at the state. |
| Processes.KillZero | cs350-21f-proj2-psammon-main/proc.c:614-632 | kill(0) marks the slot the next fork takes: that child is born killed. |
| Processes.QuietKeeps | cs350-21f-proj2-psammon-main/proc.c:504-609 | Moves among sleeping, runnable and running keep the table invariant. |
| Processes.Table.UpdateTickets | cs350-21f-proj2-psammon-main/proc.c:363-376 | Every competitor gets 100 divided by their number, at least 1, and nobody else changes. |
| Processes.RunnersCount | cs350-21f-proj2-psammon-main/proc.c:363-376 | The competitors that the shares count are exactly the runnable and running processes. |
| Processes.Table.GetMinProc | cs350-21f-proj2-psammon-main/proc.c:332-361 | The first runnable process with the least pass, or none exactly when nobody is runnable. |
| Processes.Table.Schedule | cs350-21f-proj2-psammon-main/proc.c:422-444 | One stride decision: tickets, then the minimum runs, its state Running, and its pass grows by 1000 over its tickets; nobody else's pass changes; the divisor is never 0. |
| Stride.Fair | cs350-21f-proj2-psammon-main/proc.c:332-376 | Starting level on one CPU, after k decisions among n always-runnable processes each has run k/n times, rounded down or up. |
| Stride.Spread | cs350-21f-proj2-psammon-main/proc.c:422-444 | From any passes the spread never exceeds the larger of the first spread and one stride. |
| Stride.NoStarvation | cs350-21f-proj2-psammon-main/proc.c:422-444 | From any passes the numbers of turns of two processes differ by a bound that does not grow with the run. |
| Stride.Tally | cs350-21f-proj2-psammon-main/proc.c:422-444 | A pass is where it started plus one stride for each turn. |
| Stride.TotalIs | cs350-21f-proj2-psammon-main/proc.c:422-444 | The turns of all processes add up to the number of decisions. |
| Pipe.Pipe.Write | cs350-21f-proj2-psammon-main/pipe.c:77-98 | What a writer does until it returns or sleeps: it stores exactly the next bytes while there is room, across counter wrap-around; it is done when all are stored, fails when the pipe is full and nobody can read or it was killed, and else sleeps having woken the readers; a reader is left asleep beside bytes if and only if one sleeps, the bytes to write exceed the pipe's size, and the writer was killed or nobody can read. |
| Pipe.Pipe.Read | cs350-21f-proj2-psammon-main/pipe.c:100-121 | What a reader does until it returns or sleeps: it fails or sleeps exactly while the pipe is empty and can be written; else it gets the oldest bytes, as many as asked for or there are; a read of n > 0 returns 0 only when drained with the write end closed. |
| Pipe.Pipe.Close | cs350-21f-proj2-psammon-main/pipe.c:59-75 | Closing an end, in any state of the pipe, wakes all who wait for it, a reader stranded beside bytes too; the pipe is given back exactly when both are closed. |
| Pipe.Pipe.Kill | cs350-21f-proj2-psammon-main/proc.c:614-632 | kill wakes exactly its process, and nobody is left asleep wrongly. |
| Pipe.Pipe.Put | cs350-21f-proj2-psammon-main/pipe.c:93 | A byte stored at the wrapped counter's place follows all bytes stored before and overwrites none that is buffered. |
| Pipe.Pipe.Get | cs350-21f-proj2-psammon-main/pipe.c:116 | The byte read is the oldest one buffered. |
| Pipe.StrandReader | cs350-21f-proj2-psammon-main/pipe.c:83-98 | A concrete run: a killed writer fills the pipe and returns, and the reader sleeps on beside 512 bytes. |
| Pipe.RescueReader | cs350-21f-proj2-psammon-main/pipe.c:59-75 | The run goes on: the write end closes when the writer exits, and the reader, woken, gets its byte. |
| Pipe.KilledReader | cs350-21f-proj2-psammon-main/pipe.c:100-110 | A reader asleep on an empty pipe and then killed does not sleep again: its read fails. |
| Grep.Match | cs350-21f-proj2-psammon-main/grep.c:72-82 | match answers 1 if and only if the pattern, cut into items, matches some stretch of the text: at its beginning after ^, anywhere otherwise, up to its end before a final $. |
| Grep.MatchHere | cs350-21f-proj2-psammon-main/grep.c:84-96 | matchhere decides matching at the beginning of the text, and ends on every input. |
| Grep.MatchStar | cs350-21f-proj2-psammon-main/grep.c:98-106 | matchstar decides whether some number of accepted characters leads to a match of the rest. |
| Grep.HereStar | cs350-21f-proj2-psammon-main/grep.c:89-90 | In the declarative semantics a starred item takes any number of accepted characters. |
| Grep.HereOne | cs350-21f-proj2-psammon-main/grep.c:93-94 | A single item takes one accepted character. |
| Grep.HereEnd | cs350-21f-proj2-psammon-main/grep.c:91-92 | A lone $ matches exactly the empty rest. |
| Grep.PlainFound | cs350-21f-proj2-psammon-main/grep.c:72-96 | A pattern of ordinary characters is found exactly where it occurs as a piece of the text; after ^ exactly at its beginning, before $ at its end, between both only if it is the text. |
| Grep.DotAndStar | cs350-21f-proj2-psammon-main/grep.c:84-106 | A dot takes any one character, a starred dot any number, a starred character only itself. |

## Left out

- RedoLog.Log.EndOp: the readers beside a commit hold neither a logged block nor a block of the log, for which `commit` would wait in `acquiresleep`, and none comes or goes while it runs.
- BufferCache.Bcache.Bread: `holdingsleep` checks only that some process holds the lock, the model's `Held` that a reference is held; which of several waiting processes gets the lock is not modelled.
- BufferCache.Bcache.Bget: returns null where the kernel panics for want of a buffer; device 0, which `binit` leaves in every buffer, is excluded.
- FileSystem.Fs.Writei: the inode and its buffers are those of one process (sleep locks are not modelled); a file larger than MAXFILE blocks, which `writei` never makes, is excluded.
- FileSystem.Fs.Readi: a file larger than MAXFILE blocks, for which `bmap` panics, is excluded.
- FileSystem.Fs.Filewrite: the file has no holes, which every operation keeps and on which the bound of ten blocks rests; log_write's panics are excluded by it. Pipes and devices behind a file are not followed; a negative count is not modelled.
- FileSystem.Fs.Truncate: `iput` calls `itrunc` when the last reference goes; the reference counts and the freeing of the inode itself are left out.
- FsLog.CrashConsistent: that memory is consistent when a commit starts is a hypothesis where operations overlap; locking of inodes and buffers between them is not modelled. For operations one after the other `FsLog.SerialCrash` needs none.
- FileSystem.Fs.BeginOp: runs when nothing else is running; `filewrite` and truncation are calls of a lone process. The log has room for one operation, as every log of more than ten blocks has.
- LogWait.NeverStuck: which of several woken processes gets in first is not decided, so that one of them may wait for ever.
- KrAllocator.Heap.Malloc: sizes that overflow 32 bits are not modelled.
- PageTables.Vm.MapPages: a range that wraps around the address space and frames that are in use already are excluded, as by all callers; entries are a frame and permission bits rather than one packed word; contents of user pages are not modelled.
- PageTables.Vm.SetupKvm: one address space at a time; the frames of others are neither free nor its own, and no method touches them.
- PageTables.Vm.AllocUvm: the pages to be added are not mapped before, else `mappages` panics with "remap".
- ShellParser.Shell.ParseCmd: `malloc` always succeeds; after a panic nothing is said of the line. `>>` is parsed like `>`, as in the code.
- SleepWakeup.NoLostWakeup: one lock, one channel and a counted condition; spinlocks are atomic steps, and memory ordering is not modelled.
- Processes.Table.FinishFork: the assignment of the parent and of the state are one step; copying memory and files is left out.
- Stride.Fair: passes are unbounded integers; processes that block, exit or join during the run are not covered.
- Pipe.Pipe.Write: the copying of user memory is a sequence argument; negative counts are not modelled.
- `copyuvm`, `exec`, `loaduvm`, `switchuvm` and the failure path of `copyuvm`, which loses a frame.
- Directories, path names, `ialloc`, `iget`, `iput` and link counts.
- `grep`'s line buffering, `runcmd`, and every other user program.
- Boot, traps, interrupt controllers, the IDE driver, the console, spinlock internals and `swtch`.
- The unfinished allocator of proj4 and the shell of proj3, whose parser is a part of this one.
