# xv6 in Dafny

Models of the core of an xv6 kernel and its user-level library, with proofs. The kernel is xv6 for x86 extended
with triple-indirect files, a combined MLFQ and stride scheduler, threads, semaphores, a reader-writer lock and
pread/pwrite. Each C object whose fields are updated in place is a class, each loop a loop with invariants, and each
protocol between processes a step machine; what the code promises is stated against independent definitions
(byte sequences, page maps, block stores, languages, runs).

| files | component |
|---|---|
| Basics | small shared functions |
| Blocks, BufferCache | disk blocks; `bio.c` over the memory disk `memide.c` |
| Recovery, Log, GroupCommit | the redo log of `log.c`, crashes anywhere, and the interleaving of operations |
| FileBytes, BlockMap, BlockTree, FileContent, Inode | files of `fs.c` and `file.c` as byte sequences over the inode block tree |
| Counting, RwLock, GuardedFile | semaphores and the reader-writer lock of `proc.c`; `thread_safe_guard.c` |
| Scheduler, Fairness, Shares | the scheduler of `proc.c` |
| FreeList, Umalloc, Heap | `umalloc.c` |
| PageTable, Kmem, AddressSpace, Vm, CopyVm | `vm.c` over `kalloc.c` |
| ShellGrammar, ShellWords, ShellLexer, ShellSyntax, ShellRoundTrip, ShellTokens, Shell | the parser of `sh.c`, and the language it accepts |
| Grep, Pipe, PipeWakeups | the matcher of `grep.c`; `pipe.c` |

## Where the code departs from its intent

- `fs.c` line 441 masks where the decomposition needs a remainder. The block map is injective exactly for files of at
  most 16523 blocks (`BlockMap.PathInjectiveExactly`); from block 16522 on all walks of a file without holes are one,
  and from block 32906 on they leave their index block (`BlockMap.WalksMeet`). Beyond 16523 blocks some file contents
  cannot be stored at all (`FileContent.LongContentImpossible`), and a write is a plain overwrite or extension if and
  only if the bytes it should leave in the shared block agree (`FileBytes.StoreIsWriteExactly`,
  `FileBytes.TailWriteShowsTwice`). readi, writei, filepwrite and the guarded calls are stated for the walks as written.
  With a remainder the map is one to one below MAXFILE.
- `log.c` line 218 tests `log.size - 1`. What begin_op reserves can be logged in every run exactly when the log area has
  more than LOGSIZE blocks, and mkfs makes it LOGSIZE blocks (`GroupCommit.ReservationNeedsLargerLog`). The same test
  runs before absorption, so rewriting a logged block panics in a full log (`GroupCommit.AbsorptionPanicsWhenFull`).
- NBUF equals LOGSIZE. A group of NBUF blocks pins every buffer, and commit panics on exactly such a group
  (`Log.Log.Commit`). A log area that honours the reservation lets one arise
  (`GroupCommit.HonouredLogPinsEveryBuffer`).
- `proc.c` line 1025 overwrites CPU_SHARE before line 1026 subtracts it (`Shares.SecondShareBreaksTotal`), and
  thread_exit never gives a share back (`Shares.ThreadExitLeaksShare`).
- The selection loops return slot 0 when the scan sees nothing, and a LOW process at 1000 ticks is not seen. A stride
  slot that falls to a process without a share divides by zero. Both happen in runs from boot
  (`Shares.LowProcessVanishes`, `Shares.StrideTrapReachable`); `Scheduler.RoundAhead` and
  `Shares.RoundAheadReachable` say exactly when, of the state before the round.
- malloc's rounding wraps for the seven largest requests (`Umalloc.UnitsSuffice`).
- pipewrite returns -1 without waking readers after filling the pipe (`PipeWakeups.KilledWriterStrandsReader`);
  sleepers are safe exactly when no such step happens (`PipeWakeups.StepKeepsSleepers`).

## Model

| member | source | states |
|---|---|---|
| BufferCache.LinkFront | xv6-public/bio.c:50-54 | linking a buffer in behind the head turns the circular list into the same list with that buffer first, both directions |
| BufferCache.Unlink | xv6-public/bio.c:130-132 | unlinking a buffer leaves the other buffers on the circular list, in their order, both directions |
| BufferCache.WithoutThenFrontFull | xv6-public/bio.c:130-138 | taking a buffer out and putting it first keeps every buffer on the list exactly once |
| BufferCache.SameKeys | xv6-public/bio.c:61-93 | a change that renames no buffer keeps each disk block in at most one buffer |
| BufferCache.ContentOfHeld | xv6-public/bio.c:96-106 | with at most one buffer per block, the latest contents of a cached block are the data of the buffer that holds it, and it is pinned exactly when that buffer is dirty |
| BufferCache.UnpinnedIsOnDisk | xv6-public/bio.c:81-91 | a block that is neither pinned nor in a locked buffer reads as it is on disk, so recycling a clean buffer loses nothing |
| BufferCache.SteadyIsOnDisk | xv6-public/bio.c:96-106 | where the buffers that others hold only read, every unpinned block reads as it is on disk |
| BufferCache.TransferView | xv6-public/memide.c:38-60 | moving a block between buffer and disk, either way, changes the latest contents of no block and unpins exactly that block |
| BufferCache.SameView | xv6-public/bio.c:69-76 | taking or dropping a reference changes no contents and pins nothing |
| BufferCache.RecycleView | xv6-public/bio.c:81-91 | renaming a clean unreferenced buffer keeps every block in at most one buffer and loses no contents |
| BufferCache.SecondUse | xv6-public/bio.c:61-93 | after one block has taken a buffer, a buffer is left for a second block exactly when there was room for both |
| BufferCache.StillSteady | xv6-public/bio.c:109-141 | writing a block from the only buffer that holds it keeps every other buffer in step with the disk |
| BufferCache.StillUntaken | xv6-public/bio.c:120-141 | using and releasing two buffers leaves no block locked that was not locked before |
| BufferCache.Cache.constructor | xv6-public/bio.c:38-56 | binit: the list is a circular permutation of all buffers, nothing is cached, pinned, held or referenced |
| BufferCache.Cache.LinkAll | xv6-public/bio.c:46-55 | the loop of binit puts every buffer on the circular list exactly once |
| BufferCache.Cache.FindCached | xv6-public/bio.c:69-76 | the search along next finds the buffer holding the block, or proves that no buffer does |
| BufferCache.Cache.FindRecyclable | xv6-public/bio.c:81-91 | the search along prev finds the least recently used buffer that is clean and unreferenced, or proves that there is none |
| BufferCache.Cache.BgetRef | xv6-public/bio.c:61-93 | bget: a cached block gets one more reference, otherwise the least recently used clean buffer is renamed; it panics exactly when neither exists; no contents and no pin change |
| BufferCache.Cache.AcquireSleep | xv6-public/bio.c:74-75 | locking a free buffer changes nothing else |
| BufferCache.Cache.Iderw | xv6-public/memide.c:38-60 | iderw: writes a dirty buffer to its block or fills an invalid one from it, panics exactly under the four tests of the source, and leaves the latest contents of every block unchanged |
| BufferCache.Cache.Bread | xv6-public/bio.c:96-106 | bread returns a locked buffer with the latest contents written for the block, succeeds exactly when the block exists and a buffer holds it or can be recycled, writes nothing to disk, changes no pin |
| BufferCache.Cache.SetData | xv6-public/bio.c:96-116 | what the holder stores becomes the latest contents of that block and of no other |
| BufferCache.Cache.MarkDirty | xv6-public/log.c:231-231 | setting B_DIRTY pins exactly that block |
| BufferCache.Cache.Bwrite | xv6-public/bio.c:109-116 | bwrite panics exactly when the buffer is not locked; otherwise the disk block becomes the buffer data in one block write and the block is no longer pinned |
| BufferCache.Cache.Brelse | xv6-public/bio.c:120-141 | brelse panics exactly when the buffer is not locked; the last holder moves the buffer to the front and no contents or pins change; the cache stays coherent if what the holder changed was logged or written |
| BufferCache.Cache.MoveToFront | xv6-public/bio.c:130-138 | the list surgery of brelse yields the same circular list with the buffer moved to the front |
| BufferCache.Cache.BreadTwo | xv6-public/log.c:75-76 | two blocks that nobody has locked can be held at once, whatever else is locked, exactly when both exist and there are two different usable buffers |
| BufferCache.Cache.WriteBack | xv6-public/log.c:101-113 | the holder of a buffer fills it, writes it in one disk write, and gives it back |
| BufferCache.Cache.CopyHeld | xv6-public/log.c:77-80 | memmove between two held buffers, bwrite, brelse, brelse: the target block becomes the source contents on disk and in the cache |
| BufferCache.Cache.CopyBlock | xv6-public/log.c:75-80 | bread, bread, memmove, bwrite, brelse, brelse copies the latest contents of one block to another in one disk write, unpins the target only, disturbs no buffer that others hold, and fails exactly when a block is out of range or two buffers are not to be had |
| Recovery.ReplayAgrees | xv6-public/log.c:69-82 | disks that differ only in blocks the log still has to install agree on everything already installed |
| Recovery.ReplayTouches | xv6-public/log.c:69-82 | install_trans touches only blocks that the header names |
| Recovery.ReplayWellFormed | xv6-public/log.c:69-82 | a partly installed log is still a log with the same header |
| Recovery.RecoveryRestarts | xv6-public/log.c:115-122 | a crash after any block write of recovery loses nothing: recovering again gives the same disk |
| Recovery.CrashesDuringRecovery | xv6-public/log.c:115-122 | after any number of interrupted recoveries the one that completes gives the result of an uninterrupted one |
| Log.UncommittedRecoversToOld | xv6-public/log.c:177-202 | while the header on disk says n = 0, whatever write_log has put in the log blocks, recovery yields the old home contents |
| Log.ReplayReaches | xv6-public/log.c:69-82 | after k installed blocks only blocks named later can differ from the committed contents |
| Log.CommittedRecoversToNew | xv6-public/log.c:101-113 | once the header is written, recovery yields exactly the contents of the transaction |
| Log.CrashAtomicity | xv6-public/log.c:69-202 | stop a commit after any block write, then interrupt recovery any number of times: the recovery that completes leaves all home blocks as before the transaction or all as after it, and the header with n = 0 |
| Log.HeaderCommits | xv6-public/log.c:101-113 | the one-block header write turns a filled log into a committed transaction |
| Log.PhasesSwitch | xv6-public/log.c:192-202 | over the block writes of a commit the recovered contents switch from old to new exactly once, at the header write |
| Log.FilledStep | xv6-public/log.c:177-190 | each round of write_log copies one more logged block and touches log data blocks only |
| Log.ReplayOne | xv6-public/log.c:74-81 | one more installed block, read from the disk as it is by then, is the next image of the replay |
| Log.Log.WriteLog | xv6-public/log.c:177-190 | write_log, while others may hold buffers that agree with the disk: the log holds the cached contents of every named block, every image on the way differs from the old disk in log data only; in a quiet cache it panics exactly when no buffer is clean |
| Log.Log.CopyToLog | xv6-public/log.c:183-188 | one round of write_log: one log block becomes the cached contents of one named block |
| Log.Log.WriteHead | xv6-public/log.c:101-113 | write_head: one disk write after which the header block holds n and the named blocks and is otherwise unchanged; it panics exactly when no buffer can be had |
| Log.Log.NewHead | xv6-public/log.c:107-110 | the loop of write_head puts n and the named blocks into the header and leaves the rest of it |
| Log.HeadReleased | xv6-public/log.c:111-112 | one buffer used, written and given back: others keep theirs, the cache stays in step with the disk, a quiet cache stays quiet |
| Log.Log.ReadHead | xv6-public/log.c:85-96 | read_head: the in-memory header equals the one on disk, nothing else changes |
| Log.Log.CopyFromLog | xv6-public/log.c:75-80 | one round of install_trans: the named home block becomes its log block, and is unpinned |
| Log.Log.InstallTrans | xv6-public/log.c:69-82 | install_trans: the disk passes through the successive replays of the log, and the named blocks end up unpinned; with a clean buffer beside the pinned ones it does not panic |
| Log.Log.InstallAndClear | xv6-public/log.c:115-122 | install, n = 0, write_head: the images are those of recovery in order, and the last one is the recovered disk |
| Log.Log.RecoverFromLog | xv6-public/log.c:115-122 | recover_from_log at boot leaves exactly the recovered disk, with every image on the way a recovery image, and does not panic |
| Log.Log.Commit | xv6-public/log.c:192-202 | commit, while others may hold buffers of blocks outside the log and the group: every disk image on the way recovers to the old home contents or to the cached ones, switching once; afterwards home is the cached contents, nothing is pinned and n = 0; in a quiet cache it panics exactly when the group has NBUF blocks |
| Log.Log.BeginOp | xv6-public/log.c:125-141 | begin_op enters exactly when no commit runs and the reservation of all operations fits LOGSIZE |
| Log.Log.LogWrite | xv6-public/log.c:213-233 | log_write panics exactly under its two tests; otherwise it pins the block and names it in the header once, absorbing repeats, and writes nothing to disk |
| Log.Log.EndOp | xv6-public/log.c:145-174 | end_op of the last operation makes the group one transaction on disk (all images switch once from old to new contents); an earlier end_op writes nothing, whoever holds buffers |
| Log.Log.ViewOfPinned | xv6-public/log.c:228-231 | with exactly the logged blocks pinned, cache and disk differ on those blocks at most |
| Log.RoomToLog | xv6-public/log.c:182-189 | in a quiet cache copying a pinned block to the log needs exactly one clean buffer |
| Log.PinnedBuffers | xv6-public/param.h:10-12 | with one pinned buffer per named block a clean buffer is left exactly when fewer than NBUF blocks are named |
| GroupCommit.StepKeepsInv | xv6-public/log.c:125-233 | every step of begin_op, log_write, end_op and the end of a commit keeps: logged blocks plus unused budgets at most LOGSIZE, a commit runs with no operation outstanding, an idle log is empty |
| GroupCommit.BeginKeepsInv | xv6-public/log.c:125-141 | admitting an operation reserves its whole budget within LOGSIZE |
| GroupCommit.WriteKeepsInv | xv6-public/log.c:213-233 | logging a block within the budget keeps the reservation, whether the block is new or absorbed |
| GroupCommit.EndKeepsInv | xv6-public/log.c:145-174 | ending an operation frees its reservation, and the last one starts a commit that runs alone |
| GroupCommit.GroupCommitSafety | xv6-public/log.c:125-233 | the group-commit invariant holds in every state of every interleaving of any number of operations |
| GroupCommit.WaiterIsAdmitted | xv6-public/log.c:129-139 | a refused begin_op waits for an operation or a commit that can move; with neither left it is admitted |
| GroupCommit.FreshFits | xv6-public/log.c:218-219 | in a log area larger than LOGSIZE an operation within its budget can always log a fresh block |
| GroupCommit.FilledReachable | xv6-public/log.c:125-233 | three operations can fill the log block by block up to its capacity |
| GroupCommit.ReservationNeedsLargerLog | xv6-public/mkfs.c:25-25 | the reservation of begin_op is honoured by log_write in every run if and only if the log area has more than LOGSIZE blocks; mkfs makes it exactly LOGSIZE |
| GroupCommit.AbsorptionPanicsWhenFull | xv6-public/log.c:218-227 | even then, writing a block that is already logged panics when the log is full, because the test precedes absorption |
| GroupCommit.HonouredLogPinsEveryBuffer | xv6-public/param.h:10-12 | whenever the reservation is honoured a group of NBUF blocks is reachable, and commit panics on exactly those, so no size of the log area makes both safe |
| RwLock.StepKeepsInv | xv6-public/proc.c:1372-1456 | every xchg, load, store and branch of every thread keeps the lock invariant: one holder of lock, readers counts the threads between increment and decrement, and the readers hold writelock as a group exactly when they should |
| RwLock.OutsideKeepsInv | xv6-public/proc.c:1385-1399 | waiting for the inner lock keeps the invariant |
| RwLock.EntryKeepsInv | xv6-public/proc.c:1425-1434 | the steps of acquiring a read lock keep the invariant |
| RwLock.ExitKeepsInv | xv6-public/proc.c:1435-1444 | the steps of releasing a read lock keep the invariant |
| RwLock.WriterKeepsInv | xv6-public/proc.c:1446-1456 | the steps of the write lock keep the invariant |
| RwLock.InitInv | xv6-public/proc.c:1417-1423 | rwlock_init establishes the invariant for any number of threads |
| RwLock.ReachableInv | xv6-public/proc.c:1372-1456 | the invariant holds in every state of every interleaving of any number of threads |
| RwLock.ReaderWriterExclusion | xv6-public/proc.c:1425-1456 | in every reachable state there is never a writer beside a reader or another writer, and readers is the number of counted threads |
| RwLock.GroupIsBit | xv6-public/proc.c:1428-1431 | at most one party, a writer or the readers together, holds writelock |
| RwLock.ReadersHoldWritelock | xv6-public/proc.c:1428-1431 | while some thread reads, the readers hold writelock |
| RwLock.UnlocksSucceed | xv6-public/proc.c:1401-1415 | every unlock by a holder succeeds on its first xchg |
| RwLock.NoDeadlock | xv6-public/proc.c:1372-1456 | no reachable state with a thread inside is deadlocked |
| RwLock.ReaderEnters | xv6-public/proc.c:1425-1434 | a reader that finds the inner lock free and another reader inside gets in by its own five steps |
| RwLock.HolderAdvances | xv6-public/proc.c:1425-1444 | while a thread reads, every step of whoever holds the inner lock brings it nearer to releasing it |
| RwLock.ReadersShare | xv6-public/proc.c:1425-1434 | readers do not block readers: from every reachable state in which a thread reads, a thread that asks to read gets in while that one goes on reading, by its own steps and those of the holder of the inner lock at most |
| RwLock.AllCanRead | xv6-public/proc.c:1425-1434 | for every n a state in which all n threads read is reachable |
| RwLock.WriterEnters | xv6-public/proc.c:1446-1456 | a writer that finds no reader and no writer gets in with its first xchg |
| FileBytes.WritesCompose | xv6-public/file.c:198-215 | two adjoining writes are one write, also through the shared block |
| FileBytes.ReadiReturns | xv6-public/fs.c:583-607 | readi returns -1 exactly for an offset behind the end or an end that wraps in 32 bits; otherwise the smaller of n and the rest of the file in bytes, byte i being byte off + i |
| FileBytes.WriteiOutcome | xv6-public/fs.c:612-642 | what decides between refusal, a stray block and a write, and that a write within 16523 blocks is the plain one |
| FileBytes.ReadAfterWrite | xv6-public/fs.c:583-642 | reading back what was written returns it whenever the write is a plain one |
| FileBytes.ReadAfterShortWrite | xv6-public/fs.c:583-642 | within 16523 blocks reading back what was written returns it, and bytes outside the write read as before |
| FileBytes.ChunkBudget | xv6-public/file.c:190-197 | a chunk of filepwrite reaches into at most four blocks, which with their bitmap blocks, the inode and an index block is MAXOPBLOCKS; a block more would not fit |
| FileBytes.SecondWrite | xv6-public/file.c:198-215 | byte by byte, a second adjoining write stores what one longer write stores |
| FileBytes.StoreConsistent | xv6-public/fs.c:441-441 | a write keeps the bytes of the shared block in agreement |
| FileBytes.StoreIsWriteExactly | xv6-public/fs.c:441-441 | what writei as written leaves is the plain overwrite or extension if and only if the bytes that would leave in the blocks that share a walk agree |
| FileBytes.ShortStoreIsWrite | xv6-public/fs.c:612-642 | within 16523 blocks writei is the plain overwrite or extension |
| FileBytes.TailWriteShowsTwice | xv6-public/fs.c:441-441 | one byte written behind a file of 16523 zero blocks also shows 512 bytes earlier |
| FileBytes.PutMore | xv6-public/file.c:198-215 | the next chunk takes the file from the first i bytes written to the first i + n bytes written |
| FileBytes.FilePwrite | xv6-public/file.c:179-219 | the loop of filepwrite: a write that fits is one whole write, one past the end leaves nothing and returns -1, one that reaches the stray blocks of fs.c line 441 gets exactly its whole chunks before them down |
| FileBytes.WholeWrite | xv6-public/file.c:179-219 | the caller can tell: filepwrite gets everything down if and only if the offset is within the file and the end below the stray blocks, and then it is the plain overwrite or extension if and only if the bytes that would leave in the shared block agree; within 16523 blocks it always is |
| FileBytes.StoppedAt | xv6-public/file.c:205-213 | where the first chunk that does not go down stops the loop |
| GuardedFile.StepKeepsInv | xv6-public/thread_safe_guard.c:18-36 | every step keeps: the file is the complete writes in order plus the chunks of at most one writer, and every read result is justified |
| GuardedFile.ChunkKeepsPartial | xv6-public/file.c:198-215 | a chunk takes a partial write one chunk further or stops it for good |
| GuardedFile.FinishedIsApplied | xv6-public/thread_safe_guard.c:28-36 | a write whose chunks are done is one whole pwrite |
| GuardedFile.DoReadKeepsInv | xv6-public/thread_safe_guard.c:18-26 | a read inside the guard sees the content between two complete writes |
| GuardedFile.DoChunkKeepsInv | xv6-public/thread_safe_guard.c:28-36 | a chunk inside the guard keeps every earlier read justified |
| GuardedFile.LeaveWritingKeepsInv | xv6-public/thread_safe_guard.c:28-36 | releasing the write lock adds the write to the order |
| GuardedFile.LockStepKeepsInv | xv6-public/thread_safe_guard.c:18-36 | the lock steps of the two calls keep the file and the results |
| GuardedFile.ReachableInv | xv6-public/thread_safe_guard.c:18-36 | the invariant holds in every state of every run |
| GuardedFile.GuardedReadsAreAtomic | xv6-public/thread_safe_guard.c:18-36 | in every run of any number of threads every pread returns what readi returns on the content left by some number of complete pwrites in one fixed order, never anything in between, although filepwrite splits writes into 1536-byte transactions; writes have the effect fs.c as written gives them |
| GuardedFile.StepTracks | xv6-public/thread_safe_guard.c:18-36 | a step that leaves a section records the call that the thread made, with its arguments |
| GuardedFile.CallsTakeEffect | xv6-public/thread_safe_guard.c:18-36 | nothing is lost or invented: the writes that preads see are the pwrite calls with their arguments in the order in which they left their sections, and each pread sees those that had left when it looked, inside its own call |
| GuardedFile.ShortWritesArePlain | xv6-public/thread_safe_guard.c:28-36 | within 16523 blocks a sequence of pwrites is the same sequence of plain overwrites and extensions |
| GuardedFile.GuardedReadsArePlain | xv6-public/thread_safe_guard.c:18-36 | within 16523 blocks every pread in every run returns a slice of the content left by some number of complete plain writes |
| BlockMap.IntendedRoundTrip | xv6-public/fs.h:24-26 | with a remainder at line 441, every block number below MAXFILE has an in-range path that stands for it |
| BlockMap.IntendedOnto | xv6-public/fs.c:372-465 | with a remainder, every leaf of the inode tree is the path of a block number below MAXFILE |
| BlockMap.IntendedInjective | xv6-public/fs.c:372-465 | with a remainder, distinct block numbers below MAXFILE have distinct paths |
| BlockMap.PathInRange | xv6-public/fs.c:425-461 | as written, the path is inside its index blocks if and only if the block is below the triple tree or under an even first index; otherwise its second index is 128, one past the block |
| BlockMap.PathAgrees | xv6-public/fs.c:372-465 | as written, the path is the intended one for the first 16523 blocks |
| BlockMap.PathInjectiveExactly | xv6-public/fs.c:441-441 | as written, distinct blocks below n have distinct paths if and only if n is at most 16523 |
| BlockMap.TripleBlocksCollapse | xv6-public/fs.c:441-441 | as written, two blocks of the triple tree share a path if and only if they have the same first index |
| BlockMap.WalksMeet | xv6-public/fs.c:441-441 | as written, the walks of a file without holes: distinct up to block 16522, one and the same from there on, out of the index block from block 32906 on |
| BlockTree.SetSlotAddr | xv6-public/fs.c:378-388 | filling an empty slot with a fresh zeroed block changes that node and no other |
| BlockTree.SetEntryAddr | xv6-public/fs.c:389-395 | filling an empty entry of an index block changes that node and no other |
| BlockTree.AddedKeepsNonSharing | xv6-public/fs.c:372-465 | adding a fresh block keeps the tree free of shared blocks |
| BlockTree.SlotAdded | xv6-public/fs.c:378-388 | a block added to an inode slot extends the tree at that slot only |
| BlockTree.EntryAdded | xv6-public/fs.c:389-395 | a block added to an index block extends the tree at that entry only |
| BlockTree.ExtendsTrans | xv6-public/fs.c:372-465 | successive allocations on one path are one extension of the tree |
| BlockTree.WalkOn | xv6-public/fs.c:385-461 | a walk goes one level down: what it adds is zeroed, and what it finds it does not change |
| BlockTree.WalkAdds | xv6-public/fs.c:389-395 | a walk that finds no block in an entry adds a zeroed one there |
| BlockTree.PresentAbove | xv6-public/fs.c:372-465 | a block that is there has all its index blocks |
| FileContent.LongContentImpossible | xv6-public/fs.c:441-441 | beyond 16523 blocks the byte-sequence law fails: for every longer size up to the largest file some content is held by no state of the disk |
| FileContent.DataIsNotIndex | xv6-public/fs.c:372-465 | a data block of a non-sharing tree is nobody's index block |
| FileContent.BmapKeepsBytes | xv6-public/fs.c:372-465 | finding or adding a block changes no byte the file already has |
| FileContent.SetDataOk | xv6-public/fs.c:629-635 | writing a data block changes no node of the tree |
| FileContent.SetDataBytes | xv6-public/fs.c:629-635 | writing the data block of one file block changes the bytes of the file blocks that share its walk and no others |
| FileContent.CoversBound | xv6-public/fs.c:441-441 | a file without holes ends before the stray blocks |
| FileContent.ContentConsistent | xv6-public/fs.c:441-441 | in every file without holes the bytes of the blocks that share a walk agree |
| FileContent.PieceWritten | xv6-public/fs.c:629-635 | one round of writei: the piece lands in the byte sequence at the offset, extending it if need be, and in the blocks that share its walk |
| FileContent.PieceByte | xv6-public/fs.c:629-635 | each byte of the file after one memmove of writei is what the byte-sequence definition of the write says |
| FileContent.SliceOfBlock | xv6-public/fs.c:600-605 | the bytes that one round of readi copies are the content there |
| FileContent.ExtendsIsLocal | xv6-public/fs.c:372-465 | bmap touches only this tree's blocks and free blocks |
| FileContent.SetDataIsLocal | xv6-public/fs.c:629-635 | the memmove of writei touches only this tree's blocks |
| FileContent.LocalTrans | xv6-public/fs.c:629-635 | successive rounds of writei together touch only this tree's blocks and free blocks |
| FileContent.LocalKeepsAccount | xv6-public/fs.c:612-642 | allocation by bmap and writei takes free blocks into the tree and loses none |
| FileContent.OtherFileUntouched | xv6-public/fs.c:612-642 | another file on the same disk keeps every node and byte, and stays disjoint |
| FileContent.BelowStep | xv6-public/fs.c:472-566 | what lies below an index block through one more entry: the child there and what lies below it |
| FileContent.BelowOnce | xv6-public/fs.c:472-566 | no block is met twice below an index block |
| FileContent.BelowRound | xv6-public/fs.c:472-566 | one round of a truncation loop handles blocks that no earlier round handled |
| FileContent.GoneStep | xv6-public/fs.c:472-566 | one more inode slot: its block and everything below it, none of them met before |
| Inode.Fs.Balloc | xv6-public/fs.c:56-78 | balloc takes the first free block, marks it and zeroes it; it panics exactly when no block is free |
| Inode.Fs.Bfree | xv6-public/fs.c:81-95 | bfree clears the bit and panics exactly when the block is already free |
| Inode.Fs.SlotBlock | xv6-public/fs.c:378-388 | an inode slot is found or filled by a fresh zeroed block; it fails only on a full disk |
| Inode.Fs.EntryBlock | xv6-public/fs.c:389-395 | an entry of an index block is found or filled by a fresh zeroed block; it fails only on a full disk |
| Inode.Fs.Descend | xv6-public/fs.c:385-461 | one level of the walk of bmap |
| Inode.Fs.BmapSingle | xv6-public/fs.c:385-397 | the single indirect part finds or adds exactly the block at its path |
| Inode.Fs.BmapDouble | xv6-public/fs.c:400-422 | the double indirect part finds or adds exactly the block at its path |
| Inode.Fs.BmapTriple | xv6-public/fs.c:425-461 | the triple indirect part, with the mask of line 441: it strays exactly where the second index leaves the block |
| Inode.Fs.Bmap | xv6-public/fs.c:372-465 | bmap returns the block at the path of bn, keeps the tree non-sharing, adds only zeroed blocks on that path, changes nothing when the block is there, and fails only out of range, on a stray path or on a full disk |
| Inode.BlockPresent | xv6-public/fs.c:600-605 | below the size of any file without holes bmap finds the block and changes nothing |
| Inode.Fs.Iupdate | xv6-public/fs.c:220-236 | iupdate makes the on-disk inode equal to the in-memory one |
| Inode.Fs.Readi | xv6-public/fs.c:583-607 | readi on any file without holes returns -1 exactly when off > size or off + n does not fit 32 bits; otherwise the smaller of n and size - off bytes, equal to the content there; it allocates nothing, changes nothing and never panics |
| Inode.Fs.Writei | xv6-public/fs.c:612-642 | writei on any file without holes returns -1 exactly when off > size or the end exceeds the largest file; when it returns a count the byte sequence is exactly that of the write as written, no other file's blocks are touched, and the on-disk inode equals the in-memory one although iupdate runs only on growth; it panics only on a full disk or where a block strays |
| Inode.Fs.StorePiece | xv6-public/fs.c:629-635 | one round of the loop of writei: one more piece is written, or the disk is full or the block strays |
| Inode.BmapKeepsWritten | xv6-public/fs.c:629-635 | bmap in a round of writei keeps what is written, and within the old file allocates nothing |
| Inode.RoundContent | xv6-public/fs.c:629-635 | one round of writei takes the content from tot bytes written to tot + m bytes written |
| Inode.RoundLocal | xv6-public/fs.c:629-635 | one round of writei touches only this tree's blocks and free blocks |
| Inode.Fs.FreeBelow | xv6-public/fs.c:486-560 | the nested loops of itrunc free every block below an index block exactly once and no other; each bfree on the way succeeds, since the first one that failed would be the result |
| Inode.Fs.FreeSlot | xv6-public/fs.c:479-560 | the part of itrunc for one slot frees its tree and clears the slot |
| Inode.Fs.Itrunc | xv6-public/fs.c:472-566 | itrunc frees every data and index block of the inode exactly once and no other, no bfree on the way panics, the bitmap returns to its value before those blocks were allocated, and the inode is empty in memory and on disk |
| Scheduler.FindRunnableMLFQ | xv6-public/proc.c:314-356 | the scan returns the first minimum by level, then tick per quantum, among the ready MLFQ processes it sees (LOW ones at 1000 ticks it does not), and slot 0 exactly when it sees none |
| Scheduler.FindRunnableStride | xv6-public/proc.c:256-272 | the scan returns the first least pass among ready stride processes when one has a pass below 2147483645, and otherwise slot 0 |
| Scheduler.Scheduler.constructor | xv6-public/proc.c:10-30 | the process table at boot |
| Scheduler.Scheduler.Dispatch | xv6-public/proc.c:863-895 | the scheduler chooses the policy by sche_mode and the process by that policy's scan, slot 0 when the scan sees nothing, and marks it running |
| Scheduler.Scheduler.InitMlfqState | xv6-public/proc.c:378-392 | every hundredth tick boosts exactly the runnable processes |
| Scheduler.Scheduler.Account | xv6-public/proc.c:901-914 | the accounting after a slot; it divides by zero exactly when a stride slot ran a process without a share |
| Scheduler.SelectedUnique | xv6-public/proc.c:256-356 | the scans leave no choice |
| Scheduler.RoundAhead | xv6-public/proc.c:854-922 | the conditions on the state before a round, exactly: when it divides by zero and when it is a slot |
| Scheduler.Scheduler.Round | xv6-public/proc.c:854-922 | one round of the scheduler loop around a yielding process; when every stride process has a share, the state before the round decides: it divides by zero exactly when it is stride's turn, no pass is visible and process 0 has no share, and it is a slot exactly when the scan of the policy whose turn it is sees a process or process 0 happens to be ready |
| Scheduler.Scheduler.SetCpuShare | xv6-public/proc.c:988-1033 | set_cpu_share succeeds exactly when the share is positive and the total stays at most 80; as written the total does not change for a process already in stride mode |
| Scheduler.Scheduler.LeaveShares | xv6-public/proc.c:766-767 | exit gives the share back exactly for a stride process |
| Fairness.SlotKeeps | xv6-public/proc.c:854-922 | a slot changes nobody's state, mode or share |
| Fairness.FreshSlot | xv6-public/proc.c:314-392 | an MLFQ slot while some process is fresh runs a fresh process, leaving one fewer |
| Fairness.AfterBoost | xv6-public/proc.c:314-392 | after a boost every ready process gets its turn before anyone gets a second one |
| Fairness.BoostSlot | xv6-public/proc.c:378-392 | the slot of the hundredth tick makes every ready MLFQ process fresh |
| Fairness.StrideSlotKeepsMlfq | xv6-public/proc.c:256-283 | a stride slot leaves the MLFQ side as it is |
| Fairness.TicksKept | xv6-public/proc.c:358-376 | ticks of ready processes stay below 1000 once they are |
| Fairness.MlfqBoundedWaiting | xv6-public/proc.c:314-392 | with N ready MLFQ processes each runs within 100 - ticks + N MLFQ slots, whatever the levels, the ticks and the stride slots in between |
| Fairness.QuantumHeld | xv6-public/proc.c:314-356 | inside its quantum of 1, 2 or 4 ticks a process goes on running |
| Fairness.QuantumOver | xv6-public/proc.c:314-356 | at the end of its quantum a process gives way to any process of its level that has run less |
| Fairness.LevelFollowsSlots | xv6-public/proc.c:358-376 | between boosts the level of a process follows from its MLFQ slots: 5 at HIGH, then 10 at MID, then LOW |
| Fairness.BoostsCounted | xv6-public/proc.c:378-392 | a boost comes with every hundredth MLFQ slot and at no other time |
| Fairness.TickStep | xv6-public/proc.c:358-392 | short of the hundredth tick a slot changes the process that ran and no other |
| Fairness.SpreadKept | xv6-public/proc.c:256-283 | a slot keeps every ready stride process within the largest stride below the tracked maximum pass |
| Fairness.ShareSetKeepsSpread | xv6-public/proc.c:1005-1030 | a share granted to a process, its first or another one, sets its pass to the tracked maximum and keeps the spread, with the bound raised to its stride if that is larger, and puts it behind every other stride process |
| Fairness.PassCountsSlots | xv6-public/proc.c:275-283 | over any window in which the tracked maximum pass stays visible a pass grows by slots times 10000 / share |
| Fairness.StrideProportional | xv6-public/proc.c:256-283 | over any window in which the tracked maximum pass stays visible, however long, the slots of two ready stride processes are proportional to their shares: slots times 10000 / share differ by at most twice the largest such quotient, and slots per share by a constant and the rounding of that quotient |
| Fairness.LargerShareMoreSlots | xv6-public/proc.c:256-283 | a process with the larger share gets no fewer slots, up to a constant |
| Fairness.SlotGap | xv6-public/proc.c:286-306 | a slot keeps the gap between the policies' passes within (-10000, 500] |
| Fairness.PolicyProportional | xv6-public/proc.c:286-306 | over any window the slots of the two policies, weighted by 10000 / (100 - total) and 10000 / total, account for the change of the gap, and so differ by less than 10500 |
| Fairness.StrideGetsItsPercentage | xv6-public/proc.c:286-306 | of any n consecutive slots the stride policy gets total percent, up to a constant and a quarter of a percent of n, which is the rounding of the two costs |
| Fairness.NoStrideWithoutShares | xv6-public/proc.c:33-39 | without shares no slot goes to stride |
| Fairness.EnoughMlfqSlots | xv6-public/proc.c:286-306 | 904 consecutive slots of any kind contain at least 164 MLFQ slots |
| Fairness.EveryMlfqProcessRuns | xv6-public/proc.c:854-922 | whatever the shares, every ready MLFQ process runs in any 904 consecutive slots |
| Fairness.PickExists | xv6-public/proc.c:314-356 | when the MLFQ scan sees a process there is a pick |
| Fairness.LeastPassExists | xv6-public/proc.c:256-272 | when the stride scan sees a process there is a least pass |
| Fairness.SustainedKept | xv6-public/proc.c:854-922 | every slot keeps a process for each policy in sight for one slot fewer |
| Fairness.SlotsGoOn | xv6-public/proc.c:854-922 | from a state in which each policy has a process that stays in sight for n slots, n slots follow |
| Fairness.RunsAgree | xv6-public/proc.c:854-922 | two runs from one state agree slot by slot |
| Shares.BootInv | xv6-public/proc.c:10-30 | the table at boot satisfies the share invariant |
| Shares.SetShareKeepsInv | xv6-public/proc.c:988-1033 | the first set_cpu_share of a process keeps the total equal to the live shares and at most 80 |
| Shares.ExitKeepsInv | xv6-public/proc.c:766-767 | exit keeps the total equal to the live shares |
| Shares.GiveUpKeepsInv | xv6-public/proc.c:901-914 | the accounting after a slot keeps the shares and the gap |
| Shares.TableStepKeepsInv | xv6-public/proc.c:1303-1311 | dispatch, wakeup, fork and wait change no share |
| Shares.StepKeepsInv | xv6-public/proc.c:988-1033 | every event keeps the share and gap invariant |
| Shares.ReachableInv | xv6-public/proc.c:286-306 | the share and gap invariant holds in every state of every single-CPU run |
| Shares.ShareTotalAndGap | xv6-public/proc.c:286-306 | in every state of every run the total is the sum of the live stride shares and at most 80, so no policy pass is divided by zero, and the gap is within (-10000, 500] |
| Shares.FirstShareGranted | xv6-public/proc.c:988-1016 | in every run a first set_cpu_share is granted exactly when the share is positive and the live shares stay at most 80 with it |
| Shares.StepKeepsTable | xv6-public/proc.c:378-392 | every event keeps the tick counter below 100 and the levels in range |
| Shares.ReachableTable | xv6-public/proc.c:378-392 | that holds in every state of every run |
| Shares.NoStarvationWhenReachable | xv6-public/proc.c:854-922 | from every reachable state between slots, every ready MLFQ process runs within 904 slots |
| Shares.ReachableShared | xv6-public/proc.c:988-1033 | in every run every stride process has a share |
| Shares.RoundAheadReachable | xv6-public/proc.c:854-922 | in every reachable state between slots, exactly when the next round divides by zero and exactly when it is a slot |
| Shares.NoStarvation | xv6-public/proc.c:854-922 | from every reachable state that passes tests a caller can make, 904 slots follow and every ready MLFQ process runs in them |
| Shares.StrideTrapReachable | xv6-public/proc.c:256-283 | the division by zero is reachable: a stride process takes a share and sleeps, and the next stride slot falls to process 0 |
| Shares.SlowReachable | xv6-public/proc.c:358-392 | a process that sleeps through every boost collects a tick per slot |
| Shares.LowProcessVanishes | xv6-public/proc.c:314-356 | a ready process can drop out of sight: LOW with 1000 ticks, and the next round is no slot |
| Shares.SecondShareBreaksTotal | xv6-public/proc.c:1023-1030 | a second set_cpu_share leaves the total right if and only if it asks for the share already held |
| Shares.ThreadExitLeaksShare | xv6-public/proc.c:1149-1187 | a thread that leaves through thread_exit and thread_join leaks its share, if and only if it has one |
| FreeList.InsertApart | xv6-public/umalloc.c:29-43 | free keeps the list in address order, disjoint, and without two adjacent free blocks |
| FreeList.InsertSum | xv6-public/umalloc.c:33-42 | free conserves units |
| FreeList.InsertOutside | xv6-public/umalloc.c:33-42 | free makes no free block overlap an allocated one |
| FreeList.TakeApart | xv6-public/umalloc.c:74-82 | malloc keeps the list in order and apart, and hands out a block that overlaps no free one |
| FreeList.TakeSum | xv6-public/umalloc.c:74-82 | malloc conserves units |
| FreeList.TakeOutside | xv6-public/umalloc.c:74-82 | malloc's block overlaps no block already handed out |
| FreeList.InsertBounded | xv6-public/umalloc.c:33-42 | free keeps the base block first and empty and the rest non-empty and below the break |
| FreeList.TakeBounded | xv6-public/umalloc.c:74-82 | malloc keeps the base block first and empty and the rest non-empty and below the break |
| FreeList.PredecessorExists | xv6-public/umalloc.c:30-32 | a block above the base has exactly one place in the list |
| FreeList.FreeUndoesMalloc | xv6-public/umalloc.c:24-90 | freeing the block just allocated gives back the list as it was |
| Umalloc.UnitsSuffice | xv6-public/umalloc.c:69-69 | the computed number of units has room for the request if and only if nbytes + 7 does not wrap in 32 bits, and then one unit fewer has not |
| Umalloc.LinkThreaded | xv6-public/umalloc.c:37-42 | the link assignments of free thread the block in behind its predecessor |
| Umalloc.MergeThreaded | xv6-public/umalloc.c:33-41 | joining two adjacent blocks keeps the list threaded |
| Umalloc.FreedThreaded | xv6-public/umalloc.c:33-42 | the assignments of free, in the order of the source, thread exactly the list with the block inserted and coalesced |
| Umalloc.FreedDown | xv6-public/umalloc.c:38-42 | the second half of free joins the block before exactly when they touch |
| Umalloc.FreedUp | xv6-public/umalloc.c:33-37 | the first half of free joins the block after exactly when they touch |
| Umalloc.UnlinkThreaded | xv6-public/umalloc.c:75-76 | taking a whole block links the block before it past it |
| Umalloc.CutThreaded | xv6-public/umalloc.c:77-81 | cutting a block leaves its front on the list and gives its tail a header of its own |
| Umalloc.TakenThreaded | xv6-public/umalloc.c:75-82 | the assignments of malloc thread exactly the list with the units taken, and write the size of the block handed out |
| Heap.FreeStep | xv6-public/umalloc.c:24-44 | freeing one block: everything else stays allocated and untouched, and units are conserved |
| Heap.TakeStep | xv6-public/umalloc.c:74-84 | allocating: the new block is its own, everything else is untouched, and units are conserved |
| Heap.GrowStep | xv6-public/umalloc.c:46-61 | memory from sbrk overlaps nothing known |
| Heap.Elsewhere | xv6-public/umalloc.c:30-32 | where the test of free's loop fails, the place is elsewhere, so the loop terminates |
| Heap.Found | xv6-public/umalloc.c:30-32 | where the loop of free stops, the block found is the predecessor |
| Heap.Heap.constructor | xv6-public/umalloc.c:21-22 | before the first malloc there is no list |
| Heap.Heap.FindPlace | xv6-public/umalloc.c:30-32 | the search loop of free terminates at the one block that precedes the freed one, wherever freep points |
| Heap.Heap.Splice | xv6-public/umalloc.c:33-42 | the assignments of free, in source order, produce exactly the headers that thread the list with the block inserted (FreedThreaded) |
| Heap.Heap.Free | xv6-public/umalloc.c:24-44 | free: the block joins the list at its place, coalesced with both neighbours, the other allocated blocks stay, and free plus allocated units equal the units from sbrk |
| Heap.Heap.FindFit | xv6-public/umalloc.c:74-89 | the loop of malloc finds the first block with room from freep on, or proves that none has |
| Heap.Heap.Carve | xv6-public/umalloc.c:75-84 | the assignments of malloc at the block found produce exactly the headers that thread the list with the units taken (TakenThreaded), and leave freep at the block before |
| Heap.Heap.TryAllocate | xv6-public/umalloc.c:74-89 | one search: null exactly when no block is large enough, otherwise a first-fit block of exactly the units asked for |
| Heap.Heap.Grow | xv6-public/umalloc.c:54-58 | sbrk adds one block above everything known |
| Heap.Heap.Morecore | xv6-public/umalloc.c:46-61 | morecore asks for at least 4096 units and leaves a block large enough on the list |
| Heap.Heap.Malloc | xv6-public/umalloc.c:63-90 | malloc returns a new block of exactly the computed units, first fit; sbrk is asked exactly when no block is large enough, and null is returned exactly when it refuses |
| Heap.Heap.Start | xv6-public/umalloc.c:70-73 | the first malloc makes a list of the empty base block |
| Grep.HeadPiece | xv6-public/grep.c:85-106 | a reading of the pattern in the text may begin with any piece of its first item |
| Grep.HeadRead | xv6-public/grep.c:85-106 | every reading begins with a piece of its first item |
| Grep.StarUnfold | xv6-public/grep.c:98-106 | c* followed by re matches here if and only if some run of c is followed by a match of re |
| Grep.DollarUnfold | xv6-public/grep.c:91-92 | $ at the end matches exactly the empty rest |
| Grep.CharUnfold | xv6-public/grep.c:93-95 | a literal or . matches exactly one fitting character |
| Grep.Matchhere | xv6-public/grep.c:84-96 | matchhere is true if and only if the text begins with a string of the pattern's declaratively defined language |
| Grep.Matchstar | xv6-public/grep.c:98-106 | matchstar is true if and only if c* followed by re matches here |
| Grep.Match | xv6-public/grep.c:72-82 | match is true if and only if the pattern occurs at some position of the text, at position 0 under ^, and the mutual recursion terminates |
| Pipe.Pipe.constructor | xv6-public/pipe.c:22-55 | an empty pipe with both ends open |
| Pipe.Pipe.WriteSection | xv6-public/pipe.c:78-98 | pipewrite appends exactly the bytes of its data until done or full, returns -1 exactly when full with the reader gone or itself killed, and then wakes nobody |
| Pipe.Pipe.Put | xv6-public/pipe.c:93-93 | one byte goes in at the 32-bit write counter modulo PIPESIZE without overwriting an unread one |
| Pipe.Pipe.ReadSection | xv6-public/pipe.c:100-121 | piperead returns the next bytes written, in order, as many as are there up to n, sleeps exactly on an empty pipe that may still be written, and otherwise wakes writers unless killed on an empty pipe |
| Pipe.Pipe.Close | xv6-public/pipe.c:59-75 | pipeclose closes one end, wakes the other and frees the pipe exactly when both are closed |
| Pipe.FullTest | xv6-public/pipe.c:85-85 | nwrite == nread + PIPESIZE in wrapping 32-bit arithmetic exactly when the ring is full |
| Pipe.EmptyTest | xv6-public/pipe.c:106-106 | nread == nwrite in wrapping 32-bit arithmetic exactly when the ring is empty |
| Pipe.ApartInRing | xv6-public/pipe.c:93-93 | unread bytes do not share a ring cell |
| PipeWakeups.StepKeepsSleepers | xv6-public/pipe.c:59-121 | a section leaves every sleeper something to wait for if and only if it does not strand a reader |
| PipeWakeups.ReachableSleepers | xv6-public/pipe.c:59-121 | that holds over whole runs in which nobody is stranded |
| PipeWakeups.NoLostWakeup | xv6-public/pipe.c:59-121 | unless a writer that gives up strands a reader, in every reachable state no reader sleeps on bytes and no writer on free space, so readers and writers never all sleep |
| PipeWakeups.KilledWriterStrandsReader | xv6-public/pipe.c:84-94 | a writer killed midway fills the pipe and returns -1 without a wakeup, leaving a reader asleep on a full pipe |
| ShellWords.Delimiters | xv6-public/sh.c:262-263 | white space and symbols are exactly the characters of the two tables |
| ShellLexer.PeekIs | xv6-public/sh.c:310-320 | peek looks at the first token that is left |
| ShellLexer.LexFirst | xv6-public/sh.c:265-307 | what gettoken returns is the first token that is left, a clean word when it is a word |
| ShellLexer.TokenFound | xv6-public/sh.c:265-307 | a token spelled behind white space and not fused with what follows is read off whole |
| ShellLexer.SpelledIsLexed | xv6-public/sh.c:265-307 | the lexer undoes the spelling: any tokens written with any white space, some of it between tokens that would fuse, are lexed as themselves |
| ShellSyntax.DirsThen | xv6-public/sh.c:374-397 | redirections in front of items spell and mean what they do alone |
| ShellSyntax.AroundSnoc | xv6-public/sh.c:374-397 | a further redirection goes around the command redirected so far |
| ShellRoundTrip.WrapText | xv6-public/sh.c:374-397 | the redirections read, wrapped one by one, stand around the command in their order |
| ShellRoundTrip.DirsParse | xv6-public/sh.c:374-397 | redirections of the language are read by parseredirs, in order and with their files |
| ShellRoundTrip.ArgsParse | xv6-public/sh.c:430-445 | words and redirections in any order, up to nine words, become the argv and the redirections around it |
| ShellRoundTrip.SimpleParses | xv6-public/sh.c:415-446 | a simple command with redirections before, between and behind its words parses as what it means |
| ShellRoundTrip.ParenParses | xv6-public/sh.c:399-413 | a line in parentheses with redirections behind it parses as what it means |
| ShellRoundTrip.CommandParses | xv6-public/sh.c:415-446 | every command of the language is accepted by parseexec with its meaning |
| ShellRoundTrip.PipelineParses | xv6-public/sh.c:361-372 | every pipeline of the language is accepted by parsepipe with its meaning |
| ShellRoundTrip.JobParses | xv6-public/sh.c:350-353 | the & signs behind a pipeline put it in the background that many times |
| ShellRoundTrip.LineParses | xv6-public/sh.c:344-359 | every line of the language is accepted by parseline with its meaning, with or without parentheses |
| ShellRoundTrip.DirsFound | xv6-public/sh.c:374-397 | what parseredirs accepts are redirections of the language |
| ShellRoundTrip.ArgsFound | xv6-public/sh.c:430-445 | what the loop of parseexec accepts are at most nine words with redirections of the language |
| ShellRoundTrip.SimpleFound | xv6-public/sh.c:415-446 | what parseexec accepts outside parentheses is a simple command with that meaning |
| ShellRoundTrip.CommandFound | xv6-public/sh.c:399-446 | what parseexec accepts is a command of the language with that meaning |
| ShellRoundTrip.PipelineFound | xv6-public/sh.c:361-372 | what parsepipe accepts is a pipeline of the language with that meaning |
| ShellRoundTrip.JobFound | xv6-public/sh.c:350-353 | what the loop over & accepts is a job of the language with that meaning |
| ShellRoundTrip.LineFound | xv6-public/sh.c:344-359 | what parseline accepts is a line of the language with that meaning |
| ShellRoundTrip.ParsesExactlyTheLanguage | xv6-public/sh.c:327-446 | parsecmd accepts a line with the tree t if and only if its tokens are a line of the language that means t |
| ShellRoundTrip.WrittenParsesBack | xv6-public/sh.c:265-446 | every line of the language, written with any white space, parses as what it means |
| ShellRoundTrip.WritingMeans | xv6-public/sh.c:327-446 | every command tree of clean words, at most nine to a command, is the meaning of some line |
| ShellRoundTrip.PrintedParsesBack | xv6-public/sh.c:265-446 | for every such tree, parsing its printed form returns that tree |
| ShellTokens.ArrowsOfTokens | xv6-public/sh.c:374-397 | every file that parseredirs records is a whole word of the line |
| ShellTokens.ArgsOfTokens | xv6-public/sh.c:415-446 | every argument that parseexec records is a whole word of the line, and there are fewer than MAXARGS |
| ShellTokens.LineOfTokens | xv6-public/sh.c:344-359 | for every line, every word of the tree that parsing it yields is a whole word of the line ending at a delimiter or at the end |
| ShellTokens.ExecOfTokens | xv6-public/sh.c:415-446 | the same of parseexec |
| ShellTokens.BlockOfTokens | xv6-public/sh.c:399-413 | the same of parseblock |
| ShellTokens.PipeOfTokens | xv6-public/sh.c:361-372 | the same of parsepipe |
| ShellTokens.EndsOnDelims | xv6-public/sh.c:449-493 | nulterminate writes only on delimiters or at the end of the line |
| ShellTokens.TokenSeen | xv6-public/sh.c:449-493 | a terminated token reads as a C string exactly as it was |
| ShellTokens.TreeSeen | xv6-public/sh.c:449-493 | with terminators on delimiters only, every C string of a tree is its token |
| ShellTokens.NulterminateKeepsTokens | xv6-public/sh.c:449-493 | for every line that parses, after nulterminate every argv and file C string of the tree equals its token: no terminator damages another token |
| ShellTokens.WrittenIsSeen | xv6-public/sh.c:265-493 | end to end: whatever the white space, what runcmd sees after a line is parsed and terminated is what the line means |
| ShellTokens.PrintedIsSeen | xv6-public/sh.c:265-493 | parsing and terminating a printed tree shows runcmd that tree |
| Shell.Parser.constructor | xv6-public/sh.c:327-334 | the cursor starts at the beginning of the line |
| Shell.Parser.SkipSpace | xv6-public/sh.c:272-273 | the loop over white space stops at the first other character |
| Shell.Parser.GetTok | xv6-public/sh.c:265-307 | gettoken, with its loops and its switch, is the lexer function and leaves the cursor behind the token and the white space after it |
| Shell.Parser.PeekFor | xv6-public/sh.c:310-320 | peek skips white space and tells whether one of the characters follows |
| Shell.Parser.ParseRedirs | xv6-public/sh.c:374-397 | parseredirs finds exactly the redirections of the grammar, in order, or panics where a file is missing |
| Shell.Parser.Words | xv6-public/sh.c:430-445 | the loop of parseexec computes the grammar function, never writes past argv, and panics exactly where the grammar does |
| Shell.Parser.Exec | xv6-public/sh.c:415-446 | parseexec computes the grammar function |
| Shell.Parser.BlockCmd | xv6-public/sh.c:399-413 | parseblock computes the grammar function |
| Shell.Parser.PipeCmd | xv6-public/sh.c:361-372 | parsepipe computes the grammar function |
| Shell.Parser.Backs | xv6-public/sh.c:350-353 | the loop over ampersands computes the grammar function |
| Shell.Parser.Line | xv6-public/sh.c:344-359 | parseline computes the grammar function and terminates |
| Shell.Nulterminate | xv6-public/sh.c:449-493 | nulterminate changes exactly the characters at the ends of the tree's words to NUL |
| Shell.Strlen | xv6-public/sh.c:333-333 | the length of the line up to its first NUL |
| Shell.ParseCommand | xv6-public/sh.c:327-342 | parsecmd on a buffer of any size: a panic leaves the buffer alone; otherwise the tree is the grammar's, and each of its C strings is its token |
| PageTable.TableIn | xv6-public/vm.c:35-55 | a page table of an address space is in use, is not the directory, and serves nowhere else |
| PageTable.Untouched | xv6-public/vm.c:35-55 | an address space none of whose frames was written is still the same address space |
| PageTable.SameSpace | xv6-public/vm.c:35-55 | the translation depends on the directory and the tables only |
| PageTable.AddTableEntries | xv6-public/vm.c:44-53 | installing a zeroed page table changes no translation and adds one frame |
| PageTable.AddTableOk | xv6-public/vm.c:44-53 | the address space with a new table still has no frame that serves twice, its directory entry lets user and kernel through and write, and nobody else's frames change hands |
| PageTable.SetPteEntries | xv6-public/vm.c:73-73 | writing an entry changes that translation and no other |
| PageTable.MapUserOk | xv6-public/vm.c:60-80 | mapping a user page makes its frame the address space's own and no other |
| PageTable.MapKernelOk | xv6-public/vm.c:60-80 | mapping a kernel page changes nobody's ownership |
| PageTable.UnmapOk | xv6-public/vm.c:268-275 | giving a mapped page back and clearing its entry leaves every other frame where it was |
| AddressSpace.PageIn | xv6-public/vm.c:35-55 | the frame of a mapped user page is in use and is neither the directory nor a table |
| AddressSpace.PagesDiffer | xv6-public/vm.c:35-55 | two user pages with one frame are one page |
| AddressSpace.SetAt | xv6-public/vm.c:73-73 | writing an entry changes one page of the page map and no page contents |
| AddressSpace.AddTableKeeps | xv6-public/vm.c:44-53 | making a page table keeps the page map, all page contents and everybody else's frames |
| AddressSpace.MapOk | xv6-public/vm.c:60-80 | mapping one page updates the page map at that page |
| AddressSpace.UnmapStep | xv6-public/vm.c:264-276 | kfree then *pte = 0 removes one page from the page map and returns its frame, all else kept |
| AddressSpace.NextTable | xv6-public/vm.c:267-267 | PGADDR(PDX(a) + 1, 0, 0) is the first address of the next page table |
| AddressSpace.PagesCover | xv6-public/mmu.h:90-90 | the pages counted for sz are exactly those that hold a byte below sz |
| AddressSpace.EntryDecides | xv6-public/vm.c:49-52 | the processor grants user access and write access by the flags of the directory entry and the table entry together; in every address space the directory entry stands open, so the table entry alone decides |
| Kmem.PopThreaded | xv6-public/kalloc.c:82-95 | taking the head leaves the rest of the list threaded through the free pages |
| Kmem.PushThreaded | xv6-public/kalloc.c:59-79 | a page with the old head in its first word heads the list |
| Kmem.StoreThreaded | xv6-public/kalloc.c:59-95 | a write to a page in use does not damage the list |
| Kmem.Memory.constructor | xv6-public/kalloc.c:31-43 | before kinit nothing is free |
| Kmem.Memory.Store | xv6-public/kalloc.c:59-95 | a write to a page in use changes that page and leaves the list intact |
| Kmem.Memory.Kfree | xv6-public/kalloc.c:59-79 | kfree puts the page on the free list; every page is exactly once on the list or in use |
| Kmem.Memory.Kalloc | xv6-public/kalloc.c:82-95 | kalloc takes the head of the list, or returns 0 exactly when it is empty; every page is exactly once on the list or in use |
| Kmem.Memory.Freerange | xv6-public/kalloc.c:46-53 | freerange puts exactly the pages of the range on the list |
| Vm.Walk | xv6-public/vm.c:35-55 | walkpgdir finds the table, or makes a zeroed one behind a directory entry that leaves access to the table entries, keeping the page map, all page contents and everybody else's frames; it fails exactly without alloc or without memory |
| Vm.MapPage | xv6-public/vm.c:69-73 | one page of mappages updates the page map at that page, or changes nothing when memory is out |
| Vm.Mappages | xv6-public/vm.c:60-80 | mappages gives consecutive pages consecutive frames; it fails exactly when memory runs out, leaving the pages so far, and needs at most one frame per page table spanned |
| Vm.UnmapPage | xv6-public/vm.c:264-276 | one page of deallocuvm removes one page from the page map and returns its frame, and keeps every page table |
| Vm.Deallocuvm | xv6-public/vm.c:254-278 | deallocuvm removes exactly the pages from PGROUNDUP(newsz) up to oldsz from the page map, returns exactly their frames and keeps every page table |
| Vm.GrowPage | xv6-public/vm.c:234-246 | kalloc, fill and mappages add one fresh page, or change no mapping |
| Vm.Undo | xv6-public/vm.c:235-246 | the error path of allocuvm restores the page map and returns every page taken for user memory |
| Vm.Allocuvm | xv6-public/vm.c:221-249 | allocuvm adds exactly the missing pages, fresh, zeroed and writable by the user through both levels, or restores the user mapping; other frames keep owner and contents; it fails only with fewer than two free frames per page |
| Vm.FreshIsUsers | xv6-public/vm.c:234-246 | a page mapped with flags 7 in an address space is accessible to and writable by the user |
| Vm.NoLeaves | xv6-public/vm.c:282-297 | an address space without user pages is its directory and its tables |
| Vm.Freevm | xv6-public/vm.c:282-297 | freevm returns every frame of the address space exactly once, and every other frame keeps owner and contents |
| CopyVm.Lines | xv6-public/vm.c:110-115 | each line of kmap maps kernel pages that no earlier line maps |
| CopyVm.KernelHalf | xv6-public/vm.c:110-115 | the kernel half maps all physical memory at KERNBASE, the text read-only, the devices in place, and nothing else |
| CopyVm.KernelAccess | xv6-public/vm.c:110-115 | with that mapping the user has no access to the kernel half, and the kernel may write all that is mapped there except its text |
| CopyVm.EmptySpace | xv6-public/vm.c:124-126 | a zeroed page is the directory of an empty address space |
| CopyVm.Setupkvm | xv6-public/vm.c:118-136 | setupkvm yields an address space with exactly the kernel half, closed to the user and with the kernel text not writable, or returns every frame it took; it fails only with fewer than 229 free frames |
| CopyVm.ParentPage | xv6-public/vm.c:314-344 | while nobody writes its frames the parent stays the same address space |
| CopyVm.ReadPte | xv6-public/vm.c:324-329 | walkpgdir without alloc reads the entry of a mapped page |
| CopyVm.CopiedAccess | xv6-public/vm.c:329-336 | a copied page gives the user and the kernel exactly the access that the original gives |
| CopyVm.Copyuvm | xv6-public/vm.c:314-344 | copyuvm gives the child fresh frames with equal contents, equal flags and equal access for every page below sz, the kernel half closed to the user and nothing else, leaves every frame in use before unchanged, and on failure returns every frame it took |

## Left out

- Boot, traps, interrupts, device drivers, console, assembly and multiprocessor memory ordering: hardware behaviour. Spinlocked sections and `xchg` are atomic steps, block writes are atomic.
- Process and thread lifecycle (fork, exit with threads, thread_create, exec), the directory and path layer, system-call wrappers and user programs other than the shell parser and grep's matcher.
- `find_runnable_thread` and `adjust_thread_state`: the scheduler loop does not call them.
- That every operation fits MAXOPBLOCKS: taken as the premise of the group-commit machine (`WithinBudget`).
- Log.Log.EndOp: sleep and wakeup of waiting operations are in the step machine of GroupCommit; a commit assumes that the log blocks and the blocks of the group are not locked by somebody else, since waiting for a sleep lock is not modelled, and that holders of other buffers have not changed them.
- BufferCache.Cache.Bread: stated for a block that nobody else has locked; waiting for the sleep lock is not modelled.
- BufferCache.Cache.CopyBlock: write_log reads its target block first and its source second; the model reads them in the order of install_trans, which can only change the buffers that are recycled.
- Inode.Fs.Balloc: the bitmap is a sequence of booleans rather than bits inside bitmap blocks, and the inode table a map rather than bytes inside inode blocks; buffers and log calls inside `fs.c` are not repeated there.
- Inode.Fs.FreeBelow: the nested loops of itrunc are one recursive method over the depth; bmap's repeated walk steps are the methods SlotBlock and EntryBlock.
- Inode.Fs.Writei: files without holes, which are the ones writei makes from an empty inode; where a block strays, what the access at entry 128 of an index block does to memory beyond the buffer is not modelled.
- GuardedFile.GuardedReadsAreAtomic: a run ends where a write strays, as there the machine's memory is no longer the file's.
- Device files in readi and writei; filewrite, whose loop is that of filepwrite with the file's own offset.
- Scheduler.Scheduler.Round: context switches are not modelled; passes, doubles in the source that only receive integers, are integers.
- Fairness.MlfqBoundedWaiting: speaks of slots, rounds whose process was ready; when the next round is one is stated by Scheduler.RoundAhead, and when 904 of them follow by Shares.NoStarvation, whose tests suffice and are not claimed to be necessary.
- Shares.ShareTotalAndGap: runs on one CPU in which a process sets its share at most once and leaves through exit; the last two lemmas of Shares show that both conditions are needed. A run ends where the scan falls to a process 0 that is unused or a zombie, and at the division by zero.
- Heap.Heap.Malloc: addresses are in header units, sbrk's answer is a parameter, and a request whose byte count for sbrk exceeds 32 bits is folded into that answer.
- Shell.Parser.Exec: the exec node is built after its redirections are known rather than updated in place below them; mode flags of redirections are reduced to their direction.
- Shell.Strlen: requires a NUL in the buffer, as gets leaves it.
- Vm.Mappages: panics (`remap`, a null directory, a missing page in copyuvm, a page out of kfree's range) are preconditions; they are proved to hold where one operation calls another.
- Vm.Deallocuvm: oldsz is at most KERNBASE; above it PGADDR wraps around and the loop does not end.
- Vm.Allocuvm: page tables made before a failure stay in the address space until freevm, as in the source.
- clearpteu, uva2ka, copyout, inituvm and loaduvm.
