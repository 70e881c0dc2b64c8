# xv6 in Dafny

A model of the parts of xv6 whose correctness is hardest to see from the code,
with proofs of what each part is for. Code that works by changing state (the
buffer cache, the log, the inodes and bitmap, `malloc`, the page tables, the
process table, the directory tree) is a class with the same fields and loops;
`grep`'s matcher and the shell's parser are methods proved against a
declarative reading; the sleeping and waking protocols are state machines whose
runs are arbitrary interleavings of any number of processes.

| file | what it holds |
|---|---|
| `Params.dfy`, `Disk.dfy` | the shared constants, and blocks of words |
| `BufferCache.dfy`, `CacheView.dfy` | `bio.c`: the LRU ring, `bget`, `bread`, `bwrite`, `brelse`, and the disk as readers see it through the cache |
| `RedoLog.dfy`, `Log.dfy`, `LogAdmission.dfy` | `log.c`: what a crash leaves, the log running on the cache, and the admission of concurrent operations |
| `Volume.dfy`, `Files.dfy` | the block layer of `fs.c` and `filewrite`: files as flat byte sequences, ownership of blocks |
| `Footprint.dfy`, `WidestWrite.dfy` | exactly which blocks a write takes and logs, and the widest write that fits a transaction |
| `Links.dfy`, `Directories.dfy`, `LinkOverflow.dfy` | `nlink`, directory entries, `link`, `unlink`, `create`, `iput`, and a run that fills a count |
| `Umalloc.dfy` | the user-level allocator |
| `PageTable.dfy`, `PageRange.dfy`, `KernelMap.dfy`, `VirtualMemory.dfy`, `FrameRuns.dfy` | `kalloc.c` and `vm.c`: who owns each physical frame, what each address space maps, and runs that are short of frames |
| `ProcTable.dfy` | `proc.c`: the process tree, `fork`, `exit`, `wait`, `kill`, `sleep`, `wakeup` |
| `SleepWakeup.dfy`, `SleepLock.dfy`, `Pipe.dfy` | the two-lock handover of `sleep`, and two programs that stand on it |
| `ShellGrammar.dfy`, `Shell.dfy`, `Grep.dfy` | the command language and its parser, and the pattern matcher |

The main results:

* **Crash safety.** For every run of the log, every disk image between any two
  block writes recovers to a committed snapshot, later images never to an older
  snapshot, however often recovery itself is cut short (`Log.Log.Commit`,
  `Log.Log.CrashSafe`, `Log.Log.CrashNow`).
* **Admission.** In every reachable state of any number of operations a commit
  holds whole operations only and the log cannot overflow. How many blocks an
  operation is sure to get past the guard on the on-disk size is exact for every
  size: each block that the disk log lacks takes one from the allowance, and the
  log that `mkfs` makes lacks one.
* **Files.** Writing and reading through direct and indirect blocks is writing
  and reading a slice of one byte sequence; no other file changes; every block
  in use has exactly one owner. The blocks that `writei` takes and logs are a
  function of the volume before it. Each transaction of `filewrite` logs exactly
  these and at most `MAXOPBLOCKS`; there is a volume on which a piece of the
  code's size logs all `MAXOPBLOCKS`, and for every larger piece that a file can
  hold one on which it logs more.
* **Memory.** `allocuvm`, `setupkvm`, `mappages` and `copyuvm` succeed exactly
  when the free frames suffice. When they fail, `setupkvm` gives back every
  frame; `copyuvm` does too, but for one frame under a condition stated exactly;
  `allocuvm` leaves the mappings and bytes as they were but keeps the page
  tables it made, so that all frames are free again exactly when no table was
  missing or the frames ran out before one could be made; `mappages` leaves a
  prefix of its pages mapped.
* **Processes.** Every call keeps a tree rooted at init, no process sleeps in
  `wait` beside a zombie child, and a pid is returned by `wait` at most once. A
  process can be born killed, for which there is a run; it is not as long as no
  `kill` names a free slot and no `fork` fails on a marked embryo, and each of
  these two conditions is exact.
* **Sleeping.** `sleep` with its two locks refines an atomic sleep, for every
  program; sleep locks exclude each other and lose no wakeup. Pipes are first in
  first out across counter wrap-around in every run, and no run loses a writer.
  A killed writer can lose a reader, for which there is a concrete run; in all
  runs with writes of at most `L` bytes no reader is lost if and only if `L` is
  at most the 512 bytes of a pipe.
* **Links.** In every run, until a 16-bit count overflows, each count is the
  number of entries, plus the calls under way that have counted ahead, plus
  counts that were lost. A count is lost exactly when `iput` frees a directory
  that has entries. A link or a new file in `d` and then the departure of the
  last user of `d` leave the counts right if and only if `d` had a link itself,
  which the code does not check; a run of the calls ends with a file of one name
  and two links. A new directory leaves the counts right in either case, but can
  be reached from the root if and only if `d` had a link; otherwise `d` stays
  with a count and without a name.
* **Parsing.** Printing a command tree as a line of tokens and parsing tokens
  are inverse, the parser on characters agrees with the one on tokens, and the
  in-place terminators leave every word whole.

Where the code does other than its comments or its design promise, the model
follows the code: the log has room for one block less than `param.h` says,
`log_write` tests for a full log before it looks for the block, a killed writer
of a pipe returns without waking the readers, a failed `allocuvm` keeps its page
tables, `malloc` asks the kernel for too little from 2^28 units on,
`allocproc` hands out a slot with whatever killed flag `kill` left on it, and
`link` and `create` do not look whether their directory still has a name.

## Model

| member | source | states |
|---|---|---|
| BufferCache.RingUnlink | Source Code/bio.c:132-133 | taking a buffer out of the doubly linked ring leaves a ring of the others in their order |
| BufferCache.RingPush | Source Code/bio.c:134-137 | linking a buffer behind the head gives a ring with it in front |
| BufferCache.Bcache.constructor | Source Code/bio.c:38-56 | the ring covers all buffers, none is in use |
| BufferCache.Bcache.FindCached | Source Code/bio.c:68-76 | the buffer that caches the block, or none exists |
| BufferCache.Bcache.FindVictim | Source Code/bio.c:78-91 | among the unused clean buffers the one released longest ago, or none exists |
| BufferCache.Bcache.Bget | Source Code/bio.c:61-93 | succeeds exactly when the block is cached or a buffer can be recycled, the one released longest ago; the caller waits exactly when another process holds the buffer; no block is ever cached twice |
| BufferCache.Bcache.Acquire | Source Code/bio.c:73-73 | a waiting caller gets the buffer it counted itself on, which nobody could recycle meanwhile |
| BufferCache.Bcache.Bread | Source Code/bio.c:96-106 | unless the caller has to wait, the locked buffer holds the cached contents, or those on disk |
| BufferCache.Bcache.Load | Source Code/bio.c:102-104 | the locked buffer holds its block, read from disk only if it did not |
| BufferCache.Bcache.Bwrite | Source Code/bio.c:109-116 | one block of the disk changes, by one atomic write |
| BufferCache.Bcache.MoveToFront | Source Code/bio.c:130-138 | the ring stays sorted by time of release, with the buffer in front |
| BufferCache.Bcache.Brelse | Source Code/bio.c:120-141 | the last user's release makes the buffer the most recently used, any other leaves the order alone |
| CacheView.FetchKeepsView | Source Code/bio.c:61-106 | reading and recycling change nothing that a reader sees and pin nothing |
| CacheView.ReleaseKeepsView | Source Code/bio.c:120-141 | releasing changes nothing that a reader sees |
| CacheView.StoreChangesView | Source Code/bio.c:109-116 | new contents, written or pinned, are what every later reader sees at that block, and only there |
| CacheView.SomeBufferIsFree | Source Code/bio.c:78-92 | with fewer busy blocks than buffers, bget never panics |
| RedoLog.HeaderRoundTrip | Source Code/log.c:85-113 | the header that write_head stores reads back as the same list of blocks |
| RedoLog.InstallAgain | Source Code/log.c:69-82 | installing again from any partly installed image ends in the same disk |
| RedoLog.RecoveryRestarts | Source Code/log.c:115-122 | a crash after any write of a recovery changes nothing in what recovery ends with |
| RedoLog.CrashChainOutcome | Source Code/log.c:115-122 | any number of recoveries cut short, the one that completes restores the same home blocks and an empty log |
| RedoLog.CommittedRecovers | Source Code/log.c:177-202 | once the header is on disk, recovery equals writing the transaction straight home |
| RedoLog.CommitIsAtomic | Source Code/log.c:192-202 | a crash after any number of a commit's writes recovers all old or all new blocks, the new ones exactly from the header write on |
| RedoLog.CrashAnywhere | Source Code/log.c:14-31 | wherever a run crashes and however often recovery is interrupted, the committed snapshot that the image stands for comes back |
| Log.CommitTracked | Source Code/log.c:192-202 | a commit extends a crash-safe run of disk images to a crash-safe run with one more snapshot |
| Log.RecoveryTracked | Source Code/log.c:115-122 | the images of a boot form a crash-safe run |
| Log.CommitOutcome | Source Code/log.c:192-202 | what a commit leaves on disk is what readers saw before it |
| Log.Log.constructor | Source Code/log.c:53-66 | boot ends with the recovered disk, shown as it is, and an empty log |
| Log.Log.CopyToLog | Source Code/log.c:182-189 | one disk write of a pinned block into the log, no home block touched |
| Log.Log.WriteLog | Source Code/log.c:177-190 | the log blocks hold what readers see of the pinned blocks, write by write |
| Log.Log.WriteHead | Source Code/log.c:101-113 | the header block alone changes, by one write |
| Log.Log.CopyHome | Source Code/log.c:74-81 | one logged block reaches its home and is unpinned |
| Log.Log.InstallTrans | Source Code/log.c:69-82 | all logged blocks reach their homes, write by write, and none stays pinned |
| Log.Log.ReadHead | Source Code/log.c:85-96 | the in-memory list is the one on disk |
| Log.Log.CrashSafe | Source Code/log.c:14-31 | a crash at any disk write since boot, then any number of interrupted recoveries, brings back a committed snapshot; a later crash never an older one |
| Log.Log.CrashNow | Source Code/log.c:14-31 | between commits a crash brings back the last commit in full and nothing of the operations under way |
| Log.Log.Recover | Source Code/log.c:115-122 | the disk is the recovered one and its images are those of a recovery |
| Log.Log.Commit | Source Code/log.c:192-202 | readers see no change, the disk catches up with them, the history grows by this transaction and every image on the way recovers to it or its predecessor |
| Log.Log.LogWrite | Source Code/log.c:213-233 | refuses exactly under the source's three guards; otherwise the buffer is pinned and the block listed once |
| Log.Log.Update | Source Code/log.c:204-233 | readers see the new block at once and the disk keeps the old one until the commit |
| Log.Log.BeginOp | Source Code/log.c:125-141 | admitted exactly when no commit is under way and every active operation could still log its full allowance |
| Log.Log.EndOp | Source Code/log.c:145-174 | the last operation commits, an earlier one leaves disk and view alone |
| LogAdmission.NextKeepsInv | Source Code/log.c:125-233 | every step of every process keeps the reservation invariant |
| LogAdmission.RunKeepsInv | Source Code/log.c:125-233 | so does every run, of any number of processes |
| LogAdmission.AdmissionIsSafe | Source Code/log.c:125-174 | in every reachable state no operation is active during a commit, an append within its allowance passes, end_op never meets a commit, and a sleeper has someone to wake it |
| LogAdmission.GuardExact | Source Code/log.c:218-219 | for every size and every u, an operation that has logged u blocks passes that test in every reachable state if and only if u is below MAXOPBLOCKS less the blocks that the disk log lacks |
| LogAdmission.SizeGuardExact | Source Code/log.c:218-219 | every allowed append passes the test on the on-disk size if and only if the size exceeds LOGSIZE; with the size that mkfs gives, an operation is sure of MAXOPBLOCKS - 1 blocks and no more |
| LogAdmission.RoomExact | Source Code/log.c:125-233 | an operation that has logged u blocks finds room in every reachable state if and only if u is below MAXOPBLOCKS |
| LogAdmission.FullLogIsReachable | Source Code/log.c:213-233 | with three operations the log does fill up while one is active, so a rewrite of a logged block can be refused |
| Volume.LinkedKeepsInv | Source Code/fs.c:373-401 | giving a free block to an empty slot keeps one owner per block |
| Volume.StoreChangesBytes | Source Code/fs.c:499-505 | a store into a file's block changes those bytes of that file and no byte of any other |
| Volume.ChunkStored | Source Code/fs.c:499-505 | a chunk inside one block overwrites a slice of the flat file |
| Volume.ChunkRead | Source Code/fs.c:470-475 | a chunk read from one block is that slice of the flat file |
| Volume.WrittenContents | Source Code/fs.c:482-512 | after a write the file is the old bytes before it, the new bytes, and the old bytes behind |
| Volume.FileWrittenTwice | Source Code/file.c:134-152 | two adjacent writes amount to one write of both pieces |
| Volume.ResizedKeepsInv | Source Code/fs.c:507-510 | raising the size to the end of the write keeps all blocks below the size mapped |
| Volume.TruncatedKeepsInv | Source Code/fs.c:408-436 | truncation empties one file, leaves all others and keeps one owner per block |
| Volume.UsedCount | Source Code/fs.c:56-96 | blocks in use are the metadata blocks plus one per taken slot, and no two slots share a block |
| Files.Fs.constructor | Source Code/mkfs.c:93-115 | an empty volume satisfies the ownership invariant, with any layout of bitmap and inodes |
| Files.Fs.Balloc | Source Code/fs.c:56-78 | takes and zeroes the first free block, and fails exactly when there is none |
| Files.Fs.Bfree | Source Code/fs.c:81-96 | fails exactly on a free block, otherwise frees that block only |
| Files.Fs.MapAddr | Source Code/fs.c:379-389 | an absent address gets the first free block for its own, a present one is returned with nothing changed |
| Files.Fs.Bmap | Source Code/fs.c:373-401 | the block of any file block below MAXFILE, made when missing; fails exactly beyond that or when too few blocks are free; no file's bytes change |
| Files.Fs.WriteChunk | Source Code/fs.c:499-505 | one iteration overwrites one chunk, and takes and logs exactly the blocks of one step |
| Files.Fs.WriteAll | Source Code/fs.c:499-505 | the loop overwrites exactly the given range, along the course of the steps |
| Files.Fs.Iupdate | Source Code/fs.c:221-237 | the inode on disk equals the one in memory |
| Files.Fs.Writei | Source Code/fs.c:482-512 | refuses exactly a range past the end, wrapping, or beyond the largest file; runs out exactly when fewer blocks are free than the range lacks; otherwise writes all bytes, takes the first free blocks, and logs exactly the set that the old volume determines |
| Files.Fs.Readi | Source Code/fs.c:453-477 | refuses exactly a range past the end or wrapping; otherwise returns the file's slice cut at its end, allocating nothing |
| Files.Fs.Filewrite | Source Code/file.c:117-156 | the transactions tile the bytes written, in order, and each logged exactly what its write logs and at most MAXOPBLOCKS blocks; success writes all bytes, failure a prefix whose continuation is refused |
| Footprint.ChunkCost | Source Code/file.c:127-138 | a piece of the size the code uses stays within the allowance at every offset |
| Footprint.MapStepIs | Source Code/fs.c:373-401 | bmap fails exactly when fewer blocks are free than it lacks, otherwise takes the first free ones and logs them, their bitmap blocks and the changed indirect block |
| Footprint.RunBytesIs | Source Code/fs.c:499-505 | the loop of writei in closed form: when it succeeds, which blocks it takes, and which it logs |
| Footprint.LogBound | Source Code/file.c:127-133 | in every volume the blocks that a write logs are at most a count that depends on its offset and length alone |
| WidestWrite.ChunkFillsTransaction | Source Code/file.c:127-133 | a sound volume on which a piece of the code's size logs exactly MAXOPBLOCKS blocks |
| WidestWrite.TooWide | Source Code/file.c:127-133 | for every larger piece that a file can hold, a sound volume on which it logs more |
| WidestWrite.ChunkIsLargest | Source Code/file.c:127-138 | a size fits a transaction in every volume and at every offset if and only if it is at most the one the code uses, or more than a file can hold |
| Files.Fs.Itrunc | Source Code/fs.c:408-436 | exactly the file's blocks become free, and bfree never panics on the way |
| Links.NoDanglingEntry | Source Code/sysfile.c:184-239 | no entry names a free inode, but for the .. of a directory without a name |
| Links.AttachedIsLinked | Source Code/fs.c:332-353 | when nameless directories are empty, a directory has a name exactly when its link count is positive |
| Links.ReachesRoot | Source Code/sysfile.c:184-284 | when nameless directories are empty, the names lead from every directory that has one up to the root |
| Links.CountAhead | Source Code/sysfile.c:140-142 | counting a link before it exists keeps the counts right if and only if the 16-bit count has room |
| Links.CountBack | Source Code/sysfile.c:158-163 | counting back keeps them right |
| Links.EnterKeeps | Source Code/fs.c:552-579 | writing the entry keeps the counts right and the tree in shape, whether or not the directory has a name |
| Links.LinkThenLeave | Source Code/sysfile.c:140-152 | a file is linked into d and the last user of d goes: the counts are right if and only if d had a link; otherwise the file keeps one count without an entry |
| Links.CreateThenLeave | Source Code/sysfile.c:241-284 | the same for a new file or device |
| Links.MkdirThenLeave | Source Code/sysfile.c:261-284 | for a new directory the counts are right in either case, d is not freed, and both can be reached from the root if and only if d had a link |
| Links.UnlinkKeeps | Source Code/sysfile.c:184-239 | unlink keeps the invariant and its panic on nlink below 1 never fires |
| Links.FreeKeeps | Source Code/fs.c:332-353 | freeing an inode without links leaves no entry pointing at it, and what its own entries named keeps the counts |
| Links.FreeExact | Source Code/fs.c:332-353 | after iput has freed an inode the counts are right if and only if it had no entries but the dots |
| Links.LostIsKept | Source Code/fs.c:332-353 | an inode with a lost count is in use and never reaches a count of zero |
| Links.AllocKeeps | Source Code/fs.c:195-215 | a fresh inode counted ahead keeps the counts right |
| Links.UnlinkSound | Source Code/sysfile.c:184-239 | after unlink the counts are right, names are still unique and directories still older than those below them |
| Links.MadeDirKeeps | Source Code/sysfile.c:261-279 | making a directory keeps the counts right and the tree in shape if and only if its parent can count one more |
| Directories.Inodes.constructor | Source Code/mkfs.c:117-128 | the file system that mkfs makes is a sound tree |
| Directories.Inodes.DirLookup | Source Code/fs.c:525-549 | the first entry with the name, compared up to DIRSIZ characters, or none has it |
| Directories.Inodes.FindSlot | Source Code/fs.c:565-571 | the first empty entry, or the end |
| Directories.Inodes.FindFree | Source Code/fs.c:195-215 | the first free inode, if there is one |
| Directories.Inodes.IsDirEmpty | Source Code/sysfile.c:168-181 | true exactly when nothing but the dots is there |
| Directories.Inodes.Iget | Source Code/fs.c:242-273 | one more user, the invariant kept |
| Directories.Inodes.Iput | Source Code/fs.c:332-353 | the last user of an unlinked inode frees it, any other call frees nothing; counts are lost exactly when a directory with entries is freed, and none are when nameless directories are empty |
| Directories.Inodes.LinkBegin | Source Code/sysfile.c:133-142 | refuses directories; afterwards the counts are right exactly when the count had room |
| Directories.Inodes.LinkEnd | Source Code/sysfile.c:144-165 | fails exactly on a taken name and then undoes the count; nameless directories stay empty exactly when the directory has a name |
| Directories.Inodes.UnlinkEntry | Source Code/sysfile.c:184-225 | refuses exactly the dots, a missing name and a directory that is not empty; otherwise the first entry with the name is gone and the counts are right |
| Directories.Inodes.UnlinkCount | Source Code/sysfile.c:227-229 | the count follows the entry |
| Directories.Inodes.CreateFile | Source Code/sysfile.c:261-284 | a new file or device under a new name; nameless directories stay empty exactly when the directory has a name |
| Directories.Inodes.CreateDir | Source Code/sysfile.c:261-284 | a new directory with its dots; the counts are right exactly when the parent had room, and nameless directories stay empty exactly when it has a name |
| Directories.Inodes.Create | Source Code/sysfile.c:241-284 | the five outcomes, each exactly when: an existing file that was asked for, a name taken by something else, a .. whose directory is gone, no free inode, or the first free inode under the new name |
| Directories.StrayRun | Source Code/sysfile.c:117-239 | mkfs, create, mkdir, then an unlink between the two halves of a link, and the iput that ends it: no call is under way and the file has one entry and two links |
| LinkOverflow.FullCount | Source Code/sysfile.c:117-165 | a run that gives a file 32767 links, in directories that fit in a file |
| LinkOverflow.OneTooMany | Source Code/sysfile.c:140-142 | one more link makes its count -32768 |
| Umalloc.BlocksDisjoint | Source Code/umalloc.c:24-90 | no two blocks, live or free, overlap |
| Umalloc.MergedTiles | Source Code/umalloc.c:33-42 | joining two neighbours keeps the blocks a partition of the same units |
| Umalloc.SplitTiles | Source Code/umalloc.c:78-82 | cutting a block keeps the blocks a partition of the same units |
| Umalloc.UpperMerge | Source Code/umalloc.c:33-37 | joining to the upper neighbour keeps an ordered ring without overlap |
| Umalloc.LowerMerge | Source Code/umalloc.c:38-42 | joining to the lower neighbour gives an ordered ring in which no two free blocks touch |
| Umalloc.NoneFits | Source Code/umalloc.c:74-89 | a walk that came back to its start without a fit has seen every free block |
| Umalloc.EnoughRoom | Source Code/umalloc.c:69-69 | the block holds the requested bytes if and only if the rounding stays within 32 bits |
| Umalloc.RequestExact | Source Code/umalloc.c:46-61 | the kernel is asked for the units needed if and only if they are below 2^28 |
| Umalloc.BreakMoves | Source Code/umalloc.c:46-61 | the break moves by the units that morecore takes if and only if the request is below 2^28 units, and otherwise by less |
| Umalloc.RoomFailsNearTheTop | Source Code/umalloc.c:63-69 | two concrete requests near 2^32 for which this fails |
| Umalloc.Allocator.FindSpot | Source Code/umalloc.c:30-32 | stops at the free block behind which the address belongs |
| Umalloc.Allocator.Free | Source Code/umalloc.c:24-44 | the block stops being live, no other live block changes, no unit is lost, and its size fits again |
| Umalloc.Allocator.Morecore | Source Code/umalloc.c:46-61 | on a grant the new units are free, a request of that size fits, and the heap is within the break exactly below 2^28 units; on failure nothing changes |
| Umalloc.Allocator.Walk | Source Code/umalloc.c:74-89 | finds a block of enough units exactly when one is free |
| Umalloc.Allocator.Carve | Source Code/umalloc.c:75-85 | exactly n units become live, disjoint from all live blocks, which keep their sizes |
| Umalloc.Allocator.Malloc | Source Code/umalloc.c:63-90 | null exactly when nothing fits and sbrk fails; otherwise a new live block of the rounded size, with sbrk asked at most once and no unit lost; the heap stays within the break exactly when sbrk was not asked or the request is below 2^28 units |
| PageTable.NewLeaf | Source Code/vm.c:44-53 | a new page table belongs to one entry and shows in no address space |
| PageTable.StoredView | Source Code/vm.c:66-79 | storing an entry changes that page of that address space and no other |
| PageTable.MapsUser | Source Code/vm.c:66-79 | a mapped user frame has that page as its one owner |
| PageTable.Evicts | Source Code/vm.c:269-276 | an unmapped frame is free and owned by nobody |
| PageTable.NewDir | Source Code/vm.c:118-128 | a zeroed frame is a directory that maps nothing |
| PageTable.Disbanded | Source Code/vm.c:283-298 | a directory without user pages can be given up with its page tables |
| PageRange.WroteAt | Source Code/vm.c:60-80 | a loop over consecutive pages sets exactly those pages |
| PageRange.ClearsAbsent | Source Code/vm.c:265-268 | skipping over an absent page table skips nothing that was mapped |
| KernelMap.KernelViewAt | Source Code/vm.c:105-115 | every page of a row of kmap goes to its frame with the row's rights, and no other page is mapped |
| KernelMap.KernelTablesAre | Source Code/vm.c:105-136 | the kernel part needs 64 page tables |
| VirtualMemory.Kernel.Kalloc | Source Code/kalloc.c:82-95 | fails exactly on an empty free list; the frame was free and is now held by the caller |
| VirtualMemory.Kernel.Kfree | Source Code/kalloc.c:59-77 | the frame is scribbled over and heads the free list |
| VirtualMemory.Kernel.GiveBack | Source Code/kalloc.c:59-77 | a frame in the caller's hands is free again and no address space shows a difference |
| VirtualMemory.Kernel.Freerange | Source Code/kalloc.c:46-53 | exactly the whole pages of the range become free |
| VirtualMemory.Kernel.WalkPgdir | Source Code/vm.c:35-55 | found exactly when the table is there or may be made from a free frame; no mapping changes |
| VirtualMemory.Kernel.MapPages | Source Code/vm.c:60-80 | succeeds exactly when the free frames cover the missing page tables; then exactly the given pages are new, otherwise a prefix of them |
| VirtualMemory.Kernel.Deallocuvm | Source Code/vm.c:255-279 | exactly the pages between the two sizes leave, their frames are free, and no other frame is |
| VirtualMemory.Kernel.Freevm | Source Code/vm.c:283-298 | every frame of the address space is free again, all else is unchanged |
| VirtualMemory.Kernel.Setupkvm | Source Code/vm.c:118-136 | succeeds exactly with 65 free frames; otherwise every frame is back and every other table and page as it was |
| VirtualMemory.Kernel.Rollback | Source Code/vm.c:235-246 | a partial growth leaves the view and all else as before it, and the page tables it made |
| VirtualMemory.Kernel.Allocuvm | Source Code/vm.c:221-249 | succeeds exactly when the frames cover new pages and missing tables; then exactly those pages are new, zeroed and writable; failure leaves view, bytes and other spaces alone and keeps the tables made; all frames return exactly when no table of the range was missing or the frames ran out before the first missing one |
| FrameRuns.KeepsTable | Source Code/vm.c:221-249 | a run in which a failed growth by two pages leaves one free frame less |
| VirtualMemory.TablesKept | Source Code/vm.c:221-249 | where the growth stopped decides whether a page table was made |
| VirtualMemory.Conserved | Source Code/vm.c:221-279 | when view and all else are as before, free frames and page tables together are as many as before |
| VirtualMemory.FrameCount | Source Code/vm.c:221-279 | every frame is free, outside the space, its directory, one of its page tables or one of its pages |
| VirtualMemory.Kernel.CopyLoop | Source Code/vm.c:325-337 | the pages copied so far carry the parent's bytes and flags in frames of their own |
| VirtualMemory.Kernel.Copyuvm | Source Code/vm.c:315-343 | succeeds exactly when the frames suffice and the child is a copy; failure gives all frames back, except one exactly when the page table for a copied page is what is missing, and leaves every table and page that was in use as it was |
| FrameRuns.LosesFrame | Source Code/vm.c:315-343 | a run in which a failed copy of one page leaves a frame that nobody owns and that is not free |
| VirtualMemory.Restored | Source Code/vm.c:221-279 | clearing a range takes back whatever was mapped into it |
| VirtualMemory.CopyLeaks | Source Code/vm.c:332-342 | running out at a page table is the losing case |
| VirtualMemory.CopyStops | Source Code/vm.c:332-342 | running out at a page is not |
| ProcTable.ReachesInit | Source Code/proc.c:262-306 | from every process the parent links lead to init |
| ProcTable.DeadHaveNoChildren | Source Code/proc.c:290-300 | no zombie and no free slot is anyone's parent |
| ProcTable.ExitKeeps | Source Code/proc.c:262-306 | exit keeps the tree, the waiters' invariant and the accounting of pids |
| ProcTable.ExitWakes | Source Code/proc.c:287-297 | exactly the sleepers on the parent wake up, and those on init if and only if it takes over a zombie |
| ProcTable.ReapKeeps | Source Code/proc.c:326-338 | a reaped pid had exited and was never reaped before |
| ProcTable.TakenKeeps | Source Code/proc.c:110-154 | a new slot has a pid that no other slot has |
| ProcTable.GrownKeeps | Source Code/proc.c:216-257 | each step of fork keeps the invariant |
| ProcTable.AwakeSame | Source Code/proc.c:310-351 | waking up changes neither the outcome of wait nor the child it finds |
| ProcTable.Table.constructor | Source Code/proc.c:158-190 | init alone is a process, and no flag is set |
| ProcTable.Table.Wakeup1 | Source Code/proc.c:509-517 | exactly the sleepers on the channel become runnable |
| ProcTable.Table.Wakeup | Source Code/proc.c:520-526 | the same, and the invariant is kept |
| ProcTable.Table.Adopt | Source Code/proc.c:290-297 | the children of the process, and no others, pass to init |
| ProcTable.Table.Exit | Source Code/proc.c:285-305 | the caller is a zombie, its children are init's, its pid counts as exited, and the invariant is kept |
| ProcTable.Table.FindZombie | Source Code/proc.c:320-340 | the first zombie child, and whether there are children at all |
| ProcTable.Table.Reap | Source Code/proc.c:326-338 | the slot is free and its pid can never be returned again |
| ProcTable.Table.Wait | Source Code/proc.c:310-351 | a pid, no child, or sleep, exactly by the state of the children |
| ProcTable.Table.AllocProc | Source Code/proc.c:110-154 | fails exactly when no slot is free; otherwise takes the first free one with a new pid, the rest of it, its killed flag included, as it was left; unmarked when no free slot is marked |
| ProcTable.Table.ForkFails | Source Code/proc.c:224-235 | a failed fork frees its slot and nothing else; no free slot is marked afterwards exactly when the embryo was not |
| ProcTable.Table.SetParent | Source Code/proc.c:237-237 | the child has its parent and the tree is kept |
| ProcTable.Table.ForkStart | Source Code/proc.c:250-257 | the child may run and its pid is returned |
| ProcTable.Table.Sleep | Source Code/proc.c:472-504 | the caller alone goes to sleep |
| ProcTable.Table.Yield | Source Code/proc.c:438-447 | the caller alone becomes runnable |
| ProcTable.Table.Schedule | Source Code/proc.c:361-409 | a runnable process alone becomes running |
| ProcTable.Table.Kill | Source Code/proc.c:531-549 | fails exactly when no slot has the pid; marks the first that has it, the only one for a pid above 0; a sleeper is awake; no free slot is marked afterwards exactly when that slot was in use |
| ProcTable.BornKilled | Source Code/proc.c:110-154 | a run, in a table of any size: kill(0) marks a free slot, and the next fork makes a killed child of it |
| SleepWakeup.SeenMarked | Source Code/proc.c:472-526 | while a process wakes others nobody is between the two locks, so none is missed |
| SleepWakeup.FineStepKeeps | Source Code/proc.c:472-526 | the two locks and the places of all processes agree after every step |
| SleepWakeup.StepRefines | Source Code/proc.c:472-526 | every step of the two-lock protocol is a step of an atomic sleep, or none |
| SleepWakeup.Transfer | Source Code/sleep1.p:54-133 | what the atomic machine keeps, every run of the two-lock protocol keeps, for any program |
| SleepLock.StepKeepsGood | Source Code/sleeplock.c:22-42 | every step keeps the sleep lock's invariant |
| SleepLock.MutualExclusion | Source Code/sleeplock.c:22-42 | in every run at most one process holds the lock |
| SleepLock.NoLostWakeup | Source Code/sleeplock.c:22-42 | in every run a process asleep on the lock means that the lock is held |
| Pipe.FullEmpty | Source Code/pipe.c:85-106 | the tests on the wrapping counters mean 512 bytes and none |
| Pipe.PutKeeps | Source Code/pipe.c:93-93 | accepting a byte keeps the order, across wrap-around |
| Pipe.TakeKeeps | Source Code/pipe.c:116-116 | the byte delivered is the oldest one not yet delivered |
| Pipe.AlwaysFifo | Source Code/pipe.c:59-121 | in every run the bytes delivered are a prefix of those accepted, at most 512 behind |
| Pipe.AlwaysGood | Source Code/pipe.c:59-121 | every state of every run, killed writers and early closes included, satisfies the writers' invariant |
| Pipe.StepKeeps | Source Code/pipe.c:59-121 | every step keeps that invariant |
| Pipe.NoLostWriter | Source Code/pipe.c:78-98 | in every run, with the lock free, a sleeping writer means a full pipe whose read end is open |
| Pipe.NoLostReader | Source Code/pipe.c:101-121 | in every run without killed writers, with the lock free, a sleeping reader means an empty pipe whose write end is open |
| Pipe.ShortWritesLoseNobody | Source Code/pipe.c:78-121 | with writes of at most 512 bytes that holds in every run, whoever is killed and whatever is closed |
| Pipe.ShortWritesExact | Source Code/pipe.c:78-121 | it holds in all runs with writes of at most L bytes if and only if L is at most 512 |
| Pipe.KilledWriterLosesReader | Source Code/pipe.c:78-98 | a concrete run with a write of 513 bytes after which a reader sleeps beside a full pipe |
| ShellGrammar.PrintThenRead | Source Code/sh.c:431-533 | every command tree prints to tokens that parse to it |
| ShellGrammar.ReadThenPrint | Source Code/sh.c:431-533 | whatever parses prints to tokens that parse to the same tree |
| ShellGrammar.ExecBack | Source Code/sh.c:502-533 | a printed command with redirections behind it parses back, wrapped in them |
| ShellGrammar.PipeBack | Source Code/sh.c:448-459 | a printed pipeline parses back |
| ShellGrammar.LineBack | Source Code/sh.c:431-446 | a printed line parses back, ampersands and lists included |
| ShellGrammar.LineBag | Source Code/sh.c:431-533 | a parse keeps every word it consumed exactly once, and no argument list exceeds MAXARGS |
| Shell.LexWords | Source Code/sh.c:352-395 | the words found are the maximal runs of word characters, each once |
| Shell.GetToken | Source Code/sh.c:352-395 | the next token with its span, and the cursor at the rest |
| Shell.Peek | Source Code/sh.c:397-407 | tells the next symbol and consumes no token |
| Shell.ParseRedirs | Source Code/sh.c:461-484 | collects the redirections or fails exactly on a missing file name |
| Shell.ParseArgs | Source Code/sh.c:516-532 | the arguments and redirections as the grammar reads them, or the same panic |
| Shell.ParseExec | Source Code/sh.c:486-533 | the command or block as the grammar reads it, or the same panic |
| Shell.ParsePipe | Source Code/sh.c:448-459 | the pipeline as the grammar reads it, or the same panic |
| Shell.ParseLine | Source Code/sh.c:431-446 | the line as the grammar reads it, or the same panic |
| Shell.NulTerminate | Source Code/sh.c:536-580 | NULs at the ends of the tree's words and nowhere else |
| Shell.WordsStay | Source Code/sh.c:536-580 | the NULs leave every word whole and end it |
| Shell.ParseCmd | Source Code/sh.c:414-429 | succeeds exactly when the whole line parses; the tree has each word of the line once, readable in place |
| Grep.MatchHere | Source Code/grep.c:84-96 | true exactly when a prefix of the text is a word of the pattern |
| Grep.MatchStar | Source Code/grep.c:98-106 | true exactly when some run of the starred character is followed by a match of the rest |
| Grep.Match | Source Code/grep.c:72-82 | true exactly when some slice of the text is a word of the pattern, anchors respected |

## Left out

- The disk driver `ide.c` and its queue: a block write is one atomic step, as in `memide.c`.
- The encoding of inodes, indirect blocks and directory entries as bytes; only the log header is decoded from its block.
- Reading by other processes while a commit is under way: the log runs alone on the cache there, and its concurrency is in `LogAdmission`.
- Directory contents as files: `Directories` holds entries as a list, without the size limit of a file and without path walking (`namex`).
- Reading and writing devices, open files and their reference counts (`file.c`), and the file descriptors of a process; a device inode is only linked, unlinked and created.
- The free list's links inside free pages; the list is a sequence of frames.
- Physical frames are held in two readings, as tables and as plain pages, and each operation uses the reading the source uses.
- `inituvm`, `loaduvm`, `clearpteu`, `uva2ka` and `copyout`, which copy bytes or clear a bit through one `walkpgdir`; `exec`, the boot sequence and the segment tables.
- The context switch, traps, interrupts and the locks' instructions; a lock is a step of a state machine.
- The 32-bit wrap-around of `nextpid`.
- `runcmd`, the stream loop of `grep`, the other user programs, and the course's conditional code (`CS333_*`).
- Log.Log.Update: asks that no other buffer is held, where `bmap` and `balloc` log a block while they hold another; `LogWrite` itself does not ask for it.
- Files.Fs.constructor: starts from an empty volume, where `mkfs` goes on to write the root directory and the programs with calls like those modelled.
- Directories.Inodes.Iget: counts users without the limit of the inode cache, and so without the panic when it is full.
- Umalloc.Allocator.Malloc: asks for a heap within the break and for a `sbrk` that grants memory from the old break on; the first of these is what a request of 2^28 units or more ends, as the contract says.
- Umalloc.Allocator.Morecore: asks for the same.
- Umalloc.Allocator.Free: asks for a live block, as the source does without checking.
- Pipe.NoLostReader: supposes that no writer is killed and that the read end is closed only when nobody reads; `ShortWritesExact` says for which writes neither is needed.
- VirtualMemory.Kernel.MapPages: asks for a non-empty range of unmapped pages, since the source panics on a mapped one.
- VirtualMemory.Kernel.Copyuvm: asks that the parent's pages are all present, since the source panics otherwise.
- Files.Fs.Filewrite: a full disk is an answer after which nothing is promised, since the source panics.
- ProcTable.Table.Exit: starts where the open files have been closed; init and a process that is forking cannot call it.
- ProcTable.Table.Sleep: takes the two locks as held throughout; `SleepWakeup` has the handover.
- Shell.ParseArgs: collects the arguments before it builds the node, where the source fills the node in place.
