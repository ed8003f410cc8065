# xv6 in Dafny

A model of the parts of xv6-riscv that carry its promises, and proofs of those promises: the
crash-safe file system (redo log, buffer cache, inodes, directories), virtual memory and the two
allocators, the multi-level feedback queue scheduler, the virtio disk driver, pipes, and from user
space the shell's parser and grep's matcher.

Code that works in place is modelled as classes and arrays whose methods are proved against functions
of the old state. A protocol between several processes, or between the kernel and a device, is a step
machine, and its properties hold in every state of every run. The methods are then shown to be steps
of that machine, or to issue exactly the disk writes that it describes.

| files | what they model |
|---|---|
| Blocks, Common, Bitmap, DiskLayout | bytes, words and blocks; the free bit map with the code's own masks; what lies where on the disk |
| CrashSafety | the disk writes of commit and recovery, cut anywhere, any number of times |
| BufferCache, RedoLog | the cache's linked ring and the log above it, down to each disk write |
| LogReservation, FullLog | begin_op, log_write and end_op run by any number of processes; what happens when they fill the log |
| Inodes, Dinodes, FileSystem, FileCrashes | block ownership, inodes on disk, reading, writing and truncating files; a file write across crashes |
| LinkCounts, DirectoryNames, Directories, LinkOverflow | link counts, what each name stands for, and the directory system calls |
| FreeList, UserMalloc | user-space malloc as a list of blocks, and as headers in memory |
| PageTables, PageOwners, Paging, UserCopy | Sv39 tables, who owns each physical page, address spaces, copying in and out |
| Mlfq, HartScheduler | the scheduler's step machine and the code of one hart |
| VirtioQueue, VirtioDisk | the split virtqueue with its device, and the driver's code |
| PipeQueue, PipeIo | pipes between any readers and writers, and the code over the 512-byte buffer |
| ShellGrammar, ShellParser | the parser as functions, and its loops |
| ShellLines, ShellRoundTrip, ShellLanguage, ShellWords | what is typed, what it means, and that exactly this is parsed; termination in place |
| Grep | the matcher against the language of the pattern |

## Model

| member | source | states |
|---|---|---|
| CrashSafety.HeaderRoundTrip | kernel/log.c:88-115 | reading a header block back gives exactly the block list that was written, whatever the block held before |
| DiskLayout.HeaderLayout | kernel/log.c:104-115 | byte by byte, the header block holds the number of blocks and then theirs |
| CrashSafety.CrashAtomicity | kernel/log.c:66-204 | commit (lines 180-204 write the log, the header, the home blocks and the empty header) is cut after any number of disk writes and followed by any number of recoveries, each cut anywhere; once one recovery completes the home blocks are all new if and only if the header write had reached the disk, and all old otherwise |
| CrashSafety.RebootsOfPending | kernel/log.c:118-124 | however often recovery is itself interrupted, the committed transaction stays pending until one recovery completes, and its contents are in place from then on |
| CrashSafety.RecoveryIdempotent | kernel/log.c:118-124 | recovering a recovered disk changes no home block |
| CrashSafety.HistoryIsSerial | kernel/log.c:195-204 | over every history of commits and crashes the home blocks are, at every quiet point, exactly the transactions that reached their commit point, applied whole and in order |
| BufferCache.Cache.constructor | kernel/bio.c:37-53 | the ring links all buffers, none of them holding a block |
| BufferCache.Cache.Bget | kernel/bio.c:59-89 | a hit takes a reference and changes nothing else; a miss recycles the least recently used unreferenced buffer; it fails if and only if the block is not cached and every buffer is referenced; no block is ever cached twice |
| BufferCache.Cache.Bread | kernel/bio.c:93-103 | the returned buffer is locked and holds the cached bytes on a hit and the bytes of the disk on a miss |
| BufferCache.Cache.Bwrite | kernel/bio.c:107-112 | one write is appended to the trace of disk writes, and the disk stays what the trace made of the initial one |
| BufferCache.Cache.Brelse | kernel/bio.c:117-137 | the pointer surgery moves exactly this buffer to the front of the doubly linked ring, when its last reference goes, and keeps the ring a permutation ordered by last use |
| BufferCache.Cache.Bpin | kernel/bio.c:140-144 | one reference more, and nothing else changes |
| BufferCache.Cache.Bunpin | kernel/bio.c:147-151 | one reference fewer, which may not be the one of the holder of the lock |
| RedoLog.Boot | kernel/log.c:54-63 | from any disk with a legal header, boot yields the invariant of log and cache and serves exactly what a completed recovery leaves |
| RedoLog.Log.Bread | kernel/bio.c:93-103 | under the log the caller sees the latest contents of the block, logged or not, and no contents change |
| RedoLog.Log.LogWrite | kernel/log.c:216-236 | the bytes of the buffer become the contents of the block, its buffer is pinned once however often it is logged, and the list gains the block if it was not there; the panics are exactly for a full log and for no operation outstanding |
| RedoLog.Log.Brelse | kernel/bio.c:117-137 | releasing a buffer whose change was logged changes no contents: a pinned buffer is never recycled |
| RedoLog.Log.BeginOp | kernel/log.c:128-143 | sleeps if and only if a commit runs or the logged blocks and ten for each operation outstanding and for this one are more than thirty; otherwise it joins, and nothing else changes |
| RedoLog.Log.EndOp | kernel/log.c:148-176 | the last operation out commits, all others only leave; contents never change, and after the commit the home blocks on disk are the contents |
| RedoLog.Log.WriteLog | kernel/log.c:180-192 | the disk writes are the logged blocks in order, from buffers that cannot have been recycled |
| RedoLog.Log.WriteHead | kernel/log.c:104-115 | exactly one disk write, of the header block for the in-memory list |
| RedoLog.Log.ReadHead | kernel/log.c:88-98 | the in-memory list is the one on disk |
| RedoLog.Log.InstallTrans | kernel/log.c:67-84 | the disk writes are the log blocks to their home places in order; every pin is dropped in a commit and none in recovery |
| RedoLog.Log.Commit | kernel/log.c:195-204 | its disk writes are, in order, those of the crash model; every logged block is home and the log clear afterwards, and no contents change; it fails only for want of a single unreferenced buffer, before any write |
| RedoLog.Log.RecoverFromLog | kernel/log.c:118-124 | its disk writes are those of the crash model, and cache and log serve what they leave |
| LogReservation.RunKeepsInv | kernel/log.c:127-176 | in every run of any number of processes the log holds at most the budget of the operations in it, and outstanding counts exactly those |
| LogReservation.NoPanicWithinBudget | kernel/log.c:215-236 | in every reachable state an operation that has written fewer than MAXOPBLOCKS distinct blocks meets neither panic of log_write, and end_op never finds a commit going on |
| LogReservation.PanicExactlyWhenFull | kernel/log.c:215-236 | inside an operation log_write panics if and only if the log holds LOGBLOCKS blocks, and then every operation in progress has spent its whole budget |
| LogReservation.SleepersAreWoken | kernel/log.c:127-176 | nobody sleeps in begin_op without an operation or a commit to wake it, and the end of a commit lets the next one in |
| LogReservation.AdmittedIffFits | kernel/log.c:127-143 | in every reachable system begin_op lets a process in if and only if no process commits and the log has room for a full budget of every operation in progress and of this one; no other process changes |
| LogReservation.EndOpCommitsIffLast | kernel/log.c:148-176 | end_op commits if and only if no other operation is in progress; otherwise every sleeper gets to check again and nobody else changes |
| LogReservation.CommitLetsIn | kernel/log.c:127-176 | after a commit whoever slept in begin_op is awake, and the first of them to check is let in |
| LogReservation.FullLogRefusesAbsorption | kernel/log.c:215-236 | a reachable state in which rewriting a block that is in the log already, which needs no space, panics |
| FullLog.FullLogTakesEveryBuffer | kernel/bio.c:59-89 | a log of LOGBLOCKS blocks pins every buffer, since NBUF is the same number |
| FullLog.EndLastOp | kernel/log.c:148-176 | when no process holds a buffer, the last operation out commits if and only if the log holds fewer than NBUF blocks, and otherwise changes nothing |
| FullLog.FillAndFail | kernel/log.c:128-204 | from boot, three operations that begin_op admits together and that write ten blocks each, all accepted by log_write, end in the panic of bget inside commit |
| Bitmap.MarksAreExact | kernel/fs.c:67-106 | setting or clearing the bit of a block, by the masks and shifts of the code, changes that bit and no other |
| DiskLayout.BitmapLayout | kernel/fs.h:48-51 | a block is marked by one bit, the lowest of a byte first, 8192 to a map block |
| Inodes.OwnersAreUnique | kernel/fs.c:406-444 | under the invariant no two slots of any inodes, direct or indirect, name the same block, and a named block is marked |
| Inodes.AllocationIsFresh | kernel/fs.c:67-89 | a block whose bit is clear is named by nobody, and zeroing it disturbs no named block |
| Dinodes.DinodeRoundTrip | kernel/fs.c:227-242 | an inode stored in its block, with type, device numbers, link count, size and addresses, reads back, and the other inodes of the block are as before |
| DiskLayout.DinodeLayout | kernel/fs.h:32-45 | byte by byte, where an inode lies in its block and each of its words in it |
| FileSystem.Fs.Mount | kernel/fs.h:8-24 | any disk that is in order by itself, read through its own inode blocks, yields the invariant and the files it holds |
| FileSystem.Fs.DiskIsSound | kernel/fs.h:8-24 | the partner of Mount: whenever the invariant holds the disk alone is in order and holds the same files |
| FileSystem.SoundBehindTheLog | kernel/fs.h:8-24 | whether a disk is in order, which block belongs to which inode and what every file holds depends on the blocks behind the log alone |
| FileSystem.Fs.Format | kernel/fs.h:8-24 | an empty file system satisfies the invariant; exactly the blocks before the data area are marked |
| FileSystem.Fs.Balloc | kernel/fs.c:67-89 | the first free block, marked, zeroed and logged with its bitmap block; 0 if and only if every block is marked, and then nothing changes |
| FileSystem.Fs.Bfree | kernel/fs.c:93-106 | clears exactly the bit of the block, and panics exactly when it is clear already |
| FileSystem.Fs.Bmap | kernel/fs.c:406-444 | the block of a file block, allocated if need be: ownership is kept, every block of every file stays where it is with its bytes, and 0 means a full disk |
| FileSystem.Fs.Iupdate | kernel/fs.c:227-242 | all words of the inode are in its block, so that the inode blocks on disk are up to date; one block is logged, and no file changes |
| FileSystem.Fs.Readi | kernel/fs.c:495-519 | exactly the slice of the file between the offset and the clipped end, with the wrap-around test on 32 bits; nothing is allocated or changed |
| FileSystem.Fs.Writei | kernel/fs.c:529-562 | the first r bytes of the source lie over the file at the offset and no other file changes; -1 if and only if there would be a hole or the file would be too large, and then nothing changes; a short count means a full disk or a failed copy; every changed block has been logged |
| FileSystem.Fs.Itrunc | kernel/fs.c:449-476 | the file is empty, exactly the blocks it owned are free again, every other file keeps its bytes, and "freeing free block" cannot happen |
| FileSystem.Fs.Filewrite | kernel/file.c:135-179 | the file holds the write up to the returned offset; the write is a chain of transactions, each of which changes only blocks it logged, logs at most MAXOPBLOCKS of them, and leaves a disk that is in order with every other file as it was; they are of three blocks each but for the last |
| FileSystem.Fs.WriteTransaction | kernel/file.c:148-173 | one transaction: at most nine blocks before the inode and the inode as the tenth, and every changed block is among them |
| FileCrashes.TransactionIsAfter | kernel/log.c:195-204 | a transaction of filewrite, in whatever order its blocks were logged, is legal for commit and leaves the disk that writei meant |
| FileCrashes.RecordsExist | kernel/log.c:216-236 | every transaction of a write has a log transaction that records it |
| FileCrashes.LogRecords | kernel/log.c:216-236 | a redo log whose contents are the disk after the transaction, and whose blocks are the logged ones, commits exactly a transaction that records it |
| FileCrashes.CommitRecorded | kernel/log.c:195-204 | commit issues the disk writes that the crash theorem cuts short, and brings the home blocks to the disk the transaction meant |
| FileCrashes.FileSurvivesCrash | kernel/file.c:148-173 | after a crash anywhere in the commit of any transaction of a write, with any crashes inside recovery, the disk is in order again: no block has two owners and exactly the owned ones are marked; the file holds the write up to a transaction boundary, after that transaction if and only if its header write reached the disk; every other file, type and link count is as before the write |
| FileCrashes.CrashSafeWrite | kernel/file.c:135-179 | a call of filewrite establishes the hypotheses of the crash theorem, so that whatever way its transactions are recorded and wherever the machine crashes, the recovered disk can be mounted and has the write up to a transaction boundary |
| FileCrashes.FileAfterWrite | kernel/file.c:148-173 | without a crash the disk is in order and holds the file with the whole of what filewrite did |
| LinkCounts.LinkKeepsInvIff | kernel/sysfile.c:124-170 | link keeps the invariant if and only if the directory is still linked and the count of the file is below the largest short; every count is right, but for the overflow |
| LinkCounts.RemoveKeepsInv | kernel/sysfile.c:189-243 | unlink keeps every link count equal to the names plus the linked subdirectories, for files and empty directories |
| LinkCounts.NamedIsLinked | kernel/sysfile.c:211-216 | the panic "unlink: nlink < 1" cannot happen |
| LinkCounts.DesertedCount | kernel/sysfile.c:174-186 | a directory with nothing but its dot entries has no linked subdirectory |
| LinkCounts.CreateKeepsEquationIff | kernel/sysfile.c:246-302 | create keeps the count of an inode if and only if it is not the ".." target of an unlinked parent that gains a directory, nor that of a parent with the largest count or the parent itself |
| LinkCounts.CreateKeepsInvIff | kernel/sysfile.c:246-302 | create keeps the invariant if and only if the parent is still linked and, for a directory, its count is below the largest short |
| LinkCounts.ReclaimKeepsInv | kernel/fs.c:338-363 | freeing an unlinked inode keeps every count |
| LinkCounts.ReclaimKeepsCountsIff | kernel/fs.c:338-363 | freeing an unlinked inode keeps all counts right if and only if nothing but dot entries is left in it |
| LinkCounts.DirectoryInUnlinked | kernel/sysfile.c:246-302 | mkdir in an unlinked directory leaves the count of the root one short |
| LinkCounts.FileInUnlinked | kernel/sysfile.c:246-302 | a file created in an unlinked directory keeps a link and loses its only name when the directory is freed |
| DirectoryNames.LinkBinds | kernel/sysfile.c:124-170 | after link, the new name stands for the file and every name of every directory for what it did |
| DirectoryNames.RemoveBinds | kernel/sysfile.c:189-243 | after unlink, the name stands for nothing and every other one for what it did |
| DirectoryNames.CreateBinds | kernel/sysfile.c:246-302 | after create, the name stands for the new inode, which holds itself and its parent if it is a directory and nothing otherwise, and every other name stands for what it did |
| LinkOverflow.WrapAround | kernel/sysfile.c:124-170 | a run of create and link from a new file system, with different names in two directories, after which one more link makes the count -32768 and breaks the invariant |
| Directories.Directory.constructor | kernel/fs.h:5-24 | a new file system with an empty root directory satisfies the invariant |
| Directories.Directory.DirLookup | kernel/fs.c:575-598 | finds an entry of that name, and none if and only if there is none |
| Directories.Directory.DirLink | kernel/fs.c:603-629 | succeeds if and only if the name is absent and a slot is empty or can be added; the entry goes there and nothing else changes |
| Directories.Directory.IsDirEmpty | kernel/sysfile.c:174-186 | true if and only if every entry past the two dot entries is empty |
| Directories.Directory.Ialloc | kernel/fs.c:200-220 | the lowest unused inode, cleared and given its type; none if and only if all are in use |
| Directories.Directory.Link | kernel/sysfile.c:124-170 | succeeds if and only if both paths resolve on one device, the file is no directory, the name is absent and there is a slot; then that name stands for the file, every other one for what it did, and names stay unique; a failure takes the raised count back; the invariant holds afterwards if and only if the directory was linked and the count below 32767 |
| Directories.Directory.Unlink | kernel/sysfile.c:189-243 | keeps the invariant; fails on a name that is present only for a directory that is not empty; on success exactly this name stands for nothing any more |
| Directories.Directory.Create | kernel/sysfile.c:246-302 | creates if and only if the name is absent, an inode is unused and there are slots; then the name stands for the new inode, which if a directory knows itself and its parent, every other name for what it did, and names stay unique; otherwise it returns the file that is there, or fails and leaves nothing behind; the invariant holds afterwards if and only if the parent was linked and, for a directory, its count below 32767 |
| Directories.Directory.Iput | kernel/fs.c:338-363 | the last reference frees an unlinked inode; all counts stay right if and only if it was linked or held nothing but dot entries |
| FreeList.RunKeepsInv | user/umalloc.c:25-90 | in every run of malloc, free and sbrk the free list is circular, ordered by address and fully coalesced, and no two free or live blocks overlap |
| FreeList.Conservation | user/umalloc.c:25-90 | the units of free and live blocks add up to what sbrk gave |
| FreeList.InsertKeepsOrder | user/umalloc.c:33-43 | inserting a block apart from the free ones, merged with the neighbours it touches, keeps the list ordered and coalesced |
| FreeList.InsertUnits | user/umalloc.c:33-43 | the list gains exactly the units of the block |
| UserMalloc.Allocator.FindPlace | user/umalloc.c:30-32 | the walk around the ring ends, at the free block behind which the block belongs |
| UserMalloc.Allocator.Free | user/umalloc.c:25-44 | the headers in memory are those of the list with the block inserted at its place and merged; no live header changes |
| UserMalloc.Allocator.Morecore | user/umalloc.c:47-61 | at least 4096 units join the list, which then has a block large enough |
| UserMalloc.Allocator.Malloc | user/umalloc.c:64-90 | a block of the bytes asked for, rounded up to whole units, which lies in nothing else that is allocated: the first fit from freep on, cut off a free block at its end or taken whole; sbrk is asked only when nothing fits, and null is returned if and only if it then refuses |
| PageTables.MapIsTheHardwares | kernel/vm.c:85-115 | the map that all statements about page tables speak of is Sv39 translation, by bits 30, 21 and 12 of the address |
| PageOwners.UserPagesDiffer | kernel/vm.c:146-174 | no two user pages, of one process or of two, are the same physical page, and none is a page-table page or on the free list |
| Paging.Memory.Kalloc | kernel/kalloc.c:69-82 | the head of the free list, of which nobody else has a part; 0 if and only if the list is empty |
| Paging.Memory.Kfree | kernel/kalloc.c:47-63 | the page heads the free list; the panic is exactly for a page outside physical memory |
| Paging.Memory.Freerange | kernel/kalloc.c:34-40 | exactly the pages of the range are on the free list |
| Paging.Memory.Walk | kernel/vm.c:98-115 | the table of the lowest level, with missing tables created on demand; no map of any page table changes; it fails only when not asked to create or out of memory |
| Paging.Memory.Mappages | kernel/vm.c:146-174 | exactly the pages asked for are mapped, all of them unless there were fewer than two free pages, for tables, for each; no other entry of any page table changes |
| Paging.Memory.Uvmunmap | kernel/vm.c:193-212 | exactly these entries are gone, unmapped ones are skipped, and the memory is on the free list when asked |
| Paging.Memory.Uvmcreate | kernel/vm.c:179-187 | a page table that maps nothing; others are unchanged |
| Paging.Memory.Uvmalloc | kernel/vm.c:217-240 | success maps pages of zeros with the permissions exactly between the old and the new size; failure gives every page back, needs fewer free pages than three for each new one, and changes no map |
| Paging.Memory.Uvmdealloc | kernel/vm.c:247-258 | exactly the pages above the rounded new size are unmapped and freed |
| Paging.Memory.Uvmcopy | kernel/vm.c:297-324 | the new table maps other pages with the same bytes and permissions exactly where the old one maps any below the size; failure gives every page back and needs fewer free pages than three for each |
| Paging.Memory.Freewalk | kernel/vm.c:263-278 | exactly the tables of the subtree are freed, and the panic does not happen once no page is mapped |
| Paging.Memory.Uvmfree | kernel/vm.c:283-288 | every page the table had, memory or node, is on the free list, and every other table and page is as before |
| UserCopy.Vmfault | kernel/vm.c:453-473 | the missing page of an address below the size is allocated zeroed, which changes nothing the process reads; it fails only at or above the size, on a mapped page, or with fewer than three free pages |
| UserCopy.LazyPageIsInvisible | kernel/vm.c:453-473 | a lazily allocated page reads as it did before it existed |
| UserCopy.ChildReadsTheSame | kernel/vm.c:297-324 | below the size the child of a fork reads at every address what its parent read, and the parent still does |
| UserCopy.GrownReadsZero | kernel/vm.c:217-240 | a process that grew reads zeros in its new pages, and below them what it read before |
| UserCopy.Copyout | kernel/vm.c:343-375 | the source lies over the memory of the process at the address, up to the first page that is read-only or cannot be had, and which was not writable before; no read-only page changes, and no other address reads differently, in this or any other process |
| UserCopy.Copyin | kernel/vm.c:381-403 | exactly what the process reads at the address; it cannot fail where everything is mapped |
| UserCopy.OutAndIn | kernel/vm.c:343-403 | what was copied out is copied in again, also across pages allocated on the way |
| Mlfq.RunKeepsForm | kernel/proc.c:652-684 | in every run, however processes sleep, yield, wake, exit or die on a tick, priority, time slice and used part are functions of the ticks charged since the last reset alone: 4 at the top level, 8 in the middle, then 16 at a time at the bottom |
| Mlfq.Lifecycle | kernel/proc.c:725-793 | what every event does to the state and the channel of every process: it sleeps until it is killed or its channel is woken up, and no longer; only freeproc touches a zombie |
| Mlfq.RunnableCanRun | kernel/proc.c:529-578 | from every state a runnable process can come to run, by steps of the scheduler |
| Mlfq.WokenCanRun | kernel/proc.c:756-769 | whoever sleeps on a channel can come to run once it is woken up |
| Mlfq.NoStarvationUpTo50 | kernel/proc.c:529-578 | between two boosts every one of n processes that do not sleep is charged at least four ticks if and only if n is at most 50 |
| Mlfq.PeriodExists | kernel/proc.c:652-684 | every busy state whose next tick boosts is followed by such a period: the scheduler always finds a process |
| Mlfq.PeriodIsReached | kernel/proc.c:529-578 | from boot such a period is reached with every number of processes |
| Mlfq.FiftyOneStarve | kernel/proc.c:529-578 | a run from boot in which, of 51 processes, one gets fewer than four ticks between two boosts |
| HartScheduler.Hart.BoostAllPriorities | kernel/proc.c:63-76 | exactly the runnable and running processes go back to the top level with a fresh slice |
| HartScheduler.Hart.MlfqTick | kernel/proc.c:652-684 | the new state is the tick of the step machine: boost first, then the charge and the demotion |
| HartScheduler.Hart.TimerInterrupt | kernel/trap.c:80-85 | a timer interrupt is the timer step of the machine, or the tick-and-exit step when the process is found killed |
| HartScheduler.Hart.PickAndRun | kernel/proc.c:529-578 | dispatches a runnable process of the lowest level number and the lowest slot in it, and finds one if and only if there is one |
| HartScheduler.Hart.YieldCpu | kernel/proc.c:626-640 | the running process is runnable again and keeps its level and slice |
| HartScheduler.Hart.SleepOn | kernel/proc.c:725-751 | the running process sleeps on the channel, keeps everything else, and the hart is free |
| HartScheduler.Hart.WakeupOn | kernel/proc.c:756-769 | afterwards nobody but the running process sleeps on the channel; each that did is runnable with its level, slice and use unchanged, and every other slot is as before |
| HartScheduler.Hart.KillSlot | kernel/proc.c:775-793 | a sleeper becomes runnable, any other state is kept, and nothing else changes |
| HartScheduler.Hart.ExitCurrent | kernel/proc.c:410-420 | the running process becomes a zombie, nothing else of it changes, and the hart is free |
| HartScheduler.Hart.AllocProc | kernel/proc.c:160-204 | an unused slot at the top level with a fresh slice; none if and only if the table is full or memory fails, and then the slot is given back |
| VirtioQueue.RunKeepsInv | kernel/virtio_disk.c:216-327 | every interleaving of submissions, device steps, interrupts and frees keeps the queue invariant, and the free descriptors plus three for every request always make up the queue |
| VirtioQueue.Conservation | kernel/virtio_disk.c:202-213 | free descriptors and three per request add up to eight |
| VirtioQueue.PendingIffIndicesDiffer | kernel/virtio_disk.c:308-316 | comparing the 16-bit ring indices tells exactly whether entries are pending, also after they wrapped |
| VirtioQueue.DeviceSeesTheRequest | kernel/virtio_disk.c:235-271 | under every published head the device finds the request submitted there: its direction, its sector, its own buffer of 1024 bytes, writable for the device exactly when it is read, and its own status byte |
| VirtioQueue.CoversItsBlockIff | kernel/virtio_disk.c:216-259 | the bytes of the disk that the descriptors ask for are exactly the 1024 of the block if and only if its number is below 2^31 |
| VirtioQueue.BlocksApart | kernel/virtio_disk.c:216-259 | requests for different blocks cover disjoint bytes of the disk |
| VirtioQueue.RequestIsCarriedOut | kernel/virtio_disk.c:216-280 | a device that does what the descriptors say puts the buffer in its block and no other, or the block in its buffer and no other |
| VirtioQueue.Progress | kernel/virtio_disk.c:226-233 | whenever fewer than three descriptors are free, the device, the interrupt handler or a finished submitter can move |
| VirtioDisk.Disk.AllocDesc | kernel/virtio_disk.c:157-166 | the lowest free descriptor, or -1 if and only if none is free |
| VirtioDisk.Disk.FreeDesc | kernel/virtio_disk.c:170-182 | clears and frees the descriptor; the panics are exactly for one that does not exist or is free |
| VirtioDisk.Disk.FreeChain | kernel/virtio_disk.c:186-197 | follows the links of a submitted chain and frees exactly its three descriptors |
| VirtioDisk.Disk.Alloc3Desc | kernel/virtio_disk.c:202-213 | the three lowest free descriptors, or no change when there are fewer than three |
| VirtioDisk.Disk.Submit | kernel/virtio_disk.c:216-280 | sleeps if and only if fewer than three descriptors are free, and otherwise is the submit step of the machine for this buffer, block and direction; the command header names the 512-byte sector where the block starts |
| VirtioDisk.Disk.Interrupt | kernel/virtio_disk.c:295-327 | every reported request is seen in order and exactly their buffers are released; it panics if and only if one of them failed |
| VirtioDisk.Disk.Finish | kernel/virtio_disk.c:282-292 | a submitter that finds its buffer released gives back exactly the three descriptors of its chain and changes no ring, and no panic can happen |
| PipeQueue.CountersAreExact | kernel/pipe.c:88-121 | the full and empty tests on 32-bit counters are exact, also after they wrapped |
| PipeQueue.Fifo | kernel/pipe.c:77-134 | over every interleaving of readers, writers, closes and kills, what was delivered is in order a prefix of what was accepted, and at most 512 bytes are in between |
| PipeQueue.CloseKeepsTheRest | kernel/pipe.c:59-74 | closing one end clears its flag alone and loses no byte |
| PipeQueue.AllIsDelivered | kernel/pipe.c:106-134 | in every run after the write end is closed, reads without faults return exactly the bytes still missing, in order, and after them 0 and never -1 |
| PipeQueue.SleepKeptIff | kernel/pipe.c:77-103 | of all steps exactly one kind leaves a process asleep in vain: a write that puts bytes before a sleeping reader and whose process is then found killed before the buffer fills |
| PipeQueue.AReaderCanBeStranded | kernel/pipe.c:84-87 | a run from a fresh pipe in which a reader sleeps although a byte is there |
| PipeIo.PipeBuffer.Write | kernel/pipe.c:77-103 | a step of the machine over the 512-byte array: exactly the bytes up to the first that finds the read end closed, the process killed, the pipe full or a fault are accepted, and which of these it was decides the answer; from a state where sleepers have reason to sleep, it leaves one asleep in vain if and only if the inputs say so |
| PipeIo.PipeBuffer.Read | kernel/pipe.c:106-134 | the bytes copied out are the next ones in the order of acceptance, as many as are there and asked for up to a fault; with the write end closed and nothing left the answer is 0 and not -1 |
| PipeIo.PipeBuffer.Close | kernel/pipe.c:59-74 | clears the flag of this end alone, keeps every byte and the other end, and the pipe is freed if and only if the other end was closed before |
| ShellGrammar.GetToken | user/sh.c:272-314 | the span of a token lies between its start and the next cursor, is empty only at the end, and the end is reported exactly when only white space is left |
| ShellParser.NextToken | user/sh.c:272-314 | the loop computes the token function |
| ShellParser.Peek | user/sh.c:317-326 | the cursor moves to the next token, and the answer is whether that starts with one of the characters |
| ShellParser.ParseRedirs | user/sh.c:381-403 | the loop computes the redirection function of the grammar |
| ShellParser.ParseExecCmd | user/sh.c:422-452 | the loop computes the command function of the grammar, with its limit of arguments; a word behind a redirection goes to the command inside it |
| ShellParser.ParseBlockCmd | user/sh.c:406-419 | refines the block function of the grammar |
| ShellParser.ParsePipeCmd | user/sh.c:368-378 | refines the pipeline function of the grammar |
| ShellParser.ParseLineCmd | user/sh.c:351-365 | refines the line function of the grammar |
| ShellLines.TokenAt | user/sh.c:272-314 | at the start of any word or operator of a line, gettoken returns exactly that one and moves to the next, with white space around it or none |
| ShellLines.EveryTextIsALine | user/sh.c:272-326 | every text without NULs is a line of words and operators with white space between them |
| ShellRoundTrip.TypedThenParse | user/sh.c:334-452 | whatever is typed by the grammar, with words and redirections of a simple command in any order and any spacing, is parsed as what it means: the words in order, wrapped in the redirections in the order typed, each with its file and mode |
| ShellRoundTrip.EveryCommandCanBeTyped | user/sh.c:334-452 | every command tree of legal words can be typed |
| ShellLanguage.AcceptsExactlyTheGrammar | user/sh.c:334-452 | the parser accepts a line if and only if its words and operators are a sentence of the grammar, and panics otherwise |
| ShellLanguage.EveryTextIsParsedOrRefused | user/sh.c:334-452 | the same for every text, whose tree is what each way to type it means |
| ShellRoundTrip.PrintThenParse | user/sh.c:334-365 | every command tree of legal words, printed with parentheses where precedence asks for them and spaced in any way, is parsed as exactly that tree |
| ShellWords.Nulterminate | user/sh.c:456-499 | the recursion over the command writes a NUL at the end of exactly the words of the command |
| ShellWords.WordIntact | user/sh.c:456-499 | no end of a word falls inside a word: terminating all of them leaves each intact |
| ShellWords.ParseCommand | user/sh.c:334-348 | for every line, each word of the parsed command reads from the buffer as the text it was, and a syntax error writes nothing |
| ShellWords.TypedCommandReadsBack | user/sh.c:334-348 | whatever is typed by the grammar, parsed and terminated in place is read back from the buffer as what it means |
| Grep.MatchStar | user/grep.c:99-106 | true if and only if some run of the character is followed by a match of the rest |
| Grep.MatchHere | user/grep.c:85-96 | true if and only if the text starts with a word of the pattern language |
| Grep.Match | user/grep.c:73-82 | true if and only if some stretch of the text, at its start after a caret and at its end before a dollar, is a word of the pattern language |

## Findings

Where the code does not meet a property on all inputs, the model keeps the code, a lemma or a run gives an
input, and another one gives the exact condition.

- A full log refuses absorption. log_write tests for space before it looks whether the block is in the
  log already, so that three operations within their budgets can reach a state where rewriting a
  logged block panics (`LogReservation.FullLogRefusesAbsorption`). It happens exactly when the log is
  full, and then every operation has used its whole budget (`LogReservation.PanicExactlyWhenFull`).
- A directory that was unlinked while a process works in it still takes new names. A directory made
  there leaves the count of its grandparent one short (`LinkCounts.DirectoryInUnlinked`). A file made
  there keeps a link without a name once the directory is freed (`LinkCounts.FileInUnlinked`). Both
  are excluded if and only if the parent is still linked (`LinkCounts.LinkKeepsInvIff`,
  `LinkCounts.CreateKeepsInvIff`, `LinkCounts.ReclaimKeepsCountsIff`).
- The link count is a short, and nothing stops it from wrapping around at 32767. The same lemmas have
  this as the second half of their condition, and `LinkOverflow.WrapAround` reaches it.
- A writer found killed returns without waking the readers of the bytes it has put
  (kernel/pipe.c:84-87). A reader can then sleep on a pipe that is not empty
  (`PipeQueue.AReaderCanBeStranded`). This is the only step of any kind that strands a sleeper
  (`PipeQueue.SleepKeptIff`).
- The period of 200 ticks between boosts serves 50 processes, not 64: with more of them somebody gets
  less than a full top-level slice (`Mlfq.NoStarvationUpTo50`, `Mlfq.FiftyOneStarve`).
- A full log can never be committed. LOGBLOCKS and NBUF are the same number (kernel/param.h), every
  block of the log pins a buffer, and commit needs one more to work with. Three operations of ten
  blocks each end in the panic "bget: no buffers" (`FullLog.FillAndFail`). When no process holds a
  buffer, commit succeeds if and only if the log holds fewer than NBUF blocks (`FullLog.EndLastOp`);
  in general, if and only if a buffer is unreferenced (`RedoLog.Log.Commit`).
- The first sector of a block is computed in 32 bits (kernel/virtio_disk.c:218), so that block 2^31 goes
  to sector 0. A request covers its block if and only if the number is below 2^31
  (`VirtioQueue.CoversItsBlockIff`).
- The comment at kernel/proc.c:649 speaks of 10 ticks; the threshold is 200, and the model follows
  the code.

## Left out

- Boot, traps and context switch in assembly, the UART, the PLIC, timers, printf, spin locks and memory fences. Steps that the code runs under one lock are atomic in the machines.
- exec and the ELF loader, copyinstr, uvmclear, fork and wait beyond uvmcopy, signals beyond kill, getprocinfo, and the user programs other than the shell, malloc and grep: they would add easier members.
- The shell's runcmd and the system calls it makes.
- Several harts: HartScheduler and Mlfq have one, and mlfq_tick's unlocked updates are not interleaved with another one.
- Crash semantics assumes that one block write is atomic and that writes reach the disk in order, as the code does.
- RedoLog.Log.Commit: no other process runs between its rounds. In the code fileread uses the cache outside any transaction (kernel/file.c:121-124), so that a reader may hold a buffer lock that commit waits for, or take the last unreferenced buffer in the middle of a commit.
- RedoLog.Log.EndOp: as for Commit, logged blocks that a reader outside transactions has locked are excluded when the last operation leaves.
- RedoLog.Log.WriteLog: as for Commit, logged blocks locked by a reader are excluded; the code waits for them.
- RedoLog.Log.InstallTrans: as for Commit, home blocks locked by a reader are excluded; the code waits for them.
- RedoLog.Log.Bread: the block is not locked by another process; a process that has to wait is modelled by Wait and Resume.
- BufferCache.Cache.Bread: the block is not locked by another process; Bget takes the reference, and Lock is what the sleeper does once it is woken.
- FileCrashes.FileSurvivesCrash: the write's transactions hold no other process's operation. The log itself is modelled with any number of operations in LogReservation and RedoLog.
- FileCrashes.CrashSafeWrite: that log_write keeps the log's contents equal to the file system's disk is stated per block in RedoLog, and taken as a hypothesis where a transaction is committed.
- FileSystem.Fs.Readi: copying to the destination succeeds or fails as a whole for each block, as an argument decides.
- FileSystem.Fs.Writei: copying from the source succeeds or fails as a whole for each block, as an argument decides.
- FileSystem.Fs.Format: the superblock is given; the program that builds the first image is not part of the repository.
- Directories.Directory.Create: paths are resolved by the caller, and whether a directory can grow is an argument; locking and reference counts of in-memory inodes are not modelled.
- Directories.Directory.Iput: it is the last reference; an inode that is still referenced is not modelled.
- Names in directories are strings of any length; the code cuts path elements to 14 characters before it uses them.
- UserMalloc.Allocator.Malloc: requests whose size in bytes reaches 2 GB are excluded, where sbrk's int argument turns negative.
- Paging.Memory.Kfree: the page is not on the free list already; the code does not notice a page freed twice.
- Paging.Memory.Mappages: a mapping over an existing entry, a size of zero and misaligned arguments, which the code answers with a panic, are excluded by the precondition.
- Paging.Memory.Uvmalloc: the pages between the sizes are unmapped before, or mappages would panic.
- Paging.Memory.Uvmcopy: the new table maps nothing below the size, or mappages would panic.
- Paging.Memory.Uvmunmap: with the free flag, the pages are owned by this table; the code would free any page it finds there.
- Paging.Memory.Uvmdealloc: the pages between the sizes are owned by this table, as for Uvmunmap.
- Paging.Memory.Uvmfree: pages above the size are excluded by the precondition; the code panics on them.
- Physical pages have a type: reading the bytes of a page as page-table entries, or the other way round, is not modelled.
- UserCopy.Copyout: the page table is the one of the running process, as in all its callers but exec.
- PipeIo.PipeBuffer.Close: an end is closed when no process is inside a call on it.
- VirtioQueue.RunKeepsInv: the device follows the protocol: it completes requests it fetched, each once.
- VirtioDisk.Disk.Interrupt: the device reports nothing new while the loop runs; in VirtioQueue its steps come between any two rounds.
- Grep: reading the input line by line through a buffer of fixed size.
