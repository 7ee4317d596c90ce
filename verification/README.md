# AegrOS: the kernel's data structures, proved

AegrOS is a small 32-bit kernel descended from xv6. This project models the parts of it whose
correctness does not depend on hardware and proves what they are for. Each C file has one or
more modules of its own; code that works in place is a class or a method with loops over the
source's own fields and arrays, and what it computes is stated by functions and predicates on
values about which the lemmas are proved.

| files | what is modelled | main results |
|---|---|---|
| `Ext2Block`, `Ext2Tree`, `Ext2Bitmap`, `Ext2Grow`, `Ext2Trunc`, `Ext2File`, `Ext2Space`, `Ext2Fs`, `Ext2Sample` | block and inode bitmaps, the direct/indirect/double indirect tree, `readi`, `writei`, truncation | one owner for every recorded block, bitmaps that agree with the owners, files that are byte sequences with exactly the blocks their size needs, where each byte is on the disk, exactly which writes run out of blocks |
| `Ext2DirFormat`, `Ext2Dir` | directory records, `dirlookup`, `dirlink`, the write of `sys_unlink` | a directory is a map, and the three operations are lookup, insert and remove |
| `KmallocHeap`, `Kmalloc` | the kernel heap | a circular sorted list with one wrap, blocks that tile the heap, no two free blocks touching, units conserved |
| `RunQueue`, `Scheduler` | run queue, `sleep`, `wakeup`, `wait`, `exit`, `kill`, process creation | the queue holds exactly the RUNNABLE processes, one cpu a process, no missed child |
| `SleepLock`, `SleepLockProgress` | `acquiresleep`/`releasesleep` over `sleep`/`wakeup`, every interleaving | mutual exclusion, no lost wakeup, nobody stuck: whoever tries can still get the lock, on one cpu |
| `Pipe` | pipes | first in, first out over wrapping counters; who may sleep |
| `BufferRing`, `BufferCache` | the buffer cache | one live buffer a block, agreement with the disk, no buffer recycled in use |
| `Frames`, `PhysMem` | the page allocator, usable RAM ranges | exactly the whole pages of reported RAM end up on the free list, once each |
| `PageSpace`, `PageTables` | the user half of page tables | unique frame ownership, growth and its undoing, copying and freeing address spaces |
| `Division` | 64-bit division | two algorithms, one quotient and remainder; truncation and its one overflow |
| `ShellGrammar`, `ShellTree`, `Shell` | the shell's parser | exactly its grammar, the one tree that the line spells, every word left as its own string |
| `Grep` | the pattern matcher | exactly the language of the pattern; what plain patterns find |
| `Path` | path canonicalization | the fold of the components, when it succeeds, fixed points |
| `Euclid`, `Bresenham` | the line loop of `fbline` | exactly the rounded line, one pixel a turn, and the exact end points for which nothing overflows |

## How to read the model

- Machine words are integers; every operation that can wrap is reduced explicitly (`% U32`,
  `% TWO64`), or a subset type (`Int32`, `Word`) makes the verifier show that it
  does not.
- A method is a stretch of code that nothing else interleaves with: what is done under one
  spinlock, or by the holder of a sleeplock, or, where the code takes no lock, a call that runs
  alone. Spinlocks themselves, interrupts and `switch_context` are atomic steps.
- A panic is a failure result (`halted`, `ok == false`, `Panicked`, `Panic`). After it the
  machine has stopped, and nothing is promised about the state.
- `Basics` holds what several modules share.
- Ghost fields (`owner`, `live`, `who`, `ring`, `users`, `own`, `free`, `q`) record what the C
  code does not: who owns a block, which units a heap block covers, the order of a list.

## Where the code differs from its comments or from what one would expect

- The product at line 662 of `kernel/fs/ext2.c` wraps, so the file size limit is
  (12 + 256 + 65536) * 1024 bytes (`Ext2File.LimitWraps`) and the triple indirect branches of
  `ext2fs_bmap` and `ext2fs_itrunc` are never taken. The comments on `ext2fs_bmap` give other
  bounds.
- `ext2fs_dirlink` ignores what `ext2fs_writei` returns, so it returns 0 also when the directory
  would pass the limit and nothing is added. In a volume this code has filled that cannot happen:
  `ext2fs_balloc` only takes blocks of the inode's own group (`Ext2Space.Homed`, which every
  operation keeps), so a file stays at 8 MiB or less (`Ext2Space.SizeInGroup`), and 0 means added
  (`Ext2Dir.Dirlink`). On an image made elsewhere it can: `Ext2Dir.LinkMap` states exactly when
  the name is added and `Ext2Dir.NothingAdded` gives a directory where none is.
- `ext2fs_balloc` panics when the inode's group is full, whatever other groups have. A write halts
  there exactly when it needs more new blocks than that group has free
  (`Ext2Fs.FileSystem.Writei`); `Ext2Sample.HaltsBesideFree` is a run where another group has one.
- `ext2fs_ialloc` loops over groups 0 to blocks_count / blocks_per_group. With 1 KB blocks that is
  one group too many exactly when the division leaves 0 or 1 (`Ext2Bitmap.Geometry.OneGroupMore`).
  Then a full table does not lead to its panic: it takes the bytes behind the last descriptor for
  a descriptor (`BeyondGroups` in `Ext2Fs.FileSystem.Ialloc`).
- `ext2fs_itrunc` zeroes entries of a cached index block that is never written back; the block
  is freed right after.
- `kmalloc` rounds up in 32 bits, so a request of more than 2^32 - 8 bytes gets a block that is
  too small, and only such a request does (`Kmalloc.UnitsEnough`). A request from 2^31 - 15 up to
  2^32 - 8 bytes that does not fit what is free already asks the kernel's resize function for a
  size that is not a positive int. That outcome is `Broken`, and it has no other cause
  (`Kmalloc.TooLargeRequests`, `Kmalloc.KernelHeap.Alloc`, `Kmalloc.FirstTooLarge`).
- `yield` and `scheduler` both enqueue the process. The list is not changed by the second call
  but `size` is (`Scheduler.Ptable.Yield`).
- A killed writer leaves `pipe_write` without waking readers. `Pipe.ReadersWaitStep` says
  exactly when that leaves a reader asleep on a full pipe, and `Pipe.KilledWriterLeavesReader`
  shows a run where it does.
- All buffers of the cache start as block (0, 0) of device 0. `BufferCache.LiveFirst` is the
  reason why the search still finds the one that is in use.
- `deallocvm` skips to the next directory entry when a page table is missing. When `allocvm`
  runs out of memory it unmaps the whole range it was to fill, so it restores the mapping
  exactly if nothing was mapped there before (`PageTables.VirtualMemory.AllocVm`). A process of
  one page that grows past its mapped framebuffer with no memory left loses that mapping
  (`PageTables.GrowOverFramebuffer`). Page tables it added stay.
- `>>` and `>` open a file in the same mode (`ShellTree.LineOpenings`).
- The Bresenham loop overflows an int for some lines: `Bresenham.Safe` is the exact condition on
  the two distances, which takes their greatest common divisor because both the doubled error term
  and the error term between the two tests count (`Bresenham.SafeIff`). Distances up to 715827883
  are always safe (`Bresenham.WithinRange`); at 715827884 a line with slope overflows, while a
  level line of 1000000000 does not (`Bresenham.BeyondRange`).

## Model

| member | source | states |
|---|---|---|
| `Ext2Block.GetFreeBit` | kernel/fs/ext2.c:61-77 | the lowest clear bit below nbits is set and returned, the rest of the bitmap is unchanged; -1 exactly when all are set |
| `Ext2Block.WithBitTestBit` | kernel/fs/ext2.c:69-72 | setting or clearing bit j of a byte changes bit j and no other bit |
| `Ext2Block.TestBitDigit` | kernel/fs/ext2.c:69-72 | bit j of a byte is its binary digit of weight 2^j |
| `Ext2Block.SetWordGetWord` | kernel/fs/ext2.c:435-441 | writing word i of an index block changes what word i reads and no other word |
| `Ext2Block.WordDigits` | kernel/fs/ext2.c:435-441 | the four bytes of a word of an index block are its digits to base 256, lowest first |
| `Ext2Tree.Volume.OneOwner` | kernel/fs/ext2.c:416-475 | a block number is recorded at one position of one inode only, and is a usable block |
| `Ext2Tree.Volume.AdoptAt` | kernel/fs/ext2.c:416-475 | recording a new block in an empty slot changes what that slot reads and no slot of any inode otherwise |
| `Ext2Tree.Volume.AdoptOwned` | kernel/fs/ext2.c:416-475 | every recorded block still has exactly one owner position after a block is allocated and recorded |
| `Ext2Bitmap.SwitchBitAllocated` | kernel/fs/ext2.c:106-135 | switching the bit of one block leaves the allocation state of every other block of every group alone |
| `Ext2Bitmap.BitOwned` | kernel/fs/ext2.c:106-135 | in words and bits of the disk: bit (b - first) % per_group of the bitmap block that word 8 * ((b - first) / per_group) of block 2 names is set exactly when block b is owned |
| `Ext2Grow.AdoptGood` | kernel/fs/ext2.c:80-103 | allocating a free block and recording it keeps owners and bitmaps in agreement, keeps all data and gives a zero block |
| `Ext2Grow.GrewTrans` | kernel/fs/ext2.c:446-475 | filling an index slot and then a slot below it is filling the lower slot, seen from every file |
| `Ext2Grow.OpenIndex` | kernel/fs/ext2.c:435-442 | an index block is never the descriptor block, a bitmap or a free block, so allocation cannot ask for a buffer already held |
| `Ext2Fs.FileSystem.Balloc` | kernel/fs/ext2.c:80-103 | the new block was free, belongs to the inode's group, is zeroed and has its bit set; failure exactly when the group is full |
| `Ext2Fs.FileSystem.Bfree` | kernel/fs/ext2.c:106-135 | an owned block loses its owner and its bit and nothing else changes; the "already free" panic is not reached |
| `Ext2Fs.FileSystem.Bmap` | kernel/fs/ext2.c:416-475 | the returned block is the one recorded for bn: in slot bn below 12, in word bn - 12 of the block in slot 12 below 268, and from there, with n = bn - 268, in word n % 256 of the block in word n / 256 of the block in slot 13; a mapped block is returned without any change, a missing one reads as zeros and no other file sees a difference; each slot filled costs one free block of the inode's group, and it fails only when what the file is to become needs more blocks than the group has |
| `Ext2Fs.FileSystem.IndexSlot` | kernel/fs/ext2.c:435-443 | reading or filling one word of an index block while its buffer is held |
| `Ext2Trunc.TruncFreed` | kernel/fs/ext2.c:526-578 | freeing the block at the next position of the truncation order moves the truncation on by exactly that position |
| `Ext2Trunc.FinishTrunc` | kernel/fs/ext2.c:526-578 | when every position is passed the inode records nothing, exactly its blocks are free, and other inodes keep pointers and contents |
| `Ext2Fs.FileSystem.Itrunc` | kernel/fs/ext2.c:526-615 | truncation frees each owned block once, leaves an empty file, and changes no other file's contents; on-disk and in-core inodes agree |
| `Ext2File.LimitWraps` | kernel/fs/ext2.c:659-664 | the 32-bit limit is the direct, single and double indirect blocks, and an accepted write stays inside them |
| `Ext2File.SpliceRead` | kernel/fs/ext2.c:618-680 | what a write put at [off, off+n) is what reading that range gives |
| `Ext2File.SpliceChunks` | kernel/fs/ext2.c:666-673 | writing in pieces, however cut, equals writing at once |
| `Ext2File.ReadChunk` | kernel/fs/ext2.c:637-643 | the part of a block copied in one turn of the read loop is that stretch of the file |
| `Ext2File.ByteOnDisk` | kernel/fs/ext2.c:416-475 | byte k of a file is byte k % 1024 of the block found for k / 1024 through the slots and words of index blocks, at every level |
| `Ext2File.WriteChunk` | kernel/fs/ext2.c:666-673 | one turn of the write loop extends the written prefix and leaves other files and the invariant alone |
| `Ext2File.FinishWrite` | kernel/fs/ext2.c:675-679 | with the new size, the finished write is the splice, and exactly the blocks below ceil(size/1024) are mapped |
| `Ext2Fs.FileSystem.Readi` | kernel/fs/ext2.c:630-644 | returns the file's bytes [off, min(off+n, size)), refuses exactly off > size or wrap-around, and changes nothing at all |
| `Ext2Fs.FileSystem.Writei` | kernel/fs/ext2.c:659-679 | refuses exactly off > size or a range beyond the limit, without effect; halts exactly when an accepted write needs more new blocks, index blocks included, than the inode's group has free; otherwise the contents become the splice, other files are unchanged, exactly the needed blocks are mapped, the inode table is current and blocks stay in their inodes' groups |
| `Ext2Space.AdoptPaid` | kernel/fs/ext2.c:80-103 | an allocation fills one of the slots a longer file needs with one of the free blocks of its inode's group, and keeps every block in the group of its inode |
| `Ext2Space.SlotsCount` | kernel/fs/ext2.c:416-475 | n blocks of a file take n slots up to 12, n + 1 up to 268, and n + 2 + ceil((n - 268) / 256) beyond, index blocks included |
| `Ext2Space.RoomEnough` | kernel/fs/ext2.c:659-679 | a write cannot halt if its group has as many free blocks as the two counts for the new and the old size differ by |
| `Ext2Space.WritingEnough` | kernel/fs/ext2.c:666-679 | a finished write has no slot left to fill, so with one block paid a slot it cannot have been short of blocks |
| `Ext2Space.SizeInGroup` | kernel/fs/ext2.c:80-103 | a file whose blocks are in the group of its inode has no more of them than a group has, so at most 8 MiB, far below the limit of writei |
| `Ext2Sample.HaltsBesideFree` | kernel/fs/ext2.c:80-103 | on a volume of two groups a write halts although a block of the other group is free |
| `Ext2Sample.SmallGood` | kernel/fs/ext2.c:80-103 | that volume meets the invariant, its files and blocks included |
| `Ext2Space.EmptyVolume` | kernel/fs/ext2.c:416-680 | a volume without inodes meets the invariant, so it holds in every state reached from there |
| `Ext2Fs.FileSystem.Ialloc` | kernel/fs/ext2.c:154-200 | the lowest free inode number is taken and marked whenever there is one; without one the panic, or a group beyond the last exactly when the loop's bound is at least the number of groups; the new inode is an empty file and no other file changes |
| `Ext2Fs.FileSystem.InodeBit` | kernel/fs/ext2.c:154-200 | bit (ino - 1) % inodes_per_group of the bitmap of group (ino - 1) / inodes_per_group says whether ino is taken |
| `Ext2Bitmap.Geometry.OneGroupMore` | kernel/fs/ext2.c:159-160 | with first data block 1 the loop goes beyond the last group if and only if blocks_count leaves 0 or 1 when divided by blocks_per_group |
| `Ext2Fs.FileSystem.Ifree` | kernel/fs/ext2.c:317-344 | exactly that inode and its bit are gone, no other file changes, and the "already free" panic is not reached |
| `Ext2DirFormat.FindIsMap` | kernel/fs/ext2.c:693-731 | the linear search finds a name exactly when the directory's map has it, with the inode number there |
| `Ext2DirFormat.FoundBytes` | kernel/fs/ext2.c:697-728 | the bytes at the place the search finds: the inode number, not 0, lowest byte first, the name's length, and the name |
| `Ext2DirFormat.AppendMap` | kernel/fs/ext2.c:752-762 | appending the record that dirlink writes inserts that name and keeps the tiling and uniqueness |
| `Ext2DirFormat.RecordFormat` | kernel/fs/ext2.c:752-762 | the record byte by byte: inode number and lengths lowest byte first, file type 0, the name, and zeros up to a multiple of four |
| `Ext2DirFormat.ClearMap` | kernel/syscalls/sysfile.c:442-455 | zeroing the inode number of the record found removes exactly that name and keeps the tiling |
| `Ext2Dir.Namecmp` | kernel/fs/ext2.c:682-685 | two names compare equal exactly when their first 255 characters agree |
| `Ext2Dir.Dirlookup` | kernel/fs/ext2.c:693-731 | the result of the search on the directory's contents, which is an entry exactly when the map has the name's first 255 characters; no panic is reached and nothing changes |
| `Ext2Dir.Dirlink` | kernel/fs/ext2.c:733-765 | -1 without effect exactly for an empty, too long or present name; halts exactly when the record fits below the limit but needs more new blocks than the group has free; otherwise the contents with the record, if it fits, and other files unchanged; in a volume with its blocks in their groups 0 always means that the name maps to inum and other names are unchanged |
| `Ext2Dir.LinkMap` | kernel/fs/ext2.c:752-764 | for any directory: after a call that returns 0 the name maps to inum and other names are unchanged if and only if the record fits below the size limit |
| `Ext2Dir.NothingAdded` | kernel/fs/ext2.c:752-764 | a directory of the greatest length, where 0 is returned for every new name and no name is added |
| `Ext2Dir.ClearEntry` | kernel/syscalls/sysfile.c:442-455 | after the unlink write lookup of the name gives nothing, other names are unchanged and other files too |
| `Kmalloc.UnitsEnough` | kernel/memory/kmalloc.c:123-125 | the rounded-up unit count covers the request if and only if nbytes <= 2^32 - 8 |
| `Kmalloc.TooLargeRequests` | kernel/memory/vm.c:396-425 | the size reaches the resize function as a number that is not positive exactly for requests of 2^31 - 15 up to 2^32 - 8 bytes |
| `KmallocHeap.RingInsert` | kernel/memory/kmalloc.c:59-75 | linking a block in keeps the list circular, sorted and with one wrap |
| `KmallocHeap.RingRemove` | kernel/memory/kmalloc.c:60-62 | unlinking the next block keeps it so |
| `KmallocHeap.JoinNextOk` | kernel/memory/kmalloc.c:59-66 | merging with the following block, or not, keeps the whole heap invariant |
| `KmallocHeap.JoinPrevOk` | kernel/memory/kmalloc.c:68-78 | merging with the preceding block, or linking in, keeps it and leaves no two free blocks touching |
| `KmallocHeap.Disjoint` | kernel/memory/kmalloc.c:38-160 | two blocks, free or handed out, never share a unit |
| `KmallocHeap.TakeTailOk` | kernel/memory/kmalloc.c:141-147 | cutting the tail off a free block keeps the invariant |
| `KmallocHeap.Conservation` | kernel/memory/kmalloc.c:38-160 | the units of the heap are the free ones plus the ones handed out, with none in both |
| `Kmalloc.KernelHeap.FindPlace` | kernel/memory/kmalloc.c:48-57 | the search terminates at the free block after which the freed block belongs |
| `Kmalloc.KernelHeap.Kfree` | kernel/memory/kmalloc.c:38-79 | exactly the block's units become free, other allocations are untouched, the block is now inside one free block, and the next search starts before it |
| `Kmalloc.KernelHeap.Morecore` | kernel/memory/kmalloc.c:84-106 | Broken exactly when the size is too large for an int; nothing changed when there is no memory; otherwise as many fresh units as asked for, or 4096 if that is more, join the free ones and a large enough block exists |
| `Kmalloc.KernelHeap.Alloc` | kernel/memory/kmalloc.c:119-160 | Broken exactly when the request is too large and fits no free block; otherwise the scan terminates and the result is a new block whose units were free or fresh; the first fit behind freep is taken when there is one; on failure nothing fits and nothing changed |
| `Kmalloc.FirstTooLarge` | kernel/memory/kmalloc.c:84-160 | a first request of 2^31 - 15 bytes breaks, and one byte less is not too large |
| `RunQueue.Queue.Enqueue` | kernel/task/scheduler.c:344-362 | a process off the queue goes to its end; one that is already last stays, and only size counts it again |
| `RunQueue.Queue.Dequeue` | kernel/task/scheduler.c:365-386 | the head leaves and the rest keeps its order |
| `RunQueue.Fifo` | kernel/task/scheduler.c:344-386 | whatever is enqueued meanwhile, the process at index k is the (k+1)-th dequeued |
| `Scheduler.WokenAgrees` | kernel/task/scheduler.c:160-168 | waking every sleeper on a channel keeps the queue equal to the set of RUNNABLE processes |
| `Scheduler.WokenInOrder` | kernel/task/scheduler.c:160-168 | the woken are exactly sleepers on the channel and stand behind the old queue in the order of the table |
| `Scheduler.Ptable.Pick` | kernel/task/scheduler.c:43-65 | the head of the queue becomes RUNNING on the cpu that picked it, and on no other |
| `Scheduler.Ptable.Leave` | kernel/task/scheduler.c:65-78 | back in the scheduler a RUNNABLE process is enqueued again, which leaves the queue as it was |
| `Scheduler.Ptable.Yield` | kernel/task/scheduler.c:303-310 | the process is queued once, at the end; size grows by two and never under-counts |
| `Scheduler.Ptable.SleepOn` | kernel/task/scheduler.c:264-300 | the caller is SLEEPING on the channel and off its cpu; the queue is unchanged |
| `Scheduler.Ptable.WakeupLocked` | kernel/task/scheduler.c:160-168 | exactly the sleepers on the channel become RUNNABLE and are queued in table order |
| `Scheduler.Ptable.Kill` | kernel/task/scheduler.c:239-256 | the first process with the pid is marked and, if asleep, made RUNNABLE and queued; -1 exactly when there is none |
| `Scheduler.Ptable.Exit` | kernel/task/scheduler.c:209-230 | the caller is a ZOMBIE off its cpu, its children belong to init, exactly its waiting parent and then, for an inherited dead child, a waiting init are woken and queued in that order behind what was there, and no parent sleeps in wait over a dead child |
| `Scheduler.Ptable.Wait` | kernel/task/scheduler.c:114-153 | the first dead child is collected if there is one, -1 without children or when killed, otherwise sleep; in each case the invariant holds |
| `Scheduler.Ptable.AllocProc` | kernel/task/proc.c:194-216 | the first UNUSED slot, if there is one, becomes an EMBRYO with the next pid |
| `Scheduler.Ptable.ForkDone` | kernel/task/proc.c:366-373 | the child becomes RUNNABLE, with the caller as its parent, and goes to the end of the queue |
| `Scheduler.Ptable.InitDone` | kernel/task/proc.c:275-282 | the first process becomes RUNNABLE and goes to the end of the queue |
| `SleepLock.RunInv` | kernel/task/sleeplock.c:26-46 | in every state any interleaving reaches, what each process's position implies about locks, states and cpus holds |
| `SleepLock.MutualExclusion` | kernel/task/sleeplock.c:26-59 | at most one process holds the lock, locked says whether one does, and what holdingsleep asks for is true of a process exactly from having stored its pid to clearing locked |
| `SleepLock.NoLostWakeup` | kernel/task/sleeplock.c:26-46 | if the lock is free while a process sleeps on it or is about to, another process is on a cpu inside releasesleep and its wakeup has not passed that process |
| `SleepLock.NobodyLeftBehind` | kernel/task/sleeplock.c:26-46 | with the inner spinlock free, nobody sleeps on a free lock |
| `SleepLock.SpinlocksOnCpu` | kernel/task/scheduler.c:264-300 | a process holding a spinlock is on a cpu, and no cpu runs two processes |
| `SleepLockProgress.NobodyStuck` | kernel/task/sleeplock.c:26-46 | in every reachable state a process on a cpu inside either function can execute its statement unless that takes a spinlock held at the moment, and a runnable one off the cpu, woken sleepers included, can be put on an idle cpu when ptable.lock is free |
| `SleepLockProgress.Environment` | kernel/task/scheduler.c:239-310 | in every state with ptable.lock free, preempting a process that holds no spinlock, blocking elsewhere, killing a sleeper and waking one that sleeps elsewhere are all possible and leave the lock and every position alone |
| `SleepLockProgress.CanAcquire` | kernel/task/sleeplock.c:26-36 | from every reachable state in which a process is in acquiresleep, asleep on the lock included, some continuation without kills and on one cpu ends with it holding the lock |
| `SleepLockProgress.CanRelease` | kernel/task/sleeplock.c:39-46 | likewise every process in releasesleep can finish it |
| `Pipe.PipeBuffer.Write` | kernel/syscalls/pipe.c:97-114 | appends as many bytes as there is room for; then it is done if those were all, fails if the read end is closed or the process killed, and otherwise sleeps; readers are woken except when it fails |
| `Pipe.PipeBuffer.Drain` | kernel/syscalls/pipe.c:136-141 | the copying loop moves the oldest min(n, count) bytes, in order |
| `Pipe.PipeBuffer.Read` | kernel/syscalls/pipe.c:124-145 | on an empty pipe with the write end open it fails when killed and sleeps otherwise; else it takes min(n, count) of the oldest bytes and wakes writers; the rest of the caller's buffer is untouched |
| `Pipe.PipeBuffer.Close` | kernel/syscalls/pipe.c:72-87 | the end is closed, its peers are woken, and the page is freed exactly when both are closed |
| `Pipe.FullCount` | kernel/syscalls/pipe.c:101 | the comparisons of the wrapping counters mean full and empty |
| `Pipe.Pushed` | kernel/syscalls/pipe.c:109 | storing at nwrite % 512 appends and overwrites no unread byte, also when the counter wraps |
| `Pipe.Popped` | kernel/syscalls/pipe.c:137-140 | advancing nread removes exactly the oldest byte |
| `Pipe.Fifo` | kernel/syscalls/pipe.c:97-145 | over any run the bytes accepted are the bytes delivered followed by the at most 512 buffered ones |
| `Pipe.ZeroIsEof` | kernel/syscalls/pipe.c:129-144 | a completed read for n > 0 returns 0 exactly when the write end is closed and everything accepted was delivered |
| `Pipe.ReadersWaitStep` | kernel/syscalls/pipe.c:101-113 | sleeping readers still face an empty pipe that can be written if and only if the step is not a killed writer with more than 512 bytes finding some asleep |
| `Pipe.ReadersAsleep` | kernel/syscalls/pipe.c:97-145 | in a run without such a writer a reader sleeps only on an empty pipe with the write end open |
| `Pipe.WritersAsleep` | kernel/syscalls/pipe.c:97-145 | in every run a writer sleeps only on a full pipe with the read end open |
| `Pipe.KilledWriterLeavesReader` | kernel/syscalls/pipe.c:102-104 | a run that leaves a reader asleep in front of a full pipe |
| `BufferRing.PushFront` | kernel/fs/bio.c:51-57 | linking behind the head gives the list with the buffer first, in both directions |
| `BufferRing.Unlink` | kernel/fs/bio.c:130-131 | joining a buffer's neighbours takes exactly it out of the list, in both directions |
| `BufferCache.Cache.constructor` | kernel/fs/bio.c:44-58 | the list is a ring over all buffers, none in use |
| `BufferCache.TakenKeeps` | kernel/fs/bio.c:72-79 | using the first buffer that carries the block keeps one live buffer a block: it is the live one if there is one |
| `BufferCache.RecycledKeeps` | kernel/fs/bio.c:84-94 | so does giving the block to an unused buffer when no buffer carries it |
| `BufferCache.Cache.Bget` | kernel/fs/bio.c:65-96 | the buffer that has the block, or the least recently used of those nobody uses; buffers in use keep their block; the panic exactly when nothing matches and all are in use |
| `BufferCache.Cache.LockAndRead` | kernel/fs/bio.c:99-106 | the buffer bread returns holds the disk's data for its block |
| `BufferCache.Cache.Bwrite` | kernel/fs/bio.c:109-115 | exactly that block of the disk takes the buffer's data and the cache still agrees with the disk |
| `BufferCache.Cache.ReleaseLock` | kernel/fs/bio.c:120-124 | after releasing, the cache agrees with the disk if and only if the holder has written what it changed |
| `BufferCache.Cache.Unref` | kernel/fs/bio.c:126-138 | the last user moves the buffer to the front, the others leave the order alone |
| `Frames.FrameAllocator.KfreePage` | kernel/memory/paging.c:62-80 | a good page goes to the front of the list; anything else is the panic |
| `Frames.FrameAllocator.KallocPage` | kernel/memory/paging.c:87-100 | the first page leaves the list, or nothing when it is empty |
| `Frames.FrameAllocator.FreeRange` | kernel/memory/paging.c:49-55 | exactly the whole pages of the range are added, once each, in front of the old list; it panics exactly when one of them is not good |
| `PhysMem.UsableRanges.Collect` | kernel/memory/physmem.c:55-89 | the table holds the first 32 usable pieces of the map, clipped at the limit; it covers only addresses below the limit inside an available entry, and all of them when nothing was dropped |
| `PhysMem.WantedIs` | kernel/memory/physmem.c:64-87 | an address is in a usable piece if and only if an available entry, whose 64-bit end may wrap, contains it and it is below the limit |
| `PhysMem.UsableRanges.Sort` | kernel/memory/physmem.c:103-111 | sorted by start, the same addresses covered |
| `PhysMem.UsableRanges.SortAndMerge` | kernel/memory/physmem.c:98-127 | the same addresses covered, by ranges in order with strict gaps |
| `PhysMem.MergeStep` | kernel/memory/physmem.c:114-125 | one turn of the merging loop keeps cover and gaps |
| `PhysMem.OneRange` | kernel/memory/physmem.c:98-127 | a stretch of covered addresses lies inside a single merged range |
| `PhysMem.UsableRanges.Build` | kernel/memory/physmem.c:129-135 | the ranges, in order with gaps, cover nothing but RAM, and all of it when nothing was dropped: what the map reports, or everything below the limit when it reports nothing |
| `PhysMem.Release` | kernel/memory/physmem.c:343-364 | exactly the pages above the floor all of whose addresses are usable are added, disjoint from the early ones, and kfree_page never panics |
| `PhysMem.UseEarly` | kernel/main.c:55-82 | any sequence of taking and giving back pages splits the early pages into those free and those taken, with none in both |
| `PhysMem.Boot` | kernel/main.c:54-83 | whatever early pages the kernel takes and gives back before the release, the free list is then the early pages below 8 MB it does not hold and, each once, whole pages from 8 MB on above the kernel all of whose addresses are RAM; every such page when the table did not overflow |
| `PageSpace.AddTableWalk` | kernel/memory/vm.c:145-153 | a new page table changes no mapping |
| `PageSpace.AddLeafSound` | kernel/memory/vm.c:174-181 | mapping an unowned frame keeps one owner a frame |
| `PageSpace.DropLeafSound` | kernel/memory/vm.c:571-586 | unmapping a page gives up exactly the frame it owns |
| `PageTables.VirtualMemory.WalkPgdir` | kernel/memory/vm.c:137-156 | finds the page table, or allocates a blank one, entered with flags present, writable and user, that changes no mapping, or fails without effect exactly when it may not or cannot |
| `PageTables.VirtualMemory.MapPage` | kernel/memory/vm.c:174-186 | the page is mapped to the frame, or nothing changes: no memory, or the remap panic exactly when the page was mapped |
| `PageTables.VirtualMemory.MapPages` | kernel/memory/vm.c:168-189 | the pages that the bytes [va, va + size) touch, and no others, are mapped to consecutive frames, of devices or unowned memory; or memory runs out with an initial part mapped; or the panic meets a mapped page; every frame is accounted for |
| `PageTables.VirtualMemory.InitUvm` | kernel/memory/vm.c:458-466 | the first page is mapped to a frame of its own with the given contents |
| `PageTables.VirtualMemory.DeallocVm` | kernel/memory/vm.c:561-589 | exactly the pages p with newsz <= 4096 p < oldsz are unmapped and exactly the frames they owned are freed; its panics are not reached |
| `PageTables.VirtualMemory.AllocVm` | kernel/memory/vm.c:524-549 | success maps exactly the pages p with oldsz <= 4096 p < newsz, which were not mapped, each to a zeroed frame that was free; on failure those pages are unmapped, every frame is accounted for, and the mapping is restored if and only if nothing was mapped there; the panic means one of them was mapped; with no free page a growth by a page or more fails |
| `PageTables.GrowOverFramebuffer` | kernel/memory/vm.c:524-549 | a run: a process of one page maps the framebuffer, the rest of memory is taken, growing past the framebuffer fails and the framebuffer is no longer mapped |
| `PageTables.VirtualMemory.FreeVm` | kernel/memory/vm.c:592-617 | exactly the directory, its page tables and its frames go back to the allocator; other address spaces are untouched |
| `PageTables.VirtualMemory.CopyUvm` | kernel/memory/vm.c:673-707 | the child maps exactly the pages p with 4096 p < sz, with the parent's flags and contents, each on a frame that was free; the parent is unchanged; the panic means the parent lacks one of them; on failure everything is as before |
| `PageSpace.UndoneRestores` | kernel/memory/vm.c:533-548 | a failed allocvm restores every mapping exactly when the range was unmapped, and then nothing owned is lost |
| `Division.CountLeadingZeros` | kernel/lib/math.c:125-144 | 2^(63-r) <= a < 2^(64-r) for a > 0, and 63 for 0 |
| `Division.SignTrick` | kernel/lib/math.c:232 | the sign of b - rem - 1 decides b > rem for every pair the loop meets |
| `Division.StartDivision` | kernel/lib/math.c:224-227 | the shift counts are between 1 and 63 and the remainder starts below the divisor |
| `Division.OneBit` | kernel/lib/math.c:228-234 | one turn of the loop brings down one bit, keeps rem < b and extends the quotient |
| `Division.DivMod` | kernel/lib/math.c:190-239 | a = q*b + r with r < b for all a and b != 0, the divide error exactly for b = 0 |
| `Division.UDivMod` | kernel/lib/math.c:319-349 | the same, by shift and subtract |
| `Division.OneDivision` | kernel/lib/math.c:187-239 | there is only one such q and r |
| `Division.Agree` | kernel/lib/math.c:190-349 | the two algorithms give the same result, the mathematical quotient and remainder |
| `Division.OneTruncation` | kernel/lib/math.c:241-278 | truncating division is determined by a = q*b + r, \|r\| < \|b\| and r having a's sign |
| `Division.DivSigned` | kernel/lib/math.c:242-246 | the truncated quotient for every pair but the minimum over -1, which wraps to the minimum |
| `Division.ModSigned` | kernel/lib/math.c:273-278 | the truncated remainder for every pair |
| `ShellGrammar.LineSound` | user/sh.c:462-550 | what the parser accepts is derived by the grammar, with the tree's tokens exactly those consumed |
| `ShellGrammar.LineComplete` | user/sh.c:462-550 | every line the grammar derives, with at most nine words a command, is accepted with that derivation |
| `ShellGrammar.Accepts` | user/sh.c:449-550 | a token sequence is accepted with derivation d if and only if d is a derivation of it |
| `ShellGrammar.LineWords` | user/sh.c:462-550 | the words of the command tree are exactly the word tokens of the line |
| `ShellTree.SpellsTree` | user/sh.c:449-550 | a line is accepted with a tree if and only if it spells that tree, and it spells no other: words in order, each redirection around what stands before it, left before \| and ; before right, & behind its command, blocks in parentheses |
| `ShellTree.LineOpenings` | user/sh.c:486-507 | in the tree a line spells, a file is opened read-only on descriptor 0 exactly when its name stands behind <, and for writing on 1 exactly when behind > or >> |
| `Shell.GetToken` | user/sh.c:394-433 | the kind and place of the next token, and the cursor behind it |
| `Shell.Peek` | user/sh.c:435-442 | whether the next token begins with one of the given symbols; no token is consumed |
| `Shell.Redirections` | user/sh.c:486-507 | the redirections that come next, or the panic when a file name is missing |
| `Shell.Arguments` | user/sh.c:533-549 | the words and redirections of a command, or the panic on a stray symbol or a tenth word |
| `Shell.ParseLineCmd` | user/sh.c:462-474 | the deterministic parser on the remaining tokens, with its tree |
| `Shell.LexWords` | user/sh.c:394-433 | word tokens are maximal runs of word characters, in order and disjoint |
| `Shell.LexText` | user/sh.c:394-433 | the tokens put together are the text without its white space, and >> is one token |
| `Shell.NulTerminate` | user/sh.c:553-596 | zeros are written at the ends of the tree's words and nowhere else |
| `Shell.WordsSurvive` | user/sh.c:553-596 | no such zero falls inside a word, and each word then reads as exactly its token |
| `Shell.ParseCmd` | user/sh.c:449-460 | returns a tree if and only if the line spells it, so it panics exactly when the line spells none; its redirections open what the line says, and every argument and file name is left as a string of its own |
| `Grep.StartsStar` | user/grep.c:102-113 | a starred character takes some number of fitting characters, and the rest of the pattern matches what follows |
| `Grep.StartsOne` | user/grep.c:97-99 | a single character matches one fitting character, and the rest what follows |
| `Grep.PlainPatterns` | user/grep.c:74-100 | a pattern without special characters is found exactly in the texts that contain it, behind ^ in those that begin with it, before $ in those that end in it; . in those that are not empty |
| `Grep.AnyRun` | user/grep.c:102-113 | .* passes over any stretch of text |
| `Grep.MatchHere` | user/grep.c:89-100 | 1 exactly when some prefix of the text is in the pattern's language |
| `Grep.MatchStar` | user/grep.c:103-113 | 1 exactly when some prefix is in the language of c* followed by the pattern |
| `Grep.Match` | user/grep.c:74-86 | 1 exactly when some substring, anchored as written, is in the pattern's language |
| `Path.Push` | kernel/syscalls/sysfile.c:77-97 | a name is appended exactly when the longer directory fits, and the stack remembers where to cut |
| `Path.Canonicalize` | kernel/syscalls/sysfile.c:29-109 | succeeds exactly when every directory on the way fits, and then the buffer holds the C string of "/" and the joined fold of the components, within outsz |
| `Path.ComponentsJoin` | kernel/syscalls/sysfile.c:49-102 | a slash separates components, whatever stands on its sides |
| `Path.Idempotent` | kernel/syscalls/sysfile.c:29-109 | canonicalizing its own output succeeds and changes nothing |
| `Path.Dots` | kernel/syscalls/sysfile.c:49-102 | a name goes one directory down, . stays, .. undoes a name and stays at the root, and more slashes change nothing |
| `Path.FromCwd` | kernel/syscalls/sysfile.c:133-176 | a relative path leads where its components lead from the current directory |
| `Path.ResolveCwd` | kernel/syscalls/sysfile.c:119-177 | 0 exactly when the path is resolvable, with the canonical path; 1 with an empty string; -1 exactly for an empty request or over-long parts |
| `Bresenham.HalfPixel` | user/fbline.c:86-106 | each point is within half a pixel of the true line |
| `Bresenham.Ends` | user/fbline.c:86-106 | the line starts at one end and reaches the other in its last turn and not before |
| `Bresenham.InsideBox` | user/fbline.c:86-106 | no point leaves the bounding box of the ends |
| `Bresenham.Turn` | user/fbline.c:97-105 | both tests step exactly as the rounded line does, and err stays (j+1)\|dx\| - (i+1)\|dy\| |
| `Bresenham.SafeIff` | user/fbline.c:97-105 | the condition Safe on the two distances holds if and only if in every turn the doubled error, the error between the tests and the new error fit an int |
| `Bresenham.WithinRange` | user/fbline.c:97-105 | distances of at most 715827883 are safe, whatever the slope |
| `Bresenham.Fits` | user/fbline.c:97-105 | in a turn of a safe line no variable overflows |
| `Bresenham.BeyondRange` | user/fbline.c:97 | one further, a line with slope is not safe and overflows in some turn, while a much longer level line is safe |
| `Bresenham.Line` | user/fbline.c:86-106 | for every safe line: terminates after max(\|dx\|,\|dy\|) steps, having plotted exactly the on-screen points of the line, with no overflow |
| `Bresenham.Plot` | user/fbline.c:10-19 | one pixel on the screen is set, or nothing off it |

## Left out

- Disk, network, display, interrupt-controller and keyboard drivers: port and MMIO plumbing; `iderw` is an atomic read or write of the disk.
- Spinlock internals, interrupt flags, FPU state and context-switch assembly: `acquire`, `release` and `switch_context` are atomic steps.
- The kernel half of page directories and MMIO mapping, with the private page tables that each new directory takes there for the fixed kernel mappings and that `freevm` gives back; the heap and MMIO entries are copied from the kernel's directory in strides of 4 MB.
- The triple indirect arithmetic of `ext2fs_bmap` and the branch of `ext2fs_itrunc` for it: never reached, because the slot stays empty.
- Device inodes, `ext2fs_ilock`, `iput` and timestamps; inodes are typed records and the inode table is a map from numbers to them, so the byte layout of an on-disk inode is not part of the model.
- Locks between inodes: a file operation runs alone.
- `exec`, argument copying, `printf`, terminals, `edit`, network protocols and the user utilities: interface code or easy members.
- grep's line buffering and the shell's execution of commands.
- Ext2Fs.FileSystem.Balloc: the group descriptors are read from block 2 of the partition and at most 32 fit, as in the code; a volume with more groups is not modelled.
- Ext2Fs.FileSystem.Ialloc: the inode bitmaps are a sequence of blocks, one a group, instead of blocks of the disk; what a group beyond the last leads to is not modelled.
- `Kmalloc`: `kmalloc` and `kfree` take no lock, and can be called on any cpu; the model is about calls that run alone.
- `PageTables`: vm.c takes no lock either, and kmem.lock covers one page at a time; the model is about calls that run alone, so pages are taken by nobody else meanwhile.
- Kmalloc.KernelHeap.Morecore: whether memory is left is the environment's choice, fresh memory continues the heap, and users are taken not to overwrite headers. Addresses count in units of a header.
- Scheduler.Ptable.Exit: closing files and freeing the address space happen before ptable.lock is taken and are not modelled.
- SleepLock.RunInv: taking a spinlock is one step that is possible when the lock is free; fairness of spinning and of the scheduler is not modelled, so progress means that it stays possible (`SleepLockProgress.CanAcquire`).
- Pipe.PipeBuffer.Close: the page is reported as freed; what the page allocator does with it is in `Frames`.
- BufferCache.Cache.LockAndRead: the disk queue and disk errors are not modelled.
- PageTables.VirtualMemory.MapPages: frames from PHYSTOP on belong to devices; they are not owned, and reading one gives no particular contents. Mappings of the kernel half, where several directories map one frame, are not modelled.
- PageTables.VirtualMemory.InitUvm: with no page left the code writes through a null pointer; the model requires one.
- PageTables.VirtualMemory.DeallocVm: only below KERNBASE; shrinking the kernel heap is not modelled.
- PageTables.VirtualMemory.AllocVm: likewise; growing the kernel heap, from KERNBASE on without PTE_U, is `Kmalloc.KernelHeap.Sbrk`.
- PageTables.VirtualMemory.FreeVm: the directory entries from KERNBASE on are not modelled, so the private kernel-half tables that this loop also frees are not.
- PageTables.VirtualMemory.CopyUvm: a new directory costs one page here; the kernel-half tables it takes as well, and gives back on failure, are not modelled.
- PhysMem.UsableRanges.Collect: the boot loader's list is a sequence of entries; how limits are computed from it is not modelled.
- Shell.ParseCmd: command trees are values; redirections found while a command's words are still being read are kept in a list until the node is complete, where the code aliases the unfinished node. `ShellTree.AddWord` says what that aliasing does, and `ShellTree.SpellsTree` that the result is the same.
- Path.Canonicalize: null pointers are not modelled.
- Division.DivMod: the pointer for the remainder may be null in the code; here the remainder is always returned.
- Bresenham.Line: for end points that are not safe the C arithmetic overflows, which is undefined, and nothing is stated.
