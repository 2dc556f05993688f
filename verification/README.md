# xv6 with a network stack: a Dafny model

This project models the hardest parts of a RISC-V xv6 kernel with a small UDP/IP
stack, and of its user programs, and proves what they are for:

- the write-ahead log (`LogSpec`, `Log`) and group commit under crashes (`GroupCommit`);
- sleep locks over `sleep` and `wakeup` (`SleepLock`);
- block allocation, file growth, reading, writing and truncation (`FsSpec`, `Fs`),
  and what a write may log (`LogBudget`);
- Sv39 page tables as the kernel builds them and as the hardware reads them
  (`Sv39`, `Mmu`), reference-counted page allocation, fork's copy, and the pages
  these take (`PageCost`, `Vm`);
- the buffer cache and its LRU ring (`Bcache`);
- the virtio disk driver against a device that completes in any order (`Virtio`);
- pipes across 32-bit counter wrap (`Pipe`);
- the Internet checksum and the UDP and IPv4 headers (`Net`);
- the user allocator (`Umalloc`), the shell's parser (`Shell`, `ShellGrammar`) and grep's matcher (`Grep`).

Code that changes state in place is a class whose methods have the source's
loops, proved against functions and predicates on values; protocols between
several processes, devices or power failures are state machines over their
steps, or classes each of whose methods is one atomic step. Ghost fields hold
what the code does not store: the disk after every write, the list that headers
in memory spell out, the requests in flight, the bytes that went through a pipe.

`dafny verify dfyconfig.toml` checks everything.

## What the proofs found

- `param.h` documents `MAXOPBLOCKS` (10) as the most blocks a file system call
  may write. `GroupCommit.LogSpaceExact` shows that `log_write`'s panic is out
  of reach exactly when a call logs at most 9: `begin_op` counts the header
  slot as room. `TenBlocksPanic` is the run of three ten-block calls that ends
  in the panic. A `filewrite` chunk logs at most 6 blocks and the bitmap, which
  is within that bound exactly for a file system of at most 24576 blocks
  (`LogBudget.ChunksFit`).
- `chksum` folds twice. `Net.ChksumExact` shows that this is the ones'
  complement checksum for all inputs of a length exactly when the length is at
  most 131076 bytes; the sum of 65538 words of 0xffff and a byte 1 leaves a carry.
- `morecore` passes a byte count to `sbrk`, which takes an int.
  `Umalloc.SbrkCountExact` shows that it arrives unchanged exactly when `malloc`
  is asked for at most 2^31 - 32 bytes.
- `build_udp` stores the destination port unswapped, so the parsers return it
  with its bytes swapped (`Net.DatagramRoundTrip`).
- `parse_ip4_packet` copies into an array of 1500 bytes with `payload_len` right
  behind it, after storing that length. `Net.DatagramExact` shows that of the
  payload lengths `udp_sendto` takes, exactly those up to 1492 are delivered
  whatever the payload; a longer one of zeros is rejected
  (`Net.LongDatagramLost`), because the copy has overwritten its length.
- `kalloc` and `kfree` index `ref_counter` with the absolute page number, which
  is past its end for every page of RAM (`Vm.CounterOutside`); for a kernel that
  ends within the first four megabytes the store lands in memory that `kalloc`
  hands out (`Vm.CounterStoreLands`).
- `piperead` loses the byte whose `copyout` fails. `Pipe.Pipe.PipeRead` shows
  that it does so exactly when there are more bytes, asked for and in the pipe,
  than can be copied out; `Pipe.LoseByte` is such a call.
- A `pipewrite` that is killed after accepting bytes returns without waking
  readers. `Pipe.Pipe.PipeWrite` shows that exactly such a call leaves a reader
  asleep beside them; `Pipe.StrandReader` is one.
- A `writei` whose source cannot be copied whole leaves the bytes that were
  copied in the buffer, unlogged, where a later read finds them.
  `Fs.FileSystem.Writei` shows how many there are, and that the file is the
  plain overlay exactly when they are the bytes it had; `Fs.TearWrite` is a
  write of two bytes that returns 0 and changes one.
- `virtio_disk_rw` computes the sector of a block in 32 bits.
  `Virtio.SectorExact` shows that it is the block's exactly for block numbers
  below 2^31.
- The holder of a sleep lock may sleep on another channel, and then everybody
  waits for that channel (`SleepLock.HolderMayNap`); `SleepLock.NoDeadlock`
  shows that nothing else blocks the users of a lock.

## Model

| member | source | states |
|---|---|---|
| LogSpec.CommitIsAtomic | xv6-riscv/src/kernel/log.c:177-203 | a crash after any of commit's block writes, then recovery, leaves the home blocks as before or with the whole transaction installed, the latter exactly when the header write reached the disk |
| LogSpec.CommitSurvivesCrashes | xv6-riscv/src/kernel/log.c:68-203 | the same under any number of further crashes during recovery |
| LogSpec.RecoveryRestarts | xv6-riscv/src/kernel/log.c:116-123 | recovery cut off after any of its writes can be started again with the same outcome |
| LogSpec.RecoverySurvivesCrashes | xv6-riscv/src/kernel/log.c:116-123 | any chain of interrupted recoveries ends in the same home blocks and an empty header |
| LogSpec.InstalledIsUpdated | xv6-riscv/src/kernel/log.c:68-83 | installing a committed transaction replaces exactly its blocks with the logged contents |
| LogSpec.AbsorbedUpdates | xv6-riscv/src/kernel/log.c:214-235 | absorbing a second write of a block loses nothing: the transaction's effect is the old one followed by the new write |
| LogSpec.CommitTraceRecovers | xv6-riscv/src/kernel/log.c:177-203 | every disk a commit passes through recovers to the old home blocks or to all of the new ones |
| LogSpec.RecoveryTraceRecovers | xv6-riscv/src/kernel/log.c:116-123 | every disk a recovery passes through recovers to what the recovery was going to give |
| Log.LogState.LogWrite | xv6-riscv/src/kernel/log.c:214-235 | both panics exactly by their guards; otherwise the pending transaction is the old one with the block absorbed |
| Log.LogState.WriteLog | xv6-riscv/src/kernel/log.c:178-191 | copies every pending block into its log slot, passing through the specified disks in order |
| Log.LogState.WriteHead | xv6-riscv/src/kernel/log.c:102-114 | one block write that makes the on-disk header, count first, list the pending blocks |
| Log.LogState.ReadHead | xv6-riscv/src/kernel/log.c:86-97 | the in-memory header becomes the on-disk one |
| Log.LogState.InstallTrans | xv6-riscv/src/kernel/log.c:68-83 | installs block by block along the specified disks, leaves the cache clean and unpins unless recovering |
| Log.LogState.Commit | xv6-riscv/src/kernel/log.c:193-203 | the disk passes through exactly the states of the crash theorems, each of which recovers to the old or to all of the new home blocks, and the log is empty afterwards |
| Log.LogState.RecoverFromLog | xv6-riscv/src/kernel/log.c:116-123 | the disk passes through exactly the recovery states, each of which recovers to the same home blocks, and ends recovered |
| GroupCommit.StepKeepsInv | xv6-riscv/src/kernel/log.c:126-235 | every step of every process, of commit, of recovery and of the power supply keeps the invariant |
| GroupCommit.RunKeepsInv | xv6-riscv/src/kernel/log.c:126-235 | every run from any well-formed disk satisfies the invariant |
| GroupCommit.CrashSafety | xv6-riscv/src/kernel/log.c:126-203 | at any point of any run, a crash and recovery give exactly the replay of the durable writes, which are whole system calls that have ended |
| GroupCommit.GroupCommitIsolation | xv6-riscv/src/kernel/log.c:126-175 | nobody is inside a call while the log commits, an idle log is empty with nobody asleep in begin_op, whoever sleeps there would have to wait if it looked again, and the committing and outside-transaction panics cannot happen |
| GroupCommit.NoLostWakeup | xv6-riscv/src/kernel/log.c:126-175 | while anybody sleeps in begin_op, the next step of the commit is enabled, or there is no room and the end_op of some call is; a step wakes all sleepers or leaves them a reason to sleep |
| GroupCommit.NineBlocksFit | xv6-riscv/src/kernel/log.c:126-142 | with at most nine blocks a call, log_write has room in every run |
| GroupCommit.TenBlocksPanic | xv6-riscv/src/kernel/log.c:133-139 | with ten, a run of three calls reaches the panic |
| GroupCommit.LogSpaceExact | xv6-riscv/src/kernel/log.c:214-235 | log_write's space panics are unreachable if and only if a call logs at most MAXOPBLOCKS - 1 distinct blocks |
| SleepLock.StepKeepsInv | xv6-riscv/src/kernel/proc.c:731-776 | every step of acquiresleep, releasesleep, sleep and wakeup on the lock and on other channels, kill, yield and the scheduler keeps the invariant |
| SleepLock.RunKeepsInv | xv6-riscv/src/kernel/proc.c:640-800 | every interleaving of any number of processes satisfies it, holders that sleep elsewhere included |
| SleepLock.MutualExclusion | xv6-riscv/src/kernel/sleeplock.c:21-52 | at most one process is between acquiresleep and releasesleep, and it is the one holdingsleep names |
| SleepLock.AcquireReturns | xv6-riscv/src/kernel/sleeplock.c:21-41 | acquiresleep returns to a process only as the owner, and the lock stays with it until its own releasesleep clears it |
| SleepLock.WokenBy | xv6-riscv/src/kernel/proc.c:762-800 | a sleeper is woken by the wakeup of its own channel, which for the lock comes from a process that has just cleared it, or by a kill, and by nothing else |
| SleepLock.NoLostWakeup | xv6-riscv/src/kernel/sleeplock.c:21-41 | while the inner spinlock is free, nobody sleeps on a free sleep lock or is committed to sleeping on it |
| SleepLock.NoDeadlock | xv6-riscv/src/kernel/proc.c:731-776 | while any process uses the lock, some process can take its next action or be scheduled, or the holder sleeps on another channel, whose wakeup is enabled |
| SleepLock.HolderMayNap | xv6-riscv/src/kernel/virtio_disk.c:283-286 | the exception is met: a run in which the holder sleeps on another channel and nobody can move by itself |
| FsSpec.WordSet | xv6-riscv/src/kernel/fs.c:399-416 | a stored entry of an indirect block reads back and no other entry changes |
| FsSpec.MarkedUsed | xv6-riscv/src/kernel/fs.c:65-88 | setting a bit of the map marks that block and no other |
| FsSpec.UnmarkedUsed | xv6-riscv/src/kernel/fs.c:91-105 | clearing a bit of the map frees that block and no other |
| FsSpec.FileFormat | xv6-riscv/src/kernel/fs.h:27-45 | in literal positions: sixteen inodes a block, thirteen addresses, byte x of a file in the block named by address x / 1024 or by a little-endian word of the indirect block |
| FsSpec.BitmapFormat | xv6-riscv/src/kernel/fs.h:47-51 | a block is taken exactly when bit b % 8 of byte b / 8 of the bitmap is set |
| FsSpec.RepointKeepsInv | xv6-riscv/src/kernel/fs.c:382-421 | storing a fresh block in one slot keeps every block used and referenced once |
| FsSpec.GrewFiles | xv6-riscv/src/kernel/fs.c:382-421 | taking a block for a file changes no byte of any file |
| FsSpec.OverwrittenFiles | xv6-riscv/src/kernel/fs.c:516-527 | a data write changes one block of one file and nothing else |
| FsSpec.ReadBack | xv6-riscv/src/kernel/fs.c:471-539 | after a write, the bytes at its offset are the bytes written |
| FsSpec.TornShows | xv6-riscv/src/kernel/fs.c:516-533 | a write with the bytes of a failed copy behind it is the plain write if and only if these bytes, as far as the file goes, are those it had |
| FsSpec.CarriesAll | xv6-riscv/src/kernel/log.c:205-235 | the logged blocks carry a whole change if and only if committing them over the old image gives the new one |
| FsSpec.CarriedToDisk | xv6-riscv/src/kernel/file.c:145-192 | transactions that each carry their step, committed one after the other, bring every image to the disk |
| FsSpec.TruncatedInv | xv6-riscv/src/kernel/fs.c:425-453 | truncation keeps unique ownership, clears the file's slots and leaves every other file's slots alone |
| FsSpec.TruncatedOthers | xv6-riscv/src/kernel/fs.c:425-453 | the truncated file is empty and every other file keeps its bytes |
| FsSpec.ChunkLogs | xv6-riscv/src/kernel/file.c:159-186 | a chunk of filewrite logs at most 6 blocks and the bitmap |
| Fs.FileSystem.Balloc | xv6-riscv/src/kernel/fs.c:65-88 | the first free block, now marked and zeroed; 0 exactly when every block is used |
| Fs.FileSystem.Bfree | xv6-riscv/src/kernel/fs.c:91-105 | clears the block's bit and logs exactly its bitmap block; the freeing-free-block panic exactly when it was clear, with nothing changed |
| Fs.FileSystem.Bmap | xv6-riscv/src/kernel/fs.c:382-421 | the block of the file, allocated along with the indirect block if need be; ownership, sizes, bytes and all other mappings stay; every block it changed is logged, and nothing beyond the bitmap, the indirect block and that block |
| Fs.FileSystem.Readi | xv6-riscv/src/kernel/fs.c:471-496 | the file's bytes from off on, clipped to its size; nothing changes |
| Fs.FileSystem.Writei | xv6-riscv/src/kernel/fs.c:505-539 | overlays exactly the first r source bytes, grows the size to the larger of old and off + r, keeps no holes and every other file; -1 exactly by its guards; r is n, or stops at a full disk or where the source cannot be read, with exactly that piece's copied bytes showing behind the r, cut off at the size; it is the plain overlay if and only if these are the bytes the file had; a first piece that fails is not logged; the blocks of the r bytes, the inode's block and every changed block but the torn one are logged, so that committing them makes the write durable, and a torn block the file had is not |
| Fs.FileSystem.Itrunc | xv6-riscv/src/kernel/fs.c:425-453 | frees exactly the file's blocks, so that no free block is freed; logs exactly their bitmap blocks and the inode's, which carry the whole change |
| Fs.FileSystem.Filewrite | xv6-riscv/src/kernel/file.c:145-192 | the chunks together overlay a prefix of the source, with the copied bytes of a failed copy behind it; n is returned only if all of it is in range and can be read, and anything else only for a negative n, an offset past the end, a range past the largest file, a source that cannot be read or a full disk; one transaction for every three blocks, each within the bound and carrying what it changed, so that committing them in turn puts the file on disk |
| Fs.TearWrite | xv6-riscv/src/kernel/fs.c:505-539 | a write of two bytes of which one can be copied returns 0 and logs the inode only, and a read then finds the copied byte |
| LogBudget.ChunksFit | xv6-riscv/src/kernel/file.c:145-192 | when calls log as much as a chunk of filewrite may, log_write never panics if and only if the file system has at most 24576 blocks |
| Sv39.PxInjective | xv6-riscv/src/kernel/riscv.h:354-357 | below MAXVA the three indices name the page |
| Sv39.PackRoundTrip | xv6-riscv/src/kernel/riscv.h:347-352 | an entry gives back the address and the flags packed into it; the layout itself is pinned by Mmu.TranslatesLeaf |
| Sv39.LinkKeepsTree | xv6-riscv/src/kernel/vm.c:92-110 | hanging a zeroed table into an empty interior entry keeps the tree and maps nothing new |
| Sv39.SetLeaf | xv6-riscv/src/kernel/vm.c:149-172 | storing a leaf entry changes the mapping of one page and of no other |
| Mmu.TranslatesLeaf | xv6-riscv/src/kernel/riscv.h:341-357 | translation as the privileged specification defines it, in bit positions, finds for every address below MAXVA the leaf entry of its page in the kernel's tree, and faults where there is none |
| Mmu.PackGrants | xv6-riscv/src/kernel/riscv.h:347-352 | the hardware grants, through a packed entry, the page and the permissions that were packed, unless write is given without read |
| PageCost.MissingSum | xv6-riscv/src/kernel/vm.c:92-110 | once the tables for some pages exist, more pages lack exactly what they lacked before without those |
| PageCost.NeededMore | xv6-riscv/src/kernel/vm.c:149-172 | one page more takes itself and the tables still missing on its path |
| PageCost.NeededGrows | xv6-riscv/src/kernel/vm.c:232-256 | a longer range takes more pages |
| Vm.EndsOneWay | xv6-riscv/src/kernel/vm.c:232-256 | tree, free list and range decide how filling them ends, and after how many pages |
| Vm.EndsWell | xv6-riscv/src/kernel/vm.c:232-256 | with no panic in the way, it fails if and only if the free list is shorter than the pages to fill and the tables they lack |
| Vm.RoundsUp | xv6-riscv/src/kernel/riscv.h:338 | PGROUNDUP is the least multiple of 4096 that is not below its argument |
| Vm.CounterOutside | xv6-riscv/src/kernel/kalloc.c:17-35 | a page's index into ref_counter is within the array if and only if the page is below 128 MB, so for no page of RAM |
| Vm.CounterStoreLands | xv6-riscv/src/kernel/kalloc.c:57-106 | for a kernel ending within the first four megabytes of RAM, the counter of every page of RAM is stored in memory that kalloc hands out |
| Vm.Memory.constructor | xv6-riscv/src/kernel/kalloc.c:37-42 | RAM with an empty free list is a valid start |
| Vm.Memory.FreeRange | xv6-riscv/src/kernel/kalloc.c:44-51 | every whole page from the kernel's end to PHYSTOP goes on the list, once |
| Vm.Memory.Kalloc | xv6-riscv/src/kernel/kalloc.c:89-106 | the head of the free list with one reference and junk contents; 0 exactly when there is none |
| Vm.Memory.Kfree | xv6-riscv/src/kernel/kalloc.c:57-84 | drops a reference, freeing the page with the last; panics exactly for an unmanaged address |
| Vm.Memory.ShareAndFree | xv6-riscv/src/kernel/kalloc.c:30-84 | a reference added to an allocated page and given up by kfree leaves everything as it was |
| Vm.Memory.UvmCreate | xv6-riscv/src/kernel/vm.c:201-212 | a page table that maps nothing, or 0 exactly when memory is out |
| Vm.Memory.Walk | xv6-riscv/src/kernel/vm.c:92-110 | the entry for the page, new tables zeroed and mapping nothing, one page taken for each table that was missing; no entry only when a table is missing and, if allocating, fewer pages are free than tables are missing |
| Vm.Memory.MapPages | xv6-riscv/src/kernel/vm.c:149-172 | maps exactly a run of pages, all unmapped before, with the given addresses and permissions, taking one page for each missing table; fails only when fewer are free than are missing up to the next page; panics only at a page past MAXVA or already mapped; the hardware then translates every address of the run to the given page with the given permissions, and every other address as before |
| Vm.Memory.UvmUnmap | xv6-riscv/src/kernel/vm.c:177-199 | panics exactly unless aligned and fully mapped; removes exactly these mappings, drops one reference to each of their pages and returns exactly those without another |
| Vm.Memory.UvmDealloc | xv6-riscv/src/kernel/vm.c:301-313 | shrinks to newsz, unmapping exactly the pages between the rounded sizes and returning those without another reference |
| Vm.Memory.UvmAlloc | xv6-riscv/src/kernel/vm.c:232-256 | grows with zeroed, distinct, owned pages and the right permissions; on failure every mapping is as before and every data page is returned; which of success, failure and panic it is, and at which page, is decided by the tree and the free list: where no panic is in the way it fails if and only if fewer pages are free than there are pages to add and tables missing; panics only past MAXVA or over an existing mapping |
| Vm.Memory.UvmCopy | xv6-riscv/src/kernel/vm.c:377-405 | the child maps fresh pages with the parent's contents and flags, the parent is unchanged; on failure nothing is kept; fails, where no panic is in the way, if and only if fewer pages are free than there are pages to copy and tables missing; panics exactly at the first page that the parent lacks, or that is past MAXVA or mapped in the child when a page for it is free |
| Vm.Memory.FilledTranslates | xv6-riscv/src/kernel/vm.c:232-405 | what uvmalloc and uvmcopy fill is what the hardware finds: each address leads to the page with its contents, with its permissions |
| Vm.Memory.AllocatedTranslates | xv6-riscv/src/kernel/vm.c:232-256 | through the hardware a program finds zeros at every address of its new memory, readable, and writable or executable as xperm says |
| Vm.Memory.FreeWalk | xv6-riscv/src/kernel/vm.c:343-359 | panics exactly when a leaf is left; otherwise returns every table of the subtree once |
| Vm.Memory.UvmFree | xv6-riscv/src/kernel/vm.c:363-369 | when exactly the first pages are mapped, every table and every page without another reference goes back to the free list |
| Bcache.Cache.constructor | xv6-riscv/src/kernel/bio.c:36-53 | the ring of all buffers, coherent, unreferenced and unlocked |
| Bcache.Cache.Bget | xv6-riscv/src/kernel/bio.c:58-89 | one buffer per block, for any device and block; the no-buffers panic exactly when all are referenced and none has the block; a recycled buffer is the least recently used unreferenced one |
| Bcache.Cache.Fill | xv6-riscv/src/kernel/bio.c:96-101 | the buffer holds what was last stored in its block |
| Bcache.Cache.Bread | xv6-riscv/src/kernel/bio.c:92-103 | a locked, valid buffer with the latest contents of the block, one reference more and nothing else changed, or a reference and the wait for another's lock; the panic exactly as in bget, with nothing changed |
| Bcache.Cache.Bwrite | xv6-riscv/src/kernel/bio.c:106-112 | the disk block becomes the buffer; the panic exactly when the caller does not hold the lock |
| Bcache.Cache.Unlock | xv6-riscv/src/kernel/bio.c:116-122 | the lock is given up; the panic exactly when the caller does not hold it |
| Bcache.Cache.Unref | xv6-riscv/src/kernel/bio.c:124-136 | a reference is dropped, whoever holds the lock by then; with the last one the buffer moves to the front of the ring |
| Bcache.Cache.Brelse | xv6-riscv/src/kernel/bio.c:116-137 | the two in turn: lock and reference gone, with the last reference the buffer is at the front of the ring |
| Bcache.Cache.ReadOnce | xv6-riscv/src/kernel/bio.c:92-137 | bread and brelse give the block's latest contents and restore every reference count and owner |
| Bcache.Cache.ReadMany | xv6-riscv/src/kernel/bio.c:92-137 | any number of reads of any blocks on an unused cache succeeds without a panic and leaves it unused |
| Bcache.Cache.Bpin | xv6-riscv/src/kernel/bio.c:139-144 | one more reference, coherence kept |
| Bcache.Cache.Bunpin | xv6-riscv/src/kernel/bio.c:146-151 | one reference less, which was there, coherence kept |
| Umalloc.FreedOrdered | xv6-riscv/src/user/umalloc.c:24-44 | a freed block put in its place and merged with its neighbours leaves the list sorted, disjoint and without touching blocks, and its units add up |
| Umalloc.StoredFreed | xv6-riscv/src/user/umalloc.c:30-43 | free's pointer stores leave headers in memory that spell out exactly that list |
| Umalloc.Allocator.FindPlace | xv6-riscv/src/user/umalloc.c:30-32 | the circular search ends, from any starting block, at the block just below the freed one |
| Umalloc.Allocator.Free | xv6-riscv/src/user/umalloc.c:24-44 | the block returns to the list, every other allocated block keeps its header and space, no unit is lost; the next search starts at the block below |
| Umalloc.SbrkCountExact | xv6-riscv/src/user/umalloc.c:51-69 | the byte count reaches sbrk unchanged if and only if at most 2^31 - 32 bytes are asked for |
| Umalloc.ToInt32Exact | xv6-riscv/src/user/umalloc.c:51-55 | the argument of sbrk is the int with the count's low 32 bits |
| Umalloc.Allocator.MoreCore | xv6-riscv/src/user/umalloc.c:46-61 | the new units, the larger of nu and 4096, are on the list inside one block; 0 exactly when sbrk refuses, with nothing changed; broken exactly when sbrk grants another amount than asked for |
| Umalloc.Allocator.Malloc | xv6-riscv/src/user/umalloc.c:63-90 | terminates with a block of enough units that was not allocated and overlaps nothing, or 0 when no free block fits and sbrk fails; without more memory it is the end of the first block that fits after freep, which moves before it; memory is asked for only when no free block fits; broken only for requests above 2^31 - 32 bytes that no free block fits |
| Virtio.QueueShort | xv6-riscv/src/kernel/virtio_disk.c:263-319 | at most two chains are in flight, so that 16-bit indices are equal exactly for an empty ring and neither ring overruns |
| Virtio.DeviceSees | xv6-riscv/src/kernel/virtio_disk.c:239-261 | following the links from a head finds the request that was formatted |
| Virtio.SectorExact | xv6-riscv/src/kernel/virtio_disk.c:218 | the sector asked for starts the block if and only if the block number is below 2^31 |
| Virtio.ReadBack | xv6-riscv/src/kernel/virtio_disk.c:215-292 | what was stored for a block is what a read of the block finds |
| Virtio.OtherBlocks | xv6-riscv/src/kernel/virtio_disk.c:215-292 | storing one block changes no byte of another |
| Virtio.VirtioDisk.AllocDesc | xv6-riscv/src/kernel/virtio_disk.c:155-166 | the lowest free descriptor, or -1 when there is none |
| Virtio.VirtioDisk.Alloc3Desc | xv6-riscv/src/kernel/virtio_disk.c:199-213 | three distinct free descriptors exactly when there are three; otherwise nothing changes |
| Virtio.VirtioDisk.FreeChain | xv6-riscv/src/kernel/virtio_disk.c:184-197 | frees exactly the request's triple, never a free descriptor |
| Virtio.VirtioDisk.Start | xv6-riscv/src/kernel/virtio_disk.c:215-280 | with fewer than two requests in flight, adds a disjoint chain for the buffer, asking for the sector where the block starts, and puts its head into the next slot of the avail ring; otherwise nothing changes |
| Virtio.VirtioDisk.DeviceTake | xv6-riscv/src/kernel/virtio_disk.c:267-278 | a device that reads the avail ring up to its index finds the offered chains, oldest first, each once |
| Virtio.VirtioDisk.DeviceComplete | xv6-riscv/src/kernel/virtio_disk.c:239-280 | whichever taken chain the device completes, the 1024 bytes from its sector on become the buffer's, or the buffer's become them, and no other byte changes; or it reports any error status |
| Virtio.VirtioDisk.IntrOne | xv6-riscv/src/kernel/virtio_disk.c:311-324 | the oldest completion releases its own buffer, which was busy, and no other; the panic exactly when the device reported an error |
| Virtio.VirtioDisk.Intr | xv6-riscv/src/kernel/virtio_disk.c:294-327 | acknowledges exactly the completed requests, if and only if none of them reports an error |
| Virtio.VirtioDisk.Finish | xv6-riscv/src/kernel/virtio_disk.c:282-292 | returns exactly the triple of the request; free descriptors and three for each request make NUM |
| Virtio.VirtioDisk.WriteThenRead | xv6-riscv/src/kernel/virtio_disk.c:215-327 | a block written and then read through the driver, the rings and the device is what was written, and every other block is as before |
| Pipe.Counters | xv6-riscv/src/kernel/pipe.c:77-130 | counters modulo 2^32 tell an empty and a full ring apart and name the slot |
| Pipe.Pipe.Fifo | xv6-riscv/src/kernel/pipe.c:77-130 | between any two lock-held stretches the consumed bytes are a prefix of the accepted ones and at most PIPESIZE behind |
| Pipe.Pipe.PipeWrite | xv6-riscv/src/kernel/pipe.c:76-103 | accepts exactly the source bytes in order up to where it sleeps on a full ring, fails or returns; leaves a sleeping reader beside bytes if and only if it fails after accepting some, which is when the kill is seen behind a byte that could be read and had room |
| Pipe.Pipe.PipeRead | xv6-riscv/src/kernel/pipe.c:105-130 | delivers the next bytes in order; consumes one more, which is lost, if and only if fewer bytes can be copied out than are asked for and in the pipe; sleeps exactly on an empty open pipe; wakes writers, who sleep only on a full open ring |
| Pipe.Pipe.PipeClose | xv6-riscv/src/kernel/pipe.c:58-74 | closes one end, wakes whoever waits for it, and frees the pipe with the second |
| Pipe.StrandReader | xv6-riscv/src/kernel/pipe.c:83-87 | a reader sleeps on beside the byte of a writer that was killed |
| Pipe.LoseByte | xv6-riscv/src/kernel/pipe.c:120-126 | a byte written and read into memory that cannot be written is consumed and nobody has it |
| Net.OnesSumResidue | xv6-riscv/src/kernel/sys/net.c:161-164 | folding to 16 bits is the residue modulo 65535 |
| Net.TwoFolds | xv6-riscv/src/kernel/sys/net.c:178-180 | two folds give the full ones' complement sum if and only if the second leaves no carry |
| Net.ChksumExact | xv6-riscv/src/kernel/sys/net.c:167-181 | two folds are right for every input of a length if and only if the length is at most 131076 |
| Net.SumVerifies | xv6-riscv/src/kernel/sys/net.c:167-181 | a sum with its checksum added folds to 0xffff |
| Net.WireOrder | xv6-riscv/src/kernel/sys/net.c:167-181 | a receiver that sums in network order accepts exactly what the little-endian sum accepts |
| Net.Chksum | xv6-riscv/src/kernel/sys/net.c:167-181 | the loop computes the checksum of the bytes, odd lengths included |
| Net.UdpChecksum | xv6-riscv/src/kernel/sys/net.c:115-165 | for every input, the ones' complement checksum of pseudo-header, header and payload |
| Net.BuildUdp | xv6-riscv/src/kernel/sys/udp.c:20-30 | the specified header, with its checksum |
| Net.BuildIp4 | xv6-riscv/src/kernel/sys/ip4.c:74-88 | the specified header, with its checksum |
| Net.Ip4Wire | xv6-riscv/src/kernel/sys/ip4.c:74-88 | the bytes of the built IPv4 header, all in network order |
| Net.UdpWire | xv6-riscv/src/kernel/sys/udp.c:20-30 | the bytes of the built UDP header: source port and length in network order, the destination port in the machine's |
| Net.Swap32Shuffles | xv6-riscv/src/kernel/sys/net.h:76-90 | swapping halves and their bytes is htonl's shuffle of four bytes |
| Net.ParseIp4Reads | xv6-riscv/src/kernel/sys/ip4.c:35-71 | accepts exactly when the header length is at least 20 and within len and the total length is within len; fields are the big-endian ones, the payload what follows the header; payload_len is its length up to 1500 bytes and payload bytes beyond |
| Net.ParseUdpReads | xv6-riscv/src/kernel/sys/udp.c:228-245 | accepts exactly when len and the length field are at least 8 and the field is within len; fields are the big-endian ones; the payload is stored, and behind it the memory is as before but for the length's four bytes, so that the length is right up to 1500 bytes and payload bytes from 1504 on |
| Net.Ip4Verifies | xv6-riscv/src/kernel/sys/ip4.c:74-88 | the built IPv4 header folds to 0xffff |
| Net.UdpVerifies | xv6-riscv/src/kernel/sys/udp.c:20-30 | the built datagram with its pseudo-header folds to 0xffff |
| Net.Ip4RoundTrip | xv6-riscv/src/kernel/sys/ip4.c:35-88 | parsing a built packet gives back addresses, protocol, length and body, and the body's length up to 1500 bytes |
| Net.UdpRoundTrip | xv6-riscv/src/kernel/sys/udp.c:228-245 | parsing a built datagram gives back the payload, the source port and the swapped destination port |
| Net.DatagramRoundTrip | xv6-riscv/src/kernel/sys/udp.c:134-173 | for payloads up to 1492 bytes, both parsers accept what udp_sendto lays out and give back addresses, ports and payload |
| Net.DatagramExact | xv6-riscv/src/kernel/sys/ip4.c:67-68 | a payload length is delivered for every payload, port, address and page contents if and only if it is at most 1492 |
| Net.LongDatagramLost | xv6-riscv/src/kernel/sys/ip4.c:67-68 | a payload of 1493 to 1500 zeros is rejected by the receiver |
| Net.DatagramVerifies | xv6-riscv/src/kernel/sys/udp.c:134-173 | summed in network order from the bytes of the packet, the IPv4 header folds to 0xffff, and so do the addresses, the protocol 17, the length and the datagram |
| Shell.RoundTrip | xv6-riscv/src/user/sh.c:328-447 | printing any command tree of plain words with fewer than MAXARGS arguments and parsing it gives the tree back |
| Shell.ParsedExactly | xv6-riscv/src/user/sh.c:328-447 | the parser yields a tree for some text if and only if the tree is printable, and then also for its printing |
| Shell.SpelledOut | xv6-riscv/src/user/sh.c:328-447 | for all words: the trees of argument lists, of sequences and pipelines, which nest to the right, of a background command and of a parenthesised one |
| Shell.RedirsSpelledOut | xv6-riscv/src/user/sh.c:375-398 | for all words: redirections nest in the order written, the last outermost, with the modes of <, > and >> |
| Shell.ArgLimit | xv6-riscv/src/user/sh.c:416-447 | a command of plain words is parsed exactly when there are at most nine; ten are the too-many-args panic |
| ShellGrammar.ParsedIffDerived | xv6-riscv/src/user/sh.c:328-447 | for every text and command, parsecmd yields the command if and only if the text's tokens are a line for it in a grammar stated without a cursor; everything else is a panic |
| ShellGrammar.FewestParentheses | xv6-riscv/src/user/sh.c:400-414 | no text that parses to a command has fewer parentheses than the command's printing |
| ShellGrammar.LineSound | xv6-riscv/src/user/sh.c:345-360 | the tokens parseline takes are a line for the command it returns |
| ShellGrammar.LineComplete | xv6-riscv/src/user/sh.c:345-360 | a line before a closing parenthesis or the end is taken whole, as that command |
| ShellGrammar.SimpleComplete | xv6-riscv/src/user/sh.c:416-447 | words and redirections in any order are taken up to the closing token, fewer than MAXARGS words |
| Shell.TokenSpelled | xv6-riscv/src/user/sh.c:266-309 | the token is the longest one at the front of the text, between blanks |
| Shell.WordsAre | xv6-riscv/src/user/sh.c:262-264 | words are made of what is neither a blank nor a symbol of the shell |
| Shell.LineRoundTrip | xv6-riscv/src/user/sh.c:345-360 | a printed line before a closing parenthesis or the end parses to itself |
| Shell.PipeRoundTrip | xv6-riscv/src/user/sh.c:362-373 | the same for pipelines |
| Shell.BlockRoundTrip | xv6-riscv/src/user/sh.c:400-414 | the same for parenthesised lines with redirections |
| Shell.ExecRoundTrip | xv6-riscv/src/user/sh.c:416-447 | the same for words with redirections |
| Shell.NextToken | xv6-riscv/src/user/sh.c:266-309 | the cursor code agrees with the token grammar |
| Shell.Sees | xv6-riscv/src/user/sh.c:311-321 | peek skips blanks and reports the next character |
| Shell.ReadRedirs | xv6-riscv/src/user/sh.c:375-398 | the loop agrees with the grammar, its panic included |
| Shell.ReadArgs | xv6-riscv/src/user/sh.c:427-446 | the argument loop agrees with the grammar, its panics included |
| Shell.ReadExec | xv6-riscv/src/user/sh.c:416-447 | terminates and agrees with the grammar |
| Shell.ReadBlock | xv6-riscv/src/user/sh.c:400-414 | terminates and agrees with the grammar |
| Shell.ReadPipe | xv6-riscv/src/user/sh.c:362-373 | terminates and agrees with the grammar |
| Shell.ReadLine | xv6-riscv/src/user/sh.c:345-360 | terminates and agrees with the grammar |
| Shell.ReadCmd | xv6-riscv/src/user/sh.c:328-343 | terminates on every text with the grammar's tree or panic |
| Grep.Match | xv6-riscv/src/user/grep.c:71-81 | true exactly when some part of the text, anchored by ^ and a final $, divides into one piece for each item of the pattern |
| Grep.FindsPlain | xv6-riscv/src/user/grep.c:71-95 | the pattern ab matches exactly the texts with an a before a b |
| Grep.FindsAnchored | xv6-riscv/src/user/grep.c:71-105 | the pattern ^a.*b$ matches exactly the texts of two characters or more that start with a and end with b |
| Grep.MatchHere | xv6-riscv/src/user/grep.c:84-95 | true exactly when a prefix of the text is in the language, with a leading * and a non-final $ taken literally |
| Grep.MatchStar | xv6-riscv/src/user/grep.c:98-105 | true exactly when some number of repeated characters leaves a text that matches the rest |

## Left out

- Accessed and dirty bits, the bits above 53 of a page-table entry and the upper half of the address space: the hardware's, and unused by the kernel's user tables.
- Device registers, interrupt controllers, trap entry, assembly and context switches: hardware. Spinlock regions are atomic steps.
- The thread extension (create_thread, join_thread, uvmshare and the threaded uvmalloc and uvmdealloc): it changes other processes' page tables outside the lock discipline.
- Directories, path names, exec, system call arguments, inode allocation and reference counts: they would add easy members over the layers modelled.
- The contents of inode blocks: an inode is a value, and iupdate only logs its block.
- TCP, DHCP, ARP, sockets and the network device's loops: unfinished or polling code.
- Ethernet frames: payload_len of struct eth_frame is eight bits wide, so that a received IPv4 packet is passed on with its length modulo 256; the receive results are about the IPv4 bytes.
- nulterminate: words are values, so the NULs it writes into the shell's buffer are not modelled; neither is the sharing of the exec node under its redirections.
- grep's line buffering and the command interpreter runcmd: input and output.
- Wakeups of processes waiting for disk descriptors: Virtio.VirtioDisk.Start says when one has to wait.
- Substituting 0xffff for a zero UDP checksum: the code does not do it.
- Vm.Memory.Kalloc: the reference counters are a map by page number, because the array's stores land outside it (CounterOutside); that the store changes no other memory is thus an assumption, here and in Kfree and all that call them.
- Vm.Memory.Kfree: as Kalloc.
- Vm.Memory.MapPages: requires a permission with a read, write or execute bit, as every caller passes; without one walk would take the leaf for a table.
- Vm.Memory.UvmUnmap: requires, when freeing, that the mapped pages are allocated RAM and that no page is mapped twice in the range; kfree's panic for other addresses is stated by Kfree.
- Vm.Memory.UvmDealloc: as UvmUnmap.
- Vm.Memory.UvmFree: as UvmUnmap.
- Fs.FileSystem.Writei: bytes of a failed copy are in the cached buffer but not logged, so that eviction of the buffer may undo them; the model shows them until then.
- Bcache.Cache.Unlock: requires that a modified buffer was written or pinned, as bio.c's interface asks of its callers (xv6-riscv/src/kernel/bio.c:8-14) and log_write does; otherwise eviction would lose it.
- Bcache.Cache.Brelse: as Unlock.
- Bcache.Cache.Bunpin: requires the same before the last pin goes, as install_trans does.
- Umalloc.Allocator.Malloc: after broken nothing is said, and other callers of sbrk between two calls are not modelled.
- Umalloc.Allocator.MoreCore: after broken nothing is said.
- Net.BuildUdp: requires a payload that fits the frame's array of 1500 bytes.
- Virtio.VirtioDisk.Intr: completions that arrive while the handler runs are steps between two turns of IntrOne.
