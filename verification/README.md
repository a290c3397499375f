# A verified model of the xv6 kernel's core and its shell parser

This Dafny 4.11 project models the parts of the xv6 kernel in `src/` whose correctness rests on a protocol or on a data
structure with an invariant: the redo log with group commit, the buffer cache, the block allocator and the file contents
built on it, mkfs, the K&R heap, page tables and frames, the process table, sleep locks, the lottery scheduler, the
pipe, and the parser of the shell.  `dafny verify dfyconfig.toml` checks all of it.

What is proved, in short:

* A crash at any point of a commit, followed by any number of crashes during recovery, leaves either all logged blocks
  new or all old; in every interleaving of operations the recovered disk is that of a whole number of commit groups.
* The two layers together: with the file system laid out on the blocks of the log's disk, and the steps of any number of
  writes, reads and truncations interleaved, recovery from a crash at any point brings back the files as a restart finds
  them after a first part of the operations that finished, each of them whole, in the order in which they finished; when
  nothing is under way, after all of them.  Every block is then owned exactly if these operations have lost none, and
  from files without holes none is ever lost.
* Cache plus disk are a plain array of blocks for any number of concurrent users.
* Files are byte sequences.  What a series of writes, reads, truncations, evictions from the inode cache and restarts
  does, from any image mkfs builds, is a function of the files and the operations: the files afterwards, whether the
  disk gets too full, and how many blocks are lost.  The bitmap marks exactly the metadata, the blocks some inode refers
  to, each once, and the lost ones; free, lost and referred-to blocks together stay the same number.
* Every chunk of a write fits the log's reservation for one operation.
* The heap's free list stays one address-ordered ring without adjacent free runs, units are conserved, and both search
  loops stop.
* Two-level paging is a flat map; frames are conserved through every failure; memory-allocating operations fail exactly
  when the free list is too short.
* No wakeup on a sleep lock is lost, and its users do not deadlock; every process but init always has a live parent; no
  pid is waited for twice; a killed process is not left asleep.
* The pipe delivers what was written, in order, across counter wrap-around; the lottery gives each process exactly its
  tickets (and the first one an extra one), its generator goes through all of its values, and within its period each
  process is picked in proportion to its tickets, up to one round for each.
* The shell's parser is its grammar: a line is parsed, to a tree that says a command, exactly if the grammar says that
  the line means this command; so no line means two, and every command can be written.

Concurrent protocols are state machines: a `Label` names a step, `Enabled` says when it can be taken, `Next` what it
does, and `Reaches` relates the ends of a run, so that the theorems range over every run; other theorems say which steps
are possible in the states that runs reach.  Code that updates things in place is a class or a method with loops, proved
against the functions that the theorems are about.

Files, by component: `Log`, `GroupCommit`, `LogDevice` (src/log.c); `BufferCache`, `BufferRing` (src/bio.c); `Bitmap`,
`FileSystem`, `FileOps`, `FsRun`, `FsActs`, `FsLaws` (src/fs.c); `Layout`, `CrashFs`, `CrashRuns` (src/fs.h, src/fs.c on
src/log.c); `FileWrite` (src/file.c); `Mkfs` (src/mkfs.c); `Directory` (src/fs.c on an image of src/mkfs.c); `Heap`
(src/ulib.c, with sbrk of src/sysproc.c); `Paging`, `Vm` (src/vm.c, src/kalloc.c); `Growproc` (src/proc.c on src/vm.c);
`ProcTable`, `ExitWait`, `Lottery`, `Generator` (src/proc.c); `SleepLock` (src/sleeplock.c, src/proc.c); `Pipe`
(src/pipe.c); `Shell`, `ShellSyntax` (src/sh.c); `Blocks` and `Seqs` hold what several share.

Where the code does not do what one would expect of it, the model follows the code:

* `GroupCommit.TooBigATransaction`, `GroupCommit.LoggedAgain`: both guards of the "too big a transaction" panic can be
  met by operations that keep to their reservation.  `GroupCommit.LogReserved` says exactly when.
* A read of a hole, or a write into one that does not make the file larger, gives memory's inode an address that the
  disk's copy lacks; when memory forgets it the block is lost, marked but in no file.  `FsLaws.RootEntryLost`: this
  happens to a root directory whose 32 entries fill one block, when a name is looked up beyond them or an entry added.
  `CrashRuns.LostOnDisk`: and it is so on the recovered disk, after a commit.  `FsLaws.LosesExactly`: mkfs makes an
  image on which operations can lose blocks exactly when the directory entries fill whole
  blocks.  `FileOps.FsDisk.Readi` and `FileOps.FsDisk.Writei` have the condition for one call.
* `FileWrite.Fileread`: reading a hole allocates and logs its blocks, and so panics when no call is in an operation.
* `Heap.MallocFaults`: sbrk takes an int; asked for 2^31 bytes or more it grants none but reports success, and malloc
  stores a header outside the memory of the process.  `Sbrk.SbrkExact` and `Heap.Arena.Malloc` say exactly when, and
  `Heap.RoomForBytes` up to which size malloc does what it is for.
* `Lottery.Exact`: the draw is from 0 to the number of tickets, both included, so that the first RUNNABLE process has
  one chance more than tickets.  `Lottery.Reachable`: tickets beyond the range of the generator never win.
* `Sbrk.SbrkShrinks`: giving back all of the memory frees it but reports a failure, and giving back more than all of it
  does nothing but reports success.
* `>` and `>>` make the same tree (src/sh.c:388-393).

## Model

| member | source | states |
|---|---|---|
| LogPlan.RecoverHome | src/log.c:68-122 | a completed recovery writes each listed home block from its log block and no other home block |
| LogPlan.RecoveryRestarts | src/log.c:115-122 | a recovery cut off after any number of its writes leaves a disk that recovers to the same home blocks |
| LogPlan.CrashAtomic | src/log.c:68-122 | cutting commit off after any number of disk writes and recovering gives all logged blocks new if the header write was done and all old otherwise; blocks not logged never change |
| LogPlan.CrashAtomicRepeated | src/log.c:176-202 | the same when any number of recoveries are themselves cut off at arbitrary points before one completes |
| LogDevice.Log.WriteLog | src/log.c:176-190 | the log blocks get the cached data of the listed blocks, one disk write each; home blocks stay as they are |
| LogDevice.Log.WriteHead | src/log.c:98-113 | the copying loop and one disk write make the header block of the list, which PutThenRead shows to read back; home blocks stay as they are in the cache |
| LogDevice.Log.ReadHead | src/log.c:84-96 | the list in memory becomes the one the disk's header holds |
| LogDevice.Log.InstallTrans | src/log.c:68-82 | disk states are exactly those of the recovery plan, and the installed blocks agree with the cache |
| LogDevice.Log.Commit | src/log.c:192-202 | the trace of disk states is, write for write, the commit plan whose crash points CrashAtomic ranges over, and the list is empty afterwards |
| LogDevice.Log.RecoverFromLog | src/log.c:115-122 | the trace is the recovery plan and the disk its result |
| LogDevice.Log.LogWrite | src/log.c:213-233 | the block is listed once however often it is logged, the cache has the new data, and the list stays well formed |
| LogDevice.CommitThenRecover | src/log.c:192-202 | after its header write a commit passes through the disk states of a recovery |
| LogPlan.PutThenRead | src/log.c:84-113 | the entries stored by write_head are those read_head reads |
| LogPlan.HeadWords | src/log.c:34-37 | the header block has the count in its first word and the block numbers in those after it |
| GroupCommit.Step | src/log.c:124-233 | every step of begin_op, log_write, end_op, the commit's and recovery's disk writes, and a crash keeps the invariant on storage, operation fates and reservations |
| GroupCommit.WholeGroups | src/log.c:124-174 | in every state of every run, what a recovery would give is the starting disk with the writes of whole commit groups applied in order, and no operation's writes are in two groups, or in a group and elsewhere |
| GroupCommit.NoWriteDuringCommit | src/log.c:145-174 | while a commit is under way no log_write and no end_op can happen |
| GroupCommit.LogReserved | src/log.c:124-141 | in every reachable state listed blocks plus unspent reservations fit LOGSIZE and the list fits the log area; a log_write within the reservation panics exactly if the log area is full, or LOGSIZE blocks are listed, and then every operation has used up its reservation and the block is one it has logged before |
| GroupCommit.BeginAdmits | src/log.c:126-142 | in every reachable state with no commit and no recovery under way, begin_op waits exactly if the listed blocks, with MAXOPBLOCKS more for each running operation and for the newcomer, exceed LOGSIZE; never if no operation runs |
| GroupCommit.NeverStuck | src/log.c:144-202 | in every reachable state a running operation can end, a commit or recovery under way has exactly one next step, and a crash can come |
| GroupCommit.JoinsGroup | src/log.c:124-174 | a concrete run in which an operation begins after another has logged a block, and both are in the one group that is committed |
| GroupCommit.WritesConserved | src/log.c:124-233 | in every run each log_write is in a committed group, waits for the next commit, or was lost in a crash |
| GroupCommit.TooBigATransaction | src/log.c:218-219 | a concrete run on mkfs's geometry reaches the log-area guard with an operation that has logged fewer blocks than it may |
| GroupCommit.LoggedAgain | src/log.c:218-230 | a concrete run on a disk with a larger log reaches the LOGSIZE guard with a block that is listed already |
| GroupCommit.GroupsPrefix | src/log.c:192-202 | the groups at any point of a run are the first of those at its end, whatever crashes come between |
| GroupCommit.Durability | src/log.c:143-174 | in every run, when no operation runs and no commit is under way, cache and recovered disk agree, and every operation with writes is in a group or was lost in a crash |
| BufferCache.Step | src/bio.c:58-141 | every step of bget, bread, log_write, bwrite and brelse by any call keeps the cache invariant |
| BufferCache.IdentityHeld | src/bio.c:58-93 | through any run a buffer keeps its device and block number as long as a call holds a reference to it |
| BufferCache.IdentityPinned | src/bio.c:78-91 | and as long as it is dirty, until a bwrite |
| BufferCache.MissBlocks | src/bio.c:78-91 | recycling a buffer loses nothing: the disk already has what the old copy showed |
| BufferCache.FillBlocks | src/bio.c:95-106 | the read of bread gives what the users of the block last wrote |
| BufferCache.Coherent | src/bio.c:38-141 | in every run no two buffers hold the same block of a device other than 0, and cache and disk are the plain array to which all changes were applied in order |
| BufferCache.CallGoesOn | src/bio.c:58-141 | in every reachable state a call of bread gets a buffer if one has the block or can be recycled, waits after that only for a call that has the buffer's lock, and can then read, change, log, write and release |
| BufferCache.WrittenClean | src/bio.c:110-141 | after bwrite the disk has what the users see of the block, and the buffer is clean and can be released |
| BufferRing.Bcache.constructor | src/bio.c:38-56 | binit links all buffers into one ring, the last one first |
| BufferRing.Bcache.Find | src/bio.c:68-76 | the forward scan finds a buffer that has the block if any buffer has it |
| BufferRing.Bcache.FindFree | src/bio.c:78-91 | the backward scan finds the least recently used buffer that is unreferenced and clean, if any is |
| BufferRing.Bcache.Bget | src/bio.c:58-93 | the result is a hit or miss step of the cache; -1 exactly when no buffer has the device and block number and every buffer is referred to or dirty |
| BufferRing.Bcache.Drop | src/bio.c:128-140 | the reference is dropped, a buffer nobody uses moves to the front, and the ring still has every buffer once |
| RingLinks.Unlink | src/bio.c:132-133 | the two pointer stores take one element out of the ring |
| RingLinks.PushFront | src/bio.c:134-137 | the four pointer stores put one in after the head |
| Blocks.PutWord | src/fs.c:389-393 | a stored 32-bit word has its low byte first and reads back, and no other word of the block changes |
| Bitmap.Mark | src/fs.c:66-69 | exactly one bit of the bitmap becomes set |
| Bitmap.Unmark | src/fs.c:88-92 | exactly one bit becomes clear |
| Bitmap.FindFree | src/fs.c:62-77 | the first clear bit below the size, or -1 when all are set |
| FsModel.AddSlot | src/fs.c:378-388 | a new direct or indirect block keeps block ownership and every byte of every file |
| FsModel.AddEntry | src/fs.c:389-394 | so does a new entry of the indirect block |
| FsModel.WriteBytes | src/fs.c:499-503 | rewriting one file block changes that block of that file and nothing else |
| FsModel.BlocksTaken | src/fs.c:55-95 | the free blocks are fewer by just the references an inode has gained |
| FsModel.StaleInode | src/fs.c:378-400 | a disk whose copy of an inode lacks addresses of the one in memory has block ownership, for any owners, exactly if it lacks none |
| FsModel.ForgetBytes | src/fs.c:288-313 | when an inode is read again from a disk that lacks addresses, the file has zeros in place of just the blocks behind these, and the other files stay |
| FsModel.ForgetLost | src/fs.c:288-313 | the lost blocks then are more by just the references that are gone |
| FsModel.LostUnique | src/fs.c:55-95 | which blocks are lost does not depend on how the owners are named |
| FileOps.FsDisk.Balloc | src/fs.c:55-78 | the lowest free block, marked, zeroed and logged with its bitmap block; -1 exactly when every bit is set |
| FileOps.FsDisk.Bfree | src/fs.c:80-95 | the bit is cleared; the panic's condition is a precondition that every caller is proved to meet |
| FileOps.FsDisk.Iupdate | src/fs.c:216-236 | the disk's copy becomes the one in memory |
| FileOps.FsDisk.Bmap | src/fs.c:370-400 | the block of bn, allocated only if missing, with the indirect block; no other reference, and no byte, changes; ownership is kept; what it logs |
| FileOps.FsDisk.Readi | src/fs.c:449-476 | the bytes of the file from the offset on, n of them or all up to its end; -1 exactly for an offset beyond the size or a sum that wraps; out of blocks exactly if fewer are free than the range misses; nothing changes if it misses none; every changed block was logged, and how many are; block ownership holds on a disk that was up to date exactly if the addrs already had all that the range needs |
| FileOps.FsDisk.WriteBlocks | src/fs.c:498-504 | the loop puts the source bytes at the offset, byte for byte, takes exactly the missing blocks, fails exactly if too few are free, and logs at most the stated number of blocks |
| FileOps.FsDisk.Writei | src/fs.c:478-511 | contents become c[..off] + src + c[off+n..], other files and their inodes stay; -1 exactly outside the limits, out of blocks exactly if fewer are free than are missing; every changed block was logged, and how many are; the disk's inode is stored exactly if the file grew; where it was up to date it still is, and block ownership holds on the disk, exactly if the file grew or its addrs already had all that the write needs |
| FileOps.FsDisk.Itrunc | src/fs.c:402-435 | the file becomes empty, exactly its blocks become free, no other file changes, no free block is freed; every changed block was logged, and only the inode's and bitmap blocks are |
| FsRun.Step | src/fs.c:402-511 | one step of the code (a round of the loop of writei or readi, the update of the inode, a truncation, an eviction), on a disk and a memory that hold these files, whatever was lost before, does to them what the step does to the values; it is stopped exactly if no block is left; and how much it logs |
| FsRun.WriteOp | src/fs.c:478-511 | a whole writei, on an inode that may already be ahead of the disk, likewise |
| FsRun.ReadOp | src/fs.c:449-476 | a whole readi, likewise, with the bytes it returns: those from the offset on, n of them or all up to the end of the file |
| FsRun.OwnedExactly | src/fs.c:288-313 | the disk has block ownership exactly if a restart now would have nothing lost |
| FsRun.Run | src/fs.c:402-511 | so does any series of writes, reads, truncations, evictions and restarts, up to the first that finds too few free blocks, which is told beforehand |
| FsRun.RunFromImage | src/mkfs.c:66-168 | from the image mkfs makes of any files, what comes of any operations is a function of these files and operations: whether blocks run out, the files, and whether the disk has block ownership |
| FsActs.ActsMake | src/fs.c:402-511 | the rounds of an operation's loop together do what the operation does, and run out of blocks exactly if it does |
| FsLaws.RestartExactly | src/fs.c:288-313 | a restart finds nothing lost exactly if nothing was and the disk has every inode up to date, and then it changes nothing |
| FsLaws.NeverLost | src/fs.c:402-511 | no series of operations and restarts loses a block, or a byte, of files without holes |
| FsLaws.Conserved | src/fs.c:55-95 | through any series of operations and restarts, free, lost and referred-to blocks together stay the same number |
| FsLaws.LosesExactly | src/mkfs.c:158-163 | on an image of mkfs some series of operations loses blocks exactly when the directory entries fill whole blocks |
| FsLaws.RootEntryLost | src/fs.c:525-576 | with any thirty files, reading or writing an entry at 512 of the root directory, as dirlookup and dirlink do, leaves a disk without block ownership |
| DiskLayout.InodeStored | src/fs.c:216-236 | the inode that iupdate stores reads back, and the other seven of its block are as they were |
| DiskLayout.InodeFields | src/fs.h:28-36 | the places of its fields: four half-words, the size, the addresses |
| DiskLayout.LoggedLayout | src/fs.h:20-57 | an operation that logs every block it changes is made on the laid-out disk by writing only logged blocks |
| CrashFs.Step | src/log.c:124-233 | every step of the log, every round of every file operation in any interleaving under the inode locks, every eviction and every crash keeps the files of the committed groups and of the cache |
| CrashFs.SerialLast | src/fs.c:402-511 | an operation whose rounds were interleaved with those of others has, when it finishes, done what it does when made alone after those that finished before |
| CrashRuns.LogAdmits | src/log.c:124-233 | in every reachable state a step of the log that the log allows can be taken, end_op by an operation that is not in the middle of one on a file |
| CrashRuns.StartAdmits | src/fs.c:288-313 | in every reachable state an operation of the log can begin any write, read or truncation of a file that no other is in the middle of |
| CrashRuns.EvictAdmits | src/fs.c:241-271 | and any such inode can leave the cache |
| CrashFs.CrashConsistent | src/log.c:115-122 | in every state of every run, recovery gives the files a restart finds after the committed operations, which are a first part of those that finished, each whole; the recovered disk has block ownership exactly if these have lost none |
| CrashFs.AllDurable | src/log.c:143-174 | when no operation runs and no commit is under way, it gives what a restart finds after all of them |
| CrashFs.SoundRecovers | src/log.c:115-122 | from files without holes, recovery in every state of every run gives just the files after the committed operations, with every block owned |
| CrashFs.Operate | src/fs.c:402-511 | a round by the code, in an operation that stays within MAXOPBLOCKS and finds room in the log area, is such a step of the system, whether or not it loses blocks, made by no more log_writes than stated |
| CrashFs.MkfsDisk | src/mkfs.c:66-168 | mkfs makes such a disk to start from, with an empty log, together with the disk the code works on |
| CrashRuns.LostOnDisk | src/fs.c:449-511 | mkfs of any thirty files, begin_op, a read or write of the root directory's hole by the code, end_op and the commit are a run, after which the recovered disk has no block ownership |
| CrashRuns.FilewriteCrash | src/file.c:117-156 | a crash during a filewrite, on files without holes, brings back the file with a whole number of its chunks, or all of it, and every block owned |
| FileWrite.Fileread | src/file.c:96-113 | the bytes from the offset on, n of them or all up to the end, by which the offset advances; -1 exactly if not readable or out of range; for a hole, exactly when log_write finds no operation and when no block is left; block ownership holds on a disk that was up to date exactly if the addrs already had all that the range needs |
| FileWrite.ChunkFits | src/file.c:126-132 | a chunk of the size filewrite uses logs at most MAXOPBLOCKS blocks, wherever it starts and however scattered the bitmap bits |
| FileWrite.WriteChunk | src/file.c:138-144 | one transaction writes the chunk or, outside the limits, nothing; it is out of blocks exactly if fewer are free than the chunk misses, takes just these, and logs at most MAXOPBLOCKS blocks |
| FileWrite.Filewrite | src/file.c:117-156 | the result is n exactly if the whole write fits; otherwise exactly the chunks that fit are written; out of blocks exactly if fewer are free than these chunks miss; the offset advances by what was written; every transaction fits; other files stay |
| Mkfs.Balloc | src/mkfs.c:237-253 | the bitmap block has exactly the first `used` bits set |
| Mkfs.Image.Iappend | src/mkfs.c:255-297 | the bytes are appended, the other files stay, the file has exactly the blocks its size takes, and it fails exactly when the file or the image gets too large |
| Mkfs.Image.Ialloc | src/mkfs.c:223-235 | a fresh, empty file; the others stay |
| Mkfs.Rounded | src/mkfs.c:158-163 | rounding up the root directory's size adds zero bytes and makes a hole exactly when the size was a multiple of BSIZE |
| Mkfs.Build | src/mkfs.c:66-168 | every inode is as told from the names and files: the root directory, padded with zeros, each file, and nothing else, each with just the blocks its bytes take; the image has block ownership and the number of free blocks that is left; it is built exactly if files and image are not too large |
| Directory.Namecmp | src/fs.c:516-520 | the loop of strncmp tells whether two names agree up to their end or in all of DIRSIZ characters |
| Directory.Dirlookup | src/fs.c:525-548 | the first entry in use that has the name, with its inode; when there is none, and when it panics |
| Directory.RootMatches | src/mkfs.c:121-156 | the entries of an image's root directory that have a name are those made for it, each with the inode it was made for |
| Directory.FindFile | src/mkfs.c:129-156 | a file is found under its name without the leading underscore, with its inode, exactly if no entry before it has that name |
| HeapRuns.FreePartition | src/ulib.c:136-156 | putting back a run in use, merged or not, keeps order, disjointness, no adjacent free runs, and free plus used units equal to those obtained |
| HeapRuns.TakePartition | src/ulib.c:190-199 | so does taking a run or the tail of one |
| HeapRuns.GrowPartition | src/ulib.c:158-173 | so does new memory, counted as in use until it is freed |
| HeapRuns.FreeHolds | src/ulib.c:145-156 | the stores of free link exactly that list, from the new freep |
| HeapRuns.TakeHolds | src/ulib.c:190-199 | and so do those of malloc |
| Heap.Arena.Search | src/ulib.c:142-144 | from any freep the loop stops at the free run after which the freed one belongs |
| Heap.Arena.Coalesce | src/ulib.c:145-154 | the header stores are those of the ring with the run inserted and merged on both sides |
| Heap.Arena.Free | src/ulib.c:136-156 | the list stays one ordered ring without adjacent runs, free and live runs stay disjoint, and units are conserved |
| Sbrk.SbrkExact | src/proc.c:160-177 | a request of some bytes gains these, or fails without effect, exactly if they are fewer than 2^31; otherwise it gains none, and when it loses some |
| Sbrk.SbrkShrinks | src/proc.c:160-177 | the exact size after a request to give back memory, and what it reports |
| Growproc.Growproc | src/proc.c:160-177 | growproc on the page tables has just these sizes and results; the pages of the process end where they say, new ones are zeroed and the process can use and write them, the others stay |
| Heap.Arena.MoreCore | src/ulib.c:158-173 | memory that sbrk grants, and just that, joins the list, and then some run is large enough, merged or not; a header is stored outside the memory of the process exactly if 2^31 bytes or more were asked for and sbrk did not fail |
| Heap.Arena.FindRun | src/ulib.c:186-201 | the loop stops with the first run after freep that fits, asking for memory at most once and exactly if no free run fits, or with morecore's failure |
| Heap.Arena.Malloc | src/ulib.c:175-202 | a run of the right size is cut off the end of the first free run after freep that fits, or of new memory, of which 4096 units at least are got; null exactly if memory was needed and refused; all units are memory of the process and accounted for exactly if none was needed or fewer than 2^31 bytes were asked for |
| Heap.RoomForBytes | src/ulib.c:181 | the run has room for the bytes, and no unit too many, exactly when the rounding does not wrap, and morecore can serve them as well exactly up to 0x7FFFFFF0 bytes |
| Heap.MallocFaults | src/sysproc.c:48-60 | in a new process of any size malloc(0x7FFFFFF1) stores outside its memory |
| Paging.SetMaps | src/vm.c:69-73 | storing one page-table entry changes one page of one directory's map, and no other lookup of any directory |
| Paging.AllowsExact | src/vm.c:48-52 | the permissions that both levels grant for a page are those of its page-table entry |
| Paging.AddTable | src/vm.c:45-52 | a new page table changes no lookup and keeps every frame with one owner |
| Paging.MapUser | src/vm.c:60-80 | mapping a user page adds that page and gives it its frame |
| Paging.Unmap | src/vm.c:269-276 | clearing it removes that page and frees its frame |
| Vm.Machine.Freerange | src/kalloc.c:46-53 | exactly the frames wholly inside the range become free |
| Vm.Machine.Kalloc | src/kalloc.c:79-95 | a free frame leaves the list; -1 exactly when none is free |
| Vm.Machine.Kfree | src/kalloc.c:54-77 | the frame is filled with junk and on the list; no map changes |
| Vm.Machine.Walk | src/vm.c:32-55 | the maps of all directories stay, with or without alloc; at most one free frame becomes a table; -1 exactly if the table is missing and not wanted or not to be had |
| Vm.Machine.Mappages | src/vm.c:57-80 | exactly the range is added to the map, or a prefix on failure, which happens exactly when there are too few frames for the missing page tables |
| Vm.Machine.Deallocuvm | src/vm.c:251-279 | it terminates, jumps included, and removes and frees exactly the user pages from PGROUNDUP(newsz) up to oldsz |
| Vm.Machine.Freevm | src/vm.c:281-298 | everything of the directory becomes free and nothing else changes hands |
| Vm.Machine.Allocuvm | src/vm.c:219-249 | zeroed pages in fresh frames for exactly the new range; on failure the old map, all data and all but page-table frames are back; it fails exactly when pages and missing tables outnumber the free frames |
| Vm.Machine.Setupkvm | src/vm.c:117-136 | a new directory mapping what kmap says; on failure every frame is back; the exact number of frames it needs |
| Vm.Machine.Copyuvm | src/vm.c:313-345 | every page below sz is copied, bytes and flags, to a frame of its own; on failure every frame is back; the exact number of frames it needs |
| Vm.KmapFits | src/vm.c:103-115 | the rows of kmap lie in the kernel's half without a page in common exactly if the kernel's data begin on a page of their own |
| Vm.KmapSays | src/vm.c:103-115 | what kmap says, page by page: physical memory from KERNBASE on, the devices where they are, nothing else; all writable but the kernel's text |
| Vm.KernelApart | src/vm.c:117-136 | with these mappings a process can use no page of the kernel's half, and the kernel can write just those that are not its text |
| Vm.FramesApart | src/vm.c:60-80 | no frame is shared between two user pages, or between a user page and a table, a directory or the free list |
| ProcTable.Table.AllocProc | src/proc.c:80-94 | the first UNUSED slot becomes an EMBRYO with the next pid and one ticket, its other fields and all other slots stay; -1 exactly when there is none |
| ProcTable.Table.Wakeup1 | src/proc.c:472-483 | exactly the processes sleeping on the channel become RUNNABLE |
| ProcTable.Table.PassChildren | src/proc.c:258-265 | field by field: all children go to init, which is woken exactly if one of them is a zombie, and nothing else changes |
| ProcTable.Table.Exit | src/proc.c:253-268 | field by field: a zombie, its children init's, its parent woken, and init if a child is a zombie; this is the protocol's exit step |
| ProcTable.Table.WaitScan | src/proc.c:284-307 | the first zombie child is reaped, its fields cleared and its pid returned; otherwise nothing changes and havekids is right |
| ProcTable.Table.Kill | src/proc.c:494-515 | the first slot with the pid is marked and, if asleep, made RUNNABLE, its other fields and the other slots stay; -1 exactly when there is none |
| ExitWait.Step | src/proc.c:182-318 | every step of fork, exit, wait, kill, sleep, wakeup and scheduling keeps the invariant on families, forks in progress and pids |
| ExitWait.ParentsOutlive | src/proc.c:230-318 | in every run nobody asleep in wait has a zombie child, and every process except init that is alive or a zombie has a live parent |
| ExitWait.PidsOnce | src/proc.c:275-318 | in every run no pid is returned by two waits, none returned is in the table, slots have different pids, and every pid given out is in the table, was returned, or is a failed fork's |
| ExitWait.KillLasts | src/proc.c:494-515 | through any run after a kill the process is not asleep and stays killed, until it goes to sleep in another call or its slot is given up |
| ExitWait.WaitGoesOn | src/proc.c:275-318 | a process that calls wait can go on in just one of three ways: collect a zombie child, fail, or sleep |
| ExitWait.RunningGoesOn | src/proc.c:182-318 | in every reachable state a running process can exit, fork if a slot is UNUSED, go on with a fork, sleep and yield, and a RUNNABLE one can be scheduled |
| ExitWait.ForkMakes | src/proc.c:182-224 | the child of a fork is the forker's, RUNNABLE, with the forker's tickets and a pid of its own |
| ExitWait.TicksCount | src/proc.c:361-362 | through any run ticks counts how often the process was scheduled |
| ExitWait.SleepsOn | src/proc.c:433-483 | through any run a sleeper goes on sleeping until a wakeup on its channel or a kill |
| ExitWait.WakesUp | src/proc.c:472-492 | a wakeup makes RUNNABLE just those that sleep on the channel, and changes nothing else |
| ExitWait.SleepThenWake | src/proc.c:433-492 | a process that goes to sleep is woken by the next wakeup on the channel, and not before, whatever others do, unless it is killed |
| ExitWait.YieldAndBack | src/proc.c:402-410 | after yield and the scheduler the process runs as it was, with one tick more |
| SleepLock.Step | src/sleeplock.c:22-42 | every step of acquiresleep, releasesleep, sleep, wakeup, preemption, scheduling and kill keeps the invariant |
| SleepLock.NoLostWakeup | src/proc.c:433-492 | in every run, whenever both spinlocks are free a sleeper implies the lock is held; at any time it is held or about to wake its sleepers; never do two processes hold it |
| SleepLock.NoDeadlock | src/sleeplock.c:22-42 | in every run, while a process is in acquiresleep or releasesleep and not asleep, some process can make its next step or a scheduler gives ptable.lock back |
| SleepLock.KillWakes | src/proc.c:506-508 | in every run a kill makes a sleeper on the lock RUNNABLE, so that it can be scheduled |
| SleepLock.PreemptAndBack | src/proc.c:402-410 | in every run a process that holds no spinlock can be preempted when ptable.lock is free, and comes back to where it was |
| SleepLock.HoldingExact | src/sleeplock.c:44-53 | holdingsleep answers correctly |
| Lottery.CountTickets | src/proc.c:340-345 | the sum of the tickets of the RUNNABLE processes, without overflow |
| Lottery.Choose | src/proc.c:350-371 | the one process that wins the number; -1 exactly when none is RUNNABLE |
| Lottery.Exact | src/proc.c:347-355 | as the number ranges over 0 to the count, each RUNNABLE process wins exactly its ticket count of values, the first one once more |
| Generator.NextSeed | src/proc.c:346 | the seed stays in 0 .. 134455 and the product fits an int |
| Generator.OneCycle | src/proc.c:346 | from any seed the generator comes to any other within a period, and back to itself after one |
| Lottery.Draw | src/proc.c:340-371 | one round picks the process that wins the remainder of the generator's next value, if anyone is RUNNABLE |
| Lottery.Reachable | src/proc.c:346-355 | some seed selects a process exactly if it is the first RUNNABLE one or has tickets starting within the generator's range |
| Lottery.Selected | src/proc.c:339-372 | exactly these are selected within a period from any seed, if the table stays as it is |
| Lottery.DrawnEvenly | src/proc.c:346-349 | from any seed, within a period each number from 0 to the count is drawn exactly as often as any other, or once more |
| Lottery.Shares | src/proc.c:339-372 | within a period each process is picked, for each of its winning numbers, a fixed number of times or once more, if the table stays as it is |
| Pipe.RingPosition | src/pipe.c:93-116 | a wrapped counter and the true count have the same place in the ring |
| Pipe.Ring.Write | src/pipe.c:77-98 | the accepted bytes grow by the part of the source put in; it stops early only when full, and returns -1 exactly if then closed or killed |
| Pipe.Ring.Read | src/pipe.c:100-121 | the delivered bytes grow by the oldest buffered ones, as many as there are up to n; when it blocks and when it returns -1 |
| Pipe.Interleave | src/pipe.c:78-121 | for any turns of any readers and writers, delivered then buffered bytes are the accepted ones in order, each call is accounted for byte by byte, and the counters differ by 0 to 512 modulo 2^32 |
| ShellGrammar.GetToken | src/sh.c:265-308 | the token's extent and kind, for every symbol and >>; a word is a maximal run of word characters |
| ShellTrees.LineGood | src/sh.c:344-446 | every parse has whole words only, at most nine to a command |
| ShellTrees.Nulterminate | src/sh.c:448-493 | afterwards every argument and file name reads back from the buffer as exactly its word |
| ShellParser.Gettoken | src/sh.c:265-308 | the loops compute the token function |
| ShellParser.Parseredirs | src/sh.c:374-397 | the loop computes the grammar's redirections |
| ShellParser.Parseexec | src/sh.c:415-446 | so do the argument loop and the recursive-descent methods |
| ShellParser.Parseblock | src/sh.c:399-413 | a block is a line in parentheses with redirections |
| ShellParser.Parsepipe | src/sh.c:361-372 | pipelines, to the right |
| ShellParser.Parseline | src/sh.c:344-359 | a pipeline with its &s, and lists, to the right |
| ShellParser.Parsecmd | src/sh.c:327-342 | the result is what the grammar says of the line: a tree for its one meaning, or, if it has none, a panic that leaves the buffer alone; on success every word reads back from the buffer |
| ShellSyntax.ParserExact | src/sh.c:265-446 | a line is parsed, to a tree that says a command, exactly if the grammar, with any blanks, < or > or >>, and words and redirections in any order, says that the line means this command |
| ShellSyntax.RoundTrip | src/sh.c:344-446 | every command with words that can be written, at most nine to an exec, is printed to a line that parses to it |
| ShellSyntax.NormalForm | src/sh.c:327-342 | every line that parses says a command whose printed form says the same |

## Left out

- LogDevice.Log.LogWrite: the guards of log_write (src/log.c:218-221) are read before the lock is taken; the model takes them and the rest as one step.
- GroupCommit: sleeping in begin_op is a step that is not enabled; that a waiting operation is eventually let in is not stated.
- Panics are halting outcomes (a result value, or a step that is not enabled) or preconditions; nothing is said about the machine after one.
- BufferCache: a caller that changes a buffer passes it to log_write or bwrite before brelse; the code relies on its callers for that.
- CrashFs: a round of a loop, with all of its log_writes, is one step, so that operations interleave round by round; of a block logged twice in a round only the last contents count. An inode can be evicted whenever nobody has it locked; reference counts, which prevent some of these evictions, are not modelled.
- CrashRuns.FilewriteCrash: that the committed operations end with chunks of this write, and of no other writer, is a precondition.
- FileOps.FsDisk.Readi: a device inode's transfer is done by its driver, which is not part of this model; FileOps.FsDisk.Writei likewise.
- FileWrite.Filewrite: one writer; the inode lock is released between chunks and other writers are not interleaved, and pipes and devices are left to their own code.
- Mkfs.Image.Ialloc: that mkfs does not check the number of files against the inode blocks is met by a precondition.
- Mkfs.Build: the model stops where the blocks of the image run out; mkfs itself goes on to write beyond FSSIZE and asserts only a limit of 4096.
- FileWrite.Fileread: that log_write also panics when an operation is outstanding and the log's list is full (src/log.c:218-219) is not an outcome; GroupCommit.LogReserved has that guard.
- FsRun.Step: the inode cache is a copy of every inode in memory that can be forgotten at any time; its slots and reference counts are not modelled.
- Directory.Dirlookup: works on the contents of the directory; that its reads can allocate the blocks of a hole is said by FileOps.FsDisk.Readi and FsLaws.RootEntryLost.
- Path names, changes of directories, link counts and the other system calls of src/sysfile.c.
- Growproc.Growproc: that no page beyond the size is mapped before the call is a precondition.
- Heap.Arena.Malloc: nothing is said about the heap after a header was stored outside the memory of the process, and memory ends at the break rather than at the end of its page.
- Heap.MallocFaults: a store into the rest of the page in which the break lies, which the hardware would allow, counts as outside.
- Vm.Machine.Kfree: the address checks of kfree, and the list link stored in the free page itself, are not modelled; the list is a sequence.
- Vm.Machine.Deallocuvm: requires an oldsz of at most KERNBASE, as all callers pass; Vm.Machine.Copyuvm and Vm.Machine.Allocuvm likewise.
- Vm.Machine.Mappages: that no page of the range is mapped (the "remap" panic) is a precondition, and so is the presence of the pages Vm.Machine.Copyuvm copies (its two panics).
- ProcTable.Table.AllocProc: the kernel stack and the rest of allocproc are steps of the protocol that may fail; pids do not wrap around.
- ExitWait: clone and join (src/proc.c:569-645) are not part of this model; they break the ownership the invariant rests on.
- ExitWait: fork takes any UNUSED slot and kill any slot, where the code takes the first; ProcTable.Table has the scans.
- Lottery.CountTickets: requires the ticket sum to be less than the largest int, as the scheduler adds 1 to it.
- SleepLock: one lock; fairness and termination are not stated.
- Pipe.Ring.Write: that readers are woken when a killed writer returns early is not stated; only what is delivered is.
- ShellParser.Parsecmd: nodes are values rather than memory from malloc, so that an exec node's arguments are filled in when they are complete.
- Boot, traps, drivers, the console, exec, user programs other than the shell's parser, and the projects outside `src/`.
