# Verification of the xv6 kernel and its user library

This project models the parts of xv6 for RISC-V in which most can go wrong, and proves what they promise, for every
input, every reachable state or every run. Code that updates state in place is a class whose methods are proved against
a specification function; protocols between processes, CPUs or devices are state machines over their critical sections.

- **The file system, from the log up.** `Log`, `LogCode` and `GroupCommit` are the redo log: crash atomicity of commit
  and recovery, and the reservation protocol of `begin_op`/`end_op`/`log_write`. `BufferCache` and `BioCode` are the
  buffer cache. `FsModel`, `FsWrite`, `FsTrunc`, `FsCode` and `FsTight` are the block allocator, `bmap`, `itrunc`,
  `readi`, `writei` and `filewrite`, with the exact set of blocks one transaction logs; `FsTorn` is what a copy from
  user memory that fails leaves behind. `FsCrash` joins them to the log: power may fail at any disk write of
  `filewrite`. `Dir` and `DirCode` are directories and path lookup. `DiskFormat` says where on disk all of this is, byte
  by byte.
- **Virtual memory.** `VmModel`, `VmSteps`, `VmSpec`, `VmFree`, `VmUser` and `VmCode` are physical pages and three-level
  page tables, from `kalloc` to `copyinstr`. `Sv39` is the hardware's side of them (section 4.4 of the RISC-V Privileged
  Architecture manual 20211203). `ExecModel`, `ExecFile` and `ExecCode` are `exec`, and `ExecElf` is the files it reads.
- **Processes.** `Proc`, `ProcKin` and `ProcLocks`: several CPUs step through the scheduler, sleep and wakeup, fork,
  exit and wait.
- **The virtio disk.** `Virtio` is the driver, its device and the two rings between them (sections 2.6 and 5.2 of
  VIRTIO 1.1); `VirtioCode` is the driver's code.
- **Pipes** (`Pipe`, `PipeCode`), **the user-level allocator** (`Umalloc`, `UmallocCode`), **the shell's parser**
  (`Shell`, `ShellGrammar`, `ShellPrint`, `ShellCode`) and **grep** (`Grep`, `GrepCode`).

`Blocks`, `Params` and `Values` hold what these share: words and bits in a block, limits, an option type.
`dafny verify dfyconfig.toml` verifies everything.

## Findings

Where the code does not give what one might expect of it, the model keeps the code as it is and says exactly when the
property holds.

- **The size guard of `log_write` (kernel/log.c:220).** The log that mkfs makes has LOGSIZE blocks with its header, so
  an operation within its reservation can hit the panic. It cannot, in any run, exactly if the log has more than
  LOGSIZE blocks (`GroupCommit.SizeGuardExact`). The guard also comes before absorption, so a block that is in the log
  already can cause the panic on any log that holds a block at all (`GroupCommit.AbsorptionCanPanic`); with more than
  LOGSIZE blocks that happens exactly when LOGSIZE are in use, and then no operation has any reservation left
  (`GroupCommit.WritePanicsExactly`).
- **A write whose copy fails inside a block (kernel/fs.c:522-525).** `writei` copies straight into the cached block. The
  bytes before the fault stay there, but they are not counted and the block is not logged. `FsCode.TornWrite`: for every
  file that is not empty there is a write that reports nothing and changes what is read. `FsTorn.ReadsAsReported`: the
  file reads as reported exactly if the bytes between those counted and the fault are behind its end or what was there
  before. What the transaction commits is the write as reported in every case (`FsTorn.CommittedStep`).
- **A killed writer strands readers (kernel/pipe.c:84-87).** `pipewrite` returns without waking the readers. A sleeping
  reader then has data and nobody wakes it; `Pipe.KilledWriterStrandsReader` gives a run. `Pipe.NoStuckReader` says for
  every run that readers are stuck exactly from such a return until a writer goes on, the pipe is emptied, the write end
  is closed, or the readers asleep are killed.
- **Long lines (user/grep.c:17).** A line that does not fit the buffer ends the output. `Grep.PrintedExactly`: all
  matching lines are printed, whatever the pattern, exactly if every line that ends in a newline fits.
- **A load segment that leaves the size at 0 (kernel/exec.c:65-66).** For an empty segment at address 0 with nothing
  loaded before it `uvmalloc` answers 0, which `exec` takes for failure; behind a segment with memory it is accepted.
  `ExecFile.EmptyFirstRefused` says that every file that starts with one is refused, and
  `ExecElf.EmptyProgramRefused` gives such a file. `ExecFile.HeaderGood` has the exact condition, and
  `ExecCode.Exec` says exactly which programs and arguments are accepted.
- **Cleanup that is never needed (kernel/proc.c:198-203).** The trapframe's page is reached through the tables that
  mapping the trampoline has just made, so the second mapping of `proc_pagetable` cannot fail
  (`VmFree.SharedTables`, `VmCode.Kernel.ProcPagetable`).

## Model

| member | source | states |
|---|---|---|
| Log.HeaderRoundTrip | kernel/log.c:86-114 | reading a header block that was written with a list of home blocks gives that list back |
| Log.CommitAtomic | kernel/log.c:178-203 | cut commit's writes anywhere and recover: every home block is as before the transaction if the header write has not happened, and as after it if it has |
| Log.CommitCompletes | kernel/log.c:193-203 | commit that is not interrupted leaves an empty log and exactly the logged blocks updated |
| Log.RecoveryRestartable | kernel/log.c:68-123 | a crash after any number of recovery's writes, then a full recovery, gives the same home blocks as one undisturbed recovery |
| Log.RepeatedCrashes | kernel/log.c:116-123 | so does any number of recoveries that are each cut short anywhere |
| Log.RunIsAtomic | kernel/log.c:68-203 | over a run of transactions, each committed or cut at any write and followed by any number of interrupted recoveries, every home block holds what the transactions that reached their header write left in it, in order |
| Log.TracesAreWrites | kernel/log.c:68-203 | the disks that the code passes through are, write by write, the ones the crash theorems speak about |
| LogCode.LogDevice.ReadHead | kernel/log.c:86-97 | the in-memory header is the list on disk |
| LogCode.LogDevice.WriteHead | kernel/log.c:102-114 | one disk write, of the header with the in-memory list |
| LogCode.LogDevice.WriteLog | kernel/log.c:178-191 | the n writes that copy the cached blocks to the log, in order, and no other |
| LogCode.LogDevice.InstallTrans | kernel/log.c:68-83 | the n writes that copy the log to the home blocks, in order; installed blocks are unpinned except in recovery |
| LogCode.LogDevice.RecoverFromLog | kernel/log.c:116-123 | exactly the writes of a recovery; the log is empty after it |
| LogCode.LogDevice.Commit | kernel/log.c:193-203 | exactly the 2n+2 writes of a commit in order, none for an empty transaction; its blocks are no longer pinned |
| LogCode.LogDevice.TryBeginOp | kernel/log.c:126-142 | admits an operation exactly if no commit runs and the blocks in the log plus ten for each operation and this one are at most 30, and counts it |
| LogCode.LogDevice.EndOp | kernel/log.c:146-175 | panics exactly if a commit is running; one operation less in any case, and a commit begins exactly with the last one out |
| LogCode.LogDevice.LogWrite | kernel/log.c:214-235 | panics exactly on the two guards; otherwise the block is pinned with its contents, and it is appended to the list exactly if it was not on it |
| GroupCommit.RunInv | kernel/log.c:126-235 | the invariant of every state of every interleaving of begin_op, log_write, end_op and commit |
| GroupCommit.GroupCommitSafe | kernel/log.c:126-175 | in every run, blocks in the log plus unused reservations stay within LOGSIZE, the log lists no block twice, and during a commit no operation is outstanding and the list does not change |
| GroupCommit.EndNeverPanics | kernel/log.c:151-154 | in no run does an operation that ends find a commit in progress |
| GroupCommit.OneCommitPerOp | kernel/log.c:146-175 | each commit holds exactly the blocks written by the operations that began in its epoch, and every operation ends in the epoch it began in |
| GroupCommit.ReservationSuffices | kernel/log.c:214-235 | with more than LOGSIZE blocks for the log, an operation within its reservation never hits the size guard |
| GroupCommit.SizeGuardExact | kernel/log.c:220-221 | it can never be hit in any run if and only if the log has more than LOGSIZE blocks, header included |
| GroupCommit.WritePanicsExactly | kernel/log.c:216-235 | log_write in any run panics exactly when the log is full by either guard; on a large enough log only for a block that is already listed and when no operation has reservation left |
| GroupCommit.AbsorptionCanPanic | kernel/log.c:220-229 | a run in which writing an already listed block panics exists if and only if the log holds a block besides its header |
| BufferCache.RunInv | kernel/bio.c:58-151 | the invariant of every state of every run of bread, change, log_write, brelse in its two steps (the sleep lock, then the reference) and commits |
| BufferCache.CacheAgreesWithDisk | kernel/bio.c:58-151 | in every run the list is a permutation of all buffers, no block of a device other than 0 has two buffers, a reference count is holder plus waiters plus those between the two steps of brelse plus one for a log entry, and a valid buffer that is neither locked nor logged equals its disk block |
| BufferCache.ReadsSeeLastWrite | kernel/bio.c:92-112 | in every run, who holds a valid buffer sees the block's last change, committed or not |
| BufferCache.LoggedNeverEvicted | kernel/log.c:214-235 | in every run a block in the log is in the cache and bget of another block does not take its buffer |
| BufferCache.RecyclesLeastRecent | kernel/bio.c:73-86 | in every run, if a block is not cached and some buffer is unused, bget recycles one, and that was released no later than any other unused one |
| BufferCache.NoBuffersExactly | kernel/bio.c:58-89 | in every run bget can go on if and only if some buffer holds the block or some buffer is neither locked, waited for, being left nor in the log; otherwise it panics |
| BioCode.Bcache.constructor | kernel/bio.c:36-53 | the links form the list of all buffers, last one first, all free |
| BioCode.Bcache.FindCached | kernel/bio.c:64-71 | walking the links finds the first buffer in list order with that device and block, if any |
| BioCode.Bcache.FindVictim | kernel/bio.c:73-86 | walking the links backwards finds the least recently released unused buffer, if any |
| BioCode.Bcache.Bget | kernel/bio.c:58-89 | -1, the "no buffers" panic, if and only if every buffer is in use and none holds the block; otherwise a buffer that held it gets one more reference, or, if none did, the least recently released unused one is recycled for it; no other buffer and no link changes |
| BioCode.Bcache.MoveToFront | kernel/bio.c:126-133 | relinking in place moves one buffer to the front of the list and keeps the order of the others |
| BioCode.Bcache.Brelse | kernel/bio.c:116-137 | a reference less, and on the last one the buffer is in front |
| BioCode.Bcache.Bpin | kernel/bio.c:139-144 | one reference more and nothing else |
| BioCode.Bcache.Bunpin | kernel/bio.c:146-151 | one reference less and nothing else |
| FsModel.OwnershipIsPartition | kernel/fs.c:65-105 | the bitmap marks exactly the metadata blocks and the blocks recorded in some place of some inode, and no block is recorded in two places |
| FsModel.InodeRoundTrip | kernel/fs.c:225-241 | an inode written into its block reads back, and its neighbours are unchanged |
| FsModel.BallocKeeps | kernel/fs.c:65-88 | a free block is a data block nobody owns; allocating it keeps ownership and the contents of every owned block |
| FsCode.FileSystem.FindFree | kernel/fs.c:71-83 | the lowest block whose bit is clear, over all bitmap blocks, or none |
| FsCode.FileSystem.Balloc | kernel/fs.c:65-88 | the lowest free block, marked and zeroed; 0 only if every block is in use, and then nothing has changed |
| FsCode.FileSystem.Bfree | kernel/fs.c:91-105 | the panic exactly if the block was free; otherwise exactly its bit is cleared |
| FsCode.FileSystem.Bmap | kernel/fs.c:382-421 | the address of the file block, direct or indirect, allocated if missing; no other recorded address and no byte of any file changes; 0 only on a full disk; exactly these blocks logged and owned |
| FsCode.FileSystem.Itrunc | kernel/fs.c:425-453 | exactly the inode's blocks become free, the file is empty, all other files keep their bytes; exactly the bitmap blocks of those blocks and the inode's block are logged, and nothing else changes; the "freeing free block" panic cannot happen |
| FsCode.FileSystem.Readi | kernel/fs.c:471-496 | exactly the file's bytes from the offset on, cut at the end of file, across the direct/indirect boundary; -1 exactly if user memory has not room for them, and then those it has room for are stored; nothing on disk changes, so nothing is allocated |
| FsCode.FileSystem.Iupdate | kernel/fs.c:225-241 | the inode's place on disk holds it; one block logged |
| FsWrite.LogCount | kernel/fs.c:505-539 | what a write logs are data, bitmap, indirect and inode blocks that are all different, so their numbers add up exactly |
| FsWrite.TransactionFits | kernel/file.c:155-174 | a chunk of filewrite on a file without holes logs at most MAXOPBLOCKS blocks, for any offset and any number of bitmap blocks; it logs that many if and only if it writes four blocks and takes blocks from four bitmap blocks |
| FsCode.FileSystem.Writei | kernel/fs.c:505-539 | -1 exactly for a bad offset or size, with no change; otherwise the first r bytes are spliced in at the offset and no other file changes, fewer than asked only past the old end on a full disk or at the block in which user memory could not be read, each exactly then; the cache differs from that only by the bytes before the fault; logged is exactly the written blocks, the bitmap blocks of newly owned blocks, the indirect block if it changed, and the inode block |
| FsCode.FileSystem.Transaction | kernel/file.c:155-174 | one begin_op/writei/end_op: what it commits is the write as reported, in at most MAXOPBLOCKS blocks, and exactly when that many; no block that is not logged changes in it, and none before the inodes |
| FsCode.FileSystem.Filewrite | kernel/file.c:134-181 | n exactly if all bytes are in the file; in any case each transaction commits a sound file system, its inodes on disk, whose file is the old one with the bytes so far spliced in, all up to the new offset in the end, and other files unchanged; it stops early only where the next chunk would run past the largest file, where a block is missing and the disk is full, or where memory up to the end of the block cannot be read, and only then can the cache show more; no transaction exceeds MAXOPBLOCKS |
| FsTorn.TornContent | kernel/fs.c:516-528 | what a copy that fails leaves in the cache: exactly the bytes before the fault show, in that file, below its size, and no other file changes |
| FsTorn.CommittedStep | kernel/fs.c:505-539 | what the transaction of a write that stopped early commits is the write as reported: the torn block is among the logged ones only if it was new, and then its bytes are behind the end |
| FsTorn.ReadsAsReported | kernel/fs.c:505-539 | the file reads as reported if and only if the bytes that were copied and not counted are behind its end or equal to what was there |
| FsCode.TornWrite | kernel/fs.c:522-525 | for every file that is not empty, a write that reports no byte and changes what is read, in a block that it does not log |
| FsCrash.TxnCarries | kernel/log.c:178-203 | a transaction of filewrite that is cut at any disk write of its commit, with recovery cut any number of times, leaves its blocks all as after it or all as before |
| FsCrash.InvBehind | kernel/fs.c:65-105 | the file system's invariant depends only on blocks behind the log |
| FsCrash.FilewriteCrashSafe | kernel/file.c:134-181 | power fails anywhere in any transaction of filewrite and again any number of times during recovery: the disk is then a sound file system, its inodes included, the file holds exactly the bytes of the transactions whose header was written, and no other file has changed |
| FsTight.FillReservation | kernel/file.c:155-174 | a disk laid out as mkfs does on which one chunk logs exactly MAXOPBLOCKS blocks: the bound is tight |
| Dir.PackedEntry | kernel/fs.c:600-603 | a name and inode number packed into an entry read back, the name cut to DIRSIZ bytes |
| Dir.LookupAt | kernel/fs.c:551-575 | in a directory whose names are unique, any entry that has a name is the one lookup finds |
| Dir.Linked | kernel/fs.c:579-606 | writing an entry into a vacant place, or at the end, adds exactly that name to the map and keeps names unique and the size whole |
| Dir.ElementsOfPath | kernel/fs.c:622-645 | the elements of a path written with any slashes before, between and behind its elements are those elements |
| DirCode.SameName | kernel/fs.c:543-547 | equal exactly if the name cut to DIRSIZ bytes is the one the field holds, up to its NUL or all of it |
| DirCode.Dirlookup | kernel/fs.c:551-575 | the map's value for the name, and the offset of its entry; nothing changes |
| DirCode.FindVacant | kernel/fs.c:592-598 | the first unused entry, or the end |
| DirCode.NameField | kernel/string.c:70-81 | the name cut to the field and padded with NULs |
| DirCode.Dirlink | kernel/fs.c:579-606 | 0: exactly that name has been added to the map; -1: the directory is unchanged, and the name was there, or all entries are in use and the disk is full or the file at its largest; other files never change, and what was a tree of directories is one if the inode exists |
| DirCode.Skipelem | kernel/fs.c:622-645 | splits a path into its first element, cut to DIRSIZ bytes, and a rest with the remaining elements; fails exactly if there is none |
| DirCode.Namex | kernel/fs.c:651-684 | the fold of directory lookup over the path's elements, from the root if the first character is '/' and from the current directory otherwise; with parent, the fold over all but the last, which is returned as the name |
| DiskFormat.DinodeLayout | kernel/fs.h:32-39 | type, major, minor, nlink, size and the thirteen addresses of an inode are at bytes 0, 2, 4, 6, 8 and 12 of its 64, low byte first |
| DiskFormat.InodePlace | kernel/fs.h:45 | inode i is the i % 16-th of block inodestart + i / 16 |
| DiskFormat.BitmapPlace | kernel/fs.h:51 | block b is in use exactly if bit b % 8 of byte b / 8 % 1024 of block bmapstart + b / 8192 is set |
| DiskFormat.IndirectPlace | kernel/fs.c:382-421 | block bn of a file is its address bn, or from 12 on word bn - 12 of the block that its last address names |
| DiskFormat.FilePlace | kernel/fs.c:471-496 | byte x of a file without holes is byte x % 1024 of its block x / 1024 |
| DiskFormat.DirentLayout | kernel/fs.h:56-59 | an entry is two bytes of inode number, low byte first, and a name that ends with a NUL or fills its fourteen bytes |
| DiskFormat.LogHeaderLayout | kernel/log.c:35-38 | the log header is a count and the home blocks, four bytes each, low byte first |
| VmSpec.OneUse | kernel/vm.c:85-165 | two places in any page tables that hold the same page are the same place of the same tree, and that page is not free |
| VmSpec.PageAccounted | kernel/kalloc.c:46-82 | every page is on the free list, or in a caller's hands, or at one place in one tree as table or user memory, and in only one of these ways |
| VmSpec.OthersSame | kernel/vm.c:142-249 | growing or shrinking one address space leaves every other tree, its map and its pages' contents as they were |
| VmSpec.SpansBound | kernel/vm.c:225-249 | an address space is smaller than physical memory, so it never reaches the trapframe page |
| VmCode.Kernel.constructor | kernel/kalloc.c:26-31 | the account of pages before any is free |
| VmCode.Kernel.Freerange | kernel/kalloc.c:33-40 | exactly the whole pages of the range become free |
| VmCode.Kernel.Kfree | kernel/kalloc.c:46-63 | the page is first on the free list, overwritten with junk, and no tree changes |
| VmCode.Kernel.Kalloc | kernel/kalloc.c:68-82 | the first page of the free list, now in the caller's hands; 0 exactly if the list is empty |
| VmCode.Kernel.Walk | kernel/vm.c:85-103 | the entry of the virtual page in its bottom table; without alloc nothing changes and failure means there is no such table; with alloc the map is unchanged and failure means that fewer than two pages were free; what these tables mean to the hardware is Sv39.HardwareAgrees |
| Sv39.HardwareAgrees | kernel/riscv.h:345-357 | for every tree and address, the hardware's walk over the raw bytes, by bits 38-30, 29-21 and 20-12, finds an entry if and only if the tree's map has one for the page and it is not write-only, and then that entry, at the bottom level |
| Sv39.HardwareLoads | kernel/vm.c:109-126 | a user's load succeeds if and only if the kernel's walkaddr does and the page may be read, and gives the byte that the kernel sees |
| VmCode.Kernel.Mappages | kernel/vm.c:142-165 | the map gains exactly the pages of the range, pointing at consecutive frames; only tables are taken from the free list; the "remap" panic cannot happen; short only for lack of free pages |
| VmCode.Kernel.Uvmunmap | kernel/vm.c:170-192 | the map loses exactly those pages, their frames go to the free list or the caller, nothing else changes hands; its three panics cannot happen |
| VmCode.Kernel.Uvmcreate | kernel/vm.c:196-205 | a new tree with an empty map out of one free page; 0 exactly if there is none |
| VmCode.Kernel.Uvmdealloc | kernel/vm.c:255-267 | exactly the pages above the new size are unmapped and free |
| VmCode.Kernel.Uvmalloc | kernel/vm.c:225-249 | the map gains zeroed pages up to the new size with the given permissions, the old ones keep their contents; on failure the map is as before and every user page is back, and there were fewer than three free pages for each page asked for |
| VmCode.Kernel.Uvmcopy | kernel/vm.c:305-333 | equal bytes and flags on frames of its own, the source untouched; or on failure no page left mapped, and there were fewer than three free pages for each page |
| VmCode.Kernel.Freewalk | kernel/vm.c:271-287 | meets no leaf and frees each table page of the tree once, and no other page |
| VmCode.Kernel.Uvmfree | kernel/vm.c:291-297 | every page of the tree, user or table, is free and all other pages are as before |
| VmCode.Kernel.Uvmclear | kernel/vm.c:337-346 | exactly the user bit of one page is gone |
| VmCode.Kernel.Walkaddr | kernel/vm.c:108-126 | the frame exactly if the address is mapped and accessible to the user |
| VmCode.Kernel.Copyin | kernel/vm.c:376-396 | the bytes that translating address by address gives; fails exactly at the first address that does not translate |
| VmCode.Kernel.Copyout | kernel/vm.c:351-371 | exactly those user bytes are written, no other byte of any address space; fails exactly at the first address that does not translate |
| VmCode.Kernel.Copyinstr | kernel/vm.c:402-439 | the string up to its first NUL, byte by byte as translated; fails exactly if no NUL comes before the limit or before an address that does not translate |
| VmCode.Kernel.ProcPagetable | kernel/proc.c:176-206 | a tree that maps exactly the trampoline and the trapframe, from at most three pages; on failure every page is as before and fewer than three were free |
| Sv39.KernelTranslation | kernel/proc.c:176-206 | in such a tree the hardware finds the trampoline, readable and executable, at 0x3FFFFFF000, the trapframe, readable and writable, at 0x3FFFFFE000, neither for the user, and nothing below |
| VmCode.Kernel.ProcFreepagetable | kernel/proc.c:210-216 | every page of the address space but those two is free, all others as before |
| ExecModel.WordRoundTrip | kernel/exec.c:104-110 | a pointer stored as eight bytes reads back |
| ExecFile.SegmentIsPart | kernel/exec.c:147-166 | a segment whose offsets fit 32 bits is the part of the file from its offset on |
| ExecFile.LoadedBeyond | kernel/exec.c:53-70 | no accepted segment reaches beyond the program's size |
| ExecFile.EmptyFirstRefused | kernel/exec.c:65-66 | no file whose first header is an empty load segment at address 0 is accepted, whatever follows |
| ExecFile.LaidGrown | kernel/exec.c:62-66 | the pages that a segment adds have its access rights, and all other pages keep theirs |
| ExecElf.HeadersRead | kernel/elf.h:6-34 | of any file in which these structures stand, field by field and low byte first, exec reads the fields that were written |
| ExecElf.Assembled | kernel/elf.h:6-34 | a file assembled from segments is such a file, with the data of each segment where its header says |
| ExecElf.ReadsSegments | kernel/exec.c:51-70 | what exec makes of it is what the segments say: its size, whether it is accepted, every byte and every page's rights |
| ExecElf.EmptyProgramRefused | kernel/exec.c:65-66 | a file with one empty segment at address 0, whatever its ELF header, is refused for it |
| ExecCode.Loadseg | kernel/exec.c:147-166 | exactly the segment's bytes are written at its address; succeeds exactly if every page of it can be read in full; the "address should exist" panic cannot happen |
| ExecCode.LoadSegment | kernel/exec.c:53-70 | memory below the size is the image of the headers so far, later segments over earlier ones and zero elsewhere, and every page has the rights of the header that reached it first; fails only for a bad header or lack of memory |
| ExecCode.LoadProgram | kernel/exec.c:51-70 | the same for all headers of the file |
| ExecCode.AllocStack | kernel/exec.c:78-88 | two more pages, the lower out of the user's reach, the upper readable and writable; the program's bytes and all other pages' rights are as before |
| ExecCode.PushStrings | kernel/exec.c:90-101 | each argument with its NUL at a 16-byte aligned address in the stack page, none overlapping; succeeds exactly if they fit |
| ExecCode.PushArgs | kernel/exec.c:90-110 | below them the array of pointers to them with a NULL; succeeds exactly if there are fewer than MAXARG and all of it fits the page |
| ExecCode.BuiltSwapped | kernel/exec.c:123-129 | after the swap every page of the old address space is free, every page of the new one was free, and no other page has changed |
| ExecCode.StackSurvives | kernel/exec.c:123-129 | freeing the old address space changes nothing the new program sees |
| ExecCode.Exec | kernel/exec.c:22-141 | -1: every page is as before. Otherwise the old space is free and the new one holds the program byte by byte, a guard page, the stack with the arguments and the kernel's two pages, each with its access rights. It goes through only for a program and arguments it accepts, and always for those if enough pages are free |
| ExecElf.ExecSegments | kernel/exec.c:22-141 | exec of a file assembled from segments goes through exactly for segments it accepts and arguments that fit, given enough pages; then at every address a load by user code finds the byte that the last segment with one there has for it, and zero elsewhere below the size, with the rights the segments ask for, and the trampoline and trapframe are in place |
| ProcKin.RunInv | kernel/proc.c:279-580 | the invariant of every state of every interleaving of the CPUs; a timer may take the CPU away wherever interrupts are on, inside fork, exit and wait too |
| ProcKin.StackExclusive | kernel/proc.c:376-562 | in every run no two CPUs are on one kernel stack, no slot is free while a CPU is on its stack, and a process that is not running but still on its stack has its lock held by that CPU |
| ProcKin.NoLostExit | kernel/proc.c:363-580 | in every run, whenever wait_lock is free, the parent of a zombie is a live process and not asleep in wait |
| ProcKin.ParentsAlive | kernel/proc.c:317-341 | in every run nobody's parent is a zombie or an unused slot |
| ProcKin.ReapedOnce | kernel/proc.c:390-435 | in every run the exits of a slot are its reaps, plus one while it is a zombie |
| ProcKin.ReapedByParent | kernel/proc.c:390-435 | a zombie ends only by its current parent's wait, when no CPU is on its stack, and its slot is free then |
| ProcKin.GiveUpHonest | kernel/proc.c:425-430 | wait returns for want of children only if there are none, whatever happened during its scan |
| ProcLocks.NoDeadlock | kernel/proc.c:23-27 | in every state of every run, a CPU with a process to attend to or to pick can go on, or spins for a process's lock whose holder can, or for wait_lock whose holder can or spins for such a lock: locks are never waited for in a circle |
| Virtio.StepInv | kernel/virtio_disk.c:215-327 | every step of the driver, the interrupt handler or the device keeps the invariant |
| Virtio.RunInv | kernel/virtio_disk.c:215-327 | so it holds in every run |
| Virtio.ChainsDisjoint | kernel/virtio_disk.c:156-213 | in every run the chains of two requests share no descriptor, theirs are not free, and no buffer is in two requests |
| Virtio.DeviceSeesRequest | kernel/virtio_disk.c:237-262 | in every run, what the device finds by following the descriptors of a request, with their flags and lengths as sections 2.6.5 and 5.2.6 of VIRTIO 1.1 have them, is that request's command, sector, buffer and status byte |
| Virtio.UnreadKept | kernel/virtio_disk.c:215-327 | no step overwrites an entry of either ring that the other side has not read, across wrap-around of the 16-bit indices |
| Virtio.TakenOnce | kernel/virtio_disk.c:257-270 | what the device takes next is the oldest published request, which it has not taken before |
| Virtio.CompletionIsOwn | kernel/virtio_disk.c:305-327 | the next entry of the used ring is a completed request with its own buffer and the status the device reported, and the interrupt handler goes on exactly if that is 0 |
| Virtio.ClearedWhenDone | kernel/virtio_disk.c:305-327 | a buffer's disk flag is cleared only by its own request's completion |
| Virtio.FreeNeverPanics | kernel/virtio_disk.c:169-197 | when a request ends, its chain is three different descriptors in use that end after the third, so free_desc does not panic and frees each once |
| VirtioCode.RunValid | kernel/virtio_disk.c:169-327 | every reachable state meets what the driver's methods below need: blank free descriptors, unread completions that name their buffers, a whole chain for every request that ends |
| VirtioCode.SubmitIsSteps | kernel/virtio_disk.c:215-281 | what Submit leaves is the machine's state after formatting and publishing |
| VirtioCode.IntrIsSteps | kernel/virtio_disk.c:294-327 | what Intr leaves is the machine's state after taking every unread entry, or those before the first that failed |
| VirtioCode.Driver.constructor | kernel/virtio_disk.c:118-147 | the driver's data is an initial state of the machine |
| VirtioCode.Driver.AllocDesc | kernel/virtio_disk.c:156-166 | the lowest free descriptor, marked; -1 exactly if there is none |
| VirtioCode.Driver.FreeDesc | kernel/virtio_disk.c:169-182 | the descriptor is blank and free |
| VirtioCode.Driver.FreeChain | kernel/virtio_disk.c:185-197 | following the links frees exactly the chain's three descriptors |
| VirtioCode.Driver.Alloc3Desc | kernel/virtio_disk.c:199-213 | the three lowest free descriptors, or all given back if there are fewer |
| VirtioCode.Driver.Submit | kernel/virtio_disk.c:215-281 | succeeds exactly if three descriptors are free, and then the chain, the command, the info entry and the avail ring are those of one request: the device finds a command for sector 2 * blockno in 32 bits and that buffer |
| VirtioCode.Driver.Intr | kernel/virtio_disk.c:294-327 | clears the flags of exactly the buffers of the unread entries up to the first whose status is not 0, and panics exactly if there is one |
| Umalloc.FreedList | user/umalloc.c:24-44 | the header updates of free turn the ring of a list of blocks into the ring of that list with the block inserted and merged |
| Umalloc.FreedUnits | user/umalloc.c:33-42 | the free units gain exactly the block's |
| Umalloc.FreedGapped | user/umalloc.c:33-42 | the list stays in address order with no two blocks adjacent |
| Umalloc.TakeWhole | user/umalloc.c:76-77 | unlinking a block leaves the ring of the others |
| Umalloc.TakeTail | user/umalloc.c:78-82 | cutting a block's tail leaves the ring with that block shorter |
| Umalloc.TakenUnits | user/umalloc.c:75-84 | the free units are split exactly into the remaining ones and those of the block taken |
| Umalloc.FreedTiled | user/umalloc.c:24-44 | free and live blocks still tile the heap after a free |
| Umalloc.TakenTiled | user/umalloc.c:75-84 | and after taking a block, which was not live |
| Umalloc.MaximalRun | user/umalloc.c:33-42 | every free block is a maximal run of free units |
| UmallocCode.Heap.constructor | user/umalloc.c:21-22 | the empty heap |
| UmallocCode.Heap.FindPlace | user/umalloc.c:30-32 | the search from freep ends, at the one place in the ring where the block belongs, or at the wrap |
| UmallocCode.Heap.Link | user/umalloc.c:33-43 | the two headers are what inserting and merging requires |
| UmallocCode.Heap.Free | user/umalloc.c:24-44 | exactly the block's units become free, one free block contains them, no other live block's header or contents are stored to, and the ring invariant holds |
| UmallocCode.Heap.Take | user/umalloc.c:75-84 | a block of exactly that many units, disjoint from all live ones, out of the free block |
| UmallocCode.Heap.Morecore | user/umalloc.c:46-61 | 0 exactly if sbrk refuses or the limit is reached, and then nothing changes; otherwise the heap grows at the old break by the units asked for, at least 4096, and they are in one free block |
| UmallocCode.Heap.Search | user/umalloc.c:74-89 | the loop ends, before and after morecore; 0 exactly if no block is large enough and no memory is to be had; more memory is asked for exactly if no block is large enough |
| UmallocCode.Heap.Malloc | user/umalloc.c:63-90 | 0 exactly if no free block is large enough and sbrk refuses or the limit is reached; otherwise a block of at least nbytes besides its header, disjoint from all live ones, whose headers and contents are untouched; free and live blocks tile the heap, which grows only if no free block is large enough, and then by exactly the units at the old break |
| ShellGrammar.ParserExact | user/sh.c:328-447 | the parser accepts a line if and only if the grammar generates its tokens, and then builds the tree that the grammar gives them: simple commands with words and redirections in any order, blocks with redirections, pipelines, & and ; |
| ShellGrammar.ItemsRead | user/sh.c:416-447 | words and redirections in any order give one command with the words in order, inside the redirections in order |
| ShellGrammar.LayoutLexes | user/sh.c:262-309 | tokens laid out with any blanks around them are read as those tokens, given a blank where two would run together |
| ShellGrammar.LineIsLayout | user/sh.c:262-309 | every line is such a layout of the tokens that are read from it |
| ShellGrammar.AnyLayout | user/sh.c:262-447 | so every command of the grammar, laid out in any way, parses to its tree |
| ShellPrint.RoundTrip | user/sh.c:262-447 | writing down any tree of plain words with fewer than MAXARGS arguments, with parentheses where needed and any blanks, and parsing the line gives the same tree |
| ShellCode.ParsedIsWritable | user/sh.c:328-447 | the parser builds only such trees, so any line it accepts means the same as the line printed for its tree |
| ShellCode.LineTokens | user/sh.c:266-447 | every word a parse records is a maximal run of word characters |
| ShellCode.NextToken | user/sh.c:266-309 | the token at the position, with its extent and the position behind the blanks |
| ShellCode.PeekFor | user/sh.c:311-321 | whether the next character that is not blank is one of these, and its position |
| ShellCode.ReadRedirs | user/sh.c:375-398 | the tree of ParseRedirs, whose meaning ParserExact gives; terminates |
| ShellCode.ReadExec | user/sh.c:416-447 | likewise for ParseExec |
| ShellCode.ReadBlock | user/sh.c:400-414 | likewise for ParseBlock |
| ShellCode.ReadPipe | user/sh.c:362-373 | likewise for ParsePipe |
| ShellCode.ReadLine | user/sh.c:345-360 | likewise for ParseLine, with the mutually recursive parser terminating |
| ShellCode.Nulterminate | user/sh.c:450-494 | every recorded word is then a NUL-terminated string equal to its token, and no character of any word is overwritten |
| ShellCode.ReadCmd | user/sh.c:328-343 | the whole line's tree or a syntax error, and its words as strings in the buffer |
| Pipe.StepInv | kernel/pipe.c:58-130 | every step of any reader, writer, close or kill keeps the invariant |
| Pipe.FirstInFirstOut | kernel/pipe.c:76-130 | in every run the bytes taken are in order a prefix of those stored, and the counters' difference modulo 2^32 is the number in between, at most PIPESIZE |
| Pipe.NoStuckWriter | kernel/pipe.c:58-130 | in every run, while the lock is free, no writer sleeps when there is room or the read end is closed |
| Pipe.StrandsExactly | kernel/pipe.c:84-87 | from a state with no stuck reader, a step strands one if and only if it is the early return of a killed writer with bytes untold and a reader asleep |
| Pipe.EasesExactly | kernel/pipe.c:58-130 | stuck readers stay stuck until exactly one of four kinds of step |
| Pipe.NoStuckReader | kernel/pipe.c:58-130 | in every run, while the lock is free, a sleeping reader faces an empty pipe with an open write end if and only if no such return lies behind that nothing has eased since |
| Pipe.KilledWriterStrandsReader | kernel/pipe.c:84-87 | a run that ends with a stuck reader |
| Pipe.PutHolds | kernel/pipe.c:94-95 | storing a byte appends it to the queue, across counter wrap |
| Pipe.DropHolds | kernel/pipe.c:120-123 | taking a byte removes the oldest |
| PipeCode.Buffer.constructor | kernel/pipe.c:22-37 | an empty pipe, both ends open |
| PipeCode.Buffer.Write | kernel/pipe.c:76-103 | one stretch under the lock appends the bytes up to where it stops: given up exactly at a byte where the read end is closed or the process killed, asleep at a full pipe, done with all bytes or at a copy that fails |
| PipeCode.Buffer.Read | kernel/pipe.c:116-125 | takes the oldest bytes, as many as asked for and available, or up to a copy that fails, whose byte is gone too |
| Grep.HereOne | user/grep.c:92-94 | how a pattern's first plain character relates to its declarative meaning |
| Grep.HereStar | user/grep.c:88-89 | and a star |
| Grep.HereEnd | user/grep.c:90-91 | and a final dollar |
| Grep.PrintedExactly | user/grep.c:10-34 | all matching lines are printed, whatever the pattern, if and only if every line that ends in a newline fits the buffer |
| GrepCode.MatchHere | user/grep.c:84-95 | true exactly if the pattern matches at the beginning of the text |
| GrepCode.MatchStar | user/grep.c:97-105 | true exactly if some number of fitting characters and then the rest match |
| GrepCode.Match | user/grep.c:71-81 | true exactly if the text matches the declarative meaning of the pattern |
| GrepCode.Lines | user/grep.c:21-32 | the matching lines of the buffer are put out and what is left is moved to the front |
| GrepCode.GrepFile | user/grep.c:10-34 | for input without NULs, whatever sizes the reads return: the matching lines in order up to the first that does not fit, and all of them if all fit |

## Left out

- Boot, traps, context switch assembly, UART, PLIC, console and printf: a switch of context is one step.
- Spinlocks and memory ordering: locks give mutual exclusion and a critical section is one step.
- Torn writes inside one block, and any liveness or fairness of sleeping processes: the code assumes the first away and
  promises nothing about the second.
- mkfs: its image is assumed to satisfy the file-system invariant.
- System call arguments and dispatch, and the file and inode tables (ialloc, iget, iput, reference counts).
- Link counts in kernel/sysfile.c as a global invariant: the code does not keep it when a file is created in a
  directory that has been unlinked.
- Which user addresses can be read or written: readi and writei are told how many bytes can be.
- The kernel's own page table (kvmmake, kvmmap) is not one of the trees.
- VmCode.Kernel.Uvmalloc: a failure may leave tables without entries; they are accounted to the tree and freed with it.
- VmCode.Kernel.Copyout: writes wherever the user bit is set, as the code does, without a check of the write bit.
- ExecCode.Exec: path lookup, the trapframe and the process name are not modelled; with exactly MAXARG arguments the
  code's array is too short, which sys_exec rules out.
- ProcKin.StackExclusive: allocproc takes any free slot; pids, open files and sleeps on other events than wait are kept
  only as far as they change a process's state.
- Virtio: the data that the device moves, interrupt acknowledgement and memory barriers.
- UmallocCode.Heap.Morecore: the request in bytes must fit an int, which the code does not check.
- UmallocCode.Heap.Malloc: contents of blocks are modelled only as far as headers and units that are not stored to.
- ShellCode.ReadCmd: memory for the tree never runs out; running commands (runcmd) is not modelled.
- GrepCode.GrepFile: input with NULs, and what write does with the output.
- Panics for exhausted tables other than the buffer cache's.
