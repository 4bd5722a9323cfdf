# UZI280: block storage, caches, copy-on-write memory, processes and character queues

A model of the kernel of UZI280, a Unix for the Zilog Z280, with its file system builder
and checker and the interrupt-driven receive ring of its BIOS. The kernel changes tables
step by step, so its objects are classes here and its loops are loops; beside each class
stands the simple thing it is held against.

| module | files | what is modelled | what it is held against |
|---|---|---|---|
| Basics, Blocks | | numbers, sets; blocks as bytes and as words | |
| WriteCaches | CACHE.C, DEVWD.C | write-back cache, sector arithmetic, background flusher | a map from blocks to contents |
| BufferPools | DEVIO.C | 38-entry buffer pool over the cache | the same map |
| FreeChains | FILESYS.C | free list in chunks of 50 | a stack |
| BlockTrees, Truncations, FileSystems | FILESYS.C | allocation, block map, truncation, on the buffer pool | a partition of the data blocks; the bytes of every file |
| Spaces | FILESYS.C, SCALL1.C | how many blocks an operation takes | the empty places on the way |
| Offsets, FileIo | SCALL1.C | 16-bit positions, `readi`, `writei` | byte sequences |
| Pipes | SCALL1.C | pipes in a ring of 18 blocks | a queue of bytes |
| MakeFs | MKFS.C, FSCK2.C | building free lists and file systems | the stack and the partition |
| ProcStatus, PageTables, CowSteps, CowMemory, CowRuns | MACHDEP.C, PROCASM.C, SCALL2.C, SCALL3.C, SCALL4.C | page counts, faults, fork, switch, exit, execve with shared images | a machine where no two processes share a page |
| Processes | PROCESS.C, PROCASM.C, SCALL2.C | sleep, wakeup, signals, fork, exit, wait, scheduler | invariants over every run |
| ReceiveRing, RingRuns | CHARIO.MAC | consumer instructions and the interrupt handler of four ports, interleaved | four queues |
| InodeTable | FILESYS.C | in-core inodes and path lookup | the walk along a path's components; balanced references |
| TtyQueue | DEVIO.C, DEVTTY.C | character queue and line editing | a bounded sequence; completed lines |
| Fsck | FSCK2.C | directory walk and link counts | sound entries; the number of entries naming an inode |

Concurrency is as in the source: the kernel gives up the processor in `swapout` only,
and the clock takes it away in user mode only. Every stretch of kernel code between such
points is one method, and where interrupts are enabled inside it their effects are
arguments of the method. The receive ring is modelled instruction by instruction.

What the code demands is assumed where the invariants begin: there are no disk errors,
block devices are the three hard disk partitions, programs have separate instruction and
data space (`p_bintype` 0), and nobody holds a block of the file system when a file
operation begins.

Found where the code and what it is for differ:

- `min` compares 16-bit sizes as signed numbers (`Offsets.Min16Exact`). A request of 32768
  bytes or more makes `readi` and `writei` copy that much to or from a buffer of 512
  (`FileIo.Readi`, `FileIo.Writei`, `Pipes.Pipe.Read`), and with 64 blocks left a smaller one
  may be answered with bytes behind the end (`Offsets.ReadCountExact`). A read behind the
  end of the file does not report the end (`Offsets.ReadsPastTheEnd`), and in its last
  block overruns, even if 0 bytes are asked for (`FileIo.ReadCountFits`). The methods say when
  a copy overruns a buffer and nothing about what comes after.
- `_seek` adds offsets in 16 bits (`Offsets.SeekExact`).
- A write that reaches 32 MiB wraps around: data goes to the beginning of the file, and the
  size grows at most to the wrapped position (`FileIo.Writei`).
- `_pipe` relies on the new inode having no block numbers and size 0 (`Pipes.PipeInode`,
  `Pipes.Pipe.constructor`).
- `mkfs` with isize 2 writes the root directory over the root inode (`MakeFs.Builder.Mkfs`).
- `ttyint` subtracts ISR + RHR = 2 from the number of the line status register to get to the
  data register, which is 5 below (CHARIO.MAC:962). So it reads the line control register,
  leaves the character in the UART, puts what it read 3264 bytes behind the port's ring, and
  takes the next port's data register for a line status (`ReceiveRing.ShippedSubtrahend`,
  `ReceiveRing.ShippedPass`; `ReceiveRing.ShippedInput` is one input). 5, which is LSR - RHR,
  is the only subtrahend with which it takes its characters and finds its ring
  (`ReceiveRing.TakesItsCharacter`, `ReceiveRing.RightSubtrahend`). What is said about the
  ring as a queue is said of the routine with that subtrahend.
- A pass of `ttyint` that finds the ring full leaves register C where it read: as shipped at
  the line control register (`ReceiveRing.ShippedPass`), with the right subtrahend at the data
  register (`RingRuns.Machine.TtyInt`). The handler goes on to the next port from there. So
  with the right subtrahend it reads that port's data register for a status, and the port
  loses a character whatever room it has (`RingRuns.NextPortLoses`, `RingRuns.OverflowInput`,
  `RingRuns.PortServed`); if the low bit of that character is clear, `ttyint` is entered from
  there, and nothing says that it ends.
- `ckdir` builds paths of up to 20 levels of names of 14 characters in 150 characters, and
  takes names of 14 characters, which have no NUL behind them, for strings
  (`Fsck.ChainFits`). Passes 4 and 5 are right on a tree exactly when its paths fit
  (`Fsck.Checker.Check`).
- `n_open` does not set `*parent` when the path cannot be read, although its comment says
  it does (`InodeTable.NOpen`).
- In the root of a mounted file system `n_open` takes any name with a dot in second place for
  `..`: a file `a.c` there is searched for in the directory with the mount point, and not
  found (`InodeTable.SearchedAsMeant`).
- The interrupt character sends SIGQUIT and the quit character SIGINT (`TtyQueue.Sent`).
- `_sync` leaves the cache alone while a sweep is under way (`BufferPools.BufferPool.Sync`,
  `BufferPools.SyncInput`).
- `make_zombie` does not look at whether it got a process slot; in `CowMemory` this is an
  outcome of its own.

## Model

| member | source | states |
|---|---|---|
| WriteCaches.ShippedGeometriesDisjoint | system/uzi280-kernel/IDECONF.C:36-62 | with either shipped disk shape, none of the three partitions of 65536 blocks reaches into the next |
| WriteCaches.AddressInjective | system/uzi280-kernel/DEVWD.C:112-129 | no two blocks of the three partitions share a sector |
| WriteCaches.WriteCache.constructor | system/uzi280-kernel/CACHE.C:124-131 | with an empty cache, every block's content is what its sector holds |
| WriteCaches.WriteBackKeepsView | system/uzi280-kernel/CACHE.C:169-202 | writing a dirty slot out changes no block's content and leaves every clean slot equal to the disk |
| WriteCaches.FillSetsView | system/uzi280-kernel/CACHE.C:105-122 | retagging a clean slot, or the block's own, sets the content of that block and of no other |
| WriteCaches.WriteCache.CacheWrite | system/uzi280-kernel/CACHE.C:169-202 | one slot becomes clean and is logged; contents, driver registers and the debts of a sweep under way stay |
| WriteCaches.WriteCache.CaRead | system/uzi280-kernel/CACHE.C:92-100 | a hit exactly when the slot holds the block, and then with the block's content |
| WriteCaches.WriteCache.CaWrite | system/uzi280-kernel/CACHE.C:105-122 | the block gets the new content and no other block changes, whatever was evicted; its slot, and no other, now holds it, dirty exactly for a write |
| WriteCaches.WriteCache.Setup | system/uzi280-kernel/DEVWD.C:77-150 | a read gives the block's last content and changes none; a write sets exactly this block; either way the slot of the block, and no other, holds it afterwards, dirty if written or if it was |
| WriteCaches.WriteCache.StartSweep | system/uzi280-kernel/PROCESS.C:358-364 | a sweep starts owing exactly the blocks dirty now; one under way keeps its debts |
| WriteCaches.WriteCache.CaSync | system/uzi280-kernel/CACHE.C:135-145 | afterwards no slot is dirty and the disk alone holds every block's content |
| WriteCaches.SweepKept | system/uzi280-kernel/CACHE.C:149-162 | a write-out between two steps of a sweep settles its block's debt and loses no other |
| WriteCaches.FillKeepsDirty | system/uzi280-kernel/CACHE.C:105-122 | a cache write between two steps of a sweep loses no debt, wherever the sweep stands |
| WriteCaches.WriteCache.IntCaSync | system/uzi280-kernel/CACHE.C:149-162 | one step writes at most one slot; when the sweep is over every block dirty at its start has been written since; the cursor is 0 whenever no sweep is under way |
| WriteCaches.DiskIsCurrent | system/uzi280-kernel/SCALL1B.C:160-163 | the disk alone holds every block's content exactly when each dirty slot equals its sector |
| WriteCaches.MissIsOnDisk | system/uzi280-kernel/DEVWD.C:141-146 | a block not in the cache is on the disk with its last content |
| WriteCaches.Perform | system/uzi280-kernel/CACHE.C:92-162 | each event does to the contents what it does to a map from blocks to contents; a sweep under way keeps its debts, and a step leaves fewer dirty slots before it or ends it |
| WriteCaches.Run | system/uzi280-kernel/CACHE.C:92-162 | over any run of reads, writes, syncs and sweep steps a read gives what was last written; after a sweep is started, whenever none is under way any more, and at the latest after more steps than there were dirty slots and writes, every block dirty at its start has been written to the disk |
| BufferPools.BufferPool.Bfind | system/uzi280-kernel/DEVIO.C:183-197 | the buffer tagged with the block, or none |
| BufferPools.BufferPool.FindOldest | system/uzi280-kernel/DEVIO.C:200-218 | the least recently used buffer that is not busy, by age on the wrapping 16-bit clock |
| BufferPools.BufferPool.FreeBuf | system/uzi280-kernel/DEVIO.C:200-229 | the victim is clean afterwards and the map from blocks to contents is as before; with a buffer not busy the panic is not reached |
| BufferPools.BufferPool.Bread | system/uzi280-kernel/DEVIO.C:66-101 | without rewrite the buffer holds the last contents written and the map is unchanged; "want busy block" is not reached; held buffers stay; the clock moves by one, and this buffer, and no other, is stamped with it, hit or miss |
| BufferPools.BufferPool.ZeroBuf | system/uzi280-kernel/DEVIO.C:142-162 | a busy scratch buffer of zeros that belongs to no block, stamped with the new time; the map is unchanged |
| BufferPools.BufferPool.Put | system/uzi280-kernel/DEVIO.C:66-101 | bytes changed in a held buffer are the block's content from then on |
| BufferPools.BufferPool.Bfree | system/uzi280-kernel/DEVIO.C:118-139 | the hold ends, contents stay, the buffer is dirty afterwards with dirty 1, or with 0 if it was, and clean with 2, when the cache has the block's content; no other buffer changes |
| BufferPools.BufferPool.BufSync | system/uzi280-kernel/DEVIO.C:165-180 | contents stay, the cache alone has every block that nobody is changing, and exactly the buffers that nobody holds become clean |
| BufferPools.BufferPool.Sync | system/uzi280-kernel/SCALL1B.C:160-163 | the cache has every block that nobody is changing; in a system call with no sweep under way the disk alone has it, and otherwise the disk is current exactly when each dirty slot of the cache equals its sector; if no buffer was dirty the cache is then left alone |
| BufferPools.RenameKeeps | system/uzi280-kernel/DEVIO.C:76-79 | handing a clean buffer to another block keeps the pool in agreement with the map |
| BufferPools.CleanPoolAgrees | system/uzi280-kernel/DEVIO.C:165-180 | when all buffers are written out the cache agrees with the map |
| BufferPools.SyncInput | system/uzi280-kernel/SCALL1B.C:160-163 | a state in which sync leaves the disk behind: a block was written and the flusher has just started |
| FreeChains.StoredChunkOfStore | system/uzi280-kernel/FILESYS.C:753-760 | the 51 words copied into a freed block read back as the same chunk |
| FreeChains.ChainFrame | system/uzi280-kernel/FILESYS.C:684-724 | what the chain represents depends on the blocks on it only |
| FreeChains.PopTop | system/uzi280-kernel/FILESYS.C:688-690 | taking an entry that is not the last one takes the top off the stack |
| FreeChains.PopLast | system/uzi280-kernel/FILESYS.C:702-712 | the last entry is 0 exactly when the stack is empty; else the block it names holds the chunk for the rest of the stack |
| FreeChains.PushTop | system/uzi280-kernel/FILESYS.C:762-764 | a freed block goes on top of the stack |
| FreeChains.PushSpill | system/uzi280-kernel/FILESYS.C:753-764 | across the spill of a full chunk too |
| FreeChains.TopOfChain | system/uzi280-kernel/FILESYS.C:684-712 | both cases of taking the top together |
| BlockTrees.DataLocInjective | system/uzi280-kernel/FILESYS.C:997-1052 | no two file blocks share a place for their pointer |
| BlockTrees.DataLocIs | system/uzi280-kernel/FILESYS.C:1009-1059 | the block of file data is the one that the device's words lead to: entry bn below 18, word bn - 18 of the single indirect block below 274, else word (bn - 274) mod 256 of the block that word (bn - 274) / 256 of the double indirect block names |
| BlockTrees.LinkKeepsPartition | system/uzi280-kernel/FILESYS.C:1001-1006 | taking the top of the free stack and storing it in an empty place keeps the partition of the data blocks, all file contents, and every other place |
| BlockTrees.LinkKeepsData | system/uzi280-kernel/FILESYS.C:1038-1059 | no block of file data is moved or changed by it; a new data block is zero |
| BlockTrees.WriteKeepsPartition | system/uzi280-kernel/SCALL1.C:701-720 | writing a data block changes that block of that file, and nothing else of any file |
| BlockTrees.SameTreesKeep | system/uzi280-kernel/SCALL1.C:736-746 | sizes and dirty flags are no part of the block structure |
| BlockTrees.PointerBlock | system/uzi280-kernel/FILESYS.C:1038-1059 | no block in use is named twice |
| Truncations.SubtreeNoDup | system/uzi280-kernel/FILESYS.C:941-962 | a tree of blocks names no block twice |
| Truncations.OrderNoDup | system/uzi280-kernel/FILESYS.C:914-936 | nor does a whole file |
| Truncations.OrderCovers | system/uzi280-kernel/FILESYS.C:914-936 | every block a file's places name is freed by its truncation |
| Truncations.LastBlockFirst | system/uzi280-kernel/FILESYS.C:914-962 | a file is freed from its end: of two of its blocks the one farther behind is freed first, which no exchange of the levels of indirection keeps |
| Truncations.TruncatedStack | system/uzi280-kernel/FILESYS.C:914-936 | the blocks of a file can be pushed on the free stack in the order of freeing: they are distinct, in range and not free |
| Truncations.TruncateKeepsPartition | system/uzi280-kernel/FILESYS.C:914-936 | afterwards the data blocks are partitioned again, the file has none, and other files keep their contents |
| Truncations.NextKid | system/uzi280-kernel/FILESYS.C:953-959 | while a tree is freed from its last word on, the part still to free is intact although its freed blocks were written over |
| Truncations.NextRoot | system/uzi280-kernel/FILESYS.C:922-929 | the same from entry to entry of the inode |
| FileSystems.FileSystem.TakeTop | system/uzi280-kernel/FILESYS.C:684-719 | the superblock's side of allocation: the corrupt-list exits are not reached |
| FileSystems.FileSystem.BlkAlloc | system/uzi280-kernel/FILESYS.C:673-733 | the top of the free stack, zeroed, or 0 exactly when the stack is empty; nothing else changes; s_tfree is the length |
| FileSystems.FileSystem.BlkFree | system/uzi280-kernel/FILESYS.C:738-764 | the block is on top of the stack, and the device changes in that block at most |
| FileSystems.FileSystem.FreeThenAlloc | system/uzi280-kernel/FILESYS.C:673-764 | freeing a block and allocating gives the block back, zeroed, with the stack as before, also across a spill |
| FileSystems.FileSystem.Spill | system/uzi280-kernel/FILESYS.C:753-760 | the full chunk moves into the freed block and the chain represents the longer stack |
| FileSystems.FileSystem.NewRoot | system/uzi280-kernel/FILESYS.C:999-1007 | a new block in the inode keeps the partition; without space nothing changes |
| FileSystems.FileSystem.NewWord | system/uzi280-kernel/FILESYS.C:1052-1059 | a new block in a held indirect block keeps the partition, and the indirect block is released either way |
| FileSystems.FileSystem.Bmap | system/uzi280-kernel/FILESYS.C:974-1062 | the block that the device's words lead to for block bn, or NULLBLK for a hole; for writing it is given exactly when there are as many free blocks as empty places on the way to it, and then those places were filled and no others; an inode that got a block is dirty; on every way out the partition and all contents hold, buffers are released, and at most two were held |
| FileSystems.FileSystem.FreeBlk | system/uzi280-kernel/FILESYS.C:941-962 | the tree goes on the free stack in the order of freeing, with at most level + 1 buffers held, all released |
| FileSystems.FileSystem.FTrunc | system/uzi280-kernel/FILESYS.C:914-936 | the file's blocks are free, the file is empty, every other file keeps its bytes; at most three buffers were held |
| FileSystems.PointerNotFree | system/uzi280-kernel/FILESYS.C:1001-1007 | a block in use is not free, is a data block, and is not NULLBLK |
| Spaces.TookMore | system/uzi280-kernel/FILESYS.C:997-1059 | what is taken for some locations and then for more is what is missing for all of them |
| Spaces.TookStep | system/uzi280-kernel/FILESYS.C:1038-1059 | one more location on the way to a block takes one free block exactly when it is empty |
| Spaces.NoneLeft | system/uzi280-kernel/FILESYS.C:1052-1059 | if nothing is left for a location on the way, there was less than the way takes |
| Spaces.WaysOfChunk | system/uzi280-kernel/SCALL1.C:701-732 | the bytes of one round of writei take what is missing for their block |
| Spaces.NeedGrows | system/uzi280-kernel/SCALL1.C:699-733 | more bytes need no fewer blocks |
| Spaces.NeedAtMost | system/uzi280-kernel/SCALL1.C:699-733 | three free blocks for each block that the bytes reach into are always enough |
| Offsets.Min16Exact | system/uzi280-kernel/SCALL1.C:765-769 | the signed min of two 16-bit values gives the smaller one exactly when both are below 32768 or neither is |
| Offsets.AddOffMoves | system/uzi280-kernel/SCALL1.C:779-809 | adding to a position is exact up to the wrap of the 16-bit block number, also for negative amounts |
| Offsets.ReadCountExact | system/uzi280-kernel/SCALL1.C:586-592 | readi decides on the right number of bytes exactly when the request is below 32768 with fewer than 64 blocks left, or not beyond the end with more |
| Offsets.ReadCountLimit | system/uzi280-kernel/SCALL1.C:586-592 | 32257 is the largest request right at every position |
| Offsets.ReadsPastTheEnd | system/uzi280-kernel/SCALL1.C:586-592 | nothing is read exactly at the end of the file; behind it reading goes on |
| Offsets.Seek | system/uzi280-kernel/SCALL1.C:839-901 | the normalising loop ends at the position asked for, up to the 16-bit wrap |
| Offsets.SeekExact | system/uzi280-kernel/SCALL1.C:868-897 | for each of the six flags and a signed or unsigned argument, the position is the one asked for exactly when that exists and the 16-bit sum of the offsets does not wrap |
| FileIo.WriteChunk | system/uzi280-kernel/SCALL1.C:709-720 | reading, changing and releasing one block stores the chunk and changes no other byte of any file |
| FileIo.WriteStep | system/uzi280-kernel/SCALL1.C:701-732 | one round of the loop stores its chunk; it fails for lack of space exactly when more is missing for its block than is free, and else runs over its buffer exactly when the chunk does not fit the block; an inode that got a block is dirty |
| FileIo.WriteLoop | system/uzi280-kernel/SCALL1.C:699-733 | for up to 65535 bytes: data is stored byte for byte from the position on, around the ring for a pipe, as much as the free blocks before the call suffice for and no less; of 32768 bytes or more none is, and the first copy runs over its buffer exactly when there is space for the first byte |
| FileIo.Writei | system/uzi280-kernel/SCALL1.C:658-748 | for up to 32767 bytes: all are stored exactly when the blocks missing for them are free, else as many as there is space for; the file then reads as its old bytes, zero-extended to the position, with what was stored spliced in, exactly when the position and the length stay below 32 MiB; an inode whose size or blocks changed is dirty, and one that was dirty stays so; other files are unchanged; of 32768 bytes or more none is stored, and a buffer is overrun exactly when there is space for the first |
| FileIo.NeedMore | system/uzi280-kernel/SCALL1.C:701-732 | each round takes what is missing for its block, so the rounds together take what is missing for all bytes stored |
| FileIo.SplitSpace | system/uzi280-kernel/SCALL1.C:699-733 | for less than 32768 bytes the number stored is the whole exactly when the free blocks before the call suffice |
| FileIo.WriteSplices | system/uzi280-kernel/SCALL1.C:699-748 | stored bytes and the new size together are the splice, and storage behind the ends of files stays zero |
| FileIo.SplicedAt | system/uzi280-kernel/SCALL1.C:736-746 | byte by byte and in length, what a splice is |
| FileIo.ReadStep | system/uzi280-kernel/SCALL1.C:618-621 | a hole reads as a block of zeros and nothing changes |
| FileIo.ReadLoop | system/uzi280-kernel/SCALL1.C:616-637 | the bytes read are those at the position on, around the ring for a pipe; a copy runs over its buffer exactly when 32768 bytes or more are to be read |
| FileIo.ReadCountFits | system/uzi280-kernel/SCALL1.C:586-592 | the number of bytes readi sets out to read is 32768 or more exactly when that many are asked for or the position is behind the end in its last block, even for a request of 0 |
| FileIo.Readi | system/uzi280-kernel/SCALL1.C:564-638 | for every position and request: a copy runs over its buffer exactly when the number of bytes decided on is 32768 or more; else that many are read and nothing changes; at or before the end, with a request below 32768 and not beyond the end if 64 blocks remain, they are exactly the bytes up to the end |
| FileIo.Truncate | system/uzi280-kernel/FILESYS.C:914-936 | the file is the empty sequence, the others are unchanged; its blocks went on the free stack in the order of freeing, and the inode is dirty |
| Pipes.PipeInode | system/uzi280-kernel/SCALL1.C:301-303 | making an inode a pipe keeps the partition exactly when its block numbers were zero |
| Pipes.Pipe.constructor | system/uzi280-kernel/SCALL1.C:264-315 | an empty pipe with two ends exactly when the new inode's block numbers and size are zero; then no file changes |
| Pipes.WriteExtends | system/uzi280-kernel/SCALL1.C:684-733 | storing up to the limit of 8192 never touches an unread byte, at any turn of the ring of 18 blocks |
| Pipes.ReadAdvances | system/uzi280-kernel/SCALL1.C:595-637 | reading takes the oldest unread bytes and leaves the rest in place |
| Pipes.Undisturbed | system/uzi280-kernel/SCALL1.C:595-637 | other files can change without the pipe noticing |
| Pipes.Pipe.Write | system/uzi280-kernel/SCALL1.C:682-733 | the data goes behind what was written, as much as the free blocks before the call suffice for, which is all with a free block for each hole of the ring; or the call sleeps or fails with EPIPE, exactly as the room and the reader decide |
| Pipes.Pipe.Read | system/uzi280-kernel/SCALL1.C:595-637 | for any count: the oldest bytes, as many as asked for or there; sleep or end of file exactly when there are none; a copy runs over its buffer exactly when the call does not sleep and asks for 32768 bytes or more |
| Pipes.PipeFifo | system/uzi280-kernel/SCALL1.C:564-733 | over any run of the abstract pipe the bytes delivered and unread are those stored, in order, and at most 8192 are unread |
| Pipes.Perform | system/uzi280-kernel/SCALL1.C:564-733 | each step gets its one reply and does to the pipe what it does to the abstract one; only how much of accepted data a full device takes is open |
| Pipes.Run | system/uzi280-kernel/SCALL1.C:564-733 | any interleaving of the two ends is a run of the abstract pipe, reply by reply; what was delivered and is unread is what the accepted Puts stored, in order; with a free block for each hole of the ring every accepted Put is stored whole |
| MakeFs.SuperRoundTrip | system/uzi280-xutils/MKFS.C:136-137 | all fields of the superblock, the free list and the inode list among them, read back as they were written |
| MakeFs.UnmarkedDecreases | system/uzi280-xutils/FSCK2.C:263-272 | the blocks pass 2 frees, in the order it frees them, go down strictly |
| MakeFs.Builder.FreeOne | system/uzi280-xutils/FSCK2.C:264-271 | the body of both loops pushes the block, spilling a full chunk into it |
| MakeFs.Builder.Pass2 | system/uzi280-xutils/FSCK2.C:244-281 | the chain holds exactly the blocks the bitmap leaves, and is on the disk; no other block changes |
| MakeFs.Builder.BlkAlloc0 | system/uzi280-xutils/FSCK2.C:677-711 | the top of the stack, or 0 exactly when it is empty; no block but the superblock changes; the corrupt exit is not reached |
| MakeFs.Builder.Drain | system/uzi280-xutils/FSCK2.C:677-711 | allocating until it fails gives the whole stack from the top |
| MakeFs.Builder.RebuildAndDrain | system/uzi280-xutils/FSCK2.C:244-281 | after pass 2, allocation gives exactly the unmarked blocks, in increasing order, and then fails |
| MakeFs.Builder.MakeAndDrain | system/uzi280-xutils/MKFS.C:94-118 | on a new file system allocation gives isize + 1 to fsize - 1 in increasing order and then fails |
| MakeFs.NewPartition | system/uzi280-xutils/MKFS.C:94-137 | a root directory block and a free list of all other data blocks partition the data area |
| MakeFs.NoRoot | system/uzi280-xutils/MKFS.C:132-134 | with the directory block in the place of the inodes there is no root inode |
| MakeFs.Builder.Mkfs | system/uzi280-xutils/MKFS.C:79-141 | the free chain holds isize + 1 to fsize - 1, the disk satisfies the partition with the root directory as its one file, sizes are normal and storage behind the ends of files is zero, and the root inode survives exactly when isize is not 2 |
| PageTables.SolePage | system/uzi280-kernel/MACHDEP.C:480-497 | a page with one reference is at one place of one table |
| PageTables.UnusedPage | system/uzi280-kernel/MACHDEP.C:292-300 | a page with no reference is in no table |
| PageTables.Exchange | system/uzi280-kernel/MACHDEP.C:519-528 | a new page in the place of an old one: what the counts owe |
| PageTables.EvictKeeps | system/uzi280-kernel/SCALL3.C:346-361 | giving up an image keeps counts, protection and every other address space |
| PageTables.ClaimKeeps | system/uzi280-kernel/MACHDEP.C:292-350 | allocating changes no address space, since the page was in none |
| PageTables.PutPageKeeps | system/uzi280-kernel/MACHDEP.C:500-523 | the new page changes the current process's entry and no other process |
| PageTables.StoreKeeps | system/uzi280-kernel/MACHDEP.C:476-548 | a store that the MMU lets through changes one page of the current process, and of nobody else |
| PageTables.KeptView | system/uzi280-kernel/MACHDEP.C:281-352 | what keeps all slots keeps the abstract machine |
| CowSteps.ForkKeeps | system/uzi280-kernel/PROCASM.C:208-236 | counts, protection and MMU after the page loop of fork; both processes have the parent's address space |
| CowSteps.SwitchRest | system/uzi280-kernel/PROCASM.C:71-98 | a context switch moves tables and changes no address space |
| CowSteps.ExitRest | system/uzi280-kernel/SCALL2.C:449-460 | exit gives up one table's references and no other |
| CowSteps.NewTableKeeps | system/uzi280-kernel/SCALL4.C:153-177 | execve replaces the table of the current process only |
| CowSteps.ImageKeeps | system/uzi280-kernel/SCALL2.C:108-141 | the image has the process's contents, on the same pages |
| CowSteps.SealKeeps | system/uzi280-kernel/SCALL4.C:329-338 | program pages never loaded become illegal, data pages do not |
| CowSteps.BootOk | system/uzi280-kernel/PROCESS.C:96-99 | the first process, with one page not touched yet |
| CowMemory.Kernel.FreePages | system/uzi280-kernel/MACHDEP.C:412-418 | releasing a table's pages leaves the counts of all others right; the pg_free panic is not reached |
| CowMemory.Kernel.SharePages | system/uzi280-kernel/PROCASM.C:208-232 | sharing a table's pages counts each entry once more and protects each page |
| CowMemory.Kernel.OldestImage | system/uzi280-kernel/SCALL3.C:336-343 | the first image with the smallest use number, found for every number a process can have |
| CowMemory.Kernel.FreeZombie | system/uzi280-kernel/SCALL3.C:326-362 | the image used by the oldest process goes, false exactly when there is none; no process is affected |
| CowMemory.Kernel.PgAlloc | system/uzi280-kernel/MACHDEP.C:281-352 | a page that no table names, zeroed, counted once and writable; images go until there is one, and it fails only when every page is in use and no image is left |
| CowMemory.Kernel.Getpag | system/uzi280-kernel/MACHDEP.C:424-550 | the entry can be written afterwards and has the same bytes, or zeros if it was never touched; no other process changes; an illegal entry is the only cause of failure but lack of pages |
| CowMemory.Kernel.CopyPage | system/uzi280-kernel/MACHDEP.C:500-529 | the copy-on-write branch, also when the page loses its other reference to an image given up on the way |
| CowMemory.Kernel.Rdmmu | system/uzi280-kernel/MACHDEP.C:555-563 | every mapped page gets the protection of an MMU entry that maps it, no other page changes, and shared pages stay protected |
| CowMemory.Kernel.Ldmmu | system/uzi280-kernel/MACHDEP.C:568-578 | the MMU is the table with the descriptors' protection; what it lets the process write is not shared |
| CowMemory.Kernel.StoreByte | system/uzi280-kernel/MACHDEP.C:236-256 | one fault is enough for a store; it changes one byte of one process |
| CowMemory.Kernel.LoadByte | system/uzi280-kernel/MACHDEP.C:236-256 | a load sees the process's own byte |
| CowMemory.Kernel.PtabAlloc | system/uzi280-kernel/PROCESS.C:272-318 | an empty slot; images go if need be, and it fails only when all slots hold processes |
| CowMemory.Kernel.Dofork | system/uzi280-kernel/PROCASM.C:190-290 | the child has a copy of the parent's address space and runs; all others are unchanged; it fails exactly when every slot holds a process |
| CowMemory.Kernel.Swapout | system/uzi280-kernel/PROCASM.C:50-150 | another process runs, and no address space changes |
| CowMemory.Kernel.Exit | system/uzi280-kernel/SCALL2.C:398-463 | the process's address space goes, no other changes |
| CowMemory.Kernel.FindZombie2 | system/uzi280-kernel/SCALL2.C:145-162 | an image of this file, which is what the file loads to, exactly if there is one; it is marked as used by this process, and no other slot changes |
| CowMemory.Kernel.NewImage | system/uzi280-kernel/SCALL4.C:153-177 | the new table is the image's, page for page, or untouched |
| CowMemory.Kernel.MakeZombie | system/uzi280-kernel/SCALL2.C:108-141 | an image equal to the program as loaded; it fails exactly when every slot holds a process |
| CowMemory.Kernel.Seal | system/uzi280-kernel/SCALL4.C:329-338 | program pages never loaded become illegal |
| CowMemory.Kernel.Execve | system/uzi280-kernel/SCALL4.C:136-361 | the process gets the program as its file has it, with its arguments, whether the pages come from the file or are shared with an image; afterwards, if there was an image of the file or the process is not init, there is one, marked as used by this process, and all its pages but those that arguments went to are shared with the process; no other process changes; it fails only when every page is in use and no image is left, or no slot is empty |
| CowRuns.DoKeeps | system/uzi280-kernel/PROCASM.C:50-290 | the abstract machine stays well formed: one process runs, and the processes are what has an address space |
| CowRuns.OtherUntouched | system/uzi280-kernel/MACHDEP.C:476-548 | no event changes the address space of a process that does not run |
| CowRuns.OthersUntouched | system/uzi280-kernel/MACHDEP.C:476-548 | nor does any run |
| CowRuns.PerformAccess | system/uzi280-kernel/MACHDEP.C:236-256 | a store or load is the abstract machine's, with the same byte: it fails exactly on an illegal entry, a load delivers the byte of the process's own address space, and the system stops only when every page is in use |
| CowRuns.PerformProcess | system/uzi280-kernel/PROCASM.C:50-290 | a fork, switch, exit or wakeup is the abstract machine's, done exactly when the statuses allow it |
| CowRuns.Perform | system/uzi280-kernel/SCALL4.C:136-361 | each event is the step of the machine without sharing that the event and the machine's state call for, and the system stops only when every page is in use or execve finds no slot |
| CowRuns.Run | system/uzi280-kernel/PROCASM.C:50-290 | any run of stores, loads, forks, switches, exits, wakeups and execves is a run of that machine, step for event, and a process of the kernel keeps its address space while it does not run |
| Processes.WakesKeep | system/uzi280-kernel/PROCESS.C:446-470 | interrupts keep the invariant at whatever point they come |
| Processes.Kernel.Wakeup | system/uzi280-kernel/PROCASM.C:357-388 | exactly the sleepers on the event become READY |
| Processes.Kernel.Ssig | system/uzi280-kernel/PROCESS.C:446-470 | the signal is pending and the process not asleep, unless it ignores the signal or is no process; no other slot changes |
| Processes.Kernel.Chksigs | system/uzi280-kernel/PROCESS.C:399-430 | a signal with default action ends the process exactly when one is pending, and it is the smallest such number; of the caught signals below that number, or of all, the largest pending one is noted, and exactly these leave |
| Processes.LastCaughtIs | system/uzi280-kernel/PROCESS.C:399-430 | what is noted is the largest pending caught number, or what was noted before if there is none |
| Processes.Kernel.Reparent | system/uzi280-kernel/SCALL2.C:433-440 | exactly the children of the current process go to its parent |
| Processes.ExitKeeps | system/uzi280-kernel/SCALL2.C:430-446 | after exit nobody waits for an exited child, inherited ones included, and every process has a live parent or init |
| Processes.Kernel.Exit | system/uzi280-kernel/SCALL2.C:398-463 | the process is a zombie with its exit value, its children are its parent's, the parent is not asleep in wait; the table afterwards is exactly this, after the interrupts before the wakeup |
| Processes.Kernel.Psleep | system/uzi280-kernel/PROCESS.C:130-153 | the process sleeps on the event, or a pending signal ends it, with any interrupts in the window; the table afterwards is exactly this, and the invariant holds |
| Processes.Kernel.Preempt | system/uzi280-kernel/PROCESS.C:380-389 | the clock makes the process READY, or a pending signal ends it, with the table afterwards exactly this |
| Processes.Nearer | system/uzi280-kernel/PROCESS.C:192-204 | a selection of somebody else brings the cursor nearer to a READY process |
| Processes.BoundedWaiting | system/uzi280-kernel/PROCESS.C:186-216 | a process READY at every selection is passed over at most 29 times |
| Processes.Kernel.Getproc | system/uzi280-kernel/PROCESS.C:187-216 | what runs was READY, after the interrupts that came during the search and nothing else changed the table; it is the first READY one behind the cursor at each look, and one is picked within one pass of the table if some process is READY at the start of the selection or at this call; "extra running" is not reached |
| Processes.FewTries | system/uzi280-kernel/PROCESS.C:295-304 | each number in use blocks one try, so at most 30 are in vain |
| Processes.Kernel.NextPid | system/uzi280-kernel/PROCESS.C:295-304 | the first number behind the last one given, wrapping behind 32000, that nobody uses; the search ends |
| Processes.Kernel.PtabAlloc | system/uzi280-kernel/PROCESS.C:272-318 | the first empty slot, an image given up for it if need be, and the next free number; no other slot changes |
| Processes.Kernel.Fork | system/uzi280-kernel/PROCASM.C:190-290 | the child runs, with the signal settings of the current process, who is its parent and READY, and no other slot changes; it is refused exactly when no slot is empty and there is no image to give up |
| Processes.Kernel.HasChildren | system/uzi280-kernel/SCALL2.C:331-341 | whether there is a child, exited or not |
| Processes.Kernel.FindExited | system/uzi280-kernel/SCALL2.C:354-358 | the first exited child, or proof that there is none |
| Processes.Kernel.WaitTurn | system/uzi280-kernel/SCALL2.C:346-375 | a turn of wait ends the process exactly when a deadly signal is pending, else ends the call exactly when a signal is noted or caught, else collects the first exited child exactly when there is one, with its number and exit value, and else sleeps; in each case the table is exactly that |
| Processes.ReapKeeps | system/uzi280-kernel/SCALL2.C:356-371 | collecting a child keeps the invariant |
| Processes.Act | system/uzi280-kernel/PROCESS.C:130-216 | every step keeps the invariant, and does to the table, the cursor and the numbers what its operation states |
| Processes.Run | system/uzi280-kernel/PROCESS.C:130-216 | for any sequence of steps there is a chain of states, each the one before with its step, in each of which at most one process is RUNNING and none in P_WAIT has a P_ZOMBIE child; and bounded waiting over the whole run |
| ReceiveRing.InsertMissesPending | system/bios280/CHARIO.MAC:977-990 | an arriving character would land on the one not fetched yet exactly when the ring held 31, and then it is not stored |
| ReceiveRing.InsertKeeps | system/bios280/CHARIO.MAC:977-990 | accepting a character keeps the ring right at every instruction of the consumer |
| ReceiveRing.ExecuteKeeps | system/bios280/CHARIO.MAC:529-538 | so does every instruction, although the output pointer moves before the character is read |
| ReceiveRing.TakeKeeps | system/bios280/CHARIO.MAC:529-538 | the store of the output pointer takes the first character off, to be fetched later |
| ReceiveRing.AbsorbIsFifo | system/bios280/CHARIO.MAC:976-994 | taking the waiting characters in order, up to one that finds 31 in the ring, keeps deliveries, ring and log one sequence |
| ReceiveRing.StepIsFifo | system/bios280/CHARIO.MAC:529-538 | so does every instruction of the consumer |
| ReceiveRing.RightSubtrahend | system/bios280/CHARIO.MAC:961-975 | for each port and subtrahend: the data register is found, the port's own ring is found, and the way back to the line status is found, each exactly when the subtrahend is LSR - RHR |
| ReceiveRing.ShippedSubtrahend | system/bios280/CHARIO.MAC:961-975 | with ISR + RHR, as shipped, C is at the line control register, the ring is 3264 bytes behind the port's own, and the next line status is the next port's data register |
| ReceiveRing.TakesItsCharacter | system/bios280/CHARIO.MAC:946-964 | a pass takes the waiting character off its port exactly when the subtrahend is LSR - RHR |
| ReceiveRing.ShippedPass | system/bios280/CHARIO.MAC:946-994 | as shipped, a pass takes no character from any port and changes no ring |
| ReceiveRing.ShippedInput | system/bios280/CHARIO.MAC:946-994 | one input that shows it: a character on port 0 stays where it is and a byte behind the rings changes |
| ReceiveRing.RightPass | system/bios280/CHARIO.MAC:946-994 | with LSR - RHR a pass takes the character and stores it in the port's ring, or loses it when that is full, with C at the data register |
| ReceiveRing.PassKeeps | system/bios280/CHARIO.MAC:966-990 | for any port, such a pass appends to that port's queue and leaves the other rings alone |
| ReceiveRing.AstrayPass | system/bios280/CHARIO.MAC:946-994 | passes from the registers that an overflow leads to take no character off any port and touch none of the four rings |
| RingRuns.AbsorbLoses | system/bios280/CHARIO.MAC:976-994 | an interrupt loses a character of a port exactly when its ring and the chip hold more than 31 |
| RingRuns.NextPortLoses | system/bios280/CHARIO.MAC:906-922 | after an overflow of one of the first three ports the handler reads, and so drops, the first character that waits at the next port |
| RingRuns.NextPortRight | system/bios280/CHARIO.MAC:906-922 | for that port this is the service it wants exactly when no character waits there, or it is served with a full ring |
| RingRuns.PortServed | system/bios280/CHARIO.MAC:906-922 | up to the port behind the first overflow, a port is served as it wants exactly when no port before it overflows, or no character waits at it, or its ring is full |
| RingRuns.OverflowInput | system/bios280/CHARIO.MAC:906-922 | one input that shows it: 32 characters at port 0 and one at port 1, which is neither in its ring nor waiting afterwards |
| RingRuns.PassLines | system/bios280/CHARIO.MAC:946-994 | a pass for a port moves one character of that port from the chip to its queue, or loses it when it finds 31, and no other port changes |
| RingRuns.AstrayLines | system/bios280/CHARIO.MAC:946-994 | a pass that does not start at a port's line status changes no port |
| RingRuns.Machine.TtyMore | system/bios280/CHARIO.MAC:946-994 | the routine's instructions, for any subtrahend, do what the lemmas on a pass speak of |
| RingRuns.Machine.Turn | system/bios280/CHARIO.MAC:946-994 | with LSR - RHR, a pass for a port or astray |
| RingRuns.Machine.TtyInt | system/bios280/CHARIO.MAC:943-994 | with LSR - RHR, for a port: all waiting characters are taken in order, up to one that finds 31; one is lost, and C is not back at the status register, exactly when the ring and the chip held more than 31 |
| RingRuns.Machine.Visit | system/bios280/CHARIO.MAC:907-920 | one round of the handler's loop, from a status register or astray |
| RingRuns.Machine.QsInt | system/bios280/CHARIO.MAC:871-922 | the handler serves every port up to the first that overflows, drops a character of the next one, and leaves each port behind that alone, drops one of its characters, or serves it; it goes through all ports unless a routine entered astray does not end |
| RingRuns.Machine.Instruction | system/bios280/CHARIO.MAC:529-538 | each instruction of the consumer on memory and registers is a step of its port's queue, and no other port changes |
| RingRuns.Machine.TakeOther | system/bios280/CHARIO.MAC:525-538 | the consumer of another ring takes the oldest character |
| RingRuns.TakeIsFifo | system/bios280/CHARIO.MAC:525-538 | so what it got stays in order |
| RingRuns.RingIsFifo | system/bios280/CHARIO.MAC:513-538 | for every port and every interleaving of instructions, consumers, arrivals and interrupts: what was delivered, is on its way and in the ring is what was kept, in order; what was taken and waits is what arrived; a character is lost exactly when it finds 31 |
| RingRuns.Run | system/bios280/CHARIO.MAC:871-922 | the machine does what the four queues do, for every interleaving, up to the first interrupt that overflows one of the first three ports while serving it; that one does what QsInt states |
| InodeTable.Lookup.Scan | system/uzi280-kernel/FILESYS.C:258-276 | the slot of the inode if it is in the table, else a slot without references if there is one; where the next scan begins |
| InodeTable.Lookup.IOpen | system/uzi280-kernel/FILESYS.C:222-308 | one more reference on the slot of the inode, or nothing; nothing exactly if there is no number, a number out of range, no slot, or an inode in use that should be new or the other way round; one slot per inode at most; slots in use are not reused, and every inode stays as the kernel knows it |
| InodeTable.Lookup.IDeref | system/uzi280-kernel/FILESYS.C:839-892 | one reference less; without references an inode that is dirty or loses its blocks is written back, freed if it has no links, and any other is left as it is; slots can be used again at no loss |
| InodeTable.Lookup.FindMount | system/uzi280-kernel/FILESYS.C:206-208 | the first file system mounted on the inode, or none |
| InodeTable.Lookup.SrchMt | system/uzi280-kernel/FILESYS.C:199-213 | a reference on a mount point becomes one on the root of the first file system mounted there, if that can be opened; any other inode stays |
| InodeTable.Lookup.GoUp | system/uzi280-kernel/FILESYS.C:114-121 | a reference on a mounted root becomes one on the mount point, exactly when the second character of the name is a dot |
| InodeTable.Lookup.Component | system/uzi280-kernel/FILESYS.C:96-124 | one component: ENOTDIR, EPERM, or the references held are those on the directory searched and on what its entry leads to |
| InodeTable.NOpen | system/uzi280-kernel/FILESYS.C:53-143 | over any path and mount table the result is the inode where the walk along the path's components ends, and *parent the directory searched last; nothing is found, with ENOENT, ENOTDIR, EPERM or ENFILE, exactly where the walk stops or ends nowhere; exactly one reference more on the result and one on a parent given back, none elsewhere; no inode is freed or changed; *parent is not set if the path cannot be read; the panic is reached exactly when the inode it starts from has 88 or 89 references |
| InodeTable.ComponentsJoin | system/uzi280-kernel/FILESYS.C:88-126 | the components of a path are those in front of any slash and those behind it, so repeated, leading and trailing slashes do not matter |
| InodeTable.OneComponent | system/uzi280-kernel/FILESYS.C:125-126 | a name without slashes is one component |
| InodeTable.FollowBoth | system/uzi280-kernel/FILESYS.C:80-127 | a walk along two lists of components is the walk along the second from where the first ends |
| InodeTable.WalkJoin | system/uzi280-kernel/FILESYS.C:80-127 | looking up a/b is looking up b from where a leads, in the errors too |
| InodeTable.SearchedAsMeant | system/uzi280-kernel/FILESYS.C:113-121 | a name is searched for in the wrong directory exactly in the root of a mounted file system and with a dot in second place, unless it is `..` |
| TtyQueue.CharQueue.Insq | system/uzi280-kernel/DEVIO.C:415-437 | the character is the newest, or the queue is full and unchanged |
| TtyQueue.CharQueue.Remq | system/uzi280-kernel/DEVIO.C:440-459 | the oldest character, off the queue |
| TtyQueue.CharQueue.Uninsq | system/uzi280-kernel/DEVIO.C:476-494 | the newest character, off the queue |
| TtyQueue.CharQueue.Clrq | system/uzi280-kernel/DEVIO.C:462-471 | the queue is empty |
| TtyQueue.WindowShrinks | system/uzi280-kernel/DEVIO.C:440-494 | what a ring holds without its first and without its last place |
| TtyQueue.CompletedIs | system/uzi280-kernel/DEVTTY.C:572-584 | the completed lines end in a newline, and there is none behind them |
| TtyQueue.Terminal.EraseOne | system/uzi280-kernel/DEVTTY.C:556-569 | the last character goes, unless it is a newline |
| TtyQueue.Terminal.KillLine | system/uzi280-kernel/DEVTTY.C:572-585 | exactly what is behind the last newline goes |
| TtyQueue.Terminal.Tinproc | system/uzi280-kernel/DEVTTY.C:515-666 | the queue, signals, stop and flush flags, wakeups and echo after a typed character, in every mode |
| TtyQueue.EditsLine | system/uzi280-kernel/DEVTTY.C:515-590 | in cooked mode, by the character typed: erase takes at most one character and no newline, kill takes exactly what is behind the last newline, interrupt and quit take all, stop, start and flush take nothing, any other goes to the end if there is room |
| TtyQueue.ControlsAre | system/uzi280-kernel/DEVTTY.C:590-636 | by the character typed: which one sends which signal, and which set, clear or toggle the stop and flush flags |
| TtyQueue.EditKeepsLines | system/uzi280-kernel/DEVTTY.C:550-590 | no character but interrupt and quit touches a completed line |
| TtyQueue.Terminal.Take | system/uzi280-kernel/DEVTTY.C:256-266 | a reader takes the oldest character; completed lines stay completed |
| TtyQueue.Run | system/uzi280-kernel/DEVTTY.C:515-666 | over any typing and reading there is a chain of states, each the one before with its event: queue, what was read, flags, signals, wakeups and output; what was read and what was completed is never altered but by an interrupt or quit character |
| Fsck.ChildBelow | system/uzi280-xutils/FSCK2.C:378-479 | the subtrees of a directory's children are disjoint |
| Fsck.SeenMore | system/uzi280-xutils/FSCK2.C:468-473 | following one more entry adds the directories below it, none of them seen before |
| Fsck.SeenAll | system/uzi280-xutils/FSCK2.C:404-475 | when all entries are done every directory below has been seen once |
| Fsck.Checker.Ckdir | system/uzi280-xutils/FSCK2.C:378-479 | it ends on every graph of directories with the depth as before, unless a path overruns its buffer, which none does with names of at most 6 characters; if none does, on every graph, called for a directory from one that has an entry for it, or for the root from the root: only repairs were made, all in directories it saw; each of these is sound afterwards, with entries that name inodes in use, every `.` its own directory, every `..` one that has an entry for it (in the root, the root), and no slash in a name; and it saw every directory that a chain of entries within 20 levels leads to; in a tree of at most 20 levels it visits each directory once, repairs nothing and counts all its entries |
| Fsck.Checker.CheckEntry | system/uzi280-xutils/FSCK2.C:404-475 | on every graph the entry becomes its repaired form: cleared if it names an inode out of range or free, `.` naming the directory, `..` naming the one it is visited from, slashes in a name replaced; the inode that it named first is counted once; unless it then names another directory than these two, within the depth, nothing else changes; if it does, every directory that a chain leads to from there within 20 levels is reached |
| Fsck.MendedTwice | system/uzi280-xutils/FSCK2.C:404-475 | repairs after repairs are repairs: a directory visited again, from another one, has the entries that the last visit calls for |
| Fsck.SoundStays | system/uzi280-xutils/FSCK2.C:404-475 | no later repair, of this directory or another, makes an entry unsound |
| Fsck.FollowReaches | system/uzi280-xutils/FSCK2.C:468-473 | following an entry leads to the end of every chain of directories that goes on with what it names |
| Fsck.Checker.Pass4 | system/uzi280-xutils/FSCK2.C:366-373 | on a tree no path overruns exactly when all fit; then the count of every inode in use is the number of entries naming it, plus one for the root; on every graph, if no path overruns, every directory within 20 levels of the root is sound afterwards and all changes are repairs; the depth panic is not reached |
| Fsck.Checker.Mkentry | system/uzi280-xutils/FSCK2.C:563-580 | an entry in the first empty slot of the root, if there is one |
| Fsck.Checker.Pass5 | system/uzi280-xutils/FSCK2.C:484-557 | link counts become the counted numbers; useless detached inodes are freed and counted as free, the others get entries in the root; the linkmap panics are not reached |
| Fsck.EntriesAre | system/uzi280-xutils/FSCK2.C:563-580 | those inodes go to the empty slots of the root in their order, as many as there are slots, and no other entry changes |
| Fsck.Checker.Check | system/uzi280-xutils/FSCK2.C:366-557 | on a tree, exactly when its paths fit, every inode reached ends with the number of entries naming it as its link count |
| Fsck.ChainFits | system/uzi280-xutils/FSCK2.C:388-474 | trees within 20 levels whose paths do not fit: m directories one in the other under names of w characters fit exactly when m is 1 or w is below 14 and 1 + (m - 1)(w + 1) below 150 |
| Fsck.NewRootCount | system/uzi280-xutils/MKFS.C:122-126 | the two entries in the block that mkfs writes read back as "." and "..", and the link count of 3 is the one pass 5 computes |
| Blocks.WordAfterPut | system/uzi280-kernel/FILESYS.C:1057-1058 | a stored word reads back, and no other word changes |

## Left out

- Disk errors: after one, `bread` leaves a buffer tagged with a block it does not hold.
- Raw and swap transfers in `setup`, and transfers of several sectors.
- The floppy and character devices, `bmap`, `readi` and `writei` for device files, and `i_addr` of device inodes.
- Writing dirty inodes and superblocks in `_sync` and `wr_inode`'s layout: FileSystems keeps inodes and superblock in core.
- BufferPools.BufferPool.Bread: the identity of the buffer a busy block is wanted from is not modelled, because the panic is excluded by the caller's not holding the block.
- CowMemory: type-1 programs (`p_bintype` 1), whose pages fork counts twice and exit once; swapping, which is not compiled in; the modified, cache and age bits of page descriptors; the DMA copies between kernel and user space.
- CowMemory.Kernel.Execve: a program file is taken to have one content for each inode, device and creation time over a whole run (`load`, and `CowRuns.EventOk`); times go in steps of two seconds, so a file written again within a step is executed from the image of its old content. The release of the old pages of a process that was not just forked, which compares through sentinel pointers, is taken to release each page once; argument strings are bytes stored after loading; a full process table at `make_zombie` is an outcome instead of a store through a null pointer.
- Processes: process groups, terminals, times, priorities, and the file and directory references that fork and exit count; the P_FORKING state, which no other process can see because nothing gives up the processor in it; the child's processor times.
- Processes.Kernel.Getproc: the endless loop ends when the given interrupts do.
- Pipes: several processes sharing one end, whose offsets are copied before they sleep; closing the last end.
- InodeTable: the search inside a directory and the allocation of a new inode are given; directories do not name inode 0; permissions are one bit.
- TtyQueue: windows, the fast mode of the serial port, and the sleeping of readers and writers.
- RingRuns.PortServed: ports farther on than the one behind the first overflow, whose service depends on memory before and behind the rings; `RingRuns.Machine.QsInt` says what can become of them.
- RingRuns.Run: it ends with the first interrupt that goes astray; `ttyint` makes as many passes as given, at least 32, where the source has no limit; consumers of the other three rings take a character in one step.
- Fsck: passes 1 and 3, names that are not cleared behind their end, what happens after a path has overrun its buffer, directory sizes that are not multiples of 16, and the answer no; inode numbers behind the inode area are taken to be given like any others.
- MakeFs: the buffers under `dwrite`; FSCK.C, XFS.C and the copies of kernel code in the utilities.
- The optimiser OPTIMH.C, loaders, tools, tables and help texts: no part of the kernel's state.
