# A verified model of a small block file system

The repository implements a file server on a 16 MB disk held in memory: 32768 blocks of 512 bytes that carry a
free-block bitmap, a packed table of 1024 inodes and data blocks. An inode has eight direct pointers and one
indirect block, so a file has at most 136 blocks. This project models that file system as written, bit by bit,
together with the lock that guards each inode, the bounded queue of the RPC layer and the container codecs.

## What is proved

**The disk refines a map from inode numbers to files.** `FileOps` gives every operation as a total function on
disk images; memory the code reads before writing it (stack buffers, the tail of `final_indirect_block`, entries past
an indirect block) is an arbitrary parameter. `Ownership.Inv` is the invariant: every allocated data block belongs to
exactly one slot of one live inode, and unused pointers are null. `Refinement.SystemRefines` is the main theorem: from
the constructor on, over every finite sequence of good calls, each call returns and changes exactly what the same
operation on the map does. `Good` is a condition on the map alone, so a caller can check it.

**The good domain is exact.** The code does not work for every size; the laws the code is meant to obey fail, and the
failures are characterised.

- `Exactness.WriteExact`: a write works, whatever uninitialised memory held, *if and only if* it is good. Good means:
  the size is not in 4097..4607; the write does not give up direct blocks or the indirect section; a shrink inside the
  indirect section does not end in a shorter last block; a growth by one block past 4096 does not either; and the disk
  has room.
- `RemoveExactness.RemoveExact`: a remove works if and only if the size is at most 4096 or not a multiple of 512 (or
  the file is the only one on the disk and its type has two bits or more, so that the stray free finds nothing to damage).
- `Corollaries.CreateExact`: inode allocation works if and only if an inode is free and the type is nonzero in 16 bits.
- `Twins.TwinsArise`: every twin of the disk right after a good write to a file is left behind by the same write with
  another content of its buffer. So both theorems also hold without twins, for the next call on that file:
  `Twins.SecondWriteExact`, `Twins.RemoveAfterWriteExact`.
- `Counterexamples` and `Exhaustion` give small failing runs from a formatted disk for each of the size conditions, for
  a full disk and for a full inode table.
- `LostData` gives failures that a caller can see: a file that reads back as another one, and a byte that is lost.
- `Isolation` says what the bad writes do *not* harm. `OthersUntouched`: on a full disk, with a misplaced ninth block or
  with stale pointers left behind, no other file changes; only a stray entry that is taken for a block (a short growth),
  or that is freed although it lies past the disk (a short shrink), can do that. `WriteTakesEffect`: with room and
  without a misplaced block, the file itself reads back as written, even if the disk is inconsistent afterwards.

"Whatever uninitialised memory held" covers both the buffers of the call and what an earlier write left in the entries
of an indirect block past the end of the file; disks that differ only in such entries are called twins.

**The imperative code meets the functions.** `FileSystem` has the classes `Disk`, `BlockLayer` and `InodeLayer` with
the loops and counters of the source; every method is proved equal to its function on images. What these functions
mean on the disk is stated down to the bit: which bit `alloc_block` and `free_block` change (`Bitmap.AllocSetsOneBit`,
`Bitmap.FreeClearsOneBit`) and where each field of an inode lies (`InodeTable.RecordLayout`).

**Calls are atomic.** `Accesses` cuts `read_file` and `write_file` into single disk accesses; `Atomicity`
runs any number of threads under the lock of `locks.h`, statement by statement, and shows that the completed calls take
effect one after another and that every read returns the whole buffer of the last completed write.
For calls on several inodes at once, `Concurrency` gives every inode its own lock. `Serializability.SerialExact`: as long
as no allocation fails, every run takes effect one call after another on the map of files *if and only if* the called
files have their records in different table blocks. One half is by rely and guarantee (`Sharing`, `Interleaving`): a
call depends on its own table block and its own blocks only. The other half is a run of two reads on any two files that
share a table block, in which an access time is lost.

**Calls complete.** Safety alone would allow a call that never returns. `Accesses.AloneIsDenotation`: a measure falls
with every access, so a call ends, on the disk and with the reply of the whole operation. `Atomicity.CallCompletes` and
`Completion.CallCompletes`: in every state of every run in which the lock of an inode is free, any idle thread can enter,
make every access, answer and leave by its own steps, while calls on other inodes stay where they are.

**The lock is a mutex.** `RwLock` proves that the lock never lets two threads in, readers or writers: its mutex
stays locked from enter to exit, so its wait loops and broadcasts are never reached. A thread that calls enter while the
mutex is free does get in, and nobody gets past the critical section without having been in it.

**The queue loses no wakeup and tells the truth** (`Fifo`): what was enqueued is what the calls that answered true had
brought, in order. **Container codecs compose** (`Codec`), and their wire format is fixed.

Where the code and its stated intent disagree, the model follows the code: the lock is meant to let readers share and
does not; `write_file` is meant to take any size up to the maximum and does not; `remove_file` is meant to free the
blocks of the file only, and for some sizes frees one more; `alloc_inode` overwrites inode 0 when no inode is free.

## Layout of the project

| file | contents |
|---|---|
| `Layout`, `DiskImage`, `Bitmap`, `InodeTable` | geometry, words and blocks, the bitmap as a set, the inode table |
| `FileOps` | the operations on images |
| `Ownership`, `Files`, `Conservation` | the invariant, the map of files, counting blocks |
| `WriteLoop`, `WriteProof`, `ReadRemove` | one iteration, the whole write, read / remove / alloc |
| `Refinement`, `Corollaries` | whole runs; round trip, isolation, restoration |
| `Exactness`, `RemoveExactness`, `Twins`, `Isolation` | the exact domains, and what lies outside them |
| `Counterexamples`, `Exhaustion`, `LostData` | failing runs |
| `FileSystem` | the imperative classes |
| `RwLock`, `Accesses`, `Atomicity` | the lock, and concurrent calls on one inode |
| `Sharing`, `Interleaving`, `Concurrency`, `Serializability`, `Completion` | concurrent calls on several inodes |
| `Fifo`, `Codec` | the queue and the codecs |

## Model

| member | source | states |
|---|---|---|
| `Layout.Geometry` | inode_layer.h:8-84 | the constants of the model are the values of the macros, with a 56-byte inode |
| `Layout.RegionsDisjoint` | inode_layer.h:53-60 | bitmap blocks are 1..8, inode blocks 9..122, so neither overlaps the other or the data area |
| `Layout.InodePlaceInjective` | inode_layer.h:54-66 | block and place in the block determine the inode number |
| `Layout.Places` | inode_layer.h:53-60 | each bitmap block holds 4096 consecutive bits and each table block nine consecutive inodes |
| `DiskImage.LittleEndian` | inode_layer.cc:89-92 | the first byte of a word is its least significant one |
| `Bitmap.BitIsDigit` | inode_layer.cc:116-162 | bit k of a bitmap byte is its binary digit k |
| `Bitmap.FreeClearsOneBit` | inode_layer.cc:141-166 | freeing any 32-bit id clears the bit at that position counted from block 1, if it lies on the disk, and changes no other bit of the disk |
| `Bitmap.AllocSetsOneBit` | inode_layer.cc:100-139 | allocation sets the bit at the position of the id it returns, none if it returns -1, and changes no other bit of the disk |
| `Bitmap.FreeRefinesRemove` | inode_layer.cc:141-166 | freeing an id removes exactly that id from the allocated set, moves no other bit and touches no block past the bitmap |
| `Bitmap.AllocRefinesLeastFree` | inode_layer.cc:100-139 | allocation returns the least free id in 123..32767 and adds only it, or -1 exactly when none is free |
| `Bitmap.FullMeansAllUsed` | inode_layer.cc:109-137 | at most 32645 blocks are allocated, and that many exactly when no id is free |
| `InodeTable.RecordLayout` | inode_layer.h:77-84 | put_inode stores the fields in the order of the struct at record i % 9 of block 9 + i / 9 and changes no other word of the disk; out of range it changes none |
| `InodeTable.PutThenGet` | inode_layer.cc:46-93 | get after put yields the stored inode, nothing if its type is 0, and the old result for every other number |
| `InodeTable.PutRefinesUpdate` | inode_layer.cc:75-93 | put changes one record of the table, no allocation bit and no data block |
| `FileOps.TwosComplement` | inode_layer.cc:197-283 | an unsigned size assigned to an int keeps its value modulo 2^32; the id for "no block" is -1 |
| `WriteLoop.SlotAgreement` | inode_layer.cc:215-301 | writer and reader classify every block alike as direct or indirect if and only if the size is not in 4097..4607 |
| `WriteLoop.ReuseDecision` | inode_layer.cc:305-352 | growing past 4096, iteration k allocates precisely when the old file lacks block k, except at the last block of a short growth |
| `WriteLoop.ShrinkAccounting` | inode_layer.cc:377-389 | the trailing loop frees the right number of entries, or one more; the right number if and only if the old last block is not longer |
| `WriteLoop.IndirectFlag` | inode_layer.cc:303-391 | the indirect block is written back exactly when some iteration was indirect, which is exactly for sizes from 4608 on |
| `WriteLoop.StepKind` | inode_layer.cc:291-365 | while the decisions are right, k and the old block count alone tell which of the loop's branches runs |
| `WriteProof.RunningStep` | inode_layer.cc:289-373 | one iteration keeps the loop invariant: ownership, allocation count, untouched files, and the chunks placed so far |
| `WriteProof.RunningUpTo` | inode_layer.cc:272-373 | the loop invariant holds after any number of iterations |
| `WriteProof.FinishRuns` | inode_layer.cc:375-399 | the frees after the loop and the write-back leave exactly the blocks of the new file and every chunk readable |
| `WriteProof.GoodWriteCorrect` | inode_layer.cc:244-407 | a good write keeps the invariant, gives the inode the new bytes and keeps owners and contents of all other blocks |
| `ReadRemove.ReadsInRange` | inode_layer.cc:173-242 | on any disk, consistent or not, a read returns the bytes of a file whose blocks are in range |
| `ReadRemove.ReadReturns` | inode_layer.cc:173-242 | a read returns size and bytes of the file and stores the access time, whatever its buffers held |
| `ReadRemove.ReadKeeps` | inode_layer.cc:192-194 | a read changes nothing but the access time |
| `ReadRemove.GoodRemoveCorrect` | inode_layer.cc:433-475 | a good remove frees exactly the file's blocks, ends the inode and keeps every other file |
| `ReadRemove.FreshInodeIsLeast` | inode_layer.cc:19-39 | the number picked is the least free one |
| `ReadRemove.CreateKeeps` | inode_layer.cc:30-39 | a fresh inode owns nothing, so no block changes owner |
| `ReadRemove.CreateFiles` | inode_layer.cc:30-39 | allocation adds one empty file with the given type and times and changes no other |
| `Conservation.BlocksConserved` | inode_layer.cc:100-475 | the number of allocated blocks is the number the files call for, indirect blocks included |
| `Conservation.InvIsExclusiveOwnership` | inode_layer.cc:100-475 | the invariant says exactly: blocks in range, no block used twice, allocated if and only if used, unused pointers null |
| `Refinement.CreateRefines` | inode_layer.cc:9-42 | a good alloc_inode returns the least free number and does what the map operation says |
| `Refinement.WriteRefines` | inode_layer.cc:244-407 | a good write_file, and any refused one, does what the map operation says |
| `Refinement.ReadRefines` | inode_layer.cc:173-242 | read_file returns and changes what the map operation says |
| `Refinement.StatRefines` | inode_layer.cc:495-507 | getattr reports type, size and times of the file |
| `Refinement.RemoveRefines` | inode_layer.cc:433-475 | a good remove_file, and one of a missing inode, does what the map operation says |
| `Refinement.StepRefines` | inode_layer.cc:9-507 | every good operation on a consistent disk keeps it consistent and commutes with its meaning |
| `Refinement.RunRefines` | inode_layer.cc:9-507 | every finite sequence of good operations on a consistent disk returns and leaves exactly what the map operations say; none crashes |
| `Refinement.FormatCorrect` | inode_layer.cc:485-523 | the constructor gets number 0 for the root and leaves a consistent disk with one empty directory |
| `Refinement.SystemRefines` | inode_layer.cc:9-523 | from the constructor's state, every good run returns and leaves exactly what the same run on the map of files does |
| `Corollaries.WriteThenRead` | inode_layer.cc:173-407 | after a good write, read_file returns exactly the bytes written |
| `Corollaries.WriteIsolated` | inode_layer.cc:244-407 | a good write leaves what read_file and getattr report of every other inode unchanged |
| `Corollaries.RemoveIsolated` | inode_layer.cc:433-475 | a good remove leaves what read_file and getattr report of every other inode unchanged |
| `Corollaries.CreateWriteRemove` | inode_layer.cc:9-475 | allocating, writing once and removing restores the allocated set and the files |
| `Corollaries.StatReports` | inode_layer.cc:495-507 | getattr reports size, times and type of the file, the type extended from a signed 16-bit number; nothing for a missing one |
| `Corollaries.CreateThenStat` | inode_layer.cc:9-507 | after alloc_inode, getattr of the new number reports the given type, no bytes and the times of the call |
| `Corollaries.WriteThenStat` | inode_layer.cc:244-507 | after a good write, getattr reports the new size and all else as before |
| `Corollaries.CreateWhenFull` | inode_layer.cc:19-39 | with every inode in use, alloc_inode answers 0 and replaces file 0 by an empty file of the new type, or by none; the other files stay |
| `Corollaries.CreateExact` | inode_layer.cc:19-39 | alloc_inode works if and only if some inode is free and the stored type is nonzero |
| `Corollaries.RootNotReissued` | inode_layer.cc:9-493 | in every good run, number 0 is not handed out before it is removed |
| `Exactness.StaleBreaks` | inode_layer.cc:272-275 | giving up direct blocks or the indirect section always leaves a pointer to a freed block |
| `Exactness.MisplacedBreaks` | inode_layer.cc:291-299 | sizes 4097..4607 always break the invariant |
| `Exactness.ShortShrinkBreaks` | inode_layer.cc:377-389 | a short shrink can free the indirect block that the file keeps |
| `Exactness.ShortGrowthBreaks` | inode_layer.cc:328-350 | a short growth can take a null entry for the last block |
| `Exactness.NoRoomBreaks` | inode_layer.cc:296-334 | a write that does not fit on the disk breaks the invariant |
| `Exactness.WriteExact` | inode_layer.cc:244-407 | a write works for every twin disk and all buffer contents if and only if it is good |
| `Isolation.OthersUntouched` | inode_layer.cc:244-407 | every write that mistakes no stray entry, with room or without, leaves every other file as it was, and gives its own file the new size and the old type and times |
| `Isolation.OthersLookTheSame` | inode_layer.cc:244-407 | after such a write, read_file and getattr report the same of every other inode as before |
| `Isolation.NoRoomIsolated` | inode_layer.cc:296-334 | a write that runs out of room leaves every other file as it was, and what callers see of it |
| `Isolation.FullStep` | inode_layer.cc:291-334 | an iteration that needs a block when there is none changes nothing on the disk and records -1 |
| `Isolation.WriteTakesEffect` | inode_layer.cc:244-407 | every write with room that misplaces no block and mistakes no stray entry gives its file the new bytes, which read_file returns, even where it leaves the disk inconsistent |
| `Isolation.DirectAccounting` | inode_layer.cc:272-399 | a write of at most 4096 bytes gives back the old direct blocks and the indirect block, but none of the blocks behind it |
| `RemoveExactness.StrayRemove` | inode_layer.cc:433-475 | a remove of the other sizes, while the stray entry is a block of the disk, deletes that file only and gives back its blocks and the stray one |
| `RemoveExactness.LoneRemoveWorks` | inode_layer.cc:446-470 | the stray free cannot harm the last file of a disk unless it erases its type |
| `RemoveExactness.RemoveExact` | inode_layer.cc:433-475 | a remove works for every twin disk and all buffer contents if and only if the size is at most 4096 or not a multiple of 512, or the file is the only one and its type has two bits or more |
| `Counterexamples.NinthBlock` | inode_layer.cc:289-301 | writing 4097 bytes to the root of a formatted disk breaks the invariant |
| `Counterexamples.DirectShrink` | inode_layer.cc:272-299 | writing one byte and then none to the root of a formatted disk breaks the invariant |
| `Counterexamples.LeaveIndirect` | inode_layer.cc:397-403 | writing 4608 and then 4096 bytes there leaves a pointer to the freed indirect block and breaks the invariant |
| `Counterexamples.ShortShrink` | inode_layer.cc:377-389 | writing 5120 and then 4609 bytes there breaks it, for some buffer contents of the two writes |
| `Counterexamples.ShortGrowth` | inode_layer.cc:328-350 | writing 5120 and then 5121 bytes there breaks it, for some buffer contents of the two writes |
| `Counterexamples.FullBlocksRemove` | inode_layer.cc:453-466 | writing 4608 bytes to the root of a formatted disk and removing it fails, for some buffer contents of the two calls |
| `Exhaustion.FullTable` | inode_layer.cc:19-39 | 1023 good calls of alloc_inode use up the numbers; the next call hands out number 0 and replaces the root directory by an empty file of the new type, or by none |
| `Exhaustion.FullDisk` | inode_layer.cc:296-334 | 238 largest files are a good run; writing one more of that size breaks the invariant and changes no other file |
| `LostData.StolenBlock` | inode_layer.cc:272-299 | after one block and then no bytes for the root, a run of otherwise good calls makes file 1 read back as file 2 |
| `LostData.NinthByteLost` | inode_layer.cc:205-301 | 4097 bytes ending in a value of 132 or more read back with 0 at the end, when the data buffer was zero |
| `Twins.TwinsArise` | inode_layer.cc:281-393 | every twin of a disk after a good write is the disk after the same write with another content of final_indirect_block |
| `Twins.SecondWriteExact` | inode_layer.cc:244-407 | after a good write, a second one works for all uninitialised memory of both if and only if the sizes fit and there is room |
| `Twins.RemoveAfterWriteExact` | inode_layer.cc:244-475 | after a good write, a remove works for all uninitialised memory of both if and only if the size suits it, or there is nothing to damage |
| `FileSystem.Disk.constructor` | inode_layer.cc:540-543 | a zeroed disk |
| `FileSystem.Disk.ReadBlock` | inode_layer.cc:545-554 | returns the block, or what the buffer held if the id is past the end |
| `FileSystem.Disk.WriteBlock` | inode_layer.cc:556-565 | the block holds the buffer afterwards and every other block is as it was; past the end every block is as it was |
| `FileSystem.BlockLayer.AllocBlock` | inode_layer.cc:100-139 | the scan finds what `Bitmap.AllocBlock` says and flips its bit |
| `FileSystem.BlockLayer.FreeBlock` | inode_layer.cc:141-166 | clears the bit as `Bitmap.FreeBlock` says |
| `FileSystem.InodeLayer.constructor` | inode_layer.cc:485-493 | the formatted disk |
| `FileSystem.InodeLayer.GetInode` | inode_layer.cc:46-73 | reads the record; none for type 0 or a number out of range |
| `FileSystem.InodeLayer.PutInode` | inode_layer.cc:75-93 | read-modify-write of the table block |
| `FileSystem.InodeLayer.AllocInode` | inode_layer.cc:9-42 | the scan over 1024 inodes is the function of `FileOps` |
| `FileSystem.InodeLayer.ReadFile` | inode_layer.cc:173-242 | the read loop is the function of `FileOps` |
| `FileSystem.InodeLayer.WriteData` | inode_layer.cc:277-373 | the write loop with its lagging counter is `WriteUpTo`; also what the flag and the index are at its end |
| `FileSystem.InodeLayer.FinishWriting` | inode_layer.cc:375-399 | what follows the loop is `FinishWrite` |
| `FileSystem.InodeLayer.WriteFile` | inode_layer.cc:244-407 | write_file is the function of `FileOps`; a negative size changes nothing |
| `FileSystem.InodeLayer.FreeInode` | inode_layer.cc:414-429 | marks the inode free, or crashes on a missing one |
| `FileSystem.InodeLayer.RemoveFile` | inode_layer.cc:433-475 | remove_file is the function of `FileOps` |
| `FileSystem.InodeLayer.GetAttr` | inode_layer.cc:495-507 | getattr is the function of `FileOps`, whose answer `Corollaries.StatReports` describes |
| `RwLock.StepKeepsInv` | locks.h:41-86 | every statement of any thread keeps: one holder at most, nobody on a condition variable, every counter fixed by the holder's position |
| `RwLock.MutualExclusion` | locks.h:41-86 | at most one thread, reader or writer, is inside; with the mutex free, the active and waiting-writer counters are 0 |
| `RwLock.NobodyWaits` | locks.h:44-82 | no thread reaches a condition wait; neither signal nor broadcast is ever sent |
| `RwLock.WaitingReadersDrifts` | locks.h:47-47 | waitingReaders is minus the number of completed reader entries |
| `RwLock.RefinesMutex` | locks.h:41-86 | the lock simulates a plain mutex step by step |
| `RwLock.Progress` | locks.h:41-86 | some thread that is not idle can step whenever there is one |
| `RwLock.ReaderEnters` | locks.h:41-50 | whenever the mutex is free, a thread that calls reader_enter or is at its first statement gets inside by its own steps, with activeReaders at 1 and waitingReaders one lower |
| `RwLock.WriterEnters` | locks.h:62-72 | likewise for writer_enter, with activeWriters at 1 and no writer waiting |
| `RwLock.Leaves` | locks.h:52-86 | a thread inside gets out by its own steps and leaves the mutex free and the active counters at 0 |
| `RwLock.PassedInside` | locks.h:41-86 | a thread at a statement of exit was inside before, as a reader or a writer accordingly, and has held the mutex ever since |
| `Accesses.AccessNearer` | inode_layer.cc:173-407 | every access of an unfinished call lowers a measure |
| `Accesses.AloneIsDenotation` | inode_layer.cc:173-407 | access by access, a call from any of its states ends on the disk and with the reply that the rest of the whole operation gives |
| `Accesses.AccessKeepsDenotation` | inode_layer.cc:173-407 | each single disk access leaves unchanged what the rest of the call will do if it runs alone |
| `Atomicity.StepKeepsInv` | locks.h:41-86 | every step of any thread keeps the disk on course from where the completed calls lead |
| `Atomicity.CallsAreAtomic` | locks.h:41-86 | in every interleaving, replies and (between calls) the disk are those of the completed calls run one after another |
| `Atomicity.ReadsAreWhole` | inode_layer.cc:173-407 | every completed read returned the whole buffer of the last completed write before it, or the initial contents |
| `Atomicity.CallCompletes` | inode_layer.cc:173-407 | in every run state with the lock free, an idle thread can carry out any read or write by its own steps, with the reply and the disk of the whole operation |
| `Interleaving.TaskStill` | inode_layer.cc:173-407 | a call under way is not disturbed as long as its table block and its own blocks stay as they are |
| `Interleaving.AccessAdvances` | inode_layer.cc:173-407 | each access of a call, if it does not allocate or finds a free block, leads to a state of the same call, takes only free blocks, gives back only its own, and touches nothing of others |
| `Concurrency.StepKeepsInv` | locks.h:41-86 | with a lock for each inode, every step of any thread keeps all files and all calls under way in order |
| `Concurrency.CallsAreSerial` | inode_layer.cc:173-407 | in every interleaving in which the called files are in different table blocks and no allocation fails, replies and (at rest) files are those of the completed calls one after another |
| `Concurrency.ReadsAreCurrent` | inode_layer.cc:173-407 | every completed read returned the whole buffer of the last completed write to the same inode before it, or its initial contents |
| `Serializability.SharedBlockBreaks` | inode_layer.cc:89-194 | on any disk, for any two called files that share a table block, there is a run of two reads after which the files are not what the reads mean |
| `Serializability.SerialExact` | inode_layer.cc:75-407 | on a consistent disk, every run over the called numbers is serial if and only if the files among them have their records in different table blocks |
| `Completion.CallFinishes` | inode_layer.cc:173-407 | in every run, a call under way on one of several inodes completes by its own steps if the disk has the blocks it may still need, and disturbs no other call |
| `Completion.CallCompletes` | inode_layer.cc:173-407 | in every run state with the lock of an inode free, an idle thread can carry out any read, or any write whose sizes fit and whose blocks are free; the answer is serial |
| `Fifo.StepKeepsInv` | rpc/fifo.h:56-92 | every step keeps mutual exclusion, the capacity, the history of values and the wakeup counts |
| `Fifo.BoundedFifo` | rpc/fifo.h:56-92 | never over capacity; values enqueued are values dequeued followed by the queue |
| `Fifo.AnswersAreTrue` | rpc/fifo.h:56-92 | with the mutex free, the values enqueued are those of the calls that answered true, in order, and the values dequeued are those handed out; a call answered false exactly if it was non-blocking and found the queue full |
| `Fifo.EnqCompletes` | rpc/fifo.h:56-72 | enq runs to its end by its own steps unless it must wait, and answers whether there was space |
| `Fifo.DeqCompletes` | rpc/fifo.h:74-92 | deq on a non-empty queue runs to its end by its own steps and hands out the front |
| `Fifo.WaitersCovered` | rpc/fifo.h:56-92 | with the mutex free: if a dequeuer waits, the queue is no longer than the runnable dequeuers are many; likewise space and enqueuers |
| `Fifo.NoStrandedDequeuer` | rpc/fifo.h:74-92 | a dequeuer waiting on a non-empty queue always has another one awake that can go on at once |
| `Fifo.NoStrandedEnqueuer` | rpc/fifo.h:56-72 | an enqueuer waiting although there is space always has another one awake that can go on at once |
| `Codec.VectorRoundTrip` | rpc/marshall.h:211-231 | decoding an encoded vector returns it and the bytes after it |
| `Codec.VectorLawful` | rpc/marshall.h:211-231 | a lawful element codec makes a lawful vector codec |
| `Codec.MapRoundTrip` | rpc/marshall.h:233-259 | decoding an encoded map, into any map, returns it and the bytes after it |
| `Codec.MapExact` | rpc/marshall.h:233-259 | a map survives the round trip if and only if its size fits 32 bits |
| `Codec.MapLawful` | rpc/marshall.h:233-259 | lawful key and value codecs make a lawful map codec |
| `Codec.VectorWire` | rpc/marshall.h:211-218 | an encoded vector is its count followed by its elements in order |
| `Codec.MapWire` | rpc/marshall.h:233-243 | an encoded map is its count followed by its pairs in key order, key before value |
| `Codec.RepeatedKeys` | rpc/marshall.h:245-259 | of pairs with the same key in a message, the last one counts |
| `Codec.Marshall.PutVector` | rpc/marshall.h:211-218 | the loop appends the encoding |
| `Codec.Marshall.PutMap` | rpc/marshall.h:233-243 | the loop appends the encoding, in iteration order |
| `Codec.Unmarshall.GetVector` | rpc/marshall.h:220-231 | the loop appends the decoded elements to the target and advances past them |
| `Codec.Unmarshall.GetMap` | rpc/marshall.h:245-259 | the loop replaces the target by the decoded map and advances past it |

## Left out

- fs_client.cc, fs_server.cc, rpc/rpc.h and the connection, polling and thread pool headers: forwarding and sockets, or declarations without bodies.
- old_stuff.cc: an abandoned draft that is not compiled.
- Locking in the classes of `FileSystem`: they are sequential; the locks are in `RwLock` and `Atomicity`.
- Clocks: `time(0)` is a parameter of every operation that stores a time.
- `printf`, `usleep`, `malloc`, `free` and the checks for null buffers: no effect on the disk.
- FileSystem.Disk.ReadBlock: block id 32768, which the guard admits by mistake, reads memory outside the disk; the model returns arbitrary bytes. On consistent disks good operations never use it.
- FileSystem.Disk.WriteBlock: on block id 32768, which the guard admits by mistake, no block of the disk changes; what the store does to other memory is not modelled.
- FileSystem.InodeLayer.ReadFile: an inode number of 1024 or more is excluded, because the code indexes the array of locks with it before checking it; the same holds for `InodeLayer.WriteFile`.
- FileSystem.InodeLayer.WriteFile: the caller's buffer must hold at least `size` bytes, as the code assumes.
- Entries of an indirect block past its 128th word, which the code may read, are arbitrary.
- Other byte orders and struct layouts: the model has little-endian words and a two-byte type followed by two bytes of padding.
- Isolation.OthersUntouched: a short growth, which writes to a stray entry, and a short shrink that frees a stray entry past the disk are excluded; they can change other files.
- Isolation.WriteTakesEffect: what a write without room, or with a misplaced ninth block, leaves in its own file is not stated beyond its size.
- Concurrent calls on different inodes that share a table block: `put_inode` is an unlocked read-modify-write, and calls are not atomic there (`Serializability.SharedBlockBreaks`).
- Concurrency.CallsAreSerial: calls of alloc_inode, getattr and remove_file, which take no lock, are not among the concurrent calls; runs in which alloc_block fails are excluded, and writes must fit the size their file has when they obtain the lock.
- Accesses.AccessKeepsDenotation: allocating or freeing a block, which the code does under the bitmap mutex, counts as one access; the initialisation of that mutex is not modelled.
- RwLock.WaitingReadersDrifts: counters are unbounded integers; the wrap-around of waitingReaders after 2^31 entries is not modelled.
- RwLock.Progress: no fairness is assumed, so a particular thread gets in only if it is scheduled while the mutex is free (`RwLock.ReaderEnters`, `RwLock.WriterEnters`).
- Completion.CallCompletes: a write is assured of completing while one block for each block of its data, and one more, is free, although reuse may make fewer suffice.
- Fifo.NoStrandedDequeuer: `fifo::size`, construction and destruction are not modelled.
- Codec.VectorRoundTrip: vectors of 2^32 elements or more are excluded; the 32-bit loop index of the encoder never reaches their size.
- Primitive `pack` and `unpack` routines: element codecs are parameters with a round-trip law; the error flag for short input is not modelled.
- Superblock fields: they are kept in memory only and never read back.
