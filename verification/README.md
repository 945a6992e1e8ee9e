# EPOS: a verified model

This project models the parts of the EPOS teaching kernel whose correctness depends on many steps agreeing with one
another, and proves what they promise.

- **The TLSF allocator** (`TlsfMapping`, `TlsfLists`, `TlsfLayout`, `TlsfMemory`, `TlsfBits`, `TlsfIndex`,
  `TlsfCoalesce`, `TlsfPayload`, `TlsfBytes`, `Tlsf`, `TlsfCheck`).  Memory is a map from addresses to words; headers, flag bits, the
  previous-block words inside payloads, list links, the table of heads and both bitmaps are written in place, as the C
  code does.  A ghost layout of blocks and ghost lists say what the words mean.
- **The FAT driver** (`FatLayout`, `FatBits`, `FatFile`, `Dosfs`).  The disk is a sequence of sectors; a file is a chain of
  clusters and the bytes in them.
- **Threads, wait queues and semaphores** (`Threads`, `Tasks`).  `Threads` is a transition system whose steps are the
  sections that run with interrupts off; `Tasks` has the system calls on linked lists in memory, and each of them is
  proved to be one step.
- **Address zones and frames** (`Pages`, `Bitmap`, `Frames`), **sorting and copying** (`Qsort`, `Memcpy`), **64-bit division,
  fixed-point arithmetic and the timer** (`SoftFloat`, `FixedPoint`, `Timer`), **printing and parsing** (`Numerals`,
  `Printf`, `Strtol`, `PrintParse`).
- `Words` has the C operators on unsigned words, written out on natural numbers.

Arithmetic that can leave its width in C is written with its wrap-around, shown not to reach it, or kept from it by a
precondition that is listed below.  Steps of the kernel that run with interrupts off are atomic; sectors are read and
written without errors; the console, the clock and the hardware are not modelled.

Where the code and what one would expect of it differ, the model follows the code.  One member states exactly when they
agree, and another an input on which they do not:

- FAT12 entries: `FatLayout.StoredExactly`, `FatLayout.EndMarkLost`
- a write at the end of a chain that is exactly full, or to a file without a cluster: `FatFile.SectorInsideIff`,
  `FatFile.FullChainHitsTable` and `FatFile.EmptyFileHits`
- unlinking: `Dosfs.EndsIff`, `Dosfs.EmptyUnlinks`
- semaphore signals: `Threads.WakeupLostIff`, `Threads.LostWakeup`
- the idle thread: `Tasks.DispatchBest`, `Tasks.IdlesBesideRunnable`
- signed division: `SoftFloat.Divdi3` and `SoftFloat.Moddi3`, `SoftFloat.WrongSigns`
- zone bounds: `Pages.ChosenRightIff`, `Pages.HugeRightIff` and `Pages.AcceptedRightIff`, `Pages.WrappedRangeTaken` and
  `Pages.HugeRangeTaken`
- frames of different zones: `Frames.MemoryApartIff` and `Frames.InitApartIff`, `Frames.SameFrameTwice`
- freeing frames: `Frames.FreedRightIff`, `Frames.LostFrame` and `Frames.HandOutTwice`
- field widths: `PrintParse.WidthIff`, `PrintParse.OddFields`
- the largest request: `TlsfMapping.SearchInTableIff`, `TlsfMapping.SearchOutsideTable`
- the largest reallocation: `Tlsf.ResizedHoldsIff`, which has both

## Model

| member | source | states |
|---|---|---|
| TlsfMapping.FlsGeneric | lib/tlsf/tlsf.c:40-53 | the bisection with shifts gives one more than the index of the highest set bit of any 32-bit word, and 0 for zero |
| TlsfMapping.Fls | lib/tlsf/tlsf.c:60-63 | answers one less than the bit length of the word |
| TlsfMapping.Ffs | lib/tlsf/tlsf.c:55-58 | the highest bit of word & -word is the lowest set bit of the word; -1 for zero |
| TlsfMapping.AlignUpIsLeastMultiple | lib/tlsf/tlsf.c:356-360 | adding the alignment less one and masking gives the least multiple of the alignment not below the number |
| TlsfMapping.AlignDownIsGreatestMultiple | lib/tlsf/tlsf.c:362-366 | masking gives the greatest multiple of the alignment not above the number |
| TlsfMapping.RequestCovers | lib/tlsf/tlsf.c:380-391 | the adjusted request is 0 exactly for a request of nothing or at or above the size limit; otherwise it is a multiple of four, at least the minimum block, and covers the request |
| TlsfMapping.ClassInterval | lib/tlsf/tlsf.c:396-414 | a size lies between the floor of its class and the floor of the next one, so that every size has exactly one class |
| TlsfMapping.MappingMonotone | lib/tlsf/tlsf.c:396-414 | a larger size never has an earlier class |
| TlsfMapping.SearchedClassFits | lib/tlsf/tlsf.c:416-424 | every block whose class is at or after the class searched for a request is large enough for it |
| TlsfMapping.GoodFit | lib/tlsf/tlsf.c:416-424 | a block a thirty-second larger than the request lies in a class that is searched for it |
| TlsfMapping.SearchInTableIff | lib/tlsf/tlsf.c:416-424 | the searched class is inside the 24 by 32 table exactly for requests up to 2^30 - 2^24 |
| TlsfMapping.SearchOutsideTable | lib/tlsf/tlsf.c:416-424 | a request of 2^30 - 2^24 + 4 bytes is searched for in row 24, which the table does not have |
| TlsfMapping.MapInsert | lib/tlsf/tlsf.c:396-414 | computes the two indices with shifts and xor, and they are those of the size's class |
| TlsfMapping.MapSearch | lib/tlsf/tlsf.c:416-424 | rounds the size up to the next class before mapping it |
| Tlsf.Heap.SearchSuitableBlock | lib/tlsf/tlsf.c:426-457 | two masked bitmap searches find the head of the first nonempty list at or after the class, and answer nothing exactly when all of those lists are empty |
| Tlsf.Heap.RemoveFreeBlock | lib/tlsf/tlsf.c:459-486 | takes one block off its list; the links of that list in both directions, the table of heads and both levels of bitmaps again agree with the heap, and no payload word changes |
| Tlsf.Heap.InsertFreeBlock | lib/tlsf/tlsf.c:488-507 | puts a free block in front of the list of its class, with links, heads and bitmaps again in agreement with the heap |
| Tlsf.Heap.BlockRemove | lib/tlsf/tlsf.c:509-515 | takes a free block off the list that its size maps to |
| Tlsf.Heap.BlockInsert | lib/tlsf/tlsf.c:517-522 | puts a free block on the list that its size maps to |
| Tlsf.Heap.BlockSplit | lib/tlsf/tlsf.c:530-550 | the layout becomes the one with the block cut in two, encoded in the headers of both parts and of the block behind, without touching any other used block's payload |
| Tlsf.Heap.BlockAbsorb | lib/tlsf/tlsf.c:552-560 | the layout becomes the one in which the first of two neighbours has swallowed the second and its header |
| Tlsf.Heap.BlockMergePrev | lib/tlsf/tlsf.c:562-575 | a freed block merges with a free predecessor, after which its predecessor is used and no used block has changed |
| Tlsf.Heap.BlockMergeNext | lib/tlsf/tlsf.c:577-590 | a block merges with a free successor, after which its successor is used; what stays stale when the block itself is used is exactly the flag of the block behind |
| Tlsf.Heap.BlockTrimFree | lib/tlsf/tlsf.c:593-603 | splits the surplus off a free block and returns it to the lists |
| Tlsf.Heap.BlockTrimUsed | lib/tlsf/tlsf.c:606-618 | shrinks a used block when the surplus can be a block, merges the surplus with a free neighbour, and keeps the bytes that remain |
| Tlsf.Heap.BlockTrimFreeLeading | lib/tlsf/tlsf.c:620-634 | returns the front of a free block to the lists and keeps the rest, linked to its new free predecessor |
| Tlsf.Heap.BlockLocateFree | lib/tlsf/tlsf.c:636-654 | answers 0 exactly when no listed block has a class at or after the searched one; otherwise a free block large enough, taken off its list |
| Tlsf.Heap.BlockPrepareUsed | lib/tlsf/tlsf.c:656-667 | the block becomes used with at least the size asked for and less than 16 bytes more, and every other used block keeps its size and its words |
| Tlsf.Heap.constructor | lib/tlsf/tlsf.c:670-689 | the control structure of a new heap: every head points at the null block, both bitmaps are clear |
| Tlsf.Heap.AddPool | lib/tlsf/tlsf.c:853-900 | refuses a misaligned pool and, up to 2^32, exactly the sizes below 20 bytes or from 2^30 + 12 on; otherwise the pool, rounded down to words, is one free block of at least bytes - 11 and at most bytes - 8, listed, with a used sentinel of size zero at its end |
| Tlsf.Heap.Malloc | lib/tlsf/tlsf.c:988-994 | answers 0 exactly when no listed block has a class at or after the searched one, and then every free block is less than a thirty-second larger than the request; otherwise a new payload, aligned, of at least the adjusted request and less than 16 bytes more, disjoint from all that are held, and the free blocks lose exactly its bytes and one header word: the surplus is free again; every held payload keeps its words and the heap its invariant |
| Tlsf.NoneIsGood | lib/tlsf/tlsf.c:636-654 | where a search finds nothing, every free block is less than a thirty-second larger than the request |
| TlsfBytes.Conservation | lib/tlsf/tlsf.c:530-590 | the bytes of the free blocks and of the held ones, each with its header word, are together those of the pool, in every heap |
| Tlsf.AlignmentGap | lib/tlsf/tlsf.c:1013-1043 | the gap before the aligned address is empty or can be a block, and leaves the aligned block room for the request: the split always succeeds |
| Tlsf.Heap.Memalign | lib/tlsf/tlsf.c:996-1051 | as malloc, with the payload at a multiple of the alignment: the gap in front and the surplus behind are free again; 0 only if no free block is a thirty-second larger than the request with two alignments and a header |
| Tlsf.Heap.Free | lib/tlsf/tlsf.c:1053-1065 | exactly the freed payload is no longer held, and the free blocks gain exactly its bytes and one header word; free neighbours are merged on both sides, nothing held changes |
| Tlsf.Heap.Realloc | lib/tlsf/tlsf.c:1081-1137 | whether the payload shrinks, grows into its successor or moves, the first min(old size, request) bytes are those of the old payload, the new one is less than 16 bytes larger than the adjusted request, and the free blocks change by the difference of the two payloads; 0 exactly when it must move and nothing fits, and then nothing has changed |
| Tlsf.ResizedHoldsIff | lib/tlsf/tlsf.c:1101-1132 | a payload resized where it is holds the request exactly if that is below 2^30; from there on the request counts as one of zero bytes and the block is cut down to nothing |
| Tlsf.Heap.Store | lib/tlsf/tlsf.c:212-220 | user data starts directly after the size word, and a used block's last word is where its successor would keep a back pointer: the owner of a payload may write any of its words, and the heap stays valid with every other payload unchanged |
| Tlsf.Heap.GrowInPlace | lib/tlsf/tlsf.c:1122-1133 | absorbing a free successor and trimming keeps the payload where it is with its words |
| TlsfCheck.BlocksTile | lib/tlsf/tlsf.c:777-791 | walking from header to header visits every block once, in order, and the sizes with one header word each add up to the pool, in every layout |
| TlsfCheck.CheckPool | lib/tlsf/tlsf.c:805-813 | the integrity walk over the pool finds nothing wrong in any valid heap, and visits exactly the blocks of the layout |
| TlsfCheck.Check | lib/tlsf/tlsf.c:717-767 | every complaint that tlsf_check could raise about bitmaps, lists, neighbours, sizes and classes is ruled out by the heap invariant |
| Dosfs.Driver.GetFAT | kernel/dosfs.c:203-279 | reads the entry of a cluster on FAT12, FAT16 and FAT32, low byte first from its place in the first table (`FatLayout.EntryOnDisk` names the bytes), keeping `scratch holds the sector that the cache variable names` |
| Dosfs.Driver.GetFAT12 | kernel/dosfs.c:240-264 | twelve bits at one and a half bytes per entry, also across a sector boundary |
| Dosfs.Driver.SetFAT | kernel/dosfs.c:298-432 | patches the entry's bytes in both copies of the table and no other byte of the disk (`FatLayout.StoredOnDisk`), keeping the cache coherent |
| Dosfs.Driver.SetFAT12 | kernel/dosfs.c:337-406 | the masks and shifts of the FAT12 branch, also across a sector boundary, as the driver has them |
| FatLayout.SetEntryIsUpdate | kernel/dosfs.c:407-432 | on FAT16 and FAT32 the table is a map: setting an entry changes it to the masked value and no other; both copies of the touched sector are equal; the rest of the disk is unchanged |
| FatLayout.SetEntryStores | kernel/dosfs.c:298-432 | on every volume type exactly one entry changes, and nothing outside the two tables |
| FatLayout.StoredExactly | kernel/dosfs.c:337-406 | SetFAT stores the value it is given exactly when the volume is FAT16 or FAT32, or the FAT12 value is below sixteen (odd cluster) or its top and bottom nibbles agree (even cluster) |
| FatLayout.EndMarkLost | kernel/dosfs.c:1288-1295 | on FAT12 the end mark of a chain is never stored: what reads back is no end mark |
| FatLayout.SetEntry12IsUpdate | kernel/dosfs.c:337-406 | on FAT12 the neighbouring entries that share a byte are unchanged |
| FatLayout.ReservedBitsKept | kernel/dosfs.c:417-423 | the upper four bits of a FAT32 entry survive every update |
| FatLayout.Entry12InBytes | kernel/dosfs.c:240-264 | the twelve bits of an entry by their position in the two bytes from byte c + c / 2 of the table on |
| FatLayout.Entry16InBytes | kernel/dosfs.c:266-268 | the two bytes at 2c of the table are the low and the high byte of the entry |
| FatLayout.Entry32InBytes | kernel/dosfs.c:270-275 | the bytes at 4c of the table are those of the entry, low byte first, without the upper nibble of the fourth |
| FatLayout.SetEntry12InBytes | kernel/dosfs.c:337-406 | which nibbles of which bytes a FAT12 update changes, and to what, in both copies; no other byte of the table or the disk changes |
| FatLayout.SetEntry16InBytes | kernel/dosfs.c:407-409 | a FAT16 update stores the low byte at 2c and the high one behind it, in both copies, and changes nothing else |
| FatLayout.SetEntry32InBytes | kernel/dosfs.c:417-432 | a FAT32 update stores four bytes at 4c, low byte first, but for the upper nibble of the fourth, in both copies, and changes nothing else |
| FatFile.Table12OnDisk | kernel/dosfs.c:240-264 | the chain of clusters 2 and 3 in the bytes of a FAT12 table, and the bytes one below the end mark, which are no chain |
| FatFile.Table16OnDisk | kernel/dosfs.c:266-268 | the same on FAT16 |
| FatFile.Table32OnDisk | kernel/dosfs.c:270-275 | the same on FAT32 |
| Dosfs.Driver.GetFreeFAT | kernel/dosfs.c:470-484 | the least free cluster in [2, numclusters), or the bad-cluster mark exactly when every entry there is taken |
| Dosfs.ChainHasNoFree | kernel/dosfs.c:470-484 | a free cluster is on no chain |
| Dosfs.ChainExtends | kernel/dosfs.c:1273-1297 | linking a free cluster behind the last one and marking it as the end gives the chain with that cluster appended, and touches nothing but the table |
| FatFile.ByteDivisions | kernel/dosfs.c:948-951 | the driver's division by the cluster size is division by the sector size and then by the sectors per cluster |
| FatFile.ByteOnDisk | kernel/dosfs.c:948-951 | byte k of a file is byte k % 512 of sector dataarea + (c - 2) * secperclus + k / 512 % secperclus, with c the cluster at position k / 512 / secperclus of the chain |
| FatFile.PositionedAt | kernel/dosfs.c:1002-1025 | a handle stands in the cluster that holds the byte at its pointer, and behind the last byte of a full chain at an end mark |
| FatFile.HandleSector | kernel/dosfs.c:948-951 | the sector computed from the handle is the one that holds the pointer's byte |
| FatFile.SectorInsideIff | kernel/dosfs.c:1164-1167 | exactly when the 32-bit sector computed from the handle lies in the data area: unless the pointer stands at the end of a chain that is exactly full, or the file has no cluster; for every end mark that can be read from a table and every cluster size, also where the product wraps around |
| FatFile.FullChainHitsTable | kernel/dosfs.c:1164-1167 | a file that fills its one cluster of sixteen sectors, ended by the driver's own mark: the sector computed at its end is one of the second copy of the table |
| FatFile.EmptyFileHits | kernel/dosfs.c:1164-1167 | for a file without a cluster the computed sector is one of the second copy of the table on a FAT32 volume, and one of the root directory on a FAT16 volume |
| FatFile.HomeInjective | kernel/dosfs.c:948-951 | different sectors of a file lie in different sectors of the disk |
| Dosfs.Driver.StepCluster | kernel/dosfs.c:1013-1026 | when the pointer crosses a cluster boundary the handle moves to the next cluster of the chain, or to the end mark if the chain is exactly used up |
| Dosfs.Driver.ReadFile | kernel/dosfs.c:931-1029 | returns exactly content[pointer .. pointer + min(len, filelen - pointer)], leaves the rest of the buffer alone, and the handle stays positioned; an empty file need not have a cluster |
| Dosfs.Driver.Seek | kernel/dosfs.c:1037-1104 | from any pointer, forwards or backwards, ends at min(offset, filelen) with the cluster that many links along the chain, one cached sector serving all steps |
| Dosfs.Driver.WriteChunk | kernel/dosfs.c:1169-1255 | one sector of the file changes, by the bytes written and no others up to the old length |
| Dosfs.Driver.ExtendCluster | kernel/dosfs.c:1257-1298 | after a cluster boundary the handle is at the next cluster, linked on if need be; failure means that no cluster is free and changes nothing |
| Dosfs.Driver.WriteFile | kernel/dosfs.c:1147-1311 | on success every byte of the file is the old one or, from the pointer on, the one written, the length is the maximum, and bytes 28 to 31 of the directory entry are that length, low byte first, every other byte of its sector the old one; if the disk fills up, what was written before is there and the directory sector is unchanged; the chain only grows, by clusters that were free; everything else on the disk is unchanged |
| Dosfs.OtherFilesUntouched | kernel/dosfs.c:1147-1311 | every other file keeps its links and every byte across a write, since the clusters linked on were on no chain |
| Dosfs.Driver.UpdateDirectory | kernel/dosfs.c:1301-1309 | bytes 28 to 31 of the directory entry are the length, low byte first, and no other byte of its sector changes |
| Dosfs.Driver.FreeChain | kernel/dosfs.c:1127-1137 | on every table on which the loop ends within n turns, makes of the disk what those turns make of it, with one cached sector shared by the reads and the writes |
| Dosfs.RunEnds | kernel/dosfs.c:1127-1137 | on a chain the loop ends, and zeroes exactly that chain's entries |
| Dosfs.EndsIff | kernel/dosfs.c:1127-1137 | on a table whose entries are marks or name entries, exactly when the loop ends: unless it comes to entry 0 and finds it clear |
| Dosfs.StuckRepeats | kernel/dosfs.c:1127-1137 | there it repeats its own state: it stays at entry 0, and no entry changes any more |
| Dosfs.EmptyUnlinks | kernel/dosfs.c:1110-1139 | for a file without a cluster the loop ends if entry 0 is a mark, and has then cleared it, so that it does not end for the next such file |
| Dosfs.Driver.UnlinkFile | kernel/dosfs.c:1110-1139 | marks the directory entry deleted and frees the chain; every other entry and sector keeps its contents, except that for a file without a cluster the table's entry 0 is cleared |
| FatFile.OtherFileKept | kernel/dosfs.c:1110-1139 | a chain that shares no cluster with the one worked on keeps its links and bytes |
| Threads.StepInv | kernel/task.c:88-296 | every step of the thread system keeps the invariant: one task list, each sleeper with exactly one node in exactly one queue, waiters of a thread awake exactly if it has exited, semaphores in balance, a ready thread running |
| Threads.RunInv | kernel/task.c:88-296 | the invariant holds after every interleaving of system calls, wake-ups and scheduling decisions |
| Threads.SemaphoreSafety | kernel/sem.c:35-61 | in every interleaving value = initial value + signals - waits, the waits let through never exceed the initial value and the signals, and at least as many threads wait as the semaphore is in debt |
| Threads.WakeupLostIff | kernel/sem.c:49-61 | exactly when a signal loses a wake-up: when the head of the queue is awake already and has only not run yet |
| Threads.LostWakeup | kernel/sem.c:49-61 | a run in which two signals hit the same head, and the other sleeper stays asleep with the semaphore out of debt |
| Threads.RemovedOnlyAsZombie | kernel/task.c:261-296 | a control block goes away only if its thread has exited and nobody else is queued for it |
| Threads.RemovedExactly | kernel/task.c:261-296 | exactly when a step removes a thread: when it has exited, the step is a wait for it or the return from one, and nobody else is queued for it; it is then off the task list too |
| Threads.NeverAgain | kernel/task.c:187-232 | a control block that has gone never comes back, in any run: it is freed at most once |
| Threads.ZombieForever | kernel/task.c:238-253 | an exited thread stays a zombie with its exit code until it is removed |
| Threads.WaiterSeesCode | kernel/task.c:261-296 | whoever slept for a thread's exit finds its control block still there when it runs again, with the code that thread exited with, in every run after the exit |
| Threads.ExitDoes | kernel/task.c:238-253 | the thread is a zombie with the code, all that are queued for it are ready, and no other thread changes |
| Threads.TaskWaitDoes | kernel/task.c:261-284 | a wait for a living thread goes to sleep in front of its queue; one for a zombie changes nothing or, if nobody is queued, removes it |
| Threads.ResumeDoes | kernel/task.c:88-115 | a thread that runs again after its sleep leaves its queue, whose others keep their order, and no other thread changes |
| Threads.SemWaitDoes | kernel/sem.c:37-46 | a wait lowers the value; below zero the caller sleeps in front of the queue |
| Threads.SemSignalDoes | kernel/sem.c:49-61 | a signal raises the value, and makes the head of the queue ready while it is not positive |
| Threads.ResumeSemDoes | kernel/sem.c:37-46 | a thread that returns from a semaphore has one more wait granted, and no thread goes |
| Threads.CountIs | kernel/sem.c:37-61 | the sleepers that the semaphore account counts are the threads of its queue in that state, as a set |
| Tasks.Kernel.Enqueue | kernel/task.c:88-96 | links the caller's node in front of the queue, in place, and marks it waiting |
| Tasks.Kernel.Unlink | kernel/task.c:99-112 | unlinks the caller's own node, wherever in the queue it is, and no other |
| Tasks.Kernel.WakeUp | kernel/task.c:121-127 | marks the first n threads ready, or all for a negative n, and leaves every node where it is |
| Tasks.Kernel.AddTask | kernel/task.c:129-143 | appends to the task list |
| Tasks.Kernel.RemoveTask | kernel/task.c:145-165 | takes exactly one task out of the list |
| Tasks.Kernel.GetTask | kernel/task.c:167-180 | finds a thread's control block exactly if it is on the list |
| Tasks.Kernel.Schedule | kernel/task.c:35-81 | recomputes every priority and switches to the thread that the selection picks: none that has used four ticks more of the processor than a runnable one of the same niceness, unless it is the idle thread |
| Tasks.LessUsedFirst | kernel/task.c:35-81 | the selection neither keeps nor picks a thread while one that is as nice could run and has used four ticks less |
| Tasks.DispatchTies | kernel/task.c:58-75 | among equal priorities the running thread keeps the processor, and otherwise the first on the task list gets it |
| Tasks.DispatchBest | kernel/task.c:35-81 | the scheduler never picks a waiting thread or a zombie; it picks the idle thread while another could run exactly when the thread giving up the processor was not ready and no runnable one exceeds its priority; otherwise its pick has the highest priority of all that could run |
| Tasks.IdlesBesideRunnable | kernel/task.c:35-81 | a run from boot at whose end the idle thread is picked while another thread is ready: two threads with equal priorities, and the running one goes to sleep |
| Tasks.Kernel.SysTaskCreate | kernel/task.c:187-232 | fails for a misaligned stack or no memory; otherwise is the creation step, on the linked lists |
| Tasks.Kernel.SysTaskExit | kernel/task.c:238-253 | is the exit step: wakes every waiter, becomes a zombie, and switches to the thread the selection picks |
| Tasks.Kernel.SysTaskWait | kernel/task.c:261-284 | fails for the idle thread and for a missing one; returns a zombie's code, and removes it from memory and from the task list exactly if nobody is queued; otherwise goes to sleep and switches to the thread the selection picks: exactly the waiting step |
| Tasks.Kernel.ResumeCall | kernel/task.c:279-296 | the second half of a sleeping call: unlinks the node, returns the exit code, and removes the thread from memory and from the task list exactly if nobody else is queued for it |
| Tasks.Kernel.SysTaskYield | kernel/task.c:313-319 | is the scheduling step |
| Tasks.Kernel.SysSemCreate | kernel/sem.c:11-23 | is the step that adds a semaphore with the given value |
| Tasks.Kernel.SysSemWait | kernel/sem.c:35-47 | fails for an unknown semaphore; otherwise lowers the value and passes, or sleeps if it is below zero and switches to the thread the selection picks: exactly the waiting step |
| Tasks.Kernel.SysSemSignal | kernel/sem.c:49-61 | fails for an unknown semaphore; otherwise raises the value and wakes the head of the queue if it is still not positive |
| Tasks.Kernel.AddSemaphore | kernel/sem.c:65-80 | appends to the semaphore list |
| Tasks.Kernel.GetSemaphore | kernel/sem.c:82-91 | finds a semaphore exactly if it is on the list |
| SoftFloat.Udivmoddi4 | lib/softfloat.c:4-36 | shift-subtract division: num = quot * den + rem with rem < den for all 64-bit numbers with den > 0 |
| SoftFloat.Unique | lib/softfloat.c:4-36 | that pair is the only one, the quotient and remainder of mathematical division |
| SoftFloat.Divdi3 | lib/softfloat.c:38-56 | truncates toward zero exactly unless the minimum is divided by -1, and wraps then |
| SoftFloat.Moddi3 | lib/softfloat.c:58-77 | has the right magnitude always, and C's sign exactly when the divisor is positive or divides the dividend |
| SoftFloat.WrongSigns | lib/softfloat.c:38-77 | 7 % -2 comes out as -1 instead of 1, and the smallest number divided by -1 as itself |
| SoftFloat.QuotientBySigns | lib/softfloat.c:38-56 | the four combinations of signs: the quotient rounds toward zero |
| SoftFloat.RemainderBySigns | lib/softfloat.c:58-76 | the four combinations of signs: C's remainder has the dividend's sign, the library's is negative exactly where the quotient is |
| SoftFloat.Congruent | lib/softfloat.c:37-77 | a conversion to 64 bits differs from the number by a multiple of 2^64, and is the only signed 64-bit number that does |
| SoftFloat.Udivdi3 | lib/softfloat.c:79-82 | is the mathematical quotient |
| SoftFloat.Umoddi3 | lib/softfloat.c:84-90 | is the mathematical remainder |
| FixedPoint.FixedDiv | kernel/fixedptc.h:134-138 | fixed-point division by way of the library division gives the truncated quotient of the scaled dividend |
| FixedPoint.PriorityFalls | kernel/task.c:55-59 | more recent CPU use or more niceness never raises a thread's priority |
| FixedPoint.PriorityIs | kernel/task.c:54 | the priority is 127 less one for every four ticks of recent CPU use and less two for every step of niceness |
| FixedPoint.FourTicksCost | kernel/task.c:54 | four ticks more of the processor cost at least one step of priority |
| FixedPoint.RawUnits | kernel/fixedptc.h:103-137 | in raw units of which 256 make one: the product is rounded down by eight bits, and the quotient of numbers that are not negative is rounded down |
| Timer.TimerState.IsrTimer | kernel/timer.c:32-73 | the handler's updates of the tick counter, the estimates, the load average, the time slice and the reschedule flag are those of the tick step, sums and products wrapping to 32 bits |
| Timer.OneTick | kernel/timer.c:43-70 | a tick charges the running thread 256 units and one tick of its slice of four, which starts again, with a switch requested, when it is used up; nothing else changes |
| Timer.IdleTick | kernel/timer.c:37-42 | the idle thread is not charged: a tick only asks for a switch |
| Timer.OneSecond | kernel/timer.c:45-62 | each second every estimate e becomes e * w plus the niceness, with the weight w = 2l / (2l + 1) of the load average l, of which 251 parts in 256 remain, and each ready thread adds four |
| Timer.ReadyIs | kernel/timer.c:46-51 | the loop counts the ready threads |
| Timer.TickKeeps | kernel/timer.c:32-73 | one interrupt keeps the bounds on the load average, on every estimate of CPU use and on every time slice |
| Timer.RunBounds | kernel/timer.c:32-73 | on every run on which each HZ-th tick finds a busy processor the load average stays between zero and the largest number of threads, and every estimate below 2^23 raw units |
| Pages.AddressSpace.constructor | kernel/page.c:57-66 | the kernel image is the first zone of the kernel half, the user half is empty |
| Pages.AddressSpace.PageAllocInAddr | kernel/page.c:72-131 | for every address and size grants exactly what its 32-bit comparisons accept, and inserts it; where the range does not run past 2^32 that is exactly a legal range that meets no zone of its half, and both lists stay sorted, disjoint and inside their halves |
| Pages.LegalIs | kernel/page.c:72-101 | a range is legal exactly if it is whole pages between 4 megabytes and 0xbfc00000, or from there up to 0xfffff000 |
| Pages.AcceptedRightIff | kernel/page.c:72-112 | exactly when a call decides rightly, for every page count: unless the range runs past 2^32 and is granted all the same, which for a size below 2^32 means that it begins at a page of its half that no zone holds |
| Pages.AddressSpace.PageAlloc | kernel/page.c:135-193 | for every size answers what its loop and its final check choose; unless the range is taken wrongly, that is the lowest address after the half's first zone at which the range is free, or the error value exactly if there is none, and the lists stay sorted, disjoint and inside their halves |
| Pages.ChosenRightIff | kernel/page.c:149-175 | exactly when a call for less than 2^32 bytes decides rightly: unless the range fits nowhere in the half and, behind some zone inside the half, runs past 2^32 |
| Pages.RightIs | kernel/page.c:149-175 | what the right answer is, in addresses: the least one behind the first zone from which as many bytes below the top of the half are in no zone, or 0xffffffff if there is none |
| Pages.HugeRightIff | kernel/page.c:135-175 | a call for 2^32 bytes or more decides rightly exactly if its answer is the error value |
| Pages.CheckDecidesIff | kernel/page.c:163-175 | exactly when the final bounds check alone decides rightly: unless the 32-bit sum wraps around to a small number |
| Pages.WrappedRangeTaken | kernel/page.c:135-175 | one page is left below the end of the kernel half, and two are asked for: both calls grant them |
| Pages.HugeRangeTaken | kernel/page.c:72-175 | 2^32 bytes are granted as none, and a page more than 2^32 as one page |
| Pages.AddressSpace.PageFree | kernel/page.c:199-229 | succeeds exactly if a zone other than the kernel image has that address and size, and removes it and no other |
| Pages.AddressSpace.PageProt | kernel/page.c:235-256 | is the protection of the address in the list of its half, or -1 |
| Pages.InsertProtects | kernel/page.c:114-130 | taking a range gives its pages their protection and changes no other page's |
| Pages.DeleteUnprotects | kernel/page.c:214-224 | releasing a range unmaps its pages and changes no other page's |
| Bitmap.BitSet.Mark | kernel/bitmap.c:163-176 | the or with a one-bit mask sets one element of the boolean sequence and no other |
| Bitmap.BitSet.Reset | kernel/bitmap.c:180-193 | the and with the complement clears one element and no other |
| Bitmap.BitSet.Test | kernel/bitmap.c:216-222 | reads that element |
| Bitmap.BitSet.SetMultiple | kernel/bitmap.c:236-247 | sets exactly the run |
| Bitmap.BitSet.CountBits | kernel/bitmap.c:251-265 | counts the elements of the run with that value |
| Bitmap.CountIs | kernel/bitmap.c:252-264 | the count is the number of elements of the run that have the value |
| Bitmap.BitSet.Contains | kernel/bitmap.c:269-282 | is false exactly if the whole run has the opposite value |
| Bitmap.BitSet.Scan | kernel/bitmap.c:314-329 | the least start of a run of the value at or after the given place, or the error value exactly if there is none |
| Bitmap.BitSet.ScanAndFlip | kernel/bitmap.c:338-345 | flips exactly the first such run |
| Frames.FrameAllocator.FrameAlloc | kernel/frame.c:90-111 | takes the first run of clear frames of the first zone that has one, and fails exactly when none has; outstanding runs never share a frame of a zone, and exactly their frames are marked |
| Frames.MemoryApartIff | kernel/frame.c:29-111 | runs that do not overlap in the bitmaps have no address in common, exactly if the bitmaps of different zones stand for disjoint memory |
| Frames.FrameAllocator.OutstandingApart | kernel/frame.c:90-111 | then no two outstanding runs have an address in common |
| Frames.SpanOverruns | kernel/frame.c:37-52 | the bitmap that init_frame makes reaches as far past the end of its zone as the bitmap's own pages are long |
| Frames.BitmapSize | kernel/frame.c:37-52 | a bitmap takes the fewest whole pages that hold eight bytes and one word for each 32 frames of the range |
| Frames.InitApartIff | kernel/frame.c:37-52 | two ranges of memory become zones whose bitmaps stand for disjoint memory exactly if the gap between them and the second bitmap are together no smaller than the first bitmap |
| Frames.SameFrameTwice | kernel/frame.c:37-52 | 256 megabytes of memory with 16 more behind them: two runs of different zones that are the same frame |
| Frames.FrameAllocator.FrameAllocInAddr | kernel/frame.c:64-84 | succeeds exactly if the address lies in a zone and all of the frames from it on are clear |
| Frames.FrameAllocator.FrameFree | kernel/frame.c:116-137 | for every address and length clears exactly the frames from the one on that the search of the zones finds, and no others; an outstanding run is given back if it starts below its zone's limit; otherwise it stays marked, and the account of outstanding runs is broken exactly if a marked frame is cleared in its place |
| Frames.FreedRightIff | kernel/frame.c:116-137 | freeing an outstanding run by its address clears exactly its frames, exactly if it starts below its zone's limit; otherwise all of its frames stay marked |
| Frames.NotFound | kernel/frame.c:37-52 | the last frames of every zone that init_frame makes, as many as its bitmap has pages, are not below the limit, so that there always are such runs |
| Frames.LostFrame | kernel/frame.c:116-137 | with 16 megabytes of memory the last frame is handed out, and stays marked when it is freed |
| Frames.OtherZoneCleared | kernel/frame.c:116-137 | on the memory of SameFrameTwice freeing a frame of the first zone clears the first frame of the second |
| Frames.HandOutTwice | kernel/frame.c:90-137 | a run of correct calls on that memory, after which one frame of one zone has been handed out twice |
| Frames.HandOut | kernel/frame.c:99-104 | a run of clear frames shares none with any outstanding run |
| Frames.TakeBack | kernel/frame.c:126-132 | clearing an outstanding run leaves exactly the frames of the others marked |
| Qsort.Qsort | userapp/lib/qsort.c:120-198 | for any total preorder the range ends up sorted and a permutation of what it was, and nothing outside it changes |
| Qsort.Partition | userapp/lib/qsort.c:149-175 | equal elements at both ends, smaller ones left of pb, greater ones right of pc, with pb just past pc; nothing has moved if swap_cnt stays zero |
| Qsort.Gather | userapp/lib/qsort.c:184-188 | the two vecswaps bring the equal elements to the middle: smaller, equal, greater |
| Qsort.VecSwap | userapp/lib/qsort.c:110 | exchanges two runs element by element |
| Qsort.InsertionSort | userapp/lib/qsort.c:129-135 | sorts the range by exchanging neighbours |
| Qsort.Med3IsMedian | userapp/lib/qsort.c:112-118 | med3 names a median of the three elements |
| Qsort.Advance | userapp/lib/qsort.c:189-196 | after the smaller elements have been sorted only the greater ones remain: the loop replaces the second recursion |
| Memcpy.Memcpy | lib/memcpy.c:315-346 | for every length and all alignments the destination holds the source's bytes and no other byte of memory changes |
| Memcpy.MergedIsUnaligned | lib/memcpy.c:176-181 | shifting two neighbouring words together gives the word that starts 1, 2 or 3 bytes into the first |
| Memcpy.CopyShift | lib/memcpy.c:261-297 | copies from a source that is aligned unlike the destination, through words read ahead |
| Memcpy.CopyNoShift | lib/memcpy.c:225-257 | copies whole words with peeled and unrolled loops, and then the rest |
| Memcpy.CopyRemaining | lib/memcpy.c:208-223 | copies up to seven bytes by a switch that falls through |
| Printf.FmtInt | lib/snprintf.c:441-529 | writes the number with sign, zeros, digits and spaces for every 32-bit width and precision and every flag, cut off at the end of the buffer; the width left for the padding is computed modulo 2^32 |
| Printf.PutAllText | lib/snprintf.c:707-711 | what is appended is a prefix of the text, cut off at the limit; nothing else in the buffer changes |
| PrintParse.Sides | lib/snprintf.c:482-529 | with the first flag the text is sign, zeros, digits and then spaces, and without it the spaces come first and it ends with the digits; the fifth flag leaves no spaces; digits above nine are letters, capital exactly with the sixth flag |
| PrintParse.SignIs | lib/snprintf.c:457-469 | which sign: none for an unsigned number, a minus sign for a negative one, otherwise a plus sign, a space or nothing by the flags |
| PrintParse.NumberShown | lib/snprintf.c:455-462 | the number shown is the low 32 bits of an unsigned number and the distance from zero of a signed one |
| PrintParse.Printed | lib/snprintf.c:441-529 | 42, -42 and 255 in six formats, character by character |
| Printf.Convert | lib/snprintf.c:474-481 | the digits, least significant first; eleven suffice |
| Numerals.ValueOfDigits | lib/snprintf.c:474-481 | reading the digits of a number back gives the number |
| PrintParse.DigitByDigit | userapp/lib/stdlib.c:345-365 | what a sequence of digits stands for, digit by digit |
| Strtol.Strtol | userapp/lib/stdlib.c:291-375 | blanks, tabs and newlines, sign, prefix and the longest run of digits; the value is clamped to the range of a long, and the end is where the digits stop, or the start if there are none |
| Strtol.Strtoul | userapp/lib/stdlib.c:383-446 | the same for unsigned numbers, a minus sign negating modulo 2^32 |
| Strtol.CarriageReturnStops | userapp/lib/stdlib.c:274-277 | a carriage return is no white space here: the parse ends before it has begun |
| PrintParse.Reads | userapp/lib/stdlib.c:291-446 | the general law of strtol and strtoul: after white space, a sign and a prefix the longest run of digits is read in the base that the caller or, for base 0, the prefix or its lack tells; the value is clamped to the range, a minus sign negates it, and the end is behind the last digit |
| PrintParse.DigitValues | userapp/lib/stdlib.c:350-356 | the values of the ten digits and of the letters of either case |
| PrintParse.ReadsNothing | userapp/lib/stdlib.c:291-446 | without a digit the value is zero and the end is the beginning |
| PrintParse.ReadAloud | userapp/lib/stdlib.c:291-446 | three strings with their values, one of them in the bases 0 and 10 |
| Strtol.Cutoff | userapp/lib/stdlib.c:345-365 | the cutoff test with its last digit is exact: it fires exactly when one more digit would pass the limit |
| PrintParse.SignedRoundTrip | userapp/lib/stdlib.c:291-375 | every signed 32-bit number, LONG_MIN included, printed with any width, precision and flags, is read back by strtol in base 10 |
| PrintParse.UnsignedRoundTrip | userapp/lib/stdlib.c:383-446 | every 32-bit number printed unsigned in base 8, 10 or 16 is read back by strtoul in that base |
| PrintParse.WidthIff | lib/snprintf.c:482-493 | exactly when the text is as wide as asked for: unless zero padding meets a precision that adds zeros and a larger minimum, which then share their zeros, or the width left for the padding wraps around to more than the precision adds |
| PrintParse.OddFields | lib/snprintf.c:482-493 | 0 in a zero-padded field of five with three digits is three wide, and -1 in a field of width -2^31 is 2^31 wide |
| PrintParse.BufferRoundTrip | lib/snprintf.c:441-529 | the same from the buffer, whenever the text and its terminator fit |

## Left out

- Tlsf.Heap.Malloc: does not model requests whose rounded-up size passes 2^30 - 2^24; from there on the code reads outside its table (`TlsfMapping.SearchInTableIff`).
- Tlsf.Heap.BlockLocateFree: the same limit.
- Tlsf.Heap.Memalign: the same limit holds for the request with its alignment gap.
- Tlsf.Heap.Realloc: resizing a payload to 2^30 bytes or more leaves the code with a block of size zero (`Tlsf.ResizedHoldsIff`), and is not modelled further; the limit of Malloc holds when the payload has to move.
- Tlsf.Heap.AddPool: a pool of exactly 2^30 bytes is accepted by the code but its class lies outside the table; the pool lies above the control structure, as the kernel's does; a heap has one pool, and removing pools is not modelled.
- Tlsf.Heap.FormatPool: the free block is listed after the sentinel has been written, where the code lists it before; the two do not touch the same words.
- TLSF's walkers' output and `test_ffs_fls` only print or compare constants.
- Dosfs.Driver.WriteFile: FAT16 and FAT32 only, because on FAT12 a chain cannot be ended (`FatLayout.EndMarkLost`); a write does not start at the end of a chain that is exactly full, nor in a file without a cluster, from where the driver computes a sector outside the data area, possibly inside the table (`FatFile.SectorInsideIff`, `FatFile.FullChainHitsTable`, `FatFile.EmptyFileHits`; a successful write never leaves the pointer at such an end); file positions stay below 2^31.
- Dosfs.Driver.ReadFile: file lengths stay below 2^31, since the code's `div` takes signed numbers.
- Dosfs.Driver.Seek: the cluster looked for is one of the file's first 65536, the width of `endcluster`; positions below 2^31.
- Dosfs.Driver.UnlinkFile: the file's directory entry and first cluster are known; finding them by path is not modelled.  For a file without a cluster the table's entry 0 is an end or bad-cluster mark; where it is clear the code does not come back (`Dosfs.EmptyUnlinks`).
- Dosfs.Driver.GetFreeFAT: the two highest clusters are never searched, as in the code; that they may be free is not claimed otherwise.
- Media errors of the FAT driver: after a failed write its cache is incoherent.  Uninitialised cache variables of the driver count as 0, and the first table is not at sector 0.
- DFS_GetVolInfo, directory enumeration, opening and creating files, and path names.
- Threads: destroying a semaphore, and liveness of semaphores, which the code does not give (`Threads.LostWakeup`).
- Threads.StepInv: taking the number of a new thread is part of the step that adds it, and taking the number of a new semaphore and adding it to the list are one step, although the code does these with interrupts on; the value of a semaphore is unbounded; the idle thread neither waits nor exits.
- Tasks.Kernel.SysTaskExit: not called by the idle thread, whose control block is never freed.
- Tasks.Kernel.SysTaskWait: not called by the idle thread.
- Tasks.Kernel.SysSemWait: the idle thread does not go to sleep on a semaphore.
- Tasks: the overflow check of kernel stacks, the FPU owner, stack contents and the switch itself; getpriority and setpriority only read and range-check one field.
- Timer.TimerState.IsrTimer: a load average of -1/2 would divide by zero, which raises a hardware fault; `Timer.RunBounds` keeps it from being negative.
- Timer.RunBounds: on runs where some HZ-th tick finds the idle thread no decay happens, and the bound is not claimed.
- Pages.AddressSpace.PageAlloc: memory for a zone is there; page tables are not modelled.
- Frames.FrameAllocator.constructor: init_frame sizes the bitmap before it takes the bitmap's own pages off the zone, so a bitmap has more bits than its zone has frames (`Frames.SpanOverruns`); that frames lie below the zone's limit is therefore not claimed, and that frames of different zones are different memory only as far as `Frames.InitApartIff` goes.
- Frames.FrameAllocator.FrameAllocInAddr: the run must not pass the end of the zone's bitmap, which the code does not check.
- Frames.FrameAllocator.FrameFree: frames counted past the end of the bitmap of the zone found are cleared in memory that is not part of this model.
- Bitmap: bitmap_flip, bitmap_all and the file functions.
- Qsort.Qsort: elements are exchanged whole; the width of the words used for the exchange, and the size of an element, do not appear.
- Memcpy.Memcpy: the little-endian 32-bit indexed configuration, and areas that do not overlap.
- Printf.FmtInt: bases 8 to 16; the format string and the floating-point conversions are not modelled.  Where the width left for the padding leaves its 32 bits, C leaves the result open; the model has it wrap around.
- SoftFloat.Udivmoddi4: a divisor of zero raises the hardware fault that the code intends.
- Device drivers, loaders, graphics, paging setup, floating-point functions and the user-space allocator.
