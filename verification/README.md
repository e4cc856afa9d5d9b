# A verified model of the kernel's allocators, page tables, streams and scheduler

The project models four parts of a small SMP kernel and proves what they promise. Each part has
specifications on plain values, classes whose methods have the program's own form and are proved
against those specifications, and run theorems about every reachable state.

**The buddy heap** (`kernel/kmalloc.c`, `kernel/memory.c`). `Dyadic` has the geometry of aligned
power-of-two blocks, `FreeBlocks` the set of free blocks with putting back, merging and taking.
`Chains` threads sixteen chains by index through one array of 4092 nodes, and `Kmalloc` is the
allocator over that array: scans, splices, the mutual recursion of `list_put` and `list_clean`, and
the splitting recursion of `list_get`. `HeapStates` adds live blocks and the frontier, `PoolBound`
counts the nodes needed, and `KernelHeap` is `mem_alloc`, `mem_free`, `kmalloc`, `kfree` and `kbrk`.
Free blocks are in canonical form, which makes frees commute and lets a free undo an allocation.

**Paging** (`kernel/palloc.c`, `kernel/paging.c`, `kernel/process.c`, `kernel/entry.s`). `Bits` and
`Palloc` refine word and bit operations to a set of frames. `PageTables` defines the two-level walk
of section 4.3 ("32-Bit Paging") of the Intel SDM, Volume 3A; `Paging` edits tables only through
virtual addresses that this walk translates, as the kernel does. `Isolation` and `Processes` prove
what cloning and mapping change for each directory, over runs from boot, and `HeapPages` what growing
the heap does, for addresses below the self-map; the two pages at which `page_dir_clone` opens its
windows are left out of the run theorems, and `CloneKeeps` says what happens to them. `MapRuns`,
`Creations` and `ProcCreate` have creating a process: the clone, the heap page that its record may
need, mapped in the directory that is still active, and the sections, mapped in the new one; what
every directory sees in the end is given exactly, in terms of what it saw before the call. Aliased
tables are allowed for: boot points slots 0 and 768 at one table.

**Streams and the token ring** (`kernel/stream.c`, `kernel/syscall.c`, `userspace/token_common.h`,
`userspace/token_0.c`). In `Streams` each access of writer and reader is a step, interleaved in every
way, and the ring refines a queue of 1022 bytes. `Descriptors` has the tables that CONNECT fills.
`TokenRing`, `TokenRingDeadlock` and `TokenPrograms` have the ring protocol byte by byte, and
`TokenChannels` has it access by access, on the streams of `Streams`. The ring is free of deadlock
exactly for 1 <= count < 32 * nodes, in both: nodes read whole frames before they write, so where all
are blocked each holds at least two bytes beside the 1022 in its stream. With more frames node 0 never
completes its injection and every run gets stuck.

**Queue and scheduler** (`kernel/list.c`, `kernel/locks.c`, `kernel/scheduler.c`). `Queue` is the list
with recycled cells, `ConcurrentQueue` its use by any number of processors, `Scheduler` the tick with
its polling loop and `SchedulerRuns` what ticks keep and how long a thread can wait. The build is the
preemptible one, a tick is one step of its processor, and events do not change within a tick.

What the code needs from its callers is a precondition: request sizes up to 2^18 and room below
0xCCCC0000 for `mem_alloc`; frees that match a live block of the same size class; enough spare nodes,
given as the bound on free blocks and 14 more; free frames where `paging_map`, `page_dir_clone`,
`proc_create` and `kbrk` need them, and room in the heap for the record of `proc_create`; addresses
below the self-map for `paging_map`; a thread of the top queue that can run, or none in any queue, for
`sched_tick`. For the first and the last the converse is proved as well: an oversized request is
served from no heap, and a tick that cannot end picks a thread that cannot run at every turn.

Three oddities of the code are kept as they are. The exhausted branch of `mem_phys_alloc` leaves its
lock taken, so no later call returns. A null target pushed on a list is never counted off `size`,
which the list's invariant allows for. And `elf_load` (`kernel/elf.c`) never fills in the bss section,
so `proc_create` maps page 0 in the kernel's slot 0 each time, which all directories share; what that
changes, and for whom, is proved for any sections (`CreateIsolates`, `PageZero`, `BootPageZero`).

## Model

| member | source | states |
|---|---|---|
| Dyadic.ResidueIsRemainder | kernel/kmalloc.c:157-161 | the residue that the proofs compute by halving is the remainder that `list_clean` takes by the size of a block |
| Dyadic.BuddyPair | kernel/kmalloc.c:161 | an aligned block and its buddy are the two disjoint halves of one aligned block of the next size, and each is the buddy of the other |
| Dyadic.Nested | kernel/kmalloc.c:24-27 | two aligned blocks that share a byte are nested, the smaller in the larger |
| FreeBlocks.PutCorrect | kernel/kmalloc.c:63-84 | putting back a block none of whose bytes is free keeps the free blocks disjoint, aligned and coalesced, and adds exactly its bytes |
| FreeBlocks.WhollyFreeIsInOneBlock | kernel/kmalloc.c:150-175 | in coalesced memory an aligned block that is wholly free lies inside one free block |
| FreeBlocks.FreeBlocksAreMaximal | kernel/kmalloc.c:150-175 | the free blocks are exactly the maximal wholly free aligned blocks, up to the largest size |
| FreeBlocks.SameBytesSameBlocks | kernel/kmalloc.c:63-84 | canonical form: two coalesced heaps with the same free bytes have the same free blocks |
| FreeBlocks.TakeComplete | kernel/kmalloc.c:86-108 | a level can be served if and only if some aligned block of that level is wholly free |
| FreeBlocks.TakeCorrect | kernel/kmalloc.c:86-108 | the block taken is the start of the block of least level that can serve, and among these the lowest in memory; the rest stays free, in at most one more block for each level split |
| FreeBlocks.PutUndoesTake | kernel/kmalloc.c:137-148 | a block taken and put back restores the free blocks, whatever was split and merged between |
| Chains.FreeBlocksDetermineChains | kernel/kmalloc.c:63-84 | equal free blocks mean the same addresses in the same order on each of chains 1 to 15 |
| Chains.InsertNode | kernel/kmalloc.c:63-80 | splicing a node in where its address belongs keeps all sixteen chains linked, acyclic and sorted, and the nodes partitioned among them |
| Chains.RemoveNodes | kernel/kmalloc.c:161-168 | unlinking two neighbours in mid-chain keeps all of that, with both nodes in hand |
| Kmalloc.MemAllocator.constructor | kernel/kmalloc.c:31-44 | all nodes but the null one are on chain 0 and the other chains are empty |
| Kmalloc.MemAllocator.NodeNew | kernel/kmalloc.c:46-53 | the first spare node, with its address set, comes off chain 0; nothing else changes |
| Kmalloc.MemAllocator.NodeFree | kernel/kmalloc.c:55-60 | a node in hand goes to the head of chain 0 |
| Kmalloc.MemAllocator.FindPlace | kernel/kmalloc.c:65-72 | the scan ends between the last smaller and the first larger address of the chain |
| Kmalloc.MemAllocator.Link | kernel/kmalloc.c:63-80 | the node joins its chain in address order, and its block joins the free blocks |
| Kmalloc.MemAllocator.ListPut | kernel/kmalloc.c:63-84 | the free blocks become those of the specification `Put`: the block merged with its buddies as long as they are free; terminates by the distance to level 15 |
| Kmalloc.MergeTest | kernel/kmalloc.c:161 | the test of `list_clean`, in 32-bit arithmetic, holds of two addresses in order exactly when they are the halves of one aligned block |
| Kmalloc.NoPairNoBuddy | kernel/kmalloc.c:159-173 | if no two neighbours of a sorted chain pass the test, the buddy of its new block is not free |
| Kmalloc.MemAllocator.CleanStep | kernel/kmalloc.c:159-173 | one turn of the scan, which merges the only pair there can be, or moves on; it shortens what is left of the chain although merging unlinks two nodes |
| Kmalloc.MemAllocator.ListClean | kernel/kmalloc.c:150-175 | the chain that got a new block is coalesced, upward through the levels |
| Kmalloc.MemAllocator.PopHead | kernel/kmalloc.c:94-100 | the block lowest in memory leaves its chain, and its node goes to the pool |
| Kmalloc.MemAllocator.ListGet | kernel/kmalloc.c:86-108 | 0 exactly when no chain from this level up has a block, and then nothing changes; else the start of the best fit, halved down with the upper halves put back |
| PoolBound.BuddyIsTaken | kernel/kmalloc.c:102-106 | the buddy of a free block below the top level holds a live block or reaches past the frontier |
| PoolBound.FreeBound | kernel/kmalloc.c:31-53 | the free blocks number at most 14 * (live + 1) plus the heap size over 2^18 |
| HeapStates.BlockFitsRequest | kernel/kmalloc.c:117-121 | a block handed out is at least the request, and under twice it or of 16 bytes |
| HeapStates.EnoughPages | kernel/kmalloc.c:132-134 | after 1 page, or 2 * 2^(i-9) - 1 pages for a level i above a page, the request can be served from any heap |
| HeapStates.AllocatesPromptly | kernel/kmalloc.c:129-134 | a request that is served after the fewest pages that serve it takes at most 1 page, or 2 * 2^(i-9) - 1 for a level i above a page |
| HeapStates.AllocatesInv | kernel/kmalloc.c:110-135 | allocation keeps the free and live blocks a partition of the memory up to the frontier; the new block is disjoint from every live one |
| HeapStates.FreedInv | kernel/kmalloc.c:137-148 | freeing a live block keeps that partition |
| HeapStates.LiveDetermineFree | kernel/kmalloc.c:137-175 | the live blocks and the frontier alone determine the free blocks, so the chains |
| HeapStates.FreeUndoesAlloc | kernel/kmalloc.c:110-148 | an allocation that did not grow the heap, followed by its free, restores the whole state |
| HeapStates.FreesCommute | kernel/kmalloc.c:137-148 | two frees give the same heap in either order |
| HeapStates.StepInv | kernel/memory.c:71-91 | one allocation or free keeps that invariant |
| HeapStates.RunInv | kernel/memory.c:71-91 | over any run of allocations and frees from boot, none of which assumes it: alignment, disjointness, partition of [0xC3000000, heap) and coalescing |
| KernelHeap.RunCounts | kernel/memory.c:76-89 | over any run whose frees give the size requested, `stats` is the sum of the live request sizes mod 2^32 |
| KernelHeap.ServedIffNotOversized | kernel/kmalloc.c:91-92 | with enough pages for its level a request is served if and only if it is at most 2^18 bytes |
| KernelHeap.OversizedNeverServed | kernel/kmalloc.c:123-134 | a request above 2^18 bytes, or one above 2^31 for which the level loop runs out, is served from no heap, by however many pages it grew: the recursion of `mem_alloc` does not end |
| KernelHeap.RoomToTake | kernel/kmalloc.c:46-53 | while the bound on free blocks and the splitting slack stay below the number of nodes, `node_new` never meets an empty pool |
| KernelHeap.NewBlockZeroed | kernel/memory.c:77-78 | the bytes of a new block are zero, and no byte of a live request is changed for it |
| KernelHeap.KernelMemory.Kbrk | kernel/memory.c:28-39 | the old frontier is returned, and the frontier moves by whole pages; that the pages become mapped is `HeapPages.Kbrk` |
| KernelHeap.KernelMemory.AllocLevel | kernel/kmalloc.c:117-121 | for every 32-bit size the loop finds the least level that fits, or runs out at 4092 exactly for sizes above 2^31, where the doubled size has wrapped to 0 |
| KernelHeap.KernelMemory.Attempt | kernel/kmalloc.c:112-130 | an attempt serves the request, or shows that this heap cannot |
| KernelHeap.KernelMemory.TryGet | kernel/kmalloc.c:126-130 | the same at the level found |
| KernelHeap.KernelMemory.MemAlloc | kernel/kmalloc.c:110-135 | terminates with the request served, after the fewest pages that serve it, at most 1 or 2 * 2^(i-9) - 1 |
| KernelHeap.KernelMemory.MemFree | kernel/kmalloc.c:137-148 | the block of the size class is put back |
| KernelHeap.KernelMemory.Kmemset | kernel/memory.c:78 | the bytes from an address on are set, one after the other |
| KernelHeap.KernelMemory.Kmalloc | kernel/memory.c:71-83 | the whole effect on heap, live blocks, statistics and memory, with the invariant kept |
| KernelHeap.KernelMemory.Kfree | kernel/memory.c:85-91 | the whole effect of freeing a live block by any size of its class |
| Palloc.Marked | kernel/palloc.c:27 | or with one shifted bit sets that bit and no other |
| Palloc.Cleared | kernel/palloc.c:36 | and with the complement clears that bit and no other |
| Palloc.MarkedFrames | kernel/palloc.c:21-28 | the word write adds one frame to the set the words stand for |
| Palloc.ClearedFrames | kernel/palloc.c:30-37 | the word write removes one frame from that set |
| Palloc.RangeIsConsecutive | kernel/palloc.c:81-95 | a range reaches consecutive frames and, in 32 bits, goes on from frame 0 after the last |
| Palloc.FrameMap.constructor | kernel/palloc.c:15-19 | no frame is free, and the guard word is set |
| Palloc.FrameMap.MemPhysFree | kernel/palloc.c:21-28 | one frame joins the free set; the guard stays |
| Palloc.FrameMap.MemPhysReserve | kernel/palloc.c:30-37 | one frame leaves the free set; the guard stays |
| Palloc.FrameMap.FirstWord | kernel/palloc.c:48-51 | the guard ends the scan, at it exactly when no frame is free |
| Palloc.FirstBit | kernel/palloc.c:56-61 | the lowest set bit of a word |
| Palloc.FrameMap.MemPhysAlloc | kernel/palloc.c:39-69 | the least free frame leaves the set and its address is returned; 0xDEADC0DE exactly when none is free, and then the lock stays taken |
| Palloc.FrameMap.MemPhysFreeRange | kernel/palloc.c:81-87 | the free set becomes its union with the frames of the range |
| Palloc.FrameMap.MemPhysReserveRange | kernel/palloc.c:89-95 | the free set loses the frames of the range |
| PageTables.SelfMapShows | kernel/paging.c:23-26 | through slot 1023 the last page shows the directory, and page i from 0xFFC00000 on shows the table of slot i exactly when it is present |
| PageTables.MapTidy | kernel/paging.c:42-57 | mapping keeps the structures: directories map themselves and point at tables, and none of these frames is free |
| PageTables.MapTranslates | kernel/paging.c:42-57 | the processor then translates the address to the frame asked for, with the rights of slot and flags; without the present flag it faults |
| PageTables.MapKeeps | kernel/paging.c:42-57 | in every directory every walk that does not read the word written is unchanged |
| PageTables.TouchesBelow | kernel/paging.c:48-55 | below the self-map such walks are exactly those to the same table frame and index or, where there was no table, those in the slot |
| PageTables.NewTableMapsOnePage | kernel/paging.c:51-55 | a new table maps the one page and nothing else |
| Paging.BootMap | kernel/entry.s:49-72 | after boot the first 4 MBytes appear at 0 and 0xC0000000, and nothing else below the self-map |
| Paging.Machine.constructor | kernel/entry.s:49-72 | the boot loop leaves one table in two slots, and the directory in its own last slot |
| Paging.PageTableVirtAddr | kernel/paging.c:23-26 | the address computed is where the self-map shows that table |
| Paging.Machine.PagingIsMapped | kernel/paging.c:28-40 | 1 exactly when the processor would translate the address |
| Paging.Machine.PagingGetPhys | kernel/paging.c:64-72 | the frame the processor would translate to, or 0 |
| Paging.Machine.NewTable | kernel/paging.c:51-53 | a frame from the allocator is linked through the self-map and cleared |
| Paging.Machine.PagingMap | kernel/paging.c:42-57 | stores through virtual addresses have the effect of the specification on physical memory |
| Paging.Machine.CopySlots | kernel/paging.c:86-88 | the copy through the two windows |
| Paging.Machine.PageDirClone | kernel/paging.c:74-94 | the whole effect on memory, free frames and page structures |
| HeapPages.MapOnlyAdds | kernel/memory.c:34-35 | mapping an address that was not translated takes no translation away, in any directory |
| HeapPages.Kbrk | kernel/memory.c:28-39 | every page the frontier passes is translated afterwards; one that was not gets a frame that was free and is not any more, for the kernel alone, writable as far as its slot lets; two such pages get the same frame if and only if they had the same entry; beside these only frames of new tables are used up; what was translated in any directory below the self-map stays |
| Isolation.MapBelow | kernel/paging.c:42-57 | below the self-map mapping changes exactly the addresses translated by the same entry, to the frame with the rights of slot and flags |
| Isolation.CloneKeeps | kernel/paging.c:83-91 | in every old directory translations stay, but for what was mapped at the windows |
| Isolation.CloneAgrees | kernel/paging.c:86-88 | the clone translates as the old directory does below the self-map |
| Isolation.CloneGuardsTables | kernel/paging.c:88 | the clone shows its page tables to the supervisor only |
| Isolation.CloneShutsWindows | kernel/paging.c:90-91 | both windows are unmapped again |
| Processes.MapIsPrivate | kernel/paging.c:42-57 | mapping in a slot that the kernel lacked at clone time changes no other directory, at any address |
| Processes.OwnSlotUnseen | kernel/paging.c:42-57 | what others map, in whatever slot, is not seen in a slot that the kernel lacked at clone time |
| Processes.MapSeenBy | kernel/memory.c:34-35 | a page mapped in a slot of the kernel's is seen, at the same frame, by exactly the active directory and those that got that slot at their cloning; one mapped in another slot by the active directory alone |
| Processes.CloneIsPrivate | kernel/paging.c:74-94 | a clone changes no translation below the self-map but of the two window pages |
| Processes.RunKeeps | kernel/process.c:28-54 | over any run of clones, switches and mappings, and whatever becomes of frames that are neither directories nor tables, an address keeps its translation, as long as each mapping is in an own slot of either side, or for another entry, or repeats what is there |
| Processes.RunIsolates | kernel/process.c:28-54 | over any run of clones, switches and mappings of others, in whatever slots, a process keeps its translations in the slots that the kernel lacked when it was cloned |
| Processes.BootSound | kernel/entry.s:49-72 | the system right after boot meets the invariant that runs keep |
| Processes.RunSound | kernel/process.c:28-54 | so does every state of every run from boot, whoever maps, clones and switches, and whatever becomes of other frames |
| Processes.IsolatedSince | kernel/process.c:28-54 | so, from any moment of any run from boot, a process that maps nothing itself keeps its translations in its own slots |
| MapRuns.RunShown | kernel/paging.c:42-57 | after any run of mappings in one directory, frames being handed out between, each address of each directory has what the last mapping that reaches its entry gives, or what it had |
| MapRuns.GrowthMisses | kernel/memory.c:34-35 | mapping pages that were not translated reaches no entry of an address that is translated, in any directory |
| Creations.OpenedEntries | kernel/paging.c:83-84 | which addresses share an entry while the windows are open, in terms of what there was before |
| Creations.CreateEffect | kernel/process.c:28-54 | for any sections and any heap pages that the record needs, each address of another directory ends up with what the last section mapped at its entry gives, or else the last heap page, or else what it had, all in terms of the state before the call; a heap page comes only where there was nothing |
| Creations.CreateIsolates | kernel/process.c:28-54 | another directory keeps its translation of an address if and only if the last section mapped at its entry through a slot of the kernel's repeats it, or there is none and no heap page; what was translated meets no heap page; in own slots no section is seen, and heap pages at most of the active directory's |
| Creations.NewSees | kernel/process.c:28-54 | the new process sees at each address the last section there, or else a heap page whose table it shares, or else what the kernel's directory had before |
| Creations.CreateMaps | kernel/process.c:46-49 | for any sections, the new process sees each one, with the rights the kernel's slot lets through, or the last one mapped at the same entry |
| Creations.CreateMapsOwn | kernel/process.c:46-49 | in a slot that the kernel lacked, the last section of a page is seen with exactly the rights asked for |
| Creations.SectionsSeen | kernel/process.c:46-49 | which memory the new process has where its sections are: at each address that of the last of text, data, bss and rodata there, text and rodata to read, data and bss to write, as far as a slot of the kernel's lets |
| Creations.OwnSections | kernel/process.c:46-49 | in slots that the kernel lacked: exactly the memory and rights given for each of the four whose page no later one has |
| Creations.HeapPageSeen | kernel/process.c:31-33 | a heap page that the record needs is seen in the new process, where no section is in its place, if and only if the kernel's directory had the page's table, or made it for a window: a record that needs a new heap table is not mapped in its own process |
| Creations.RecordPageSeen | kernel/process.c:33 | in the directory that was active the record's new page, which was not translated, shows its frame, writable as far as the slot lets, for the kernel alone, unless a section is in its place |
| Creations.PageZero | kernel/elf.c:36-47 | `elf_load` leaves bss empty, so page 0 is mapped each time: who shares the kernel's slot 0 sees frame 0 there, writable as far as the slot is; without rodata, read-only |
| Creations.BootPageZero | kernel/elf.c:36-47 | right after boot, the first process without rodata changes page 0, and its double at 0xC0000000, from writable to read-only for the kernel's directory |
| Creations.CreateSound | kernel/process.c:28-54 | after it the invariant that runs keep holds again |
| ProcCreate.ProcessTable.FindNextPid | kernel/process.c:15-26 | the least free number, or 0 when the table is full |
| ProcCreate.ProcessTable.NewRecord | kernel/memory.h:18 | a new live block of the heap, and a page, at the old frontier, mapped in the active directory if the block needs it |
| ProcCreate.ProcessTable.AddHeapPage | kernel/memory.c:33-37 | if and only if the frontier moved and its page was not translated in the active directory, the page is mapped, to a frame that was free and is not any more |
| ProcCreate.ProcessTable.ProcCreate | kernel/process.c:28-54 | the least free number gets a record, which is a new live block of the heap; the page tables change by a run of clone, heap page (one exactly if the frontier moved and was not translated, with a frame that was free), switch, four mappings and switch back; in slots that the kernel lacked, text and rodata are then read-only and data and bss writable at the memory given for them, where no later section has the page |
| Streams.Lengths | kernel/stream.c:44-58 | the lengths are the bytes that wait and the room left; they add up to 1022, and the indices never meet |
| Streams.StoreInv | kernel/stream.c:22 | the slot stored to holds no byte the reader may still load |
| Streams.LoadGetsNext | kernel/stream.c:38-39 | the byte loaded after `read` has moved is the next one sent |
| Streams.RunIsSafe | kernel/stream.c:11-42 | in every interleaving: delivered is a prefix of sent, at most 1022 wait, `read` differs from `write` |
| Streams.Refines | kernel/stream.c:11-42 | every access is a step of a bounded queue, or none |
| Streams.WaitsExactly | kernel/stream.c:16-37 | a writer waits exactly while 1022 bytes wait, a reader exactly while none does |
| Streams.Stream.StreamWrite | kernel/stream.c:11-26 | all bytes are published in order, with the reader running any number of accesses between any two of the writer |
| Streams.Stream.StreamRead | kernel/stream.c:28-42 | the next bytes sent are delivered in order, likewise |
| Streams.Stream.WaitForRoom | kernel/stream.c:16-21 | when full, waiting ends after at most three accesses of the reader |
| Streams.Stream.WaitForData | kernel/stream.c:32-37 | when empty, waiting ends after at most three accesses of a writer that has bytes to write |
| Streams.Stream.constructor | kernel/stream.c:60-68 | an empty stream |
| Descriptors.DescriptorTable.IostreamAttach | kernel/stream.c:83-95 | the first unused slot gets the streams and its number is returned, the others stay; -1 and no change exactly when all slots are used |
| Descriptors.DescriptorTable.IostreamSelect | kernel/stream.c:70-81 | the least slot whose input has a byte that was sent and not taken; -1 exactly when no attached input has any |
| Descriptors.Connect | kernel/syscall.c:39-48 | two new empty streams, crosswise in the first unused slots of the two tables; the result is the caller's slot or -1 exactly when its table is full, also when the target's table is full or the target is the caller |
| Descriptors.ConnectedIs | kernel/syscall.c:39-48 | given the slots that the ends get, the tables of all processes after it |
| Descriptors.ConnectWired | kernel/syscall.c:39-48 | a connection keeps one reader and one writer to a stream, and the pairing of streams |
| Descriptors.RunIsWired | kernel/syscall.c:35-49 | over any run of CONNECT that holds, and used slots are a prefix of each table |
| TokenPrograms.Inject | userspace/token_0.c:34-35 | `count` frames go out in order, 32 * count bytes of which number i is byte i mod 32 of the message, whatever the reader does during each |
| TokenPrograms.ForwardOnce | userspace/token_common.h:16-20 | 32 bytes come in and go out as they came, whatever the writer does during the one call and the reader during the other |
| TokenPrograms.Forward | userspace/token_common.h:16-20 | any number of rounds passes frames on as they came, in order |
| TokenChannels.AccessRefines | kernel/stream.c:11-42 | on the lock-free streams every access of a node is a byte moved by the ring protocol, or changes nothing there |
| TokenChannels.RunRefines | userspace/token_common.h:15-20 | every interleaving of the accesses of all nodes shows a run of the ring protocol |
| TokenChannels.FramesIntactByAccess | userspace/token_common.h:18-19 | at every access what a node writes is one of the frames injected |
| TokenChannels.StuckExactly | kernel/stream.c:16-37 | all nodes only wait exactly if the ring protocol is in a deadlock and no reader is about to load a byte |
| TokenChannels.AccessCounts | kernel/stream.c:16-41 | every access but those that wait is progress, three to a byte moved |
| TokenChannels.GetsStuck | userspace/token_0.c:34-41 | with 32 frames or more to a node every run that does not only wait goes on to a state where all nodes wait for ever |
| TokenChannels.NeverStuckExactly | userspace/token_0.c:34-41 | the ring on lock-free streams locks up in no interleaving of accesses if and only if 1 <= count < 32 * nodes |
| TokenChannels.CanBegin | userspace/token_0.c:32-33 | every ring about to start can be set up on such streams |
| TokenRing.MoveInv | userspace/token_common.h:15-20 | frame alignment and counts: bytes read, written and held agree at every byte |
| TokenRing.MoveContent | userspace/token_0.c:34-41 | what nodes hold and streams carry stays the cyclic sequence of frames injected |
| TokenRingDeadlock.BytesConserved | userspace/token_common.h:16-20 | unsent, held and waiting bytes are 32 * count in every reachable state |
| TokenRingDeadlock.FramesIntact | userspace/token_common.h:18-19 | what a node passes on is one of the frames injected |
| TokenRingDeadlock.NoDeadlock | userspace/token_common.h:15-20 | with at least one frame and fewer than 32 to a node some node can go on |
| TokenRingDeadlock.NeverInjected | userspace/token_0.c:34-35 | with 32 frames or more to a node, in no state of any run has node 0 got them all written |
| TokenRingDeadlock.RunsAreBounded | userspace/token_0.c:34-41 | with that many frames no run takes more than 2048 * nodes^2 steps |
| TokenRingDeadlock.EndsInDeadlock | userspace/token_0.c:34-41 | with that many frames every run goes on to a deadlock |
| TokenRingDeadlock.DeadlockFreeExactly | userspace/token_0.c:34-41 | no reachable state is a deadlock if and only if 1 <= count < 32 * nodes |
| Queue.List.ListElemNew | kernel/list.c:16-31 | a cell kept for reuse if there is one, else a new one, on no chain |
| Queue.List.ListElemDelete | kernel/list.c:33-38 | the cell is the first of those kept |
| Queue.List.Push | kernel/list.c:40-60 | the queue grows at its end; cells are the live and the spare ones, on disjoint acyclic chains |
| Queue.List.Pop | kernel/list.c:62-92 | the first target, or null when there is none; a null target leaves uncounted |
| Queue.List.Prealloc | kernel/list.c:113-120 | more spare cells, the queue unchanged |
| ConcurrentQueue.Linearizable | kernel/list.c:40-92 | for any number of processors pushing non-null targets, every run has a run of an atomic queue beside it, with each effect between beginning and end of its call and the same results |
| ConcurrentQueue.FirstInFirstOut | kernel/list.c:40-92 | over every run the targets that pops got are, in this order, the first of those pushed in the order in which calls took effect, and the others are what the list holds |
| ConcurrentQueue.GoRefines | kernel/list.c:58-90 | pushes take effect when they count, pops when they count or find nothing, also in the early look at `size` without the lock |
| ConcurrentQueue.MutualExclusion | kernel/locks.c:8-18 | at most one processor is inside |
| Scheduler.SchedulerUnit.SchedulerPutBack | kernel/scheduler.c:35-50 | the thread goes to the end of its queue, unless null or idle |
| Scheduler.SchedulerUnit.SchedulerPick | kernel/scheduler.c:64-76 | the first thread of the first queue that has one leaves it |
| Scheduler.SchedulerUnit.SchedCanRun | kernel/scheduler.c:162-172 | the thread can run exactly if it has no event set or its event holds; its event is cleared if so |
| Scheduler.SchedulerUnit.SchedulerSwitch | kernel/scheduler.c:83-106 | the state part of a switch: the thread picked runs and `next_thread` is null, unless it was running or null |
| Scheduler.SchedulerUnit.SchedTick | kernel/scheduler.c:184-208 | the whole effect of a tick, given that its loop can end; the thread that runs then had no event or one that holds, which is cleared |
| Scheduler.PollsForEver | kernel/scheduler.c:191-204 | if the loop cannot end, every turn of it picks a thread with an event that does not hold |
| Scheduler.EndsExactly | kernel/scheduler.c:191-204 | the loop can end exactly if some thread of the highest queue that has any has no event or one that holds, or there is no thread and that is so of the idle one |
| Scheduler.SchedulerFind | kernel/scheduler.c:131-150 | the first of the least loaded among the first processor and those started |
| Scheduler.SchedThreadReady | kernel/scheduler.c:152-160 | the thread joins the queue of the least loaded one, whose load goes up; the others stay as they are |
| SchedulerRuns.TickRuns | kernel/scheduler.c:184-208 | a tick runs the first thread of the highest queue that has no event or one that holds, and puts those polled before it, whose events do not hold, behind the others; `next_thread` is null then, unless the thread ran before |
| SchedulerRuns.TickPicks | kernel/scheduler.c:184-208 | every tick that can end picks such a thread, or the idle one if there is no other |
| SchedulerRuns.TickIdles | kernel/scheduler.c:195-196 | with no thread anywhere the idle one runs |
| SchedulerRuns.BoundedWaiting | kernel/scheduler.c:184-208 | a thread at position k of the top queue with no event, or one that holds, at each tick runs within k + 1 ticks, whatever joins the ends of the queues |
| SchedulerRuns.EventWakes | kernel/scheduler.c:162-172 | so a thread that waits for an event that holds at each tick is woken within k + 1 ticks |
| SchedulerRuns.WokenPlaces | kernel/scheduler.c:174-182 | threads that waited and are woken are all in the queues then, none lost or doubled |
| SchedulerRuns.TickKeepsPlaces | kernel/scheduler.c:184-208 | a tick loses and doubles no thread, and leaves `next_thread` null or the running thread |
| SchedulerRuns.RunConserves | kernel/scheduler.c:152-232 | over any run on all processors each thread made ready is in exactly one place, and no idle thread is queued, whether waiting threads are polled by ticks or find that their event holds |
| SchedulerRuns.InOnePlace | kernel/scheduler.c:83-106 | a running thread is not queued and runs on no other processor |

## Left out

- Inline assembly, register save and restore, GDT, IDT, APIC, port programming and the TLB: hardware effects; page tables are coherent memory, stores become visible in order, and a switch is its state change.
- Screen, keyboard, fullscreen and snake code: user interface. The screen writes of `userspace/token_0.c` go to a stream that always drains and are not modelled.
- ELF loading, Multiboot parsing, the memory map loop of `mem_init` and CPU discovery: their results are parameters.
- `kprintf`, `int2str`, string and memory copies, timer conversion, descriptor packing, `cpu_sync`, `mem_stats`, `page_count`: easy members.
- The two halves of `kbrk`, frontier and paging, are two methods, `KernelMemory.Kbrk` and `HeapPages.Kbrk`; the heap model takes the pages as there.
- KernelHeap.KernelMemory.Kbrk: does not say that the pages are mapped, because that is the contract of `HeapPages.Kbrk`.
- Locks of the heap and of the process table: their sections are single steps; the lock of the list is modelled in `ConcurrentQueue`.
- Streams made by `driver_register`: an interrupt is a second producer.
- Concurrent CONNECT on one table, interrupts nested inside a tick, user writes through the MMAP call.
- The blocking loops of SELECT and of `sched_thread_wait`: the former is `IostreamSelect` until it finds data, the latter the steps `Wait`, `Tick` and `Resume` of `SchedulerRuns`.
- The endless loops of the token programs are a given number of rounds in `TokenPrograms` and one step after another, without end, in `TokenRing`.
- Page tables and threads' events are sequences and sets in fields that methods reassign, not separate objects; cells of lists are objects.
- Streams.Stream.StreamRead: asks that the writer has at least as many bytes to send as are read; otherwise the call waits for ever.
- KernelHeap.RunCounts: is about frees with the size requested; `Kfree` covers other sizes of the same class, which shift `stats` by the difference.
- The bytes of the heap are a map by address in `KernelHeap`, and frames are contents in `Paging`: that a heap page's bytes lie in the frame mapped there is not part of the model.
- The five priority queues of a processor are sequences, not `Queue.List`s with their locks.
- Process records hold no name and no descriptors, and threads no stack: nothing proved here depends on them.
