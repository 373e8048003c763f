# Nyvela kernel: memory, files, threads

A Dafny model of the core of the Nyvela kernel, and proofs about it. The model follows the C code
layer by layer, each layer resting on the one below.

| layer | source | files |
|---|---|---|
| frame allocator | `src/mm/pmm.c` | `Frames.dfy` |
| page tables and address spaces | `src/mm/vmm.c`, page calls of `src/syscall/syscall.c` | `PageTables.dfy`, `Mapping.dfy`, `Spaces.dfy`, `Fork.dfy`, `ForkCopy.dfy`, `ForkBuild.dfy`, `ForkUndo.dfy`, `Drop.dfy`, `Runs.dfy`, `Ranges.dfy`, `Vmm.dfy`, `KernelMap.dfy`, `UserCopy.dfy` |
| kernel heap | `src/mm/heap.c` | `Heap.dfy` |
| ramfs | `src/fs/ramfs.c`, `src/exec/exec.c` | `RamfsPath.dfy`, `RamfsTree.dfy`, `RamfsFiles.dfy`, `Ramfs.dfy` |
| threads, messages, scheduler | `src/thread/thread.c`, `src/ipc/ipc.c`, `src/scheduler/scheduler.c`, `src/arch/x86_64/cpu/fault.c`, thread and message calls of `src/syscall/syscall.c` | `Ipc.dfy`, `Scheduling.dfy`, `ThreadMemory.dfy`, `ThreadLists.dfy`, `Mail.dfy`, `Threads.dfy` |

`dafny verify dfyconfig.toml` verifies the whole project.

## Main results

- **Isolation over runs.** In any sequence of creating (or failing to, when nothing in use is freed), freeing, mapping, unmapping,
  allocating and storing in address spaces, a space nothing works on keeps every translation, every effective right
  and every byte it owns (`Runs.RunIsolated`, `Runs.RunTranslation`). The invariant behind it holds after
  `kvmm_init` (`KernelMap.KernelWorldInv`) and after the local APIC is mapped (`KernelMap.LapicInv`), and
  is kept by every step (`Runs.StepKeepsInv`).
- **Conservation.** Create a space, allocate and free pages in it, free it: the frame bitmap is what
  it was, byte for byte (`Runs.RoundTrip`).
- **Failure of a creation.** Whether `kvmm_create_user_pml4` succeeds, where it stops, whether its rollback
  halts and whether the free set is restored are each given by an exact condition on the parent's tables
  and the free frames before the call (`AddressSpaces.Vmm.CreateSpace`, `ForkUndo.RestoredExact`,
  `ForkUndo.OnePoint`). After a failure the ownership invariant holds if and only if no frame of a space and no
  shared table was freed (`Runs.GaveUp`).
- **Exact outcomes.** `kmalloc` and `kfree` are functions of the heap and the free frames (`Heap.MallocOf`,
  `Heap.FreeOf`), and so is when a thread is spawned (`Threads.SpawnOf`), a message queued (`Ipc.SendOf`), a page
  mapped (`Mapping.Lacking` against `Frames.Usable`) and a file written (`Ramfs.FileSystem.Write`): each result is
  fixed by the state before the call, in numbers (`Heap.MallocExact`, `ThreadMemory.ThreadExact`,
  `Threads.SpawnExact`).
- **Fork semantics.** A new space translates as its parent, except that private pages have fresh
  frames with equal contents and flags (`Fork.ForkTranslation`).
- **Refinement.** The four-level table is a flat map (`Mapping.MappedIsUpdate`), the packed bitmap a
  set (`Frames.BitmapFromSet`), the ring a queue (`Ipc.RingPush`, `Ipc.RingPop`), the ramfs tree a map from path text
  to nodes (`RamfsTree.LookupInverse`), paged files byte sequences (`Ramfs.FileSystem.Write`, `Read`).
- **File round trip.** A file that is created and written reads back as written, and no other file changes
  (`Ramfs.FileSystem.StoreAndLoad`).
- **Heap tiling.** The blocks of a heap page partition its bytes in every state, although list order is
  not address order; live allocations never overlap (`HeapBlocks.Partition`, `HeapBlocks.LiveDisjoint`).
- **One owner for everything.** Every operation on the thread table keeps every heap block and stack
  frame with exactly one owner, and leaves all other heap pointers alone (`Threads.ThreadTable.Valid`,
  `Foreign` and `FrameTotal` in the contracts).
- **Messages over runs.** Every operation on the thread table is a step of the mail kept by thread
  identifier, and over every run of such steps what a thread has taken and what waits for it is what was
  sent to it, in order (`Mail.Fifo`).
- **Scheduling.** k switches with k ready threads run each once (`SchedulerRuns.EveryThreadRuns`);
  without faults a ready thread waits for fewer switches than there are threads listed and spawned
  since (`SchedulerRuns.BoundedWait`); with faults its wait is still bounded as long as no fault leaves it
  first in the table (`SchedulerRuns.FaultWait`).

## Where the code does not do what one would expect

Each of these has a lemma or contract with the exact condition.

- `docs/boot.md` promises 16-byte alignment from the heap. `kmalloc` returns a 16-byte aligned pointer
  exactly when the first unused block is large enough and starts 8 past a multiple of 16
  (`Heap.KernelHeap.Malloc`, `Heap.MallocAligned`); the first request on a new heap never gets one
  (`Heap.FreshHeapMisaligned`).
- `kmalloc` fails whenever no block is unused, even with free frames (`Heap.MallocFails`, used in
  `Heap.KernelHeap.Malloc`): on a new heap, after a first request of 4033 to 4064 bytes and of no other size, every
  request fails for good (`Heap.FullAfterFirst`).
- `kvmunmap_and_free_at` keeps the frame accounts balanced exactly when the page is private or its word
  names no frame (`Runs.FreePageExact`). The address test of `sys_free_page` misses a shared page
  exactly when the bound of the init image, a page count used as a byte count, falls inside the page at
  or below the address (`AddressSpaces.AddressCheckExact`, example `AddressSpaces.AddressCheckMisses`).
- A late failure of `kvmm_create_user_pml4` also frees frames it never took. The free set is restored if and
  only if the parent has no stray word of that stage, and the rollback halts if and only if a stray frame is
  out of range, free, or named twice (`AddressSpaces.Vmm.CreateSpace`, `ForkUndo.RestoredExact`). From the
  kernel's own root with four usable frames it frees, or halts on, the identity-mapped frames from 4 to 6 MiB
  (`KernelMap.KernelFourFrames`, `KernelMap.KernelHighTable`).
- A ramfs write that runs out of frames keeps the old size but has replaced every byte from the offset on;
  the file is unchanged exactly when it was asked to write what was there (`RamfsFiles.WrittenRanOut`,
  `RamfsFiles.FailedWriteUnchanged`).
- A ramfs read whose offset plus length leaves 64 bits runs past the end of the file to the end of its last
  page (`Ramfs.ReadExact`).
- `ramfs_create` never returns the not-a-directory code.
- `fault_recovery` switches to a ready thread exactly when another one is ready
  (`SchedulerRuns.StepOk`, `Threads.ThreadTable.Recover`). It also restarts the search behind the first
  table entry, so threads that keep faulting and spawning starve the first one
  (`SchedulerRuns.FaultStarves`, `SchedulerRuns.HeadStarves`), and only the first one
  (`SchedulerRuns.FaultWait`).
- A device page mapped by one space shows in another exactly when they already share the table written
  (`Runs.SharedWrite`).
- `sys_ipc_poll` drops a message that does not fit the caller's buffer (`Threads.ThreadTable.Poll`).

## How the source is read

- Frames and pages are numbered; a table word is its frame number and its low 12 bits. Physical memory
  is a map from frames to tables of 512 words, read directly and not through the identity map.
- `hang()` does not return: a result says where it is reached (`ok`, `done`, `None`, `halted`).
- Integers are unbounded. Sums of E820 entries are required to fit 64 bits (`Frames.FitsWord`); the
  wrap-around tests of `sys_map_mmio` are modelled with an explicit modulus.
- Each system call is one atomic step.
- `MapPage` steps of `Runs` map pages of the window 0x400000 to 0x800000. A mapping outside it is the step
  `MapOutside` when it changes no table another space reaches and no frame another space owns. So `sys_map_mmio`
  is a run of such steps when no table on the way is shared with another space; into a shared table it is no
  step of the run model.
- A creation that fails is the step `Elsewhere` of `Runs` when it freed no frame of a space and no shared table;
  otherwise it ends the run.
- Pointers are heap addresses. What lies in a heap block (thread, queue, message bytes, ramfs node) is
  held by value or in an object under its address.
- The result of `kmalloc` for ramfs nodes, and whether the copies of `sys_ipc_poll` to user memory
  succeed, are parameters.
- The queue's array, the table's array and the frame bitmap are distinct by their types; the contracts
  say so explicitly because the verifier does not derive it.

## Model

| member | source | states |
|---|---|---|
| Frames.FrameAllocator.constructor | src/mm/pmm.c:14-57 | the first 512 E820 entries (section 15.1 of the ACPI Specification) count; `frameCount` is the end of some usable entry rounded up, and no usable entry ends above it; a frame is free exactly when it lies wholly inside one usable entry and at or above the kernel's end |
| Frames.RamEndExact | src/mm/pmm.c:20-28 | the address the first loop computes is the largest end of a usable entry, 0 without one, and no other address is |
| Frames.FrameAllocator.Alloc | src/mm/pmm.c:59-80 | the lowest free frame outside the hole, none exactly when there is none; a step of the ledger, as are the next two |
| Frames.FrameAllocator.AllocTop | src/mm/pmm.c:82-101 | the highest such frame |
| Frames.FrameAllocator.AllocContiguous | src/mm/pmm.c:103-147 | the lowest run of n such frames, none exactly when there is none; exactly the run leaves the free set |
| Frames.FrameAllocator.FitsMeans | src/mm/pmm.c:59-147 | what the searches may return, in addresses: a run of free frames from the kernel's end to the end of RAM with none in 0x400000..0x600000 |
| Frames.FrameAllocator.Release | src/mm/pmm.c:165-181 | adds the frame; halts exactly on a frame out of range or already free; a step of the ledger |
| Frames.FrameAllocator.ReleaseAddress | src/mm/pmm.c:149-181 | the same from an address; halts also exactly when it is not page aligned |
| Frames.FrameAllocator.ReleaseContiguous | src/mm/pmm.c:183-196 | adds the run; halts exactly when some frame of it is out of range or free; a step of the ledger |
| Frames.FrameAllocator.IsNormalRam | src/mm/pmm.c:198-222 | true exactly for a page-aligned address at or above the kernel's end, outside the bitmap at 0x10000, inside some usable entry |
| Frames.BitmapFromSet | src/mm/pmm.c:43-54 | two bitmaps of one length with the same free set are equal, bit by bit and byte by byte |
| Frames.CoversPages | src/mm/pmm.c:37-45 | the page bounds computed from an entry cover exactly the frames wholly inside it |
| Frames.LedgerRun | src/mm/pmm.c:59-196 | over every run of allocations and frees of live runs, live runs are pairwise disjoint and free plus live frames are constant |
| Frames.TakesIt | src/mm/pmm.c:59-147 | what the allocation calls ensure is a step of the ledger that makes the run live |
| Frames.GivesIt | src/mm/pmm.c:149-196 | what the free calls ensure, on a live run, is the step that ends it |
| Frames.HeldIsNormalRam | src/mm/pmm.c:198-222 | every frame handed out in such a run passes the normal-RAM test, when the bitmap ends below the kernel's end |
| PageTables.IndicesInjective | src/mm/vmm.c:46-50 | different 36-bit page numbers have different index paths |
| PageTables.WriteElsewhere | src/mm/vmm.c:154-257 | a word written at one position of the walk changes no word or table at a position not below it |
| PageTables.LinkBlank | src/mm/vmm.c:176-190 | linking a zeroed table changes one word of the whole walk |
| PageTables.RightsFromLeaf | src/syscall/syscall.c:93-105 | effective user and write access (section 4.6 of the Intel SDM, Volume 3A) equal the bits of the leaf alone |
| PageTables.RightsStep | src/mm/vmm.c:246-252 | a change of one word of the kind the kernel makes keeps that property |
| Mapping.GrowNew | src/mm/vmm.c:176-244 | allocating a missing table on the way keeps all translations and the growth account |
| Mapping.GrowRaise | src/mm/vmm.c:246-252 | raising the user bit of a table word on the way keeps them too |
| Mapping.MappedIsUpdate | src/mm/vmm.c:154-257 | mapping a page is one update of the flat map from page numbers to words, whichever tables had to be allocated |
| Mapping.UnmapLeaf | src/mm/vmm.c:134-148 | clearing a leaf is mapping the zero word and changes no other word of the walk |
| Spaces.OtherRoots | src/mm/vmm.c:154-257 | writing only free frames and frames of one space changes no walk and no owned page of another |
| Spaces.MapKeepsInv | src/mm/vmm.c:154-257 | mapping a window page keeps the ownership invariant of all spaces |
| Spaces.MapAccounts | src/mm/vmm.c:154-257 | and moves frames between free and owned as the words say |
| Fork.ForkTranslation | src/mm/vmm.c:283-314 | every page of the new space translates as in the parent; a present user window page that is not shared gets a fresh frame with the same 4096 bytes and flags, an absent one the zero word |
| Fork.ForkTables | src/mm/vmm.c:376-451 | a copied table word is present and writable, takes over the parent's user bit and no other bit; an absent one is zero |
| Fork.ForkKeepsInv | src/mm/vmm.c:270-455 | creation keeps the invariant and moves exactly the new space's frames from free to owned |
| ForkCopy.RawForkIsForked | src/mm/vmm.c:270-455 | the words creation writes, table by table, amount to that fork |
| ForkBuild.BuiltIsRawFork | src/mm/vmm.c:316-451 | the stages of the construction end in that state |
| ForkBuild.LostExact | src/mm/vmm.c:353-436 | which frames a failed creation frees without having taken them, word by word: shared user pages of the parent, at the second page table its kernel pages as well, and the words of frame 0 when the parent has no first page table |
| ForkUndo.RestoredExact | src/mm/vmm.c:330-436 | for every stage, a rollback that goes through restores the free set if and only if the parent has no stray word of that stage |
| ForkUndo.RawDistinct | src/mm/vmm.c:354-367 | the frames a rollback loop frees are all different exactly when the stray ones are, and differ from those taken |
| ForkUndo.OneRollback | src/mm/vmm.c:354-400 | one rollback goes through exactly when the stray frames were in range and in use before the call, and leaves exactly them over |
| ForkUndo.TwoRollbacks | src/mm/vmm.c:417-436 | the same for the two rollback loops of the last stage |
| ForkUndo.OnePoint | src/mm/vmm.c:270-451 | the number of usable frames fixes the position at which creation stops |
| Drop.OwnedIsLedger | src/mm/vmm.c:457-531 | the frames teardown visits are exactly those the ledger gives the space |
| Drop.RootsDroppable | src/mm/vmm.c:457-531 | teardown never meets a free, foreign or repeated frame |
| Drop.DropKeepsInv | src/mm/vmm.c:457-531 | teardown keeps the invariant and moves exactly the space's frames from owned to free |
| Runs.StepKeepsInv | src/mm/vmm.c:111-531 | every step keeps the ownership invariant |
| Runs.OutsideKeepsInv | src/mm/vmm.c:154-257 | a mapping outside the window, its new tables shared from then on, keeps the invariant when no other space reaches or owns a frame it changes |
| Runs.GaveUp | src/mm/vmm.c:330-436 | a creation that gave up keeps the invariant if and only if it freed no frame of a space and no shared table, and is then a step of the run model |
| Runs.StepIsolated | src/mm/vmm.c:111-531 | a step that does not work on a space leaves it as it was |
| Runs.FreePageExact | src/mm/vmm.c:111-128 | unmap-and-free keeps invariant and accounts if and only if the page is private or its word names no frame |
| Runs.RunKeepsInv | src/mm/vmm.c:111-531 | the invariant holds in every state of every run |
| Runs.RunIsolated | src/mm/vmm.c:111-531 | over whole runs, a space nothing works on keeps its tables, translations and owned bytes |
| Runs.RunTranslation | src/mm/vmm.c:102-105 | in particular every page keeps its word and its effective rights |
| Runs.StepConserves | src/mm/vmm.c:111-531 | a step that neither remaps nor drops a private page keeps free plus owned frames |
| Runs.RunConserves | src/mm/vmm.c:111-531 | the same over whole runs |
| Runs.RunOthers | src/mm/vmm.c:111-531 | a run on one space leaves the ledger entries of every other space, and which other spaces there are, as they were |
| Runs.RoundTrip | src/mm/vmm.c:270-531 | create, any page allocations, frees and stores, then free: the frame bitmap is restored byte for byte |
| Runs.SharedWrite | src/syscall/syscall.c:778-783 | a word written into a table shows in a space exactly when the table is on its walk and the word is new |
| Ranges.LackingNow | src/syscall/syscall.c:778-780 | what the next page of a range needs comes on top of what the pages before it needed, without overlap |
| Ranges.RangeShort | src/syscall/syscall.c:778-780 | a range whose mapping stops for want of a frame lacks more tables than there were usable frames at the start |
| Ranges.AloneNext | src/mm/vmm.c:154-257 | a mapping in a space that shares no table on the way leaves it so for every other page |
| Ranges.OutsideStep | src/syscall/syscall.c:778-780 | each page of such a range is a mapping step of the run model and keeps the invariant |
| AddressSpaces.PteTable | src/mm/vmm.c:46-96 | the page table on the walk, present exactly when the three upper words are; its word is the page's translation |
| AddressSpaces.Vmm.MapAt | src/mm/vmm.c:154-257 | refines the mapping relation; halts exactly when the tables missing on the way are more than the frames that may be handed out; each of the three table words keeps its flags if it was present and otherwise gets 0x03, and bit 0x04 is added exactly when the page has it |
| AddressSpaces.Vmm.UnmapAt | src/mm/vmm.c:134-148 | succeeds exactly on a present page and then clears exactly that word; no other word of the walk changes |
| AddressSpaces.Vmm.UnmapAndFreeAt | src/mm/vmm.c:111-128 | clears the word and frees its frame whatever its flags; exact conditions for failure and halt |
| AddressSpaces.Vmm.FindFreePage | src/syscall/syscall.c:129-136 | the lowest page of the user heap area that is not a present user page, none exactly when all are |
| AddressSpaces.Vmm.CopyTable | src/mm/vmm.c:342-374 | one page table copied word by word, private pages into fresh frames, up to the page that found no frame |
| AddressSpaces.Vmm.CopyUpper | src/mm/vmm.c:270-314 | the three upper tables of the copy; a failure restores the free set |
| AddressSpaces.Vmm.FreePages | src/mm/vmm.c:354-367 | a rollback loop halts exactly on a frame out of range, free or repeated, and otherwise frees exactly the frames of the words it meets |
| AddressSpaces.Vmm.CreateTables | src/mm/vmm.c:270-455 | success builds the fork; every failure path halts exactly when a stray frame of its stage is out of range, free or repeated, and otherwise returns what it took plus the set `Lost` of that stage |
| AddressSpaces.Vmm.CreateSpace | src/mm/vmm.c:270-455 | success is the create step of the run model, exactly when the frames that may be handed out are at least as many as the copy needs; otherwise the position where it stops, the exact conditions for halting, for the free set being restored and for the invariant still holding; the first four allocations never halt and always leave it intact |
| AddressSpaces.Vmm.DropTables | src/mm/vmm.c:457-531 | frees exactly the frames the root owns, wherever its walk stops, and never halts |
| AddressSpaces.Vmm.DropSpace | src/mm/vmm.c:457-531 | ignores null, refuses the active root, otherwise is the destroy step of the run model |
| AddressSpaces.Vmm.SysAllocPage | src/syscall/syscall.c:672-694 | is the allocation step at the lowest such page, which is then present, user and writable (flags 0x07) on a frame that was free; which of the three outcomes it has is fixed by that page, its missing tables and the usable frames before the call |
| AddressSpaces.Vmm.SysFreePage | src/syscall/syscall.c:818-825 | is the free step when the page is private; exact conditions for the refusal, on the address alone and the tables, and for the halt |
| AddressSpaces.Vmm.MmioAllowed | src/syscall/syscall.c:769-776 | true exactly when every frame is not normal RAM and every page is not present |
| AddressSpaces.Vmm.MmioNeverHeld | src/syscall/syscall.c:769-776 | no page of a device mapping is a frame the allocator has handed out in any run |
| AddressSpaces.Vmm.SysMapMmio | src/syscall/syscall.c:747-783 | all or nothing; refuses exactly when the request is not 1 to 256 aligned pages inside 0x40000000..0x80000000, its frames wrap around 64 bits or are RAM, or a page is present; halts exactly when the range lacks more tables than there are usable frames; maps exactly the range, with flags 0x1F; a run of mapping steps that keeps the invariant when no table on the way is shared |
| AddressSpaces.Vmm.MmioMeans | src/syscall/syscall.c:769-776 | the page loop lets a request through exactly when every page is absent and no frame is normal RAM |
| AddressSpaces.Vmm.MapRange | src/syscall/syscall.c:778-780 | the loop of it, with the same conditions |
| AddressSpaces.AddressCheckExact | src/syscall/syscall.c:32-34 | exactly which addresses of shared pages pass the address test |
| AddressSpaces.AddressCheckMisses | src/mm/vmm.c:535-545 | a concrete one |
| KernelMap.KernelInit | src/mm/vmm.c:9-44 | fills 512 page tables under the boot tables, or runs out of frames |
| KernelMap.IdentityMap | src/mm/vmm.c:9-44 | the first GiB maps to itself with kernel rights, nothing else is mapped |
| KernelMap.KernelWorldInv | src/arch/x86_64/boot/stage_2.s:65-108 | the ownership invariant holds for the kernel's own root |
| KernelMap.LapicInv | src/arch/x86_64/apic/apic.c:28-33 | and still holds after the local APIC has been mapped |
| KernelMap.KernelFourFrames | src/mm/vmm.c:386-400 | a creation from the kernel's root with exactly four usable frames stops at the second page table |
| KernelMap.KernelHighTable | src/mm/vmm.c:386-400 | which frees the 512 identity-mapped frames from 4 to 6 MiB, or halts exactly when one is out of range or free |
| UserCopy.UserMemory.CopyToUserAt | src/syscall/syscall.c:73-127 | succeeds exactly on at most 2304 bytes inside 0x400000..0x700000 whose pages are all present, user and writable, and then every byte is at its own address; otherwise stores byte after byte up to the first page that may not be written |
| UserCopy.AllPages | src/syscall/syscall.c:85-127 | the copy reaches its end exactly when every page it touches can be stored to |
| UserCopy.ReadBack | src/syscall/syscall.c:107-119 | every byte is read back at its own address, even when two pages of the range map one frame |
| UserCopy.Untouched | src/syscall/syscall.c:115-119 | no other byte changes |
| UserCopy.StoreRights | src/syscall/syscall.c:93-105 | the leaf test passes exactly where the processor would let the user write |
| UserCopy.AllocatedPage | src/syscall/syscall.c:672-694 | a page that `sys_alloc_page` mapped can be stored to, in the frame it took |
| UserCopy.CopyIsolated | src/syscall/syscall.c:73-127 | a copy into private pages changes no page table and no private byte of another space |
| HeapBlocks.Partition | src/mm/heap.c:25-75 | every byte of a heap page belongs to exactly one block |
| HeapBlocks.LiveDisjoint | src/mm/heap.c:25-75 | live allocations never overlap |
| HeapBlocks.LiveShape | src/mm/heap.c:25-75 | a live block is 8-byte aligned, inside one page, of 16 to 4072 bytes |
| HeapBlocks.SplitOk | src/mm/heap.c:58-70 | splitting a block keeps list, tiling and every other payload |
| HeapBlocks.FreshOk | src/mm/heap.c:34-51 | splicing a fresh page into the middle of the list keeps them too |
| HeapBlocks.FlagOk | src/mm/heap.c:112-117 | so does writing a flag |
| Heap.KernelHeap.constructor | src/mm/heap.c:9-23 | exactly the one free block on the first page |
| Heap.KernelHeap.Malloc | src/mm/heap.c:25-75 | null exactly under `MallocFails`; otherwise the pointer and the whole state of `MallocOf`: a new live block of at least the size, the first unused one, part of it or a fresh page, all other payloads and sizes unchanged; exact condition for 16-byte alignment |
| Heap.MallocExact | src/mm/heap.c:25-57 | null exactly for 0 or at least 4072 bytes, when no block is unused, or when the first unused block is smaller than the size rounded up to 16 and no frame is usable |
| Heap.MallocNone | src/mm/heap.c:25-75 | the two descriptions of failure agree |
| Heap.FullAfterFirst | src/mm/heap.c:31-57 | after which first request on a new heap every further one fails |
| Heap.FreshHeapServes | src/mm/heap.c:9-57 | a new heap serves exactly 1 to 4064 bytes, and 4065 to 4071 with a usable frame |
| Heap.MallocAligned | docs/boot.md:102-104 | the block `kmalloc` chooses has a 16-byte aligned payload exactly when the first unused block is large enough and starts 8 past a multiple of 16 |
| Heap.FreshHeapMisaligned | docs/boot.md:102-104 | on the heap as initialised no request gets such a payload |
| Heap.SecondAligned | src/mm/heap.c:58-70 | after a first request that splits the page, the second that fits does |
| Heap.KernelHeap.Free | src/mm/heap.c:112-117 | exactly one allocation ends, one word changes, no payload does |
| Heap.KernelHeap.Realloc | src/mm/heap.c:77-110 | exact conditions for failing, which leaves everything intact, and for staying in place; a move keeps the contents; size 0 frees and keeps every payload; frames only move between free and heap |
| RamfsPath.SplitJoin | src/fs/ramfs.c:44-84 | splitting the join of slash-free names gives the names back |
| RamfsPath.JoinSplit | src/fs/ramfs.c:44-84 | joining the split of a text gives the text back |
| RamfsPath.ParseText | src/fs/ramfs.c:44-84 | a path parses to a list of names exactly when it is their text and each has 1 to 63 characters and no slash |
| RamfsTree.ResolveIff | src/fs/ramfs.c:86-96 | resolving names reaches a node exactly when they are its path |
| RamfsTree.LookupInverse | src/fs/ramfs.c:86-96 | the text of a node's path looks the node up, and no other text does |
| RamfsTree.AddKeepsTree | src/fs/ramfs.c:106-128 | adding a leaf keeps chains, unique sibling names and parents |
| RamfsTree.CreateChangesOne | src/fs/ramfs.c:106-128 | a creation changes the lookup of exactly one path |
| RamfsTree.SetFileKeepsTree | src/fs/ramfs.c:145-180 | changing a file's size and pages changes no lookup |
| RamfsFiles.WrittenIsSplice | src/fs/ramfs.c:145-180 | a finished write is a splice of the file's bytes |
| RamfsFiles.WrittenRanOut | src/fs/ramfs.c:167-169 | a write that ran out of frames keeps the size and leaves the splice of the whole buffer, cut to it |
| RamfsFiles.FailedWriteUnchanged | src/fs/ramfs.c:167-169 | which is the file as it was exactly when the buffer begins with what was there |
| RamfsFiles.PagesDiffer | src/fs/ramfs.c:130-143 | no page is used twice, in one file or two, and none is free |
| Ramfs.FileSystem.constructor | src/fs/ramfs.c:98-104 | a tree of one empty directory |
| Ramfs.FileSystem.FindChild | src/fs/ramfs.c:34-42 | the chain walk finds the child of that name |
| Ramfs.FileSystem.FindParent | src/fs/ramfs.c:44-84 | the parse loop computes the parent and leaf name of the specification |
| Ramfs.FileSystem.Lookup | src/fs/ramfs.c:86-96 | computes the lookup of the specification |
| Ramfs.FileSystem.Create | src/fs/ramfs.c:106-128 | exact condition for each error code, with paths of at most 256 characters; success changes one lookup and no file, and the new node is empty |
| Ramfs.FileSystem.EnsurePage | src/fs/ramfs.c:130-143 | grows the file by zeroed pages to the index asked for, taking exactly those frames; fails exactly when the index is too large or there are too few usable frames; old pages and other files unchanged |
| Ramfs.ZeroedBytes | src/fs/ramfs.c:130-143 | after growing, every byte behind the old pages reads 0 and every byte of theirs as before |
| Ramfs.FileSystem.Write | src/fs/ramfs.c:145-180 | exact condition for each result: -2 unknown path, -5 directory, -1 offset behind the size, -6 past 32768 bytes or more 4096-byte pages than the file has and there are usable frames, else the length; splice on success; a write past the largest size changes nothing; one that runs out of frames leaves the splice cut to the old size; the frames taken are exactly the new pages; other files untouched |
| Ramfs.FileSystem.WriteBytes | src/fs/ramfs.c:157-173 | the copy loop ends early exactly when the pages the file then needs are more than it has and there are usable frames |
| Ramfs.FileSystem.Read | src/fs/ramfs.c:182-211 | min(length, size - offset) bytes (none at or behind the size), byte k being the file's byte offset + k; when offset plus length leaves 64 bits, everything from the offset to the end of the last page |
| Ramfs.ReadExact | src/fs/ramfs.c:192-211 | such a read still returns the slice exactly when the file fills its last page |
| Ramfs.FileSystem.StoreAndLoad | src/kernel/ktests.c:262-284 | create, write and read back, for every path, contents and read length: the bytes come back as written, no other path and no other file changes; possible exactly when the path is new, its directory exists, a node can be had and there are frames for the pages |
| Ramfs.FileSystem.FileSize | src/fs/ramfs.c:238-247 | the size or the error code |
| Ramfs.FileSystem.ExecLoad | src/exec/exec.c:5-19 | any non-empty file that fits is loaded whole and followed by zeros, anything else leaves memory alone |
| Ipc.RingPush | src/ipc/ipc.c:62-70 | writing at the tail appends to the ring's contents, across the wrap-around |
| Ipc.RingPop | src/ipc/ipc.c:82-84 | advancing the head removes the first message |
| Ipc.Queue.Grow | src/ipc/ipc.c:6-26 | same contents in a ring of twice the size, one block exchanged, the heap exactly as two calls leave it; fails exactly when `kmalloc` does, always at 64 |
| Ipc.Queue.Send | src/ipc/ipc.c:42-73 | one message more with exactly these bytes, in a block of its own, or the contents as before; a ring that is not full stays and the message is queued exactly when `kmalloc` serves its length; a full one is replaced by one of twice the length exactly when `kmalloc` serves 64 bytes a slot, and the message queued exactly when it then serves the length; the heap in each case; no foreign heap block touched |
| Ipc.Queue.Poll | src/ipc/ipc.c:75-87 | removes the oldest message and hands over its block; none exactly when empty |
| Ipc.Queue.Drain | src/thread/thread.c:99-102 | frees the block of every waiting message, each once |
| Mail.Fifo | src/ipc/ipc.c:28-87 | over every run of the thread table's operations, what a thread has taken followed by what waits is what it started with followed by what was sent to its identifier, in order |
| Mail.RunPostOk | src/thread/thread.c:125 | over every such run identifiers only grow, so none is used twice |
| Mail.BornPost | src/thread/thread.c:111-150 | a spawn adds an empty mailbox under the next identifier |
| Mail.GonePost | src/thread/thread.c:87-109 | a free removes the mailbox of that identifier and no other |
| Threads.DeliveredPost | src/ipc/ipc.c:62-72 | a send is an arrival for its identifier and nothing for any other |
| Threads.FetchedPost | src/ipc/ipc.c:75-87 | a poll is a departure for the caller and nothing for any other |
| Scheduling.RoundRobin | src/scheduler/scheduler.c:22-28 | k consecutive nearest-ahead choices among k ready positions are all of them, without repetition |
| SchedulerRuns.SelectsUnique | src/scheduler/scheduler.c:7-31 | the specification of the choice determines it |
| SchedulerRuns.EveryThreadRuns | src/scheduler/scheduler.c:11-30 | k switches with k ready threads choose each exactly once, wherever the current thread sits |
| SchedulerRuns.StepOk | src/arch/x86_64/cpu/fault.c:91-113 | every step keeps the current thread listed and ready, a fault exactly when another thread is ready |
| SchedulerRuns.RunOk | src/syscall/syscall.c:138-196 | the same over every run |
| SchedulerRuns.StepWaits | src/scheduler/scheduler.c:22-28 | a switch that does not choose a waiting thread brings it closer, a spawn puts it back by at most one, a free never does |
| SchedulerRuns.BoundedWait | src/scheduler/scheduler.c:7-43 | without faults a waiting thread sees fewer switches than threads listed at the start and spawned since |
| SchedulerRuns.StepLeft | src/arch/x86_64/cpu/fault.c:91-113 | a switch or fault that neither chooses a waiting thread nor leaves it first uses up one of a number that only spawns raise, by one each |
| SchedulerRuns.FaultWait | src/arch/x86_64/cpu/fault.c:91-113 | so with faults, none leaving the thread first, switches and faults are at most the square of the table's length plus the spawns |
| SchedulerRuns.FaultStarves | src/arch/x86_64/cpu/fault.c:98-112 | a cycle of two switches, a fault and a spawn that passes over the ready thread at the head |
| SchedulerRuns.HeadStarves | src/arch/x86_64/cpu/fault.c:98-112 | for every k a run in which the first thread waits through k faults and 2k switches with k spawns |
| ThreadMemory.AllocateThread | src/thread/thread.c:27-85 | takes four blocks and two frames, all new, or nothing; which, and all five results, are `ThreadOf` of the heap before the call |
| ThreadMemory.ThreadExact | src/thread/thread.c:27-80 | a thread costs 48 bytes, two adjacent frames, 168, 40 and 128 bytes, in this order, and can be had exactly when each of these can |
| ThreadMemory.FreeThread | src/thread/thread.c:87-109 | gives back exactly what the thread owned, each block once, and never halts |
| ThreadMemory.AllocateAndFree | src/thread/thread.c:16-109 | allocate then free restores live pointers and frames |
| Threads.ThreadTable.constructor | src/thread/thread.c:9-14 | the empty table owns nothing |
| Threads.ThreadTable.EnsureTable | src/thread/thread.c:17-25 | the one-time table block; fails exactly when it is missing and `kmalloc` fails; threads and foreign pointers unchanged |
| Threads.ThreadTable.GrowTable | src/thread/thread.c:129-145 | same entries in a table of twice the size; fails exactly when `kmalloc` of 16 bytes an entry does, always at 256 |
| Threads.ThreadTable.Spawn | src/thread/thread.c:111-150 | the spawn step with the next identifier, or no change; which is `SpawnOf` of the heap and the table before the call; all mailboxes kept; at most 256 threads, owners unique, nothing leaked |
| Threads.SpawnExact | src/thread/thread.c:16-145 | the heap after spawning, in numbers: 64 bytes for the first table, a thread's parts, and 16 bytes an entry for the table that replaces a full one |
| Threads.ThreadTable.Next | src/scheduler/scheduler.c:7-31 | the two loops compute the choice of the specification |
| Threads.ThreadTable.Tick | src/scheduler/scheduler.c:33-37 | the switch step; the choice is ready exactly when some thread is |
| Threads.ThreadTable.Yield | src/syscall/syscall.c:168-196 | the switch step, keeping the invariant |
| Threads.ThreadTable.Exit | src/syscall/syscall.c:138-164 | the exit step; halts exactly when no other thread is ready |
| Threads.ThreadTable.Remove | src/syscall/syscall.c:805-812 | the shift loop removes exactly one entry and keeps the order |
| Threads.ThreadTable.ExecReap | src/syscall/syscall.c:300-308 | another thread leaves the table with everything it owned, its mailbox included, nothing else changes |
| Threads.ThreadTable.FreeTid | src/syscall/syscall.c:785-816 | succeeds exactly for the identifier of another listed thread, and is then the free step |
| Threads.ThreadTable.Recover | src/arch/x86_64/cpu/fault.c:91-113 | the fault step, or a mere switch without a current thread; the new current thread is ready exactly when another one was |
| Threads.ThreadTable.Send | src/ipc/ipc.c:28-73 | the message is last in the queue of the thread with that identifier, all other queues unchanged; accepted exactly when there is such a thread and, in the heap before the call, its queue takes the message |
| Threads.ThreadTable.SysSend | src/syscall/syscall.c:547-572 | the same through a kernel buffer that is freed on every path; invalid, no space, accepted or dropped each under an exact condition on the size (1 to 2048), the buffer, the user's bytes and the target's queue before the call |
| Threads.ThreadTable.Poll | src/syscall/syscall.c:574-608 | the oldest message is taken and its block freed on every path; its length is returned exactly when it fits the capacity and could be copied, 0 otherwise |

## Left out

- Frames.FrameAllocator.constructor: a kernel that ends above the last usable byte, and entries whose end leaves 64 bits, are not modelled: the source then clears bits behind its bitmap or wraps.
- Threads.ThreadTable.Spawn: the saved registers of the new context, beyond entry point and address space root, are not modelled.
- Threads.ThreadTable.Tick: `tss.rsp0` and the switch of registers and stack are not modelled.
- Threads.ThreadTable.ExecReap: the address space `exec_reap` also frees is the destroy step of `Runs`, not repeated here.
- Ramfs.FileSystem.Write: an offset plus length that wraps around 64 bits is not modelled; it needs a buffer of almost 2^64 bytes.
- Threads.ThreadTable.Poll: the outcomes of the two copies to user memory are parameters; the copy itself is `UserCopy.UserMemory.CopyToUserAt`.
- Ipc.Queue.Send: the bytes of a message are held by value beside the address of their block, not encoded into heap words.
- KernelMap.KernelInit: starts from the boot tables as given, with the first page directory empty of page tables.
- `ramfs_list`, `kaddrspace_create` and `vfs.c`: would only add easy members.
- `sys_as_map`, `sys_mmap`, `sys_as_free`: they share frames between owners, outside the ownership invariant.
- `sys_exec`: its wait loop depends on interleaving inside one call.
- Page tables and user data share physical memory in the kernel; `UserCopy` keeps them apart and proves that private pages are never tables.
- The contents of heap blocks owned by threads, queues and ramfs nodes are not encoded into heap words.
- TLB maintenance, interrupt flags, boot code, descriptor tables, drivers, DMA and the user library.
