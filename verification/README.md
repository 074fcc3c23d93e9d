# LightUX kernel: a verified model

LightUX is a small x86_64 kernel. This project models four connected parts of it in Dafny and proves properties of
that model, from the bits of the page bitmap up to whole runs of the scheduler:

| part | files of this project |
|---|---|
| physical pages: bitmap, first-fit search with a hint, counters, boot, spin lock, direct map | `Words`, `Bitmap`, `FirstFit`, `PmmModel`, `PmmBoot`, `Pmm`, `PmmRuns`, `SpinLock`, `Vmm` |
| four-level paging: index macros, tables, map, translate, clone, user stacks | `PageIndex`, `PageBits`, `PageTables`, `HugePages`, `Directories`, `Paging`, `UserStack`, `TaskStart` |
| multitasking: the task list and the round-robin scheduler | `Tasks`, `Scheduling`, `Scheduler` |
| shared: layout constants, arithmetic, options | `KernelLayout`, `Arithmetic`, `Options` |
| storage: FAT32 file reading, the kernel heap's first extent | `FatVolume`, `Fat32`, `HeapModel`, `HeapRuns`, `Heap` |

Every part has the same shape. A value-level file says what one operation means (`PmmModel`, `PageTables`,
`Scheduling`, `FatVolume`, `HeapModel`); a class changes fields, arrays or linked nodes step by step, as the kernel
does, and is proved to compute exactly that (`Pmm`, `Paging`, `Scheduler`, `Fat32`, `Heap`); lemmas about the values
prove what the operations are for, over every input or every run (`PmmRuns`, `SpinLock`, `Directories`, `Scheduling`,
`HeapRuns`).

`dafny verify dfyconfig.toml` checks the project.

## Conventions

- Words are integers. Page-table entries and addresses use division and remainder where the kernel shifts and masks;
  `PageBits` proves on 64-bit vectors that the macros compute just that. Where 64-bit or 32-bit arithmetic can wrap it
  is written out (`Words.Wrap`, `WORD32`).
- A kernel panic is an outcome: `None`, `false`, `Panic` or `Crashed`. Nothing is claimed about the kernel after it.
- Memory behind page tables is a map from frame numbers to 512-entry tables. Ghost *roles* say what each table frame is
  (directory, or the child of one entry of one parent); `WellFormed` says that every present entry points to a table
  whose role is that entry, so the tables below the directories form a tree except where clones share slots.
- A disk is a list of 512-byte sectors, a set of read numbers that fail, and a log of the sectors asked for.

## What the proofs found

- **Slack bits.** The bitmap has one byte for every eight pages plus one, so unless the last page number is 7 modulo 8
  its last byte has bits that stand for no memory. They are never reserved and allocation reaches them:
  `PmmRuns.SlackExactly` proves that every allocation of every run stays inside memory if and only if the last page
  number is 7 modulo 8.
- **Free counter.** Page mmTotal / PAGE_SIZE is counted in full although at most a part of it is memory, and slack pages
  are counted as well. When the occupied pages, counted so, come to more than mmTotal, the free counter is the exact,
  negative value plus 2^64; otherwise it is exact, and the other two counters always are (`PmmRuns.CounterWords`).
- **Empty allocations.** `vmm_FreePages(vmm_AllocatePages(0), 0)` always panics, as the address stands for physical 0
  (`Vmm.FreeUndoesAllocate`).
- **Huge pages.** `paging_VirtToPhysical` ignores the page-size bit. It agrees with the processor's walk, whatever the
  data pages hold, if and only if its own walk reads tables only and the two agree as things are
  (`HugePages.AgreeExactly`); for huge pages that hold no table that is: if and only if the path meets none of them
  (`HugePages.AgreeOffHugePages`). For instance it calls a mapped
  address unmapped when the word it takes for a page-table entry is not present (`HugePages.HugePageUnseen`).
- **Killing the kernel task.** It makes a tick dereference NULL exactly when nothing behind the current task is READY
  (`Scheduling.CrashExactly`), for instance on the very next tick after initialization
  (`Scheduling.KilledKernelCrashes`). Without that kill the search of a tick never faults and never falls back to the
  dummy.
- **Deleting a task that never ran.** `schedulerDeleteTask` frees the stack by its address in the task, but through the
  directory in force. When that has no entry in the stack's slot the address has no translation and `vmm_FreePages`
  panics before the task is unlinked (`UserStack.UnmappedStackUnfreeable`).
- **Killed, then declared READY.** A creator writes READY without looking at the state. A killed task is gone within one
  rotation if its creator does not do so after the kill (`Scheduling.KilledTaskGone`); if it does before the task is
  deleted, the task is READY again and stays for ever (`Scheduling.ReleaseRevives`, with a run in
  `Scheduling.RevivedRun`).
- **Reads that stop inside a cluster.** `FAT32_Read` moves to the next cluster after every cluster loop. After a read
  that stops in the middle of a cluster, short of the end of the file, the next one begins a whole cluster too far, or
  delivers nothing when the chain has no further cluster (`Fat32.Driver.ReadTwice`). So a 1000-byte file in one cluster of
  two sectors ends after 512 bytes in the shell (`Fat32.Driver.LostTail`).
- **Reading in chunks.** Without failures chunks stay in place if and only if the chunk is a multiple of the cluster size
  or holds the whole file (`Fat32.ChunksExactly`). Whatever reads fail, they do so if and only if one chunk holds the
  file, or chunks are whole clusters and either clusters are single sectors or the file is at most one sector longer than
  a chunk (`Fat32.ChunksAlwaysExactly`).
- **Seeking to the end.** The end of a file that fills its last cluster cannot be reached by `FAT32_Seek`
  (`Fat32.SeekReach`), and a result of 0 stands for offset 0 as well as for failure.
- **Heap splits.** A split that leaves exactly 16 bytes writes a header into them whose size wraps around. After a
  `malloc` the chained headers still tile the extent if and only if the chosen block fits exactly or leaves room for a
  header (`HeapModel.MallocHoldsExactly`, with an input in `HeapRuns.RemainderExample`).

## Model

| member | source | states |
|---|---|---|
| `Words.WrapIsMod` | kernel/src/arch/x86_64/memory/pmm.c:72-136 | the wrap-around used for the three counters is arithmetic modulo 2^64, for any integer |
| `Bitmap.WithBitBits` | kernel/src/arch/x86_64/memory/bitmap.c:30-44 | clearing and setting one bit, most significant first, changes that bit of the byte and no other |
| `Bitmap.UnpackUpdate` | kernel/src/arch/x86_64/memory/bitmap.c:30-44 | writing one bit of one byte changes exactly that page of the whole bitmap |
| `Bitmap.PageBitmap.constructor` | kernel/src/arch/x86_64/memory/bitmap.c:5-14 | a new bitmap has every page clear and its search hint at page 0 |
| `Bitmap.PageBitmap.Get` | kernel/src/arch/x86_64/memory/bitmap.c:16-28 | reading gives the page's bit |
| `Bitmap.PageBitmap.Set` | kernel/src/arch/x86_64/memory/bitmap.c:30-44 | the two stores of a write set the page's bit and leave all other pages alone |
| `FirstFit.LowestRun` | kernel/src/arch/x86_64/memory/pmm.c:170-201 | a scan from page 0 finds the lowest run of n free pages, or none exactly when there is none |
| `FirstFit.LowestRunUnique` | kernel/src/arch/x86_64/memory/pmm.c:170-201 | only one answer is a first fit |
| `FirstFit.ScanFree` | kernel/src/arch/x86_64/memory/pmm.c:178-193 | a free page extends the run being measured, and a run that is long enough is the lowest one |
| `PmmModel.RangeBits` | kernel/src/arch/x86_64/memory/pmm.c:138-168 | a range operation decides exactly the bits of its range and keeps every page below the hint occupied |
| `PmmModel.RangeCounters` | kernel/src/arch/x86_64/memory/pmm.c:72-168 | it charges exactly the pages whose state changed to its counter and the free counter |
| `PmmModel.RangeConserves` | kernel/src/arch/x86_64/memory/pmm.c:72-168 | free + used + reserved stays the same, and used + reserved stays the page size times the number of set bits, for any operation on any range |
| `PmmModel.HintSkipsNothing` | kernel/src/arch/x86_64/memory/pmm.c:170-201 | no free run starts below a sound hint |
| `PmmModel.AllocateEffect` | kernel/src/arch/x86_64/memory/pmm.c:203-240 | allocation takes the lowest free run, sets exactly its bits, and its locking repairs the hint that the one-page search leaves unsound |
| `PmmModel.AllocateOne` | kernel/src/arch/x86_64/memory/pmm.c:203-218 | a one-page allocation takes one of the free pages, and panics exactly when there is none |
| `PmmModel.AllocateThenFree` | kernel/src/arch/x86_64/memory/pmm.c:146-240 | freeing what was just allocated restores the bitmap and all three counters |
| `PmmModel.FreeHint` | kernel/src/arch/x86_64/memory/pmm.c:86-103 | freeing an occupied range pulls the hint down to its start and no further |
| `PmmBoot.UnreserveEntriesBits` | kernel/src/arch/x86_64/memory/pmm.c:55-64 | the unreserve loop clears exactly the pages of usable entries |
| `PmmBoot.StorageHoldsBitmap` | kernel/src/arch/x86_64/memory/pmm.c:50-67 | every byte of the bitmap lies on one of the pages locked for it |
| `PmmBoot.BootMeaning` | kernel/src/arch/x86_64/memory/pmm.c:22-68 | after initialization a page in range is free if and only if it is usable, at least page 16 and not bitmap storage; counters are conserved with total mmTotal |
| `PmmBoot.BootCounters` | kernel/src/arch/x86_64/memory/pmm.c:22-68 | the used and the reserved bytes after initialization are not negative: only storage pages that were not reserved anyway count as used |
| `Pmm.PageAllocator.LockPage` | kernel/src/arch/x86_64/memory/pmm.c:72-84 | locking a page: bit, hint and the wrapped counters become those of the value-level operation; an occupied page is left alone |
| `Pmm.PageAllocator.FreePage` | kernel/src/arch/x86_64/memory/pmm.c:86-103 | likewise for freeing, which may pull the hint down |
| `Pmm.PageAllocator.ReservePage` | kernel/src/arch/x86_64/memory/pmm.c:105-117 | likewise for reserving |
| `Pmm.PageAllocator.UnreservePage` | kernel/src/arch/x86_64/memory/pmm.c:119-136 | likewise for unreserving |
| `Pmm.PageAllocator.LockPages` | kernel/src/arch/x86_64/memory/pmm.c:138-144 | the loop has the effect of the value-level range operation |
| `Pmm.PageAllocator.FreePages` | kernel/src/arch/x86_64/memory/pmm.c:146-152 | likewise for freeing |
| `Pmm.PageAllocator.ReservePages` | kernel/src/arch/x86_64/memory/pmm.c:154-160 | likewise for reserving |
| `Pmm.PageAllocator.UnreservePages` | kernel/src/arch/x86_64/memory/pmm.c:162-168 | likewise for unreserving |
| `Pmm.PageAllocator.FindFreeRegion` | kernel/src/arch/x86_64/memory/pmm.c:170-201 | the one-pass search that starts at the hint answers as a plain first-fit scan of the whole bitmap |
| `Pmm.PageAllocator.AllocatePage` | kernel/src/arch/x86_64/memory/pmm.c:203-218 | one page: first fit locked, or a panic exactly when no page is free; the hint is sound again |
| `Pmm.PageAllocator.AllocatePages` | kernel/src/arch/x86_64/memory/pmm.c:220-240 | n pages: first fit locked, NULL for n = 0, or a panic exactly when no run of n free pages exists |
| `Pmm.PageAllocator.FindLargest` | kernel/src/arch/x86_64/memory/pmm.c:24-46 | the scan finds the first of the largest usable entries |
| `Pmm.PageAllocator.InitializePMM` | kernel/src/arch/x86_64/memory/pmm.c:22-68 | initialization leaves the boot state with the bitmap stored in a largest usable entry; it panics exactly when there is none or it starts at 0 |
| `PmmRuns.RunsAreSafe` | kernel/src/arch/x86_64/memory/pmm.c:86-240 | over every run of allocations and owner-disciplined frees the bitmap is exactly boot plus the live regions, regions are disjoint and in range, the hint is sound and the counters say the same |
| `PmmRuns.SafeIsExclusive` | kernel/src/arch/x86_64/memory/pmm.c:203-240 | live regions overlap neither one another nor anything occupied at boot |
| `PmmRuns.AllReleasedRestoresBoot` | kernel/src/arch/x86_64/memory/pmm.c:86-240 | once every region is given back, bitmap and counters are those of boot |
| `PmmRuns.LiveRegionsAreUsable` | kernel/src/arch/x86_64/memory/pmm.c:22-240 | in every run after the real boot no live region holds one of the first 16 pages, a page with a byte of the bitmap, or a page of existing memory that does not lie in full inside a usable entry |
| `PmmRuns.AllocGoesOn` | kernel/src/arch/x86_64/memory/pmm.c:203-240 | while there is a run of n free pages an allocation goes on, gives its owner the lowest one and sets exactly its bits |
| `PmmRuns.ReleaseFrees` | kernel/src/arch/x86_64/memory/pmm.c:86-152 | giving a region back clears exactly its pages and takes it from its owner |
| `PmmRuns.RunsConserve` | kernel/src/arch/x86_64/memory/pmm.c:72-240 | every run keeps free + used + reserved and ties used + reserved to the number of set bits |
| `PmmRuns.CounterWords` | kernel/src/arch/x86_64/memory/pmm.c:48-136 | in every run after boot, for memories of less than 2^64 - 0x8000 bytes, the used and reserved words are exact, and the free word is if and only if the occupied pages come to at most mmTotal; otherwise it is 2^64 more |
| `PmmRuns.DrainToSlack` | kernel/src/arch/x86_64/memory/pmm.c:50-54 | from any reachable state with a clear slack bit, repeated one-page allocation hands out a page that does not exist |
| `PmmRuns.SlackExactly` | kernel/src/arch/x86_64/memory/pmm.c:50-54 | every allocation of every run stays inside memory if and only if the last page number is 7 modulo 8 |
| `SpinLock.MutualExclusion` | kernel/src/arch/x86_64/multitasking/spinlock.c:3-11 | in no interleaving of any number of allocators are two of them between acquire and release |
| `SpinLock.Linearizable` | kernel/src/arch/x86_64/memory/pmm.c:203-240 | whenever the lock is free, bitmap, hint, counters and regions are those of the finished operations run one after another |
| `SpinLock.NoPageTwice` | kernel/src/arch/x86_64/memory/pmm.c:203-240 | in no interleaving is a page handed to two callers, and the hint is unsound only while the lock is held |
| `SpinLock.HintBrokenInside` | kernel/src/arch/x86_64/memory/pmm.c:186-193 | it really is unsound right after a one-page search |
| `SpinLock.FinishesAlone` | kernel/src/arch/x86_64/memory/pmm.c:203-240 | from every reachable state a thread that holds the lock, or finds it free, reaches the release when only it advances: with its region handed out and marked as the sequential allocator would, or with the kernel halted exactly when there is no run of that many free pages |
| `SpinLock.AllocatesAlone` | kernel/src/arch/x86_64/memory/pmm.c:203-240 | so whenever the lock is free, a request for n > 0 pages and n + 4 steps of its thread end with the lock free and the exact result |
| `Vmm.AllocatePages` | kernel/src/arch/x86_64/memory/vmm.c:13-19 | the direct-map address of the first fit, or a panic |
| `Vmm.FreePages` | kernel/src/arch/x86_64/memory/vmm.c:26-35 | frees the pages behind the address, or panics exactly when it has no translation |
| `Vmm.FreeUndoesAllocate` | kernel/src/arch/x86_64/memory/vmm.c:13-35 | for n > 0 and a region that starts in existing memory, allocate then free never panics and restores bitmap and counters; for n = 0 it always panics |
| `PageBits.IndexMacros` | kernel/src/arch/x86_64/memory/paging.h:17-27 | on every 64-bit word the four index macros compute the table indices of the model |
| `PageBits.AddressMacros` | kernel/src/arch/x86_64/memory/paging.h:29 | likewise for stripping the sign extension, the 12-bit offset and the present bit |
| `PageBits.PteGetAddrMacro` | kernel/src/arch/x86_64/memory/paging.h:31-32 | PTE_GET_ADDR is the address of the frame in bits 12 to 51 |
| `PageBits.PPhysAddrMacro` | kernel/src/arch/x86_64/memory/paging.h:33 | P_PHYS_ADDR drops exactly the offset inside the page |
| `PageBits.LeafEntryMacro` | kernel/src/arch/x86_64/memory/paging.c:149 | the word stored for a page is the model's leaf entry |
| `PageBits.TableEntryMacro` | kernel/src/arch/x86_64/memory/paging.c:125-145 | the word stored for a new table is the model's table entry |
| `PageIndex.PathIsPage` | kernel/src/arch/x86_64/memory/paging.h:24-29 | the four 9-bit indices put together are the page number |
| `PageIndex.SamePathSamePage` | kernel/src/arch/x86_64/memory/paging.h:24-29 | two addresses walk the same path exactly when they lie in the same page |
| `PageIndex.TableEntryDecodes` | kernel/src/arch/x86_64/memory/paging.h:31-33 | a table entry is present, not a huge page, and decodes to the frame it was made from |
| `PageIndex.LeafEntryDecodes` | kernel/src/arch/x86_64/memory/paging.h:31-33 | a leaf entry is present and decodes to the frame of the address it was made from |
| `PageIndex.LeafEntryBits` | kernel/src/arch/x86_64/memory/paging.c:149 | the write bit and the user bit of a leaf entry are those of the flags, the present bit is always set |
| `PageIndex.TableEntryBits` | kernel/src/arch/x86_64/memory/paging.c:125-145 | a table entry is present, writable and open to user code |
| `PageTables.SoftWalkAgrees` | kernel/src/arch/x86_64/memory/paging.c:155-206 | off huge pages the kernel's own walk is the processor's, 0 standing for unmapped |
| `PageTables.VirtToPhysicalExactly` | kernel/src/arch/x86_64/memory/paging.c:155-206 | between hhdmOffset and hhdmOffset + mmTotal, both included, the answer is the difference; below and above, off huge pages, it is the processor's translation, 0 for an unmapped address |
| `HugePages.AgreeExactly` | kernel/src/arch/x86_64/memory/paging.c:155-206 | the two walks agree for every content of the data frames if and only if the kernel's walk reads tables only and they agree as things are |
| `HugePages.AgreeOffHugePages` | kernel/src/arch/x86_64/memory/paging.c:155-206 | when huge pages hold no table, they agree for every content if and only if the path meets no huge page |
| `HugePages.HugePageUnseen` | kernel/src/arch/x86_64/memory/paging.c:188-203 | a 2-MiB page without a present word at the lowest index is mapped, but the kernel answers 0 |
| `PageTables.SamePtSameWay` | kernel/src/arch/x86_64/memory/paging.c:125-147 | two walks meet in one page table only by the same indices and a shared top-level slot |
| `PageTables.EnsureWellFormed` | kernel/src/arch/x86_64/memory/paging.c:125-145 | adding an empty table in a fresh frame keeps the tables a tree |
| `PageTables.EnsureInvisible` | kernel/src/arch/x86_64/memory/paging.c:125-145 | and is invisible to every walk of every directory |
| `PageTables.WriteLeafEffect` | kernel/src/arch/x86_64/memory/paging.c:147-149 | writing a page-table entry changes exactly the walks that end at it |
| `PageTables.MapEffect` | kernel/src/arch/x86_64/memory/paging.c:109-153 | a map, with up to three new tables, changes exactly one page of the directory and of those sharing its slot, and keeps the tables well-formed |
| `PageTables.MapThenTranslate` | kernel/src/arch/x86_64/memory/paging.c:109-153 | afterwards every address of the page translates to the frame plus its offset, and every other address as before, mapped or not |
| `PageTables.MapRights` | kernel/src/arch/x86_64/memory/paging.c:109-153 | user code may write to the mapped page exactly when the flags have the write and the user bit and the tables that were there before let it; no other page changes its rights |
| `PageTables.EnsureKeepsRights` | kernel/src/arch/x86_64/memory/paging.c:125-145 | a new table on the way bars user code nowhere |
| `PageTables.MapKeepsNoHuge` | kernel/src/arch/x86_64/memory/paging.c:109-153 | a map puts no huge page on any path |
| `PageTables.MapThenVirtToPhysical` | kernel/src/arch/x86_64/memory/paging.c:109-206 | the same for the kernel's translation in terms of the processor's one before; addresses from hhdmOffset to hhdmOffset + mmTotal are answered by subtraction |
| `PageTables.ReachesOnlyBySharing` | kernel/src/arch/x86_64/memory/paging.c:38-57 | another directory reaches the written entry if and only if it shares the top-level slot |
| `PageTables.CloneEffect` | kernel/src/arch/x86_64/memory/paging.c:38-57 | a clone walks like its original, stays well-formed, and no other directory notices |
| `PageTables.CloneSound` | kernel/src/arch/x86_64/memory/paging.c:38-57 | cloning into a page that was free keeps every table in an occupied page |
| `PageTables.DataInvisible` | kernel/src/arch/x86_64/multitasking/stack.c:31-32 | overwriting a frame that is no table changes no translation |
| `Paging.AddressSpaces.PhysicalAllocate` | kernel/src/arch/x86_64/memory/paging.c:28-36 | a zeroed frame that was free, or a panic exactly when no page is free |
| `Paging.AddressSpaces.WalkToTable` | kernel/src/arch/x86_64/memory/paging.c:123-147 | reaches the page table of the path, having added only the tables it lacks; panics exactly when fewer pages are free than tables are missing |
| `Paging.AddressSpaces.MapPage` | kernel/src/arch/x86_64/memory/paging.c:109-153 | the step-by-step map has the effect above on well-formed tables and takes exactly the missing tables from the free pages; it panics exactly when fewer pages are free, and then no translation has changed |
| `Paging.AddressSpaces.TranslateAddress` | kernel/src/arch/x86_64/memory/paging.c:155-206 | computes the kernel's translation: by subtraction inside the direct map, bounds included; everywhere else, off huge pages, what the processor's walk of the directory in force gives, 0 for unmapped |
| `Paging.AddressSpaces.AllocatePD` | kernel/src/arch/x86_64/memory/paging.c:38-57 | a free page becomes a clone of the kernel's directory; it panics, changing nothing, exactly when multitasking is not initialized or no page is free |
| `Paging.AddressSpaces.CopyEntries` | kernel/src/arch/x86_64/memory/paging.c:51-54 | the loop copies all 512 entries and nothing else |
| `Paging.AddressSpaces.ChangePageDir` | kernel/src/arch/x86_64/memory/paging.c:60-97 | records the directory in the current task and puts it in force, or panics exactly when its address has no translation |
| `Paging.AddressSpaces.ChangePageDirFake` | kernel/src/arch/x86_64/memory/paging.c:74-84 | puts the directory in force without recording it |
| `Paging.PointerTranslates` | kernel/src/arch/x86_64/memory/paging.c:60-84 | a directory in existing memory always translates to its frame, so switching to it panics only for page 0 |
| `Directories.SharingFixed` | kernel/src/arch/x86_64/memory/paging.c:38-57 | whether two existing directories share a slot never changes |
| `Directories.PrivateForever` | kernel/src/arch/x86_64/memory/paging.c:38-57 | over any sequence of clones and maps, a slot absent from the kernel's directory at cloning time is never shared with any directory |
| `Directories.SharedForever` | kernel/src/arch/x86_64/memory/paging.c:38-57 | a slot present at cloning time stays shared with the kernel for ever |
| `Directories.CloneTranslatesLikeKernel` | kernel/src/arch/x86_64/memory/paging.c:38-57 | a fresh clone translates every address as the kernel does |
| `Directories.PrivateMapUnseen` | kernel/src/arch/x86_64/memory/paging.c:38-153 | a map in a private slot changes no translation of the kernel or any other directory |
| `Directories.SharedMapSeen` | kernel/src/arch/x86_64/memory/paging.c:38-153 | a map in a shared slot is seen by the kernel and every clone born with it, whichever of them it goes through |
| `Directories.KernelUntouched` | kernel/src/arch/x86_64/memory/paging.c:38-153 | however many clones and private maps are made, the kernel's translations stay |
| `UserStack.StackMapUser` | kernel/src/arch/x86_64/multitasking/stack.c:19-34 | maps every stack page of the directory in force to its own fresh, cleared frame; panics exactly when that is not the task's directory or fewer pages are free than the stack and its missing tables take |
| `UserStack.StackMapPage` | kernel/src/arch/x86_64/multitasking/stack.c:27-33 | one round: allocate, map, clear; panics exactly when the page and the tables it lacks are more than the free pages |
| `UserStack.StackGenerateUser` | kernel/src/arch/x86_64/multitasking/stack.c:36-46 | does so through a temporary directory switch and restores the directory in force and the recorded one; it panics exactly when memory is short as above or a switched-to directory has no translation, which never happens for directories in existing memory |
| `UserStack.StackNeedsNoTables` | kernel/src/arch/x86_64/multitasking/stack.c:27-33 | once one stack page is mapped the others need no more tables |
| `UserStack.StackTranslates` | kernel/src/arch/x86_64/multitasking/stack.c:27-33 | then every address of the 16 KiB below USER_STACK_TOP translates into its page's frame |
| `UserStack.StackRights` | kernel/src/arch/x86_64/multitasking/stack.c:27-33 | every stack page ends at an entry that is present, writable and open to user code; user code may write there exactly when the tables that were there before let it, so always when the stack's top-level slot was absent |
| `TaskStart.StackBelowTop` | kernel/src/arch/x86_64/multitasking/stack.c:19-34 | every address from 0x5FFFFFFFC000 up to 0x600000000000 translates into the frame of its page, with those rights |
| `TaskStart.FirstRunHasStack` | kernel/src/arch/x86_64/multitasking/task.c:93-98 | a new task first runs in its own directory with its stack pointer right above these 16 KiB |
| `UserStack.StackUnseen` | kernel/src/arch/x86_64/multitasking/stack.c:19-46 | no kernel translation changes when the kernel does not share the stack's top-level slot |
| `UserStack.UnmappedStackUnfreeable` | kernel/src/arch/x86_64/multitasking/scheduler.c:101-104 | the stack address of a task that never ran has no translation in a directory without the stack's slot, outside the direct map |
| `UserStack.FreshFrame` | kernel/src/arch/x86_64/multitasking/stack.c:31 | each new frame differs from all earlier ones, was free before, and is no table |
| `Tasks.SearchAnyList` | kernel/src/arch/x86_64/multitasking/scheduler.c:38-58 | on every list the search terminates, by wraps left and nodes left, and removes only DEAD tasks: a task found is READY, and giving up means that nothing is READY and all DEAD tasks are gone, order kept |
| `Tasks.SearchClosedForm` | kernel/src/arch/x86_64/multitasking/scheduler.c:38-58 | with a READY head it makes at most one wrap, removes exactly the DEAD tasks it passes, and stops at the next READY task or the head |
| `Tasks.SearchDeadHead` | kernel/src/arch/x86_64/multitasking/scheduler.c:38-58 | with a DEAD head it faults exactly when nothing from its start on is READY |
| `Scheduling.TickClosedForm` | kernel/src/arch/x86_64/multitasking/scheduler.c:18-91 | one tick in closed form: next READY task after the current one, else the kernel; the DEAD ones in between go; frame, stack and directory change over |
| `Scheduling.CrashExactly` | kernel/src/arch/x86_64/multitasking/scheduler.c:38-58 | on any list whose DEAD ids are unique, with the kernel task killed or not, the search of a tick faults if and only if the head is DEAD and nothing behind the current task is READY |
| `Scheduling.NothingReadyRunsDummy` | kernel/src/arch/x86_64/multitasking/scheduler.c:38-64 | when nothing is READY and the head is not DEAD a tick deletes every DEAD task and runs the dummy with its saved frame |
| `Scheduling.InterruptedIsReady` | kernel/src/arch/x86_64/multitasking/scheduler.c:33-66 | after a tick the chosen task is RUNNING, the interrupted one READY whatever it was before, the dummy included, unless it was killed; no other status changes |
| `Scheduling.InitialInv` | kernel/src/arch/x86_64/multitasking/task.c:165-191 | the state after initialization satisfies the run invariant |
| `Scheduling.StepInv` | kernel/src/arch/x86_64/multitasking/scheduler.c:18-91 | every event but killing the kernel keeps it: tick, create, release, kill, directory switch |
| `Scheduling.RunsNeverCrash` | kernel/src/arch/x86_64/multitasking/scheduler.c:33-75 | in every run the search of a tick never faults and ends on a READY task, never on the dummy; it never unlinks the task whose registers are saved; only the current task can be RUNNING and the directory in force is its recorded one |
| `Scheduling.TickCloser` | kernel/src/arch/x86_64/multitasking/scheduler.c:25-64 | every tick runs a waiting READY task or brings it closer, and deletes a DEAD one or brings it closer |
| `Scheduling.StepWait` | kernel/src/arch/x86_64/multitasking/scheduler.c:25-70 | the cyclic distance shrinks with every tick and grows by at most one with every new task |
| `Scheduling.ReadyTaskRuns` | kernel/src/arch/x86_64/multitasking/scheduler.c:25-70 | bounded waiting: in every run a READY task that nobody kills is made current within its cyclic distance plus the tasks created meanwhile, counted in ticks |
| `Scheduling.KilledTaskGone` | kernel/src/arch/x86_64/multitasking/scheduler.c:38-58 | a killed task that its creator does not declare READY after the kill is gone from the list within one full rotation, the frees before its unlinking not failing |
| `Scheduling.OnlyKilledGo` | kernel/src/arch/x86_64/multitasking/scheduler.c:38-58 | in every run a task leaves the list only after it was killed |
| `Scheduling.ReleaseRevives` | kernel/src/kernel.c:58 | a killed task declared READY before its deletion is READY again and stays in the list until killed once more |
| `Scheduling.RevivedRun` | kernel/src/kernel.c:58 | create, kill, declare READY is such a run |
| `Scheduling.KilledKernelCrashes` | kernel/src/arch/x86_64/multitasking/scheduler.c:41-46 | after initialization, killing the kernel task makes the search of the next tick fault |
| `Scheduling.FrameKept` | kernel/src/arch/x86_64/multitasking/scheduler.c:66-78 | between its turns a task's saved frame does not change |
| `Scheduling.ResumesExactly` | kernel/src/arch/x86_64/multitasking/scheduler.c:66-87 | in every run a task resumes with exactly the frame of its last preemption, or its initial frame, also when it follows itself |
| `Scheduling.StepRecord` | kernel/src/arch/x86_64/multitasking/scheduler.c:66-78 | what each event does to the record of a task: id and kernel stack stay, the frame changes when it is interrupted, the directory when it switches |
| `Scheduling.FirstResume` | kernel/src/arch/x86_64/multitasking/task.c:80-100 | a new task first resumes at its entry, with its argument, on top of the user stack, with the selectors and privilege level of its kind and interrupts enabled, in the directory and on the kernel stack it was created with |
| `Scheduling.KernelStackFixed` | kernel/src/arch/x86_64/multitasking/scheduler.c:71-72 | a task keeps its kernel stack in every run unless its memory goes to a new task, and every tick that makes it current loads that stack into the TSS |
| `Scheduling.DirectoryRestored` | kernel/src/arch/x86_64/multitasking/scheduler.c:87 | whenever a task is current the directory in force is the one it switched to last, or was created with, whatever the others did |
| `Scheduling.CreatedWaits` | kernel/src/arch/x86_64/multitasking/task.c:77 | a new task is never made current before its creator declares it READY |
| `Scheduling.InvDeadIds` | kernel/src/arch/x86_64/multitasking/scheduler.c:41-44 | deleting by id deletes the task meant, although the dummy shares the kernel's id |
| `Scheduler.TaskScheduler.InitializeTask` | kernel/src/arch/x86_64/multitasking/task.c:165-191 | leaves the kernel current, on the kernel stack given and with interrupts enabled in its frame, and the dummy behind it, which is an initial state of the runs |
| `Scheduler.TaskScheduler.CreateDummy` | kernel/src/arch/x86_64/multitasking/task.c:183-189 | the dummy task also gets id 0 |
| `Scheduler.TaskScheduler.TaskAllocate` | kernel/src/arch/x86_64/multitasking/task.c:26-49 | links a new node behind the last one and changes no task |
| `Scheduler.TaskScheduler.TaskFree` | kernel/src/arch/x86_64/multitasking/task.c:51-70 | unlinks exactly the target; dereferences NULL exactly for the head; the target keeps its next pointer |
| `Scheduler.TaskScheduler.TaskCreate` | kernel/src/arch/x86_64/multitasking/task.c:72-102 | appends a task with the next id, not READY, with its directory and kernel stack and a frame that starts at entry with arg, stack pointer 0x600000000000, the selectors of its kind and interrupts enabled; other tasks and the directory in force stay |
| `Scheduler.TaskScheduler.Prepare` | kernel/src/arch/x86_64/multitasking/task.c:80-100 | kernel stack and every register of the initial frame |
| `Scheduler.TaskScheduler.TaskKill` | kernel/src/arch/x86_64/multitasking/task.c:104-117 | marks the first task with the id DEAD, if any |
| `Scheduler.TaskScheduler.TaskGet` | kernel/src/arch/x86_64/multitasking/task.c:119-137 | the first task with the id, or NULL when there is none |
| `Scheduler.TaskScheduler.Release` | kernel/src/kernel.c:58 | a creator writes READY into its task in any state |
| `Scheduler.TaskScheduler.ChangePageDir` | kernel/src/arch/x86_64/memory/paging.c:88-97 | a switch is recorded in the current task |
| `Scheduler.TaskScheduler.DeleteTask` | kernel/src/arch/x86_64/multitasking/scheduler.c:93-112 | as far as the list goes: removes the first task with the id, no other |
| `Scheduler.TaskScheduler.FindNext` | kernel/src/arch/x86_64/multitasking/scheduler.c:25-64 | the loop over linked nodes, deleting as it goes, computes the search function |
| `Scheduler.TaskScheduler.Switch` | kernel/src/arch/x86_64/multitasking/scheduler.c:66-87 | status, current task, saved and loaded frame, stack and directory after the search |
| `Scheduler.TaskScheduler.Schedule` | kernel/src/arch/x86_64/multitasking/scheduler.c:18-91 | a tick on linked nodes is the tick of the runs, crash included; before the scheduler is ready it does nothing; it keeps the run invariant |
| `FatVolume.LayoutSeparates` | kernel/src/drivers/fs/fat32/fat32.c:91-93 | the first table starts right behind the reserved sectors, data cluster 2 right behind the last table, and all sectors of the first table lie in front of the data |
| `FatVolume.LookupIsFlat` | kernel/src/drivers/fs/fat32/fat32.c:175-187 | the one-sector lookup decodes the entry of the flat little-endian table, top four bits ignored |
| `FatVolume.EntryRoundTrip` | kernel/src/drivers/fs/fat32/fat32.c:175-187 | a 32-bit number written least significant byte first at the entry's place is read back modulo 2^28, by the lookup and from the flat table; it is an end mark exactly when that is at least 0x0FFFFFF8 |
| `FatVolume.LbaOfCluster` | kernel/src/drivers/fs/fat32/fat32.c:121-124 | in 32-bit arithmetic a data cluster is mapped to its sectors on the disk |
| `FatVolume.ClustersDisjoint` | kernel/src/drivers/fs/fat32/fat32.c:121-124 | distinct clusters have disjoint sector ranges |
| `FatVolume.SectorSlice` | kernel/src/drivers/fs/fat32/fat32.c:502-534 | bytes of a chain's sector are consecutive bytes of the flat chain, at the computed place |
| `Fat32.FileHandle.constructor` | kernel/src/drivers/fs/fat32/fat32.c:111-118 | an opened handle stands at the first cluster and offset 0 |
| `Fat32.Driver.NextCluster` | kernel/src/drivers/fs/fat32/fat32.c:175-187 | the successor in the chain by one sector read, or an end mark when that fails |
| `Fat32.Driver.ReadSector` | kernel/src/drivers/fs/fat32/fat32.c:507-533 | skips a sector, or delivers the wanted part of it from its place in the chain |
| `Fat32.Driver.ReadCluster` | kernel/src/drivers/fs/fat32/fat32.c:504-534 | the sector loop delivers the rest of the cluster or of the request, or, after a failed read, exactly what lies before the failed sector; it stops at the first failure and reads only the cluster's sectors |
| `Fat32.Driver.ReadChain` | kernel/src/drivers/fs/fat32/fat32.c:496-541 | the cluster loop delivers consecutive bytes of the chain: all without a failure, up to the failed sector after a failed data read, up to the end of the cluster or the request after a failed lookup |
| `Fat32.Driver.Read` | kernel/src/drivers/fs/fat32/fat32.c:475-542 | any count, any failures, any handle on the chain or of an empty file: exactly how many bytes are delivered in each case, offset advanced by as many, only the chain's sectors read, and none after a failure |
| `Fat32.CoherentRead` | kernel/src/drivers/fs/fat32/fat32.c:475-542 | a coherent handle gets the file's bytes from its offset, all of them unless a read failed, and stays coherent if and only if the read ended in a failed data read, at end of file, or on a cluster boundary with the successor found |
| `Fat32.MisalignedReadSkipsCluster` | kernel/src/drivers/fs/fat32/fat32.c:536-537 | otherwise it is left one whole cluster ahead, or at the chain's end exactly when the chain reaches no further |
| `Fat32.Driver.ReadTwice` | kernel/src/drivers/fs/fat32/fat32.c:475-542 | a second read continues one that ended on a cluster boundary or at end of file; after one that stopped inside a cluster it delivers bytes from one cluster too far, or nothing when there is none |
| `Fat32.Driver.LostTail` | kernel/src/utils/shell.c:135-144 | a 1000-byte file in one two-sector cluster yields 512 bytes and then nothing |
| `Fat32.SmallChunkExample` | kernel/src/utils/shell.c:135-144 | with two sectors to a cluster, after the first 512 bytes of a 2000-byte file the handle stands for byte 1536 |
| `Fat32.ChunksExactly` | kernel/src/utils/shell.c:135-144 | when no read fails, the first chunk of a file leaves the handle in place if and only if the chunk is a multiple of the cluster size or holds the whole file |
| `Fat32.ChunksAlwaysExactly` | kernel/src/utils/shell.c:135-144 | whatever reads fail, every chunk starts in place if and only if one chunk holds the file, or chunks are whole clusters and clusters are single sectors or the file is at most one sector longer than a chunk |
| `Fat32.ConsumedAligned` | kernel/src/drivers/fs/fat32/fat32.c:500-537 | after m clusters were used up the handle is in place exactly on a cluster boundary |
| `Fat32.Driver.WalkTo` | kernel/src/drivers/fs/fat32/fat32.c:588-595 | reaches the wanted cluster if and only if the chain is long enough and no lookup failed |
| `Fat32.Driver.Seek` | kernel/src/drivers/fs/fat32/fat32.c:572-601 | moves to the cluster holding the offset, or leaves the handle unchanged, with the exact condition and result |
| `Fat32.SeekReach` | kernel/src/drivers/fs/fat32/fat32.c:584-601 | the cluster exists exactly when the offset is below the capacity of the chain, and then the handle is coherent |
| `Fat32.Driver.SeekThenRead` | kernel/src/drivers/fs/fat32/fat32.c:475-601 | seek, then read, delivers the slice of the flat file at the offset, all that was asked for unless a disk read failed; the seek succeeds exactly when the handle stood there or no lookup failed |
| `Fat32.ChunkStep` | kernel/src/utils/shell.c:138-144 | a chunk, cut short or not, leaves the handle ready for the next unless a failed lookup ended the chain |
| `Fat32.Driver.ReadFile` | kernel/src/utils/shell.c:135-144 | reading chunks that fit until nothing comes concatenates to exactly the file's bytes unless a read fails; under the condition above it is a prefix of the file for every pattern of failures |
| `HeapModel.AlignSizeFits` | kernel/src/utils/maths.c:3-14 | rounding a request yields the next multiple of 16, and 0 for the 15 largest requests |
| `HeapModel.TilesConserve` | kernel/src/arch/x86_64/memory/heap.c:13-30 | payload sizes plus headers of a tiling add up to the extent |
| `HeapModel.CarveTilesExactly` | kernel/src/arch/x86_64/memory/heap.c:32-54 | a split keeps the tiling if and only if the block fits exactly or leaves room for a header |
| `HeapModel.ReleaseUndoesCarve` | kernel/src/arch/x86_64/memory/heap.c:76-185 | freeing what was just handed out restores the block list, unless it was an exact fit with a free block behind it |
| `HeapModel.MallocCarves` | kernel/src/arch/x86_64/memory/heap.c:32-148 | with room, the word writes of malloc carve the block and keep all other headers |
| `HeapModel.CombineJoins` | kernel/src/arch/x86_64/memory/heap.c:76-101 | the word writes of CombineForward join the block with a free one behind it and keep all other headers |
| `HeapModel.StoreInvisible` | kernel/src/arch/x86_64/memory/heap.c:147 | an owner's write inside its payload leaves every header alone |
| `HeapModel.MallocHoldsExactly` | kernel/src/arch/x86_64/memory/heap.c:32-148 | after malloc the words chain some tiling of the extent if and only if the chosen block fits exactly or leaves room for a header |
| `HeapRuns.RunsAreSafe` | kernel/src/arch/x86_64/memory/heap.c:113-185 | over every run of malloc, free and owners' writes the words chain a tiling whose used blocks are exactly the live payloads |
| `HeapRuns.LivePayloads` | kernel/src/arch/x86_64/memory/heap.c:113-185 | in every reachable state payloads are aligned, inside the extent, large enough and disjoint, no byte is lost, and once all are freed no block is in use |
| `HeapRuns.RunKeepsWord` | kernel/src/arch/x86_64/memory/heap.c:113-185 | a word in a live payload keeps its value over every run until its owner writes there again or frees it |
| `HeapRuns.MallocGoesOn` | kernel/src/arch/x86_64/memory/heap.c:113-168 | a malloc goes on exactly when the lowest free block with the rounded number of bytes has just as many or 32 more for a header; it hands out that block's payload, which was no one's |
| `HeapRuns.FreeGivesBack` | kernel/src/arch/x86_64/memory/heap.c:170-185 | a free ends the payload's life and leaves a free block with room for it in its place |
| `HeapRuns.StoredWordReadsBack` | kernel/src/arch/x86_64/memory/heap.c:113-185 | what an owner writes it reads back over every run in which it neither writes there again nor frees it |
| `HeapModel.MallocKeepsPayload` | kernel/src/arch/x86_64/memory/heap.c:32-148 | the writes of malloc leave the payload of every other block alone |
| `HeapModel.FreeKeepsPayload` | kernel/src/arch/x86_64/memory/heap.c:76-185 | so do the writes of free for the payload of every other used block |
| `HeapRuns.RemainderExample` | kernel/src/arch/x86_64/memory/heap.c:39-41 | asking a fresh heap of 0x20 pages for all but 16 of its bytes leaves words that chain no tiling |
| `Heap.KernelHeap.InitializeHeap` | kernel/src/arch/x86_64/memory/heap.c:13-30 | the extent becomes one free block with a header and no memory outside the header changes |
| `Heap.KernelHeap.SplitNode` | kernel/src/arch/x86_64/memory/heap.c:32-54 | the exact words written, and lastNode |
| `Heap.KernelHeap.CombineForward` | kernel/src/arch/x86_64/memory/heap.c:76-101 | the exact words written, and lastNode |
| `Heap.KernelHeap.Malloc` | kernel/src/arch/x86_64/memory/heap.c:113-168 | the walk finds the lowest free block that is large enough, and with room hands it out keeping the heap valid |
| `Heap.KernelHeap.Free` | kernel/src/arch/x86_64/memory/heap.c:170-185 | gives the block back and joins it with a free one behind it by exactly the stated writes; the heap stays valid, lastNode the tail included |
| `HeapModel.JoinedTail` | kernel/src/arch/x86_64/memory/heap.c:89-92 | the tail of the list moves exactly when the block joined in was the tail |

## Left out

- Devices and assembly: AHCI, PCI, PIC, PIT, GDT, IDT, port I/O and keyboard. The timer interrupt is a scheduler event,
  a disk read a sector that may fail.
- The processor's translation cache and its directory register: translation always goes through the tables.
- Framebuffer, console, font, shell commands, logging and printf: nothing to prove beyond easy facts.
- FAT32 path and name lookup, directory listing and long names: no clean specification; the model starts from a
  directory entry already found. Reading the boot sector is left out, its fields are parameters.
- Heap expansion, CombineBackward and the `last` pointers: a split leaves `last` unset, so those words hold anything
  and nothing is claimed about code that reads them. Running out of the first extent is the outcome `MustExpand`.
- HEAP_LOCK, PAGING_LOCK and TASK_LOCK: their critical sections are taken as atomic. Only PMM_LOCK is interleaved.
- Scheduler.TaskScheduler.DeleteTask: does not model the freeing of stack and directory, which depends on the saved
  stack pointer and the directory in force, what it frees, and its panic on an address without translation. Only the
  removal from the list is modelled, and a deleted node keeps its fields, as the search reads its next pointer.
- Scheduling.RunsNeverCrash: says nothing about the panic of those frees.
- Scheduling.KilledTaskGone: takes those frees to succeed.
- Frees that race with an allocator: pmm_FreePages takes no lock, so in `SpinLock` frees happen only while it is free.
- Task creation is atomic with respect to ticks. In the kernel the new node is briefly READY before its status is set.
- The panic of ChangePageDirFake inside schedule and of ChangePageDir inside StackGenerateUser when called for a new
  task: in `Scheduling` directories are valid. `Paging.PointerTranslates` shows when that is so.
- Exhaustion locks pages at the invalid address before it is noticed; the writes outside the bitmap that this causes
  are not modelled, the outcome is the panic that follows.
- Paging takes every page of the bitmap to be backed by memory, so it speaks about machines without slack bits.
- Memory-map assumptions (`PmmBoot.MapFits`): usable entries lie inside the page range, their bases are page-aligned
  where a lemma says so, and the largest one holds the bitmap.
- Data pages hold 512 words like tables; bytes inside them are not modelled.
- linked_list.c, string.c and memory.c: used as one-line helpers where needed.
- Fat32.Driver.Read: the chain of a file that is not empty is required to be long enough for its size and free of
  cycles, and the handle's offset not to exceed the size; on a damaged volume nothing is claimed.
- HeapRuns.RunsAreSafe: runs end where the extent runs out, where a split leaves no room for a header, or where
  rounding wraps a request; `HeapModel.MallocHoldsExactly` says what the second of these leaves behind.
- HugePages.AgreeExactly: assumes that some frame other than 0 is no table.
- Scheduler.TaskScheduler.Release: for a task already deleted the write goes into freed memory; what else that memory
  may hold by then is not modelled.
- PmmRuns.RunsAreSafe: owners free only regions they hold; freeing a page that is free or reserved is covered by the
  range lemmas of `PmmModel` alone.
