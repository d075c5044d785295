# Verified models of a small operating system and of two lock exercises

The repository holds student kernels (gemOS, Assignments 2 and 3) and concurrent data structures
(Assignment 4). This project models their hardest parts in Dafny and proves what they are for.

**Virtual-memory areas** (`mmap.c`). A process keeps its mapped ranges in a sorted list of at most 128
areas. The list is modelled node for node (`AddressSpaces.AddressSpace`), its meaning is the map from
addresses to protections (`AreaLists.At`). mmap adds exactly one free range, at the address the search
rules prescribe; munmap removes exactly its range; mprotect changes exactly the protections of its range.
Lists in the coalesced form are canonical, so munmap of a range just mapped restores the list. The node
count after mprotect is computed from the meaning alone.

**Copy-on-write memory** (`cfork.c`, `page.c`, `pfn_unmap`, page faults). `Kernels.Kernel` holds one
`AddressSpace` per process and the page tables, frames and u8 reference counts that all share. Every run
of loads, stores (with their faults), cfork, mmap, munmap, mprotect and heap growth is a run of *eager
copying* (`EagerCopies.Eager`), where each space owns its memory outright. Along the way every count
equals the number of entries that map the frame, a writable entry is the only one of its frame, and every
entry lies in an area or in the data segment of its space. A world of the eager semantics also names its
*stale* pages, those that mprotect has made read-only but that can still be written: they appear only behind
the first page of an mprotect that takes write permission away, and never without one. What processes see of such a run
is read off its commands and answers alone (`MemoryLaws`): a load returns the byte last stored, a child starts
with its parent's bytes, and calls grant and revoke access as they promise. The bound of 256
address spaces is necessary: the exact condition under which a store isolates, with no bound at all, is
proved beside it.

**Four-level page table** (`map_physical_page`, `install_page_table`, `get_user_pte`). Tables in frames of
512 entries are a map from pages to leaf entries: setting a leaf changes the look-up of one page of one
root, because no table hangs on two entries. `SpaceTables` composes them with the copy-on-write memory: any
list of writes to the tables of all spaces leaves exactly the flat map that `CowMemory` works on, and every
step there is one or two such writes.

**Parallel hash table** (`parallel_hash.c`, `serial_hash.c`). A machine whose steps are the critical
sections of the input lock and of the slot locks. On every input with non-zero keys and ascending ids, every
interleaving of up to 32 workers that no failed assertion stops gives every operation the reply, and every
key the entry, of the serial run; no worker deadlocks; every run ends. The assertions behind the probe loop
(`parallel_hash.c:136` and `145`) hold in every interleaving exactly when there are no more fresh insertions
than slots (overwrites take none), and the one before it (`122`) exactly for the bounds below the number of
slots. The serial program is modelled with its own assertions: when one call aborts is characterised exactly.
What the parallel program prints is the serial table up to the order of the lines, and slot for slot when
there is one worker.

**Reader/writer lock** (`rwlock.c`). A machine of atomic additions on one signed 64-bit word. It excludes
in every run of n threads if and only if n <= 32769.

**File descriptors and pipes** (`file.c`, `pipe.c`), the **scheduler** (`schedule.c`) and the **input
records** of the hash program (`inputgen.c`, `read_op`) complete the picture.

Where the code departs from what one would expect, the model follows the code and the departure is a
theorem:

- `mmap.c:811-813` grows the last area at the hint but returns the start of that area
  (`VmLaws.ReportIsExact`, `VmLaws.ReportCanBeWrong`).
- `mmap.c:276-296` never checks the end of a range that starts in the last area
  (`MProtect.Protect`, `VmLaws.RunsOffIsNotCovered`, `VmLaws.UnmappedPageIsAccepted`).
- `mmap.c:335` and `mmap.c:341` take an equal neighbour to touch the area, so 129 areas can result
  (`VmLaws.ProtectKeepsLimit`, `VmLaws.LimitCanBeExceeded`, and for whole runs `EagerCopies.RunLimit`).
- `mmap.c:495-496` rewrites the entry of the first page only, so a writable entry can outlive the
  permission (`Kernels.Kernel.ProtectPages`, `MemorySteps.StaleBitRemains`).
- `page.h` stores reference counts in a u8: with 257 sharers a store is seen by the others
  (`CowLimits.WriteIsolatesExactly`, `CowLimits.ForksCanBreakIsolation`).
- `parallel_hash.c:64` scans 32 of 33 workers (`ParallelLimits.SafeUpToScan`).
- `test.sh` compares the printed table with that of the serial program line by line. The lines agree up to
  their order (`ParallelDumps.PrintsSerialLines`), and in their order exactly with one worker
  (`ParallelDumps.OneWorkerIsSerial`, `ParallelDumps.DumpIsDetermined`).
- `serial_hash.c:67` stops an insertion whose only free slot is the one before its home slot, although the
  parallel program stores the key there (`HashTable.Table.InsertUpdate`, `HashTable.SerialCanAbort`).
- `parallel_hash.c:122` asserts a free slot even for an overwrite, so a table that is exactly full stops the
  program: as many fresh insertions as slots are one too many (`ParallelLimits.BoundIsExact`).
- `read_op` copies 24 bytes at the end of the file, and these lie in the mapping exactly when the last page of
  the file is used and has 24 bytes left (`OperationRecords.EndStaysMapped`).
- `pipe.c:92` adds in 32 bits, so a huge write is cut short instead of refused
  (`PipeBuffer.WriteIsWhole`).
- `schedule.c:41` never wakes a process that slept for 0 ticks (`Scheduler.SleepIsExact`).

Modules build on each other in this order: `Options`, `AreaLists`, `AreaInsertion`, `AddressSearch`,
`AreaRemoval`, `AddressSpaces`, `AreaProtection`, `AreaCounting`, `MProtect`, `VmLaws`; `CowMemory`,
`CowLimits`, `EagerCopies`, `MemoryLaws`, `PageFaults`, `TableAgreement`, `MemorySteps`, `Kernels`; `PageTable`, `SpaceTables`;
`HashSlots`, `HashTable`, `ParallelHash`, `ParallelRuns`, `ParallelLimits`,
`ParallelDumps`; `RwLock`; `FileObjects`,
`DescriptorTable`, `DescriptorLaws`; `PipeBuffer`; `Scheduler`; `OperationRecords`.

## Model

| member | source | states |
|---|---|---|
| `AreaLists.CanonicalUnique` | Assignment3/Ass3/src/mmap.c:588-618 | two sorted, coalesced lists that map every address alike are equal node for node |
| `AreaInsertion.InsertMeaning` | Assignment3/Ass3/src/mmap.c:588-618 | adding a range to a gap, merging with equal touching neighbours on either side, maps exactly that range in addition |
| `AreaInsertion.InsertCanonical` | Assignment3/Ass3/src/mmap.c:588-618 | adding a range to a gap, with merging, keeps the list sorted, coalesced and page-aligned |
| `AreaInsertion.InsertCount` | Assignment3/Ass3/src/mmap.c:588-618 | adding a range changes the number of nodes by 1, 0 or -1 according to the neighbours it joins |
| `AddressSearch.NoFitAmong` | Assignment3/Ass3/src/mmap.c:569-623 | if the gaps walked over are too small, no address between the areas walked over fits |
| `AddressSearch.TargetFirst` | Assignment3/Ass3/src/mmap.c:540-640 | without a hint the first gap with room starts at the least fitting address of the window |
| `AddressSearch.TargetAhead` | Assignment3/Ass3/src/mmap.c:843-916 | after an unusable hint the first gap with room above it starts at the least fitting address from the hint on |
| `AddressSearch.TargetBehind` | Assignment3/Ass3/src/mmap.c:918-1020 | when nothing fits from the hint on, the second search finds the least fitting address of all |
| `AddressSpaces.AddressSpace.PlaceInGap` | Assignment3/Ass3/src/mmap.c:570-619 | the four merge cases at the start of a gap amount to one insertion, or a refusal when a 129th node would be needed |
| `AddressSpaces.AddressSpace.PlaceAtHead` | Assignment3/Ass3/src/mmap.c:542-567 | placement at the start of the window, merging with the first area or taking a node |
| `AddressSpaces.AddressSpace.PlaceAtTail` | Assignment3/Ass3/src/mmap.c:624-641 | placement behind the last area |
| `AddressSpaces.AddressSpace.PlaceBelow` | Assignment3/Ass3/src/mmap.c:667-696 | a hint inside a gap is used exactly if the gap has room, otherwise nothing changes and the search resumes behind the gap |
| `AddressSpaces.AddressSpace.PlaceTouching` | Assignment3/Ass3/src/mmap.c:705-760 | a hint at the end of an area is used exactly if the gap has room |
| `AddressSpaces.AddressSpace.PlaceAtEnd` | Assignment3/Ass3/src/mmap.c:801-836 | a hint in or above the last area, with the value the code reports |
| `AddressSpaces.AddressSpace.MapAnywhere` | Assignment3/Ass3/src/mmap.c:527-644 | mmap without a hint takes the least fitting address, keeps the list canonical and within 128 nodes, or changes nothing |
| `AddressSpaces.AddressSpace.MapNear` | Assignment3/Ass3/src/mmap.c:698-1026 | mmap with a hint takes the least fitting address from the hint on, or else the least of all; MAP_FIXED only the hint |
| `AddressSpaces.AddressSpace.Map` | Assignment3/Ass3/src/mmap.c:503-1027 | mmap adds exactly one free range with `prot` at the prescribed address, keeps the list sorted, disjoint, aligned, coalesced and at most 128 long, and on -1 leaves it unchanged; the reported address is stated as the code computes it; what a fixed call and a search do is also stated on addresses alone |
| `AddressSpaces.FixedMeaning` | Assignment3/Ass3/src/mmap.c:503-840 | MAP_FIXED maps exactly the range at its address, and returns -1 leaving the list alone exactly if one of its addresses is mapped or outside the window, or a 129th node is needed |
| `AddressSpaces.SearchMeaning` | Assignment3/Ass3/src/mmap.c:503-1027 | any other call takes the lowest free place at or above the hint, or if there is none the lowest of all, and fails exactly if no place is free or a 129th node is needed |
| `AddressSpaces.AddressSpace.Unmap` | Assignment3/Ass3/src/mmap.c:1042-1152 | munmap leaves exactly the cut list; it returns -1, changing nothing, exactly outside the window or when a full list would need another node; a list within 128 nodes stays within them |
| `AddressSpaces.AddressSpace.DeleteUpwards` | Assignment3/Ass3/src/mmap.c:1114-1138 | the deletion loop equals cutting the rest of the list |
| `AreaRemoval.CutCanonical` | Assignment3/Ass3/src/mmap.c:1066-1139 | cutting keeps a list sorted, coalesced and aligned |
| `AreaRemoval.CutCount` | Assignment3/Ass3/src/mmap.c:1088-1101 | cutting adds a node only where it splits an area, and then one |
| `VmLaws.UnmapMeaning` | Assignment3/Ass3/src/mmap.c:1042-1152 | what munmap leaves maps exactly the addresses outside the range as before, and is canonical |
| `VmLaws.UnmapUndoesMap` | Assignment3/Ass3/src/mmap.c:1042-1152 | unmapping the range an mmap added restores the old list node for node and never meets the node limit |
| `VmLaws.InsertedList` | Assignment3/Ass3/src/mmap.c:527-1027 | whatever branch mmap took, the new list is one insertion into the gap of its range |
| `VmLaws.MapFailsOnlyWhenFull` | Assignment3/Ass3/src/mmap.c:527-1027 | below the node limit a call that is not fixed fails exactly when nothing in the window fits |
| `VmLaws.ReportIsExact` | Assignment3/Ass3/src/mmap.c:810-813 | the reported address is the start of the new range exactly unless the last area was grown at the hint |
| `VmLaws.ReportCanBeWrong` | Assignment3/Ass3/src/mmap.c:811-813 | a concrete call that maps the second page and reports the first |
| `MProtect.RangeIsMapped` | Assignment3/Ass3/src/mmap.c:275-296 | the check accepts exactly the fully mapped ranges and those that start in the last area and run past it |
| `MProtect.CountSpan` | Assignment3/Ass3/src/mmap.c:306-323 | the count of areas that the range meets |
| `MProtect.RefusesExactly` | Assignment3/Ass3/src/mmap.c:325-373 | on a fully mapped range the limit test refuses exactly when the nodes do not suffice and no neighbour misleads it |
| `MProtect.RecolourRange` | Assignment3/Ass3/src/mmap.c:375-476 | the first pass gives exactly the mapped part of the range the new protection |
| `MProtect.MergeAll` | Assignment3/Ass3/src/mmap.c:478-493 | the second pass coalesces the list without changing its meaning |
| `MProtect.Protect` | Assignment3/Ass3/src/mmap.c:256-493 | on 0 exactly the mapped addresses of the range have `prot` and the list is canonical with the computed number of nodes; on -1 nothing changed; success is characterised exactly for fully mapped ranges and for those that run off the last area, and no other range is accepted |
| `AreaCounting.ProtectCount` | Assignment3/Ass3/src/mmap.c:375-493 | any canonical list with the new protections has `Growth` more nodes, a number read off the old meaning at the ends of the range |
| `AreaCounting.GrowthByNodes` | Assignment3/Ass3/src/mmap.c:325-373 | the change of the node count equals a number read off the neighbours at the two ends of the range and the nodes inside it |
| `VmLaws.ProtectGrowth` | Assignment3/Ass3/src/mmap.c:353-373 | three or more areas never grow the list, two add at most one node, one at most two |
| `VmLaws.ProtectKeepsLimit` | Assignment3/Ass3/src/mmap.c:325-373 | whatever mprotect returns, a list within 128 nodes stays within them exactly unless the list is full, the range is mapped and a neighbour misleads the test |
| `VmLaws.ProtectAccepts` | Assignment3/Ass3/src/mmap.c:325-373 | with two nodes to spare every mapped range is accepted |
| `VmLaws.RunsOffIsNotCovered` | Assignment3/Ass3/src/mmap.c:276-296 | a range that runs off the last area, which the check accepts, is not fully mapped |
| `VmLaws.UnmappedPageIsAccepted` | Assignment3/Ass3/src/mmap.c:276-296 | with one mapped page, mprotect of that page and the unmapped one behind it returns 0 |
| `VmLaws.LimitCanBeExceeded` | Assignment3/Ass3/src/mmap.c:340-342 | on a concrete full list a concrete call returns 0 and leaves 129 nodes |
| `CowMemory.ShareKeeps` | Assignment3/Ass3/src/cfork.c:117-130 | sharing a page keeps counts equal to the number of entries and write bits exclusive |
| `CowMemory.ShareView` | Assignment3/Ass3/src/cfork.c:117-130 | sharing a page gives the child exactly a copy of that page and changes no other memory |
| `CowMemory.CountIsOne` | Assignment3/Ass3/src/page.c:20-35 | with at most 256 spaces a stored count of 1 means a single entry |
| `CowMemory.CowKeeps` | Assignment3/Ass3/src/cfork.c:241-270 | a copy-on-write fault keeps counts and exclusive write bits |
| `CowMemory.CowView` | Assignment3/Ass3/src/cfork.c:241-270 | a copy-on-write fault changes nobody's memory and leaves the faulting entry writable |
| `CowMemory.InstallKeeps` | Assignment3/Ass3/src/mmap.c:204-248 | installing a fresh frame keeps counts and exclusive write bits |
| `CowMemory.DropKeeps` | Assignment3/Ass3/src/mmap.c:55-77 | unmapping a page keeps the counts and frees the frame exactly with its last entry |
| `CowMemory.DropView` | Assignment3/Ass3/src/mmap.c:55-77 | unmapping a page takes it from one space and nothing from any other |
| `CowMemory.PokeView` | Assignment3/Ass3/src/cfork.c:247-254 | a store through a writable entry changes one byte of one page of one space |
| `CowMemory.SetKeeps` | Assignment3/Ass3/src/mmap.c:81-108 | changing permissions keeps counts and never makes a shared entry writable |
| `CowLimits.WriteIsolatesExactly` | Assignment3/Ass3/src/cfork.c:241-270 | with any number of spaces, a faulting store isolates exactly unless the frame has more than one sharer and a count that is 1 modulo 256 |
| `CowLimits.UnmapSparesExactly` | Assignment3/Ass3/src/mmap.c:61-71 | unmapping spares the other sharers under exactly the same condition |
| `CowLimits.ForkAddsSharer` | Assignment3/Ass3/src/cfork.c:117-130 | each cfork of one process adds one sharer, so the bad count is reachable |
| `CowLimits.ForksCanBreakIsolation` | Assignment3/Ass3/src/cfork.c:241-270 | with 257 spaces all invariants hold and yet a store is seen by others and an unmapping takes their page |
| `PageFaults.MayServe` | Assignment3/Ass3/src/mmap.c:171-202 | vm_area_pagefault serves exactly the not-present accesses to mapped, permitted addresses of the window |
| `PageFaults.PageIsMapped` | Assignment3/Ass3/src/mmap.c:177-191 | the walk of vm_area_pagefault finds exactly the mapped addresses |
| `PageFaults.WriteDenied` | Assignment3/Ass3/src/mmap.c:193-202 | the permission walk denies exactly mapped addresses without the write flag |
| `PageFaults.InSomeArea` | Assignment3/Ass3/src/cfork.c:200-216 | the area walk of the copy-on-write fault finds exactly the mapped addresses |
| `PageFaults.InData` | Assignment3/Ass3/src/cfork.c:218-229 | the walk over the data segment finds exactly its addresses |
| `TableAgreement.MapAgrees` | Assignment3/Ass3/src/mmap.c:503-1027 | mmap keeps entries inside areas and makes no page stale or unstale |
| `TableAgreement.UnmapAgrees` | Assignment3/Ass3/src/mmap.c:1146-1149 | dropping exactly the entries of the range keeps entries inside areas when munmap removes the range, and takes exactly the stale pages of the range away |
| `TableAgreement.ForkAgrees` | Assignment3/Ass3/src/cfork.c:13-38 | the child's entries lie inside the child's copy of the areas, and the parent's stale pages are stale no longer |
| `TableAgreement.ProtectAgrees` | Assignment3/Ass3/src/mmap.c:495-496 | after mprotect entries still lie inside areas, and the stale pages of the range are exactly its writable entries, if writing was taken away |
| `MemorySteps.MissStep` | Assignment3/Ass3/src/entry.c:529-577 | a permitted fault on an absent page keeps every invariant and adds exactly that page |
| `MemorySteps.CowStep` | Assignment3/Ass3/src/cfork.c:196-272 | a permitted copy-on-write fault keeps every invariant and every space's memory |
| `MemorySteps.ProtectStep` | Assignment3/Ass3/src/mmap.c:495-496 | rewriting the first page's entry keeps every invariant; the stale pages of the range are exactly the later ones with a writable entry, if writing was taken away |
| `MemorySteps.StaleBitRemains` | Assignment3/Ass3/src/mmap.c:495-496 | two resident pages of one area are made read-only by one mprotect, every invariant holds, and the second page can still be written |
| `MemorySteps.ForkNext` | Assignment3/Ass3/src/cfork.c:84-135 | one turn of the sharing loops extends the pages the child owns a copy of |
| `MemorySteps.ForkDone` | Assignment3/Ass3/src/cfork.c:50-140 | once data segment and areas are shared, the child has a copy of all of the parent's pages and every invariant holds |
| `EagerCopies.OthersKeepTheirs` | Assignment3/Ass3/src/cfork.c:50-135 | under eager copying no command of one space changes areas, memory or stale pages of another |
| `EagerCopies.RunIsolates` | Assignment3/Ass3/src/cfork.c:50-135 | in any run, with any mprotect calls, a space that issues no command keeps its areas and its memory |
| `EagerCopies.HarmlessRun` | Assignment3/Ass3/src/mmap.c:495-496 | as long as no mprotect takes the write permission from more than one page, no page is ever stale, so a store succeeds exactly where areas and data segment permit it |
| `EagerCopies.StepLimit` | Assignment3/Ass3/src/mmap.c:325-373 | a command takes a list past 128 nodes exactly when it is an mprotect that misleads the refusal test at a full list |
| `EagerCopies.RunLimit` | Assignment3/Ass3/src/mmap.c:325-373 | in a run all lists stay within 128 nodes exactly as long as there is no such command |
| `MemoryLaws.LoadReturnsLastStore` | Assignment3/Ass3/src/entry.c:505-587 | in every run a load that does not fault returns the byte last stored at its address, if the process has not unmapped it since |
| `MemoryLaws.ChildLoadsParentsByte` | Assignment3/Ass3/src/cfork.c:10-140 | a child loads the byte its parent had stored before cfork, whatever the parent does afterwards, until the child stores or unmaps there itself |
| `MemoryLaws.ChildLoadsWhereParentDoes` | Assignment3/Ass3/src/cfork.c:10-140 | after cfork a load of the child faults exactly where one of the parent does |
| `MemoryLaws.MapGrants` | Assignment3/Ass3/src/mmap.c:503-1027 | after a successful fixed mmap a load in the range does not fault, and a store faults exactly if the protection lacks the write bit |
| `MemoryLaws.UnmapRevokes` | Assignment3/Ass3/src/mmap.c:1042-1152 | after a successful munmap every access to the range faults |
| `MemoryLaws.UnmapSucceeds` | Assignment3/Ass3/src/mmap.c:1042-1152 | within the window munmap can be refused only to a list at the node limit |
| `MemoryLaws.ProtectDecides` | Assignment3/Ass3/src/mmap.c:256-499 | after a successful mprotect a store to a mapped address of the range faults exactly if the new protection lacks the write bit, when no mprotect of the run can leave a stale page |
| `MemoryLaws.ExpandGrants` | Assignment3/Ass3/src/entry.c:152-178 | heap growth fails exactly above 1024 pages or at the window; otherwise it answers the start of the new pages, and no access to them ever faults |
| `Kernels.Kernel.constructor` | Assignment3/Ass3/src/context.c:311-315 | the first process has one writable page of data, and every invariant holds |
| `Kernels.Kernel.HandleCowFault` | Assignment3/Ass3/src/cfork.c:196-272 | succeeds exactly where writing is permitted, and then is the specified step |
| `Kernels.Kernel.HandleMissing` | Assignment3/Ass3/src/entry.c:529-577 | succeeds exactly where the access is permitted, and then installs one frame whose write bit is the access |
| `Kernels.Kernel.Access` | Assignment3/Ass3/src/entry.c:505-587 | an access succeeds exactly where areas and data segment permit it or a store meets a stale page, whatever else the entries look like, and changes no memory but a first touch |
| `Kernels.Kernel.ForkSpace` | Assignment3/Ass3/src/cfork.c:10-140 | cfork is eager copying of the whole space |
| `Kernels.Kernel.UnmapPages` | Assignment3/Ass3/src/mmap.c:1042-1152 | munmap cuts the list and removes exactly the range's pages of this space |
| `Kernels.Kernel.ProtectPages` | Assignment3/Ass3/src/mmap.c:256-499 | mprotect changes nobody's memory and keeps every invariant; a page becomes stale exactly if writing is taken away and a page after the first has a writable entry |
| `Kernels.Kernel.MapPages` | Assignment3/Ass3/src/mmap.c:503-1027 | mmap changes one space's areas and nobody's memory |
| `Kernels.Kernel.ExpandData` | Assignment3/Ass3/src/entry.c:152-178 | heap growth within the data segment |
| `Kernels.Kernel.Execute` | Assignment3/Ass3/src/cfork.c:50-135 | every run of commands, with any mprotect calls, is a run of eager copying, answer for answer and state for state, and ends in a state that keeps every invariant |
| `PageTable.PathInjective` | Assignment3/Ass3/src/entry.c:20-55 | the four indices of an address determine its page and are determined by it |
| `PageTable.PathDigits` | Assignment3/Ass3/src/entry.c:20-55 | the four indices are the base-512 digits of the page number, from the top |
| `PageTable.ReachUnique` | Assignment3/Ass3/src/context.c:197-240 | without shared tables a table is reached by one path from one root |
| `PageTable.AddKeepsLookups` | Assignment3/Ass3/src/context.c:201-207 | hanging an empty table into an empty entry changes no look-up under any root |
| `PageTable.LeafChangesSharers` | Assignment3/Ass3/src/context.c:234-239 | sharing or not, a leaf store changes exactly the look-ups whose walk ends at that entry |
| `PageTable.LeafChangesOne` | Assignment3/Ass3/src/context.c:234-239 | without shared tables a leaf store changes the look-up of exactly one page of one root |
| `PageTable.LeafDecides` | Assignment3/Ass3/src/entry.c:20-70 | when no table on the way withholds write permission, the processor's decision is the leaf entry's write bit |
| `PageTable.AddKeepsWritable` | Assignment3/Ass3/src/entry.c:100-128 | a new table withholds write permission exactly when it is hung in with the flags of a read access |
| `PageTable.RootKeeps` | Assignment3/Ass3/src/cfork.c:45-48 | an empty page directory maps nothing and changes no look-up of any other root |
| `PageTable.PageTables.MapPhysicalPage` | Assignment3/Ass3/src/context.c:197-240 | afterwards the page has the installed frame and flags, and every other page of every root its old entry; if no table withheld write permission before, none does, and the page may be written exactly as asked |
| `PageTable.PageTables.InstallPageTable` | Assignment3/Ass3/src/entry.c:88-134 | the fault path maps the page with the write bit of the access and leaves every other page of every root its old entry; a table withholds write permission afterwards exactly if a read access made a new one |
| `PageTable.PageTables.GetUserPte` | Assignment3/Ass3/src/entry.c:14-70 | finds the leaf entry exactly when every entry on the path is present and user-accessible |
| `PageTable.PageTables.ClearPage` | Assignment3/Ass3/src/mmap.c:55-77 | clearing the entry removes one page from the map |
| `SpaceTables.Tables.Do` | Assignment3/Ass3/src/context.c:197-240 | one new space, one set entry or one cleared entry leaves tables that hold exactly the changed flat map and withhold no write permission above the leaf |
| `SpaceTables.ProcessorAgrees` | Assignment3/Ass3/src/context.c:197-240 | on tables that hold the flat map so, the processor lets a write through exactly where the map has an entry with the write bit |
| `SpaceTables.Tables.DoAll` | Assignment3/Ass3/src/context.c:197-240 | after any list of writes the tables of all spaces hold exactly the flat map after those writes |
| `SpaceTables.InstallAndDropAreWrites` | Assignment3/Ass3/src/mmap.c:245-248 | installing and unmapping a page change the flat map by one such write |
| `SpaceTables.ShareIsTwoWrites` | Assignment3/Ass3/src/cfork.c:121-124 | sharing a page changes it by two |
| `SpaceTables.CowAndProtectAreWrites` | Assignment3/Ass3/src/cfork.c:247-264 | a copy-on-write fault and a change of permissions change it by one |
| `HashSlots.StopsMissing` | Assignment4/ass4/part-3/parallel_hash.c:95-112 | a probe that stops without its key proves that the key is not stored |
| `HashSlots.EndKeepsReached` | Assignment4/ass4/part-3/parallel_hash.c:115-185 | insertion and deletion keep every live key reachable from its home slot through occupied slots |
| `HashSlots.EndKeepsUnique` | Assignment4/ass4/part-3/parallel_hash.c:115-154 | insertion and deletion keep live keys unique |
| `HashSlots.EndValue` | Assignment4/ass4/part-3/parallel_hash.c:115-185 | insertion and deletion change the entry of their key as put and remove on a finite map do |
| `HashSlots.EndCount` | Assignment4/ass4/part-3/parallel_hash.c:151-179 | insertion and deletion change `used` by exactly the change in live slots |
| `HashSlots.NextIsModulo` | Assignment4/ass4/part-3/parallel_hash.c:101-101 | the probe step is addition modulo the table size |
| `HashTable.WrapsExactly` | Assignment4/ass4/part-3/parallel_hash.c:128-136 | a probe comes back to its home slot, so that the assertion of the parallel insertion fails, exactly when the key is not stored and every slot was used |
| `HashTable.StopsBeforeHome` | Assignment4/ass4/part-3/serial_hash.c:59-67 | a probe stops at the slot before its home slot, so that the assertion of the serial insertion fails, exactly when it can stop nowhere else |
| `HashTable.SerialCanAbort` | Assignment4/ass4/part-3/serial_hash.c:67-67 | a table with a free slot in which the serial insertion of a key aborts |
| `HashTable.Table.Lookup` | Assignment4/ass4/part-3/serial_hash.c:28-47 | lookup terminates and is get on the finite map |
| `HashTable.Table.InsertUpdate` | Assignment4/ass4/part-3/serial_hash.c:49-84 | insertion terminates; it aborts, changing nothing, exactly when every slot is live, or the only slot to stop at is the one before home, or the probe wraps onto a live home slot; otherwise the key has the id, length and data of this operation, stored before or not |
| `HashTable.Table.PurgeKey` | Assignment4/ass4/part-3/serial_hash.c:86-110 | deletion terminates and is remove |
| `HashTable.EnoughRoom` | Assignment4/ass4/part-3/serial_hash.c:56-75 | with one never-used slot an overwrite does not abort, and with two an insertion does not |
| `HashTable.RunSerial` | Assignment4/ass4/part-3/serial_hash.c:28-110 | the serial program gives every operation it reaches the map's reply, which is that of the last write on its key, and leaves exactly the slots of carrying the operations out in order; it stops early only at an insertion that aborts, and not at all when there are fewer fresh insertions than slots |
| `HashTable.LastWriteWins` | Assignment4/ass4/part-3/serial_hash.c:49-110 | after any prefix of the operations a key has the entry of the last PUT on it, unless a DEL came later or there was none |
| `HashTable.RepliesLastWrite` | Assignment4/ass4/part-3/serial_hash.c:28-110 | a GET replies with the data of the last write on its key and a DEL with 0 if that is a PUT, and both with -1 otherwise |
| `HashTable.EndTakesUnused` | Assignment4/ass4/part-3/parallel_hash.c:138-152 | an operation that has not come back to its home slot takes one never-used slot if it stores a missing key, and none otherwise |
| `ParallelHash.UnblockedMeansDone` | Assignment4/ass4/part-3/parallel_hash.c:61-82 | a worker that is let through finds every earlier operation on its key applied |
| `ParallelHash.AssertionsHold` | Assignment4/ass4/part-3/parallel_hash.c:136-145 | with no more fresh insertions than slots the probe of an insertion never ends at its home slot again nor at a slot of another key, not even in a full table |
| `ParallelHash.UsedIsExact` | Assignment4/ass4/part-3/parallel_hash.c:122-122 | the counter is below the table size exactly while a slot has no live key, and always with fewer fresh insertions than slots |
| `ParallelHash.SameKeyExclusive` | Assignment4/ass4/part-3/parallel_hash.c:29-87 | two operations on one key are never probing at once |
| `ParallelRuns.StepKeeps` | Assignment4/ass4/part-3/parallel_hash.c:29-185 | every critical section of every worker that does not fail the assertion behind the probe loop keeps the invariant, however many insertions there are |
| `ParallelRuns.EveryReachableState` | Assignment4/ass4/part-3/parallel_hash.c:29-87 | in every state of every run not stopped by that assertion, same-key operations are exclusive and applied in id order, and the counter is below the table size exactly while a slot has no live key |
| `ParallelRuns.EveryInterleavingIsSerial` | Assignment4/ass4/part-3/parallel_hash.c:29-185 | every finished run not stopped by that assertion has the replies and the key-to-entry map of the serial run, which are those of the last write on each key, `used` counts the live slots, and each fresh insertion has taken one slot |
| `ParallelRuns.RoomIsExact` | Assignment4/ass4/part-3/parallel_hash.c:128-145 | no interleaving fails an assertion behind the probe loop if and only if the input has no more fresh insertions than slots |
| `ParallelRuns.RoomySerial` | Assignment4/ass4/part-3/parallel_hash.c:29-185 | with no more fresh insertions than slots every finished run is serial |
| `ParallelRuns.UsedAgrees` | Assignment4/ass4/part-3/parallel_hash.c:151-179 | tables with one key-to-entry map have equally many live slots |
| `ParallelRuns.Progress` | Assignment4/ass4/part-3/parallel_hash.c:60-82 | while a worker has not exited, some worker can step: the earliest waiting operation is never blocked by another waiting one |
| `ParallelRuns.UnblockingBroadcasts` | Assignment4/ass4/part-3/parallel_hash.c:29-36 | a waiting worker becomes free to go only by a step of done_one, which broadcasts, so no wake-up is lost |
| `ParallelRuns.RunsEnd` | Assignment4/ass4/part-3/main.c:36-54 | no run, on any input, is longer than a bound computed from its first state |
| `ParallelRuns.RunsFinish` | Assignment4/ass4/part-3/main.c:36-54 | on every input with ascending ids every run can be continued until all workers exit |
| `ParallelLimits.SafeUpToScan` | Assignment4/ass4/part-3/parallel_hash.c:64-64 | of the worker counts main accepts, exactly those up to 32 give serial replies in every run, stopped by no assertion, on every input |
| `ParallelLimits.BoundIsExact` | Assignment4/ass4/part-3/parallel_hash.c:122-122 | for every table size n and up to 32 workers: in every run of every input with at most b fresh insertions the first assertion of insert_update holds, if and only if b < n |
| `ParallelDumps.OneWorkerIsSerial` | Assignment4/ass4/part-3/test.sh:5-39 | a finished run of one worker leaves the slots of the serial program, each entry in the same place |
| `ParallelDumps.PrintsSerialLines` | Assignment4/ass4/part-3/test.sh:26-39 | every finished run of up to 32 workers prints the lines of the serial table, each as often, in some order, and its count is their number |
| `ParallelDumps.DumpsAgreeUnordered` | Assignment4/ass4/part-3/common.h:109-126 | all finished runs of one input, with equally many workers or not, print the same count and, up to their order, the same lines |
| `ParallelDumps.DumpIsDetermined` | Assignment4/ass4/part-3/common.h:109-126 | of the worker counts up to 32, exactly one worker makes all finished runs of every input print the same lines in the same order |
| `RwLock.Lock.Advance` | Assignment4/ass4/part-2/rwlock.c:18-47 | each atomic step of the four functions is a step of the machine |
| `RwLock.Lock.AtomicAdd` | Assignment4/ass4/part-2/common.h:17-38 | addition wraps in 64 bits and reports the sign of the result |
| `RwLock.RunWord` | Assignment4/ass4/part-2/rwlock.c:12-47 | for any number of threads and any interleaving the word is the wrapped value of 2^48 (1 - writers) - readers |
| `RwLock.WordIsExact` | Assignment4/ass4/part-2/rwlock.c:12-47 | up to 32769 threads nothing wraps, and the idle word is 2^48 |
| `RwLock.AttemptsAreExact` | Assignment4/ass4/part-2/rwlock.c:18-42 | a write attempt succeeds exactly when nobody has anything subtracted, a read attempt exactly when no writer has |
| `RwLock.ExclusionBound` | Assignment4/ass4/part-2/rwlock.c:18-42 | a holding writer excludes all other holders in every run of n threads if and only if n is at most 32769 |
| `RwLock.OverflowAdmitsReader` | Assignment4/ass4/part-2/rwlock.c:36-42 | the run of 32770 threads that lets a reader in beside the writer |
| `RwLock.NeverStuck` | Assignment4/ass4/part-2/rwlock.c:18-47 | from every reachable state a waiting thread can still get the lock |
| `FileObjects.CloseKeeps` | Assignment2/170635/file.c:112-143 | closing a slot frees the object exactly with its last slot and the pipe exactly with its last end, and keeps all counts |
| `FileObjects.NewPipeKeeps` | Assignment2/170635/pipe.c:134-174 | a new pipe has one read end and one write end, and all counts hold |
| `FileObjects.StateFromSlots` | Assignment2/170635/file.c:90-143 | counts, live objects, pipe flags and the object counter all follow from which slot points at which object |
| `DescriptorTable.Descriptors.FindFree` | Assignment2/170635/file.c:276-281 | the scan finds the least unused descriptor |
| `DescriptorTable.Descriptors.CheckOpen` | Assignment2/170635/file.c:246-274 | the checks of open accept exactly short names whose inode exists, or is newly created when asked for, within the size limit and with the permissions asked for |
| `DescriptorTable.Descriptors.GenericClose` | Assignment2/170635/file.c:112-143 | drops one reference; the last one frees the object, closes its end of the pipe, and frees the pipe with its other end closed |
| `DescriptorTable.Descriptors.CloseFd` | Assignment2/OS_CS330_Assignment_2-master-74142bb70987a9ece2389665671106766b5c7bc8/gemOS/src/entry.c:463-475 | close removes exactly this descriptor, leaving its answer undefined, or reports that it is not open |
| `DescriptorTable.Descriptors.OpenRegular` | Assignment2/170635/file.c:237-300 | after the checks, a new regular object at the least free descriptor from 3 on, or an error that changes nothing |
| `DescriptorTable.Descriptors.CreatePipe` | Assignment2/170635/pipe.c:108-182 | the two least free descriptors refer to the read end and the write end of one new pipe, or nothing changes |
| `DescriptorTable.Descriptors.DupFd` | Assignment2/170635/file.c:303-328 | the least free descriptor refers to the same object |
| `DescriptorTable.Descriptors.Dup2Fd` | Assignment2/170635/file.c:331-362 | the target refers to the same object, after closing what it referred to |
| `DescriptorTable.Descriptors.ForkFiles` | Assignment2/170635/file.c:90-98 | the child refers to the parent's objects |
| `DescriptorTable.Descriptors.ExitFiles` | Assignment2/170635/file.c:100-110 | all slots of the process are gone |
| `DescriptorTable.Descriptors.Execute` | Assignment2/170635/file.c:90-362 | in every run every state keeps all counts and every call means what it says for the slots |
| `DescriptorLaws.StartHasThree` | Assignment2/170635/file.c:50-88 | a new process has exactly the descriptors 0 to 2, on three new standard objects |
| `DescriptorLaws.OpenIsNew` | Assignment2/170635/file.c:237-300 | open succeeds exactly if the checks pass and a descriptor from 3 on is free, and gives the least one the only reference to a new object |
| `DescriptorLaws.PipeConnects` | Assignment2/170635/pipe.c:108-182 | pipe succeeds exactly if two descriptors from 3 on are free, and gives the two least ones the ends of one new pipe |
| `DescriptorLaws.DupShares` | Assignment2/170635/file.c:303-328 | dup succeeds exactly if the descriptor is open and one is free; the least free one then refers to the same object, whose count goes up by one, and no other count changes |
| `DescriptorLaws.Dup2Moves` | Assignment2/170635/file.c:331-362 | dup2 moves the target to the object of the old descriptor: that count goes up by one and the count of what the target referred to down by one |
| `DescriptorLaws.CloseForgets` | Assignment2/170635/file.c:112-143 | close takes one reference from one object and touches no other descriptor |
| `DescriptorLaws.ForkShares` | Assignment2/170635/file.c:90-98 | after fork each descriptor of the child refers to the object of the parent's, the counts go up by the parent's references, and nothing else changes |
| `DescriptorLaws.Inherited` | Assignment2/170635/file.c:90-143 | in every run what a child inherits stays live and its own until the child itself gives it up, whatever the parent closes and even if it exits |
| `DescriptorLaws.KeepsDescriptor` | Assignment2/170635/file.c:90-143 | in every run the descriptors of a process that issues no call keep referring to the same live objects |
| `DescriptorLaws.SurvivesExit` | Assignment2/170635/file.c:100-110 | exit takes all descriptors of the process, and an object survives exactly if another process still refers to it |
| `DescriptorLaws.OthersKeepTheirs` | Assignment2/170635/file.c:90-143 | a call moves no descriptor of another process, except that fork fills the child's |
| `PipeBuffer.Pipe.ReadBytes` | Assignment2/170635/pipe.c:34-72 | a read takes the first bytes and shifts the rest down in place, or changes nothing |
| `PipeBuffer.Pipe.WriteBytes` | Assignment2/170635/pipe.c:75-106 | a write appends the bytes that fit, reading no others from the caller's buffer, or changes nothing |
| `PipeBuffer.Fifo` | Assignment2/170635/pipe.c:34-106 | for all sequences of calls, the bytes received followed by the buffer are the bytes sent |
| `PipeBuffer.WriteIsWhole` | Assignment2/170635/pipe.c:91-93 | a write of all the caller's bytes is all or nothing exactly if position plus count does not reach 2^32 |
| `PipeBuffer.ReadSucceedsExactly` | Assignment2/170635/pipe.c:34-72 | a read gets its bytes exactly if as many have been sent and not yet received, and they are the next of all bytes sent |
| `Scheduler.Scheduler.PickNext` | Assignment3/Ass3/src/schedule.c:11-30 | terminates and returns the first ready process in cyclic order after the caller, the caller last, or the swapper |
| `Scheduler.PickedUnique` | Assignment3/Ass3/src/schedule.c:11-30 | the first ready process in cyclic order is unique |
| `Scheduler.Scheduler.Tick` | Assignment3/Ass3/src/schedule.c:33-125 | the tick accounts for sleepers and for the alarm of the current process, makes that process ready, and switches |
| `Scheduler.Fair` | Assignment3/Ass3/src/schedule.c:11-30 | a process that stays ready is picked within N - 1 picks |
| `Scheduler.FairBoundIsReached` | Assignment3/Ass3/src/schedule.c:11-30 | when all processes stay ready, a process is passed over N - 2 times |
| `Scheduler.TicksAreFair` | Assignment3/Ass3/src/schedule.c:89-125 | in every run of ticks a process that is ready, or that is taken off the processor, is on the processor again after at most N - 1 ticks |
| `Scheduler.TickKeepsOneRunning` | Assignment3/Ass3/src/schedule.c:102-125 | only the process on the processor is marked running after a tick if that was so before |
| `Scheduler.SleepIsExact` | Assignment3/Ass3/src/schedule.c:39-46 | sleep(t) ends with exactly the t-th tick, and sleep(0) with none, whatever else happens |
| `Scheduler.Scheduler.AccountAlarm` | Assignment3/Ass3/src/schedule.c:47-57 | the alarm counter of the current process goes down, and at its end signals and starts again with the period |
| `Scheduler.AlarmIsPeriodic` | Assignment3/Ass3/src/schedule.c:47-57 | in every run of ticks and other events, a tick signals a process that set an alarm exactly when it is one of its own ticks and their number so far is a multiple of the period; alarm(0) never signals |
| `OperationRecords.ReadsPrinted` | Assignment4/ass4/part-3/inputgen.c:77-146 | read_op on a printed record returns the operation and moves past the record |
| `OperationRecords.RecordLayout` | Assignment4/ass4/part-3/inputgen.c:77-146 | each byte of a record: id, key and type at the offsets 0, 8 and 16 with the low byte first, and for a PUT the length at 20 and the data from 24 on |
| `OperationRecords.PrintsRead` | Assignment4/ass4/part-3/serial_hash.c:3-21 | whatever read_op accepts is the printed record of what it returns |
| `OperationRecords.EndIsSeen` | Assignment4/ass4/part-3/serial_hash.c:16-17 | at the end of the file the zero padding makes read_op return -1 |
| `OperationRecords.EndStaysMapped` | Assignment4/ass4/part-3/serial_hash.c:6-6 | the 24 bytes copied at the end of the file lie in the mapped pages exactly when the length of the file is 1 to 4072 modulo 4096 |
| `OperationRecords.InputManager.ReadOp` | Assignment4/ass4/part-3/serial_hash.c:3-21 | returns the record at the position and moves the position |
| `OperationRecords.InputManager.ReadAll` | Assignment4/ass4/part-3/serial_hash.c:3-21 | over the printed records it sees exactly the original operations, and then the end; all its copies stay in the mapping exactly under that condition |

## Left out

- Pointers of the area list: the list is a sequence, so relinking and node addresses are not modelled.
- Arguments: mmap, munmap and mprotect are modelled for page-aligned addresses and lengths up to 0x7ffff000 only. The system call passes its arguments through unchecked; what happens to other addresses is not modelled.
- AddressSpaces.AddressSpace.Map: the loop of MAP_POPULATE (`mmap.c:1030-1033`) is not modelled; after a wrong report it would overwrite the entries of other pages.
- The test `(*entry & 0x80) == 1` for large pages (`entry.c:49`, `mmap.c:38`) compares a value that is 0 or 128 with 1, so it never holds and has no counterpart.
- vfork, clone, the older fork and heap shrinking: they bypass the sharing discipline.
- The stack segment (its fault branch installs the last page twice, `entry.c:555-568`) and the code and read-only segments, which are never written.
- Process exit as a release of page tables: the code does not release them, so the bound of 256 counts every table ever built.
- Frame allocation: a frame or table that is handed out is not in use; its old contents are a parameter. The search in `memory.c` for a free frame is not part of this model.
- Kernels.Kernel.Execute: the kernel object works on the flat map; that four-level tables implement it, write for write, is proved in `SpaceTables`.
- PageTable.PageTables.MapPhysicalPage: the entries on the path above the leaf are required to be empty or user entries, which holds for all addresses from the code segment on.
- ParallelHash.AssertionsHold: inputs have non-zero keys and ascending ids, as the generator writes them; a PUT of key 0 fails the second assertion (`parallel_hash.c:123`) and stops the program.
- ParallelLimits.BoundIsExact: the condition is on the number of fresh insertions; for a single input with as many as slots, whether the assertion fails can depend on the interleaving.
- Condition variables: a waiting worker may look again at any time; real wake-ups are among these, and `ParallelRuns.UnblockingBroadcasts` shows that none is missing.
- File contents: regular files, inode names and offsets are opaque; what the file system answers about a name is a parameter.
- DescriptorTable.Descriptors.CloseFd: the range of the descriptor is a precondition, because do_close does not check it.
- Failing allocations, the delivery of signals, TLB and register switching: no counterpart in the model.
- open_standard_IO on an occupied slot, whose scan for a free descriptor has no bound.
- OperationRecords.EndIsSeen: bytes beyond the mapped pages read as zero too; that the copy at the end does not reach them is `OperationRecords.EndStaysMapped`, and what the program does when it does is not modelled.
- Assignment 1, block hashing under one mutex, printing and the user programs.
