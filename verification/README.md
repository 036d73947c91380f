# A verified model of the BorealOS kernel core

BorealOS is a small x86_64 kernel. These Dafny modules model the parts of it whose correctness
is hardest to see from the code, and prove what those parts are for:

- **Four-level paging** (`PageTables`, `PageOps`, `PageMapping`, `PageRuns`, `PageSpaces`,
  `PageRange`, `PageWords`, `MappedWords`, `Paging`). Physical memory is a map from frame numbers to tables of 512
  entries. `Paging` is the code itself, a class that reads and writes tables in place; each of its
  methods is proved equal to a function on worlds (memory, the places of the tables of one address
  space, the allocator). Over those functions: every history of maps and unmaps behaves like a
  partial map from pages to entries, the frames handed out are exactly the tables, two address
  spaces over one allocator keep out of each other's way in every interleaving of their calls, and
  unmapping undoes mapping under an exact condition. `PageWords` connects entries and virtual addresses with the
  64-bit words, masks and shifts of the source (section 5.3 of the AMD64 Architecture Programmer's
  Manual Volume 2), and `MappedWords` says what a mapping does to words and to the addresses of bytes.
- **The kernel's address space** (`Draws`, `PageCopy`, `DeepCopy`, `CopyResult`, `KernelSpace`).
  `PageCopy` follows the deep copy, the slot reservation and `Paging::Initialize` step by step as
  functions on memory and the allocator, defined on every input, running out of frames included;
  the class methods are proved equal to them without any condition on the tables. Then: which frame
  every table of the copy gets, what every frame of memory holds afterwards, exactly when the copy
  is a sound address space that translates every page as the bootloader's did, exactly when it
  translates alike, and exactly when the boot panics.
- **The physical frame allocator** (`Bitmap`, `Frames`, `BootMap`, `BootExact`, `PhysicalMemory`, `Bits`). Two
  bitmaps in byte arrays refine three sets of frames. First fit is exact; whole histories of
  requests keep blocks disjoint; any list of grants can be given back in any order and replayed;
  initialization from a firmware memory map leaves exactly the right frames free, and `BootExact`
  says which they are, and where the bitmaps go, in the addresses of the map alone.
- **Spinlocks** (`Spinlocks`, `LockOrder`, `LockFairness`, `LockUsers`, `LockGuards`). A step system with any
  number of processors, an interrupt flag each, separate steps for reading the flag, `cli`, the load,
  the compare-and-swap, the store and `sti`, and interrupts between any two steps. Mutual exclusion,
  the interrupt discipline and deadlock freedom hold over every run, and every fair schedule
  finishes; the lock order is proved of the kernel's operations, not assumed. The work that a lock
  is for is a step of its own: over every run it is done inside the lock, and what work every
  operation does, in which order and inside which locks, is stated outright.
- **Interrupt vectors and interrupt entry** (`Vectors`, `Interrupts`). A history of what the code on a
  processor did, with the address space it did it in, shows that a registered handler runs once,
  in the kernel's space, at any nesting depth.
- **Printing, parsing and splitting** (`Text`, `Numbers`, `Tokenizer`).
- **The MADT and the interrupt routes** (`Madt`; section 5.2.12 of the ACPI Specification).

`Outcomes` and `Sets` hold what they share. A kernel panic is a final outcome: an operation that panics
returns `Panic` (or `None`) and nothing is promised about the state it leaves. The higher-half
direct map is plain access to physical frames.

## What the proofs found

Each of these is proved as stated below; the model follows the code.

- `MapPage` then `UnmapPage` is an exact inverse if and only if either only the root was on the
  page's path and the page lies in the lower half, or the lowest table on its path had an entry or
  was a level-3 table of the higher half (`PageMapping.MapThenUnmap`). Where no table is empty that
  should not be, that means: the page lies in the lower half, or its root slot was in use
  (`PageMapping.RootedWhenNoneEmpty`). In an unreserved higher-half slot an empty level-3 table stays
  (`PageMapping.HighSlotExample`); filling those slots at boot is what makes the inverse hold.
- `CopyExistingPageTableToNew` does not clear the level-3 tables it allocates. The copy is a sound
  address space that translates every page alike if and only if the frames the allocator is about to
  hand out for them hold zero wherever the original has no entry (`KernelSpace.CopySoundIff`). It
  translates alike if and only if nothing left over in those places leads to a page
  (`KernelSpace.CopyAlikeIff`). Both conditions speak of memory and the allocator before the copy;
  `KernelSpace.StaleExample` is a state in which the copy goes wrong.
- `DeepCopyPageTables` does not notice a refused allocation: it clears frame 0, links it and copies
  into it. With fewer free frames than tables, the boot still ends without a panic exactly when no
  higher-half slot is unused and every level-3 table finds a frame in its turn
  (`KernelSpace.SilentShortage`, `KernelSpace.SilentExample`).
- `PhysicalMemoryManager::Initialize` reserves the bitmaps a second time over a range that mixes a
  page index and a byte count. The range never leaves the bitmaps' storage, which carving has
  already kept out, so it changes nothing (`BootMap.ExtraRangeIsRedundant`).
- `Initialize` takes "the bitmaps go to address 0" for "no room was found"
  (`PhysicalMemory.PhysicalMemoryManager.Initialize`).
- In `FreePages` the end page can wrap around 64 bits; then nothing is freed, the count still grows,
  and this is the only way for the count to go wrong
  (`PhysicalMemory.PhysicalMemoryManager.FreePages`).
- The boot self-test never reports a failure: if one of its requests cannot be granted it frees
  address 0 and panics (`PhysicalMemory.PhysicalMemoryManager.TestAllocationAndFreeing`).
- `IsMapped` is wrong for exactly one kind of address, the first byte of a page mapped to frame 0
  (`Paging.Paging.IsMapped`), and a search for zero pages always panics
  (`Paging.Paging.FindAvailableVirtualAddressRange`). So a range that was found can be mapped, frames
  permitting, if and only if none of its pages is mapped to frame 0 (`PageRange.FoundRangeMaps`).
- Every piece of work on page tables, the allocator's bitmaps, the log, the devices and the I/O APIC
  registers is done inside its lock (`LockGuards.WorkIsLocked`), except that `WriteByteCommand` writes
  the ACPI command after its lock has been released: the lock is an unnamed temporary
  (`LockGuards.OthersDo`).
- `SplitArguments` leaves the last token unwritten when the text ends in a space outside quotes.
  What callers see, joined by spaces, gives the text back if and only if the text does not end in
  two or more such spaces (`Tokenizer.SeenJoinsExactly`).

## Model

| member | source | states |
|---|---|---|
| Bitmap.SetBit | src/kernel/Memory/PhysicalMemoryManager.cpp:160-165 | setting bit p % 8 of byte p / 8 adds exactly p to the set the bitmap stands for |
| Bitmap.ClearBit | src/kernel/Interrupts/IDT.cpp:127-131 | clearing that bit removes exactly p |
| Frames.FirstFitExact | src/kernel/Memory/PhysicalMemoryManager.cpp:141-158 | the search finds a free run if and only if one exists, and then the lowest |
| Frames.RefusedIffNoRun | src/kernel/Memory/PhysicalMemoryManager.cpp:133-170 | the answer is 0 exactly when no run is long enough, otherwise the address of the lowest one |
| Frames.OneFrame | src/kernel/Memory/PhysicalMemoryManager.cpp:133-170 | a request for one frame fails only when no frame is free |
| Frames.AllocateKeeps | src/kernel/Memory/PhysicalMemoryManager.cpp:133-170 | a grant takes exactly its frames out of the free set and a refusal changes nothing |
| Frames.GiveRun | src/kernel/Memory/PhysicalMemoryManager.cpp:183-202 | a free puts exactly its frames back, and the free count grows by their number |
| Frames.HistorySafe | src/kernel/Memory/PhysicalMemoryManager.cpp:133-203 | over every history in which callers return the blocks they hold, outstanding blocks are disjoint, contain no reserved frame and account for all allocations; the reserved set never changes |
| Frames.AnswerKeeps | src/kernel/Memory/PhysicalMemoryManager.cpp:133-203 | a call that does not panic, a free of any run of handed-out frames included, changes the handed-out and the free set by exactly its frames |
| Frames.AnyHistorySafe | src/kernel/Memory/PhysicalMemoryManager.cpp:133-203 | over every history of calls that do not panic the allocator stays sound and never grants a reserved frame or one that is handed out |
| Frames.GrantedOnce | src/kernel/Memory/PhysicalMemoryManager.cpp:133-203 | between two grants of a frame it was given back |
| Frames.GrantedBlocks | src/kernel/Memory/PhysicalMemoryManager.cpp:205-210 | a list of grants yields pairwise disjoint blocks of frames that were free |
| Frames.PutAllFrees | src/kernel/Memory/PhysicalMemoryManager.cpp:226-228 | disjoint allocated blocks can be given back in any order, all of them |
| Frames.Replay | src/kernel/Memory/PhysicalMemoryManager.cpp:205-255 | after any list of grants, freeing all blocks in any order restores the allocator and the same list is granted the same runs |
| Draws.DrawServed | src/kernel/Memory/PhysicalMemoryManager.cpp:133-170 | of requests for one frame after another, number k is refused exactly when no more than k frames were free |
| Draws.DrawIsRank | src/kernel/Memory/PhysicalMemoryManager.cpp:141-158 | number k is answered with the free frame that has exactly k free frames below it |
| Draws.DrawsRise | src/kernel/Memory/PhysicalMemoryManager.cpp:141-158 | different requests are answered with different frames, in rising order |
| PhysicalMemory.PhysicalMemoryManager.FindRun | src/kernel/Memory/PhysicalMemoryManager.cpp:137-158 | the scanning loop with its run length returns the first fit |
| PhysicalMemory.PhysicalMemoryManager.AllocatePages | src/kernel/Memory/PhysicalMemoryManager.cpp:133-170 | the bitmaps and the free count become those of the abstract grant, and the result is its address or 0 |
| PhysicalMemory.PhysicalMemoryManager.FreePages | src/kernel/Memory/PhysicalMemoryManager.cpp:172-203 | it panics exactly on a misaligned start or a frame not handed out; otherwise exactly those frames are released; on wrap-around nothing is freed and the count goes wrong |
| PhysicalMemory.PhysicalMemoryManager.FreeMeansBothClear | src/kernel/Memory/PhysicalMemoryManager.cpp:257-285 | the two page tests are membership in the reserved and the allocated set, and a frame is free when both fail |
| PhysicalMemory.PhysicalMemoryManager.TestAllocationAndFreeing | src/kernel/Memory/PhysicalMemoryManager.cpp:205-255 | it ends well exactly when its three requests can be granted; then the second round gives the same addresses and the allocator is as before |
| PhysicalMemory.PhysicalMemoryManager.Initialize | src/kernel/Memory/PhysicalMemoryManager.cpp:8-131 | it ends well exactly when the memory map leaves a pool that grants 1, 2 and 2560 frames; the allocator is then the one that the map determines: its frame count, its free frames and the place of the bitmaps, with an exact count |
| PhysicalMemory.PhysicalMemoryManager.SetUp | src/kernel/Memory/PhysicalMemoryManager.cpp:68-124 | the marking and counting loops produce the allocator the memory map calls for |
| PhysicalMemory.Collect | src/kernel/Memory/PhysicalMemoryManager.cpp:25-41 | the regions kept are the usable entries that end above 1 MiB, and the end address is the highest end |
| PhysicalMemory.FindRoom | src/kernel/Memory/PhysicalMemoryManager.cpp:52-63 | the first region with room for both bitmaps |
| PhysicalMemory.PlaceBitmaps | src/kernel/Memory/PhysicalMemoryManager.cpp:43-69 | it fails exactly when there is no room or the room is at address 0; the carved regions then describe the available frames |
| PhysicalMemory.MarkReserved | src/kernel/Memory/PhysicalMemoryManager.cpp:71-107 | the reserved bitmap marks exactly the frames not available, padding bits included |
| PhysicalMemory.Unreserve | src/kernel/Memory/PhysicalMemoryManager.cpp:77-88 | exactly the frames wholly inside a region are cleared |
| PhysicalMemory.CountClear | src/kernel/Memory/PhysicalMemoryManager.cpp:114-124 | the count is the number of clear bits |
| PhysicalMemory.PlacementFacts | src/kernel/Memory/PhysicalMemoryManager.cpp:43-63 | the bitmaps cover every frame of every region, and carving leaves exactly the available frames |
| PhysicalMemory.AddressExact | src/kernel/Memory/PhysicalMemoryManager.cpp:169 | the returned address is a page boundary, 0 exactly for a refusal, and determines the run |
| BootMap.CarvingExact | src/kernel/Memory/PhysicalMemoryManager.cpp:57-62 | carving removes the bitmaps' frames from the regions and nothing else |
| BootMap.SomeRegionIffEntry | src/kernel/Memory/PhysicalMemoryManager.cpp:28-41 | at or above 1 MiB, lying in a kept region and in a usable entry agree |
| BootMap.RegionsApart | src/kernel/Memory/PhysicalMemoryManager.cpp:28-41 | kept regions do not overlap |
| BootMap.BitmapLargeEnough | src/kernel/Memory/PhysicalMemoryManager.cpp:43-45 | the bitmap size is whole pages, has a bit for every frame, and its frames stay inside 64-bit addresses |
| BootMap.ExtraRangeIsRedundant | src/kernel/Memory/PhysicalMemoryManager.cpp:98-107 | the second reservation of the bitmaps stays inside their storage |
| BootMap.RegionAtZero | src/kernel/Memory/PhysicalMemoryManager.cpp:50-66 | a memory map whose only region starts at address 0 sends the bitmaps there, where they are taken for missing |
| BootExact.BitmapSized | src/kernel/Memory/PhysicalMemoryManager.cpp:43-45 | the bytes of a bitmap are whole pages with a bit for every frame below the end address, and a page less would not do |
| BootExact.SizedOnce | src/kernel/Memory/PhysicalMemoryManager.cpp:43-45 | that fixes the size |
| BootExact.PlacementExact | src/kernel/Memory/PhysicalMemoryManager.cpp:25-66 | the placement is one if and only if its size is that of the highest end of a usable entry above 1 MiB and its start is the lowest frame from which both bitmaps fit into the first entry they fit into |
| BootExact.FreeExact | src/kernel/Memory/PhysicalMemoryManager.cpp:71-107 | a frame is free after the boot if and only if it lies wholly inside a usable entry, at or above 1 MiB and outside the two bitmaps |
| BootExact.BootPoolExact | src/kernel/Memory/PhysicalMemoryManager.cpp:25-124 | the pool of a boot has a frame per bit, none handed out and exactly those frames free |
| BootExact.BootedOnce | src/kernel/Memory/PhysicalMemoryManager.cpp:25-124 | no other pool is so described |
| BootExact.BootsExactly | src/kernel/Memory/PhysicalMemoryManager.cpp:25-131 | a boot can succeed if and only if there is such a pool and it grants the requests of the self-test |
| Bits.AlignDownRounds | src/kernel/Utility/Math.h:43-47 | for a power of two the mask form gives the largest multiple not above the value |
| Bits.AlignUpRounds | src/kernel/Utility/Math.h:37-41 | and the smallest multiple not below it unless the addition wraps |
| PageWords.RoundingsAgree | src/kernel/Utility/Math.h:37-47 | for page size the mask forms are the roundings used in the boot map |
| PageWords.EntriesAreWords | src/kernel/Memory/Paging.h:17-28 | entries are 64-bit words, and only the zero entry is the zero word |
| PageWords.WordsAreEntries | src/kernel/Memory/Paging.h:17-28 | every 64-bit word is one entry |
| PageWords.PointerMaskGivesFrame | src/kernel/Memory/Paging.h:60 | entry & PointerMask is the address of the entry's frame |
| PageWords.FlagsMaskGivesFlags | src/kernel/Memory/Paging.h:61 | entry & FlagsMask is the entry with its frame cleared |
| PageWords.OrBuildsEntry | src/kernel/Memory/Paging.cpp:80 | a page address or-ed with flag bits is the entry with that frame and those flags |
| PageWords.FlagTests | src/kernel/Memory/Paging.cpp:240-243 | the masks 1 and 0x80 test the Present and HugePage bits |
| PageWords.SpotsAreFaithful | src/kernel/Memory/Paging.cpp:277-284 | the four indices read together are the 36-bit page number |
| PageWords.SpotInjective | src/kernel/Memory/Paging.cpp:277-284 | two addresses share indices exactly when their page numbers agree in 36 bits, and the offset too exactly when they agree in 48 bits |
| MappedWords.MaskAddress | src/kernel/Memory/Paging.h:60 | any number & PointerMask is the page it lies in, without the bits from 52 up |
| MappedWords.WordOfLeaf | src/kernel/Memory/Paging.cpp:80 | the entry with the frame of an address and some flags and Present is the word that or-ing address & PointerMask, the flags and Present gives |
| MappedWords.WordDecides | src/kernel/Memory/Paging.cpp:80 | and no other entry is |
| MappedWords.MappedAsAsked | src/kernel/Memory/Paging.cpp:80 | with that entry every byte of the virtual page has the address of the same byte of the physical page |
| MappedWords.AddedTablesGrant | src/kernel/Memory/Paging.cpp:39-54 | every table that MapPage adds is linked by its address plus 7: Present, ReadWrite and User |
| MappedWords.ReservedSlotsGrant | src/kernel/Memory/Paging.cpp:201-213 | every slot filled at boot holds the address of its table plus 3: Present and ReadWrite, no access from user mode |
| PageTables.WalkIsTranslate | src/kernel/Memory/Paging.cpp:139-155 | in a sound tree the processor's walk through memory and the walk through named tables agree |
| PageTables.LookupIffMapped | src/kernel/Memory/Paging.cpp:131-156 | off large pages, a page translates exactly when its page-table entry is present, and then to that entry |
| PageOps.EnsurePathKeeps | src/kernel/Memory/Paging.cpp:45-74 | adding the missing levels succeeds exactly when enough frames are free, keeps the tree sound and owned, and changes no translation |
| PageOps.CutStep | src/kernel/Memory/Paging.cpp:112-114 | dropping an emptied table keeps the tree sound and owned and every translation |
| PageMapping.MapPageExact | src/kernel/Memory/Paging.cpp:30-82 | MapPage succeeds exactly when the page is unmapped and frames suffice; it adds one translation; the tables that were there keep their frames, and their entries off the page's path; no other frame changes, and no table is newly empty |
| PageMapping.UnmapPageExact | src/kernel/Memory/Paging.cpp:84-129 | UnmapPage of a mapped page removes that translation alone and gives back exactly the frames of the tables it drops; no table is newly empty |
| PageMapping.PruneKeeps | src/kernel/Memory/Paging.cpp:111-128 | pruning leaves no table newly empty that should not be, and drops exactly the tables whose only entry led to an emptied one |
| PageMapping.MapThenUnmap | src/kernel/Memory/Paging.cpp:30-129 | unmapping right after mapping restores tables, places and allocator if and only if either only the root was on the page's path and the page is in the lower half, or the lowest table on its path had an entry or was a higher-half level-3 table |
| PageMapping.RootedWhenNoneEmpty | src/kernel/Memory/Paging.cpp:121-126 | where no table is empty that should not be, that is: the page is in the lower half or its root slot was in use |
| PageMapping.HighSlotExample | src/kernel/Memory/Paging.cpp:121-126 | a concrete space in which unmapping does not undo mapping |
| PageRuns.MapAddsPage | src/kernel/Memory/Paging.cpp:30-82 | MapPage adds exactly one key to the map of pages |
| PageRuns.UnmapRemovesPage | src/kernel/Memory/Paging.cpp:84-129 | UnmapPage removes exactly one key |
| PageRuns.HistoryRefines | src/kernel/Memory/Paging.cpp:30-156 | every history behaves like a partial map; afterwards the tree is sound, no table is newly empty and the frames held are exactly the tables; it panics exactly when the map refuses a call or frames run out |
| PageRuns.ClearIffNotLarge | src/kernel/Memory/Paging.cpp:30-156 | what is asked of callers, a path without large pages, means the page is not part of a large page |
| PageRuns.HighSlotsStable | src/kernel/Memory/Paging.cpp:121-126 | once filled, root entries 256 to 511 keep their values through every history |
| PageRuns.HistorySparesForeign | src/kernel/Memory/Paging.cpp:30-129 | no history writes a frame outside the address space's own tables |
| PageRuns.SpacesIndependent | src/kernel/Memory/Paging.cpp:30-129 | whatever one address space does, another one translates every page as before |
| PageSpaces.FirstSteps | src/kernel/Memory/Paging.cpp:30-129 | a call on one of two spaces changes its own map as the simple form says and leaves the other's map, tree and frames alone |
| PageSpaces.Interleaved | src/kernel/Memory/Paging.cpp:30-156 | over any interleaving of calls on two spaces each refines its own partial map, both trees stay sound and their frames disjoint, and a panic happens exactly when a map refuses a call or frames run out |
| PageRange.ProbesExact | src/kernel/Memory/Paging.cpp:166-184 | the search probes exactly the addresses start, start + 4096, … below the end |
| PageRange.LowestIsAnswer | src/kernel/Memory/Paging.cpp:166-184 | the lowest run of probes is the lowest range of page steps, all starting below the end, that seem free |
| PageRange.RangeMaps | src/kernel/Memory/Paging.cpp:73-80 | mapping consecutive pages panics exactly when one of them is mapped already or frames for tables run out, and otherwise maps them all |
| PageRange.FoundRangeMaps | src/kernel/Memory/Paging.cpp:73-80 | in a range that was found, "already mapped" is hit exactly when a page of it is mapped to frame 0 |
| Paging.Paging.NextTable | src/kernel/Memory/Paging.cpp:45-54 | one level of MapPage: the next table, added cleared if it was missing |
| Paging.Paging.MapPage | src/kernel/Memory/Paging.cpp:30-82 | exactly when it panics; that otherwise memory, tables and allocator become those of the specified map; and that byte virtualAddress + k then has address physicalAddress + k for all 4096 k (below 2^52), under the word the source computes |
| Paging.Paging.IsTableEmpty | src/kernel/Memory/Paging.cpp:268-273 | true exactly when no entry is present |
| Paging.Paging.FreeTable | src/kernel/Memory/Paging.cpp:112-114 | freeing a table never panics and removes that table alone |
| Paging.Paging.UnmapPage | src/kernel/Memory/Paging.cpp:84-129 | it panics exactly when the page is not mapped, and otherwise does the specified unmap with its pruning |
| Paging.Paging.GetPhysicalAddress | src/kernel/Memory/Paging.cpp:131-156 | the frame base plus the page offset of what the page translates to, or 0 |
| Paging.Paging.IsMapped | src/kernel/Memory/Paging.cpp:158-164 | true for every mapped address except the first byte of a page in frame 0 |
| Paging.Paging.Scan | src/kernel/Memory/Paging.cpp:166-184 | the scan finds the lowest run of pages that seem free, or there is none |
| Paging.Paging.FindAvailableVirtualAddressRange | src/kernel/Memory/Paging.cpp:166-184 | the range returned is the lowest in the window whose page steps all seem free; it panics exactly when no such range has all its steps below the end, or no pages were asked for |
| Paging.Paging.FindAvailableVirtualAddressRangeKernel | src/kernel/Memory/Paging.cpp:186-190 | the same from 0xFFFFFFFF80000000 up to 0xFFFFFFFFFFFFF000, without wrap-around |
| Paging.Paging.ReserveHigherHalfPML4Slots | src/kernel/Memory/Paging.cpp:201-213 | the loop does what Reserve does, panic included, whatever the tables hold |
| Paging.Paging.DeepCopyPageTables | src/kernel/Memory/Paging.cpp:235-266 | the recursion, which ends on the level, does what CopyTable does, whatever the tables hold and whether or not frames suffice |
| Paging.Paging.CopyExistingPageTableToNew | src/kernel/Memory/Paging.cpp:215-233 | the loop does what CopyRoot does, and panics exactly when it does |
| Paging.Paging.Initialize | src/kernel/Memory/Paging.cpp:12-28 | it does what Boot does; with room for the copy it ends well exactly when there is also a frame for every unused slot; from zero level-3 gaps the result translates as the bootloader's tables did, has its higher half filled and is fit for every other operation |
| DeepCopy.BelowRoom | src/kernel/Memory/Paging.cpp:254-256 | with as many free frames as tables to copy, a frame is left for each table in its turn |
| DeepCopy.ChildPlaced | src/kernel/Memory/Paging.cpp:254-264 | every table of a copy sits in the frame that its place in the order of allocation gives it |
| DeepCopy.TableCopies | src/kernel/Memory/Paging.cpp:235-266 | from a state between two turns the recursion copies the rest of a table and everything below it |
| DeepCopy.RootCopies | src/kernel/Memory/Paging.cpp:215-233 | with room, the loop at the root makes a whole copy |
| CopyResult.ForeseenExact | src/kernel/Memory/Paging.cpp:215-266 | what every frame holds after a copy, as a function of the memory, the allocator and the tables before it |
| CopyResult.SoundIffZero | src/kernel/Memory/Paging.cpp:215-266 | a whole copy is a sound address space that translates alike if and only if the gaps of its level-3 frames hold zero |
| CopyResult.AlikeIffNowhere | src/kernel/Memory/Paging.cpp:215-266 | a whole copy translates every page alike if and only if no left-over entry in those gaps leads to a page |
| CopyResult.CopyNoneEmpty | src/kernel/Memory/Paging.cpp:235-266 | no table of the copy is empty where the original's is not |
| CopyResult.EditsSpareSource | src/kernel/Memory/Paging.cpp:215-266 | no later history on the copy changes what the original translates to |
| PageCopy.ReserveExact | src/kernel/Memory/Paging.cpp:201-213 | reserving succeeds exactly when there are as many free frames as slots that are not present |
| KernelSpace.TableSpends | src/kernel/Memory/Paging.cpp:235-266 | the recursion makes one request per table below, granted or not, and writes only its destination, frames that were free, and frame 0 |
| KernelSpace.RootSpends | src/kernel/Memory/Paging.cpp:215-233 | the copy panics exactly when some level-3 table finds no frame left in its turn |
| KernelSpace.CopyForeseen | src/kernel/Memory/Paging.cpp:12-22 | the memory and the allocator after the boot copy, from those before it |
| KernelSpace.CopySoundIff | src/kernel/Memory/Paging.cpp:12-22 | the boot copy is a sound address space that translates alike if and only if the frames about to be handed out for level-3 tables hold zero where the original has no entry |
| KernelSpace.CopyAlikeIff | src/kernel/Memory/Paging.cpp:12-22 | it translates every page alike, large pages and the flags of every level included, if and only if nothing left over there leads to a page |
| KernelSpace.CopySharesNothing | src/kernel/Memory/Paging.cpp:12-22 | whatever was left over, the copy shares no frame with the original and leaves it as it was |
| KernelSpace.StaleEntryShows | src/kernel/Memory/Paging.cpp:226-230 | a left-over entry that leads to a page becomes a translation the original does not have |
| KernelSpace.StaleExample | src/kernel/Memory/Paging.cpp:226-230 | a concrete state of memory and allocator in which that happens |
| KernelSpace.ZeroFramesSuffice | src/kernel/Memory/Paging.cpp:226-230 | zero in every free frame is enough for a sound copy |
| KernelSpace.BootExact | src/kernel/Memory/Paging.cpp:12-28 | Initialize ends without a panic exactly when a frame is left for the root, for each level-3 table in its turn, and for each unused slot |
| KernelSpace.BootWithRoom | src/kernel/Memory/Paging.cpp:12-28 | with room for the copy: exactly when the tables and the unused slots together do not outnumber the free frames |
| KernelSpace.SilentShortage | src/kernel/Memory/Paging.cpp:254-256 | with too few frames: exactly when the shortage goes unnoticed |
| KernelSpace.SilentExample | src/kernel/Memory/Paging.cpp:254-256 | a concrete boot with 258 tables and 257 free frames in which the shortage goes unnoticed |
| KernelSpace.ReserveSound | src/kernel/Memory/Paging.cpp:201-213 | reserving fills every higher-half slot of a sound space and changes no translation |
| KernelSpace.BootSound | src/kernel/Memory/Paging.cpp:12-28 | the kernel's space translates as the bootloader's did, has every slot filled, owns exactly its tables, and has no table empty that should not be if the original had none |
| Spinlocks.MutualExclusion | src/kernel/Threading/Spinlock.cpp:22-44 | in every state of every run a lock reads as locked exactly when some processor is inside it, and never two |
| Spinlocks.EventExchanges | src/kernel/Threading/Spinlock.cpp:28-44 | each step takes one open lock, releases one held lock, or does neither |
| Spinlocks.EventKeepsFlagged | src/kernel/Threading/Spinlock.cpp:22-52 | each step and each interrupt keeps the flag as the code below it on the stack expects |
| Spinlocks.InterruptDiscipline | src/kernel/Threading/Spinlock.cpp:22-52 | over every run the flag is off while an interrupt-stopping lock is held or awaited, no handler runs inside one, and the flag on exit is the flag on entry |
| LockOrder.AlwaysSafe | src/kernel/Threading/Spinlock.cpp:22-52 | over every run of ordered code every processor holds and awaits locks in rising rank |
| LockOrder.NoWaitCycle | src/kernel/Threading/Spinlock.cpp:28-33 | no cycle of processors waiting for each other, of any length |
| LockOrder.SomeoneMoves | src/kernel/Threading/Spinlock.cpp:28-33 | from any processor with work, the chain of waiting ends at one that can move |
| LockOrder.CanFinish | src/kernel/Threading/Spinlock.cpp:22-52 | from every such state a schedule completes all work begun, unless a processor panics |
| LockOrder.DeadlockFree | src/kernel/Threading/Spinlock.cpp:22-52 | these together, over every run on any number of processors |
| LockFairness.StepPays | src/kernel/Threading/Spinlock.cpp:28-44 | a turn works something off; one that takes a lock works off more than every failed swap it may cause |
| LockFairness.TickLowersOrStays | src/kernel/Threading/Spinlock.cpp:22-44 | every turn lowers the potential or changes nothing, failed swaps included |
| LockFairness.FairFinishes | src/kernel/Threading/Spinlock.cpp:22-52 | every fair schedule, whatever the order of turns, completes all work begun within a bounded number of rounds, unless a processor panics |
| LockFairness.FairCompletion | src/kernel/Threading/Spinlock.cpp:22-52 | the same from every reachable state |
| LockOrder.UnmaskedLockHangs | src/kernel/Threading/Spinlock.cpp:22-26 | a run in which a lock taken with interrupts on hangs its processor for good |
| LockUsers.MessageFits | src/kernel/Logging.h:23-75 | a log message takes the log lock, then serial or framebuffer, one at a time |
| LockUsers.PanicFits | src/kernel/Kernel.cpp:48-58 | a panic masks interrupts, takes only device locks and never returns |
| LockUsers.CodeFits | src/kernel/Memory/Paging.cpp:30-190 | every path through every lock-taking operation respects the order page state, allocator, log, devices |
| LockUsers.KernelLocksAreSafe | src/kernel/Kernel.cpp:43-58 | any threads and handlers made of kernel operations are mutually exclusive, keep the interrupt discipline and cannot deadlock |
| LockUsers.KernelWorkFinishes | src/kernel/Kernel.cpp:43-58 | once no new calls and interrupts arrive, every fair schedule completes what the kernel's threads and handlers have begun, unless one panics |
| LockGuards.CodeGuarded | src/kernel/Memory/Paging.cpp:30-190 | every path through every operation does its work inside the lock that guards it |
| LockGuards.AlwaysGuarded | src/kernel/Threading/Spinlock.cpp:22-52 | over every run of such code, interrupts included, every processor is inside the locks its work needs |
| LockGuards.WorkIsLocked | src/kernel/Threading/Spinlock.cpp:46-52 | in every run of the kernel a processor at work on an address space's tables holds that space's lock; the same for the allocator's bitmaps, the log line, the devices and the I/O APIC registers |
| LockGuards.NoTwoAtWork | src/kernel/Threading/Spinlock.cpp:22-52 | so no two processors are ever at work on the same one |
| LockGuards.MessageDoes | src/kernel/Logging.h:23-75 | a message makes its writes inside the log lock and its line ending after it, each device under its own lock |
| LockGuards.PanicDoes | src/kernel/Kernel.cpp:48-58 | what a panic writes, inside which locks, and that it does not return |
| LockGuards.AllocatorDoes | src/kernel/Memory/PhysicalMemoryManager.cpp:133-203 | the bitmaps are worked on inside the allocator lock, which a refusal and a wrong free still hold while they log or panic |
| LockGuards.MapPageDoes | src/kernel/Memory/Paging.cpp:30-82 | MapPage reads the tables, takes and links each missing table and writes its entry all inside the space's lock; it panics inside it if the page is mapped and outside it if an address is misaligned |
| LockGuards.MapPageRefused | src/kernel/Memory/Paging.cpp:45-74 | if a table's frame is refused, that is logged inside both locks, and the panic comes inside the space's lock |
| LockGuards.UnmapPageDoes | src/kernel/Memory/Paging.cpp:84-129 | UnmapPage clears the entry and gives back and unlinks each emptied table inside the space's lock, and panics inside it |
| LockGuards.LookupsDo | src/kernel/Memory/Paging.cpp:131-190 | a lookup reads the tables inside the space's lock once; a search takes the lock anew for every probe |
| LockGuards.OthersDo | src/kernel/Firmware/ACPI.cpp:133-139 | the work of the other operations; an ACPI command is written with no lock held |
| Vectors.FindFirstSet | src/kernel/Interrupts/IDT.cpp:119 | one more than the index of the lowest one bit |
| Vectors.VectorTable.Reserve | src/kernel/Interrupts/IDT.cpp:42-49 | vectors 0 to 31 and 253 to 255 become used, and byte 31 forgets the rest |
| Vectors.VectorTable.AllocateVector | src/kernel/Interrupts/IDT.cpp:116-125 | the least unused vector is taken and returned, or 0 with no change |
| Vectors.VectorTable.FreeVector | src/kernel/Interrupts/IDT.cpp:127-131 | exactly that vector becomes unused |
| Vectors.VectorsSafe | src/kernel/Interrupts/IDT.cpp:116-131 | over every history vectors held lie in 32 to 252; 0 is returned exactly when all 221 are held, otherwise the lowest not held |
| Vectors.NeverTwice | src/kernel/Interrupts/IDT.cpp:116-131 | between two grants of a vector it was given back |
| Vectors.TableFollows | src/kernel/Interrupts/IDT.cpp:116-131 | the table holds exactly the reserved vectors and those the drivers hold |
| Interrupts.Processor.IRQHandler | src/kernel/Interrupts/IDT.cpp:65-81 | if the vector has a handler, what it does happens once, in order, begun in the kernel's space, and otherwise nothing does; at any nesting depth CR3 and the recorded page state end as they were, with one acknowledgement except for vector 0xFF |
| Interrupts.Processor.Deliver | src/kernel/Interrupts/IDT.cpp:65-81 | the same from arrival to return, and the local APIC is left as it was |
| Interrupts.Processor.Carry | src/kernel/Interrupts/IDT.cpp:65-81 | interrupted code does what it does once each, in the space of its own last switch whatever interrupted it; it ends in that space, and every interrupt delivered was acknowledged once |
| Interrupts.PlainCourse | src/kernel/Interrupts/IDT.cpp:68-73 | a handler that is not interrupted does exactly what it does, in order, and until it switches in the space it began in |
| Interrupts.InterruptCourse | src/kernel/Interrupts/IDT.cpp:68-73 | an interrupt adds its handler's doings, begun in the kernel's space, if and only if its vector has a handler |
| Interrupts.LastSwitchDecides | src/kernel/Interrupts/IDT.cpp:68-77 | the space is that of the last switch, through whatever comes after it |
| Numbers.WriteUnsigned | src/kernel/Utility/Formatter.cpp:18-31 | it prints the numeral of the value, and 64 digits of buffer suffice in every base from 2 to 16 |
| Numbers.WriteSigned | src/kernel/Utility/Formatter.cpp:33-41 | it prints a minus sign and the magnitude, the least value included |
| Numbers.WritePointer | src/kernel/Utility/Formatter.cpp:117-121 | it prints 0x and the hexadecimal numeral |
| Numbers.DigitExact | src/kernel/Utility/Formatter.cpp:184-189 | a character has the value d exactly when it is digit d in upper or lower case |
| Numbers.FitsExactly | src/kernel/Utility/Formatter.cpp:231-233 | the overflow test fires exactly when the next value would exceed 64 bits |
| Numbers.ParseInteger | src/kernel/Utility/Formatter.cpp:220-240 | it succeeds exactly on non-empty digit strings of the base whose value fits in 64 bits, with that value |
| Numbers.ParseUnsigned | src/kernel/Utility/Formatter.cpp:242-261 | hexadecimal after 0x or 0X, decimal otherwise, both exact |
| Numbers.ParseSigned | src/kernel/Utility/Formatter.cpp:263-290 | an optional sign and a decimal numeral within the signed range, exact at both ends |
| Numbers.NumeralValue | src/kernel/Utility/Formatter.cpp:18-31 | what is printed is a numeral of the base with the value printed |
| Numbers.DecimalRoundTrip | src/kernel/Utility/Formatter.cpp:112-115 | parsing undoes printing for every 64-bit number in decimal |
| Numbers.PointerRoundTrip | src/kernel/Utility/Formatter.cpp:117-121 | and in hexadecimal with its prefix |
| Numbers.PrefixesAgree | src/kernel/Utility/Formatter.cpp:247-252 | after 0x and after 0X a text stands for the same hexadecimal numeral |
| Numbers.SignedRoundTrip | src/kernel/Utility/Formatter.cpp:33-41 | and for every signed number, the least one included |
| Numbers.PrintAfterParse | src/kernel/Utility/Formatter.cpp:18-41 | printing undoes parsing on numerals in upper case without leading zeros |
| Text.Substring | src/kernel/Utility/StringView.h:42-47 | the characters of the part, or nothing when it starts past the end |
| Tokenizer.QuotesCounted | src/kernel/Utility/CommandLineExtractor.cpp:14-43 | a position is in quotes exactly when an odd number of quotes comes before it |
| Tokenizer.SplitArguments | src/kernel/Utility/CommandLineExtractor.cpp:7-46 | both passes return the same count, every write is below it, and the tokens written are those of the text, except the last one after a final open space |
| Tokenizer.AfterSplit | src/kernel/Utility/CommandLineExtractor.cpp:23-39 | one turn at a split, with the spaces skipped and the position advanced past the end |
| Tokenizer.Arguments | src/kernel/Utility/CommandLineExtractor.cpp:54-58 | what a caller sees after counting and filling |
| Tokenizer.JoinTokens | src/kernel/Utility/CommandLineExtractor.cpp:7-46 | joined by single spaces the tokens give the text back |
| Tokenizer.SeenJoinsExactly | src/kernel/Utility/CommandLineExtractor.cpp:7-46 | what callers see gives the text back if and only if it does not end in two or more open spaces |
| Tokenizer.TrailingSpacesExample | src/kernel/Utility/CommandLineExtractor.cpp:30-42 | the second of two trailing spaces is lost |
| Tokenizer.TokensSound | src/kernel/Utility/CommandLineExtractor.cpp:23-39 | no boundary falls inside quotes, and spaces outside quotes occur only in front of a token |
| Madt.FindEntryCount | src/kernel/Firmware/ACPI.cpp:101-114 | the number of records of the type |
| Madt.FindEntry | src/kernel/Firmware/ACPI.cpp:116-131 | the i-th record of the type in order, or null exactly from the count on |
| Madt.IndexedIsPass | src/kernel/Interrupts/IOAPIC.cpp:87-94 | counting and looking up by index applies the overrides as one pass over the table does |
| Madt.LastWins | src/kernel/Interrupts/IOAPIC.cpp:91-93 | for each line the last override wins and lines without one keep their route |
| Madt.RoutesExact | src/kernel/Interrupts/IOAPIC.cpp:83-94 | each line's route in the finished table, from the records alone |
| Madt.EntriesExact | src/kernel/Firmware/ACPI.cpp:101-131 | of a table written out as 44 header bytes and records, the entries of a type are where the records of that type begin, in order |
| Madt.AppliesRecord | src/kernel/Interrupts/IOAPIC.cpp:91-93 | an override record sets the line in its fourth byte to the interrupt in bytes 4 to 7 and the flags in bytes 8 and 9, low bytes first |
| Madt.LastOverrideDecides | src/kernel/Interrupts/IOAPIC.cpp:83-94 | byte by byte: the route of a line is that of the last record that overrides it |
| Madt.OthersKeepTheirLine | src/kernel/Interrupts/IOAPIC.cpp:83-94 | a line that no record overrides keeps its own number and no flags |
| Madt.IoApicManager.Initialize | src/kernel/Interrupts/IOAPIC.cpp:78-120 | the routes are those of one pass over the identity table, and the first 16 I/O APIC records are set up in order |

## Left out

- Large pages in map, unmap and lookup: as in the source they are not handled there, so callers
  must keep off paths with large pages (`ClearPath`). `PageRuns.ClearIffNotLarge` says what that
  means, and the deep copy handles them.
- KernelSpace.CopySoundIff: like `KernelSpace.CopyAlikeIff` it speaks of boots with a free frame for every
  table to copy, and of originals whose frames the allocator does not own; with fewer frames only
  the panics, the frames spent and the frames written are described (`KernelSpace.BootExact`,
  `KernelSpace.TableSpends`), not what the tables that share frame 0 translate to.
- KernelSpace.BootExact: the original's tables do not lie in frame 0, which a refused allocation
  overwrites.
- Paging.Paging.FindAvailableVirtualAddressRange: the scan must not wrap; the source's loop
  continues at the bottom of the address space if the window reaches into its last page, and never
  ends if it finds nothing there either.
- PageSpaces.Interleaved: interleaves whole calls. In the source each space has a lock of its own and
  the allocator's lock is held per request, so calls on two spaces can overlap between requests.
- Text.Substring: a length past the end of the text is not described; the source does not clip it,
  and the callers modelled here never pass one.
- Paging.Paging.MapPage: interior entries are zero or present (part of `Tree`), which
  `KernelSpace.BootSound` shows of the kernel's space; physical addresses have 52 bits, so the allocator manages at most 2^40
  frames.
- PhysicalMemory.PhysicalMemoryManager.Initialize: memory-map entries neither overlap nor wrap, and
  end at least a page below 2^64; a missing memory map or direct map, which panics at once, is left
  out.
- The bitmaps' own bytes live in arrays of their own, not in the modelled physical memory; that
  their storage is never handed out is part of `BootMap.Available`.
- Panics: the state after one is not described, except in the lock model, where a panicking
  processor keeps its locks, prints and halts.
- Madt.FindEntry: records must be readable and have a length; on a record of length 0 the source
  loops for ever. Section 5.2.12 of the ACPI Specification rules such tables out.
- CPU exceptions in the lock model: they ignore the interrupt flag, so a fault inside a critical
  section can still wait for its own processor's lock. Only maskable interrupts are modelled.
- The order of memory effects between processors: steps are atomic and sequentially consistent.
  The locks themselves are not fair: under a stream of new calls a processor may spin for ever. What is claimed of fair schedules starts when no new calls arrive.
- ACPI's `WriteByteCommand` takes its lock in an unnamed temporary, so the command itself runs
  unlocked (`LockGuards.OthersDo`); there the command is one piece of work, its register accesses are not modelled.
- Interrupts.Processor.IRQHandler: the saved register pointers are not modelled, and handlers change
  the address space only through `SwitchToPageTable`.
- TLB invalidation, control registers other than CR3, GDT, TSS, IDT gates, LAPIC and I/O APIC
  registers: hardware effects around straight-line code.
- Serial ports, the framebuffer console and the terminal library: they appear only as users of locks.
- The text of log messages, format strings, floating-point printing, booleans and characters.
- Values of command-line options (`GetValue`): its search has an underflowing loop bound on short
  views, so only splitting is modelled.
- ACPI tables other than the MADT, checksums and table lookup: single loops over firmware memory.
- `Math::Pow`, `Min`, `Max`, `Clamp`, memory and C-string helpers: routine.
