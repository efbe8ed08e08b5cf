# ShadeOS kernel core, verified in Dafny

A model of the parts of the ShadeOS kernel that keep state, with proofs about every input, every run
and every reachable state. `dafny verify dfyconfig.toml` checks all of it.

What is modelled, in the system's own terms:

- **Physical pages** (`Pmm.dfy`, `BootMap.dfy`; kernel/pmm.c). The packed bitmap refines a set of free pages
  through every run of `alloc_page` and `free_page`. `pmm_init` walks the Multiboot2 information structure
  (section 3.6.8, "Memory map", of the Multiboot2 Specification 2.0), frees what is available and takes the
  kernel's range back.
- **Page tables** (`PageTree.dfy`, `PageMaps.dfy`, `PageShort.dfy`, `PageSpaces.dfy`, `PageInit.dfy`, `PageBoot.dfy`,
  `PageRuns.dfy`, `Paging.dfy`; kernel/paging.c). Four-level tables (section 4.5 of Intel SDM Volume 3A) in pages taken
  from that allocator, for any number of address spaces that share the kernel's upper half. The specification is a map
  from a 36-bit virtual page number to a leaf entry. A layout (which page holds which table) states that every table
  page has one parent entry. Two walks are modelled: that of `get_phys_addr`, which stops at a null table, and that of
  the processor, which stops at an entry that is not present. Under a good layout they agree (`PageTree.WalkReadsLeaf`);
  `PageShort.dfy` and `PageBoot.dfy` say what each finds when there is none. `PageRuns.dfy` is about whole runs: spaces
  created, mapped into, unmapped from and freed in any order.
- **Kernel heap** (`HeapBlocks.dfy`, `HeapRuns.dfy`, `Heap.dfy`; kernel-rs/src/heap.rs). First fit with splitting
  and two-sided coalescing over a doubly linked list in a 4 MiB arena. The list of headers refines a sequence of
  blocks that tiles the arena.
- **In-memory filesystem** (`Vfs.dfy`; kernel-rs/src/vfs.rs). A tree of nested maps refines a flat, prefix-closed
  map from component sequences to nodes.
- **ext2 file I/O** (`Ext2Layout.dfy`, `BlockFile.dfy`, `Ext2File.dfy`, `Ext2Image.dfy`, `Ext2Holes.dfy`;
  kernel/ext2.c). Block-wise loops over direct and single-indirect blocks refine a flat sequence of bytes; inode records
  have disjoint slots. `Ext2Image.dfy` goes the other way: records and indirect blocks laid out as images, and the file
  that the code finds in them.
- **Tasks** (`Tasks.dfy`; kernel-rs/src/lib.rs.template, kernel-rs/src/scheduler.rs). The ring of tasks through
  `next`, and the scheduler's scan of it.
- **Shell tokenizer** (`Tokenizer.dfy`; kernel-rs/src/bash.rs). A quote-aware scanner that packs arguments into a
  buffer, against a pure tokenizer and against a grammar of plain and quoted words that every line follows.

Code that changes state is imperative: classes with `modifies` clauses, arrays for the bitmap, the task table and
the argument buffer, loops with invariants. Each method is tied to a function on values, and what the source
promises is proved about those functions.

## Where the code does not do what it seems to promise

Each of these has a lemma with an input and the exact condition under which the code is right.

- `pmm_init` counts a page twice when two map entries both offer it: `free_pages` is exact if and only if no two
  available regions share a page (`BootMap.OverlapOvercounts`, `BootMap.OffersBound`).
- `pmm_init` steps from the start of a region, aligned or not. All the pages it frees lie inside the region if and
  only if the region starts on a page boundary or is too short or too high to offer any (`BootMap.InsideIff`,
  `BootMap.UnalignedExample`). In the same way the last page of a kernel image that starts in mid-page can be left free;
  `BootMap.KernelStaysReserved` says exactly when, `BootMap.KernelTailExample` is such a kernel.
- `map_mmio` steps from an unaligned start, so it can miss the last page of its range: it covers the range if and
  only if the range is empty or `start % 4096 + (size - 1) % 4096 < 4096` (`PageInit.CoversIff`, `PageInit.MissedPage`,
  `PageInit.MissedExample`).
- `map_page` does not test what `alloc_page` returns. With fewer free pages than missing tables it leaves a present
  link to page 0, and no layout makes a tree of the tables any more (`PageMaps.MapStarves`). `get_phys_addr` then finds
  nothing: it finds the entry if and only if there were enough pages (`PageMaps.MapInstallsIff`). The processor goes on
  through page 0. One page short it always finds the entry, if there is memory at address 0, and for the other pages of
  that leaf table it finds what page 0 held (`PageShort.OneShortOutcome`). With a blank page 0 and a blank frame it finds
  the entry, m pages short, if and only if m is 1, or the leaf index differs from the index before, and for m = 3 also
  from the one before that (`PageShort.ShortInstallsIff`; `PageShort.ShortOutcome` for any frame). `PageBoot.StarvesExample`
  is an input.
- `paging_init` needs twelve pages. With four to eleven, `get_phys_addr` finds the range mapped to itself as far as the
  pages reach; the processor finds the rest mapped too, all of it to 14 to 16 MiB (`Paging.AddressSpaces.PagingInit`,
  `PageBoot.InitOutcome`). With eleven that is where it should be (`PageBoot.ElevenPages`).
- Tables rely on `memset` to be blank, and the kernel's `memset` does nothing from 512 MiB on, while `alloc_page` hands
  out pages up to 513 MiB. At every level a new table keeps the tree and all translations of all spaces if and only if
  its page ends within the first 512 MiB or was blank already (`PageTree.GrownCleanIff`; `PageMaps.NewLeafCleanIff` for a
  whole call, `PageSpaces.NewRootCleanIff` for a new space). `PageBoot.DirtyExample` is an input. The allocator takes the
  lowest page first, so the results about good tables only ask for enough free pages below 512 MiB.
- `rust_map_page` into the upper half of a user root makes a table of the space's own if and only if the root's entry
  is empty (`PageSpaces.PrivateUpperIff`). `paging_free_pml4` looks at the lower half only, so it gives back all pages
  of a space if and only if the space has no such table (`PageSpaces.DropLeaksUpper`).
- `rust_kmalloc` rounds with wrap-around: what it hands out is as large as was asked if and only if the size is at most
  2^64 - 16 (`HeapRuns.LargeEnoughIff`, `HeapRuns.WrapExample`).
- `create_file` never asks whether the parent is a directory: a create keeps "only directories have children" if and
  only if the parent is one (`Vfs.CreateKeepsTypesIff`, `Vfs.FileWithAChild`).
- `ext2_alloc_block` never marks a block as taken, so all holes are given the same one: a write over direct holes, of
  any position and length, reads back if and only if the buffer repeats itself from block to block
  (`Ext2Holes.HolesReadBackIff`, `Ext2Holes.NewFileExample`). The block is not blanked (`Ext2Holes.HoleStaysBlankIff`),
  and behind the indirect block it is not even recorded (`Ext2Holes.IndirectHole`).
- `rust_task_exit` leaves the task linked and `rust_task_create` takes the lowest terminated slot: a create keeps the
  ring of NUM_TASKS tasks if and only if no linked task has exited (`Tasks.CreateKeepsRingIff`). The scheduler's scan
  from current comes back if and only if no linked task had exited or the slot used again is current's own
  (`Tasks.ScanReturnsIff`); `Tasks.ScanNeverEnds` is a run of four calls after which it does not.
- The comment at kernel-rs/src/scheduler.rs:29 says that among equal priorities the next task after current is
  picked. The code keeps current: it follows the comment if and only if current is not tied with another task
  (`Tasks.TieRuleIff`, `Tasks.TieStays`, `Tasks.TickTwice`). The model follows the code.
- `parse_command_heap` drops every quote character, also one of the other kind inside quotes: a quoted text is kept if
  and only if it has none (`Tokenizer.QuotingKeepsIff`, `Tokenizer.ApostropheExample`).
- `parse_command_heap` stops 64 bytes before the end of its buffer: the arguments are the line's first 32 tokens if and
  only if those, packed, leave 63 bytes (`Tokenizer.ParseAndGet`). Of the shell's 2048 bytes every line of 1984 or fewer
  leaves that much (`Tokenizer.ShellLinesFit`), one of 1985 need not (`Tokenizer.TooLongExample`).

## Model

| member | source | states |
|---|---|---|
| `Pmm.MaskIs` | kernel/pmm.c:36-44 | the bits of a byte stand for its pages in order, the lowest first |
| `Pmm.PutBitChangesOne` | kernel/pmm.c:36-44 | setting or clearing bit k of a byte changes that bit and no other, for every byte |
| `Pmm.FlipOne` | kernel/pmm.c:36-44 | the same for page i of the packed bitmap: page j is clear afterwards as before, unless j is i |
| `Pmm.PageAllocator.SetPageUsed` | kernel/pmm.c:36-38 | removes exactly page i from the set the bitmap describes |
| `Pmm.PageAllocator.SetPageFree` | kernel/pmm.c:39-41 | adds exactly page i to that set |
| `Pmm.PageAllocator.IsPageFree` | kernel/pmm.c:42-44 | answers membership in that set |
| `Pmm.PageAllocator.AllocPage` | kernel/pmm.c:130-139 | null exactly when no page is free; otherwise the lowest free page leaves the set and the counter follows |
| `Pmm.PageAllocator.FreePage` | kernel/pmm.c:141-149 | gives a managed, used page back and ignores every other address; the counter stays the size of the set |
| `Pmm.StepConserves` | kernel/pmm.c:130-149 | one call keeps free and live pages disjoint, and their union and number constant |
| `Pmm.RunConserves` | kernel/pmm.c:130-149 | so does every run of calls |
| `Pmm.NoPageIsLiveTwice` | kernel/pmm.c:130-149 | after every run the page the next alloc would return is not live |
| `Pmm.Serve` | kernel/pmm.c:130-149 | the bitmap allocator answers every run of calls exactly as the set does |
| `BootMap.FreeRegion` | kernel/pmm.c:69-79 | one region: the pages its steps fall into become free, both counters rise by the number of steps |
| `BootMap.FreeEntry` | kernel/pmm.c:67-80 | one entry: frees what it offers, which for every list of entries laid out in memory is said by `BootMap.InfoReads` |
| `BootMap.FreeEntries` | kernel/pmm.c:62-80 | the entry loop frees what the entries offer together and counts every offer |
| `BootMap.FreeTag` | kernel/pmm.c:60-81 | one tag: only memory map tags free anything |
| `BootMap.FreeAvailable` | kernel/pmm.c:54-83 | the tag walk ends and frees exactly what the available regions offer |
| `BootMap.MarkAllUsed` | kernel/pmm.c:50-52 | the memset makes the set of free pages empty |
| `BootMap.ReserveRange` | kernel/pmm.c:97-105 | a reservation loop takes its pages out of the free set and lowers the counter by as many |
| `BootMap.ReserveKernel` | kernel/pmm.c:87-127 | the three reservations together remove exactly the reserved pages |
| `BootMap.PmmInit` | kernel/pmm.c:46-128 | free pages are those offered and not reserved (`BootMap.BootFreesIff` says which in numbers); the counter is off by the number of repeated offers, so it is exact if and only if no two regions share a page |
| `BootMap.SweptIff` | kernel/pmm.c:97-105 | a loop from any start meets exactly the managed pages at whose same offset a step falls into its range |
| `BootMap.StepsAreDistinct` | kernel/pmm.c:71-78 | from any start, aligned or not, no page is met twice by one loop |
| `BootMap.DisjointOffers` | kernel/pmm.c:71-78 | disjoint regions, aligned or not, never offer the same page |
| `BootMap.DisjointCountsExact` | kernel/pmm.c:59-83 | for pairwise disjoint regions the counter equals the number of free pages |
| `BootMap.OverlapOvercounts` | kernel/pmm.c:54-83 | an information structure whose memory map lists one page twice: it is counted twice |
| `BootMap.OffersBound` | kernel/pmm.c:59-83 | the counter is exact if and only if no two regions share a page, and never too low |
| `BootMap.EntriesRead` | kernel/pmm.c:62-80 | for any list of entries laid out at any stride, the entry walk offers the ranges of those of type 1 that start at or above 1 MiB, in order |
| `BootMap.TagsRead` | kernel/pmm.c:54-83 | so does the tag walk for memory map tags among tags of any other type and size, each at the next multiple of eight |
| `BootMap.InfoReads` | kernel/pmm.c:54-83 | for every information structure laid out as a list of tags, the walk ends and the available regions are exactly those ranges, in order |
| `BootMap.OfferedIff` | kernel/pmm.c:68-79 | a page is offered if and only if some region, aligned or not, has a whole step at that page |
| `BootMap.InsideIff` | kernel/pmm.c:68-79 | a region offers only pages inside itself if and only if it starts on a page boundary or offers none |
| `BootMap.UnalignedExample` | kernel/pmm.c:68-79 | a region that starts in mid-page offers a page that begins before it |
| `BootMap.ReservedIff` | kernel/pmm.c:93-127 | which pages the three loops take back, in closed form |
| `BootMap.ReservedInNumbers` | kernel/pmm.c:92-127 | the same in numbers: everything from 1 MiB up to 4 MiB or to 1 MiB past the image, whichever is more and at most 17 MiB; from the image on up to there; and the 16 KiB of the bitmap |
| `BootMap.BootFreesIff` | kernel/pmm.c:46-128 | from the tags in memory and in numbers, exactly which pages boot leaves free |
| `BootMap.KernelStaysReserved` | kernel/pmm.c:93-105 | a page holding a byte of the kernel is taken back, for any alignment, if and only if it is not the last page of an unaligned kernel beyond 16 MiB |
| `BootMap.KernelTailExample` | kernel/pmm.c:93-127 | such a kernel, whose last page stays free |
| `BootMap.BootIsSound` | kernel/pmm.c:46-128 | every page left free lies in an available region and clear of the kernel, but for the first page of an unaligned region and the last of an unaligned kernel |
| `PageTree.IndicesAreShifts` | kernel/paging.c:21-24 | the shifts and masks on a 64-bit word are the indices of its number |
| `PageTree.ClearedIs` | kernel/memory.c:15-85 | memset blanks a page of the first 512 MiB and leaves any other as it is |
| `PageTree.ValueIs` | kernel/paging.c:21-24 | present bit, flags, four indices and the rest, weighted, are the number of the word |
| `PageTree.MaskIsBase` | kernel/paging.c:52-58 | masking a word with ~0xFFF gives the base of its number |
| `PageTree.BitIsPresent` | kernel/paging.c:53-53 | bit 0 of a word is the parity of its number, which the present test reads |
| `PageTree.LinkIsOr` | kernel/paging.c:56-56 | or-ing the flags into an aligned table address is the link to that number |
| `PageTree.PteIsOr` | kernel/paging.c:77-77 | so is the leaf entry, for every frame and every flag word |
| `PageTree.VpnDecomposition` | kernel/paging.c:21-24 | two addresses have the same four indices if and only if they agree on bits 12 to 47 |
| `PageTree.EntryLeadsToChild` | kernel/paging.c:52-74 | in a table tree an intermediate entry is zero, or present and leads to the child table or to a shared kernel table |
| `PageTree.WalkReadsLeaf` | kernel/paging.c:93-107 | in a tree the walk by null-pointer tests equals the processor's walk by present bits, and reads the leaf the layout names |
| `PageTree.GrownIsTree` | kernel/paging.c:53-57 | linking a fresh zeroed page keeps the tree alias-free |
| `PageTree.GrownKeepsWalks` | kernel/paging.c:53-57 | and changes no translation in any space |
| `PageTree.WrittenIsTree` | kernel/paging.c:77-77 | writing a leaf entry keeps the tree |
| `PageTree.WrittenWalks` | kernel/paging.c:77-77 | and changes one virtual page number, in exactly the spaces that own that leaf table |
| `PageTree.GrownCleanIff` | kernel/paging.c:53-57 | at every level, a new table keeps the tree and all translations of all spaces if and only if its page reads as zeros after memset |
| `PageTree.DirtyWalk` | kernel/paging.c:68-72 | a new leaf table makes translations of what stands in its page, in the spaces that see the directory, and changes no other |
| `PageTree.HollowKeepsWalks` | kernel/paging.c:54-56 | present links to page 0 in place of empty entries change nothing that get_phys_addr finds |
| `PageMaps.EnsureFinds` | kernel/paging.c:52-58 | a stanza of map_page does nothing when its table exists |
| `PageMaps.EnsureAdds` | kernel/paging.c:52-58 | otherwise it adds one table without changing a translation, page accounting included |
| `PageMaps.PathReaches` | kernel/paging.c:52-74 | the three stanzas reach the leaf table and take exactly the missing tables from the free set |
| `PageMaps.MapInstalls` | kernel/paging.c:48-78 | map_page under any root, at any address, is a one-key update: that page number gets the entry in the spaces that see the same tables, everything else is as before, the tree stays alias-free |
| `PageMaps.MapStarves` | kernel/paging.c:48-78 | with too few pages get_phys_addr finds nothing new and nothing changed in any space, and no layout makes a tree of the tables; page 0 may hold anything whose entries lead to no table |
| `PageMaps.MapInstallsIff` | kernel/paging.c:48-78 | get_phys_addr finds the entry if and only if there were enough free pages for the missing tables |
| `PageShort.OnePageShort` | kernel/paging.c:48-78 | one page short: all tables but the leaf are made, then exactly two stores, a null link and the entry on page 0 |
| `PageShort.NulledWalks` | kernel/paging.c:52-74 | with null links in a directory get_phys_addr finds what it found, and the processor takes page 0 for the leaf table |
| `PageShort.OneShortOutcome` | kernel/paging.c:48-78 | one page short, for every page of every space and any page 0: what get_phys_addr and what the processor find |
| `PageShort.ShortOutcome` | kernel/paging.c:48-78 | any number of pages short, with a blank page 0: the processor finds the entry, or goes on through the frame where the store fell on an entry of the way |
| `PageShort.ShortInstallsIff` | kernel/paging.c:48-78 | for a blank frame, the exact condition on the indices |
| `PageMaps.NewLeafCleanIff` | kernel/paging.c:68-77 | a call that makes a leaf table changes no translation of any space but the one asked for if and only if memset reached its page or the page was blank elsewhere |
| `PageMaps.NeedsMeansUnmapped` | kernel/paging.c:93-107 | a page number whose tables are missing is unmapped |
| `PageMaps.NeedsIsMissing` | kernel/paging.c:53-73 | the tables a caller can see missing by walking are those the layout lacks |
| `PageSpaces.UnmapRemoves` | kernel/paging.c:80-91 | unmap_page deletes exactly one key, in the spaces that share the leaf table |
| `PageSpaces.SeersAgree` | kernel/paging.c:48-78 | spaces that see a mapping agree on what it was before |
| `PageSpaces.MapUnmapRestores` | kernel/paging.c:48-91 | mapping an unmapped page and unmapping it restores every translation of every space |
| `PageSpaces.MappedKeepsRoots` | kernel/paging.c:48-78 | mapping loses no entry of any root and writes to no root page but the owner's |
| `PageSpaces.NewRootIsolates` | kernel/paging.c:114-138 | a new root translates the upper half as the kernel does and nothing below, changes no other space, and owns exactly the page it took |
| `PageSpaces.NewRootCleanIff` | kernel/paging.c:119-134 | its lower half is empty if and only if memset reached its page or the page was blank there |
| `PageSpaces.LowerMapsAreIsolated` | kernel/paging.c:190-196 | a lower-half map into one root changes one key of that root and nothing under any other |
| `PageSpaces.UpperHalfAgrees` | kernel/paging.c:132-134 | where a space has no table of its own, an upper-half address is unmapped or translates as in the kernel |
| `PageSpaces.PrivateUpperIff` | kernel/paging.c:190-196 | an upper-half map gives a user space a table of its own if and only if its entry was empty; then the kernel does not see it |
| `PageSpaces.LowTableIs` | kernel/paging.c:146-171 | what paging_free_pml4 finds by walking are the tables of the space's own lower half |
| `PageSpaces.DroppingKeepsOthers` | kernel/paging.c:140-174 | freeing a space gives back its root and those tables and leaves the tables of all others intact |
| `PageSpaces.DropLeaksUpper` | kernel/paging.c:140-174 | all of its pages come back if and only if it has no table of its own in the upper half |
| `PageSpaces.MapAllStaysInside` | kernel/paging.c:190-196 | any sequence of lower-half maps touches only tables of its own space and changes no other space |
| `PageSpaces.LifecycleConserves` | kernel/paging.c:114-174 | create, any maps, free: the free set is what it was and every other space translates as before |
| `PageRuns.StepInv` | kernel/paging.c:48-174 | every call of a run keeps the tables alias-free; pages move only between the free set and the tables, but for upper-half tables of a freed space |
| `PageRuns.RunIsGood` | kernel/paging.c:48-174 | the tables are alias-free at every point of every legal run over any number of spaces |
| `PageRuns.RunConserves` | kernel/paging.c:48-174 | over every run that makes no upper-half table for a user space, no page is lost and none appears |
| `PageRuns.RunIsolates` | kernel/paging.c:48-174 | a lower-half translation changes only by a map or unmap of that page in that root |
| `PageRuns.RunRemembers` | kernel/paging.c:48-196 | after every legal run over any number of spaces, a lower-half page of a space that exists translates to what was last mapped there, and to nothing if that was unmapped or the space is new, also when its root was freed and used again |
| `PageRuns.EveryPageComesBack` | kernel/paging.c:114-196 | a run that begins and ends without user spaces and maps only into them ends with the free set it began with |
| `PageInit.IdentityMaps` | kernel/paging.c:40-42 | the identity loop maps exactly the pages it visits, for ranges of any size, and leaves all others alone |
| `PageInit.InitAffordable` | kernel/paging.c:40-42 | the loop of paging_init takes exactly one page per 2 MiB and two at the start |
| `PageBoot.InitOutcome` | kernel/paging.c:40-42 | with two free pages or more: get_phys_addr finds what lies below the reach of the pages mapped to itself and nothing else, the processor finds the rest of the range mapped to its last 2 MiB |
| `PageBoot.RanOutLoop` | kernel/paging.c:40-42 | from the call that runs out of pages on, the loop leaves null links to every region and page 0 with the last 512 entries |
| `PageBoot.ElevenPages` | kernel/paging.c:26-46 | one page too few: the processor still finds the whole range mapped to itself |
| `PageBoot.ReachByPages` | kernel/paging.c:40-42 | that reach in pages: address x needs three and one for each 2 MiB before it |
| `PageInit.PteRoundTrip` | kernel/paging.c:77-77 | the entry written is present and gives back the frame |
| `PageInit.AnswerIsFrame` | kernel/paging.c:77-107 | where the leaf is the entry for a frame the answer is that frame plus the offset; where it is not present, 0 |
| `PageInit.CoversIff` | kernel/paging.c:176-181 | map_mmio visits a page of every byte of its range if and only if the offsets of first and last byte do not wrap |
| `PageInit.MissedPage` | kernel/paging.c:176-181 | otherwise the page of the last byte is not visited |
| `PageInit.MissedExample` | kernel/paging.c:176-181 | 4096 bytes from address 1 are not covered |
| `PageInit.MmioReachesItsRange` | kernel/paging.c:176-181 | in the first case every byte of the range translates to itself, in the second the last page is as before |
| `PageBoot.StarvesExample` | kernel/paging.c:48-78 | an empty root, a blank page 0 and no free page: three pages short; get_phys_addr finds nothing, the processor finds the entry unless its leaf index is one of the two before |
| `PageBoot.DirtyExample` | kernel/paging.c:68-77 | a page at 512 MiB that is not blank: mapping page 0 makes page 1 translate |
| `Paging.MapAnswers` | kernel/paging.c:48-107 | what get_phys_addr answers after a map under any root: frame plus offset in that page, for every frame, flag word and address, and what it was elsewhere |
| `Paging.UnmapAnswers` | kernel/paging.c:80-107 | and after an unmap: 0 in that page, what it was elsewhere |
| `Paging.AddressSpaces.EnsureEntry` | kernel/paging.c:52-58 | one stanza computes the function the lemmas are about |
| `Paging.AddressSpaces.MapPage` | kernel/paging.c:48-78 | map_page computes the one-key update, and nothing without a root |
| `Paging.AddressSpaces.RustMapPage` | kernel/paging.c:190-196 | maps under the given root and restores pml4_table |
| `Paging.AddressSpaces.UnmapPage` | kernel/paging.c:80-91 | unmap_page computes the one-key deletion |
| `Paging.AddressSpaces.GetPhysAddr` | kernel/paging.c:93-107 | get_phys_addr is the abstract lookup plus offset, 0 when unmapped; `Paging.AddressSpaces.MapThenLook` says what it answers after a map, for any frame and address |
| `Paging.AddressSpaces.MapThenLook` | kernel/paging.c:48-107 | after map_page, get_phys_addr of any address in that page is the frame plus the offset, for every frame and flag word, and of any other address what it was |
| `Paging.AddressSpaces.UnmapThenLook` | kernel/paging.c:80-107 | after unmap_page it is 0 in that page and what it was everywhere else |
| `Paging.AddressSpaces.CopyUpperHalf` | kernel/paging.c:132-134 | the copying loop leaves zeros below and the kernel's entries above |
| `Paging.AddressSpaces.NewPml4` | kernel/paging.c:114-138 | takes the lowest free page as root; 0 exactly when there is no page or no kernel root, and in the second case the page is lost |
| `Paging.AddressSpaces.FreeTable` | kernel/paging.c:162-173 | free_page is only ever called on a table page that is still in use, so no table is freed twice; the counter rises by one |
| `Paging.AddressSpaces.FreeTables` | kernel/paging.c:158-165 | frees each page table below one directory once |
| `Paging.AddressSpaces.FreeDirectories` | kernel/paging.c:152-168 | frees each directory and its tables once |
| `Paging.AddressSpaces.FreeLowerHalf` | kernel/paging.c:146-171 | frees every table of the lower half, and no upper-half table or leaf frame |
| `Paging.AddressSpaces.FreePml4` | kernel/paging.c:140-174 | for any root, the kernel's too, gives back exactly the root and the tables of its lower half, each once, and leaves the other spaces' tables good |
| `Paging.AddressSpaces.MapRange` | kernel/paging.c:178-180 | the mapping loop computes the identity map of its range |
| `Paging.AddressSpaces.MapMmio` | kernel/paging.c:176-181 | map_mmio is that loop with its flags |
| `Paging.AddressSpaces.TestPage` | kernel/paging.c:30-39 | the test page takes one page and disturbs no table |
| `Paging.AddressSpaces.PagingInit` | kernel/paging.c:26-46 | with four free pages or more, what both walks find at every address; with twelve that can be cleared, all below 16 MiB is mapped to itself and the tables are good |
| `Paging.AddressSpaces.Lifecycle` | kernel/paging.c:114-196 | the whole life of an address space in code: free set, counter and pml4_table are as at the start, no other space changes |
| `HeapBlocks.FirstFit` | kernel-rs/src/heap.rs:80-111 | the lowest block that is free and large enough, if there is one |
| `HeapBlocks.AllocInv` | kernel-rs/src/heap.rs:84-108 | taking a block keeps the tiling: sizes are multiples of 16 that sum with the headers to 4 MiB, no two neighbours free |
| `HeapBlocks.ReleaseInv` | kernel-rs/src/heap.rs:133-157 | freeing with both coalescing steps keeps it |
| `HeapBlocks.AllFreeIsInitial` | kernel-rs/src/heap.rs:119-159 | a heap with no live block is the single initial block |
| `HeapBlocks.MallocFreeRestores` | kernel-rs/src/heap.rs:84-157 | malloc then free of the result restores the block list exactly, split or not |
| `HeapBlocks.Apart` | kernel-rs/src/heap.rs:89-108 | payloads of different blocks do not overlap, nor does one overlap a later header |
| `HeapBlocks.PayloadInArena` | kernel-rs/src/heap.rs:89-108 | payloads are 16-aligned and inside the arena |
| `HeapRuns.MallocAnswers` | kernel-rs/src/heap.rs:73-116 | null exactly when no free block holds the rounded size; otherwise the payload of the lowest one that does |
| `HeapRuns.TakesNoMore` | kernel-rs/src/heap.rs:73-110 | a served request takes the lowest block that fits and of it the rounded size and at most 48 bytes more; it is cut exactly when more than a header is left, and the rest is then a free block; nothing else changes; a request for nothing gets null |
| `HeapRuns.AsksServed` | kernel-rs/src/heap.rs:73-116 | any run of requests on a heap whose end is free is served block behind block as long as the rounded sizes and headers are less than what is free |
| `HeapRuns.FreshHeapServes` | kernel-rs/src/heap.rs:48-116 | so a fresh heap serves any requests that take less than its 4 MiB, and what its block list then is |
| `HeapRuns.LargeEnoughIff` | kernel-rs/src/heap.rs:78-108 | the block handed out is as large as was asked if and only if the rounding did not wrap |
| `HeapRuns.WrapExample` | kernel-rs/src/heap.rs:73-110 | 2^64 - 1 bytes from a fresh heap: a pointer to a block of no bytes |
| `HeapRuns.AllocLive` | kernel-rs/src/heap.rs:84-108 | malloc adds one live pointer, which was not live, and keeps the rest |
| `HeapRuns.ReleaseLive` | kernel-rs/src/heap.rs:133-157 | free removes one live pointer and keeps the rest |
| `HeapRuns.StepInv` | kernel-rs/src/heap.rs:73-159 | every legal call keeps the tiling |
| `HeapRuns.StepAccounts` | kernel-rs/src/heap.rs:73-159 | and the live blocks stay those a client holds |
| `HeapRuns.RunKeeps` | kernel-rs/src/heap.rs:73-159 | both hold after every run |
| `HeapRuns.NothingHeldMeansInitial` | kernel-rs/src/heap.rs:119-159 | after every run in which all pointers were freed, in any order, the heap is the single initial block |
| `HeapRuns.RunNonEmpty` | kernel-rs/src/heap.rs:73-159 | in every run whose requests do not wrap, no block is ever empty |
| `Heap.SwallowLinked` | kernel-rs/src/heap.rs:139-143 | absorbing the next header turns a well-linked list into the well-linked list of the merged blocks |
| `Heap.SplitLinked` | kernel-rs/src/heap.rs:87-105 | the stores of the split link the new header on both sides |
| `Heap.TakeLinked` | kernel-rs/src/heap.rs:84-108 | taking a block refines the block sequence's step |
| `Heap.JoinNextLinked` | kernel-rs/src/heap.rs:133-145 | so does coalescing with the next block |
| `Heap.JoinPrevLinked` | kernel-rs/src/heap.rs:147-157 | and with the previous one |
| `Heap.MallocSparesPayloads` | kernel-rs/src/heap.rs:84-108 | no header that malloc writes lies in a live payload |
| `Heap.FreeSparesPayloads` | kernel-rs/src/heap.rs:133-157 | no header that free writes lies in any payload |
| `Heap.PayloadWritesKeepList` | kernel-rs/src/heap.rs:73-159 | clients that stay inside live payloads cannot disturb the list |
| `Heap.KernelHeap.constructor` | kernel-rs/src/heap.rs:48-65 | init_heap makes the single free block, whatever the memory held |
| `Heap.KernelHeap.TakeBlock` | kernel-rs/src/heap.rs:84-108 | the stores of one allocation, in order; `Heap.TakeLinked` and `HeapRuns.TakesNoMore` say what they come to |
| `Heap.KernelHeap.CoalesceNext` | kernel-rs/src/heap.rs:133-145 | the stores of the first coalescing step |
| `Heap.KernelHeap.CoalescePrev` | kernel-rs/src/heap.rs:147-157 | the stores of the second |
| `Heap.KernelHeap.Kmalloc` | kernel-rs/src/heap.rs:73-116 | for every size the walk over headers ends and does what the block sequence says (`HeapRuns.TakesNoMore`); no live payload is written |
| `Heap.KernelHeap.Kfree` | kernel-rs/src/heap.rs:119-159 | null, a header without the magic number and a free one change nothing; a block is released with both merges; right afterwards the pointer would be refused; no payload is written |
| `Heap.FreedIsRefused` | kernel-rs/src/heap.rs:127-157 | a released header says free, even when a neighbour has swallowed it |
| `Heap.FreeTwice` | kernel-rs/src/heap.rs:119-159 | a second free of the same pointer does nothing |
| `Vfs.ComponentsAppend` | kernel-rs/src/vfs.rs:84-101 | a slash between two paths concatenates their components |
| `Vfs.SpellParses` | kernel-rs/src/vfs.rs:84-101 | components written with slashes parse back to themselves |
| `Vfs.ComponentsAreComponents` | kernel-rs/src/vfs.rs:97-100 | components are non-empty and have no slash |
| `Vfs.FindAppend` | kernel-rs/src/vfs.rs:112-121 | the descent along p followed by q is the descent along both |
| `Vfs.PrefixClosed` | kernel-rs/src/vfs.rs:112-121 | every prefix of a present path is present |
| `Vfs.CreateAddsOnePath` | kernel-rs/src/vfs.rs:145-169 | create succeeds exactly for a new name under a present parent and adds that one path; its error codes; failure changes nothing |
| `Vfs.DeleteRemovesSubtree` | kernel-rs/src/vfs.rs:171-181 | delete removes exactly the paths with that prefix; the root cannot be deleted; failure changes nothing |
| `Vfs.WriteChangesOneFile` | kernel-rs/src/vfs.rs:204-226 | write replaces one regular file's bytes and changes nothing else |
| `Vfs.CreateDeleteRestores` | kernel-rs/src/vfs.rs:145-181 | deleting what was just created restores the whole map |
| `Vfs.RunConsistent` | kernel-rs/src/vfs.rs:145-226 | in every run each node carries the name it is stored under |
| `Vfs.StepIsFlat` | kernel-rs/src/vfs.rs:145-226 | each call changes the flat map, and answers, as the same call defined on the flat map alone |
| `Vfs.RunIsFlat` | kernel-rs/src/vfs.rs:145-226 | so does every run, from any tree: paths, names, types, bytes and all answers with their error numbers |
| `Vfs.CreateKeepsTypesIff` | kernel-rs/src/vfs.rs:128-169 | a create keeps "only directories have children" if and only if the parent is a directory |
| `Vfs.FileWithAChild` | kernel-rs/src/vfs.rs:128-156 | two creates put a child under a regular file |
| `Vfs.FileSystem.WriteThenRead` | kernel-rs/src/vfs.rs:183-226 | a read after a write returns the written bytes, as many as fit, under any spelling of the path, and any other file reads as before |
| `Vfs.FileSystem.Init` | kernel-rs/src/vfs.rs:78-82 | an empty root directory |
| `Vfs.FileSystem.FindEntry` | kernel-rs/src/vfs.rs:103-126 | the loop is the descent; none before init |
| `Vfs.FileSystem.FindParentAndName` | kernel-rs/src/vfs.rs:128-143 | the parent and last component, none for the root or a missing parent |
| `Vfs.FileSystem.Make` | kernel-rs/src/vfs.rs:145-169 | create_file and create_directory compute the create step |
| `Vfs.FileSystem.DeleteFile` | kernel-rs/src/vfs.rs:171-181 | computes the delete step |
| `Vfs.FileSystem.ReadFile` | kernel-rs/src/vfs.rs:183-202 | the stored prefix of length min(size, max_len), and every error code |
| `Vfs.FileSystem.WriteFile` | kernel-rs/src/vfs.rs:204-226 | computes the write step; 0 without a buffer |
| `Ext2Layout.WordRoundTrip` | kernel/ext2.h:107-117 | a 32-bit field stored little-endian reads back |
| `Ext2Image.WordBytes` | kernel/ext2.h:104-126 | a 32-bit word is its four bytes, weighted from the lowest up |
| `Ext2Image.WordsRead` | kernel/ext2.c:231-233 | an array of words is read as the words it was made of, wherever it lies |
| `Ext2Image.PackedFields` | kernel/ext2.h:104-126 | in the packed members of an inode, in their order, the size and the block pointers are those members |
| `Ext2Image.PackedSize` | kernel/ext2.c:537-540 | setting the size in the record is changing that member |
| `Ext2Image.PackedBlock` | kernel/ext2.c:508-511 | so is setting a block pointer |
| `Ext2Image.DirectBlocks` | kernel/ext2.c:212-215 | the first twelve blocks of the file are the first twelve pointers |
| `Ext2Image.FileOfImage` | kernel/ext2.c:209-241 | the file of an inode record is the twelve direct blocks and then the list laid out in the indirect block, and no more; holes without an indirect block, errors if it is beyond the device |
| `Ext2Layout.WithSizeFields` | kernel/ext2.c:537-540 | setting i_size gives that size and keeps every other byte and block pointer |
| `Ext2Layout.WithBlockFields` | kernel/ext2.c:508-511 | setting one block pointer keeps the others and the size |
| `Ext2Layout.IndexIsQuotient` | kernel/ext2.c:439-440 | the recursive index and offset are quotient and remainder |
| `Ext2Layout.InodeArithmetic` | kernel/ext2.c:148-180 | slot block and offset in the source's operators |
| `Ext2Layout.DistinctInodesApart` | kernel/ext2.c:148-160 | distinct inode numbers have disjoint records |
| `Ext2Layout.SlotFits` | kernel/ext2.c:179-180 | each record lies within one block |
| `Ext2Layout.InodeRoundTrip` | kernel/ext2.c:163-206 | a written inode reads back, and every other inode reads as before |
| `BlockFile.ChunkExtends` | kernel/ext2.c:454-475 | one iteration of the read loop appends the next bytes of the file |
| `BlockFile.DeliversContent` | kernel/ext2.c:430-479 | the bytes delivered are that stretch of the blocks of the file put one behind the other, zeros for holes |
| `BlockFile.StoredByte` | kernel/ext2.c:516-528 | one read-modify-write changes exactly the bytes of its chunk, read through the whole file |
| `BlockFile.SplicedStep` | kernel/ext2.c:516-534 | one iteration of the write loop extends what has been spliced in |
| `BlockFile.TouchesStep` | kernel/ext2.c:516-528 | and touches no block but those of the stretch |
| `BlockFile.ReadsBack` | kernel/ext2.c:430-547 | bytes delivered from where a buffer was spliced in are that buffer |
| `Ext2File.FileOfAt` | kernel/ext2.c:209-241 | the file has at each index what ext2_get_block_number answers, errors included; `Ext2Image.FileOfImage` says what that is |
| `Ext2File.StoreKeepsFile` | kernel/ext2.c:209-241 | a write to any block but the indirect one leaves the file its blocks |
| `Ext2File.ResizedStep` | kernel/ext2.c:537-540 | growing the size chunk by chunk ends where growing it once does |
| `Ext2File.SpareWrite` | kernel/ext2.c:543-544 | writing the inode table disturbs no byte of the file |
| `Ext2File.Volume.ReadRecord` | kernel/ext2.c:163-183 | ext2_read_inode, failing exactly for numbers without a slot on the device |
| `Ext2File.Volume.WriteRecord` | kernel/ext2.c:185-206 | ext2_write_inode, with the same failures and then no change |
| `Ext2File.OpenFile.constructor` | kernel/ext2.c:394-407 | an opened file starts at position 0 with the inode's size |
| `Ext2File.OpenFile.GetBlockNumber` | kernel/ext2.c:209-241 | the lookup answers for the file, which `Ext2Image.FileOfImage` reads off the images on the device |
| `Ext2File.OpenFile.ReadOne` | kernel/ext2.c:438-475 | one iteration: part of one block, zeros for a hole, failure exactly when the block cannot be reached |
| `Ext2File.OpenFile.Read` | kernel/ext2.c:430-479 | ends, delivers exactly the bytes asked for that the file has, at most count and none past the size, and advances by as many; -1 exactly when one lies in a block out of reach, after the bytes before it |
| `Ext2File.IteratedMapped` | kernel/ext2.c:485-541 | one iteration over a block that is there is one read-modify-write and the bookkeeping |
| `Ext2File.RunSplices` | kernel/ext2.c:485-541 | the loop over such blocks splices the buffer in and touches only the stretch's blocks |
| `Ext2File.WriteSplices` | kernel/ext2.c:482-547 | ext2_write over such blocks: contents are the old ones with the buffer spliced in, size is the maximum of old size and end, every block but the stretch's and the inode's is unchanged, and of the inode's block only the record changes |
| `Ext2File.AllocIs` | kernel/ext2.c:243-259 | ext2_alloc_block answers for the first group with a free block, 0 without one |
| `Ext2File.IteratedStops` | kernel/ext2.c:488-541 | one iteration of ext2_write fails exactly when there is no block to write to, and then changes neither device nor position |
| `Ext2File.RunStops` | kernel/ext2.c:485-541 | for every file, holes and blocks mixed, the loop gets through or stops at the first such place; position and size until there |
| `Ext2File.WriteAnswers` | kernel/ext2.c:482-547 | ext2_write answers the length or -1, the second exactly when it stopped early, and then has not written the inode record |
| `Ext2File.OpenFile.GetOrAllocate` | kernel/ext2.c:498-513 | the block to write to, and the inode with a new direct block in place of a hole |
| `Ext2File.OpenFile.Advance` | kernel/ext2.c:533-540 | position, size and the record's size field |
| `Ext2File.OpenFile.WriteOne` | kernel/ext2.c:488-541 | one iteration, for every file: holes, blocks out of reach and failing allocation included |
| `Ext2File.OpenFile.WriteBlocks` | kernel/ext2.c:485-541 | the loop computes the function the lemmas are about, for every file and buffer |
| `Ext2File.OpenFile.Write` | kernel/ext2.c:482-547 | so does ext2_write; the record is written only if the loop got through |
| `Ext2File.OpenFile.Overwrite` | kernel/ext2.c:482-547 | over blocks that are there, the file is the old one with the buffer spliced in |
| `Ext2File.WriteReopenRead` | kernel/ext2.c:383-547 | the file opened again from its inode record has the buffer where it was written |
| `Ext2Holes.DirectHole` | kernel/ext2.c:498-541 | a write into a direct hole reads back, with what the given block held around it |
| `Ext2Holes.HoleStaysBlankIff` | kernel/ext2.c:498-541 | around the buffer the hole still reads as zeros if and only if the given block was blank there |
| `Ext2Holes.IndirectHole` | kernel/ext2.c:498-541 | a write into a hole behind the indirect block succeeds and leaves the file as it was, the hole included |
| `Ext2Holes.FillRun` | kernel/ext2.c:485-541 | the loop over direct holes gives every index the same block, which ends with the last bytes written |
| `Ext2Holes.HoleByte` | kernel/ext2.c:243-259 | each byte of such a write reads back as the last byte written to its offset |
| `Ext2Holes.HolesReadBackIff` | kernel/ext2.c:482-547 | a write over direct holes, of any position and length, succeeds, and reads back if and only if the buffer repeats itself from block to block |
| `Ext2Holes.TwoHolesReadBackIff` | kernel/ext2.c:482-547 | two whole blocks read back if and only if they are the same |
| `Ext2Holes.NewFileExample` | kernel/ext2.c:482-547 | any write of up to 12 KiB to a new file on a small volume is over direct holes |
| `Tasks.FirstFree` | kernel-rs/src/lib.rs.template:111-113 | the lowest terminated slot, if there is one |
| `Tasks.InsertKeepsCycle` | kernel-rs/src/lib.rs.template:123-127 | inserting an unlinked slot after current keeps one cycle |
| `Tasks.CreatedInv` | kernel-rs/src/lib.rs.template:109-134 | while no linked task has exited, create adds one task to the ring, up to sixteen |
| `Tasks.CreatedFields` | kernel-rs/src/lib.rs.template:109-134 | create writes the lowest slot of state 3 (state 1, own number, entry, next) and the next pointer of current, and no other field of any task |
| `Tasks.CreatedNone` | kernel-rs/src/lib.rs.template:111-134 | without such a slot it changes nothing |
| `Tasks.RelinkedNeverReturns` | kernel-rs/src/lib.rs.template:123-127 | relinking a slot of the ring other than current makes a circle that never comes back to current |
| `Tasks.ReuseBreaksRing` | kernel-rs/src/lib.rs.template:109-134 | a create after an exit leaves no ring of NUM_TASKS tasks through current |
| `Tasks.CreateKeepsRingIff` | kernel-rs/src/lib.rs.template:109-134 | a successful create keeps the ring of NUM_TASKS tasks if and only if no linked task has exited |
| `Tasks.ScanReturnsIff` | kernel-rs/src/scheduler.rs:19-28 | after a create, following next from current comes back to it if and only if no linked task had exited or the slot used is current's own |
| `Tasks.Best` | kernel-rs/src/scheduler.rs:18-28 | the READY task of least priority value, ties to the earliest from current; none exactly when none is READY |
| `Tasks.ChoiceIsBest` | kernel-rs/src/scheduler.rs:18-28 | that choice is unique |
| `Tasks.RotateKeepsCycle` | kernel-rs/src/scheduler.rs:30-34 | the ring seen from another of its tasks is a ring |
| `Tasks.TickedInv` | kernel-rs/src/scheduler.rs:10-37 | a tick keeps the ring and its tasks |
| `Tasks.TickPicks` | kernel-rs/src/scheduler.rs:10-37 | a tick goes to a READY task that no READY task is below in priority value, the first such one along next from current, and nowhere if none is READY; it changes no task |
| `Tasks.ExitedInv` | kernel-rs/src/lib.rs.template:150-157 | an exit keeps the ring and leaves an exited task in it |
| `Tasks.ExitedFields` | kernel-rs/src/lib.rs.template:150-157 | an exit sets the state of current to 3, changes nothing else, and goes where a tick goes |
| `Tasks.TickTwice` | kernel-rs/src/scheduler.rs:10-37 | a second tick changes nothing |
| `Tasks.TieRuleIff` | kernel-rs/src/scheduler.rs:29-30 | the tick follows the comment's rule if and only if current is not tied |
| `Tasks.TieStays` | kernel-rs/src/scheduler.rs:29-30 | with two equal tasks it does not |
| `Tasks.EveryRunKeepsRing` | kernel-rs/src/lib.rs.template:96-157 | from init on, a run keeps the ring at every point if and only if it creates its tasks before the first exit |
| `Tasks.CreateAfterExitBreaks` | kernel-rs/src/lib.rs.template:96-157 | after an exit the next create breaks it, however many ticks and exits come in between |
| `Tasks.ScanNeverEnds` | kernel-rs/src/scheduler.rs:19-28 | two creates, one exit, one create: following next from current never reaches current again |
| `Tasks.TaskTable.TaskInit` | kernel-rs/src/lib.rs.template:96-106 | every slot gets state 3, id -1 and no next, and keeps its other fields; no current task |
| `Tasks.TaskTable.TaskCreate` | kernel-rs/src/lib.rs.template:109-134 | computes the create step; returns the slot, or -1 when none is free |
| `Tasks.TaskTable.Scan` | kernel-rs/src/scheduler.rs:13-28 | the scan ends after visiting every linked task once, in ring order, with the choice |
| `Tasks.TaskTable.SchedulerTick` | kernel-rs/src/scheduler.rs:10-37 | computes the tick and keeps the ring |
| `Tasks.TaskTable.TaskExit` | kernel-rs/src/lib.rs.template:150-157 | computes the exit and keeps the ring |
| `Tokenizer.DoneStays` | kernel-rs/src/bash.rs:725-754 | reading on never changes the arguments already ended |
| `Tokenizer.QuotedScanned` | kernel-rs/src/bash.rs:741-750 | text between two quotes of either kind, with blanks and quotes of the other kind in it, adds itself without those quotes to the argument and leaves no quote open |
| `Tokenizer.WordScanned` | kernel-rs/src/bash.rs:728-754 | a word of plain and quoted parts adds what its parts mean |
| `Tokenizer.WordsParseBack` | kernel-rs/src/bash.rs:712-763 | words joined by any blanks, each written in parts that are plain or in quotes of either kind, are read as what they mean |
| `Tokenizer.OpenQuoteEnds` | kernel-rs/src/bash.rs:725-760 | a quote still open at the end of the line is read as if it were closed there |
| `Tokenizer.EveryLineHasShape` | kernel-rs/src/bash.rs:712-763 | every line is such words and blanks and possibly an open quote, so that these two lemmas cover all lines |
| `Tokenizer.QuotingKeepsIff` | kernel-rs/src/bash.rs:741-750 | a quoted text is kept as one argument if and only if it has no quote of the other kind either |
| `Tokenizer.ApostropheExample` | kernel-rs/src/bash.rs:741-750 | a text with an apostrophe in double quotes loses it |
| `Tokenizer.ExpressibleIff` | kernel-rs/src/bash.rs:728-760 | some line has these tokens if and only if all are non-empty and without quote characters |
| `Tokenizer.FieldOfPacked` | kernel-rs/src/bash.rs:775-798 | field n of NUL-terminated words is word n, whatever follows them |
| `Tokenizer.FieldsOfBuffer` | kernel-rs/src/bash.rs:766-808 | every buffer is NUL-free pieces with NULs between; field n is piece n, and empty past the last |
| `Tokenizer.SkipBlanks` | kernel-rs/src/bash.rs:721-723 | the skipping loop stops at the next byte that is neither blank nor tab |
| `Tokenizer.ScanLine` | kernel-rs/src/bash.rs:713-754 | the buffer holds the ended arguments and the one being read, for every line and buffer, as the pure tokenizer reads them (`Tokenizer.WordsParseBack`, `Tokenizer.OpenQuoteEnds`); where the loop can stop |
| `Tokenizer.DeliveredIff` | kernel-rs/src/bash.rs:725-760 | what the scan got are the first 32 tokens if and only if those fit into the room it had |
| `Tokenizer.ShortLineFits` | kernel-rs/src/bash.rs:712-763 | a line no longer than the room fits |
| `Tokenizer.ShellLinesFit` | kernel-rs/src/bash.rs:517-526 | every line of up to 1984 bytes fits the shell's buffer |
| `Tokenizer.TooLongExample` | kernel-rs/src/bash.rs:517-526 | a word of 1985 bytes does not |
| `Tokenizer.ParseCommand` | kernel-rs/src/bash.rs:712-763 | the buffer holds the packed tokens of what was read; they are the line's first 32 if and only if those, packed, leave 63 bytes |
| `Tokenizer.GetArg` | kernel-rs/src/bash.rs:766-808 | field n of the buffer, empty when there are not that many |
| `Tokenizer.ParseAndGet` | kernel-rs/src/bash.rs:712-808 | for every NUL-free line and buffer, each argument read back is the token of the pure tokenizer in its place if and only if the first 32 tokens fit |

## Left out

- Translation only: whether user code may use a mapping is not stated (intermediate entries lack the USER bit).
- `memset` also refuses pages between the base and the kernel image; the allocator hands out none of those (`BootMap.ReservedIff`).
- Memory map entries do not wrap past 2^64.
- PageMaps.MapStarves: needs some set of pages that holds page 0, is closed under present entries and meets no table and no free page; a page 0 that leads into the tables is covered one page short only (`PageShort.OneShortOutcome`).
- PageShort.ShortOutcome: page 0 is blank; the processor's walk two or three pages short through a page 0 that holds other data is not stated.
- Running out of pages while the free ones left are beyond 512 MiB and not blank: `PageTree.GrownCleanIff` says that the tables are then lost, not what the walks find.
- Paging.AddressSpaces.PagingInit: nothing is stated about translation with one to three free pages, where it depends on what page 0 holds, nor when it has to use pages that memset does not reach.
- Heap.KernelHeap.Kfree: takes null, a pointer that the header check refuses, or a pointer to a block of the list; forged headers that pass the check are not modelled.
- Ext2File.OpenFile.Write: the 32-bit position does not wrap.
- Ext2Holes.HolesReadBackIff: writes that cover holes and existing blocks at once.
- CR3, the TLB, assembly, task stacks, interrupt timing and concurrency.
- Sector arithmetic below ext2 blocks, failures of the kernel heap inside ext2, `ext2_init`, path lookup, directories and inode creation.
- `list_directory` and stat in the in-memory filesystem; order of directory listings.
- Device drivers, networking, ELF loading, FAT, packages, services, security tables, system call dispatch and the shell's commands: hardware behaviour, stubs, or little to prove.
