# The kernel's memory management, verified

A Dafny model of the memory-management stack of a small x86_64 kernel, with proofs about every input, every run and
every interleaving the model allows:

- **Page tables edited through a recursive slot.** Physical memory is a map of 64-bit words; the processor's four-level
  walk (section 4.5 of the Intel SDM, Volume 3A) is defined on it independently of the kernel. The kernel's code, in
  `Paging.Machine`, never touches a table by its physical address: each access computes a virtual address with shifts
  and a bitwise OR, and goes through the walk and through a translation cache that the processor may fill and drop at
  any moment. `RemapKernel` redirects slot 511, fills an inactive hierarchy through the window, and switches to it.
- **Frame allocator.** A bump pointer that skips two reserved ranges and moves from area to area.
- **Heap.** An intrusive free list over raw bytes, first fit with splitting and a top block that is carved.
- **Terminal and hex printer.** A buffer scrolled in place, and a digit loop.

## How it is organised

| files | content |
|---|---|
| `Bits`, `Mmu` | bitwise AND/OR on words, page-table entries, indices, the walk, the recursive window |
| `FrameAllocator` | the allocator class and the enumeration of unreserved frames it refines |
| `PageTables`, `PageRuns` | tables as a labelled forest; one operation as a point update; runs refine a flat page map |
| `Permissions` | the entries on the way to a page, and when the last one alone decides what is allowed |
| `Tlb`, `TlbRuns` | which writes keep the translation cache coherent, and coherence over all runs |
| `Unchecked`, `Exhaustion` | unzeroed tables, unrecognised 2 MiB mappings, failed allocations: when each is harmless |
| `Paging` | the kernel's paging functions, through virtual addresses and the cache |
| `Hierarchies`, `KernelImage`, `IdentityMaps`, `Remap` | `remap_kernel` |
| `Boot`, `HeapPages`, `Kernel` | the tables of the boot code, the heap's pages, and all steps in sequence |
| `OrdinaryBoot` | a concrete boot that meets the conditions of the whole sequence |
| `FreeList`, `HeapRuns` | the heap as blocks: tiling, first fit, whole runs, capacity |
| `HeapMemory`, `HeapStores`, `KernelHeap` | the same heap in bytes: headers, stores, the class with `kmalloc`, `kfree`, `krealloc` |
| `Screen`, `Terminals`, `HexPrinter` | the log of lines, the terminal class, hexadecimal printing |

A page-table forest labels every table frame with its hierarchy and its path. `SpaceOk` says that each present entry
leads to the table labelled as its child, each table is where its label says, tables lie among frames handed out or
reserved, and frames not handed out hold no present entry. `Tlb.Ok`, the machine's invariant, adds the recursive slot and
the agreement of every cached translation with the current walk.

Frames are counted exactly: an operation takes one for each table that is missing on the way to its page (`Missing`),
and a run one for each missing table that it comes by (`Absent`, `Touched`), however long it is. A machine relies on the
allocator's frames up to a limit of its own (`Machine.pool`), so that nothing is asked of the frames beyond.

## Hypotheses, as the code needs them

- The frames that will be taken hold no present entry, since a new table is used without being zeroed; only what the new
  level-4 table held does not matter, since it is zeroed. `CreatedTableExposes` gives, for tables of each level, exactly
  the contents that leave every translation alone when the table is entered; for a level-1 table they are those without
  a present entry. A table of level 2 or 3 with other such contents would make later mappings use frames as tables that
  no one handed out, so the hypothesis is not relaxed. `OrdinaryBootWorks` shows that frame 0 and the screen buffer may
  hold data.
- No 2 MiB mapping covers a page that is mapped: the mask `present_bit | !huge_bit` is `present_bit` alone.
  `MapTakesEffectUnlessHuge` and `UnmapTakesEffectUnlessHuge` say exactly when this is needed.
- A frame remains for every missing table, and for `map_page` one more, which otherwise maps frame 0: `MapPageGetsFrame`
  and `HeapNeedsFrames` say exactly when, `EnoughCountsFrames` how many frames remain.
- A page mapped in the active hierarchy was unused, as the comment in `map_page_to_frame` asks; `MapNeedsUnusedPage` says
  when the cache would be right without it.
- Sections satisfy the source's assertions and lie in the lower half of the address space. The section loop compares
  with `<` against an inclusive end (`SectionCoverage`), and the multiboot loop adds `total_size` to a pointer to an
  8-byte structure (`MultibootCoverage`); both are modelled as written.
- No memory-map area wraps around, areas of a page or more do not overlap, and there is one. The allocator does not look
  at an area's type and does not move the bump pointer when it switches area (`FramesComeFromAreas`).
- The head path of `allocate_memory` does not check for memory; `init_heap` does not subtract the first header. Callers
  must leave 32 bytes beyond a request (`NewHeadIsMapped`, `CapacitySuffices`).

## Model

| member | source | states |
|---|---|---|
| Mmu.EncodeDecodes | src/paging.c:211-228 | the word stored for a frame and flags gives back the frame and every tested flag bit |
| Mmu.MaskIsField | src/paging.c:221-228 | masking an entry with the address mask yields exactly its frame field, bits 12 to 51 |
| Mmu.IndicesDeterminePage | src/paging.c:236-250 | two canonical pages with the same four table indices are the same page |
| Mmu.WindowPage | src/paging.c:199-209 | the address computed by repeated `(table << 9) \| (index << 12)`, for any indices, is a canonical page start whose indices are the path's, shifted and filled with 511 |
| Mmu.WindowReachesTable | src/paging.c:3-209 | for any active root whose slot 511 leads to a self-referencing root, and any path, through slot 511 included, that address translates to exactly the frame of the table at the path in the latter hierarchy |
| Mmu.WindowReachesEntry | src/paging.c:199-209 | the address computed for a level-1 table translates to the frame its level-2 entry leads to, a 2 MiB mapping's first frame included |
| FrameAllocator.LowestArea | src/frame_allocator.c:10-18 | the first entry of least base among areas of a page or more; index 0 if there is none |
| FrameAllocator.KernelExtent | src/frame_allocator.c:20-34 | the least start of the non-empty sections and the greatest wrapped end of all sections |
| FrameAllocator.Allocator.constructor | src/frame_allocator.c:3-41 | the reserved ranges are those of the scans; nothing handed out yet; every byte of every section (if none wraps) and of the multiboot structure lies in a reserved frame; no other frame is reserved (`ReservedIs`) |
| FrameAllocator.ReservedIs | src/frame_allocator.c:20-49 | a frame is reserved exactly when one of its 4096 bytes lies at or between the least section start and the greatest section end, or at or between the ends of the multiboot structure |
| FrameAllocator.LastFrameReserved | src/frame_allocator.c:20-49 | a section that ends 16 bytes into a frame reserves that frame and not the next |
| FrameAllocator.TopIs | src/frame_allocator.c:74-92 | the highest frame is the least whose end no area of a page or more passes |
| FrameAllocator.Allocator.SwitchArea | src/frame_allocator.c:51-66 | moves to the usable area of least base above the current one, or leaves the bump pointer above every area |
| FrameAllocator.Allocator.FindFrame | src/frame_allocator.c:74-97 | the loop ends, on the next unreserved frame if that is within the highest area, else with failure |
| FrameAllocator.Allocator.AllocateFrame | src/frame_allocator.c:71-98 | hands out the next unreserved frame; fails exactly when it lies above the highest area, and then for ever; the frames handed out so far are always the unreserved ones below the bump pointer, in order |
| FrameAllocator.FreeBelowEnumerates | src/frame_allocator.c:71-98 | that history is strictly ascending, never repeats, and holds every unreserved frame below the bump pointer and no other |
| FrameAllocator.EnoughCountsFrames | src/frame_allocator.c:71-98 | k allocations in a row succeed exactly when k unreserved frames are left up to the end of the highest area |
| FrameAllocator.FramesComeFromAreas | src/frame_allocator.c:51-97 | every byte of every frame ever handed out lies in an area exactly when, for each gap that begins at 0 or at an area's end, all frames with a byte in the gap are reserved, up to the next base or the end of the last frame |
| FrameAllocator.HandedOutFromAreas | src/frame_allocator.c:71-98 | the same of the frames an allocator has handed out, at any time and once it has gone through all of them |
| FrameAllocator.HandedOutKeepOffImage | src/frame_allocator.c:20-98 | no frame handed out holds a byte of a section or of the multiboot structure it was built from |
| FrameAllocator.HandedOutAre | src/frame_allocator.c:20-98 | the frames handed out are exactly those below the bump pointer with no byte in these ranges |
| FrameAllocator.GapIsHandedOut | src/frame_allocator.c:3-98 | an allocator built from two areas with a gap hands out the frame in the gap |
| FrameAllocator.PartialFrameIsHandedOut | src/frame_allocator.c:3-98 | an allocator built from an area of 4097 bytes hands out the frame of its last byte |
| PageTables.ParentIsUnique | src/paging.c:288-312 | outside the recursive slot no table has two parent entries and no root has any |
| PageTables.TableHasParent | src/paging.c:288-312 | every table but a root has a parent entry |
| PageTables.EnsureTableOk | src/paging.c:288-302 | looking up or creating a table keeps the forest; a created table is the allocator's next frame, distinct from all tables, and empty; its parent entry is the frame's number times 4096, plus 3 |
| PageTables.CreatedTableWord | src/paging.c:291-298 | that entry is the only word of memory that changes when a table is created |
| PageTables.EnsureTableKeepsWalks | src/paging.c:288-302 | and changes no translation outside the recursive slot, of any hierarchy |
| PageTables.EnsureTableLocates | src/paging.c:288-302 | the tables there are afterwards are those there were, and the one asked for |
| Unchecked.CreatedTableExposes | src/paging.c:291-298 | entering an un-zeroed frame as a table of level 3, 2 or 1 maps nothing exactly when the frame's present entries lead, through the levels below, to no present last entry; for level 1, when it has none |
| Unchecked.DirtyFrame | src/paging.c:291-298 | a frame with a present entry that is harmless at levels 2 and 3 and not at level 1 |
| PageTables.ApplyOk | src/paging.c:304-340 | an operation keeps the forest and all labels, and takes exactly one frame for each table missing on the way to the page it maps |
| PageTables.ApplyWritesLeaf | src/paging.c:304-340 | with the tables there, one word changes: the page's level-1 entry becomes 0, or the frame's number times 4096 plus the flags with bit 0 set |
| PageTables.ApplyIsPointUpdate | src/paging.c:304-340 | mapping or unmapping is an exact point update: the page gets the frame and flags asked for, or none, and every other page of every hierarchy keeps its translation, however many tables were created |
| PageTables.MapThenUnmap | src/paging.c:304-340 | mapping an unmapped page and unmapping it restores every translation |
| Unchecked.MapTakesEffectUnlessHuge | src/paging.c:204-312 | mapping with ordinary flags takes effect exactly when no 2 MiB mapping covers the page, or its write under that mapping replaces an upper entry of the page so that the walk ends in the word written; if it replaces none, the translation stays |
| Unchecked.UnmapTakesEffectUnlessHuge | src/paging.c:204-340 | unmapping removes the translation exactly when no 2 MiB mapping covers the page, or its write under that mapping hits an upper entry of the page |
| Unchecked.BootPageStays | src/paging.c:204-340 | so no page below 1 GiB can be mapped or unmapped under the boot tables: the frame that begins its 2 MiB is written instead, unless a boot table begins them |
| Unchecked.BootPageMayMove | src/paging.c:204-312 | with the level-2 boot table in frame 0x200, a covered page for which mapping takes effect after all |
| PageRuns.RunOk | src/paging.c:288-340 | any legal run of maps and unmaps, of any length, keeps the forest and all labels, and takes exactly one frame for each missing table it comes by |
| PageRuns.RunLocates | src/paging.c:288-340 | after any legal run the tables there are are those there were and those on the way to the pages mapped |
| PageRuns.LongRunsMayBeCheap | src/paging.c:288-340 | runs over the pages of one level-1 table take at most three frames, however long |
| PageRuns.RunRefinesFlat | src/paging.c:304-340 | after any legal run the walk of every page is what a flat page-to-frame map says, and other hierarchies are untouched |
| PageRuns.RunKeepsTree | src/paging.c:288-340 | after any legal run every table still has at most one parent entry |
| Permissions.RunKeepsPlain | src/paging.c:288-340 | if the entries above level 1 are all a frame's number times 4096 plus 3, the recursive slot aside, they are so after any legal run, and the slot is what it was |
| Permissions.LeafDecides | src/paging.h:9-26 | in such a hierarchy a page may be written exactly if bit 1 of its last entry is set, and executed exactly if bit 63 is clear, all four entries of the walk considered |
| Tlb.FillKeepsCoherent | src/paging.c:296-311 | writing an entry that was not present keeps every cached translation right, without a flush |
| Tlb.WindowIgnoresLeaves | src/paging.c:311-333 | writing a level-1 entry changes no translation of the recursive window |
| Tlb.LeafWriteKeepsCoherent | src/paging.c:304-340 | a level-1 write makes at most its own page stale, and none in a hierarchy that is not active |
| TlbRuns.ApplyKeepsOk | src/paging.c:304-340 | mapping an unused page without a flush, and unmapping with one, in the active hierarchy or another, keep the machine's invariant |
| TlbRuns.HierarchyEventKeepsOk | src/paging.c:350-434 | so do taking and writing a frame that is no table, making it a root, redirecting slot 511 and switching hierarchy |
| TlbRuns.CacheStaysCoherent | src/paging.c:15-442 | over all runs of these events, whatever is cached and whenever, every cached translation agrees with the walk after every event |
| TlbRuns.UnmapNeedsFlush | src/paging.c:333-339 | without its flush, unmapping leaves the cache right exactly when the page was not cached |
| TlbRuns.MappedPageMayBeCached | src/paging.c:333-339 | and for every mapped page the processor may have a cache that is then wrong |
| TlbRuns.MapNeedsUnusedPage | src/paging.c:309-311 | mapping a page, in use or not, leaves the cache right exactly when the page was not cached or maps as before |
| Paging.Machine.FlushTlb | src/paging.c:5-17 | reloading the control register keeps it and empties the cache |
| Paging.Machine.SetPageTableEntry | src/paging.c:211-216 | through the window and the cache, exactly the addressed entry of the physical table gets the encoded word |
| Paging.Machine.DescendPageTable | src/paging.c:199-209 | NULL for an index out of range or an absent entry, else the child's window address |
| Paging.Machine.GetPhysicalFrame | src/paging.c:221-228 | the frame of a present entry, even while another page is stale |
| Paging.Machine.GetNextPageTableOrCreate | src/paging.c:288-302 | a table that is there is found with memory unchanged; one that is missing is created, by the one word frame * 4096 + 3; its window address is returned; NULL, with memory unchanged, exactly if it is missing and no frame is left |
| Paging.Machine.MapPageToFrame | src/paging.c:304-312 | refines the point update and keeps the invariant, cache included |
| Paging.Machine.TakeFrame | src/frame_allocator.c:71-98 | the next frame, whatever it holds, for use other than as a table; 0 if there is none |
| Paging.Machine.MapPage | src/paging.c:314-318 | maps the page to the allocator's next frame, or to frame 0 if there is none |
| Exhaustion.MapPageOutcome | src/paging.c:314-318 | what map_page does to every page, whether or not there is a frame |
| Exhaustion.MapPageGetsFrame | src/paging.c:314-318 | the page gets a frame that is unreserved and was not handed out before exactly when one is left, else frame 0 |
| Exhaustion.HeapNeedsFrames | src/kmalloc.c:35-42 | with their tables there, the heap's pages get such frames, all distinct, exactly when 25 are left; the pages after the last frame all get frame 0 |
| Exhaustion.ExhaustedMapsRoot | src/paging.c:314-318 | with frame 0 as the level-4 table and no frame left, the page is mapped to the level-4 table |
| Exhaustion.FullIsExhausted | src/paging.c:314-318 | there is such a state |
| Paging.Machine.IdentityMapPage | src/paging.c:320-324 | maps the page of a frame to that frame |
| Paging.Machine.UnmapPage | src/paging.c:326-340 | removes exactly the page's entry; the read-back while the page is stale is safe, and the cache is right afterwards |
| Paging.Machine.TranslatePage | src/paging.c:252-277 | reading the tables through the window gives the frame the walk gives, for 4 KiB and 2 MiB mappings, in the recursive slot too |
| Paging.Machine.Translate | src/paging.c:279-286 | for every mapped canonical address, whatever the frames to come hold, the physical address is the walk's frame with the page offset |
| Boot.SetUpPageTables | src/arch/x86_64/boot.s:101-131 | the contents of all entries of the three tables, and nothing else changed |
| Boot.BootIdentity | src/arch/x86_64/boot.s:101-131 | every page below 1 GiB translates to itself, and no other page outside the recursive slot translates |
| Boot.BootForest | src/arch/x86_64/boot.s:101-131 | the boot tables are a forest whose recursive slot leads to itself |
| Boot.StartPaging | src/arch/x86_64/boot.s:101-149 | with the tables in reserved frames, the machine is in its invariant but for the contents of the first frame to be handed out |
| Boot.TranslateAtBoot | src/paging.c:252-286 | as soon as paging is on, translate(v) = v for all v below 1 GiB |
| KernelImage.SectionCoverage | src/paging.c:386-409 | the section loop reaches every byte of an aligned section exactly when its size is not one more than a multiple of 4096 |
| KernelImage.OneByteSectionIsMissed | src/paging.c:386-409 | a one-byte section is missed |
| KernelImage.MultibootCoverage | src/paging.c:417-422 | the multiboot loop reaches every byte exactly when the structure has at least 512 bytes or does not straddle a page |
| KernelImage.ShortStructureIsMissed | src/paging.c:417-422 | two bytes across a page boundary, of which the second is not reached |
| KernelImage.FlagTests | src/multiboot.c:227-237 | bit 0 of the flags makes a section writeable, bit 1 allocated, bit 2 executable |
| KernelImage.SectionPagesAre | src/paging.c:386-409 | the pages the section loop visits, in bytes |
| KernelImage.FinalEntry | src/paging.c:379-422 | the last entry of every page after all loops, in figures: the multiboot loop leaves page * 4096 + 1 with bit 63 set, the screen's page gets 3 with bit 63, any other page what the last section that has it says, bit 1 exactly if bit 0 of its flags is set and bit 63 exactly if bit 2 is clear, and none if no section has it |
| KernelImage.PermissionsKept | src/paging.c:392-421 | a page, in its last section, ends up with bit 1 set and bit 63 clear exactly as bits 0 and 2 of the section's flags say, exactly when the multiboot loop or the screen's mapping does not visit it later, or allows the same |
| KernelImage.CodeLosesExecution | src/paging.c:417-422 | a 600-byte structure in the page before the code takes execution from the code's first page |
| KernelImage.VisitsImage | src/paging.c:379-422 | the loops visit exactly the pages of allocated sections, the screen page and the multiboot pages, as the loops bound them |
| IdentityMaps.MapSection | src/paging.c:379-410 | one section's loop performs exactly the section's identity mappings, in order |
| IdentityMaps.MapMultiboot | src/paging.c:417-422 | the multiboot loop performs exactly its identity mappings, in order |
| Hierarchies.SpareWriteKeepsOk | src/paging.c:193-197 | writing any word to a frame that is no table, whatever it held, disturbs neither tables nor cache |
| Hierarchies.NewRootKeepsOk | src/paging.c:366-373 | a zeroed frame with its own recursive entry joins the forest as an empty hierarchy |
| Hierarchies.RedirectKeepsWalks | src/paging.c:375-427 | redirecting a recursive slot changes no translation outside it |
| Hierarchies.RedirectOpensWindow | src/paging.c:375-428 | and makes the target hierarchy the one seen through the window |
| Remap.InitPageTable | src/paging.c:193-197 | zeroes all 512 entries through a mapped page, whatever they were, without disturbing any translation |
| Remap.PrepareNewRoot | src/paging.c:350-377 | after the redirection an empty hierarchy is being edited while the old one still translates as before |
| Remap.FinishRemap | src/paging.c:426-439 | the old hierarchy gets its slot back and loses its temporary page; the new one becomes active and loses the guard page |
| Remap.RemapKernel | src/paging.c:346-442 | the new root is the first frame handed out, self-referencing by the word root * 4096 + 3, and in the control register; a page outside slot 511 is mapped exactly if the loops visit it and it is not the old level-4 table's, and then to itself with the last visit's flags; no entry above level 1 limits what the last one allows; the new tables are those on the way to these pages, a frame each; the old address space is intact but for one temporary page, which maps the new root |
| HeapPages.MapHeap | src/kmalloc.c:35-42 | each of the 25 pages from 1 GiB on is mapped to its own frame, unreserved, fresh, and never a page table, by the entry frame * 4096 + 3; all other pages keep their translations, and the upper entries what they allow |
| Kernel.SetUpMemory | src/kernel.c:54-56 | the whole address space after remap_kernel and init_heap, page by page |
| Kernel.SetUpFromBoot | src/kernel.c:50-56 | from the memory map, the sections and the boot code's tables to that address space: the entry of every page outside slot 511 in figures; every byte of an allocated section and of the multiboot structure that the loops reach is in its place, the guard page is unmapped, and the heap lies on frames that are neither page tables nor part of the image; no upper entry limits what the last one allows |
| Kernel.ImagePageInPlace | src/paging.c:379-439 | every page of the image but the guard page translates to itself |
| Kernel.KernelPermissions | src/paging.c:379-439 | in that address space a page, in its last section, may be written and executed, by the whole of its walk, as bits 0 and 2 of the section's flags say exactly when the multiboot loop or the screen's mapping does not visit it later, or allows the same |
| OrdinaryBoot.OrdinaryAddressSpace | src/paging.c:346-442 | a boot with a code section, a data section and a structure: the walk of every page below 512 GiB, to the last bit |
| OrdinaryBoot.OrdinaryPermissions | src/paging.c:392-422 | there the code may be executed and not written, the data and the screen written and not executed |
| FreeList.TilingIsExact | src/kmalloc.c:49-103 | every address of the heap lies in exactly one block |
| FreeList.HeadIsHighest | src/kmalloc.c:87-100 | the list head is the topmost block |
| FreeList.AllocKeepsInv | src/kmalloc.c:49-103 | an allocation keeps the tiling, the list without repetition, and the head's header in mapped memory |
| FreeList.FreeKeepsInv | src/kmalloc.c:135-140 | freeing a live block does too |
| FreeList.AllocGrants | src/kmalloc.c:49-103 | the block returned was free, grants the request and at most 31 bytes more; all other live blocks stay live with their sizes, and no boundary disappears |
| FreeList.AllocInFigures | src/kmalloc.c:49-103 | of the first block that fits, with up to 31 bytes to spare: taken whole, out of the list; with 32 or more: cut to the request, the rest, 16 bytes further and 16 smaller, in its place in the list; if none fits: the same of the head, and the rest is the new head |
| FreeList.NewHeadIsMapped | src/kmalloc.c:87-99 | for every 64-bit request, in 64-bit arithmetic: carving keeps the heap intact, and the new head's header in mapped memory, exactly when 32 bytes beyond the request were there, and the size wraps around exactly with fewer than 16 |
| FreeList.LivePayloads | src/kmalloc.c:105-113 | a live payload is disjoint from every other block and header, lies below the head, and is mapped |
| FreeList.FreeThenAlloc | src/kmalloc.c:49-140 | freeing a block and asking for up to 31 bytes less than it has returns it; and restores the heap exactly for those sizes and no others |
| HeapRuns.RunKeepsInv | src/kmalloc.c:35-140 | the invariant holds after every legal run of kmalloc, kfree and krealloc |
| HeapRuns.BoundariesStay | src/kmalloc.c:49-140 | a block boundary, once created, never disappears |
| HeapRuns.StepKeepsPayload | src/kmalloc.c:49-140 | a payload keeps its place and size until a call is made on it |
| HeapRuns.CapacitySuffices | src/kmalloc.c:35-103 | if all requests with a header each total at most the heap less one header, no allocation of any interleaving runs out |
| HeapRuns.CapacityIsTight | src/kmalloc.c:87-99 | with one byte more a single request fails |
| HeapRuns.FreedBlockIsCut | src/kmalloc.c:49-140 | a freed block of 100 bytes serves 64, and the 20 left over serve the next 16 |
| HeapMemory.HeaderBytes | src/kmalloc.c:8-11 | a header is sixteen bytes, the next block's address and the size, least byte first |
| HeapMemory.NextSet | src/kmalloc.c:8-11 | writing a header's next field changes that field alone, among all separate headers |
| HeapStores.SplitHeaders | src/kmalloc.c:68-80 | the stores of a split leave in memory exactly the split heap's sizes and list |
| HeapStores.WholeHeaders | src/kmalloc.c:59-80 | the stores of a block taken whole leave exactly the list without it |
| HeapStores.HeadHeaders | src/kmalloc.c:87-99 | the stores of carving leave exactly the list with the new head |
| KernelHeap.KHeap.constructor | src/kmalloc.c:44-46 | the bytes describe one free block whose size is the whole heap |
| KernelHeap.KHeap.AllocateMemory | src/kmalloc.c:49-103 | refines first fit over the list in memory, and no byte of a live payload changes |
| KernelHeap.KHeap.Kmalloc | src/kmalloc.c:105-113 | the payload of the block chosen |
| KernelHeap.KHeap.Kfree | src/kmalloc.c:135-140 | the block goes right behind the head; no payload byte changes |
| KernelHeap.KHeap.Kmemcpy | src/kmalloc.c:115-119 | the destination equals the source as it was, byte for byte, and nothing else changes |
| KernelHeap.KHeap.Krealloc | src/kmalloc.c:121-133 | a large enough block stays; otherwise the old bytes start the new payload, exactly the old block is freed, and no live payload changes |
| KernelHeap.PayloadInFigures | src/kmalloc.c:105-133 | what keeps payloads keeps every byte of every live block behind its 16-byte header, all of them in the mapped 102400 bytes |
| KernelHeap.KHeap.WriteByte | src/kmalloc.c:105-113 | writing to a payload leaves the list intact |
| Screen.WrapIsChunking | src/terminal.c:71-79 | text without newlines appears as lines of exactly 80 cells, eagerly cut |
| Screen.NewLineSeparates | src/terminal.c:62-79 | what follows a newline is laid out as on a fresh screen |
| Screen.TabAligns | src/terminal.c:101-114 | after a tab the column is a multiple of four, on whatever line |
| Screen.TabLines | src/terminal.c:101-114 | before column 76 a tab adds no line and fills the last one with blank cells to the next multiple of four; from there on it leaves the lines and adds an empty one |
| Terminals.Terminal.ClearTerminal | src/terminal.c:33-39 | every cell is blank |
| Terminals.Terminal.ScrollTerminal | src/terminal.c:50-60 | every row holds what the next one held, and the last is blank |
| Terminals.Terminal.PrintNewline | src/terminal.c:62-69 | the screen shows the last 25 lines of the log with a line added, scrolled when full |
| Terminals.Terminal.TerminalPutChar | src/terminal.c:71-79 | the screen shows the last 25 lines of the log with the cell added, wrapped eagerly |
| Terminals.Terminal.PrintTab | src/terminal.c:101-114 | the screen shows the log with the tab added, whose lines `TabLines` gives |
| Terminals.Terminal.PrintText | src/terminal.c:91-99 | the screen shows the log with the text added |
| Terminals.TextIs | src/terminal.c:7-99 | character 10 of a text is a newline, every other one a cell, light green on black |
| Terminals.ScreenIs | src/terminal.c:16-79 | the buffer in figures: 80 by 25 cells with the log's last 25 lines, blank elsewhere, and the cursor behind the last one |
| HexPrinter.PrintIntegerAsHex | src/terminal.c:367-399 | after 0x or 0X if asked for, the digits denote the number in base 16, in the chosen case, and are as many as it needs but at least width + 1 |
| HexPrinter.FillField | src/terminal.c:368-380 | the loop stays within the 16 places and leaves the 16 lowest digits, zero-padded |

## Left out

- Paging.Machine.MapPageToFrame: where a table is missing and no frame is left, the source goes on from the address NULL; only that NULL is returned is modelled (`GetNextPageTableOrCreate`).
- PageTables.ApplyIsPointUpdate: pages of the recursive slot are not mapped or unmapped; that would edit upper tables.
- Paging.Machine.Translate: is stated for mapped addresses; the source follows NULL or reads an unset frame otherwise.
- KernelHeap.KHeap.AllocateMemory: needs 32 bytes beyond the request in the head block when nothing else fits; the size then underflows or the header leaves the mapped pages in the source.
- KernelHeap.KHeap.Kfree: is stated for live blocks; double and foreign frees are not modelled.
- HexPrinter.PrintIntegerAsHex: needs a width below 16; the source indexes before its buffer otherwise.
- TlbRuns.CacheStaysCoherent: table creation is modelled without its flush, which is thereby shown to be unnecessary; the machine's method does flush. The tracing calls between an unmapping's store and its flush are not events.
- The cache holds whole translations; paging-structure caches, accessed and dirty bits, and permission faults at an access are not modelled. What a walk allows is stated for 4 KiB pages (`MayWrite`, `MayExecute`).
- 1 GiB mappings exist in the walk but not in the tables the kernel edits, which mark them as to be done.
- Writes by a program to mapped memory other than the heap's payloads, the stack and the screen.
- The heap's bytes are an array of the mapped size; their place in physical frames is the subject of `HeapPages.MapHeap` alone.
- `deallocate_frame`, `compact_heap` and `align_addr`, which have no effect or no caller; `memory_maps` entry stride and the count of entries.
- Model-specific registers, CR0 and CR4, `invlpg`, port input and output.
- Multiboot tag parsing, interrupt and exception handling, the interrupt controller, the timer and the keyboard.
- The format parser of `terminal_printf`, decimal printing, colours, and the tracing calls inside the functions modelled; the greeting of `init_terminal`.
