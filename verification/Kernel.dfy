/** The memory part of kernel_main: from the memory the boot code starts with, and the memory map
    and section list it is given, to a kernel and a heap that are mapped. */
module Kernel {
  import opened FrameAllocator
  import opened Mmu
  import opened PageTables
  import opened PageRuns
  import opened Tlb
  import opened Hierarchies
  import opened KernelImage
  import opened Paging
  import opened Remap
  import opened HeapPages
  import opened Boot
  import opened Permissions

  predicate IsHeapPage(page: nat) {
    HEAP_PAGE <= page < HEAP_PAGE + HEAP_PAGES
  }

  /** The address space kernel_main ends up with, outside the recursive slot: the image but for
      the guard page maps to itself, the heap to frames of its own, and nothing else is mapped. */
  ghost predicate IsKernelView(m: Memory, root: nat, sections: seq<Section>, start: nat, totalSize: nat,
                               guard: nat, frames: seq<nat>)
    requires |frames| == HEAP_PAGES
  {
    forall q: nat :: Canonical(q) && P4Index(q) != RECURSIVE ==>
      Walk(m, root, q) ==
        if IsHeapPage(q) then Some(Mapping(frames[q - HEAP_PAGE], frames[q - HEAP_PAGE] * PAGE_SIZE + 3))
        else if q != guard && ImageHasPage(sections, start, totalSize, q)
             then Flat(RemapOps(sections, start, totalSize), q, None)
        else None
  }

  /** The frames init_heap takes: those of its pages, and those of the tables that the image does
      not share with it. */
  function HeapFrames(sections: seq<Section>, start: nat, totalSize: nat): nat {
    HEAP_PAGES + |TablePaths(HEAP_PAGE) - Touched(RemapOps(sections, start, totalSize))|
  }

  /** remap_kernel followed by the mapping loop of init_heap, for an image that keeps out of the
      heap's pages. */
  method SetUpMemory(m: Machine, sections: seq<Section>, start: nat, totalSize: nat) returns (ghost frames: seq<nat>)
    requires CanRemap(m, sections, start, totalSize, HeapFrames(sections, start, totalSize))
    requires forall q :: IsHeapPage(q) ==> !ImageHasPage(sections, start, totalSize, q)
    modifies m, m.alloc
    ensures m.Valid() && m.Active() == m.edit != old(m.Active())
    ensures |frames| == HEAP_PAGES && FreshFrames(m.pool, frames, 0)
    ensures forall k :: 0 <= k < HEAP_PAGES ==> Spare(m.TheSpace(), frames[k])
    ensures IsKernelView(m.mem, m.Active(), sections, start, totalSize, old(m.Active()), frames)
    ensures PlainTables(m.mem, m.own, m.Active()) && OwnSlot(m.mem, m.Active())
  {
    hide PlainTables, Read, Ok, ImageHasPage, RemapOps, IsImageView, OthersKept, HeapMapped, HeapUnused, Spare,
         IsKernelView, Pool.Enough, HasTables, Touched, Missing, TablePaths;
    ghost var guard := m.Active();
    RemapKernel(m, sections, start, totalSize, HeapFrames(sections, start, totalSize));
    ghost var mem := m.mem;
    HeapIsUnused(mem, m.Active(), sections, start, totalSize, guard);
    HeapLacks(m.pool, m.TheSpace(), m.Active(), m.edit, m.tlb, Touched(RemapOps(sections, start, totalSize)));
    frames := MapHeap(m);
    ViewsCombine(mem, m.TheSpace(), m.Active(), sections, start, totalSize, guard, frames);
  }

  lemma HeapLacks(pool: Pool, s: Space, root: nat, edit: nat, tlb: Cache, paths: set<Path>)
    requires Ok(pool, s, root, edit, tlb) && HasTables(s.own, root, paths)
    ensures Missing(s.mem, root, HEAP_PAGE) == |TablePaths(HEAP_PAGE) - paths|
  {
    hide Missing, SpaceOk, Locate, OwnsPath;
    SpaceIsForest(pool, s);
    HeapPagesAreCanonical(0);
    PagePathsInTree(HEAP_PAGE);
    AddPage(s.mem, s.mem, root, {}, HEAP_PAGE);
    assert {} + TablePaths(HEAP_PAGE) == TablePaths(HEAP_PAGE) && Absent(s.mem, root, {}) == {};
    forall p | p in TablePaths(HEAP_PAGE)
      ensures Locate(s.mem, root, p).None? <==> p !in paths
    {
      LocatedIfOwned(s.mem, s.own, root, p);
    }
    assert Absent(s.mem, root, TablePaths(HEAP_PAGE)) == TablePaths(HEAP_PAGE) - paths;
  }

  lemma HeapIsUnused(m: Memory, root: nat, sections: seq<Section>, start: nat, totalSize: nat, guard: nat)
    requires IsImageView(m, root, sections, start, totalSize, guard)
    requires forall q :: IsHeapPage(q) ==> !ImageHasPage(sections, start, totalSize, q)
    ensures HeapUnused(m, root)
  {
    hide Walk, ImageHasPage, Flat;
    forall p | HEAP_PAGE <= p < HEAP_PAGE + HEAP_PAGES
      ensures Walk(m, root, p).None?
    {
      HeapPagesAreCanonical(p - HEAP_PAGE);
      assert IsHeapPage(p);
    }
  }

  lemma ViewsCombine(m: Memory, s: Space, root: nat, sections: seq<Section>, start: nat, totalSize: nat,
                     guard: nat, frames: seq<nat>)
    requires |frames| == HEAP_PAGES
    requires IsImageView(m, root, sections, start, totalSize, guard)
    requires OthersKept(m, s.mem, root, HEAP_PAGES) && HeapMapped(s, root, frames)
    ensures IsKernelView(s.mem, root, sections, start, totalSize, guard, frames)
    ensures forall k :: 0 <= k < HEAP_PAGES ==> Spare(s, frames[k])
  {
    hide Walk, ImageHasPage, Flat, Spare;
    forall q: nat | IsHeapPage(q)
      ensures Walk(s.mem, root, q) == Some(Mapping(frames[q - HEAP_PAGE], frames[q - HEAP_PAGE] * PAGE_SIZE + 3))
    {
      var k := q - HEAP_PAGE;
      assert MappedTo(s.mem, root, HEAP_PAGE + k, frames[k]);
    }
  }

  // ---------------------------------------------------------- from the start

  /** The section holds all of a frame. */
  predicate HoldsFrame(s: Section, f: nat) {
    s.addr <= f * PAGE_SIZE && (f + 1) * PAGE_SIZE <= s.addr + s.size
  }

  /** What the kernel is given: a memory map, its sections, among them the one that holds the boot
      code's tables, and the multiboot structure, none of them in the heap's pages. */
  ghost predicate BootInfo(areas: seq<Area>, sections: seq<Section>, bss: Section, start: nat, totalSize: nat,
                           p4: nat, p3: nat, p2: nat) {
    && WellFormed(areas) && TablesApart(p4, p3, p2)
    && ImageOk(sections, start, totalSize) && (forall s :: s in sections ==> s.addr + s.size < WORD)
    && bss in sections && Allocated(bss) && HoldsFrame(bss, p4) && HoldsFrame(bss, p3) && HoldsFrame(bss, p2)
    && (forall q :: IsHeapPage(q) ==> !ImageHasPage(sections, start, totalSize, q))
  }

  /** The frames taken in all: the new root, the tables of the temporary pages, those of the image
      and the heap, and the heap's pages. */
  function KernelFrames(sections: seq<Section>, start: nat, totalSize: nat): nat {
    1 + |TemporaryTables()| + |Touched(RemapOps(sections, start, totalSize)) + TablePaths(HEAP_PAGE)| + HEAP_PAGES
  }

  /** An address that translates to itself. */
  ghost predicate InPlace(m: Memory, root: nat, x: nat) {
    Walk(m, root, x / PAGE_SIZE).Some? && Walk(m, root, x / PAGE_SIZE).value.frame == x / PAGE_SIZE
  }

  /** Every byte of a range translates to itself, the guard page aside. */
  ghost predicate AllInPlace(m: Memory, root: nat, from: nat, size: nat, guard: nat) {
    forall x :: from <= x < from + size && x / PAGE_SIZE != guard ==> InPlace(m, root, x)
  }

  /** Where the loops of remap_kernel reach every byte, the sections and the multiboot structure
      translate to themselves but for the guard page. */
  ghost predicate ImageInPlace(m: Memory, root: nat, sections: seq<Section>, start: nat, totalSize: nat, guard: nat) {
    && Walk(m, root, guard).None?
    && (forall s :: s in sections && Allocated(s) && s.size % PAGE_SIZE != 1 ==>
          AllInPlace(m, root, s.addr, s.size, guard))
    && (totalSize >= 512 || start % PAGE_SIZE + totalSize <= PAGE_SIZE ==>
          AllInPlace(m, root, start, totalSize, guard))
  }

  /** The translation and the last entry of a page: the heap's from 1 GiB on; none for the guard;
      otherwise what the multiboot loop, the screen's mapping or else the last section that has the
      page makes of it, and none if no one visits it. */
  ghost predicate EntryIs(m: Memory, root: nat, sections: seq<Section>, start: nat, totalSize: nat, guard: nat,
                          frames: seq<nat>, q: nat)
    requires |frames| == 25
  {
    var t := Walk(m, root, q);
    if 0x4_0000 <= q < 0x4_0019 then t == Some(Mapping(frames[q - 0x4_0000], frames[q - 0x4_0000] * 4096 + 3))
    else if q == guard || q >= 0x8_0000_0000 then t == None
    else if MultibootVisits(start, totalSize, q) then t == Some(Mapping(q, q * 4096 + 0x8000_0000_0000_0001))
    else if q == 0xb8 then t == Some(Mapping(q, q * 4096 + 0x8000_0000_0000_0003))
    else
      && (forall i :: 0 <= i < |sections| && IsLastSection(sections, i, q) ==>
            t == Some(Mapping(q, q * 4096 + (High(sections[i]) + Low(sections[i])))))
      && ((forall s :: s in sections ==> !SectionVisits(s, q)) ==> t == None)
  }

  ghost predicate KernelEntries(m: Memory, root: nat, sections: seq<Section>, start: nat, totalSize: nat, guard: nat,
                                frames: seq<nat>)
    requires |frames| == 25
  {
    forall q: nat :: Canonical(q) && P4Index(q) != 511 ==>
      EntryIs(m, root, sections, start, totalSize, guard, frames, q)
  }

  lemma EntriesAre(m: Memory, root: nat, sections: seq<Section>, start: nat, totalSize: nat, guard: nat,
                   frames: seq<nat>)
    requires |frames| == HEAP_PAGES && IsKernelView(m, root, sections, start, totalSize, guard, frames)
    requires ImageOk(sections, start, totalSize)
    requires forall q :: IsHeapPage(q) ==> !ImageHasPage(sections, start, totalSize, q)
    ensures KernelEntries(m, root, sections, start, totalSize, guard, frames)
  {
    hide Walk, IsKernelView, ImageHasPage, ImageOk, EntryIs;
    forall q: nat | Canonical(q) && P4Index(q) != 511
      ensures EntryIs(m, root, sections, start, totalSize, guard, frames, q)
    {
      EntryOfPage(m, root, sections, start, totalSize, guard, frames, q);
    }
  }

  lemma EntryOfPage(m: Memory, root: nat, sections: seq<Section>, start: nat, totalSize: nat, guard: nat,
                    frames: seq<nat>, q: nat)
    requires |frames| == HEAP_PAGES && IsKernelView(m, root, sections, start, totalSize, guard, frames)
    requires ImageOk(sections, start, totalSize) && Canonical(q) && P4Index(q) != 511
    requires forall q :: IsHeapPage(q) ==> !ImageHasPage(sections, start, totalSize, q)
    ensures EntryIs(m, root, sections, start, totalSize, guard, frames, q)
  {
    hide Walk, ImageHasPage, ImageOk, RemapOps, Flat, Visits, AllIdentity, MultibootVisits, SectionVisits, High, Low;
    RemapOpsAreIdentity(sections, start, totalSize);
    VisitsImage(sections, start, totalSize, q);
    FlatOfIdentity(RemapOps(sections, start, totalSize), q);
    if q < 0x8_0000_0000 {
      FinalEntry(sections, start, totalSize, q);
    } else if ImageHasPage(sections, start, totalSize, q) {
      VisitedIsLower(RemapOps(sections, start, totalSize), q);
    }
  }

  /** From the memory the boot code starts with: set_up_page_tables, enable_paging, init_allocator,
      remap_kernel, and the mapping of the heap. Up to a limit of the caller's choosing, frames
      that are not reserved hold no present entry, the first of them aside, and there are enough
      of them. Then the kernel ends up with exactly its image and its heap mapped: every byte of
      an allocated section in its place, the old level-4 table unmapped as a guard, the heap on
      distinct frames that are neither page tables nor any part of the image. */
  method SetUpFromBoot(m0: Memory, p4: nat, p3: nat, p2: nat, areas: seq<Area>, sections: seq<Section>,
                       ghost bss: Section, start: nat, totalSize: nat, ghost limit: int)
      returns (m: Machine, ghost frames: seq<nat>)
    requires BootInfo(areas, sections, bss, start, totalSize, p4, p3, p2)
    requires limit <= TopFrame(areas) && limit < FRAMES
    requires var pool := PoolOf(areas, sections, start, totalSize).(top := limit);
      BootMemory(m0, p4, p3, p2, pool, 0) && pool.Enough(0, KernelFrames(sections, start, totalSize))
    ensures m.Valid() && m.Active() == m.edit != p4
    ensures |frames| == HEAP_PAGES && FreshFrames(m.pool, frames, 0)
    ensures forall k :: 0 <= k < HEAP_PAGES ==> Spare(m.TheSpace(), frames[k])
    ensures IsKernelView(m.mem, m.Active(), sections, start, totalSize, p4, frames)
    ensures ImageInPlace(m.mem, m.Active(), sections, start, totalSize, p4)
    ensures KeepOffImage(frames, sections, start, totalSize)
    // the last entry of every page, in figures, and the tables above, which leave all to it
    ensures KernelEntries(m.mem, m.Active(), sections, start, totalSize, p4, frames)
    ensures PlainTables(m.mem, m.own, m.Active()) && OwnSlot(m.mem, m.Active())
  {
    hide PlainTables, OwnSlot, KernelEntries, Machine.Starting, ImageHasPage, RemapOps, IsKernelView, Pool.Enough,
         Pool.NextFree, BootTables, FreshFrames, Spare, TemporariesUnused, Touched, TablePaths, TemporaryTables,
         BootMemory, Absent,
         ReservesImage, ReservesBytes;
    var alloc := new Allocator(areas, sections, start, totalSize);
    ghost var pool := alloc.pool.(top := limit);
    ReservedIgnoresTop(alloc.pool, limit, sections, start, totalSize);
    HeldIsReserved(pool, sections, bss, p4);
    HeldIsReserved(pool, sections, bss, p3);
    HeldIsReserved(pool, sections, bss, p2);
    m := StartPaging(m0, p4, p3, p2, alloc, pool);
    BootLacksTemporaries(m0, m.mem, p4, p3, p2);
    HeldIsImage(sections, bss, start, totalSize, p4);
    TablesInTwoParts(sections, start, totalSize);
    frames := SetUpMemory(m, sections, start, totalSize);
    KernelImageInPlace(m.mem, m.Active(), sections, start, totalSize, p4, frames);
    FreshKeepOffImage(m.pool, frames, sections, start, totalSize);
    EntriesAre(m.mem, m.Active(), sections, start, totalSize, p4, frames);
  }

  lemma ReservedIgnoresTop(pool: Pool, limit: int, sections: seq<Section>, start: nat, totalSize: nat)
    requires ReservesImage(pool, sections) && ReservesBytes(pool, start, totalSize)
    ensures ReservesImage(pool.(top := limit), sections) && ReservesBytes(pool.(top := limit), start, totalSize)
  {
    assert forall f :: pool.(top := limit).Reserved(f) == pool.Reserved(f);
    if forall s :: s in sections ==> s.addr + s.size < WORD {
      forall s | s in sections
        ensures ReservesBytes(pool.(top := limit), s.addr, s.size)
      {
        assert ReservesBytes(pool, s.addr, s.size);
      }
    }
  }

  /** A frame that a section holds is reserved. */
  lemma HeldIsReserved(pool: Pool, sections: seq<Section>, bss: Section, f: nat)
    requires ReservesImage(pool, sections) && forall s :: s in sections ==> s.addr + s.size < WORD
    requires bss in sections && HoldsFrame(bss, f)
    ensures pool.Reserved(f)
  {
    assert ReservesBytes(pool, bss.addr, bss.size);
    assert f * PAGE_SIZE / PAGE_SIZE == f;
  }

  lemma HeldIsImage(sections: seq<Section>, bss: Section, start: nat, totalSize: nat, f: nat)
    requires bss in sections && SectionOk(bss) && Allocated(bss) && HoldsFrame(bss, f)
    ensures ImageHasPage(sections, start, totalSize, f)
  {
    var i :| 0 <= i < |sections| && sections[i] == bss;
    assert SectionHasPage(sections[i], f);
  }

  /** The boot tables leave the temporary pages unused, and all their tables missing. */
  lemma BootLacksTemporaries(m0: Memory, m: Memory, p4: nat, p3: nat, p2: nat)
    requires TablesApart(p4, p3, p2) && BootTables(m0, m, p4, p3, p2)
    ensures TemporariesUnused(m, p4) && Absent(m, p4, TemporaryTables()) == TemporaryTables()
  {
    TemporaryPages();
    BootIdentity(m0, m, p4, p3, p2, NEW_P4_PAGE);
    BootIdentity(m0, m, p4, p3, p2, OLD_P4_PAGE);
    assert Read(m, p4, 27) == 0;
    forall p | p in TemporaryTables()
      ensures Locate(m, p4, p).None?
    {
      assert Step(m, p4, 27).None?;
    }
  }

  /** The temporary pages differ in their level-3 index: together they need five tables. */
  lemma TemporaryTablesAreFive()
    ensures |TemporaryTables()| == 5
  {
    var a, b := NEW_P4_PAGE, OLD_P4_PAGE;
    assert P4Index(a) == P4Index(b) == 27 && P3Index(a) == 427 && P3Index(b) == 375;
    assert TemporaryTables() == {P3(27), P2(27, 427), LeafPath(a)} + {P2(27, 375), LeafPath(b)};
    assert |{P3(27), P2(27, 427), LeafPath(a)}| == 3 && |{P2(27, 375), LeafPath(b)}| == 2;
  }

  /** The tables of the image and of the heap, counted in two parts. */
  lemma TablesInTwoParts(sections: seq<Section>, start: nat, totalSize: nat)
    ensures KernelFrames(sections, start, totalSize)
         == 1 + |TemporaryTables()| + (|Touched(RemapOps(sections, start, totalSize))|
                                       + HeapFrames(sections, start, totalSize))
  {
    var a, b := Touched(RemapOps(sections, start, totalSize)), TablePaths(HEAP_PAGE);
    assert a + b == a + (b - a) && a !! b - a;
  }

  /** A byte on a page of the image that is not the guard page is in its place. */
  lemma ImagePageInPlace(m: Memory, root: nat, sections: seq<Section>, start: nat, totalSize: nat, guard: nat,
                         frames: seq<nat>, page: nat)
    requires |frames| == HEAP_PAGES && IsKernelView(m, root, sections, start, totalSize, guard, frames)
    requires ImageOk(sections, start, totalSize) && ImageHasPage(sections, start, totalSize, page) && page != guard
    requires forall q :: IsHeapPage(q) ==> !ImageHasPage(sections, start, totalSize, q)
    ensures Walk(m, root, page).Some? && Walk(m, root, page).value.frame == page
  {
    hide Walk, ImageHasPage, ImageOk, RemapOps, Flat, Visits, AllIdentity;
    RemapOpsAreIdentity(sections, start, totalSize);
    VisitsImage(sections, start, totalSize, page);
    FlatOfIdentity(RemapOps(sections, start, totalSize), page);
    VisitedIsLower(RemapOps(sections, start, totalSize), page);
    LowerHalfPage(page);
  }

  lemma SectionInPlace(m: Memory, root: nat, sections: seq<Section>, start: nat, totalSize: nat, guard: nat,
                       frames: seq<nat>, s: Section)
    requires |frames| == HEAP_PAGES && IsKernelView(m, root, sections, start, totalSize, guard, frames)
    requires ImageOk(sections, start, totalSize)
    requires forall q :: IsHeapPage(q) ==> !ImageHasPage(sections, start, totalSize, q)
    requires s in sections && Allocated(s) && s.size % PAGE_SIZE != 1
    ensures AllInPlace(m, root, s.addr, s.size, guard)
  {
    hide Walk, IsKernelView, RemapOps, Flat;
    assert SectionOk(s);
    SectionCoverage(s);
    var i :| 0 <= i < |sections| && sections[i] == s;
    forall x | s.addr <= x < s.addr + s.size && x / PAGE_SIZE != guard
      ensures InPlace(m, root, x)
    {
      assert SectionHasPage(sections[i], x / PAGE_SIZE);
      ImagePageInPlace(m, root, sections, start, totalSize, guard, frames, x / PAGE_SIZE);
    }
  }

  lemma MultibootInPlace(m: Memory, root: nat, sections: seq<Section>, start: nat, totalSize: nat, guard: nat,
                         frames: seq<nat>)
    requires |frames| == HEAP_PAGES && IsKernelView(m, root, sections, start, totalSize, guard, frames)
    requires ImageOk(sections, start, totalSize)
    requires forall q :: IsHeapPage(q) ==> !ImageHasPage(sections, start, totalSize, q)
    requires totalSize >= 512 || start % PAGE_SIZE + totalSize <= PAGE_SIZE
    ensures AllInPlace(m, root, start, totalSize, guard)
  {
    hide Walk, IsKernelView, RemapOps, Flat, ImageOk;
    forall x | start <= x < start + totalSize && x / PAGE_SIZE != guard
      ensures InPlace(m, root, x)
    {
      MultibootCoverage(start, totalSize);
      assert MultibootHasPage(start, totalSize, x / PAGE_SIZE);
      ImagePageInPlace(m, root, sections, start, totalSize, guard, frames, x / PAGE_SIZE);
    }
  }

  lemma KernelImageInPlace(m: Memory, root: nat, sections: seq<Section>, start: nat, totalSize: nat, guard: nat,
                           frames: seq<nat>)
    requires |frames| == HEAP_PAGES && IsKernelView(m, root, sections, start, totalSize, guard, frames)
    requires ImageOk(sections, start, totalSize) && ImageHasPage(sections, start, totalSize, guard)
    requires forall q :: IsHeapPage(q) ==> !ImageHasPage(sections, start, totalSize, q)
    ensures ImageInPlace(m, root, sections, start, totalSize, guard)
  {
    hide Walk, IsKernelView, ImageOk, ImageHasPage, AllInPlace;
    GuardUnmapped(m, root, sections, start, totalSize, guard, frames);
    forall s | s in sections && Allocated(s) && s.size % PAGE_SIZE != 1
      ensures AllInPlace(m, root, s.addr, s.size, guard)
    {
      SectionInPlace(m, root, sections, start, totalSize, guard, frames, s);
    }
    if totalSize >= 512 || start % PAGE_SIZE + totalSize <= PAGE_SIZE {
      MultibootInPlace(m, root, sections, start, totalSize, guard, frames);
    }
  }

  lemma GuardUnmapped(m: Memory, root: nat, sections: seq<Section>, start: nat, totalSize: nat, guard: nat,
                      frames: seq<nat>)
    requires |frames| == HEAP_PAGES && IsKernelView(m, root, sections, start, totalSize, guard, frames)
    requires ImageOk(sections, start, totalSize) && ImageHasPage(sections, start, totalSize, guard)
    requires forall q :: IsHeapPage(q) ==> !ImageHasPage(sections, start, totalSize, q)
    ensures Walk(m, root, guard).None?
  {
    hide Walk, ImageHasPage, ImageOk, RemapOps, Flat, Visits, AllIdentity;
    RemapOpsAreIdentity(sections, start, totalSize);
    VisitsImage(sections, start, totalSize, guard);
    VisitedIsLower(RemapOps(sections, start, totalSize), guard);
    LowerHalfPage(guard);
  }

  lemma FreshKeepOffImage(pool: Pool, frames: seq<nat>, sections: seq<Section>, start: nat, totalSize: nat)
    requires FreshFrames(pool, frames, 0) && forall s :: s in sections ==> s.addr + s.size < WORD
    requires ReservesImage(pool, sections) && ReservesBytes(pool, start, totalSize)
    ensures KeepOffImage(frames, sections, start, totalSize)
  {
    UnreservedKeepOffImage(pool, frames, sections, start, totalSize);
  }

  // ------------------------------------------------------------- permissions

  /** In the final address space a page of a section, the last that has it, can be written and
      executed, by all entries on the processor's way to it, as the section's flags say: exactly
      when neither the screen's mapping nor the over-long multiboot loop visits it later with
      others. */
  lemma KernelPermissions(m: Memory, own: map<nat, Label>, root: nat, sections: seq<Section>, start: nat,
                          totalSize: nat, guard: nat, frames: seq<nat>, i: nat, page: nat)
    requires Forest(m, own) && IsRoot(own, root) && PlainTables(m, own, root)
    requires |frames| == 25 && KernelEntries(m, root, sections, start, totalSize, guard, frames)
    requires IsLastSection(sections, i, page) && page != guard && page < 0x8_0000_0000
    requires !(0x4_0000 <= page < 0x4_0019)
    ensures (MayWrite(m, root, page) <==> Writes(sections[i])) && (MayExecute(m, root, page) <==> Executes(sections[i]))
       <==> KeepsPermissions(sections[i], start, totalSize, page)
  {
    hide Walk, Forest, PlainTables, MayWrite, MayExecute, MultibootVisits, SectionVisits, High, Low, Writes, Executes;
    LowerHalfPage(page);
    assert EntryIs(m, root, sections, start, totalSize, guard, frames, page);
    LeafDecides(m, own, root, page);
    HighAndLow(sections[i]);
    LeafBits(page, Low(sections[i]), High(sections[i]));
    LeafBits(page, 1, 0x8000_0000_0000_0000);
    LeafBits(page, 3, 0x8000_0000_0000_0000);
  }

  lemma LeafBits(page: nat, low: nat, high: nat)
    requires page < 0x8_0000_0000 && (low == 1 || low == 3) && (high == 0 || high == 0x8000_0000_0000_0000)
    ensures var leaf := page * 4096 + (high + low);
      (leaf / 2 % 2 == 1 <==> low == 3) && (leaf / 0x8000_0000_0000_0000 % 2 == 0 <==> high == 0)
  {
    BitsOfLeaf(page, low, high);
  }
}
