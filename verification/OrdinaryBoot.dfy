/** An ordinary boot meets everything SetUpFromBoot asks for: frame 0 holds the interrupt vectors of
    the firmware, the screen buffer holds text, and the kernel is loaded at 1 MiB. */
module OrdinaryBoot {
  import opened Bits
  import opened FrameAllocator
  import opened Mmu
  import opened PageTables
  import opened PageRuns
  import opened KernelImage
  import opened Remap
  import opened HeapPages
  import opened Boot
  import opened Kernel
  import opened Permissions

  /** Memory below the firmware's data, and memory from 1 MiB on. */
  const AREAS: seq<Area> := [Area(0, 0x9_fc00), Area(0x10_0000, 0x7ee_0000)]
  /** Code, and data with the boot code's tables in its first frames. */
  const CODE: Section := Section(6, 0x10_0000, 0x1_0000)
  const DATA: Section := Section(3, 0x11_0000, 0x1_0000)
  const SECTIONS: seq<Section> := [CODE, DATA]
  const MULTIBOOT: nat := 0x12_0000
  const MULTIBOOT_SIZE: nat := 0x600
  /** The frames below the firmware's data. */
  const LIMIT: int := 0x9e
  /** An interrupt vector at address 0, and a word of text on the screen. */
  const MEMORY: Memory := map[Slot(0, 0) := 0xf000_ff53_f000_ff53, Slot(VGA_FRAME, 0) := 0x0f6b_0f6f]

  lemma {:induction false} EnoughOfRow(pool: Pool, n: nat, k: nat)
    requires n + k <= pool.top + 1 && forall f :: n <= f < n + k ==> !pool.Reserved(f)
    ensures pool.Enough(n, k)
    decreases k
  {
    if k > 0 {
      assert pool.NextFree(n) == n;
      EnoughOfRow(pool, n + 1, k - 1);
    }
  }

  lemma SectionsAllocated()
    ensures Allocated(CODE) && Allocated(DATA)
  {
    assert And(6, 2) == 2 && And(3, 2) == 2;
  }

  /** All pages of the image lie below 2 MiB. */
  lemma ImageIsLow(page: nat)
    requires ImageHasPage(SECTIONS, MULTIBOOT, MULTIBOOT_SIZE, page)
    ensures page < 0x200
  {
  }

  /** So the image needs three tables, and the heap at most three more. */
  lemma FewFrames()
    ensures KernelFrames(SECTIONS, MULTIBOOT, MULTIBOOT_SIZE) <= 37
  {
    hide RemapOps, ImageHasPage, TemporaryTables;
    var ops := RemapOps(SECTIONS, MULTIBOOT, MULTIBOOT_SIZE);
    forall k | 0 <= k < |ops|
      ensures LeafPath(ops[k].page) == LeafPath(0)
    {
      assert Visits(ops, ops[k].page);
      VisitsImage(SECTIONS, MULTIBOOT, MULTIBOOT_SIZE, ops[k].page);
      ImageIsLow(ops[k].page);
    }
    TouchedUnder(ops, 0);
    TemporaryTablesAreFive();
    ThreePaths(0);
    ThreePaths(HEAP_PAGE);
    var a, b := TablePaths(0), TablePaths(HEAP_PAGE);
    Included(Touched(ops) + b, a + b);
    assert a + b == a + (b - a) && b == (b - a) + (b * a);
  }

  lemma ThreePaths(page: nat)
    ensures |TablePaths(page)| == 3
  {
  }

  lemma Included<T>(a: set<T>, b: set<T>)
    requires a <= b
    ensures |a| <= |b|
  {
    assert b == a + (b - a);
  }

  lemma PoolIs()
    ensures var pool := PoolOf(AREAS, SECTIONS, MULTIBOOT, MULTIBOOT_SIZE);
      pool.kernelStart == 0x100 && pool.kernelEnd == 0x120 && pool.multibootStart == pool.multibootEnd == 0x120
      && pool.top >= LIMIT
  {
    assert SECTIONS[..1] == [CODE] && [CODE][..0] == [];
    assert KernelStart([CODE]) == 0x10_0000 && KernelEnd([CODE]) == 0x11_0000;
    assert Qualifies(AREAS[0]) && LastFrame(AREAS[0]) == 0x9f;
  }

  lemma InfoOk()
    ensures BootInfo(AREAS, SECTIONS, DATA, MULTIBOOT, MULTIBOOT_SIZE, 0x110, 0x111, 0x112)
  {
    hide ImageHasPage;
    SectionsAllocated();
    assert Qualifies(AREAS[0]);
    forall q | IsHeapPage(q)
      ensures !ImageHasPage(SECTIONS, MULTIBOOT, MULTIBOOT_SIZE, q)
    {
      if ImageHasPage(SECTIONS, MULTIBOOT, MULTIBOOT_SIZE, q) {
        ImageIsLow(q);
      }
    }
  }

  /** The conditions of SetUpFromBoot hold, although frame 0 and the screen buffer are not clear. */
  lemma OrdinaryBootWorks()
    ensures var pool := PoolOf(AREAS, SECTIONS, MULTIBOOT, MULTIBOOT_SIZE).(top := LIMIT);
      && BootInfo(AREAS, SECTIONS, DATA, MULTIBOOT, MULTIBOOT_SIZE, 0x110, 0x111, 0x112)
      && LIMIT <= TopFrame(AREAS) && LIMIT < FRAMES
      && BootMemory(MEMORY, 0x110, 0x111, 0x112, pool, 0)
      && pool.Enough(0, KernelFrames(SECTIONS, MULTIBOOT, MULTIBOOT_SIZE))
      && !Clear(MEMORY, 0) && !Clear(MEMORY, VGA_FRAME)
  {
    hide BootInfo, KernelFrames;
    var pool := PoolOf(AREAS, SECTIONS, MULTIBOOT, MULTIBOOT_SIZE).(top := LIMIT);
    PoolIs();
    InfoOk();
    FewFrames();
    EnoughOfRow(pool, 0, KernelFrames(SECTIONS, MULTIBOOT, MULTIBOOT_SIZE));
    NextFreeIsLeast(pool, 0, 0);
    assert Present(Read(MEMORY, 0, 0)) && Present(Read(MEMORY, VGA_FRAME, 0));
  }

  lemma LastSections(page: nat)
    requires 0x100 <= page < 0x120
    ensures IsLastSection(SECTIONS, if page < 0x110 then 0 else 1, page)
    ensures High(CODE) + Low(CODE) == 1 && High(DATA) + Low(DATA) == 0x8000_0000_0000_0003
  {
  }

  /** The address space this boot ends up with: the code can be executed and not written, the data
      written and not executed, the page of the old level-4 table is unmapped, and so on. */
  lemma OrdinaryAddressSpace(m: Memory, root: nat, frames: seq<nat>, page: nat)
    requires |frames| == 25 && KernelEntries(m, root, SECTIONS, MULTIBOOT, MULTIBOOT_SIZE, 0x110, frames)
    requires page < 0x8_0000_0000
    ensures Walk(m, root, page)
         == if 0x100 <= page < 0x110 then Some(Mapping(page, page * 4096 + 1))
            else if 0x110 < page < 0x120 then Some(Mapping(page, page * 4096 + 0x8000_0000_0000_0003))
            else if page == 0xb8 then Some(Mapping(0xb8, 0x8000_0000_000b_8003))
            else if 0x120 <= page <= 0x123 then Some(Mapping(page, page * 4096 + 0x8000_0000_0000_0001))
            else if 0x4_0000 <= page < 0x4_0019 then
              Some(Mapping(frames[page - 0x4_0000], frames[page - 0x4_0000] * 4096 + 3))
            else None
  {
    hide Walk, KernelEntries, IsLastSection, High, Low;
    assert EntryIs(m, root, SECTIONS, MULTIBOOT, MULTIBOOT_SIZE, 0x110, frames, page) by {
      PageHasEntry(m, root, frames, page);
    }
    if 0x100 <= page < 0x120 {
      LastSections(page);
    }
  }

  lemma PageHasEntry(m: Memory, root: nat, frames: seq<nat>, page: nat)
    requires |frames| == 25 && KernelEntries(m, root, SECTIONS, MULTIBOOT, MULTIBOOT_SIZE, 0x110, frames)
    requires page < 0x8_0000_0000
    ensures EntryIs(m, root, SECTIONS, MULTIBOOT, MULTIBOOT_SIZE, 0x110, frames, page)
  {
    LowerHalfPage(page);
  }

  /** And by all entries on the way. */
  lemma OrdinaryPermissions(m: Memory, own: map<nat, Label>, root: nat, frames: seq<nat>)
    requires Forest(m, own) && IsRoot(own, root) && PlainTables(m, own, root)
    requires |frames| == 25 && KernelEntries(m, root, SECTIONS, MULTIBOOT, MULTIBOOT_SIZE, 0x110, frames)
    ensures MayExecute(m, root, 0x100) && !MayWrite(m, root, 0x100)
    ensures MayWrite(m, root, 0x111) && !MayExecute(m, root, 0x111)
    ensures MayWrite(m, root, 0xb8) && !MayExecute(m, root, 0xb8)
  {
    hide Walk, KernelEntries, Forest, PlainTables, MayWrite, MayExecute;
    OrdinaryAddressSpace(m, root, frames, 0x100);
    OrdinaryAddressSpace(m, root, frames, 0x111);
    OrdinaryAddressSpace(m, root, frames, 0xb8);
    LowerHalfPage(0x100);
    LowerHalfPage(0x111);
    LowerHalfPage(0xb8);
    LeafDecides(m, own, root, 0x100);
    LeafDecides(m, own, root, 0x111);
    LeafDecides(m, own, root, 0xb8);
  }
}
