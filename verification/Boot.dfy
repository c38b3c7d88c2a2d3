/** The page tables the boot code builds before long mode: 1 GiB identity-mapped with 2 MiB
    pages, and the recursive slot. */
module Boot {
  import opened Bits
  import opened FrameAllocator
  import opened Mmu
  import opened PageTables
  import opened Paging
  import opened Tlb

  /** Three distinct page-aligned tables below 4 GiB. */
  predicate TablesApart(p4: nat, p3: nat, p2: nat) {
    p4 < 0x10_0000 && p3 < 0x10_0000 && p2 < 0x10_0000 && p4 != p3 && p3 != p2 && p2 != p4
  }

  ghost predicate ZeroFrame(m: Memory, f: nat) {
    forall i :: 0 <= i < ENTRIES ==> Read(m, f, i) == 0
  }

  /** The contents of the three tables, and the rest of memory as it was. */
  ghost predicate BootTables(m0: Memory, m: Memory, p4: nat, p3: nat, p2: nat) {
    && (forall i :: 0 <= i < ENTRIES ==>
          Read(m, p4, i) == if i == 0 then p3 * 4096 + 3 else if i == 511 then p4 * 4096 + 3 else 0)
    && (forall i :: 0 <= i < ENTRIES ==> Read(m, p3, i) == if i == 0 then p2 * 4096 + 3 else 0)
    && (forall i :: 0 <= i < ENTRIES ==> Read(m, p2, i) == i * 0x20_0000 + 0x83)
    && (forall f, i :: f != p4 && f != p3 && f != p2 ==> Read(m, f, i) == Read(m0, f, i))
  }

  lemma OrOfTable(frame: nat)
    ensures Or(frame * 4096, 3) == frame * 4096 + 3
  {
    ShlTwelve(frame);
    assert Pow2(12) == 4096;
    OrAboveBelow(frame, 3, 12);
  }

  lemma OrOfHugePage(i: nat)
    ensures Or(i * 0x20_0000, 0x83) == i * 0x20_0000 + 0x83
  {
    ShlTwelve(i * 512);
    assert Pow2(12) == 4096;
    OrAboveBelow(i * 512, 0x83, 12);
  }

  /** set_up_page_tables and enable_paging; the tables start out zero, as part of .bss. */
  method SetUpPageTables(m0: Memory, p4: nat, p3: nat, p2: nat) returns (m: Memory, cr3: nat)
    requires TablesApart(p4, p3, p2)
    requires ZeroFrame(m0, p4) && ZeroFrame(m0, p3) && ZeroFrame(m0, p2)
    ensures BootTables(m0, m, p4, p3, p2) && cr3 == p4 * PAGE_SIZE + 3
  {
    hide Or, And;
    OrOfTable(p3);
    OrOfTable(p2);
    OrOfTable(p4);
    ReadAfterWrite(m0, p4, 0, Or(p3 * PAGE_SIZE, 3));
    m := Write(m0, p4, 0, Or(p3 * PAGE_SIZE, 3));
    ReadAfterWrite(m, p3, 0, Or(p2 * PAGE_SIZE, 3));
    m := Write(m, p3, 0, Or(p2 * PAGE_SIZE, 3));
    var ecx := 0;
    while ecx != 512
      invariant 0 <= ecx <= 512
      invariant forall i :: 0 <= i < ENTRIES ==> Read(m, p4, i) == if i == 0 then p3 * 4096 + 3 else 0
      invariant forall i :: 0 <= i < ENTRIES ==> Read(m, p3, i) == if i == 0 then p2 * 4096 + 3 else 0
      invariant forall i :: 0 <= i < ecx ==> Read(m, p2, i) == i * 0x20_0000 + 0x83
      invariant forall f, i :: f != p4 && f != p3 && f != p2 ==> Read(m, f, i) == Read(m0, f, i)
    {
      var eax := 0x20_0000 * ecx % 0x1_0000_0000;
      OrOfHugePage(ecx);
      ReadAfterWrite(m, p2, ecx, Or(eax, 0x83));
      m := Write(m, p2, ecx, Or(eax, 0x83));
      ecx := ecx + 1;
    }
    cr3 := Or(p4 * PAGE_SIZE, 3);
    ReadAfterWrite(m, p4, 511, cr3);
    m := Write(m, p4, 511, cr3);
  }

  lemma TableEntry(frame: nat)
    requires frame < FRAMES
    ensures var e := frame * 4096 + 3; Present(e) && !Huge(e) && FrameOf(e) == frame
  {
    FieldsOfSum(frame, 3);
  }

  lemma HugeEntry(i: nat)
    requires i < ENTRIES
    ensures var e := i * 0x20_0000 + 0x83; Present(e) && Huge(e) && FrameOf(e) == i * 512
  {
    FieldsOfSum(i * 512, 0x83);
    assert i * 512 * 4096 == i * 0x20_0000;
  }

  /** Every address below 1 GiB translates to itself, and no other address outside the
      recursive slot translates at all. */
  lemma BootIdentity(m0: Memory, m: Memory, p4: nat, p3: nat, p2: nat, page: nat)
    requires TablesApart(p4, p3, p2) && BootTables(m0, m, p4, p3, p2)
    requires Canonical(page) && P4Index(page) != RECURSIVE
    ensures Walk(m, p4, page).Some? <==> page < 0x4_0000
    ensures page < 0x4_0000 ==> Walk(m, p4, page).value.frame == page
  {
    TableEntry(p3);
    TableEntry(p2);
    HugeEntry(P2Index(page));
    SplitPage(page);
    CanonicalHigh(page);
  }

  function BootLabels(p4: nat, p3: nat, p2: nat): map<nat, Label> {
    map[p4 := Label(p4, P4), p3 := Label(p4, P3(0)), p2 := Label(p4, P2(0, 0))]
  }

  /** The boot tables form a forest with one hierarchy, whose recursive slot leads to itself. */
  lemma BootForest(m0: Memory, m: Memory, p4: nat, p3: nat, p2: nat)
    requires TablesApart(p4, p3, p2) && BootTables(m0, m, p4, p3, p2)
    ensures Forest(m, BootLabels(p4, p3, p2)) && Windowed(m, p4, p4)
  {
    var own := BootLabels(p4, p3, p2);
    TableEntry(p4);
    TableEntry(p3);
    TableEntry(p2);
    assert Read(m, p4, RECURSIVE) == p4 * 4096 + 3;
    assert Read(m, p4, 0) == p3 * 4096 + 3 && Read(m, p3, 0) == p2 * 4096 + 3;
    forall f, i | f in own && 0 <= i < ENTRIES
      ensures EntryOk(m, own, f, i)
    {
      HugeEntry(i);
    }
  }

  /** What memory must hold when the boot code starts, for the frames up to the pool's top: its
      three tables are zero, being part of .bss, and the frames after the first one to be handed
      out hold no present entry. */
  ghost predicate BootMemory(m0: Memory, p4: nat, p3: nat, p2: nat, pool: Pool, next: nat) {
    && ZeroFrame(m0, p4) && ZeroFrame(m0, p3) && ZeroFrame(m0, p2)
    && forall f :: pool.NextFree(next) < f <= pool.top && !pool.Reserved(f) ==> Clear(m0, f)
  }

  /** With its tables in reserved frames the machine is ready for remap_kernel. */
  method StartPaging(m0: Memory, p4: nat, p3: nat, p2: nat, alloc: Allocator, ghost pool: Pool)
      returns (machine: Machine)
    requires TablesApart(p4, p3, p2) && BootMemory(m0, p4, p3, p2, pool, alloc.nextFreeFrame)
    requires alloc.Valid() && pool == alloc.pool.(top := pool.top) && pool.top <= alloc.pool.top && pool.top < FRAMES
    requires pool.Reserved(p4) && pool.Reserved(p3) && pool.Reserved(p2)
    ensures fresh(machine) && machine.Starting() && machine.alloc == alloc && machine.pool == pool
    ensures machine.Active() == machine.edit == p4 && machine.cr3 == p4 * PAGE_SIZE + 3
    ensures BootTables(m0, machine.mem, p4, p3, p2)
  {
    hide Forest, Windowed, BootTables, Or, Pool.NextFree;
    var m, cr3 := SetUpPageTables(m0, p4, p3, p2);
    TableEntry(p4);
    BootForest(m0, m, p4, p3, p2);
    BootUntouched(m0, m, p4, p3, p2, pool, alloc.nextFreeFrame);
    machine := new Machine(m, cr3, alloc, pool, BootLabels(p4, p3, p2));
  }

  lemma BootUntouched(m0: Memory, m: Memory, p4: nat, p3: nat, p2: nat, pool: Pool, next: nat)
    requires BootTables(m0, m, p4, p3, p2) && BootMemory(m0, p4, p3, p2, pool, next)
    requires pool.Reserved(p4) && pool.Reserved(p3) && pool.Reserved(p2)
    ensures Untouched(pool, Space(m, BootLabels(p4, p3, p2), pool.NextFree(next) + 1))
  {
    forall f | pool.NextFree(next) < f <= pool.top && !pool.Reserved(f)
      ensures Clear(m, f)
    {
      forall i | 0 <= i < ENTRIES
        ensures !Present(Read(m, f, i))
      {
        assert Read(m, f, i) == Read(m0, f, i) && !Present(Read(m0, f, i));
      }
    }
  }

  /** translate, as soon as paging is on: below 1 GiB every address is its own translation. */
  method TranslateAtBoot(ghost m0: Memory, m: Machine, ghost p3: nat, ghost p2: nat, va: nat) returns (pa: nat)
    requires m.Starting() && m.Active() == m.edit && va < 0x4000_0000
    requires TablesApart(m.Active(), p3, p2) && BootTables(m0, m.mem, m.Active(), p3, p2)
    modifies m`tlb
    ensures m.Starting() && pa == va
  {
    hide BootTables, Walk, Coherent, Forest, Windowed;
    BootIdentity(m0, m.mem, m.Active(), p3, p2, va / PAGE_SIZE);
    m.StartingIsReadable();
    pa := m.Translate(va);
  }
}
