/** The loops of remap_kernel that identity-map the kernel's sections, the screen buffer and the
    multiboot structure into the hierarchy being edited, one page at a time. */
module IdentityMaps {
  import opened Bits
  import opened FrameAllocator
  import opened Mmu
  import opened PageTables
  import opened PageRuns
  import opened Tlb
  import opened Hierarchies
  import opened KernelImage
  import opened Paging

  /** The machine has performed some of these identity mappings, in order, in a hierarchy that
      was empty and is not the active one. */
  ghost predicate Remapping(m: Machine, s0: Space, ops: seq<Op>, all: seq<Op>)
    reads m, m.alloc
  {
    && m.Valid() && m.edit != m.Active()
    && CanStart(m.pool, s0, m.edit, all) && ops <= all
    && m.TheSpace() == Run(m.pool, s0, m.edit, ops)
  }

  /** An empty hierarchy, and frames for all the tables these identity mappings come by. */
  ghost predicate CanStart(pool: Pool, s0: Space, root: nat, all: seq<Op>) {
    && SpaceOk(pool, s0) && IsRoot(s0.own, root) && IsEmptyRoot(s0.mem, root)
    && AllIdentity(all) && pool.Enough(s0.next, |Touched(all)|)
  }

  lemma {:induction false} IdentityIsLegal(s: Space, root: nat, ops: seq<Op>)
    requires IsEmptyRoot(s.mem, root) && AllIdentity(ops)
    ensures Legal(s, root, ops)
  {
    if ops != [] {
      var op := ops[|ops| - 1];
      IdentityIsLegal(s, root, ops[..|ops| - 1]);
      IdentityIsOk(op);
      EmptyRootMapsNothing(s.mem, root, op.page);
    }
  }

  /** An empty hierarchy lacks every table but its root. */
  lemma EmptyRootLacksAll(m: Memory, root: nat, ops: seq<Op>)
    requires IsEmptyRoot(m, root) && AllIdentity(ops)
    ensures Absent(m, root, Touched(ops)) == Touched(ops)
  {
    forall p | p in Touched(ops)
      ensures Locate(m, root, p).None?
    {
      TouchedInTree(ops, p);
      assert !Present(Read(m, root, p.i4));
    }
  }

  lemma IdentityCanRun(pool: Pool, s0: Space, root: nat, all: seq<Op>)
    requires CanStart(pool, s0, root, all)
    ensures CanRun(pool, s0, root, all)
  {
    hide SpaceOk, Legal, IsEmptyRoot, Touched, Absent;
    IdentityIsLegal(s0, root, all);
    EmptyRootLacksAll(s0.mem, root, all);
  }

  /** The next identity mapping can be performed, and extends the run. */
  lemma NextIdentity(pool: Pool, s0: Space, root: nat, ops: seq<Op>, op: Op, all: seq<Op>)
    requires CanStart(pool, s0, root, all) && ops + [op] <= all
    ensures var s := Run(pool, s0, root, ops);
      && CanApply(pool, s, root, op) && CanPay(pool, s, root, op)
      && Run(pool, s0, root, ops + [op]) == Apply(pool, s, root, op)
  {
    hide CanRun, CanStart, CanApply, CanPay, Apply;
    var next := ops + [op];
    IdentityCanRun(pool, s0, root, all);
    CanRunPrefix(pool, s0, root, all, |next|);
    assert all[..|next|] == next && next[..|ops|] == ops;
    RunCanApply(pool, s0, root, next);
  }

  method IdentityMapNext(m: Machine, frame: nat, flags: nat, ghost s0: Space, ghost ops: seq<Op>, ghost all: seq<Op>)
    requires Remapping(m, s0, ops, all) && ops + [MapOp(frame, frame, flags)] <= all
    modifies m, m.alloc
    ensures Remapping(m, s0, ops + [MapOp(frame, frame, flags)], all)
    ensures m.cr3 == old(m.cr3) && m.edit == old(m.edit)
  {
    hide Ok, CanApply, Run, MapAt, Pool.Enough, SpaceOk, IsEmptyRoot, Touched, Missing;
    NextIdentity(m.pool, s0, m.edit, ops, MapOp(frame, frame, flags), all);
    NextIsLower(ops, MapOp(frame, frame, flags), all);
    m.IdentityMapPage(frame, flags);
  }

  lemma NextIsLower(ops: seq<Op>, op: Op, all: seq<Op>)
    requires AllIdentity(all) && ops + [op] <= all
    ensures IsIdentity(op) && op.page * PAGE_SIZE < WORD
  {
    assert all[|ops|] == op;
  }

  /** One section: `while(addr < end_addr)`, with an inclusive end address. */
  method MapSection(m: Machine, section: Section, ghost s0: Space, ghost ops: seq<Op>, ghost all: seq<Op>)
    requires Remapping(m, s0, ops, all) && SectionOk(section) && ops + SectionOps(section) <= all
    modifies m, m.alloc
    ensures Remapping(m, s0, ops + SectionOps(section), all)
    ensures m.cr3 == old(m.cr3) && m.edit == old(m.edit)
  {
    hide Remapping, SectionFlags;
    ghost var mine := SectionOps(section);
    if And(section.flags, SHF_ALLOC) == 0 {
      assert ops + mine == ops;
      return;
    }
    var addr := section.addr;
    var endAddr := section.addr + section.size - 1;
    var flags := SectionFlags(section);
    ghost var k := 0;
    assert ops + mine[..0] == ops;
    while addr < endAddr
      invariant 0 <= k <= SectionTurns(section) && addr == section.addr + k * PAGE_SIZE
      invariant Remapping(m, s0, ops + mine[..k], all)
      invariant m.cr3 == old(m.cr3) && m.edit == old(m.edit)
    {
      var frame := addr / PAGE_SIZE;
      assert k < SectionTurns(section) && mine[k] == MapOp(frame, frame, flags);
      addr := addr + PAGE_SIZE;
      PrefixGrows(ops, mine, k, all);
      IdentityMapNext(m, frame, flags, s0, ops + mine[..k], all);
      k := k + 1;
    }
    assert k == SectionTurns(section);
    assert mine[..k] == mine;
  }

  lemma PrefixGrows(ops: seq<Op>, mine: seq<Op>, k: nat, all: seq<Op>)
    requires ops + mine <= all && k < |mine|
    ensures ops + mine[..k] + [mine[k]] == ops + mine[..k + 1] <= all
  {
    assert forall i :: 0 <= i < |ops + mine[..k + 1]| ==> (ops + mine[..k + 1])[i] == (ops + mine)[i];
  }

  lemma {:induction false} SectionsOpsGrow(sections: seq<Section>, i: nat)
    requires i <= |sections|
    ensures SectionsOps(sections[..i]) <= SectionsOps(sections)
  {
    if i < |sections| {
      var n := |sections| - 1;
      SectionsOpsGrow(sections[..n], i);
      assert sections[..n][..i] == sections[..i];
    } else {
      assert sections[..i] == sections;
    }
  }

  method MapSections(m: Machine, sections: seq<Section>, ghost s0: Space, ghost all: seq<Op>)
    requires Remapping(m, s0, [], all) && (forall s :: s in sections ==> SectionOk(s)) && SectionsOps(sections) <= all
    modifies m, m.alloc
    ensures Remapping(m, s0, SectionsOps(sections), all)
    ensures m.cr3 == old(m.cr3) && m.edit == old(m.edit)
  {
    hide Remapping, SectionOps;
    for i := 0 to |sections|
      invariant Remapping(m, s0, SectionsOps(sections[..i]), all)
      invariant m.cr3 == old(m.cr3) && m.edit == old(m.edit)
    {
      ghost var next := sections[..i + 1];
      assert next[..i] == sections[..i] && next[i] == sections[i];
      SectionsOpsGrow(sections, i + 1);
      MapSection(m, sections[i], s0, SectionsOps(sections[..i]), all);
    }
    assert sections[..|sections|] == sections;
  }

  /** The multiboot loop: the end is start + 8 * total_size, and is included. */
  method MapMultiboot(m: Machine, start: nat, totalSize: nat, ghost s0: Space, ghost ops: seq<Op>, ghost all: seq<Op>)
    requires Remapping(m, s0, ops, all) && ops + MultibootOps(start, totalSize) <= all
    modifies m, m.alloc
    ensures Remapping(m, s0, ops + MultibootOps(start, totalSize), all)
    ensures m.cr3 == old(m.cr3) && m.edit == old(m.edit)
  {
    hide Remapping;
    ghost var mine := MultibootOps(start, totalSize);
    var flags := Or(PRESENT, NO_EXEC);
    var addr := start;
    ghost var k := 0;
    assert ops + mine[..0] == ops;
    while addr <= start + 8 * totalSize
      invariant 0 <= k <= MultibootTurns(totalSize) && addr == start + k * PAGE_SIZE
      invariant Remapping(m, s0, ops + mine[..k], all)
      invariant m.cr3 == old(m.cr3) && m.edit == old(m.edit)
      decreases start + 8 * totalSize + PAGE_SIZE - addr
    {
      var frame := addr / PAGE_SIZE;
      assert k < MultibootTurns(totalSize) && mine[k] == MapOp(frame, frame, flags);
      PrefixGrows(ops, mine, k, all);
      IdentityMapNext(m, frame, flags, s0, ops + mine[..k], all);
      addr := addr + PAGE_SIZE;
      k := k + 1;
    }
    assert k == MultibootTurns(totalSize);
    assert mine[..k] == mine;
  }

  /** Everything that is mapped into the new hierarchy, in the order of the source. */
  method MapImage(m: Machine, sections: seq<Section>, start: nat, totalSize: nat, ghost s0: Space)
    requires Remapping(m, s0, [], RemapOps(sections, start, totalSize)) && ImageOk(sections, start, totalSize)
    modifies m, m.alloc
    ensures Remapping(m, s0, RemapOps(sections, start, totalSize), RemapOps(sections, start, totalSize))
    ensures m.cr3 == old(m.cr3) && m.edit == old(m.edit)
  {
    hide Remapping, VgaFlags, SectionsOps, MultibootOps;
    ghost var all := RemapOps(sections, start, totalSize);
    MapSections(m, sections, s0, all);
    IdentityMapNext(m, VGA_FRAME, VgaFlags(), s0, SectionsOps(sections), all);
    MapMultiboot(m, start, totalSize, s0, SectionsOps(sections) + [MapOp(VGA_FRAME, VGA_FRAME, VgaFlags())], all);
  }
}
