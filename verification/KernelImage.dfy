/** The pages remap_kernel identity-maps: what its section and multiboot loops visit, and when
    that covers the sections and the multiboot structure. */
module KernelImage {
  import opened Bits
  import opened FrameAllocator
  import opened Mmu
  import opened PageTables
  import opened PageRuns

  const SHF_WRITE: nat := 0x1
  const SHF_ALLOC: nat := 0x2
  const SHF_EXECINSTR: nat := 0x4
  const VGA_FRAME: nat := 0xb8
  /** The pages below the non-canonical hole. */
  const LOWER_HALF: nat := 0x8_0000_0000

  predicate Allocated(s: Section) { And(s.flags, SHF_ALLOC) != 0 }

  function SectionFlags(s: Section): nat {
    var flags := if And(s.flags, SHF_EXECINSTR) == 0 then Or(PRESENT, NO_EXEC) else PRESENT;
    if And(s.flags, SHF_WRITE) != 0 then Or(flags, WRITEABLE) else flags
  }

  /** The number of turns of `while(addr < end_addr)` with an inclusive end address. */
  function SectionTurns(s: Section): nat {
    (s.size + 4094) / PAGE_SIZE
  }

  /** The number of turns of the multiboot loop: adding total_size to a pointer to an 8-byte
      structure advances it by eight times as many bytes. */
  function MultibootTurns(totalSize: nat): nat {
    8 * totalSize / PAGE_SIZE + 1
  }

  function IdentityRange(first: nat, count: nat, flags: nat): (ops: seq<Op>)
    ensures |ops| == count && forall k :: 0 <= k < count ==> ops[k] == MapOp(first + k, first + k, flags)
  {
    seq(count, k requires 0 <= k < count => MapOp(first + k, first + k, flags))
  }

  function SectionOps(s: Section): seq<Op> {
    if Allocated(s) then IdentityRange(s.addr / PAGE_SIZE, SectionTurns(s), SectionFlags(s)) else []
  }

  function SectionsOps(sections: seq<Section>): seq<Op> {
    if sections == [] then []
    else SectionsOps(sections[..|sections| - 1]) + SectionOps(sections[|sections| - 1])
  }

  function VgaFlags(): nat { Or(Or(WRITEABLE, PRESENT), NO_EXEC) }

  function MultibootOps(start: nat, totalSize: nat): seq<Op> {
    IdentityRange(start / PAGE_SIZE, MultibootTurns(totalSize), Or(PRESENT, NO_EXEC))
  }

  /** Everything remap_kernel maps into the new hierarchy, in order. */
  function RemapOps(sections: seq<Section>, start: nat, totalSize: nat): seq<Op> {
    SectionsOps(sections) + [MapOp(VGA_FRAME, VGA_FRAME, VgaFlags())] + MultibootOps(start, totalSize)
  }

  // ----------------------------------------------------------- which pages

  predicate SectionHasPage(s: Section, page: nat) {
    Allocated(s) && s.addr / PAGE_SIZE <= page < s.addr / PAGE_SIZE + SectionTurns(s)
  }

  predicate MultibootHasPage(start: nat, totalSize: nat, page: nat) {
    start / PAGE_SIZE <= page < start / PAGE_SIZE + MultibootTurns(totalSize)
  }

  ghost predicate ImageHasPage(sections: seq<Section>, start: nat, totalSize: nat, page: nat) {
    || (exists i :: 0 <= i < |sections| && SectionHasPage(sections[i], page))
    || page == VGA_FRAME
    || MultibootHasPage(start, totalSize, page)
  }

  /** The bits of a section's flags, as the ELF format assigns them. */
  predicate Writes(s: Section) { s.flags % 2 == 1 }

  predicate Loads(s: Section) { s.flags / 2 % 2 == 1 }

  predicate Executes(s: Section) { s.flags / 4 % 2 == 1 }

  lemma FlagTests(s: Section)
    ensures And(s.flags, SHF_WRITE) != 0 <==> Writes(s)
    ensures Allocated(s) <==> Loads(s)
    ensures And(s.flags, SHF_EXECINSTR) != 0 <==> Executes(s)
  {
    var f := s.flags;
    AndOdd(f, 0);
    AndEven(f, 1);
    AndOdd(f / 2, 0);
    AndEven(f, 2);
    AndEven(f / 2, 1);
    AndOdd(f / 2 / 2, 0);
    assert f / 2 / 2 == f / 4;
  }

  /** The pages that hold a byte of a loaded section, its last byte aside. */
  predicate SectionVisits(s: Section, page: nat) {
    Loads(s) && s.addr < (page + 1) * 4096 && page * 4096 < s.addr + s.size - 1
  }

  /** The pages at whole-page distances from the structure's own, up to eight times its size. */
  predicate MultibootVisits(start: nat, totalSize: nat, page: nat) {
    start / 4096 <= page && (page - start / 4096) * 4096 <= 8 * totalSize
  }

  lemma SectionPagesAre(s: Section, page: nat)
    requires SectionOk(s)
    ensures SectionHasPage(s, page) <==> SectionVisits(s, page)
  {
    FlagTests(s);
    if Allocated(s) {
      var first := s.addr / 4096;
      assert s.addr == first * 4096;
      assert page < first + SectionTurns(s) <==> (page - first) * 4096 < s.size - 1;
    }
  }

  lemma MultibootPagesAre(start: nat, totalSize: nat, page: nat)
    ensures MultibootHasPage(start, totalSize, page) <==> MultibootVisits(start, totalSize, page)
  {
  }

  /** The section loop reaches every byte of an allocated section exactly when the size is not
      one more than a multiple of the page size: `<` against an inclusive end drops the last
      page in that case. */
  lemma SectionCoverage(s: Section)
    requires Allocated(s) && s.addr % PAGE_SIZE == 0 && s.size >= 1
    ensures (forall x :: s.addr <= x < s.addr + s.size ==> SectionHasPage(s, x / PAGE_SIZE))
       <==> s.size % PAGE_SIZE != 1
  {
    var last := s.addr + s.size - 1;
    if s.size % PAGE_SIZE == 1 {
      assert !SectionHasPage(s, last / PAGE_SIZE);
    } else {
      forall x | s.addr <= x < s.addr + s.size
        ensures SectionHasPage(s, x / PAGE_SIZE)
      {
        assert (x - s.addr) / PAGE_SIZE < SectionTurns(s);
        assert x / PAGE_SIZE == s.addr / PAGE_SIZE + (x - s.addr) / PAGE_SIZE;
      }
    }
  }

  /** A one-byte section is the smallest that the loop misses. */
  lemma OneByteSectionIsMissed()
    ensures var s := Section(SHF_ALLOC, 0x10_0000, 1); Allocated(s) && !SectionHasPage(s, s.addr / PAGE_SIZE)
  {
    assert And(2, 2) == 2;
  }

  /** The multiboot loop reaches every byte of the structure exactly when the structure has at
      least 512 bytes or does not straddle a page boundary. */
  lemma MultibootCoverage(start: nat, totalSize: nat)
    requires totalSize >= 1
    ensures (forall x :: start <= x < start + totalSize ==> MultibootHasPage(start, totalSize, x / PAGE_SIZE))
       <==> totalSize >= 512 || start % PAGE_SIZE + totalSize <= PAGE_SIZE
  {
    var last := start + totalSize - 1;
    var turns := MultibootTurns(totalSize);
    assert turns == totalSize / 512 + 1;
    assert last / PAGE_SIZE == start / PAGE_SIZE + (start % PAGE_SIZE + totalSize - 1) / PAGE_SIZE;
    if totalSize >= 512 || start % PAGE_SIZE + totalSize <= PAGE_SIZE {
      assert last / PAGE_SIZE < start / PAGE_SIZE + turns;
      forall x | start <= x < start + totalSize
        ensures MultibootHasPage(start, totalSize, x / PAGE_SIZE)
      {
        FramesFollowBytes(start, x);
        FramesFollowBytes(x, last);
      }
    } else {
      assert turns == 1;
      assert !MultibootHasPage(start, totalSize, last / PAGE_SIZE);
    }
  }

  /** Two bytes on either side of a page boundary are not both reached. */
  lemma ShortStructureIsMissed()
    ensures !MultibootHasPage(0x1_0fff, 2, 0x1_1000 / PAGE_SIZE)
  {
  }

  /** An operation list visits a page. */
  ghost predicate Visits(ops: seq<Op>, page: nat) {
    exists k :: 0 <= k < |ops| && ops[k].page == page
  }

  lemma VisitsConcat(a: seq<Op>, b: seq<Op>, page: nat)
    ensures Visits(a + b, page) <==> Visits(a, page) || Visits(b, page)
  {
    if Visits(a, page) {
      var k :| 0 <= k < |a| && a[k].page == page;
      assert (a + b)[k].page == page;
    }
    if Visits(b, page) {
      var k :| 0 <= k < |b| && b[k].page == page;
      assert (a + b)[|a| + k].page == page;
    }
  }

  lemma VisitsRange(first: nat, count: nat, flags: nat, page: nat)
    ensures Visits(IdentityRange(first, count, flags), page) <==> first <= page < first + count
  {
    if first <= page < first + count {
      assert IdentityRange(first, count, flags)[page - first].page == page;
    }
  }

  lemma {:induction false} VisitsSections(sections: seq<Section>, page: nat)
    ensures Visits(SectionsOps(sections), page)
       <==> exists i :: 0 <= i < |sections| && SectionHasPage(sections[i], page)
  {
    if sections != [] {
      var n := |sections| - 1;
      var before, s := sections[..n], sections[n];
      VisitsSections(before, page);
      VisitsConcat(SectionsOps(before), SectionOps(s), page);
      if Allocated(s) {
        VisitsRange(s.addr / PAGE_SIZE, SectionTurns(s), SectionFlags(s), page);
      }
      if i :| 0 <= i < n && SectionHasPage(before[i], page) {
        assert SectionHasPage(sections[i], page);
      }
      if i :| 0 <= i < |sections| && SectionHasPage(sections[i], page) {
        assert i == n || SectionHasPage(before[i], page);
      }
    }
  }

  /** The operations visit exactly the pages of the image. */
  lemma VisitsImage(sections: seq<Section>, start: nat, totalSize: nat, page: nat)
    ensures Visits(RemapOps(sections, start, totalSize), page) <==> ImageHasPage(sections, start, totalSize, page)
  {
    var vga := [MapOp(VGA_FRAME, VGA_FRAME, VgaFlags())];
    VisitsSections(sections, page);
    VisitsConcat(SectionsOps(sections), vga, page);
    VisitsConcat(SectionsOps(sections) + vga, MultibootOps(start, totalSize), page);
    VisitsRange(start / PAGE_SIZE, MultibootTurns(totalSize), Or(PRESENT, NO_EXEC), page);
    assert Visits(vga, page) <==> page == VGA_FRAME by {
      assert vga[0].page == VGA_FRAME;
    }
  }

  // ------------------------------------------------------- identity mappings

  /** Identity mappings of lower-half pages. */
  predicate IsIdentity(op: Op) {
    op.MapOp? && op.frame == op.page && op.page < LOWER_HALF && IsFlags(op.flags)
  }

  ghost predicate AllIdentity(ops: seq<Op>) {
    forall k :: 0 <= k < |ops| ==> IsIdentity(ops[k])
  }

  lemma IdentityIsOk(op: Op)
    requires IsIdentity(op)
    ensures OpOk(op)
  {
  }

  /** In the flat map of identity mappings the visited pages map to themselves, and no others. */
  lemma {:induction false} FlatOfIdentity(ops: seq<Op>, page: nat)
    requires AllIdentity(ops)
    ensures Flat(ops, page, None).Some? <==> Visits(ops, page)
    ensures Flat(ops, page, None).Some? ==> Flat(ops, page, None).value.frame == page
  {
    if ops != [] {
      var n := |ops| - 1;
      FlatOfIdentity(ops[..n], page);
      VisitsConcat(ops[..n], [ops[n]], page);
      assert ops[..n] + [ops[n]] == ops;
      assert Visits([ops[n]], page) <==> ops[n].page == page by {
        assert [ops[n]][0] == ops[n];
      }
    }
  }

  /** The tables of every visited page are among those the mappings come by. */
  lemma {:induction false} VisitedIsTouched(ops: seq<Op>, page: nat)
    requires AllIdentity(ops) && Visits(ops, page)
    ensures TablePaths(page) <= Touched(ops)
  {
    var n := |ops| - 1;
    var k :| 0 <= k < |ops| && ops[k].page == page;
    assert IsIdentity(ops[k]);
    if k < n {
      assert ops[..n][k].page == page;
      VisitedIsTouched(ops[..n], page);
    }
  }

  lemma {:induction false} TouchedInTree(ops: seq<Op>, path: Path)
    requires AllIdentity(ops) && path in Touched(ops)
    ensures InTree(path) && !path.P4?
  {
    var n := |ops| - 1;
    assert IsIdentity(ops[n]);
    if path in Touched(ops[..n]) {
      TouchedInTree(ops[..n], path);
    } else {
      PagePathsInTree(ops[n].page);
    }
  }

  /** Where the source's assertions hold: allocated sections start on a page and are not empty,
      and everything lies in the lower half of the address space. */
  predicate SectionOk(s: Section) {
    Allocated(s) ==> s.addr % PAGE_SIZE == 0 && s.size >= 1 && s.addr + s.size <= LOWER_HALF * PAGE_SIZE
  }

  predicate ImageOk(sections: seq<Section>, start: nat, totalSize: nat) {
    (forall s | s in sections :: SectionOk(s)) && start + 8 * totalSize + PAGE_SIZE <= LOWER_HALF * PAGE_SIZE
  }

  lemma NoExecFlags()
    ensures Or(PRESENT, NO_EXEC) == NO_EXEC + 1 && Or(NO_EXEC + 1, WRITEABLE) == NO_EXEC + 3
    ensures Or(PRESENT, WRITEABLE) == 3 && VgaFlags() == NO_EXEC + 3
  {
    OrOneSetsLowBit(NO_EXEC);
    OrOfHalves(NO_EXEC / 2);
  }

  lemma WordsAreFlags()
    ensures IsFlags(1) && IsFlags(3) && IsFlags(NO_EXEC + 1) && IsFlags(NO_EXEC + 3)
  {
    EmptyFieldIsFlags(1);
    EmptyFieldIsFlags(3);
    EmptyFieldIsFlags(NO_EXEC + 1);
    EmptyFieldIsFlags(NO_EXEC + 3);
  }

  lemma EmptyFieldIsFlags(x: nat)
    requires FrameOf(x) == 0
    ensures IsFlags(x)
  {
    MaskIsField(x);
  }

  lemma OrOfHalves(h: nat)
    requires h % 2 == 0 && h > 0
    ensures Or(2 * h + 1, 2) == 2 * h + 3 && Or(3, 2 * h) == 2 * h + 3
  {
    var x, y := 2 * h + 1, 2 * h;
    assert x / 2 == h && y / 2 == h;
    assert Or(x, 2) == 2 * Or(h, 1) + 1 && Or(h, 1) == 2 * Or(h / 2, 0) + 1;
    assert Or(3, y) == 2 * Or(1, h) + 1 && Or(1, h) == 2 * Or(0, h / 2) + 1;
  }

  lemma SectionFlagsOk(s: Section)
    ensures IsFlags(SectionFlags(s))
  {
    NoExecFlags();
    WordsAreFlags();
  }

  lemma SectionOpsAreIdentity(s: Section)
    requires SectionOk(s)
    ensures AllIdentity(SectionOps(s))
  {
    SectionFlagsOk(s);
    assert Allocated(s) ==> s.addr / PAGE_SIZE + SectionTurns(s) <= LOWER_HALF;
  }

  lemma {:induction false} SectionsOpsAreIdentity(sections: seq<Section>)
    requires forall s :: s in sections ==> SectionOk(s)
    ensures AllIdentity(SectionsOps(sections))
  {
    if sections != [] {
      SectionsOpsAreIdentity(sections[..|sections| - 1]);
      SectionOpsAreIdentity(sections[|sections| - 1]);
    }
  }

  lemma RemapOpsAreIdentity(sections: seq<Section>, start: nat, totalSize: nat)
    requires ImageOk(sections, start, totalSize)
    ensures AllIdentity(RemapOps(sections, start, totalSize))
  {
    NoExecFlags();
    WordsAreFlags();
    SectionsOpsAreIdentity(sections);
    assert start / PAGE_SIZE + MultibootTurns(totalSize) <= LOWER_HALF;
  }

  // ------------------------------------------------------------- permissions

  predicate Writeable(leaf: nat) { leaf / 2 % 2 == 1 }

  predicate Executable(leaf: nat) { leaf / 0x8000_0000_0000_0000 % 2 == 0 }

  /** The entry allows what the section's flags say. */
  predicate HasPermissions(leaf: nat, s: Section) {
    (Writeable(leaf) <==> Writes(s)) && (Executable(leaf) <==> Executes(s))
  }

  /** The section is the last one that has the page. */
  predicate IsLastSection(sections: seq<Section>, i: nat, page: nat) {
    i < |sections| && SectionVisits(sections[i], page) &&
    forall j | i < j < |sections| :: !SectionVisits(sections[j], page)
  }

  /** What is mapped over the page later allows the same: the multiboot loop neither writing nor
      executing, the screen, page 0xb8, writing. */
  predicate KeepsPermissions(s: Section, start: nat, totalSize: nat, page: nat) {
    if MultibootVisits(start, totalSize, page) then !Writes(s) && !Executes(s)
    else page == 0xb8 ==> Writes(s) && !Executes(s)
  }

  lemma {:induction false} FlatConcat(a: seq<Op>, b: seq<Op>, page: nat, before: Option<Mapping>)
    ensures Flat(a + b, page, before) == Flat(b, page, Flat(a, page, before))
  {
    if b == [] {
      assert a + b == a;
    } else {
      var n := |b| - 1;
      FlatConcat(a, b[..n], page, before);
      assert (a + b)[..|a + b| - 1] == a + b[..n];
    }
  }

  lemma {:induction false} FlatRange(first: nat, count: nat, flags: nat, page: nat, before: Option<Mapping>)
    ensures Flat(IdentityRange(first, count, flags), page, before)
         == if first <= page < first + count then Outcome(MapOp(page, page, flags)) else before
  {
    hide Outcome;
    if count > 0 {
      FlatRange(first, count - 1, flags, page, before);
      var ops := IdentityRange(first, count, flags);
      assert ops[..count - 1] == IdentityRange(first, count - 1, flags);
    }
  }

  lemma FlatSection(s: Section, page: nat, before: Option<Mapping>)
    ensures Flat(SectionOps(s), page, before)
         == if SectionHasPage(s, page) then Outcome(MapOp(page, page, SectionFlags(s))) else before
  {
    if Allocated(s) {
      FlatRange(s.addr / PAGE_SIZE, SectionTurns(s), SectionFlags(s), page, before);
    }
  }

  /** The last section that has the page decides its flags. */
  lemma {:induction false} FlatSections(sections: seq<Section>, i: nat, page: nat)
    requires IsLastSection(sections, i, page) && forall s :: s in sections ==> SectionOk(s)
    ensures Flat(SectionsOps(sections), page, None) == Outcome(MapOp(page, page, SectionFlags(sections[i])))
  {
    hide Outcome, SectionFlags, SectionOps, SectionHasPage, SectionVisits;
    var n := |sections| - 1;
    var before := sections[..n];
    FlatConcat(SectionsOps(before), SectionOps(sections[n]), page, None);
    FlatSection(sections[n], page, Flat(SectionsOps(before), page, None));
    SectionPagesAre(sections[n], page);
    if i < n {
      assert forall j :: i < j < n ==> before[j] == sections[j];
      FlatSections(before, i, page);
    }
  }

  lemma {:induction false} FlatOfNoSection(sections: seq<Section>, page: nat)
    requires forall s :: s in sections ==> SectionOk(s) && !SectionVisits(s, page)
    ensures Flat(SectionsOps(sections), page, None) == None
  {
    hide SectionFlags, SectionOps, SectionHasPage, SectionVisits;
    if sections != [] {
      var n := |sections| - 1;
      FlatOfNoSection(sections[..n], page);
      FlatConcat(SectionsOps(sections[..n]), SectionOps(sections[n]), page, None);
      FlatSection(sections[n], page, None);
      SectionPagesAre(sections[n], page);
    }
  }

  /** The multiboot loop comes last, the screen before it, the sections first. */
  lemma FlatRemap(sections: seq<Section>, start: nat, totalSize: nat, page: nat)
    ensures Flat(RemapOps(sections, start, totalSize), page, None)
         == if MultibootHasPage(start, totalSize, page) then Outcome(MapOp(page, page, Or(PRESENT, NO_EXEC)))
            else if page == VGA_FRAME then Outcome(MapOp(page, page, VgaFlags()))
            else Flat(SectionsOps(sections), page, None)
  {
    hide Outcome, SectionsOps, VgaFlags;
    var a, vga := SectionsOps(sections), [MapOp(VGA_FRAME, VGA_FRAME, VgaFlags())];
    FlatConcat(a + vga, MultibootOps(start, totalSize), page, None);
    FlatConcat(a, vga, page, None);
    FlatRange(start / PAGE_SIZE, MultibootTurns(totalSize), Or(PRESENT, NO_EXEC), page, Flat(a + vga, page, None));
  }

  /** The entry an identity mapping stores. */
  lemma IdentityEntry(page: nat, low: nat, high: nat)
    requires page < LOWER_HALF && (low == 1 || low == 3) && (high == 0 || high == 0x8000_0000_0000_0000)
    ensures Outcome(MapOp(page, page, high + low)) == Some(Mapping(page, page * 4096 + (high + low)))
  {
    hide And, Or, Encode, IsFlags;
    WordsAreFlags();
    OddWord(low, high);
    WordIs(MapOp(page, page, high + low));
  }

  lemma OddWord(low: nat, high: nat)
    requires (low == 1 || low == 3) && (high == 0 || high == 0x8000_0000_0000_0000)
    ensures (high + low) % 2 == 1
  {
  }

  /** Its permission bits. */
  lemma BitsOfLeaf(page: nat, low: nat, high: nat)
    requires page < LOWER_HALF && (low == 1 || low == 3) && (high == 0 || high == 0x8000_0000_0000_0000)
    ensures var leaf := page * 4096 + (high + low);
      (Writeable(leaf) <==> low == 3) && (Executable(leaf) <==> high == 0)
  {
    hide Writeable, Executable;
    var rest := page * 4096 + low;
    if high == 0 {
      LowLeaf(page * 1024, low);
    } else {
      LowLeaf(page * 1024 + 0x2000_0000_0000_0000, low);
    }
    TopBit(rest, high);
  }

  lemma LowLeaf(h: nat, low: nat)
    requires low == 1 || low == 3
    ensures Writeable(4 * h + low) <==> low == 3
  {
    assert (4 * h + low) / 2 == 2 * h + low / 2;
  }

  lemma TopBit(rest: nat, high: nat)
    requires rest < 0x8000_0000_0000_0000 && (high == 0 || high == 0x8000_0000_0000_0000)
    ensures Executable(rest + high) <==> high == 0
  {
    assert rest / 0x8000_0000_0000_0000 == 0 && (rest + 0x8000_0000_0000_0000) / 0x8000_0000_0000_0000 == 1;
  }

  function High(s: Section): nat {
    if Executes(s) then 0 else 0x8000_0000_0000_0000
  }

  function Low(s: Section): nat {
    if Writes(s) then 3 else 1
  }

  lemma SectionBits(s: Section)
    ensures SectionFlags(s) == High(s) + Low(s)
  {
    FlagTests(s);
    NoExecFlags();
  }

  /** The entry of every page the loops leave behind: from the multiboot loop if it visits the page,
      else from the screen's mapping, else from the last section that has the page; none if no one
      visits it. */
  lemma FinalEntry(sections: seq<Section>, start: nat, totalSize: nat, page: nat)
    requires ImageOk(sections, start, totalSize) && page < LOWER_HALF
    ensures var t := Flat(RemapOps(sections, start, totalSize), page, None);
      if MultibootVisits(start, totalSize, page) then t == Some(Mapping(page, page * 4096 + 0x8000_0000_0000_0001))
      else if page == 0xb8 then t == Some(Mapping(page, page * 4096 + 0x8000_0000_0000_0003))
      else
        && (forall i :: 0 <= i < |sections| && IsLastSection(sections, i, page) ==>
              t == Some(Mapping(page, page * 4096 + (High(sections[i]) + Low(sections[i])))))
        && ((forall s :: s in sections ==> !SectionVisits(s, page)) ==> t == None)
  {
    hide Outcome, RemapOps, SectionsOps, SectionFlags, MultibootHasPage, MultibootVisits, SectionVisits, High, Low,
         Or, And;
    FlatRemap(sections, start, totalSize, page);
    MultibootPagesAre(start, totalSize, page);
    NoExecFlags();
    IdentityEntry(page, 1, 0x8000_0000_0000_0000);
    IdentityEntry(page, 3, 0x8000_0000_0000_0000);
    forall i | 0 <= i < |sections| && IsLastSection(sections, i, page)
      ensures Flat(SectionsOps(sections), page, None)
           == Some(Mapping(page, page * 4096 + (High(sections[i]) + Low(sections[i]))))
    {
      FlatSections(sections, i, page);
      SectionBits(sections[i]);
      HighAndLow(sections[i]);
      IdentityEntry(page, Low(sections[i]), High(sections[i]));
    }
    if forall s :: s in sections ==> !SectionVisits(s, page) {
      FlatOfNoSection(sections, page);
    }
  }

  lemma HighAndLow(s: Section)
    ensures (Low(s) == 1 || Low(s) == 3) && (High(s) == 0 || High(s) == 0x8000_0000_0000_0000)
    ensures (Low(s) == 3 <==> Writes(s)) && (High(s) == 0 <==> Executes(s))
  {
  }

  /** A page of a section keeps the section's permissions exactly when what is mapped over it later
      allows the same. */
  lemma PermissionsKept(sections: seq<Section>, start: nat, totalSize: nat, i: nat, page: nat)
    requires ImageOk(sections, start, totalSize) && IsLastSection(sections, i, page) && page < LOWER_HALF
    ensures var t := Flat(RemapOps(sections, start, totalSize), page, None);
      t.Some? && (HasPermissions(t.value.leaf, sections[i]) <==> KeepsPermissions(sections[i], start, totalSize, page))
  {
    hide Writeable, Executable, RemapOps, Flat, MultibootVisits, SectionVisits, High, Low, Writes, Executes, ImageOk;
    FinalEntry(sections, start, totalSize, page);
    HighAndLow(sections[i]);
    BitsOfLeaf(page, Low(sections[i]), High(sections[i]));
    BitsOfLeaf(page, 1, 0x8000_0000_0000_0000);
    BitsOfLeaf(page, 3, 0x8000_0000_0000_0000);
  }

  /** The over-long loop at work: a structure of 600 bytes in the page before the code takes the
      code's first page with it, which can no longer be executed. */
  lemma CodeLosesExecution()
    ensures var code := Section(6, 0x10_0000, 0x2000);
      && IsLastSection([code], 0, 0x100) && Executes(code) && 0xf_f000 + 600 <= code.addr
      && !KeepsPermissions(code, 0xf_f000, 600, 0x100)
  {
  }
}
