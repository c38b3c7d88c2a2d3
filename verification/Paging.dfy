/** The kernel's paging code as it runs: every access to a table goes through a virtual address,
    the recursive window and a translation cache. */
module Paging {
  import opened Bits
  import opened FrameAllocator
  import opened Mmu
  import opened PageTables
  import opened Tlb
  import opened TlbRuns

  const NULL: nat := 0

  /** A word at an index of a page-aligned table address. */
  lemma SlotOfAddress(table: nat, index: nat)
    requires table % PAGE_SIZE == 0 && index < ENTRIES
    ensures (table + 8 * index) / PAGE_SIZE == table / PAGE_SIZE
    ensures (table + 8 * index) % PAGE_SIZE / 8 == index
  {
  }

  class Machine {
    var mem: Memory
    /** The control register: the physical address of the active level-4 table, and flag bits. */
    var cr3: nat
    var tlb: Cache
    const alloc: Allocator
    /** The frames to come, as far as they are known to hold no present entry. */
    ghost const pool: Pool
    /** The frames in use as page tables. */
    ghost var own: map<nat, Label>
    /** The hierarchy the recursive slot leads to. */
    ghost var edit: nat

    function Active(): nat
      reads this`cr3
    {
      FrameOf(cr3)
    }

    ghost function TheSpace(): Space
      reads this`mem, this`own, alloc`nextFreeFrame
    {
      Space(mem, own, alloc.nextFreeFrame)
    }

    ghost function TheState(): State
      reads this`mem, this`own, this`cr3, this`tlb, this`edit, alloc`nextFreeFrame
    {
      State(TheSpace(), tlb, Active(), edit)
    }

    /** The frames the machine relies on are the allocator's, up to one of its own choosing. */
    ghost predicate PoolFits() {
      pool == alloc.pool.(top := pool.top) && pool.top <= alloc.pool.top
    }

    ghost predicate Valid()
      reads this, alloc
    {
      alloc.Valid() && PoolFits() && Ok(pool, TheSpace(), Active(), edit, tlb)
    }

    /** Valid but for what the next frame to be handed out holds. */
    ghost predicate Starting()
      reads this, alloc
    {
      && alloc.Valid() && PoolFits() && pool.NextFree(alloc.nextFreeFrame) !in own
      && Ok(pool, Space(mem, own, pool.NextFree(alloc.nextFreeFrame) + 1), Active(), edit, tlb)
    }

    /** What reading the tables through the window takes: nothing is asked of the frames to come. */
    ghost predicate Readable()
      reads this
    {
      && Forest(mem, own) && IsRoot(own, edit)
      && Windowed(mem, Active(), edit) && Coherent(mem, Active(), tlb, {})
    }

    lemma StartingIsReadable()
      requires Starting()
      ensures Readable()
    {
    }

    constructor (mem: Memory, cr3: nat, alloc: Allocator, ghost pool: Pool, ghost own: map<nat, Label>)
      requires alloc.Valid() && pool == alloc.pool.(top := pool.top) && pool.top <= alloc.pool.top
      requires pool.NextFree(alloc.nextFreeFrame) !in own
      requires Ok(pool, Space(mem, own, pool.NextFree(alloc.nextFreeFrame) + 1), FrameOf(cr3), FrameOf(cr3), map[])
      ensures Starting() && edit == Active()
      ensures this.mem == mem && this.cr3 == cr3 && this.alloc == alloc && this.pool == pool && this.own == own
    {
      this.mem, this.cr3, this.tlb := mem, cr3, map[];
      this.alloc, this.pool := alloc, pool;
      this.own, this.edit := own, FrameOf(cr3);
    }

    lemma ValidIsStarting()
      requires Valid()
      ensures Starting()
    {
      NewFrameIsNoTable(pool, TheSpace());
    }

    /** The processor may fill and drop cached translations between any two instructions. */
    method Speculate(ghost stale: set<nat>)
      requires Coherent(mem, Active(), tlb, stale)
      modifies this`tlb
      ensures Coherent(mem, Active(), tlb, stale)
    {
      var t: Cache := *;
      if MayBecome(mem, Active(), tlb, t) {
        MayBecomeKeepsCoherent(mem, Active(), tlb, t, stale);
        tlb := t;
      }
    }

    /** The frame an access goes to: from the cache if the page is there, else from a walk. */
    method TranslateAccess(va: nat, ghost stale: set<nat>) returns (frame: nat)
      requires Coherent(mem, Active(), tlb, stale)
      requires va / PAGE_SIZE !in stale && Walk(mem, Active(), va / PAGE_SIZE).Some?
      modifies this`tlb
      ensures Coherent(mem, Active(), tlb, stale)
      ensures frame == Walk(mem, Active(), va / PAGE_SIZE).value.frame
    {
      Speculate(stale);
      var page := va / PAGE_SIZE;
      if page in tlb {
        frame := tlb[page].frame;
      } else {
        frame := Walk(mem, Active(), page).value.frame;
      }
    }

    method Load(va: nat, ghost stale: set<nat>) returns (w: nat)
      requires Coherent(mem, Active(), tlb, stale)
      requires va / PAGE_SIZE !in stale && Walk(mem, Active(), va / PAGE_SIZE).Some?
      modifies this`tlb
      ensures Coherent(mem, Active(), tlb, stale)
      ensures w == Read(mem, Walk(mem, Active(), va / PAGE_SIZE).value.frame, va % PAGE_SIZE / 8)
    {
      var frame := TranslateAccess(va, stale);
      w := Read(mem, frame, va % PAGE_SIZE / 8);
    }

    /** The store reaches memory; whether the cache still agrees is for the caller to show. */
    method Store(va: nat, w: nat)
      requires Coherent(mem, Active(), tlb, {}) && Walk(mem, Active(), va / PAGE_SIZE).Some?
      modifies this`tlb, this`mem
      ensures Coherent(old(mem), Active(), tlb, {})
      ensures mem == Write(old(mem), Walk(old(mem), Active(), va / PAGE_SIZE).value.frame, va % PAGE_SIZE / 8, w)
    {
      var frame := TranslateAccess(va, {});
      mem := Write(mem, frame, va % PAGE_SIZE / 8, w);
    }

    /** Loading the control register empties the cache. */
    method WriteCr3(value: nat)
      modifies this`cr3, this`tlb
      ensures cr3 == value && tlb == map[]
    {
      cr3 := value;
      tlb := map[];
    }

    method FlushTlb()
      modifies this`cr3, this`tlb
      ensures cr3 == old(cr3) && tlb == map[]
    {
      WriteCr3(cr3);
    }

    // ------------------------------------------------ tables behind the window

    method SetPageTableEntry(table: nat, index: nat, frame: nat, flags: nat, ghost path: Path)
      requires index < ENTRIES && IsPath(path) && table == TableAddress(path)
      requires Windowed(mem, Active(), edit) && Locate(mem, edit, path).Some?
      requires Coherent(mem, Active(), tlb, {})
      modifies this`tlb, this`mem
      ensures Coherent(old(mem), Active(), tlb, {})
      ensures mem == Write(old(mem), Locate(old(mem), edit, path).value, index, Encode(frame, flags))
    {
      StoreEntry(table, index, Or(And(frame * PAGE_SIZE, ADDRESS_MASK), flags), path);
    }

    /** table->entries[index], for the table at a path of the hierarchy being edited. */
    method LoadEntry(table: nat, index: nat, ghost path: Path, ghost stale: set<nat>) returns (e: nat)
      requires index < ENTRIES && IsPath(path) && table == TableAddress(path)
      requires Windowed(mem, Active(), edit) && Locate(mem, edit, path).Some?
      requires Coherent(mem, Active(), tlb, stale) && table / PAGE_SIZE !in stale
      modifies this`tlb
      ensures Coherent(mem, Active(), tlb, stale)
      ensures e == Read(mem, Locate(mem, edit, path).value, index)
    {
      WindowReachesTable(mem, Active(), edit, path);
      WindowPage(path);
      SlotOfAddress(table, index);
      e := Load(table + 8 * index, stale);
    }

    method StoreEntry(table: nat, index: nat, w: nat, ghost path: Path)
      requires index < ENTRIES && IsPath(path) && table == TableAddress(path)
      requires Windowed(mem, Active(), edit) && Locate(mem, edit, path).Some?
      requires Coherent(mem, Active(), tlb, {})
      modifies this`tlb, this`mem
      ensures Coherent(old(mem), Active(), tlb, {})
      ensures mem == Write(old(mem), Locate(old(mem), edit, path).value, index, w)
    {
      WindowReachesTable(mem, Active(), edit, path);
      WindowPage(path);
      SlotOfAddress(table, index);
      Store(table + 8 * index, w);
    }

    /** The address of the next table, or NULL if the entry is not present. The mask is
        present_bit | !huge_bit, which is present_bit alone. */
    method DescendPageTable(table: nat, index: nat, ghost path: Path) returns (next: nat)
      requires IsPath(path) && table == TableAddress(path)
      requires Windowed(mem, Active(), edit) && Locate(mem, edit, path).Some?
      requires Coherent(mem, Active(), tlb, {})
      modifies this`tlb
      ensures Coherent(mem, Active(), tlb, {})
      ensures next == if index < ENTRIES && Present(Read(mem, Locate(mem, edit, path).value, index))
                      then Descend(table, index) else 0
    {
      if index >= 512 {
        return NULL;
      }
      var e := LoadEntry(table, index, path, {});
      FlagBits(e);
      if And(e, Or(PRESENT, 0)) != 0 {
        return Descend(table, index);
      }
      return NULL;
    }

    method GetPhysicalFrame(table: nat, index: nat, ghost path: Path, ghost stale: set<nat>)
        returns (frame: Option<nat>)
      requires index < ENTRIES && IsPath(path) && table == TableAddress(path)
      requires Windowed(mem, Active(), edit) && Locate(mem, edit, path).Some?
      requires Coherent(mem, Active(), tlb, stale) && table / PAGE_SIZE !in stale
      modifies this`tlb
      ensures Coherent(mem, Active(), tlb, stale)
      ensures frame == var e := Read(mem, Locate(mem, edit, path).value, index);
                       if Present(e) then Some(FrameOf(e)) else None
    {
      var e := LoadEntry(table, index, path, stale);
      FlagBits(e);
      MaskIsField(e);
      if And(e, PRESENT) != 0 {
        return Some(And(e, ADDRESS_MASK) / PAGE_SIZE);
      }
      return None;
    }

    /** The allocator has no frame left. */
    ghost predicate Exhausted()
      reads alloc
    {
      pool.NextFree(alloc.nextFreeFrame) > alloc.pool.top
    }

    /** Looks the next table up and creates it if the entry is not present; NULL if there is no
        frame for it. */
    method GetNextPageTableOrCreate(table: nat, index: nat, ghost path: Path) returns (next: nat)
      requires Valid() && IsPath(path) && !path.P1? && table == TableAddress(path)
      requires Locate(mem, edit, path).Some? && index < ENTRIES
      requires || Present(Read(mem, Locate(mem, edit, path).value, index)) || Exhausted()
               || CanEnsure(pool, TheSpace(), Locate(mem, edit, path).value, index, Label(edit, Child(path, index)))
      modifies this, alloc
      ensures Valid() && cr3 == old(cr3) && edit == old(edit)
      ensures var t, tag := old(Locate(mem, edit, path)).value, Label(old(edit), Child(path, index));
        old(CanEnsure(pool, TheSpace(), Locate(mem, edit, path).value, index, Label(edit, Child(path, index)))) ==>
          TheSpace() == EnsureTable(pool, old(TheSpace()), t, index, tag) && next == TableAddress(Child(path, index))
      ensures old(Present(Read(mem, Locate(mem, edit, path).value, index))) ==>
                TheSpace() == old(TheSpace()) && next == TableAddress(Child(path, index))
      ensures old(!Present(Read(mem, Locate(mem, edit, path).value, index)) && Exhausted()) ==>
                next == 0 && mem == old(mem) && own == old(own) && Exhausted()
      // a table that is created: the only word that changes, and what it becomes
      ensures old(!Present(Read(mem, Locate(mem, edit, path).value, index)) && !Exhausted()) ==>
                mem == old(mem)[Slot(old(Locate(mem, edit, path)).value, index) :=
                                  old(pool.NextFree(alloc.nextFreeFrame)) * 4096 + 3]
    {
      hide SpaceOk, Coherent, Windowed, Locate, CanEnsure, EnsureTable, IsPath, TableAddress, Descend, Pool.NextFree,
           Encode, Or;
      ghost var s, t, tag := TheSpace(), Locate(mem, edit, path).value, Label(edit, Child(path, index));
      EnsureTableCases(pool, s, t, index, tag);
      if pool.NextFree(s.next) < FRAMES && !Present(Read(mem, t, index)) {
        CreatedTableWord(pool, s, t, index, tag);
      }
      ChildAddress(path, index);
      next := DescendPageTable(table, index, path);
      if next == NULL {
        CreateTable(table, index, path);
      }
      next := DescendPageTable(table, index, path);
    }

    /** The branch that creates: a frame from the allocator becomes the missing table. */
    method CreateTable(table: nat, index: nat, ghost path: Path)
      requires Valid() && IsPath(path) && !path.P1? && table == TableAddress(path)
      requires Locate(mem, edit, path).Some? && index < ENTRIES
      requires !Present(Read(mem, Locate(mem, edit, path).value, index))
      requires Exhausted()
            || CanEnsure(pool, TheSpace(), Locate(mem, edit, path).value, index, Label(edit, Child(path, index)))
      modifies this, alloc
      ensures Valid() && cr3 == old(cr3) && edit == old(edit) && Locate(mem, edit, path) == old(Locate(mem, edit, path))
      ensures old(Exhausted()) ==> mem == old(mem) && own == old(own) && Exhausted()
      ensures !old(Exhausted()) ==>
                && TheSpace() == EnsureTable(pool, old(TheSpace()), old(Locate(mem, edit, path).value), index,
                                             Label(edit, Child(path, index)))
                && Present(Read(mem, old(Locate(mem, edit, path)).value, index))
    {
      hide SpaceOk, Walk, Coherent, Windowed, Locate, Encode, TableAddress, IsPath;
      ghost var t, s, tag := Locate(mem, edit, path).value, TheSpace(), Label(edit, Child(path, index));
      NextFreeIgnoresTop(alloc.pool, pool.top, alloc.nextFreeFrame);
      if !Exhausted() {
        EnsureTableKeepsOk(pool, s, Active(), edit, tlb, t, index, tag);
        EnsureTableOk(pool, s, t, index, tag);
        FlushKeepsOk(pool, EnsureTable(pool, s, t, index, tag), Active(), edit, tlb);
      }
      var ok, frame := alloc.AllocateFrame();
      if ok {
        SetPageTableEntry(table, index, frame, Or(PRESENT, WRITEABLE), path);
        own := own[frame := tag];
        FillKeepsTables(s.mem, t, index, Encode(frame, Or(PRESENT, WRITEABLE)), edit, path);
        FlushTlb();
      } else {
        NextFreeIgnoresTop(alloc.pool, pool.top, alloc.nextFreeFrame);
        SkippingKeepsOk(pool, s, Active(), edit, tlb, alloc.nextFreeFrame);
      }
    }

    // --------------------------------------------------------- pages and frames

    /** The tables of a page, created where missing; yields the address of the level-1 table. */
    method TablesForPage(page: nat) returns (p1: nat)
      requires Valid() && CanMap(pool, TheSpace(), edit, page) && CanPayFor(pool, TheSpace(), edit, page)
      modifies this, alloc
      ensures Valid() && cr3 == old(cr3) && edit == old(edit)
      ensures TheSpace() == MapTables(pool, old(TheSpace()), edit, page)
      ensures p1 == TableAddress(LeafPath(page))
    {
      hide SpaceOk, Coherent, Windowed, Open, Missing, Lack, EnsureTable, CanEnsure, Pool.Enough, Pool.Advance;
      ghost var s, a, b := TheSpace(), P4Index(page), P3Index(page);
      MapP2Ok(pool, s, edit, page);
      MapTablesOk(pool, s, edit, page);
      var p3 := GetNextPageTableOrCreate(P4_TABLE, P4Index(page), P4);
      ghost var s1 := TheSpace();
      LabelLocates(pool, s1, edit, P3(a), TableP3(s1, edit, page));
      var p2 := GetNextPageTableOrCreate(p3, P3Index(page), P3(a));
      ghost var s2 := TheSpace();
      LabelLocates(pool, s2, edit, P2(a, b), TableP2(s2, edit, page));
      p1 := GetNextPageTableOrCreate(p2, P2Index(page), P2(a, b));
    }

    method MapPageToFrame(page: nat, frame: nat, flags: nat)
      requires Valid() && CanApply(pool, TheSpace(), edit, MapOp(page, frame, flags))
      requires CanPayFor(pool, TheSpace(), edit, page)
      // the source's own comment: the page must be unused
      requires edit == Active() ==> Walk(mem, Active(), page).None?
      modifies this, alloc
      ensures Valid() && cr3 == old(cr3) && edit == old(edit)
      ensures TheSpace() == MapAt(pool, old(TheSpace()), edit, page, frame, flags)
      ensures Matches(TheState(), StepEvent(pool, old(TheState()), Performed(MapOp(page, frame, flags))))
    {
      hide SpaceOk, Coherent, Open, Missing, Pool.Enough, MapTables, Walk;
      ghost var s := TheSpace();
      MapTablesOk(pool, s, edit, page);
      MapTablesKeepsWalks(pool, s, edit, page, Active(), page);
      var p1 := TablesForPage(page);
      ghost var s', t := TheSpace(), LeafTable(TheSpace(), edit, page);
      LabelLocates(pool, s', edit, LeafPath(page), t);
      MapLeafKeepsOk(pool, s', Active(), edit, tlb, page, Encode(frame, Or(PRESENT, flags)));
      SetPageTableEntry(p1, P1Index(page), frame, Or(PRESENT, flags), LeafPath(page));
      MapLeafKeepsOk(pool, s', Active(), edit, tlb, page, Encode(frame, Or(PRESENT, flags)));
    }

    /** A frame from the allocator, not used as a table; it may hold anything. Frame 0 if there is none. */
    method TakeFrame() returns (frame: nat)
      requires Starting() && (Exhausted() || pool.NextFree(alloc.nextFreeFrame) <= pool.top)
      modifies alloc
      ensures Valid() && frame < FRAMES
      ensures !old(Exhausted()) ==>
                && frame == pool.NextFree(old(alloc.nextFreeFrame)) && frame !in own
                && TheSpace() == old(TheSpace()).(next := frame + 1)
                && Matches(TheState(), StepEvent(pool, old(TheState()), Taken))
      ensures old(Exhausted()) ==> frame == 0 && Exhausted() && old(alloc.nextFreeFrame) <= alloc.nextFreeFrame
    {
      hide Forest, Owned, Coherent, Windowed, Pool.NextFree;
      NextFreeIgnoresTop(alloc.pool, pool.top, alloc.nextFreeFrame);
      ghost var s := TheSpace();
      var ok;
      ok, frame := alloc.AllocateFrame();
      if !ok {
        NextFreeIgnoresTop(alloc.pool, pool.top, alloc.nextFreeFrame);
        NoFramesToCome(pool, s, alloc.nextFreeFrame);
      }
    }

    /** Maps a page to a frame of the allocator's choosing, or to frame 0 if there is none: the result
        of the allocation is not looked at. */
    method MapPage(page: nat, flags: nat)
      requires Valid() && CanMap(pool, TheSpace(), edit, page) && Canonical(page) && IsFlags(flags)
      requires if Exhausted() then Missing(mem, edit, page) == 0
               else pool.Enough(alloc.nextFreeFrame, 1 + Missing(mem, edit, page))
      requires edit == Active() ==> Walk(mem, Active(), page).None?
      modifies this, alloc
      ensures Valid() && cr3 == old(cr3) && edit == old(edit)
      ensures var s' := MapPageAt(pool, old(TheSpace()), edit, page, flags);
        TheSpace() == if old(Exhausted()) then s'.(next := alloc.nextFreeFrame) else s'
      ensures old(Exhausted()) ==> Exhausted()
    {
      hide Ok, MapAt, CanMap, Missing, Pool.NextFree, Pool.Enough;
      ghost var s := TheSpace();
      ghost var exhausted := Exhausted();
      ValidIsStarting();
      if !exhausted {
        AllocationKeepsMappable(pool, s, edit, page, flags);
      }
      var frame := TakeFrame();
      if exhausted {
        FailureKeepsMappable(pool, s, edit, page, flags, alloc.nextFreeFrame);
      }
      MapPageToFrame(page, frame, flags);
    }

    method IdentityMapPage(frame: nat, flags: nat)
      requires Valid() && CanApply(pool, TheSpace(), edit, MapOp(frame, frame, flags))
      requires CanPayFor(pool, TheSpace(), edit, frame) && frame * PAGE_SIZE < WORD
      requires edit == Active() ==> Walk(mem, Active(), frame).None?
      modifies this, alloc
      ensures Valid() && cr3 == old(cr3) && edit == old(edit)
      ensures TheSpace() == MapAt(pool, old(TheSpace()), edit, frame, frame, flags)
    {
      var page := frame * PAGE_SIZE / PAGE_SIZE;
      MapPageToFrame(page, frame, flags);
    }

    /** The address of the level-1 table of a page that has one. */
    method DescendToLeaf(page: nat) returns (p1: nat)
      requires Valid() && P4Index(page) != RECURSIVE && HasTable(mem, edit, page)
      modifies this`tlb
      ensures Valid() && p1 == TableAddress(LeafPath(page))
    {
      var p3 := DescendPageTable(P4_TABLE, P4Index(page), P4);
      var p2 := DescendPageTable(p3, P3Index(page), P3(P4Index(page)));
      p1 := DescendPageTable(p2, P2Index(page), P2(P4Index(page), P3Index(page)));
    }

    /** Clears the level-1 entry, reads the frame back from the cleared entry, and flushes. */
    method UnmapPage(page: nat)
      requires Valid() && CanApply(pool, TheSpace(), edit, UnmapOp(page))
      modifies this`mem, this`tlb, this`cr3
      ensures Valid() && cr3 == old(cr3)
      ensures TheSpace() == UnmapAt(old(TheSpace()), edit, page)
      ensures TheState() == StepEvent(pool, old(TheState()), Performed(UnmapOp(page)))
    {
      hide SpaceOk, Walk, Open, Canonical, Windowed, Locate, TableAddress, P4Index, P1Index, IsPath, LeafTable;
      ghost var s := TheSpace();
      ghost var t := LeafTable(s, edit, page);
      HasLabelledTable(pool, s, edit, page);
      var p1 := DescendToLeaf(page);
      LeafWriteKeepsOk(pool, s, Active(), edit, tlb, page, 0);
      StoreEntry(p1, P1Index(page), 0, LeafPath(page));
      LeafWriteKeepsOk(pool, s, Active(), edit, tlb, page, 0);
      WindowIsNotThePage(page);
      var frame := GetPhysicalFrame(p1, P1Index(page), LeafPath(page), if Active() == edit then {page} else {});
      FlushTlb();
      NothingCached(mem, Active());
    }

    /** The frame of a page, by reading the tables through the window. */
    method TranslatePage(page: nat) returns (frame: Option<nat>)
      requires Readable() && (HasTable(mem, edit, page) || IsHuge(mem, edit, page))
      modifies this`tlb
      ensures Coherent(mem, Active(), tlb, {})
      ensures frame == var t := Walk(mem, edit, page); if t.Some? then Some(t.value.frame) else None
    {
      hide Forest, Coherent, Descend, FrameOf, And;
      ghost var a, b, c := P4Index(page), P3Index(page), P2Index(page);
      HugeIsAligned(mem, own, edit, page);
      var p3 := DescendPageTable(P4_TABLE, P4Index(page), P4);
      var p2 := DescendPageTable(p3, P3Index(page), P3(a));
      var e := LoadEntry(p2, P2Index(page), P2(a, b), {});
      FlagBits(e);
      if And(e, HUGE) != 0 {
        var base := GetPhysicalFrame(p2, P2Index(page), P2(a, b), {});
        if base.None? {
          return None;
        }
        return Some(base.value + P1Index(page));
      }
      var p1 := DescendPageTable(p2, P2Index(page), P2(a, b));
      frame := GetPhysicalFrame(p1, P1Index(page), LeafPath(page), {});
    }

    /** The physical address of a mapped virtual address, of the recursive slot or any other. */
    method Translate(va: nat) returns (pa: nat)
      requires Readable() && Canonical(va / PAGE_SIZE) && Walk(mem, edit, va / PAGE_SIZE).Some?
      modifies this`tlb
      ensures Coherent(mem, Active(), tlb, {})
      ensures pa == Walk(mem, edit, va / PAGE_SIZE).value.frame * PAGE_SIZE + va % PAGE_SIZE
    {
      MappedHasTables(mem, own, edit, va / PAGE_SIZE);
      var frame := TranslatePage(va / PAGE_SIZE);
      pa := frame.value * PAGE_SIZE + va % PAGE_SIZE;
    }
  }

  lemma LabelLocates(pool: Pool, s: Space, root: nat, path: Path, t: nat)
    requires SpaceOk(pool, s) && Labelled(s, t, Label(root, path))
    ensures IsPath(path) && Locate(s.mem, root, path) == Some(t)
  {
    assert LabelOk(s.mem, s.own, t);
  }

  lemma HasLabelledTable(pool: Pool, s: Space, root: nat, page: nat)
    requires SpaceOk(pool, s) && IsRoot(s.own, root) && P4Index(page) != RECURSIVE && HasTable(s.mem, root, page)
    ensures Labelled(s, LeafTable(s, root, page), Label(root, LeafPath(page)))
    ensures Locate(s.mem, root, LeafPath(page)) == Some(LeafTable(s, root, page))
    ensures IsPath(LeafPath(page)) && P1Index(page) < ENTRIES
  {
    TableIsLabelled(s.mem, s.own, root, page);
  }

  /** The window address of a page's level-1 table is not in the page. */
  lemma WindowIsNotThePage(page: nat)
    requires P4Index(page) != RECURSIVE
    ensures TableAddress(LeafPath(page)) / PAGE_SIZE != page
  {
    WindowPage(LeafPath(page));
  }

  /** The allocator failed: with no table missing, the page can be mapped to frame 0 all the same. */
  lemma FailureKeepsMappable(pool: Pool, s: Space, root: nat, page: nat, flags: nat, next: nat)
    requires CanMap(pool, s, root, page) && Canonical(page) && IsFlags(flags)
    requires Missing(s.mem, root, page) == 0 && s.next <= next
    ensures var s' := s.(next := next);
      && CanApply(pool, s', root, MapOp(page, 0, flags)) && CanPayFor(pool, s', root, page)
      && MapAt(pool, s', root, page, 0, flags) == MapAt(pool, s, root, page, 0, flags).(next := next)
  {
    hide Missing, Open, And, MapTables;
    MapTablesIsIdentity(pool, s, root, page);
    MapTablesIsIdentity(pool, s.(next := next), root, page);
  }

  /** With no frame left up to its top, a space needs nothing of the frames to come. */
  lemma NoFramesToCome(pool: Pool, s: Space, next: nat)
    requires SpaceOk(pool, s.(next := pool.NextFree(s.next) + 1)) && pool.NextFree(s.next) > pool.top
    requires s.next <= next && pool.NextFree(next) == pool.NextFree(s.next) && pool.NextFree(s.next) !in s.own
    ensures SpaceOk(pool, s.(next := next))
  {
  }

  lemma AllocationKeepsSpace(pool: Pool, s: Space)
    requires SpaceOk(pool, s)
    ensures SpaceOk(pool, s.(next := pool.NextFree(s.next) + 1)) && pool.top < FRAMES
  {
  }

  lemma AllocationKeepsMappable(pool: Pool, s: Space, root: nat, page: nat, flags: nat)
    requires CanMap(pool, s, root, page) && Canonical(page) && IsFlags(flags)
    requires pool.Enough(s.next, 1 + Missing(s.mem, root, page))
    ensures var frame := pool.NextFree(s.next);
      && frame <= pool.top && frame < FRAMES
      && CanApply(pool, s.(next := frame + 1), root, MapOp(page, frame, flags))
      && CanPayFor(pool, s.(next := frame + 1), root, page)
  {
    hide SpaceOk, Missing, Open, And, Pool.NextFree;
    AllocationKeepsSpace(pool, s);
    EnoughSplits(pool, s.next, 1, Missing(s.mem, root, page));
    assert pool.Advance(s.next, 1) == pool.Advance(pool.NextFree(s.next) + 1, 0) == pool.NextFree(s.next) + 1;
  }

  /** A 2 MiB mapping covers the page. */
  ghost predicate IsHuge(m: Memory, root: nat, page: nat) {
    var t := Locate(m, root, P2(P4Index(page), P3Index(page)));
    t.Some? && Present(Read(m, t.value, P2Index(page))) && Huge(Read(m, t.value, P2Index(page)))
  }

  /** The entries that an address in the recursive slot is translated by are not huge. */
  lemma SlotEntryIsSmall(m: Memory, own: map<nat, Label>, root: nat, b: nat, c: nat)
    requires Forest(m, own) && IsRoot(own, root) && Step(m, root, RECURSIVE) == Some(root) && b < ENTRIES && c < ENTRIES
    ensures Present(Read(m, root, b)) ==> !Huge(Read(m, root, b))
    ensures var e := Read(m, FrameOf(Read(m, root, b)), c); Present(Read(m, root, b)) && Present(e) ==> !Huge(e)
  {
    assert EntryOk(m, own, root, b) && EntryOk(m, own, root, c);
    if b != RECURSIVE && Present(Read(m, root, b)) {
      assert EntryOk(m, own, FrameOf(Read(m, root, b)), c);
    }
  }

  lemma HugeIsAligned(m: Memory, own: map<nat, Label>, root: nat, page: nat)
    requires Forest(m, own) && IsRoot(own, root) && Step(m, root, RECURSIVE) == Some(root)
    ensures var t := Locate(m, root, P2(P4Index(page), P3Index(page)));
      t.Some? && Huge(Read(m, t.value, P2Index(page))) && Present(Read(m, t.value, P2Index(page))) ==>
        FrameOf(Read(m, t.value, P2Index(page))) % 512 == 0
  {
    if P4Index(page) == RECURSIVE {
      SlotEntryIsSmall(m, own, root, P3Index(page), P2Index(page));
    } else {
      LocatedIfOwned(m, own, root, P2(P4Index(page), P3Index(page)));
      var t := Locate(m, root, P2(P4Index(page), P3Index(page)));
      if t.Some? {
        assert EntryOk(m, own, t.value, P2Index(page));
      }
    }
  }

  /** A mapped page is reached by a 4 KiB or a 2 MiB mapping. */
  lemma MappedHasTables(m: Memory, own: map<nat, Label>, root: nat, page: nat)
    requires Forest(m, own) && IsRoot(own, root) && Step(m, root, RECURSIVE) == Some(root)
    requires Walk(m, root, page).Some?
    ensures HasTable(m, root, page) || IsHuge(m, root, page)
  {
    if P4Index(page) == RECURSIVE {
      SlotEntryIsSmall(m, own, root, P3Index(page), P2Index(page));
    } else {
      assert EntryOk(m, own, root, P4Index(page));
      var t3 := FrameOf(Read(m, root, P4Index(page)));
      assert EntryOk(m, own, t3, P3Index(page));
    }
  }

  /** The address of a child table is what the descent computes, and is not NULL. */
  lemma ChildAddress(path: Path, index: nat)
    requires IsPath(path) && !path.P1? && index < ENTRIES
    ensures TableAddress(Child(path, index)) == Descend(TableAddress(path), index) != NULL
  {
    TableAddressIs(Child(path, index));
  }
}
