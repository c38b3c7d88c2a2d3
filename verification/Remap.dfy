/** remap_kernel: builds a new hierarchy through the redirected recursive slot of the old one,
    switches to it, and unmaps the page of the old level-4 table. */
module Remap {
  import opened Bits
  import opened FrameAllocator
  import opened Mmu
  import opened PageTables
  import opened PageRuns
  import opened Tlb
  import opened TlbRuns
  import opened Hierarchies
  import opened KernelImage
  import opened Paging
  import opened IdentityMaps
  import opened Permissions

  /** The page through which the new level-4 table is first written. */
  const NEW_P4_PAGE: nat := 0xdeadbeef
  /** The page through which the old level-4 table stays reachable. */
  const OLD_P4_PAGE: nat := 0xdddd0000

  lemma TemporaryPages()
    ensures Canonical(NEW_P4_PAGE) && Canonical(OLD_P4_PAGE)
    ensures P4Index(NEW_P4_PAGE) == P4Index(OLD_P4_PAGE) == 27 != RECURSIVE
  {
  }

  /** The tables on the way to both. */
  function TemporaryTables(): set<Path> {
    TablePaths(NEW_P4_PAGE) + TablePaths(OLD_P4_PAGE)
  }

  function MapTemporaryOp(page: nat, frame: nat): Op {
    MapOp(page, frame, Or(PRESENT, WRITEABLE))
  }

  function Temporaries(newP4: nat, oldP4: nat): seq<Op> {
    [MapTemporaryOp(NEW_P4_PAGE, newP4), MapTemporaryOp(OLD_P4_PAGE, oldP4)]
  }

  /** Neither page is in use. */
  ghost predicate TemporariesUnused(m: Memory, root: nat) {
    Walk(m, root, NEW_P4_PAGE).None? && Walk(m, root, OLD_P4_PAGE).None?
  }

  lemma TemporariesCanRun(pool: Pool, s: Space, root: nat, newP4: nat)
    requires SpaceOk(pool, s) && IsRoot(s.own, root) && TemporariesUnused(s.mem, root) && newP4 < FRAMES
    requires pool.Enough(s.next, |Absent(s.mem, root, TemporaryTables())|)
    ensures CanRun(pool, s, root, Temporaries(newP4, root)) && Touched(Temporaries(newP4, root)) == TemporaryTables()
    ensures root < FRAMES
  {
    hide Walk, Open, TablePaths, Canonical, P4Index, Or;
    var ops := Temporaries(newP4, root);
    TemporaryPages();
    TableFlags();
    UnmappedIsOpen(s.mem, root, NEW_P4_PAGE);
    UnmappedIsOpen(s.mem, root, OLD_P4_PAGE);
    assert root < FRAMES by {
      assert LabelOk(s.mem, s.own, root);
    }
    assert ops[..1] == [ops[0]] && ops[..1][..0] == [];
    assert Touched([ops[0]]) == TablePaths(NEW_P4_PAGE);
    assert Legal(s, root, [ops[0]]);
  }

  /** The first mapping is possible, and leaves the second one possible. */
  lemma FirstTemporary(pool: Pool, s: Space, root: nat, newP4: nat)
    requires CanRun(pool, s, root, Temporaries(newP4, root)) && TemporariesUnused(s.mem, root)
    ensures var first, second := MapTemporaryOp(NEW_P4_PAGE, newP4), MapTemporaryOp(OLD_P4_PAGE, root);
      && CanApply(pool, s, root, first) && CanPay(pool, s, root, first)
      && var s1 := Apply(pool, s, root, first);
      && CanApply(pool, s1, root, second) && CanPay(pool, s1, root, second) && Walk(s1.mem, root, OLD_P4_PAGE).None?
      && Run(pool, s, root, Temporaries(newP4, root)) == Apply(pool, s1, root, second)
  {
    hide CanRun, CanApply, CanPay, Apply, Walk, Legal, Or;
    var ops := Temporaries(newP4, root);
    TemporaryPages();
    CanRunPrefix(pool, s, root, ops, 1);
    assert ops[..1] == [ops[0]] && [ops[0]][..0] == [];
    RunCanApply(pool, s, root, [ops[0]]);
    RunCanApply(pool, s, root, ops);
    assert CanApply(pool, s, root, ops[0]);
    ApplyIsPointUpdate(pool, s, root, ops[0], root, OLD_P4_PAGE) by {
      CanRunRoot(pool, s, root, ops);
    }
  }

  lemma CanRunRoot(pool: Pool, s: Space, root: nat, ops: seq<Op>)
    requires CanRun(pool, s, root, ops)
    ensures IsRoot(s.own, root)
  {
  }

  /** A page translates to a frame, present and writeable. */
  ghost predicate Reaches(m: Memory, root: nat, page: nat, frame: nat) {
    Walk(m, root, page) == Some(Mapping(frame, frame * 4096 + 3))
  }

  /** The old address space, the two temporary pages aside. */
  ghost predicate OldView(m: Memory, m': Memory, root: nat) {
    forall q :: Canonical(q) && P4Index(q) != RECURSIVE && q != NEW_P4_PAGE && q != OLD_P4_PAGE ==>
      Walk(m', root, q) == Walk(m, root, q)
  }

  lemma OldViewTransitive(m0: Memory, m1: Memory, m2: Memory, root: nat)
    requires OldView(m0, m1, root) && (OldView(m1, m2, root) || SameView(m1, m2, root))
    ensures OldView(m0, m2, root)
  {
  }

  /** After both mappings the two level-4 tables are reached at the two pages, and the rest of the
      address space is as it was. */
  lemma TemporariesMapped(pool: Pool, s: Space, root: nat, newP4: nat, k: nat)
    requires CanRun(pool, s, root, Temporaries(newP4, root)) && TemporariesUnused(s.mem, root) && Spare(s, newP4)
    requires pool.Enough(s.next, |Absent(s.mem, root, Touched(Temporaries(newP4, root)))| + k)
    requires newP4 < FRAMES && root < FRAMES
    ensures var s' := Run(pool, s, root, Temporaries(newP4, root));
      && pool.Enough(s'.next, k) && OwnsPath(s'.own, root, LeafPath(OLD_P4_PAGE)) && OldView(s.mem, s'.mem, root)
      && Reaches(s'.mem, root, NEW_P4_PAGE, newP4) && Reaches(s'.mem, root, OLD_P4_PAGE, root)
  {
    hide CanRun, Run, Walk, Legal, Or, Absent, Canonical, P4Index, SpaceOk;
    var ops := Temporaries(newP4, root);
    var s' := Run(pool, s, root, ops);
    TemporaryPages();
    CanRunRoot(pool, s, root, ops);
    RunOk(pool, s, root, ops);
    EnoughSplits(pool, s.next, |Absent(s.mem, root, Touched(ops))|, k);
    forall q | Canonical(q) && P4Index(q) != RECURSIVE
      ensures Walk(s'.mem, root, q) ==
        if q == OLD_P4_PAGE then Outcome(MapTemporaryOp(OLD_P4_PAGE, root))
        else if q == NEW_P4_PAGE then Outcome(MapTemporaryOp(NEW_P4_PAGE, newP4))
        else Walk(s.mem, root, q)
    {
      RunRefinesFlat(pool, s, root, ops, root, q);
      FlatOfTemporaries(newP4, root, q, Walk(s.mem, root, q));
    }
    TemporaryOutcome(NEW_P4_PAGE, newP4);
    TemporaryOutcome(OLD_P4_PAGE, root);
    TouchedLeaf(ops, OLD_P4_PAGE);
    VisitedIsOwned(pool, s, root, ops, OLD_P4_PAGE);
  }

  lemma TemporaryOutcome(page: nat, frame: nat)
    requires (page == NEW_P4_PAGE || page == OLD_P4_PAGE) && frame < FRAMES
    ensures Outcome(MapTemporaryOp(page, frame)) == Some(Mapping(frame, frame * 4096 + 3))
  {
    hide And, Or, Word, IsFlags;
    TemporaryPages();
    TableFlags();
    WordIs(MapTemporaryOp(page, frame));
  }

  lemma FlatOfTemporaries(newP4: nat, oldP4: nat, q: nat, before: Option<Mapping>)
    ensures Flat(Temporaries(newP4, oldP4), q, before)
         == if q == OLD_P4_PAGE then Outcome(MapTemporaryOp(OLD_P4_PAGE, oldP4))
            else if q == NEW_P4_PAGE then Outcome(MapTemporaryOp(NEW_P4_PAGE, newP4))
            else before
  {
    hide Outcome, Or;
    var ops := Temporaries(newP4, oldP4);
    assert ops[..1] == [ops[0]] && [ops[0]][..0] == [];
    assert Flat([ops[0]], q, before) == if ops[0].page == q then Outcome(ops[0]) else Flat([], q, before);
  }

  lemma TouchedLeaf(ops: seq<Op>, page: nat)
    requires ops != [] && ops[|ops| - 1].MapOp? && ops[|ops| - 1].page == page
    ensures LeafPath(page) in Touched(ops)
  {
  }

  /** A table that a run comes by is there after it. */
  lemma VisitedIsOwned(pool: Pool, s: Space, root: nat, ops: seq<Op>, page: nat)
    requires CanRun(pool, s, root, ops) && LeafPath(page) in Touched(ops) && P4Index(page) != RECURSIVE
    ensures OwnsPath(Run(pool, s, root, ops).own, root, LeafPath(page))
  {
    hide Run, Legal, Absent, Touched;
    var s' := Run(pool, s, root, ops);
    RunOk(pool, s, root, ops);
    RunLocates(pool, s, root, ops, root, LeafPath(page));
    LocatedIfOwned(s'.mem, s'.own, root, LeafPath(page));
  }

  lemma OwnedLeafIsTable(m: Memory, own: map<nat, Label>, root: nat, page: nat)
    requires Forest(m, own) && IsRoot(own, root) && OwnsPath(own, root, LeafPath(page)) && P4Index(page) != RECURSIVE
    ensures HasTable(m, root, page) && Open(m, root, page)
  {
    LocatedIfOwned(m, own, root, LeafPath(page));
  }

  lemma OwnsPathExtends(own: map<nat, Label>, own': map<nat, Label>, root: nat, path: Path)
    requires Extends(own, own') && OwnsPath(own, root, path)
    ensures OwnsPath(own', root, path)
  {
    var t :| t in own && own[t] == Label(root, path);
    assert t in own' && own'[t] == Label(root, path);
  }

  /** Takes a frame for the new level-4 table, whatever it holds, and maps it and the old table at
      the two temporary pages. */
  method MapTemporaries(m: Machine, ghost k: nat) returns (newP4: nat, oldP4: nat)
    requires m.Starting() && m.edit == m.Active() && m.cr3 < FRAMES * PAGE_SIZE && TemporariesUnused(m.mem, m.Active())
    requires m.pool.Enough(m.alloc.nextFreeFrame, 1 + |Absent(m.mem, m.Active(), TemporaryTables())| + k)
    modifies m, m.alloc
    ensures m.Valid() && m.cr3 == old(m.cr3) && m.edit == m.Active() == oldP4
    ensures m.pool.Enough(m.alloc.nextFreeFrame, k) && newP4 < FRAMES && Spare(m.TheSpace(), newP4)
    ensures newP4 == m.pool.NextFree(old(m.alloc.nextFreeFrame))
    ensures Reaches(m.mem, oldP4, NEW_P4_PAGE, newP4) && Reaches(m.mem, oldP4, OLD_P4_PAGE, oldP4)
    ensures OwnsPath(m.own, oldP4, LeafPath(OLD_P4_PAGE)) && OldView(old(m.mem), m.mem, oldP4)
  {
    hide Walk, SpaceOk, Coherent, Windowed, Absent, TemporaryTables, FrameOf, Pool.Enough, Pool.NextFree, Or,
         OldView, MapTables, Reaches, OwnsPath, CanRun, Run, Touched, Missing, Open, Canonical, P4Index,
         TablePaths;
    RootFrame(m.cr3);
    SplitBudget(m.pool, m.alloc.nextFreeFrame, |Absent(m.mem, m.Active(), TemporaryTables())|, k);
    newP4 := m.TakeFrame();
    ghost var s := m.TheSpace();
    TemporariesCanRun(m.pool, s, m.edit, newP4);
    FirstTemporary(m.pool, s, m.edit, newP4);
    TemporariesMapped(m.pool, s, m.edit, newP4, k);
    SpareAfterTemporaries(m.pool, s, m.edit, newP4);
    m.MapPageToFrame(NEW_P4_PAGE, newP4, Or(PRESENT, WRITEABLE));
    oldP4 := m.cr3 / PAGE_SIZE;
    m.MapPageToFrame(OLD_P4_PAGE, oldP4, Or(PRESENT, WRITEABLE));
    m.FlushTlb();
    NothingCached(m.mem, m.Active());
  }

  lemma RootFrame(cr3: nat)
    requires cr3 < FRAMES * PAGE_SIZE
    ensures FrameOf(cr3) == cr3 / PAGE_SIZE
  {
  }

  /** One frame for the new root, then n, then k. */
  lemma SplitBudget(pool: Pool, next: nat, n: nat, k: nat)
    requires pool.Enough(next, 1 + n + k)
    ensures pool.NextFree(next) <= pool.top
    ensures pool.Enough(pool.NextFree(next) + 1, n + k) && pool.Enough(pool.NextFree(next) + 1, n)
  {
    EnoughForFewer(pool, pool.NextFree(next) + 1, n + k, n);
  }

  lemma SpareAfterTemporaries(pool: Pool, s: Space, root: nat, newP4: nat)
    requires CanRun(pool, s, root, Temporaries(newP4, root)) && TemporariesUnused(s.mem, root) && Spare(s, newP4)
    ensures Spare(Run(pool, s, root, Temporaries(newP4, root)), newP4)
  {
    hide CanRun, CanApply, CanPay, Run, Walk, Apply;
    var first, second := MapTemporaryOp(NEW_P4_PAGE, newP4), MapTemporaryOp(OLD_P4_PAGE, root);
    FirstTemporary(pool, s, root, newP4);
    ApplyKeepsSpare(pool, s, root, first, newP4);
    ApplyKeepsSpare(pool, Apply(pool, s, root, first), root, second, newP4);
  }

  // --------------------------------------------------------- the new root

  /** A store to a spare frame, through a page that maps to it. */
  method StoreToSpare(m: Machine, page: nat, ghost frame: nat, index: nat, w: nat)
    requires m.Valid() && Reaches(m.mem, m.Active(), page, frame) && index < ENTRIES
    requires Spare(m.TheSpace(), frame)
    modifies m`mem, m`tlb
    ensures m.Valid() && m.mem == Write(old(m.mem), frame, index, w)
    ensures Matches(m.TheState(), StepEvent(m.pool, old(m.TheState()), Stored(frame, index, w)))
    ensures SameView(old(m.mem), m.mem, m.Active())
  {
    hide Walk, SpaceOk, SameView;
    ghost var s := m.TheSpace();
    SpaceIsForest(m.pool, s);
    SpareWriteKeepsView(s.mem, s.own, m.Active(), frame, index, w);
    SlotOfAddress(page * PAGE_SIZE, index);
    m.Store(page * PAGE_SIZE + 8 * index, w);
    SpareWriteKeepsOk(m.pool, s, m.Active(), m.edit, m.tlb, frame, index, w);
  }

  ghost predicate ZeroBelow(m: Memory, f: nat, n: nat) {
    forall i :: 0 <= i < n ==> Read(m, f, i) == 0
  }

  lemma ZeroNext(m: Memory, f: nat, n: nat)
    requires ZeroBelow(m, f, n)
    ensures ZeroBelow(Write(m, f, n, 0), f, n + 1)
  {
    forall i | 0 <= i < n + 1
      ensures Read(Write(m, f, n, 0), f, i) == 0
    {
      assert i < n ==> Read(m, f, i) == 0;
    }
  }

  /** init_page_table on a frame that is no table yet, whatever it holds. */
  method InitPageTable(m: Machine, page: nat, ghost frame: nat)
    requires m.Valid() && Reaches(m.mem, m.Active(), page, frame) && Canonical(page) && P4Index(page) != RECURSIVE
    requires Spare(m.TheSpace(), frame)
    modifies m`mem, m`tlb
    ensures m.Valid() && SameView(old(m.mem), m.mem, m.Active())
    ensures ZeroBelow(m.mem, frame, ENTRIES)
  {
    hide Ok, Walk;
    TemporaryPages();
    for i := 0 to ENTRIES
      invariant m.Valid() && SameView(old(m.mem), m.mem, m.Active())
      invariant ZeroBelow(m.mem, frame, i)
    {
      ghost var before := m.mem;
      assert Walk(before, m.Active(), page) == Walk(old(m.mem), m.Active(), page);
      ZeroNext(before, frame, i);
      StoreToSpare(m, page, frame, i, 0);
    }
  }

  /** Zeroes the new table and gives it its recursive entry: it becomes a root of its own. */
  method BecomeRoot(m: Machine, newP4: nat)
    requires m.Valid() && Reaches(m.mem, m.Active(), NEW_P4_PAGE, newP4) && newP4 < FRAMES
    requires Spare(m.TheSpace(), newP4)
    modifies m`mem, m`tlb, m`own
    ensures m.Valid() && SameView(old(m.mem), m.mem, m.Active())
    ensures old(newP4 !in m.own) && m.own == old(m.own)[newP4 := Label(newP4, P4)] && IsEmptyRoot(m.mem, newP4)
    ensures OwnSlot(m.mem, newP4)
  {
    hide Ok, Walk, Or;
    TemporaryPages();
    ghost var m0 := m.mem;
    InitPageTable(m, NEW_P4_PAGE, newP4);
    ghost var m1 := m.mem;
    assert Walk(m1, m.Active(), NEW_P4_PAGE) == Walk(m0, m.Active(), NEW_P4_PAGE);
    assert Read(m1, newP4, RECURSIVE) == 0;
    StoreToSpare(m, NEW_P4_PAGE, newP4, RECURSIVE, Encode(newP4, Or(PRESENT, WRITEABLE)));
    EmptyRootFromZero(m1, newP4);
    SlotWord(newP4);
    NewRootKeepsOk(m.pool, m.TheSpace(), m.Active(), m.edit, m.tlb, newP4);
    m.own := m.own[newP4 := Label(newP4, P4)];
    assert SameView(m0, m1, m.Active()) && SameView(m1, m.mem, m.Active());
  }

  lemma EmptyRootFromZero(m: Memory, f: nat)
    requires ZeroBelow(m, f, ENTRIES) && f < FRAMES
    ensures IsEmptyRoot(Write(m, f, RECURSIVE, Encode(f, Or(PRESENT, WRITEABLE))), f)
  {
    TableFlags();
    EncodeDecodes(f, 3);
    var m' := Write(m, f, RECURSIVE, Encode(f, 3));
    forall i | 0 <= i < RECURSIVE
      ensures !Present(Read(m', f, i))
    {
      assert Read(m, f, i) == 0;
    }
  }

  /** Points the active recursive slot at another root, whose tables the window then shows. */
  method Redirect(m: Machine, target: nat)
    requires m.Valid() && m.edit == m.Active()
    requires IsRoot(m.own, target) && Step(m.mem, target, RECURSIVE) == Some(target)
    modifies m`mem, m`tlb, m`cr3, m`edit
    ensures m.Valid() && m.cr3 == old(m.cr3) && m.edit == target
    ensures m.mem == Write(old(m.mem), m.Active(), RECURSIVE, Encode(target, Or(PRESENT, WRITEABLE)))
    ensures m.mem == old(m.mem)[Slot(m.Active(), 511) := target * 4096 + 3]
    ensures m.TheState() == StepEvent(m.pool, old(m.TheState()), Redirected(target))
  {
    hide SpaceOk, Coherent, Or;
    RedirectOpensWindow(m.pool, m.TheSpace(), m.Active(), target);
    RootIsFrame(m.pool, m.TheSpace(), target);
    SlotWord(target);
    m.SetPageTableEntry(P4_TABLE, RECURSIVE, target, Or(PRESENT, WRITEABLE), P4);
    m.FlushTlb();
    m.edit := target;
  }

  lemma RootIsFrame(pool: Pool, s: Space, root: nat)
    requires SpaceOk(pool, s) && IsRoot(s.own, root)
    ensures root < FRAMES
  {
    assert LabelOk(s.mem, s.own, root);
  }

  lemma RedirectKeepsEmptyRoot(m: Memory, root: nat, w: nat, f: nat)
    requires IsEmptyRoot(m, f) && f != root
    ensures IsEmptyRoot(Write(m, root, RECURSIVE, w), f)
  {
    forall i | 0 <= i < RECURSIVE
      ensures !Present(Read(Write(m, root, RECURSIVE, w), f, i))
    {
      assert !Present(Read(m, f, i));
    }
  }

  /** From the start of remap_kernel to the flush after the redirection: an empty hierarchy is
      being edited while the old one translates, and the old root is reachable at its page. */
  method PrepareNewRoot(m: Machine, ghost k: nat) returns (newP4: nat, oldP4: nat)
    requires m.Starting() && m.edit == m.Active() && m.cr3 < FRAMES * PAGE_SIZE && TemporariesUnused(m.mem, m.Active())
    requires m.pool.Enough(m.alloc.nextFreeFrame, 1 + |Absent(m.mem, m.Active(), TemporaryTables())| + k)
    modifies m, m.alloc
    ensures m.Valid() && m.cr3 == old(m.cr3) && m.Active() == oldP4 != newP4 == m.edit
    ensures m.pool.Enough(m.alloc.nextFreeFrame, k)
    ensures IsEmptyRoot(m.mem, newP4)
    ensures Reaches(m.mem, oldP4, OLD_P4_PAGE, oldP4) && OwnsPath(m.own, oldP4, LeafPath(OLD_P4_PAGE))
    ensures Reaches(m.mem, oldP4, NEW_P4_PAGE, newP4) && OldView(old(m.mem), m.mem, oldP4)
    ensures OwnSlot(m.mem, newP4) && newP4 == m.pool.NextFree(old(m.alloc.nextFreeFrame))
  {
    hide SpaceOk, Walk, Coherent, Or, OwnsPath, OldView, Pool.Enough, P4Index, Canonical, Extends, Absent,
         TemporaryTables, TemporariesUnused, Pool.NextFree;
    ghost var start := m.mem;
    newP4, oldP4 := MapTemporaries(m, k);
    ghost var m0, own0 := m.mem, m.own;
    BecomeRoot(m, newP4);
    ghost var m1, w := m.mem, Encode(newP4, Or(PRESENT, WRITEABLE));
    SpaceIsForest(m.pool, m.TheSpace());
    NewOwnerExtends(own0, newP4);
    OwnsPathExtends(own0, m.own, oldP4, LeafPath(OLD_P4_PAGE));
    RedirectKeepsView(m1, m.own, oldP4, w, oldP4);
    RedirectKeepsEmptyRoot(m1, oldP4, w, newP4);
    Redirect(m, newP4);
    SameViewReaches(m0, m1, oldP4, newP4, oldP4);
    SameViewReaches(m1, m.mem, oldP4, newP4, oldP4);
    OldViewTransitive(start, m0, m1, oldP4);
    OldViewTransitive(start, m1, m.mem, oldP4);
  }

  lemma NewOwnerExtends(own: map<nat, Label>, f: nat)
    requires f !in own
    ensures Extends(own, own[f := Label(f, P4)])
  {
  }

  lemma SameViewReaches(m: Memory, m': Memory, root: nat, newP4: nat, oldP4: nat)
    requires SameView(m, m', root)
    requires Reaches(m, root, NEW_P4_PAGE, newP4) && Reaches(m, root, OLD_P4_PAGE, oldP4)
    ensures Reaches(m', root, NEW_P4_PAGE, newP4) && Reaches(m', root, OLD_P4_PAGE, oldP4)
  {
    TemporaryPages();
  }

  // ------------------------------------------------------- the way back

  /** While the new hierarchy is filled, the old one still reaches its own root, and the level-1
      tables of the two pages to be unmapped exist. */
  lemma ImageMapped(pool: Pool, s0: Space, newP4: nat, oldP4: nat, ops: seq<Op>)
    requires CanStart(pool, s0, newP4, ops) && Visits(ops, oldP4)
    requires IsRoot(s0.own, oldP4) && oldP4 != newP4
    requires Reaches(s0.mem, oldP4, OLD_P4_PAGE, oldP4) && OwnsPath(s0.own, oldP4, LeafPath(OLD_P4_PAGE))
    ensures var s := Run(pool, s0, newP4, ops);
      && Reaches(s.mem, oldP4, OLD_P4_PAGE, oldP4) && OwnsPath(s.own, oldP4, LeafPath(OLD_P4_PAGE))
      && OwnsPath(s.own, newP4, LeafPath(oldP4)) && SameView(s0.mem, s.mem, oldP4)
  {
    hide SpaceOk, Run, Walk, CanRun, Flat, Touched, Visits, IsEmptyRoot, OwnsPath;
    var s := Run(pool, s0, newP4, ops);
    TemporaryPages();
    IdentityCanRun(pool, s0, newP4, ops);
    RunOk(pool, s0, newP4, ops);
    forall q | Canonical(q) && P4Index(q) != RECURSIVE
      ensures Walk(s.mem, oldP4, q) == Walk(s0.mem, oldP4, q)
    {
      RunRefinesFlat(pool, s0, newP4, ops, oldP4, q);
    }
    OwnsPathExtends(s0.own, s.own, oldP4, LeafPath(OLD_P4_PAGE));
    VisitedIsTouched(ops, oldP4);
    VisitedIsLower(ops, oldP4);
    VisitedIsOwned(pool, s0, newP4, ops, oldP4);
  }

  /** The tables of a hierarchy are its root and those at some paths. */
  ghost predicate HasTables(own: map<nat, Label>, root: nat, paths: set<Path>) {
    forall p {:trigger OwnsPath(own, root, p)} :: InTree(p) ==> (OwnsPath(own, root, p) <==> p == P4 || p in paths)
  }

  /** The new hierarchy has the tables that its mappings come by. */
  lemma ImageTables(pool: Pool, s0: Space, newP4: nat, ops: seq<Op>)
    requires CanStart(pool, s0, newP4, ops)
    ensures HasTables(Run(pool, s0, newP4, ops).own, newP4, Touched(ops))
  {
    hide SpaceOk, Run, CanRun, Touched, OwnsPath, Locate, IsEmptyRoot;
    var s := Run(pool, s0, newP4, ops);
    IdentityCanRun(pool, s0, newP4, ops);
    RunOk(pool, s0, newP4, ops);
    SpaceIsForest(pool, s);
    forall p {:trigger OwnsPath(s.own, newP4, p)} | InTree(p)
      ensures OwnsPath(s.own, newP4, p) <==> p == P4 || p in Touched(ops)
    {
      LocatedIfOwned(s.mem, s.own, newP4, p);
      RunLocates(pool, s0, newP4, ops, newP4, p);
      EmptyRootLocates(s0.mem, newP4, p);
    }
  }

  lemma EmptyRootLocates(m: Memory, root: nat, path: Path)
    requires IsEmptyRoot(m, root) && InTree(path)
    ensures Locate(m, root, path).Some? <==> path == P4
  {
  }

  /** The new hierarchy is the flat map of the identity mappings. */
  lemma ImageView(pool: Pool, s0: Space, newP4: nat, ops: seq<Op>, q: nat)
    requires CanStart(pool, s0, newP4, ops) && Canonical(q) && P4Index(q) != RECURSIVE
    ensures Walk(Run(pool, s0, newP4, ops).mem, newP4, q) == Flat(ops, q, None)
  {
    hide SpaceOk, Run, Walk, CanRun, Flat;
    IdentityCanRun(pool, s0, newP4, ops);
    EmptyRootMapsNothing(s0.mem, newP4, q);
    RunRefinesFlat(pool, s0, newP4, ops, newP4, q);
  }

  lemma RedirectKeepsView(m: Memory, own: map<nat, Label>, root: nat, w: nat, any: nat)
    requires Forest(m, own) && IsRoot(own, root) && IsRoot(own, any)
    ensures SameView(m, Write(m, root, RECURSIVE, w), any)
  {
    forall q | Canonical(q) && P4Index(q) != RECURSIVE
      ensures Walk(Write(m, root, RECURSIVE, w), any, q) == Walk(m, any, q)
    {
      RedirectKeepsWalks(m, own, root, w, any, q);
    }
  }

  /** Restores the old root's recursive entry through the page kept for it. */
  method RestoreWindow(m: Machine, oldP4: nat)
    requires m.Valid() && m.Active() == oldP4 != m.edit && Reaches(m.mem, oldP4, OLD_P4_PAGE, oldP4)
    modifies m`mem, m`tlb, m`cr3, m`edit
    ensures m.Valid() && m.cr3 == old(m.cr3) && m.edit == oldP4
    ensures m.TheState() == StepEvent(m.pool, old(m.TheState()), Redirected(oldP4))
    ensures SameView(old(m.mem), m.mem, old(m.edit)) && SameView(old(m.mem), m.mem, oldP4)
    ensures m.mem == old(m.mem)[Slot(oldP4, 511) := oldP4 * 4096 + 3]
  {
    hide SpaceOk, Walk, Or, Coherent;
    var w := Encode(oldP4, Or(PRESENT, WRITEABLE));
    RedirectOpensWindow(m.pool, m.TheSpace(), oldP4, oldP4);
    RootIsFrame(m.pool, m.TheSpace(), oldP4);
    SlotWord(oldP4);
    assert Forest(m.mem, m.own) by {
      SpaceIsForest(m.pool, m.TheSpace());
    }
    RedirectKeepsView(m.mem, m.own, oldP4, w, m.edit);
    RedirectKeepsView(m.mem, m.own, oldP4, w, oldP4);
    SlotOfAddress(OLD_P4_PAGE * PAGE_SIZE, RECURSIVE);
    m.Store(OLD_P4_PAGE * PAGE_SIZE + 8 * RECURSIVE, w);
    m.FlushTlb();
    m.edit := oldP4;
  }

  lemma CanUnmap(pool: Pool, s: Space, root: nat, page: nat)
    requires SpaceOk(pool, s) && IsRoot(s.own, root) && OwnsPath(s.own, root, LeafPath(page))
    requires Canonical(page) && P4Index(page) != RECURSIVE
    ensures CanApply(pool, s, root, UnmapOp(page))
  {
    OwnedLeafIsTable(s.mem, s.own, root, page);
  }

  lemma UnmapKeepsPlain(pool: Pool, s: Space, root: nat, page: nat, any: nat)
    requires CanApply(pool, s, root, UnmapOp(page)) && IsRoot(s.own, any)
    ensures var s' := UnmapAt(s, root, page);
      && Read(s'.mem, any, 511) == Read(s.mem, any, 511)
      && (PlainTables(s.mem, s.own, any) ==> PlainTables(s'.mem, s.own, any))
  {
    hide PlainTables, SpaceOk, Read;
    ApplyKeepsSlot(pool, s, root, UnmapOp(page), any);
    if PlainTables(s.mem, s.own, any) {
      ApplyKeepsPlain(pool, s, root, UnmapOp(page), any);
    }
  }

  /** Unmapping a page of one hierarchy leaves another one, and its recursive entry, alone. */
  lemma UnmapElsewhere(pool: Pool, s: Space, root: nat, page: nat, any: nat)
    requires CanApply(pool, s, root, UnmapOp(page)) && IsRoot(s.own, any)
    ensures var s' := UnmapAt(s, root, page);
      && s'.own == s.own && Read(s'.mem, any, 511) == Read(s.mem, any, 511)
      && (PlainTables(s.mem, s.own, any) ==> PlainTables(s'.mem, s.own, any))
      && SpaceOk(pool, s') && (any != root ==> SameView(s.mem, s'.mem, any))
  {
    hide PlainTables;
    UnmapKeepsPlain(pool, s, root, page, any);
    ApplyOk(pool, s, root, UnmapOp(page));
    TableIsLabelled(s.mem, s.own, root, page);
    var s' := UnmapAt(s, root, page);
    if any != root {
      forall q | Canonical(q) && P4Index(q) != RECURSIVE
        ensures Walk(s'.mem, any, q) == Walk(s.mem, any, q)
      {
        ApplyIsPointUpdate(pool, s, root, UnmapOp(page), any, q);
      }
    }
  }

  /** The hierarchy without one page. */
  ghost predicate ViewWithout(m: Memory, m': Memory, root: nat, page: nat) {
    forall q :: Canonical(q) && P4Index(q) != RECURSIVE ==>
      Walk(m', root, q) == if q == page then None else Walk(m, root, q)
  }

  lemma UnmapRemovesOne(pool: Pool, s: Space, root: nat, page: nat)
    requires CanApply(pool, s, root, UnmapOp(page))
    ensures ViewWithout(s.mem, UnmapAt(s, root, page).mem, root, page)
  {
    forall q | Canonical(q) && P4Index(q) != RECURSIVE
      ensures Walk(UnmapAt(s, root, page).mem, root, q) == if q == page then None else Walk(s.mem, root, q)
    {
      ApplyIsPointUpdate(pool, s, root, UnmapOp(page), root, q);
    }
  }

  /** Makes a root with its own recursive entry the active hierarchy. */
  method SwitchTo(m: Machine, newP4: nat)
    requires m.Valid() && IsRoot(m.own, newP4) && Step(m.mem, newP4, RECURSIVE) == Some(newP4)
    modifies m`cr3, m`tlb, m`edit
    ensures m.Valid() && m.cr3 == newP4 * PAGE_SIZE && m.Active() == m.edit == newP4
    ensures m.TheState() == StepEvent(m.pool, old(m.TheState()), Switched(newP4))
  {
    assert newP4 < FRAMES by {
      SpaceIsForest(m.pool, m.TheSpace());
      assert LabelOk(m.mem, m.own, newP4);
    }
    FieldOfAddress(newP4);
    m.WriteCr3(newP4 * PAGE_SIZE);
    m.FlushTlb();
    m.edit := newP4;
  }

  /** From the restored window to the guard page. */
  method FinishRemap(m: Machine, newP4: nat, oldP4: nat)
    requires m.Valid() && m.Active() == oldP4 != newP4 == m.edit && oldP4 < LOWER_HALF
    requires Reaches(m.mem, oldP4, OLD_P4_PAGE, oldP4) && OwnsPath(m.own, oldP4, LeafPath(OLD_P4_PAGE))
    requires OwnsPath(m.own, newP4, LeafPath(oldP4)) && OwnSlot(m.mem, newP4) && PlainTables(m.mem, m.own, newP4)
    modifies m`mem, m`tlb, m`cr3, m`edit
    ensures m.Valid() && m.cr3 == newP4 * 4096 && m.Active() == m.edit == newP4
    ensures ViewWithout(old(m.mem), m.mem, newP4, oldP4) && ViewWithout(old(m.mem), m.mem, oldP4, OLD_P4_PAGE)
    ensures OwnSlot(m.mem, newP4) && OwnSlot(m.mem, oldP4) && PlainTables(m.mem, m.own, newP4)
  {
    hide SpaceOk, Walk, Coherent, CanApply, OwnsPath, UnmapAt, Canonical, PlainTables, Read, ViewWithout, SameView;
    TemporaryPages();
    ghost var m0 := m.mem;
    RestoreKeepsTables(m.pool, m.TheSpace(), oldP4, newP4);
    RestoreWindow(m, oldP4);
    ghost var m1 := m.mem;
    CanUnmap(m.pool, m.TheSpace(), oldP4, OLD_P4_PAGE);
    UnmapElsewhere(m.pool, m.TheSpace(), oldP4, OLD_P4_PAGE, newP4);
    UnmapElsewhere(m.pool, m.TheSpace(), oldP4, OLD_P4_PAGE, oldP4);
    UnmapRemovesOne(m.pool, m.TheSpace(), oldP4, OLD_P4_PAGE);
    m.UnmapPage(OLD_P4_PAGE);
    ghost var m2 := m.mem;
    RootIsFrame(m.pool, m.TheSpace(), newP4);
    OwnSlotLeadsBack(m.mem, newP4);
    SwitchTo(m, newP4);
    LowerHalfPage(oldP4);
    CanUnmap(m.pool, m.TheSpace(), newP4, oldP4);
    UnmapRemovesOne(m.pool, m.TheSpace(), newP4, oldP4);
    UnmapElsewhere(m.pool, m.TheSpace(), newP4, oldP4, newP4);
    UnmapElsewhere(m.pool, m.TheSpace(), newP4, oldP4, oldP4);
    m.UnmapPage(oldP4);
    ViewsOfFinish(m0, m1, m2, m.mem, newP4, oldP4);
  }

  lemma ViewsOfFinish(m0: Memory, m1: Memory, m2: Memory, m3: Memory, newP4: nat, oldP4: nat)
    requires SameView(m0, m1, newP4) && SameView(m1, m2, newP4) && ViewWithout(m2, m3, newP4, oldP4)
    requires SameView(m0, m1, oldP4) && ViewWithout(m1, m2, oldP4, OLD_P4_PAGE) && SameView(m2, m3, oldP4)
    ensures ViewWithout(m0, m3, newP4, oldP4) && ViewWithout(m0, m3, oldP4, OLD_P4_PAGE)
  {
  }

  lemma OwnSlotLeadsBack(m: Memory, root: nat)
    requires OwnSlot(m, root) && root < FRAMES
    ensures Step(m, root, RECURSIVE) == Some(root)
  {
    TableFlags();
    EncodeDecodes(root, 3);
  }

  lemma RestoreKeepsTables(pool: Pool, s: Space, oldP4: nat, newP4: nat)
    requires SpaceOk(pool, s) && IsRoot(s.own, oldP4) && PlainTables(s.mem, s.own, newP4) && OwnSlot(s.mem, newP4)
    requires oldP4 != newP4
    ensures var m' := s.mem[Slot(oldP4, 511) := oldP4 * 4096 + 3];
      PlainTables(m', s.own, newP4) && OwnSlot(m', newP4) && OwnSlot(m', oldP4)
  {
    WriteKeepsPlain(s.mem, s.own, oldP4, 511, oldP4 * 4096 + 3, newP4);
  }

  lemma LowerHalfPage(page: nat)
    requires page < LOWER_HALF
    ensures Canonical(page) && P4Index(page) != RECURSIVE
  {
  }

  // ------------------------------------------------------------ remap_kernel

  /** What the kernel relies on, with k frames to spare: the two temporary pages are unused, the
      image satisfies the source's assertions, the old level-4 table lies on a page of it, and
      there are frames for the new root and for the tables that are missing, in the old hierarchy
      for the temporary pages and in the new one for the image. What the first frame to be
      handed out holds does not matter. */
  ghost predicate CanRemap(m: Machine, sections: seq<Section>, start: nat, totalSize: nat, k: nat)
    reads m, m.alloc
  {
    && m.Starting() && m.edit == m.Active() && m.cr3 < FRAMES * PAGE_SIZE && TemporariesUnused(m.mem, m.Active())
    && ImageOk(sections, start, totalSize) && ImageHasPage(sections, start, totalSize, m.Active())
    && m.pool.Enough(m.alloc.nextFreeFrame, 1 + |Absent(m.mem, m.Active(), TemporaryTables())|
                                              + (|Touched(RemapOps(sections, start, totalSize))| + k))
  }

  /** The new address space: every page of the image but the guard page maps to itself, with
      the flags of the last mapping that visits it, and nothing else outside the recursive
      slot is mapped. */
  ghost predicate IsImageView(m: Memory, root: nat, sections: seq<Section>, start: nat, totalSize: nat, guard: nat) {
    forall q :: Canonical(q) && P4Index(q) != RECURSIVE ==>
      var t := Walk(m, root, q);
      && (t.Some? <==> q != guard && ImageHasPage(sections, start, totalSize, q))
      && (t.Some? ==> t.value.frame == q && t == Flat(RemapOps(sections, start, totalSize), q, None))
  }

  method RemapKernel(m: Machine, sections: seq<Section>, start: nat, totalSize: nat, ghost k: nat)
    requires CanRemap(m, sections, start, totalSize, k)
    modifies m, m.alloc
    ensures m.Valid() && m.Active() == m.edit != old(m.Active()) && m.pool.Enough(m.alloc.nextFreeFrame, k)
    ensures m.Active() == m.pool.NextFree(old(m.alloc.nextFreeFrame)) && m.cr3 == m.Active() * 4096
    ensures OwnSlot(m.mem, m.Active())
    ensures IsImageView(m.mem, m.Active(), sections, start, totalSize, old(m.Active()))
    // the tables of the new hierarchy are those on the way to the pages of the image
    ensures HasTables(m.own, m.Active(), Touched(RemapOps(sections, start, totalSize)))
    // they restrict neither writing nor execution
    ensures PlainTables(m.mem, m.own, m.Active())
    // the old address space is left with its recursive slot restored and one page more
    ensures OldView(old(m.mem), m.mem, old(m.Active())) && OwnSlot(m.mem, old(m.Active()))
    ensures Walk(m.mem, old(m.Active()), 0xdeadbeef) == Some(Mapping(m.Active(), m.Active() * 4096 + 3))
    ensures Walk(m.mem, old(m.Active()), 0xdddd0000).None?
  {
    hide Ok, SpaceOk, CanStart, Run, RemapOps, ImageOk, ImageHasPage, AllIdentity, Visits, Reaches, OwnsPath,
         IsEmptyRoot, IsImageView, ViewWithout, OldView, SameView, Walk, Step, Spare, Pool.Enough,
         Pool.NextFree, Touched, Absent, TemporaryTables, TemporariesUnused, HasTables, PlainTables, OwnSlot, Read;
    ghost var ops := RemapOps(sections, start, totalSize);
    ghost var first := m.mem;
    var newP4, oldP4 := PrepareNewRoot(m, |Touched(ops)| + k);
    ghost var s0 := m.TheSpace();
    RemapOpsAreIdentity(sections, start, totalSize);
    StartsRemapping(m.pool, s0, oldP4, newP4, m.tlb, ops, k);
    VisitsImage(sections, start, totalSize, oldP4);
    ImageMapped(m.pool, s0, newP4, oldP4, ops);
    ImageTables(m.pool, s0, newP4, ops);
    ImageIsPlain(m.pool, s0, newP4, ops);
    MapImage(m, sections, start, totalSize, s0);
    FramesLeft(m.pool, s0, newP4, ops, k);
    VisitedIsLower(ops, oldP4);
    ghost var image := m.mem;
    FinishRemap(m, newP4, oldP4);
    OldSpaceAtEnd(first, s0.mem, image, m.mem, oldP4, newP4);
    ImageIsView(m.pool, s0, newP4, sections, start, totalSize, m.mem, oldP4);
  }

  /** Filling the new hierarchy leaves its recursive slot alone and creates plain tables only. */
  lemma ImageIsPlain(pool: Pool, s0: Space, newP4: nat, ops: seq<Op>)
    requires CanStart(pool, s0, newP4, ops) && OwnSlot(s0.mem, newP4)
    ensures var s := Run(pool, s0, newP4, ops); PlainTables(s.mem, s.own, newP4) && OwnSlot(s.mem, newP4)
  {
    hide Run, CanRun, Touched, Read, PlainTables, Forest;
    EmptyRootIsPlain(s0.mem, s0.own, newP4) by {
      SpaceIsForest(pool, s0);
    }
    IdentityCanRun(pool, s0, newP4, ops);
    RunKeepsPlain(pool, s0, newP4, ops, newP4);
  }

  lemma OldSpaceAtEnd(m0: Memory, m1: Memory, m2: Memory, m3: Memory, oldP4: nat, newP4: nat)
    requires OldView(m0, m1, oldP4) && SameView(m1, m2, oldP4) && ViewWithout(m2, m3, oldP4, OLD_P4_PAGE)
    requires Reaches(m1, oldP4, NEW_P4_PAGE, newP4)
    ensures OldView(m0, m3, oldP4) && Walk(m3, oldP4, OLD_P4_PAGE).None?
    ensures Walk(m3, oldP4, NEW_P4_PAGE) == Some(Mapping(newP4, newP4 * 4096 + 3))
  {
    TemporaryPages();
  }

  lemma StartsRemapping(pool: Pool, s0: Space, active: nat, edit: nat, tlb: Cache, ops: seq<Op>, k: nat)
    requires Ok(pool, s0, active, edit, tlb) && IsEmptyRoot(s0.mem, edit) && AllIdentity(ops)
    requires pool.Enough(s0.next, |Touched(ops)| + k)
    ensures CanStart(pool, s0, edit, ops) && IsRoot(s0.own, active) && Run(pool, s0, edit, []) == s0
  {
    EnoughForFewer(pool, s0.next, |Touched(ops)| + k, |Touched(ops)|);
  }

  lemma FramesLeft(pool: Pool, s0: Space, root: nat, ops: seq<Op>, k: nat)
    requires CanStart(pool, s0, root, ops) && pool.Enough(s0.next, |Touched(ops)| + k)
    ensures pool.Enough(Run(pool, s0, root, ops).next, k)
  {
    hide SpaceOk, CanRun, Run, Touched, IsEmptyRoot, AllIdentity, Absent;
    IdentityCanRun(pool, s0, root, ops);
    EmptyRootLacksAll(s0.mem, root, ops);
    RunOk(pool, s0, root, ops);
    EnoughSplits(pool, s0.next, |Touched(ops)|, k);
  }

  lemma VisitedIsLower(ops: seq<Op>, page: nat)
    requires AllIdentity(ops) && Visits(ops, page)
    ensures page < LOWER_HALF && P4Index(page) != RECURSIVE
  {
    var k :| 0 <= k < |ops| && ops[k].page == page;
    assert IsIdentity(ops[k]);
  }

  lemma ImageIsView(pool: Pool, s0: Space, newP4: nat, sections: seq<Section>, start: nat, totalSize: nat,
                    m: Memory, guard: nat)
    requires var ops := RemapOps(sections, start, totalSize);
      CanStart(pool, s0, newP4, ops) && ViewWithout(Run(pool, s0, newP4, ops).mem, m, newP4, guard)
    ensures IsImageView(m, newP4, sections, start, totalSize, guard)
  {
    hide Run, Walk, Flat, ImageHasPage, RemapOps, SpaceOk, IsEmptyRoot, Touched;
    var ops := RemapOps(sections, start, totalSize);
    forall q | Canonical(q) && P4Index(q) != RECURSIVE
      ensures Walk(m, newP4, q).Some? <==> q != guard && ImageHasPage(sections, start, totalSize, q)
      ensures Walk(m, newP4, q).Some? ==> Walk(m, newP4, q).value.frame == q && Walk(m, newP4, q) == Flat(ops, q, None)
    {
      ImageView(pool, s0, newP4, ops, q);
      FlatOfIdentity(ops, q);
      VisitsImage(sections, start, totalSize, q);
    }
  }
}
