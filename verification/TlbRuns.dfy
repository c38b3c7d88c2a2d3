/** Translation-cache coherence over whole runs: everything the kernel does to its page tables, the
    redirection of the recursive slot and the switch of hierarchy included, interleaved with
    anything the processor may do to its cache. */
module TlbRuns {
  import opened Bits
  import opened FrameAllocator
  import opened Mmu
  import opened PageTables
  import opened Tlb
  import opened Hierarchies

  /** Memory and its tables, the cache, the active hierarchy, and the one the window shows. */
  datatype State = State(space: Space, tlb: Cache, active: nat, edit: nat)

  datatype Event =
    // the processor changes its cache
    | Cached(tlb: Cache)
    // a page is mapped or unmapped in the hierarchy being edited
    | Performed(op: Op)
    // a frame is taken, and a word is written to a frame that is no table
    | Taken
    | Stored(frame: nat, index: nat, word: nat)
    // such a frame becomes the root of a new hierarchy
    | Adopted(frame: nat)
    // the active recursive slot is pointed at a root, or a root becomes the active one
    | Redirected(root: nat)
    | Switched(root: nat)

  /** Mapping, storing and adopting leave the cache alone; unmapping, redirecting and switching
      flush it. */
  function StepEvent(pool: Pool, s: State, e: Event): State {
    match e
    case Cached(tlb) => s.(tlb := tlb)
    case Performed(op) => s.(space := Apply(pool, s.space, s.edit, op), tlb := if op.MapOp? then s.tlb else map[])
    case Taken => s.(space := s.space.(next := pool.NextFree(s.space.next) + 1))
    case Stored(f, i, w) => s.(space := s.space.(mem := Write(s.space.mem, f, i, w)))
    case Adopted(f) => s.(space := s.space.(own := s.space.own[f := Label(f, P4)]))
    case Redirected(root) =>
      var m := Write(s.space.mem, s.active, RECURSIVE, Encode(root, Or(PRESENT, WRITEABLE)));
      s.(space := s.space.(mem := m), tlb := map[], edit := root)
    case Switched(root) => s.(tlb := map[], active := root, edit := root)
  }

  /** What each event asks for: above all, that only unused pages are mapped in the active
      hierarchy. */
  ghost predicate MayHappen(pool: Pool, s: State, e: Event) {
    var m, own := s.space.mem, s.space.own;
    match e
    case Cached(tlb) => MayBecome(m, s.active, s.tlb, tlb)
    case Performed(op) =>
      && OpOk(op) && Open(m, s.edit, op.page) && CanPay(pool, s.space, s.edit, op)
      && (op.UnmapOp? ==> HasTable(m, s.edit, op.page))
      && (op.MapOp? && s.edit == s.active ==> Walk(m, s.active, op.page).None?)
    case Taken => pool.NextFree(s.space.next) <= pool.top
    case Stored(f, _, _) => Spare(s.space, f)
    case Adopted(f) => Spare(s.space, f) && f < FRAMES && IsEmptyRoot(m, f)
    case Redirected(root) => IsRoot(own, root) && (root == s.active || Step(m, root, RECURSIVE) == Some(root))
    case Switched(root) => IsRoot(own, root) && Step(m, root, RECURSIVE) == Some(root)
  }

  /** The same but for what the cache holds. */
  predicate Matches(s: State, s': State) {
    s.space == s'.space && s.active == s'.active && s.edit == s'.edit
  }

  ghost predicate StateOk(pool: Pool, s: State) {
    Ok(pool, s.space, s.active, s.edit, s.tlb)
  }

  function RunEvents(pool: Pool, s: State, events: seq<Event>): State {
    if events == [] then s
    else StepEvent(pool, RunEvents(pool, s, events[..|events| - 1]), events[|events| - 1])
  }

  ghost predicate LegalEvents(pool: Pool, s: State, events: seq<Event>) {
    events == [] ||
    var before := events[..|events| - 1];
    LegalEvents(pool, s, before) && MayHappen(pool, RunEvents(pool, s, before), events[|events| - 1])
  }

  /** Looking tables up and creating them needs no flush. */
  lemma MapTablesKeepsOk(pool: Pool, s: Space, active: nat, edit: nat, tlb: Cache, page: nat)
    requires Ok(pool, s, active, edit, tlb) && CanMap(pool, s, edit, page) && CanPayFor(pool, s, edit, page)
    ensures Ok(pool, MapTables(pool, s, edit, page), active, edit, tlb)
  {
    hide Ok, SpaceOk, EnsureTable, CanEnsure, Open, Missing, Pool.Enough;
    var a, b, c := P4Index(page), P3Index(page), P2Index(page);
    var s1, s2 := MapP3(pool, s, edit, page), MapP2(pool, s, edit, page);
    MapP2Ok(pool, s, edit, page);
    MapTablesOk(pool, s, edit, page);
    EnsureTableKeepsOk(pool, s, active, edit, tlb, edit, a, Label(edit, P3(a)));
    EnsureTableKeepsOk(pool, s1, active, edit, tlb, TableP3(s1, edit, page), b, Label(edit, P2(a, b)));
    EnsureTableKeepsOk(pool, s2, active, edit, tlb, TableP2(s2, edit, page), c, Label(edit, LeafPath(page)));
  }

  lemma ApplyKeepsOk(pool: Pool, s: State, op: Op)
    requires StateOk(pool, s) && MayHappen(pool, s, Performed(op))
    ensures StateOk(pool, StepEvent(pool, s, Performed(op)))
  {
    hide SpaceOk, Open, Missing, Pool.Enough, Walk, Coherent, HasTable;
    var p := Prepared(pool, s.space, s.edit, op);
    PreparedOk(pool, s.space, s.edit, op);
    if op.MapOp? {
      MapTablesKeepsOk(pool, s.space, s.active, s.edit, s.tlb, op.page);
      MapTablesKeepsWalks(pool, s.space, s.edit, op.page, s.active, op.page);
      MapLeafKeepsOk(pool, p, s.active, s.edit, s.tlb, op.page, Word(op));
    } else {
      LeafWriteKeepsOk(pool, p, s.active, s.edit, s.tlb, op.page, Word(op));
      NothingCached(p.mem, s.active);
      NothingCached(Apply(pool, s.space, s.edit, op).mem, s.active);
    }
  }

  /** The events that move between hierarchies. */
  lemma HierarchyEventKeepsOk(pool: Pool, s: State, e: Event)
    requires StateOk(pool, s) && MayHappen(pool, s, e)
    requires e.Taken? || e.Stored? || e.Adopted? || e.Redirected? || e.Switched?
    ensures StateOk(pool, StepEvent(pool, s, e))
  {
    match e
    case Taken =>
    case Stored(f, i, w) =>
      SpareWriteKeepsOk(pool, s.space, s.active, s.edit, s.tlb, f, i, w);
    case Adopted(f) =>
      NewRootKeepsOk(pool, s.space, s.active, s.edit, s.tlb, f);
    case Redirected(root) =>
      RedirectOpensWindow(pool, s.space, s.active, root);
    case Switched(root) =>
  }

  /** Safety over all runs: whatever the processor caches and whenever, every cached translation
      agrees with the current walk after every event. */
  lemma {:induction false} CacheStaysCoherent(pool: Pool, s: State, events: seq<Event>)
    requires StateOk(pool, s) && LegalEvents(pool, s, events)
    ensures var s' := RunEvents(pool, s, events);
      StateOk(pool, s') && Coherent(s'.space.mem, s'.active, s'.tlb, {})
  {
    hide SpaceOk, StepEvent, MayHappen, Coherent;
    if events != [] {
      var before, e := events[..|events| - 1], events[|events| - 1];
      CacheStaysCoherent(pool, s, before);
      EventKeepsOk(pool, RunEvents(pool, s, before), e);
    }
  }

  lemma EventKeepsOk(pool: Pool, s: State, e: Event)
    requires StateOk(pool, s) && MayHappen(pool, s, e)
    ensures StateOk(pool, StepEvent(pool, s, e))
  {
    hide SpaceOk, Coherent, Windowed;
    if e.Cached? {
      MayBecomeKeepsCoherent(s.space.mem, s.active, s.tlb, e.tlb, {});
    } else if e.Performed? {
      ApplyKeepsOk(pool, s, e.op);
    } else {
      HierarchyEventKeepsOk(pool, s, e);
    }
  }

  // -------------------------------------------------------- why it flushes

  /** Without its flush, unmap_page leaves the cache coherent exactly when the page was not
      cached. */
  lemma UnmapNeedsFlush(pool: Pool, s: Space, root: nat, tlb: Cache, page: nat)
    requires Ok(pool, s, root, root, tlb) && CanApply(pool, s, root, UnmapOp(page))
    ensures Coherent(UnmapAt(s, root, page).mem, root, tlb, {}) <==> page !in tlb
  {
    hide SpaceOk, Walk, Open;
    PreparedOk(pool, s, root, UnmapOp(page));
    LeafWriteKeepsOk(pool, s, root, root, tlb, page, 0);
    SpaceIsForest(pool, s);
    LeafWriteSets(s, root, page, 0);
  }

  /** And there is such a cache for every mapped page: the processor may have cached it. */
  lemma MappedPageMayBeCached(pool: Pool, s: Space, root: nat, tlb: Cache, page: nat)
    requires Ok(pool, s, root, root, tlb) && CanApply(pool, s, root, UnmapOp(page)) && Walk(s.mem, root, page).Some?
    ensures var tlb' := tlb[page := Walk(s.mem, root, page).value];
      MayBecome(s.mem, root, tlb, tlb') && !Coherent(UnmapAt(s, root, page).mem, root, tlb', {})
  {
    hide SpaceOk, Walk, Open, Windowed;
    var tlb' := tlb[page := Walk(s.mem, root, page).value];
    MayBecomeKeepsCoherent(s.mem, root, tlb, tlb', {});
    UnmapNeedsFlush(pool, s, root, tlb', page);
  }

  /** map_page_to_frame does not flush after its last store: on a page of the active hierarchy that
      is in use already, the cache stays coherent exactly when the page was not cached, or maps
      as it did before. */
  lemma MapNeedsUnusedPage(pool: Pool, s: Space, root: nat, tlb: Cache, op: Op)
    requires Ok(pool, s, root, root, tlb) && op.MapOp? && CanApply(pool, s, root, op) && CanPay(pool, s, root, op)
    ensures Coherent(Apply(pool, s, root, op).mem, root, tlb, {})
       <==> op.page !in tlb || Outcome(op) == Some(tlb[op.page])
  {
    hide SpaceOk, Walk, Open, Windowed, Missing, Pool.Enough, Outcome;
    PreparedOk(pool, s, root, op);
    MapTablesKeepsOk(pool, s, root, root, tlb, op.page);
    LeafWriteKeepsOk(pool, MapTables(pool, s, root, op.page), root, root, tlb, op.page, Word(op));
    ApplyIsPointUpdate(pool, s, root, op, root, op.page);
  }
}
