/** The mapping loop of init_heap: 25 pages from 1 GiB upwards, each on a frame of its own. */
module HeapPages {
  import opened Bits
  import opened FrameAllocator
  import opened Mmu
  import opened PageTables
  import opened Tlb
  import opened Hierarchies
  import opened Paging
  import opened Permissions

  const HEAP_START: nat := 4096 * 512 * 512
  const HEAP_SIZE: nat := 100 * 1024
  const HEAP_PAGE: nat := HEAP_START / PAGE_SIZE
  const HEAP_PAGES: nat := 25

  function HeapFlags(): nat { Or(PRESENT, WRITEABLE) }

  /** map_page with the flags of the heap. */
  function MapFresh(pool: Pool, s: Space, root: nat, page: nat): Space {
    MapPageAt(pool, s, root, page, HeapFlags())
  }

  /** The page is mapped to the frame, present and writeable. */
  ghost predicate MappedTo(m: Memory, root: nat, page: nat, frame: nat) {
    Walk(m, root, page) == Some(Mapping(frame, frame * PAGE_SIZE + 3))
  }

  lemma HeapFlagWord(frame: nat)
    requires frame < FRAMES
    ensures IsFlags(HeapFlags()) && Encode(frame, Or(PRESENT, HeapFlags())) == frame * PAGE_SIZE + 3
  {
    TableFlags();
    assert Or(1, 3) == 3;
    EncodeIsSum(frame, 3);
  }

  /** The space after the frame is taken, and the mapping that follows. */
  function FreshSpace(pool: Pool, s: Space): Space { s.(next := pool.NextFree(s.next) + 1) }

  function FreshOp(pool: Pool, s: Space, page: nat): Op { MapOp(page, pool.NextFree(s.next), HeapFlags()) }

  /** There is a frame for the page and one for each of its missing tables. */
  predicate CanPayFresh(pool: Pool, s: Space, root: nat, page: nat) {
    pool.Enough(s.next, 1 + Missing(s.mem, root, page))
  }

  lemma FreshCanApply(pool: Pool, s: Space, root: nat, page: nat)
    requires CanMap(pool, s, root, page) && Canonical(page) && CanPayFresh(pool, s, root, page)
    ensures var frame, s1, op := pool.NextFree(s.next), FreshSpace(pool, s), FreshOp(pool, s, page);
      && CanApply(pool, s1, root, op) && CanPay(pool, s1, root, op)
      && frame <= pool.top && MapFresh(pool, s, root, page) == Apply(pool, s1, root, op)
      && frame >= s.next && !pool.Reserved(frame) && Spare(s1, frame)
      && Outcome(op) == Some(Mapping(frame, frame * PAGE_SIZE + 3))
  {
    hide SpaceOk, Missing, CanMap, CanApply, And, Or, MapAt;
    var frame := pool.NextFree(s.next);
    HeapFlagWord(0);
    AllocationKeepsMappable(pool, s, root, page, HeapFlags());
    HeapFlagWord(frame);
    NewFrameIsNoTable(pool, s) by {
      MappableIsOk(pool, s, root, page);
    }
  }

  lemma MappableIsOk(pool: Pool, s: Space, root: nat, page: nat)
    requires CanMap(pool, s, root, page)
    ensures SpaceOk(pool, s) && IsRoot(s.own, root) && P4Index(page) != RECURSIVE
  {
  }

  /** One call maps its page to a frame that no earlier call handed out and that never becomes
      a table, and leaves none of the page's tables missing. */
  lemma MapFreshOk(pool: Pool, s: Space, root: nat, page: nat)
    requires CanMap(pool, s, root, page) && Canonical(page) && CanPayFresh(pool, s, root, page)
    ensures var s', frame := MapFresh(pool, s, root, page), pool.NextFree(s.next);
      && SpaceOk(pool, s') && IsRoot(s'.own, root) && MappedTo(s'.mem, root, page, frame)
      && Missing(s'.mem, root, page) == 0 && s'.next == pool.Advance(s.next, 1 + Missing(s.mem, root, page))
      && frame >= s.next && !pool.Reserved(frame) && Spare(s', frame)
  {
    hide SpaceOk, Walk, Apply, HeapFlags, CanApply, CanPay, CanPayFresh, CanMap, Pool.NextFree, Outcome,
         Canonical, P4Index, Missing, MapFresh;
    FreshCanApply(pool, s, root, page);
    MappableIsOk(pool, s, root, page);
    var frame, s1, op := pool.NextFree(s.next), FreshSpace(pool, s), FreshOp(pool, s, page);
    ApplyOk(pool, s1, root, op);
    ApplyLeavesNoneMissing(pool, s1, root, op);
    ApplyKeepsSpare(pool, s1, root, op, frame);
    ApplyIsPointUpdate(pool, s1, root, op, root, page);
    assert pool.Advance(s.next, 1 + Missing(s.mem, root, page)) == pool.Advance(frame + 1, Missing(s.mem, root, page));
  }

  lemma ApplyLeavesNoneMissing(pool: Pool, s: Space, root: nat, op: Op)
    requires CanApply(pool, s, root, op) && CanPay(pool, s, root, op) && op.MapOp?
    ensures Missing(Apply(pool, s, root, op).mem, root, op.page) == 0
  {
    hide SpaceOk, Apply, CanPay, Locate, Open;
    ApplyLocates(pool, s, root, op, root, P3(P4Index(op.page)));
    ApplyLocates(pool, s, root, op, root, P2(P4Index(op.page), P3Index(op.page)));
    ApplyLocates(pool, s, root, op, root, LeafPath(op.page));
  }

  /** All other pages keep their translations. */
  lemma MapFreshElsewhere(pool: Pool, s: Space, root: nat, page: nat, q: nat, f: nat)
    requires CanMap(pool, s, root, page) && Canonical(page) && CanPayFresh(pool, s, root, page)
    requires Canonical(q) && P4Index(q) != RECURSIVE && q != page
    ensures var s' := MapFresh(pool, s, root, page);
      && Walk(s'.mem, root, q) == Walk(s.mem, root, q)
      && (Spare(s, f) ==> Spare(s', f))
  {
    hide SpaceOk, Walk, Apply, HeapFlags, CanApply, CanPay, CanPayFresh, CanMap, Outcome, Canonical, P4Index, MapFresh;
    FreshCanApply(pool, s, root, page);
    MappableIsOk(pool, s, root, page);
    var s1, op := FreshSpace(pool, s), FreshOp(pool, s, page);
    ApplyIsPointUpdate(pool, s1, root, op, root, q);
    if Spare(s, f) {
      ApplyKeepsSpare(pool, s1, root, op, f);
    }
  }

  /** Pages from HEAP_PAGE on are mapped, in order, to these frames. */
  ghost predicate HeapMapped(s: Space, root: nat, frames: seq<nat>) {
    forall k :: 0 <= k < |frames| ==> MappedTo(s.mem, root, HEAP_PAGE + k, frames[k]) && Spare(s, frames[k])
  }

  /** Distinct frames, none of them reserved, none handed out before n. */
  ghost predicate FreshFrames(pool: Pool, frames: seq<nat>, n: nat) {
    && (forall k :: 0 <= k < |frames| ==> n <= frames[k] && !pool.Reserved(frames[k]))
    && (forall j, k :: 0 <= j < k < |frames| ==> frames[j] < frames[k])
  }

  ghost predicate OthersKept(m: Memory, m': Memory, root: nat, upTo: nat) {
    forall q: nat :: Canonical(q) && P4Index(q) != RECURSIVE && !(HEAP_PAGE <= q < HEAP_PAGE + upTo) ==>
      Walk(m', root, q) == Walk(m, root, q)
  }

  /** The pages of the heap are canonical, and share their tables. */
  lemma HeapPagesAreCanonical(k: nat)
    requires k < HEAP_PAGES
    ensures Canonical(HEAP_PAGE + k) && P4Index(HEAP_PAGE + k) != RECURSIVE
    ensures P4Index(HEAP_PAGE + k) == P4Index(HEAP_PAGE) && P3Index(HEAP_PAGE + k) == P3Index(HEAP_PAGE)
    ensures P2Index(HEAP_PAGE + k) == P2Index(HEAP_PAGE)
  {
  }

  /** The n-th heap page can be mapped to a fresh frame. */
  ghost predicate CanNext(pool: Pool, s: Space, root: nat, n: nat) {
    CanMap(pool, s, root, HEAP_PAGE + n) && CanPayFresh(pool, s, root, HEAP_PAGE + n)
  }

  /** The pages mapped before stay mapped, and the next page joins them. */
  lemma HeapStepMapped(pool: Pool, s: Space, root: nat, frames: seq<nat>)
    requires |frames| < HEAP_PAGES && CanNext(pool, s, root, |frames|)
    requires HeapMapped(s, root, frames)
    ensures HeapMapped(MapFresh(pool, s, root, HEAP_PAGE + |frames|), root, frames + [pool.NextFree(s.next)])
    ensures forall k :: 0 <= k < |frames| ==> frames[k] < s.next
    ensures s.next <= MapFresh(pool, s, root, HEAP_PAGE + |frames|).next
    ensures s.next <= pool.NextFree(s.next) && !pool.Reserved(pool.NextFree(s.next))
  {
    hide CanMap, CanPayFresh, Walk, MapFresh, Canonical, P4Index;
    var n := |frames|;
    var page, s', frames' := HEAP_PAGE + n, MapFresh(pool, s, root, HEAP_PAGE + n), frames + [pool.NextFree(s.next)];
    HeapPagesAreCanonical(n);
    MapFreshOk(pool, s, root, page);
    forall k | 0 <= k < n
      ensures MappedTo(s'.mem, root, HEAP_PAGE + k, frames'[k]) && Spare(s', frames'[k])
    {
      HeapPagesAreCanonical(k);
      assert MappedTo(s.mem, root, HEAP_PAGE + k, frames[k]) && Spare(s, frames[k]);
      MapFreshElsewhere(pool, s, root, page, HEAP_PAGE + k, frames[k]);
    }
    forall k | 0 <= k < n
      ensures frames[k] < s.next
    {
      assert Spare(s, frames[k]);
    }
  }

  lemma HeapStepOthers(pool: Pool, m0: Memory, s: Space, root: nat, n: nat)
    requires n < HEAP_PAGES && CanNext(pool, s, root, n)
    requires OthersKept(m0, s.mem, root, n)
    ensures OthersKept(m0, MapFresh(pool, s, root, HEAP_PAGE + n).mem, root, n + 1)
  {
    hide CanMap, CanPayFresh, Walk, MapFresh, Canonical, P4Index;
    var s' := MapFresh(pool, s, root, HEAP_PAGE + n);
    HeapPagesAreCanonical(n);
    forall q: nat | Canonical(q) && P4Index(q) != RECURSIVE && !(HEAP_PAGE <= q < HEAP_PAGE + n + 1)
      ensures Walk(s'.mem, root, q) == Walk(m0, root, q)
    {
      MapFreshElsewhere(pool, s, root, HEAP_PAGE + n, q, 0);
    }
  }

  /** The step of the loop. */
  lemma HeapStep(pool: Pool, s0: Space, s: Space, root: nat, frames: seq<nat>)
    requires |frames| < HEAP_PAGES && CanNext(pool, s, root, |frames|)
    requires HeapMapped(s, root, frames) && FreshFrames(pool, frames, s0.next)
    requires OthersKept(s0.mem, s.mem, root, |frames|) && s0.next <= s.next
    ensures var s' := MapFresh(pool, s, root, HEAP_PAGE + |frames|);
      var frames' := frames + [pool.NextFree(s.next)];
      && HeapMapped(s', root, frames') && FreshFrames(pool, frames', s0.next)
      && OthersKept(s0.mem, s'.mem, root, |frames'|) && s0.next <= s'.next
  {
    hide CanNext, MapFresh, HeapMapped, OthersKept;
    HeapStepMapped(pool, s, root, frames);
    HeapStepOthers(pool, s0.mem, s, root, |frames|);
  }

  ghost predicate HeapUnused(m: Memory, root: nat) {
    forall p :: HEAP_PAGE <= p < HEAP_PAGE + HEAP_PAGES ==> Walk(m, root, p).None?
  }

  /** The tables above level 1 and the recursive slot say what they said. */
  ghost predicate UpperKept(s0: Space, s: Space, root: nat) {
    && (PlainTables(s0.mem, s0.own, root) ==> PlainTables(s.mem, s.own, root))
    && Read(s.mem, root, 511) == Read(s0.mem, root, 511)
  }

  lemma MapFreshKeepsUpper(pool: Pool, s0: Space, s: Space, root: nat, page: nat)
    requires CanMap(pool, s, root, page) && Canonical(page) && CanPayFresh(pool, s, root, page)
    requires UpperKept(s0, s, root)
    ensures UpperKept(s0, MapFresh(pool, s, root, page), root)
  {
    hide SpaceOk, Apply, CanApply, CanPay, CanPayFresh, CanMap, Outcome, Canonical, MapFresh, PlainTables, Read;
    FreshCanApply(pool, s, root, page);
    MappableIsOk(pool, s, root, page);
    var s1, op := FreshSpace(pool, s), FreshOp(pool, s, page);
    ApplyKeepsSlot(pool, s1, root, op, root);
    if PlainTables(s.mem, s.own, root) {
      ApplyKeepsPlain(pool, s1, root, op, root);
    }
  }

  /** What holds of a space after the first |frames| turns of the loop. */
  ghost predicate PagesDone(pool: Pool, s0: Space, s: Space, root: nat, frames: seq<nat>) {
    && |frames| <= HEAP_PAGES && HeapUnused(s0.mem, root)
    && pool.Enough(s.next, Missing(s.mem, root, HEAP_PAGE) + (HEAP_PAGES - |frames|))
    && HeapMapped(s, root, frames) && FreshFrames(pool, frames, s0.next)
    && OthersKept(s0.mem, s.mem, root, |frames|) && s0.next <= s.next && UpperKept(s0, s, root)
  }

  ghost predicate Progress(m: Machine, s0: Space, frames: seq<nat>)
    reads m, m.alloc
  {
    m.Valid() && m.edit == m.Active() && PagesDone(m.pool, s0, m.TheSpace(), m.Active(), frames)
  }

  lemma NextPageUnused(pool: Pool, s0: Space, s: Space, root: nat, n: nat)
    requires HeapUnused(s0.mem, root) && OthersKept(s0.mem, s.mem, root, n) && n < HEAP_PAGES
    requires SpaceOk(pool, s) && IsRoot(s.own, root)
    ensures CanMap(pool, s, root, HEAP_PAGE + n) && Walk(s.mem, root, HEAP_PAGE + n).None?
  {
    HeapPagesAreCanonical(n);
    assert Walk(s0.mem, root, HEAP_PAGE + n).None?;
    UnmappedIsOpen(s.mem, root, HEAP_PAGE + n);
  }

  /** What the next turn may spend, and what is left after it: the first turn creates all the tables. */
  lemma NextPageIsPaid(pool: Pool, s: Space, root: nat, n: nat)
    requires n < HEAP_PAGES && CanMap(pool, s, root, HEAP_PAGE + n)
    requires pool.Enough(s.next, Missing(s.mem, root, HEAP_PAGE) + (HEAP_PAGES - n))
    ensures CanNext(pool, s, root, n) && Missing(s.mem, root, HEAP_PAGE + n) == Missing(s.mem, root, HEAP_PAGE)
    ensures var s' := MapFresh(pool, s, root, HEAP_PAGE + n);
      pool.Enough(s'.next, Missing(s'.mem, root, HEAP_PAGE) + (HEAP_PAGES - (n + 1)))
  {
    hide CanMap, MapFresh, Locate, Pool.Enough, Pool.Advance, Canonical, P4Index, P3Index, P2Index;
    HeapPagesAreCanonical(n);
    EnoughSplits(pool, s.next, 1 + Missing(s.mem, root, HEAP_PAGE), HEAP_PAGES - (n + 1));
    MapFreshOk(pool, s, root, HEAP_PAGE + n);
  }

  lemma PaidHasFrame(pool: Pool, s: Space, root: nat, page: nat)
    requires CanPayFresh(pool, s, root, page)
    ensures pool.NextFree(s.next) <= pool.top
  {
  }

  /** One turn of the loop, on the space. */
  lemma PageDone(pool: Pool, s0: Space, s: Space, root: nat, frames: seq<nat>)
    requires SpaceOk(pool, s) && IsRoot(s.own, root) && PagesDone(pool, s0, s, root, frames) && |frames| < HEAP_PAGES
    ensures CanMap(pool, s, root, HEAP_PAGE + |frames|) && CanPayFresh(pool, s, root, HEAP_PAGE + |frames|)
    ensures Walk(s.mem, root, HEAP_PAGE + |frames|).None? && pool.NextFree(s.next) <= pool.top
    ensures PagesDone(pool, s0, MapFresh(pool, s, root, HEAP_PAGE + |frames|), root, frames + [pool.NextFree(s.next)])
  {
    hide UpperKept, Canonical, SpaceOk, CanMap, CanPayFresh, Walk, MapFresh, HeapMapped, FreshFrames, OthersKept,
         HeapUnused, Missing, Pool.Enough;
    NextPageUnused(pool, s0, s, root, |frames|);
    NextPageIsPaid(pool, s, root, |frames|);
    PaidHasFrame(pool, s, root, HEAP_PAGE + |frames|);
    HeapPagesAreCanonical(|frames|);
    MapFreshKeepsUpper(pool, s0, s, root, HEAP_PAGE + |frames|);
    HeapStep(pool, s0, s, root, frames);
  }

  /** One turn: map_page on the next heap page. */
  method MapHeapPage(m: Machine, page: nat, ghost s0: Space, ghost frames: seq<nat>) returns (ghost frames': seq<nat>)
    requires Progress(m, s0, frames) && |frames| < HEAP_PAGES && page == HEAP_PAGE + |frames|
    modifies m, m.alloc
    ensures Progress(m, s0, frames') && |frames'| == |frames| + 1
    ensures m.cr3 == old(m.cr3) && m.edit == old(m.edit)
  {
    hide Walk, SpaceOk, Coherent, Windowed, PagesDone, Canonical, P4Index, Pool.NextFree, Pool.Enough,
         MapTables, Missing, HeapFlags, CanMap, FrameOf, IsFlags, MapPageAt;
    ghost var s := m.TheSpace();
    HeapPagesAreCanonical(|frames|);
    HeapFlagWord(0);
    PageDone(m.pool, s0, s, m.Active(), frames);
    m.MapPage(page, HeapFlags());
    frames' := frames + [m.pool.NextFree(s.next)];
  }

  /** Every page of the heap ends up mapped, present and writeable, to a frame of its own: an
      unreserved frame that was not handed out before and is no page table. Every other page
      outside the recursive slot keeps its translation. */
  method MapHeap(m: Machine) returns (ghost frames: seq<nat>)
    requires m.Valid() && m.edit == m.Active() && HeapUnused(m.mem, m.Active())
    requires m.pool.Enough(m.alloc.nextFreeFrame, Missing(m.mem, m.Active(), HEAP_PAGE) + HEAP_PAGES)
    modifies m, m.alloc
    ensures m.Valid() && m.cr3 == old(m.cr3) && m.edit == old(m.edit)
    ensures |frames| == HEAP_PAGES && HeapMapped(m.TheSpace(), m.Active(), frames)
    ensures FreshFrames(m.pool, frames, old(m.alloc.nextFreeFrame))
    ensures OthersKept(old(m.mem), m.mem, m.Active(), HEAP_PAGES)
    ensures UpperKept(old(m.TheSpace()), m.TheSpace(), m.Active())
    // in figures: 25 pages from 1 GiB on
    ensures |frames| == 25 && forall k :: 0 <= k < 25 ==>
              Walk(m.mem, m.Active(), 0x4_0000 + k) == Some(Mapping(frames[k], frames[k] * 4096 + 3))
  {
    hide Walk, HeapMapped, FreshFrames, OthersKept, Ok, HeapUnused, Pool.Enough, Missing;
    ghost var s0 := m.TheSpace();
    frames := [];
    NoFramesYet(m.pool, s0, m.Active());
    var addr := HEAP_START;
    while addr < HEAP_START + HEAP_SIZE
      invariant addr == HEAP_START + |frames| * PAGE_SIZE
      invariant Progress(m, s0, frames) && m.cr3 == old(m.cr3) && m.edit == old(m.edit)
    {
      frames := MapHeapPage(m, addr / PAGE_SIZE, s0, frames);
      addr := addr + PAGE_SIZE;
    }
    HeapMappedAt(m.TheSpace(), m.Active(), frames);
  }

  lemma HeapMappedAt(s: Space, root: nat, frames: seq<nat>)
    requires HeapMapped(s, root, frames)
    ensures forall k :: 0 <= k < |frames| ==>
              Walk(s.mem, root, 0x4_0000 + k) == Some(Mapping(frames[k], frames[k] * 4096 + 3))
  {
    hide Walk;
    forall k | 0 <= k < |frames|
      ensures Walk(s.mem, root, 0x4_0000 + k) == Some(Mapping(frames[k], frames[k] * 4096 + 3))
    {
      assert MappedTo(s.mem, root, HEAP_PAGE + k, frames[k]);
    }
  }

  lemma NoFramesYet(pool: Pool, s: Space, root: nat)
    ensures HeapMapped(s, root, []) && FreshFrames(pool, [], s.next) && OthersKept(s.mem, s.mem, root, 0)
  {
  }
}
