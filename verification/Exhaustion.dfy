/** What happens when frames run out: map_page does not look at the result of the allocation and
    maps the page to frame 0. Exactly when it does, for one page and for the pages of the heap. */
module Exhaustion {
  import opened Bits
  import opened FrameAllocator
  import opened Mmu
  import opened PageTables
  import opened Paging
  import opened HeapPages

  /** The frame a page is mapped to. */
  function FrameFor(pool: Pool, s: Space): nat {
    if pool.NextFree(s.next) <= pool.top then pool.NextFree(s.next) else 0
  }

  /** The page's tables are there, or there are frames for them and for the page. */
  ghost predicate CanMapPage(pool: Pool, s: Space, root: nat, page: nat, flags: nat) {
    && CanMap(pool, s, root, page) && Canonical(page) && IsFlags(flags) && pool.top >= 0
    && if pool.NextFree(s.next) <= pool.top then pool.Enough(s.next, 1 + Missing(s.mem, root, page))
       else Missing(s.mem, root, page) == 0
  }

  /** The space map_page performs its mapping in. */
  function Taken(pool: Pool, s: Space): Space {
    if pool.NextFree(s.next) <= pool.top then FreshSpace(pool, s) else s
  }

  lemma MapPageIsApply(pool: Pool, s: Space, root: nat, page: nat, flags: nat)
    requires CanMapPage(pool, s, root, page, flags)
    ensures var op := MapOp(page, FrameFor(pool, s), flags);
      && CanApply(pool, Taken(pool, s), root, op) && CanPay(pool, Taken(pool, s), root, op)
      && MapPageAt(pool, s, root, page, flags) == Apply(pool, Taken(pool, s), root, op)
      && SpaceOk(pool, s) && IsRoot(s.own, root)
  {
    hide SpaceOk, Missing, Open, And, MapAt, Pool.NextFree;
    if pool.NextFree(s.next) <= pool.top {
      AllocationKeepsMappable(pool, s, root, page, flags);
    } else {
      FailureKeepsMappable(pool, s, root, page, flags, s.next);
    }
  }

  /** map_page as written, whether or not there is a frame: its page is mapped to the allocator's
      next frame, or to frame 0, and every other page keeps its translation. */
  lemma MapPageOutcome(pool: Pool, s: Space, root: nat, page: nat, flags: nat, q: nat)
    requires CanMapPage(pool, s, root, page, flags) && Canonical(q) && P4Index(q) != RECURSIVE
    ensures Walk(MapPageAt(pool, s, root, page, flags).mem, root, q)
         == if q == page then Outcome(MapOp(page, FrameFor(pool, s), flags)) else Walk(s.mem, root, q)
  {
    hide CanMapPage, CanApply, CanPay, Apply, MapPageAt, Walk, Outcome, FrameFor;
    MapPageIsApply(pool, s, root, page, flags);
    ApplyIsPointUpdate(pool, Taken(pool, s), root, MapOp(page, FrameFor(pool, s), flags), root, q);
  }

  /** The page gets a frame that was not handed out before and is not reserved exactly when the
      allocator has one left; otherwise it gets frame 0. */
  lemma MapPageGetsFrame(pool: Pool, s: Space, root: nat, page: nat, flags: nat)
    requires CanMapPage(pool, s, root, page, flags)
    ensures var t := Walk(MapPageAt(pool, s, root, page, flags).mem, root, page);
      && t.Some?
      && (s.next <= t.value.frame && !pool.Reserved(t.value.frame) <==> pool.NextFree(s.next) <= pool.top)
      && (pool.NextFree(s.next) > pool.top ==> t.value.frame == 0)
  {
    hide SpaceOk, MapPageAt, Walk;
    MapPageOutcome(pool, s, root, page, flags, page);
  }

  lemma MapPageKeeps(pool: Pool, s: Space, root: nat, page: nat, flags: nat)
    requires CanMapPage(pool, s, root, page, flags)
    ensures var s' := MapPageAt(pool, s, root, page, flags);
      && SpaceOk(pool, s') && IsRoot(s'.own, root) && Missing(s'.mem, root, page) == 0
      && s'.next == pool.Advance(Taken(pool, s).next, Missing(s.mem, root, page))
  {
    hide CanMapPage, SpaceOk, CanApply, CanPay, Apply, MapPageAt, Missing, Pool.Advance;
    var op := MapOp(page, FrameFor(pool, s), flags);
    MapPageIsApply(pool, s, root, page, flags);
    ApplyOk(pool, Taken(pool, s), root, op);
    ApplyLeavesNoneMissing(pool, Taken(pool, s), root, op);
  }

  // ------------------------------------------------------------------ the heap

  /** The first n turns of init_heap's loop. */
  function MapPages(pool: Pool, s: Space, root: nat, n: nat): Space {
    if n == 0 then s else MapFresh(pool, MapPages(pool, s, root, n - 1), root, HEAP_PAGE + n - 1)
  }

  /** A hierarchy without the heap's pages, but with their tables. */
  ghost predicate HeapReady(pool: Pool, s: Space, root: nat) {
    && SpaceOk(pool, s) && IsRoot(s.own, root) && HeapUnused(s.mem, root)
    && Missing(s.mem, root, HEAP_PAGE) == 0 && pool.top >= 0
  }

  /** The k-th of them gets the k-th frame to come, if there are so many. */
  function HeapFrame(pool: Pool, s: Space, k: nat): nat {
    if pool.Enough(s.next, k + 1) then pool.NextFree(pool.Advance(s.next, k)) else 0
  }

  /** What the first n turns leave: the bump pointer has moved on by n frames, or there are none. */
  ghost predicate AfterTurns(pool: Pool, s: Space, s': Space, root: nat, n: nat) {
    && SpaceOk(pool, s') && IsRoot(s'.own, root) && Missing(s'.mem, root, HEAP_PAGE) == 0
    && (if pool.Enough(s.next, n) then s'.next == pool.Advance(s.next, n) else pool.NextFree(s'.next) > pool.top)
    && (forall k {:trigger HeapFrame(pool, s, k)} :: 0 <= k < n ==>
          Reached(s'.mem, root, HEAP_PAGE + k, HeapFrame(pool, s, k)))
    && OthersKept(s.mem, s'.mem, root, n)
  }

  ghost predicate Reached(m: Memory, root: nat, page: nat, frame: nat) {
    Walk(m, root, page).Some? && Walk(m, root, page).value.frame == frame
  }

  lemma NextTurn(pool: Pool, s: Space, s': Space, root: nat, n: nat)
    requires HeapReady(pool, s, root) && AfterTurns(pool, s, s', root, n) && n < HEAP_PAGES
    ensures CanMapPage(pool, s', root, HEAP_PAGE + n, HeapFlags()) && Missing(s'.mem, root, HEAP_PAGE + n) == 0
  {
    hide SpaceOk, Locate, Walk, HeapFrame, Reached, Canonical, P4Index, P3Index, P2Index, HeapFlags, IsFlags;
    HeapPagesAreCanonical(n);
    HeapFlagWord(0);
    NextPageUnused(pool, s, s', root, n);
    if pool.NextFree(s'.next) <= pool.top {
      assert pool.Enough(s'.next, 1);
    }
  }

  /** The frame of the next page, and the bump pointer after it. */
  lemma NextFrame(pool: Pool, s: Space, s': Space, root: nat, n: nat)
    requires AfterTurns(pool, s, s', root, n)
    ensures FrameFor(pool, s') == HeapFrame(pool, s, n)
    ensures var next := Taken(pool, s').next;
      if pool.Enough(s.next, n + 1) then next == pool.Advance(s.next, n + 1) else pool.NextFree(next) > pool.top
  {
    hide SpaceOk, Reached, OthersKept, Missing;
    EnoughSplits(pool, s.next, n, 1);
    var m := pool.Advance(s.next, n);
    assert pool.Enough(m, 1) <==> pool.NextFree(m) <= pool.top;
    assert pool.Advance(m, 1) == pool.Advance(pool.NextFree(m) + 1, 0) == pool.NextFree(m) + 1;
  }

  lemma TurnKeepsPages(pool: Pool, s: Space, s': Space, root: nat, n: nat)
    requires HeapReady(pool, s, root) && AfterTurns(pool, s, s', root, n) && n < HEAP_PAGES
    ensures var s'' := MapFresh(pool, s', root, HEAP_PAGE + n);
      && (forall k {:trigger HeapFrame(pool, s, k)} :: 0 <= k < n + 1 ==>
            Reached(s''.mem, root, HEAP_PAGE + k, HeapFrame(pool, s, k)))
      && OthersKept(s.mem, s''.mem, root, n + 1)
  {
    hide SpaceOk, Walk, HeapReady, CanMapPage, HeapFrame, HeapFlags, Canonical, P4Index, Missing, MapPageAt;
    var s'' := MapFresh(pool, s', root, HEAP_PAGE + n);
    NextTurn(pool, s, s', root, n);
    NextFrame(pool, s, s', root, n);
    forall k {:trigger HeapFrame(pool, s, k)} | 0 <= k < n + 1
      ensures Reached(s''.mem, root, HEAP_PAGE + k, HeapFrame(pool, s, k))
    {
      HeapPagesAreCanonical(k);
      MapPageOutcome(pool, s', root, HEAP_PAGE + n, HeapFlags(), HEAP_PAGE + k);
      assert k < n ==> Reached(s'.mem, root, HEAP_PAGE + k, HeapFrame(pool, s, k));
    }
    forall q: nat | Canonical(q) && P4Index(q) != RECURSIVE && !(HEAP_PAGE <= q < HEAP_PAGE + n + 1)
      ensures Walk(s''.mem, root, q) == Walk(s.mem, root, q)
    {
      MapPageOutcome(pool, s', root, HEAP_PAGE + n, HeapFlags(), q);
    }
  }

  lemma {:induction false} HeapTurns(pool: Pool, s: Space, root: nat, n: nat)
    requires HeapReady(pool, s, root) && n <= HEAP_PAGES
    ensures AfterTurns(pool, s, MapPages(pool, s, root, n), root, n)
  {
    hide SpaceOk, Walk, HeapFrame, Reached, OthersKept, HeapUnused, MapFresh, Missing, CanMapPage;
    if n == 0 {
      NoTurns(pool, s, root);
    } else {
      var s' := MapPages(pool, s, root, n - 1);
      HeapTurns(pool, s, root, n - 1);
      NextTurn(pool, s, s', root, n - 1);
      NextFrame(pool, s, s', root, n - 1);
      TurnKeepsPages(pool, s, s', root, n - 1);
      TurnKeepsSpace(pool, s', root, n - 1);
    }
  }

  lemma NoTurns(pool: Pool, s: Space, root: nat)
    requires HeapReady(pool, s, root)
    ensures AfterTurns(pool, s, s, root, 0)
  {
  }

  lemma TurnKeepsSpace(pool: Pool, s: Space, root: nat, n: nat)
    requires n < HEAP_PAGES && CanMapPage(pool, s, root, HEAP_PAGE + n, HeapFlags())
    requires Missing(s.mem, root, HEAP_PAGE + n) == 0
    ensures var s' := MapFresh(pool, s, root, HEAP_PAGE + n);
      && SpaceOk(pool, s') && IsRoot(s'.own, root) && Missing(s'.mem, root, HEAP_PAGE) == 0
      && s'.next == Taken(pool, s).next
  {
    hide SpaceOk, CanMapPage, Locate, HeapFlags, MapPageAt, P4Index, P3Index, P2Index;
    HeapPagesAreCanonical(n);
    MapPageKeeps(pool, s, root, HEAP_PAGE + n, HeapFlags());
  }

  /** The frames of all the pages. */
  function HeapFrames(pool: Pool, s: Space): (frames: seq<nat>)
    ensures |frames| == HEAP_PAGES && forall k :: 0 <= k < HEAP_PAGES ==> frames[k] == HeapFrame(pool, s, k)
  {
    seq(HEAP_PAGES, k requires 0 <= k < HEAP_PAGES => HeapFrame(pool, s, k))
  }

  /** init_heap as written, in a hierarchy that has the heap's tables: its pages get frames of their
      own, unreserved and not handed out before, exactly when there are as many frames as pages.
      The pages after the last frame all get frame 0. */
  lemma HeapNeedsFrames(pool: Pool, s: Space, root: nat)
    requires HeapReady(pool, s, root)
    ensures var m, frames := MapPages(pool, s, root, HEAP_PAGES).mem, HeapFrames(pool, s);
      && (forall k :: 0 <= k < HEAP_PAGES ==> Reached(m, root, HEAP_PAGE + k, frames[k]))
      && (FreshFrames(pool, frames, s.next) <==> pool.Enough(s.next, HEAP_PAGES))
  {
    hide SpaceOk, HeapUnused, Reached, OthersKept, Missing, FreshFrames, HeapFrame, Pool.Enough;
    HeapTurns(pool, s, root, HEAP_PAGES);
    if pool.Enough(s.next, HEAP_PAGES) {
      EnoughAreFresh(pool, s);
    } else {
      TooFewAreNot(pool, s);
    }
  }

  lemma EnoughAreFresh(pool: Pool, s: Space)
    requires pool.Enough(s.next, HEAP_PAGES)
    ensures FreshFrames(pool, HeapFrames(pool, s), s.next)
  {
    hide Pool.NextFree;
    var frames := HeapFrames(pool, s);
    forall k: nat | k < HEAP_PAGES
      ensures frames[k] == pool.NextFree(pool.Advance(s.next, k)) && s.next <= pool.Advance(s.next, k)
    {
      EnoughForFewer(pool, s.next, HEAP_PAGES, k + 1);
      AdvanceGrows(pool, s.next, k);
    }
    forall j: nat, k: nat | j < k < HEAP_PAGES
      ensures frames[j] < frames[k]
    {
      LaterFrame(pool, s.next, j, k);
    }
  }

  lemma LaterFrame(pool: Pool, n: nat, j: nat, k: nat)
    requires j < k
    ensures pool.NextFree(pool.Advance(n, j)) < pool.Advance(n, k)
  {
    var m := pool.Advance(n, j);
    EnoughSplits(pool, n, j, k - j);
    AdvanceGrows(pool, pool.NextFree(m) + 1, k - j - 1);
  }

  lemma {:induction false} AdvanceGrows(pool: Pool, n: nat, k: nat)
    ensures n <= pool.Advance(n, k)
    decreases k
  {
    if k > 0 {
      AdvanceGrows(pool, pool.NextFree(n) + 1, k - 1);
    }
  }

  /** The last page's frame is 0, which is above no other. */
  lemma TooFewAreNot(pool: Pool, s: Space)
    requires !pool.Enough(s.next, HEAP_PAGES)
    ensures !FreshFrames(pool, HeapFrames(pool, s), s.next)
  {
    var frames := HeapFrames(pool, s);
    assert frames[HEAP_PAGES - 1] == 0 <= frames[0];
  }

  // ------------------------------------------------------------------ a witness

  /** A hierarchy whose root is frame 0, the first that an allocator hands out, and whose tables have
      taken all frames there are. */
  const LAST_FRAME: Pool := Pool(9, 9, 9, 9, 3)
  const FULL: Space := Space(map[Slot(0, 0) := 0x1003, Slot(0, 511) := 3, Slot(1, 0) := 0x2003, Slot(2, 0) := 0x3003],
                             map[0 := Label(0, P4), 1 := Label(0, P3(0)), 2 := Label(0, P2(0, 0)),
                                 3 := Label(0, P1(0, 0, 0))], 4)

  lemma FullEntries()
    ensures Present(0x1003) && !Huge(0x1003) && FrameOf(0x1003) == 1
    ensures Present(0x2003) && !Huge(0x2003) && FrameOf(0x2003) == 2
    ensures Present(0x3003) && !Huge(0x3003) && FrameOf(0x3003) == 3
  {
  }

  lemma FullIsOk()
    ensures SpaceOk(LAST_FRAME, FULL) && IsRoot(FULL.own, 0)
  {
    FullEntries();
  }

  /** Page 7 is not mapped, but has its tables. */
  lemma FullTables()
    ensures Locate(FULL.mem, 0, P3(0)) == Some(1) && Locate(FULL.mem, 0, P2(0, 0)) == Some(2)
    ensures Locate(FULL.mem, 0, P1(0, 0, 0)) == Some(3) && Walk(FULL.mem, 0, 7).None?
    ensures P4Index(7) == 0 && P3Index(7) == 0 && P2Index(7) == 0 && Canonical(7)
  {
    FullEntries();
    assert Read(FULL.mem, 0, 0) == 0x1003 && Read(FULL.mem, 1, 0) == 0x2003 && Read(FULL.mem, 2, 0) == 0x3003;
    assert Read(FULL.mem, 3, 7) == 0;
  }

  /** With frame 0 in use as the root and no frame left, map_page gives an unmapped page the frame of
      the root: what is written there next changes the page tables. */
  lemma ExhaustedMapsRoot(pool: Pool, s: Space, page: nat)
    requires SpaceOk(pool, s) && IsRoot(s.own, 0) && pool.NextFree(s.next) > pool.top >= 0
    requires Canonical(page) && P4Index(page) != RECURSIVE
    requires Walk(s.mem, 0, page).None? && Missing(s.mem, 0, page) == 0
    ensures Reached(MapPageAt(pool, s, 0, page, WRITEABLE).mem, 0, page, 0)
  {
    hide SpaceOk, MapPageAt, Walk, Missing, And, Or, P4Index, IsFlags;
    UnmappedIsOpen(s.mem, 0, page);
    assert IsFlags(WRITEABLE) by {
      WriteableIsFlag();
    }
    MapPageGetsFrame(pool, s, 0, page, WRITEABLE);
  }

  lemma WriteableIsFlag()
    ensures IsFlags(WRITEABLE)
  {
    MaskIsField(WRITEABLE);
  }

  /** There is such a state. */
  lemma FullIsExhausted()
    ensures SpaceOk(LAST_FRAME, FULL) && IsRoot(FULL.own, 0) && LAST_FRAME.NextFree(FULL.next) > LAST_FRAME.top >= 0
    ensures Canonical(7) && P4Index(7) != RECURSIVE && Walk(FULL.mem, 0, 7).None? && Missing(FULL.mem, 0, 7) == 0
  {
    hide SpaceOk, Walk, Locate;
    FullIsOk();
    FullTables();
  }
}
