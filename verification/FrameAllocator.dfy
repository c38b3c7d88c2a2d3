/** The physical frame allocator: a bump pointer over frame numbers that skips the frames of
    the kernel image and of the multiboot structure, and walks the memory map area by area. */
module FrameAllocator {

  const PAGE_SIZE: nat := 4096
  const WORD: nat := 0x1_0000_0000_0000_0000

  /** A memory-map entry; the allocator never looks at its type. */
  datatype Area = Area(base: nat, length: nat)

  /** The fields of an ELF section header the kernel uses. */
  datatype Section = Section(flags: nat, addr: nat, size: nat)

  /** What decides every future answer of the allocator: the two inclusive reserved ranges of
      frames, and the last frame of the highest usable area (-1 if there is none). */
  datatype Pool = Pool(kernelStart: nat, kernelEnd: nat, multibootStart: nat, multibootEnd: nat, top: int) {

    predicate Reserved(f: nat) {
      kernelStart <= f <= kernelEnd || multibootStart <= f <= multibootEnd
    }

    /** The first frame at or after n that is not reserved. */
    function NextFree(n: nat): (r: nat)
      ensures n <= r && !Reserved(r)
      ensures forall f :: n <= f < r ==> Reserved(f)
      decreases (if n <= kernelEnd then kernelEnd + 1 - n else 0)
              + (if n <= multibootEnd then multibootEnd + 1 - n else 0)
    {
      if Reserved(n) then NextFree(n + 1) else n
    }

    /** The unreserved frames below n, lowest first. */
    function FreeBelow(n: nat): seq<nat>
      decreases n
    {
      if n == 0 then []
      else if Reserved(n - 1) then FreeBelow(n - 1)
      else FreeBelow(n - 1) + [n - 1]
    }

    /** k allocations in a row succeed when the bump pointer stands at n. */
    predicate Enough(n: nat, k: nat)
      decreases k
    {
      k == 0 || (NextFree(n) <= top && Enough(NextFree(n) + 1, k - 1))
    }

    /** The bump pointer after k allocations. */
    function Advance(n: nat, k: nat): nat
      decreases k
    {
      if k == 0 then n else Advance(NextFree(n) + 1, k - 1)
    }
  }

  /** The enumeration is strictly ascending and holds exactly the unreserved frames below n. */
  lemma {:induction false} FreeBelowEnumerates(pool: Pool, n: nat)
    ensures forall i, j :: 0 <= i < j < |pool.FreeBelow(n)| ==> pool.FreeBelow(n)[i] < pool.FreeBelow(n)[j]
    ensures forall f :: f in pool.FreeBelow(n) <==> 0 <= f < n && !pool.Reserved(f)
  {
    if n > 0 {
      FreeBelowEnumerates(pool, n - 1);
      var before := pool.FreeBelow(n - 1);
      forall i | 0 <= i < |before|
        ensures before[i] < n - 1
      {
        assert before[i] in before;
      }
    }
  }

  /** Moving the bump pointer over reserved frames changes neither what was enumerated so far
      nor what comes next. */
  lemma {:induction false} SkipReserved(pool: Pool, n: nat, m: nat)
    requires n <= m && forall f :: n <= f < m ==> pool.Reserved(f)
    ensures pool.FreeBelow(m) == pool.FreeBelow(n) && pool.NextFree(m) == pool.NextFree(n)
    decreases m - n
  {
    if n < m {
      assert pool.Reserved(m - 1) && pool.NextFree(m - 1) == pool.NextFree(m);
      SkipReserved(pool, n, m - 1);
    }
  }

  /** Allocations may be counted in two parts. */
  lemma {:induction false} EnoughSplits(pool: Pool, n: nat, j: nat, k: nat)
    ensures pool.Enough(n, j + k) <==> pool.Enough(n, j) && pool.Enough(pool.Advance(n, j), k)
    ensures pool.Advance(n, j + k) == pool.Advance(pool.Advance(n, j), k)
    decreases j
  {
    if j > 0 {
      EnoughSplits(pool, pool.NextFree(n) + 1, j - 1, k);
    }
  }

  lemma EnoughForFewer(pool: Pool, n: nat, k: nat, j: nat)
    requires pool.Enough(n, k) && j <= k
    ensures pool.Enough(n, j)
  {
    EnoughSplits(pool, n, j, k - j);
  }

  /** Which frames come next does not depend on where they end. */
  lemma {:induction false} NextFreeIgnoresTop(pool: Pool, top: int, n: nat)
    ensures pool.(top := top).NextFree(n) == pool.NextFree(n)
    decreases pool.NextFree(n) - n
  {
    if pool.Reserved(n) {
      NextFreeIgnoresTop(pool, top, n + 1);
    }
  }

  lemma {:induction false} NextFreeIsLeast(pool: Pool, n: nat, f: nat)
    requires n <= f && !pool.Reserved(f) && forall g :: n <= g < f ==> pool.Reserved(g)
    ensures pool.NextFree(n) == f
    decreases f - n
  {
    if n < f {
      assert pool.Reserved(n);
      NextFreeIsLeast(pool, n + 1, f);
    }
  }

  /** The number of frames in [n, n + len) that are not reserved. */
  function FreeIn(pool: Pool, n: nat, len: nat): nat
    decreases len
  {
    if len == 0 then 0
    else (if pool.Reserved(n) then 0 else 1) + FreeIn(pool, n + 1, len - 1)
  }

  /** k allocations succeed in a row exactly when at least k unreserved frames are left below
      the end of the highest area. */
  lemma {:induction false} EnoughCountsFrames(pool: Pool, n: nat, k: nat)
    ensures pool.Enough(n, k) <==> k == 0 || (n <= pool.top && FreeIn(pool, n, pool.top + 1 - n) >= k)
    decreases if n <= pool.top then pool.top + 1 - n else 0
  {
    if k > 0 && n <= pool.top {
      if pool.Reserved(n) {
        assert pool.NextFree(n) == pool.NextFree(n + 1);
        EnoughCountsFrames(pool, n + 1, k);
      } else {
        assert pool.NextFree(n) == n;
        EnoughCountsFrames(pool, n + 1, k - 1);
      }
    }
  }

  predicate Qualifies(a: Area) {
    a.length >= PAGE_SIZE
  }

  /** base + length - 1 in 64-bit arithmetic. */
  function LastByte(a: Area): nat {
    (a.base + a.length - 1) % WORD
  }

  function LastFrame(a: Area): nat {
    LastByte(a) / PAGE_SIZE
  }

  /** The last frame of the highest area of at least a page. */
  function TopFrame(areas: seq<Area>): (t: int)
    ensures forall j :: 0 <= j < |areas| && Qualifies(areas[j]) ==> LastFrame(areas[j]) <= t
    ensures t == -1 || exists j :: 0 <= j < |areas| && Qualifies(areas[j]) && LastFrame(areas[j]) == t
  {
    if areas == [] then -1
    else
      var last := areas[|areas| - 1];
      var t := TopFrame(areas[..|areas| - 1]);
      if Qualifies(last) && LastFrame(last) > t then LastFrame(last) else t
  }

  predicate Bounded(areas: seq<Area>, j: nat)
    requires j < |areas|
  {
    areas[j].base + areas[j].length <= WORD
  }

  predicate Apart(areas: seq<Area>, i: nat, j: nat)
    requires i < |areas| && j < |areas|
  {
    Qualifies(areas[i]) && Qualifies(areas[j]) ==>
      areas[i].base + areas[i].length <= areas[j].base || areas[j].base + areas[j].length <= areas[i].base
  }

  /** A memory map as firmware reports it: no area wraps around the address space, areas of
      a page or more do not overlap, and there is at least one of them. */
  ghost predicate WellFormed(areas: seq<Area>) {
    && (forall j :: 0 <= j < |areas| ==> Bounded(areas, j))
    && (forall i, j :: 0 <= i < |areas| && 0 <= j < |areas| && i != j ==> Apart(areas, i, j))
    && (exists j :: 0 <= j < |areas| && Qualifies(areas[j]))
  }

  /** The scan for the lowest area: the first entry of least base among those of a page or more. */
  method LowestArea(areas: seq<Area>) returns (index: nat)
    requires forall j :: 0 <= j < |areas| ==> Bounded(areas, j)
    ensures (exists j :: 0 <= j < |areas| && areas[j].length >= 4096) ==> index < |areas| && areas[index].length >= 4096
    ensures (forall j :: 0 <= j < |areas| ==> areas[j].length < 4096) ==> index == 0
    ensures forall j :: 0 <= j < |areas| && areas[j].length >= 4096 ==>
              && index < |areas| && areas[index].base <= areas[j].base
              && (areas[j].base == areas[index].base ==> index <= j)
  {
    index := 0;
    var minAddr := WORD - 1;
    for i := 0 to |areas|
      invariant forall j :: 0 <= j < i && Qualifies(areas[j]) ==>
                  index < i && minAddr <= areas[j].base && (areas[j].base == minAddr ==> index <= j)
      invariant || (minAddr == WORD - 1 && index == 0)
                || (index < i && Qualifies(areas[index]) && minAddr == areas[index].base)
      invariant (forall j :: 0 <= j < i ==> !Qualifies(areas[j])) ==> index == 0 && minAddr == WORD - 1
      invariant minAddr == WORD - 1 ==> forall j :: 0 <= j < i ==> !Qualifies(areas[j])
    {
      assert Bounded(areas, i);
      if minAddr > areas[i].base && areas[i].length >= PAGE_SIZE {
        minAddr := areas[i].base;
        index := i;
      }
    }
  }

  function KernelStart(sections: seq<Section>): nat {
    if sections == [] then WORD - 1
    else
      var s, start := sections[|sections| - 1], KernelStart(sections[..|sections| - 1]);
      if s.size > 0 && s.addr < start then s.addr else start
  }

  function KernelEnd(sections: seq<Section>): nat {
    if sections == [] then 0
    else
      var s, end := sections[|sections| - 1], KernelEnd(sections[..|sections| - 1]);
      if (s.addr + s.size) % WORD > end then (s.addr + s.size) % WORD else end
  }

  /** The least start of the non-empty sections, and the greatest end of all in 64-bit arithmetic. */
  lemma {:induction false} ExtentIs(sections: seq<Section>)
    ensures var start := KernelStart(sections);
      && (forall s :: s in sections && s.size > 0 ==> start <= s.addr)
      && (start == WORD - 1 || exists s :: s in sections && s.size > 0 && start == s.addr)
    ensures var end := KernelEnd(sections);
      && (forall s :: s in sections ==> (s.addr + s.size) % WORD <= end)
      && (end == 0 || exists s :: s in sections && end == (s.addr + s.size) % WORD)
  {
    if sections != [] {
      var before, s := sections[..|sections| - 1], sections[|sections| - 1];
      ExtentIs(before);
      assert sections == before + [s];
    }
  }

  /** The scan over section headers: least start of the non-empty sections, greatest end of all. */
  method KernelExtent(sections: seq<Section>) returns (start: nat, end: nat)
    ensures start == KernelStart(sections) && end == KernelEnd(sections)
    ensures forall s :: s in sections && s.size > 0 ==> start <= s.addr
    ensures start == WORD - 1 || exists s :: s in sections && s.size > 0 && start == s.addr
    ensures forall s :: s in sections ==> (s.addr + s.size) % WORD <= end
    ensures end == 0 || exists s :: s in sections && end == (s.addr + s.size) % WORD
  {
    start, end := WORD - 1, 0;
    for i := 0 to |sections|
      invariant start == KernelStart(sections[..i]) && end == KernelEnd(sections[..i])
    {
      var header := sections[i];
      assert sections[..i + 1][..i] == sections[..i];
      if header.size > 0 && header.addr < start {
        start := header.addr;
      }
      var e := (header.size + header.addr) % WORD;
      if e > end {
        end := e;
      }
    }
    assert sections[..|sections|] == sections;
    ExtentIs(sections);
  }

  /** Every byte of [addr, addr + size) lies in a reserved frame. */
  ghost predicate ReservesBytes(pool: Pool, addr: nat, size: nat) {
    forall x :: addr <= x < addr + size ==> pool.Reserved(x / PAGE_SIZE)
  }

  /** Every byte of every section lies in a reserved frame, when no section wraps around
      the address space. */
  ghost predicate ReservesImage(pool: Pool, sections: seq<Section>) {
    (forall s :: s in sections ==> s.addr + s.size < WORD) ==>
      forall s :: s in sections ==> ReservesBytes(pool, s.addr, s.size)
  }

  /** What init_allocator makes of the memory map, the sections and the multiboot structure. */
  function PoolOf(areas: seq<Area>, sections: seq<Section>, multiboot: nat, multibootSize: nat): Pool {
    Pool(KernelStart(sections) / PAGE_SIZE, KernelEnd(sections) / PAGE_SIZE,
         multiboot / PAGE_SIZE, (multiboot + multibootSize) / PAGE_SIZE, TopFrame(areas))
  }

  /** The reserved frames hold every byte of the sections and of the multiboot structure. */
  lemma ImageReserved(areas: seq<Area>, sections: seq<Section>, multiboot: nat, multibootSize: nat)
    ensures var pool := PoolOf(areas, sections, multiboot, multibootSize);
      ReservesImage(pool, sections) && ReservesBytes(pool, multiboot, multibootSize)
  {
    var pool := PoolOf(areas, sections, multiboot, multibootSize);
    ExtentIs(sections);
    if forall s :: s in sections ==> s.addr + s.size < WORD {
      forall s, x | s in sections && s.addr <= x < s.addr + s.size
        ensures pool.Reserved(x / PAGE_SIZE)
      {
        FramesFollowBytes(KernelStart(sections), x);
        FramesFollowBytes(x, KernelEnd(sections));
      }
    }
    forall x | multiboot <= x < multiboot + multibootSize
      ensures pool.Reserved(x / PAGE_SIZE)
    {
      FramesFollowBytes(multiboot, x);
      FramesFollowBytes(x, multiboot + multibootSize);
    }
  }

  /** Least start of the non-empty sections, and greatest end of all in 64-bit arithmetic. */
  ghost predicate IsExtent(sections: seq<Section>, start: nat, end: nat) {
    && (forall s :: s in sections && s.size > 0 ==> start <= s.addr)
    && (start == 0xffff_ffff_ffff_ffff || exists s :: s in sections && s.size > 0 && start == s.addr)
    && (forall s :: s in sections ==> (s.addr + s.size) % 0x1_0000_0000_0000_0000 <= end)
    && (end == 0 || exists s :: s in sections && end == (s.addr + s.size) % 0x1_0000_0000_0000_0000)
  }

  lemma ExtentIsUnique(sections: seq<Section>, start: nat, end: nat)
    requires IsExtent(sections, start, end) && forall s :: s in sections ==> s.addr < WORD
    ensures start == KernelStart(sections) && end == KernelEnd(sections)
  {
    ExtentIs(sections);
  }

  /** The frame has a byte at or between two addresses; with none between them, it is the frame of
      both. */
  predicate Between(f: nat, from: nat, to: nat) {
    from < (f + 1) * 4096 && f * 4096 <= to
  }

  /** The frames init_allocator reserves, no more and no less: those from the first section's to the
      one that holds the address the last section ends before, and likewise for the multiboot
      structure. */
  lemma ReservedIs(areas: seq<Area>, sections: seq<Section>, multiboot: nat, multibootSize: nat,
                   start: nat, end: nat, f: nat)
    requires IsExtent(sections, start, end) && forall s :: s in sections ==> s.addr < WORD
    ensures PoolOf(areas, sections, multiboot, multibootSize).Reserved(f)
       <==> Between(f, start, end) || Between(f, multiboot, multiboot + multibootSize)
  {
    ExtentIsUnique(sections, start, end);
    FrameBounds(start, f);
    FrameBounds(end, f);
    FrameBounds(multiboot, f);
    FrameBounds(multiboot + multibootSize, f);
  }

  lemma FrameBounds(x: nat, f: nat)
    ensures x / PAGE_SIZE <= f <==> x < (f + 1) * 4096
    ensures f <= x / PAGE_SIZE <==> f * 4096 <= x
  {
  }

  /** A section that ends 16 bytes into a frame: that frame is the last one reserved. */
  lemma LastFrameReserved(areas: seq<Area>)
    ensures var pool := PoolOf(areas, [Section(7, 0x10_0000, 0x1_0010)], 0x7000, 8);
      && pool.Reserved(0x100) && pool.Reserved(0x110) && !pool.Reserved(0xff) && !pool.Reserved(0x111)
      && pool.Reserved(7) && !pool.Reserved(6) && !pool.Reserved(8)
  {
    var s := Section(7, 0x10_0000, 0x1_0010);
    assert s in [s];
    forall f | f in {0x100, 0x110, 0xff, 0x111, 7, 6, 8}
      ensures PoolOf(areas, [s], 0x7000, 8).Reserved(f) <==>
                Between(f, 0x10_0000, 0x11_0010) || Between(f, 0x7000, 0x7008)
    {
      ReservedIs(areas, [s], 0x7000, 8, 0x10_0000, 0x11_0010, f);
    }
  }

  /** The top of the pool is the frame of the last byte of the highest area of at least 4096 bytes. */
  lemma TopIs(areas: seq<Area>)
    requires WellFormed(areas)
    ensures var top := TopFrame(areas);
      && (forall j :: 0 <= j < |areas| && areas[j].length >= 4096 ==>
            areas[j].base + areas[j].length <= (top + 1) * 4096)
      && (exists j :: 0 <= j < |areas| && areas[j].length >= 4096 &&
            top * 4096 < areas[j].base + areas[j].length)
  {
    var top := TopFrame(areas);
    forall j | 0 <= j < |areas| && areas[j].length >= 4096
      ensures areas[j].base + areas[j].length <= (top + 1) * 4096
    {
      assert Bounded(areas, j);
      NoWrap(areas[j]);
      assert LastFrame(areas[j]) <= top;
    }
    var k :| 0 <= k < |areas| && Qualifies(areas[k]);
    assert LastFrame(areas[k]) <= top;
    var j :| 0 <= j < |areas| && Qualifies(areas[j]) && LastFrame(areas[j]) == top;
    assert Bounded(areas, j);
    NoWrap(areas[j]);
  }

  class Allocator {
    var nextFreeFrame: nat
    var entryIndex: nat
    const memMap: seq<Area>
    /** The reserved ranges, fixed at start-up, and the end of the highest area. */
    const pool: Pool
    /** Every frame handed out so far, in order. */
    ghost var handedOut: seq<nat>

    /** The current area is usable; once there is none left, every frame of every area is
        behind the bump pointer, which never moves on beyond the last. */
    ghost predicate OnArea()
      reads this
    {
      && WellFormed(memMap) && pool.top == TopFrame(memMap)
      && entryIndex <= |memMap| && nextFreeFrame <= pool.top + 1
      && (entryIndex < |memMap| ==> Qualifies(memMap[entryIndex]))
      && (entryIndex == |memMap| ==> nextFreeFrame > pool.top)
    }

    /** The frames handed out are the unreserved ones below the bump pointer, in ascending order. */
    ghost predicate Valid()
      reads this
    {
      OnArea() && handedOut == pool.FreeBelow(nextFreeFrame)
    }

    constructor (areas: seq<Area>, sections: seq<Section>, multiboot: nat, multibootSize: nat)
      requires WellFormed(areas)
      requires forall s :: s in sections ==> s.addr < WORD
      requires multiboot + multibootSize < WORD
      ensures Valid() && nextFreeFrame == 0 && handedOut == [] && memMap == areas
      ensures pool == PoolOf(areas, sections, multiboot, multibootSize)
      // the reserved frames hold every byte of the kernel's sections and of the multiboot structure
      ensures ReservesImage(pool, sections) && ReservesBytes(pool, multiboot, multibootSize)
    {
      nextFreeFrame := 0;
      memMap := areas;
      handedOut := [];
      var index := LowestArea(areas);
      entryIndex := index;
      var start, end := KernelExtent(sections);
      pool := Pool(start / PAGE_SIZE, end / PAGE_SIZE,
                   multiboot / PAGE_SIZE, (multiboot + multibootSize) / PAGE_SIZE, TopFrame(areas));
      new;
      ImageReserved(areas, sections, multiboot, multibootSize);
    }

    /** Move to the usable area of least base at or above the last byte of the current one. */
    method SwitchArea()
      requires OnArea() && entryIndex < |memMap| && nextFreeFrame > LastFrame(memMap[entryIndex])
      modifies this`entryIndex
      ensures OnArea()
      ensures entryIndex < |memMap| ==> LastByte(memMap[entryIndex]) > LastByte(memMap[old(entryIndex)])
      ensures var last := old(memMap[entryIndex]).base + old(memMap[entryIndex]).length - 1;
        && (entryIndex < |memMap| ==> memMap[entryIndex].length >= 4096 && last <= memMap[entryIndex].base)
        && (forall j :: 0 <= j < |memMap| && memMap[j].length >= 4096 && last <= memMap[j].base ==>
              entryIndex < |memMap| && memMap[entryIndex].base <= memMap[j].base)
    {
      assert Bounded(memMap, entryIndex);
      NoWrap(memMap[entryIndex]);
      var minAddr := LastByte(memMap[entryIndex]);
      var nextMinAddr := WORD - 1;
      entryIndex := |memMap|;
      for i := 0 to |memMap|
        invariant (entryIndex == |memMap| && nextMinAddr == WORD - 1)
               || (entryIndex < i && Qualifies(memMap[entryIndex]) && minAddr <= memMap[entryIndex].base == nextMinAddr)
        invariant forall j :: 0 <= j < i && Qualifies(memMap[j]) && minAddr <= memMap[j].base ==>
                    entryIndex < |memMap| && nextMinAddr <= memMap[j].base
      {
        assert Bounded(memMap, i);
        if minAddr <= memMap[i].base && memMap[i].length >= PAGE_SIZE && nextMinAddr > memMap[i].base {
          nextMinAddr := memMap[i].base;
          entryIndex := i;
        }
      }
      if entryIndex == |memMap| {
        NoAreaAbove(memMap, old(entryIndex));
      } else {
        assert Bounded(memMap, entryIndex);
        LaterArea(memMap[old(entryIndex)], memMap[entryIndex]);
      }
    }

    /** The search loop of an allocation: moves the bump pointer over reserved frames and from
        area to area until it stands on a frame to hand out, or no area is left. */
    method FindFrame() returns (ok: bool)
      requires OnArea()
      modifies this`nextFreeFrame, this`entryIndex
      ensures OnArea()
      ensures old(nextFreeFrame) <= nextFreeFrame <= pool.NextFree(old(nextFreeFrame))
      ensures ok <==> pool.NextFree(old(nextFreeFrame)) <= pool.top
      ensures ok ==> nextFreeFrame == pool.NextFree(old(nextFreeFrame))
    {
      ghost var next := pool.NextFree(nextFreeFrame);
      while true
        invariant OnArea()
        invariant old(nextFreeFrame) <= nextFreeFrame <= next
        decreases if entryIndex == |memMap| then 0 else WORD - LastByte(memMap[entryIndex]), next - nextFreeFrame
      {
        if entryIndex == |memMap| {
          return false;
        }
        var index := nextFreeFrame;
        assert index < next ==> pool.Reserved(index);
        if index > LastFrame(memMap[entryIndex]) {
          SwitchArea();
        } else if pool.kernelStart <= index <= pool.kernelEnd {
          nextFreeFrame := nextFreeFrame + 1;
        } else if pool.multibootStart <= index <= pool.multibootEnd {
          nextFreeFrame := nextFreeFrame + 1;
        } else {
          return true;
        }
      }
    }

    /** Hands out the next unreserved frame, and fails exactly when it lies above the highest
        area; a failure is permanent. */
    method AllocateFrame() returns (ok: bool, frame: nat)
      requires Valid()
      modifies this
      ensures Valid() && old(nextFreeFrame) <= nextFreeFrame
      ensures var next := pool.NextFree(old(nextFreeFrame));
        && (ok <==> next <= pool.top)
        && (ok ==> frame == next && nextFreeFrame == next + 1 && handedOut == old(handedOut) + [frame])
        && (!ok ==> frame == 0 && handedOut == old(handedOut) && pool.NextFree(nextFreeFrame) == next)
    {
      hide WellFormed, TopFrame;
      frame := 0;
      ghost var n := nextFreeFrame;
      ok := FindFrame();
      SkipReserved(pool, n, nextFreeFrame);
      if ok {
        frame := nextFreeFrame;
        nextFreeFrame := nextFreeFrame + 1;
        handedOut := handedOut + [frame];
      }
    }
  }

  /** An area that starts at or above another's last byte ends strictly above it. */
  lemma LaterArea(a: Area, b: Area)
    requires Qualifies(b) && b.base + b.length <= WORD && LastByte(a) <= b.base
    ensures LastByte(b) > LastByte(a)
  {
  }

  /** With no usable area above it, an area is the highest one. */
  lemma NoAreaAbove(areas: seq<Area>, current: nat)
    requires WellFormed(areas) && current < |areas| && Qualifies(areas[current])
    requires forall j :: 0 <= j < |areas| && Qualifies(areas[j]) ==> areas[j].base < LastByte(areas[current])
    ensures TopFrame(areas) == LastFrame(areas[current])
  {
    forall j | 0 <= j < |areas| && Qualifies(areas[j])
      ensures LastFrame(areas[j]) <= LastFrame(areas[current])
    {
      assert Bounded(areas, j) && Bounded(areas, current);
      NoWrap(areas[j]);
      NoWrap(areas[current]);
      if j != current {
        assert Apart(areas, j, current);
      }
      FramesFollowBytes(LastByte(areas[j]), LastByte(areas[current]));
    }
  }

  lemma NoWrap(a: Area)
    requires Qualifies(a) && a.base + a.length <= WORD
    ensures LastByte(a) == a.base + a.length - 1
  {
  }

  lemma FramesFollowBytes(x: nat, y: nat)
    requires x <= y
    ensures x / PAGE_SIZE <= y / PAGE_SIZE
  {
  }

  // ------------------------------------------------- where the frames come from

  predicate ByteInArea(a: Area, x: nat) {
    a.base <= x < a.base + a.length
  }

  ghost predicate ByteInAreas(areas: seq<Area>, x: nat) {
    exists j :: 0 <= j < |areas| && ByteInArea(areas[j], x)
  }

  /** Every byte of the frame lies in some area. */
  ghost predicate FrameInAreas(areas: seq<Area>, f: nat) {
    forall x :: f * PAGE_SIZE <= x < (f + 1) * PAGE_SIZE ==> ByteInAreas(areas, x)
  }

  function AreaEnd(areas: seq<Area>, j: nat): nat
    requires j < |areas|
  {
    areas[j].base + areas[j].length
  }

  /** The least base of an area above an address, but no more than limit. */
  function NextBase(areas: seq<Area>, e: nat, limit: nat): (b: nat)
    ensures b <= limit && (e < limit ==> e < b)
    ensures forall j :: 0 <= j < |areas| && e < areas[j].base ==> b <= areas[j].base
    ensures b == limit || exists j :: 0 <= j < |areas| && b == areas[j].base
  {
    if areas == [] then limit
    else
      var a, b := areas[|areas| - 1], NextBase(areas[..|areas| - 1], e, limit);
      if e < a.base < b then a.base else b
  }

  /** Where the gap around an address that lies in no area begins: at the end of an area, or at 0. */
  function GapStart(areas: seq<Area>, x: nat): (e: nat)
    ensures e <= x && forall j :: 0 <= j < |areas| && AreaEnd(areas, j) <= x ==> AreaEnd(areas, j) <= e
    ensures e == 0 || exists j :: 0 <= j < |areas| && e == AreaEnd(areas, j)
  {
    if areas == [] then 0
    else
      var n := |areas| - 1;
      var e := GapStart(areas[..n], x);
      assert forall j :: 0 <= j < n ==> AreaEnd(areas, j) == AreaEnd(areas[..n], j);
      if e < AreaEnd(areas, n) <= x then AreaEnd(areas, n) else e
  }

  /** If a gap between areas begins at e, every frame with a byte in the gap is reserved. */
  ghost predicate GapReserved(areas: seq<Area>, pool: Pool, e: nat, limit: nat) {
    e < limit && !ByteInAreas(areas, e) ==> pool.NextFree(e / PAGE_SIZE) * PAGE_SIZE >= NextBase(areas, e, limit)
  }

  /** All frames that are not wholly inside the areas, up to the end of the highest one, are reserved. */
  ghost predicate GapsReserved(areas: seq<Area>, pool: Pool)
    requires pool.top >= -1
  {
    var limit := (pool.top + 1) * PAGE_SIZE;
    && GapReserved(areas, pool, 0, limit)
    && forall j :: 0 <= j < |areas| ==> GapReserved(areas, pool, AreaEnd(areas, j), limit)
  }

  /** A byte outside the areas, in an unreserved frame, lies in a gap that is not all reserved. */
  lemma UnreservedGap(areas: seq<Area>, pool: Pool, x: nat)
    requires pool.top >= -1 && x / PAGE_SIZE <= pool.top && !pool.Reserved(x / PAGE_SIZE) && !ByteInAreas(areas, x)
    ensures !GapsReserved(areas, pool)
  {
    var e, limit := GapStart(areas, x), (pool.top + 1) * PAGE_SIZE;
    forall j | 0 <= j < |areas|
      ensures !ByteInArea(areas[j], e) && (e < areas[j].base ==> x < areas[j].base)
    {
      assert !ByteInArea(areas[j], x);
      assert AreaEnd(areas, j) <= x ==> AreaEnd(areas, j) <= e;
    }
    FramesFollowBytes(e, x);
    assert pool.NextFree(e / PAGE_SIZE) <= x / PAGE_SIZE;
    assert !GapReserved(areas, pool, e, limit);
  }

  /** The frame that a gap leaves unreserved has a byte in the gap. */
  lemma GapFrame(areas: seq<Area>, pool: Pool, e: nat)
    requires pool.top >= -1 && !GapReserved(areas, pool, e, (pool.top + 1) * PAGE_SIZE)
    ensures var f := pool.NextFree(e / PAGE_SIZE); f <= pool.top && !FrameInAreas(areas, f)
  {
    var f, limit := pool.NextFree(e / PAGE_SIZE), (pool.top + 1) * PAGE_SIZE;
    var x := if f == e / PAGE_SIZE then e else f * PAGE_SIZE;
    assert f * PAGE_SIZE <= x < (f + 1) * PAGE_SIZE;
    forall j | 0 <= j < |areas|
      ensures !ByteInArea(areas[j], x)
    {
      assert !ByteInArea(areas[j], e);
    }
    assert !ByteInAreas(areas, x);
  }

  /** With the gaps reserved, an unreserved frame lies in the areas. */
  lemma UnreservedFrameInAreas(areas: seq<Area>, pool: Pool, f: nat)
    requires f <= pool.top && !pool.Reserved(f) && GapsReserved(areas, pool)
    ensures FrameInAreas(areas, f)
  {
    hide GapsReserved, ByteInAreas;
    if x :| f * PAGE_SIZE <= x < (f + 1) * PAGE_SIZE && !ByteInAreas(areas, x) {
      assert x / PAGE_SIZE == f;
      UnreservedGap(areas, pool, x);
    }
  }

  /** Without, some unreserved frame does not. */
  lemma UnreservedFrameOutside(areas: seq<Area>, pool: Pool) returns (f: nat)
    requires pool.top >= -1 && !GapsReserved(areas, pool)
    ensures f <= pool.top && !pool.Reserved(f) && !FrameInAreas(areas, f)
  {
    hide GapReserved, FrameInAreas;
    var limit := (pool.top + 1) * PAGE_SIZE;
    var e: nat :| !GapReserved(areas, pool, e, limit)
                  && (e == 0 || exists j :: 0 <= j < |areas| && e == AreaEnd(areas, j));
    GapFrame(areas, pool, e);
    f := pool.NextFree(e / PAGE_SIZE);
  }

  /** The allocator looks neither at the areas' types nor at their bases once it has chosen one:
      the frames it hands out until it fails all lie inside the areas exactly when every frame
      of every gap, and every frame that an area covers in part, is reserved. */
  lemma FramesComeFromAreas(areas: seq<Area>, pool: Pool)
    requires pool.top >= -1
    ensures (forall f :: f in pool.FreeBelow(pool.top + 1) ==> FrameInAreas(areas, f)) <==> GapsReserved(areas, pool)
  {
    hide GapsReserved, FrameInAreas, Pool.FreeBelow;
    FreeBelowEnumerates(pool, pool.top + 1);
    if GapsReserved(areas, pool) {
      forall f | f in pool.FreeBelow(pool.top + 1)
        ensures FrameInAreas(areas, f)
      {
        UnreservedFrameInAreas(areas, pool, f);
      }
    } else {
      var f := UnreservedFrameOutside(areas, pool);
    }
  }

  /** What an allocator has handed out at any time lies inside its areas if the gaps are
      reserved; once it has gone through all its frames, only then. */
  lemma HandedOutFromAreas(alloc: Allocator)
    requires alloc.Valid()
    ensures GapsReserved(alloc.memMap, alloc.pool) ==>
              forall f :: f in alloc.handedOut ==> FrameInAreas(alloc.memMap, f)
    ensures alloc.nextFreeFrame == alloc.pool.top + 1 && !GapsReserved(alloc.memMap, alloc.pool) ==>
              exists f :: f in alloc.handedOut && !FrameInAreas(alloc.memMap, f)
  {
    hide GapsReserved, FrameInAreas, Pool.FreeBelow;
    FramesComeFromAreas(alloc.memMap, alloc.pool);
    FreeBelowEnumerates(alloc.pool, alloc.nextFreeFrame);
    FreeBelowEnumerates(alloc.pool, alloc.pool.top + 1);
  }

  /** No frame holds a byte of a section or of the multiboot structure. */
  ghost predicate KeepOffImage(frames: seq<nat>, sections: seq<Section>, multiboot: nat, multibootSize: nat) {
    && (forall s, x :: s in sections && s.addr <= x < s.addr + s.size ==> x / PAGE_SIZE !in frames)
    && (forall x :: multiboot <= x < multiboot + multibootSize ==> x / PAGE_SIZE !in frames)
  }

  lemma UnreservedKeepOffImage(pool: Pool, frames: seq<nat>, sections: seq<Section>, multiboot: nat, multibootSize: nat)
    requires forall f :: f in frames ==> !pool.Reserved(f)
    requires ReservesImage(pool, sections) && ReservesBytes(pool, multiboot, multibootSize)
    requires forall s :: s in sections ==> s.addr + s.size < WORD
    ensures KeepOffImage(frames, sections, multiboot, multibootSize)
  {
    forall s, x | s in sections && s.addr <= x < s.addr + s.size
      ensures x / PAGE_SIZE !in frames
    {
      assert ReservesBytes(pool, s.addr, s.size);
    }
  }

  /** Whatever an allocator built from these sections and this structure has handed out, none of it
      holds a byte of them. */
  lemma HandedOutKeepOffImage(alloc: Allocator, sections: seq<Section>, multiboot: nat, multibootSize: nat)
    requires alloc.Valid() && alloc.pool == PoolOf(alloc.memMap, sections, multiboot, multibootSize)
    requires forall s :: s in sections ==> s.addr + s.size < WORD
    ensures KeepOffImage(alloc.handedOut, sections, multiboot, multibootSize)
  {
    ImageReserved(alloc.memMap, sections, multiboot, multibootSize);
    FreeBelowEnumerates(alloc.pool, alloc.nextFreeFrame);
    UnreservedKeepOffImage(alloc.pool, alloc.handedOut, sections, multiboot, multibootSize);
  }

  /** What an allocator built from these sections and this structure has handed out: the frames below
      its bump pointer but for those reserved, in figures. */
  lemma HandedOutAre(alloc: Allocator, sections: seq<Section>, multiboot: nat, multibootSize: nat,
                     start: nat, end: nat, f: nat)
    requires alloc.Valid() && alloc.pool == PoolOf(alloc.memMap, sections, multiboot, multibootSize)
    requires IsExtent(sections, start, end) && forall s :: s in sections ==> s.addr < WORD
    ensures f in alloc.handedOut
       <==> && f < alloc.nextFreeFrame
            && !Between(f, start, end) && !Between(f, multiboot, multiboot + multibootSize)
  {
    ReservedIs(alloc.memMap, sections, multiboot, multibootSize, start, end, f);
    FreeBelowEnumerates(alloc.pool, alloc.nextFreeFrame);
  }

  /** Two one-frame areas with a gap between them: the second frame handed out is the gap. */
  method GapIsHandedOut() returns (alloc: Allocator, frame: nat)
    ensures alloc.Valid() && alloc.memMap == [Area(0, 4096), Area(8192, 4096)]
    ensures frame in alloc.handedOut && !FrameInAreas(alloc.memMap, frame)
  {
    alloc, frame := SecondFrame([Area(0, 4096), Area(8192, 4096)]);
    assert !ByteInAreas(alloc.memMap, 4096);
  }

  /** One area of a frame and a byte: the second frame handed out has one byte of memory. */
  method PartialFrameIsHandedOut() returns (alloc: Allocator, frame: nat)
    ensures alloc.Valid() && alloc.memMap == [Area(0, 4097)]
    ensures frame in alloc.handedOut && !FrameInAreas(alloc.memMap, frame)
  {
    alloc, frame := SecondFrame([Area(0, 4097)]);
    assert !ByteInAreas(alloc.memMap, 4097);
  }

  /** With no sections and the multiboot structure out of the way, the second frame is frame 1. */
  method SecondFrame(areas: seq<Area>) returns (alloc: Allocator, frame: nat)
    requires WellFormed(areas) && TopFrame(areas) >= 1
    ensures alloc.Valid() && alloc.memMap == areas && frame == 1 && frame in alloc.handedOut
  {
    alloc := new Allocator(areas, [], 0x7000, 8);
    NextFreeIsLeast(alloc.pool, 0, 0);
    NextFreeIsLeast(alloc.pool, 1, 1);
    var ok, first := alloc.AllocateFrame();
    ok, frame := alloc.AllocateFrame();
  }
}
