/** The kernel heap seen as blocks: a 16-byte header and a size each, tiling the heap; a free list
    whose head, the topmost block, is carved when nothing else fits. */
module FreeList {
  import opened FrameAllocator
  import opened HeapPages

  const HEADER: nat := 16
  /** sizeof(struct free_node) + 2*sizeof(uintptr_t) */
  const MINIMUM_ALLOC: nat := 32
  /** init_heap counts the whole heap as the first block's payload, header aside: the tiling
      ends one header above the mapped pages. */
  const HEAP_END: nat := HEAP_START + HEAP_SIZE + HEADER

  /** The head block, the other free blocks in list order, and the size of every block. */
  datatype Heap = Heap(head: nat, free: seq<nat>, blocks: map<nat, nat>)

  function Size(h: Heap, a: nat): nat {
    if a in h.blocks then h.blocks[a] else 0
  }

  /** The first address after a block. */
  function After(h: Heap, a: nat): nat {
    a + HEADER + Size(h, a)
  }

  predicate Live(h: Heap, a: nat) {
    a in h.blocks && a != h.head && a !in h.free
  }

  // --------------------------------------------------------------- invariant

  /** Where a block ends another begins, except for the head, which ends the heap. */
  ghost predicate BlockOk(h: Heap, a: nat) {
    && HEAP_START <= a && After(h, a) <= HEAP_END
    && if a == h.head then After(h, a) == HEAP_END else After(h, a) in h.blocks
  }

  predicate Apart(h: Heap, a: nat, b: nat) {
    a < b ==> After(h, a) <= b
  }

  ghost predicate Tiled(h: Heap) {
    && h.head in h.blocks && HEAP_START in h.blocks
    && (forall a {:trigger BlockOk(h, a)} :: a in h.blocks ==> BlockOk(h, a))
    && (forall a, b {:trigger Apart(h, a, b)} :: a in h.blocks && b in h.blocks ==> Apart(h, a, b))
  }

  ghost predicate FreeOk(h: Heap) {
    && (forall i :: 0 <= i < |h.free| ==> h.free[i] in h.blocks && h.free[i] != h.head)
    && (forall i, j :: 0 <= i < j < |h.free| ==> h.free[i] != h.free[j])
  }

  /** The blocks tile the heap, the free list has no repetition, and the header of the head
      block lies in the mapped pages. */
  ghost predicate Inv(h: Heap) {
    Tiled(h) && FreeOk(h) && Size(h, h.head) >= HEADER
  }

  function Initial(): Heap {
    Heap(HEAP_START, [], map[HEAP_START := HEAP_SIZE])
  }

  lemma InitialOk()
    ensures Inv(Initial())
  {
  }

  /** The head is the highest block. */
  lemma HeadIsHighest(h: Heap, a: nat)
    requires Inv(h) && a in h.blocks
    ensures a <= h.head && (a != h.head ==> After(h, a) <= h.head)
  {
    assert Apart(h, h.head, a) && Apart(h, a, h.head) && BlockOk(h, h.head) && BlockOk(h, a);
  }

  /** The block that holds an address, found by walking up from another one. */
  function BlockAt(h: Heap, x: nat, from: nat): nat
    decreases HEAP_END - from
  {
    if from < HEAP_END && After(h, from) <= x && After(h, from) < HEAP_END then BlockAt(h, x, After(h, from)) else from
  }

  /** Exact tiling: every address of the heap lies in one block and no other. */
  lemma {:induction false} TilingIsExact(h: Heap, x: nat, from: nat)
    requires Inv(h) && from in h.blocks && from <= x < HEAP_END
    ensures var b := BlockAt(h, x, from); b in h.blocks && b <= x < After(h, b)
    ensures forall c :: c in h.blocks && c <= x < After(h, c) ==> c == BlockAt(h, x, from)
    decreases HEAP_END - from
  {
    assert BlockOk(h, from);
    if After(h, from) <= x {
      assert BlockOk(h, h.head);
      TilingIsExact(h, x, After(h, from));
    } else {
      forall c | c in h.blocks && c <= x < After(h, c)
        ensures c == from
      {
        assert Apart(h, c, from) && Apart(h, from, c);
      }
    }
  }

  // -------------------------------------------------------------- operations

  /** The position of the first free block from i on that is large enough. */
  function FirstFit(h: Heap, req: nat, i: nat): (k: nat)
    requires i <= |h.free|
    ensures i <= k <= |h.free|
    ensures forall j :: i <= j < k ==> Size(h, h.free[j]) < req
    ensures k < |h.free| ==> Size(h, h.free[k]) >= req
    decreases |h.free| - i
  {
    if i < |h.free| && Size(h, h.free[i]) < req then FirstFit(h, req, i + 1) else i
  }

  /** The block allocate_memory returns. */
  function Chosen(h: Heap, req: nat): nat {
    var k := FirstFit(h, req, 0);
    if k < |h.free| then h.free[k] else h.head
  }

  /** A free block found: consumed whole if less than MINIMUM_ALLOC would be left, else split. */
  function TakeFree(h: Heap, req: nat, k: nat): Heap
    requires k < |h.free|
  {
    var a := h.free[k];
    if Size(h, a) < req || Size(h, a) - req < MINIMUM_ALLOC then
      h.(free := h.free[..k] + h.free[k + 1..])
    else
      var rest := a + HEADER + req;
      Heap(h.head, h.free[k := rest], h.blocks[a := req][rest := Size(h, a) - req - HEADER])
  }

  /** Nothing fits: the head block is carved and the rest becomes the new head. */
  function TakeHead(h: Heap, req: nat): Heap
    requires Size(h, h.head) >= req + HEADER
  {
    var rest := h.head + HEADER + req;
    Heap(rest, h.free, h.blocks[h.head := req][rest := Size(h, h.head) - req - HEADER])
  }

  /** The head path does not check for memory: the caller must know there is enough for the
      request, its header, and the header of the new head. */
  predicate CanAlloc(h: Heap, req: nat) {
    FirstFit(h, req, 0) < |h.free| || Size(h, h.head) >= req + 2 * HEADER
  }

  function Alloc(h: Heap, req: nat): Heap
    requires CanAlloc(h, req)
  {
    var k := FirstFit(h, req, 0);
    if k < |h.free| then TakeFree(h, req, k) else TakeHead(h, req)
  }

  /** The freed block becomes the first after the head. */
  function Free(h: Heap, a: nat): Heap {
    h.(free := [a] + h.free)
  }

  // ------------------------------------------------------------ preservation

  /** Splitting a block into a and rest keeps the tiling. */
  lemma SplitKeepsTiling(h: Heap, h': Heap, a: nat, req: nat)
    requires Tiled(h) && a in h.blocks && Size(h, a) >= req + HEADER
    requires var rest := a + HEADER + req;
      && h'.blocks == h.blocks[a := req][rest := Size(h, a) - req - HEADER]
      && h'.head == if a == h.head then rest else h.head
    ensures Tiled(h') && a + HEADER + req !in h.blocks
  {
    var rest := a + HEADER + req;
    assert BlockOk(h, a);
    assert rest in h.blocks ==> Apart(h, a, rest);
    forall b {:trigger BlockOk(h', b)} | b in h'.blocks
      ensures BlockOk(h', b)
    {
      if b != rest {
        assert BlockOk(h, b);
      }
    }
    forall b, c {:trigger Apart(h', b, c)} | b in h'.blocks && c in h'.blocks
      ensures Apart(h', b, c)
    {
      var b0, c0 := if b == rest then a else b, if c == rest then a else c;
      assert Apart(h, b0, c0) && Apart(h, c0, b0);
    }
  }

  lemma TakeFreeKeepsInv(h: Heap, req: nat, k: nat)
    requires Inv(h) && k < |h.free| && Size(h, h.free[k]) >= req
    ensures Inv(TakeFree(h, req, k))
  {
    var a, h' := h.free[k], TakeFree(h, req, k);
    if Size(h, a) - req < MINIMUM_ALLOC {
      forall b {:trigger BlockOk(h', b)} | b in h'.blocks
        ensures BlockOk(h', b)
      {
        assert BlockOk(h, b);
      }
      forall b, c {:trigger Apart(h', b, c)} | b in h'.blocks && c in h'.blocks
        ensures Apart(h', b, c)
      {
        assert Apart(h, b, c);
      }
    } else {
      SplitKeepsTiling(h, h', a, req);
      HeadIsHighest(h, a);
    }
  }

  lemma TakeHeadKeepsInv(h: Heap, req: nat)
    requires Inv(h) && Size(h, h.head) >= req + 2 * HEADER
    ensures Inv(TakeHead(h, req))
  {
    SplitKeepsTiling(h, TakeHead(h, req), h.head, req);
  }

  /** The head path as it runs, whatever the request: address and size of the rest are computed in
      64 bits and stored first. */
  function Carved(h: Heap, req: nat): Heap {
    var rest := (h.head + HEADER + req) % WORD;
    Heap(rest, h.free, h.blocks[rest := (Size(h, h.head) - req - HEADER) % WORD][h.head := req])
  }

  /** There is no check for memory. For every 64-bit request the heap stays intact exactly when the
      head block has 32 bytes more than asked for. As long as the new head's address does not wrap
      around, with fewer its header is not mapped, and with fewer than 16 its size wraps around. */
  lemma NewHeadIsMapped(h: Heap, req: nat)
    requires Inv(h) && req < WORD
    ensures Inv(Carved(h, req)) <==> Size(h, h.head) >= req + 32
    ensures h.head + 16 + req < 0x1_0000_0000_0000_0000 ==>
      var rest := Carved(h, req).head;
      && (rest + 16 <= 0x4001_9000 <==> Size(h, h.head) >= req + 32)
      && (Size(Carved(h, req), rest) < Size(h, h.head) <==> Size(h, h.head) >= req + 16)
  {
    assert BlockOk(h, h.head);
    var h' := Carved(h, req);
    if h.head + HEADER + req >= WORD {
      assert !BlockOk(h', h.head);
    } else if Size(h, h.head) >= req + 2 * HEADER {
      assert h' == TakeHead(h, req);
      TakeHeadKeepsInv(h, req);
    } else if Size(h, h.head) >= req + HEADER {
      assert Size(h', h'.head) < HEADER;
    } else {
      assert Size(h', h'.head) == Size(h, h.head) - req - HEADER + WORD;
      assert !BlockOk(h', h'.head);
    }
  }

  lemma AllocKeepsInv(h: Heap, req: nat)
    requires Inv(h) && CanAlloc(h, req)
    ensures Inv(Alloc(h, req))
  {
    var k := FirstFit(h, req, 0);
    if k < |h.free| {
      TakeFreeKeepsInv(h, req, k);
    } else {
      TakeHeadKeepsInv(h, req);
    }
  }

  lemma FreeKeepsInv(h: Heap, a: nat)
    requires Inv(h) && Live(h, a)
    ensures Inv(Free(h, a))
  {
    var h' := Free(h, a);
    forall b {:trigger BlockOk(h', b)} | b in h'.blocks
      ensures BlockOk(h', b)
    {
      assert BlockOk(h, b);
    }
    forall b, c {:trigger Apart(h', b, c)} | b in h'.blocks && c in h'.blocks
      ensures Apart(h', b, c)
    {
      assert Apart(h, b, c);
    }
  }

  // ----------------------------------------------------------- what is granted

  /** The chosen block was not live and now is; it grants the request and at most 31 bytes
      more; every other live block stays live with its size, and no other block becomes live. */
  lemma AllocGrants(h: Heap, req: nat)
    requires Inv(h) && CanAlloc(h, req)
    ensures var a, h' := Chosen(h, req), Alloc(h, req);
      && !Live(h, a) && Live(h', a) && req <= Size(h', a) <= req + 31
      && (forall b :: b != a ==> (Live(h', b) <==> Live(h, b)))
      && (forall b :: Live(h, b) ==> Size(h', b) == Size(h, b))
      && (forall b :: b in h.blocks ==> b in h'.blocks)
  {
    var k, a, h' := FirstFit(h, req, 0), Chosen(h, req), Alloc(h, req);
    if k < |h.free| {
      if Size(h, a) - req < MINIMUM_ALLOC {
        RemoveFromList(h.free, k);
      } else {
        SplitKeepsTiling(h, h', a, req);
        ReplaceInList(h.free, k, a + HEADER + req);
        HeadIsHighest(h, a);
      }
    } else {
      SplitKeepsTiling(h, h', h.head, req);
    }
  }

  lemma RemoveFromList(s: seq<nat>, k: nat)
    requires k < |s| && forall i, j :: 0 <= i < j < |s| ==> s[i] != s[j]
    ensures forall x :: x in s[..k] + s[k + 1..] <==> x in s && x != s[k]
  {
    forall x | x in s && x != s[k]
      ensures x in s[..k] + s[k + 1..]
    {
      var i :| 0 <= i < |s| && s[i] == x;
      assert x == (s[..k] + s[k + 1..])[if i < k then i else i - 1];
    }
  }

  lemma ReplaceInList(s: seq<nat>, k: nat, y: nat)
    requires k < |s| && forall i, j :: 0 <= i < j < |s| ==> s[i] != s[j]
    ensures forall x :: x in s[k := y] <==> x == y || (x in s && x != s[k])
  {
    assert s[k := y][k] == y;
    forall x | x in s && x != s[k]
      ensures x in s[k := y]
    {
      var i :| 0 <= i < |s| && s[i] == x;
      assert s[k := y][i] == x;
    }
  }

  /** Live payloads are disjoint from one another and from every header, lie below the head
      block, and are mapped. */
  lemma LivePayloads(h: Heap, a: nat, b: nat, x: nat)
    requires Inv(h) && Live(h, a) && a + 16 <= x < a + 16 + Size(h, a) && b in h.blocks && b != a
    ensures !(b <= x < After(h, b)) && x < h.head && 0x4000_0000 <= x < 0x4001_9000
  {
    assert Apart(h, a, b) && Apart(h, b, a) && BlockOk(h, a);
    HeadIsHighest(h, a);
    assert BlockOk(h, h.head);
  }

  /** Every header lies in the mapped pages. */
  lemma HeadersAreMapped(h: Heap, a: nat)
    requires Inv(h) && a in h.blocks
    ensures HEAP_START <= a && a + HEADER <= HEAP_START + HEAP_SIZE
  {
    assert BlockOk(h, a) && BlockOk(h, h.head);
    HeadIsHighest(h, a);
  }

  /** The first block of the list that is large enough. */
  predicate IsFirstFit(h: Heap, req: nat, k: nat) {
    k < |h.free| && Size(h, h.free[k]) >= req && forall j | 0 <= j < k :: Size(h, h.free[j]) < req
  }

  /** An allocation in figures. The first block that is large enough is taken whole, and leaves the
      list, if it has at most 31 bytes more than asked for; otherwise it keeps exactly what was
      asked for, and a block of the rest, less 16 bytes, stands behind it and in its place in the
      list. If none is, the head is cut in the same way and its rest is the new head. */
  lemma AllocInFigures(h: Heap, req: nat, k: nat)
    requires CanAlloc(h, req)
    ensures IsFirstFit(h, req, k) ==>
      var a, size := h.free[k], Size(h, h.free[k]);
      && Chosen(h, req) == a
      && Alloc(h, req) == if size <= req + 31 then Heap(h.head, h.free[..k] + h.free[k + 1..], h.blocks)
                          else Heap(h.head, h.free[k := a + 16 + req],
                                    h.blocks[a := req][a + 16 + req := size - req - 16])
    ensures (forall j :: 0 <= j < |h.free| ==> Size(h, h.free[j]) < req) ==>
      && Chosen(h, req) == h.head && Size(h, h.head) >= req + 32
      && Alloc(h, req) == Heap(h.head + 16 + req, h.free,
                               h.blocks[h.head := req][h.head + 16 + req := Size(h, h.head) - req - 16])
  {
    var i := FirstFit(h, req, 0);
    if IsFirstFit(h, req, k) {
      assert i == k;
    }
  }

  /** Freeing a block and asking for n bytes gives the block back and restores the heap, in every
      detail, if and only if the block has between n and n + 31 bytes. */
  lemma FreeThenAlloc(h: Heap, a: nat, n: nat)
    requires Inv(h) && Live(h, a)
    ensures n <= Size(h, a) <= n + 31 ==> CanAlloc(Free(h, a), n) && Chosen(Free(h, a), n) == a
    ensures CanAlloc(Free(h, a), n) ==> (Alloc(Free(h, a), n) == h <==> n <= Size(h, a) <= n + 31)
  {
    var h' := Free(h, a);
    assert h'.free[0] == a;
    if n <= Size(h, a) {
      assert FirstFit(h', n, 0) == 0;
      assert h'.free[..0] + h'.free[1..] == h.free;
      if Size(h, a) >= n + 32 {
        assert h'.blocks == h.blocks && BlockOk(h, a);
        assert TakeFree(h', n, 0).blocks[a] == n;
      }
    } else if CanAlloc(h', n) {
      var k := FirstFit(h', n, 0);
      assert k > 0;
      assert Alloc(h', n).free[0] == a;
    }
  }
}
