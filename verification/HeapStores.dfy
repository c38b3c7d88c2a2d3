/** The stores of kfree and of the three ways allocate_memory can go, and the lists they leave. */
module HeapStores {
  import opened FrameAllocator
  import opened HeapPages
  import opened FreeList
  import opened HeapMemory

  /** node->next = head->next; head->next = node */
  function FreeStores(s: seq<byte>, head: nat, next: nat, a: nat): seq<byte>
    requires |s| == HEAP_SIZE && InHeap(head) && InHeap(a)
  {
    SetNext(SetNext(s, a, next), head, a)
  }

  /** A block taken whole: next and size of the block, then the link that led to it. */
  function WholeStores(s: seq<byte>, a: nat, size: nat, pred: nat, next: nat): seq<byte>
    requires |s| == HEAP_SIZE && InHeap(a) && InHeap(pred)
  {
    SetNext(SetSize(SetNext(s, a, 0), a, size), pred, next)
  }

  /** A block cut in two: the rest's header first, then the block's. */
  function CutStores(s: seq<byte>, a: nat, req: nat, rest: nat, restSize: nat, next: nat): seq<byte>
    requires |s| == HEAP_SIZE && InHeap(a) && InHeap(rest)
  {
    SetSize(SetNext(SetNext(SetSize(s, rest, restSize), rest, next), a, 0), a, req)
  }

  /** Effect of FreeStores on every header. */
  lemma FreeStoresHeaders(s: seq<byte>, head: nat, next: nat, a: nat)
    requires |s| == HEAP_SIZE && InHeap(head) && InHeap(a) && Separate(a, head) && next < WORD
    ensures var r := FreeStores(s, head, next, a);
      && |r| == HEAP_SIZE && NextOf(r, a) == next && NextOf(r, head) == a
      && SizeOf(r, a) == SizeOf(s, a) && SizeOf(r, head) == SizeOf(s, head)
      && (forall b: nat :: InHeap(b) && Separate(a, b) && Separate(head, b) ==>
            NextOf(r, b) == NextOf(s, b) && SizeOf(r, b) == SizeOf(s, b))
  {
    NextSet(s, a, next);
    NextSet(SetNext(s, a, next), head, a);
  }

  lemma WholeStoresHeaders(s: seq<byte>, a: nat, size: nat, pred: nat, next: nat)
    requires |s| == HEAP_SIZE && InHeap(a) && InHeap(pred) && Separate(a, pred) && next < WORD && size < WORD
    ensures var r := WholeStores(s, a, size, pred, next);
      && |r| == HEAP_SIZE && SizeOf(r, a) == size && NextOf(r, pred) == next && SizeOf(r, pred) == SizeOf(s, pred)
      && (forall b: nat :: InHeap(b) && Separate(a, b) && Separate(pred, b) ==>
            NextOf(r, b) == NextOf(s, b) && SizeOf(r, b) == SizeOf(s, b))
  {
    NextSet(s, a, 0);
    SizeSet(SetNext(s, a, 0), a, size);
    NextSet(SetSize(SetNext(s, a, 0), a, size), pred, next);
  }

  lemma CutStoresHeaders(s: seq<byte>, a: nat, req: nat, rest: nat, restSize: nat, next: nat)
    requires |s| == HEAP_SIZE && InHeap(a) && InHeap(rest) && Separate(a, rest)
    requires next < WORD && restSize < WORD && req < WORD
    ensures var r := CutStores(s, a, req, rest, restSize, next);
      && |r| == HEAP_SIZE && SizeOf(r, a) == req && SizeOf(r, rest) == restSize && NextOf(r, rest) == next
      && (forall b: nat :: InHeap(b) && Separate(a, b) && Separate(rest, b) ==>
            NextOf(r, b) == NextOf(s, b) && SizeOf(r, b) == SizeOf(s, b))
  {
    var s1 := SetSize(s, rest, restSize);
    var s2 := SetNext(s1, rest, next);
    var s3 := SetNext(s2, a, 0);
    SizeSet(s, rest, restSize);
    NextSet(s1, rest, next);
    NextSet(s2, a, 0);
    SizeSet(s3, a, req);
  }

  // ----------------------------------------------------------------- the lists

  lemma FreeHeaders(s: seq<byte>, h: Heap, a: nat)
    requires Inv(h) && Headers(s, h) && Live(h, a) && Inv(Free(h, a)) && InHeap(h.head) && InHeap(a)
    ensures Headers(FreeStores(s, h.head, Link(h, 0), a), Free(h, a))
  {
    hide NextOf, SizeOf, SetNext, SetSize, Load64, Store64, Tiled;
    var h', r := Free(h, a), FreeStores(s, h.head, Link(h, 0), a);
    NthIsBlock(h, 0);
    BlocksSeparate(h, a, h.head);
    FreeStoresHeaders(s, h.head, Link(h, 0), a);
    forall b {:trigger SizeOk(r, h', b)} | b in h'.blocks
      ensures SizeOk(r, h', b)
    {
      HeadersAreMapped(h, b);
      assert SizeOk(s, h, b);
      if b != a && b != h.head {
        BlocksSeparate(h, a, b);
        BlocksSeparate(h, h.head, b);
      }
    }
    forall i {:trigger LinkOk(r, h', i)} | 0 <= i <= |h'.free|
      ensures LinkOk(r, h', i)
    {
      if i >= 2 {
        assert LinkOk(s, h, i - 1);
        NthIsBlock(h, i - 1);
        assert Nth(h', i) == Nth(h, i - 1);
        BlocksSeparate(h, a, Nth(h, i - 1));
        BlocksSeparate(h, h.head, Nth(h, i - 1));
      }
    }
  }

  /** Positions of the list are different blocks. */
  lemma NthsDiffer(h: Heap, i: nat, j: nat)
    requires Inv(h) && i <= |h.free| && j <= |h.free| && i != j
    ensures Separate(Nth(h, i), Nth(h, j))
  {
    NthIsBlock(h, i);
    NthIsBlock(h, j);
    BlocksSeparate(h, Nth(h, i), Nth(h, j));
  }

  lemma WholeHeaders(s: seq<byte>, h: Heap, req: nat, k: nat)
    requires Inv(h) && Headers(s, h) && k < |h.free| && req <= Size(h, h.free[k]) < req + MINIMUM_ALLOC
    requires Inv(TakeFree(h, req, k)) && InHeap(h.free[k]) && InHeap(Nth(h, k)) && Size(h, h.free[k]) < WORD
    ensures Headers(WholeStores(s, h.free[k], Size(h, h.free[k]), Nth(h, k), Link(h, k + 1)), TakeFree(h, req, k))
  {
    hide NextOf, SizeOf, SetNext, SetSize, Load64, Store64, Tiled;
    var a, pred, h' := h.free[k], Nth(h, k), TakeFree(h, req, k);
    var r := WholeStores(s, a, Size(h, a), pred, Link(h, k + 1));
    NthsDiffer(h, k, k + 1);
    NthIsBlock(h, k);
    NthIsBlock(h, k + 1);
    WholeStoresHeaders(s, a, Size(h, a), pred, Link(h, k + 1));
    forall b {:trigger SizeOk(r, h', b)} | b in h'.blocks
      ensures SizeOk(r, h', b)
    {
      HeadersAreMapped(h, b);
      assert SizeOk(s, h, b);
      if b != a && b != pred {
        BlocksSeparate(h, a, b);
        BlocksSeparate(h, pred, b);
      }
    }
    forall i {:trigger LinkOk(r, h', i)} | 0 <= i <= |h'.free|
      ensures LinkOk(r, h', i)
    {
      var j := if i <= k then i else i + 1;
      assert Nth(h', i) == Nth(h, j);
      assert LinkOk(s, h, j);
      NthIsBlock(h, j);
      if j != k {
        NthsDiffer(h, k, j);
        NthsDiffer(h, k + 1, j);
      }
    }
  }

  /** The link to the rest of a split block. */
  lemma SplitHeaders(s: seq<byte>, h: Heap, req: nat, k: nat)
    requires Inv(h) && Headers(s, h) && k < |h.free| && Size(h, h.free[k]) >= req + MINIMUM_ALLOC
    requires Inv(TakeFree(h, req, k)) && Size(h, h.free[k]) < WORD
    requires var a := h.free[k]; InHeap(a) && InHeap(a + HEADER + req) && InHeap(Nth(h, k))
    ensures var a := h.free[k];
      var rest := a + HEADER + req;
      Headers(SetNext(CutStores(s, a, req, rest, Size(h, a) - req - HEADER, Link(h, k + 1)), Nth(h, k), rest),
              TakeFree(h, req, k))
  {
    hide NextOf, SizeOf, SetNext, SetSize, Load64, Store64, Tiled;
    var a, pred, h' := h.free[k], Nth(h, k), TakeFree(h, req, k);
    var rest := a + HEADER + req;
    var r1 := CutStores(s, a, req, rest, Size(h, a) - req - HEADER, Link(h, k + 1));
    var r := SetNext(r1, pred, rest);
    NthIsBlock(h, k);
    NthIsBlock(h, k + 1);
    SplitKeepsTiling(h, h', a, req);
    BlocksSeparate(h', a, rest);
    BlocksSeparate(h', pred, rest);
    NthsDiffer(h, k, k + 1);
    CutStoresHeaders(s, a, req, rest, Size(h, a) - req - HEADER, Link(h, k + 1));
    NextSet(r1, pred, rest);
    forall b {:trigger SizeOk(r, h', b)} | b in h'.blocks
      ensures SizeOk(r, h', b)
    {
      HeadersAreMapped(h', b);
      if b != a && b != rest {
        assert SizeOk(s, h, b);
        BlocksSeparate(h', a, b);
        BlocksSeparate(h', rest, b);
        if b != pred {
          BlocksSeparate(h', pred, b);
        }
      }
    }
    forall i {:trigger LinkOk(r, h', i)} | 0 <= i <= |h'.free|
      ensures LinkOk(r, h', i)
    {
      NthIsBlock(h', i);
      if i != k + 1 {
        assert Nth(h', i) == Nth(h, i);
        assert LinkOk(s, h, i);
        NthsDiffer(h', i, k + 1);
        if i != k {
          NthsDiffer(h, i, k);
          NthsDiffer(h, i, k + 1);
        }
      }
    }
  }

  lemma HeadHeaders(s: seq<byte>, h: Heap, req: nat)
    requires Inv(h) && Headers(s, h) && Size(h, h.head) >= req + 2 * HEADER && Size(h, h.head) < WORD
    requires Inv(TakeHead(h, req)) && InHeap(h.head) && InHeap(h.head + HEADER + req)
    ensures var rest := h.head + HEADER + req;
      Headers(CutStores(s, h.head, req, rest, Size(h, h.head) - req - HEADER, Link(h, 0)), TakeHead(h, req))
  {
    hide NextOf, SizeOf, SetNext, SetSize, Load64, Store64, Tiled;
    var a, h' := h.head, TakeHead(h, req);
    var rest := a + HEADER + req;
    var r := CutStores(s, a, req, rest, Size(h, a) - req - HEADER, Link(h, 0));
    NthIsBlock(h, 0);
    SplitKeepsTiling(h, h', a, req);
    BlocksSeparate(h', a, rest);
    CutStoresHeaders(s, a, req, rest, Size(h, a) - req - HEADER, Link(h, 0));
    forall b {:trigger SizeOk(r, h', b)} | b in h'.blocks
      ensures SizeOk(r, h', b)
    {
      HeadersAreMapped(h', b);
      if b != a && b != rest {
        assert SizeOk(s, h, b);
        BlocksSeparate(h', a, b);
        BlocksSeparate(h', rest, b);
      }
    }
    forall i {:trigger LinkOk(r, h', i)} | 0 <= i <= |h'.free|
      ensures LinkOk(r, h', i)
    {
      NthIsBlock(h', i);
      if i != 0 {
        assert Nth(h', i) == Nth(h, i);
        assert LinkOk(s, h, i);
        NthsDiffer(h', i, 0);
        NthsDiffer(h, i, 0);
      }
    }
  }

  // ------------------------------------------------------------------ payloads

  /** x is a byte of the payload of a live block. */
  predicate PayloadByte(h: Heap, b: nat, x: nat) {
    Live(h, b) && b + HEADER <= x < After(h, b) && HEAP_START <= x < HEAP_START + HEAP_SIZE
  }

  /** No byte of any live payload differs. */
  ghost predicate KeepsPayloads(s: seq<byte>, r: seq<byte>, h: Heap)
    requires |s| == |r| == HEAP_SIZE
  {
    forall b: nat, x: nat {:trigger PayloadByte(h, b, x)} :: PayloadByte(h, b, x) ==>
      r[x - HEAP_START] == s[x - HEAP_START]
  }

  /** Headers hold no payload byte. */
  lemma HeaderHoldsNoPayload(h: Heap, b: nat, x: nat, c: nat)
    requires Inv(h) && PayloadByte(h, b, x) && c in h.blocks
    ensures x < c || c + HEADER <= x
  {
    if c != b {
      LivePayloads(h, b, c, x);
    }
  }

  lemma FreeStoresKeep(s: seq<byte>, h: Heap, next: nat, a: nat)
    requires |s| == HEAP_SIZE && Inv(h) && a in h.blocks && InHeap(h.head) && InHeap(a)
    ensures KeepsPayloads(s, FreeStores(s, h.head, next, a), h)
  {
    SetKeepsBytes(s, a, next);
    SetKeepsBytes(SetNext(s, a, next), h.head, a);
    forall b: nat, x: nat {:trigger PayloadByte(h, b, x)} | PayloadByte(h, b, x)
      ensures FreeStores(s, h.head, next, a)[x - HEAP_START] == s[x - HEAP_START]
    {
      HeaderHoldsNoPayload(h, b, x, a);
      HeaderHoldsNoPayload(h, b, x, h.head);
    }
  }

  lemma WholeStoresKeep(s: seq<byte>, h: Heap, a: nat, size: nat, pred: nat, next: nat)
    requires |s| == HEAP_SIZE && Inv(h) && a in h.blocks && pred in h.blocks && InHeap(a) && InHeap(pred)
    ensures KeepsPayloads(s, WholeStores(s, a, size, pred, next), h)
  {
    var s1 := SetNext(s, a, 0);
    var s2 := SetSize(s1, a, size);
    SetKeepsBytes(s, a, 0);
    SetKeepsBytes(s1, a, size);
    SetKeepsBytes(s2, pred, next);
    forall b: nat, x: nat {:trigger PayloadByte(h, b, x)} | PayloadByte(h, b, x)
      ensures SetNext(s2, pred, next)[x - HEAP_START] == s[x - HEAP_START]
    {
      HeaderHoldsNoPayload(h, b, x, a);
      HeaderHoldsNoPayload(h, b, x, pred);
    }
  }

  /** h is the heap after the cut: both parts are blocks of it. */
  lemma CutStoresKeep(s: seq<byte>, h: Heap, a: nat, req: nat, rest: nat, restSize: nat, next: nat)
    requires |s| == HEAP_SIZE && Inv(h) && a in h.blocks && rest in h.blocks && InHeap(a) && InHeap(rest)
    ensures KeepsPayloads(s, CutStores(s, a, req, rest, restSize, next), h)
  {
    var s1 := SetSize(s, rest, restSize);
    var s2 := SetNext(s1, rest, next);
    var s3 := SetNext(s2, a, 0);
    SetKeepsBytes(s, rest, restSize);
    SetKeepsBytes(s1, rest, next);
    SetKeepsBytes(s2, a, 0);
    SetKeepsBytes(s3, a, req);
    forall b: nat, x: nat {:trigger PayloadByte(h, b, x)} | PayloadByte(h, b, x)
      ensures SetSize(s3, a, req)[x - HEAP_START] == s[x - HEAP_START]
    {
      HeaderHoldsNoPayload(h, b, x, a);
      HeaderHoldsNoPayload(h, b, x, rest);
    }
  }

  lemma SetNextKeeps(s: seq<byte>, h: Heap, a: nat, v: nat)
    requires |s| == HEAP_SIZE && Inv(h) && a in h.blocks && InHeap(a)
    ensures KeepsPayloads(s, SetNext(s, a, v), h)
  {
    SetKeepsBytes(s, a, v);
    forall b: nat, x: nat {:trigger PayloadByte(h, b, x)} | PayloadByte(h, b, x)
      ensures SetNext(s, a, v)[x - HEAP_START] == s[x - HEAP_START]
    {
      HeaderHoldsNoPayload(h, b, x, a);
    }
  }

  /** Payload bytes before an allocation are payload bytes after it. */
  lemma AllocKeepsPayloadBytes(s: seq<byte>, r: seq<byte>, h: Heap, req: nat)
    requires |s| == |r| == HEAP_SIZE && Inv(h) && CanAlloc(h, req) && KeepsPayloads(s, r, Alloc(h, req))
    ensures KeepsPayloads(s, r, h)
  {
    AllocGrants(h, req);
    forall b: nat, x: nat {:trigger PayloadByte(h, b, x)} | PayloadByte(h, b, x)
      ensures r[x - HEAP_START] == s[x - HEAP_START]
    {
      assert PayloadByte(Alloc(h, req), b, x);
    }
  }

  /** Two memories that differ at most between two addresses. */
  ghost predicate SameBut(s: seq<byte>, r: seq<byte>, lo: nat, hi: nat)
    requires |s| == |r| == HEAP_SIZE
  {
    forall x | 0 <= x < HEAP_SIZE && (x + HEAP_START < lo || hi <= x + HEAP_START) :: r[x] == s[x]
  }

  lemma SameHeader(s: seq<byte>, r: seq<byte>, lo: nat, hi: nat, a: nat)
    requires |s| == |r| == HEAP_SIZE && SameBut(s, r, lo, hi) && InHeap(a) && (a + HEADER <= lo || hi <= a)
    ensures NextOf(r, a) == NextOf(s, a) && SizeOf(r, a) == SizeOf(s, a)
  {
    var o := a - HEAP_START;
    assert s[o..o + 8] == r[o..o + 8];
    assert s[o + 8..o + 16] == r[o + 8..o + 16];
  }

  /** Whatever is written to a live payload, the list in memory stays as it was. */
  lemma PayloadWriteKeepsHeaders(s: seq<byte>, r: seq<byte>, h: Heap, b: nat)
    requires Inv(h) && Headers(s, h) && Live(h, b) && |r| == HEAP_SIZE
    requires SameBut(s, r, b + HEADER, After(h, b))
    ensures Headers(r, h)
  {
    hide NextOf, SizeOf;
    forall a | a in h.blocks
      ensures InHeap(a) && NextOf(r, a) == NextOf(s, a) && SizeOf(r, a) == SizeOf(s, a)
    {
      HeadersAreMapped(h, a);
      assert FreeList.Apart(h, a, b) && FreeList.Apart(h, b, a);
      SameHeader(s, r, b + HEADER, After(h, b), a);
    }
    forall a {:trigger SizeOk(r, h, a)} | a in h.blocks
      ensures SizeOk(r, h, a)
    {
      assert SizeOk(s, h, a);
    }
    forall i {:trigger LinkOk(r, h, i)} | 0 <= i <= |h.free|
      ensures LinkOk(r, h, i)
    {
      assert LinkOk(s, h, i);
      NthIsBlock(h, i);
    }
  }
}
