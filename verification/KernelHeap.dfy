/** kmalloc, kfree and krealloc over the bytes of the mapped heap. */
module KernelHeap {
  import opened FrameAllocator
  import opened HeapPages
  import opened FreeList
  import opened HeapMemory
  import opened HeapStores
  import opened HeapRuns

  const NULL: nat := 0

  class KHeap {
    /** The bytes of the pages mapped for the heap. */
    const mem: array<byte>
    var freeListHead: nat
    /** The blocks the bytes describe. */
    ghost var heap: Heap

    ghost predicate Valid()
      reads this, mem
    {
      mem.Length == HEAP_SIZE && freeListHead == heap.head && Inv(heap) && Headers(mem[..], heap)
    }

    /** init_heap, once the pages are mapped: one free block whose size is the whole heap. */
    constructor ()
      ensures Valid() && fresh(mem) && heap == Initial() == Heap(0x4000_0000, [], map[0x4000_0000 := 102400])
    {
      freeListHead := HEAP_START;
      mem := new byte[HEAP_SIZE];
      heap := Initial();
      new;
      InitialOk();
      ghost var s := mem[..];
      WriteNext(freeListHead, NULL);
      WriteSize(freeListHead, HEAP_SIZE);
      InitialHeaders(s);
    }

    // ------------------------------------------------------- fields in memory

    method Put64(off: nat, v: nat)
      requires mem.Length == HEAP_SIZE && off + 8 <= HEAP_SIZE
      modifies mem
      ensures mem[..] == Store64(old(mem[..]), off, v)
    {
      ghost var s, digits: seq<byte> := mem[..], [];
      var w := v;
      for i := 0 to 8
        invariant |digits| == i && EncodeBytes(v, 8) == digits + EncodeBytes(w, 8 - i)
        invariant mem[..] == s[..off] + digits + s[off + i..]
      {
        ghost var t := mem[..];
        NextByte(s, t, off, digits, w % 256);
        mem[off + i] := w % 256;
        assert mem[..] == t[off + i := w % 256];
        digits := digits + [w % 256];
        w := w / 256;
      }
    }

    method ReadNext(a: nat) returns (v: nat)
      requires mem.Length == HEAP_SIZE && InHeap(a)
      ensures v == NextOf(mem[..], a)
    {
      var off := a - HEAP_START;
      assert mem[off..off + 8] == mem[..][off..off + 8];
      v := DecodeBytes(mem[off..off + 8]);
    }

    method ReadSize(a: nat) returns (v: nat)
      requires mem.Length == HEAP_SIZE && InHeap(a)
      ensures v == SizeOf(mem[..], a)
    {
      var off := a - HEAP_START + 8;
      assert mem[off..off + 8] == mem[..][off..off + 8];
      v := DecodeBytes(mem[off..off + 8]);
    }

    method WriteNext(a: nat, v: nat)
      requires mem.Length == HEAP_SIZE && InHeap(a)
      modifies mem
      ensures mem[..] == SetNext(old(mem[..]), a, v)
    {
      Put64(a - HEAP_START, v);
    }

    method WriteSize(a: nat, v: nat)
      requires mem.Length == HEAP_SIZE && InHeap(a)
      modifies mem
      ensures mem[..] == SetSize(old(mem[..]), a, v)
    {
      Put64(a - HEAP_START + 8, v);
    }

    // --------------------------------------------------------------- operations

    /** The free block found by the search; node leads to it. Less than MINIMUM_ALLOC would be
        left of it, so it is taken whole. */
    method TakeWhole(node: nat, oldNode: nat, requiredBytes: nat, ghost k: nat)
      requires Valid() && k < |heap.free| && node == Nth(heap, k) && oldNode == heap.free[k]
      requires requiredBytes <= Size(heap, oldNode) < requiredBytes + MINIMUM_ALLOC
      modifies mem, this`heap
      ensures Valid() && heap == TakeFree(old(heap), requiredBytes, k)
      ensures KeepsPayloads(old(mem[..]), mem[..], heap)
    {
      hide Inv, Headers, KeepsPayloads, SetNext, SetSize, NextOf, SizeOf, InHeap;
      ghost var s, h := mem[..], heap;
      TakeFreeKeepsInv(h, requiredBytes, k);
      BlockInMemory(s, h, k);
      WholeHeaders(s, h, requiredBytes, k);
      var size := ReadSize(oldNode);
      var next := ReadNext(oldNode);
      WholeStoresKeep(s, TakeFree(h, requiredBytes, k), oldNode, size, node, next);
      WriteNext(oldNode, NULL);
      WriteSize(oldNode, size);
      WriteNext(node, next);
      heap := TakeFree(h, requiredBytes, k);
    }

    /** There is room for another block: it is cut in two, and the rest takes its place in the list. */
    method SplitBlock(node: nat, oldNode: nat, requiredBytes: nat, ghost k: nat)
      requires Valid() && k < |heap.free| && node == Nth(heap, k) && oldNode == heap.free[k]
      requires requiredBytes + MINIMUM_ALLOC <= Size(heap, oldNode)
      modifies mem, this`heap
      ensures Valid() && heap == TakeFree(old(heap), requiredBytes, k)
      ensures KeepsPayloads(old(mem[..]), mem[..], heap)
    {
      hide Inv, Headers, KeepsPayloads, SetNext, SetSize, NextOf, SizeOf, InHeap, CutStores;
      ghost var s, h := mem[..], heap;
      TakeFreeKeepsInv(h, requiredBytes, k);
      BlockInMemory(s, h, k);
      RestInMemory(h, requiredBytes, k);
      SplitHeaders(s, h, requiredBytes, k);
      var size := ReadSize(oldNode);
      var newNextNode := oldNode + HEADER + requiredBytes;
      ghost var next := NextOf(s, oldNode);
      CutBlock(oldNode, requiredBytes, newNextNode, size - requiredBytes - HEADER);
      CutStoresKeep(s, TakeFree(h, requiredBytes, k), oldNode, requiredBytes, newNextNode,
                    size - requiredBytes - HEADER, next);
      SetNextKeeps(mem[..], TakeFree(h, requiredBytes, k), node, newNextNode);
      KeepsPayloadsTransitive(s, mem[..], SetNext(mem[..], node, newNextNode), TakeFree(h, requiredBytes, k));
      WriteNext(node, newNextNode);
      heap := TakeFree(h, requiredBytes, k);
    }

    /** The header of the rest, then that of the block cut off. */
    method CutBlock(node: nat, requiredBytes: nat, rest: nat, restSize: nat)
      requires mem.Length == HEAP_SIZE && InHeap(node) && InHeap(rest) && Separate(node, rest)
      requires restSize < WORD && NextOf(mem[..], node) < WORD
      modifies mem
      ensures mem[..] == CutStores(old(mem[..]), node, requiredBytes, rest, restSize, NextOf(old(mem[..]), node))
    {
      hide SetNext, SetSize, NextOf, SizeOf;
      SizeSet(mem[..], rest, restSize);
      WriteSize(rest, restSize);
      var next := ReadNext(node);
      WriteNext(rest, next);
      WriteNext(node, NULL);
      WriteSize(node, requiredBytes);
    }

    /** Nothing fits: the head block is cut and its rest becomes the head. */
    method CarveHead(requiredBytes: nat)
      requires Valid() && Size(heap, heap.head) >= requiredBytes + 2 * HEADER
      modifies mem, this
      ensures Valid() && heap == TakeHead(old(heap), requiredBytes)
      ensures KeepsPayloads(old(mem[..]), mem[..], heap)
    {
      hide Inv, Headers, KeepsPayloads, SetNext, SetSize, NextOf, SizeOf, InHeap, CutStores;
      ghost var s, h := mem[..], heap;
      TakeHeadKeepsInv(h, requiredBytes);
      HeadInMemory(s, h, requiredBytes);
      HeadHeaders(s, h, requiredBytes);
      var oldHead := freeListHead;
      var newHead := oldHead + HEADER + requiredBytes;
      var size := ReadSize(oldHead);
      CutBlock(oldHead, requiredBytes, newHead, size - requiredBytes - HEADER);
      CutStoresKeep(s, TakeHead(h, requiredBytes), oldHead, requiredBytes, newHead,
                    size - requiredBytes - HEADER, Link(h, 0));
      freeListHead := newHead;
      heap := TakeHead(h, requiredBytes);
    }

    /** First fit over the list after the head, which is carved when nothing fits. */
    method AllocateMemory(requiredBytes: nat) returns (node: nat)
      requires Valid() && CanAlloc(heap, requiredBytes)
      modifies mem, this
      ensures Valid() && heap == Alloc(old(heap), requiredBytes) && node == Chosen(old(heap), requiredBytes)
      ensures KeepsPayloads(old(mem[..]), mem[..], old(heap))
    {
      hide Inv, Headers, KeepsPayloads, NextOf, SizeOf, InHeap, TakeFree, TakeHead;
      ghost var s, h, k := mem[..], heap, 0;
      node := freeListHead;
      var next := FollowLink(node, k);
      while next != NULL
        invariant mem[..] == s && heap == h && freeListHead == h.head
        invariant k <= |h.free| && node == Nth(h, k) && next == Link(h, k)
        invariant FirstFit(h, requiredBytes, k) == FirstFit(h, requiredBytes, 0)
        decreases |h.free| - k
      {
        LinkIsBlock(h, k);
        BlockInMemory(s, h, k);
        var size := ReadSize(next);
        if size >= requiredBytes {
          if size - requiredBytes < MINIMUM_ALLOC {
            TakeWhole(node, next, requiredBytes, k);
          } else {
            SplitBlock(node, next, requiredBytes, k);
          }
          AllocKeepsPayloadBytes(s, mem[..], h, requiredBytes);
          return next;
        }
        node := next;
        k := k + 1;
        next := FollowLink(node, k);
      }
      EndOfList(h, k);
      node := freeListHead;
      CarveHead(requiredBytes);
      AllocKeepsPayloadBytes(s, mem[..], h, requiredBytes);
    }

    /** node->next */
    method FollowLink(node: nat, ghost k: nat) returns (next: nat)
      requires Valid() && k <= |heap.free| && node == Nth(heap, k)
      ensures next == Link(heap, k)
    {
      assert LinkOk(mem[..], heap, k);
      next := ReadNext(node);
    }

    /** The payload handed out is live, at least as large as asked for, and no byte of any
        other live payload changes. */
    method Kmalloc(bytes: nat) returns (addr: nat)
      requires Valid() && CanAlloc(heap, bytes)
      modifies mem, this
      ensures Valid() && heap == Alloc(old(heap), bytes) && addr == Chosen(old(heap), bytes) + 16
      ensures heap == StepCall(old(heap), Call.Kmalloc(bytes))
      ensures KeepsPayloads(old(mem[..]), mem[..], old(heap))
    {
      var node := AllocateMemory(bytes);
      addr := node + HEADER;
    }

    /** A program writes a byte of a payload it owns. */
    method WriteByte(block: nat, addr: nat, value: byte)
      requires Valid() && PayloadByte(heap, block, addr)
      modifies mem
      ensures Valid() && heap == old(heap) && mem[..] == old(mem[..])[addr - HEAP_START := value]
    {
      ghost var s := mem[..];
      mem[addr - HEAP_START] := value;
      PayloadWriteKeepsHeaders(s, mem[..], heap, block);
    }

    /** Copies forwards, byte by byte: right for any destination that does not lie inside the
        source behind its start. */
    method Kmemcpy(dest: nat, src: nat, bytes: nat)
      requires mem.Length == HEAP_SIZE
      requires HEAP_START <= dest && dest + bytes <= HEAP_START + HEAP_SIZE
      requires HEAP_START <= src && src + bytes <= HEAP_START + HEAP_SIZE
      requires dest <= src || src + bytes <= dest
      modifies mem
      ensures SameBut(old(mem[..]), mem[..], dest, dest + bytes)
      ensures PayloadOf(mem[..], dest, bytes) == PayloadOf(old(mem[..]), src, bytes)
      ensures var d, s := dest - 0x4000_0000, src - 0x4000_0000;
        mem[d..d + bytes] == old(mem[s..s + bytes])
    {
      hide PayloadOf, SameBut;
      var d, s := dest - HEAP_START, src - HEAP_START;
      ghost var m := mem[..];
      for i := 0 to bytes
        invariant mem[..] == Copied(m, d, s, i)
      {
        assert mem[s + i] == mem[..][s + i] == m[s + i];
        mem[d + i] := mem[s + i];
        CopiedNext(m, d, s, i);
      }
      CopiedAll(m, mem[..], dest, src, bytes);
      assert mem[d..d + bytes] == mem[..][d..d + bytes];
    }

    /** The growing branch of krealloc. */
    method MoveBlock(addr: nat, bytes: nat, size: nat) returns (newAddr: nat)
      requires Valid() && addr >= HEADER && Live(heap, addr - HEADER) && size == Size(heap, addr - HEADER) < bytes
      requires CanAlloc(heap, bytes)
      modifies mem, this
      ensures Valid() && KeepsPayloads(old(mem[..]), mem[..], old(heap))
      ensures heap == Free(Alloc(old(heap), bytes), addr - HEADER) && newAddr == Chosen(old(heap), bytes) + HEADER
      ensures PayloadOf(mem[..], newAddr, size) == PayloadOf(old(mem[..]), addr, size)
    {
      hide Inv, Headers, KeepsPayloads, SameBut, Alloc, Free, CanAlloc, FirstFit, Chosen, PayloadOf;
      ghost var s, h := mem[..], heap;
      ReallocRanges(h, addr - HEADER, bytes);
      PayloadIsMapped(h, addr - HEADER);
      newAddr := Kmalloc(bytes);
      ghost var r, h' := mem[..], heap;
      PayloadIsMapped(h', newAddr - HEADER);
      Kmemcpy(newAddr, addr, size);
      ghost var t := mem[..];
      CopyIsSafe(s, r, t, h, addr, newAddr, bytes, size);
      Kfree(addr);
      FreeIsSafe(s, t, mem[..], h, newAddr, bytes, size);
    }

    /** A block that is large enough is kept. Otherwise the old payload is copied to a new block
        and the old block is freed; no byte of a payload that was live changes. */
    method Krealloc(addr: nat, bytes: nat) returns (newAddr: nat)
      requires Valid() && addr >= HEADER && Live(heap, addr - HEADER)
      requires Size(heap, addr - HEADER) < bytes ==> CanAlloc(heap, bytes)
      modifies mem, this
      ensures Valid() && KeepsPayloads(old(mem[..]), mem[..], old(heap))
      ensures old(Size(heap, addr - HEADER)) >= bytes ==>
                newAddr == addr && heap == old(heap) && mem[..] == old(mem[..])
      ensures old(Size(heap, addr - HEADER)) < bytes ==>
                && heap == Free(Alloc(old(heap), bytes), addr - HEADER)
                && newAddr == Chosen(old(heap), bytes) + 16
      ensures heap == StepCall(old(heap), Call.Krealloc(addr, bytes))
      ensures var size := old(Size(heap, addr - HEADER));
        PayloadOf(mem[..], newAddr, size) == PayloadOf(old(mem[..]), addr, size)
    {
      var size := SizeOfBlock(addr - HEADER);
      if size >= bytes {
        return addr;
      }
      newAddr := MoveBlock(addr, bytes, size);
    }

    /** node->size */
    method SizeOfBlock(node: nat) returns (size: nat)
      requires Valid() && Live(heap, node)
      ensures size == Size(heap, node)
    {
      assert SizeOk(mem[..], heap, node);
      size := ReadSize(node);
    }

    /** Pushes the block right after the head; no payload byte changes, its own included. */
    method Kfree(addr: nat)
      requires Valid() && addr >= HEADER && Live(heap, addr - HEADER)
      modifies mem, this`heap
      ensures Valid() && heap == Free(old(heap), addr - HEADER)
      ensures heap == Heap(old(heap).head, [addr - 16] + old(heap).free, old(heap).blocks)
      ensures heap == StepCall(old(heap), Call.Kfree(addr))
      ensures KeepsPayloads(old(mem[..]), mem[..], old(heap))
    {
      ghost var s, h := mem[..], heap;
      var node := addr - HEADER;
      FreeKeepsInv(h, node);
      HeadersAreMapped(h, node);
      HeadersAreMapped(h, h.head);
      FreeHeaders(s, h, node);
      FreeStoresKeep(s, h, Link(h, 0), node);
      var next := FollowLink(freeListHead, 0);
      WriteNext(node, next);
      WriteNext(freeListHead, node);
      heap := Free(h, node);
    }
  }

  /** The bytes of a payload of a live block lie in the mapped heap. */
  lemma PayloadIsMapped(h: Heap, b: nat)
    requires Inv(h) && Live(h, b)
    ensures HEAP_START <= b && After(h, b) <= HEAP_START + HEAP_SIZE
  {
    assert BlockOk(h, b) && BlockOk(h, h.head);
    HeadIsHighest(h, b);
  }

  /** What krealloc copies to and from: two live payloads that do not touch. */
  lemma ReallocRanges(h: Heap, node: nat, bytes: nat)
    requires Inv(h) && Live(h, node) && CanAlloc(h, bytes) && Size(h, node) < bytes
    ensures var a, h' := Chosen(h, bytes), Alloc(h, bytes);
      && Inv(h') && Live(h', a) && Live(h', node) && Size(h', node) == Size(h, node) < bytes <= Size(h', a)
      && (After(h', a) <= node || After(h', node) <= a)
      && (forall b: nat, x: nat {:trigger PayloadByte(h, b, x)} :: PayloadByte(h, b, x) ==>
            x < a + HEADER || After(h', a) <= x)
  {
    AllocKeepsInv(h, bytes);
    AllocGrants(h, bytes);
    var a, h' := Chosen(h, bytes), Alloc(h, bytes);
    assert FreeList.Apart(h', a, node) && FreeList.Apart(h', node, a);
    forall b: nat, x: nat {:trigger PayloadByte(h, b, x)} | PayloadByte(h, b, x)
      ensures x < a + HEADER || After(h', a) <= x
    {
      assert PayloadByte(h', b, x) && b != a;
      LivePayloads(h', b, a, x);
    }
  }

  /** Memory after the first n bytes of a copy. */
  function Copied(m: seq<byte>, d: nat, s: nat, n: nat): (r: seq<byte>)
    requires d + n <= |m| && s + n <= |m|
    ensures |r| == |m|
  {
    m[..d] + m[s..s + n] + m[d + n..]
  }

  lemma CopiedNext(m: seq<byte>, d: nat, s: nat, n: nat)
    requires d + n < |m| && s + n < |m|
    ensures Copied(m, d, s, n)[d + n := m[s + n]] == Copied(m, d, s, n + 1)
  {
  }

  lemma CopiedAll(m: seq<byte>, r: seq<byte>, dest: nat, src: nat, n: nat)
    requires |m| == HEAP_SIZE && HEAP_START <= dest && dest + n <= HEAP_START + HEAP_SIZE
    requires HEAP_START <= src && src + n <= HEAP_START + HEAP_SIZE
    requires r == Copied(m, dest - HEAP_START, src - HEAP_START, n)
    ensures SameBut(m, r, dest, dest + n) && PayloadOf(r, dest, n) == PayloadOf(m, src, n)
    ensures var d, s := dest - 0x4000_0000, src - 0x4000_0000; r[d..d + n] == m[s..s + n]
  {
    var d, s := dest - HEAP_START, src - HEAP_START;
    assert r[d..d + n] == m[s..s + n];
  }

  /** The first bytes of a payload. */
  function PayloadOf(s: seq<byte>, addr: nat, size: nat): seq<byte> {
    if |s| == HEAP_SIZE && HEAP_START <= addr && addr + size <= HEAP_START + HEAP_SIZE
    then s[addr - HEAP_START..addr - HEAP_START + size] else []
  }

  /** Byte by byte: a payload lies in mapped memory, `PayloadOf` is its first bytes, and a memory
      that keeps payloads keeps each byte. */
  lemma PayloadInFigures(s: seq<byte>, r: seq<byte>, h: Heap, b: nat, n: nat, i: nat)
    requires |s| == |r| == 102400 && Inv(h) && Live(h, b) && i < n <= Size(h, b)
    ensures var o, p := b + 16 + i - 0x4000_0000, PayloadOf(s, b + 16, n);
      && 0 <= o < 102400 && (KeepsPayloads(s, r, h) ==> r[o] == s[o])
      && |p| == n && p[i] == s[o]
  {
    PayloadIsMapped(h, b);
    assert PayloadByte(h, b, b + HEADER + i);
  }

  lemma SamePayload(s: seq<byte>, r: seq<byte>, h: Heap, b: nat, size: nat)
    requires |s| == |r| == HEAP_SIZE && Inv(h) && Live(h, b) && KeepsPayloads(s, r, h) && size <= Size(h, b)
    ensures PayloadOf(r, b + HEADER, size) == PayloadOf(s, b + HEADER, size)
  {
    PayloadIsMapped(h, b);
    var lo := b + HEADER - HEAP_START;
    forall o | lo <= o < lo + size
      ensures r[o] == s[o]
    {
      assert PayloadByte(h, b, o + HEAP_START);
    }
    assert r[lo..lo + size] == s[lo..lo + size];
  }

  /** From the old memory s, over the allocation r, to the copy t: the list is intact, the new
      payload starts with the old one, and no live payload has changed. */
  lemma CopyIsSafe(s: seq<byte>, r: seq<byte>, t: seq<byte>, h: Heap, addr: nat, newAddr: nat, bytes: nat, size: nat)
    requires |s| == |r| == |t| == HEAP_SIZE && Inv(h) && CanAlloc(h, bytes) && KeepsPayloads(s, r, h)
    requires addr >= HEADER && Live(h, addr - HEADER) && size == Size(h, addr - HEADER) < bytes
    requires newAddr == Chosen(h, bytes) + HEADER && Inv(Alloc(h, bytes)) && Headers(r, Alloc(h, bytes))
    requires SameBut(r, t, newAddr, newAddr + size) && PayloadOf(t, newAddr, size) == PayloadOf(r, addr, size)
    ensures Headers(t, Alloc(h, bytes)) && KeepsPayloads(s, t, h)
    ensures PayloadOf(t, newAddr, size) == PayloadOf(s, addr, size)
  {
    hide Inv, Headers, Alloc, CanAlloc, FirstFit, Chosen, PayloadOf;
    var h', a := Alloc(h, bytes), newAddr - HEADER;
    ReallocRanges(h, addr - HEADER, bytes);
    SamePayload(s, r, h, addr - HEADER, size);
    assert SameBut(r, t, a + HEADER, After(h', a));
    PayloadWriteKeepsHeaders(r, t, h', a);
    CopyKeepsPayloads(s, r, t, h, a + HEADER, After(h', a));
  }

  /** Freeing the old block afterwards changes neither the new payload nor any other. */
  lemma FreeIsSafe(s: seq<byte>, t: seq<byte>, u: seq<byte>, h: Heap, newAddr: nat, bytes: nat, size: nat)
    requires |s| == |t| == |u| == HEAP_SIZE && Inv(h) && CanAlloc(h, bytes)
    requires KeepsPayloads(s, t, h) && KeepsPayloads(t, u, Alloc(h, bytes))
    requires newAddr == Chosen(h, bytes) + HEADER && size <= bytes
    ensures KeepsPayloads(s, u, h) && PayloadOf(u, newAddr, size) == PayloadOf(t, newAddr, size)
  {
    hide Inv, Alloc, CanAlloc, FirstFit, Chosen, PayloadOf, KeepsPayloads;
    AllocGrants(h, bytes);
    AllocKeepsInv(h, bytes);
    AllocKeepsPayloadBytes(t, u, h, bytes);
    KeepsPayloadsTransitive(s, t, u, h);
    SamePayload(t, u, Alloc(h, bytes), newAddr - HEADER, size);
  }

  lemma CopyKeepsPayloads(s: seq<byte>, r: seq<byte>, t: seq<byte>, h: Heap, lo: nat, hi: nat)
    requires |s| == |r| == |t| == HEAP_SIZE && KeepsPayloads(s, r, h) && SameBut(r, t, lo, hi)
    requires forall b: nat, x: nat {:trigger PayloadByte(h, b, x)} :: PayloadByte(h, b, x) ==> x < lo || hi <= x
    ensures KeepsPayloads(s, t, h)
  {
  }

  lemma InitialHeaders(s: seq<byte>)
    requires |s| == HEAP_SIZE
    ensures Headers(SetSize(SetNext(s, HEAP_START, NULL), HEAP_START, HEAP_SIZE), Initial())
  {
    var r := SetNext(s, HEAP_START, NULL);
    NextSet(s, HEAP_START, NULL);
    SizeSet(r, HEAP_START, HEAP_SIZE);
  }

  lemma BlockInMemory(s: seq<byte>, h: Heap, k: nat)
    requires Inv(h) && Headers(s, h) && k < |h.free|
    ensures var a := h.free[k];
      && InHeap(a) && InHeap(Nth(h, k)) && a != NULL && a in h.blocks && Nth(h, k) in h.blocks
      && SizeOf(s, a) == Size(h, a) < WORD && NextOf(s, a) == Link(h, k + 1) < WORD
  {
    NthIsBlock(h, k);
    NthIsBlock(h, k + 1);
    assert SizeOk(s, h, h.free[k]) && LinkOk(s, h, k + 1) && BlockOk(h, h.free[k]);
  }

  lemma LinkIsBlock(h: Heap, k: nat)
    requires k <= |h.free| && Link(h, k) != NULL
    ensures k < |h.free| && Link(h, k) == h.free[k]
  {
  }

  lemma KeepsPayloadsTransitive(s: seq<byte>, r: seq<byte>, t: seq<byte>, h: Heap)
    requires |s| == |r| == |t| == HEAP_SIZE && KeepsPayloads(s, r, h) && KeepsPayloads(r, t, h)
    ensures KeepsPayloads(s, t, h)
  {
  }

  lemma RestInMemory(h: Heap, req: nat, k: nat)
    requires Inv(h) && k < |h.free| && Size(h, h.free[k]) >= req + MINIMUM_ALLOC && Inv(TakeFree(h, req, k))
    ensures InHeap(h.free[k] + HEADER + req) && Separate(h.free[k], h.free[k] + HEADER + req)
  {
    HeadersAreMapped(TakeFree(h, req, k), h.free[k] + HEADER + req);
  }

  lemma HeadInMemory(s: seq<byte>, h: Heap, req: nat)
    requires Inv(h) && Headers(s, h) && Size(h, h.head) >= req + 2 * HEADER && Inv(TakeHead(h, req))
    ensures InHeap(h.head) && InHeap(h.head + HEADER + req) && Separate(h.head, h.head + HEADER + req)
    ensures SizeOf(s, h.head) == Size(h, h.head) < WORD && NextOf(s, h.head) == Link(h, 0) < WORD
  {
    NthIsBlock(h, 0);
    assert SizeOk(s, h, h.head) && LinkOk(s, h, 0) && BlockOk(h, h.head);
    HeadersAreMapped(TakeHead(h, req), h.head + HEADER + req);
  }

  /** NULL is reached only at the end of the list. */
  lemma EndOfList(h: Heap, k: nat)
    requires Inv(h) && k <= |h.free| && Link(h, k) == NULL
    ensures k == |h.free|
  {
    if k < |h.free| {
      HeadersAreMapped(h, h.free[k]);
    }
  }
}
