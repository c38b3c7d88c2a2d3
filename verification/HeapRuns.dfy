/** Whole runs of kmalloc, kfree and krealloc: the invariant, the permanence of block boundaries,
    and a bound on requests under which memory never runs out. */
module HeapRuns {
  import opened FreeList

  /** A call of the heap's interface; addresses are those of payloads. */
  datatype Call = Kmalloc(bytes: nat) | Kfree(addr: nat) | Krealloc(addr: nat, bytes: nat)

  predicate IsPayload(h: Heap, addr: nat) {
    addr >= HEADER && Live(h, addr - HEADER)
  }

  /** The call allocates. */
  predicate Allocates(h: Heap, c: Call) {
    c.Kmalloc? || (c.Krealloc? && PayloadSize(h, c.addr) < c.bytes)
  }

  function PayloadSize(h: Heap, addr: nat): nat {
    if addr >= HEADER then Size(h, addr - HEADER) else 0
  }

  /** kfree and krealloc are called on payloads the heap handed out and did not get back. */
  predicate Proper(h: Heap, c: Call) {
    !c.Kmalloc? ==> IsPayload(h, c.addr)
  }

  predicate LegalCall(h: Heap, c: Call) {
    Proper(h, c) && (Allocates(h, c) ==> CanAlloc(h, c.bytes))
  }

  /** The heap after a legal call; other calls are not modelled. */
  function StepCall(h: Heap, c: Call): Heap {
    if !LegalCall(h, c) then h
    else match c
      case Kmalloc(bytes) => Alloc(h, bytes)
      case Kfree(addr) => Free(h, addr - HEADER)
      case Krealloc(addr, bytes) => if Allocates(h, c) then Free(Alloc(h, bytes), addr - HEADER) else h
  }

  function RunCalls(calls: seq<Call>): Heap {
    if calls == [] then Initial() else StepCall(RunCalls(calls[..|calls| - 1]), calls[|calls| - 1])
  }

  ghost predicate LegalCalls(calls: seq<Call>) {
    calls == [] ||
    (LegalCalls(calls[..|calls| - 1]) && LegalCall(RunCalls(calls[..|calls| - 1]), calls[|calls| - 1]))
  }

  lemma StepKeepsInv(h: Heap, c: Call)
    requires Inv(h) && LegalCall(h, c)
    ensures Inv(StepCall(h, c))
    ensures forall b :: b in h.blocks ==> b in StepCall(h, c).blocks
  {
    if Allocates(h, c) {
      AllocKeepsInv(h, c.bytes);
      AllocGrants(h, c.bytes);
      if c.Krealloc? {
        FreeKeepsInv(Alloc(h, c.bytes), c.addr - HEADER);
      }
    } else if c.Kfree? {
      FreeKeepsInv(h, c.addr - HEADER);
    }
  }

  /** The invariant holds after every legal run. */
  lemma {:induction false} RunKeepsInv(calls: seq<Call>)
    requires LegalCalls(calls)
    ensures Inv(RunCalls(calls))
  {
    if calls == [] {
      InitialOk();
    } else {
      RunKeepsInv(calls[..|calls| - 1]);
      StepKeepsInv(RunCalls(calls[..|calls| - 1]), calls[|calls| - 1]);
    }
  }

  /** A block boundary, once there, never disappears. */
  lemma {:induction false} BoundariesStay(calls: seq<Call>, n: nat, b: nat)
    requires LegalCalls(calls) && n <= |calls| && b in RunCalls(calls[..n]).blocks
    ensures b in RunCalls(calls).blocks
  {
    if n < |calls| {
      var before := calls[..|calls| - 1];
      assert before[..n] == calls[..n];
      BoundariesStay(before, n, b);
      RunKeepsInv(before);
      StepKeepsInv(RunCalls(before), calls[|calls| - 1]);
    } else {
      assert calls[..n] == calls;
    }
  }

  /** A payload keeps its place and size until a call is made on it. */
  lemma StepKeepsPayload(h: Heap, c: Call, addr: nat)
    requires Inv(h) && LegalCall(h, c) && IsPayload(h, addr)
    requires !c.Kmalloc? ==> c.addr != addr
    ensures IsPayload(StepCall(h, c), addr) && PayloadSize(StepCall(h, c), addr) == PayloadSize(h, addr)
  {
    if Allocates(h, c) {
      AllocGrants(h, c.bytes);
    }
  }

  // ---------------------------------------------------------------- capacity

  /** The bytes all allocating calls have asked for, headers included. */
  function Spent(calls: seq<Call>): nat {
    if calls == [] then 0
    else
      var before, c := calls[..|calls| - 1], calls[|calls| - 1];
      Spent(before) + (if Allocates(RunCalls(before), c) then c.bytes + 16 else 0)
  }

  /** Frees and reallocations refer to live payloads; nothing is said about memory. */
  ghost predicate ProperCalls(calls: seq<Call>) {
    calls == [] ||
    (ProperCalls(calls[..|calls| - 1]) && Proper(RunCalls(calls[..|calls| - 1]), calls[|calls| - 1]))
  }

  /** One allocation takes at most its request and a header from the head block. */
  lemma HeadShrinks(h: Heap, c: Call)
    requires LegalCall(h, c) && Inv(h)
    ensures var h' := StepCall(h, c);
      Size(h', h'.head) >= Size(h, h.head) - (if Allocates(h, c) then c.bytes + HEADER else 0)
  {
    if Allocates(h, c) {
      var k := FirstFit(h, c.bytes, 0);
      if k < |h.free| && Size(h, h.free[k]) - c.bytes >= MINIMUM_ALLOC {
        SplitKeepsTiling(h, TakeFree(h, c.bytes, k), h.free[k], c.bytes);
      }
    }
  }

  /** Whole-run capacity: if all requests together, with a header each, leave room for one more
      header, then every run whose frees are proper is legal: no allocation ever runs out,
      in any interleaving, and the head's header stays in mapped memory. */
  lemma {:induction false} CapacitySuffices(calls: seq<Call>)
    requires ProperCalls(calls) && Spent(calls) <= 102400 - 16
    ensures LegalCalls(calls)
    ensures var h := RunCalls(calls); Inv(h) && Size(h, h.head) >= 102400 - Spent(calls)
  {
    if calls == [] {
      InitialOk();
    } else {
      var before, c := calls[..|calls| - 1], calls[|calls| - 1];
      CapacitySuffices(before);
      var h := RunCalls(before);
      assert LegalCall(h, c);
      StepKeepsInv(h, c);
      HeadShrinks(h, c);
    }
  }

  /** The bound is the best possible: one byte more, in a single request, and it fails. */
  lemma CapacityIsTight()
    ensures var calls := [Kmalloc(102400 - 31)];
      ProperCalls(calls) && Spent(calls) == 102400 - 15 && !LegalCalls(calls)
  {
    var calls := [Kmalloc(102400 - 31)];
    assert calls[..0] == [];
    assert RunCalls([]) == Initial();
  }

  /** A block of 100 bytes, freed, serves 64 bytes and is cut: the 20 bytes left over go on in the
      list, and serve the next 16. */
  lemma FreedBlockIsCut()
    ensures var a, rest := 0x4000_0000, 0x4000_0050;
      var calls := [Kmalloc(100), Kfree(a + 16), Kmalloc(64)];
      && LegalCalls(calls)
      && RunCalls(calls) == Heap(a + 116, [rest], map[a := 64, rest := 20, a + 116 := 102400 - 116])
      && Chosen(RunCalls(calls), 16) == rest
  {
    var a := 0x4000_0000;
    var c1, c2, c3 := Kmalloc(100), Kfree(a + 16), Kmalloc(64);
    var calls := [c1, c2, c3];
    assert calls[..2] == [c1, c2] && [c1, c2][..1] == [c1] && [c1][..0] == [];
    var h0 := Initial();
    assert RunCalls([]) == h0;
    var h1 := Heap(a + 116, [], map[a := 100, a + 116 := 102400 - 116]);
    assert RunCalls([c1]) == h1;
    var h2 := Heap(a + 116, [a], map[a := 100, a + 116 := 102400 - 116]);
    assert RunCalls([c1, c2]) == h2;
    assert FirstFit(h2, 64, 0) == 0;
    assert LegalCall(h0, c1) && LegalCall(h1, c2) && LegalCall(h2, c3);
    assert LegalCalls([c1]) && LegalCalls([c1, c2]);
  }
}
