/** The heap in memory: bytes, little-endian 64-bit fields, and the two-field headers that hold
    the free list. */
module HeapMemory {
  import opened FrameAllocator
  import opened HeapPages
  import opened FreeList

  type byte = x: int | 0 <= x < 256

  // -------------------------------------------------------------- 64-bit fields

  function EncodeBytes(v: nat, n: nat): (s: seq<byte>)
    ensures |s| == n
  {
    if n == 0 then [] else [v % 256] + EncodeBytes(v / 256, n - 1)
  }

  function DecodeBytes(s: seq<byte>): nat {
    if s == [] then 0 else s[0] + 256 * DecodeBytes(s[1..])
  }

  function Pow256(n: nat): nat {
    if n == 0 then 1 else 256 * Pow256(n - 1)
  }

  lemma {:induction false} DecodeOfEncode(v: nat, n: nat)
    requires v < Pow256(n)
    ensures DecodeBytes(EncodeBytes(v, n)) == v
  {
    if n > 0 {
      DecodeOfEncode(v / 256, n - 1);
      assert EncodeBytes(v, n)[1..] == EncodeBytes(v / 256, n - 1);
    }
  }

  function Load64(s: seq<byte>, off: nat): nat
    requires off + 8 <= |s|
  {
    DecodeBytes(s[off..off + 8])
  }

  function Store64(s: seq<byte>, off: nat, v: nat): (r: seq<byte>)
    requires off + 8 <= |s|
    ensures |r| == |s|
  {
    s[..off] + EncodeBytes(v, 8) + s[off + 8..]
  }

  lemma NextByte(s: seq<byte>, t: seq<byte>, off: nat, digits: seq<byte>, b: byte)
    requires off + |digits| < |s| && t == s[..off] + digits + s[off + |digits|..]
    ensures t[off + |digits| := b] == s[..off] + (digits + [b]) + s[off + |digits| + 1..]
  {
  }

  lemma LoadAfterStore(s: seq<byte>, off: nat, v: nat)
    requires off + 8 <= |s| && v < WORD
    ensures Load64(Store64(s, off, v), off) == v
  {
    assert Pow256(4) == 0x1_0000_0000;
    assert Pow256(8) == WORD;
    DecodeOfEncode(v, 8);
    assert Store64(s, off, v)[off..off + 8] == EncodeBytes(v, 8);
  }

  lemma LoadElsewhere(s: seq<byte>, off: nat, v: nat, o: nat)
    requires off + 8 <= |s| && o + 8 <= |s| && (o + 8 <= off || off + 8 <= o)
    ensures Load64(Store64(s, off, v), o) == Load64(s, o)
  {
    assert Store64(s, off, v)[o..o + 8] == s[o..o + 8];
  }

  // ------------------------------------------------------------------- headers

  /** A header at this address lies in the mapped pages. */
  predicate InHeap(a: nat) {
    HEAP_START <= a && a + HEADER <= HEAP_START + HEAP_SIZE
  }

  function NextOf(s: seq<byte>, a: nat): nat
    requires |s| == HEAP_SIZE && InHeap(a)
  {
    Load64(s, a - HEAP_START)
  }

  function SizeOf(s: seq<byte>, a: nat): nat
    requires |s| == HEAP_SIZE && InHeap(a)
  {
    Load64(s, a - HEAP_START + 8)
  }

  function SetNext(s: seq<byte>, a: nat, v: nat): (r: seq<byte>)
    requires |s| == HEAP_SIZE && InHeap(a)
    ensures |r| == HEAP_SIZE
  {
    Store64(s, a - HEAP_START, v)
  }

  function SetSize(s: seq<byte>, a: nat, v: nat): (r: seq<byte>)
    requires |s| == HEAP_SIZE && InHeap(a)
    ensures |r| == HEAP_SIZE
  {
    Store64(s, a - HEAP_START + 8, v)
  }

  /** Four bytes as a number, the least first. */
  function Word32(s: seq<byte>, o: nat): nat
    requires o + 4 <= |s|
  {
    var b0: nat, b1: nat, b2: nat, b3: nat := s[o], s[o + 1], s[o + 2], s[o + 3];
    b0 + 0x100 * b1 + 0x1_0000 * b2 + 0x100_0000 * b3
  }

  lemma DecodeFour(s: seq<byte>)
    requires |s| >= 4
    ensures DecodeBytes(s) == Word32(s, 0) + 0x1_0000_0000 * DecodeBytes(s[4..])
  {
    var s1, s2, s3 := s[1..], s[2..], s[3..];
    assert s1[1..] == s2 && s2[1..] == s3 && s3[1..] == s[4..];
    assert DecodeBytes(s2) == s[2] + 256 * DecodeBytes(s3);
    assert DecodeBytes(s3) == s[3] + 256 * DecodeBytes(s[4..]);
  }

  lemma DecodeEight(s: seq<byte>)
    requires |s| == 8
    ensures DecodeBytes(s) == Word32(s, 0) + 0x1_0000_0000 * Word32(s, 4)
  {
    DecodeFour(s);
    DecodeFour(s[4..]);
    assert s[4..][4..] == [];
  }

  lemma LoadBytes(s: seq<byte>, off: nat)
    requires off + 8 <= |s|
    ensures Load64(s, off) == Word32(s, off) + 0x1_0000_0000 * Word32(s, off + 4)
  {
    DecodeEight(s[off..off + 8]);
  }

  /** A header in memory: eight bytes for the next block, eight for the size, least byte first. */
  lemma HeaderBytes(s: seq<byte>, a: nat)
    requires |s| == HEAP_SIZE && InHeap(a)
    ensures var o := a - 0x4000_0000;
      && NextOf(s, a) == Word32(s, o) + 0x1_0000_0000 * Word32(s, o + 4)
      && SizeOf(s, a) == Word32(s, o + 8) + 0x1_0000_0000 * Word32(s, o + 12)
  {
    LoadBytes(s, a - HEAP_START);
    LoadBytes(s, a - HEAP_START + 8);
  }

  predicate Separate(a: nat, b: nat) {
    a + HEADER <= b || b + HEADER <= a
  }

  lemma NextSet(s: seq<byte>, a: nat, v: nat)
    requires |s| == HEAP_SIZE && InHeap(a) && v < WORD
    ensures var r := SetNext(s, a, v);
      && NextOf(r, a) == v && SizeOf(r, a) == SizeOf(s, a)
      && (forall b: nat :: InHeap(b) && Separate(a, b) ==> NextOf(r, b) == NextOf(s, b) && SizeOf(r, b) == SizeOf(s, b))
  {
    var off := a - HEAP_START;
    LoadAfterStore(s, off, v);
    LoadElsewhere(s, off, v, off + 8);
    forall b: nat | InHeap(b) && Separate(a, b)
      ensures NextOf(SetNext(s, a, v), b) == NextOf(s, b) && SizeOf(SetNext(s, a, v), b) == SizeOf(s, b)
    {
      LoadElsewhere(s, off, v, b - HEAP_START);
      LoadElsewhere(s, off, v, b - HEAP_START + 8);
    }
  }

  lemma SizeSet(s: seq<byte>, a: nat, v: nat)
    requires |s| == HEAP_SIZE && InHeap(a) && v < WORD
    ensures var r := SetSize(s, a, v);
      && SizeOf(r, a) == v && NextOf(r, a) == NextOf(s, a)
      && (forall b: nat :: InHeap(b) && Separate(a, b) ==> NextOf(r, b) == NextOf(s, b) && SizeOf(r, b) == SizeOf(s, b))
  {
    var off := a - HEAP_START + 8;
    LoadAfterStore(s, off, v);
    LoadElsewhere(s, off, v, off - 8);
    forall b: nat | InHeap(b) && Separate(a, b)
      ensures NextOf(SetSize(s, a, v), b) == NextOf(s, b) && SizeOf(SetSize(s, a, v), b) == SizeOf(s, b)
    {
      LoadElsewhere(s, off, v, b - HEAP_START);
      LoadElsewhere(s, off, v, b - HEAP_START + 8);
    }
  }

  /** A byte outside a header does not change when the header is written. */
  predicate SameOutside(s: seq<byte>, r: seq<byte>, a: nat)
    requires |s| == |r| == HEAP_SIZE
  {
    forall x | 0 <= x < HEAP_SIZE :: x + HEAP_START < a || a + HEADER <= x + HEAP_START ==> r[x] == s[x]
  }

  lemma SetKeepsBytes(s: seq<byte>, a: nat, v: nat)
    requires |s| == HEAP_SIZE && InHeap(a)
    ensures SameOutside(s, SetNext(s, a, v), a) && SameOutside(s, SetSize(s, a, v), a)
  {
  }

  // ----------------------------------------------------------- the list in memory

  /** The i-th block of the list, the head being the first. */
  function Nth(h: Heap, i: nat): nat
    requires i <= |h.free|
  {
    if i == 0 then h.head else h.free[i - 1]
  }

  /** What follows it; NULL ends the list. */
  function Link(h: Heap, i: nat): nat
    requires i <= |h.free|
  {
    if i < |h.free| then h.free[i] else 0
  }

  predicate SizeOk(s: seq<byte>, h: Heap, a: nat)
    requires |s| == HEAP_SIZE
  {
    InHeap(a) && SizeOf(s, a) == Size(h, a)
  }

  predicate LinkOk(s: seq<byte>, h: Heap, i: nat)
    requires |s| == HEAP_SIZE && i <= |h.free|
  {
    InHeap(Nth(h, i)) && NextOf(s, Nth(h, i)) == Link(h, i)
  }

  /** Every block's header holds its size, and the list runs from the head through the free
      blocks, in order, to NULL. */
  ghost predicate Headers(s: seq<byte>, h: Heap) {
    && |s| == HEAP_SIZE
    && (forall a {:trigger SizeOk(s, h, a)} :: a in h.blocks ==> SizeOk(s, h, a))
    && (forall i {:trigger LinkOk(s, h, i)} :: 0 <= i <= |h.free| ==> LinkOk(s, h, i))
  }

  lemma BlocksSeparate(h: Heap, a: nat, b: nat)
    requires Inv(h) && a in h.blocks && b in h.blocks && a != b
    ensures Separate(a, b)
  {
    assert FreeList.Apart(h, a, b) && FreeList.Apart(h, b, a);
  }

  lemma NthIsBlock(h: Heap, i: nat)
    requires Inv(h) && i <= |h.free|
    ensures Nth(h, i) in h.blocks && InHeap(Nth(h, i))
    ensures Link(h, i) < WORD
  {
    HeadersAreMapped(h, Nth(h, i));
    if i < |h.free| {
      HeadersAreMapped(h, h.free[i]);
    }
  }
}
