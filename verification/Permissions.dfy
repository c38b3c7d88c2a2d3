/** Which pages may be written and executed: the entries of a hierarchy above level 1 leave it to the
    last entry of each walk. */
module Permissions {
  import opened Bits
  import opened FrameAllocator
  import opened Mmu
  import opened PageTables
  import opened PageRuns

  /** An upper entry that leaves the permissions to the entries below: the frame's address, present
      and writeable, and executable. */
  predicate IsPlain(e: nat) {
    e == FrameOf(e) * 4096 + 3
  }

  ghost predicate PlainEntry(m: Memory, own: map<nat, Label>, f: nat, i: nat)
    requires f in own
  {
    own[f].path.P1? || (own[f].path.P4? && i == 511) || !Present(Read(m, f, i)) || IsPlain(Read(m, f, i))
  }

  /** All entries of the tables of a hierarchy above level 1 are so, its recursive slot aside. */
  ghost predicate PlainTables(m: Memory, own: map<nat, Label>, root: nat) {
    forall f, i {:trigger PlainEntry(m, own, f, i)} :: f in own && own[f].root == root && 0 <= i < 512 ==>
      PlainEntry(m, own, f, i)
  }

  /** The recursive slot of a root, as remap_kernel writes it. */
  predicate OwnSlot(m: Memory, root: nat) {
    Read(m, root, 511) == root * 4096 + 3
  }

  lemma SlotWord(root: nat)
    requires root < FRAMES
    ensures Encode(root, Or(PRESENT, WRITEABLE)) == root * 4096 + 3
  {
    TableFlags();
    EncodeIsSum(root, 3);
  }

  /** A root without entries has no other tables. */
  lemma EmptyRootIsPlain(m: Memory, own: map<nat, Label>, root: nat)
    requires Forest(m, own) && forall i :: 0 <= i < 511 ==> !Present(Read(m, root, i))
    ensures PlainTables(m, own, root)
  {
    forall f, i {:trigger PlainEntry(m, own, f, i)} | f in own && own[f].root == root && 0 <= i < 512
      ensures PlainEntry(m, own, f, i)
    {
      assert LabelOk(m, own, f);
      assert own[f].path.P4? || !Present(Read(m, root, own[f].path.i4));
    }
  }

  lemma EnsureTableKeepsPlain(pool: Pool, s: Space, t: nat, i: nat, tag: Label, root: nat)
    requires CanEnsure(pool, s, t, i, tag) && PlainTables(s.mem, s.own, root)
    ensures var s' := EnsureTable(pool, s, t, i, tag); PlainTables(s'.mem, s'.own, root)
  {
    hide Encode;
    if !Present(Read(s.mem, t, i)) {
      var s', c := EnsureTable(pool, s, t, i, tag), pool.NextFree(s.next);
      NewFrameIsNoTable(pool, s);
      CreatedTableWord(pool, s, t, i, tag);
      FieldsOfSum(c, 3) by {
        TableFlags();
      }
      forall f, j {:trigger PlainEntry(s'.mem, s'.own, f, j)} | f in s'.own && s'.own[f].root == root && 0 <= j < 512
        ensures PlainEntry(s'.mem, s'.own, f, j)
      {
        if f != c && !(f == t && j == i) {
          assert PlainEntry(s.mem, s.own, f, j);
        } else if f == c {
          assert !Present(Read(s.mem, c, j));
        }
      }
    }
  }

  /** Words of level-1 tables, of recursive slots and of frames that are no tables do not matter. */
  lemma WriteKeepsPlain(m: Memory, own: map<nat, Label>, t: nat, i: nat, w: nat, root: nat)
    requires PlainTables(m, own, root) && (t !in own || own[t].path.P1? || (own[t].path.P4? && i == 511))
    ensures PlainTables(Write(m, t, i, w), own, root)
  {
    var m' := Write(m, t, i, w);
    forall f, j {:trigger PlainEntry(m', own, f, j)} | f in own && own[f].root == root && 0 <= j < 512
      ensures PlainEntry(m', own, f, j)
    {
      assert PlainEntry(m, own, f, j);
    }
  }

  lemma ApplyKeepsPlain(pool: Pool, s: Space, root: nat, op: Op, any: nat)
    requires CanApply(pool, s, root, op) && CanPay(pool, s, root, op) && PlainTables(s.mem, s.own, any)
    ensures var s' := Apply(pool, s, root, op); PlainTables(s'.mem, s'.own, any)
  {
    hide SpaceOk, EnsureTable, Pool.Enough, CanEnsure, PlainTables, Missing, Open, Word;
    PreparedOk(pool, s, root, op);
    var p := Prepared(pool, s, root, op);
    if op.MapOp? {
      MapTablesKeepsPlain(pool, s, root, op.page, any);
    }
    WriteKeepsPlain(p.mem, p.own, LeafTable(p, root, op.page), P1Index(op.page), Word(op), any);
  }

  lemma MapTablesKeepsPlain(pool: Pool, s: Space, root: nat, page: nat, any: nat)
    requires CanMap(pool, s, root, page) && CanPayFor(pool, s, root, page) && PlainTables(s.mem, s.own, any)
    ensures var s' := MapTables(pool, s, root, page); PlainTables(s'.mem, s'.own, any)
  {
    hide SpaceOk, EnsureTable, Pool.Enough, CanEnsure, PlainTables, Missing, Open;
    var a, b, c := P4Index(page), P3Index(page), P2Index(page);
    var s1, s2 := MapP3(pool, s, root, page), MapP2(pool, s, root, page);
    MapP2Ok(pool, s, root, page);
    MapTablesOk(pool, s, root, page);
    EnsureTableKeepsPlain(pool, s, root, a, Label(root, P3(a)), any);
    EnsureTableKeepsPlain(pool, s1, TableP3(s1, root, page), b, Label(root, P2(a, b)), any);
    EnsureTableKeepsPlain(pool, s2, TableP2(s2, root, page), c, Label(root, LeafPath(page)), any);
  }

  /** No operation writes to a recursive slot. */
  lemma ApplyKeepsSlot(pool: Pool, s: Space, root: nat, op: Op, any: nat)
    requires CanApply(pool, s, root, op) && CanPay(pool, s, root, op) && IsRoot(s.own, any)
    ensures Read(Apply(pool, s, root, op).mem, any, 511) == Read(s.mem, any, 511)
  {
    hide SpaceOk, EnsureTable, Pool.Enough, CanEnsure, Missing, Open, Word, Read;
    PreparedOk(pool, s, root, op);
    var p := Prepared(pool, s, root, op);
    if op.MapOp? {
      var page := op.page;
      var a, b, c := P4Index(page), P3Index(page), P2Index(page);
      var s1, s2 := MapP3(pool, s, root, page), MapP2(pool, s, root, page);
      MapP2Ok(pool, s, root, page);
      MapTablesOk(pool, s, root, page);
      EnsureTableOk(pool, s, root, a, Label(root, P3(a)));
      EnsureTableKeepsSlot(pool, s, root, a, Label(root, P3(a)), any);
      EnsureTableKeepsSlot(pool, s1, TableP3(s1, root, page), b, Label(root, P2(a, b)), any);
      EnsureTableKeepsSlot(pool, s2, TableP2(s2, root, page), c, Label(root, LeafPath(page)), any);
    }
    ReadAfterWrite(p.mem, LeafTable(p, root, op.page), P1Index(op.page), Word(op));
  }

  lemma EnsureTableKeepsSlot(pool: Pool, s: Space, t: nat, i: nat, tag: Label, any: nat)
    requires CanEnsure(pool, s, t, i, tag) && IsRoot(s.own, any)
    ensures Read(EnsureTable(pool, s, t, i, tag).mem, any, 511) == Read(s.mem, any, 511)
  {
  }

  lemma {:induction false} RunKeepsPlain(pool: Pool, s: Space, root: nat, ops: seq<Op>, any: nat)
    requires CanRun(pool, s, root, ops) && IsRoot(s.own, any)
    ensures var s' := Run(pool, s, root, ops);
      && (PlainTables(s.mem, s.own, any) ==> PlainTables(s'.mem, s'.own, any))
      && Read(s'.mem, any, 511) == Read(s.mem, any, 511)
  {
    hide SpaceOk, Apply, CanRun, CanApply, CanPay, PlainTables, Read;
    if ops != [] {
      var before, op := ops[..|ops| - 1], ops[|ops| - 1];
      CanRunBefore(pool, s, root, ops);
      RunKeepsPlain(pool, s, root, before, any);
      RunOk(pool, s, root, before);
      RunCanApply(pool, s, root, ops);
      ApplyKeepsSlot(pool, Run(pool, s, root, before), root, op, any);
      if PlainTables(s.mem, s.own, any) {
        ApplyKeepsPlain(pool, Run(pool, s, root, before), root, op, any);
      }
    }
  }

  // ------------------------------------------------- permissions on the way

  /** The entries a walk of a 4 KiB page reads, from level 4 to level 1. */
  function Way(m: Memory, root: nat, page: nat): (way: seq<nat>)
    ensures |way| == 4
  {
    var e4 := Read(m, root, P4Index(page));
    var e3 := Read(m, FrameOf(e4), P3Index(page));
    var e2 := Read(m, FrameOf(e3), P2Index(page));
    [e4, e3, e2, Read(m, FrameOf(e2), P1Index(page))]
  }

  /** The processor lets a page be written if all these entries do, by bit 1, and executed if none
      forbids it, by bit 63. */
  predicate MayWrite(m: Memory, root: nat, page: nat) {
    forall k | 0 <= k < 4 :: Way(m, root, page)[k] / 2 % 2 == 1
  }

  predicate MayExecute(m: Memory, root: nat, page: nat) {
    forall k | 0 <= k < 4 :: Way(m, root, page)[k] / 0x8000_0000_0000_0000 % 2 == 0
  }

  /** In a hierarchy of plain tables the last entry alone decides. */
  lemma LeafDecides(m: Memory, own: map<nat, Label>, root: nat, page: nat)
    requires Forest(m, own) && IsRoot(own, root) && PlainTables(m, own, root)
    requires P4Index(page) != RECURSIVE && Walk(m, root, page).Some?
    ensures var leaf := Walk(m, root, page).value.leaf;
      && leaf == Way(m, root, page)[3]
      && (MayWrite(m, root, page) <==> leaf / 2 % 2 == 1)
      && (MayExecute(m, root, page) <==> leaf / 0x8000_0000_0000_0000 % 2 == 0)
  {
    var way := Way(m, root, page);
    WayIsPlain(m, own, root, page);
    PlainBits(way[0]);
    PlainBits(way[1]);
    PlainBits(way[2]);
  }

  lemma PlainBits(e: nat)
    requires IsPlain(e)
    ensures e / 2 % 2 == 1 && e / 0x8000_0000_0000_0000 % 2 == 0 && !Huge(e)
  {
    var f := FrameOf(e);
    assert e / 2 == 2048 * f + 1;
    assert e / 0x80 == 32 * f;
  }

  lemma WayIsPlain(m: Memory, own: map<nat, Label>, root: nat, page: nat)
    requires Forest(m, own) && IsRoot(own, root) && PlainTables(m, own, root)
    requires P4Index(page) != RECURSIVE && Walk(m, root, page).Some?
    ensures var way := Way(m, root, page);
      && IsPlain(way[0]) && IsPlain(way[1]) && IsPlain(way[2]) && Walk(m, root, page).value.leaf == way[3]
  {
    hide FrameOf, IsPlain, P4Index, P3Index, P2Index, P1Index;
    var a, b, c := P4Index(page), P3Index(page), P2Index(page);
    IndexBounds(page);
    var e4 := Read(m, root, a);
    assert EntryOk(m, own, root, a) && PlainEntry(m, own, root, a);
    var e3 := Read(m, FrameOf(e4), b);
    assert EntryOk(m, own, FrameOf(e4), b) && PlainEntry(m, own, FrameOf(e4), b);
    var e2 := Read(m, FrameOf(e3), c);
    assert EntryOk(m, own, FrameOf(e3), c) && PlainEntry(m, own, FrameOf(e3), c);
    PlainIsSmall(e2);
  }

  lemma PlainIsSmall(e: nat)
    ensures IsPlain(e) ==> !Huge(e)
  {
    if IsPlain(e) {
      PlainBits(e);
    }
  }

  lemma IndexBounds(page: nat)
    ensures P4Index(page) < 512 && P3Index(page) < 512 && P2Index(page) < 512 && P1Index(page) < 512
  {
  }
}
