/** Frames that are handed out but hold no table, the birth of a new level-4 table in one of them,
    and the redirection of a recursive slot from one hierarchy to another. */
module Hierarchies {
  import opened Bits
  import opened FrameAllocator
  import opened Mmu
  import opened PageTables
  import opened Tlb

  /** A frame that was handed out and is not used as a page table. */
  ghost predicate Spare(s: Space, f: nat) {
    f < s.next && f !in s.own
  }

  lemma EnsureTableKeepsSpare(pool: Pool, s: Space, t: nat, i: nat, tag: Label, f: nat)
    requires CanEnsure(pool, s, t, i, tag) && Spare(s, f)
    ensures Spare(EnsureTable(pool, s, t, i, tag), f)
  {
  }

  /** Mapping pages never turns a frame already handed out into a table. */
  lemma ApplyKeepsSpare(pool: Pool, s: Space, root: nat, op: Op, f: nat)
    requires CanApply(pool, s, root, op) && CanPay(pool, s, root, op) && Spare(s, f)
    ensures Spare(Apply(pool, s, root, op), f)
  {
    hide SpaceOk, EnsureTable, Pool.Enough, CanEnsure, Spare;
    if op.MapOp? {
      var page := op.page;
      var a, b, c := P4Index(page), P3Index(page), P2Index(page);
      var s1, s2 := MapP3(pool, s, root, page), MapP2(pool, s, root, page);
      MapP2Ok(pool, s, root, page);
      MapTablesOk(pool, s, root, page);
      EnsureTableKeepsSpare(pool, s, root, a, Label(root, P3(a)), f);
      EnsureTableKeepsSpare(pool, s1, TableP3(s1, root, page), b, Label(root, P2(a, b)), f);
      EnsureTableKeepsSpare(pool, s2, TableP2(s2, root, page), c, Label(root, LeafPath(page)), f);
    }
    LeafKeepsSpare(pool, s, root, op, f);
  }

  lemma LeafKeepsSpare(pool: Pool, s: Space, root: nat, op: Op, f: nat)
    requires Spare(Prepared(pool, s, root, op), f)
    ensures Spare(Apply(pool, s, root, op), f)
  {
  }

  // ------------------------------------------------- writing to a spare frame

  /** No table is found by way of a frame that is not a table. */
  lemma SpareWriteKeepsTables(m: Memory, own: map<nat, Label>, f: nat, i: nat, w: nat, root: nat, path: Path)
    requires Forest(m, own) && f !in own && IsRoot(own, root) && InTree(path)
    ensures Locate(Write(m, f, i, w), root, path) == Locate(m, root, path)
  {
    if !path.P4? {
      assert EntryOk(m, own, root, path.i4);
      var t3 := Step(m, root, path.i4);
      if !path.P3? && t3.Some? {
        assert EntryOk(m, own, t3.value, path.i3);
      }
    }
  }

  /** The walks of the recursive window read tables alone, whatever their last entry leads to. */
  lemma SpareWriteKeepsWindow(m: Memory, own: map<nat, Label>, active: nat, edit: nat, f: nat, i: nat, w: nat, q: nat)
    requires Forest(m, own) && IsRoot(own, active) && IsRoot(own, edit) && Windowed(m, active, edit)
    requires f !in own && P4Index(q) == RECURSIVE
    ensures Walk(Write(m, f, i, w), active, q) == Walk(m, active, q)
  {
    var b, c := P3Index(q), P2Index(q);
    assert EntryOk(m, own, edit, b) && EntryOk(m, own, edit, c);
    if b != RECURSIVE {
      var e := Read(m, edit, b);
      if Present(e) && !Huge(e) {
        assert EntryOk(m, own, FrameOf(e), c);
      }
    }
  }

  /** Nor do the walks of any other page. */
  lemma SpareWriteKeepsWalk(m: Memory, own: map<nat, Label>, root: nat, f: nat, i: nat, w: nat, q: nat)
    requires Forest(m, own) && IsRoot(own, root) && f !in own && P4Index(q) != RECURSIVE
    ensures Walk(Write(m, f, i, w), root, q) == Walk(m, root, q)
  {
    assert EntryOk(m, own, root, P4Index(q));
    var e4 := Read(m, root, P4Index(q));
    if Present(e4) {
      assert EntryOk(m, own, FrameOf(e4), P3Index(q));
      var e3 := Read(m, FrameOf(e4), P3Index(q));
      if Present(e3) {
        assert EntryOk(m, own, FrameOf(e3), P2Index(q));
      }
    }
  }

  lemma SpareWriteKeepsCoherent(m: Memory, own: map<nat, Label>, active: nat, edit: nat, tlb: Cache,
                                f: nat, i: nat, w: nat)
    requires Forest(m, own) && IsRoot(own, active) && IsRoot(own, edit) && Windowed(m, active, edit)
    requires f !in own && Coherent(m, active, tlb, {})
    ensures Coherent(Write(m, f, i, w), active, tlb, {})
  {
    hide Forest, Walk, Windowed;
    forall p | p in tlb
      ensures Walk(Write(m, f, i, w), active, p) == Walk(m, active, p)
    {
      if P4Index(p) == RECURSIVE {
        SpareWriteKeepsWindow(m, own, active, edit, f, i, w, p);
      } else {
        SpareWriteKeepsWalk(m, own, active, f, i, w, p);
      }
    }
  }

  /** Any word may be written to a frame that is no table, whatever it held: neither the tables
      nor the cache notice. */
  lemma SpareWriteKeepsOk(pool: Pool, s: Space, active: nat, edit: nat, tlb: Cache, f: nat, i: nat, w: nat)
    requires Ok(pool, s, active, edit, tlb) && Spare(s, f)
    ensures Ok(pool, s.(mem := Write(s.mem, f, i, w)), active, edit, tlb)
  {
    SpareWriteKeepsCoherent(s.mem, s.own, active, edit, tlb, f, i, w);
    SpareWriteKeepsSpace(pool, s, f, i, w);
  }

  lemma SpareWriteKeepsSpace(pool: Pool, s: Space, f: nat, i: nat, w: nat)
    requires SpaceOk(pool, s) && Spare(s, f)
    ensures SpaceOk(pool, s.(mem := Write(s.mem, f, i, w)))
  {
    var m' := Write(s.mem, f, i, w);
    forall g {:trigger LabelOk(m', s.own, g)} | g in s.own
      ensures LabelOk(m', s.own, g)
    {
      assert LabelOk(s.mem, s.own, g);
      SpareWriteKeepsTables(s.mem, s.own, f, i, w, s.own[g].root, s.own[g].path);
    }
    forall g, j | g in s.own && 0 <= j < ENTRIES
      ensures EntryOk(m', s.own, g, j)
    {
      assert EntryOk(s.mem, s.own, g, j);
    }
    forall g | s.next <= g <= pool.top && !pool.Reserved(g)
      ensures Clear(m', g)
    {
      WriteKeepsClear(s.mem, f, i, w, g);
    }
  }

  /** Every canonical page outside the recursive slot translates in the same way. */
  ghost predicate SameView(m: Memory, m': Memory, root: nat) {
    forall q :: Canonical(q) && P4Index(q) != RECURSIVE ==> Walk(m', root, q) == Walk(m, root, q)
  }

  lemma SpareWriteKeepsView(m: Memory, own: map<nat, Label>, root: nat, f: nat, i: nat, w: nat)
    requires Forest(m, own) && IsRoot(own, root) && f !in own
    ensures SameView(m, Write(m, f, i, w), root)
  {
    forall q | Canonical(q) && P4Index(q) != RECURSIVE
      ensures Walk(Write(m, f, i, w), root, q) == Walk(m, root, q)
    {
      SpareWriteKeepsWalk(m, own, root, f, i, w, q);
    }
  }

  /** A frame whose only entry is its own recursive slot. */
  ghost predicate IsEmptyRoot(m: Memory, f: nat) {
    (forall i :: 0 <= i < RECURSIVE ==> !Present(Read(m, f, i))) && Step(m, f, RECURSIVE) == Some(f)
  }

  /** Such a frame may join the forest as the root of a new, empty hierarchy. */
  lemma NewRootKeepsOk(pool: Pool, s: Space, active: nat, edit: nat, tlb: Cache, f: nat)
    requires Ok(pool, s, active, edit, tlb) && Spare(s, f) && f < FRAMES && IsEmptyRoot(s.mem, f)
    ensures Ok(pool, s.(own := s.own[f := Label(f, P4)]), active, edit, tlb)
  {
    var own' := s.own[f := Label(f, P4)];
    forall g {:trigger LabelOk(s.mem, own', g)} | g in own'
      ensures LabelOk(s.mem, own', g)
    {
      if g != f {
        assert LabelOk(s.mem, s.own, g);
      }
    }
    forall g, j | g in own' && 0 <= j < ENTRIES
      ensures EntryOk(s.mem, own', g, j)
    {
      if g != f {
        assert EntryOk(s.mem, s.own, g, j);
      }
    }
  }

  /** A new root translates nothing. */
  lemma EmptyRootMapsNothing(m: Memory, f: nat, page: nat)
    requires IsEmptyRoot(m, f) && P4Index(page) != RECURSIVE
    ensures Walk(m, f, page).None? && Open(m, f, page)
  {
  }

  /** The recursive slot of a root is not part of the forest: it may be written freely. */
  lemma RedirectKeepsSpace(pool: Pool, s: Space, root: nat, w: nat)
    requires SpaceOk(pool, s) && IsRoot(s.own, root)
    ensures SpaceOk(pool, s.(mem := Write(s.mem, root, RECURSIVE, w)))
  {
    var m' := Write(s.mem, root, RECURSIVE, w);
    forall g {:trigger LabelOk(m', s.own, g)} | g in s.own
      ensures LabelOk(m', s.own, g)
    {
      assert LabelOk(s.mem, s.own, g);
      RedirectKeepsTables(s.mem, s.own, root, w, s.own[g].root, s.own[g].path);
    }
    forall g, j | g in s.own && 0 <= j < ENTRIES
      ensures EntryOk(m', s.own, g, j)
    {
      assert EntryOk(s.mem, s.own, g, j);
    }
    WriteKeepsUntouched(pool, s, root, RECURSIVE, w);
  }

  lemma RedirectKeepsTables(m: Memory, own: map<nat, Label>, root: nat, w: nat, any: nat, path: Path)
    requires Forest(m, own) && IsRoot(own, root) && IsRoot(own, any) && InTree(path)
    ensures Locate(Write(m, root, RECURSIVE, w), any, path) == Locate(m, any, path)
  {
    if !path.P4? {
      assert EntryOk(m, own, any, path.i4);
      var t3 := Step(m, any, path.i4);
      if !path.P3? && t3.Some? {
        assert EntryOk(m, own, t3.value, path.i3);
      }
    }
  }

  /** No hierarchy's translations outside the recursive slot notice the redirection. */
  lemma RedirectKeepsWalks(m: Memory, own: map<nat, Label>, root: nat, w: nat, any: nat, q: nat)
    requires Forest(m, own) && IsRoot(own, root) && IsRoot(own, any) && P4Index(q) != RECURSIVE
    ensures Walk(Write(m, root, RECURSIVE, w), any, q) == Walk(m, any, q)
  {
    WriteElsewhere(m, own, root, RECURSIVE, w, any, P4Index(q), P3Index(q), P2Index(q), P1Index(q));
  }

  /** Pointing the recursive slot at a root makes its hierarchy the one being edited. */
  lemma RedirectOpensWindow(pool: Pool, s: Space, active: nat, target: nat)
    requires SpaceOk(pool, s) && IsRoot(s.own, active) && IsRoot(s.own, target)
    requires active == target || Step(s.mem, target, RECURSIVE) == Some(target)
    ensures var w := Encode(target, Or(PRESENT, WRITEABLE));
      Ok(pool, s.(mem := Write(s.mem, active, RECURSIVE, w)), active, target, map[])
  {
    RedirectKeepsSpace(pool, s, active, Encode(target, Or(PRESENT, WRITEABLE)));
    assert LabelOk(s.mem, s.own, target);
    TableFlags();
    EncodeDecodes(target, 3);
  }
}
