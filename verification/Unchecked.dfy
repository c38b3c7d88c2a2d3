/** What the paging code does not check: that the frame it uses as a new table is empty, and that
    the entry it follows is not that of a 2 MiB page. When each is harmless. */
module Unchecked {
  import opened Bits
  import opened FrameAllocator
  import opened Mmu
  import opened PageTables
  import opened Hierarchies
  import opened Boot

  // ------------------------------------------------------ tables used unzeroed

  /** Following the present entries of frame f through this many levels of tables yields no
      mapping, and does not come by one other frame. */
  ghost predicate MapsNothing(m: Memory, f: nat, levels: nat, avoid: nat)
    decreases levels
  {
    f != avoid && forall i :: 0 <= i < ENTRIES && Present(Read(m, f, i)) ==>
      levels > 1 && !Huge(Read(m, f, i)) && MapsNothing(m, FrameOf(Read(m, f, i)), levels - 1, avoid)
  }

  /** The level of the tables at a path. */
  function Level(path: Path): nat {
    match path
    case P4 => 4
    case P3(_) => 3
    case P2(_, _) => 2
    case P1(_, _, _) => 1
  }

  /** After a word is written to entry i of t: a frame met as a level-1 table. */
  lemma LeafExposes(m: Memory, f: nat, t: nat, i: nat, w: nat)
    requires Present(w) && i < ENTRIES
    ensures (forall i1: nat :: i1 < ENTRIES ==> WalkP1(Write(m, t, i, w), f, i1) == None) <==> MapsNothing(m, f, 1, t)
  {
    var m' := Write(m, t, i, w);
    if f == t {
      assert WalkP1(m', f, i).Some?;
    } else {
      forall j: nat | j < ENTRIES
        ensures WalkP1(m', f, j) == None <==> !Present(Read(m, f, j))
      {
      }
    }
  }

  ghost predicate NoneThroughP2(m: Memory, f: nat, i2: nat) {
    forall i1: nat :: i1 < ENTRIES ==> WalkP2(m, f, i2, i1) == None
  }

  /** One entry of a frame met as a level-2 table. */
  lemma MiddleEntry(m: Memory, f: nat, i2: nat, t: nat, i: nat, w: nat)
    requires Present(w) && i < ENTRIES && f != t
    ensures NoneThroughP2(Write(m, t, i, w), f, i2) <==>
      (Present(Read(m, f, i2)) ==> !Huge(Read(m, f, i2)) && MapsNothing(m, FrameOf(Read(m, f, i2)), 1, t))
  {
    var m', e := Write(m, t, i, w), Read(m, f, i2);
    assert Read(m', f, i2) == e;
    if Present(e) && Huge(e) {
      assert WalkP2(m', f, i2, 0).Some?;
    } else if Present(e) {
      LeafExposes(m, FrameOf(e), t, i, w);
      assert forall i1: nat :: WalkP2(m', f, i2, i1) == WalkP1(m', FrameOf(e), i1);
    }
  }

  /** A frame met as a level-2 table; should it be t itself, entry i leads to a frame with an
      entry j. */
  lemma MiddleExposes(m: Memory, f: nat, t: nat, i: nat, w: nat, j: nat)
    requires Present(w) && !Huge(w) && i < ENTRIES && j < ENTRIES && Present(Read(Write(m, t, i, w), FrameOf(w), j))
    ensures (forall i2: nat :: i2 < ENTRIES ==> NoneThroughP2(Write(m, t, i, w), f, i2)) <==> MapsNothing(m, f, 2, t)
  {
    var m' := Write(m, t, i, w);
    if f == t {
      assert WalkP2(m', f, i, j).Some?;
      assert !NoneThroughP2(m', f, i);
    } else {
      forall i2: nat | i2 < ENTRIES
        ensures NoneThroughP2(m', f, i2) <==>
          (Present(Read(m, f, i2)) ==> !Huge(Read(m, f, i2)) && MapsNothing(m, FrameOf(Read(m, f, i2)), 1, t))
      {
        MiddleEntry(m, f, i2, t, i, w);
      }
    }
  }

  ghost predicate NoneThroughP3(m: Memory, f: nat, i3: nat) {
    forall i2: nat, i1: nat :: i2 < ENTRIES && i1 < ENTRIES ==> WalkP3(m, f, i3, i2, i1) == None
  }

  /** One entry of the new table, met as a level-3 table. */
  lemma TopEntry(m: Memory, c: nat, i3: nat, t: nat, i: nat, w: nat)
    requires Present(w) && !Huge(w) && FrameOf(w) == c && i < ENTRIES && c != t && i3 < ENTRIES
    ensures NoneThroughP3(Write(m, t, i, w), c, i3) <==>
      (Present(Read(m, c, i3)) ==> !Huge(Read(m, c, i3)) && MapsNothing(m, FrameOf(Read(m, c, i3)), 2, t))
  {
    var m', e := Write(m, t, i, w), Read(m, c, i3);
    assert Read(m', c, i3) == e;
    if Present(e) && Huge(e) {
      assert WalkP3(m', c, i3, 0, 0).Some?;
    } else if Present(e) {
      MiddleExposes(m, FrameOf(e), t, i, w, i3);
      assert forall i2: nat, i1: nat :: WalkP3(m', c, i3, i2, i1) == WalkP2(m', FrameOf(e), i2, i1);
      if NoneThroughP3(m', c, i3) {
        forall i2: nat | i2 < ENTRIES
          ensures NoneThroughP2(m', FrameOf(e), i2)
        {
          assert forall i1: nat :: i1 < ENTRIES ==> WalkP3(m', c, i3, i2, i1) == None;
        }
      } else {
        var i2: nat, i1: nat :| i2 < ENTRIES && i1 < ENTRIES && WalkP3(m', c, i3, i2, i1) != None;
        assert !NoneThroughP2(m', FrameOf(e), i2);
      }
    }
  }

  /** No walk that uses entry i of the table at the path yields anything. */
  ghost predicate NoneThrough(m: Memory, root: nat, path: Path, i: nat) {
    match path
    case P4 =>
      forall i3: nat, i2: nat, i1: nat :: i3 < ENTRIES && i2 < ENTRIES && i1 < ENTRIES ==>
        WalkP4(m, root, i, i3, i2, i1) == None
    case P3(a) => forall i2: nat, i1: nat :: i2 < ENTRIES && i1 < ENTRIES ==> WalkP4(m, root, a, i, i2, i1) == None
    case P2(a, b) => forall i1: nat :: i1 < ENTRIES ==> WalkP4(m, root, a, b, i, i1) == None
    case P1(_, _, _) => true
  }

  /** The entry of a table on the way decides what such walks meet. */
  lemma NoneThroughTop(m: Memory, root: nat, i: nat, c: nat)
    requires Step(m, root, i) == Some(c)
    ensures NoneThrough(m, root, P4, i) <==> forall i3: nat :: i3 < ENTRIES ==> NoneThroughP3(m, c, i3)
  {
    if NoneThrough(m, root, P4, i) {
      forall i3: nat, i2: nat, i1: nat | i3 < ENTRIES && i2 < ENTRIES && i1 < ENTRIES
        ensures WalkP3(m, c, i3, i2, i1) == None
      {
        assert WalkP4(m, root, i, i3, i2, i1) == None;
      }
    } else {
      var i3: nat, i2: nat, i1: nat :| i3 < ENTRIES && i2 < ENTRIES && i1 < ENTRIES
                                     && WalkP4(m, root, i, i3, i2, i1) != None;
      assert !NoneThroughP3(m, c, i3);
    }
  }

  lemma NoneThroughMiddle(m: Memory, root: nat, a: nat, t: nat, i: nat, c: nat)
    requires Step(m, root, a) == Some(t) && Step(m, t, i) == Some(c)
    ensures NoneThrough(m, root, P3(a), i) <==> forall i2: nat :: i2 < ENTRIES ==> NoneThroughP2(m, c, i2)
  {
    if NoneThrough(m, root, P3(a), i) {
      forall i2: nat, i1: nat | i2 < ENTRIES && i1 < ENTRIES
        ensures WalkP2(m, c, i2, i1) == None
      {
        assert WalkP4(m, root, a, i, i2, i1) == None;
      }
    } else {
      var i2: nat, i1: nat :| i2 < ENTRIES && i1 < ENTRIES && WalkP4(m, root, a, i, i2, i1) != None;
      assert !NoneThroughP2(m, c, i2);
    }
  }

  lemma NoneThroughBottom(m: Memory, root: nat, a: nat, b: nat, t: nat, i: nat, c: nat)
    requires Locate(m, root, P2(a, b)) == Some(t) && Step(m, t, i) == Some(c)
    ensures NoneThrough(m, root, P2(a, b), i) <==> forall i1: nat :: i1 < ENTRIES ==> WalkP1(m, c, i1) == None
  {
    assert forall i1: nat :: WalkP4(m, root, a, b, i, i1) == WalkP1(m, c, i1);
  }

  /** The new table, met at its own level. */
  lemma TopExposes(m: Memory, c: nat, t: nat, i: nat, w: nat)
    requires Present(w) && !Huge(w) && FrameOf(w) == c && i < ENTRIES && c != t
    ensures (forall i3: nat :: i3 < ENTRIES ==> NoneThroughP3(Write(m, t, i, w), c, i3)) <==> MapsNothing(m, c, 3, t)
  {
    forall i3: nat | i3 < ENTRIES
      ensures NoneThroughP3(Write(m, t, i, w), c, i3) <==>
        (Present(Read(m, c, i3)) ==> !Huge(Read(m, c, i3)) && MapsNothing(m, FrameOf(Read(m, c, i3)), 2, t))
    {
      TopEntry(m, c, i3, t, i, w);
    }
  }

  lemma NewMiddleExposes(m: Memory, c: nat, t: nat, i: nat, w: nat)
    requires Present(w) && !Huge(w) && FrameOf(w) == c && i < ENTRIES && c != t
    ensures (forall i2: nat :: i2 < ENTRIES ==> NoneThroughP2(Write(m, t, i, w), c, i2)) <==> MapsNothing(m, c, 2, t)
  {
    forall i2: nat | i2 < ENTRIES
      ensures NoneThroughP2(Write(m, t, i, w), c, i2) <==>
        (Present(Read(m, c, i2)) ==> !Huge(Read(m, c, i2)) && MapsNothing(m, FrameOf(Read(m, c, i2)), 1, t))
    {
      MiddleEntry(m, c, i2, t, i, w);
    }
  }

  /** get_next_page_table_or_create enters the allocator's frame as a table of any level without
      zeroing it. The pages behind the entry, which had no translation, have none afterwards
      exactly when the frame maps nothing at that level: for a level-1 table, when it holds no
      present entry; for the others, when the entries it holds lead to frames that map nothing. */
  lemma CreatedTableExposes(pool: Pool, s: Space, t: nat, i: nat)
    requires Forest(s.mem, s.own) && t in s.own && !s.own[t].path.P1? && i < ENTRIES
    requires !(s.own[t].path.P4? && i == RECURSIVE) && !Present(Read(s.mem, t, i))
    requires pool.NextFree(s.next) !in s.own && pool.NextFree(s.next) < FRAMES
    ensures var c, root, path := pool.NextFree(s.next), s.own[t].root, s.own[t].path;
      && NoneThrough(s.mem, root, path, i)
      && (NoneThrough(EnsureTable(pool, s, t, i, Label(root, Child(path, i))).mem, root, path, i)
          <==> MapsNothing(s.mem, c, Level(Child(path, i)), t))
  {
    var c, root, path := pool.NextFree(s.next), s.own[t].root, s.own[t].path;
    var w := Encode(c, Or(PRESENT, WRITEABLE));
    var m' := Write(s.mem, t, i, w);
    TableFlags();
    EncodeDecodes(c, 3);
    assert LabelOk(s.mem, s.own, t);
    FillKeepsTables(s.mem, t, i, w, root, path);
    AbsentEntryMapsNothing(s.mem, root, path, t, i);
    assert Step(m', t, i) == Some(c);
    match path
    case P4 =>
      NoneThroughTop(m', root, i, c);
      TopExposes(s.mem, c, t, i, w);
    case P3(a) =>
      NoneThroughMiddle(m', root, a, t, i, c);
      NewMiddleExposes(s.mem, c, t, i, w);
    case P2(a, b) =>
      NoneThroughBottom(m', root, a, b, t, i, c);
      LeafExposes(s.mem, c, t, i, w);
  }

  lemma AbsentEntryMapsNothing(m: Memory, root: nat, path: Path, t: nat, i: nat)
    requires Locate(m, root, path) == Some(t) && !Present(Read(m, t, i))
    ensures NoneThrough(m, root, path, i)
  {
  }

  /** A frame with one present entry, which leads to an empty frame: harmless as a table of level
      2 or 3, not of level 1. */
  lemma DirtyFrame()
    ensures var m: Memory := map[Slot(4, 5) := 0x8001];
      !Clear(m, 4) && !MapsNothing(m, 4, 1, 3) && MapsNothing(m, 4, 2, 3) && MapsNothing(m, 4, 3, 3)
  {
    var m: Memory := map[Slot(4, 5) := 0x8001];
    assert Present(Read(m, 4, 5)) && FrameOf(0x8001) == 8 && !Huge(0x8001);
    assert MapsNothing(m, 8, 1, 3) && MapsNothing(m, 8, 2, 3);
  }

  // -------------------------------------------------------------- huge entries

  /** map_page_to_frame and unmap_page write to the first frame of a 2 MiB mapping as if it were a
      level-1 table; here that frame is an upper table of the page, at the entry the page uses. */
  ghost predicate WritesOwnTable(s: Space, root: nat, page: nat) {
    var b := LeafTable(s, root, page);
    && b in s.own && s.own[b].root == root
    && Passes(s.own[b].path, P1Index(page), P4Index(page), P3Index(page), P2Index(page), P1Index(page))
  }

  /** The walk of a page from below the table at a path on. */
  function WalkBelow(m: Memory, path: Path, frame: nat, page: nat): Option<Mapping> {
    match path
    case P4 => WalkP3(m, frame, P3Index(page), P2Index(page), P1Index(page))
    case P3(_) => WalkP2(m, frame, P2Index(page), P1Index(page))
    case P2(_, _) => WalkP1(m, frame, P1Index(page))
    case P1(_, _, _) => None
  }

  /** What the window shows in place of the level-1 table of a covered page. */
  lemma CoveredPage(s: Space, root: nat, page: nat)
    requires Forest(s.mem, s.own) && IsRoot(s.own, root) && P4Index(page) != RECURSIVE && !Open(s.mem, root, page)
    ensures Locate(s.mem, root, P2(P4Index(page), P3Index(page))) == Some(TableP2(s, root, page))
    ensures var e := Read(s.mem, TableP2(s, root, page), P2Index(page));
      Present(e) && Huge(e) && LeafTable(s, root, page) == FrameOf(e)
    ensures Walk(s.mem, root, page).Some? && Huge(Walk(s.mem, root, page).value.leaf)
    ensures forall pool :: MapTables(pool, s, root, page) == s
  {
    assert EntryOk(s.mem, s.own, root, P4Index(page));
  }

  /** A write there leaves the page's translation alone, unless it hits an entry on the page's way. */
  lemma CoveredWriteElsewhere(s: Space, root: nat, page: nat, w: nat)
    requires Forest(s.mem, s.own) && IsRoot(s.own, root) && P4Index(page) != RECURSIVE && !Open(s.mem, root, page)
    requires !WritesOwnTable(s, root, page)
    ensures Walk(Write(s.mem, LeafTable(s, root, page), P1Index(page), w), root, page) == Walk(s.mem, root, page)
  {
    if LeafTable(s, root, page) in s.own {
      WriteElsewhere(s.mem, s.own, LeafTable(s, root, page), P1Index(page), w, root,
                     P4Index(page), P3Index(page), P2Index(page), P1Index(page));
    } else {
      SpareWriteKeepsWalk(s.mem, s.own, root, LeafTable(s, root, page), P1Index(page), w, page);
    }
  }

  /** If it does, the word written takes the place of that entry. */
  lemma CoveredWriteHits(s: Space, root: nat, page: nat, w: nat)
    requires Forest(s.mem, s.own) && IsRoot(s.own, root) && P4Index(page) != RECURSIVE && !Open(s.mem, root, page)
    requires WritesOwnTable(s, root, page) && !Huge(w)
    ensures var m' := Write(s.mem, LeafTable(s, root, page), P1Index(page), w);
      Walk(m', root, page) == if !Present(w) then None
                              else WalkBelow(m', s.own[LeafTable(s, root, page)].path, FrameOf(w), page)
  {
    hide Walk;
    assert LabelOk(s.mem, s.own, LeafTable(s, root, page)) && EntryOk(s.mem, s.own, root, P4Index(page));
    EntryReplaced(s.mem, s.own, root, LeafTable(s, root, page), P1Index(page), w, page);
  }

  /** Replacing an entry on a page's way. */
  lemma EntryReplaced(m: Memory, own: map<nat, Label>, root: nat, b: nat, i: nat, w: nat, page: nat)
    requires b in own && own[b].root == root && Locate(m, root, own[b].path) == Some(b) && IsRoot(own, root)
    requires Passes(own[b].path, i, P4Index(page), P3Index(page), P2Index(page), P1Index(page)) && !own[b].path.P1?
    requires own[b].path.P2? ==> Step(m, root, P4Index(page)) != Some(b)
    requires !Huge(w)
    ensures var m' := Write(m, b, i, w);
      Walk(m', root, page) == if !Present(w) then None else WalkBelow(m', own[b].path, FrameOf(w), page)
  {
  }

  /** The test for a huge entry, `present_bit | !huge_bit`, is a test for presence alone. With
      ordinary flags map_page_to_frame therefore has its effect exactly when no 2 MiB mapping
      covers the page, or else when its write into the frame that is mapped there hits an entry on
      the page's own way, and the way from there ends in the very word written. In every other
      case the page keeps its translation. */
  lemma MapTakesEffectUnlessHuge(pool: Pool, s: Space, root: nat, page: nat, frame: nat, flags: nat)
    requires Forest(s.mem, s.own) && IsRoot(s.own, root) && OpOk(MapOp(page, frame, flags))
    requires !Huge(Or(PRESENT, flags))
    requires Open(s.mem, root, page) ==> SpaceOk(pool, s) && CanPayFor(pool, s, root, page)
    ensures var op, m' := MapOp(page, frame, flags), MapAt(pool, s, root, page, frame, flags).mem;
      && (Walk(m', root, page) == Outcome(op) <==>
            || Open(s.mem, root, page)
            || (WritesOwnTable(s, root, page)
                && WalkBelow(m', s.own[LeafTable(s, root, page)].path, frame, page) == Outcome(op)))
      && (!Open(s.mem, root, page) && !WritesOwnTable(s, root, page) ==>
            Walk(m', root, page) == Walk(s.mem, root, page))
  {
    if Open(s.mem, root, page) {
      ApplyIsPointUpdate(pool, s, root, MapOp(page, frame, flags), root, page);
    } else {
      FlagsWithPresent(flags);
      EncodeDecodes(frame, Or(PRESENT, flags));
      CoveredPage(s, root, page);
      if WritesOwnTable(s, root, page) {
        CoveredWriteHits(s, root, page, Encode(frame, Or(PRESENT, flags)));
      } else {
        CoveredWriteElsewhere(s, root, page, Encode(frame, Or(PRESENT, flags)));
      }
    }
  }

  /** unmap_page removes the translation exactly when no 2 MiB mapping covers the page, or else when
      its write hits an entry on the page's own way. */
  lemma UnmapTakesEffectUnlessHuge(s: Space, root: nat, page: nat)
    requires Forest(s.mem, s.own) && IsRoot(s.own, root) && Canonical(page) && P4Index(page) != RECURSIVE
    requires Open(s.mem, root, page) ==> HasTable(s.mem, root, page)
    ensures var m' := UnmapAt(s, root, page).mem;
      && (Walk(m', root, page).None? <==> Open(s.mem, root, page) || WritesOwnTable(s, root, page))
      && (Walk(m', root, page).Some? ==> Walk(m', root, page) == Walk(s.mem, root, page))
  {
    if Open(s.mem, root, page) {
      TableIsLabelled(s.mem, s.own, root, page);
      LeafWriteSets(s, root, page, 0);
    } else if WritesOwnTable(s, root, page) {
      CoveredWriteHits(s, root, page, 0);
    } else {
      CoveredPage(s, root, page);
      CoveredWriteElsewhere(s, root, page, 0);
    }
  }

  // ------------------------------------------------------ under the boot tables

  /** All pages of the first GiB are covered: the boot code maps them 2 MiB at a time. */
  lemma BootPageIsCovered(m0: Memory, m: Memory, p4: nat, p3: nat, p2: nat, page: nat, next: nat)
    requires TablesApart(p4, p3, p2) && BootTables(m0, m, p4, p3, p2) && page < 0x4_0000
    ensures var s := Space(m, BootLabels(p4, p3, p2), next);
      && Forest(m, s.own) && IsRoot(s.own, p4) && !Open(m, p4, page) && Canonical(page) && P4Index(page) == 0
      && LeafTable(s, p4, page) == page / 512 * 512
  {
    hide Forest, BootTables;
    BootForest(m0, m, p4, p3, p2);
    BootEntries(m0, m, p4, p3, p2, page);
    TableEntry(p3);
    TableEntry(p2);
    HugeEntry(P2Index(page));
  }

  lemma BootEntries(m0: Memory, m: Memory, p4: nat, p3: nat, p2: nat, page: nat)
    requires BootTables(m0, m, p4, p3, p2) && page < 0x4_0000
    ensures P4Index(page) == 0 && P3Index(page) == 0 && P2Index(page) == page / 512
    ensures Read(m, p4, 0) == p3 * 4096 + 3 && Read(m, p3, 0) == p2 * 4096 + 3
    ensures Read(m, p2, P2Index(page)) == P2Index(page) * 0x20_0000 + 0x83
  {
  }

  /** So mapping or unmapping one of them changes the frame that begins its 2 MiB, and not its
      translation, unless one of the boot tables begins these 2 MiB. */
  lemma BootPageStays(pool: Pool, m0: Memory, m: Memory, p4: nat, p3: nat, p2: nat, next: nat,
                      page: nat, frame: nat, flags: nat)
    requires TablesApart(p4, p3, p2) && BootTables(m0, m, p4, p3, p2) && page < 0x4_0000
    requires OpOk(MapOp(page, frame, flags)) && !Huge(Or(PRESENT, flags))
    requires page / 512 * 512 !in {p4, p3, p2}
    ensures var s := Space(m, BootLabels(p4, p3, p2), next);
      var m' := MapAt(pool, s, p4, page, frame, flags).mem;
      && Walk(m', p4, page) == Walk(UnmapAt(s, p4, page).mem, p4, page) == Walk(m, p4, page)
      && Read(m', page / 512 * 512, P1Index(page)) == Encode(frame, Or(PRESENT, flags))
  {
    hide Forest, BootTables, Walk, MapTables, LeafTable, Open, And, Or, Encode;
    var s := Space(m, BootLabels(p4, p3, p2), next);
    BootPageIsCovered(m0, m, p4, p3, p2, page, next);
    CoveredPage(s, p4, page);
    CoveredWriteElsewhere(s, p4, page, Encode(frame, Or(PRESENT, flags)));
    CoveredWriteElsewhere(s, p4, page, 0);
  }

  /** With the level-2 boot table in frame 0x200, page 0x201 is such an exception: its entry in that
      table is the very word that is written, and mapping it to frame 0x200 takes effect. */
  lemma BootPageMayMove(pool: Pool, m0: Memory, m: Memory, p4: nat, p3: nat, next: nat)
    requires TablesApart(p4, p3, 0x200) && BootTables(m0, m, p4, p3, 0x200)
    ensures var s := Space(m, BootLabels(p4, p3, 0x200), next);
      && !Open(m, p4, 0x201) && WritesOwnTable(s, p4, 0x201)
      && Walk(MapAt(pool, s, p4, 0x201, 0x200, WRITEABLE).mem, p4, 0x201) == Outcome(MapOp(0x201, 0x200, WRITEABLE))
  {
    hide Forest, BootTables, Walk, MapTables, Open, And, Or, Encode, IsFlags, LeafTable;
    var s := Space(m, BootLabels(p4, p3, 0x200), next);
    TableFlags();
    EncodeIsSum(0x200, 3);
    TableEntry(0x200);
    BootPageIsCovered(m0, m, p4, p3, 0x200, 0x201, next);
    assert P3Index(0x201) == 0 && P2Index(0x201) == 1 && P1Index(0x201) == 1;
    CoveredPage(s, p4, 0x201);
    CoveredWriteHits(s, p4, 0x201, 0x200 * 4096 + 3);
    var m' := MapAt(pool, s, p4, 0x201, 0x200, WRITEABLE).mem;
    assert Read(m', 0x200, 1) == 0x200 * 4096 + 3;
  }
}
