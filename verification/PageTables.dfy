/** Four-level page tables as a forest in physical memory: what creating a table, mapping a page
    and unmapping a page do to every translation, and the flat page map that whole runs refine. */
module PageTables {
  import opened Bits
  import opened FrameAllocator
  import opened Mmu

  /** Which hierarchy a table frame belongs to, and its place there. */
  datatype Label = Label(root: nat, path: Path)

  /** Physical memory, the frames in use as page tables, and the allocator's bump pointer. */
  datatype Space = Space(mem: Memory, own: map<nat, Label>, next: nat)

  // ------------------------------------------------------------------ forest

  /** A present entry of a table leads to the table labelled as its child. The recursive slot
      of a level-4 table and the entries of a level-1 table are free; the only huge entries
      are those of level-2 tables, for frames aligned to 2 MiB. */
  ghost predicate EntryOk(m: Memory, own: map<nat, Label>, f: nat, i: nat)
    requires f in own
  {
    var e, path := Read(m, f, i), own[f].path;
    || path.P1?
    || (path.P4? && i == RECURSIVE)
    || !Present(e)
    || (if Huge(e) then path.P2? && FrameOf(e) % 512 == 0
        else FrameOf(e) in own && own[FrameOf(e)] == Label(own[f].root, Child(path, i)))
  }

  /** A table is where its label says. */
  ghost predicate LabelOk(m: Memory, own: map<nat, Label>, f: nat)
    requires f in own
  {
    var l := own[f];
    && f < FRAMES && InTree(l.path)
    && l.root in own && own[l.root] == Label(l.root, P4)
    && Locate(m, l.root, l.path) == Some(f)
  }

  ghost predicate Forest(m: Memory, own: map<nat, Label>) {
    && (forall f {:trigger LabelOk(m, own, f)} :: f in own ==> LabelOk(m, own, f))
    && (forall f, i :: f in own && 0 <= i < ENTRIES ==> EntryOk(m, own, f, i))
  }

  predicate IsRoot(own: map<nat, Label>, root: nat) {
    root in own && own[root] == Label(root, P4)
  }

  /** Entry i of table f is a parent of table c. */
  ghost predicate IsParent(s: Space, f: nat, i: nat, c: nat) {
    && f in s.own && !s.own[f].path.P1? && 0 <= i < ENTRIES
    && !(s.own[f].path.P4? && i == RECURSIVE)
    && Step(s.mem, f, i) == Some(c)
  }

  /** Outside the recursive slot, no table has two parents, and no root has any. */
  lemma ParentIsUnique(s: Space, f: nat, i: nat, g: nat, j: nat, c: nat)
    requires Forest(s.mem, s.own)
    requires IsParent(s, f, i, c) && IsParent(s, g, j, c)
    ensures f == g && i == j && c in s.own && !s.own[c].path.P4?
  {
    assert EntryOk(s.mem, s.own, f, i) && EntryOk(s.mem, s.own, g, j);
    assert LabelOk(s.mem, s.own, f) && LabelOk(s.mem, s.own, g);
  }

  /** Every table but a root has a parent. */
  lemma TableHasParent(s: Space, c: nat)
    requires Forest(s.mem, s.own) && c in s.own && !s.own[c].path.P4?
    ensures exists f, i :: IsParent(s, f, i, c)
  {
    assert LabelOk(s.mem, s.own, c);
    var root := s.own[c].root;
    match s.own[c].path
    case P3(a) =>
      assert IsParent(s, root, a, c);
    case P2(a, b) =>
      assert EntryOk(s.mem, s.own, root, a);
      assert IsParent(s, Step(s.mem, root, a).value, b, c);
    case P1(a, b, d) =>
      assert EntryOk(s.mem, s.own, root, a);
      var t3 := Step(s.mem, root, a).value;
      assert EntryOk(s.mem, s.own, t3, b);
      assert IsParent(s, Step(s.mem, t3, b).value, d, c);
  }

  // ------------------------------------------------------------------ writes

  function Write(m: Memory, f: nat, i: nat, w: nat): Memory {
    m[Slot(f, i) := w]
  }

  lemma ReadAfterWrite(m: Memory, f: nat, i: nat, w: nat)
    ensures forall g, j :: Read(Write(m, f, i, w), g, j) == if g == f && j == i then w else Read(m, g, j)
  {
  }

  /** The walk with these indices uses entry i of the table at this path. */
  predicate Passes(path: Path, i: nat, i4: nat, i3: nat, i2: nat, i1: nat) {
    match path
    case P4 => i4 == i
    case P3(a) => i4 == a && i3 == i
    case P2(a, b) => i4 == a && i3 == b && i2 == i
    case P1(a, b, c) => i4 == a && i3 == b && i2 == c && i1 == i
  }

  /** Writing an entry affects only the walks of its own hierarchy that use it. */
  lemma WriteElsewhere(m: Memory, own: map<nat, Label>, t: nat, i: nat, w: nat,
                       root: nat, i4: nat, i3: nat, i2: nat, i1: nat)
    requires Forest(m, own) && t in own && IsRoot(own, root)
    requires i4 < RECURSIVE && i3 < ENTRIES && i2 < ENTRIES && i1 < ENTRIES
    requires own[t].root == root ==> !Passes(own[t].path, i, i4, i3, i2, i1)
    ensures WalkP4(Write(m, t, i, w), root, i4, i3, i2, i1) == WalkP4(m, root, i4, i3, i2, i1)
  {
    assert EntryOk(m, own, root, i4);
    var e4 := Read(m, root, i4);
    if Present(e4) {
      var t3 := FrameOf(e4);
      assert EntryOk(m, own, t3, i3);
      var e3 := Read(m, t3, i3);
      if Present(e3) {
        assert EntryOk(m, own, FrameOf(e3), i2);
      }
    }
  }

  /** Filling an entry that was not present keeps every translation there was, of every page
      and through every hierarchy, the recursive window included. */
  lemma FillKeepsWalks(m: Memory, t: nat, i: nat, w: nat, root: nat, page: nat)
    requires !Present(Read(m, t, i))
    requires Walk(m, root, page).Some?
    ensures Walk(Write(m, t, i, w), root, page) == Walk(m, root, page)
  {
    hide FrameOf, P4Index, P3Index, P2Index, P1Index;
  }

  lemma FillKeepsTables(m: Memory, t: nat, i: nat, w: nat, root: nat, path: Path)
    requires !Present(Read(m, t, i))
    requires Locate(m, root, path).Some?
    ensures Locate(Write(m, t, i, w), root, path) == Locate(m, root, path)
  {
  }

  /** A table that has no present entry maps nothing. */
  ghost predicate Clear(m: Memory, f: nat) {
    forall i :: 0 <= i < ENTRIES ==> !Present(Read(m, f, i))
  }

  // ------------------------------------------------------- spaces and tables

  /** The frames still to be handed out hold no present entry: the hypothesis under which a table
      that is used without being zeroed is empty. */
  ghost predicate Untouched(pool: Pool, s: Space) {
    forall f :: s.next <= f <= pool.top && !pool.Reserved(f) ==> Clear(s.mem, f)
  }

  /** The tables lie among the frames handed out or reserved. */
  ghost predicate Owned(pool: Pool, s: Space) {
    forall f :: f in s.own ==> f < s.next || pool.Reserved(f)
  }

  ghost predicate SpaceOk(pool: Pool, s: Space) {
    Forest(s.mem, s.own) && Owned(pool, s) && Untouched(pool, s) && pool.top < FRAMES
  }

  /** get_next_page_table_or_create at entry i of table t: the new table gets the label. */
  function EnsureTable(pool: Pool, s: Space, t: nat, i: nat, tag: Label): Space {
    if Present(Read(s.mem, t, i)) then s
    else
      var c := pool.NextFree(s.next);
      Space(Write(s.mem, t, i, Encode(c, Or(PRESENT, WRITEABLE))), s.own[c := tag], c + 1)
  }

  /** The table behind entry i of table t. */
  function Behind(s: Space, t: nat, i: nat): nat {
    FrameOf(Read(s.mem, t, i))
  }

  predicate Labelled(s: Space, t: nat, tag: Label) {
    t in s.own && s.own[t] == tag
  }

  lemma TableFlags()
    ensures Or(PRESENT, WRITEABLE) == 3 && IsFlags(3) && Present(3) && !Huge(3)
  {
    MaskIsField(3);
    assert 3 / 4096 == 0;
  }

  ghost predicate Extends(own: map<nat, Label>, own': map<nat, Label>) {
    forall f :: f in own ==> f in own' && own'[f] == own[f]
  }

  /** What a call may assume about the entry it is given. */
  ghost predicate CanEnsure(pool: Pool, s: Space, t: nat, i: nat, tag: Label) {
    && SpaceOk(pool, s) && i < ENTRIES
    && t in s.own && !s.own[t].path.P1? && !(s.own[t].path.P4? && i == RECURSIVE)
    && tag == Label(s.own[t].root, Child(s.own[t].path, i))
    && (if Present(Read(s.mem, t, i)) then !Huge(Read(s.mem, t, i)) else pool.NextFree(s.next) <= pool.top)
  }

  /** A table that is there is not created again; for one that is not there is a frame. */
  lemma EnsureTableCases(pool: Pool, s: Space, t: nat, i: nat, tag: Label)
    ensures Present(Read(s.mem, t, i)) ==> EnsureTable(pool, s, t, i, tag) == s
    ensures CanEnsure(pool, s, t, i, tag) ==> Present(Read(s.mem, t, i)) || pool.NextFree(s.next) <= pool.top < FRAMES
  {
  }

  /** Creating a missing table keeps the forest; the entry then leads to the labelled table,
      which is empty if it was created, and nothing else changes. */
  lemma EnsureTableOk(pool: Pool, s: Space, t: nat, i: nat, tag: Label)
    requires CanEnsure(pool, s, t, i, tag)
    ensures var s' := EnsureTable(pool, s, t, i, tag);
      && SpaceOk(pool, s')
      && Step(s'.mem, t, i) == Some(Behind(s', t, i)) && Labelled(s', Behind(s', t, i), tag)
      && (!Present(Read(s.mem, t, i)) ==> Behind(s', t, i) == pool.NextFree(s.next) && Clear(s'.mem, Behind(s', t, i)))
      && Extends(s.own, s'.own)
  {
    if Present(Read(s.mem, t, i)) {
      assert EntryOk(s.mem, s.own, t, i);
    } else {
      CreateKeepsForest(pool, s, t, i, tag);
      NewFrameIsNoTable(pool, s);
    }
  }

  /** The one word that creating a table changes: the entry gets the frame's address, present and
      writeable. */
  lemma CreatedTableWord(pool: Pool, s: Space, t: nat, i: nat, tag: Label)
    requires pool.NextFree(s.next) < FRAMES && !Present(Read(s.mem, t, i))
    ensures EnsureTable(pool, s, t, i, tag).mem == s.mem[Slot(t, i) := pool.NextFree(s.next) * 4096 + 3]
    ensures pool.NextFree(s.next) * 4096 + 3 == Encode(pool.NextFree(s.next), Or(PRESENT, WRITEABLE))
  {
    TableFlags();
    EncodeIsSum(pool.NextFree(s.next), 3);
  }

  /** A frame from the allocator is no table yet. */
  lemma NewFrameIsNoTable(pool: Pool, s: Space)
    requires SpaceOk(pool, s)
    ensures pool.NextFree(s.next) !in s.own
    ensures pool.NextFree(s.next) <= pool.top ==> Clear(s.mem, pool.NextFree(s.next))
  {
  }

  lemma WriteKeepsClear(m: Memory, t: nat, i: nat, w: nat, f: nat)
    requires f != t && Clear(m, f)
    ensures Clear(Write(m, t, i, w), f)
  {
    forall j | 0 <= j < ENTRIES
      ensures !Present(Read(Write(m, t, i, w), f, j))
    {
      assert !Present(Read(m, f, j));
    }
  }

  /** Writing to a table leaves the frames not handed out untouched. */
  lemma WriteKeepsUntouched(pool: Pool, s: Space, t: nat, i: nat, w: nat)
    requires SpaceOk(pool, s) && t in s.own
    ensures Untouched(pool, s.(mem := Write(s.mem, t, i, w)))
  {
    forall f | s.next <= f <= pool.top && !pool.Reserved(f)
      ensures Clear(Write(s.mem, t, i, w), f)
    {
      WriteKeepsClear(s.mem, t, i, w, f);
    }
  }

  lemma CreateKeepsForest(pool: Pool, s: Space, t: nat, i: nat, tag: Label)
    requires CanEnsure(pool, s, t, i, tag) && !Present(Read(s.mem, t, i))
    ensures var s' := EnsureTable(pool, s, t, i, tag);
      && SpaceOk(pool, s')
      && Step(s'.mem, t, i) == Some(pool.NextFree(s.next))
      && Clear(s'.mem, pool.NextFree(s.next))
  {
    var s' := EnsureTable(pool, s, t, i, tag);
    var c := pool.NextFree(s.next);
    TableFlags();
    EncodeDecodes(c, 3);
    NewFrameIsNoTable(pool, s);
    WriteKeepsUntouched(pool, s, t, i, Encode(c, Or(PRESENT, WRITEABLE)));
    WriteKeepsClear(s.mem, t, i, Encode(c, Or(PRESENT, WRITEABLE)), c);
    forall f | f in s'.own
      ensures LabelOk(s'.mem, s'.own, f)
    {
      CreateKeepsLabel(pool, s, t, i, tag, f);
    }
    forall f, j | f in s'.own && 0 <= j < ENTRIES
      ensures EntryOk(s'.mem, s'.own, f, j)
    {
      if f != c {
        assert EntryOk(s.mem, s.own, f, j);
      }
    }
  }

  lemma CreateKeepsLabel(pool: Pool, s: Space, t: nat, i: nat, tag: Label, f: nat)
    requires CanEnsure(pool, s, t, i, tag) && !Present(Read(s.mem, t, i))
    requires f in EnsureTable(pool, s, t, i, tag).own
    ensures var s' := EnsureTable(pool, s, t, i, tag); LabelOk(s'.mem, s'.own, f)
  {
    var c := pool.NextFree(s.next);
    TableFlags();
    EncodeDecodes(c, 3);
    NewFrameIsNoTable(pool, s);
    assert LabelOk(s.mem, s.own, t);
    var w := Encode(c, Or(PRESENT, WRITEABLE));
    if f == c {
      FillKeepsTables(s.mem, t, i, w, s.own[t].root, s.own[t].path);
    } else {
      assert LabelOk(s.mem, s.own, f);
      FillKeepsTables(s.mem, t, i, w, s.own[f].root, s.own[f].path);
    }
  }

  /** Creating a table changes no translation outside the recursive slot, of any hierarchy. */
  lemma EnsureTableKeepsWalks(pool: Pool, s: Space, t: nat, i: nat, tag: Label,
                              root: nat, i4: nat, i3: nat, i2: nat, i1: nat)
    requires CanEnsure(pool, s, t, i, tag) && IsRoot(s.own, root)
    requires i4 < RECURSIVE && i3 < ENTRIES && i2 < ENTRIES && i1 < ENTRIES
    ensures WalkP4(EnsureTable(pool, s, t, i, tag).mem, root, i4, i3, i2, i1) == WalkP4(s.mem, root, i4, i3, i2, i1)
  {
    if !Present(Read(s.mem, t, i)) {
      var c := pool.NextFree(s.next);
      var w := Encode(c, Or(PRESENT, WRITEABLE));
      var path := s.own[t].path;
      if s.own[t].root == root && Passes(path, i, i4, i3, i2, i1) {
        TableFlags();
        EncodeDecodes(c, 3);
        NewFrameIsNoTable(pool, s);
        WriteKeepsClear(s.mem, t, i, w, c);
        assert LabelOk(s.mem, s.own, t);
        FillKeepsTables(s.mem, t, i, w, root, path);
        var m' := Write(s.mem, t, i, w);
        assert !Present(Read(m', c, i3)) && !Present(Read(m', c, i2)) && !Present(Read(m', c, i1));
      } else {
        WriteElsewhere(s.mem, s.own, t, i, w, root, i4, i3, i2, i1);
      }
    }
  }

  // --------------------------------------------------------- which tables exist

  ghost predicate OwnsPath(own: map<nat, Label>, root: nat, path: Path) {
    exists t :: t in own && own[t] == Label(root, path)
  }

  /** The tables that can be reached are those that are labelled. */
  lemma LocatedIfOwned(m: Memory, own: map<nat, Label>, root: nat, path: Path)
    requires Forest(m, own) && IsRoot(own, root) && InTree(path)
    ensures Locate(m, root, path).Some? <==> OwnsPath(own, root, path)
    ensures Locate(m, root, path).Some? ==>
              Locate(m, root, path).value in own && own[Locate(m, root, path).value] == Label(root, path)
  {
    if OwnsPath(own, root, path) {
      var t :| t in own && own[t] == Label(root, path);
      assert LabelOk(m, own, t);
    }
    if !path.P4? {
      assert EntryOk(m, own, root, path.i4);
      var t3 := Step(m, root, path.i4);
      if !path.P3? && t3.Some? {
        assert EntryOk(m, own, t3.value, path.i3);
        var t2 := Step(m, t3.value, path.i3);
        if path.P1? && t2.Some? {
          assert EntryOk(m, own, t2.value, path.i2);
        }
      }
    }
  }

  /** Creating a table adds that table and no other. */
  lemma EnsureTableLocates(pool: Pool, s: Space, t: nat, i: nat, tag: Label, root: nat, path: Path)
    requires CanEnsure(pool, s, t, i, tag) && IsRoot(s.own, root) && InTree(path)
    ensures var s' := EnsureTable(pool, s, t, i, tag);
      Locate(s'.mem, root, path).Some? <==> Locate(s.mem, root, path).Some? || tag == Label(root, path)
  {
    hide Locate, SpaceOk;
    var s' := EnsureTable(pool, s, t, i, tag);
    EnsureTableOk(pool, s, t, i, tag);
    SpaceIsForest(pool, s);
    SpaceIsForest(pool, s');
    NewFrameIsNoTable(pool, s);
    LocatedIfOwned(s.mem, s.own, root, path);
    LocatedIfOwned(s'.mem, s'.own, root, path);
    if OwnsPath(s.own, root, path) {
      var f :| f in s.own && s.own[f] == Label(root, path);
      assert s'.own[f] == Label(root, path);
    }
  }

  lemma SpaceIsForest(pool: Pool, s: Space)
    requires SpaceOk(pool, s)
    ensures Forest(s.mem, s.own)
  {
  }

  /** One if the table at the path is missing, else zero. */
  function Lack(m: Memory, root: nat, path: Path): nat {
    if Locate(m, root, path).Some? then 0 else 1
  }

  /** How many of the three tables on the way to a page are missing. */
  function Missing(m: Memory, root: nat, page: nat): nat {
    Lack(m, root, P3(P4Index(page))) + Lack(m, root, P2(P4Index(page), P3Index(page))) + Lack(m, root, LeafPath(page))
  }

  /** The paths of the three tables on the way to a page. */
  function TablePaths(page: nat): set<Path> {
    {P3(P4Index(page)), P2(P4Index(page), P3Index(page)), LeafPath(page)}
  }

  /** A frame is spent exactly when the table is missing. */
  lemma EnsureTableSpends(pool: Pool, s: Space, t: nat, i: nat, tag: Label)
    requires SpaceOk(pool, s) && i < ENTRIES
    requires t in s.own && !s.own[t].path.P1? && !(s.own[t].path.P4? && i == RECURSIVE)
    requires tag == Label(s.own[t].root, Child(s.own[t].path, i))
    requires Present(Read(s.mem, t, i)) ==> !Huge(Read(s.mem, t, i))
    requires pool.Enough(s.next, Lack(s.mem, tag.root, tag.path))
    ensures CanEnsure(pool, s, t, i, tag)
    ensures EnsureTable(pool, s, t, i, tag).next == pool.Advance(s.next, Lack(s.mem, tag.root, tag.path))
  {
    assert LabelOk(s.mem, s.own, t);
  }

  // ----------------------------------------------------------------- mapping

  /** The frames of the tables of a page, following the entries. */
  function TableP3(s: Space, root: nat, page: nat): nat {
    Behind(s, root, P4Index(page))
  }

  function TableP2(s: Space, root: nat, page: nat): nat {
    Behind(s, TableP3(s, root, page), P3Index(page))
  }

  function LeafTable(s: Space, root: nat, page: nat): nat {
    Behind(s, TableP2(s, root, page), P2Index(page))
  }

  function LeafPath(page: nat): Path {
    P1(P4Index(page), P3Index(page), P2Index(page))
  }

  /** The three get_next_page_table_or_create calls of map_page_to_frame, one after the other. */
  function MapP3(pool: Pool, s: Space, root: nat, page: nat): Space {
    EnsureTable(pool, s, root, P4Index(page), Label(root, P3(P4Index(page))))
  }

  function MapP2(pool: Pool, s: Space, root: nat, page: nat): Space {
    var s1 := MapP3(pool, s, root, page);
    EnsureTable(pool, s1, TableP3(s1, root, page), P3Index(page), Label(root, P2(P4Index(page), P3Index(page))))
  }

  function MapTables(pool: Pool, s: Space, root: nat, page: nat): Space {
    var s2 := MapP2(pool, s, root, page);
    EnsureTable(pool, s2, TableP2(s2, root, page), P2Index(page), Label(root, LeafPath(page)))
  }

  /** map_page_to_frame on the hierarchy at root. */
  function MapAt(pool: Pool, s: Space, root: nat, page: nat, frame: nat, flags: nat): Space {
    var s' := MapTables(pool, s, root, page);
    s'.(mem := Write(s'.mem, LeafTable(s', root, page), P1Index(page), Encode(frame, Or(PRESENT, flags))))
  }

  /** map_page on the hierarchy at root: the frame is 0 when the allocator has none left. */
  function MapPageAt(pool: Pool, s: Space, root: nat, page: nat, flags: nat): Space {
    var frame := pool.NextFree(s.next);
    if frame <= pool.top then MapAt(pool, s.(next := frame + 1), root, page, frame, flags)
    else MapAt(pool, s, root, page, 0, flags)
  }

  /** unmap_page on the hierarchy at root: the level-1 entry becomes zero. */
  function UnmapAt(s: Space, root: nat, page: nat): Space {
    s.(mem := Write(s.mem, LeafTable(s, root, page), P1Index(page), 0))
  }

  /** The page is not covered by a huge entry. */
  predicate Open(m: Memory, root: nat, page: nat) {
    var t := Locate(m, root, P2(P4Index(page), P3Index(page)));
    t.Some? ==> !(Present(Read(m, t.value, P2Index(page))) && Huge(Read(m, t.value, P2Index(page))))
  }

  /** A page with no translation is under no huge entry. */
  lemma UnmappedIsOpen(m: Memory, root: nat, page: nat)
    requires Walk(m, root, page).None?
    ensures Open(m, root, page)
  {
  }

  /** There are frames for the missing tables of the page. */
  predicate CanPayFor(pool: Pool, s: Space, root: nat, page: nat) {
    pool.Enough(s.next, Missing(s.mem, root, page))
  }

  ghost predicate CanMap(pool: Pool, s: Space, root: nat, page: nat) {
    && SpaceOk(pool, s) && IsRoot(s.own, root)
    && P4Index(page) != RECURSIVE && Open(s.mem, root, page)
  }

  /** One table on the way to a page, looked up or created: the frames needed for the page grow
      fewer by those spent. */
  lemma NextTableOk(pool: Pool, s: Space, root: nat, page: nat, t: nat, path: Path, i: nat)
    requires SpaceOk(pool, s) && IsRoot(s.own, root) && Labelled(s, t, Label(root, path))
    requires !path.P1? && i < ENTRIES && P4Index(page) != RECURSIVE && Child(path, i) in TablePaths(page)
    requires Present(Read(s.mem, t, i)) ==> !Huge(Read(s.mem, t, i))
    requires pool.Enough(s.next, Missing(s.mem, root, page))
    ensures CanEnsure(pool, s, t, i, Label(root, Child(path, i)))
    ensures var s' := EnsureTable(pool, s, t, i, Label(root, Child(path, i)));
      && SpaceOk(pool, s') && IsRoot(s'.own, root) && Extends(s.own, s'.own)
      && Labelled(s', Behind(s', t, i), Label(root, Child(path, i)))
      && Lack(s'.mem, root, Child(path, i)) == 0 && pool.Enough(s'.next, Missing(s'.mem, root, page))
      && pool.Advance(s'.next, Missing(s'.mem, root, page)) == pool.Advance(s.next, Missing(s.mem, root, page))
  {
    hide Locate, SpaceOk, EnsureTable, Pool.Enough, Pool.Advance;
    var a, b, tag := P4Index(page), P3Index(page), Label(root, Child(path, i));
    var spent := Lack(s.mem, root, Child(path, i));
    EnoughSplits(pool, s.next, spent, Missing(s.mem, root, page) - spent);
    EnsureTableSpends(pool, s, t, i, tag);
    EnsureTableOk(pool, s, t, i, tag);
    EnsureTableLocates(pool, s, t, i, tag, root, P3(a));
    EnsureTableLocates(pool, s, t, i, tag, root, P2(a, b));
    EnsureTableLocates(pool, s, t, i, tag, root, LeafPath(page));
  }

  /** The first two levels. */
  lemma MapP2Ok(pool: Pool, s: Space, root: nat, page: nat)
    requires CanMap(pool, s, root, page) && CanPayFor(pool, s, root, page)
    ensures var a, b := P4Index(page), P3Index(page);
      var s1, s2 := MapP3(pool, s, root, page), MapP2(pool, s, root, page);
      && CanEnsure(pool, s, root, a, Label(root, P3(a))) && Labelled(s1, TableP3(s1, root, page), Label(root, P3(a)))
      && CanEnsure(pool, s1, TableP3(s1, root, page), b, Label(root, P2(a, b)))
      && SpaceOk(pool, s2) && IsRoot(s2.own, root) && Extends(s.own, s2.own) && CanPayFor(pool, s2, root, page)
      && pool.Advance(s2.next, Missing(s2.mem, root, page)) == pool.Advance(s.next, Missing(s.mem, root, page))
      && Labelled(s2, TableP2(s2, root, page), Label(root, P2(a, b)))
      && Lack(s2.mem, root, P3(a)) == 0 && Lack(s2.mem, root, P2(a, b)) == 0
  {
    hide Locate, SpaceOk, EnsureTable, Pool.Enough, Pool.Advance, Open;
    var a, b := P4Index(page), P3Index(page);
    var s1, s2 := MapP3(pool, s, root, page), MapP2(pool, s, root, page);
    UpperEntryIsSmall(pool, s, root, root, P4, a);
    NextTableOk(pool, s, root, page, root, P4, a);
    UpperEntryIsSmall(pool, s1, TableP3(s1, root, page), root, P3(a), b);
    NextTableOk(pool, s1, root, page, TableP3(s1, root, page), P3(a), b);
    LabelledIsReached(pool, s2, root, page, Behind(s2, TableP3(s1, root, page), b));
  }

  /** Only level-2 tables have huge entries. */
  lemma UpperEntryIsSmall(pool: Pool, s: Space, t: nat, root: nat, path: Path, i: nat)
    requires SpaceOk(pool, s) && Labelled(s, t, Label(root, path)) && (path.P4? || path.P3?)
    requires i < ENTRIES && !(path.P4? && i == RECURSIVE)
    ensures Present(Read(s.mem, t, i)) ==> !Huge(Read(s.mem, t, i))
  {
    assert EntryOk(s.mem, s.own, t, i);
  }

  /** The table labelled as the level-2 table of a page is the one its entries lead to. */
  lemma LabelledIsReached(pool: Pool, s: Space, root: nat, page: nat, t2: nat)
    requires SpaceOk(pool, s) && Labelled(s, t2, Label(root, P2(P4Index(page), P3Index(page))))
    ensures TableP2(s, root, page) == t2
    ensures Lack(s.mem, root, P3(P4Index(page))) == 0
  {
    assert LabelOk(s.mem, s.own, t2);
  }

  /** All three levels: the level-1 table exists and is labelled, whatever had to be created, and
      exactly the missing tables were paid for. */
  lemma MapTablesOk(pool: Pool, s: Space, root: nat, page: nat)
    requires CanMap(pool, s, root, page) && CanPayFor(pool, s, root, page)
    ensures var s2, s' := MapP2(pool, s, root, page), MapTables(pool, s, root, page);
      && CanEnsure(pool, s2, TableP2(s2, root, page), P2Index(page), Label(root, LeafPath(page)))
      && SpaceOk(pool, s') && IsRoot(s'.own, root) && Extends(s.own, s'.own)
      && Labelled(s', LeafTable(s', root, page), Label(root, LeafPath(page)))
      && s'.next == pool.Advance(s.next, Missing(s.mem, root, page))
  {
    hide SpaceOk, EnsureTable, Pool.Enough, Clear, CanEnsure;
    var a, b, c := P4Index(page), P3Index(page), P2Index(page);
    var s2 := MapP2(pool, s, root, page);
    MapP2Ok(pool, s, root, page);
    MapP2KeepsOpen(pool, s, root, page);
    NextTableOk(pool, s2, root, page, TableP2(s2, root, page), P2(a, b), c);
    LocatedLeaf(pool, MapTables(pool, s, root, page), root, page, TableP2(s2, root, page));
  }

  /** With no table missing there is nothing to create. */
  lemma MapTablesIsIdentity(pool: Pool, s: Space, root: nat, page: nat)
    requires SpaceOk(pool, s) && IsRoot(s.own, root) && P4Index(page) != RECURSIVE && Missing(s.mem, root, page) == 0
    ensures MapTables(pool, s, root, page) == s
  {
  }

  /** The level-2 table, if it was there before, has no huge entry for the page. */
  lemma MapP2KeepsOpen(pool: Pool, s: Space, root: nat, page: nat)
    requires CanMap(pool, s, root, page) && CanPayFor(pool, s, root, page)
    ensures var s2 := MapP2(pool, s, root, page);
      var e := Read(s2.mem, TableP2(s2, root, page), P2Index(page)); Present(e) ==> !Huge(e)
  {
    var a, b := P4Index(page), P3Index(page);
    var s1, s2 := MapP3(pool, s, root, page), MapP2(pool, s, root, page);
    MapP2Ok(pool, s, root, page);
    EnsureTableOk(pool, s, root, a, Label(root, P3(a)));
    EnsureTableOk(pool, s1, TableP3(s1, root, page), b, Label(root, P2(a, b)));
    LabelledIsReached(pool, s2, root, page, Behind(s2, TableP3(s1, root, page), b));
    if Present(Read(s1.mem, TableP3(s1, root, page), b)) {
      assert !Clear(s1.mem, TableP3(s1, root, page));
      assert s2 == s1 == s;
      assert LabelOk(s.mem, s.own, TableP2(s, root, page));
    }
  }

  lemma LocatedLeaf(pool: Pool, s: Space, root: nat, page: nat, t2: nat)
    requires SpaceOk(pool, s) && Labelled(s, Behind(s, t2, P2Index(page)), Label(root, LeafPath(page)))
    ensures LeafTable(s, root, page) == Behind(s, t2, P2Index(page))
    ensures Missing(s.mem, root, page) == 0
  {
    assert LabelOk(s.mem, s.own, Behind(s, t2, P2Index(page)));
  }

  /** The tables on the way to the page exist afterwards, and no others that did not before. */
  lemma MapTablesLocates(pool: Pool, s: Space, root: nat, page: nat, any: nat, path: Path)
    requires CanMap(pool, s, root, page) && CanPayFor(pool, s, root, page)
    requires IsRoot(s.own, any) && InTree(path)
    ensures Locate(MapTables(pool, s, root, page).mem, any, path).Some?
       <==> Locate(s.mem, any, path).Some? || (any == root && path in TablePaths(page))
  {
    hide Locate, SpaceOk, EnsureTable, Pool.Enough, CanEnsure;
    var a, b, c := P4Index(page), P3Index(page), P2Index(page);
    var s1, s2 := MapP3(pool, s, root, page), MapP2(pool, s, root, page);
    MapP2Ok(pool, s, root, page);
    MapTablesOk(pool, s, root, page);
    EnsureTableOk(pool, s, root, a, Label(root, P3(a)));
    EnsureTableLocates(pool, s, root, a, Label(root, P3(a)), any, path);
    EnsureTableLocates(pool, s1, TableP3(s1, root, page), b, Label(root, P2(a, b)), any, path);
    EnsureTableLocates(pool, s2, TableP2(s2, root, page), c, Label(root, LeafPath(page)), any, path);
  }

  lemma MapTablesKeepsWalks(pool: Pool, s: Space, root: nat, page: nat, any: nat, q: nat)
    requires CanMap(pool, s, root, page) && CanPayFor(pool, s, root, page)
    requires IsRoot(s.own, any) && P4Index(q) != RECURSIVE
    ensures Walk(MapTables(pool, s, root, page).mem, any, q) == Walk(s.mem, any, q)
  {
    hide SpaceOk, EnsureTable, Pool.Enough, CanEnsure, WalkP4;
    var a, b, c := P4Index(page), P3Index(page), P2Index(page);
    var s1, s2 := MapP3(pool, s, root, page), MapP2(pool, s, root, page);
    MapP2Ok(pool, s, root, page);
    MapTablesOk(pool, s, root, page);
    EnsureTableOk(pool, s, root, a, Label(root, P3(a)));
    EnsureTableKeepsWalks(pool, s, root, a, Label(root, P3(a)), any, P4Index(q), P3Index(q), P2Index(q), P1Index(q));
    EnsureTableKeepsWalks(pool, s1, TableP3(s1, root, page), b, Label(root, P2(a, b)), any,
                          P4Index(q), P3Index(q), P2Index(q), P1Index(q));
    EnsureTableKeepsWalks(pool, s2, TableP2(s2, root, page), c, Label(root, LeafPath(page)), any,
                          P4Index(q), P3Index(q), P2Index(q), P1Index(q));
  }

  // ------------------------------------------------------------- leaf writes

  /** The entries of level-1 tables are free: writing one keeps the forest. */
  lemma LeafWriteOk(pool: Pool, s: Space, t: nat, i: nat, w: nat)
    requires SpaceOk(pool, s) && t in s.own && s.own[t].path.P1?
    ensures SpaceOk(pool, s.(mem := Write(s.mem, t, i, w)))
  {
    var m' := Write(s.mem, t, i, w);
    forall f | f in s.own
      ensures LabelOk(m', s.own, f)
    {
      assert LabelOk(s.mem, s.own, f);
      LeafWriteKeepsTables(s.mem, s.own, t, i, w, s.own[f].root, s.own[f].path);
    }
    forall f, j | f in s.own && 0 <= j < ENTRIES
      ensures EntryOk(m', s.own, f, j)
    {
      assert EntryOk(s.mem, s.own, f, j);
    }
    WriteKeepsUntouched(pool, s, t, i, w);
  }

  lemma LeafWriteKeepsTables(m: Memory, own: map<nat, Label>, t: nat, i: nat, w: nat, root: nat, path: Path)
    requires Forest(m, own) && t in own && own[t].path.P1? && IsRoot(own, root) && InTree(path)
    ensures Locate(Write(m, t, i, w), root, path) == Locate(m, root, path)
  {
    if !path.P4? {
      assert EntryOk(m, own, root, path.i4);
      var t3 := Step(m, root, path.i4);
      if !path.P3? && t3.Some? {
        assert EntryOk(m, own, t3.value, path.i3);
      }
    }
  }

  ghost predicate HasTable(m: Memory, root: nat, page: nat) {
    Locate(m, root, LeafPath(page)).Some?
  }

  /** A page whose level-1 table can be reached has it labelled with its path. */
  lemma TableIsLabelled(m: Memory, own: map<nat, Label>, root: nat, page: nat)
    requires Forest(m, own) && IsRoot(own, root) && P4Index(page) != RECURSIVE && HasTable(m, root, page)
    ensures Labelled(Space(m, own, 0), LeafTable(Space(m, own, 0), root, page), Label(root, LeafPath(page)))
  {
    LocatedIfOwned(m, own, root, LeafPath(page));
  }

  /** The page's own walk yields what was written. */
  lemma LeafWriteSets(s: Space, root: nat, page: nat, w: nat)
    requires Forest(s.mem, s.own) && Labelled(s, LeafTable(s, root, page), Label(root, LeafPath(page)))
    ensures Walk(Write(s.mem, LeafTable(s, root, page), P1Index(page), w), root, page)
         == if Present(w) then Some(Mapping(FrameOf(w), w)) else None
  {
    var t := LeafTable(s, root, page);
    assert LabelOk(s.mem, s.own, t);
    LeafWriteKeepsTables(s.mem, s.own, t, P1Index(page), w, root, LeafPath(page));
  }

  /** Every other page outside the recursive slot, and every other hierarchy, keeps its walks. */
  lemma LeafWriteElsewhere(s: Space, root: nat, page: nat, w: nat, any: nat, q: nat)
    requires Forest(s.mem, s.own) && Labelled(s, LeafTable(s, root, page), Label(root, LeafPath(page)))
    requires Canonical(page) && Canonical(q) && P4Index(q) != RECURSIVE && IsRoot(s.own, any)
    requires any != root || q != page
    ensures Walk(Write(s.mem, LeafTable(s, root, page), P1Index(page), w), any, q) == Walk(s.mem, any, q)
  {
    if any == root && Passes(LeafPath(page), P1Index(page), P4Index(q), P3Index(q), P2Index(q), P1Index(q)) {
      IndicesDeterminePage(page, q);
    }
    WriteElsewhere(s.mem, s.own, LeafTable(s, root, page), P1Index(page), w, any,
                   P4Index(q), P3Index(q), P2Index(q), P1Index(q));
  }

  // ------------------------------------------------------------ one operation

  datatype Op = MapOp(page: nat, frame: nat, flags: nat) | UnmapOp(page: nat)

  predicate OpOk(op: Op) {
    && Canonical(op.page) && P4Index(op.page) != RECURSIVE
    && (op.MapOp? ==> op.frame < FRAMES && IsFlags(op.flags))
  }

  function Apply(pool: Pool, s: Space, root: nat, op: Op): Space {
    match op
    case MapOp(page, frame, flags) => MapAt(pool, s, root, page, frame, flags)
    case UnmapOp(page) => UnmapAt(s, root, page)
  }

  ghost predicate CanApply(pool: Pool, s: Space, root: nat, op: Op) {
    && CanMap(pool, s, root, op.page) && OpOk(op)
    && (op.UnmapOp? ==> HasTable(s.mem, root, op.page))
  }

  /** The space in which the operation writes its entry, and the word it writes. */
  function Prepared(pool: Pool, s: Space, root: nat, op: Op): Space {
    if op.MapOp? then MapTables(pool, s, root, op.page) else s
  }

  function Word(op: Op): nat {
    if op.MapOp? then Encode(op.frame, Or(PRESENT, op.flags)) else 0
  }

  /** The frames one operation takes: those of the missing tables, if it maps. */
  function Spends(s: Space, root: nat, op: Op): nat {
    if op.MapOp? then Missing(s.mem, root, op.page) else 0
  }

  predicate CanPay(pool: Pool, s: Space, root: nat, op: Op) {
    pool.Enough(s.next, Spends(s, root, op))
  }

  lemma PreparedOk(pool: Pool, s: Space, root: nat, op: Op)
    requires CanApply(pool, s, root, op) && CanPay(pool, s, root, op)
    ensures var p := Prepared(pool, s, root, op);
      && SpaceOk(pool, p) && Labelled(p, LeafTable(p, root, op.page), Label(root, LeafPath(op.page)))
      && IsRoot(p.own, root) && Extends(s.own, p.own) && p.next == pool.Advance(s.next, Spends(s, root, op))
      && Apply(pool, s, root, op) == p.(mem := Write(p.mem, LeafTable(p, root, op.page), P1Index(op.page), Word(op)))
  {
    hide SpaceOk, EnsureTable, Pool.Enough, Locate, Open;
    if op.MapOp? {
      MapTablesOk(pool, s, root, op.page);
    } else {
      SpaceIsForest(pool, s);
      TableIsLabelled(s.mem, s.own, root, op.page);
    }
  }

  /** An operation keeps the forest and all labels, and takes exactly the frames it must. */
  lemma ApplyOk(pool: Pool, s: Space, root: nat, op: Op)
    requires CanApply(pool, s, root, op) && CanPay(pool, s, root, op)
    ensures var s' := Apply(pool, s, root, op);
      && SpaceOk(pool, s') && IsRoot(s'.own, root) && Extends(s.own, s'.own)
      && s'.next == pool.Advance(s.next, Spends(s, root, op))
  {
    PreparedOk(pool, s, root, op);
    var p := Prepared(pool, s, root, op);
    LeafWriteOk(pool, p, LeafTable(p, root, op.page), P1Index(op.page), Word(op));
  }

  /** Mapping a page makes the tables on its way exist; no operation adds others or removes any. */
  lemma ApplyLocates(pool: Pool, s: Space, root: nat, op: Op, any: nat, path: Path)
    requires CanApply(pool, s, root, op) && CanPay(pool, s, root, op)
    requires IsRoot(s.own, any) && InTree(path)
    ensures Locate(Apply(pool, s, root, op).mem, any, path).Some?
       <==> Locate(s.mem, any, path).Some? || (op.MapOp? && any == root && path in TablePaths(op.page))
  {
    hide SpaceOk, EnsureTable, Pool.Enough, Locate, Open;
    PreparedOk(pool, s, root, op);
    var p := Prepared(pool, s, root, op);
    SpaceIsForest(pool, p);
    LeafWriteKeepsTables(p.mem, p.own, LeafTable(p, root, op.page), P1Index(op.page), Word(op), any, path);
    if op.MapOp? {
      MapTablesLocates(pool, s, root, op.page, any, path);
    }
  }

  lemma FlagsWithPresent(flags: nat)
    requires IsFlags(flags)
    ensures IsFlags(Or(PRESENT, flags)) && Present(Or(PRESENT, flags))
  {
    OrOneSetsLowBit(flags);
    MaskIsField(flags);
    MaskIsField(Or(PRESENT, flags));
  }

  lemma OrOneSetsLowBit(x: nat)
    ensures Or(1, x) == if x % 2 == 1 then x else x + 1
  {
    if x != 0 {
      assert Or(1, x) == 2 * Or(0, x / 2) + 1;
    }
  }

  /** The word a mapping stores, and the zero an unmapping does. */
  lemma WordIs(op: Op)
    requires OpOk(op)
    ensures Word(op) == if !op.MapOp? then 0
                        else op.frame * 4096 + (if op.flags % 2 == 1 then op.flags else op.flags + 1)
  {
    if op.MapOp? {
      FlagsWithPresent(op.flags);
      OrOneSetsLowBit(op.flags);
      EncodeIsSum(op.frame, Or(PRESENT, op.flags));
    }
  }

  /** With the page's tables in place an operation changes one word: the page's level-1 entry. */
  lemma ApplyWritesLeaf(pool: Pool, s: Space, root: nat, op: Op)
    requires CanApply(pool, s, root, op) && Missing(s.mem, root, op.page) == 0
    ensures Locate(s.mem, root, LeafPath(op.page)).Some?
    ensures var t, w := Locate(s.mem, root, LeafPath(op.page)).value,
                        if op.UnmapOp? then 0
                        else op.frame * 4096 + (if op.flags % 2 == 1 then op.flags else op.flags + 1);
      Apply(pool, s, root, op).mem == s.mem[Slot(t, op.page % 512) := w]
  {
    WordIs(op);
    MapTablesIsIdentity(pool, s, root, op.page);
    LocatedIfOwned(s.mem, s.own, root, LeafPath(op.page));
  }

  /** What one operation makes of its page. */
  function Outcome(op: Op): Option<Mapping> {
    if op.MapOp? then Some(Mapping(op.frame, Word(op))) else None
  }

  /** An operation is an exact point update: its page translates as asked, and every other
      canonical page outside the recursive slot, in every hierarchy, keeps its translation. */
  lemma ApplyIsPointUpdate(pool: Pool, s: Space, root: nat, op: Op, any: nat, q: nat)
    requires CanApply(pool, s, root, op) && CanPay(pool, s, root, op)
    requires IsRoot(s.own, any) && Canonical(q) && P4Index(q) != RECURSIVE
    ensures Walk(Apply(pool, s, root, op).mem, any, q)
         == if any == root && q == op.page then Outcome(op) else Walk(s.mem, any, q)
  {
    PreparedOk(pool, s, root, op);
    var p := Prepared(pool, s, root, op);
    if any == root && q == op.page {
      if op.MapOp? {
        FlagsWithPresent(op.flags);
        EncodeDecodes(op.frame, Or(PRESENT, op.flags));
      }
      LeafWriteSets(p, root, q, Word(op));
    } else {
      LeafWriteElsewhere(p, root, op.page, Word(op), any, q);
      if op.MapOp? {
        MapTablesKeepsWalks(pool, s, root, op.page, any, q);
      }
    }
  }

  lemma MappedCanBeUnmapped(pool: Pool, s: Space, root: nat, page: nat, frame: nat, flags: nat, any: nat)
    requires CanApply(pool, s, root, MapOp(page, frame, flags)) && CanPayFor(pool, s, root, page) && IsRoot(s.own, any)
    ensures var s' := Apply(pool, s, root, MapOp(page, frame, flags));
      CanApply(pool, s', root, UnmapOp(page)) && IsRoot(s'.own, any)
  {
    hide SpaceOk, Apply, Open, Locate, Pool.Enough, Missing;
    ApplyOk(pool, s, root, MapOp(page, frame, flags));
    ApplyLocates(pool, s, root, MapOp(page, frame, flags), root, LeafPath(page));
    ApplyKeepsOpen(pool, s, root, MapOp(page, frame, flags), page);
  }

  /** Mapping a page that was not mapped and unmapping it again restores every translation,
      although the tables created on the way stay. */
  lemma MapThenUnmap(pool: Pool, s: Space, root: nat, page: nat, frame: nat, flags: nat, any: nat, q: nat)
    requires CanApply(pool, s, root, MapOp(page, frame, flags)) && CanPayFor(pool, s, root, page)
    requires Walk(s.mem, root, page).None?
    requires IsRoot(s.own, any) && Canonical(q) && P4Index(q) != RECURSIVE
    ensures Walk(UnmapAt(MapAt(pool, s, root, page, frame, flags), root, page).mem, any, q) == Walk(s.mem, any, q)
  {
    hide CanApply, MapAt, UnmapAt, Pool.Enough, Walk, Missing;
    var mapOp, unmapOp := MapOp(page, frame, flags), UnmapOp(page);
    MappedCanBeUnmapped(pool, s, root, page, frame, flags, any);
    ApplyIsPointUpdate(pool, s, root, mapOp, any, q);
    ApplyIsPointUpdate(pool, Apply(pool, s, root, mapOp), root, unmapOp, any, q);
  }

  /** No operation brings a huge entry over a page. */
  lemma ApplyKeepsOpen(pool: Pool, s: Space, root: nat, op: Op, page: nat)
    requires CanApply(pool, s, root, op) && CanPay(pool, s, root, op)
    requires P4Index(page) != RECURSIVE && Open(s.mem, root, page)
    ensures Open(Apply(pool, s, root, op).mem, root, page)
  {
    PreparedOk(pool, s, root, op);
    var p := Prepared(pool, s, root, op);
    if op.MapOp? {
      MapTablesKeepsOpen(pool, s, root, op.page, page);
    }
    var t := LeafTable(p, root, op.page);
    var path := P2(P4Index(page), P3Index(page));
    LeafWriteKeepsTables(p.mem, p.own, t, P1Index(op.page), Word(op), root, path);
    LocatedIfOwned(p.mem, p.own, root, path);
  }

  lemma EnsureTableKeepsOpen(pool: Pool, s: Space, t: nat, i: nat, tag: Label, root: nat, page: nat)
    requires CanEnsure(pool, s, t, i, tag) && IsRoot(s.own, root)
    requires P4Index(page) != RECURSIVE && Open(s.mem, root, page)
    ensures Open(EnsureTable(pool, s, t, i, tag).mem, root, page)
  {
    if !Present(Read(s.mem, t, i)) {
      var c, m' := pool.NextFree(s.next), EnsureTable(pool, s, t, i, tag).mem;
      var a, b := P4Index(page), P3Index(page);
      TableFlags();
      EncodeDecodes(c, 3);
      NewFrameIsNoTable(pool, s);
      WriteKeepsClear(s.mem, t, i, Encode(c, 3), c);
      assert !Present(Read(m', c, b)) && !Present(Read(m', c, P2Index(page)));
      assert EntryOk(s.mem, s.own, root, a);
      assert LabelOk(s.mem, s.own, t);
    }
  }

  lemma MapTablesKeepsOpen(pool: Pool, s: Space, root: nat, page: nat, q: nat)
    requires CanMap(pool, s, root, page) && CanPayFor(pool, s, root, page)
    requires P4Index(q) != RECURSIVE && Open(s.mem, root, q)
    ensures Open(MapTables(pool, s, root, page).mem, root, q)
  {
    hide SpaceOk, EnsureTable, Pool.Enough, CanEnsure, Open;
    var a, b, c := P4Index(page), P3Index(page), P2Index(page);
    var s1, s2 := MapP3(pool, s, root, page), MapP2(pool, s, root, page);
    MapP2Ok(pool, s, root, page);
    MapTablesOk(pool, s, root, page);
    EnsureTableOk(pool, s, root, a, Label(root, P3(a)));
    EnsureTableKeepsOpen(pool, s, root, a, Label(root, P3(a)), root, q);
    EnsureTableKeepsOpen(pool, s1, TableP3(s1, root, page), b, Label(root, P2(a, b)), root, q);
    EnsureTableKeepsOpen(pool, s2, TableP2(s2, root, page), c, Label(root, LeafPath(page)), root, q);
  }
}
