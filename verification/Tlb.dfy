/** The translation cache: it may hold any translation that was valid since the last flush. Which
    writes to page tables keep it in agreement with the walk, and which pages they make stale. */
module Tlb {
  import opened Bits
  import opened FrameAllocator
  import opened Mmu
  import opened PageTables

  type Cache = map<nat, Mapping>

  /** Every cached translation of a page that is not stale is the current one. */
  ghost predicate Coherent(m: Memory, root: nat, tlb: Cache, stale: set<nat>) {
    forall p :: p in tlb ==> Canonical(p) && (p in stale || Walk(m, root, p) == Some(tlb[p]))
  }

  /** What the processor may do to the cache at any moment: drop entries, and enter any
      translation that a walk yields now. */
  predicate MayBecome(m: Memory, root: nat, tlb: Cache, tlb': Cache) {
    forall p | p in tlb' :: (p in tlb && tlb'[p] == tlb[p]) || (Canonical(p) && Walk(m, root, p) == Some(tlb'[p]))
  }

  lemma MayBecomeKeepsCoherent(m: Memory, root: nat, tlb: Cache, tlb': Cache, stale: set<nat>)
    requires Coherent(m, root, tlb, stale) && MayBecome(m, root, tlb, tlb')
    ensures Coherent(m, root, tlb', stale)
  {
  }

  /** Filling an entry that was not present needs no flush. */
  lemma FillKeepsCoherent(m: Memory, t: nat, i: nat, w: nat, root: nat, tlb: Cache, stale: set<nat>)
    requires !Present(Read(m, t, i)) && Coherent(m, root, tlb, stale)
    ensures Coherent(Write(m, t, i, w), root, tlb, stale)
  {
    forall p | p in tlb && p !in stale
      ensures Walk(Write(m, t, i, w), root, p) == Some(tlb[p])
    {
      FillKeepsWalks(m, t, i, w, root, p);
    }
  }

  /** The walk of a page in the recursive slot reads tables of levels 4, 3 and 2 only. */
  lemma WindowIgnoresLeaves(m: Memory, own: map<nat, Label>, active: nat, edit: nat, t: nat, i: nat, w: nat, q: nat)
    requires Forest(m, own) && IsRoot(own, active) && IsRoot(own, edit) && Windowed(m, active, edit)
    requires t in own && own[t].path.P1? && P4Index(q) == RECURSIVE
    ensures Walk(Write(m, t, i, w), active, q) == Walk(m, active, q)
  {
    var b, c := P3Index(q), P2Index(q);
    assert EntryOk(m, own, edit, b) && EntryOk(m, own, edit, c);
    if b != RECURSIVE {
      var e := Read(m, edit, b);
      if Present(e) && !Huge(e) {
        assert EntryOk(m, own, FrameOf(e), c);
      }
    }
  }

  /** Writing a level-1 entry makes at most its own page stale, and no page at all when the
      hierarchy written is not the active one. */
  lemma LeafWriteKeepsCoherent(s: Space, active: nat, edit: nat, page: nat, w: nat, tlb: Cache)
    requires Forest(s.mem, s.own) && IsRoot(s.own, active) && IsRoot(s.own, edit) && Windowed(s.mem, active, edit)
    requires Labelled(s, LeafTable(s, edit, page), Label(edit, LeafPath(page))) && Canonical(page)
    requires Coherent(s.mem, active, tlb, {})
    ensures Coherent(Write(s.mem, LeafTable(s, edit, page), P1Index(page), w), active, tlb,
                     if active == edit then {page} else {})
  {
    forall q | q in tlb && (active == edit ==> q != page)
      ensures Walk(Write(s.mem, LeafTable(s, edit, page), P1Index(page), w), active, q) == Walk(s.mem, active, q)
    {
      if P4Index(q) == RECURSIVE {
        WindowIgnoresLeaves(s.mem, s.own, active, edit, LeafTable(s, edit, page), P1Index(page), w, q);
      } else {
        LeafWriteElsewhere(s, edit, page, w, active, q);
      }
    }
  }

  lemma NothingCached(m: Memory, root: nat)
    ensures Coherent(m, root, map[], {})
  {
  }

  /** The invariant of the machine: a well-formed space, an active hierarchy, the hierarchy
      its recursive slot leads to, and a cache in agreement with the walk. */
  ghost predicate Ok(pool: Pool, s: Space, active: nat, edit: nat, tlb: Cache) {
    && SpaceOk(pool, s) && IsRoot(s.own, active) && IsRoot(s.own, edit)
    && Windowed(s.mem, active, edit) && Coherent(s.mem, active, tlb, {})
  }

  /** Moving the bump pointer on makes no table of any frame. */
  lemma SkippingKeepsOk(pool: Pool, s: Space, active: nat, edit: nat, tlb: Cache, next: nat)
    requires Ok(pool, s, active, edit, tlb) && s.next <= next
    ensures Ok(pool, s.(next := next), active, edit, tlb)
  {
  }

  lemma FlushKeepsOk(pool: Pool, s: Space, active: nat, edit: nat, tlb: Cache)
    requires Ok(pool, s, active, edit, tlb)
    ensures Ok(pool, s, active, edit, map[])
  {
  }

  lemma EnsureTableKeepsOk(pool: Pool, s: Space, active: nat, edit: nat, tlb: Cache, t: nat, i: nat, tag: Label)
    requires Ok(pool, s, active, edit, tlb) && CanEnsure(pool, s, t, i, tag)
    ensures Ok(pool, EnsureTable(pool, s, t, i, tag), active, edit, tlb)
  {
    EnsureTableOk(pool, s, t, i, tag);
    if !Present(Read(s.mem, t, i)) {
      FillKeepsCoherent(s.mem, t, i, Encode(pool.NextFree(s.next), Or(PRESENT, WRITEABLE)), active, tlb, {});
    }
  }

  /** Writing a level-1 entry keeps the invariant but for its own page's cached translation. */
  lemma LeafWriteKeepsOk(pool: Pool, s: Space, active: nat, edit: nat, tlb: Cache, page: nat, w: nat)
    requires Ok(pool, s, active, edit, tlb) && Canonical(page)
    requires Labelled(s, LeafTable(s, edit, page), Label(edit, LeafPath(page)))
    ensures var s' := s.(mem := Write(s.mem, LeafTable(s, edit, page), P1Index(page), w));
      && SpaceOk(pool, s') && Windowed(s'.mem, active, edit)
      && Coherent(s'.mem, active, tlb, if active == edit then {page} else {})
      && Locate(s'.mem, edit, LeafPath(page)) == Some(LeafTable(s, edit, page))
  {
    var t := LeafTable(s, edit, page);
    LeafWriteOk(pool, s, t, P1Index(page), w);
    LeafWriteKeepsCoherent(s, active, edit, page, w, tlb);
    assert LabelOk(s.mem, s.own, t);
    LeafWriteKeepsTables(s.mem, s.own, t, P1Index(page), w, edit, LeafPath(page));
  }

  /** A page with no translation has no present level-1 entry. */
  lemma UnmappedLeaf(s: Space, root: nat, page: nat)
    requires Forest(s.mem, s.own) && Labelled(s, LeafTable(s, root, page), Label(root, LeafPath(page)))
    requires Walk(s.mem, root, page).None?
    ensures !Present(Read(s.mem, LeafTable(s, root, page), P1Index(page)))
  {
    assert LabelOk(s.mem, s.own, LeafTable(s, root, page));
  }

  /** Mapping an unused page, or any page of a hierarchy that is not active, needs no flush. */
  lemma MapLeafKeepsOk(pool: Pool, s: Space, active: nat, edit: nat, tlb: Cache, page: nat, w: nat)
    requires Ok(pool, s, active, edit, tlb) && Canonical(page)
    requires Labelled(s, LeafTable(s, edit, page), Label(edit, LeafPath(page)))
    requires active == edit ==> Walk(s.mem, active, page).None?
    ensures Ok(pool, s.(mem := Write(s.mem, LeafTable(s, edit, page), P1Index(page), w)), active, edit, tlb)
  {
    LeafWriteKeepsOk(pool, s, active, edit, tlb, page, w);
    if active == edit {
      UnmappedLeaf(s, edit, page);
      FillKeepsCoherent(s.mem, LeafTable(s, edit, page), P1Index(page), w, active, tlb, {});
    }
  }
}
