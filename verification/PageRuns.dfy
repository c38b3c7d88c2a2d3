/** Whole runs of map and unmap operations: the page tables refine a flat map from pages to
    frames, stay a forest of distinct tables throughout, and take exactly one frame for every
    missing table that the run comes by. */
module PageRuns {
  import opened FrameAllocator
  import opened Mmu
  import opened PageTables

  function Run(pool: Pool, s: Space, root: nat, ops: seq<Op>): Space {
    if ops == [] then s
    else Apply(pool, Run(pool, s, root, ops[..|ops| - 1]), root, ops[|ops| - 1])
  }

  /** The flat page map: the last operation on a page decides. */
  function Flat(ops: seq<Op>, page: nat, before: Option<Mapping>): Option<Mapping> {
    if ops == [] then before
    else if ops[|ops| - 1].page == page then Outcome(ops[|ops| - 1])
    else Flat(ops[..|ops| - 1], page, before)
  }

  /** The tables on the way to the pages that a run maps. */
  function Touched(ops: seq<Op>): set<Path> {
    if ops == [] then {}
    else
      var op := ops[|ops| - 1];
      Touched(ops[..|ops| - 1]) + if op.MapOp? then TablePaths(op.page) else {}
  }

  /** Those of some tables that are missing. */
  function Absent(m: Memory, root: nat, paths: set<Path>): set<Path> {
    set p | p in paths && Locate(m, root, p).None?
  }

  /** Legal runs, judged from the initial space: pages are canonical and not covered by a huge
      entry, and a page is unmapped only if its level-1 table was there or has been created. */
  ghost predicate Legal(s: Space, root: nat, ops: seq<Op>) {
    ops == [] ||
    var op, before := ops[|ops| - 1], ops[..|ops| - 1];
    && Legal(s, root, before)
    && OpOk(op) && Open(s.mem, root, op.page)
    && (op.UnmapOp? ==> HasTable(s.mem, root, op.page) || LeafPath(op.page) in Touched(before))
  }

  /** A legal run, and a frame for every missing table it comes by: one, however often it does. */
  ghost predicate CanRun(pool: Pool, s: Space, root: nat, ops: seq<Op>) {
    && SpaceOk(pool, s) && IsRoot(s.own, root) && Legal(s, root, ops)
    && pool.Enough(s.next, |Absent(s.mem, root, Touched(ops))|)
  }

  // ---------------------------------------------------------------- counting

  lemma AddTable(m: Memory, root: nat, paths: set<Path>, p: Path)
    ensures |Absent(m, root, paths + {p})|
         == |Absent(m, root, paths)| + if Locate(m, root, p).Some? || p in paths then 0 else 1
  {
    if Locate(m, root, p).Some? || p in paths {
      assert Absent(m, root, paths + {p}) == Absent(m, root, paths);
    } else {
      assert Absent(m, root, paths + {p}) == Absent(m, root, paths) + {p};
    }
  }

  /** With the tables at some paths created, a page still lacks those that were missing before
      and are not among them. */
  lemma AddPage(m0: Memory, m: Memory, root: nat, paths: set<Path>, page: nat)
    requires forall p :: p in TablePaths(page) ==>
               (Locate(m, root, p).Some? <==> Locate(m0, root, p).Some? || p in paths)
    ensures |Absent(m0, root, paths + TablePaths(page))| == |Absent(m0, root, paths)| + Missing(m, root, page)
  {
    hide Locate;
    var p3, p2, p1 := P3(P4Index(page)), P2(P4Index(page), P3Index(page)), LeafPath(page);
    AddTable(m0, root, paths, p3);
    AddTable(m0, root, paths + {p3}, p2);
    AddTable(m0, root, paths + {p3} + {p2}, p1);
    assert paths + {p3} + {p2} + {p1} == paths + TablePaths(page);
  }

  lemma PagePathsInTree(page: nat)
    requires P4Index(page) != RECURSIVE
    ensures forall p :: p in TablePaths(page) ==> InTree(p)
  {
  }

  /** The demand of a run is that of the run before its last operation, and what this spends. */
  lemma DemandGrows(pool: Pool, s: Space, root: nat, ops: seq<Op>)
    requires ops != [] && CanRun(pool, s, root, ops) && CanRun(pool, s, root, ops[..|ops| - 1])
    ensures |Absent(s.mem, root, Touched(ops))| == |Absent(s.mem, root, Touched(ops[..|ops| - 1]))|
                                                 + Spends(Run(pool, s, root, ops[..|ops| - 1]), root, ops[|ops| - 1])
    decreases |ops|, 0
  {
    hide SpaceOk, Apply, Open, HasTable, Run, Absent, Missing, Locate, Pool.Enough;
    var before, op := ops[..|ops| - 1], ops[|ops| - 1];
    if op.MapOp? {
      PagePathsInTree(op.page);
      var m := Run(pool, s, root, before).mem;
      forall p | p in TablePaths(op.page)
        ensures Locate(m, root, p).Some? <==> Locate(s.mem, root, p).Some? || p in Touched(before)
      {
        RunLocates(pool, s, root, before, root, p);
      }
      AddPage(s.mem, m, root, Touched(before), op.page);
    } else {
      assert Touched(ops) == Touched(before);
    }
  }

  lemma FewerTables(m: Memory, root: nat, paths: set<Path>, more: set<Path>)
    requires paths <= more
    ensures |Absent(m, root, paths)| <= |Absent(m, root, more)|
  {
    var a, b := Absent(m, root, paths), Absent(m, root, more);
    assert b == a + (b - a);
  }

  /** A legal run may be cut short. */
  lemma CanRunBefore(pool: Pool, s: Space, root: nat, ops: seq<Op>)
    requires ops != [] && CanRun(pool, s, root, ops)
    ensures CanRun(pool, s, root, ops[..|ops| - 1])
  {
    var before := ops[..|ops| - 1];
    FewerTables(s.mem, root, Touched(before), Touched(ops));
    EnoughForFewer(pool, s.next, |Absent(s.mem, root, Touched(ops))|, |Absent(s.mem, root, Touched(before))|);
  }

  lemma {:induction false} CanRunPrefix(pool: Pool, s: Space, root: nat, ops: seq<Op>, n: nat)
    requires CanRun(pool, s, root, ops) && n <= |ops|
    ensures CanRun(pool, s, root, ops[..n])
  {
    hide CanRun;
    if n < |ops| {
      var before := ops[..|ops| - 1];
      CanRunBefore(pool, s, root, ops);
      CanRunPrefix(pool, s, root, before, n);
      assert before[..n] == ops[..n];
    } else {
      assert ops[..n] == ops;
    }
  }

  // -------------------------------------------------------------------- runs

  /** A legal run keeps the forest and all labels, and takes a frame for each missing table it
      comes by, no more and no less. */
  lemma {:induction false} RunOk(pool: Pool, s: Space, root: nat, ops: seq<Op>)
    requires CanRun(pool, s, root, ops)
    ensures var s' := Run(pool, s, root, ops);
      && SpaceOk(pool, s') && IsRoot(s'.own, root) && Extends(s.own, s'.own)
      && s'.next == pool.Advance(s.next, |Absent(s.mem, root, Touched(ops))|)
    decreases |ops|, 2
  {
    hide SpaceOk, Apply, Open, Legal, Absent, Touched, CanApply, CanPay;
    if ops == [] {
      NoDemand(s.mem, root);
    } else {
      var before, op := ops[..|ops| - 1], ops[|ops| - 1];
      CanRunBefore(pool, s, root, ops);
      RunOk(pool, s, root, before);
      RunCanApply(pool, s, root, ops);
      DemandGrows(pool, s, root, ops);
      EnoughSplits(pool, s.next, |Absent(s.mem, root, Touched(before))|, Spends(Run(pool, s, root, before), root, op));
      ApplyOk(pool, Run(pool, s, root, before), root, op);
    }
  }

  lemma NoDemand(m: Memory, root: nat)
    ensures Absent(m, root, Touched([])) == {}
  {
  }

  /** Each operation of a legal run is applicable, and paid for, when its turn comes. */
  lemma {:induction false} RunCanApply(pool: Pool, s: Space, root: nat, ops: seq<Op>)
    requires ops != [] && CanRun(pool, s, root, ops)
    ensures var s' := Run(pool, s, root, ops[..|ops| - 1]);
      CanApply(pool, s', root, ops[|ops| - 1]) && CanPay(pool, s', root, ops[|ops| - 1])
    decreases |ops|, 1
  {
    hide SpaceOk, Apply, Open, Absent, Touched, Locate, Run, Pool.Enough, Spends;
    var before, op := ops[..|ops| - 1], ops[|ops| - 1];
    CanRunBefore(pool, s, root, ops);
    RunOk(pool, s, root, before);
    RunKeepsOpen(pool, s, root, before, op.page);
    RunLocates(pool, s, root, before, root, LeafPath(op.page));
    DemandGrows(pool, s, root, ops);
    EnoughSplits(pool, s.next, |Absent(s.mem, root, Touched(before))|, Spends(Run(pool, s, root, before), root, op));
  }

  /** The tables there are after a run: those there were, and those on the way to its pages. */
  lemma {:induction false} RunLocates(pool: Pool, s: Space, root: nat, ops: seq<Op>, any: nat, path: Path)
    requires CanRun(pool, s, root, ops) && IsRoot(s.own, any) && InTree(path)
    ensures Locate(Run(pool, s, root, ops).mem, any, path).Some?
       <==> Locate(s.mem, any, path).Some? || (any == root && path in Touched(ops))
    decreases |ops|, 3
  {
    hide SpaceOk, Apply, Open, Absent, Locate, CanRun, CanApply, CanPay, TablePaths;
    if ops != [] {
      var before, op := ops[..|ops| - 1], ops[|ops| - 1];
      CanRunBefore(pool, s, root, ops);
      RunLocates(pool, s, root, before, any, path);
      RunOk(pool, s, root, before);
      RunCanApply(pool, s, root, ops);
      ApplyLocates(pool, Run(pool, s, root, before), root, op, any, path);
    }
  }

  /** No run brings a huge entry over a page. */
  lemma {:induction false} RunKeepsOpen(pool: Pool, s: Space, root: nat, ops: seq<Op>, page: nat)
    requires CanRun(pool, s, root, ops) && P4Index(page) != RECURSIVE && Open(s.mem, root, page)
    ensures Open(Run(pool, s, root, ops).mem, root, page)
    decreases |ops|, 3
  {
    hide SpaceOk, Apply, Open, CanRun, CanApply, CanPay;
    if ops != [] {
      var before, op := ops[..|ops| - 1], ops[|ops| - 1];
      CanRunBefore(pool, s, root, ops);
      RunKeepsOpen(pool, s, root, before, page);
      RunCanApply(pool, s, root, ops);
      ApplyKeepsOpen(pool, Run(pool, s, root, before), root, op, page);
    }
  }

  /** The refinement theorem: after any legal run, in any order and with any repetitions, the
      processor translates every canonical page outside the recursive slot as the flat page
      map says, and every other hierarchy translates as before. */
  lemma {:induction false} RunRefinesFlat(pool: Pool, s: Space, root: nat, ops: seq<Op>, any: nat, q: nat)
    requires CanRun(pool, s, root, ops)
    requires IsRoot(s.own, any) && Canonical(q) && P4Index(q) != RECURSIVE
    ensures Walk(Run(pool, s, root, ops).mem, any, q)
         == if any == root then Flat(ops, q, Walk(s.mem, root, q)) else Walk(s.mem, any, q)
  {
    hide SpaceOk, Apply, Walk, Outcome, CanRun, CanApply, CanPay;
    if ops != [] {
      var before, op := ops[..|ops| - 1], ops[|ops| - 1];
      CanRunBefore(pool, s, root, ops);
      RunRefinesFlat(pool, s, root, before, any, q);
      RunOk(pool, s, root, before);
      RunCanApply(pool, s, root, ops);
      ApplyIsPointUpdate(pool, Run(pool, s, root, before), root, op, any, q);
    }
  }

  /** After any legal run every table has at most one parent entry outside the recursive slot. */
  lemma RunKeepsTree(pool: Pool, s: Space, root: nat, ops: seq<Op>, f: nat, i: nat, g: nat, j: nat, c: nat)
    requires CanRun(pool, s, root, ops)
    requires IsParent(Run(pool, s, root, ops), f, i, c) && IsParent(Run(pool, s, root, ops), g, j, c)
    ensures f == g && i == j
  {
    RunOk(pool, s, root, ops);
    ParentIsUnique(Run(pool, s, root, ops), f, i, g, j, c);
  }

  /** However long a run is, if its pages lie under one level-1 table it takes at most three frames. */
  lemma LongRunsMayBeCheap(m: Memory, root: nat, ops: seq<Op>, page: nat)
    requires forall k :: 0 <= k < |ops| ==> LeafPath(ops[k].page) == LeafPath(page)
    ensures |Absent(m, root, Touched(ops))| <= Missing(m, root, page) <= 3
  {
    TouchedUnder(ops, page);
    FewerTables(m, root, Touched(ops), TablePaths(page));
    AddPage(m, m, root, {}, page);
    assert {} + TablePaths(page) == TablePaths(page);
    assert Absent(m, root, {}) == {};
  }

  lemma {:induction false} TouchedUnder(ops: seq<Op>, page: nat)
    requires forall k :: 0 <= k < |ops| ==> LeafPath(ops[k].page) == LeafPath(page)
    ensures Touched(ops) <= TablePaths(page)
  {
    if ops != [] {
      TouchedUnder(ops[..|ops| - 1], page);
    }
  }
}
