/**
 x86ValidateVirtualAddress as written.  Its last table pointer is taken from the PDP at the
 level-1 index (paging.c:138) where the PD was meant, so it does not report whether a page is
 mapped.  This module says what it does report, and exactly when the two agree.
 */
module Validation {
  import opened Words
  import opened PageTables
  import opened PageTableProofs
  import opened TableUse

  /** The value x86ValidateVirtualAddress stores through Result. */
  function ReportsInUse(m: Memory, root: nat, p: Page): bool
    requires p.Valid()
  {
    var e4 := Get(m, root, p.i3);
    e4.present && (
      var pdp := e4.frame;
      var e3 := Get(m, pdp, p.i2);
      e3.present && (
        var pd := e3.frame;
        Get(m, pd, p.i1).present && (
          var pt := Get(m, pdp, p.i1).frame;
          Get(m, pt, p.i0).present)))
  }

  /** Whether the last-level table of the 2 MiB region with these indexes exists. */
  ghost predicate HasTable(m: Memory, root: nat, i3: nat, i2: nat, i1: nat)
    requires i3 < 512 && i2 < 512 && i1 < 512
  {
    TableAt(m, root, [i3, i2, i1]).Some?
  }

  /**
   What the misread entry stands for: when the PDP entry at the level-1 index leads to a PD, the
   code asks whether that PD has a table at the level-0 index; when it is free, the code reads
   the word of physical frame 0 there.
   */
  ghost predicate Misread(m: Memory, root: nat, p: Page)
    requires p.Valid()
  {
    if TableAt(m, root, [p.i3, p.i1]).Some? then HasTable(m, root, p.i3, p.i1, p.i0)
    else Get(m, 0, p.i0).present
  }

  lemma TableSteps(m: Memory, root: nat, i3: nat, i2: nat, i1: nat)
    requires i3 < 512 && i2 < 512 && i1 < 512
    ensures var e4 := Get(m, root, i3);
            && TableAt(m, root, [i3, i2]) ==
               (if e4.present && Get(m, e4.frame, i2).present then Some(Get(m, e4.frame, i2).frame) else None)
            && TableAt(m, root, [i3, i2, i1]) ==
               (if TableAt(m, root, [i3, i2]).Some? && Get(m, TableAt(m, root, [i3, i2]).value, i1).present
                then Some(Get(m, TableAt(m, root, [i3, i2]).value, i1).frame) else None)
  {
    assert [i3] + [i2] == [i3, i2] && [i3, i2] + [i1] == [i3, i2, i1];
    TableAtAppend(m, root, [i3], [i2]);
    TableAtAppend(m, root, [i3, i2], [i1]);
    assert TableAt(m, root, [i3]) == if Get(m, root, i3).present then Some(Get(m, root, i3).frame) else None;
    assert forall t: nat :: TableAt(m, t, [i2]) == if Get(m, t, i2).present then Some(Get(m, t, i2).frame) else None;
    assert forall t: nat :: TableAt(m, t, [i1]) == if Get(m, t, i1).present then Some(Get(m, t, i1).frame) else None;
  }

  /** What x86ValidateVirtualAddress reports on well-formed tables. */
  lemma ValidateReports(m: Memory, pool: seq<u64>, root: nat, p: Page)
    requires WellFormed(m, pool, root) && p.Valid()
    ensures ReportsInUse(m, root, p) <==> HasTable(m, root, p.i3, p.i2, p.i1) && Misread(m, root, p)
  {
    var owner :| TreeOK(m, root, owner) && PoolOK(pool, owner);
    TableSteps(m, root, p.i3, p.i2, p.i1);
    TableSteps(m, root, p.i3, p.i1, p.i0);
    assert TableOK(m, owner, root) && EntryOK(m[root][p.i3], owner, [], p.i3);
    var e4 := m[root][p.i3];
    if e4.present {
      assert TableOK(m, owner, e4.frame) && EntryOK(m[e4.frame][p.i1], owner, owner[e4.frame], p.i1);
    }
  }

  /**
   What it reports in terms of the mapped pages `v`: a page is in use when its own 2 MiB region
   holds a mapped page and so does the region its lower indexes name one level up; where not even
   the 1 GiB region of those indexes holds one, the entry of physical frame 0 decides.
   */
  ghost predicate ReportedFor(v: imap<Page, Entry>, zero: Entry, p: Page) {
    && RegionMapped(v, p.i3, p.i2, p.i1)
    && (RegionMapped(v, p.i3, p.i1, p.i0) || (!BranchMapped(v, p.i3, p.i1) && zero.present))
  }

  lemma ReportsForView(m: Memory, pool: seq<u64>, root: nat, p: Page)
    requires WellFormed(m, pool, root) && NoEmptyTable(m, root) && p.Valid()
    ensures ReportsInUse(m, root, p) <==> ReportedFor(View(m, root), Get(m, 0, p.i0), p)
  {
    ValidateReports(m, pool, root, p);
    RegionHasTable(m, root, p.i3, p.i2, p.i1);
    RegionHasTable(m, root, p.i3, p.i1, p.i0);
    BranchHasTable(m, root, p.i3, p.i1);
    TableSteps(m, root, p.i3, p.i1, p.i0);
  }

  /**
   The documented meaning: true exactly for the pages that are mapped, which are the pages
   x86MapAddress refuses.  A mapped page is missed exactly when the region (i3, i1, i0) holds no
   mapped page, and a free page is reported exactly when that region and the page's own both hold
   one; frame 0 matters only where the 1 GiB region (i3, i1) is unmapped.
   */
  lemma ValidateDocumented(m: Memory, pool: seq<u64>, root: nat, f: u64, h: u64, p: Page)
    requires WellFormed(m, pool, root) && NoEmptyTable(m, root) && |pool| >= 3 && p.Valid()
    ensures p in View(m, root) <==> MapPage(m, pool, root, f, h, p).status == MemoryPageFailure
    ensures var v := View(m, root);
            p in v ==>
              (!ReportsInUse(m, root, p) <==>
               !RegionMapped(v, p.i3, p.i1, p.i0) && (BranchMapped(v, p.i3, p.i1) || !Get(m, 0, p.i0).present))
    ensures var v := View(m, root);
            p !in v ==>
              (ReportsInUse(m, root, p) <==>
               RegionMapped(v, p.i3, p.i2, p.i1) &&
               (RegionMapped(v, p.i3, p.i1, p.i0) || (!BranchMapped(v, p.i3, p.i1) && Get(m, 0, p.i0).present)))
  {
    MapRefines(m, pool, root, f, h, p);
    ReportsForView(m, pool, root, p);
    if p in View(m, root) {
      assert p == Page(p.i3, p.i2, p.i1, p.i0);
    }
  }

  /** In every state reached from an empty PML4 the operations alone, and frame 0, decide the report. */
  lemma ReachableReports(m: Memory, pool: seq<u64>, root: nat, ops: seq<Op>, p: Page)
    requires root in m && m[root] == ZeroTable() && PoolOK(pool, map[root := []])
    requires |pool| >= 3 * |ops| && p.Valid()
    ensures var m' := Run(m, pool, root, ops).0;
            ReportsInUse(m', root, p) <==> ReportedFor(AbstractRun(imap[], ops), Get(m', 0, p.i0), p)
  {
    EmptyWellFormed(m, pool, root);
    EmptyUse(m, root);
    RunRefines(m, pool, root, ops);
    RunKeepsUse(m, pool, root, ops);
    var (m', pool') := Run(m, pool, root, ops);
    ReportsForView(m', pool', root, p);
  }

  /** The check as meant: the last table is taken from the PD. */
  function MeantInUse(m: Memory, root: nat, p: Page): bool
    requires p.Valid()
  {
    var e4 := Get(m, root, p.i3);
    e4.present && (
      var e3 := Get(m, e4.frame, p.i2);
      e3.present && (
        var e2 := Get(m, e3.frame, p.i1);
        e2.present && Get(m, e2.frame, p.i0).present))
  }

  lemma MeantIsView(m: Memory, root: nat, p: Page)
    requires p.Valid()
    ensures MeantInUse(m, root, p) <==> p in View(m, root)
  {
    TableSteps(m, root, p.i3, p.i2, p.i1);
  }

  lemma DescendFree(m: Memory, pool: seq<u64>, t: nat, i: nat)
    requires t in m && i < 512 && m[t][i] == ZERO && |pool| > 0 && pool[0] != t
    ensures Descend(m, pool, t, i) ==
            (m[pool[0] := ZeroTable()][t := m[t][i := Mapping(pool[0], 0)]], pool[1..], pool[0])
  {
    LinkZero(pool[0], 0);
  }

  lemma MapIntoEmpty(root: nat, pool: seq<u64>, f: u64)
    requires |pool| >= 3 && PoolOK(pool, map[root := []])
    ensures var m := MapPage(map[root := ZeroTable()], pool, root, f, 0, Page(0, 0, 0, 1)).mem;
            && Get(m, root, 0) == Mapping(pool[0], 0)
            && Get(m, pool[0], 0) == Mapping(pool[1], 0)
            && Get(m, pool[1], 1) == ZERO
  {
    var m0: Memory := map[root := ZeroTable()];
    var a, b, c := pool[0], pool[1], pool[2];
    DescendFree(m0, pool, root, 0);
    var m1 := Descend(m0, pool, root, 0).0;
    DescendFree(m1, pool[1..], a, 0);
    var m2 := Descend(m1, pool[1..], a, 0).0;
    DescendFree(m2, pool[1..][1..], b, 0);
    var m3 := Descend(m2, pool[1..][1..], b, 0).0;
    ThreeDescents(m0, pool, root, 0, 0, 0);
    assert m3[root][0] == Mapping(a, 0) && m3[a][0] == Mapping(b, 0) && m3[b][1] == ZERO && m3[c][1] == ZERO;
  }

  /** A page mapped into an empty PML4 at address 0x1000 is reported as free. */
  lemma ValidateMissesMappedPage(root: nat, pool: seq<u64>, f: u64)
    requires |pool| >= 3 && PoolOK(pool, map[root := []])
    ensures var m := MapPage(map[root := ZeroTable()], pool, root, f, 0, Page(0, 0, 0, 1)).mem;
            Page(0, 0, 0, 1) in View(m, root) && !ReportsInUse(m, root, Page(0, 0, 0, 1))
  {
    EmptyWellFormed(map[root := ZeroTable()], pool, root);
    MapRefines(map[root := ZeroTable()], pool, root, f, 0, Page(0, 0, 0, 1));
    MapIntoEmpty(root, pool, f);
  }

  ghost function TwoRegions(physical: u64): seq<Op> { [Map(physical, 0x20_2000), Map(physical, 0x4020_0000)] }

  lemma AbstractTwoRegions(physical: u64, zero: Entry)
    ensures var v := AbstractRun(imap[], TwoRegions(physical));
            Page(0, 0, 1, 1) !in v && ReportedFor(v, zero, Page(0, 0, 1, 1))
  {
    var ops, e := TwoRegions(physical), Mapping(FrameOf(physical), HighOf(physical));
    var v1: imap<Page, Entry> := imap[Page(0, 0, 1, 2) := e];
    var v2 := v1[Page(0, 1, 1, 0) := e];
    assert PageOf(0x20_2000) == Page(0, 0, 1, 2) && PageOf(0x4020_0000) == Page(0, 1, 1, 0);
    assert ops[1..] == [ops[1]];
    assert AbstractStep(imap[], ops[0]) == v1 && AbstractStep(v1, ops[1]) == v2;
    assert AbstractRun(v1, [ops[1]]) == AbstractRun(v2, []);
    assert Page(0, 0, 1, 2) in v2 && Page(0, 1, 1, 0) in v2;
  }

  /** After these operations a page is not mapped and yet reported as in use. */
  ghost predicate ReportsFreePage(m: Memory, pool: seq<u64>, root: nat, ops: seq<Op>, p: Page)
    requires p.Valid()
  {
    var m' := Run(m, pool, root, ops).0;
    p !in View(m', root) && ReportsInUse(m', root, p)
  }

  /** With 0x202000 and 0x40200000 mapped, the free page (0, 0, 1, 1) at 0x201000 is reported as in use. */
  lemma ValidateReportsFreePage(m: Memory, pool: seq<u64>, root: nat, physical: u64, ops: seq<Op>)
    requires root in m && m[root] == ZeroTable() && PoolOK(pool, map[root := []]) && |pool| >= 6
    requires ops == TwoRegions(physical)
    ensures ReportsFreePage(m, pool, root, ops, Page(0, 0, 1, 1))
  {
    AbstractTwoRegions(physical, Get(Run(m, pool, root, ops).0, 0, 1));
    ReachableIsTree(m, pool, root, ops);
    ReachableReports(m, pool, root, ops, Page(0, 0, 1, 1));
  }
}
