/**
 No table is empty: whatever tables x86MapAddress and x86UnmapAddress leave reachable, each leads
 to a mapped page.  A map that fails creates no table, and an unmap drops a slot with all below it.
 */
module TableUse {
  import opened Words
  import opened PageTables
  import opened PageTableProofs

  /** Some page whose walk follows `q` is mapped. */
  ghost predicate LeadsToPage(m: Memory, root: nat, q: seq<nat>) {
    exists p: Page :: p in View(m, root) && q <= Upper(p)
  }

  /** Every table below the root, named by the path to it, leads to a mapped page. */
  ghost predicate NoEmptyTable(m: Memory, root: nat) {
    forall q: seq<nat> {:trigger LeadsToPage(m, root, q)} |
      IsPath(q) && 1 <= |q| <= 3 && TableAt(m, root, q).Some? :: LeadsToPage(m, root, q)
  }

  /** A descent makes at most the one table it returns reachable. */
  lemma DescendTables(m: Memory, pool: seq<u64>, root: nat, owner: Owner, t: nat, i: nat, q: seq<nat>)
    requires TreeOK(m, root, owner) && PoolOK(pool, owner) && |pool| > 0
    requires t in owner && |owner[t]| < 3 && i < 512
    requires IsPath(owner[t]) && TableAt(m, root, owner[t]) == Some(t)
    requires IsPath(q) && |q| <= 3 && TableAt(Descend(m, pool, t, i).0, root, q).Some?
    ensures TableAt(m, root, q).Some? || q == owner[t] + [i]
  {
    assert TableOK(m, owner, t) && EntryOK(m[t][i], owner, owner[t], i);
    if !m[t][i].present {
      var m' := Descend(m, pool, t, i).0;
      AddTable(m, pool, root, owner, t, i);
      AddTableSlots(m, pool, root, owner, t, i);
      var path := owner[t] + [i];
      if path <= q {
        var rest := q[|path|..];
        assert q == path + rest;
        TableAtAppend(m', root, path, rest);
      } else {
        assert owner[root] + q == q;
        TableAtUnchanged(m, m', root, owner, t, i, root, q);
      }
    }
  }

  /** Mapping a page makes only the tables on the way to it reachable. */
  lemma MapTables(m: Memory, pool: seq<u64>, root: nat, owner: Owner, p: Page, q: seq<nat>)
    requires TreeOK(m, root, owner) && PoolOK(pool, owner) && |pool| >= 3 && p.Valid()
    requires IsPath(q) && |q| <= 3 && TableAt(DescendPath(m, pool, root, Upper(p)).0, root, q).Some?
    ensures TableAt(m, root, q).Some? || q <= Upper(p)
  {
    ThreeDescents(m, pool, root, p.i3, p.i2, p.i1);
    assert TableAt(m, root, owner[root]) == Some(root);
    var owner1 := DescendKeeps(m, pool, root, owner, root, p.i3);
    var (m1, pool1, pdp) := Descend(m, pool, root, p.i3);
    var owner2 := DescendKeeps(m1, pool1, root, owner1, pdp, p.i2);
    var (m2, pool2, pd) := Descend(m1, pool1, pdp, p.i2);
    DescendTables(m2, pool2, root, owner2, pd, p.i1, q);
    if TableAt(m2, root, q).Some? {
      DescendTables(m1, pool1, root, owner1, pdp, p.i2, q);
      if TableAt(m1, root, q).Some? {
        DescendTables(m, pool, root, owner, root, p.i3, q);
      }
    }
  }

  /** Writing a last-level entry makes no table reachable. */
  lemma LeafTables(m: Memory, root: nat, owner: Owner, t: nat, p: Page, e: Entry, q: seq<nat>)
    requires TreeOK(m, root, owner) && t in owner && p.Valid() && t in m && owner[t] == Upper(p)
    requires IsPath(q) && |q| <= 3
    ensures TableAt(m[t := m[t][p.i0 := e]], root, q) == TableAt(m, root, q)
  {
    var m' := m[t := m[t][p.i0 := e]];
    assert forall s :: s in owner ==> TableOK(m, owner, s);
    assert SameExcept(m, m', owner, t, p.i0);
    assert owner[root] + q == q;
    TableAtUnchanged(m, m', root, owner, t, p.i0, root, q);
  }

  lemma MapKeepsUse(m: Memory, pool: seq<u64>, root: nat, f: u64, h: u64, p: Page)
    requires WellFormed(m, pool, root) && |pool| >= 3 && p.Valid() && NoEmptyTable(m, root)
    ensures NoEmptyTable(MapPage(m, pool, root, f, h, p).mem, root)
  {
    MapRefines(m, pool, root, f, h, p);
    var r := MapPage(m, pool, root, f, h, p);
    if r.status == Success {
      var owner :| TreeOK(m, root, owner) && PoolOK(pool, owner);
      var owner' := Descents(m, pool, root, owner, p);
      var (m3, pool3, pt) := DescendPath(m, pool, root, Upper(p));
      forall q: seq<nat> | IsPath(q) && 1 <= |q| <= 3 && TableAt(r.mem, root, q).Some?
        ensures LeadsToPage(r.mem, root, q)
      {
        LeafTables(m3, root, owner', pt, p, Link(Get(m3, pt, p.i0), f, h), q);
        MapTables(m, pool, root, owner, p, q);
        if q <= Upper(p) {
          assert p in View(r.mem, root);
        } else {
          assert LeadsToPage(m, root, q);
          var g: Page :| g in View(m, root) && q <= Upper(g);
          assert g in View(r.mem, root);
        }
      }
    }
  }

  /** Clearing a top-level entry makes no table reachable and those of its slot unreachable. */
  lemma ClearTables(m: Memory, root: nat, owner: Owner, i3: nat, q: seq<nat>)
    requires TreeOK(m, root, owner) && i3 < 512 && root in m && IsPath(q) && 1 <= |q| <= 3
    requires TableAt(m[root := m[root][i3 := ZERO]], root, q).Some?
    ensures q[0] != i3 && TableAt(m, root, q).Some?
  {
    var m' := m[root := m[root][i3 := ZERO]];
    assert forall s :: s in owner ==> TableOK(m, owner, s);
    assert SameExcept(m, m', owner, root, i3);
    assert owner[root] + q == q && (owner[root] + [i3])[0] == i3;
    TableAtUnchanged(m, m', root, owner, root, i3, root, q);
  }

  lemma UnmapKeepsUse(m: Memory, pool: seq<u64>, root: nat, i3: nat)
    requires WellFormed(m, pool, root) && i3 < 512 && NoEmptyTable(m, root)
    ensures NoEmptyTable(ClearSlot(m, pool, root, i3).mem, root)
  {
    UnmapRefines(m, pool, root, i3);
    var m' := ClearSlot(m, pool, root, i3).mem;
    if Get(m, root, i3).present {
      var owner :| TreeOK(m, root, owner) && PoolOK(pool, owner);
      forall q: seq<nat> | IsPath(q) && 1 <= |q| <= 3 && TableAt(m', root, q).Some?
        ensures LeadsToPage(m', root, q)
      {
        ClearTables(m, root, owner, i3, q);
        assert LeadsToPage(m, root, q);
        var g: Page :| g in View(m, root) && q <= Upper(g);
        assert g.i3 == Upper(g)[0] == q[0];
        assert g in WithoutSlot(View(m, root), i3);
      }
    }
  }

  lemma EmptyUse(m: Memory, root: nat)
    requires root in m && m[root] == ZeroTable()
    ensures NoEmptyTable(m, root)
  {
  }

  lemma StepKeepsUse(m: Memory, pool: seq<u64>, root: nat, op: Op)
    requires WellFormed(m, pool, root) && |pool| >= 3 && NoEmptyTable(m, root)
    ensures NoEmptyTable(Step(m, pool, root, op).mem, root)
  {
    match op
    case Map(physical, virt) => MapKeepsUse(m, pool, root, FrameOf(physical), HighOf(physical), PageOf(virt));
    case Unmap(virt) => UnmapKeepsUse(m, pool, root, Level3(virt));
  }

  /** Every sequence of maps and unmaps keeps it, so it holds in every state reached from an empty PML4. */
  lemma {:induction false} RunKeepsUse(m: Memory, pool: seq<u64>, root: nat, ops: seq<Op>)
    requires WellFormed(m, pool, root) && |pool| >= 3 * |ops| && NoEmptyTable(m, root)
    ensures NoEmptyTable(Run(m, pool, root, ops).0, root)
    decreases |ops|
  {
    if ops != [] {
      StepRefines(m, pool, root, ops[0]);
      StepKeepsUse(m, pool, root, ops[0]);
      var r := Step(m, pool, root, ops[0]);
      RunKeepsUse(r.mem, r.pool, root, ops[1..]);
    }
  }

  // ----- tables and mapped regions

  /** Whether a page of the 1 GiB region, or of the 2 MiB region, with these indexes is mapped. */
  ghost predicate BranchMapped(v: imap<Page, Entry>, i3: nat, i2: nat) {
    exists i1, i0 :: Page(i3, i2, i1, i0) in v
  }

  ghost predicate RegionMapped(v: imap<Page, Entry>, i3: nat, i2: nat, i1: nat) {
    exists i0 :: Page(i3, i2, i1, i0) in v
  }

  lemma MappedHasTables(m: Memory, root: nat, p: Page)
    requires p in View(m, root)
    ensures TableAt(m, root, [p.i3, p.i2]).Some? && TableAt(m, root, [p.i3, p.i2, p.i1]).Some?
  {
    assert [p.i3, p.i2] + [p.i1] == [p.i3, p.i2, p.i1];
    TableAtAppend(m, root, [p.i3, p.i2], [p.i1]);
  }

  /** A region has its tables exactly when one of its pages is mapped. */
  lemma BranchHasTable(m: Memory, root: nat, i3: nat, i2: nat)
    requires NoEmptyTable(m, root) && i3 < 512 && i2 < 512
    ensures TableAt(m, root, [i3, i2]).Some? <==> BranchMapped(View(m, root), i3, i2)
  {
    if TableAt(m, root, [i3, i2]).Some? {
      assert LeadsToPage(m, root, [i3, i2]);
      var p: Page :| p in View(m, root) && [i3, i2] <= Upper(p);
      assert [i3, i2][0] == Upper(p)[0] && [i3, i2][1] == Upper(p)[1];
      assert p == Page(i3, i2, p.i1, p.i0);
    }
    forall j1, j0 | Page(i3, i2, j1, j0) in View(m, root)
      ensures TableAt(m, root, [i3, i2]).Some?
    {
      MappedHasTables(m, root, Page(i3, i2, j1, j0));
    }
  }

  lemma RegionHasTable(m: Memory, root: nat, i3: nat, i2: nat, i1: nat)
    requires NoEmptyTable(m, root) && i3 < 512 && i2 < 512 && i1 < 512
    ensures TableAt(m, root, [i3, i2, i1]).Some? <==> RegionMapped(View(m, root), i3, i2, i1)
  {
    if TableAt(m, root, [i3, i2, i1]).Some? {
      var q := [i3, i2, i1];
      assert LeadsToPage(m, root, q);
      var p: Page :| p in View(m, root) && q <= Upper(p);
      assert q[0] == Upper(p)[0] && q[1] == Upper(p)[1] && q[2] == Upper(p)[2];
      assert p == Page(i3, i2, i1, p.i0);
    }
    forall j0 | Page(i3, i2, i1, j0) in View(m, root)
      ensures TableAt(m, root, [i3, i2, i1]).Some?
    {
      MappedHasTables(m, root, Page(i3, i2, i1, j0));
    }
  }
}
