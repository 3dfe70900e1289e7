/**
 Proofs about the page tables: the tree invariant, and x86MapAddress and x86UnmapAddress
 as updates of a partial map from virtual page to last-level entry.
 */
module PageTableProofs {
  import opened Words
  import opened PageTables

  /** On a zero entry the or-assignment writes exactly the address, present and writable. */
  lemma LinkZero(f: u64, h: u64)
    ensures Link(ZERO, f, h) == Entry(true, true, false, 0, f, h)
  {
  }

  // ----- paths through the tables

  lemma {:induction false} TableAtAppend(m: Memory, t: nat, p: seq<nat>, q: seq<nat>)
    requires IsPath(p) && IsPath(q)
    ensures IsPath(p + q)
    ensures TableAt(m, t, p + q) ==
            (match TableAt(m, t, p) case Some(u) => TableAt(m, u, q) case None => None)
    decreases |p|
  {
    if p == [] {
      assert p + q == q;
    } else {
      assert (p + q)[1..] == p[1..] + q;
      if Get(m, t, p[0]).present {
        TableAtAppend(m, Get(m, t, p[0]).frame, p[1..], q);
      }
    }
  }

  lemma {:induction false} TableAtOwned(m: Memory, root: nat, owner: Owner, s: nat, path: seq<nat>)
    requires TreeOK(m, root, owner) && s in owner
    requires IsPath(path) && |owner[s]| + |path| <= 3 && TableAt(m, s, path).Some?
    ensures TableAt(m, s, path).value in owner
    ensures owner[TableAt(m, s, path).value] == owner[s] + path
    decreases |path|
  {
    if path != [] {
      assert TableOK(m, owner, s) && EntryOK(m[s][path[0]], owner, owner[s], path[0]);
      var u := m[s][path[0]].frame;
      TableAtOwned(m, root, owner, u, path[1..]);
      assert owner[s] + path == owner[u] + path[1..];
    }
  }

  /** Tables owned by one path each form a tree whose free entries are zero. */
  lemma OwnedIsTree(m: Memory, root: nat, owner: Owner)
    requires TreeOK(m, root, owner)
    ensures IsTree(m, root)
  {
    forall p: seq<nat> | IsPath(p) && |p| <= 3 && TableAt(m, root, p).Some?
      ensures TableAt(m, root, p).value in owner && owner[TableAt(m, root, p).value] == p
    {
      TableAtOwned(m, root, owner, root, p);
    }
    forall p: seq<nat>, i: nat | IsPath(p) && |p| <= 3 && i < 512 && TableAt(m, root, p).Some?
      ensures var e := Get(m, TableAt(m, root, p).value, i); !e.present ==> e == ZERO
    {
      var t := TableAt(m, root, p).value;
      assert TableOK(m, owner, t) && EntryOK(m[t][i], owner, owner[t], i);
    }
  }

  /** `m'` holds the same owned tables as `m`, except perhaps for entry `i` of table `t`. */
  ghost predicate SameExcept(m: Memory, m': Memory, owner: Owner, t: nat, i: nat) {
    && (forall s :: s in owner ==> s in m && s in m')
    && (forall s, j :: s in owner && 0 <= j < 512 && (s != t || j != i) ==> m'[s][j] == m[s][j])
  }

  /** Changing one entry leaves every path alone that does not run through it. */
  lemma {:induction false} TableAtUnchanged(
    m: Memory, m': Memory, root: nat, owner: Owner, t: nat, i: nat, s: nat, path: seq<nat>)
    requires TreeOK(m, root, owner) && SameExcept(m, m', owner, t, i)
    requires s in owner && t in owner
    requires IsPath(path) && |owner[s]| + |path| <= 3
    requires !(owner[t] + [i] <= owner[s] + path)
    ensures TableAt(m', s, path) == TableAt(m, s, path)
    decreases |path|
  {
    if path != [] {
      assert owner[s] + path == owner[s] + [path[0]] + path[1..];
      assert s != t || path[0] != i;
      assert TableOK(m, owner, s) && EntryOK(m[s][path[0]], owner, owner[s], path[0]);
      if m[s][path[0]].present {
        var u := m[s][path[0]].frame;
        assert owner[u] + path[1..] == owner[s] + path;
        TableAtUnchanged(m, m', root, owner, t, i, u, path[1..]);
      }
    }
  }

  ghost function Upper(p: Page): seq<nat> { [p.i3, p.i2, p.i1] }

  ghost function PathOf(p: Page): seq<nat> { Upper(p) + [p.i0] }

  lemma DistinctPages(p: Page, q: Page)
    requires p != q
    ensures !(Upper(p) + [p.i0] <= PathOf(q))
  {
    var a, b := Upper(p) + [p.i0], PathOf(q);
    assert a[0] == p.i3 && a[1] == p.i2 && a[2] == p.i1 && a[3] == p.i0;
    assert b[0] == q.i3 && b[1] == q.i2 && b[2] == q.i1 && b[3] == q.i0;
  }

  lemma SlotUnchanged(m: Memory, m': Memory, root: nat, owner: Owner, t: nat, i: nat, p: Page)
    requires TreeOK(m, root, owner) && SameExcept(m, m', owner, t, i)
    requires t in owner && p.Valid() && !(owner[t] + [i] <= PathOf(p))
    ensures Slot(m', root, p) == Slot(m, root, p)
  {
    assert owner[root] + Upper(p) == Upper(p);
    assert Upper(p) <= PathOf(p);
    TableAtUnchanged(m, m', root, owner, t, i, root, Upper(p));
    if TableAt(m, root, Upper(p)).Some? {
      TableAtOwned(m, root, owner, root, Upper(p));
      var u := TableAt(m, root, Upper(p)).value;
      assert owner[u] + [p.i0] == PathOf(p);
    }
  }

  // ----- one descent

  ghost predicate SameSlots(m: Memory, m': Memory, root: nat) {
    forall p: Page :: p.Valid() ==> Slot(m', root, p) == Slot(m, root, p)
  }

  /** Hanging a zeroed table into a free entry keeps the tree. */
  lemma AddTable(m: Memory, pool: seq<u64>, root: nat, owner: Owner, t: nat, i: nat)
    requires TreeOK(m, root, owner) && PoolOK(pool, owner) && |pool| > 0
    requires t in owner && |owner[t]| < 3 && i < 512 && !Get(m, t, i).present
    ensures var m' := Descend(m, pool, t, i).0;
            var owner' := owner[pool[0] := owner[t] + [i]];
            && TreeOK(m', root, owner') && PoolOK(pool[1..], owner')
            && SameExcept(m, m', owner, t, i)
            && Get(m', t, i).present && Get(m', t, i).frame == pool[0]
            && pool[0] in m' && m'[pool[0]] == ZeroTable()
            && Descend(m, pool, t, i).1 == pool[1..] && Descend(m, pool, t, i).2 == pool[0]
  {
    var c := pool[0];
    var m' := Descend(m, pool, t, i).0;
    var owner' := owner[c := owner[t] + [i]];
    assert TableOK(m, owner, t) && EntryOK(m[t][i], owner, owner[t], i);
    LinkZero(c, 0);
    assert m'[t][i] == Link(ZERO, c, 0);
    assert SameExcept(m, m', owner, t, i) by {
      assert forall s :: s in owner ==> TableOK(m, owner, s);
    }
    forall s | s in owner'
      ensures TableOK(m', owner', s)
    {
      if s != c {
        assert TableOK(m, owner, s);
        forall j | 0 <= j < 512
          ensures EntryOK(m'[s][j], owner', owner'[s], j)
        {
          assert EntryOK(m[s][j], owner, owner[s], j);
        }
      }
    }
  }

  /** A page below a free entry reads zero before and after an empty table is hung there. */
  lemma BelowFreeEntry(m: Memory, m': Memory, root: nat, q: seq<nat>, t: nat, i: nat, c: nat, p: Page)
    requires p.Valid() && IsPath(q) && i < 512 && q + [i] <= Upper(p)
    requires TableAt(m, root, q) == Some(t) && !Get(m, t, i).present
    requires TableAt(m', root, q) == Some(t) && Get(m', t, i).present && Get(m', t, i).frame == c
    requires c in m' && m'[c] == ZeroTable()
    ensures Slot(m, root, p) == ZERO && Slot(m', root, p) == ZERO
  {
    var rest := Upper(p)[|q|..];
    assert Upper(p) == q + rest && rest[0] == i;
    TableAtAppend(m, root, q, rest);
    TableAtAppend(m', root, q, rest);
    assert TableAt(m', t, rest) == TableAt(m', c, rest[1..]);
  }

  lemma AddTableSlots(m: Memory, pool: seq<u64>, root: nat, owner: Owner, t: nat, i: nat)
    requires TreeOK(m, root, owner) && PoolOK(pool, owner) && |pool| > 0
    requires t in owner && |owner[t]| < 3 && i < 512 && !Get(m, t, i).present
    requires IsPath(owner[t]) && TableAt(m, root, owner[t]) == Some(t)
    ensures var m' := Descend(m, pool, t, i).0;
            && SameSlots(m, m', root)
            && IsPath(owner[t] + [i]) && TableAt(m', root, owner[t] + [i]) == Some(pool[0])
  {
    var m' := Descend(m, pool, t, i).0;
    var q := owner[t];
    AddTable(m, pool, root, owner, t, i);
    assert owner[root] + q == q;
    TableAtUnchanged(m, m', root, owner, t, i, root, q);
    TableAtAppend(m', root, q, [i]);
    assert TableAt(m', t, [i]) == Some(pool[0]);
    forall p: Page | p.Valid()
      ensures Slot(m', root, p) == Slot(m, root, p)
    {
      if q + [i] <= PathOf(p) {
        assert q + [i] <= Upper(p);
        BelowFreeEntry(m, m', root, q, t, i, pool[0], p);
      } else {
        SlotUnchanged(m, m', root, owner, t, i, p);
      }
    }
  }

  /** A descent of x86MapAddress, found or created: the tree is kept, no translation changes. */
  lemma DescendKeeps(m: Memory, pool: seq<u64>, root: nat, owner: Owner, t: nat, i: nat) returns (owner': Owner)
    requires TreeOK(m, root, owner) && PoolOK(pool, owner) && |pool| > 0
    requires t in owner && |owner[t]| < 3 && i < 512
    requires IsPath(owner[t]) && TableAt(m, root, owner[t]) == Some(t)
    ensures var (m', pool', c) := Descend(m, pool, t, i);
            && TreeOK(m', root, owner') && PoolOK(pool', owner') && |pool'| >= |pool| - 1
            && c in owner' && owner'[c] == owner[t] + [i]
            && IsPath(owner'[c]) && TableAt(m', root, owner'[c]) == Some(c)
            && SameSlots(m, m', root)
            && c in m'
            && (if Get(m, t, i).present then m' == m && pool' == pool else m'[c] == ZeroTable())
  {
    assert TableOK(m, owner, t) && EntryOK(m[t][i], owner, owner[t], i);
    if m[t][i].present {
      owner' := owner;
      TableAtAppend(m, root, owner[t], [i]);
      assert TableAt(m, t, [i]) == Some(m[t][i].frame);
      assert TableOK(m, owner, m[t][i].frame);
    } else {
      owner' := owner[pool[0] := owner[t] + [i]];
      AddTable(m, pool, root, owner, t, i);
      AddTableSlots(m, pool, root, owner, t, i);
    }
  }

  // ----- x86MapAddress

  /** Writing a present last-level entry changes the slot of that page and of no other. */
  lemma WriteLeaf(m: Memory, root: nat, owner: Owner, t: nat, p: Page, e: Entry)
    requires TreeOK(m, root, owner) && t in owner && p.Valid() && e.present
    requires owner[t] == Upper(p) && TableAt(m, root, Upper(p)) == Some(t)
    requires t in m
    ensures var m' := m[t := m[t][p.i0 := e]];
            && TreeOK(m', root, owner) && Slot(m', root, p) == e
            && forall q: Page :: q.Valid() && q != p ==> Slot(m', root, q) == Slot(m, root, q)
  {
    var m' := m[t := m[t][p.i0 := e]];
    forall s | s in owner
      ensures TableOK(m', owner, s)
    {
      assert TableOK(m, owner, s);
      forall j | 0 <= j < 512
        ensures EntryOK(m'[s][j], owner, owner[s], j)
      {
        assert EntryOK(m[s][j], owner, owner[s], j);
      }
    }
    assert SameExcept(m, m', owner, t, p.i0);
    assert owner[root] + Upper(p) == Upper(p);
    TableAtUnchanged(m, m', root, owner, t, p.i0, root, Upper(p));
    forall q: Page | q.Valid() && q != p
      ensures Slot(m', root, q) == Slot(m, root, q)
    {
      DistinctPages(p, q);
      SlotUnchanged(m, m', root, owner, t, p.i0, q);
    }
  }

  /** Slots that differ at one page only are views that differ there only. */
  lemma ViewInsert(m: Memory, m': Memory, root: nat, p: Page, e: Entry)
    requires p.Valid() && e.present && Slot(m', root, p) == e
    requires forall q: Page :: q.Valid() && q != p ==> Slot(m', root, q) == Slot(m, root, q)
    ensures View(m', root) == View(m, root)[p := e]
  {
  }

  /** The path of three descents, written out. */
  lemma ThreeDescents(m: Memory, pool: seq<u64>, t: nat, i: nat, j: nat, k: nat)
    requires i < 512 && j < 512 && k < 512
    ensures DescendPath(m, pool, t, [i, j, k]) ==
            var (m1, pool1, pdp) := Descend(m, pool, t, i);
            var (m2, pool2, pd) := Descend(m1, pool1, pdp, j);
            Descend(m2, pool2, pd, k)
  {
    var (m1, pool1, pdp) := Descend(m, pool, t, i);
    var (m2, pool2, pd) := Descend(m1, pool1, pdp, j);
    var (m3, pool3, pt) := Descend(m2, pool2, pd, k);
    assert [i, j, k][1..] == [j, k] && [j, k][1..] == [k] && [k][1..] == [];
    assert DescendPath(m2, pool2, pd, [k]) == DescendPath(m3, pool3, pt, []) == (m3, pool3, pt);
    assert DescendPath(m1, pool1, pdp, [j, k]) == DescendPath(m2, pool2, pd, [k]);
    assert DescendPath(m, pool, t, [i, j, k]) == DescendPath(m1, pool1, pdp, [j, k]);
  }

  /** The three descents of x86MapAddress, taken together. */
  lemma Descents(m: Memory, pool: seq<u64>, root: nat, owner: Owner, p: Page) returns (owner': Owner)
    requires TreeOK(m, root, owner) && PoolOK(pool, owner) && |pool| >= 3 && p.Valid()
    ensures var (m1, pool1, pdp) := Descend(m, pool, root, p.i3);
            var (m2, pool2, pd) := Descend(m1, pool1, pdp, p.i2);
            var (m3, pool3, pt) := Descend(m2, pool2, pd, p.i1);
            && DescendPath(m, pool, root, Upper(p)) == (m3, pool3, pt)
            && TreeOK(m3, root, owner') && PoolOK(pool3, owner') && |pool3| >= |pool| - 3
            && pt in owner' && owner'[pt] == Upper(p) && TableAt(m3, root, Upper(p)) == Some(pt)
            && root in m && pdp in m1 && |pool1| > 0 && pd in m2 && |pool2| > 0
            && pt in m3 && SameSlots(m, m3, root)
            && (Get(m3, pt, p.i0).present ==> m3 == m && pool3 == pool)
  {
    assert TableAt(m, root, owner[root]) == Some(root);
    var owner1 := DescendKeeps(m, pool, root, owner, root, p.i3);
    var (m1, pool1, pdp) := Descend(m, pool, root, p.i3);
    var owner2 := DescendKeeps(m1, pool1, root, owner1, pdp, p.i2);
    var (m2, pool2, pd) := Descend(m1, pool1, pdp, p.i2);
    owner' := DescendKeeps(m2, pool2, root, owner2, pd, p.i1);
    assert owner'[Descend(m2, pool2, pd, p.i1).2] == Upper(p);
    ThreeDescents(m, pool, root, p.i3, p.i2, p.i1);
  }

  /** The entry x86MapAddress writes for a physical address in frame `f` with high bits `h`. */
  function Mapping(f: u64, h: u64): Entry { Entry(true, true, false, 0, f, h) }

  lemma MapWithOwner(m: Memory, pool: seq<u64>, root: nat, owner: Owner, f: u64, h: u64, p: Page)
    returns (owner': Owner)
    requires TreeOK(m, root, owner) && PoolOK(pool, owner) && |pool| >= 3 && p.Valid()
    ensures var r := MapPage(m, pool, root, f, h, p);
            && TreeOK(r.mem, root, owner') && PoolOK(r.pool, owner') && |r.pool| >= |pool| - 3
            && (if Slot(m, root, p).present
                then r == Outcome(m, pool, MemoryPageFailure)
                else r.status == Success && Slot(r.mem, root, p) == Mapping(f, h))
            && forall q: Page :: q.Valid() && q != p ==> Slot(r.mem, root, q) == Slot(m, root, q)
  {
    owner' := Descents(m, pool, root, owner, p);
    var (m3, pool3, pt) := DescendPath(m, pool, root, Upper(p));
    var e := Get(m3, pt, p.i0);
    assert Slot(m, root, p) == Slot(m3, root, p) == e;
    if !e.present {
      assert TableOK(m3, owner', pt) && EntryOK(m3[pt][p.i0], owner', Upper(p), p.i0);
      LinkZero(f, h);
      WriteLeaf(m3, root, owner', pt, p, Mapping(f, h));
    }
  }

  /**
   x86MapAddress refines insertion into a partial map: it succeeds exactly on a page that is
   not mapped and then adds that page alone; otherwise it changes no memory at all, not even
   by leaving a new table behind.
   */
  lemma MapRefines(m: Memory, pool: seq<u64>, root: nat, f: u64, h: u64, p: Page)
    requires WellFormed(m, pool, root) && |pool| >= 3 && p.Valid()
    ensures var r := MapPage(m, pool, root, f, h, p);
            && WellFormed(r.mem, r.pool, root) && |r.pool| >= |pool| - 3
            && (r.status == Success || r.status == MemoryPageFailure)
            && (r.status == Success <==> p !in View(m, root))
            && (r.status == Success ==> View(r.mem, root) == View(m, root)[p := Mapping(f, h)])
            && (r.status != Success ==> r.mem == m && r.pool == pool)
  {
    var owner :| TreeOK(m, root, owner) && PoolOK(pool, owner);
    var r := MapPage(m, pool, root, f, h, p);
    var owner' := MapWithOwner(m, pool, root, owner, f, h, p);
    assert WellFormed(r.mem, r.pool, root);
    if !Slot(m, root, p).present {
      ViewInsert(m, r.mem, root, p, Mapping(f, h));
    }
  }

  // ----- x86UnmapAddress as written

  ghost function WithoutSlot(v: imap<Page, Entry>, i3: nat): imap<Page, Entry> {
    imap q | q in v && q.i3 != i3 :: v[q]
  }

  ghost function Without(v: imap<Page, Entry>, p: Page): imap<Page, Entry> {
    imap q | q in v && q != p :: v[q]
  }

  lemma ClearKeepsTree(m: Memory, root: nat, owner: Owner, i3: nat)
    requires TreeOK(m, root, owner) && i3 < 512 && root in m
    ensures var m' := m[root := m[root][i3 := ZERO]];
            TreeOK(m', root, owner) && SameExcept(m, m', owner, root, i3)
  {
    var m' := m[root := m[root][i3 := ZERO]];
    forall s | s in owner
      ensures TableOK(m', owner, s)
    {
      assert TableOK(m, owner, s);
      forall j | 0 <= j < 512
        ensures EntryOK(m'[s][j], owner, owner[s], j)
      {
        assert EntryOK(m[s][j], owner, owner[s], j);
      }
    }
  }

  lemma ClearKeeps(m: Memory, root: nat, owner: Owner, i3: nat)
    requires TreeOK(m, root, owner) && i3 < 512 && root in m
    ensures var m' := m[root := m[root][i3 := ZERO]];
            TreeOK(m', root, owner) && View(m', root) == WithoutSlot(View(m, root), i3)
  {
    var m' := m[root := m[root][i3 := ZERO]];
    ClearKeepsTree(m, root, owner, i3);
    forall p: Page | p.Valid()
      ensures Slot(m', root, p) == if p.i3 == i3 then ZERO else Slot(m, root, p)
    {
      if p.i3 != i3 {
        assert (owner[root] + [i3])[0] == i3 && PathOf(p)[0] == p.i3;
        SlotUnchanged(m, m', root, owner, root, i3, p);
      }
    }
  }

  /** x86UnmapAddress removes the whole 512 GiB slot that holds the address, and nothing else. */
  lemma UnmapRefines(m: Memory, pool: seq<u64>, root: nat, i3: nat)
    requires WellFormed(m, pool, root) && i3 < 512
    ensures var r := ClearSlot(m, pool, root, i3);
            && WellFormed(r.mem, r.pool, root) && r.pool == pool
            && View(r.mem, root) == WithoutSlot(View(m, root), i3)
            && (r.status == Success <==> Get(m, root, i3).present)
            && (r.status == Success || r.status == MemoryPageFailure)
            && (r.status != Success ==> r.mem == m)
  {
    var owner :| TreeOK(m, root, owner) && PoolOK(pool, owner);
    assert TableOK(m, owner, root) && EntryOK(m[root][i3], owner, owner[root], i3);
    if m[root][i3].present {
      ClearKeeps(m, root, owner, i3);
      assert WellFormed(m[root := m[root][i3 := ZERO]], pool, root);
    } else {
      assert forall p: Page | p.Valid() && p.i3 == i3 :: Slot(m, root, p) == ZERO;
    }
  }

  /**
   The documentation promises the removal of one page, reported as a failure when it was not
   mapped.  The code keeps that promise about the mapping exactly when no other page of the
   slot is mapped, and about the status exactly when a present slot does map the page.
   */
  lemma UnmapDocumented(m: Memory, pool: seq<u64>, root: nat, p: Page)
    requires WellFormed(m, pool, root) && p.Valid()
    ensures var r := ClearSlot(m, pool, root, p.i3);
            && (View(r.mem, root) == Without(View(m, root), p) <==>
                forall q: Page :: q in View(m, root) && q.i3 == p.i3 ==> q == p)
            && ((r.status == Success <==> p in View(m, root)) <==>
                (Get(m, root, p.i3).present ==> p in View(m, root)))
  {
    UnmapRefines(m, pool, root, p.i3);
    var v := View(m, root);
    if p in v {
      assert Slot(m, root, p).present;
    }
    if WithoutSlot(v, p.i3) == Without(v, p) {
      forall q: Page | q in v && q.i3 == p.i3
        ensures q == p
      {
        assert q !in WithoutSlot(v, p.i3);
      }
    }
  }

  // ----- every run

  datatype Op = Map(physical: u64, virt: u64) | Unmap(virt: u64)

  function Step(m: Memory, pool: seq<u64>, root: nat, op: Op): Outcome {
    match op
    case Map(physical, virt) => MapStep(m, pool, root, physical, virt)
    case Unmap(virt) => UnmapStep(m, pool, root, virt)
  }

  function Run(m: Memory, pool: seq<u64>, root: nat, ops: seq<Op>): (Memory, seq<u64>)
    decreases |ops|
  {
    if ops == [] then (m, pool)
    else
      var r := Step(m, pool, root, ops[0]);
      Run(r.mem, r.pool, root, ops[1..])
  }

  /** What one operation does to the partial map. */
  ghost function AbstractStep(v: imap<Page, Entry>, op: Op): imap<Page, Entry> {
    match op
    case Map(physical, virt) =>
      if PageOf(virt) in v then v else v[PageOf(virt) := Mapping(FrameOf(physical), HighOf(physical))]
    case Unmap(virt) => WithoutSlot(v, Level3(virt))
  }

  ghost function AbstractRun(v: imap<Page, Entry>, ops: seq<Op>): imap<Page, Entry>
    decreases |ops|
  {
    if ops == [] then v else AbstractRun(AbstractStep(v, ops[0]), ops[1..])
  }

  lemma StepRefines(m: Memory, pool: seq<u64>, root: nat, op: Op)
    requires WellFormed(m, pool, root) && |pool| >= 3
    ensures var r := Step(m, pool, root, op);
            && WellFormed(r.mem, r.pool, root) && |r.pool| >= |pool| - 3
            && View(r.mem, root) == AbstractStep(View(m, root), op)
  {
    match op
    case Map(physical, virt) => MapRefines(m, pool, root, FrameOf(physical), HighOf(physical), PageOf(virt));
    case Unmap(virt) => UnmapRefines(m, pool, root, Level3(virt));
  }

  /** Any sequence of maps and unmaps is the same sequence of updates of the partial map. */
  lemma {:induction false} RunRefines(m: Memory, pool: seq<u64>, root: nat, ops: seq<Op>)
    requires WellFormed(m, pool, root) && |pool| >= 3 * |ops|
    ensures var (m', pool') := Run(m, pool, root, ops);
            && WellFormed(m', pool', root) && IsTree(m', root)
            && View(m', root) == AbstractRun(View(m, root), ops)
    decreases |ops|
  {
    if ops == [] {
      var owner :| TreeOK(m, root, owner) && PoolOK(pool, owner);
      OwnedIsTree(m, root, owner);
    } else {
      StepRefines(m, pool, root, ops[0]);
      var r := Step(m, pool, root, ops[0]);
      RunRefines(r.mem, r.pool, root, ops[1..]);
    }
  }

  /** An empty PML4 and a supply of other frames are well-formed and map nothing. */
  lemma EmptyWellFormed(m: Memory, pool: seq<u64>, root: nat)
    requires root in m && m[root] == ZeroTable() && PoolOK(pool, map[root := []])
    ensures WellFormed(m, pool, root) && View(m, root) == imap[]
  {
    var owner: Owner := map[root := []];
    assert TableOK(m, owner, root);
    assert TreeOK(m, root, owner);
    forall p: Page | p.Valid()
      ensures !Slot(m, root, p).present
    {
    }
  }

  /** Every state reached from an empty PML4 is a tree and holds the mappings the operations ask for. */
  lemma ReachableIsTree(m: Memory, pool: seq<u64>, root: nat, ops: seq<Op>)
    requires root in m && m[root] == ZeroTable() && PoolOK(pool, map[root := []])
    requires |pool| >= 3 * |ops|
    ensures var m' := Run(m, pool, root, ops).0;
            IsTree(m', root) && View(m', root) == AbstractRun(imap[], ops)
  {
    EmptyWellFormed(m, pool, root);
    RunRefines(m, pool, root, ops);
  }

  ghost function Neighbours(physical: u64): seq<Op> {
    [Map(physical, 0x1000), Map(physical, 0x2000), Unmap(0x1000)]
  }

  lemma AbstractNeighbours(physical: u64)
    ensures AbstractRun(imap[], Neighbours(physical)) == imap[]
    ensures PageOf(0x2000) != PageOf(0x1000)
    ensures PageOf(0x2000) in AbstractRun(imap[], Neighbours(physical)[..2])
  {
    var ops := Neighbours(physical);
    assert ops[1..] == [ops[1], ops[2]] && ops[..2] == [ops[0], ops[1]];
    assert PageOf(0x1000) == Page(0, 0, 0, 1) && PageOf(0x2000) == Page(0, 0, 0, 2);
    var e := Mapping(FrameOf(physical), HighOf(physical));
    var v1: imap<Page, Entry> := imap[Page(0, 0, 0, 1) := e];
    var v2 := v1[Page(0, 0, 0, 2) := e];
    assert AbstractStep(imap[], ops[0]) == v1 && AbstractStep(v1, ops[1]) == v2 && AbstractStep(v2, ops[2]) == imap[];
    assert AbstractRun(v1, [ops[1], ops[2]]) == AbstractRun(v2, [ops[2]]) == AbstractRun(imap[], []);
    assert AbstractRun(v1, [ops[1]]) == AbstractRun(v2, []);
  }

  /** Mapping 0x1000 and 0x2000 and unmapping 0x1000 leaves neither page mapped. */
  lemma UnmapRemovesNeighbour(m: Memory, pool: seq<u64>, root: nat, physical: u64)
    requires root in m && m[root] == ZeroTable() && PoolOK(pool, map[root := []]) && |pool| >= 9
    ensures PageOf(0x2000) != PageOf(0x1000)
    ensures PageOf(0x2000) in AbstractRun(imap[], Neighbours(physical)[..2])
    ensures View(Run(m, pool, root, Neighbours(physical)).0, root) == imap[]
  {
    AbstractNeighbours(physical);
    ReachableIsTree(m, pool, root, Neighbours(physical));
  }
}
