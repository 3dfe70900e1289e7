/**
 Four-level page tables: memory as tables of 512 entries, the walk the processor makes
 (section 5.3 of the AMD64 Architecture Programmer's Manual, Volume 2), and the table
 updates of kern/arch/x86_64/mm/paging.c as functions on memory.

 A table is named by its physical frame number.  The original reaches the same table
 through a raw physical pointer (paging.c:189) and through KERN_PHYS_TO_VIRT
 (paging.c:300); here both are "the table in this frame".
 */
module PageTables {
  import opened Words

  /** A 64-bit entry by its fields: the flags, bits 51 to 12 (frame) and bits 63 to 52 (high). */
  datatype Entry = Entry(present: bool, writable: bool, huge: bool, flags: nat, frame: nat, high: nat)

  /** The fields of a raw word, as the bit-field union in pageflags.h lays them out. */
  function Decode(raw: u64): Entry {
    Entry(raw % 2 == 1, raw / 2 % 2 == 1, raw / 128 % 2 == 1,
          raw / 4 % 32 + raw / 256 % 16 * 32, raw / 0x1000 % 0x100_0000_0000, raw / 0x10_0000_0000_0000)
  }

  /** The raw word of an entry. */
  function Encode(e: Entry): nat {
    (if e.present then 1 else 0) + (if e.writable then 2 else 0) + e.flags % 32 * 4 +
    (if e.huge then 128 else 0) + e.flags / 32 * 256 + e.frame * 0x1000 + e.high * 0x10_0000_0000_0000
  }

  const ZERO: Entry := Entry(false, false, false, 0, 0, 0)

  type Table = t: seq<Entry> | |t| == 512 witness seq(512, _ => ZERO)
  type Memory = map<nat, Table>

  function ZeroTable(): (t: Table)
    ensures forall i :: 0 <= i < 512 ==> t[i] == ZERO
  {
    seq(512, _ => ZERO)
  }

  // The index into each level; Level3 selects the PML4 entry.
  function Level0(a: u64): nat { a / 0x1000 % 512 }
  function Level1(a: u64): nat { a / 0x20_0000 % 512 }
  function Level2(a: u64): nat { a / 0x4000_0000 % 512 }
  function Level3(a: u64): nat { a / 0x80_0000_0000 % 512 }

  /** A virtual page by its four nine-bit indexes, top level first. */
  datatype Page = Page(i3: nat, i2: nat, i1: nat, i0: nat) {
    predicate Valid() { i3 < 512 && i2 < 512 && i1 < 512 && i0 < 512 }
  }

  function PageOf(a: u64): (p: Page)
    ensures p.Valid()
  {
    Page(Level3(a), Level2(a), Level1(a), Level0(a))
  }

  /** The physical frame an address lies in, and the bits above it that PAGE_ALIGN keeps. */
  function FrameOf(a: u64): u64 { a / 0x1000 % 0x100_0000_0000 }
  function HighOf(a: u64): u64 { a / 0x10_0000_0000_0000 }

  /** Reading an entry; memory that holds no known word reads as zero. */
  function Get(m: Memory, t: nat, i: nat): Entry
    requires i < 512
  {
    if t in m then m[t][i] else ZERO
  }

  // ----- the processor's walk

  datatype Leaf = NoLeaf | Leaf(entry: Entry, level: nat, writable: bool)

  /** The entry that translates a page: level 1 is a 4 KiB page, 2 a 2 MiB page, 3 a 1 GiB page. */
  function FindLeaf(m: Memory, root: nat, p: Page): Leaf
    requires p.Valid()
  {
    var e4 := Get(m, root, p.i3);
    if !e4.present then NoLeaf else
    var e3 := Get(m, e4.frame, p.i2);
    if !e3.present then NoLeaf else
    if e3.huge then Leaf(e3, 3, e4.writable && e3.writable) else
    var e2 := Get(m, e3.frame, p.i1);
    if !e2.present then NoLeaf else
    if e2.huge then Leaf(e2, 2, e4.writable && e3.writable && e2.writable) else
    var e1 := Get(m, e2.frame, p.i0);
    if !e1.present then NoLeaf else
    Leaf(e1, 1, e4.writable && e3.writable && e2.writable && e1.writable)
  }

  datatype Translation = Fault | Mapped(physical: nat, writable: bool)

  /** The physical address a leaf gives an address: the frame's address, the low bits of `a` kept. */
  function Translate(leaf: Leaf, a: u64): Translation {
    match leaf
    case NoLeaf => Fault
    case Leaf(e, level, w) =>
      if level == 3 then Mapped(e.frame / 0x4_0000 * 0x4000_0000 + a % 0x4000_0000, w)
      else if level == 2 then Mapped(e.frame / 0x200 * 0x20_0000 + a % 0x20_0000, w)
      else Mapped(e.frame * 0x1000 + a % 0x1000, w)
  }

  /** Long-mode translation of a virtual address. */
  function Walk(m: Memory, root: nat, a: u64): Translation {
    Translate(FindLeaf(m, root, PageOf(a)), a)
  }

  // ----- tables as a tree

  datatype Option<T> = None | Some(value: T)

  ghost predicate IsPath(path: seq<nat>) {
    forall k :: 0 <= k < |path| ==> path[k] < 512
  }

  /** The table reached from table `t` by following `path` through present entries. */
  ghost function TableAt(m: Memory, t: nat, path: seq<nat>): Option<nat>
    requires IsPath(path)
    decreases |path|
  {
    if path == [] then Some(t)
    else if Get(m, t, path[0]).present then TableAt(m, Get(m, t, path[0]).frame, path[1..])
    else None
  }

  /** The last-level entry of a page, zero where the path to it breaks off early. */
  ghost function Slot(m: Memory, root: nat, p: Page): Entry
    requires p.Valid()
  {
    match TableAt(m, root, [p.i3, p.i2, p.i1])
    case Some(t) => Get(m, t, p.i0)
    case None => ZERO
  }

  /** The abstract page table: a partial map from virtual page to last-level entry. */
  ghost function View(m: Memory, root: nat): imap<Page, Entry> {
    imap p: Page | p.Valid() && Slot(m, root, p).present :: Slot(m, root, p)
  }

  /** No table is reachable by two paths, and every non-present entry of a reachable table is zero. */
  ghost predicate IsTree(m: Memory, root: nat) {
    && (forall p: seq<nat>, q: seq<nat> | IsPath(p) && IsPath(q) && |p| <= 3 && |q| <= 3 ::
          TableAt(m, root, p).Some? && TableAt(m, root, p) == TableAt(m, root, q) ==> p == q)
    && (forall p: seq<nat>, i: nat | IsPath(p) && |p| <= 3 && i < 512 && TableAt(m, root, p).Some? ::
          var e := Get(m, TableAt(m, root, p).value, i);
          !e.present ==> e == ZERO)
  }

  // ----- the inductive invariant: every table is owned by one path

  type Owner = map<nat, seq<nat>>

  ghost predicate EntryOK(e: Entry, owner: Owner, path: seq<nat>, i: nat) {
    if !e.present then e == ZERO
    else |path| < 3 ==>
      !e.huge && e.writable && e.high == 0 && e.frame in owner && owner[e.frame] == path + [i]
  }

  ghost predicate TableOK(m: Memory, owner: Owner, t: nat)
    requires t in owner
  {
    && t in m && |owner[t]| <= 3 && IsPath(owner[t])
    && forall i :: 0 <= i < 512 ==> EntryOK(m[t][i], owner, owner[t], i)
  }

  ghost predicate TreeOK(m: Memory, root: nat, owner: Owner) {
    && root in owner && owner[root] == []
    && forall t :: t in owner ==> TableOK(m, owner, t)
  }

  /** MmKernelMalloc as a supply of frames below 2^40 whose pages are not in use as tables. */
  ghost predicate PoolOK(pool: seq<u64>, owner: Owner) {
    && (forall k :: 0 <= k < |pool| ==> pool[k] < 0x100_0000_0000 && pool[k] !in owner)
    && (forall j, k :: 0 <= j < k < |pool| ==> pool[j] != pool[k])
  }

  ghost predicate WellFormed(m: Memory, pool: seq<u64>, root: nat) {
    exists owner :: TreeOK(m, root, owner) && PoolOK(pool, owner)
  }

  // ----- the updates

  /** Raw |= PAGE_ALIGN(a); Present = TRUE; Writable = TRUE, for an address in frame `f` with high bits `h`. */
  function Link(e: Entry, f: u64, h: u64): Entry {
    e.(frame := BitOr(e.frame, f), high := BitOr(e.high, h), present := true, writable := true)
  }

  /** One descent of x86MapAddress: the next table, created and zeroed when it is missing. */
  function Descend(m: Memory, pool: seq<u64>, t: nat, i: nat): (Memory, seq<u64>, nat)
    requires i < 512
  {
    var e := Get(m, t, i);
    if e.present then (m, pool, e.frame)
    else if t in m && |pool| > 0 then
      var zeroed := m[pool[0] := ZeroTable()];
      (zeroed[t := zeroed[t][i := Link(zeroed[t][i], pool[0], 0)]], pool[1..], pool[0])
    else (m, pool, 0)  // no table to write or none to hand out: not reached on well-formed memory
  }

  /** Descents one after the other, along a path of indexes. */
  function DescendPath(m: Memory, pool: seq<u64>, t: nat, path: seq<nat>): (Memory, seq<u64>, nat)
    requires IsPath(path)
    decreases |path|
  {
    if path == [] then (m, pool, t)
    else
      var (m', pool', next) := Descend(m, pool, t, path[0]);
      DescendPath(m', pool', next, path[1..])
  }

  datatype Outcome = Outcome(mem: Memory, pool: seq<u64>, status: Status)

  /** The table updates of x86MapAddress, for a page and a target frame: three descents and a last entry. */
  function MapPage(m: Memory, pool: seq<u64>, root: nat, f: u64, h: u64, p: Page): Outcome
    requires p.Valid()
  {
    var (m', pool', pt) := DescendPath(m, pool, root, [p.i3, p.i2, p.i1]);
    var e := Get(m', pt, p.i0);
    if e.present || pt !in m' then Outcome(m', pool', MemoryPageFailure)
    else Outcome(m'[pt := m'[pt][p.i0 := Link(e, f, h)]], pool', Success)
  }

  /** x86MapAddress */
  function MapStep(m: Memory, pool: seq<u64>, root: nat, physical: u64, virt: u64): Outcome {
    MapPage(m, pool, root, FrameOf(physical), HighOf(physical), PageOf(virt))
  }

  /** The table update of x86UnmapAddress as written: a present or huge top-level entry is cleared whole. */
  function ClearSlot(m: Memory, pool: seq<u64>, root: nat, i3: nat): Outcome
    requires i3 < 512
  {
    var e := Get(m, root, i3);
    if (e.present || e.huge) && root in m then Outcome(m[root := m[root][i3 := ZERO]], pool, Success)
    else Outcome(m, pool, MemoryPageFailure)
  }

  /** x86UnmapAddress */
  function UnmapStep(m: Memory, pool: seq<u64>, root: nat, virt: u64): Outcome {
    ClearSlot(m, pool, root, Level3(virt))
  }
}
