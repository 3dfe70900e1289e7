/**
 Virtual and physical addresses: how the four indexes rebuild an address, and what the
 walk gives on well-formed tables.
 */
module Addresses {
  import opened Words
  import opened Quotients
  import opened PageTables
  import opened PageTableProofs

  /** The number of a page: its four indexes as nine-bit digits. */
  function Number(p: Page): nat {
    ((p.i3 * 512 + p.i2) * 512 + p.i1) * 512 + p.i0
  }

  /** The four indexes and the page offset rebuild the 48 translated bits of any address. */
  lemma LevelsRebuild(a: u64)
    ensures Number(PageOf(a)) * 0x1000 + a % 0x1000 == a % 0x1_0000_0000_0000
  {
    DivDiv(a, 0x1000, 512);
    DivDiv(a, 0x20_0000, 512);
    DivDiv(a, 0x4000_0000, 512);
    DivDiv(a, 0x80_0000_0000, 512);
  }

  /** Two addresses share all four indexes only if they lie in the same page. */
  lemma PageOfInjective(a: u64, b: u64)
    ensures PageOf(a) == PageOf(b) <==> a % 0x1_0000_0000_0000 / 0x1000 == b % 0x1_0000_0000_0000 / 0x1000
  {
    LevelsRebuild(a);
    LevelsRebuild(b);
    if Number(PageOf(a)) == Number(PageOf(b)) {
      NumberInjective(PageOf(a), PageOf(b));
    }
    QuotientUnique(a % 0x1_0000_0000_0000, 0x1000, Number(PageOf(a)), a % 0x1000);
    QuotientUnique(b % 0x1_0000_0000_0000, 0x1000, Number(PageOf(b)), b % 0x1000);
  }

  lemma NumberInjective(p: Page, q: Page)
    requires p.Valid() && q.Valid() && Number(p) == Number(q)
    ensures p == q
  {
    LastDigit((p.i3 * 512 + p.i2) * 512 + p.i1, p.i0, (q.i3 * 512 + q.i2) * 512 + q.i1, q.i0);
    LastDigit(p.i3 * 512 + p.i2, p.i1, q.i3 * 512 + q.i2, q.i1);
    LastDigit(p.i3, p.i2, q.i3, q.i2);
  }

  lemma LastDigit(x: nat, i: nat, y: nat, j: nat)
    requires i < 512 && j < 512 && x * 512 + i == y * 512 + j
    ensures x == y && i == j
  {
  }

  // ----- the walk on well-formed tables

  /** On well-formed tables the processor finds exactly the mapped pages, as 4 KiB pages. */
  lemma LeafIsView(m: Memory, pool: seq<u64>, root: nat, p: Page)
    requires WellFormed(m, pool, root) && p.Valid()
    ensures FindLeaf(m, root, p) ==
            if p in View(m, root) then Leaf(View(m, root)[p], 1, View(m, root)[p].writable) else NoLeaf
  {
    var owner :| TreeOK(m, root, owner) && PoolOK(pool, owner);
    assert TableOK(m, owner, root) && EntryOK(m[root][p.i3], owner, [], p.i3);
    var e4 := m[root][p.i3];
    assert Upper(p)[1..] == [p.i2, p.i1] && [p.i2, p.i1][1..] == [p.i1];
    if e4.present {
      assert TableAt(m, root, Upper(p)) == TableAt(m, e4.frame, [p.i2, p.i1]);
      assert TableOK(m, owner, e4.frame) && EntryOK(m[e4.frame][p.i2], owner, owner[e4.frame], p.i2);
      var e3 := m[e4.frame][p.i2];
      if e3.present {
        assert TableAt(m, e4.frame, [p.i2, p.i1]) == TableAt(m, e3.frame, [p.i1]);
        assert TableOK(m, owner, e3.frame) && EntryOK(m[e3.frame][p.i1], owner, owner[e3.frame], p.i1);
        assert TableAt(m, e3.frame, [p.i1]) == if m[e3.frame][p.i1].present then Some(m[e3.frame][p.i1].frame) else None;
      }
    }
  }

  /** x86MapAddress on the leaf entries the processor finds. */
  lemma MapLeaf(m: Memory, pool: seq<u64>, root: nat, f: u64, h: u64, p: Page, q: Page)
    requires WellFormed(m, pool, root) && |pool| >= 3 && p.Valid() && q.Valid()
    ensures var r := MapPage(m, pool, root, f, h, p);
            && (r.status == Success <==> FindLeaf(m, root, p) == NoLeaf)
            && (r.status != Success ==> r.mem == m)
            && (r.status == Success ==>
                  FindLeaf(r.mem, root, q) ==
                    if q == p then Leaf(Mapping(f, h), 1, true) else FindLeaf(m, root, q))
  {
    var r := MapPage(m, pool, root, f, h, p);
    MapRefines(m, pool, root, f, h, p);
    LeafIsView(m, pool, root, p);
    LeafIsView(m, pool, root, q);
    LeafIsView(r.mem, r.pool, root, q);
  }

  /** Nothing is lost by seeing a raw entry through its fields. */
  lemma DecodeFaithful(raw: u64)
    ensures Encode(Decode(raw)) == raw
    ensures Decode(raw).frame == FrameOf(raw) && Decode(raw).high == HighOf(raw)
  {
    DivDiv(raw, 2, 2);
    DivDiv(raw, 4, 32);
    DivDiv(raw, 128, 2);
    DivDiv(raw, 256, 16);
    DivDiv(raw, 0x1000, 0x100_0000_0000);
    QuotientUnique(Decode(raw).flags, 32, raw / 256 % 16, raw / 4 % 32);
  }

  function PageAlign(a: u64): u64 { a - a % 0x1000 }

  lemma FrameIsAligned(a: u64)
    ensures FrameOf(a) * 0x1000 == PageAlign(a) % 0x10_0000_0000_0000
  {
    DivDiv(a, 0x1000, 0x100_0000_0000);
    var b := PageAlign(a);
    assert b / 0x1000 == a / 0x1000 && b % 0x1000 == 0;
    DivDiv(b, 0x1000, 0x100_0000_0000);
  }

  /**
   x86MapAddress seen through the processor's walk: it succeeds exactly when the address faults,
   afterwards the page translates to the frame of the physical address, writable, and every
   address in another page translates as before.  PageOfInjective and FrameIsAligned say what
   page and frame are.
   */
  lemma MapTranslates(m: Memory, pool: seq<u64>, root: nat, physical: u64, virt: u64, a: u64)
    requires WellFormed(m, pool, root) && |pool| >= 3
    ensures var r := MapStep(m, pool, root, physical, virt);
            && (r.status == Success <==> Walk(m, root, virt) == Fault)
            && (r.status != Success ==> r.mem == m)
            && (r.status == Success ==>
                  Walk(r.mem, root, a) ==
                    if PageOf(a) == PageOf(virt) then Mapped(FrameOf(physical) * 0x1000 + a % 0x1000, true)
                    else Walk(m, root, a))
  {
    MapLeaf(m, pool, root, FrameOf(physical), HighOf(physical), PageOf(virt), PageOf(a));
  }

  // ----- a range of pages

  /** The address of page `k` of a range that starts at `base`. */
  function PageAddress(base: u64, k: nat): u64 { Wrap64(base + 0x1000 * k) }

  /** `n` calls of x86MapAddress on consecutive pages, stopping at the first that fails. */
  function MapRange(m: Memory, pool: seq<u64>, root: nat, physical: u64, virt: u64, n: nat): Outcome
    decreases n
  {
    if n == 0 then Outcome(m, pool, Success)
    else
      var r := MapRange(m, pool, root, physical, virt, n - 1);
      if r.status != Success then r
      else MapStep(r.mem, r.pool, root, PageAddress(physical, n - 1), PageAddress(virt, n - 1))
  }

  lemma WrapPage(base: u64, k: nat)
    ensures PageAddress(base, k) % 0x1_0000_0000_0000 / 0x1000 == (base / 0x1000 + k) % 0x10_0000_0000
  {
    var x := base + 0x1000 * k;
    DivDiv(x, 0x1_0000_0000_0000, 0x1_0000);
    var y := Wrap64(x);
    assert y == x % 0x1_0000_0000_0000 + 0x1_0000_0000_0000 * (x / 0x1_0000_0000_0000 % 0x1_0000);
    QuotientUnique(y, 0x1_0000_0000_0000, x / 0x1_0000_0000_0000 % 0x1_0000, x % 0x1_0000_0000_0000);
    DivDiv(x, 0x1000, 0x10_0000_0000);
    QuotientUnique(x, 0x1000, base / 0x1000 + k, base % 0x1000);
    QuotientUnique(y % 0x1_0000_0000_0000, 0x1000, x / 0x1000 % 0x10_0000_0000, x % 0x1000);
  }

  /** The pages of a range of at most 2^36 pages are pairwise distinct, wrap-around included. */
  lemma RangeDistinct(base: u64, j: nat, k: nat)
    requires j < k < 0x10_0000_0000
    ensures PageOf(PageAddress(base, j)) != PageOf(PageAddress(base, k))
  {
    PageOfInjective(PageAddress(base, j), PageAddress(base, k));
    WrapPage(base, j);
    WrapPage(base, k);
    ModDistinct(base / 0x1000 + j, base / 0x1000 + k, 0x10_0000_0000);
  }

  /** The pages of a range, and the entries they receive. */
  function RangePages(virt: u64, n: nat): (ps: seq<Page>)
    ensures |ps| == n
  {
    seq(n, k requires 0 <= k => PageOf(PageAddress(virt, k)))
  }

  function RangeEntries(physical: u64, n: nat): (es: seq<Entry>)
    ensures |es| == n
  {
    seq(n, k requires 0 <= k => Mapping(FrameOf(PageAddress(physical, k)), HighOf(PageAddress(physical, k))))
  }

  /** `v'` is `v` with the pages `ps` mapped to `es` and nothing else changed. */
  ghost predicate Added(v: imap<Page, Entry>, v': imap<Page, Entry>, ps: seq<Page>, es: seq<Entry>)
    requires |ps| == |es|
  {
    && (forall k :: 0 <= k < |ps| ==> ps[k] in v' && v'[ps[k]] == es[k])
    && (forall p :: p !in ps ==> (p in v' <==> p in v) && (p in v ==> v'[p] == v[p]))
  }

  lemma AddOne(v: imap<Page, Entry>, v': imap<Page, Entry>, ps: seq<Page>, es: seq<Entry>, p: Page, e: Entry)
    requires |ps| == |es| && Added(v, v', ps, es) && p !in ps
    ensures Added(v, v'[p := e], ps + [p], es + [e])
  {
    assert forall q :: q !in ps + [p] ==> q !in ps && q != p;
  }

  lemma RangeStep(
    v: imap<Page, Entry>, m: Memory, pool: seq<u64>, root: nat, physical: u64, virt: u64, n: nat)
    requires WellFormed(m, pool, root) && |pool| >= 3 && n < 0x10_0000_0000
    requires Added(v, View(m, root), RangePages(virt, n), RangeEntries(physical, n))
    requires PageOf(PageAddress(virt, n)) !in v
    ensures var r := MapStep(m, pool, root, PageAddress(physical, n), PageAddress(virt, n));
            && r.status == Success && WellFormed(r.mem, r.pool, root) && |r.pool| >= |pool| - 3
            && Added(v, View(r.mem, root), RangePages(virt, n + 1), RangeEntries(physical, n + 1))
  {
    var f, p := PageAddress(physical, n), PageOf(PageAddress(virt, n));
    var ps, es := RangePages(virt, n), RangeEntries(physical, n);
    forall k | 0 <= k < n
      ensures ps[k] != p
    {
      RangeDistinct(virt, k, n);
    }
    assert RangePages(virt, n + 1) == ps + [p];
    assert RangeEntries(physical, n + 1) == es + [Mapping(FrameOf(f), HighOf(f))];
    MapRefines(m, pool, root, FrameOf(f), HighOf(f), p);
    AddOne(v, View(m, root), ps, es, p, Mapping(FrameOf(f), HighOf(f)));
  }

  /**
   When no page of a range is mapped, mapping its pages one after the other cannot fail and
   adds exactly those pages: what the transaction in MmKernelAllocPages is meant to commit.
   */
  lemma {:induction false} RangeCommits(
    m: Memory, pool: seq<u64>, root: nat, physical: u64, virt: u64, n: nat)
    requires WellFormed(m, pool, root) && |pool| >= 3 * n && n <= 0x10_0000_0000
    requires forall p :: p in RangePages(virt, n) ==> p !in View(m, root)
    ensures var r := MapRange(m, pool, root, physical, virt, n);
            && r.status == Success && WellFormed(r.mem, r.pool, root) && |r.pool| >= |pool| - 3 * n
            && Added(View(m, root), View(r.mem, root), RangePages(virt, n), RangeEntries(physical, n))
    decreases n
  {
    if n > 0 {
      assert RangePages(virt, n) == RangePages(virt, n - 1) + [PageOf(PageAddress(virt, n - 1))];
      RangeCommits(m, pool, root, physical, virt, n - 1);
      var r := MapRange(m, pool, root, physical, virt, n - 1);
      RangeStep(View(m, root), r.mem, r.pool, root, physical, virt, n - 1);
    }
  }
}
