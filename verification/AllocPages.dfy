/**
 MmKernelAllocPages (kern/arch/x86_64/mm/paging.c:392-464): two check loops, then a commit loop.
 As written the commit loop maps the same page every time and no frame is marked used.
 */
module AllocPages {
  import opened Words
  import opened Quotients
  import opened PageTables
  import opened PageTableProofs
  import opened Addresses
  import opened Validation
  import opened AddressSpaces
  import opened FrameBitmap
  import opened FrameManagers

  /** The second check: x86ValidateVirtualAddress reports none of the pages as in use. */
  ghost predicate ReportedFree(m: Memory, root: nat, virt: u64, n: nat) {
    forall k :: 0 <= k < n ==> !ReportsInUse(m, root, PageOf(PageAddress(virt, k)))
  }

  /** The first check: every frame of the physical range is within memory and not in use. */
  ghost predicate FramesFree(used: set<nat>, frameSize: u64, maxPAddr: u64, physical: u64, n: nat)
    requires frameSize > 0
  {
    forall k :: 0 <= k < n ==>
      PageAddress(physical, k) <= maxPAddr && FrameIndex(PageAddress(physical, k), frameSize) !in used
  }

  /** The commit loop as written: the page index is not added. */
  function Commit(m: Memory, pool: seq<u64>, root: nat, physical: u64, virt: u64, n: nat): Outcome
    decreases n
  {
    if n == 0 then Outcome(m, pool, Success)
    else
      var r := MapStep(m, pool, root, physical, virt);
      if r.status != Success then r else Commit(r.mem, r.pool, root, physical, virt, n - 1)
  }

  /** MmKernelAllocPages, given the verdict of the first check. */
  ghost function AllocStep(
    m: Memory, pool: seq<u64>, root: nat, framesFree: bool, physical: u64, virt: u64, n: nat): Outcome
  {
    if !framesFree || !ReportedFree(m, root, virt, n) then Outcome(m, pool, MemoryPageConflict)
    else Commit(m, pool, root, physical, virt, n)
  }

  /** The default virtual address is the physical one seen through KERN_PHYS_TO_VIRT. */
  function BaseOf(physical: u64, virt: u64): u64 {
    if virt == 0 then Wrap64(physical + 0xFFFF_FF80_0000_0000) else virt
  }

  /** Mapping one page again and again: the second time it always fails. */
  lemma CommitRepeats(m: Memory, pool: seq<u64>, root: nat, physical: u64, virt: u64, n: nat)
    requires WellFormed(m, pool, root) && |pool| >= 6
    ensures var r := Commit(m, pool, root, physical, virt, n);
            var p := PageOf(virt);
            && WellFormed(r.mem, r.pool, root)
            && (n == 0 ==> r == Outcome(m, pool, Success))
            && (n > 0 && p in View(m, root) ==> r == Outcome(m, pool, MemoryPageFailure))
            && (n > 0 && p !in View(m, root) ==>
                  View(r.mem, root) == View(m, root)[p := Mapping(FrameOf(physical), HighOf(physical))] &&
                  r.status == if n == 1 then Success else MemoryPageFailure)
  {
    if n > 0 {
      var r := MapStep(m, pool, root, physical, virt);
      MapRefines(m, pool, root, FrameOf(physical), HighOf(physical), PageOf(virt));
      if r.status == Success && n > 1 {
        MapRefines(r.mem, r.pool, root, FrameOf(physical), HighOf(physical), PageOf(virt));
        assert Commit(r.mem, r.pool, root, physical, virt, n - 1) == Outcome(r.mem, r.pool, MemoryPageFailure);
      }
    }
  }

  /** What the comment in the code demands: commit all the pages, or fail and commit nothing. */
  ghost predicate AllOrNothing(m: Memory, r: Outcome, root: nat, physical: u64, virt: u64, n: nat) {
    if r.status == Success
    then Added(View(m, root), View(r.mem, root), RangePages(virt, n), RangeEntries(physical, n))
    else View(r.mem, root) == View(m, root)
  }

  lemma CommitExact(m: Memory, r: Outcome, root: nat, physical: u64, virt: u64, n: nat)
    requires var p, e := PageOf(virt), Mapping(FrameOf(physical), HighOf(physical));
             && (n == 0 ==> r.mem == m && r.status == Success)
             && (n > 0 && p in View(m, root) ==> r.mem == m && r.status == MemoryPageFailure)
             && (n > 0 && p !in View(m, root) ==>
                   View(r.mem, root) == View(m, root)[p := e] &&
                   r.status == if n == 1 then Success else MemoryPageFailure)
    ensures AllOrNothing(m, r, root, physical, virt, n) <==> n <= 1 || PageOf(virt) in View(m, root)
  {
    var p, e := PageOf(virt), Mapping(FrameOf(physical), HighOf(physical));
    if n == 1 && p !in View(m, root) {
      AddedOne(View(m, root), View(r.mem, root), physical, virt);
    } else if n > 1 && p !in View(m, root) {
      assert p in View(r.mem, root);
    }
  }

  lemma AddedOne(v: imap<Page, Entry>, v': imap<Page, Entry>, physical: u64, virt: u64)
    requires v' == v[PageOf(virt) := Mapping(FrameOf(physical), HighOf(physical))]
    ensures Added(v, v', RangePages(virt, 1), RangeEntries(physical, 1))
  {
    assert PageAddress(virt, 0) == virt && PageAddress(physical, 0) == physical;
    assert RangePages(virt, 1) == [PageOf(virt)];
    assert RangeEntries(physical, 1) == [Mapping(FrameOf(physical), HighOf(physical))];
  }

  /**
   The code is all-or-nothing exactly when at most one page is asked for, or a check refuses the
   request, or the first page is mapped after all.  In every other case it fails and leaves one
   page mapped.
   */
  lemma TransactionExact(
    m: Memory, pool: seq<u64>, root: nat, framesFree: bool, physical: u64, virt: u64, n: nat)
    requires WellFormed(m, pool, root) && |pool| >= 6
    ensures var r := AllocStep(m, pool, root, framesFree, physical, virt, n);
            && (AllOrNothing(m, r, root, physical, virt, n) <==>
                n <= 1 || !framesFree || !ReportedFree(m, root, virt, n) || PageOf(virt) in View(m, root))
            && (r.status == Success <==>
                framesFree && ReportedFree(m, root, virt, n) && (n == 0 || (n == 1 && PageOf(virt) !in View(m, root))))
            && (r.status == MemoryPageConflict <==> !framesFree || !ReportedFree(m, root, virt, n))
            && (r.status == MemoryPageConflict ==> r.mem == m && r.pool == pool)
            && WellFormed(r.mem, r.pool, root)
  {
    CommitRepeats(m, pool, root, physical, virt, n);
    var r := AllocStep(m, pool, root, framesFree, physical, virt, n);
    if r.status != MemoryPageConflict {
      CommitExact(m, r, root, physical, virt, n);
    }
  }

  // ----- the transaction as meant

  /** The checks with the table pointer as meant, and the commit with the page index added. */
  ghost function MeantStep(
    m: Memory, pool: seq<u64>, root: nat, framesFree: bool, physical: u64, virt: u64, n: nat): Outcome
  {
    if !framesFree || (exists k :: 0 <= k < n && MeantInUse(m, root, PageOf(PageAddress(virt, k))))
    then Outcome(m, pool, MemoryPageConflict)
    else MapRange(m, pool, root, physical, virt, n)
  }

  lemma MeantCheck(m: Memory, root: nat, virt: u64, n: nat)
    ensures (exists k :: 0 <= k < n && MeantInUse(m, root, PageOf(PageAddress(virt, k)))) <==>
            (exists p :: p in RangePages(virt, n) && p in View(m, root))
  {
    var ps := RangePages(virt, n);
    forall k | 0 <= k < n
      ensures MeantInUse(m, root, PageOf(PageAddress(virt, k))) <==> ps[k] in View(m, root)
    {
      MeantIsView(m, root, ps[k]);
    }
    if p :| p in ps && p in View(m, root) {
      var k :| 0 <= k < n && ps[k] == p;
    }
    if k :| 0 <= k < n && MeantInUse(m, root, PageOf(PageAddress(virt, k))) {
      assert ps[k] in ps;
    }
  }

  lemma {:induction false} FailureStays(
    m: Memory, pool: seq<u64>, root: nat, physical: u64, virt: u64, k: nat, n: nat)
    requires k <= n && MapRange(m, pool, root, physical, virt, k).status != Success
    ensures MapRange(m, pool, root, physical, virt, n) == MapRange(m, pool, root, physical, virt, k)
    decreases n
  {
    if k < n {
      FailureStays(m, pool, root, physical, virt, k, n - 1);
    }
  }

  /** The number of pages of an address space. */
  const ALL_PAGES: nat := 0x10_0000_0000

  /** The page after the last one is the first again. */
  lemma PagesRecur(virt: u64, last: nat)
    requires last == ALL_PAGES
    ensures PageOf(PageAddress(virt, last)) == PageOf(PageAddress(virt, 0))
  {
    var b := virt / 0x1000;
    QuotientUnique(b + last, ALL_PAGES, b / ALL_PAGES + 1, b % ALL_PAGES);
    WrapPage(virt, 0);
    WrapPage(virt, last);
    PageOfInjective(PageAddress(virt, last), PageAddress(virt, 0));
  }

  /** The pass after the last page of the address space is refused. */
  lemma RangeRefused(m: Memory, pool: seq<u64>, root: nat, physical: u64, virt: u64)
    requires WellFormed(m, pool, root) && |pool| >= 3 * ALL_PAGES + 3
    requires forall p :: p in RangePages(virt, ALL_PAGES) ==> p !in View(m, root)
    ensures var r := MapRange(m, pool, root, physical, virt, ALL_PAGES + 1);
            r.status == MemoryPageFailure && RangePages(virt, ALL_PAGES)[0] in View(r.mem, root)
  {
    RangeCommits(m, pool, root, physical, virt, ALL_PAGES);
    var r := MapRange(m, pool, root, physical, virt, ALL_PAGES);
    var f, p := PageAddress(physical, ALL_PAGES), PageOf(PageAddress(virt, ALL_PAGES));
    PagesRecur(virt, ALL_PAGES);
    assert RangePages(virt, ALL_PAGES)[0] == p;
    MapRefines(r.mem, r.pool, root, FrameOf(f), HighOf(f), p);
  }

  /** More pages than there are: the range fails and leaves pages mapped. */
  lemma RangeTooLong(m: Memory, pool: seq<u64>, root: nat, physical: u64, virt: u64, n: nat)
    requires WellFormed(m, pool, root) && |pool| >= 3 * n && n > ALL_PAGES
    requires forall p :: p in RangePages(virt, n) ==> p !in View(m, root)
    ensures var r := MapRange(m, pool, root, physical, virt, n);
            r.status == MemoryPageFailure && View(r.mem, root) != View(m, root)
  {
    var ps, qs := RangePages(virt, ALL_PAGES), RangePages(virt, n);
    assert forall k :: 0 <= k < ALL_PAGES ==> ps[k] == qs[k];
    assert forall p :: p in ps ==> p in qs;
    RangeRefused(m, pool, root, physical, virt);
    FailureStays(m, pool, root, physical, virt, ALL_PAGES + 1, n);
    assert ps[0] in ps;
  }

  /**
   As meant it succeeds exactly when the frames are free and no page of the range is mapped, and
   it is all-or-nothing exactly when it is refused or asks for no more pages than an address space
   has.
   */
  lemma MeantTransaction(
    m: Memory, pool: seq<u64>, root: nat, framesFree: bool, physical: u64, virt: u64, n: nat)
    requires WellFormed(m, pool, root) && |pool| >= 3 * n
    ensures var r := MeantStep(m, pool, root, framesFree, physical, virt, n);
            var unmapped := forall p :: p in RangePages(virt, n) ==> p !in View(m, root);
            && (r.status == Success <==> framesFree && unmapped && n <= ALL_PAGES)
            && (r.status == MemoryPageConflict <==> !framesFree || !unmapped)
            && (AllOrNothing(m, r, root, physical, virt, n) <==> !framesFree || !unmapped || n <= ALL_PAGES)
  {
    MeantCheck(m, root, virt, n);
    if framesFree && forall p :: p in RangePages(virt, n) ==> p !in View(m, root) {
      if n <= ALL_PAGES {
        RangeCommits(m, pool, root, physical, virt, n);
      } else {
        RangeTooLong(m, pool, root, physical, virt, n);
      }
    }
  }

  /** Two pages asked of an empty PML4 and free memory: one page is left mapped behind a failure. */
  lemma TwoPagesLeaveOne(m: Memory, pool: seq<u64>, root: nat, physical: u64, virt: u64)
    requires root in m && m[root] == ZeroTable() && PoolOK(pool, map[root := []]) && |pool| >= 6
    ensures var r := AllocStep(m, pool, root, true, physical, virt, 2);
            && r.status == MemoryPageFailure && !AllOrNothing(m, r, root, physical, virt, 2)
            && View(r.mem, root) == imap[PageOf(virt) := Mapping(FrameOf(physical), HighOf(physical))]
  {
    EmptyWellFormed(m, pool, root);
    assert ReportedFree(m, root, virt, 2);
    CommitRepeats(m, pool, root, physical, virt, 2);
    CommitExact(m, AllocStep(m, pool, root, true, physical, virt, 2), root, physical, virt, 2);
  }

  /**
   One page has been added, through the processor's walk: the addresses of the page of `virt`
   translate, writable, into the page of `physical`, and every other address as before.
   */
  ghost predicate OnePageAdded(m: Memory, m': Memory, root: nat, physical: u64, virt: nat) {
    forall a: u64 ::
      Walk(m', root, a) ==
      if a % 0x1_0000_0000_0000 / 0x1000 == virt % 0x1_0000_0000_0000 / 0x1000
      then Mapped(physical / 0x1000 % 0x100_0000_0000 * 0x1000 + a % 0x1000, true)
      else Walk(m, root, a)
  }

  lemma OnePage(m: Memory, pool: seq<u64>, root: nat, framesFree: bool, physical: u64, virt: u64)
    requires WellFormed(m, pool, root) && |pool| >= 6
    requires AllocStep(m, pool, root, framesFree, physical, virt, 1).status == Success
    ensures OnePageAdded(m, AllocStep(m, pool, root, framesFree, physical, virt, 1).mem, root, physical, virt)
  {
    var r := MapStep(m, pool, root, physical, virt);
    assert Commit(r.mem, r.pool, root, physical, virt, 0) == Outcome(r.mem, r.pool, Success);
    forall a: u64
      ensures Walk(r.mem, root, a) ==
              if a % 0x1_0000_0000_0000 / 0x1000 == virt % 0x1_0000_0000_0000 / 0x1000
              then Mapped(physical / 0x1000 % 0x100_0000_0000 * 0x1000 + a % 0x1000, true)
              else Walk(m, root, a)
    {
      MapTranslates(m, pool, root, physical, virt, a);
      PageOfInjective(a, virt);
    }
  }

  lemma DefaultBase(physical: u64)
    ensures BaseOf(physical, 0) == (physical + 0xFFFF_FF80_0000_0000) % 0x1_0000_0000_0000_0000
    ensures physical < 0x4000_0000 ==> BaseOf(physical, 0) == physical + 0xFFFF_FF80_0000_0000
  {
  }

  /** The default address of a page in the first gigabyte shows that page. */
  lemma DefaultShows(m: Memory, m': Memory, root: nat, physical: u64)
    requires physical < 0x4000_0000 && OnePageAdded(m, m', root, physical, BaseOf(physical, 0))
    ensures Walk(m', root, physical + 0xFFFF_FF80_0000_0000) == Mapped(physical, true)
  {
    DefaultBase(physical);
    var a: u64 := physical + 0xFFFF_FF80_0000_0000;
    assert a % 0x1000 == physical % 0x1000 by {
      QuotientUnique(a, 0x1000, physical / 0x1000 + 0xF_FFFF_F800_0000, physical % 0x1000);
    }
    assert physical / 0x1000 % 0x100_0000_0000 == physical / 0x1000;
  }

  /**
   What a success means: at most one page was asked for; the address reported is the one asked for
   or, for a null pointer, the physical address with KERN_VIRT_OFFSET added; there the page has
   been added, so that a null pointer shows the first gigabyte at that offset.
   */
  ghost predicate Allocated(
    m: Memory, m': Memory, root: nat, pages: u64, physical: u64, baseVAddr: u64, address: u64)
  {
    && pages <= 1
    && address == (if baseVAddr == 0 then (physical + 0xFFFF_FF80_0000_0000) % 0x1_0000_0000_0000_0000 else baseVAddr)
    && (pages == 1 ==> OnePageAdded(m, m', root, physical, address))
    && (pages == 1 && baseVAddr == 0 && physical < 0x4000_0000 ==>
          Walk(m', root, physical + 0xFFFF_FF80_0000_0000) == Mapped(physical, true))
  }

  lemma AllocatedIs(m: Memory, m': Memory, root: nat, pages: u64, physical: u64, baseVAddr: u64, virt: u64)
    requires virt == BaseOf(physical, baseVAddr) && pages <= 1
    requires pages == 1 ==> OnePageAdded(m, m', root, physical, virt)
    ensures Allocated(m, m', root, pages, physical, baseVAddr, virt)
  {
    DefaultBase(physical);
    if pages == 1 && baseVAddr == 0 && physical < 0x4000_0000 {
      DefaultShows(m, m', root, physical);
    }
  }

  lemma AllocatedAt(
    m: Memory, pool: seq<u64>, root: nat, framesFree: bool, physical: u64, baseVAddr: u64, pages: u64, virt: u64)
    requires WellFormed(m, pool, root) && |pool| >= 6 && virt == BaseOf(physical, baseVAddr)
    requires AllocStep(m, pool, root, framesFree, physical, virt, pages).status == Success
    ensures Allocated(m, AllocStep(m, pool, root, framesFree, physical, virt, pages).mem, root, pages, physical, baseVAddr, virt)
  {
    TransactionExact(m, pool, root, framesFree, physical, virt, pages);
    if pages == 1 {
      OnePage(m, pool, root, framesFree, physical, virt);
    }
    AllocatedIs(m, AllocStep(m, pool, root, framesFree, physical, virt, pages).mem, root, pages, physical, baseVAddr, virt);
  }

  /** MmKernelAllocPages.  A base of 0 stands for the null pointer. */
  method KernelAllocPages(
    space: AddressSpace, frames: FrameManager, pages: u64, pml4: nat, physical: u64, baseVAddr: u64)
    returns (status: Status, result: Option<u64>)
    requires space.Valid(pml4) && frames.Valid() && |space.pool| >= 6
    modifies space
    ensures var free := FramesFree(frames.Used(), frames.frameSize, frames.maxPAddr, physical, pages);
            Outcome(space.mem, space.pool, status) ==
            AllocStep(old(space.mem), old(space.pool), pml4, free, physical, BaseOf(physical, baseVAddr), pages)
    ensures space.Valid(pml4)
    ensures result.Some? <==> status == Success
    ensures status == Success ==>
              Allocated(old(space.mem), space.mem, pml4, pages, physical, baseVAddr, result.value)
  {
    ghost var m, pool := space.mem, space.pool;
    ghost var free := FramesFree(frames.Used(), frames.frameSize, frames.maxPAddr, physical, pages);
    var virt;
    status, virt := CheckAndCommit(space, frames, pages, pml4, physical, baseVAddr);
    if status == Success {
      AllocatedAt(m, pool, pml4, free, physical, baseVAddr, pages, virt);
      return status, Some(virt);
    }
    return status, None;
  }

  /** The checks and the commit of MmKernelAllocPages, and the address they were made for. */
  method CheckAndCommit(
    space: AddressSpace, frames: FrameManager, pages: u64, pml4: nat, physical: u64, baseVAddr: u64)
    returns (status: Status, virt: u64)
    requires space.Valid(pml4) && frames.Valid() && |space.pool| >= 6
    modifies space
    ensures virt == BaseOf(physical, baseVAddr)
    ensures var free := FramesFree(frames.Used(), frames.frameSize, frames.maxPAddr, physical, pages);
            Outcome(space.mem, space.pool, status) ==
            AllocStep(old(space.mem), old(space.pool), pml4, free, physical, virt, pages)
    ensures space.Valid(pml4)
  {
    virt := BaseOf(physical, baseVAddr);
    ghost var free := FramesFree(frames.Used(), frames.frameSize, frames.maxPAddr, physical, pages);
    TransactionExact(space.mem, space.pool, pml4, free, physical, virt, pages);
    var framesFree := CheckFrames(frames, pages, physical);
    if !framesFree {
      return MemoryPageConflict, virt;
    }
    var pagesFree := CheckPages(space, pages, pml4, virt);
    if !pagesFree {
      return MemoryPageConflict, virt;
    }
    status := CommitPages(space, pages, pml4, physical, virt);
  }

  /** The first check loop. */
  method CheckFrames(frames: FrameManager, pages: u64, physical: u64) returns (free: bool)
    requires frames.Valid()
    ensures free == FramesFree(frames.Used(), frames.frameSize, frames.maxPAddr, physical, pages)
  {
    var index: u64 := 0;
    while index < pages
      invariant index <= pages
      invariant FramesFree(frames.Used(), frames.frameSize, frames.maxPAddr, physical, index)
    {
      var status, inUse := frames.LookupPhysFrame(PageAddress(physical, index), false);
      if inUse || status != Success {
        assert !(PageAddress(physical, index) <= frames.maxPAddr &&
                 FrameIndex(PageAddress(physical, index), frames.frameSize) !in frames.Used());
        return false;
      }
      index := index + 1;
    }
    return true;
  }

  /** The second check loop. */
  method CheckPages(space: AddressSpace, pages: u64, pml4: nat, virt: u64) returns (free: bool)
    ensures free == ReportedFree(space.mem, pml4, virt, pages)
  {
    var index: u64 := 0;
    while index < pages
      invariant index <= pages
      invariant ReportedFree(space.mem, pml4, virt, index)
    {
      var status, unavailable := space.ValidateVirtualAddress(Some(pml4), PageAddress(virt, index), false);
      if unavailable {
        return false;
      }
      index := index + 1;
    }
    return true;
  }

  /** The commit loop of MmKernelAllocPages. */
  method CommitPages(space: AddressSpace, pages: u64, pml4: nat, physical: u64, virt: u64) returns (status: Status)
    requires space.Valid(pml4) && |space.pool| >= 6
    modifies space
    ensures Outcome(space.mem, space.pool, status) ==
            Commit(old(space.mem), old(space.pool), pml4, physical, virt, pages)
    ensures space.Valid(pml4)
  {
    ghost var m, pool := space.mem, space.pool;
    var index: u64 := 0;
    while index < pages
      invariant index <= pages && index <= 1
      invariant space.Valid(pml4)
      invariant if index == 0 then space.mem == m && space.pool == pool
                else Outcome(space.mem, space.pool, Success) == MapStep(m, pool, pml4, physical, virt)
      invariant |space.pool| >= if index == 0 then 6 else 3
      invariant index > 0 ==> PageOf(virt) in View(space.mem, pml4)
    {
      status := space.MapAddress(pml4, physical, virt);
      if status != Success {
        return;
      }
      index := index + 1;
    }
    return Success;
  }
}
