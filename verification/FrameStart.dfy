/**
 KiInitializeMemMgr (kern/mm/mmsetup.c:105-132): the bitmap is zeroed, the frames from the start
 of the kernel are marked, the heap behind the bitmap is zeroed, and heap frames are marked.
 */
module FrameStart {
  import opened Words
  import opened Quotients
  import opened MemFuncs
  import opened FrameBitmap
  import opened FrameManagers

  const HEAP_SIZE: nat := 0x80_0000

  /** How often a loop from `start` below `limit` in steps of `step` runs. */
  function Passes(start: nat, limit: nat, step: nat): nat
    requires step > 0
    decreases limit - start
  {
    if start >= limit then 0 else 1 + Passes(start + step, limit, step)
  }

  /** The address of its last pass. */
  function LastPass(start: nat, limit: nat, step: nat): (last: nat)
    requires step > 0 && start < limit
    ensures start <= last < limit <= last + step
    decreases limit - start
  {
    if start + step >= limit then start else LastPass(start + step, limit, step)
  }

  ghost function Frames(first: nat, count: nat): (fs: set<nat>)
    ensures forall f :: f in fs <==> first <= f < first + count
    decreases count
  {
    if count == 0 then {} else {first} + Frames(first + 1, count - 1)
  }

  /** The next pass of a marking loop touches the next frame. */
  lemma NextFrame(index: u64, frameSize: u64)
    requires frameSize > 0 && index + frameSize < 0x1_0000_0000_0000_0000
    ensures FrameIndex(index + frameSize, frameSize) == FrameIndex(index, frameSize) + 1
  {
    var q := FrameIndex(index, frameSize);
    assert frameSize * (q + 1) == frameSize * q + frameSize;
    QuotientUnique(index + frameSize, frameSize, q + 1, index % frameSize);
  }

  lemma FrameMonotone(a: u64, b: u64, frameSize: u64)
    requires frameSize > 0 && a <= b
    ensures FrameIndex(a, frameSize) <= FrameIndex(b, frameSize)
  {
    var p: int, q: int := FrameIndex(a, frameSize), FrameIndex(b, frameSize);
    assert frameSize * (p - q) == frameSize * p - frameSize * q;
    if p > q {
      MulAtLeast(frameSize, p - q);
    }
  }

  /** The frame of the last pass. */
  lemma {:induction false} LastFrame(start: u64, limit: nat, frameSize: u64)
    requires frameSize > 0 && start < limit && limit + frameSize < 0x1_0000_0000_0000_0000
    ensures FrameIndex(LastPass(start, limit, frameSize), frameSize) + 1
            == FrameIndex(start, frameSize) + Passes(start, limit, frameSize)
    decreases limit - start
  {
    if start + frameSize < limit {
      NextFrame(start, frameSize);
      LastFrame(start + frameSize, limit, frameSize);
    } else {
      assert Passes(start + frameSize, limit, frameSize) == 0;
    }
  }

  /** Whether a marking loop finds every address within memory and every frame free. */
  ghost predicate CanMark(used: set<nat>, frameSize: u64, maxPAddr: u64, start: u64, limit: nat)
    requires frameSize > 0
  {
    start < limit ==>
      && LastPass(start, limit, frameSize) <= maxPAddr
      && forall f :: f in Frames(FrameIndex(start, frameSize), Passes(start, limit, frameSize)) ==> f !in used
  }

  /** The number of passes a marking loop makes before the first one that is refused. */
  ghost function Marked(used: set<nat>, frameSize: u64, maxPAddr: u64, start: nat, limit: nat): nat
    requires frameSize > 0 && limit < 0x1_0000_0000_0000_0000
    decreases limit - start
  {
    if start >= limit || start > maxPAddr || FrameIndex(start, frameSize) in used then 0
    else 1 + Marked(used, frameSize, maxPAddr, start + frameSize, limit)
  }

  /** No pass is refused exactly when every address is within memory and every frame free. */
  lemma {:induction false} MarkedExact(used: set<nat>, frameSize: u64, maxPAddr: u64, start: u64, limit: nat)
    requires frameSize > 0 && limit + frameSize < 0x1_0000_0000_0000_0000
    ensures CanMark(used, frameSize, maxPAddr, start, limit) <==>
            Marked(used, frameSize, maxPAddr, start, limit) == Passes(start, limit, frameSize)
    decreases limit - start
  {
    if start < limit {
      NextFrame(start, frameSize);
      MarkedExact(used, frameSize, maxPAddr, start + frameSize, limit);
      var first, rest := FrameIndex(start, frameSize), Passes(start + frameSize, limit, frameSize);
      assert Frames(first, rest + 1) == {first} + Frames(first + 1, rest);
      assert start + frameSize >= limit ==> rest == 0;
    }
  }

  /** What holds before pass `k` of a marking loop: `used` was, `now` is the set of used frames. */
  ghost predicate Marking(
    used: set<nat>, now: set<nat>, frameSize: u64, maxPAddr: u64, start: u64, limit: nat, index: u64, k: nat)
    requires frameSize > 0 && limit + frameSize < 0x1_0000_0000_0000_0000
  {
    && k + Passes(index, limit, frameSize) == Passes(start, limit, frameSize)
    && k + Marked(used, frameSize, maxPAddr, index, limit) == Marked(used, frameSize, maxPAddr, start, limit)
    && FrameIndex(index, frameSize) == FrameIndex(start, frameSize) + k
    && now == used + Frames(FrameIndex(start, frameSize), k)
  }

  lemma MarkingStep(
    used: set<nat>, now: set<nat>, frameSize: u64, maxPAddr: u64, start: u64, limit: nat, index: u64, k: nat)
    requires frameSize > 0 && limit + frameSize < 0x1_0000_0000_0000_0000 && index < limit
    requires Marking(used, now, frameSize, maxPAddr, start, limit, index, k)
    ensures var (now', status) := AllocateFrame(now, frameSize, maxPAddr, index, true);
            if status == Success
            then Marking(used, now', frameSize, maxPAddr, start, limit, index + frameSize, k + 1)
            else now' == now && Marked(used, frameSize, maxPAddr, start, limit) == k < Passes(start, limit, frameSize)
  {
    var first := FrameIndex(start, frameSize);
    NextFrame(index, frameSize);
    assert Frames(first, k + 1) == Frames(first, k) + {first + k};
  }

  /** One pass of a marking loop. */
  method MarkPass(mm: FrameManager, ghost used: set<nat>, ghost start: u64, limit: nat, index: u64, ghost k: nat)
    returns (ok: bool)
    requires mm.Valid() && limit + mm.frameSize < 0x1_0000_0000_0000_0000 && index < limit
    requires Marking(used, mm.Used(), mm.frameSize, mm.maxPAddr, start, limit, index, k)
    modifies mm.window
    ensures ok ==> Marking(used, mm.Used(), mm.frameSize, mm.maxPAddr, start, limit, index + mm.frameSize, k + 1)
    ensures !ok ==>
              && mm.Used() == old(mm.Used())
              && Marked(used, mm.frameSize, mm.maxPAddr, start, limit) == k < Passes(start, limit, mm.frameSize)
  {
    MarkingStep(used, mm.Used(), mm.frameSize, mm.maxPAddr, start, limit, index, k);
    var status := mm.AllocatePhysFrame(index, true);
    ok := status == Success;
  }

  method MarkLoop(mm: FrameManager, start: u64, limit: nat) returns (ok: bool)
    requires mm.Valid() && limit + mm.frameSize < 0x1_0000_0000_0000_0000
    modifies mm.window
    ensures var marked := Marked(old(mm.Used()), mm.frameSize, mm.maxPAddr, start, limit);
            && (ok <==> marked == Passes(start, limit, mm.frameSize))
            && mm.Used() == old(mm.Used()) + Frames(FrameIndex(start, mm.frameSize), marked)
  {
    ghost var used := mm.Used();
    var index: u64 := start;
    ghost var k := 0;
    while index < limit
      invariant Marking(used, mm.Used(), mm.frameSize, mm.maxPAddr, start, limit, index, k)
      decreases limit - index
    {
      ok := MarkPass(mm, used, start, limit, index, k);
      if !ok {
        return;
      }
      index := index + mm.frameSize;
      k := k + 1;
    }
    return true;
  }

  /**
   A marking loop: from `start` in steps of the frame size below `limit`.  It marks one frame per
   pass, each once, and stops the kernel exactly when an address is beyond memory or a frame is
   already in use; the frames of the passes before stay marked.
   */
  method MarkFrames(mm: FrameManager, start: u64, limit: nat) returns (ok: bool)
    requires mm.Valid() && limit + mm.frameSize < 0x1_0000_0000_0000_0000
    modifies mm.window
    ensures ok <==> CanMark(old(mm.Used()), mm.frameSize, mm.maxPAddr, start, limit)
    ensures ok <==> Marked(old(mm.Used()), mm.frameSize, mm.maxPAddr, start, limit) == Passes(start, limit, mm.frameSize)
    ensures mm.Used() == old(mm.Used()) +
                         Frames(FrameIndex(start, mm.frameSize), Marked(old(mm.Used()), mm.frameSize, mm.maxPAddr, start, limit))
  {
    MarkedExact(mm.Used(), mm.frameSize, mm.maxPAddr, start, limit);
    ok := MarkLoop(mm, start, limit);
  }

  // ----- zeroing

  /** The frames of `used` outside a range. */
  ghost function Dropped(used: set<nat>, from: nat, to: nat): set<nat> {
    set f | f in used && !(from <= f < to)
  }

  /** Zeroing a range of bytes frees the frames of their bits and no others. */
  lemma ZeroedBytes(a: seq<bv8>, b: seq<bv8>, from: nat, to: nat)
    requires |a| == |b| && from <= to <= |a|
    requires forall k :: 0 <= k < |a| ==> b[k] == if from <= k < to then 0 else a[k]
    ensures UsedFrames(b) == Dropped(UsedFrames(a), 8 * from, 8 * to)
  {
    forall f | 0 <= f < 8 * |a|
      ensures IsUsed(b, f) <==> IsUsed(a, f) && !(8 * from <= f < 8 * to)
    {
      assert !Bit(0, f % 8);
    }
  }

  /** KiSetMemoryBytes with zero: the amount is rounded up to a multiple of four. */
  method Zero(window: array<bv8>, at: nat, amount: u64)
    requires at + Round4(amount) <= window.Length && amount + 4 < 0x1_0000_0000_0000_0000
    modifies window
    ensures UsedFrames(window[..]) == Dropped(old(UsedFrames(window[..])), 8 * at, 8 * (at + Round4(amount)))
  {
    ghost var before := window[..];
    SetMemoryBytes(window, at, 0, amount);
    ZeroedBytes(before, window[..], at, at + Round4(amount));
  }

  // ----- the two loops together

  /** Where the heap is put: one frame size behind the end of the first marking loop. */
  function HeapStart(pmm: nat, bufferSize: nat, frameSize: nat): nat { pmm + bufferSize + frameSize }

  /** That the addresses start-up computes do not wrap around. */
  ghost predicate NoWrap(mm: FrameManager, pmm: u64)
    requires mm.Valid()
  {
    && HeapStart(pmm, mm.BufferSize(), mm.frameSize) + mm.frameSize < 0x1_0000_0000_0000_0000
    && HEAP_SIZE + mm.frameSize < 0x1_0000_0000_0000_0000
  }

  /** The frames of all passes of the first loop, from the kernel to the end of the safe area. */
  ghost function KernelFrames(mm: FrameManager, pmm: u64, kernelStart: u64): set<nat>
    requires mm.Valid()
  {
    Frames(FrameIndex(kernelStart, mm.frameSize), Passes(kernelStart, pmm + mm.BufferSize(), mm.frameSize))
  }

  /** The frames of all passes of the second loop, from the heap's start to the address 8 MiB. */
  ghost function HeapFrames(mm: FrameManager, pmm: u64): set<nat>
    requires mm.Valid() && NoWrap(mm, pmm)
  {
    var heap := HeapStart(pmm, mm.BufferSize(), mm.frameSize);
    Frames(FrameIndex(heap, mm.frameSize), Passes(heap, HEAP_SIZE, mm.frameSize))
  }

  /** Of the frames used before start-up, those that zeroing the bitmap leaves. */
  ghost function Stale(mm: FrameManager, used: set<nat>): set<nat>
    requires mm.Valid()
  {
    Dropped(used, 0, 8 * Round4(mm.BufferSize()))
  }

  /** The used frames when the heap, which begins where the bitmap ends, has been zeroed. */
  ghost function BeforeHeap(mm: FrameManager, used: set<nat>, pmm: u64, kernelStart: u64): set<nat>
    requires mm.Valid()
  {
    Dropped(Stale(mm, used) + KernelFrames(mm, pmm, kernelStart),
            8 * mm.BufferSize(), 8 * (mm.BufferSize() + HEAP_SIZE))
  }

  /** Whether the first, and then the second loop refuses no pass. */
  ghost predicate KernelMarks(mm: FrameManager, used: set<nat>, pmm: u64, kernelStart: u64)
    requires mm.Valid()
  {
    CanMark(Stale(mm, used), mm.frameSize, mm.maxPAddr, kernelStart, pmm + mm.BufferSize())
  }

  ghost predicate HeapMarks(mm: FrameManager, used: set<nat>, pmm: u64, kernelStart: u64)
    requires mm.Valid() && NoWrap(mm, pmm)
  {
    CanMark(BeforeHeap(mm, used, pmm, kernelStart), mm.frameSize, mm.maxPAddr,
            HeapStart(pmm, mm.BufferSize(), mm.frameSize), HEAP_SIZE)
  }

  /** The used frames when start-up is over, or has stopped the kernel. */
  ghost function AfterStart(mm: FrameManager, used: set<nat>, pmm: u64, kernelStart: u64): set<nat>
    requires mm.Valid() && NoWrap(mm, pmm)
  {
    var fs, max := mm.frameSize, mm.maxPAddr;
    if !KernelMarks(mm, used, pmm, kernelStart) then
      var u := Stale(mm, used);
      u + Frames(FrameIndex(kernelStart, fs), Marked(u, fs, max, kernelStart, pmm + mm.BufferSize()))
    else
      var u, heap := BeforeHeap(mm, used, pmm, kernelStart), HeapStart(pmm, mm.BufferSize(), fs);
      u + Frames(FrameIndex(heap, fs), Marked(u, fs, max, heap, HEAP_SIZE))
  }

  /** KiInitializeMemMgr from the zeroing of the bitmap on; `ok` says that the kernel was not stopped. */
  method InitializeFrames(mm: FrameManager, pmm: u64, kernelStart: u64) returns (ok: bool)
    requires mm.Valid() && NoWrap(mm, pmm) && mm.window.Length >= mm.BufferSize() + HEAP_SIZE
    modifies mm.window
    ensures ok <==> KernelMarks(mm, old(mm.Used()), pmm, kernelStart) && HeapMarks(mm, old(mm.Used()), pmm, kernelStart)
    ensures mm.Used() == AfterStart(mm, old(mm.Used()), pmm, kernelStart)
    ensures ok ==> Started(mm.Used(), mm.frameSize, mm.maxPAddr / (8 * mm.frameSize), pmm, kernelStart)
    ensures ok && mm.frameSize == 0x1000 ==>
              forall f :: (pmm + mm.maxPAddr / 0x8000 + 0x1000) / 0x1000 <= f < 0x800 ==> f in mm.Used()
    ensures KernelMarks(mm, old(mm.Used()), pmm, kernelStart) ==>
              HeapZeroed(mm.Used(), mm.frameSize, mm.maxPAddr / (8 * mm.frameSize), pmm)
  {
    ghost var used := mm.Used();
    if KernelMarks(mm, used, pmm, kernelStart) {
      ZeroedInNumbers(mm, used, pmm, kernelStart);
      if HeapMarks(mm, used, pmm, kernelStart) {
        StartInNumbers(mm, used, pmm, kernelStart);
        HeapInPages(AfterStart(mm, used, pmm, kernelStart), mm.frameSize, mm.BufferSize(), pmm, kernelStart);
      }
    }
    ok := ZeroAndMark(mm, pmm, kernelStart);
  }

  /** The statements of KiInitializeMemMgr. */
  method ZeroAndMark(mm: FrameManager, pmm: u64, kernelStart: u64) returns (ok: bool)
    requires mm.Valid() && NoWrap(mm, pmm) && mm.window.Length >= mm.BufferSize() + HEAP_SIZE
    modifies mm.window
    ensures ok <==> KernelMarks(mm, old(mm.Used()), pmm, kernelStart) && HeapMarks(mm, old(mm.Used()), pmm, kernelStart)
    ensures mm.Used() == AfterStart(mm, old(mm.Used()), pmm, kernelStart)
  {
    ghost var used := mm.Used();
    var bufferSize := mm.BufferSize();
    mm.BitmapFits();
    Zero(mm.window, 0, bufferSize);
    assert mm.Used() == Stale(mm, used);
    ok := MarkFrames(mm, kernelStart, pmm + bufferSize);
    if !ok {
      return;
    }
    assert mm.Used() == Stale(mm, used) + KernelFrames(mm, pmm, kernelStart);
    // MmCreateAllocatorState
    Zero(mm.window, bufferSize, HEAP_SIZE);
    assert Round4(HEAP_SIZE) == HEAP_SIZE;
    assert mm.Used() == BeforeHeap(mm, used, pmm, kernelStart);
    ok := MarkFrames(mm, HeapStart(pmm, bufferSize, mm.frameSize), HEAP_SIZE);
  }

  // ----- what that means

  /**
   The frames of a marking loop in numbers: `f` is not before the frame of `start`, and the address
   that lies as far in `f` as `start` does in its own frame is below the limit.
   */
  ghost predicate Passed(start: nat, limit: nat, frameSize: nat, f: nat)
    requires frameSize > 0
  {
    start / frameSize <= f && f * frameSize + start % frameSize < limit
  }

  lemma NextPassed(start: u64, limit: nat, frameSize: u64, f: nat)
    requires frameSize > 0 && start + frameSize < 0x1_0000_0000_0000_0000
    ensures (start + frameSize) / frameSize == start / frameSize + 1
    ensures start < limit ==> (Passed(start, limit, frameSize, f) <==>
                               f == start / frameSize || Passed(start + frameSize, limit, frameSize, f))
  {
    var q, r := start / frameSize, start % frameSize;
    assert frameSize * (q + 1) == frameSize * q + frameSize;
    QuotientUnique(start + frameSize, frameSize, q + 1, r);
    assert q * frameSize == frameSize * q;
  }

  lemma NonePassed(start: nat, limit: nat, frameSize: nat, f: nat)
    requires frameSize > 0 && start >= limit
    ensures !Passed(start, limit, frameSize, f)
  {
    var q: int, x: int, d: int := start / frameSize, f, frameSize;
    assert start == d * q + start % d;
    assert d * (x - q) == x * d - d * q;
    if x > q {
      MulAtLeast(d, x - q);
    }
  }

  lemma {:induction false} RunMembers(start: u64, limit: nat, frameSize: u64, f: nat)
    requires frameSize > 0 && limit + frameSize < 0x1_0000_0000_0000_0000
    ensures f in Frames(FrameIndex(start, frameSize), Passes(start, limit, frameSize)) <==>
            Passed(start, limit, frameSize, f)
    decreases limit - start
  {
    if start < limit {
      NextPassed(start, limit, frameSize, f);
      RunMembers(start + frameSize, limit, frameSize, f);
    } else {
      NonePassed(start, limit, frameSize, f);
    }
  }

  /**
   Start-up in numbers: of the frames whose bits lie in the bitmap or in the 8 MiB behind it, which
   were zeroed, those are used that the first loop passes and the bitmap holds, and those that the
   second loop passes, from one frame size behind the end of the first to the address 8 MiB.
   */
  ghost predicate Started(used: set<nat>, frameSize: nat, bufferSize: nat, pmm: nat, kernelStart: nat)
    requires frameSize > 0
  {
    forall f :: 0 <= f < 8 * (bufferSize + 0x80_0000) ==>
      (f in used <==>
       (f < 8 * bufferSize && Passed(kernelStart, pmm + bufferSize, frameSize, f)) ||
       Passed(pmm + bufferSize + frameSize, 0x80_0000, frameSize, f))
  }

  lemma StartInNumbers(mm: FrameManager, used: set<nat>, pmm: u64, kernelStart: u64)
    requires mm.Valid() && NoWrap(mm, pmm)
    requires KernelMarks(mm, used, pmm, kernelStart) && HeapMarks(mm, used, pmm, kernelStart)
    ensures Started(AfterStart(mm, used, pmm, kernelStart), mm.frameSize, mm.BufferSize(), pmm, kernelStart)
  {
    var limit, heap := pmm + mm.BufferSize(), HeapStart(pmm, mm.BufferSize(), mm.frameSize);
    MarkedExact(BeforeHeap(mm, used, pmm, kernelStart), mm.frameSize, mm.maxPAddr, heap, HEAP_SIZE);
    forall f | 0 <= f < 8 * (mm.BufferSize() + 0x80_0000)
      ensures f in KernelFrames(mm, pmm, kernelStart) <==> Passed(kernelStart, limit, mm.frameSize, f)
      ensures f in HeapFrames(mm, pmm) <==> Passed(heap, 0x80_0000, mm.frameSize, f)
    {
      RunMembers(kernelStart, limit, mm.frameSize, f);
      RunMembers(heap, HEAP_SIZE, mm.frameSize, f);
    }
  }

  /** Once the first loop is through, a bit in the 8 MiB behind the bitmap is set only if the second loop passes its frame. */
  ghost predicate HeapZeroed(used: set<nat>, frameSize: nat, bufferSize: nat, pmm: nat)
    requires frameSize > 0
  {
    forall f :: 8 * bufferSize <= f < 8 * (bufferSize + 0x80_0000) && f in used ==>
      Passed(pmm + bufferSize + frameSize, 0x80_0000, frameSize, f)
  }

  lemma {:induction false} MarkedAtMost(used: set<nat>, frameSize: u64, maxPAddr: u64, start: nat, limit: nat)
    requires frameSize > 0 && limit < 0x1_0000_0000_0000_0000
    ensures Marked(used, frameSize, maxPAddr, start, limit) <= Passes(start, limit, frameSize)
    decreases limit - start
  {
    if start < limit {
      MarkedAtMost(used, frameSize, maxPAddr, start + frameSize, limit);
    }
  }

  lemma ZeroedInNumbers(mm: FrameManager, used: set<nat>, pmm: u64, kernelStart: u64)
    requires mm.Valid() && NoWrap(mm, pmm) && KernelMarks(mm, used, pmm, kernelStart)
    ensures HeapZeroed(AfterStart(mm, used, pmm, kernelStart), mm.frameSize, mm.BufferSize(), pmm)
  {
    var heap := HeapStart(pmm, mm.BufferSize(), mm.frameSize);
    MarkedAtMost(BeforeHeap(mm, used, pmm, kernelStart), mm.frameSize, mm.maxPAddr, heap, HEAP_SIZE);
    forall f | 8 * mm.BufferSize() <= f < 8 * (mm.BufferSize() + 0x80_0000) && f in AfterStart(mm, used, pmm, kernelStart)
      ensures Passed(heap, 0x80_0000, mm.frameSize, f)
    {
      assert f in HeapFrames(mm, pmm);
      RunMembers(heap, HEAP_SIZE, mm.frameSize, f);
    }
  }

  /** For pages of 4 KiB: every frame from the heap's start to the address 8 MiB. */
  lemma HeapInPages(used: set<nat>, frameSize: nat, bufferSize: nat, pmm: nat, kernelStart: nat)
    requires frameSize > 0 && Started(used, frameSize, bufferSize, pmm, kernelStart)
    ensures frameSize == 0x1000 ==>
              forall f :: (pmm + bufferSize + 0x1000) / 0x1000 <= f < 0x800 ==> f in used
  {
    if frameSize == 0x1000 {
      forall f | (pmm + bufferSize + 0x1000) / 0x1000 <= f < 0x800
        ensures f in used
      {
        assert Passed(pmm + bufferSize + frameSize, 0x80_0000, frameSize, f);
      }
    }
  }

  /** The first loop ends before the frame in which the heap starts: the two runs are disjoint. */
  lemma RunsDisjoint(frameSize: u64, start: u64, limit: nat)
    requires frameSize > 0 && limit + frameSize < 0x1_0000_0000_0000_0000
    ensures start < limit ==>
              FrameIndex(start, frameSize) + Passes(start, limit, frameSize) <= FrameIndex(limit + frameSize, frameSize)
  {
    if start < limit {
      LastFrame(start, limit, frameSize);
      NextFrame(limit, frameSize);
      FrameMonotone(LastPass(start, limit, frameSize), limit, frameSize);
    }
  }

  /** A run within memory needs at most the bits of one byte behind the bitmap. */
  lemma RunEnds(mm: FrameManager, start: u64, limit: nat)
    requires mm.Valid() && start < limit && limit + mm.frameSize < 0x1_0000_0000_0000_0000
    requires LastPass(start, limit, mm.frameSize) <= mm.maxPAddr
    ensures FrameIndex(start, mm.frameSize) + Passes(start, limit, mm.frameSize) <= 8 * mm.BufferSize() + 8
  {
    LastFrame(start, limit, mm.frameSize);
    FrameMonotone(LastPass(start, limit, mm.frameSize), mm.maxPAddr, mm.frameSize);
    ByteInWindow(mm.frameSize, mm.maxPAddr, mm.maxPAddr);
  }

  /**
   The kernel is not stopped exactly when both loops stay within memory and no frame of the first
   one had its bit set in a byte that zeroing the bitmap does not reach.
   */
  lemma StartExact(mm: FrameManager, used: set<nat>, pmm: u64, kernelStart: u64)
    requires mm.Valid() && NoWrap(mm, pmm)
    ensures var limit, heap := pmm + mm.BufferSize(), HeapStart(pmm, mm.BufferSize(), mm.frameSize);
            KernelMarks(mm, used, pmm, kernelStart) && HeapMarks(mm, used, pmm, kernelStart) <==>
            && (kernelStart < limit ==> LastPass(kernelStart, limit, mm.frameSize) <= mm.maxPAddr)
            && (heap < 0x80_0000 ==> LastPass(heap, 0x80_0000, mm.frameSize) <= mm.maxPAddr)
            && (forall f :: f in KernelFrames(mm, pmm, kernelStart) && f >= 8 * Round4(mm.BufferSize()) ==> f !in used)
  {
    var limit, heap := pmm + mm.BufferSize(), HeapStart(pmm, mm.BufferSize(), mm.frameSize);
    RunsDisjoint(mm.frameSize, kernelStart, limit);
    if heap < HEAP_SIZE && LastPass(heap, HEAP_SIZE, mm.frameSize) <= mm.maxPAddr {
      RunEnds(mm, heap, HEAP_SIZE);
      forall f | f in HeapFrames(mm, pmm)
        ensures f !in BeforeHeap(mm, used, pmm, kernelStart)
      {
      }
    }
  }

  /**
   Start-up that is not stopped uses the frames of both loops and those whose old bits lie behind
   the zeroed bytes, except that zeroing the heap loses the marks of the first loop from the end
   of the bitmap on.
   */
  lemma StartMarks(mm: FrameManager, used: set<nat>, pmm: u64, kernelStart: u64)
    requires mm.Valid() && NoWrap(mm, pmm)
    requires KernelMarks(mm, used, pmm, kernelStart) && HeapMarks(mm, used, pmm, kernelStart)
    ensures KernelFrames(mm, pmm, kernelStart) !! HeapFrames(mm, pmm)
    ensures forall f :: f < 8 * mm.BufferSize() + 8 ==>
              (f in AfterStart(mm, used, pmm, kernelStart) <==>
               (f in KernelFrames(mm, pmm, kernelStart) && f < 8 * mm.BufferSize()) || f in HeapFrames(mm, pmm))
    ensures KernelFrames(mm, pmm, kernelStart) <= AfterStart(mm, used, pmm, kernelStart) <==>
            forall f :: f in KernelFrames(mm, pmm, kernelStart) ==> f < 8 * mm.BufferSize()
  {
    var limit, heap := pmm + mm.BufferSize(), HeapStart(pmm, mm.BufferSize(), mm.frameSize);
    RunsDisjoint(mm.frameSize, kernelStart, limit);
    MarkedExact(BeforeHeap(mm, used, pmm, kernelStart), mm.frameSize, mm.maxPAddr, heap, HEAP_SIZE);
    if kernelStart < limit {
      RunEnds(mm, kernelStart, limit);
    }
  }

  /** A run of frames that lies in the bitmap lies within memory. */
  lemma RunFits(mm: FrameManager, start: u64, limit: nat)
    requires mm.Valid() && start < limit && limit + mm.frameSize < 0x1_0000_0000_0000_0000
    requires FrameIndex(start, mm.frameSize) + Passes(start, limit, mm.frameSize) <= 8 * mm.BufferSize()
    ensures LastPass(start, limit, mm.frameSize) <= mm.maxPAddr
  {
    LastFrame(start, limit, mm.frameSize);
    mm.BitmapFits();
    BelowEnd(LastPass(start, limit, mm.frameSize), mm.frameSize, mm.BufferSize());
  }

  /** An address whose frame lies in the bitmap is below the end of the memory the bitmap covers. */
  lemma BelowEnd(location: u64, frameSize: u64, bufferSize: nat)
    requires frameSize > 0 && FrameIndex(location, frameSize) < 8 * bufferSize
    ensures location < bufferSize * 8 * frameSize
  {
    var f, d: int := FrameIndex(location, frameSize), frameSize;
    assert location == d * f + location % d;
    MulAtLeast(d, 8 * bufferSize - f);
    assert d * (8 * bufferSize - f) == d * (8 * bufferSize) - d * f;
  }

  /** When both runs lie in the bitmap the kernel is not stopped, and exactly they are used there. */
  lemma StartFits(mm: FrameManager, used: set<nat>, pmm: u64, kernelStart: u64)
    requires mm.Valid() && NoWrap(mm, pmm)
    requires var heap := HeapStart(pmm, mm.BufferSize(), mm.frameSize);
             && FrameIndex(kernelStart, mm.frameSize) + Passes(kernelStart, pmm + mm.BufferSize(), mm.frameSize) <= 8 * mm.BufferSize()
             && FrameIndex(heap, mm.frameSize) + Passes(heap, HEAP_SIZE, mm.frameSize) <= 8 * mm.BufferSize()
    ensures KernelMarks(mm, used, pmm, kernelStart) && HeapMarks(mm, used, pmm, kernelStart)
    ensures forall f :: f < 8 * mm.BufferSize() ==>
              (f in AfterStart(mm, used, pmm, kernelStart) <==>
               f in KernelFrames(mm, pmm, kernelStart) + HeapFrames(mm, pmm))
  {
    var limit, heap := pmm + mm.BufferSize(), HeapStart(pmm, mm.BufferSize(), mm.frameSize);
    if kernelStart < limit {
      RunFits(mm, kernelStart, limit);
    }
    if heap < HEAP_SIZE {
      RunFits(mm, heap, HEAP_SIZE);
    }
    StartExact(mm, used, pmm, kernelStart);
    StartMarks(mm, used, pmm, kernelStart);
  }

  /**
   Memory up to 0x807FFF has a bitmap of 256 bytes.  A kernel at 0x800000 has its frame behind it:
   every address is within memory, yet a stale bit there stops the kernel, and without one the
   mark is lost when the heap is zeroed.
   */
  lemma KernelBehindBitmap(mm: FrameManager, used: set<nat>)
    requires mm.Valid() && mm.frameSize == 0x1000 && mm.maxPAddr == 0x80_7FFF
    ensures mm.BufferSize() == 256 && KernelFrames(mm, 0x80_0F00, 0x80_0000) == {2048}
    ensures LastPass(0x80_0000, 0x80_0F00 + mm.BufferSize(), 0x1000) <= mm.maxPAddr
    ensures KernelMarks(mm, used, 0x80_0F00, 0x80_0000) <==> 2048 !in used
    ensures 2048 !in used ==>
              HeapMarks(mm, used, 0x80_0F00, 0x80_0000) && 2048 !in AfterStart(mm, used, 0x80_0F00, 0x80_0000)
  {
    var limit := 0x80_0F00 + 256;
    assert FrameIndex(0x80_0000, 0x1000) == 2048;
    assert Passes(0x80_0000, limit, 0x1000) == 1 + Passes(0x80_1000, limit, 0x1000) == 1;
    assert Frames(2048, 1) == {2048} + Frames(2049, 0) == {2048};
    assert KernelFrames(mm, 0x80_0F00, 0x80_0000) == {2048};
    assert 2048 in KernelFrames(mm, 0x80_0F00, 0x80_0000);
    if 2048 !in used {
      StartMarks(mm, used, 0x80_0F00, 0x80_0000);
    }
  }

  // ----- frames that stay free

  lemma KernelRunBelow(frameSize: u64, start: u64, limit: nat, f: nat)
    requires frameSize > 0 && 0 < limit && limit + frameSize < 0x1_0000_0000_0000_0000
    requires FrameIndex(limit - 1, frameSize) < f
    ensures f !in Frames(FrameIndex(start, frameSize), Passes(start, limit, frameSize))
  {
    if start < limit {
      LastFrame(start, limit, frameSize);
      FrameMonotone(LastPass(start, limit, frameSize), limit - 1, frameSize);
    }
  }

  /** The frames around the end of the first loop: `limit` is the address it stops at. */
  lemma FramesAtLimit(frameSize: u64, limit: u64)
    requires 0 < frameSize && 0 < limit && limit + frameSize < 0x1_0000_0000_0000_0000
    ensures var q := FrameIndex(limit, frameSize);
            && FrameIndex(limit + frameSize, frameSize) == q + 1
            && FrameIndex(limit + frameSize - 1, frameSize) == (if limit % frameSize == 0 then q else q + 1)
            && FrameIndex(limit - 1, frameSize) == (if limit % frameSize == 0 then q - 1 else q)
  {
    var q: int, r: int := FrameIndex(limit, frameSize), limit % frameSize;
    assert frameSize * (q + 1) == frameSize * q + frameSize;
    assert frameSize * (q - 1) == frameSize * q - frameSize;
    NextFrame(limit, frameSize);
    if r == 0 {
      QuotientUnique(limit + frameSize - 1, frameSize, q, frameSize - 1);
      QuotientUnique(limit - 1, frameSize, q - 1, frameSize - 1);
    } else {
      QuotientUnique(limit + frameSize - 1, frameSize, q + 1, r - 1);
      QuotientUnique(limit - 1, frameSize, q, r - 1);
    }
  }

  /**
   The bitmap itself lies one frame size behind the safe area, where the first loop does not
   reach: the frame that holds its last byte is marked exactly when the end of the first loop is
   not a frame boundary and the heap starts below the bound of the second loop.
   */
  lemma LastBitmapFrame(mm: FrameManager, pmm: u64, kernelStart: u64)
    requires mm.Valid() && mm.BufferSize() > 0 && NoWrap(mm, pmm)
    ensures var limit := pmm + mm.BufferSize();
            var last := limit + mm.frameSize - 1;
            FrameIndex(last, mm.frameSize) in KernelFrames(mm, pmm, kernelStart) + HeapFrames(mm, pmm) <==>
            limit % mm.frameSize != 0 && HeapStart(pmm, mm.BufferSize(), mm.frameSize) < 0x80_0000
  {
    var limit := pmm + mm.BufferSize();
    FramesAtLimit(mm.frameSize, limit);
    KernelRunBelow(mm.frameSize, kernelStart, limit, FrameIndex(limit + mm.frameSize - 1, mm.frameSize));
  }

  lemma SizeOfEight(mm: FrameManager)
    requires mm.Valid() && mm.frameSize == 0x1000 && mm.maxPAddr == 0x80_0000
    ensures mm.BufferSize() == 256 && NoWrap(mm, 0x10_0F00)
    ensures FrameIndex(0x10_0F00 + 256 + mm.frameSize - 1, mm.frameSize) == 0x101
    ensures (0x10_0F00 + mm.BufferSize()) % mm.frameSize == 0
  {
  }

  /**
   With 8 MiB of memory and the safe area at 0x100F00 the bitmap's last byte is in frame 0x101:
   neither loop marks it, and a start-up that is not stopped leaves it free.
   */
  lemma BitmapFrameFree(mm: FrameManager, used: set<nat>, kernelStart: u64)
    requires mm.Valid() && mm.frameSize == 0x1000 && mm.maxPAddr == 0x80_0000 && NoWrap(mm, 0x10_0F00)
    ensures FrameIndex(0x10_0F00 + 256 + mm.frameSize - 1, mm.frameSize) == 0x101
    ensures KernelMarks(mm, used, 0x10_0F00, kernelStart) && HeapMarks(mm, used, 0x10_0F00, kernelStart) ==>
              0x101 !in AfterStart(mm, used, 0x10_0F00, kernelStart)
  {
    SizeOfEight(mm);
    assert 0x101 !in KernelFrames(mm, 0x10_0F00, kernelStart) + HeapFrames(mm, 0x10_0F00) by {
      LastBitmapFrame(mm, 0x10_0F00, kernelStart);
    }
    if KernelMarks(mm, used, 0x10_0F00, kernelStart) && HeapMarks(mm, used, 0x10_0F00, kernelStart) {
      StartMarks(mm, used, 0x10_0F00, kernelStart);
    }
  }

  /**
   The second loop stops at the address 8 MiB and not 8 MiB behind the heap's start: a heap
   address is in a marked frame exactly up to the frame of that loop's last pass.
   */
  lemma HeapMarkedUpTo(mm: FrameManager, pmm: u64, kernelStart: u64, address: u64)
    requires mm.Valid() && NoWrap(mm, pmm) && address >= HeapStart(pmm, mm.BufferSize(), mm.frameSize)
    ensures var heap := HeapStart(pmm, mm.BufferSize(), mm.frameSize);
            FrameIndex(address, mm.frameSize) in KernelFrames(mm, pmm, kernelStart) + HeapFrames(mm, pmm) <==>
            heap < 0x80_0000 && FrameIndex(address, mm.frameSize) <= FrameIndex(LastPass(heap, 0x80_0000, mm.frameSize), mm.frameSize)
  {
    var heap := HeapStart(pmm, mm.BufferSize(), mm.frameSize);
    RunsDisjoint(mm.frameSize, kernelStart, pmm + mm.BufferSize());
    FrameMonotone(heap, address, mm.frameSize);
    if heap < HEAP_SIZE {
      LastFrame(heap, HEAP_SIZE, mm.frameSize);
    }
  }

  /** No frame behind the one that ends at 8 MiB is marked for the heap, so its last frame never is. */
  lemma HeapTailFree(mm: FrameManager, pmm: u64, kernelStart: u64, address: u64)
    requires mm.Valid() && NoWrap(mm, pmm) && address >= HeapStart(pmm, mm.BufferSize(), mm.frameSize)
    ensures FrameIndex(address, mm.frameSize) > FrameIndex(0x80_0000 - 1, mm.frameSize) ==>
              FrameIndex(address, mm.frameSize) !in KernelFrames(mm, pmm, kernelStart) + HeapFrames(mm, pmm)
    ensures address == HeapStart(pmm, mm.BufferSize(), mm.frameSize) + 0x80_0000 - 1 ==>
              FrameIndex(address, mm.frameSize) > FrameIndex(0x80_0000 - 1, mm.frameSize)
  {
    var heap := HeapStart(pmm, mm.BufferSize(), mm.frameSize);
    HeapMarkedUpTo(mm, pmm, kernelStart, address);
    if heap < HEAP_SIZE {
      FrameMonotone(LastPass(heap, HEAP_SIZE, mm.frameSize), HEAP_SIZE - 1, mm.frameSize);
    }
    if address == heap + HEAP_SIZE - 1 {
      NextFrame(HEAP_SIZE - 1, mm.frameSize);
      FrameMonotone(HEAP_SIZE - 1 + mm.frameSize, address, mm.frameSize);
    }
  }
}
