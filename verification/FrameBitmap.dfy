/**
 The physical frame bitmap of kern/mm/mmsetup.c as values: eight frames to a byte, and the set
 of used frames the bytes stand for.
 */
module FrameBitmap {
  import opened Words
  import opened Quotients

  // ----- bits of a byte

  /** 1 << k */
  function Mask(k: nat): bv8
    requires k < 8
  {
    if k == 0 then 1 else if k == 1 then 2 else if k == 2 then 4 else if k == 3 then 8
    else if k == 4 then 16 else if k == 5 then 32 else if k == 6 then 64 else 128
  }

  /** (b >> k) & 1 */
  predicate Bit(b: bv8, k: nat)
    requires k < 8
  {
    b & Mask(k) != 0
  }

  function SetBit(b: bv8, k: nat): bv8
    requires k < 8
  {
    b | Mask(k)
  }

  function ClearBit(b: bv8, k: nat): bv8
    requires k < 8
  {
    b & (255 ^ Mask(k))
  }

  /** The shifts the original writes are these masks. */
  lemma ShiftsAreMasks(b: bv8, k: nat)
    requires k < 8
    ensures (1 as bv8) << k == Mask(k)
    ensures ((b >> k) & 1 == 1) == Bit(b, k)
  {
    if k == 0 {
    } else if k == 1 {
    } else if k == 2 {
    } else if k == 3 {
    } else if k == 4 {
    } else if k == 5 {
    } else if k == 6 {
    } else {
      assert k == 7;
    }
  }

  /** Setting or clearing a bit changes that bit and no neighbour. */
  lemma BitsAfter(b: bv8, k: nat, j: nat)
    requires k < 8 && j < 8
    ensures Bit(SetBit(b, k), j) == (j == k || Bit(b, j))
    ensures Bit(ClearBit(b, k), j) == (j != k && Bit(b, j))
  {
    if j == k {
      assert Mask(j) == Mask(k);
    } else {
      assert Mask(j) & Mask(k) == 0;
    }
  }

  // ----- bytes as a set of frames

  ghost predicate IsUsed(bytes: seq<bv8>, f: nat)
    requires f < 8 * |bytes|
  {
    Bit(bytes[f / 8], f % 8)
  }

  ghost function UsedFrames(bytes: seq<bv8>): set<nat> {
    set f | 0 <= f < 8 * |bytes| && IsUsed(bytes, f)
  }

  /** Setting or clearing the bit of frame `f` adds or removes exactly that frame. */
  lemma FramesAfter(bytes: seq<bv8>, f: nat)
    requires f < 8 * |bytes|
    ensures UsedFrames(bytes[f / 8 := SetBit(bytes[f / 8], f % 8)]) == UsedFrames(bytes) + {f}
    ensures UsedFrames(bytes[f / 8 := ClearBit(bytes[f / 8], f % 8)]) == UsedFrames(bytes) - {f}
  {
    var s := bytes[f / 8 := SetBit(bytes[f / 8], f % 8)];
    var c := bytes[f / 8 := ClearBit(bytes[f / 8], f % 8)];
    forall g | 0 <= g < 8 * |bytes|
      ensures IsUsed(s, g) == (g == f || IsUsed(bytes, g))
      ensures IsUsed(c, g) == (g != f && IsUsed(bytes, g))
    {
      BitsAfter(bytes[f / 8], f % 8, g % 8);
    }
  }

  // ----- one call of MmAllocatePhysFrame

  /** The frame of a location, and the byte of the bitmap that holds its bit. */
  function FrameIndex(location: u64, frameSize: u64): nat
    requires frameSize > 0
  {
    location / frameSize
  }

  function ByteIndex(location: u64, frameSize: u64): nat
    requires frameSize > 0
  {
    location / (8 * frameSize)
  }

  /** Takes (`use`) or gives back the frame of one bit, if it is not already so. */
  function UpdateBit(bytes: seq<bv8>, base: nat, bit: nat, use: bool): (seq<bv8>, Status)
    requires base < |bytes| && bit < 8
  {
    if Bit(bytes[base], bit) && !use then (bytes[base := ClearBit(bytes[base], bit)], Success)
    else if !Bit(bytes[base], bit) && use then (bytes[base := SetBit(bytes[base], bit)], Success)
    else (bytes, MemoryAccessViolation)
  }

  /** What MmAllocatePhysFrame does to the bytes. */
  function AllocateBytes(bytes: seq<bv8>, frameSize: u64, maxPAddr: u64, location: u64, use: bool): (seq<bv8>, Status)
    requires frameSize > 0 && maxPAddr < |bytes|
  {
    if location > maxPAddr then (bytes, InvalidMemoryLocation)
    else
      ByteInWindow(frameSize, maxPAddr, location);
      UpdateBit(bytes, ByteIndex(location, frameSize), FrameIndex(location, frameSize) % 8, use)
  }

  /** The byte index of a location is the byte of its frame and never exceeds the largest address. */
  lemma ByteInWindow(frameSize: u64, maxPAddr: u64, location: u64)
    requires frameSize > 0 && location <= maxPAddr
    ensures ByteIndex(location, frameSize) == FrameIndex(location, frameSize) / 8
    ensures FrameIndex(location, frameSize) <= location
    ensures ByteIndex(location, frameSize) <= maxPAddr
  {
    DivDiv(location, frameSize, 8);
    var q := location / frameSize;
    assert location >= frameSize * q;
    if q > 0 {
      MulAtLeast(q, frameSize);
    }
  }

  /** The same call on the set of used frames. */
  ghost function AllocateFrame(used: set<nat>, frameSize: u64, maxPAddr: u64, location: u64, use: bool): (set<nat>, Status)
    requires frameSize > 0
  {
    if location > maxPAddr then (used, InvalidMemoryLocation)
    else
      var f := FrameIndex(location, frameSize);
      if f in used && !use then (used - {f}, Success)
      else if f !in used && use then (used + {f}, Success)
      else (used, MemoryAccessViolation)
  }

  /** The bitmap refines the set: same status, and the bytes stand for the new set. */
  lemma AllocateRefines(bytes: seq<bv8>, frameSize: u64, maxPAddr: u64, location: u64, use: bool)
    requires frameSize > 0 && maxPAddr < |bytes|
    ensures var (bytes', status) := AllocateBytes(bytes, frameSize, maxPAddr, location, use);
            && |bytes'| == |bytes|
            && (UsedFrames(bytes'), status) == AllocateFrame(UsedFrames(bytes), frameSize, maxPAddr, location, use)
            && (status != Success ==> bytes' == bytes)
  {
    if location <= maxPAddr {
      ByteInWindow(frameSize, maxPAddr, location);
      var f := FrameIndex(location, frameSize);
      assert f in UsedFrames(bytes) <==> IsUsed(bytes, f);
      FramesAfter(bytes, f);
    }
  }

  // ----- every run

  datatype Call = Call(location: u64, use: bool)

  function RunBytes(bytes: seq<bv8>, frameSize: u64, maxPAddr: u64, calls: seq<Call>): (r: (seq<bv8>, seq<Status>))
    requires frameSize > 0 && maxPAddr < |bytes|
    ensures |r.1| == |calls|
    decreases |calls|
  {
    if calls == [] then (bytes, [])
    else
      AllocateRefines(bytes, frameSize, maxPAddr, calls[0].location, calls[0].use);
      var (bytes', status) := AllocateBytes(bytes, frameSize, maxPAddr, calls[0].location, calls[0].use);
      var (last, statuses) := RunBytes(bytes', frameSize, maxPAddr, calls[1..]);
      (last, [status] + statuses)
  }

  ghost function RunFrames(used: set<nat>, frameSize: u64, maxPAddr: u64, calls: seq<Call>): (r: (set<nat>, seq<Status>))
    requires frameSize > 0
    ensures |r.1| == |calls|
    decreases |calls|
  {
    if calls == [] then (used, [])
    else
      var (used', status) := AllocateFrame(used, frameSize, maxPAddr, calls[0].location, calls[0].use);
      var (last, statuses) := RunFrames(used', frameSize, maxPAddr, calls[1..]);
      (last, [status] + statuses)
  }

  /** Every run of the bitmap is a run of the set, call by call. */
  lemma {:induction false} RunRefines(bytes: seq<bv8>, frameSize: u64, maxPAddr: u64, calls: seq<Call>)
    requires frameSize > 0 && maxPAddr < |bytes|
    ensures var (bytes', statuses) := RunBytes(bytes, frameSize, maxPAddr, calls);
            (UsedFrames(bytes'), statuses) == RunFrames(UsedFrames(bytes), frameSize, maxPAddr, calls)
    decreases |calls|
  {
    if calls != [] {
      AllocateRefines(bytes, frameSize, maxPAddr, calls[0].location, calls[0].use);
      var (bytes', status) := AllocateBytes(bytes, frameSize, maxPAddr, calls[0].location, calls[0].use);
      RunRefines(bytes', frameSize, maxPAddr, calls[1..]);
    }
  }

  /** The number of successful calls with the given request. */
  function Count(calls: seq<Call>, statuses: seq<Status>, use: bool): nat
    requires |calls| == |statuses|
    decreases |calls|
  {
    if calls == [] then 0
    else (if statuses[0] == Success && calls[0].use == use then 1 else 0) + Count(calls[1..], statuses[1..], use)
  }

  /** Conservation: used frames = initially used + successful allocates - successful frees. */
  lemma {:induction false} FramesConserved(bytes: seq<bv8>, frameSize: u64, maxPAddr: u64, calls: seq<Call>)
    requires frameSize > 0 && maxPAddr < |bytes|
    ensures var (bytes', statuses) := RunBytes(bytes, frameSize, maxPAddr, calls);
            |UsedFrames(bytes')| + Count(calls, statuses, false) == |UsedFrames(bytes)| + Count(calls, statuses, true)
    decreases |calls|
  {
    if calls != [] {
      AllocateRefines(bytes, frameSize, maxPAddr, calls[0].location, calls[0].use);
      var (bytes', status) := AllocateBytes(bytes, frameSize, maxPAddr, calls[0].location, calls[0].use);
      FramesConserved(bytes', frameSize, maxPAddr, calls[1..]);
      var statuses := RunBytes(bytes, frameSize, maxPAddr, calls).1;
      assert statuses[1..] == RunBytes(bytes', frameSize, maxPAddr, calls[1..]).1;
    }
  }

  /** The successful requests for one frame, in order. */
  function History(calls: seq<Call>, statuses: seq<Status>, frameSize: u64, f: nat): seq<bool>
    requires frameSize > 0 && |calls| == |statuses|
    decreases |calls|
  {
    if calls == [] then []
    else
      var rest := History(calls[1..], statuses[1..], frameSize, f);
      if statuses[0] == Success && FrameIndex(calls[0].location, frameSize) == f then [calls[0].use] + rest else rest
  }

  /** A history that starts with `first` and changes at every entry. */
  predicate Alternates(h: seq<bool>, first: bool) {
    forall i :: 0 <= i < |h| ==> h[i] == if i % 2 == 0 then first else !first
  }

  /** On the set of used frames. */
  lemma {:induction false} FrameAlternates(
    used: set<nat>, frameSize: u64, maxPAddr: u64, calls: seq<Call>, f: nat)
    requires frameSize > 0
    ensures var (used', statuses) := RunFrames(used, frameSize, maxPAddr, calls);
            var h := History(calls, statuses, frameSize, f);
            && Alternates(h, f !in used)
            && (f in used' <==> (f in used) == (|h| % 2 == 0))
    decreases |calls|
  {
    if calls != [] {
      var c := calls[0];
      var (used', status) := AllocateFrame(used, frameSize, maxPAddr, c.location, c.use);
      FrameAlternates(used', frameSize, maxPAddr, calls[1..], f);
      var rest := RunFrames(used', frameSize, maxPAddr, calls[1..]).1;
      assert ([status] + rest)[1..] == rest;
      OneCall(used, frameSize, maxPAddr, c, f);
      if status == Success && FrameIndex(c.location, frameSize) == f {
        Prepend(History(calls[1..], rest, frameSize, f), c.use);
      }
    }
  }

  /**
   Successful allocates and frees of a frame strictly alternate, beginning with an allocate
   exactly when the frame was free, and their number tells whether it ends up used.
   */
  lemma HistoryAlternates(
    bytes: seq<bv8>, frameSize: u64, maxPAddr: u64, calls: seq<Call>, f: nat)
    requires frameSize > 0 && maxPAddr < |bytes|
    ensures var (bytes', statuses) := RunBytes(bytes, frameSize, maxPAddr, calls);
            var h := History(calls, statuses, frameSize, f);
            && Alternates(h, f !in UsedFrames(bytes))
            && (f in UsedFrames(bytes') <==> (f in UsedFrames(bytes)) == (|h| % 2 == 0))
  {
    RunRefines(bytes, frameSize, maxPAddr, calls);
    FrameAlternates(UsedFrames(bytes), frameSize, maxPAddr, calls, f);
  }

  /** A successful call on frame `f` decides whether it is used and finds it otherwise; no other call matters to it. */
  lemma OneCall(used: set<nat>, frameSize: u64, maxPAddr: u64, c: Call, f: nat)
    requires frameSize > 0
    ensures var (used', status) := AllocateFrame(used, frameSize, maxPAddr, c.location, c.use);
            if status == Success && FrameIndex(c.location, frameSize) == f
            then c.use == (f !in used) == (f in used')
            else f in used' <==> f in used
  {
  }

  lemma Prepend(h: seq<bool>, first: bool)
    requires Alternates(h, !first)
    ensures Alternates([first] + h, first)
  {
    forall i | 0 <= i < |h| + 1
      ensures ([first] + h)[i] == if i % 2 == 0 then first else !first
    {
      if i > 0 {
        assert ([first] + h)[i] == h[i - 1];
      }
    }
  }

  // ----- the lowest free frame

  /** The lowest frame below `n` that is not used, or `n` when there is none. */
  ghost function LowestFree(used: set<nat>, n: nat): (f: nat)
    ensures f <= n && (f < n ==> f !in used) && forall g :: 0 <= g < f ==> g in used
  {
    LowestFreeFrom(used, 0, n)
  }

  ghost function LowestFreeFrom(used: set<nat>, k: nat, n: nat): (f: nat)
    requires k <= n
    ensures k <= f <= n && (f < n ==> f !in used) && forall g :: k <= g < f ==> g in used
    decreases n - k
  {
    if k == n || k !in used then k else LowestFreeFrom(used, k + 1, n)
  }

  /** Taking the lowest free frame again and again until none is left below `n`. */
  ghost function Drain(used: set<nat>, n: nat): seq<nat>
    decreases n - LowestFree(used, n)
  {
    var f := LowestFree(used, n);
    if f == n then [] else [f] + Drain(used + {f}, n)
  }

  /** Draining hands out strictly increasing frames, and every free frame exactly once. */
  lemma {:induction false} DrainIncreases(used: set<nat>, n: nat)
    ensures forall i, j :: 0 <= i < j < |Drain(used, n)| ==> Drain(used, n)[i] < Drain(used, n)[j]
    ensures forall f :: f in Drain(used, n) <==> 0 <= f < n && f !in used
    decreases n - LowestFree(used, n)
  {
    var f := LowestFree(used, n);
    if f < n {
      DrainIncreases(used + {f}, n);
      var rest := Drain(used + {f}, n);
      assert Drain(used, n) == [f] + rest;
      forall k | 0 <= k < |rest|
        ensures f < rest[k]
      {
        assert rest[k] in rest;
      }
    }
  }
}
