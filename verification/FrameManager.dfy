/** The physical memory manager of kern/mm/mmsetup.c, working on the bitmap in place. */
module FrameManagers {
  import opened Words
  import opened Quotients
  import opened FrameBitmap

  class FrameManager {
    /**
     Memory from the start of the bitmap on.  The bitmap is its first BufferSize bytes; the
     code can read past them, so the window goes on.
     */
    const window: array<bv8>
    const frameSize: u64
    const maxPAddr: u64

    constructor (window: array<bv8>, frameSize: u64, maxPAddr: u64)
      ensures this.window == window && this.frameSize == frameSize && this.maxPAddr == maxPAddr
    {
      this.window, this.frameSize, this.maxPAddr := window, frameSize, maxPAddr;
    }

    ghost predicate Valid() {
      0 < frameSize < 0x2000_0000_0000_0000 && window.Length > maxPAddr
    }

    /** The number of bytes KiInitializeMemMgr sets aside for the bitmap. */
    function BufferSize(): nat
      requires Valid()
    {
      ByteIndex(maxPAddr, frameSize)
    }

    ghost function Used(): set<nat>
      reads window
    {
      UsedFrames(window[..])
    }

    /** MmLookupPhysFrame; a refused location leaves the result alone. */
    method LookupPhysFrame(location: u64, initial: bool) returns (status: Status, inUse: bool)
      requires Valid()
      ensures location > maxPAddr ==> status == InvalidMemoryLocation && inUse == initial
      ensures location <= maxPAddr ==> status == Success && inUse == (FrameIndex(location, frameSize) in Used())
    {
      if location > maxPAddr {
        return InvalidMemoryLocation, initial;
      }
      ByteInWindow(frameSize, maxPAddr, location);
      var base := ByteIndex(location, frameSize);
      var byte := window[base];
      var bit := FrameIndex(location, frameSize) % 8;
      inUse := Bit(byte, bit);
      assert inUse == IsUsed(window[..], FrameIndex(location, frameSize));
      status := Success;
    }

    /** The read, test and write of one bitmap byte in MmAllocatePhysFrame. */
    method UpdateByte(base: nat, bit: nat, use: bool) returns (status: Status)
      requires base < window.Length && bit < 8
      modifies window
      ensures (window[..], status) == UpdateBit(old(window[..]), base, bit, use)
    {
      var byte := window[base];
      var inUse := Bit(byte, bit);
      if inUse && !use {
        window[base] := byte & (255 ^ Mask(bit));
        return Success;
      } else if !inUse && use {
        window[base] := byte | Mask(bit);
        return Success;
      } else {
        return MemoryAccessViolation;
      }
    }

    /** MmAllocatePhysFrame */
    method AllocatePhysFrame(location: u64, use: bool) returns (status: Status)
      requires Valid()
      modifies window
      ensures (window[..], status) == AllocateBytes(old(window[..]), frameSize, maxPAddr, location, use)
      ensures (Used(), status) == AllocateFrame(old(Used()), frameSize, maxPAddr, location, use)
    {
      AllocateRefines(window[..], frameSize, maxPAddr, location, use);
      if location > maxPAddr {
        return InvalidMemoryLocation;
      }
      ByteInWindow(frameSize, maxPAddr, location);
      status := UpdateByte(ByteIndex(location, frameSize), FrameIndex(location, frameSize) % 8, use);
    }

    /** The inner loop of MmLookupFreePhysFrame: the lowest clear bit of a byte, 8 if there is none. */
    static method ScanByte(byte: bv8) returns (bit: nat)
      ensures bit <= 8 && (bit < 8 ==> !Bit(byte, bit))
      ensures forall j :: 0 <= j < bit ==> Bit(byte, j)
    {
      bit := 0;
      while bit < 8
        invariant bit <= 8
        invariant forall j :: 0 <= j < bit ==> Bit(byte, j)
      {
        if byte & Mask(bit) == 0 {
          return;
        }
        bit := bit + 1;
      }
    }

    /**
     MmLookupFreePhysFrame.  The scan is bounded by the largest address, not by the bitmap, so it
     reports the lowest clear bit of the first maxPAddr bytes of the window.
     */
    method LookupFreePhysFrame() returns (status: Status, location: u64)
      requires Valid()
      ensures var f := LowestFree(Used(), 8 * maxPAddr);
              if f < 8 * maxPAddr then status == Success && location == Wrap64(f * frameSize)
              else status == MemoryPageFailure && location == 0
    {
      var block: u64 := 0;
      while block < maxPAddr
        invariant block <= maxPAddr
        invariant forall g :: 0 <= g < 8 * block ==> g in UsedFrames(window[..])
      {
        var bit := ScanByte(window[block]);
        ByteFrames(window[..], block, bit);
        if bit < 8 {
          LowestIs(Used(), 8 * maxPAddr, 8 * block + bit);
          var base: int, offset: int := Wrap64(frameSize * block * 8), Wrap64(bit * frameSize);
          WrapLocation(frameSize, block, bit);
          return Success, Wrap64(base + offset);
        }
        block := block + 1;
      }
      LowestIs(Used(), 8 * maxPAddr, 8 * maxPAddr);
      return MemoryPageFailure, 0;
    }

    /**
     Whenever the bitmap has a free frame `g`, the scan finds its lowest one, which is frame-aligned,
     reported as unused, and can be allocated.
     */
    lemma FreeFrameUsable(g: nat)
      requires Valid() && g < 8 * BufferSize() && g !in Used()
      ensures var f := LowestFree(Used(), 8 * maxPAddr);
              && f == LowestFree(Used(), 8 * BufferSize()) && f !in Used()
              && f < 8 * BufferSize() && f * frameSize < maxPAddr && FrameIndex(f * frameSize, frameSize) == f
              && AllocateFrame(Used(), frameSize, maxPAddr, f * frameSize, true) == (Used() + {f}, Success)
    {
      BitmapFits();
      var f := LowestFree(Used(), 8 * maxPAddr);
      assert f <= g;
      LowestIs(Used(), 8 * BufferSize(), f);
      FrameInside(f);
      AllocateAt(Used(), frameSize, maxPAddr, f);
    }

    /** The same in the terms of the two calls, where no location wraps around. */
    lemma NextFree()
      requires Valid() && LowestFree(Used(), 8 * BufferSize()) < 8 * BufferSize()
      ensures var f := LowestFree(Used(), 8 * BufferSize());
              && LowestFree(Used(), 8 * maxPAddr) == f < 8 * maxPAddr && Wrap64(f * frameSize) == f * frameSize
              && AllocateFrame(Used(), frameSize, maxPAddr, Wrap64(f * frameSize), true) == (Used() + {f}, Success)
    {
      FreeFrameUsable(LowestFree(Used(), 8 * BufferSize()));
      BitmapFits();
      Fits64(LowestFree(Used(), 8 * BufferSize()) * frameSize);
    }

    lemma BitmapFits()
      requires Valid()
      ensures BufferSize() <= maxPAddr && BufferSize() * 8 * frameSize <= maxPAddr
      ensures BufferSize() < 0x2000_0000_0000_0000
    {
      ByteInWindow(frameSize, maxPAddr, maxPAddr);
      var d := 8 * frameSize;
      assert maxPAddr >= d * BufferSize();
      assert BufferSize() * 8 * frameSize == d * BufferSize();
      if BufferSize() > 0 {
        MulAtLeast(BufferSize(), d);
      }
    }

    /** The frames of the bitmap are those below its end, all of them within memory. */
    lemma FrameInside(f: nat)
      requires Valid() && f < 8 * BufferSize()
      ensures f * frameSize < BufferSize() * 8 * frameSize <= maxPAddr
    {
      BitmapFits();
      MulAtLeast(frameSize, 8 * BufferSize() - f);
      assert frameSize * (8 * BufferSize() - f) == BufferSize() * 8 * frameSize - f * frameSize;
    }

    /**
     The documentation promises a failure when no frame is free.  With a full bitmap that is what
     the scan reports exactly when every byte from its end to the scan's bound is full as well.
     */
    lemma FullBitmapReported()
      requires Valid()
      requires forall g :: 0 <= g < 8 * BufferSize() ==> g in Used()
      ensures LowestFree(Used(), 8 * maxPAddr) == 8 * maxPAddr <==>
              forall k :: BufferSize() <= k < maxPAddr ==> window[k] == 255
    {
      BitmapFits();
      var n := 8 * maxPAddr;
      if LowestFree(Used(), n) == n {
        forall k | BufferSize() <= k < maxPAddr
          ensures window[k] == 255
        {
          FramesFull(window[..], k);
        }
      }
      if forall k :: BufferSize() <= k < maxPAddr ==> window[k] == 255 {
        forall g | 0 <= g < n
          ensures g in Used()
        {
          if g >= 8 * BufferSize() {
            FullFrames(window[..], g / 8, g % 8);
          }
        }
        LowestIs(Used(), n, n);
      }
    }

    /**
     Otherwise the scan reports a frame behind a full bitmap.  Taking its location then succeeds
     exactly when the frame is still within memory, and is refused as invalid when it is not.
     */
    lemma ScanPastBitmap()
      requires Valid()
      requires forall g :: 0 <= g < 8 * BufferSize() ==> g in Used()
      ensures var f := LowestFree(Used(), 8 * maxPAddr);
              f < 8 * maxPAddr && f * frameSize < 0x1_0000_0000_0000_0000 ==>
                && f >= 8 * BufferSize()
                && AllocateFrame(Used(), frameSize, maxPAddr, f * frameSize, true) ==
                   if f <= FrameIndex(maxPAddr, frameSize) then (Used() + {f}, Success)
                   else (Used(), InvalidMemoryLocation)
    {
      var f := LowestFree(Used(), 8 * maxPAddr);
      if f < 8 * maxPAddr && f * frameSize < 0x1_0000_0000_0000_0000 {
        FrameWithin(f);
        if f <= FrameIndex(maxPAddr, frameSize) {
          AllocateAt(Used(), frameSize, maxPAddr, f);
        }
      }
    }

    lemma FrameWithin(f: nat)
      requires Valid()
      ensures f <= FrameIndex(maxPAddr, frameSize) <==> f * frameSize <= maxPAddr
    {
      var q: int, d: int := FrameIndex(maxPAddr, frameSize), frameSize;
      assert maxPAddr == d * q + maxPAddr % d;
      assert d * (q - f) == d * q - f * d;
      if f > q {
        MulAtLeast(d, f - q);
        assert d * (f - q) == f * d - d * q;
      } else if f < q {
        MulAtLeast(d, q - f);
      }
    }

    /**
     With memory up to 0x800000 and all 2048 frames of the bitmap used, the scan reports 0x800000
     when the byte behind the bitmap is 0, and that can be allocated; when it is 1 the scan
     reports 0x801000, which is refused.
     */
    lemma FullBitmapMissed()
      requires Valid() && frameSize == 0x1000 && maxPAddr == 0x80_0000
      requires forall g :: 0 <= g < 2048 ==> g in Used()
      ensures BufferSize() == 256
      ensures window[256] == 0 ==>
                && LowestFree(Used(), 8 * maxPAddr) * frameSize == 0x80_0000
                && AllocateFrame(Used(), frameSize, maxPAddr, 0x80_0000, true) == (Used() + {2048}, Success)
      ensures window[256] == 1 ==>
                && LowestFree(Used(), 8 * maxPAddr) * frameSize == 0x80_1000
                && AllocateFrame(Used(), frameSize, maxPAddr, 0x80_1000, true) == (Used(), InvalidMemoryLocation)
    {
      assert BufferSize() == 256;
      ScanPastBitmap();
      if window[256] == 0 {
        ByteFrames(window[..], 256, 0);
        LowestIs(Used(), 8 * maxPAddr, 2048);
      } else if window[256] == 1 {
        ByteFrames(window[..], 256, 1);
        LowestIs(Used(), 8 * maxPAddr, 2049);
      }
    }

    /**
     A location touches the byte after the bitmap exactly when it lies beyond the memory the
     bitmap's bits cover: the largest address itself is always such a location.
     */
    lemma TouchesPastBitmap(location: u64)
      requires Valid() && location <= maxPAddr
      ensures ByteIndex(location, frameSize) == BufferSize() <==> location >= BufferSize() * (8 * frameSize)
      ensures ByteIndex(location, frameSize) <= BufferSize()
      ensures maxPAddr >= BufferSize() * (8 * frameSize)
    {
      var d := 8 * frameSize;
      var q, b := ByteIndex(location, frameSize), BufferSize();
      assert location == d * q + location % d && maxPAddr == d * b + maxPAddr % d;
      assert d * (q - b) == d * q - d * b;
      if q > b {
        MulAtLeast(d, q - b);
      } else if q < b {
        MulAtLeast(d, b - q);
      }
    }
  }

  /** One frame: MmLookupFreePhysFrame, and MmAllocatePhysFrame on the location it reports. */
  method TakeOne(mm: FrameManager) returns (location: u64)
    requires mm.Valid() && LowestFree(mm.Used(), 8 * mm.BufferSize()) < 8 * mm.BufferSize()
    modifies mm.window
    ensures location == old(LowestFree(mm.Used(), 8 * mm.BufferSize())) * mm.frameSize
    ensures mm.Used() == old(mm.Used()) + {old(LowestFree(mm.Used(), 8 * mm.BufferSize()))}
  {
    mm.NextFree();
    var status;
    status, location := mm.LookupFreePhysFrame();
    status := mm.AllocatePhysFrame(location, true);
  }

  /**
   Repeating the two calls hands out the free frames of the bitmap, lowest first: strictly
   increasing locations, no frame twice and none left out (DrainIncreases).
   */
  method Take(mm: FrameManager, count: nat) returns (locations: seq<u64>)
    requires mm.Valid() && count <= |Drain(mm.Used(), 8 * mm.BufferSize())|
    modifies mm.window
    ensures |locations| == count
    ensures forall i :: 0 <= i < count ==>
              locations[i] == old(Drain(mm.Used(), 8 * mm.BufferSize()))[i] * mm.frameSize
    ensures mm.Used() == old(mm.Used()) + (set i | 0 <= i < count :: old(Drain(mm.Used(), 8 * mm.BufferSize()))[i])
  {
    ghost var used, n := mm.Used(), 8 * mm.BufferSize();
    ghost var drain := Drain(used, n);
    locations := [];
    assert drain[0..] == drain;
    for k := 0 to count
      invariant |locations| == k
      invariant Drain(mm.Used(), n) == drain[k..]
      invariant forall i :: 0 <= i < k ==> locations[i] == drain[i] * mm.frameSize
      invariant mm.Used() == used + set i | 0 <= i < k :: drain[i]
    {
      assert drain[k..][1..] == drain[k + 1..] && drain[k..][0] == drain[k];
      assert (set i | 0 <= i < k + 1 :: drain[i]) == (set i | 0 <= i < k :: drain[i]) + {drain[k]};
      var location := TakeOne(mm);
      locations := locations + [location];
    }
  }

  lemma AllocateAt(used: set<nat>, frameSize: u64, maxPAddr: u64, f: nat)
    requires frameSize > 0 && 0 <= f * frameSize <= maxPAddr && f !in used
    ensures FrameIndex(f * frameSize, frameSize) == f
    ensures AllocateFrame(used, frameSize, maxPAddr, f * frameSize, true) == (used + {f}, Success)
  {
    QuotientUnique(f * frameSize, frameSize, f, 0);
  }

  /** The bits of one byte are eight consecutive frames. */
  lemma ByteFrames(bytes: seq<bv8>, block: nat, bit: nat)
    requires block < |bytes| && bit <= 8
    requires forall j :: 0 <= j < bit ==> Bit(bytes[block], j)
    requires forall g :: 0 <= g < 8 * block ==> g in UsedFrames(bytes)
    ensures forall g :: 0 <= g < 8 * block + bit ==> g in UsedFrames(bytes)
    ensures bit < 8 && !Bit(bytes[block], bit) ==> 8 * block + bit !in UsedFrames(bytes)
  {
    forall g | 8 * block <= g < 8 * block + bit
      ensures g in UsedFrames(bytes)
    {
      assert Bit(bytes[block], g - 8 * block);
      assert IsUsed(bytes, g);
    }
    if bit < 8 {
      assert (8 * block + bit) / 8 == block && (8 * block + bit) % 8 == bit;
    }
  }

  lemma WrapLocation(frameSize: u64, block: nat, bit: nat)
    ensures Wrap64(Wrap64(frameSize * block * 8) + Wrap64(bit * frameSize)) == Wrap64((8 * block + bit) * frameSize)
  {
    WrapSum(frameSize * block * 8, bit * frameSize);
    assert (8 * block + bit) * frameSize == frameSize * block * 8 + bit * frameSize;
  }

  lemma LowestIs(used: set<nat>, n: nat, f: nat)
    requires f <= n && (f < n ==> f !in used) && forall g :: 0 <= g < f ==> g in used
    ensures LowestFree(used, n) == f
  {
  }

  lemma Fits64(x: int)
    requires 0 <= x < 0x1_0000_0000_0000_0000
    ensures Wrap64(x) == x
  {
  }

  lemma WrapSum(a: nat, b: nat)
    ensures Wrap64(Wrap64(a) + Wrap64(b)) == Wrap64(a + b)
  {
  }

  /** A byte is full exactly when its eight frames are used. */
  lemma FullFrames(bytes: seq<bv8>, k: nat, j: nat)
    requires k < |bytes| && bytes[k] == 255 && j < 8
    ensures 8 * k + j in UsedFrames(bytes)
  {
    FullByte(bytes[k]);
    assert (8 * k + j) / 8 == k && (8 * k + j) % 8 == j;
    assert IsUsed(bytes, 8 * k + j);
  }

  lemma FramesFull(bytes: seq<bv8>, k: nat)
    requires k < |bytes| && forall g :: 8 * k <= g < 8 * k + 8 ==> g in UsedFrames(bytes)
    ensures bytes[k] == 255
  {
    forall j | 0 <= j < 8
      ensures Bit(bytes[k], j)
    {
      assert 8 * k + j in UsedFrames(bytes);
      assert (8 * k + j) / 8 == k && (8 * k + j) % 8 == j;
    }
    FullByte(bytes[k]);
  }

  lemma FullByte(b: bv8)
    ensures b == 255 <==> forall j :: 0 <= j < 8 ==> Bit(b, j)
  {
    if forall j :: 0 <= j < 8 ==> Bit(b, j) {
      assert Bit(b, 0) && Bit(b, 1) && Bit(b, 2) && Bit(b, 3) && Bit(b, 4) && Bit(b, 5) && Bit(b, 6) && Bit(b, 7);
    }
    if b == 255 {
      forall j | 0 <= j < 8
        ensures Bit(b, j)
      {
        assert j == 0 || j == 1 || j == 2 || j == 3 || j == 4 || j == 5 || j == 6 || j == 7;
      }
    }
  }
}
