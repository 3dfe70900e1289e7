/**
 How memory management learns about memory: the Multiboot2 memory map is converted three times
 (kern/entry/mb2entry.c, kern/kernel_main.c, kern/mm/mmsetup.c), and the largest address found.
 */
module MemoryStart {
  import opened Words

  // ----- the memory map

  /** A Multiboot2 memory-map entry (section 3.6.8 of the Multiboot2 Specification). */
  datatype MmapEntry = MmapEntry(addr: u64, len: u64, kind: u32)

  datatype Usage = FreeArea | ReservedArea | OtherArea

  datatype BootRange = BootRange(start: u64, end: u64, usage: Usage)

  datatype MmRange = MmRange(usage: Usage, start: u64, end: u64, size: u64)

  function Classify(kind: u32): Usage {
    if kind == 1 then FreeArea
    else if kind == 2 || kind == 3 || kind == 4 then ReservedArea
    else OtherArea
  }

  function Larger(x: u64, y: u64): u64 { if y > x then y else x }

  /** The largest of some addresses, and of `initial`. */
  function Largest(ends: seq<u64>, initial: u64): u64
    decreases |ends|
  {
    if ends == [] then initial else Larger(Largest(ends[..|ends| - 1], initial), ends[|ends| - 1])
  }

  lemma {:induction false} LargestIsMaximum(ends: seq<u64>, initial: u64)
    ensures forall i :: 0 <= i < |ends| ==> ends[i] <= Largest(ends, initial)
    ensures Largest(ends, initial) == initial || Largest(ends, initial) in ends
    ensures initial <= Largest(ends, initial)
    decreases |ends|
  {
    if ends != [] {
      var front := ends[..|ends| - 1];
      LargestIsMaximum(front, initial);
      assert forall i :: 0 <= i < |front| ==> ends[i] == front[i];
    }
  }

  function ToBoot(e: MmapEntry): BootRange {
    BootRange(e.addr, Wrap64(e.addr + e.len), Classify(e.kind))
  }

  function ToMm(b: BootRange): MmRange {
    MmRange(if b.start < 0x10_0000 then ReservedArea else b.usage, b.start, b.end, Wrap64(b.end - b.start))
  }

  function BootEnds(entries: seq<MmapEntry>): seq<u64> {
    seq(|entries|, i requires 0 <= i < |entries| => ToBoot(entries[i]).end)
  }

  /** HandleMemory: one range per entry, and the largest end seen so far. */
  method HandleMemory(size: u32, entrySize: u32, entries: seq<MmapEntry>, ranges: array<BootRange>, maxAddress: u64)
    returns (count: nat, newMax: u64)
    requires entrySize > 0 && size / entrySize <= |entries| && size / entrySize <= ranges.Length
    modifies ranges
    ensures count == size / entrySize
    ensures forall i :: 0 <= i < count ==> ranges[i] == ToBoot(entries[i])
    ensures forall i :: 0 <= i < count ==>
              && ranges[i].start == entries[i].addr
              && ranges[i].end == (entries[i].addr + entries[i].len) % 0x1_0000_0000_0000_0000
    ensures forall i :: 0 <= i < count ==>
              && (ranges[i].usage == FreeArea <==> entries[i].kind == 1)
              && (ranges[i].usage == ReservedArea <==> 2 <= entries[i].kind <= 4)
    ensures newMax == Largest(BootEnds(entries[..count]), maxAddress)
  {
    count := size / entrySize;
    newMax := maxAddress;
    assert BootEnds(entries[..0]) == [];
    for index := 0 to count
      invariant forall i :: 0 <= i < index ==> ranges[i] == ToBoot(entries[i])
      invariant newMax == Largest(BootEnds(entries[..index]), maxAddress)
    {
      var entry := entries[index];
      var start := entry.addr;
      var end := Wrap64(start + entry.len);
      ranges[index] := BootRange(start, end, Classify(entry.kind));
      if end > newMax {
        newMax := end;
      }
      assert BootEnds(entries[..index + 1])[..index] == BootEnds(entries[..index]);
    }
  }

  /** The conversion loop of KiStartupSystem: memory below 1 MiB is never used. */
  method ConvertRanges(boot: seq<BootRange>, ranges: array<MmRange>)
    requires |boot| <= ranges.Length
    modifies ranges
    ensures forall i :: 0 <= i < |boot| ==> ranges[i] == ToMm(boot[i])
  {
    for index := 0 to |boot|
      invariant forall i :: 0 <= i < index ==> ranges[i] == ToMm(boot[i])
    {
      var b := boot[index];
      var range := MmRange(b.usage, b.start, b.end, Wrap64(b.end - b.start));
      if range.start < 1024 * 1024 {
        range := range.(usage := ReservedArea);
      }
      ranges[index] := range;
    }
  }

  function MmEnds(ranges: seq<MmRange>): seq<u64> {
    seq(|ranges|, i requires 0 <= i < |ranges| => ranges[i].end)
  }

  /** The first loop of KiInitializeMemMgr. */
  method FindMaxPAddr(ranges: seq<MmRange>) returns (maxPAddr: u64)
    ensures maxPAddr == Largest(MmEnds(ranges), 0)
  {
    maxPAddr := 0;
    assert MmEnds(ranges)[..0] == [];
    for n := 0 to |ranges|
      invariant maxPAddr == Largest(MmEnds(ranges)[..n], 0)
    {
      var range := ranges[n];
      if range.end > maxPAddr {
        maxPAddr := range.end;
      }
      assert MmEnds(ranges)[..n + 1][..n] == MmEnds(ranges)[..n];
    }
    assert MmEnds(ranges)[..|ranges|] == MmEnds(ranges);
  }

  /** The sizes in a tag of 24-byte entries: the 16-byte header does not disturb the count. */
  lemma TagCount(n: nat)
    ensures (16 + 24 * n) / 24 == n
  {
  }

  /** A range after all conversions in numbers: free exactly for type 1 at or above 1 MiB, and when reserved. */
  ghost predicate Converted(e: MmapEntry, r: MmRange) {
    && r.start == e.addr && r.size == e.len && r.end == (e.addr + e.len) % 0x1_0000_0000_0000_0000
    && (r.usage == FreeArea <==> e.kind == 1 && e.addr >= 0x10_0000)
    && (r.usage == ReservedArea <==> e.addr < 0x10_0000 || e.kind == 2 || e.kind == 3 || e.kind == 4)
  }

  /** A range after all the conversions. */
  function Final(e: MmapEntry): MmRange { ToMm(ToBoot(e)) }

  /** Start and length survive all conversions, the end is their sum, low memory is reserved. */
  lemma ConversionsKeep(e: MmapEntry)
    ensures Final(e).start == e.addr && Final(e).size == e.len && Final(e).end == Wrap64(e.addr + e.len)
    ensures Final(e).usage == if e.addr < 0x10_0000 then ReservedArea else Classify(e.kind)
    ensures Converted(e, Final(e))
  {
    var end := e.addr + e.len;
    if end >= 0x1_0000_0000_0000_0000 {
      assert Wrap64(end) == end - 0x1_0000_0000_0000_0000;
    }
  }

  /**
   The whole conversion of a well-formed tag of 24-byte entries: one range per entry, in order,
   and the memory manager ends up with the largest address the boot code reported.
   */
  method ConvertMap(entries: seq<MmapEntry>) returns (ranges: array<MmRange>, maxAddress: u64, maxPAddr: u64)
    requires 16 + 24 * |entries| < 0x1_0000_0000
    ensures ranges.Length == |entries|
    ensures forall i :: 0 <= i < |entries| ==> ranges[i] == Final(entries[i]) && Converted(entries[i], ranges[i])
    ensures maxPAddr == maxAddress
    ensures forall i :: 0 <= i < |entries| ==> ranges[i].end <= maxPAddr
    ensures |entries| > 0 ==> exists i :: 0 <= i < |entries| && maxPAddr == ranges[i].end
  {
    var boot, max := HandleTag(entries);
    ranges := new MmRange[|entries|](_ => MmRange(OtherArea, 0, 0, 0));
    ConvertRanges(boot, ranges);
    maxAddress := max;
    AllConverted(entries, boot, ranges[..]);
    maxPAddr := FindMaxPAddr(ranges[..]);
    LargestEnd(ranges[..]);
  }

  /** The ranges and the maximum kern_init finds in a tag of 24-byte entries. */
  method HandleTag(entries: seq<MmapEntry>) returns (boot: seq<BootRange>, max: u64)
    requires 16 + 24 * |entries| < 0x1_0000_0000
    ensures |boot| == |entries| && forall i :: 0 <= i < |entries| ==> boot[i] == ToBoot(entries[i])
    ensures max == Largest(BootEnds(entries), 0)
  {
    TagCount(|entries|);
    var ranges := new BootRange[|entries|](_ => BootRange(0, 0, OtherArea));
    var count, newMax := HandleMemory(16 + 24 * |entries|, 24, entries, ranges, 0);
    assert entries[..count] == entries;
    boot, max := ranges[..], newMax;
  }

  lemma AllConverted(entries: seq<MmapEntry>, boot: seq<BootRange>, ranges: seq<MmRange>)
    requires |ranges| == |boot| == |entries|
    requires forall i :: 0 <= i < |entries| ==> boot[i] == ToBoot(entries[i]) && ranges[i] == ToMm(boot[i])
    ensures forall i :: 0 <= i < |entries| ==> ranges[i] == Final(entries[i]) && Converted(entries[i], ranges[i])
    ensures MmEnds(ranges) == BootEnds(entries)
  {
    forall i | 0 <= i < |entries|
      ensures Converted(entries[i], ranges[i])
    {
      ConversionsKeep(entries[i]);
    }
  }

  /** The largest end is an upper bound and is attained. */
  lemma LargestEnd(ranges: seq<MmRange>)
    ensures forall i :: 0 <= i < |ranges| ==> ranges[i].end <= Largest(MmEnds(ranges), 0)
    ensures |ranges| > 0 ==> exists i :: 0 <= i < |ranges| && Largest(MmEnds(ranges), 0) == ranges[i].end
  {
    var ends := MmEnds(ranges);
    LargestIsMaximum(ends, 0);
    assert forall i :: 0 <= i < |ranges| ==> ends[i] == ranges[i].end;
    if |ranges| > 0 {
      if Largest(ends, 0) == 0 {
        assert ranges[0].end == 0;
      } else {
        var i :| 0 <= i < |ends| && ends[i] == Largest(ends, 0);
      }
    }
  }
}
