/**
 The tables the boot code builds (init64.asm and init.asm), what they translate, and what is
 left after the startup code unmaps address 0.
 */
module BootTables {
  import opened Words
  import opened Quotients
  import opened PageTables
  import opened AddressSpaces

  /** A table entry `(table - KERN_VIRT_OFFSET) + 3` */
  function TableLink(frame: nat): Entry { Entry(true, true, false, 0, frame, 0) }

  /** p4_table and p3_table: the first and the last entry lead to the same next table. */
  function EndsTable(next: u64): Table {
    ZeroTable()[0 := TableLink(next)][511 := TableLink(next)]
  }

  /** The word the loop over ecx stores: 2 MiB * i, present, writable and huge. */
  function HugeWord(i: nat): u32
    requires i < 512
  {
    0x20_0000 * i + 0x83
  }

  function HugeTable(): Table {
    seq(512, i requires 0 <= i < 512 => Entry(true, true, true, 0, i * 512, 0))
  }

  /** The boot tables in three different frames. */
  ghost predicate IsBootMemory(m: Memory, p4: u64, p3: u64, p2: u64) {
    && p4 != p3 && p4 != p2 && p3 != p2
    && p4 in m && m[p4] == EndsTable(p3)
    && p3 in m && m[p3] == EndsTable(p2)
    && p2 in m && m[p2] == HugeTable()
  }

  lemma HugeWordBits(i: nat)
    requires i < 512
    ensures (0x20_0000 * i + 0x83) % 2 == 1 && (0x20_0000 * i + 0x83) / 2 % 2 == 1
    ensures (0x20_0000 * i + 0x83) / 128 % 2 == 1
  {
    QuotientUnique(0x20_0000 * i + 0x83, 2, 0x10_0000 * i + 0x41, 1);
    QuotientUnique(0x10_0000 * i + 0x41, 2, 0x8_0000 * i + 0x20, 1);
    QuotientUnique(0x20_0000 * i + 0x83, 128, 0x4000 * i + 1, 3);
    QuotientUnique(0x4000 * i + 1, 2, 0x2000 * i, 1);
  }

  lemma HugeWordFlags(i: nat)
    requires i < 512
    ensures (0x20_0000 * i + 0x83) / 4 % 32 == 0 && (0x20_0000 * i + 0x83) / 256 % 16 == 0
  {
    QuotientUnique(0x20_0000 * i + 0x83, 4, 0x8_0000 * i + 0x20, 3);
    QuotientUnique(0x8_0000 * i + 0x20, 32, 0x4000 * i + 1, 0);
    QuotientUnique(0x20_0000 * i + 0x83, 256, 0x2000 * i, 0x83);
    QuotientUnique(0x2000 * i, 16, 0x200 * i, 0);
  }

  lemma HugeWordFrame(i: nat)
    requires i < 512
    ensures (0x20_0000 * i + 0x83) / 0x1000 % 0x100_0000_0000 == i * 512
    ensures (0x20_0000 * i + 0x83) / 0x10_0000_0000_0000 == 0
  {
    QuotientUnique(0x20_0000 * i + 0x83, 0x1000, 0x200 * i, 0x83);
  }

  lemma HugeWordDecodes(i: nat)
    requires i < 512
    ensures Decode(HugeWord(i)) == Entry(true, true, true, 0, i * 512, 0)
  {
    HugeWordBits(i);
    HugeWordFlags(i);
    HugeWordFrame(i);
  }

  lemma LinkWordBits(f: nat)
    ensures (f * 0x1000 + 3) % 2 == 1 && (f * 0x1000 + 3) / 2 % 2 == 1 && (f * 0x1000 + 3) / 128 % 2 == 0
  {
    QuotientUnique(f * 0x1000 + 3, 2, f * 0x800 + 1, 1);
    QuotientUnique(f * 0x800 + 1, 2, f * 0x400, 1);
    QuotientUnique(f * 0x1000 + 3, 128, f * 0x20, 3);
    QuotientUnique(f * 0x20, 2, f * 0x10, 0);
  }

  lemma LinkWordFlags(f: nat)
    ensures (f * 0x1000 + 3) / 4 % 32 == 0 && (f * 0x1000 + 3) / 256 % 16 == 0
  {
    QuotientUnique(f * 0x1000 + 3, 4, f * 0x400, 3);
    QuotientUnique(f * 0x400, 32, f * 0x20, 0);
    QuotientUnique(f * 0x1000 + 3, 256, f * 0x10, 3);
    QuotientUnique(f * 0x10, 16, f, 0);
  }

  lemma LinkWordFrame(f: nat)
    requires f < 0x100_0000_0000
    ensures (f * 0x1000 + 3) / 0x1000 % 0x100_0000_0000 == f && (f * 0x1000 + 3) / 0x10_0000_0000_0000 == 0
  {
    QuotientUnique(f * 0x1000 + 3, 0x1000, f, 3);
    QuotientUnique(f * 0x1000 + 3, 0x10_0000_0000_0000, 0, f * 0x1000 + 3);
  }

  /** The words of p4_table and p3_table at both ends. */
  lemma LinkWordDecodes(frame: u64)
    requires frame < 0x100_0000_0000
    ensures Decode(frame * 0x1000 + 3) == TableLink(frame)
  {
    LinkWordBits(frame);
    LinkWordFlags(frame);
    LinkWordFrame(frame);
  }

  /** The zero words between them. */
  lemma ZeroWordDecodes()
    ensures Decode(0) == ZERO
  {
  }

  /** A 32-bit store into the low half of a word. */
  function StoreLow(word: u64, low: u32): u64 { word / 0x1_0000_0000 * 0x1_0000_0000 + low }

  /**
   The loop that fills p2_table: ecx counts to 512, and each pass stores the low 32 bits of the
   product, whose low 21 bits are clear, with the flags.  The upper half of each word stays, so
   words whose upper half is zero, as in the image, become the huge entries.
   */
  method FillP2(p2: array<u64>)
    requires p2.Length == 512
    modifies p2
    ensures forall k :: 0 <= k < 512 ==> p2[k] == StoreLow(old(p2[k]), HugeWord(k))
    ensures forall k :: 0 <= k < 512 && old(p2[k]) < 0x1_0000_0000 ==> Decode(p2[k]) == HugeTable()[k]
  {
    FillLoop(p2);
    forall k | 0 <= k < 512 && old(p2[k]) < 0x1_0000_0000
      ensures Decode(p2[k]) == HugeTable()[k]
    {
      LowHalfOnly(old(p2[k]), HugeWord(k));
      HugeWordDecodes(k);
    }
  }

  lemma LowHalfOnly(word: u64, low: u32)
    requires word < 0x1_0000_0000
    ensures StoreLow(word, low) == low
  {
  }

  lemma Product(ecx: nat)
    requires ecx < 512
    ensures Wrap32(0x20_0000 * ecx) == 0x20_0000 * ecx && 0x20_0000 * ecx + 0x83 == HugeWord(ecx)
  {
  }

  method FillLoop(p2: array<u64>)
    requires p2.Length == 512
    modifies p2
    ensures forall k :: 0 <= k < 512 ==> p2[k] == StoreLow(old(p2[k]), HugeWord(k))
  {
    var ecx := 0;
    while true
      invariant 0 <= ecx < 512
      invariant forall k :: 0 <= k < ecx ==> p2[k] == StoreLow(old(p2[k]), HugeWord(k))
      invariant forall k :: ecx <= k < 512 ==> p2[k] == old(p2[k])
      decreases 512 - ecx
    {
      Product(ecx);
      var eax := Wrap32(0x20_0000 * ecx);
      p2[ecx] := StoreLow(p2[ecx], eax + 0x83);
      ecx := ecx + 1;
      if ecx == 512 {
        break;
      }
    }
  }

  /** Whether a level-4 or level-3 index selects one of the two filled entries. */
  predicate AtEnd(i: nat) { i == 0 || i == 511 }

  lemma BootLeaf(m: Memory, p4: u64, p3: u64, p2: u64, p: Page)
    requires IsBootMemory(m, p4, p3, p2) && p.Valid()
    ensures FindLeaf(m, p4, p) ==
            if AtEnd(p.i3) && AtEnd(p.i2) then Leaf(HugeTable()[p.i1], 2, true) else NoLeaf
  {
  }

  /**
   The boot tables translate an address exactly when both upper indexes are 0 or 511, and then
   to its low 30 bits.
   */
  lemma BootTranslates(m: Memory, p4: u64, p3: u64, p2: u64, a: u64)
    requires IsBootMemory(m, p4, p3, p2)
    ensures Walk(m, p4, a) ==
            if AtEnd(Level3(a)) && AtEnd(Level2(a)) then Mapped(a % 0x4000_0000, true) else Fault
  {
    BootLeaf(m, p4, p3, p2, PageOf(a));
    DivDiv(a, 0x20_0000, 512);
  }

  /** KERN_PHYS_TO_VIRT for an address below 1 GiB: KERN_VIRT_OFFSET is added. */
  function HighHalf(p: u64): u64
    requires p < 0x4000_0000
  {
    p + 0xFFFF_FF80_0000_0000
  }

  lemma HighHalfIndexes(p: u64)
    requires p < 0x4000_0000
    ensures Level3(p) == 0 && Level2(p) == 0 && p % 0x4000_0000 == p
    ensures Level3(HighHalf(p)) == 511 && Level2(HighHalf(p)) == 0 && HighHalf(p) % 0x4000_0000 == p
  {
    QuotientUnique(HighHalf(p), 0x80_0000_0000, 0x1FF_FFFF, p);
    QuotientUnique(HighHalf(p), 0x4000_0000, 0x3_FFFF_FE00, p);
  }

  lemma BootMapsAt(m: Memory, p4: u64, p3: u64, p2: u64, a: u64, p: nat)
    requires IsBootMemory(m, p4, p3, p2)
    requires AtEnd(Level3(a)) && AtEnd(Level2(a)) && a % 0x4000_0000 == p
    ensures Walk(m, p4, a) == Mapped(p, true)
  {
    BootTranslates(m, p4, p3, p2, a);
  }

  /** Every physical address below 1 GiB is mapped at itself and at KERN_VIRT_OFFSET above itself. */
  lemma BootMapsFirstGigabyte(m: Memory, p4: u64, p3: u64, p2: u64, p: u64)
    requires IsBootMemory(m, p4, p3, p2) && p < 0x4000_0000
    ensures Walk(m, p4, p) == Mapped(p, true)
    ensures Walk(m, p4, p + 0xFFFF_FF80_0000_0000) == Mapped(p, true)
  {
    HighHalfIndexes(p);
    BootMapsAt(m, p4, p3, p2, p, p);
    BootMapsAt(m, p4, p3, p2, HighHalf(p), p);
  }

  lemma UnmapZeroLeaf(m: Memory, p4: u64, p3: u64, p2: u64, p: Page)
    requires IsBootMemory(m, p4, p3, p2) && p.Valid()
    ensures var r := ClearSlot(m, [], p4, 0);
            && r.status == Success
            && FindLeaf(r.mem, p4, p) == if p.i3 == 0 then NoLeaf else FindLeaf(m, p4, p)
  {
    BootLeaf(m, p4, p3, p2, p);
  }

  /** After the unmap of address 0 an address translates as before, unless it lies in slot 0. */
  lemma UnmapZeroWalk(m: Memory, p4: u64, p3: u64, p2: u64, a: u64)
    requires IsBootMemory(m, p4, p3, p2)
    ensures Walk(ClearSlot(m, [], p4, 0).mem, p4, a) == if Level3(a) == 0 then Fault else Walk(m, p4, a)
  {
    UnmapZeroLeaf(m, p4, p3, p2, PageOf(a));
  }

  /** The high half stays: each physical address below 1 GiB is still mapped above KERN_VIRT_OFFSET. */
  lemma HighHalfStays(m: Memory, p4: u64, p3: u64, p2: u64, p: u64)
    requires IsBootMemory(m, p4, p3, p2) && p < 0x4000_0000
    ensures Walk(ClearSlot(m, [], p4, 0).mem, p4, p + 0xFFFF_FF80_0000_0000) == Mapped(p, true)
  {
    HighHalfIndexes(p);
    UnmapZeroWalk(m, p4, p3, p2, HighHalf(p));
    BootMapsAt(m, p4, p3, p2, HighHalf(p), p);
  }

  /**
   KiStartupProcessorMachineDependent unmaps address 0: afterwards nothing in slot 0 translates,
   and everything else translates as before, although both slots share p3_table.
   */
  method UnmapLowMemory(space: AddressSpace, p4: u64, ghost p3: u64, ghost p2: u64) returns (status: Status)
    requires IsBootMemory(space.mem, p4, p3, p2)
    modifies space`mem
    ensures status == Success
    ensures forall a: u64 :: Walk(space.mem, p4, a) == if Level3(a) == 0 then Fault else old(Walk(space.mem, p4, a))
  {
    ghost var before := space.mem;
    UnmapZeroLeaf(before, p4, p3, p2, PageOf(0));
    status := space.UnmapAddress(p4, 0);
    forall a: u64
      ensures Walk(space.mem, p4, a) == if Level3(a) == 0 then Fault else Walk(before, p4, a)
    {
      UnmapZeroWalk(before, p4, p3, p2, a);
    }
  }
}
