/** The routines of kern/arch/x86_64/mm/paging.c that read and write page tables in place. */
module AddressSpaces {
  import opened Words
  import opened PageTables
  import opened PageTableProofs
  import opened Addresses
  import opened Validation

  class AddressSpace {
    /** Physical memory, as far as it is read as page tables. */
    var mem: Memory
    /** The frames MmKernelMalloc will hand out next. */
    var pool: seq<u64>

    ghost predicate Valid(pml4: nat)
      reads this
    {
      WellFormed(mem, pool, pml4)
    }

    /** x86FindPageLevels: fills the caller's array, lowest level first. */
    static method FindPageLevels(address: u64, levels: array<nat>) returns (status: Status)
      requires levels.Length == 4
      modifies levels
      ensures status == Success
      ensures levels[..] == [Level0(address), Level1(address), Level2(address), Level3(address)]
      ensures forall k :: 0 <= k < 4 ==> levels[k] < 512
      ensures (((levels[3] * 512 + levels[2]) * 512 + levels[1]) * 512 + levels[0]) * 0x1000 + address % 0x1000
              == address % 0x1_0000_0000_0000
    {
      levels[0] := address / 0x1000 % 512;
      levels[1] := address / 0x20_0000 % 512;
      levels[2] := address / 0x4000_0000 % 512;
      levels[3] := address / 0x80_0000_0000 % 512;
      LevelsRebuild(address);
      return Success;
    }

    /** x86ValidateVirtualAddress as written; a null PML4 leaves the result alone. */
    method ValidateVirtualAddress(pml4: Option<nat>, address: u64, initial: bool)
      returns (status: Status, result: bool)
      ensures pml4.None? ==> status == MemoryPageFailure && result == initial
      ensures pml4.Some? ==> status == Success && result == ReportsInUse(mem, pml4.value, PageOf(address))
    {
      if pml4.None? {
        return MemoryPageFailure, initial;
      }
      var levels := new nat[4];
      status := FindPageLevels(address, levels);
      if !Get(mem, pml4.value, levels[3]).present {
        return Success, false;
      }
      var pdp := Get(mem, pml4.value, levels[3]).frame;
      if !Get(mem, pdp, levels[2]).present {
        return Success, false;
      }
      var pd := Get(mem, pdp, levels[2]).frame;
      if !Get(mem, pd, levels[1]).present {
        return Success, false;
      }
      var pt := Get(mem, pdp, levels[1]).frame;
      if Get(mem, pt, levels[0]).present {
        return Success, true;
      }
      return Success, false;
    }

    /** One of the three descents of x86MapAddress. */
    method NextTable(table: nat, index: nat) returns (next: nat)
      requires table in mem && index < 512
      requires !mem[table][index].present ==> |pool| > 0
      modifies this
      ensures (mem, pool, next) == Descend(old(mem), old(pool), table, index)
    {
      if mem[table][index].present {
        next := mem[table][index].frame;
      } else {
        // MmKernelMalloc, then KiSetMemoryBytes
        next, pool := pool[0], pool[1..];
        mem := mem[next := ZeroTable()];
        // Raw |= the table's address; Present and Writable are set after it
        var e := mem[table][index];
        e := e.(frame := BitOr(e.frame, next), high := BitOr(e.high, 0));
        e := e.(present := true);
        e := e.(writable := true);
        mem := mem[table := mem[table][index := e]];
      }
    }

    /** The table updates of x86MapAddress, once the indexes are known. */
    method WriteTables(pml4: nat, p: Page, frame: u64, high: u64) returns (status: Status)
      requires Valid(pml4) && |pool| >= 3 && p.Valid()
      modifies this
      ensures Outcome(mem, pool, status) == MapPage(old(mem), old(pool), pml4, frame, high, p)
    {
      ghost var owner :| TreeOK(mem, pml4, owner) && PoolOK(pool, owner);
      ghost var owner' := Descents(mem, pool, pml4, owner, p);
      var pdp := NextTable(pml4, p.i3);
      var pd := NextTable(pdp, p.i2);
      var pt := NextTable(pd, p.i1);
      var e := mem[pt][p.i0];
      if e.present {
        return MemoryPageFailure;
      }
      e := e.(frame := BitOr(e.frame, frame), high := BitOr(e.high, high));
      e := e.(present := true);
      e := e.(writable := true);
      mem := mem[pt := mem[pt][p.i0 := e]];
      return Success;
    }

    /** x86MapAddress */
    method MapAddress(pml4: nat, physical: u64, virt: u64) returns (status: Status)
      requires Valid(pml4) && |pool| >= 3
      modifies this
      ensures Outcome(mem, pool, status) == MapStep(old(mem), old(pool), pml4, physical, virt)
      ensures Valid(pml4) && |pool| >= |old(pool)| - 3
      ensures status == Success <==> PageOf(virt) !in old(View(mem, pml4))
      ensures status == Success ==>
                View(mem, pml4) ==
                old(View(mem, pml4))[PageOf(virt) := Mapping(FrameOf(physical), HighOf(physical))]
      ensures status != Success ==> status == MemoryPageFailure && mem == old(mem) && pool == old(pool)
    {
      var levels := new nat[4];
      status := FindPageLevels(virt, levels);
      var p := Page(levels[3], levels[2], levels[1], levels[0]);
      assert p == PageOf(virt);
      MapRefines(mem, pool, pml4, FrameOf(physical), HighOf(physical), p);
      status := WriteTables(pml4, p, FrameOf(physical), HighOf(physical));
    }

    /**
     x86UnmapAddress as written.  Its first test accepts a present entry, so the branches below
     the top level are never reached (paging.c:298-302 and 308-358).
     */
    method UnmapAddress(pml4: nat, virt: u64) returns (status: Status)
      requires pml4 in mem
      modifies this`mem
      ensures Outcome(mem, pool, status) == UnmapStep(old(mem), old(pool), pml4, virt)
      ensures old(Valid(pml4)) ==> Valid(pml4) && View(mem, pml4) == WithoutSlot(old(View(mem, pml4)), Level3(virt))
    {
      if Valid(pml4) {
        UnmapRefines(mem, pool, pml4, Level3(virt));
      }
      var levels := new nat[4];
      status := FindPageLevels(virt, levels);
      var e := mem[pml4][levels[3]];
      if e.present || e.huge {
        mem := mem[pml4 := mem[pml4][levels[3] := ZERO]];
        return Success;
      } else {
        return MemoryPageFailure;
      }
    }
  }
}
