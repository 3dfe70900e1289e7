/**
 The memory routines of kern/lib/kernel_memfuncs.c.  They work four bytes at a time, so they
 process the amount rounded up to a multiple of four, and their tail loops never run.
 Memory is one array of bytes, whatever they stand for; a pointer is an offset into it or null.
 */
module MemFuncs {
  import opened Words
  import opened Quotients

  datatype Pointer = Null | At(address: nat)

  /** Copying `n` bytes one after the other, lowest address first. */
  function CopyForward<T>(m: seq<T>, d: nat, s: nat, n: nat): (r: seq<T>)
    requires d + n <= |m| && s + n <= |m|
    ensures |r| == |m|
    decreases n
  {
    if n == 0 then m
    else
      var r := CopyForward(m, d, s, n - 1);
      r[d + n - 1 := r[s + n - 1]]
  }

  /** One of the four assignments in the loop of KiCopyMemory. */
  method CopyByte<T>(mem: array<T>, d: nat, s: nat, k: nat, ghost m: seq<T>)
    requires |m| == mem.Length && d + k < mem.Length && s + k < mem.Length
    requires mem[..] == CopyForward(m, d, s, k)
    modifies mem
    ensures mem[..] == CopyForward(m, d, s, k + 1)
  {
    mem[d + k] := mem[s + k];
  }

  /** One pass of the loop of KiCopyMemory. */
  method CopyFour<T>(mem: array<T>, d: nat, s: nat, k: nat, ghost m: seq<T>)
    requires |m| == mem.Length && d + k + 4 <= mem.Length && s + k + 4 <= mem.Length
    requires mem[..] == CopyForward(m, d, s, k)
    modifies mem
    ensures mem[..] == CopyForward(m, d, s, k + 4)
  {
    CopyByte(mem, d, s, k + 0, m);
    CopyByte(mem, d, s, k + 1, m);
    CopyByte(mem, d, s, k + 2, m);
    CopyByte(mem, d, s, k + 3, m);
  }

  lemma NextIndex(index: nat, amount: nat, rounded: nat)
    requires index % 4 == 0 && index < amount <= rounded && rounded % 4 == 0 && rounded <= 0xFFFF_FFFC
    ensures index + 4 <= rounded && (index + 4) % 4 == 0 && Wrap32(index + 4) == index + 4
  {
  }

  /** The loop of KiCopyMemory; `rounded` is the amount rounded up to a multiple of four. */
  method CopyLoop<T>(mem: array<T>, d: nat, s: nat, amount: u64, ghost rounded: nat)
    requires amount <= rounded < amount + 4 && rounded % 4 == 0 && rounded <= 0xFFFF_FFFC
    requires d + rounded <= mem.Length && s + rounded <= mem.Length
    modifies mem
    ensures mem[..] == CopyForward(old(mem[..]), d, s, rounded)
  {
    ghost var m := mem[..];
    var index: u32 := 0;
    while index < amount
      invariant index <= rounded && index % 4 == 0
      invariant mem[..] == CopyForward(m, d, s, index)
    {
      NextIndex(index, amount, rounded);
      CopyFour(mem, d, s, index, m);
      index := Wrap32(index + 4);
    }
  }

  /**
   KiCopyMemory.  The index is 32 bits wide, so the loop ends only for amounts up to 2^32 - 4:
   see CopyLoopEnds.
   */
  method CopyMemory<T>(mem: array<T>, dest: Pointer, source: Pointer, amount: u64) returns (status: Status)
    requires dest.At? && source.At? ==>
               amount <= 0xFFFF_FFFC &&
               dest.address + Round4(amount) <= mem.Length && source.address + Round4(amount) <= mem.Length
    modifies mem
    ensures dest.Null? || source.Null? ==> status == InvalidMemoryLocation && mem[..] == old(mem[..])
    ensures dest.At? && source.At? ==>
              status == Success &&
              mem[..] == CopyForward(old(mem[..]), dest.address, source.address, Round4(amount))
  {
    if source.Null? || dest.Null? {
      return InvalidMemoryLocation;
    }
    CopyLoop(mem, dest.address, source.address, amount, Round4(amount));
    return Success;
  }

  /** The value of the copy loop's index after `k` passes. */
  function IndexAfter(k: nat): u32 { Wrap32(4 * k) }

  /** The copy loop reaches its end exactly for amounts of at most 2^32 - 4 bytes. */
  lemma CopyLoopEnds(amount: u64)
    ensures (exists k: nat :: IndexAfter(k) >= amount) <==> amount <= 0xFFFF_FFFC
  {
    if amount <= 0xFFFF_FFFC {
      assert IndexAfter((amount + 3) / 4) >= amount;
    }
    forall k: nat
      ensures IndexAfter(k) <= 0xFFFF_FFFC
    {
      IndexBelow(k);
    }
  }

  lemma IndexBelow(k: nat)
    ensures IndexAfter(k) <= 0xFFFF_FFFC
  {
    DivDiv(4 * k, 4, 0x4000_0000);
  }

  /** The block move the copy is meant to be. */
  function Move<T>(m: seq<T>, d: nat, s: nat, n: nat): (r: seq<T>)
    requires d + n <= |m| && s + n <= |m|
  {
    m[..d] + m[s..s + n] + m[d + n..]
  }

  lemma {:induction false} CopyAt<T>(m: seq<T>, d: nat, s: nat, n: nat, i: nat)
    requires d + n <= |m| && s + n <= |m| && i < |m|
    requires d <= s || s + n <= d
    ensures CopyForward(m, d, s, n)[i] == if d <= i < d + n then m[s + i - d] else m[i]
    decreases n
  {
    if n > 0 {
      CopyAt(m, d, s, n - 1, i);
      CopyAt(m, d, s, n - 1, s + n - 1);
    }
  }

  /** For separate regions and for a destination below its source the copy is the block move. */
  lemma CopyIsMove<T>(m: seq<T>, d: nat, s: nat, n: nat)
    requires d + n <= |m| && s + n <= |m|
    requires d <= s || s + n <= d
    ensures CopyForward(m, d, s, n) == Move(m, d, s, n)
  {
    forall i | 0 <= i < |m|
      ensures CopyForward(m, d, s, n)[i] == Move(m, d, s, n)[i]
    {
      CopyAt(m, d, s, n, i);
    }
  }

  /** For a destination above its source the bytes before it repeat with the distance as period. */
  lemma {:induction false} CopyRepeats<T>(m: seq<T>, d: nat, s: nat, n: nat, i: nat)
    requires d + n <= |m| && s + n <= |m| && s < d && i < |m|
    ensures CopyForward(m, d, s, n)[i] == if d <= i < d + n then m[s + (i - d) % (d - s)] else m[i]
    decreases n
  {
    if n > 0 {
      CopyRepeats(m, d, s, n - 1, i);
      if i == d + n - 1 {
        CopyRepeats(m, d, s, n - 1, s + n - 1);
        ModShift(n - 1, d - s);
      }
    }
  }

  lemma ModShift(k: nat, p: nat)
    requires p > 0
    ensures k < p ==> k % p == k
    ensures k >= p ==> k % p == (k - p) % p
  {
    if k < p {
      QuotientUnique(k, p, 0, k);
    } else {
      var q := (k - p) / p;
      assert p * (q + 1) == p * q + p;
      QuotientUnique(k, p, q + 1, (k - p) % p);
    }
  }

  /** KiSetMemoryBytes */
  method SetMemoryBytes<T>(mem: array<T>, dest: nat, val: T, amount: u64)
    requires amount <= 0xFFFF_FFFF_FFFF_FFFC && dest + Round4(amount) <= mem.Length
    modifies mem
    ensures mem[..] == old(mem[..dest]) + seq(Round4(amount), _ => val) + old(mem[dest + Round4(amount)..])
  {
    var index: u64 := 0;
    while index < amount
      invariant index <= Round4(amount) && index % 4 == 0
      invariant forall k :: dest <= k < dest + index ==> mem[k] == val
      invariant forall k :: 0 <= k < dest || dest + index <= k < mem.Length ==> mem[k] == old(mem[k])
    {
      mem[dest + index] := val;
      mem[dest + index + 1] := val;
      mem[dest + index + 2] := val;
      mem[dest + index + 3] := val;
      index := Wrap64(index + 4);
    }
  }

  /**
   KiCompareMemory.  The first loop reads eight bytes at every offset and its verdict is
   overwritten by the second, which compares the rounded amount.
   */
  method CompareMemory<T(==)>(mem: array<T>, source: Pointer, dest: Pointer, amount: u64, initial: bool)
    returns (status: Status, val: bool)
    requires dest.At? && source.At? ==> amount <= 0xFFFF_FFFC
    requires dest.At? && source.At? && amount > 0 ==>
               dest.address + amount + 7 <= mem.Length && source.address + amount + 7 <= mem.Length
    requires dest.At? && source.At? ==> dest.address <= mem.Length && source.address <= mem.Length
    ensures dest.Null? || source.Null? ==> status == InvalidMemoryLocation && val == initial
    ensures dest.At? && source.At? ==>
              status == Success &&
              (val <==> mem[..][source.address..source.address + Round4(amount)] ==
                        mem[..][dest.address..dest.address + Round4(amount)])
  {
    if source.Null? || dest.Null? {
      return InvalidMemoryLocation, initial;
    }
    val := CompareWords(mem, source.address, dest.address, amount, initial);
    val := CompareBytes(mem, source.address, dest.address, amount, Round4(amount));
    status := Success;
  }

  /** The first loop of KiCompareMemory. */
  method CompareWords<T(==)>(mem: array<T>, s: nat, d: nat, amount: u64, initial: bool) returns (val: bool)
    requires amount > 0 ==> d + amount + 7 <= mem.Length && s + amount + 7 <= mem.Length
  {
    val := initial;
    for i := 0 to amount {
      if mem[s + i..s + i + 8] != mem[d + i..d + i + 8] {
        return false;
      }
      val := true;
    }
  }

  /** The second loop of KiCompareMemory. */
  method CompareBytes<T(==)>(mem: array<T>, s: nat, d: nat, amount: u64, ghost rounded: nat) returns (val: bool)
    requires amount <= rounded < amount + 4 && rounded % 4 == 0 && rounded <= 0xFFFF_FFFC
    requires d + rounded <= mem.Length && s + rounded <= mem.Length
    ensures val <==> mem[..][s..s + rounded] == mem[..][d..d + rounded]
  {
    var same1, same2, same3, same4 := true, true, true, true;
    var index: u32 := 0;
    while index < amount
      invariant index <= rounded && index % 4 == 0
      invariant (same1 && same2 && same3 && same4) <==> AllSame(mem[..], s, d, index)
    {
      NextIndex(index, amount, rounded);
      NextFour(mem[..], s, d, index);
      same1 := same1 && mem[d + index] == mem[s + index];
      same2 := same2 && mem[d + index + 1] == mem[s + index + 1];
      same3 := same3 && mem[d + index + 2] == mem[s + index + 2];
      same4 := same4 && mem[d + index + 3] == mem[s + index + 3];
      index := Wrap32(index + 4);
    }
    val := same1 && same2 && same3 && same4;
    SlicesEqual(mem[..], s, d, rounded);
  }

  predicate SameByte<T(==)>(m: seq<T>, s: nat, d: nat, k: nat)
    requires s + k < |m| && d + k < |m|
  {
    m[s + k] == m[d + k]
  }

  predicate AllSame<T(==)>(m: seq<T>, s: nat, d: nat, n: nat)
    requires s + n <= |m| && d + n <= |m|
  {
    forall k :: 0 <= k < n ==> SameByte(m, s, d, k)
  }

  lemma NextFour<T>(m: seq<T>, s: nat, d: nat, n: nat)
    requires s + n + 4 <= |m| && d + n + 4 <= |m|
    ensures AllSame(m, s, d, n + 4) <==>
            AllSame(m, s, d, n) && SameByte(m, s, d, n) && SameByte(m, s, d, n + 1) &&
            SameByte(m, s, d, n + 2) && SameByte(m, s, d, n + 3)
  {
  }

  lemma SlicesEqual<T>(m: seq<T>, s: nat, d: nat, n: nat)
    requires s + n <= |m| && d + n <= |m|
    ensures m[s..s + n] == m[d..d + n] <==> AllSame(m, s, d, n)
  {
    var x, y := m[s..s + n], m[d..d + n];
    assert forall k :: 0 <= k < n ==> x[k] == m[s + k] && y[k] == m[d + k];
    if x == y {
      forall k | 0 <= k < n
        ensures SameByte(m, s, d, k)
      {
        assert x[k] == y[k];
      }
    }
    if AllSame(m, s, d, n) {
      forall k | 0 <= k < n
        ensures x[k] == y[k]
      {
        assert SameByte(m, s, d, k);
      }
    }
  }

  /** A region copied to a separate place compares equal to its copy. */
  method CopyThenCompare<T(==)>(mem: array<T>, dest: nat, source: nat, amount: u64) returns (same: bool)
    requires amount <= 0xFFFF_FFFC
    requires dest + amount + 7 <= mem.Length && source + amount + 7 <= mem.Length
    requires source + Round4(amount) <= dest || dest + Round4(amount) <= source
    modifies mem
    ensures same
    ensures mem[..] == Move(old(mem[..]), dest, source, Round4(amount))
  {
    ghost var m := mem[..];
    var status := CopyMemory(mem, At(dest), At(source), amount);
    CopyIsMove(m, dest, source, Round4(amount));
    MoveSlices(m, dest, source, Round4(amount));
    status, same := CompareMemory(mem, At(dest), At(source), amount, false);
  }

  lemma MoveSlices<T>(m: seq<T>, d: nat, s: nat, n: nat)
    requires d + n <= |m| && s + n <= |m| && (s + n <= d || d + n <= s)
    ensures Move(m, d, s, n)[d..d + n] == m[s..s + n] == Move(m, d, s, n)[s..s + n]
  {
    var r := Move(m, d, s, n);
    assert r[s..s + n] == m[s..s + n];
  }
}
