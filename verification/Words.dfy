/**
 Machine words, status codes and the few bit operations on 64-bit words that the
 kernel uses.  Words are integers with an explicit range, so every wrap-around of
 the original is written out as a `Wrap64`, `Wrap32` or `Wrap16`.
 */
module Words {

  type u8 = x: int | 0 <= x < 0x100
  type u16 = x: int | 0 <= x < 0x1_0000
  type u32 = x: int | 0 <= x < 0x1_0000_0000
  type u64 = x: int | 0 <= x < 0x1_0000_0000_0000_0000
  type i64 = x: int | -0x8000_0000_0000_0000 <= x < 0x8000_0000_0000_0000

  /** The members of FERALSTATUS that the modelled functions return. */
  datatype Status =
    | Success
    | MemoryAccessViolation
    | MemoryPageFailure
    | MemoryPageConflict
    | InvalidMemoryLocation

  function Wrap64(x: int): u64 {
    x % 0x1_0000_0000_0000_0000
  }

  function Wrap32(x: int): u32 {
    x % 0x1_0000_0000
  }

  function Wrap16(x: int): u16 {
    x % 0x1_0000
  }

  /** Reinterprets a 64-bit word as a two's-complement number. */
  function Signed64(x: u64): i64 {
    if x < 0x8000_0000_0000_0000 then x else x - 0x1_0000_0000_0000_0000
  }

  /** Bitwise or. */
  function BitOr(a: nat, b: nat): nat
    decreases a
  {
    if a == 0 then b
    else if b == 0 then a
    else (if a % 2 == 1 || b % 2 == 1 then 1 else 0) + 2 * BitOr(a / 2, b / 2)
  }

  /** Bit `k` of a number. */
  predicate BitAt(x: nat, k: nat) {
    if k == 0 then x % 2 == 1 else BitAt(x / 2, k - 1)
  }

  /** Each bit of the result is set exactly when it is set in one of the operands. */
  lemma {:induction false} BitOrBits(a: nat, b: nat, k: nat)
    ensures BitAt(BitOr(a, b), k) <==> BitAt(a, k) || BitAt(b, k)
    decreases k
  {
    if a == 0 || b == 0 {
      ZeroBits(k);
    } else if k > 0 {
      BitOrBits(a / 2, b / 2, k - 1);
    }
  }

  lemma {:induction false} ZeroBits(k: nat)
    ensures !BitAt(0, k)
    decreases k
  {
    if k > 0 {
      ZeroBits(k - 1);
    }
  }

  /** The amount the memory routines really process: rounded up to a multiple of four. */
  function Round4(n: nat): (r: nat)
    ensures n <= r < n + 4 && r % 4 == 0
  {
    (n + 3) / 4 * 4
  }
}
