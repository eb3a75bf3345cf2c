/** Aligned allocation (libs/utility/memoryutility.h:42-66, libs/base/memory.cpp:36-49). */
module MemAlign {
  import opened Ticks

  const U64: nat := 0x1_0000_0000_0000_0000

  type u64 = x: int | 0 <= x < U64

  const MEM_ALIGN_SIZE: u32 := 64

  // ---------------------------------------------------------------- Bits

  /** The bitwise and of two numbers. */
  function And(x: nat, y: nat): (z: nat)
    ensures z <= x && z <= y
  {
    if x == 0 || y == 0 then 0 else 2 * And(x / 2, y / 2) + (if x % 2 == 1 && y % 2 == 1 then 1 else 0)
  }

  /** The complement of a 32-bit word. */
  function Not32(x: u32): u32 { U32 - 1 - x }

  function Pow2(k: nat): (p: nat)
    ensures p > 0
  {
    if k == 0 then 1 else 2 * Pow2(k - 1)
  }

  /** The remainder, a name that keeps the solver from dividing by unknowns. */
  function Rem(x: nat, p: nat): nat
    requires p > 0
  {
    x % p
  }

  lemma HalfOfRem(x: nat, p: nat)
    requires p > 0
    ensures Rem(x, 2 * p) == 2 * Rem(x / 2, p) + x % 2
  {
    var q, r := x / 2 / p, x / 2 % p;
    assert x / 2 == q * p + r;
    assert x == 2 * (q * p + r) + x % 2;
    ModUnique(x, 2 * p, q, 2 * r + x % 2);
  }

  lemma ModUnique(x: nat, m: nat, q: nat, r: nat)
    requires r < m && x == q * m + r
    ensures x % m == r
  {
    var d := x / m - q;
    assert x == x / m * m + x % m;
    assert d * m == r - x % m;
    assert d > 0 ==> d * m >= m;
    assert d < 0 ==> d * m + m <= 0;
  }

  /** A mask of the bits k to m - 1 keeps what those bits are worth. */
  lemma {:induction false} AndMask(x: nat, k: nat, m: nat)
    requires k <= m
    ensures Pow2(k) <= Pow2(m) && And(x, Pow2(m) - Pow2(k)) == Rem(x, Pow2(m)) - Rem(x, Pow2(k))
    decreases m
  {
    hide And, Pow2, Rem;
    Pow2Step(m);
    Pow2Step(k);
    if m == 0 {
      AndStep(x, 0);
    } else if k > 0 {
      AndMask(x / 2, k - 1, m - 1);
      AndEven(x, Pow2(m - 1), Pow2(k - 1));
    } else {
      AndMask(x / 2, 0, m - 1);
      RemOne(x);
      RemOne(x / 2);
      AndOdd(x, Pow2(m - 1));
    }
  }

  lemma Pow2Step(k: nat)
    ensures Pow2(k) == if k == 0 then 1 else 2 * Pow2(k - 1)
  {}

  lemma AndEven(x: nat, p: nat, q: nat)
    requires 0 < q <= p && And(x / 2, p - q) == Rem(x / 2, p) - Rem(x / 2, q)
    ensures And(x, 2 * p - 2 * q) == Rem(x, 2 * p) - Rem(x, 2 * q)
  {
    hide And, Rem;
    AndStep(x, 2 * (p - q));
    HalfOfRem(x, p);
    HalfOfRem(x, q);
  }

  lemma AndOdd(x: nat, p: nat)
    requires 0 < p && And(x / 2, p - 1) == Rem(x / 2, p)
    ensures And(x, 2 * p - 1) == Rem(x, 2 * p)
  {
    hide And, Rem;
    AndStep(x, 2 * p - 1);
    assert (2 * p - 1) / 2 == p - 1 && (2 * p - 1) % 2 == 1;
    HalfOfRem(x, p);
  }

  lemma RemOne(x: nat)
    ensures Rem(x, 1) == 0
  {}

  lemma AndStep(x: nat, y: nat)
    ensures And(x, y) == 2 * And(x / 2, y / 2) + (if x % 2 == 1 && y % 2 == 1 then 1 else 0)
  {}

  /** The 32-bit mask clears the low six bits, and with them everything above bit 31. */
  lemma AlignMask(x: nat)
    ensures And(x, Not32(MEM_ALIGN_SIZE - 1)) == x % U32 - x % 64
  {
    hide And;
    AndMask(x, 6, 32);
    PowersOfTwo();
  }

  lemma PowersOfTwo()
    ensures Pow2(32) == U32 && Pow2(6) == 64
  {
    Pow2Times16(2);
    Pow2Times16(0);
    Pow2Times16(4);
    Pow2Times16(8);
    Pow2Times16(12);
    Pow2Times16(16);
    Pow2Times16(20);
    Pow2Times16(24);
    Pow2Times16(28);
  }

  lemma Pow2Times16(k: nat)
    ensures Pow2(k + 4) == 16 * Pow2(k)
  {
    assert Pow2(k + 3) == 2 * Pow2(k + 2);
    assert Pow2(k + 2) == 2 * Pow2(k + 1);
  }

  // ---------------------------------------------------------------- The functions

  function MemAlignRoundup(desiredSize: u32): u32 {
    And((desiredSize + MEM_ALIGN_SIZE) % U32, Not32(MEM_ALIGN_SIZE - 1))
  }

  /** The complement is taken of a 32-bit word, which is then widened with zeros. */
  function MemAlignPointer(address: u64): u64 {
    And((address + MEM_ALIGN_SIZE * 2 - 1) % U64, Not32(MEM_ALIGN_SIZE - 1))
  }

  function MemAlignRoundedUpExtra(desiredSize: u32): u32 {
    (MemAlignRoundup(desiredSize) + MEM_ALIGN_SIZE) % U32
  }

  // ---------------------------------------------------------------- Theorems

  /** The pointer is aligned and leaves a whole free block before it exactly for addresses below 2^32 - 127. */
  lemma AlignedIff(p: u64)
    ensures var q := MemAlignPointer(p);
            (q % 64 == 0 && p + 64 <= q <= p + 127) <==> p + 127 < U32
  {
    hide MemAlignPointer;
    PointerValue(p);
  }

  lemma PointerValue(p: u64)
    ensures MemAlignPointer(p) == (p + 127) % U64 % U32 - (p + 127) % U64 % 64
    ensures p + 127 < U32 ==> MemAlignPointer(p) == p + 127 - (p + 127) % 64
  {
    hide And;
    AlignMask((p + 127) % U64);
  }

  /** The allocation is larger than what is asked for exactly when the 32-bit size does not wrap. */
  lemma AllocatedIff(len: u32)
    ensures MemAlignRoundedUpExtra(len) > len <==> len + 128 < U32
    ensures len + 128 < U32 ==> MemAlignRoundedUpExtra(len) == 64 * (len / 64) + 128
  {
    hide And;
    AlignMask((len + 64) % U32);
  }

  /**
   The aligned block fits its allocation, which is one block short of what alignment can need, exactly
   when the address is aligned already or leaves room for the last, broken block.
   */
  lemma FitsIff(p: u64, len: u32)
    requires p + 127 < U32 && len + 128 < U32
    ensures MemAlignPointer(p) + len <= p + MemAlignRoundedUpExtra(len) <==> p % 64 == 0 || p % 64 >= len % 64
  {
    hide MemAlignPointer, MemAlignRoundedUpExtra;
    PointerValue(p);
    AllocatedIff(len);
  }

  /** With one more block it would always fit. */
  lemma OneMoreBlockFits(p: u64, len: u32)
    requires p + 127 < U32 && len + 128 < U32
    ensures MemAlignPointer(p) + len <= p + MemAlignRoundedUpExtra(len) + 64
  {
    hide MemAlignPointer, MemAlignRoundedUpExtra;
    PointerValue(p);
    AllocatedIff(len);
  }
}
