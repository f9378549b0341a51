/**
 * The initial stack pointer a `CoroutineTaskBase` constructor writes into the saved
 * registers of a new task: the end of its stack with the low four bits masked off.
 */
module TaskStack {

  /** `uint64_t`, the type of the saved registers and of a pointer cast to an integer. */
  type UInt64 = x: int | 0 <= x < 0x1_0000_0000_0000_0000

  /** The alignment `aligned_alloc` is asked for when the pool allocates a stack. */
  const StackAlignment: nat := 0x1_0000

  /** The size of every stack the pool allocates. */
  const DefaultStackSize: nat := 32 * 1024

  /** `~0x0F` converted to `uint64_t`: every bit set except the low four. */
  const AlignMask: UInt64 := 0xFFFF_FFFF_FFFF_FFF0

  function Pow2(k: nat): (r: nat)
    ensures r >= 1
  {
    if k == 0 then 1 else 2 * Pow2(k - 1)
  }

  /**
   * Bitwise `&` on unsigned integers, one bit at a time from the lowest.  The result keeps
   * only bits set in both operands, so it is at most either.
   */
  function BitAnd(a: nat, b: nat): (r: nat)
    ensures r <= a && r <= b
  {
    if a == 0 || b == 0 then 0
    else 2 * BitAnd(a / 2, b / 2) + (if a % 2 == 1 && b % 2 == 1 then 1 else 0)
  }

  /**
   * `reinterpret_cast<uint64_t>(stack + stackSize) & ~0x0F`, for a stack at address
   * `stack` whose end is still an address.  It is 16-byte aligned, is at most the end of
   * the task's stack, and lies less than 16 bytes below that end.
   */
  function InitialRsp(stack: UInt64, stackSize: nat): (rsp: UInt64)
    requires stack + stackSize < 0x1_0000_0000_0000_0000
    ensures rsp % 16 == 0 && rsp <= stack + stackSize && rsp > stack + stackSize - 16
  {
    MaskLowBits(stack + stackSize);
    BitAnd(stack + stackSize, AlignMask)
  }

  /** A mask of the `k` low bits keeps every value below `2^k` as it is. */
  lemma {:induction false} AndLowOnes(x: nat, k: nat)
    requires x < Pow2(k)
    ensures BitAnd(x, Pow2(k) - 1) == x
  {
    if k > 0 && x > 0 {
      var m := Pow2(k - 1);
      assert (Pow2(k) - 1) / 2 == m - 1 && (Pow2(k) - 1) % 2 == 1;
      AndLowOnes(x / 2, k - 1);
    }
  }

  /** A mask whose lowest bit is clear clears the lowest bit. */
  lemma AndEven(x: nat, b: nat)
    ensures BitAnd(x, 2 * b) == 2 * BitAnd(x / 2, b)
  {
    if x != 0 && b != 0 {
      assert (2 * b) / 2 == b && (2 * b) % 2 == 0;
    }
  }

  lemma {:induction false} Pow2Add(a: nat, b: nat)
    ensures Pow2(a + b) == Pow2(a) * Pow2(b)
  {
    if b > 0 {
      Pow2Add(a, b - 1);
      var x, y := Pow2(a), Pow2(b - 1);
      assert Pow2(a + b) == 2 * (x * y);
      assert 2 * (x * y) == x * (2 * y);
    }
  }

  lemma Pow2Of60()
    ensures Pow2(60) == 0x1000_0000_0000_0000
  {
    assert Pow2(2) == 4;
    Pow2Add(2, 2);
    assert Pow2(4) == 0x10;
    Pow2Add(4, 4);
    assert Pow2(8) == 0x100;
    Pow2Add(8, 8);
    assert Pow2(16) == 0x1_0000;
    Pow2Add(16, 16);
    assert Pow2(32) == 0x1_0000_0000;
    Pow2Add(32, 16);
    assert Pow2(48) == 0x1_0000_0000_0000;
    Pow2Add(48, 8);
    assert Pow2(56) == 0x100_0000_0000_0000;
    Pow2Add(56, 4);
  }

  /** Masking the low four bits of a 64-bit value rounds it down to a multiple of 16. */
  lemma MaskLowBits(x: UInt64)
    ensures BitAnd(x, AlignMask) == x - x % 16
  {
    Pow2Of60();
    var ones := Pow2(60) - 1;
    assert AlignMask == 2 * (2 * (2 * (2 * ones)));
    AndEven(x, 2 * (2 * (2 * ones)));
    AndEven(x / 2, 2 * (2 * ones));
    AndEven(x / 2 / 2, 2 * ones);
    AndEven(x / 2 / 2 / 2, ones);
    assert x / 2 / 2 / 2 / 2 == x / 16;
    AndLowOnes(x / 16, 60);
  }

  /**
   * For the stacks the pool allocates (aligned to 64 KiB, 32 KiB long) the end is already
   * aligned, so the initial stack pointer is exactly the end of the stack.
   */
  lemma PoolStackRsp(stack: UInt64)
    requires stack % StackAlignment == 0 && stack + DefaultStackSize < 0x1_0000_0000_0000_0000
    ensures InitialRsp(stack, DefaultStackSize) == stack + DefaultStackSize
  {
    var x := stack + DefaultStackSize;
    var k := stack / StackAlignment;
    assert x == 16 * (4096 * k + 2048);
    assert x % 16 == 0;
    MaskLowBits(x);
    assert InitialRsp(stack, DefaultStackSize) == BitAnd(x, AlignMask);
  }
}
