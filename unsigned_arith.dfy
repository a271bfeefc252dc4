/**
 * C unsigned integer arithmetic, written out explicitly on mathematical
 * integers: 32- and 64-bit unsigned ranges, the reduction modulo 2^32 that
 * C applies to every `unsigned int` result, the bitwise complement, and the
 * bitwise AND of two naturals defined bit by bit.
 */
module UnsignedArith {

  const U32_LIMIT: int := 0x1_0000_0000
  const U64_LIMIT: int := 0x1_0000_0000_0000_0000

  /** Values of a C `uint32_t` / `unsigned int`. */
  type u32 = x: int | 0 <= x < U32_LIMIT

  /** Values of a C `uint64_t`. */
  type u64 = x: int | 0 <= x < U64_LIMIT

  /**
   * The `unsigned int` that C stores for the mathematical value `x`:
   * the unique value in range congruent to `x` modulo 2^32.
   */
  function Wrap32(x: int): (r: u32)
    ensures (x - r) % U32_LIMIT == 0
    ensures 0 <= x < U32_LIMIT ==> r == x
    ensures U32_LIMIT <= x < 2 * U32_LIMIT ==> r == x - U32_LIMIT
    ensures -U32_LIMIT <= x < 0 ==> r == x + U32_LIMIT
  {
    x % U32_LIMIT
  }

  /** `~x` on a 32-bit unsigned value: every one of the 32 bits flipped. */
  function Complement32(x: u32): u32
  {
    U32_LIMIT - 1 - x
  }

  /** 2^n. */
  function Pow2(n: nat): (r: nat)
    ensures r >= 1
  {
    if n == 0 then 1 else 2 * Pow2(n - 1)
  }

  lemma {:induction false} Pow2Monotone(k: nat, n: nat)
    requires k <= n
    ensures Pow2(k) <= Pow2(n)
  {
    if k < n {
      Pow2Monotone(k, n - 1);
    }
  }

  /** The two powers of two the pitch computation needs: 64 and 2^32. */
  lemma Pow2Values()
    ensures Pow2(6) == 64
    ensures Pow2(32) == U32_LIMIT
  {
    assert Pow2(8) == 256;
    assert Pow2(16) == 0x1_0000 by {
      assert Pow2(16) == Pow2(8) * 256 by { Pow2Add(8, 8); }
    }
    assert Pow2(32) == Pow2(16) * Pow2(16) by { Pow2Add(16, 16); }
  }

  lemma {:induction false} Pow2Add(a: nat, b: nat)
    ensures Pow2(a + b) == Pow2(a) * Pow2(b)
  {
    if b > 0 {
      Pow2Add(a, b - 1);
      assert Pow2(a + b) == 2 * Pow2(a + b - 1);
    }
  }

  /**
   * C's `a & b` on non-negative operands, defined from the least significant
   * bit upwards: bit i of the result is set exactly when bit i is set in both.
   */
  function BitAnd(a: nat, b: nat): (r: nat)
    ensures r <= a && r <= b
    decreases a
  {
    if a == 0 || b == 0 then 0
    else 2 * BitAnd(a / 2, b / 2) + (if a % 2 == 1 && b % 2 == 1 then 1 else 0)
  }

  /** Unfolding of BitAnd for nonzero operands, one bit at a time. */
  lemma BitAndStep(a: nat, b: nat)
    requires a > 0 && b > 0
    ensures BitAnd(a, b) == 2 * BitAnd(a / 2, b / 2) + (if a % 2 == 1 && b % 2 == 1 then 1 else 0)
  {
  }

  /** ANDing an n-bit value with n one-bits leaves it unchanged. */
  lemma {:induction false} BitAndLowOnes(x: nat, n: nat)
    requires x < Pow2(n)
    ensures BitAnd(x, Pow2(n) - 1) == x
  {
    if x > 0 {
      var p := Pow2(n - 1);
      assert Pow2(n) == 2 * p;
      BitAndStep(x, Pow2(n) - 1);
      assert (Pow2(n) - 1) / 2 == p - 1 && (Pow2(n) - 1) % 2 == 1;
      BitAndLowOnes(x / 2, n - 1);
    }
  }

  /** `x` with its low `k` bits cleared, one bit at a time. */
  function ClearLowBits(x: nat, k: nat): (r: nat)
    ensures r <= x && x - r < Pow2(k)
  {
    if k == 0 then x else 2 * ClearLowBits(x / 2, k - 1)
  }

  lemma {:induction false} ClearLowBitsOfSmall(x: nat, n: nat)
    requires x < Pow2(n)
    ensures ClearLowBits(x, n) == 0
  {
    if n > 0 {
      ClearLowBitsOfSmall(x / 2, n - 1);
    }
  }

  /** Clearing the low six bits is subtracting the remainder modulo 64. */
  lemma ClearLowSixBits(x: nat)
    ensures ClearLowBits(x, 6) == x - x % 64
  {
    var x1 := x / 2;
    var x2 := x1 / 2;
    var x3 := x2 / 2;
    var x4 := x3 / 2;
    var x5 := x4 / 2;
    var x6 := x5 / 2;
    assert ClearLowBits(x5, 1) == 2 * x6;
    assert ClearLowBits(x4, 2) == 4 * x6;
    assert ClearLowBits(x3, 3) == 8 * x6;
    assert ClearLowBits(x2, 4) == 16 * x6;
    assert ClearLowBits(x1, 5) == 32 * x6;
    assert ClearLowBits(x, 6) == 64 * x6;
    assert x6 == x / 64;
  }

  /**
   * ANDing an n-bit value with a mask whose bits k..n-1 are set and whose
   * bits 0..k-1 are clear keeps bits k..n-1 and clears the rest.
   */
  lemma {:induction false} BitAndHighMask(x: nat, n: nat, k: nat, mask: nat)
    requires k <= n && x < Pow2(n)
    requires mask == Pow2(n) - Pow2(k)
    ensures BitAnd(x, mask) == ClearLowBits(x, k)
  {
    if k == 0 {
      BitAndLowOnes(x, n);
      assert mask == Pow2(n) - 1;
      assert BitAnd(x, mask) == ClearLowBits(x, k);
    } else if k == n {
      ClearLowBitsOfSmall(x, n);
      assert mask == 0 && BitAnd(x, 0) == 0;
      assert BitAnd(x, mask) == ClearLowBits(x, k);
    } else if x == 0 {
      assert BitAnd(0, mask) == 0 == ClearLowBits(0, k);
    } else {
      var p, q := Pow2(n - 1), Pow2(k - 1);
      Pow2Double(n);
      assert x / 2 < p;
      Pow2Monotone(k - 1, n - 1);
      BitAndHighMask(x / 2, n - 1, k - 1, p - q);
      Pow2Double(k);
      Pow2Monotone(k, n - 1);
      var half := p - q;
      assert half > 0 && mask == 2 * half;
      BitAndHighMaskStep(x, k, mask, half);
    }
  }

  /** The step of BitAndHighMask: bit 0 of an even mask clears bit 0 of the result. */
  lemma BitAndHighMaskStep(x: nat, k: nat, mask: nat, half: nat)
    requires x > 0 && k > 0 && half > 0 && mask == 2 * half
    requires BitAnd(x / 2, half) == ClearLowBits(x / 2, k - 1)
    ensures BitAnd(x, mask) == ClearLowBits(x, k)
  {
  }

  /** One unfolding of Pow2. */
  lemma Pow2Double(n: nat)
    requires n > 0
    ensures Pow2(n) == 2 * Pow2(n - 1)
  {
  }
}
