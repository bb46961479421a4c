// Unsigned bit operations on integers and the alignment macro of
// boot-loader/core/include/memory/heap.h.

module Bits {
  const TWO_32: int := 0x1_0000_0000

  /** A 32-bit unsigned value: bl_size_t, bl_addr_t, Elf32_Word. */
  type Word = w: int | 0 <= w < TWO_32

  /** The 32-bit register value of an unsigned sum: 2^32 is dropped as often as it fits. */
  function Reduce(x: nat): (w: Word)
  {
    if x < TWO_32 then x else Reduce(x - TWO_32)
  }

  lemma {:induction false} ReduceIsMod(x: nat)
    ensures Reduce(x) == x % TWO_32
  {
    if x >= TWO_32 {
      ReduceIsMod(x - TWO_32);
      assert x % TWO_32 == (x - TWO_32) % TWO_32;
    }
  }

  /** Bitwise conjunction of two unsigned integers. */
  function BitAnd(x: nat, y: nat): nat
  {
    if x == 0 || y == 0 then 0 else (x % 2) * (y % 2) + 2 * BitAnd(x / 2, y / 2)
  }

  ghost predicate IsPow2(n: nat)
  {
    n == 1 || (n > 1 && n % 2 == 0 && IsPow2(n / 2))
  }

  lemma {:induction false} AndBounded(x: nat, y: nat)
    ensures BitAnd(x, y) <= x && BitAnd(x, y) <= y
  {
    if x != 0 && y != 0 {
      AndBounded(x / 2, y / 2);
      assert (x % 2) * (y % 2) <= x % 2 && (x % 2) * (y % 2) <= y % 2;
    }
  }

  lemma {:induction false} ModHalf(x: nat, n: nat)
    requires n > 1 && n % 2 == 0
    ensures x % n == x % 2 + 2 * (x / 2 % (n / 2))
  {
    var h := n / 2;
    var q, r := x / 2 / h, x / 2 % h;
    assert x / 2 == h * q + r;
    assert x == n * q + (x % 2 + 2 * r) by {
      assert 2 * (h * q) == n * q;
    }
    ModUnique(x, n, q, x % 2 + 2 * r);
  }

  /** The Euclidean quotient and remainder are the only pair with these properties. */
  lemma {:induction false} ModUnique(x: nat, n: nat, q: nat, r: nat)
    requires n > 0 && x == n * q + r && r < n
    ensures x % n == r && x / n == q
  {
    var q' := x / n;
    assert x == n * q' + x % n;
    if q' < q {
      SmallProduct(q, q', n);
    } else if q < q' {
      SmallProduct(q', q, n);
    }
  }

  lemma {:induction false} SmallProduct(a: nat, b: nat, d: nat)
    requires b < a
    ensures d * a >= d * b + d
  {
    assert d * a == d * b + d * (a - b - 1) + d;
    assert d * (a - b - 1) >= 0;
  }

  /** Masking with n - 1 takes the remainder by a power of two. */
  lemma {:induction false} MaskIsMod(x: nat, n: nat)
    requires IsPow2(n)
    ensures BitAnd(x, n - 1) == x % n
  {
    if n > 1 {
      MaskIsMod(x / 2, n / 2);
      ModHalf(x, n);
      assert (n - 1) / 2 == n / 2 - 1;
      if x == 0 {
        assert x % n == 0;
      }
    }
  }

  /** `n & (n - 1)` is zero exactly for the powers of two, as the allocator's test assumes. */
  lemma {:induction false} PowerOfTwoTest(n: nat)
    requires n > 0
    ensures BitAnd(n, n - 1) == 0 <==> IsPow2(n)
  {
    if n > 1 {
      PowerOfTwoTest(n / 2);
      if n % 2 == 0 {
        assert (n - 1) / 2 == n / 2 - 1;
      } else {
        assert (n - 1) / 2 == n / 2;
        AndSelf(n / 2);
      }
    }
  }

  lemma {:induction false} AndSelf(x: nat)
    ensures BitAnd(x, x) == x
  {
    if x != 0 {
      AndSelf(x / 2);
    }
  }

  /** BL_MEMORY_ALIGN_UP on 32-bit operands: (a + n - 1) & ~(n - 1), where clearing the bits of
      a mask is subtracting them. */
  function AlignUp(a: Word, n: Word): Word
  {
    var s := (a + n - 1) % TWO_32;
    AndBounded(s, (n - 1) % TWO_32);
    s - BitAnd(s, (n - 1) % TWO_32)
  }

  /** For a power of two, and when the sum does not wrap, the result is the least multiple of
      n at or above a. */
  lemma {:induction false} AlignUpSpec(a: Word, n: Word)
    requires IsPow2(n) && a + n - 1 < TWO_32
    ensures a <= AlignUp(a, n) < a + n && AlignUp(a, n) % n == 0
    ensures a % n == 0 ==> AlignUp(a, n) == a
  {
    var s: nat := a + n - 1;
    AlignUpNoWrap(a, n);
    FloorIsMultiple(s, n);
    if a % n == 0 {
      SumAligned(a, n - 1, n);
      ModUnique(n - 1, n, 0, n - 1);
    }
  }

  lemma {:induction false} AlignUpNoWrap(a: Word, n: Word)
    requires IsPow2(n) && a + n - 1 < TWO_32
    ensures AlignUp(a, n) == (a + n - 1) - (a + n - 1) % n
  {
    SmallMod(a + n - 1);
    SmallMod(n - 1);
    MaskIsMod(a + n - 1, n);
  }

  lemma {:induction false} SmallMod(x: Word)
    ensures x % TWO_32 == x
  {
  }

  lemma {:induction false} FloorIsMultiple(s: nat, n: nat)
    requires n > 0
    ensures (s - s % n) % n == 0
  {
    ModUnique(n * (s / n), n, s / n, 0);
  }

  lemma {:induction false} AndOnesUpTo(x: nat, n: nat)
    requires x < n && IsPow2(n)
    ensures BitAnd(x, n - 1) == x
  {
    MaskIsMod(x, n);
    ModUnique(x, n, 0, x);
  }

  /** An alignment of zero does not mean "unaligned" to the macro: the result is address 0. */
  lemma {:induction false} AlignUpToZero(a: Word)
    ensures AlignUp(a, 0) == 0
  {
    WordIsPow2();
    AndOnesUpTo((a - 1) % TWO_32, TWO_32);
  }

  /** Larger powers of two are multiples of smaller ones. */
  lemma {:induction false} Pow2Divides(m: nat, n: nat)
    requires IsPow2(m) && IsPow2(n) && m <= n
    ensures n % m == 0
  {
    if m > 1 {
      Pow2Divides(m / 2, n / 2);
      ModHalf(n, m);
    }
  }

  lemma {:induction false} MultipleOfMultiple(x: nat, m: nat, n: nat)
    requires m > 0 && n > 0 && n % m == 0 && x % n == 0
    ensures x % m == 0
  {
    var q, k := x / n, n / m;
    assert x == n * q && n == m * k;
    assert x == m * (k * q);
    ModUnique(x, m, k * q, 0);
  }

  lemma {:induction false} AlignedToSmaller(x: nat, m: nat, n: nat)
    requires IsPow2(m) && IsPow2(n) && m <= n && x % n == 0
    ensures x % m == 0
  {
    Pow2Divides(m, n);
    MultipleOfMultiple(x, m, n);
  }

  lemma {:induction false} SumAligned(x: nat, y: nat, n: nat)
    requires n > 0 && x % n == 0
    ensures (x + y) % n == y % n
  {
    var q, p := x / n, y / n;
    assert x + y == n * (q + p) + y % n;
    ModUnique(x + y, n, q + p, y % n);
  }

  /** The least multiple of n at or above a, without a width limit. */
  function RoundUp(a: nat, n: nat): (r: nat)
    requires n > 0
    ensures a <= r < a + n
    decreases a
  {
    if a == 0 then 0 else if a <= n then n else n + RoundUp(a - n, n)
  }

  lemma {:induction false} RoundUpByMod(a: nat, n: nat)
    requires n > 0
    ensures RoundUp(a, n) == (a + n - 1) - (a + n - 1) % n
    decreases a
  {
    if a == 0 {
      ModUnique(n - 1, n, 0, n - 1);
    } else if a <= n {
      ModUnique(a + n - 1, n, 1, a - 1);
    } else {
      RoundUpByMod(a - n, n);
      ModUnique(n, n, 1, 0);
      SumAligned(n, a - n + n - 1, n);
    }
  }

  lemma {:induction false} RoundUpSpec(a: nat, n: nat)
    requires n > 0
    ensures a <= RoundUp(a, n) < a + n && RoundUp(a, n) % n == 0
    ensures a % n == 0 ==> RoundUp(a, n) == a
  {
    RoundUpByMod(a, n);
    FloorIsMultiple(a + n - 1, n);
    if a % n == 0 {
      SumAligned(a, n - 1, n);
      ModUnique(n - 1, n, 0, n - 1);
    }
  }

  /** RoundUp is the least multiple of n at or above a. */
  lemma {:induction false} RoundUpLeast(a: nat, n: nat, m: nat)
    requires n > 0 && a <= m && m % n == 0
    ensures RoundUp(a, n) <= m
  {
    RoundUpSpec(a, n);
    if m < RoundUp(a, n) {
      MultiplesApart(m, RoundUp(a, n), n);
    }
  }

  lemma {:induction false} RoundUpMonotone(a: nat, b: nat, n: nat)
    requires n > 0 && a <= b
    ensures RoundUp(a, n) <= RoundUp(b, n)
  {
    RoundUpSpec(b, n);
    RoundUpLeast(a, n, RoundUp(b, n));
  }

  lemma {:induction false} RoundUpCoarser(a: nat, m: nat, n: nat)
    requires IsPow2(m) && IsPow2(n) && m <= n
    ensures RoundUp(a, m) <= RoundUp(a, n)
  {
    RoundUpSpec(a, n);
    AlignedToSmaller(RoundUp(a, n), m, n);
    RoundUpLeast(a, m, RoundUp(a, n));
  }

  /** x is a multiple of n. */
  ghost predicate Multiple(x: nat, n: nat)
    requires n > 0
  {
    x == 0 || (x >= n && Multiple(x - n, n))
  }

  lemma {:induction false} MultipleIsMod(x: nat, n: nat)
    requires n > 0
    ensures Multiple(x, n) <==> x % n == 0
  {
    if x >= n {
      MultipleIsMod(x - n, n);
      ModUnique(n, n, 1, 0);
      SumAligned(n, x - n, n);
    } else {
      ModUnique(x, n, 0, x);
    }
  }

  /** Shifting by a multiple of n shifts the rounded value by the same amount. */
  lemma {:induction false} RoundUpShift(a: nat, d: nat, n: nat)
    requires n > 0 && Multiple(d, n)
    ensures RoundUp(d + a, n) == d + RoundUp(a, n)
    decreases d
  {
    if d > 0 {
      RoundUpShift(a, d - n, n);
    }
  }

  /** The 32-bit macro agrees with unbounded rounding as long as the sum does not wrap. */
  lemma {:induction false} AlignUpIsRoundUp(a: Word, n: Word)
    requires IsPow2(n) && a + n - 1 < TWO_32
    ensures AlignUp(a, n) == RoundUp(a, n)
  {
    AlignUpNoWrap(a, n);
    RoundUpByMod(a, n);
  }

  lemma {:induction false} WordIsPow2()
    ensures IsPow2(TWO_32)
  {
    assert IsPow2(256);
    assert IsPow2(65536);
    assert IsPow2(0x100_0000);
  }

  /** When the rounded address fits 32 bits, so did the sum computed on the way. */
  lemma {:induction false} RoundUpNoWrap(a: nat, n: Word)
    requires IsPow2(n) && RoundUp(a, n) < TWO_32
    ensures a + n - 1 < TWO_32 && AlignUp(a, n) == RoundUp(a, n)
  {
    WordIsPow2();
    Pow2Divides(n, TWO_32);
    RoundUpSpec(a, n);
    MultiplesApart(RoundUp(a, n), TWO_32, n);
    AlignUpIsRoundUp(a, n);
  }

  lemma {:induction false} MultiplesApart(x: nat, y: nat, n: nat)
    requires n > 0 && x < y && x % n == 0 && y % n == 0
    ensures x + n <= y
  {
    SumAligned(x, y - x, n);
    if y - x < n {
      ModUnique(y - x, n, 0, y - x);
    }
  }
}
