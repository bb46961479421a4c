// Shift-subtract division of 64-bit integers, boot-loader/core/utils/divmod64.c.

module DivMod64 {
  import Bits

  const TWO_63: int := 0x8000_0000_0000_0000
  const TWO_64: int := 0x1_0000_0000_0000_0000

  /** x shifted left i times, with no bound on the width. */
  ghost function Shl(x: nat, i: nat): (y: nat)
  {
    if i == 0 then x else 2 * Shl(x, i - 1)
  }

  /** q * d as a repeated sum, so that the loop below needs linear arithmetic only. */
  ghost function Times(q: nat, d: nat): nat
  {
    if q == 0 then 0 else d + Times(q - 1, d)
  }

  lemma {:induction false} TimesIsProduct(q: nat, d: nat)
    ensures Times(q, d) == q * d
  {
    if q > 0 {
      TimesIsProduct(q - 1, d);
      assert (q - 1) * d + d == q * d;
    }
  }

  lemma {:induction false} TimesDoubled(q: nat, d: nat)
    ensures Times(2 * q, d) == 2 * Times(q, d)
    ensures d != 0 ==> q <= Times(q, d)
  {
    if q > 0 {
      TimesDoubled(q - 1, d);
      assert Times(2 * q, d) == d + (d + Times(2 * q - 2, d));
    }
  }

  lemma {:induction false} ShlMonotone(x: nat, i: nat, j: nat)
    requires i <= j
    ensures Shl(x, i) <= Shl(x, j)
  {
    if i < j {
      ShlMonotone(x, i, j - 1);
    }
  }

  lemma {:induction false} ShlByTwo(x: nat, i: nat)
    ensures Shl(x, i + 2) == 4 * Shl(x, i)
  {
    assert Shl(x, i + 1) == 2 * Shl(x, i);
  }

  lemma {:induction false} ShlByEight(x: nat, i: nat)
    ensures Shl(x, i + 8) == 256 * Shl(x, i)
  {
    ShlByTwo(x, i);
    ShlByTwo(x, i + 2);
    ShlByTwo(x, i + 4);
    ShlByTwo(x, i + 6);
  }

  lemma {:induction false} ShlWord(x: nat)
    ensures Shl(x, 64) == x * TWO_64 == 2 * Shl(x, 63)
  {
    ShlByEight(x, 0);
    ShlByEight(x, 8);
    ShlByEight(x, 16);
    ShlByEight(x, 24);
    ShlByEight(x, 32);
    ShlByEight(x, 40);
    ShlByEight(x, 48);
    ShlByEight(x, 56);
  }

  /** `x <<= 1` in a 64-bit register. */
  function ShiftLeft(x: nat): (y: nat)
    requires x < TWO_64
    ensures y == if x < TWO_63 then 2 * x else 2 * x - TWO_64
  {
    (x * 2) % TWO_64
  }

  /** `q` and `r` are kept in 64-bit registers: every shift is reduced modulo 2^64. The
      invariants show that no set bit is ever shifted out of `r`, even for d > 2^63. */
  method DivMod(dividend: nat, d: nat) returns (q: nat, r: nat)
    requires dividend < TWO_64 && d < TWO_64
    ensures d != 0 ==> q == dividend / d && r == dividend % d
    ensures d == 0 ==> q == TWO_64 - 1 && r == dividend
  {
    var n: nat := dividend;
    q, r := 0, 0;
    ghost var top := 0;  // the bits of the dividend shifted out of n so far
    for i := 0 to 64
      invariant n < TWO_64
      invariant Shl(dividend, i) == top * TWO_64 + n
      invariant 0 <= top < Shl(1, i) && Shl(dividend, i) < TWO_64 * Shl(1, i)
      invariant d != 0 ==> r < d && Times(q, d) + r == top
      invariant d == 0 ==> q == Shl(1, i) - 1 && r == top
    {
      ShlMonotone(1, i, 63);
      ShlWord(1);
      TimesDoubled(q, d);
      assert r <= top && q < Shl(1, i);

      r := ShiftLeft(r);
      var bit := n >= TWO_63;
      if bit {
        r := r + 1;
      }
      q := ShiftLeft(q);
      n := ShiftLeft(n);
      top := 2 * top + (if bit then 1 else 0);

      if r >= d {
        q := q + 1;
        r := r - d;
      }
    }
    ShlWord(dividend);
    ShlWord(1);
    TimesIsProduct(q, d);
    if d != 0 {
      Bits.ModUnique(dividend, d, q, r);
    }
  }
}
