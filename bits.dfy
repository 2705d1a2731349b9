/**
 * Python's operators `|` and `<<` on non-negative (unbounded) integers, as
 * the state-format conversion uses them on byte values and lane accumulators.
 */
module Bits {

  /** 2 to the power n. */
  function Pow2(n: nat): (r: nat)
    ensures r >= 1
  {
    if n == 0 then 1 else 2 * Pow2(n - 1)
  }

  /** Bit i of v (bit 0 is the least significant), the value of (v >> i) & 1 == 1. */
  function Bit(v: nat, i: nat): bool
  {
    if i == 0 then v % 2 == 1 else Bit(v / 2, i - 1)
  }

  /** Python's `a | b` for non-negative integers, one binary digit at a time. */
  function BitOr(a: nat, b: nat): (r: nat)
    ensures a <= r && b <= r && r <= a + b
    decreases a + b
  {
    if a == 0 then b
    else if b == 0 then a
    else 2 * BitOr(a / 2, b / 2) + (if a % 2 == 1 || b % 2 == 1 then 1 else 0)
  }

  /** Python's `v << n` for a non-negative integer: no bits are lost. */
  function Shl(v: nat, n: nat): (r: nat)
    ensures r % Pow2(n) == 0 && r / Pow2(n) == v
  {
    MulDivExact(v, Pow2(n));
    v * Pow2(n)
  }

  /** Dividing a multiple of p by p is exact. */
  lemma MulDivExact(v: nat, p: nat)
    requires p >= 1
    ensures (v * p) % p == 0 && (v * p) / p == v
  {
    var q, m := (v * p) / p, (v * p) % p;
    assert v * p == p * q + m && 0 <= m < p;
    assert p * (v - q) == m;
    ProductBelowFactor(p, v - q);
  }

  /** The only multiple of p in 0..p-1 is 0. */
  lemma ProductBelowFactor(p: int, k: int)
    requires p >= 1 && 0 <= p * k < p
    ensures k == 0
  {
    if k >= 1 {
      MulGrows(p, k);
    } else if k <= -1 {
      MulGrows(p, -k);
    }
  }

  /** p * k is at least p for k >= 1. */
  lemma MulGrows(p: int, k: int)
    requires p >= 1 && k >= 1
    ensures p * k >= p
  {
  }

  /** 2^(m + n) = 2^m * 2^n. */
  lemma {:induction false} Pow2Add(m: nat, n: nat)
    ensures Pow2(m + n) == Pow2(m) * Pow2(n)
  {
    if m > 0 {
      Pow2Add(m - 1, n);
    }
  }

  /** Eight more bits multiply the range by 256. */
  lemma Pow2Plus8(n: nat)
    ensures Pow2(n + 8) == 256 * Pow2(n)
  {
    Pow2Add(n, 8);
    assert Pow2(8) == 256;
  }

  /** Shifting eight places further multiplies by 256. */
  lemma ShlPlus8(v: nat, n: nat)
    ensures Shl(v, n + 8) == 256 * Shl(v, n)
  {
    Pow2Plus8(n);
    var p := Pow2(n);
    assert v * (256 * p) == 256 * (v * p);
  }

  /** BitOr is bitwise OR: each bit of the result is the OR of the operands' bits. */
  lemma {:induction false} BitOrIsBitwise(a: nat, b: nat, i: nat)
    ensures Bit(BitOr(a, b), i) == (Bit(a, i) || Bit(b, i))
    decreases i
  {
    if a == 0 {
      ZeroHasNoBits(i);
    } else if b == 0 {
      ZeroHasNoBits(i);
    } else {
      var q := BitOr(a / 2, b / 2);
      var low := if a % 2 == 1 || b % 2 == 1 then 1 else 0;
      assert BitOr(a, b) == 2 * q + low;
      if i == 0 {
        assert (2 * q + low) % 2 == low;
      } else {
        assert (2 * q + low) / 2 == q;
        BitOrIsBitwise(a / 2, b / 2, i - 1);
      }
    }
  }

  lemma {:induction false} ZeroHasNoBits(i: nat)
    ensures !Bit(0, i)
  {
    if i > 0 {
      ZeroHasNoBits(i - 1);
    }
  }

  /** Shl moves every bit up by n places and clears the n lowest bits. */
  lemma {:induction false} ShlBits(v: nat, n: nat, i: nat)
    ensures Bit(Shl(v, n), i) == (i >= n && Bit(v, i - n))
    decreases n
  {
    if n == 0 {
    } else if i == 0 {
      assert Shl(v, n) == 2 * Shl(v, n - 1);
    } else {
      assert Shl(v, n) == 2 * Shl(v, n - 1);
      assert Shl(v, n) / 2 == Shl(v, n - 1);
      ShlBits(v, n - 1, i - 1);
    }
  }

  /**
   * When p lies below 2^n, p and v << n share no set bit, so OR-ing them is
   * the same as adding them.
   */
  lemma {:induction false} OrOfDisjointIsSum(p: nat, v: nat, n: nat)
    requires p < Pow2(n)
    ensures BitOr(p, Shl(v, n)) == p + Shl(v, n)
    decreases n
  {
    var q := Shl(v, n);
    if n == 0 {
      assert p == 0;
    } else if p == 0 || q == 0 {
    } else {
      assert q == 2 * Shl(v, n - 1);
      assert q / 2 == Shl(v, n - 1) && q % 2 == 0;
      OrOfDisjointIsSum(p / 2, v, n - 1);
      assert BitOr(p, q) == 2 * (p / 2 + q / 2) + p % 2;
    }
  }
}
