/**
 * Arithmetic meaning of the bit tricks used in base.h and config.c:
 * powers of two, the `x & (x - 1)` power-of-two test and the
 * `(v + a - 1) & ~(a - 1)` round-up mask of ALIGN_UP.
 * Bitwise AND is defined on naturals, bit by bit from the low end.
 */
module Bits {

  /** 2 to the power k. */
  function Pow2(k: nat): (r: nat)
    ensures r >= 1
  {
    if k == 0 then 1 else 2 * Pow2(k - 1)
  }

  /** x is one of 1, 2, 4, 8, ... */
  predicate IsPowerOfTwo(x: nat)
    decreases x
  {
    x == 1 || (x >= 2 && x % 2 == 0 && IsPowerOfTwo(x / 2))
  }

  /** The exponent of a power of two. */
  function Log2(x: nat): (k: nat)
    requires IsPowerOfTwo(x)
    ensures Pow2(k) == x
    decreases x
  {
    if x == 1 then 0 else Log2(x / 2) + 1
  }

  /** C's `a & b` on unsigned operands. */
  function And(a: nat, b: nat): (r: nat)
    ensures r <= a && r <= b
    decreases a
  {
    if a == 0 || b == 0 then 0
    else 2 * And(a / 2, b / 2) + (if a % 2 == 1 && b % 2 == 1 then 1 else 0)
  }

  lemma {:induction false} AndSelf(x: nat)
    ensures And(x, x) == x
    decreases x
  {
    if x != 0 {
      AndSelf(x / 2);
    }
  }

  /** The test `x & (x - 1) == 0` accepts exactly the powers of two (for x >= 1). */
  lemma {:induction false} PowerOfTwoTest(x: nat)
    requires x >= 1
    ensures And(x, x - 1) == 0 <==> IsPowerOfTwo(x)
    decreases x
  {
    if x == 1 {
    } else if x % 2 == 0 {
      PowerOfTwoTest(x / 2);
      assert (x - 1) / 2 == x / 2 - 1;
      assert And(x, x - 1) == 2 * And(x / 2, x / 2 - 1);
    } else {
      AndSelf(x / 2);
      assert (x - 1) / 2 == x / 2;
      assert And(x, x - 1) == 2 * And(x / 2, x / 2);
    }
  }

  /** Euclidean division is determined by quotient and remainder. */
  lemma ModOfDecomposition(x: nat, d: nat, q: nat, t: nat)
    requires d > 0 && x == d * q + t && t < d
    ensures x % d == t && x / d == q
  {
    var q', t' := x / d, x % d;
    assert x == d * q' + t';
    if q > q' {
      MulAtLeast(d, q - q');
    } else if q < q' {
      MulAtLeast(d, q' - q);
    }
  }

  lemma MulAtLeast(d: nat, m: nat)
    requires m >= 1
    ensures d * m >= d
  {
    assert d * m == d + d * (m - 1);
  }

  /** AND with all of the low w bits set keeps any x below 2^w. */
  lemma {:induction false} AndLowOnes(x: nat, w: nat)
    requires x < Pow2(w)
    ensures And(x, Pow2(w) - 1) == x
    decreases w
  {
    if x != 0 {
      assert w > 0;
      var m := Pow2(w - 1) - 1;
      assert Pow2(w) - 1 == 2 * m + 1;
      AndLowOnes(x / 2, w - 1);
      assert And(x, Pow2(w) - 1) == 2 * And(x / 2, m) + x % 2;
    }
  }

  /** x with its low k bits cleared, bit by bit. */
  function ClearLow(x: nat, k: nat): nat
  {
    if k == 0 then x else 2 * ClearLow(x / 2, k - 1)
  }

  /** Clearing the low k bits rounds down to a multiple of 2^k. */
  lemma {:induction false} ClearLowMeaning(x: nat, k: nat)
    ensures ClearLow(x, k) == x - x % Pow2(k)
    decreases k
  {
    if k > 0 {
      ClearLowMeaning(x / 2, k - 1);
      RoundDownHalves(x, Pow2(k - 1));
    }
  }

  /** AND with the w-bit complement of 2^k - 1 clears the low k bits. */
  lemma {:induction false} AndMaskClearsLow(x: nat, w: nat, k: nat)
    requires k <= w && x < Pow2(w)
    ensures Pow2(k) <= Pow2(w) && And(x, Pow2(w) - Pow2(k)) == ClearLow(x, k)
    decreases k
  {
    PowMonotone(k, w);
    if k == 0 {
      AndLowOnes(x, w);
    } else {
      assert x / 2 < Pow2(w - 1);
      AndMaskClearsLow(x / 2, w - 1, k - 1);
      AndMaskStep(x, w, k);
    }
  }

  /** The inductive step of AndMaskClearsLow: the mask of width w is twice the mask of width w - 1. */
  lemma AndMaskStep(x: nat, w: nat, k: nat)
    requires 0 < k <= w && Pow2(k - 1) <= Pow2(w - 1)
    requires And(x / 2, Pow2(w - 1) - Pow2(k - 1)) == ClearLow(x / 2, k - 1)
    ensures And(x, Pow2(w) - Pow2(k)) == ClearLow(x, k)
  {
    var mask := Pow2(w - 1) - Pow2(k - 1);
    calc {
      And(x, Pow2(w) - Pow2(k));
      { assert Pow2(w) - Pow2(k) == 2 * mask; }
      And(x, 2 * mask);
      { AndOfEven(x, mask); }
      2 * And(x / 2, mask);
    }
  }

  /**
   * AND with the w-bit complement of 2^k - 1 leaves x rounded down to a
   * multiple of 2^k.
   */
  lemma AndClearsLowBits(x: nat, w: nat, k: nat)
    requires k <= w && x < Pow2(w)
    ensures Pow2(k) <= Pow2(w) && And(x, Pow2(w) - Pow2(k)) == x - x % Pow2(k)
  {
    AndMaskClearsLow(x, w, k);
    ClearLowMeaning(x, k);
  }

  lemma AndOfEven(x: nat, m: nat)
    ensures And(x, 2 * m) == 2 * And(x / 2, m)
  {
    if x != 0 && m != 0 {
      assert (2 * m) / 2 == m && (2 * m) % 2 == 0;
    }
  }

  /** Rounding x/2 down to a multiple of p, then doubling, rounds x down to a multiple of 2p. */
  lemma RoundDownHalves(x: nat, p: nat)
    requires p > 0
    ensures 2 * (x / 2 - (x / 2) % p) == x - x % (2 * p)
  {
    var q := x / 2;
    var s, t := q / p, q % p;
    assert q == p * s + t;
    assert x == (2 * p) * s + (2 * t + x % 2);
    ModOfDecomposition(x, 2 * p, s, 2 * t + x % 2);
  }

  lemma {:induction false} PowMonotone(i: nat, j: nat)
    requires i <= j
    ensures Pow2(i) <= Pow2(j)
    decreases j
  {
    if i < j {
      PowMonotone(i, j - 1);
    }
  }
}
