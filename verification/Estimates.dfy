/** Buffer sizes that C code computes in floats: (size_t)(n * factor) + 1. */
module Estimates {

  /** The relative error of the product is at most one part in this many; three
      roundings to 24 bits make less. */
  const PRECISION: nat := 0x10_0000

  /** Rounding down some number that is as near to n * num / den, and adding 1, gives
      size. */
  predicate IsEstimate(n: nat, num: nat, den: nat, size: nat)
  {
    && den * PRECISION * size > n * num * (PRECISION - 1)
    && den * PRECISION * (size - 1) <= n * num * (PRECISION + 1)
  }

  /** The size; callers know no more than that it is as good as that. */
  method Estimate(n: nat, num: nat, den: nat) returns (size: nat)
    requires den > 0
    ensures IsEstimate(n, num, den, size)
  {
    size := n * num / den + 1;
    ExactEstimate(n * num, den, size);
    assert den * PRECISION * size == PRECISION * (den * size);
    assert den * PRECISION * (size - 1) == PRECISION * (den * (size - 1));
  }

  lemma ExactEstimate(x: nat, den: nat, size: nat)
    requires den > 0 && size == x / den + 1
    ensures den * size > x && den * (size - 1) <= x
  {
    assert x == den * (x / den) + x % den;
    assert den * size == den * (x / den) + den;
  }
}
