/** Powers of natural numbers. */
module Powers {

  /** b to the power k. */
  function Power(b: nat, k: nat): (r: nat)
    ensures b >= 1 ==> r >= 1
  {
    if k == 0 then 1 else b * Power(b, k - 1)
  }

  lemma PowerStep(b: nat, k: nat)
    ensures Power(b, k) == if k == 0 then 1 else b * Power(b, k - 1)
  {
  }

  lemma {:induction false} PowerSum(b: nat, i: nat, j: nat)
    ensures Power(b, i + j) == Power(b, i) * Power(b, j)
  {
    hide Power;
    PowerStep(b, i);
    if i > 0 {
      PowerSum(b, i - 1, j);
      PowerStep(b, i + j);
      FactorOut(b, Power(b, i), Power(b, i - 1), Power(b, j));
    }
  }

  /** A factor of the first factor is a factor of the product. */
  lemma FactorOut(b: int, x: int, rest: int, y: int)
    requires x == b * rest
    ensures x * y == b * (rest * y)
  {
  }

  /** A power with a larger exponent. */
  lemma {:induction false} ExponentMonotone(b: nat, i: nat, j: nat)
    requires i <= j && b >= 1
    ensures Power(b, i) <= Power(b, j)
  {
    if i < j {
      ExponentMonotone(b, i, j - 1);
      hide Power;
      PowerStep(b, j);
      ProductMonotone(1, b, Power(b, j - 1), Power(b, j - 1));
    }
  }

  /** A power of a larger base. */
  lemma {:induction false} BaseMonotone(a: nat, b: nat, k: nat)
    requires a <= b
    ensures Power(a, k) <= Power(b, k)
  {
    if k > 0 {
      BaseMonotone(a, b, k - 1);
      hide Power;
      PowerStep(a, k);
      PowerStep(b, k);
      ProductMonotone(a, b, Power(a, k - 1), Power(b, k - 1));
    }
  }

  lemma ProductMonotone(a: nat, b: nat, x: nat, y: nat)
    requires a <= b && x <= y
    ensures a * x <= b * y
  {
    assert a * x <= b * x && b * x <= b * y;
  }

  lemma {:induction false} PowerOfProduct(a: nat, b: nat, k: nat)
    ensures Power(a * b, k) == Power(a, k) * Power(b, k)
  {
    hide Power;
    PowerStep(a, k);
    PowerStep(b, k);
    PowerStep(a * b, k);
    if k > 0 {
      PowerOfProduct(a, b, k - 1);
      Regroup(a, b, Power(a, k - 1), Power(b, k - 1));
    }
  }

  lemma Regroup(a: int, b: int, x: int, y: int)
    ensures (a * b) * (x * y) == (a * x) * (b * y)
  {
    FactorOut(a, a * x, x, b * y);
    FactorOut(b, b * y, y, x);
    FactorOut(a, a * b, b, x * y);
    assert x * (b * y) == b * (x * y);
  }

  lemma {:induction false} PowerOfPower(b: nat, i: nat, k: nat)
    ensures Power(Power(b, i), k) == Power(b, i * k)
  {
    hide Power;
    PowerStep(b, 0);
    PowerStep(Power(b, i), k);
    if k > 0 {
      PowerOfPower(b, i, k - 1);
      assert i * k == i + i * (k - 1);
      PowerSum(b, i, i * (k - 1));
    }
  }

  // ------------------------------------------------------------- powers of two

  function TwoTo(k: nat): (r: nat)
    ensures r >= 1
  {
    Power(2, k)
  }

  lemma TwoToSucc(k: nat)
    ensures TwoTo(0) == 1 && TwoTo(k + 1) == 2 * TwoTo(k)
  {
  }

  lemma TwoToSum(i: nat, j: nat)
    ensures TwoTo(i + j) == TwoTo(i) * TwoTo(j)
  {
    hide Power;
    PowerSum(2, i, j);
  }

  lemma TwoToMonotone(i: nat, j: nat)
    requires i <= j
    ensures TwoTo(i) <= TwoTo(j)
  {
    hide Power;
    ExponentMonotone(2, i, j);
  }
}
