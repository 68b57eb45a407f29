/**
 Little-endian bignums as the decimal conversion code uses them: sequences of
 32-bit limbs, with 64-bit accumulators for intermediate results.
 */
module Limbs {
  import opened Powers

  const BASE: int := 0x1_0000_0000

  /** mp_limb_t: an unsigned 32-bit value. */
  type Limb = x: int | 0 <= x < 0x1_0000_0000

  /** mp_twolimb_t: an unsigned 64-bit value.  Every assignment to a variable of
      this type proves that the C computation does not wrap around. */
  type TwoLimb = x: int | 0 <= x < 0x1_0000_0000_0000_0000

  /** BASE to the power k. */
  ghost function Pow(k: nat): (r: nat)
    ensures r >= 1
  {
    Power(BASE, k)
  }

  /** The number denoted by a little-endian limb sequence. */
  ghost function Val(s: seq<Limb>): nat
  {
    if s == [] then 0 else s[0] + BASE * Val(s[1..])
  }

  /** No superfluous high-order zero limb. */
  ghost predicate Normalised(s: seq<Limb>)
  {
    s == [] || s[|s| - 1] != 0
  }

  lemma PowSum(i: nat, j: nat)
    ensures Pow(i + j) == Pow(i) * Pow(j)
  {
    hide Power;
    PowerSum(BASE, i, j);
  }

  lemma PowMonotone(i: nat, j: nat)
    requires i <= j
    ensures Pow(i) <= Pow(j)
  {
    hide Power;
    ExponentMonotone(BASE, i, j);
  }

  lemma {:induction false} ValConcat(s: seq<Limb>, t: seq<Limb>)
    ensures Val(s + t) == Val(s) + Pow(|s|) * Val(t)
  {
    if s == [] {
      assert s + t == t;
    } else {
      assert (s + t)[1..] == s[1..] + t;
      ValConcat(s[1..], t);
      assert Pow(|s|) * Val(t) == BASE * (Pow(|s| - 1) * Val(t));
    }
  }

  lemma PowSucc(k: nat)
    ensures Pow(0) == 1 && Pow(k + 1) == BASE * Pow(k)
  {
  }

  lemma ValEmpty()
    ensures Val([]) == 0
  {
  }

  lemma ValSingle(x: Limb)
    ensures Val([x]) == x
  {
    assert [x][1..] == [];
  }

  lemma ValSnoc(s: seq<Limb>, x: Limb)
    ensures Val(s + [x]) == Val(s) + Pow(|s|) * x
  {
    ValSingle(x);
    ValConcat(s, [x]);
  }

  lemma {:induction false} ValBound(s: seq<Limb>)
    ensures Val(s) < Pow(|s|)
  {
    if s != [] {
      ValBound(s[1..]);
    }
  }

  lemma MulMonotone(x: int, y: int, p: int)
    requires x <= y && 0 <= p
    ensures x * p <= y * p
  {
  }

  lemma MulAssoc(x: int, y: int, z: int)
    ensures (x * y) * z == x * (y * z)
  {
  }

  /** A limb sequence whose top limb is nonzero is at least BASE^(n-1). */
  lemma {:induction false} ValLowerBound(s: seq<Limb>)
    requires s != [] && s[|s| - 1] != 0
    ensures Val(s) >= Pow(|s| - 1)
  {
    if |s| > 1 {
      ValLowerBound(s[1..]);
    }
  }

  /** Zero limbs at the top do not change the value. */
  lemma {:induction false} ValZeros(s: seq<Limb>)
    requires forall i :: 0 <= i < |s| ==> s[i] == 0
    ensures Val(s) == 0
  {
    if s != [] {
      ValZeros(s[1..]);
    }
  }

  lemma ValDropTopZero(s: seq<Limb>, n: nat)
    requires n < |s| && s[n] == 0
    ensures Val(s[..n + 1]) == Val(s[..n])
  {
    assert s[..n + 1] == s[..n] + [s[n]];
    ValSnoc(s[..n], s[n]);
  }

  /** Normalised representations are unique. */
  lemma {:induction false} ValInjective(s: seq<Limb>, t: seq<Limb>)
    requires Normalised(s) && Normalised(t)
    requires Val(s) == Val(t)
    ensures s == t
  {
    if s == [] || t == [] {
      if s != [] { ValLowerBound(s); }
      if t != [] { ValLowerBound(t); }
    } else {
      assert s[0] == t[0] && Val(s[1..]) == Val(t[1..]);
      ValInjective(s[1..], t[1..]);
      assert s == [s[0]] + s[1..] && t == [t[0]] + t[1..];
    }
  }
}
