/** Left shifts of limb arrays, as divide and the decimal scaling driver do them
    with a 64-bit accumulator (vasnprintf.c). */
module Shift {
  import opened Powers
  import opened Limbs

  lemma TwoToLimb(s: nat)
    requires s < 32
    ensures TwoTo(s) <= 0x8000_0000
  {
    TwoToMonotone(s, 31);
    TwoTo31();
  }

  lemma TwoTo31()
    ensures TwoTo(31) == 0x8000_0000 && TwoTo(32) == BASE
  {
    assert TwoTo(8) == 0x100;
    TwoToSum(8, 8);
    TwoToSum(16, 8);
    assert TwoTo(7) == 0x80;
    TwoToSum(24, 7);
    TwoToSum(16, 16);
  }

  /** A whole limb is a shift by 32 bits. */
  lemma {:induction false} TwoToLimbs(n: nat)
    ensures TwoTo(32 * n) == Pow(n)
  {
    if n > 0 {
      TwoToLimbs(n - 1);
      TwoTo31();
      TwoToSum(32, 32 * (n - 1));
      assert 32 + 32 * (n - 1) == 32 * n;
    }
  }

  /** The limbs out and the carry above them denote p times the limbs in. */
  ghost predicate IsShifted(out: seq<Limb>, accu: int, src: seq<Limb>, p: int)
  {
    Val(out) + Pow(|out|) * accu == p * Val(src)
  }

  lemma ShiftedEmpty(p: int)
    ensures IsShifted([], 0, [], p)
  {
  }

  lemma ShiftedStep(out: seq<Limb>, accu: int, src: seq<Limb>, p: int, x: Limb, lo: Limb, hi: int)
    requires IsShifted(out, accu, src, p) && |out| == |src|
    requires accu + x * p == hi * BASE + lo
    ensures IsShifted(out + [lo], hi, src + [x], p)
  {
    hide Val, Pow;
    ValSnoc(out, lo);
    ValSnoc(src, x);
    PowSucc(|out|);
    ShiftWeight(Val(out), Pow(|out|), accu, Val(src), p, x, lo, hi);
  }

  lemma ShiftWeight(o: int, w: int, accu: int, v: int, p: int, x: int, lo: int, hi: int)
    requires o + w * accu == p * v
    requires accu + x * p == hi * BASE + lo
    ensures (o + w * lo) + (BASE * w) * hi == p * (v + w * x)
  {
    assert w * (accu + x * p) == w * accu + p * (w * x);
    assert w * (hi * BASE + lo) == (BASE * w) * hi + w * lo;
  }

  /** One accumulator step stays below 2^63 and leaves a carry below 2^s. */
  lemma AccuFits(accu: int, x: Limb, p: int)
    requires 0 <= accu < p <= 0x8000_0000
    ensures 0 <= x * p <= 0x7FFF_FFFF_8000_0000
    ensures accu + x * p < p * BASE
  {
    MulMonotone(x, BASE - 1, p);
    MulMonotone(0, x, p);
  }

  /** dst[dstOff..] := src[srcOff..] << s for len limbs; returns the bits shifted
      out.  Works in place when source and destination coincide. */
  method ShiftLeft(src: array<Limb>, srcOff: nat, dst: array<Limb>, dstOff: nat, len: nat, s: nat)
    returns (out: Limb)
    requires s < 32
    requires srcOff + len <= src.Length && dstOff + len <= dst.Length
    requires src != dst || srcOff == dstOff
    modifies dst
    ensures dst[..dstOff] == old(dst[..dstOff])
    ensures dst[dstOff + len..] == old(dst[dstOff + len..])
    ensures IsShifted(dst[dstOff..dstOff + len], out, old(src[srcOff..srcOff + len]), TwoTo(s))
    ensures out < TwoTo(s)
  {
    hide Val, Pow, IsShifted, TwoTo;
    var p := TwoTo(s);
    ghost var whole := src[srcOff..srcOff + len];
    TwoToLimb(s);
    ShiftedEmpty(p);
    var accu: TwoLimb := 0;
    var i := 0;
    assert dst[dstOff..dstOff + i] == [] && whole[..i] == [];
    while i < len
      invariant 0 <= i <= len
      invariant accu < p
      invariant forall k :: 0 <= k < dstOff || dstOff + i <= k < dst.Length ==> dst[k] == old(dst[k])
      invariant forall k :: srcOff + i <= k < srcOff + len ==> src[k] == old(src[k])
      invariant IsShifted(dst[dstOff..dstOff + i], accu, whole[..i], p)
    {
      var x := src[srcOff + i];
      assert x == whole[i];
      ghost var done, accu0 := dst[dstOff..dstOff + i], accu;
      AccuFits(accu, x, p);
      accu := accu + x * p;
      dst[dstOff + i] := accu % BASE;
      ghost var lo := dst[dstOff + i];
      accu := accu / BASE;
      assert dst[dstOff..dstOff + i + 1] == done + [lo];
      assert whole[..i + 1] == whole[..i] + [x];
      ShiftedStep(done, accu0, whole[..i], p, x, lo, accu);
      i := i + 1;
    }
    assert whole[..len] == whole;
    return accu;
  }
}
