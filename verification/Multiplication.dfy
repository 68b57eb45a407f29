/** The schoolbook product of two bignums (multiply in vasnprintf.c). */
module Multiplication {
  import opened Limbs

  /** mpn_t: a limb count and a pointer to the least significant limb. */
  datatype Mpn = Mpn(buf: array<Limb>, off: nat, nlimbs: nat) {

    ghost predicate Valid()
      reads buf
    {
      off + nlimbs <= buf.Length
    }

    ghost function Limbs(): (s: seq<Limb>)
      requires Valid()
      reads buf
      ensures |s| == nlimbs
    {
      buf[off..off + nlimbs]
    }

    ghost function Value(): nat
      requires Valid()
      reads buf
    {
      Val(Limbs())
    }
  }

  /** z denotes the product of the numbers denoted by x and y. */
  ghost predicate IsProduct(z: seq<Limb>, x: seq<Limb>, y: seq<Limb>)
  {
    Val(z) == Val(x) * Val(y)
  }

  lemma ProductOfEmpty(z: seq<Limb>, y: seq<Limb>)
    requires Val(z) == 0
    ensures IsProduct(z, [], y) && IsProduct(z, y, [])
  {
  }

  /** One step of a multiply-and-accumulate row: the sum of the limbs done and
      the carry at weight p grows by digit1 * digit2 and the old limb d. */
  lemma RowStep(done: int, carry: int, old_: int, part: int, digit1: int, digit2: int, d: int,
                lo: int, hi: int, p: int)
    requires done + p * carry == old_ + digit1 * part
    requires carry + digit1 * digit2 + d == hi * BASE + lo
    ensures (done + p * lo) + (BASE * p) * hi == (old_ + p * d) + digit1 * (part + p * digit2)
  {
    assert p * (carry + digit1 * digit2 + d) == p * carry + digit1 * (p * digit2) + p * d;
    assert p * (hi * BASE + lo) == (BASE * p) * hi + p * lo;
  }

  /** A 32x32-bit product, an old limb and a carry fit in 64 bits, and the carry that
      goes on fits in 32 bits. */
  lemma ProductFits(x: int, y: int, d: int, carry: int)
    requires 0 <= x < BASE && 0 <= y < BASE && 0 <= d < BASE && 0 <= carry < BASE
    ensures 0 <= x * y <= 0xFFFF_FFFE_0000_0001
    ensures carry + x * y + d < BASE * BASE && (carry + x * y + d) / BASE < BASE
  {
    MulMonotone(x, BASE - 1, y);
    MulMonotone(0, x, y);
  }

  /** after denotes before plus digit1 times p2. */
  ghost predicate IsRowSum(after: seq<Limb>, before: seq<Limb>, digit1: Limb, p2: seq<Limb>)
  {
    Val(after) == Val(before) + digit1 * Val(p2)
  }

  /** The inner loop: dp[i..i+len2] := dp[i..i+len2] + digit1 * p2, with the
      carry stored as a further limb. */
  method AddRow(dp: array<Limb>, i: nat, digit1: Limb, p2: seq<Limb>)
    requires i + |p2| < dp.Length
    modifies dp
    ensures dp[..i] == old(dp[..i])
    ensures IsRowSum(dp[i..i + |p2| + 1], old(dp[i..i + |p2|]), digit1, p2)
  {
    hide Val, Pow;
    ValEmpty();
    PowSucc(0);
    var carry: TwoLimb := 0;
    ghost var before := dp[..];
    var len2 := |p2|;
    var j := 0;
    while j < len2
      invariant 0 <= j <= len2
      invariant carry < BASE
      invariant dp[..i] == before[..i]
      invariant dp[i + j..] == before[i + j..]
      invariant Val(dp[i..i + j]) + Pow(j) * carry == Val(before[i..i + j]) + digit1 * Val(p2[..j])
    {
      var digit2 := p2[j];
      ghost var carry0, done := carry, dp[i..i + j];
      ProductFits(digit1, digit2, dp[i + j], carry);
      carry := carry + digit1 * digit2;
      carry := carry + dp[i + j];
      assert dp[i + j] == before[i + j];
      dp[i + j] := carry % BASE;
      ghost var lo := dp[i + j];
      carry := carry / BASE;
      assert dp[i..i + j + 1] == done + [lo];
      assert before[i..i + j + 1] == before[i..i + j] + [before[i + j]];
      assert p2[..j + 1] == p2[..j] + [digit2];
      ValSnoc(done, lo);
      ValSnoc(before[i..i + j], before[i + j]);
      ValSnoc(p2[..j], digit2);
      PowSucc(j);
      RowStep(Val(done), carry0, Val(before[i..i + j]), Val(p2[..j]), digit1, digit2,
              before[i + j], lo, carry, Pow(j));
      j := j + 1;
    }
    assert p2[..len2] == p2;
    ghost var done := dp[i..i + len2];
    dp[i + len2] := carry;
    assert dp[i..i + len2 + 1] == done + [carry];
    ValSnoc(done, carry);
  }

  /** The rows added so far hold the product of the low part of p1 with p2. */
  lemma RowAdded(before: seq<Limb>, after: seq<Limb>, i: nat, p1: seq<Limb>, p2: seq<Limb>)
    requires |before| == |after| && i < |p1| && i + |p2| < |after|
    requires before[..i] == after[..i]
    requires IsRowSum(after[i..i + |p2| + 1], before[i..i + |p2|], p1[i], p2)
    requires IsProduct(before[..i + |p2|], p1[..i], p2)
    ensures IsProduct(after[..i + 1 + |p2|], p1[..i + 1], p2)
  {
    hide Val, Pow;
    var len2, v2 := |p2|, Val(p2);
    assert Val(before[..i + len2]) == Val(before[..i]) + Pow(i) * Val(before[i..i + len2]) by {
      assert before[..i + len2] == before[..i] + before[i..i + len2];
      ValConcat(before[..i], before[i..i + len2]);
    }
    assert Val(after[..i + 1 + len2]) == Val(after[..i]) + Pow(i) * Val(after[i..i + len2 + 1]) by {
      assert after[..i + 1 + len2] == after[..i] + after[i..i + len2 + 1];
      ValConcat(after[..i], after[i..i + len2 + 1]);
    }
    assert Val(p1[..i + 1]) == Val(p1[..i]) + Pow(i) * p1[i] by {
      assert p1[..i + 1] == p1[..i] + [p1[i]];
      ValSnoc(p1[..i], p1[i]);
    }
    RowWeight(Val(before[..i]), Pow(i), Val(before[i..i + len2]), Val(p1[..i]), p1[i], v2);
  }

  lemma RowWeight(low: int, p: int, high: int, part: int, digit1: int, v2: int)
    requires low + p * high == part * v2
    ensures low + p * (high + digit1 * v2) == (part + p * digit1) * v2
  {
    assert p * (high + digit1 * v2) == p * high + (p * digit1) * v2;
  }

  /** "while (len > 0 && p[len - 1] == 0) len--", for the limbs at p = buf + off. */
  method NormalLength(buf: array<Limb>, off: nat, len: nat) returns (n: nat)
    requires off + len <= buf.Length
    ensures n <= len && Normalised(buf[off..off + n])
    ensures Val(buf[off..off + n]) == Val(buf[off..off + len])
  {
    n := len;
    while n > 0 && buf[off + n - 1] == 0
      invariant 0 <= n <= len
      invariant Val(buf[off..off + n]) == Val(buf[off..off + len])
    {
      ghost var s := buf[off..off + len];
      ValDropTopZero(s, n - 1);
      assert s[..n] == buf[off..off + n] && s[..n - 1] == buf[off..off + (n - 1)];
      n := n - 1;
    }
  }

  /** The product of two bignums, normalised; the operands need not be. */
  method Multiply(src1: Mpn, src2: Mpn) returns (dest: Mpn)
    requires src1.Valid() && src2.Valid()
    ensures fresh(dest.buf) && dest.Valid()
    ensures Normalised(dest.Limbs())
    ensures dest.Value() == src1.Value() * src2.Value()
  {
    hide Val, Pow;
    var x1, x2 := src1, src2;
    if !(src1.nlimbs <= src2.nlimbs) {
      x1, x2 := src2, src1;
    }
    dest := MultiplyOrdered(x1, x2);
  }

  /** The body of multiply once the shorter factor comes first. */
  method MultiplyOrdered(x1: Mpn, x2: Mpn) returns (dest: Mpn)
    requires x1.Valid() && x2.Valid() && x1.nlimbs <= x2.nlimbs
    ensures fresh(dest.buf) && dest.Valid()
    ensures Normalised(dest.Limbs())
    ensures IsProduct(dest.Limbs(), x1.Limbs(), x2.Limbs())
  {
    hide Val, Pow, IsProduct, IsRowSum;
    var len1, len2 := x1.nlimbs, x2.nlimbs;
    if len1 == 0 {
      var empty := new Limb[0];
      dest := Mpn(empty, 0, 0);
      ValEmpty();
      ProductOfEmpty([], x2.Limbs());
      return;
    }
    var dlen := len1 + len2;
    var dp := new Limb[dlen];
    var k := len2;
    while k > 0
      invariant 0 <= k <= len2
      invariant forall z :: k <= z < len2 ==> dp[z] == 0
    {
      k := k - 1;
      dp[k] := 0;
    }
    var p1 := x1.buf[x1.off..x1.off + len1];
    var p2 := x2.buf[x2.off..x2.off + len2];
    ValZeros(dp[..len2]);
    ProductOfEmpty(dp[..len2], p2);
    var i := 0;
    while i < len1
      invariant 0 <= i <= len1
      invariant IsProduct(dp[..i + len2], p1[..i], p2)
    {
      ghost var before := dp[..];
      assert before[..i + len2] == dp[..i + len2];
      assert before[i..i + len2] == dp[i..i + len2];
      AddRow(dp, i, p1[i], p2);
      ghost var after := dp[..];
      assert after[..i] == dp[..i] && before[..i] == after[..i];
      assert after[i..i + len2 + 1] == dp[i..i + len2 + 1];
      assert after[..i + 1 + len2] == dp[..i + 1 + len2];
      RowAdded(before, after, i, p1, p2);
      i := i + 1;
    }
    assert p1[..len1] == p1;
    assert dp[..len1 + len2] == dp[0..0 + dlen];
    dlen := NormalLength(dp, 0, dlen);
    dest := Mpn(dp, 0, dlen);
    assert dest.Limbs() == dp[0..0 + dlen];
    ProductOfEqual(dp[..len1 + len2], dest.Limbs(), p1, p2);
  }

  lemma ProductOfEqual(z: seq<Limb>, z': seq<Limb>, x: seq<Limb>, y: seq<Limb>)
    requires IsProduct(z, x, y) && Val(z) == Val(z')
    ensures IsProduct(z', x, y)
  {
  }
}
