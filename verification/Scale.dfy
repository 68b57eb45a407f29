/** The decimal representation of m * 2^e * 10^n rounded to an integer
    (scale10_round_decimal_decoded in vasnprintf.c). */
module Scale {
  import opened Estimates
  import opened Powers
  import opened Limbs
  import opened Multiplication
  import opened Shift
  import opened Division
  import opened Decimal

  /** 5 to the power k. */
  ghost function FiveTo(k: nat): (r: nat)
    ensures r >= 1
  {
    Power(5, k)
  }

  function Pos(x: int): nat { if x > 0 then x else 0 }

  function Neg(x: int): nat { if x < 0 then -x else 0 }

  /** m * 2^e * 10^n is Numerator / Denominator. */
  ghost function Numerator(m: nat, e: int, n: int): nat
  {
    m * TwoTo(Pos(e)) * TenTo(Pos(n))
  }

  ghost function Denominator(e: int, n: int): (d: nat)
    ensures d >= 1
  {
    MulMonotone(1, TwoTo(Neg(e)), TenTo(Neg(n)));
    TwoTo(Neg(e)) * TenTo(Neg(n))
  }

  // ------------------------------------------------------ exponent algebra

  lemma FiveToSum(i: nat, j: nat)
    ensures FiveTo(i + j) == FiveTo(i) * FiveTo(j)
  {
    hide Power;
    PowerSum(5, i, j);
  }

  lemma {:induction false} TenIsTwoTimesFive(k: nat)
    ensures TenTo(k) == FiveTo(k) * TwoTo(k)
  {
    if k > 0 {
      TenIsTwoTimesFive(k - 1);
      var f, t := FiveTo(k - 1), TwoTo(k - 1);
      assert (5 * f) * (2 * t) == 10 * (f * t);
    }
  }

  /** What remains after splitting 10^n into 5^n * 2^n and collecting the powers
      of two into 2^s with s = e + n. */
  ghost function TwoFiveNumerator(m: nat, s: int, n: int): nat
  {
    m * FiveTo(Pos(n)) * TwoTo(Pos(s))
  }

  ghost function TwoFiveDenominator(s: int, n: int): (d: nat)
    ensures d >= 1
  {
    MulMonotone(1, FiveTo(Neg(n)), TwoTo(Neg(s)));
    FiveTo(Neg(n)) * TwoTo(Neg(s))
  }

  /** m*2^e*10^n == m*5^n*2^(e+n), as fractions that differ by a power of two. */
  lemma CollectTwos(m: nat, e: int, n: int)
    ensures RoundHalfEven(Numerator(m, e, n), Denominator(e, n))
         == RoundHalfEven(TwoFiveNumerator(m, e + n, n), TwoFiveDenominator(e + n, n))
  {
    hide TwoTo, FiveTo, TenTo, RoundHalfEven;
    var s := e + n;
    var g := Pos(e) + Pos(n) - Pos(s);
    assert g >= 0 && g == Neg(e) + Neg(n) - Neg(s);
    TenIsTwoTimesFive(Pos(n));
    TenIsTwoTimesFive(Neg(n));
    TwoToSum(Pos(e), Pos(n));
    TwoToSum(Pos(s), g);
    TwoToSum(Neg(e), Neg(n));
    TwoToSum(Neg(s), g);
    CollectArithmetic(m, TwoTo(Pos(e)), FiveTo(Pos(n)), TwoTo(Pos(n)), TwoTo(Pos(s)), TwoTo(g));
    CollectArithmetic(1, TwoTo(Neg(e)), FiveTo(Neg(n)), TwoTo(Neg(n)), TwoTo(Neg(s)), TwoTo(g));
    RoundHalfEvenScaled(TwoFiveNumerator(m, s, n), TwoFiveDenominator(s, n), TwoTo(g));
  }

  lemma CollectArithmetic(m: int, te: int, f: int, tn: int, ts: int, tg: int)
    requires te * tn == ts * tg
    ensures m * te * (f * tn) == (m * f * ts) * tg
    ensures te * (f * tn) == (f * ts) * tg
  {
    assert te * (f * tn) == f * (te * tn);
    assert (f * ts) * tg == f * (ts * tg);
    assert m * te * (f * tn) == m * (te * (f * tn));
    assert (m * f * ts) * tg == m * ((f * ts) * tg);
  }

  /** The power of ten that is factored out before the bignum work. */
  function CommonTens(s: int, n: int): nat
  {
    if s > 0 && n > 0 then (if s < n then s else n) else 0
  }

  /** Factoring out 10^x loses nothing: the remaining quotient is exact. */
  lemma FactorTens(m: nat, s: int, n: int)
    ensures RoundHalfEven(TwoFiveNumerator(m, s, n), TwoFiveDenominator(s, n))
         == RoundHalfEven(TwoFiveNumerator(m, s - CommonTens(s, n), n - CommonTens(s, n)),
                          TwoFiveDenominator(s - CommonTens(s, n), n - CommonTens(s, n)))
            * TenTo(CommonTens(s, n))
  {
    hide TwoTo, FiveTo, TenTo, RoundHalfEven;
    var x := CommonTens(s, n);
    ZeroPowers();
    if x > 0 {
      FiveToSum(n - x, x);
      TwoToSum(s - x, x);
      TenIsTwoTimesFive(x);
      var f, t, fx, tx := FiveTo(n - x), TwoTo(s - x), FiveTo(x), TwoTo(x);
      assert (m * (f * fx)) * (t * tx) == (m * f * t) * (fx * tx);
      RoundExact(TwoFiveNumerator(m, s, n));
      RoundExact(TwoFiveNumerator(m, s - x, n - x));
    }
  }

  lemma ZeroPowers()
    ensures TwoTo(0) == 1 && FiveTo(0) == 1 && TenTo(0) == 1
  {
  }

  lemma RoundExact(a: nat)
    ensures RoundHalfEven(a, 1) == a
  {
  }

  // ---------------------------------------------------- small powers of 5

  const SMALL_POW5: seq<Limb> :=
    [1, 5, 25, 125, 625, 3125, 15625, 78125, 390625, 1953125, 9765625,
     48828125, 244140625, 1220703125]

  lemma SmallPow5(k: nat)
    requires k <= 13
    ensures SMALL_POW5[k] == FiveTo(k)
  {
    if k > 0 {
      SmallPow5(k - 1);
    }
  }

  /** digits out and the carry above them denote p times the limbs in: the limb
      product has the same meaning as a shift by a power of two. */
  method MultiplyLimb(buf: array<Limb>, len: nat, digit1: Limb) returns (out: Limb)
    requires len <= buf.Length
    modifies buf
    ensures forall k :: len <= k < buf.Length ==> buf[k] == old(buf[k])
    ensures IsShifted(buf[..len], out, old(buf[..len]), digit1)
  {
    hide Val, Pow, IsShifted;
    ghost var whole := buf[..len];
    ShiftedEmpty(digit1);
    var carry: TwoLimb := 0;
    var j := 0;
    assert buf[..j] == [] && whole[..j] == [];
    while j < len
      invariant 0 <= j <= len
      invariant carry < BASE
      invariant forall k :: j <= k < buf.Length ==> buf[k] == old(buf[k])
      invariant IsShifted(buf[..j], carry, whole[..j], digit1)
    {
      var digit2 := buf[j];
      assert digit2 == whole[j];
      ghost var done, carry0 := buf[..j], carry;
      ProductFits(digit2, digit1, 0, carry);
      carry := carry + digit2 * digit1;
      buf[j] := carry % BASE;
      ghost var lo := buf[j];
      carry := carry / BASE;
      assert buf[..j + 1] == done + [lo];
      assert whole[..j + 1] == whole[..j] + [digit2];
      ShiftedStep(done, carry0, whole[..j], digit1, digit2, lo, carry);
      j := j + 1;
    }
    assert whole[..len] == whole;
    return carry;
  }

  lemma ShiftedValue(out: seq<Limb>, accu: Limb, src: seq<Limb>, p: int)
    requires IsShifted(out, accu, src, p)
    ensures Val(out + [accu]) == p * Val(src)
    ensures accu == 0 ==> Val(out) == p * Val(src)
  {
    hide Val, Pow;
    ValSnoc(out, accu);
  }

  // ------------------------------------------------- room for the power of 5

  /** Bounds on powers of five multiply; the mantissa is rounded up by 28 bits. */
  lemma FiveBound(i: nat, m: nat, s: nat, j: nat, n: nat, t: nat, r: nat)
    requires Power(5, i) <= m * TwoTo(s) && Power(5, j) <= n * TwoTo(t)
    requires m * n <= r * 0x1000_0000
    ensures Power(5, i + j) <= r * TwoTo(s + t + 28)
  {
    hide Power, TwoTo;
    PowerSum(5, i, j);
    ProductMonotone(Power(5, i), m * TwoTo(s), Power(5, j), n * TwoTo(t));
    Regroup(m, TwoTo(s), n, TwoTo(t));
    TwoToSum(s, t);
    TwoToSum(s + t, 28);
    TwoTo28();
    MulMonotone(m * n, r * 0x1000_0000, TwoTo(s + t));
    MulAssoc(r, 0x1000_0000, TwoTo(s + t));
  }

  lemma TwoTo28()
    ensures TwoTo(28) == 0x1000_0000
  {
    assert TwoTo(7) == 0x80;
    TwoToSum(7, 7);
    TwoToSum(14, 14);
  }

  lemma FiveTo12()
    ensures Power(5, 1) == 5 && Power(5, 12) == 244140625
  {
    assert Power(5, 3) == 125;
    PowerSum(5, 3, 3);
    PowerSum(5, 6, 6);
  }

  /** log(5)/log(2) is less than 476/205, which is less than 2.322. */
  lemma FiveTo205()
    ensures Power(5, 205) <= TwoTo(476)
  {
    hide Power, TwoTo;
    FiveTo12();
    TwoToSucc(0);
    FiveBound(12, 244140625, 0, 12, 244140625, 0, 222044605);
    FiveBound(24, 222044605, 28, 24, 222044605, 28, 183670993);
    FiveBound(48, 183670993, 84, 48, 183670993, 84, 125672794);
    FiveBound(96, 125672794, 196, 96, 125672794, 196, 58835936);
    FiveBound(192, 58835936, 420, 12, 244140625, 0, 53510973);
    PowerSum(5, 204, 1);
    TwoToSum(448, 28);
    TwoTo28();
    MulMonotone(267554865, 0x1000_0000, TwoTo(448));
  }

  lemma FiveToBound(n: nat)
    ensures Power(FiveTo(n), 205) <= TwoTo(476 * n)
  {
    hide Power;
    PowerOfPower(5, n, 205);
    PowerOfPower(5, 205, n);
    FiveTo205();
    BaseMonotone(Power(5, 205), TwoTo(476), n);
    PowerOfPower(2, 476, n);
    assert 205 * n == n * 205;
  }

  /** The limbs allocated for 5^absN: (int)(abs_n * (2.322f / GMP_LIMB_BITS)) + 1, as
      floats make it. */
  ghost predicate IsFiveLimbs(absN: nat, limbs: nat)
  {
    IsEstimate(absN, 2322, 32000, limbs)
  }

  /** Any number of limbs suffices that is more than absN * (476/205) / 32: this leaves
      2.322 room for the rounding of floats. */
  lemma FiveFitsIn(absN: nat, limbs: nat)
    requires 476 * absN < 205 * 32 * limbs
    ensures FiveTo(absN) < Pow(limbs)
  {
    hide Power, FiveTo, Pow;
    var bits := 32 * limbs;
    TwoToLimbs(limbs);
    FiveToBound(absN);
    if FiveTo(absN) >= TwoTo(bits) {
      BaseMonotone(TwoTo(bits), FiveTo(absN), 205);
      PowerOfPower(2, bits, 205);
      assert TwoTo(bits * 205) == Power(2, bits * 205) && TwoTo(bits) == Power(2, bits);
      TwoToSucc(476 * absN);
      TwoToMonotone(476 * absN + 1, bits * 205);
    }
  }

  /** So the limbs allocated suffice. */
  lemma FiveFits(absN: nat, limbs: nat)
    requires IsFiveLimbs(absN, limbs)
    ensures limbs > 0 && FiveTo(absN) < Pow(limbs)
  {
    hide FiveTo, Pow;
    FiveFitsIn(absN, limbs);
  }

  // ------------------------------------------------------------ powers of 5

  /** A number of n limbs without superfluous zero fits in as many limbs as its value
      demands. */
  lemma FitsIn(s: seq<Limb>, room: nat)
    requires Normalised(s) && Val(s) < Pow(room)
    ensures |s| <= room
  {
    hide Val, Pow;
    if |s| > room {
      ValLowerBound(s);
      PowMonotone(room, |s| - 1);
    }
  }

  /** Multiplying by a positive digit keeps the number without superfluous zero. */
  lemma StillNormalised(low: seq<Limb>, before: seq<Limb>, digit1: nat)
    requires before != [] && Normalised(before) && |low| == |before| && digit1 > 0
    requires Val(low) == digit1 * Val(before)
    ensures Normalised(low)
  {
    hide Val, Pow;
    var n := |low| - 1;
    if low[n] == 0 {
      ValDropTopZero(low, n);
      assert low[..n + 1] == low;
      ValBound(low[..n]);
      ValLowerBound(before);
      MulMonotone(1, digit1, Val(before));
    }
  }

  /** The factors so far are at most all factors. */
  lemma FiveBelow(i: nat, j: nat, room: nat)
    requires i <= j && FiveTo(j) < Pow(room)
    ensures FiveTo(i) < Pow(room)
  {
    hide FiveTo, Pow;
    FiveToSum(i, j - i);
    MulMonotone(1, FiveTo(j - i), FiveTo(i));
  }

  /** 5^absN, thirteen factors at a time, into a buffer with room for it. */
  method PowerOfFive(absN: nat, buf: array<Limb>, ghost room: nat) returns (len: nat)
    requires FiveTo(absN) < Pow(room) && 0 < room <= buf.Length
    modifies buf
    ensures 1 <= len <= room && Normalised(buf[..len])
    ensures Val(buf[..len]) == FiveTo(absN)
  {
    hide Val, Pow, IsShifted, FiveTo;
    buf[0] := 1;
    len := 1;
    assert buf[..1] == [1];
    ValSingle(1);
    ZeroPowers();
    if absN > 0 {
      var n13 := 0;
      while n13 <= absN
        invariant n13 % 13 == 0
        invariant n13 <= absN + 13
        invariant 1 <= len <= room && Normalised(buf[..len])
        invariant Val(buf[..len]) == FiveTo(if n13 <= absN then n13 else absN)
      {
        var step := if n13 + 13 <= absN then 13 else absN - n13;
        var digit1 := SMALL_POW5[step];
        SmallPow5(step);
        FiveToSum(step, n13);
        FiveBelow(step + n13, absN, room);
        ghost var before := buf[..len];
        var carry := MultiplyLimb(buf, len, digit1);
        ghost var low := buf[..len];
        ShiftedValue(low, carry, before, digit1);
        if carry > 0 {
          FitsIn(low + [carry], room);
          buf[len] := carry;
          len := len + 1;
          assert buf[..len] == low + [carry];
        } else {
          StillNormalised(low, before, digit1);
        }
        n13 := n13 + 13;
      }
    }
  }

  // ------------------------------------------------------------ powers of 2

  lemma SplitShift(absS: nat)
    ensures TwoTo(absS) == Pow(absS / 32) * TwoTo(absS % 32)
  {
    TwoToLimbs(absS / 32);
    TwoToSum(32 * (absS / 32), absS % 32);
  }

  /** Whole zero limbs below s multiply it by a power of BASE. */
  lemma ZerosBelow(zeros: seq<Limb>, s: seq<Limb>, v: int, bits: int)
    requires forall i :: 0 <= i < |zeros| ==> zeros[i] == 0
    requires Val(s) == bits * v
    ensures Val(zeros + s) == v * (Pow(|zeros|) * bits)
  {
    hide Val, Pow;
    ValZeros(zeros);
    ValConcat(zeros, s);
    var p := Pow(|zeros|);
    assert p * (bits * v) == v * (p * bits);
  }

  /** Bits first, then whole limbs. */
  lemma ShiftedTotal(zeros: seq<Limb>, s: seq<Limb>, v: int, absS: nat)
    requires |zeros| == absS / 32 && forall i :: 0 <= i < |zeros| ==> zeros[i] == 0
    requires Val(s) == TwoTo(absS % 32) * v
    ensures Val(zeros + s) == v * TwoTo(absS)
  {
    hide Val, Pow, TwoTo;
    ZerosBelow(zeros, s, v, TwoTo(absS % 32));
    SplitShift(absS);
  }

  /** buf[..len] := buf[..len] * 2^sBits in place, growing by a carry limb. */
  method ShiftBits(buf: array<Limb>, len0: nat, sBits: nat) returns (len: nat)
    requires sBits < 32 && len0 + 1 <= buf.Length
    modifies buf
    ensures len <= len0 + 1
    ensures Val(buf[..len]) == TwoTo(sBits) * old(Val(buf[..len0]))
  {
    hide Val, Pow, TwoTo, IsShifted;
    len := len0;
    ghost var before := buf[..len0];
    ZeroPowers();
    if sBits > 0 {
      assert buf[0..0 + len0] == before;
      var accu := ShiftLeft(buf, 0, buf, 0, len, sBits);
      ghost var low := buf[0..0 + len0];
      ShiftedValue(low, accu, before, TwoTo(sBits));
      assert buf[..len0] == low;
      if accu > 0 {
        buf[len] := accu;
        len := len + 1;
        assert buf[..len] == low + [accu];
      }
    }
  }

  /** buf[..len] := buf[..len] * 2^absS in place: bits first, then whole limbs. */
  method ShiftPower(buf: array<Limb>, len0: nat, absS: nat) returns (len: nat)
    requires len0 + absS / 32 + 1 <= buf.Length
    modifies buf
    ensures len <= len0 + absS / 32 + 1
    ensures Val(buf[..len]) == old(Val(buf[..len0])) * TwoTo(absS)
  {
    hide Val, Pow, TwoTo;
    ghost var v := Val(buf[..len0]);
    var sLimbs, sBits := absS / 32, absS % 32;
    len := ShiftBits(buf, len0, sBits);
    ghost var s := buf[..len];
    if sLimbs > 0 {
      MoveUp(buf, len, sLimbs);
      ZeroLimbs(buf, 0, sLimbs);
    }
    ghost var zeros := buf[..sLimbs];
    assert buf[..sLimbs + len] == zeros + s;
    ShiftedTotal(zeros, s, v, absS);
    len := len + sLimbs;
  }

  /** buf[d..d+len] := buf[..len], from the top down. */
  method MoveUp(buf: array<Limb>, len: nat, d: nat)
    requires d > 0 && d + len <= buf.Length
    modifies buf
    ensures forall k :: d <= k < d + len ==> buf[k] == old(buf[k - d])
  {
    var count := len;
    while count > 0
      invariant 0 <= count <= len
      invariant forall k :: 0 <= k < count ==> buf[k] == old(buf[k])
      invariant forall k :: d + count <= k < d + len ==> buf[k] == old(buf[k - d])
    {
      count := count - 1;
      buf[d + count] := buf[count];
    }
  }

  method ZeroLimbs(buf: array<Limb>, off: nat, n: nat)
    requires off + n <= buf.Length
    modifies buf
    ensures forall k :: off <= k < off + n ==> buf[k] == 0
    ensures forall k :: 0 <= k < off || off + n <= k < buf.Length ==> buf[k] == old(buf[k])
  {
    for i := 0 to n
      invariant forall k :: off <= k < off + i ==> buf[k] == 0
      invariant forall k :: 0 <= k < off || off + i <= k < buf.Length ==> buf[k] == old(buf[k])
    {
      buf[off + i] := 0;
    }
  }

  lemma SmallTwoTo(s: nat)
    requires s < 32
    ensures TwoTo(s) < BASE
  {
    TwoToLimb(s);
  }

  /** 2^absS as limbs of buf from off on, above the limbs already in use. */
  method PowerOfTwo(buf: array<Limb>, off: nat, absS: nat) returns (z: Mpn)
    requires off + absS / 32 + 1 <= buf.Length
    modifies buf
    ensures z == Mpn(buf, off, absS / 32 + 1)
    ensures z.Value() == TwoTo(absS)
    ensures forall k :: 0 <= k < off ==> buf[k] == old(buf[k])
  {
    hide Val, Pow, TwoTo;
    var sLimbs, sBits := absS / 32, absS % 32;
    ZeroLimbs(buf, off, sLimbs);
    SmallTwoTo(sBits);
    buf[off + sLimbs] := TwoTo(sBits);
    z := Mpn(buf, off, sLimbs + 1);
    assert z.Limbs() == buf[off..off + sLimbs] + [buf[off + sLimbs]];
    ValSingle(buf[off + sLimbs]);
    ShiftedTotal(buf[off..off + sLimbs], [buf[off + sLimbs]], 1, absS);
  }

  /** num[off..] := the limbs of m * 2^sBits; returns the number of limbs. */
  method CopyShifted(m: Mpn, num: array<Limb>, off: nat, sBits: nat) returns (len: nat)
    requires m.Valid() && m.buf != num && off + m.nlimbs + 1 <= num.Length && sBits < 32
    modifies num
    ensures len <= m.nlimbs + 1
    ensures Val(num[off..off + len]) == TwoTo(sBits) * m.Value()
    ensures forall k :: 0 <= k < off ==> num[k] == old(num[k])
  {
    hide Val, Pow, TwoTo, IsShifted;
    len := m.nlimbs;
    ZeroPowers();
    if sBits > 0 {
      var accu := ShiftLeft(m.buf, m.off, num, off, len, sBits);
      ghost var low := num[off..off + len];
      assert forall k :: 0 <= k < off ==> num[..off][k] == num[k];
      assert forall k :: 0 <= k < off ==> old(num[..off])[k] == old(num[k]);
      ShiftedValue(low, accu, m.Limbs(), TwoTo(sBits));
      if accu > 0 {
        num[off + len] := accu;
        len := len + 1;
        assert num[off..off + len] == low + [accu];
      }
    } else {
      for i := 0 to len
        invariant num[off..off + i] == m.buf[m.off..m.off + i]
        invariant forall k :: 0 <= k < off ==> num[k] == old(num[k])
      {
        ghost var done := num[off..off + i];
        num[off + i] := m.buf[m.off + i];
        assert num[off..off + i + 1] == done + [m.buf[m.off + i]];
      }
    }
  }

  /** A fresh copy of m * 2^absS. */
  method ShiftedCopy(m: Mpn, absS: nat) returns (z: Mpn)
    requires m.Valid()
    ensures fresh(z.buf) && z.Valid()
    ensures z.Value() == m.Value() * TwoTo(absS)
  {
    hide Val, Pow, TwoTo;
    var sLimbs, sBits := absS / 32, absS % 32;
    var num := new Limb[m.nlimbs + sLimbs + 1];
    ZeroLimbs(num, 0, sLimbs);
    var len := CopyShifted(m, num, sLimbs, sBits);
    z := Mpn(num, 0, sLimbs + len);
    assert z.Limbs() == num[..sLimbs] + num[sLimbs..sLimbs + len];
    ShiftedTotal(num[..sLimbs], num[sLimbs..sLimbs + len], m.Value(), absS);
  }

  // ----------------------------------------------------------------- driver

  lemma SameSigns(m: nat, s: int, n: int)
    ensures s >= 0 && n >= 0 ==>
      TwoFiveNumerator(m, s, n) == m * (FiveTo(n) * TwoTo(s)) && TwoFiveDenominator(s, n) == 1
    ensures s <= 0 && n < 0 ==>
      TwoFiveNumerator(m, s, n) == m && TwoFiveDenominator(s, n) == FiveTo(-n) * TwoTo(-s)
  {
    hide TwoTo, FiveTo;
    ZeroPowers();
    if s >= 0 && n >= 0 {
      MulAssoc(m, FiveTo(n), TwoTo(s));
    }
  }

  lemma OppositeSigns(m: nat, s: int, n: int)
    ensures s < 0 <= n ==>
      TwoFiveNumerator(m, s, n) == m * FiveTo(n) && TwoFiveDenominator(s, n) == TwoTo(-s)
    ensures n < 0 < s ==>
      TwoFiveNumerator(m, s, n) == m * TwoTo(s) && TwoFiveDenominator(s, n) == FiveTo(-n)
  {
    hide TwoTo, FiveTo;
    ZeroPowers();
  }

  /** z = round (2^s * 5^n * m), in the four sign cases of s and n. */
  method ScaleTwoFive(m: Mpn, s: int, n: int) returns (z: Mpn)
    requires m.Valid()
    ensures fresh(z.buf) && z.Valid()
    ensures z.Value() == RoundHalfEven(TwoFiveNumerator(m.Value(), s, n), TwoFiveDenominator(s, n))
  {
    hide Val, Pow, TwoTo, FiveTo, RoundHalfEven, TwoFiveNumerator, TwoFiveDenominator;
    var absN := if n >= 0 then n else -n;
    var absS := if s >= 0 then s else -s;
    SameSigns(m.Value(), s, n);
    OppositeSigns(m.Value(), s, n);
    var fiveLimbs := Estimate(absN, 2322, 32000);
    FiveFits(absN, fiveLimbs);
    var pow5Ptr := new Limb[fiveLimbs + absS / 32 + 1];
    var pow5Len := PowerOfFive(absN, pow5Ptr, fiveLimbs);
    if (if n >= 0 then s >= 0 else s <= 0) {
      pow5Len := ShiftPower(pow5Ptr, pow5Len, absS);
      var pow5 := Mpn(pow5Ptr, 0, pow5Len);
      assert pow5.Limbs() == pow5Ptr[..pow5Len];
      if n >= 0 {
        z := Multiply(m, pow5);
        RoundExact(z.Value());
      } else {
        z := Divide(m, pow5);
      }
    } else {
      var pow5 := Mpn(pow5Ptr, 0, pow5Len);
      assert pow5.Limbs() == pow5Ptr[..pow5Len];
      if n >= 0 {
        var numerator := Multiply(m, pow5);
        var denominator := PowerOfTwo(pow5Ptr, pow5Len, absS);
        z := Divide(numerator, denominator);
      } else {
        var numerator := ShiftedCopy(m, absS);
        z := Divide(numerator, pow5);
      }
    }
  }

  /** The numeral of m * 2^e * 10^n rounded to the nearest integer, ties to even. */
  method ScaleRoundDecimal(e: int, m: Mpn, n: int) returns (digits: array<char>, len: nat)
    requires m.Valid()
    ensures fresh(digits) && len <= digits.Length && IsNumeral(digits[..len])
    ensures DecValue(digits[..len]) == RoundHalfEven(Numerator(m.Value(), e, n), Denominator(e, n))
  {
    hide Val, Pow, TwoTo, FiveTo, TenTo, RoundHalfEven, Numerator, Denominator, TwoFiveNumerator, TwoFiveDenominator,
      DecValue, IsNumeral;
    var s := e + n;
    var extraZeroes := 0;
    if s > 0 && n > 0 {
      extraZeroes := if s < n then s else n;
    }
    CollectTwos(m.Value(), e, n);
    FactorTens(m.Value(), s, n);
    var z := ScaleTwoFive(m, s - extraZeroes, n - extraZeroes);
    var terminated;
    ghost var groups;
    digits, len, terminated, groups := ConvertToDecimal(z, extraZeroes);
  }
}
