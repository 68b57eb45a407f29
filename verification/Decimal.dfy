/** Decimal digits of a bignum (convert_to_decimal in vasnprintf.c): low-to-high,
    nine digits per in-place division by 10^9, in a buffer of estimated size. */
module Decimal {
  import opened DecimalDigits
  import opened Estimates
  import opened Powers
  import opened Limbs
  import opened Shift
  import opened Multiplication
  import opened Division

  /** 10 to the power k. */
  function TenTo(k: nat): (r: nat)
    ensures r >= 1
  {
    Power(10, k)
  }

  /** The number a low-to-high digit string denotes. */
  ghost function DecValue(d: string): nat
    requires AllDigits(d)
  {
    if d == "" then 0 else DigitValue(d[0]) + 10 * DecValue(d[1..])
  }

  /** A decimal numeral: digits only, at least one, and no leading zero (at the
      high end) unless it is the numeral of zero. */
  ghost predicate IsNumeral(d: string)
  {
    AllDigits(d) && d != "" && (d[|d| - 1] != '0' || |d| == 1)
  }

  lemma TenToSum(i: nat, j: nat)
    ensures TenTo(i + j) == TenTo(i) * TenTo(j)
  {
    hide Power;
    PowerSum(10, i, j);
  }

  lemma {:induction false} DecConcat(d: string, e: string)
    requires AllDigits(d) && AllDigits(e)
    ensures AllDigits(d + e) && DecValue(d + e) == DecValue(d) + TenTo(|d|) * DecValue(e)
  {
    if d == "" {
      assert d + e == e;
    } else {
      assert (d + e)[1..] == d[1..] + e;
      DecConcat(d[1..], e);
      MulAssoc(10, TenTo(|d| - 1), DecValue(e));
    }
  }

  lemma DecSnoc(d: string, c: char)
    requires AllDigits(d) && IsDigit(c)
    ensures AllDigits(d + [c]) && DecValue(d + [c]) == DecValue(d) + TenTo(|d|) * DigitValue(c)
  {
    assert DecValue([c]) == DigitValue(c) by {
      assert [c][1..] == "";
    }
    DecConcat(d, [c]);
  }

  lemma {:induction false} NumeralPositive(d: string)
    requires AllDigits(d) && d != "" && d[|d| - 1] != '0'
    ensures DecValue(d) > 0
  {
    if |d| > 1 {
      NumeralPositive(d[1..]);
    }
  }

  /** Every number has exactly one numeral. */
  lemma {:induction false} NumeralUnique(d: string, e: string)
    requires IsNumeral(d) && IsNumeral(e) && DecValue(d) == DecValue(e)
    ensures d == e
  {
    assert d == [d[0]] + d[1..] && e == [e[0]] + e[1..];
    assert d[0] == e[0];
    assert DecValue(d[1..]) == DecValue(e[1..]);
    if |d| > 1 && |e| > 1 {
      NumeralUnique(d[1..], e[1..]);
    } else {
      if |d| > 1 { NumeralPositive(d[1..]); }
      if |e| > 1 { NumeralPositive(e[1..]); }
    }
  }

  /** The digits written so far and the number still to convert denote total. */
  ghost predicate Converting(d: string, rest: int, total: int)
  {
    AllDigits(d) && DecValue(d) + TenTo(|d|) * rest == total
  }

  lemma OneMoreDigit(d: string, rest: int, total: int, c: char)
    requires Converting(d, rest, total)
    requires IsDigit(c) && DigitValue(c) == rest % 10
    ensures Converting(d + [c], rest / 10, total)
  {
    hide DecValue, TenTo;
    DecSnoc(d, c);
    var p, x: int := TenTo(|d|), rest / 10;
    assert TenTo(|d| + 1) == 10 * p by { TenToSum(1, |d|); TenToOne(); }
    assert p * (10 * x + rest % 10) == 10 * p * x + p * (rest % 10);
  }

  lemma TenToOne()
    ensures TenTo(0) == 1 && TenTo(1) == 10
  {
  }

  lemma TenTo9()
    ensures TenTo(9) == 1_000_000_000
  {
    assert TenTo(3) == 1000;
    TenToSum(3, 3);
    TenToSum(6, 3);
  }

  /** Append the nine digits of remainder, low to high. */
  method AppendNine(c: array<char>, dPtr0: nat, remainder0: nat, ghost rest: int, ghost total: int)
    requires remainder0 < 1_000_000_000 && dPtr0 + 9 <= c.Length
    requires Converting(c[..dPtr0], remainder0 + 1_000_000_000 * rest, total)
    modifies c
    ensures Converting(c[..dPtr0 + 9], rest, total)
  {
    hide Converting, TenTo;
    var dPtr := dPtr0;
    var remainder := remainder0;
    var count := 9;
    TenTo9();
    while count > 0
      invariant 0 <= count <= 9 && dPtr == dPtr0 + 9 - count
      invariant 0 <= remainder < TenTo(count)
      invariant Converting(c[..dPtr], remainder + TenTo(count) * rest, total)
    {
      NextDigit(remainder, count, rest);
      var digit := '0' + (remainder % 10) as char;
      ghost var before := c[..dPtr];
      OneMoreDigit(before, remainder + TenTo(count) * rest, total, digit);
      c[dPtr] := digit;
      dPtr := dPtr + 1;
      assert c[..dPtr] == before + [digit];
      remainder := remainder / 10;
      count := count - 1;
    }
    TenToOne();
    assert TenTo(count) * rest == 1 * rest;
    assert remainder + TenTo(count) * rest == rest;
  }

  lemma NextDigit(remainder: nat, count: nat, rest: int)
    requires count > 0 && remainder < TenTo(count)
    ensures var x := remainder + TenTo(count) * rest;
      x % 10 == remainder % 10 && x / 10 == remainder / 10 + TenTo(count - 1) * rest
    ensures remainder / 10 < TenTo(count - 1)
  {
    hide TenTo;
    TenToSum(1, count - 1);
    TenToOne();
    var p := TenTo(count - 1);
    assert remainder + TenTo(count) * rest == remainder + 10 * (p * rest);
    assert (remainder + 10 * (p * rest)) / 10 == remainder / 10 + p * rest;
  }

  lemma {:induction false} AllZeroDigits(d: string)
    requires forall i :: 0 <= i < |d| ==> d[i] == '0'
    ensures AllDigits(d) && DecValue(d) == 0
  {
    if d != "" {
      AllZeroDigits(d[1..]);
    }
  }

  lemma StartConverting(d: string, rest: nat)
    requires forall i :: 0 <= i < |d| ==> d[i] == '0'
    ensures Converting(d, rest, rest * TenTo(|d|))
  {
    AllZeroDigits(d);
  }

  // ------------------------------------------------------ the size of the buffer

  /** log(2)/log(10) is less than 87/289. */
  lemma TenTo87()
    ensures TwoTo(289) <= TenTo(87)
  {
    hide Power, TwoTo;
    FivePowers();
    TwoTo202();
    PowerOfProduct(2, 5, 87);
    TwoToSum(87, 202);
    TwoToIs(87);
    ProductMonotone(TwoTo(87), Power(2, 87), TwoTo(202), Power(5, 87));
  }

  lemma TwoToIs(k: nat)
    ensures TwoTo(k) == Power(2, k)
  {
  }

  lemma SmallPowers()
    ensures Power(5, 1) == 5 && Power(5, 2) == 25 && Power(5, 3) == 125 && Power(5, 5) == 3125
    ensures TwoTo(1) == 2 && TwoTo(5) == 32 && Power(2, 7) == 128
  {
    assert Power(2, 4) == 16;
  }

  lemma FivePowers()
    ensures Power(5, 87) == 0x405_82f2_d630_5b0b_c2a2_7c0a_c18a_d82d_a161_7c47_b470_070c_48ed
  {
    hide Power;
    SmallPowers();
    PowerSum(5, 5, 5);
    PowerSum(5, 10, 10);
    PowerSum(5, 20, 1);
    PowerSum(5, 21, 21);
    PowerSum(5, 42, 1);
    PowerSum(5, 43, 43);
    PowerSum(5, 86, 1);
  }

  lemma TwoTo202()
    ensures TwoTo(202) == 0x400_0000_0000_0000_0000_0000_0000_0000_0000_0000_0000_0000_0000
  {
    hide TwoTo;
    SmallPowers();
    TwoToSum(5, 5);
    TwoToSum(10, 10);
    TwoToSum(20, 5);
    TwoToSum(25, 25);
    TwoToSum(50, 50);
    TwoToSum(100, 1);
    TwoToSum(101, 101);
  }

  /** A number of n limbs has at most 9 * groups digits. */
  lemma GroupsFit(n: nat, groups: nat)
    requires 32 * 87 * n < 9 * 289 * groups
    ensures Pow(n) <= TenTo(9 * groups)
  {
    hide Power, Pow;
    TwoToLimbs(n);
    if TenTo(9 * groups) < TwoTo(32 * n) {
      BaseMonotone(TenTo(9 * groups), TwoTo(32 * n), 289);
      PowerOfPower(10, 9 * groups, 289);
      PowerOfPower(2, 32 * n, 289);
      PowerOfPower(2, 289, 32 * n);
      PowerOfPower(10, 87, 32 * n);
      TenTo87();
      BaseMonotone(TwoTo(289), TenTo(87), 32 * n);
      assert 32 * n * 289 == 289 * (32 * n);
      ExponentLess(87 * (32 * n), 9 * groups * 289);
    }
  }

  lemma ExponentLess(i: nat, j: nat)
    requires i < j
    ensures Power(10, i) < Power(10, j)
  {
    hide Power;
    PowerStep(10, i + 1);
    ExponentMonotone(10, i + 1, j);
  }

  /** c_len / 9, with a_len * (GMP_LIMB_BITS * 0.03345f) as floats make it. */
  ghost predicate IsGroups(n: nat, groups: nat)
  {
    IsEstimate(n, 10704, 10000, groups)
  }

  /** The digits of every number of n limbs fit. */
  lemma DigitsFit(n: nat, groups: nat)
    requires IsGroups(n, groups)
    ensures groups > 0 && n <= groups && Pow(n) <= TenTo(9 * groups)
  {
    hide Pow, TenTo;
    GroupsFit(n, groups);
  }

  lemma {:induction false} TenBelowPow(k: nat)
    ensures TenTo(9 * k) <= Pow(k)
  {
    hide TenTo, Pow;
    TenToOne();
    PowSucc(0);
    if k > 0 {
      TenBelowPow(k - 1);
      TenToSum(9, 9 * (k - 1));
      TenTo9();
      PowSucc(k - 1);
      ProductMonotone(1_000_000_000, BASE, TenTo(9 * (k - 1)), Pow(k - 1));
    }
  }

  /** Nine digits fewer after a division. */
  lemma GroupDone(v: nat, q: nat, r: nat, left: nat)
    requires left > 0 && v < TenTo(9 * left) && v == q * 1_000_000_000 + r
    ensures q < TenTo(9 * (left - 1))
  {
    hide TenTo;
    TenToSum(9, 9 * (left - 1));
    TenTo9();
  }

  /** Limbs with a nonzero limb on top are no more than the groups left. */
  lemma LimbsLeft(s: seq<Limb>, left: nat)
    requires s != [] && s[|s| - 1] != 0 && Val(s) < TenTo(9 * left)
    ensures |s| <= left
  {
    hide Val, Pow, TenTo;
    ValLowerBound(s);
    TenBelowPow(left);
    if |s| > left {
      PowMonotone(left, |s| - 1);
    }
  }

  lemma {:induction false} DecBound(d: string)
    requires AllDigits(d)
    ensures DecValue(d) < TenTo(|d|)
    ensures d != "" && d[|d| - 1] != '0' ==> DecValue(d) >= TenTo(|d| - 1)
  {
    hide TenTo, DecValue;
    TenToOne();
    if d == "" {
      DecEmpty();
    } else {
      var n := |d| - 1;
      assert d == d[..n] + [d[n]];
      DecBound(d[..n]);
      DecSnoc(d[..n], d[n]);
      TenToSum(1, n);
      DigitTimes(TenTo(n), DigitValue(d[n]));
    }
  }

  lemma DecEmpty()
    ensures DecValue("") == 0
  {
  }

  lemma DigitTimes(p: nat, x: nat)
    requires x <= 9
    ensures p * x <= 9 * p && (x > 0 ==> p * x >= p)
  {
  }

  /** Behind the digits there is room for the terminating NUL if and only if the number
      has fewer digits than the estimate makes room for. */
  lemma RoomBehind(d: string, v: nat, e: nat, room: nat)
    requires IsNumeral(d) && DecValue(d) == v * TenTo(e) && room > 1 && |d| <= room + e
    ensures |d| < room + e <==> v < TenTo(room - 1)
  {
    hide TenTo, DecValue;
    DecBound(d);
    TenToSum(room - 1, e);
    LessTimes(v, TenTo(room - 1), TenTo(e));
    if |d| < room + e {
      TenToMonotone(|d|, room - 1 + e);
    }
  }

  lemma LessTimes(v: nat, t: nat, p: nat)
    requires p > 0
    ensures v * p < t * p <==> v < t
  {
    if v < t {
      MulMonotone(v + 1, t, p);
    } else {
      MulMonotone(t, v, p);
    }
  }

  lemma TenToMonotone(i: nat, j: nat)
    requires i <= j
    ensures TenTo(i) <= TenTo(j)
  {
    hide Power;
    ExponentMonotone(10, i, j);
  }

  // ------------------------------------------------------------------ conversion

  /** The loop that divides a by 10^9 until nothing is left. */
  method AppendDigits(c: array<char>, len0: nat, a: Mpn, ghost groups: nat, ghost total: int) returns (len: nat)
    requires a.Valid() && a.nlimbs <= groups && len0 + 9 * groups == c.Length
    requires a.Value() < TenTo(9 * groups) && Converting(c[..len0], a.Value(), total)
    modifies a.buf, c
    ensures len0 <= len <= c.Length && Converting(c[..len], 0, total)
  {
    hide Val, Pow, TenTo, DecValue, Converting, IsShortQuotient;
    len := len0;
    var aLen := a.nlimbs;
    ghost var left := groups;
    while aLen > 0
      invariant 0 <= aLen <= a.nlimbs && aLen <= left && len0 <= len && len + 9 * left == c.Length
      invariant Val(a.buf[a.off..a.off + aLen]) < TenTo(9 * left)
      invariant Converting(c[..len], Val(a.buf[a.off..a.off + aLen]), total)
      decreases left
    {
      ghost var before := a.buf[a.off..a.off + aLen];
      var remainder := ShortDivide(a.buf, a.off, a.buf, a.off, aLen, 1_000_000_000);
      ghost var after := a.buf[a.off..a.off + aLen];
      ShortQuotientValue(before, after, 1_000_000_000, remainder);
      GroupDone(Val(before), Val(after), remainder, left);
      AppendNine(c, len, remainder, Val(after), total);
      len := len + 9;
      left := left - 1;
      if a.buf[a.off + aLen - 1] == 0 {
        ValDropTopZero(after, aLen - 1);
        assert after[..aLen] == after;
        aLen := aLen - 1;
        assert a.buf[a.off..a.off + aLen] == after[..aLen];
      } else {
        LimbsLeft(after, left);
      }
    }
    ValEmpty();
    assert a.buf[a.off..a.off + aLen] == [];
  }

  /** Remove leading zeroes, but keep at least one zero. */
  method DropZeros(c: array<char>, len0: nat, ghost total: int) returns (len: nat)
    requires 0 < c.Length && len0 <= c.Length && Converting(c[..len0], 0, total)
    modifies c
    ensures len <= c.Length && IsNumeral(c[..len]) && DecValue(c[..len]) == total
  {
    hide DecValue, Converting;
    len := len0;
    Finished(c[..len], total);
    while len > 0 && c[len - 1] == '0'
      invariant 0 <= len <= c.Length
      invariant AllDigits(c[..len]) && DecValue(c[..len]) == total
    {
      DropZero(c[..len]);
      assert c[..len][..len - 1] == c[..len - 1];
      len := len - 1;
    }
    if len == 0 {
      assert c[..0] == "";
      AllZeroDigits("");
      c[0] := '0';
      len := 1;
      assert c[..1] == "0";
      AllZeroDigits("0");
    }
  }

  /** The numeral of a * 10^extraZeroes.  Destroys the contents of a. The digits always
      fit into the memory allocated. The NUL behind them does if and only if a has fewer
      digits than 9 * groups; the C code stores it in any case. */
  method ConvertToDecimal(a: Mpn, extraZeroes0: nat)
    returns (c: array<char>, len: nat, terminated: bool, ghost groups: nat)
    requires a.Valid()
    modifies a.buf
    ensures fresh(c) && IsGroups(a.nlimbs, groups) && groups > 0 && c.Length == 9 * groups + extraZeroes0
    ensures len <= c.Length && IsNumeral(c[..len])
    ensures DecValue(c[..len]) == old(a.Value()) * TenTo(extraZeroes0)
    ensures terminated <==> old(a.Value()) < TenTo(9 * groups - 1)
    ensures terminated ==> len < c.Length && c[len] == '\0'
  {
    hide Val, Pow, TenTo, DecValue, Converting, IsEstimate, IsNumeral;
    ghost var value := a.Value();
    ghost var total := value * TenTo(extraZeroes0);
    var cLen := Estimate(a.nlimbs, 10704, 10000);
    groups := cLen;
    DigitsFit(a.nlimbs, groups);
    ValBound(a.Limbs());
    c := new char[9 * cLen + extraZeroes0];
    len := 0;
    var extraZeroes := extraZeroes0;
    while extraZeroes > 0
      invariant 0 <= extraZeroes <= extraZeroes0
      invariant len == extraZeroes0 - extraZeroes
      invariant forall i :: 0 <= i < len ==> c[i] == '0'
      invariant a.Value() == value
    {
      c[len] := '0';
      len := len + 1;
      extraZeroes := extraZeroes - 1;
    }
    StartConverting(c[..len], value);
    len := AppendDigits(c, len, a, groups, total);
    len := DropZeros(c, len, total);
    RoomBehind(c[..len], value, extraZeroes0, 9 * groups);
    terminated := len < c.Length;
    if terminated {
      ghost var digits := c[..len];
      c[len] := '\0';
      assert c[..len] == digits;
    }
  }

  lemma DropZero(d: string)
    requires AllDigits(d) && d != "" && d[|d| - 1] == '0'
    ensures AllDigits(d[..|d| - 1]) && DecValue(d[..|d| - 1]) == DecValue(d)
  {
    hide DecValue, TenTo;
    var n := |d| - 1;
    assert d == d[..n] + [d[n]];
    DecSnoc(d[..n], d[n]);
  }

  /** The largest number of 14 limbs has 135 digits, for which 135 bytes are allocated:
      the NUL is stored one byte behind them. */
  lemma NoRoomForNul(s: seq<Limb>, groups: nat)
    requires |s| == 14 && forall i :: 0 <= i < 14 ==> s[i] == BASE - 1
    requires IsGroups(14, groups)
    ensures 9 * groups == 135 && Val(s) >= TenTo(134)
  {
    hide Val, Pow, TenTo;
    CarryThrough(s, 14);
    assert s[..14] == s;
    TenTo134();
  }

  lemma TenTo134()
    ensures TenTo(134) < Pow(14)
  {
    hide Power, TwoTo, Pow;
    TwoToLimbs(14);
    PowerOfProduct(2, 5, 134);
    PowerOfPower(5, 3, 44);
    PowerSum(5, 132, 2);
    SmallPowers();
    BaseMonotone(125, 128, 44);
    PowerOfPower(2, 7, 44);
    TwoToIs(308);
    TwoToIs(134);
    TwoToSum(308, 5);
    TwoToSum(134, 313);
    TwoToSum(447, 1);
    ProductMonotone(Power(5, 132), TwoTo(308), 25, 32);
    ProductMonotone(Power(2, 134), TwoTo(134), Power(5, 134), TwoTo(313));
  }

  lemma ShortQuotientValue(src: seq<Limb>, quot: seq<Limb>, d: int, r: int)
    requires IsShortQuotient(src, quot, d, r) && d > 1
    ensures Val(src) == Val(quot) * d + r
    ensures Val(quot) <= Val(src) && (Val(quot) == Val(src) ==> Val(src) == 0)
  {
    hide Val;
    MulMonotone(2, d, Val(quot));
  }

  lemma Finished(d: string, total: int)
    requires Converting(d, 0, total)
    ensures AllDigits(d) && DecValue(d) == total
  {
  }
}
