/** One step of multiple-precision division: estimate a quotient limb, subtract
    the multiple of the divisor, correct the estimate (vasnprintf.c, divide). */
module Trial {
  import opened Powers
  import opened Limbs
  import opened Multiplication
  import opened Shift

  // ----------------------------------------------------- leading zero bits

  /** msd0 shifted right by k bits is msd. */
  ghost predicate IsShiftedRight(msd: int, msd0: int, k: nat)
  {
    msd * TwoTo(k) <= msd0 < (msd + 1) * TwoTo(k)
  }

  lemma ShiftFurther(msd: int, msd0: int, k: nat, d: nat)
    requires IsShiftedRight(msd, msd0, k)
    ensures IsShiftedRight(msd / TwoTo(d), msd0, k + d)
  {
    hide TwoTo;
    TwoToSum(k, d);
    var p, c := TwoTo(k), TwoTo(d);
    var q, r := msd / c, msd % c;
    assert msd == q * c + r && 0 <= r < c;
    ShiftFurtherWeight(q, c, r, p);
  }

  lemma ShiftFurtherWeight(q: int, c: int, r: int, p: int)
    requires 0 <= r < c && 1 <= p
    ensures q * (p * c) <= (q * c + r) * p
    ensures (q * c + r + 1) * p <= (q + 1) * (p * c)
  {
    MulMonotone(0, r, p);
    MulMonotone(r + 1, c, p);
    assert (q * c + r) * p == q * (p * c) + r * p;
    assert (q * c + r + 1) * p == q * (p * c) + (r + 1) * p;
    assert (q + 1) * (p * c) == q * (p * c) + c * p;
  }

  lemma SmallPowers()
    ensures TwoTo(0) == 1 && TwoTo(1) == 2 && TwoTo(2) == 4 && TwoTo(4) == 0x10
    ensures TwoTo(8) == 0x100 && TwoTo(16) == 0x1_0000
  {
    TwoToSum(8, 8);
  }

  /** The number of leading zero bits of a nonzero limb, by bisection. */
  method LeadingZeros(msd0: Limb) returns (s: nat)
    requires msd0 > 0
    ensures s < 32
    ensures 0x8000_0000 <= msd0 * TwoTo(s) < BASE
  {
    hide TwoTo, IsShiftedRight;
    SmallPowers();
    var msd: Limb := msd0;
    s := 31;
    ShiftedByZero(msd0);
    if msd >= 0x10000 { ShiftFurther(msd, msd0, 31 - s, 16); msd, s := msd / 0x10000, s - 16; }
    assert 15 <= s && 0 < msd < 0x10000;
    if msd >= 0x100 { ShiftFurther(msd, msd0, 31 - s, 8); msd, s := msd / 0x100, s - 8; }
    assert 7 <= s && 0 < msd < 0x100;
    if msd >= 0x10 { ShiftFurther(msd, msd0, 31 - s, 4); msd, s := msd / 0x10, s - 4; }
    assert 3 <= s && 0 < msd < 0x10;
    if msd >= 0x4 { ShiftFurther(msd, msd0, 31 - s, 2); msd, s := msd / 0x4, s - 2; }
    assert 1 <= s && 0 < msd < 0x4;
    if msd >= 0x2 { ShiftFurther(msd, msd0, 31 - s, 1); msd, s := msd / 0x2, s - 1; }
    OneBitLeft(msd0, s);
  }

  lemma ShiftedByZero(msd0: int)
    ensures IsShiftedRight(msd0, msd0, 0)
  {
  }

  lemma OneBitLeft(msd0: int, s: nat)
    requires s < 32 && IsShiftedRight(1, msd0, 31 - s)
    ensures 0x8000_0000 <= msd0 * TwoTo(s) < BASE
  {
    hide TwoTo;
    TwoToSum(31 - s, s);
    TwoTo31();
    var p, t := TwoTo(31 - s), TwoTo(s);
    MulMonotone(p, msd0, t);
    MulMonotone(msd0 + 1, 2 * p, t);
  }

  // ---------------------------------------------------------- trial digit

  /** The quotient limb estimated from the top three limbs r2, r1, r0 of the
      remainder and the top two limbs b1, b0 of the divisor: the largest limb
      whose product with [b1 b0] does not exceed [r2 r1 r0]. */
  ghost predicate IsTrialDigit(q: int, u: int, v: int)
  {
    && 0 <= q < BASE
    && q * v <= u
    && (q == BASE - 1 || u < (q + 1) * v)
  }

  method EstimateDigit(r2: Limb, r1: Limb, r0: Limb, b1: Limb, b0: Limb) returns (qStar: Limb)
    requires b1 >= 0x8000_0000 && r2 <= b1
    ensures IsTrialDigit(qStar, (r2 * BASE + r1) * BASE + r0, b1 * BASE + b0)
  {
    hide IsTrialDigit;
    var bMsdd: TwoLimb := b1 * BASE + b0;
    var c1: Limb;
    if r2 < b1 {
      var num: TwoLimb := r2 * BASE + r1;
      FirstDigit(r2, r1, b1);
      qStar := num / b1;
      c1 := num % b1;
    } else {
      qStar := BASE - 1;
      c1 := (r1 + b1) % BASE;
      if r2 > b1 || c1 < b1 {
        OverflowDigit(r2, r1, r0, b1, b0);
        return;
      }
    }
    assert r2 * BASE + r1 == qStar * b1 + c1;
    ProductFits(b0, qStar, 0, 0);
    var c2: TwoLimb := c1 * BASE + r0;
    var c3: TwoLimb := b0 * qStar;
    CorrectDigit(r2 * BASE + r1, r0, b1, b0, qStar, c1, c2, c3, bMsdd);
    if c3 > c2 {
      qStar := qStar - 1;
      if c3 - c2 > bMsdd {
        qStar := qStar - 1;
      }
    }
  }

  lemma FirstDigit(r2: Limb, r1: Limb, b1: Limb)
    requires r2 < b1
    ensures var n := r2 * BASE + r1; n / b1 < BASE && n == (n / b1) * b1 + n % b1
  {
    var n := r2 * BASE + r1;
    var q := n / b1;
    assert q * b1 <= n < BASE * b1;
    if q >= BASE {
      MulMonotone(BASE, q, b1);
    }
  }

  /** If the two-by-one quotient overflows by a whole limb, BASE - 1 is right. */
  lemma OverflowDigit(r2: Limb, r1: Limb, r0: Limb, b1: Limb, b0: Limb)
    requires r2 == b1 && r1 + b1 >= BASE
    ensures IsTrialDigit(BASE - 1, (r2 * BASE + r1) * BASE + r0, b1 * BASE + b0)
  {
  }

  /** Comparing c3 with c2 compares q*[b1 b0] with [r2 r1 r0]; because b1 has
      its top bit set, at most two corrections are needed. */
  lemma CorrectDigit(n: int, r0: Limb, b1: Limb, b0: Limb, q: Limb, c1: Limb, c2: int, c3: int, v: int)
    requires b1 >= 0x8000_0000
    requires n == q * b1 + c1 && (c1 < b1 || q == BASE - 1)
    requires c2 == c1 * BASE + r0 && c3 == b0 * q && v == b1 * BASE + b0
    ensures c3 <= c2 ==> IsTrialDigit(q, n * BASE + r0, v)
    ensures c3 > c2 && c3 - c2 <= v ==> q >= 1 && IsTrialDigit(q - 1, n * BASE + r0, v)
    ensures c3 > c2 && c3 - c2 > v ==> q >= 2 && IsTrialDigit(q - 2, n * BASE + r0, v)
  {
    var u, t := n * BASE + r0, q * v;
    assert t == (q * b1) * BASE + c3;
    assert u - t == c2 - c3;
    assert (q + 1) * v == t + v && (q - 1) * v == t - v && (q - 2) * v == t - 2 * v;
    ProductFits(b0, q, 0, 0);
    assert q == 0 ==> c3 == 0;
    assert q == 1 ==> c3 == b0;
  }

  // ------------------------------------------------- subtract and add back

  /** out + q * b == old + borrow at weight |out|: the window minus q times the
      divisor, with the borrow still to be taken from the limb above. */
  ghost predicate IsDifference(out: seq<Limb>, borrow: int, window: seq<Limb>, q: int, b: seq<Limb>)
  {
    Val(out) + q * Val(b) == Val(window) + Pow(|out|) * borrow
  }

  /** out == window + b - carry at weight |out|. */
  ghost predicate IsSum(out: seq<Limb>, carry: int, window: seq<Limb>, b: seq<Limb>)
  {
    Val(out) + Pow(|out|) * carry == Val(window) + Val(b)
  }

  lemma DifferenceStep(out: seq<Limb>, borrow: int, window: seq<Limb>, q: int, b: seq<Limb>,
                       x: Limb, y: Limb, d: Limb, hi: int)
    requires IsDifference(out, borrow, window, q, b) && |out| == |window| == |b|
    requires borrow + q * d + (BASE - 1 - x) == hi * BASE + (BASE - 1 - y)
    ensures IsDifference(out + [y], hi, window + [x], q, b + [d])
  {
    hide Val, Pow;
    ValSnoc(out, y);
    ValSnoc(window, x);
    ValSnoc(b, d);
    PowSucc(|out|);
    DifferenceWeight(Val(out), Val(window), Val(b), Pow(|out|), borrow, q, x, y, d, hi);
  }

  lemma DifferenceWeight(o: int, w: int, v: int, p: int, borrow: int, q: int, x: int, y: int, d: int, hi: int)
    requires o + q * v == w + p * borrow
    requires borrow + q * d - x == hi * BASE - y
    ensures (o + p * y) + q * (v + p * d) == (w + p * x) + (BASE * p) * hi
  {
    assert p * (borrow + q * d - x) == p * borrow + q * (p * d) - p * x;
    assert p * (hi * BASE - y) == (BASE * p) * hi - p * y;
  }

  lemma SumStep(out: seq<Limb>, carry: int, window: seq<Limb>, b: seq<Limb>,
                x: Limb, y: Limb, d: Limb, hi: int)
    requires IsSum(out, carry, window, b) && |out| == |window| == |b|
    requires x + d + carry == hi * BASE + y
    ensures IsSum(out + [y], hi, window + [x], b + [d])
  {
    hide Val, Pow;
    ValSnoc(out, y);
    ValSnoc(window, x);
    ValSnoc(b, d);
    PowSucc(|out|);
    var p := Pow(|out|);
    assert p * (x + d + carry) == p * x + p * d + p * carry;
    assert p * (hi * BASE + y) == (BASE * p) * hi + p * y;
  }

  lemma DifferenceEmpty(q: int)
    ensures IsDifference([], 0, [], q, []) && IsSum([], 0, [], [])
  {
  }

  /** r[j..j+n] := r[j..j+n] - qStar * b, computed on complements so that the
      carry stays non-negative. */
  method SubtractMultiple(r: array<Limb>, j: nat, b: seq<Limb>, qStar: Limb) returns (cr: Limb)
    requires j + |b| <= r.Length
    modifies r
    ensures forall k :: 0 <= k < j || j + |b| <= k < r.Length ==> r[k] == old(r[k])
    ensures IsDifference(r[j..j + |b|], cr, old(r[j..j + |b|]), qStar, b)
  {
    hide Val, Pow, IsDifference;
    DifferenceEmpty(qStar);
    ghost var window := r[j..j + |b|];
    var carry: TwoLimb := 0;
    var i := 0;
    assert r[j..j + i] == [] && window[..i] == [] && b[..i] == [];
    while i < |b|
      invariant 0 <= i <= |b|
      invariant carry <= qStar
      invariant forall k :: 0 <= k < j || j + i <= k < r.Length ==> r[k] == old(r[k])
      invariant IsDifference(r[j..j + i], carry, window[..i], qStar, b[..i])
    {
      ghost var done, carry0, x, d := r[j..j + i], carry, r[j + i], b[i];
      assert x == window[i];
      BorrowFits(qStar, d);
      carry := carry + qStar * b[i] + (BASE - 1 - r[j + i]);
      r[j + i] := BASE - 1 - carry % BASE;
      ghost var y := r[j + i];
      carry := carry / BASE;
      assert r[j..j + i + 1] == done + [y];
      assert window[..i + 1] == window[..i] + [x];
      assert b[..i + 1] == b[..i] + [d];
      DifferenceStep(done, carry0, window[..i], qStar, b[..i], x, y, d, carry);
      i := i + 1;
    }
    assert window[..i] == window && b[..i] == b;
    return carry;
  }

  lemma BorrowFits(q: Limb, d: Limb)
    ensures 0 <= q * d <= q * (BASE - 1)
  {
    MulMonotone(d, BASE - 1, q);
    MulMonotone(0, d, q);
  }

  /** r[j..j+n] := r[j..j+n] + b, dropping the carry out. */
  method AddBack(r: array<Limb>, j: nat, b: seq<Limb>) returns (ghost out: int)
    requires j + |b| <= r.Length
    modifies r
    ensures forall k :: 0 <= k < j || j + |b| <= k < r.Length ==> r[k] == old(r[k])
    ensures IsSum(r[j..j + |b|], out, old(r[j..j + |b|]), b)
  {
    hide Val, Pow, IsSum;
    DifferenceEmpty(0);
    ghost var window := r[j..j + |b|];
    var carry := false;
    var i := 0;
    assert r[j..j + i] == [] && window[..i] == [] && b[..i] == [];
    while i < |b|
      invariant 0 <= i <= |b|
      invariant forall k :: 0 <= k < j || j + i <= k < r.Length ==> r[k] == old(r[k])
      invariant IsSum(r[j..j + i], if carry then 1 else 0, window[..i], b[..i])
    {
      var source1, source2 := b[i], r[j + i];
      ghost var done, carry0 := r[j..j + i], carry;
      assert source2 == window[i];
      r[j + i] := (source1 + source2 + if carry then 1 else 0) % BASE;
      ghost var y := r[j + i];
      carry := if carry then source1 >= BASE - 1 - source2 else source1 > BASE - 1 - source2;
      assert r[j..j + i + 1] == done + [y];
      assert window[..i + 1] == window[..i] + [source2];
      assert b[..i + 1] == b[..i] + [source1];
      SumStep(done, if carry0 then 1 else 0, window[..i], b[..i], source2, y, source1,
              if carry then 1 else 0);
      i := i + 1;
    }
    assert window[..i] == window && b[..i] == b;
    out := if carry then 1 else 0;
  }

  // -------------------------------------------------------------- one step

  /** window == q * b + rest with rest < b. */
  ghost predicate IsQuotientLimb(window: seq<Limb>, b: seq<Limb>, q: int, rest: seq<Limb>)
  {
    Val(window) == q * Val(b) + Val(rest) && Val(rest) < Val(b)
  }

  /** The estimate is the true quotient limb or one more. */
  lemma TrialDigitBounds(w: int, b: int, u: int, v: int, g: int, q: int)
    requires IsTrialDigit(q, u, v)
    requires 1 <= g && BASE <= v
    requires g * u <= w < g * (u + 1) && g * v <= b < g * (v + 1)
    requires w < BASE * b
    ensures w < (q + 1) * b
    ensures q * b - b <= w
  {
    if q < BASE - 1 {
      MulMonotone(u + 1, (q + 1) * v, g);
      MulMonotone(g * v, b, q + 1);
      assert g * ((q + 1) * v) == (q + 1) * (g * v);
    }
    MulMonotone(b, g * (v + 1), q);
    assert q * (g * (v + 1)) == g * (q * v) + g * q;
    MulMonotone(q * v, u, g);
    MulMonotone(q, v, g);
  }

  /** The top k limbs carry the value up to one unit of their weight. */
  lemma TopLimbs(s: seq<Limb>, k: nat)
    requires k <= |s|
    ensures Pow(k) * Val(s[k..]) <= Val(s) < Pow(k) * (Val(s[k..]) + 1)
  {
    hide Val, Pow;
    assert s == s[..k] + s[k..];
    ValConcat(s[..k], s[k..]);
    ValBound(s[..k]);
  }

  lemma ThreeLimbs(s: seq<Limb>)
    requires |s| == 3
    ensures Val(s) == (s[2] * BASE + s[1]) * BASE + s[0]
  {
    assert s == [s[0]] + ([s[1]] + [s[2]]);
    TwoLimbs(s[1..]);
  }

  lemma TwoLimbs(s: seq<Limb>)
    requires |s| == 2
    ensures Val(s) == s[1] * BASE + s[0]
  {
    assert s[1..] == [s[1]];
    ValSingle(s[1]);
  }

  /** What the estimate from the top limbs says about the whole window. */
  lemma EstimateBounds(window: seq<Limb>, b: seq<Limb>, q: int)
    requires |b| >= 2 && |window| == |b| + 1 && b[|b| - 1] >= 1
    requires Val(window) < BASE * Val(b)
    requires IsTrialDigit(q, (window[|b|] * BASE + window[|b| - 1]) * BASE + window[|b| - 2],
                          b[|b| - 1] * BASE + b[|b| - 2])
    ensures Val(window) < (q + 1) * Val(b)
    ensures q * Val(b) - Val(b) <= Val(window)
  {
    hide Val, Pow;
    var k := |b| - 2;
    TopLimbs(window, k);
    TopLimbs(b, k);
    ThreeLimbs(window[k..]);
    TwoLimbs(b[k..]);
    TrialDigitBounds(Val(window), Val(b), Val(window[k..]), Val(b[k..]), Pow(k), q);
  }

  /** The limb above the divisor's window is at most the divisor's top limb. */
  lemma TopLimbBound(window: seq<Limb>, b: seq<Limb>)
    requires |b| >= 1 && |window| == |b| + 1
    requires Val(window) < BASE * Val(b)
    ensures window[|b|] <= b[|b| - 1]
  {
    hide Val, Pow;
    var n := |b|;
    TopLimbs(window, n);
    TopLimbs(b, n - 1);
    assert window[n..] == [window[n]] && b[n - 1..] == [b[n - 1]];
    ValSingle(window[n]);
    ValSingle(b[n - 1]);
    PowSucc(n - 1);
    var x: int, y: int, p := window[n], b[n - 1], Pow(n - 1);
    assert (BASE * p) * x < BASE * (p * (y + 1));
    if x >= y + 1 {
      MulMonotone(y + 1, x, p);
    }
  }

  /** The subtraction did not borrow exactly when the estimate was right. */
  lemma NoBorrow(window: seq<Limb>, b: seq<Limb>, q: int, out: seq<Limb>, cr: Limb)
    requires |window| == |b| + 1 && |out| == |b|
    requires Val(window) < (q + 1) * Val(b)
    requires IsDifference(out, cr, window[..|b|], q, b)
    requires cr <= window[|b|]
    ensures IsQuotientLimb(window, b, q, out)
  {
    hide Val, Pow;
    var n := |b|;
    assert window == window[..n] + [window[n]];
    ValSnoc(window[..n], window[n]);
    ValBound(b);
    var p, top := Pow(n), window[n];
    assert Val(window) - q * Val(b) == Val(out) + p * (top - cr);
    assert (q + 1) * Val(b) == q * Val(b) + Val(b);
    if cr < top {
      MulMonotone(1, top - cr, p);
    }
  }

  /** After a borrow, one addition of the divisor gives the true limb. */
  lemma AfterBorrow(window: seq<Limb>, b: seq<Limb>, q: int, mid: seq<Limb>, cr: Limb,
                    out: seq<Limb>, carry: int)
    requires |window| == |b| + 1 && |out| == |mid| == |b|
    requires q * Val(b) - Val(b) <= Val(window)
    requires IsDifference(mid, cr, window[..|b|], q, b)
    requires cr > window[|b|]
    requires IsSum(out, carry, mid, b)
    ensures q >= 1 && IsQuotientLimb(window, b, q - 1, out)
  {
    hide Val, Pow;
    var n := |b|;
    assert window == window[..n] + [window[n]];
    ValSnoc(window[..n], window[n]);
    ValBound(b);
    ValBound(mid);
    ValBound(out);
    BorrowArithmetic(Val(window), Val(b), q, Val(window[..n]), Pow(n), window[n], cr, Val(mid), Val(out), carry);
  }

  lemma BorrowArithmetic(w: int, b: int, q: int, low: int, p: int, top: int, cr: int, mid: int, out: int, carry: int)
    requires w == low + p * top && mid + q * b == low + p * cr && out + p * carry == mid + b
    requires cr > top && 0 <= mid < p && 0 <= out < p && 0 <= b <= p && 0 <= w
    requires q * b - b <= w
    ensures q >= 1 && w == (q - 1) * b + out && out < b
  {
    MulMonotone(1, cr - top, p);
    var t := q * b;
    assert w - t == mid - p * (cr - top);
    if q <= 0 {
      MulMonotone(q, 0, b);
    }
    assert (q - 1) * b == t - b;
    var d := carry - (cr - top);
    assert p * d == p * carry - p * (cr - top);
    if d >= 1 {
      MulMonotone(1, d, p);
    } else if d <= -1 {
      MulMonotone(d, -1, p);
    }
  }

  lemma ZeroEstimate(window: seq<Limb>, b: seq<Limb>)
    requires |window| == |b| + 1
    requires Val(window) < Val(b)
    ensures window[|b|] == 0 && IsQuotientLimb(window, b, 0, window[..|b|])
  {
    hide Val, Pow;
    var n := |b|;
    assert window == window[..n] + [window[n]];
    ValSnoc(window[..n], window[n]);
    ValBound(b);
    if window[n] >= 1 {
      MulMonotone(1, window[n], Pow(n));
    }
  }

  /** One pass of the division loop: the window r[j..j+n] is replaced by its
      remainder modulo b, and its top limb r[j+n] by the quotient limb. */
  method DivideStep(r: array<Limb>, j: nat, b: seq<Limb>)
    requires |b| >= 2 && b[|b| - 1] >= 0x8000_0000
    requires j + |b| < r.Length
    requires Val(r[j..j + |b| + 1]) < BASE * Val(b)
    modifies r
    ensures forall k :: 0 <= k < j || j + |b| < k < r.Length ==> r[k] == old(r[k])
    ensures IsQuotientLimb(old(r[j..j + |b| + 1]), b, r[j + |b|], r[j..j + |b|])
  {
    hide Val, Pow, IsTrialDigit, IsDifference, IsSum, IsQuotientLimb;
    var n := |b|;
    ghost var window := r[j..j + n + 1];
    TopLimbBound(window, b);
    var qStar := EstimateDigit(r[j + n], r[j + n - 1], r[j + n - 2], b[n - 1], b[n - 2]);
    EstimateBounds(window, b, qStar);
    if qStar > 0 {
      assert r[j..j + n] == window[..n];
      var cr := SubtractMultiple(r, j, b, qStar);
      assert r[j + n] == window[n];
      ghost var mid := r[j..j + n];
      if cr > r[j + n] {
        ghost var out := AddBack(r, j, b);
        AfterBorrow(window, b, qStar, mid, cr, r[j..j + n], out);
        qStar := qStar - 1;
      } else {
        NoBorrow(window, b, qStar, mid, cr);
      }
    } else {
      ZeroEstimate(window, b);
      assert r[j..j + n] == window[..n];
    }
    ghost var rest := r[j..j + n];
    r[j + n] := qStar;
    assert r[j..j + n] == rest;
  }
}
