/**
 Long division with rounding to even (divide in vasnprintf.c): normalise, shift
 so that the divisor's top bit is set, produce one quotient limb per step in the
 limb that the remainder gives up, then round.
 */
module Division {
  import opened Divisibility
  import opened Powers
  import opened Limbs
  import opened Multiplication
  import opened Shift
  import opened Trial

  // ---------------------------------------------------------------- meaning

  /** The integer nearest to a/b; of two equally near ones, the even one. */
  ghost function RoundHalfEven(a: nat, b: nat): (z: nat)
    requires b > 0
  {
    var q, r := a / b, a % b;
    if 2 * r > b || (2 * r == b && q % 2 == 1) then q + 1 else q
  }

  /** Twice the distance between z and a/b is at most 1 (in units of b), and
      exactly 1 only for an even z. */
  ghost predicate IsNearestEven(z: int, a: int, b: int)
    requires b > 0
  {
    && 2 * z * b - b <= 2 * a <= 2 * z * b + b
    && (2 * a == 2 * z * b - b || 2 * a == 2 * z * b + b ==> z % 2 == 0)
  }

  lemma RoundHalfEvenIsNearest(a: nat, b: nat)
    requires b > 0
    ensures IsNearestEven(RoundHalfEven(a, b), a, b)
  {
    var q, r := a / b, a % b;
    assert a == q * b + r;
    NearestFromRemainder(q, r, a, b);
  }

  lemma NearestFromRemainder(q: int, r: int, a: int, b: int)
    requires 0 <= r < b && a == q * b + r
    ensures 2 * r <= b && (2 * r == b ==> q % 2 == 0) ==> IsNearestEven(q, a, b)
    ensures 2 * r >= b && (2 * r == b ==> q % 2 == 1) ==> IsNearestEven(q + 1, a, b)
  {
    var t := q * b;
    assert 2 * q * b == 2 * t && 2 * (q + 1) * b == 2 * t + 2 * b;
  }

  /** There is only one such integer. */
  lemma NearestEvenUnique(z: int, z': int, a: int, b: int)
    requires b > 0
    requires IsNearestEven(z, a, b) && IsNearestEven(z', a, b)
    ensures z == z'
  {
    NearestEvenOrdered(z, z', a, b);
    NearestEvenOrdered(z', z, a, b);
  }

  lemma NearestEvenOrdered(z: int, z': int, a: int, b: int)
    requires b > 0
    requires IsNearestEven(z, a, b) && IsNearestEven(z', a, b)
    ensures z >= z'
  {
    var d := z' - z;
    assert 2 * z' * b == 2 * z * b + 2 * (d * b);
    if d >= 2 {
      MulMonotone(2, d, b);
    }
  }

  /** A common factor does not change the rounded quotient. */
  lemma RoundHalfEvenScaled(a: nat, b: nat, k: nat)
    requires b > 0 && k > 0
    ensures b * k > 0 && RoundHalfEven(a * k, b * k) == RoundHalfEven(a, b)
  {
    var q, r := a / b, a % b;
    assert a == q * b + r;
    assert a * k == q * (b * k) + r * k;
    MulMonotone(r, b - 1, k);
    assert (b - 1) * k == b * k - k;
    ModUnique(b * k, a * k, q, r * k);
    if 2 * r < b {
      MulMonotone(2 * r, b - 1, k);
    } else if 2 * r > b {
      MulMonotone(b + 1, 2 * r, k);
      assert (b + 1) * k == b * k + k;
    }
    assert 2 * (r * k) == (2 * r) * k;
  }

  // ---------------------------------------------- the multi-limb main loop

  /** With j quotient limbs still to come, the limbs of the quotient found so
      far sit in room[j+n..m+1] and the current remainder in room[..j+n]. */
  ghost predicate Divided(room: seq<Limb>, j: nat, n: nat, m: nat, a: int, b: seq<Limb>)
    requires j + n <= m + 1 <= |room|
  {
    && a == Val(room[j + n..m + 1]) * (Pow(j) * Val(b)) + Val(room[..j + n])
    && Val(room[..j + n]) < Pow(j) * Val(b)
  }

  lemma DividedStart(room: seq<Limb>, n: nat, m: nat, b: seq<Limb>)
    requires n <= m && m + 1 <= |room|
    requires Val(room[..m + 1]) < Pow(m + 1 - n) * Val(b)
    ensures Divided(room, m + 1 - n, n, m, Val(room[..m + 1]), b)
  {
    hide Val, Pow;
    ValEmpty();
    assert room[m + 1..m + 1] == [];
  }

  lemma DividedWindow(room: seq<Limb>, j: nat, n: nat, m: nat, a: int, b: seq<Limb>)
    requires 1 <= j && j + n <= m + 1 <= |room|
    requires Divided(room, j, n, m, a, b)
    ensures Val(room[j - 1..j + n]) < BASE * Val(b)
  {
    hide Val, Pow;
    assert room[..j + n] == room[..j - 1] + room[j - 1..j + n];
    ValConcat(room[..j - 1], room[j - 1..j + n]);
    PowSucc(j - 1);
    WindowArithmetic(Val(room[..j - 1]), Pow(j - 1), Val(room[j - 1..j + n]), Val(b));
  }

  lemma WindowArithmetic(low: int, p: int, w: int, v: int)
    requires 0 <= low && 1 <= p
    requires low + p * w < (BASE * p) * v
    ensures w < BASE * v
  {
    if w >= BASE * v {
      MulMonotone(BASE * v, w, p);
    }
  }

  lemma DividedStep(before: seq<Limb>, after: seq<Limb>, j: nat, n: nat, m: nat, a: int, b: seq<Limb>)
    requires 1 <= j && j + n <= m + 1 <= |before| == |after|
    requires Divided(before, j, n, m, a, b)
    requires after[..j - 1] == before[..j - 1] && after[j + n..] == before[j + n..]
    requires IsQuotientLimb(before[j - 1..j + n], b, after[j - 1 + n], after[j - 1..j - 1 + n])
    ensures Divided(after, j - 1, n, m, a, b)
  {
    hide Val, Pow;
    assert before[..j + n] == before[..j - 1] + before[j - 1..j + n];
    ValConcat(before[..j - 1], before[j - 1..j + n]);
    assert after[..j - 1 + n] == before[..j - 1] + after[j - 1..j - 1 + n];
    ValConcat(before[..j - 1], after[j - 1..j - 1 + n]);
    ValBound(before[..j - 1]);
    PowSucc(j - 1);
    assert after[j - 1 + n..m + 1] == [after[j - 1 + n]] + before[j + n..m + 1] by {
      assert after[j + n..m + 1] == after[j + n..][..m + 1 - (j + n)];
      assert before[j + n..m + 1] == before[j + n..][..m + 1 - (j + n)];
    }
    ValCons(after[j - 1 + n], before[j + n..m + 1]);
    DividedArithmetic(a, Val(before[j + n..m + 1]), Pow(j - 1), Val(b), Val(before[..j - 1]),
                      Val(before[j - 1..j + n]), after[j - 1 + n], Val(after[j - 1..j - 1 + n]));
  }

  lemma ValCons(x: Limb, s: seq<Limb>)
    ensures Val([x] + s) == x + BASE * Val(s)
  {
    assert ([x] + s)[1..] == s;
  }

  lemma DividedArithmetic(a: int, q: int, p: int, b: int, low: int, w: int, d: int, r: int)
    requires a == q * ((BASE * p) * b) + (low + p * w)
    requires w == d * b + r && 0 <= r < b && 0 <= low < p
    ensures a == (d + BASE * q) * (p * b) + (low + p * r)
    ensures low + p * r < p * b
  {
    assert p * (d * b + r) == d * (p * b) + p * r;
    assert q * ((BASE * p) * b) == (BASE * q) * (p * b);
    assert (d + BASE * q) * (p * b) == d * (p * b) + (BASE * q) * (p * b);
    MulMonotone(r, b - 1, p);
    assert (b - 1) * p == p * b - p;
  }

  /** n > 1: on entry room[..m+1] holds the shifted dividend; on exit room[..n]
      holds the remainder and room[n..m+1] the quotient. */
  method LongDivide(room: array<Limb>, m: nat, b: seq<Limb>)
    requires 2 <= |b| <= m && m + 1 <= room.Length
    requires b[|b| - 1] >= 0x8000_0000
    requires Val(room[..m + 1]) < Pow(m + 1 - |b|) * Val(b)
    modifies room
    ensures Divided(room[..], 0, |b|, m, old(Val(room[..m + 1])), b)
  {
    hide Val, Pow, Divided, IsQuotientLimb;
    var n := |b|;
    ghost var a := Val(room[..m + 1]);
    assert room[..][..m + 1] == room[..m + 1];
    DividedStart(room[..], n, m, b);
    var j := m - n;
    while true
      invariant 0 <= j <= m - n
      invariant Divided(room[..], j + 1, n, m, a, b)
      decreases j
    {
      ghost var before := room[..];
      DividedWindow(before, j + 1, n, m, a, b);
      assert before[j..j + n + 1] == room[j..j + n + 1];
      DivideStep(room, j, b);
      ghost var after := room[..];
      assert before[..j] == after[..j] && before[j + n + 1..] == after[j + n + 1..];
      assert after[j..j + n] == room[j..j + n];
      DividedStep(before, after, j + 1, n, m, a, b);
      if j == 0 { break; }
      j := j - 1;
    }
  }

  // -------------------------------------------------- single-limb division

  /** value(src) == value(quot) * d + r with r < d, high limbs first. */
  ghost predicate IsShortQuotient(src: seq<Limb>, quot: seq<Limb>, d: int, r: int)
  {
    Val(src) == Val(quot) * d + r && 0 <= r < d
  }

  lemma ShortStep(src: seq<Limb>, quot: seq<Limb>, d: int, r: int, x: Limb, q: Limb, r': int)
    requires IsShortQuotient(src, quot, d, r)
    requires r * BASE + x == q * d + r' && 0 <= r' < d
    ensures IsShortQuotient([x] + src, [q] + quot, d, r')
  {
    hide Val;
    ValCons(x, src);
    ValCons(q, quot);
    assert (q + BASE * Val(quot)) * d == q * d + BASE * (Val(quot) * d);
  }

  lemma ShortQuotientFits(r: int, x: Limb, d: int)
    requires 0 <= r < d <= BASE
    ensures 0 <= (r * BASE + x) / d < BASE
    ensures r * BASE + x == ((r * BASE + x) / d) * d + (r * BASE + x) % d
  {
    var num := r * BASE + x;
    var q := num / d;
    assert num == q * d + num % d;
    if q >= BASE {
      MulMonotone(BASE, q, d);
    }
    if q < 0 {
      MulMonotone(q, -1, d);
    }
  }

  /** dst[dstOff..] := src[srcOff..] / den for len limbs; returns the remainder.
      Works in place when source and destination coincide. */
  method ShortDivide(src: array<Limb>, srcOff: nat, dst: array<Limb>, dstOff: nat, len: nat, den: Limb)
    returns (remainder: Limb)
    requires den > 0
    requires srcOff + len <= src.Length && dstOff + len <= dst.Length
    requires src != dst || srcOff == dstOff
    modifies dst
    ensures forall k :: 0 <= k < dstOff || dstOff + len <= k < dst.Length ==> dst[k] == old(dst[k])
    ensures remainder < den
    ensures IsShortQuotient(old(src[srcOff..srcOff + len]), dst[dstOff..dstOff + len], den, remainder)
  {
    hide Val, IsShortQuotient;
    ghost var whole := src[srcOff..srcOff + len];
    remainder := 0;
    var count := len;
    ShortEmpty(den);
    assert whole[count..] == [] && dst[dstOff + count..dstOff + len] == [];
    while count > 0
      invariant 0 <= count <= len
      invariant remainder < den
      invariant forall k :: 0 <= k < dstOff + count || dstOff + len <= k < dst.Length ==> dst[k] == old(dst[k])
      invariant forall k :: srcOff <= k < srcOff + count ==> src[k] == old(src[k])
      invariant IsShortQuotient(whole[count..], dst[dstOff + count..dstOff + len], den, remainder)
    {
      ghost var done, rem0 := dst[dstOff + count..dstOff + len], remainder;
      count := count - 1;
      var x := src[srcOff + count];
      assert x == whole[count];
      var q;
      q, remainder := ShortDigit(remainder, x, den);
      dst[dstOff + count] := q;
      assert dst[dstOff + count..dstOff + len] == [q] + done;
      assert whole[count..] == [x] + whole[count + 1..];
      ShortStep(whole[count + 1..], done, den, rem0, x, q, remainder);
    }
    assert whole[0..] == whole;
  }

  /** One digit: num / den and num % den in 64 bits. */
  method ShortDigit(remainder: Limb, x: Limb, den: Limb) returns (q: Limb, r: Limb)
    requires remainder < den
    ensures remainder * BASE + x == q * den + r && r < den
  {
    var num: TwoLimb := remainder * BASE + x;
    ShortQuotientFits(remainder, x, den);
    q := num / den;
    r := num % den;
  }

  lemma ShortEmpty(d: int)
    requires d > 0
    ensures IsShortQuotient([], [], d, 0)
  {
  }

  // ---------------------------------------------------------------- rounding

  datatype Order = Less | Equal | Greater

  ghost function Compare(x: int, y: int): Order
  {
    if x < y then Less else if x == y then Equal else Greater
  }

  /** Limb i of 2*r: the shifted limb and the top bit of the limb below. */
  function TwiceLimb(r: seq<Limb>, i: nat): Limb
  {
    (if 0 < i <= |r| then r[i - 1] / 0x8000_0000 else 0) + (if i < |r| then r[i] * 2 % BASE else 0)
  }

  ghost function Twice(r: seq<Limb>, n: nat): seq<Limb>
  {
    seq(n, i requires 0 <= i < n => TwiceLimb(r, i))
  }

  lemma {:induction false} TwicePrefix(r: seq<Limb>, k: nat)
    requires k <= |r|
    ensures Val(Twice(r, k)) + Pow(k) * (if k > 0 then r[k - 1] / 0x8000_0000 else 0) == 2 * Val(r[..k])
  {
    hide Val, Pow;
    if k == 0 {
      ValEmpty();
      PowSucc(0);
      assert Twice(r, 0) == [] && r[..0] == [];
    } else {
      TwicePrefix(r, k - 1);
      TwiceLimbIs(r, k - 1);
      TwiceStep(r, k - 1, if k > 1 then r[k - 2] / 0x8000_0000 else 0, r[k - 1] / 0x8000_0000);
    }
  }

  lemma TwiceLimbIs(r: seq<Limb>, k: nat)
    requires k < |r|
    ensures TwiceLimb(r, k)
         == (if k > 0 then r[k - 1] / 0x8000_0000 else 0) + (2 * r[k] - BASE * (r[k] / 0x8000_0000))
  {
  }

  lemma TwiceStep(r: seq<Limb>, k: nat, c: nat, h: nat)
    requires k < |r| && TwiceLimb(r, k) == c + (2 * r[k] - BASE * h)
    requires Val(Twice(r, k)) + Pow(k) * c == 2 * Val(r[..k])
    ensures Val(Twice(r, k + 1)) + Pow(k + 1) * h == 2 * Val(r[..k + 1])
  {
    hide Val, Pow, TwiceLimb;
    assert Twice(r, k + 1) == Twice(r, k) + [TwiceLimb(r, k)];
    assert r[..k + 1] == r[..k] + [r[k]];
    ValSnoc(Twice(r, k), TwiceLimb(r, k));
    ValSnoc(r[..k], r[k]);
    PowSucc(k);
    TwiceArithmetic(Val(Twice(r, k)), Val(r[..k]), Pow(k), c, r[k], TwiceLimb(r, k), h);
  }

  lemma TwiceArithmetic(tv: int, rv: int, p: int, c: int, x: int, t: int, h: int)
    requires tv + p * c == 2 * rv
    requires t == c + (2 * x - BASE * h)
    ensures (tv + p * t) + (BASE * p) * h == 2 * (rv + p * x)
  {
    assert p * t == p * c + 2 * (p * x) - (BASE * p) * h;
  }

  lemma {:induction false} TwiceValue(r: seq<Limb>, n: nat)
    requires n > |r|
    ensures Val(Twice(r, n)) == 2 * Val(r)
    decreases n
  {
    hide Val, Pow;
    assert Twice(r, n) == Twice(r, n - 1) + [TwiceLimb(r, n - 1)];
    ValSnoc(Twice(r, n - 1), TwiceLimb(r, n - 1));
    if n - 1 == |r| {
      TwicePrefix(r, |r|);
      assert r[..|r|] == r;
    } else {
      TwiceValue(r, n - 1);
      assert TwiceLimb(r, n - 1) == 0;
    }
  }

  /** Equal above limb i and smaller at limb i means smaller. */
  lemma LimbDecides(x: seq<Limb>, y: seq<Limb>, i: nat)
    requires i < |x| == |y| && x[i + 1..] == y[i + 1..] && x[i] < y[i]
    ensures Val(x) < Val(y)
  {
    hide Val, Pow;
    var hx, hy := [x[i]] + x[i + 1..], [y[i]] + y[i + 1..];
    assert x == x[..i] + hx && y == y[..i] + hy;
    ValConcat(x[..i], hx);
    ValConcat(y[..i], hy);
    ValBound(x[..i]);
    assert Val(hx) < Val(hy) by {
      ValCons(x[i], x[i + 1..]);
      ValCons(y[i], y[i + 1..]);
    }
    WeightDecides(Val(x[..i]), Val(y[..i]), Pow(i), Val(hx), Val(hy));
  }

  lemma WeightDecides(lx: int, ly: int, p: int, hx: int, hy: int)
    requires 0 <= lx < p && 0 <= ly && hx < hy
    ensures lx + p * hx < ly + p * hy
  {
    MulMonotone(hx + 1, hy, p);
    assert (hx + 1) * p == hx * p + p;
  }

  /** Compare r << 1 with b, limb by limb from the top. */
  method CompareTwice(room: array<Limb>, rLen: nat, b: seq<Limb>) returns (c: Order)
    requires rLen <= |b| && rLen <= room.Length
    ensures c == Compare(2 * Val(room[..rLen]), Val(b))
  {
    hide Val;
    ghost var r := room[..rLen];
    ghost var x, y := Twice(r, |b| + 1), b + [0];
    TwiceValue(r, |b| + 1);
    ValAppendZero(b);
    var i := |b|;
    while true
      invariant 0 <= i <= |b|
      invariant x[i + 1..] == y[i + 1..]
      decreases i
    {
      var ri := (if i <= rLen && i > 0 then room[i - 1] / 0x8000_0000 else 0)
              + (if i < rLen then room[i] * 2 % BASE else 0);
      var bi := if i < |b| then b[i] else 0;
      assert ri == x[i] && bi == y[i];
      if ri > bi {
        LimbDecides(y, x, i);
        return Greater;
      }
      if ri < bi {
        LimbDecides(x, y, i);
        return Less;
      }
      assert x[i..] == [x[i]] + x[i + 1..] && y[i..] == [y[i]] + y[i + 1..];
      if i == 0 {
        assert x[0..] == x && y[0..] == y;
        return Equal;
      }
      i := i - 1;
    }
  }

  lemma ValAppendZero(s: seq<Limb>)
    ensures Val(s + [0]) == Val(s)
  {
    hide Val, Pow;
    ValSnoc(s, 0);
  }

  lemma CarryThrough(q: seq<Limb>, i: nat)
    requires i <= |q| && forall k :: 0 <= k < i ==> q[k] == BASE - 1
    ensures Val(q[..i]) + 1 == Pow(i)
  {
    if i > 0 {
      CarryThrough(q[1..], i - 1);
      assert q[..i][1..] == q[1..][..i - 1];
    }
  }

  lemma ValAround(low: seq<Limb>, x: Limb, high: seq<Limb>)
    ensures Val(low + ([x] + high)) == Val(low) + Pow(|low|) * (x + BASE * Val(high))
  {
    hide Val, Pow;
    ValConcat(low, [x] + high);
    ValCons(x, high);
  }

  /** The number after the carry has passed i limbs and increments limb i. */
  lemma Incremented(q: seq<Limb>, q': seq<Limb>, i: nat)
    requires i < |q| == |q'| && q[i] < BASE - 1 && q'[i] == q[i] + 1
    requires forall k :: i < k < |q| ==> q'[k] == q[k]
    requires forall k :: 0 <= k < i ==> q[k] == BASE - 1 && q'[k] == 0
    ensures Val(q') == Val(q) + 1
  {
    hide Val, Pow;
    var low, low', high := q[..i], q'[..i], q[i + 1..];
    SplitAt(q, i);
    SplitAt(q', i);
    assert q'[i + 1..] == high;
    CarryStops(low, low', q[i], high);
  }

  lemma SplitAt(q: seq<Limb>, i: nat)
    requires i < |q|
    ensures q == q[..i] + ([q[i]] + q[i + 1..])
  {
  }

  lemma CarryStops(low: seq<Limb>, low': seq<Limb>, x: Limb, high: seq<Limb>)
    requires x < BASE - 1 && |low| == |low'|
    requires forall k :: 0 <= k < |low| ==> low[k] == BASE - 1 && low'[k] == 0
    ensures Val(low' + ([x + 1] + high)) == Val(low + ([x] + high)) + 1
  {
    hide Val, Pow;
    ValAround(low, x, high);
    ValAround(low', x + 1, high);
    ValZeros(low');
    assert low[..|low|] == low;
    CarryThrough(low, |low|);
    CarryArithmetic(Pow(|low|), Val(low), x, BASE * Val(high));
  }

  lemma CarryArithmetic(p: int, low: int, x: int, high: int)
    requires low + 1 == p
    ensures p * ((x + 1) + high) == low + p * (x + high) + 1
  {
    assert p * ((x + high) + 1) == p * (x + high) + p;
  }

  /** q := q + 1, growing by one limb when every limb overflows. */
  method Increment(room: array<Limb>, off: nat, len: nat) returns (len': nat)
    requires off + len < room.Length
    requires Normalised(room[off..off + len])
    modifies room
    ensures len <= len' && off + len' <= room.Length
    ensures Normalised(room[off..off + len'])
    ensures Val(room[off..off + len']) == old(Val(room[off..off + len])) + 1
  {
    hide Val, Pow;
    ghost var q := room[off..off + len];
    var i := 0;
    while i < len
      invariant 0 <= i <= len
      invariant forall k :: 0 <= k < i ==> q[k] == BASE - 1
      invariant forall k :: off <= k < off + i ==> room[k] == 0
      invariant forall k :: off + i <= k < off + len ==> room[k] == old(room[k])
    {
      room[off + i] := (room[off + i] + 1) % BASE;
      if room[off + i] != 0 {
        ghost var q' := room[off..off + len];
        assert q[i] < BASE - 1 && q'[i] == q[i] + 1;
        forall k | 0 <= k < len ensures q'[k] == room[off + k] && q[k] == old(room[off + k]) {
        }
        Incremented(q, q', i);
        return len;
      }
      i := i + 1;
    }
    room[off + len] := 1;
    ghost var zeros := room[off..off + len];
    assert room[off..off + len + 1] == zeros + [1];
    forall k | 0 <= k < len ensures zeros[k] == 0 {
      assert zeros[k] == room[off + k];
    }
    CarryOut(q, zeros);
    return len + 1;
  }

  /** The carry has passed all limbs. */
  lemma CarryOut(q: seq<Limb>, zeros: seq<Limb>)
    requires |q| == |zeros| && forall k :: 0 <= k < |q| ==> q[k] == BASE - 1 && zeros[k] == 0
    ensures Val(zeros + [1]) == Val(q) + 1
  {
    hide Val, Pow;
    assert q[..|q|] == q;
    CarryThrough(q, |q|);
    ValZeros(zeros);
    ValSnoc(zeros, 1);
  }

  // ------------------------------------------------------------------ divide

  /** After division: room[..rLen] is the remainder and room[off..off+len] the
      quotient of k*a by k*b = value(bs), with a spare limb above the quotient. */
  ghost predicate IsDivided(room: seq<Limb>, rLen: nat, off: nat, len: nat, bs: seq<Limb>,
                            a: nat, b: nat, k: nat)
    requires rLen <= |room| && off + len <= |room|
  {
    && k > 0 && Val(bs) == b * k
    && a * k == Val(room[off..off + len]) * Val(bs) + Val(room[..rLen])
    && Val(room[..rLen]) < Val(bs)
    && Normalised(room[off..off + len])
  }

  lemma DividedTrivially(room: seq<Limb>, rLen: nat, bs: seq<Limb>, a: nat, b: nat)
    requires rLen <= |room| && Val(room[..rLen]) == a && Val(bs) == b && a < b
    ensures IsDivided(room, rLen, rLen, 0, bs, a, b, 1)
  {
    assert room[rLen..rLen + 0] == [];
  }

  /** A shorter number is smaller than a normalised longer one. */
  lemma ShorterIsSmaller(x: seq<Limb>, y: seq<Limb>)
    requires Normalised(y) && |x| < |y|
    ensures Val(x) < Val(y)
  {
    hide Val, Pow;
    ValBound(x);
    ValLowerBound(y);
    PowMonotone(|x|, |y| - 1);
  }

  /** Shifting a normalised divisor by its leading zero count loses no bits and
      sets the top bit. */
  lemma ShiftedDivisor(b: seq<Limb>, s: nat, out: seq<Limb>, accu: Limb)
    requires b != [] && s < 32
    requires 0x8000_0000 <= b[|b| - 1] * TwoTo(s) < BASE
    requires |out| == |b| && IsShifted(out, accu, b, TwoTo(s))
    ensures accu == 0 && Val(out) == Val(b) * TwoTo(s)
    ensures out[|b| - 1] >= 0x8000_0000
  {
    hide Val, Pow, TwoTo;
    var n, p := |b|, TwoTo(s);
    var top: int, w := b[n - 1], Pow(n - 1);
    TopLimbs(b, n - 1);
    assert b[n - 1..] == [b[n - 1]];
    ValSingle(b[n - 1]);
    TopLimbs(out, n - 1);
    assert out[n - 1..] == [out[n - 1]];
    ValSingle(out[n - 1]);
    PowSucc(n - 1);
    TwoToSum(32 - s, s);
    TwoTo31();
    var c := TwoTo(32 - s);
    assert top < c by {
      if top >= c {
        MulMonotone(c, top, p);
      }
    }
    MulMonotone(top + 1, c, p);
    assert (top + 1) * p <= BASE;
    ShiftedDivisorArithmetic(Val(b), Val(out), accu, p, top, w, out[n - 1]);
  }

  lemma ShiftedDivisorArithmetic(v: int, o: int, accu: int, p: int, top: int, w: int, t: int)
    requires w >= 1 && p >= 1 && accu >= 0 && o >= 0
    requires o + (BASE * w) * accu == p * v
    requires w * top <= v < w * (top + 1) && w * t <= o < w * (t + 1)
    requires (top + 1) * p <= BASE && 0x8000_0000 <= top * p
    ensures accu == 0 && t >= 0x8000_0000 && o == v * p
  {
    MulMonotone(v, w * (top + 1) - 1, p);
    assert (w * (top + 1) - 1) * p == w * ((top + 1) * p) - p;
    MulMonotone((top + 1) * p, BASE, w);
    if accu >= 1 {
      MulMonotone(1, accu, BASE * w);
    }
    MulMonotone(w * top, v, p);
    assert (w * top) * p == w * (top * p);
    MulMonotone(0x8000_0000, top * p, w);
    if t + 1 <= 0x8000_0000 {
      MulMonotone(t + 1, 0x8000_0000, w);
    }
  }

  /** The shifted dividend is below the shifted divisor times BASE^(m+1-n). */
  lemma ShiftedDividend(a: seq<Limb>, b: seq<Limb>, p: nat)
    requires b != [] && b[|b| - 1] != 0 && |b| <= |a| && p >= 1
    ensures Val(a) * p < Pow(|a| + 1 - |b|) * (Val(b) * p)
  {
    hide Val, Pow;
    var d := |a| + 1 - |b|;
    ValBound(a);
    ValLowerBound(b);
    PowSum(d, |b| - 1);
    MulMonotone(Pow(|b| - 1), Val(b), Pow(d));
    MulMonotone(Val(a) + 1, Pow(d) * Val(b), p);
    assert Pow(d) * (Val(b) * p) == (Pow(d) * Val(b)) * p;
    assert (Val(a) + 1) * p == Val(a) * p + p;
  }

  lemma RoundedUp(room: seq<Limb>, rLen: nat, off: nat, len: nat, bs: seq<Limb>, a: nat, b: nat, k: nat)
    requires rLen <= |room| && off + len <= |room| && b > 0
    requires IsDivided(room, rLen, off, len, bs, a, b, k)
    ensures var q := Val(room[off..off + len]);
            RoundHalfEven(a, b) ==
            (match Compare(2 * Val(room[..rLen]), Val(bs))
             case Greater => q + 1
             case Less => q
             case Equal => if q % 2 == 1 then q + 1 else q)
  {
    hide Val;
    var q, r := Val(room[off..off + len]), Val(room[..rLen]);
    RoundHalfEvenScaled(a, b, k);
    ModUnique(b * k, a * k, q, r);
  }

  lemma Parity(q: seq<Limb>)
    ensures (q != [] && q[0] % 2 == 1) <==> Val(q) % 2 == 1
  {
  }

  method CopyLimbs(src: array<Limb>, srcOff: nat, dst: array<Limb>, len: nat)
    requires src != dst && srcOff + len <= src.Length && len <= dst.Length
    modifies dst
    ensures dst[..len] == src[srcOff..srcOff + len]
    ensures forall k :: len <= k < dst.Length ==> dst[k] == old(dst[k])
  {
    for i := 0 to len
      invariant dst[..i] == src[srcOff..srcOff + i]
      invariant forall k :: i <= k < dst.Length ==> dst[k] == old(dst[k])
    {
      dst[i] := src[srcOff + i];
      assert dst[..i + 1] == dst[..i] + [dst[i]];
    }
  }

  /** Case m >= n = 1. */
  method DivideShort(a: array<Limb>, aOff: nat, aLen: nat, den: Limb, room: array<Limb>)
    returns (rLen: nat, qLen: nat)
    requires a != room && aOff + aLen <= a.Length && aLen >= 1 && aLen + 2 <= room.Length
    requires den > 0 && Normalised(a[aOff..aOff + aLen])
    modifies room
    ensures rLen <= 1 && qLen <= aLen
    ensures IsDivided(room[..], rLen, 1, qLen, [den], Val(a[aOff..aOff + aLen]), den, 1)
  {
    hide Val, Pow;
    ghost var whole := a[aOff..aOff + aLen];
    var remainder := ShortDivide(a, aOff, room, 1, aLen, den);
    ghost var quot := room[1..1 + aLen];
    if remainder > 0 {
      room[0] := remainder;
      rLen := 1;
    } else {
      rLen := 0;
    }
    qLen := aLen;
    if room[1 + qLen - 1] == 0 {
      qLen := qLen - 1;
    }
    assert room[..][1..1 + aLen] == quot;
    ValSingle(den);
    ValEmpty();
    if remainder > 0 {
      assert room[..][..rLen] == [remainder];
      ValSingle(remainder);
    } else {
      assert room[..][..rLen] == [];
    }
    ShortQuotientNormalised(whole, quot, den, remainder);
    if qLen < aLen {
      ValDropTopZero(quot, aLen - 1);
      assert room[..][1..1 + qLen] == quot[..aLen - 1] && quot[..aLen] == quot;
    }
  }

  /** At most the top limb of the quotient by a single limb is zero. */
  lemma ShortQuotientNormalised(src: seq<Limb>, quot: seq<Limb>, d: int, r: int)
    requires 0 < d < BASE && |src| == |quot| > 0 && Normalised(src)
    requires IsShortQuotient(src, quot, d, r)
    ensures quot[|quot| - 1] == 0 ==> Normalised(quot[..|quot| - 1])
  {
    hide Val, Pow;
    var n := |quot|;
    if quot[n - 1] == 0 && n >= 2 && quot[n - 2] == 0 {
      ValDropTopZero(quot, n - 1);
      ValDropTopZero(quot, n - 2);
      assert quot[..n] == quot;
      ValBound(quot[..n - 2]);
      ValLowerBound(src);
      PowSucc(n - 2);
      SmallQuotient(Val(quot), Pow(n - 2), d, r);
    }
  }

  lemma SmallQuotient(q: int, p: int, d: int, r: int)
    requires 0 <= q < p && 0 <= r < d < BASE
    ensures q * d + r < BASE * p
  {
    MulMonotone(q, p - 1, d);
    assert (p - 1) * d == p * d - d;
    MulMonotone(d, BASE - 1, p);
  }

  /** Normalise for case m >= n > 1: shift both operands left until the top bit
      of the divisor is set, the dividend into room. */
  method ShiftOperands(a: array<Limb>, aOff: nat, aLen: nat, b: array<Limb>, bOff: nat, bLen: nat, room: array<Limb>)
    returns (bs: seq<Limb>, ghost k: nat)
    requires a != room && b != room
    requires aOff + aLen <= a.Length && bOff + bLen <= b.Length
    requires 1 <= bLen && aLen + 1 <= room.Length
    requires Normalised(b[bOff..bOff + bLen])
    modifies room
    ensures k >= 1 && |bs| == bLen && bs[bLen - 1] >= 0x8000_0000
    ensures Val(bs) == Val(b[bOff..bOff + bLen]) * k
    ensures Val(room[..aLen + 1]) == Val(a[aOff..aOff + aLen]) * k
  {
    hide Val, Pow, TwoTo, IsShifted;
    ghost var av, bv := a[aOff..aOff + aLen], b[bOff..bOff + bLen];
    var s := LeadingZeros(b[bOff + bLen - 1]);
    k := TwoTo(s);
    if s > 0 {
      var tmp := new Limb[bLen];
      var accu := ShiftLeft(b, bOff, tmp, 0, bLen, s);
      bs := tmp[0..0 + bLen];
      ShiftedDivisor(bv, s, bs, accu);
      assert accu == 0;
      accu := ShiftLeft(a, aOff, room, 0, aLen, s);
      ghost var low := room[0..0 + aLen];
      room[aLen] := accu;
      assert room[..aLen + 1] == low + [accu];
      ShiftedWhole(low, accu, av, k);
    } else {
      bs := b[bOff..bOff + bLen];
      CopyLimbs(a, aOff, room, aLen);
      room[aLen] := 0;
      SmallPowers();
      assert room[..aLen + 1] == av + [0];
      ValAppendZero(av);
    }
  }

  /** Case m >= n > 1. */
  method DivideLong(a: array<Limb>, aOff: nat, aLen: nat, b: array<Limb>, bOff: nat, bLen: nat, room: array<Limb>)
    returns (bs: seq<Limb>, rLen: nat, qLen: nat, ghost k: nat)
    requires a != room && b != room
    requires aOff + aLen <= a.Length && bOff + bLen <= b.Length
    requires 2 <= bLen <= aLen && aLen + 2 <= room.Length
    requires Normalised(a[aOff..aOff + aLen]) && Normalised(b[bOff..bOff + bLen])
    modifies room
    ensures rLen <= |bs| && |bs| == bLen && qLen <= aLen + 1 - bLen
    ensures IsDivided(room[..], rLen, bLen, qLen, bs, Val(a[aOff..aOff + aLen]), Val(b[bOff..bOff + bLen]), k)
  {
    hide Val, Pow, Divided, IsDivided;
    ghost var av, bv := a[aOff..aOff + aLen], b[bOff..bOff + bLen];
    bs, k := ShiftOperands(a, aOff, aLen, b, bOff, bLen, room);
    ShiftedDividend(av, bv, k);
    LongDivide(room, aLen, bs);
    qLen := aLen - bLen + 1;
    ghost var quot := room[bLen..bLen + qLen];
    assert room[..][bLen..aLen + 1] == quot;
    ValBound(bv);
    LongQuotientTop(room[..], bLen, aLen, av, bs, k, Val(bv));
    if room[bLen + qLen - 1] == 0 {
      ValDropTopZero(quot, qLen - 1);
      assert quot[..qLen] == quot;
      qLen := qLen - 1;
      assert quot[..qLen] == room[..][bLen..bLen + qLen] == room[..][bLen..aLen];
    }
    rLen := NormalLength(room, 0, bLen);
    assert room[0..0 + bLen] == room[..][..bLen] && room[0..0 + rLen] == room[..][..rLen];
    LongFinish(room[..], rLen, bLen, qLen, aLen, bs, Val(av), Val(bv), k);
  }

  lemma ShiftedWhole(low: seq<Limb>, accu: Limb, src: seq<Limb>, p: int)
    requires IsShifted(low, accu, src, p)
    ensures Val(low + [accu]) == Val(src) * p
  {
    hide Val, Pow;
    ValSnoc(low, accu);
  }

  /** At most the top limb of the long quotient is zero. */
  lemma LongQuotientTop(room: seq<Limb>, n: nat, m: nat, a: seq<Limb>, bs: seq<Limb>, k: nat, b: nat)
    requires 2 <= n <= m && m + 1 <= |room| && |a| == m && |bs| == n && k >= 1
    requires Normalised(a)
    requires Divided(room, 0, n, m, Val(a) * k, bs) && Val(bs) == b * k && b < Pow(n)
    ensures room[m] == 0 ==> Normalised(room[n..m])
  {
    hide Val, Pow;
    if room[m] == 0 && n < m && room[m - 1] == 0 {
      var quot := room[n..m + 1];
      ValDropTopZero(quot, m - n);
      ValDropTopZero(quot, m - n - 1);
      assert quot[..m - n + 1] == quot;
      ValBound(quot[..m - n - 1]);
      ValLowerBound(a);
      PowSum(m - n - 1, n);
      PowSucc(0);
      TopZeroArithmetic(Val(quot), Pow(m - n - 1), Pow(n), Val(a), b, k, Val(room[..n]));
    }
  }

  lemma TopZeroArithmetic(q: int, p: int, w: int, a: int, b: int, k: int, r: int)
    requires 0 <= q < p && 0 <= b < w && k >= 1
    requires a * k == q * (b * k) + r && 0 <= r < b * k
    ensures a < p * w
  {
    MulMonotone(q + 1, p, b * k);
    assert (q + 1) * (b * k) == q * (b * k) + b * k;
    assert p * (b * k) == (p * b) * k;
    MulMonotone(b, w, p);
    if a >= p * b {
      MulMonotone(p * b, a, k);
    }
  }

  lemma LongFinish(room: seq<Limb>, rLen: nat, n: nat, qLen: nat, m: nat, bs: seq<Limb>, a: nat, b: nat, k: nat)
    requires n <= m && m + 1 <= |room| && rLen <= n && n + qLen <= m + 1 && k > 0
    requires Divided(room, 0, n, m, a * k, bs) && Val(bs) == b * k
    requires Val(room[..rLen]) == Val(room[..n])
    requires Val(room[n..n + qLen]) == Val(room[n..m + 1]) && Normalised(room[n..n + qLen])
    ensures IsDivided(room, rLen, n, qLen, bs, a, b, k)
  {
    hide Val;
  }

  /** Round-to-even: bump the quotient if 2r > b, or if 2r = b and it is odd. */
  method RoundQuotient(room: array<Limb>, rLen: nat, off: nat, len: nat, bs: seq<Limb>,
                       ghost a: nat, ghost b: nat, ghost k: nat)
    returns (len': nat)
    requires rLen <= |bs| && rLen <= room.Length && off + len < room.Length && b > 0
    requires IsDivided(room[..], rLen, off, len, bs, a, b, k)
    modifies room
    ensures off + len' <= room.Length && Normalised(room[off..off + len'])
    ensures Val(room[off..off + len']) == RoundHalfEven(a, b)
  {
    hide Val, Pow, IsDivided, RoundHalfEven;
    RoundedUp(room[..], rLen, off, len, bs, a, b, k);
    DividedIsNormalised(room[..], rLen, off, len, bs, a, b, k);
    assert room[..][..rLen] == room[..rLen];
    assert room[..][off..off + len] == room[off..off + len];
    Parity(room[off..off + len]);
    var c := CompareTwice(room, rLen, bs);
    len' := len;
    if c == Greater || (c == Equal && len > 0 && room[off] % 2 != 0) {
      len' := Increment(room, off, len);
    }
  }

  /** The quotient a / b rounded to the nearest integer, ties to even; neither
      operand need be normalised. */
  method Divide(a: Mpn, b: Mpn) returns (q: Mpn)
    requires a.Valid() && b.Valid()
    requires b.Value() > 0
    ensures fresh(q.buf) && q.Valid()
    ensures Normalised(q.Limbs())
    ensures q.Value() == RoundHalfEven(a.Value(), b.Value())
  {
    hide Val, Pow, RoundHalfEven;
    var room := new Limb[a.nlimbs + 2];
    var aLen := NormalLength(a.buf, a.off, a.nlimbs);
    var bLen := NormalLength(b.buf, b.off, b.nlimbs);
    ValEmpty();
    q := DivideNormalised(a.buf, a.off, aLen, b.buf, b.off, bLen, room);
  }

  /** The three cases m < n, n = 1 and n > 1, then rounding. */
  method DivideNormalised(a: array<Limb>, aOff: nat, aLen: nat, b: array<Limb>, bOff: nat, bLen: nat, room: array<Limb>)
    returns (q: Mpn)
    requires a != room && b != room
    requires aOff + aLen <= a.Length && bOff + bLen <= b.Length
    requires 1 <= bLen && aLen + 2 <= room.Length
    requires Normalised(a[aOff..aOff + aLen]) && Normalised(b[bOff..bOff + bLen])
    modifies room
    ensures q.buf == room && q.Valid() && Normalised(q.Limbs())
    ensures Val(b[bOff..bOff + bLen]) > 0
    ensures q.Value() == RoundHalfEven(Val(a[aOff..aOff + aLen]), Val(b[bOff..bOff + bLen]))
  {
    hide Val, Pow, IsDivided, RoundHalfEven;
    var bs: seq<Limb>;
    var rLen, qOff, qLen;
    ghost var k := 1;
    ghost var av, bv := a[aOff..aOff + aLen], b[bOff..bOff + bLen];
    ValLowerBound(bv);
    if aLen < bLen {
      CopyLimbs(a, aOff, room, aLen);
      bs := b[bOff..bOff + bLen];
      rLen, qOff, qLen := aLen, aLen, 0;
      ShorterIsSmaller(av, bv);
      assert room[..][..rLen] == av;
      DividedTrivially(room[..], rLen, bs, Val(av), Val(bv));
    } else if bLen == 1 {
      bs := [b[bOff]];
      assert bs == bv;
      ValSingle(bs[0]);
      rLen, qLen := DivideShort(a, aOff, aLen, bs[0], room);
      qOff := 1;
    } else {
      bs, rLen, qLen, k := DivideLong(a, aOff, aLen, b, bOff, bLen, room);
      qOff := bLen;
    }
    qLen := RoundQuotient(room, rLen, qOff, qLen, bs, Val(av), Val(bv), k);
    q := Mpn(room, qOff, qLen);
  }

  lemma DividedIsNormalised(room: seq<Limb>, rLen: nat, off: nat, len: nat, bs: seq<Limb>, a: nat, b: nat, k: nat)
    requires rLen <= |room| && off + len <= |room|
    requires IsDivided(room, rLen, off, len, bs, a, b, k)
    ensures Normalised(room[off..off + len])
  {
  }
}
