/**
 The hash function of message catalogues (hash-string.c), on integers: a shift by
 four bits is a multiplication by 16, and the exclusive or changes the bits 4 to 7
 and clears the bits 28 to 31.
 */
module MsgHash {
  import opened CStrings
  import opened Divisibility
  import opened Powers

  const RANGE32: nat := 0x1_0000_0000
  const RANGE64: nat := 0x1_0000_0000_0000_0000

  /** Exclusive or of two numbers of 4 bits. */
  function Xor4(a: nat, b: nat): (r: nat)
    requires a < 16 && b < 16
    ensures r < 16 && (b == 0 ==> r == a)
  {
    Bit(a, b, 1) + 2 * Bit(a, b, 2) + 4 * Bit(a, b, 4) + 8 * Bit(a, b, 8)
  }

  function Bit(a: nat, b: nat, weight: nat): (r: nat)
    requires weight > 0
    ensures r < 2
  {
    if a / weight % 2 == b / weight % 2 then 0 else 1
  }

  /** The fields of a word: bits 0 to 3, 4 to 7, 8 to 27, 28 to 31, and above. */
  datatype Word = Word(lo: nat, n: nat, hi: nat, top: nat, above: nat)

  ghost predicate IsWord(w: Word, x: nat)
  {
    && w.lo < 16 && w.n < 16 && w.hi < 0x10_0000 && w.top < 16
    && x == w.lo + w.n * 16 + w.hi * 256 + w.top * 0x1000_0000 + w.above * RANGE32
  }

  function Fields(x: nat): (w: Word)
    ensures IsWord(w, x)
  {
    var a, b, c := x / 16, x / 256, x / 0x1000_0000;
    FieldSum(x, a, b, c);
    Word(x % 16, a % 16, b % 0x10_0000, c % 16, c / 16)
  }

  lemma FieldSum(x: nat, a: nat, b: nat, c: nat)
    requires a == x / 16 && b == x / 256 && c == x / 0x1000_0000
    ensures b == a / 16 && c == b / 0x10_0000
    ensures x == x % 16 + a % 16 * 16 + b % 0x10_0000 * 256 + c % 16 * 0x1000_0000 + c / 16 * RANGE32
  {
    assert b == a / 16;
    assert c == b / 0x10_0000;
    assert x == a * 16 + x % 16;
    assert a == b * 16 + a % 16;
    assert b == c * 0x10_0000 + b % 0x10_0000;
    assert c == c / 16 * 16 + c % 16;
  }

  lemma SameDigit(a: nat, b: nat, c: nat, d: nat, base: nat)
    requires a < base && c < base && a + b * base == c + d * base
    ensures a == c && b == d
  {
    Distribute(d, b, base);
    SmallMultiple(d - b, base);
  }

  lemma FieldsUnique(v: Word, w: Word, x: nat)
    requires IsWord(v, x) && IsWord(w, x)
    ensures v == w
  {
    var v4, w4 := v.above, w.above;
    var v3, w3 := v.top + v4 * 16, w.top + w4 * 16;
    var v2, w2 := v.hi + v3 * 0x10_0000, w.hi + w3 * 0x10_0000;
    var v1, w1 := v.n + v2 * 16, w.n + w2 * 16;
    SameDigit(v.lo, v1, w.lo, w1, 16);
    SameDigit(v.n, v2, w.n, w2, 16);
    SameDigit(v.hi, v3, w.hi, w3, 0x10_0000);
    SameDigit(v.top, v4, w.top, w4, 16);
  }

  /** hval ^= g >> 24; hval ^= g, where g is hval & 0xf0000000. */
  function Fold(x: nat): nat
  {
    var w := Fields(x);
    w.lo + Xor4(w.n, w.top) * 16 + w.hi * 256 + w.above * RANGE32
  }

  /** The hash computed in an unsigned long of the given range. */
  function HashLong(s: Text, range: nat): nat
    requires range > 0
  {
    if s == [] then 0 else Fold((HashLong(s[..|s| - 1], range) * 16 + s[|s| - 1]) % range)
  }

  lemma FoldLow(x: nat)
    ensures Fold(x) % RANGE32 == Fold(x % RANGE32)
  {
    hide Fields, Xor4;
    var w := Fields(x);
    var l := w.(above := 0);
    var low := w.lo + w.n * 16 + w.hi * 256 + w.top * 0x1000_0000;
    ModUnique(RANGE32, x, w.above, low);
    FieldsUnique(l, Fields(low), low);
    ModUnique(RANGE32, Fold(x), w.above, w.lo + Xor4(w.n, w.top) * 16 + w.hi * 256);
  }

  lemma ShiftInLow(h: nat, c: nat)
    ensures (h * 16 + c) % RANGE64 % RANGE32 == (h % RANGE32 * 16 + c) % RANGE32
  {
    var q, r := h / RANGE32, h % RANGE32;
    assert h * 16 + c == q * 16 * RANGE32 + (r * 16 + c);
  }

  /** The hash in 32 bits, as catalogues use it, does not depend on the width of
      unsigned long: a catalogue written on one machine is read on the other. */
  lemma {:induction false} HashPortable(s: Text)
    ensures HashLong(s, RANGE64) % RANGE32 == HashLong(s, RANGE32)
  {
    hide Fold;
    if s != [] {
      var t, c := s[..|s| - 1], s[|s| - 1];
      HashPortable(t);
      ShiftInLow(HashLong(t, RANGE64), c);
      FoldLow((HashLong(t, RANGE64) * 16 + c) % RANGE64);
    }
  }

  method HashString(str: Text, range: nat) returns (hval: nat)
    requires range > 0
    ensures hval == HashLong(str, range)
  {
    hide Fold;
    hval := 0;
    for i := 0 to |str|
      invariant hval == HashLong(str[..i], range)
    {
      assert str[..i + 1][..i] == str[..i];
      hval := (hval * 16 + str[i]) % range;
      hval := FoldBits(hval);
    }
    assert str[..|str|] == str;
  }

  /** The end of a round. */
  method FoldBits(x: nat) returns (hval: nat)
    ensures hval == Fold(x)
  {
    hide Xor4;
    hval := x;
    var w := Fields(hval);
    var g := w.top * 0x1000_0000;
    if g != 0 {
      hval := hval - w.n * 16 + Xor4(w.n, w.top) * 16;
      hval := hval - g;
    }
  }

  /** The hash value that a catalogue lookup uses. */
  function Hash(s: Text): nat
  {
    HashLong(s, RANGE64) % RANGE32
  }

  // ------------------------------------------------------------- what Fold does

  function BitAt(x: nat, i: nat): (b: nat)
    ensures b < 2
  {
    x / TwoTo(i) % 2
  }

  /** A number in two parts: low bits and the rest. */
  lemma BitSplit(low: nat, k: nat, high: nat, i: nat)
    requires low < TwoTo(k)
    ensures BitAt(low + TwoTo(k) * high, i) == if i < k then BitAt(low, i) else BitAt(high, i - k)
  {
    hide TwoTo;
    if i < k {
      TwoToSum(i, k - i - 1);
      TwoToSucc(k - i - 1);
      TwoToSum(i, k - i);
      SplitLow(low, TwoTo(i), TwoTo(k - i - 1), high, TwoTo(k));
    } else {
      TwoToSum(k, i - k);
      SplitHigh(low, TwoTo(k), high, TwoTo(i - k));
    }
  }

  lemma SplitLow(low: nat, p: nat, half: nat, high: nat, whole: nat)
    requires p > 0 && whole == p * (2 * half)
    ensures (low + whole * high) / p % 2 == low / p % 2
  {
    var q := low / p;
    DivMod(low, p);
    assert whole * high == (2 * (half * high)) * p;
    Distribute(q, -(2 * (half * high)), p);
    ModUnique(p, low + whole * high, q + 2 * (half * high), low % p);
    ModShift(2, q, half * high);
  }

  lemma SplitHigh(low: nat, p: nat, high: nat, q: nat)
    requires p > 0 && q > 0 && low < p
    ensures (low + p * high) / (p * q) == high / q
  {
    var c, r := high / q, high % q;
    DivMod(high, q);
    ProductMonotone(p, p, r + 1, q);
    assert p * (r + 1) == p * r + p;
    assert p * high == c * (p * q) + p * r;
    ModUnique(p * q, low + p * high, c, p * r + low);
  }

  lemma SmallTwoTo()
    ensures TwoTo(1) == 2 && TwoTo(4) == 16 && TwoTo(20) == 0x10_0000 && TwoTo(0) == 1
    ensures TwoTo(2) == 4 && TwoTo(3) == 8
  {
    assert TwoTo(5) == 32;
    TwoToSum(5, 5);
    TwoToSum(10, 10);
  }

  /** The bits of a number by its fields. */
  lemma FieldBits(w: Word, x: nat, i: nat)
    requires IsWord(w, x)
    ensures BitAt(x, i) ==
      if i < 4 then BitAt(w.lo, i) else if i < 8 then BitAt(w.n, i - 4) else if i < 28 then BitAt(w.hi, i - 8)
      else if i < 32 then BitAt(w.top, i - 28) else BitAt(w.above, i - 32)
  {
    hide TwoTo, BitAt;
    SmallTwoTo();
    var x3 := w.top + 16 * w.above;
    var x2 := w.hi + 0x10_0000 * x3;
    var x1 := w.n + 16 * x2;
    BitSplit(w.lo, 4, x1, i);
    if i >= 4 { BitSplit(w.n, 4, x2, i - 4); }
    if i >= 8 { BitSplit(w.hi, 20, x3, i - 8); }
    if i >= 28 { BitSplit(w.top, 4, w.above, i - 28); }
  }

  lemma BitOfBit(b: nat)
    requires b < 2
    ensures BitAt(b, 0) == b
  {
    SmallTwoTo();
  }

  lemma Xor4Bits(a: nat, b: nat, i: nat)
    requires a < 16 && b < 16 && i < 4
    ensures BitAt(Xor4(a, b), i) == (BitAt(a, i) + BitAt(b, i)) % 2
  {
    hide TwoTo, BitAt;
    SmallTwoTo();
    var b0, b1, b2, b3 := Bit(a, b, 1), Bit(a, b, 2), Bit(a, b, 4), Bit(a, b, 8);
    BitSplit(b0, 1, b1 + 2 * (b2 + 2 * b3), i);
    if i >= 1 { BitSplit(b1, 1, b2 + 2 * b3, i - 1); }
    if i >= 2 { BitSplit(b2, 1, b3, i - 2); }
    BitOfBit(b0);
    BitOfBit(b1);
    BitOfBit(b2);
    BitOfBit(b3);
    XorOfBit(a, b, i);
  }

  lemma XorOfBit(a: nat, b: nat, i: nat)
    requires i < 4
    ensures Bit(a, b, TwoTo(i)) == (BitAt(a, i) + BitAt(b, i)) % 2
  {
    hide TwoTo;
  }

  lemma ZeroBits(i: nat)
    ensures BitAt(0, i) == 0
  {
    hide TwoTo;
  }

  /** The two assignments, bit by bit: bits 28 to 31 are exclusive-or'ed into bits 4
      to 7, and cleared; all others stay. */
  lemma FoldBitwise(x: nat, i: nat)
    ensures BitAt(Fold(x), i) ==
      if 4 <= i < 8 then (BitAt(x, i) + BitAt(x, i + 24)) % 2 else if 28 <= i < 32 then 0 else BitAt(x, i)
  {
    hide Fields, Xor4, BitAt;
    var w := Fields(x);
    FieldBits(w, x, i);
    FieldBits(Word(w.lo, Xor4(w.n, w.top), w.hi, 0, w.above), Fold(x), i);
    if 4 <= i < 8 {
      FieldBits(w, x, i + 24);
      Xor4Bits(w.n, w.top, i - 4);
    } else if 28 <= i < 32 {
      ZeroBits(i - 28);
    }
  }

  // ---------------------------------------------------------- messages by value

  /** The characters as digits of base 16. */
  function Positional(s: Text): nat
  {
    if s == [] then 0 else s[0] * Power(16, |s| - 1) + Positional(s[1..])
  }

  lemma {:induction false} PositionalSnoc(s: Text)
    requires s != []
    ensures Positional(s) == 16 * Positional(s[..|s| - 1]) + s[|s| - 1]
  {
    var t := s[..|s| - 1];
    if |s| == 1 {
      assert t == [] && s[1..] == [];
    } else {
      PositionalSnoc(s[1..]);
      assert s[1..][..|s| - 2] == t[1..];
      PowerStep(16, |s| - 1);
      hide Power;
      assert t[0] == s[0];
      assert s[0] * (16 * Power(16, |s| - 2)) == 16 * (s[0] * Power(16, |s| - 2));
    }
  }

  lemma FoldNothing(x: nat)
    requires x < 0x1000_0000
    ensures Fold(x) == x
  {
    hide Fields, Xor4;
    var w := Fields(x);
    FieldSmall(w, x);
  }

  lemma FieldSmall(w: Word, x: nat)
    requires IsWord(w, x) && x < 0x1000_0000
    ensures w.top == 0 && w.above == 0
  {
  }

  /** As long as nothing overflows 28 bits, each character counts 16 times as much as
      the next. */
  lemma {:induction false} HashShort(s: Text, range: nat)
    requires Positional(s) < 0x1000_0000 <= range
    ensures HashLong(s, range) == Positional(s)
  {
    hide Fold, Positional, HashLong;
    HashStep(s, range);
    if s != [] {
      PositionalSnoc(s);
      HashShort(s[..|s| - 1], range);
      ModUnique(range, Positional(s), 0, Positional(s));
      FoldNothing(Positional(s));
    } else {
      PositionalNone();
    }
  }

  lemma HashStep(s: Text, range: nat)
    requires range > 0
    ensures HashLong(s, range) ==
      if s == [] then 0 else Fold((HashLong(s[..|s| - 1], range) * 16 + s[|s| - 1]) % range)
  {
    hide Fold;
  }

  lemma PositionalNone()
    ensures Positional([]) == 0
  {
  }

  /** A short message and its hash value. */
  lemma HashOfOne()
    ensures Hash([1]) == 1
  {
    hide Fold;
    var s: Text := [1];
    PositionalSnoc(s);
    assert s[..0] == [];
    PositionalNone();
    HashShort(s, RANGE64);
  }

  /** The first message of one letter whose hash value shows the exclusive or. */
  lemma HashOfAs()
    ensures Hash([97, 97, 97, 97, 97, 97, 97]) == 0x0777_7711
  {
    hide Fold, Positional, HashLong;
    var six: Text := [97, 97, 97, 97, 97, 97];
    var s: Text := [97, 97, 97, 97, 97, 97, 97];
    assert s[..6] == six;
    PositionalAs();
    HashShort(six, RANGE64);
    HashStep(s, RANGE64);
    FoldAs();
  }

  lemma PositionalAs()
    ensures Positional([97, 97, 97, 97, 97, 97]) == 0x677_7771
  {
    hide Positional;
    PositionalNone();
    OneMoreA([], [97], 0);
    OneMoreA([97], [97, 97], 97);
    OneMoreA([97, 97], [97, 97, 97], 1649);
    OneMoreA([97, 97, 97], [97, 97, 97, 97], 26481);
    OneMoreA([97, 97, 97, 97], [97, 97, 97, 97, 97], 423793);
    OneMoreA([97, 97, 97, 97, 97], [97, 97, 97, 97, 97, 97], 6780785);
  }

  lemma OneMoreA(s: Text, t: Text, v: nat)
    requires Positional(s) == v && t == s + [97]
    ensures Positional(t) == 16 * v + 97
  {
    hide Positional;
    PositionalSnoc(t);
    assert t[..|s|] == s;
  }

  lemma FoldAs()
    ensures Fold(0x6777_7771) == 0x0777_7711
  {
    hide Fields;
    FieldsUnique(Word(1, 7, 0x7_7777, 6, 0), Fields(0x6777_7771), 0x6777_7771);
  }
}
