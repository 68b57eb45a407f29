/**
 The pool of locale dependent files and their fallbacks (l10nflist.c).
 */
module L10nFiles {
  import opened Powers
  import opened Options
  import opened CStrings

  // ------------------------------------------------------------------- masks

  const NORM_CODESET: nat := 1
  const CODESET: nat := 2
  const TERRITORY: nat := 4
  const MODIFIER: nat := 8

  /** Masks are made of the four parts of a locale name. */
  const MASKS: nat := 16

  /** Bitwise and. */
  function And(x: nat, y: nat): nat
  {
    if x == 0 || y == 0 then 0 else (if x % 2 == 1 && y % 2 == 1 then 1 else 0) + 2 * And(x / 2, y / 2)
  }

  /** The number of bits that are set. */
  function Bits(x: nat): nat
  {
    if x == 0 then 0 else x % 2 + Bits(x / 2)
  }

  /** pop, which adds up neighbouring bits, then pairs, nibbles and bytes. */
  function Pop(x: nat): nat
  {
    AddBytes(AddPairs(AddBits(x)))
  }

  function AddBits(x: nat): nat
  {
    And(x, 0xaaaa) / 2 + And(x, 0x5555)
  }

  function AddPairs(x: nat): nat
  {
    And(x, 0xcccc) / 4 + And(x, 0x3333)
  }

  function AddBytes(x: nat): nat
  {
    var c := And(x / 16 + x, 0x0f0f);
    And(c / 256 + c, 0xff)
  }

  function Both(b: nat, c: nat): (r: nat)
    ensures r < 2
  {
    if b == 1 && c == 1 then 1 else 0
  }

  lemma AndBit(b: nat, x: nat, c: nat, y: nat)
    requires b < 2 && c < 2
    ensures And(b + 2 * x, c + 2 * y) == Both(b, c) + 2 * And(x, y)
  {
    assert (b + 2 * x) / 2 == x && (b + 2 * x) % 2 == b && (c + 2 * y) / 2 == y && (c + 2 * y) % 2 == c;
    if b + 2 * x == 0 || c + 2 * y == 0 {
      assert And(x, y) == 0;
    }
  }

  lemma TwoBits(a: nat, b: nat, x: nat, p: nat, q: nat, y: nat)
    requires a < 2 && b < 2 && p < 2 && q < 2
    ensures And(a + 2 * (b + 2 * x), p + 2 * (q + 2 * y)) == Both(a, p) + 2 * (Both(b, q) + 2 * And(x, y))
  {
    hide And, Both;
    AndBit(a, b + 2 * x, p, q + 2 * y);
    AndBit(b, x, q, y);
  }

  lemma AndZero(y: nat)
    ensures And(0, y) == 0
  {
  }

  /** A number below 16 by its bits. */
  lemma Nibble(x: nat) returns (a: nat, b: nat, c: nat, d: nat)
    requires x < 16
    ensures a < 2 && b < 2 && c < 2 && d < 2 && x == a + 2 * (b + 2 * (c + 2 * d))
  {
    var x1 := x / 2;
    var x2 := x1 / 2;
    a, b, c, d := x % 2, x1 % 2, x2 % 2, x2 / 2;
  }

  /** The bits of a nibble that a mask selects, with what is above them. */
  lemma Select(a: nat, b: nat, c: nat, d: nat, x: nat, p: nat, q: nat, r: nat, s: nat, y: nat)
    requires a < 2 && b < 2 && c < 2 && d < 2 && p < 2 && q < 2 && r < 2 && s < 2
    ensures And(a + 2 * (b + 2 * (c + 2 * d)) + 16 * x, p + 2 * (q + 2 * (r + 2 * s)) + 16 * y)
         == Both(a, p) + 2 * (Both(b, q) + 2 * (Both(c, r) + 2 * Both(d, s))) + 16 * And(x, y)
  {
    hide And, Both;
    TwoBits(a, b, c + 2 * (d + 2 * x), p, q, r + 2 * (s + 2 * y));
    TwoBits(c, d, x, r, s, y);
  }

  lemma AndNibble(n: nat, x: nat, m: nat, y: nat)
    requires n < 16 && m < 16
    ensures And(n + 16 * x, m + 16 * y) == And(n, m) + 16 * And(x, y)
  {
    hide And;
    var a, b, c, d := Nibble(n);
    var p, q, r, s := Nibble(m);
    Select(a, b, c, d, x, p, q, r, s, y);
    Select(a, b, c, d, 0, p, q, r, s, 0);
    AndZero(0);
  }

  /** A number of four nibbles. */
  function Word(n0: nat, n1: nat, n2: nat, n3: nat): nat
  {
    n0 + 16 * (n1 + 16 * (n2 + 16 * n3))
  }

  lemma AndWord(n0: nat, n1: nat, n2: nat, n3: nat, m0: nat, m1: nat, m2: nat, m3: nat)
    requires n0 < 16 && n1 < 16 && n2 < 16 && m0 < 16 && m1 < 16 && m2 < 16
    ensures And(Word(n0, n1, n2, n3), Word(m0, m1, m2, m3))
         == Word(And(n0, m0), And(n1, m1), And(n2, m2), And(n3, m3))
  {
    hide And;
    AndNibble(n0, n1 + 16 * (n2 + 16 * n3), m0, m1 + 16 * (m2 + 16 * m3));
    AndNibble(n1, n2 + 16 * n3, m1, m2 + 16 * m3);
    AndNibble(n2, n3, m2, m3);
  }

  lemma BitsStep(b: nat, x: nat)
    requires b < 2
    ensures Bits(b + 2 * x) == b + Bits(x)
  {
    assert (b + 2 * x) / 2 == x && (b + 2 * x) % 2 == b;
  }

  lemma BitsOf(a: nat, b: nat, c: nat, d: nat, x: nat)
    requires a < 2 && b < 2 && c < 2 && d < 2
    ensures Bits(a + 2 * (b + 2 * (c + 2 * d)) + 16 * x) == a + b + c + d + Bits(x)
  {
    hide Bits;
    BitsStep(a, b + 2 * (c + 2 * (d + 2 * x)));
    BitsStep(b, c + 2 * (d + 2 * x));
    BitsStep(c, d + 2 * x);
    BitsStep(d, x);
  }

  /** The first two sums of pop in a nibble: two pairs of bits, then the number of
      bits. */
  lemma PopNibble(n: nat) returns (h: nat, l: nat, u: nat, v: nat)
    requires n < 16
    ensures u <= 2 && v <= 2 && h + l == u + 4 * v && 2 * h < 16 && l < 16
    ensures And(n, 0xa) == 2 * h && And(n, 0x5) == l && And(h + l, 0xc) == 4 * v && And(h + l, 0x3) == u
    ensures Bits(n) == u + v
  {
    hide And, Bits;
    var a, b, c, d := Nibble(n);
    h, l, u, v := b + 4 * d, a + 4 * c, a + b, c + d;
    AndZero(0);
    Select(a, b, c, d, 0, 0, 1, 0, 1, 0);
    Select(a, b, c, d, 0, 1, 0, 1, 0, 0);
    PairBits(u, v);
    BitsOf(a, b, c, d, 0);
    BitsZero();
  }

  lemma PairBits(u: nat, v: nat)
    requires u <= 2 && v <= 2
    ensures And(u + 4 * v, 0xc) == 4 * v && And(u + 4 * v, 0x3) == u
  {
    hide And;
    var a, b, c, d := u % 2, u / 2, v % 2, v / 2;
    AndZero(0);
    Select(a, b, c, d, 0, 0, 0, 1, 1, 0);
    Select(a, b, c, d, 0, 1, 1, 0, 0, 0);
  }

  lemma AndNone(n: nat)
    requires n < 16
    ensures And(n, 0) == 0 && And(n, 0xf) == n
  {
    hide And;
    var a, b, c, d := Nibble(n);
    AndZero(0);
    Select(a, b, c, d, 0, 1, 1, 1, 1, 0);
    Select(a, b, c, d, 0, 0, 0, 0, 0, 0);
  }

  /** The last two sums, of the nibbles and of the bytes. */
  lemma PopBytes(q0: nat, q1: nat, q2: nat, q3: nat)
    requires q0 <= 4 && q1 <= 4 && q2 <= 4 && q3 <= 4
    ensures AddBytes(Word(q0, q1, q2, q3)) == q0 + q1 + q2 + q3
  {
    hide And;
    var b := Word(q0, q1, q2, q3);
    assert b / 16 == q1 + 16 * (q2 + 16 * q3);
    assert b / 16 + b == Word(q0 + q1, q1 + q2, q2 + q3, q3);
    AndWord(q0 + q1, q1 + q2, q2 + q3, q3, 0xf, 0, 0xf, 0);
    AndNone(q0 + q1);
    AndNone(q1 + q2);
    AndNone(q2 + q3);
    AndNone(q3);
    LastByte(q0 + q1, q2 + q3);
  }

  lemma LastByte(low: nat, high: nat)
    requires low <= 8 && high <= 8
    ensures var c := low + 256 * high; And(c / 256 + c, 0xff) == low + high
  {
    hide And;
    var c, n := low + 256 * high, low + high;
    assert c / 256 + c == Word(n % 16, n / 16, high, 0);
    AndWord(n % 16, n / 16, high, 0, 0xf, 0xf, 0, 0);
    AndNone(n % 16);
    AndNone(n / 16);
    AndNone(high);
    AndNone(0);
  }

  lemma Nibbles(x: nat) returns (n0: nat, n1: nat, n2: nat, n3: nat)
    requires x < 0x1_0000
    ensures n0 < 16 && n1 < 16 && n2 < 16 && n3 < 16 && x == Word(n0, n1, n2, n3)
  {
    var x1 := x / 16;
    var x2 := x1 / 16;
    n0, n1, n2, n3 := x % 16, x1 % 16, x2 % 16, x2 / 16;
  }

  /** pop counts the bits of every number of sixteen bits. */
  lemma PopCounts(x: nat)
    requires x < 0x1_0000
    ensures Pop(x) == Bits(x)
  {
    hide And, Bits, Word, AddBits, AddPairs, AddBytes;
    var n0, n1, n2, n3 := Nibbles(x);
    var h0, l0, u0, v0 := PopNibble(n0);
    var h1, l1, u1, v1 := PopNibble(n1);
    var h2, l2, u2, v2 := PopNibble(n2);
    var h3, l3, u3, v3 := PopNibble(n3);
    BitsOfWord(n0, n1, n2, n3);
    FirstSum(n0, n1, n2, n3, h0, h1, h2, h3, l0, l1, l2, l3);
    SecondSum(h0 + l0, h1 + l1, h2 + l2, h3 + l3, v0, v1, v2, v3, u0, u1, u2, u3);
    PopBytes(u0 + v0, u1 + v1, u2 + v2, u3 + v3);
  }

  lemma BitsOfWord(n0: nat, n1: nat, n2: nat, n3: nat)
    requires n0 < 16 && n1 < 16 && n2 < 16 && n3 < 16
    ensures Bits(Word(n0, n1, n2, n3)) == Bits(n0) + Bits(n1) + Bits(n2) + Bits(n3)
  {
    hide Bits;
    BitsOfNibble(n0, n1 + 16 * (n2 + 16 * n3));
    BitsOfNibble(n1, n2 + 16 * n3);
    BitsOfNibble(n2, n3);
  }

  lemma BitsOfNibble(n: nat, x: nat)
    requires n < 16
    ensures Bits(n + 16 * x) == Bits(n) + Bits(x)
  {
    hide Bits;
    var a, b, c, d := Nibble(n);
    BitsOf(a, b, c, d, x);
    BitsOf(a, b, c, d, 0);
    assert Bits(0) == 0 by { BitsZero(); }
  }

  lemma BitsZero()
    ensures Bits(0) == 0
  {
  }

  lemma FirstSum(n0: nat, n1: nat, n2: nat, n3: nat, h0: nat, h1: nat, h2: nat, h3: nat,
    l0: nat, l1: nat, l2: nat, l3: nat)
    requires n0 < 16 && n1 < 16 && n2 < 16 && n3 < 16
    requires And(n0, 0xa) == 2 * h0 && And(n1, 0xa) == 2 * h1 && And(n2, 0xa) == 2 * h2 && And(n3, 0xa) == 2 * h3
    requires And(n0, 0x5) == l0 && And(n1, 0x5) == l1 && And(n2, 0x5) == l2 && And(n3, 0x5) == l3
    ensures AddBits(Word(n0, n1, n2, n3)) == Word(h0 + l0, h1 + l1, h2 + l2, h3 + l3)
  {
    hide And;
    AndWord(n0, n1, n2, n3, 0xa, 0xa, 0xa, 0xa);
    AndWord(n0, n1, n2, n3, 0x5, 0x5, 0x5, 0x5);
    var x := Word(n0, n1, n2, n3);
    assert And(x, 0xaaaa) == 2 * Word(h0, h1, h2, h3) && And(x, 0x5555) == Word(l0, l1, l2, l3);
  }

  lemma SecondSum(n0: nat, n1: nat, n2: nat, n3: nat, h0: nat, h1: nat, h2: nat, h3: nat,
    l0: nat, l1: nat, l2: nat, l3: nat)
    requires n0 < 16 && n1 < 16 && n2 < 16 && n3 < 16
    requires And(n0, 0xc) == 4 * h0 && And(n1, 0xc) == 4 * h1 && And(n2, 0xc) == 4 * h2 && And(n3, 0xc) == 4 * h3
    requires And(n0, 0x3) == l0 && And(n1, 0x3) == l1 && And(n2, 0x3) == l2 && And(n3, 0x3) == l3
    ensures AddPairs(Word(n0, n1, n2, n3)) == Word(l0 + h0, l1 + h1, l2 + h2, l3 + h3)
  {
    hide And;
    AndWord(n0, n1, n2, n3, 0xc, 0xc, 0xc, 0xc);
    AndWord(n0, n1, n2, n3, 0x3, 0x3, 0x3, 0x3);
    var x := Word(n0, n1, n2, n3);
    assert And(x, 0xcccc) == 4 * Word(h0, h1, h2, h3) && And(x, 0x3333) == Word(l0, l1, l2, l3);
  }

  /** A bit pattern dominated by a mask. */
  predicate Sub(cnt: nat, mask: nat)
  {
    And(cnt, mask) == cnt
  }

  /** The patterns for which there is a fallback: not both kinds of codeset. */
  predicate Allowed(cnt: nat, mask: nat)
  {
    Sub(cnt, mask) && !(And(cnt, CODESET) != 0 && And(cnt, NORM_CODESET) != 0)
  }

  /** How many numbers below n a mask dominates. */
  function SubCount(n: nat, mask: nat): nat
  {
    if n == 0 then 0 else SubCount(n - 1, mask) + if Sub(n - 1, mask) then 1 else 0
  }

  lemma SubHalf(n: nat, mask: nat)
    ensures Sub(2 * n, mask) <==> Sub(n, mask / 2)
    ensures Sub(2 * n + 1, mask) <==> mask % 2 == 1 && Sub(n, mask / 2)
  {
    assert (2 * n) / 2 == n && (2 * n + 1) / 2 == n;
    if mask == 0 {
      assert And(n, 0) == 0 && And(2 * n, 0) == 0 && And(2 * n + 1, 0) == 0;
    }
  }

  lemma {:induction false} SubCountHalf(n: nat, mask: nat)
    ensures SubCount(2 * n, mask) == SubCount(n, mask / 2) * (1 + mask % 2)
  {
    hide Sub;
    if n > 0 {
      SubCountHalf(n - 1, mask);
      SubHalf(n - 1, mask);
      assert 2 * n - 1 == 2 * (n - 1) + 1;
      assert SubCount(2 * n, mask) == SubCount(2 * n - 1, mask) + if Sub(2 * n - 1, mask) then 1 else 0;
      assert SubCount(2 * n - 1, mask) == SubCount(2 * (n - 1), mask) + if Sub(2 * (n - 1), mask) then 1 else 0;
      var s := SubCount(n - 1, mask / 2);
      if mask % 2 == 1 {
        assert SubCount(n, mask / 2) * 2 == SubCount(2 * n, mask);
      } else {
        assert SubCount(n, mask / 2) * 1 == SubCount(2 * n, mask);
      }
    }
  }

  lemma {:induction false} SubCountMore(n: nat, m: nat, mask: nat)
    requires n <= m
    ensures SubCount(n, mask) <= SubCount(m, mask)
    decreases m - n
  {
    if n < m {
      SubCountMore(n, m - 1, mask);
    }
  }

  /** A mask with b bits set dominates 2^b patterns. */
  lemma {:induction false} SubCountMask(mask: nat)
    ensures SubCount(mask + 1, mask) <= TwoTo(Bits(mask))
  {
    hide Sub;
    if mask == 0 {
      assert SubCount(1, 0) == SubCount(0, 0) + if Sub(0, 0) then 1 else 0;
    } else {
      var half := mask / 2;
      SubCountMask(half);
      SubCountMore(mask + 1, 2 * (half + 1), mask);
      SubCountHalf(half + 1, mask);
      if mask % 2 == 1 {
        assert Bits(mask) == 1 + Bits(half);
        assert SubCount(half + 1, half) * 2 <= TwoTo(Bits(half)) * 2;
      } else {
        assert SubCount(half + 1, half) * 1 == SubCount(half + 1, half);
      }
    }
  }

  // ------------------------------------------------------------------ entries

  /** The parts of a locale name, and the file. */
  datatype Params = Params(language: Text, territory: Text, codeset: Text, normalizedCodeset: Text, modifier: Text,
    filename: Text)

  const SLASH: Byte := 47
  const COLON: Byte := 58
  const UNDERSCORE: Byte := 95
  const DOT: Byte := 46
  const AT: Byte := 64

  /** Directories joined by the path separator, and a slash. */
  function DirPart(dirs: seq<Text>): Text
  {
    if dirs == [] then [] else Join(dirs) + [SLASH]
  }

  function Join(dirs: seq<Text>): Text
    requires dirs != []
  {
    if |dirs| == 1 then dirs[0] else dirs[0] + [COLON] + Join(dirs[1..])
  }

  function Part(mask: nat, bit: nat, sep: Byte, text: Text): Text
  {
    if And(mask, bit) != 0 then [sep] + text else []
  }

  /** The full file name of the entry for some directories and a mask. */
  function Name(par: Params, dirs: seq<Text>, mask: nat): Text
  {
    DirPart(dirs) + par.language + Part(mask, TERRITORY, UNDERSCORE, par.territory)
      + Part(mask, CODESET, DOT, par.codeset)
    + Part(mask, NORM_CODESET, DOT, par.normalizedCodeset) + Part(mask, MODIFIER, AT, par.modifier)
    + [SLASH] + par.filename
  }

  /** The directories that count: none if the language is an absolute path. */
  function Dirs(par: Params, dirs: seq<Text>): seq<Text>
  {
    if par.language != [] && par.language[0] == SLASH then [] else dirs
  }

  /** A fallback of an entry: its directories and mask. */
  datatype Fallback = Fallback(dirs: seq<Text>, mask: nat)

  /** The fallbacks at one mask: one for each of several directories. */
  function AtMask(dirs: seq<Text>, cnt: nat): (fs: seq<Fallback>)
    ensures |fs| == if |dirs| > 1 then |dirs| else 1
  {
    if |dirs| > 1 then seq(|dirs|, i requires 0 <= i < |dirs| => Fallback([dirs[i]], cnt)) else [Fallback(dirs, cnt)]
  }

  /** The fallbacks at the allowed masks from n - 1 down to 0. */
  function Below(dirs: seq<Text>, mask: nat, n: nat): seq<Fallback>
  {
    if n == 0 then []
    else (if Allowed(n - 1, mask) then AtMask(dirs, n - 1) else []) + Below(dirs, mask, n - 1)
  }

  /** Where the loop over the masks starts: an entry for a list of directories is no
      file, so that it falls back on the same mask too. */
  function First(dirs: seq<Text>, mask: nat): nat
  {
    if |dirs| > 1 then mask + 1 else mask
  }

  function Fallbacks(dirs: seq<Text>, mask: nat): seq<Fallback>
  {
    Below(dirs, mask, First(dirs, mask))
  }

  /** An entry falls back on exactly the allowed patterns that its mask dominates, in
      each of its directories, except on itself. */
  lemma {:induction false} BelowExactly(dirs: seq<Text>, mask: nat, n: nat, f: Fallback)
    ensures f in Below(dirs, mask, n) <==> f.mask < n && Allowed(f.mask, mask) && f in AtMask(dirs, f.mask)
  {
    hide Allowed;
    if n > 0 {
      BelowExactly(dirs, mask, n - 1, f);
      var fs := AtMask(dirs, n - 1);
      if f in fs {
        assert f.mask == n - 1;
      }
    }
  }

  lemma FallbacksExactly(dirs: seq<Text>, mask: nat, f: Fallback)
    ensures f in Fallbacks(dirs, mask) <==>
      && f.mask <= mask && Sub(f.mask, mask)
      && (And(f.mask, CODESET) == 0 || And(f.mask, NORM_CODESET) == 0)
      && if |dirs| > 1 then |f.dirs| == 1 && f.dirs[0] in dirs else f.dirs == dirs && f.mask != mask
  {
    hide And;
    BelowExactly(dirs, mask, First(dirs, mask), f);
    if |dirs| > 1 && |f.dirs| == 1 && f.dirs[0] in dirs {
      var i :| 0 <= i < |dirs| && dirs[i] == f.dirs[0];
      assert f.dirs == [dirs[i]];
      assert AtMask(dirs, f.mask)[i] == f;
    }
  }

  predicate Distinct(dirs: seq<Text>)
  {
    forall i, j :: 0 <= i < j < |dirs| ==> dirs[i] != dirs[j]
  }

  /** Fallbacks with masks below n come in decreasing order of the masks, and for each
      directory, if they are distinct, strictly so. */
  predicate InOrder(fs: seq<Fallback>, n: nat, distinct: bool)
  {
    && (forall i :: 0 <= i < |fs| ==> fs[i].mask < n)
    && (forall i, j :: 0 <= i < j < |fs| ==> fs[i].mask >= fs[j].mask)
    && (distinct ==> forall i, j :: 0 <= i < j < |fs| && fs[i].dirs == fs[j].dirs ==> fs[i].mask > fs[j].mask)
  }

  lemma {:induction false} BelowOrdered(dirs: seq<Text>, mask: nat, n: nat)
    ensures InOrder(Below(dirs, mask, n), n, Distinct(dirs))
  {
    hide *;
    BelowUnfolds(dirs, mask, n);
    if n > 0 {
      BelowOrdered(dirs, mask, n - 1);
      AtMaskDistinct(dirs, n - 1);
      var fs := if Allowed(n - 1, mask) then AtMask(dirs, n - 1) else [];
      OrderedConcat(fs, Below(dirs, mask, n - 1), n - 1, Distinct(dirs));
    } else {
      NoneInOrder(Distinct(dirs));
    }
  }

  lemma BelowUnfolds(dirs: seq<Text>, mask: nat, n: nat)
    ensures Below(dirs, mask, n) ==
      if n == 0 then []
      else (if Allowed(n - 1, mask) then AtMask(dirs, n - 1) else []) + Below(dirs, mask, n - 1)
  {
  }

  lemma NoneInOrder(distinct: bool)
    ensures InOrder([], 0, distinct)
  {
  }

  /** Fallbacks at one mask before ordered ones at smaller masks. */
  lemma OrderedConcat(fs: seq<Fallback>, gs: seq<Fallback>, cnt: nat, distinct: bool)
    requires forall i :: 0 <= i < |fs| ==> fs[i].mask == cnt
    requires distinct ==> forall i, j :: 0 <= i < j < |fs| ==> fs[i].dirs != fs[j].dirs
    requires InOrder(gs, cnt, distinct)
    ensures InOrder(fs + gs, cnt + 1, distinct)
  {
  }

  lemma AtMaskDistinct(dirs: seq<Text>, cnt: nat)
    ensures var fs := AtMask(dirs, cnt);
      && (forall i :: 0 <= i < |fs| ==> fs[i].mask == cnt)
      && (Distinct(dirs) ==> forall i, j :: 0 <= i < j < |fs| ==> fs[i].dirs != fs[j].dirs)
  {
    if |dirs| > 1 && Distinct(dirs) {
      var fs := AtMask(dirs, cnt);
      forall i, j | 0 <= i < j < |fs| ensures fs[i].dirs != fs[j].dirs {
        assert fs[i].dirs[0] == dirs[i] && fs[j].dirs[0] == dirs[j];
      }
    }
  }

  /** dirlist_count. */
  function DirCount(dirs: seq<Text>): (n: nat)
    ensures n >= 1
  {
    if dirs == [] then 1 else |dirs|
  }

  /** n << bits. */
  function ShiftedBy(n: nat, bits: nat): nat
  {
    n * TwoTo(bits)
  }

  /** The number of successor pointers an entry is allocated with. */
  function Capacity(dirs: seq<Text>, mask: nat): nat
  {
    ShiftedBy(DirCount(dirs), Pop(mask)) + (if |dirs| > 1 then 1 else 0) + 1
  }

  lemma {:induction false} BelowLength(dirs: seq<Text>, mask: nat, n: nat)
    ensures |Below(dirs, mask, n)| <= DirCount(dirs) * SubCount(n, mask)
  {
    hide Sub, And;
    if n > 0 {
      BelowLength(dirs, mask, n - 1);
      var d, s := DirCount(dirs), SubCount(n - 1, mask);
      assert d * (s + 1) == d * s + d;
    }
  }

  /** The successors and the null pointer behind them fit. */
  lemma FallbacksFit(dirs: seq<Text>, mask: nat)
    requires mask < MASKS
    ensures |Fallbacks(dirs, mask)| + 1 <= Capacity(dirs, mask)
  {
    hide Sub, Below, Pop;
    PopCounts(mask);
    SubCountMask(mask);
    BelowLength(dirs, mask, First(dirs, mask));
    SubCountMore(First(dirs, mask), mask + 1, mask);
    TimesLess(DirCount(dirs), SubCount(First(dirs, mask), mask), TwoTo(Bits(mask)));
  }

  lemma TimesLess(d: nat, a: nat, b: nat)
    requires a <= b
    ensures d * a <= d * b
  {
  }

  // -------------------------------------------------------- names get shorter

  lemma {:induction false} AndSub(c: nat, mask: nat, bit: nat)
    requires Sub(c, mask)
    ensures And(c, bit) != 0 ==> And(mask, bit) != 0
    decreases c
  {
    if c != 0 && mask != 0 && bit != 0 {
      SubHalf(c / 2, mask);
      AndSub(c / 2, mask / 2, bit / 2);
    }
  }

  lemma BitTests(x: nat) returns (a: nat, b: nat, c: nat, d: nat)
    requires x < MASKS
    ensures x == a + 2 * (b + 2 * (c + 2 * d))
    ensures And(x, 1) == a && And(x, 2) == 2 * b && And(x, 4) == 4 * c && And(x, 8) == 8 * d
    ensures a < 2 && b < 2 && c < 2 && d < 2
  {
    hide And;
    a, b, c, d := Nibble(x);
    AndZero(0);
    Select(a, b, c, d, 0, 1, 0, 0, 0, 0);
    Select(a, b, c, d, 0, 0, 1, 0, 0, 0);
    Select(a, b, c, d, 0, 0, 0, 1, 0, 0);
    Select(a, b, c, d, 0, 0, 0, 0, 1, 0);
  }

  /** The name of an entry: the directories with colons between them and a slash behind,
      the language, behind their separators those of the territory, the codeset, the
      normalized codeset and the modifier whose bits are set, and the file. */
  lemma NameIs(par: Params, dirs: seq<Text>, mask: nat)
    requires mask < 16
    ensures Name(par, dirs, mask) ==
      DirPart(dirs) + par.language
      + (if mask / 4 % 2 == 1 then [95] + par.territory else [])
      + (if mask / 2 % 2 == 1 then [46] + par.codeset else [])
      + (if mask % 2 == 1 then [46] + par.normalizedCodeset else [])
      + (if mask / 8 == 1 then [64] + par.modifier else [])
      + [47] + par.filename
    ensures DirPart(dirs) ==
      if dirs == [] then [] else if |dirs| == 1 then dirs[0] + [47] else dirs[0] + [58] + DirPart(dirs[1..])
    ensures Dirs(par, dirs) == if par.language != [] && par.language[0] == 47 then [] else dirs
  {
    hide And;
    var a, b, c, d := BitTests(mask);
    assert mask / 2 == b + 2 * (c + 2 * d) && mask / 4 == c + 2 * d && mask / 8 == d;
    if |dirs| > 1 {
      assert dirs[0] + [COLON] + Join(dirs[1..]) + [SLASH] == dirs[0] + [58] + (Join(dirs[1..]) + [SLASH]);
    }
  }

  lemma SameBits(x: nat, y: nat)
    requires x < MASKS && y < MASKS
    requires And(x, 1) != 0 <==> And(y, 1) != 0
    requires And(x, 2) != 0 <==> And(y, 2) != 0
    requires And(x, 4) != 0 <==> And(y, 4) != 0
    requires And(x, 8) != 0 <==> And(y, 8) != 0
    ensures x == y
  {
    hide And;
    var a, b, c, d := BitTests(x);
    var e, f, g, h := BitTests(y);
  }

  /** The parts of the name that a mask stands for, by their lengths. */
  function PartsLength(par: Params, mask: nat): nat
  {
    |Part(mask, TERRITORY, UNDERSCORE, par.territory)| + |Part(mask, CODESET, DOT, par.codeset)|
    + |Part(mask, NORM_CODESET, DOT, par.normalizedCodeset)| + |Part(mask, MODIFIER, AT, par.modifier)|
  }

  lemma NameLength(par: Params, dirs: seq<Text>, mask: nat)
    ensures |Name(par, dirs, mask)| == |DirPart(dirs)| + |par.language| + PartsLength(par, mask) + 1 + |par.filename|
  {
    hide Part, DirPart;
  }

  lemma PartsShorter(par: Params, c: nat, mask: nat)
    requires c < MASKS && mask < MASKS && Sub(c, mask)
    ensures PartsLength(par, c) <= PartsLength(par, mask)
    ensures c != mask ==> PartsLength(par, c) < PartsLength(par, mask)
  {
    hide And, Sub;
    AndSub(c, mask, 1);
    AndSub(c, mask, 2);
    AndSub(c, mask, 4);
    AndSub(c, mask, 8);
    if c != mask {
      if (And(c, 1) == 0 <==> And(mask, 1) == 0) && (And(c, 2) == 0 <==> And(mask, 2) == 0)
         && (And(c, 4) == 0 <==> And(mask, 4) == 0) && (And(c, 8) == 0 <==> And(mask, 8) == 0) {
        SameBits(c, mask);
      }
    }
  }

  lemma {:induction false} JoinLonger(dirs: seq<Text>, dir: Text)
    requires dir in dirs
    ensures |dir| <= |Join(dirs)| && (|dirs| > 1 ==> |dir| < |Join(dirs)|)
  {
    if |dirs| > 1 && dir != dirs[0] {
      JoinLonger(dirs[1..], dir);
    }
  }

  /** The name of a fallback is shorter than the entry's, so that no entry falls back on
      itself, directly or through others. */
  lemma FallbackShorter(par: Params, dirs: seq<Text>, mask: nat, f: Fallback)
    requires mask < MASKS && f in Fallbacks(dirs, mask)
    ensures |Name(par, f.dirs, f.mask)| < |Name(par, dirs, mask)|
  {
    hide And, Sub, Name, PartsLength;
    FallbacksExactly(dirs, mask, f);
    NameLength(par, f.dirs, f.mask);
    NameLength(par, dirs, mask);
    PartsShorter(par, f.mask, mask);
    if |dirs| > 1 {
      JoinLonger(dirs, f.dirs[0]);
    }
  }

  // ------------------------------------------------------------------- the pool

  /** struct loaded_l10nfile; successors are indices of entries. */
  datatype Entry = Entry(filename: Text, decided: bool, successor: seq<nat>)

  /** The successors name some fallbacks, in order. */
  ghost predicate Names(entries: seq<Entry>, successor: seq<nat>, par: Params, fs: seq<Fallback>)
  {
    && |successor| == |fs|
    && forall i :: 0 <= i < |fs| ==>
         successor[i] < |entries| && entries[successor[i]].filename == Name(par, fs[i].dirs, fs[i].mask)
  }

  /** An entry was filled for some directories and mask. */
  ghost predicate Filled(entries: seq<Entry>, e: Entry, par: Params, dirs: seq<Text>, mask: nat)
  {
    && e.filename == Name(par, dirs, mask) && Names(entries, e.successor, par, Fallbacks(dirs, mask))
    && (e.decided <==> Decided(dirs, mask))
  }

  ghost predicate FilledSome(entries: seq<Entry>, e: Entry, par: Params)
  {
    exists dirs: seq<Text>, mask: nat :: mask < MASKS && Filled(entries, e, par, dirs, mask)
  }

  /** The entries only grow in number, and no name changes. */
  ghost predicate Grown(before: seq<Entry>, after: seq<Entry>)
  {
    |before| <= |after| && forall k :: 0 <= k < |before| ==> after[k].filename == before[k].filename
  }

  lemma NamesGrown(before: seq<Entry>, after: seq<Entry>, successor: seq<nat>, par: Params, fs: seq<Fallback>)
    requires Grown(before, after) && Names(before, successor, par, fs)
    ensures Names(after, successor, par, fs)
  {
    hide Name;
  }

  lemma FilledGrown(before: seq<Entry>, after: seq<Entry>, e: Entry, par: Params)
    requires Grown(before, after) && FilledSome(before, e, par)
    ensures FilledSome(after, e, par)
  {
    hide Grown, Names, Name, And, Fallbacks;
    var dirs: seq<Text>, mask: nat :| mask < MASKS && Filled(before, e, par, dirs, mask);
    NamesGrown(before, after, e.successor, par, Fallbacks(dirs, mask));
    assert Filled(after, e, par, dirs, mask);
  }

  /** The linked list: every entry, in strictly decreasing order of the names. */
  ghost predicate Ordered(entries: seq<Entry>, list: seq<nat>)
  {
    && (forall i :: 0 <= i < |list| ==> list[i] < |entries|)
    && (forall i, j :: 0 <= i < j < |list| ==> Less(entries[list[j]].filename, entries[list[i]].filename))
    && (forall k: nat :: k < |entries| ==> k in list)
  }

  /** Where the search for a name stops. */
  ghost predicate Place(entries: seq<Entry>, list: seq<nat>, name: Text, p: nat)
    requires Ordered(entries, list)
  {
    && p <= |list|
    && (forall i :: 0 <= i < p ==> Less(name, entries[list[i]].filename))
    && (forall i :: p <= i < |list| ==> Less(entries[list[i]].filename, name))
  }

  lemma InsertOrdered(entries: seq<Entry>, list: seq<nat>, e: Entry, p: nat)
    requires Ordered(entries, list) && Place(entries, list, e.filename, p)
    ensures Ordered(entries + [e], list[..p] + [|entries|] + list[p..])
  {
    hide Less;
    var entries', list' := entries + [e], list[..p] + [|entries|] + list[p..];
    forall k: nat | k < |entries'| ensures k in list' {
      if k < |entries| {
        assert k in list;
        var i :| 0 <= i < |list| && list[i] == k;
        assert list'[if i < p then i else i + 1] == k;
      } else {
        assert list'[p] == k;
      }
    }
  }

  class Pool {
    var entries: seq<Entry>
    var list: seq<nat>

    ghost predicate Valid()
      reads this
    {
      Ordered(entries, list)
    }

    constructor ()
      ensures Valid() && entries == [] && list == []
    {
      entries, list := [], [];
    }

    /** The search of the list; the early exit is sound because the list is sorted. */
    method Find(name: Text) returns (at: Option<nat>, p: nat)
      requires Valid()
      ensures at.Some? ==> at.value < |entries| && entries[at.value].filename == name
      ensures at.None? ==>
        Place(entries, list, name, p) && forall k :: 0 <= k < |entries| ==> entries[k].filename != name
    {
      p := 0;
      while p < |list|
        invariant p <= |list| && forall i :: 0 <= i < p ==> Less(name, entries[list[i]].filename)
      {
        var compare := Compare(entries[list[p]].filename, name);
        CompareLaws(entries[list[p]].filename, name);
        if compare == 0 {
          return Some(list[p]), p;
        }
        if compare < 0 {
          break;
        }
        p := p + 1;
      }
      at := None;
      NotThere(entries, list, name, p);
    }

    /** _nl_make_l10nflist. */
    method Make(par: Params, dirlist: seq<Text>, mask: nat, doAllocate: bool) returns (retval: Option<nat>)
      requires Valid() && mask < MASKS
      modifies this
      ensures Valid() && |entries| >= |old(entries)| && entries[..|old(entries)|] == old(entries)
      ensures var name := Name(par, Dirs(par, dirlist), mask);
        && (retval.Some? ==> retval.value < |entries| && entries[retval.value].filename == name)
        && (retval.None? ==> !doAllocate && forall k :: 0 <= k < |entries| ==> entries[k].filename != name)
      ensures !doAllocate ==> entries == old(entries) && list == old(list)
      ensures retval.Some? && retval.value >= |old(entries)| ==>
        Filled(entries, entries[retval.value], par, Dirs(par, dirlist), mask)
      ensures forall k :: |old(entries)| <= k < |entries| ==> FilledSome(entries, entries[k], par)
      decreases if |Dirs(par, dirlist)| > 1 then 1 else 0, mask, 2
    {
      hide And, Name, Names, Filled, FilledSome, Fallbacks, Ordered, Less, Making, Decided;
      var dirs := Dirs(par, dirlist);
      var p;
      retval, p := Find(Name(par, dirs, mask));
      if retval.Some? || !doAllocate {
        return;
      }
      var r := |entries|;
      var e := Entry(Name(par, dirs, mask), Decided(dirs, mask), []);
      InsertOrdered(entries, list, e, p);
      entries, list := entries + [e], list[..p] + [r] + list[p..];
      MakingStarts(entries, par, e, dirs, mask, r);
      FillIn(par, dirs, mask, r, e);
      MakingEnds(entries, par, e, dirs, mask, r);
      retval := Some(r);
    }

    /** Recurse to fill the fallbacks of the entry at index r. */
    method FillIn(par: Params, dirs: seq<Text>, mask: nat, r: nat, ghost e: Entry)
      requires Valid() && mask < MASKS && Dirs(par, dirs) == dirs && Making(entries, par, e, r, [])
      modifies this
      ensures Valid() && r < |entries| && |entries| >= |old(entries)| && entries[..r] == old(entries[..r])
      ensures Making(entries, par, e, r, Fallbacks(dirs, mask))
      decreases if |dirs| > 1 then 1 else 0, mask, 1
    {
      hide And, Name, Names, Filled, FilledSome, Ordered, Less, Making, Below, Allowed;
      var cnt := if |dirs| > 1 then mask else mask - 1;
      ghost var done := [];
      MakingIndex(entries, par, e, r, done);
      assert done + Below(dirs, mask, cnt + 1) == Fallbacks(dirs, mask);
      FallbacksFit(dirs, mask);
      while cnt >= 0
        invariant -1 <= cnt < First(dirs, mask)
        invariant Valid() && r < |entries| && |entries| >= |old(entries)| && entries[..r] == old(entries[..r])
        invariant Making(entries, par, e, r, done) && done + Below(dirs, mask, cnt + 1) == Fallbacks(dirs, mask)
        decreases cnt
      {
        BelowStep(dirs, mask, cnt, done);
        if Allowed(cnt, mask) {
          FillAt(par, dirs, mask, cnt, r, e, done);
          done := done + AtMask(dirs, cnt);
        }
        cnt := cnt - 1;
      }
      BelowEnd(dirs, mask, done);
    }

    /** The fallbacks of the entry at index r at one mask. */
    method FillAt(par: Params, dirs: seq<Text>, mask: nat, cnt: nat, r: nat, ghost e: Entry, ghost done: seq<Fallback>)
      requires Valid() && mask < MASKS && Dirs(par, dirs) == dirs && cnt < First(dirs, mask)
      requires Making(entries, par, e, r, done) && |done + AtMask(dirs, cnt)| < Capacity(dirs, mask)
      modifies this
      ensures Valid() && r < |entries| && |entries| >= |old(entries)| && entries[..r] == old(entries[..r])
      ensures Making(entries, par, e, r, done + AtMask(dirs, cnt))
      decreases if |dirs| > 1 then 1 else 0, mask, 0
    {
      hide And, Name, Names, Filled, FilledSome, Ordered, Less, Making, Below, Allowed, Capacity;
      MakingIndex(entries, par, e, r, done);
      if |dirs| > 1 {
        var i := 0;
        ghost var all := done;
        assert done == done + AtMask(dirs, cnt)[..0];
        while i < |dirs|
          invariant i <= |dirs| && all == done + AtMask(dirs, cnt)[..i]
          invariant Valid() && r < |entries| && |entries| >= |old(entries)| && entries[..r] == old(entries[..r])
          invariant Making(entries, par, e, r, all)
        {
          AddFallback(par, [dirs[i]], cnt, Capacity(dirs, mask), r, e, all);
          all := all + [Fallback([dirs[i]], cnt)];
          i := i + 1;
        }
        assert AtMask(dirs, cnt)[..i] == AtMask(dirs, cnt);
      } else {
        AddFallback(par, dirs, cnt, Capacity(dirs, mask), r, e, done);
      }
    }

    /** retval->successor[entries++] = ..., within the allocated array. */
    method AddFallback(par: Params, dirs: seq<Text>, cnt: nat, capacity: nat, r: nat, ghost e: Entry,
      ghost done: seq<Fallback>)
      requires Valid() && cnt < MASKS && Dirs(par, dirs) == dirs
      requires Making(entries, par, e, r, done) && |done| < capacity
      modifies this
      ensures Valid() && r < |entries| && |entries| >= |old(entries)| && entries[..r] == old(entries[..r])
      ensures Making(entries, par, e, r, done + [Fallback(dirs, cnt)])
      decreases if |dirs| > 1 then 1 else 0, cnt, 3
    {
      MakingIndex(entries, par, e, r, done);
      hide And, Name, Names, Filled, FilledSome, Ordered, Less, Making, Fallbacks;
      ghost var before := entries;
      var successor := Make(par, dirs, cnt, true);
      assert entries[r] == entries[..|before|][r];
      MakingIndex(before, par, e, r, done);
      assert |entries[r].successor| < capacity;
      MakingGoes(before, entries, par, e, r, done, Fallback(dirs, cnt), successor.value);
      OrderedSame(entries, list, r, entries[r].(successor := entries[r].successor + [successor.value]));
      entries := entries[r := entries[r].(successor := entries[r].successor + [successor.value])];
      assert entries[..r] == before[..r];
    }
  }

  lemma MakingIndex(entries: seq<Entry>, par: Params, e: Entry, n: nat, done: seq<Fallback>)
    requires Making(entries, par, e, n, done)
    ensures n < |entries| && |entries[n].successor| == |done|
  {
  }

  lemma OrderedSame(entries: seq<Entry>, list: seq<nat>, r: nat, e: Entry)
    requires Ordered(entries, list) && r < |entries| && e.filename == entries[r].filename
    ensures Ordered(entries[r := e], list)
  {
    hide Less;
  }

  lemma BelowStep(dirs: seq<Text>, mask: nat, cnt: nat, done: seq<Fallback>)
    requires done + Below(dirs, mask, cnt + 1) == Fallbacks(dirs, mask) && mask < MASKS
    ensures if Allowed(cnt, mask)
      then (done + AtMask(dirs, cnt)) + Below(dirs, mask, cnt) == Fallbacks(dirs, mask)
        && |done + AtMask(dirs, cnt)| < Capacity(dirs, mask)
      else done + Below(dirs, mask, cnt) == Fallbacks(dirs, mask)
  {
    hide Allowed, AtMask, Capacity, Fallbacks;
    FallbacksFit(dirs, mask);
    var now, more := if Allowed(cnt, mask) then AtMask(dirs, cnt) else [], Below(dirs, mask, cnt);
    assert Below(dirs, mask, cnt + 1) == now + more;
    hide *;
    Reassociate(done, now, more);
  }

  lemma Reassociate<X>(a: seq<X>, b: seq<X>, c: seq<X>)
    ensures a + (b + c) == (a + b) + c && a + [] == a
  {
  }

  lemma BelowEnd(dirs: seq<Text>, mask: nat, done: seq<Fallback>)
    requires done + Below(dirs, mask, 0) == Fallbacks(dirs, mask)
    ensures done == Fallbacks(dirs, mask)
  {
    assert done + [] == done;
  }

  /** An entry e at index n is being filled: its successors are the fallbacks done so
      far, and the entries made on the way are filled. */
  ghost predicate Making(entries: seq<Entry>, par: Params, e: Entry, n: nat, done: seq<Fallback>)
  {
    && n < |entries| && entries[n].filename == e.filename && entries[n].decided == e.decided
    && Names(entries, entries[n].successor, par, done)
    && forall k :: n < k < |entries| ==> FilledSome(entries, entries[k], par)
  }

  lemma MakingStarts(entries: seq<Entry>, par: Params, e: Entry, dirs: seq<Text>, mask: nat, n: nat)
    requires |entries| == n + 1 && entries[n] == e && e.successor == []
    ensures Making(entries, par, e, n, [])
    ensures [] + Below(dirs, mask, First(dirs, mask)) == Fallbacks(dirs, mask)
  {
  }

  lemma MakingGoes(before: seq<Entry>, after: seq<Entry>, par: Params, e: Entry, n: nat, done: seq<Fallback>,
    f: Fallback, successor: nat)
    requires Making(before, par, e, n, done) && |before| <= |after| && after[..|before|] == before
    requires successor < |after| && after[successor].filename == Name(par, f.dirs, f.mask)
    requires forall k :: |before| <= k < |after| ==> FilledSome(after, after[k], par)
    ensures var entries := after[n := after[n].(successor := after[n].successor + [successor])];
      Making(entries, par, e, n, done + [f])
  {
    hide Name, FilledSome;
    var entries := after[n := after[n].(successor := after[n].successor + [successor])];
    assert forall k :: 0 <= k < |before| ==> after[k] == before[k];
    NamesGrown(before, entries, before[n].successor, par, done);
    forall k | n < k < |entries| ensures FilledSome(entries, entries[k], par) {
      if k < |before| {
        FilledGrown(before, entries, before[k], par);
      } else {
        FilledGrown(after, entries, after[k], par);
      }
    }
  }

  lemma MakingEnds(entries: seq<Entry>, par: Params, e: Entry, dirs: seq<Text>, mask: nat, n: nat)
    requires mask < MASKS && Making(entries, par, e, n, Fallbacks(dirs, mask))
    requires e.filename == Name(par, dirs, mask) && e.decided == Decided(dirs, mask)
    ensures entries[n].filename == e.filename && Filled(entries, entries[n], par, dirs, mask)
    ensures forall k :: n <= k < |entries| ==> FilledSome(entries, entries[k], par)
  {
    hide Name, Names, Fallbacks;
    assert Filled(entries, entries[n], par, dirs, mask);
  }

  function Decided(dirs: seq<Text>, mask: nat): bool
  {
    |dirs| > 1 || (And(mask, CODESET) != 0 && And(mask, NORM_CODESET) != 0)
  }

  /** No file is looked for under the name of a list of directories, or under one with both
      codesets. */
  lemma DecidedIs(dirs: seq<Text>, mask: nat)
    requires mask < 16
    ensures Decided(dirs, mask) <==> |dirs| > 1 || (mask % 2 == 1 && mask / 2 % 2 == 1)
  {
    hide And;
    var a, b, c, d := BitTests(mask);
    assert mask / 2 == b + 2 * (c + 2 * d);
  }

  lemma NotThere(entries: seq<Entry>, list: seq<nat>, name: Text, p: nat)
    requires Ordered(entries, list) && p <= |list|
    requires forall i :: 0 <= i < p ==> Less(name, entries[list[i]].filename)
    requires p < |list| ==> Less(entries[list[p]].filename, name)
    ensures Place(entries, list, name, p) && forall k :: 0 <= k < |entries| ==> entries[k].filename != name
  {
    CompareLaws(name, name);
    hide Compare;
    forall i | p < i < |list| ensures Less(entries[list[i]].filename, name) {
      LessTrans(entries[list[i]].filename, entries[list[p]].filename, name);
    }
    forall k: nat | k < |entries| ensures entries[k].filename != name {
      assert k in list;
      var i :| 0 <= i < |list| && list[i] == k;
    }
  }
}
