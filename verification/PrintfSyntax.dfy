/**
 The syntax of printf conversion directives as printf-parse.c reads it (section
 7.19.6.1 of ISO/IEC 9899:1999 with POSIX positional arguments and the glibc flag
 I), and that reading and writing directives are inverse to each other.
 */
module PrintfSyntax {
  import opened DecimalDigits
  import opened Options

  const SIZE_MAX: nat := 0xffff_ffff_ffff_ffff

  datatype ArgType =
    | TNone | SChar | UChar | Short | UShort | TInt | UInt | LongInt | ULongInt | LongLongInt | ULongLongInt
    | Double | LongDouble | TChar | WideChar | TString | WideString | Pointer
    | CountSChar | CountShort | CountInt | CountLong | CountLongLong

  datatype Class = Digit | Flag | Size

  predicate In(cls: Class, c: char)
  {
    match cls
    case Digit => IsDigit(c)
    case Flag => c == '\'' || c == '-' || c == '+' || c == ' ' || c == '#' || c == '0' || c == 'I'
    case Size => c == 'h' || c == 'L' || c == 'l' || c == 'j' || c == 'z' || c == 'Z' || c == 't'
  }

  predicate All(cls: Class, s: string)
  {
    forall i :: 0 <= i < |s| ==> In(cls, s[i])
  }

  /** The first character, or the terminating NUL. */
  function Head(s: string): char
  {
    if s == [] then '\0' else s[0]
  }

  /** The length of the longest prefix in a class. */
  function Run(cls: Class, s: string): (n: nat)
    ensures n <= |s| && All(cls, s[..n]) && !In(cls, Head(s[n..]))
  {
    if s != [] && In(cls, s[0]) then
      var n := 1 + Run(cls, s[1..]);
      assert s[n..] == s[1..][n - 1..] && s[..n] == [s[0]] + s[1..][..n - 1];
      n
    else 0
  }

  lemma {:induction false} RunIs(cls: Class, run: string, rest: string)
    requires All(cls, run) && !In(cls, Head(rest))
    ensures Run(cls, run + rest) == |run|
  {
    if run == [] {
      assert run + rest == rest;
    } else {
      assert (run + rest)[1..] == run[1..] + rest;
      RunIs(cls, run[1..], rest);
    }
  }

  // ----------------------------------------------------------------- numbers

  /** xsum and xtimes. */
  function XSum(a: nat, b: nat): (r: nat)
    requires a <= SIZE_MAX && b <= SIZE_MAX
    ensures r <= SIZE_MAX
  {
    var sum := (a + b) % (SIZE_MAX + 1);
    if sum >= a then sum else SIZE_MAX
  }

  function XTimes(n: nat, size: nat): (r: nat)
    requires size > 0
    ensures r <= SIZE_MAX
  {
    if n <= SIZE_MAX / size then TimesBound(n, size); n * size else SIZE_MAX
  }

  lemma TimesBound(n: nat, size: nat)
    requires size > 0 && n <= SIZE_MAX / size
    ensures n * size <= SIZE_MAX
  {
    var q := SIZE_MAX / size;
    assert q * size <= SIZE_MAX;
    assert n * size <= q * size;
  }

  /** Digits read with xsum and xtimes denote their number, or SIZE_MAX if that does
      not fit. */
  lemma Saturates(n: nat, d: nat)
    requires d < 10
    ensures var m := if n < SIZE_MAX then n else SIZE_MAX;
      XSum(XTimes(m, 10), d) == if n * 10 + d < SIZE_MAX then n * 10 + d else SIZE_MAX
  {
  }

  // ---------------------------------------------------------- argument types

  /** The int flags that the size specifiers accumulate to, where intmax_t, size_t
      and ptrdiff_t are as wide as long. */
  function SizeFlags(size: string): (flags: nat)
  {
    if size == [] then 0
    else
      var flags, c := SizeFlags(size[..|size| - 1]), size[|size| - 1];
      AddSize(flags, c)
  }

  function AddSize(flags: nat, c: char): nat
  {
    if c == 'h' then Or(flags, if flags % 2 == 0 then 1 else 2)
    else if c == 'L' then Or(flags, 4)
    else flags + 8
  }

  /** flags | bit, for one of the three low bits. */
  function Or(flags: nat, bit: nat): nat
    requires bit in {1, 2, 4}
  {
    if flags / bit % 2 == 1 then flags else flags + bit
  }

  /** The type of the argument of a conversion; TNone for %%, None for an error. */
  function TypeOf(conv: char, flags: nat): Option<ArgType>
  {
    var longlong, long, hh, h := flags >= 16 || flags / 4 % 2 == 1, flags >= 8, flags / 2 % 2 == 1, flags % 2 == 1;
    match conv
    case 'd' => Some(Integer(longlong, long, hh, h, LongLongInt, LongInt, SChar, Short, TInt))
    case 'i' => Some(Integer(longlong, long, hh, h, LongLongInt, LongInt, SChar, Short, TInt))
    case 'o' => Some(Integer(longlong, long, hh, h, ULongLongInt, ULongInt, UChar, UShort, UInt))
    case 'u' => Some(Integer(longlong, long, hh, h, ULongLongInt, ULongInt, UChar, UShort, UInt))
    case 'x' => Some(Integer(longlong, long, hh, h, ULongLongInt, ULongInt, UChar, UShort, UInt))
    case 'X' => Some(Integer(longlong, long, hh, h, ULongLongInt, ULongInt, UChar, UShort, UInt))
    case 'f' => Some(if longlong then LongDouble else Double)
    case 'F' => Some(if longlong then LongDouble else Double)
    case 'e' => Some(if longlong then LongDouble else Double)
    case 'E' => Some(if longlong then LongDouble else Double)
    case 'g' => Some(if longlong then LongDouble else Double)
    case 'G' => Some(if longlong then LongDouble else Double)
    case 'a' => Some(if longlong then LongDouble else Double)
    case 'A' => Some(if longlong then LongDouble else Double)
    case 'c' => Some(if long then WideChar else TChar)
    case 'C' => Some(WideChar)
    case 's' => Some(if long then WideString else TString)
    case 'S' => Some(WideString)
    case 'p' => Some(Pointer)
    case 'n' => Some(Integer(longlong, long, hh, h, CountLongLong, CountLong, CountSChar, CountShort, CountInt))
    case '%' => Some(TNone)
    case _ => None
  }

  function Integer(longlong: bool, long: bool, hh: bool, h: bool,
    onLongLong: ArgType, onLong: ArgType, onHh: ArgType, onH: ArgType, plain: ArgType): ArgType
  {
    if longlong then onLongLong else if long then onLong else if hh then onHh else if h then onH else plain
  }

  /** The conversion stored in the directive. */
  function Conversion(conv: char): char
  {
    if conv == 'C' then 'c' else if conv == 'S' then 's' else conv
  }

  /** How many size specifiers there are: h, L, and the others. */
  datatype Sizes = Sizes(h: nat, big: nat, long: nat)

  function SizesOf(size: string): Sizes
  {
    if size == [] then Sizes(0, 0, 0)
    else
      var n, c := SizesOf(size[..|size| - 1]), size[|size| - 1];
      if c == 'h' then n.(h := n.h + 1) else if c == 'L' then n.(big := n.big + 1) else n.(long := n.long + 1)
  }

  /** h counts up to two, L up to one, the others count. */
  function FlagsFor(n: Sizes): nat
  {
    (if n.h == 0 then 0 else if n.h == 1 then 1 else 3) + (if n.big > 0 then 4 else 0) + 8 * n.long
  }

  lemma {:induction false} SizeFlagsCount(size: string)
    ensures SizeFlags(size) == FlagsFor(SizesOf(size))
  {
    if size != [] {
      SizeFlagsCount(size[..|size| - 1]);
      AddSizeCounts(SizesOf(size[..|size| - 1]), size[|size| - 1]);
    }
  }

  lemma AddSizeCounts(n: Sizes, c: char)
    ensures AddSize(FlagsFor(n), c) == FlagsFor(
        if c == 'h' then n.(h := n.h + 1) else if c == 'L' then n.(big := n.big + 1) else n.(long := n.long + 1))
  {
    var low := if n.h == 0 then 0 else if n.h == 1 then 1 else 3;
    var mid := if n.big > 0 then 1 else 0;
    FlagBits(low, mid, n.long);
  }

  lemma FlagBits(low: nat, mid: nat, long: nat)
    requires low < 4 && mid < 2
    ensures var flags := low + 4 * mid + 8 * long;
      flags % 2 == low % 2 && flags / 2 % 2 == low / 2 && flags / 4 % 2 == mid
  {
    var bit0, bit1 := low % 2, low / 2;
    HalfOf(bit0, bit1 + 2 * (mid + 2 * long));
    HalfOf(bit1, mid + 2 * long);
    HalfOf(mid, long);
    QuarterOf(low, mid + 2 * long);
  }

  lemma HalfOf(b: nat, x: nat)
    requires b < 2
    ensures (b + 2 * x) / 2 == x && (b + 2 * x) % 2 == b
  {
  }

  lemma QuarterOf(c: nat, x: nat)
    requires c < 4
    ensures (c + 4 * x) / 4 == x
  {
  }

  lemma FlagsMean(n: Sizes)
    ensures var flags := FlagsFor(n);
      && (flags % 2 == 1 <==> n.h > 0) && (flags / 2 % 2 == 1 <==> n.h > 1) && (flags / 4 % 2 == 1 <==> n.big > 0)
      && (flags >= 8 <==> n.long > 0) && (flags >= 16 <==> n.long > 1)
  {
    FlagBits(if n.h == 0 then 0 else if n.h == 1 then 1 else 3, if n.big > 0 then 1 else 0, n.long);
  }

  /** The length modifiers of section 7.19.6.1. */
  datatype Modifier = MPlain | MHh | MH | ML | MLl | MJ | MZ | MT | MBigL

  function ModifierText(m: Modifier): string
  {
    match m
    case MPlain => "" case MHh => "hh" case MH => "h" case ML => "l" case MLl => "ll"
    case MJ => "j" case MZ => "z" case MT => "t" case MBigL => "L"
  }

  /** The argument types of the conversions with the integer types of a modifier, where
      intmax_t, size_t and ptrdiff_t are as wide as long. */
  function StandardSigned(m: Modifier): Option<ArgType>
  {
    match m
    case MPlain => Some(TInt) case MHh => Some(SChar) case MH => Some(Short)
    case MLl => Some(LongLongInt) case MBigL => None
    case _ => Some(LongInt)
  }

  function StandardUnsigned(m: Modifier): Option<ArgType>
  {
    match m
    case MPlain => Some(UInt) case MHh => Some(UChar) case MH => Some(UShort)
    case MLl => Some(ULongLongInt) case MBigL => None
    case _ => Some(ULongInt)
  }

  function StandardCount(m: Modifier): Option<ArgType>
  {
    match m
    case MPlain => Some(CountInt) case MHh => Some(CountSChar) case MH => Some(CountShort)
    case MLl => Some(CountLongLong) case MBigL => None
    case _ => Some(CountLong)
  }

  function StandardFloating(m: Modifier): Option<ArgType>
  {
    match m
    case MPlain => Some(Double) case ML => Some(Double) case MBigL => Some(LongDouble)
    case _ => None
  }

  function StandardText(m: Modifier, plain: ArgType, wide: ArgType): Option<ArgType>
  {
    match m
    case MPlain => Some(plain) case ML => Some(wide)
    case _ => None
  }

  /** The type that section 7.19.6.1 gives the argument of a conversion with a length
      modifier, and POSIX the conversions C and S; None where it names none. */
  function StandardType(conv: char, m: Modifier): Option<ArgType>
  {
    match conv
    case 'd' => StandardSigned(m) case 'i' => StandardSigned(m)
    case 'o' => StandardUnsigned(m) case 'u' => StandardUnsigned(m)
    case 'x' => StandardUnsigned(m) case 'X' => StandardUnsigned(m)
    case 'f' => StandardFloating(m) case 'F' => StandardFloating(m)
    case 'e' => StandardFloating(m) case 'E' => StandardFloating(m)
    case 'g' => StandardFloating(m) case 'G' => StandardFloating(m)
    case 'a' => StandardFloating(m) case 'A' => StandardFloating(m)
    case 'c' => StandardText(m, TChar, WideChar)
    case 's' => StandardText(m, TString, WideString)
    case 'n' => StandardCount(m)
    case _ =>
      if m != MPlain then None
      else if conv == 'C' then Some(WideChar) else if conv == 'S' then Some(WideString)
      else if conv == 'p' then Some(Pointer) else if conv == '%' then Some(TNone)
      else None
  }

  /** Wherever the standard gives an argument a type, the parser gives it that type; and
      a character is a conversion for the parser, whatever the flags, exactly if it is
      one in the standard. */
  lemma StandardSizes(conv: char, m: Modifier, flags: nat)
    ensures StandardType(conv, m).Some? ==> TypeOf(conv, SizeFlags(ModifierText(m))) == StandardType(conv, m)
    ensures TypeOf(conv, flags).Some? <==> StandardType(conv, MPlain).Some?
  {
    ModifierSizes(m);
    SizeFlagsCount(ModifierText(m));
    hide SizeFlags, SizesOf, ModifierText;
  }

  lemma ModifierSizes(m: Modifier)
    ensures SizesOf(ModifierText(m)) ==
      match m
      case MPlain => Sizes(0, 0, 0) case MHh => Sizes(2, 0, 0) case MH => Sizes(1, 0, 0)
      case MLl => Sizes(0, 0, 2) case MBigL => Sizes(0, 1, 0) case _ => Sizes(0, 0, 1)
  {
    assert SizesOf("") == Sizes(0, 0, 0);
    var text := ModifierText(m);
    if |text| == 2 {
      assert text[..1] == [text[0]] && text[..1][..0] == "";
      assert SizesOf(text[..1]) == if text[0] == 'h' then Sizes(1, 0, 0) else Sizes(0, 0, 1);
    } else if |text| == 1 {
      assert text[..0] == "";
    }
  }

  /** With any sequence of size specifiers, as the parser takes them: L or two of the
      long kind stand for long long, one for long; else two h stand for char and one
      for short. */
  lemma AnySizes(conv: char, size: string)
    ensures var n, t := SizesOf(size), TypeOf(conv, SizeFlags(size)); var big := n.big > 0 || n.long >= 2;
      && (conv in "di" ==>
            t == Some(if big then LongLongInt else if n.long > 0 then LongInt
                      else if n.h > 1 then SChar else if n.h > 0 then Short else TInt))
      && (conv in "ouxX" ==>
            t == Some(if big then ULongLongInt else if n.long > 0 then ULongInt
                      else if n.h > 1 then UChar else if n.h > 0 then UShort else UInt))
      && (conv == 'n' ==>
            t == Some(if big then CountLongLong else if n.long > 0 then CountLong
                      else if n.h > 1 then CountSChar else if n.h > 0 then CountShort else CountInt))
      && (conv in "fFeEgGaA" ==> t == Some(if big then LongDouble else Double))
      && (conv == 'c' ==> t == Some(if n.long > 0 then WideChar else TChar))
      && (conv == 's' ==> t == Some(if n.long > 0 then WideString else TString))
      && (conv in "CSp%" ==> t == StandardType(conv, MPlain))
  {
    SizeFlagsCount(size);
    FlagsMean(SizesOf(size));
    hide SizeFlags, SizesOf, FlagsFor;
  }

  // --------------------------------------------------------------- directives

  /** A width or precision: absent, an argument (at a position, or the next one), or
      digits. */
  datatype Count = NoCount | Star(pos: Option<string>) | Fixed(digits: string)

  /** A directive by its parts, without the leading percent sign. */
  datatype Spec = Spec(pos: Option<string>, flags: string, width: Count, precision: Count, size: string, conv: char)

  /** A position is a number from 1 that a size_t holds, short of SIZE_MAX. */
  predicate GoodPos(pos: Option<string>)
  {
    pos.Some? ==> pos.value != [] && All(Digit, pos.value) && 0 < NumberOf(pos.value) < SIZE_MAX
  }

  predicate GoodWidth(w: Count)
  {
    match w
    case NoCount => true
    case Star(p) => GoodPos(p)
    case Fixed(d) => d != [] && All(Digit, d) && d[0] != '0'
  }

  predicate GoodPrecision(p: Count)
  {
    match p
    case NoCount => true
    case Star(p) => GoodPos(p)
    case Fixed(d) => All(Digit, d)
  }

  predicate Good(s: Spec)
  {
    && GoodPos(s.pos) && All(Flag, s.flags) && GoodWidth(s.width) && GoodPrecision(s.precision)
    && All(Size, s.size) && TypeOf(s.conv, SizeFlags(s.size)).Some?
  }

  function PosText(pos: Option<string>): string
  {
    if pos.Some? then pos.value + ['$'] else []
  }

  function CountText(c: Count): string
  {
    match c
    case NoCount => []
    case Star(p) => ['*'] + PosText(p)
    case Fixed(d) => d
  }

  function PrecisionText(c: Count): string
  {
    if c == NoCount then [] else ['.'] + CountText(c)
  }

  /** The text of a directive after the percent sign, before a rest. */
  function Written(s: Spec, rest: string): (text: string)
    ensures |text| > |rest|
  {
    PosText(s.pos) + (s.flags + (CountText(s.width) + (PrecisionText(s.precision) + (s.size + ([s.conv] + rest)))))
  }

  // ------------------------------------------------------------------ reading

  /** digits $ if it is there; None for a position that is 0 or too large. */
  function ReadPos(s: string): (r: Option<(Option<string>, string)>)
    ensures r.Some? ==> GoodPos(r.value.0) && s == PosText(r.value.0) + r.value.1
  {
    var n := Run(Digit, s);
    if n > 0 && Head(s[n..]) == '$' then
      assert s == (s[..n] + ['$']) + s[n + 1..];
      if 0 < NumberOf(s[..n]) < SIZE_MAX then Some((Some(s[..n]), s[n + 1..])) else None
    else
      assert s == [] + s;
      Some((None, s))
  }

  /** After a star. */
  function ReadStar(s: string): (r: Option<(Count, string)>)
    ensures r.Some? ==> r.value.0.Star? && GoodPos(r.value.0.pos) && s == PosText(r.value.0.pos) + r.value.1
  {
    match ReadPos(s)
    case None => None
    case Some((p, rest)) => Some((Star(p), rest))
  }

  function ReadWidth(s: string): Option<(Count, string)>
  {
    var n := Run(Digit, s);
    if Head(s) == '*' then ReadStar(s[1..])
    else if n > 0 then Some((Fixed(s[..n]), s[n..]))
    else Some((NoCount, s))
  }

  function ReadPrecision(s: string): Option<(Count, string)>
  {
    if Head(s) != '.' then Some((NoCount, s)) else ReadAfterPoint(s[1..])
  }

  function ReadAfterPoint(s: string): Option<(Count, string)>
  {
    var n := Run(Digit, s);
    if Head(s) == '*' then ReadStar(s[1..]) else Some((Fixed(s[..n]), s[n..]))
  }

  function ReadEnd(s: string): Option<(string, char, string)>
  {
    var n := Run(Size, s);
    var conv := Head(s[n..]);
    if TypeOf(conv, SizeFlags(s[..n])).None? then None else Some((s[..n], conv, s[n + 1..]))
  }

  /** The directive at the head of a text behind a percent sign, and what follows. */
  function ReadSpec(s: string): Option<(Spec, string)>
  {
    match ReadPos(s) case None => None
    case Some((pos, s1)) =>
      var n := Run(Flag, s1);
      match ReadWidth(s1[n..]) case None => None
      case Some((width, s2)) =>
        match ReadPrecision(s2) case None => None
        case Some((precision, s3)) =>
          match ReadEnd(s3) case None => None
          case Some((size, conv, rest)) => Some((Spec(pos, s1[..n], width, precision, size, conv), rest))
  }

  lemma StarRead(s: string)
    requires Head(s) == '*' && ReadStar(s[1..]).Some?
    ensures var (c, rest) := ReadStar(s[1..]).value; c.Star? && GoodPos(c.pos) && s == CountText(c) + rest
  {
    hide ReadStar, GoodPos, PosText;
    var (c, rest) := ReadStar(s[1..]).value;
    assert s == ['*'] + s[1..];
    assert s == (['*'] + PosText(c.pos)) + rest;
  }

  lemma WidthRead(s: string)
    requires ReadWidth(s).Some? && Head(s) != '0'
    ensures var (w, rest) := ReadWidth(s).value; GoodWidth(w) && s == CountText(w) + rest
  {
    hide Run, ReadStar, GoodPos, PosText;
    var n := Run(Digit, s);
    if Head(s) == '*' {
      StarRead(s);
    } else if n > 0 {
      assert s == s[..n] + s[n..];
    } else {
      assert s == [] + s;
    }
  }

  lemma PrecisionRead(s: string)
    requires ReadPrecision(s).Some?
    ensures var (p, rest) := ReadPrecision(s).value; GoodPrecision(p) && s == PrecisionText(p) + rest
  {
    hide ReadAfterPoint, GoodPrecision, CountText;
    if Head(s) == '.' {
      var (p, rest) := ReadAfterPoint(s[1..]).value;
      AfterPointRead(s[1..]);
      assert s == ['.'] + s[1..];
      assert s == (['.'] + CountText(p)) + rest;
    } else {
      assert s == [] + s;
      assert GoodPrecision(NoCount) by { PrecisionNone(); }
    }
  }

  lemma PrecisionNone()
    ensures GoodPrecision(NoCount)
  {
  }

  lemma AfterPointRead(s: string)
    requires ReadAfterPoint(s).Some?
    ensures var (p, rest) := ReadAfterPoint(s).value; p != NoCount && GoodPrecision(p) && s == CountText(p) + rest
  {
    hide Run, ReadStar, GoodPos, PosText;
    var n := Run(Digit, s);
    if Head(s) == '*' {
      StarRead(s);
    } else {
      assert s == s[..n] + s[n..];
    }
  }

  lemma EndRead(s: string)
    requires ReadEnd(s).Some?
    ensures var (size, conv, rest) := ReadEnd(s).value;
      All(Size, size) && TypeOf(conv, SizeFlags(size)).Some? && s == size + ([conv] + rest)
  {
    var n := Run(Size, s);
    assert s == s[..n] + s[n..];
    assert Head(s[n..]) != '\0';
    assert s[n..] == [s[n]] + s[n + 1..];
  }

  /** What is read is a good directive, and the text is that directive written out. */
  lemma ReadSound(s: string)
    requires ReadSpec(s).Some?
    ensures var (spec, rest) := ReadSpec(s).value; Good(spec) && s == Written(spec, rest)
  {
    hide Run, ReadWidth, ReadPrecision, ReadEnd, TypeOf, SizeFlags, ReadPos, PosText, CountText, PrecisionText;
    var (pos, s1) := ReadPos(s).value;
    var n := Run(Flag, s1);
    WidthRead(s1[n..]);
    var (width, s2) := ReadWidth(s1[n..]).value;
    PrecisionRead(s2);
    var (precision, s3) := ReadPrecision(s2).value;
    EndRead(s3);
    assert s1 == s1[..n] + s1[n..];
  }

  // ----------------------------------------------------- reading what is written

  /** A text does not begin with digits and a dollar sign. */
  predicate NoPos(s: string)
  {
    Head(s[Run(Digit, s)..]) != '$'
  }

  lemma PosReads(pos: Option<string>, rest: string)
    requires GoodPos(pos) && (pos.None? ==> NoPos(rest))
    ensures ReadPos(PosText(pos) + rest) == Some((pos, rest))
  {
    if pos.Some? {
      var s, d := PosText(pos) + rest, pos.value;
      assert s == d + (['$'] + rest);
      RunIs(Digit, d, ['$'] + rest);
      assert s[..|d|] == d && s[|d|..] == ['$'] + rest && s[|d| + 1..] == rest;
    } else {
      assert PosText(pos) + rest == rest;
    }
  }

  lemma StarReads(pos: Option<string>, rest: string)
    requires GoodPos(pos) && !In(Digit, Head(rest)) && Head(rest) != '$'
    ensures ReadStar(PosText(pos) + rest) == Some((Star(pos), rest))
  {
    assert Run(Digit, rest) == 0 && rest[0..] == rest;
    PosReads(pos, rest);
  }

  lemma WidthReads(w: Count, rest: string)
    requires GoodWidth(w) && !In(Digit, Head(rest)) && Head(rest) != '$' && (w.NoCount? ==> Head(rest) != '*')
    ensures ReadWidth(CountText(w) + rest) == Some((w, rest))
  {
    hide ReadStar, GoodPos, PosText;
    var s := CountText(w) + rest;
    match w
    case NoCount =>
      assert s == rest;
    case Star(p) =>
      assert s == ['*'] + (PosText(p) + rest);
      assert s[1..] == PosText(p) + rest;
      StarReads(p, rest);
    case Fixed(d) =>
      RunIs(Digit, d, rest);
      assert s[..|d|] == d && s[|d|..] == rest;
  }

  lemma AfterPointReads(p: Count, rest: string)
    requires p != NoCount && GoodPrecision(p) && !In(Digit, Head(rest)) && Head(rest) != '$' && Head(rest) != '*'
    ensures ReadAfterPoint(CountText(p) + rest) == Some((p, rest))
  {
    hide ReadStar, GoodPos, PosText;
    var s := CountText(p) + rest;
    match p
    case Star(q) =>
      assert s == ['*'] + (PosText(q) + rest);
      assert s[1..] == PosText(q) + rest;
      StarReads(q, rest);
    case Fixed(d) =>
      RunIs(Digit, d, rest);
      assert s[..|d|] == d && s[|d|..] == rest;
      if d != [] {
        assert In(Digit, d[0]);
      }
  }

  lemma PrecisionReads(p: Count, rest: string)
    requires GoodPrecision(p) && !In(Digit, Head(rest)) && Head(rest) != '$' && Head(rest) != '*' && Head(rest) != '.'
    ensures ReadPrecision(PrecisionText(p) + rest) == Some((p, rest))
  {
    hide ReadAfterPoint, GoodPrecision, CountText;
    var s := PrecisionText(p) + rest;
    if p == NoCount {
      assert s == rest;
    } else {
      assert s == ['.'] + (CountText(p) + rest);
      assert s[1..] == CountText(p) + rest;
      AfterPointReads(p, rest);
    }
  }

  lemma EndReads(size: string, conv: char, rest: string)
    requires All(Size, size) && TypeOf(conv, SizeFlags(size)).Some?
    ensures ReadEnd(size + ([conv] + rest)) == Some((size, conv, rest))
  {
    hide SizeFlags;
    var s := size + ([conv] + rest);
    ConvPlain(conv, SizeFlags(size));
    RunIs(Size, size, [conv] + rest);
    assert s[..|size|] == size && s[|size|..] == [conv] + rest && s[|size| + 1..] == rest;
  }

  /** A conversion character is in no class, and nothing else in a directive. */
  lemma ConvPlain(conv: char, flags: nat)
    requires TypeOf(conv, flags).Some?
    ensures !In(Digit, conv) && !In(Flag, conv) && !In(Size, conv) && conv != '$' && conv != '*' && conv != '.'
  {
  }

  /** The characters that end the run of digits at the head of a directive. */
  predicate Stops(s: string)
  {
    !In(Digit, Head(s)) && Head(s) != '$'
  }

  lemma {:induction false} NoPosIn(body: string, rest: string)
    requires '$' !in body && Stops(rest)
    ensures NoPos(body + rest)
  {
    var s := body + rest;
    if body == [] {
      assert s == rest && rest[0..] == rest;
    } else if In(Digit, body[0]) {
      assert s[1..] == body[1..] + rest;
      NoPosIn(body[1..], rest);
      var n := Run(Digit, s);
      assert s[n..] == s[1..][n - 1..];
    } else {
      assert s[0..] == s;
    }
  }

  /** A good directive that is written out is read back. */
  lemma ReadComplete(spec: Spec, rest: string)
    requires Good(spec)
    ensures ReadSpec(Written(spec, rest)) == Some((spec, rest))
  {
    hide Run, ReadWidth, ReadPrecision, ReadEnd, TypeOf, SizeFlags, ReadPos, GoodWidth, GoodPrecision, All, NoPos,
         PosText, GoodPos;
    var s4 := spec.size + ([spec.conv] + rest);
    var s3 := PrecisionText(spec.precision) + s4;
    var s2 := CountText(spec.width) + s3;
    EndReads(spec.size, spec.conv, rest);
    EndHead(spec, rest);
    PrecisionReads(spec.precision, s4);
    PrecisionHead(spec.precision, s4);
    WidthReads(spec.width, s3);
    WidthHead(spec.width, s3);
    var s1 := spec.flags + s2;
    if spec.pos.None? {
      NoPosHere(spec.flags, spec.width, s3);
    }
    PosReads(spec.pos, s1);
    RunIs(Flag, spec.flags, s2);
    assert s1[..|spec.flags|] == spec.flags && s1[|spec.flags|..] == s2;
  }

  lemma EndHead(spec: Spec, rest: string)
    requires Good(spec)
    ensures var h := Head(spec.size + ([spec.conv] + rest));
      !In(Digit, h) && !In(Flag, h) && h != '$' && h != '*' && h != '.'
  {
    hide SizeFlags;
    ConvPlain(spec.conv, SizeFlags(spec.size));
    if spec.size != [] {
      assert In(Size, spec.size[0]);
    }
  }

  lemma PrecisionHead(p: Count, s4: string)
    requires var h := Head(s4); !In(Digit, h) && !In(Flag, h) && h != '$' && h != '*'
    ensures var h := Head(PrecisionText(p) + s4); !In(Digit, h) && !In(Flag, h) && h != '$' && h != '*'
  {
    if p != NoCount {
      assert (PrecisionText(p) + s4)[0] == '.';
    }
  }

  lemma WidthHead(w: Count, s3: string)
    requires GoodWidth(w) && !In(Flag, Head(s3))
    ensures !In(Flag, Head(CountText(w) + s3))
  {
    match w
    case NoCount => assert CountText(w) + s3 == s3;
    case Star(_) =>
    case Fixed(d) => assert In(Digit, d[0]);
  }

  lemma NoPosHere(flags: string, w: Count, s3: string)
    requires All(Flag, flags) && GoodWidth(w) && Stops(s3)
    ensures NoPos(flags + (CountText(w) + s3))
  {
    match w
    case NoCount =>
      assert CountText(w) + s3 == s3;
      NoPosIn(flags, s3);
    case Star(p) =>
      NoPosIn(flags, CountText(w) + s3);
    case Fixed(d) =>
      assert flags + (CountText(w) + s3) == (flags + d) + s3;
      NoPosIn(flags + d, s3);
  }

  // --------------------------------------------------------- directives as text

  /** The parts of a directive's text behind the percent sign. */
  datatype Parts = Parts(pos: string, flags: string, width: string, precision: string, size: string, conv: char)

  /** Nothing, or digits and a dollar sign: a number from 1 that a size_t holds, short of
      its largest. */
  predicate IsPos(p: string)
  {
    p == "" || (p[|p| - 1] == '$' && IsPosNumber(p[..|p| - 1]))
  }

  predicate IsPosNumber(d: string)
  {
    d != "" && AllDigits(d) && 0 < NumberOf(d) < 0xffff_ffff_ffff_ffff
  }

  predicate IsWidth(w: string)
  {
    w == "" || if w[0] == '*' then IsPos(w[1..]) else AllDigits(w) && w[0] != '0'
  }

  predicate IsPrecision(p: string)
  {
    p == "" || (p[0] == '.' && if |p| > 1 && p[1] == '*' then IsPos(p[2..]) else AllDigits(p[1..]))
  }

  predicate IsDirective(p: Parts)
  {
    && IsPos(p.pos) && (forall i :: 0 <= i < |p.flags| ==> p.flags[i] in "'-+ #0I")
    && IsWidth(p.width) && IsPrecision(p.precision)
    && (forall i :: 0 <= i < |p.size| ==> p.size[i] in "hLljzZt") && p.conv in "diouxXfFeEgGaAcCsSpn%"
  }

  function PartsText(p: Parts): string
  {
    p.pos + p.flags + p.width + p.precision + p.size + [p.conv]
  }

  function PosOf(p: string): Option<string>
  {
    if p == "" then None else Some(p[..|p| - 1])
  }

  function WidthOf(w: string): Count
  {
    if w == "" then NoCount else if w[0] == '*' then Star(PosOf(w[1..])) else Fixed(w)
  }

  function PrecisionOf(p: string): Count
  {
    if p == "" then NoCount else if |p| > 1 && p[1] == '*' then Star(PosOf(p[2..])) else Fixed(p[1..])
  }

  function SpecOf(p: Parts): Spec
  {
    Spec(PosOf(p.pos), p.flags, WidthOf(p.width), PrecisionOf(p.precision), p.size, p.conv)
  }

  function PartsOf(s: Spec): Parts
  {
    Parts(PosText(s.pos), s.flags, CountText(s.width), PrecisionText(s.precision), s.size, s.conv)
  }

  lemma PosParts(p: string)
    requires IsPos(p)
    ensures GoodPos(PosOf(p)) && PosText(PosOf(p)) == p
  {
  }

  lemma PosIsPart(pos: Option<string>)
    requires GoodPos(pos)
    ensures IsPos(PosText(pos)) && PosOf(PosText(pos)) == pos
  {
    if pos.Some? {
      assert PosText(pos)[..|pos.value|] == pos.value;
    }
  }

  lemma CountParts(w: string, p: string)
    ensures IsWidth(w) ==> GoodWidth(WidthOf(w)) && CountText(WidthOf(w)) == w
    ensures IsPrecision(p) ==> GoodPrecision(PrecisionOf(p)) && PrecisionText(PrecisionOf(p)) == p
  {
    hide GoodPos, PosText, PosOf, IsPos;
    if IsWidth(w) && w != "" && w[0] == '*' {
      PosParts(w[1..]);
      assert w == ['*'] + w[1..];
    }
    if IsPrecision(p) && p != "" {
      if |p| > 1 && p[1] == '*' {
        PosParts(p[2..]);
        assert p == ['.'] + (['*'] + p[2..]);
      } else {
        assert p == ['.'] + p[1..];
      }
    }
  }

  lemma CountIsPart(w: Count, p: Count)
    ensures GoodWidth(w) ==> IsWidth(CountText(w)) && WidthOf(CountText(w)) == w
    ensures GoodPrecision(p) ==> IsPrecision(PrecisionText(p)) && PrecisionOf(PrecisionText(p)) == p
  {
    hide GoodPos, PosText, PosOf, IsPos;
    if GoodWidth(w) {
      if w.Star? {
        PosIsPart(w.pos);
        assert CountText(w)[1..] == PosText(w.pos);
      } else if w.Fixed? {
        assert In(Digit, w.digits[0]);
      }
    }
    if GoodPrecision(p) && p != NoCount {
      var text := PrecisionText(p);
      if p.Star? {
        PosIsPart(p.pos);
        assert text[2..] == PosText(p.pos);
      } else {
        assert text[1..] == p.digits;
        if p.digits != "" {
          assert In(Digit, p.digits[0]);
        }
      }
    }
  }

  /** The classes and conversions, character by character. */
  lemma Characters(c: char, flags: nat)
    ensures In(Flag, c) <==> c in "'-+ #0I"
    ensures In(Size, c) <==> c in "hLljzZt"
    ensures TypeOf(c, flags).Some? <==> c in "diouxXfFeEgGaAcCsSpn%"
  {
  }

  lemma GoodIsDirective(s: Spec)
    requires Good(s)
    ensures IsDirective(PartsOf(s)) && SpecOf(PartsOf(s)) == s
  {
    hide In, TypeOf, SizeFlags, IsWidth, IsPrecision, GoodWidth, GoodPrecision, IsPos, GoodPos, PosOf, WidthOf,
         PrecisionOf, PosText, CountText, PrecisionText;
    PosIsPart(s.pos);
    CountIsPart(s.width, s.precision);
    Characters(s.conv, SizeFlags(s.size));
    forall i | 0 <= i < |s.flags| ensures s.flags[i] in "'-+ #0I" {
      Characters(s.flags[i], 0);
    }
    forall i | 0 <= i < |s.size| ensures s.size[i] in "hLljzZt" {
      Characters(s.size[i], 0);
    }
  }

  lemma DirectiveIsGood(p: Parts)
    requires IsDirective(p)
    ensures Good(SpecOf(p)) && PartsOf(SpecOf(p)) == p
  {
    hide In, TypeOf, SizeFlags, IsWidth, IsPrecision, GoodWidth, GoodPrecision, IsPos, GoodPos, PosOf, WidthOf,
         PrecisionOf, PosText, CountText, PrecisionText;
    PosParts(p.pos);
    CountParts(p.width, p.precision);
    Characters(p.conv, SizeFlags(p.size));
    forall i | 0 <= i < |p.flags| ensures In(Flag, p.flags[i]) {
      Characters(p.flags[i], 0);
    }
    forall i | 0 <= i < |p.size| ensures In(Size, p.size[i]) {
      Characters(p.size[i], 0);
    }
  }

  lemma WrittenIs(s: Spec, rest: string)
    ensures Written(s, rest) == PartsText(PartsOf(s)) + rest
  {
    hide PosText, CountText, PrecisionText;
    var p := PartsOf(s);
    Regroup(p.pos, p.flags, p.width, p.precision, p.size, [p.conv], rest);
  }

  lemma Regroup(a: string, b: string, c: string, d: string, e: string, f: string, g: string)
    ensures a + (b + (c + (d + (e + (f + g))))) == a + b + c + d + e + f + g
  {
  }

  /** Every text of a directive is read, as those parts and no others. */
  lemma DirectiveReads(p: Parts, rest: string)
    requires IsDirective(p)
    ensures ReadSpec(PartsText(p) + rest) == Some((SpecOf(p), rest))
  {
    DirectiveIsGood(p);
    WrittenIs(SpecOf(p), rest);
    hide *;
    ReadComplete(SpecOf(p), rest);
  }

  /** Only the text of a directive is read. */
  lemma ReadIsDirective(s: string)
    requires ReadSpec(s).Some?
    ensures var (spec, rest) := ReadSpec(s).value;
      IsDirective(PartsOf(spec)) && SpecOf(PartsOf(spec)) == spec && s == PartsText(PartsOf(spec)) + rest
  {
    var (spec, rest) := ReadSpec(s).value;
    ReadSound(s);
    hide *;
    GoodIsDirective(spec);
    WrittenIs(spec, rest);
  }
}
