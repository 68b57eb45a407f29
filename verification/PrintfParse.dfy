/**
 PRINTF_PARSE (printf-parse.c): which format strings it accepts, the directives and
 argument types it finds, and that the formatter can rely on them.
 */
module PrintfParse {
  import opened DecimalDigits
  import opened Options
  import opened PrintfSyntax

  // ------------------------------------------------------------------ formats

  /** A directive of a format: its text goes from start to end. */
  datatype Item = Item(start: nat, spec: Spec, end: nat)

  /** The directives of the rest s of a format, which begins at a position; None if
      some percent sign does not begin a directive. */
  function Read(s: string, at: nat): Option<seq<Item>>
    decreases |s|
  {
    if s == [] then Some([])
    else if s[0] != '%' then Read(s[1..], at + 1)
    else
      match ReadSpec(s[1..]) case None => None
      case Some((spec, rest)) =>
        ReadSound(s[1..]);
        var end := at + |s| - |rest|;
        match Read(rest, end) case None => None
        case Some(more) => Some([Item(at, spec, end)] + more)
  }

  /** Directives written out, with literal text before each and after the last. */
  function Format(lits: seq<string>, specs: seq<Spec>): string
    requires |lits| == |specs| + 1
    decreases |specs|
  {
    if specs == [] then lits[0]
    else lits[0] + (['%'] + Written(specs[0], Format(lits[1..], specs[1..])))
  }

  ghost predicate GoodFormat(lits: seq<string>, specs: seq<Spec>)
  {
    && |lits| == |specs| + 1
    && (forall i :: 0 <= i < |lits| ==> '%' !in lits[i])
    && (forall i :: 0 <= i < |specs| ==> Good(specs[i]))
  }

  function Specs(items: seq<Item>): (specs: seq<Spec>)
    ensures |specs| == |items| && forall i :: 0 <= i < |items| ==> specs[i] == items[i].spec
  {
    seq(|items|, i requires 0 <= i < |items| => items[i].spec)
  }

  lemma {:induction false} ReadLiteral(lit: string, rest: string, at: nat)
    requires '%' !in lit
    ensures Read(lit + rest, at) == Read(rest, at + |lit|)
    decreases |lit|
  {
    hide ReadSpec;
    if lit == [] {
      assert lit + rest == rest;
    } else {
      assert (lit + rest)[1..] == lit[1..] + rest;
      ReadLiteral(lit[1..], rest, at + 1);
    }
  }

  /** Every format that is written from literal text and good directives is read, and
      the directives are the ones written. */
  lemma {:induction false} FormatReads(lits: seq<string>, specs: seq<Spec>, at: nat)
    requires GoodFormat(lits, specs)
    ensures var r := Read(Format(lits, specs), at); r.Some? && Specs(r.value) == specs
    decreases |specs|
  {
    hide ReadSpec, Written, Good;
    if specs == [] {
      assert lits[0] == lits[0] + [];
      ReadLiteral(lits[0], [], at);
    } else {
      var rest := Format(lits[1..], specs[1..]);
      var s := ['%'] + Written(specs[0], rest);
      ReadLiteral(lits[0], s, at);
      assert s[1..] == Written(specs[0], rest);
      ReadComplete(specs[0], rest);
      FormatReads(lits[1..], specs[1..], at + |lits[0]| + |s| - |rest|);
    }
  }

  /** Every format that is read is literal text and good directives. */
  lemma {:induction false} ReadIsFormat(s: string, at: nat) returns (lits: seq<string>)
    requires Read(s, at).Some?
    ensures GoodFormat(lits, Specs(Read(s, at).value)) && s == Format(lits, Specs(Read(s, at).value))
    decreases |s|
  {
    hide ReadSpec, Written, Good;
    var items := Read(s, at).value;
    if s == [] {
      lits := [[]];
    } else if s[0] != '%' {
      var more := ReadIsFormat(s[1..], at + 1);
      lits := [[s[0]] + more[0]] + more[1..];
      assert lits[1..] == more[1..];
      assert s == [s[0]] + s[1..];
      if items == [] {
        assert Format(lits, Specs(items)) == [s[0]] + more[0];
      } else {
        FormatPush(s[0], more, Specs(items));
      }
    } else {
      ReadSound(s[1..]);
      var (spec, rest) := ReadSpec(s[1..]).value;
      var more := ReadIsFormat(rest, at + |s| - |rest|);
      lits := [[]] + more;
      assert lits[1..] == more;
      assert Specs(items)[1..] == Specs(Read(rest, at + |s| - |rest|).value);
      assert s == ['%'] + s[1..];
      assert [] + (['%'] + Written(spec, rest)) == ['%'] + Written(spec, rest);
    }
  }

  lemma FormatPush(c: char, more: seq<string>, specs: seq<Spec>)
    requires |more| == |specs| + 1 && specs != []
    ensures Format([[c] + more[0]] + more[1..], specs) == [c] + Format(more, specs)
  {
    hide Written;
    var lits := [[c] + more[0]] + more[1..];
    assert lits[1..] == more[1..];
    var w := ['%'] + Written(specs[0], Format(more[1..], specs[1..]));
    assert ([c] + more[0]) + w == [c] + (more[0] + w);
  }

  /** The directives are disjoint slices of the format in ascending order, each is its
      directive written out, and what lies between them is literal. */
  ghost predicate Tiles(text: string, items: seq<Item>, from: nat)
  {
    if items == [] then from <= |text| && '%' !in text[from..]
    else
      var it := items[0];
      && from <= it.start < it.end <= |text|
      && '%' !in text[from..it.start]
      && text[it.start..it.end] == ['%'] + Written(it.spec, [])
      && Tiles(text, items[1..], it.end)
  }

  lemma {:induction false} ReadTiles(text: string, at: nat, from: nat)
    requires from <= at <= |text| && '%' !in text[from..at] && Read(text[at..], at).Some?
    ensures Tiles(text, Read(text[at..], at).value, from)
    decreases |text| - at
  {
    hide ReadSpec, Written;
    var s := text[at..];
    if s != [] {
      assert s[1..] == text[at + 1..];
      if s[0] != '%' {
        assert text[from..at + 1] == text[from..at] + [s[0]];
        ReadTiles(text, at + 1, from);
      } else {
        ReadSound(s[1..]);
        var (spec, rest) := ReadSpec(s[1..]).value;
        var end := at + |s| - |rest|;
        WrittenEnd(spec, rest);
        var w := Written(spec, []);
        assert s == (['%'] + w) + rest;
        assert rest == text[end..] && text[at..end] == ['%'] + w;
        ReadTiles(text, end, end);
      }
    } else {
      assert text[from..] == text[from..at];
    }
  }

  lemma WrittenEnd(spec: Spec, rest: string)
    ensures Written(spec, rest) == Written(spec, []) + rest
  {
    hide PosText, CountText, PrecisionText;
    var p, f, w, q, z := PosText(spec.pos), spec.flags, CountText(spec.width), PrecisionText(spec.precision), spec.size;
    assert [spec.conv] + rest == ([spec.conv] + []) + rest;
    var c := [spec.conv] + [];
    Assoc(z, c, rest);
    Assoc(q, z + c, rest);
    Assoc(w, q + (z + c), rest);
    Assoc(f, w + (q + (z + c)), rest);
    Assoc(p, f + (w + (q + (z + c))), rest);
  }

  lemma Assoc(a: string, b: string, c: string)
    ensures a + (b + c) == (a + b) + c
  {
  }

  // ---------------------------------------------------------------- arguments

  /** A directive's use of an argument. */
  datatype Use = Use(index: nat, argType: ArgType)

  /** Arguments without a position are numbered in order: the index of an argument
      and the number of the next. */
  function ArgIndex(pos: Option<string>, posn: nat): (nat, nat)
    requires GoodPos(pos)
  {
    if pos.Some? then (NumberOf(pos.value) - 1, posn) else (posn, posn + 1)
  }

  function CountIndex(c: Count, posn: nat): (Option<nat>, nat)
    requires c.Star? ==> GoodPos(c.pos)
  {
    if c.Star? then (Some(ArgIndex(c.pos, posn).0), ArgIndex(c.pos, posn).1) else (None, posn)
  }

  /** The arguments of a directive: width, precision, value, and the next number. */
  datatype Args = Args(width: Option<nat>, precision: Option<nat>, arg: Option<nat>, next: nat)

  function SpecType(spec: Spec): ArgType
    requires Good(spec)
  {
    TypeOf(spec.conv, SizeFlags(spec.size)).value
  }

  function ArgsOf(spec: Spec, posn: nat): Args
    requires Good(spec)
  {
    var (w, p1) := CountIndex(spec.width, posn);
    var (p, p2) := CountIndex(spec.precision, p1);
    if SpecType(spec) == TNone then Args(w, p, None, p2)
    else Args(w, p, Some(ArgIndex(spec.pos, p2).0), ArgIndex(spec.pos, p2).1)
  }

  function OptUse(index: Option<nat>, t: ArgType): seq<Use>
  {
    if index.Some? then [Use(index.value, t)] else []
  }

  function SpecUses(spec: Spec, posn: nat): seq<Use>
    requires Good(spec)
  {
    var a := ArgsOf(spec, posn);
    OptUse(a.width, TInt) + OptUse(a.precision, TInt) + OptUse(a.arg, SpecType(spec))
  }

  ghost predicate GoodItems(items: seq<Item>)
  {
    forall i :: 0 <= i < |items| ==> Good(items[i].spec)
  }

  /** The number of the next argument after some directives. */
  ghost function Posn(items: seq<Item>): nat
    requires GoodItems(items)
  {
    if items == [] then 0 else ArgsOf(items[|items| - 1].spec, Posn(items[..|items| - 1])).next
  }

  ghost function UsesOf(items: seq<Item>): seq<Use>
    requires GoodItems(items)
  {
    if items == [] then []
    else
      var front := items[..|items| - 1];
      UsesOf(front) + SpecUses(items[|items| - 1].spec, Posn(front))
  }

  /** No argument is used with two types. */
  ghost predicate Consistent(uses: seq<Use>)
  {
    forall u, v :: u in uses && v in uses && u.index == v.index ==> u.argType == v.argType
  }

  /** No index is the value that stands for no argument. */
  ghost predicate InRange(uses: seq<Use>)
  {
    forall u :: u in uses ==> u.index != SIZE_MAX
  }

  /** The types that a->arg holds for some uses: each used argument has its type, all
      others have none, and the last one is used. */
  ghost predicate TableFor(t: seq<ArgType>, uses: seq<Use>)
  {
    && (forall u :: u in uses ==> u.argType != TNone && u.index < |t| && t[u.index] == u.argType)
    && (forall k :: 0 <= k < |t| && t[k] != TNone ==> Use(k, t[k]) in uses)
    && (t != [] ==> t[|t| - 1] != TNone)
  }

  /** The table is determined by the uses. */
  lemma TableUnique(s: seq<ArgType>, t: seq<ArgType>, uses: seq<Use>)
    requires TableFor(s, uses) && TableFor(t, uses)
    ensures s == t && Consistent(uses)
  {
    if |s| > 0 {
      assert Use(|s| - 1, s[|s| - 1]) in uses;
    }
    if |t| > 0 {
      assert Use(|t| - 1, t[|t| - 1]) in uses;
    }
    forall k | 0 <= k < |s| ensures s[k] == t[k] {
      if s[k] != TNone {
        assert Use(k, s[k]) in uses;
      } else if t[k] != TNone {
        assert Use(k, t[k]) in uses;
      }
    }
  }

  // --------------------------------------------------------------- directives

  /** What is stored for a directive. */
  datatype Directive = Directive(
    dirStart: nat, dirEnd: nat, flags: set<char>,
    width: Option<(nat, nat)>, widthArg: Option<nat>,
    precision: Option<(nat, nat)>, precisionArg: Option<nat>,
    conversion: char, argIndex: Option<nat>)

  function FlagSet(flags: string): set<char>
  {
    set c | c in flags
  }

  /** Where the width and the precision stand; an argument's position is not part. */
  function CountSlice(c: Count, from: nat, point: nat): Option<(nat, nat)>
  {
    match c
    case NoCount => None
    case Star(_) => Some((from, from + point + 1))
    case Fixed(d) => Some((from, from + point + |d|))
  }

  function DirectiveOf(it: Item, posn: nat): Directive
    requires Good(it.spec)
  {
    var a := ArgsOf(it.spec, posn);
    var w := it.start + 1 + |PosText(it.spec.pos)| + |it.spec.flags|;
    var p := w + |CountText(it.spec.width)|;
    Directive(it.start, it.end, FlagSet(it.spec.flags),
              CountSlice(it.spec.width, w, 0), a.width, CountSlice(it.spec.precision, p, 1), a.precision,
              Conversion(it.spec.conv), a.arg)
  }

  ghost function Directives(items: seq<Item>): (ds: seq<Directive>)
    requires GoodItems(items)
    ensures |ds| == |items|
  {
    if items == [] then []
    else
      var front := items[..|items| - 1];
      Directives(front) + [DirectiveOf(items[|items| - 1], Posn(front))]
  }

  /** The format strings that are accepted. */
  ghost predicate Acceptable(text: string)
  {
    match Read(text, 0)
    case None => false
    case Some(items) => GoodItems(items) && Consistent(UsesOf(items)) && InRange(UsesOf(items))
  }

  lemma {:induction false} ReadGood(s: string, at: nat)
    requires Read(s, at).Some?
    ensures GoodItems(Read(s, at).value)
    decreases |s|
  {
    hide ReadSpec, Good;
    if s != [] {
      if s[0] != '%' {
        ReadGood(s[1..], at + 1);
      } else {
        ReadSound(s[1..]);
        var (spec, rest) := ReadSpec(s[1..]).value;
        ReadGood(rest, at + |s| - |rest|);
      }
    }
  }

  // ------------------------------------------------------- what the formatter needs

  predicate IsCount(t: ArgType)
  {
    t in {CountSChar, CountShort, CountInt, CountLong, CountLongLong}
  }

  /** The types for which the formatter has a case at a conversion, so that it does
      not abort and reads the member of the argument that was stored. */
  predicate HasCase(conv: char, t: ArgType)
  {
    if conv == 'n' then IsCount(t)
    else if conv in "fFeEgGaA" then t in {Double, LongDouble}
    else if conv in "di" then t in {SChar, Short, TInt, LongInt, LongLongInt}
    else if conv in "ouxX" then t in {UChar, UShort, UInt, ULongInt, ULongLongInt}
    else if conv == 'c' then t in {TChar, WideChar}
    else if conv == 's' then t in {TString, WideString}
    else conv == 'p' && t == Pointer
  }

  predicate IsInt(index: Option<nat>, arg: seq<ArgType>)
  {
    index.Some? ==> index.value < |arg| && arg[index.value] == TInt
  }

  /** The formatter's abort() calls on the directive and its argument types are not
      reached. */
  predicate Safe(dp: Directive, arg: seq<ArgType>)
  {
    && (dp.conversion == '%' <==> dp.argIndex.None?)
    && (dp.argIndex.Some? ==> dp.argIndex.value < |arg| && HasCase(dp.conversion, arg[dp.argIndex.value]))
    && IsInt(dp.widthArg, arg) && IsInt(dp.precisionArg, arg)
    && (dp.widthArg.Some? ==> dp.width.Some?) && (dp.precisionArg.Some? ==> dp.precision.Some?)
  }

  lemma TypeCases(conv: char, flags: nat)
    requires TypeOf(conv, flags).Some?
    ensures conv == '%' <==> TypeOf(conv, flags).value == TNone
    ensures Conversion(conv) == '%' <==> conv == '%'
    ensures conv != '%' ==> HasCase(Conversion(conv), TypeOf(conv, flags).value)
  {
  }

  lemma SpecSafe(it: Item, posn: nat, arg: seq<ArgType>)
    requires Good(it.spec)
    requires forall u :: u in SpecUses(it.spec, posn) ==> u.index < |arg| && arg[u.index] == u.argType
    ensures Safe(DirectiveOf(it, posn), arg)
  {
    hide TypeOf, SizeFlags, HasCase, Conversion, NumberOf;
    TypeCases(it.spec.conv, SizeFlags(it.spec.size));
    var a := ArgsOf(it.spec, posn);
    if a.width.Some? {
      assert Use(a.width.value, TInt) in SpecUses(it.spec, posn);
    }
    if a.precision.Some? {
      assert Use(a.precision.value, TInt) in SpecUses(it.spec, posn);
    }
    if a.arg.Some? {
      assert Use(a.arg.value, SpecType(it.spec)) in SpecUses(it.spec, posn);
    }
  }

  /** What the parser leaves behind satisfies the formatter. */
  lemma {:induction false} AllSafe(items: seq<Item>, arg: seq<ArgType>)
    requires GoodItems(items)
    requires forall u :: u in UsesOf(items) ==> u.index < |arg| && arg[u.index] == u.argType
    ensures forall i :: 0 <= i < |items| ==> Safe(Directives(items)[i], arg)
  {
    hide Good, SpecUses, DirectiveOf, Safe;
    if items != [] {
      var front := items[..|items| - 1];
      AllSafe(front, arg);
      SpecSafe(items[|items| - 1], Posn(front), arg);
    }
  }

  // -------------------------------------------------------------- the program

  /** The arguments structure. */
  class Arguments {
    var arg: seq<ArgType>

    constructor ()
      ensures arg == []
    {
      arg := [];
    }

    /** REGISTER_ARG. */
    method Register(n: nat, t: ArgType, ghost uses: seq<Use>) returns (ok: bool)
      requires TableFor(arg, uses) && t != TNone
      modifies this
      ensures ok <==> Consistent(uses + [Use(n, t)])
      ensures ok ==> TableFor(arg, uses + [Use(n, t)])
    {
      hide TableFor, Consistent;
      ghost var start := arg;
      while |arg| <= n
        invariant |start| <= |arg| && (|start| <= n ==> |arg| <= n + 1) && (|start| > n ==> arg == start)
        invariant arg == start + Nones(|arg| - |start|)
        decreases n + 1 - |arg|
      {
        arg := arg + [TNone];
      }
      if arg[n] == TNone {
        Entered(start, arg, uses, n, t);
        arg := arg[n := t];
      } else {
        Listed(start, arg, uses, n);
        if arg[n] != t {
          Clash(uses, Use(n, arg[n]), Use(n, t));
          return false;
        }
        AgainListed(arg, uses, Use(n, t));
      }
      return true;
    }
  }

  function Nones(n: nat): seq<ArgType>
  {
    seq(n, _ => TNone)
  }

  /** Entering the type of an argument that had none, in a table made long enough. */
  lemma Entered(start: seq<ArgType>, arg: seq<ArgType>, uses: seq<Use>, n: nat, t: ArgType)
    requires TableFor(start, uses) && t != TNone && |start| <= |arg| && arg == start + Nones(|arg| - |start|)
    requires n < |arg| && arg[n] == TNone && (|arg| > |start| ==> |arg| == n + 1)
    ensures TableFor(arg[n := t], uses + [Use(n, t)]) && Consistent(uses + [Use(n, t)])
  {
    var more := uses + [Use(n, t)];
    assert Use(n, t) in more;
    forall u | u in uses ensures u.index != n {
      assert start[u.index] != TNone;
    }
    assert TableFor(arg[n := t], more);
    TableUnique(arg[n := t], arg[n := t], more);
  }

  /** An argument that has a type in the longer table has it in the table, by a use. */
  lemma Listed(start: seq<ArgType>, arg: seq<ArgType>, uses: seq<Use>, n: nat)
    requires TableFor(start, uses) && |start| <= |arg| && arg == start + Nones(|arg| - |start|)
    requires n < |arg| && arg[n] != TNone && (|arg| > |start| ==> |arg| == n + 1)
    ensures arg == start && Use(n, arg[n]) in uses && TableFor(arg, uses)
  {
    assert n < |start|;
  }

  lemma AgainListed(arg: seq<ArgType>, uses: seq<Use>, u: Use)
    requires TableFor(arg, uses) && u in uses
    ensures TableFor(arg, uses + [u]) && Consistent(uses + [u])
  {
    TableUnique(arg, arg, uses + [u]);
  }

  lemma Clash(uses: seq<Use>, u: Use, v: Use)
    requires u in uses && u.index == v.index && u.argType != v.argType
    ensures !Consistent(uses + [v])
  {
    assert u in uses + [v] && v in uses + [v];
  }

  // ------------------------------------------------------------ the parse loop

  function At(format: string, cp: nat): char
  {
    if cp < |format| then format[cp] else '\0'
  }

  method SkipRun(format: string, cls: Class, start: nat) returns (cp: nat)
    requires start <= |format|
    ensures cp == start + Run(cls, format[start..]) && cp <= |format|
  {
    hide Run;
    cp := start;
    while In(cls, At(format, cp))
      invariant start <= cp <= |format|
      invariant cp - start + Run(cls, format[cp..]) == Run(cls, format[start..])
      decreases |format| - cp
    {
      RunStep(format, cp, cls);
      cp := cp + 1;
    }
    RunStops(format, cp, cls);
  }

  lemma RunStep(format: string, cp: nat, cls: Class)
    requires cp < |format| && In(cls, format[cp])
    ensures Run(cls, format[cp..]) == 1 + Run(cls, format[cp + 1..])
  {
    assert format[cp..][1..] == format[cp + 1..];
  }

  lemma RunStops(format: string, cp: nat, cls: Class)
    requires cp <= |format| && !In(cls, At(format, cp))
    ensures Run(cls, format[cp..]) == 0
  {
  }

  lemma PosLength(digits: string)
    ensures |PosText(Some(digits))| == |digits| + 1
  {
  }

  lemma NoPosLength()
    ensures |PosText(None)| == 0
  {
  }

  /** The test for a positional argument. */
  method Position(format: string, start: nat) returns (ok: bool, index: Option<nat>, cp: nat)
    requires start <= |format|
    ensures start <= cp <= |format|
    ensures ok <==> ReadPos(format[start..]).Some?
    ensures ok ==>
      var pos := ReadPos(format[start..]).value.0;
      && ReadPos(format[start..]) == Some((pos, format[cp..])) && cp == start + |PosText(pos)|
      && index == if pos.Some? then Some(NumberOf(pos.value) - 1) else None
  {
    hide Run, NumberOf, PosText;
    ok, index, cp := true, None, start;
    var np := SkipRun(format, Digit, start);
    ghost var s := format[start..];
    assert s[np - start..] == format[np..] && s[..np - start] == format[start..np];
    if np > start && At(format, np) == '$' {
      assert s[np - start + 1..] == format[np + 1..];
      var n := ReadNumber(format, start, np);
      if n == 0 || n == SIZE_MAX {
        return false, None, start;
      }
      index, cp := Some(n - 1), np + 1;
      PosLength(format[start..np]);
    } else {
      NoPosLength();
    }
  }

  /** The digits read with saturating arithmetic. */
  method ReadNumber(format: string, start: nat, end: nat) returns (n: nat)
    requires start <= end <= |format| && All(Digit, format[start..end])
    ensures n == if NumberOf(format[start..end]) < SIZE_MAX then NumberOf(format[start..end]) else SIZE_MAX
  {
    hide XSum, XTimes;
    n := 0;
    var np := start;
    assert format[start..start] == [];
    while np < end
      invariant start <= np <= end && All(Digit, format[start..np])
      invariant n == if NumberOf(format[start..np]) < SIZE_MAX then NumberOf(format[start..np]) else SIZE_MAX
    {
      assert format[start..end][np - start] == format[np];
      ghost var before := format[start..np];
      assert format[start..np + 1] == before + [format[np]];
      NumberSnoc(before, format[np]);
      Saturates(NumberOf(before), DigitValue(format[np]));
      n := XSum(XTimes(n, 10), DigitValue(format[np]));
      np := np + 1;
    }
  }

  lemma NumberSnoc(digits: string, c: char)
    requires All(Digit, digits) && In(Digit, c)
    ensures All(Digit, digits + [c]) && NumberOf(digits + [c]) == NumberOf(digits) * 10 + DigitValue(c)
  {
    assert (digits + [c])[..|digits|] == digits;
  }

  ghost predicate Fine(uses: seq<Use>)
  {
    Consistent(uses) && InRange(uses)
  }

  /** The arguments are registered for some uses. */
  ghost predicate Registered(arg: seq<ArgType>, uses: seq<Use>)
  {
    TableFor(arg, uses) && InRange(uses)
  }

  lemma FineFront(uses: seq<Use>, more: seq<Use>)
    requires Fine(uses + more)
    ensures Fine(uses)
  {
    assert forall u :: u in uses ==> u in uses + more;
  }

  lemma RegisteredFine(arg: seq<ArgType>, uses: seq<Use>)
    requires Registered(arg, uses)
    ensures Fine(uses)
  {
    TableUnique(arg, arg, uses);
  }

  /** Number an argument without a position and register it. */
  method TakeArg(index: Option<nat>, posn: nat, t: ArgType, a: Arguments, ghost uses: seq<Use>)
    returns (ok: bool, n: nat, posn': nat)
    requires Registered(a.arg, uses) && t != TNone && (index.Some? ==> index.value != SIZE_MAX)
    modifies a
    ensures (n, posn') == if index.Some? then (index.value, posn) else (posn, posn + 1)
    ensures ok <==> Fine(uses + [Use(n, t)])
    ensures ok ==> Registered(a.arg, uses + [Use(n, t)])
  {
    if index.Some? {
      n, posn' := index.value, posn;
    } else {
      n, posn' := posn, posn + 1;
      if n == SIZE_MAX {
        assert Use(n, t) in uses + [Use(n, t)];
        return false, n, posn';
      }
    }
    hide TableFor, Consistent;
    ok := a.Register(n, t, uses);
  }

  /** A star at start, of a width or a precision. */
  method StarArg(format: string, start: nat, posn: nat, a: Arguments, ghost uses: seq<Use>)
    returns (ok: bool, n: nat, cp: nat, posn': nat)
    requires start < |format| && Registered(a.arg, uses)
    modifies a
    ensures start < cp <= |format|
    ensures ok ==> ReadStar(format[start + 1..]).Some?
    ensures ReadStar(format[start + 1..]).Some? ==>
      var c := ReadStar(format[start + 1..]).value.0;
      && (ok <==> Fine(uses + OptUse(CountIndex(c, posn).0, TInt)))
      && (ok ==>
        && ReadStar(format[start + 1..]).value.1 == format[cp..] && cp == start + |CountText(c)|
        && (Some(n), posn') == CountIndex(c, posn) && Registered(a.arg, uses + [Use(n, TInt)]))
  {
    hide ReadPos, Registered, Fine, NumberOf, PosText;
    var index;
    ok, index, cp := Position(format, start + 1);
    n, posn' := 0, posn;
    if ok {
      ok, n, posn' := TakeArg(index, posn, TInt, a, uses);
      assert |CountText(Star(ReadPos(format[start + 1..]).value.0))| == cp - start;
    }
  }

  /** The field width. */
  method ParseWidth(format: string, start: nat, posn: nat, a: Arguments, ghost uses: seq<Use>)
    returns (ok: bool, slice: Option<(nat, nat)>, arg: Option<nat>, cp: nat, posn': nat)
    requires start <= |format| && Registered(a.arg, uses)
    modifies a
    ensures start <= cp <= |format|
    ensures ok ==> ReadWidth(format[start..]).Some?
    ensures ReadWidth(format[start..]).Some? ==>
      var w := ReadWidth(format[start..]).value.0;
      && (w.Star? ==> GoodPos(w.pos))
      && (ok <==> Fine(uses + OptUse(CountIndex(w, posn).0, TInt)))
      && (ok ==>
        && ReadWidth(format[start..]).value.1 == format[cp..] && cp == start + |CountText(w)|
        && slice == CountSlice(w, start, 0) && (arg, posn') == CountIndex(w, posn)
        && Registered(a.arg, uses + OptUse(arg, TInt)))
  {
    hide ReadStar, Registered, Fine, Run, PosText, GoodPos;
    ok, slice, arg, cp, posn' := true, None, None, start, posn;
    ghost var s := format[start..];
    assert uses + [] == uses;
    FineNow(a.arg, uses);
    if At(format, cp) == '*' {
      assert s[1..] == format[start + 1..];
      slice := Some((cp, cp + 1));
      var n;
      ok, n, cp, posn' := StarArg(format, cp, posn, a, uses);
      arg := Some(n);
    } else if In(Digit, At(format, cp)) {
      cp := SkipRun(format, Digit, start);
      RunStarts(s);
      assert s[cp - start..] == format[cp..];
      slice := Some((start, cp));
    } else {
      RunStarts(s);
    }
  }

  lemma FineNow(arg: seq<ArgType>, uses: seq<Use>)
    requires Registered(arg, uses)
    ensures Fine(uses)
  {
    RegisteredFine(arg, uses);
  }

  lemma RunStarts(s: string)
    ensures Run(Digit, s) > 0 <==> In(Digit, Head(s))
  {
  }

  /** What comes behind the point of a precision. */
  method ParseAfterPoint(format: string, start: nat, posn: nat, a: Arguments, ghost uses: seq<Use>)
    returns (ok: bool, slice: Option<(nat, nat)>, arg: Option<nat>, cp: nat, posn': nat)
    requires 0 < start <= |format| && Registered(a.arg, uses)
    modifies a
    ensures start <= cp <= |format|
    ensures ok ==> ReadAfterPoint(format[start..]).Some?
    ensures ReadAfterPoint(format[start..]).Some? ==>
      var p := ReadAfterPoint(format[start..]).value.0;
      && p != NoCount && (p.Star? ==> GoodPos(p.pos))
      && (ok <==> Fine(uses + OptUse(CountIndex(p, posn).0, TInt)))
      && (ok ==>
        && ReadAfterPoint(format[start..]).value.1 == format[cp..] && cp == start + |CountText(p)|
        && slice == CountSlice(p, start - 1, 1) && (arg, posn') == CountIndex(p, posn)
        && Registered(a.arg, uses + OptUse(arg, TInt)))
  {
    hide ReadStar, Registered, Fine, Run, PosText, GoodPos;
    ok, slice, arg, cp, posn' := true, None, None, start, posn;
    ghost var s := format[start..];
    assert uses + [] == uses;
    FineNow(a.arg, uses);
    if At(format, cp) == '*' {
      assert s[1..] == format[cp + 1..];
      slice := Some((cp - 1, cp + 1));
      var n;
      ok, n, cp, posn' := StarArg(format, cp, posn, a, uses);
      arg := Some(n);
    } else {
      cp := SkipRun(format, Digit, cp);
      assert s[cp - start..] == format[cp..];
      slice := Some((start - 1, cp));
    }
  }

  /** The precision. */
  method ParsePrecision(format: string, start: nat, posn: nat, a: Arguments, ghost uses: seq<Use>)
    returns (ok: bool, slice: Option<(nat, nat)>, arg: Option<nat>, cp: nat, posn': nat)
    requires start <= |format| && Registered(a.arg, uses)
    modifies a
    ensures start <= cp <= |format|
    ensures ok ==> ReadPrecision(format[start..]).Some?
    ensures ReadPrecision(format[start..]).Some? ==>
      var p := ReadPrecision(format[start..]).value.0;
      && (p.Star? ==> GoodPos(p.pos))
      && (ok <==> Fine(uses + OptUse(CountIndex(p, posn).0, TInt)))
      && (ok ==>
        && ReadPrecision(format[start..]).value.1 == format[cp..] && cp == start + |PrecisionText(p)|
        && slice == CountSlice(p, start, 1) && (arg, posn') == CountIndex(p, posn)
        && Registered(a.arg, uses + OptUse(arg, TInt)))
  {
    hide ReadAfterPoint, Registered, Fine, GoodPos, CountText;
    ok, slice, arg, cp, posn' := true, None, None, start, posn;
    if At(format, cp) == '.' {
      assert format[start..][1..] == format[start + 1..];
      ok, slice, arg, cp, posn' := ParseAfterPoint(format, cp + 1, posn, a, uses);
    } else {
      assert uses + [] == uses;
      FineNow(a.arg, uses);
    }
  }

  /** The size specifiers. */
  method ParseSizes(format: string, start: nat) returns (flags: nat, cp: nat)
    requires start <= |format|
    ensures start <= cp <= |format| && cp == start + Run(Size, format[start..])
    ensures flags == SizeFlags(format[start..cp])
  {
    hide AddSize, SizeFlags, Run;
    flags, cp := 0, start;
    SizesStart(format, start);
    while In(Size, At(format, cp))
      invariant start <= cp <= |format| && flags == SizeFlags(format[start..cp])
      invariant cp - start + Run(Size, format[cp..]) == Run(Size, format[start..])
      decreases |format| - cp
    {
      RunStep(format, cp, Size);
      SizesStep(format, start, cp);
      flags := AddSize(flags, format[cp]);
      cp := cp + 1;
    }
    RunStops(format, cp, Size);
  }

  lemma SizesStart(format: string, start: nat)
    requires start <= |format|
    ensures SizeFlags(format[start..start]) == 0
  {
    assert format[start..start] == [];
  }

  lemma SizesStep(format: string, start: nat, cp: nat)
    requires start <= cp < |format|
    ensures SizeFlags(format[start..cp + 1]) == AddSize(SizeFlags(format[start..cp]), format[cp])
  {
    hide AddSize;
    assert format[start..cp + 1][..cp - start] == format[start..cp];
  }

  // ------------------------------------------------ one directive, stage by stage

  ghost function WidthUses(spec: Spec, posn: nat): seq<Use>
    requires Good(spec)
  {
    OptUse(CountIndex(spec.width, posn).0, TInt)
  }

  ghost function PrecisionUses(spec: Spec, posn: nat): seq<Use>
    requires Good(spec)
  {
    OptUse(CountIndex(spec.precision, CountIndex(spec.width, posn).1).0, TInt)
  }

  /** A directive whose uses are fine had a fine width and precision. */
  lemma FineStages(spec: Spec, posn: nat, uses: seq<Use>)
    requires Good(spec)
    ensures Fine(uses + SpecUses(spec, posn)) ==>
      Fine(uses + WidthUses(spec, posn)) && Fine(uses + WidthUses(spec, posn) + PrecisionUses(spec, posn))
  {
    hide Good, CountIndex, ArgIndex, SpecType, OptUse, Fine;
    var w, p := WidthUses(spec, posn), PrecisionUses(spec, posn);
    var v := OptUse(ArgsOf(spec, posn).arg, SpecType(spec));
    assert uses + SpecUses(spec, posn) == ((uses + w) + p) + v;
    if Fine(uses + SpecUses(spec, posn)) {
      FineFront((uses + w) + p, v);
      FineFront(uses + w, p);
    }
  }

  /** The stages of reading a directive that has been read. */
  lemma SpecStages(s: string)
    requires ReadSpec(s).Some?
    ensures var (spec, rest) := ReadSpec(s).value;
      && Good(spec) && ReadPos(s).Some? && ReadPos(s).value.0 == spec.pos
      && var s1 := ReadPos(s).value.1; var s2 := s1[Run(Flag, s1)..];
      && spec.flags == s1[..Run(Flag, s1)]
      && ReadWidth(s2).Some? && ReadWidth(s2).value.0 == spec.width
      && var s3 := ReadWidth(s2).value.1;
      && ReadPrecision(s3).Some? && ReadPrecision(s3).value.0 == spec.precision
      && ReadEnd(ReadPrecision(s3).value.1) == Some((spec.size, spec.conv, rest))
  {
    hide ReadPos, ReadWidth, ReadPrecision, ReadEnd, Good, Written, Run;
    ReadSound(s);
  }

  /** A directive whose stages are read is read. */
  lemma SpecRead(s: string, s2: string, s3: string, s4: string)
    requires ReadPos(s).Some?
    requires var s1 := ReadPos(s).value.1; s2 == s1[Run(Flag, s1)..]
    requires ReadWidth(s2).Some? && s3 == ReadWidth(s2).value.1
    requires ReadPrecision(s3).Some? && s4 == ReadPrecision(s3).value.1 && ReadEnd(s4).Some?
    ensures ReadSpec(s).Some?
  {
    hide ReadPos, ReadWidth, ReadPrecision, ReadEnd, Run;
  }

  /** Size, conversion and argument of a directive. */
  method ParseEnd(format: string, start: nat, index: Option<nat>, posn: nat, a: Arguments, ghost uses: seq<Use>)
    returns (ok: bool, conversion: char, arg: Option<nat>, cp: nat, posn': nat)
    requires start <= |format| && Registered(a.arg, uses) && (index.Some? ==> index.value != SIZE_MAX)
    modifies a
    ensures start <= cp <= |format|
    ensures ok ==> ReadEnd(format[start..]).Some?
    ensures ReadEnd(format[start..]).Some? ==>
      var (size, conv, rest) := ReadEnd(format[start..]).value;
      && TypeOf(conv, SizeFlags(size)).Some?
      && var t := TypeOf(conv, SizeFlags(size)).value;
      var i := if t == TNone then None else Some(if index.Some? then index.value else posn);
      && (ok <==> Fine(uses + OptUse(i, t)))
      && (ok ==>
        && rest == format[cp..] && conversion == Conversion(conv) && arg == i
        && posn' == (if t == TNone || index.Some? then posn else posn + 1) && Registered(a.arg, uses + OptUse(i, t)))
  {
    hide SizeFlags, Registered, Fine, Run;
    ghost var s := format[start..];
    var flags;
    flags, cp := ParseSizes(format, start);
    assert s[cp - start..] == format[cp..] && s[..cp - start] == format[start..cp];
    var c := At(format, cp);
    var t := TypeOf(c, flags);
    conversion, arg, posn', ok := Conversion(c), None, posn, t.Some?;
    if ok {
      EndRead(s);
      assert uses + [] == uses;
      FineNow(a.arg, uses);
      assert s[cp - start + 1..] == format[cp + 1..];
      cp := cp + 1;
      if t.value != TNone {
        var n;
        ok, n, posn' := TakeArg(index, posn, t.value, a, uses);
        arg := Some(n);
      }
    }
  }

  /** How far reading the directive in s has come: s2 is left after the flags, s3
      after the width, s4 after the precision. */
  ghost predicate AfterFlags(s: string, s2: string)
  {
    ReadPos(s).Some? && s2 == ReadPos(s).value.1[Run(Flag, ReadPos(s).value.1)..]
  }

  ghost predicate AfterWidth(s: string, s2: string, s3: string)
  {
    AfterFlags(s, s2) && ReadWidth(s2).Some? && s3 == ReadWidth(s2).value.1
  }

  ghost predicate AfterPrecision(s: string, s2: string, s3: string, s4: string)
  {
    AfterWidth(s, s2, s3) && ReadPrecision(s3).Some? && s4 == ReadPrecision(s3).value.1
  }

  /** The directive in s, if there is one, does not have fine uses. */
  ghost predicate Refused(s: string, posn: nat, uses: seq<Use>)
  {
    ReadSpec(s).Some? ==> Good(ReadSpec(s).value.0) && !Fine(uses + SpecUses(ReadSpec(s).value.0, posn))
  }

  lemma PosRefused(s: string, posn: nat, uses: seq<Use>)
    requires ReadPos(s).None?
    ensures Refused(s, posn, uses)
  {
  }

  lemma WidthRefused(s: string, s2: string, posn: nat, uses: seq<Use>)
    requires AfterFlags(s, s2)
    requires ReadWidth(s2).Some? ==>
      var w := ReadWidth(s2).value.0;
      (w.Star? ==> GoodPos(w.pos)) && !Fine(uses + OptUse(CountIndex(w, posn).0, TInt))
    ensures Refused(s, posn, uses)
  {
    hide ReadPos, ReadWidth, ReadPrecision, ReadEnd, ReadSpec, Good, Run, Fine, SpecUses;
    if ReadSpec(s).Some? {
      SpecStages(s);
      FineStages(ReadSpec(s).value.0, posn, uses);
    }
  }

  lemma PrecisionRefused(s: string, s2: string, s3: string, posn: nat, uses: seq<Use>)
    requires AfterWidth(s, s2, s3)
    requires var w := ReadWidth(s2).value.0; w.Star? ==> GoodPos(w.pos)
    requires ReadPrecision(s3).Some? ==>
      var w, p := ReadWidth(s2).value.0, ReadPrecision(s3).value.0;
      && (p.Star? ==> GoodPos(p.pos))
      && var (i, posn1) := CountIndex(w, posn);
         !Fine(uses + OptUse(i, TInt) + OptUse(CountIndex(p, posn1).0, TInt))
    ensures Refused(s, posn, uses)
  {
    hide ReadPos, ReadWidth, ReadPrecision, ReadEnd, ReadSpec, Good, Run, Fine, SpecUses;
    if ReadSpec(s).Some? {
      SpecStages(s);
      FineStages(ReadSpec(s).value.0, posn, uses);
    }
  }

  /** The directive that the stages amount to. */
  lemma StagesSpec(s: string, s2: string, s3: string, s4: string)
    requires AfterPrecision(s, s2, s3, s4)
    ensures ReadSpec(s).Some? <==> ReadEnd(s4).Some?
    ensures ReadSpec(s).Some? ==>
      var (spec, rest) := ReadSpec(s).value;
      && Good(spec) && spec.pos == ReadPos(s).value.0
      && spec.flags == ReadPos(s).value.1[..Run(Flag, ReadPos(s).value.1)]
      && spec.width == ReadWidth(s2).value.0 && spec.precision == ReadPrecision(s3).value.0
      && ReadEnd(s4) == Some((spec.size, spec.conv, rest))
  {
    hide ReadPos, ReadWidth, ReadPrecision, ReadEnd, ReadSpec, Good, Run;
    if ReadSpec(s).Some? {
      SpecStages(s);
    } else if ReadEnd(s4).Some? {
      SpecRead(s, s2, s3, s4);
    }
  }

  /** The argument of a directive's value: none, or by its position, or the next. */
  function ValueIndex(spec: Spec, posn: nat): Option<nat>
    requires Good(spec)
  {
    if SpecType(spec) == TNone then None
    else Some(if spec.pos.Some? then NumberOf(spec.pos.value) - 1 else posn)
  }

  lemma SpecUsesAre(spec: Spec, posn: nat, w: Option<nat>, posn1: nat, p: Option<nat>, posn2: nat, uses: seq<Use>)
    requires Good(spec) && (w, posn1) == CountIndex(spec.width, posn) && (p, posn2) == CountIndex(spec.precision, posn1)
    ensures uses + SpecUses(spec, posn)
      == uses + OptUse(w, TInt) + OptUse(p, TInt) + OptUse(ValueIndex(spec, posn2), SpecType(spec))
    ensures ArgsOf(spec, posn) == Args(w, p, ValueIndex(spec, posn2),
      if SpecType(spec) == TNone || spec.pos.Some? then posn2 else posn2 + 1)
  {
    hide CountIndex, SpecType, OptUse, NumberOf;
    var v := ValueIndex(spec, posn2);
    assert ArgsOf(spec, posn).arg == v;
    assert uses + (OptUse(w, TInt) + OptUse(p, TInt) + OptUse(v, SpecType(spec)))
        == uses + OptUse(w, TInt) + OptUse(p, TInt) + OptUse(v, SpecType(spec));
  }

  /** What is known after the precision: the widths' and precisions' arguments. */
  ghost predicate Counted(s: string, s2: string, s3: string, s4: string, posn: nat,
    w: Option<nat>, posn1: nat, p: Option<nat>, posn2: nat)
  {
    && AfterPrecision(s, s2, s3, s4)
    && (ReadWidth(s2).value.0.Star? ==> GoodPos(ReadWidth(s2).value.0.pos))
    && (ReadPrecision(s3).value.0.Star? ==> GoodPos(ReadPrecision(s3).value.0.pos))
    && (w, posn1) == CountIndex(ReadWidth(s2).value.0, posn)
    && (p, posn2) == CountIndex(ReadPrecision(s3).value.0, posn1)
  }

  ghost function IndexOf(pos: Option<string>): Option<nat>
    requires GoodPos(pos)
  {
    if pos.Some? then Some(NumberOf(pos.value) - 1) else None
  }

  /** The uses and arguments of the directive that the stages amount to. */
  lemma StagesUses(s: string, s2: string, s3: string, s4: string, posn: nat,
    w: Option<nat>, posn1: nat, p: Option<nat>, posn2: nat, uses: seq<Use>)
    requires Counted(s, s2, s3, s4, posn, w, posn1, p, posn2) && ReadEnd(s4).Some?
    ensures ReadSpec(s).Some? && Good(ReadSpec(s).value.0) && GoodPos(ReadPos(s).value.0)
    ensures var (spec, rest) := ReadSpec(s).value;
      var (size, conv, rest4) := ReadEnd(s4).value;
      var index := IndexOf(ReadPos(s).value.0);
      var t := SpecType(spec);
      var i := if t == TNone then None else Some(if index.Some? then index.value else posn2);
      && rest == rest4 && TypeOf(conv, SizeFlags(size)) == Some(t)
      && uses + SpecUses(spec, posn) == uses + OptUse(w, TInt) + OptUse(p, TInt) + OptUse(i, t)
      && ArgsOf(spec, posn) == Args(w, p, i, if t == TNone || index.Some? then posn2 else posn2 + 1)
  {
    hide ReadPos, ReadWidth, ReadPrecision, ReadEnd, ReadSpec, Run, TypeOf, SizeFlags, NumberOf, SpecUses, OptUse,
         CountIndex, ArgsOf;
    StagesSpec(s, s2, s3, s4);
    var spec := ReadSpec(s).value.0;
    SpecUsesAre(spec, posn, w, posn1, p, posn2, uses);
  }

  lemma EndRefused(s: string, s2: string, s3: string, s4: string, posn: nat,
    w: Option<nat>, posn1: nat, p: Option<nat>, posn2: nat, index: Option<nat>, uses: seq<Use>)
    requires Counted(s, s2, s3, s4, posn, w, posn1, p, posn2)
    requires GoodPos(ReadPos(s).value.0) && index == IndexOf(ReadPos(s).value.0)
    requires ReadEnd(s4).Some? ==>
      var (size, conv, rest) := ReadEnd(s4).value;
      && TypeOf(conv, SizeFlags(size)).Some?
      && var t := TypeOf(conv, SizeFlags(size)).value;
      var i := if t == TNone then None else Some(if index.Some? then index.value else posn2);
      !Fine(uses + OptUse(w, TInt) + OptUse(p, TInt) + OptUse(i, t))
    ensures Refused(s, posn, uses)
  {
    StagesSpec(s, s2, s3, s4) by { hide *; CountedAfter(s, s2, s3, s4, posn, w, posn1, p, posn2); }
    hide *;
    if ReadEnd(s4).Some? {
      StagesUses(s, s2, s3, s4, posn, w, posn1, p, posn2, uses);
    }
    RefusedIs(s, posn, uses);
  }

  lemma CountedAfter(s: string, s2: string, s3: string, s4: string, posn: nat,
    w: Option<nat>, posn1: nat, p: Option<nat>, posn2: nat)
    requires Counted(s, s2, s3, s4, posn, w, posn1, p, posn2)
    ensures AfterPrecision(s, s2, s3, s4)
  {
  }

  lemma RefusedIs(s: string, posn: nat, uses: seq<Use>)
    ensures Refused(s, posn, uses) <==>
      (ReadSpec(s).Some? ==> Good(ReadSpec(s).value.0) && !Fine(uses + SpecUses(ReadSpec(s).value.0, posn)))
  {
    hide ReadSpec, Good, Fine, SpecUses;
  }

  lemma FieldsAre(it: Item, posn: nat, dp: Directive)
    requires Good(it.spec)
    requires var at := it.start + 1 + |PosText(it.spec.pos)| + |it.spec.flags|;
      && dp.dirStart == it.start && dp.dirEnd == it.end && dp.flags == FlagSet(it.spec.flags)
      && dp.width == CountSlice(it.spec.width, at, 0)
      && dp.precision == CountSlice(it.spec.precision, at + |CountText(it.spec.width)|, 1)
      && dp.conversion == Conversion(it.spec.conv)
    requires var a := ArgsOf(it.spec, posn);
      dp.widthArg == a.width && dp.precisionArg == a.precision && dp.argIndex == a.arg
    ensures dp == DirectiveOf(it, posn)
  {
    hide Good, PosText, CountText, CountSlice, FlagSet, Conversion, ArgsOf;
  }

  /** One directive, from behind the percent sign. */
  method ParseDirective(format: string, start: nat, posn: nat, a: Arguments, ghost uses: seq<Use>)
    returns (ok: bool, dp: Directive, cp: nat, posn': nat)
    requires 0 < start <= |format| && Registered(a.arg, uses)
    modifies a
    ensures start <= cp <= |format|
    ensures !ok ==> Refused(format[start..], posn, uses)
    ensures ok ==> ReadSpec(format[start..]).Some?
    ensures ok ==>
      var (spec, rest) := ReadSpec(format[start..]).value;
      && Good(spec) && rest == format[cp..] && dp == DirectiveOf(Item(start - 1, spec, cp), posn)
      && posn' == ArgsOf(spec, posn).next && Registered(a.arg, uses + SpecUses(spec, posn))
  {
    hide *;
    dp := Directive(start - 1, start, {}, None, None, None, None, '\0', None);
    ghost var s := format[start..];
    var index;
    ok, index, cp := Position(format, start);
    posn' := posn;
    if !ok {
      PosRefused(s, posn, uses);
      return;
    }
    IndexIs(ReadPos(s).value.0, index);
    var np := SkipRun(format, Flag, cp);
    ghost var s1, cp0 := format[cp..], cp;
    assert s1[np - cp..] == format[np..] && s1[..np - cp] == format[cp..np];
    var flags := FlagSet(format[cp..np]);
    ghost var s2 := format[np..];
    FlagsDone(s, s1, s2);
    var width, widthArg;
    ok, width, widthArg, cp, posn' := ParseWidth(format, np, posn, a, uses);
    if !ok {
      WidthRefused(s, s2, posn, uses);
      return;
    }
    ghost var s3, posn1 := format[cp..], posn';
    WidthDone(s, s2, s3);
    var precision, precisionArg;
    ok, precision, precisionArg, cp, posn' := ParsePrecision(format, cp, posn', a, uses + OptUse(widthArg, TInt));
    if !ok {
      PrecisionRefused(s, s2, s3, posn, uses);
      return;
    }
    ghost var s4, posn2 := format[cp..], posn';
    PrecisionDone(s, s2, s3, s4, posn, widthArg, posn1, precisionArg, posn2);
    var conversion, arg;
    ok, conversion, arg, cp, posn' :=
      ParseEnd(format, cp, index, posn', a, uses + OptUse(widthArg, TInt) + OptUse(precisionArg, TInt));
    if !ok {
      EndRefused(s, s2, s3, s4, posn, widthArg, posn1, precisionArg, posn2, index, uses);
      return;
    }
    dp := Directive(start - 1, cp, flags, width, widthArg, precision, precisionArg, conversion, arg);
    StagesUses(s, s2, s3, s4, posn, widthArg, posn1, precisionArg, posn2, uses);
    CountedAfter(s, s2, s3, s4, posn, widthArg, posn1, precisionArg, posn2);
    StagesSpec(s, s2, s3, s4);
    assert |format[cp0..np]| == np - cp0;
    FieldsAre(Item(start - 1, ReadSpec(s).value.0, cp), posn, dp);
  }

  lemma IndexIs(pos: Option<string>, index: Option<nat>)
    requires GoodPos(pos) && index == if pos.Some? then Some(NumberOf(pos.value) - 1) else None
    ensures index == IndexOf(pos) && (index.Some? ==> index.value != SIZE_MAX)
  {
  }

  lemma FlagsDone(s: string, s1: string, s2: string)
    requires ReadPos(s).Some? && s1 == ReadPos(s).value.1 && s2 == s1[Run(Flag, s1)..]
    ensures AfterFlags(s, s2)
  {
  }

  lemma WidthDone(s: string, s2: string, s3: string)
    requires AfterFlags(s, s2) && ReadWidth(s2).Some? && s3 == ReadWidth(s2).value.1
    ensures AfterWidth(s, s2, s3)
  {
  }

  lemma PrecisionDone(s: string, s2: string, s3: string, s4: string, posn: nat,
    w: Option<nat>, posn1: nat, p: Option<nat>, posn2: nat)
    requires AfterWidth(s, s2, s3) && ReadPrecision(s3).Some? && s4 == ReadPrecision(s3).value.1
    requires ReadWidth(s2).value.0.Star? ==> GoodPos(ReadWidth(s2).value.0.pos)
    requires ReadPrecision(s3).value.0.Star? ==> GoodPos(ReadPrecision(s3).value.0.pos)
    requires (w, posn1) == CountIndex(ReadWidth(s2).value.0, posn)
    requires (p, posn2) == CountIndex(ReadPrecision(s3).value.0, posn1)
    ensures Counted(s, s2, s3, s4, posn, w, posn1, p, posn2)
  {
  }

  // ------------------------------------------------------------- the whole format

  ghost function MaxWidth(ds: seq<Directive>): nat
  {
    if ds == [] then 0 else Max(MaxWidth(ds[..|ds| - 1]), SliceLength(ds[|ds| - 1].width))
  }

  ghost function MaxPrecision(ds: seq<Directive>): nat
  {
    if ds == [] then 0 else Max(MaxPrecision(ds[..|ds| - 1]), SliceLength(ds[|ds| - 1].precision))
  }

  function Max(a: nat, b: nat): nat
  {
    if a < b then b else a
  }

  function SliceLength(slice: Option<(nat, nat)>): nat
  {
    if slice.Some? && slice.value.0 <= slice.value.1 then slice.value.1 - slice.value.0 else 0
  }

  lemma ItemsSnoc(items: seq<Item>, it: Item)
    requires GoodItems(items) && Good(it.spec)
    ensures GoodItems(items + [it]) && Posn(items + [it]) == ArgsOf(it.spec, Posn(items)).next
    ensures UsesOf(items + [it]) == UsesOf(items) + SpecUses(it.spec, Posn(items))
    ensures Directives(items + [it]) == Directives(items) + [DirectiveOf(it, Posn(items))]
  {
    hide Good, ArgsOf, SpecUses, DirectiveOf;
    assert (items + [it])[..|items|] == items;
  }

  /** More directives only add uses. */
  lemma {:induction false} UsesGrow(items: seq<Item>, more: seq<Item>)
    requires GoodItems(items + more)
    ensures GoodItems(items) && (Fine(UsesOf(items + more)) ==> Fine(UsesOf(items)))
    decreases |more|
  {
    hide Good, ArgsOf, SpecUses, Fine;
    if more == [] {
      assert items + more == items;
    } else {
      var front, it := more[..|more| - 1], more[|more| - 1];
      assert items + more == (items + front) + [it];
      assert forall i :: 0 <= i < |items + front| ==> (items + front)[i] == (items + more)[i];
      assert it == (items + more)[|items + more| - 1];
      UsesGrow(items, front);
      ItemsSnoc(items + front, it);
      if Fine(UsesOf(items + more)) {
        FineFront(UsesOf(items + front), SpecUses(it.spec, Posn(items + front)));
      }
    }
  }

  /** How far the parse has come: the directives before cp have been read. */
  ghost predicate ReadTo(format: string, cp: nat, items: seq<Item>)
    requires cp <= |format|
  {
    match Read(format[cp..], cp)
    case None => Read(format, 0).None?
    case Some(more) => Read(format, 0) == Some(items + more)
  }

  lemma ReadToStart(format: string)
    ensures ReadTo(format, 0, [])
  {
    assert format[0..] == format;
    if Read(format, 0).Some? {
      assert [] + Read(format, 0).value == Read(format, 0).value;
    }
  }

  lemma ReadToLiteral(format: string, cp: nat, items: seq<Item>)
    requires cp < |format| && format[cp] != '%' && ReadTo(format, cp, items)
    ensures ReadTo(format, cp + 1, items)
  {
    assert format[cp..][1..] == format[cp + 1..];
  }

  lemma ReadToDirective(format: string, cp: nat, items: seq<Item>, spec: Spec, end: nat)
    requires cp < end <= |format| && format[cp] == '%' && ReadTo(format, cp, items)
    requires ReadSpec(format[cp + 1..]) == Some((spec, format[end..]))
    ensures ReadTo(format, end, items + [Item(cp, spec, end)])
  {
    hide ReadSpec;
    var it := Item(cp, spec, end);
    assert format[cp..][1..] == format[cp + 1..];
    if Read(format[end..], end).Some? {
      var more := Read(format[end..], end).value;
      assert items + ([it] + more) == (items + [it]) + more;
    }
  }

  lemma ReadToEnd(format: string, items: seq<Item>)
    requires ReadTo(format, |format|, items)
    ensures Read(format, 0) == Some(items)
  {
    assert format[|format|..] == [];
    assert items + [] == items;
  }

  /** A directive that is refused makes the format unacceptable. */
  lemma NotAcceptable(format: string, cp: nat, items: seq<Item>)
    requires cp < |format| && format[cp] == '%' && ReadTo(format, cp, items) && GoodItems(items)
    requires Refused(format[cp + 1..], Posn(items), UsesOf(items))
    ensures !Acceptable(format)
  {
    hide ReadSpec, Good, SpecUses, Written;
    var s := format[cp + 1..];
    assert format[cp..][1..] == s;
    if Read(format, 0).Some? {
      ReadSound(s);
      var (spec, rest) := ReadSpec(s).value;
      var end := cp + |format[cp..]| - |rest|;
      var it := Item(cp, spec, end);
      var more := Read(rest, end).value;
      assert Read(format, 0).value == (items + [it]) + more by {
        assert items + ([it] + more) == (items + [it]) + more;
      }
      ReadGood(format, 0);
      UsesGrow(items + [it], more);
      ItemsSnoc(items, it);
    }
  }

  /** The directives structure, after a parse. */
  class DirectiveList {
    var dir: seq<Directive>
    var end: nat
    var maxWidthLength: nat
    var maxPrecisionLength: nat

    constructor ()
      ensures dir == [] && end == 0 && maxWidthLength == 0 && maxPrecisionLength == 0
    {
      dir, end, maxWidthLength, maxPrecisionLength := [], 0, 0, 0;
    }

    /** PRINTF_PARSE: true is the return value 0, false is -1 with EINVAL. */
    method Parse(format: string, a: Arguments) returns (ok: bool)
      requires '\0' !in format && dir == [] && maxWidthLength == 0 && maxPrecisionLength == 0 && a.arg == []
      modifies this, a
      ensures ok <==> Acceptable(format)
      ensures ok ==>
        var items := Read(format, 0).value;
        && dir == Directives(items) && end == |format| && TableFor(a.arg, UsesOf(items))
        && StoredAs(format, items, dir)
        && maxWidthLength == MaxWidth(dir) && maxPrecisionLength == MaxPrecision(dir)
    {
      hide *;
      var cp, argPosn := 0, 0;
      ghost var items := [];
      ReadToStart(format);
      ParseStarts();
      while cp < |format|
        invariant cp <= |format| && ReadTo(format, cp, items) && GoodItems(items)
        invariant argPosn == Posn(items) && dir == Directives(items) && Registered(a.arg, UsesOf(items))
        invariant maxWidthLength == MaxWidth(dir) && maxPrecisionLength == MaxPrecision(dir)
        decreases |format| - cp
      {
        var c := format[cp];
        cp := cp + 1;
        if c == '%' {
          ghost var s, uses := format[cp..], UsesOf(items);
          ghost var start := cp - 1;
          var dp;
          ok, dp, cp, argPosn := ParseDirective(format, cp, argPosn, a, uses);
          if !ok {
            NotAcceptable(format, start, items);
            return;
          }
          ghost var it := Item(start, ReadSpec(s).value.0, cp);
          ReadToDirective(format, start, items, it.spec, cp);
          ItemsSnoc(items, it);
          items := items + [it];
          MaxSnoc(dir, dp);
          dir := dir + [dp];
          if dp.width.Some? {
            maxWidthLength := Max(maxWidthLength, SliceLength(dp.width));
          }
          if dp.precision.Some? {
            maxPrecisionLength := Max(maxPrecisionLength, SliceLength(dp.precision));
          }
        } else {
          ReadToLiteral(format, cp - 1, items);
        }
      }
      end := cp;
      ReadToEnd(format, items);
      ParsedDirectives(format);
      ParseEnds(format, items, a.arg);
      return true;
    }
  }

  lemma MaxSnoc(ds: seq<Directive>, dp: Directive)
    ensures MaxWidth(ds + [dp]) == if dp.width.Some? then Max(MaxWidth(ds), SliceLength(dp.width)) else MaxWidth(ds)
    ensures MaxPrecision(ds + [dp])
      == if dp.precision.Some? then Max(MaxPrecision(ds), SliceLength(dp.precision)) else MaxPrecision(ds)
  {
    assert (ds + [dp])[..|ds|] == ds;
  }

  lemma ParseStarts()
    ensures GoodItems([]) && Posn([]) == 0 && Directives([]) == [] && Registered([], UsesOf([]))
    ensures MaxWidth([]) == 0 && MaxPrecision([]) == 0
  {
  }

  lemma ParseEnds(format: string, items: seq<Item>, arg: seq<ArgType>)
    requires Read(format, 0) == Some(items) && GoodItems(items) && Registered(arg, UsesOf(items))
    ensures Acceptable(format) && TableFor(arg, UsesOf(items))
  {
    RegisteredFine(arg, UsesOf(items));
  }

  // ---------------------------------------------------------------- the results

  /** The uses of arguments depend on the directives alone, not on where they stand. */
  lemma {:induction false} UsesBySpecs(items: seq<Item>, others: seq<Item>)
    requires GoodItems(items) && Specs(items) == Specs(others)
    ensures GoodItems(others) && Posn(items) == Posn(others) && UsesOf(items) == UsesOf(others)
    decreases |items|
  {
    hide Good, ArgsOf, SpecUses;
    assert |items| == |others|;
    assert forall i :: 0 <= i < |items| ==> Specs(items)[i] == Specs(others)[i];
    if items != [] {
      UsesBySpecs(items[..|items| - 1], others[..|items| - 1]);
    }
  }

  /** A text is made of literal text and good directives, where no argument has two
      types and no index is out of range. */
  ghost predicate ComposedOf(text: string, lits: seq<string>, items: seq<Item>)
  {
    && GoodFormat(lits, Specs(items)) && text == Format(lits, Specs(items))
    && GoodItems(items) && Consistent(UsesOf(items)) && InRange(UsesOf(items))
  }

  /** Accepted are exactly the formats that can be composed so. */
  lemma AcceptableExactly(text: string)
    ensures Acceptable(text) <==> exists lits, items :: ComposedOf(text, lits, items)
  {
    hide Read, Format, UsesOf, Consistent, InRange, Specs, Good;
    if Acceptable(text) {
      var lits := ReadIsFormat(text, 0);
      assert ComposedOf(text, lits, Read(text, 0).value);
    }
    if exists lits, items :: ComposedOf(text, lits, items) {
      var lits, items :| ComposedOf(text, lits, items);
      FormatReads(lits, Specs(items), 0);
      ReadGood(text, 0);
      UsesBySpecs(items, Read(text, 0).value);
    }
  }

  /** After a successful parse the directives tile the format, and no abort() of the
      formatter on directives and argument types is reached. */
  lemma ParsedIsSafe(format: string, arg: seq<ArgType>)
    requires Acceptable(format) && TableFor(arg, UsesOf(Read(format, 0).value))
    ensures var items := Read(format, 0).value;
      && Tiles(format, items, 0)
      && forall i :: 0 <= i < |items| ==> Safe(Directives(items)[i], arg)
  {
    hide Read, Tiles, UsesOf, Safe, Directives;
    assert format[0..] == format;
    ReadTiles(format, 0, 0);
    AllSafe(Read(format, 0).value, arg);
  }

  // ---------------------------------------- what is stored, by the text of the format

  /** A slice of the text that begins behind some text of the directive. */
  predicate SliceIs(text: string, start: nat, slice: Option<(nat, nat)>, before: string, what: string)
  {
    && slice.Some? && start <= slice.value.0 <= slice.value.1 <= |text|
    && text[start..slice.value.0] == before && text[slice.value.0..slice.value.1] == what
  }

  /** The fields of a directive, by its parts: a width or precision that is an argument is
      only the star, without its position. */
  ghost predicate DirectiveIs(text: string, p: Parts, dp: Directive)
  {
    && dp.dirStart < dp.dirEnd <= |text| && text[dp.dirStart..dp.dirEnd] == "%" + PartsText(p)
    && dp.flags == (set c | c in p.flags)
    && (if p.width == "" then dp.width == None
        else SliceIs(text, dp.dirStart, dp.width, "%" + p.pos + p.flags, if p.width[0] == '*' then "*" else p.width))
    && (if p.precision == "" then dp.precision == None
        else SliceIs(text, dp.dirStart, dp.precision, "%" + p.pos + p.flags + p.width,
                     if |p.precision| > 1 && p.precision[1] == '*' then ".*" else p.precision))
    && dp.conversion == if p.conv == 'C' then 'c' else if p.conv == 'S' then 's' else p.conv
  }

  /** The argument with a position, or the next one. */
  function Numbered(pos: string, n: nat): nat
    requires IsPos(pos)
  {
    if pos == "" then n else NumberOf(pos[..|pos| - 1]) - 1
  }

  /** The arguments of a directive behind n arguments without a position. */
  ghost predicate Takes(dp: Directive, p: Parts, n: nat)
    requires IsDirective(p)
  {
    var n1 := n + if p.width == "*" then 1 else 0;
    var n2 := n1 + if p.precision == ".*" then 1 else 0;
    && (if p.width != "" && p.width[0] == '*' then
          dp.widthArg == Some(Numbered(p.width[1..], n))
        else dp.widthArg == None)
    && (if |p.precision| > 1 && p.precision[1] == '*' then
          dp.precisionArg == Some(Numbered(p.precision[2..], n1))
        else dp.precisionArg == None)
    && dp.argIndex == if p.conv == '%' then None else Some(Numbered(p.pos, n2))
  }

  /** How many arguments of some directives have no position. */
  ghost function Unnumbered(items: seq<Item>): nat
  {
    if items == [] then 0
    else
      var p := PartsOf(items[|items| - 1].spec);
      Unnumbered(items[..|items| - 1]) + (if p.width == "*" then 1 else 0) + (if p.precision == ".*" then 1 else 0)
        + if p.conv != '%' && p.pos == "" then 1 else 0
  }

  lemma TypeNone(conv: char, flags: nat)
    requires TypeOf(conv, flags).Some?
    ensures TypeOf(conv, flags).value == TNone <==> conv == '%'
  {
  }

  lemma ArgIndexIs(pos: Option<string>, n: nat)
    requires GoodPos(pos)
    ensures IsPos(PosText(pos))
    ensures ArgIndex(pos, n) == (Numbered(PosText(pos), n), n + if PosText(pos) == "" then 1 else 0)
  {
    PosIsPart(pos);
  }

  lemma WidthTaken(c: Count, n: nat)
    requires GoodWidth(c)
    ensures var w := CountText(c);
      && IsWidth(w) && (w == "" <==> c == NoCount)
      && CountIndex(c, n) ==
           if w != "" && w[0] == '*' then (Some(Numbered(w[1..], n)), n + if w == "*" then 1 else 0) else (None, n)
  {
    CountIsPart(c, NoCount);
    hide GoodPos, PosText, ArgIndex, IsPos, Numbered, PosOf;
    match c
    case NoCount =>
    case Star(pos) =>
      assert CountText(c)[1..] == PosText(pos);
      ArgIndexIs(pos, n);
      assert CountText(c) == "*" <==> PosText(pos) == "";
    case Fixed(d) =>
      assert In(Digit, d[0]);
  }

  lemma PrecisionTaken(c: Count, n: nat)
    requires GoodPrecision(c)
    ensures var q := PrecisionText(c);
      && IsPrecision(q) && (q == "" <==> c == NoCount)
      && CountIndex(c, n) ==
           if |q| > 1 && q[1] == '*' then (Some(Numbered(q[2..], n)), n + if q == ".*" then 1 else 0) else (None, n)
  {
    CountIsPart(NoCount, c);
    hide GoodPos, PosText, ArgIndex, IsPos, Numbered, PosOf;
    match c
    case NoCount =>
    case Star(pos) =>
      assert PrecisionText(c)[2..] == PosText(pos);
      ArgIndexIs(pos, n);
      assert PrecisionText(c) == ".*" <==> PosText(pos) == "";
    case Fixed(d) =>
      if d != [] {
        assert PrecisionText(c)[1] == d[0] && In(Digit, d[0]);
      }
  }

  lemma ArgsTaken(it: Item, posn: nat)
    requires Good(it.spec)
    ensures var p := PartsOf(it.spec); IsDirective(p) && Takes(DirectiveOf(it, posn), p, posn)
    ensures var p := PartsOf(it.spec);
      ArgsOf(it.spec, posn).next == posn + (if p.width == "*" then 1 else 0) + (if p.precision == ".*" then 1 else 0)
        + if p.conv != '%' && p.pos == "" then 1 else 0
  {
    hide TypeOf, SizeFlags, CountText, PrecisionText, PosText, CountIndex, ArgIndex, Numbered, IsDirective, GoodPos,
         All, IsPos, CountSlice, FlagSet, Conversion, IsWidth, IsPrecision;
    var spec := it.spec;
    GoodIsDirective(spec);
    TypeNone(spec.conv, SizeFlags(spec.size));
    WidthTaken(spec.width, posn);
    PrecisionTaken(spec.precision, CountIndex(spec.width, posn).1);
    ArgIndexIs(spec.pos, CountIndex(spec.precision, CountIndex(spec.width, posn).1).1);
  }

  lemma Middle(a: string, b: string, c: string)
    ensures (a + b + c)[..|a|] == a && (a + b + c)[|a|..|a| + |b|] == b
  {
  }

  lemma Within(text: string, start: nat, end: nat, i: nat, j: nat)
    requires start <= end <= |text| && i <= j <= end - start
    ensures text[start + i..start + j] == text[start..end][i..j]
  {
    forall k | 0 <= k < j - i ensures text[start + i..start + j][k] == text[start..end][i..j][k] {
      assert text[start..end][i + k] == text[start + (i + k)];
    }
  }

  lemma SliceOf(text: string, start: nat, end: nat, a: string, b: string, c: string)
    requires start <= end <= |text| && text[start..end] == a + b + c
    ensures SliceIs(text, start, Some((start + |a|, start + |a| + |b|)), a, b)
  {
    Middle(a, b, c);
    assert |a + b + c| == end - start;
    Within(text, start, end, 0, |a|);
    Within(text, start, end, |a|, |a| + |b|);
  }

  lemma SlicesOf(text: string, it: Item, posn: nat)
    requires Good(it.spec) && it.start < it.end <= |text| && text[it.start..it.end] == ['%'] + Written(it.spec, [])
    ensures DirectiveIs(text, PartsOf(it.spec), DirectiveOf(it, posn))
  {
    hide Good, Written, PosText, CountText, PrecisionText, SliceIs, ArgsOf, CountSlice;
    var s, p := it.spec, PartsOf(it.spec);
    WrittenIs(s, []);
    WholeText(p, [], text[it.start..it.end]);
    WidthSlice(text, it, "%" + p.pos + p.flags, p.precision + (p.size + [p.conv]));
    PrecisionSlice(text, it, "%" + p.pos + p.flags + p.width, p.size + [p.conv]);
  }

  lemma WholeText(p: Parts, rest: string, whole: string)
    requires rest == [] && whole == "%" + (PartsText(p) + rest)
    ensures whole == "%" + PartsText(p)
    ensures whole == "%" + p.pos + p.flags + p.width + (p.precision + (p.size + [p.conv]))
    ensures whole == "%" + p.pos + p.flags + p.width + p.precision + (p.size + [p.conv])
  {
    assert PartsText(p) + rest == PartsText(p);
    Regroup("%", p.pos, p.flags, p.width, p.precision, p.size, [p.conv]);
    var z := p.size + [p.conv];
    assert "%" + p.pos + p.flags + p.width + p.precision + z == "%" + p.pos + p.flags + p.width + (p.precision + z);
    assert "%" + p.pos + p.flags + p.width + p.precision + z
        == "%" + p.pos + p.flags + p.width + p.precision + p.size + [p.conv];
    assert "%" + PartsText(p) == "%" + p.pos + p.flags + p.width + p.precision + p.size + [p.conv];
  }

  lemma Apart(a: string, b: string, c: string, d: string)
    ensures a + (b + c) + d == a + b + (c + d)
  {
  }

  lemma WidthSlice(text: string, it: Item, a: string, back: string)
    requires Good(it.spec) && it.start <= it.end <= |text|
    requires text[it.start..it.end] == a + CountText(it.spec.width) + back
    ensures var w := CountText(it.spec.width); var slice := CountSlice(it.spec.width, it.start + |a|, 0);
      if it.spec.width == NoCount then slice == None && w == ""
      else w != "" && SliceIs(text, it.start, slice, a, if w[0] == '*' then "*" else w)
  {
    match it.spec.width
    case NoCount =>
    case Star(pos) =>
      Apart(a, "*", PosText(pos), back);
      SliceOf(text, it.start, it.end, a, "*", PosText(pos) + back);
    case Fixed(d) =>
      SliceOf(text, it.start, it.end, a, d, back);
  }

  lemma PrecisionSlice(text: string, it: Item, a: string, back: string)
    requires Good(it.spec) && it.start <= it.end <= |text|
    requires text[it.start..it.end] == a + PrecisionText(it.spec.precision) + back
    ensures var q := PrecisionText(it.spec.precision); var slice := CountSlice(it.spec.precision, it.start + |a|, 1);
      if it.spec.precision == NoCount then slice == None && q == ""
      else q != "" && SliceIs(text, it.start, slice, a, if |q| > 1 && q[1] == '*' then ".*" else q)
  {
    hide SliceIs, PosText, GoodPos;
    var q := PrecisionText(it.spec.precision);
    match it.spec.precision
    case NoCount =>
    case Star(pos) =>
      Apart(a, ".*", PosText(pos), back);
      assert q == ".*" + PosText(pos);
      SliceOf(text, it.start, it.end, a, ".*", PosText(pos) + back);
    case Fixed(d) =>
      assert d != [] ==> In(Digit, d[0]);
      SliceOf(text, it.start, it.end, a, q, back);
  }

  lemma {:induction false} TilesAt(text: string, items: seq<Item>, from: nat, i: nat)
    requires Tiles(text, items, from) && i < |items|
    ensures var it := items[i];
      it.start < it.end <= |text| && text[it.start..it.end] == ['%'] + Written(it.spec, [])
    decreases i
  {
    hide Written;
    if i > 0 {
      TilesAt(text, items[1..], items[0].end, i - 1);
    }
  }

  lemma {:induction false} DirectivesAt(items: seq<Item>, i: nat)
    requires GoodItems(items) && i < |items|
    ensures GoodItems(items[..i]) && Directives(items)[i] == DirectiveOf(items[i], Posn(items[..i]))
    decreases |items|
  {
    hide Good, DirectiveOf, ArgsOf;
    var front := items[..|items| - 1];
    if i < |front| {
      DirectivesAt(front, i);
      assert front[..i] == items[..i];
    }
  }

  lemma {:induction false} PosnCounts(items: seq<Item>)
    requires GoodItems(items)
    ensures Posn(items) == Unnumbered(items)
  {
    hide Good, ArgsOf, PartsOf, IsDirective, Takes;
    if items != [] {
      PosnCounts(items[..|items| - 1]);
      ArgsTaken(items[|items| - 1], Posn(items[..|items| - 1]));
    }
  }

  lemma ParsedDirective(text: string, i: nat)
    requires Read(text, 0).Some? && i < |Read(text, 0).value|
    ensures GoodItems(Read(text, 0).value)
    ensures var items := Read(text, 0).value; var dp, p := Directives(items)[i], PartsOf(items[i].spec);
      IsDirective(p) && DirectiveIs(text, p, dp) && Takes(dp, p, Unnumbered(items[..i]))
  {
    assert text[0..] == text;
    hide *;
    var items := Read(text, 0).value;
    ReadGood(text, 0);
    ReadTiles(text, 0, 0);
    TilesAt(text, items, 0, i);
    DirectivesAt(items, i);
    PosnCounts(items[..i]);
    GoodAt(items, i);
    ArgsTaken(items[i], Posn(items[..i]));
    SlicesOf(text, items[i], Posn(items[..i]));
  }

  lemma GoodAt(items: seq<Item>, i: nat)
    requires GoodItems(items) && i < |items|
    ensures Good(items[i].spec)
  {
  }

  /** Each of some directives is stored with its own parts, and its arguments are the
      positions it names or the next without one. */
  ghost predicate StoredAs(text: string, items: seq<Item>, ds: seq<Directive>)
  {
    && |ds| == |items|
    && forall i :: 0 <= i < |ds| ==>
         var p := PartsOf(items[i].spec);
         IsDirective(p) && DirectiveIs(text, p, ds[i]) && Takes(ds[i], p, Unnumbered(items[..i]))
  }

  lemma ParsedDirectives(text: string)
    requires Read(text, 0).Some?
    ensures GoodItems(Read(text, 0).value) && StoredAs(text, Read(text, 0).value, Directives(Read(text, 0).value))
  {
    hide Read, Good, DirectiveIs, Takes, PartsOf, IsDirective;
    var items := Read(text, 0).value;
    ReadGood(text, 0);
    forall i | 0 <= i < |items|
      ensures var p := PartsOf(items[i].spec);
        && IsDirective(p) && DirectiveIs(text, p, Directives(items)[i])
        && Takes(Directives(items)[i], p, Unnumbered(items[..i]))
    {
      ParsedDirective(text, i);
    }
  }

  /** The uses are those of the stored directives. */
  ghost predicate UsedBy(u: Use, dp: Directive, spec: Spec)
  {
    || (u.argType == TInt && (dp.widthArg == Some(u.index) || dp.precisionArg == Some(u.index)))
    || (dp.argIndex == Some(u.index) && TypeOf(spec.conv, SizeFlags(spec.size)) == Some(u.argType))
  }

  lemma {:induction false} UsesAre(items: seq<Item>, u: Use)
    requires GoodItems(items)
    ensures u in UsesOf(items) <==> exists i :: 0 <= i < |items| && UsedBy(u, Directives(items)[i], items[i].spec)
    decreases |items|
  {
    hide UsedBy, SpecUses, DirectiveOf, ArgsOf, Good;
    if items != [] {
      var front, k := items[..|items| - 1], |items| - 1;
      UsesAre(front, u);
      SpecUsed(items[k], Posn(front), u);
      if i :| 0 <= i < |items| && UsedBy(u, Directives(items)[i], items[i].spec) {
        if i < k {
          assert Directives(items)[i] == Directives(front)[i] && items[i] == front[i];
        }
      }
      if i :| 0 <= i < |front| && UsedBy(u, Directives(front)[i], front[i].spec) {
        assert Directives(items)[i] == Directives(front)[i] && items[i] == front[i];
      }
      assert Directives(items)[k] == DirectiveOf(items[k], Posn(front));
    }
  }

  lemma SpecUsed(it: Item, posn: nat, u: Use)
    requires Good(it.spec)
    ensures u in SpecUses(it.spec, posn) <==> UsedBy(u, DirectiveOf(it, posn), it.spec)
  {
    hide TypeOf, SizeFlags, ArgIndex;
  }

  /** The lengths are those of the longest width and precision. */
  lemma {:induction false} MaxIs(ds: seq<Directive>)
    ensures forall i :: 0 <= i < |ds| ==>
      SliceLength(ds[i].width) <= MaxWidth(ds) && SliceLength(ds[i].precision) <= MaxPrecision(ds)
    ensures MaxWidth(ds) == 0 || exists i :: 0 <= i < |ds| && SliceLength(ds[i].width) == MaxWidth(ds)
    ensures MaxPrecision(ds) == 0 || exists i :: 0 <= i < |ds| && SliceLength(ds[i].precision) == MaxPrecision(ds)
  {
    hide SliceLength;
    if ds != [] {
      var front := ds[..|ds| - 1];
      MaxIs(front);
      assert forall i :: 0 <= i < |front| ==> front[i] == ds[i];
    }
  }

  /** A width or precision that is not an argument at a position. */
  predicate Plain(width: string, precision: string)
  {
    && (width == "" || width == "*" || (AllDigits(width) && width[0] != '0'))
    && (precision == "" || precision == ".*" || (precision[0] == '.' && AllDigits(precision[1..])))
  }

  lemma PlainIs(width: string, precision: string)
    requires Plain(width, precision)
    ensures IsWidth(width) && IsPrecision(precision)
    ensures WidthOf(width) == if width == "" then NoCount else if width == "*" then Star(None) else Fixed(width)
    ensures PrecisionOf(precision)
      == if precision == "" then NoCount else if precision == ".*" then Star(None) else Fixed(precision[1..])
  {
    if width != "" && width != "*" {
      assert IsDigit(width[0]);
    }
    if |precision| > 1 && precision != ".*" {
      assert IsDigit(precision[1..][0]);
    }
  }

  lemma StandardParts(flags: string, width: string, precision: string, m: Modifier, conv: char)
    requires StandardType(conv, m).Some? && forall i :: 0 <= i < |flags| ==> flags[i] in "'-+ #0I"
    requires Plain(width, precision)
    ensures IsDirective(Parts("", flags, width, precision, ModifierText(m), conv))
  {
    hide Plain, IsWidth, IsPrecision, TypeOf, StandardType, SizeFlags;
    StandardSizes(conv, m, SizeFlags(ModifierText(m)));
    Characters(conv, SizeFlags(ModifierText(m)));
    PlainIs(width, precision);
  }

  lemma OneItem(text: string, spec: Spec)
    requires text != "" && text[0] == '%' && ReadSpec(text[1..]) == Some((spec, ""))
    ensures Read(text, 0) == Some([Item(0, spec, |text|)])
  {
    hide ReadSpec;
    assert Read("", |text|) == Some([]);
    assert [Item(0, spec, |text|)] + [] == [Item(0, spec, |text|)];
  }

  lemma StandardUses(p: Parts, m: Modifier)
    requires Good(SpecOf(p)) && p.pos == "" && p.size == ModifierText(m) && StandardType(p.conv, m).Some?
    requires Plain(p.width, p.precision)
    ensures var stars := (if p.width == "*" then 1 else 0) + if p.precision == ".*" then 1 else 0;
      && SpecUses(SpecOf(p), 0) == [Use(0, TInt), Use(1, TInt)][..stars]
           + (if p.conv == '%' then [] else [Use(stars, StandardType(p.conv, m).value)])
      && Consistent(SpecUses(SpecOf(p), 0)) && InRange(SpecUses(SpecOf(p), 0))
  {
    hide Plain, TypeOf, StandardType, SizeFlags, ModifierText, Good, GoodPos, PrecisionOf, WidthOf, AllDigits,
         Consistent, InRange;
    StandardSizes(p.conv, m, 0);
    TypeNone(p.conv, SizeFlags(p.size));
    PlainIs(p.width, p.precision);
    var stars := (if p.width == "*" then 1 else 0) + if p.precision == ".*" then 1 else 0;
    var value := if p.conv == '%' then [] else [Use(stars, StandardType(p.conv, m).value)];
    assert SpecUses(SpecOf(p), 0) == [Use(0, TInt), Use(1, TInt)][..stars] + value;
    InOrder(stars, value);
  }

  lemma InOrder(stars: nat, value: seq<Use>)
    requires stars <= 2 && (value == [] || (|value| == 1 && value[0].index == stars))
    ensures var uses := [Use(0, TInt), Use(1, TInt)][..stars] + value; Consistent(uses) && InRange(uses)
  {
    var uses := [Use(0, TInt), Use(1, TInt)][..stars] + value;
    assert forall k :: 0 <= k < |uses| ==> uses[k].index == k;
  }

  /** Every directive of the standard without positions is accepted: with any of the
      flags, a width and precision, and a length modifier and conversion that go
      together. Its star arguments come before the value, which has the standard type. */
  lemma StandardAccepted(flags: string, width: string, precision: string, m: Modifier, conv: char)
    requires StandardType(conv, m).Some? && forall i :: 0 <= i < |flags| ==> flags[i] in "'-+ #0I"
    requires Plain(width, precision)
    ensures var text := "%" + flags + width + precision + ModifierText(m) + [conv];
      var stars := (if width == "*" then 1 else 0) + if precision == ".*" then 1 else 0;
      && Acceptable(text)
      && var items := Read(text, 0).value;
         && PartsOf(items[0].spec) == Parts("", flags, width, precision, ModifierText(m), conv)
         && items == [Item(0, items[0].spec, |text|)]
         && UsesOf(items) == [Use(0, TInt), Use(1, TInt)][..stars]
              + (if conv == '%' then [] else [Use(stars, StandardType(conv, m).value)])
  {
    var p := Parts("", flags, width, precision, ModifierText(m), conv);
    var text := "%" + flags + width + precision + ModifierText(m) + [conv];
    assert PartsText(p) == "" + flags + width + precision + ModifierText(m) + [conv];
    hide *;
    assert text == "%" + (PartsText(p) + "") by {
      Percent(flags, width, precision, ModifierText(m), [conv]);
    }
    StandardParts(flags, width, precision, m, conv);
    DirectiveReads(p, "");
    OneItem(text, SpecOf(p));
    DirectiveIsGood(p);
    StandardUses(p, m);
    SingleItem(text, Item(0, SpecOf(p), |text|));
  }

  lemma Percent(a: string, b: string, c: string, d: string, e: string)
    ensures "%" + a + b + c + d + e == "%" + (("" + a + b + c + d + e) + "")
  {
    var x := "" + a;
    assert x == a && "%" + a == "%" + x;
    assert "%" + x + b == "%" + (x + b);
    assert "%" + (x + b) + c == "%" + (x + b + c);
    assert "%" + (x + b + c) + d == "%" + (x + b + c + d);
    assert "%" + (x + b + c + d) + e == "%" + (x + b + c + d + e);
    assert x + b + c + d + e + "" == x + b + c + d + e;
  }

  lemma SingleItem(text: string, it: Item)
    requires Read(text, 0) == Some([it]) && Good(it.spec)
    ensures GoodItems([it]) && UsesOf([it]) == SpecUses(it.spec, 0)
    ensures Acceptable(text) <==> Consistent(SpecUses(it.spec, 0)) && InRange(SpecUses(it.spec, 0))
  {
    hide Read, Good, SpecUses, Consistent, InRange;
    assert [it][..0] == [];
    assert [] + SpecUses(it.spec, 0) == SpecUses(it.spec, 0);
  }
}
