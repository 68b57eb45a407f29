/**
 yylex and yyparse (plural.c) as they run on the text of a plural formula, against
 the scanner of PluralLexer and the automaton of PluralParser.
 */
module PluralParse {
  import opened DecimalDigits
  import opened Divisibility
  import opened Options
  import opened PluralSyntax
  import opened PluralTables
  import opened PluralParser
  import opened PluralLexer

  /** What a text denotes: scanning and parsing it builds the expression. */
  ghost predicate Denotes(text: string, cp: nat, e: Expr)
    requires cp <= |text|
  {
    Parses(LexAll(text, cp), e)
  }

  /** Where the parser stands: a run of the automaton on all tokens of the text has
      come to the stacks, with the tokens still to be shifted. */
  ghost predicate Running(all: seq<Token>, st: Stack, toks: seq<Token>, res: Option<Expr>, n: nat)
  {
    Sound(st, toks, res, all) && Reaches(Start(all), Conf(st, toks, res), n)
  }

  lemma RunStarts(all: seq<Token>)
    ensures Running(all, Bottom, all, None, 0) && StateOf(Bottom) == 0
    ensures StatesOf(Bottom) == [0] && ValuesOf(Bottom) == [NoValue]
  {
    StartSound(all);
  }

  lemma StackTop(st: Stack)
    ensures |StatesOf(st)| == |ValuesOf(st)| == Size(st) + 1 && StatesOf(st)[Size(st)] == StateOf(st)
  {
    ConfGood(st, [], None);
  }

  lemma OneMore(a: Config, b: Config, c: Config, n: nat)
    requires Reaches(a, b, n) && GoodConfig(b) && Step(b) == Go(c)
    ensures Reaches(a, c, n + 1)
  {
    hide Step, GoodConfig;
    assert Reaches(c, c, 0);
    assert Reaches(b, c, 1);
    hide Reaches;
    ReachesTrans(a, b, c, n, 1);
  }

  lemma RunShifts(all: seq<Token>, st: Stack, toks: seq<Token>, res: Option<Expr>, n: nat)
    requires Running(all, st, toks, res, n) && toks != [] && StateOf(st) != YYFINAL
    requires YyPact(StateOf(st)) != YYPACT_NINF && ActionOn(StateOf(st), Sym(toks[0])).Shift?
    ensures Running(all, Push(st, T(toks[0])), toks[1..], res, n + 1)
    ensures StatesOf(Push(st, T(toks[0]))) == StatesOf(st) + [ActionOn(StateOf(st), Sym(toks[0])).state]
    ensures ValuesOf(Push(st, T(toks[0]))) == ValuesOf(st) + [TokenValue(toks[0])]
    ensures StateOf(Push(st, T(toks[0]))) == YYFINAL <==> toks[0] == End
  {
    hide ActionOn, YyPact, ReduceBy, Reaches, Sound;
    ShiftSound(st, toks, res, all);
    SoundValid(Push(st, T(toks[0])), toks[1..], res, all);
    TopShape(Push(st, T(toks[0])));
    SymRange(toks[0]);
    ConfGood(st, toks, res);
    var a, b := Conf(st, toks, res), Conf(Push(st, T(toks[0])), toks[1..], res);
    assert Step(a) == Go(b);
    OneMore(Start(all), a, b, n);
  }

  lemma RunReduces(all: seq<Token>, st: Stack, toks: seq<Token>, res: Option<Expr>, n: nat)
    returns (st': Stack, res': Option<Expr>)
    requires Running(all, st, toks, res, n) && toks != [] && StateOf(st) != YYFINAL
    requires NotShifted(st, toks) && YyDefact(StateOf(st)) != 0
    ensures Running(all, st', toks, res', n + 1) && Weight(st') < Weight(st) && StateOf(st') != YYFINAL
    ensures 2 <= YyDefact(StateOf(st)) < 14 && GoodConfig(Conf(st, toks, res))
    ensures ReduceBy(Conf(st, toks, res), YyDefact(StateOf(st))) == Go(Conf(st', toks, res'))
  {
    hide ActionOn, YyPact, ReduceBy, Reaches, Sound;
    SoundValid(st, toks, res, all);
    DefaultReduction(StateOf(st), Sym(toks[0]));
    assert st.Push? by { TopShape(st); }
    st', res' := ReduceSound(st, toks, res, all);
    SoundValid(st', toks, res', all);
    TopShape(st');
    ConfGood(st, toks, res);
    OnDefault(st, toks);
    OneMore(Start(all), Conf(st, toks, res), Conf(st', toks, res'), n);
  }

  /** What is not shifted gets the default action. */
  lemma OnDefault(st: Stack, toks: seq<Token>)
    requires NotShifted(st, toks) && toks != []
    ensures Decide(StateOf(st), Sym(toks[0])) == DefaultAction(StateOf(st))
  {
    hide StateOf;
    Defaults(StateOf(st), Sym(toks[0]));
  }

  lemma Defaults(state: int, sym: int)
    requires 0 <= state < 27 && 0 <= sym < YYNTOKENS
    requires YyPact(state) == YYPACT_NINF || !ActionOn(state, sym).Shift?
    ensures Decide(state, sym) == DefaultAction(state)
  {
    TableEntries(YyPact(state) + sym);
  }

  /** Entries that are looked up for a symbol are states to shift to. */
  lemma TableEntries(n: int)
    ensures 0 <= n <= YYLAST && YyCheck(n) >= 0 ==> YyTable(n) > 0
  {
  }

  /** What the two table look-ups for a token say is the action on it. */
  lemma TableAction(state: int, t: Token)
    requires 0 <= state < 27
    ensures var yytoken := YyTranslate(Code(t)); var n := YyPact(state) + yytoken;
      if 0 <= n <= YYLAST && YyCheck(n) == yytoken then YyTable(n) > 0 && ActionOn(state, Sym(t)) == Shift(YyTable(n))
      else !ActionOn(state, Sym(t)).Shift?
  {
    hide YyCheck, YyTable, YyPact, Code;
    var yytoken := YyTranslate(Code(t));
    TableEntries(YyPact(state) + yytoken);
  }

  /** Whether a state takes the error token, as error recovery looks for it. */
  predicate TakesError(state: int)
    requires 0 <= state < 27
  {
    var yyn := YyPact(state) + Sym(Err);
    YyPact(state) != YYPACT_NINF && 0 <= yyn <= YYLAST && YyCheck(yyn) == Sym(Err) && YyTable(yyn) > 0
  }

  /** No state does. */
  lemma NoRecovery(state: int)
    requires 0 <= state < 27
    ensures !TakesError(state)
  {
    hide ActionOn, YyPact, YyTable, YyCheck;
    if YyPact(state) != YYPACT_NINF {
      ShiftSource(state, Sym(Err));
      ShiftsEntry(state, Sym(Err));
    }
  }

  lemma ShiftsEntry(state: int, sym: int)
    requires 0 <= state < 27 && 0 <= sym < YYNTOKENS
    ensures var n := YyPact(state) + sym;
      0 <= n <= YYLAST && YyCheck(n) == sym && YyTable(n) > 0 ==> ActionOn(state, sym).Shift?
  {
  }

  lemma {:induction false} StatesInRange(st: Stack)
    ensures forall i :: 0 <= i < |StatesOf(st)| ==> 0 <= StatesOf(st)[i] < 27
  {
    hide StateOf;
    if st.Push? {
      StatesInRange(st.below);
    }
  }

  lemma RunRejects(all: seq<Token>, st: Stack, toks: seq<Token>, res: Option<Expr>, n: nat)
    requires Running(all, st, toks, res, n) && toks != [] && StateOf(st) != YYFINAL
    requires NotShifted(st, toks) && YyDefact(StateOf(st)) == 0
    ensures forall e :: !Parses(all, e)
  {
    hide ActionOn, YyPact, ReduceBy, Reaches, Sound;
    ConfGood(st, toks, res);
    OnDefault(st, toks);
    var a := Conf(st, toks, res);
    assert Step(a) == Reject;
    forall e ensures !Parses(all, e) {
      if Parses(all, e) {
        var m, b :| Reaches(Start(all), b, m) && GoodConfig(b) && Step(b) == Accept && b.res == Some(e);
        Deterministic(Start(all), a, b, n, m);
      }
    }
  }

  lemma RunAccepts(all: seq<Token>, st: Stack, toks: seq<Token>, res: Option<Expr>, n: nat)
    requires Running(all, st, toks, res, n) && StateOf(st) == YYFINAL
    ensures res.Some? && Parses(all, res.value)
  {
    hide ActionOn, YyPact, ReduceBy, Reaches, Sound;
    ConfGood(st, toks, res);
    var c := SoundAccept(st, toks, res, all);
    AcceptState(Conf(st, toks, res));
  }

  lemma WrapSum(x: nat, d: nat)
    ensures (x % ULONG_RANGE + d) % ULONG_RANGE == (x + d) % ULONG_RANGE
  {
    var q, r := x / ULONG_RANGE, x % ULONG_RANGE;
    assert x + d == q * ULONG_RANGE + (r + d);
    ModShift(ULONG_RANGE, r + d, q);
  }

  /** The tokens still to be shifted: the lookahead token, if one has been read, and
      what the text holds after it. */
  ghost predicate Ahead(text: string, cp: nat, toks: seq<Token>, yychar: Option<Token>, ended: bool)
    requires cp <= |text|
  {
    var more := if ended || yychar == Some(End) then [] else LexAll(text, cp);
    && toks == (if yychar.Some? then [yychar.value] + more else more)
    && (ended ==> yychar == None)
    && (ended || yychar == Some(End) ==> IsEnd(CharAt(text, cp)))
  }

  lemma AheadReads(text: string, cp: nat, toks: seq<Token>, t: Token)
    requires cp <= |text| && Ahead(text, cp, toks, None, false) && t == Lex(text, cp).0
    requires t == End ==> IsEnd(CharAt(text, Lex(text, cp).1))
    ensures Ahead(text, Lex(text, cp).1, toks, Some(t), false)
  {
    hide Lex;
  }

  lemma AheadStarts(text: string, cp: nat)
    requires cp <= |text|
    ensures Ahead(text, cp, LexAll(text, cp), None, false)
  {
  }

  lemma AheadEnds(text: string, cp: nat, toks: seq<Token>, la: Option<Token>)
    requires cp <= |text| && Ahead(text, cp, toks, la, true)
    ensures IsEnd(CharAt(text, cp))
  {
  }

  lemma AheadShifts(text: string, cp: nat, toks: seq<Token>, t: Token)
    requires cp <= |text| && Ahead(text, cp, toks, Some(t), false)
    ensures toks != [] && toks[0] == t && Ahead(text, cp, toks[1..], None, t == End)
  {
  }

  lemma AheadSome(text: string, cp: nat, toks: seq<Token>, la: Option<Token>)
    requires cp <= |text| && Ahead(text, cp, toks, la, false)
    ensures toks != [] && (la.Some? ==> toks[0] == la.value)
  {
  }

  /** struct parse_args, with the text that cp points into. */
  class ParseArgs {
    const text: string
    var cp: nat
    var res: Option<Expr>

    constructor (text: string)
      ensures this.text == text && cp == 0 && res == None
    {
      this.text, cp, res := text, 0, None;
    }

    method Yylex() returns (t: Token)
      requires cp <= |text|
      modifies this`cp
      ensures cp <= |text| && (t, cp) == Lex(text, old(cp))
      ensures t == End ==> IsEnd(CharAt(text, cp))
    {
      hide SkipBlanks, ScanDigits, SymbolToken;
      var exp := Skip(cp);
      if CharAt(text, exp) == '\0' {
        cp := exp;
        return End;
      }
      var result := CharAt(text, exp);
      exp := exp + 1;
      if '0' <= result <= '9' {
        var n;
        n, cp := ReadNumber(exp, DigitValue(result));
        return Number(n);
      }
      t, cp := ReadSymbol(result, exp);
    }

    method Skip(cp: nat) returns (exp: nat)
      requires cp <= |text|
      ensures exp == SkipBlanks(text, cp)
    {
      exp := cp;
      while CharAt(text, exp) == ' ' || CharAt(text, exp) == '\t'
        invariant cp <= exp <= |text| && SkipBlanks(text, exp) == SkipBlanks(text, cp)
        decreases |text| - exp
      {
        exp := exp + 1;
      }
    }

    method ReadNumber(start: nat, first: nat) returns (n: nat, exp: nat)
      requires start <= |text|
      ensures (n, exp) == ScanDigits(text, start, first)
    {
      n, exp := first, start;
      while '0' <= CharAt(text, exp) <= '9'
        invariant exp <= |text| && ScanDigits(text, exp, n) == ScanDigits(text, start, first)
        decreases |text| - exp
      {
        var tens := n * 10 % ULONG_RANGE;
        WrapSum(n * 10, DigitValue(CharAt(text, exp)));
        n := (tens + DigitValue(CharAt(text, exp))) % ULONG_RANGE;
        exp := exp + 1;
      }
    }

    method ReadSymbol(result: char, start: nat) returns (t: Token, exp: nat)
      requires 0 < start <= |text| && CharAt(text, start - 1) == result
      ensures var r := SymbolToken(result, CharAt(text, start)); (t, exp) == (r.0, start - 1 + r.1)
    {
      t, exp := Err, start;
      match result
      case '=' => if CharAt(text, exp) == '=' { exp := exp + 1; t := BinOp(Equal); }
      case '!' => if CharAt(text, exp) == '=' { exp := exp + 1; t := BinOp(NotEqual); } else { t := Bang; }
      case '&' => if CharAt(text, exp) == '&' { exp := exp + 1; t := BinOp(Land); }
      case '|' => if CharAt(text, exp) == '|' { exp := exp + 1; t := BinOp(Lor); }
      case '<' =>
        t := BinOp(LessThan);
        if CharAt(text, exp) == '=' { exp := exp + 1; t := BinOp(LessOrEqual); }
      case '>' =>
        t := BinOp(GreaterThan);
        if CharAt(text, exp) == '=' { exp := exp + 1; t := BinOp(GreaterOrEqual); }
      case '*' => t := BinOp(Mult);
      case '/' => t := BinOp(Divide);
      case '%' => t := BinOp(Module);
      case '+' => t := BinOp(Plus);
      case '-' => t := BinOp(Minus);
      case 'n' => t := VarN;
      case '?' => t := Quest;
      case ':' => t := Colon;
      case '(' => t := LParen;
      case ')' => t := RParen;
      case ';' => exp := exp - 1; t := End;
      case '\n' => exp := exp - 1; t := End;
      case '\0' => exp := exp - 1; t := End;
      case _ =>
    }

    /** yybackup: the state to shift to on the lookahead token, which is read if it
        is needed, or 0 for the default action. */
    method Backup(state: int, yychar: Option<Token>) returns (shift: int, la: Option<Token>)
      requires cp <= |text| && 0 <= state < 27
      modifies this`cp
      ensures cp <= |text|
      ensures if yychar == None && YyPact(state) != YYPACT_NINF
        then la.Some? && (la.value, cp) == Lex(text, old(cp)) && (la.value == End ==> IsEnd(CharAt(text, cp)))
        else la == yychar && cp == old(cp)
      ensures if shift > 0
        then YyPact(state) != YYPACT_NINF && la.Some? && ActionOn(state, Sym(la.value)) == Shift(shift)
        else YyPact(state) != YYPACT_NINF ==> la.Some? && !ActionOn(state, Sym(la.value)).Shift?
    {
      hide Lex, YyPact, YyCheck, YyTable, YyTranslate, Code, Sym, ActionOn;
      shift, la := 0, yychar;
      var yyn := YyPact(state);
      if yyn != YYPACT_NINF {
        if yychar == None {
          var t := Yylex();
          la := Some(t);
        }
        var yytoken := YyTranslate(Code(la.value));
        yyn := yyn + yytoken;
        TableAction(state, la.value);
        if 0 <= yyn <= YYLAST && YyCheck(yyn) == yytoken {
          shift := YyTable(yyn);
        }
      }
    }

    /** yyreduce: replace the right-hand side of a rule on the stacks. */
    method PopAndGo(states: seq<int>, values: seq<Value>, rule: int, ghost toks: seq<Token>, ghost got: Option<Expr>)
      returns (states': seq<int>, values': seq<Value>)
      requires GoodConfig(Config(states, values, toks, got)) && 2 <= rule < 14
      requires ReduceBy(Config(states, values, toks, got), rule).Go?
      modifies this`res
      ensures ReduceBy(Config(states, values, toks, got), rule)
           == Go(Config(states', values', toks, if rule == 2 then res else got))
      ensures if rule == 2 then res.Some? else res == old(res)
    {
      var rest := |values| - YyR2(rule);
      var val := ActionValue(rule, values[rest..]);
      if rule == 2 {
        res := Some(ExpOf(val));
      }
      values' := values[..rest] + [val];
      states' := states[..rest] + [GotoState(states[rest - 1], rule)];
    }

    /** yyerrlab1: pop states until one takes the error token; without one, abort. */
    method Recover(states: seq<int>) returns (aborts: bool)
      requires states != [] && forall i :: 0 <= i < |states| ==> 0 <= states[i] < 27
      ensures aborts
    {
      hide TakesError;
      var sp := |states| - 1;
      while sp > 0 && !TakesError(states[sp])
        invariant 0 <= sp < |states|
        invariant forall i :: sp < i < |states| ==> !TakesError(states[i])
      {
        sp := sp - 1;
      }
      NoRecovery(states[sp]);
      aborts := !TakesError(states[sp]);
    }

    method Yyparse() returns (result: int)
      requires cp <= |text|
      modifies this
      ensures result == 0 || result == 1
      ensures result == 0 <==> exists e :: Denotes(text, old(cp), e)
      ensures result == 0 ==> res.Some? && Denotes(text, old(cp), res.value)
      ensures result == 0 <==> exists e :: IsWritten(text[old(cp)..], e)
      ensures result == 0 ==> IsWritten(text[old(cp)..], res.value)
      ensures cp <= |text| && (result == 0 ==> IsEnd(CharAt(text, cp)))
    {
      hide Running, Reaches, Sound, Step, GoodConfig, ActionValue, StatesOf, ValuesOf, StateOf, Weight, YyPact,
           YyDefact, ActionOn, Parses, ReduceBy, Ahead, Lex, LexAll, IsWritten;
      WrittenExists(text, cp);
      var states, values, yychar := [0], [NoValue], None;
      ghost var all := LexAll(text, cp);
      ghost var st, toks, got, n := Bottom, all, None, 0;
      RunStarts(all);
      StackTop(st);
      AheadStarts(text, cp);
      while states[|states| - 1] != YYFINAL
        invariant cp <= |text| && |states| == |values| == Size(st) + 1 && states[Size(st)] == StateOf(st)
        invariant Running(all, st, toks, got, n) && states == StatesOf(st) && values == ValuesOf(st)
        invariant Ahead(text, cp, toks, yychar, StateOf(st) == YYFINAL)
        invariant got.Some? ==> res == got
        decreases 4 * |toks| + Weight(st)
      {
        var state := states[|states| - 1];
        ghost var cp0, la := cp, yychar;
        var shift;
        shift, yychar := Backup(state, yychar);
        if la != yychar {
          AheadReads(text, cp0, toks, yychar.value);
        }
        AheadSome(text, cp, toks, yychar);
        if shift > 0 {
          RunShifts(all, st, toks, got, n);
          AheadShifts(text, cp, toks, yychar.value);
          WeightPush(st, T(toks[0]));
          st, toks, n := Push(st, T(toks[0])), toks[1..], n + 1;
          states, values, yychar := states + [shift], values + [TokenValue(yychar.value)], None;
        } else if YyDefact(state) == 0 {
          RunRejects(all, st, toks, got, n);
          StatesInRange(st);
          var aborts := Recover(states);
          if aborts {
            return 1;
          }
        } else {
          ghost var st', got' := RunReduces(all, st, toks, got, n);
          states, values := PopAndGo(states, values, YyDefact(state), toks, got);
          st, got, n := st', got', n + 1;
        }
        StackTop(st);
      }
      RunAccepts(all, st, toks, got, n);
      AheadEnds(text, cp, toks, yychar);
      assert Denotes(text, old(cp), res.value);
      return 0;
    }
  }

  lemma WeightPush(st: Stack, sym: Symbol)
    requires sym.T?
    ensures Weight(Push(st, sym)) == Weight(st) + 3
  {
  }

  // ---------------------------------------------------------- texts that print

  /** A text denotes an expression if and only if its tokens are those of a derivation
      that the precedences select and that builds the expression. */
  lemma DenotesExactly(text: string, cp: nat, e: Expr)
    requires cp <= |text|
    ensures Denotes(text, cp, e)
       <==> exists d :: WellPrec(d) && Strip(d) == e && LexAll(text, cp) == Yield(d) + [End]
  {
    hide Parses, WellPrec, Strip, LexAll, Yield;
    var all := LexAll(text, cp);
    var toks := all[..|all| - 1];
    assert all == toks + [End];
    ParsesExactly(toks, e);
    forall d | LexAll(text, cp) == Yield(d) + [End]
      ensures Yield(d) == toks
    {
      assert Yield(d) == (Yield(d) + [End])[..|Yield(d)|];
    }
  }

  /** A text is an expression written out, up to its end, a semicolon or a newline. */
  ghost predicate IsWritten(text: string, e: Expr)
  {
    exists d, words, gaps, tail :: WellPrec(d) && Strip(d) == e && Spells(text, Yield(d), words, gaps, tail)
  }

  /** What a text denotes, by its characters. */
  lemma DenotesWritten(text: string, cp: nat, e: Expr)
    requires cp <= |text|
    ensures Denotes(text, cp, e) <==> IsWritten(text[cp..], e)
  {
    hide Denotes, WellPrec, Strip, LexAll, Yield, Spells;
    DenotesExactly(text, cp, e);
    if Denotes(text, cp, e) {
      var d :| WellPrec(d) && Strip(d) == e && LexAll(text, cp) == Yield(d) + [End];
      YieldNoErr(d);
      LexExactly(text, cp, Yield(d));
      var words, gaps, tail :| Spells(text[cp..], Yield(d), words, gaps, tail);
    }
    if IsWritten(text[cp..], e) {
      var d, words, gaps, tail :| WellPrec(d) && Strip(d) == e && Spells(text[cp..], Yield(d), words, gaps, tail);
      SpelledScans(text, cp, Yield(d), words, gaps, tail);
      assert WellPrec(d) && Strip(d) == e && LexAll(text, cp) == Yield(d) + [End];
    }
  }

  lemma WrittenExists(text: string, cp: nat)
    requires cp <= |text|
    ensures forall e :: Denotes(text, cp, e) <==> IsWritten(text[cp..], e)
  {
    hide Denotes, IsWritten;
    forall e ensures Denotes(text, cp, e) <==> IsWritten(text[cp..], e) {
      DenotesWritten(text, cp, e);
    }
  }

  lemma {:induction false} YieldNoErr(d: Cst)
    ensures Err !in Yield(d)
  {
    match d
    case CVar =>
    case CNum(_) =>
    case CNot(e) => YieldNoErr(e);
    case CParen(e) => YieldNoErr(e);
    case CBin(_, l, r) => YieldNoErr(l); YieldNoErr(r);
    case CCond(a, t, f) => YieldNoErr(a); YieldNoErr(t); YieldNoErr(f);
  }

  /** Any way to write out an expression, with the parentheses it needs or more,
      with any blanks, up to an end character, denotes the expression and nothing
      else. */
  lemma WrittenDenotes(d: Cst, gaps: seq<string>, tail: string, e: Expr)
    requires WellPrec(d) && NumbersFit(Strip(d))
    requires |gaps| == |Yield(d)| + 1 && Gaps(gaps) && IsEnd(CharAt(tail, 0))
    ensures Denotes(Spell(Yield(d), gaps) + tail, 0, e) <==> e == Strip(d)
  {
    hide Denotes, WellPrec, Strip, Spell, Yield;
    LexDerivation(d, gaps, tail);
    DenotesExactly(Spell(Yield(d), gaps) + tail, 0, e);
    if Denotes(Spell(Yield(d), gaps) + tail, 0, e) {
      var c :| WellPrec(c) && Strip(c) == e && Yield(d) + [End] == Yield(c) + [End];
      assert Yield(c) == (Yield(c) + [End])[..|Yield(c)|] == Yield(d);
      Unambiguous(c, d);
    }
  }

  /** Printing an expression, scanning and parsing it gives it back. */
  lemma PrintedDenotes(e: Expr, gaps: seq<string>, tail: string)
    requires NumbersFit(e) && |gaps| == |Print(e)| + 1 && Gaps(gaps) && IsEnd(CharAt(tail, 0))
    ensures Denotes(Spell(Print(e), gaps) + tail, 0, e)
  {
    hide Parses, Spell, NumbersFit;
    ParenthesizeOk(e, 0);
    LexDerivation(Parenthesize(e, 0), gaps, tail);
    PrintParses(e);
  }
}
