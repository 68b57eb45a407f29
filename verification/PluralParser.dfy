/**
 The table automaton of yyparse (plural.c) accepts exactly the token sequences that
 the grammar with its precedences derives, and builds the derived expression.
 */
module PluralParser {
  import opened Options
  import opened PluralSyntax
  import opened PluralTables

  function Sym(t: Token): int
  {
    YyTranslate(Code(t))
  }

  // -------------------------------------------------------- the automaton

  /** An entry of the value stack. */
  datatype Value = NoValue | TokenValue(t: Token) | ExpValue(e: Expr)

  /** The state and value stacks, the tokens not yet shifted (the lookahead token,
      if one has been read, first) and arg->res. */
  datatype Config = Config(states: seq<int>, values: seq<Value>, toks: seq<Token>, res: Option<Expr>)

  datatype Outcome = Go(c: Config) | Accept | Reject

  function ExpOf(v: Value): Expr
  {
    if v.ExpValue? then v.e else Var
  }

  function OpOf(v: Value): Operator
  {
    if v.TokenValue? && v.t.BinOp? then v.t.op else Mult
  }

  /** The semantic action of a rule, on the values of its right-hand side. */
  function ActionValue(rule: int, rhs: seq<Value>): Value
    requires 2 <= rule < 14 && |rhs| == YyR2(rule)
  {
    match rule
    case 3 => ExpValue(Qmop(ExpOf(rhs[0]), ExpOf(rhs[2]), ExpOf(rhs[4])))
    case 4 => ExpValue(Binary(Lor, ExpOf(rhs[0]), ExpOf(rhs[2])))
    case 5 => ExpValue(Binary(Land, ExpOf(rhs[0]), ExpOf(rhs[2])))
    case 6 => ExpValue(Binary(OpOf(rhs[1]), ExpOf(rhs[0]), ExpOf(rhs[2])))
    case 7 => ExpValue(Binary(OpOf(rhs[1]), ExpOf(rhs[0]), ExpOf(rhs[2])))
    case 8 => ExpValue(Binary(OpOf(rhs[1]), ExpOf(rhs[0]), ExpOf(rhs[2])))
    case 9 => ExpValue(Binary(OpOf(rhs[1]), ExpOf(rhs[0]), ExpOf(rhs[2])))
    case 10 => ExpValue(Lnot(ExpOf(rhs[1])))
    case 11 => ExpValue(Var)
    case 12 => ExpValue(Num(if rhs[0].TokenValue? && rhs[0].t.Number? then rhs[0].t.n else 0))
    case 13 => rhs[1]
    case _ => rhs[0]
  }

  predicate GoodConfig(c: Config)
  {
    |c.states| == |c.values| > 0 && 0 <= c.states[|c.states| - 1] < 27
  }

  function ReduceBy(c: Config, rule: int): Outcome
    requires GoodConfig(c) && 1 <= rule < 14
  {
    var n, len := |c.states|, YyR2(rule);
    if rule == 1 || n <= len || !(0 <= c.states[n - len - 1] < 27) then Reject
    else
      var v := ActionValue(rule, c.values[n - len..]);
      Go(Config(c.states[..n - len] + [GotoState(c.states[n - len - 1], rule)],
                c.values[..n - len] + [v], c.toks,
                if rule == 2 then Some(ExpOf(v)) else c.res))
  }

  /** From one yynewstate to the next. */
  function Step(c: Config): Outcome
    requires GoodConfig(c)
  {
    var state := c.states[|c.states| - 1];
    if state == YYFINAL then Accept
    else if YyPact(state) == YYPACT_NINF then
      (match DefaultAction(state)
       case Reduce(rule) => if 1 <= rule < 14 then ReduceBy(c, rule) else Reject
       case _ => Reject)
    else if c.toks == [] then Reject
    else
      match ActionOn(state, Sym(c.toks[0]))
      case Shift(s) => Go(Config(c.states + [s], c.values + [TokenValue(c.toks[0])], c.toks[1..], c.res))
      case Reduce(rule) => if 1 <= rule < 14 then ReduceBy(c, rule) else Reject
      case Error => Reject
  }

  function Start(toks: seq<Token>): Config
  {
    Config([0], [NoValue], toks, None)
  }

  ghost predicate Reaches(a: Config, b: Config, n: nat)
    decreases n
  {
    if n == 0 then a == b
    else GoodConfig(a) && Step(a).Go? && Reaches(Step(a).c, b, n - 1)
  }

  /** The automaton accepts and leaves the expression in arg->res. */
  ghost predicate Parses(toks: seq<Token>, e: Expr)
  {
    exists n, c :: Reaches(Start(toks), c, n) && GoodConfig(c) && Step(c) == Accept && c.res == Some(e)
  }

  lemma {:induction false} ReachesTrans(a: Config, b: Config, c: Config, m: nat, n: nat)
    requires Reaches(a, b, m) && Reaches(b, c, n)
    ensures Reaches(a, c, m + n)
    decreases m
  {
    hide Step, GoodConfig;
    if m > 0 {
      ReachesTrans(Step(a).c, b, c, m - 1, n);
    }
  }

  /** The automaton is deterministic: two halting runs end alike. */
  lemma {:induction false} Deterministic(a: Config, b: Config, c: Config, m: nat, n: nat)
    requires Reaches(a, b, m) && Reaches(a, c, n)
    requires GoodConfig(b) && !Step(b).Go? && GoodConfig(c) && !Step(c).Go?
    ensures b == c
    decreases m
  {
    hide Step, GoodConfig;
    if m > 0 && n > 0 {
      Deterministic(Step(a).c, b, c, m - 1, n - 1);
    }
  }

  // ------------------------------------------------- stacks of grammar symbols

  datatype Symbol = T(t: Token) | E(c: Cst) | S(c: Cst)

  datatype Stack = Bottom | Push(below: Stack, sym: Symbol)

  /** The state that shifting or going to a symbol leads to. */
  function Transition(state: int, sym: Symbol): int
    requires 0 <= state < 27
  {
    match sym
    case T(t) => (match ActionOn(state, Sym(t)) case Shift(s) => s case _ => 0)
    case E(_) => GotoState(state, 3)
    case S(_) => GotoState(state, 2)
  }

  function StateOf(st: Stack): (s: int)
    ensures 0 <= s < 27
  {
    if st.Bottom? then 0 else InRange(StateOf(st.below), st.sym); Transition(StateOf(st.below), st.sym)
  }

  lemma InRange(state: int, sym: Symbol)
    requires 0 <= state < 27
    ensures 0 <= Transition(state, sym) < 27
  {
    hide ActionOn, GotoState;
    match sym
    case T(t) => ShiftInRange(state, Sym(t));
    case E(_) => GotoInRange(state, 3);
    case S(_) => GotoInRange(state, 2);
  }

  lemma ShiftInRange(state: int, sym: int)
    requires 0 <= state < 27 && 0 <= sym < YYNTOKENS
    ensures ActionOn(state, sym).Shift? ==> 0 < ActionOn(state, sym).state < 27
  {
    hide YyPact, YyCheck, YyTable;
    var n := YyPact(state) + sym;
    if 0 <= n <= YYLAST {
      EntryInRange(n);
    }
  }

  lemma GotoInRange(state: int, rule: int)
    requires 0 <= state < 27 && 2 <= rule < 14
    ensures 0 <= GotoState(state, rule) < 27
  {
    hide YyPgoto, YyCheck, YyTable;
    var n := YyPgoto(YyR1(rule) - YYNTOKENS) + state;
    if 0 <= n <= YYLAST {
      EntryInRange(n);
    }
  }

  lemma EntryInRange(n: int)
    requires 0 <= n <= YYLAST
    ensures 0 <= YyTable(n) < 27
  {
  }

  ghost function StatesOf(st: Stack): seq<int>
  {
    if st.Bottom? then [0] else StatesOf(st.below) + [StateOf(st)]
  }

  function SymbolValue(sym: Symbol): Value
  {
    match sym
    case T(t) => TokenValue(t)
    case E(c) => ExpValue(Strip(c))
    case S(c) => ExpValue(Strip(c))
  }

  ghost function ValuesOf(st: Stack): seq<Value>
  {
    if st.Bottom? then [NoValue] else ValuesOf(st.below) + [SymbolValue(st.sym)]
  }

  ghost function SymbolYield(sym: Symbol): seq<Token>
  {
    match sym case T(t) => [t] case E(c) => Yield(c) case S(c) => Yield(c)
  }

  ghost function StackYield(st: Stack): seq<Token>
  {
    if st.Bottom? then [] else StackYield(st.below) + SymbolYield(st.sym)
  }

  ghost function Conf(st: Stack, toks: seq<Token>, res: Option<Expr>): Config
  {
    Config(StatesOf(st), ValuesOf(st), toks, res)
  }

  ghost function Size(st: Stack): nat
  {
    if st.Bottom? then 0 else 1 + Size(st.below)
  }

  lemma {:induction false} ConfGood(st: Stack, toks: seq<Token>, res: Option<Expr>)
    ensures GoodConfig(Conf(st, toks, res))
    ensures |StatesOf(st)| == |ValuesOf(st)| == Size(st) + 1
    ensures StatesOf(st)[Size(st)] == StateOf(st)
  {
    if st.Push? {
      ConfGood(st.below, toks, res);
    }
  }

  /** A token that may follow an expression of the given level without becoming
      part of it. */
  predicate MayFollow(t: Token, level: int)
  {
    match t
    case BinOp(op) => Prec(op) <= level
    case Quest => 1 <= level
    case _ => true
  }

  lemma SymRange(t: Token)
    ensures Sym(t) ==
      match t
      case End => 0 case Err => 1 case Quest => 3 case Bang => 10 case Number(_) => 11 case Colon => 12
      case VarN => 13 case LParen => 14 case RParen => 15
      case BinOp(op) => Prec(op) + 3
  {
  }

  // ------------------------------------------------------------ valid stacks

  /** Stacks the automaton can have built: every shift and goto is one the tables
      make, expressions are derivations that fit their place, and an operator
      follows only what it may follow. */
  ghost predicate Valid(st: Stack)
  {
    st.Push? ==>
      && Valid(st.below)
      && match st.sym
         case T(t) =>
           && YyPact(StateOf(st.below)) != YYPACT_NINF && ActionOn(StateOf(st.below), Sym(t)).Shift?
           && (st.below.Push? && st.below.sym.E? ==> MayFollow(t, Level(st.below.sym.c)))
         case E(c) =>
           ExpStart(StateOf(st.below)) && WellPrec(c) && Level(c) >= MinLevel(StateOf(st.below))
         case S(c) =>
           st.below == Bottom && WellPrec(c)
  }

  /** What the state on top says about the symbol on top and the state below. */
  lemma TopShape(st: Stack)
    requires Valid(st)
    ensures StateOf(st) == 0 <==> st.Bottom?
    ensures st.Push? ==> match st.sym
      case E(_) => StateOf(st) == AfterExp(StateOf(st.below))
      case S(_) => StateOf(st) == 5
      case T(t) => 0 < StateOf(st) < 27 && Sym(t) == AccessSym(StateOf(st)) && ShiftOk(StateOf(st.below), Sym(t))
  {
    if st.Push? {
      InRange(StateOf(st.below), st.sym);
      match st.sym
      case E(_) => GotoExp(StateOf(st.below), 3);
      case S(_) => GotoExp(0, 3);
      case T(t) => ShiftSource(StateOf(st.below), Sym(t));
    }
  }

  /** A stack with a symbol for an expression on top. */
  predicate ExpTop(st: Stack)
  {
    st.Push? && st.sym.E?
  }

  predicate TokTop(st: Stack, sym: int)
  {
    st.Push? && st.sym.T? && Sym(st.sym.t) == sym
  }

  lemma AfterExpTop(st: Stack)
    requires Valid(st) && StateOf(st) in {6, 7, 8, 18, 19, 20, 21, 22, 23, 24, 26}
    ensures ExpTop(st) && ExpStart(StateOf(st.below)) && StateOf(st) == AfterExp(StateOf(st.below))
  {
    TopShape(st);
  }

  /** State 19 to 24: exp operator exp. */
  lemma BinShape(st: Stack)
    requires Valid(st) && 19 <= StateOf(st) <= 24
    ensures ExpTop(st) && TokTop(st.below, StateOf(st) - 15) && st.below.sym.t.BinOp? && ExpTop(st.below.below)
    ensures Prec(st.below.sym.t.op) == StateOf(st) - 18
    ensures Level(st.sym.c) > StateOf(st) - 18 && Level(st.below.below.sym.c) >= StateOf(st) - 18
    ensures ExpStart(StateOf(st.below.below.below)) && MinLevel(StateOf(st.below.below.below)) <= StateOf(st) - 18
  {
    hide ActionOn, DefaultAction, GotoState, Transition, YyDefact, YyPact;
    AfterExpTop(st);
    var b := st.below;
    TopShape(b);
    SymRange(b.sym.t);
    AfterExpTop(b.below);
    OperatorShifted(StateOf(b.below.below), Sym(b.sym.t));
  }

  /** State 26: exp ? exp : exp. */
  lemma CondShape(st: Stack)
    requires Valid(st) && StateOf(st) == 26
    ensures ExpTop(st) && TokTop(st.below, 12) && ExpTop(st.below.below) && TokTop(st.below.below.below, 3)
    ensures st.below.sym.t == Colon && st.below.below.below.sym.t == Quest
    ensures ExpTop(st.below.below.below.below) && Level(st.below.below.below.below.sym.c) >= 1
    ensures ExpStart(StateOf(st.below.below.below.below.below))
    ensures MinLevel(StateOf(st.below.below.below.below.below)) == 0
  {
    hide ActionOn, DefaultAction, GotoState, Transition, YyDefact, YyPact;
    AfterExpTop(st);
    var b := st.below;
    TopShape(b);
    SymRange(b.sym.t);
    AfterExpTop(b.below);
    var d := b.below.below;
    TopShape(d);
    SymRange(d.sym.t);
    AfterExpTop(d.below);
    OperatorShifted(StateOf(d.below.below), Sym(d.sym.t));
  }

  /** State 17: ( exp ). */
  lemma ParenShape(st: Stack)
    requires Valid(st) && StateOf(st) == 17
    ensures TokTop(st, 15) && ExpTop(st.below) && TokTop(st.below.below, 14)
    ensures st.sym.t == RParen && st.below.below.sym.t == LParen
    ensures ExpStart(StateOf(st.below.below.below))
  {
    hide ActionOn, DefaultAction, GotoState, Transition, YyPact, YyDefact;
    TopShape(st);
    SymRange(st.sym.t);
    AfterExpTop(st.below);
    var b := st.below.below;
    TopShape(b);
    SymRange(b.sym.t);
  }

  /** State 7: ! exp. */
  lemma NotShape(st: Stack)
    requires Valid(st) && StateOf(st) == 7
    ensures ExpTop(st) && TokTop(st.below, 10) && st.below.sym.t == Bang && Level(st.sym.c) == 7
    ensures ExpStart(StateOf(st.below.below))
  {
    hide ActionOn, DefaultAction, GotoState, Transition, YyPact, YyDefact;
    AfterExpTop(st);
    TopShape(st.below);
    SymRange(st.below.sym.t);
  }

  /** States 2 and 3: number, n. */
  lemma LeafShape(st: Stack)
    requires Valid(st) && (StateOf(st) == 2 || StateOf(st) == 3)
    ensures st.Push? && st.sym.T? && ExpStart(StateOf(st.below))
    ensures if StateOf(st) == 2 then st.sym.t.Number? else st.sym.t == VarN
  {
    TopShape(st);
    SymRange(st.sym.t);
  }

  // -------------------------------------------------------------- reductions

  ghost function Drop(st: Stack, n: nat): Stack
    requires n <= Size(st)
    decreases n
  {
    if n == 0 then st else Drop(st.below, n - 1)
  }

  lemma {:induction false} DropSlices(st: Stack, n: nat)
    requires n <= Size(st)
    ensures |StatesOf(st)| == |ValuesOf(st)| == Size(st) + 1 && Size(Drop(st, n)) == Size(st) - n
    ensures StatesOf(st)[..Size(st) + 1 - n] == StatesOf(Drop(st, n))
    ensures ValuesOf(st)[..Size(st) + 1 - n] == ValuesOf(Drop(st, n))
    decreases n
  {
    hide StateOf, SymbolValue, GoodConfig;
    ConfGood(st, [], None);
    if n > 0 {
      DropSlices(st.below, n - 1);
      SlicePush(StatesOf(st.below), StateOf(st), Size(st) + 1 - n);
      SlicePush(ValuesOf(st.below), SymbolValue(st.sym), Size(st) + 1 - n);
    }
  }

  lemma SlicePush<X>(s: seq<X>, x: X, k: nat)
    requires k <= |s|
    ensures (s + [x])[..k] == s[..k]
  {
  }

  lemma SliceFromPush<X>(s: seq<X>, x: X, k: nat)
    requires k <= |s|
    ensures (s + [x])[k..] == s[k..] + [x]
  {
  }

  /** The values a reduction by a rule of length len looks at. */
  ghost function TopValues(st: Stack, len: nat): seq<Value>
    requires len <= Size(st)
    decreases len
  {
    if len == 0 then [] else TopValues(st.below, len - 1) + [SymbolValue(st.sym)]
  }

  lemma {:induction false} TopValuesAre(st: Stack, len: nat)
    requires len <= Size(st)
    ensures |ValuesOf(st)| == Size(st) + 1
    ensures ValuesOf(st)[Size(st) + 1 - len..] == TopValues(st, len) && |TopValues(st, len)| == len
    decreases len
  {
    hide StateOf, SymbolValue, GoodConfig;
    ConfGood(st, [], None);
    if len > 0 {
      TopValuesAre(st.below, len - 1);
      SliceFromPush(ValuesOf(st.below), SymbolValue(st.sym), Size(st) + 1 - len);
    }
  }

  /** Reducing replaces the right-hand side by the left-hand side, with the value
      the action computes. */
  lemma Reduction(st: Stack, rule: int, sym: Symbol, toks: seq<Token>, res: Option<Expr>)
    requires 2 <= rule < 14 && YyR2(rule) <= Size(st)
    requires if rule == 2 then sym.S? && Drop(st, YyR2(rule)) == Bottom
             else sym.E? && ExpStart(StateOf(Drop(st, YyR2(rule))))
    requires |TopValues(st, YyR2(rule))| == YyR2(rule)
    requires ActionValue(rule, TopValues(st, YyR2(rule))) == SymbolValue(sym)
    ensures GoodConfig(Conf(st, toks, res))
    ensures ReduceBy(Conf(st, toks, res), rule)
         == Go(Conf(Push(Drop(st, YyR2(rule)), sym), toks, if rule == 2 then Some(Strip(sym.c)) else res))
  {
    hide YyR2, ActionValue, TopValues, Drop, GotoState, StateOf, StatesOf, ValuesOf, SymbolValue, Size;
    var len := YyR2(rule);
    var b := Drop(st, len);
    ConfGood(st, toks, res);
    ConfGood(b, toks, res);
    DropSlices(st, len);
    TopValuesAre(st, len);
    GotoPushed(b, rule, sym);
    assert StatesOf(st)[..Size(st) + 1 - len][Size(st) - len] == StatesOf(st)[Size(st) - len];
    PushedStacks(b, sym);
  }

  /** The state that a reduction by a rule goes to. */
  lemma GotoPushed(b: Stack, rule: int, sym: Symbol)
    requires 2 <= rule < 14
    requires if rule == 2 then sym.S? && b == Bottom else sym.E? && ExpStart(StateOf(b))
    ensures GotoState(StateOf(b), rule) == StateOf(Push(b, sym))
  {
    hide GotoState, ActionOn;
    if rule != 2 {
      GotoExp(StateOf(b), rule);
      GotoExp(StateOf(b), 3);
    }
  }

  lemma PushedStacks(b: Stack, sym: Symbol)
    ensures StatesOf(Push(b, sym)) == StatesOf(b) + [StateOf(Push(b, sym))]
    ensures ValuesOf(Push(b, sym)) == ValuesOf(b) + [SymbolValue(sym)]
    ensures sym.S? ==> ExpOf(SymbolValue(sym)) == Strip(sym.c)
  {
  }

  // --------------------------------------------------------------- soundness

  /** The next token may follow the expression on top. */
  ghost predicate Follows(st: Stack, toks: seq<Token>)
  {
    ExpTop(st) && toks != [] ==> MayFollow(toks[0], Level(st.sym.c))
  }

  /** arg->res holds the expression once the start symbol has been reduced. */
  ghost predicate ResultOk(st: Stack, res: Option<Expr>)
  {
    match st
    case Push(_, S(c)) => res == Some(Strip(c))
    case Push(Push(_, S(c)), T(_)) => res == Some(Strip(c))
    case _ => true
  }

  /** What every run keeps: valid stacks, and no token lost or invented. */
  ghost predicate Sound(st: Stack, toks: seq<Token>, res: Option<Expr>, all: seq<Token>)
  {
    Valid(st) && Follows(st, toks) && ResultOk(st, res) && StackYield(st) + toks == all
  }

  lemma ShiftSound(st: Stack, toks: seq<Token>, res: Option<Expr>, all: seq<Token>)
    requires Sound(st, toks, res, all) && toks != []
    requires YyPact(StateOf(st)) != YYPACT_NINF && ActionOn(StateOf(st), Sym(toks[0])).Shift?
    ensures Sound(Push(st, T(toks[0])), toks[1..], res, all)
    ensures Conf(Push(st, T(toks[0])), toks[1..], res)
         == Config(StatesOf(st) + [ActionOn(StateOf(st), Sym(toks[0])).state],
                   ValuesOf(st) + [TokenValue(toks[0])], toks[1..], res)
  {
    hide ActionOn, YyPact, Valid, ResultOk, StateOf, StatesOf, ValuesOf, Follows, StackYield;
    ShiftedShape(st, toks, res);
    ShiftedStacks(st, toks[0]);
    NothingFollows(st, toks[0], toks[1..]);
    assert StackYield(st) + [toks[0]] + toks[1..] == StackYield(st) + toks;
  }

  lemma ShiftedShape(st: Stack, toks: seq<Token>, res: Option<Expr>)
    requires toks != [] && Valid(st) && ResultOk(st, res) && Follows(st, toks)
    requires YyPact(StateOf(st)) != YYPACT_NINF && ActionOn(StateOf(st), Sym(toks[0])).Shift?
    ensures Valid(Push(st, T(toks[0]))) && ResultOk(Push(st, T(toks[0])), res)
  {
    hide ActionOn, YyPact, StateOf;
    ShiftSource(StateOf(st), Sym(toks[0]));
    TopShape(st);
  }

  lemma ShiftedStacks(st: Stack, t: Token)
    requires ActionOn(StateOf(st), Sym(t)).Shift?
    ensures StatesOf(Push(st, T(t))) == StatesOf(st) + [ActionOn(StateOf(st), Sym(t)).state]
    ensures ValuesOf(Push(st, T(t))) == ValuesOf(st) + [TokenValue(t)]
  {
    hide ActionOn;
  }

  lemma NothingFollows(st: Stack, t: Token, toks: seq<Token>)
    ensures Follows(Push(st, T(t)), toks)
    ensures StackYield(Push(st, T(t))) == StackYield(st) + [t]
  {
  }

  /** The derivation a reduction of the default rule of a state builds. */
  ghost function Reduced(st: Stack): Symbol
    requires Valid(st) && st.Push? && StateOf(st) != 9 && YyDefact(StateOf(st)) != 0
  {
    var k := StateOf(st);
    TopShape(st);
    if k == 2 then LeafShape(st); E(CNum(st.sym.t.n))
    else if k == 3 then E(CVar)
    else if k == 6 then AfterExpTop(st); S(st.sym.c)
    else if k == 7 then NotShape(st); E(CNot(st.sym.c))
    else if k == 17 then ParenShape(st); E(CParen(st.below.sym.c))
    else if k == 26 then
      CondShape(st);
      E(CCond(st.below.below.below.below.sym.c, st.below.below.sym.c, st.sym.c))
    else
      BinShape(st);
      E(CBin(st.below.sym.t.op, st.below.below.sym.c, st.sym.c))
  }

  /** A default reduction in a state is made on tokens the state does not shift. */
  ghost predicate NotShifted(st: Stack, toks: seq<Token>)
  {
    toks != [] && YyPact(StateOf(st)) != YYPACT_NINF ==> !ActionOn(StateOf(st), Sym(toks[0])).Shift?
  }

  lemma ReducedFollows(st: Stack, toks: seq<Token>)
    requires Valid(st) && st.Push? && StateOf(st) != 9 && YyDefact(StateOf(st)) != 0
    requires NotShifted(st, toks) && Reduced(st).E? && toks != []
    ensures MayFollow(toks[0], Level(Reduced(st).c))
  {
    hide ActionOn, DefaultAction, GotoState, Transition;
    var t := toks[0];
    SymRange(t);
    if 19 <= StateOf(st) <= 26 {
      AfterExpTop(st);
      ExpRow(StateOf(st.below), Sym(t));
      if StateOf(st) == 26 { CondShape(st); } else { BinShape(st); }
    }
  }

  lemma ReduceSound(st: Stack, toks: seq<Token>, res: Option<Expr>, all: seq<Token>)
    returns (st': Stack, res': Option<Expr>)
    requires Sound(st, toks, res, all) && st.Push? && StateOf(st) != 9 && YyDefact(StateOf(st)) != 0
    requires NotShifted(st, toks)
    ensures 2 <= YyDefact(StateOf(st)) < 14 && GoodConfig(Conf(st, toks, res))
    ensures ReduceBy(Conf(st, toks, res), YyDefact(StateOf(st))) == Go(Conf(st', toks, res'))
    ensures Sound(st', toks, res', all) && Weight(st') < Weight(st) && st'.Push? && !st'.sym.T?
  {
    hide ActionOn, DefaultAction, GotoState, Transition, GoodConfig, ReduceBy;
    var rule := YyDefact(StateOf(st));
    ReducedShape(st);
    st' := Push(Drop(st, YyR2(rule)), Reduced(st));
    res' := if rule == 2 then Some(Strip(Reduced(st).c)) else res;
    Reduction(st, rule, Reduced(st), toks, res);
    if Reduced(st).E? && toks != [] {
      ReducedFollows(st, toks);
    }
    assert StackYield(st') + toks == all;
    ReducedLighter(st);
  }

  /** The right-hand side on the stack has the yield and the value of what it is
      reduced to. */
  ghost predicate ShapeOk(st: Stack)
    requires Valid(st) && st.Push? && StateOf(st) != 9 && YyDefact(StateOf(st)) != 0
  {
    var rule := YyDefact(StateOf(st)); var len := YyR2(rule);
    && 2 <= rule < 14 && len <= Size(st)
    && Valid(Push(Drop(st, len), Reduced(st)))
    && (if rule == 2 then Reduced(st).S? && Drop(st, len) == Bottom
        else Reduced(st).E? && ExpStart(StateOf(Drop(st, len))))
    && |TopValues(st, len)| == len && ActionValue(rule, TopValues(st, len)) == SymbolValue(Reduced(st))
    && StackYield(Push(Drop(st, len), Reduced(st))) == StackYield(st)
  }

  lemma ReducedShape(st: Stack)
    requires Valid(st) && st.Push? && StateOf(st) != 9 && YyDefact(StateOf(st)) != 0
    ensures ShapeOk(st)
  {
    hide ShapeOk;
    var k := StateOf(st);
    TopShape(st);
    if k == 2 || k == 3 {
      LeafReduced(st);
    } else if k == 6 {
      StartReduced(st);
    } else if k == 7 {
      NotReduced(st);
    } else if k == 17 {
      ParenReduced(st);
    } else if k == 26 {
      CondReduced(st);
    } else {
      BinReduced(st);
    }
  }

  lemma LeafReduced(st: Stack)
    requires Valid(st) && st.Push? && (StateOf(st) == 2 || StateOf(st) == 3)
    ensures ShapeOk(st)
  {
    LeafShape(st);
    assert TopValues(st, 1) == [SymbolValue(st.sym)] by { assert TopValues(st.below, 0) == []; }
    assert Drop(st, 1) == st.below;
  }

  lemma StartReduced(st: Stack)
    requires Valid(st) && st.Push? && StateOf(st) == 6
    ensures ShapeOk(st)
  {
    AfterExpTop(st);
    TopShape(st.below);
    assert TopValues(st, 1) == [SymbolValue(st.sym)] by { assert TopValues(st.below, 0) == []; }
    assert Drop(st, 1) == st.below;
  }

  lemma Top2(st: Stack)
    requires st.Push? && st.below.Push?
    ensures Size(st) >= 2 && TopValues(st, 2) == [SymbolValue(st.below.sym), SymbolValue(st.sym)]
    ensures Drop(st, 2) == st.below.below
  {
    assert TopValues(st.below.below, 0) == [];
    assert TopValues(st.below, 1) == [SymbolValue(st.below.sym)];
    assert Drop(st.below, 1) == st.below.below;
  }

  lemma Top3(st: Stack)
    requires st.Push? && st.below.Push? && st.below.below.Push?
    ensures Size(st) >= 3
    ensures TopValues(st, 3) == [SymbolValue(st.below.below.sym), SymbolValue(st.below.sym), SymbolValue(st.sym)]
    ensures Drop(st, 3) == st.below.below.below
  {
    Top2(st.below);
  }

  lemma Top5(st: Stack)
    requires st.Push? && st.below.Push? && st.below.below.Push? && st.below.below.below.Push?
    requires st.below.below.below.below.Push?
    ensures Size(st) >= 5
    ensures TopValues(st, 5) == [SymbolValue(st.below.below.below.below.sym), SymbolValue(st.below.below.below.sym),
                                 SymbolValue(st.below.below.sym), SymbolValue(st.below.sym), SymbolValue(st.sym)]
    ensures Drop(st, 5) == st.below.below.below.below.below
  {
    Top3(st.below.below);
    assert TopValues(st.below, 4) == TopValues(st.below.below, 3) + [SymbolValue(st.below.sym)];
    assert Drop(st.below, 4) == Drop(st.below.below, 3);
  }

  lemma NotReduced(st: Stack)
    requires Valid(st) && st.Push? && StateOf(st) == 7
    ensures ShapeOk(st)
  {
    NotShape(st);
    var d := E(CNot(st.sym.c));
    assert Valid(Push(st.below.below, d));
    assert Reduced(st) == d && YyDefact(7) == 10 && YyR2(10) == 2;
    hide ActionOn, DefaultAction, GotoState, Transition, YyPact, Valid, StateOf, YyDefact, YyR2, Reduced;
    Top2(st);
    YieldOf2(st);
    assert ActionValue(10, [SymbolValue(st.below.sym), SymbolValue(st.sym)]) == SymbolValue(d);
    assert StackYield(Push(st.below.below, d)) == StackYield(st);
  }

  lemma ParenReduced(st: Stack)
    requires Valid(st) && st.Push? && StateOf(st) == 17
    ensures ShapeOk(st)
  {
    ParenShape(st);
    var d := E(CParen(st.below.sym.c));
    ParenValid(st);
    assert Reduced(st) == d && YyDefact(17) == 13 && YyR2(13) == 3;
    hide ActionOn, DefaultAction, GotoState, Transition, YyPact, Valid, StateOf, YyDefact, YyR2, Reduced;
    Top3(st);
    YieldOf3(st);
    assert ActionValue(13, [SymbolValue(st.below.below.sym), SymbolValue(st.below.sym), SymbolValue(st.sym)])
        == SymbolValue(d);
    assert StackYield(Push(st.below.below.below, d)) == StackYield(st);
  }

  lemma ParenValid(st: Stack)
    requires Valid(st) && StateOf(st) == 17
    ensures st.Push? && ExpTop(st.below) && st.below.below.Push?
    ensures Valid(Push(st.below.below.below, E(CParen(st.below.sym.c))))
  {
    hide ActionOn, DefaultAction, GotoState, Transition, YyPact, StateOf;
    ParenShape(st);
    assert Valid(st.below);
    assert Valid(st.below.below);
  }

  lemma BinReduced(st: Stack)
    requires Valid(st) && st.Push? && 19 <= StateOf(st) <= 24
    ensures ShapeOk(st)
  {
    BinIs(st);
    BinShape(st);
    BinAction(StateOf(st), st);
    hide *;
    BinValid(st);
    Top3(st);
    BinYield(st);
  }

  lemma BinIs(st: Stack)
    requires Valid(st) && st.Push? && 19 <= StateOf(st) <= 24
    ensures BinParts(st) && Reduced(st) == E(CBin(st.below.sym.t.op, st.below.below.sym.c, st.sym.c))
  {
    BinShape(st);
    hide ActionOn, DefaultAction, GotoState, Transition, YyPact, StateOf;
  }

  lemma BinValid(st: Stack)
    requires Valid(st) && 19 <= StateOf(st) <= 24
    ensures BinParts(st) && ExpStart(StateOf(st.below.below.below))
    ensures Valid(Push(st.below.below.below, E(CBin(st.below.sym.t.op, st.below.below.sym.c, st.sym.c))))
  {
    hide ActionOn, DefaultAction, GotoState, Transition, YyPact, StateOf;
    BinShape(st);
    assert Valid(st.below);
    assert Valid(st.below.below);
  }

  predicate BinParts(st: Stack)
  {
    ExpTop(st) && st.below.Push? && st.below.sym.T? && st.below.sym.t.BinOp? && ExpTop(st.below.below)
  }

  lemma BinYield(st: Stack)
    requires BinParts(st)
    ensures StackYield(Push(st.below.below.below, E(CBin(st.below.sym.t.op, st.below.below.sym.c, st.sym.c))))
         == StackYield(st)
  {
    YieldOf3(st);
  }

  /** Rules 4 to 9 build the operator that was shifted. */
  lemma BinAction(k: int, st: Stack)
    requires 19 <= k <= 24 && ExpTop(st) && TokTop(st.below, k - 15) && st.below.sym.t.BinOp? && ExpTop(st.below.below)
    requires Prec(st.below.sym.t.op) == k - 18
    ensures YyDefact(k) == k - 15 && YyR2(k - 15) == 3
    ensures ActionValue(k - 15, [SymbolValue(st.below.below.sym), SymbolValue(st.below.sym), SymbolValue(st.sym)])
         == ExpValue(Binary(st.below.sym.t.op, Strip(st.below.below.sym.c), Strip(st.sym.c)))
  {
  }

  lemma CondReduced(st: Stack)
    requires Valid(st) && st.Push? && StateOf(st) == 26
    ensures ShapeOk(st)
  {
    hide ActionOn, DefaultAction, GotoState, Transition, YyPact, StateOf, Valid, Reduced, StackYield, ExpStart;
    CondIs(st);
    CondValid(st);
    Top5(st);
    CondYield(st);
  }

  lemma CondIs(st: Stack)
    requires Valid(st) && StateOf(st) == 26
    ensures CondParts(st) && ExpStart(StateOf(st.below.below.below.below.below))
    ensures Reduced(st) == E(CCond(st.below.below.below.below.sym.c, st.below.below.sym.c, st.sym.c))
  {
    CondShape(st);
    hide ActionOn, DefaultAction, GotoState, Transition, YyPact, StateOf;
  }

  lemma CondValid(st: Stack)
    requires Valid(st) && StateOf(st) == 26
    ensures CondParts(st) && Valid(Push(st.below.below.below.below.below,
        E(CCond(st.below.below.below.below.sym.c, st.below.below.sym.c, st.sym.c))))
  {
    hide ActionOn, DefaultAction, GotoState, Transition, YyPact, StateOf;
    CondShape(st);
    assert Valid(st.below);
    assert Valid(st.below.below);
    assert Valid(st.below.below.below);
    assert Valid(st.below.below.below.below);
    assert Valid(st.below.below.below.below.below);
  }

  predicate CondParts(st: Stack)
  {
    && ExpTop(st) && TokTop(st.below, 12) && ExpTop(st.below.below) && TokTop(st.below.below.below, 3)
    && st.below.sym.t == Colon && st.below.below.below.sym.t == Quest && ExpTop(st.below.below.below.below)
  }

  lemma CondYield(st: Stack)
    requires CondParts(st)
    ensures StackYield(Push(st.below.below.below.below.below,
        E(CCond(st.below.below.below.below.sym.c, st.below.below.sym.c, st.sym.c)))) == StackYield(st)
  {
    YieldOf3(st);
    YieldOf2(st.below.below.below);
    Concat5(StackYield(st.below.below.below.below.below), Yield(st.below.below.below.below.sym.c), [Quest],
            Yield(st.below.below.sym.c), [Colon], Yield(st.sym.c));
  }

  lemma Concat5<X>(b: seq<X>, a: seq<X>, q: seq<X>, t: seq<X>, c: seq<X>, f: seq<X>)
    ensures (b + (a + q)) + (t + c + f) == b + (a + q + t + c + f)
  {
  }

  lemma YieldOf2(st: Stack)
    requires st.Push? && st.below.Push?
    ensures StackYield(st) == StackYield(st.below.below) + (SymbolYield(st.below.sym) + SymbolYield(st.sym))
  {
  }

  lemma YieldOf3(st: Stack)
    requires st.Push? && st.below.Push? && st.below.below.Push?
    ensures StackYield(st) == StackYield(st.below.below.below)
      + (SymbolYield(st.below.below.sym) + SymbolYield(st.below.sym) + SymbolYield(st.sym))
  {
    YieldOf2(st);
  }

  // --------------------------------------------------------------- termination

  ghost function Weight(st: Stack): nat
  {
    if st.Bottom? then 0 else Weight(st.below) + (match st.sym case T(_) => 3 case E(_) => 2 case S(_) => 1)
  }

  lemma {:induction false} DropWeight(st: Stack, n: nat)
    requires n <= Size(st)
    ensures Weight(Drop(st, n)) + n <= Weight(st)
    decreases n
  {
    if n > 0 {
      DropWeight(st.below, n - 1);
    }
  }

  /** A reduction makes the stack lighter. */
  lemma ReducedLighter(st: Stack)
    requires Valid(st) && st.Push? && StateOf(st) != 9 && YyDefact(StateOf(st)) != 0
    requires var len := YyR2(YyDefact(StateOf(st))); len <= Size(st) && len >= 1
    ensures Weight(Push(Drop(st, YyR2(YyDefact(StateOf(st)))), Reduced(st))) < Weight(st)
  {
    hide ActionOn, DefaultAction, GotoState, Transition, YyPact, Valid;
    var k := StateOf(st);
    DropWeight(st, YyR2(YyDefact(k)));
    if k == 2 || k == 3 {
      LeafShape(st);
      assert Drop(st, 1) == st.below;
    } else if k == 6 {
      AfterExpTop(st);
      assert Drop(st, 1) == st.below;
    } else if k == 7 {
      NotShape(st);
      Top2(st);
    }
  }

  /** One step of the automaton keeps the invariant and makes progress; the lemma
      finds the new stack of symbols. */
  lemma SoundStep(st: Stack, toks: seq<Token>, res: Option<Expr>, all: seq<Token>)
    returns (st': Stack, toks': seq<Token>, res': Option<Expr>)
    requires Sound(st, toks, res, all)
    requires GoodConfig(Conf(st, toks, res)) && Step(Conf(st, toks, res)).Go?
    ensures Step(Conf(st, toks, res)) == Go(Conf(st', toks', res')) && Sound(st', toks', res', all)
    ensures 4 * |toks'| + Weight(st') < 4 * |toks| + Weight(st)
  {
    hide Sound, Valid, ReduceBy, ActionOn, YyPact;
    ConfGood(st, toks, res);
    var state := StateOf(st);
    SoundValid(st, toks, res, all);
    if YyPact(state) != YYPACT_NINF && ActionOn(state, Sym(toks[0])).Shift? {
      ShiftSound(st, toks, res, all);
      st', toks', res' := Push(st, T(toks[0])), toks[1..], res;
    } else {
      DefaultReduction(state, if toks == [] then 0 else Sym(toks[0]));
      assert st.Push? by { TopShape(st); }
      st', res' := ReduceSound(st, toks, res, all);
      toks' := toks;
    }
  }

  lemma SoundValid(st: Stack, toks: seq<Token>, res: Option<Expr>, all: seq<Token>)
    requires Sound(st, toks, res, all)
    ensures Valid(st)
  {
  }

  /** Every reduction is the state's default reduction. */
  lemma DefaultReduction(state: int, sym: int)
    requires 0 <= state < 27 && 0 <= sym < YYNTOKENS
    ensures ActionOn(state, sym).Reduce? ==> ActionOn(state, sym) == DefaultAction(state)
    ensures DefaultAction(state).Reduce? ==> DefaultAction(state).rule == YyDefact(state) != 0
    ensures YyDefact(0) == 0
  {
  }

  /** State 9: start, end token. */
  lemma AcceptShape(st: Stack)
    requires Valid(st) && StateOf(st) == YYFINAL
    ensures st.Push? && st.sym == T(End) && st.below.Push? && st.below.sym.S?
    ensures st.below.below == Bottom && WellPrec(st.below.sym.c)
  {
    hide ActionOn, DefaultAction, GotoState, Transition, YyPact, YyDefact;
    TopShape(st);
    SymRange(st.sym.t);
    TopShape(st.below);
  }

  /** At acceptance the stack holds one derivation of everything before the end
      token, and arg->res its expression. */
  lemma SoundAccept(st: Stack, toks: seq<Token>, res: Option<Expr>, all: seq<Token>) returns (c: Cst)
    requires Sound(st, toks, res, all) && StateOf(st) == YYFINAL
    ensures WellPrec(c) && all == Yield(c) + [End] + toks && res == Some(Strip(c))
  {
    hide StateOf, Valid, WellPrec, Strip, Yield;
    AcceptShape(st);
    c := st.below.sym.c;
    assert StackYield(Bottom) == [];
    assert StackYield(st.below) == Yield(c);
    assert StackYield(st) == Yield(c) + [End];
  }

  // ------------------------------------------------------------- completeness

  lemma ShiftReaches(st: Stack, t: Token, rest: seq<Token>, res: Option<Expr>)
    requires StateOf(st) != YYFINAL && YyPact(StateOf(st)) != YYPACT_NINF && ActionOn(StateOf(st), Sym(t)).Shift?
    ensures Reaches(Conf(st, [t] + rest, res), Conf(Push(st, T(t)), rest, res), 1)
  {
    hide ActionOn, YyPact, ReduceBy;
    ConfGood(st, [t] + rest, res);
    ConfGood(Push(st, T(t)), rest, res);
    var a, b := Conf(st, [t] + rest, res), Conf(Push(st, T(t)), rest, res);
    assert Step(a) == Go(b);
    assert Reaches(b, b, 0);
  }

  lemma ReduceReaches(st: Stack, rule: int, sym: Symbol, toks: seq<Token>, res: Option<Expr>)
    requires StateOf(st) != YYFINAL && toks != [] && 2 <= rule < 14 && Decide(StateOf(st), Sym(toks[0])) == Reduce(rule)
    requires YyR2(rule) <= Size(st)
    requires if rule == 2 then sym.S? && Drop(st, YyR2(rule)) == Bottom
             else sym.E? && ExpStart(StateOf(Drop(st, YyR2(rule))))
    requires |TopValues(st, YyR2(rule))| == YyR2(rule)
    requires ActionValue(rule, TopValues(st, YyR2(rule))) == SymbolValue(sym)
    ensures Reaches(Conf(st, toks, res),
                    Conf(Push(Drop(st, YyR2(rule)), sym), toks, if rule == 2 then Some(Strip(sym.c)) else res), 1)
  {
    hide ActionOn, YyPact, ReduceBy, TopValues, ActionValue;
    ConfGood(st, toks, res);
    Reduction(st, rule, sym, toks, res);
    var a := Conf(st, toks, res);
    var b := Conf(Push(Drop(st, YyR2(rule)), sym), toks, if rule == 2 then Some(Strip(sym.c)) else res);
    assert Step(a) == Go(b);
    assert Reaches(b, b, 0);
  }

  /** From any place where an expression may start, the automaton reads a whole
      derivation that fits there and goes to the symbol exp. */
  ghost predicate ReadsExp(st: Stack, c: Cst, rest: seq<Token>, res: Option<Expr>)
  {
    exists n :: Reaches(Conf(st, Yield(c) + rest, res), Conf(Push(st, E(c)), rest, res), n)
  }

  lemma Joined(a: Config, b: Config, c: Config, m: nat, n: nat) returns (k: nat)
    requires Reaches(a, b, m) && Reaches(b, c, n)
    ensures Reaches(a, c, k)
  {
    hide *;
    ReachesTrans(a, b, c, m, n);
    k := m + n;
  }

  lemma ReadsSteps(st: Stack, c: Cst, rest: seq<Token>, res: Option<Expr>) returns (n: nat)
    requires ReadsExp(st, c, rest, res)
    ensures Reaches(Conf(st, Yield(c) + rest, res), Conf(Push(st, E(c)), rest, res), n)
  {
    hide Reaches, Conf, Yield;
    n :| Reaches(Conf(st, Yield(c) + rest, res), Conf(Push(st, E(c)), rest, res), n);
  }

  /** After the tokens of a right-hand side have been read, its reduction ends the
      reading of the expression. */
  lemma ReadAndReduce(st: Stack, c: Cst, top: Stack, n: nat, rule: int, vals: seq<Value>, rest: seq<Token>,
    res: Option<Expr>)
    requires Reaches(Conf(st, Yield(c) + rest, res), Conf(top, rest, res), n)
    requires rest != [] && 3 <= rule < 14 && |vals| == YyR2(rule) && |vals| <= Size(top)
    requires StateOf(top) != YYFINAL && Decide(StateOf(top), Sym(rest[0])) == Reduce(rule)
    requires Drop(top, |vals|) == st && ExpStart(StateOf(st))
    requires TopValues(top, |vals|) == vals && ActionValue(rule, vals) == ExpValue(Strip(c))
    ensures ReadsExp(st, c, rest, res)
  {
    hide Decide, YyR2, TopValues, ActionValue, StateOf, Yield, Reaches, Conf, Drop;
    ReduceReaches(top, rule, E(c), rest, res);
    var k := Joined(Conf(st, Yield(c) + rest, res), Conf(top, rest, res), Conf(Push(st, E(c)), rest, res), n, 1);
  }

  lemma CompleteLeaf(st: Stack, c: Cst, t: Token, rest: seq<Token>, res: Option<Expr>)
    requires ExpStart(StateOf(st)) && rest != []
    requires (c == CVar && t == VarN) || (c.CNum? && t == Number(c.n))
    ensures ReadsExp(st, c, rest, res)
  {
    hide ActionOn;
    SymRange(t);
    StartRow(StateOf(st), Sym(t));
    ShiftReaches(st, t, rest, res);
    var top := Push(st, T(t));
    assert TopValues(top, 1) == [TokenValue(t)] by { assert TopValues(st, 0) == []; }
    assert Drop(top, 1) == st;
    assert Yield(c) == [t];
    ReadAndReduce(st, c, top, 1, if t == VarN then 11 else 12, [TokenValue(t)], rest, res);
  }

  /** The state after a shift. */
  lemma ShiftedTo(st: Stack, t: Token, k: int)
    requires ActionOn(StateOf(st), Sym(t)) == Shift(k)
    ensures StateOf(Push(st, T(t))) == k
  {
    hide ActionOn;
  }

  lemma AfterExpState(st: Stack, c: Cst)
    requires ExpStart(StateOf(st))
    ensures StateOf(Push(st, E(c))) == AfterExp(StateOf(st))
  {
    GotoExp(StateOf(st), 3);
  }

  lemma NotStart(st: Stack)
    requires ExpStart(StateOf(st))
    ensures YyPact(StateOf(st)) != YYPACT_NINF && ActionOn(StateOf(st), Sym(Bang)) == Shift(1)
    ensures StateOf(Push(st, T(Bang))) == 1
  {
    StartRow(StateOf(st), Sym(Bang));
    ShiftedTo(st, Bang, 1);
  }

  lemma CompleteNot(st: Stack, e: Cst, rest: seq<Token>, res: Option<Expr>)
    requires ExpStart(StateOf(st)) && rest != []
    requires ReadsExp(Push(st, T(Bang)), e, rest, res)
    ensures ReadsExp(st, CNot(e), rest, res)
  {
    hide ActionOn, StateOf, Conf, Reaches, ReadsExp;
    var a, st1 := Conf(st, [Bang] + (Yield(e) + rest), res), Push(st, T(Bang));
    var top := Push(st1, E(e));
    NotStart(st);
    ShiftReaches(st, Bang, Yield(e) + rest, res);
    var n := ReadsSteps(st1, e, rest, res);
    n := Joined(a, Conf(st1, Yield(e) + rest, res), Conf(top, rest, res), 1, n);
    assert Yield(CNot(e)) + rest == [Bang] + (Yield(e) + rest);
    AfterExpState(st1, e);
    Top2(top);
    ReadAndReduce(st, CNot(e), top, n, 10, [TokenValue(Bang), ExpValue(Strip(e))], rest, res);
  }

  lemma ParenStart(st: Stack)
    requires ExpStart(StateOf(st))
    ensures YyPact(StateOf(st)) != YYPACT_NINF && ActionOn(StateOf(st), Sym(LParen)) == Shift(4)
    ensures StateOf(Push(st, T(LParen))) == 4
  {
    StartRow(StateOf(st), Sym(LParen));
    ShiftedTo(st, LParen, 4);
  }

  lemma CompleteParen(st: Stack, e: Cst, rest: seq<Token>, res: Option<Expr>)
    requires ExpStart(StateOf(st)) && rest != []
    requires ReadsExp(Push(st, T(LParen)), e, [RParen] + rest, res)
    ensures ReadsExp(st, CParen(e), rest, res)
  {
    hide ActionOn, StateOf, Conf, Reaches, ReadsExp;
    var y := Yield(e) + ([RParen] + rest);
    var a, st1 := Conf(st, [LParen] + y, res), Push(st, T(LParen));
    var st2 := Push(st1, E(e));
    var top := Push(st2, T(RParen));
    assert Yield(CParen(e)) + rest == [LParen] + y;
    ParenStart(st);
    ParenEnds(st1, e);
    Top3(top);
    assert ActionValue(13, [TokenValue(LParen), ExpValue(Strip(e)), TokenValue(RParen)]) == ExpValue(Strip(CParen(e)));
    assert Decide(17, Sym(rest[0])) == Reduce(13);
    hide Yield, TopValues, Drop, ActionValue, Decide, YyPact, Strip;
    ShiftReaches(st, LParen, y, res);
    var n := ReadsSteps(st1, e, [RParen] + rest, res);
    n := Joined(a, Conf(st1, y, res), Conf(st2, [RParen] + rest, res), 1, n);
    ShiftReaches(st2, RParen, rest, res);
    n := Joined(a, Conf(st2, [RParen] + rest, res), Conf(top, rest, res), n, 1);
    ReadAndReduce(st, CParen(e), top, n, 13, [TokenValue(LParen), ExpValue(Strip(e)), TokenValue(RParen)], rest, res);
  }

  lemma ParenEnds(st1: Stack, e: Cst)
    requires StateOf(st1) == 4
    ensures StateOf(Push(st1, E(e))) == 8 && YyPact(8) != YYPACT_NINF && ActionOn(8, Sym(RParen)) == Shift(17)
    ensures StateOf(Push(Push(st1, E(e)), T(RParen))) == 17
  {
    hide ActionOn;
    AfterExpState(st1, e);
    ExpRow(4, Sym(RParen));
    ShiftedTo(Push(st1, E(e)), RParen, 17);
  }

  /** An operator is shifted after an operand that it may follow. */
  lemma BinStart(st: Stack, op: Operator, l: Cst)
    requires ExpStart(StateOf(st)) && MinLevel(StateOf(st)) <= Prec(op)
    ensures var st1 := Push(st, E(l)); var st2 := Push(st1, T(BinOp(op)));
      && StateOf(st1) != YYFINAL && YyPact(StateOf(st1)) != YYPACT_NINF
      && ActionOn(StateOf(st1), Sym(BinOp(op))) == Shift(Prec(op) + 10)
      && StateOf(st2) == Prec(op) + 10 && ExpStart(StateOf(st2)) && MinLevel(StateOf(st2)) == Prec(op) + 1
  {
    hide ActionOn;
    SymRange(BinOp(op));
    AfterExpState(st, l);
    ExpRow(StateOf(st), Sym(BinOp(op)));
    ShiftedTo(Push(st, E(l)), BinOp(op), Prec(op) + 10);
  }

  lemma CompleteBin(st: Stack, op: Operator, l: Cst, r: Cst, rest: seq<Token>, res: Option<Expr>)
    requires ExpStart(StateOf(st)) && MinLevel(StateOf(st)) <= Prec(op) && rest != [] && MayFollow(rest[0], Prec(op))
    requires ReadsExp(st, l, [BinOp(op)] + (Yield(r) + rest), res)
    requires ReadsExp(Push(Push(st, E(l)), T(BinOp(op))), r, rest, res)
    ensures ReadsExp(st, CBin(op, l, r), rest, res)
  {
    hide ActionOn, StateOf, Conf, Reaches, ReadsExp, Yield, ActionValue, Decide, YyPact, Strip, MayFollow;
    var y := Yield(r) + rest;
    var a, st1 := Conf(st, Yield(l) + ([BinOp(op)] + y), res), Push(st, E(l));
    var st2 := Push(st1, T(BinOp(op)));
    var top := Push(st2, E(r));
    var vals := [ExpValue(Strip(l)), TokenValue(BinOp(op)), ExpValue(Strip(r))];
    ReadBin(op, l, r, rest);
    BinStart(st, op, l);
    BinEnds(st2, op, r, rest[0]);
    Top3(top);
    hide TopValues, Drop;
    var n := ReadsSteps(st, l, [BinOp(op)] + y, res);
    ShiftReaches(st1, BinOp(op), y, res);
    n := Joined(a, Conf(st1, [BinOp(op)] + y, res), Conf(st2, y, res), n, 1);
    var k := ReadsSteps(st2, r, rest, res);
    n := Joined(a, Conf(st2, y, res), Conf(top, rest, res), n, k);
    ReadAndReduce(st, CBin(op, l, r), top, n, Prec(op) + 3, vals, rest, res);
  }

  lemma ReadBin(op: Operator, l: Cst, r: Cst, rest: seq<Token>)
    ensures Yield(CBin(op, l, r)) + rest == Yield(l) + ([BinOp(op)] + (Yield(r) + rest))
    ensures ActionValue(Prec(op) + 3, [ExpValue(Strip(l)), TokenValue(BinOp(op)), ExpValue(Strip(r))])
         == ExpValue(Strip(CBin(op, l, r)))
  {
  }

  lemma BinEnds(st2: Stack, op: Operator, r: Cst, la: Token)
    requires StateOf(st2) == Prec(op) + 10 && MayFollow(la, Prec(op))
    ensures StateOf(Push(st2, E(r))) == Prec(op) + 18
    ensures Decide(Prec(op) + 18, Sym(la)) == Reduce(Prec(op) + 3)
  {
    hide ActionOn, Decide;
    AfterExpState(st2, r);
    SymRange(la);
    SymRange(BinOp(op));
    ExpRow(StateOf(st2), Sym(la));
  }

  lemma CondStart(st: Stack, a: Cst, t: Cst)
    requires ExpStart(StateOf(st)) && MinLevel(StateOf(st)) == 0
    ensures var st1 := Push(st, E(a)); var st2 := Push(st1, T(Quest));
      var st3 := Push(st2, E(t)); var st4 := Push(st3, T(Colon));
      && YyPact(StateOf(st1)) != YYPACT_NINF && ActionOn(StateOf(st1), Sym(Quest)) == Shift(10) && StateOf(st2) == 10
      && StateOf(st3) == 18 && ActionOn(StateOf(st3), Sym(Colon)) == Shift(25) && StateOf(st4) == 25
  {
    hide ActionOn;
    AfterExpState(st, a);
    ExpRow(StateOf(st), Sym(Quest));
    ShiftedTo(Push(st, E(a)), Quest, 10);
    var st2 := Push(Push(st, E(a)), T(Quest));
    AfterExpState(st2, t);
    ExpRow(10, Sym(Colon));
    ShiftedTo(Push(st2, E(t)), Colon, 25);
  }

  lemma CompleteCond(st: Stack, a: Cst, t: Cst, f: Cst, rest: seq<Token>, res: Option<Expr>)
    requires ExpStart(StateOf(st)) && MinLevel(StateOf(st)) == 0 && rest != [] && MayFollow(rest[0], 0)
    requires ReadsExp(st, a, [Quest] + (Yield(t) + ([Colon] + (Yield(f) + rest))), res)
    requires ReadsExp(Push(Push(st, E(a)), T(Quest)), t, [Colon] + (Yield(f) + rest), res)
    requires ReadsExp(Push(Push(Push(Push(st, E(a)), T(Quest)), E(t)), T(Colon)), f, rest, res)
    ensures ReadsExp(st, CCond(a, t, f), rest, res)
  {
    hide ActionOn, StateOf, Conf, Reaches, ReadsExp;
    var y2 := Yield(f) + rest;
    var y1 := Yield(t) + ([Colon] + y2);
    var s0, st1 := Conf(st, Yield(a) + ([Quest] + y1), res), Push(st, E(a));
    var st2 := Push(st1, T(Quest));
    var st3 := Push(st2, E(t));
    var st4 := Push(st3, T(Colon));
    var top := Push(st4, E(f));
    CondAssoc(Yield(a), [Quest], Yield(t), [Colon], Yield(f), rest);
    assert Yield(CCond(a, t, f)) + rest == Yield(a) + ([Quest] + y1);
    var vals := [ExpValue(Strip(a)), TokenValue(Quest), ExpValue(Strip(t)), TokenValue(Colon), ExpValue(Strip(f))];
    assert ActionValue(3, vals) == ExpValue(Strip(CCond(a, t, f)));
    CondStart(st, a, t);
    CondEnds(st4, f, rest[0]);
    Top5(top);
    hide Yield, TopValues, Drop, ActionValue, Decide, YyPact, Strip, MayFollow;
    var n := ReadsSteps(st, a, [Quest] + y1, res);
    ShiftReaches(st1, Quest, y1, res);
    n := Joined(s0, Conf(st1, [Quest] + y1, res), Conf(st2, y1, res), n, 1);
    var k := ReadsSteps(st2, t, [Colon] + y2, res);
    n := Joined(s0, Conf(st2, y1, res), Conf(st3, [Colon] + y2, res), n, k);
    ShiftReaches(st3, Colon, y2, res);
    n := Joined(s0, Conf(st3, [Colon] + y2, res), Conf(st4, y2, res), n, 1);
    k := ReadsSteps(st4, f, rest, res);
    n := Joined(s0, Conf(st4, y2, res), Conf(top, rest, res), n, k);
    ReadAndReduce(st, CCond(a, t, f), top, n, 3, vals, rest, res);
  }

  lemma CondAssoc<X>(a: seq<X>, q: seq<X>, t: seq<X>, c: seq<X>, f: seq<X>, r: seq<X>)
    ensures (a + q + t + c + f) + r == a + (q + (t + (c + (f + r))))
  {
  }

  lemma CondEnds(st4: Stack, f: Cst, la: Token)
    requires StateOf(st4) == 25 && MayFollow(la, 0)
    ensures StateOf(Push(st4, E(f))) == 26 && Decide(26, Sym(la)) == Reduce(3)
  {
    hide ActionOn, Decide;
    AfterExpState(st4, f);
    SymRange(la);
    ExpRow(25, Sym(la));
  }

  lemma {:induction false} CompleteExp(st: Stack, c: Cst, rest: seq<Token>, res: Option<Expr>)
    requires ExpStart(StateOf(st)) && WellPrec(c) && MinLevel(StateOf(st)) <= Level(c)
    requires rest != [] && MayFollow(rest[0], Level(c))
    ensures ReadsExp(st, c, rest, res)
    decreases c
  {
    hide StateOf, ReadsExp, Yield, ActionOn, YyPact;
    match c
    case CVar => CompleteLeaf(st, c, VarN, rest, res);
    case CNum(n) => CompleteLeaf(st, c, Number(n), rest, res);
    case CNot(e) =>
      NotStart(st);
      CompleteExp(Push(st, T(Bang)), e, rest, res);
      CompleteNot(st, e, rest, res);
    case CParen(e) =>
      ParenStart(st);
      CompleteExp(Push(st, T(LParen)), e, [RParen] + rest, res);
      CompleteParen(st, e, rest, res);
    case CBin(op, l, r) =>
      BinStart(st, op, l);
      CompleteExp(st, l, [BinOp(op)] + (Yield(r) + rest), res);
      CompleteExp(Push(Push(st, E(l)), T(BinOp(op))), r, rest, res);
      CompleteBin(st, op, l, r, rest, res);
    case CCond(a, t, f) =>
      CondStart(st, a, t);
      CompleteExp(st, a, [Quest] + (Yield(t) + ([Colon] + (Yield(f) + rest))), res);
      var st1 := Push(Push(st, E(a)), T(Quest));
      CompleteExp(st1, t, [Colon] + (Yield(f) + rest), res);
      CompleteExp(Push(Push(st1, E(t)), T(Colon)), f, rest, res);
      CompleteCond(st, a, t, f, rest, res);
  }

  // ----------------------------------------------------------- the main result

  lemma {:induction false} SoundRun(st: Stack, toks: seq<Token>, res: Option<Expr>, all: seq<Token>, c: Config, n: nat)
    returns (st': Stack, toks': seq<Token>, res': Option<Expr>)
    requires Sound(st, toks, res, all) && Reaches(Conf(st, toks, res), c, n)
    ensures c == Conf(st', toks', res') && Sound(st', toks', res', all)
    decreases n
  {
    hide Sound, Step, Conf, GoodConfig;
    if n == 0 {
      st', toks', res' := st, toks, res;
    } else {
      var st1, toks1, res1 := SoundStep(st, toks, res, all);
      st', toks', res' := SoundRun(st1, toks1, res1, all, c, n - 1);
    }
  }

  /** What the automaton accepts is a derivation that the precedences select,
      followed by the end token. */
  lemma AcceptedIsDerived(all: seq<Token>, e: Expr) returns (d: Cst, rest: seq<Token>)
    requires Parses(all, e)
    ensures WellPrec(d) && Strip(d) == e && all == Yield(d) + [End] + rest
  {
    var n, c :| Reaches(Start(all), c, n) && GoodConfig(c) && Step(c) == Accept && c.res == Some(e);
    hide Step, WellPrec, Strip, Yield;
    StartSound(all);
    var st, toks, res := SoundRun(Bottom, all, None, all, c, n);
    AcceptState(c);
    ConfGood(st, toks, res);
    d := SoundAccept(st, toks, res, all);
    rest := toks;
  }

  lemma StartSound(all: seq<Token>)
    ensures Sound(Bottom, all, None, all) && Conf(Bottom, all, None) == Start(all)
  {
    assert StackYield(Bottom) == [];
  }

  lemma AcceptState(c: Config)
    requires GoodConfig(c)
    ensures Step(c) == Accept <==> c.states[|c.states| - 1] == YYFINAL
  {
    hide ActionOn, YyPact, GotoState, ActionValue;
  }

  /** Every derivation that the precedences select is accepted, and its expression
      is the one built. */
  lemma DerivedIsAccepted(d: Cst, rest: seq<Token>)
    requires WellPrec(d)
    ensures Parses(Yield(d) + [End] + rest, Strip(d))
  {
    hide WellPrec, Strip, Yield, Step, ActionOn, YyPact;
    var all, res := Yield(d) + [End] + rest, Some(Strip(d));
    assert all == Yield(d) + ([End] + rest);
    StartSound(all);
    CompleteExp(Bottom, d, [End] + rest, None);
    var n := ReadsSteps(Bottom, d, [End] + rest, None);
    StartEnds(d, rest);
    var st1, st2 := Push(Bottom, E(d)), Push(Bottom, S(d));
    n := Joined(Start(all), Conf(st1, [End] + rest, None), Conf(st2, [End] + rest, res), n, 1);
    ShiftReaches(st2, End, rest, res);
    var last := Conf(Push(st2, T(End)), rest, res);
    n := Joined(Start(all), Conf(st2, [End] + rest, res), last, n, 1);
    ConfGood(Push(st2, T(End)), rest, res);
    AcceptState(last);
    assert Reaches(Start(all), last, n) && GoodConfig(last) && Step(last) == Accept && last.res == res;
  }

  lemma StartEnds(d: Cst, rest: seq<Token>)
    ensures Reaches(Conf(Push(Bottom, E(d)), [End] + rest, None),
                    Conf(Push(Bottom, S(d)), [End] + rest, Some(Strip(d))), 1)
    ensures StateOf(Push(Bottom, S(d))) == 5 && YyPact(5) != YYPACT_NINF && ActionOn(5, Sym(End)) == Shift(9)
    ensures StateOf(Push(Push(Bottom, S(d)), T(End))) == YYFINAL
  {
    hide ActionOn, Reaches, Conf, Strip;
    var st1 := Push(Bottom, E(d));
    AfterExpState(Bottom, d);
    ExpRow(0, Sym(End));
    GotoExp(0, 3);
    ShiftSourceMisc(Sym(End));
    ShiftedTo(Push(Bottom, S(d)), End, 9);
    assert TopValues(st1, 1) == [ExpValue(Strip(d))] by { assert TopValues(Bottom, 0) == []; }
    assert Drop(st1, 1) == Bottom;
    ReduceReaches(st1, 2, S(d), [End] + rest, None);
  }

  /** The automaton accepts exactly the derivations that the precedences select,
      ended by the end token, and builds their expressions. */
  lemma ParsesExactly(toks: seq<Token>, e: Expr)
    requires End !in toks
    ensures Parses(toks + [End], e) <==> exists d :: WellPrec(d) && Yield(d) == toks && Strip(d) == e
  {
    hide Parses, WellPrec, Strip;
    if Parses(toks + [End], e) {
      var d, rest := AcceptedIsDerived(toks + [End], e);
      NoEnd(d);
      SplitAtEnd(toks, [], Yield(d), rest);
    }
    if exists d :: WellPrec(d) && Yield(d) == toks && Strip(d) == e {
      var d :| WellPrec(d) && Yield(d) == toks && Strip(d) == e;
      DerivedIsAccepted(d, []);
      assert toks + [End] + [] == toks + [End];
    }
  }

  lemma SplitAtEnd(a: seq<Token>, ra: seq<Token>, b: seq<Token>, rb: seq<Token>)
    requires End !in a && End !in b && a + [End] + ra == b + [End] + rb
    ensures a == b && ra == rb
  {
    var s := a + [End] + ra;
    assert s[|a|] == End && s[|b|] == End;
    assert forall i :: 0 <= i < |a| ==> s[i] == a[i];
    assert forall i :: 0 <= i < |b| ==> s[i] == b[i];
    assert |a| == |b|;
    assert a == s[..|a|] && b == s[..|b|];
    assert ra == s[|a| + 1..] && rb == s[|b| + 1..];
  }

  lemma {:induction false} NoEnd(d: Cst)
    ensures End !in Yield(d) && Err !in Yield(d)
  {
    match d
    case CVar =>
    case CNum(_) =>
    case CNot(e) => NoEnd(e);
    case CParen(e) => NoEnd(e);
    case CBin(_, l, r) => NoEnd(l); NoEnd(r);
    case CCond(a, t, f) => NoEnd(a); NoEnd(t); NoEnd(f);
  }

  /** The precedences leave no ambiguity: two selected derivations of the same
      tokens build the same expression. */
  lemma Unambiguous(c: Cst, d: Cst)
    requires WellPrec(c) && WellPrec(d) && Yield(c) == Yield(d)
    ensures Strip(c) == Strip(d)
  {
    hide WellPrec, Strip, Yield, Step;
    DerivedIsAccepted(c, []);
    DerivedIsAccepted(d, []);
    var start := Start(Yield(c) + [End] + []);
    var m, a :| Reaches(start, a, m) && GoodConfig(a) && Step(a) == Accept && a.res == Some(Strip(c));
    var n, b :| Reaches(start, b, n) && GoodConfig(b) && Step(b) == Accept && b.res == Some(Strip(d));
    Deterministic(start, a, b, m, n);
  }

  /** Printing an expression and parsing the tokens gives the expression back. */
  lemma PrintParses(e: Expr)
    ensures Parses(Print(e) + [End], e)
  {
    ParenthesizeOk(e, 0);
    DerivedIsAccepted(Parenthesize(e, 0), []);
    assert Print(e) + [End] + [] == Print(e) + [End];
  }
}
