/**
 The tables of the plural expression parser (plural.c), as functions of the index.
 The automaton has 27 states, 16 terminals and 13 rules.
 */
module PluralTables {

  /** Index in YyTable of the row of a state; -10 for default only. */
  function YyPact(state: int): int
    requires 0 <= state < 27
  {
    match state
    case 0 => -9 case 1 => -9 case 2 => -10 case 3 => -10 case 4 => -9 case 5 => 8 case 6 => 36 case 7 => -10
    case 8 => 13 case 9 => -10 case 10 => -9 case 11 => -9 case 12 => -9 case 13 => -9 case 14 => -9
    case 15 => -9 case 16 => -9 case 17 => -10 case 18 => 26 case 19 => 41 case 20 => 45 case 21 => 18
    case 22 => -2 case 23 => 14 case 24 => -10 case 25 => -9
    case _ => 36
  }

  /** Default reduction of a state; 0 for an error. */
  function YyDefact(state: int): int
    requires 0 <= state < 27
  {
    match state
    case 0 => 0 case 1 => 0 case 2 => 12 case 3 => 11 case 4 => 0 case 5 => 0 case 6 => 2 case 7 => 10
    case 8 => 0 case 9 => 1 case 10 => 0 case 11 => 0 case 12 => 0 case 13 => 0 case 14 => 0 case 15 => 0
    case 16 => 0 case 17 => 13 case 18 => 0 case 19 => 4 case 20 => 5 case 21 => 6 case 22 => 7 case 23 => 8
    case 24 => 9 case 25 => 0
    case _ => 3
  }

  /** The state to shift to. */
  function YyTable(i: int): int
    requires 0 <= i < 55
  {
    match i
    case 0 => 7 case 1 => 1 case 2 => 2 case 3 => 8 case 4 => 3 case 5 => 4 case 6 => 15 case 7 => 16
    case 8 => 9 case 9 => 18 case 10 => 19 case 11 => 20 case 12 => 21 case 13 => 22 case 14 => 23
    case 15 => 24 case 16 => 10 case 17 => 11 case 18 => 12 case 19 => 13 case 20 => 14 case 21 => 15
    case 22 => 16 case 23 => 16 case 24 => 26 case 25 => 14 case 26 => 15 case 27 => 16 case 28 => 17
    case 29 => 10 case 30 => 11 case 31 => 12 case 32 => 13 case 33 => 14 case 34 => 15 case 35 => 16
    case 36 => 0 case 37 => 0 case 38 => 25 case 39 => 10 case 40 => 11 case 41 => 12 case 42 => 13
    case 43 => 14 case 44 => 15 case 45 => 16 case 46 => 12 case 47 => 13 case 48 => 14 case 49 => 15
    case 50 => 16 case 51 => 13 case 52 => 14 case 53 => 15
    case _ => 16
  }

  /** The symbol (or state) an entry of YyTable is for. */
  function YyCheck(i: int): int
    requires 0 <= i < 55
  {
    match i
    case 0 => 1 case 1 => 10 case 2 => 11 case 3 => 4 case 4 => 13 case 5 => 14 case 6 => 8 case 7 => 9
    case 8 => 0 case 9 => 10 case 10 => 11 case 11 => 12 case 12 => 13 case 13 => 14 case 14 => 15
    case 15 => 16 case 16 => 3 case 17 => 4 case 18 => 5 case 19 => 6 case 20 => 7 case 21 => 8 case 22 => 9
    case 23 => 9 case 24 => 25 case 25 => 7 case 26 => 8 case 27 => 9 case 28 => 15 case 29 => 3 case 30 => 4
    case 31 => 5 case 32 => 6 case 33 => 7 case 34 => 8 case 35 => 9 case 36 => -1 case 37 => -1 case 38 => 12
    case 39 => 3 case 40 => 4 case 41 => 5 case 42 => 6 case 43 => 7 case 44 => 8 case 45 => 9 case 46 => 5
    case 47 => 6 case 48 => 7 case 49 => 8 case 50 => 9 case 51 => 6 case 52 => 7 case 53 => 8
    case _ => 9
  }

  /** The symbol a rule derives. */
  function YyR1(rule: int): int
    requires 0 <= rule < 14
  {
    match rule
    case 0 => 0 case 1 => 16 case 2 => 17 case 3 => 18 case 4 => 18 case 5 => 18 case 6 => 18 case 7 => 18
    case 8 => 18 case 9 => 18 case 10 => 18 case 11 => 18 case 12 => 18
    case _ => 18
  }

  /** The number of symbols on a rule's right-hand side. */
  function YyR2(rule: int): int
    requires 0 <= rule < 14
  {
    match rule
    case 0 => 0 case 1 => 2 case 2 => 1 case 3 => 5 case 4 => 3 case 5 => 3 case 6 => 3 case 7 => 3
    case 8 => 3 case 9 => 3 case 10 => 2 case 11 => 1 case 12 => 1
    case _ => 3
  }

  const YYPACT_NINF := -10
  const YYLAST := 54
  const YYFINAL := 9
  const YYNTOKENS := 16

  /** yypgoto and yydefgoto, for the nonterminals start (17) and exp (18). */
  function YyPgoto(nterm: int): int
    requires 0 <= nterm < 3
  {
    match nterm case 0 => -10 case 1 => -10 case _ => -1
  }

  function YyDefgoto(nterm: int): int
    requires 0 <= nterm < 3
  {
    match nterm case 0 => -1 case 1 => 5 case _ => 6
  }

  /** The internal symbol number of a code returned by yylex: the entries of
      yytranslate that are not 2. */
  function YyTranslate(code: int): (sym: int)
    ensures 0 <= sym < YYNTOKENS
  {
    match code
    case 0 => 0 case 33 => 10 case 38 => 5 case 40 => 14 case 41 => 15 case 58 => 12
    case 63 => 3 case 110 => 13 case 124 => 4 case 256 => 1
    case 258 => 6 case 259 => 7 case 260 => 8 case 261 => 9 case 262 => 11
    case _ => 2
  }

  datatype Action = Shift(state: int) | Reduce(rule: int) | Error

  /** yydefault. */
  function DefaultAction(state: int): Action
    requires 0 <= state < 27
  {
    if YyDefact(state) == 0 then Error else Reduce(YyDefact(state))
  }

  /** yybackup, for a state that looks at the lookahead symbol. */
  function ActionOn(state: int, sym: int): Action
    requires 0 <= state < 27 && 0 <= sym < YYNTOKENS
  {
    var n := YyPact(state) + sym;
    if n < 0 || YYLAST < n || YyCheck(n) != sym then DefaultAction(state)
    else if YyTable(n) <= 0 then Error   // yytable_value_is_error is always false: no entry reaches this
    else Shift(YyTable(n))
  }

  /** What the parser does in a state on a lookahead symbol, looked at or not. */
  function Decide(state: int, sym: int): Action
    requires 0 <= state < 27 && 0 <= sym < YYNTOKENS
  {
    if YyPact(state) == YYPACT_NINF then DefaultAction(state) else ActionOn(state, sym)
  }

  /** The state after a reduction by a rule, on top of a state. */
  function GotoState(state: int, rule: int): int
    requires 0 <= state < 27 && 1 <= rule < 14
  {
    var n := YyPgoto(YyR1(rule) - YYNTOKENS) + state;
    if 0 <= n <= YYLAST && YyCheck(n) == state then YyTable(n) else YyDefgoto(YyR1(rule) - YYNTOKENS)
  }

  // --------------------------------------------------- what the tables contain

  /** States in which an expression may start. */
  predicate ExpStart(state: int)
  {
    state in {0, 1, 4, 10, 11, 12, 13, 14, 15, 16, 25}
  }

  /** The least binding strength of an expression wanted in such a state. */
  function MinLevel(state: int): int
  {
    match state
    case 11 => 2 case 12 => 3 case 13 => 4 case 14 => 5 case 15 => 6 case 16 => 7 case 1 => 7
    case _ => 0
  }

  /** The state after an expression that started there. */
  function AfterExp(state: int): int
  {
    match state
    case 0 => 6 case 1 => 7 case 4 => 8 case 10 => 18 case 11 => 19 case 12 => 20 case 13 => 21
    case 14 => 22 case 15 => 23 case 16 => 24 case _ => 26
  }

  lemma StartRow(state: int, sym: int)
    requires ExpStart(state) && 0 <= sym < YYNTOKENS
    ensures YyPact(state) != YYPACT_NINF
    ensures ActionOn(state, sym) ==
      (match sym case 10 => Shift(1) case 11 => Shift(2) case 13 => Shift(3) case 14 => Shift(4) case _ => Error)
  {
  }

  /** After an expression: operators that bind strongly enough are shifted. */
  ghost predicate ExpRowOk(state: int, sym: int)
    requires ExpStart(state) && 0 <= sym < YYNTOKENS
  {
    Decide(AfterExp(state), sym) ==
      if (4 <= sym <= 9 && sym - 3 >= MinLevel(state)) || (sym == 3 && MinLevel(state) == 0) then Shift(sym + 7)
      else if sym == 12 && state == 10 then Shift(25)
      else if sym == 15 && state == 4 then Shift(17)
      else DefaultAction(AfterExp(state))
  }

  lemma ExpRow(state: int, sym: int)
    requires ExpStart(state) && 0 <= sym < YYNTOKENS
    ensures ExpRowOk(state, sym)
  {
    match state
    case 0 => ExpRow0(sym); case 25 => ExpRow0(sym); case 4 => ExpRow4(sym); case 10 => ExpRow4(sym);
    case 1 => case 11 => case 12 => case 13 => case 14 => case 15 => case _ =>
  }

  lemma ExpRow0(sym: int)
    requires 0 <= sym < YYNTOKENS
    ensures ExpRowOk(0, sym) && ExpRowOk(25, sym)
  {
  }

  lemma ExpRow4(sym: int)
    requires 0 <= sym < YYNTOKENS
    ensures ExpRowOk(4, sym) && ExpRowOk(10, sym)
  {
  }

  /** An operator shifted after an expression binds strongly enough there. */
  lemma OperatorShifted(state: int, sym: int)
    requires ExpStart(state) && 3 <= sym <= 9
    requires YyPact(AfterExp(state)) != YYPACT_NINF && ActionOn(AfterExp(state), sym).Shift?
    ensures if sym == 3 then MinLevel(state) == 0 else sym - 3 >= MinLevel(state)
  {
    hide ActionOn;
    ExpRow(state, sym);
  }

  lemma GotoExp(state: int, rule: int)
    requires ExpStart(state) && 3 <= rule < 14
    ensures GotoState(state, rule) == AfterExp(state)
    ensures state == 0 ==> GotoState(state, 2) == 5
  {
  }

  /** The terminal that leads to a state. */
  function AccessSym(state: int): int
  {
    match state
    case 1 => 10 case 2 => 11 case 3 => 13 case 4 => 14 case 9 => 0
    case 10 => 3 case 11 => 4 case 12 => 5 case 13 => 6 case 14 => 7 case 15 => 8 case 16 => 9
    case 17 => 15 case 25 => 12
    case _ => -1
  }

  /** Which symbol leads to a state that is shifted to, and from which states. */
  ghost predicate ShiftOk(state: int, sym: int)
    requires 0 <= state < 27 && 0 <= sym < YYNTOKENS
  {
    ActionOn(state, sym).Shift? && YyPact(state) != YYPACT_NINF ==>
      var k := ActionOn(state, sym).state;
      && 0 < k < 27 && sym == AccessSym(k)
      && (1 <= k <= 4 ==> ExpStart(state))
      && (10 <= k <= 16 ==> state in {6, 8, 18, 19, 20, 21, 22, 23, 26})
      && (k == 17 ==> state == 8)
      && (k == 25 ==> state == 18)
      && (k == 9 ==> state == 5)
  }

  lemma ShiftSource(state: int, sym: int)
    requires 0 <= state < 27 && 0 <= sym < YYNTOKENS
    ensures ShiftOk(state, sym)
  {
    hide ActionOn;
    if ExpStart(state) {
      StartRow(state, sym);
    } else {
      match state
      case 5 => ShiftSourceMisc(sym);
      case 2 => case 3 => case 9 => case 17 => case 24 => case 7 =>
      case 6 => ExpRow(0, sym); case 8 => ExpRow(4, sym); case 18 => ExpRow(10, sym); case 19 => ExpRow(11, sym);
      case 20 => ExpRow(12, sym); case 21 => ExpRow(13, sym); case 22 => ExpRow(14, sym); case 23 => ExpRow(15, sym);
      case _ => ExpRow(25, sym);
    }
  }

  lemma ShiftSourceMisc(sym: int)
    requires 0 <= sym < YYNTOKENS
    ensures ActionOn(5, sym) == if sym == 0 then Shift(9) else Error
  {
  }
}
