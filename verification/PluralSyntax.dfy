/**
 Plural-form expressions (plural-exp.h), their tokens, and the grammar with its
 precedences as a set of derivation trees.
 */
module PluralSyntax {

  datatype Operator =
    | Mult | Divide | Module | Plus | Minus
    | LessThan | GreaterThan | LessOrEqual | GreaterOrEqual
    | Equal | NotEqual | Land | Lor

  /** struct expression, by number of arguments. */
  datatype Expr =
    | Var
    | Num(n: nat)
    | Lnot(arg: Expr)
    | Binary(op: Operator, left: Expr, right: Expr)
    | Qmop(cond: Expr, yes: Expr, no: Expr)

  /** What yylex returns, with its semantic value. */
  datatype Token =
    | End | Err
    | Quest | Colon | Bang | VarN | LParen | RParen
    | BinOp(op: Operator)
    | Number(n: nat)

  /** The code yylex returns for a token. */
  function Code(t: Token): int
  {
    match t
    case End => 0 case Err => 256
    case Quest => 63 case Colon => 58 case Bang => 33 case VarN => 110 case LParen => 40 case RParen => 41
    case Number(_) => 262
    case BinOp(op) =>
      match op
      case Lor => 124 case Land => 38
      case Equal => 258 case NotEqual => 258
      case LessThan => 259 case GreaterThan => 259 case LessOrEqual => 259 case GreaterOrEqual => 259
      case Plus => 260 case Minus => 260
      case Mult => 261 case Divide => 261 case Module => 261
  }

  /** Binding strength, as the declarations in the grammar order the operators. */
  function Prec(op: Operator): int
  {
    match op
    case Lor => 1 case Land => 2
    case Equal => 3 case NotEqual => 3
    case LessThan => 4 case GreaterThan => 4 case LessOrEqual => 4 case GreaterOrEqual => 4
    case Plus => 5 case Minus => 5
    case Mult => 6 case Divide => 6 case Module => 6
  }

  /** Derivation trees of the 12 rules for exp. */
  datatype Cst =
    | CVar | CNum(n: nat)
    | CNot(arg: Cst)
    | CBin(op: Operator, left: Cst, right: Cst)
    | CCond(cond: Cst, yes: Cst, no: Cst)
    | CParen(inner: Cst)

  function Yield(c: Cst): (ts: seq<Token>)
    ensures ts != []
  {
    match c
    case CVar => [VarN]
    case CNum(n) => [Number(n)]
    case CNot(e) => [Bang] + Yield(e)
    case CBin(op, l, r) => Yield(l) + [BinOp(op)] + Yield(r)
    case CCond(a, t, f) => Yield(a) + [Quest] + Yield(t) + [Colon] + Yield(f)
    case CParen(e) => [LParen] + Yield(e) + [RParen]
  }

  /** The expression a derivation builds. */
  function Strip(c: Cst): Expr
  {
    match c
    case CVar => Var
    case CNum(n) => Num(n)
    case CNot(e) => Lnot(Strip(e))
    case CBin(op, l, r) => Binary(op, Strip(l), Strip(r))
    case CCond(a, t, f) => Qmop(Strip(a), Strip(t), Strip(f))
    case CParen(e) => Strip(e)
  }

  function Level(c: Cst): (l: int)
    ensures 0 <= l <= 7
  {
    match c
    case CBin(op, _, _) => Prec(op)
    case CCond(_, _, _) => 0
    case _ => 7
  }

  /** A derivation that the precedences and associativities select: binary
      operators associate to the left, ?: to the right. */
  predicate WellPrec(c: Cst)
  {
    match c
    case CVar => true
    case CNum(_) => true
    case CNot(e) => WellPrec(e) && Level(e) == 7
    case CBin(op, l, r) => WellPrec(l) && WellPrec(r) && Level(l) >= Prec(op) && Level(r) > Prec(op)
    case CCond(a, t, f) => WellPrec(a) && WellPrec(t) && WellPrec(f) && Level(a) >= 1
    case CParen(e) => WellPrec(e)
  }

  // ---------------------------------------------------------------- printing

  function ExprLevel(e: Expr): int
  {
    match e
    case Binary(op, _, _) => Prec(op)
    case Qmop(_, _, _) => 0
    case _ => 7
  }

  /** The derivation with just the parentheses that precedence makes necessary
      where an operand of the given level is wanted. */
  function Parenthesize(e: Expr, level: int): Cst
    decreases e, 1
  {
    if ExprLevel(e) < level then CParen(Bare(e)) else Bare(e)
  }

  function Bare(e: Expr): Cst
    decreases e, 0
  {
    match e
    case Var => CVar
    case Num(n) => CNum(n)
    case Lnot(a) => CNot(Parenthesize(a, 7))
    case Binary(op, l, r) => CBin(op, Parenthesize(l, Prec(op)), Parenthesize(r, Prec(op) + 1))
    case Qmop(a, t, f) => CCond(Parenthesize(a, 1), Parenthesize(t, 0), Parenthesize(f, 0))
  }

  lemma {:induction false} ParenthesizeOk(e: Expr, level: int)
    requires level <= 7
    ensures WellPrec(Parenthesize(e, level)) && Level(Parenthesize(e, level)) >= level
    ensures Strip(Parenthesize(e, level)) == e
    decreases e, 1
  {
    BareOk(e);
  }

  lemma {:induction false} BareOk(e: Expr)
    ensures WellPrec(Bare(e)) && Level(Bare(e)) == ExprLevel(e) && Strip(Bare(e)) == e
    decreases e, 0
  {
    match e
    case Var =>
    case Num(_) =>
    case Lnot(a) => ParenthesizeOk(a, 7);
    case Binary(op, l, r) => ParenthesizeOk(l, Prec(op)); ParenthesizeOk(r, Prec(op) + 1);
    case Qmop(a, t, f) => ParenthesizeOk(a, 1); ParenthesizeOk(t, 0); ParenthesizeOk(f, 0);
  }

  /** The tokens of an expression, printed with the parentheses it needs. */
  function Print(e: Expr): seq<Token>
  {
    Yield(Parenthesize(e, 0))
  }
}
