/** Tokens of the plural-expression language, and its grammar with every precedence
    conflict resolved: `?:` lowest and right-associative, then `||`, `&&`, equality,
    comparison, additive, multiplicative (all left-associative), and `!` tightest. */
module PluralGrammar {
  import opened PluralExp
  import opened Wrappers

  // Bison's internal token numbers (the values of YYTRANSLATE).
  const END := 0
  const ERROR := 1
  const UNDEFINED := 2
  const QUESTION := 3
  const OR := 4
  const AND := 5
  const EQUOP2 := 6
  const CMPOP2 := 7
  const ADDOP2 := 8
  const MULOP2 := 9
  const NOT := 10
  const NUMBER := 11
  const COLON := 12
  const VARIABLE := 13
  const OPEN := 14
  const CLOSE := 15

  /** YYSTYPE: the member of the union last written; NoVal when none was. */
  datatype Val = NoVal | NumVal(num: nat) | OpVal(op: BinOp) | ExpVal(exp: Exp)

  /** One call of yylex: the token, and what it stored through `lval`. */
  datatype Token = Token(tok: int, val: Val)

  /** What yylex delivers before YYEOF: numbers and most operators carry their value. */
  predicate IsLexeme(t: Token) {
    && END < t.tok <= CLOSE
    && match t.val
       case NoVal => t.tok != NUMBER && !(EQUOP2 <= t.tok <= MULOP2)
       case NumVal(_) => t.tok == NUMBER
       case OpVal(op) => EQUOP2 <= t.tok <= MULOP2 && OpFits(t.tok, op)
       case ExpVal(_) => false
  }

  type Lexeme = t: Token | IsLexeme(t) witness Token(VARIABLE, NoVal)

  predicate IsOperator(tok: int) {
    QUESTION <= tok <= MULOP2
  }

  /** The operators that one two-place token stands for. */
  predicate OpFits(tok: int, op: BinOp) {
    match op
    case Lor => tok == OR
    case Land => tok == AND
    case Equal => tok == EQUOP2
    case NotEqual => tok == EQUOP2
    case LessThan => tok == CMPOP2
    case GreaterThan => tok == CMPOP2
    case LessOrEqual => tok == CMPOP2
    case GreaterOrEqual => tok == CMPOP2
    case Plus => tok == ADDOP2
    case Minus => tok == ADDOP2
    case Mult => tok == MULOP2
    case Divide => tok == MULOP2
    case Module => tok == MULOP2
  }

  function OpToken(op: BinOp): (tok: int)
    ensures OpFits(tok, op)
  {
    match op
    case Lor => OR
    case Land => AND
    case Equal => EQUOP2
    case NotEqual => EQUOP2
    case LessThan => CMPOP2
    case GreaterThan => CMPOP2
    case LessOrEqual => CMPOP2
    case GreaterOrEqual => CMPOP2
    case Plus => ADDOP2
    case Minus => ADDOP2
    case Mult => MULOP2
    case Divide => MULOP2
    case Module => MULOP2
  }

  /** A two-place operator with its token. */
  datatype TokenOp = TokenOp(tok: int, op: BinOp)

  type Operator = o: TokenOp | OpFits(o.tok, o.op) witness TokenOp(OR, Lor)

  function OperatorOf(op: BinOp): Operator {
    TokenOp(OpToken(op), op)
  }

  /** The lexeme of a two-place operator: `||` and `&&` carry no value. */
  function OpLexeme(o: Operator): Lexeme {
    Token(o.tok, if o.tok < EQUOP2 then NoVal else OpVal(o.op))
  }

  /** Concrete syntax: an expression together with its brackets. */
  datatype Cst =
    | CVar
    | CNum(num: nat)
    | CNot(arg: Cst)
    | CBin(operator: Operator, left: Cst, right: Cst)
    | CCond(cond: Cst, yes: Cst, no: Cst)
    | CParen(inner: Cst)

  /** What yylex still has to deliver: lexemes, then YYEOF for ever. */
  datatype Input = Eof | More(head: Lexeme, tail: Input)

  /** The tokens of a derivation by rules 2 to 12, followed by others. */
  function TokensThen(t: Cst, rest: Input): (s: Input)
  {
    match t
    case CVar => More(Token(VARIABLE, NoVal), rest)
    case CNum(n) => More(Token(NUMBER, NumVal(n)), rest)
    case CNot(a) => More(Token(NOT, NoVal), TokensThen(a, rest))
    case CBin(o, l, r) => TokensThen(l, More(OpLexeme(o), TokensThen(r, rest)))
    case CCond(c, y, f) =>
      TokensThen(c, More(Token(QUESTION, NoVal), TokensThen(y, More(Token(COLON, NoVal), TokensThen(f, rest)))))
    case CParen(a) => More(Token(OPEN, NoVal), TokensThen(a, More(Token(CLOSE, NoVal), rest)))
  }

  /** The tokens of a whole plural expression. */
  function Tokens(t: Cst): Input {
    TokensThen(t, Eof)
  }

  /** The tree that the semantic actions build. */
  function Ast(t: Cst): Exp {
    match t
    case CVar => Var
    case CNum(n) => Num(n)
    case CNot(a) => Lnot(Ast(a))
    case CBin(o, l, r) => Bin(o.op, Ast(l), Ast(r))
    case CCond(c, y, f) => Qmop(Ast(c), Ast(y), Ast(f))
    case CParen(a) => Ast(a)
  }

  /** Binding strength: a two-place operator binds as its token number says. */
  function Strength(t: Cst): int {
    match t
    case CCond(_, _, _) => QUESTION
    case CBin(o, _, _) => o.tok
    case CNot(_) => NOT
    case _ => NOT + 1
  }

  /** The derivation respects precedence and associativity. */
  predicate WellPrec(t: Cst) {
    match t
    case CVar => true
    case CNum(_) => true
    case CNot(a) => WellPrec(a) && Strength(a) >= NOT
    case CBin(o, l, r) => WellPrec(l) && WellPrec(r) && Strength(l) >= o.tok && Strength(r) > o.tok
    case CCond(c, y, f) => WellPrec(c) && WellPrec(y) && WellPrec(f) && Strength(c) > QUESTION
    case CParen(a) => WellPrec(a)
  }

  /** The most stack entries that the parser needs above those present when it starts on t. */
  function Need(t: Cst): (n: nat)
    ensures n > 0
  {
    match t
    case CVar => 1
    case CNum(_) => 1
    case CNot(a) => 1 + Need(a)
    case CBin(_, l, r) => Max(Need(l), 2 + Need(r))
    case CCond(c, y, f) => Max(Need(c), Max(2 + Need(y), 4 + Need(f)))
    case CParen(a) => Max(1 + Need(a), 3)
  }

  function Bracket(t: Cst, strength: int): Cst {
    if Strength(t) >= strength then t else CParen(t)
  }

  /** Prints e with no more brackets than its context of the given strength asks for. */
  function Minimal(e: Exp, strength: int): Cst
  {
    match e
    case Var => CVar
    case Num(n) => CNum(n)
    case Lnot(a) => Bracket(CNot(Minimal(a, NOT)), strength)
    case Bin(op, l, r) =>
      Bracket(CBin(OperatorOf(op), Minimal(l, OpToken(op)), Minimal(r, OpToken(op) + 1)), strength)
    case Qmop(c, y, f) =>
      Bracket(CCond(Minimal(c, QUESTION + 1), Minimal(y, QUESTION), Minimal(f, QUESTION)), strength)
  }

  /** Prints e with brackets round every compound subexpression. */
  function Full(e: Exp): Cst
  {
    match e
    case Var => CVar
    case Num(n) => CNum(n)
    case Lnot(a) => CParen(CNot(Full(a)))
    case Bin(op, l, r) => CParen(CBin(OperatorOf(op), Full(l), Full(r)))
    case Qmop(c, y, f) => CParen(CCond(Full(c), Full(y), Full(f)))
  }

  /** Both printers respect precedence and keep the tree. */
  lemma {:induction false} MinimalKeepsTree(e: Exp, strength: int)
    requires strength <= NOT + 1
    ensures WellPrec(Minimal(e, strength)) && Ast(Minimal(e, strength)) == e
    ensures Strength(Minimal(e, strength)) >= strength
  {
    match e
    case Var =>
    case Num(_) =>
    case Lnot(a) => MinimalKeepsTree(a, NOT);
    case Bin(op, l, r) =>
      MinimalKeepsTree(l, OpToken(op));
      MinimalKeepsTree(r, OpToken(op) + 1);
    case Qmop(c, y, f) =>
      MinimalKeepsTree(c, QUESTION + 1);
      MinimalKeepsTree(y, QUESTION);
      MinimalKeepsTree(f, QUESTION);
  }

  function Brackets(t: Cst): nat {
    match t
    case CVar => 0
    case CNum(_) => 0
    case CNot(a) => Brackets(a)
    case CBin(_, l, r) => Brackets(l) + Brackets(r)
    case CCond(c, y, f) => Brackets(c) + Brackets(y) + Brackets(f)
    case CParen(a) => 1 + Brackets(a)
  }

  lemma OneBracketMore(e: Exp, strength: int)
    ensures Brackets(Minimal(e, strength)) <= 1 + Brackets(Minimal(e, QUESTION))
  {
  }

  lemma NoBracketNeeded(e: Exp, strength: int)
    requires strength <= match e
                         case Var => NOT + 1
                         case Num(_) => NOT + 1
                         case Lnot(_) => NOT
                         case Bin(op, _, _) => OpToken(op)
                         case Qmop(_, _, _) => QUESTION
    ensures Brackets(Minimal(e, strength))
            == match e
               case Var => 0
               case Num(_) => 0
               case Lnot(a) => Brackets(Minimal(a, NOT))
               case Bin(op, l, r) => Brackets(Minimal(l, OpToken(op))) + Brackets(Minimal(r, OpToken(op) + 1))
               case Qmop(c, y, f) =>
                 Brackets(Minimal(c, QUESTION + 1)) + Brackets(Minimal(y, QUESTION)) + Brackets(Minimal(f, QUESTION))
  {
  }

  /** No derivation of the tree that respects precedence has fewer brackets. */
  lemma {:induction false} MinimalIsLeast(t: Cst, strength: int)
    requires WellPrec(t) && Strength(t) >= strength
    ensures Brackets(Minimal(Ast(t), strength)) <= Brackets(t)
    decreases t
  {
    hide Minimal, Brackets;
    match t
    case CVar => LeafIsLeast(t, strength);
    case CNum(_) => LeafIsLeast(t, strength);
    case CNot(a) =>
      MinimalIsLeast(a, NOT);
      NotIsLeast(a, strength);
    case CBin(o, l, r) =>
      MinimalIsLeast(l, o.tok);
      MinimalIsLeast(r, o.tok + 1);
      BinIsLeast(o, l, r, strength);
    case CCond(c, y, f) =>
      MinimalIsLeast(c, QUESTION + 1);
      StrengthBound(y);
      StrengthBound(f);
      MinimalIsLeast(y, QUESTION);
      MinimalIsLeast(f, QUESTION);
      CondIsLeast(c, y, f, strength);
    case CParen(a) =>
      StrengthBound(a);
      MinimalIsLeast(a, QUESTION);
      ParenIsLeast(a, strength);
  }

  lemma LeafIsLeast(t: Cst, strength: int)
    requires t.CVar? || t.CNum?
    ensures Brackets(Minimal(Ast(t), strength)) <= Brackets(t)
  {
  }

  lemma NotIsLeast(a: Cst, strength: int)
    requires Brackets(Minimal(Ast(a), NOT)) <= Brackets(a) && strength <= NOT
    ensures Brackets(Minimal(Ast(CNot(a)), strength)) <= Brackets(CNot(a))
  {
    hide Minimal;
    NoBracketNeeded(Ast(CNot(a)), strength);
  }

  lemma BinIsLeast(o: Operator, l: Cst, r: Cst, strength: int)
    requires Brackets(Minimal(Ast(l), o.tok)) <= Brackets(l) && Brackets(Minimal(Ast(r), o.tok + 1)) <= Brackets(r)
    requires strength <= o.tok
    ensures Brackets(Minimal(Ast(CBin(o, l, r)), strength)) <= Brackets(CBin(o, l, r))
  {
    hide Minimal;
    NoBracketNeeded(Ast(CBin(o, l, r)), strength);
  }

  lemma CondIsLeast(c: Cst, y: Cst, f: Cst, strength: int)
    requires Brackets(Minimal(Ast(c), QUESTION + 1)) <= Brackets(c) && strength <= QUESTION
    requires Brackets(Minimal(Ast(y), QUESTION)) <= Brackets(y) && Brackets(Minimal(Ast(f), QUESTION)) <= Brackets(f)
    ensures Brackets(Minimal(Ast(CCond(c, y, f)), strength)) <= Brackets(CCond(c, y, f))
  {
    hide Minimal;
    NoBracketNeeded(Ast(CCond(c, y, f)), strength);
  }

  lemma ParenIsLeast(a: Cst, strength: int)
    requires Brackets(Minimal(Ast(a), QUESTION)) <= Brackets(a)
    ensures Brackets(Minimal(Ast(CParen(a)), strength)) <= Brackets(CParen(a))
  {
    hide Minimal;
    OneBracketMore(Ast(a), strength);
  }

  lemma StrengthBound(t: Cst)
    ensures Strength(t) >= QUESTION
  {
  }

  lemma {:induction false} FullKeepsTree(e: Exp)
    ensures WellPrec(Full(e)) && Ast(Full(e)) == e && Strength(Full(e)) > NOT
  {
    match e
    case Var =>
    case Num(_) =>
    case Lnot(a) => FullKeepsTree(a);
    case Bin(_, l, r) => FullKeepsTree(l); FullKeepsTree(r);
    case Qmop(c, y, f) => FullKeepsTree(c); FullKeepsTree(y); FullKeepsTree(f);
  }
}
