/** Every sentence of the precedence grammar is accepted with its own tree, provided
    the stack has room for it; without room the parser reports an overflow. */
module PluralCompleteness {
  import opened PluralExp
  import opened PluralGrammar
  import opened PluralAutomaton
  import opened Wrappers

  /** The lexemes that the parser has not yet shifted. */
  function Remaining(c: Config): Input {
    if c.la.Some? && IsLexeme(c.la.value) then More(c.la.value, c.rest) else c.rest
  }

  function First(i: Input): int {
    if i.Eof? then END else i.head.tok
  }

  /** The weakest expression that may appear in expression state q. */
  function MinStrength(q: int): int {
    if q == 6 then NOT
    else if 17 <= q <= 22 then q - 12
    else QUESTION
  }

  /** Token tok does not extend expression t. */
  predicate Ends(t: Cst, tok: int) {
    IsOperator(tok) ==> !t.CCond? && (t.CBin? ==> tok <= t.operator.tok)
  }

  /** The parser is about to act on `todo` with this stack. */
  predicate At(c: Config, stack: Stack, todo: Input) {
    c.status == Running && c.stack == stack && Remaining(c) == todo
  }

  /** The parser shifts the next lexeme. */
  lemma {:induction false} ShiftMove(c: Config, stack: Stack, l: Lexeme, todo: Input, s: int, limit: nat)
    returns (d: Config, v: Val)
    requires Inv(c) && At(c, stack, More(l, todo)) && !ReducesBlindly(Top(stack))
    requires ActionOf(Top(stack), l.tok) == Shift(s)
    ensures Inv(d) && Run(c, limit) == Run(d, limit) && d.res == c.res
    ensures l.val != NoVal ==> v == l.val
    ensures d.status == if Height(stack) + 1 >= limit then Overflowed else Running
    ensures d.status == Running ==> At(d, Push(stack, s, v), todo)
  {
    StepKeeps(c, limit);
    d := Step(c, limit);
    v := ReadLookahead(c).lval;
    assert ReadLookahead(c).la == Some(l);
  }

  /** The parser reduces by the rule that its top state completes. */
  lemma {:induction false} ReduceMove(c: Config, stack: Stack, todo: Input, limit: nat) returns (d: Config)
    requires Inv(c) && At(c, stack, todo) && CompletesRule(Top(stack))
    requires ReducesBlindly(Top(stack)) || !ShiftsOperator(Top(stack), First(todo))
    ensures Inv(d) && Run(c, limit) == Run(d, limit)
    ensures Top(stack) != 5 ==> d.res == c.res
    ensures Top(stack) == 5 && stack.val.ExpVal? ==> d.res == Some(stack.val.exp)
    ensures d.status == StatusFor(Reduced(stack), limit)
    ensures d.status == Running ==> At(d, Reduced(stack), todo)
  {
    StepKeeps(c, limit);
    d := Step(c, limit);
    if ReducesBlindly(Top(stack)) {
      assert d == DoReduce(c, limit);
    } else {
      assert ReadLookahead(c).la.value.tok == First(todo);
      assert d == DoReduce(ReadLookahead(c), limit);
    }
    if Top(stack) == 5 { ReduceShape(stack); }
  }

  /** Parsing expression t in front of todo pushes one entry that carries the tree of t,
      or overflows the stack. */
  lemma {:induction false} Parse(c: Config, stack: Stack, t: Cst, todo: Input, limit: nat) returns (d: Config)
    requires Inv(c) && At(c, stack, TokensThen(t, todo)) && WantsOperand(Top(stack))
    requires WellPrec(t) && MinStrength(GotoExp(Top(stack))) <= Strength(t) && Ends(t, First(todo))
    ensures Inv(d) && Run(c, limit) == Run(d, limit) && d.res == c.res
    ensures d.status == if Height(stack) + Need(t) < limit then Running else Overflowed
    ensures d.status == Running ==> At(d, Push(stack, GotoExp(Top(stack)), ExpVal(Ast(t))), todo)
    decreases t, 3
  {
    var v: Val;
    match t
    case CVar =>
      d, v := ShiftMove(c, stack, Token(VARIABLE, NoVal), todo, 3, limit);
      if d.status == Overflowed { return; }
      d := ReduceMove(d, Push(stack, 3, v), todo, limit);
    case CNum(n) =>
      d, v := ShiftMove(c, stack, Token(NUMBER, NumVal(n)), todo, 2, limit);
      if d.status == Overflowed { return; }
      d := ReduceMove(d, Push(stack, 2, v), todo, limit);
    case CNot(a) => d := ParseNot(c, stack, a, todo, limit);
    case CParen(a) => d := ParseParen(c, stack, a, todo, limit);
    case CBin(o, l, r) => d := ParseBin(c, stack, o, l, r, todo, limit);
    case CCond(_, _, _) => d := ParseCond(c, stack, t, todo, limit);
  }

  lemma {:induction false} ParseNot(c: Config, stack: Stack, a: Cst, todo: Input, limit: nat) returns (d: Config)
    requires Inv(c) && At(c, stack, TokensThen(CNot(a), todo)) && WantsOperand(Top(stack))
    requires WellPrec(a) && Strength(a) >= NOT
    ensures Inv(d) && Run(c, limit) == Run(d, limit) && d.res == c.res
    ensures d.status == if Height(stack) + Need(CNot(a)) < limit then Running else Overflowed
    ensures d.status == Running ==> At(d, Push(stack, GotoExp(Top(stack)), ExpVal(Lnot(Ast(a)))), todo)
    decreases a, 4
  {
    hide Run, Step, ReadLookahead;
    var v: Val;
    d, v := ShiftMove(c, stack, Token(NOT, NoVal), TokensThen(a, todo), 1, limit);
    if d.status == Overflowed { return; }
    var s := Push(stack, 1, v);
    assert Height(s) == Height(stack) + 1;
    d := Parse(d, s, a, todo, limit);
    if d.status == Overflowed { return; }
    d := ReduceMove(d, Push(s, 6, ExpVal(Ast(a))), todo, limit);
  }

  /** Parses t and shifts the token behind it. */
  lemma {:induction false} ParseAndShift(c: Config, stack: Stack, t: Cst, l: Lexeme, s: int, todo: Input, limit: nat)
    returns (d: Config, top: Stack)
    requires Inv(c) && At(c, stack, TokensThen(t, More(l, todo))) && WantsOperand(Top(stack))
    requires WellPrec(t) && MinStrength(GotoExp(Top(stack))) <= Strength(t) && Ends(t, l.tok)
    requires !ReducesBlindly(GotoExp(Top(stack))) && ActionOf(GotoExp(Top(stack)), l.tok) == Shift(s)
    ensures Inv(d) && Run(c, limit) == Run(d, limit) && d.res == c.res
    ensures d.status == if Height(stack) + Max(Need(t), 2) < limit then Running else Overflowed
    ensures d.status == Running ==>
              && top.Push? && top.state == s && (l.val != NoVal ==> top.val == l.val)
              && top.below == Push(stack, GotoExp(Top(stack)), ExpVal(Ast(t)))
              && At(d, top, todo) && Height(top) == Height(stack) + 2
    decreases t, 4
  {
    d := Parse(c, stack, t, More(l, todo), limit);
    var s1 := Push(stack, GotoExp(Top(stack)), ExpVal(Ast(t)));
    top := s1;
    if d.status == Overflowed { return; }
    var v: Val;
    d, v := ShiftMove(d, s1, l, todo, s, limit);
    top := Push(s1, s, v);
  }

  lemma {:induction false} ParseParen(c: Config, stack: Stack, a: Cst, todo: Input, limit: nat) returns (d: Config)
    requires Inv(c) && At(c, stack, TokensThen(CParen(a), todo)) && WantsOperand(Top(stack))
    requires WellPrec(a)
    ensures Inv(d) && Run(c, limit) == Run(d, limit) && d.res == c.res
    ensures d.status == if Height(stack) + Need(CParen(a)) < limit then Running else Overflowed
    ensures d.status == Running ==> At(d, Push(stack, GotoExp(Top(stack)), ExpVal(Ast(a))), todo)
    decreases a, 5
  {
    hide Run, Step, ReadLookahead;
    var closing: Lexeme := Token(CLOSE, NoVal);
    var v: Val;
    d, v := ShiftMove(c, stack, Token(OPEN, NoVal), TokensThen(a, More(closing, todo)), 4, limit);
    if d.status == Overflowed { return; }
    var s: Stack;
    d, s := ParseAndShift(d, Push(stack, 4, v), a, closing, 15, todo, limit);
    if d.status == Overflowed { return; }
    d := ReduceMove(d, s, todo, limit);
  }

  /** Behind the left operand the operator is shifted. */
  lemma OperatorFollows(p: int, o: Operator, l: Cst, r: Cst)
    requires WantsOperand(p) && WellPrec(CBin(o, l, r)) && MinStrength(GotoExp(p)) <= o.tok
    ensures !ReducesBlindly(GotoExp(p)) && ActionOf(GotoExp(p), o.tok) == Shift(o.tok + 5)
    ensures WellPrec(l) && MinStrength(GotoExp(p)) <= Strength(l) && Ends(l, o.tok)
    ensures WellPrec(r) && Strength(r) > o.tok
    ensures OpLexeme(o).tok == o.tok && (o.tok >= EQUOP2 ==> OpLexeme(o).val == OpVal(o.op) != NoVal)
  {
  }

  lemma {:induction false} ParseBin(c: Config, stack: Stack, o: Operator, l: Cst, r: Cst, todo: Input, limit: nat)
    returns (d: Config)
    requires Inv(c) && At(c, stack, TokensThen(CBin(o, l, r), todo)) && WantsOperand(Top(stack))
    requires WellPrec(CBin(o, l, r)) && MinStrength(GotoExp(Top(stack))) <= o.tok
    requires Ends(CBin(o, l, r), First(todo))
    ensures Inv(d) && Run(c, limit) == Run(d, limit) && d.res == c.res
    ensures d.status == if Height(stack) + Need(CBin(o, l, r)) < limit then Running else Overflowed
    ensures d.status == Running ==>
              At(d, Push(stack, GotoExp(Top(stack)), ExpVal(Bin(o.op, Ast(l), Ast(r)))), todo)
    decreases CBin(o, l, r), 2
  {
    OperatorFollows(Top(stack), o, l, r);
    hide Run, Step, ReadLookahead, ActionOf, GotoExp, ReducesBlindly, WantsOperand, MinStrength, Ends, StackOk, IsLexeme,
         WellPrec, Strength;
    var s: Stack;
    d, s := ParseAndShift(c, stack, l, OpLexeme(o), o.tok + 5, TokensThen(r, todo), limit);
    if d.status == Running {
      d := ParseRight(d, s, stack, o, Ast(l), r, todo, limit);
    }
  }

  /** The right operand of a two-place expression, and the reduction behind it. */
  lemma {:induction false} ParseRight(c: Config, top: Stack, stack: Stack, o: Operator, l: Exp, r: Cst,
                                      todo: Input, limit: nat)
    returns (d: Config)
    requires Inv(c) && At(c, top, TokensThen(r, todo))
    requires top.Push? && top.state == o.tok + 5 && (o.tok >= EQUOP2 ==> top.val == OpVal(o.op))
    requires top.below == Push(stack, GotoExp(Top(stack)), ExpVal(l)) && WantsOperand(Top(stack))
    requires WellPrec(r) && Strength(r) > o.tok
    requires IsOperator(First(todo)) ==> First(todo) <= o.tok
    ensures Inv(d) && Run(c, limit) == Run(d, limit) && d.res == c.res
    ensures d.status == if Height(stack) + 2 + Need(r) < limit then Running else Overflowed
    ensures d.status == Running ==> At(d, Push(stack, GotoExp(Top(stack)), ExpVal(Bin(o.op, l, Ast(r)))), todo)
    decreases r, 4
  {
    assert Height(top) == Height(stack) + 2;
    d := Parse(c, top, r, todo, limit);
    if d.status == Running {
      d := ReduceBin(d, stack, o, l, Ast(r), top.val, todo, limit);
    }
  }

  /** The reduction that ends a two-place expression. */
  lemma {:induction false} ReduceBin(c: Config, stack: Stack, o: Operator, l: Exp, r: Exp, v: Val, todo: Input, limit: nat)
    returns (d: Config)
    requires WantsOperand(Top(stack)) && (o.tok >= EQUOP2 ==> v == OpVal(o.op))
    requires IsOperator(First(todo)) ==> First(todo) <= o.tok
    requires Inv(c)
    requires At(c, Push(Push(Push(stack, GotoExp(Top(stack)), ExpVal(l)), o.tok + 5, v), o.tok + 13, ExpVal(r)),
                todo)
    ensures Inv(d) && Run(c, limit) == Run(d, limit) && d.res == c.res
    ensures d.status == if Height(stack) + 1 < limit then Running else Overflowed
    ensures d.status == Running ==> At(d, Push(stack, GotoExp(Top(stack)), ExpVal(Bin(o.op, l, r))), todo)
  {
    assert ActionValue(c.stack) == ExpVal(Bin(o.op, l, r));
    d := ReduceMove(c, c.stack, todo, limit);
  }

  /** Behind the condition the question mark is shifted. */
  lemma QuestionFollows(p: int, t: Cst)
    requires WantsOperand(p) && t.CCond? && WellPrec(t) && MinStrength(GotoExp(p)) <= QUESTION
    ensures !ReducesBlindly(GotoExp(p)) && ActionOf(GotoExp(p), QUESTION) == Shift(8)
    ensures WellPrec(t.cond) && MinStrength(GotoExp(p)) <= Strength(t.cond) && Ends(t.cond, QUESTION)
  {
  }

  const QUESTION_MARK: Lexeme := Token(QUESTION, NoVal)

  const COLON_MARK: Lexeme := Token(COLON, NoVal)

  lemma CondTokens(t: Cst, todo: Input)
    requires t.CCond?
    ensures TokensThen(t, todo)
            == TokensThen(t.cond, More(QUESTION_MARK, TokensThen(t.yes, More(COLON_MARK, TokensThen(t.no, todo)))))
    ensures QUESTION_MARK.tok == QUESTION
  {
  }

  lemma CondNeed(t: Cst)
    requires t.CCond?
    ensures Need(t) == Max(Need(t.cond), Max(2 + Need(t.yes), 4 + Need(t.no)))
  {
    hide Max;
  }

  lemma {:induction false} ParseCond(c: Config, stack: Stack, t: Cst, todo: Input, limit: nat) returns (d: Config)
    requires t.CCond? && WellPrec(t) && !IsOperator(First(todo))
    requires Inv(c) && At(c, stack, TokensThen(t, todo))
    requires WantsOperand(Top(stack)) && MinStrength(GotoExp(Top(stack))) <= QUESTION
    ensures Inv(d) && Run(c, limit) == Run(d, limit) && d.res == c.res
    ensures d.status == if Height(stack) + Need(t) < limit then Running else Overflowed
    ensures d.status == Running ==> At(d, Push(stack, GotoExp(Top(stack)), ExpVal(Ast(t))), todo)
    decreases t, 2
  {
    hide Run, Step, ReadLookahead, ActionOf, GotoExp, ReducesBlindly, WantsOperand, MinStrength, Ends, StackOk, IsLexeme,
         WellPrec, Strength, Need, TokensThen, Ast, Height, Inv, QUESTION_MARK, COLON_MARK;
    QuestionFollows(Top(stack), t);
    CondTokens(t, todo);
    CondNeed(t);
    var s: Stack;
    var rest := TokensThen(t.yes, More(COLON_MARK, TokensThen(t.no, todo)));
    d, s := ParseAndShift(c, stack, t.cond, QUESTION_MARK, 8, rest, limit);
    if d.status == Running {
      d := ParseBranches(d, s, stack, t, todo, limit);
    }
  }

  /** The part of conditional expression t behind the question mark. */
  lemma {:induction false} ParseBranches(c: Config, top: Stack, stack: Stack, t: Cst, todo: Input, limit: nat)
    returns (d: Config)
    requires t.CCond? && WellPrec(t) && WantsOperand(Top(stack)) && !IsOperator(First(todo))
    requires top.Push? && top.state == 8 && top.below == Push(stack, GotoExp(Top(stack)), ExpVal(Ast(t.cond)))
    requires Inv(c) && At(c, top, TokensThen(t.yes, More(COLON_MARK, TokensThen(t.no, todo))))
    ensures Inv(d) && Run(c, limit) == Run(d, limit) && d.res == c.res
    ensures d.status == if Height(stack) + Max(2 + Need(t.yes), 4 + Need(t.no)) < limit then Running else Overflowed
    ensures d.status == Running ==> At(d, Push(stack, GotoExp(Top(stack)), ExpVal(Ast(t))), todo)
    decreases t, 1
  {
    hide Run, Step, ReadLookahead;
    assert Height(top) == Height(stack) + 2;
    var s: Stack;
    d, s := ParseAndShift(c, top, t.yes, COLON_MARK, 23, TokensThen(t.no, todo), limit);
    if d.status == Running {
      d := Parse(d, s, t.no, todo, limit);
      if d.status == Running {
        d := ReduceCond(d, top, stack, Ast(t.cond), Ast(t.yes), s.val, Ast(t.no), todo, limit);
      }
    }
  }

  /** The reduction that ends a conditional expression. */
  lemma {:induction false} ReduceCond(c: Config, top: Stack, stack: Stack, e: Exp, y: Exp, v: Val, f: Exp,
                                      todo: Input, limit: nat)
    returns (d: Config)
    requires WantsOperand(Top(stack)) && !IsOperator(First(todo))
    requires top.Push? && top.below == Push(stack, GotoExp(Top(stack)), ExpVal(e))
    requires Inv(c) && At(c, Push(Push(Push(top, 16, ExpVal(y)), 23, v), 24, ExpVal(f)), todo)
    ensures Inv(d) && Run(c, limit) == Run(d, limit) && d.res == c.res
    ensures d.status == if Height(stack) + 1 < limit then Running else Overflowed
    ensures d.status == Running ==> At(d, Push(stack, GotoExp(Top(stack)), ExpVal(Qmop(e, y, f))), todo)
  {
    assert ActionValue(c.stack) == ExpVal(Qmop(e, y, f));
    d := ReduceMove(c, c.stack, todo, limit);
  }

  /** Behind rule 1 the parser accepts exactly when nothing is left to read. */
  lemma {:induction false} AfterStart(c: Config, v: Val, limit: nat)
    requires Inv(c) && c.status == Running && c.stack == Push(Bottom, START_REDUCED, v) && limit > 3
    ensures Run(c, limit).res == c.res
    ensures Run(c, limit).status == if Remaining(c) == Eof then Accepted else Aborted
  {
    StepKeeps(c, limit);
    var d := Step(c, limit);
    var r := ReadLookahead(c);
    if Remaining(c) == Eof {
      assert r.la == Some(Token(END, NoVal)) && d == DoShift(r, END_SHIFTED, limit);
      assert Height(Bottom) == 1 && Height(c.stack) == 2 && Height(d.stack) == 3;
      assert d.status == Running && Top(d.stack) == END_SHIFTED && d.la == Some(Token(END, NoVal));
      StepKeeps(d, limit);
      assert Step(d, limit) == d.(status := Accepted);
      assert Run(c, limit) == Run(d, limit) == Run(Step(d, limit), limit);
    } else {
      assert r.la == Some(Remaining(c).head) && d == r.(status := Aborted);
    }
  }

  /** Completeness: a sentence of the precedence grammar is accepted with its tree,
      except when it is so deep that the stack would reach its limit. */
  lemma {:induction false} Complete(t: Cst, limit: nat)
    requires WellPrec(t) && limit > 3
    ensures var r := Run(Init(Tokens(t)), limit);
            if 1 + Need(t) < limit then r.status == Accepted && r.res == Some(Ast(t))
            else r.status == Overflowed
  {
    var c := Init(Tokens(t));
    var d := Parse(c, Bottom, t, Eof, limit);
    if d.status == Running {
      d := ReduceMove(d, Push(Bottom, 5, ExpVal(Ast(t))), Eof, limit);
      AfterStart(d, ExpVal(Ast(t)), limit);
    }
  }

  lemma {:induction false} SameTree(t: Cst, u: Cst)
    requires WellPrec(t) && WellPrec(u) && Tokens(t) == Tokens(u)
    ensures Ast(t) == Ast(u)
  {
    var limit := Max(Need(t), Need(u)) + 4;
    Complete(t, limit);
    Complete(u, limit);
  }

  // ---- Brackets leave no trace in the tree, but marked brackets do ----

  /** Every (a) becomes (k*(a)). */
  function Mark(t: Cst, k: nat): Cst {
    match t
    case CVar => CVar
    case CNum(n) => CNum(n)
    case CNot(a) => CNot(Mark(a, k))
    case CBin(o, l, r) => CBin(o, Mark(l, k), Mark(r, k))
    case CCond(c, y, f) => CCond(Mark(c, k), Mark(y, k), Mark(f, k))
    case CParen(a) => CParen(CBin(OperatorOf(Mult), CNum(k), CParen(Mark(a, k))))
  }

  /** The same on tokens. */
  function MarkTokens(s: Input, k: nat): Input {
    match s
    case Eof => Eof
    case More(l, rest) =>
      if l.tok == OPEN then
        More(l, More(Token(NUMBER, NumVal(k)), More(OpLexeme(OperatorOf(Mult)), More(l, MarkTokens(rest, k)))))
      else if l.tok == CLOSE then More(l, More(l, MarkTokens(rest, k)))
      else More(l, MarkTokens(rest, k))
  }

  /** Every number of the derivation is smaller. */
  predicate Below(t: Cst, k: nat) {
    match t
    case CVar => true
    case CNum(n) => n < k
    case CNot(a) => Below(a, k)
    case CBin(_, l, r) => Below(l, k) && Below(r, k)
    case CCond(c, y, f) => Below(c, k) && Below(y, k) && Below(f, k)
    case CParen(a) => Below(a, k)
  }

  function Beyond(t: Cst): nat {
    match t
    case CVar => 0
    case CNum(n) => n + 1
    case CNot(a) => Beyond(a)
    case CBin(_, l, r) => Max(Beyond(l), Beyond(r))
    case CCond(c, y, f) => Max(Beyond(c), Max(Beyond(y), Beyond(f)))
    case CParen(a) => Beyond(a)
  }

  lemma {:induction false} BeyondIs(t: Cst, k: nat)
    requires k >= Beyond(t)
    ensures Below(t, k)
  {
    match t
    case CVar =>
    case CNum(_) =>
    case CNot(a) => BeyondIs(a, k);
    case CBin(_, l, r) => BeyondIs(l, k); BeyondIs(r, k);
    case CCond(c, y, f) => BeyondIs(c, k); BeyondIs(y, k); BeyondIs(f, k);
    case CParen(a) => BeyondIs(a, k);
  }

  lemma MarkBrackets(rest: Input, k: nat)
    ensures MarkTokens(More(Token(CLOSE, NoVal), rest), k)
            == More(Token(CLOSE, NoVal), More(Token(CLOSE, NoVal), MarkTokens(rest, k)))
    ensures MarkTokens(More(Token(OPEN, NoVal), rest), k)
            == More(Token(OPEN, NoVal), More(Token(NUMBER, NumVal(k)), More(OpLexeme(OperatorOf(Mult)),
               More(Token(OPEN, NoVal), MarkTokens(rest, k)))))
  {
  }

  lemma MarkPlain(l: Lexeme, rest: Input, k: nat)
    requires l.tok != OPEN && l.tok != CLOSE
    ensures MarkTokens(More(l, rest), k) == More(l, MarkTokens(rest, k))
  {
  }

  lemma ParenTokens(a: Cst, rest: Input, k: nat)
    ensures TokensThen(CParen(CBin(OperatorOf(Mult), CNum(k), CParen(a))), rest)
            == More(Token(OPEN, NoVal), More(Token(NUMBER, NumVal(k)), More(OpLexeme(OperatorOf(Mult)),
               More(Token(OPEN, NoVal), TokensThen(a, More(Token(CLOSE, NoVal), More(Token(CLOSE, NoVal), rest)))))))
  {
    var x := CBin(OperatorOf(Mult), CNum(k), CParen(a));
    var end := More(Token(CLOSE, NoVal), rest);
    assert TokensThen(x, end)
           == TokensThen(CNum(k), More(OpLexeme(OperatorOf(Mult)), TokensThen(CParen(a), end)));
  }

  lemma {:induction false} MarkedTokens(t: Cst, rest: Input, k: nat)
    ensures TokensThen(Mark(t, k), MarkTokens(rest, k)) == MarkTokens(TokensThen(t, rest), k)
    decreases t
  {
    hide MarkTokens;
    match t
    case CVar => { MarkPlain(Token(VARIABLE, NoVal), rest, k); }
    case CNum(n) => { MarkPlain(Token(NUMBER, NumVal(n)), rest, k); }
    case CNot(a) => {
      MarkPlain(Token(NOT, NoVal), TokensThen(a, rest), k);
      MarkedTokens(a, rest, k);
    }
    case CBin(o, l, r) => {
      MarkedTokens(l, More(OpLexeme(o), TokensThen(r, rest)), k);
      MarkPlain(OpLexeme(o), TokensThen(r, rest), k);
      MarkedTokens(r, rest, k);
    }
    case CCond(c, y, f) => {
      var s2 := More(Token(COLON, NoVal), TokensThen(f, rest));
      MarkedTokens(c, More(Token(QUESTION, NoVal), TokensThen(y, s2)), k);
      MarkPlain(Token(QUESTION, NoVal), TokensThen(y, s2), k);
      MarkedTokens(y, s2, k);
      MarkPlain(Token(COLON, NoVal), TokensThen(f, rest), k);
      MarkedTokens(f, rest, k);
    }
    case CParen(a) => {
      ParenTokens(Mark(a, k), MarkTokens(rest, k), k);
      MarkBrackets(TokensThen(a, More(Token(CLOSE, NoVal), rest)), k);
      MarkedTokens(a, More(Token(CLOSE, NoVal), rest), k);
      MarkBrackets(rest, k);
    }
  }

  lemma {:induction false} MarkKeepsPrec(t: Cst, k: nat)
    requires WellPrec(t)
    ensures WellPrec(Mark(t, k)) && Strength(Mark(t, k)) == Strength(t)
  {
    match t
    case CVar =>
    case CNum(_) =>
    case CNot(a) => MarkKeepsPrec(a, k);
    case CBin(_, l, r) => MarkKeepsPrec(l, k); MarkKeepsPrec(r, k);
    case CCond(c, y, f) => MarkKeepsPrec(c, k); MarkKeepsPrec(y, k); MarkKeepsPrec(f, k);
    case CParen(a) => MarkKeepsPrec(a, k);
  }

  lemma ParenTree(a: Cst, k: nat)
    ensures Ast(Mark(CParen(a), k)) == Bin(Mult, Num(k), Ast(Mark(a, k)))
  {
    var x := CBin(OperatorOf(Mult), CNum(k), CParen(Mark(a, k)));
    assert Ast(x) == Bin(Mult, Ast(CNum(k)), Ast(CParen(Mark(a, k))));
  }

  /** Only a mark multiplies the fresh number. */
  lemma NoOtherMark(t: Cst, e: Exp, k: nat)
    requires Below(t, k) && Ast(Mark(t, k)) == Bin(Mult, Num(k), e)
    ensures t.CParen?
  {
    if t.CBin? && t.left.CParen? { ParenTree(t.left.inner, k); }
  }

  /** With a fresh number, the tree shows where the brackets were. */
  lemma {:induction false} MarksShow(t: Cst, u: Cst, k: nat)
    requires Below(t, k) && Below(u, k) && Ast(Mark(t, k)) == Ast(Mark(u, k))
    ensures t == u
    decreases t
  {
    if t.CParen? {
      ParenTree(t.inner, k);
      NoOtherMark(u, Ast(Mark(t.inner, k)), k);
      ParenTree(u.inner, k);
      MarksShow(t.inner, u.inner, k);
    } else if u.CParen? {
      ParenTree(u.inner, k);
      NoOtherMark(t, Ast(Mark(u.inner, k)), k);
      assert false;
    } else {
      match t
      case CVar => {}
      case CNum(_) => {}
      case CNot(a) => { MarksShow(a, u.arg, k); }
      case CBin(_, l, r) => {
        MarksShow(l, u.left, k);
        MarksShow(r, u.right, k);
      }
      case CCond(c, y, f) => {
        MarksShow(c, u.cond, k);
        MarksShow(y, u.yes, k);
        MarksShow(f, u.no, k);
      }
    }
  }

  /** No token string has two derivations that respect precedence, brackets included. */
  lemma {:induction false} Unambiguous(t: Cst, u: Cst)
    requires WellPrec(t) && WellPrec(u) && Tokens(t) == Tokens(u)
    ensures t == u
  {
    hide Mark, MarkTokens, Below, WellPrec, TokensThen;
    var k := Max(Beyond(t), Beyond(u));
    BeyondIs(t, k);
    BeyondIs(u, k);
    assert MarkTokens(Eof, k) == Eof by { MarkEof(k); }
    MarkedTokens(t, Eof, k);
    MarkedTokens(u, Eof, k);
    MarkKeepsPrec(t, k);
    MarkKeepsPrec(u, k);
    SameTree(Mark(t, k), Mark(u, k));
    MarksShow(t, u, k);
  }

  lemma MarkEof(k: nat)
    ensures MarkTokens(Eof, k) == Eof
  {
  }
}
