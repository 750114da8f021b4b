/** The LALR(1) automaton of the plural parser on values: its actions in closed form,
    one parser step, and a whole run. Module PluralParser shows that the packed tables
    of plural.c decode to exactly these actions. */
module PluralAutomaton {
  import opened PluralExp
  import opened PluralGrammar
  import opened Wrappers

  datatype Action = Shift(state: int) | Reduce(rule: int) | Accept | Error

  const START_REDUCED := 25   // after rule 1
  const END_SHIFTED := 26

  /** States whose items all expect an operand. */
  predicate WantsOperand(s: int) {
    s == 0 || s == 1 || s == 4 || 8 <= s <= 14 || s == 23
  }

  /** States that reduce without looking at the next token. */
  predicate ReducesBlindly(s: int) {
    s == 2 || s == 3 || s == 6 || s == 15 || s == 22
  }

  /** States in which an expression may be continued by operator tok. */
  predicate ShiftsOperator(s: int, tok: int) {
    && IsOperator(tok)
    && (s == 5 || s == 7 || s == 16 || s == 24 || (17 <= s <= 22 && tok > s - 13))
  }

  /** States that end with a complete right-hand side. */
  predicate CompletesRule(s: int) {
    s == 2 || s == 3 || s == 5 || s == 6 || s == 15 || 17 <= s <= 22 || s == 24
  }

  /** The rule that state s completes. */
  function RuleOf(s: int): int
    requires CompletesRule(s)
  {
    if s == 2 then 11 else if s == 3 then 10 else if s == 5 then 1 else if s == 6 then 9
    else if s == 15 then 12 else if s == 24 then 2 else s - 14
  }

  /** What state s does on lookahead tok. */
  function ActionOf(s: int, tok: int): Action
  {
    if WantsOperand(s) then
      if tok == NOT then Shift(1)
      else if tok == NUMBER then Shift(2)
      else if tok == VARIABLE then Shift(3)
      else if tok == OPEN then Shift(4)
      else Error
    else if ShiftsOperator(s, tok) then Shift(tok + 5)
    else if CompletesRule(s) then Reduce(RuleOf(s))
    else if s == 7 && tok == CLOSE then Shift(15)
    else if s == 16 && tok == COLON then Shift(23)
    else if s == START_REDUCED && tok == END then Shift(END_SHIFTED)
    else if s == END_SHIFTED && tok == END then Accept
    else Error
  }

  /** The state entered when an expression has been recognised above state p. */
  function GotoExp(p: int): int {
    if p == 0 then 5
    else if p == 1 then 6
    else if p == 4 then 7
    else if p == 23 then 24
    else p + 8
  }

  predicate IsExpState(s: int) {
    5 <= s <= 7 || 16 <= s <= 22 || s == 24
  }

  /** The state stack and the value stack side by side; the bottom holds state 0. */
  datatype Stack = Bottom | Push(below: Stack, state: int, val: Val)

  function Top(s: Stack): int {
    if s.Bottom? then 0 else s.state
  }

  /** Number of states on the stack. */
  function Height(s: Stack): (h: nat)
    ensures h > 0
  {
    if s.Bottom? then 1 else 1 + Height(s.below)
  }

  datatype Status = Running | Accepted | Aborted | Overflowed

  /** la is the lookahead, None for YYEMPTY; lval is yylval; rest is what yylex has not
      yet delivered; res is the result stored through the parser's argument. */
  datatype Config = Config(
    stack: Stack, la: Option<Token>, lval: Val, rest: Input, res: Option<Exp>, status: Status)

  function Init(toks: Input): Config {
    Config(Bottom, None, NoVal, toks, None, Running)
  }

  /** q may lie directly above p on the state stack. */
  predicate Edge(p: int, q: int) {
    || (1 <= q <= 4 && WantsOperand(p))
    || (IsExpState(q) && WantsOperand(p) && q == GotoExp(p))
    || (8 <= q <= 14 && ShiftsOperator(p, q - 5))
    || (q == 15 && p == 7)
    || (q == 23 && p == 16)
    || (q == START_REDUCED && p == 0)
    || (q == END_SHIFTED && p == START_REDUCED)
  }

  /** The union member that was written for an entry of state q. */
  predicate Kind(q: int, v: Val) {
    && (q == 2 ==> v.NumVal?)
    && (11 <= q <= 14 ==> v.OpVal?)
    && (IsExpState(q) ==> v.ExpVal?)
  }

  predicate StackOk(s: Stack) {
    s.Push? ==> Edge(Top(s.below), s.state) && Kind(s.state, s.val) && StackOk(s.below)
  }

  predicate Inv(c: Config) {
    && StackOk(c.stack)
    && (c.la.Some? ==> IsLexeme(c.la.value) || (c.la.value == Token(END, NoVal) && c.rest == Eof))
    && (c.la.Some? && c.la.value.val != NoVal ==> c.lval == c.la.value.val)
  }

  /** YYLEX when there is no lookahead. */
  function ReadLookahead(c: Config): Config
  {
    if c.la.Some? then c
    else match c.rest
         case Eof => c.(la := Some(Token(END, NoVal)))
         case More(l, rest) =>
           c.(la := Some(l), rest := rest, lval := if l.val == NoVal then c.lval else l.val)
  }

  function Pop(s: Stack): Stack {
    if s.Bottom? then s else s.below
  }

  /** The stack below the right-hand side of a rule. */
  function BelowHandle(s: Stack, rule: int): Stack {
    if rule == 1 || rule == 10 || rule == 11 then Pop(s)
    else if rule == 9 then Pop(Pop(s))
    else if rule == 2 then Pop(Pop(Pop(Pop(Pop(s)))))
    else Pop(Pop(Pop(s)))
  }

  /** What lies on top of the stack when the top state completes a rule. */
  lemma ReduceShape(s: Stack)
    requires StackOk(s) && CompletesRule(Top(s))
    ensures s.Push?
    ensures s.state == 2 ==> s.val.NumVal?
    ensures s.state == 5 ==> s.below.Bottom? && s.val.ExpVal?
    ensures s.state == 6 ==> s.val.ExpVal? && s.below.Push? && s.below.state == 1
    ensures s.state == 15 ==> s.below.Push? && s.below.state == 7 && s.below.val.ExpVal?
                              && s.below.below.Push? && s.below.below.state == 4
    ensures 17 <= s.state <= 22 ==>
              && s.val.ExpVal? && s.below.Push? && s.below.state == s.state - 8
              && (s.state >= 19 ==> s.below.val.OpVal?)
              && (var l := s.below.below;
                  l.Push? && l.val.ExpVal? && IsExpState(l.state) && ShiftsOperator(l.state, s.state - 13))
    ensures s.state == 24 ==>
              && s.val.ExpVal? && s.below.Push? && s.below.state == 23
              && (var y := s.below.below;
                  && y.Push? && y.val.ExpVal? && y.state == 16 && y.below.Push? && y.below.state == 8
                  && (var c := y.below.below;
                      c.Push? && c.val.ExpVal? && IsExpState(c.state) && ShiftsOperator(c.state, QUESTION)))
    ensures var b := BelowHandle(s, RuleOf(s.state)); WantsOperand(Top(b)) && StackOk(b)
  {
    assert StackOk(s.below);
    if s.state == 6 {
      assert StackOk(s.below.below);
    } else if s.state == 15 || 17 <= s.state <= 22 {
      assert StackOk(s.below.below) && StackOk(s.below.below.below);
    } else if s.state == 24 {
      var y := s.below.below;
      assert StackOk(y) && StackOk(y.below);
      var c := y.below.below;
      assert StackOk(c) && StackOk(c.below);
    }
  }

  /** The value that a rule's action leaves in yyval, given the stack it reduces. */
  function ActionValue(s: Stack): Val
    requires StackOk(s) && CompletesRule(Top(s))
  {
    ReduceShape(s);
    match RuleOf(s.state)
    case 1 => s.val
    case 2 => ExpVal(Qmop(s.below.below.below.below.val.exp, s.below.below.val.exp, s.val.exp))
    case 3 => ExpVal(Bin(Lor, s.below.below.val.exp, s.val.exp))
    case 4 => ExpVal(Bin(Land, s.below.below.val.exp, s.val.exp))
    case 9 => ExpVal(Lnot(s.val.exp))
    case 10 => ExpVal(Var)
    case 11 => ExpVal(Num(s.val.num))
    case 12 => s.below.val
    case _ => ExpVal(Bin(s.below.val.op, s.below.below.val.exp, s.val.exp))
  }

  /** The stack after the rule that the top state completes: its right-hand side is
      replaced by one entry with the goto state and the value of the action. */
  function Reduced(s: Stack): Stack
    requires StackOk(s) && CompletesRule(Top(s))
  {
    var rule := RuleOf(Top(s));
    var b := BelowHandle(s, rule);
    Push(b, if rule == 1 then START_REDUCED else GotoExp(Top(b)), ActionValue(s))
  }

  /** The parser gives up when its stack holds limit entries. */
  function StatusFor(s: Stack, limit: nat): Status {
    if Height(s) >= limit then Overflowed else Running
  }

  /** Reduces; rule 1 also stores the result. */
  function DoReduce(c: Config, limit: nat): Config
    requires StackOk(c.stack) && CompletesRule(Top(c.stack))
  {
    ReduceShape(c.stack);
    var r := Reduced(c.stack);
    c.(stack := r, res := if r.state == START_REDUCED then Some(c.stack.val.exp) else c.res,
       status := StatusFor(r, limit))
  }

  /** Shifts the lookahead; the end marker stays the lookahead. */
  function DoShift(c: Config, s: int, limit: nat): Config
    requires c.la.Some?
  {
    var r := Push(c.stack, s, c.lval);
    c.(stack := r, la := if c.la.value.tok == END then c.la else None, status := StatusFor(r, limit))
  }

  lemma TopIsState(s: Stack)
    requires StackOk(s)
    ensures 0 <= Top(s) <= END_SHIFTED
  {
  }

  /** One move of the parser: from one visit of yybackup to the next, or to the end. */
  function Step(c: Config, limit: nat): (d: Config)
    requires StackOk(c.stack)
  {
    if ReducesBlindly(Top(c.stack)) then DoReduce(c, limit)
    else
      var d := ReadLookahead(c);
      match ActionOf(Top(c.stack), d.la.value.tok)
      case Shift(s) => DoShift(d, s, limit)
      case Reduce(_) => DoReduce(d, limit)
      case Accept => d.(status := Accepted)
      case Error => d.(status := Aborted)
  }

  lemma ReduceKeeps(c: Config, limit: nat)
    requires Inv(c) && CompletesRule(Top(c.stack))
    ensures Inv(DoReduce(c, limit))
  {
    ReduceShape(c.stack);
  }

  lemma ShiftKeeps(c: Config, s: int, limit: nat)
    requires Inv(c) && c.la.Some? && Edge(Top(c.stack), s) && Kind(s, c.lval)
    ensures Inv(DoShift(c, s, limit))
  {
  }

  lemma ShiftLinks(s: int, tok: int)
    ensures ActionOf(s, tok).Shift? ==> Edge(s, ActionOf(s, tok).state)
    ensures ActionOf(s, tok).Shift? && tok != NUMBER ==> ActionOf(s, tok).state != 2
    ensures ActionOf(s, tok).Shift? && !(EQUOP2 <= tok <= MULOP2) ==> !(11 <= ActionOf(s, tok).state <= 14)
    ensures ActionOf(s, tok).Shift? ==> !IsExpState(ActionOf(s, tok).state)
  {
  }

  /** One move keeps the stacks aligned and well linked. */
  lemma StepKeeps(c: Config, limit: nat)
    requires Inv(c) && c.status == Running
    ensures Inv(Step(c, limit))
  {
    if ReducesBlindly(Top(c.stack)) {
      ReduceKeeps(c, limit);
    } else {
      var d := ReadLookahead(c);
      var a := ActionOf(Top(c.stack), d.la.value.tok);
      if a.Reduce? {
        ReduceKeeps(d, limit);
      } else if a.Shift? {
        ShiftLinks(Top(c.stack), d.la.value.tok);
        ShiftKeeps(d, a.state, limit);
      }
    }
  }

  /** Termination weight of the stack: an operand token weighs more than its expression. */
  function Weight(s: Stack): nat {
    if s.Bottom? then 0
    else (if s.state == 2 || s.state == 3 then 2 else if s.state >= START_REDUCED then 0 else 1) + Weight(s.below)
  }

  function Unread(i: Input): nat {
    if i.Eof? then 0 else 1 + Unread(i.tail)
  }

  /** Decreases with every move: three for each token still to be shifted, plus the stack's weight. */
  function Measure(c: Config): nat {
    3 * (Unread(c.rest) + if c.la.Some? && c.la.value.tok != END then 1 else 0) + Weight(c.stack)
    + (if c.status != Running then 0 else if Top(c.stack) == END_SHIFTED then 1 else 2)
  }

  /** What a reduction pops weighs more than the entry that it pushes. */
  lemma ReducedWeighsLess(s: Stack)
    requires StackOk(s) && CompletesRule(Top(s))
    ensures Weight(Reduced(s)) < Weight(s) && Top(Reduced(s)) != END_SHIFTED
  {
    ReduceShape(s);
    if s.state == 24 {
      assert Weight(s) == 5 + Weight(BelowHandle(s, 2)) by {
        var c := s.below.below.below.below;
        assert Weight(c.below) + 1 == Weight(c);
        assert Weight(s.below.below) == 2 + Weight(c);
      }
    } else if s.state == 15 || 17 <= s.state <= 22 {
      assert Weight(s.below) == 2 + Weight(s.below.below.below);
    }
  }

  lemma ReadingKeepsMeasure(c: Config)
    ensures Measure(ReadLookahead(c)) == Measure(c)
  {
  }

  lemma ReduceDecreases(c: Config, limit: nat)
    requires Inv(c) && c.status == Running && CompletesRule(Top(c.stack))
    ensures Measure(DoReduce(c, limit)) < Measure(c)
  {
    ReducedWeighsLess(c.stack);
    hide Weight, Unread, Reduced, StackOk;
  }

  lemma ShiftDecreases(c: Config, limit: nat)
    requires Inv(c) && c.status == Running && c.la.Some? && ActionOf(Top(c.stack), c.la.value.tok).Shift?
    ensures Measure(DoShift(c, ActionOf(Top(c.stack), c.la.value.tok).state, limit)) < Measure(c)
  {
    hide StackOk, IsLexeme;
  }

  lemma StoppingDecreases(c: Config, status: Status)
    requires c.status == Running && status != Running
    ensures Measure(c.(status := status)) < Measure(c)
  {
    hide Weight, Unread;
  }

  lemma ReadingKeeps(c: Config)
    requires Inv(c)
    ensures var d := ReadLookahead(c); Inv(d) && d.la.Some? && d.stack == c.stack && d.status == c.status
  {
    hide StackOk;
  }

  /** Every move decreases the measure, so every token string makes the parser halt. */
  lemma StepDecreases(c: Config, limit: nat)
    requires Inv(c) && c.status == Running
    ensures Measure(Step(c, limit)) < Measure(c)
  {
    hide Measure, DoReduce, DoShift, ReadLookahead, Inv;
    if ReducesBlindly(Top(c.stack)) {
      ReduceDecreases(c, limit);
    } else {
      ReadingKeeps(c);
      ReadingKeepsMeasure(c);
      var d := ReadLookahead(c);
      match ActionOf(Top(c.stack), d.la.value.tok)
      case Shift(_) => { ShiftDecreases(d, limit); }
      case Reduce(_) => { ReduceDecreases(d, limit); }
      case Accept => { StoppingDecreases(d, Accepted); }
      case Error => { StoppingDecreases(d, Aborted); }
    }
  }

  /** The whole parse: moves until the parser accepts, aborts or overflows. */
  function Run(c: Config, limit: nat): Config
    requires Inv(c)
    decreases Measure(c)
  {
    if c.status != Running then c
    else
      StepKeeps(c, limit);
      StepDecreases(c, limit);
      Run(Step(c, limit), limit)
  }
}
