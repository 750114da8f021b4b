/** yyparse of plural.c: the packed LALR tables and the parser loop over them. */
module PluralParser {
  import opened PluralExp
  import opened PluralGrammar
  import opened PluralAutomaton
  import opened PluralLexer
  import opened Wrappers

  const YYFINAL := 27
  const YYFLAG := -32768
  const YYNTBASE := 16
  const YYLAST := 53
  const YYTERROR := 1
  const YYEMPTY := -2
  const YYINITDEPTH := 200
  const YYMAXDEPTH := 10000

  // yypact, yydefact, yytable and yycheck.

  function YyPact(i: int): int
    requires 0 <= i <= 27
  {
    match i
    case 0 => -9 case 1 => -9 case 2 => -32768 case 3 => -32768 case 4 => -9 case 5 => 34 case 6 => -32768
    case 7 => 11 case 8 => -9 case 9 => -9 case 10 => -9 case 11 => -9 case 12 => -9 case 13 => -9
    case 14 => -9 case 15 => -32768 case 16 => 24 case 17 => 39 case 18 => 43 case 19 => 16 case 20 => 26
    case 21 => -3 case 22 => -32768 case 23 => -9 case 24 => 34 case 25 => 21 case 26 => 53 case _ => -32768
  }

  function YyDefact(i: int): int
    requires 0 <= i <= 27
  {
    match i
    case 0 => 0 case 1 => 0 case 2 => 11 case 3 => 10 case 4 => 0 case 5 => 1 case 6 => 9 case 7 => 0
    case 8 => 0 case 9 => 0 case 10 => 0 case 11 => 0 case 12 => 0 case 13 => 0 case 14 => 0 case 15 => 12
    case 16 => 0 case 17 => 3 case 18 => 4 case 19 => 5 case 20 => 6 case 21 => 7 case 22 => 8 case 23 => 0
    case 24 => 2 case 25 => 0 case 26 => 0 case _ => 0
  }

  function YyTable(i: int): int
    requires 0 <= i <= 53
  {
    match i
    case 0 => 6 case 1 => 1 case 2 => 2 case 3 => 7 case 4 => 3 case 5 => 4 case 6 => 14 case 7 => 16
    case 8 => 17 case 9 => 18 case 10 => 19 case 11 => 20 case 12 => 21 case 13 => 22 case 14 => 8
    case 15 => 9 case 16 => 10 case 17 => 11 case 18 => 12 case 19 => 13 case 20 => 14 case 21 => 26
    case 22 => 24 case 23 => 12 case 24 => 13 case 25 => 14 case 26 => 15 case 27 => 8 case 28 => 9
    case 29 => 10 case 30 => 11 case 31 => 12 case 32 => 13 case 33 => 14 case 34 => 13 case 35 => 14
    case 36 => 23 case 37 => 8 case 38 => 9 case 39 => 10 case 40 => 11 case 41 => 12 case 42 => 13
    case 43 => 14 case 44 => 10 case 45 => 11 case 46 => 12 case 47 => 13 case 48 => 14 case 49 => 11
    case 50 => 12 case 51 => 13 case 52 => 14 case _ => 27
  }

  function YyCheck(i: int): int
    requires 0 <= i <= 53
  {
    match i
    case 0 => 1 case 1 => 10 case 2 => 11 case 3 => 4 case 4 => 13 case 5 => 14 case 6 => 9 case 7 => 8
    case 8 => 9 case 9 => 10 case 10 => 11 case 11 => 12 case 12 => 13 case 13 => 14 case 14 => 3 case 15 => 4
    case 16 => 5 case 17 => 6 case 18 => 7 case 19 => 8 case 20 => 9 case 21 => 0 case 22 => 23 case 23 => 7
    case 24 => 8 case 25 => 9 case 26 => 15 case 27 => 3 case 28 => 4 case 29 => 5 case 30 => 6 case 31 => 7
    case 32 => 8 case 33 => 9 case 34 => 8 case 35 => 9 case 36 => 12 case 37 => 3 case 38 => 4 case 39 => 5
    case 40 => 6 case 41 => 7 case 42 => 8 case 43 => 9 case 44 => 5 case 45 => 6 case 46 => 7 case 47 => 8
    case 48 => 9 case 49 => 6 case 50 => 7 case 51 => 8 case 52 => 9 case _ => 0
  }

  /** yyr1: the symbol that a rule derives. */
  function YyR1(rule: int): int
    requires 1 <= rule <= 12
  {
    if rule == 1 then 16 else 17
  }

  /** yyr2: the number of symbols on a rule's right-hand side. */
  function YyR2(rule: int): nat
    requires 1 <= rule <= 12
  {
    match rule
    case 1 => 1 case 2 => 5 case 3 => 3 case 4 => 3 case 5 => 3 case 6 => 3 case 7 => 3 case 8 => 3
    case 9 => 2 case 10 => 1 case 11 => 1 case _ => 3
  }

  function YyPgoto(symbol: int): int
    requires 0 <= symbol <= 1
  {
    if symbol == 0 then -32768 else -1
  }

  function YyDefgoto(symbol: int): int
    requires 0 <= symbol <= 1
  {
    if symbol == 0 then 25 else 5
  }

  /** The default action of a state. */
  function DefaultAction(s: int): Action
    requires 0 <= s <= END_SHIFTED
  {
    if YyDefact(s) == 0 then Error else Reduce(YyDefact(s))
  }

  /** What the tables say about state s and lookahead t. */
  function TableAction(s: int, t: int): Action
    requires 0 <= s <= END_SHIFTED && 0 <= t <= CLOSE
  {
    var yyn := YyPact(s) + t;
    if yyn < 0 || yyn > YYLAST || YyCheck(yyn) != t then DefaultAction(s)
    else
      var a := YyTable(yyn);
      if a < 0 then (if a == YYFLAG then Error else Reduce(-a))
      else if a == 0 then Error
      else if a == YYFINAL then Accept
      else Shift(a)
  }

  /** The packed tables decode to the actions of the automaton. */
  lemma TablesDecode(s: int, t: int)
    requires 0 <= s <= END_SHIFTED && 0 <= t <= CLOSE
    ensures ReducesBlindly(s) <==> YyPact(s) == YYFLAG
    ensures ReducesBlindly(s) ==> YyDefact(s) == RuleOf(s)
    ensures !ReducesBlindly(s) ==> TableAction(s, t) == ActionOf(s, t)
  {
    if s < 14 { LowerStates(s, t); } else if s < 17 { MiddleStates(s, t); } else if s < 20 { BinaryStates(s, t); }
    else if s < 24 { UpperStates(s, t); } else if s == 24 { ConditionalState(t); } else { LastStates(s, t); }
  }

  lemma LowerStates(s: int, t: int)
    requires 0 <= s < 14 && 0 <= t <= CLOSE
    ensures !ReducesBlindly(s) ==> TableAction(s, t) == ActionOf(s, t)
  {
  }

  lemma MiddleStates(s: int, t: int)
    requires 14 <= s < 17 && 0 <= t <= CLOSE
    ensures !ReducesBlindly(s) ==> TableAction(s, t) == ActionOf(s, t)
  {
  }

  lemma BinaryStates(s: int, t: int)
    requires 17 <= s < 20 && 0 <= t <= CLOSE
    ensures !ReducesBlindly(s) ==> TableAction(s, t) == ActionOf(s, t)
  {
  }

  lemma UpperStates(s: int, t: int)
    requires 20 <= s < 24 && 0 <= t <= CLOSE
    ensures !ReducesBlindly(s) ==> TableAction(s, t) == ActionOf(s, t)
  {
  }

  lemma ConditionalState(t: int)
    requires 0 <= t <= CLOSE
    ensures TableAction(24, t) == ActionOf(24, t)
  {
    assert YyPact(24) == 34 && YyDefact(24) == 2;
    hide YyPact, YyDefact;
  }

  lemma LastStates(s: int, t: int)
    requires 25 <= s <= END_SHIFTED && 0 <= t <= CLOSE
    ensures !ReducesBlindly(s) ==> TableAction(s, t) == ActionOf(s, t)
  {
  }

  /** The goto tables decode to the goto states of the automaton. */
  lemma GotoDecodes(p: int)
    requires WantsOperand(p)
    ensures var i := YyPgoto(1) + p;
            GotoExp(p) == if 0 <= i <= YYLAST && YyCheck(i) == p then YyTable(i) else YyDefgoto(1)
  {
  }

  /** No state shifts the error token, so error recovery finds no state to resume in. */
  lemma NoStateShiftsError(s: int)
    requires 0 <= s <= END_SHIFTED
    ensures var yyn := YyPact(s) + YYTERROR; !(0 <= yyn <= YYLAST && YyCheck(yyn) == YYTERROR)
  {
  }

  /** The stack that the two arrays hold up to index top. */
  function StackOf(ss: seq<int>, vs: seq<Val>, top: nat): Stack
    requires top < |ss| && top < |vs|
  {
    if top == 0 then Bottom else Push(StackOf(ss, vs, top - 1), ss[top], vs[top])
  }

  lemma StackOfAgrees(ss: seq<int>, vs: seq<Val>, ss': seq<int>, vs': seq<Val>, top: nat)
    requires top < |ss| && top < |vs| && top < |ss'| && top < |vs'|
    requires forall i :: 1 <= i <= top ==> ss[i] == ss'[i] && vs[i] == vs'[i]
    ensures StackOf(ss, vs, top) == StackOf(ss', vs', top)
    ensures Height(StackOf(ss, vs, top)) == top + 1
  {
  }

  /** YYSTACK_RELOCATE: both stacks move to larger arrays with their contents. */
  method Relocate(yyss: array<int>, yyvs: array<Val>, yysize: nat, yystacksize: nat)
    returns (ss: array<int>, vs: array<Val>)
    requires 0 < yysize <= yyss.Length && yysize <= yyvs.Length && yysize < yystacksize
    ensures fresh(ss) && fresh(vs) && ss.Length == yystacksize && vs.Length == yystacksize
    ensures ss[..yysize] == yyss[..yysize] && vs[..yysize] == yyvs[..yysize] && ss[0] == yyss[0]
    ensures StackOf(ss[..], vs[..], yysize - 1) == StackOf(yyss[..], yyvs[..], yysize - 1)
  {
    ss, vs := new int[yystacksize], new Val[yystacksize](_ => NoVal);
    forall i | 0 <= i < yysize {
      ss[i] := yyss[i];
    }
    forall i | 0 <= i < yysize {
      vs[i] := yyvs[i];
    }
    StackOfAgrees(ss[..], vs[..], yyss[..], yyvs[..], yysize - 1);
  }

  /** The semantic actions: yyval for the rule, from the values on top of the stack. */
  method SemanticAction(yyn: int, yyvs: array<Val>, yyvsp: nat, ghost stack: Stack, ghost ss: seq<int>)
    returns (yyval: Val)
    requires yyvsp < yyvs.Length && yyvsp < |ss| && stack == StackOf(ss, yyvs[..], yyvsp)
    requires StackOk(stack) && CompletesRule(Top(stack)) && yyn == RuleOf(Top(stack))
    ensures yyval == ActionValue(stack)
  {
    ReduceShape(stack);
    ghost var vs := yyvs[..];
    assert yyvsp > 0;
    if yyn == 1 || yyn == 10 || yyn == 11 {
      if yyn == 1 { yyval := yyvs[yyvsp]; }
      else if yyn == 10 { yyval := ExpVal(Var); }
      else { yyval := ExpVal(Num(yyvs[yyvsp].num)); }
    } else {
      assert stack.below == StackOf(ss, vs, yyvsp - 1) && yyvsp > 1;
      if yyn == 9 {
        yyval := ExpVal(Lnot(yyvs[yyvsp].exp));
      } else if yyn == 12 {
        yyval := yyvs[yyvsp - 1];
      } else {
        assert stack.below.below == StackOf(ss, vs, yyvsp - 2) && yyvsp > 2;
        if yyn == 2 {
          assert stack.below.below.below == StackOf(ss, vs, yyvsp - 3) && yyvsp > 3;
          assert stack.below.below.below.below == StackOf(ss, vs, yyvsp - 4) && yyvsp > 4;
          yyval := ExpVal(Qmop(yyvs[yyvsp - 4].exp, yyvs[yyvsp - 2].exp, yyvs[yyvsp].exp));
        } else if yyn == 3 {
          yyval := ExpVal(Bin(Lor, yyvs[yyvsp - 2].exp, yyvs[yyvsp].exp));
        } else if yyn == 4 {
          yyval := ExpVal(Bin(Land, yyvs[yyvsp - 2].exp, yyvs[yyvsp].exp));
        } else {
          yyval := ExpVal(Bin(yyvs[yyvsp - 1].op, yyvs[yyvsp - 2].exp, yyvs[yyvsp].exp));
        }
      }
    }
  }

  /** Popping a right-hand side lowers both stack pointers by its length. */
  lemma PopRule(ss: seq<int>, vs: seq<Val>, top: nat)
    requires top < |ss| && top < |vs|
    requires var s := StackOf(ss, vs, top); StackOk(s) && CompletesRule(Top(s))
    ensures var s := StackOf(ss, vs, top); var len := YyR2(RuleOf(Top(s)));
            len <= top && StackOf(ss, vs, top - len) == BelowHandle(s, RuleOf(Top(s)))
  {
    var s := StackOf(ss, vs, top);
    ReduceShape(s);
    var len := YyR2(RuleOf(s.state));
    assert s.below == StackOf(ss, vs, top - 1);
    if len >= 2 {
      assert s.below.below == StackOf(ss, vs, top - 2);
      if len >= 3 {
        var t := s.below.below;
        assert t.below == StackOf(ss, vs, top - 3);
        if len == 5 {
          assert t.below.below == StackOf(ss, vs, top - 4);
          assert t.below.below.below == StackOf(ss, vs, top - 5);
        }
      }
    }
  }

  /** yyerrlab and yyerrhandle: pops state after state in search of one that shifts the
      error token; there is none, so the parse is abandoned. */
  method ErrorRecovery(yyss: array<int>, top: nat, ghost vs: seq<Val>) returns (yyresult: int)
    requires top < yyss.Length && top < |vs| && yyss[0] == 0
    requires StackOk(StackOf(yyss[..], vs, top))
    ensures yyresult == 1
  {
    var yyssp := top;
    while true
      invariant 0 <= yyssp <= top && StackOk(StackOf(yyss[..], vs, yyssp))
      decreases yyssp
    {
      var yystate := yyss[yyssp];
      assert yystate == Top(StackOf(yyss[..], vs, yyssp));
      var yyn := YyPact(yystate);
      if yyn != YYFLAG {
        yyn := yyn + YYTERROR;
        if 0 <= yyn <= YYLAST && YyCheck(yyn) == YYTERROR {
          NoStateShiftsError(yystate);
          assert false;
        }
      }
      if yyssp == 0 {
        return 1;
      }
      yyssp := yyssp - 1;
    }
  }

  /** The run of the parser on a text. */
  function ParseText(text: string): Config {
    Run(Init(LexAll(text)), YYMAXDEPTH)
  }

  /** yyparse's return value for the way a run ends. */
  function ResultCode(s: Status): int {
    match s
    case Accepted => 0
    case Overflowed => 2
    case _ => 1
  }

  /** How yychar represents the lookahead. */
  predicate Lookahead(yychar: int, la: Option<Token>) {
    if yychar == YYEMPTY then la.None?
    else 0 <= yychar <= 261 && la.Some? && la.value.tok == YyTranslate(yychar) && (yychar == YYEOF <==> la.value.tok == END)
  }

  /** The parser's variables hold configuration c. */
  ghost predicate Holds(c: Config, yyss: seq<int>, yyvs: seq<Val>, yyssp: nat, yychar: int, yylval: Val, text: string,
                        cp: nat)
    requires yyssp < |yyss| && yyssp < |yyvs| && cp <= |text|
  {
    && c.stack == StackOf(yyss, yyvs, yyssp)
    && Lookahead(yychar, c.la) && yylval == c.lval
    && (yychar != YYEOF ==> c.rest == LexAll(text[cp..]))
  }

  /** Reading a token where none has been read is the automaton's ReadLookahead. */
  method ReadToken(text: string, cp: nat, lval: Val, ghost c: Config) returns (yychar: int, yylval: Val, next: nat)
    requires cp <= |text| && c.la.None? && c.lval == lval && c.rest == LexAll(text[cp..])
    ensures next <= |text| && Lookahead(yychar, ReadLookahead(c).la) && yylval == ReadLookahead(c).lval
    ensures yychar != YYEMPTY && (yychar != YYEOF ==> ReadLookahead(c).rest == LexAll(text[next..]))
  {
    var val;
    yychar, val, next := YyLex(text, cp);
    yylval := if val == NoVal then lval else val;
  }

  /** The parser's decision in state yystate: the lookahead is read only if the tables ask for it. */
  method Decide(yystate: int, text: string, cp0: nat, yychar0: int, yylval0: Val, ghost c: Config)
    returns (a: Action, yychar: int, yylval: Val, cp: nat, ghost d: Config)
    requires Inv(c) && yystate == Top(c.stack) && cp0 <= |text|
    requires Lookahead(yychar0, c.la) && yylval0 == c.lval && (yychar0 != YYEOF ==> c.rest == LexAll(text[cp0..]))
    ensures d == (if ReducesBlindly(yystate) then c else ReadLookahead(c)) && cp <= |text|
    ensures Lookahead(yychar, d.la) && yylval == d.lval && (yychar != YYEOF ==> d.rest == LexAll(text[cp..]))
    ensures if ReducesBlindly(yystate) then a == Reduce(RuleOf(yystate))
            else yychar != YYEMPTY && a == ActionOf(yystate, YyTranslate(yychar))
  {
    TopIsState(c.stack);
    yychar, yylval, cp, d := yychar0, yylval0, cp0, c;
    var yyn := YyPact(yystate);
    if yyn == YYFLAG {
      TablesDecode(yystate, END);
      a := DefaultAction(yystate);
      return;
    }
    if yychar == YYEMPTY {
      yychar, yylval, cp := ReadToken(text, cp, yylval, c);
    }
    TablesDecode(yystate, YyTranslate(yychar));
    d := ReadLookahead(c);
    a := TableAction(yystate, YyTranslate(yychar));
  }

  /** Pushes the shifted token's state and value. */
  method ShiftEntry(yyss: array<int>, yyvs: array<Val>, top: nat, s: int, yylval: Val, char0: int,
                    ghost d: Config, ghost text: string, ghost cp: nat)
    returns (yyssp: nat, yychar: int)
    requires top + 1 < yyss.Length == yyvs.Length && cp <= |text| && d.la.Some?
    requires Holds(d, yyss[..], yyvs[..], top, char0, yylval, text, cp)
    modifies yyss, yyvs
    ensures yyssp == top + 1 && yyss[0] == old(yyss[0])
    ensures Holds(DoShift(d, s, YYMAXDEPTH), yyss[..], yyvs[..], yyssp, yychar, yylval, text, cp)
  {
    yychar := if char0 != YYEOF then YYEMPTY else char0;
    yyssp := top + 1;
    yyvs[yyssp] := yylval;
    yyss[yyssp] := s;
    StackOfAgrees(old(yyss[..]), old(yyvs[..]), yyss[..], yyvs[..], top);
  }

  /** The goto tables: the state behind a symbol that a rule derives. */
  method GotoState(rule: int, below: int) returns (yystate: int)
    requires 1 <= rule <= 12 && (rule == 1 || WantsOperand(below)) && 0 <= below <= END_SHIFTED
    ensures yystate == if rule == 1 then START_REDUCED else GotoExp(below)
  {
    var symbol := YyR1(rule) - YYNTBASE;
    if symbol == 1 { GotoDecodes(below); }
    yystate := YyPgoto(symbol) + below;
    yystate := if 0 <= yystate <= YYLAST && YyCheck(yystate) == below then YyTable(yystate) else YyDefgoto(symbol);
  }

  /** Replaces a right-hand side by the goto state and the value of the rule's action. */
  method ReduceEntries(yyss: array<int>, yyvs: array<Val>, top: nat, rule: int, res0: Option<Exp>, ghost d: Config)
    returns (yyssp: nat, yystate: int, res: Option<Exp>)
    requires top < yyss.Length == yyvs.Length && yyss[0] == 0 && d.stack == StackOf(yyss[..], yyvs[..], top)
    requires res0 == d.res
    requires StackOk(d.stack) && CompletesRule(Top(d.stack)) && rule == RuleOf(Top(d.stack))
    modifies yyss, yyvs
    ensures yyssp < yyss.Length && yyss[0] == old(yyss[0])
    ensures var e := DoReduce(d, YYMAXDEPTH);
            e.stack == StackOf(yyss[..], yyvs[..], yyssp) && yystate == Top(e.stack) && res == e.res
  {
    ghost var ss, vs := yyss[..], yyvs[..];
    var yyval := SemanticAction(rule, yyvs, top, d.stack, ss);
    PopRule(ss, vs, top);
    ReduceFacts(d.stack);
    hide StackOk, CompletesRule, ActionValue, BelowHandle, GotoExp, WantsOperand, RuleOf;
    res := if rule == 1 then Some(yyval.exp) else res0;
    yyssp := top - YyR2(rule);
    var below := yyss[yyssp];
    assert below == Top(StackOf(ss, vs, yyssp));
    yystate := GotoState(rule, below);
    yyssp := yyssp + 1;
    yyvs[yyssp] := yyval;
    yyss[yyssp] := yystate;
    StackOfAgrees(ss, vs, yyss[..], yyvs[..], yyssp - 1);
  }

  /** What a reduction relies on. */
  lemma ReduceFacts(s: Stack)
    requires StackOk(s) && CompletesRule(Top(s))
    ensures var rule := RuleOf(Top(s));
            && s.Push? && 1 <= rule <= 12 && YyR2(rule) >= 1
            && (rule == 1 ==> s.val.ExpVal? && ActionValue(s) == s.val && Reduced(s).state == START_REDUCED)
            && (rule != 1 ==> Reduced(s).state != START_REDUCED)
            && WantsOperand(Top(BelowHandle(s, rule))) && 0 <= Top(BelowHandle(s, rule)) <= END_SHIFTED
  {
    ReduceShape(s);
    hide StackOk;
  }

  /** What one trip through the parser's labels leads to. */
  datatype Verdict = Continue | Accepting | Aborting

  /** A move of the automaton by the action that the parser has decided on. */
  lemma StepBy(c: Config, d: Config, a: Action)
    requires Inv(c)
    requires d == (if ReducesBlindly(Top(c.stack)) then c else ReadLookahead(c))
    requires if ReducesBlindly(Top(c.stack)) then a == Reduce(RuleOf(Top(c.stack)))
             else d.la.Some? && a == ActionOf(Top(c.stack), d.la.value.tok)
    ensures Inv(d) && d.stack == c.stack && d.res == c.res
    ensures match a
            case Shift(s) => d.la.Some? && Step(c, YYMAXDEPTH) == DoShift(d, s, YYMAXDEPTH)
            case Reduce(rule) =>
              && CompletesRule(Top(d.stack)) && rule == RuleOf(Top(d.stack))
              && Step(c, YYMAXDEPTH) == DoReduce(d, YYMAXDEPTH)
            case Accept => Step(c, YYMAXDEPTH) == d.(status := Accepted)
            case Error => Step(c, YYMAXDEPTH) == d.(status := Aborted)
  {
    ReadingKeeps(c);
    hide ReadLookahead, DoShift, DoReduce, Inv;
  }

  /** What a shift leaves. */
  lemma ShiftFields(d: Config, s: int)
    requires d.la.Some?
    ensures var e := DoShift(d, s, YYMAXDEPTH);
            e.res == d.res && e.status == StatusFor(e.stack, YYMAXDEPTH) && Top(e.stack) == s
  {
  }

  /** What a reduction leaves as it is. */
  lemma ReduceFields(d: Config)
    requires StackOk(d.stack) && CompletesRule(Top(d.stack))
    ensures var e := DoReduce(d, YYMAXDEPTH);
            e.la == d.la && e.lval == d.lval && e.rest == d.rest && e.status == StatusFor(e.stack, YYMAXDEPTH)
  {
    hide StackOk, CompletesRule, Reduced;
  }

  /** From yybackup to the next push of a state, or to the end of the parse. */
  method Move(yyss: array<int>, yyvs: array<Val>, top: nat, state0: int, text: string,
              cp0: nat, yychar0: int, yylval0: Val, res0: Option<Exp>, ghost c: Config)
    returns (verdict: Verdict, yyssp: nat, yystate: int, cp: nat, yychar: int, yylval: Val, res: Option<Exp>)
    requires top + 1 < yyss.Length == yyvs.Length && yyss[0] == 0 && cp0 <= |text|
    requires Inv(c) && state0 == Top(c.stack) && res0 == c.res
    requires Holds(c, yyss[..], yyvs[..], top, yychar0, yylval0, text, cp0)
    modifies yyss, yyvs
    ensures yyssp < yyss.Length && yyss[0] == 0 && cp <= |text|
    ensures var e := Step(c, YYMAXDEPTH);
            && res == e.res
            && (verdict == Accepting ==> e.status == Accepted)
            && (verdict == Aborting ==> e.status == Aborted)
            && (verdict == Continue ==>
                  && e.status == StatusFor(e.stack, YYMAXDEPTH) && yystate == Top(e.stack)
                  && Holds(e, yyss[..], yyvs[..], yyssp, yychar, yylval, text, cp))
  {
    hide Step, ReadLookahead, DoShift, DoReduce, ActionOf, StackOf, LexAll, Lookahead, StackOk, CompletesRule, Top,
         StatusFor, ReducesBlindly, RuleOf, YyTranslate;
    res, yyssp, yystate := res0, top, state0;
    var yyn;
    ghost var d;
    yyn, yychar, yylval, cp, d := Decide(state0, text, cp0, yychar0, yylval0, c);
    LookaheadIs(yychar, d.la);
    StepBy(c, d, yyn);
    match yyn
    case Accept => verdict := Accepting;
    case Error =>
      var yyresult := ErrorRecovery(yyss, top, yyvs[..]);
      verdict := Aborting;
    case Shift(s) =>
      ShiftFields(d, s);
      yystate, verdict := s, Continue;
      yyssp, yychar := ShiftEntry(yyss, yyvs, top, s, yylval, yychar, d, text, cp);
    case Reduce(rule) =>
      ReduceFields(d);
      verdict := Continue;
      yyssp, yystate, res := ReduceEntries(yyss, yyvs, top, rule, res0, d);
  }

  lemma LookaheadIs(yychar: int, la: Option<Token>)
    requires Lookahead(yychar, la)
    ensures yychar != YYEMPTY ==> 0 <= yychar <= 261 && la.Some? && la.value.tok == YyTranslate(yychar)
  {
  }

  lemma RunStep(c: Config)
    requires Inv(c)
    ensures StackOk(c.stack)
    ensures c.status == Running ==>
              && Inv(Step(c, YYMAXDEPTH)) && Measure(Step(c, YYMAXDEPTH)) < Measure(c)
              && Run(c, YYMAXDEPTH) == Run(Step(c, YYMAXDEPTH), YYMAXDEPTH)
    ensures c.status != Running ==> Run(c, YYMAXDEPTH) == c
  {
    if c.status == Running {
      StepKeeps(c, YYMAXDEPTH);
      StepDecreases(c, YYMAXDEPTH);
    }
    hide Inv, Step, Measure;
  }

  /** yyparse, reading tokens from text; res is what it stores through its argument. */
  method YyParse(text: string) returns (yyresult: int, res: Option<Exp>)
    ensures yyresult == ResultCode(ParseText(text).status) && res == ParseText(text).res
  {
    hide Step, StackOf, StackOk, LexAll, Lookahead, Measure, Run, Inv;
    var yyss, yyvs := new int[YYINITDEPTH], new Val[YYINITDEPTH](_ => NoVal);
    var yystacksize, yyssp, yystate := YYINITDEPTH, 0, 0;
    var yychar, yylval: Val, cp := YYEMPTY, NoVal, 0;
    var verdict;
    res := None;
    yyss[0] := 0;
    ghost var c := Init(LexAll(text));
    Start(text, yyss[..], yyvs[..]);
    while true
      invariant fresh(yyss) && fresh(yyvs) && yyss.Length == yyvs.Length == yystacksize <= YYMAXDEPTH
      invariant 0 <= yyssp < yystacksize && 0 <= cp <= |text| && 1 < yystacksize
      invariant yyss[0] == 0 && yystate == Top(c.stack) && yyssp + 1 == Height(c.stack)
      invariant Inv(c) && Holds(c, yyss[..], yyvs[..], yyssp, yychar, yylval, text, cp)
      invariant c.status == StatusFor(c.stack, YYMAXDEPTH) && c.res == res
      invariant Run(c, YYMAXDEPTH) == ParseText(text)
      decreases Measure(c)
    {
      RunStep(c);
      if yyssp >= yystacksize - 1 {
        if yystacksize >= YYMAXDEPTH {
          return 2, res;
        }
        yystacksize := if yystacksize * 2 > YYMAXDEPTH then YYMAXDEPTH else yystacksize * 2;
        yyss, yyvs := Relocate(yyss, yyvs, yyssp + 1, yystacksize);
        assert c.stack == StackOf(yyss[..], yyvs[..], yyssp);
      }
      verdict, yyssp, yystate, cp, yychar, yylval, res :=
        Move(yyss, yyvs, yyssp, yystate, text, cp, yychar, yylval, res, c);
      c := Step(c, YYMAXDEPTH);
      RunStep(c);
      if verdict != Continue {
        return if verdict == Accepting then 0 else 1, res;
      }
      StackOfAgrees(yyss[..], yyvs[..], yyss[..], yyvs[..], yyssp);
    }
  }

  lemma Start(text: string, yyss: seq<int>, yyvs: seq<Val>)
    requires |yyss| > 0 && |yyvs| > 0
    ensures var c := Init(LexAll(text));
            Inv(c) && Holds(c, yyss, yyvs, 0, YYEMPTY, NoVal, text, 0) && Run(c, YYMAXDEPTH) == ParseText(text)
  {
    assert text[0..] == text;
    hide LexAll, Run;
  }
}
