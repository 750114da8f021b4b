/** Whatever the parser accepts is a sentence of the precedence grammar, and the result is
    the tree of its derivation. */
module PluralSoundness {
  import opened PluralExp
  import opened PluralGrammar
  import opened PluralAutomaton
  import opened PluralCompleteness
  import opened Wrappers

  /** The derivation that lies on the stack: subtrees, and tokens between them. */
  datatype Forest = Nothing | Tree(below: Forest, tree: Cst) | Leaf(below: Forest, leaf: Lexeme)

  /** The token that state s was entered on. */
  function TokenOf(s: int): int {
    if s == 1 then NOT
    else if s == 2 then NUMBER
    else if s == 3 then VARIABLE
    else if s == 4 then OPEN
    else if s == 15 then CLOSE
    else if s == 23 then COLON
    else s - 5
  }

  /** t may be the left operand of operator tok. */
  predicate LeftOk(t: Cst, tok: int) {
    Strength(t) >= tok && Strength(t) > QUESTION
  }

  /** f derives what the stack stands for, precedence included. */
  predicate Matches(s: Stack, f: Forest)
  {
    if s.Bottom? then f.Nothing?
    else if IsExpState(s.state) then
      && f.Tree? && Matches(s.below, f.below)
      && s.val == ExpVal(Ast(f.tree)) && WellPrec(f.tree) && Strength(f.tree) >= MinStrength(s.state)
    else
      && s.state < START_REDUCED && f.Leaf? && Matches(s.below, f.below)
      && f.leaf.tok == TokenOf(s.state) && (f.leaf.val != NoVal ==> s.val == f.leaf.val)
      && (8 <= s.state <= 14 ==> f.below.Tree? && LeftOk(f.below.tree, f.leaf.tok))
  }

  /** The tokens of a forest, followed by others. */
  function YieldThen(f: Forest, rest: Input): Input {
    match f
    case Nothing => rest
    case Tree(b, t) => YieldThen(b, TokensThen(t, rest))
    case Leaf(b, l) => YieldThen(b, More(l, rest))
  }

  /** The lookahead does not bind tighter than the expression before it; where no lookahead
      has been read, no operator could. */
  predicate LookaheadOk(c: Config, f: Forest) {
    f.Tree? ==>
      if c.la.None? then Strength(f.tree) >= MULOP2
      else IsOperator(c.la.value.tok) ==> LeftOk(f.tree, c.la.value.tok)
  }

  predicate Derives(c: Config, f: Forest, input: Input) {
    Matches(c.stack, f) && LookaheadOk(c, f) && YieldThen(f, Remaining(c)) == input
  }

  /** The derivation after the reduction that the top state calls for. */
  lemma {:induction false} Assemble(s: Stack, f: Forest, rest: Input) returns (g: Forest)
    requires StackOk(s) && CompletesRule(Top(s)) && Top(s) != 5 && Matches(s, f)
    ensures Matches(Reduced(s), g) && g.Tree? && YieldThen(g, rest) == YieldThen(f, rest)
    ensures !(17 <= Top(s) <= 21 || Top(s) == 24) ==> Strength(g.tree) >= MULOP2
    ensures 17 <= Top(s) <= 21 ==> Strength(g.tree) == Top(s) - 13
  {
    hide StackOk, Matches, YieldThen, Reduced, Strength;
    if Top(s) == 2 || Top(s) == 3 {
      g := AssembleLeaf(s, f, rest);
    } else if Top(s) == 6 {
      g := AssembleNot(s, f, rest);
    } else if Top(s) == 15 {
      g := AssembleParen(s, f, rest);
    } else if Top(s) == 24 {
      g := AssembleCond(s, f, rest);
    } else {
      g := AssembleBin(s, f, rest);
    }
  }

  lemma {:induction false} AssembleLeaf(s: Stack, f: Forest, rest: Input) returns (g: Forest)
    requires StackOk(s) && (Top(s) == 2 || Top(s) == 3) && Matches(s, f)
    ensures Matches(Reduced(s), g) && g.Tree? && YieldThen(g, rest) == YieldThen(f, rest)
    ensures Strength(g.tree) >= MULOP2
  {
    ReduceShape(s);
    assert Matches(s.below, f.below);
    g := Tree(f.below, if Top(s) == 2 then CNum(s.val.num) else CVar);
  }

  lemma {:induction false} AssembleNot(s: Stack, f: Forest, rest: Input) returns (g: Forest)
    requires StackOk(s) && Top(s) == 6 && Matches(s, f)
    ensures Matches(Reduced(s), g) && g.Tree? && YieldThen(g, rest) == YieldThen(f, rest)
    ensures Strength(g.tree) >= MULOP2
  {
    ReduceShape(s);
    assert Matches(s.below, f.below);
    g := Tree(f.below.below, CNot(f.tree));
  }

  lemma {:induction false} AssembleParen(s: Stack, f: Forest, rest: Input) returns (g: Forest)
    requires StackOk(s) && Top(s) == 15 && Matches(s, f)
    ensures Matches(Reduced(s), g) && g.Tree? && YieldThen(g, rest) == YieldThen(f, rest)
    ensures Strength(g.tree) >= MULOP2
  {
    ReduceShape(s);
    var s1, f1 := s.below, f.below;
    assert Matches(s1, f1);
    var s2, f2 := s1.below, f1.below;
    assert Matches(s2, f2);
    g := Tree(f2.below, CParen(f1.tree));
    calc {
      YieldThen(f, rest);
      YieldThen(f1, More(Token(CLOSE, NoVal), rest));
      YieldThen(f2, TokensThen(f1.tree, More(Token(CLOSE, NoVal), rest)));
      YieldThen(g, rest);
    }
  }

  lemma {:induction false} AssembleBin(s: Stack, f: Forest, rest: Input) returns (g: Forest)
    requires StackOk(s) && 17 <= Top(s) <= 22 && Matches(s, f)
    ensures Matches(Reduced(s), g) && g.Tree? && YieldThen(g, rest) == YieldThen(f, rest)
    ensures Strength(g.tree) == Top(s) - 13
  {
    BinOnStack(s, f);
    var s2, f2 := s.below.below, f.below.below;
    var o := OperatorOn(s, f.below.leaf);
    g := Tree(f2.below, CBin(o, f2.tree, f.tree));
    YieldBin(f, o, rest);
    hide StackOk, YieldThen, ActionValue, ShiftsOperator, CompletesRule;
  }

  /** A two-place expression on the stack: operand, operator, operand. */
  lemma BinOnStack(s: Stack, f: Forest)
    requires StackOk(s) && 17 <= Top(s) <= 22 && Matches(s, f)
    ensures s.Push? && s.below.Push? && s.below.below.Push? && f.Tree? && f.below.Leaf? && f.below.below.Tree?
    ensures f.below.leaf.tok == Top(s) - 13 && (f.below.leaf.val != NoVal ==> s.below.val == f.below.leaf.val)
    ensures WellPrec(f.tree) && Strength(f.tree) > Top(s) - 13 && s.val == ExpVal(Ast(f.tree))
    ensures var s2, f2 := s.below.below, f.below.below;
            && WellPrec(f2.tree) && Strength(f2.tree) >= Top(s) - 13 && s2.val == ExpVal(Ast(f2.tree))
            && Matches(s2.below, f2.below) && s2.state == GotoExp(Top(s2.below)) && WantsOperand(Top(s2.below))
            && IsExpState(s2.state) && MinStrength(s2.state) <= Top(s) - 13
    ensures BelowHandle(s, RuleOf(Top(s))) == s.below.below.below && RuleOf(Top(s)) != 1
  {
    ReduceShape(s);
    assert StackOk(s.below) && StackOk(s.below.below);
    assert Matches(s.below, f.below) && Matches(s.below.below, f.below.below);
    hide WellPrec, Strength, Ast;
  }

  lemma YieldBin(f: Forest, o: Operator, rest: Input)
    requires f.Tree? && f.below.Leaf? && f.below.below.Tree? && f.below.leaf == OpLexeme(o)
    ensures var f2 := f.below.below;
            YieldThen(Tree(f2.below, CBin(o, f2.tree, f.tree)), rest) == YieldThen(f, rest)
  {
    var f1 := f.below;
    assert YieldThen(f, rest) == YieldThen(f1, TokensThen(f.tree, rest));
    assert YieldThen(f1, TokensThen(f.tree, rest)) == YieldThen(f1.below, More(f1.leaf, TokensThen(f.tree, rest)));
  }

  /** The operator under the right operand on the stack. */
  lemma {:induction false} OperatorOn(s: Stack, l: Lexeme) returns (o: Operator)
    requires StackOk(s) && 17 <= Top(s) <= 22 && s.below.Push? && l.tok == Top(s) - 13
    requires l.val != NoVal ==> s.below.val == l.val
    ensures OpLexeme(o) == l && o.tok == l.tok
    ensures s.below.below.Push? && s.below.below.val.ExpVal? && s.val.ExpVal?
    ensures ActionValue(s) == ExpVal(Bin(o.op, s.below.below.val.exp, s.val.exp))
  {
    ReduceShape(s);
    o := TokenOp(l.tok, if l.tok == OR then Lor else if l.tok == AND then Land else l.val.op);
  }

  lemma {:induction false} AssembleCond(s: Stack, f: Forest, rest: Input) returns (g: Forest)
    requires StackOk(s) && Top(s) == 24 && Matches(s, f)
    ensures Matches(Reduced(s), g) && g.Tree? && YieldThen(g, rest) == YieldThen(f, rest)
  {
    ReduceShape(s);
    var s1, f1 := s.below, f.below;
    assert Matches(s1, f1);
    var s2, f2 := s1.below, f1.below;
    assert Matches(s2, f2);
    var s3, f3 := s2.below, f2.below;
    assert Matches(s3, f3);
    var s4, f4 := s3.below, f3.below;
    assert Matches(s4, f4);
    g := Tree(f4.below, CCond(f4.tree, f2.tree, f.tree));
    assert Matches(Reduced(s), g) by {
      assert StackOk(s1) && StackOk(s2) && StackOk(s3) && StackOk(s4);
    }
    var colon, question := Token(COLON, NoVal), Token(QUESTION, NoVal);
    calc {
      YieldThen(f, rest);
      YieldThen(f1, TokensThen(f.tree, rest));
      YieldThen(f2, More(colon, TokensThen(f.tree, rest)));
      YieldThen(f3, TokensThen(f2.tree, More(colon, TokensThen(f.tree, rest))));
      YieldThen(f4, More(question, TokensThen(f2.tree, More(colon, TokensThen(f.tree, rest)))));
      YieldThen(g, rest);
    }
  }

  /** A shifted token goes on top of the derivation. */
  lemma ShiftMatches(s: Stack, f: Forest, q: int, v: Val, l: Lexeme)
    requires Matches(s, f) && ActionOf(Top(s), l.tok) == Shift(q) && (l.val != NoVal ==> v == l.val)
    requires 8 <= q <= 14 ==> f.Tree? && LeftOk(f.tree, l.tok)
    ensures Matches(Push(s, q, v), Leaf(f, l))
  {
    ShiftLinks(Top(s), l.tok);
    hide LeftOk, StackOk;
  }

  /** Only an expression is continued by an operator. */
  lemma OperatorShift(s: Stack, f: Forest, tok: int)
    requires StackOk(s) && Matches(s, f) && ActionOf(Top(s), tok).Shift? && 8 <= ActionOf(Top(s), tok).state <= 14
    ensures f.Tree? && IsOperator(tok) && !ReducesBlindly(Top(s))
  {
  }

  lemma ReadToken(c: Config)
    requires Inv(c)
    ensures var d := ReadLookahead(c);
            && d.stack == c.stack && d.la.Some? && d.la.value.tok == First(Remaining(c)) && Remaining(d) == Remaining(c)
            && (c.la.Some? ==> d == c)
            && (Remaining(c).More? ==> d.la == Some(Remaining(c).head) && d.rest == Remaining(c).tail
                                       && (d.la.value.val != NoVal ==> d.lval == d.la.value.val))
  {
    hide StackOk;
  }

  /** A shift keeps the derivation. */
  lemma {:induction false} ShiftDerives(c: Config, f: Forest, input: Input, limit: nat) returns (g: Forest)
    requires Inv(c) && c.status == Running && Derives(c, f, input) && !ReducesBlindly(Top(c.stack))
    requires Remaining(c).More? && ActionOf(Top(c.stack), Remaining(c).head.tok).Shift?
    ensures Derives(Step(c, limit), g, input)
  {
    var l := Remaining(c).head;
    var a := ActionOf(Top(c.stack), l.tok);
    g := Leaf(f, l);
    ReadToken(c);
    var d := ReadLookahead(c);
    assert Step(c, limit) == DoShift(d, a.state, limit);
    hide Step, ReadLookahead, Matches, YieldThen, ActionOf, ReducesBlindly, IsLexeme;
    if 8 <= a.state <= 14 {
      OperatorShift(c.stack, f, l.tok);
      ShiftLookahead(c, f, l.tok);
    }
    ShiftMatches(c.stack, f, a.state, d.lval, l);
    YieldShift(f, l, Remaining(c).tail);
  }

  lemma YieldShift(f: Forest, l: Lexeme, rest: Input)
    ensures YieldThen(Leaf(f, l), rest) == YieldThen(f, More(l, rest))
  {
  }

  /** The operator that is shifted does not bind tighter than the expression before it. */
  lemma ShiftLookahead(c: Config, f: Forest, tok: int)
    requires Inv(c) && LookaheadOk(c, f) && f.Tree? && IsOperator(tok) && First(Remaining(c)) == tok
    ensures LeftOk(f.tree, tok)
  {
    hide Strength, StackOk;
  }

  /** After a reduction the lookahead does not bind tighter than the new expression. */
  lemma AfterReduction(top: int, t: Cst, la: Option<Token>)
    requires CompletesRule(top) && top != 5
    requires !(17 <= top <= 21 || top == 24) ==> Strength(t) >= MULOP2
    requires 17 <= top <= 21 ==> Strength(t) == top - 13
    requires ReducesBlindly(top) || (la.Some? && !ShiftsOperator(top, la.value.tok))
    ensures if la.None? then Strength(t) >= MULOP2 else IsOperator(la.value.tok) ==> LeftOk(t, la.value.tok)
  {
    hide Strength;
  }

  lemma ReduceParts(c: Config, limit: nat)
    requires StackOk(c.stack) && CompletesRule(Top(c.stack))
    ensures var d := DoReduce(c, limit);
            d.stack == Reduced(c.stack) && d.la == c.la && d.rest == c.rest && Remaining(d) == Remaining(c)
  {
    hide StackOk, CompletesRule, Reduced;
  }

  /** A reduction other than the last keeps the derivation. */
  lemma {:induction false} ReduceDerives(c: Config, f: Forest, input: Input, limit: nat) returns (g: Forest)
    requires Inv(c) && c.status == Running && Derives(c, f, input)
    requires CompletesRule(Top(c.stack)) && Top(c.stack) != 5
    requires ReducesBlindly(Top(c.stack)) || !ShiftsOperator(Top(c.stack), First(Remaining(c)))
    ensures Derives(Step(c, limit), g, input)
  {
    g := Assemble(c.stack, f, Remaining(c));
    ReadToken(c);
    var d := if ReducesBlindly(Top(c.stack)) then c else ReadLookahead(c);
    assert Step(c, limit) == DoReduce(d, limit);
    hide Step, ReadLookahead, Matches, YieldThen, DoReduce, Reduced, CompletesRule, ReducesBlindly, ShiftsOperator,
         Strength, LeftOk;
    ReduceParts(d, limit);
    AfterReduction(Top(c.stack), g.tree, d.la);
  }

  /** Rule 1 is applied to a complete derivation. */
  lemma {:induction false} StartDerives(c: Config, f: Forest, input: Input, limit: nat)
    requires Inv(c) && c.status == Running && Derives(c, f, input) && limit > 3
    requires Top(c.stack) == 5 && !ShiftsOperator(5, First(Remaining(c)))
    ensures f.Tree? && WellPrec(f.tree)
    ensures Run(c, limit).status == Accepted ==> Tokens(f.tree) == input && Run(c, limit).res == Some(Ast(f.tree))
  {
    ReduceShape(c.stack);
    var d := ReduceMove(c, c.stack, Remaining(c), limit);
    assert Height(Bottom) == 1 && Height(Reduced(c.stack)) == 2;
    assert Matches(c.stack.below, f.below) && f.below == Nothing;
    AfterStart(d, c.stack.val, limit);
    assert Run(c, limit).status == Accepted ==> YieldThen(f, Eof) == input && YieldThen(Nothing, Tokens(f.tree)) == input;
  }

  lemma {:induction false} OnlyEndAccepts(c: Config, limit: nat)
    requires Inv(c) && c.status == Running && Top(c.stack) != END_SHIFTED
    ensures Step(c, limit).status != Accepted
    ensures Step(c, limit).status == Running && !ReducesBlindly(Top(c.stack))
            && !(Remaining(c).More? && ActionOf(Top(c.stack), Remaining(c).head.tok).Shift?)
            && Top(c.stack) != START_REDUCED
            ==> CompletesRule(Top(c.stack)) && !ShiftsOperator(Top(c.stack), First(Remaining(c)))
  {
    assert c.la.None? ==> ReadLookahead(c).la.value.tok == First(Remaining(c));
  }

  /** Soundness: an accepting run has derived everything that it read. */
  lemma {:induction false} SoundFrom(c: Config, f: Forest, input: Input, limit: nat)
    requires Inv(c) && c.status == Running && Derives(c, f, input) && limit > 3
    ensures Run(c, limit).status == Accepted ==>
              exists t :: WellPrec(t) && Tokens(t) == input && Run(c, limit).res == Some(Ast(t))
    decreases Measure(c)
  {
    StepKeeps(c, limit);
    StepDecreases(c, limit);
    OnlyEndAccepts(c, limit);
    var d := Step(c, limit);
    if Top(c.stack) == 5 && !ShiftsOperator(5, First(Remaining(c))) {
      StartDerives(c, f, input, limit);
    } else if d.status == Running {
      var g: Forest;
      if !ReducesBlindly(Top(c.stack)) && Remaining(c).More? && ActionOf(Top(c.stack), Remaining(c).head.tok).Shift? {
        g := ShiftDerives(c, f, input, limit);
      } else {
        g := ReduceDerives(c, f, input, limit);
      }
      SoundFrom(d, g, input, limit);
    } else {
      assert Run(c, limit) == d;
    }
  }
}
