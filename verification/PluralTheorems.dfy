/** What yyparse does with the text of a plural expression. */
module PluralTheorems {
  import opened PluralExp
  import opened PluralGrammar
  import opened PluralAutomaton
  import opened PluralCompleteness
  import opened PluralSoundness
  import opened PluralPrecedence
  import opened PluralLexer
  import opened PluralText
  import opened PluralParser
  import opened Wrappers

  /** Every run ends: the parser accepts, aborts or overflows on every token string. */
  lemma {:induction false} RunEnds(c: Config, limit: nat)
    requires Inv(c)
    ensures Run(c, limit).status != Running
    decreases Measure(c)
  {
    if c.status == Running {
      StepKeeps(c, limit);
      StepDecreases(c, limit);
      RunEnds(Step(c, limit), limit);
    }
  }

  /** yyparse returns 0 exactly on the sentences of rules 1 to 12 whose derivation by
      precedence fits on its stack, and the result is the tree of that derivation. On the
      other sentences it returns 2; where it returns 1 the tokens have no derivation. */
  lemma ParsesLanguage(text: string)
    ensures var r := ParseText(text); var toks := LexAll(text);
            && (r.status == Accepted ==> exists t :: WellPrec(t) && Tokens(t) == toks && r.res == Some(Ast(t)))
            && (forall t | Tokens(t) == toks ::
                  if 1 + Need(Resolve(t)) < YYMAXDEPTH then r.status == Accepted && r.res == Some(Ast(Resolve(t)))
                  else r.status == Overflowed)
            && r.status != Running
  {
    var toks := LexAll(text);
    RunEnds(Init(toks), YYMAXDEPTH);
    SoundFrom(Init(toks), Nothing, toks, YYMAXDEPTH);
    forall t | Tokens(t) == toks
      ensures var r := ParseText(text);
              if 1 + Need(Resolve(t)) < YYMAXDEPTH then r.status == Accepted && r.res == Some(Ast(Resolve(t)))
              else r.status == Overflowed
    {
      ResolveKeepsTokens(t, Eof);
      Complete(Resolve(t), YYMAXDEPTH);
    }
  }

  /** What yyparse returns: 0 for a sentence that fits on its stack, 2 for one that does not, and otherwise, for tokens
      without derivation, 1 or 2. */
  lemma ReturnCodes(text: string)
    ensures var code := ResultCode(ParseText(text).status); var toks := LexAll(text);
            && (code == 0 <==> exists t :: Tokens(t) == toks && 1 + Need(Resolve(t)) < YYMAXDEPTH)
            && (forall t | Tokens(t) == toks && 1 + Need(Resolve(t)) >= YYMAXDEPTH :: code == 2)
            && (code == 1 ==> forall t :: Tokens(t) != toks)
            && 0 <= code <= 2
  {
    ParsesLanguage(text);
    var r, toks := ParseText(text), LexAll(text);
    hide ParseText, LexAll, Need, Resolve;
    if r.status == Accepted {
      var t :| WellPrec(t) && Tokens(t) == toks && r.res == Some(Ast(t));
      assert 1 + Need(Resolve(t)) < YYMAXDEPTH;
    }
  }

  /** Round trip for every way to bracket an expression and to put blanks between its tokens. */
  lemma ParsesWritten(t: Cst, gaps: seq<string>, end: string)
    requires WellPrec(t) && NumbersFit(Ast(t))
    requires (forall g <- gaps :: AllBlank(g)) && EndsExpression(end)
    ensures var r := ParseText(Write(Tokens(t), gaps, end));
            if 1 + Need(t) < YYMAXDEPTH then r.status == Accepted && r.res == Some(Ast(t))
            else r.status == Overflowed
  {
    SmoothTokens(t, Eof);
    LexesWritten(Tokens(t), gaps, end);
    Complete(t, YYMAXDEPTH);
  }

  /** Printing a tree with all brackets or with as few as possible, and parsing the text,
      gives the tree back, as long as the parser's stack is deep enough. */
  lemma RoundTrip(e: Exp)
    requires NumbersFit(e)
    ensures var t := Minimal(e, QUESTION);
            var r := ParseText(Write(Tokens(t), [], ""));
            if 1 + Need(t) < YYMAXDEPTH then r.status == Accepted && r.res == Some(e) else r.status == Overflowed
    ensures var t := Full(e);
            var r := ParseText(Write(Tokens(t), [], ""));
            if 1 + Need(t) < YYMAXDEPTH then r.status == Accepted && r.res == Some(e) else r.status == Overflowed
  {
    MinimalKeepsTree(e, QUESTION);
    FullKeepsTree(e);
    ParsesWritten(Minimal(e, QUESTION), [], "");
    ParsesWritten(Full(e), [], "");
  }
}
