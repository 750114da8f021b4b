/** Resolving the conflicts of rules 2 to 9 by precedence loses no sentence: whatever the
    ambiguous rules derive also has a derivation that respects precedence. */
module PluralPrecedence {
  import opened PluralExp
  import opened PluralGrammar
  import opened Wrappers

  /** `!` in front of a derivation. */
  function JoinNot(a: Cst): (t: Cst)
    requires WellPrec(a)
    ensures WellPrec(t) && Strength(t) == Min(Strength(a), NOT)
  {
    match a
    case CBin(o, l, r) => CBin(o, JoinNot(l), r)
    case CCond(c, y, f) => CCond(JoinNot(c), y, f)
    case _ => CNot(a)
  }

  /** Two derivations with a two-place operator between them. */
  function JoinBin(o: Operator, l: Cst, r: Cst): (t: Cst)
    requires WellPrec(l) && WellPrec(r)
    ensures WellPrec(t) && Strength(t) == Min(o.tok, Min(Strength(l), Strength(r)))
    decreases r, l
  {
    if l.CCond? then CCond(l.cond, l.yes, JoinBin(o, l.no, r))
    else if r.CCond? then CCond(JoinBin(o, l, r.cond), r.yes, r.no)
    else if r.CBin? && r.operator.tok <= o.tok then JoinBin(r.operator, JoinBin(o, l, r.left), r.right)
    else if l.CBin? && l.operator.tok < o.tok then CBin(l.operator, l.left, JoinBin(o, l.right, r))
    else CBin(o, l, r)
  }

  /** Three derivations as the parts of a conditional expression. */
  function JoinCond(c: Cst, y: Cst, f: Cst): (t: Cst)
    requires WellPrec(c) && WellPrec(y) && WellPrec(f)
    ensures WellPrec(t)
  {
    if c.CCond? then CCond(c.cond, c.yes, JoinCond(c.no, y, f)) else CCond(c, y, f)
  }

  /** The derivation of the same tokens that respects precedence. */
  function Resolve(t: Cst): (u: Cst)
    ensures WellPrec(u)
  {
    match t
    case CVar => CVar
    case CNum(n) => CNum(n)
    case CNot(a) => JoinNot(Resolve(a))
    case CBin(o, l, r) => JoinBin(o, Resolve(l), Resolve(r))
    case CCond(c, y, f) => JoinCond(Resolve(c), Resolve(y), Resolve(f))
    case CParen(a) => CParen(Resolve(a))
  }

  lemma {:induction false} JoinNotTokens(a: Cst, rest: Input)
    requires WellPrec(a)
    ensures TokensThen(JoinNot(a), rest) == More(Token(NOT, NoVal), TokensThen(a, rest))
  {
    match a
    case CBin(o, l, r) => JoinNotTokens(l, More(OpLexeme(o), TokensThen(r, rest)));
    case CCond(c, y, f) =>
      JoinNotTokens(c, More(Token(QUESTION, NoVal), TokensThen(y, More(Token(COLON, NoVal), TokensThen(f, rest)))));
    case _ =>
  }

  lemma {:induction false} JoinBinTokens(o: Operator, l: Cst, r: Cst, rest: Input)
    requires WellPrec(l) && WellPrec(r)
    ensures TokensThen(JoinBin(o, l, r), rest) == TokensThen(l, More(OpLexeme(o), TokensThen(r, rest)))
    decreases r, l
  {
    if l.CCond? {
      JoinBinTokens(o, l.no, r, rest);
    } else if r.CCond? {
      var rest1 := More(Token(COLON, NoVal), TokensThen(r.no, rest));
      JoinBinTokens(o, l, r.cond, More(Token(QUESTION, NoVal), TokensThen(r.yes, rest1)));
    } else if r.CBin? && r.operator.tok <= o.tok {
      JoinBinTokens(r.operator, JoinBin(o, l, r.left), r.right, rest);
      JoinBinTokens(o, l, r.left, More(OpLexeme(r.operator), TokensThen(r.right, rest)));
    } else if l.CBin? && l.operator.tok < o.tok {
      JoinBinTokens(o, l.right, r, rest);
    }
  }

  lemma {:induction false} JoinCondTokens(c: Cst, y: Cst, f: Cst, rest: Input)
    requires WellPrec(c) && WellPrec(y) && WellPrec(f)
    ensures TokensThen(JoinCond(c, y, f), rest) == TokensThen(CCond(c, y, f), rest)
  {
    if c.CCond? {
      JoinCondTokens(c.no, y, f, rest);
    }
  }

  /** Every sentence of the ambiguous rules is a sentence of the precedence grammar. */
  lemma {:induction false} ResolveKeepsTokens(t: Cst, rest: Input)
    ensures TokensThen(Resolve(t), rest) == TokensThen(t, rest)
  {
    match t
    case CVar =>
    case CNum(_) =>
    case CNot(a) =>
      JoinNotTokens(Resolve(a), rest);
      ResolveKeepsTokens(a, rest);
    case CBin(o, l, r) =>
      JoinBinTokens(o, Resolve(l), Resolve(r), rest);
      ResolveKeepsTokens(r, rest);
      ResolveKeepsTokens(l, More(OpLexeme(o), TokensThen(r, rest)));
    case CCond(c, y, f) =>
      JoinCondTokens(Resolve(c), Resolve(y), Resolve(f), rest);
      ResolveKeepsTokens(f, rest);
      var rest1 := More(Token(COLON, NoVal), TokensThen(f, rest));
      ResolveKeepsTokens(y, rest1);
      ResolveKeepsTokens(c, More(Token(QUESTION, NoVal), TokensThen(y, rest1)));
    case CParen(a) => ResolveKeepsTokens(a, More(Token(CLOSE, NoVal), rest));
  }
}
