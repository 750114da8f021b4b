/** Plural rules as catalogues write them, and the forms that they select. */
module PluralRules {
  import opened Chars
  import opened PluralAutomaton
  import opened PluralExp
  import opened PluralGrammar
  import opened PluralLexer
  import opened PluralParser
  import opened PluralText
  import opened PluralTheorems
  import opened Wrappers

  // ---- The customary spelling ----

  function Around(l: Lexeme): string {
    " " + Spell(l) + " "
  }

  const QUESTION_TOKEN: Lexeme := Token(QUESTION, NoVal)
  const COLON_TOKEN: Lexeme := Token(COLON, NoVal)

  /** Blanks around `&&`, `||`, `?` and `:`, and none elsewhere. */
  function Customary(t: Cst): string {
    match t
    case CVar => "n"
    case CNum(k) => Decimal(k)
    case CNot(a) => "!" + Customary(a)
    case CBin(o, l, r) =>
      Customary(l) + (if o.tok < EQUOP2 then Around(OpLexeme(o)) else Spell(OpLexeme(o))) + Customary(r)
    case CCond(c, y, f) => Customary(c) + " ? " + Customary(y) + " : " + Customary(f)
    case CParen(a) => "(" + Customary(a) + ")"
  }

  /** The text is a writing of these tokens, with any blanks and any ending. */
  ghost predicate Spelled(text: string, i: Input) {
    exists gaps: seq<string>, end: string :: Writes(text, i, gaps, end)
  }

  ghost predicate Writes(text: string, i: Input, gaps: seq<string>, end: string) {
    (forall g <- gaps :: AllBlank(g)) && EndsExpression(end) && text == Write(i, gaps, end)
  }

  lemma Prepend(gap: string, l: Lexeme, rest: string, i: Input)
    requires AllBlank(gap) && Spelled(rest, i)
    ensures Spelled(gap + Spell(l) + rest, More(l, i))
  {
    hide Spell, AllBlank;
    var gaps, end :| Writes(rest, i, gaps, end);
    var all := [gap] + gaps;
    assert all[1..] == gaps;
    assert gap + (Spell(l) + rest) == gap + Spell(l) + rest;
    assert Writes(gap + Spell(l) + rest, More(l, i), all, end);
  }

  lemma PrependPlain(l: Lexeme, rest: string, i: Input)
    requires Spelled(rest, i)
    ensures Spelled(Spell(l) + rest, More(l, i))
  {
    Prepend("", l, rest, i);
    assert "" + Spell(l) + rest == Spell(l) + rest;
  }

  lemma Indent(i: Input, gaps: seq<string>, end: string)
    ensures var first := if gaps == [] then "" else gaps[0];
            var others := if gaps == [] then [] else gaps[1..];
            Write(i, [" " + first] + others, end) == " " + Write(i, gaps, end)
  {
    hide Spell;
    var first := if gaps == [] then "" else gaps[0];
    var others := if gaps == [] then [] else gaps[1..];
    var all := [" " + first] + others;
    assert all[1..] == others;
    match i
    case Eof => assert " " + first + end == " " + (first + end);
    case More(l, r) =>
      var rest := Write(r, others, end);
      assert " " + first + (Spell(l) + rest) == " " + (first + (Spell(l) + rest));
  }

  /** A blank may stand in front. */
  lemma Blank(rest: string, i: Input)
    requires Spelled(rest, i)
    ensures Spelled(" " + rest, i)
  {
    var gaps, end :| Writes(rest, i, gaps, end);
    var first := if gaps == [] then "" else gaps[0];
    assert first == "" || first in gaps;
    assert AllBlank(" " + first);
    hide AllBlank, EndsExpression;
    var others := if gaps == [] then [] else gaps[1..];
    Indent(i, gaps, end);
    assert forall g <- others :: g in gaps;
    assert Writes(" " + rest, i, [" " + first] + others, end);
  }

  lemma PrependAround(l: Lexeme, rest: string, i: Input)
    requires Spelled(rest, i)
    ensures Spelled(Around(l) + rest, More(l, i))
  {
    hide Spelled, Spell;
    Blank(rest, i);
    Prepend(" ", l, " " + rest, i);
    assert " " + Spell(l) + (" " + rest) == Around(l) + rest;
  }

  /** The customary spelling of an expression is a writing of its tokens. */
  lemma {:induction false} CustomaryWritten(t: Cst, rest: string, i: Input)
    requires Spelled(rest, i)
    ensures Spelled(Customary(t) + rest, TokensThen(t, i))
    decreases t
  {
    PlainSpellings();
    hide Spelled, Spell, Around;
    match t
    case CVar => PlainToken(Token(VARIABLE, NoVal), "n", rest, i);
    case CNum(k) =>
      NumberSpelling(k);
      PlainToken(Token(NUMBER, NumVal(k)), Decimal(k), rest, i);
    case CNot(a) =>
      CustomaryWritten(a, rest, i);
      PlainToken(Token(NOT, NoVal), "!", Customary(a) + rest, TokensThen(a, i));
      Regroup("!", Customary(a), rest);
    case CBin(o, l, r) => CustomaryBin(o, l, r, rest, i);
    case CCond(c, y, f) => CustomaryCond(c, y, f, rest, i);
    case CParen(a) =>
      PlainToken(Token(CLOSE, NoVal), ")", rest, i);
      CustomaryWritten(a, ")" + rest, More(Token(CLOSE, NoVal), i));
      PlainToken(Token(OPEN, NoVal), "(", Customary(a) + (")" + rest), TokensThen(a, More(Token(CLOSE, NoVal), i)));
      assert "(" + (Customary(a) + (")" + rest)) == "(" + Customary(a) + ")" + rest;
  }

  lemma PlainSpellings()
    ensures Spell(Token(VARIABLE, NoVal)) == "n" && Spell(Token(NOT, NoVal)) == "!"
    ensures Spell(Token(OPEN, NoVal)) == "(" && Spell(Token(CLOSE, NoVal)) == ")"
  {
  }

  lemma NumberSpelling(k: nat)
    ensures Spell(Token(NUMBER, NumVal(k))) == Decimal(k)
  {
  }

  lemma PlainToken(l: Lexeme, text: string, rest: string, i: Input)
    requires Spelled(rest, i) && Spell(l) == text
    ensures Spelled(text + rest, More(l, i))
  {
    hide Spelled, Spell;
    PrependPlain(l, rest, i);
  }

  lemma Regroup(a: string, b: string, c: string)
    ensures a + (b + c) == a + b + c
  {
  }

  lemma Regroup4(a: string, b: string, c: string, d: string)
    ensures a + (b + (c + d)) == a + b + c + d
  {
  }

  lemma {:induction false} CustomaryBin(o: Operator, l: Cst, r: Cst, rest: string, i: Input)
    requires Spelled(rest, i)
    ensures Spelled(Customary(CBin(o, l, r)) + rest, TokensThen(CBin(o, l, r), i))
    decreases CBin(o, l, r), 0
  {
    hide Spelled, Spell, Around;
    var sign := if o.tok < EQUOP2 then Around(OpLexeme(o)) else Spell(OpLexeme(o));
    CustomaryWritten(r, rest, i);
    var after, tokens := Customary(r) + rest, TokensThen(r, i);
    if o.tok < EQUOP2 {
      PrependAround(OpLexeme(o), after, tokens);
    } else {
      PrependPlain(OpLexeme(o), after, tokens);
    }
    CustomaryWritten(l, sign + after, More(OpLexeme(o), tokens));
    Regroup4(Customary(l), sign, Customary(r), rest);
  }

  lemma {:induction false} CustomaryCond(c: Cst, y: Cst, f: Cst, rest: string, i: Input)
    requires Spelled(rest, i)
    ensures Spelled(Customary(CCond(c, y, f)) + rest, TokensThen(CCond(c, y, f), i))
    decreases CCond(c, y, f), 0
  {
    hide Spelled, Spell;
    Signs();
    hide Around;
    CustomaryWritten(f, rest, i);
    var text2, tokens2 := " : " + (Customary(f) + rest), More(COLON_TOKEN, TokensThen(f, i));
    PrependAround(COLON_TOKEN, Customary(f) + rest, TokensThen(f, i));
    CustomaryWritten(y, text2, tokens2);
    var text1, tokens1 := " ? " + (Customary(y) + text2), More(QUESTION_TOKEN, TokensThen(y, tokens2));
    PrependAround(QUESTION_TOKEN, Customary(y) + text2, TokensThen(y, tokens2));
    CustomaryWritten(c, text1, tokens1);
    Regroup4(Customary(c) + " ? " + Customary(y), " : ", Customary(f), rest);
    Regroup4(Customary(c), " ? ", Customary(y), text2);
  }

  lemma Signs()
    ensures Around(QUESTION_TOKEN) == " ? " && Around(COLON_TOKEN) == " : "
  {
  }

  /** The parser reads the customary spelling of every well-formed expression. */
  lemma ParsesCustomary(t: Cst, end: string)
    requires WellPrec(t) && NumbersFit(Ast(t)) && EndsExpression(end)
    ensures var r := ParseText(Customary(t) + end);
            if 1 + Need(t) < YYMAXDEPTH then r.status == Accepted && r.res == Some(Ast(t))
            else r.status == Overflowed
  {
    hide ParseText, Customary, WellPrec, Ast, NumbersFit;
    var none: seq<string> := [];
    assert Write(Eof, none, end) == end by { EndWritten(end); }
    assert Writes(end, Eof, none, end);
    CustomaryWritten(t, end, Eof);
    var gaps, end' :| Writes(Customary(t) + end, Tokens(t), gaps, end');
    WritesParts(Customary(t) + end, Tokens(t), gaps, end');
    ParsesWritten(t, gaps, end');
  }

  lemma WritesParts(text: string, i: Input, gaps: seq<string>, end: string)
    requires Writes(text, i, gaps, end)
    ensures (forall g <- gaps :: AllBlank(g)) && EndsExpression(end) && text == Write(i, gaps, end)
  {
  }

  lemma EndWritten(end: string)
    ensures Write(Eof, [], end) == end
  {
  }

  // ---- A rule with three forms ----

  function Op(op: BinOp, l: Cst, r: Cst): Cst {
    CBin(OperatorOf(op), l, r)
  }

  function Compare(op: BinOp, modulus: nat, bound: nat): Cst {
    Op(op, Op(Module, CVar, CNum(modulus)), CNum(bound))
  }

  const ONE: Cst := Op(Equal, CVar, CNum(1))
  const FEW: Cst := Op(Land, Compare(GreaterOrEqual, 10, 2), Compare(LessOrEqual, 10, 4))
  const NO_TEENS: Cst := Op(Lor, Compare(LessThan, 100, 10), Compare(GreaterOrEqual, 100, 20))
  const SOME: Cst := Op(Land, FEW, CParen(NO_TEENS))
  const POLISH: Cst := CCond(ONE, CNum(0), CCond(SOME, CNum(1), CNum(2)))

  const FEW_TEXT := "n%10>=2 && n%10<=4"
  const NO_TEENS_TEXT := "(n%100<10 || n%100>=20)"
  const POLISH_TEXT := "n==1 ? 0 : " + FEW_TEXT + " && " + NO_TEENS_TEXT + " ? 1 : 2"

  function Sign(op: BinOp): string {
    var l := OpLexeme(OperatorOf(op));
    if OpToken(op) < EQUOP2 then Around(l) else Spell(l)
  }

  lemma Digits()
    ensures Decimal(0) == "0" && Decimal(1) == "1" && Decimal(2) == "2" && Decimal(4) == "4"
  {
  }

  lemma Tens()
    ensures Decimal(10) == "10" && Decimal(20) == "20" && Decimal(100) == "100"
  {
    assert Decimal(10) == Decimal(1) + "0" && Decimal(20) == Decimal(2) + "0" && Decimal(100) == Decimal(10) + "0";
  }

  lemma ArithmeticSigns()
    ensures Sign(Equal) == "==" && Sign(Module) == "%"
    ensures Sign(LessThan) == "<" && Sign(GreaterOrEqual) == ">=" && Sign(LessOrEqual) == "<="
  {
    hide Around;
  }

  lemma LogicalSigns()
    ensures Sign(Land) == " && " && Sign(Lor) == " || "
  {
  }

  lemma OpText(op: BinOp, l: Cst, r: Cst)
    ensures Customary(Op(op, l, r)) == Customary(l) + Sign(op) + Customary(r)
  {
    hide Around, Spell;
  }

  lemma CompareText(op: BinOp, modulus: nat, bound: nat)
    ensures Customary(Compare(op, modulus, bound)) == "n" + Sign(Module) + Decimal(modulus) + Sign(op) + Decimal(bound)
  {
    hide Decimal, Sign;
    OpText(Module, CVar, CNum(modulus));
    OpText(op, Op(Module, CVar, CNum(modulus)), CNum(bound));
  }

  lemma CompareTexts()
    ensures Customary(Compare(GreaterOrEqual, 10, 2)) == "n%10>=2" && Customary(Compare(LessOrEqual, 10, 4)) == "n%10<=4"
    ensures Customary(Compare(LessThan, 100, 10)) == "n%100<10"
    ensures Customary(Compare(GreaterOrEqual, 100, 20)) == "n%100>=20"
  {
    Digits();
    Tens();
    ArithmeticSigns();
    hide Decimal, Sign, Customary, Compare;
    CompareText(GreaterOrEqual, 10, 2);
    CompareText(LessOrEqual, 10, 4);
    CompareText(LessThan, 100, 10);
    CompareText(GreaterOrEqual, 100, 20);
  }

  lemma FewText()
    ensures Customary(FEW) == FEW_TEXT
  {
    CompareTexts();
    LogicalSigns();
    OpText(Land, Compare(GreaterOrEqual, 10, 2), Compare(LessOrEqual, 10, 4));
    hide Customary, Sign, Compare, Op, FEW_TEXT;
    FewJoined();
  }

  lemma FewJoined()
    ensures "n%10>=2" + " && " + "n%10<=4" == FEW_TEXT
  {
    assert "n%10>=2" + " && " == "n%10>=2 && ";
  }

  lemma NoTeensText()
    ensures Customary(CParen(NO_TEENS)) == NO_TEENS_TEXT
  {
    CompareTexts();
    LogicalSigns();
    OpText(Lor, Compare(LessThan, 100, 10), Compare(GreaterOrEqual, 100, 20));
    assert Customary(CParen(NO_TEENS)) == "(" + Customary(NO_TEENS) + ")";
    hide Customary, Sign, Compare, Op, NO_TEENS_TEXT;
    TeensJoined();
  }

  lemma TeensJoined()
    ensures "(" + ("n%100<10" + " || " + "n%100>=20") + ")" == NO_TEENS_TEXT
  {
    assert "n%100<10" + " || " == "n%100<10 || ";
    assert "n%100<10 || " + "n%100>=20" + ")" == "n%100<10 || n%100>=20)";
  }

  lemma PolishText()
    ensures Customary(POLISH) == POLISH_TEXT
  {
    FewText();
    NoTeensText();
    Digits();
    ArithmeticSigns();
    LogicalSigns();
    OpText(Equal, CVar, CNum(1));
    OpText(Land, FEW, CParen(NO_TEENS));
    assert Customary(CCond(SOME, CNum(1), CNum(2))) == Customary(SOME) + " ? " + Decimal(1) + " : " + Decimal(2);
    assert Customary(POLISH) == Customary(ONE) + " ? " + Decimal(0) + " : " + Customary(CCond(SOME, CNum(1), CNum(2)));
    assert Customary(CVar) == "n" && Customary(CNum(1)) == Decimal(1);
    hide Customary, Sign, Decimal, Op, FEW, NO_TEENS, FEW_TEXT, NO_TEENS_TEXT;
    PolishJoined(FEW_TEXT, NO_TEENS_TEXT);
  }

  lemma PolishJoined(few: string, teens: string)
    ensures ("n" + "==" + "1") + " ? " + "0" + " : " + ((few + " && " + teens) + " ? " + "1" + " : " + "2")
            == "n==1 ? 0 : " + few + " && " + teens + " ? 1 : 2"
  {
    assert "n" + "==" + "1" == "n==1";
    assert "n==1" + " ? " + "0" + " : " == "n==1 ? 0 : ";
    assert " ? " + "1" + " : " + "2" == " ? 1 : 2";
    Shift(few + " && " + teens, " ? ", "1", " : ", "2");
    var head, tail := "n==1 ? 0 : ", " ? 1 : 2";
    assert head + ((few + " && " + teens) + tail) == head + few + " && " + teens + tail;
  }

  lemma Shift(a: string, b: string, c: string, d: string, e: string)
    ensures a + b + c + d + e == a + (b + c + d + e)
  {
  }

  // ---- It is well formed, and what it evaluates to ----

  /** A subexpression that an operand may be, if it binds this strongly. */
  predicate Fits(t: Cst, strength: int) {
    WellPrec(t) && NumbersFit(Ast(t)) && Strength(t) == strength && Need(t) <= 10
  }

  lemma OpFitsIn(op: BinOp, l: Cst, r: Cst, s: int, t: int)
    requires Fits(l, s) && Fits(r, t) && s >= OpToken(op) && t > OpToken(op)
    ensures var e := Op(op, l, r);
            WellPrec(e) && NumbersFit(Ast(e)) && Strength(e) == OpToken(op) && Need(e) <= Max(Need(l), 2 + Need(r))
  {
  }

  lemma CompareFits(op: BinOp, modulus: nat, bound: nat)
    requires OpToken(op) == CMPOP2 && modulus < 1000 && bound < 1000
    ensures Fits(Compare(op, modulus, bound), CMPOP2) && Need(Compare(op, modulus, bound)) <= 3
  {
    LeavesFit(modulus);
    LeavesFit(bound);
    hide WellPrec, Ast, NumbersFit, Strength, Need, Op;
    OpFitsIn(Module, CVar, CNum(modulus), NOT + 1, NOT + 1);
    OpFitsIn(op, Op(Module, CVar, CNum(modulus)), CNum(bound), MULOP2, NOT + 1);
  }

  lemma LeavesFit(k: nat)
    requires k < 1000
    ensures Fits(CVar, NOT + 1) && Fits(CNum(k), NOT + 1) && Need(CVar) == Need(CNum(k)) == 1
  {
  }

  lemma PartsFit()
    ensures Fits(FEW, AND) && Need(FEW) <= 5 && Fits(NO_TEENS, OR) && Need(NO_TEENS) <= 5
  {
    hide Compare, WellPrec, Ast, NumbersFit, Strength, Need, Op;
    PairFits(Land, GreaterOrEqual, 10, 2, LessOrEqual, 10, 4);
    PairFits(Lor, LessThan, 100, 10, GreaterOrEqual, 100, 20);
  }

  lemma PairFits(op: BinOp, first: BinOp, m: nat, a: nat, second: BinOp, n: nat, b: nat)
    requires OpToken(op) < CMPOP2 && OpToken(first) == OpToken(second) == CMPOP2
    requires m < 1000 && a < 1000 && n < 1000 && b < 1000
    ensures var e := Op(op, Compare(first, m, a), Compare(second, n, b)); Fits(e, OpToken(op)) && Need(e) <= 5
  {
    hide Compare, WellPrec, Ast, NumbersFit, Strength, Need, Op;
    CompareFits(first, m, a);
    CompareFits(second, n, b);
    OpFitsIn(op, Compare(first, m, a), Compare(second, n, b), CMPOP2, CMPOP2);
  }

  lemma BracketFits(t: Cst, s: int)
    requires Fits(t, s) && Need(t) <= 5
    ensures Fits(CParen(t), NOT + 1) && Need(CParen(t)) <= 6
  {
  }

  lemma CondFits(c: Cst, y: nat, f: Cst, s: int)
    requires Fits(c, s) && s > QUESTION && y < ULONG_MOD && WellPrec(f) && NumbersFit(Ast(f))
    ensures var e := CCond(c, CNum(y), f);
            WellPrec(e) && NumbersFit(Ast(e)) && Need(e) <= Max(10, 4 + Need(f))
  {
  }

  lemma PolishFits()
    ensures WellPrec(POLISH) && NumbersFit(Ast(POLISH)) && 1 + Need(POLISH) < YYMAXDEPTH
  {
    PartsFit();
    BracketFits(NO_TEENS, OR);
    OneFits();
    hide FEW, NO_TEENS, ONE;
    OpFitsIn(Land, FEW, CParen(NO_TEENS), AND, NOT + 1);
    assert Fits(SOME, AND);
    hide SOME, WellPrec, Ast, NumbersFit, Strength, Need, Op;
    TwoFits();
    CondFits(SOME, 1, CNum(2), AND);
    CondFits(ONE, 0, CCond(SOME, CNum(1), CNum(2)), EQUOP2);
  }

  lemma OneFits()
    ensures Fits(ONE, EQUOP2)
  {
  }

  lemma TwoFits()
    ensures WellPrec(CNum(2)) && NumbersFit(Ast(CNum(2))) && Need(CNum(2)) == 1
  {
  }

  lemma CompareValue(op: BinOp, modulus: nat, bound: nat, n: nat)
    requires modulus > 0 && op != Lor && op != Land
    ensures PluralEval(Ast(Compare(op, modulus, bound)), n) == Apply(op, n % modulus, bound)
  {
    assert PluralEval(Ast(Op(Module, CVar, CNum(modulus))), n) == Some(n % modulus);
  }

  lemma LogicalValue(op: BinOp, l: Cst, r: Cst, n: nat, a: bool, b: bool)
    requires op == Lor || op == Land
    requires PluralEval(Ast(l), n) == Some(Truth(a)) && PluralEval(Ast(r), n) == Some(Truth(b))
    ensures PluralEval(Ast(Op(op, l, r)), n) == Some(Truth(if op == Lor then a || b else a && b))
  {
  }

  lemma SomeValue(n: nat)
    ensures PluralEval(Ast(SOME), n) == Some(Truth(2 <= n % 10 <= 4 && !(10 <= n % 100 < 20)))
  {
    CompareValue(GreaterOrEqual, 10, 2, n);
    CompareValue(LessOrEqual, 10, 4, n);
    CompareValue(LessThan, 100, 10, n);
    CompareValue(GreaterOrEqual, 100, 20, n);
    var a, b, c, d := Compare(GreaterOrEqual, 10, 2), Compare(LessOrEqual, 10, 4), Compare(LessThan, 100, 10),
                      Compare(GreaterOrEqual, 100, 20);
    assert Ast(CParen(NO_TEENS)) == Ast(NO_TEENS);
    hide Compare, Ast, PluralEval, Op;
    LogicalValue(Land, a, b, n, n % 10 >= 2, n % 10 <= 4);
    LogicalValue(Lor, c, d, n, n % 100 < 10, n % 100 >= 20);
    LogicalValue(Land, FEW, CParen(NO_TEENS), n, n % 10 >= 2 && n % 10 <= 4, n % 100 < 10 || n % 100 >= 20);
  }

  lemma CondValue(c: Cst, y: nat, f: Cst, n: nat, b: bool)
    requires PluralEval(Ast(c), n) == Some(Truth(b))
    ensures PluralEval(Ast(CCond(c, CNum(y), f)), n) == if b then Some(y) else PluralEval(Ast(f), n)
  {
  }

  lemma PolishValue(n: nat)
    ensures PluralEval(Ast(POLISH), n)
            == Some(if n == 1 then 0 else if 2 <= n % 10 <= 4 && !(10 <= n % 100 < 20) then 1 else 2)
  {
    SomeValue(n);
    assert PluralEval(Ast(ONE), n) == Some(Truth(n == 1));
    assert PluralEval(Ast(CNum(2)), n) == Some(2);
    hide PluralEval, Ast, ONE, SOME;
    CondValue(SOME, 1, CNum(2), n, 2 <= n % 10 <= 4 && !(10 <= n % 100 < 20));
    CondValue(ONE, 0, CCond(SOME, CNum(1), CNum(2)), n, n == 1);
  }

  /** The rule of Polish, as its catalogues write it, selects the form for 1, that for 2, 3, 4, 22, 23, 24, ..., and that
      for all other numbers. */
  lemma PolishForms(n: nat, end: string)
    requires EndsExpression(end)
    ensures var r := ParseText(POLISH_TEXT + end);
            r.status == Accepted && r.res.Some?
            && var form := PluralEval(r.res.value, n);
            && (form == Some(0) <==> n == 1)
            && (form == Some(1) <==> n != 1 && 2 <= n % 10 <= 4 && !(10 <= n % 100 < 20))
            && (form == Some(2) <==> n != 1 && !(2 <= n % 10 <= 4 && !(10 <= n % 100 < 20)))
  {
    PolishText();
    PolishFits();
    ParsesCustomary(POLISH, end);
    PolishValue(n);
    hide *;
  }
}
