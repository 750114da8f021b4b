/** Spelling plural expressions as text, and reading the text back. */
module PluralText {
  import opened Arithmetic
  import opened Chars
  import opened PluralExp
  import opened PluralGrammar
  import opened PluralLexer
  import opened Wrappers

  /** The spelling of a token; ERROR and UNDEFINED have none. */
  function Spell(l: Lexeme): string {
    match l.val
    case NumVal(n) => Decimal(n)
    case OpVal(op) =>
      (match op
       case Equal => "=="
       case NotEqual => "!="
       case LessThan => "<"
       case GreaterThan => ">"
       case LessOrEqual => "<="
       case GreaterOrEqual => ">="
       case Plus => "+"
       case Minus => "-"
       case Mult => "*"
       case Divide => "/"
       case _ => "%")
    case _ =>
      if l.tok == QUESTION then "?" else if l.tok == OR then "||" else if l.tok == AND then "&&"
      else if l.tok == NOT then "!" else if l.tok == COLON then ":" else if l.tok == VARIABLE then "n"
      else if l.tok == OPEN then "(" else ")"
  }

  /** The lexeme is a token of some expression. */
  predicate Spellable(l: Lexeme) {
    l.tok != ERROR && l.tok != UNDEFINED && (l.val.NumVal? ==> l.val.num < ULONG_MOD)
  }

  /** Text that begins with c may follow l directly without becoming part of it. */
  predicate Separate(l: Lexeme, c: char) {
    && (l.tok == NUMBER ==> !IsDigit(c))
    && (l.tok == NOT || l.tok == CMPOP2 ==> c != '=')
  }

  predicate AllBlank(s: string) {
    forall c <- s :: IsBlank(c)
  }

  /** The C string ends here, or one of the two characters that end an expression follows. */
  predicate EndsExpression(s: string) {
    Head(s) == '\0' || Head(s) == ';' || Head(s) == '\n'
  }

  /** The tokens of i, each behind its own gap, and then end. */
  function Write(i: Input, gaps: seq<string>, end: string): string {
    var gap := if gaps == [] then "" else gaps[0];
    match i
    case Eof => gap + end
    case More(l, r) => gap + (Spell(l) + Write(r, if gaps == [] then [] else gaps[1..], end))
  }

  /** Neighbouring tokens do not run together even without a gap. */
  predicate Smooth(i: Input) {
    i.More? ==>
      && Spellable(i.head) && Smooth(i.tail)
      && (i.tail.More? ==> Spellable(i.tail.head) && Separate(i.head, Head(Spell(i.tail.head))))
  }

  lemma {:induction false} SkipGap(gap: string, s: string)
    requires AllBlank(gap)
    ensures SkipBlanks(gap + s) == SkipBlanks(s)
  {
    if gap == "" {
      assert gap + s == s;
    } else {
      assert (gap + s)[1..] == gap[1..] + s;
      SkipGap(gap[1..], s);
    }
  }

  lemma DigitStep(n: nat)
    ensures (n / 10 % ULONG_MOD * 10 % ULONG_MOD + n % 10) % ULONG_MOD == n % ULONG_MOD
  {
    var m, q, d := ULONG_MOD, n / 10, n % 10;
    assert n == 10 * q + d;
    hide ULONG_MOD;
    DigitStepModulo(q, d, m);
  }

  lemma DigitStepModulo(q: nat, d: nat, m: nat)
    requires m > 0
    ensures (q % m * 10 % m + d) % m == (10 * q + d) % m
  {
    var k, r := q / m, q % m;
    var j, s := r * 10 / m, r * 10 % m;
    Regroup(q, d, m, k, r, j, s);
    RemainderOfSum(s + d, 10 * k + j, m);
  }

  lemma Regroup(q: nat, d: nat, m: nat, k: nat, r: nat, j: nat, s: nat)
    requires q == m * k + r && r * 10 == m * j + s
    ensures 10 * q + d == (s + d) + (10 * k + j) * m
  {
    assert (10 * k + j) * m == 10 * (m * k) + m * j;
  }

  /** Reading the digits of n gives n modulo the width of `unsigned long`. */
  lemma {:induction false} ReadsDecimal(n: nat, s: string)
    ensures ReadDigits(Decimal(n) + s, 0) == ReadDigits(s, n % ULONG_MOD)
  {
    hide Decimal, ReadDigits;
    var d := ['0' + (n % 10) as char];
    DecimalStep(n);
    ReadsDigit(n % 10, s, if n < 10 then 0 else n / 10 % ULONG_MOD);
    if n < 10 {
      assert Decimal(n) + s == d + s;
    } else {
      ReadsDecimal(n / 10, d + s);
      assert Decimal(n) + s == Decimal(n / 10) + (d + s);
      DigitStep(n);
    }
  }

  lemma ReadsDigit(d: nat, s: string, value: nat)
    requires d < 10 && value < ULONG_MOD
    ensures ReadDigits(['0' + d as char] + s, value) == ReadDigits(s, (value * 10 % ULONG_MOD + d) % ULONG_MOD)
  {
    var c := '0' + d as char;
    assert ([c] + s)[1..] == s && (c - '0') as int == d;
  }

  lemma LexesDigits(text: string)
    requires text != "" && IsDigit(text[0])
    ensures var (n, r) := ReadDigits(text, 0); YyLexSpec(text) == Lexed(NUMBER_CODE, NumVal(n), r)
  {
    var d := (text[0] - '0') as nat;
    assert (0 * 10 % ULONG_MOD + d) % ULONG_MOD == d;
    assert ReadDigits(text, 0) == ReadDigits(text[1..], d);
    assert SkipBlanks(text) == text;
  }

  lemma NoMoreDigits(s: string, n: nat)
    requires !IsDigit(Head(s))
    ensures ReadDigits(s, n) == (n, s)
  {
  }

  lemma DecimalReads(n: nat, s: string)
    requires n < ULONG_MOD && !IsDigit(Head(s))
    ensures ReadDigits(Decimal(n) + s, 0) == (n, s) && IsDigit(Decimal(n)[0])
  {
    hide Decimal, ReadDigits;
    ReadsDecimal(n, s);
    NoMoreDigits(s, n);
    assert n % ULONG_MOD == n;
    assert Decimal(n)[0] in Decimal(n);
  }

  /** The tokens without a value. */
  lemma LexesPlain(l: Lexeme, s: string)
    requires Spellable(l) && Separate(l, Head(s)) && l.val.NoVal?
    ensures var w := Spell(l);
            w != "" && !IsBlank(w[0]) && !IsDigit(w[0]) && w[0] != '\0'
            && var r := LexFrom(w[0], w[1..] + s);
               r.code != YYEOF && Token(YyTranslate(r.code), r.val) == l && r.rest == s
  {
    Rest(Spell(l), s);
  }

  lemma Rest(w: string, s: string)
    requires 0 < |w| <= 2
    ensures |w| == 1 ==> w[1..] + s == s
    ensures |w| == 2 ==> w[1..] + s == [w[1]] + s && ([w[1]] + s)[1..] == s
  {
    if |w| == 2 { assert w[1..] == [w[1]]; }
  }

  /** The two-place operators. */
  lemma LexesValued(l: Lexeme, s: string)
    requires Spellable(l) && Separate(l, Head(s)) && l.val.OpVal?
    ensures var w := Spell(l);
            w != "" && !IsBlank(w[0]) && !IsDigit(w[0]) && w[0] != '\0'
            && var r := LexFrom(w[0], w[1..] + s);
               r.code != YYEOF && Token(YyTranslate(r.code), r.val) == l && r.rest == s
  {
    Rest(Spell(l), s);
  }

  lemma LexesOperator(l: Lexeme, s: string)
    requires Spellable(l) && Separate(l, Head(s)) && !l.val.NumVal?
    ensures var w := Spell(l);
            w != "" && !IsBlank(w[0]) && !IsDigit(w[0]) && w[0] != '\0'
            && var r := LexFrom(w[0], w[1..] + s);
               r.code != YYEOF && Token(YyTranslate(r.code), r.val) == l && r.rest == s
  {
    if l.val.NoVal? { LexesPlain(l, s); } else { LexesValued(l, s); }
    hide *;
  }

  /** yylex reads back one spelled token. */
  lemma LexesSpelling(l: Lexeme, s: string)
    requires Spellable(l) && Separate(l, Head(s))
    ensures Spell(l) != "" && !IsBlank(Spell(l)[0])
    ensures var r := YyLexSpec(Spell(l) + s);
            r.code != YYEOF && Token(YyTranslate(r.code), r.val) == l && r.rest == s
  {
    var w := Spell(l);
    if l.val.NumVal? {
      DecimalReads(l.val.num, s);
      LexesDigits(w + s);
      assert YyTranslate(NUMBER_CODE) == l.tok;
    } else {
      LexesOperator(l, s);
      assert (w + s)[1..] == w[1..] + s;
      assert SkipBlanks(w + s) == w + s;
    }
  }

  lemma LexesBehindGap(gap: string, s: string)
    requires AllBlank(gap)
    ensures YyLexSpec(gap + s) == YyLexSpec(s)
    ensures if gap == "" then Head(gap + s) == Head(s) else Head(gap + s) == ' ' || Head(gap + s) == '\t'
  {
    SkipGap(gap, s);
    hide SkipBlanks, ReadDigits, LexFrom;
    if gap == "" { assert gap + s == s; } else { assert gap[0] in gap; }
  }

  /** A written token string begins with a blank, with its first token, or with its end. */
  predicate StartsLike(s: string, i: Input, end: string) {
    || Head(s) == ' ' || Head(s) == '\t'
    || Head(s) == if i.More? then Head(Spell(i.head)) else Head(end)
  }

  /** So it does not become part of the token before it. */
  lemma SeparateNext(l: Lexeme, s: string, i: Input, end: string)
    requires Smooth(More(l, i)) && StartsLike(s, i, end) && EndsExpression(end)
    ensures Separate(l, Head(s))
  {
    hide Spell, Spellable;
  }

  lemma LexEnd(s: string, end: string)
    requires EndsExpression(end) && YyLexSpec(s) == YyLexSpec(end)
    ensures LexAll(s) == Eof
  {
    assert SkipBlanks(end) == end;
    hide SkipBlanks, ReadDigits;
  }

  lemma LexStep(s: string, l: Lexeme, rest: string)
    requires var r := YyLexSpec(s); r.code != YYEOF && Token(YyTranslate(r.code), r.val) == l && r.rest == rest
    ensures LexAll(s) == More(l, LexAll(rest))
  {
    hide YyLexSpec, YyTranslate;
  }

  /** Reading back a written token string, whatever blanks separate its tokens. */
  lemma {:induction false} LexesWritten(i: Input, gaps: seq<string>, end: string)
    requires Smooth(i) && (forall g <- gaps :: AllBlank(g)) && EndsExpression(end)
    ensures LexAll(Write(i, gaps, end)) == i && StartsLike(Write(i, gaps, end), i, end)
  {
    var gap := if gaps == [] then "" else gaps[0];
    var rest := if gaps == [] then [] else gaps[1..];
    assert AllBlank(gap);
    hide Spell, YyLexSpec, YyTranslate, AllBlank, Separate, LexAll, Spellable, EndsExpression;
    match i
    case Eof => {
      LexesBehindGap(gap, end);
      LexEnd(gap + end, end);
    }
    case More(l, r) => {
      LexesWritten(r, rest, end);
      var s := Write(r, rest, end);
      SeparateNext(l, s, r, end);
      LexesSpelling(l, s);
      LexesBehindGap(gap, Spell(l) + s);
      LexStep(gap + (Spell(l) + s), l, s);
      assert Head(Spell(l) + s) == Head(Spell(l));
    }
  }

  /** The tokens that may begin and end an expression. */
  predicate Begins(tok: int) {
    tok == NOT || tok == NUMBER || tok == VARIABLE || tok == OPEN
  }

  predicate MayFollow(i: Input) {
    i.More? ==> !Begins(i.head.tok)
  }

  lemma FirstCharacter(l: Lexeme)
    requires Spellable(l)
    ensures Begins(l.tok) ==> Head(Spell(l)) != '='
    ensures !Begins(l.tok) ==> !IsDigit(Head(Spell(l)))
  {
    if l.val.NumVal? {
      assert Spell(l)[0] in Spell(l);
    }
  }

  /** An operand may follow an operator, and an operator or closing token an operand. */
  lemma SmoothPair(l: Lexeme, i: Input)
    requires Spellable(l) && Smooth(i) && i.More?
    requires Begins(i.head.tok) <==> l.tok == NOT || l.tok == OPEN || l.tok == COLON || IsOperator(l.tok)
    ensures Smooth(More(l, i))
  {
    FirstCharacter(i.head);
  }

  /** Neighbouring tokens of an expression never run together. */
  lemma {:induction false} SmoothTokens(t: Cst, rest: Input)
    requires NumbersFit(Ast(t)) && Smooth(rest) && MayFollow(rest)
    ensures Smooth(TokensThen(t, rest)) && TokensThen(t, rest).More?
    ensures Begins(TokensThen(t, rest).head.tok)
  {
    match t
    case CVar => SmoothEnd(Token(VARIABLE, NoVal), rest);
    case CNum(n) => SmoothEnd(Token(NUMBER, NumVal(n)), rest);
    case CNot(a) =>
      SmoothTokens(a, rest);
      SmoothPair(Token(NOT, NoVal), TokensThen(a, rest));
    case CBin(o, l, r) =>
      SmoothTokens(r, rest);
      SmoothPair(OpLexeme(o), TokensThen(r, rest));
      SmoothTokens(l, More(OpLexeme(o), TokensThen(r, rest)));
    case CCond(c, y, f) =>
      SmoothTokens(f, rest);
      var rest1 := More(Token(COLON, NoVal), TokensThen(f, rest));
      SmoothPair(Token(COLON, NoVal), TokensThen(f, rest));
      SmoothTokens(y, rest1);
      SmoothPair(Token(QUESTION, NoVal), TokensThen(y, rest1));
      SmoothTokens(c, More(Token(QUESTION, NoVal), TokensThen(y, rest1)));
    case CParen(a) =>
      SmoothEnd(Token(CLOSE, NoVal), rest);
      SmoothTokens(a, More(Token(CLOSE, NoVal), rest));
      SmoothPair(Token(OPEN, NoVal), TokensThen(a, More(Token(CLOSE, NoVal), rest)));
  }

  lemma SmoothEnd(l: Lexeme, rest: Input)
    requires Spellable(l) && (l.tok == VARIABLE || l.tok == NUMBER || l.tok == CLOSE)
    requires Smooth(rest) && MayFollow(rest)
    ensures Smooth(More(l, rest))
  {
    if rest.More? {
      FirstCharacter(rest.head);
    }
  }
}
