/** yylex of plural.c: from the text of a plural expression to tokens. */
module PluralLexer {
  import opened Chars
  import opened PluralExp
  import opened PluralGrammar
  import opened Wrappers

  // Token codes that yylex returns besides plain characters.
  const YYEOF := 0
  const YYERRCODE := 256
  const EQUOP2_CODE := 257
  const CMPOP2_CODE := 258
  const ADDOP2_CODE := 259
  const MULOP2_CODE := 260
  const NUMBER_CODE := 261

  /** yytranslate: every character code without an entry of its own is undefined. */
  function YyTranslate(code: int): int
    requires 0 <= code <= 261
  {
    match code
    case 0 => END
    case 33 => NOT        // '!'
    case 38 => AND        // '&'
    case 40 => OPEN       // '('
    case 41 => CLOSE      // ')'
    case 58 => COLON      // ':'
    case 63 => QUESTION   // '?'
    case 110 => VARIABLE  // 'n'
    case 124 => OR        // '|'
    case 256 => ERROR
    case 257 => EQUOP2
    case 258 => CMPOP2
    case 259 => ADDOP2
    case 260 => MULOP2
    case 261 => NUMBER
    case _ => UNDEFINED
  }

  /** The character at the start of the C string s. */
  function Head(s: string): char {
    if s == "" then '\0' else s[0]
  }

  function SkipBlanks(s: string): (r: string)
    ensures |r| <= |s| && !IsBlank(Head(r))
  {
    if s != "" && IsBlank(s[0]) then SkipBlanks(s[1..]) else s
  }

  /** Reads digits in `unsigned long` arithmetic; returns the number and what follows it. */
  function ReadDigits(s: string, n: nat): (r: (nat, string))
    ensures |r.1| <= |s| && !IsDigit(Head(r.1))
  {
    if s != "" && IsDigit(s[0]) then
      ReadDigits(s[1..], (n * 10 % ULONG_MOD + (s[0] - '0') as nat) % ULONG_MOD)
    else (n, s)
  }

  /** One call of yylex: the code, what it stores through lval, and the text it leaves. */
  datatype Lexed = Lexed(code: int, val: Val, rest: string)

  /** The token that starts with character c, which is neither a blank, a digit nor NUL. */
  function LexFrom(c: char, t: string): (r: Lexed)
    ensures 0 <= r.code <= 261 && |r.rest| <= |t| + 1
    ensures r.code != YYEOF ==> |r.rest| <= |t| && IsLexeme(Token(YyTranslate(r.code), r.val))
  {
    var more := t != "" && t[0] == (if c == '&' || c == '|' then c else '=');
    match c
    case '=' => if more then Lexed(EQUOP2_CODE, OpVal(Equal), t[1..]) else Lexed(YYERRCODE, NoVal, t)
    case '!' => if more then Lexed(EQUOP2_CODE, OpVal(NotEqual), t[1..]) else Lexed('!' as int, NoVal, t)
    case '&' => if more then Lexed('&' as int, NoVal, t[1..]) else Lexed(YYERRCODE, NoVal, t)
    case '|' => if more then Lexed('|' as int, NoVal, t[1..]) else Lexed(YYERRCODE, NoVal, t)
    case '<' => if more then Lexed(CMPOP2_CODE, OpVal(LessOrEqual), t[1..]) else Lexed(CMPOP2_CODE, OpVal(LessThan), t)
    case '>' =>
      if more then Lexed(CMPOP2_CODE, OpVal(GreaterOrEqual), t[1..]) else Lexed(CMPOP2_CODE, OpVal(GreaterThan), t)
    case '*' => Lexed(MULOP2_CODE, OpVal(Mult), t)
    case '/' => Lexed(MULOP2_CODE, OpVal(Divide), t)
    case '%' => Lexed(MULOP2_CODE, OpVal(Module), t)
    case '+' => Lexed(ADDOP2_CODE, OpVal(Plus), t)
    case '-' => Lexed(ADDOP2_CODE, OpVal(Minus), t)
    case _ =>
      if c == 'n' || c == '?' || c == ':' || c == '(' || c == ')' then Lexed(c as int, NoVal, t)
      else if c == ';' || c == '\n' then Lexed(YYEOF, NoVal, [c] + t)
      else Lexed(YYERRCODE, NoVal, t)
  }

  function YyLexSpec(text: string): (r: Lexed)
    ensures 0 <= r.code <= 261 && |r.rest| <= |text|
    ensures r.code != YYEOF ==> |r.rest| < |text| && IsLexeme(Token(YyTranslate(r.code), r.val))
  {
    var s := SkipBlanks(text);
    if Head(s) == '\0' then Lexed(YYEOF, NoVal, s)
    else if IsDigit(s[0]) then
      var (n, r) := ReadDigits(s[1..], (s[0] - '0') as nat);
      Lexed(NUMBER_CODE, NumVal(n), r)
    else LexFrom(s[0], s[1..])
  }

  /** All tokens of a text, up to the first YYEOF. */
  function LexAll(text: string): Input
    decreases |text|
  {
    var r := YyLexSpec(text);
    if r.code == YYEOF then Eof else More(Token(YyTranslate(r.code), r.val), LexAll(r.rest))
  }

  function At(text: string, i: nat): char {
    if i < |text| then text[i] else '\0'
  }

  /** The loops of yylex that skip blanks. */
  method SkipBlanksFrom(text: string, pos: nat) returns (exp: nat)
    requires pos <= |text|
    ensures pos <= exp <= |text| && text[exp..] == SkipBlanks(text[pos..])
  {
    exp := pos;
    while exp < |text| && IsBlank(text[exp])
      invariant pos <= exp <= |text|
      invariant SkipBlanks(text[exp..]) == SkipBlanks(text[pos..])
    {
      assert text[exp..][1..] == text[exp + 1..];
      exp := exp + 1;
    }
  }

  /** The loop of yylex that reads the digits behind a first one. */
  method ReadNumber(text: string, pos: nat, first: nat) returns (n: nat, exp: nat)
    requires pos <= |text|
    ensures pos <= exp <= |text| && (n, text[exp..]) == ReadDigits(text[pos..], first)
  {
    n, exp := first, pos;
    while IsDigit(At(text, exp))
      invariant pos <= exp <= |text|
      invariant ReadDigits(text[exp..], n) == ReadDigits(text[pos..], first)
      decreases |text| - exp
    {
      assert text[exp..][1..] == text[exp + 1..];
      n := n * 10 % ULONG_MOD;
      n := (n + (text[exp] - '0') as nat) % ULONG_MOD;
      exp := exp + 1;
    }
  }

  /** The switch of yylex behind a first character that is no digit. */
  method LexOperator(text: string, pos: nat) returns (code: int, val: Val, exp: nat)
    requires 0 < pos <= |text| && !IsDigit(text[pos - 1])
    ensures pos - 1 <= exp <= |text|
    ensures Lexed(code, val, text[exp..]) == LexFrom(text[pos - 1], text[pos..])
  {
    var c := text[pos - 1];
    code, val, exp := c as int, NoVal, pos;
    var following := At(text, exp);
    ghost var t := text[pos..];
    assert |t| == |text| - pos && (t != "" ==> t[0] == following && t[1..] == text[pos + 1..]);
    match c {
      case '=' =>
        if following == '=' { exp, val, code := exp + 1, OpVal(Equal), EQUOP2_CODE; }
        else { code := YYERRCODE; }
      case '!' =>
        if following == '=' { exp, val, code := exp + 1, OpVal(NotEqual), EQUOP2_CODE; }
      case '&' =>
        if following == '&' { exp := exp + 1; } else { code := YYERRCODE; }
      case '|' =>
        if following == '|' { exp := exp + 1; } else { code := YYERRCODE; }
      case '<' =>
        if following == '=' { exp, val := exp + 1, OpVal(LessOrEqual); } else { val := OpVal(LessThan); }
        code := CMPOP2_CODE;
      case '>' =>
        if following == '=' { exp, val := exp + 1, OpVal(GreaterOrEqual); } else { val := OpVal(GreaterThan); }
        code := CMPOP2_CODE;
      case '*' => val, code := OpVal(Mult), MULOP2_CODE;
      case '/' => val, code := OpVal(Divide), MULOP2_CODE;
      case '%' => val, code := OpVal(Module), MULOP2_CODE;
      case '+' => val, code := OpVal(Plus), ADDOP2_CODE;
      case '-' => val, code := OpVal(Minus), ADDOP2_CODE;
      case _ =>
        if c == ';' || c == '\n' {
          exp, code := exp - 1, YYEOF;
          assert text[exp..] == [c] + t;
        } else if !(c == 'n' || c == '?' || c == ':' || c == '(' || c == ')') {
          code := YYERRCODE;
        }
    }
  }

  /** yylex on the C string text from position pos. */
  method YyLex(text: string, pos: nat) returns (code: int, val: Val, next: nat)
    requires pos <= |text|
    ensures pos <= next <= |text|
    ensures Lexed(code, val, text[next..]) == YyLexSpec(text[pos..])
  {
    hide SkipBlanks, ReadDigits, LexFrom;
    var exp := SkipBlanksFrom(text, pos);
    if At(text, exp) == '\0' {
      return YYEOF, NoVal, exp;
    }
    var c := text[exp];
    assert text[exp..][0] == c && text[exp..][1..] == text[exp + 1..];
    if IsDigit(c) {
      var n;
      n, next := ReadNumber(text, exp + 1, (c - '0') as nat);
      val, code := NumVal(n), NUMBER_CODE;
    } else {
      code, val, next := LexOperator(text, exp + 1);
    }
  }
}
