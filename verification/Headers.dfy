/** The header entry of a catalogue: its charset and its plural rule. */
module Headers {
  import opened Chars
  import opened CStrings
  import opened PluralAutomaton
  import opened PluralCompleteness
  import opened PluralExp
  import opened PluralGrammar
  import opened PluralParser
  import opened PluralText
  import opened PluralTheorems
  import opened Wrappers

  // ---- Searching a text ----

  predicate StartsWith(s: string, pat: string) {
    |pat| <= |s| && s[..|pat|] == pat
  }

  /** strstr: the first place where pat stands in s. */
  function StrStr(s: string, pat: string): (r: Option<nat>)
    ensures r.Some? ==> r.value + |pat| <= |s|
  {
    if StartsWith(s, pat) then Some(0)
    else if s == "" then None
    else match StrStr(s[1..], pat)
         case None => None
         case Some(k) => Some(k + 1)
  }

  lemma StartsExactly(s: string, pat: string)
    ensures StartsWith(s, pat) <==> exists rest :: s == pat + rest
  {
    if StartsWith(s, pat) { assert s == pat + s[|pat|..]; }
  }

  /** It is the first place, and None means that there is no place. */
  lemma {:induction false} StrStrFirst(s: string, pat: string, k: nat)
    requires k <= |s|
    ensures StrStr(s, pat) == Some(k) <==> StartsWith(s[k..], pat) && forall j: nat :: j < k ==> !StartsWith(s[j..], pat)
    ensures StrStr(s, pat).None? ==> !StartsWith(s[k..], pat)
  {
    assert s[0..] == s;
    if k > 0 {
      StrStrFirst(s[1..], pat, k - 1);
      assert s[1..][k - 1..] == s[k..];
      forall j: nat | j < k - 1 ensures s[1..][j..] == s[j + 1..] {
      }
      if !StartsWith(s, pat) && (forall j: nat :: j < k - 1 ==> !StartsWith(s[1..][j..], pat)) {
        forall j: nat | j < k ensures !StartsWith(s[j..], pat) {
          if j > 0 { assert s[1..][j - 1..] == s[j..]; }
        }
      }
    }
  }

  // ---- The charset ----

  const CHARSET := "charset="

  predicate EndsCharset(c: char) { c == ' ' || c == '\t' || c == '\n' }

  /** strcspn(s, " \t\n") */
  function Span(s: string): (n: nat)
    ensures n <= |s| && (n < |s| ==> EndsCharset(s[n])) && forall i :: 0 <= i < n ==> !EndsCharset(s[i])
  {
    if s == "" || EndsCharset(s[0]) then 0 else 1 + Span(s[1..])
  }

  /** What stands behind "charset=", up to a blank or the end of the line. */
  function CharsetOf(nullentry: Option<CString>): Option<string> {
    if nullentry.None? then None
    else
      match StrStr(nullentry.value, CHARSET)
      case None => None
      case Some(k) =>
        var s := nullentry.value[k + |CHARSET|..];
        Some(s[..Span(s)])
  }

  lemma {:induction false} SpanOf(charset: string, after: string)
    requires (forall c <- charset :: c != ' ' && c != '\t' && c != '\n')
    requires after == "" || after[0] == ' ' || after[0] == '\t' || after[0] == '\n'
    ensures Span(charset + after) == |charset|
  {
    if charset == "" {
      assert charset + after == after;
    } else {
      assert forall c <- charset[1..] :: c in charset;
      assert charset[0] in charset && (charset + after)[1..] == charset[1..] + after;
      SpanOf(charset[1..], after);
    }
  }

  /** The charset is what stands behind the first "charset=", up to a blank, a tab, the end of the line or of the text. */
  lemma ReadsCharset(header: CString, before: string, charset: string, after: string)
    requires header == before + ("charset=" + (charset + after)) && StrStr(header, "charset=") == Some(|before|)
    requires (forall c <- charset :: c != ' ' && c != '\t' && c != '\n')
    requires after == "" || after[0] == ' ' || after[0] == '\t' || after[0] == '\n'
    ensures CharsetOf(Some(header)) == Some(charset)
  {
    var s := charset + after;
    assert header[|before| + 8..] == s;
    SpanOf(charset, after);
    assert s[..|charset|] == charset;
  }

  /** Without that text there is none. */
  lemma NoCharset(header: CString)
    requires forall k: nat :: k <= |header| ==> !StartsWith(header[k..], "charset=")
    ensures CharsetOf(Some(header)).None?
  {
    if StrStr(header, "charset=").Some? {
      StrStrFirst(header, "charset=", StrStr(header, "charset=").value);
    }
  }

  // ---- The plural rule ----

  const PLURAL := "plural="

  const NPLURALS := "nplurals="

  /** One form for 1, and another one for everything else. */
  const GERMANIC_PLURAL: Exp := Bin(NotEqual, Var, Num(1))

  /** isspace */
  predicate IsSpace(c: char) { c == ' ' || 9 <= c as int <= 13 }

  function SkipSpaces(s: string): string {
    if s != "" && IsSpace(s[0]) then SkipSpaces(s[1..]) else s
  }

  /** strtoul: a number that does not fit becomes ULONG_MAX. */
  function StrToUl(s: string): nat {
    Min(Digits(s, 0).0, ULONG_MOD - 1)
  }

  /** A rule with its number of forms. */
  datatype Rule = Rule(plural: Exp, nplurals: nat)

  const GERMANIC: Rule := Rule(GERMANIC_PLURAL, 2)

  /** The rule of a header: the number and the expression if both are there, or the Germanic rule. */
  function RuleOf(nullentry: Option<CString>): Rule {
    if nullentry.None? then GERMANIC
    else
      match (StrStr(nullentry.value, PLURAL), StrStr(nullentry.value, NPLURALS))
      case (Some(p), Some(n)) =>
        var number := SkipSpaces(nullentry.value[n + |NPLURALS|..]);
        var run := ParseText(nullentry.value[p + |PLURAL|..]);
        if number == "" || !IsDigit(number[0]) || run.status != Accepted || run.res.None? then GERMANIC
        else Rule(run.res.value, StrToUl(number))
      case _ => GERMANIC
  }

  /** The loop over isspace. */
  method SkipSpacesFrom(s: string, from: nat) returns (at: nat)
    requires from <= |s|
    ensures from <= at <= |s| && s[at..] == SkipSpaces(s[from..])
  {
    at := from;
    while at < |s| && IsSpace(s[at])
      invariant from <= at <= |s| && SkipSpaces(s[at..]) == SkipSpaces(s[from..])
    {
      assert s[at..][1..] == s[at + 1..];
      at := at + 1;
    }
  }

  /** EXTRACT_PLURAL_EXPRESSION */
  method ExtractPlural(nullentry: Option<CString>) returns (rule: Rule)
    ensures rule == RuleOf(nullentry)
  {
    hide StrStr, ParseText, SkipSpaces, Digits;
    rule := GERMANIC;
    if nullentry.Some? {
      var header := nullentry.value;
      var plural, nplurals := StrStr(header, PLURAL), StrStr(header, NPLURALS);
      if plural.None? || nplurals.None? {
        return;
      }
      var at := SkipSpacesFrom(header, nplurals.value + |NPLURALS|);
      if at == |header| || !IsDigit(header[at]) {
        return;
      }
      var n := StrToUl(header[at..]);
      var text := header[plural.value + |PLURAL|..];
      var code, res := YyParse(text);
      AcceptedHasResult(text);
      if code != 0 {
        return;
      }
      rule := Rule(res.value, n);
    }
  }

  lemma AcceptedHasResult(text: string)
    ensures var r := ParseText(text);
            (ResultCode(r.status) == 0 <==> r.status == Accepted) && (r.status == Accepted ==> r.res.Some?)
  {
    ParsesLanguage(text);
    hide ParseText;
  }

  /** A header that is written as the manual says is read as it is meant: the number, and the tree of the expression,
      whatever blanks there are, as long as the parser's stack is deep enough. */
  lemma ReadsHeader(header: CString, p: nat, n: nat, spaces: string, count: nat, rest: string, t: Cst, gaps: seq<string>,
                    end: string)
    requires StrStr(header, "plural=") == Some(p) && StrStr(header, "nplurals=") == Some(n)
    requires header[n + 9..] == spaces + (Decimal(count) + rest) && (rest == "" || !IsDigit(rest[0]))
    requires forall c <- spaces :: c as int in {9, 10, 11, 12, 13, 32}
    requires header[p + 7..] == Write(Tokens(t), gaps, end)
    requires WellPrec(t) && NumbersFit(Ast(t)) && (forall g <- gaps :: AllBlank(g)) && EndsExpression(end)
    requires 1 + Need(t) < YYMAXDEPTH && count < ULONG_MOD
    ensures RuleOf(Some(header)) == Rule(Ast(t), count)
  {
    assert PLURAL == "plural=" && NPLURALS == "nplurals=" && |PLURAL| == 7 && |NPLURALS| == 9;
    hide *;
    ParsesWritten(t, gaps, end);
    NumberRead(header[n + 9..], spaces, count, rest);
    RuleBy(header, p, n);
  }

  /** A header with both parts. */
  lemma RuleBy(header: CString, p: nat, n: nat)
    requires StrStr(header, PLURAL) == Some(p) && StrStr(header, NPLURALS) == Some(n)
    ensures var number := SkipSpaces(header[n + |NPLURALS|..]);
            var run := ParseText(header[p + |PLURAL|..]);
            number != "" && IsDigit(number[0]) && run.status == Accepted && run.res.Some? ==>
              RuleOf(Some(header)) == Rule(run.res.value, StrToUl(number))
  {
    hide StrStr, ParseText, SkipSpaces, Digits;
  }

  lemma NumberRead(number: string, spaces: string, count: nat, rest: string)
    requires number == spaces + (Decimal(count) + rest) && (rest == "" || !IsDigit(rest[0])) && count < ULONG_MOD
    requires forall c <- spaces :: c as int in {9, 10, 11, 12, 13, 32}
    ensures var s := SkipSpaces(number); s != "" && IsDigit(s[0]) && StrToUl(s) == count
  {
    assert Digits(rest, count) == (count, rest);
    hide Decimal, Digits, SkipSpaces;
    var text := Decimal(count) + rest;
    assert text[0] == Decimal(count)[0] && Decimal(count)[0] in Decimal(count);
    DigitNoSpace(text);
    SpacesSkipped(spaces, text);
    DecimalRead(count, rest);
  }

  lemma {:induction false} SpacesSkipped(spaces: string, s: string)
    requires forall c <- spaces :: c as int in {9, 10, 11, 12, 13, 32}
    ensures SkipSpaces(spaces + s) == SkipSpaces(s)
  {
    if spaces == "" {
      assert spaces + s == s;
    } else {
      assert spaces[0] in spaces && (spaces + s)[1..] == spaces[1..] + s;
      assert forall c <- spaces[1..] :: c in spaces;
      SpacesSkipped(spaces[1..], s);
    }
  }

  lemma DigitNoSpace(s: string)
    requires s != "" && IsDigit(s[0])
    ensures SkipSpaces(s) == s
  {
  }

  /** Without a rule, 1 takes the first form and every other number the second. */
  lemma GermanicForms(n: nat)
    ensures PluralEval(GERMANIC.plural, n) == Some(if n == 1 then 0 else 1)
  {
  }
}
