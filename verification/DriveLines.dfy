/** Which lines of the drive database are entries, and which entries a file of such lines is loaded as. */
module DriveLines {
  import opened Arithmetic
  import opened Chars
  import opened CStrings
  import opened Database
  import opened Wrappers

  // ---- How a line is written ----

  predicate Blanks(s: string) {
    forall c <- s :: IsBlank(c)
  }

  predicate AllDigits(s: string) {
    s != "" && forall c <- s :: IsDigit(c)
  }

  /** The text between two quotes: a backslash takes the character behind it along. */
  predicate Body(t: string) {
    t == "" || (if t[0] == '\\' then |t| > 1 && Body(t[2..]) else t[0] != '"' && Body(t[1..]))
  }

  /** The number that decimal digits stand for. */
  function NumberOf(digits: string): nat {
    if digits == "" then 0 else 10 * NumberOf(digits[..|digits| - 1]) + DigitValue(digits[|digits| - 1])
  }

  /** A line, piece by piece. */
  datatype Spelling = Spelling(indent: string, regexp: string, gap1: string, digits: string, gap2: string, unit: char,
                               gap3: string, description: string, rest: string)

  predicate SpellingOk(w: Spelling) {
    && Blanks(w.indent) && Blanks(w.gap1) && Blanks(w.gap2) && Blanks(w.gap3) && w.gap2 != "" && w.gap3 != ""
    && Body(w.regexp) && Body(w.description) && AllDigits(w.digits) && (w.unit == 'C' || w.unit == 'F')
  }

  function InQuotes(t: string): string {
    "\"" + (t + "\"")
  }

  function Spelled(w: Spelling): string {
    w.indent + (InQuotes(w.regexp)
                + (w.gap1 + (w.digits + (w.gap2 + ([w.unit] + (w.gap3 + (InQuotes(w.description) + w.rest)))))))
  }

  /** The number is stored as the one short that is congruent to it. */
  predicate StoredAs(n: nat, id: int) {
    -0x8000 <= id < 0x8000 && (n - id) % 0x1_0000 == 0
  }

  /** The line is a spelling of the entry. */
  ghost predicate Spells(line: string, e: Entry) {
    exists w: Spelling :: SpelledBy(line, e, w)
  }

  predicate SpelledBy(line: string, e: Entry, w: Spelling) {
    && SpellingOk(w) && line == Spelled(w) && e.regexp == w.regexp && e.description == w.description && e.unit == w.unit
    && StoredAs(NumberOf(w.digits), e.attributeId)
  }

  /** A blank line or a comment. */
  ghost predicate Silent(line: string) {
    exists k: nat :: k <= |line| && Blanks(line[..k]) && (k == |line| || line[k] == '#')
  }

  // ---- Pieces of a line ----

  lemma {:induction false} SkipsGap(gap: string, s: string)
    requires Blanks(gap) && (s == "" || !IsBlank(s[0]))
    ensures SkipBlanks(gap + s) == s
  {
    if gap == "" {
      assert gap + s == s;
    } else {
      assert gap[0] in gap && (gap + s)[1..] == gap[1..] + s;
      SkipsGap(gap[1..], s);
    }
  }

  lemma {:induction false} GapSkipped(s: string) returns (gap: string)
    ensures Blanks(gap) && s == gap + SkipBlanks(s) && (SkipBlanks(s) == "" || !IsBlank(SkipBlanks(s)[0]))
  {
    gap := "";
    if s != "" && IsBlank(s[0]) {
      var g := GapSkipped(s[1..]);
      gap := [s[0]] + g;
      assert s == [s[0]] + s[1..];
    }
  }

  /** The search for the closing quote goes through exactly such a text. */
  lemma {:induction false} BodyEnds(t: string, rest: string)
    requires Body(t)
    ensures StringEnd(t + "\"" + rest, 0) == Some(|t|)
  {
    var s := t + "\"" + rest;
    if t == "" {
      assert s[0] == '"';
    } else {
      var k := if t[0] == '\\' then 2 else 1;
      assert s[0] == t[0] && s[k..] == t[k..] + "\"" + rest;
      BodyEnds(t[k..], rest);
      EndShifts(s, k, 0);
    }
  }

  lemma {:induction false} EndShifts(s: string, k: nat, i: nat)
    requires k <= |s|
    ensures StringEnd(s, k + i) == match StringEnd(s[k..], i)
                                   case None => None
                                   case Some(e) => Some(k + e)
    decreases |s| - i
  {
    if k + i < |s| {
      assert s[k..][i] == s[k + i];
      EndShifts(s, k, i + if s[k + i] == '\\' then 2 else 1);
    }
  }

  lemma {:induction false} EndedBody(s: string)
    requires StringEnd(s, 0).Some?
    ensures Body(s[..StringEnd(s, 0).value])
  {
    var e := StringEnd(s, 0).value;
    if s[0] != '"' {
      var k := if s[0] == '\\' then 2 else 1;
      EndShifts(s, k, 0);
      EndedBody(s[k..]);
      assert s[..e][k..] == s[k..][..e - k];
    }
  }

  lemma QuotedExactly(s: string, t: string, rest: string)
    ensures Quoted(s) == Some((t, rest)) <==> s == InQuotes(t) + rest && Body(t)
  {
    hide StringEnd, Body;
    if s == InQuotes(t) + rest && Body(t) {
      assert s[1..] == t + "\"" + rest;
      BodyEnds(t, rest);
      EndShifts(s, 1, 0);
      assert s[1..|t| + 1] == t && s[|t| + 2..] == rest;
    }
    if s != "" && s[0] == '"' && StringEnd(s, 1).Some? {
      EndShifts(s, 1, 0);
      EndedBody(s[1..]);
      var e := StringEnd(s, 1).value;
      assert s[1..][..e - 1] == s[1..e];
      assert s == InQuotes(s[1..e]) + s[e + 1..];
    }
  }

  predicate Digits(s: string) {
    forall c <- s :: IsDigit(c)
  }

  lemma NextDigit(a: nat, d: nat)
    ensures (10 * (a % 0x1_0000) + d) % 0x1_0000 == (10 * a + d) % 0x1_0000
  {
    var k, r := a / 0x1_0000, a % 0x1_0000;
    assert 10 * a + d == (10 * r + d) + (10 * k) * 0x1_0000;
    RemainderOfSum(10 * r + d, 10 * k, 0x1_0000);
  }

  /** Reading digits gives their number, modulo the width of an unsigned short. */
  lemma {:induction false} ReadsDigits(digits: string, rest: string)
    requires Digits(digits)
    ensures Value(digits + rest, 0) == Value(rest, NumberOf(digits) % 0x1_0000)
    decreases digits
  {
    if digits == "" {
      assert digits + rest == rest;
    } else {
      var last := digits[|digits| - 1];
      assert last in digits;
      var init, tail := digits[..|digits| - 1], [last] + rest;
      assert digits + rest == init + tail && tail[1..] == rest;
      ReadsDigits(init, tail);
      NextDigit(NumberOf(init), DigitValue(last));
    }
  }

  lemma {:induction false} DigitsRead(s: string) returns (digits: string)
    ensures Digits(digits) && (forall v: nat :: s == digits + Value(s, v).1)
    ensures forall v: nat :: var rest := Value(s, v).1; rest == "" || !IsDigit(rest[0])
    decreases s
  {
    digits := "";
    if s != "" && IsDigit(s[0]) {
      var ds := DigitsRead(s[1..]);
      digits := [s[0]] + ds;
      forall v: nat ensures s == digits + Value(s, v).1 {
        var v' := (10 * v + (s[0] - '0') as int) % 0x1_0000;
        assert s[1..] == ds + Value(s[1..], v').1;
        assert s == [s[0]] + s[1..];
      }
    }
  }

  lemma StopsHere(rest: string, n: nat)
    requires rest == "" || !IsDigit(rest[0])
    ensures Value(rest, n) == (n, rest)
  {
  }

  /** The digits at the start of a text, their value and what follows. */
  lemma ValueRead(s: string) returns (digits: string)
    ensures var rest := Value(s, 0).1;
            && Digits(digits) && s == digits + rest && (rest == "" || !IsDigit(rest[0]))
            && Value(s, 0).0 == NumberOf(digits) % 0x1_0000
  {
    hide Value;
    digits := DigitsRead(s);
    var rest := Value(s, 0).1;
    ReadsDigits(digits, rest);
    StopsHere(rest, NumberOf(digits) % 0x1_0000);
  }

  /** The conversion to short keeps the number modulo 2^16. */
  lemma ShortExactly(n: nat, id: int)
    ensures ToShort(n % 0x1_0000) == id <==> StoredAs(n, id)
  {
    var r := ToShort(n % 0x1_0000);
    var q := n / 0x1_0000;
    assert n == 0x1_0000 * q + n % 0x1_0000;
    assert (n - r) % 0x1_0000 == 0;
    if StoredAs(n, id) {
      CloseMultiples(n - id, n - r, 0x1_0000);
    }
  }

  // ---- From the pieces to the line ----

  lemma DescriptionFrom(w: Spelling, value: nat)
    requires SpellingOk(w)
    ensures ParseDescription(w.gap3 + (InQuotes(w.description) + w.rest), w.regexp, value, w.unit)
            == Drive(Entry(w.regexp, ToShort(value), w.unit, w.description))
  {
    hide Quoted, SkipBlanks, Blanks, Body, AllDigits;
    var text := InQuotes(w.description) + w.rest;
    SkipsGap(w.gap3, text);
    QuotedExactly(text, w.description, w.rest);
  }

  lemma UnitFrom(w: Spelling, value: nat)
    requires SpellingOk(w)
    ensures ParseUnit(w.gap2 + ([w.unit] + (w.gap3 + (InQuotes(w.description) + w.rest))), w.regexp, value)
            == Drive(Entry(w.regexp, ToShort(value), w.unit, w.description))
  {
    assert IsBlank(w.gap3[0]) by { assert w.gap3[0] in w.gap3; }
    hide SkipBlanks, ParseDescription, InQuotes, Blanks, Body, AllDigits;
    var behind := w.gap3 + (InQuotes(w.description) + w.rest);
    var text := [w.unit] + behind;
    SkipsGap(w.gap2, text);
    assert text[1..] == behind && text[1] == w.gap3[0];
    DescriptionFrom(w, value);
  }

  lemma ValueFrom(w: Spelling)
    requires SpellingOk(w)
    ensures ParseValue(w.gap1 + (w.digits + (w.gap2 + ([w.unit] + (w.gap3 + (InQuotes(w.description) + w.rest))))),
                       w.regexp)
            == Drive(Entry(w.regexp, ToShort(NumberOf(w.digits) % 0x1_0000), w.unit, w.description))
  {
    assert IsBlank(w.gap2[0]) by { assert w.gap2[0] in w.gap2; }
    assert IsDigit(w.digits[0]) && Digits(w.digits) by { assert w.digits[0] in w.digits; }
    hide SkipBlanks, ParseUnit, InQuotes, Blanks, Body, AllDigits, Value, Digits;
    var behind := w.gap2 + ([w.unit] + (w.gap3 + (InQuotes(w.description) + w.rest)));
    var text := w.digits + behind;
    assert behind[0] == w.gap2[0] && text[0] == w.digits[0];
    SkipsGap(w.gap1, text);
    ReadsDigits(w.digits, behind);
    StopsHere(behind, NumberOf(w.digits) % 0x1_0000);
    UnitFrom(w, NumberOf(w.digits) % 0x1_0000);
  }

  lemma LineFrom(line: string, e: Entry, w: Spelling)
    requires SpelledBy(line, e, w)
    ensures ParseLine(line) == Drive(e)
  {
    hide SkipBlanks, ParseValue, Quoted, SpellingOk, ToShort, StoredAs;
    var behind := w.gap1 + (w.digits + (w.gap2 + ([w.unit] + (w.gap3 + (InQuotes(w.description) + w.rest)))));
    var text := InQuotes(w.regexp) + behind;
    assert text[0] == '"';
    PiecesOk(w);
    SkipsGap(w.indent, text);
    QuotedExactly(text, w.regexp, behind);
    ValueFrom(w);
    ShortExactly(NumberOf(w.digits), e.attributeId);
  }

  lemma PiecesOk(w: Spelling)
    requires SpellingOk(w)
    ensures Blanks(w.indent) && Body(w.regexp)
  {
  }

  // ---- From the line to the pieces ----

  lemma DescriptionRead(s: string, regexp: string, value: nat, unit: char, e: Entry)
    returns (gap: string, description: string, rest: string)
    requires ParseDescription(s, regexp, value, unit) == Drive(e)
    ensures Blanks(gap) && Body(description) && s == gap + (InQuotes(description) + rest)
    ensures e == Entry(regexp, ToShort(value), unit, description)
  {
    hide Quoted, SkipBlanks, Blanks, Body;
    gap := GapSkipped(s);
    description, rest := Quoted(SkipBlanks(s)).value.0, Quoted(SkipBlanks(s)).value.1;
    QuotedExactly(SkipBlanks(s), description, rest);
  }

  lemma GapBefore(gap: string, s: string)
    requires s != "" && !IsBlank(s[0])
    ensures IsBlank((gap + s)[0]) ==> gap != ""
  {
  }

  lemma UnitRead(s: string, regexp: string, value: nat, e: Entry)
    returns (gap2: string, gap3: string, description: string, rest: string)
    requires ParseUnit(s, regexp, value) == Drive(e)
    ensures Blanks(gap2) && Blanks(gap3) && gap3 != "" && Body(description) && (e.unit == 'C' || e.unit == 'F')
    ensures s == gap2 + ([e.unit] + (gap3 + (InQuotes(description) + rest)))
    ensures e == Entry(regexp, ToShort(value), e.unit, description)
  {
    hide SkipBlanks, Blanks, Body, ParseDescription;
    gap2 := GapSkipped(s);
    var t := SkipBlanks(s);
    gap3, description, rest := DescriptionRead(t[1..], regexp, value, t[0], e);
    assert t[1] == t[1..][0];
    GapBefore(gap3, InQuotes(description) + rest);
    assert t == [t[0]] + t[1..];
  }

  lemma FieldsRead(s: string, regexp: string, e: Entry)
    returns (gap1: string, digits: string, gap2: string, gap3: string, description: string, rest: string)
    requires ParseValue(s, regexp) == Drive(e)
    ensures Blanks(gap1) && AllDigits(digits) && Blanks(gap2) && gap2 != "" && Blanks(gap3) && gap3 != ""
    ensures Body(description) && (e.unit == 'C' || e.unit == 'F')
    ensures s == gap1 + (digits + (gap2 + ([e.unit] + (gap3 + (InQuotes(description) + rest)))))
    ensures e == Entry(regexp, ToShort(NumberOf(digits) % 0x1_0000), e.unit, description)
  {
    hide SkipBlanks, Blanks, Body, ParseUnit, Value, InQuotes, ToShort, NumberOf;
    gap1 := GapSkipped(s);
    var t := SkipBlanks(s);
    digits := ValueRead(t);
    var behind := Value(t, 0).1;
    gap2, gap3, description, rest := UnitRead(behind, regexp, NumberOf(digits) % 0x1_0000, e);
    GapBefore(gap2, [e.unit] + (gap3 + (InQuotes(description) + rest)));
    NotBlankFirst(digits, behind);
  }

  lemma NotBlankFirst(digits: string, behind: string)
    requires Digits(digits) && behind != "" && IsBlank(behind[0])
    ensures digits + behind != "" && (!IsBlank((digits + behind)[0]) ==> AllDigits(digits))
  {
  }

  lemma LineRead(line: string, e: Entry) returns (w: Spelling)
    requires ParseLine(line) == Drive(e)
    ensures SpelledBy(line, e, w)
  {
    hide SkipBlanks, Blanks, Body, ParseValue, Quoted, ToShort, StoredAs, AllDigits, NumberOf;
    var indent := GapSkipped(line);
    var t := SkipBlanks(line);
    var regexp, behind := Quoted(t).value.0, Quoted(t).value.1;
    QuotedExactly(t, regexp, behind);
    var gap1, digits, gap2, gap3, description, rest := FieldsRead(behind, regexp, e);
    ShortExactly(NumberOf(digits), e.attributeId);
    w := Spelling(indent, regexp, gap1, digits, gap2, e.unit, gap3, description, rest);
  }

  // ---- Every line ----

  /** A line is an entry exactly if it is a spelling of it. */
  lemma DriveExactly(line: string, e: Entry)
    ensures ParseLine(line) == Drive(e) <==> Spells(line, e)
  {
    hide ParseLine, SpelledBy;
    if ParseLine(line) == Drive(e) {
      var w := LineRead(line, e);
    }
    if Spells(line, e) {
      var w :| SpelledBy(line, e, w);
      LineFrom(line, e, w);
    }
  }

  /** A line counts for nothing exactly if it is blank or a comment; all others are syntax errors. */
  lemma NothingExactly(line: string)
    ensures ParseLine(line) == Nothing <==> Silent(line)
  {
    hide SkipBlanks, Quoted, ParseValue, Blanks;
    var gap := GapSkipped(line);
    assert line[..|gap|] == gap;
    if Silent(line) {
      var k: nat :| k <= |line| && Blanks(line[..k]) && (k == |line| || line[k] == '#');
      assert line == line[..k] + line[k..];
      SkipsGap(line[..k], line[k..]);
    }
  }

  // ---- Every file ----

  /** The lines, each with its newline, and text behind the last newline. */
  function FileText(lines: seq<string>, tail: string): string {
    if lines == [] then tail else lines[0] + ("\n" + FileText(lines[1..], tail))
  }

  /** The lines spell these entries in this order, with blank lines and comments anywhere. */
  ghost predicate Lists(lines: seq<string>, es: seq<Entry>)
    decreases lines
  {
    if lines == [] then es == []
    else
      || (Silent(CStr(lines[0])) && Lists(lines[1..], es))
      || (es != [] && Spells(CStr(lines[0]), es[0]) && Lists(lines[1..], es[1..]))
  }

  predicate AreLines(lines: seq<string>, tail: string) {
    (forall l <- lines :: '\n' !in l) && '\n' !in tail
  }

  lemma LineAhead(before: string, line: string, rest: string)
    requires '\n' !in line
    ensures var f := before + (line + ("\n" + rest));
            NextNewline(f, |before|) == |before| + |line| && f[|before|..|before| + |line|] == line
  {
    var f, e := before + (line + ("\n" + rest)), |before| + |line|;
    Inside(before, line, "\n" + rest);
    assert f[e] == (line + ("\n" + rest))[|line|] == '\n';
    hide NextNewline;
    FoundNewline(f, |before|, e);
  }

  lemma Inside(a: string, b: string, c: string)
    ensures (a + (b + c))[|a|..|a| + |b|] == b
  {
    assert (a + (b + c))[|a|..] == b + c;
    SliceOfSlice(a + (b + c), |a|, |a + (b + c)|, 0, |b|);
    assert (a + (b + c))[|a|..|a + (b + c)|] == (a + (b + c))[|a|..];
  }

  lemma NoLineAhead(before: string, tail: string)
    requires '\n' !in tail
    ensures NextNewline(before + tail, |before|) == |before + tail|
  {
    var f := before + tail;
    assert f[|before|..|f|] == tail;
    FoundNewline(f, |before|, |f|);
  }

  /** One line of a file. */
  lemma OneLine(before: string, line: string, rest: string, sofar: seq<Entry>, numline: nat)
    requires '\n' !in line
    ensures var next := before + (line + "\n");
            LoadFrom(before + (line + ("\n" + rest)), |before|, sofar, numline)
            == if ParseLine(CStr(line)).SyntaxError? then BadLine(numline + 1)
               else LoadFrom(next + rest, |next|, Extended(sofar, ParseLine(CStr(line))), numline + 1)
  {
    hide ParseLine, CStr, NextNewline, Extended;
    LineAhead(before, line, rest);
    Regroup(before, line, rest);
  }

  lemma Regroup(before: string, line: string, rest: string)
    ensures before + (line + "\n") + rest == before + (line + ("\n" + rest))
  {
  }

  lemma TextStep(lines: seq<string>, tail: string)
    requires lines != []
    ensures FileText(lines, tail) == lines[0] + ("\n" + FileText(lines[1..], tail))
    ensures AreLines(lines, tail) ==> '\n' !in lines[0] && AreLines(lines[1..], tail)
  {
  }

  /** What the first line contributes. */
  lemma FirstListed(lines: seq<string>, es: seq<Entry>) returns (here: seq<Entry>, others: seq<Entry>)
    requires lines != [] && Lists(lines, es)
    ensures es == here + others && Lists(lines[1..], others)
    ensures var r := ParseLine(CStr(lines[0]));
            !r.SyntaxError? && forall sofar :: Extended(sofar, r) == sofar + here
  {
    hide ParseLine, CStr, Spells, Silent;
    NothingExactly(CStr(lines[0]));
    if Silent(CStr(lines[0])) && Lists(lines[1..], es) {
      here, others := [], es;
    } else {
      DriveExactly(CStr(lines[0]), es[0]);
      here, others := [es[0]], es[1..];
    }
  }

  /** A file is loaded as the entries that its lines spell, in the order of the lines. */
  lemma {:induction false} LoadsFrom(before: string, lines: seq<string>, tail: string, es: seq<Entry>, sofar: seq<Entry>,
                                     numline: nat)
    requires AreLines(lines, tail) && Lists(lines, es)
    ensures LoadFrom(before + FileText(lines, tail), |before|, sofar, numline) == Loaded(sofar + es)
    decreases lines
  {
    hide *;
    if lines == [] {
      NoLines(before, tail, es, sofar, numline);
    } else {
      TextStep(lines, tail);
      OneLine(before, lines[0], FileText(lines[1..], tail), sofar, numline);
      var here, others := FirstListed(lines, es);
      LoadsFrom(before + (lines[0] + "\n"), lines[1..], tail, others, sofar + here, numline + 1);
      assert sofar + here + others == sofar + es;
    }
  }

  lemma NoLines(before: string, tail: string, es: seq<Entry>, sofar: seq<Entry>, numline: nat)
    requires AreLines([], tail) && Lists([], es)
    ensures LoadFrom(before + FileText([], tail), |before|, sofar, numline) == Loaded(sofar + es)
  {
    NoLineAhead(before, tail);
    assert sofar + es == sofar;
  }

  lemma BadHere(before: string, bad: string, rest: string, sofar: seq<Entry>, numline: nat)
    requires '\n' !in bad && !Silent(CStr(bad)) && forall e :: !Spells(CStr(bad), e)
    ensures LoadFrom(before + FileText([], bad + ("\n" + rest)), |before|, sofar, numline) == BadLine(numline + 1)
  {
    assert FileText([], bad + ("\n" + rest)) == bad + ("\n" + rest);
    hide ParseLine, CStr, LoadFrom, Spells, Silent;
    OneLine(before, bad, rest, sofar, numline);
    NothingExactly(CStr(bad));
    if ParseLine(CStr(bad)).Drive? {
      DriveExactly(CStr(bad), ParseLine(CStr(bad)).entry);
    }
  }

  /** The first line that spells nothing ends the loading, and is reported by its number. */
  lemma {:induction false} StopsAt(before: string, lines: seq<string>, bad: string, rest: string, es: seq<Entry>,
                                   sofar: seq<Entry>, numline: nat)
    requires (forall l <- lines :: '\n' !in l) && '\n' !in bad && Lists(lines, es)
    requires !Silent(CStr(bad)) && forall e :: !Spells(CStr(bad), e)
    ensures LoadFrom(before + FileText(lines, bad + ("\n" + rest)), |before|, sofar, numline)
            == BadLine(numline + |lines| + 1)
    decreases lines
  {
    hide *;
    var tail := bad + ("\n" + rest);
    if lines == [] {
      BadHere(before, bad, rest, sofar, numline);
    } else {
      assert lines[0] in lines;
      TextStep(lines, tail);
      OneLine(before, lines[0], FileText(lines[1..], tail), sofar, numline);
      var here, others := FirstListed(lines, es);
      StopsAt(before + (lines[0] + "\n"), lines[1..], bad, rest, others, sofar + here, numline + 1);
    }
  }

  // ---- The searches for quotes stay inside ----

  lemma {:induction false} EndIsSafe(t: string, i: nat)
    requires StringEnd(t, i).Some?
    ensures !Overruns(t, i)
    decreases |t| - i
  {
    if t[i] != '"' { EndIsSafe(t, i + if t[i] == '\\' then 2 else 1); }
  }

  lemma QuotedIsSafe(t: string)
    requires Quoted(t).Some?
    ensures QuotedSafe(t)
  {
    EndIsSafe(t, 1);
  }

  lemma ParsedIsSafe(line: string)
    requires ParseLine(line) != SyntaxError
    ensures LineSafe(line)
  {
    hide SkipBlanks, Quoted, Value, QuotedSafe;
    var t := SkipBlanks(line);
    if !(t == "" || t[0] == '#') {
      QuotedIsSafe(t);
      var behind := Quoted(t).value.1;
      var rest := Value(SkipBlanks(behind), 0).1;
      var u := SkipBlanks(rest);
      QuotedIsSafe(SkipBlanks(u[1..]));
    }
  }

  lemma {:induction false} ListedIsOk(before: string, lines: seq<string>, tail: string, es: seq<Entry>)
    requires AreLines(lines, tail) && Lists(lines, es)
    ensures LinesOk(before + FileText(lines, tail), |before|)
    decreases lines
  {
    hide ParseLine, CStr, NextNewline, Spells, Silent, LineSafe;
    if lines == [] {
      NoLineAhead(before, tail);
    } else {
      var line, rest := lines[0], FileText(lines[1..], tail);
      LineAhead(before, line, rest);
      var next := before + (line + "\n");
      assert next + rest == before + (line + ("\n" + rest));
      NothingExactly(CStr(line));
      if Silent(CStr(line)) && Lists(lines[1..], es) {
        ListedIsOk(next, lines[1..], tail, es);
      } else {
        DriveExactly(CStr(line), es[0]);
        ListedIsOk(next, lines[1..], tail, es[1..]);
      }
      ParsedIsSafe(CStr(line));
    }
  }

  // ---- Loading ----

  /** Loading gives the entries of the file in order, whatever the sizes of the reads, unless a chunk starves. */
  method LoadListed(lines: seq<string>, tail: string, ghost es: seq<Entry>, sizes: nat -> nat, db: Drives)
    returns (r: Outcome)
    requires AreLines(lines, tail) && Lists(lines, es) && db.entries == []
    modifies db
    ensures if Starves(FileText(lines, tail), sizes) then r == LineTooLong else r == Loaded(es) && db.entries == es
  {
    hide *;
    ghost var f := FileText(lines, tail);
    WholeFile(lines, tail, es);
    r := LoadDatabase(FileText(lines, tail), sizes, db);
  }

  lemma WholeFile(lines: seq<string>, tail: string, es: seq<Entry>)
    requires AreLines(lines, tail) && Lists(lines, es)
    ensures var f := FileText(lines, tail); LinesOk(f, 0) && LoadFrom(f, 0, [], 0) == Loaded(es)
  {
    hide AreLines, Lists, LinesOk, LoadFrom;
    var f := FileText(lines, tail);
    assert "" + f == f && [] + es == es;
    ListedIsOk("", lines, tail, es);
    LoadsFrom("", lines, tail, es, [], 0);
  }

  /** What Write writes for an entry is a spelling of it. */
  lemma WriteSpells(e: Entry)
    requires Quotable(e.regexp) && Quotable(e.description) && 0 <= e.attributeId < 0x8000
    requires e.unit == 'C' || e.unit == 'F'
    ensures Spells(Write(e), e)
  {
    ParsesWritten(e);
    DriveExactly(Write(e), e);
  }

  // ---- Where a search would leave the line ----

  /** Exactly such texts can stand between quotes. */
  lemma QuotableIsBody(t: string)
    ensures Quotable(t) <==> Body(t)
  {
    assert t + "\"" + "" == t + "\"";
    if Body(t) { BodyEnds(t, ""); }
    if Quotable(t) {
      EndedBody(t + "\"");
      assert (t + "\"")[..|t|] == t;
    }
  }

  predicate EndsInBackslash(s: string) {
    s != "" && s[|s| - 1] == '\\'
  }

  lemma {:induction false} OverrunEnds(t: string, i: nat)
    requires Overruns(t, i)
    ensures EndsInBackslash(t)
    decreases |t| - i
  {
    if t[i] != '\\' {
      OverrunEnds(t, i + 1);
    } else if i + 1 < |t| {
      OverrunEnds(t, i + 2);
    }
  }

  /** A line in which the search for a closing quote would step over the NUL ends in a backslash. */
  lemma UnsafeEnds(line: string)
    ensures LineSafe(line) || EndsInBackslash(line)
  {
    hide SkipBlanks, Quoted, Value, Overruns;
    var t := SkipBlanks(line);
    var gap := GapSkipped(line);
    if Overruns(t, 1) { OverrunEnds(t, 1); }
    if Quoted(t).Some? {
      var behind := Quoted(t).value.1;
      QuotedExactly(t, Quoted(t).value.0, behind);
      var gap1 := GapSkipped(behind);
      var digits := ValueRead(SkipBlanks(behind));
      var rest := Value(SkipBlanks(behind), 0).1;
      var gap2 := GapSkipped(rest);
      var u := SkipBlanks(rest);
      if |u| >= 2 {
        var gap3 := GapSkipped(u[1..]);
        var d := SkipBlanks(u[1..]);
        if Overruns(d, 1) { OverrunEnds(d, 1); }
      }
    }
  }
}
