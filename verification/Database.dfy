/** The drive database: src/db.c reads it in chunks and parses it line by line. */
module Database {
  import opened Chars
  import opened CStrings
  import opened Wrappers

  /** struct harddrive_entry without its link. */
  datatype Entry = Entry(regexp: string, attributeId: int, unit: char, description: string)

  // ---- One line ----

  /** line += strspn(line, " \t") */
  function SkipBlanks(s: string): (r: string)
    ensures |r| <= |s| && ('\0' !in s ==> '\0' !in r)
  {
    if s != "" && IsBlank(s[0]) then SkipBlanks(s[1..]) else s
  }

  /** Where the quoted string ends: at the first quote from i on that no backslash precedes. */
  function StringEnd(s: string, i: nat): (e: Option<nat>)
    ensures e.Some? ==> i <= e.value < |s| && s[e.value] == '"'
    decreases |s| - i
  {
    if i >= |s| then None
    else if s[i] == '"' then Some(i)
    else if s[i] == '\\' then StringEnd(s, i + 2)
    else StringEnd(s, i + 1)
  }

  /** A quoted string at the start of a text, and what follows it. */
  function Quoted(s: string): Option<(string, string)> {
    if s == "" || s[0] != '"' then None
    else
      match StringEnd(s, 1)
      case None => None
      case Some(e) => Some((s[1..e], s[e + 1..]))
  }

  /** The digits at the start, as an unsigned short, and what follows them. */
  function Value(s: string, value: nat): (nat, string) {
    if s == "" || !IsDigit(s[0]) then (value, s)
    else Value(s[1..], (10 * value + (s[0] - '0') as int) % 0x1_0000)
  }

  /** The conversion from unsigned short to short. */
  function ToShort(value: nat): int {
    if value % 0x1_0000 >= 0x8000 then value % 0x1_0000 - 0x1_0000 else value % 0x1_0000
  }

  datatype Line = Nothing | Drive(entry: Entry) | SyntaxError

  function ParseDescription(s: string, regexp: string, value: nat, unit: char): (r: Line)
    ensures r != Nothing
  {
    match Quoted(SkipBlanks(s))
    case None => SyntaxError
    case Some((description, _)) => Drive(Entry(regexp, ToShort(value), unit, description))
  }

  function ParseUnit(s: string, regexp: string, value: nat): (r: Line)
    ensures r != Nothing
  {
    var t := SkipBlanks(s);
    if |t| < 2 || (t[0] != 'C' && t[0] != 'F') || !IsBlank(t[1]) then SyntaxError
    else ParseDescription(t[1..], regexp, value, t[0])
  }

  function ParseValue(s: string, regexp: string): (r: Line)
    ensures r != Nothing
  {
    var (value, rest) := Value(SkipBlanks(s), 0);
    if rest == "" || !IsBlank(rest[0]) then SyntaxError
    else ParseUnit(rest, regexp, value)
  }

  /** A line: blank or a comment, or a regular expression, a value, a unit and a description. */
  function ParseLine(s: string): Line {
    var t := SkipBlanks(s);
    if t == "" || t[0] == '#' then Nothing
    else match Quoted(t)
         case None => SyntaxError
         case Some((regexp, rest)) => ParseValue(rest, regexp)
  }

  /** The list after a line. */
  function Extended(entries: seq<Entry>, r: Line): seq<Entry> {
    if r.Drive? then entries + [r.entry] else entries
  }

  // ---- In the buffer ----

  /** The C string t stands at a position of the buffer. */
  predicate Stands(buff: seq<char>, at: nat, t: CString) {
    at + |t| < |buff| && buff[at..at + |t|] == t && buff[at + |t|] == '\0'
  }

  /** The search for the closing quote comes to a backslash that is the last character: extract_string
      steps over the NUL there. */
  predicate Overruns(t: string, i: nat)
    decreases |t| - i
  {
    i < |t| && t[i] != '"' && if t[i] == '\\' then i + 1 == |t| || Overruns(t, i + 2) else Overruns(t, i + 1)
  }

  predicate QuotedSafe(t: string) {
    t == "" || t[0] != '"' || !Overruns(t, 1)
  }

  predicate DescriptionSafe(t: string) {
    QuotedSafe(SkipBlanks(t))
  }

  predicate UnitSafe(t: string) {
    var u := SkipBlanks(t);
    |u| < 2 || (u[0] != 'C' && u[0] != 'F') || !IsBlank(u[1]) || DescriptionSafe(u[1..])
  }

  predicate ValueSafe(t: string) {
    var rest := Value(SkipBlanks(t), 0).1;
    rest == "" || !IsBlank(rest[0]) || UnitSafe(rest)
  }

  /** No search for a quote in this line steps over its NUL. */
  predicate LineSafe(t: string) {
    var u := SkipBlanks(t);
    u == "" || u[0] == '#' || (QuotedSafe(u) && (Quoted(u).Some? ==> ValueSafe(Quoted(u).value.1)))
  }

  /** Part of a line is a line. */
  lemma StandsLater(buff: seq<char>, at: nat, t: CString, k: nat)
    requires Stands(buff, at, t) && k <= |t|
    ensures Stands(buff, at + k, t[k..])
  {
    assert buff[at + k..at + |t|] == buff[at..at + |t|][k..];
  }

  lemma FirstChar(buff: seq<char>, at: nat, t: CString)
    requires Stands(buff, at, t)
    ensures at < |buff| && buff[at] == if t == "" then '\0' else t[0]
  {
    if t != "" { assert buff[at] == buff[at..at + |t|][0]; }
  }

  lemma SkipStep(t: string, k: nat)
    requires k <= |t|
    ensures SkipBlanks(t[k..]) == if k < |t| && IsBlank(t[k]) then SkipBlanks(t[k + 1..]) else t[k..]
  {
    if k < |t| { assert t[k..][1..] == t[k + 1..]; }
  }

  lemma CharAt(buff: seq<char>, at: nat, t: CString, k: nat)
    requires Stands(buff, at, t) && k <= |t|
    ensures at + k < |buff| && buff[at + k] == if k < |t| then t[k] else '\0'
  {
    StandsLater(buff, at, t, k);
    FirstChar(buff, at + k, t[k..]);
  }

  /** strspn */
  method SkipBlanksAt(buff: array<char>, at: nat, ghost t: CString) returns (line: nat)
    requires Stands(buff[..], at, t)
    ensures line + |SkipBlanks(t)| == at + |t| && Stands(buff[..], line, SkipBlanks(t))
  {
    hide SkipBlanks, Stands;
    line := at;
    ghost var k: nat := 0;
    assert t[0..] == t;
    CharAt(buff[..], at, t, 0);
    while IsBlank(buff[line])
      invariant k <= |t| && line == at + k < buff.Length && SkipBlanks(t[k..]) == SkipBlanks(t)
      invariant buff[line] == if k < |t| then t[k] else '\0'
      decreases |t| - k
    {
      SkipStep(t, k);
      line, k := line + 1, k + 1;
      CharAt(buff[..], at, t, k);
    }
    SkipStep(t, k);
    StandsLater(buff[..], at, t, k);
  }

  /** extract_string: steps over the opening quote, and finds the closing one. */
  method ExtractString(buff: array<char>, line: nat, ghost t: CString) returns (line': nat, end: Option<nat>)
    requires Stands(buff[..], line, t) && QuotedSafe(t)
    ensures end.None? <==> Quoted(t).None?
    ensures end.Some? ==> t[0] == '"' && StringEnd(t, 1).Some? && line' == line + 1
                          && end.value == line + StringEnd(t, 1).value
  {
    line', end := line, None;
    FirstChar(buff[..], line, t);
    if buff[line] != '"' {
      return;
    }
    line' := line + 1;
    var str := line';
    ghost var k: nat := 1;
    CharAt(buff[..], line, t, k);
    while buff[str] != '\0'
      invariant k <= |t| && str == line + k && StringEnd(t, k) == StringEnd(t, 1) && !Overruns(t, k)
      invariant buff[str] == if k < |t| then t[k] else '\0'
      decreases |t| - k
    {
      if buff[str] == '"' {
        return line', Some(str);
      }
      ghost var step := if t[k] == '\\' then 2 else 1;
      if buff[str] == '\\' {
        str := str + 1;
      }
      str := str + 1;
      k := k + step;
      CharAt(buff[..], line, t, k);
    }
  }

  /** The loop over the digits of the value. */
  method ReadValue(buff: array<char>, at: nat, ghost t: CString) returns (value: nat, p: nat)
    requires Stands(buff[..], at, t)
    ensures var rest := Value(t, 0).1;
            && value == Value(t, 0).0 && |rest| <= |t| && p + |rest| == at + |t| && rest == t[|t| - |rest|..]
            && Stands(buff[..], p, rest)
  {
    hide Value, Stands;
    p, value := at, 0;
    ghost var k: nat := 0;
    assert t[0..] == t;
    CharAt(buff[..], at, t, 0);
    while IsDigit(buff[p])
      invariant k <= |t| && p == at + k < buff.Length && Value(t[k..], value) == Value(t, 0)
      invariant buff[p] == if k < |t| then t[k] else '\0'
      decreases |t| - k
    {
      ValueStep(t, k, value);
      value := (10 * value + (buff[p] - '0') as int) % 0x1_0000;
      p, k := p + 1, k + 1;
      CharAt(buff[..], at, t, k);
    }
    ValueStep(t, k, value);
    StandsLater(buff[..], at, t, k);
  }

  lemma ValueStep(t: string, k: nat, value: nat)
    requires k <= |t|
    ensures Value(t[k..], value)
            == if k < |t| && IsDigit(t[k]) then Value(t[k + 1..], (10 * value + (t[k] - '0') as int) % 0x1_0000)
               else (value, t[k..])
  {
    if k < |t| { assert t[k..][1..] == t[k + 1..]; }
  }

  /** The line from `line` to its NUL may have changed, and nothing else. */
  predicate Framed(was: seq<char>, now: seq<char>, line: nat, t: string) {
    && |was| == |now| && line + |t| <= |was|
    && now[..line] == was[..line] && now[line + |t|..] == was[line + |t|..]
  }

  lemma FramedLater(was: seq<char>, now: seq<char>, line: nat, t: string, line': nat, t': string)
    requires Framed(was, now, line', t') && line <= line' && line' + |t'| == line + |t|
    ensures Framed(was, now, line, t)
  {
    assert now[..line] == now[..line'][..line] && was[..line] == was[..line'][..line];
  }

  /** extract_string, and the NUL that the caller puts in place of the closing quote. */
  method CutString(buff: array<char>, line: nat, ghost t: CString) returns (text: Option<string>, next: nat)
    requires Stands(buff[..], line, t) && QuotedSafe(t)
    modifies buff
    ensures Framed(old(buff[..]), buff[..], line, t)
    ensures match Quoted(t)
            case None => text.None?
            case Some((q, rest)) =>
              && text == Some(q) && '\0' !in rest && line + |t| == next + |rest| && line < next
              && Stands(buff[..], next, rest)
  {
    var start, end := ExtractString(buff, line, t);
    text, next := None, line;
    if end.None? {
      return;
    }
    ghost var e := StringEnd(t, 1).value;
    ghost var was := buff[..];
    StandsLater(was, line, t, 1);
    StandsLater(was, line, t, e + 1);
    buff[end.value] := '\0';
    next := end.value + 1;
    QuotedText(was, buff[..], line, t, e);
    text := Some(CStr(buff[start..]));
  }

  lemma QuotedText(was: seq<char>, now: seq<char>, line: nat, t: CString, e: nat)
    requires Stands(was, line, t) && 0 < e < |t| && now == was[line + e := '\0'] && Stands(was, line + e + 1, t[e + 1..])
    ensures CStr(now[line + 1..]) == t[1..e] && Stands(now, line + e + 1, t[e + 1..]) && Framed(was, now, line, t)
  {
    QuotedRead(was, now, line, t, e);
    RestStands(was, now, line, t, e);
    QuoteFramed(was, now, line, t, e);
    hide *;
  }

  /** The NUL in place of the closing quote ends the string. */
  lemma QuotedRead(was: seq<char>, now: seq<char>, line: nat, t: CString, e: nat)
    requires Stands(was, line, t) && 0 < e < |t| && now == was[line + e := '\0']
    ensures CStr(now[line + 1..]) == t[1..e]
  {
    hide CStr;
    SliceOfSlice(was, line, line + |t|, 1, e);
    SliceOutside(was, line + e, '\0', line + 1, line + e);
    SplitSlice(now, line + 1, line + e);
    hide Stands;
    CStrOfPrefix(t[1..e], now[line + e..]);
  }

  lemma RestStands(was: seq<char>, now: seq<char>, line: nat, t: CString, e: nat)
    requires 0 < e < |t| && line + e < |was| && now == was[line + e := '\0'] && Stands(was, line + e + 1, t[e + 1..])
    ensures Stands(now, line + e + 1, t[e + 1..])
  {
    SliceOutside(was, line + e, '\0', line + e + 1, line + |t|);
  }

  lemma QuoteFramed(was: seq<char>, now: seq<char>, line: nat, t: CString, e: nat)
    requires Stands(was, line, t) && 0 < e < |t| && now == was[line + e := '\0']
    ensures Framed(was, now, line, t)
  {
    SliceOutside(was, line + e, '\0', 0, line);
    SliceOutside(was, line + e, '\0', line + |t|, |was|);
  }

  method DescriptionAt(buff: array<char>, at: nat, ghost t: CString, regexp: string, value: nat, unit: char)
    returns (r: Line)
    requires Stands(buff[..], at, t) && DescriptionSafe(t)
    modifies buff
    ensures Framed(old(buff[..]), buff[..], at, t) && r == ParseDescription(t, regexp, value, unit)
  {
    hide Framed, Stands, Quoted, QuotedSafe, SkipBlanks;
    ghost var was := buff[..];
    var line := SkipBlanksAt(buff, at, t);
    ghost var u: CString := SkipBlanks(t);
    NoQuote();
    FirstChar(buff[..], line, u);
    Unchanged(was, at, t);
    if buff[line] == '\0' {
      return SyntaxError;
    }
    var description, next := CutString(buff, line, u);
    FramedLater(was, buff[..], at, t, line, u);
    r := if description.None? then SyntaxError else Drive(Entry(regexp, ToShort(value), unit, description.value));
  }

  lemma NoQuote()
    ensures Quoted("").None?
  {
  }

  lemma Unchanged(was: seq<char>, at: nat, t: CString)
    requires Stands(was, at, t)
    ensures Framed(was, was, at, t)
  {
  }

  method UnitAt(buff: array<char>, at: nat, ghost t: CString, regexp: string, value: nat) returns (r: Line)
    requires Stands(buff[..], at, t) && UnitSafe(t)
    modifies buff
    ensures Framed(old(buff[..]), buff[..], at, t) && r == ParseUnit(t, regexp, value)
  {
    hide Framed, Stands, Quoted, QuotedSafe, SkipBlanks, ParseDescription;
    ghost var was := buff[..];
    var line := SkipBlanksAt(buff, at, t);
    ghost var u: CString := SkipBlanks(t);
    FirstChar(was, line, u);
    Unchanged(was, at, t);
    if buff[line] == '\0' {
      return SyntaxError;
    }
    CharAt(was, line, u, 1);
    if (buff[line] != 'C' && buff[line] != 'F') || !IsBlank(buff[line + 1]) {
      return SyntaxError;
    }
    StandsLater(was, line, u, 1);
    r := DescriptionAt(buff, line + 1, u[1..], regexp, value, buff[line]);
    FramedLater(was, buff[..], at, t, line + 1, u[1..]);
  }

  method ValueAt(buff: array<char>, at: nat, ghost t: CString, regexp: string) returns (r: Line)
    requires Stands(buff[..], at, t) && ValueSafe(t)
    modifies buff
    ensures Framed(old(buff[..]), buff[..], at, t) && r == ParseValue(t, regexp)
  {
    hide Framed, Stands, Quoted, QuotedSafe, SkipBlanks, ParseUnit;
    ghost var was := buff[..];
    var line := SkipBlanksAt(buff, at, t);
    ghost var u: CString := SkipBlanks(t);
    FirstChar(was, line, u);
    Unchanged(was, at, t);
    NoValue();
    if buff[line] == '\0' {
      return SyntaxError;
    }
    var value, p := ReadValue(buff, line, u);
    ghost var rest: CString := Value(u, 0).1;
    FirstChar(was, p, rest);
    if buff[p] == '\0' || !IsBlank(buff[p]) {
      return SyntaxError;
    }
    r := UnitAt(buff, p, rest, regexp, value);
    FramedLater(was, buff[..], at, t, p, rest);
  }

  lemma NoValue()
    ensures Value("", 0) == (0, "")
  {
  }

  /** The database: the list that lines are appended to. */
  class Drives {
    var entries: seq<Entry>

    constructor ()
      ensures entries == []
    {
      entries := [];
    }

    /** parse_db_line: 1 for a syntax error, and otherwise 0 with the line's entry appended. */
    method ParseDbLine(buff: array<char>, at: nat, ghost t: CString) returns (code: int)
      requires Stands(buff[..], at, t) && LineSafe(t)
      modifies this, buff
      ensures Framed(old(buff[..]), buff[..], at, t)
      ensures code == (if ParseLine(t).SyntaxError? then 1 else 0)
      ensures entries == Extended(old(entries), ParseLine(t))
    {
      hide Framed, Stands, QuotedSafe, SkipBlanks, ParseValue;
      ghost var was := buff[..];
      var line := SkipBlanksAt(buff, at, t);
      ghost var u: CString := SkipBlanks(t);
      FirstChar(was, line, u);
      Unchanged(was, at, t);
      if buff[line] == '#' || buff[line] == '\0' {
        return 0;
      }
      var regexp, next := CutString(buff, line, u);
      ghost var cut := buff[..];
      if regexp.None? {
        FramedLater(was, cut, at, t, line, u);
        return 1;
      }
      ghost var rest: CString := Quoted(u).value.1;
      hide Quoted;
      var r := ValueAt(buff, next, rest, regexp.value);
      FramedLater(cut, buff[..], line, u, next, rest);
      FramedTwice(was, cut, buff[..], line, u);
      FramedLater(was, buff[..], at, t, line, u);
      if r.SyntaxError? {
        return 1;
      }
      entries := entries + [r.entry];
      code := 0;
    }
  }

  lemma FramedTwice(a: seq<char>, b: seq<char>, c: seq<char>, line: nat, t: string)
    requires Framed(a, b, line, t) && Framed(b, c, line, t)
    ensures Framed(a, c, line, t)
  {
  }

  // ---- Reading in chunks ----

  const MAX_LINE_LEN: nat := 1024

  function NextNewline(f: string, i: nat): (e: nat)
    requires i <= |f|
    ensures i <= e <= |f| && '\n' !in f[i..e] && (e < |f| ==> f[e] == '\n')
    decreases |f| - i
  {
    if i == |f| || f[i] == '\n' then i
    else
      var e := NextNewline(f, i + 1);
      assert f[i..e] == [f[i]] + f[i + 1..e];
      e
  }

  datatype Outcome = Loaded(entries: seq<Entry>) | BadLine(number: nat) | LineTooLong

  /** What the lines of the file from i on lead to, if nothing is said about chunks: text behind
      the last newline is not a line. */
  function LoadFrom(f: string, i: nat, entries: seq<Entry>, numline: nat): Outcome
    requires i <= |f|
    decreases |f| - i
  {
    var e := NextNewline(f, i);
    if e == |f| then Loaded(entries)
    else
      var r := ParseLine(CStr(f[i..e]));
      if r.SyntaxError? then BadLine(numline + 1) else LoadFrom(f, e + 1, Extended(entries, r), numline + 1)
  }

  /** Every line up to the first one with a syntax error is safe. */
  predicate LinesOk(f: string, i: nat)
    requires i <= |f|
    decreases |f| - i
  {
    var e := NextNewline(f, i);
    e == |f|
    || (LineSafe(CStr(f[i..e])) && (ParseLine(CStr(f[i..e])).SyntaxError? || LinesOk(f, e + 1)))
  }

  /** Where the first line from i on that has a syntax error ends, or the end of the file. */
  function FirstBad(f: string, i: nat): (e: nat)
    requires i <= |f|
    ensures i <= e <= |f| && (e < |f| ==> f[e] == '\n')
    decreases |f| - i
  {
    var e := NextNewline(f, i);
    if e == |f| || ParseLine(CStr(f[i..e])).SyntaxError? then e else FirstBad(f, e + 1)
  }

  /** Where the line begins that the file is in at pos. */
  function LineStart(f: string, pos: nat): (i: nat)
    requires pos <= |f|
    ensures i <= pos && '\n' !in f[i..pos] && (i == 0 || f[i - 1] == '\n')
  {
    if pos == 0 || f[pos - 1] == '\n' then pos
    else
      var i := LineStart(f, pos - 1);
      assert f[i..pos] == f[i..pos - 1] + [f[pos - 1]];
      i
  }

  // ---- Chunks ----

  /** What a read delivers when the reads before it came to pos: any positive size up to what the
      buffer has room for behind the unfinished line, and nothing at the end of the file. */
  function Delivered(f: string, pos: nat, size: nat): (n: nat)
    requires pos <= |f|
    ensures pos + n <= |f|
  {
    var held := pos - LineStart(f, pos);
    if held >= MAX_LINE_LEN then 0 else Min(Max(1, size), Min(MAX_LINE_LEN - held, |f| - pos))
  }

  /** How far the first k reads come. */
  function Boundary(f: string, sizes: nat -> nat, k: nat): (b: nat)
    ensures b <= |f|
  {
    if k == 0 then 0 else Boundary(f, sizes, k - 1) + Delivered(f, Boundary(f, sizes, k - 1), sizes(k - 1))
  }

  /** Read k comes before the end and before the first syntax error is found, and brings no newline. */
  predicate Starved(f: string, sizes: nat -> nat, k: nat) {
    var b, c := Boundary(f, sizes, k), Boundary(f, sizes, k + 1);
    b <= c && b < |f| && b <= FirstBad(f, 0) && '\n' !in f[b..c]
  }

  /** Some read starves. */
  ghost predicate Starves(f: string, sizes: nat -> nat) {
    exists k: nat :: Starved(f, sizes, k)
  }

  lemma {:induction false} BoundaryGrows(f: string, sizes: nat -> nat, j: nat, k: nat)
    requires j <= k
    ensures Boundary(f, sizes, j) <= Boundary(f, sizes, k)
  {
    hide Delivered;
    if j < k { BoundaryGrows(f, sizes, j, k - 1); }
  }

  lemma {:induction false} StartsHere(f: string, i: nat, pos: nat)
    requires i <= pos <= |f| && '\n' !in f[i..pos] && (i == 0 || f[i - 1] == '\n')
    ensures LineStart(f, pos) == i
  {
    if i < pos {
      assert f[pos - 1] == f[i..pos][pos - 1 - i] && f[i..pos - 1] == f[i..pos][..pos - 1 - i];
      StartsHere(f, i, pos - 1);
    }
  }

  /** Once all is read, no chunk starves. */
  lemma DoneFeeding(f: string, sizes: nat -> nat, k: nat)
    requires Boundary(f, sizes, k) == |f| || Boundary(f, sizes, k) > FirstBad(f, 0)
    ensures forall j :: j >= k ==> !Starved(f, sizes, j)
  {
    hide Boundary, FirstBad;
    forall j | j >= k ensures !Starved(f, sizes, j) {
      BoundaryGrows(f, sizes, k, j);
    }
  }

  /** Every line has its newline, within the size of the buffer. */
  predicate ShortLines(f: string, i: nat)
    requires i <= |f|
    decreases |f| - i
  {
    i == |f| || (var e := NextNewline(f, i); e < |f| && e + 1 - i <= MAX_LINE_LEN && ShortLines(f, e + 1))
  }

  /** No line that has its newline is longer than the buffer. */
  predicate NoLongLine(f: string, i: nat)
    requires i <= |f|
    decreases |f| - i
  {
    var e := NextNewline(f, i);
    e == |f| || (e + 1 - i <= MAX_LINE_LEN && NoLongLine(f, e + 1))
  }

  /** For a file that ends in a newline the two mean the same, so that with full reads the
      length error fires, if nothing else is wrong, exactly on a line that is too long. */
  lemma {:induction false} LongLineDecides(f: string, i: nat)
    requires i <= |f| && (i < |f| ==> f[|f| - 1] == '\n')
    ensures ShortLines(f, i) <==> NoLongLine(f, i)
    decreases |f| - i
  {
    if i < |f| {
      NewlineAhead(f, i);
      LongLineDecides(f, NextNewline(f, i) + 1);
    }
  }

  lemma {:induction false} NewlineAhead(f: string, i: nat)
    requires i < |f| && f[|f| - 1] == '\n'
    ensures NextNewline(f, i) < |f|
    decreases |f| - i
  {
    if f[i] != '\n' { NewlineAhead(f, i + 1); }
  }

  /** read: some of what is left of the file, as the size says, within the room for it. */
  method Read(f: string, pos: nat, rest: nat, size: nat) returns (n: nat)
    requires pos <= |f| && rest + (pos - LineStart(f, pos)) == MAX_LINE_LEN
    ensures n == Delivered(f, pos, size)
  {
    n := if rest == 0 then 0 else Min(Max(1, size), Min(rest, |f| - pos));
  }

  /** memchr for a newline. */
  method MemChr(buff: array<char>, s: nat, ee: nat) returns (e: Option<nat>)
    requires s <= ee <= buff.Length
    ensures e.Some? ==> s <= e.value < ee && buff[e.value] == '\n' && '\n' !in buff[s..e.value]
    ensures e.None? ==> '\n' !in buff[s..ee]
  {
    var i := s;
    while i < ee
      invariant s <= i <= ee && '\n' !in buff[s..i]
    {
      if buff[i] == '\n' {
        return Some(i);
      }
      assert buff[s..i + 1] == buff[s..i] + [buff[i]];
      i := i + 1;
    }
    e := None;
  }

  /** The first newline in a part of the file is the next one. */
  lemma {:induction false} FoundNewline(f: string, i: nat, e: nat)
    requires i <= e <= |f| && '\n' !in f[i..e] && (e < |f| ==> f[e] == '\n')
    ensures NextNewline(f, i) == e
    decreases e - i
  {
    if i < e {
      assert f[i] == f[i..e][0] && f[i..e][1..] == f[i + 1..e];
      FoundNewline(f, i + 1, e);
    }
  }

  /** How far a run has come: the lines before done are parsed, and what is left leads to the
      same outcome as the whole file. */
  ghost predicate SoFar(f: string, done: nat, entries: seq<Entry>, numline: nat) {
    && done <= |f| && LinesOk(f, done) && LoadFrom(f, 0, [], 0) == LoadFrom(f, done, entries, numline)
    && FirstBad(f, 0) == FirstBad(f, done) && (done == 0 || f[done - 1] == '\n')
    && (NoLongLine(f, done) ==> NoLongLine(f, 0))
  }

  /** One line further. */
  lemma NextLine(f: string, done: nat, e: nat, entries: seq<Entry>, numline: nat)
    requires SoFar(f, done, entries, numline) && done <= e < |f| && '\n' !in f[done..e] && f[e] == '\n'
    requires e + 1 - done <= MAX_LINE_LEN
    ensures var line := CStr(f[done..e]);
            && LineSafe(line)
            && (ParseLine(line).SyntaxError? ==> LoadFrom(f, 0, [], 0) == BadLine(numline + 1) && FirstBad(f, 0) == e)
            && (!ParseLine(line).SyntaxError? ==>
                  SoFar(f, e + 1, Extended(entries, ParseLine(line)), numline + 1))
  {
    hide ParseLine, CStr, LineSafe, LoadFrom, LinesOk, FirstBad, NoLongLine, Extended, NextNewline;
    OneLine(f, done, e, entries, numline);
  }

  lemma OneLine(f: string, i: nat, e: nat, entries: seq<Entry>, numline: nat)
    requires i <= e < |f| && '\n' !in f[i..e] && f[e] == '\n' && LinesOk(f, i)
    ensures var r := ParseLine(CStr(f[i..e]));
            && LineSafe(CStr(f[i..e])) && (r.SyntaxError? || LinesOk(f, e + 1))
            && FirstBad(f, i) == (if r.SyntaxError? then e else FirstBad(f, e + 1))
            && (e + 1 - i <= MAX_LINE_LEN && NoLongLine(f, e + 1) ==> NoLongLine(f, i))
            && LoadFrom(f, i, entries, numline)
               == if r.SyntaxError? then BadLine(numline + 1) else LoadFrom(f, e + 1, Extended(entries, r), numline + 1)
  {
    hide ParseLine, CStr, LineSafe, Extended;
    FoundNewline(f, i, e);
  }

  lemma LastLine(f: string, done: nat, entries: seq<Entry>, numline: nat)
    requires SoFar(f, done, entries, numline) && '\n' !in f[done..]
    ensures LoadFrom(f, 0, [], 0) == Loaded(entries) && NoLongLine(f, 0)
  {
    hide ParseLine, CStr, LineSafe;
    assert f[done..] == f[done..|f|];
    FoundNewline(f, done, |f|);
  }

  /** This part of the buffer holds the file from at on. */
  predicate Holds(buff: seq<char>, from: nat, to: nat, f: string, at: nat) {
    from <= to <= |buff| && at + (to - from) <= |f| && buff[from..to] == f[at..at + (to - from)]
  }

  /** The lines that are complete in the buffer, which holds the file from done on. */
  method ParseLines(f: string, ghost done: nat, buff: array<char>, ee: nat, numline: nat, db: Drives)
    returns (s: nat, numline': nat, bad: bool)
    requires ee <= buff.Length <= MAX_LINE_LEN && Holds(buff[..], 0, ee, f, done)
    requires SoFar(f, done, db.entries, numline)
    modifies buff, db
    ensures s <= ee && (bad ==> LoadFrom(f, 0, [], 0) == BadLine(numline') && done <= FirstBad(f, 0) < done + ee)
    ensures !bad ==> SoFar(f, done + s, db.entries, numline') && Holds(buff[..], s, ee, f, done + s)
                     && '\n' !in f[done + s..done + ee]
  {
    hide SoFar, LoadFrom, ParseLine, Stands, LineSafe, CStr, FirstBad, Holds;
    s, numline', bad := 0, numline, false;
    HoldsText(buff[..], 0, ee, f, done);
    var e := MemChr(buff, s, ee);
    while e.Some?
      invariant s <= ee && SoFar(f, done + s, db.entries, numline') && Holds(buff[..], s, ee, f, done + s)
      invariant done + ee <= |f|
      invariant e.Some? ==> s <= e.value < ee && buff[e.value] == '\n' && '\n' !in buff[s..e.value]
      invariant e.None? ==> '\n' !in buff[s..ee]
      decreases ee - s
    {
      var code := ParseOneLine(f, done + s, buff, s, e.value, ee, numline', db);
      numline' := numline' + 1;
      if code != 0 {
        bad := true;
        return;
      }
      s := e.value + 1;
      e := MemChr(buff, s, ee);
    }
    HoldsText(buff[..], s, ee, f, done + s);
  }

  lemma HoldsText(buff: seq<char>, from: nat, to: nat, f: string, at: nat)
    requires Holds(buff, from, to, f, at)
    ensures from <= to <= |buff| && at + (to - from) <= |f| && buff[from..to] == f[at..at + (to - from)]
  {
  }

  /** Cuts a line off at its newline and parses it. */
  method ParseOneLine(f: string, ghost at: nat, buff: array<char>, s: nat, e: nat, ee: nat, ghost numline: nat, db: Drives)
    returns (code: int)
    requires s <= e < ee <= buff.Length <= MAX_LINE_LEN && Holds(buff[..], s, ee, f, at)
    requires buff[e] == '\n' && '\n' !in buff[s..e] && SoFar(f, at, db.entries, numline)
    modifies buff, db
    ensures code != 0 ==> LoadFrom(f, 0, [], 0) == BadLine(numline + 1) && FirstBad(f, 0) == at + (e - s)
    ensures code == 0 ==> SoFar(f, at + (e - s) + 1, db.entries, numline + 1)
                          && Holds(buff[..], e + 1, ee, f, at + (e - s) + 1)
  {
    hide SoFar, LoadFrom, ParseLine, LineSafe, Extended, FirstBad;
    ghost var was := buff[..];
    ghost var g: nat := at + (e - s);
    SameLine(f, at, was, s, e, ee);
    NextLine(f, at, g, db.entries, numline);
    buff[e] := '\0';
    ghost var t: CString := CStr(f[at..g]);
    ghost var cut := buff[..];
    LineStands(was, s, e, f[at..g]);
    code := db.ParseDbLine(buff, s, t);
    RestStays(cut, buff[..], s, t, e, ee);
  }

  lemma SameLine(f: string, at: nat, was: seq<char>, s: nat, e: nat, ee: nat)
    requires s <= e < ee <= |was| && at + (ee - s) <= |f| && was[s..ee] == f[at..at + (ee - s)]
    ensures was[s..e] == f[at..at + (e - s)] && was[e] == f[at + (e - s)]
    ensures was[e + 1..ee] == f[at + (e - s) + 1..at + (ee - s)]
  {
    assert was[s..e] == was[s..ee][..e - s] && was[e] == was[s..ee][e - s] && was[e + 1..ee] == was[s..ee][e - s + 1..];
  }

  lemma LineStands(was: seq<char>, s: nat, e: nat, line: string)
    requires s <= e < |was| && was[s..e] == line
    ensures Stands(was[e := '\0'], s, CStr(line)) && |CStr(line)| <= e - s
  {
    var n := |CStr(line)|;
    assert was[e := '\0'][s..s + n] == was[s..e][..n];
    if n < e - s { assert was[e := '\0'][s + n] == was[s..e][n]; }
  }

  lemma RestStays(was: seq<char>, now: seq<char>, s: nat, t: string, e: nat, ee: nat)
    requires Framed(was, now, s, t) && s + |t| <= e < ee <= |was|
    ensures now[e + 1..ee] == was[e + 1..ee]
  {
    var k := s + |t|;
    forall i | e + 1 <= i < ee ensures now[i] == was[i] {
      assert now[i] == now[k..][i - k] == was[k..][i - k];
    }
  }

  /** The first k reads have come to pos, none of them starved, and the line at done is unfinished. */
  ghost predicate Fed(f: string, sizes: nat -> nat, k: nat, pos: nat, done: nat, entries: seq<Entry>, numline: nat) {
    && pos <= |f| && pos == Boundary(f, sizes, k) && LineStart(f, pos) == done && SoFar(f, done, entries, numline)
    && forall j: nat :: j < k ==> !Starved(f, sizes, j)
  }

  /** One chunk: it is put behind the unfinished line, and its complete lines are parsed. */
  method ParseChunk(f: string, ghost sizes: nat -> nat, ghost k: nat, ghost done: nat, pos: nat, buff: array<char>, p: nat,
                    n: nat, numline: nat, db: Drives)
    returns (s: nat, numline': nat, bad: bool)
    requires Fed(f, sizes, k, pos, done, db.entries, numline) && n == Delivered(f, pos, sizes(k))
    requires done + p == pos && 0 < n && pos + n <= |f| && p + n <= buff.Length <= MAX_LINE_LEN
    requires Holds(buff[..], 0, p, f, done)
    modifies buff, db
    ensures s <= p + n
    ensures bad ==> LoadFrom(f, 0, [], 0) == BadLine(numline') && !Starves(f, sizes)
    ensures !bad && s == 0 ==> Starves(f, sizes)
    ensures !bad && s > 0 ==> Fed(f, sizes, k + 1, pos + n, done + s, db.entries, numline')
                              && Holds(buff[..], s, p + n, f, done + s)
  {
    hide *;
    FedParts(f, sizes, k, pos, done, db.entries, numline);
    FillBuffer(f, done, pos, buff, p, n);
    s, numline', bad := ParseLines(f, done, buff, p + n, numline, db);
    if bad {
      FedBad(f, sizes, k, pos, done, n);
    } else if s == 0 {
      FedNothing(f, sizes, k, pos, done, n, db.entries, numline');
    } else {
      FedMore(f, sizes, k, pos, done, n, s, db.entries, numline');
    }
  }

  lemma FedParts(f: string, sizes: nat -> nat, k: nat, pos: nat, done: nat, entries: seq<Entry>, numline: nat)
    requires Fed(f, sizes, k, pos, done, entries, numline)
    ensures SoFar(f, done, entries, numline) && FedSoFar(f, sizes, k, pos, done)
  {
    hide SoFar, Boundary, LineStart, Starved;
  }

  /** The part of Fed that does not change while a chunk is parsed. */
  ghost predicate FedSoFar(f: string, sizes: nat -> nat, k: nat, pos: nat, done: nat) {
    && done <= pos <= |f| && pos == Boundary(f, sizes, k) && LineStart(f, pos) == done && '\n' !in f[done..pos]
    && forall j: nat :: j < k ==> !Starved(f, sizes, j)
  }

  lemma FedBad(f: string, sizes: nat -> nat, k: nat, pos: nat, done: nat, n: nat)
    requires FedSoFar(f, sizes, k, pos, done) && 0 < n == Delivered(f, pos, sizes(k)) && pos + n <= |f|
    requires done <= FirstBad(f, 0) < pos + n
    ensures !Starves(f, sizes)
  {
    hide LineStart, Boundary, Delivered, FirstBad, Starved;
    NewlineInside(f, done, pos + n, FirstBad(f, 0));
    ChunkDecides(f, sizes, k, done, pos + n - done);
    DoneFeeding(f, sizes, k + 1);
  }

  lemma FedNothing(f: string, sizes: nat -> nat, k: nat, pos: nat, done: nat, n: nat, entries: seq<Entry>, numline: nat)
    requires FedSoFar(f, sizes, k, pos, done) && 0 < n == Delivered(f, pos, sizes(k)) && pos + n <= |f|
    requires SoFar(f, done, entries, numline) && '\n' !in f[done..pos + n]
    ensures Starves(f, sizes)
  {
    hide LineStart, Boundary, Delivered, FirstBad, Starved, SoFar, NextNewline;
    ChunkDecides(f, sizes, k, done, pos + n - done);
    NewlineBeyond(f, done, pos + n);
    NotYetBad(f, done, pos + n - done, entries, numline);
  }

  lemma FedMore(f: string, sizes: nat -> nat, k: nat, pos: nat, done: nat, n: nat, s: nat,
                entries: seq<Entry>, numline: nat)
    requires FedSoFar(f, sizes, k, pos, done) && 0 < n == Delivered(f, pos, sizes(k)) && pos + n <= |f|
    requires 0 < s <= pos + n - done && SoFar(f, done + s, entries, numline) && '\n' !in f[done + s..pos + n]
    ensures Fed(f, sizes, k + 1, pos + n, done + s, entries, numline)
  {
    hide LineStart, Boundary, Delivered, FirstBad, Starved, SoFar;
    SoFarStarts(f, done + s, entries, numline);
    NewlineInside(f, done, pos + n, done + s - 1);
    ChunkDecides(f, sizes, k, done, pos + n - done);
    StartsHere(f, done + s, pos + n);
  }

  lemma NewlineInside(f: string, i: nat, j: nat, e: nat)
    requires i <= e < j <= |f| && f[e] == '\n'
    ensures '\n' in f[i..j]
  {
    assert f[i..j][e - i] == '\n';
  }

  lemma SoFarStarts(f: string, done: nat, entries: seq<Entry>, numline: nat)
    requires SoFar(f, done, entries, numline)
    ensures done <= |f| && (done == 0 || f[done - 1] == '\n')
  {
  }

  /** load_database, for reads of any sizes: the length error fires exactly if a chunk starves, and
      otherwise the outcome depends on the lines of the file only. */
  method LoadDatabase(f: string, sizes: nat -> nat, db: Drives) returns (r: Outcome)
    requires LinesOk(f, 0) && db.entries == []
    modifies db
    ensures r.LineTooLong? <==> Starves(f, sizes)
    ensures !r.LineTooLong? ==> r == LoadFrom(f, 0, [], 0)
    ensures r.Loaded? ==> r.entries == db.entries && NoLongLine(f, 0)
  {
    hide *;
    var buff := new char[MAX_LINE_LEN];
    var pos: nat, p: nat, numline: nat, k: nat := 0, 0, 0, 0;
    ghost var done: nat := 0;
    StartOfFile(f, sizes, buff[..]);
    var n: nat := Read(f, pos, MAX_LINE_LEN - p, sizes(k));
    while n > 0
      invariant p < MAX_LINE_LEN && done + p == pos
      invariant Fed(f, sizes, k, pos, done, db.entries, numline) && Holds(buff[..], 0, p, f, done)
      invariant pos <= |f| && n == Delivered(f, pos, sizes(k))
      decreases |f| - pos
    {
      FedStart(f, sizes, k, pos, done, db.entries, numline);
      DeliveredFits(f, pos, sizes(k));
      var s, bad;
      s, numline, bad := ParseChunk(f, sizes, k, done, pos, buff, p, n, numline, db);
      if bad {
        return BadLine(numline);
      }
      if s == 0 {
        return LineTooLong;
      }
      MemMove(buff, s, p + n, f, done + s);
      p, done, pos, k := p + n - s, done + s, pos + n, k + 1;
      FedStart(f, sizes, k, pos, done, db.entries, numline);
      n := Read(f, pos, MAX_LINE_LEN - p, sizes(k));
    }
    FedStart(f, sizes, k, pos, done, db.entries, numline);
    DeliveredFits(f, pos, sizes(k));
    EndOfFile(f, sizes, k, done, db.entries, numline);
    r := Loaded(db.entries);
  }

  lemma FedStart(f: string, sizes: nat -> nat, k: nat, pos: nat, done: nat, entries: seq<Entry>, numline: nat)
    requires Fed(f, sizes, k, pos, done, entries, numline)
    ensures pos <= |f| && LineStart(f, pos) == done
  {
  }

  lemma EndOfFile(f: string, sizes: nat -> nat, k: nat, done: nat, entries: seq<Entry>, numline: nat)
    requires Fed(f, sizes, k, |f|, done, entries, numline)
    ensures LoadFrom(f, 0, [], 0) == Loaded(entries) && NoLongLine(f, 0) && !Starves(f, sizes)
  {
    hide LoadFrom, NoLongLine, Starved, SoFar, Boundary, FirstBad;
    DoneFeeding(f, sizes, k);
    assert f[done..|f|] == f[done..];
    LastLine(f, done, entries, numline);
  }

  lemma StartOfFile(f: string, sizes: nat -> nat, buff: seq<char>)
    requires LinesOk(f, 0)
    ensures Holds(buff, 0, 0, f, 0) && Fed(f, sizes, 0, 0, 0, [], 0) && LineStart(f, 0) == 0 < MAX_LINE_LEN
  {
  }

  lemma DeliveredFits(f: string, pos: nat, size: nat)
    requires pos <= |f|
    ensures var n, held := Delivered(f, pos, size), pos - LineStart(f, pos);
            held < MAX_LINE_LEN ==> n <= MAX_LINE_LEN - held && (n == 0 <==> pos == |f|)
  {
    hide LineStart;
  }

  /** The part of the line that is held in the buffer has no newline, so that the chunk decides. */
  lemma ChunkDecides(f: string, sizes: nat -> nat, k: nat, done: nat, ee: nat)
    requires var b := Boundary(f, sizes, k);
             done <= b < |f| && done + ee == b + Delivered(f, b, sizes(k)) && '\n' !in f[done..b]
    ensures Boundary(f, sizes, k + 1) == done + ee <= |f|
    ensures '\n' in f[done..done + ee] ==> !Starved(f, sizes, k)
    ensures '\n' !in f[done..done + ee] && Boundary(f, sizes, k) <= FirstBad(f, 0) ==> Starved(f, sizes, k)
  {
    hide Delivered, FirstBad;
    var b := Boundary(f, sizes, k);
    assert f[done..done + ee] == f[done..b] + f[b..done + ee];
  }

  lemma BadFromHere(f: string, done: nat, entries: seq<Entry>, numline: nat)
    requires SoFar(f, done, entries, numline)
    ensures done <= |f| && NextNewline(f, done) <= FirstBad(f, 0)
  {
    hide ParseLine, CStr, LinesOk, LoadFrom, NoLongLine, NextNewline;
  }

  lemma NotYetBad(f: string, done: nat, ee: nat, entries: seq<Entry>, numline: nat)
    requires SoFar(f, done, entries, numline) && done + ee <= |f| && NextNewline(f, done) >= done + ee
    ensures done + ee <= FirstBad(f, 0)
  {
    hide SoFar, FirstBad, NextNewline;
    BadFromHere(f, done, entries, numline);
  }

  lemma NewlineBeyond(f: string, i: nat, j: nat)
    requires i <= j <= |f| && '\n' !in f[i..j]
    ensures NextNewline(f, i) >= j
  {
    hide NextNewline;
    NoneInside(f, i, j);
  }

  lemma NoneInside(f: string, i: nat, j: nat)
    requires i <= j <= |f| && '\n' !in f[i..j]
    ensures forall e :: i <= e < j ==> f[e] != '\n'
  {
    forall e | i <= e < j ensures f[e] != '\n' {
      assert f[e] == f[i..j][e - i];
    }
  }

  /** What read puts behind the rest of the last chunk. */
  method FillBuffer(f: string, ghost done: nat, pos: nat, buff: array<char>, p: nat, n: nat)
    requires done + p == pos && pos + n <= |f| && p + n <= buff.Length && Holds(buff[..], 0, p, f, done)
    modifies buff
    ensures Holds(buff[..], 0, p + n, f, done)
  {
    ghost var was := buff[..];
    forall i | p <= i < p + n {
      buff[i] := f[pos + (i - p)];
    }
    HoldsMore(was, buff[..], p, n, f, done);
  }

  lemma HoldsMore(was: seq<char>, now: seq<char>, p: nat, n: nat, f: string, done: nat)
    requires Holds(was, 0, p, f, done) && p + n <= |now| == |was| && done + p + n <= |f|
    requires forall i :: 0 <= i < p ==> now[i] == was[i]
    requires forall i :: p <= i < p + n ==> now[i] == f[done + i]
    ensures Holds(now, 0, p + n, f, done)
  {
    var a, b := now[0..p + n], f[done..done + (p + n)];
    forall i | 0 <= i < p + n ensures a[i] == b[i] {
      if i < p { assert was[0..p][i] == f[done..done + (p - 0)][i]; }
    }
    assert a == b;
  }

  /** memmove of the incomplete line to the front: whatever text stood in that part of the buffer stands there now. */
  method MemMove(buff: array<char>, s: nat, ee: nat, ghost f: string, ghost at: nat)
    requires s <= ee <= buff.Length && Holds(buff[..], s, ee, f, at)
    modifies buff
    ensures Holds(buff[..], 0, ee - s, f, at)
  {
    forall i | 0 <= i < ee - s {
      buff[i] := buff[s + i];
    }
  }

  // ---- Full reads ----

  /** Every read delivers as much as there is and has room. */
  ghost predicate FullReads(sizes: nat -> nat) {
    forall k: nat :: sizes(k) >= MAX_LINE_LEN
  }

  lemma {:induction false} ShortLinesFrom(f: string, i: nat, pos: nat)
    requires i <= pos <= |f| && ShortLines(f, i) && (i == 0 || f[i - 1] == '\n')
    ensures ShortLines(f, LineStart(f, pos))
    decreases |f| - i
  {
    hide LineStart;
    var e := NextNewline(f, i);
    if pos <= e {
      assert f[i..pos] == f[i..e][..pos - i];
      StartsHere(f, i, pos);
    } else {
      ShortLinesFrom(f, e + 1, pos);
    }
  }

  lemma NotStarved(f: string, sizes: nat -> nat, k: nat)
    requires FullReads(sizes) && ShortLines(f, 0)
    ensures !Starved(f, sizes, k)
  {
    var b := Boundary(f, sizes, k);
    if b < |f| {
      assert Boundary(f, sizes, k + 1) == b + Delivered(f, b, sizes(k));
      hide Boundary;
      var i := LineStart(f, b);
      ShortLinesFrom(f, 0, b);
      var e := NextNewline(f, i);
      if e < b { NewlineInside(f, i, b, e); }
      NewlineInside(f, b, Boundary(f, sizes, k + 1), e);
    }
  }

  /** With full reads and short lines, the last one included, no chunk starves. */
  lemma NeverStarves(f: string, sizes: nat -> nat)
    requires FullReads(sizes) && ShortLines(f, 0)
    ensures !Starves(f, sizes)
  {
    hide Starved, ShortLines;
    forall k: nat ensures !Starved(f, sizes, k) {
      NotStarved(f, sizes, k);
    }
  }

  /** Reading whole buffers from a line start i on: some buffer that is filled before the first syntax error is found
      has no newline. */
  predicate SomeBufferWithout(f: string, i: nat)
    requires i <= |f|
    decreases |f| - i
  {
    var c := Min(i + MAX_LINE_LEN, |f|);
    if '\n' !in f[i..c] then true
    else
      NewStart(f, i, c);
      c < |f| && c <= FirstBad(f, 0) && SomeBufferWithout(f, LineStart(f, c))
  }

  lemma NewStart(f: string, i: nat, c: nat)
    requires i <= c <= |f| && '\n' in f[i..c]
    ensures i < LineStart(f, c) <= c
  {
    hide LineStart;
    var j :| 0 <= j < c - i && f[i..c][j] == '\n';
    NoneInside(f, LineStart(f, c), c);
  }

  lemma NoNewStart(f: string, i: nat, b: nat, c: nat)
    requires i <= b <= c <= |f| && LineStart(f, b) == i
    ensures '\n' in f[i..c] <==> '\n' in f[b..c]
  {
    assert f[i..c] == f[i..b] + f[b..c];
  }

  /** Full reads fill the buffer behind the unfinished line, which begins at i. */
  lemma FullBoundary(f: string, sizes: nat -> nat, k: nat)
    requires FullReads(sizes)
    ensures var b := Boundary(f, sizes, k); var i := LineStart(f, b);
            b < |f| && b - i < MAX_LINE_LEN ==> Boundary(f, sizes, k + 1) == Min(i + MAX_LINE_LEN, |f|) > b
  {
    hide LineStart;
    var b := Boundary(f, sizes, k);
    assert Boundary(f, sizes, k + 1) == b + Delivered(f, b, sizes(k));
    assert sizes(k) >= MAX_LINE_LEN;
  }

  ghost predicate StarvesFrom(f: string, sizes: nat -> nat, k: nat) {
    exists j: nat :: j >= k && Starved(f, sizes, j)
  }

  lemma StarvesStep(f: string, sizes: nat -> nat, k: nat)
    ensures StarvesFrom(f, sizes, k) <==> Starved(f, sizes, k) || StarvesFrom(f, sizes, k + 1)
  {
    hide Starved;
  }

  lemma StarvesNoMore(f: string, sizes: nat -> nat, k: nat)
    requires Boundary(f, sizes, k) == |f| || Boundary(f, sizes, k) > FirstBad(f, 0)
    ensures !StarvesFrom(f, sizes, k)
  {
    hide Starved, Boundary, FirstBad;
    DoneFeeding(f, sizes, k);
  }

  lemma StarvedHere(f: string, sizes: nat -> nat, k: nat)
    requires var b := Boundary(f, sizes, k); b < |f| && b <= FirstBad(f, 0) && b < Boundary(f, sizes, k + 1)
    ensures Starved(f, sizes, k) <==> '\n' !in f[Boundary(f, sizes, k)..Boundary(f, sizes, k + 1)]
  {
    hide Boundary, FirstBad;
  }

  lemma BufferStep(f: string, i: nat, b: nat, c: nat)
    requires i <= b < c == Min(i + MAX_LINE_LEN, |f|) && LineStart(f, b) == i
    ensures SomeBufferWithout(f, i)
            <==> '\n' !in f[b..c] || (c < |f| && c <= FirstBad(f, 0) && SomeBufferWithout(f, LineStart(f, c)))
  {
    hide LineStart, FirstBad;
    NoNewStart(f, i, b, c);
  }

  /** From read k on. */
  lemma {:induction false} FullFrom(f: string, sizes: nat -> nat, k: nat)
    requires FullReads(sizes)
    requires var b := Boundary(f, sizes, k); b < |f| && b <= FirstBad(f, 0) && b - LineStart(f, b) < MAX_LINE_LEN
    ensures StarvesFrom(f, sizes, k) <==> SomeBufferWithout(f, LineStart(f, Boundary(f, sizes, k)))
    decreases |f| - LineStart(f, Boundary(f, sizes, k))
  {
    hide LineStart, Boundary, FirstBad, FullReads, NextNewline, StarvesFrom, Starved, SomeBufferWithout;
    var b, c := Boundary(f, sizes, k), Boundary(f, sizes, k + 1);
    var i := LineStart(f, b);
    FullBoundary(f, sizes, k);
    StarvesStep(f, sizes, k);
    StarvedHere(f, sizes, k);
    BufferStep(f, i, b, c);
    if '\n' in f[b..c] {
      if c == |f| || c > FirstBad(f, 0) {
        StarvesNoMore(f, sizes, k + 1);
      } else {
        LaterStart(f, i, b, c);
        FullFrom(f, sizes, k + 1);
      }
    }
  }

  lemma LaterStart(f: string, i: nat, b: nat, c: nat)
    requires i <= b < c <= |f| && LineStart(f, b) == i && c <= i + MAX_LINE_LEN && '\n' in f[b..c]
    ensures i < LineStart(f, c) && c - LineStart(f, c) < MAX_LINE_LEN
  {
    hide LineStart;
    NoNewStart(f, i, b, c);
    NewStart(f, i, c);
  }

  /** With full reads, whether a chunk starves can be read off the file. */
  lemma FullReadsStarve(f: string, sizes: nat -> nat)
    requires FullReads(sizes)
    ensures Starves(f, sizes) <==> f != "" && SomeBufferWithout(f, 0)
  {
    hide Starved, SomeBufferWithout, FirstBad, FullReads;
    assert Boundary(f, sizes, 0) == 0 && LineStart(f, 0) == 0;
    if f == "" {
      DoneFeeding(f, sizes, 0);
    } else {
      hide Boundary, LineStart;
      FullFrom(f, sizes, 0);
      assert StarvesFrom(f, sizes, 0) <==> Starves(f, sizes);
    }
  }

  /** In a file that ends in a newline and has no syntax error, it comes to a line that is too long. */
  lemma {:induction false} LongLineStarves(f: string, i: nat)
    requires i < |f| && f[|f| - 1] == '\n' && FirstBad(f, 0) == |f|
    ensures SomeBufferWithout(f, i) <==> !NoLongLine(f, i)
    decreases |f| - i
  {
    hide NoLongLine, FirstBad, LineStart;
    var c := Min(i + MAX_LINE_LEN, |f|);
    if '\n' !in f[i..c] {
      NoneInside(f, i, c);
      LongLineAt(f, i);
    } else {
      NewStart(f, i, c);
      var s := LineStart(f, c);
      ShortUpTo(f, i, s);
      if c == |f| {
        EndsWithNewline(f);
      } else {
        LongLineStarves(f, s);
      }
    }
  }

  lemma EndsWithNewline(f: string)
    requires f != "" && f[|f| - 1] == '\n'
    ensures LineStart(f, |f|) == |f| && NoLongLine(f, |f|)
  {
  }

  lemma LongLineAt(f: string, i: nat)
    requires i + MAX_LINE_LEN < |f| && '\n' !in f[i..i + MAX_LINE_LEN] && f[|f| - 1] == '\n'
    ensures !NoLongLine(f, i)
  {
    NewlineAhead(f, i);
    hide NextNewline;
    NewlineBeyond(f, i, i + MAX_LINE_LEN);
  }

  /** Complete lines within one buffer are not too long. */
  lemma {:induction false} ShortUpTo(f: string, i: nat, s: nat)
    requires i <= s <= |f| && s - i <= MAX_LINE_LEN && (s == i || f[s - 1] == '\n')
    ensures NoLongLine(f, i) <==> NoLongLine(f, s)
    decreases s - i
  {
    if i < s {
      var e := NextNewline(f, i);
      NoneInside(f, i, e);
      hide NextNewline;
      ShortUpTo(f, e + 1, s);
    }
  }

  /** A comment that fills the buffer to its newline, and one more without. */
  function CommentFile(): string {
    seq(MAX_LINE_LEN - 1, i => '#') + "\n#"
  }

  lemma CommentLines()
    ensures var f := CommentFile();
            && |f| == 1025 && NextNewline(f, 0) == 1023 && NextNewline(f, 1024) == 1025
            && LineStart(f, 0) == 0 && LineStart(f, 1024) == 1024 && ParseLine(CStr(f[0..1023])).Nothing?
  {
    var f := CommentFile();
    FoundNewline(f, 0, 1023);
    FoundNewline(f, 1024, 1025);
    var line := f[0..1023];
    assert line[0] == '#' && SkipBlanks(CStr(line)) == CStr(line);
  }

  /** The length error can be spurious even with full reads: no line of this file is longer than the
      buffer and none has a syntax error, but the second chunk starves. */
  lemma SpuriousLengthError(sizes: nat -> nat)
    requires FullReads(sizes)
    ensures var f := CommentFile();
            NoLongLine(f, 0) && LinesOk(f, 0) && LoadFrom(f, 0, [], 0) == Loaded([]) && Starves(f, sizes)
  {
    hide ParseLine, CStr, SkipBlanks, NextNewline, LineStart;
    var f := CommentFile();
    CommentLines();
    assert LineSafe(CStr(f[0..1023])) by { CommentSafe(); }
    hide CommentFile, LineSafe;
    assert FirstBad(f, 1024) == 1025 && LoadFrom(f, 1024, [], 1) == Loaded([]);
    assert Boundary(f, sizes, 0) == 0 && Boundary(f, sizes, 1) == 1024 && Boundary(f, sizes, 2) == 1025;
    assert '\n' !in f[1024..1025];
    assert Starved(f, sizes, 1);
  }

  lemma CommentSafe()
    ensures LineSafe(CStr(CommentFile()[0..1023]))
  {
    CommentLines();
    hide NextNewline, LineStart;
  }

  // ---- Writing a line ----

  /** A text that a quoted string can hold: every quote in it follows a backslash. */
  predicate Quotable(t: string) {
    StringEnd(t + "\"", 0) == Some(|t|)
  }

  function Write(e: Entry): string
    requires e.attributeId >= 0
  {
    "\"" + (e.regexp + "\"" + (" " + (Decimal(e.attributeId) + (" " + ([e.unit] + (" \"" + (e.description + "\"")))))))
  }

  lemma DigitChar(d: nat)
    requires d < 10
    ensures var c := '0' + d as char; IsDigit(c) && (c - '0') as int == d
  {
  }

  lemma ReadsDigit(d: nat, rest: string, value: nat)
    requires d < 10
    ensures Value(['0' + d as char] + rest, value) == Value(rest, (10 * value + d) % 0x1_0000)
  {
    DigitChar(d);
    assert (['0' + d as char] + rest)[1..] == rest;
  }

  lemma {:induction false} ReadsDecimal(n: nat, rest: string)
    requires n < 0x1_0000
    ensures Value(Decimal(n) + rest, 0) == Value(rest, n)
    decreases n
  {
    hide Value, Decimal;
    DecimalStep(n);
    var last := ['0' + (n % 10) as char];
    if n < 10 {
      assert Decimal(n) + rest == last + rest;
      ReadsDigit(n % 10, rest, 0);
    } else {
      assert Decimal(n) + rest == Decimal(n / 10) + (last + rest);
      ReadsDecimal(n / 10, last + rest);
      ReadsDigit(n % 10, rest, n / 10);
    }
  }

  lemma DecimalStarts(n: nat)
    ensures IsDigit(Decimal(n)[0])
  {
    hide Decimal;
    assert Decimal(n)[0] in Decimal(n);
  }

  /** What a string's end is does not depend on what stands around it. */
  lemma {:induction false} StringEndInside(a: string, t: string, rest: string, i: nat)
    requires StringEnd(t, i).Some?
    ensures StringEnd(a + t + rest, |a| + i) == Some(|a| + StringEnd(t, i).value)
    decreases |t| - i
  {
    var whole := a + t + rest;
    assert whole[|a| + i] == t[i];
    if t[i] == '"' {
    } else if t[i] == '\\' {
      StringEndInside(a, t, rest, i + 2);
    } else {
      StringEndInside(a, t, rest, i + 1);
    }
  }

  lemma ReadsQuoted(t: string, rest: string)
    requires Quotable(t)
    ensures Quoted("\"" + (t + "\"" + rest)) == Some((t, rest))
  {
    var whole := "\"" + (t + "\"" + rest);
    StringEndInside("\"", t + "\"", rest, 0);
    assert "\"" + (t + "\"") + rest == whole;
    assert whole[1..|t| + 1] == t && whole[|t| + 2..] == rest;
  }

  lemma SkipsOne(rest: string)
    requires rest != "" && !IsBlank(rest[0])
    ensures SkipBlanks(" " + rest) == rest
  {
    assert (" " + rest)[1..] == rest;
  }

  lemma ParsesDescription(e: Entry)
    requires Quotable(e.description) && 0 <= e.attributeId < 0x8000
    ensures ParseDescription(" \"" + (e.description + "\""), e.regexp, e.attributeId, e.unit) == Drive(e)
  {
    hide Quotable, Quoted, SkipBlanks;
    var d := "\"" + (e.description + "\"" + "");
    assert e.description + "\"" + "" == e.description + "\"" && " \"" + (e.description + "\"") == " " + d;
    SkipsOne(d);
    ReadsQuoted(e.description, "");
  }

  lemma ParsesUnit(e: Entry)
    requires Quotable(e.description) && 0 <= e.attributeId < 0x8000 && (e.unit == 'C' || e.unit == 'F')
    ensures ParseUnit(" " + ([e.unit] + (" \"" + (e.description + "\""))), e.regexp, e.attributeId) == Drive(e)
  {
    hide Quotable, SkipBlanks, ParseDescription;
    var d := " \"" + (e.description + "\"");
    ParsesDescription(e);
    SkipsOne([e.unit] + d);
    assert ([e.unit] + d)[1..] == d;
  }

  lemma ParsesValue(e: Entry)
    requires Quotable(e.description) && 0 <= e.attributeId < 0x8000 && (e.unit == 'C' || e.unit == 'F')
    ensures ParseValue(" " + (Decimal(e.attributeId) + (" " + ([e.unit] + (" \"" + (e.description + "\""))))), e.regexp)
            == Drive(e)
  {
    hide Quotable, SkipBlanks, ParseUnit, Decimal, Value;
    var u := [e.unit] + (" \"" + (e.description + "\""));
    var v := Decimal(e.attributeId) + (" " + u);
    ParsesUnit(e);
    DecimalStarts(e.attributeId);
    assert v[0] == Decimal(e.attributeId)[0];
    SkipsOne(v);
    ReadsDecimal(e.attributeId, " " + u);
    StopsAtBlank(u, e.attributeId);
  }

  /** Parsing gives back what was written. */
  lemma ParsesWritten(e: Entry)
    requires Quotable(e.regexp) && Quotable(e.description) && 0 <= e.attributeId < 0x8000
    requires e.unit == 'C' || e.unit == 'F'
    ensures ParseLine(Write(e)) == Drive(e)
  {
    hide Quotable, Quoted, SkipBlanks, Decimal, ParseValue;
    var rest := " " + (Decimal(e.attributeId) + (" " + ([e.unit] + (" \"" + (e.description + "\"")))));
    StartsUnskipped(Write(e));
    ReadsQuoted(e.regexp, rest);
    ParsesValue(e);
  }

  lemma StopsAtBlank(u: string, n: nat)
    ensures Value(" " + u, n) == (n, " " + u)
  {
  }

  lemma StartsUnskipped(line: string)
    requires line != "" && !IsBlank(line[0])
    ensures SkipBlanks(line) == line
  {
  }
}
