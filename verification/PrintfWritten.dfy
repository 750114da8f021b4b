/** How directives are written, and that DirectiveAt reads exactly what is written. */
module PrintfWritten {
  import opened Chars
  import opened CStrings
  import opened PrintfSyntax
  import opened Wrappers
  import opened XSize

  // ---- Written directives ----

  /** A width, or what follows the dot of a precision. Positions are digits in front of a '$'. */
  datatype Amount = NoAmount | Digits(text: string) | Star(position: Option<string>)

  datatype Form = Form(position: Option<string>, flags: string, width: Amount, precision: Amount,
                       letters: string, conversion: char)

  predicate IsFlag(c: char) {
    c == '\'' || c == '-' || c == '+' || c == ' ' || c == '#' || c == '0'
  }

  predicate IsLetter(c: char) {
    c == 'h' || c == 'L' || c == 'l' || c == 'j' || c == 'z' || c == 'Z' || c == 't'
  }

  predicate IsConversion(c: char) {
    || c == 'd' || c == 'i' || c == 'o' || c == 'u' || c == 'x' || c == 'X'
    || c == 'f' || c == 'F' || c == 'e' || c == 'E' || c == 'g' || c == 'G' || c == 'a' || c == 'A'
    || c == 'c' || c == 'C' || c == 's' || c == 'S' || c == 'p' || c == 'n' || c == '%'
  }

  predicate AllDigits(t: string) {
    forall c <- t :: IsDigit(c)
  }

  /** The number that decimal digits stand for. */
  function Value(t: string): nat {
    if t == "" then 0 else 10 * Value(t[..|t| - 1]) + DigitValue(t[|t| - 1])
  }

  /** Positions count from 1. */
  predicate PositionOk(p: Option<string>) {
    p.Some? ==> AllDigits(p.value) && 0 < Value(p.value) < SIZE_MAX
  }

  /** Digits that begin with '0' would be read as a flag. */
  predicate WidthOk(a: Amount) {
    match a
    case NoAmount => true
    case Digits(t) => AllDigits(t) && t != "" && t[0] != '0'
    case Star(p) => PositionOk(p)
  }

  predicate PrecisionOk(a: Amount) {
    match a
    case NoAmount => true
    case Digits(t) => AllDigits(t)
    case Star(p) => PositionOk(p)
  }

  predicate FormOk(w: Form) {
    && PositionOk(w.position) && (forall c <- w.flags :: IsFlag(c)) && WidthOk(w.width) && PrecisionOk(w.precision)
    && (forall c <- w.letters :: IsLetter(c)) && IsConversion(w.conversion)
  }

  function PositionText(p: Option<string>): string {
    if p.Some? then p.value + "$" else ""
  }

  function AmountText(a: Amount): string {
    match a
    case NoAmount => ""
    case Digits(t) => t
    case Star(p) => "*" + PositionText(p)
  }

  function PrecisionText(a: Amount): string {
    if a.NoAmount? then "" else "." + AmountText(a)
  }

  function Text(w: Form): string {
    "%" + (PositionText(w.position)
           + (w.flags + (AmountText(w.width) + (PrecisionText(w.precision) + (w.letters + [w.conversion])))))
  }

  // ---- What they mean ----

  function FlagsMeant(t: string): Flags {
    Flags('\'' in t, '-' in t, '+' in t, ' ' in t, '#' in t, '0' in t)
  }

  function IndexMeant(p: Option<string>): Option<nat>
    requires PositionOk(p)
  {
    if p.Some? then Some(Value(p.value) - 1) else None
  }

  function WidthMeant(a: Amount, at: nat): Field
    requires WidthOk(a)
  {
    match a
    case NoAmount => Field(None, false, None, at)
    case Digits(t) => Field(Some(Span(at, at + |t|)), false, None, at + |t|)
    case Star(p) => Field(Some(Span(at, at + 1)), true, IndexMeant(p), at + |AmountText(a)|)
  }

  function PrecisionMeant(a: Amount, at: nat): Field
    requires PrecisionOk(a)
  {
    match a
    case NoAmount => Field(None, false, None, at)
    case Digits(t) => Field(Some(Span(at, at + 1 + |t|)), false, None, at + 1 + |t|)
    case Star(p) => Field(Some(Span(at, at + 2)), true, IndexMeant(p), at + |PrecisionText(a)|)
  }

  function Count(t: string, letters: string): nat {
    if t == "" then 0 else (if t[0] in letters then 1 else 0) + Count(t[1..], letters)
  }

  function LettersMeant(t: string): Length {
    Length(Count(t, "h") >= 1, Count(t, "h") >= 2, Count(t, "L") >= 1, Count(t, "ljzZt"))
  }

  lemma ConversionKnown(c: char, l: Length)
    ensures IsConversion(c) <==> Conversion(c, l).Some?
  {
  }

  // Where the parts of a directive begin.

  function FlagsFrom(w: Form, i: nat): nat { i + 1 + |PositionText(w.position)| }

  function WidthFrom(w: Form, i: nat): nat { FlagsFrom(w, i) + |w.flags| }

  function PrecisionFrom(w: Form, i: nat): nat { WidthFrom(w, i) + |AmountText(w.width)| }

  function LettersFrom(w: Form, i: nat): nat { PrecisionFrom(w, i) + |PrecisionText(w.precision)| }

  function ConversionFrom(w: Form, i: nat): nat { LettersFrom(w, i) + |w.letters| }

  /** The directive that a form at i means. */
  function Meant(w: Form, i: nat): Raw
    requires FormOk(w)
  {
    ConversionKnown(w.conversion, LettersMeant(w.letters));
    var (t, c) := Conversion(w.conversion, LettersMeant(w.letters)).value;
    Raw(i, ConversionFrom(w, i) + 1, FlagsMeant(w.flags), WidthMeant(w.width, WidthFrom(w, i)),
        PrecisionMeant(w.precision, PrecisionFrom(w, i)), c, t, IndexMeant(w.position))
  }

  /** The text t stands in s at i. */
  predicate Has(s: string, i: nat, t: string) {
    i + |t| <= |s| && s[i..i + |t|] == t
  }

  lemma HasParts(s: string, i: nat, a: string, b: string)
    ensures Has(s, i, a + b) <==> Has(s, i, a) && Has(s, i + |a|, b)
  {
    if i + |a| + |b| <= |s| {
      var whole := s[i..i + |a + b|];
      assert whole == s[i..i + |a|] + s[i + |a|..i + |a| + |b|];
      if whole == a + b {
        assert whole[..|a|] == a && whole[|a|..] == b;
      }
    }
  }

  lemma HasAt(s: string, i: nat, t: string, k: nat)
    requires Has(s, i, t) && k < |t|
    ensures i + k < |s| && s[i + k] == t[k]
  {
    assert s[i..i + |t|][k] == s[i + k];
  }

  /** What stands from a place on up to another one. */
  lemma HasSlice(s: string, i: nat, j: nat)
    requires i <= j <= |s|
    ensures Has(s, i, s[i..j])
  {
  }

  lemma NothingHere(s: CString, i: nat)
    requires i <= |s|
    ensures Has(s, i, "")
  {
  }

  // ---- Positions ----

  lemma DigitsRead(s: CString, i: nat, j: nat)
    requires i <= j <= |s| && (forall k :: i <= k < j ==> IsDigit(s[k])) && !IsDigit(At(s, j))
    ensures DigitsEnd(s, i) == j
  {
    var e := DigitsEnd(s, i);
  }

  lemma ValueStep(s: string, i: nat, j: nat)
    requires i < j <= |s|
    ensures Value(s[i..j]) == 10 * Value(s[i..j - 1]) + DigitValue(s[j - 1])
  {
    SliceOfSlice(s, i, j, 0, j - 1 - i);
  }

  lemma {:induction false} NumberIsValue(s: CString, i: nat, j: nat)
    requires i <= j <= |s|
    ensures Number(s, i, j) == Min(Value(s[i..j]), SIZE_MAX)
  {
    if i == j {
      assert s[i..j] == "";
    } else {
      NumberIsValue(s, i, j - 1);
      ValueStep(s, i, j);
    }
  }

  lemma HasText(s: string, i: nat, t: string)
    requires Has(s, i, t)
    ensures i + |t| <= |s| && s[i..i + |t|] == t
  {
  }

  lemma NoValue()
    ensures Value("") == 0
  {
  }

  lemma PositionRead(s: CString, i: nat, t: string)
    requires PositionOk(Some(t)) && Has(s, i, t + "$")
    ensures PositionAt(s, i) == Position(Value(t) - 1, i + |t| + 1)
  {
    hide Has, DigitsEnd, Number, Value, AllDigits;
    HasParts(s, i, t, "$");
    HasText(s, i, t);
    HasAt(s, i + |t|, "$", 0);
    DigitsHere(s, i, t);
    NumberIsValue(s, i, i + |t|);
    NoValue();
  }

  /** Where no '$' comes before a character that is no digit, there is no position. */
  lemma NoPositionRead(s: CString, i: nat, q: nat)
    requires i <= q < |s| && !IsDigit(s[q]) && forall k :: i <= k <= q ==> s[k] != '$'
    ensures PositionAt(s, i) == NoPosition
  {
    var j := DigitsEnd(s, i);
  }

  lemma PositionWritten(s: CString, i: nat)
    requires i <= |s| && PositionAt(s, i).Position?
    ensures var p := PositionAt(s, i);
            i < p.next - 1 < |s| && var t := s[i..p.next - 1];
            PositionOk(Some(t)) && Has(s, i, t + "$") && p.index == Value(t) - 1
  {
    var p := PositionAt(s, i);
    var t := s[i..p.next - 1];
    NumberIsValue(s, i, p.next - 1);
    hide Value, Number;
    EndsWithOne(s, i, p.next - 1);
    hide Has;
    SliceOfDigits(s, i, p.next - 1);
  }

  lemma EndsWithOne(s: string, i: nat, j: nat)
    requires i <= j < |s|
    ensures Has(s, i, s[i..j] + [s[j]])
  {
  }

  lemma SliceOfDigits(s: string, i: nat, j: nat)
    requires i <= j <= |s| && forall k :: i <= k < j ==> IsDigit(s[k])
    ensures AllDigits(s[i..j])
  {
  }

  // ---- Flags and letters ----

  function Either(f: Flags, g: Flags): Flags {
    Flags(f.group || g.group, f.left || g.left, f.showsign || g.showsign, f.space || g.space, f.alt || g.alt,
          f.zero || g.zero)
  }

  lemma FlagStep(s: CString, i: nat, f: Flags)
    requires i <= |s|
    ensures if IsFlag(At(s, i)) then i < |s| && FlagsAt(s, i, f) == FlagsAt(s, i + 1, Either(f, FlagsMeant([s[i]])))
            else FlagsAt(s, i, f) == (f, i)
  {
  }

  lemma MoreFlags(f: Flags, t: string)
    requires t != ""
    ensures Either(f, FlagsMeant(t)) == Either(Either(f, FlagsMeant([t[0]])), FlagsMeant(t[1..]))
  {
    assert t == [t[0]] + t[1..];
  }

  lemma {:induction false} FlagsRead(s: CString, i: nat, t: string, f: Flags)
    requires Has(s, i, t) && (forall c <- t :: IsFlag(c)) && !IsFlag(At(s, i + |t|))
    ensures FlagsAt(s, i, f) == (Either(f, FlagsMeant(t)), i + |t|)
    decreases |t|
  {
    hide FlagsAt, IsFlag;
    FlagStep(s, i, f);
    if t != "" {
      assert s[i] == t[0] by { HasAt(s, i, t, 0); }
      assert t == [t[0]] + t[1..];
      HasParts(s, i, [t[0]], t[1..]);
      MoreFlags(f, t);
      hide FlagsMeant, Either;
      FlagsRead(s, i + 1, t[1..], Either(f, FlagsMeant([t[0]])));
    }
  }

  lemma {:induction false} FlagsWritten(s: CString, i: nat, f: Flags)
    requires i <= |s|
    ensures var e := FlagsAt(s, i, f).1; (forall c <- s[i..e] :: IsFlag(c)) && !IsFlag(At(s, e))
    decreases |s| - i
  {
    hide FlagsAt, IsFlag, FlagsMeant, Either;
    FlagStep(s, i, f);
    if IsFlag(At(s, i)) {
      var e := FlagsAt(s, i, f).1;
      FlagsWritten(s, i + 1, Either(f, FlagsMeant([s[i]])));
      assert s[i..e] == [s[i]] + s[i + 1..e];
    }
  }

  function Together(l: Length, t: string): Length {
    var h := Count(t, "h") + (if l.hh then 2 else if l.h then 1 else 0);
    Length(h >= 1, h >= 2, l.big || Count(t, "L") >= 1, l.longs + Count(t, "ljzZt"))
  }

  function OneLetter(l: Length, c: char): Length {
    if c == 'h' then (if l.h then l.(hh := true) else l.(h := true))
    else if c == 'L' then l.(big := true)
    else l.(longs := l.longs + 1)
  }

  lemma {:induction false} LettersRead(s: CString, i: nat, t: string, l: Length)
    requires Has(s, i, t) && (forall c <- t :: IsLetter(c)) && !IsLetter(At(s, i + |t|)) && (l.hh ==> l.h)
    ensures LengthAt(s, i, l) == (Together(l, t), i + |t|)
    decreases |t|
  {
    if t != "" {
      HasAt(s, i, t, 0);
      assert t == [t[0]] + t[1..];
      HasParts(s, i, [t[0]], t[1..]);
      assert IsLetter(t[0]);
      var m := OneLetter(l, t[0]);
      LettersRead(s, i + 1, t[1..], m);
      assert LengthAt(s, i, l) == LengthAt(s, i + 1, m);
      OneMore(l, t);
    }
  }

  lemma OneMore(l: Length, t: string)
    requires t != "" && IsLetter(t[0]) && (l.hh ==> l.h)
    ensures Together(OneLetter(l, t[0]), t[1..]) == Together(l, t)
  {
  }

  lemma {:induction false} LettersWritten(s: CString, i: nat, l: Length)
    requires i <= |s|
    ensures var e := LengthAt(s, i, l).1; (forall c <- s[i..e] :: IsLetter(c)) && !IsLetter(At(s, e))
    decreases |s| - i
  {
    if IsLetter(At(s, i)) {
      var e := LengthAt(s, i, l).1;
      assert LengthAt(s, i, l) == LengthAt(s, i + 1, OneLetter(l, s[i]));
      LettersWritten(s, i + 1, OneLetter(l, s[i]));
      assert s[i..e] == [s[i]] + s[i + 1..e];
    }
  }

  // ---- The parts together ----

  /** The parts behind the '%' at i. */
  predicate PartsAt(s: string, i: nat, w: Form) {
    && Has(s, i + 1, PositionText(w.position)) && Has(s, FlagsFrom(w, i), w.flags)
    && Has(s, WidthFrom(w, i), AmountText(w.width)) && Has(s, PrecisionFrom(w, i), PrecisionText(w.precision))
    && Has(s, LettersFrom(w, i), w.letters) && Has(s, ConversionFrom(w, i), [w.conversion])
  }

  lemma Parts(s: string, i: nat, w: Form)
    ensures Has(s, i, Text(w)) <==> Has(s, i, "%") && PartsAt(s, i, w)
    ensures |Text(w)| == ConversionFrom(w, i) + 1 - i
  {
    hide Has, PositionText, AmountText, PrecisionText;
    var t1 := w.letters + [w.conversion];
    var t2 := PrecisionText(w.precision) + t1;
    var t3 := AmountText(w.width) + t2;
    var t4 := w.flags + t3;
    HasParts(s, LettersFrom(w, i), w.letters, [w.conversion]);
    HasParts(s, PrecisionFrom(w, i), PrecisionText(w.precision), t1);
    HasParts(s, WidthFrom(w, i), AmountText(w.width), t2);
    HasParts(s, FlagsFrom(w, i), w.flags, t3);
    HasParts(s, i + 1, PositionText(w.position), t4);
    HasParts(s, i, "%", PositionText(w.position) + t4);
  }

  /** A length modifier or a conversion: nothing that a position, flag, width or precision begins with. */
  predicate IsTail(c: char) {
    IsLetter(c) || IsConversion(c)
  }

  lemma TailChars(c: char)
    requires IsTail(c)
    ensures !IsDigit(c) && !IsFlag(c) && c != '*' && c != '.' && c != '$' && c != '\0'
    ensures IsLetter(c) ==> !IsConversion(c)
  {
  }

  lemma ConversionStarts(s: CString, i: nat, w: Form)
    requires FormOk(w) && PartsAt(s, i, w)
    ensures var e := ConversionFrom(w, i); e < |s| && At(s, e) == w.conversion && IsConversion(At(s, e))
  {
    hide IsLetter, IsConversion, IsFlag, AmountText, PositionText, PrecisionText, Has, ConversionFrom, PositionOk, WidthOk,
         PrecisionOk, Text;
    HasAt(s, ConversionFrom(w, i), [w.conversion], 0);
  }

  lemma LettersStart(s: CString, i: nat, w: Form)
    requires FormOk(w) && PartsAt(s, i, w)
    ensures if w.letters == "" then LettersFrom(w, i) == ConversionFrom(w, i) else IsLetter(At(s, LettersFrom(w, i)))
  {
    hide IsLetter, IsConversion, IsFlag, AmountText, PositionText, PrecisionText, Has, LettersFrom, PositionOk, WidthOk,
         PrecisionOk, Text;
    if w.letters != "" {
      HasAt(s, LettersFrom(w, i), w.letters, 0);
      assert w.letters[0] in w.letters;
    }
  }

  lemma PrecisionStarts(s: CString, i: nat, w: Form)
    requires FormOk(w) && PartsAt(s, i, w)
    ensures if w.precision.NoAmount? then LettersFrom(w, i) == PrecisionFrom(w, i) else At(s, PrecisionFrom(w, i)) == '.'
  {
    hide IsLetter, IsConversion, IsFlag, AmountText, PositionText, Has, PrecisionFrom, PositionOk, WidthOk, PrecisionOk,
         Text;
    if !w.precision.NoAmount? { HasAt(s, PrecisionFrom(w, i), PrecisionText(w.precision), 0); }
  }

  /** What the precision, the letters and the conversion begin with. */
  lemma Boundaries(s: CString, i: nat, w: Form)
    requires FormOk(w) && PartsAt(s, i, w)
    ensures var e, l, p := ConversionFrom(w, i), LettersFrom(w, i), PrecisionFrom(w, i);
            && e < |s| && At(s, e) == w.conversion && IsTail(At(s, l))
            && At(s, p) == (if w.precision.NoAmount? then At(s, l) else '.')
  {
    ConversionStarts(s, i, w);
    LettersStart(s, i, w);
    PrecisionStarts(s, i, w);
    hide FormOk, PartsAt, ConversionFrom, LettersFrom, PrecisionFrom, At, IsLetter, IsConversion;
  }

  lemma StarRead(s: CString, from: nat, i: nat, p: Option<string>)
    requires from <= i < |s| && PositionOk(p) && Has(s, i, PositionText(p)) && !IsDigit(At(s, i + |PositionText(p)|))
    ensures StarAt(s, from, i) == Field(Some(Span(from, i)), true, IndexMeant(p), i + |PositionText(p)|)
  {
    hide PositionAt, Value;
    if p.Some? {
      PositionRead(s, i, p.value);
    } else {
      NoPositionHere(s, i);
    }
  }

  lemma NoPositionHere(s: CString, i: nat)
    requires i <= |s| && !IsDigit(At(s, i))
    ensures PositionAt(s, i) == NoPosition
  {
  }

  lemma DigitsHere(s: CString, i: nat, t: string)
    requires Has(s, i, t) && AllDigits(t) && !IsDigit(At(s, i + |t|))
    ensures DigitsEnd(s, i) == i + |t|
  {
    forall k | i <= k < i + |t| ensures IsDigit(s[k]) {
      HasAt(s, i, t, k - i);
      assert t[k - i] in t;
    }
    DigitsRead(s, i, i + |t|);
  }

  lemma WidthRead(s: CString, i: nat, a: Amount)
    requires WidthOk(a) && Has(s, i, AmountText(a)) && i + |AmountText(a)| < |s|
    requires var c := At(s, i + |AmountText(a)|); !IsDigit(c) && c != '*'
    ensures WidthAt(s, i) == WidthMeant(a, i)
  {
    hide StarAt, DigitsEnd, Has, PositionText;
    match a
    case NoAmount => {}
    case Digits(t) => { WidthDigitsRead(s, i, t); }
    case Star(p) => { WidthStarRead(s, i, p); }
  }

  lemma WidthDigitsRead(s: CString, i: nat, t: string)
    requires AllDigits(t) && t != "" && Has(s, i, t) && !IsDigit(At(s, i + |t|))
    ensures WidthAt(s, i) == Field(Some(Span(i, i + |t|)), false, None, i + |t|)
  {
    hide StarAt, DigitsEnd, Has;
    HasAt(s, i, t, 0);
    assert t[0] in t;
    DigitsHere(s, i, t);
  }

  lemma WidthStarRead(s: CString, i: nat, p: Option<string>)
    requires PositionOk(p) && Has(s, i, "*" + PositionText(p)) && i + 1 + |PositionText(p)| < |s|
    requires !IsDigit(At(s, i + 1 + |PositionText(p)|))
    ensures WidthAt(s, i) == Field(Some(Span(i, i + 1)), true, IndexMeant(p), i + 1 + |PositionText(p)|)
  {
    hide StarAt, Has, PositionText, IndexMeant, PositionOk;
    HasParts(s, i, "*", PositionText(p));
    HasAt(s, i, "*", 0);
    StarRead(s, i, i + 1, p);
  }

  lemma PrecisionRead(s: CString, i: nat, a: Amount)
    requires PrecisionOk(a) && Has(s, i, PrecisionText(a)) && i + |PrecisionText(a)| < |s|
    requires var c := At(s, i + |PrecisionText(a)|); !IsDigit(c) && c != '*' && c != '.'
    ensures PrecisionAt(s, i) == PrecisionMeant(a, i)
  {
    hide StarAt, DigitsEnd, PositionText, Has;
    if !a.NoAmount? {
      HasParts(s, i, ".", AmountText(a));
      HasAt(s, i, ".", 0);
      if a.Star? { PrecisionStar(s, i, a); } else { PrecisionDigits(s, i, a); }
    }
  }

  lemma PrecisionStar(s: CString, i: nat, a: Amount)
    requires a.Star? && PositionOk(a.position) && Has(s, i + 1, AmountText(a)) && i + 1 + |AmountText(a)| < |s|
    requires At(s, i) == '.' && !IsDigit(At(s, i + 1 + |AmountText(a)|))
    ensures PrecisionAt(s, i) == PrecisionMeant(a, i)
  {
    hide StarAt, Has, PositionText, IndexMeant;
    HasParts(s, i + 1, "*", PositionText(a.position));
    HasAt(s, i + 1, "*", 0);
    StarRead(s, i, i + 2, a.position);
  }

  lemma PrecisionDigits(s: CString, i: nat, a: Amount)
    requires a.Digits? && AllDigits(a.text) && Has(s, i + 1, a.text) && i + 1 + |a.text| < |s|
    requires At(s, i) == '.' && var c := At(s, i + 1 + |a.text|); !IsDigit(c) && c != '*'
    ensures PrecisionAt(s, i) == PrecisionMeant(a, i)
  {
    hide StarAt, DigitsEnd, Has;
    if a.text != "" {
      HasAt(s, i + 1, a.text, 0);
      assert a.text[0] in a.text;
    }
    DigitsHere(s, i + 1, a.text);
  }

  lemma NoDollarIn(s: string, i: nat, t: string)
    requires Has(s, i, t) && forall c <- t :: IsFlag(c) || IsDigit(c)
    ensures forall k :: i <= k < i + |t| ==> s[k] != '$'
  {
    forall k | i <= k < i + |t| ensures s[k] != '$' {
      HasAt(s, i, t, k - i);
      assert t[k - i] in t;
    }
  }

  /** What a width begins with, if there is one. */
  lemma WidthStarts(s: CString, i: nat, w: Form)
    requires FormOk(w) && PartsAt(s, i, w)
    ensures var c := At(s, WidthFrom(w, i));
            match w.width
            case NoAmount => WidthFrom(w, i) == PrecisionFrom(w, i)
            case Digits(_) => IsDigit(c) && c != '0'
            case Star(_) => c == '*'
  {
    hide IsLetter, IsConversion, IsFlag, PrecisionText, PositionText, Value, Has, Text, WidthFrom;
    if !w.width.NoAmount? { HasAt(s, WidthFrom(w, i), AmountText(w.width), 0); }
    if w.width.Digits? { assert w.width.text[0] in w.width.text; }
  }

  lemma FieldChars(c: char)
    requires (IsDigit(c) && c != '0') || c == '*' || c == '.'
    ensures !IsFlag(c) && c != '\0' && c != '$' && (c == '*' || c == '.' ==> !IsDigit(c))
  {
  }

  /** What the flags are followed by is no flag. */
  lemma AfterFlags(s: CString, i: nat, w: Form)
    requires FormOk(w) && PartsAt(s, i, w)
    ensures !IsFlag(At(s, WidthFrom(w, i)))
    ensures !w.width.Digits? ==> var c := At(s, WidthFrom(w, i)); !IsDigit(c) && c != '$' && c != '\0'
  {
    hide *;
    Boundaries(s, i, w);
    WidthStarts(s, i, w);
    var c := At(s, WidthFrom(w, i));
    if w.width.NoAmount? && w.precision.NoAmount? { TailChars(c); } else { FieldChars(c); }
  }

  /** Flags and the digits of a width are no position. */
  lemma NoPositionText(s: CString, i: nat, flags: string, digits: string)
    requires Has(s, i, flags) && (forall c <- flags :: IsFlag(c)) && Has(s, i + |flags|, digits) && AllDigits(digits)
    requires var c := At(s, i + |flags| + |digits|); !IsDigit(c) && c != '$' && c != '\0'
    ensures PositionAt(s, i) == NoPosition
  {
    hide Has, PositionAt, IsFlag, IsDigit;
    NoDollarIn(s, i, flags);
    NoDollarIn(s, i + |flags|, digits);
    NoPositionRead(s, i, i + |flags| + |digits|);
  }

  function WidthDigits(a: Amount): string {
    if a.Digits? then a.text else ""
  }

  /** The character behind the flags and the digits of a width. */
  lemma AfterWidth(s: CString, i: nat, w: Form)
    requires FormOk(w) && PartsAt(s, i, w)
    ensures var t := WidthDigits(w.width);
            && Has(s, WidthFrom(w, i), t) && AllDigits(t)
            && var c := At(s, WidthFrom(w, i) + |t|); !IsDigit(c) && c != '$' && c != '\0'
  {
    hide *;
    if w.width.Digits? {
      Boundaries(s, i, w);
      TailChars(At(s, LettersFrom(w, i)));
      DigitsPart(s, i, w);
    } else {
      AfterFlags(s, i, w);
      InText(s, WidthFrom(w, i));
      NothingHere(s, WidthFrom(w, i));
      NoWidthDigits(w.width);
    }
  }

  lemma DigitsPart(s: CString, i: nat, w: Form)
    requires FormOk(w) && PartsAt(s, i, w) && w.width.Digits?
    ensures var t := WidthDigits(w.width);
            Has(s, WidthFrom(w, i), t) && AllDigits(t) && PrecisionFrom(w, i) == WidthFrom(w, i) + |t|
    ensures !IsDigit('.')
  {
    hide Has, IsFlag, IsLetter, IsConversion, Text, PositionOk, PositionText, PrecisionText, FlagsFrom;
  }

  lemma NoWidthDigits(a: Amount)
    requires !a.Digits?
    ensures WidthDigits(a) == "" && AllDigits("")
  {
  }

  lemma PositionIs(s: CString, i: nat, w: Form)
    requires FormOk(w) && PartsAt(s, i, w)
    ensures PositionAt(s, i + 1)
            == if w.position.Some? then Position(IndexMeant(w.position).value, FlagsFrom(w, i)) else NoPosition
  {
    if w.position.Some? { PositionGiven(s, i, w); } else { PositionMissing(s, i, w); }
    hide *;
  }

  lemma PositionGiven(s: CString, i: nat, w: Form)
    requires FormOk(w) && PartsAt(s, i, w) && w.position.Some?
    ensures PositionAt(s, i + 1) == Position(IndexMeant(w.position).value, FlagsFrom(w, i))
  {
    hide IsConversion, IsLetter, IsFlag, PrecisionText, AmountText, Value, Has, PositionAt, WidthOk, PrecisionOk, Text;
    PositionRead(s, i + 1, w.position.value);
  }

  lemma PositionMissing(s: CString, i: nat, w: Form)
    requires FormOk(w) && PartsAt(s, i, w) && w.position.None?
    ensures PositionAt(s, i + 1) == NoPosition
  {
    hide *;
    AfterWidth(s, i, w);
    FlagsPart(s, i, w);
    NoPositionText(s, i + 1, w.flags, WidthDigits(w.width));
  }

  lemma FlagsPart(s: CString, i: nat, w: Form)
    requires FormOk(w) && PartsAt(s, i, w)
    ensures Has(s, FlagsFrom(w, i), w.flags) && (forall c <- w.flags :: IsFlag(c))
    ensures WidthFrom(w, i) == FlagsFrom(w, i) + |w.flags| && (w.position.None? ==> FlagsFrom(w, i) == i + 1)
  {
    hide Has, IsFlag, Text;
  }

  lemma LettersPart(s: CString, i: nat, w: Form)
    requires FormOk(w) && PartsAt(s, i, w)
    ensures Has(s, LettersFrom(w, i), w.letters) && (forall c <- w.letters :: IsLetter(c))
    ensures ConversionFrom(w, i) == LettersFrom(w, i) + |w.letters| && !IsLetter(w.conversion)
  {
    hide Has, IsFlag, Text, PositionOk, WidthOk, PrecisionOk, LettersFrom;
    if IsLetter(w.conversion) { TailChars(w.conversion); }
  }

  lemma InText(s: CString, q: nat)
    ensures q < |s| <==> At(s, q) != '\0'
  {
  }

  lemma EitherNothing(f: Flags)
    ensures Either(NO_FLAGS, f) == f
  {
  }

  lemma FlagsAre(s: CString, i: nat, w: Form)
    requires FormOk(w) && PartsAt(s, i, w)
    ensures FlagsAt(s, FlagsFrom(w, i), NO_FLAGS) == (FlagsMeant(w.flags), WidthFrom(w, i))
  {
    hide *;
    AfterFlags(s, i, w);
    FlagsPart(s, i, w);
    FlagsRead(s, FlagsFrom(w, i), w.flags, NO_FLAGS);
    EitherNothing(FlagsMeant(w.flags));
  }

  lemma FieldsPart(s: CString, i: nat, w: Form)
    requires FormOk(w) && PartsAt(s, i, w)
    ensures Has(s, WidthFrom(w, i), AmountText(w.width)) && WidthOk(w.width)
    ensures Has(s, PrecisionFrom(w, i), PrecisionText(w.precision)) && PrecisionOk(w.precision)
    ensures PrecisionFrom(w, i) == WidthFrom(w, i) + |AmountText(w.width)|
    ensures LettersFrom(w, i) == PrecisionFrom(w, i) + |PrecisionText(w.precision)| <= ConversionFrom(w, i)
  {
    hide Has, Text, WidthOk, PrecisionOk, PositionOk, AmountText, PrecisionText, WidthFrom;
  }

  lemma FieldsAre(s: CString, i: nat, w: Form)
    requires FormOk(w) && PartsAt(s, i, w)
    ensures WidthAt(s, WidthFrom(w, i)) == WidthMeant(w.width, WidthFrom(w, i))
    ensures PrecisionAt(s, PrecisionFrom(w, i)) == PrecisionMeant(w.precision, PrecisionFrom(w, i))
  {
    hide *;
    Boundaries(s, i, w);
    FieldsPart(s, i, w);
    TailChars(At(s, LettersFrom(w, i)));
    if !w.precision.NoAmount? { FieldChars('.'); }
    WidthRead(s, WidthFrom(w, i), w.width);
    PrecisionRead(s, PrecisionFrom(w, i), w.precision);
  }

  lemma TogetherNothing(t: string)
    ensures Together(NO_LENGTH, t) == LettersMeant(t) && !NO_LENGTH.hh
  {
    hide Count;
  }

  lemma LettersAre(s: CString, i: nat, w: Form)
    requires FormOk(w) && PartsAt(s, i, w)
    ensures LengthAt(s, LettersFrom(w, i), NO_LENGTH) == (LettersMeant(w.letters), ConversionFrom(w, i))
  {
    hide *;
    Boundaries(s, i, w);
    LettersPart(s, i, w);
    TogetherNothing(w.letters);
    LettersRead(s, LettersFrom(w, i), w.letters, NO_LENGTH);
  }

  lemma NextAre(w: Form, i: nat)
    requires FormOk(w)
    ensures WidthOk(w.width) && PrecisionOk(w.precision)
    ensures WidthMeant(w.width, WidthFrom(w, i)).Field?
    ensures WidthMeant(w.width, WidthFrom(w, i)).next == PrecisionFrom(w, i)
    ensures PrecisionMeant(w.precision, PrecisionFrom(w, i)).Field?
    ensures PrecisionMeant(w.precision, PrecisionFrom(w, i)).next == LettersFrom(w, i)
  {
    hide PositionText, IndexMeant;
  }

  /** DirectiveAt, part by part. */
  lemma Assemble(s: CString, i: nat, p: Position, f: Flags, i2: nat, w: Field, pr: Field, l: Length, i4: nat)
    requires i < |s| && PositionAt(s, i + 1) == p && !p.BadPosition?
    requires FlagsAt(s, if p.Position? then p.next else i + 1, NO_FLAGS) == (f, i2)
    requires w.Field? && WidthAt(s, i2) == w && pr.Field? && PrecisionAt(s, w.next) == pr
    requires LengthAt(s, pr.next, NO_LENGTH) == (l, i4)
    ensures DirectiveAt(s, i)
            == match Conversion(At(s, i4), l)
               case None => None
               case Some((t, c)) => Some(Raw(i, i4 + 1, f, w, pr, c, t, if p.Position? then Some(p.index) else None))
  {
    hide PositionAt, FlagsAt, WidthAt, PrecisionAt, LengthAt, Conversion, At;
  }

  lemma ReadsParts(s: CString, i: nat, w: Form)
    requires i < |s| && FormOk(w) && PartsAt(s, i, w)
    ensures DirectiveAt(s, i) == Some(Meant(w, i))
  {
    hide *;
    Boundaries(s, i, w);
    PositionIs(s, i, w);
    FlagsAre(s, i, w);
    FieldsAre(s, i, w);
    LettersAre(s, i, w);
    NextAre(w, i);
    MeantParts(w, i);
    Assemble(s, i, PositionAt(s, i + 1), FlagsMeant(w.flags), WidthFrom(w, i), WidthMeant(w.width, WidthFrom(w, i)),
             PrecisionMeant(w.precision, PrecisionFrom(w, i)), LettersMeant(w.letters), ConversionFrom(w, i));
  }

  /** DirectiveAt reads what is written, whatever stands around it. */
  lemma ReadsWritten(s: CString, i: nat, w: Form)
    requires FormOk(w) && Has(s, i, Text(w))
    ensures i < |s| && DirectiveAt(s, i) == Some(Meant(w, i)) && Meant(w, i).end == i + |Text(w)|
  {
    Parts(s, i, w);
    MeantParts(w, i);
    hide PartsAt, Text, DirectiveAt, Meant, FormOk;
    ReadsParts(s, i, w);
  }

  lemma MeantParts(w: Form, i: nat)
    requires FormOk(w)
    ensures var c := Conversion(w.conversion, LettersMeant(w.letters));
            && c.Some?
            && Meant(w, i) == Raw(i, ConversionFrom(w, i) + 1, FlagsMeant(w.flags), WidthMeant(w.width, WidthFrom(w, i)),
                                  PrecisionMeant(w.precision, PrecisionFrom(w, i)), c.value.1, c.value.0,
                                  IndexMeant(w.position))
    ensures w.position.None? ==> FlagsFrom(w, i) == i + 1 && IndexMeant(w.position) == None
    ensures w.position.Some? ==> IndexMeant(w.position).Some?
  {
    hide FlagsMeant, WidthMeant, PrecisionMeant, ConversionFrom, WidthFrom, PrecisionFrom, LettersMeant, Conversion, Value;
    ConversionKnown(w.conversion, LettersMeant(w.letters));
  }

  // ---- Every directive that is read is written like this ----

  function PositionForm(s: CString, i: nat): Option<string>
    requires i <= |s|
  {
    var p := PositionAt(s, i);
    if p.Position? then Some(s[i..p.next - 1]) else None
  }

  function WidthForm(s: CString, i: nat): Amount
    requires i <= |s|
  {
    if At(s, i) == '*' then Star(PositionForm(s, i + 1))
    else if IsDigit(At(s, i)) then Digits(s[i..DigitsEnd(s, i)])
    else NoAmount
  }

  function PrecisionForm(s: CString, i: nat): Amount
    requires i <= |s|
  {
    if At(s, i) != '.' then NoAmount
    else if At(s, i + 1) == '*' then Star(PositionForm(s, i + 2))
    else Digits(s[i + 1..DigitsEnd(s, i + 1)])
  }

  /** How the directive at i is written. */
  function FormAt(s: CString, i: nat): Form
    requires i < |s| && DirectiveAt(s, i).Some?
  {
    var p := PositionAt(s, i + 1);
    var i1 := if p.Position? then p.next else i + 1;
    var i2 := FlagsAt(s, i1, NO_FLAGS).1;
    var i3 := WidthAt(s, i2).next;
    var i4 := PrecisionAt(s, i3).next;
    var i5 := LengthAt(s, i4, NO_LENGTH).1;
    Form(PositionForm(s, i + 1), s[i1..i2], WidthForm(s, i2), PrecisionForm(s, i3), s[i4..i5], At(s, i5))
  }

  lemma PositionFormed(s: CString, i: nat)
    requires i <= |s| && !PositionAt(s, i).BadPosition?
    ensures var t := PositionForm(s, i);
            && PositionOk(t) && Has(s, i, PositionText(t))
            && i + |PositionText(t)| == (if PositionAt(s, i).Position? then PositionAt(s, i).next else i)
  {
    if PositionAt(s, i).Position? { PositionWritten(s, i); }
    hide PositionAt, Value;
  }

  lemma WidthFormed(s: CString, i: nat)
    requires i <= |s| && WidthAt(s, i).Field? && !IsFlag(At(s, i))
    ensures var a := WidthForm(s, i);
            WidthOk(a) && Has(s, i, AmountText(a)) && WidthAt(s, i).next == i + |AmountText(a)|
  {
    hide PositionAt;
    if At(s, i) == '*' {
      PositionFormed(s, i + 1);
      hide PositionForm, PositionOk, PositionText;
      HasParts(s, i, "*", PositionText(PositionForm(s, i + 1)));
    }
  }

  lemma PrecisionFormed(s: CString, i: nat)
    requires i <= |s| && PrecisionAt(s, i).Field?
    ensures var a := PrecisionForm(s, i);
            PrecisionOk(a) && Has(s, i, PrecisionText(a)) && PrecisionAt(s, i).next == i + |PrecisionText(a)|
  {
    hide PositionAt, PositionForm, PositionOk, PositionText, Has, DigitsEnd;
    if At(s, i) == '.' {
      DotHere(s, i);
      var a := PrecisionForm(s, i);
      HasParts(s, i, ".", AmountText(a));
      if At(s, i + 1) == '*' {
        StarHere(s, i + 1);
        PositionFormed(s, i + 2);
        HasParts(s, i + 1, "*", PositionText(PositionForm(s, i + 2)));
      } else {
        HasSlice(s, i + 1, DigitsEnd(s, i + 1));
        SliceDigits(s, i + 1);
      }
    } else {
      NothingHere(s, i);
    }
  }

  lemma DotHere(s: CString, i: nat)
    requires At(s, i) == '.'
    ensures i < |s| && Has(s, i, ".")
  {
  }

  lemma StarHere(s: CString, i: nat)
    requires At(s, i) == '*'
    ensures i < |s| && Has(s, i, "*")
  {
  }

  lemma SliceDigits(s: CString, i: nat)
    requires i <= |s|
    ensures AllDigits(s[i..DigitsEnd(s, i)])
  {
  }

  /** What a directive is made of. */
  lemma Disassemble(s: CString, i: nat)
    requires i < |s| && DirectiveAt(s, i).Some?
    ensures var p := PositionAt(s, i + 1);
            var i1 := if p.Position? then p.next else i + 1;
            var i2 := FlagsAt(s, i1, NO_FLAGS).1;
            var i3 := WidthAt(s, i2).next;
            var i4 := PrecisionAt(s, i3).next;
            var (l, i5) := LengthAt(s, i4, NO_LENGTH);
            && !p.BadPosition? && WidthAt(s, i2).Field? && PrecisionAt(s, i3).Field?
            && Conversion(At(s, i5), l).Some?
  {
    hide PositionAt, FlagsAt, WidthAt, PrecisionAt, LengthAt, Conversion, At;
  }

  lemma PartsFrom(s: CString, i: nat, i1: nat, i2: nat, i3: nat, i4: nat, i5: nat, w: Form)
    requires Has(s, i + 1, PositionText(w.position)) && i1 == i + 1 + |PositionText(w.position)|
    requires Has(s, i1, w.flags) && i2 == i1 + |w.flags|
    requires Has(s, i2, AmountText(w.width)) && i3 == i2 + |AmountText(w.width)|
    requires Has(s, i3, PrecisionText(w.precision)) && i4 == i3 + |PrecisionText(w.precision)|
    requires Has(s, i4, w.letters) && i5 == i4 + |w.letters| && Has(s, i5, [w.conversion])
    ensures PartsAt(s, i, w)
  {
    hide Has, PositionText, AmountText, PrecisionText;
  }

  lemma CharHere(s: CString, i: nat)
    requires i < |s|
    ensures Has(s, i, [s[i]])
  {
  }

  lemma Formed(s: CString, i: nat)
    requires i < |s| && DirectiveAt(s, i).Some?
    ensures FormOk(FormAt(s, i)) && PartsAt(s, i, FormAt(s, i))
  {
    hide PositionAt, FlagsAt, WidthAt, PrecisionAt, LengthAt, Conversion, PositionForm, WidthForm, DirectiveAt,
         PrecisionForm, IsFlag, IsLetter, IsConversion, PositionOk, WidthOk, PrecisionOk, PositionText, AmountText,
         PrecisionText, Has, PartsAt;
    Disassemble(s, i);
    var p := PositionAt(s, i + 1);
    var i1 := if p.Position? then p.next else i + 1;
    var i2 := FlagsAt(s, i1, NO_FLAGS).1;
    var i3 := WidthAt(s, i2).next;
    var i4 := PrecisionAt(s, i3).next;
    var (l, i5) := LengthAt(s, i4, NO_LENGTH);
    PositionFormed(s, i + 1);
    FlagsWritten(s, i1, NO_FLAGS);
    HasSlice(s, i1, i2);
    WidthFormed(s, i2);
    PrecisionFormed(s, i3);
    LettersWritten(s, i4, NO_LENGTH);
    HasSlice(s, i4, i5);
    ConversionKnown(At(s, i5), l);
    ConversionHere(s, i5);
    CharHere(s, i5);
    PartsFrom(s, i, i1, i2, i3, i4, i5, FormAt(s, i));
  }

  lemma ConversionHere(s: CString, i: nat)
    requires IsConversion(At(s, i))
    ensures i < |s|
  {
  }

  /** Exactly the written directives are read, each as what it means. */
  lemma ReadExactly(s: CString, i: nat, r: Raw)
    requires i < |s| && s[i] == '%'
    ensures DirectiveAt(s, i) == Some(r) <==> exists w: Form :: FormOk(w) && Has(s, i, Text(w)) && Meant(w, i) == r
  {
    hide *;
    if DirectiveAt(s, i) == Some(r) {
      var w := FormAt(s, i);
      Formed(s, i);
      CharHere(s, i);
      Parts(s, i, w);
      ReadsParts(s, i, w);
      assert Meant(w, i) == r;
    }
    forall w: Form | FormOk(w) && Has(s, i, Text(w)) && Meant(w, i) == r ensures DirectiveAt(s, i) == Some(r) {
      ReadsWritten(s, i, w);
    }
  }

  // ---- The argument types of ISO C 99 ----

  /** The type of the argument, by section 7.19.6.1 of ISO C 99: intmax_t, size_t and ptrdiff_t are
      long, and "lc" and "ls" may be written "C" and "S". None where the section defines none. */
  function IsoType(modifier: string, c: char): Option<ArgType> {
    match c
    case 'd' | 'i' =>
      if modifier == "hh" then Some(SChar)
      else if modifier == "h" then Some(Short)
      else if modifier == "" then Some(Int)
      else if modifier in {"l", "j", "z", "t"} then Some(Long)
      else if modifier == "ll" then Some(LongLong)
      else None
    case 'o' | 'u' | 'x' | 'X' =>
      if modifier == "hh" then Some(UChar)
      else if modifier == "h" then Some(UShort)
      else if modifier == "" then Some(UInt)
      else if modifier in {"l", "j", "z", "t"} then Some(ULong)
      else if modifier == "ll" then Some(ULongLong)
      else None
    case 'f' | 'F' | 'e' | 'E' | 'g' | 'G' | 'a' | 'A' =>
      if modifier == "" || modifier == "l" then Some(Double) else if modifier == "L" then Some(LongDouble) else None
    case 'c' => if modifier == "" then Some(Char) else if modifier == "l" then Some(WideChar) else None
    case 's' => if modifier == "" then Some(Str) else if modifier == "l" then Some(WideStr) else None
    case 'C' => if modifier == "" then Some(WideChar) else None
    case 'S' => if modifier == "" then Some(WideStr) else None
    case 'p' => if modifier == "" then Some(Pointer) else None
    case 'n' =>
      if modifier == "hh" then Some(CountSChar)
      else if modifier == "h" then Some(CountShort)
      else if modifier == "" then Some(CountInt)
      else if modifier in {"l", "j", "z", "t"} then Some(CountLong)
      else if modifier == "ll" then Some(CountLongLong)
      else None
    case '%' => if modifier == "" then Some(NoType) else None
    case _ => None
  }

  function IsoConversion(c: char): char {
    if c == 'C' then 'c' else if c == 'S' then 's' else c
  }

  lemma NoLetter()
    ensures LettersMeant("") == NO_LENGTH
  {
  }

  lemma CountOne(a: char, letters: string)
    ensures Count([a], letters) == if a in letters then 1 else 0
  {
    assert Count([a][1..], letters) == 0;
  }

  lemma CountTwo(a: char, letters: string)
    ensures Count([a, a], letters) == if a in letters then 2 else 0
  {
    CountOne(a, letters);
    assert [a, a][1..] == [a];
  }

  lemma OneLetterMeant(a: char)
    requires IsLetter(a)
    ensures LettersMeant([a]) == Length(a == 'h', false, a == 'L', if a == 'h' || a == 'L' then 0 else 1)
  {
    hide Count;
    CountOne(a, "h");
    CountOne(a, "L");
    CountOne(a, "ljzZt");
  }

  lemma TwoLettersMeant(a: char)
    requires a == 'h' || a == 'l'
    ensures LettersMeant([a, a]) == Length(a == 'h', a == 'h', false, if a == 'h' then 0 else 2)
  {
    hide Count;
    CountTwo(a, "h");
    CountTwo(a, "L");
    CountTwo(a, "ljzZt");
  }

  lemma ModifiersMeant()
    ensures LettersMeant("") == NO_LENGTH && LettersMeant("h") == Length(true, false, false, 0)
    ensures LettersMeant("hh") == Length(true, true, false, 0) && LettersMeant("L") == Length(false, false, true, 0)
    ensures LettersMeant("ll") == Length(false, false, false, 2)
    ensures forall m <- {"l", "j", "z", "t"} :: LettersMeant(m) == Length(false, false, false, 1)
  {
    hide LettersMeant;
    NoLetter();
    OneLetterMeant('h');
    OneLetterMeant('L');
    OneLetterMeant('l');
    OneLetterMeant('j');
    OneLetterMeant('z');
    OneLetterMeant('t');
    TwoLettersMeant('h');
    TwoLettersMeant('l');
  }

  /** The argument type is that of ISO C 99 wherever that defines one. */
  lemma ReadsIso(s: CString, i: nat, w: Form)
    requires FormOk(w) && Has(s, i, Text(w)) && IsoType(w.letters, w.conversion).Some?
    ensures i < |s| && DirectiveAt(s, i).Some?
    ensures var r := DirectiveAt(s, i).value;
            r.atype == IsoType(w.letters, w.conversion).value && r.conversion == IsoConversion(w.conversion)
  {
    ReadsWritten(s, i, w);
    MeantParts(w, i);
    IsoConversions(w.letters, w.conversion);
    hide *;
  }

  lemma IsoConversions(m: string, c: char)
    requires IsoType(m, c).Some?
    ensures Conversion(c, LettersMeant(m)) == Some((IsoType(m, c).value, IsoConversion(c)))
  {
    ModifiersMeant();
    hide LettersMeant;
  }

  // ---- All combinations of letters, also those that ISO C 99 leaves open ----

  /** How large an integer the letters ask for: from char, 0, to long long, 4. */
  function SizeOfLetters(letters: string): nat {
    if 'L' in letters || Count(letters, "ljzZt") >= 2 then 4
    else if Count(letters, "ljzZt") == 1 then 3
    else if Count(letters, "h") == 0 then 2
    else if Count(letters, "h") == 1 then 1 else 0
  }

  function TypeOfLetters(letters: string, c: char): ArgType {
    var size := SizeOfLetters(letters);
    if c in "di" then [SChar, Short, Int, Long, LongLong][size]
    else if c in "ouxX" then [UChar, UShort, UInt, ULong, ULongLong][size]
    else if c == 'n' then [CountSChar, CountShort, CountInt, CountLong, CountLongLong][size]
    else if c in "aAeEfFgG" then (if size == 4 then LongDouble else Double)
    else if c == 'C' then WideChar
    else if c == 'S' then WideStr
    else if c == 'c' then (if Count(letters, "ljzZt") == 0 then Char else WideChar)
    else if c == 's' then (if Count(letters, "ljzZt") == 0 then Str else WideStr)
    else if c == 'p' then Pointer
    else NoType
  }

  lemma {:induction false} CountsBig(letters: string)
    ensures Count(letters, "L") >= 1 <==> 'L' in letters
  {
    if letters != "" {
      CountsBig(letters[1..]);
      assert letters == [letters[0]] + letters[1..];
    }
  }

  lemma ConversionOfLetters(letters: string, c: char)
    requires IsConversion(c)
    ensures Conversion(c, LettersMeant(letters)).Some?
    ensures Conversion(c, LettersMeant(letters)).value.0 == TypeOfLetters(letters, c)
  {
    CountsBig(letters);
    hide Count;
  }

  /** The type of the argument is that of this table for every sequence of modifiers. */
  lemma ReadsLetters(s: CString, i: nat, w: Form)
    requires FormOk(w) && Has(s, i, Text(w))
    ensures i < |s| && DirectiveAt(s, i).Some? && DirectiveAt(s, i).value.atype == TypeOfLetters(w.letters, w.conversion)
  {
    assert IsConversion(w.conversion);
    ReadsWritten(s, i, w);
    MeantParts(w, i);
    ConversionOfLetters(w.letters, w.conversion);
    hide *;
  }
}
