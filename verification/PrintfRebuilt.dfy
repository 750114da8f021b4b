/** The directives that the engine hands to snprintf mean what the directives of the format mean. */
module PrintfRebuilt {
  import opened CStrings
  import opened PrintfArgs
  import opened PrintfEngine
  import opened PrintfParse
  import opened PrintfSyntax
  import opened PrintfWritten
  import opened Wrappers

  /** What becomes of the type of an argument that is passed on: char and short have become int. */
  function Promoted(t: ArgType): ArgType {
    if t.SChar? || t.Short? then Int else if t.UChar? || t.UShort? then UInt else t
  }

  /** A field of the one text is spelled like a field of the other, but gives no position. */
  predicate SameField(a: string, f: Field, b: string, g: Field) {
    && f.Field? && g.Field? && SpanOk(a, f.span) && SpanOk(b, g.span)
    && SpanText(a, f.span) == SpanText(b, g.span) && (f.span.Some? <==> g.span.Some?)
    && f.star == g.star && f.index.None?
  }

  function WithoutPosition(a: Amount): Amount {
    if a.Star? then Star(None) else a
  }

  /** How the directive at i is rebuilt. */
  function Rebuilt(s: CString, i: nat): Form
    requires i < |s| && DirectiveAt(s, i).Some?
  {
    var w, r := FormAt(s, i), DirectiveAt(s, i).value;
    Form(None, FlagText(r.flags), WithoutPosition(w.width), WithoutPosition(w.precision), LengthText(r.atype), r.conversion)
  }

  lemma FlagsJoin(a: string, b: string)
    ensures FlagsMeant(a + b) == Either(FlagsMeant(a), FlagsMeant(b))
    ensures (forall c <- a :: IsFlag(c)) && (forall c <- b :: IsFlag(c)) ==> forall c <- a + b :: IsFlag(c)
  {
  }

  lemma SignFlagsMean(f: Flags)
    ensures (forall c <- SignFlagText(f) :: IsFlag(c))
    ensures FlagsMeant(SignFlagText(f)) == Flags(f.group, f.left, f.showsign, false, false, false)
  {
    var x, y, z := if f.group then "'" else "", if f.left then "-" else "", if f.showsign then "+" else "";
    FlagsJoin(x, y);
    FlagsJoin(x + y, z);
  }

  lemma FillFlagsMean(f: Flags)
    ensures (forall c <- FillFlagText(f) :: IsFlag(c))
    ensures FlagsMeant(FillFlagText(f)) == Flags(false, false, false, f.space, f.alt, f.zero)
  {
    var x, y, z := if f.space then " " else "", if f.alt then "#" else "", if f.zero then "0" else "";
    FlagsJoin(x, y);
    FlagsJoin(x + y, z);
  }

  lemma FlagTextMeans(f: Flags)
    ensures (forall c <- FlagText(f) :: IsFlag(c)) && FlagsMeant(FlagText(f)) == f
  {
    SignFlagsMean(f);
    FillFlagsMean(f);
    FlagsJoin(SignFlagText(f), FillFlagText(f));
    hide SignFlagText, FillFlagText, IsFlag, FlagsMeant;
  }

  predicate IsFloating(k: char) {
    k == 'f' || k == 'F' || k == 'e' || k == 'E' || k == 'g' || k == 'G' || k == 'a' || k == 'A'
  }

  /** The types that a conversion may have. */
  predicate Fits(k: char, t: ArgType) {
    if k == 'd' || k == 'i' then t in {SChar, Short, Int, Long, LongLong}
    else if k == 'o' || k == 'u' || k == 'x' || k == 'X' then t in {UChar, UShort, UInt, ULong, ULongLong}
    else if IsFloating(k) then t in {Double, LongDouble}
    else if k == 'c' then t in {Char, WideChar}
    else if k == 's' then t in {Str, WideStr}
    else if k == 'p' then t == Pointer
    else if k == 'n' then IsCount(t)
    else k == '%' && t == NoType
  }

  lemma ConversionFits(c: char, l: Length)
    requires Conversion(c, l).Some?
    ensures var (t, k) := Conversion(c, l).value; Fits(k, t)
  {
  }

  lemma FitsConversion(k: char, t: ArgType)
    requires Fits(k, t)
    ensures IsoConversion(k) == k && IsConversion(k)
  {
  }

  lemma LettersOnly(t: ArgType)
    ensures forall x <- LengthText(t) :: IsLetter(x)
  {
  }

  /** The letters for a type ask for that type, promoted. */
  lemma LettersForType(k: char, t: ArgType)
    requires Fits(k, t) && !t.NoType? && !IsCount(t)
    ensures IsoType(LengthText(t), k) == Some(Promoted(t))
  {
  }

  /** They are read as that type, and the conversion is read as itself. */
  lemma TypeReadBack(c: char, l: Length)
    requires Conversion(c, l).Some?
    ensures var (t, k) := Conversion(c, l).value;
            && (forall x <- LengthText(t) :: IsLetter(x)) && IsConversion(k)
            && (!t.NoType? && !IsCount(t) ==>
                  Conversion(k, LettersMeant(LengthText(t))) == Some((Promoted(t), k)))
  {
    ConversionFits(c, l);
    var (t, k) := Conversion(c, l).value;
    FitsConversion(k, t);
    LettersOnly(t);
    hide Conversion, IsoType, Fits, LengthText, IsLetter, LettersMeant, IsConversion, Promoted;
    if !t.NoType? && !IsCount(t) {
      LettersForType(k, t);
      IsoConversions(LengthText(t), k);
    }
  }

  lemma WidthText(s: string, at: nat, a: Amount)
    requires WidthOk(a) && Has(s, at, AmountText(a))
    ensures var f := WidthMeant(a, at); SpanOk(s, f.span) && SpanText(s, f.span) == AmountText(WithoutPosition(a))
  {
    if a.Star? { HasParts(s, at, "*", PositionText(a.position)); }
    hide PositionText, IndexMeant;
  }

  lemma PrecisionSpan(s: string, at: nat, a: Amount)
    requires PrecisionOk(a) && Has(s, at, PrecisionText(a))
    ensures var f := PrecisionMeant(a, at); SpanOk(s, f.span) && SpanText(s, f.span) == PrecisionText(WithoutPosition(a))
  {
    if a.Star? {
      StarTexts(a.position);
      hide PrecisionText, IndexMeant, PositionText;
      HasParts(s, at, ".*", PositionText(a.position));
    }
  }

  lemma StarTexts(p: Option<string>)
    ensures PrecisionText(Star(p)) == ".*" + PositionText(p) && PrecisionText(Star(None)) == ".*"
  {
    assert PositionText(None) == "";
    hide PositionText;
    DotStar(PositionText(p));
    DotStar("");
  }

  lemma DotStar(t: string)
    ensures "." + ("*" + t) == ".*" + t
  {
  }

  lemma SameWidth(s: string, at: nat, a: Amount, text: string, at': nat)
    requires WidthOk(a) && Has(s, at, AmountText(a)) && Has(text, at', AmountText(WithoutPosition(a)))
    ensures WidthOk(WithoutPosition(a)) && SameField(text, WidthMeant(WithoutPosition(a), at'), s, WidthMeant(a, at))
  {
    WidthText(s, at, a);
    WidthText(text, at', WithoutPosition(a));
    hide SpanText, AmountText, Has;
  }

  lemma SamePrecision(s: string, at: nat, a: Amount, text: string, at': nat)
    requires PrecisionOk(a) && Has(s, at, PrecisionText(a)) && Has(text, at', PrecisionText(WithoutPosition(a)))
    ensures PrecisionOk(WithoutPosition(a))
    ensures SameField(text, PrecisionMeant(WithoutPosition(a), at'), s, PrecisionMeant(a, at))
  {
    PrecisionSpan(s, at, a);
    PrecisionSpan(text, at', WithoutPosition(a));
    hide SpanText, AmountText, PrecisionText, Has;
  }

  lemma MeantAt(s: CString, i: nat)
    requires i < |s| && DirectiveAt(s, i).Some?
    ensures FormOk(FormAt(s, i)) && PartsAt(s, i, FormAt(s, i)) && DirectiveAt(s, i).value == Meant(FormAt(s, i), i)
  {
    hide *;
    Formed(s, i);
    ReadsParts(s, i, FormAt(s, i));
  }

  /** The parts of a directive that is read, against those of its rebuilt form. */
  lemma RebuiltParts(s: CString, i: nat)
    requires i < |s| && DirectiveAt(s, i).Some?
    ensures var r, v := DirectiveAt(s, i).value, Rebuilt(s, i);
            && FormOk(v) && SpanOk(s, r.width.span) && SpanOk(s, r.precision.span)
            && v.flags == FlagText(r.flags) && FlagsMeant(v.flags) == r.flags
            && AmountText(v.width) == SpanText(s, r.width.span)
            && PrecisionText(v.precision) == SpanText(s, r.precision.span)
            && v.conversion == r.conversion
            && (!r.atype.NoType? && !IsCount(r.atype) ==>
                  Conversion(v.conversion, LettersMeant(v.letters)) == Some((Promoted(r.atype), r.conversion)))
  {
    hide DirectiveAt, FormAt, Conversion, FlagsMeant, FlagText, LettersMeant, LengthText, Value, IsConversion,
         AmountText, PrecisionText, SpanText, Has, Text, IsLetter, IsFlag, Meant, Promoted, IsCount, WidthMeant,
         PrecisionMeant;
    MeantAt(s, i);
    var w, r := FormAt(s, i), DirectiveAt(s, i).value;
    MeantParts(w, i);
    FlagTextMeans(r.flags);
    TypeReadBack(w.conversion, LettersMeant(w.letters));
    WidthText(s, WidthFrom(w, i), w.width);
    PrecisionSpan(s, PrecisionFrom(w, i), w.precision);
    StillOk(w.width, w.precision);
  }

  lemma StillOk(a: Amount, b: Amount)
    requires WidthOk(a) && PrecisionOk(b)
    ensures WidthOk(WithoutPosition(a)) && PrecisionOk(WithoutPosition(b))
  {
  }

  lemma RebuiltText(s: CString, i: nat, posn: nat)
    requires i < |s| && DirectiveAt(s, i).Some?
    ensures var r := DirectiveAt(s, i).value;
            && FieldsOk(r) && SpanOk(s, r.width.span) && SpanOk(s, r.precision.span)
            && DirectiveText(s, WithArgs(r, posn), r.atype) == Text(Rebuilt(s, i))
  {
    hide DirectiveAt, SpanText, FlagText, LengthText, AmountText, PrecisionText;
    RebuiltParts(s, i);
    hide Rebuilt, FormOk;
  }

  lemma TextNoNul(w: Form)
    requires FormOk(w)
    ensures '\0' !in Text(w)
  {
    var p := PositionText(w.position);
    assert '\0' !in p && '\0' !in AmountText(w.width) && '\0' !in PrecisionText(w.precision);
    assert '\0' !in w.flags + (AmountText(w.width) + (PrecisionText(w.precision) + (w.letters + [w.conversion])));
  }

  /** The rebuilt directive, whatever follows it, is read as the directive it was built from: the same flags and the
      same conversion, a width and a precision that are spelled the same, and the type after promotion. */
  lemma RebuiltMeansSame(s: CString, i: nat, posn: nat, rest: CString)
    requires i < |s| && DirectiveAt(s, i).Some?
    requires var t := DirectiveAt(s, i).value.atype; !t.NoType? && !IsCount(t)
    ensures var r := DirectiveAt(s, i).value;
            && FieldsOk(r) && SpanOk(s, r.width.span) && SpanOk(s, r.precision.span)
            && var text := DirectiveText(s, WithArgs(r, posn), r.atype);
            && '\0' !in text && text != ""
            && var whole: CString := text + rest;
            && DirectiveAt(whole, 0).Some?
            && var q := DirectiveAt(whole, 0).value;
            && q.end == |text| && q.flags == r.flags && q.conversion == r.conversion && q.index.None?
            && SameField(whole, q.width, s, r.width) && SameField(whole, q.precision, s, r.precision)
            && q.atype == Promoted(r.atype)
  {
    hide *;
    var r, v := DirectiveAt(s, i).value, Rebuilt(s, i);
    RebuiltText(s, i, posn);
    RebuiltParts(s, i);
    TextNoNul(v);
    var whole: CString := Text(v) + rest;
    TextFirst(v, rest);
    ReadsWritten(whole, 0, v);
    MeantParts(v, 0);
    SameFields(s, i, whole);
  }

  lemma TextFirst(v: Form, rest: string)
    ensures Text(v) != "" && Has(Text(v) + rest, 0, Text(v))
  {
  }

  lemma SameFields(s: CString, i: nat, whole: CString)
    requires i < |s| && DirectiveAt(s, i).Some? && FormOk(Rebuilt(s, i)) && Has(whole, 0, Text(Rebuilt(s, i)))
    ensures var r, v := DirectiveAt(s, i).value, Rebuilt(s, i);
            && v.position.None? && SameField(whole, WidthMeant(v.width, WidthFrom(v, 0)), s, r.width)
            && SameField(whole, PrecisionMeant(v.precision, PrecisionFrom(v, 0)), s, r.precision)
  {
    hide DirectiveAt, FormAt, Conversion, FlagsMeant, FlagText, LettersMeant, LengthText, FormOk, SameField,
         AmountText, PrecisionText, SpanText, Has, Text, Meant, Promoted, IsCount, WidthMeant, PrecisionMeant, WidthFrom,
         PrecisionFrom, WithoutPosition;
    MeantAt(s, i);
    var w, r, v := FormAt(s, i), DirectiveAt(s, i).value, Rebuilt(s, i);
    MeantParts(w, i);
    Parts(whole, 0, v);
    NextAre(w, i);
    SameWidth(s, WidthFrom(w, i), w.width, whole, WidthFrom(v, 0));
    SamePrecision(s, PrecisionFrom(w, i), w.precision, whole, PrecisionFrom(v, 0));
  }

  function CountDirective(at: nat): Raw {
    Raw(at, at + 2, NO_FLAGS, Field(None, false, None, at + 1), Field(None, false, None, at + 1), 'n', CountInt, None)
  }

  lemma CountRead(s: CString, at: nat)
    requires Has(s, at, "%n")
    ensures at < |s| && DirectiveAt(s, at) == Some(CountDirective(at))
  {
    var w := Form(None, "", NoAmount, NoAmount, "", 'n');
    assert FormOk(w) && IsoType("", 'n') == Some(CountInt);
    assert Text(w) == "%n";
    ReadsWritten(s, at, w);
    IsoConversions("", 'n');
    hide DirectiveAt, FormOk, Text, Conversion, LettersMeant, IsoType, Has;
  }

  /** With "%n" behind it, it is a format of two directives, and the second one counts into an int. */
  lemma CountFollows(text: string, q: Raw)
    requires '\0' !in text && text != "" && text[0] == '%'
    requires var whole: CString := text + "%n"; DirectiveAt(whole, 0) == Some(q) && q.end == |text|
    ensures var whole: CString := text + "%n"; ParseAll(whole, 0) == Some([q, CountDirective(|text|)])
  {
    var whole: CString := text + "%n";
    var n := CountDirective(|text|);
    CountRead(whole, |text|);
    assert n.end == |whole| && ParseAll(whole, |whole|) == Some([]);
    hide DirectiveAt, CountDirective, ParseAll;
    NextDirective(whole, 0);
    NextDirective(whole, |text|);
    assert [n] + [] == [n] && [q] + [n] == [q, n];
  }
}
