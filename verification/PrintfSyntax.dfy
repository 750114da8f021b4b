/** The syntax of format strings, as printf-parse.c reads it: positions, flags, width,
    precision, length modifiers and the conversion character. */
module PrintfSyntax {
  import opened Chars
  import opened CStrings
  import opened Wrappers
  import opened XSize

  datatype ArgType =
    | NoType | SChar | UChar | Short | UShort | Int | UInt | Long | ULong | LongLong | ULongLong
    | Double | LongDouble | Char | WideChar | Str | WideStr | Pointer
    | CountSChar | CountShort | CountInt | CountLong | CountLongLong

  datatype Flags = Flags(group: bool, left: bool, showsign: bool, space: bool, alt: bool, zero: bool)

  const NO_FLAGS := Flags(false, false, false, false, false, false)

  /** A stretch of the format string. */
  datatype Span = Span(from: nat, to: nat)

  /** The character that a pointer into the string sees. */
  function At(s: CString, i: nat): char {
    if i < |s| then s[i] else '\0'
  }

  function DigitsEnd(s: CString, i: nat): (j: nat)
    requires i <= |s|
    ensures i <= j <= |s| && (forall k :: i <= k < j ==> IsDigit(s[k])) && !IsDigit(At(s, j))
    decreases |s| - i
  {
    if i < |s| && IsDigit(s[i]) then DigitsEnd(s, i + 1) else i
  }

  /** The number that digits stand for; a number that does not fit stays at SIZE_MAX. */
  function Number(s: CString, i: nat, j: nat): SizeT
    requires i <= j <= |s|
  {
    if i == j then 0 else Xsum(Xtimes(Number(s, i, j - 1), 10), DigitValue(s[j - 1]))
  }

  // ---- Argument positions: digits and '$' ----

  datatype Position = NoPosition | BadPosition | Position(index: nat, next: nat)

  function PositionAt(s: CString, i: nat): (p: Position)
    requires i <= |s|
    ensures p.Position? ==> i < p.next - 1 < |s| && s[p.next - 1] == '$' && p.index < SIZE_MAX - 1
  {
    var j := DigitsEnd(s, i);
    if i == j || At(s, j) != '$' then NoPosition
    else if Number(s, i, j) == 0 || Number(s, i, j) == SIZE_MAX then BadPosition
    else Position(Number(s, i, j) - 1, j + 1)
  }

  // ---- Flags, width, precision ----

  function FlagsAt(s: CString, i: nat, f: Flags): (r: (Flags, nat))
    requires i <= |s|
    ensures i <= r.1 <= |s|
    decreases |s| - i
  {
    var c := At(s, i);
    if c == '\'' then FlagsAt(s, i + 1, f.(group := true))
    else if c == '-' then FlagsAt(s, i + 1, f.(left := true))
    else if c == '+' then FlagsAt(s, i + 1, f.(showsign := true))
    else if c == ' ' then FlagsAt(s, i + 1, f.(space := true))
    else if c == '#' then FlagsAt(s, i + 1, f.(alt := true))
    else if c == '0' then FlagsAt(s, i + 1, f.(zero := true))
    else (f, i)
  }

  /** A width or precision: its text, and whether it comes from an argument, and from which
      if that is given by a position. */
  datatype Field = BadField | Field(span: Option<Span>, star: bool, index: Option<nat>, next: nat)

  function StarAt(s: CString, from: nat, i: nat): (f: Field)
    requires from <= i <= |s|
    ensures f.Field? ==> f.star && f.span == Some(Span(from, i)) && i <= f.next <= |s|
  {
    match PositionAt(s, i)
    case BadPosition => BadField
    case NoPosition => Field(Some(Span(from, i)), true, None, i)
    case Position(n, next) => Field(Some(Span(from, i)), true, Some(n), next)
  }

  function WidthAt(s: CString, i: nat): (f: Field)
    requires i <= |s|
    ensures f.Field? ==> i <= f.next <= |s|
  {
    if At(s, i) == '*' then StarAt(s, i, i + 1)
    else if IsDigit(At(s, i)) then Field(Some(Span(i, DigitsEnd(s, i))), false, None, DigitsEnd(s, i))
    else Field(None, false, None, i)
  }

  function PrecisionAt(s: CString, i: nat): (f: Field)
    requires i <= |s|
    ensures f.Field? ==> i <= f.next <= |s|
  {
    if At(s, i) != '.' then Field(None, false, None, i)
    else if At(s, i + 1) == '*' then StarAt(s, i, i + 2)
    else Field(Some(Span(i, DigitsEnd(s, i + 1))), false, None, DigitsEnd(s, i + 1))
  }

  // ---- Length modifiers and conversions ----

  /** The flags of the length modifiers: bits 1, 2 and 4, and how often 8 was added. */
  datatype Length = Length(h: bool, hh: bool, big: bool, longs: nat)

  const NO_LENGTH := Length(false, false, false, 0)

  function LengthAt(s: CString, i: nat, l: Length): (r: (Length, nat))
    requires i <= |s|
    ensures i <= r.1 <= |s|
    decreases |s| - i
  {
    var c := At(s, i);
    if c == 'h' then LengthAt(s, i + 1, if l.h then l.(hh := true) else l.(h := true))
    else if c == 'L' then LengthAt(s, i + 1, l.(big := true))
    else if c in "ljzZt" then LengthAt(s, i + 1, l.(longs := l.longs + 1))
    else (l, i)
  }

  /** The type for a conversion of integers or of character counts: five sizes. */
  function Sized(l: Length, longlong: ArgType, long: ArgType, byte: ArgType, short: ArgType, plain: ArgType): ArgType {
    if l.longs >= 2 || l.big then longlong
    else if l.longs >= 1 then long
    else if l.hh then byte
    else if l.h then short
    else plain
  }

  /** The argument type and the conversion proper; none for an unknown conversion character. */
  function Conversion(c: char, l: Length): Option<(ArgType, char)> {
    if c == 'd' || c == 'i' then Some((Sized(l, LongLong, Long, SChar, Short, Int), c))
    else if c == 'o' || c == 'u' || c == 'x' || c == 'X' then Some((Sized(l, ULongLong, ULong, UChar, UShort, UInt), c))
    else if c in "fFeEgGaA" then Some((if l.longs >= 2 || l.big then LongDouble else Double, c))
    else if c == 'c' then Some((if l.longs >= 1 then WideChar else Char, c))
    else if c == 'C' then Some((WideChar, 'c'))
    else if c == 's' then Some((if l.longs >= 1 then WideStr else Str, c))
    else if c == 'S' then Some((WideStr, 's'))
    else if c == 'p' then Some((Pointer, c))
    else if c == 'n' then Some((Sized(l, CountLongLong, CountLong, CountSChar, CountShort, CountInt), c))
    else if c == '%' then Some((NoType, c))
    else None
  }

  // ---- Directives ----

  /** A directive as it is written: index is the position given for the argument. */
  datatype Raw = Raw(start: nat, end: nat, flags: Flags, width: Field, precision: Field,
                     conversion: char, atype: ArgType, index: Option<nat>)

  /** The directive that starts with the '%' at i. */
  function DirectiveAt(s: CString, i: nat): (r: Option<Raw>)
    requires i < |s|
    ensures r.Some? ==> r.value.start == i < r.value.end <= |s| && r.value.width.Field? && r.value.precision.Field?
  {
    var p := PositionAt(s, i + 1);
    if p.BadPosition? then None
    else
      var (f, i2) := FlagsAt(s, if p.Position? then p.next else i + 1, NO_FLAGS);
      var w := WidthAt(s, i2);
      if w.BadField? then None
      else
        var pr := PrecisionAt(s, w.next);
        if pr.BadField? then None
        else
          var (l, i4) := LengthAt(s, pr.next, NO_LENGTH);
          match Conversion(At(s, i4), l)
          case None => None
          case Some((t, c)) => Some(Raw(i, i4 + 1, f, w, pr, c, t, if p.Position? then Some(p.index) else None))
  }

  /** The next '%', or the end. */
  function NextPercent(s: CString, i: nat): (j: nat)
    requires i <= |s|
    ensures i <= j <= |s| && '%' !in s[i..j] && (j < |s| ==> s[j] == '%')
    decreases |s| - i
  {
    if i == |s| || s[i] == '%' then i
    else
      var j := NextPercent(s, i + 1);
      assert s[i..j] == [s[i]] + s[i + 1..j];
      j
  }

  /** All directives from i on. */
  function ParseAll(s: CString, i: nat): Option<seq<Raw>>
    requires i <= |s|
    decreases |s| - i
  {
    var j := NextPercent(s, i);
    if j == |s| then Some([])
    else match DirectiveAt(s, j)
         case None => None
         case Some(r) =>
           match ParseAll(s, r.end)
           case None => None
           case Some(rs) => Some([r] + rs)
  }

  /** The format is literal, directive, literal, and so on, and the literals have no '%'. */
  predicate Tiled(s: CString, i: nat, rs: seq<Raw>)
    decreases rs
  {
    if rs == [] then i <= |s| && '%' !in s[i..]
    else
      && i <= rs[0].start < rs[0].end <= |s| && '%' !in s[i..rs[0].start] && s[rs[0].start] == '%'
      && Tiled(s, rs[0].end, rs[1..])
  }

  lemma {:induction false} ParseTiles(s: CString, i: nat)
    requires i <= |s| && ParseAll(s, i).Some?
    ensures Tiled(s, i, ParseAll(s, i).value)
    decreases |s| - i
  {
    hide DirectiveAt;
    var j := NextPercent(s, i);
    if j < |s| {
      var r := DirectiveAt(s, j).value;
      ParseTiles(s, r.end);
      assert ParseAll(s, i).value[1..] == ParseAll(s, r.end).value;
    } else {
      assert s[i..j] == s[i..];
    }
  }
}
