/** vasnprintf.c: literals and conversions in turn, each conversion by a rebuilt directive
    that is handed to snprintf. */
module PrintfEngine {
  import opened Arithmetic
  import opened CStrings
  import opened PrintfArgs
  import opened PrintfOutput
  import opened PrintfParse
  import opened PrintfSyntax
  import opened Wrappers
  import opened XSize

  /** The value of an argument; only that of an int is looked at here. */
  datatype ArgValue = IntArg(value: int) | OtherArg(bits: int)

  type Arg = (ArgType, ArgValue)

  /** What snprintf makes of a directive, the ints for its stars, and a value. */
  type Formatter = (string, seq<int>, ArgValue) -> string

  predicate IsCount(t: ArgType) {
    t.CountSChar? || t.CountShort? || t.CountInt? || t.CountLong? || t.CountLongLong?
  }

  predicate SpanOk(s: string, o: Option<Span>) {
    o.Some? ==> o.value.from <= o.value.to <= |s|
  }

  predicate StarOk(index: Option<nat>, arg: seq<Arg>) {
    index.Some? ==> index.value < |arg| && arg[index.value].0 == Int && arg[index.value].1.IntArg?
  }

  /** What the engine relies on: stars are ints, '%' takes no argument, "%n" takes a pointer to
      a count, and no other conversion does. */
  predicate DirOk(s: string, d: Directive, arg: seq<Arg>) {
    && d.dirStart < d.dirEnd <= |s| && SpanOk(s, d.width) && SpanOk(s, d.precision)
    && StarOk(d.widthArg, arg) && StarOk(d.precisionArg, arg)
    && (d.arg.None? <==> d.conversion == '%')
    && (d.arg.Some? ==> d.arg.value < |arg| && !arg[d.arg.value].0.NoType?
                        && (IsCount(arg[d.arg.value].0) <==> d.conversion == 'n'))
  }

  // ---- The rebuilt directive ----

  function FlagText(f: Flags): string {
    SignFlagText(f) + FillFlagText(f)
  }

  function SignFlagText(f: Flags): string {
    (if f.group then "'" else "") + (if f.left then "-" else "") + (if f.showsign then "+" else "")
  }

  function FillFlagText(f: Flags): string {
    (if f.space then " " else "") + (if f.alt then "#" else "") + (if f.zero then "0" else "")
  }

  function SpanText(s: string, o: Option<Span>): string
    requires SpanOk(s, o)
  {
    if o.Some? then s[o.value.from..o.value.to] else ""
  }

  function LengthText(t: ArgType): string {
    match t
    case LongLong | ULongLong => "ll"
    case Long | ULong | WideChar | WideStr => "l"
    case LongDouble => "L"
    case _ => ""
  }

  function FieldText(s: string, d: Directive): string
    requires SpanOk(s, d.width) && SpanOk(s, d.precision)
  {
    FlagText(d.flags) + SpanText(s, d.width) + SpanText(s, d.precision)
  }

  /** The directive that snprintf gets, without the "%n" that may follow it. */
  function DirectiveText(s: string, d: Directive, t: ArgType): string
    requires SpanOk(s, d.width) && SpanOk(s, d.precision)
  {
    "%" + FieldText(s, d) + LengthText(t) + [d.conversion]
  }

  /** With "%n" and a NUL it fits into the buffer that is sized by the longest width and precision. */
  lemma DirectiveFits(s: string, d: Directive, t: ArgType, maxWidth: nat, maxPrecision: nat)
    requires SpanOk(s, d.width) && SpanOk(s, d.precision)
    requires Len(d.width) <= maxWidth && Len(d.precision) <= maxPrecision
    ensures |DirectiveText(s, d, t)| + 3 <= 7 + maxWidth + maxPrecision + 6
    ensures d.flags == Flags(true, true, true, true, true, true) && (t == LongLong || t == ULongLong)
            && Len(d.width) == maxWidth && Len(d.precision) == maxPrecision
            ==> |DirectiveText(s, d, t)| + 3 == 7 + maxWidth + maxPrecision + 6
  {
    FewFlags(d.flags);
    SpanLengths(s, d);
    FewLetters(t);
    hide SignFlagText, FillFlagText, SpanText, LengthText;
    assert |FieldText(s, d)| == |FlagText(d.flags)| + Len(d.width) + Len(d.precision);
    assert t == LongLong || t == ULongLong ==> |LengthText(t)| == 2 by { TwoLetters(); }
  }

  /** Copies a text into the buffer. */
  method Emit(buf: array<char>, p: nat, text: string) returns (end: nat)
    requires p + |text| <= buf.Length
    modifies buf
    ensures end == p + |text| && buf[..end] == old(buf[..p]) + text
  {
    forall i | 0 <= i < |text| {
      buf[p + i] := text[i];
    }
    end := p + |text|;
  }

  method EmitIf(buf: array<char>, p: nat, on: bool, c: char) returns (end: nat)
    requires p < buf.Length
    modifies buf
    ensures end == p + (if on then 1 else 0) && buf[..end] == old(buf[..p]) + if on then [c] else ""
  {
    end := p;
    if on {
      buf[p] := c;
      end := p + 1;
    }
  }

  method EmitSignFlags(buf: array<char>, p: nat, f: Flags) returns (end: nat)
    requires p + 3 <= buf.Length
    modifies buf
    ensures end == p + |SignFlagText(f)| && buf[..end] == old(buf[..p]) + SignFlagText(f)
  {
    end := EmitIf(buf, p, f.group, '\'');
    end := EmitIf(buf, end, f.left, '-');
    end := EmitIf(buf, end, f.showsign, '+');
  }

  method EmitFillFlags(buf: array<char>, p: nat, f: Flags) returns (end: nat)
    requires p + 3 <= buf.Length
    modifies buf
    ensures end == p + |FillFlagText(f)| && buf[..end] == old(buf[..p]) + FillFlagText(f)
  {
    end := EmitIf(buf, p, f.space, ' ');
    end := EmitIf(buf, end, f.alt, '#');
    end := EmitIf(buf, end, f.zero, '0');
  }

  method EmitSpan(buf: array<char>, p: nat, s: string, o: Option<Span>) returns (end: nat)
    requires SpanOk(s, o) && p + |SpanText(s, o)| <= buf.Length
    modifies buf
    ensures end == p + |SpanText(s, o)| && buf[..end] == old(buf[..p]) + SpanText(s, o)
  {
    end := p;
    if o.Some? {
      end := Emit(buf, p, s[o.value.from..o.value.to]);
    }
  }

  method EmitFields(buf: array<char>, p: nat, s: string, d: Directive) returns (end: nat)
    requires SpanOk(s, d.width) && SpanOk(s, d.precision)
    requires p + 6 + |SpanText(s, d.width)| + |SpanText(s, d.precision)| <= buf.Length
    modifies buf
    ensures end == p + |FieldText(s, d)| && buf[..end] == old(buf[..p]) + FieldText(s, d)
  {
    hide SignFlagText, FillFlagText, SpanText;
    FewFlags(d.flags);
    end := EmitSignFlags(buf, p, d.flags);
    end := EmitFillFlags(buf, end, d.flags);
    assert buf[..end] == old(buf[..p]) + FlagText(d.flags);
    end := EmitSpan(buf, end, s, d.width);
    end := EmitSpan(buf, end, s, d.precision);
  }

  /** Builds the directive; p is where the conversion character stands. */
  method BuildDirective(s: string, d: Directive, t: ArgType, buf: array<char>, ghost maxWidth: nat, ghost maxPrecision: nat)
    returns (p: nat)
    requires SpanOk(s, d.width) && SpanOk(s, d.precision) && buf.Length == 7 + maxWidth + maxPrecision + 6
    requires Len(d.width) <= maxWidth && Len(d.precision) <= maxPrecision
    modifies buf
    ensures p + 1 == |DirectiveText(s, d, t)| && p + 4 <= buf.Length
    ensures buf[..p + 4] == DirectiveText(s, d, t) + "%n\0"
  {
    hide FieldText, LengthText, SpanText;
    DirectiveFits(s, d, t, maxWidth, maxPrecision);
    SpanLengths(s, d);
    FewLetters(t);
    buf[0] := '%';
    assert buf[..1] == "%";
    p := EmitFields(buf, 1, s, d);
    p := EmitLength(buf, p, t);
    ghost var before := buf[..p];
    var end := Emit(buf, p, [d.conversion]);
    end := Emit(buf, end, "%n\0");
    assert buf[..p + 4] == before + [d.conversion] + "%n\0";
  }

  lemma SpanLengths(s: string, d: Directive)
    requires SpanOk(s, d.width) && SpanOk(s, d.precision)
    ensures |SpanText(s, d.width)| == Len(d.width) && |SpanText(s, d.precision)| == Len(d.precision)
    ensures |FieldText(s, d)| <= 6 + Len(d.width) + Len(d.precision)
  {
    FewFlags(d.flags);
    hide FlagText;
  }

  lemma TwoLetters()
    ensures LengthText(LongLong) == LengthText(ULongLong) == "ll"
  {
  }

  lemma FewLetters(t: ArgType)
    ensures |LengthText(t)| <= 2
  {
  }

  lemma FewFlags(f: Flags)
    ensures |SignFlagText(f)| <= 3 && |FillFlagText(f)| <= 3 && |FlagText(f)| <= 6
    ensures f == Flags(true, true, true, true, true, true) ==> |FlagText(f)| == 6
  {
  }

  /** The switch on the type, with its fall-through. */
  method EmitLength(buf: array<char>, p: nat, t: ArgType) returns (end: nat)
    requires p + 2 <= buf.Length
    modifies buf
    ensures end == p + |LengthText(t)| && buf[..end] == old(buf[..p]) + LengthText(t)
  {
    end := EmitIf(buf, p, t == LongLong || t == ULongLong, 'l');
    if t in {LongLong, ULongLong, Long, ULong, WideChar, WideStr} {
      end := EmitIf(buf, end, true, 'l');
    } else {
      end := EmitIf(buf, end, t == LongDouble, 'L');
    }
  }

  // ---- What the directives of a parsed format satisfy ----

  lemma SpansOfDirective(s: CString, i: nat)
    requires i < |s| && DirectiveAt(s, i).Some?
    ensures var r := DirectiveAt(s, i).value; SpanOk(s, r.width.span) && SpanOk(s, r.precision.span)
  {
    hide PositionAt, FlagsAt, LengthAt, Conversion;
  }

  lemma ConversionTypes(c: char, l: Length)
    requires Conversion(c, l).Some?
    ensures var (t, conv) := Conversion(c, l).value; (t.NoType? <==> conv == '%') && (IsCount(t) <==> conv == 'n')
  {
  }

  lemma TypeOfDirective(s: CString, i: nat)
    requires i < |s| && DirectiveAt(s, i).Some?
    ensures var r := DirectiveAt(s, i).value;
            (r.atype.NoType? <==> r.conversion == '%') && (IsCount(r.atype) <==> r.conversion == 'n')
  {
    hide Conversion, IsCount;
    ghost var r := DirectiveAt(s, i).value;
    var l: Length, c: char :| Conversion(c, l) == Some((r.atype, r.conversion));
    ConversionTypes(c, l);
  }

  /** Every use of a directive is met by the table. */
  lemma UsesFit(r: Raw, posn: nat, uses: seq<Use>, types: seq<ArgType>)
    requires FieldsOk(r) && TableOf(uses, types) && (forall u <- UsesOf(r, posn) :: u in uses)
    ensures var d := WithArgs(r, posn);
            && (d.widthArg.Some? ==> d.widthArg.value < |types| && types[d.widthArg.value] == Int)
            && (d.precisionArg.Some? ==> d.precisionArg.value < |types| && types[d.precisionArg.value] == Int)
            && (d.arg.None? <==> r.atype.NoType?)
            && (d.arg.Some? ==> d.arg.value < |types| && types[d.arg.value] == r.atype)
  {
    var p1 := AfterStar(r.width, posn);
    var p2 := AfterStar(r.precision, p1);
    var us := UsesOf(r, posn);
    if r.width.star { assert Use(r.width.index.GetOr(posn), Int) in us; }
    if r.precision.star { assert Use(r.precision.index.GetOr(p1), Int) in us; }
    if !r.atype.NoType? { assert Use(r.index.GetOr(p2), r.atype) in us; }
  }

  /** The types of the fetched arguments, and ints where ints are asked for. */
  predicate Fetched(arg: seq<Arg>, types: seq<ArgType>) {
    && |arg| == |types|
    && forall i :: 0 <= i < |arg| ==> arg[i].0 == types[i] && (types[i] == Int ==> arg[i].1.IntArg?)
  }

  lemma DirectiveOk(s: CString, i: nat, posn: nat, uses: seq<Use>, types: seq<ArgType>, arg: seq<Arg>)
    requires i < |s| && DirectiveAt(s, i).Some? && FieldsOk(DirectiveAt(s, i).value)
    requires TableOf(uses, types) && Fetched(arg, types)
    requires forall u <- UsesOf(DirectiveAt(s, i).value, posn) :: u in uses
    ensures DirOk(s, WithArgs(DirectiveAt(s, i).value, posn), arg)
  {
    var r := DirectiveAt(s, i).value;
    SpansOfDirective(s, i);
    TypeOfDirective(s, i);
    UsesFit(r, posn, uses, types);
    hide DirectiveAt, TableOf, UsesOf;
  }

  predicate Chain(s: string, cp: nat, dirs: seq<Directive>, arg: seq<Arg>)
    decreases dirs
  {
    && cp <= |s|
    && (dirs != [] ==> cp <= dirs[0].dirStart && DirOk(s, dirs[0], arg) && Chain(s, dirs[0].dirEnd, dirs[1..], arg))
  }

  lemma {:induction false} ParsedChain(s: CString, i: nat, posn: nat, uses: seq<Use>, types: seq<ArgType>, arg: seq<Arg>)
    requires i <= |s| && ParseAll(s, i).Some? && AllFieldsOk(ParseAll(s, i).value)
    requires TableOf(uses, types) && Fetched(arg, types)
    requires forall u <- AllUses(ParseAll(s, i).value, posn) :: u in uses
    ensures Chain(s, i, AllWithArgs(ParseAll(s, i).value, posn), arg)
    decreases |s| - i
  {
    hide DirectiveAt, TableOf, Fetched, UsesOf, WithArgs, PosnAfter, DirOk;
    var j := NextPercent(s, i);
    if j < |s| {
      var r := DirectiveAt(s, j).value;
      var rs, rest := ParseAll(s, i).value, ParseAll(s, r.end).value;
      assert rs[0] == r && rs[1..] == rest;
      assert AllUses(rs, posn) == UsesOf(r, posn) + AllUses(rest, PosnAfter(r, posn));
      DirectiveOk(s, j, posn, uses, types, arg);
      ParsedChain(s, r.end, PosnAfter(r, posn), uses, types, arg);
      ShapeOf(r, posn);
      assert AllWithArgs(rs, posn)[1..] == AllWithArgs(rest, PosnAfter(r, posn));
    }
  }

  // ---- The text that is printed ----

  /** What a "%n" does: a length is stored through the pointer that is its argument. */
  datatype Store = Store(arg: Arg, value: int)

  /** How many values the integer has that a count is stored into. */
  function CountRange(t: ArgType): nat {
    match t
    case CountSChar => 0x100
    case CountShort => 0x1_0000
    case CountInt => 0x1_0000_0000
    case _ => 0x1_0000_0000_0000_0000
  }

  /** The low bits of a length, as a signed integer of so many values. */
  function Signed(range: nat, length: nat): int
    requires range > 0
  {
    if length % range < range / 2 then length % range else length % range - range
  }

  function StoreOf(arg: Arg, length: nat): Store {
    Store(arg, Signed(CountRange(arg.0), length))
  }

  /** It is the one value of that integer that equals the length but for a multiple of the range, and equals it exactly
      if the length is in the positive half. */
  lemma SignedMeans(range: nat, length: nat, v: int)
    requires range > 0 && range % 2 == 0
    ensures v == Signed(range, length) <==> -(range / 2) <= v < range / 2 && (length - v) % range == 0
    ensures Signed(range, length) == length <==> length < range / 2
  {
    if length < range {
      DivModUnique(length, range, 0, length);
    }
    SignedCongruent(range, length);
    if -(range / 2) <= v < range / 2 && (length - v) % range == 0 {
      SignedOnly(range, length, v);
    }
  }

  lemma SignedCongruent(range: nat, length: nat)
    requires range > 0
    ensures (length - Signed(range, length)) % range == 0
  {
    var q, r := length / range, length % range;
    assert length == range * q + r;
    var k := if r < range / 2 then q else q + 1;
    Distribute(range, q, 1);
    assert length - Signed(range, length) == range * k + 0;
    DivModUnique(length - Signed(range, length), range, k, 0);
  }

  lemma SignedOnly(range: nat, length: nat, v: int)
    requires range > 0 && range % 2 == 0 && -(range / 2) <= v < range / 2 && (length - v) % range == 0
    ensures v == Signed(range, length)
  {
    SignedCongruent(range, length);
    CloseMultiples(length - v, length - Signed(range, length), range);
  }

  function StarPrefix(index: Option<nat>, arg: seq<Arg>): seq<int>
    requires StarOk(index, arg)
  {
    if index.Some? then [arg[index.value].1.value] else []
  }

  /** What one directive contributes. */
  function Piece(s: string, d: Directive, arg: seq<Arg>, fmt: Formatter): string
    requires DirOk(s, d, arg)
  {
    if d.conversion == '%' then "%"
    else if d.conversion == 'n' then ""
    else fmt(DirectiveText(s, d, arg[d.arg.value].0), StarPrefix(d.widthArg, arg) + StarPrefix(d.precisionArg, arg),
             arg[d.arg.value].1)
  }

  /** Literals and directives in turn, from cp on. */
  function Rendered(s: string, cp: nat, dirs: seq<Directive>, arg: seq<Arg>, fmt: Formatter): string
    requires Chain(s, cp, dirs, arg)
    decreases dirs
  {
    if dirs == [] then s[cp..]
    else s[cp..dirs[0].dirStart] + (Piece(s, dirs[0], arg, fmt) + Rendered(s, dirs[0].dirEnd, dirs[1..], arg, fmt))
  }

  /** The lengths that the "%n" directives store, with the pointers they store them through. */
  function Stores(s: string, cp: nat, dirs: seq<Directive>, arg: seq<Arg>, fmt: Formatter, length: nat): seq<Store>
    requires Chain(s, cp, dirs, arg)
    decreases dirs
  {
    if dirs == [] then []
    else
      var d := dirs[0];
      var here := length + d.dirStart - cp;
      (if d.conversion == 'n' then [StoreOf(arg[d.arg.value], here)] else [])
      + Stores(s, d.dirEnd, dirs[1..], arg, fmt, here + |Piece(s, d, arg, fmt)|)
  }

  /** The counts are those of characters printed so far: up to INT_MAX in all, only a char or a short can be too
      narrow for them. */
  lemma {:induction false} CountsExact(s: string, cp: nat, dirs: seq<Directive>, arg: seq<Arg>, fmt: Formatter, length: nat)
    requires Chain(s, cp, dirs, arg) && length + |Rendered(s, cp, dirs, arg, fmt)| <= INT_MAX
    ensures forall st <- Stores(s, cp, dirs, arg, fmt, length) ::
              exists n: nat :: length <= n <= length + |Rendered(s, cp, dirs, arg, fmt)| && st == StoreOf(st.arg, n)
                               && (CountRange(st.arg.0) > 0x1_0000 ==> st.value == n)
    decreases dirs
  {
    hide Piece, Signed, CountRange;
    if dirs != [] {
      var d := dirs[0];
      var here, piece := length + d.dirStart - cp, Piece(s, d, arg, fmt);
      RenderedLength(s, cp, dirs, arg, fmt);
      CountsExact(s, d.dirEnd, dirs[1..], arg, fmt, here + |piece|);
      if d.conversion == 'n' { WideEnough(arg[d.arg.value].0, here); }
    }
  }

  lemma WideEnough(t: ArgType, n: nat)
    requires n <= INT_MAX
    ensures CountRange(t) > 0x1_0000 ==> Signed(CountRange(t), n) == n
  {
    SignedMeans(CountRange(t), n, n);
  }

  ghost predicate Bounded(fmt: Formatter) {
    forall text, prefixes, v :: |fmt(text, prefixes, v)| <= INT_MAX
  }

  // ---- The size of the buffer ----

  /** The buffer after one directive. */
  function PieceSize(sn: Snprintf, s: string, d: Directive, arg: seq<Arg>, fmt: Formatter, size: nat, length: nat): nat
    requires DirOk(s, d, arg)
  {
    if d.conversion == '%' then Grown(size, length + 1)
    else if d.conversion == 'n' then size
    else ConvertSize(sn, size, length, |Piece(s, d, arg, fmt)|)
  }

  /** The buffer after what is left to print. */
  function SizeAfter(sn: Snprintf, s: string, cp: nat, dirs: seq<Directive>, arg: seq<Arg>, fmt: Formatter,
                     size: nat, length: nat): nat
    requires Chain(s, cp, dirs, arg)
    decreases dirs
  {
    if dirs == [] then Grown(size, length + |s| - cp)
    else
      var d := dirs[0];
      var here := length + d.dirStart - cp;
      SizeAfter(sn, s, d.dirEnd, dirs[1..], arg, fmt, PieceSize(sn, s, d, arg, fmt, Grown(size, here), here),
                here + |Piece(s, d, arg, fmt)|)
  }

  /** The buffer when the final NUL is in it. */
  function SizeNeeded(sn: Snprintf, s: string, dirs: seq<Directive>, arg: seq<Arg>, fmt: Formatter, size: nat): nat
    requires Chain(s, 0, dirs, arg)
  {
    Grown(SizeAfter(sn, s, 0, dirs, arg, fmt, size, 0), |Rendered(s, 0, dirs, arg, fmt)| + 1)
  }

  lemma PieceSizeGrows(sn: Snprintf, s: string, d: Directive, arg: seq<Arg>, fmt: Formatter, size: nat, length: nat)
    requires DirOk(s, d, arg)
    ensures PieceSize(sn, s, d, arg, fmt, size, length) >= size
  {
    hide DirOk, Piece;
  }

  lemma {:induction false} SizeGrows(sn: Snprintf, s: string, cp: nat, dirs: seq<Directive>, arg: seq<Arg>,
                                     fmt: Formatter, size: nat, length: nat)
    requires Chain(s, cp, dirs, arg)
    ensures SizeAfter(sn, s, cp, dirs, arg, fmt, size, length) >= size
    decreases dirs
  {
    hide DirOk, Piece, PieceSize;
    if dirs != [] {
      var d := dirs[0];
      var here := length + d.dirStart - cp;
      PieceSizeGrows(sn, s, d, arg, fmt, Grown(size, here), here);
      SizeGrows(sn, s, d.dirEnd, dirs[1..], arg, fmt, PieceSize(sn, s, d, arg, fmt, Grown(size, here), here),
                here + |Piece(s, d, arg, fmt)|);
    }
  }

  /** No buffer needs to be larger than this. */
  function Cap(size: nat, total: nat): nat {
    Max(size, 2 * total + 12)
  }

  lemma {:induction false} BlindSizeBounded(size: nat, length: nat, count: nat, cap: nat)
    requires size <= cap && 2 * (length + count) + 12 <= cap
    ensures BlindSize(size, length, count) <= cap
    decreases length + count - size
  {
    if length + count >= size { BlindSizeBounded(2 * size + 12, length, count, cap); }
  }

  lemma CapHolds(sn: Snprintf, size: nat, total: nat, cap: nat, length: nat, count: nat)
    requires length <= size <= cap && length + count <= total && 2 * total + 12 <= cap
    ensures Grown(size, length + count) <= cap && ConvertSize(sn, size, length, count) <= cap
    ensures Grown(size, length + 1) <= cap
  {
    hide BlindSize;
    BlindSizeBounded(Grown(size, length + 1), length, count, cap);
  }

  /** One directive that is neither '%' nor "%n". */
  method ExecuteConversion(s: string, d: Directive, arg: seq<Arg>, fmt: Formatter, sn: Snprintf, out: Output,
                           buf: array<char>, ghost maxWidth: nat, ghost maxPrecision: nat)
    returns (ok: bool)
    requires DirOk(s, d, arg) && d.conversion != '%' && d.conversion != 'n' && Bounded(fmt)
    requires out.Valid() && buf != out.result && buf.Length == 7 + maxWidth + maxPrecision + 6
    requires Len(d.width) <= maxWidth && Len(d.precision) <= maxPrecision
    modifies out, out.result, buf
    ensures out.Valid() && (out.result == old(out.result) || fresh(out.result))
    ensures var size := ConvertSize(sn, old(out.result.Length), old(out.length), |Piece(s, d, arg, fmt)|);
            && (ok ==> out.Text() == old(out.Text()) + Piece(s, d, arg, fmt) && out.result.Length == size)
            && (!ok ==> size >= SIZE_MAX)
  {
    hide LengthText, FieldText, ConvertSize, ConvertGrowths;
    var (t, value) := arg[d.arg.value];
    var p := BuildDirective(s, d, t, buf, maxWidth, maxPrecision);
    ghost var directive := DirectiveText(s, d, t);
    var prefixes := [];
    if d.widthArg.Some? {
      assert arg[d.widthArg.value].0 == Int;         // otherwise the code would abort
      prefixes := prefixes + [arg[d.widthArg.value].1.value];
    }
    if d.precisionArg.Some? {
      assert arg[d.precisionArg.value].0 == Int;     // otherwise the code would abort
      prefixes := prefixes + [arg[d.precisionArg.value].1.value];
    }
    assert prefixes == StarPrefix(d.widthArg, arg) + StarPrefix(d.precisionArg, arg) && |prefixes| <= 2;
    assert !t.NoType? && !IsCount(t);                // otherwise the switch on the type would abort
    assert buf[..p + 1] == buf[..p + 4][..p + 1] == directive;
    ok := out.Convert(fmt(buf[..p + 1], prefixes, value), sn);
  }

  /** One directive. */
  method ExecuteDirective(s: string, d: Directive, arg: seq<Arg>, fmt: Formatter, sn: Snprintf, out: Output,
                          buf: array<char>, ghost maxWidth: nat, ghost maxPrecision: nat)
    returns (ok: bool, stored: seq<Store>)
    requires DirOk(s, d, arg) && Bounded(fmt)
    requires out.Valid() && buf != out.result && buf.Length == 7 + maxWidth + maxPrecision + 6
    requires Len(d.width) <= maxWidth && Len(d.precision) <= maxPrecision
    modifies out, out.result, buf
    ensures out.Valid() && (out.result == old(out.result) || fresh(out.result))
    ensures var size := PieceSize(sn, s, d, arg, fmt, old(out.result.Length), old(out.length));
            if ok then out.result.Length == size else size >= SIZE_MAX
    ensures ok ==> out.Text() == old(out.Text()) + Piece(s, d, arg, fmt)
                   && stored == if d.conversion == 'n' then [StoreOf(arg[d.arg.value], old(out.length))] else []
  {
    hide DirectiveText, ConvertSize, Grown;
    ok, stored := true, [];
    if d.conversion == '%' {
      assert d.arg.None?;               // otherwise the code would abort
      ok := out.Append("%");
    } else {
      assert d.arg.Some?;               // otherwise the code would abort
      if d.conversion == 'n' {
        assert IsCount(arg[d.arg.value].0);
        stored := [StoreOf(arg[d.arg.value], out.length)];
      } else {
        ok := ExecuteConversion(s, d, arg, fmt, sn, out, buf, maxWidth, maxPrecision);
      }
    }
  }

  /** The text between two directives. */
  method ExecuteLiteral(s: string, cp: nat, end: nat, out: Output) returns (ok: bool)
    requires cp <= end <= |s| <= SIZE_MAX && out.Valid()
    modifies out, out.result
    ensures out.Valid() && (out.result == old(out.result) || fresh(out.result))
    ensures var size := Grown(old(out.result.Length), old(out.length) + (end - cp));
            if ok then out.result.Length == size else size >= SIZE_MAX
    ensures ok ==> out.Text() == old(out.Text()) + s[cp..end]
  {
    ok := true;
    if cp != end {
      ok := out.Append(s[cp..end]);
    }
  }

  /** What is left to print and to store, after some text and some stores. */
  ghost predicate SameOutput(s: string, cp: nat, dirs: seq<Directive>, arg: seq<Arg>, fmt: Formatter,
                             text: string, stores: seq<Store>, allText: string, allStores: seq<Store>)
  {
    && Chain(s, cp, dirs, arg)
    && allText == text + Rendered(s, cp, dirs, arg, fmt)
    && allStores == stores + Stores(s, cp, dirs, arg, fmt, |text|)
  }

  lemma OutputStep(s: string, cp: nat, dirs: seq<Directive>, i: nat, arg: seq<Arg>, fmt: Formatter,
                   text: string, stores: seq<Store>, allText: string, allStores: seq<Store>)
    requires i < |dirs| && SameOutput(s, cp, dirs[i..], arg, fmt, text, stores, allText, allStores)
    ensures var d := dirs[i];
            && cp <= d.dirStart && DirOk(s, d, arg)
            && var literal, piece := s[cp..d.dirStart], Piece(s, d, arg, fmt);
            && |text| + |literal| + |piece| <= |allText|
            && SameOutput(s, d.dirEnd, dirs[i + 1..], arg, fmt, text + literal + piece,
                          stores + (if d.conversion == 'n' then [StoreOf(arg[d.arg.value], |text| + |literal|)] else []),
                          allText, allStores)
  {
    hide Piece;
    var d := dirs[i];
    var rest := dirs[i..];
    assert rest[0] == d && rest[1..] == dirs[i + 1..] && DirOk(s, d, arg);
    var literal, piece := s[cp..d.dirStart], Piece(s, d, arg, fmt);
    hide DirOk;
    var tail := Rendered(s, d.dirEnd, dirs[i + 1..], arg, fmt);
    assert text + (literal + (piece + tail)) == text + literal + piece + tail;
    var here := if d.conversion == 'n' then [StoreOf(arg[d.arg.value], |text| + |literal|)] else [];
    var later := Stores(s, d.dirEnd, dirs[i + 1..], arg, fmt, |text + literal + piece|);
    assert stores + (here + later) == (stores + here) + later;
  }

  /** The buffer sizes ahead, after a literal and a directive. */
  lemma SizeStep(sn: Snprintf, s: string, cp: nat, dirs: seq<Directive>, i: nat, arg: seq<Arg>, fmt: Formatter,
                 size: nat, length: nat)
    requires i < |dirs| && Chain(s, cp, dirs[i..], arg)
    ensures var d := dirs[i];
            && cp <= d.dirStart && DirOk(s, d, arg) && Chain(s, d.dirEnd, dirs[i + 1..], arg)
            && var here := length + (d.dirStart - cp);
            var all := SizeAfter(sn, s, cp, dirs[i..], arg, fmt, size, length);
            && all >= Grown(size, here) && all >= PieceSize(sn, s, d, arg, fmt, Grown(size, here), here)
            && all == SizeAfter(sn, s, d.dirEnd, dirs[i + 1..], arg, fmt,
                                PieceSize(sn, s, d, arg, fmt, Grown(size, here), here), here + |Piece(s, d, arg, fmt)|)
  {
    hide Piece, PieceSize, Grown;
    var rest := dirs[i..];
    assert rest[0] == dirs[i] && rest[1..] == dirs[i + 1..];
    var here := length + (dirs[i].dirStart - cp);
    PieceSizeGrows(sn, s, dirs[i], arg, fmt, Grown(size, here), here);
    SizeGrows(sn, s, dirs[i].dirEnd, rest[1..], arg, fmt, PieceSize(sn, s, dirs[i], arg, fmt, Grown(size, here), here),
              here + |Piece(s, dirs[i], arg, fmt)|);
    hide DirOk;
  }

  /** The loop over literals and directives. */
  method Execute(s: string, dirs: seq<Directive>, arg: seq<Arg>, fmt: Formatter, sn: Snprintf, out: Output,
                 buf: array<char>, ghost maxWidth: nat, ghost maxPrecision: nat)
    returns (ok: bool, stores: seq<Store>)
    requires Chain(s, 0, dirs, arg) && Bounded(fmt) && |s| <= SIZE_MAX
    requires out.Valid() && out.Text() == "" && buf != out.result && buf.Length == 7 + maxWidth + maxPrecision + 6
    requires MaxWidth(dirs, maxWidth) && MaxPrecision(dirs, maxPrecision)
    modifies out, out.result, buf
    ensures out.Valid()
    ensures var size := SizeAfter(sn, s, 0, dirs, arg, fmt, old(out.result.Length), 0);
            if ok then out.result.Length == size else size >= SIZE_MAX
    ensures ok ==> out.Text() == Rendered(s, 0, dirs, arg, fmt) && stores == Stores(s, 0, dirs, arg, fmt, 0)
    ensures out.result == old(out.result) || fresh(out.result)
  {
    hide DirOk, Piece, PieceSize, SameOutput, Rendered, Stores, Chain, SizeAfter, Grown, MaxWidth, MaxPrecision, Bounded;
    ghost var allText, allStores := Rendered(s, 0, dirs, arg, fmt), Stores(s, 0, dirs, arg, fmt, 0);
    ghost var size := SizeAfter(sn, s, 0, dirs, arg, fmt, out.result.Length, 0);
    stores := [];
    var cp, i := 0, 0;
    OutputStart(s, dirs, arg, fmt);
    while i < |dirs|
      invariant i <= |dirs| && out.Valid() && (out.result == old(out.result) || fresh(out.result)) && buf != out.result
      invariant Chain(s, cp, dirs[i..], arg)
      invariant size == SizeAfter(sn, s, cp, dirs[i..], arg, fmt, out.result.Length, out.length)
      invariant SameOutput(s, cp, dirs[i..], arg, fmt, out.Text(), stores, allText, allStores)
    {
      var d := dirs[i];
      OutputStep(s, cp, dirs, i, arg, fmt, out.Text(), stores, allText, allStores);
      SizeStep(sn, s, cp, dirs, i, arg, fmt, out.result.Length, out.length);
      DirEnds(s, d, arg);
      ok := ExecuteLiteral(s, cp, d.dirStart, out);
      if !ok {
        return;
      }
      var stored;
      WithinMax(dirs, d, maxWidth, maxPrecision);
      ok, stored := ExecuteDirective(s, d, arg, fmt, sn, out, buf, maxWidth, maxPrecision);
      if !ok {
        return;
      }
      stores := stores + stored;
      cp, i := d.dirEnd, i + 1;
    }
    assert dirs[i..] == [];
    OutputEnd(s, cp, arg, fmt, out.Text(), stores, allText, allStores);
    SizeEnd(sn, s, cp, arg, fmt, out.result.Length, out.length);
    ok := ExecuteLiteral(s, cp, |s|, out);
  }

  lemma WithinMax(dirs: seq<Directive>, d: Directive, maxWidth: nat, maxPrecision: nat)
    requires d in dirs && MaxWidth(dirs, maxWidth) && MaxPrecision(dirs, maxPrecision)
    ensures Len(d.width) <= maxWidth && Len(d.precision) <= maxPrecision
  {
  }

  lemma SizeEnd(sn: Snprintf, s: string, cp: nat, arg: seq<Arg>, fmt: Formatter, size: nat, length: nat)
    requires Chain(s, cp, [], arg)
    ensures cp <= |s| && SizeAfter(sn, s, cp, [], arg, fmt, size, length) == Grown(size, length + (|s| - cp))
  {
  }

  /** The sizes stay below twice the text. */
  lemma {:induction false} SizeBounded(sn: Snprintf, s: string, cp: nat, dirs: seq<Directive>, arg: seq<Arg>,
                                       fmt: Formatter, size: nat, length: nat, total: nat, cap: nat)
    requires Chain(s, cp, dirs, arg) && length <= size <= cap && 2 * total + 12 <= cap
    requires length + |Rendered(s, cp, dirs, arg, fmt)| <= total
    ensures SizeAfter(sn, s, cp, dirs, arg, fmt, size, length) <= cap
    decreases dirs
  {
    hide DirOk, Grown, ConvertSize;
    if dirs == [] {
      CapHolds(sn, size, total, cap, length, |s| - cp);
    } else {
      var d := dirs[0];
      var here, count := length + (d.dirStart - cp), |Piece(s, d, arg, fmt)|;
      RenderedLength(s, cp, dirs, arg, fmt);
      CapHolds(sn, size, total, cap, length, d.dirStart - cp);
      GrownFits(size, here);
      CapHolds(sn, Grown(size, here), total, cap, here, count);
      PieceFits(sn, s, d, arg, fmt, Grown(size, here), here);
      SizeBounded(sn, s, d.dirEnd, dirs[1..], arg, fmt, PieceSize(sn, s, d, arg, fmt, Grown(size, here), here),
                  here + count, total, cap);
    }
  }

  lemma RenderedLength(s: string, cp: nat, dirs: seq<Directive>, arg: seq<Arg>, fmt: Formatter)
    requires Chain(s, cp, dirs, arg) && dirs != []
    ensures |Rendered(s, cp, dirs, arg, fmt)|
            == (dirs[0].dirStart - cp) + |Piece(s, dirs[0], arg, fmt)| + |Rendered(s, dirs[0].dirEnd, dirs[1..], arg, fmt)|
  {
    hide Piece;
    DirEnds(s, dirs[0], arg);
  }

  lemma GrownFits(size: nat, needed: nat)
    ensures Grown(size, needed) >= needed
  {
  }

  lemma PieceFits(sn: Snprintf, s: string, d: Directive, arg: seq<Arg>, fmt: Formatter, size: nat, length: nat)
    requires DirOk(s, d, arg) && length <= size
    ensures PieceSize(sn, s, d, arg, fmt, size, length) >= length + |Piece(s, d, arg, fmt)|
  {
    hide DirOk, DirectiveText;
  }

  /** Twice the text and a little more is always enough. */
  lemma NeededBounded(sn: Snprintf, s: string, dirs: seq<Directive>, arg: seq<Arg>, fmt: Formatter, size: nat)
    requires Chain(s, 0, dirs, arg)
    ensures SizeNeeded(sn, s, dirs, arg, fmt, size) <= Cap(size, |Rendered(s, 0, dirs, arg, fmt)|)
  {
    hide Chain, Rendered, SizeAfter;
    var total := |Rendered(s, 0, dirs, arg, fmt)|;
    SizeBounded(sn, s, 0, dirs, arg, fmt, size, 0, total, Cap(size, total));
  }

  /** A buffer that has room for a literal text and its NUL stays as it is; an empty one for an empty text meets the
      bound. */
  lemma ExactRoom(sn: Snprintf, s: string, arg: seq<Arg>, fmt: Formatter)
    ensures SizeNeeded(sn, s, [], arg, fmt, |s| + 1) == |s| + 1
    ensures SizeNeeded(sn, "", [], arg, fmt, 0) == 12 == Cap(0, 0)
  {
    assert s[0..] == s;
  }

  lemma DirEnds(s: string, d: Directive, arg: seq<Arg>)
    requires DirOk(s, d, arg)
    ensures d.dirStart < d.dirEnd <= |s|
  {
  }

  lemma OutputStart(s: string, dirs: seq<Directive>, arg: seq<Arg>, fmt: Formatter)
    requires Chain(s, 0, dirs, arg)
    ensures SameOutput(s, 0, dirs[0..], arg, fmt, "", [], Rendered(s, 0, dirs, arg, fmt), Stores(s, 0, dirs, arg, fmt, 0))
  {
    hide Chain, Rendered, Stores;
    assert dirs[0..] == dirs;
    var text, stores := Rendered(s, 0, dirs, arg, fmt), Stores(s, 0, dirs, arg, fmt, 0);
    assert "" + text == text && [] + stores == stores;
  }

  lemma OutputEnd(s: string, cp: nat, arg: seq<Arg>, fmt: Formatter, text: string, stores: seq<Store>,
                  allText: string, allStores: seq<Store>)
    requires SameOutput(s, cp, [], arg, fmt, text, stores, allText, allStores)
    ensures cp <= |s| && allText == text + s[cp..|s|] && allStores == stores
  {
  }

  // ---- The whole function ----

  /** NoMemory stands for out of memory and TooLong for EOVERFLOW. */
  datatype Outcome = Printed | Invalid | NoMemory | TooLong

  /** The format was parsed to these directives, and its arguments are these. */
  ghost predicate Parsed(s: CString, va: seq<ArgValue>, dirs: seq<Directive>, arg: seq<Arg>) {
    && ParseAll(s, 0).Some? && AllFieldsOk(ParseAll(s, 0).value) && dirs == AllWithArgs(ParseAll(s, 0).value, 0)
    && |arg| <= |va| && (forall i :: 0 <= i < |arg| ==> arg[i].1 == va[i])
    && TableOf(AllUses(ParseAll(s, 0).value, 0), seq(|arg|, i requires 0 <= i < |arg| => arg[i].0))
  }

  /** Some argument below the last one is not used. */
  ghost predicate HasGap(s: CString) {
    && ParseAll(s, 0).Some? && AllFieldsOk(ParseAll(s, 0).value)
    && var uses := AllUses(ParseAll(s, 0).value, 0);
    exists i: nat, u :: u in uses && i < u.index && !Used(uses, i)
  }

  /** The caller passes every argument that the format uses, and ints for the stars. */
  ghost predicate Passes(s: CString, va: seq<ArgValue>) {
    ParseAll(s, 0).Some? && AllFieldsOk(ParseAll(s, 0).value) ==>
      forall u <- AllUses(ParseAll(s, 0).value, 0) :: u.index < |va| && (u.atype == Int ==> va[u.index].IntArg?)
  }

  lemma EnoughArguments(uses: seq<Use>, types: seq<ArgType>, va: seq<ArgValue>)
    requires TableOf(uses, types)
    requires forall u <- uses :: u.index < |va| && (u.atype == Int ==> va[u.index].IntArg?)
    ensures |types| <= |va| && forall i :: 0 <= i < |types| && types[i] == Int ==> va[i].IntArg?
  {
    if |types| > 0 {
      var u :| u in uses && u.index == |types| - 1;
    }
    forall i | 0 <= i < |types| && types[i] == Int ensures va[i].IntArg? {
      assert Used(uses, i);
      var u :| u in uses && u.index == i;
    }
  }

  lemma {:induction false} ChainSpans(s: string, cp: nat, dirs: seq<Directive>, arg: seq<Arg>)
    requires Chain(s, cp, dirs, arg)
    ensures forall d <- dirs :: Len(d.width) <= |s| && Len(d.precision) <= |s|
    decreases dirs
  {
    if dirs != [] {
      assert DirOk(s, dirs[0], arg);
      ChainSpans(s, dirs[0].dirEnd, dirs[1..], arg);
      hide DirOk, Chain;
    }
  }

  /** The parsing and fetching at the start of VASNPRINTF. */
  method ParseAndFetch(s: CString, va: seq<ArgValue>)
    returns (ok: bool, dirs: seq<Directive>, arg: seq<Arg>, maxWidth: nat, maxPrecision: nat)
    requires Passes(s, va)
    ensures ok ==> Parsed(s, va, dirs, arg) && Chain(s, 0, dirs, arg)
                   && MaxWidth(dirs, maxWidth) && MaxPrecision(dirs, maxPrecision)
                   && maxWidth <= |s| && maxPrecision <= |s|
    ensures ok <==> Acceptable(s) && !HasGap(s)
  {
    hide ParseAll, AllUses, AllWithArgs, TableOf, Acceptable, Chain;
    var end, args;
    arg := [];
    ok, dirs, end, args, maxWidth, maxPrecision := Parse(s);
    if !ok {
      return;
    }
    ghost var rs := ParseAll(s, 0).value;
    EnoughArguments(args.uses, args.arg, va);
    var fetched := FetchArgs(args.arg, va);
    GapsAreUnused(args.uses, args.arg);
    if fetched.None? {
      ok := false;
      return;
    }
    arg := fetched.value;
    assert seq(|arg|, i requires 0 <= i < |arg| => arg[i].0) == args.arg;
    ParsedChain(s, 0, 0, args.uses, args.arg, arg);
    ChainSpans(s, 0, dirs, arg);
  }

  /** The buffer for rebuilt directives, with the longest width and the longest precision, fits in a SizeT. */
  ghost predicate BufferFits(dirs: seq<Directive>) {
    forall w: nat, p: nat :: MaxWidth(dirs, w) && MaxPrecision(dirs, p) ==> 7 + w + p + 6 < SIZE_MAX
  }

  lemma BufferFitsFor(dirs: seq<Directive>, w: nat, p: nat)
    requires MaxWidth(dirs, w) && MaxPrecision(dirs, p)
    ensures BufferFits(dirs) <==> 7 + w + p + 6 < SIZE_MAX
  {
    forall w': nat, p': nat | MaxWidth(dirs, w') && MaxPrecision(dirs, p') ensures w' == w && p' == p {
      OneMax(dirs, w, w', p, p');
    }
  }

  lemma OneMax(dirs: seq<Directive>, w: nat, w': nat, p: nat, p': nat)
    requires MaxWidth(dirs, w) && MaxWidth(dirs, w') && MaxPrecision(dirs, p) && MaxPrecision(dirs, p')
    ensures w == w' && p == p'
  {
  }

  /** VASNPRINTF: prints every format that can be parsed and has no gap, unless the result is too long. It reports a
      lack of memory exactly if one of its buffers would get too large. */
  method Vasnprintf(s: CString, va: seq<ArgValue>, fmt: Formatter, sn: Snprintf, resultbuf: array<char>)
    returns (r: Outcome, out: Output, stores: seq<Store>, ghost dirs: seq<Directive>, ghost arg: seq<Arg>)
    requires Passes(s, va) && Bounded(fmt) && |s| < SIZE_MAX && resultbuf.Length < SIZE_MAX
    modifies resultbuf
    ensures r.Invalid? <==> !Acceptable(s) || HasGap(s)
    ensures !r.Invalid? ==> Parsed(s, va, dirs, arg) && Chain(s, 0, dirs, arg)
    ensures r.Printed? || r.TooLong? ==>
              && out.Valid() && out.Text() == Rendered(s, 0, dirs, arg, fmt) && stores == Stores(s, 0, dirs, arg, fmt, 0)
              && out.length < out.result.Length && out.result[out.length] == '\0'
              && (r.Printed? <==> out.length <= INT_MAX)
    ensures !r.Invalid? ==>
              (r.NoMemory? <==> !BufferFits(dirs) || SizeNeeded(sn, s, dirs, arg, fmt, resultbuf.Length) >= SIZE_MAX)
  {
    hide Passes, Bounded, Acceptable, HasGap, Parsed, Chain, Rendered, Stores, MaxWidth, MaxPrecision, SizeAfter,
         BufferFits;
    out := new Output(resultbuf);
    stores, dirs, arg := [], [], [];
    var ok, directives, fetched, maxWidth, maxPrecision := ParseAndFetch(s, va);
    if !ok {
      r := Invalid;
      return;
    }
    dirs, arg := directives, fetched;
    BufferFitsFor(dirs, maxWidth, maxPrecision);
    var needed := Xsum4(7, maxWidth, maxPrecision, 6);
    if Xtimes(needed, 1) == SIZE_MAX {
      r := NoMemory;
      return;
    }
    var buf := new char[needed];
    ok, stores := Execute(s, directives, fetched, fmt, sn, out, buf, maxWidth, maxPrecision);
    if !ok {
      r := NoMemory;
      return;
    }
    ok := out.Finish();
    if !ok {
      r := NoMemory;
    } else if out.length > INT_MAX {
      r := TooLong;
    } else {
      r := Printed;
    }
  }

  /** A directive with every flag and a long long. */
  const LONGEST: CString := "%'-+ #0lld"

  lemma LongestFlags()
    ensures FlagsAt(LONGEST, 1, NO_FLAGS) == (Flags(true, true, true, true, true, true), 7)
  {
    var f1 := NO_FLAGS.(group := true);
    var f2 := f1.(left := true);
    var f3 := f2.(showsign := true);
    var f4 := f3.(space := true);
    assert FlagsAt(LONGEST, 1, NO_FLAGS) == FlagsAt(LONGEST, 2, f1) == FlagsAt(LONGEST, 3, f2) == FlagsAt(LONGEST, 4, f3)
           == FlagsAt(LONGEST, 5, f4);
  }

  lemma LongestParsed()
    ensures DirectiveAt(LONGEST, 0)
            == Some(Raw(0, 10, Flags(true, true, true, true, true, true), Field(None, false, None, 7),
                        Field(None, false, None, 7), 'd', LongLong, None))
  {
    LongestFlags();
    hide FlagsAt;
    var l1 := NO_LENGTH.(longs := 1);
    assert LengthAt(LONGEST, 7, NO_LENGTH) == LengthAt(LONGEST, 8, l1) == (l1.(longs := 2), 9);
    assert PositionAt(LONGEST, 1) == NoPosition;
    assert WidthAt(LONGEST, 7) == PrecisionAt(LONGEST, 7) == Field(None, false, None, 7);
  }

  /** The bound on rebuilt directives is reached. */
  lemma BoundIsReached()
    ensures DirectiveAt(LONGEST, 0).Some? && FieldsOk(DirectiveAt(LONGEST, 0).value)
    ensures var r := DirectiveAt(LONGEST, 0).value;
            var d := WithArgs(r, 0);
            && r.end == |LONGEST| && SpanOk(LONGEST, d.width) && SpanOk(LONGEST, d.precision)
            && |DirectiveText(LONGEST, d, r.atype)| + 3 == 7 + Len(d.width) + Len(d.precision) + 6
  {
    hide DirectiveAt, DirectiveText;
    LongestParsed();
    DirectiveFits(LONGEST, WithArgs(DirectiveAt(LONGEST, 0).value, 0), LongLong, 0, 0);
  }
}
