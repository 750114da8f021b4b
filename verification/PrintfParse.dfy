/** printf-parse.c: the loop over the format string, with the table of argument types. */
module PrintfParse {
  import opened Chars
  import opened CStrings
  import opened PrintfArgs
  import opened PrintfSyntax
  import opened Wrappers
  import opened XSize

  const SIZEOF_DIRECTIVE: SizeT := 88

  /** The size of the directive array behind some directives. */
  function DirRoom(count: nat): nat
    ensures count < DirRoom(count)
  {
    if count == 0 then 1 else if count >= DirRoom(count - 1) then 2 * DirRoom(count - 1) else DirRoom(count - 1)
  }

  /** The directive array does not become too large for a SizeT. */
  predicate DirsFit(count: nat) {
    SIZEOF_DIRECTIVE * DirRoom(count) < SIZE_MAX
  }

  lemma {:induction false} DirRoomGrows(a: nat, b: nat)
    requires a <= b
    ensures DirRoom(a) <= DirRoom(b)
  {
    if a < b { DirRoomGrows(a, b - 1); }
  }

  lemma {:induction false} DirRoomBound(count: nat)
    ensures DirRoom(count) <= 2 * count + 1
  {
    if count > 0 { DirRoomBound(count - 1); }
  }

  /** No format below 2^56 characters has too many directives. */
  lemma FewDirectivesFit(count: nat)
    requires count <= 0x100_0000_0000_0000
    ensures DirsFit(count)
  {
    DirRoomBound(count);
  }

  function Len(span: Option<Span>): int {
    if span.Some? then span.value.to - span.value.from else 0
  }

  /** The loops over digits. */
  method SkipDigits(s: CString, cp: nat) returns (np: nat)
    requires cp <= |s|
    ensures np == DigitsEnd(s, cp)
  {
    np := cp;
    while IsDigit(At(s, np))
      invariant cp <= np <= |s| && DigitsEnd(s, cp) == DigitsEnd(s, np)
      decreases |s| - np
    {
      np := np + 1;
    }
  }

  /** The test for a positional argument. */
  method ParsePosition(s: CString, cp: nat) returns (p: Position)
    requires cp <= |s|
    ensures p == PositionAt(s, cp)
  {
    p := NoPosition;
    if IsDigit(At(s, cp)) {
      var end := SkipDigits(s, cp);
      if At(s, end) == '$' {
        var n: SizeT, np := 0, cp;
        while IsDigit(At(s, np))
          invariant cp <= np <= end && n == Number(s, cp, np)
          decreases |s| - np
        {
          assert np < end;
          n := Xsum(Xtimes(n, 10), DigitValue(s[np]));
          np := np + 1;
        }
        assert np == end;
        if n == 0 || n == SIZE_MAX {
          return BadPosition;
        }
        p := Position.Position(n - 1, np + 1);
      }
    }
  }

  /** The loop over the flags. */
  method ParseFlags(s: CString, cp: nat) returns (f: Flags, end: nat)
    requires cp <= |s|
    ensures (f, end) == FlagsAt(s, cp, NO_FLAGS)
  {
    f, end := NO_FLAGS, cp;
    while true
      invariant cp <= end <= |s| && FlagsAt(s, cp, NO_FLAGS) == FlagsAt(s, end, f)
      decreases |s| - end
    {
      var c := At(s, end);
      if c == '\'' {
        f := f.(group := true);
      } else if c == '-' {
        f := f.(left := true);
      } else if c == '+' {
        f := f.(showsign := true);
      } else if c == ' ' {
        f := f.(space := true);
      } else if c == '#' {
        f := f.(alt := true);
      } else if c == '0' {
        f := f.(zero := true);
      } else {
        break;
      }
      end := end + 1;
    }
  }

  /** The loop over the length modifiers; j, z and t count like l where they are longs. */
  method ParseLength(s: CString, cp: nat) returns (l: Length, end: nat)
    requires cp <= |s|
    ensures (l, end) == LengthAt(s, cp, NO_LENGTH)
  {
    l, end := NO_LENGTH, cp;
    while true
      invariant cp <= end <= |s| && LengthAt(s, cp, NO_LENGTH) == LengthAt(s, end, l)
      decreases |s| - end
    {
      var c := At(s, end);
      if c == 'h' {
        l := if l.h then l.(hh := true) else l.(h := true);
      } else if c == 'L' {
        l := l.(big := true);
      } else if c == 'l' || c == 'j' || c == 'z' || c == 'Z' || c == 't' {
        l := l.(longs := l.longs + 1);
      } else {
        break;
      }
      end := end + 1;
    }
  }

  /** A '*' with its argument: the text from `from` to cp is the field. */
  method ParseStar(s: CString, from: nat, cp: nat, args: Arguments, posn: SizeT)
    returns (ok: bool, index: nat, end: nat, posn': SizeT)
    requires from <= cp <= |s| && args.Valid()
    modifies args
    ensures var f := StarAt(s, from, cp);
            && (ok ==> f.Field? && Some(index) == StarArg(f, posn) && end == f.next && posn' == AfterStar(f, posn)
                       && args.Valid() && args.uses == old(args.uses) + StarUses(f, posn))
            && (!ok ==> f.BadField? || Refused(old(args.uses) + StarUses(f, posn)))
  {
    hide Refused;
    ok, index, end, posn' := false, 0, cp, posn;
    var p := ParsePosition(s, cp);
    if p.BadPosition? {
      return;
    }
    if p.Position? {
      index, end := p.index, p.next;
    } else {
      index := posn;
      if index == SIZE_MAX {
        NotRegistered(args.uses, Int);
        return;
      }
      posn' := posn + 1;
    }
    var i: SizeT := index;
    ok := args.Register(i, Int);
  }

  lemma NotRegistered(uses: seq<Use>, t: ArgType)
    ensures Refused(uses + [Use(SIZE_MAX, t)])
  {
    BigIndexRefused(uses + [Use(SIZE_MAX, t)], Use(SIZE_MAX, t));
    hide Consistent, RoomFits;
  }

  /** The field width. */
  method ParseWidth(s: CString, cp: nat, args: Arguments, posn: SizeT, maxLength: nat)
    returns (ok: bool, span: Option<Span>, arg: Option<nat>, end: nat, posn': SizeT, maxLength': nat)
    requires cp <= |s| && args.Valid()
    modifies args
    ensures var f := WidthAt(s, cp);
            && (ok ==> f.Field? && span == f.span && arg == StarArg(f, posn) && end == f.next && posn' == AfterStar(f, posn)
                       && args.Valid() && args.uses == old(args.uses) + StarUses(f, posn)
                       && maxLength' == Max(maxLength, Len(span)))
            && (!ok ==> f.BadField? || Refused(old(args.uses) + StarUses(f, posn)))
  {
    hide Refused, StarAt;
    ok, span, arg, end, posn', maxLength' := true, None, None, cp, posn, maxLength;
    if At(s, cp) == '*' {
      span := Some(Span(cp, cp + 1));
      if maxLength < 1 {
        maxLength' := 1;
      }
      var index;
      ok, index, end, posn' := ParseStar(s, cp, cp + 1, args, posn);
      arg := Some(index);
    } else if IsDigit(At(s, cp)) {
      end := SkipDigits(s, cp);
      span := Some(Span(cp, end));
      if maxLength < end - cp {
        maxLength' := end - cp;
      }
    }
  }

  /** The precision. */
  method ParsePrecision(s: CString, cp: nat, args: Arguments, posn: SizeT, maxLength: nat)
    returns (ok: bool, span: Option<Span>, arg: Option<nat>, end: nat, posn': SizeT, maxLength': nat)
    requires cp <= |s| && args.Valid()
    modifies args
    ensures var f := PrecisionAt(s, cp);
            && (ok ==> f.Field? && span == f.span && arg == StarArg(f, posn) && end == f.next && posn' == AfterStar(f, posn)
                       && args.Valid() && args.uses == old(args.uses) + StarUses(f, posn)
                       && maxLength' == Max(maxLength, Len(span)))
            && (!ok ==> f.BadField? || Refused(old(args.uses) + StarUses(f, posn)))
  {
    hide Refused, StarAt;
    ok, span, arg, end, posn', maxLength' := true, None, None, cp, posn, maxLength;
    if At(s, cp) == '.' {
      if At(s, cp + 1) == '*' {
        span := Some(Span(cp, cp + 2));
        if maxLength < 2 {
          maxLength' := 2;
        }
        var index;
        ok, index, end, posn' := ParseStar(s, cp, cp + 2, args, posn);
        arg := Some(index);
      } else {
        end := SkipDigits(s, cp + 1);
        span := Some(Span(cp, end));
        if maxLength < end - cp {
          maxLength' := end - cp;
        }
      }
    }
  }

  /** The argument of the conversion itself. */
  method RegisterConversion(args: Arguments, posn: SizeT, position: Option<nat>, t: ArgType)
    returns (ok: bool, arg: Option<nat>, posn': SizeT)
    requires args.Valid() && (position.Some? ==> position.value < SIZE_MAX)
    modifies args
    ensures var uses := if t.NoType? then [] else [Use(position.GetOr(posn), t)];
            && (ok ==> args.Valid() && args.uses == old(args.uses) + uses
                       && arg == (if t.NoType? then None else Some(position.GetOr(posn)))
                       && posn' == if !t.NoType? && position.None? then posn + 1 else posn)
            && (!ok ==> Refused(old(args.uses) + uses))
  {
    hide Refused;
    ok, arg, posn' := true, None, posn;
    if !t.NoType? {
      var index := position.GetOr(posn);
      if position.None? {
        if posn == SIZE_MAX {
          NotRegistered(args.uses, t);
          ok := false;
          return;
        }
        posn' := posn + 1;
      }
      var i: SizeT := index;
      arg := Some(index);
      ok := args.Register(i, t);
    }
  }

  /** One round of the loop: a directive from its '%' to its conversion character. */
  method ParseDirective(s: CString, i: nat, args: Arguments, posn: SizeT, maxWidth: nat, maxPrecision: nat)
    returns (ok: bool, d: Directive, posn': SizeT, maxWidth': nat, maxPrecision': nat)
    requires i < |s| && args.Valid()
    modifies args
    ensures var r := DirectiveAt(s, i);
            && (ok ==> r.Some? && FieldsOk(r.value) && d == WithArgs(r.value, posn) && posn' == PosnAfter(r.value, posn)
                       && args.Valid() && args.uses == old(args.uses) + UsesOf(r.value, posn)
                       && maxWidth' == Max(maxWidth, Len(r.value.width.span))
                       && maxPrecision' == Max(maxPrecision, Len(r.value.precision.span)))
            && (!ok ==> r.None? || (FieldsOk(r.value) && Refused(old(args.uses) + UsesOf(r.value, posn))))
  {
    hide Refused, PositionAt, FlagsAt, WidthAt, PrecisionAt, LengthAt, Conversion, At, StarUses, StarArg, AfterStar;
    ghost var before := args.uses;
    ok, posn', maxWidth', maxPrecision' := false, posn, maxWidth, maxPrecision;
    d := Directive(i, i, NO_FLAGS, None, None, None, None, '%', None);
    var p := ParsePosition(s, i + 1);
    if p.BadPosition? {
      return;
    }
    var flags, cp := ParseFlags(s, if p.Position? then p.next else i + 1);
    var width, widthArg, precision, precisionArg;
    ghost var w := WidthAt(s, cp);
    ok, width, widthArg, cp, posn', maxWidth' := ParseWidth(s, cp, args, posn, maxWidth);
    if !ok {
      if DirectiveAt(s, i).Some? { RefusedLater(DirectiveAt(s, i).value, posn, before); }
      return;
    }
    ghost var uses1, p1 := args.uses, posn';
    ghost var pr := PrecisionAt(s, cp);
    ok, precision, precisionArg, cp, posn', maxPrecision' := ParsePrecision(s, cp, args, posn', maxPrecision);
    if !ok {
      if DirectiveAt(s, i).Some? { RefusedLater(DirectiveAt(s, i).value, posn, before); }
      return;
    }
    var len, end := ParseLength(s, cp);
    var conv := Conversion(At(s, end), len);
    if conv.None? {
      ok := false;
      return;
    }
    var position := if p.Position? then Some(p.index) else None;
    var arg;
    ghost var uses2 := args.uses;
    ok, arg, posn' := RegisterConversion(args, posn', position, conv.value.0);
    d := Directive(i, end + 1, flags, width, widthArg, precision, precisionArg, conv.value.1, arg);
    ghost var r := DirectiveAt(s, i).value;
    assert uses2 == before + StarUses(w, posn) + StarUses(pr, p1);
    UsesInOrder(r, posn, before);
  }

  lemma UsesInOrder(r: Raw, posn: nat, before: seq<Use>)
    requires FieldsOk(r)
    ensures var p1 := AfterStar(r.width, posn);
            var p2 := AfterStar(r.precision, p1);
            before + UsesOf(r, posn)
            == (before + StarUses(r.width, posn) + StarUses(r.precision, p1))
               + if r.atype.NoType? then [] else [Use(r.index.GetOr(p2), r.atype)]
  {
    hide StarUses, AfterStar;
  }

  lemma RefusedLater(r: Raw, posn: nat, before: seq<Use>)
    requires FieldsOk(r)
    ensures var w, p := StarUses(r.width, posn), StarUses(r.precision, AfterStar(r.width, posn));
            Refused(before + w) || Refused(before + w + p) ==> Refused(before + UsesOf(r, posn))
  {
    hide Refused, StarUses, AfterStar;
    var p1 := AfterStar(r.width, posn);
    var p2 := AfterStar(r.precision, p1);
    var w, p := StarUses(r.width, posn), StarUses(r.precision, p1);
    var last := if r.atype.NoType? then [] else [Use(r.index.GetOr(p2), r.atype)];
    assert before + UsesOf(r, posn) == (before + w + p) + last;
    if Refused(before + w) { RefusedPrefix(before + w, p); }
    if Refused(before + w + p) { RefusedPrefix(before + w + p, last); }
  }

  lemma {:induction false} ParsedFieldsOk(s: CString, i: nat)
    requires i <= |s| && ParseAll(s, i).Some?
    ensures AllFieldsOk(ParseAll(s, i).value)
    decreases |s| - i
  {
    hide DirectiveAt;
    var j := NextPercent(s, i);
    if j < |s| { ParsedFieldsOk(s, DirectiveAt(s, j).value.end); }
  }

  /** What is left to parse, after some directives and uses, leads to the same result. */
  ghost predicate SameRest(s: CString, cp: nat, dirs: seq<Directive>, uses: seq<Use>, posn: nat) {
    && cp <= |s|
    && (ParseAll(s, 0).Some? <==> ParseAll(s, cp).Some?)
    && (ParseAll(s, 0).Some? ==>
          && AllFieldsOk(ParseAll(s, 0).value) && AllFieldsOk(ParseAll(s, cp).value)
          && AllWithArgs(ParseAll(s, 0).value, 0) == dirs + AllWithArgs(ParseAll(s, cp).value, posn)
          && AllUses(ParseAll(s, 0).value, 0) == uses + AllUses(ParseAll(s, cp).value, posn))
  }

  lemma SameAtStart(s: CString)
    ensures SameRest(s, 0, [], [], 0)
  {
    hide ParseAll, AllWithArgs, AllUses;
    if ParseAll(s, 0).Some? {
      ParsedFieldsOk(s, 0);
      var rs := ParseAll(s, 0).value;
      assert [] + AllWithArgs(rs, 0) == AllWithArgs(rs, 0) && [] + AllUses(rs, 0) == AllUses(rs, 0);
    }
  }

  lemma SameAfterLiteral(s: CString, cp: nat, dirs: seq<Directive>, uses: seq<Use>, posn: nat)
    requires SameRest(s, cp, dirs, uses, posn) && cp < |s| && s[cp] != '%'
    ensures SameRest(s, cp + 1, dirs, uses, posn)
  {
    assert ParseAll(s, cp) == ParseAll(s, cp + 1) by {
      hide DirectiveAt;
      assert NextPercent(s, cp) == NextPercent(s, cp + 1);
    }
    hide ParseAll, AllWithArgs, AllUses;
  }

  /** The '%' at cp begins the next directive. */
  lemma NextDirective(s: CString, cp: nat)
    requires cp < |s| && s[cp] == '%'
    ensures ParseAll(s, cp).Some? ==> DirectiveAt(s, cp).Some?
    ensures DirectiveAt(s, cp).Some? ==>
              var r := DirectiveAt(s, cp).value;
              var rest := ParseAll(s, r.end);
              ParseAll(s, cp) == if rest.Some? then Some([r] + rest.value) else None
  {
    hide DirectiveAt;
    assert NextPercent(s, cp) == cp;
  }

  lemma SameAfterDirective(s: CString, cp: nat, dirs: seq<Directive>, uses: seq<Use>, posn: nat)
    requires SameRest(s, cp, dirs, uses, posn) && cp < |s| && s[cp] == '%'
    requires DirectiveAt(s, cp).Some? && FieldsOk(DirectiveAt(s, cp).value)
    ensures var r := DirectiveAt(s, cp).value;
            SameRest(s, r.end, dirs + [WithArgs(r, posn)], uses + UsesOf(r, posn), PosnAfter(r, posn))
  {
    hide DirectiveAt, ParseAll, WithArgs, UsesOf, PosnAfter, AllWithArgs, AllUses;
    NextDirective(s, cp);
    var r := DirectiveAt(s, cp).value;
    if ParseAll(s, cp).Some? {
      ParsedFieldsOk(s, r.end);
      AllStep(r, ParseAll(s, r.end).value, posn);
      Reassociate(dirs, WithArgs(r, posn), AllWithArgs(ParseAll(s, r.end).value, PosnAfter(r, posn)),
                  uses, UsesOf(r, posn), AllUses(ParseAll(s, r.end).value, PosnAfter(r, posn)));
    }
  }

  lemma Reassociate(dirs: seq<Directive>, d: Directive, ds: seq<Directive>, uses: seq<Use>, u: seq<Use>, us: seq<Use>)
    ensures dirs + ([d] + ds) == (dirs + [d]) + ds && uses + (u + us) == (uses + u) + us
  {
  }

  lemma AllStep(r: Raw, rest: seq<Raw>, posn: nat)
    requires FieldsOk(r) && AllFieldsOk(rest)
    ensures AllFieldsOk([r] + rest)
    ensures AllWithArgs([r] + rest, posn) == [WithArgs(r, posn)] + AllWithArgs(rest, PosnAfter(r, posn))
    ensures AllUses([r] + rest, posn) == UsesOf(r, posn) + AllUses(rest, PosnAfter(r, posn))
  {
    hide WithArgs, UsesOf, PosnAfter;
    assert ([r] + rest)[1..] == rest;
  }

  /** A refused directive makes the whole format unacceptable. */
  lemma RefusedInAll(s: CString, cp: nat, dirs: seq<Directive>, uses: seq<Use>, posn: nat)
    requires SameRest(s, cp, dirs, uses, posn) && cp < |s| && s[cp] == '%'
    requires DirectiveAt(s, cp).None?
             || (FieldsOk(DirectiveAt(s, cp).value) && Refused(uses + UsesOf(DirectiveAt(s, cp).value, posn)))
    ensures !Acceptable(s)
  {
    NextDirective(s, cp);
    if ParseAll(s, 0).Some? {
      var r := DirectiveAt(s, cp).value;
      SameAfterDirective(s, cp, dirs, uses, posn);
      var rest := ParseAll(s, r.end).value;
      RefusedPrefix(uses + UsesOf(r, posn), AllUses(rest, PosnAfter(r, posn)));
    }
    hide DirectiveAt, ParseAll, WithArgs, UsesOf, PosnAfter, AllWithArgs, AllUses, Refused;
  }

  /** A format that can be parsed: its syntax is right, no argument has two types, and neither
      array becomes too large. */
  ghost predicate Acceptable(s: CString) {
    var all := ParseAll(s, 0);
    all.Some? && AllFieldsOk(all.value) && !Refused(AllUses(all.value, 0)) && DirsFit(|all.value|)
  }

  lemma {:induction false} SameCount(rs: seq<Raw>, posn: nat)
    requires AllFieldsOk(rs)
    ensures |AllWithArgs(rs, posn)| == |rs|
  {
    hide WithArgs, PosnAfter;
    if rs != [] { SameCount(rs[1..], PosnAfter(rs[0], posn)); }
  }

  lemma TooManyDirectives(s: CString, cp: nat, dirs: seq<Directive>, uses: seq<Use>, posn: nat)
    requires SameRest(s, cp, dirs, uses, posn) && !DirsFit(|dirs|)
    ensures !Acceptable(s)
  {
    hide ParseAll, AllWithArgs, AllUses, Refused, DirRoom;
    if ParseAll(s, 0).Some? {
      SameCount(ParseAll(s, 0).value, 0);
      DirRoomGrows(|dirs|, |ParseAll(s, 0).value|);
    }
  }

  /** A bound on lengths that is reached unless it is 0. */
  predicate MaxWidth(dirs: seq<Directive>, m: nat) {
    (forall d <- dirs :: Len(d.width) <= m) && (m == 0 || exists d <- dirs :: Len(d.width) == m)
  }

  predicate MaxPrecision(dirs: seq<Directive>, m: nat) {
    (forall d <- dirs :: Len(d.precision) <= m) && (m == 0 || exists d <- dirs :: Len(d.precision) == m)
  }

  lemma MaxGrows(dirs: seq<Directive>, d: Directive, w: nat, p: nat)
    requires MaxWidth(dirs, w) && MaxPrecision(dirs, p)
    ensures MaxWidth(dirs + [d], Max(w, Len(d.width))) && MaxPrecision(dirs + [d], Max(p, Len(d.precision)))
  {
    var more := dirs + [d];
    assert d in more && forall e :: e in dirs ==> e in more;
  }

  /** PRINTF_PARSE: succeeds with the directives and the table of arguments of every format
      that can be parsed, and fails otherwise. */
  method Parse(s: CString)
    returns (ok: bool, dirs: seq<Directive>, end: nat, args: Arguments, maxWidth: nat, maxPrecision: nat)
    ensures ok <==> Acceptable(s)
    ensures ok ==> ParseAll(s, 0).Some? && AllFieldsOk(ParseAll(s, 0).value)
                   && dirs == AllWithArgs(ParseAll(s, 0).value, 0) && end == |s|
                   && args.uses == AllUses(ParseAll(s, 0).value, 0) && args.Valid()
                   && MaxWidth(dirs, maxWidth) && MaxPrecision(dirs, maxPrecision)
    ensures fresh(args)
  {
    hide ParseAll, DirectiveAt, AllWithArgs, AllUses, Refused, WithArgs, UsesOf, PosnAfter, Acceptable, MaxWidth,
         MaxPrecision, SameRest;
    args := new Arguments();
    ok, dirs, end, maxWidth, maxPrecision := false, [], 0, 0, 0;
    var posn: SizeT, room: SizeT := 0, 1;
    SameAtStart(s);
    NoMax();
    while At(s, end) != '\0'
      invariant end <= |s| && args.Valid() && fresh(args)
      invariant SameRest(s, end, dirs, args.uses, posn)
      invariant MaxWidth(dirs, maxWidth) && MaxPrecision(dirs, maxPrecision)
      invariant room == DirRoom(|dirs|) && DirsFit(|dirs|)
      decreases |s| - end
    {
      if s[end] != '%' {
        SameAfterLiteral(s, end, dirs, args.uses, posn);
        end := end + 1;
      } else {
        ghost var was, uses, before := end, args.uses, posn;
        ghost var w, p := maxWidth, maxPrecision;
        var d, good;
        good, d, posn, maxWidth, maxPrecision := ParseDirective(s, end, args, posn, maxWidth, maxPrecision);
        if !good {
          RefusedInAll(s, was, dirs, uses, before);
          return;
        }
        SameAfterDirective(s, was, dirs, uses, before);
        MaxGrows(dirs, d, w, p);
        ShapeOf(DirectiveAt(s, was).value, before);
        dirs, end := dirs + [d], d.dirEnd;
        if |dirs| >= room {
          room := Xtimes(room, 2);
          var memorySize := Xtimes(room, SIZEOF_DIRECTIVE);
          if memorySize == SIZE_MAX {
            TooManyDirectives(s, end, dirs, args.uses, posn);
            return;
          }
        }
      }
    }
    ok := true;
    NothingLeft(s, end, dirs, args.uses, posn);
    TableAccepted(args.uses, args.arg);
    AllAccepted(s, dirs);
  }

  lemma TableAccepted(uses: seq<Use>, arg: seq<ArgType>)
    requires TableOf(uses, arg) && RoomFits(uses)
    ensures !Refused(uses)
  {
    TableMeansConsistent(uses, arg);
    hide TableOf, RoomFits, Consistent;
  }

  lemma AllAccepted(s: CString, dirs: seq<Directive>)
    requires ParseAll(s, 0).Some? && AllFieldsOk(ParseAll(s, 0).value) && dirs == AllWithArgs(ParseAll(s, 0).value, 0)
    requires !Refused(AllUses(ParseAll(s, 0).value, 0)) && DirsFit(|dirs|)
    ensures Acceptable(s)
  {
    hide ParseAll, AllWithArgs, AllUses, Refused, DirsFit;
    SameCount(ParseAll(s, 0).value, 0);
  }

  lemma ShapeOf(r: Raw, posn: nat)
    requires FieldsOk(r)
    ensures var d := WithArgs(r, posn);
            d.dirStart == r.start && d.dirEnd == r.end && d.width == r.width.span && d.precision == r.precision.span
  {
  }

  lemma NoMax()
    ensures MaxWidth([], 0) && MaxPrecision([], 0)
  {
  }

  lemma NothingLeft(s: CString, end: nat, dirs: seq<Directive>, uses: seq<Use>, posn: nat)
    requires SameRest(s, end, dirs, uses, posn) && At(s, end) == '\0'
    ensures end == |s| && ParseAll(s, 0).Some? && AllFieldsOk(ParseAll(s, 0).value)
    ensures dirs == AllWithArgs(ParseAll(s, 0).value, 0) && uses == AllUses(ParseAll(s, 0).value, 0)
  {
    assert ParseAll(s, |s|) == Some([]);
    assert dirs + [] == dirs && uses + [] == uses;
  }
}
