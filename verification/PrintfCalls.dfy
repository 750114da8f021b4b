/** Which arguments snprintf is called with: those that the text of the format selects. */
module PrintfCalls {
  import opened CStrings
  import opened PrintfArgs
  import opened PrintfEngine
  import opened PrintfSyntax
  import opened Wrappers

  // ---- What the format selects ----

  /** The arguments that a directive asks for, as they are written: for a star in the width, for one in the precision, and
      for the conversion. Each has a position, or is the next one. */
  function Asked(r: Raw): seq<Option<nat>>
    requires FieldsOk(r)
  {
    (if r.width.star then [r.width.index] else [])
    + (if r.precision.star then [r.precision.index] else [])
    + (if r.conversion == '%' then [] else [r.index])
  }

  function ValueAt(va: seq<ArgValue>, i: nat): ArgValue {
    if i < |va| then va[i] else OtherArg(0)
  }

  /** The arguments with these positions; those without take what follows the last that had none. */
  function Select(asked: seq<Option<nat>>, posn: nat, va: seq<ArgValue>): seq<ArgValue> {
    if asked == [] then []
    else if asked[0].Some? then [ValueAt(va, asked[0].value)] + Select(asked[1..], posn, va)
    else [ValueAt(va, posn)] + Select(asked[1..], posn + 1, va)
  }

  function NextOne(asked: seq<Option<nat>>, posn: nat): nat {
    if asked == [] then posn else NextOne(asked[1..], if asked[0].Some? then posn else posn + 1)
  }

  function Ints(values: seq<ArgValue>): seq<int> {
    if values == [] then [] else [if values[0].IntArg? then values[0].value else 0] + Ints(values[1..])
  }

  function Init(values: seq<ArgValue>): seq<ArgValue>
    requires values != []
  {
    values[..|values| - 1]
  }

  // ---- The output that results ----

  /** The text of one directive if snprintf gets these values, the last of them converted, the others for the stars. */
  function Converted(s: CString, r: Raw, values: seq<ArgValue>, fmt: Formatter): string
    requires FieldsOk(r) && SpanOk(s, r.width.span) && SpanOk(s, r.precision.span)
  {
    if r.conversion == '%' then "%"
    else if r.conversion == 'n' || values == [] then ""
    else fmt(DirectiveText(s, WithArgs(r, 0), r.atype), Ints(Init(values)), values[|values| - 1])
  }

  predicate SpansOk(s: CString, rs: seq<Raw>) {
    forall r <- rs :: FieldsOk(r) && SpanOk(s, r.width.span) && SpanOk(s, r.precision.span)
  }

  /** The output of a format, each directive with the arguments that it selects. */
  function Printed(s: CString, cp: nat, rs: seq<Raw>, posn: nat, va: seq<ArgValue>, fmt: Formatter): string
    requires Tiled(s, cp, rs) && SpansOk(s, rs)
    decreases rs
  {
    if rs == [] then s[cp..]
    else
      var asked := Asked(rs[0]);
      s[cp..rs[0].start]
      + (Converted(s, rs[0], Select(asked, posn, va), fmt)
         + Printed(s, rs[0].end, rs[1..], NextOne(asked, posn), va, fmt))
  }

  /** What the "%n" directives store: each through the argument that it selects, the length of the output so far. */
  function Counted(s: CString, cp: nat, rs: seq<Raw>, posn: nat, va: seq<ArgValue>, fmt: Formatter, output: string)
    : seq<(ArgValue, nat)>
    requires Tiled(s, cp, rs) && SpansOk(s, rs)
    decreases rs
  {
    if rs == [] then []
    else
      var asked := Asked(rs[0]);
      var values := Select(asked, posn, va);
      var before := output + s[cp..rs[0].start];
      (if rs[0].conversion == 'n' && values != [] then [(values[|values| - 1], |before|)] else [])
      + Counted(s, rs[0].end, rs[1..], NextOne(asked, posn), va, fmt, before + Converted(s, rs[0], values, fmt))
  }

  /** The output of a format whose directives take the arguments in order, each what it needs from the front. */
  function PrintedInOrder(s: CString, cp: nat, rs: seq<Raw>, va: seq<ArgValue>, fmt: Formatter): string
    requires Tiled(s, cp, rs) && SpansOk(s, rs)
    decreases rs
  {
    if rs == [] then s[cp..]
    else
      var n := Min(|Asked(rs[0])|, |va|);
      s[cp..rs[0].start]
      + (Converted(s, rs[0], va[..n], fmt) + PrintedInOrder(s, rs[0].end, rs[1..], va[n..], fmt))
  }

  /** How many arguments the directives take. */
  function Taken(rs: seq<Raw>): nat
    requires AllFieldsOk(rs)
  {
    if rs == [] then 0 else |Asked(rs[0])| + Taken(rs[1..])
  }

  // ---- The engine calls snprintf with the arguments that the format selects ----

  lemma {:induction false} SelectJoin(a: seq<Option<nat>>, b: seq<Option<nat>>, posn: nat, va: seq<ArgValue>)
    ensures Select(a + b, posn, va) == Select(a, posn, va) + Select(b, NextOne(a, posn), va)
    ensures NextOne(a + b, posn) == NextOne(b, NextOne(a, posn))
    decreases a
  {
    if a == [] {
      assert a + b == b;
    } else {
      assert (a + b)[1..] == a[1..] + b;
      SelectJoin(a[1..], b, if a[0].Some? then posn else posn + 1, va);
    }
  }

  lemma SelectStar(f: Field, posn: nat, va: seq<ArgValue>)
    requires f.Field?
    ensures var asked := if f.star then [f.index] else [];
            && Select(asked, posn, va) == (if f.star then [ValueAt(va, f.index.GetOr(posn))] else [])
            && NextOne(asked, posn) == AfterStar(f, posn)
  {
  }

  lemma SelectOne(index: Option<nat>, posn: nat, va: seq<ArgValue>)
    ensures Select([index], posn, va) == [ValueAt(va, index.GetOr(posn))]
    ensures NextOne([index], posn) == if index.Some? then posn else posn + 1
  {
  }

  /** What a directive selects, in the terms of the parser. */
  lemma Selected(r: Raw, posn: nat, va: seq<ArgValue>)
    requires FieldsOk(r) && (r.atype.NoType? <==> r.conversion == '%')
    ensures var d := WithArgs(r, posn);
            && Select(Asked(r), posn, va)
               == (if d.widthArg.Some? then [ValueAt(va, d.widthArg.value)] else [])
                  + (if d.precisionArg.Some? then [ValueAt(va, d.precisionArg.value)] else [])
                  + (if d.arg.Some? then [ValueAt(va, d.arg.value)] else [])
            && NextOne(Asked(r), posn) == PosnAfter(r, posn)
  {
    hide Select, NextOne;
    var w: seq<Option<nat>> := if r.width.star then [r.width.index] else [];
    var pr: seq<Option<nat>> := if r.precision.star then [r.precision.index] else [];
    var c: seq<Option<nat>> := if r.conversion == '%' then [] else [r.index];
    var p1 := AfterStar(r.width, posn);
    SelectJoin(w + pr, c, posn, va);
    SelectJoin(w, pr, posn, va);
    SelectStar(r.width, posn, va);
    SelectStar(r.precision, p1, va);
    SelectOne(r.index, AfterStar(r.precision, p1), va);
    SelectNone(AfterStar(r.precision, p1), va);
  }

  lemma SelectNone(posn: nat, va: seq<ArgValue>)
    ensures Select([], posn, va) == [] && NextOne([], posn) == posn
  {
  }

  lemma IntsOfStars(w: seq<ArgValue>, p: seq<ArgValue>)
    requires |w| <= 1 && |p| <= 1 && forall v <- w + p :: v.IntArg?
    ensures Ints(w + p) == (if w == [] then [] else [w[0].value]) + (if p == [] then [] else [p[0].value])
  {
    if p != [] {
      assert p[0] == (w + p)[|w|] && p[1..] == [];
      assert Ints(p) == [p[0].value];
    }
    if w == [] {
      assert w + p == p;
    } else {
      assert (w + p)[1..] == p && w[0] == (w + p)[0];
      assert Ints(w + p) == [w[0].value] + Ints(p);
    }
  }

  /** The values of an argument table. */
  predicate Holds(arg: seq<Arg>, va: seq<ArgValue>) {
    |arg| <= |va| && forall i :: 0 <= i < |arg| ==> arg[i].1 == va[i]
  }

  lemma PieceSelected(s: CString, r: Raw, posn: nat, arg: seq<Arg>, va: seq<ArgValue>, fmt: Formatter)
    requires FieldsOk(r) && (r.atype.NoType? <==> r.conversion == '%') && Holds(arg, va)
    requires var d := WithArgs(r, posn); DirOk(s, d, arg) && (d.arg.Some? ==> arg[d.arg.value].0 == r.atype)
    requires SpanOk(s, r.width.span) && SpanOk(s, r.precision.span)
    ensures Piece(s, WithArgs(r, posn), arg, fmt) == Converted(s, r, Select(Asked(r), posn, va), fmt)
  {
    hide Select, NextOne, Asked, Ints, DirectiveText;
    var d, values := WithArgs(r, posn), Select(Asked(r), posn, va);
    Selected(r, posn, va);
    SameText(s, r, posn);
    if d.arg.Some? && d.conversion != 'n' {
      var w := if d.widthArg.Some? then [va[d.widthArg.value]] else [];
      var p := if d.precisionArg.Some? then [va[d.precisionArg.value]] else [];
      assert values == w + p + [va[d.arg.value]];
      assert Init(values) == w + p;
      IntsOfStars(w, p);
    }
  }

  lemma SameText(s: CString, r: Raw, posn: nat)
    requires FieldsOk(r) && SpanOk(s, r.width.span) && SpanOk(s, r.precision.span)
    ensures DirectiveText(s, WithArgs(r, posn), r.atype) == DirectiveText(s, WithArgs(r, 0), r.atype)
  {
    hide SpanText, FlagText, LengthText;
  }

  // ---- Whole formats ----

  /** What parsing makes sure of. */
  ghost predicate Sound(s: CString, cp: nat, rs: seq<Raw>) {
    && Tiled(s, cp, rs) && SpansOk(s, rs)
    && forall r <- rs :: r.atype.NoType? <==> r.conversion == '%'
  }

  lemma {:induction false} ParsedSound(s: CString, i: nat)
    requires i <= |s| && ParseAll(s, i).Some?
    ensures Sound(s, i, ParseAll(s, i).value)
    decreases |s| - i
  {
    hide DirectiveAt;
    ParseTiles(s, i);
    var j := NextPercent(s, i);
    if j < |s| {
      var r := DirectiveAt(s, j).value;
      SpansOfDirective(s, j);
      TypeOfDirective(s, j);
      ParsedSound(s, r.end);
      hide Tiled;
    }
  }

  lemma SoundStep(s: CString, cp: nat, rs: seq<Raw>)
    requires Sound(s, cp, rs) && rs != []
    ensures cp <= rs[0].start < rs[0].end <= |s| && Sound(s, rs[0].end, rs[1..])
    ensures FieldsOk(rs[0]) && SpanOk(s, rs[0].width.span) && SpanOk(s, rs[0].precision.span)
    ensures rs[0].atype.NoType? <==> rs[0].conversion == '%'
  {
  }

  /** The directives that arise from the parsed ones have the types of the table. */
  predicate TypesMatch(rs: seq<Raw>, posn: nat, arg: seq<Arg>)
    requires AllFieldsOk(rs)
    decreases rs
  {
    rs != [] ==>
      && (var d := WithArgs(rs[0], posn); d.arg.Some? ==> d.arg.value < |arg| && arg[d.arg.value].0 == rs[0].atype)
      && TypesMatch(rs[1..], PosnAfter(rs[0], posn), arg)
  }

  lemma {:induction false} TypesFromTable(rs: seq<Raw>, posn: nat, uses: seq<Use>, types: seq<ArgType>, arg: seq<Arg>)
    requires AllFieldsOk(rs) && TableOf(uses, types)
    requires |arg| == |types| && forall i :: 0 <= i < |arg| ==> arg[i].0 == types[i]
    requires forall u <- AllUses(rs, posn) :: u in uses
    ensures TypesMatch(rs, posn, arg)
    decreases rs
  {
    hide TableOf, UsesOf, WithArgs, PosnAfter;
    if rs != [] {
      assert AllUses(rs, posn) == UsesOf(rs[0], posn) + AllUses(rs[1..], PosnAfter(rs[0], posn));
      UsesFit(rs[0], posn, uses, types);
      TypesFromTable(rs[1..], PosnAfter(rs[0], posn), uses, types, arg);
    }
  }

  lemma {:induction false} RenderedSelects(s: CString, cp: nat, rs: seq<Raw>, posn: nat, arg: seq<Arg>, va: seq<ArgValue>,
                                           fmt: Formatter)
    requires Sound(s, cp, rs) && Holds(arg, va) && Chain(s, cp, AllWithArgs(rs, posn), arg) && TypesMatch(rs, posn, arg)
    ensures Rendered(s, cp, AllWithArgs(rs, posn), arg, fmt) == Printed(s, cp, rs, posn, va, fmt)
    decreases rs
  {
    assert AllFieldsOk(rs);
    hide Piece, Converted, Asked, WithArgs, PosnAfter, Sound, Holds, DirOk, Select, NextOne;
    if rs != [] {
      SoundStep(s, cp, rs);
      var dirs := AllWithArgs(rs, posn);
      assert dirs[0] == WithArgs(rs[0], posn) && dirs[1..] == AllWithArgs(rs[1..], PosnAfter(rs[0], posn));
      PieceSelected(s, rs[0], posn, arg, va, fmt);
      Selected(rs[0], posn, va);
      Extent(rs[0], posn);
      RenderedSelects(s, rs[0].end, rs[1..], PosnAfter(rs[0], posn), arg, va, fmt);
    }
  }

  lemma Extent(r: Raw, posn: nat)
    requires FieldsOk(r)
    ensures WithArgs(r, posn).dirStart == r.start && WithArgs(r, posn).dirEnd == r.end
  {
  }

  /** These stores are such counts, each cut to the integer that it is stored into. */
  predicate StoresCounts(stores: seq<Store>, counts: seq<(ArgValue, nat)>) {
    && |stores| == |counts|
    && forall k :: 0 <= k < |stores| ==> stores[k].arg.1 == counts[k].0 && stores[k] == StoreOf(stores[k].arg, counts[k].1)
  }

  lemma StoresJoin(a: seq<Store>, x: seq<(ArgValue, nat)>, b: seq<Store>, y: seq<(ArgValue, nat)>)
    requires StoresCounts(a, x) && StoresCounts(b, y)
    ensures StoresCounts(a + b, x + y)
  {
    hide StoreOf;
  }

  /** What one directive stores. */
  lemma StoreHere(s: CString, r: Raw, posn: nat, arg: seq<Arg>, va: seq<ArgValue>, here: nat)
    requires FieldsOk(r) && (r.atype.NoType? <==> r.conversion == '%') && Holds(arg, va)
    requires DirOk(s, WithArgs(r, posn), arg)
    ensures var d, values := WithArgs(r, posn), Select(Asked(r), posn, va);
            StoresCounts(if d.conversion == 'n' then [StoreOf(arg[d.arg.value], here)] else [],
                         if r.conversion == 'n' && values != [] then [(values[|values| - 1], here)] else [])
  {
    hide Select, Asked, StoreOf;
    Selected(r, posn, va);
    StoredArg(arg, WithArgs(r, posn).arg.GetOr(0), here);
  }

  lemma StoredArg(arg: seq<Arg>, i: nat, here: nat)
    ensures i < |arg| ==> StoreOf(arg[i], here).arg == arg[i]
  {
  }

  /** The first directive of some, and the others. */
  lemma StoresStep(s: CString, cp: nat, rs: seq<Raw>, posn: nat, arg: seq<Arg>, fmt: Formatter, output: string)
    requires AllFieldsOk(rs) && rs != [] && Chain(s, cp, AllWithArgs(rs, posn), arg)
    ensures var d, dirs := WithArgs(rs[0], posn), AllWithArgs(rs[1..], PosnAfter(rs[0], posn));
            && DirOk(s, d, arg) && cp <= rs[0].start < rs[0].end <= |s| && Chain(s, rs[0].end, dirs, arg)
            && (d.conversion == 'n' ==> d.arg.Some? && d.arg.value < |arg|)
            && var before := output + s[cp..rs[0].start];
            Stores(s, cp, AllWithArgs(rs, posn), arg, fmt, |output|)
            == (if d.conversion == 'n' then [StoreOf(arg[d.arg.value], |before|)] else [])
               + Stores(s, rs[0].end, dirs, arg, fmt, |before + Piece(s, d, arg, fmt)|)
  {
    hide Piece, PosnAfter, StoreOf;
    Extent(rs[0], posn);
    var dirs := AllWithArgs(rs, posn);
    assert dirs[0] == WithArgs(rs[0], posn) && dirs[1..] == AllWithArgs(rs[1..], PosnAfter(rs[0], posn));
  }

  lemma {:induction false} StoresSelect(s: CString, cp: nat, rs: seq<Raw>, posn: nat, arg: seq<Arg>, va: seq<ArgValue>,
                                        fmt: Formatter, output: string)
    requires AllFieldsOk(rs) && Sound(s, cp, rs) && Holds(arg, va)
    requires Chain(s, cp, AllWithArgs(rs, posn), arg) && TypesMatch(rs, posn, arg)
    ensures StoresCounts(Stores(s, cp, AllWithArgs(rs, posn), arg, fmt, |output|),
                         Counted(s, cp, rs, posn, va, fmt, output))
    decreases rs
  {
    hide Piece, Converted, Asked, WithArgs, PosnAfter, Sound, DirOk, Select, NextOne, StoreOf, StoresCounts, Holds, Stores,
         Chain, Tiled;
    if rs == [] {
      NoStores(s, cp, posn, arg, va, fmt, output);
    } else {
      SoundStep(s, cp, rs);
      StoresStep(s, cp, rs, posn, arg, fmt, output);
      PieceSelected(s, rs[0], posn, arg, va, fmt);
      Selected(rs[0], posn, va);
      var before := output + s[cp..rs[0].start];
      StoreHere(s, rs[0], posn, arg, va, |before|);
      var next := before + Converted(s, rs[0], Select(Asked(rs[0]), posn, va), fmt);
      StoresSelect(s, rs[0].end, rs[1..], PosnAfter(rs[0], posn), arg, va, fmt, next);
      var d, values := WithArgs(rs[0], posn), Select(Asked(rs[0]), posn, va);
      StoresJoin(if d.conversion == 'n' then [StoreOf(arg[d.arg.value], |before|)] else [],
                 if rs[0].conversion == 'n' && values != [] then [(values[|values| - 1], |before|)] else [],
                 Stores(s, rs[0].end, AllWithArgs(rs[1..], PosnAfter(rs[0], posn)), arg, fmt, |next|),
                 Counted(s, rs[0].end, rs[1..], PosnAfter(rs[0], posn), va, fmt, next));
    }
  }

  lemma NoStores(s: CString, cp: nat, posn: nat, arg: seq<Arg>, va: seq<ArgValue>, fmt: Formatter, output: string)
    requires Sound(s, cp, []) && Chain(s, cp, AllWithArgs([], posn), arg)
    ensures StoresCounts(Stores(s, cp, AllWithArgs([], posn), arg, fmt, |output|),
                         Counted(s, cp, [], posn, va, fmt, output))
  {
  }

  // ---- Formats without positions ----

  lemma {:induction false} SelectFront(asked: seq<Option<nat>>, posn: nat, va: seq<ArgValue>)
    requires (forall a <- asked :: a.None?) && posn + |asked| <= |va|
    ensures Select(asked, posn, va) == va[posn..posn + |asked|] && NextOne(asked, posn) == posn + |asked|
    decreases asked
  {
    if asked != [] {
      assert asked[0] in asked;
      SelectFront(asked[1..], posn + 1, va);
      assert va[posn..posn + |asked|] == [va[posn]] + va[posn + 1..posn + |asked|];
    }
  }

  lemma AskedFront(r: Raw, posn: nat, va: seq<ArgValue>)
    requires NoPositions(r) && posn + |Asked(r)| <= |va|
    ensures Select(Asked(r), posn, va) == va[posn..posn + |Asked(r)|] && NextOne(Asked(r), posn) == posn + |Asked(r)|
  {
    SelectFront(Asked(r), posn, va);
  }

  lemma Front(va: seq<ArgValue>, posn: nat, n: nat)
    requires posn + n <= |va|
    ensures va[posn..][..n] == va[posn..posn + n] && va[posn..][n..] == va[posn + n..]
  {
  }

  lemma InOrderStep(s: CString, cp: nat, rs: seq<Raw>, va: seq<ArgValue>, fmt: Formatter)
    requires Tiled(s, cp, rs) && SpansOk(s, rs) && rs != [] && |Asked(rs[0])| <= |va|
    ensures var n := |Asked(rs[0])|;
            PrintedInOrder(s, cp, rs, va, fmt)
            == s[cp..rs[0].start]
               + (Converted(s, rs[0], va[..n], fmt) + PrintedInOrder(s, rs[0].end, rs[1..], va[n..], fmt))
  {
    hide Converted, Asked;
  }

  lemma PrintedStep(s: CString, cp: nat, rs: seq<Raw>, posn: nat, va: seq<ArgValue>, fmt: Formatter)
    requires Tiled(s, cp, rs) && SpansOk(s, rs) && rs != [] && NoPositions(rs[0]) && posn + |Asked(rs[0])| <= |va|
    ensures var n := |Asked(rs[0])|;
            Printed(s, cp, rs, posn, va, fmt)
            == s[cp..rs[0].start]
               + (Converted(s, rs[0], va[posn..posn + n], fmt) + Printed(s, rs[0].end, rs[1..], posn + n, va, fmt))
  {
    hide Converted, Asked, Select, NextOne, NoPositions;
    AskedFront(rs[0], posn, va);
  }

  lemma SoundHere(s: CString, cp: nat, rs: seq<Raw>)
    requires Sound(s, cp, rs)
    ensures Tiled(s, cp, rs) && SpansOk(s, rs)
  {
  }

  lemma NothingPrinted(s: CString, cp: nat, posn: nat, va: seq<ArgValue>, fmt: Formatter)
    requires Tiled(s, cp, []) && SpansOk(s, []) && posn <= |va|
    ensures Printed(s, cp, [], posn, va, fmt) == PrintedInOrder(s, cp, [], va[posn..], fmt)
  {
  }

  lemma TakenStep(rs: seq<Raw>)
    requires AllFieldsOk(rs) && rs != [] && forall r <- rs :: NoPositions(r)
    ensures FieldsOk(rs[0]) && AllFieldsOk(rs[1..]) && NoPositions(rs[0]) && (forall r <- rs[1..] :: NoPositions(r))
    ensures Taken(rs) == |Asked(rs[0])| + Taken(rs[1..])
  {
    hide NoPositions, Asked;
    assert rs[0] in rs;
  }

  lemma {:induction false} InOrderFrom(s: CString, cp: nat, rs: seq<Raw>, posn: nat, va: seq<ArgValue>, fmt: Formatter)
    requires Sound(s, cp, rs) && (forall r <- rs :: NoPositions(r)) && AllFieldsOk(rs) && posn + Taken(rs) <= |va|
    ensures Printed(s, cp, rs, posn, va, fmt) == PrintedInOrder(s, cp, rs, va[posn..], fmt)
    decreases rs
  {
    hide *;
    SoundHere(s, cp, rs);
    if rs == [] {
      NothingPrinted(s, cp, posn, va, fmt);
    } else {
      var n := |Asked(rs[0])|;
      TakenStep(rs);
      SoundStep(s, cp, rs);
      Front(va, posn, n);
      PrintedStep(s, cp, rs, posn, va, fmt);
      InOrderStep(s, cp, rs, va[posn..], fmt);
      InOrderFrom(s, rs[0].end, rs[1..], posn + n, va, fmt);
    }
  }

  lemma {:induction false} TakesAll(rs: seq<Raw>, posn: nat)
    requires AllFieldsOk(rs) && forall r <- rs :: NoPositions(r) && (r.atype.NoType? <==> r.conversion == '%')
    ensures Taken(rs) == |AllUses(rs, posn)|
    decreases rs
  {
    if rs != [] {
      assert rs[0] in rs;
      TakesAll(rs[1..], PosnAfter(rs[0], posn));
    }
  }

  // ---- The results ----

  /** For every format that vasnprintf prints, the output is the one that arises if each directive is converted with the
      arguments that its text selects, and the counts go where it says. */
  lemma ParsedSelects(s: CString, va: seq<ArgValue>, dirs: seq<Directive>, arg: seq<Arg>, fmt: Formatter)
    requires Parsed(s, va, dirs, arg) && Chain(s, 0, dirs, arg)
    ensures var rs := ParseAll(s, 0).value;
            && Tiled(s, 0, rs) && SpansOk(s, rs) && Rendered(s, 0, dirs, arg, fmt) == Printed(s, 0, rs, 0, va, fmt)
            && StoresCounts(Stores(s, 0, dirs, arg, fmt, 0), Counted(s, 0, rs, 0, va, fmt, ""))
  {
    hide AllUses, TableOf, Chain, ParseAll, AllWithArgs;
    var rs := ParseAll(s, 0).value;
    var types := seq(|arg|, i requires 0 <= i < |arg| => arg[i].0);
    ParsedSound(s, 0);
    TypesFromTable(rs, 0, AllUses(rs, 0), types, arg);
    RenderedSelects(s, 0, rs, 0, arg, va, fmt);
    StoresSelect(s, 0, rs, 0, arg, va, fmt, "");
  }

  /** Without positions, the directives take the arguments one after the other, each of them once. */
  lemma ParsedInOrder(s: CString, va: seq<ArgValue>, dirs: seq<Directive>, arg: seq<Arg>, fmt: Formatter)
    requires Parsed(s, va, dirs, arg) && Chain(s, 0, dirs, arg) && '$' !in s
    ensures var rs := ParseAll(s, 0).value;
            && Tiled(s, 0, rs) && SpansOk(s, rs) && Rendered(s, 0, dirs, arg, fmt) == PrintedInOrder(s, 0, rs, va, fmt)
            && Taken(rs) == |arg|
  {
    ParsedSelects(s, va, dirs, arg, fmt);
    var rs := ParseAll(s, 0).value;
    AllTaken(s, va, dirs, arg);
    ParsedSound(s, 0);
    NoDollars(s, 0);
    hide Parsed, Chain, ParseAll, Printed, PrintedInOrder, Taken, Sound, NoPositions;
    InOrderFrom(s, 0, rs, 0, va, fmt);
    assert va[0..] == va;
  }

  lemma AllTaken(s: CString, va: seq<ArgValue>, dirs: seq<Directive>, arg: seq<Arg>)
    requires Parsed(s, va, dirs, arg) && '$' !in s
    ensures Taken(ParseAll(s, 0).value) == |arg| <= |va|
  {
    hide AllUses, TableOf, ParseAll, AllWithArgs, Taken, NoPositions, Tiled;
    var rs := ParseAll(s, 0).value;
    ParsedSound(s, 0);
    NoDollars(s, 0);
    UsesTyped(rs, 0);
    NoDollarNoGap(s, seq(|arg|, i requires 0 <= i < |arg| => arg[i].0));
    TakesAll(rs, 0);
  }

  lemma {:induction false} UsesTyped(rs: seq<Raw>, posn: nat)
    requires AllFieldsOk(rs)
    ensures forall u <- AllUses(rs, posn) :: u.atype != NoType
    decreases rs
  {
    if rs != [] {
      assert forall u <- UsesOf(rs[0], posn) :: u.atype != NoType;
      hide UsesOf;
      UsesTyped(rs[1..], PosnAfter(rs[0], posn));
    }
  }
}
