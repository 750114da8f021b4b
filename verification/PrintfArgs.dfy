/** The arguments of a format string: which argument each directive uses, and with which type. */
module PrintfArgs {
  import opened CStrings
  import opened PrintfSyntax
  import opened Wrappers
  import opened XSize

  /** A parsed directive with the indices of its arguments; None is ARG_NONE. */
  datatype Directive = Directive(dirStart: nat, dirEnd: nat, flags: Flags,
                                 width: Option<Span>, widthArg: Option<nat>,
                                 precision: Option<Span>, precisionArg: Option<nat>,
                                 conversion: char, arg: Option<nat>)

  /** One use of an argument. */
  datatype Use = Use(index: nat, atype: ArgType)

  // ---- Which arguments the directives use ----

  /** The argument of a width or precision: the one whose position is given, or the next one. */
  function StarArg(f: Field, posn: nat): Option<nat>
    requires f.Field?
  {
    if !f.star then None else Some(f.index.GetOr(posn))
  }

  function AfterStar(f: Field, posn: nat): nat
    requires f.Field?
  {
    if f.star && f.index.None? then posn + 1 else posn
  }

  function StarUses(f: Field, posn: nat): seq<Use>
    requires f.Field?
  {
    if f.star then [Use(f.index.GetOr(posn), Int)] else []
  }

  predicate FieldsOk(r: Raw) {
    r.width.Field? && r.precision.Field?
  }

  /** The directive, given how many arguments were used in order before it. */
  function WithArgs(r: Raw, posn: nat): Directive
    requires FieldsOk(r)
  {
    var p1 := AfterStar(r.width, posn);
    var p2 := AfterStar(r.precision, p1);
    Directive(r.start, r.end, r.flags, r.width.span, StarArg(r.width, posn), r.precision.span, StarArg(r.precision, p1),
              r.conversion, if r.atype.NoType? then None else Some(r.index.GetOr(p2)))
  }

  function PosnAfter(r: Raw, posn: nat): nat
    requires FieldsOk(r)
  {
    var p2 := AfterStar(r.precision, AfterStar(r.width, posn));
    if !r.atype.NoType? && r.index.None? then p2 + 1 else p2
  }

  function UsesOf(r: Raw, posn: nat): seq<Use>
    requires FieldsOk(r)
  {
    var p1 := AfterStar(r.width, posn);
    var p2 := AfterStar(r.precision, p1);
    StarUses(r.width, posn) + StarUses(r.precision, p1)
    + if r.atype.NoType? then [] else [Use(r.index.GetOr(p2), r.atype)]
  }

  predicate AllFieldsOk(rs: seq<Raw>) {
    forall r <- rs :: FieldsOk(r)
  }

  function AllWithArgs(rs: seq<Raw>, posn: nat): seq<Directive>
    requires AllFieldsOk(rs)
  {
    if rs == [] then [] else [WithArgs(rs[0], posn)] + AllWithArgs(rs[1..], PosnAfter(rs[0], posn))
  }

  function AllUses(rs: seq<Raw>, posn: nat): seq<Use>
    requires AllFieldsOk(rs)
  {
    if rs == [] then [] else UsesOf(rs[0], posn) + AllUses(rs[1..], PosnAfter(rs[0], posn))
  }

  // ---- The table of argument types ----

  /** No argument is used with two types. */
  predicate Consistent(uses: seq<Use>) {
    forall u <- uses, v <- uses :: u.index == v.index ==> u.atype == v.atype
  }

  predicate Used(uses: seq<Use>, index: nat) {
    exists u <- uses :: u.index == index
  }

  /** The table gives every used argument its type, gives the others none, and ends with a
      used argument. */
  ghost predicate TableOf(uses: seq<Use>, arg: seq<ArgType>) {
    && (forall u <- uses :: u.index < |arg| && arg[u.index] == u.atype)
    && (forall i: nat :: i < |arg| && !Used(uses, i) ==> arg[i] == NoType)
    && (|arg| > 0 ==> Used(uses, |arg| - 1))
  }

  /** A table exists for consistent uses only, and it is determined by them. */
  lemma TableMeansConsistent(uses: seq<Use>, arg: seq<ArgType>)
    requires TableOf(uses, arg)
    ensures Consistent(uses)
  {
  }

  lemma TableUnique(uses: seq<Use>, a: seq<ArgType>, b: seq<ArgType>)
    requires TableOf(uses, a) && TableOf(uses, b)
    ensures a == b
  {
    TableNotLonger(uses, a, b);
    TableNotLonger(uses, b, a);
    forall i | 0 <= i < |a| ensures a[i] == b[i] {
      if Used(uses, i) {
        var u :| u in uses && u.index == i;
      }
    }
  }

  lemma TableNotLonger(uses: seq<Use>, a: seq<ArgType>, b: seq<ArgType>)
    requires TableOf(uses, a) && TableOf(uses, b)
    ensures |a| <= |b|
  {
    if |a| > 0 {
      var u :| u in uses && u.index == |a| - 1;
    }
  }

  const SIZEOF_ARGUMENT: SizeT := 32

  /** The size that is allocated after an argument was registered. */
  function RoomFor(room: nat, index: nat): nat {
    if index < room then room else if 2 * room <= index then index + 1 else 2 * room
  }

  /** The size that is allocated after some uses in order. */
  function Room(uses: seq<Use>): nat {
    if uses == [] then 0 else RoomFor(Room(uses[..|uses| - 1]), uses[|uses| - 1].index)
  }

  /** The table does not become too large for a SizeT. */
  predicate RoomFits(uses: seq<Use>) {
    SIZEOF_ARGUMENT * Room(uses) < SIZE_MAX
  }

  /** Uses for which no table is made. */
  predicate Refused(uses: seq<Use>) {
    !Consistent(uses) || !RoomFits(uses)
  }

  lemma RoomStep(uses: seq<Use>, u: Use)
    ensures Room(uses + [u]) == RoomFor(Room(uses), u.index) > u.index && Room(uses) <= Room(uses + [u])
  {
    assert (uses + [u])[..|uses|] == uses;
  }

  lemma {:induction false} RoomGrows(a: seq<Use>, b: seq<Use>)
    ensures Room(a) <= Room(a + b)
  {
    if b == [] {
      assert a + b == a;
    } else {
      var c, u := b[..|b| - 1], b[|b| - 1];
      RoomGrows(a, c);
      RoomStep(a + c, u);
      assert a + b == (a + c) + [u];
    }
  }

  lemma RefusedPrefix(a: seq<Use>, b: seq<Use>)
    requires Refused(a)
    ensures Refused(a + b)
  {
    hide Room;
    RoomGrows(a, b);
    assert forall u :: u in a ==> u in a + b;
  }

  /** Whatever the order of the uses: indices below 2^58 always fit, and an index of 2^59 - 1 or more never does. */
  lemma {:induction false} SmallIndicesFit(uses: seq<Use>)
    requires forall u <- uses :: u.index < 0x400_0000_0000_0000
    ensures Room(uses) < 0x800_0000_0000_0000 && RoomFits(uses)
  {
    if uses != [] {
      var before, u := uses[..|uses| - 1], uses[|uses| - 1];
      assert u in uses && uses == before + [u];
      SmallIndicesFit(before);
      RoomStep(before, u);
    }
  }

  lemma BigIndexRefused(uses: seq<Use>, u: Use)
    requires u in uses && u.index >= 0x7ff_ffff_ffff_ffff
    ensures !RoomFits(uses)
  {
    hide Room;
    var k :| 0 <= k < |uses| && uses[k] == u;
    RoomStep(uses[..k], u);
    assert uses[..k] + [u] == uses[..k + 1];
    RoomGrows(uses[..k + 1], uses[k + 1..]);
    assert uses[..k + 1] + uses[k + 1..] == uses;
  }

  /** struct arguments, with the size that is allocated. */
  class Arguments {
    var arg: seq<ArgType>
    var room: SizeT
    ghost var uses: seq<Use>

    ghost predicate Valid()
      reads this
    {
      TableOf(uses, arg) && |arg| <= room == Room(uses) && RoomFits(uses) && forall u <- uses :: u.atype != NoType
    }

    constructor ()
      ensures Valid() && uses == []
    {
      arg, room, uses := [], 0, [];
    }

    /** The first part of REGISTER_ARG: room for the argument n. */
    method EnsureRoom(n: SizeT) returns (ok: bool)
      requires SIZEOF_ARGUMENT * room < SIZE_MAX
      modifies this`room
      ensures ok ==> room == RoomFor(old(room), n)
      ensures ok <==> SIZEOF_ARGUMENT * RoomFor(old(room), n) < SIZE_MAX
    {
      if n >= room {
        room := Xtimes(room, 2);
        if room <= n {
          room := Xsum(n, 1);
        }
        var memorySize := Xtimes(room, SIZEOF_ARGUMENT);
        if memorySize == SIZE_MAX {
          return false;
        }
      }
      ok := true;
    }

    /** REGISTER_ARG */
    method Register(n: SizeT, t: ArgType) returns (ok: bool)
      requires Valid() && t != NoType
      modifies this
      ensures ok ==> Valid() && uses == old(uses) + [Use(n, t)]
      ensures ok <==> !Refused(old(uses) + [Use(n, t)])
    {
      hide TableOf, Consistent, Room;
      RoomStep(uses, Use(n, t));
      ok := EnsureRoom(n);
      if !ok {
        return;
      }
      ghost var was := arg;
      while |arg| <= n
        invariant |arg| <= Max(|was|, n + 1) && Padded(was, arg)
        invariant uses == old(uses) && n < room == Room(uses + [Use(n, t)]) && |was| <= room
      {
        arg := arg + [NoType];
      }
      if arg[n] == NoType {
        NewUse(uses, was, n, t, arg);
        arg := arg[n := t];
      } else if arg[n] != t {
        Conflict(uses, was, n, t);
        return false;
      } else {
        NewUse(uses, was, n, t, arg);
        assert arg == arg[n := t];
      }
      uses := uses + [Use(n, t)];
      TableMeansConsistent(uses, arg);
    }
  }

  predicate Padded(was: seq<ArgType>, arg: seq<ArgType>) {
    |was| <= |arg| && arg[..|was|] == was && forall i :: |was| <= i < |arg| ==> arg[i] == NoType
  }

  /** Entering a use into the padded table. */
  lemma NewUse(uses: seq<Use>, was: seq<ArgType>, n: nat, t: ArgType, arg: seq<ArgType>)
    requires TableOf(uses, was) && Padded(was, arg) && |arg| == Max(|was|, n + 1) && t != NoType
    requires arg[n] == NoType || arg[n] == t
    requires forall u <- uses :: u.atype != NoType
    ensures TableOf(uses + [Use(n, t)], arg[n := t])
  {
    var more, table := uses + [Use(n, t)], arg[n := t];
    forall u | u in more ensures u.index < |table| && table[u.index] == u.atype {
      if u in uses { assert arg[u.index] == was[u.index]; }
    }
    forall i: nat | i < |table| && !Used(more, i) ensures table[i] == NoType {
      assert Use(n, t) in more && !Used(uses, i);
    }
    assert Used(more, |table| - 1) by {
      if n == |table| - 1 {
        assert Use(n, t) in more;
      } else {
        var u :| u in uses && u.index == |was| - 1;
        assert u in more;
      }
    }
  }

  lemma Conflict(uses: seq<Use>, was: seq<ArgType>, n: nat, t: ArgType)
    requires TableOf(uses, was) && n < |was| && was[n] != NoType && was[n] != t
    ensures !Consistent(uses + [Use(n, t)])
  {
    var more := uses + [Use(n, t)];
    assert Used(uses, n);
    var u :| u in uses && u.index == n;
    assert u in more && Use(n, t) in more;
  }

  // ---- Formats without positions ----

  predicate NoPositions(r: Raw) {
    FieldsOk(r) && r.index.None? && r.width.index.None? && r.precision.index.None?
  }

  /** These uses have the indices from a number on, in order. */
  predicate InOrder(uses: seq<Use>, posn: nat) {
    forall k :: 0 <= k < |uses| ==> uses[k].index == posn + k
  }

  /** Without '$' there are no positions. */
  lemma NoDollar(s: CString, i: nat)
    requires '$' !in s && i < |s| && DirectiveAt(s, i).Some?
    ensures NoPositions(DirectiveAt(s, i).value)
  {
    hide Conversion, FlagsAt, LengthAt, Number;
  }

  lemma {:induction false} NoDollars(s: CString, i: nat)
    requires '$' !in s && i <= |s| && ParseAll(s, i).Some?
    ensures forall r <- ParseAll(s, i).value :: NoPositions(r)
    decreases |s| - i
  {
    hide NoPositions, DirectiveAt;
    var j := NextPercent(s, i);
    if j < |s| {
      NoDollar(s, j);
      NoDollars(s, DirectiveAt(s, j).value.end);
    }
  }

  /** The table of a format without '$' has no gap, so that fetching its arguments succeeds. */
  lemma NoDollarNoGap(s: CString, arg: seq<ArgType>)
    requires '$' !in s && ParseAll(s, 0).Some? && AllFieldsOk(ParseAll(s, 0).value)
    requires var uses := AllUses(ParseAll(s, 0).value, 0); TableOf(uses, arg) && forall u <- uses :: u.atype != NoType
    ensures NoType !in arg && |arg| == |AllUses(ParseAll(s, 0).value, 0)|
  {
    hide NoPositions, TableOf, AllUses, ParseAll;
    var rs := ParseAll(s, 0).value;
    NoDollars(s, 0);
    AllInOrder(rs, 0);
    NoGaps(AllUses(rs, 0), arg);
  }

  lemma OneInOrder(r: Raw, posn: nat)
    requires NoPositions(r)
    ensures InOrder(UsesOf(r, posn), posn) && PosnAfter(r, posn) == posn + |UsesOf(r, posn)|
  {
  }

  lemma {:induction false} AllInOrder(rs: seq<Raw>, posn: nat)
    requires AllFieldsOk(rs) && forall r <- rs :: NoPositions(r)
    ensures InOrder(AllUses(rs, posn), posn)
  {
    hide NoPositions, UsesOf, PosnAfter;
    if rs != [] {
      OneInOrder(rs[0], posn);
      AllInOrder(rs[1..], PosnAfter(rs[0], posn));
    }
  }

  /** Arguments that are used in order leave no gap in the table. */
  lemma NoGaps(uses: seq<Use>, arg: seq<ArgType>)
    requires TableOf(uses, arg) && InOrder(uses, 0) && forall u <- uses :: u.atype != NoType
    ensures |arg| == |uses| && forall i :: 0 <= i < |arg| ==> arg[i] == uses[i].atype != NoType
  {
    forall k | 0 <= k < |uses| ensures k < |arg| && arg[k] == uses[k].atype {
      assert uses[k] in uses;
    }
    if |arg| > 0 {
      var u :| u in uses && u.index == |arg| - 1;
      var k :| 0 <= k < |uses| && uses[k] == u;
      assert k == |arg| - 1;
    }
    if |uses| > 0 { assert uses[|uses| - 1].index < |arg|; }
    forall i | 0 <= i < |arg| ensures arg[i] == uses[i].atype != NoType {
      assert uses[i] in uses;
    }
  }

  // ---- Fetching ----

  /** printf_fetchargs: takes the arguments in order; an argument without type ends it. */
  method FetchArgs<V>(arg: seq<ArgType>, va: seq<V>) returns (r: Option<seq<(ArgType, V)>>)
    requires |va| >= |arg|
    ensures r.None? <==> NoType in arg
    ensures r.Some? ==> |r.value| == |arg| && forall i :: 0 <= i < |arg| ==> r.value[i] == (arg[i], va[i])
  {
    var values := [];
    for i := 0 to |arg|
      invariant |values| == i && NoType !in arg[..i]
      invariant forall k :: 0 <= k < i ==> values[k] == (arg[k], va[k])
    {
      if arg[i] == NoType {
        return None;
      }
      values := values + [(arg[i], va[i])];
    }
    r := Some(values);
  }

  /** Fetching fails exactly if the table has a gap: an index below the largest that no
      directive uses. */
  lemma GapsAreUnused(uses: seq<Use>, arg: seq<ArgType>)
    requires TableOf(uses, arg) && forall u <- uses :: u.atype != NoType
    ensures NoType in arg <==> exists i: nat :: i < |arg| && !Used(uses, i)
    ensures NoType in arg <==> exists i: nat, u :: u in uses && i < u.index && !Used(uses, i)
  {
    if NoType in arg {
      var i :| 0 <= i < |arg| && arg[i] == NoType;
      assert !Used(uses, i);
      var u :| u in uses && u.index == |arg| - 1;
      assert i < u.index;
    }
    forall i: nat, u | u in uses && i < u.index && !Used(uses, i) ensures NoType in arg {
      assert arg[i] == NoType;
    }
  }
}
