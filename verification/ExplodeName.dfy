/** Splitting a locale name into its pieces, in place. */
module ExplodeName {
  import opened CStrings
  import opened L10nNames
  import opened Wrappers
  import Codesets

  /** The pieces of a locale name; at tells whether the modifier is introduced by '@' or by '+'. */
  datatype Pieces = Pieces(language: string, territory: Option<string>, codeset: Option<string>,
                           at: bool, modifier: Option<string>,
                           special: Option<string>, sponsor: Option<string>, revision: Option<string>)

  predicate Free(s: string, stops: string) {
    forall c :: c in s ==> c !in stops
  }

  predicate FreeIf(s: Option<string>, stops: string) {
    s.Some? ==> Free(s.value, stops)
  }

  /** A piece with its separator, or with the NUL that takes its place, and what follows. */
  function Opt(piece: Option<string>, sep: char, nul: bool, rest: string): string {
    if piece.None? then rest else [if nul then '\0' else sep] + (piece.value + rest)
  }

  function CenTail(special: Option<string>, sponsor: Option<string>, revision: Option<string>, nul: bool): string {
    Opt(special, '+', nul, Opt(sponsor, ',', nul, Opt(revision, '_', nul, "")))
  }

  function ModifierTail(p: Pieces, nul: bool): string {
    Opt(p.modifier, if p.at then '@' else '+', nul, CenTail(p.special, p.sponsor, p.revision, nul))
  }

  function TerritoryTail(p: Pieces, nul: bool): string {
    Opt(p.territory, '_', nul, Opt(p.codeset, '.', nul, ModifierTail(p, nul)))
  }

  /** The pieces joined by their separators, or by NULs. */
  function Joined(p: Pieces, nul: bool): string {
    p.language + TerritoryTail(p, nul)
  }

  /** XPG syntax: a codeset, or a modifier behind '@'. */
  predicate Xpg(p: Pieces) {
    p.codeset.Some? || p.at
  }

  predicate NoPieces(p: Pieces) {
    && p.territory.None? && p.codeset.None? && !p.at && p.modifier.None?
    && p.special.None? && p.sponsor.None? && p.revision.None?
  }

  /** What the pieces of an exploded name look like. A name without language is not exploded. */
  predicate WellFormed(p: Pieces) {
    if p.language == "" || p.language[0] in "_@+," then NoPieces(p)
    else
      && Free(p.language, "_@+,") && FreeIf(p.territory, ".@+,_") && FreeIf(p.codeset, "@")
      && (p.codeset.Some? ==> p.territory.Some?)
      && (p.at ==> p.modifier.Some?)
      && (p.modifier.Some? && !p.at ==> p.codeset.None? && Free(p.modifier.value, "+,_"))
      && (Xpg(p) ==> p.special.None? && p.sponsor.None? && p.revision.None?)
      && (p.special.Some? ==> p.modifier.Some?)
      && FreeIf(p.special, ",_") && FreeIf(p.sponsor, "_")
      && (p.revision.Some? && p.territory.None? ==> p.modifier.Some? || p.sponsor.Some?)
  }

  // ---- A name can be split in one way only ----

  predicate StartsIn(s: string, stops: string) {
    s == "" || s[0] in stops
  }

  /** A longer span would contain a stop. */
  lemma LongerIsNotFree(a: string, x: string, b: string, y: string, stops: string)
    requires a + x == b + y && |a| < |b| && StartsIn(x, stops)
    ensures !Free(b, stops)
  {
    assert (a + x)[|a|] == (b + y)[|a|] == b[|a|];
    assert b[|a|] in b;
  }

  lemma SpanUnique(a: string, x: string, b: string, y: string, stops: string)
    requires a + x == b + y && Free(a, stops) && Free(b, stops) && StartsIn(x, stops) && StartsIn(y, stops)
    ensures a == b && x == y
  {
    hide Free;
    if |a| < |b| {
      LongerIsNotFree(a, x, b, y, stops);
      assert false;
    } else if |b| < |a| {
      LongerIsNotFree(b, y, a, x, stops);
      assert false;
    } else {
      assert (a + x)[..|a|] == a && (b + y)[..|a|] == b;
      assert (a + x)[|a|..] == x && (b + y)[|a|..] == y;
    }
  }

  /** A piece ends where what follows it begins; without the piece, its separator is not there. */
  predicate EndsAt(p: Option<string>, sep: char, rest: string, stops: string) {
    if p.Some? then Free(p.value, stops) && StartsIn(rest, stops) else rest == "" || rest[0] != sep
  }

  lemma OptUnique(p: Option<string>, q: Option<string>, sep: char, x: string, y: string, stops: string)
    requires Opt(p, sep, false, x) == Opt(q, sep, false, y) && EndsAt(p, sep, x, stops) && EndsAt(q, sep, y, stops)
    ensures p == q && x == y
  {
    hide Free;
    if p.Some? && q.Some? {
      assert ([sep] + (p.value + x))[1..] == p.value + x;
      assert ([sep] + (q.value + y))[1..] == q.value + y;
      SpanUnique(p.value, x, q.value, y, stops);
    }
  }

  /** Three pieces of the CEN syntax. */
  lemma CenUnique(p: Pieces, q: Pieces)
    requires FreeIf(p.special, ",_") && FreeIf(p.sponsor, "_") && FreeIf(q.special, ",_") && FreeIf(q.sponsor, "_")
    requires CenTail(p.special, p.sponsor, p.revision, false) == CenTail(q.special, q.sponsor, q.revision, false)
    ensures p.special == q.special && p.sponsor == q.sponsor && p.revision == q.revision
  {
    var xr, yr := Opt(p.revision, '_', false, ""), Opt(q.revision, '_', false, "");
    var xs, ys := Opt(p.sponsor, ',', false, xr), Opt(q.sponsor, ',', false, yr);
    OptUnique(p.special, q.special, '+', xs, ys, ",_");
    OptUnique(p.sponsor, q.sponsor, ',', xr, yr, "_");
    OptUnique(p.revision, q.revision, '_', "", "", "");
  }

  /** The modifier in either syntax, and what follows it. */
  lemma ModifierUnique(p: Pieces, q: Pieces)
    requires WellFormed(p) && WellFormed(q) && ModifierTail(p, false) == ModifierTail(q, false)
    ensures p.at == q.at && p.modifier == q.modifier
    ensures p.special == q.special && p.sponsor == q.sponsor && p.revision == q.revision
  {
    hide Free;
    var x, y := CenTail(p.special, p.sponsor, p.revision, false), CenTail(q.special, q.sponsor, q.revision, false);
    if p.at || q.at {
      var t := ModifierTail(p, false);
      assert t[0] == '@' && p.at && q.at;
      assert p.modifier.value + "" == p.modifier.value && q.modifier.value + "" == q.modifier.value;
      assert t[1..] == p.modifier.value && t[1..] == q.modifier.value;
    } else {
      OptUnique(p.modifier, q.modifier, '+', x, y, "+,_");
      CenUnique(p, q);
    }
  }

  lemma TailStarts(p: Pieces)
    requires WellFormed(p)
    ensures StartsIn(ModifierTail(p, false), "@+,_") && (Xpg(p) ==> StartsIn(ModifierTail(p, false), "@"))
    ensures p.territory.None? && p.language != "" ==> StartsIn(ModifierTail(p, false), "@+,")
  {
    hide Free;
  }

  lemma TerritoryUnique(p: Pieces, q: Pieces)
    requires WellFormed(p) && WellFormed(q) && TerritoryTail(p, false) == TerritoryTail(q, false)
    requires p.language != "" && q.language != ""
    ensures p.territory == q.territory && p.codeset == q.codeset && ModifierTail(p, false) == ModifierTail(q, false)
  {
    hide Free, ModifierTail, Opt;
    TailStarts(p);
    TailStarts(q);
    var mp, mq := ModifierTail(p, false), ModifierTail(q, false);
    var x, y := Opt(p.codeset, '.', false, mp), Opt(q.codeset, '.', false, mq);
    CodesetStarts(p);
    CodesetStarts(q);
    OptUnique(p.territory, q.territory, '_', x, y, ".@+,_");
    OptUnique(p.codeset, q.codeset, '.', mp, mq, "@");
  }

  lemma CodesetStarts(p: Pieces)
    requires WellFormed(p) && p.language != ""
    ensures EndsAt(p.territory, '_', Opt(p.codeset, '.', false, ModifierTail(p, false)), ".@+,_")
    ensures EndsAt(p.codeset, '.', ModifierTail(p, false), "@")
    ensures StartsIn(TerritoryTail(p, false), "_@+,")
  {
    hide Free, ModifierTail;
    TailStarts(p);
  }

  /** A locale name has one well-formed splitting at most: exploding a name is the inverse of
      joining its pieces. */
  lemma SplitUnique(p: Pieces, q: Pieces)
    requires WellFormed(p) && WellFormed(q) && Joined(p, false) == Joined(q, false)
    ensures p == q
  {
    hide Free, Opt, ModifierTail, TerritoryTail;
    var s := Joined(p, false);
    if s == "" || s[0] in "_@+," {
      Unexploded(p);
      Unexploded(q);
    } else {
      Exploded(p);
      Exploded(q);
      CodesetStarts(p);
      CodesetStarts(q);
      SpanUnique(p.language, TerritoryTail(p, false), q.language, TerritoryTail(q, false), "_@+,");
      TerritoryUnique(p, q);
      ModifierUnique(p, q);
    }
  }

  lemma Unexploded(p: Pieces)
    requires WellFormed(p) && StartsIn(Joined(p, false), "_@+,")
    ensures NoPieces(p) && Joined(p, false) == p.language
  {
    if p.language != "" { assert Joined(p, false)[0] == p.language[0]; }
  }

  lemma Exploded(p: Pieces)
    requires WellFormed(p) && !StartsIn(Joined(p, false), "_@+,")
    ensures p.language != "" && Free(p.language, "_@+,")
  {
    if p.language != "" { assert Joined(p, false)[0] == p.language[0]; }
  }

  // ---- The mask and the pointers ----

  /** The bits of the pieces. An empty XPG piece does not count, but an empty modifier keeps
      CEN_AUDIENCE; the normalized codeset counts if it differs from the rest of the name, which
      still has the modifier in it. */
  function MaskOf(p: Pieces): nat {
    (if p.territory.Some? && !(Xpg(p) && p.territory.value == "") then TERRITORY else 0)
    + (if p.codeset.Some? && p.codeset.value != "" then XPG_CODESET + NormBit(p) else 0)
    + (if p.modifier.Some? then CEN_AUDIENCE + (if p.at && p.modifier.value == "" then 0 else XPG_MODIFIER) else 0)
    + CenBits(p)
  }

  function CenBits(p: Pieces): nat {
    (if p.special.Some? then CEN_SPECIAL else 0)
    + (if p.sponsor.Some? then CEN_SPONSOR else 0)
    + (if p.revision.Some? then CEN_REVISION else 0)
  }

  function NormBit(p: Pieces): nat
    requires p.codeset.Some?
  {
    if p.modifier.Some? || Codesets.Normalized(p.codeset.value) != p.codeset.value then XPG_NORM_CODESET else 0
  }

  /** The pointer to a piece whose separator stands at a position. */
  function Ptr(piece: Option<string>, at: nat): Option<nat> {
    if piece.Some? then Some(at + 1) else None
  }

  function After(piece: Option<string>, at: nat): nat {
    if piece.Some? then at + 1 + |piece.value| else at
  }

  datatype Pointers = Pointers(territory: Option<nat>, codeset: Option<nat>, modifier: Option<nat>,
                               special: Option<nat>, sponsor: Option<nat>, revision: Option<nat>)

  /** Where the pieces are, the first of them at a position. */
  function PointersFrom(p: Pieces, t: nat): Pointers {
    var c := After(p.territory, t);
    var m := After(p.codeset, c);
    var s := After(p.modifier, m);
    var o := After(p.special, s);
    var r := After(p.sponsor, o);
    Pointers(Ptr(p.territory, t), Ptr(p.codeset, c), Ptr(p.modifier, m), Ptr(p.special, s), Ptr(p.sponsor, o),
             Ptr(p.revision, r))
  }

  // ---- In place ----

  /** The array holds the rest of the C string s, unchanged from cp on. */
  predicate Untouched(name: seq<char>, cp: nat, s: CString) {
    cp <= |s| < |name| && name[|s|] == '\0' && name[cp..|s|] == s[cp..]
  }

  /** From a position on, the text is such a tail, and its separators have become NULs. */
  predicate Split(was: seq<char>, now: seq<char>, cp: nat, s: CString, tail: string, nulTail: string) {
    && cp <= |s| < |was| && s[cp..] == tail && now == was[..cp] + nulTail + was[|s|..]
  }

  /** Cutting off one piece, and then splitting the rest. */
  lemma SplitPiece(was: seq<char>, cut: seq<char>, now: seq<char>, cp: nat, end: nat, s: CString, sep: char,
                   tail: string, nulTail: string)
    requires Untouched(was, cp, s) && cp < end <= |s| && s[cp] == sep && cut == was[cp := '\0']
    requires Split(cut, now, end, s, tail, nulTail)
    ensures var piece := Some(s[cp + 1..end]);
            Split(was, now, cp, s, Opt(piece, sep, false, tail), Opt(piece, sep, true, nulTail))
  {
    var piece := s[cp + 1..end];
    assert s[cp..] == [sep] + (piece + s[end..]);
    assert cut[..end] == was[..cp] + ['\0'] + was[cp + 1..end];
    assert was[cp + 1..end] == piece by {
      forall i | cp + 1 <= i < end ensures was[i] == s[i] {
        assert was[i] == was[cp..|s|][i - cp] == s[cp..][i - cp];
      }
    }
    assert cut[|s|..] == was[|s|..];
    assert now == was[..cp] + (['\0'] + (piece + nulTail)) + was[|s|..];
  }

  lemma SplitNothing(was: seq<char>, cp: nat, s: CString)
    requires Untouched(was, cp, s) && cp == |s|
    ensures Split(was, was, cp, s, "", "")
  {
  }

  /** The loops that look for the end of a piece. */
  method Scan(name: array<char>, cp: nat, stops: string, ghost s: CString) returns (end: nat)
    requires Untouched(name[..], cp, s)
    ensures cp <= end <= |s| && Free(s[cp..end], stops) && (end == |s| || s[end] in stops)
  {
    end := cp;
    while name[end] != '\0' && name[end] !in stops
      invariant cp <= end <= |s| && Free(s[cp..end], stops)
      decreases |s| - end
    {
      assert name[end] == name[..][cp..|s|][end - cp];
      assert s[cp..end + 1] == s[cp..end] + [s[end]];
      end := end + 1;
    }
    if end < |s| { assert name[end] == name[..][cp..|s|][end - cp]; }
  }

  /** Ends the piece before cp and finds the end of the piece behind it. */
  method Cut(name: array<char>, cp: nat, stops: string, ghost s: CString) returns (end: nat)
    requires Untouched(name[..], cp, s) && cp < |s|
    modifies name
    ensures name[..] == old(name[..])[cp := '\0'] && cp < end <= |s| && Untouched(name[..], end, s)
    ensures Free(s[cp + 1..end], stops) && (end == |s| || s[end] in stops)
  {
    hide Free;
    name[cp] := '\0';
    assert name[..] == old(name[..])[cp := '\0'];
    UntouchedLater(old(name[..]), cp, cp + 1, s);
    end := Scan(name, cp + 1, stops, s);
    UntouchedLater(old(name[..]), cp, end, s);
  }

  lemma UntouchedLater(name: seq<char>, cp: nat, end: nat, s: CString)
    requires Untouched(name, cp, s) && cp < end <= |s|
    ensures Untouched(name[cp := '\0'], end, s)
  {
    assert name[cp := '\0'][end..|s|] == name[cp..|s|][end - cp..];
  }

  /** The revision, which runs to the end. */
  method ExplodeRevision(name: array<char>, cp: nat, ghost s: CString)
    returns (revision: Option<nat>, mask: nat, ghost re: Option<string>)
    requires Untouched(name[..], cp, s) && StartsIn(s[cp..], "_")
    modifies name
    ensures Split(old(name[..]), name[..], cp, s, CenTail(None, None, re, false), CenTail(None, None, re, true))
    ensures revision == Ptr(re, cp) && mask == if re.Some? then CEN_REVISION else 0
  {
    hide Untouched, StartsIn, Split;
    revision, mask, re := None, 0, None;
    CharAt(name[..], cp, s, "_");
    if name[cp] == '_' {
      ghost var was := name[..];
      name[cp] := '\0';
      revision, mask, re := Some(cp + 1), CEN_REVISION, Some(s[cp + 1..]);
      CutToEnd(was, cp, s);
      assert name[..] == was[cp := '\0'];
      SplitPiece(was, name[..], name[..], cp, |s|, s, '_', "", "");
    } else {
      SplitNothing(name[..], cp, s);
    }
  }

  lemma CutToEnd(was: seq<char>, cp: nat, s: CString)
    requires Untouched(was, cp, s) && cp < |s|
    ensures Split(was[cp := '\0'], was[cp := '\0'], |s|, s, "", "") && s[cp + 1..] == s[cp + 1..|s|]
  {
    UntouchedLater(was, cp, |s|, s);
    SplitNothing(was[cp := '\0'], |s|, s);
  }

  /** What the test of a separator sees. */
  lemma CharAt(name: seq<char>, cp: nat, s: CString, stops: string)
    requires Untouched(name, cp, s) && StartsIn(s[cp..], stops)
    ensures cp <= |s| < |name|
    ensures if cp < |s| then name[cp] == s[cp] && name[cp] in stops && name[cp] != '\0' else name[cp] == '\0'
  {
    if cp < |s| { assert name[cp..|s|][0] == s[cp..][0]; }
  }

  /** The sponsor, and what follows it. */
  method ExplodeSponsor(name: array<char>, cp: nat, ghost s: CString)
    returns (sponsor: Option<nat>, revision: Option<nat>, mask: nat, ghost so: Option<string>, ghost re: Option<string>)
    requires Untouched(name[..], cp, s) && StartsIn(s[cp..], ",_")
    modifies name
    ensures Split(old(name[..]), name[..], cp, s, CenTail(None, so, re, false), CenTail(None, so, re, true))
    ensures FreeIf(so, "_") && sponsor == Ptr(so, cp) && revision == Ptr(re, After(so, cp))
    ensures so.Some? <==> cp < |s| && s[cp] == ','
    ensures mask == (if so.Some? then CEN_SPONSOR else 0) + (if re.Some? then CEN_REVISION else 0)
  {
    hide Untouched, StartsIn, Split, Free;
    sponsor, so := None, None;
    CharAt(name[..], cp, s, ",_");
    if name[cp] == ',' {
      ghost var was := name[..];
      var end := Cut(name, cp, "_", s);
      EndStarts(s, end, "_");
      ghost var cut := name[..];
      sponsor, so := Some(cp + 1), Some(s[cp + 1..end]);
      revision, mask, re := ExplodeRevision(name, end, s);
      SplitPiece(was, cut, name[..], cp, end, s, ',', CenTail(None, None, re, false), CenTail(None, None, re, true));
      mask := mask + CEN_SPONSOR;
    } else {
      EndStarts(s, cp, "_");
      revision, mask, re := ExplodeRevision(name, cp, s);
    }
  }

  lemma EndStarts(s: string, end: nat, stops: string)
    requires end <= |s| && (end == |s| || s[end] in stops)
    ensures StartsIn(s[end..], stops)
  {
  }

  lemma CenTailStep(sp: Option<string>, so: Option<string>, re: Option<string>)
    ensures CenTail(sp, so, re, false) == Opt(sp, '+', false, CenTail(None, so, re, false))
    ensures CenTail(sp, so, re, true) == Opt(sp, '+', true, CenTail(None, so, re, true))
  {
  }

  /** The CEN pieces: special application, sponsor, revision. */
  method ExplodeCen(name: array<char>, cp: nat, ghost s: CString)
    returns (special: Option<nat>, sponsor: Option<nat>, revision: Option<nat>, mask: nat,
             ghost sp: Option<string>, ghost so: Option<string>, ghost re: Option<string>)
    requires Untouched(name[..], cp, s) && StartsIn(s[cp..], "+,_")
    modifies name
    ensures Split(old(name[..]), name[..], cp, s, CenTail(sp, so, re, false), CenTail(sp, so, re, true))
    ensures FreeIf(sp, ",_") && FreeIf(so, "_")
    ensures special == Ptr(sp, cp) && sponsor == Ptr(so, After(sp, cp)) && revision == Ptr(re, After(so, After(sp, cp)))
    ensures mask == (if sp.Some? then CEN_SPECIAL else 0) + (if so.Some? then CEN_SPONSOR else 0)
                    + (if re.Some? then CEN_REVISION else 0)
    ensures sp.Some? <==> cp < |s| && s[cp] == '+'
    ensures sp.None? ==> (so.Some? <==> cp < |s| && s[cp] == ',')
  {
    hide Untouched, StartsIn, Split, Free, CenTail;
    special, sp := None, None;
    CharAt(name[..], cp, s, "+,_");
    if name[cp] == '+' {
      ghost var was := name[..];
      var end := Cut(name, cp, ",_", s);
      EndStarts(s, end, ",_");
      ghost var cut := name[..];
      special, sp := Some(cp + 1), Some(s[cp + 1..end]);
      assert After(sp, cp) == end;
      sponsor, revision, mask, so, re := ExplodeSponsor(name, end, s);
      SplitPiece(was, cut, name[..], cp, end, s, '+', CenTail(None, so, re, false), CenTail(None, so, re, true));
      CenTailStep(sp, so, re);
      mask := mask + CEN_SPECIAL;
    } else {
      EndStarts(s, cp, ",_");
      sponsor, revision, mask, so, re := ExplodeSponsor(name, cp, s);
    }
  }

  /** The part of WellFormed that concerns the modifier and what follows it. */
  predicate ModifierOk(p: Pieces, xpg: bool) {
    && (p.at ==> p.modifier.Some?)
    && (p.modifier.Some? && !p.at ==> !xpg && Free(p.modifier.value, "+,_"))
    && (xpg || p.at ==> p.special.None? && p.sponsor.None? && p.revision.None?)
    && (p.special.Some? ==> p.modifier.Some?)
    && FreeIf(p.special, ",_") && FreeIf(p.sponsor, "_")
  }

  /** A modifier behind '@' runs to the end. */
  method ExplodeXpgModifier(name: array<char>, cp: nat, ghost s: CString)
    returns (ptrs: Pointers, mask: nat, ghost p: Pieces)
    requires Untouched(name[..], cp, s) && cp < |s| && s[cp] == '@'
    modifies name
    ensures Split(old(name[..]), name[..], cp, s, ModifierTail(p, false), ModifierTail(p, true))
    ensures p == Pieces("", None, None, true, Some(s[cp + 1..]), None, None, None)
    ensures ptrs == PointersFrom(p, cp) && mask == XPG_MODIFIER + CEN_AUDIENCE
  {
    hide Untouched, Split, Free;
    CharAt(name[..], cp, s, "@");
    ghost var was := name[..];
    name[cp] := '\0';
    p := Pieces("", None, None, true, Some(s[cp + 1..]), None, None, None);
    ptrs, mask := Pointers(None, None, Some(cp + 1), None, None, None), XPG_MODIFIER + CEN_AUDIENCE;
    CutToEnd(was, cp, s);
    assert name[..] == was[cp := '\0'];
    SplitPiece(was, name[..], name[..], cp, |s|, s, '@', "", "");
  }

  /** A modifier behind '+', and the CEN pieces. */
  method ExplodeCenModifier(name: array<char>, cp: nat, ghost s: CString)
    returns (ptrs: Pointers, mask: nat, ghost p: Pieces)
    requires Untouched(name[..], cp, s) && cp < |s| && s[cp] == '+'
    modifies name
    ensures Split(old(name[..]), name[..], cp, s, ModifierTail(p, false), ModifierTail(p, true))
    ensures p.language == "" && p.territory.None? && p.codeset.None? && !p.at && p.modifier.Some?
    ensures ptrs == PointersFrom(p, cp) && mask == CenBits(p) + XPG_MODIFIER + CEN_AUDIENCE && ModifierOk(p, false)
  {
    hide Untouched, Split, StartsIn, Free, CenTail, CenBits;
    ghost var was := name[..];
    var end := Cut(name, cp, "+,_", s);
    EndStarts(s, end, "+,_");
    ghost var cut := name[..];
    var special, sponsor, revision, cen, sp, so, re := ExplodeCen(name, end, s);
    p := Pieces("", None, None, false, Some(s[cp + 1..end]), sp, so, re);
    assert After(p.modifier, cp) == end;
    ptrs, mask := Pointers(None, None, Some(cp + 1), special, sponsor, revision), cen + XPG_MODIFIER + CEN_AUDIENCE;
    BitsOf(p, sp, so, re);
    SplitPiece(was, cut, name[..], cp, end, s, '+', CenTail(sp, so, re, false), CenTail(sp, so, re, true));
  }

  /** The modifier, in whichever syntax, and what follows it. */
  method ExplodeModifier(name: array<char>, cp: nat, xpg: bool, ghost s: CString)
    returns (ptrs: Pointers, mask: nat, xpg': bool, ghost p: Pieces)
    requires Untouched(name[..], cp, s) && StartsIn(s[cp..], if xpg then "@" else "@+,_")
    modifies name
    ensures xpg' == (xpg || p.at)
    ensures Split(old(name[..]), name[..], cp, s, ModifierTail(p, false), ModifierTail(p, true))
    ensures p.language == "" && p.territory.None? && p.codeset.None? && ptrs == PointersFrom(p, cp)
    ensures mask == CenBits(p) + if p.modifier.Some? then XPG_MODIFIER + CEN_AUDIENCE else 0
    ensures ModifierOk(p, xpg) && (cp < |s| ==> (p.modifier.Some? || p.sponsor.Some? <==> s[cp] != '_'))
    ensures xpg ==> (p.modifier.Some? <==> cp < |s|)
  {
    hide Untouched, StartsIn, Split, Free, CenTail;
    CharAt(name[..], cp, s, if xpg then "@" else "@+,_");
    xpg' := xpg || name[cp] == '@';
    if name[cp] == '@' {
      ptrs, mask, p := ExplodeXpgModifier(name, cp, s);
    } else if !xpg && name[cp] == '+' {
      ptrs, mask, p := ExplodeCenModifier(name, cp, s);
    } else if !xpg {
      EndStarts(s, cp, "+,_");
      var special, sponsor, revision, cen, sp, so, re := ExplodeCen(name, cp, s);
      p := Pieces("", None, None, false, None, sp, so, re);
      ptrs, mask := Pointers(None, None, None, special, sponsor, revision), cen;
    } else {
      SplitNothing(name[..], cp, s);
      NoCenTail();
      p := Pieces("", None, None, false, None, None, None, None);
      ptrs, mask := Pointers(None, None, None, None, None, None), 0;
    }
  }

  lemma NoCenTail()
    ensures CenTail(None, None, None, false) == CenTail(None, None, None, true) == ""
  {
  }

  lemma BitsOf(p: Pieces, sp: Option<string>, so: Option<string>, re: Option<string>)
    requires p.special == sp && p.sponsor == so && p.revision == re
    ensures CenBits(p) == (if sp.Some? then CEN_SPECIAL else 0) + (if so.Some? then CEN_SPONSOR else 0)
                          + (if re.Some? then CEN_REVISION else 0)
  {
  }

  /** The C string at a position that nothing was written to yet. */
  lemma TextAt(name: seq<char>, cp: nat, s: CString)
    requires Untouched(name, cp, s)
    ensures CStr(name[cp..]) == s[cp..]
  {
    CStrOfPrefix(s[cp..], name[|s|..]);
    assert name[cp..] == name[cp..|s|] + name[|s|..];
  }

  /** The bits of the codeset between two positions. The codeset is not terminated yet when it
      is compared with its normal form. */
  method CodesetBits(name: array<char>, start: nat, end: nat, ghost s: CString)
    returns (mask: nat, normalized: Option<string>)
    requires Untouched(name[..], start, s) && start <= end <= |s|
    ensures normalized == if start < end then Some(Codesets.Normalized(s[start..end])) else None
    ensures mask == XPG_CODESET + if start < end && Codesets.Normalized(s[start..end]) != s[start..] then XPG_NORM_CODESET
                                  else 0
  {
    mask, normalized := XPG_CODESET, None;
    if start != end {
      TextAt(name[..], start, s);
      assert name[start..end] == s[start..end] by {
        assert name[start..end] == name[..][start..|s|][..end - start];
      }
      var buf := Codesets.NormalizeCodeset(name[start..end]);
      normalized := Some(buf[..buf.Length - 1]);
      if CStr(name[start..]) != normalized.value {
        mask := mask + XPG_NORM_CODESET;
      }
    }
  }

  /** With a modifier behind it, a codeset never equals its normal form. */
  lemma NormBitMeans(s: string, start: nat, end: nat)
    requires start <= end <= |s| && (end == |s| || s[end] == '@')
    ensures var n := Codesets.Normalized(s[start..end]);
            n != s[start..] <==> end < |s| || n != s[start..end]
  {
    var n := Codesets.Normalized(s[start..end]);
    if end < |s| {
      Codesets.NormalizedCharacters(s[start..end]);
      var rest := s[start..];
      assert rest[end - start] == '@' && '@' in rest;
    }
  }

  /** The codeset, and what follows it. */
  method ExplodeCodeset(name: array<char>, cp: nat, ghost s: CString)
    returns (ptrs: Pointers, mask: nat, normalized: Option<string>, ghost p: Pieces)
    requires Untouched(name[..], cp, s) && cp < |s| && s[cp] == '.'
    modifies name
    ensures Split(old(name[..]), name[..], cp, s, Opt(p.codeset, '.', false, ModifierTail(p, false)),
                  Opt(p.codeset, '.', true, ModifierTail(p, true)))
    ensures p.language == "" && p.territory.None? && p.codeset.Some? && FreeIf(p.codeset, "@") && ModifierOk(p, true)
    ensures ptrs == PointersFrom(p, cp)
    ensures mask == XPG_CODESET + (if p.codeset.value != "" then NormBit(p) else 0)
                    + (if p.modifier.Some? then XPG_MODIFIER + CEN_AUDIENCE else 0)
    ensures normalized == if p.codeset.value != "" then Some(Codesets.Normalized(p.codeset.value)) else None
  {
    hide Untouched, Split, Free, CenTail, CStr;
    ghost var was := name[..];
    var end := Cut(name, cp, "@", s);
    ghost var cut := name[..];
    UntouchedLater(was, cp, cp + 1, s);
    var bits: nat;
    bits, normalized := CodesetBits(name, cp + 1, end, s);
    NormBitMeans(s, cp + 1, end);
    var m: nat, x: bool;
    ghost var q: Pieces;
    EndStarts(s, end, "@");
    ptrs, m, x, q := ExplodeModifier(name, end, true, s);
    p := q.(codeset := Some(s[cp + 1..end]));
    SplitPiece(was, cut, name[..], cp, end, s, '.', ModifierTail(q, false), ModifierTail(q, true));
    assert After(p.codeset, cp) == end;
    ptrs, mask := ptrs.(codeset := Some(cp + 1)), bits + m;
    NoCenBits(q);
  }

  lemma NoCenBits(p: Pieces)
    requires ModifierOk(p, true)
    ensures CenBits(p) == 0
  {
  }

  /** The codeset if there is one, which makes the syntax XPG, and what follows. */
  method ExplodeRest(name: array<char>, cp: nat, ghost s: CString)
    returns (ptrs: Pointers, mask: nat, xpg: bool, normalized: Option<string>, ghost p: Pieces)
    requires Untouched(name[..], cp, s) && cp <= |s| && (cp == |s| || s[cp] in ".@+,_")
    modifies name
    ensures Split(old(name[..]), name[..], cp, s, Opt(p.codeset, '.', false, ModifierTail(p, false)),
                  Opt(p.codeset, '.', true, ModifierTail(p, true)))
    ensures p.language == "" && p.territory.None? && FreeIf(p.codeset, "@")
    ensures ModifierOk(p, p.codeset.Some?) && xpg == Xpg(p) && ptrs == PointersFrom(p, cp)
    ensures mask == RawMask(p)
    ensures normalized == if p.codeset.GetOr("") != "" then Some(Codesets.Normalized(p.codeset.value)) else None
    ensures cp < |s| && s[cp] in "@+,_" ==> p.codeset.None? && (p.modifier.Some? || p.sponsor.Some? <==> s[cp] != '_')
    ensures cp < |s| && s[cp] == '.' ==> p.codeset.Some?
  {
    hide Untouched, Split, Free, ModifierTail, CStr, ModifierOk, CenBits, StartsIn;
    EndStarts(s, cp, ".@+,_");
    CharAt(name[..], cp, s, ".@+,_");
    if name[cp] == '.' {
      ptrs, mask, normalized, p := ExplodeCodeset(name, cp, s);
      xpg := true;
      NoCenBits(p);
    } else {
      EndStarts(s, cp, "@+,_");
      ptrs, mask, xpg, p := ExplodeModifier(name, cp, false, s);
      normalized := None;
    }
  }

  /** The territory, and what follows. */
  method ExplodeTerritory(name: array<char>, cp: nat, ghost s: CString)
    returns (ptrs: Pointers, mask: nat, xpg: bool, normalized: Option<string>, ghost p: Pieces)
    requires Untouched(name[..], cp, s) && cp < |s| && s[cp] == '_'
    modifies name
    ensures Split(old(name[..]), name[..], cp, s, TerritoryTail(p, false), TerritoryTail(p, true))
    ensures p.language == "" && p.territory.Some? && FreeIf(p.territory, ".@+,_") && FreeIf(p.codeset, "@")
    ensures ModifierOk(p, p.codeset.Some?) && xpg == Xpg(p) && ptrs == PointersFrom(p, cp)
    ensures mask == RawMask(p)
    ensures normalized == if p.codeset.GetOr("") != "" then Some(Codesets.Normalized(p.codeset.value)) else None
  {
    hide Untouched, Split, Free, ModifierTail, CStr, ModifierOk, CenBits, NormBit, Opt, Codesets.Normalized, StartsIn;
    ghost var was := name[..];
    var end := Cut(name, cp, ".@+,_", s);
    ghost var cut := name[..];
    ghost var q: Pieces;
    ptrs, mask, xpg, normalized, q := ExplodeRest(name, end, s);
    p := q.(territory := Some(s[cp + 1..end]));
    SplitPiece(was, cut, name[..], cp, end, s, '_', Opt(q.codeset, '.', false, ModifierTail(q, false)),
               Opt(q.codeset, '.', true, ModifierTail(q, true)));
    SameModifier(p, q);
    assert After(p.territory, cp) == end;
    ptrs, mask := ptrs.(territory := Some(cp + 1)), TERRITORY + mask;
  }

  lemma SameModifier(p: Pieces, q: Pieces)
    requires p.at == q.at && p.modifier == q.modifier && p.special == q.special && p.sponsor == q.sponsor
             && p.revision == q.revision
    ensures ModifierTail(p, false) == ModifierTail(q, false) && ModifierTail(p, true) == ModifierTail(q, true)
    ensures (p.codeset == q.codeset && p.codeset.Some? ==> NormBit(p) == NormBit(q))
    ensures CenBits(p) == CenBits(q) && (forall xpg :: ModifierOk(p, xpg) == ModifierOk(q, xpg))
  {
  }

  /** The mask before empty XPG pieces are taken out. */
  function RawMask(p: Pieces): nat {
    (if p.territory.Some? then TERRITORY else 0)
    + (if p.codeset.Some? then XPG_CODESET + (if p.codeset.value != "" then NormBit(p) else 0) else 0)
    + (if p.modifier.Some? then XPG_MODIFIER + CEN_AUDIENCE else 0)
    + CenBits(p)
  }

  /** A pointer behind a NUL reads the piece that stands there. */
  predicate Reads(name: string, ptr: Option<nat>, piece: Option<string>) {
    && (ptr.Some? <==> piece.Some?)
    && (ptr.Some? ==> ptr.value < |name| && CStr(name[ptr.value..]) == piece.value)
  }

  lemma ReadsPiece(before: string, piece: Option<string>, rest: string, after: string)
    requires '\0' !in piece.GetOr("") && (rest == "" || rest[0] == '\0') && after != "" && after[0] == '\0'
    ensures Reads(before + Opt(piece, '_', true, rest) + after, Ptr(piece, |before|), piece)
  {
    if piece.Some? {
      var t := before + (['\0'] + (piece.value + rest)) + after;
      var tail := rest + after;
      assert t == (before + ['\0']) + (piece.value + tail);
      assert t[|before| + 1..] == piece.value + tail;
      assert tail[0] == '\0';
      CStrOfPrefix(piece.value, tail);
    }
  }

  predicate EmptyOrNul(t: string) {
    t == "" || t[0] == '\0'
  }

  lemma NulTails(p: Pieces)
    ensures EmptyOrNul(ModifierTail(p, true)) && EmptyOrNul(Opt(p.codeset, '.', true, ModifierTail(p, true)))
    ensures EmptyOrNul(CenTail(p.special, p.sponsor, p.revision, true))
    ensures EmptyOrNul(CenTail(None, p.sponsor, p.revision, true)) && EmptyOrNul(CenTail(None, None, p.revision, true))
  {
  }

  predicate NulFree(p: Pieces) {
    && '\0' !in p.territory.GetOr("") && '\0' !in p.codeset.GetOr("") && '\0' !in p.modifier.GetOr("")
    && '\0' !in p.special.GetOr("") && '\0' !in p.sponsor.GetOr("") && '\0' !in p.revision.GetOr("")
  }

  function With(before: string, piece: Option<string>): string {
    if piece.Some? then before + (['\0'] + piece.value) else before
  }

  lemma WithOpt(before: string, piece: Option<string>, rest: string)
    ensures before + Opt(piece, '_', true, rest) == With(before, piece) + rest
    ensures |With(before, piece)| == After(piece, |before|)
  {
  }

  /** Every piece of an exploded name can be read through its pointer. */
  lemma ReadsPieces(p: Pieces, name: string, after: string)
    requires NulFree(p) && name == Joined(p, true) + after && after != "" && after[0] == '\0'
    ensures var q := PointersFrom(p, |p.language|);
            && Reads(name, q.territory, p.territory) && Reads(name, q.codeset, p.codeset)
            && Reads(name, q.modifier, p.modifier) && Reads(name, q.special, p.special)
            && Reads(name, q.sponsor, p.sponsor) && Reads(name, q.revision, p.revision)
  {
    hide Opt, Reads, With, CStr;
    NulTails(p);
    SameNulTails(p);
    var t5 := Opt(p.revision, '_', true, "");
    var t4 := Opt(p.sponsor, '_', true, t5);
    var t3 := Opt(p.special, '_', true, t4);
    var t2 := Opt(p.modifier, '_', true, t3);
    var t1 := Opt(p.codeset, '_', true, t2);
    var t0 := Opt(p.territory, '_', true, t1);
    var b0 := p.language;
    WithOpt(b0, p.territory, t1);
    var b1 := With(b0, p.territory);
    WithOpt(b1, p.codeset, t2);
    var b2 := With(b1, p.codeset);
    WithOpt(b2, p.modifier, t3);
    var b3 := With(b2, p.modifier);
    WithOpt(b3, p.special, t4);
    var b4 := With(b3, p.special);
    WithOpt(b4, p.sponsor, t5);
    var b5 := With(b4, p.sponsor);
    ReadsPiece(b0, p.territory, t1, after);
    ReadsPiece(b1, p.codeset, t2, after);
    ReadsPiece(b2, p.modifier, t3, after);
    ReadsPiece(b3, p.special, t4, after);
    ReadsPiece(b4, p.sponsor, t5, after);
    ReadsPiece(b5, p.revision, "", after);
  }

  /** With NULs in their place, separators do not matter. */
  lemma SameNulTails(p: Pieces)
    ensures var t5 := Opt(p.revision, '_', true, "");
            var t4 := Opt(p.sponsor, '_', true, t5);
            var t3 := Opt(p.special, '_', true, t4);
            var t2 := Opt(p.modifier, '_', true, t3);
            var t1 := Opt(p.codeset, '_', true, t2);
            && t5 == CenTail(None, None, p.revision, true) && t4 == CenTail(None, p.sponsor, p.revision, true)
            && t3 == CenTail(p.special, p.sponsor, p.revision, true) && t2 == ModifierTail(p, true)
            && t1 == Opt(p.codeset, '.', true, t2) && TerritoryTail(p, true) == Opt(p.territory, '_', true, t1)
  {
  }

  lemma {:induction false} NulFreePieces(p: Pieces, s: CString)
    requires s == Joined(p, false)
    ensures NulFree(p)
  {
    hide CenTail;
    var m := ModifierTail(p, false);
    var x := Opt(p.codeset, '.', false, m);
    NulFreeOpt(p.language, p.territory, '_', x);
    NulFreeOpt("", p.codeset, '.', m);
    NulFreeOpt("", p.modifier, if p.at then '@' else '+', CenTail(p.special, p.sponsor, p.revision, false));
    NulFreeCen(p);
  }

  lemma NulFreeCen(p: Pieces)
    requires '\0' !in CenTail(p.special, p.sponsor, p.revision, false)
    ensures '\0' !in p.special.GetOr("") && '\0' !in p.sponsor.GetOr("") && '\0' !in p.revision.GetOr("")
  {
    var r := Opt(p.revision, '_', false, "");
    var o := Opt(p.sponsor, ',', false, r);
    NulFreeOpt("", p.special, '+', o);
    NulFreeOpt("", p.sponsor, ',', r);
    NulFreeOpt("", p.revision, '_', "");
  }

  lemma NulFreeOpt(before: string, piece: Option<string>, sep: char, rest: string)
    requires '\0' !in before + Opt(piece, sep, false, rest)
    ensures '\0' !in piece.GetOr("") && '\0' !in rest
  {
    var t := before + Opt(piece, sep, false, rest);
    assert forall c :: c in rest ==> c in t;
    if piece.Some? { assert forall c :: c in piece.value ==> c in t; }
  }

  /** The end of _nl_explode_name: empty XPG pieces do not count. */
  method DropEmptyPieces(name: array<char>, ptrs: Pointers, raw: nat, xpg: bool, ghost p: Pieces) returns (mask: nat)
    requires raw == RawMask(p) && xpg == Xpg(p) && (p.modifier.Some? && xpg ==> p.at)
    requires Reads(name[..], ptrs.territory, p.territory) && Reads(name[..], ptrs.codeset, p.codeset)
             && Reads(name[..], ptrs.modifier, p.modifier)
    ensures mask == MaskOf(p)
  {
    hide CenBits, NormBit;
    mask := raw;
    if xpg {
      if ptrs.territory.Some? && name[ptrs.territory.value] == '\0' {
        mask := mask - TERRITORY;
      }
      if ptrs.codeset.Some? && name[ptrs.codeset.value] == '\0' {
        mask := mask - XPG_CODESET;
      }
      if ptrs.modifier.Some? && name[ptrs.modifier.value] == '\0' {
        mask := mask - XPG_MODIFIER;
      }
    }
  }

  /** The pieces behind the language. */
  method ExplodeTail(name: array<char>, cp: nat, ghost s: CString)
    returns (ptrs: Pointers, mask: nat, xpg: bool, normalized: Option<string>, ghost p: Pieces)
    requires Untouched(name[..], 0, s) && 0 < cp <= |s| && Free(s[..cp], "_@+,") && (cp == |s| || s[cp] in "_@+,")
    modifies name
    ensures p.language == s[..cp] && WellFormed(p) && xpg == Xpg(p)
    ensures s == Joined(p, false) && name[..] == Joined(p, true) + old(name[|s|..])
    ensures ptrs == PointersFrom(p, cp) && mask == RawMask(p)
    ensures normalized == if p.codeset.GetOr("") != "" then Some(Codesets.Normalized(p.codeset.value)) else None
  {
    hide Untouched, Free, CStr, CenBits, NormBit, ModifierTail, Split, ModifierOk;
    ghost var was := name[..];
    UntouchedFrom(was, cp, s);
    ghost var q: Pieces;
    CharAt(was, cp, s, "_@+,");
    if name[cp] == '_' {
      ptrs, mask, xpg, normalized, q := ExplodeTerritory(name, cp, s);
    } else {
      ptrs, mask, xpg, q := ExplodeModifier(name, cp, false, s);
      normalized := None;
      EmptyTail(q, was, name[..], cp, s);
    }
    p := q.(language := s[..cp]);
    SameModifier(p, q);
    SplitWhole(was, name[..], cp, s, p);
    WellFormedParts(p, s, cp);
  }

  lemma SplitWhole(was: seq<char>, now: seq<char>, cp: nat, s: CString, p: Pieces)
    requires Untouched(was, cp, s) && was[..cp] == s[..cp] == p.language
    requires Split(was, now, cp, s, TerritoryTail(p, false), TerritoryTail(p, true))
    ensures s == Joined(p, false) && now == Joined(p, true) + was[|s|..]
  {
    hide TerritoryTail;
    assert s == s[..cp] + s[cp..];
  }

  lemma WellFormedParts(p: Pieces, s: string, cp: nat)
    requires 0 < cp <= |s| && p.language == s[..cp] && Free(p.language, "_@+,")
    requires FreeIf(p.territory, ".@+,_") && FreeIf(p.codeset, "@") && (p.codeset.Some? ==> p.territory.Some?)
    requires ModifierOk(p, p.codeset.Some?)
    requires p.revision.Some? && p.territory.None? ==> p.modifier.Some? || p.sponsor.Some?
    ensures WellFormed(p)
  {
    assert p.language[0] in p.language;
  }

  lemma UntouchedFrom(name: seq<char>, cp: nat, s: CString)
    requires Untouched(name, 0, s) && cp <= |s|
    ensures Untouched(name, cp, s) && name[..cp] == s[..cp]
  {
    assert s[0..] == s;
    assert name[cp..|s|] == name[0..|s|][cp..];
    assert name[..cp] == name[0..|s|][..cp];
  }

  lemma EmptyTail(p: Pieces, was: seq<char>, now: seq<char>, cp: nat, s: CString)
    requires Split(was, now, cp, s, ModifierTail(p, false), ModifierTail(p, true))
    ensures cp == |s| ==> p.revision.None?
  {
  }

  /** _nl_explode_name: splits a locale name in place. The pieces joined give the name back,
      exactly the separators are overwritten, and the mask has the bits of the pieces. */
  method ExplodeName(name: array<char>, ghost s: CString)
    returns (ptrs: Pointers, mask: nat, normalized: Option<string>, ghost p: Pieces)
    requires Untouched(name[..], 0, s)
    modifies name
    ensures WellFormed(p) && Joined(p, false) == s && name[..] == Joined(p, true) + old(name[|s|..])
    ensures ptrs == PointersFrom(p, |p.language|) && mask == MaskOf(p)
    ensures normalized == if p.codeset.GetOr("") != "" then Some(Codesets.Normalized(p.codeset.value)) else None
  {
    hide Free, CenBits, NormBit, ModifierTail, RawMask, MaskOf, CStr, Reads;
    var cp := Scan(name, 0, "_@+,", s);
    UntouchedFrom(name[..], cp, s);
    if cp == 0 {
      p := Pieces(s, None, None, false, None, None, None, None);
      NoPiecesAtAll(p);
      assert name[..] == s + name[|s|..];
      return Pointers(None, None, None, None, None, None), 0, None, p;
    }
    var raw: nat, xpg: bool;
    assert s[0..cp] == s[..cp];
    ptrs, raw, xpg, normalized, p := ExplodeTail(name, cp, s);
    NulFreePieces(p, s);
    ReadsPieces(p, name[..], old(name[|s|..]));
    mask := DropEmptyPieces(name, ptrs, raw, xpg, p);
  }

  /** The description of the bit asks for a codeset that differs from its normal form. The code does what it says
      exactly if no modifier follows or the two differ anyway. */
  lemma NormBitAsDescribed(p: Pieces)
    requires p.codeset.Some?
    ensures var c := p.codeset.value;
            (NormBit(p) == if Codesets.Normalized(c) != c then XPG_NORM_CODESET else 0)
            <==> p.modifier.None? || Codesets.Normalized(c) != c
  {
    hide Codesets.Normalized;
  }

  const EURO: Pieces := Pieces("de", Some("DE"), Some("utf8"), true, Some("euro"), None, None, None)

  lemma EuroWellFormed()
    ensures WellFormed(EURO)
  {
  }

  lemma EuroJoined()
    ensures Joined(EURO, false) == "de_DE.utf8@euro"
  {
    var m := ModifierTail(EURO, false);
    assert m == "@euro";
    assert Opt(Some("utf8"), '.', false, m) == ".utf8@euro";
    assert TerritoryTail(EURO, false) == "_DE.utf8@euro";
  }

  /** So it does not for this name, whose codeset is in normal form. */
  lemma NormBitDeviates()
    ensures WellFormed(EURO) && Joined(EURO, false) == "de_DE.utf8@euro" && EURO.codeset == Some("utf8")
    ensures Codesets.Normalized("utf8") == "utf8" && NormBit(EURO) == XPG_NORM_CODESET
    ensures MaskOf(EURO) == TERRITORY + XPG_CODESET + XPG_NORM_CODESET + CEN_AUDIENCE + XPG_MODIFIER
  {
    EuroWellFormed();
    EuroJoined();
    assert "utf8"[0] in "utf8" && Codesets.IsAlpha("utf8"[0]);
    Codesets.AlreadyNormal("utf8");
    hide Joined, WellFormed, Codesets.Normalized;
  }

  lemma NoPiecesAtAll(p: Pieces)
    requires NoPieces(p)
    ensures Joined(p, false) == Joined(p, true) == p.language && MaskOf(p) == 0
  {
  }
}
