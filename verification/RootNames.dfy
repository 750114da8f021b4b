/** The name under which a locale is entered into the pool of files, and the name under which it is looked up again. */
module RootNames {
  import opened Bits
  import opened CStrings
  import opened ExplodeName
  import opened L10nNames
  import opened Wrappers
  import Codesets

  // ---- The bits of a mask ----

  /** A number from its bits, the lowest of which is bits[j]. */
  function FromBits(bits: seq<bool>, j: nat): nat
    decreases |bits| - j
  {
    if j >= |bits| then 0 else 2 * FromBits(bits, j + 1) + if bits[j] then 1 else 0
  }

  lemma {:induction false} BitTested(bits: seq<bool>, j: nat, k: nat)
    requires j + k < |bits|
    ensures Has(FromBits(bits, j), Pow2(k)) <==> bits[j + k]
    decreases k
  {
    var x, b := FromBits(bits, j + 1), if bits[j] then 1 else 0;
    hide FromBits;
    if k == 0 {
      OnePlace(x, b, 0, 1);
      assert And(x, 0) == 0;
    } else {
      BitTested(bits, j + 1, k - 1);
      OnePlace(x, b, Pow2(k - 1), 0);
    }
  }

  /** The bits of the mask of a locale name. */
  function BitsOfName(p: Pieces): seq<bool> {
    [p.revision.Some?, p.sponsor.Some?, p.special.Some?,
     p.codeset.Some? && p.codeset.value != "" && NormBit(p) != 0,
     p.codeset.Some? && p.codeset.value != "",
     p.territory.Some? && !(Xpg(p) && p.territory.value == ""),
     p.modifier.Some?,
     p.modifier.Some? && !(p.at && p.modifier.value == "")]
  }

  lemma EightBits(b: seq<bool>)
    requires |b| == 8
    ensures FromBits(b, 0)
            == (if b[0] then 1 else 0) + (if b[1] then 2 else 0) + (if b[2] then 4 else 0) + (if b[3] then 8 else 0)
               + (if b[4] then 16 else 0) + (if b[5] then 32 else 0) + (if b[6] then 64 else 0) + (if b[7] then 128 else 0)
  {
    assert FromBits(b, 8) == 0;
    assert FromBits(b, 6) == (if b[6] then 1 else 0) + (if b[7] then 2 else 0);
    assert FromBits(b, 4) == (if b[4] then 1 else 0) + (if b[5] then 2 else 0) + 4 * FromBits(b, 6);
    assert FromBits(b, 2) == (if b[2] then 1 else 0) + (if b[3] then 2 else 0) + 4 * FromBits(b, 4);
  }

  lemma MaskFromBits(p: Pieces)
    ensures MaskOf(p) == FromBits(BitsOfName(p), 0)
  {
    hide FromBits, Codesets.Normalized;
    EightBits(BitsOfName(p));
  }

  lemma MaskHas(p: Pieces, k: nat, bit: nat)
    requires k < 8 && bit == Pow2(k)
    ensures Has(MaskOf(p), bit) <==> BitsOfName(p)[k]
  {
    hide Has, MaskOf;
    MaskFromBits(p);
    BitTested(BitsOfName(p), 0, k);
  }

  // ---- The name of the file for the whole locale ----

  /** What the list of files gets of a piece. */
  function Counted(piece: Option<string>, on: bool): Option<string> {
    if on then piece else None
  }

  function SponsorNames(p: Pieces): string {
    Opt(if p.sponsor.None? && p.revision.None? then None else Some(p.sponsor.GetOr("")), ',', false,
        Opt(p.revision, '_', false, ""))
  }

  function ModifierNames(p: Pieces): string {
    Opt(p.modifier, '+', false, Opt(p.special, '+', false, SponsorNames(p)))
  }

  function CodesetNames(p: Pieces, normalized: string): string {
    Opt(Counted(p.codeset, BitsOfName(p)[4]), '.', false,
        Opt(Counted(Some(normalized), BitsOfName(p)[3]), '.', false, ModifierNames(p)))
  }

  function TerritoryNames(p: Pieces, normalized: string): string {
    Opt(Counted(p.territory, BitsOfName(p)[5]), '_', false, CodesetNames(p, normalized))
  }

  lemma PartAndRest(on: bool, sep: char, piece: CString, rest: string)
    ensures Part(on, sep, piece) + rest == Opt(if on then Some(piece) else None, sep, false, rest)
  {
  }

  /** The pieces as pointers to them read. */
  function LocaleOf(p: Pieces, normalized: CString): Locale
    requires NulFree(p) && '\0' !in p.language
  {
    Locale(p.language, p.territory.GetOr(""), p.codeset.GetOr(""), normalized, p.modifier.GetOr(""), p.special.GetOr(""),
           p.sponsor.GetOr(""), p.revision.GetOr(""))
  }

  lemma CodesetPart(p: Pieces, normalized: CString, rest: string)
    requires NulFree(p) && '\0' !in p.language
    ensures CodesetParts(MaskOf(p), LocaleOf(p, normalized)) + rest
            == Opt(Counted(p.territory, BitsOfName(p)[5]), '_', false,
                   Opt(Counted(p.codeset, BitsOfName(p)[4]), '.', false,
                       Opt(Counted(Some(normalized), BitsOfName(p)[3]), '.', false, rest)))
  {
    hide Has, MaskOf, Codesets.Normalized, NormBit;
    MaskHas(p, 3, XPG_NORM_CODESET);
    MaskHas(p, 4, XPG_CODESET);
    MaskHas(p, 5, TERRITORY);
    var m, l, bits := MaskOf(p), LocaleOf(p, normalized), BitsOfName(p);
    var t, c, n := Part(bits[5], '_', l.territory), Part(bits[4], '.', l.codeset), Part(bits[3], '.', normalized);
    hide Part, Opt;
    PartAndRest(bits[3], '.', normalized, rest);
    PartAndRest(bits[4], '.', l.codeset, n + rest);
    PartAndRest(bits[5], '_', l.territory, c + (n + rest));
    Regroup(t, c, n, rest);
  }

  lemma Regroup(a: string, b: string, c: string, d: string)
    ensures a + b + c + d == a + (b + (c + d))
  {
  }

  lemma ModifierPart(p: Pieces, normalized: CString, rest: string)
    requires NulFree(p) && '\0' !in p.language
    ensures ModifierParts(MaskOf(p), LocaleOf(p, normalized)) + rest
            == Opt(p.modifier, '+', false, Opt(p.special, '+', false, rest))
  {
    hide Has, MaskOf, Codesets.Normalized, NormBit;
    MaskHas(p, 2, CEN_SPECIAL);
    MaskHas(p, 6, CEN_AUDIENCE);
    MaskHas(p, 7, XPG_MODIFIER);
    HasEither(MaskOf(p));
  }

  lemma SponsorPart(p: Pieces, normalized: CString)
    requires NulFree(p) && '\0' !in p.language
    ensures SponsorParts(MaskOf(p), LocaleOf(p, normalized)) == SponsorNames(p)
  {
    hide Has, MaskOf, Codesets.Normalized, NormBit;
    MaskHas(p, 0, CEN_REVISION);
    MaskHas(p, 1, CEN_SPONSOR);
    HasEither(MaskOf(p));
  }

  lemma RootName(p: Pieces, normalized: CString)
    requires NulFree(p) && '\0' !in p.language
    ensures LocalePart(MaskOf(p), LocaleOf(p, normalized)) == p.language + TerritoryNames(p, normalized)
  {
    hide CodesetParts, ModifierParts, SponsorParts, MaskOf, Opt, BitsOfName;
    var m, l := MaskOf(p), LocaleOf(p, normalized);
    SponsorPart(p, normalized);
    ModifierPart(p, normalized, SponsorNames(p));
    CodesetPart(p, normalized, ModifierNames(p));
    Regroup(p.language, CodesetParts(m, l), ModifierParts(m, l), SponsorParts(m, l));
  }

  // ---- When it is the name of the locale ----

  lemma Cancel(a: string, x: string, y: string)
    ensures a + x == a + y <==> x == y
  {
    assert (a + x)[|a|..] == x && (a + y)[|a|..] == y;
  }

  lemma OptCancel(piece: Option<string>, sep: char, x: string, y: string)
    ensures Opt(piece, sep, false, x) == Opt(piece, sep, false, y) <==> x == y
  {
    if piece.Some? {
      Cancel(piece.value, x, y);
      Cancel([sep], piece.value + x, piece.value + y);
    }
  }

  /** A locale whose name and whose file have the same name: in XPG syntax, one with a territory and a codeset in normal
      form but without a modifier; in CEN syntax, one that has no revision without a sponsor. */
  predicate NamesItself(p: Pieces) {
    if Xpg(p) then
      && p.territory.GetOr("") != "" && p.codeset.GetOr("") != "" && p.modifier.None?
      && Codesets.Normalized(p.codeset.value) == p.codeset.value
    else p.revision.Some? ==> p.sponsor.Some?
  }

  lemma SponsorSame(p: Pieces)
    ensures SponsorNames(p) == Opt(p.sponsor, ',', false, Opt(p.revision, '_', false, ""))
            <==> (p.revision.Some? ==> p.sponsor.Some?)
  {
  }

  lemma ModifierSame(p: Pieces)
    requires !p.at
    ensures ModifierNames(p) == ModifierTail(p, false) <==> (p.revision.Some? ==> p.sponsor.Some?)
  {
    hide Opt, SponsorNames;
    SponsorSame(p);
    var x, y := SponsorNames(p), Opt(p.sponsor, ',', false, Opt(p.revision, '_', false, ""));
    OptCancel(p.special, '+', x, y);
    OptCancel(p.modifier, '+', Opt(p.special, '+', false, x), Opt(p.special, '+', false, y));
  }

  /** What may stand in front of the modifier. */
  lemma ModifierHeads(p: Pieces)
    requires WellFormed(p) && Xpg(p)
    ensures if p.modifier.Some? then ModifierTail(p, false) != "" && ModifierTail(p, false)[0] == '@'
                                     && ModifierNames(p) != "" && ModifierNames(p)[0] == '+'
            else ModifierTail(p, false) == ModifierNames(p) == ""
  {
    hide Free;
  }

  lemma CodesetSame(p: Pieces, normalized: string)
    requires WellFormed(p) && p.codeset.Some?
    ensures CodesetNames(p, normalized) == Opt(p.codeset, '.', false, ModifierTail(p, false))
            <==> p.codeset.value != "" && p.modifier.None? && Codesets.Normalized(p.codeset.value) == p.codeset.value
  {
    hide Free, Codesets.Normalized, ModifierNames, ModifierTail;
    ModifierHeads(p);
    var x := Opt(Counted(Some(normalized), BitsOfName(p)[3]), '.', false, ModifierNames(p));
    OptCancel(p.codeset, '.', x, ModifierTail(p, false));
  }

  lemma TailSame(p: Pieces, normalized: string)
    requires WellFormed(p)
    ensures CodesetNames(p, normalized) == Opt(p.codeset, '.', false, ModifierTail(p, false))
            <==> if p.codeset.Some? then p.codeset.value != "" && p.modifier.None?
                                         && Codesets.Normalized(p.codeset.value) == p.codeset.value
                 else !p.at && (p.revision.Some? ==> p.sponsor.Some?)
  {
    hide Free, Codesets.Normalized, ModifierNames, ModifierTail;
    if p.codeset.Some? {
      CodesetSame(p, normalized);
    } else if p.at {
      ModifierHeads(p);
    } else {
      ModifierSame(p);
    }
  }

  lemma TerritorySame(p: Pieces, normalized: string)
    requires WellFormed(p)
    ensures TerritoryNames(p, normalized) == TerritoryTail(p, false) <==> NamesItself(p)
  {
    hide Free, Codesets.Normalized, ModifierNames, ModifierTail;
    TailSame(p, normalized);
    if BitsOfName(p)[5] || p.territory.None? {
      OptCancel(p.territory, '_', CodesetNames(p, normalized), Opt(p.codeset, '.', false, ModifierTail(p, false)));
    } else {
      CodesetHead(p, normalized);
      assert TerritoryTail(p, false)[0] == '_';
    }
  }

  lemma CodesetHead(p: Pieces, normalized: string)
    requires WellFormed(p) && Xpg(p)
    ensures CodesetNames(p, normalized) == "" || CodesetNames(p, normalized)[0] in ".+"
  {
    hide Free, Codesets.Normalized, ModifierNames, ModifierTail;
    ModifierHeads(p);
  }

  /** _nl_find_domain first looks for a file by the name of the locale, unexploded, and otherwise makes the file from the
      pieces of the name. Both have the same name, so that the second call finds what the first one made, exactly if the
      locale names itself. */
  lemma FoundByName(s: CString, p: Pieces, normalized: CString, dirs: seq<CString>, filename: CString)
    requires WellFormed(p) && s == Joined(p, false) && NulFree(p) && '\0' !in p.language
    ensures FileName(dirs, 0, Locale(s, "", "", "", "", "", "", ""), filename)
            == FileName(dirs, MaskOf(p), LocaleOf(p, normalized), filename)
            <==> NamesItself(p)
  {
    hide MaskOf, LocaleOf, DirPart, WellFormed, NulFree, NamesItself, TerritoryNames, TerritoryTail;
    var l := Locale(s, "", "", "", "", "", "", "");
    var rest := "/" + filename;
    assert LocalePart(0, l) == s;
    hide LocalePart;
    RootName(p, normalized);
    TerritorySame(p, normalized);
    Cancel(p.language, TerritoryNames(p, normalized), TerritoryTail(p, false));
    SameName(DirPart(dirs), s, LocalePart(MaskOf(p), LocaleOf(p, normalized)), filename);
  }

  lemma SameName(dir: string, a: string, b: string, filename: string)
    ensures dir + a + "/" + filename == dir + b + "/" + filename <==> a == b
  {
    var x, y := dir + a + "/" + filename, dir + b + "/" + filename;
    if x == y {
      assert |a| == |b|;
      assert x[|dir|..|dir| + |a|] == a && y[|dir|..|dir| + |b|] == b;
    }
  }
}
