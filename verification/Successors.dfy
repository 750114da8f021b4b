/** The more general files that a locale's file inherits from, bit by bit and name by name. */
module Successors {
  import opened Bits
  import opened CStrings
  import opened ExplodeName
  import opened L10nList
  import opened L10nNames
  import opened RootNames
  import opened Submasks
  import opened Wrappers
  import Argz
  import Codesets

  // ---- Patterns, bit by bit ----

  /** The bit of a number at a place. */
  predicate BitAt(x: nat, k: nat) {
    if k == 0 then x % 2 == 1 else BitAt(x / 2, k - 1)
  }

  lemma {:induction false} HasOne(x: nat, k: nat)
    ensures Has(x, Pow2(k)) <==> BitAt(x, k)
  {
    if k == 0 {
      OnePlace(x / 2, x % 2, 0, 1);
      assert And(x / 2, 0) == 0;
    } else {
      HasOne(x / 2, k - 1);
      OnePlace(x / 2, x % 2, Pow2(k - 1), 0);
    }
  }

  /** A pattern has no bit that the mask does not have. */
  ghost predicate Covered(c: nat, mask: nat) {
    forall k: nat :: BitAt(c, k) ==> BitAt(mask, k)
  }

  lemma CoveredStep(c: nat, mask: nat)
    ensures Covered(c, mask) <==> c % 2 <= mask % 2 && Covered(c / 2, mask / 2)
  {
    if Covered(c, mask) {
      assert BitAt(c, 0) ==> BitAt(mask, 0);
      forall k: nat | BitAt(c / 2, k) ensures BitAt(mask / 2, k) {
        assert BitAt(c, k + 1) ==> BitAt(mask, k + 1);
      }
    }
    if c % 2 <= mask % 2 && Covered(c / 2, mask / 2) {
      forall k: nat | BitAt(c, k) ensures BitAt(mask, k) {
        if k > 0 { assert BitAt(c / 2, k - 1); }
      }
    }
  }

  lemma {:induction false} WithinByBits(c: nat, mask: nat)
    ensures Within(c, mask) <==> Covered(c, mask)
    decreases c
  {
    if c == 0 {
      forall k: nat ensures !BitAt(0, k) { ZeroHasNone(k); }
    } else {
      assert c == 2 * (c / 2) + c % 2 && mask == 2 * (mask / 2) + mask % 2;
      hide Within, Covered;
      CoveredStep(c, mask);
      WithinStep(c / 2, c % 2, mask / 2, mask % 2);
      WithinByBits(c / 2, mask / 2);
    }
  }

  lemma {:induction false} ZeroHasNone(k: nat)
    ensures !BitAt(0, k)
  {
    if k > 0 { ZeroHasNone(k - 1); }
  }

  /** The constants of the two syntaxes as bits. */
  lemma HasSpecific(c: nat)
    ensures Has(c, CEN_SPECIFIC) <==> BitAt(c, 0) || BitAt(c, 1) || BitAt(c, 2) || BitAt(c, 6)
    ensures Has(c, XPG_SPECIFIC) <==> BitAt(c, 3) || BitAt(c, 4) || BitAt(c, 7)
    ensures (Has(c, XPG_CODESET) <==> BitAt(c, 4)) && (Has(c, XPG_NORM_CODESET) <==> BitAt(c, 3))
  {
    AndDistributes(c, 64, 7);
    AndDistributes(c, 4, 3);
    AndDistributes(c, 2, 1);
    AndDistributes(c, 128, 24);
    AndDistributes(c, 16, 8);
    Powers();
    hide BitAt, And;
    HasOne(c, 0);
    HasOne(c, 1);
    HasOne(c, 2);
    HasOne(c, 3);
    HasOne(c, 4);
    HasOne(c, 6);
    HasOne(c, 7);
  }

  lemma Powers()
    ensures Pow2(0) == 1 && Pow2(1) == 2 && Pow2(2) == 4 && Pow2(3) == 8 && Pow2(4) == 16 && Pow2(5) == 32
    ensures Pow2(6) == 64 && Pow2(7) == 128
  {
    assert Pow2(4) == 2 * Pow2(3) && Pow2(5) == 2 * Pow2(4) && Pow2(6) == 2 * Pow2(5) && Pow2(7) == 2 * Pow2(6);
  }

  /** The patterns that are tried, for every mask: from the top down, those whose bits the mask has, without bits of
      special, sponsor, revision or audience (6, 2, 1, 0) beside bits of codesets or modifier (7, 4, 3), and without both
      codesets (4 and 3). */
  lemma PatternsByBits(mask: nat, top: int, c: nat)
    ensures c in Generalisations(mask, top)
            <==> c <= top && Covered(c, mask)
                 && !((BitAt(c, 0) || BitAt(c, 1) || BitAt(c, 2) || BitAt(c, 6))
                      && (BitAt(c, 3) || BitAt(c, 4) || BitAt(c, 7)))
                 && !(BitAt(c, 3) && BitAt(c, 4))
    ensures var gs := Generalisations(mask, top); forall i, j :: 0 <= i < j < |gs| ==> gs[i] > gs[j]
  {
    hide Generalisations, Has, Within, BitAt;
    GeneralisationsExact(mask, top);
    HasSpecific(c);
    WithinByBits(c, mask);
  }

  /** A file is never looked up if it stands for several directories or has both codesets. */
  lemma LookedUpByBits(dirs: seq<CString>, mask: nat)
    ensures NotAFile(dirs, mask) <==> |dirs| > 1 || (BitAt(mask, 3) && BitAt(mask, 4))
  {
    HasSpecific(mask);
    hide Has, BitAt;
  }

  // ---- The names, for one directory ----

  /** A piece with its separator. */
  function With(sep: char, piece: CString): string {
    [sep] + piece
  }

  lemma PatternTexts(l: Locale)
    ensures LocalePart(48, l) == l.language + With('_', l.territory) + With('.', l.codeset)
    ensures LocalePart(40, l) == l.language + With('_', l.territory) + With('.', l.normalizedCodeset)
    ensures LocalePart(32, l) == l.language + With('_', l.territory)
    ensures LocalePart(16, l) == l.language + With('.', l.codeset)
    ensures LocalePart(8, l) == l.language + With('.', l.normalizedCodeset)
    ensures LocalePart(0, l) == l.language
  {
    PatternBits();
    hide LocalePart, BitAt, With;
    var a, t, c, n := l.language, With('_', l.territory), With('.', l.codeset), With('.', l.normalizedCodeset);
    Nothing(a);
    Nothing(a + t);
    Nothing(a + c);
    Nothing(a + t + c);
    PatternText(48, l);
    PatternText(40, l);
    PatternText(32, l);
    PatternText(16, l);
    PatternText(8, l);
    PatternText(0, l);
  }

  lemma Nothing(s: string)
    ensures s + "" == s
  {
  }

  lemma PieceBits(c: nat)
    ensures (Has(c, TERRITORY) <==> BitAt(c, 5)) && (Has(c, XPG_CODESET) <==> BitAt(c, 4))
    ensures Has(c, XPG_NORM_CODESET) <==> BitAt(c, 3)
  {
    Powers();
    HasOne(c, 5);
    HasOne(c, 4);
    HasOne(c, 3);
  }

  lemma PatternBits()
    ensures BitAt(48, 5) && BitAt(48, 4) && !BitAt(48, 3) && BitAt(40, 5) && !BitAt(40, 4) && BitAt(40, 3)
    ensures BitAt(32, 5) && !BitAt(32, 4) && !BitAt(32, 3) && !BitAt(16, 5) && BitAt(16, 4) && !BitAt(16, 3)
    ensures !BitAt(8, 5) && !BitAt(8, 4) && BitAt(8, 3) && !BitAt(0, 5) && !BitAt(0, 4) && !BitAt(0, 3)
  {
  }

  lemma PatternText(c: nat, l: Locale)
    requires c < 64 && c % 8 == 0
    ensures LocalePart(c, l) == l.language + (if BitAt(c, 5) then With('_', l.territory) else "")
                                + (if BitAt(c, 4) then With('.', l.codeset) else "")
                                + (if BitAt(c, 3) then With('.', l.normalizedCodeset) else "")
  {
    NoOthers(c);
    PieceBits(c);
    hide Has, BitAt;
  }

  /** Patterns without the bits of modifier and CEN pieces. */
  lemma NoOthers(c: nat)
    requires c < 64 && c % 8 == 0
    ensures !Has(c, XPG_MODIFIER + CEN_AUDIENCE) && !Has(c, CEN_AUDIENCE) && !Has(c, CEN_SPECIAL)
    ensures !Has(c, CEN_SPONSOR) && !Has(c, CEN_REVISION) && !Has(c, CEN_SPONSOR + CEN_REVISION)
  {
    Powers();
    HasEither(c);
    HasOne(c, 0);
    HasOne(c, 1);
    HasOne(c, 2);
    HasOne(c, 6);
    HasOne(c, 7);
    hide Has;
    LowAndHigh(c);
  }

  lemma LowAndHigh(c: nat)
    requires c < 64 && c % 8 == 0
    ensures !BitAt(c, 0) && !BitAt(c, 1) && !BitAt(c, 2) && !BitAt(c, 6) && !BitAt(c, 7)
  {
    assert c / 2 / 2 / 2 / 2 / 2 / 2 == 0;
    assert !BitAt(c / 2, 0) && !BitAt(c / 2 / 2, 0);
    assert BitAt(c, 1) == BitAt(c / 2, 0) && BitAt(c, 2) == BitAt(c / 2, 1) == BitAt(c / 2 / 2, 0);
    Halves(c, 6);
    Halves(c, 7);
  }

  lemma Halves(c: nat, k: nat)
    requires c < 64 && k >= 6
    ensures !BitAt(c, k)
  {
    assert BitAt(c, k) == BitAt(c / 2, k - 1) == BitAt(c / 2 / 2, k - 2) == BitAt(c / 2 / 2 / 2, k - 3);
    assert BitAt(c / 2 / 2 / 2, k - 3) == BitAt(c / 2 / 2 / 2 / 2, k - 4) == BitAt(c / 2 / 2 / 2 / 2 / 2, k - 5);
    assert BitAt(c / 2 / 2 / 2 / 2 / 2, k - 5) == BitAt(0, k - 6);
    ZeroHasNone(k - 6);
  }

  // ---- The patterns of a territory and two codesets ----

  /** Numbers that are no patterns are skipped. */
  lemma {:induction false} SkipTo(mask: nat, top: nat, next: nat)
    requires next <= top && forall c: nat :: next < c <= top ==> !Chosen(c, mask)
    ensures Generalisations(mask, top) == Generalisations(mask, next)
    decreases top
  {
    hide Chosen;
    if next < top { SkipTo(mask, top - 1, next); }
  }

  /** The bits of the numbers below 64. */
  lemma SixBits(c: nat, k: nat)
    requires c < 64
    ensures BitAt(c, k) <==> match k
                             case 0 => c % 2 == 1
                             case 1 => c / 2 % 2 == 1
                             case 2 => c / 4 % 2 == 1
                             case 3 => c / 8 % 2 == 1
                             case 4 => c / 16 % 2 == 1
                             case 5 => c / 32 % 2 == 1
                             case _ => false
  {
    if k >= 6 {
      Halves(c, k);
    } else if k >= 3 {
      assert BitAt(c, k) == BitAt(c / 2, k - 1) == BitAt(c / 2 / 2, k - 2) == BitAt(c / 8, k - 3);
      LowBits(c / 8, k - 3);
      assert c / 8 / 2 == c / 16 && c / 8 / 4 == c / 32;
    } else {
      LowBits(c, k);
    }
  }

  lemma LowBits(c: nat, k: nat)
    requires k < 3
    ensures BitAt(c, k) <==> (if k == 0 then c else if k == 1 then c / 2 else c / 4) % 2 == 1
  {
    assert k > 0 ==> BitAt(c, k) == BitAt(c / 2, k - 1);
    assert k > 1 ==> BitAt(c / 2, k - 1) == BitAt(c / 4, k - 2);
  }

  lemma CoveredBy56(c: nat)
    requires c < 64
    ensures Covered(c, 56) <==> c % 8 == 0
  {
    SixBits(c, 0);
    SixBits(c, 1);
    SixBits(c, 2);
    SixBits(56, 0);
    SixBits(56, 1);
    SixBits(56, 2);
    hide BitAt;
    if c % 8 == 0 {
      forall k: nat | BitAt(c, k) ensures BitAt(56, k) {
        SixBits(c, k);
        SixBits(56, k);
      }
    }
  }

  /** Territory, codeset and normalized codeset, in every combination but that with both codesets. */
  lemma OnlyEights(c: nat)
    requires c < 56
    ensures Chosen(c, 56) <==> c % 8 == 0 && c != 24
  {
    HasSpecific(c);
    WithinByBits(c, 56);
    CoveredBy56(c);
    SixBits(c, 3);
    SixBits(c, 4);
    SixBits(c, 0);
    SixBits(c, 1);
    SixBits(c, 2);
    SixBits(c, 6);
    hide Has, Within, BitAt, Covered;
  }

  /** A pattern, and the next one below it. */
  lemma NextPattern(top: nat, next: nat)
    requires next < top < 56 && top % 8 == 0 && top != 24
    requires forall c: nat :: next < c < top ==> c % 8 != 0 || c == 24
    ensures Generalisations(56, top) == [top] + Generalisations(56, next)
  {
    OnlyEights(top);
    assert Generalisations(56, top) == [top] + Generalisations(56, top - 1);
    forall c: nat | next < c <= top - 1 ensures !Chosen(c, 56) { OnlyEights(c); }
    hide Chosen;
    SkipTo(56, top - 1, next);
  }

  lemma Ends()
    ensures Generalisations(56, 55) == Generalisations(56, 48) && Generalisations(56, 0) == [0]
  {
    forall c: nat | 48 < c <= 55 ensures !Chosen(c, 56) { OnlyEights(c); }
    OnlyEights(0);
    hide Chosen;
    SkipTo(56, 55, 48);
    LastPattern();
  }

  lemma LastPattern()
    requires Chosen(0, 56)
    ensures Generalisations(56, 0) == [0]
  {
    hide Chosen;
  }

  lemma PatternsOf56()
    ensures Generalisations(56, 55) == [48, 40, 32, 16, 8, 0]
  {
    hide Chosen, Generalisations;
    Ends();
    NextPattern(48, 40);
    NextPattern(40, 32);
    NextPattern(32, 16);
    NextPattern(16, 8);
    NextPattern(8, 0);
  }

  // ---- The successors of a name ----

  /** The mask of a name in XPG syntax with territory and codeset. */
  lemma MaskOfName(p: Pieces)
    requires !p.at && p.modifier.None? && p.special.None? && p.sponsor.None? && p.revision.None?
    requires p.territory.GetOr("") != "" && p.codeset.GetOr("") != ""
    requires Codesets.Normalized(p.codeset.value) != p.codeset.value
    ensures MaskOf(p) == 56
  {
    hide Codesets.Normalized;
  }

  lemma NamesOfPatterns(dirs: seq<CString>, gs: seq<nat>, l: Locale, filename: CString)
    requires |dirs| <= 1
    ensures |NamesFor(dirs, gs, l, filename)| == |gs|
    ensures forall i :: 0 <= i < |gs| ==> NamesFor(dirs, gs, l, filename)[i] == FileName(dirs, gs[i], l, filename)
    decreases gs
  {
    hide FileName;
    if gs != [] { NamesOfPatterns(dirs, gs[1..], l, filename); }
  }

  /** A locale with territory and a codeset that is not in normal form, as de_DE.UTF-8: its files are looked for under
      these names, in this order. */
  lemma SuccessorsOfName(p: Pieces, normalized: CString, dir: CString, filename: CString)
    requires NulFree(p) && '\0' !in p.language && !Absolute(p.language)
    requires !p.at && p.modifier.None? && p.special.None? && p.sponsor.None? && p.revision.None?
    requires p.territory.GetOr("") != "" && p.codeset.GetOr("") != ""
    requires Codesets.Normalized(p.codeset.value) == normalized != p.codeset.value
    ensures var (lang, terr, codeset) := (p.language, "_" + p.territory.value, "." + p.codeset.value);
            var (before, norm, after) := (dir + "/", "." + normalized, "/" + filename);
            SuccessorNames(EffectiveDirs([dir], LocaleOf(p, normalized)), MaskOf(p), LocaleOf(p, normalized), filename)
            == [before + (lang + terr + codeset) + after,
                before + (lang + terr + norm) + after,
                before + (lang + terr) + after,
                before + (lang + codeset) + after,
                before + (lang + norm) + after,
                before + lang + after]
  {
    assert p.territory.Some? && p.codeset.Some?;
    hide *;
    var l, gs := LocaleOf(p, normalized), [48, 40, 32, 16, 8, 0];
    MaskOfName(p);
    PatternsOf56();
    OneDirectory(p, normalized, dir, filename);
    SixNames(dir, l, filename);
    PiecesOf(p, normalized);
  }

  lemma SixNames(dir: CString, l: Locale, filename: CString)
    ensures var (lang, terr, codeset) := (l.language, With('_', l.territory), With('.', l.codeset));
            var (before, norm, after) := (dir + "/", With('.', l.normalizedCodeset), "/" + filename);
            NamesFor([dir], [48, 40, 32, 16, 8, 0], l, filename)
            == [before + (lang + terr + codeset) + after,
                before + (lang + terr + norm) + after,
                before + (lang + terr) + after,
                before + (lang + codeset) + after,
                before + (lang + norm) + after,
                before + lang + after]
  {
    hide *;
    var gs := [48, 40, 32, 16, 8, 0];
    NamesOfPatterns([dir], gs, l, filename);
    PatternTexts(l);
    forall i | 0 <= i < 6
      ensures NamesFor([dir], gs, l, filename)[i] == (dir + "/") + LocalePart(gs[i], l) + ("/" + filename)
    {
      WholeName(dir, gs[i], l, filename);
    }
  }

  lemma OneDirectory(p: Pieces, normalized: CString, dir: CString, filename: CString)
    requires NulFree(p) && '\0' !in p.language && !Absolute(p.language)
    ensures SuccessorNames(EffectiveDirs([dir], LocaleOf(p, normalized)), 56, LocaleOf(p, normalized), filename)
            == NamesFor([dir], Generalisations(56, 55), LocaleOf(p, normalized), filename)
  {
    hide NamesFor, Generalisations;
  }

  lemma PiecesOf(p: Pieces, normalized: CString)
    requires NulFree(p) && '\0' !in p.language && p.territory.Some? && p.codeset.Some?
    ensures var l := LocaleOf(p, normalized);
            && l.language == p.language && With('_', l.territory) == "_" + p.territory.value
            && With('.', l.codeset) == "." + p.codeset.value && With('.', l.normalizedCodeset) == "." + normalized
  {
  }

  lemma WholeName(dir: CString, c: nat, l: Locale, filename: CString)
    ensures FileName([dir], c, l, filename) == (dir + "/") + LocalePart(c, l) + ("/" + filename)
  {
    hide LocalePart;
  }

  predicate Absolute(s: string) {
    s != "" && s[0] == '/'
  }

  // ---- Several directories ----

  lemma {:induction false} DirNamesAt(dirs: seq<CString>, c: nat, l: Locale, filename: CString, j: nat)
    requires j < |dirs|
    ensures |DirNames(dirs, c, l, filename)| == |dirs|
    ensures DirNames(dirs, c, l, filename)[j] == FileName([dirs[j]], c, l, filename)
  {
    hide FileName;
    DirNamesLength(dirs, c, l, filename);
    if j > 0 { DirNamesAt(dirs[1..], c, l, filename, j - 1); }
  }

  lemma {:induction false} NamesAt(dirs: seq<CString>, gs: seq<nat>, l: Locale, filename: CString, i: nat, j: nat)
    requires |dirs| > 1 && i < |gs| && j < |dirs|
    ensures var names, at := NamesFor(dirs, gs, l, filename), i * |dirs| + j;
            0 <= at < |names| && names[at] == FileName([dirs[j]], gs[i], l, filename)
    decreases gs
  {
    hide FileName, DirNames;
    var first, others := DirNames(dirs, gs[0], l, filename), NamesFor(dirs, gs[1..], l, filename);
    assert NamesFor(dirs, gs, l, filename) == first + others;
    DirNamesAt(dirs, gs[0], l, filename, j);
    if i > 0 {
      NamesAt(dirs, gs[1..], l, filename, i - 1, j);
      assert i * |dirs| + j == |dirs| + ((i - 1) * |dirs| + j);
    }
  }

  /** With several directories, the whole name is tried as well, and each name in every directory before the next one. */
  lemma SuccessorsOfDirs(dirs: seq<CString>, mask: nat, l: Locale, filename: CString, i: nat, j: nat)
    requires |dirs| > 1 && i < |Generalisations(mask, mask)| && j < |dirs|
    ensures var names, at := SuccessorNames(dirs, mask, l, filename), i * |dirs| + j;
            0 <= at < |names| && names[at] == FileName([dirs[j]], Generalisations(mask, mask)[i], l, filename)
  {
    hide NamesFor, Generalisations, FileName;
    NamesAt(dirs, Generalisations(mask, mask), l, filename, i, j);
  }

  // ---- Files of the pool ----

  /** A finished file inherits from the files with these names, and is decided on beforehand if it is never looked up. */
  lemma BuiltMeans(n: L10nFile, list: seq<L10nFile>, l: Locale, filename: CString)
    requires Built(n, list, l, filename)
    ensures var names := SuccessorNames(n.dirs, n.mask, l, filename);
            |n.successor| == |names|
            && forall i :: 0 <= i < |names| ==> n.successor[i] in list && n.successor[i].filename == names[i]
    ensures n.filename == FileName(n.dirs, n.mask, l, filename)
    ensures n.decided <==> |n.dirs| > 1 || (BitAt(n.mask, 3) && BitAt(n.mask, 4))
  {
    LookedUpByBits(n.dirs, n.mask);
    hide FileName, SuccessorNames, BitAt, NotAFile;
  }

  lemma FewBits()
    ensures BitCount(0) == 0 && BitCount(1) == 1 && Pow2(0) == 1 && Pow2(1) == 2
  {
  }

  lemma OnlyZero(mask: nat)
    ensures Generalisations(mask, 0) == [0]
  {
    assert Chosen(0, mask) by { NothingChosen(mask); }
    hide Chosen;
  }

  lemma NothingChosen(mask: nat)
    ensures Chosen(0, mask)
  {
    hide And;
    NoBitsOfZero();
  }

  lemma NoBitsOfZero()
    ensures forall bits: nat :: And(0, bits) == 0
  {
  }

  /** The array of successors can be full: with two directories and no pieces, and with one directory and one piece. */
  lemma SlotsAreTight(a: CString, b: CString, l: Locale, filename: CString)
    ensures |SuccessorNames([a, b], 0, l, filename)| + 1 == Slots([a, b], 0)
    ensures |SuccessorNames([a], 1, l, filename)| + 1 == Slots([a], 1)
  {
    hide FileName, Pop, Generalisations, BitCount, NamesFor;
    PopCounts(0);
    PopCounts(1);
    FewBits();
    OnlyZero(0);
    OnlyZero(1);
    NamesForLength([a, b], [0], l, filename);
    NamesForLength([a], [0], l, filename);
  }
}
