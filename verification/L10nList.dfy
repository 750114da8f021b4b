/** The pool of locale-dependent files: each file with the more general files that it
    inherits from. */
module L10nList {
  import opened Bits
  import opened CStrings
  import opened L10nNames
  import opened Submasks
  import opened Wrappers
  import Argz

  // ---- Which generalisations a file has ----

  /** The bit patterns for which a successor is made: within the mask, not mixing CEN and
      XPG pieces, and with at most one form of the codeset. */
  predicate Chosen(cnt: nat, mask: nat) {
    && Within(cnt, mask)
    && (!Has(cnt, CEN_SPECIFIC) || !Has(cnt, XPG_SPECIFIC))
    && (!Has(cnt, XPG_CODESET) || !Has(cnt, XPG_NORM_CODESET))
  }

  /** The chosen patterns from top down. */
  function Generalisations(mask: nat, top: int): seq<nat>
    decreases top + 1
  {
    if top < 0 then []
    else (if Chosen(top, mask) then [top as nat] else []) + Generalisations(mask, top - 1)
  }

  lemma {:induction false} GeneralisationsExact(mask: nat, top: int)
    ensures var gs := Generalisations(mask, top);
            && (forall c: nat :: c in gs <==> c <= top && Chosen(c, mask))
            && (forall i, j :: 0 <= i < j < |gs| ==> gs[i] > gs[j])
    decreases top + 1
  {
    hide Chosen;
    if top >= 0 {
      GeneralisationsExact(mask, top - 1);
      var gs, rest := Generalisations(mask, top), Generalisations(mask, top - 1);
      assert forall i :: 0 <= i < |rest| ==> rest[i] in rest;
      if Chosen(top, mask) {
        assert gs == [top as nat] + rest;
      }
    }
  }

  /** IS_ABSOLUTE_PATH: an absolute language makes the directories irrelevant. */
  function EffectiveDirs(dirs: seq<CString>, l: Locale): seq<CString> {
    if l.language != "" && l.language[0] == '/' then [] else dirs
  }

  function DirCount(dirs: seq<CString>): nat {
    if dirs == [] then 1 else |dirs|
  }

  /** The first pattern that is tried: the whole mask only if there are several directories. */
  function Top(dirs: seq<CString>, mask: nat): int {
    if DirCount(dirs) > 1 then mask else mask - 1
  }

  /** The files for one pattern: one in each of several directories, or just one. */
  function DirNames(dirs: seq<CString>, cnt: nat, l: Locale, filename: CString): seq<string> {
    if dirs == [] then [] else [FileName([dirs[0]], cnt, l, filename)] + DirNames(dirs[1..], cnt, l, filename)
  }

  function PatternNames(dirs: seq<CString>, cnt: nat, l: Locale, filename: CString): seq<string> {
    if DirCount(dirs) > 1 then DirNames(dirs, cnt, l, filename) else [FileName(dirs, cnt, l, filename)]
  }

  function NamesFor(dirs: seq<CString>, patterns: seq<nat>, l: Locale, filename: CString): seq<string> {
    if patterns == [] then [] else PatternNames(dirs, patterns[0], l, filename) + NamesFor(dirs, patterns[1..], l, filename)
  }

  /** The successors of a file, in order. */
  function SuccessorNames(dirs: seq<CString>, mask: nat, l: Locale, filename: CString): seq<string> {
    NamesFor(dirs, Generalisations(mask, Top(dirs, mask)), l, filename)
  }

  /** The length of the array of successors that is allocated beyond its first element. */
  function Slots(dirs: seq<CString>, mask: nat): nat {
    DirCount(dirs) * Pow2(Pop(mask)) + if DirCount(dirs) > 1 then 1 else 0
  }

  /** Files that are never looked up: a list of directories is not a file, and neither is a
      name with both forms of the codeset. */
  predicate NotAFile(dirs: seq<CString>, mask: nat) {
    DirCount(dirs) > 1 || (Has(mask, XPG_CODESET) && Has(mask, XPG_NORM_CODESET))
  }

  // ---- The successors fit ----

  lemma {:induction false} DirNamesLength(dirs: seq<CString>, cnt: nat, l: Locale, filename: CString)
    ensures |DirNames(dirs, cnt, l, filename)| == |dirs|
  {
    hide FileName;
    if dirs != [] { DirNamesLength(dirs[1..], cnt, l, filename); }
  }

  lemma {:induction false} NamesForLength(dirs: seq<CString>, patterns: seq<nat>, l: Locale, filename: CString)
    ensures |NamesFor(dirs, patterns, l, filename)| == DirCount(dirs) * |patterns|
  {
    hide FileName;
    if patterns != [] {
      DirNamesLength(dirs, patterns[0], l, filename);
      NamesForLength(dirs, patterns[1..], l, filename);
      assert DirCount(dirs) * |patterns| == DirCount(dirs) + DirCount(dirs) * |patterns[1..]|;
    }
  }

  lemma {:induction false} FewGeneralisations(mask: nat, n: nat)
    ensures |Generalisations(mask, n - 1)| <= CountBelow(mask, n)
  {
    hide Has, Within;
    if n > 0 { FewGeneralisations(mask, n - 1); }
  }

  /** The successors and the NULL behind them fit. */
  lemma SuccessorsFit(dirs: seq<CString>, mask: nat, l: Locale, filename: CString)
    requires mask < 0x1_0000
    ensures |SuccessorNames(dirs, mask, l, filename)| + 1 <= Slots(dirs, mask)
  {
    hide NamesFor, Chosen, Within, Pop, Generalisations, BitCount;
    var gs := Generalisations(mask, Top(dirs, mask));
    NamesForLength(dirs, gs, l, filename);
    PopCounts(mask);
    CountSubmasks(mask, mask + 1);
    if DirCount(dirs) > 1 {
      FewGeneralisations(mask, mask + 1);
      Multiply(DirCount(dirs), |gs|, Pow2(Pop(mask)));
    } else {
      FewGeneralisations(mask, mask);
      WithinItself(mask);
    }
  }

  lemma Multiply(k: nat, a: nat, b: nat)
    requires a <= b
    ensures k * a <= k * b
  {
  }

  // ---- The pool ----

  /** struct loaded_l10nfile without its link; the NULL behind the successors is not stored. */
  class L10nFile {
    const filename: string
    const slots: nat
    var decided: bool
    var successor: seq<L10nFile>
    ghost const dirs: seq<CString>
    ghost const mask: nat

    constructor (filename: string, slots: nat, decided: bool, ghost dirs: seq<CString>, ghost mask: nat)
      ensures this.filename == filename && this.slots == slots && this.decided == decided && successor == []
      ensures this.dirs == dirs && this.mask == mask
    {
      this.filename, this.slots, this.decided, this.dirs, this.mask := filename, slots, decided, dirs, mask;
      successor := [];
    }

    /** Writes one entry; the next slot stays free for the NULL. */
    method AddSuccessor(f: L10nFile)
      requires |successor| + 1 < slots
      modifies this`successor
      ensures successor == old(successor) + [f]
    {
      successor := successor + [f];
    }
  }

  /** Strictly decreasing file names: no name occurs twice. */
  predicate Decreasing(list: seq<L10nFile>) {
    forall i, j :: 0 <= i < j < |list| ==> StrCmp(list[i].filename, list[j].filename) > 0
  }

  predicate HasName(list: seq<L10nFile>, name: string) {
    exists n :: n in list && n.filename == name
  }

  /** These successors are files of the list with these names. */
  predicate Follows(s: seq<L10nFile>, list: seq<L10nFile>, names: seq<string>) {
    |s| == |names| && forall i :: 0 <= i < |s| ==> s[i] in list && s[i].filename == names[i]
  }

  /** A finished file: its name, its successors and whether it is decided on are those of its
      directories and mask. */
  ghost predicate Built(n: L10nFile, list: seq<L10nFile>, l: Locale, filename: CString)
    reads n
  {
    && n.filename == FileName(n.dirs, n.mask, l, filename)
    && Follows(n.successor, list, SuccessorNames(n.dirs, n.mask, l, filename))
    && |n.successor| + 1 <= n.slots && n.decided == NotAFile(n.dirs, n.mask)
  }

  /** Every file of the list was there before, or is new and finished. */
  ghost predicate OldOrBuilt(before: seq<L10nFile>, list: seq<L10nFile>, l: Locale, filename: CString)
    reads set n | n in list && n !in before
  {
    forall n :: n in list && n !in before ==> Built(n, list, l, filename)
  }

  predicate Grows(before: seq<L10nFile>, list: seq<L10nFile>) {
    forall n :: n in before ==> n in list
  }

  /** Where a name stands or belongs in the list: everything before is larger, the rest is not. */
  predicate Splits(list: seq<L10nFile>, k: nat, name: string) {
    && k <= |list|
    && (forall j :: 0 <= j < k ==> StrCmp(list[j].filename, name) > 0)
    && (forall j :: k <= j < |list| ==> StrCmp(list[j].filename, name) < 0)
  }

  lemma SplitsAbsent(list: seq<L10nFile>, k: nat, name: string)
    requires Splits(list, k, name)
    ensures !HasName(list, name)
  {
  }

  lemma InsertDecreasing(list: seq<L10nFile>, k: nat, n: L10nFile)
    requires Decreasing(list) && Splits(list, k, n.filename)
    ensures Decreasing(list[..k] + [n] + list[k..])
    ensures forall f :: f in list[..k] + [n] + list[k..] <==> f == n || f in list
  {
    var r := list[..k] + [n] + list[k..];
    assert list == list[..k] + list[k..];
    forall i, j | 0 <= i < j < |r| ensures StrCmp(r[i].filename, r[j].filename) > 0 {
      StrCmpFlip(r[i].filename, r[j].filename);
    }
  }

  /** The search loop of _nl_make_l10nflist, with the place for a new file. */
  method Locate(list: seq<L10nFile>, name: string) returns (r: L10nFile?, k: nat)
    requires Decreasing(list)
    ensures r == null ==> Splits(list, k, name)
    ensures r != null ==> r in list && r.filename == name
  {
    k := 0;
    while k < |list|
      invariant k <= |list| && forall j :: 0 <= j < k ==> StrCmp(list[j].filename, name) > 0
    {
      var compare := StrCmp(list[k].filename, name);
      if compare == 0 {
        return list[k], k;
      }
      if compare < 0 {
        forall j | k <= j < |list| ensures StrCmp(list[j].filename, name) < 0 {
          if j > k {
            StrCmpFlip(list[k].filename, list[j].filename);
            StrCmpTransitive(list[j].filename, list[k].filename, name);
          }
        }
        return null, k;
      }
      k := k + 1;
    }
    r := null;
  }

  lemma FollowsGrows(s: seq<L10nFile>, list: seq<L10nFile>, list': seq<L10nFile>, names: seq<string>)
    requires Follows(s, list, names) && Grows(list, list')
    ensures Follows(s, list', names)
  {
  }

  /** What was finished stays finished while the list grows. */
  lemma OldOrBuiltTwice(b0: seq<L10nFile>, b1: seq<L10nFile>, b2: seq<L10nFile>, l: Locale, filename: CString)
    requires OldOrBuilt(b0, b1, l, filename) && OldOrBuilt(b1, b2, l, filename) && Grows(b1, b2)
    ensures OldOrBuilt(b0, b2, l, filename)
  {
    hide SuccessorNames, FileName, Follows, Grows;
    forall n | n in b2 && n !in b0 ensures Built(n, b2, l, filename) {
      if n in b1 {
        FollowsGrows(n.successor, b1, b2, SuccessorNames(n.dirs, n.mask, l, filename));
      }
    }
  }

  lemma NoDirNames(cnt: nat, l: Locale, filename: CString)
    ensures DirNames([], cnt, l, filename) == []
  {
  }

  lemma OneDirName(dirs: seq<CString>, j: nat, cnt: nat, l: Locale, filename: CString)
    requires j < |dirs|
    ensures DirNames(dirs[j..], cnt, l, filename)
            == [FileName([dirs[j]], cnt, l, filename)] + DirNames(dirs[j + 1..], cnt, l, filename)
  {
    hide FileName;
    assert dirs[j..][1..] == dirs[j + 1..];
  }

  class Pool {
    var list: seq<L10nFile>

    ghost predicate Valid()
      reads this
    {
      Decreasing(list)
    }

    constructor ()
      ensures Valid() && list == []
    {
      list := [];
    }

    /** _nl_make_l10nflist: the file of this name, made together with all that it inherits
        from if it does not exist yet. */
    method Make(dirlist: string, ghost dirs: seq<CString>, mask: nat, l: Locale, filename: CString, allocate: bool)
      returns (r: L10nFile?)
      requires Valid() && dirlist == Argz.Encode(dirs) && mask < 0x1_0000
      modifies this
      ensures Valid() && Grows(old(list), list) && OldOrBuilt(old(list), list, l, filename)
      ensures forall n :: n in list ==> n in old(list) || fresh(n)
      ensures var name := FileName(EffectiveDirs(dirs, l), mask, l, filename);
              && (r == null <==> !allocate && !HasName(old(list), name))
              && (r != null ==> r in list && r.filename == name)
              && (!allocate || HasName(old(list), name) ==> list == old(list))
              && (r != null && !HasName(old(list), name) ==> r.dirs == EffectiveDirs(dirs, l) && r.mask == mask && fresh(r))
      decreases if |dirs| > 1 then 1 else 0, mask, 7
    {
      hide FileName, Chosen, NamesFor, Pop, StrCmp;
      var dl := if l.language != "" && l.language[0] == '/' then "" else dirlist;
      ghost var ds := EffectiveDirs(dirs, l);
      var buf := BuildFileName(dl, ds, mask, l, filename);
      ghost var name := FileName(ds, mask, l, filename);
      var k: nat;
      assert buf[..buf.Length - 1] == name;
      r, k := Locate(list, buf[..buf.Length - 1]);
      if r == null {
        SplitsAbsent(list, k, name);
        if allocate {
          r := Create(k, buf[..buf.Length - 1], dl, ds, mask, l, filename);
        }
      }
    }

    /** Puts a new file into its place in the list. */
    method SpliceIn(k: nat, r: L10nFile)
      requires Valid() && Splits(list, k, r.filename)
      modifies this
      ensures Valid() && Grows(old(list), list) && r in list
      ensures forall n :: n in list ==> n == r || n in old(list)
    {
      hide StrCmp;
      InsertDecreasing(list, k, r);
      list := list[..k] + [r] + list[k..];
    }

    /** The allocation of a file, and the recursion that fills in its successors. */
    method Create(k: nat, name: string, dirlist: string, ghost dirs: seq<CString>, mask: nat, l: Locale, filename: CString)
      returns (r: L10nFile)
      requires Valid() && Splits(list, k, name) && name == FileName(dirs, mask, l, filename) && mask < 0x1_0000
      requires dirlist == Argz.Encode(dirs) && dirs == EffectiveDirs(dirs, l)
      modifies this
      ensures Valid() && Grows(old(list), list) && OldOrBuilt(old(list), list, l, filename)
      ensures forall n :: n in list ==> n in old(list) || fresh(n)
      ensures r in list && r.filename == name && r.dirs == dirs && r.mask == mask && fresh(r)
      decreases if |dirs| > 1 then 1 else 0, mask, 6
    {
      hide FileName, Has, NamesFor, Pop, StrCmp, Decreasing;
      var count := 1;
      if |dirlist| > 0 {
        count := Argz.Count(dirlist, dirs);
      }
      r := new L10nFile(name, count * Pow2(Pop(mask)) + if count > 1 then 1 else 0,
                        count > 1 || (Has(mask, XPG_CODESET) && Has(mask, XPG_NORM_CODESET)), dirs, mask);
      SpliceIn(k, r);
      FillSuccessors(r, dirlist, dirs, mask, count, l, filename);
    }

    /** The loop over the bit patterns. */
    method FillSuccessors(r: L10nFile, dirlist: string, ghost dirs: seq<CString>, mask: nat, count: nat,
                          l: Locale, filename: CString)
      requires Valid() && dirlist == Argz.Encode(dirs) && dirs == EffectiveDirs(dirs, l) && count == DirCount(dirs)
      requires r in list && r.dirs == dirs && r.mask == mask < 0x1_0000 && r.slots == Slots(dirs, mask)
      requires r.successor == [] && r.filename == FileName(dirs, mask, l, filename) && r.decided == NotAFile(dirs, mask)
      modifies this, r`successor
      ensures Valid() && Grows(old(list), list) && OldOrBuilt(old(list), list, l, filename)
      ensures forall n :: n in list ==> n in old(list) || fresh(n)
      ensures Built(r, list, l, filename)
      decreases if |dirs| > 1 then 1 else 0, mask, 5
    {
      hide FileName, Has, NamesFor, Pop, Chosen, Slots, Decreasing;
      var cnt: int := if count > 1 then mask else mask - 1;
      ghost var names := SuccessorNames(dirs, mask, l, filename);
      ghost var done: seq<string> := [];
      SuccessorsFit(dirs, mask, l, filename);
      while cnt >= 0
        invariant -1 <= cnt <= Top(dirs, mask)
        invariant Valid() && Grows(old(list), list) && OldOrBuilt(old(list), list, l, filename)
        invariant forall n :: n in list ==> n in old(list) || fresh(n)
        invariant Follows(r.successor, list, done)
        invariant done + NamesFor(dirs, Generalisations(mask, cnt), l, filename) == names
      {
        NamesForStep(dirs, mask, cnt, l, filename);
        if Chosen(cnt, mask) {
          ghost var was := list;
          FillPattern(r, dirlist, dirs, cnt, count, l, filename, done);
          OldOrBuiltTwice(old(list), was, list, l, filename);
          done := done + PatternNames(dirs, cnt, l, filename);
        }
        cnt := cnt - 1;
      }
      NoMoreNames(dirs, mask, l, filename);
    }

    /** The successors for one bit pattern: one in each of several directories, or just one. */
    method FillPattern(r: L10nFile, dirlist: string, ghost dirs: seq<CString>, cnt: nat, count: nat,
                       l: Locale, filename: CString, ghost done: seq<string>)
      requires Valid() && dirlist == Argz.Encode(dirs) && dirs == EffectiveDirs(dirs, l) && count == DirCount(dirs)
      requires r in list && cnt < 0x1_0000 && Follows(r.successor, list, done)
      requires |done| + |PatternNames(dirs, cnt, l, filename)| + 1 <= r.slots
      modifies this, r`successor
      ensures Valid() && Grows(old(list), list) && OldOrBuilt(old(list), list, l, filename)
      ensures forall n :: n in list ==> n in old(list) || fresh(n)
      ensures Follows(r.successor, list, done + PatternNames(dirs, cnt, l, filename))
      decreases if |dirs| > 1 then 1 else 0, cnt, if |dirs| > 1 then 4 else 9
    {
      hide FileName, Has, NamesFor, Decreasing;
      if count > 1 {
        FillDirs(r, dirlist, dirs, cnt, l, filename, done);
      } else {
        AddSuccessor(r, dirlist, dirs, cnt, l, filename, done);
      }
    }

    /** The loop over several directories. */
    method FillDirs(r: L10nFile, dirlist: string, ghost dirs: seq<CString>, cnt: nat,
                    l: Locale, filename: CString, ghost done: seq<string>)
      requires Valid() && dirlist == Argz.Encode(dirs) && dirs == EffectiveDirs(dirs, l) && |dirs| > 1
      requires r in list && cnt < 0x1_0000 && Follows(r.successor, list, done)
      requires |done| + |DirNames(dirs, cnt, l, filename)| + 1 <= r.slots
      modifies this, r`successor
      ensures Valid() && Grows(old(list), list) && OldOrBuilt(old(list), list, l, filename)
      ensures forall n :: n in list ==> n in old(list) || fresh(n)
      ensures Follows(r.successor, list, done + DirNames(dirs, cnt, l, filename))
      decreases 1, cnt, 3
    {
      hide FileName, DirNames, Decreasing, Argz.Encode, Argz.Offset, CStr, Built;
      ghost var j: nat, so: seq<string>, left := 0, done, DirNames(dirs, cnt, l, filename);
      ghost var all := done + left;
      var dir := Argz.Next(dirlist, None, dirs, 0);
      assert dirs[0..] == dirs;
      Argz.Starts(dirs);
      while dir.Some?
        invariant j <= |dirs| && (dir.Some? <==> j < |dirs|) && (dir.Some? ==> dir.value == Argz.Offset(dirs, j))
        invariant Valid() && Grows(old(list), list) && OldOrBuilt(old(list), list, l, filename)
        invariant forall n :: n in list ==> n in old(list) || fresh(n)
        invariant Follows(r.successor, list, so) && so + left == all && left == DirNames(dirs[j..], cnt, l, filename)
        decreases |dirs| - j
      {
        Argz.AtElement(dirs, j);
        OneDirName(dirs, j, cnt, l, filename);
        ghost var was := list;
        ghost var name, rest := FileName([dirs[j]], cnt, l, filename), DirNames(dirs[j + 1..], cnt, l, filename);
        assert so + ([name] + rest) == (so + [name]) + rest;
        Argz.EncodeOne(dirs[j]);
        AddSuccessor(r, CStr(dirlist[dir.value..]) + "\0", [dirs[j]], cnt, l, filename, so);
        OldOrBuiltTwice(old(list), was, list, l, filename);
        so, left := so + [name], rest;
        dir := Argz.Next(dirlist, dir, dirs, j);
        j := j + 1;
      }
      NoDirNames(cnt, l, filename);
      assert dirs[j..] == [] && so + left == so;
    }

    /** One recursive call, whose result becomes the next successor. */
    method AddSuccessor(r: L10nFile, dirlist: string, ghost dirs: seq<CString>, cnt: nat,
                        l: Locale, filename: CString, ghost done: seq<string>)
      requires Valid() && dirlist == Argz.Encode(dirs) && dirs == EffectiveDirs(dirs, l)
      requires r in list && cnt < 0x1_0000 && Follows(r.successor, list, done) && |done| + 1 < r.slots
      modifies this, r`successor
      ensures Valid() && Grows(old(list), list) && OldOrBuilt(old(list), list, l, filename)
      ensures forall n :: n in list ==> n in old(list) || fresh(n)
      ensures Follows(r.successor, list, done + [FileName(dirs, cnt, l, filename)])
      decreases if |dirs| > 1 then 1 else 0, cnt, 8
    {
      hide FileName, Has, NamesFor, Decreasing;
      ghost var was := list;
      var f := Make(dirlist, dirs, cnt, l, filename, true);
      FollowsGrows(r.successor, was, list, done);
      r.AddSuccessor(f);
    }
  }

  lemma NamesForStep(dirs: seq<CString>, mask: nat, cnt: nat, l: Locale, filename: CString)
    ensures NamesFor(dirs, Generalisations(mask, cnt), l, filename)
            == (if Chosen(cnt, mask) then PatternNames(dirs, cnt, l, filename) else [])
               + NamesFor(dirs, Generalisations(mask, cnt - 1), l, filename)
  {
    hide Chosen, FileName, PatternNames;
    var gs := Generalisations(mask, cnt - 1);
    if Chosen(cnt, mask) {
      assert ([cnt] + gs)[1..] == gs;
    } else {
      assert [] + gs == gs;
    }
  }

  lemma NoMoreNames(dirs: seq<CString>, mask: nat, l: Locale, filename: CString)
    ensures NamesFor(dirs, Generalisations(mask, -1), l, filename) == []
  {
  }

  /** A name leads to one file only, so that a repeated call returns the same file. */
  lemma SameNameSameFile(list: seq<L10nFile>, a: L10nFile, b: L10nFile)
    requires Decreasing(list) && a in list && b in list && a.filename == b.filename
    ensures a == b
  {
    var i :| 0 <= i < |list| && list[i] == a;
    var j :| 0 <= j < |list| && list[j] == b;
    StrCmpFlip(a.filename, b.filename);
    assert i == j;
  }
}
