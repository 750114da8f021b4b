/** Relocation of installed files: relocatable.c with its Unix macros. */
module Relocatable {
  import opened Wrappers

  /** The directory part of a path name: what is before the last slash. */
  function DirPart(path: string): (d: string)
    ensures |d| <= |path| && d == path[..|d|]
    ensures if '/' in path then |d| < |path| && path[|d|] == '/' && '/' !in path[|d| + 1..] else d == ""
  {
    if path == "" then ""
    else
      var n := |path| - 1;
      assert path == path[..n] + [path[n]];
      if path[n] == '/' then path[..n] else DirPart(path[..n])
  }

  /** The installation directory is the prefix followed by a relative part, and now it is the
      new prefix followed by the same part. */
  predicate Moved(origPrefix: string, origDir: string, currDir: string, currPrefix: string) {
    && origPrefix <= origDir
    && var rel := origDir[|origPrefix|..];
    && (rel == "" || rel[0] == '/')
    && currDir == currPrefix + rel
  }

  /** That is: both directories end in the same part, which is empty or begins with a slash. */
  lemma MovedExactly(origPrefix: string, origDir: string, currDir: string, currPrefix: string)
    ensures Moved(origPrefix, origDir, currDir, currPrefix)
            <==> exists rel :: SamePart(origPrefix, origDir, currDir, currPrefix, rel)
  {
    if Moved(origPrefix, origDir, currDir, currPrefix) {
      assert SamePart(origPrefix, origDir, currDir, currPrefix, origDir[|origPrefix|..]);
    }
    if exists rel :: SamePart(origPrefix, origDir, currDir, currPrefix, rel) {
      var rel :| SamePart(origPrefix, origDir, currDir, currPrefix, rel);
      assert origDir[|origPrefix|..] == rel;
    }
  }

  predicate SamePart(origPrefix: string, origDir: string, currDir: string, currPrefix: string, rel: string) {
    (rel == "" || rel[0] == '/') && origDir == origPrefix + rel && currDir == currPrefix + rel
  }

  /** The loop that looks for the last slash. */
  method CurrentDir(path: string) returns (dir: string)
    ensures dir == DirPart(path)
  {
    var p: nat := |path|;
    assert path[..p] == path;
    while p > 0
      invariant p <= |path| && DirPart(path[..p]) == DirPart(path)
      decreases p
    {
      assert path[..p][..p - 1] == path[..p - 1] && path[..p][p - 1] == path[p - 1];
      p := p - 1;
      if path[p] == '/' {
        return path[..p];
      }
    }
    dir := path[..p];
  }

  /** rel[..rp] stands at the end of dir[..cp]. */
  predicate EndsWith(dir: string, cp: nat, rel: string, rp: nat)
    requires cp <= |dir| && rp <= |rel|
  {
    rp <= cp && forall k :: 0 <= k < rp ==> rel[k] == dir[cp - rp + k]
  }

  /** The inner loop: compares the last components, each with the slash before it. */
  method SameComponent(rel: string, rp: nat, dir: string, cp: nat) returns (same: bool, rpi: nat, cpi: nat)
    requires 0 < rp <= |rel| && 0 < cp <= |dir|
    ensures same ==> rpi < rp && cpi < cp && rp - rpi == cp - cpi && rel[rpi..rp] == dir[cpi..cp] && rel[rpi] == '/'
    ensures !same ==> rel[0] != '/' || !EndsWith(dir, cp, rel, rp)
  {
    hide EndsWith;
    same, rpi, cpi := false, rp, cp;
    TooShort(dir, cp, rel, rp);
    while rpi > 0 && cpi > 0
      invariant rpi <= rp && cpi <= cp && rp - rpi == cp - cpi && rel[rpi..rp] == dir[cpi..cp]
      invariant forall k :: rpi <= k < rp ==> rel[k] != '/'
      decreases rpi
    {
      OneMoreSame(rel, rpi, rp, dir, cpi, cp);
      rpi, cpi := rpi - 1, cpi - 1;
      Differs(dir, cp, rel, rp, rpi, cpi);
      if rel[rpi] == '/' || dir[cpi] == '/' {
        same := rel[rpi] == '/' && dir[cpi] == '/';
        break;
      }
      if rel[rpi] != dir[cpi] {
        break;
      }
    }
  }

  lemma Differs(dir: string, cp: nat, rel: string, rp: nat, rpi: nat, cpi: nat)
    requires cp <= |dir| && rpi < rp <= |rel| && cpi < cp && rp - rpi == cp - cpi
    ensures EndsWith(dir, cp, rel, rp) ==> rel[rpi] == dir[cpi]
  {
  }

  lemma TooShort(dir: string, cp: nat, rel: string, rp: nat)
    requires cp <= |dir| && rp <= |rel|
    ensures cp < rp ==> !EndsWith(dir, cp, rel, rp)
  {
  }

  lemma OneMoreSame(rel: string, rpi: nat, rp: nat, dir: string, cpi: nat, cp: nat)
    requires 0 < rpi <= rp <= |rel| && 0 < cpi <= cp <= |dir| && rel[rpi..rp] == dir[cpi..cp]
    ensures rel[rpi - 1] == dir[cpi - 1] ==> rel[rpi - 1..rp] == dir[cpi - 1..cp]
  {
    assert rel[rpi - 1..rp] == [rel[rpi - 1]] + rel[rpi..rp];
    assert dir[cpi - 1..cp] == [dir[cpi - 1]] + dir[cpi..cp];
  }

  /** The outer loop: takes equal components away from both ends. */
  method TakeAway(rel: string, dir: string) returns (rp: nat, cp: nat)
    ensures rp <= |rel| && cp <= |dir|
    ensures rp == 0 ==> dir == dir[..cp] + rel && (rel == "" || rel[0] == '/')
    ensures rp > 0 ==> rel[0] != '/' || !EndsWith(dir, |dir|, rel, |rel|)
  {
    rp, cp := |rel|, |dir|;
    while rp > 0 && cp > 0
      invariant rp <= |rel| && cp <= |dir| && rel[rp..] == dir[cp..] && (rp < |rel| ==> rel[rp] == '/')
      decreases rp
    {
      var same, rpi, cpi := SameComponent(rel, rp, dir, cp);
      if !same {
        if EndsWith(dir, |dir|, rel, |rel|) { EndsShorter(rel, rp, dir, cp); }
        return;
      }
      assert rel[rpi..] == rel[rpi..rp] + rel[rp..] && dir[cpi..] == dir[cpi..cp] + dir[cp..];
      rp, cp := rpi, cpi;
    }
    if rp == 0 {
      assert rel[0..] == rel;
    }
  }

  lemma EndsShorter(rel: string, rp: nat, dir: string, cp: nat)
    requires rp <= |rel| && cp <= |dir| && rel[rp..] == dir[cp..] && EndsWith(dir, |dir|, rel, |rel|)
    ensures EndsWith(dir, cp, rel, rp)
  {
  }

  lemma MovedEnds(origPrefix: string, origDir: string, dir: string, p: string)
    requires origPrefix <= origDir
    ensures Moved(origPrefix, origDir, dir, p) ==>
              var rel := origDir[|origPrefix|..]; EndsWith(dir, |dir|, rel, |rel|)
  {
  }

  /** compute_curr_prefix: finds the prefix exactly if the current directory ends with the
      relative part of the original one. */
  method ComputeCurrPrefix(origPrefix: string, origDir: string, currPath: Option<string>) returns (r: Option<string>)
    ensures currPath.None? ==> r.None?
    ensures currPath.Some? ==>
              forall p :: r == Some(p) <==> Moved(origPrefix, origDir, DirPart(currPath.value), p)
  {
    if currPath.None? {
      return None;
    }
    if !(origPrefix <= origDir) {
      return None;
    }
    var rel := origDir[|origPrefix|..];
    var dir := CurrentDir(currPath.value);
    var rp, cp := TakeAway(rel, dir);
    if rp > 0 {
      forall p ensures !Moved(origPrefix, origDir, dir, p) {
        MovedEnds(origPrefix, origDir, dir, p);
      }
      return None;
    }
    r := Some(dir[..cp]);
    forall p | Moved(origPrefix, origDir, dir, p) ensures p == dir[..cp] {
      assert p == dir[..|dir| - |rel|];
    }
  }

  /** The path names that a prefix applies to. */
  predicate Under(path: string, prefix: string) {
    prefix <= path && (|path| == |prefix| || path[|prefix|] == '/')
  }

  /** What relocation does: it replaces the original prefix by the current one. */
  function Relocated(orig: string, curr: string, path: string): string {
    if Under(path, orig) then curr + path[|orig|..] else path
  }

  /** Relocating in the opposite direction gives the path name back. */
  lemma RelocatedBack(orig: string, curr: string, path: string)
    requires Under(path, orig)
    ensures Under(Relocated(orig, curr, path), curr)
    ensures Relocated(curr, orig, Relocated(orig, curr, path)) == path
  {
    var tail := path[|orig|..];
    assert path == orig + tail && (curr + tail)[|curr|..] == tail;
  }

  lemma RelocatedSame(prefix: string, path: string)
    ensures Relocated(prefix, prefix, path) == path
  {
  }

  /** The static variables of the module. */
  class Relocator {
    var origPrefix: Option<string>
    var currPrefix: Option<string>
    var initialized: bool

    /** The prefixes are both set or both unset. */
    predicate Valid()
      reads this
    {
      origPrefix.Some? <==> currPrefix.Some?
    }

    /** What relocate does to a path name once it is initialized. */
    function Result(path: string): string
      reads this
    {
      if origPrefix.Some? && currPrefix.Some? then Relocated(origPrefix.value, currPrefix.value, path) else path
    }

    constructor ()
      ensures Valid() && origPrefix.None? && !initialized
    {
      origPrefix, currPrefix, initialized := None, None, false;
    }

    /** set_this_relocation_prefix: equal prefixes are not stored. */
    method SetRelocationPrefix(orig: Option<string>, curr: Option<string>)
      modifies this`origPrefix, this`currPrefix
      ensures Valid()
      ensures forall path :: Result(path) == if orig.Some? && curr.Some? then Relocated(orig.value, curr.value, path)
                                             else path
      ensures currPrefix == if orig.Some? && curr.Some? && orig != curr then curr else None
    {
      if orig.Some? && curr.Some? && orig.value != curr.value {
        origPrefix, currPrefix := orig, curr;
      } else {
        origPrefix, currPrefix := None, None;
        if orig.Some? && orig == curr {
          forall path {
            RelocatedSame(orig.value, path);
          }
        }
      }
    }

    /** The first call of relocate: finds out where the library is now. */
    method Initialize(installPrefix: string, installDir: string, fullName: Option<string>)
      requires Valid()
      modifies this
      ensures Valid() && initialized
      ensures forall p :: fullName.Some? && Moved(installPrefix, installDir, DirPart(fullName.value), p) ==>
                forall path :: Result(path) == Relocated(installPrefix, p, path)
      ensures (fullName.None? || forall p :: !Moved(installPrefix, installDir, DirPart(fullName.value), p)) ==>
                forall path :: Result(path) == if old(currPrefix).Some?
                                               then Relocated(installPrefix, old(currPrefix).value, path) else path
    {
      var better := ComputeCurrPrefix(installPrefix, installDir, fullName);
      if better.None? {
        better := currPrefix;
      }
      SetRelocationPrefix(Some(installPrefix), better);
      initialized := true;
    }

    /** relocate */
    method Relocate(path: string, installPrefix: string, installDir: string, fullName: Option<string>)
      returns (r: string)
      requires Valid()
      modifies this
      ensures Valid() && initialized && r == Result(path)
      ensures old(initialized) ==> unchanged(this)
      ensures !old(initialized) ==>
                forall p :: fullName.Some? && Moved(installPrefix, installDir, DirPart(fullName.value), p) ==>
                  forall q :: Result(q) == Relocated(installPrefix, p, q)
      ensures !old(initialized)
              && (fullName.None? || forall p :: !Moved(installPrefix, installDir, DirPart(fullName.value), p)) ==>
                forall q :: Result(q) == if old(currPrefix).Some?
                                         then Relocated(installPrefix, old(currPrefix).value, q) else q
    {
      if !initialized {
        Initialize(installPrefix, installDir, fullName);
      }
      r := path;
      if origPrefix.Some? && currPrefix.Some? && origPrefix.value <= path {
        var n := |origPrefix.value|;
        if n == |path| {
          r := currPrefix.value;
        } else if path[n] == '/' {
          r := currPrefix.value + path[n..];
        }
      }
    }
  }

  /** Any sequence of calls in a program that sets no prefix itself: once the library has moved, every path name is
      relocated, and the directory that the library was to be installed in becomes the one it is in; otherwise every
      path name is left alone. */
  method RelocateAll(paths: seq<string>, installPrefix: string, installDir: string, fullName: Option<string>)
    returns (rs: seq<string>)
    ensures |rs| == |paths|
    ensures forall p, i ::
              fullName.Some? && Moved(installPrefix, installDir, DirPart(fullName.value), p) && 0 <= i < |paths| ==>
              && rs[i] == Relocated(installPrefix, p, paths[i])
              && (paths[i] == installDir ==> rs[i] == DirPart(fullName.value))
    ensures fullName.None? || (forall p :: !Moved(installPrefix, installDir, DirPart(fullName.value), p)) ==> rs == paths
  {
    hide Moved, Relocated;
    var relocator := new Relocator();
    rs := [];
    for k := 0 to |paths|
      invariant |rs| == k && relocator.Valid() && fresh(relocator) && (relocator.initialized <==> k > 0)
      invariant k == 0 ==> relocator.currPrefix.None?
      invariant k > 0 ==>
                  forall p :: fullName.Some? && Moved(installPrefix, installDir, DirPart(fullName.value), p) ==>
                    forall q :: relocator.Result(q) == Relocated(installPrefix, p, q)
      invariant k > 0 && (fullName.None? || forall p :: !Moved(installPrefix, installDir, DirPart(fullName.value), p)) ==>
                  forall q :: relocator.Result(q) == q
      invariant forall i :: 0 <= i < k ==> rs[i] == relocator.Result(paths[i])
    {
      var r := relocator.Relocate(paths[k], installPrefix, installDir, fullName);
      rs := rs + [r];
    }
    forall p | fullName.Some? && Moved(installPrefix, installDir, DirPart(fullName.value), p)
      ensures Relocated(installPrefix, p, installDir) == DirPart(fullName.value)
    {
      MovedDir(installPrefix, installDir, DirPart(fullName.value), p);
    }
  }

  lemma MovedDir(origPrefix: string, origDir: string, currDir: string, currPrefix: string)
    requires Moved(origPrefix, origDir, currDir, currPrefix)
    ensures Relocated(origPrefix, currPrefix, origDir) == currDir
  {
  }

  /** A prefix applies to itself and to what lies behind a slash, and only the prefix is replaced. */
  lemma RelocatedMeans(orig: string, curr: string, rest: string)
    ensures Relocated(orig, curr, orig) == curr
    ensures Relocated(orig, curr, orig + ("/" + rest)) == curr + ("/" + rest)
  {
    var path := orig + ("/" + rest);
    assert path[|orig|..] == "/" + rest && path[..|orig|] == orig;
  }

  lemma OthersStay(orig: string, curr: string, path: string)
    ensures path == orig || (exists rest :: path == orig + ("/" + rest)) || Relocated(orig, curr, path) == path
  {
    if path != orig && Under(path, orig) {
      assert path == orig + ("/" + path[|orig| + 1..]);
    }
  }
}
