/** The file names of locale-dependent files: their pieces, and the buffer they are built in. */
module L10nNames {
  import opened Bits
  import opened CStrings
  import Argz

  const CEN_REVISION: nat := 1
  const CEN_SPONSOR: nat := 2
  const CEN_SPECIAL: nat := 4
  const XPG_NORM_CODESET: nat := 8
  const XPG_CODESET: nat := 16
  const TERRITORY: nat := 32
  const CEN_AUDIENCE: nat := 64
  const XPG_MODIFIER: nat := 128
  const CEN_SPECIFIC: nat := 71
  const XPG_SPECIFIC: nat := 152

  /** (mask & bits) != 0 */
  predicate Has(mask: nat, bits: nat) {
    And(mask, bits) != 0
  }

  /** The pieces of a locale name; a piece whose bit is not in the mask is not looked at. */
  datatype Locale = Locale(language: CString, territory: CString, codeset: CString, normalizedCodeset: CString,
                           modifier: CString, special: CString, sponsor: CString, revision: CString)

  function Part(on: bool, sep: char, s: CString): string {
    if on then [sep] + s else ""
  }

  /** Directories, joined by colons, and a slash. */
  function DirPart(dirs: seq<CString>): string {
    if dirs == [] then "" else Argz.Join(dirs, ':') + "/"
  }

  function CodesetParts(mask: nat, l: Locale): string {
    Part(Has(mask, TERRITORY), '_', l.territory)
    + Part(Has(mask, XPG_CODESET), '.', l.codeset)
    + Part(Has(mask, XPG_NORM_CODESET), '.', l.normalizedCodeset)
  }

  function ModifierParts(mask: nat, l: Locale): string {
    Part(Has(mask, XPG_MODIFIER + CEN_AUDIENCE), if Has(mask, CEN_AUDIENCE) then '+' else '@', l.modifier)
    + Part(Has(mask, CEN_SPECIAL), '+', l.special)
  }

  function SponsorParts(mask: nat, l: Locale): string {
    if Has(mask, CEN_SPONSOR + CEN_REVISION)
    then "," + (if Has(mask, CEN_SPONSOR) then l.sponsor else "") + Part(Has(mask, CEN_REVISION), '_', l.revision)
    else ""
  }

  function LocalePart(mask: nat, l: Locale): string {
    l.language + CodesetParts(mask, l) + ModifierParts(mask, l) + SponsorParts(mask, l)
  }

  /** The name of a locale's file, as the buffer of _nl_make_l10nflist comes to hold it. */
  function FileName(dirs: seq<CString>, mask: nat, l: Locale, filename: CString): string {
    DirPart(dirs) + LocalePart(mask, l) + "/" + filename
  }

  /** The size of the buffer. */
  function FileNameSize(dirlistLen: nat, mask: nat, l: Locale, filename: CString): nat {
    dirlistLen
    + |l.language|
    + (if Has(mask, TERRITORY) then |l.territory| + 1 else 0)
    + (if Has(mask, XPG_CODESET) then |l.codeset| + 1 else 0)
    + (if Has(mask, XPG_NORM_CODESET) then |l.normalizedCodeset| + 1 else 0)
    + (if Has(mask, XPG_MODIFIER) || Has(mask, CEN_AUDIENCE) then |l.modifier| + 1 else 0)
    + (if Has(mask, CEN_SPECIAL) then |l.special| + 1 else 0)
    + (if Has(mask, CEN_SPONSOR) || Has(mask, CEN_REVISION)
       then 1 + (if Has(mask, CEN_SPONSOR) then |l.sponsor| else 0)
              + (if Has(mask, CEN_REVISION) then |l.revision| + 1 else 0)
       else 0)
    + 1 + |filename| + 1
  }

  /** Testing two bits at once. */
  lemma {:induction false} HasEither(mask: nat)
    ensures Has(mask, XPG_MODIFIER + CEN_AUDIENCE) <==> Has(mask, XPG_MODIFIER) || Has(mask, CEN_AUDIENCE)
    ensures Has(mask, CEN_SPONSOR + CEN_REVISION) <==> Has(mask, CEN_SPONSOR) || Has(mask, CEN_REVISION)
  {
    var m := mask;
    AndDistributes(m, 128, 64);
    AndDistributes(m, 2, 1);
  }

  /** Bits that two patterns do not share are tested independently. */
  lemma {:induction false} AndDistributes(x: nat, a: nat, b: nat)
    requires And(a, b) == 0
    ensures And(x, a + b) == And(x, a) + And(x, b)
    decreases x
  {
    if x > 0 && a + b > 0 {
      var a0, b0 := a % 2, b % 2;
      assert !(a0 == 1 && b0 == 1);
      assert (a + b) / 2 == a / 2 + b / 2 && (a + b) % 2 == a0 + b0;
      AndDistributes(x / 2, a / 2, b / 2);
    }
  }

  lemma JoinLength(dirs: seq<CString>)
    requires dirs != []
    ensures |Argz.Join(dirs, ':')| + 1 == |Argz.Encode(dirs)|
  {
    if |dirs| > 1 { JoinLength(dirs[1..]); }
  }

  lemma PartLengths(mask: nat, l: Locale)
    ensures |CodesetParts(mask, l)|
            == (if Has(mask, TERRITORY) then |l.territory| + 1 else 0)
               + (if Has(mask, XPG_CODESET) then |l.codeset| + 1 else 0)
               + (if Has(mask, XPG_NORM_CODESET) then |l.normalizedCodeset| + 1 else 0)
    ensures |ModifierParts(mask, l)|
            == (if Has(mask, XPG_MODIFIER) || Has(mask, CEN_AUDIENCE) then |l.modifier| + 1 else 0)
               + (if Has(mask, CEN_SPECIAL) then |l.special| + 1 else 0)
    ensures |SponsorParts(mask, l)|
            == if Has(mask, CEN_SPONSOR) || Has(mask, CEN_REVISION)
               then 1 + (if Has(mask, CEN_SPONSOR) then |l.sponsor| else 0)
                      + (if Has(mask, CEN_REVISION) then |l.revision| + 1 else 0)
               else 0
  {
    hide Has;
    HasEither(mask);
  }

  /** The buffer is exactly as long as the name and its NUL. */
  lemma SizeIsExact(dirs: seq<CString>, mask: nat, l: Locale, filename: CString)
    ensures FileNameSize(|Argz.Encode(dirs)|, mask, l, filename) == |FileName(dirs, mask, l, filename)| + 1
  {
    hide Has, CodesetParts, ModifierParts, SponsorParts, DirPart, FileName;
    PartLengths(mask, l);
    NameLength(dirs, mask, l, filename);
    DirPartLength(dirs);
  }

  lemma NameLength(dirs: seq<CString>, mask: nat, l: Locale, filename: CString)
    ensures |FileName(dirs, mask, l, filename)|
            == |DirPart(dirs)| + |l.language| + |CodesetParts(mask, l)| + |ModifierParts(mask, l)|
               + |SponsorParts(mask, l)| + 1 + |filename|
  {
    hide Has, CodesetParts, ModifierParts, SponsorParts, DirPart;
  }

  lemma DirPartLength(dirs: seq<CString>)
    ensures |DirPart(dirs)| == |Argz.Encode(dirs)|
  {
    if dirs != [] { JoinLength(dirs); }
  }

  /** Directories are joined by colons, and the last is followed by a slash. */
  lemma TwoDirectories(a: CString, b: CString)
    ensures DirPart([a]) == a + "/" && DirPart([a, b]) == a + ":" + b + "/"
  {
    assert [a, b][1..] == [b];
    assert Argz.Join([a, b], ':') == a + ([':'] + Argz.Join([b], ':'));
    assert a + ([':'] + b) + "/" == a + ":" + b + "/";
  }

  // ---- Filling the buffer ----

  /** stpcpy: the text and a NUL; cp comes to point at the NUL. */
  method StpCpy(buf: array<char>, cp: nat, s: string) returns (end: nat)
    requires cp + |s| < buf.Length
    modifies buf
    ensures end == cp + |s| && buf[..end] == old(buf[..cp]) + s && buf[end] == '\0'
  {
    var i := 0;
    while i < |s|
      invariant 0 <= i <= |s| && buf[..cp] == old(buf[..cp]) && buf[cp..cp + i] == s[..i]
    {
      buf[cp + i] := s[i];
      i := i + 1;
    }
    buf[cp + i] := '\0';
    end := cp + i;
  }

  /** A separator and a piece, if the piece belongs to the name. */
  method PutPart(buf: array<char>, cp: nat, on: bool, sep: char, s: CString) returns (end: nat)
    requires cp + |Part(on, sep, s)| < buf.Length
    modifies buf
    ensures end == cp + |Part(on, sep, s)| && buf[..end] == old(buf[..cp]) + Part(on, sep, s)
  {
    end := cp;
    if on {
      buf[end] := sep;
      end := StpCpy(buf, end + 1, s);
    }
  }

  method PutCodesetParts(buf: array<char>, cp: nat, mask: nat, l: Locale) returns (end: nat)
    requires cp + |CodesetParts(mask, l)| < buf.Length
    modifies buf
    ensures end == cp + |CodesetParts(mask, l)| && buf[..end] == old(buf[..cp]) + CodesetParts(mask, l)
  {
    hide Has, Part;
    end := PutPart(buf, cp, Has(mask, TERRITORY), '_', l.territory);
    end := PutPart(buf, end, Has(mask, XPG_CODESET), '.', l.codeset);
    end := PutPart(buf, end, Has(mask, XPG_NORM_CODESET), '.', l.normalizedCodeset);
  }

  method PutModifierParts(buf: array<char>, cp: nat, mask: nat, l: Locale) returns (end: nat)
    requires cp + |ModifierParts(mask, l)| < buf.Length
    modifies buf
    ensures end == cp + |ModifierParts(mask, l)| && buf[..end] == old(buf[..cp]) + ModifierParts(mask, l)
  {
    hide Has, Part;
    var sep := if Has(mask, CEN_AUDIENCE) then '+' else '@';
    end := PutPart(buf, cp, Has(mask, XPG_MODIFIER + CEN_AUDIENCE), sep, l.modifier);
    end := PutPart(buf, end, Has(mask, CEN_SPECIAL), '+', l.special);
  }

  /** A piece without a separator, if it belongs to the name. */
  method PutPiece(buf: array<char>, cp: nat, on: bool, s: CString) returns (end: nat)
    requires cp + (if on then |s| else 0) < buf.Length
    modifies buf
    ensures end == cp + (if on then |s| else 0) && buf[..end] == old(buf[..cp]) + if on then s else ""
  {
    end := cp;
    if on {
      end := StpCpy(buf, end, s);
    }
  }

  method PutSponsorParts(buf: array<char>, cp: nat, mask: nat, l: Locale) returns (end: nat)
    requires cp + |SponsorParts(mask, l)| < buf.Length
    modifies buf
    ensures end == cp + |SponsorParts(mask, l)| && buf[..end] == old(buf[..cp]) + SponsorParts(mask, l)
  {
    hide Has, Part;
    end := cp;
    if Has(mask, CEN_SPONSOR + CEN_REVISION) {
      var sponsor := Has(mask, CEN_SPONSOR);
      ghost var before, piece := buf[..cp], if sponsor then l.sponsor else "";
      ghost var rest := Part(Has(mask, CEN_REVISION), '_', l.revision);
      buf[end] := ',';
      end := end + 1;
      assert buf[..end] == before + ",";
      end := PutPiece(buf, end, sponsor, l.sponsor);
      end := PutPart(buf, end, Has(mask, CEN_REVISION), '_', l.revision);
      SponsorText(before, piece, rest);
    }
  }

  lemma SponsorText(before: string, piece: string, rest: string)
    ensures before + "," + piece + rest == before + ("," + piece + rest)
  {
  }

  /** The directories, joined by PATH_SEPARATOR, and a slash in place of the last NUL. */
  method PutDirs(buf: array<char>, dirlist: string, ghost dirs: seq<CString>) returns (cp: nat)
    requires dirlist == Argz.Encode(dirs) && |dirlist| < buf.Length
    modifies buf
    ensures cp == |dirlist| == |DirPart(dirs)| && buf[..cp] == DirPart(dirs)
  {
    cp := 0;
    if |dirlist| > 0 {
      JoinLength(dirs);
      cp := StpCpy(buf, 0, dirlist);
      Argz.Stringify(buf, cp, ':', dirs);
      buf[cp - 1] := '/';
    }
  }

  method PutLocale(buf: array<char>, cp: nat, mask: nat, l: Locale) returns (end: nat)
    requires cp + |LocalePart(mask, l)| < buf.Length
    modifies buf
    ensures end == cp + |LocalePart(mask, l)| && buf[..end] == old(buf[..cp]) + LocalePart(mask, l)
  {
    hide Has, CodesetParts, ModifierParts, SponsorParts;
    end := StpCpy(buf, cp, l.language);
    end := PutCodesetParts(buf, end, mask, l);
    end := PutModifierParts(buf, end, mask, l);
    end := PutSponsorParts(buf, end, mask, l);
  }

  /** The construction of the file name in _nl_make_l10nflist: it fills its buffer exactly. */
  method BuildFileName(dirlist: string, ghost dirs: seq<CString>, mask: nat, l: Locale, filename: CString)
    returns (buf: array<char>)
    requires dirlist == Argz.Encode(dirs)
    ensures fresh(buf) && buf.Length == FileNameSize(|dirlist|, mask, l, filename)
    ensures buf[..] == FileName(dirs, mask, l, filename) + "\0"
  {
    hide LocalePart, DirPart, FileNameSize;
    SizeIsExact(dirs, mask, l, filename);
    DirPartLength(dirs);
    buf := new char[FileNameSize(|dirlist|, mask, l, filename)];
    var cp := PutDirs(buf, dirlist, dirs);
    cp := PutLocale(buf, cp, mask, l);
    buf[cp] := '/';
    cp := StpCpy(buf, cp + 1, filename);
    assert buf[..] == buf[..cp] + "\0";
  }
}
