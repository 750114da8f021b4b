/** The normal form of codeset names: _nl_normalize_codeset, for the characters of ASCII. */
module Codesets {
  import opened Chars
  import L10nNames

  predicate IsAlpha(c: char) { 'a' <= c <= 'z' || 'A' <= c <= 'Z' }

  function Lower(c: char): char {
    if 'A' <= c <= 'Z' then c - 'A' + 'a' else c
  }

  predicate HasAlpha(s: string) {
    exists c :: c in s && IsAlpha(c)
  }

  function KeptChar(c: char): string {
    if IsAlpha(c) || IsDigit(c) then [Lower(c)] else ""
  }

  /** The letters, in lower case, and the digits. */
  function Kept(s: string): string {
    if s == "" then "" else Kept(s[..|s| - 1]) + KeptChar(s[|s| - 1])
  }

  /** The normal form; a name of digits only belongs to an ISO standard. */
  function Normalized(s: string): string {
    (if HasAlpha(s) then "" else "iso") + Kept(s)
  }

  lemma Step(s: string, k: nat)
    requires k < |s|
    ensures Kept(s[..k + 1]) == Kept(s[..k]) + KeptChar(s[k])
    ensures HasAlpha(s[..k + 1]) <==> HasAlpha(s[..k]) || IsAlpha(s[k])
    ensures |Kept(s[..k + 1])| <= |Kept(s)|
  {
    assert s[..k + 1][..k] == s[..k] && s[..k + 1] == s[..k] + [s[k]];
    HasAlphaStep(s[..k], s[k]);
    KeptGrows(s, k + 1);
  }

  /** The first loop of _nl_normalize_codeset. */
  method CountKept(codeset: string) returns (len: nat, onlyDigit: bool)
    ensures len == |Kept(codeset)| && onlyDigit == !HasAlpha(codeset)
  {
    hide Kept, HasAlpha;
    len, onlyDigit := 0, true;
    var cnt := 0;
    NothingKept();
    while cnt < |codeset|
      invariant 0 <= cnt <= |codeset| && len == |Kept(codeset[..cnt])| && onlyDigit == !HasAlpha(codeset[..cnt])
    {
      Step(codeset, cnt);
      if IsAlpha(codeset[cnt]) || IsDigit(codeset[cnt]) {
        len := len + 1;
        if IsAlpha(codeset[cnt]) {
          onlyDigit := false;
        }
      }
      cnt := cnt + 1;
    }
    assert codeset[..cnt] == codeset;
  }

  lemma NothingKept()
    ensures Kept("") == "" && !HasAlpha("")
  {
  }

  /** The second loop of _nl_normalize_codeset. */
  method CopyKept(buf: array<char>, start: nat, codeset: string) returns (wp: nat)
    requires start + |Kept(codeset)| < buf.Length
    modifies buf
    ensures wp == start + |Kept(codeset)| && buf[..wp] == old(buf[..start]) + Kept(codeset)
  {
    hide Kept, HasAlpha;
    wp := start;
    var cnt := 0;
    NothingKept();
    while cnt < |codeset|
      invariant 0 <= cnt <= |codeset| && wp == start + |Kept(codeset[..cnt])| < buf.Length
      invariant buf[..wp] == old(buf[..start]) + Kept(codeset[..cnt])
    {
      Step(codeset, cnt);
      if IsAlpha(codeset[cnt]) {
        buf[wp] := Lower(codeset[cnt]);
        wp := wp + 1;
      } else if IsDigit(codeset[cnt]) {
        buf[wp] := codeset[cnt];
        wp := wp + 1;
      }
      cnt := cnt + 1;
    }
    assert codeset[..cnt] == codeset;
  }

  /** _nl_normalize_codeset: the normal form fills its buffer exactly. */
  method NormalizeCodeset(codeset: string) returns (buf: array<char>)
    ensures fresh(buf) && buf[..] == Normalized(codeset) + "\0"
  {
    hide Kept, HasAlpha;
    var len, onlyDigit := CountKept(codeset);
    buf := new char[(if onlyDigit then 3 else 0) + len + 1];
    var wp := 0;
    if onlyDigit {
      wp := L10nNames.StpCpy(buf, 0, "iso");
    }
    wp := CopyKept(buf, wp, codeset);
    buf[wp] := '\0';
  }

  lemma HasAlphaStep(s: string, c: char)
    ensures HasAlpha(s + [c]) <==> HasAlpha(s) || IsAlpha(c)
  {
    assert c in s + [c];
    assert forall d :: d in s + [c] <==> d in s || d == c;
  }

  lemma {:induction false} KeptGrows(s: string, k: nat)
    requires k <= |s|
    ensures |Kept(s[..k])| <= |Kept(s)|
    decreases |s| - k
  {
    if k < |s| {
      assert s[..k + 1][..k] == s[..k];
      KeptGrows(s, k + 1);
    } else {
      assert s[..k] == s;
    }
  }

  lemma {:induction false} KeptAppend(a: string, b: string)
    ensures Kept(a + b) == Kept(a) + Kept(b)
    decreases b
  {
    if b == "" {
      assert a + b == a;
    } else {
      assert (a + b)[..|a + b| - 1] == a + b[..|b| - 1];
      KeptAppend(a, b[..|b| - 1]);
    }
  }

  lemma {:induction false} KeptTwice(s: string)
    ensures Kept(Kept(s)) == Kept(s) && (HasAlpha(Kept(s)) <==> HasAlpha(s))
  {
    hide HasAlpha;
    if s == "" {
      NothingKept();
    } else {
      var a, c := s[..|s| - 1], s[|s| - 1];
      KeptTwice(a);
      KeptStepTwice(Kept(a), c);
      HasAlphaStep(a, c);
      assert s == a + [c];
    }
  }

  lemma KeptStepTwice(k: string, c: char)
    ensures Kept(k + KeptChar(c)) == Kept(k) + KeptChar(c)
    ensures HasAlpha(k + KeptChar(c)) <==> HasAlpha(k) || IsAlpha(c)
  {
    if KeptChar(c) == "" {
      assert k + "" == k;
    } else {
      HasAlphaStep(k, Lower(c));
      assert (k + [Lower(c)])[..|k|] == k;
    }
  }

  lemma KeptOne(c: char)
    ensures Kept([c]) == KeptChar(c)
  {
    assert [c][..0] == "";
  }

  /** Normal forms are normal. */
  lemma NormalizedTwice(s: string)
    ensures Normalized(Normalized(s)) == Normalized(s)
  {
    hide Kept, HasAlpha;
    KeptTwice(s);
    if HasAlpha(s) {
      assert "" + Kept(s) == Kept(s);
    } else {
      KeptIso(Kept(s));
    }
  }

  lemma KeptOfIso()
    ensures Kept("iso") == "iso"
  {
    assert InNormalForm("iso");
    KeptWhole("iso");
  }

  lemma KeptIso(k: string)
    ensures Kept("iso" + k) == "iso" + Kept(k) && HasAlpha("iso" + k)
  {
    assert ("iso" + k)[0] == 'i' && 'i' in "iso" + k && IsAlpha('i');
    hide Kept, InNormalForm;
    KeptAppend("iso", k);
    KeptOfIso();
  }

  lemma {:induction false} KeptCharacters(s: string)
    ensures forall c :: c in Kept(s) ==> IsAlpha(c) || IsDigit(c)
  {
    if s != "" { KeptCharacters(s[..|s| - 1]); }
  }

  lemma NormalizedCharacters(s: string)
    ensures forall c :: c in Normalized(s) ==> IsAlpha(c) || IsDigit(c)
  {
    hide Kept;
    KeptCharacters(s);
  }

  predicate InNormalForm(s: string) {
    forall c <- s :: 'a' <= c <= 'z' || IsDigit(c)
  }

  lemma {:induction false} KeptWhole(s: string)
    requires InNormalForm(s)
    ensures Kept(s) == s
  {
    if s != "" {
      var a, c := s[..|s| - 1], s[|s| - 1];
      assert s == a + [c] && KeptChar(c) == [c] && InNormalForm(a) by { assert c in s; }
      hide KeptChar, InNormalForm;
      KeptWhole(a);
    }
  }

  /** Lower-case letters and digits are a normal form, if there is a letter. */
  lemma AlreadyNormal(s: string)
    requires InNormalForm(s) && HasAlpha(s)
    ensures Normalized(s) == s
  {
    hide Kept, HasAlpha, InNormalForm;
    KeptWhole(s);
  }

  // ---- Every character, and examples ----

  /** Capital letters become small ones, which are 32 further on; small letters and digits stay; everything else is
      dropped. */
  lemma EveryCharacter(c: char)
    ensures 'A' <= c <= 'Z' ==> KeptChar(c) == [(c as int + 32) as char]
    ensures 'a' <= c <= 'z' || '0' <= c <= '9' ==> KeptChar(c) == [c]
    ensures !('A' <= c <= 'Z' || 'a' <= c <= 'z' || '0' <= c <= '9') ==> KeptChar(c) == ""
  {
  }

  lemma KeptFirst(c: char, rest: string)
    ensures Kept([c] + rest) == KeptChar(c) + Kept(rest)
  {
    KeptAppend([c], rest);
    assert Kept([c]) == Kept("") + KeptChar(c);
  }

  lemma KeptNext(c: char, rest: string, kept: string)
    requires Kept(rest) == kept
    ensures Kept([c] + rest) == KeptChar(c) + kept
  {
    KeptFirst(c, rest);
  }

  lemma KeptOfUtf()
    ensures Kept("UTF-8") == "utf8"
  {
    NothingKept();
    hide Kept;
    KeptNext('8', "", "");
    assert "8" == ['8'] + "" && Kept("8") == "8";
    KeptNext('-', "8", "8");
    assert "-8" == ['-'] + "8" && Kept("-8") == "8";
    KeptNext('F', "-8", "8");
    assert "F-8" == ['F'] + "-8" && Kept("F-8") == "f8";
    KeptNext('T', "F-8", "f8");
    assert "TF-8" == ['T'] + "F-8" && Kept("TF-8") == "tf8";
    KeptNext('U', "TF-8", "tf8");
    assert "UTF-8" == ['U'] + "TF-8" && Kept("UTF-8") == "utf8";
  }

  lemma DigitsStay()
    ensures KeptChar('8') == "8" && KeptChar('5') == "5" && KeptChar('9') == "9" && KeptChar('1') == "1"
    ensures KeptChar('-') == ""
  {
  }

  lemma KeptOfLatin()
    ensures Kept("8859-1") == "88591"
  {
    NothingKept();
    DigitsStay();
    hide Kept, KeptChar;
    KeptNext('1', "", "");
    assert "1" == ['1'] + "" && Kept("1") == "1";
    KeptNext('-', "1", "1");
    assert "-1" == ['-'] + "1" && Kept("-1") == "1";
    KeptNext('9', "-1", "1");
    assert "9-1" == ['9'] + "-1" && Kept("9-1") == "91";
    KeptNext('5', "9-1", "91");
    assert "59-1" == ['5'] + "9-1" && Kept("59-1") == "591";
    KeptNext('8', "59-1", "591");
    assert "859-1" == ['8'] + "59-1" && Kept("859-1") == "8591";
    KeptNext('8', "859-1", "8591");
    assert "8859-1" == ['8'] + "859-1" && Kept("8859-1") == "88591";
  }

  lemma Alphas()
    ensures HasAlpha("UTF-8") && !HasAlpha("8859-1")
  {
    var u := "UTF-8";
    assert u[0] in u && IsAlpha(u[0]);
    assert forall c <- "8859-1" :: c == '8' || c == '5' || c == '9' || c == '-' || c == '1';
  }

  /** A name with letters is normalized as it is; one of digits and signs gets the prefix of the ISO standards. */
  lemma NormalForms()
    ensures Normalized("UTF-8") == "utf8" && Normalized("8859-1") == "iso88591"
  {
    Alphas();
    KeptOfUtf();
    KeptOfLatin();
    hide Kept, HasAlpha;
  }
}
