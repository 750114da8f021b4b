/** Cleaning up identification strings in place: scsi_fixstring and sata_fixstring. */
module FixString {
  import opened CStrings

  // ---- The specification: the words of the text, one blank between each two ----

  /** The word at the start of a text. */
  function FirstWord(t: string): (w: string)
    ensures w <= t && ' ' !in w && (|w| < |t| ==> t[|w|] == ' ')
  {
    if t == "" || t[0] == ' ' then "" else [t[0]] + FirstWord(t[1..])
  }

  /** The words of a text, which any number of blanks separate. */
  function Words(t: string): seq<string>
    decreases t
  {
    if t == "" then []
    else if t[0] == ' ' then Words(t[1..])
    else [FirstWord(t)] + Words(t[|FirstWord(t)|..])
  }

  function Unwords(ws: seq<string>): string {
    if ws == [] then "" else if |ws| == 1 then ws[0] else ws[0] + (" " + Unwords(ws[1..]))
  }

  function Zeros(n: nat): string {
    if n == 0 then "" else "\0" + Zeros(n - 1)
  }

  /** A buffer's text up to the first NUL, cleaned up and filled with NULs. */
  function Fixed(b: string): (r: string)
    ensures |r| == |b|
  {
    var t := Unwords(Words(CStr(b)));
    UnwordsFit(b);
    ZerosLength(|b| - |t|);
    t + Zeros(|b| - |t|)
  }

  // ---- What the loop keeps of a text ----

  /** The characters that the loop keeps: a blank only if a character other than a blank follows. */
  function Kept(t: string): string {
    if t == "" then ""
    else (if t[0] != ' ' || (|t| > 1 && t[1] != ' ') then [t[0]] else "") + Kept(t[1..])
  }

  lemma {:induction false} KeptIsShorter(t: string)
    ensures |Kept(t)| <= |t|
  {
    if t != "" { KeptIsShorter(t[1..]); }
  }

  lemma WordStep(t: string)
    requires t != "" && t[0] != ' '
    ensures Kept(t) == [t[0]] + Kept(t[1..]) && FirstWord(t) == [t[0]] + FirstWord(t[1..])
  {
  }

  lemma DropTwice(t: string, n: nat)
    requires n < |t|
    ensures t[1..][n..] == t[n + 1..]
  {
  }

  lemma AddFront(a: string, b: string, c: string)
    ensures a + (b + c) == (a + b) + c
  {
  }

  /** A word at the start is kept, and the rest is treated on its own. */
  lemma {:induction false} KeptWord(t: string)
    ensures Kept(t) == FirstWord(t) + Kept(t[|FirstWord(t)|..])
  {
    if t == "" || t[0] == ' ' {
      assert t[0..] == t;
    } else {
      hide Kept, FirstWord;
      var w := FirstWord(t[1..]);
      KeptWord(t[1..]);
      WordStep(t);
      DropTwice(t, |w|);
      AddFront([t[0]], w, Kept(t[|w| + 1..]));
    }
  }

  /** Of the blanks before a word one is kept, and none of those at the end. */
  lemma {:induction false} KeptBlanks(t: string)
    requires t != "" && t[0] == ' '
    ensures Kept(t) == if Words(t) == [] then "" else " " + Unwords(Words(t))
    decreases t, 0
  {
    var r := t[1..];
    if r != "" && r[0] != ' ' {
      KeptIsUnwords(r);
      assert Words(r) != [];
    } else if r != "" {
      KeptBlanks(r);
    }
  }

  /** From a word on, what is kept is the words with one blank between each two. */
  lemma {:induction false} KeptIsUnwords(t: string)
    requires t == "" || t[0] != ' '
    ensures Kept(t) == Unwords(Words(t))
    decreases t, 1
  {
    if t != "" {
      var w := FirstWord(t);
      var rest := t[|w|..];
      KeptWord(t);
      if rest != "" {
        KeptBlanks(rest);
        assert Words(t)[1..] == Words(rest);
      }
      assert w + "" == w;
    }
  }

  // ---- Leading blanks ----

  function DropBlanks(t: string): string {
    if t != "" && t[0] == ' ' then DropBlanks(t[1..]) else t
  }

  lemma {:induction false} WordsDropBlanks(t: string)
    ensures Words(DropBlanks(t)) == Words(t) && (DropBlanks(t) == "" || DropBlanks(t)[0] != ' ')
  {
    if t != "" && t[0] == ' ' { WordsDropBlanks(t[1..]); }
  }

  lemma {:induction false} CStrDropBlanks(b: string)
    ensures CStr(DropBlanks(b)) == DropBlanks(CStr(b))
  {
    if b != "" && b[0] == ' ' {
      assert CStr(b)[1..] == CStr(b[1..]);
      CStrDropBlanks(b[1..]);
    }
  }

  // ---- The results are clean ----

  predicate IsWord(w: string) {
    w != "" && ' ' !in w && '\0' !in w
  }

  lemma {:induction false} WordsAreWords(t: string)
    requires '\0' !in t
    ensures forall w <- Words(t) :: IsWord(w)
    decreases t
  {
    if t != "" {
      if t[0] == ' ' {
        WordsAreWords(t[1..]);
      } else {
        var w := FirstWord(t);
        assert forall c :: c in w ==> c in t;
        WordsAreWords(t[|w|..]);
      }
    }
  }

  lemma {:induction false} FirstWordOf(w: string, rest: string)
    requires ' ' !in w && (rest == "" || rest[0] == ' ')
    ensures FirstWord(w + rest) == w
  {
    if w == "" {
      assert w + rest == rest;
    } else {
      assert (w + rest)[1..] == w[1..] + rest;
      FirstWordOf(w[1..], rest);
      assert w == [w[0]] + w[1..];
    }
  }

  /** Splitting undoes joining. */
  lemma {:induction false} WordsUnwords(ws: seq<string>)
    requires forall w <- ws :: IsWord(w)
    ensures Words(Unwords(ws)) == ws && '\0' !in Unwords(ws)
  {
    hide FirstWord;
    if ws != [] {
      var w := ws[0];
      assert IsWord(w);
      if |ws| == 1 {
        FirstWordOf(w, "");
        assert w + "" == w && w[|w|..] == "" && ws == [w];
      } else {
        var rest := " " + Unwords(ws[1..]);
        WordsUnwords(ws[1..]);
        FirstWordOf(w, rest);
        assert (w + rest)[|w|..] == rest && rest[1..] == Unwords(ws[1..]);
        assert ws == [w] + ws[1..];
      }
    }
  }

  lemma {:induction false} CStrFilled(t: string, n: nat)
    requires '\0' !in t
    ensures CStr(t + Zeros(n)) == t
  {
    CStrOfPrefix(t, Zeros(n));
  }

  lemma {:induction false} ZerosLength(n: nat)
    ensures |Zeros(n)| == n && forall i :: 0 <= i < n ==> Zeros(n)[i] == '\0'
  {
    if n > 0 { ZerosLength(n - 1); }
  }

  lemma UnwordsFit(b: string)
    ensures |Unwords(Words(CStr(b)))| <= |b|
  {
    var t := CStr(b);
    WordsDropBlanks(t);
    KeptIsUnwords(DropBlanks(t));
    KeptIsShorter(DropBlanks(t));
    DropBlanksIsShorter(t);
  }

  lemma {:induction false} DropBlanksIsShorter(t: string)
    ensures |DropBlanks(t)| <= |t|
  {
    if t != "" && t[0] == ' ' { DropBlanksIsShorter(t[1..]); }
  }

  /** Cleaning up twice is the same as once. */
  lemma FixedTwice(b: string)
    ensures Fixed(Fixed(b)) == Fixed(b)
  {
    hide Words, Unwords, CStr;
    var ws := Words(CStr(b));
    var t := Unwords(ws);
    WordsAreWords(CStr(b));
    WordsUnwords(ws);
    UnwordsFit(b);
    CStrFilled(t, |b| - |t|);
  }

  // ---- In place ----

  lemma KeptStep(rest: string)
    requires rest != "" && rest[0] != '\0'
    ensures var next := rest[1..];
            Kept(CStr(rest))
            == (if rest[0] != ' ' || (next != "" && next[0] != '\0' && next[0] != ' ') then [rest[0]] else "")
                                + Kept(CStr(next))
  {
    assert CStr(rest)[1..] == CStr(rest[1..]);
  }

  lemma KeptEnd(rest: string)
    requires rest == "" || rest[0] == '\0'
    ensures Kept(CStr(rest)) == ""
  {
  }

  /** The first loop: s comes to point behind the leading blanks. */
  method SkipBlanks(a: array<char>, end: nat) returns (s: nat)
    requires end <= a.Length
    ensures s <= end && a[s..end] == DropBlanks(a[..end])
  {
    s := 0;
    assert a[0..end] == a[..end];
    while s != end && a[s] == ' '
      invariant s <= end && DropBlanks(a[s..end]) == DropBlanks(a[..end])
    {
      assert a[s..end][1..] == a[s + 1..end];
      s := s + 1;
    }
  }

  /** What one round of the second loop writes: s already points behind the character. */
  method CompressChar(a: array<char>, end: nat, s: nat, p: nat) returns (p': nat)
    requires p < s <= end <= a.Length
    modifies a
    ensures var keep := old(a[s - 1]) != ' ' || (s < end && old(a[s]) != '\0' && old(a[s]) != ' ');
            && p' == (if keep then p + 1 else p)
            && a[..p'] == old(a[..p]) + if keep then [old(a[s - 1])] else ""
    ensures forall k :: s <= k < a.Length ==> a[k] == old(a[k])
  {
    p' := p;
    if a[s - 1] != ' ' || (s != end && a[s] != '\0' && a[s] != ' ') {
      a[p] := a[s - 1];
      p' := p + 1;
    }
  }

  /** One round, as a step towards the result. */
  method CompressOne(a: array<char>, end: nat, s: nat, p: nat, ghost whole: string) returns (p': nat)
    requires p < s <= end <= a.Length == |whole| && whole[s - 1] != '\0'
    requires forall k :: s - 1 <= k < a.Length ==> a[k] == whole[k]
    modifies a
    ensures p' <= p + 1 && forall k :: s <= k < a.Length ==> a[k] == whole[k]
    ensures a[..p'] + Kept(CStr(whole[s..end])) == old(a[..p]) + Kept(CStr(whole[s - 1..end]))
  {
    hide Kept, CStr;
    KeptStep(whole[s - 1..end]);
    NextRest(whole, s - 1, end);
    p' := CompressChar(a, end, s, p);
  }

  /** The second loop: moves what is kept to the front, where p follows behind s. */
  method Compress(a: array<char>, end: nat, s0: nat) returns (p: nat)
    requires s0 <= end <= a.Length
    modifies a
    ensures p <= end && a[..p] == Kept(CStr(old(a[s0..end]))) && a[end..] == old(a[end..])
  {
    hide Kept, CStr;
    var s: nat := s0;
    p := 0;
    ghost var whole, total := a[..], Kept(CStr(a[s0..end]));
    while s != end && a[s] != '\0'
      invariant p <= s <= end && forall k :: s <= k < a.Length ==> a[k] == whole[k]
      invariant a[..p] + Kept(CStr(whole[s..end])) == total
      decreases end - s
    {
      s := s + 1;
      p := CompressOne(a, end, s, p, whole);
    }
    KeptEnd(whole[s..end]);
  }

  lemma NextRest(whole: string, s: nat, end: nat)
    requires s < end <= |whole|
    ensures var rest := whole[s..end];
            && rest[1..] == whole[s + 1..end] && rest[0] == whole[s]
            && (s + 1 < end ==> rest[1..][0] == whole[s + 1])
  {
  }

  /** Both functions, after the bytes are in order. */
  method Clean(a: array<char>, end: nat)
    requires end <= a.Length
    modifies a
    ensures a[..end] == Fixed(old(a[..end])) && a[end..] == old(a[end..])
  {
    hide Words, Unwords, CStr, Kept, DropBlanks;
    ghost var b := a[..end];
    var s := SkipBlanks(a, end);
    CleanIsWords(b);
    var p := Compress(a, end, s);
    ghost var text := a[..p];
    ZerosLength(end - p);
    while p != end
      invariant |text| <= p <= end && a[..|text|] == text && a[end..] == old(a[end..])
      invariant forall i :: |text| <= i < p ==> a[i] == '\0'
    {
      a[p] := '\0';
      p := p + 1;
    }
    assert a[..end] == text + Zeros(end - |text|);
  }

  /** What the loops keep is the cleaned up text. */
  lemma CleanIsWords(b: string)
    ensures Kept(CStr(DropBlanks(b))) == Unwords(Words(CStr(b)))
  {
    CStrDropBlanks(b);
    WordsDropBlanks(CStr(b));
    KeptIsUnwords(DropBlanks(CStr(b)));
  }

  method ScsiFixString(a: array<char>, bytecount: nat)
    requires bytecount <= a.Length
    modifies a
    ensures a[..bytecount] == Fixed(old(a[..bytecount])) && a[bytecount..] == old(a[bytecount..])
  {
    Clean(a, bytecount);
  }

  /** The characters of each pair exchanged. */
  function Swapped(b: string): string {
    if |b| < 2 then b else [b[1], b[0]] + Swapped(b[2..])
  }

  lemma {:induction false} SwappedAt(b: string, k: nat)
    requires k < |b| && |b| % 2 == 0
    ensures |Swapped(b)| == |b| && Swapped(b)[k] == b[if k % 2 == 0 then k + 1 else k - 1]
    decreases |b|
  {
    if |b| > 2 {
      var j: nat := if k < 2 then 0 else k - 2;
      SwappedAt(b[2..], j);
      assert b[2..][if j % 2 == 0 then j + 1 else j - 1] == b[if j % 2 == 0 then j + 3 else j + 1];
    }
  }

  /** The loop over the 16-bit words, from the end: ntohs exchanges the two bytes of each on a
      little-endian host, and does nothing on a big-endian one. */
  method ToHostOrder(a: array<char>, end: nat, littleEndian: bool)
    requires end <= a.Length && end % 2 == 0
    modifies a
    ensures a[..end] == if littleEndian then Swapped(old(a[..end])) else old(a[..end])
    ensures a[end..] == old(a[end..])
  {
    hide Swapped;
    ghost var b := a[..end];
    var p: nat := end;
    SwappedNothing(b);
    while p != 0
      invariant p <= end && p % 2 == 0 && a[end..] == old(a[end..])
      invariant forall k :: 0 <= k < p ==> a[k] == b[k]
      invariant a[p..end] == if littleEndian then Swapped(b[p..]) else b[p..]
    {
      SwappedPair(b, p - 2);
      p := p - 2;
      SwapOne(a, p, end, littleEndian);
    }
    assert a[0..end] == a[..end] && b[0..] == b;
  }

  method SwapOne(a: array<char>, p: nat, end: nat, littleEndian: bool)
    requires p + 2 <= end <= a.Length
    modifies a
    ensures forall k :: 0 <= k < p ==> a[k] == old(a[k])
    ensures a[end..] == old(a[end..])
    ensures a[p..end] == (if littleEndian then [old(a[p + 1]), old(a[p])] else [old(a[p]), old(a[p + 1])])
                         + old(a[p + 2..end])
  {
    if littleEndian {
      a[p], a[p + 1] := a[p + 1], a[p];
    }
  }

  lemma SwappedNothing(b: string)
    ensures Swapped(b[|b|..]) == b[|b|..] == ""
  {
  }

  lemma SwappedPair(b: string, p: nat)
    requires p + 2 <= |b|
    ensures Swapped(b[p..]) == [b[p + 1], b[p]] + Swapped(b[p + 2..]) && b[p..] == [b[p], b[p + 1]] + b[p + 2..]
  {
    assert b[p..][2..] == b[p + 2..];
  }

  /** sata_fixstring: like scsi_fixstring, after exchanging the bytes of each pair. A last odd
      byte is not touched. */
  method SataFixString(a: array<char>, bytecount: nat, littleEndian: bool)
    requires bytecount <= a.Length
    modifies a
    ensures var end := bytecount - bytecount % 2;
            && a[..end] == Fixed(if littleEndian then Swapped(old(a[..end])) else old(a[..end]))
            && a[end..] == old(a[end..])
  {
    var end := bytecount - bytecount % 2;
    ToHostOrder(a, end, littleEndian);
    Clean(a, end);
  }
}
