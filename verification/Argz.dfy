/** Directory lists as NUL-terminated strings that follow each other: the argz helpers of l10nflist.c. */
module Argz {
  import opened CStrings
  import opened Wrappers

  /** The encoding of a list. */
  function Encode(dirs: seq<CString>): string {
    if dirs == [] then "" else dirs[0] + ("\0" + Encode(dirs[1..]))
  }

  /** The list with a separator between each two elements. */
  function Join(dirs: seq<CString>, sep: char): string
    requires dirs != []
  {
    if |dirs| == 1 then dirs[0] else dirs[0] + ([sep] + Join(dirs[1..], sep))
  }

  /** Where element j starts in the encoding. */
  function Offset(dirs: seq<CString>, j: nat): nat
    requires j <= |dirs|
  {
    if j == 0 then 0 else |dirs[0]| + 1 + Offset(dirs[1..], j - 1)
  }

  lemma {:induction false} OffsetStep(dirs: seq<CString>, j: nat)
    requires j < |dirs|
    ensures Offset(dirs, j + 1) == Offset(dirs, j) + |dirs[j]| + 1
    decreases j
  {
    if j > 0 { OffsetStep(dirs[1..], j - 1); }
  }

  /** From element j on, the encoding is that of the rest of the list. */
  lemma {:induction false} EncodeAt(dirs: seq<CString>, j: nat)
    requires j <= |dirs|
    ensures Offset(dirs, j) <= |Encode(dirs)|
    ensures Encode(dirs)[Offset(dirs, j)..] == Encode(dirs[j..])
    decreases j
  {
    if j > 0 {
      EncodeAt(dirs[1..], j - 1);
      var rest := Encode(dirs[1..]);
      assert Encode(dirs)[|dirs[0]| + 1..] == rest;
      assert dirs[1..][j - 1..] == dirs[j..];
      assert Encode(dirs)[Offset(dirs, j)..] == rest[Offset(dirs[1..], j - 1)..];
    }
  }

  /** The string at the start of an encoding is its first element. */
  lemma FirstOfEncode(dirs: seq<CString>)
    requires dirs != []
    ensures CStr(Encode(dirs)) == dirs[0] && |Encode(dirs)| == |dirs[0]| + 1 + |Encode(dirs[1..])|
  {
    CStrOfPrefix(dirs[0], "\0" + Encode(dirs[1..]));
  }

  lemma AtElement(dirs: seq<CString>, j: nat)
    requires j < |dirs|
    ensures Offset(dirs, j) < |Encode(dirs)| && CStr(Encode(dirs)[Offset(dirs, j)..]) == dirs[j]
    ensures Offset(dirs, j + 1) == Offset(dirs, j) + |dirs[j]| + 1 <= |Encode(dirs)|
    ensures Offset(dirs, j + 1) == |Encode(dirs)| <==> j + 1 == |dirs|
  {
    EncodeAt(dirs, j);
    FirstOfEncode(dirs[j..]);
    OffsetStep(dirs, j);
    EncodeAt(dirs, j + 1);
    if j + 1 < |dirs| { FirstOfEncode(dirs[j + 1..]); }
  }

  /** argz_count__ */
  method Count(argz: string, ghost dirs: seq<CString>) returns (count: nat)
    requires argz == Encode(dirs)
    ensures count == |dirs|
  {
    var at := 0;
    count := 0;
    while |argz| - at > 0
      invariant count <= |dirs| && at == Offset(dirs, count) <= |argz|
      invariant at == |argz| <==> count == |dirs|
    {
      AtElement(dirs, count);
      at := at + |CStr(argz[at..])| + 1;
      count := count + 1;
    }
  }

  /** argz_next__ */
  method Next(argz: string, entry: Option<nat>, ghost dirs: seq<CString>, ghost j: nat) returns (r: Option<nat>)
    requires argz == Encode(dirs)
    requires entry.Some? ==> j < |dirs| && entry.value == Offset(dirs, j)
    ensures entry.None? ==> r == if |dirs| > 0 then Some(0) else None
    ensures entry.Some? ==> r == if j + 1 < |dirs| then Some(Offset(dirs, j + 1)) else None
  {
    if entry.None? {
      if dirs != [] { AtElement(dirs, 0); }
      return if |argz| > 0 then Some(0) else None;
    }
    AtElement(dirs, j);
    var at := entry.value;
    if at < |argz| {
      at := at + |CStr(argz[at..])| + 1;
    }
    r := if at >= |argz| then None else Some(at);
  }

  /** What one round of the loop of Stringify does to the text. */
  lemma JoinStep(dirs: seq<CString>, k: nat, sep: char, before: string, after: string, done: string)
    requires k < |dirs|
    requires before + Join(dirs[k..], sep) == done
    requires after == before + dirs[k] + if k + 1 < |dirs| then [sep] else "\0"
    ensures if k + 1 < |dirs| then after + Join(dirs[k + 1..], sep) == done else after == done + "\0"
  {
    assert dirs[k..][1..] == dirs[k + 1..];
    if k + 1 < |dirs| {
      var rest := Join(dirs[k + 1..], sep);
      assert before + (dirs[k] + ([sep] + rest)) == before + dirs[k] + [sep] + rest;
    }
  }

  /** One round of the loop of Stringify: the part at at, and the NUL behind it. */
  method StringifyPart(a: array<char>, len: nat, at: nat, left: nat, sep: char, ghost part: CString, ghost was: string)
    returns (at': nat, left': nat)
    requires at + left == len <= a.Length && a[at..len] == was && |part| < |was|
    requires CStr(was) == part && was[..|part| + 1] == part + "\0"
    modifies a
    ensures at' == at + |part| + (if left' > 0 then 1 else 0) && left' == left - (|part| + 1)
    ensures a[len..] == old(a[len..]) && a[at + |part| + 1..len] == was[|part| + 1..]
    ensures a[..at + |part| + 1] == old(a[..at]) + part + if left' > 0 then [sep] else "\0"
  {
    hide CStr;
    var partLen := |CStr(a[at..len])|;
    assert partLen == |part| && a[at..at + partLen + 1] == part + "\0";
    at', left' := at + partLen, left - (partLen + 1);
    if left' > 0 {
      a[at'] := sep;
      at' := at' + 1;
    }
  }

  /** The parts before k are joined, and from at on the text is as it was. */
  predicate Joined(a: string, len: nat, dirs: seq<CString>, k: nat, at: nat, sep: char) {
    && k < |dirs| && at == Offset(dirs, k) <= len == |Encode(dirs)| <= |a|
    && a[at..len] == Encode(dirs)[at..] && a[..at] + Join(dirs[k..], sep) == Join(dirs, sep)
  }

  lemma JoinedStart(a: string, len: nat, dirs: seq<CString>, sep: char)
    requires dirs != [] && len <= |a| && a[..len] == Encode(dirs)
    ensures Joined(a, len, dirs, 0, 0, sep) && len > 0
  {
    hide Encode, Join;
    Starts(dirs);
    assert dirs[0..] == dirs && a[..0] + Join(dirs, sep) == Join(dirs, sep);
    assert a[0..len] == a[..len] && Encode(dirs)[0..] == Encode(dirs);
  }

  lemma JoinedPart(a: string, len: nat, dirs: seq<CString>, k: nat, at: nat, sep: char)
    requires Joined(a, len, dirs, k, at, sep)
    ensures k < |dirs| && at <= |Encode(dirs)| && at <= len <= |a|
    ensures var was, part := Encode(dirs)[at..], dirs[k];
            && a[at..len] == was && |part| < |was| == len - at && CStr(was) == part && was[..|part| + 1] == part + "\0"
            && (|part| + 1 == |was| <==> k + 1 == |dirs|)
  {
    hide Encode, Join, CStr, Offset;
    AtElement(dirs, k);
    PartHere(dirs, k);
  }

  /** One round of the loop. */
  lemma JoinedStep(a: string, now: string, len: nat, dirs: seq<CString>, k: nat, at: nat, sep: char)
    requires Joined(a, len, dirs, k, at, sep) && |now| == |a|
    requires var n := at + |dirs[k]| + 1;
             && n <= len && now[n..len] == Encode(dirs)[at..][|dirs[k]| + 1..]
             && now[..n] == a[..at] + dirs[k] + if k + 1 < |dirs| then [sep] else "\0"
    ensures k + 1 < |dirs| ==> Joined(now, len, dirs, k + 1, at + |dirs[k]| + 1, sep)
    ensures k + 1 == |dirs| ==> now[..len] == Join(dirs, sep) + "\0"
  {
    hide Encode, Join, CStr, Offset;
    var n := at + |dirs[k]| + 1;
    AtElement(dirs, k);
    assert Encode(dirs)[at..][|dirs[k]| + 1..] == Encode(dirs)[n..];
    JoinStep(dirs, k, sep, a[..at], now[..n], Join(dirs, sep));
  }

  /** argz_stringify__: every NUL but the last becomes the separator. */
  method Stringify(a: array<char>, len: nat, sep: char, ghost dirs: seq<CString>)
    requires dirs != [] && len <= a.Length && a[..len] == Encode(dirs)
    modifies a
    ensures a[..len] == Join(dirs, sep) + "\0" && a[len..] == old(a[len..])
  {
    hide CStr, Encode, Offset, Join, Joined;
    var at: nat, left: nat := 0, len;
    ghost var k: nat := 0;
    JoinedStart(a[..], len, dirs, sep);
    while left > 0
      invariant at + left == len || k == |dirs|
      invariant left > 0 ==> Joined(a[..], len, dirs, k, at, sep)
      invariant left == 0 ==> k == |dirs| && a[..len] == Join(dirs, sep) + "\0"
      invariant a[len..] == old(a[len..])
    {
      ghost var was, from := a[..], at;
      JoinedPart(was, len, dirs, k, at, sep);
      at, left := StringifyPart(a, len, at, left, sep, dirs[k], Encode(dirs)[at..]);
      JoinedStep(was, a[..], len, dirs, k, from, sep);
      k := k + 1;
    }
  }

  lemma EncodeOne(dir: CString)
    ensures Encode([dir]) == dir + "\0"
  {
  }

  lemma Starts(dirs: seq<CString>)
    requires dirs != []
    ensures Offset(dirs, 0) == 0 && |Encode(dirs)| > 0
  {
  }

  lemma PartHere(dirs: seq<CString>, k: nat)
    requires k < |dirs| && Offset(dirs, k) <= |Encode(dirs)|
    ensures var was, n := Encode(dirs)[Offset(dirs, k)..], |dirs[k]|; n < |was| && was[..n + 1] == dirs[k] + "\0"
  {
    EncodeAt(dirs, k);
  }
}
