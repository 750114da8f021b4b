/** The plural variants of a translation: strings that follow each other, each ended by NUL. */
module Variants {
  import opened CStrings
  import opened Wrappers

  /** The index-th of the NUL-terminated strings that a translation consists of. */
  function Variant(text: string, index: nat): Option<string>
    decreases index
  {
    var first := CStr(text);
    if index == 0 then Some(first)
    else if |first| == |text| then None
    else Variant(text[|first| + 1..], index - 1)
  }

  /** The variant for a plural index; an index without a variant selects the first. */
  function VariantAt(text: string, index: nat): string {
    Variant(text, index).GetOr(CStr(text))
  }

  /** Where index steps past NULs lead from p, if the text is long enough. */
  function Skip(text: string, p: nat, index: nat): (r: Option<nat>)
    requires p <= |text|
    ensures r.Some? ==> p <= r.value <= |text|
    decreases index
  {
    var next := p + |CStr(text[p..])| + 1;
    if index == 0 then Some(p)
    else if next > |text| then None
    else Skip(text, next, index - 1)
  }

  lemma DropTwice(text: string, p: nat, next: nat)
    requires p <= next <= |text|
    ensures text[p..][next - p..] == text[next..]
  {
  }

  lemma {:induction false} SkipFindsVariant(text: string, p: nat, index: nat)
    requires p <= |text|
    ensures var r := Skip(text, p, index);
            Variant(text[p..], index) == if r.Some? then Some(CStr(text[r.value..])) else None
    decreases index
  {
    hide CStr;
    var next := p + |CStr(text[p..])| + 1;
    if index > 0 && next <= |text| {
      DropTwice(text, p, next);
      SkipFindsVariant(text, next, index - 1);
    }
  }

  /** The stepping loop of plural_lookup: NULL when the variants run out. */
  method NthString(text: string, index: nat) returns (p: Option<nat>)
    ensures p == Skip(text, 0, index)
  {
    hide CStr;
    var left: nat, at: nat := index, 0;
    while left > 0
      invariant at <= |text| && Skip(text, 0, index) == Skip(text, at, left)
    {
      at := at + |CStr(text[at..])| + 1;
      if at >= |text| + 1 {
        return None;
      }
      left := left - 1;
    }
    p := Some(at);
  }

  /** Plural variants written one after the other, a NUL between each two. */
  function JoinVariants(vs: seq<string>): string
    requires |vs| > 0
  {
    if |vs| == 1 then vs[0] else vs[0] + ("\0" + JoinVariants(vs[1..]))
  }

  lemma JoinedStep(first: string, rest: string, index: nat)
    requires '\0' !in first
    ensures Variant(first + ("\0" + rest), index) == if index == 0 then Some(first) else Variant(rest, index - 1)
  {
    CStrOfPrefix(first, "\0" + rest);
    assert (first + ("\0" + rest))[|first| + 1..] == rest;
  }

  /** Looking up a variant undoes joining them. */
  lemma {:induction false} JoinedVariant(vs: seq<string>, index: nat)
    requires |vs| > 0 && forall i :: 0 <= i < |vs| ==> '\0' !in vs[i]
    ensures Variant(JoinVariants(vs), index) == if index < |vs| then Some(vs[index]) else None
    decreases index
  {
    var first := vs[0];
    if |vs| == 1 {
      CStrOfPrefix(first, "");
      assert first + "" == first;
    } else {
      var others := vs[1..];
      JoinedStep(first, JoinVariants(others), index);
      if index > 0 {
        JoinedVariant(others, index - 1);
      }
    }
  }
}
