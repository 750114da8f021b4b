/** The part of _nl_load_domain that builds the system dependent strings in memory: a pass
    that measures, and a pass that fills. */
module Loader {
  import opened CStrings
  import opened Catalog
  import opened HashString
  import opened Probing
  import opened Wrappers

  const SEGMENTS_END: nat := 0xFFFF_FFFF
  const SIZEOF_DESC: nat := 16      // struct sysdep_string_desc with 64-bit pointers
  const SIZEOF_UINT32: nat := 4

  /** struct segment_pair, byte order already adjusted. */
  datatype Segment = Segment(segsize: nat, sysdepref: nat)

  /** struct sysdep_string: the segments up to the one that is marked as the last. */
  datatype SysdepString = SysdepString(offset: nat, segments: seq<Segment>)

  /** The .mo file: its bytes, the values of the system dependent segments (None where the
      platform does not define one), and the string pairs. */
  datatype MoFile = MoFile(data: string, hashSize: nat, values: seq<Option<string>>,
                           orig: seq<SysdepString>, trans: seq<SysdepString>)

  function StaticSize(segs: seq<Segment>): nat {
    if segs == [] then 0 else segs[0].segsize + StaticSize(segs[1..])
  }

  /** The size of some segments and others is the sum of their sizes. */
  lemma {:induction false} SizesAdd(a: seq<Segment>, b: seq<Segment>)
    ensures StaticSize(a + b) == StaticSize(a) + StaticSize(b)
  {
    if a == [] {
      assert a + b == b;
    } else {
      assert (a + b)[1..] == a[1..] + b;
      SizesAdd(a[1..], b);
    }
  }

  /** Only the last segment carries the end marker, and the static parts lie in the file. */
  predicate StringOk(s: SysdepString, data: string) {
    && |s.segments| > 0
    && (forall i :: 0 <= i < |s.segments| ==> (s.segments[i].sysdepref == SEGMENTS_END <==> i == |s.segments| - 1))
    && s.offset + StaticSize(s.segments) <= |data|
  }

  predicate FileOk(f: MoFile) {
    && |f.orig| == |f.trans| && |f.values| < SEGMENTS_END
    && (forall s <- f.orig :: StringOk(s, f.data)) && (forall s <- f.trans :: StringOk(s, f.data))
  }

  /** How the references of a string turn out: the first one that is out of range or has no
      value decides. */
  datatype Verdict = Supported | Unsupported | Corrupt

  function VerdictOf(segs: seq<Segment>, values: seq<Option<string>>): Verdict {
    if segs == [] || segs[0].sysdepref == SEGMENTS_END then Supported
    else if segs[0].sysdepref >= |values| then Corrupt
    else if values[segs[0].sysdepref].None? then Unsupported
    else VerdictOf(segs[1..], values)
  }

  /** The string that the segments stand for: static and system dependent parts in turn. */
  function ValueFrom(data: string, offset: nat, segs: seq<Segment>, values: seq<Option<string>>): string
    requires VerdictOf(segs, values) == Supported && offset + StaticSize(segs) <= |data|
    decreases segs
  {
    if segs == [] then ""
    else
      var s := segs[0];
      var fixed := data[offset..offset + s.segsize];
      if s.sysdepref == SEGMENTS_END then fixed
      else fixed + values[s.sysdepref].value + ValueFrom(data, offset + s.segsize, segs[1..], values)
  }

  function Value(f: MoFile, s: SysdepString): string
    requires StringOk(s, f.data) && VerdictOf(s.segments, f.values) == Supported
  {
    ValueFrom(f.data, s.offset, s.segments, f.values)
  }

  /** The bytes that the string takes in the new memory block: none if it is one static segment. */
  function Need(f: MoFile, s: SysdepString): nat
    requires StringOk(s, f.data) && VerdictOf(s.segments, f.values) == Supported
  {
    if s.segments[0].sysdepref == SEGMENTS_END then 0 else |Value(f, s)|
  }

  /** A string of one segment stays in the file; any other one is put together, and takes as many bytes as it has. */
  lemma NeedBySegments(f: MoFile, s: SysdepString)
    requires StringOk(s, f.data) && VerdictOf(s.segments, f.values) == Supported
    ensures Need(f, s) == if |s.segments| == 1 then 0 else |Value(f, s)|
  {
    hide VerdictOf, ValueFrom, StaticSize;
  }

  /** The first segment pair of a string, and what is still to come. */
  lemma PairParts(f: MoFile, segs: seq<Segment>, source: nat)
    requires segs != [] && VerdictOf(segs, f.values) == Supported && source + StaticSize(segs) <= |f.data|
    ensures var (n, ref) := (segs[0].segsize, segs[0].sysdepref);
            && source + n <= |f.data|
            && var all, fixed := ValueFrom(f.data, source, segs, f.values), f.data[source..source + n];
            && (ref == SEGMENTS_END ==> all == fixed)
            && (ref != SEGMENTS_END ==>
                  && ref < |f.values| && f.values[ref].Some? && VerdictOf(segs[1..], f.values) == Supported
                  && source + n + StaticSize(segs[1..]) <= |f.data|
                  && all == (fixed + f.values[ref].value) + ValueFrom(f.data, source + n, segs[1..], f.values))
  {
  }

  /** What the first segment pair contributes to verdict and length. */
  lemma MeasurePair(f: MoFile, segs: seq<Segment>, source: nat)
    requires segs != [] && source + StaticSize(segs) <= |f.data|
    ensures var (n, ref) := (segs[0].segsize, segs[0].sysdepref);
            var v := VerdictOf(segs, f.values);
            && (ref == SEGMENTS_END ==> v == Supported && |ValueFrom(f.data, source, segs, f.values)| == n)
            && (ref != SEGMENTS_END && ref >= |f.values| ==> v == Corrupt)
            && (ref != SEGMENTS_END && ref < |f.values| && f.values[ref].None? ==> v == Unsupported)
            && (ref != SEGMENTS_END && ref < |f.values| && f.values[ref].Some? ==>
                  && v == VerdictOf(segs[1..], f.values) && source + n + StaticSize(segs[1..]) <= |f.data|
                  && (v == Supported ==>
                        |ValueFrom(f.data, source, segs, f.values)|
                        == n + |f.values[ref].value| + |ValueFrom(f.data, source + n, segs[1..], f.values)|))
  {
    if VerdictOf(segs, f.values) == Supported { PairParts(f, segs, source); }
  }

  /** The inner loop of the measuring pass. */
  method Measure(f: MoFile, s: SysdepString) returns (verdict: Verdict, need: nat)
    requires StringOk(s, f.data)
    ensures verdict == VerdictOf(s.segments, f.values)
    ensures verdict == Supported ==> need == Need(f, s)
  {
    need := 0;
    verdict := Supported;
    if s.segments[0].sysdepref == SEGMENTS_END {
      return;
    }
    var p := 0;
    ghost var offset: nat := s.offset;
    ghost var total := if VerdictOf(s.segments, f.values) == Supported then Need(f, s) else 0;
    ghost var rest := s.segments;
    hide VerdictOf, ValueFrom, StaticSize, Need;
    while true
      invariant 0 <= p < |s.segments| && rest == s.segments[p..] && offset + StaticSize(rest) <= |f.data|
      invariant VerdictOf(rest, f.values) == VerdictOf(s.segments, f.values)
      invariant VerdictOf(rest, f.values) == Supported ==> need + |ValueFrom(f.data, offset, rest, f.values)| == total
      decreases |s.segments| - p
    {
      MeasurePair(f, rest, offset);
      need := need + s.segments[p].segsize;
      var sysdepref := s.segments[p].sysdepref;
      if sysdepref == SEGMENTS_END {
        return;
      }
      if sysdepref >= |f.values| {
        return Corrupt, need;
      }
      if f.values[sysdepref].None? {
        return Unsupported, need;
      }
      need := need + |f.values[sysdepref].value|;
      offset := offset + s.segments[p].segsize;
      p := p + 1;
      rest := rest[1..];
    }
  }

  /** How a pair turns out: the translation is looked at only if the msgid is supported. */
  function PairVerdict(f: MoFile, i: nat): Verdict
    requires FileOk(f) && i < |f.orig|
  {
    var v := VerdictOf(f.orig[i].segments, f.values);
    if v == Supported then VerdictOf(f.trans[i].segments, f.values) else v
  }

  /** The msgids (j == 0) or the translations (j == 1) of the kept pairs before i, in file order. */
  function Kept(f: MoFile, j: nat, i: nat): (texts: seq<string>)
    requires FileOk(f) && i <= |f.orig| && j < 2
    ensures |texts| <= i
  {
    if i == 0 then []
    else if PairVerdict(f, i - 1) == Supported then
      Kept(f, j, i - 1) + [Value(f, if j == 0 then f.orig[i - 1] else f.trans[i - 1])]
    else Kept(f, j, i - 1)
  }

  /** The kept pairs are the supported ones in the order of the file: both strings of a pair have the place that the
      number of supported pairs before it gives. */
  lemma {:induction false} KeptPlaces(f: MoFile, n: nat, i: nat)
    requires FileOk(f) && i < n <= |f.orig| && PairVerdict(f, i) == Supported
    ensures |Kept(f, 0, n)| == |Kept(f, 1, n)| == |SupportedBelow(f, n)|
    ensures var k := |SupportedBelow(f, i)|;
            k < |Kept(f, 0, n)| && Kept(f, 0, n)[k] == Value(f, f.orig[i]) && Kept(f, 1, n)[k] == Value(f, f.trans[i])
  {
    KeptLength(f, n);
    KeptLength(f, n - 1);
    KeptLength(f, i);
    if i < n - 1 { KeptPlaces(f, n - 1, i); }
  }

  function SupportedBelow(f: MoFile, n: nat): set<nat>
    requires FileOk(f) && n <= |f.orig|
  {
    set i: nat | i < n && PairVerdict(f, i) == Supported
  }

  lemma {:induction false} KeptLength(f: MoFile, n: nat)
    requires FileOk(f) && n <= |f.orig|
    ensures |Kept(f, 0, n)| == |Kept(f, 1, n)| == |SupportedBelow(f, n)|
  {
    if n == 0 {
      assert SupportedBelow(f, 0) == {};
    } else {
      KeptLength(f, n - 1);
      assert SupportedBelow(f, n)
             == SupportedBelow(f, n - 1) + if PairVerdict(f, n - 1) == Supported then {n - 1} else {};
    }
  }

  /** A pair is supported exactly if both strings are, and corrupt exactly if the first string that is not supported is. */
  lemma PairExactly(f: MoFile, i: nat)
    requires FileOk(f) && i < |f.orig|
    ensures var (a, b) := (VerdictOf(f.orig[i].segments, f.values), VerdictOf(f.trans[i].segments, f.values));
            && (PairVerdict(f, i) == Supported <==> a == Supported && b == Supported)
            && (PairVerdict(f, i) == Corrupt <==> a == Corrupt || (a == Supported && b == Corrupt))
  {
  }

  lemma {:induction false} KeptCounts(f: MoFile, i: nat)
    requires FileOk(f) && i <= |f.orig|
    ensures |Kept(f, 0, i)| == |Kept(f, 1, i)|
  {
    if i > 0 { KeptCounts(f, i - 1); }
  }

  /** The bytes that the strings of the kept pairs before i take. */
  function StringBytes(f: MoFile, i: nat): nat
    requires FileOk(f) && i <= |f.orig|
  {
    if i == 0 then 0
    else StringBytes(f, i - 1)
         + if PairVerdict(f, i - 1) == Supported then Need(f, f.orig[i - 1]) + Need(f, f.trans[i - 1]) else 0
  }

  /** Both measures only grow from pair to pair. */
  lemma {:induction false} Grows(f: MoFile, i: nat, n: nat)
    requires FileOk(f) && i <= n <= |f.orig|
    ensures |Kept(f, 0, i)| <= |Kept(f, 0, n)| && StringBytes(f, i) <= StringBytes(f, n)
  {
    if i < n { Grows(f, i, n - 1); }
  }

  /** The measuring pass; ok is false where the file is rejected. */
  method SizingPass(f: MoFile) returns (ok: bool, inmem: nat, memneed: nat)
    requires FileOk(f)
    ensures ok <==> forall i :: 0 <= i < |f.orig| ==> PairVerdict(f, i) != Corrupt
    ensures ok ==> inmem == |Kept(f, 0, |f.orig|)|
    ensures ok ==> memneed == 2 * inmem * SIZEOF_DESC + f.hashSize * SIZEOF_UINT32 + StringBytes(f, |f.orig|)
  {
    inmem, memneed, ok := 0, f.hashSize * SIZEOF_UINT32, true;
    var i := 0;
    while i < |f.orig|
      invariant 0 <= i <= |f.orig| && ok
      invariant forall j :: 0 <= j < i ==> PairVerdict(f, j) != Corrupt
      invariant inmem == |Kept(f, 0, i)| && memneed == f.hashSize * SIZEOF_UINT32 + StringBytes(f, i)
    {
      var verdict, need0 := Measure(f, f.orig[i]);
      var need1 := 0;
      if verdict == Supported {
        verdict, need1 := Measure(f, f.trans[i]);
      }
      assert verdict == PairVerdict(f, i);
      if verdict == Corrupt {
        return false, inmem, memneed;
      }
      if verdict == Supported {
        inmem := inmem + 1;
        memneed := memneed + (need0 + need1);
      }
      i := i + 1;
    }
    memneed := memneed + 2 * inmem * SIZEOF_DESC;
  }

  /** Where a string begins: in the file, or at an offset of the new memory block. */
  datatype Pointer = InFile(offset: nat) | InMem(offset: nat)

  /** struct sysdep_string_desc. */
  datatype Desc = Desc(length: nat, pointer: Pointer)

  /** The bytes a descriptor addresses, if they lie in the file or below offset `pos` of the block. */
  function Text(d: Desc, data: string, mem: string): Option<string> {
    match d.pointer
    case InFile(o) => if o + d.length <= |data| then Some(data[o..o + d.length]) else None
    case InMem(o) => if o + d.length <= |mem| then Some(mem[o..o + d.length]) else None
  }

  /** memcpy into the block. */
  method MemCpy(mem: array<char>, pos: nat, s: string)
    requires pos + |s| <= mem.Length
    modifies mem
    ensures mem[..pos + |s|] == old(mem[..pos]) + s
  {
    forall i | 0 <= i < |s| {
      mem[pos + i] := s[i];
    }
  }

  /** Copies one segment pair and says what is still to come. */
  method CopyPair(f: MoFile, segs: seq<Segment>, mem: array<char>, pos: nat, source: nat)
    returns (next: nat, ghost piece: string)
    requires segs != [] && VerdictOf(segs, f.values) == Supported && source + StaticSize(segs) <= |f.data|
    requires pos + |ValueFrom(f.data, source, segs, f.values)| <= mem.Length
    modifies mem
    ensures next == pos + |piece| <= mem.Length && mem[..next] == old(mem[..pos]) + piece
    ensures if segs[0].sysdepref == SEGMENTS_END then ValueFrom(f.data, source, segs, f.values) == piece
            else ValueFrom(f.data, source, segs, f.values)
                 == piece + ValueFrom(f.data, source + segs[0].segsize, segs[1..], f.values)
  {
    hide VerdictOf, ValueFrom, StaticSize;
    PairParts(f, segs, source);
    var sysdepref := segs[0].sysdepref;
    var fixed := f.data[source..source + segs[0].segsize];
    piece := fixed;
    next := CopyStatic(mem, pos, fixed);
    if sysdepref != SEGMENTS_END {
      var value := f.values[sysdepref].value;
      MemCpy(mem, next, value);
      Reassociate(old(mem[..pos]), fixed, value);
      next := next + |value|;
      piece := piece + value;
    }
  }

  lemma Reassociate(a: string, b: string, c: string)
    ensures (a + b) + c == a + (b + c)
  {
  }

  /** The static segment, if it is not empty. */
  method CopyStatic(mem: array<char>, pos: nat, piece: string) returns (next: nat)
    requires pos + |piece| <= mem.Length
    modifies mem
    ensures next == pos + |piece| && mem[..next] == old(mem[..pos]) + piece
  {
    next := pos;
    if |piece| > 0 {
      MemCpy(mem, next, piece);
      next := next + |piece|;
    }
  }

  lemma NextSegment(f: MoFile, segs: seq<Segment>)
    requires segs != [] && segs[|segs| - 1].sysdepref == SEGMENTS_END != segs[0].sysdepref
    requires VerdictOf(segs, f.values) == Supported
    ensures |segs| > 1 && VerdictOf(segs[1..], f.values) == Supported
    ensures StaticSize(segs) == segs[0].segsize + StaticSize(segs[1..])
  {
  }

  /** Concatenates all segments of a string at pos. */
  method CopyString(f: MoFile, s: SysdepString, mem: array<char>, pos: nat) returns (next: nat)
    requires StringOk(s, f.data) && VerdictOf(s.segments, f.values) == Supported
    requires pos + |Value(f, s)| <= mem.Length
    modifies mem
    ensures next == pos + |Value(f, s)| && mem[..next] == old(mem[..pos]) + Value(f, s)
  {
    hide VerdictOf, ValueFrom, StaticSize;
    next := pos;
    var segs, source: nat := s.segments, s.offset;
    ghost var before, done, total := mem[..pos], "", Value(f, s);
    while true
      invariant segs != [] && source + StaticSize(segs) <= |f.data| && VerdictOf(segs, f.values) == Supported
      invariant segs[|segs| - 1].sysdepref == SEGMENTS_END
      invariant done + ValueFrom(f.data, source, segs, f.values) == total
      invariant next == pos + |done| <= mem.Length && mem[..next] == before + done
      decreases |segs|
    {
      ghost var piece;
      next, piece := CopyPair(f, segs, mem, next, source);
      assert before + done + piece == before + (done + piece);
      done := done + piece;
      if segs[0].sysdepref == SEGMENTS_END {
        assert done == total;
        return;
      }
      NextSegment(f, segs);
      source := source + segs[0].segsize;
      segs := segs[1..];
    }
  }

  /** Builds one string in the block, or refers to the file if it is one static segment. */
  method Fill(f: MoFile, s: SysdepString, mem: array<char>, pos: nat) returns (d: Desc, next: nat)
    requires StringOk(s, f.data) && VerdictOf(s.segments, f.values) == Supported
    requires pos + Need(f, s) <= mem.Length
    modifies mem
    ensures next == pos + Need(f, s) <= mem.Length && mem[..pos] == old(mem[..pos])
    ensures Text(d, f.data, mem[..next]) == Some(Value(f, s))
  {
    if s.segments[0].sysdepref == SEGMENTS_END {
      return Desc(s.segments[0].segsize, InFile(s.offset)), pos;
    }
    next := CopyString(f, s, mem, pos);
    d := Desc(next - pos, InMem(pos));
    ghost var m := mem[..next];
    assert m[pos..pos + d.length] == Value(f, s) && m[..pos] == old(mem[..pos]);
  }

  /** The validity loop of the filling pass, which checks no reference against the number of
      segments: the measuring pass has done so for every reference that is met here. */
  method HasAllValues(f: MoFile, s: SysdepString) returns (valid: bool)
    requires StringOk(s, f.data) && VerdictOf(s.segments, f.values) != Corrupt
    ensures valid <==> VerdictOf(s.segments, f.values) == Supported
  {
    var p := 0;
    while s.segments[p].sysdepref != SEGMENTS_END
      invariant 0 <= p < |s.segments|
      invariant VerdictOf(s.segments[p..], f.values) == VerdictOf(s.segments, f.values)
      decreases |s.segments| - p
    {
      assert s.segments[p..][1..] == s.segments[p + 1..];
      if f.values[s.segments[p].sysdepref].None? {
        return false;
      }
      p := p + 1;
    }
    valid := true;
  }

  method PairHasAllValues(f: MoFile, i: nat) returns (valid: bool)
    requires FileOk(f) && i < |f.orig| && PairVerdict(f, i) != Corrupt
    ensures valid <==> PairVerdict(f, i) == Supported
  {
    valid := HasAllValues(f, f.orig[i]);
    if valid {
      valid := HasAllValues(f, f.trans[i]);
    }
  }

  /** The first descriptors address these texts. */
  ghost predicate Holds(table: seq<Desc>, texts: seq<string>, data: string, mem: string)
  {
    |texts| <= |table| && forall k :: 0 <= k < |texts| ==> Text(table[k], data, mem) == Some(texts[k])
  }

  /** What a longer prefix of the block adds does not change what a descriptor addresses. */
  lemma TextLonger(d: Desc, data: string, mem: string, mem': string)
    requires mem <= mem' && Text(d, data, mem).Some?
    ensures Text(d, data, mem') == Text(d, data, mem)
  {
    if d.pointer.InMem? {
      var o := d.pointer.offset;
      assert mem'[..|mem|] == mem && mem'[..|mem|][o..o + d.length] == mem'[o..o + d.length];
    }
  }

  lemma HoldsMore(table: seq<Desc>, texts: seq<string>, data: string, mem: string, mem': string, d: Desc, text: string)
    requires Holds(table, texts, data, mem) && mem <= mem' && |texts| < |table|
    requires Text(d, data, mem') == Some(text)
    ensures Holds(table[|texts| := d], texts + [text], data, mem')
  {
    forall k | 0 <= k < |texts| ensures Text(table[k], data, mem') == Some(texts[k]) {
      TextLonger(table[k], data, mem, mem');
    }
  }

  /** Builds the two strings of pair i and enters their descriptors at index k. */
  method FillPair(f: MoFile, i: nat, mem: array<char>, origTab: array<Desc>, transTab: array<Desc>, pos: nat, k: nat)
    returns (next: nat)
    requires FileOk(f) && i < |f.orig| && PairVerdict(f, i) == Supported
    requires k == |Kept(f, 0, i)| == |Kept(f, 1, i)| < origTab.Length == transTab.Length && origTab != transTab
    requires pos + Need(f, f.orig[i]) + Need(f, f.trans[i]) <= mem.Length
    requires Holds(origTab[..], Kept(f, 0, i), f.data, mem[..pos])
    requires Holds(transTab[..], Kept(f, 1, i), f.data, mem[..pos])
    modifies mem, origTab, transTab
    ensures next == pos + Need(f, f.orig[i]) + Need(f, f.trans[i])
    ensures Holds(origTab[..], Kept(f, 0, i + 1), f.data, mem[..next])
    ensures Holds(transTab[..], Kept(f, 1, i + 1), f.data, mem[..next])
  {
    ghost var m0, o0, t0 := mem[..pos], origTab[..], transTab[..];
    var d, e, mid;
    d, mid := Fill(f, f.orig[i], mem, pos);
    ghost var m1 := mem[..mid];
    assert m1[..pos] == m0;
    e, next := Fill(f, f.trans[i], mem, mid);
    ghost var m2 := mem[..next];
    assert m2[..mid] == m1;
    TextLonger(d, f.data, m1, m2);
    HoldsMore(o0, Kept(f, 0, i), f.data, m0, m2, d, Value(f, f.orig[i]));
    HoldsMore(t0, Kept(f, 1, i), f.data, m0, m2, e, Value(f, f.trans[i]));
    origTab[k] := d;
    transTab[k] := e;
    assert origTab[..] == o0[k := d] && transTab[..] == t0[k := e];
  }

  lemma PairStep(f: MoFile, i: nat)
    requires FileOk(f) && i < |f.orig|
    ensures if PairVerdict(f, i) == Supported
            then StringBytes(f, i + 1) == StringBytes(f, i) + Need(f, f.orig[i]) + Need(f, f.trans[i])
                 && |Kept(f, 0, i + 1)| == |Kept(f, 0, i)| + 1
            else StringBytes(f, i + 1) == StringBytes(f, i)
                 && Kept(f, 0, i + 1) == Kept(f, 0, i) && Kept(f, 1, i + 1) == Kept(f, 1, i)
  {
    hide Need, Value;
  }

  lemma NothingKept(f: MoFile, table: seq<Desc>, mem: string)
    requires FileOk(f)
    ensures Kept(f, 0, 0) == Kept(f, 1, 0) == [] && StringBytes(f, 0) == 0 && Holds(table, [], f.data, mem)
  {
  }

  /** The filling pass. It uses up the block that the measuring pass asked for, to the byte. */
  method FillPass(f: MoFile, inmem: nat, memneed: nat)
    returns (mem: array<char>, origTab: array<Desc>, transTab: array<Desc>, pos: nat)
    requires FileOk(f) && forall i :: 0 <= i < |f.orig| ==> PairVerdict(f, i) != Corrupt
    requires inmem == |Kept(f, 0, |f.orig|)|
    requires memneed == 2 * inmem * SIZEOF_DESC + f.hashSize * SIZEOF_UINT32 + StringBytes(f, |f.orig|)
    ensures pos == memneed == mem.Length && origTab.Length == transTab.Length == inmem
    ensures Holds(origTab[..], Kept(f, 0, |f.orig|), f.data, mem[..])
    ensures Holds(transTab[..], Kept(f, 1, |f.orig|), f.data, mem[..])
    ensures fresh(mem) && fresh(origTab) && fresh(transTab)
  {
    hide Kept, StringBytes, Holds, Value, Need, PairVerdict;
    mem := new char[memneed];
    origTab, transTab := new Desc[inmem](_ => Desc(0, InMem(0))), new Desc[inmem](_ => Desc(0, InMem(0)));
    pos := inmem * SIZEOF_DESC + inmem * SIZEOF_DESC + f.hashSize * SIZEOF_UINT32;
    ghost var base := pos;
    var i, k := 0, 0;
    NothingKept(f, origTab[..], mem[..pos]);
    NothingKept(f, transTab[..], mem[..pos]);
    while i < |f.orig|
      invariant 0 <= i <= |f.orig| && k == |Kept(f, 0, i)| && pos == base + StringBytes(f, i) <= memneed
      invariant Holds(origTab[..], Kept(f, 0, i), f.data, mem[..pos])
      invariant Holds(transTab[..], Kept(f, 1, i), f.data, mem[..pos])
    {
      var valid := PairHasAllValues(f, i);
      Grows(f, i + 1, |f.orig|);
      KeptCounts(f, i);
      PairStep(f, i);
      if valid {
        pos := FillPair(f, i, mem, origTab, transTab, pos, k);
        k := k + 1;
      }
      i := i + 1;
    }
    assert k == inmem;  // otherwise the code would abort
    assert mem[..pos] == mem[..];
  }

  /** The system dependent msgids of a loaded file, each with its final NUL. */
  method ReadTable(f: MoFile, table: array<Desc>, mem: array<char>) returns (texts: seq<string>)
    requires FileOk(f) && table.Length == |Kept(f, 0, |f.orig|)|
    requires Holds(table[..], Kept(f, 0, |f.orig|), f.data, mem[..])
    ensures texts == Kept(f, 0, |f.orig|)
  {
    texts := [];
    for k := 0 to table.Length
      invariant texts == Kept(f, 0, |f.orig|)[..k]
    {
      assert Text(table[k], f.data, mem[..]) == Some(Kept(f, 0, |f.orig|)[k]);
      texts := texts + [Text(table[k], f.data, mem[..]).value];
    }
  }

  /** The two passes and the augmentation of the hash table in turn. Unless the file is
      rejected, every msgid, static or system dependent, is then found by the hash search. */
  method LoadSysdep(f: MoFile, orig: seq<string>, hashTab: seq<nat>, hash: string -> nat)
    returns (ok: bool, d: Domain)
    requires FileOk(f) && Prime(|hashTab|) && |hashTab| == f.hashSize > 2
    requires TableOk(hashTab, hash, CStrs(orig))
    requires |FreeSlots(hashTab)| > |Kept(f, 0, |f.orig|)|
    ensures ok <==> forall i :: 0 <= i < |f.orig| ==> PairVerdict(f, i) != Corrupt
    ensures ok ==> d.orig == orig && d.origSysdep == Kept(f, 0, |f.orig|)
    ensures ok ==> |d.hashTab| == |hashTab| && TableOk(d.hashTab, hash, Keys(d)) && FreeSlots(d.hashTab) != {}
  {
    hide Kept, PairVerdict, TableOk, FreeSlots, Prime, StringBytes;
    d := Domain(orig, [], hashTab);
    var inmem, memneed;
    ok, inmem, memneed := SizingPass(f);
    if ok && inmem > 0 {
      var mem, origTab, transTab, pos := FillPass(f, inmem, memneed);
      var texts := ReadTable(f, origTab, mem);
      d := AugmentTable(orig, texts, hashTab, hash);
    } else if ok {
      assert Keys(d) == CStrs(orig);
      assert |FreeSlots(hashTab)| > 0;
    }
  }

  /** The copy of the hash table and its augmentation. */
  method AugmentTable(orig: seq<string>, texts: seq<string>, hashTab: seq<nat>, hash: string -> nat) returns (d: Domain)
    requires Prime(|hashTab|) && |hashTab| > 2 && TableOk(hashTab, hash, CStrs(orig))
    requires |FreeSlots(hashTab)| > |texts|
    ensures d.orig == orig && d.origSysdep == texts && |d.hashTab| == |hashTab|
    ensures TableOk(d.hashTab, hash, Keys(d)) && FreeSlots(d.hashTab) != {}
  {
    hide TableOk, FreeSlots, Prime;
    var keys := CStrs(orig) + CStrs(texts);
    var inmemHash := new nat[|hashTab|](i requires 0 <= i < |hashTab| => hashTab[i]);
    assert inmemHash[..] == hashTab && keys[..|orig|] == CStrs(orig);
    Augment(inmemHash, hash, keys, |orig|);
    d := Domain(orig, texts, inmemHash[..]);
  }

  /** Loading a file and looking a msgid up in it: the answer is that of a linear search over the
      static msgids and those of the supported pairs, in the order of the file. */
  method LoadAndLocate(f: MoFile, orig: seq<string>, hashTab: seq<nat>, msgid: string)
    returns (ok: bool, act: Option<nat>)
    requires FileOk(f) && Prime(|hashTab|) && |hashTab| == f.hashSize > 2
    requires TableOk(hashTab, HashOf, CStrs(orig)) && |FreeSlots(hashTab)| > |Kept(f, 0, |f.orig|)|
    requires Distinct(CStrs(orig) + CStrs(Kept(f, 0, |f.orig|))) && forall s <- Kept(f, 0, |f.orig|) :: '\0' in s
    ensures ok <==> forall i :: 0 <= i < |f.orig| ==> PairVerdict(f, i) != Corrupt
    ensures ok ==> act == IndexOf(CStrs(orig) + CStrs(Kept(f, 0, |f.orig|)), msgid, 0)
  {
    hide Kept, PairVerdict, TableOk, FreeSlots, Prime;
    var d;
    act := None;
    ok, d := LoadSysdep(f, orig, hashTab, HashOf);
    if ok {
      act := Locate(d, msgid);
    }
  }
}
