/** Finding a message in a loaded catalogue, and extending its hash table by the
    system dependent strings. */
module Catalog {
  import opened CStrings
  import opened HashString
  import opened Probing
  import opened Wrappers

  /** The part of struct loaded_domain that lookup uses. A static string is its `length`
      bytes, a system dependent one its `length` bytes with the final NUL; both may hold
      NULs inside, in front of a plural form. hashTab is empty where hash_tab is NULL. */
  datatype Domain = Domain(orig: seq<string>, origSysdep: seq<string>, hashTab: seq<nat>)
  {
    function Count(): nat {
      |orig| + |origSysdep|
    }

    /** The comparison inside the probe loop: length first, then strcmp. */
    predicate Matches(i: nat, msgid: string)
      requires i < Count()
    {
      if i < |orig| then |orig[i]| >= |msgid| && StrCmp(msgid, CStr(orig[i])) == 0
      else |origSysdep[i - |orig|]| > |msgid| && StrCmp(msgid, CStr(origSysdep[i - |orig|])) == 0
    }
  }

  function CStrs(ss: seq<string>): (r: seq<string>)
    ensures |r| == |ss| && forall i :: 0 <= i < |ss| ==> r[i] == CStr(ss[i])
  {
    if ss == [] then [] else CStrs(ss[..|ss| - 1]) + [CStr(ss[|ss| - 1])]
  }

  /** The msgids of a catalogue, static ones first. */
  function Keys(d: Domain): (keys: seq<string>)
    ensures |keys| == d.Count()
  {
    CStrs(d.orig) + CStrs(d.origSysdep)
  }

  ghost predicate Distinct(keys: seq<string>) {
    forall i, j :: 0 <= i < j < |keys| ==> keys[i] != keys[j]
  }

  ghost predicate Terminated(d: Domain) {
    forall s <- d.origSysdep :: '\0' in s
  }

  /** The length test never rejects an entry whose msgid is the one sought. */
  lemma MatchesIsEquality(d: Domain, i: nat, msgid: string)
    requires i < d.Count() && Terminated(d)
    ensures d.Matches(i, msgid) <==> Keys(d)[i] == msgid
  {
    if i >= |d.orig| {
      var s := d.origSysdep[i - |d.orig|];
      assert '\0' in s;
      assert CStr(s) != s;
    }
  }

  /** The linear search that lookup must agree with. */
  function IndexOf(keys: seq<string>, msgid: string, from: nat): (r: Option<nat>)
    requires from <= |keys|
    ensures r.Some? ==> from <= r.value < |keys| && keys[r.value] == msgid
    ensures r.None? ==> forall i :: from <= i < |keys| ==> keys[i] != msgid
    decreases |keys| - from
  {
    if from == |keys| then None
    else if keys[from] == msgid then Some(from)
    else IndexOf(keys, msgid, from + 1)
  }

  /** The first k slots of a probe sequence are taken. */
  ghost predicate TakenUpTo(tab: seq<nat>, hash: nat, k: nat)
    requires |tab| > 2
  {
    forall j: nat :: j < k ==> tab[Slot(|tab|, hash, j)] != 0
  }

  /** Probing with this hash value reaches the slot of entry i before a free one. */
  ghost predicate Findable(tab: seq<nat>, hash: nat, i: nat)
    requires |tab| > 2
  {
    exists k: nat :: tab[Slot(|tab|, hash, k)] == i + 1 && TakenUpTo(tab, hash, k)
  }

  /** All these keys are in the table, each where its hash value leads to. */
  ghost predicate TableOk(tab: seq<nat>, hash: string -> nat, keys: seq<string>)
    requires |tab| > 2
  {
    && (forall s :: 0 <= s < |tab| ==> tab[s] <= |keys|)
    && (forall i :: 0 <= i < |keys| ==> Findable(tab, hash(keys[i]), i))
  }

  ghost function FreeSlots(tab: seq<nat>): set<nat> {
    set s: nat | s < |tab| && tab[s] == 0
  }

  /** A probe that has met only taken slots has not yet reached a free one. */
  lemma StopsInTime(tab: seq<nat>, hash: nat, k: nat)
    requires Prime(|tab|) && |tab| > 2 && FreeSlots(tab) != {} && TakenUpTo(tab, hash, k)
    ensures k < |tab|
  {
    var s :| s in FreeSlots(tab);
    var j := VisitsAll(|tab|, hash, s);
  }

  lemma FoundBefore(tab: seq<nat>, hash: nat, i: nat, k: nat)
    requires |tab| > 2 && Findable(tab, hash, i) && tab[Slot(|tab|, hash, k)] == 0
    ensures exists j: nat :: j < k && tab[Slot(|tab|, hash, j)] == i + 1
  {
    var j: nat :| tab[Slot(|tab|, hash, j)] == i + 1 && TakenUpTo(tab, hash, j);
  }

  /** No entry before step k of the probe sequence has this msgid. */
  ghost predicate MissedUpTo(tab: seq<nat>, keys: seq<string>, hash: nat, msgid: string, k: nat)
    requires |tab| > 2 && forall s :: 0 <= s < |tab| ==> tab[s] <= |keys|
  {
    forall j: nat :: j < k ==>
      var e := tab[Slot(|tab|, hash, j)]; e != 0 && keys[e - 1] != msgid
  }

  lemma OnlyIndex(keys: seq<string>, msgid: string, i: nat)
    requires Distinct(keys) && i < |keys| && keys[i] == msgid
    ensures IndexOf(keys, msgid, 0) == Some(i)
  {
  }

  lemma MissedOneMore(tab: seq<nat>, keys: seq<string>, hash: nat, msgid: string, k: nat)
    requires |tab| > 2 && forall s :: 0 <= s < |tab| ==> tab[s] <= |keys|
    requires MissedUpTo(tab, keys, hash, msgid, k)
    requires var e := tab[Slot(|tab|, hash, k)]; e != 0 && keys[e - 1] != msgid
    ensures MissedUpTo(tab, keys, hash, msgid, k + 1)
  {
  }

  /** An entry of the table is met before a free slot. */
  lemma KeyIsMet(tab: seq<nat>, hash: string -> nat, keys: seq<string>, i: nat, k: nat)
    requires |tab| > 2 && TableOk(tab, hash, keys) && i < |keys| && tab[Slot(|tab|, hash(keys[i]), k)] == 0
    ensures !MissedUpTo(tab, keys, hash(keys[i]), keys[i], k)
  {
    FoundBefore(tab, hash(keys[i]), i, k);
  }

  /** A probe that ends at a free slot has missed no entry. */
  lemma FreeSlotMeansAbsent(tab: seq<nat>, hash: string -> nat, keys: seq<string>, msgid: string, k: nat)
    requires |tab| > 2 && TableOk(tab, hash, keys)
    requires MissedUpTo(tab, keys, hash(msgid), msgid, k) && tab[Slot(|tab|, hash(msgid), k)] == 0
    ensures IndexOf(keys, msgid, 0) == None
  {
    var found := IndexOf(keys, msgid, 0);
    hide MissedUpTo, IndexOf, Findable;
    if found.Some? {
      KeyIsMet(tab, hash, keys, found.value, k);
      assert false;
    }
  }

  /** The probe loop of _nl_find_msg: walks the table until an entry matches or a slot is free. */
  method Probe(tab: seq<nat>, hashVal: nat, matches: nat -> bool, ghost keys: seq<string>, ghost msgid: string)
    returns (act: Option<nat>, ghost k: nat)
    requires Prime(|tab|) && |tab| > 2 && FreeSlots(tab) != {}
    requires forall s :: 0 <= s < |tab| ==> tab[s] <= |keys|
    requires forall i: nat :: i < |keys| ==> (matches(i) <==> keys[i] == msgid)
    ensures MissedUpTo(tab, keys, hashVal, msgid, k)
    ensures act.None? ==> tab[Slot(|tab|, hashVal, k)] == 0
    ensures act.Some? ==> act.value < |keys| && keys[act.value] == msgid
  {
    var size := |tab|;
    var idx := hashVal % size;
    var incr := 1 + hashVal % (size - 2);
    k := 0;
    while true
      invariant incr == Incr(size, hashVal) && idx == Slot(size, hashVal, k)
      invariant MissedUpTo(tab, keys, hashVal, msgid, k)
      decreases size - k
    {
      StopsInTime(tab, hashVal, k);
      var nstr := tab[idx];
      if nstr == 0 {
        return None, k;
      }
      nstr := nstr - 1;
      if matches(nstr) {
        return Some(nstr), k;
      }
      MissedOneMore(tab, keys, hashVal, msgid, k);
      if idx >= size - incr {
        idx := idx - (size - incr);
      } else {
        idx := idx + incr;
      }
      k := k + 1;
    }
  }

  /** _nl_find_msg in a catalogue with a hash table, once the hash value is computed. */
  method HashSearch(d: Domain, ghost hash: string -> nat, hashVal: nat, msgid: string) returns (act: Option<nat>)
    requires hashVal == hash(msgid)
    requires Prime(|d.hashTab|) && |d.hashTab| > 2 && FreeSlots(d.hashTab) != {}
    requires TableOk(d.hashTab, hash, Keys(d)) && Distinct(Keys(d)) && Terminated(d)
    ensures act == IndexOf(Keys(d), msgid, 0)
  {
    var matches := (i: nat) => i < d.Count() && d.Matches(i, msgid);
    forall i: nat | i < d.Count() ensures matches(i) <==> Keys(d)[i] == msgid {
      MatchesIsEquality(d, i, msgid);
    }
    ghost var k;
    act, k := Probe(d.hashTab, hashVal, matches, Keys(d), msgid);
    if act.None? {
      FreeSlotMeansAbsent(d.hashTab, hash, Keys(d), msgid, k);
    } else {
      OnlyIndex(Keys(d), msgid, act.value);
    }
  }

  ghost predicate Sorted(d: Domain) {
    forall i: nat, j: nat :: i < j < |d.orig| ==> StrCmp(Keys(d)[i], Keys(d)[j]) < 0
  }

  /** The msgid lies in the sorted keys between bottom and top, if anywhere. */
  ghost predicate Between(keys: seq<string>, msgid: string, bottom: nat, top: nat) {
    && (forall i: nat :: i < bottom && i < |keys| ==> StrCmp(keys[i], msgid) < 0)
    && (forall i: nat :: top <= i < |keys| ==> StrCmp(msgid, keys[i]) < 0)
  }

  ghost predicate Ascending(keys: seq<string>) {
    forall i: nat, j: nat :: i < j < |keys| ==> StrCmp(keys[i], keys[j]) < 0
  }

  lemma Halve(keys: seq<string>, msgid: string, bottom: nat, mid: nat, top: nat)
    requires Ascending(keys) && Between(keys, msgid, bottom, top) && mid < |keys|
    ensures StrCmp(msgid, keys[mid]) < 0 ==> Between(keys, msgid, bottom, mid)
    ensures StrCmp(msgid, keys[mid]) > 0 ==> Between(keys, msgid, mid + 1, top)
    ensures StrCmp(msgid, keys[mid]) == 0 ==> IndexOf(keys, msgid, 0) == Some(mid)
  {
    hide StrCmp;
    var cmpVal := StrCmp(msgid, keys[mid]);
    if cmpVal < 0 {
      forall i: nat | mid <= i < |keys| ensures StrCmp(msgid, keys[i]) < 0 {
        if i > mid { StrCmpTransitive(msgid, keys[mid], keys[i]); }
      }
    } else if cmpVal > 0 {
      StrCmpFlip(msgid, keys[mid]);
      forall i: nat | i <= mid ensures StrCmp(keys[i], msgid) < 0 {
        if i < mid { StrCmpTransitive(keys[i], keys[mid], msgid); }
      }
    } else {
      AllDifferent(keys);
      OnlyIndex(keys, msgid, mid);
    }
  }

  lemma AllDifferent(keys: seq<string>)
    requires Ascending(keys)
    ensures Distinct(keys)
  {
    hide StrCmp;
  }

  lemma NotBetween(keys: seq<string>, msgid: string, at: nat)
    requires Between(keys, msgid, at, at)
    ensures IndexOf(keys, msgid, 0) == None
  {
    hide StrCmp, IndexOf;
    forall i: nat | i < |keys| ensures keys[i] != msgid {
      if i < at { assert StrCmp(keys[i], msgid) < 0; } else { assert StrCmp(msgid, keys[i]) < 0; }
    }
  }

  /** The binary search of _nl_find_msg, for catalogues without a hash table. */
  method BinarySearch(d: Domain, msgid: string) returns (act: Option<nat>)
    requires Sorted(d) && d.origSysdep == []
    ensures act == IndexOf(Keys(d), msgid, 0)
  {
    hide StrCmp, CStr, IndexOf, Between, Ascending;
    var bottom: nat, top: nat := 0, |d.orig|;
    SortedKeys(d, msgid);
    while bottom < top
      invariant bottom <= top <= |d.orig| && Between(Keys(d), msgid, bottom, top)
    {
      var mid: nat := (bottom + top) / 2;
      var cmpVal := StrCmp(msgid, CStr(d.orig[mid]));
      Halve(Keys(d), msgid, bottom, mid, top);
      if cmpVal < 0 {
        top := mid;
      } else if cmpVal > 0 {
        bottom := mid + 1;
      } else {
        return Some(mid);
      }
    }
    NotBetween(Keys(d), msgid, bottom);
    act := None;
  }

  lemma SortedKeys(d: Domain, msgid: string)
    requires Sorted(d) && d.origSysdep == []
    ensures Ascending(Keys(d)) && Between(Keys(d), msgid, 0, |d.orig|)
  {
    hide StrCmp;
  }

  /** What lookup relies on: a table that holds every msgid where hash_string leads to, or a sorted catalogue. */
  ghost predicate Searchable(d: Domain) {
    if d.hashTab == [] then Sorted(d) && d.origSysdep == []
    else
      && Prime(|d.hashTab|) && |d.hashTab| > 2 && FreeSlots(d.hashTab) != {}
      && TableOk(d.hashTab, HashOf, Keys(d)) && Distinct(Keys(d)) && Terminated(d)
  }

  /** Locating the msgid in _nl_find_msg: by hash table if there is one, and by binary search otherwise. */
  method Locate(d: Domain, msgid: string) returns (act: Option<nat>)
    requires Searchable(d)
    ensures act == IndexOf(Keys(d), msgid, 0)
  {
    if d.hashTab != [] {
      var hashVal := HashValue(msgid);
      act := HashSearch(d, HashOf, hashVal, msgid);
    } else {
      act := BinarySearch(d, msgid);
    }
  }

  /** Filling a free slot hides no entry. */
  lemma FillKeeps(tab: seq<nat>, slot: nat, v: nat, hash: nat, i: nat)
    requires |tab| > 2 && slot < |tab| && tab[slot] == 0 && v != 0 && Findable(tab, hash, i)
    ensures Findable(tab[slot := v], hash, i)
  {
    var k: nat :| tab[Slot(|tab|, hash, k)] == i + 1 && TakenUpTo(tab, hash, k);
    var t := tab[slot := v];
    assert t[Slot(|t|, hash, k)] == i + 1 && TakenUpTo(t, hash, k);
  }

  /** Putting entry i into the first free slot of its probe sequence makes it findable and
      keeps all earlier entries findable. */
  lemma InsertKeeps(tab: seq<nat>, hash: string -> nat, keys: seq<string>, i: nat, k: nat)
    requires |tab| > 2 && i < |keys| && TableOk(tab, hash, keys[..i])
    requires TakenUpTo(tab, hash(keys[i]), k) && tab[Slot(|tab|, hash(keys[i]), k)] == 0
    ensures TableOk(tab[Slot(|tab|, hash(keys[i]), k) := i + 1], hash, keys[..i + 1])
  {
    var slot := Slot(|tab|, hash(keys[i]), k);
    var t := tab[slot := i + 1];
    var ks := keys[..i + 1];
    forall j | 0 <= j < i + 1 ensures Findable(t, hash(ks[j]), j) {
      if j < i {
        assert keys[..i][j] == ks[j];
        FillKeeps(tab, slot, i + 1, hash(keys[j]), j);
      } else {
        assert t[Slot(|t|, hash(keys[i]), k)] == i + 1 && TakenUpTo(t, hash(keys[i]), k);
      }
    }
  }

  /** The probe loop of the augmentation: the first free slot for a hash value. */
  method FirstFree(tab: array<nat>, hashVal: nat) returns (idx: nat, ghost k: nat)
    requires Prime(tab.Length) && tab.Length > 2 && FreeSlots(tab[..]) != {}
    ensures idx == Slot(tab.Length, hashVal, k) && tab[idx] == 0 && TakenUpTo(tab[..], hashVal, k)
  {
    var size := tab.Length;
    idx := hashVal % size;
    var incr := 1 + hashVal % (size - 2);
    k := 0;
    while tab[idx] != 0
      invariant incr == Incr(size, hashVal) && idx == Slot(size, hashVal, k)
      invariant TakenUpTo(tab[..], hashVal, k)
      decreases size - k
    {
      StopsInTime(tab[..], hashVal, k);
      if idx >= size - incr {
        idx := idx - (size - incr);
      } else {
        idx := idx + incr;
      }
      k := k + 1;
    }
  }

  /** _nl_load_domain's augmentation of the hash table: enters the system dependent msgids,
      keys[nstrings..], behind the static ones. */
  method Augment(tab: array<nat>, hash: string -> nat, keys: seq<string>, nstrings: nat)
    requires Prime(tab.Length) && tab.Length > 2 && nstrings <= |keys|
    requires TableOk(tab[..], hash, keys[..nstrings])
    requires |FreeSlots(tab[..])| > |keys| - nstrings
    modifies tab
    ensures TableOk(tab[..], hash, keys) && FreeSlots(tab[..]) != {}
    ensures forall s :: 0 <= s < tab.Length && old(tab[s]) != 0 ==> tab[s] == old(tab[s])
    ensures |FreeSlots(tab[..])| == |FreeSlots(old(tab[..]))| - (|keys| - nstrings)
  {
    var i: nat := 0;
    while i < |keys| - nstrings
      invariant 0 <= i <= |keys| - nstrings
      invariant TableOk(tab[..], hash, keys[..nstrings + i])
      invariant |FreeSlots(tab[..])| == |FreeSlots(old(tab[..]))| - i
      invariant forall s :: 0 <= s < tab.Length && old(tab[s]) != 0 ==> tab[s] == old(tab[s])
    {
      ghost var t := tab[..];
      var hashVal := hash(keys[nstrings + i]);
      var idx;
      ghost var k;
      idx, k := FirstFree(tab, hashVal);
      InsertKeeps(t, hash, keys, nstrings + i, k);
      var entry: nat := 1 + nstrings + i;
      tab[idx] := entry;
      assert tab[..] == t[idx := entry];
      assert FreeSlots(tab[..]) == FreeSlots(t) - {idx};
      i := i + 1;
    }
    assert keys[..nstrings + i] == keys;
  }
}
