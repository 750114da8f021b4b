/** The list of bindings of bindtextdom.c: kept sorted by domain name, searched with early
    exit, and changed in place. */
module Bindings {
  import opened CStrings
  import opened Wrappers

  /** struct binding without its link. */
  datatype Binding = Binding(domainname: string, dirname: string, codeset: Option<string>, codesetCntr: nat)

  /** What a program has asked for one domain. */
  datatype Setting = Setting(dirname: string, codeset: Option<string>)

  /** What the list stands for. */
  type Settings = map<string, Setting>

  predicate Sorted(bs: seq<Binding>) {
    forall i, j :: 0 <= i < j < |bs| ==> StrCmp(bs[i].domainname, bs[j].domainname) < 0
  }

  /** This binding says what m says, and has a codeset only if its counter is positive. */
  predicate Agrees(b: Binding, m: Settings) {
    && b.domainname in m && m[b.domainname] == Setting(b.dirname, b.codeset)
    && (b.codesetCntr == 0 <==> b.codeset.None?)
  }

  ghost predicate Covers(bs: seq<Binding>, m: Settings) {
    forall d :: d in m ==> exists i :: 0 <= i < |bs| && bs[i].domainname == d
  }

  /** The list is sorted and holds exactly these settings. */
  ghost predicate Represents(bs: seq<Binding>, m: Settings) {
    Sorted(bs) && Covers(bs, m) && forall i :: 0 <= i < |bs| ==> Agrees(bs[i], m)
  }

  /** The codeset counter that lookups compare with: 0 for a domain without binding. */
  function CntrOf(bs: seq<Binding>, domain: string): nat {
    if bs == [] then 0
    else if bs[|bs| - 1].domainname == domain then bs[|bs| - 1].codesetCntr
    else CntrOf(bs[..|bs| - 1], domain)
  }

  lemma NamesDiffer(bs: seq<Binding>, i: nat, j: nat)
    requires Sorted(bs) && i < j < |bs|
    ensures bs[i].domainname != bs[j].domainname
  {
  }

  lemma {:induction false} CntrAt(bs: seq<Binding>, i: nat)
    requires Sorted(bs) && i < |bs|
    ensures CntrOf(bs, bs[i].domainname) == bs[i].codesetCntr
  {
    if i < |bs| - 1 {
      assert bs[i].domainname != bs[|bs| - 1].domainname;
      CntrAt(bs[..|bs| - 1], i);
    }
  }

  lemma {:induction false} CntrAbsent(bs: seq<Binding>, domain: string)
    requires forall i :: 0 <= i < |bs| ==> bs[i].domainname != domain
    ensures CntrOf(bs, domain) == 0
  {
    if bs != [] { CntrAbsent(bs[..|bs| - 1], domain); }
  }

  /** The search loop of set_binding_values and DCIGETTEXT; the length stands for NULL. */
  method FindBinding(bs: seq<Binding>, domain: string) returns (i: nat)
    requires Sorted(bs)
    ensures i <= |bs|
    ensures i < |bs| ==> bs[i].domainname == domain
    ensures i == |bs| ==> forall j :: 0 <= j < |bs| ==> bs[j].domainname != domain
  {
    i := 0;
    while i < |bs|
      invariant 0 <= i <= |bs| && forall j :: 0 <= j < i ==> bs[j].domainname != domain
    {
      var compare := StrCmp(domain, bs[i].domainname);
      if compare == 0 {
        return;
      }
      if compare < 0 {
        forall j | i < j < |bs| ensures bs[j].domainname != domain {
          StrCmpTransitive(domain, bs[i].domainname, bs[j].domainname);
        }
        return |bs|;
      }
      i := i + 1;
    }
  }

  /** r is bs with b put in at k. */
  predicate Inserted(bs: seq<Binding>, b: Binding, k: nat, r: seq<Binding>) {
    && k <= |bs| && |r| == |bs| + 1 && r[k] == b
    && (forall j :: 0 <= j < k ==> r[j] == bs[j])
    && (forall j :: k <= j < |bs| ==> r[j + 1] == bs[j])
  }

  lemma ConcatInserts(bs: seq<Binding>, b: Binding, k: nat)
    requires k <= |bs|
    ensures Inserted(bs, b, k, bs[..k] + [b] + bs[k..])
  {
  }

  /** The insertion of a new binding: in front of the head, or behind the last element that
      is smaller. */
  method Insert(bs: seq<Binding>, b: Binding) returns (r: seq<Binding>, ghost k: nat)
    requires Sorted(bs) && forall j :: 0 <= j < |bs| ==> bs[j].domainname != b.domainname
    ensures k <= |bs| && r == bs[..k] + [b] + bs[k..] && Inserted(bs, b, k, r) && Sorted(r)
  {
    if bs == [] || StrCmp(b.domainname, bs[0].domainname) < 0 {
      InsertSorted(bs, b, 0);
      ConcatInserts(bs, b, 0);
      assert bs[..0] + [b] + bs[0..] == [b] + bs;
      return [b] + bs, 0;
    }
    var i := 0;
    while i + 1 < |bs| && StrCmp(b.domainname, bs[i + 1].domainname) > 0
      invariant 0 <= i < |bs| && StrCmp(b.domainname, bs[i].domainname) > 0
    {
      i := i + 1;
    }
    StrCmpFlip(b.domainname, bs[i].domainname);
    InsertSorted(bs, b, i + 1);
    ConcatInserts(bs, b, i + 1);
    r, k := bs[..i + 1] + [b] + bs[i + 1..], i + 1;
  }

  lemma InsertSorted(bs: seq<Binding>, b: Binding, k: nat)
    requires Sorted(bs) && k <= |bs|
    requires k > 0 ==> StrCmp(bs[k - 1].domainname, b.domainname) < 0
    requires k < |bs| ==> StrCmp(b.domainname, bs[k].domainname) < 0
    ensures Sorted(bs[..k] + [b] + bs[k..])
  {
    forall i | 0 <= i < k ensures StrCmp(bs[i].domainname, b.domainname) < 0 {
      if i < k - 1 { StrCmpTransitive(bs[i].domainname, bs[k - 1].domainname, b.domainname); }
    }
    forall i | k <= i < |bs| ensures StrCmp(b.domainname, bs[i].domainname) < 0 {
      if i > k { StrCmpTransitive(b.domainname, bs[k].domainname, bs[i].domainname); }
    }
    hide StrCmp;
    SortedAround(bs, b, k);
  }

  lemma SortedAround(bs: seq<Binding>, b: Binding, k: nat)
    requires Sorted(bs) && k <= |bs|
    requires forall i :: 0 <= i < k ==> StrCmp(bs[i].domainname, b.domainname) < 0
    requires forall i :: k <= i < |bs| ==> StrCmp(b.domainname, bs[i].domainname) < 0
    ensures Sorted(bs[..k] + [b] + bs[k..])
  {
    hide StrCmp;
  }

  lemma {:induction false} CntrAfterInsert(bs: seq<Binding>, b: Binding, k: nat, domain: string)
    requires k <= |bs| && (forall j :: 0 <= j < |bs| ==> bs[j].domainname != b.domainname)
    ensures CntrOf(bs[..k] + [b] + bs[k..], domain) == if domain == b.domainname then b.codesetCntr else CntrOf(bs, domain)
  {
    var r := bs[..k] + [b] + bs[k..];
    if k == |bs| {
      assert r[..|r| - 1] == bs;
      CntrAbsent(bs, b.domainname);
    } else {
      var m := |bs| - 1;
      assert r[..|r| - 1] == bs[..m][..k] + [b] + bs[..m][k..];
      CntrAfterInsert(bs[..m], b, k, domain);
    }
  }

  lemma {:induction false} CntrAfterUpdate(bs: seq<Binding>, i: nat, b: Binding, domain: string)
    requires Sorted(bs) && i < |bs| && b.domainname == bs[i].domainname
    ensures CntrOf(bs[i := b], domain) == if domain == b.domainname then b.codesetCntr else CntrOf(bs, domain)
  {
    hide StrCmp;
    var m := |bs| - 1;
    if i < m {
      NamesDiffer(bs, i, m);
      assert bs[i := b][..m] == bs[..m][i := b];
      assert Sorted(bs[..m]);
      hide Sorted;
      CntrAfterUpdate(bs[..m], i, b, domain);
    } else {
      assert bs[i := b][..m] == bs[..m];
    }
  }

  /** Changing one domain's setting does not concern the bindings of others. */
  lemma OthersAgree(b: Binding, m: Settings, c: Binding)
    requires Agrees(c, m) && c.domainname != b.domainname
    ensures Agrees(c, m[b.domainname := Setting(b.dirname, b.codeset)])
  {
  }

  lemma RepresentsUpdate(bs: seq<Binding>, m: Settings, i: nat, b: Binding)
    requires Represents(bs, m) && i < |bs| && b.domainname == bs[i].domainname
    requires b.codesetCntr == 0 <==> b.codeset.None?
    ensures Represents(bs[i := b], m[b.domainname := Setting(b.dirname, b.codeset)])
  {
    var r, n := bs[i := b], m[b.domainname := Setting(b.dirname, b.codeset)];
    assert Covers(r, n) by {
      forall d | d in n ensures exists j :: 0 <= j < |r| && r[j].domainname == d {
        var j :| 0 <= j < |bs| && bs[j].domainname == d;
        assert r[j].domainname == d;
      }
    }
    forall j | 0 <= j < |r| ensures Agrees(r[j], n) {
      if j != i {
        assert bs[j].domainname != bs[i].domainname;
        OthersAgree(b, m, bs[j]);
      }
    }
  }

  lemma CoversInsert(bs: seq<Binding>, m: Settings, b: Binding, k: nat, r: seq<Binding>)
    requires Covers(bs, m) && Inserted(bs, b, k, r)
    ensures Covers(r, m[b.domainname := Setting(b.dirname, b.codeset)])
  {
    assert r[k].domainname == b.domainname;
    forall d | d in m ensures exists j :: 0 <= j < |r| && r[j].domainname == d {
      var j :| 0 <= j < |bs| && bs[j].domainname == d;
      if j < k { assert r[j] == bs[j]; } else { assert r[j + 1] == bs[j]; }
    }
  }

  lemma AgreesInsert(bs: seq<Binding>, m: Settings, b: Binding, k: nat, r: seq<Binding>)
    requires (forall i :: 0 <= i < |bs| ==> Agrees(bs[i], m)) && Inserted(bs, b, k, r)
    requires b.domainname !in m && (b.codesetCntr == 0 <==> b.codeset.None?)
    ensures var n := m[b.domainname := Setting(b.dirname, b.codeset)]; forall j :: 0 <= j < |r| ==> Agrees(r[j], n)
  {
    var n := m[b.domainname := Setting(b.dirname, b.codeset)];
    forall j | 0 <= j < |r| ensures Agrees(r[j], n) {
      if j < k {
        OthersAgree(b, m, bs[j]);
      } else if j > k {
        var i := j - 1;
        assert r[i + 1] == bs[i];
        OthersAgree(b, m, bs[i]);
      }
    }
  }

  lemma RepresentsInsert(bs: seq<Binding>, m: Settings, b: Binding, k: nat, r: seq<Binding>)
    requires Represents(bs, m) && b.domainname !in m && Inserted(bs, b, k, r) && Sorted(r)
    requires b.codesetCntr == 0 <==> b.codeset.None?
    ensures Represents(r, m[b.domainname := Setting(b.dirname, b.codeset)])
  {
    CoversInsert(bs, m, b, k, r);
    AgreesInsert(bs, m, b, k, r);
  }

  /** What a caller passes for one attribute: no pointer, a pointer to NULL, or a new value. */
  datatype Request = Ignore | Ask | Set(value: string)

  function SettingOf(m: Settings, defaultDir: string, domain: string): Setting {
    if domain in m then m[domain] else Setting(defaultDir, None)
  }

  /** The settings that a call of set_binding_values asks for. */
  function NewSettings(m: Settings, defaultDir: string, domain: string, dir: Request, codeset: Request): Settings
  {
    var was := SettingOf(m, defaultDir, domain);
    if domain == "" || !(dir.Set? || codeset.Set?) then m
    else m[domain := Setting(if dir.Set? then dir.value else was.dirname,
                             if codeset.Set? then Some(codeset.value) else was.codeset)]
  }
}
