/** What a program sees of the gettext functions: each reply is determined by the calls before it and by the files. */
module Behaviour {
  import opened Bindings
  import opened Caches
  import opened CStrings
  import opened Variants
  import opened Wrappers
  import Catalog
  import Headers
  import PluralExp
  import PluralMeaning

  // ---- What earlier calls have set ----

  /** The directory that a call sets for a domain. */
  function DirSet(call: Call, d: string): Option<string> {
    if call.Bind? && call.domain == Some(d) && d != "" && call.dir.Set? then Some(call.dir.value) else None
  }

  function CodesetSet(call: Call, d: string): Option<string> {
    if call.Bind? && call.domain == Some(d) && d != "" && call.codeset.Set? then Some(call.codeset.value) else None
  }

  /** The directory of a domain is the one that was set last. */
  function LastDir(calls: seq<Call>, d: string, default: string): string {
    if calls == [] then default
    else DirSet(calls[|calls| - 1], d).GetOr(LastDir(calls[..|calls| - 1], d, default))
  }

  function LastCodeset(calls: seq<Call>, d: string): Option<string> {
    if calls == [] then None
    else if CodesetSet(calls[|calls| - 1], d).Some? then CodesetSet(calls[|calls| - 1], d)
    else LastCodeset(calls[..|calls| - 1], d)
  }

  /** The current domain is the one that was named last; the empty name stands for "messages". */
  function CurrentDomain(calls: seq<Call>): string {
    if calls == [] then "messages"
    else
      match calls[|calls| - 1]
      case SetDomain(Some(name)) => if name == "" then "messages" else name
      case _ => CurrentDomain(calls[..|calls| - 1])
  }

  // ---- Where a translation comes from ----

  /** The locales up to the first that stands for no translation. */
  predicate Tried(locales: seq<string>, i: nat) {
    i < |locales| && forall k :: 0 <= k <= i ==> locales[k] != "C" && locales[k] != "POSIX"
  }

  predicate Knows(env: Env, id: FileId, msgid: string) {
    env.files(id).Some? && msgid in Catalog.Keys(env.files(id).value.catalog)
  }

  function ChainOf(env: Env, dir: string, dom: string, cat: int, i: nat): seq<FileId>
    requires i < |env.locales(cat)|
  {
    env.chain(dir, env.locales(cat)[i], cat, dom)
  }

  predicate KnownAt(env: Env, dir: string, dom: string, cat: int, msgid: string, i: nat, j: nat) {
    && Tried(env.locales(cat), i) && j < |ChainOf(env, dir, dom, cat, i)|
    && Knows(env, ChainOf(env, dir, dom, cat, i)[j], msgid)
  }

  /** The catalogue with number j of the locale with number i has the msgid, and none before it has. */
  ghost predicate FirstKnown(env: Env, dir: string, dom: string, cat: int, msgid: string, i: nat, j: nat) {
    && KnownAt(env, dir, dom, cat, msgid, i, j)
    && forall k: nat, l: nat :: KnownAt(env, dir, dom, cat, msgid, k, l) ==> i < k || (i == k && j <= l)
  }

  ghost predicate Unknown(env: Env, dir: string, dom: string, cat: int, msgid: string) {
    forall i: nat, j: nat :: !KnownAt(env, dir, dom, cat, msgid, i, j)
  }

  /** The text for a msgid of a catalogue: converted to the charset that was set, or else to that of the environment, if
      the catalogue names its charset and iconv can do it. */
  ghost predicate TextOf(env: Env, codeset: Option<string>, f: File, msgid: string, text: string) {
    exists act: nat ::
      && act < |Catalog.Keys(f.catalog)| && Catalog.Keys(f.catalog)[act] == msgid
      && text == var (from, to) := (f.Charset(), codeset.GetOr(env.outCharset));
                 if from.Some? && env.canOpen(to, from.value) && env.convert(from.value, to, f.trans(act)).Some?
                 then env.convert(from.value, to, f.trans(act)).value else f.trans(act)
  }

  // ---- What is answered ----

  /** A text and the strings that it consists of. */
  predicate Splits(text: string, vs: seq<string>) {
    |vs| > 0 && (forall v <- vs :: '\0' !in v) && text == JoinVariants(vs)
  }

  /** The form that the rule selects, or the first if there is no such form. */
  ghost predicate FormOf(rule: Headers.Rule, n: nat, vs: seq<string>, a: Answer)
    requires |vs| > 0
  {
    || (PluralMeaning.Means(rule.plural, n, None) && a == Fpe)
    || exists v: nat :: PluralMeaning.Means(rule.plural, n, Some(v))
                   && a == Text(if v < rule.nplurals && v < |vs| then vs[v] else vs[0])
  }

  ghost predicate Translated(env: Env, f: File, text: string, plural: Option<Plural>, a: Answer) {
    exists vs :: Splits(text, vs) && match plural
                                     case None => a == Text(vs[0])
                                     case Some(p) => FormOf(f.Rule(), p.n, vs, a)
  }

  /** The answer to a lookup after some calls. */
  ghost predicate Answers(env: Env, past: seq<Call>, dom: string, msgid: string, plural: Option<Plural>, cat: int,
                          a: Answer)
  {
    var dir := LastDir(past, dom, env.defaultDir);
    || (Unknown(env, dir, dom, cat, msgid)
        && a == Text(if plural.Some? && plural.value.n != 1 then plural.value.msgid2 else msgid))
    || exists i: nat, j: nat, text ::
         && FirstKnown(env, dir, dom, cat, msgid, i, j)
         && var f := env.files(ChainOf(env, dir, dom, cat, i)[j]).value;
            TextOf(env, LastCodeset(past, dom), f, msgid, text) && Translated(env, f, text, plural, a)
  }

  ghost predicate Replies(env: Env, past: seq<Call>, call: Call, r: Reply) {
    match call
    case SetDomain(_) => r == Current(CurrentDomain(past + [call]))
    case Bind(domain, dir, codeset) =>
      (match domain
       case Some(d) =>
         if d == "" then r == Reply.BoundTo(None, None)
         else r == Reply.BoundTo(if dir.Ignore? then None else Some(LastDir(past + [call], d, env.defaultDir)),
                                 if codeset.Ignore? then None else LastCodeset(past + [call], d))
       case None => r == Reply.BoundTo(None, None))
    case Get(domainname, msgid, plural, cat) =>
      match msgid
      case None => r == Message(Null)
      case Some(id) =>
        r.Message? && Answers(env, past, domainname.GetOr(CurrentDomain(past)), id, plural, cat, r.answer)
  }

  // ---- Settings are those set last ----

  ghost predicate Agree(env: Env, past: seq<Call>, m: Settings, current: string) {
    && current == CurrentDomain(past)
    && forall d :: SettingOf(m, env.defaultDir, d) == Setting(LastDir(past, d, env.defaultDir), LastCodeset(past, d))
  }

  lemma OneMoreCall(env: Env, past: seq<Call>, call: Call, d: string)
    ensures LastDir(past + [call], d, env.defaultDir) == DirSet(call, d).GetOr(LastDir(past, d, env.defaultDir))
    ensures LastCodeset(past + [call], d)
            == if CodesetSet(call, d).Some? then CodesetSet(call, d) else LastCodeset(past, d)
    ensures CurrentDomain(past + [call]) == match call
                                            case SetDomain(Some(name)) => if name == "" then "messages" else name
                                            case _ => CurrentDomain(past)
  {
    assert (past + [call])[..|past + [call]| - 1] == past;
  }

  function SettingsAfter(env: Env, m: Settings, call: Call): Settings {
    match call
    case Bind(Some(d), dir, codeset) => NewSettings(m, env.defaultDir, d, dir, codeset)
    case _ => m
  }

  function DomainAfter(current: string, call: Call): string {
    if call.SetDomain? then NewDomain(current, call.name) else current
  }

  lemma AgreeStep(env: Env, past: seq<Call>, m: Settings, current: string, call: Call)
    requires Agree(env, past, m, current)
    ensures Agree(env, past + [call], SettingsAfter(env, m, call), DomainAfter(current, call))
  {
    forall d ensures SettingOf(SettingsAfter(env, m, call), env.defaultDir, d)
                     == Setting(LastDir(past + [call], d, env.defaultDir), LastCodeset(past + [call], d))
    {
      OneMoreCall(env, past, call, d);
    }
    OneMoreCall(env, past, call, "");
  }

  // ---- A search finds the first catalogue that knows the msgid ----

  lemma MsgMeans(env: Env, m: Settings, id: FileId, msgid: string)
    ensures FreshMsg(env, m, id, msgid).Some? <==> Knows(env, id, msgid)
    ensures Knows(env, id, msgid) ==> env.files(id).Some?
    ensures FreshMsg(env, m, id, msgid).Some? ==>
              TextOf(env, SettingOf(m, env.defaultDir, id.domain).codeset, env.files(id).value, msgid,
                     FreshMsg(env, m, id, msgid).value)
  {
    hide Headers.CharsetOf, SettingOf, Catalog.IndexOf, Catalog.Keys;
    if env.files(id).Some? && env.files(id).value.Lookup(msgid).Some? {
      var f := env.files(id).value;
      var act := f.Lookup(msgid).value;
      assert Catalog.Keys(f.catalog)[act] == msgid;
    }
  }

  lemma {:induction false} ChainMeans(env: Env, m: Settings, ids: seq<FileId>, msgid: string) returns (j: nat)
    ensures var r := FreshInChain(env, m, ids, msgid);
            && j <= |ids| && (forall k :: 0 <= k < j ==> !Knows(env, ids[k], msgid))
            && (r.None? <==> j == |ids|)
            && (r.Some? ==> Knows(env, ids[j], msgid) && r.value.file == ids[j]
                            && FreshMsg(env, m, ids[j], msgid) == Some(r.value.text))
  {
    hide FreshMsg, Knows;
    j := 0;
    if ids != [] {
      MsgMeans(env, m, ids[0], msgid);
      if FreshMsg(env, m, ids[0], msgid).None? {
        var k := ChainMeans(env, m, ids[1..], msgid);
        j := k + 1;
      }
    }
  }

  /** What the catalogues of the locales from s on lead to: the place of the first that knows the msgid. */
  ghost predicate FoundFrom(env: Env, m: Settings, dir: string, dom: string, cat: int, msgid: string, s: nat,
                            i: nat, j: nat, h: Hit)
  {
    && KnownAt(env, dir, dom, cat, msgid, i, j) && s <= i && h.file == ChainOf(env, dir, dom, cat, i)[j]
    && (forall k: nat, l: nat :: k >= s && KnownAt(env, dir, dom, cat, msgid, k, l) ==> i < k || (i == k && j <= l))
    && FreshMsg(env, m, h.file, msgid) == Some(h.text)
  }

  lemma {:induction false} LocalesMean(env: Env, m: Settings, dir: string, dom: string, cat: int, msgid: string, s: nat)
    returns (i: nat, j: nat)
    requires s <= |env.locales(cat)| && (s == 0 || Tried(env.locales(cat), s - 1))
    ensures var r := FreshInLocales(env, m, dir, env.locales(cat)[s..], cat, dom, msgid);
            match r
            case None => forall k: nat, l: nat :: k >= s ==> !KnownAt(env, dir, dom, cat, msgid, k, l)
            case Some(h) => FoundFrom(env, m, dir, dom, cat, msgid, s, i, j, h)
    decreases |env.locales(cat)| - s
  {
    hide FreshMsg, FreshInChain, Knows;
    var locales := env.locales(cat);
    i, j := s, 0;
    if s < |locales| && locales[s] != "C" && locales[s] != "POSIX" {
      assert locales[s..][0] == locales[s] && locales[s..][1..] == locales[s + 1..];
      assert Tried(locales, s);
      j := ChainMeans(env, m, ChainOf(env, dir, dom, cat, s), msgid);
      if FreshInChain(env, m, ChainOf(env, dir, dom, cat, s), msgid).None? {
        i, j := LocalesMean(env, m, dir, dom, cat, msgid, s + 1);
      }
    }
  }

  // ---- Every text is split into strings in one way ----

  /** The strings between the NULs. */
  function Strings(text: string): (vs: seq<string>)
    ensures Splits(text, vs)
  {
    var first := CStr(text);
    if |first| == |text| then [text]
    else
      var rest := text[|first| + 1..];
      assert text == first + ("\0" + rest);
      [first] + Strings(rest)
  }

  /** The variant of an index is the string with that number, or the first. */
  lemma VariantMeans(text: string, vs: seq<string>, i: nat)
    requires Splits(text, vs)
    ensures VariantAt(text, i) == (if i < |vs| then vs[i] else vs[0]) && CStr(text) == vs[0]
  {
    hide CStr, JoinVariants;
    JoinedVariant(vs, i);
    JoinedVariant(vs, 0);
  }

  // ---- Every reply ----

  lemma TranslatedMeans(env: Env, hit: Hit, msgid: string, plural: Option<Plural>)
    requires env.files(hit.file).Some?
    ensures Translated(env, env.files(hit.file).value, hit.text, plural, AnswerFor(env, Some(hit), msgid, plural))
  {
    hide Headers.RuleOf, VariantAt, CStr, Splits;
    var f := env.files(hit.file).value;
    var vs := Strings(hit.text);
    VariantMeans(hit.text, vs, 0);
    if plural.Some? {
      var n := plural.value.n;
      var v := PluralExp.PluralEval(f.Rule().plural, n);
      PluralMeaning.EvalMeans(f.Rule().plural, n, v);
      if v.Some? {
        VariantMeans(hit.text, vs, v.value);
      }
    }
  }

  lemma AnswerMeans(env: Env, past: seq<Call>, m: Settings, current: string, dom: string, msgid: string,
                    plural: Option<Plural>, cat: int)
    requires EnvOk(env) && Agree(env, past, m, current)
    ensures Answers(env, past, dom, msgid, plural, cat,
                    AnswerFor(env, FreshSearch(env, m, dom, cat, msgid), msgid, plural))
  {
    hide Translated, TextOf, FreshMsg, Knows, AnswerFor, FilesSearchable;
    var dir := LastDir(past, dom, env.defaultDir);
    assert SettingOf(m, env.defaultDir, dom) == Setting(dir, LastCodeset(past, dom));
    assert env.locales(cat)[0..] == env.locales(cat);
    var i, j := LocalesMean(env, m, dir, dom, cat, msgid, 0);
    var r := FreshSearch(env, m, dom, cat, msgid);
    if r.Some? {
      var h := r.value;
      MsgMeans(env, m, h.file, msgid);
      TranslatedMeans(env, h, msgid, plural);
    } else {
      NothingFound(env, msgid, plural);
    }
  }

  lemma NothingFound(env: Env, msgid: string, plural: Option<Plural>)
    ensures AnswerFor(env, None, msgid, plural)
            == Text(if plural.Some? && plural.value.n != 1 then plural.value.msgid2 else msgid)
  {
  }

  /** The first reply of a run, and the state for the others. */
  lemma RunStep(env: Env, m: Settings, current: string, calls: seq<Call>)
    requires calls != []
    ensures var run := SpecRun(env, m, current, calls);
            && |run| == |SpecRun(env, SettingsAfter(env, m, calls[0]), DomainAfter(current, calls[0]), calls[1..])| + 1
            && run[1..] == SpecRun(env, SettingsAfter(env, m, calls[0]), DomainAfter(current, calls[0]), calls[1..])
  {
    hide NewSettings, Bound, SpecAnswer;
  }

  lemma FirstReply(env: Env, past: seq<Call>, m: Settings, current: string, calls: seq<Call>)
    requires calls != [] && EnvOk(env) && Agree(env, past, m, current)
    ensures var run := SpecRun(env, m, current, calls); run != [] && Replies(env, past, calls[0], run[0])
  {
    hide Answers, EnvOk, AnswerFor;
    var call := calls[0];
    AgreeStep(env, past, m, current, call);
    match call
    case SetDomain(_) =>
    case Bind(domain, dir, codeset) =>
      if domain.Some? {
        assert SettingOf(SettingsAfter(env, m, call), env.defaultDir, domain.value)
               == Setting(LastDir(past + [call], domain.value, env.defaultDir), LastCodeset(past + [call], domain.value));
      }
    case Get(domainname, msgid, plural, cat) =>
      if msgid.Some? {
        AnswerMeans(env, past, m, current, domainname.GetOr(current), msgid.value, plural, cat);
      }
  }

  lemma {:induction false} RunMeans(env: Env, past: seq<Call>, m: Settings, current: string, calls: seq<Call>, k: nat)
    requires k < |calls| && EnvOk(env) && Agree(env, past, m, current)
    ensures var run := SpecRun(env, m, current, calls);
            |run| == |calls| && Replies(env, past + calls[..k], calls[k], run[k])
    decreases calls
  {
    hide Agree, Replies, EnvOk, SpecRun;
    RunStep(env, m, current, calls);
    if |calls| == 1 {
      NoCalls(env, SettingsAfter(env, m, calls[0]), DomainAfter(current, calls[0]));
      assert calls[1..] == [];
    }
    if k == 0 {
      FirstReply(env, past, m, current, calls);
      assert past + calls[..0] == past;
      if |calls| > 1 {
        AgreeStep(env, past, m, current, calls[0]);
        RunMeans(env, past + [calls[0]], SettingsAfter(env, m, calls[0]), DomainAfter(current, calls[0]), calls[1..], 0);
      }
    } else {
      AgreeStep(env, past, m, current, calls[0]);
      RunMeans(env, past + [calls[0]], SettingsAfter(env, m, calls[0]), DomainAfter(current, calls[0]), calls[1..], k - 1);
      assert past + [calls[0]] + calls[1..][..k - 1] == past + calls[..k];
    }
  }

  lemma AgreeStart(env: Env)
    ensures Agree(env, [], map[], "messages")
  {
  }

  /** The library, with all its caches: every reply is the one that the earlier calls and the files determine. */
  method RunProgram(env: Env, calls: seq<Call>) returns (replies: seq<Reply>)
    requires EnvOk(env)
    ensures |replies| == |calls|
    ensures forall k :: 0 <= k < |calls| ==> Replies(env, calls[..k], calls[k], replies[k])
  {
    hide Replies, EnvOk, SpecRun, Agree;
    replies := RunAll(env, calls);
    AgreeStart(env);
    if calls == [] {
      NoCalls(env, map[], "messages");
    }
    forall k | 0 <= k < |calls| ensures |replies| == |calls| && Replies(env, calls[..k], calls[k], replies[k]) {
      RunMeans(env, [], map[], "messages", calls, k);
      assert [] + calls[..k] == calls[..k];
    }
    if calls != [] {
      RunMeans(env, [], map[], "messages", calls, 0);
    }
  }

  /** An untranslated call answers as a catalogue would that holds both msgids as variants under the Germanic rule. */
  lemma UntranslatedIsGermanic(env: Env, msgid: string, msgid2: string, n: nat, hit: Hit)
    requires '\0' !in msgid && '\0' !in msgid2
    requires env.files(hit.file).Some? && env.files(hit.file).value.Rule() == Headers.GERMANIC
    requires hit.text == JoinVariants([msgid, msgid2])
    ensures AnswerFor(env, None, msgid, Some(Plural(msgid2, n)))
            == AnswerFor(env, Some(hit), msgid, Some(Plural(msgid2, n)))
    ensures AnswerFor(env, None, msgid, None) == AnswerFor(env, Some(hit), msgid, None) == Text(msgid)
    ensures AnswerFor(env, None, msgid, Some(Plural(msgid2, n)))
            == Text(VariantAt(JoinVariants([msgid, msgid2]), PluralExp.PluralEval(Headers.GERMANIC.plural, n).value))
  {
    var vs := [msgid, msgid2];
    Headers.GermanicForms(n);
    hide JoinVariants, Headers.RuleOf, VariantAt, CStr, PluralExp.PluralEval;
    VariantMeans(hit.text, vs, 0);
    VariantMeans(hit.text, vs, 1);
  }
}
