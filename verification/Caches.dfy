/** The caches of DCIGETTEXT and _nl_find_msg, kept valid by counters, against a
    specification that has no caches. */
module Caches {
  import opened CStrings
  import opened Bindings
  import opened PluralExp
  import Catalog
  import Headers
  import opened Variants
  import opened Wrappers

  /** A catalogue file is named after its directory, locale and category, and its domain. */
  datatype FileId = FileId(path: string, domain: string)

  /** The contents of a catalogue: its msgids with their hash table, and the bytes of each translation (plural
      forms separated by NULs). */
  datatype File = File(catalog: Catalog.Domain, trans: nat -> string)
  {
    function Lookup(msgid: string): Option<nat> {
      Catalog.IndexOf(Catalog.Keys(catalog), msgid, 0)
    }

    /** The entry of the empty msgid. */
    function Header(): Option<CString> {
      match Lookup("")
      case None => None
      case Some(act) => Some(CStr(trans(act)))
    }

    function Charset(): Option<string> {
      Headers.CharsetOf(Header())
    }

    function Rule(): Headers.Rule {
      Headers.RuleOf(Header())
    }
  }

  /** What stays fixed while a program runs: the locales to try for a category, the
      catalogues that a directory, locale, category and domain lead to (the most specific
      first), the files, the output charset of the environment, and iconv. */
  datatype Env = Env(
    defaultDir: string,
    locales: int -> seq<string>,
    chain: (string, string, int, string) -> seq<FileId>,
    files: FileId -> Option<File>,
    outCharset: string,
    canOpen: (string, string) -> bool,
    convert: (string, string, string) -> Option<string>)

  ghost predicate ChainsOk(env: Env) {
    forall dir: string, loc: string, cat: int, dom: string, i: int {:trigger env.chain(dir, loc, cat, dom)[i]} ::
      0 <= i < |env.chain(dir, loc, cat, dom)| ==> env.chain(dir, loc, cat, dom)[i].domain == dom
  }

  ghost predicate EnvOk(env: Env) {
    ChainsOk(env) && FilesSearchable(env)
  }

  /** Every catalogue can be searched. */
  ghost predicate FilesSearchable(env: Env) {
    forall id: FileId :: env.files(id).Some? ==> Catalog.Searchable(env.files(id).value.catalog)
  }

  // ---- The specification without caches ----

  /** The charset that a catalogue's texts are converted to, if they are converted. */
  function TargetCharset(env: Env, m: Settings, id: FileId, f: File): Option<string> {
    if f.Charset().None? then None
    else
      var codeset := SettingOf(m, env.defaultDir, id.domain).codeset;
      var out := if codeset.Some? then codeset.value else env.outCharset;
      if env.canOpen(out, f.Charset().value) then Some(out) else None
  }

  /** A translation in the given target charset; unconverted if conversion fails. */
  function Converted(env: Env, f: File, target: Option<string>, act: nat): string {
    if target.None? || f.Charset().None? then f.trans(act)
    else match env.convert(f.Charset().value, target.value, f.trans(act))
         case Some(t) => t
         case None => f.trans(act)
  }

  /** A fresh lookup of a msgid in one catalogue. */
  function FreshMsg(env: Env, m: Settings, id: FileId, msgid: string): Option<string> {
    match env.files(id)
    case None => None
    case Some(f) =>
      match f.Lookup(msgid)
      case None => None
      case Some(act) => Some(Converted(env, f, TargetCharset(env, m, id, f), act))
  }

  datatype Hit = Hit(file: FileId, text: string)

  /** The first catalogue of a chain that knows the msgid. */
  function FreshInChain(env: Env, m: Settings, ids: seq<FileId>, msgid: string): Option<Hit> {
    if ids == [] then None
    else match FreshMsg(env, m, ids[0], msgid)
         case Some(t) => Some(Hit(ids[0], t))
         case None => FreshInChain(env, m, ids[1..], msgid)
  }

  /** The first locale of a list in which the msgid has a translation; C and POSIX end the list. */
  function FreshInLocales(env: Env, m: Settings, dir: string, locales: seq<string>, cat: int, dom: string, msgid: string)
    : Option<Hit>
  {
    if locales == [] || locales[0] == "C" || locales[0] == "POSIX" then None
    else match FreshInChain(env, m, env.chain(dir, locales[0], cat, dom), msgid)
         case Some(h) => Some(h)
         case None => FreshInLocales(env, m, dir, locales[1..], cat, dom, msgid)
  }

  /** A fresh search for a translation. */
  function FreshSearch(env: Env, m: Settings, dom: string, cat: int, msgid: string): Option<Hit> {
    FreshInLocales(env, m, SettingOf(m, env.defaultDir, dom).dirname, env.locales(cat), cat, dom, msgid)
  }

  /** What a call of the gettext family returns: NULL, a string, or the SIGFPE of a plural
      rule that divides by zero. */
  datatype Answer = Null | Text(text: string) | Fpe

  /** The plural form of a call: the second msgid and the number, for the ngettext variants. */
  datatype Plural = Plural(msgid2: string, n: nat)

  function PluralIndex(rule: Headers.Rule, n: nat): Option<nat> {
    match PluralEval(rule.plural, n)
    case None => None
    case Some(i) => Some(if i >= rule.nplurals then 0 else i)
  }

  /** The answer that a search result leads to. */
  function AnswerFor(env: Env, hit: Option<Hit>, msgid: string, plural: Option<Plural>): Answer {
    match hit
    case None =>
      if plural.None? || plural.value.n == 1 then Text(msgid) else Text(plural.value.msgid2)
    case Some(h) =>
      if plural.None? || env.files(h.file).None? then Text(CStr(h.text))
      else match PluralIndex(env.files(h.file).value.Rule(), plural.value.n)
           case None => Fpe
           case Some(i) => Text(VariantAt(h.text, i))
  }

  function NewDomain(current: string, domainname: Option<string>): string {
    match domainname
    case None => current
    case Some(name) => if name == "" then "messages" else name
  }

  /** What a call returns if nothing was ever cached. */
  function SpecAnswer(env: Env, m: Settings, current: string, domainname: Option<string>, msgid: Option<string>,
                      plural: Option<Plural>, cat: int): Answer
  {
    if msgid.None? then Null
    else AnswerFor(env, FreshSearch(env, m, domainname.GetOr(current), cat, msgid.value), msgid.value, plural)
  }

  /** What set_binding_values hands back for each attribute that was asked for. */
  function Bound(m: Settings, defaultDir: string, domain: Option<string>, dir: Request, codeset: Request)
    : (Option<string>, Option<string>)
  {
    if domain.None? || domain.value == "" then (None, None)
    else
      var now := SettingOf(m, defaultDir, domain.value);
      (if dir.Ignore? then None else Some(now.dirname), if codeset.Ignore? then None else now.codeset)
  }

  // ---- The cached state ----

  /** What struct loaded_domain has besides the file: the counter and target charset of the last
      initialisation, the texts converted since, and the plural rule. */
  datatype FileState = NoData 
    | Loaded(codesetCntr: nat, conv: Option<string>, convTab: map<nat, string>, rule: Headers.Rule)

  datatype Key = Key(msgid: string, domain: string, category: int)

  /** struct known_translation_t. */
  datatype Known = Known(counter: nat, file: FileId, translation: string)

  /** A catalogue's state is up to date, or will be found out of date by its counter. */
  predicate FileStateOk(env: Env, m: Settings, cntr: nat, id: FileId, st: FileState) {
    match st
    case NoData => env.files(id).None?
    case Loaded(c, conv, tab, rule) =>
      && env.files(id).Some? && c <= cntr && rule == env.files(id).value.Rule()
      && (c == cntr ==> conv == TargetCharset(env, m, id, env.files(id).value))
      && (forall act :: act in tab ==> conv.Some? && tab[act] == Converted(env, env.files(id).value, conv, act))
  }

  /** A catalogue that has just been opened, or found to have no data. */
  function FreshState(env: Env, m: Settings, cntr: nat, id: FileId): FileState {
    match env.files(id)
    case None => NoData
    case Some(f) => Loaded(cntr, TargetCharset(env, m, id, f), map[], f.Rule())
  }

  /** The catalogues of a chain up to the first that has data. */
  function UpToData(env: Env, ids: seq<FileId>): seq<FileId> {
    if ids == [] then [] else [ids[0]] + if env.files(ids[0]).Some? then [] else UpToData(env, ids[1..])
  }

  /** What is known of the catalogues after those of a chain were asked for. */
  function FilesAfter(env: Env, m: Settings, bs: seq<Binding>, files: map<FileId, FileState>, ids: seq<FileId>)
    : map<FileId, FileState>
    decreases ids
  {
    if ids == [] then files
    else
      var id := ids[0];
      var now := if id in files then files else files[id := FreshState(env, m, CntrOf(bs, id.domain), id)];
      if env.files(id).Some? then now else FilesAfter(env, m, bs, now, ids[1..])
  }

  /** Exactly the catalogues of the chain up to the first with data are known then, besides those known before, which
      stay as they are. */
  lemma {:induction false} AskedForOnly(env: Env, m: Settings, bs: seq<Binding>, files: map<FileId, FileState>,
                                        ids: seq<FileId>)
    ensures var now := FilesAfter(env, m, bs, files, ids);
            && (forall id :: id in now <==> id in files || id in UpToData(env, ids))
            && (forall id :: id in now ==>
                  now[id] == if id in files then files[id] else FreshState(env, m, CntrOf(bs, id.domain), id))
    decreases ids
  {
    hide FreshState;
    if ids != [] {
      var id := ids[0];
      var now := if id in files then files else files[id := FreshState(env, m, CntrOf(bs, id.domain), id)];
      if env.files(id).None? { AskedForOnly(env, m, bs, now, ids[1..]); }
    }
  }

  ghost predicate FilesOk(env: Env, m: Settings, bs: seq<Binding>, files: map<FileId, FileState>) {
    forall id :: id in files ==> FileStateOk(env, m, CntrOf(bs, id.domain), id, files[id])
  }

  lemma FileSearchable(env: Env, id: FileId)
    requires EnvOk(env) && env.files(id).Some?
    ensures Catalog.Searchable(env.files(id).value.catalog)
  {
    hide Catalog.Searchable, ChainsOk;
  }

  lemma FreshStateOk(env: Env, m: Settings, bs: seq<Binding>, files: map<FileId, FileState>, id: FileId)
    requires FilesOk(env, m, bs, files)
    ensures FilesOk(env, m, bs, files[id := FreshState(env, m, CntrOf(bs, id.domain), id)])
  {
    hide TargetCharset, CntrOf;
  }

  /** A converted text may be added to the table of a catalogue's state. */
  lemma TextAdded(env: Env, m: Settings, bs: seq<Binding>, files: map<FileId, FileState>, id: FileId, act: nat)
    requires FilesOk(env, m, bs, files) && id in files && files[id].Loaded? && env.files(id).Some?
    requires files[id].conv.Some?
    ensures var f, st := env.files(id).value, files[id];
            FilesOk(env, m, bs, files[id := st.(convTab := st.convTab[act := Converted(env, f, st.conv, act)])])
  {
    hide Headers.RuleOf, Converted, TargetCharset, CntrOf;
    assert FileStateOk(env, m, CntrOf(bs, id.domain), id, files[id]);
  }

  /** An entry whose counter is current holds what a fresh search would find. */
  ghost predicate KnownOk(env: Env, m: Settings, counter: nat, known: map<Key, Known>) {
    forall k :: k in known ==>
      && known[k].counter <= counter
      && (known[k].counter == counter ==>
            FreshSearch(env, m, k.domain, k.category, k.msgid) == Some(Hit(known[k].file, known[k].translation)))
  }

  /** Changing one domain's binding keeps every catalogue's state up to date or detectably
      out of date, provided its codeset changes only together with its counter. */
  lemma FilesStayOk(env: Env, m: Settings, m': Settings, bs: seq<Binding>, bs': seq<Binding>,
                    files: map<FileId, FileState>, domain: string)
    requires FilesOk(env, m, bs, files)
    requires forall d :: d != domain ==>
      CntrOf(bs', d) == CntrOf(bs, d) && SettingOf(m', env.defaultDir, d) == SettingOf(m, env.defaultDir, d)
    requires CntrOf(bs', domain) > CntrOf(bs, domain)
             || (CntrOf(bs', domain) == CntrOf(bs, domain)
                 && SettingOf(m', env.defaultDir, domain).codeset == SettingOf(m, env.defaultDir, domain).codeset)
    ensures FilesOk(env, m', bs', files)
  {
    hide FileStateOk, CntrOf, SettingOf;
    forall id | id in files ensures FileStateOk(env, m', CntrOf(bs', id.domain), id, files[id]) {
      StateStaysOk(env, m, m', CntrOf(bs, id.domain), CntrOf(bs', id.domain), id, files[id]);
    }
  }

  lemma StateStaysOk(env: Env, m: Settings, m': Settings, cntr: nat, cntr': nat, id: FileId, st: FileState)
    requires FileStateOk(env, m, cntr, id, st)
    requires cntr' > cntr
             || (cntr' == cntr
                 && SettingOf(m', env.defaultDir, id.domain).codeset == SettingOf(m, env.defaultDir, id.domain).codeset)
    ensures FileStateOk(env, m', cntr', id, st)
  {
    hide Converted, Headers.RuleOf, Headers.CharsetOf, SettingOf;
  }

  /** A higher counter makes every known translation stale. */
  lemma AllStale(env: Env, m: Settings, m': Settings, counter: nat, known: map<Key, Known>)
    requires KnownOk(env, m, counter, known)
    ensures KnownOk(env, m', counter + 1, known)
  {
  }

  /** What the library keeps true of its global state. */
  ghost predicate StateOk(env: Env, m: Settings, bs: seq<Binding>, counter: nat, files: map<FileId, FileState>,
                          known: map<Key, Known>)
  {
    && EnvOk(env) && Represents(bs, m) && FilesOk(env, m, bs, files) && KnownOk(env, m, counter, known)
    && forall k :: k in known ==> known[k].file in files
  }

  /** A changed binding whose codeset counter grows with every new codeset leaves no cache
      entry that is wrong but looks valid. */
  lemma UpdateKeepsCaches(env: Env, m: Settings, bs: seq<Binding>, counter: nat, files: map<FileId, FileState>,
                          known: map<Key, Known>, i: nat, b: Binding)
    requires StateOk(env, m, bs, counter, files, known)
    requires i < |bs| && b.domainname == bs[i].domainname
    requires (b.codesetCntr > bs[i].codesetCntr && b.codeset.Some?)
             || (b.codesetCntr == bs[i].codesetCntr && b.codeset == bs[i].codeset)
    ensures StateOk(env, m[b.domainname := Setting(b.dirname, b.codeset)], bs[i := b], counter + 1, files, known)
  {
    var bs', m' := bs[i := b], m[b.domainname := Setting(b.dirname, b.codeset)];
    RepresentsUpdate(bs, m, i, b);
    forall d ensures CntrOf(bs', d) == if d == b.domainname then b.codesetCntr else CntrOf(bs, d) {
      CntrAfterUpdate(bs, i, b, d);
    }
    CntrAt(bs, i);
    FilesStayOk(env, m, m', bs, bs', files, b.domainname);
    AllStale(env, m, m', counter, known);
  }

  /** So does a new binding. */
  lemma InsertKeepsCaches(env: Env, m: Settings, bs: seq<Binding>, counter: nat, files: map<FileId, FileState>,
                          known: map<Key, Known>, bs': seq<Binding>, k: nat, b: Binding)
    requires StateOk(env, m, bs, counter, files, known)
    requires b.domainname !in m && (b.codesetCntr == 0 <==> b.codeset.None?)
    requires forall j :: 0 <= j < |bs| ==> bs[j].domainname != b.domainname
    requires k <= |bs| && bs' == bs[..k] + [b] + bs[k..] && Inserted(bs, b, k, bs') && Sorted(bs')
    ensures StateOk(env, m[b.domainname := Setting(b.dirname, b.codeset)], bs', counter + 1, files, known)
  {
    var m' := m[b.domainname := Setting(b.dirname, b.codeset)];
    RepresentsInsert(bs, m, b, k, bs');
    InsertFilesOk(env, m, bs, files, bs', k, b);
    AllStale(env, m, m', counter, known);
  }

  lemma InsertFilesOk(env: Env, m: Settings, bs: seq<Binding>, files: map<FileId, FileState>,
                      bs': seq<Binding>, k: nat, b: Binding)
    requires FilesOk(env, m, bs, files)
    requires b.domainname !in m && (b.codesetCntr == 0 <==> b.codeset.None?)
    requires forall j :: 0 <= j < |bs| ==> bs[j].domainname != b.domainname
    requires k <= |bs| && bs' == bs[..k] + [b] + bs[k..]
    ensures FilesOk(env, m[b.domainname := Setting(b.dirname, b.codeset)], bs', files)
  {
    forall d ensures CntrOf(bs', d) == if d == b.domainname then b.codesetCntr else CntrOf(bs, d) {
      CntrAfterInsert(bs, b, k, d);
    }
    CntrAbsent(bs, b.domainname);
    FilesStayOk(env, m, m[b.domainname := Setting(b.dirname, b.codeset)], bs, bs', files, b.domainname);
  }

  /** The changes that set_binding_values makes to a binding: only values that differ count. */
  method Modify(b: Binding, dir: Request, codeset: Request) returns (b': Binding, modified: bool)
    ensures b'.domainname == b.domainname
    ensures b'.dirname == if dir.Set? then dir.value else b.dirname
    ensures b'.codeset == if codeset.Set? then Some(codeset.value) else b.codeset
    ensures b'.codesetCntr == if b'.codeset == b.codeset then b.codesetCntr else b.codesetCntr + 1
    ensures modified <==> b' != b
  {
    b', modified := b, false;
    if dir.Set? && StrCmp(dir.value, b.dirname) != 0 {
      b', modified := b.(dirname := dir.value), true;
    }
    if codeset.Set? && (b.codeset.None? || StrCmp(codeset.value, b.codeset.value) != 0) {
      b', modified := b'.(codeset := Some(codeset.value), codesetCntr := b.codesetCntr + 1), true;
    }
  }

  lemma SettingsOfBinding(m: Settings, defaultDir: string, b: Binding, b': Binding, dir: Request, codeset: Request)
    requires b.domainname in m && m[b.domainname] == Setting(b.dirname, b.codeset) && b.domainname != ""
    requires b'.dirname == if dir.Set? then dir.value else b.dirname
    requires b'.codeset == if codeset.Set? then Some(codeset.value) else b.codeset
    ensures NewSettings(m, defaultDir, b.domainname, dir, codeset)
            == m[b.domainname := Setting(b'.dirname, b'.codeset)]
    ensures b'.dirname == b.dirname && b'.codeset == b.codeset ==>
              m == NewSettings(m, defaultDir, b.domainname, dir, codeset)
  {
    assert m[b.domainname := m[b.domainname]] == m;
  }

  method NewBinding(defaultDir: string, d: string, dir: Request, codeset: Request) returns (b: Binding)
    ensures b.domainname == d && (b.codesetCntr == 0 <==> b.codeset.None?)
    ensures b.dirname == (if dir.Set? then dir.value else defaultDir)
    ensures b.codeset == (if codeset.Set? then Some(codeset.value) else None)
  {
    b := Binding(d, if dir.Set? then dir.value else defaultDir, None, 0);
    if codeset.Set? {
      b := b.(codeset := Some(codeset.value), codesetCntr := b.codesetCntr + 1);
    }
  }

  /** The library's global state. */
  class Gettext {
    const env: Env
    var bindings: seq<Binding>
    var msgCatCntr: nat
    var currentDomain: string
    var files: map<FileId, FileState>   // catalogues that have been decided on
    var known: map<Key, Known>          // the search tree of known translations
    ghost var settings: Settings

    ghost predicate Valid()
      reads this
    {
      StateOk(env, settings, bindings, msgCatCntr, files, known)
    }

    constructor (env: Env)
      requires EnvOk(env)
      ensures Valid() && settings == map[] && currentDomain == "messages" && this.env == env
    {
      this.env := env;
      bindings, msgCatCntr, currentDomain, files, known := [], 0, "messages", map[], map[];
      settings := map[];
    }

    /** The codeset counter of a binding, 0 for none; i comes from FindBinding. */
    function CntrAtIndex(i: nat): nat
      reads this
    {
      if i < |bindings| then bindings[i].codesetCntr else 0
    }

    ghost predicate Finds(i: nat, domain: string)
      reads this
    {
      && i <= |bindings|
      && (i < |bindings| ==> bindings[i].domainname == domain)
      && (i == |bindings| ==> forall j :: 0 <= j < |bindings| ==> bindings[j].domainname != domain)
    }

    lemma FoundSetting(i: nat, domain: string)
      requires Represents(bindings, settings) && Finds(i, domain)
      ensures CntrAtIndex(i) == CntrOf(bindings, domain)
      ensures SettingOf(settings, env.defaultDir, domain)
              == if i < |bindings| then Setting(bindings[i].dirname, bindings[i].codeset) else Setting(env.defaultDir, None)
      ensures i < |bindings| <==> domain in settings
    {
      if i < |bindings| {
        CntrAt(bindings, i);
      } else {
        CntrAbsent(bindings, domain);
      }
    }

    /** The choice of the output charset, and iconv_open. */
    method OpenConverter(charset: Option<string>, i: nat) returns (conv: Option<string>)
      requires i <= |bindings|
      ensures var codeset := if i < |bindings| then bindings[i].codeset else None;
              var out := if codeset.Some? then codeset.value else env.outCharset;
              conv == if charset.Some? && env.canOpen(out, charset.value) then Some(out) else None
    {
      conv := None;
      if charset.Some? {
        var out := env.outCharset;
        if i < |bindings| && bindings[i].codeset.Some? {
          out := bindings[i].codeset.value;
        }
        if env.canOpen(out, charset.value) {
          conv := Some(out);
        }
      }
    }

    /** The header entry: the translation of the empty msgid, which is not converted. */
    method ReadHeader(f: File) returns (nullentry: Option<CString>)
      requires Catalog.Searchable(f.catalog)
      ensures nullentry == f.Header()
    {
      hide Catalog.Searchable, Catalog.IndexOf;
      var act := Catalog.Locate(f.catalog, "");
      nullentry := if act.None? then None else Some(CStr(f.trans(act.value)));
    }

    /** _nl_init_domain_conv: notes the codeset counter, reads the header and opens the converter. */
    method InitDomainConv(id: FileId, i: nat, rule: Headers.Rule) returns (nullentry: Option<CString>)
      requires Valid() && Finds(i, id.domain) && env.files(id).Some?
      modifies this`files
      ensures nullentry == env.files(id).value.Header()
      ensures files == old(files)[id := Loaded(CntrOf(bindings, id.domain),
                                               TargetCharset(env, settings, id, env.files(id).value), map[], rule)]
      ensures rule == env.files(id).value.Rule() ==> Valid()
    {
      hide FilesOk, KnownOk, FileStateOk, Represents, SettingOf, CntrOf, FilesSearchable, Catalog.Searchable,
           Headers.RuleOf, Headers.CharsetOf;
      FoundSetting(i, id.domain);
      FileSearchable(env, id);
      var f := env.files(id).value;
      nullentry := ReadHeader(f);
      var conv := OpenConverter(Headers.CharsetOf(nullentry), i);
      FreshStateOk(env, settings, bindings, files, id);
      files := files[id := Loaded(CntrAtIndex(i), conv, map[], rule)];
    }

    /** _nl_load_domain, as far as lookups can see it. */
    method LoadDomain(id: FileId, i: nat)
      requires Valid() && Finds(i, id.domain) && id !in files
      modifies this`files
      ensures Valid() && files == old(files)[id := FreshState(env, settings, CntrOf(bindings, id.domain), id)]
    {
      hide FilesOk, KnownOk, FileStateOk, Represents, SettingOf, CntrOf, EnvOk, Headers.RuleOf, TargetCharset;
      FreshStateOk(env, settings, bindings, files, id);
      if env.files(id).None? {
        files := files[id := NoData];
      } else {
        ghost var was := files;
        var nullentry := InitDomainConv(id, i, Headers.GERMANIC);
        var rule := Headers.ExtractPlural(nullentry);
        files := files[id := files[id].(rule := rule)];
        assert files == was[id := FreshState(env, settings, CntrOf(bindings, id.domain), id)];
      }
    }

    /** _nl_find_msg: loads the catalogue if need be, looks the msgid up, reinitialises the
        converter if the codeset has changed, and converts on first use. */
    method FindMsg(id: FileId, i: nat, msgid: string) returns (r: Option<string>)
      requires Valid() && Finds(i, id.domain)
      modifies this`files
      ensures Valid() && id in files
      ensures r == FreshMsg(env, settings, id, msgid)
    {
      hide FilesOk, KnownOk, FileStateOk, Represents, SettingOf, CntrOf, EnvOk, TargetCharset, Converted, Catalog.IndexOf,
           Catalog.Searchable;
      if id !in files {
        LoadDomain(id, i);
      }
      StateKnown(id);
      if files[id].NoData? {
        return None;
      }
      var f := env.files(id).value;
      FileSearchable(env, id);
      var act := Catalog.Locate(f.catalog, msgid);
      if act.None? {
        return None;
      }
      FoundSetting(i, id.domain);
      if files[id].codesetCntr != CntrAtIndex(i) {
        var nullentry := InitDomainConv(id, i, files[id].rule);
      }
      r := Convert(id, act.value);
    }

    lemma StateKnown(id: FileId)
      requires Valid() && id in files
      ensures files[id].Loaded? <==> env.files(id).Some?
      ensures files[id].Loaded? ==> files[id].rule == env.files(id).value.Rule()
    {
      hide Headers.RuleOf;
      assert FileStateOk(env, settings, CntrOf(bindings, id.domain), id, files[id]);
    }

    /** A current catalogue's target charset and converted texts are those of the specification. */
    lemma TableHolds(id: FileId, act: nat)
      requires Valid() && id in files && files[id].Loaded? && files[id].codesetCntr == CntrOf(bindings, id.domain)
      ensures env.files(id).Some?
      ensures var f, st := env.files(id).value, files[id];
              && st.conv == TargetCharset(env, settings, id, f)
              && (act in st.convTab ==> st.conv.Some? && st.convTab[act] == Converted(env, f, st.conv, act))
    {
      hide Headers.RuleOf, Converted, TargetCharset, KnownOk, EnvOk, Represents, CntrOf;
      assert FileStateOk(env, settings, CntrOf(bindings, id.domain), id, files[id]);
    }

    /** The conversion part of _nl_find_msg, with the table of converted texts. */
    method Convert(id: FileId, act: nat) returns (r: Option<string>)
      requires Valid() && id in files && files[id].Loaded? && files[id].codesetCntr == CntrOf(bindings, id.domain)
      modifies this`files
      ensures Valid() && id in files
      ensures var f := env.files(id).value; r == Some(Converted(env, f, TargetCharset(env, settings, id, f), act))
    {
      hide EnvOk, FilesOk, KnownOk, FileStateOk, Represents, CntrOf, Headers.CharsetOf, Headers.RuleOf, Catalog.IndexOf,
           SettingOf;
      TableHolds(id, act);
      var f := env.files(id).value;
      var st := files[id];
      if st.conv.None? {
        return Some(f.trans(act));
      }
      if act !in st.convTab {
        var text := env.convert(f.Charset().value, st.conv.value, f.trans(act));
        if text.None? {
          return Some(f.trans(act));
        }
        TextAdded(env, settings, bindings, files, id, act);
        files := files[id := st.(convTab := st.convTab[act := text.value])];
      }
      r := Some(files[id].convTab[act]);
    }

    /** set_binding_values: looks one domain's binding up and changes it, or creates one. */
    method SetBindingValues(domain: Option<string>, dir: Request, codeset: Request)
      returns (dirOut: Option<string>, codesetOut: Option<string>)
      requires Valid()
      modifies this`bindings, this`msgCatCntr, this`settings
      ensures Valid()
      ensures settings == if domain.None? then old(settings)
                          else NewSettings(old(settings), env.defaultDir, domain.value, dir, codeset)
      ensures (dirOut, codesetOut) == Bound(settings, env.defaultDir, domain, dir, codeset)
    {
      dirOut, codesetOut := None, None;
      if domain.None? || domain.value == "" {
        return;
      }
      var d := domain.value;
      var i := FindBinding(bindings, d);
      FoundSetting(i, d);
      if i < |bindings| {
        dirOut, codesetOut := ChangeBinding(i, d, dir, codeset);
      } else if !dir.Set? && !codeset.Set? {
        dirOut := Some(env.defaultDir);
      } else {
        dirOut, codesetOut := CreateBinding(d, dir, codeset);
      }
      dirOut, codesetOut := if dir.Ignore? then None else dirOut, if codeset.Ignore? then None else codesetOut;
    }

    /** The end of set_binding_values: with the changed list in place, the counter is raised. */
    method Commit(bs: seq<Binding>, ghost m: Settings)
      requires StateOk(env, m, bs, msgCatCntr + 1, files, known)
      modifies this`bindings, this`msgCatCntr, this`settings
      ensures Valid() && bindings == bs && settings == m && msgCatCntr == old(msgCatCntr) + 1
    {
      bindings, settings := bs, m;
      msgCatCntr := msgCatCntr + 1;
    }

    /** The branch of set_binding_values for a domain that is bound already. */
    method ChangeBinding(i: nat, d: string, dir: Request, codeset: Request)
      returns (dirOut: Option<string>, codesetOut: Option<string>)
      requires Valid() && Finds(i, d) && i < |bindings| && d != ""
      modifies this`bindings, this`msgCatCntr, this`settings
      ensures Valid() && settings == NewSettings(old(settings), env.defaultDir, d, dir, codeset)
      ensures dirOut.Some? && SettingOf(settings, env.defaultDir, d) == Setting(dirOut.value, codesetOut)
    {
      FoundSetting(i, d);
      var b, modified := Modify(bindings[i], dir, codeset);
      SettingsOfBinding(settings, env.defaultDir, bindings[i], b, dir, codeset);
      if modified {
        UpdateKeepsCaches(env, settings, bindings, msgCatCntr, files, known, i, b);
        Commit(bindings[i := b], settings[d := Setting(b.dirname, b.codeset)]);
      }
      dirOut, codesetOut := Some(b.dirname), b.codeset;
    }

    /** The branch of set_binding_values that creates a binding. */
    method CreateBinding(d: string, dir: Request, codeset: Request)
      returns (dirOut: Option<string>, codesetOut: Option<string>)
      requires Valid() && Finds(|bindings|, d) && d != "" && (dir.Set? || codeset.Set?)
      modifies this`bindings, this`msgCatCntr, this`settings
      ensures Valid() && settings == NewSettings(old(settings), env.defaultDir, d, dir, codeset)
      ensures dirOut.Some? && SettingOf(settings, env.defaultDir, d) == Setting(dirOut.value, codesetOut)
    {
      FoundSetting(|bindings|, d);
      var b := NewBinding(env.defaultDir, d, dir, codeset);
      var bs, k := Insert(bindings, b);
      InsertKeepsCaches(env, settings, bindings, msgCatCntr, files, known, bs, k, b);
      Commit(bs, settings[d := Setting(b.dirname, b.codeset)]);
      dirOut, codesetOut := Some(b.dirname), b.codeset;
    }

    /** TEXTDOMAIN: sets the current domain, and makes every known translation stale even if
        the domain does not change. */
    method TextDomain(domainname: Option<string>) returns (r: string)
      requires Valid()
      modifies this`currentDomain, this`msgCatCntr
      ensures Valid() && r == currentDomain == NewDomain(old(currentDomain), domainname)
    {
      hide EnvOk, FilesOk, KnownOk, Represents;
      if domainname.None? {
        return currentDomain;
      }
      var name := domainname.value;
      if name == "" || StrCmp(name, "messages") == 0 {
        currentDomain := "messages";
      } else if StrCmp(name, currentDomain) != 0 {
        currentDomain := name;
      }
      AllStale(env, settings, settings, msgCatCntr, known);
      msgCatCntr := msgCatCntr + 1;
      r := currentDomain;
    }

    /** The loading done by _nl_find_domain: the root catalogue of a chain, and if that has
        no data, its successors up to the first that has. What is loaded already stays as it is. */
    method FindDomain(ids: seq<FileId>, i: nat, d: string)
      requires Valid() && Finds(i, d) && forall k :: 0 <= k < |ids| ==> ids[k].domain == d
      modifies this`files
      ensures Valid()
      ensures files == FilesAfter(env, settings, bindings, old(files), ids)
    {
      hide FreshState, StateOk;
      var cnt := 0;
      assert ids[0..] == ids;
      while cnt < |ids|
        invariant 0 <= cnt <= |ids| && Valid()
        invariant FilesAfter(env, settings, bindings, old(files), ids)
                  == FilesAfter(env, settings, bindings, files, ids[cnt..])
      {
        assert ids[cnt..][0] == ids[cnt] && ids[cnt..][1..] == ids[cnt + 1..];
        if ids[cnt] !in files {
          LoadDomain(ids[cnt], i);
        }
        StateKnown(ids[cnt]);
        if files[ids[cnt]].Loaded? {
          return;
        }
        cnt := cnt + 1;
      }
    }

    /** The lookups of one locale: the root catalogue, then its successors. */
    method FindInChain(ids: seq<FileId>, i: nat, d: string, msgid: string) returns (r: Option<Hit>)
      requires Valid() && Finds(i, d) && forall k :: 0 <= k < |ids| ==> ids[k].domain == d
      modifies this`files
      ensures Valid() && r == FreshInChain(env, settings, ids, msgid) && (r.Some? ==> r.value.file in files)
    {
      FindDomain(ids, i, d);
      var cnt := 0;
      while cnt < |ids|
        invariant 0 <= cnt <= |ids| && Valid()
        invariant FreshInChain(env, settings, ids, msgid) == FreshInChain(env, settings, ids[cnt..], msgid)
      {
        assert ids[cnt..][0] == ids[cnt] && ids[cnt..][1..] == ids[cnt + 1..];
        var text := FindMsg(ids[cnt], i, msgid);
        if text.Some? {
          return Some(Hit(ids[cnt], text.value));
        }
        cnt := cnt + 1;
      }
      r := None;
    }

    lemma ChainDomain(dir: string, loc: string, cat: int, d: string)
      requires Valid()
      ensures var ids := env.chain(dir, loc, cat, d); forall k :: 0 <= k < |ids| ==> ids[k].domain == d
    {
    }

    /** The loop of DCIGETTEXT over the locales of a category. */
    method Search(i: nat, d: string, cat: int, msgid: string) returns (r: Option<Hit>)
      requires Valid() && Finds(i, d)
      modifies this`files
      ensures Valid() && r == FreshSearch(env, settings, d, cat, msgid) && (r.Some? ==> r.value.file in files)
    {
      hide EnvOk, FilesOk, KnownOk, Represents, FreshInChain, SettingOf;
      FoundSetting(i, d);
      var dirname := if i < |bindings| then bindings[i].dirname else env.defaultDir;
      var locales := env.locales(cat);
      var k := 0;
      while k < |locales| && locales[k] != "C" && locales[k] != "POSIX"
        invariant 0 <= k <= |locales| && Valid()
        invariant FreshSearch(env, settings, d, cat, msgid)
                  == FreshInLocales(env, settings, dirname, locales[k..], cat, d, msgid)
      {
        assert locales[k..][0] == locales[k] && locales[k..][1..] == locales[k + 1..];
        ChainDomain(dirname, locales[k], cat, d);
        r := FindInChain(env.chain(dirname, locales[k], cat, d), i, d, msgid);
        if r.Some? {
          return;
        }
        k := k + 1;
      }
      r := None;
    }

    /** tfind, and the test that the entry is current. */
    method KnownTranslation(key: Key) returns (hit: Option<Hit>)
      requires Valid()
      ensures hit.Some? ==> hit == FreshSearch(env, settings, key.domain, key.category, key.msgid)
      ensures hit.Some? ==> hit.value.file in files
    {
      if key in known && known[key].counter == msgCatCntr {
        hit := Some(Hit(known[key].file, known[key].translation));
      } else {
        hit := None;
      }
    }

    /** tsearch, or the update of the entry that tfind found. */
    method Remember(key: Key, hit: Hit)
      requires Valid() && FreshSearch(env, settings, key.domain, key.category, key.msgid) == Some(hit) && hit.file in files
      modifies this`known
      ensures Valid()
    {
      known := known[key := Known(msgCatCntr, hit.file, hit.text)];
    }

    /** A known translation if its counter is current, or else a search whose result is remembered. */
    method Translation(d: string, cat: int, msgid: string) returns (hit: Option<Hit>)
      requires Valid()
      modifies this`files, this`known
      ensures Valid() && hit == FreshSearch(env, settings, d, cat, msgid) && (hit.Some? ==> hit.value.file in files)
    {
      hit := KnownTranslation(Key(msgid, d, cat));
      if hit.None? {
        var i := FindBinding(bindings, d);
        hit := Search(i, d, cat, msgid);
        if hit.Some? {
          Remember(Key(msgid, d, cat), hit.value);
        }
      }
    }

    /** DCIGETTEXT. */
    method Dcigettext(domainname: Option<string>, msgid: Option<string>, plural: Option<Plural>, cat: int)
      returns (r: Answer)
      requires Valid()
      modifies this`files, this`known
      ensures Valid()
      ensures r == SpecAnswer(env, settings, currentDomain, domainname, msgid, plural, cat)
    {
      if msgid.None? {
        return Null;
      }
      var hit := Translation(domainname.GetOr(currentDomain), cat, msgid.value);
      r := Finish(hit, msgid.value, plural);
    }

    /** The end of DCIGETTEXT: the plural form of what was found, or the untranslated text. */
    method Finish(hit: Option<Hit>, msgid: string, plural: Option<Plural>) returns (r: Answer)
      requires Valid() && (hit.Some? ==> hit.value.file in files)
      ensures r == AnswerFor(env, hit, msgid, plural)
    {
      hide EnvOk, FilesOk, KnownOk, Represents, Headers.RuleOf, PluralEval;
      if hit.None? {
        return Text(if plural.None? || plural.value.n == 1 then msgid else plural.value.msgid2);
      }
      StateKnown(hit.value.file);
      if plural.None? || files[hit.value.file].NoData? {
        return Text(CStr(hit.value.text));
      }
      r := PluralLookup(files[hit.value.file].rule, plural.value.n, hit.value.text);
    }
  }

  /** plural_lookup: steps over NUL-terminated strings, and falls back to the first. */
  method PluralLookup(rule: Headers.Rule, n: nat, translation: string) returns (r: Answer)
    ensures r == match PluralIndex(rule, n)
                 case None => Fpe
                 case Some(i) => Text(VariantAt(translation, i))
  {
    var value := PluralEval(rule.plural, n);
    if value.None? {
      return Fpe;
    }
    var index := if value.value >= rule.nplurals then 0 else value.value;
    var p := NthString(translation, index);
    SkipFindsVariant(translation, 0, index);
    assert translation[0..] == translation;
    r := Text(CStr(if p.Some? then translation[p.value..] else translation));
  }

  // ---- Whole runs ----

  /** One call of a program: bindtextdomain or bind_textdomain_codeset, textdomain, or a lookup. */
  datatype Call =
    | Bind(domain: Option<string>, dir: Request, codeset: Request)
    | SetDomain(name: Option<string>)
    | Get(domainname: Option<string>, msgid: Option<string>, plural: Option<Plural>, cat: int)

  datatype Reply =
    | BoundTo(dirname: Option<string>, codeset: Option<string>)
    | Current(name: string)
    | Message(answer: Answer)

  /** The answers to a sequence of calls if nothing is ever cached: the state is what the
      program has set, and every lookup reads the catalogues anew. */
  function SpecRun(env: Env, m: Settings, current: string, calls: seq<Call>): seq<Reply>
    decreases calls
  {
    if calls == [] then []
    else match calls[0]
         case Bind(domain, dir, codeset) =>
           var m' := if domain.None? then m else NewSettings(m, env.defaultDir, domain.value, dir, codeset);
           var b := Bound(m', env.defaultDir, domain, dir, codeset);
           [Reply.BoundTo(b.0, b.1)] + SpecRun(env, m', current, calls[1..])
         case SetDomain(name) =>
           [Current(NewDomain(current, name))] + SpecRun(env, m, NewDomain(current, name), calls[1..])
         case Get(domainname, msgid, plural, cat) =>
           [Message(SpecAnswer(env, m, current, domainname, msgid, plural, cat))] + SpecRun(env, m, current, calls[1..])
  }

  lemma NoCalls(env: Env, m: Settings, current: string)
    ensures SpecRun(env, m, current, []) == []
  {
  }

  lemma OneMore(replies: seq<Reply>, r: Reply, rest: seq<Reply>)
    ensures replies + ([r] + rest) == (replies + [r]) + rest
  {
  }

  /** One call, answered by the library. */
  method Serve(g: Gettext, call: Call) returns (r: Reply)
    requires g.Valid()
    modifies g
    ensures g.Valid()
    ensures forall rest :: SpecRun(g.env, old(g.settings), old(g.currentDomain), [call] + rest)
                           == [r] + SpecRun(g.env, g.settings, g.currentDomain, rest)
  {
    assert forall rest: seq<Call> :: ([call] + rest)[1..] == rest;
    match call
    case Bind(domain, dir, codeset) =>
      var d, c := g.SetBindingValues(domain, dir, codeset);
      r := Reply.BoundTo(d, c);
    case SetDomain(name) =>
      var name' := g.TextDomain(name);
      r := Current(name');
    case Get(domainname, msgid, plural, cat) =>
      var a := g.Dcigettext(domainname, msgid, plural, cat);
      r := Message(a);
  }

  /** The caches cannot be observed: whatever the calls, their answers are those of the
      specification without caches. */
  method RunAll(env: Env, calls: seq<Call>) returns (replies: seq<Reply>)
    requires EnvOk(env)
    ensures replies == SpecRun(env, map[], "messages", calls)
  {
    hide SpecRun;
    var g := new Gettext(env);
    replies := [];
    var k := 0;
    assert calls[0..] == calls;
    while k < |calls|
      invariant 0 <= k <= |calls| && fresh(g) && g.Valid() && g.env == env
      invariant SpecRun(env, map[], "messages", calls)
                == replies + SpecRun(env, g.settings, g.currentDomain, calls[k..])
    {
      assert calls[k..] == [calls[k]] + calls[k + 1..];
      var r := Serve(g, calls[k]);
      OneMore(replies, r, SpecRun(env, g.settings, g.currentDomain, calls[k + 1..]));
      replies := replies + [r];
      k := k + 1;
    }
    assert calls[k..] == [];
    NoCalls(env, g.settings, g.currentDomain);
  }
}
