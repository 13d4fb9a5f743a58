/** The translation state of a process: bindings, default domain and the tree of known translations
    (`DCIGETTEXT` of intl/dcigettext.c, intl/bindtextdom.c, intl/textdomain.c). */
module Gettext {
  import opened Wrappers
  import opened Bindings

  /** A loaded catalogue file: its translations and how it picks a plural form. */
  datatype File = File(messages: map<string, string>, pick: (nat, string) -> string)

  /** What stays fixed during a run: environment variables, working directory and file contents. */
  datatype Environment = Environment(
    defaultDir: string,
    secure: bool,
    localeList: int -> string,
    workingDir: Option<string>,
    load: (string, string, int, string) -> seq<File>,
    convert: (Option<string>, File, string) -> string)

  /** A translation together with the file it was found in. */
  datatype Hit = Hit(file: File, translation: string)

  const DEFAULT_DOMAIN := "messages"

  // ----- the full search -----

  function SkipColons(list: string): (r: string)
    ensures |r| <= |list|
  {
    if list != [] && list[0] == ':' then SkipColons(list[1..]) else list
  }

  function UpToColon(list: string): (r: string)
    ensures |r| <= |list| && (list != [] && list[0] != ':' ==> r != [])
  {
    if list == [] || list[0] == ':' then [] else [list[0]] + UpToColon(list[1..])
  }

  predicate HasDirectory(locale: string) {
    '/' in locale
  }

  /** Searching a file and the less specific files after it. */
  function SearchFiles(env: Environment, files: seq<File>, codeset: Option<string>, msgid: string): Option<Hit> {
    if files == [] then None
    else if msgid in files[0].messages then
      Some(Hit(files[0], env.convert(codeset, files[0], files[0].messages[msgid])))
    else SearchFiles(env, files[1..], codeset, msgid)
  }

  /** Searching the languages of a colon-separated list in turn, until one has the message or is "C". */
  function SearchList(env: Environment, list: string, dirname: string, category: int, domain: string,
                      codeset: Option<string>, msgid: string): Option<Hit>
    decreases |list|
  {
    var rest := SkipColons(list);
    if rest == [] then None
    else
      var locale := UpToColon(rest);
      var next := rest[|locale|..];
      if env.secure && HasDirectory(locale) then SearchList(env, next, dirname, category, domain, codeset, msgid)
      else if locale == "C" || locale == "POSIX" then None
      else
        var r := SearchFiles(env, env.load(dirname, locale, category, domain), codeset, msgid);
        if r.Some? then r else SearchList(env, next, dirname, category, domain, codeset, msgid)
  }

  /** The directory to search: bound or default, made absolute; nothing if the working directory is unknown. */
  function Directory(env: Environment, t: Table, domain: string): Option<string> {
    if domain !in t then Some(env.defaultDir)
    else
      var dirname := t[domain].dirname;
      if dirname != [] && dirname[0] == '/' then Some(dirname)
      else if env.workingDir.Some? then Some(env.workingDir.value + "/" + dirname)
      else None
  }

  /** What a search with the bindings `t` finds. */
  function FullSearch(env: Environment, t: Table, domain: string, category: int, msgid: string): Option<Hit> {
    var dirname := Directory(env, t, domain);
    if dirname == None then None
    else
      SearchList(env, env.localeList(category), dirname.value, category, domain,
                 if domain in t then t[domain].codeset else None, msgid)
  }

  /** The text returned to the caller for the outcome of a search. */
  function Reply(hit: Option<Hit>, msgid1: string, msgid2: string, plural: bool, n: nat): string {
    match hit
    case Some(h) => if plural then h.file.pick(n, h.translation) else h.translation
    case None => if !plural || n == 1 then msgid1 else msgid2
  }

  // ----- the process state -----

  datatype CacheKey = CacheKey(msgid: string, domain: string, category: int)
  datatype Known = Known(counter: nat, hit: Hit)

  class Process {
    const env: Environment
    const bindings: BindingList
    var msgCatCntr: nat
    var defaultDomain: string
    var known: map<CacheKey, Known>

    /** A cached translation whose counter is current is what the full search would find now. */
    ghost predicate Fresh(key: CacheKey)
      requires key in known
      reads this, bindings
    {
      known[key].counter == msgCatCntr ==>
        FullSearch(env, TableOf(bindings.recs), key.domain, key.category, key.msgid) == Some(known[key].hit)
    }

    ghost predicate Valid()
      reads this, bindings, bindings.nodes
    {
      && bindings.Valid() && bindings.defaultDir == env.defaultDir
      && (forall key :: key in known ==> known[key].counter <= msgCatCntr)
      && (forall key :: key in known ==> Fresh(key))
    }

    constructor (env: Environment)
      ensures Valid() && this.env == env && TableOf(bindings.recs) == map[]
      ensures fresh(bindings) && bindings.nodes == [] && defaultDomain == DEFAULT_DOMAIN
    {
      this.env := env;
      bindings := new BindingList(env.defaultDir);
      msgCatCntr, defaultDomain, known := 0, DEFAULT_DOMAIN, map[];
    }

    /** `bindtextdomain` and `bind_textdomain_codeset`: any change of a binding outdates every cache entry. */
    method Bind(domainname: Option<string>, dir: Arg, codeset: Arg)
      returns (dirOut: Option<string>, codesetOut: Option<string>)
      requires Valid()
      modifies this`msgCatCntr, bindings, bindings.nodes
      ensures Valid() && forall b :: b in bindings.nodes ==> b in old(bindings.nodes) || fresh(b)
      ensures TableOf(bindings.recs)
           == Bindings.Bind(old(TableOf(bindings.recs)), domainname.GetOr(""), dir, codeset, env.defaultDir)
      ensures (dirOut, codesetOut)
           == Returned(old(TableOf(bindings.recs)), domainname.GetOr(""), dir, codeset, env.defaultDir)
      ensures msgCatCntr == old(msgCatCntr) + if TableOf(bindings.recs) != old(TableOf(bindings.recs)) then 1 else 0
    {
      hide TableOf, FullSearch;
      assert forall key :: key in known ==> Fresh(key);
      var modified;
      dirOut, codesetOut, modified := bindings.SetBindingValues(domainname, dir, codeset);
      if modified {
        msgCatCntr := msgCatCntr + 1;
      }
    }

    /** `textdomain`. */
    method TextDomain(domainname: Option<string>) returns (current: string)
      requires Valid()
      modifies this`msgCatCntr, this`defaultDomain
      ensures Valid()
      ensures current == defaultDomain
      ensures defaultDomain == if domainname == None then old(defaultDomain)
                               else if domainname.value == "" then DEFAULT_DOMAIN else domainname.value
      ensures msgCatCntr == if domainname == None then old(msgCatCntr) else old(msgCatCntr) + 1
    {
      hide TableOf, FullSearch;
      if domainname == None {
        return defaultDomain;
      }
      if domainname.value == "" || domainname.value == DEFAULT_DOMAIN {
        defaultDomain := DEFAULT_DOMAIN;
      } else if domainname.value != defaultDomain {
        defaultDomain := domainname.value;
      }
      msgCatCntr := msgCatCntr + 1;
      current := defaultDomain;
    }

    /** The loop over `successor` in `DCIGETTEXT`. */
    method FindInFiles(files: seq<File>, codeset: Option<string>, msgid: string) returns (r: Option<Hit>)
      ensures r == SearchFiles(env, files, codeset, msgid)
    {
      var cnt := 0;
      while cnt < |files|
        invariant 0 <= cnt <= |files|
        invariant SearchFiles(env, files[cnt..], codeset, msgid) == SearchFiles(env, files, codeset, msgid)
      {
        if msgid in files[cnt].messages {
          return Some(Hit(files[cnt], env.convert(codeset, files[cnt], files[cnt].messages[msgid])));
        }
        assert files[cnt..][1..] == files[cnt + 1..];
        cnt := cnt + 1;
      }
      return None;
    }

    /** The loop over the language list in `DCIGETTEXT`. */
    method SearchLanguages(list: string, dirname: string, category: int, domain: string, codeset: Option<string>,
                           msgid: string)
      returns (r: Option<Hit>)
      ensures r == SearchList(env, list, dirname, category, domain, codeset, msgid)
    {
      var value := list;
      while true
        invariant SearchList(env, value, dirname, category, domain, codeset, msgid)
               == SearchList(env, list, dirname, category, domain, codeset, msgid)
        decreases |value|
      {
        value := SkipColons(value);
        if value == [] {
          return None;
        }
        var locale := UpToColon(value);
        value := value[|locale|..];
        if env.secure && HasDirectory(locale) {
          continue;
        }
        if locale == "C" || locale == "POSIX" {
          return None;
        }
        r := FindInFiles(env.load(dirname, locale, category, domain), codeset, msgid);
        if r.Some? {
          return;
        }
      }
    }

    /** `dcigettext`: whether the cache is hit or not, the reply is that of a full search made now. */
    method DcigetText(domainname: Option<string>, msgid1: string, msgid2: string, plural: bool, n: nat, category: int)
      returns (reply: string)
      requires Valid()
      modifies this`known
      ensures Valid()
      ensures reply == Reply(FullSearch(env, TableOf(bindings.recs), domainname.GetOr(defaultDomain), category, msgid1),
                             msgid1, msgid2, plural, n)
    {
      hide TableOf, FullSearch;
      var domain := domainname.GetOr(defaultDomain);
      var key := CacheKey(msgid1, domain, category);
      if key in known && known[key].counter == msgCatCntr {
        assert Fresh(key);
        return if plural then known[key].hit.file.pick(n, known[key].hit.translation) else known[key].hit.translation;
      }
      var hit := Search(domain, category, msgid1);
      if hit == None {
        return if !plural || n == 1 then msgid1 else msgid2;
      }
      known := known[key := Known(msgCatCntr, hit.value)];
      reply := if plural then hit.value.file.pick(n, hit.value.translation) else hit.value.translation;
    }

    /** The part of `dcigettext` behind the cache: the directory, and then the languages. */
    method Search(domain: string, category: int, msgid: string) returns (hit: Option<Hit>)
      requires Valid()
      ensures hit == FullSearch(env, TableOf(bindings.recs), domain, category, msgid)
    {
      hide TableOf, SearchList;
      var binding, k := bindings.Find(domain);
      var dirname;
      if binding == null {
        dirname := env.defaultDir;
      } else if binding.dirname != [] && binding.dirname[0] == '/' {
        dirname := binding.dirname;
      } else if env.workingDir == None {
        return None;
      } else {
        dirname := env.workingDir.value + "/" + binding.dirname;
      }
      hit := SearchLanguages(env.localeList(category), dirname, category, domain,
                             if binding == null then None else binding.codeset, msgid);
    }
  }
}
