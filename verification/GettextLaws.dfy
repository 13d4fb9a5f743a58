/** What a lookup comes to, told without the functions that carry it out: which file and which language answer, what was
    bound, and what is replied without a hit (intl/bindtextdom.c:89-337, intl/dcigettext.c:472-674). */
module GettextLaws {
  import opened Bindings
  import opened Gettext
  import opened PluralForms
  import opened PluralLexer
  import opened PluralPrinting
  import opened Wrappers

  // ----- bindings -----

  /** A directory that was set is returned by every following query, and so is a codeset; setting one leaves the other
      alone; no other domain changes. */
  lemma SetIsReturned(t: Table, name: string, dir: string, codeset: string, defaultDir: string)
    requires name != ""
    ensures var t' := Bind(t, name, Set(dir), Absent, defaultDir);
      && Returned(t', name, Query, Absent, defaultDir) == (Some(dir), None)
      && Returned(t', name, Absent, Query, defaultDir) == Returned(t, name, Absent, Query, defaultDir)
    ensures var t' := Bind(t, name, Absent, Set(codeset), defaultDir);
      && Returned(t', name, Absent, Query, defaultDir) == (None, Some(codeset))
      && Returned(t', name, Query, Absent, defaultDir) == Returned(t, name, Query, Absent, defaultDir)
    ensures Returned(t, name, Set(dir), Set(codeset), defaultDir) == (Some(dir), Some(codeset))
    ensures name !in t ==> Returned(t, name, Query, Query, defaultDir) == (Some(defaultDir), None)
  {
  }

  lemma OthersUntouched(t: Table, name: string, other: string, dir: Arg, codeset: Arg, defaultDir: string)
    requires other != name
    ensures other in Bind(t, name, dir, codeset, defaultDir) <==> other in t
    ensures other in t ==> Bind(t, name, dir, codeset, defaultDir)[other] == t[other]
  {
  }

  /** A query changes nothing, and neither does setting what is set already. */
  lemma NothingNew(t: Table, name: string, defaultDir: string)
    ensures Bind(t, name, Query, Query, defaultDir) == t && Bind(t, name, Absent, Absent, defaultDir) == t
    ensures name in t && name != "" ==> Bind(t, name, Set(t[name].dirname), Absent, defaultDir) == t
    ensures name in t && name != "" && t[name].codeset.Some? ==>
      Bind(t, name, Absent, Set(t[name].codeset.value), defaultDir) == t
  {
  }

  /** How often the codeset of a domain was changed is counted. */
  lemma CodesetCounted(t: Table, name: string, codeset: string, defaultDir: string)
    requires name != ""
    ensures var before := if name in t then t[name].codesetCntr else 0;
            var same := name in t && t[name].codeset == Some(codeset);
      Bind(t, name, Absent, Set(codeset), defaultDir)[name].codesetCntr == before + if same then 0 else 1
  {
  }

  /** The directory that was set is the one that is searched, from the working directory on if it is not absolute. */
  lemma SetIsSearched(env: Environment, t: Table, name: string, dir: string)
    requires name != ""
    ensures var t' := Bind(t, name, Set(dir), Absent, env.defaultDir);
      Directory(env, t', name)
        == if dir != "" && dir[0] == '/' then Some(dir)
           else if env.workingDir == None then None
           else Some(env.workingDir.value + "/" + dir)
    ensures name !in t ==> Directory(env, t, name) == Some(env.defaultDir)
  {
  }

  /** And the codeset that was set is the one into which translations are converted; before, there is none. */
  lemma CodesetIsUsed(env: Environment, t: Table, name: string, codeset: string, category: int, msgid: string)
    requires name != ""
    ensures var t' := Bind(t, name, Absent, Set(codeset), env.defaultDir);
      var dirname := Directory(env, t', name);
      FullSearch(env, t', name, category, msgid)
        == if dirname.None? then None
           else SearchList(env, env.localeList(category), dirname.value, category, name, Some(codeset), msgid)
    ensures name !in t ==>
      FullSearch(env, t, name, category, msgid)
        == SearchList(env, env.localeList(category), env.defaultDir, category, name, None, msgid)
  {
    hide SearchList;
  }

  // ----- files -----

  /** The first file that has the message gives it, converted; if none has it, there is no hit. */
  lemma {:induction false} FirstFileAnswers(env: Environment, files: seq<File>, k: nat, codeset: Option<string>,
                                            msgid: string)
    requires k <= |files| && forall i :: 0 <= i < k ==> msgid !in files[i].messages
    ensures k == |files| ==> SearchFiles(env, files, codeset, msgid) == None
    ensures k < |files| && msgid in files[k].messages ==>
      SearchFiles(env, files, codeset, msgid)
        == Some(Hit(files[k], env.convert(codeset, files[k], files[k].messages[msgid])))
  {
    if k > 0 {
      FirstFileAnswers(env, files[1..], k - 1, codeset, msgid);
    }
  }

  // ----- the language list -----

  predicate IsEntry(x: string) {
    x != [] && ':' !in x
  }

  function Colons(n: nat): string {
    if n == 0 then [] else [':'] + Colons(n - 1)
  }

  /** A list of languages as it may be written: any colons in front, one or more between two entries, any behind. */
  function Listed(entries: seq<string>, colons: seq<nat>): string
    requires |colons| == |entries| + 1
  {
    if entries == [] then Colons(colons[0])
    else Colons(colons[0]) + (entries[0] + Listed(entries[1..], colons[1..]))
  }

  ghost predicate Separated(entries: seq<string>, colons: seq<nat>) {
    && |colons| == |entries| + 1
    && (forall i :: 0 <= i < |entries| ==> IsEntry(entries[i]))
    && forall i :: 0 < i < |entries| ==> colons[i] > 0
  }

  /** The names that mean no translation. */
  predicate Stops(locale: string) {
    locale == "C" || locale == "POSIX"
  }

  /** An entry with a slash is passed over by a program that runs with the rights of someone else. */
  predicate PassedOver(env: Environment, locale: string) {
    env.secure && '/' in locale
  }

  function Answer(env: Environment, locale: string, dirname: string, category: int, domain: string,
                  codeset: Option<string>, msgid: string): Option<Hit> {
    SearchFiles(env, env.load(dirname, locale, category, domain), codeset, msgid)
  }

  lemma {:induction false} ColonsSkipped(n: nat, x: string)
    ensures SkipColons(Colons(n) + x) == SkipColons(x)
  {
    if n == 0 {
      assert Colons(n) + x == x;
    } else {
      assert (Colons(n) + x)[1..] == Colons(n - 1) + x;
      ColonsSkipped(n - 1, x);
    }
  }

  lemma {:induction false} EntryTaken(x: string, rest: string)
    requires ':' !in x && (rest == [] || rest[0] == ':')
    ensures UpToColon(x + rest) == x && (x + rest)[|x|..] == rest
  {
    if x == [] {
      assert x + rest == rest;
    } else {
      assert (x + rest)[1..] == x[1..] + rest;
      assert [x[0]] + x[1..] == x;
      EntryTaken(x[1..], rest);
    }
  }

  lemma ListedStarts(entries: seq<string>, colons: seq<nat>)
    requires Separated(entries, colons) && (entries != [] ==> colons[0] > 0)
    ensures Listed(entries, colons) == [] || Listed(entries, colons)[0] == ':'
  {
  }

  /** What one step of the search does with the first entry. */
  lemma FirstEntry(env: Environment, entries: seq<string>, colons: seq<nat>, dirname: string, category: int,
                   domain: string, codeset: Option<string>, msgid: string)
    requires Separated(entries, colons)
    ensures var all := SearchList(env, Listed(entries, colons), dirname, category, domain, codeset, msgid);
      if entries == [] then all == None
      else
        var rest := SearchList(env, Listed(entries[1..], colons[1..]), dirname, category, domain, codeset, msgid);
        var answer := Answer(env, entries[0], dirname, category, domain, codeset, msgid);
        all == if PassedOver(env, entries[0]) then rest
               else if Stops(entries[0]) then None
               else if answer.Some? then answer else rest
  {
    var list := Listed(entries, colons);
    if entries == [] {
      ColonsSkipped(colons[0], []);
      assert Colons(colons[0]) + [] == Colons(colons[0]);
    } else {
      var rest := Listed(entries[1..], colons[1..]);
      ColonsSkipped(colons[0], entries[0] + rest);
      ListedStarts(entries[1..], colons[1..]);
      EntryTaken(entries[0], rest);
      assert entries[0][0] in entries[0];
      assert (entries[0] + rest)[0] == entries[0][0];
      assert SkipColons(list) == entries[0] + rest;
      hide SearchFiles, SkipColons, UpToColon, Listed;
    }
  }

  /** The first entry decides that is not passed over and is "C" or "POSIX", or has the message: there is no hit in the
      first case, and in the second that is the hit. */
  predicate Decides(env: Environment, locale: string, dirname: string, category: int, domain: string,
                    codeset: Option<string>, msgid: string) {
    !PassedOver(env, locale)
    && (Stops(locale) || Answer(env, locale, dirname, category, domain, codeset, msgid).Some?)
  }

  lemma {:induction false} FirstLanguageAnswers(env: Environment, entries: seq<string>, colons: seq<nat>, k: nat,
                                                dirname: string, category: int, domain: string,
                                                codeset: Option<string>, msgid: string)
    requires Separated(entries, colons) && k <= |entries|
    requires forall i :: 0 <= i < k ==> !Decides(env, entries[i], dirname, category, domain, codeset, msgid)
    ensures var r := SearchList(env, Listed(entries, colons), dirname, category, domain, codeset, msgid);
      && (k == |entries| ==> r == None)
      && (k < |entries| && Decides(env, entries[k], dirname, category, domain, codeset, msgid) ==>
            r == if Stops(entries[k]) then None else Answer(env, entries[k], dirname, category, domain, codeset, msgid))
  {
    FirstEntry(env, entries, colons, dirname, category, domain, codeset, msgid);
    hide SearchList, Answer, Listed, PassedOver, Stops;
    if k > 0 {
      forall i | 0 <= i < k - 1
        ensures entries[1..][i] == entries[i + 1]
      {
      }
      FirstLanguageAnswers(env, entries[1..], colons[1..], k - 1, dirname, category, domain, codeset, msgid);
      assert k < |entries| ==> entries[1..][k - 1] == entries[k];
    }
  }

  // ----- the reply -----

  /** Without a hit one of the two given texts is the reply: the one that the built-in plural expression chooses. */
  lemma ReplyWithoutHit(msgid1: string, msgid2: string, n: nat)
    requires n < ULONG
    ensures Reply(None, msgid1, msgid2, true, n) == [msgid1, msgid2][if n == 1 then 0 else 1]
    ensures FitsWord(GERMANIC) && Eval(GERMANIC, n).Some? && Eval(GERMANIC, n).value < 2
    ensures Reply(None, msgid1, msgid2, true, n) == [msgid1, msgid2][Eval(GERMANIC, n).value]
    ensures Reply(None, msgid1, msgid2, false, n) == msgid1
  {
    GermanicAgrees(n);
    hide Eval;
  }

  /** With a hit the reply is its translation, or the form that its file picks for the count. */
  lemma ReplyToHit(file: File, translation: string, msgid1: string, msgid2: string, n: nat)
    ensures Reply(Some(Hit(file, translation)), msgid1, msgid2, false, n) == translation
    ensures Reply(Some(Hit(file, translation)), msgid1, msgid2, true, n) == file.pick(n, translation)
  {
  }
}
