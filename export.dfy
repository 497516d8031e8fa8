/**
 * `po:export`: the lang files of the app locale are flattened with
 * `Arr::dot` into one catalogue of terms (context = dotted key, msgid = the
 * app-locale text with `:word` placeholders written `{word}`); for every
 * selected locale a copy of that catalogue gets the locale's own texts as
 * translations and is written to `<locale>.po` in the export directory.
 */
module Export {
  import opened Optional
  import opened Strings
  import opened Arrays
  import opened Trees
  import opened Store
  import opened Locales
  import opened Placeholders

  /** A gettext translation: its context, its original and its translation (None until translated). */
  datatype CatEntry = CatEntry(context: string, original: string, translation: Option<string>)

  /** What a generated PO file holds: the `Language` header and the entries, in order. */
  datatype PoCatalogue = PoCatalogue(language: string, entries: seq<CatEntry>)

  /**
   * `shouldIncludeTranslation`: the first excluded pattern whose
   * `pattern*` glob matches the key decides; a key no pattern matches is
   * included.
   */
  predicate ShouldInclude(excluded: seq<string>, key: string)
  {
    match FirstMatch(excluded, key)
    case None => true
    case Some(p) => !Truthy(p)
  }

  /**
   * With truthy patterns a key is excluded exactly when some `pattern*`
   * glob matches it; for wildcard-free patterns that is a prefix test.
   */
  lemma ShouldIncludeIff(excluded: seq<string>, key: string)
    requires forall p :: p in excluded ==> Truthy(p)
    ensures ShouldInclude(excluded, key) <==> forall p :: p in excluded ==> !StrIs(p + "*", key)
    ensures (forall p :: p in excluded ==> '*' !in p) ==>
              (ShouldInclude(excluded, key) <==> forall p :: p in excluded ==> !(p <= key))
  {
    if forall p :: p in excluded ==> '*' !in p {
      forall p | p in excluded ensures StrIs(p + "*", key) <==> p <= key {
        StrIsPrefix(p, key);
      }
    }
  }

  /** Excluding the `auth` group drops `auth.failed` and keeps `actions.save`. */
  lemma ExcludedGroupExample()
    ensures !ShouldInclude(["auth"], "auth.failed")
    ensures ShouldInclude(["auth"], "actions.save")
  {
    ShouldIncludeIff(["auth"], "auth.failed");
    ShouldIncludeIff(["auth"], "actions.save");
    assert "auth" <= "auth.failed";
    StrIsPrefix("auth", "auth.failed");
    assert FirstMatch(["auth"], "auth.failed") == Some("auth");
    assert !("auth" <= "actions.save") by {
      assert "actions.save"[1] != "auth"[1];
    }
    StrIsPrefix("auth", "actions.save");
    assert FirstMatch(["auth"], "actions.save") == None;
  }

  // -------------------------------------------------------------- terms

  /** `mapWithKeys($group => readTranslationFile($locale, $group))` over the locale's groups. */
  function GroupArrays(dirs: Lang, locale: string): Assoc<Tree>
  {
    var groups := TranslationGroups(dirs, locale);
    FromPairs(seq(|groups|, i requires 0 <= i < |groups| => (groups[i], Node(Read(dirs, locale, groups[i])))))
  }

  /** A dotted value survives `reject(!$text)` and `filter(shouldIncludeTranslation)`. */
  predicate Kept(excluded: seq<string>, p: (string, Tree))
  {
    p.1.Text? && Truthy(p.1.s) && ShouldInclude(excluded, p.0)
  }

  /** `Translation::create($key, formatPlaceholdersAsPerlBrace($text))`. */
  function Term(p: (string, Tree)): CatEntry
    requires p.1.Text?
  {
    CatEntry(p.0, ToPerlBrace(p.1.s), None)
  }

  /** The terms of the dotted array, in its order. */
  function Terms(dotted: Assoc<Tree>, excluded: seq<string>): seq<CatEntry>
  {
    if |dotted| == 0 then []
    else
      var last := dotted[|dotted| - 1];
      Terms(dotted[..|dotted| - 1], excluded) + if Kept(excluded, last) then [Term(last)] else []
  }

  /** `getTranslationTerms`: the terms of the locale's flattened lang files. */
  function TermsOf(dirs: Lang, locale: string, excluded: seq<string>): seq<CatEntry>
  {
    Terms(Dot(GroupArrays(dirs, locale)), excluded)
  }

  /** An entry is the term of the dotted value stored under its context. */
  predicate IsTerm(dotted: Assoc<Tree>, excluded: seq<string>, e: CatEntry)
  {
    match Lookup(dotted, e.context)
    case None => false
    case Some(v) => Kept(excluded, (e.context, v)) && e == Term((e.context, v))
  }

  lemma {:induction false} TermsMember(dotted: Assoc<Tree>, excluded: seq<string>)
    ensures forall e :: e in Terms(dotted, excluded) <==>
              exists i :: 0 <= i < |dotted| && Kept(excluded, dotted[i]) && e == Term(dotted[i])
  {
    if |dotted| > 0 {
      var init := dotted[..|dotted| - 1];
      TermsMember(init, excluded);
      var r := Terms(dotted, excluded);
      var ri := Terms(init, excluded);
      var last := dotted[|dotted| - 1];
      assert r == ri + if Kept(excluded, last) then [Term(last)] else [];
      forall e ensures e in r <==> exists i :: 0 <= i < |dotted| && Kept(excluded, dotted[i]) && e == Term(dotted[i]) {
        if e in ri {
          var i :| 0 <= i < |init| && Kept(excluded, init[i]) && e == Term(init[i]);
          assert dotted[i] == init[i];
        } else if e in r {
          assert Kept(excluded, dotted[|dotted| - 1]) && e == Term(dotted[|dotted| - 1]);
        }
        if exists i :: 0 <= i < |dotted| && Kept(excluded, dotted[i]) && e == Term(dotted[i]) {
          var i :| 0 <= i < |dotted| && Kept(excluded, dotted[i]) && e == Term(dotted[i]);
          if i < |init| {
            assert init[i] == dotted[i];
          }
        }
      }
    }
  }

  /**
   * The terms of an array with unique keys are exactly the truthy,
   * included string values with their placeholders converted, and no two
   * share a context (so `Translations::add` never merges two of them).
   */
  lemma TermsExact(dotted: Assoc<Tree>, excluded: seq<string>)
    requires UniqueKeys(dotted)
    ensures forall e :: e in Terms(dotted, excluded) <==> IsTerm(dotted, excluded, e)
    ensures forall i, j :: 0 <= i < j < |Terms(dotted, excluded)| ==>
              Terms(dotted, excluded)[i].context != Terms(dotted, excluded)[j].context
  {
    TermsMember(dotted, excluded);
    var r := Terms(dotted, excluded);
    forall e ensures e in r <==> IsTerm(dotted, excluded, e) {
      if e in r {
        var i :| 0 <= i < |dotted| && Kept(excluded, dotted[i]) && e == Term(dotted[i]);
        LookupIsMember(dotted, dotted[i].0, dotted[i].1);
      }
      if IsTerm(dotted, excluded, e) {
        var v := Lookup(dotted, e.context).value;
        LookupIsMember(dotted, e.context, v);
        var i :| 0 <= i < |dotted| && dotted[i] == (e.context, v);
      }
    }
    TermsContextsDistinct(dotted, excluded);
  }

  lemma {:induction false} TermsContextsDistinct(dotted: Assoc<Tree>, excluded: seq<string>)
    requires UniqueKeys(dotted)
    ensures forall i, j :: 0 <= i < j < |Terms(dotted, excluded)| ==>
              Terms(dotted, excluded)[i].context != Terms(dotted, excluded)[j].context
  {
    if |dotted| > 0 {
      var init := dotted[..|dotted| - 1];
      var last := dotted[|dotted| - 1];
      TermsContextsDistinct(init, excluded);
      TermsMember(init, excluded);
      var r := Terms(dotted, excluded);
      var ri := Terms(init, excluded);
      forall i | 0 <= i < |ri| ensures ri[i].context != last.0 {
        assert ri[i] in ri;
        var j :| 0 <= j < |init| && Kept(excluded, init[j]) && ri[i] == Term(init[j]);
        assert init[j] == dotted[j];
      }
    }
  }

  lemma ReadWellFormed(dirs: Lang, locale: string, group: string)
    requires ValidLang(dirs)
    ensures WellFormed(Node(Read(dirs, locale, group)))
  {
    if FileIn(dirs, locale, GroupFile(group)).Some? {
      LookupValid(dirs, locale);
      var files := Lookup(dirs, locale).value;
      assert WellFormed(Node(files[IndexOf(files, GroupFile(group))].1));
    }
  }

  /** The value at a dotted key of a group file. */
  ghost predicate LeafOf(dirs: Lang, locale: string, key: string, s: string)
  {
    exists g, path :: g in TranslationGroups(dirs, locale) && |path| >= 1 &&
      key == g + "." + Join(path, '.') && GetPath(Node(Read(dirs, locale, g)), path) == Some(Text(s))
  }

  /** The group array holds each group's file contents under the group's name. */
  lemma GroupArraysProperties(dirs: Lang, locale: string)
    requires ValidLang(dirs)
    ensures WellFormed(Node(GroupArrays(dirs, locale)))
    ensures forall p :: p in GroupArrays(dirs, locale) ==>
              p.0 in TranslationGroups(dirs, locale) && p.1 == Node(Read(dirs, locale, p.0))
    ensures forall g :: g in TranslationGroups(dirs, locale) ==>
              Lookup(GroupArrays(dirs, locale), g) == Some(Node(Read(dirs, locale, g)))
  {
    var groups := TranslationGroups(dirs, locale);
    var pairs := seq(|groups|, i requires 0 <= i < |groups| => (groups[i], Node(Read(dirs, locale, groups[i]))));
    var ga := GroupArrays(dirs, locale);
    FromPairsLookup(pairs);
    FromPairsMember(pairs);
    forall p | p in ga ensures p.0 in groups && p.1 == Node(Read(dirs, locale, p.0)) {
      var j :| 0 <= j < |pairs| && pairs[j] == p;
    }
    forall i | 0 <= i < |ga| ensures WellFormed(ga[i].1) {
      assert ga[i] in ga;
      ReadWellFormed(dirs, locale, ga[i].0);
    }
    forall g | g in groups ensures Lookup(ga, g) == Some(Node(Read(dirs, locale, g))) {
      GroupArraysLookup(dirs, locale, g);
    }
  }

  lemma GroupArraysLookup(dirs: Lang, locale: string, g: string)
    requires g in TranslationGroups(dirs, locale)
    ensures Lookup(GroupArrays(dirs, locale), g) == Some(Node(Read(dirs, locale, g)))
  {
    var groups := TranslationGroups(dirs, locale);
    var pairs := seq(|groups|, i requires 0 <= i < |groups| => (groups[i], Node(Read(dirs, locale, groups[i]))));
    FromPairsLookup(pairs);
    var j :| 0 <= j < |groups| && groups[j] == g;
    LastValueConstant(pairs, g, Node(Read(dirs, locale, g)), j);
  }

  /** A string leaf of the flattened group array sits in one group file under the rest of its key. */
  lemma DotLeafOf(dirs: Lang, locale: string, key: string, s: string)
    requires ValidLang(dirs)
    requires (key, Text(s)) in DotPairs(Node(GroupArrays(dirs, locale)), "")
    ensures LeafOf(dirs, locale, key, s)
  {
    var ga := GroupArrays(dirs, locale);
    GroupArraysProperties(dirs, locale);
    forall i | 0 <= i < |ga| ensures ga[i].1.Node? {
      assert ga[i] in ga;
    }
    DotPairsOfArrays(ga, key, s);
    var i, rest :| 0 <= i < |ga| && |rest| >= 1 && key == ga[i].0 + "." + Join(rest, '.') &&
      GetPath(ga[i].1, rest) == Some(Text(s));
    assert ga[i] in ga;
  }

  /**
   * Every exported term comes from a truthy string in one of the locale's
   * group files: its context is `group.` followed by the dot-joined key
   * path, its original is that string with placeholders converted, it is
   * not excluded and it is not yet translated.
   */
  lemma TermsOfSound(dirs: Lang, locale: string, excluded: seq<string>)
    requires ValidLang(dirs)
    ensures forall e :: e in TermsOf(dirs, locale, excluded) ==>
              && e.translation.None? && ShouldInclude(excluded, e.context)
              && exists s :: Truthy(s) && e.original == ToPerlBrace(s) && LeafOf(dirs, locale, e.context, s)
  {
    var ga := GroupArrays(dirs, locale);
    var d := Dot(ga);
    TermsMember(d, excluded);
    FromPairsMember(DotPairs(Node(ga), ""));
    forall e | e in TermsOf(dirs, locale, excluded)
      ensures exists s :: Truthy(s) && e.original == ToPerlBrace(s) && LeafOf(dirs, locale, e.context, s)
    {
      var i :| 0 <= i < |d| && Kept(excluded, d[i]) && e == Term(d[i]);
      assert d[i] in d;
      DotLeafOf(dirs, locale, d[i].0, d[i].1.s);
    }
  }

  // ----------------------------------------------------------- catalogue

  /** A gettext `Translations` collection being built or localised. */
  class Catalogue {
    var language: string
    var entries: seq<CatEntry>

    /** `Translations::create(language: $language)`. */
    constructor (language: string)
      ensures this.language == language && entries == []
    {
      this.language := language;
      entries := [];
    }

    /** `Translations::add` of a translation with a new context. */
    method Add(e: CatEntry)
      modifies this
      ensures language == old(language)
      ensures entries == old(entries) + [e]
    {
      entries := entries + [e];
    }

    /** `Translation::translate` of the entry at `i`. */
    method Translate(i: nat, text: string)
      requires i < |entries|
      modifies this
      ensures language == old(language)
      ensures entries == old(entries)[i := old(entries)[i].(translation := Some(text))]
    {
      entries := entries[i := entries[i].(translation := Some(text))];
    }

    /** `(clone $translations)->setLanguage($language)`: an independent copy with a new language. */
    method CloneAs(language: string) returns (r: Catalogue)
      ensures fresh(r)
      ensures r.language == language && r.entries == entries
    {
      r := new Catalogue(language);
      r.entries := entries;
    }
  }

  /** `getTranslationTerms($locale)`: build the catalogue term by term. */
  method GetTranslationTerms(store: LangDirectory, locale: string, excluded: seq<string>) returns (pot: Catalogue)
    ensures fresh(pot)
    ensures pot.language == locale
    ensures pot.entries == TermsOf(store.dirs, locale, excluded)
  {
    pot := new Catalogue(locale);
    var dotted := Dot(GroupArrays(store.dirs, locale));
    var i := 0;
    while i < |dotted|
      invariant 0 <= i <= |dotted|
      invariant pot.language == locale
      invariant pot.entries == Terms(dotted[..i], excluded)
    {
      TermsStep(dotted, i, excluded);
      var (key, value) := dotted[i];
      if value.Text? && Truthy(value.s) && ShouldInclude(excluded, key) {
        pot.Add(CatEntry(key, ToPerlBrace(value.s), None));
      }
      i := i + 1;
    }
    assert dotted[..i] == dotted;
  }

  /** One turn of the term loop. */
  lemma TermsStep(dotted: Assoc<Tree>, k: nat, excluded: seq<string>)
    requires k < |dotted|
    ensures Terms(dotted[..k + 1], excluded) ==
              Terms(dotted[..k], excluded) + if Kept(excluded, dotted[k]) then [Term(dotted[k])] else []
  {
    assert dotted[..k + 1][..k] == dotted[..k];
  }

  // ------------------------------------------------------ per-locale copy

  /** The translator's answers for one entry: `hasForLocale` and `get(fallback: false)`. */
  function Localised(e: CatEntry, locale: string, has: (string, string) -> bool, get: (string, string) -> string): CatEntry
  {
    if has(e.context, locale) then e.(translation := Some(ToPerlBrace(get(e.context, locale)))) else e
  }

  /** Every entry of the catalogue localised. */
  function LocalisedAll(entries: seq<CatEntry>, locale: string, has: (string, string) -> bool,
                        get: (string, string) -> string): (r: seq<CatEntry>)
    ensures |r| == |entries|
  {
    if |entries| == 0 then []
    else LocalisedAll(entries[..|entries| - 1], locale, has, get) + [Localised(entries[|entries| - 1], locale, has, get)]
  }

  /**
   * The localised copy keeps every entry's context and original, in
   * order; an entry gets the converted text exactly when the translator
   * has its key for the locale, and otherwise keeps its translation.
   */
  lemma {:induction false} LocalisedAllEntries(entries: seq<CatEntry>, locale: string, has: (string, string) -> bool,
                                               get: (string, string) -> string)
    ensures forall i :: 0 <= i < |entries| ==>
              && LocalisedAll(entries, locale, has, get)[i].context == entries[i].context
              && LocalisedAll(entries, locale, has, get)[i].original == entries[i].original
              && LocalisedAll(entries, locale, has, get)[i].translation ==
                   if has(entries[i].context, locale) then Some(ToPerlBrace(get(entries[i].context, locale)))
                   else entries[i].translation
  {
    if |entries| > 0 {
      var init := entries[..|entries| - 1];
      LocalisedAllEntries(init, locale, has, get);
      forall i | 0 <= i < |init| ensures entries[i] == init[i] {
      }
    }
  }

  /** On exported terms: an entry is translated iff the translator has its key for the locale. */
  lemma LocalisedTerms(dirs: Lang, locale: string, excluded: seq<string>, target: string,
                       has: (string, string) -> bool, get: (string, string) -> string)
    requires ValidLang(dirs)
    ensures forall i :: 0 <= i < |TermsOf(dirs, locale, excluded)| ==>
              (LocalisedAll(TermsOf(dirs, locale, excluded), target, has, get)[i].translation.Some? <==>
                 has(TermsOf(dirs, locale, excluded)[i].context, target))
  {
    var t := TermsOf(dirs, locale, excluded);
    TermsOfSound(dirs, locale, excluded);
    LocalisedAllEntries(t, target, has, get);
    forall i | 0 <= i < |t| ensures t[i].translation.None? {
      assert t[i] in t;
    }
  }

  /**
   * `setTranslationsForLocale`: a fresh copy of `base` with the new
   * language, each entry translated from the translator; `base` itself
   * is left as it was.
   */
  method SetTranslationsForLocale(base: Catalogue, locale: string, has: (string, string) -> bool,
                                  get: (string, string) -> string) returns (r: Catalogue)
    ensures fresh(r)
    ensures r.language == locale
    ensures r.entries == LocalisedAll(base.entries, locale, has, get)
  {
    r := base.CloneAs(locale);
    var i := 0;
    while i < |r.entries|
      invariant 0 <= i <= |r.entries| == |base.entries|
      invariant r.language == locale
      invariant forall j :: 0 <= j < i ==> r.entries[j] == Localised(base.entries[j], locale, has, get)
      invariant forall j :: i <= j < |r.entries| ==> r.entries[j] == base.entries[j]
    {
      var e := r.entries[i];
      if has(e.context, locale) {
        r.Translate(i, ToPerlBrace(get(e.context, locale)));
      }
      i := i + 1;
    }
    LocalisedAllEntries(base.entries, locale, has, get);
  }

  // --------------------------------------------------------------- handle

  /** `<locale>.po`. */
  function PoFile(locale: string): string
  {
    locale + ".po"
  }

  /** The export directory: file name to the catalogue written there. */
  class ExportDirectory {
    var files: Assoc<PoCatalogue>

    constructor (files: Assoc<PoCatalogue>)
      ensures this.files == files
    {
      this.files := files;
    }

    /** `PoGenerator::generateFile` into `<locale>.po`. */
    method Generate(c: Catalogue)
      modifies this
      ensures files == Put(old(files), PoFile(c.language), PoCatalogue(c.language, c.entries))
    {
      files := Put(files, PoFile(c.language), PoCatalogue(c.language, c.entries));
    }
  }

  /** The files written for the selected locales, one after another. */
  function ExportFiles(files: Assoc<PoCatalogue>, locales: seq<string>, terms: seq<CatEntry>,
                       has: (string, string) -> bool, get: (string, string) -> string): Assoc<PoCatalogue>
  {
    if |locales| == 0 then files
    else
      var l := locales[|locales| - 1];
      Put(ExportFiles(files, locales[..|locales| - 1], terms, has, get), PoFile(l),
          PoCatalogue(l, LocalisedAll(terms, l, has, get)))
  }

  lemma PoFileInjective(a: string, b: string)
    requires PoFile(a) == PoFile(b)
    ensures a == b
  {
    assert a == PoFile(a)[..|a|] && b == PoFile(b)[..|b|];
  }

  /**
   * After the export each selected locale's `<locale>.po` holds the
   * catalogue localised for it, and no other file changes.
   */
  lemma {:induction false} ExportFilesEffect(files: Assoc<PoCatalogue>, locales: seq<string>, terms: seq<CatEntry>,
                                             has: (string, string) -> bool, get: (string, string) -> string)
    requires UniqueKeys(files)
    ensures UniqueKeys(ExportFiles(files, locales, terms, has, get))
    ensures forall l :: l in locales ==>
              Lookup(ExportFiles(files, locales, terms, has, get), PoFile(l)) ==
                Some(PoCatalogue(l, LocalisedAll(terms, l, has, get)))
    ensures forall f :: (forall l :: l in locales ==> f != PoFile(l)) ==>
              Lookup(ExportFiles(files, locales, terms, has, get), f) == Lookup(files, f)
  {
    if |locales| > 0 {
      var init := locales[..|locales| - 1];
      var last := locales[|locales| - 1];
      ExportFilesEffect(files, init, terms, has, get);
      var before := ExportFiles(files, init, terms, has, get);
      PutProperties(before, PoFile(last), PoCatalogue(last, LocalisedAll(terms, last, has, get)));
      forall l | l in init && PoFile(l) == PoFile(last) ensures l == last {
        PoFileInjective(l, last);
      }
      assert forall l :: l in locales <==> l in init || l == last;
    }
  }

  lemma ExportFilesStep(files: Assoc<PoCatalogue>, locales: seq<string>, k: nat, terms: seq<CatEntry>,
                        has: (string, string) -> bool, get: (string, string) -> string)
    requires k < |locales|
    ensures ExportFiles(files, locales[..k + 1], terms, has, get) ==
              Put(ExportFiles(files, locales[..k], terms, has, get), PoFile(locales[k]),
                  PoCatalogue(locales[k], LocalisedAll(terms, locales[k], has, get)))
  {
    assert locales[..k + 1][..k] == locales[..k];
  }

  /** `handle`'s loop: one localised catalogue per selected locale, each generated in turn. */
  method GenerateAll(out: ExportDirectory, pot: Catalogue, locales: seq<string>,
                     has: (string, string) -> bool, get: (string, string) -> string)
    modifies out
    ensures out.files == ExportFiles(old(out.files), locales, pot.entries, has, get)
  {
    ghost var files0 := out.files;
    var k := 0;
    while k < |locales|
      invariant 0 <= k <= |locales|
      invariant out.files == ExportFiles(files0, locales[..k], pot.entries, has, get)
    {
      var catalogue := SetTranslationsForLocale(pot, locales[k], has, get);
      out.Generate(catalogue);
      ExportFilesStep(files0, locales, k, pot.entries, has, get);
      k := k + 1;
    }
    assert locales[..k] == locales;
  }

  /**
   * `po:export`'s `handle`. Reading the name of an app locale that
   * `Language::getById` does not know throws before anything is written;
   * the console kernel reports the exception and exits with status 1,
   * given here as `Failure`. Otherwise the app locale's catalogue is built
   * once and one localised copy is written per selected locale, and the
   * command succeeds.
   */
  method Handle(store: LangDirectory, out: ExportDirectory, configured: Assoc<LanguageConfig>, known: string -> bool,
                all: bool, args: seq<string>, appLocale: string, excluded: seq<string>,
                has: (string, string) -> bool, get: (string, string) -> string) returns (status: ExitCode)
    modifies out
    ensures !known(appLocale) ==> status == Failure && out.files == old(out.files)
    ensures known(appLocale) ==> status == Success
    ensures known(appLocale) ==> out.files == ExportFiles(old(out.files),
              ExportLocales(configured, Directories(store.dirs), known, all, args, appLocale),
              TermsOf(store.dirs, appLocale, excluded), has, get)
  {
    if !known(appLocale) {
      return Failure;
    }
    var pot := GetTranslationTerms(store, appLocale, excluded);
    var locales := ExportLocales(configured, Directories(store.dirs), known, all, args, appLocale);
    GenerateAll(out, pot, locales, has, get);
    return Success;
  }
}
