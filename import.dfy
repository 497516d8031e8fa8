/**
 * `po:import`: for every selected PO document, drop fuzzy entries (unless
 * `--fuzzy` is given) and entries outside the `--only` patterns, split the
 * rest into groups by the text before the first '.' of their context, and
 * rewrite each group file. The new translations are merged over the
 * existing file, or replace it under `--replace`; the result is stored
 * key-sorted, and an empty result deletes the file.
 */
module Import {
  import opened Optional
  import opened Strings
  import opened Arrays
  import opened Trees
  import opened Store
  import opened Locales
  import opened Placeholders

  /** A PO entry as the import reads it: msgctxt, msgid, msgstr (None when untranslated) and the fuzzy flag. */
  datatype PoEntry = PoEntry(context: string, original: string, translation: Option<string>, fuzzy: bool)

  /** A loaded PO file: its `Language` header and its entries. */
  datatype PoDocument = PoDocument(language: string, entries: seq<PoEntry>)

  /** `--fuzzy`, `--only=*` and `--replace`. */
  datatype ImportOptions = ImportOptions(fuzzy: bool, only: seq<string>, replace: bool)

  /** `isFuzzy`: never under `--fuzzy`, otherwise whether the entry carries the fuzzy flag. */
  predicate IsFuzzy(opts: ImportOptions, e: PoEntry)
  {
    !opts.fuzzy && e.fuzzy
  }

  /**
   * `matchesPattern`: every entry when there are no `--only` patterns;
   * otherwise the first pattern whose `pattern*` glob matches the context
   * decides, by its own truthiness.
   */
  predicate MatchesPattern(opts: ImportOptions, e: PoEntry)
  {
    |opts.only| == 0 ||
    match FirstMatch(opts.only, e.context)
    case None => false
    case Some(p) => Truthy(p)
  }

  /** `reject(isFuzzy)->filter(matchesPattern)`, order kept. */
  function Accepted(entries: seq<PoEntry>, opts: ImportOptions): (r: seq<PoEntry>)
    ensures forall e :: e in r <==> e in entries && !IsFuzzy(opts, e) && MatchesPattern(opts, e)
  {
    if |entries| == 0 then []
    else
      var rest := Accepted(entries[1..], opts);
      assert forall e :: e in entries <==> e == entries[0] || e in entries[1..];
      if !IsFuzzy(opts, entries[0]) && MatchesPattern(opts, entries[0]) then [entries[0]] + rest else rest
  }

  /** The group of an entry: `Str::before($context, '.')`. */
  function GroupOf(e: PoEntry): string
  {
    Before(e.context, '.')
  }

  /** The key an entry is stored under: `Str::after($context, '.')`. */
  function KeyOf(e: PoEntry): string
  {
    After(e.context, '.')
  }

  /** The groups of `groupBy`, in order of first appearance, each once. */
  function GroupNames(entries: seq<PoEntry>): (r: seq<string>)
    ensures forall g :: g in r <==> exists e :: e in entries && GroupOf(e) == g
    ensures forall i, j :: 0 <= i < j < |r| ==> r[i] != r[j]
  {
    if |entries| == 0 then []
    else
      var init := entries[..|entries| - 1];
      var last := entries[|entries| - 1];
      var names := GroupNames(init);
      assert forall e :: e in entries <==> e in init || e == last;
      if GroupOf(last) in names then names else names + [GroupOf(last)]
  }

  /** The entries of one group, in order. */
  function InGroup(entries: seq<PoEntry>, group: string): (r: seq<PoEntry>)
    ensures forall e :: e in r <==> e in entries && GroupOf(e) == group
  {
    if |entries| == 0 then []
    else
      var rest := InGroup(entries[1..], group);
      assert forall e :: e in entries <==> e == entries[0] || e in entries[1..];
      if GroupOf(entries[0]) == group then [entries[0]] + rest else rest
  }

  /** `keyBy(after '.')->map(getTranslation)`, before the pairs are written into an array. */
  function KeyedTranslations(entries: seq<PoEntry>): seq<(string, Option<string>)>
  {
    seq(|entries|, i requires 0 <= i < |entries| => (KeyOf(entries[i]), entries[i].translation))
  }

  /** PHP truthiness of a `getTranslation()` result. */
  predicate TruthyTranslation(t: Option<string>)
  {
    t.Some? && Truthy(t.value)
  }

  /** `formatPlaceholdersFromPerlBrace` of a kept translation. */
  function Formatted(t: Option<string>): string
  {
    if t.Some? then FromPerlBrace(t.value) else ""
  }

  /** The translations of one group: keyed, falsy ones dropped, placeholders turned back into `:word`. */
  function GroupTranslations(entries: seq<PoEntry>): Assoc<string>
  {
    MapValues(FilterValues(FromPairs(KeyedTranslations(entries)), TruthyTranslation), Formatted)
  }

  /** The translation stored under key `k`: that of the last entry with that key, when it is truthy. */
  function Winner(entries: seq<PoEntry>, k: string): Option<string>
  {
    var last: Option<Option<string>> := LastValue(KeyedTranslations(entries), k);
    if last.Some? && TruthyTranslation(last.value) then Some(FromPerlBrace(last.value.value)) else None
  }

  lemma GroupTranslationsLookup(entries: seq<PoEntry>)
    ensures UniqueKeys(GroupTranslations(entries))
    ensures forall k :: Lookup(GroupTranslations(entries), k) == Winner(entries, k)
  {
    var keyed := FromPairs(KeyedTranslations(entries));
    var kept := FilterValues(keyed, TruthyTranslation);
    FromPairsLookup(KeyedTranslations(entries));
    FilterValuesLookup(keyed, TruthyTranslation);
    var r := MapValues(kept, Formatted);
    forall i, j | 0 <= i < j < |r| ensures r[i].0 != r[j].0 {
      assert r[i].0 == kept[i].0 && r[j].0 == kept[j].0;
    }
    forall k ensures Lookup(r, k) == Winner(entries, k) {
      MapValuesLookup(kept, Formatted, k);
    }
  }

  // ------------------------------------------------------------ reconcile

  /** The new translations as array values. */
  function Incoming(added: Assoc<string>): Assoc<Tree>
  {
    MapValues(added, s => Text(s))
  }

  /** Without `--replace` an existing file is merged under the new translations; otherwise they stand alone. */
  function Reconciled(existing: Option<Assoc<Tree>>, added: Assoc<string>, replace: bool): Assoc<Tree>
  {
    if !replace && existing.Some? then Merge(existing.value, Incoming(added)) else Incoming(added)
  }

  /** What the group file holds after the import: None when it is deleted. */
  function ImportedFile(existing: Option<Assoc<Tree>>, added: Assoc<string>, replace: bool): Option<Assoc<Tree>>
  {
    var merged := Reconciled(existing, added, replace);
    if |merged| == 0 then None else Some(KSort(merged))
  }

  lemma IncomingProperties(added: Assoc<string>)
    requires UniqueKeys(added)
    ensures WellFormed(Node(Incoming(added)))
    ensures forall k :: Lookup(Incoming(added), k) == match Lookup(added, k) case None => None case Some(s) => Some(Text(s))
  {
    var r := Incoming(added);
    forall i, j | 0 <= i < j < |r| ensures r[i].0 != r[j].0 {
      assert r[i].0 == added[i].0 && r[j].0 == added[j].0;
    }
    forall k ensures Lookup(r, k) == match Lookup(added, k) case None => None case Some(s) => Some(Text(s)) {
      MapValuesLookup(added, s => Text(s), k);
    }
  }

  /**
   * Merge precedence: a new key takes its new value; without `--replace`
   * a key only the existing file has keeps its value (the merge is
   * shallow); under `--replace` only the new keys remain.
   */
  lemma ReconciledLookup(existing: Option<Assoc<Tree>>, added: Assoc<string>, replace: bool)
    requires UniqueKeys(added) && (existing.Some? ==> WellFormed(Node(existing.value)))
    ensures WellFormed(Node(Reconciled(existing, added, replace)))
    ensures forall k :: Lookup(Reconciled(existing, added, replace), k) ==
              match Lookup(added, k)
              case Some(s) => Some(Text(s))
              case None => if !replace && existing.Some? then Lookup(existing.value, k) else None
  {
    IncomingProperties(added);
    if !replace && existing.Some? {
      var a, b := existing.value, Incoming(added);
      MergeLookup(a, b);
      MergeMember(a, b);
      var m := Merge(a, b);
      forall i | 0 <= i < |m| ensures WellFormed(m[i].1) {
        assert m[i] in m;
        if m[i] in b {
          var j :| 0 <= j < |b| && b[j] == m[i];
        } else {
          var j :| 0 <= j < |a| && a[j] == m[i];
        }
      }
    }
  }

  /**
   * The group file afterwards: deleted exactly when there is nothing to
   * keep, otherwise key-sorted with the merged lookups.
   */
  lemma {:induction false} ImportedFileProperties(existing: Option<Assoc<Tree>>, added: Assoc<string>, replace: bool)
    requires UniqueKeys(added) && (existing.Some? ==> WellFormed(Node(existing.value)))
    ensures ImportedFile(existing, added, replace).None? <==>
              |added| == 0 && (replace || existing.None? || |existing.value| == 0)
    ensures match ImportedFile(existing, added, replace)
            case None => true
            case Some(c) =>
              && WellFormed(Node(c)) && StrictlySorted(c)
              && forall k :: Lookup(c, k) == Lookup(Reconciled(existing, added, replace), k)
  {
    ReconciledLookup(existing, added, replace);
    var m := Reconciled(existing, added, replace);
    if |added| > 0 {
      assert Lookup(m, added[0].0).Some?;
    } else if !replace && existing.Some? && |existing.value| > 0 {
      assert Lookup(m, existing.value[0].0).Some?;
    }
    if |m| > 0 {
      SortTranslationsWellFormed(m, "");
      KSortProperties(m);
    }
  }

  /** `po:import`'s task for one group: the file is rewritten or deleted. */
  function ImportGroup(dirs: Lang, locale: string, group: string, added: Assoc<string>, replace: bool): Lang
  {
    var file := GroupFile(group);
    match ImportedFile(FileIn(dirs, locale, file), added, replace)
    case None => DeleteFile(dirs, locale, file)
    case Some(c) => StoreFile(dirs, locale, file, c)
  }

  /** Importing one group changes that group's file only. */
  lemma ImportGroupEffect(dirs: Lang, locale: string, group: string, added: Assoc<string>, replace: bool)
    requires ValidLang(dirs) && UniqueKeys(added)
    ensures ValidLang(ImportGroup(dirs, locale, group, added, replace))
    ensures forall l, f :: FileIn(ImportGroup(dirs, locale, group, added, replace), l, f) ==
              if l == locale && f == GroupFile(group) then ImportedFile(FileIn(dirs, l, f), added, replace)
              else FileIn(dirs, l, f)
  {
    var file := GroupFile(group);
    var existing := FileIn(dirs, locale, file);
    if existing.Some? {
      LookupValid(dirs, locale);
      var files := Lookup(dirs, locale).value;
      assert WellFormed(Node(files[IndexOf(files, file)].1));
    }
    ImportedFileProperties(existing, added, replace);
    match ImportedFile(existing, added, replace)
    case None => DeleteFileEffect(dirs, locale, file);
    case Some(c) => StoreFileEffect(dirs, locale, file, c);
  }

  // --------------------------------------------------------------- locale

  /** The added translations of group `g` among the accepted entries. */
  function GroupFresh(accepted: seq<PoEntry>, group: string): Assoc<string>
  {
    GroupTranslations(InGroup(accepted, group))
  }

  lemma GroupFreshUnique(accepted: seq<PoEntry>, group: string)
    ensures UniqueKeys(GroupFresh(accepted, group))
  {
    GroupTranslationsLookup(InGroup(accepted, group));
  }

  /** The groups one after another. */
  function ImportGroups(dirs: Lang, locale: string, accepted: seq<PoEntry>, groups: seq<string>, replace: bool): Lang
  {
    if |groups| == 0 then dirs
    else
      var g := groups[|groups| - 1];
      ImportGroup(ImportGroups(dirs, locale, accepted, groups[..|groups| - 1], replace), locale, g, GroupFresh(accepted, g), replace)
  }

  lemma ImportGroupsStep(dirs: Lang, locale: string, accepted: seq<PoEntry>, groups: seq<string>, k: nat, replace: bool)
    requires k < |groups|
    ensures ImportGroups(dirs, locale, accepted, groups[..k + 1], replace) ==
              ImportGroup(ImportGroups(dirs, locale, accepted, groups[..k], replace), locale, groups[k],
                          GroupFresh(accepted, groups[k]), replace)
  {
    assert groups[..k + 1][..k] == groups[..k];
  }

  /** Everything `handle` does for one locale's entries. */
  function ImportLocale(dirs: Lang, locale: string, entries: seq<PoEntry>, opts: ImportOptions): Lang
  {
    var accepted := Accepted(entries, opts);
    ImportGroups(dirs, locale, accepted, GroupNames(accepted), opts.replace)
  }

  lemma GroupFileInjective(g: string, h: string)
    requires GroupFile(g) == GroupFile(h)
    ensures g == h
  {
    assert g == GroupFile(g)[..|g|] && h == GroupFile(h)[..|h|];
  }

  lemma {:induction false} ImportGroupsEffect(dirs: Lang, locale: string, accepted: seq<PoEntry>, groups: seq<string>, replace: bool)
    requires ValidLang(dirs)
    requires forall i, j :: 0 <= i < j < |groups| ==> groups[i] != groups[j]
    ensures ValidLang(ImportGroups(dirs, locale, accepted, groups, replace))
    ensures forall g :: g in groups ==>
              FileIn(ImportGroups(dirs, locale, accepted, groups, replace), locale, GroupFile(g)) ==
                ImportedFile(FileIn(dirs, locale, GroupFile(g)), GroupFresh(accepted, g), replace)
    ensures forall l, f :: !(l == locale && f in GroupFileSet(groups)) ==>
              FileIn(ImportGroups(dirs, locale, accepted, groups, replace), l, f) == FileIn(dirs, l, f)
  {
    if |groups| > 0 {
      var init := groups[..|groups| - 1];
      var last := groups[|groups| - 1];
      var before := ImportGroups(dirs, locale, accepted, init, replace);
      ImportGroupsEffect(dirs, locale, accepted, init, replace);
      GroupTranslationsLookup(InGroup(accepted, last));
      ImportGroupEffect(before, locale, last, GroupFresh(accepted, last), replace);
      assert GroupFile(last) !in GroupFileSet(init) by {
        GroupFileSetMember(init, GroupFile(last));
        forall g | g in init ensures GroupFile(g) != GroupFile(last) {
          if GroupFile(g) == GroupFile(last) {
            GroupFileInjective(g, last);
          }
        }
      }
      forall g | g in init ensures GroupFile(g) != GroupFile(last) {
        if GroupFile(g) == GroupFile(last) {
          GroupFileInjective(g, last);
        }
      }
      assert forall g :: g in groups <==> g in init || g == last;
    }
  }

  /**
   * One locale: each group that has accepted entries gets its file
   * reconciled with that group's translations; no other file, and no
   * other locale, is touched.
   */
  lemma ImportLocaleEffect(dirs: Lang, locale: string, entries: seq<PoEntry>, opts: ImportOptions)
    requires ValidLang(dirs)
    ensures ValidLang(ImportLocale(dirs, locale, entries, opts))
    ensures forall g :: g in GroupNames(Accepted(entries, opts)) ==>
              FileIn(ImportLocale(dirs, locale, entries, opts), locale, GroupFile(g)) ==
              ImportedFile(FileIn(dirs, locale, GroupFile(g)), GroupFresh(Accepted(entries, opts), g), opts.replace)
    ensures forall l, f :: !(l == locale && f in GroupFileSet(GroupNames(Accepted(entries, opts)))) ==>
              FileIn(ImportLocale(dirs, locale, entries, opts), l, f) == FileIn(dirs, l, f)
  {
    var accepted := Accepted(entries, opts);
    ImportGroupsEffect(dirs, locale, accepted, GroupNames(accepted), opts.replace);
  }

  // ------------------------------------------------------- entry filtering

  /** The entries without the fuzzy flag. */
  function NonFuzzy(entries: seq<PoEntry>): (r: seq<PoEntry>)
    ensures forall e :: e in r <==> e in entries && !e.fuzzy
  {
    if |entries| == 0 then []
    else
      var rest := NonFuzzy(entries[1..]);
      assert forall e :: e in entries <==> e == entries[0] || e in entries[1..];
      if !entries[0].fuzzy then [entries[0]] + rest else rest
  }

  lemma {:induction false} AcceptedNonFuzzy(entries: seq<PoEntry>, opts: ImportOptions)
    requires !opts.fuzzy
    ensures Accepted(NonFuzzy(entries), opts) == Accepted(entries, opts)
  {
    if |entries| > 0 {
      AcceptedNonFuzzy(entries[1..], opts);
    }
  }

  /**
   * Without `--fuzzy` fuzzy entries never reach the store: the import is
   * the same as that of the entries without them. With `--fuzzy` every
   * entry that matches the patterns is kept, fuzzy or not.
   */
  lemma FuzzyEntries(dirs: Lang, locale: string, entries: seq<PoEntry>, opts: ImportOptions)
    ensures !opts.fuzzy ==> forall e :: e in Accepted(entries, opts) ==> !e.fuzzy
    ensures !opts.fuzzy ==> ImportLocale(dirs, locale, entries, opts) == ImportLocale(dirs, locale, NonFuzzy(entries), opts)
    ensures opts.fuzzy ==> forall e :: e in entries && MatchesPattern(opts, e) ==> e in Accepted(entries, opts)
  {
    if !opts.fuzzy {
      AcceptedNonFuzzy(entries, opts);
    }
  }

  /**
   * With truthy patterns, `--only` keeps exactly the entries whose context
   * some `pattern*` glob matches; for a pattern without `*` that is a
   * plain prefix test.
   */
  lemma MatchesPatternIff(opts: ImportOptions, e: PoEntry)
    requires forall p :: p in opts.only ==> Truthy(p)
    ensures MatchesPattern(opts, e) <==> |opts.only| == 0 || exists p :: p in opts.only && StrIs(p + "*", e.context)
    ensures (forall p :: p in opts.only ==> '*' !in p) ==>
              (MatchesPattern(opts, e) <==> |opts.only| == 0 || exists p :: p in opts.only && p <= e.context)
  {
    if forall p :: p in opts.only ==> '*' !in p {
      forall p | p in opts.only ensures StrIs(p + "*", e.context) <==> p <= e.context {
        StrIsPrefix(p, e.context);
      }
    }
  }

  /** A context without '.' is its own group and its own key. */
  lemma ContextWithoutDot(e: PoEntry)
    requires '.' !in e.context
    ensures GroupOf(e) == e.context && KeyOf(e) == e.context
  {
  }

  /**
   * The value stored under a key of a group: the placeholder-converted
   * translation of the last accepted entry with that key, unless that
   * translation is falsy; a falsy translation is never stored.
   */
  lemma GroupFreshLookup(accepted: seq<PoEntry>, group: string, k: string)
    ensures Lookup(GroupFresh(accepted, group), k) == Winner(InGroup(accepted, group), k)
    ensures forall v :: Lookup(GroupFresh(accepted, group), k) == Some(v) ==>
              exists t :: Truthy(t) && v == FromPerlBrace(t)
  {
    GroupTranslationsLookup(InGroup(accepted, group));
  }

  // --------------------------------------------------------------- handle

  /** The documents keyed by language header, before `only`. */
  function ByLanguage(documents: seq<PoDocument>): seq<(string, seq<PoEntry>)>
  {
    seq(|documents|, i requires 0 <= i < |documents| => (documents[i].language, documents[i].entries))
  }

  /** The selected locales one after another. */
  function ImportAll(dirs: Lang, selected: Assoc<seq<PoEntry>>, opts: ImportOptions): Lang
  {
    if |selected| == 0 then dirs
    else
      var last := selected[|selected| - 1];
      ImportLocale(ImportAll(dirs, selected[..|selected| - 1], opts), last.0, last.1, opts)
  }

  /** A locale's import leaves every other locale as it was. */
  lemma ImportLocaleOthers(dirs: Lang, locale: string, entries: seq<PoEntry>, opts: ImportOptions)
    requires ValidLang(dirs)
    ensures ValidLang(ImportLocale(dirs, locale, entries, opts))
    ensures forall l, f :: l != locale ==> FileIn(ImportLocale(dirs, locale, entries, opts), l, f) == FileIn(dirs, l, f)
  {
    ImportLocaleEffect(dirs, locale, entries, opts);
  }

  /** A locale's import depends on that locale's files only. */
  lemma ImportLocaleLocal(d1: Lang, d2: Lang, locale: string, entries: seq<PoEntry>, opts: ImportOptions)
    requires ValidLang(d1) && ValidLang(d2)
    requires forall f :: FileIn(d1, locale, f) == FileIn(d2, locale, f)
    ensures forall f :: FileIn(ImportLocale(d1, locale, entries, opts), locale, f) ==
              FileIn(ImportLocale(d2, locale, entries, opts), locale, f)
  {
    ImportLocaleEffect(d1, locale, entries, opts);
    ImportLocaleEffect(d2, locale, entries, opts);
    var groups := GroupNames(Accepted(entries, opts));
    forall f | f in GroupFileSet(groups)
      ensures FileIn(ImportLocale(d1, locale, entries, opts), locale, f) ==
                FileIn(ImportLocale(d2, locale, entries, opts), locale, f)
    {
      GroupFileSetMember(groups, f);
      var g :| g in groups && GroupFile(g) == f;
    }
  }

  /**
   * The whole import: a selected locale ends up as its own document's
   * import made it (whatever the others did), and a locale that was not
   * selected is not touched.
   */
  lemma {:induction false} ImportAllEffect(dirs: Lang, selected: Assoc<seq<PoEntry>>, opts: ImportOptions)
    requires ValidLang(dirs) && UniqueKeys(selected)
    ensures ValidLang(ImportAll(dirs, selected, opts))
    ensures forall l, f :: !HasKey(selected, l) ==> FileIn(ImportAll(dirs, selected, opts), l, f) == FileIn(dirs, l, f)
    ensures forall i, f :: 0 <= i < |selected| ==>
              FileIn(ImportAll(dirs, selected, opts), selected[i].0, f) ==
                FileIn(ImportLocale(dirs, selected[i].0, selected[i].1, opts), selected[i].0, f)
  {
    if |selected| > 0 {
      var init := selected[..|selected| - 1];
      var last := selected[|selected| - 1];
      var before := ImportAll(dirs, init, opts);
      var r := ImportAll(dirs, selected, opts);
      assert r == ImportLocale(before, last.0, last.1, opts);
      ImportAllEffect(dirs, init, opts);
      ImportLocaleOthers(before, last.0, last.1, opts);
      assert !HasKey(init, last.0);
      ImportLocaleLocal(before, dirs, last.0, last.1, opts);
      forall i, f | 0 <= i < |selected|
        ensures FileIn(r, selected[i].0, f) == FileIn(ImportLocale(dirs, selected[i].0, selected[i].1, opts), selected[i].0, f)
      {
        if i < |init| {
          var (l, entries) := init[i];
          assert selected[i] == init[i] && l != last.0;
          assert FileIn(r, l, f) == FileIn(before, l, f);
        } else {
          assert selected[i] == last;
        }
      }
      forall l | !HasKey(selected, l) ensures !HasKey(init, l) && l != last.0 {
        assert forall j :: 0 <= j < |init| ==> init[j] == selected[j];
      }
    }
  }

  /** The task for one group: reconcile with the existing file, then delete or write the sorted result. */
  method ImportGroupFile(store: LangDirectory, locale: string, group: string, added: Assoc<string>, replace: bool)
    requires store.Valid() && UniqueKeys(added)
    modifies store
    ensures store.Valid()
    ensures store.dirs == ImportGroup(old(store.dirs), locale, group, added, replace)
  {
    var file := GroupFile(group);
    var existing := FileIn(store.dirs, locale, file);
    if existing.Some? {
      LookupValid(store.dirs, locale);
      var files := Lookup(store.dirs, locale).value;
      assert WellFormed(Node(files[IndexOf(files, file)].1));
    }
    ImportedFileProperties(existing, added, replace);
    var translations := Incoming(added);
    if !replace && existing.Some? {
      translations := Merge(existing.value, translations);
    }
    if |translations| == 0 {
      store.Delete(locale, file);
      return;
    }
    store.PutContents(locale, file, KSort(translations));
  }

  /** The loop of `importLocale` over the group names, one group file after another. */
  method ImportGroupList(store: LangDirectory, locale: string, accepted: seq<PoEntry>, groups: seq<string>, replace: bool)
    requires store.Valid()
    modifies store
    ensures store.Valid()
    ensures store.dirs == ImportGroups(old(store.dirs), locale, accepted, groups, replace)
  {
    ghost var dirs0 := store.dirs;
    var i := 0;
    while i < |groups|
      invariant 0 <= i <= |groups|
      invariant store.Valid()
      invariant store.dirs == ImportGroups(dirs0, locale, accepted, groups[..i], replace)
    {
      var group := groups[i];
      var added := GroupFresh(accepted, group);
      GroupFreshUnique(accepted, group);
      ImportGroupFile(store, locale, group, added, replace);
      ImportGroupsStep(dirs0, locale, accepted, groups, i, replace);
      i := i + 1;
    }
    assert groups[..i] == groups;
  }

  /** The body of `handle`'s locale loop: filter, group, and import each group. */
  method ImportLocaleEntries(store: LangDirectory, locale: string, entries: seq<PoEntry>, opts: ImportOptions)
    requires store.Valid()
    modifies store
    ensures store.Valid()
    ensures store.dirs == ImportLocale(old(store.dirs), locale, entries, opts)
  {
    var accepted := Accepted(entries, opts);
    var groups := GroupNames(accepted);
    ImportGroupList(store, locale, accepted, groups, opts.replace);
  }

  lemma ImportAllStep(dirs: Lang, selected: Assoc<seq<PoEntry>>, k: nat, opts: ImportOptions)
    requires k < |selected|
    ensures ImportAll(dirs, selected[..k + 1], opts) ==
              ImportLocale(ImportAll(dirs, selected[..k], opts), selected[k].0, selected[k].1, opts)
  {
    assert selected[..k + 1][..k] == selected[..k];
  }

  /** One turn of `handle`'s loop: the `k`-th selected locale. */
  method ImportNext(store: LangDirectory, ghost dirs0: Lang, selected: Assoc<seq<PoEntry>>, k: nat, opts: ImportOptions)
    requires k < |selected| && store.Valid()
    requires store.dirs == ImportAll(dirs0, selected[..k], opts)
    modifies store
    ensures store.Valid()
    ensures store.dirs == ImportAll(dirs0, selected[..k + 1], opts)
  {
    ImportLocaleEntries(store, selected[k].0, selected[k].1, opts);
    ImportAllStep(dirs0, selected, k, opts);
  }

  /**
   * How many selected locales are imported: all of them, or those before the
   * first one `Language::getById` does not know, whose name read throws.
   */
  function KnownRun(selected: Assoc<seq<PoEntry>>, known: string -> bool): (n: nat)
    ensures n <= |selected|
    ensures forall i :: 0 <= i < n ==> known(selected[i].0)
    ensures n < |selected| ==> !known(selected[n].0)
  {
    if |selected| == 0 || !known(selected[0].0) then 0
    else 1 + KnownRun(selected[1..], known)
  }

  /**
   * `handle`'s loop over the selected locales. It ends early at a locale
   * `Language::getById` does not know: the locales before it are imported,
   * that one and the ones after it are not.
   */
  method ImportSelected(store: LangDirectory, selected: Assoc<seq<PoEntry>>, known: string -> bool, opts: ImportOptions)
    returns (complete: bool)
    requires store.Valid()
    modifies store
    ensures store.Valid()
    ensures store.dirs == ImportAll(old(store.dirs), selected[..KnownRun(selected, known)], opts)
    ensures complete <==> KnownRun(selected, known) == |selected|
  {
    ghost var dirs0 := store.dirs;
    ghost var n := KnownRun(selected, known);
    var k := 0;
    while k < |selected| && known(selected[k].0)
      invariant 0 <= k <= n
      invariant store.Valid()
      invariant store.dirs == ImportAll(dirs0, selected[..k], opts)
    {
      ImportNext(store, dirs0, selected, k, opts);
      k := k + 1;
    }
    assert k == n;
    complete := k == |selected|;
  }

  /**
   * `po:import`'s `handle`: select the documents, then import each
   * selected locale in turn. The command succeeds when every selected
   * locale is known to `Language::getById`. At the first unknown one,
   * reading its name throws; the console kernel reports the exception and
   * exits with status 1, given here as `Failure`, and the locales before it
   * stay imported.
   */
  method Handle(store: LangDirectory, configured: Assoc<LanguageConfig>, documents: seq<PoDocument>,
                args: seq<string>, known: string -> bool, opts: ImportOptions) returns (status: ExitCode)
    requires store.Valid()
    modifies store
    ensures store.Valid()
    ensures var selected := ImportLocales(ByLanguage(documents), Pool(configured, Directories(old(store.dirs))), args);
      && store.dirs == ImportAll(old(store.dirs), selected[..KnownRun(selected, known)], opts)
      && (status == Success <==> forall l :: HasKey(selected, l) ==> known(l))
  {
    var selected := ImportLocales(ByLanguage(documents), Pool(configured, Directories(store.dirs)), args);
    var complete := ImportSelected(store, selected, known, opts);
    KnownRunComplete(selected, known);
    status := if complete then Success else Failure;
  }

  /** The whole selection is imported exactly when every selected locale is known. */
  lemma KnownRunComplete(selected: Assoc<seq<PoEntry>>, known: string -> bool)
    ensures KnownRun(selected, known) == |selected| <==> forall l :: HasKey(selected, l) ==> known(l)
  {
    var n := KnownRun(selected, known);
    if n < |selected| {
      assert HasKey(selected, selected[n].0);
    } else {
      forall l | HasKey(selected, l) ensures known(l) {
        var i := IndexOf(selected, l);
      }
    }
  }
}
