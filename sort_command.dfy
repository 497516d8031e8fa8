/**
 * `po:sort`: for every selected locale, list its group files and rewrite
 * each one whose array is not empty through `writeTranslationFile`, which
 * stores it sorted. Locales without group files are reported and skipped.
 */
module SortCommand {
  import opened Optional
  import opened Strings
  import opened Arrays
  import opened Trees
  import opened Store
  import opened Locales

  /** What the rewrite does to one group file: an empty array is skipped, any other is sorted. */
  function Resorted(contents: Assoc<Tree>, structure: string): Assoc<Tree>
  {
    if |contents| == 0 then contents else SortTranslations(contents, structure)
  }

  function ResortedAt(found: Option<Assoc<Tree>>, structure: string): Option<Assoc<Tree>>
  {
    match found
    case None => None
    case Some(contents) => Some(Resorted(contents, structure))
  }

  /** A locale directory after the files named in `names` have been rewritten. */
  function ResortFiles(files: Files, names: set<string>, structure: string): (r: Files)
    ensures Keys(r) == Keys(files)
  {
    seq(|files|, i requires 0 <= i < |files| =>
      if files[i].0 in names then (files[i].0, Resorted(files[i].1, structure)) else files[i])
  }

  /** The names of the group files of a locale directory. */
  function GroupFileNames(files: Files): set<string>
  {
    set i | 0 <= i < |files| && IsGroupFile(files[i].0) :: files[i].0
  }

  /** One locale after `po:sort`: every group file rewritten, everything else as it was. */
  function SortLocale(dirs: Lang, locale: string, structure: string): Lang
  {
    match Lookup(dirs, locale)
    case None => dirs
    case Some(files) => Put(dirs, locale, ResortFiles(files, GroupFileNames(files), structure))
  }

  /** The selected locales, one after another. */
  function SortAll(dirs: Lang, locales: seq<string>, structure: string): Lang
  {
    if |locales| == 0 then dirs
    else SortLocale(SortAll(dirs, locales[..|locales| - 1], structure), locales[|locales| - 1], structure)
  }

  lemma SortAllStep(dirs: Lang, locales: seq<string>, k: nat, structure: string)
    requires k < |locales|
    ensures SortAll(dirs, locales[..k + 1], structure) == SortLocale(SortAll(dirs, locales[..k], structure), locales[k], structure)
    ensures WithoutGroups(dirs, locales[..k + 1]) ==
              WithoutGroups(dirs, locales[..k]) + if HasGroups(dirs, locales[k]) then [] else [locales[k]]
  {
    assert locales[..k + 1][..k] == locales[..k];
  }

  /** The locale directory holds at least one group file. */
  ghost predicate HasGroups(dirs: Lang, locale: string)
  {
    exists f :: IsGroupFile(f) && FileIn(dirs, locale, f).Some?
  }

  /** The selected locales that are reported as having no translation files, in order. */
  ghost function WithoutGroups(dirs: Lang, locales: seq<string>): seq<string>
  {
    if |locales| == 0 then []
    else
      var l := locales[|locales| - 1];
      WithoutGroups(dirs, locales[..|locales| - 1]) + if HasGroups(dirs, l) then [] else [l]
  }

  // ------------------------------------------------------------ properties

  /** Rewriting twice is rewriting once. */
  lemma ResortedIdempotent(contents: Assoc<Tree>, structure: string)
    ensures Resorted(Resorted(contents, structure), structure) == Resorted(contents, structure)
    ensures |Resorted(contents, structure)| == |contents|
  {
    SortTranslationsIdempotent(contents, structure);
    SortTranslationsLength(contents, structure);
  }

  lemma ResortFilesLookup(files: Files, names: set<string>, structure: string, f: string)
    ensures Lookup(ResortFiles(files, names, structure), f) ==
              if f in names then ResortedAt(Lookup(files, f), structure) else Lookup(files, f)
  {
    IndexOfSameKeys(ResortFiles(files, names, structure), files, f);
  }

  lemma ResortFilesValid(files: Files, names: set<string>, structure: string)
    requires ValidFiles(files)
    ensures ValidFiles(ResortFiles(files, names, structure))
  {
    var r := ResortFiles(files, names, structure);
    forall i, j | 0 <= i < j < |r| ensures r[i].0 != r[j].0 {
      assert r[i].0 == Keys(r)[i] == files[i].0 && r[j].0 == Keys(r)[j] == files[j].0;
    }
    forall i | 0 <= i < |r| ensures WellFormed(Node(r[i].1)) {
      SortTranslationsWellFormed(files[i].1, structure);
    }
  }

  lemma GroupFileNamesMember(files: Files, f: string)
    ensures f in GroupFileNames(files) <==> HasKey(files, f) && IsGroupFile(f)
  {
    if HasKey(files, f) && IsGroupFile(f) {
      var i :| 0 <= i < |files| && files[i].0 == f;
    }
  }

  /**
   * Sorting one locale rewrites exactly its group files: each non-empty one
   * is sorted, empty ones and every other file, locale and directory stay
   * as they were.
   */
  lemma {:induction false} SortLocaleEffect(dirs: Lang, locale: string, structure: string)
    requires ValidLang(dirs)
    ensures ValidLang(SortLocale(dirs, locale, structure))
    ensures Keys(SortLocale(dirs, locale, structure)) == Keys(dirs)
    ensures forall l, f :: FileIn(SortLocale(dirs, locale, structure), l, f) ==
              if l == locale && IsGroupFile(f) then ResortedAt(FileIn(dirs, l, f), structure) else FileIn(dirs, l, f)
  {
    match Lookup(dirs, locale)
    case None =>
    case Some(files) =>
      LookupValid(dirs, locale);
      var r := ResortFiles(files, GroupFileNames(files), structure);
      ResortFilesValid(files, GroupFileNames(files), structure);
      PutValid(dirs, locale, r);
      PutProperties(dirs, locale, r);
      assert Keys(Put(dirs, locale, r)) == Keys(dirs);
      forall f ensures Lookup(r, f) == if IsGroupFile(f) then ResortedAt(Lookup(files, f), structure) else Lookup(files, f) {
        ResortFilesLookup(files, GroupFileNames(files), structure, f);
        GroupFileNamesMember(files, f);
      }
  }

  /**
   * `po:sort` over a selection: every group file of a selected locale ends
   * up rewritten once (a locale named twice is sorted to the same result),
   * and every file of an unselected locale keeps its contents and order.
   */
  lemma {:induction false} SortAllEffect(dirs: Lang, locales: seq<string>, structure: string)
    requires ValidLang(dirs)
    ensures ValidLang(SortAll(dirs, locales, structure))
    ensures Keys(SortAll(dirs, locales, structure)) == Keys(dirs)
    ensures forall l, f :: FileIn(SortAll(dirs, locales, structure), l, f) ==
              if l in locales && IsGroupFile(f) then ResortedAt(FileIn(dirs, l, f), structure) else FileIn(dirs, l, f)
  {
    if |locales| > 0 {
      var init := locales[..|locales| - 1];
      var last := locales[|locales| - 1];
      SortAllEffect(dirs, init, structure);
      SortLocaleEffect(SortAll(dirs, init, structure), last, structure);
      forall l, f ensures FileIn(SortAll(dirs, locales, structure), l, f) ==
        if l in locales && IsGroupFile(f) then ResortedAt(FileIn(dirs, l, f), structure) else FileIn(dirs, l, f)
      {
        assert l in locales <==> l in init || l == last;
        match FileIn(dirs, l, f)
        case None =>
        case Some(c) => ResortedIdempotent(c, structure);
      }
    }
  }

  /** Sorting keeps every file, so it never changes which locales have groups. */
  lemma SortAllKeepsGroups(dirs: Lang, locales: seq<string>, structure: string, l: string)
    requires ValidLang(dirs)
    ensures HasGroups(SortAll(dirs, locales, structure), l) <==> HasGroups(dirs, l)
  {
    SortAllEffect(dirs, locales, structure);
    if HasGroups(dirs, l) {
      var f :| IsGroupFile(f) && FileIn(dirs, l, f).Some?;
      assert FileIn(SortAll(dirs, locales, structure), l, f).Some?;
    }
    if HasGroups(SortAll(dirs, locales, structure), l) {
      var f :| IsGroupFile(f) && FileIn(SortAll(dirs, locales, structure), l, f).Some?;
      assert FileIn(dirs, l, f).Some?;
    }
  }

  /** The group listing is empty exactly when the locale has no group file. */
  lemma GroupsIffHasGroups(dirs: Lang, locale: string)
    requires ValidLang(dirs)
    ensures |TranslationGroups(dirs, locale)| > 0 <==> HasGroups(dirs, locale)
  {
    var groups := TranslationGroups(dirs, locale);
    TranslationGroupsExact(dirs, locale);
    if |groups| > 0 {
      assert groups[0] in groups;
      assert IsGroupFile(GroupFile(groups[0])) && FileIn(dirs, locale, GroupFile(groups[0])).Some?;
    }
    if HasGroups(dirs, locale) {
      var f :| IsGroupFile(f) && FileIn(dirs, locale, f).Some?;
      var g := f[..|f| - 4];
      assert GroupFile(g) == f;
      assert g in groups;
    }
  }

  /** A locale without group files is left exactly as it was. */
  lemma NoGroupsNoChange(dirs: Lang, locale: string, structure: string)
    requires ValidLang(dirs) && !HasGroups(dirs, locale)
    ensures SortLocale(dirs, locale, structure) == dirs
  {
    match Lookup(dirs, locale)
    case None =>
    case Some(files) =>
      var names := GroupFileNames(files);
      forall f | f in names ensures false {
        GroupFileNamesMember(files, f);
      }
      assert ResortFiles(files, names, structure) == files;
      PutSame(dirs, locale);
  }

  /** The listed groups name exactly the group files of the locale directory. */
  lemma ListedGroupFiles(dirs: Lang, locale: string, files: Files, groups: seq<string>)
    requires ValidLang(dirs) && Lookup(dirs, locale) == Some(files)
    requires groups == TranslationGroups(dirs, locale)
    ensures GroupFileSet(groups) == GroupFileNames(files)
  {
    TranslationGroupsExact(dirs, locale);
    forall x ensures x in GroupFileSet(groups) <==> x in GroupFileNames(files) {
      GroupFileNamesMember(files, x);
      GroupFileSetMember(groups, x);
      if x in GroupFileNames(files) {
        var g := x[..|x| - 4];
        assert GroupFile(g) == x;
        assert g in groups;
      }
    }
  }

  lemma ListedGroupHasFile(dirs: Lang, locale: string, group: string)
    requires ValidLang(dirs) && group in TranslationGroups(dirs, locale)
    ensures Lookup(dirs, locale).Some? && HasKey(Lookup(dirs, locale).value, GroupFile(group))
  {
    TranslationGroupsExact(dirs, locale);
  }

  /** Adding a name to the re-sorted set re-sorts that one file and changes no other. */
  lemma ResortFilesAdd(files0: Files, done: set<string>, f: string, structure: string)
    requires UniqueKeys(files0) && HasKey(files0, f)
    ensures var p := IndexOf(files0, f);
      ResortFiles(files0, done + {f}, structure) ==
        ResortFiles(files0, done, structure)[p := (f, Resorted(files0[p].1, structure))]
  {
    var cur := ResortFiles(files0, done, structure);
    var next := ResortFiles(files0, done + {f}, structure);
    var p := IndexOf(files0, f);
    forall q | 0 <= q < |files0| && q != p ensures next[q] == cur[q] {
      assert files0[q].0 != f;
    }
  }

  /** Re-sorting one more file of a directory: nothing to do for an empty file, otherwise storing its sorted contents. */
  lemma ResortFilesStep(files0: Files, done: set<string>, f: string, structure: string)
    requires ValidFiles(files0) && HasKey(files0, f)
    ensures Lookup(ResortFiles(files0, done, structure), f).Some?
    ensures var cur := ResortFiles(files0, done, structure);
      var next := ResortFiles(files0, done + {f}, structure);
      var t := Lookup(cur, f).value;
      && WellFormed(Node(t))
      && (|t| == 0 ==> next == cur)
      && (|t| > 0 ==> Put(cur, f, SortTranslations(t, structure)) == next)
  {
    var cur := ResortFiles(files0, done, structure);
    ResortFilesValid(files0, done, structure);
    var p := IndexOf(files0, f);
    IndexOfSameKeys(cur, files0, f);
    var x := files0[p].1;
    var t := cur[p].1;
    assert Lookup(cur, f) == Some(t);
    ResortFilesAdd(files0, done, f, structure);
    ResortedIdempotent(x, structure);
    SortTranslationsIdempotent(x, structure);
    assert cur[p] == (f, t);
    if |t| == 0 {
      assert Resorted(x, structure) == t;
      assert cur[p := (f, t)] == cur;
    } else {
      assert Resorted(x, structure) == SortTranslations(t, structure);
    }
  }

  lemma SortStep(dirs0: Lang, locale: string, files0: Files, done: set<string>, group: string, structure: string)
    requires ValidLang(dirs0) && Lookup(dirs0, locale) == Some(files0) && HasKey(files0, GroupFile(group))
    ensures var d := Put(dirs0, locale, ResortFiles(files0, done, structure));
      var t := Read(d, locale, group);
      && WellFormed(Node(t))
      && (|t| == 0 ==> Put(dirs0, locale, ResortFiles(files0, done + {GroupFile(group)}, structure)) == d)
      && (|t| > 0 ==> StoreFile(d, locale, GroupFile(group), SortTranslations(t, structure)) ==
                      Put(dirs0, locale, ResortFiles(files0, done + {GroupFile(group)}, structure)))
  {
    var f := GroupFile(group);
    var cur := ResortFiles(files0, done, structure);
    var next := ResortFiles(files0, done + {f}, structure);
    var d := Put(dirs0, locale, cur);
    LookupValid(dirs0, locale);
    PutProperties(dirs0, locale, cur);
    ResortFilesStep(files0, done, f, structure);
    var t := Lookup(cur, f).value;
    assert Read(d, locale, group) == t;
    if |t| > 0 {
      PutTwice(dirs0, locale, cur, next);
    }
  }


  // --------------------------------------------------------------- handle

  /** The task run for one group: read the group file and write it back unless it is empty. */
  method RewriteGroup(store: LangDirectory, locale: string, group: string,
                      ghost dirs0: Lang, ghost files0: Files, ghost done: set<string>)
    requires store.Valid() && ValidLang(dirs0)
    requires Lookup(dirs0, locale) == Some(files0) && HasKey(files0, GroupFile(group))
    requires store.dirs == Put(dirs0, locale, ResortFiles(files0, done, store.structure))
    modifies store
    ensures store.Valid()
    ensures store.dirs == Put(dirs0, locale, ResortFiles(files0, done + {GroupFile(group)}, store.structure))
  {
    var translations := Read(store.dirs, locale, group);
    SortStep(dirs0, locale, files0, done, group, store.structure);
    if |translations| > 0 {
      store.WriteTranslationFile(locale, group, translations);
    }
  }

  /**
   * The body of `handle`'s locale loop: list the groups, then read each
   * group file and write it back unless it is empty.
   */
  method SortLocaleFiles(store: LangDirectory, locale: string) returns (found: bool)
    requires store.Valid()
    modifies store
    ensures store.Valid()
    ensures found == HasGroups(old(store.dirs), locale)
    ensures store.dirs == SortLocale(old(store.dirs), locale, store.structure)
  {
    ghost var dirs0 := store.dirs;
    var groups := TranslationGroups(store.dirs, locale);
    GroupsIffHasGroups(store.dirs, locale);
    if |groups| == 0 {
      NoGroupsNoChange(store.dirs, locale, store.structure);
      return false;
    }
    ghost var files0 := Lookup(dirs0, locale).value;
    ghost var done: set<string> := {};
    assert ResortFiles(files0, done, store.structure) == files0;
    PutSame(dirs0, locale);
    var i := 0;
    while i < |groups|
      invariant 0 <= i <= |groups|
      invariant store.Valid()
      invariant done == GroupFileSet(groups[..i])
      invariant store.dirs == Put(dirs0, locale, ResortFiles(files0, done, store.structure))
    {
      var group := groups[i];
      ListedGroupHasFile(dirs0, locale, group);
      RewriteGroup(store, locale, group, dirs0, files0, done);
      done := done + {GroupFile(group)};
      GroupFileSetStep(groups, i);
      i := i + 1;
    }
    assert groups[..i] == groups;
    ListedGroupFiles(dirs0, locale, files0, groups);
    return true;
  }

  /**
   * `po:sort`'s `handle`: no selected locale is a failure that touches
   * nothing; otherwise every selected locale is sorted, the ones without
   * group files are reported, and the command succeeds.
   */
  method Handle(store: LangDirectory, configured: Assoc<LanguageConfig>, args: seq<string>)
    returns (status: ExitCode, warned: seq<string>)
    requires store.Valid()
    modifies store
    ensures store.Valid()
    ensures var locales := SortLocales(configured, Directories(old(store.dirs)), args);
      && status == (if |locales| == 0 then Failure else Success)
      && store.dirs == SortAll(old(store.dirs), locales, store.structure)
      && warned == WithoutGroups(old(store.dirs), locales)
  {
    var locales := SortLocales(configured, Directories(store.dirs), args);
    if |locales| == 0 {
      return Failure, [];
    }
    ghost var dirs0 := store.dirs;
    warned := [];
    var k := 0;
    while k < |locales|
      invariant 0 <= k <= |locales|
      invariant store.Valid()
      invariant store.dirs == SortAll(dirs0, locales[..k], store.structure)
      invariant warned == WithoutGroups(dirs0, locales[..k])
    {
      var locale := locales[k];
      SortAllKeepsGroups(dirs0, locales[..k], store.structure, locale);
      var found := SortLocaleFiles(store, locale);
      if !found {
        warned := warned + [locale];
      }
      SortAllStep(dirs0, locales, k, store.structure);
      k := k + 1;
    }
    assert locales[..k] == locales;
    return Success, warned;
  }
}
