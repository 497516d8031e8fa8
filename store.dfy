/**
 * The lang directory as the ManagesTranslations concern sees it: one
 * directory per locale, each holding one PHP file per translation group
 * that returns an array. Reading an absent file gives an empty array;
 * writing an empty array deletes the file; any other write makes the
 * locale directory when needed and stores the array sorted.
 */
module Store {
  import opened Optional
  import opened Strings
  import opened Arrays
  import opened Trees

  /** The files of one locale directory: file name to the array the file returns. */
  type Files = Assoc<Assoc<Tree>>

  /** The lang directory: locale directory name to its files. */
  type Lang = Assoc<Files>

  predicate ValidFiles(files: Files)
  {
    UniqueKeys(files) && forall i :: 0 <= i < |files| ==> WellFormed(Node(files[i].1))
  }

  /** Directory and file names are unique, and every file returns a PHP array. */
  predicate ValidLang(dirs: Lang)
  {
    UniqueKeys(dirs) && forall i :: 0 <= i < |dirs| ==> ValidFiles(dirs[i].1)
  }

  /** `<group>.php`. */
  function GroupFile(group: string): string
  {
    group + ".php"
  }

  /** The array returned by `<locale>/<file>`, or None when that file does not exist. */
  function FileIn(dirs: Lang, locale: string, file: string): Option<Assoc<Tree>>
  {
    match Lookup(dirs, locale)
    case None => None
    case Some(files) => Lookup(files, file)
  }

  /** `readTranslationFile`: the array the group file returns, or `[]` when there is no such file. */
  function Read(dirs: Lang, locale: string, group: string): Assoc<Tree>
  {
    match FileIn(dirs, locale, GroupFile(group))
    case None => []
    case Some(contents) => contents
  }

  /** `File::delete` of the file when it exists; nothing happens otherwise. */
  function DeleteFile(dirs: Lang, locale: string, file: string): Lang
  {
    match Lookup(dirs, locale)
    case None => dirs
    case Some(files) => if HasKey(files, file) then Put(dirs, locale, Remove(files, file)) else dirs
  }

  /** Make the locale directory when it is missing, then (over)write the file. */
  function StoreFile(dirs: Lang, locale: string, file: string, contents: Assoc<Tree>): Lang
  {
    var files := match Lookup(dirs, locale) case None => [] case Some(fs) => fs;
    Put(dirs, locale, Put(files, file, contents))
  }

  lemma LookupValid(dirs: Lang, locale: string)
    requires ValidLang(dirs) && Lookup(dirs, locale).Some?
    ensures ValidFiles(Lookup(dirs, locale).value)
  {
  }

  lemma PutValid(dirs: Lang, locale: string, files: Files)
    requires ValidLang(dirs) && ValidFiles(files)
    ensures ValidLang(Put(dirs, locale, files))
  {
    PutProperties(dirs, locale, files);
  }

  /** A read with no file behind it gives the empty array. */
  lemma ReadAbsent(dirs: Lang, locale: string, group: string)
    requires FileIn(dirs, locale, GroupFile(group)).None?
    ensures Read(dirs, locale, group) == []
  {
  }

  /**
   * Storing a file changes that one file only, makes its directory when
   * needed and removes no directory.
   */
  lemma {:induction false} StoreFileEffect(dirs: Lang, locale: string, file: string, contents: Assoc<Tree>)
    requires ValidLang(dirs) && WellFormed(Node(contents))
    ensures ValidLang(StoreFile(dirs, locale, file, contents))
    ensures forall l, f :: FileIn(StoreFile(dirs, locale, file, contents), l, f) ==
              if l == locale && f == file then Some(contents) else FileIn(dirs, l, f)
    ensures forall l :: HasKey(StoreFile(dirs, locale, file, contents), l) <==> HasKey(dirs, l) || l == locale
  {
    var files := match Lookup(dirs, locale) case None => [] case Some(fs) => fs;
    assert ValidFiles(files) by {
      if Lookup(dirs, locale).Some? {
        LookupValid(dirs, locale);
      }
    }
    PutProperties(files, file, contents);
    var files' := Put(files, file, contents);
    assert ValidFiles(files') by {
      forall i | 0 <= i < |files'| ensures WellFormed(Node(files'[i].1)) {
        if i < |files| && files'[i] == files[i] {
          assert WellFormed(Node(files[i].1));
        }
      }
    }
    PutValid(dirs, locale, files');
    PutProperties(dirs, locale, files');
  }

  /** Deleting a file removes that one file only and creates or removes no directory. */
  lemma {:induction false} DeleteFileEffect(dirs: Lang, locale: string, file: string)
    requires ValidLang(dirs)
    ensures ValidLang(DeleteFile(dirs, locale, file))
    ensures forall l, f :: FileIn(DeleteFile(dirs, locale, file), l, f) ==
              if l == locale && f == file then None else FileIn(dirs, l, f)
    ensures Keys(DeleteFile(dirs, locale, file)) == Keys(dirs)
  {
    match Lookup(dirs, locale)
    case None =>
    case Some(files) =>
      LookupValid(dirs, locale);
      if HasKey(files, file) {
        var files' := Remove(files, file);
        RemoveUnique(files, file);
        assert ValidFiles(files') by {
          forall i | 0 <= i < |files'| ensures WellFormed(Node(files'[i].1)) {
            assert files'[i] in files;
          }
        }
        PutValid(dirs, locale, files');
        PutProperties(dirs, locale, files');
        var r := DeleteFile(dirs, locale, file);
        assert Keys(r) == Keys(dirs);
      }
  }

  // ------------------------------------------------------------- groups

  /**
   * A directory Finder lists with its default ignore rules: not a dot
   * directory, and not one of the version-control names that do not start
   * with a dot (those that do are dot directories already).
   */
  predicate ListedDirectory(name: string)
  {
    (|name| == 0 || name[0] != '.') && name !in {"CVS", "_svn", "_darcs"}
  }

  /** The names of a listing that Finder keeps, in listing order. */
  function ListedNames(names: seq<string>): (r: seq<string>)
    ensures forall d :: d in r <==> d in names && ListedDirectory(d)
    ensures (forall i, j :: 0 <= i < j < |names| ==> Less(names[i], names[j])) ==>
              forall i, j :: 0 <= i < j < |r| ==> Less(r[i], r[j])
  {
    if |names| == 0 then []
    else
      var rest := ListedNames(names[1..]);
      if ListedDirectory(names[0]) then
        assert (forall i, j :: 0 <= i < j < |names| ==> Less(names[i], names[j])) ==>
                 forall d :: d in rest ==> Less(names[0], d) by {
          if forall i, j :: 0 <= i < j < |names| ==> Less(names[i], names[j]) {
            forall d | d in rest ensures Less(names[0], d) {
              var k :| 0 <= k < |names[1..]| && names[1..][k] == d;
              assert names[k + 1] == d;
            }
          }
        }
        [names[0]] + rest
      else rest
  }

  /**
   * `File::directories` of the lang path by base name: the locale
   * directories Finder lists, sorted by name.
   */
  function Directories(dirs: Lang): (r: seq<string>)
    ensures forall d :: d in r <==> HasKey(dirs, d) && ListedDirectory(d)
    ensures UniqueKeys(dirs) ==> forall i, j :: 0 <= i < j < |r| ==> Less(r[i], r[j])
  {
    KeysOfPermutation(dirs, KSort(dirs));
    if UniqueKeys(dirs) then
      KSortProperties(dirs);
      ListedNames(Keys(KSort(dirs)))
    else ListedNames(Keys(KSort(dirs)))
  }

  /** A dot directory beside a locale is not a locale. */
  lemma DotDirectoryExample()
    ensures Directories([(".archive", []), ("en", [])]) == ["en"]
  {
    var dirs: Lang := [(".archive", []), ("en", [])];
    var sorted := KSort(dirs);
    assert Less(".archive", "en");
    assert sorted == dirs;
    assert ListedNames(Keys(sorted)) == ["en"] by {
      assert Keys(sorted) == [".archive", "en"];
      assert ListedNames(["en"]) == ["en"];
      assert [".archive", "en"][1..] == ["en"];
    }
  }

  /** A file the group listing keeps: Finder skips dot files, and the extension must be `php`. */
  predicate IsGroupFile(name: string)
  {
    EndsWith(name, ".php") && name[0] != '.'
  }

  /** The files of a listing that hold groups, by their base name without `.php`, in listing order. */
  function GroupsOf(listing: seq<string>): (r: seq<string>)
    ensures forall g :: g in r <==> GroupFile(g) in listing && IsGroupFile(GroupFile(g))
  {
    if |listing| == 0 then []
    else
      var f := listing[0];
      var rest := GroupsOf(listing[1..]);
      assert forall g :: GroupFile(g) in listing <==> GroupFile(g) == f || GroupFile(g) in listing[1..];
      if IsGroupFile(f) then
        var g := f[..|f| - 4];
        assert GroupFile(g) == f;
        assert forall h :: GroupFile(h) == f ==> h == g by {
          forall h | GroupFile(h) == f ensures h == g {
            assert h == GroupFile(h)[..|h|];
          }
        }
        [g] + rest
      else
        rest
  }

  /** The file names of a list of groups. */
  function GroupFileSet(groups: seq<string>): set<string>
  {
    if |groups| == 0 then {}
    else GroupFileSet(groups[..|groups| - 1]) + {GroupFile(groups[|groups| - 1])}
  }

  lemma GroupFileSetStep(groups: seq<string>, i: nat)
    requires i < |groups|
    ensures GroupFileSet(groups[..i + 1]) == GroupFileSet(groups[..i]) + {GroupFile(groups[i])}
  {
    assert groups[..i + 1][..i] == groups[..i];
  }

  lemma {:induction false} GroupFileSetMember(groups: seq<string>, x: string)
    ensures x in GroupFileSet(groups) <==> exists g :: g in groups && GroupFile(g) == x
  {
    if |groups| > 0 {
      var init := groups[..|groups| - 1];
      GroupFileSetMember(init, x);
      assert forall g :: g in groups <==> g in init || g == groups[|groups| - 1];
    }
  }

  /**
   * `getTranslationGroups`: empty when the locale directory is absent,
   * otherwise the group files of its name-sorted listing.
   */
  function TranslationGroups(dirs: Lang, locale: string): (r: seq<string>)
    ensures Lookup(dirs, locale).None? ==> r == []
  {
    match Lookup(dirs, locale)
    case None => []
    case Some(files) => GroupsOf(Keys(KSort(files)))
  }

  /** The groups of a locale are exactly the names `g` for which `<locale>/<g>.php` exists and is listed. */
  lemma TranslationGroupsExact(dirs: Lang, locale: string)
    requires ValidLang(dirs)
    ensures forall g :: g in TranslationGroups(dirs, locale) <==>
      FileIn(dirs, locale, GroupFile(g)).Some? && IsGroupFile(GroupFile(g))
  {
    match Lookup(dirs, locale)
    case None =>
    case Some(files) =>
      LookupValid(dirs, locale);
      KSortProperties(files);
      forall g ensures GroupFile(g) in Keys(KSort(files)) <==> HasKey(files, GroupFile(g)) {
        KeysHasKey(KSort(files), GroupFile(g));
        assert Lookup(KSort(files), GroupFile(g)) == Lookup(files, GroupFile(g));
      }
  }

  /**
   * The lang directory shared by the commands; `structure` is
   * `config('po.structure')`.
   */
  class LangDirectory {
    const structure: string
    var dirs: Lang

    predicate Valid()
      reads this
    {
      ValidLang(dirs)
    }

    constructor (structure: string, dirs: Lang)
      requires ValidLang(dirs)
      ensures this.structure == structure && this.dirs == dirs
      ensures Valid()
    {
      this.structure := structure;
      this.dirs := dirs;
    }

    /** `File::delete` of `<locale>/<file>` when that file exists. */
    method Delete(locale: string, file: string)
      requires Valid()
      modifies this
      ensures Valid()
      ensures dirs == DeleteFile(old(dirs), locale, file)
    {
      DeleteFileEffect(dirs, locale, file);
      if FileIn(dirs, locale, file).Some? {
        var files := Lookup(dirs, locale).value;
        dirs := Put(dirs, locale, Remove(files, file));
      }
    }

    /** `File::makeDirectory` of the locale directory when it is missing, then `file_put_contents`. */
    method PutContents(locale: string, file: string, contents: Assoc<Tree>)
      requires Valid() && WellFormed(Node(contents))
      modifies this
      ensures Valid()
      ensures dirs == StoreFile(old(dirs), locale, file, contents)
    {
      var files: Files := [];
      match Lookup(dirs, locale) {
        case Some(fs) => files := fs;
        case None =>
      }
      StoreFileEffect(dirs, locale, file, contents);
      dirs := Put(dirs, locale, Put(files, file, contents));
    }

    /**
     * `writeTranslationFile`: an empty array deletes the group file (when it
     * exists); any other array is sorted by `sortTranslations` and written,
     * making the locale directory first when it is missing.
     */
    method WriteTranslationFile(locale: string, group: string, translations: Assoc<Tree>)
      requires Valid() && WellFormed(Node(translations))
      modifies this
      ensures Valid()
      ensures dirs == if |translations| == 0 then DeleteFile(old(dirs), locale, GroupFile(group))
        else StoreFile(old(dirs), locale, GroupFile(group), SortTranslations(translations, structure))
    {
      var file := GroupFile(group);
      if |translations| == 0 {
        Delete(locale, file);
        return;
      }
      var sorted: Assoc<Tree>;
      if IsNested(structure) {
        sorted := SortNestedArray(translations);
      } else {
        sorted := KSort(translations);
      }
      SortTranslationsWellFormed(translations, structure);
      PutContents(locale, file, sorted);
    }
  }
}
