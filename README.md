# laravel-po translation transfer, modelled in Dafny

laravel-po moves Laravel translations between the lang directory and
gettext PO catalogues. The lang directory has one directory per locale
and one PHP file per translation group, and each file returns an array.
The package has four artisan commands:

- `po:export` flattens the app locale's group files into one catalogue of
  terms. It then writes a copy localised for every selected locale.
- `po:import` reads PO documents, filters and groups their entries, and
  merges them into (or replaces) the group files.
- `po:sort` rewrites every group file key-sorted.
- `po:download` fetches PO files from POEditor into the import directory.

This project models these pieces:

- the `ManagesTranslations` concern shared by the commands: reading,
  writing, sorting and listing group files, and unflattening dotted keys;
- the command pipelines and their locale-selection rules;
- the placeholder conversions between `:word` and `{word}`.

It proves what the code promises about each of them.

Modules, one file each:

- `strings.dfy` (`Optional`, `Strings`): PHP string helpers. These are
  `Str::before`/`after`, `explode`/`implode`, truthiness, ASCII `\w`,
  `Str::is` globbing, the "first matching pattern" lookup, and the byte
  order `ksort` uses on string keys.
- `arrays.dfy` (`Arrays`): PHP arrays with string keys as ordered
  association lists. It covers assignment (`$a[$k] = $v` keeps the
  position of an existing key), `keyBy`/`mapWithKeys` (last write wins),
  `array_merge`, `ksort`, `map`, `filter` and `only`.
- `trees.dfy` (`Trees`): the contents of a group file. It covers
  `sortNestedArray`, `sortTranslations`, `toNestedArray` and `Arr::dot`.
- `store.dfy` (`Store`): the lang directory as the class `LangDirectory`,
  plus reading, writing and deleting group files and `getTranslationGroups`.
- `locales.dfy` (`Locales`): the locale pool and each command's own
  `getLocales` rule.
- `placeholders.dfy` (`Placeholders`): `formatPlaceholdersAsPerlBrace` and
  `formatPlaceholdersFromPerlBrace`. Both follow the code's reduce over
  `str_replace`.
- `import.dfy`, `export.dfy`, `sort_command.dfy`, `download.dfy`: the four
  commands.

Each command's `handle` loop is a method over the `LangDirectory`, or over
the export or import directory. The method is proved equal to a fold of
per-locale and per-group state functions. Lemmas then state what those
functions do to every file: which files change, to what, and that nothing
else changes.

The lang directory is an ordered list of directories, each an ordered
list of files, and not a map. The order in which keys are written is
observable in PHP arrays: the result of `array_merge` depends on it.

Where the test suite and the code disagree, the model follows the code:

- The nested-import tests expect `po:import` to write nested arrays and
  to deep-merge them.
- `ImportCommand` never reads `po.structure` and never calls
  `toNestedArray`. Its merge is a shallow `collect($existing)->merge(...)`
  followed by a top-level `sortKeys`.
- So `Import.ReconciledLookup` states the shallow merge.

Placeholder conversion when exporting runs one `str_replace` per matched
name, in match order. So a placeholder whose name is a prefix of a later
one also rewrites the start of the later one: `:a:ab` becomes `{a}{a}b`.
The model keeps this behaviour. `Placeholders.ToPerlBracePrefixCollision`
exhibits it, and the round trip `Placeholders.PerlBraceRoundTrip` is
proved for text whose placeholder names are prefix-free and that contains
no `{`.

## Model

| member | source | states |
|---|---|---|
| Strings.Before | src/Commands/ImportCommand.php:36 | the group of a context is its longest prefix without '.', and it is the whole context when there is no '.' |
| Strings.After | src/Commands/ImportCommand.php:50 | the stored key is what follows the first '.', or the whole context when there is none |
| Strings.FirstMatch | src/Commands/ImportCommand.php:126-128 | None exactly when no pattern's `pattern*` glob matches; otherwise the first listed pattern that matches, every earlier pattern failing to match |
| Strings.StrIsPrefix | src/Commands/ImportCommand.php:127 | for a pattern without `*`, `Str::is(pattern.'*', value)` holds iff the pattern is a prefix of the value |
| Strings.JoinSplit | src/Commands/Concerns/ManagesTranslations.php:84 | imploding the exploded key with '.' gives the key back |
| Strings.SplitJoin | src/Commands/Concerns/ManagesTranslations.php:84 | exploding the '.'-join of dot-free segments gives the segments back |
| Arrays.PutProperties | src/Commands/Concerns/ManagesTranslations.php:89 | assigning a key keeps keys unique, stores the value under that key and changes no other key |
| Arrays.FromPairsLookup | src/Commands/ImportCommand.php:50 | `keyBy` yields unique keys, and each key holds the value of the last pair written with it |
| Arrays.MergeLookup | src/Commands/ImportCommand.php:59 | `merge` keeps keys unique; a key of the new array takes the new value, any other key keeps the existing one |
| Arrays.KSortProperties | src/Commands/Concerns/ManagesTranslations.php:73 | `sortKeys` of an array gives strictly ascending keys with every lookup unchanged |
| Arrays.KSortIdempotent | src/Commands/Concerns/ManagesTranslations.php:73 | sorting a sorted array changes nothing |
| Arrays.FilterValuesLookup | src/Commands/ImportCommand.php:52 | `filter` keeps a key exactly when its value passes, with the same value |
| Arrays.OnlyLookup | src/Commands/ImportCommand.php:159-160 | `only` keeps a key exactly when it is listed, with the same value |
| Arrays.RemoveUnique | src/Commands/Concerns/ManagesTranslations.php:38 | deleting a file keeps the other names unique |
| Trees.SortTreeProperties | src/Commands/Concerns/ManagesTranslations.php:105-116 | the recursive sort has strictly ascending keys at every level, and every key path reaches the same value (itself sorted) as before |
| Trees.SortTreeIdempotent | src/Commands/Concerns/ManagesTranslations.php:105-116 | sorting an already sorted array returns it unchanged |
| Trees.SortTreeOfOrdered | src/Commands/Concerns/ManagesTranslations.php:105-116 | an array already ordered at every level is left exactly as it is |
| Trees.SortNestedArray | src/Commands/Concerns/ManagesTranslations.php:105-116 | the in-place `ksort` followed by the loop over children computes the recursive sort |
| Trees.SortTranslationsNested | src/Commands/Concerns/ManagesTranslations.php:68-69 | under the `nested` structure the result is sorted at every level with every path's value kept |
| Trees.SortTranslationsFlat | src/Commands/Concerns/ManagesTranslations.php:73 | under any other structure only the top level is sorted, and every top-level value is kept exactly as given |
| Trees.SortTranslationsIdempotent | src/Commands/Concerns/ManagesTranslations.php:66-74 | sorting translations twice is the same as sorting once |
| Trees.SortTranslationsLength | src/Commands/Concerns/ManagesTranslations.php:66-74 | sorting keeps the number of top-level entries, so a non-empty array stays non-empty |
| Trees.InsertPathFound | src/Commands/Concerns/ManagesTranslations.php:87-95 | after the cursor walk the value sits at the key's segment path |
| Trees.InsertPathElsewhere | src/Commands/Concerns/ManagesTranslations.php:87-95 | the walk leaves every path that is neither a prefix nor an extension of the key's path untouched |
| Trees.NestLastWins | src/Commands/Concerns/ManagesTranslations.php:83-97 | the last dotted key's value is at its path, overwriting a leaf or a branch that was there |
| Trees.NestFound | src/Commands/Concerns/ManagesTranslations.php:83-97 | when no key's segments are a prefix of another's, every value sits at its key's path |
| Trees.ToNestedArray | src/Commands/Concerns/ManagesTranslations.php:79-100 | the loop with its by-reference cursor yields the sorted unflattened array: sorted at every level, last key wins, every value at its path when keys are prefix-free |
| Trees.DotPairsSound | src/Commands/ExportCommand.php:76 | every pair `Arr::dot` produces is a scalar or empty-array leaf reached by a non-empty path, keyed by the dot-joined path |
| Trees.DotPairsComplete | src/Commands/ExportCommand.php:76 | every scalar or empty-array leaf at a non-empty path is produced under its dot-joined path |
| Trees.DotPairsOfArrays | src/Commands/ExportCommand.php:74-76 | a string leaf of the array of groups lies in one group at a non-empty path, keyed `group.path` |
| Store.ReadAbsent | src/Commands/Concerns/ManagesTranslations.php:19-21 | reading a group with no file gives the empty array |
| Store.StoreFileEffect | src/Commands/Concerns/ManagesTranslations.php:44-60 | writing changes only that file, to exactly the contents given; it creates the locale directory when missing and removes no directory |
| Store.DeleteFileEffect | src/Commands/Concerns/ManagesTranslations.php:36-42 | deleting removes only that file (nothing happens when it is absent) and creates or removes no directory |
| Store.Directories | src/Commands/SortCommand.php:65-68 | the auto-detected locales are exactly the locale directories that are not dot directories or Finder's version-control names (`CVS`, `_svn`, `_darcs`), in ascending name order; the same listing is used at ExportCommand.php:131, ImportCommand.php:146 and PoeditorDownloadCommand.php:138 |
| Store.DotDirectoryExample | src/Commands/SortCommand.php:65-68 | with `lang/.archive` beside `lang/en` and no configured languages, only `en` is detected |
| Store.GroupsOf | src/Commands/Concerns/ManagesTranslations.php:130-132 | a name is listed iff `<name>.php` is in the listing and is a non-dot `.php` file |
| Store.TranslationGroups | src/Commands/Concerns/ManagesTranslations.php:126-128 | no groups when the locale directory is absent |
| Store.TranslationGroupsExact | src/Commands/Concerns/ManagesTranslations.php:121-133 | a group is listed iff `<locale>/<group>.php` exists and is a listed group file |
| Store.LangDirectory.Delete | src/Commands/Concerns/ManagesTranslations.php:37-39 | the directory afterwards is the old one with that file deleted |
| Store.LangDirectory.PutContents | src/Commands/Concerns/ManagesTranslations.php:45-60 | the directory afterwards is the old one with the locale directory made when missing and the file written |
| Store.LangDirectory.WriteTranslationFile | src/Commands/Concerns/ManagesTranslations.php:29-61 | an empty array deletes the group file; any other array is stored as `sortTranslations` of it |
| Locales.EnabledKeys | src/Commands/SortCommand.php:70-72 | a locale is listed iff some configured entry has that key and is enabled |
| Locales.Pool | src/Commands/SortCommand.php:65-73 | the directory names when nothing is configured, otherwise exactly the enabled configured keys |
| Locales.ExportLocales | src/Commands/ExportCommand.php:124-151 | `--all` gives every known enabled locale whatever the arguments; otherwise a locale is chosen iff it is known, in the pool and named by the arguments (or is the app locale when there are none) |
| Locales.ImportLocalesLookup | src/Commands/ImportCommand.php:138-161 | the imported locales have unique keys; a locale is imported iff it is pooled and named by the arguments when there are any, with the last document whose language header names it |
| Locales.SortLocales | src/Commands/SortCommand.php:59-81 | the arguments exactly as given, not intersected with the pool; otherwise the pool |
| Locales.DownloadLocales | src/Commands/PoeditorDownloadCommand.php:131-160 | a locale is chosen iff it is pooled and named by the arguments, or, without arguments, when `--all` is given; nothing is chosen with neither |
| Placeholders.ToPerlBraceConvertsEach | src/Commands/ExportCommand.php:117-122 | with prefix-free names every `:name` becomes `{name}` and every other character is kept |
| Placeholders.ColonToken | src/Commands/ExportCommand.php:117-122 | a `:name` token ended by a non-word character contributes its name to the captured names, and the pass converts it iff its name is selected |
| Placeholders.ToPerlBraceWithoutPlaceholders | src/Commands/ExportCommand.php:117-122 | text with no `:` followed by a word character is unchanged |
| Placeholders.ToPerlBracePrefixCollision | src/Commands/ExportCommand.php:120-121 | on `:a:ab` the reduce gives `{a}{a}b`, where a one-pass conversion would give `{a}{ab}` |
| Placeholders.FromPerlBraceConvertsEach | src/Commands/ImportCommand.php:131-136 | every `{name}` becomes `:name`, and all other text (other brace text included) is kept |
| Placeholders.PerlBraceRoundTrip | src/Commands/ImportCommand.php:131-136 | importing an exported text gives it back when it has no `{` and its placeholder names are prefix-free |
| Import.Accepted | src/Commands/ImportCommand.php:34-35 | an entry is kept iff it is not rejected as fuzzy and matches the `--only` patterns |
| Import.GroupNames | src/Commands/ImportCommand.php:36 | a group is listed iff some accepted entry's context starts with it before the first '.', and each group is listed once |
| Import.InGroup | src/Commands/ImportCommand.php:36 | a group's entries are exactly the accepted entries whose context belongs to it |
| Import.GroupTranslationsLookup | src/Commands/ImportCommand.php:49-53 | the group's translations have unique keys; each key holds the placeholder-converted translation of its last entry, or is absent when that translation is falsy |
| Import.GroupFreshLookup | src/Commands/ImportCommand.php:52-53 | every value written is the conversion of a truthy translation, so falsy translations never reach the file |
| Import.ReconciledLookup | src/Commands/ImportCommand.php:55-61 | a new key takes its new value; without `--replace` a key only the existing file has keeps its value; with `--replace` only new keys remain |
| Import.ImportedFileProperties | src/Commands/ImportCommand.php:63-69 | the file is deleted iff nothing is left to write; otherwise it is key-sorted with the reconciled lookups |
| Import.ImportGroupEffect | src/Commands/ImportCommand.php:55-83 | importing a group changes that group's file only |
| Import.ImportGroupsEffect | src/Commands/ImportCommand.php:36-98 | each imported group's file holds the reconciled result; files of groups without accepted entries and all other files are untouched |
| Import.ImportLocaleEffect | src/Commands/ImportCommand.php:32-98 | one locale's import rewrites exactly the files of its accepted entries' groups, each reconciled with that group's translations |
| Import.ImportLocaleOthers | src/Commands/ImportCommand.php:37-39 | a locale's import touches no other locale |
| Import.ImportLocaleLocal | src/Commands/ImportCommand.php:57-59 | a locale's import depends only on that locale's existing files |
| Import.ImportAllEffect | src/Commands/ImportCommand.php:28-106 | each selected locale ends as its own import made it, and unselected locales are untouched |
| Import.FuzzyEntries | src/Commands/ImportCommand.php:111-118 | without `--fuzzy` no accepted entry is fuzzy and the import equals that of the non-fuzzy entries; with `--fuzzy` every entry that matches the patterns is kept |
| Import.AcceptedNonFuzzy | src/Commands/ImportCommand.php:34 | without `--fuzzy`, dropping fuzzy entries first does not change what is accepted |
| Import.MatchesPatternIff | src/Commands/ImportCommand.php:120-129 | with no patterns every entry passes; with truthy patterns an entry passes iff some `pattern*` glob matches its context, which for patterns without `*` is a prefix test |
| Import.ContextWithoutDot | src/Commands/ImportCommand.php:36 | a context without '.' is both its own group and its own key |
| Import.ImportGroupFile | src/Commands/ImportCommand.php:49-83 | the per-group task leaves the lang directory as the import of that group specifies |
| Import.ImportLocaleEntries | src/Commands/ImportCommand.php:32-98 | the group loop leaves the lang directory as the locale's import specifies |
| Import.ImportGroupList | src/Commands/ImportCommand.php:36-93 | after the loop over the group names the lang directory is the import of each group file in turn, in the order the groups were listed |
| Import.Handle | src/Commands/ImportCommand.php:26-109 | the locale loop imports the selected documents up to the first locale `Language::getById` does not know, and the command returns SUCCESS exactly when every selected locale is known (otherwise the uncaught error ends it with status 1, modelled as FAILURE) |
| Import.ImportSelected | src/Commands/ImportCommand.php:28-106 | the loop over the selected documents imports each known locale in turn, stops at the first unknown one, keeps the lang directory well formed, and reports whether it reached the end |
| Import.KnownRun | src/Commands/ImportCommand.php:28-30 | the length of the run of selected locales known to `Language::getById`: all before it are known, and the one at it (if any) is not |
| Import.KnownRunComplete | src/Commands/ImportCommand.php:28-30 | the loop reaches the end exactly when every selected locale is known |
| Export.ShouldIncludeIff | src/Commands/ExportCommand.php:109-115 | with truthy patterns a key is excluded iff some `pattern*` glob matches it, which for patterns without `*` is a prefix test |
| Export.ExcludedGroupExample | src/Commands/ExportCommand.php:109-115 | excluding `auth` drops `auth.failed` and keeps `actions.save` |
| Export.TermsExact | src/Commands/ExportCommand.php:76-81 | an entry is a term iff it is the converted, untranslated form of a truthy, included string value under its context; no two terms share a context |
| Export.TermsOfSound | src/Commands/ExportCommand.php:70-84 | every term comes from a truthy string at `group.path` in one of the locale's group files, is not excluded, is not translated, and has the converted string as its original |
| Export.GroupArraysProperties | src/Commands/ExportCommand.php:74-75 | the array of groups has exactly the locale's translation groups as keys, and holds under each of them that group file's contents |
| Export.Catalogue.Add | src/Commands/ExportCommand.php:81 | adding appends the translation |
| Export.Catalogue.Translate | src/Commands/ExportCommand.php:95-103 | translating sets that entry's translation and changes nothing else |
| Export.Catalogue.CloneAs | src/Commands/ExportCommand.php:88 | the clone is a fresh catalogue with the same entries and the new language |
| Export.GetTranslationTerms | src/Commands/ExportCommand.php:70-84 | the loop builds a fresh catalogue in the given language whose entries are the locale's terms |
| Export.LocalisedAllEntries | src/Commands/ExportCommand.php:90-104 | the copy keeps every context and original in order; an entry gets the converted lookup text iff the translator has its key, and otherwise keeps its translation |
| Export.LocalisedTerms | src/Commands/ExportCommand.php:86-107 | in a localised copy of the terms an entry is translated iff the translator has its key for that locale |
| Export.SetTranslationsForLocale | src/Commands/ExportCommand.php:86-107 | the result is a fresh copy in the new language with every entry localised; the base catalogue is not modified |
| Export.ExportFilesEffect | src/Commands/ExportCommand.php:56-63 | every selected locale's `<locale>.po` holds the terms localised for it, and no other file changes |
| Export.Handle | src/Commands/ExportCommand.php:34-68 | an app locale unknown to `Language::getById` ends the command with status 1 (FAILURE) and nothing written; otherwise the app locale's terms are built once, one localised copy is written per selected locale, and the command returns SUCCESS |
| Export.GenerateAll | src/Commands/ExportCommand.php:56-63 | one `<locale>.po` per selected locale is written, holding the terms localised to that locale, in selection order |
| SortCommand.ResortedIdempotent | src/Commands/SortCommand.php:43-49 | rewriting a group twice is the same as once, and it keeps the number of entries |
| SortCommand.SortLocaleEffect | src/Commands/SortCommand.php:34-51 | sorting a locale re-sorts each of its group files (empty ones stay as they are) and changes no other file or directory |
| SortCommand.SortAllEffect | src/Commands/SortCommand.php:29-54 | after the locale loop exactly the group files of selected locales are re-sorted; other locales keep their files and order |
| SortCommand.SortAllKeepsGroups | src/Commands/SortCommand.php:41-51 | sorting neither creates nor removes a locale's group files |
| SortCommand.GroupsIffHasGroups | src/Commands/SortCommand.php:34-36 | a locale lists groups iff it has a group file |
| SortCommand.NoGroupsNoChange | src/Commands/SortCommand.php:36-39 | a locale without group files is left exactly as it was |
| SortCommand.SortStep | src/Commands/SortCommand.php:43-49 | an empty group is neither rewritten nor deleted; any other group is written back sorted |
| SortCommand.RewriteGroup | src/Commands/SortCommand.php:42-50 | the per-group task re-sorts that one group file |
| SortCommand.SortLocaleFiles | src/Commands/SortCommand.php:34-51 | the group loop re-sorts the locale, and reports whether the locale had groups |
| SortCommand.Handle | src/Commands/SortCommand.php:19-57 | FAILURE with nothing touched when no locale is selected; otherwise SUCCESS after sorting every selected locale, with a warning for each locale without groups |
| Download.Classify | src/Commands/PoeditorDownloadCommand.php:84-118 | a locale is saved iff the request succeeded, the status is exactly "success", a URL is returned and the fetch succeeded; the saved body is the fetched body; the outcome is a connection error iff the request, or the fetch it reaches, could not connect |
| Download.DownloadLanguage | src/Commands/PoeditorDownloadCommand.php:71-129 | the result is true iff the locale was saved, and `<locale>.po` is written with the fetched body only then; a connection error is reported as thrown, with nothing written |
| Download.ImportDirectory.Write | src/Commands/PoeditorDownloadCommand.php:123 | the file holds the body and no other file changes |
| Download.AllSavedSnoc | src/Commands/PoeditorDownloadCommand.php:55 | `$success` after one more locale is the old value and that locale's result |
| Download.DownloadAllEffect | src/Commands/PoeditorDownloadCommand.php:52-56 | over the locales the loop reaches, each is attempted: a saved locale's file holds its body, a failed or unreachable locale's file is unchanged, and no other file changes |
| Download.Handle | src/Commands/PoeditorDownloadCommand.php:18-69 | a disabled integration, missing credentials or an empty selection give FAILURE with nothing written; otherwise the locales are downloaded up to the first connection error (which ends the command with status 1, FAILURE, keeping the earlier files), and SUCCESS is returned iff every locale was saved |
| Download.DownloadEach | src/Commands/PoeditorDownloadCommand.php:52-56 | each locale is attempted whatever the earlier replies said, until the first connection error; the files are those of the reached locales' downloads, `success` says all reached locales were saved, and `complete` says no error stopped the loop |
| Download.Reached | src/Commands/PoeditorDownloadCommand.php:52-56 | the number of locales before the first whose request or fetch throws: none of them throws, and the one at it, if any, does |
| Download.AllSavedReached | src/Commands/PoeditorDownloadCommand.php:52-56 | when every locale is saved, no connection error stopped the loop |

## Left out

- Filesystem and serialisation. `include`, `VarExporter`,
  `file_put_contents` and file permissions are not modelled. A group
  file is the array it returns, and an `include` gives back exactly the
  array that was written.
- Listing order. `File::directories` and `File::files` are taken as
  name-sorted listings of the modelled directories, and Finder's
  `*.po` scan of the import directory is the given order of documents.
  Finder's default ignore rules are modelled on those listings: dot
  entries and the version-control directory names are skipped.
- PO parsing and generation. `PoLoader` and `PoGenerator` are not
  modelled. A PO document is its language header and a sequence of
  entries (context, original, translation, fuzzy flag), and a missing
  msgctxt is taken as the empty string.
- `Translations::add` merges a translation into an existing one with the
  same context and original. `Export.Catalogue.Add` appends instead.
  `Export.TermsExact` proves that the exported terms never share a
  context, so the merge never happens there.
- External lookups are function parameters: `Language::getById` (as
  `known`), the Laravel Translator's `hasForLocale`/`get`, and
  `app()->getLocale()`. The model assumes `get` returns a string.
- The POEditor HTTP calls are function parameters: export request to
  reply, URL to file reply. Either may be a connection error, on which
  the HTTP client throws. They are deterministic, so two requests for
  the same locale get the same reply. The request body, the
  `Unknown error` message and the client's time-out length are not
  modelled.
- Console output is not modelled: info and warn lines, task spinners,
  and the non-matching-terms table of `po:import` (ImportCommand.php
  lines 43-47 and 86-97). None of it affects what is written. The
  "no groups" warning of `po:sort` is returned as the list of locales
  that would be warned about.
- A locale id unknown to `Language::getById` makes `$language->name`
  read a property of null (ImportCommand.php line 30, ExportCommand.php
  line 39). The model ends the command there with FAILURE, the status 1
  Laravel's console kernel gives an uncaught error. The error report
  itself is console output and is not modelled.
- Group-file values other than strings, null and arrays are not
  modelled: `Tree` has no integers, booleans or floats. In the source
  `Arr::dot` yields them as leaves, `reject(! $text)` keeps the truthy
  ones and `shouldIncludeTranslation` converts them to strings. Group
  files written by the commands only hold strings.
- Directory creation for the import and export directories
  (ExportCommand.php lines 43-47, PoeditorDownloadCommand.php lines
  35-39) is not modelled. The `--clear` and `--force` options of
  `po:export` (lines 49-54) are not modelled either: they clear
  directories behind an interactive confirmation, and
  src/Commands/Concerns/ClearsDirectories.php is not part of this model.
- The cache-clear callback of `po:import` (ImportCommand.php lines
  101-103) is not modelled. It is a foreign call.
- The `TranslationsImported` event is not modelled: the command never
  dispatches it.
- Service providers and `config/po.php` are not modelled: they are
  wiring and defaults. Configuration values are parameters.
- PHP key and comparison quirks are not modelled. Keys are non-numeric
  strings, so `ksort` compares them bytewise and `array_merge` never
  renumbers. `where('enabled', true)` is taken as a boolean test.
- `\w` is ASCII `[A-Za-z0-9_]`, not Unicode-aware.
- Export.TermsOfSound: states soundness only. The converse does not hold
  in general: when a dotted key such as `a.b` collides with a nested
  path `a` → `b` in one group, `Arr::dot` keeps only the last one.
  `Trees.DotPairsComplete` states completeness for the walk itself,
  before the collisions are resolved.
