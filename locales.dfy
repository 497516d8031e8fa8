/**
 * Which locales a command works on. Every command starts from the same
 * pool (the enabled entries of `config('po.languages')`, or every
 * directory of the lang path when none is configured) and then applies
 * its own rule to the `lang` arguments and the `--all` flag.
 */
module Locales {
  import opened Optional
  import opened Strings
  import opened Arrays

  /** `Command::SUCCESS` / `Command::FAILURE`. */
  datatype ExitCode = Success | Failure

  /** One entry of `config('po.languages')`: its `label` and `enabled` keys. */
  datatype LanguageConfig = LanguageConfig(displayLabel: string, enabled: bool)

  /** `collect($configured)->where('enabled', true)->keys()`. */
  function EnabledKeys(configured: Assoc<LanguageConfig>): (r: seq<string>)
    ensures forall l :: l in r <==> exists i :: 0 <= i < |configured| && configured[i].0 == l && configured[i].1.enabled
  {
    if |configured| == 0 then []
    else
      var rest := EnabledKeys(configured[1..]);
      assert forall i :: 0 < i < |configured| ==> configured[i] == configured[1..][i - 1];
      if configured[0].1.enabled then [configured[0].0] + rest else rest
  }

  /** The enabled locales: the enabled configured ones, or every lang directory when nothing is configured. */
  function Pool(configured: Assoc<LanguageConfig>, directories: seq<string>): (r: seq<string>)
    ensures |configured| == 0 ==> r == directories
    ensures |configured| > 0 ==> forall l :: l in r <==>
                exists i :: 0 <= i < |configured| && configured[i].0 == l && configured[i].1.enabled
  {
    if |configured| == 0 then directories else EnabledKeys(configured)
  }

  /** The elements of `xs` that occur in `ys`, in the order (and with the repeats) of `xs`. */
  function Intersect(xs: seq<string>, ys: seq<string>): (r: seq<string>)
    ensures forall x :: x in r <==> x in xs && x in ys
    ensures |r| <= |xs|
  {
    if |xs| == 0 then []
    else if xs[0] in ys then [xs[0]] + Intersect(xs[1..], ys)
    else Intersect(xs[1..], ys)
  }

  /** The elements of `xs` for which `keep` holds, in order (`Collection::filter`). */
  function Filter(xs: seq<string>, keep: string -> bool): (r: seq<string>)
    ensures forall x :: x in r <==> x in xs && keep(x)
  {
    if |xs| == 0 then []
    else if keep(xs[0]) then [xs[0]] + Filter(xs[1..], keep)
    else Filter(xs[1..], keep)
  }

  /**
   * `po:export`'s `getLocales`: the pool without ids `Language::getById`
   * does not know (`known`); with `--all` all of them, otherwise those
   * among the `lang` arguments, or the app locale when there are none,
   * in pool order.
   */
  function ExportLocales(configured: Assoc<LanguageConfig>, directories: seq<string>, known: string -> bool,
                         all: bool, args: seq<string>, appLocale: string): (r: seq<string>)
    ensures all ==> r == Filter(Pool(configured, directories), known)
    ensures forall l :: l in r <==>
                l in Pool(configured, directories) && known(l) && (all || (if |args| == 0 then l == appLocale else l in args))
  {
    var locales := Filter(Pool(configured, directories), known);
    if all then locales
    else Intersect(locales, if |args| == 0 then [appLocale] else args)
  }

  /**
   * `po:import`'s `getLanguageFiles`: the PO documents keyed by their
   * language header (a later document with the same language wins), only
   * those in the pool, then only those named by the `lang` arguments when
   * there are any.
   */
  function ImportLocales<T(!new)>(documents: seq<(string, T)>, pool: seq<string>, args: seq<string>): Assoc<T>
  {
    var enabled := Only(FromPairs(documents), pool);
    if |args| == 0 then enabled else Only(enabled, args)
  }

  /** An imported locale is a pooled language that the arguments (if any) name, with its last document. */
  lemma ImportLocalesLookup<T(!new)>(documents: seq<(string, T)>, pool: seq<string>, args: seq<string>)
    ensures UniqueKeys(ImportLocales(documents, pool, args))
    ensures forall l :: Lookup(ImportLocales(documents, pool, args), l) ==
                if l in pool && (|args| == 0 || l in args) then LastValue(documents, l) else None
  {
    FromPairsLookup(documents);
    var enabled := Only(FromPairs(documents), pool);
    OnlyLookup(FromPairs(documents), pool);
    if |args| > 0 {
      OnlyLookup(enabled, args);
    }
  }

  /** `po:sort`'s `getLocales`: the `lang` arguments exactly as given, otherwise the pool. */
  function SortLocales(configured: Assoc<LanguageConfig>, directories: seq<string>, args: seq<string>): (r: seq<string>)
    ensures |args| > 0 ==> r == args
    ensures |args| == 0 ==> r == Pool(configured, directories)
  {
    if |args| > 0 then args else Pool(configured, directories)
  }

  /**
   * `po:download`'s `getLocales`: the `lang` arguments that are in the
   * pool, in argument order; without arguments the pool when `--all` is
   * given, and nothing otherwise.
   */
  function DownloadLocales(configured: Assoc<LanguageConfig>, directories: seq<string>, all: bool, args: seq<string>): (r: seq<string>)
    ensures forall l :: l in r <==> l in Pool(configured, directories) && (if |args| > 0 then l in args else all)
    ensures |args| == 0 && !all ==> r == []
  {
    var pool := Pool(configured, directories);
    if |args| > 0 then Intersect(args, pool)
    else if all then pool
    else []
  }
}
