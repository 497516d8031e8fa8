/**
 * The contents of a translation file: a PHP array whose values are strings,
 * null, or nested arrays. This module holds the recursive key sort
 * (`sortNestedArray`), the structure-dependent sort (`sortTranslations`),
 * the unflattening of dotted keys (`toNestedArray`) and Laravel's
 * `Arr::dot` flattening used by the export.
 */
module Trees {
  import opened Optional
  import opened Strings
  import opened Arrays

  datatype Tree = Text(s: string) | Null | Node(children: Assoc<Tree>)

  /** Every level is a PHP array: keys are unique. */
  predicate WellFormed(t: Tree)
  {
    match t
    case Node(c) => UniqueKeys(c) && forall i :: 0 <= i < |c| ==> WellFormed(c[i].1)
    case _ => true
  }

  /** Keys are non-decreasing at every level. */
  predicate OrderedEverywhere(t: Tree)
  {
    match t
    case Node(c) => Sorted(c) && forall i :: 0 <= i < |c| ==> OrderedEverywhere(c[i].1)
    case _ => true
  }

  /** Keys are strictly ascending at every level. */
  predicate SortedEverywhere(t: Tree)
  {
    match t
    case Node(c) => StrictlySorted(c) && forall i :: 0 <= i < |c| ==> SortedEverywhere(c[i].1)
    case _ => true
  }

  /** The value reached by following `path` key by key (`data_get` without wildcards). */
  function GetPath(t: Tree, path: seq<string>): Option<Tree>
  {
    if |path| == 0 then Some(t)
    else match t
      case Node(c) =>
        var i := IndexOf(c, path[0]);
        if i < 0 then None else GetPath(c[i].1, path[1..])
      case _ => None
  }

  lemma GetPathStep(c: Assoc<Tree>, path: seq<string>)
    requires |path| > 0
    ensures GetPath(Node(c), path) ==
      match Lookup(c, path[0])
      case None => None
      case Some(u) => GetPath(u, path[1..])
  {
  }

  // ------------------------------------------------------- sortNestedArray

  /** `sortNestedArray` as a function: every level sorted by key, values sorted recursively. */
  function SortTree(t: Tree): Tree
  {
    match t
    case Node(c) => Node(KSort(seq(|c|, i requires 0 <= i < |c| => (c[i].0, SortTree(c[i].1)))))
    case _ => t
  }

  function SortNested(a: Assoc<Tree>): Assoc<Tree>
  {
    SortTree(Node(a)).children
  }

  lemma SortNestedIsKSortOfMap(a: Assoc<Tree>)
    ensures SortNested(a) == KSort(MapValues(a, SortTree))
  {
    assert seq(|a|, i requires 0 <= i < |a| => (a[i].0, SortTree(a[i].1))) == MapValues(a, SortTree);
  }

  /** The children of a sorted node are sorted children of the original node. */
  lemma SortTreeChild(c: Assoc<Tree>, j: int)
    requires 0 <= j < |SortNested(c)|
    ensures exists i :: 0 <= i < |c| && SortNested(c)[j] == (c[i].0, SortTree(c[i].1))
  {
    var m := seq(|c|, i requires 0 <= i < |c| => (c[i].0, SortTree(c[i].1)));
    assert SortNested(c)[j] in multiset(m);
    var i :| 0 <= i < |m| && m[i] == SortNested(c)[j];
  }

  lemma {:induction false} SortTreeOrdered(t: Tree)
    ensures OrderedEverywhere(SortTree(t))
  {
    match t
    case Node(c) =>
      var m := seq(|c|, i requires 0 <= i < |c| => (c[i].0, SortTree(c[i].1)));
      KSortSorted(m);
      var r := KSort(m);
      forall j | 0 <= j < |r| ensures OrderedEverywhere(r[j].1) {
        SortTreeChild(c, j);
        var i :| 0 <= i < |c| && r[j] == (c[i].0, SortTree(c[i].1));
        SortTreeOrdered(c[i].1);
      }
    case _ =>
  }

  lemma {:induction false} SortTreeOfOrdered(t: Tree)
    requires OrderedEverywhere(t)
    ensures SortTree(t) == t
  {
    match t
    case Node(c) =>
      var m := seq(|c|, i requires 0 <= i < |c| => (c[i].0, SortTree(c[i].1)));
      forall i | 0 <= i < |c| ensures m[i] == c[i] {
        SortTreeOfOrdered(c[i].1);
      }
      assert m == c;
      KSortOfSorted(c);
    case _ =>
  }

  /** `sortNestedArray` is idempotent: sorting a sorted array changes nothing. */
  lemma SortTreeIdempotent(t: Tree)
    ensures SortTree(SortTree(t)) == SortTree(t)
  {
    SortTreeOrdered(t);
    SortTreeOfOrdered(SortTree(t));
  }

  /**
   * On a PHP array, `sortNestedArray` yields strictly ascending keys at every
   * level and moves nothing between levels: the value at every key path is
   * the sorted original, so key sets and leaf values are unchanged.
   */
  lemma {:induction false} SortTreeProperties(t: Tree)
    requires WellFormed(t)
    ensures WellFormed(SortTree(t)) && SortedEverywhere(SortTree(t))
    ensures forall path :: GetPath(SortTree(t), path) == SortedAt(GetPath(t, path))
  {
    match t
    case Node(c) =>
      var m := seq(|c|, i requires 0 <= i < |c| => (c[i].0, SortTree(c[i].1)));
      assert UniqueKeys(m);
      KSortProperties(m);
      var r := KSort(m);
      forall j | 0 <= j < |r| ensures WellFormed(r[j].1) && SortedEverywhere(r[j].1) {
        SortTreeChild(c, j);
        var i :| 0 <= i < |c| && r[j] == (c[i].0, SortTree(c[i].1));
        SortTreeProperties(c[i].1);
      }
      forall path ensures GetPath(SortTree(t), path) == SortedAt(GetPath(t, path))
      {
        if |path| > 0 {
          GetPathStep(c, path);
          GetPathStep(r, path);
          var k := path[0];
          assert IndexOf(m, k) == IndexOf(c, k) by {
            assert Keys(m) == Keys(c);
            IndexOfSameKeys(m, c, k);
          }
          var i := IndexOf(c, k);
          if i >= 0 {
            SortTreeProperties(c[i].1);
          }
        }
      }
    case _ =>
  }

  /** The sorted counterpart of a value found along a path. */
  function SortedAt(found: Option<Tree>): Option<Tree>
  {
    match found
    case None => None
    case Some(u) => Some(SortTree(u))
  }

  /**
   * `sortNestedArray`: ksort the array, then replace every array value by
   * its own recursive sort, one key at a time.
   */
  method SortNestedArray(a: Assoc<Tree>) returns (r: Assoc<Tree>)
    ensures r == SortNested(a)
    decreases Node(a)
  {
    r := KSort(a);
    ghost var sortedKeys := r;
    var i := 0;
    while i < |r|
      invariant 0 <= i <= |r| == |sortedKeys|
      invariant forall j :: 0 <= j < i ==> r[j] == (sortedKeys[j].0, SortTree(sortedKeys[j].1))
      invariant forall j :: i <= j < |r| ==> r[j] == sortedKeys[j]
    {
      var (key, value) := r[i];
      if value.Node? {
        assert r[i] in multiset(a);
        var m :| 0 <= m < |a| && a[m] == r[i];
        var sorted := SortNestedArray(value.children);
        r := r[i := (key, Node(sorted))];
      }
      i := i + 1;
    }
    assert r == MapValues(sortedKeys, SortTree);
    KSortMapValues(a, SortTree);
    SortNestedIsKSortOfMap(a);
  }

  // ------------------------------------------------------- sortTranslations

  /** `config('po.structure') === 'nested'`: any other value means flat. */
  predicate IsNested(structure: string)
  {
    structure == "nested"
  }

  /** `sortTranslations`: the recursive sort under "nested", a top-level ksort otherwise. */
  function SortTranslations(a: Assoc<Tree>, structure: string): Assoc<Tree>
  {
    if IsNested(structure) then SortNested(a) else KSort(a)
  }

  /** Under "nested" every level is sorted and every key path keeps its (sorted) value. */
  lemma SortTranslationsNested(a: Assoc<Tree>, structure: string)
    requires IsNested(structure) && WellFormed(Node(a))
    ensures WellFormed(Node(SortTranslations(a, structure)))
    ensures SortedEverywhere(Node(SortTranslations(a, structure)))
    ensures forall path ::
      GetPath(Node(SortTranslations(a, structure)), path) == SortedAt(GetPath(Node(a), path))
  {
    SortTreeProperties(Node(a));
  }

  /** Under any other structure only the top level is sorted; nested values stay exactly as given. */
  lemma SortTranslationsFlat(a: Assoc<Tree>, structure: string)
    requires !IsNested(structure) && UniqueKeys(a)
    ensures StrictlySorted(SortTranslations(a, structure))
    ensures UniqueKeys(SortTranslations(a, structure))
    ensures forall k :: Lookup(SortTranslations(a, structure), k) == Lookup(a, k)
  {
    KSortProperties(a);
  }

  lemma SortTranslationsIdempotent(a: Assoc<Tree>, structure: string)
    ensures SortTranslations(SortTranslations(a, structure), structure) == SortTranslations(a, structure)
  {
    if IsNested(structure) {
      SortTreeIdempotent(Node(a));
    } else {
      KSortIdempotent(a);
    }
  }

  /** Whatever the structure, the sorted array is still a PHP array at every level. */
  lemma SortTranslationsWellFormed(a: Assoc<Tree>, structure: string)
    requires WellFormed(Node(a))
    ensures WellFormed(Node(SortTranslations(a, structure)))
  {
    if IsNested(structure) {
      SortTreeProperties(Node(a));
    } else {
      var r := KSort(a);
      KSortProperties(a);
      forall i | 0 <= i < |r| ensures WellFormed(r[i].1) {
        assert r[i] in multiset(a);
      }
    }
  }

  lemma SortTranslationsLength(a: Assoc<Tree>, structure: string)
    ensures |SortTranslations(a, structure)| == |a|
  {
  }

  // ---------------------------------------------------------- toNestedArray

  /**
   * One pass of the inner loop of `toNestedArray`: walk `path` from the root,
   * replacing any missing or non-array step by an empty array, and store the
   * value under the last segment.
   */
  function InsertPath(a: Assoc<Tree>, path: seq<string>, v: string): Assoc<Tree>
    requires |path| >= 1
    decreases |path|
  {
    if |path| == 1 then Put(a, path[0], Text(v))
    else
      var existing := Lookup(a, path[0]);
      var child := if existing.Some? && existing.value.Node? then existing.value.children else [];
      Put(a, path[0], Node(InsertPath(child, path[1..], v)))
  }

  /** The outer loop of `toNestedArray`, before the final sort. */
  function Nest(translations: Assoc<string>): Assoc<Tree>
  {
    if |translations| == 0 then []
    else
      var last := translations[|translations| - 1];
      InsertPath(Nest(translations[..|translations| - 1]), Split(last.0, '.'), last.1)
  }

  lemma {:induction false} InsertPathWellFormed(a: Assoc<Tree>, path: seq<string>, v: string)
    requires |path| >= 1 && WellFormed(Node(a))
    ensures WellFormed(Node(InsertPath(a, path, v)))
    decreases |path|
  {
    var r := InsertPath(a, path, v);
    if |path| == 1 {
      PutProperties(a, path[0], Text(v));
    } else {
      var existing := Lookup(a, path[0]);
      var child := if existing.Some? && existing.value.Node? then existing.value.children else [];
      if existing.Some? {
        assert existing.value == a[IndexOf(a, path[0])].1;
      }
      InsertPathWellFormed(child, path[1..], v);
      PutProperties(a, path[0], Node(InsertPath(child, path[1..], v)));
    }
    forall j | 0 <= j < |r| ensures WellFormed(r[j].1) {
      var i := IndexOf(a, path[0]);
      if i < 0 || j != i {
        assert j < |a| ==> r[j] == a[j];
      }
    }
  }

  /** After inserting, the value sits at its segment path. */
  lemma {:induction false} InsertPathFound(a: Assoc<Tree>, path: seq<string>, v: string)
    requires |path| >= 1 && WellFormed(Node(a))
    ensures GetPath(Node(InsertPath(a, path, v)), path) == Some(Text(v))
    decreases |path|
  {
    GetPathStep(InsertPath(a, path, v), path);
    if |path| == 1 {
      PutProperties(a, path[0], Text(v));
    } else {
      var existing := Lookup(a, path[0]);
      var child := if existing.Some? && existing.value.Node? then existing.value.children else [];
      if existing.Some? {
        assert existing.value == a[IndexOf(a, path[0])].1;
      }
      InsertPathFound(child, path[1..], v);
      PutProperties(a, path[0], Node(InsertPath(child, path[1..], v)));
    }
  }

  /** Inserting leaves every path that is not prefix-related to the inserted one as it was. */
  lemma {:induction false} InsertPathElsewhere(a: Assoc<Tree>, path: seq<string>, v: string, other: seq<string>)
    requires |path| >= 1 && WellFormed(Node(a))
    requires !(other <= path) && !(path <= other)
    ensures GetPath(Node(InsertPath(a, path, v)), other) == GetPath(Node(a), other)
    decreases |path|
  {
    var r := InsertPath(a, path, v);
    GetPathStep(r, other);
    GetPathStep(a, other);
    if other[0] != path[0] {
      if |path| == 1 {
        PutProperties(a, path[0], Text(v));
      } else {
        var existing := Lookup(a, path[0]);
        var child := if existing.Some? && existing.value.Node? then existing.value.children else [];
        PutProperties(a, path[0], Node(InsertPath(child, path[1..], v)));
      }
    } else {
      assert |path| > 1 && |other| > 1;
      var existing := Lookup(a, path[0]);
      var child := if existing.Some? && existing.value.Node? then existing.value.children else [];
      if existing.Some? {
        assert existing.value == a[IndexOf(a, path[0])].1;
      }
      assert !(other[1..] <= path[1..]) && !(path[1..] <= other[1..]);
      InsertPathElsewhere(child, path[1..], v, other[1..]);
      PutProperties(a, path[0], Node(InsertPath(child, path[1..], v)));
      GetPathStep(child, other[1..]);
    }
  }

  /** No key's segment path is a prefix of another's: the keys cannot clash as leaf and branch. */
  predicate PrefixFree(translations: Assoc<string>)
  {
    forall i, j :: 0 <= i < |translations| && 0 <= j < |translations| && i != j ==>
      !(Split(translations[i].0, '.') <= Split(translations[j].0, '.'))
  }

  lemma {:induction false} NestWellFormed(translations: Assoc<string>)
    ensures WellFormed(Node(Nest(translations)))
  {
    if |translations| > 0 {
      var n := |translations| - 1;
      NestWellFormed(translations[..n]);
      InsertPathWellFormed(Nest(translations[..n]), Split(translations[n].0, '.'), translations[n].1);
    }
  }

  /** The last key always wins: its value sits at its path whatever came before. */
  lemma NestLastWins(translations: Assoc<string>)
    requires |translations| > 0
    ensures var last := translations[|translations| - 1];
      GetPath(Node(Nest(translations)), Split(last.0, '.')) == Some(Text(last.1))
  {
    var n := |translations| - 1;
    NestWellFormed(translations[..n]);
    InsertPathFound(Nest(translations[..n]), Split(translations[n].0, '.'), translations[n].1);
  }

  /** Without leaf/branch clashes, every value sits at its key's segment path. */
  lemma {:induction false} NestFound(translations: Assoc<string>)
    requires PrefixFree(translations)
    ensures forall i :: 0 <= i < |translations| ==>
      GetPath(Node(Nest(translations)), Split(translations[i].0, '.')) == Some(Text(translations[i].1))
  {
    if |translations| > 0 {
      var n := |translations| - 1;
      var init := translations[..n];
      assert PrefixFree(init);
      NestFound(init);
      NestWellFormed(init);
      NestLastWins(translations);
      forall i | 0 <= i < n
        ensures GetPath(Node(Nest(translations)), Split(translations[i].0, '.')) == Some(Text(translations[i].1))
      {
        assert init[i] == translations[i];
        InsertPathElsewhere(Nest(init),Split(translations[n].0, '.'), translations[n].1, Split(translations[i].0, '.'));
      }
    }
  }

  /**
   * `toNestedArray`: split every key on '.', walk a cursor down the result
   * creating arrays as needed, store the value, then sort every level.
   */
  method ToNestedArray(translations: Assoc<string>) returns (r: Assoc<Tree>)
    ensures r == SortNested(Nest(translations))
    ensures WellFormed(Node(r)) && SortedEverywhere(Node(r))
    ensures |translations| > 0 ==>
      var last := translations[|translations| - 1];
      GetPath(Node(r), Split(last.0, '.')) == Some(Text(last.1))
    ensures PrefixFree(translations) ==> forall i :: 0 <= i < |translations| ==>
      GetPath(Node(r), Split(translations[i].0, '.')) == Some(Text(translations[i].1))
  {
    var result: Assoc<Tree> := [];
    var i := 0;
    while i < |translations|
      invariant 0 <= i <= |translations|
      invariant result == Nest(translations[..i])
    {
      var (key, value) := translations[i];
      result := InsertPath(result, Split(key, '.'), value);
      assert translations[..i + 1][..i] == translations[..i];
      i := i + 1;
    }
    assert translations[..i] == translations;
    r := SortNestedArray(result);
    NestWellFormed(translations);
    SortTreeProperties(Node(result));
    if |translations| > 0 {
      NestLastWins(translations);
    }
    if PrefixFree(translations) {
      NestFound(translations);
    }
  }

  // --------------------------------------------------------------- Arr::dot

  function Concat<T>(ss: seq<seq<T>>): seq<T>
  {
    if |ss| == 0 then [] else ss[0] + Concat(ss[1..])
  }

  lemma {:induction false} InConcat<T>(ss: seq<seq<T>>, x: T)
    ensures x in Concat(ss) <==> exists i :: 0 <= i < |ss| && x in ss[i]
  {
    if |ss| > 0 {
      InConcat(ss[1..], x);
      if x in Concat(ss[1..]) {
        var i :| 0 <= i < |ss[1..]| && x in ss[1..][i];
        assert x in ss[i + 1];
      }
      if exists i :: 0 <= i < |ss| && x in ss[i] {
        var i :| 0 <= i < |ss| && x in ss[i];
        if i > 0 {
          assert x in ss[1..][i - 1];
        }
      }
    }
  }

  /** What `Arr::dot` keeps as a value: a scalar or an empty array. */
  predicate IsDotLeaf(t: Tree)
  {
    !(t.Node? && |t.children| > 0)
  }

  /** `Arr::dot`'s recursive walk: one pair per leaf, key = prefix + dot-joined path, in walk order. */
  function DotPairs(t: Tree, prefix: string): seq<(string, Tree)>
  {
    match t
    case Node(c) =>
      Concat(seq(|c|, i requires 0 <= i < |c| =>
        if IsDotLeaf(c[i].1) then [(prefix + c[i].0, c[i].1)]
        else DotPairs(c[i].1, prefix + c[i].0 + ".")))
    case _ => []
  }

  /** `Arr::dot($a)`: the walk written into a fresh array (a repeated key keeps its last value). */
  function Dot(a: Assoc<Tree>): Assoc<Tree>
  {
    FromPairs(DotPairs(Node(a), ""))
  }

  /** A pair of the walk comes from one child: the child itself when it is a leaf, its own walk otherwise. */
  lemma DotPairsChild(c: Assoc<Tree>, prefix: string, x: (string, Tree))
    requires x in DotPairs(Node(c), prefix)
    ensures exists i :: 0 <= i < |c| && if IsDotLeaf(c[i].1) then x == (prefix + c[i].0, c[i].1)
      else x in DotPairs(c[i].1, prefix + c[i].0 + ".")
  {
    var ss := seq(|c|, i requires 0 <= i < |c| =>
        if IsDotLeaf(c[i].1) then [(prefix + c[i].0, c[i].1)]
        else DotPairs(c[i].1, prefix + c[i].0 + "."));
    InConcat(ss, x);
    var i :| 0 <= i < |c| && x in ss[i];
  }

  /** Descending one level through the child at index `i`. */
  lemma GetPathThrough(c: Assoc<Tree>, i: int, rest: seq<string>)
    requires UniqueKeys(c) && 0 <= i < |c|
    ensures GetPath(Node(c), [c[i].0] + rest) == GetPath(c[i].1, rest)
    ensures Join([c[i].0] + rest, '.') == if |rest| == 0 then c[i].0 else c[i].0 + "." + Join(rest, '.')
  {
    assert IndexOf(c, c[i].0) == i;
    assert ([c[i].0] + rest)[1..] == rest;
  }

  lemma DotPathExtend(c: Assoc<Tree>, i: int, prefix: string, rest: seq<string>)
    requires UniqueKeys(c) && 0 <= i < |c| && |rest| >= 1
    ensures prefix + c[i].0 + "." + Join(rest, '.') == prefix + Join([c[i].0] + rest, '.')
    ensures GetPath(Node(c), [c[i].0] + rest) == GetPath(c[i].1, rest)
  {
    GetPathThrough(c, i, rest);
    JoinCons(c[i].0, rest, '.');
    ConcatAssoc(prefix, c[i].0, ".", Join(rest, '.'));
  }

  /** Every pair of the walk is a leaf reached by a non-empty key path, keyed by the dot-joined path. */
  lemma {:induction false} DotPairsSound(t: Tree, prefix: string, key: string, v: Tree)
    requires WellFormed(t) && (key, v) in DotPairs(t, prefix)
    ensures exists path :: (|path| >= 1 && key == prefix + Join(path, '.') &&
      GetPath(t, path) == Some(v) && IsDotLeaf(v))
  {
    var c := t.children;
    DotPairsChild(c, prefix, (key, v));
    var i :| 0 <= i < |c| && if IsDotLeaf(c[i].1) then (key, v) == (prefix + c[i].0, c[i].1)
      else (key, v) in DotPairs(c[i].1, prefix + c[i].0 + ".");
    if IsDotLeaf(c[i].1) {
      var path := [c[i].0];
      GetPathThrough(c, i, []);
      assert [c[i].0] + [] == path;
      assert key == prefix + Join(path, '.');
      assert GetPath(t, path) == Some(v);
    } else {
      DotPairsSound(c[i].1, prefix + c[i].0 + ".", key, v);
      var rest :| |rest| >= 1 && key == prefix + c[i].0 + "." + Join(rest, '.') &&
        GetPath(c[i].1, rest) == Some(v) && IsDotLeaf(v);
      DotPathExtend(c, i, prefix, rest);
      var path := [c[i].0] + rest;
      assert key == prefix + Join(path, '.') && GetPath(t, path) == Some(v);
    }
  }

  /** Every leaf reached by a non-empty key path appears in the walk under its dot-joined path. */
  lemma {:induction false} DotPairsComplete(t: Tree, prefix: string, path: seq<string>, v: Tree)
    requires WellFormed(t) && |path| >= 1 && GetPath(t, path) == Some(v) && IsDotLeaf(v)
    ensures (prefix + Join(path, '.'), v) in DotPairs(t, prefix)
  {
    var c := t.children;
    var i := IndexOf(c, path[0]);
    var ss := seq(|c|, i requires 0 <= i < |c| =>
        if IsDotLeaf(c[i].1) then [(prefix + c[i].0, c[i].1)]
        else DotPairs(c[i].1, prefix + c[i].0 + "."));
    if |path| == 1 {
      assert c[i].1 == v;
      assert (prefix + Join(path, '.'), v) in ss[i];
    } else {
      assert !IsDotLeaf(c[i].1);
      DotPairsComplete(c[i].1, prefix + c[i].0 + ".", path[1..], v);
      assert prefix + Join(path, '.') == prefix + c[i].0 + "." + Join(path[1..], '.');
    }
    InConcat(ss, (prefix + Join(path, '.'), v));
  }

  /**
   * A string leaf of an array of arrays sits in one child under a
   * non-empty path, and its key is the child's key, a dot and that path.
   */
  lemma DotPairsOfArrays(c: Assoc<Tree>, key: string, s: string)
    requires WellFormed(Node(c)) && forall i :: 0 <= i < |c| ==> c[i].1.Node?
    requires (key, Text(s)) in DotPairs(Node(c), "")
    ensures exists i, rest :: 0 <= i < |c| && |rest| >= 1 && key == c[i].0 + "." + Join(rest, '.') &&
              GetPath(c[i].1, rest) == Some(Text(s))
  {
    DotPairsSound(Node(c), "", key, Text(s));
    var path :| |path| >= 1 && key == "" + Join(path, '.') && GetPath(Node(c), path) == Some(Text(s)) && IsDotLeaf(Text(s));
    PathBelowArrays(c, path, s);
    assert "" + Join(path, '.') == Join(path, '.');
  }

  /** A path from a node whose children are all arrays to a text leaf goes through a child and on below it. */
  lemma PathBelowArrays(c: Assoc<Tree>, path: seq<string>, s: string)
    requires forall i :: 0 <= i < |c| ==> c[i].1.Node?
    requires |path| >= 1 && GetPath(Node(c), path) == Some(Text(s))
    ensures exists i, rest :: 0 <= i < |c| && |rest| >= 1 && Join(path, '.') == c[i].0 + "." + Join(rest, '.') &&
              GetPath(c[i].1, rest) == Some(Text(s))
  {
    var i := IndexOf(c, path[0]);
    var rest := path[1..];
    GetPathStep(c, path);
    assert i >= 0 && GetPath(c[i].1, rest) == Some(Text(s));
    assert c[i].1.Node? && GetPath(c[i].1, []) == Some(c[i].1);
    assert |rest| >= 1;
    assert path == [c[i].0] + rest;
    JoinCons(c[i].0, rest, '.');
  }


}
