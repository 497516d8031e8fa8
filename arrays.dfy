/**
 * PHP arrays with string keys, as the commands use them: an ordered
 * sequence of key/value pairs whose keys are unique. Writing a key keeps
 * its position when it exists and appends it otherwise; `ksort` reorders
 * by key.
 */
module Arrays {
  import opened Optional
  import opened Strings

  type Assoc<V> = seq<(string, V)>

  function Keys<V>(a: Assoc<V>): (ks: seq<string>)
    ensures |ks| == |a| && forall i :: 0 <= i < |a| ==> ks[i] == a[i].0
  {
    seq(|a|, i requires 0 <= i < |a| => a[i].0)
  }

  predicate HasKey<V>(a: Assoc<V>, k: string)
  {
    exists i :: 0 <= i < |a| && a[i].0 == k
  }

  /** Every PHP array satisfies this: no key occurs twice. */
  predicate UniqueKeys<V>(a: Assoc<V>)
  {
    forall i, j :: 0 <= i < j < |a| ==> a[i].0 != a[j].0
  }

  /** The position of key `k`, or -1. */
  function IndexOf<V>(a: Assoc<V>, k: string): (i: int)
    ensures -1 <= i < |a|
    ensures i >= 0 ==> a[i].0 == k && forall j :: 0 <= j < i ==> a[j].0 != k
    ensures i == -1 <==> !HasKey(a, k)
  {
    if |a| == 0 then -1
    else if a[0].0 == k then 0
    else
      var j := IndexOf(a[1..], k);
      if j == -1 then -1 else j + 1
  }

  /** `$a[$k] ?? null`. */
  function Lookup<V>(a: Assoc<V>, k: string): (r: Option<V>)
    ensures r.None? <==> !HasKey(a, k)
  {
    var i := IndexOf(a, k);
    if i == -1 then None else Some(a[i].1)
  }

  lemma LookupIsMember<V>(a: Assoc<V>, k: string, v: V)
    requires UniqueKeys(a)
    ensures Lookup(a, k) == Some(v) <==> (k, v) in a
  {
    if (k, v) in a {
      var j :| 0 <= j < |a| && a[j] == (k, v);
      var i := IndexOf(a, k);
      assert i == j;
    }
  }

  /** `$a[$k] = $v`: replaces in place when `k` is present, appends otherwise. */
  function Put<V>(a: Assoc<V>, k: string, v: V): (r: Assoc<V>)
    ensures var i := IndexOf(a, k);
      if i >= 0 then r == a[i := (k, v)] else r == a + [(k, v)]
  {
    var i := IndexOf(a, k);
    if i >= 0 then a[i := (k, v)] else a + [(k, v)]
  }

  lemma PutProperties<V>(a: Assoc<V>, k: string, v: V)
    requires UniqueKeys(a)
    ensures UniqueKeys(Put(a, k, v))
    ensures Lookup(Put(a, k, v), k) == Some(v)
    ensures forall k' :: k' != k ==> Lookup(Put(a, k, v), k') == Lookup(a, k')
    ensures forall k' :: HasKey(Put(a, k, v), k') <==> HasKey(a, k') || k' == k
  {
    var r := Put(a, k, v);
    assert UniqueKeys(r);
    LookupIsMember(r, k, v);
    forall k' | k' != k
      ensures Lookup(r, k') == Lookup(a, k')
    {
      if HasKey(a, k') {
        var w := Lookup(a, k').value;
        LookupIsMember(a, k', w);
        var j :| 0 <= j < |a| && a[j] == (k', w);
        assert r[j] == a[j];
        LookupIsMember(r, k', w);
      } else {
        forall j | 0 <= j < |r| ensures r[j].0 != k' {
          if j < |a| && r[j] == a[j] {
            assert a[j].0 != k';
          }
        }
      }
    }
    forall k' ensures HasKey(r, k') <==> HasKey(a, k') || k' == k {
      if HasKey(a, k') {
        var j :| 0 <= j < |a| && a[j].0 == k';
        assert r[j].0 == k';
      }
    }
  }

  /** The value a key takes when `pairs` are written one after another: the last one wins. */
  function LastValue<V>(pairs: seq<(string, V)>, k: string): Option<V>
  {
    if |pairs| == 0 then None
    else if pairs[|pairs| - 1].0 == k then Some(pairs[|pairs| - 1].1)
    else LastValue(pairs[..|pairs| - 1], k)
  }

  /** A key written only with the value `v` is last written with `v`. */
  lemma {:induction false} LastValueConstant<V>(pairs: seq<(string, V)>, k: string, v: V, j: nat)
    requires j < |pairs| && pairs[j].0 == k
    requires forall i :: 0 <= i < |pairs| && pairs[i].0 == k ==> pairs[i].1 == v
    ensures LastValue(pairs, k) == Some(v)
  {
    if pairs[|pairs| - 1].0 != k {
      LastValueConstant(pairs[..|pairs| - 1], k, v, j);
    }
  }

  /** Writing `pairs` one after another into an empty array (`keyBy`, `Arr::dot`, `mapWithKeys`). */
  function FromPairs<V>(pairs: seq<(string, V)>): Assoc<V>
  {
    if |pairs| == 0 then [] else
      var last := pairs[|pairs| - 1];
      Put(FromPairs(pairs[..|pairs| - 1]), last.0, last.1)
  }

  /** Keys are unique, every written key is present and holds the last value written to it. */
  lemma {:induction false} FromPairsLookup<V>(pairs: seq<(string, V)>)
    ensures UniqueKeys(FromPairs(pairs))
    ensures forall k :: Lookup(FromPairs(pairs), k) == LastValue(pairs, k)
  {
    if |pairs| > 0 {
      var init := pairs[..|pairs| - 1];
      FromPairsLookup(init);
      PutProperties(FromPairs(init), pairs[|pairs| - 1].0, pairs[|pairs| - 1].1);
    }
  }

  /** `array_merge($a, $b)` (and Collection::merge) on string keys: `b` wins, `a`'s order first. */
  function Merge<V>(a: Assoc<V>, b: Assoc<V>): Assoc<V>
  {
    if |b| == 0 then a else
      Put(Merge(a, b[..|b| - 1]), b[|b| - 1].0, b[|b| - 1].1)
  }

  lemma {:induction false} LastValueOfUnique<V>(b: Assoc<V>, k: string)
    requires UniqueKeys(b)
    ensures LastValue(b, k) == Lookup(b, k)
  {
    if |b| > 0 {
      var init := b[..|b| - 1];
      LastValueOfUnique(init, k);
      if b[|b| - 1].0 == k {
        LookupIsMember(b, k, b[|b| - 1].1);
      } else if HasKey(init, k) {
        var w := Lookup(init, k).value;
        LookupIsMember(init, k, w);
        LookupIsMember(b, k, w);
      }
    }
  }

  /** Merge precedence: every key of either array is kept, and a key of `b` takes `b`'s value. */
  lemma {:induction false} MergeLookup<V>(a: Assoc<V>, b: Assoc<V>)
    requires UniqueKeys(a) && UniqueKeys(b)
    ensures UniqueKeys(Merge(a, b))
    ensures forall k :: Lookup(Merge(a, b), k) == (if HasKey(b, k) then Lookup(b, k) else Lookup(a, k))
  {
    if |b| > 0 {
      var init := b[..|b| - 1];
      MergeLookup(a, init);
      PutProperties(Merge(a, init), b[|b| - 1].0, b[|b| - 1].1);
      forall k ensures Lookup(Merge(a, b), k) == (if HasKey(b, k) then Lookup(b, k) else Lookup(a, k)) {
        LastValueOfUnique(b, k);
        LastValueOfUnique(init, k);
        assert HasKey(b, k) <==> HasKey(init, k) || b[|b| - 1].0 == k;
      }
    }
  }

  /** Merging into an empty array is the identity (the import's "no existing file" case). */
  lemma {:induction false} MergeIntoEmpty<V>(b: Assoc<V>)
    requires UniqueKeys(b)
    ensures Merge([], b) == b
  {
    if |b| > 0 {
      var init := b[..|b| - 1];
      MergeIntoEmpty(init);
      assert !HasKey(init, b[|b| - 1].0);
      assert b == init + [b[|b| - 1]];
    }
  }

  // ---------------------------------------------------------------- ksort

  /** Non-decreasing by key. */
  predicate Sorted<V>(a: Assoc<V>)
  {
    forall i, j :: 0 <= i < j < |a| ==> !Less(a[j].0, a[i].0)
  }

  /** Strictly ascending by key. */
  predicate StrictlySorted<V>(a: Assoc<V>)
  {
    forall i, j :: 0 <= i < j < |a| ==> Less(a[i].0, a[j].0)
  }

  function Insert<V>(x: (string, V), s: Assoc<V>): (r: Assoc<V>)
    ensures |r| == |s| + 1
    ensures multiset(r) == multiset(s) + multiset{x}
  {
    if |s| == 0 then [x]
    else
      assert s == [s[0]] + s[1..];
      if Less(s[0].0, x.0) then [s[0]] + Insert(x, s[1..]) else [x] + s
  }

  /** `ksort`: a stable sort by key. */
  function KSort<V>(a: Assoc<V>): (r: Assoc<V>)
    ensures |r| == |a|
    ensures multiset(r) == multiset(a)
  {
    if |a| == 0 then []
    else
      assert a == [a[0]] + a[1..];
      Insert(a[0], KSort(a[1..]))
  }

  lemma {:induction false} InsertSorted<V>(x: (string, V), s: Assoc<V>)
    requires Sorted(s)
    ensures Sorted(Insert(x, s))
  {
    if |s| > 0 && Less(s[0].0, x.0) {
      InsertSorted(x, s[1..]);
      var r := Insert(x, s);
      forall i, j | 0 <= i < j < |r| ensures !Less(r[j].0, r[i].0) {
        if i == 0 {
          assert r[j] in multiset(s[1..]) + multiset{x};
          if r[j] == x {
            LessAsymmetric(s[0].0, x.0);
          } else {
            var m :| 1 <= m < |s| && s[m] == r[j];
          }
        }
      }
    } else if |s| > 0 {
      var r := Insert(x, s);
      forall i, j | 0 <= i < j < |r| ensures !Less(r[j].0, r[i].0) {
        if i == 0 && Less(r[j].0, x.0) {
          if j > 1 {
            assert r[j] == s[j - 1];
            if s[0].0 != x.0 {
              LessTotal(s[0].0, x.0);
              LessTransitive(r[j].0, x.0, s[0].0);
            }
          }
          assert false;
        }
      }
    }
  }

  lemma {:induction false} KSortSorted<V>(a: Assoc<V>)
    ensures Sorted(KSort(a))
  {
    if |a| > 0 {
      KSortSorted(a[1..]);
      InsertSorted(a[0], KSort(a[1..]));
    }
  }

  /** Sorting a permutation of unique keys that is non-decreasing is strictly ascending. */
  lemma SortedUniqueIsStrict<V>(a: Assoc<V>)
    requires Sorted(a) && UniqueKeys(a)
    ensures StrictlySorted(a)
  {
    forall i, j | 0 <= i < j < |a| ensures Less(a[i].0, a[j].0) {
      LessTotal(a[i].0, a[j].0);
    }
  }

  lemma UniqueKeysOfPermutation<V>(a: Assoc<V>, b: Assoc<V>)
    requires UniqueKeys(a) && multiset(a) == multiset(b)
    ensures UniqueKeys(b)
  {
    forall i, j | 0 <= i < j < |b| ensures b[i].0 != b[j].0 {
      assert b[i] in multiset(a) && b[j] in multiset(a);
      var p :| 0 <= p < |a| && a[p] == b[i];
      var q :| 0 <= q < |a| && a[q] == b[j];
      if b[i].0 == b[j].0 {
        assert p == q;
        assert b[i] == b[j];
        var m := multiset(b);
        assert multiset(b[..i]) + multiset{b[i]} + multiset(b[i+1..j]) + multiset{b[j]} + multiset(b[j+1..]) == m by {
          assert b == b[..i] + [b[i]] + b[i+1..j] + [b[j]] + b[j+1..];
        }
        assert m[b[i]] >= 2;
        MultiplicityInUnique(a, p);
      }
    }
  }

  lemma MultiplicityInUnique<V>(a: Assoc<V>, p: int)
    requires UniqueKeys(a) && 0 <= p < |a|
    ensures multiset(a)[a[p]] == 1
  {
    assert a == a[..p] + [a[p]] + a[p+1..];
    assert a[p] !in a[..p] && a[p] !in a[p+1..];
    assert multiset(a[..p])[a[p]] == 0 && multiset(a[p+1..])[a[p]] == 0;
  }

  /** ksort on a PHP array: strictly ascending keys, the same key/value pairs, the same lookups. */
  lemma KSortProperties<V>(a: Assoc<V>)
    requires UniqueKeys(a)
    ensures StrictlySorted(KSort(a)) && UniqueKeys(KSort(a))
    ensures forall k :: Lookup(KSort(a), k) == Lookup(a, k)
  {
    var r := KSort(a);
    UniqueKeysOfPermutation(a, r);
    KSortSorted(a);
    SortedUniqueIsStrict(r);
    forall k ensures Lookup(r, k) == Lookup(a, k) {
      if HasKey(a, k) {
        var w := Lookup(a, k).value;
        LookupIsMember(a, k, w);
        assert (k, w) in multiset(r);
        LookupIsMember(r, k, w);
      } else {
        forall j | 0 <= j < |r| ensures r[j].0 != k {
          assert r[j] in multiset(a);
        }
      }
    }
  }

  /** ksort leaves an already sorted array as it is. */
  lemma {:induction false} KSortOfSorted<V>(a: Assoc<V>)
    requires Sorted(a)
    ensures KSort(a) == a
  {
    if |a| > 0 {
      assert Sorted(a[1..]);
      KSortOfSorted(a[1..]);
      if |a| > 1 {
        assert !Less(a[1].0, a[0].0);
      }
    }
  }

  /** ksort is idempotent. */
  lemma KSortIdempotent<V>(a: Assoc<V>)
    ensures KSort(KSort(a)) == KSort(a)
  {
    KSortSorted(a);
    KSortOfSorted(KSort(a));
  }

  /** The values of `a` mapped by `f`, keys and order kept (Collection::map). */
  function MapValues<V, W>(a: Assoc<V>, f: V -> W): (r: Assoc<W>)
    ensures |r| == |a|
    ensures forall i :: 0 <= i < |a| ==> r[i] == (a[i].0, f(a[i].1))
  {
    seq(|a|, i requires 0 <= i < |a| => (a[i].0, f(a[i].1)))
  }

  /** A permutation of an array has the same keys. */
  lemma KeysOfPermutation<V>(a: Assoc<V>, b: Assoc<V>)
    requires multiset(a) == multiset(b)
    ensures forall k :: k in Keys(b) <==> HasKey(a, k)
  {
    forall k ensures k in Keys(b) <==> HasKey(a, k) {
      if k in Keys(b) {
        var i :| 0 <= i < |b| && Keys(b)[i] == k;
        assert b[i] in multiset(a);
      }
      if HasKey(a, k) {
        var i :| 0 <= i < |a| && a[i].0 == k;
        assert a[i] in multiset(b);
        var j :| 0 <= j < |b| && b[j] == a[i];
        assert Keys(b)[j] == k;
      }
    }
  }

  /** Sorting only looks at keys, so it commutes with mapping the values. */
  lemma {:induction false} KSortMapValues<V, W>(a: Assoc<V>, f: V -> W)
    ensures KSort(MapValues(a, f)) == MapValues(KSort(a), f)
  {
    if |a| > 0 {
      KSortMapValues(a[1..], f);
      assert MapValues(a, f)[1..] == MapValues(a[1..], f);
      InsertMapValues(a[0], KSort(a[1..]), f);
    }
  }

  lemma {:induction false} InsertMapValues<V, W>(x: (string, V), s: Assoc<V>, f: V -> W)
    ensures Insert((x.0, f(x.1)), MapValues(s, f)) == MapValues(Insert(x, s), f)
  {
    if |s| == 0 {
      MapValuesCons(x, s, f);
    } else if Less(s[0].0, x.0) {
      InsertMapValues(x, s[1..], f);
      assert s == [s[0]] + s[1..];
      MapValuesCons(s[0], s[1..], f);
      MapValuesCons(s[0], Insert(x, s[1..]), f);
    } else {
      MapValuesCons(x, s, f);
    }
  }

  lemma MapValuesCons<V, W>(h: (string, V), t: Assoc<V>, f: V -> W)
    ensures MapValues([h] + t, f) == [(h.0, f(h.1))] + MapValues(t, f)
  {
    assert MapValues([h] + t, f)[1..] == MapValues(t, f);
  }

  /** Collection::filter with a predicate on values: keys and order kept. */
  function FilterValues<V(!new)>(a: Assoc<V>, keep: V -> bool): (r: Assoc<V>)
    ensures forall p :: p in r <==> p in a && keep(p.1)
  {
    if |a| == 0 then []
    else if keep(a[0].1) then [a[0]] + FilterValues(a[1..], keep)
    else FilterValues(a[1..], keep)
  }

  /** `Collection::only($keys)` / `Arr::only`: the pairs whose key is listed, in the array's own order. */
  function Only<V(!new)>(a: Assoc<V>, keys: seq<string>): (r: Assoc<V>)
    ensures forall p :: p in r <==> p in a && p.0 in keys
  {
    if |a| == 0 then []
    else if a[0].0 in keys then [a[0]] + Only(a[1..], keys)
    else Only(a[1..], keys)
  }

  /** Positions depend on keys only. */
  lemma {:induction false} IndexOfSameKeys<V, W>(a: Assoc<V>, b: Assoc<W>, k: string)
    requires Keys(a) == Keys(b)
    ensures IndexOf(a, k) == IndexOf(b, k)
  {
    if |a| > 0 {
      assert Keys(a[1..]) == Keys(a)[1..] && Keys(b[1..]) == Keys(b)[1..];
      assert a[0].0 == Keys(a)[0] == b[0].0;
      IndexOfSameKeys(a[1..], b[1..], k);
    }
  }

  lemma MapValuesLookup<V, W>(a: Assoc<V>, f: V -> W, k: string)
    ensures Lookup(MapValues(a, f), k) == match Lookup(a, k) case None => None case Some(v) => Some(f(v))
  {
    IndexOfSameKeys(MapValues(a, f), a, k);
  }

  lemma {:induction false} FilterValuesLookup<V(!new)>(a: Assoc<V>, keep: V -> bool)
    requires UniqueKeys(a)
    ensures UniqueKeys(FilterValues(a, keep))
    ensures forall k ::
      Lookup(FilterValues(a, keep), k) == if Lookup(a, k).Some? && keep(Lookup(a, k).value) then Lookup(a, k) else None
  {
    var r := FilterValues(a, keep);
    if |a| > 0 {
      FilterValuesLookup(a[1..], keep);
      forall p | p in FilterValues(a[1..], keep) ensures p.0 != a[0].0 {
        var j :| 0 <= j < |a[1..]| && a[1..][j] == p;
        assert a[j + 1] == p;
      }
    }
    forall k ensures Lookup(r, k) == if Lookup(a, k).Some? && keep(Lookup(a, k).value) then Lookup(a, k) else None {
      match Lookup(a, k)
      case None =>
      case Some(v) =>
        LookupIsMember(a, k, v);
        if keep(v) {
          LookupIsMember(r, k, v);
        }
    }
  }

  lemma {:induction false} OnlyLookup<V(!new)>(a: Assoc<V>, keys: seq<string>)
    requires UniqueKeys(a)
    ensures UniqueKeys(Only(a, keys))
    ensures forall k :: Lookup(Only(a, keys), k) == if k in keys then Lookup(a, k) else None
  {
    var r := Only(a, keys);
    if |a| > 0 {
      OnlyLookup(a[1..], keys);
      forall p | p in Only(a[1..], keys) ensures p.0 != a[0].0 {
        var j :| 0 <= j < |a[1..]| && a[1..][j] == p;
        assert a[j + 1] == p;
      }
    }
    forall k ensures Lookup(r, k) == if k in keys then Lookup(a, k) else None {
      match Lookup(a, k)
      case None =>
      case Some(v) =>
        LookupIsMember(a, k, v);
        if k in keys {
          LookupIsMember(r, k, v);
        }
    }
  }

  lemma LookupFirst<V>(a: Assoc<V>)
    requires |a| > 0
    ensures forall k :: Lookup(a, k) == if a[0].0 == k then Some(a[0].1) else Lookup(a[1..], k)
  {
  }

  /** `unset($a[$k])`: the entry with key `k` goes, the others keep their order. */
  function Remove<V>(a: Assoc<V>, k: string): (r: Assoc<V>)
    ensures !HasKey(r, k)
    ensures forall k' :: k' != k ==> Lookup(r, k') == Lookup(a, k')
    ensures forall p :: p in r ==> p in a
  {
    if |a| == 0 then []
    else if a[0].0 == k then Remove(a[1..], k)
    else
      var r := [a[0]] + Remove(a[1..], k);
      assert r[1..] == Remove(a[1..], k);
      LookupFirst(r);
      LookupFirst(a);
      r
  }

  lemma {:induction false} RemoveUnique<V>(a: Assoc<V>, k: string)
    requires UniqueKeys(a)
    ensures UniqueKeys(Remove(a, k))
  {
    if |a| > 0 {
      RemoveUnique(a[1..], k);
      forall p | p in Remove(a[1..], k) ensures p.0 != a[0].0 {
        var j :| 0 <= j < |a[1..]| && a[1..][j] == p;
        assert a[j + 1] == p;
      }
    }
  }

  lemma KeysHasKey<V>(a: Assoc<V>, k: string)
    ensures k in Keys(a) <==> HasKey(a, k)
  {
    if HasKey(a, k) {
      var i :| 0 <= i < |a| && a[i].0 == k;
      assert Keys(a)[i] == k;
    }
  }

  /** Writing the same key twice: the second write alone decides the result. */
  lemma PutTwice<V>(a: Assoc<V>, k: string, v: V, w: V)
    ensures Put(Put(a, k, v), k, w) == Put(a, k, w)
  {
    var b := Put(a, k, v);
    if IndexOf(a, k) >= 0 {
      assert Keys(b) == Keys(a);
      IndexOfSameKeys(b, a, k);
    } else {
      assert b[|a|].0 == k;
    }
  }

  /** Writing back the value a key already holds changes nothing. */
  lemma PutSame<V>(a: Assoc<V>, k: string)
    requires HasKey(a, k)
    ensures Put(a, k, Lookup(a, k).value) == a
  {
  }

  lemma {:induction false} FromPairsMember<V>(pairs: seq<(string, V)>)
    ensures forall p :: p in FromPairs(pairs) ==> p in pairs
  {
    if |pairs| > 0 {
      FromPairsMember(pairs[..|pairs| - 1]);
    }
  }

  lemma {:induction false} MergeMember<V>(a: Assoc<V>, b: Assoc<V>)
    ensures forall p :: p in Merge(a, b) ==> p in a || p in b
  {
    if |b| > 0 {
      MergeMember(a, b[..|b| - 1]);
    }
  }
}
