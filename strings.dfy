/** Option, used wherever the PHP code returns a value or `null`. */
module Optional {
  datatype Option<T> = None | Some(value: T)
}

/**
 * String helpers with the semantics of the PHP and Laravel functions the
 * commands call: byte-wise ordering (ksort, strcmp), PHP truthiness,
 * `Str::before` / `Str::after`, `explode`, `Str::is` and suffix tests.
 */
module Strings {
  import opened Optional

  /** Strict lexicographic order by character code, as `strcmp` orders keys. */
  predicate Less(a: string, b: string)
  {
    if |a| == 0 then |b| > 0
    else if |b| == 0 then false
    else a[0] < b[0] || (a[0] == b[0] && Less(a[1..], b[1..]))
  }

  lemma {:induction false} LessIrreflexive(a: string)
    ensures !Less(a, a)
  {
    if |a| > 0 {
      LessIrreflexive(a[1..]);
    }
  }

  lemma {:induction false} LessTransitive(a: string, b: string, c: string)
    requires Less(a, b) && Less(b, c)
    ensures Less(a, c)
  {
    if |a| > 0 && |b| > 0 && |c| > 0 && a[0] == b[0] == c[0] {
      LessTransitive(a[1..], b[1..], c[1..]);
    }
  }

  lemma {:induction false} LessTotal(a: string, b: string)
    requires a != b
    ensures Less(a, b) || Less(b, a)
  {
    if |a| > 0 && |b| > 0 && a[0] == b[0] {
      assert a == [a[0]] + a[1..] && b == [b[0]] + b[1..];
      LessTotal(a[1..], b[1..]);
    }
  }

  lemma {:induction false} LessAsymmetric(a: string, b: string)
    requires Less(a, b)
    ensures !Less(b, a)
  {
    if |a| > 0 && |b| > 0 && a[0] == b[0] {
      LessAsymmetric(a[1..], b[1..]);
    }
  }

  /** PHP truthiness of a string: only "" and "0" are falsy. */
  predicate Truthy(s: string)
  {
    s != "" && s != "0"
  }

  /** `Str::before($s, $sep)` for a one-character separator: everything before the first separator, or all of `s`. */
  function Before(s: string, sep: char): (r: string)
    ensures r <= s && sep !in r
    ensures sep !in s ==> r == s
    ensures sep in s ==> |r| < |s| && s[|r|] == sep
  {
    if s == [] then []
    else if s[0] == sep then []
    else [s[0]] + Before(s[1..], sep)
  }

  /** `Str::after($s, $sep)` for a one-character separator: everything after the first separator, or all of `s`. */
  function After(s: string, sep: char): (r: string)
    ensures sep in s ==> s == Before(s, sep) + [sep] + r
    ensures sep !in s ==> r == s
  {
    if sep in s then s[|Before(s, sep)| + 1..] else s
  }

  /** `explode($sep, $s)`: the pieces between separators, never empty. */
  function Split(s: string, sep: char): (r: seq<string>)
    ensures |r| >= 1
    ensures forall i :: 0 <= i < |r| ==> sep !in r[i]
    decreases |s|
  {
    if sep in s then [Before(s, sep)] + Split(After(s, sep), sep) else [s]
  }

  /** `implode($sep, $parts)`. */
  function Join(parts: seq<string>, sep: char): string
  {
    if |parts| == 0 then ""
    else if |parts| == 1 then parts[0]
    else parts[0] + [sep] + Join(parts[1..], sep)
  }

  /** Joining a first part onto at least one more. */
  lemma JoinCons(p: string, rest: seq<string>, sep: char)
    requires |rest| >= 1
    ensures Join([p] + rest, sep) == p + [sep] + Join(rest, sep)
  {
    assert ([p] + rest)[1..] == rest;
  }

  lemma ConcatAssoc(p: string, a: string, b: string, c: string)
    ensures p + (a + b + c) == p + a + b + c
  {
  }

  lemma {:induction false} JoinSplit(s: string, sep: char)
    ensures Join(Split(s, sep), sep) == s
    decreases |s|
  {
    if sep in s {
      var b, a := Before(s, sep), After(s, sep);
      JoinSplit(a, sep);
      assert Split(s, sep)[1..] == Split(a, sep);
    }
  }

  lemma {:induction false} SplitJoin(parts: seq<string>, sep: char)
    requires |parts| >= 1
    requires forall i :: 0 <= i < |parts| ==> sep !in parts[i]
    ensures Split(Join(parts, sep), sep) == parts
  {
    if |parts| > 1 {
      var s := Join(parts, sep);
      assert s == parts[0] + [sep] + Join(parts[1..], sep);
      BeforeAfterOfPrefix(parts[0], sep, Join(parts[1..], sep));
      SplitJoin(parts[1..], sep);
    }
  }

  lemma {:induction false} BeforeAfterOfPrefix(p: string, sep: char, rest: string)
    requires sep !in p
    ensures Before(p + [sep] + rest, sep) == p
    ensures After(p + [sep] + rest, sep) == rest
  {
    var s := p + [sep] + rest;
    assert s[|p|] == sep;
    if p == [] {
      assert s[0] == sep;
    } else {
      assert s[0] == p[0] && s[1..] == p[1..] + [sep] + rest;
      BeforeAfterOfPrefix(p[1..], sep, rest);
    }
  }

  /** Laravel's `[A-Za-z0-9_]` word character, the `\w` of the placeholder patterns. */
  predicate IsWordChar(c: char)
  {
    ('a' <= c <= 'z') || ('A' <= c <= 'Z') || ('0' <= c <= '9') || c == '_'
  }

  /** Every character is a word character. */
  predicate WordChars(s: string)
  {
    forall i :: 0 <= i < |s| ==> IsWordChar(s[i])
  }

  /** A non-empty run of word characters: what `(\w+)` captures. */
  predicate IsWord(w: string)
  {
    |w| > 0 && WordChars(w)
  }

  /** The regular expression `^p\z` built by `Str::is`, where `*` becomes `.*` (matching any text, newlines included) and everything else is literal. */
  predicate Glob(p: string, v: string)
    decreases |p| + |v|
  {
    if p == [] then v == []
    else if p[0] == '*' then Glob(p[1..], v) || (v != [] && Glob(p, v[1..]))
    else v != [] && v[0] == p[0] && Glob(p[1..], v[1..])
  }

  /** `Str::is($pattern, $value)`: the two shortcuts, then the glob. */
  predicate StrIs(pattern: string, value: string)
  {
    pattern == "*" || pattern == value || Glob(pattern, value)
  }

  lemma {:induction false} GlobStarMatchesAll(v: string)
    ensures Glob("*", v)
    decreases |v|
  {
    if v != [] {
      GlobStarMatchesAll(v[1..]);
    }
  }

  /** For a wildcard-free pattern, `Str::is($p.'*', $v)` is a plain prefix test. */
  lemma {:induction false} StrIsPrefix(p: string, v: string)
    requires '*' !in p
    ensures StrIs(p + "*", v) <==> p <= v
  {
    GlobPrefix(p, v);
    if p + "*" == v {
      assert Glob(p + "*", v) by {
        GlobPrefix(p, v);
        assert v[..|p|] == p;
      }
    }
  }

  lemma {:induction false} GlobPrefix(p: string, v: string)
    requires '*' !in p
    ensures Glob(p + "*", v) <==> p <= v
    decreases |p|
  {
    if p == [] {
      assert p + "*" == "*";
      GlobStarMatchesAll(v);
    } else {
      assert (p + "*")[0] == p[0] && (p + "*")[1..] == p[1..] + "*";
      if v != [] {
        GlobPrefix(p[1..], v[1..]);
        assert p <= v <==> v[0] == p[0] && p[1..] <= v[1..];
      }
    }
  }

  /** `collect($patterns)->first(fn ($p) => Str::is($p.'*', $value))`: the first pattern that matches as a prefix glob. */
  function FirstMatch(patterns: seq<string>, value: string): (r: Option<string>)
    ensures r.None? <==> forall p :: p in patterns ==> !StrIs(p + "*", value)
    ensures r.Some? ==> r.value in patterns && StrIs(r.value + "*", value)
    ensures r.Some? ==> exists i ::
              0 <= i < |patterns| && patterns[i] == r.value && forall j :: 0 <= j < i ==> !StrIs(patterns[j] + "*", value)
  {
    if |patterns| == 0 then None
    else if StrIs(patterns[0] + "*", value) then Some(patterns[0])
    else
      var r := FirstMatch(patterns[1..], value);
      assert forall p :: p in patterns ==> p == patterns[0] || p in patterns[1..];
      assert r.Some? ==> exists i ::
               0 <= i < |patterns| && patterns[i] == r.value && forall j :: 0 <= j < i ==> !StrIs(patterns[j] + "*", value) by {
        if r.Some? {
          var i :|
            0 <= i < |patterns| - 1 && patterns[1..][i] == r.value && forall j :: 0 <= j < i ==> !StrIs(patterns[1..][j] + "*", value);
          assert patterns[i + 1] == r.value;
          forall j | 0 <= j < i + 1 ensures !StrIs(patterns[j] + "*", value) {
            if j > 0 {
              assert patterns[j] == patterns[1..][j - 1];
            }
          }
        }
      }
      r
  }

  predicate EndsWith(s: string, suffix: string)
  {
    |suffix| <= |s| && s[|s| - |suffix|..] == suffix
  }

  /** `basename` with a suffix: strips `suffix` when `s` ends with it. */
  function StripSuffix(s: string, suffix: string): (r: string)
    ensures EndsWith(s, suffix) ==> r + suffix == s
    ensures !EndsWith(s, suffix) ==> r == s
  {
    if EndsWith(s, suffix) then s[..|s| - |suffix|] else s
  }
}
