/**
 * Placeholder conversion between Laravel's `:name` and the `{name}` form
 * used in PO files. Both directions are written as the commands write them:
 * collect the placeholder names with a regular expression, then fold one
 * `str_replace` per name over the text. Each fold is related to a single
 * left-to-right pass that rewrites exactly the placeholders it meets.
 */
module Placeholders {
  import opened Strings

  /** The longest prefix of `s` made of word characters (what a greedy `\w+` takes). */
  function WordRun(s: string): (r: string)
    ensures r <= s
    ensures WordChars(r)
    ensures |r| < |s| ==> !IsWordChar(s[|r|])
    ensures |s| > 0 && IsWordChar(s[0]) ==> |r| > 0
  {
    if |s| > 0 && IsWordChar(s[0]) then [s[0]] + WordRun(s[1..]) else []
  }

  lemma {:induction false} WordRunOf(w: string, rest: string)
    requires WordChars(w)
    requires |rest| == 0 || !IsWordChar(rest[0])
    ensures WordRun(w + rest) == w
  {
    if |w| > 0 {
      assert (w + rest)[1..] == w[1..] + rest;
      WordRunOf(w[1..], rest);
    }
  }

  /** `str_replace($search, $replace, $s)`: leftmost, non-overlapping occurrences, scanning on after each replacement. */
  function Replace(s: string, search: string, replace: string): string
    requires |search| > 0
    decreases |s|
  {
    if search <= s then replace + Replace(s[|search|..], search, replace)
    else if |s| == 0 then []
    else [s[0]] + Replace(s[1..], search, replace)
  }

  /** Text that cannot start an occurrence of `search` is copied unchanged. */
  lemma {:induction false} ReplaceSkips(x: string, y: string, search: string, replace: string)
    requires |search| > 0 && search[0] !in x
    ensures Replace(x + y, search, replace) == x + Replace(y, search, replace)
  {
    if |x| > 0 {
      assert (x + y)[0] == x[0] && (x + y)[1..] == x[1..] + y;
      ReplaceSkips(x[1..], y, search, replace);
    } else {
      assert x + y == y;
    }
  }

  // ------------------------------------------------ `:name` to `{name}`

  /** A `:name` placeholder starts here. */
  predicate ColonAt(s: string)
  {
    |s| > 1 && s[0] == ':' && IsWordChar(s[1])
  }

  /** The names captured by `/\:(\w+)/`, left to right. */
  function ColonNames(s: string): seq<string>
    decreases |s|
  {
    if |s| == 0 then []
    else if ColonAt(s) then
      var w := WordRun(s[1..]);
      [w] + ColonNames(s[1 + |w|..])
    else ColonNames(s[1..])
  }

  /** The single pass: every `:name` whose name is in `names` becomes `{name}`, nothing else changes. */
  function ColonToBrace(s: string, names: set<string>): string
    decreases |s|
  {
    if |s| == 0 then []
    else if ColonAt(s) then
      var w := WordRun(s[1..]);
      (if w in names then "{" + w + "}" else ":" + w) + ColonToBrace(s[1 + |w|..], names)
    else [s[0]] + ColonToBrace(s[1..], names)
  }

  /** The `reduce` of `formatPlaceholdersAsPerlBrace`: one `str_replace(':'.$n, '{'.$n.'}')` per name. */
  function ReplaceEachColon(s: string, names: seq<string>): string
    decreases |names|
  {
    if |names| == 0 then s
    else ReplaceEachColon(Replace(s, ":" + names[0], "{" + names[0] + "}"), names[1..])
  }

  /** `formatPlaceholdersAsPerlBrace`. */
  function ToPerlBrace(s: string): string
  {
    ReplaceEachColon(s, ColonNames(s))
  }

  /** No captured name is a proper prefix of another (`:name` next to `:names` breaks this). */
  predicate PrefixFree(names: seq<string>)
  {
    forall i, j :: 0 <= i < |names| && 0 <= j < |names| && names[i] <= names[j] ==> names[i] == names[j]
  }

  function NameSet(names: seq<string>): set<string>
  {
    set n | n in names
  }

  lemma {:induction false} ColonNamesAreWords(s: string)
    ensures forall n :: n in ColonNames(s) ==> IsWord(n)
    decreases |s|
  {
    if |s| > 0 {
      if ColonAt(s) {
        ColonNamesAreWords(s[1 + |WordRun(s[1..])|..]);
      } else {
        ColonNamesAreWords(s[1..]);
      }
    }
  }

  /** The first character of the pass: `{` where a placeholder is converted, the input's first character otherwise. */
  lemma ColonToBraceHead(s: string, names: set<string>)
    requires |s| > 0
    ensures |ColonToBrace(s, names)| > 0
    ensures ColonToBrace(s, names)[0] == if ColonAt(s) && WordRun(s[1..]) in names then '{' else s[0]
  {
  }

  /** Both passes over one `:name` token. */
  lemma ColonToken(m: string, x: string, names: set<string>)
    requires IsWord(m) && (|x| == 0 || !IsWordChar(x[0]))
    ensures ColonNames(":" + m + x) == [m] + ColonNames(x)
    ensures ColonToBrace(":" + m + x, names) == (if m in names then "{" + m + "}" else ":" + m) + ColonToBrace(x, names)
  {
    var t := ":" + m + x;
    WordRunOf(m, x);
    assert t[1..] == m + x;
    assert ColonAt(t);
    assert t[1 + |m|..] == x;
  }

  /** Converting no names leaves the text as it is. */
  lemma {:induction false} ColonToBraceNothing(s: string)
    ensures ColonToBrace(s, {}) == s
    decreases |s|
  {
    if |s| > 0 {
      if ColonAt(s) {
        var w := WordRun(s[1..]);
        var rest := s[1 + |w|..];
        ColonToBraceNothing(rest);
        assert s[1..1 + |w|] == w;
        assert s == ":" + w + rest;
        ColonToken(w, rest, {});
      } else {
        ColonToBraceNothing(s[1..]);
      }
    }
  }

  /** A `str_replace` skips over an occurrence of its search text. */
  lemma ReplaceAtMatch(y: string, search: string, replace: string)
    requires |search| > 0
    ensures Replace(search + y, search, replace) == replace + Replace(y, search, replace)
  {
    assert (search + y)[|search|..] == y;
  }

  lemma PrefixCons(c: char, a: string, b: string)
    ensures [c] + a <= [c] + b <==> a <= b
  {
    if [c] + a <= [c] + b {
      assert a == ([c] + a)[1..] == ([c] + b)[1..|a| + 1] == b[..|a|];
    }
    if a <= b {
      assert [c] + a == ([c] + b)[..|a| + 1];
    }
  }

  /** A word that is not a prefix of `m` is not a prefix of `m` followed by a non-word character. */
  lemma NotPrefixPastWord(w: string, m: string, y: string)
    requires IsWord(w) && WordChars(m)
    requires !(w <= m) && (|y| == 0 || !IsWordChar(y[0]))
    ensures !(w <= m + y)
  {
    if |w| <= |m| {
      assert (m + y)[..|w|] == m[..|w|];
    } else if |y| > 0 {
      assert (m + y)[|m|] == y[0];
    }
  }

  lemma WordHasNo(m: string, c: char)
    requires WordChars(m)
    requires !IsWordChar(c)
    ensures c !in m
  {
  }

  /** Where the search text does not start, `str_replace` copies one character and moves on. */
  lemma ReplaceNoMatch(x: string, search: string, replace: string)
    requires |search| > 0 && |x| > 0 && !(search <= x)
    ensures Replace(x, search, replace) == [x[0]] + Replace(x[1..], search, replace)
  {
  }

  /**
   * A character that opens the search text, followed by text that does not
   * continue it, is copied together with any following text free of that
   * character.
   */
  lemma ReplaceKeepsHead(c: char, x: string, y: string, search: string, replace: string)
    requires |search| > 0 && search[0] == c && c !in x && !(search[1..] <= x + y)
    ensures Replace([c] + x + y, search, replace) == [c] + x + Replace(y, search, replace)
  {
    var s := [c] + x + y;
    assert search == [c] + search[1..] && s == [c] + (x + y);
    PrefixCons(c, search[1..], x + y);
    ReplaceNoMatch(s, search, replace);
    assert s[1..] == x + y;
    ReplaceSkips(x, y, search, replace);
  }

  /** One `str_replace` over a `:name` token, converted or not, and the converted text after it. */
  lemma ReplaceColonToken(m: string, y: string, names: set<string>, w: string)
    requires IsWord(w) && IsWord(m)
    requires m !in names && m != w ==> !(w <= m)
    requires |y| == 0 || !IsWordChar(y[0])
    ensures Replace((if m in names then "{" + m + "}" else ":" + m) + y, ":" + w, "{" + w + "}") ==
              (if m in names + {w} then "{" + m + "}" else ":" + m) + Replace(y, ":" + w, "{" + w + "}")
  {
    var search, replace := ":" + w, "{" + w + "}";
    if m in names {
      ReplaceSkips("{" + m + "}", y, search, replace);
    } else if m == w {
      ReplaceAtMatch(y, search, replace);
    } else {
      NotPrefixPastWord(w, m, y);
      WordHasNo(m, ':');
      assert search[1..] == w && ":" + m == [':'] + m;
      ReplaceKeepsHead(':', m, y, search, replace);
    }
  }

  /** One `str_replace` over a character that does not open a placeholder. */
  lemma ReplaceColonOther(s: string, names: set<string>, w: string)
    requires IsWord(w) && |s| > 0 && !ColonAt(s)
    ensures Replace([s[0]] + ColonToBrace(s[1..], names), ":" + w, "{" + w + "}") ==
              [s[0]] + Replace(ColonToBrace(s[1..], names), ":" + w, "{" + w + "}")
  {
    var search, replace := ":" + w, "{" + w + "}";
    var y := ColonToBrace(s[1..], names);
    if s[0] == ':' {
      if |s| > 1 {
        ColonToBraceHead(s[1..], names);
      }
      NotPrefixPastWord(w, "", y);
      assert "" + y == y && search[1..] == w;
      ReplaceKeepsHead(':', "", y, search, replace);
      assert [s[0]] + "" + y == [s[0]] + y;
    } else {
      ReplaceSkips([s[0]], y, search, replace);
    }
  }

  /**
   * One `str_replace` step of the reduce adds one name to the pass, as long
   * as that name is not a proper prefix of a placeholder still unconverted.
   */
  lemma {:induction false} ReplaceColonStep(s: string, names: set<string>, w: string)
    requires IsWord(w)
    requires forall m :: m in ColonNames(s) && m !in names && m != w ==> !(w <= m)
    ensures Replace(ColonToBrace(s, names), ":" + w, "{" + w + "}") == ColonToBrace(s, names + {w})
    decreases |s|
  {
    if |s| == 0 {
    } else if ColonAt(s) {
      var m := WordRun(s[1..]);
      var rest := s[1 + |m|..];
      ReplaceColonStep(rest, names, w);
      if |rest| > 0 {
        ColonToBraceHead(rest, names);
      }
      ReplaceColonToken(m, ColonToBrace(rest, names), names, w);
    } else {
      ReplaceColonStep(s[1..], names, w);
      ReplaceColonOther(s, names, w);
    }
  }

  /** The whole reduce adds its names to the pass, under the same proviso for each name. */
  lemma {:induction false} ReplaceEachColonSteps(s: string, names: set<string>, ns: seq<string>)
    requires forall n :: n in ns ==> IsWord(n) && forall m :: m in ColonNames(s) && m != n ==> !(n <= m)
    ensures ReplaceEachColon(ColonToBrace(s, names), ns) == ColonToBrace(s, names + NameSet(ns))
    decreases |ns|
  {
    if |ns| > 0 {
      var once := Replace(ColonToBrace(s, names), ":" + ns[0], "{" + ns[0] + "}");
      assert ReplaceEachColon(ColonToBrace(s, names), ns) == ReplaceEachColon(once, ns[1..]);
      ReplaceColonStep(s, names, ns[0]);
      assert once == ColonToBrace(s, names + {ns[0]});
      ReplaceEachColonSteps(s, names + {ns[0]}, ns[1..]);
      assert NameSet(ns) == {ns[0]} + NameSet(ns[1..]);
      assert names + {ns[0]} + NameSet(ns[1..]) == names + NameSet(ns);
    } else {
      assert names + NameSet(ns) == names;
    }
  }

  /**
   * With prefix-free names, `formatPlaceholdersAsPerlBrace` turns every
   * `:name` into `{name}` and leaves every other character as it was.
   */
  lemma ToPerlBraceConvertsEach(s: string)
    requires PrefixFree(ColonNames(s))
    ensures ToPerlBrace(s) == ColonToBrace(s, NameSet(ColonNames(s)))
  {
    var ns := ColonNames(s);
    ColonNamesAreWords(s);
    forall n | n in ns ensures forall m :: m in ns && m != n ==> !(n <= m) {
    }
    ReplaceEachColonSteps(s, {}, ns);
    ColonToBraceNothing(s);
    assert {} + NameSet(ns) == NameSet(ns);
  }

  /** Text with no `:` followed by a word character comes out unchanged. */
  lemma ToPerlBraceWithoutPlaceholders(s: string)
    requires ColonNames(s) == []
    ensures ToPerlBrace(s) == s
  {
  }

  /**
   * The as-written reduce rewrites the `:a` prefix of a later `:ab`: the
   * first `str_replace` already turns `:ab` into `{a}b`, so the text
   * differs from the one-pass conversion.
   */
  lemma ToPerlBracePrefixCollision()
    ensures ColonNames(":a:ab") == ["a", "ab"]
    ensures ToPerlBrace(":a:ab") == "{a}{a}b"
    ensures ColonToBrace(":a:ab", {"a", "ab"}) == "{a}{ab}"
  {
    CollisionNames();
    CollisionPass();
    CollisionFirstReplace();
    CollisionReduce();
    CollisionSecondReplace();
  }

  /** The reduce over `["a", "ab"]` starts with the `:a` replacement. */
  lemma CollisionReduce()
    ensures ReplaceEachColon(":a:ab", ["a", "ab"]) == ReplaceEachColon(Replace(":a:ab", ":a", "{a}"), ["ab"])
  {
    var names := ["a", "ab"];
    assert ":" + names[0] == ":a" && "{" + names[0] + "}" == "{a}" && names[1..] == ["ab"];
  }

  /** The second replacement of the reduce finds no `:ab` left. */
  lemma CollisionSecondReplace()
    ensures ReplaceEachColon("{a}{a}b", ["ab"]) == "{a}{a}b"
  {
    ReplaceEachColonAbsent("{a}{a}b", "ab");
  }

  /** A replacement whose `:name` cannot occur changes nothing. */
  lemma ReplaceEachColonAbsent(s: string, n: string)
    requires ':' !in s
    ensures ReplaceEachColon(s, [n]) == s
  {
    ReplaceSkips(s, "", ":" + n, "{" + n + "}");
    assert s + "" == s;
  }

  lemma CollisionNames()
    ensures ColonNames(":a:ab") == ["a", "ab"]
  {
    var second := ":ab";
    ColonToken("ab", "", {});
    assert ":" + "ab" + "" == second;
    ColonToken("a", second, {});
    assert ":" + "a" + second == ":a:ab";
  }

  lemma CollisionPass()
    ensures ColonToBrace(":a:ab", {"a", "ab"}) == "{a}{ab}"
  {
    var names := {"a", "ab"};
    assert "a" in names && "ab" in names;
    var second := ":ab";
    ColonToken("ab", "", names);
    assert ":" + "ab" + "" == second;
    assert ColonToBrace(second, names) == "{ab}" by {
      assert "{" + "ab" + "}" + "" == "{ab}";
    }
    ColonToken("a", second, names);
    assert ":" + "a" + second == ":a:ab";
    assert "{" + "a" + "}" + "{ab}" == "{a}{ab}";
  }

  lemma CollisionFirstReplace()
    ensures Replace(":a:ab", ":a", "{a}") == "{a}{a}b"
  {
    ReplaceSkips("b", "", ":a", "{a}");
    assert "b" + "" == "b";
    ReplaceAtMatch("b", ":a", "{a}");
    assert ":a" + "b" == ":ab";
    ReplaceAtMatch(":ab", ":a", "{a}");
    assert ":a" + ":ab" == ":a:ab";
  }

  // ------------------------------------------------ `{name}` to `:name`

  /** A `{name}` placeholder starts here. */
  predicate BraceAt(s: string)
  {
    |s| > 1 && s[0] == '{' && IsWordChar(s[1]) &&
    1 + |WordRun(s[1..])| < |s| && s[1 + |WordRun(s[1..])|] == '}'
  }

  /** The names captured by `/{(\w+)}/`, left to right. */
  function BraceNames(s: string): seq<string>
    decreases |s|
  {
    if |s| == 0 then []
    else if BraceAt(s) then
      var w := WordRun(s[1..]);
      [w] + BraceNames(s[2 + |w|..])
    else BraceNames(s[1..])
  }

  /** The single pass: every `{name}` whose name is in `names` becomes `:name`, nothing else changes. */
  function BraceToColon(s: string, names: set<string>): string
    decreases |s|
  {
    if |s| == 0 then []
    else if BraceAt(s) then
      var w := WordRun(s[1..]);
      (if w in names then ":" + w else "{" + w + "}") + BraceToColon(s[2 + |w|..], names)
    else [s[0]] + BraceToColon(s[1..], names)
  }

  /** The `reduce` of `formatPlaceholdersFromPerlBrace`: one `str_replace('{'.$n.'}', ':'.$n)` per name. */
  function ReplaceEachBrace(s: string, names: seq<string>): string
    decreases |names|
  {
    if |names| == 0 then s
    else ReplaceEachBrace(Replace(s, "{" + names[0] + "}", ":" + names[0]), names[1..])
  }

  /** `formatPlaceholdersFromPerlBrace`. */
  function FromPerlBrace(s: string): string
  {
    ReplaceEachBrace(s, BraceNames(s))
  }

  lemma {:induction false} BraceNamesAreWords(s: string)
    ensures forall n :: n in BraceNames(s) ==> IsWord(n)
    decreases |s|
  {
    if |s| > 0 {
      if BraceAt(s) {
        BraceNamesAreWords(s[2 + |WordRun(s[1..])|..]);
      } else {
        BraceNamesAreWords(s[1..]);
      }
    }
  }

  lemma BraceToColonHead(s: string, names: set<string>)
    requires |s| > 0
    ensures |BraceToColon(s, names)| > 0
    ensures BraceToColon(s, names)[0] == if BraceAt(s) && WordRun(s[1..]) in names then ':' else s[0]
  {
  }

  /** Text without `{` passes through the pass unchanged and yields no names. */
  lemma {:induction false} BraceToColonSkips(x: string, y: string, names: set<string>)
    requires '{' !in x
    ensures BraceToColon(x + y, names) == x + BraceToColon(y, names)
    ensures BraceNames(x + y) == BraceNames(y)
  {
    if |x| > 0 {
      var t := x + y;
      assert t[0] == x[0] && t[1..] == x[1..] + y;
      assert !BraceAt(t);
      BraceToColonSkips(x[1..], y, names);
      assert [x[0]] + x[1..] == x;
      ConcatAssoc([], [x[0]], x[1..], BraceToColon(y, names));
    } else {
      assert x + y == y;
    }
  }

  /** Leading word characters are copied as they are. */
  lemma {:induction false} BraceToColonWordRun(t: string, names: set<string>)
    ensures BraceToColon(t, names) == WordRun(t) + BraceToColon(t[|WordRun(t)|..], names)
  {
    if |t| > 0 && IsWordChar(t[0]) {
      var r' := WordRun(t[1..]);
      assert WordRun(t) == [t[0]] + r';
      assert !BraceAt(t);
      assert BraceToColon(t, names) == [t[0]] + BraceToColon(t[1..], names);
      BraceToColonWordRun(t[1..], names);
      assert t[1..][|r'|..] == t[1 + |r'|..];
    }
  }

  /** Where `{` does not open a placeholder, what follows it cannot complete a `{name}` search string. */
  lemma BraceNotOpened(s: string, names: set<string>, w: string)
    requires |s| > 0 && s[0] == '{' && !BraceAt(s) && IsWord(w)
    ensures !(w + "}" <= BraceToColon(s[1..], names))
  {
    var t := s[1..];
    var r := WordRun(t);
    var z := BraceToColon(t[|r|..], names);
    BraceToColonWordRun(t, names);
    if |w| < |r| {
      assert (r + z)[|w|] == r[|w|];
      assert (w + "}")[|w|] == '}';
    } else if |z| > 0 {
      BraceToColonHead(t[|r|..], names);
      assert s[1 + |r|] == t[|r|];
      assert (r + z)[|r|] == z[0];
      assert (w + "}")[|r|] == if |w| == |r| then '}' else w[|r|];
    }
  }

  /** A `{name}` search text cannot start at a token with another name. */
  lemma NotPrefixOtherToken(w: string, m: string, y: string)
    requires IsWord(w) && WordChars(m) && w != m
    ensures !(w + "}" <= m + "}" + y)
  {
    var x := m + "}" + y;
    if |w| == |m| {
      assert x[..|w|] == m;
    } else if |w| < |m| {
      assert x[|w|] == m[|w|] && (w + "}")[|w|] == '}';
    } else {
      assert x[|m|] == '}' && (w + "}")[|m|] == w[|m|];
    }
  }

  /** One `str_replace` over a `{name}` token, converted or not, and the converted text after it. */
  lemma ReplaceBraceToken(m: string, y: string, names: set<string>, w: string)
    requires IsWord(w) && IsWord(m)
    ensures Replace((if m in names then ":" + m else "{" + m + "}") + y, "{" + w + "}", ":" + w) ==
              (if m in names + {w} then ":" + m else "{" + m + "}") + Replace(y, "{" + w + "}", ":" + w)
  {
    var search, replace := "{" + w + "}", ":" + w;
    if m in names {
      ReplaceSkips(":" + m, y, search, replace);
    } else if m == w {
      ReplaceAtMatch(y, search, replace);
    } else {
      NotPrefixOtherToken(w, m, y);
      WordHasNo(m, '{');
      assert search[1..] == w + "}" && "{" + m + "}" == ['{'] + (m + "}");
      ReplaceKeepsHead('{', m + "}", y, search, replace);
    }
  }

  /** One `str_replace` over a character that does not open a placeholder. */
  lemma ReplaceBraceOther(s: string, names: set<string>, w: string)
    requires IsWord(w) && |s| > 0 && !BraceAt(s)
    ensures Replace([s[0]] + BraceToColon(s[1..], names), "{" + w + "}", ":" + w) ==
              [s[0]] + Replace(BraceToColon(s[1..], names), "{" + w + "}", ":" + w)
  {
    var search, replace := "{" + w + "}", ":" + w;
    var y := BraceToColon(s[1..], names);
    if s[0] == '{' {
      BraceNotOpened(s, names, w);
      assert "" + y == y && search[1..] == w + "}";
      ReplaceKeepsHead('{', "", y, search, replace);
      assert [s[0]] + "" + y == [s[0]] + y;
    } else {
      ReplaceSkips([s[0]], y, search, replace);
    }
  }

  /** One `str_replace` step of the reduce adds one name to the pass; `{name}` tokens cannot collide. */
  lemma {:induction false} ReplaceBraceStep(s: string, names: set<string>, w: string)
    requires IsWord(w)
    ensures Replace(BraceToColon(s, names), "{" + w + "}", ":" + w) == BraceToColon(s, names + {w})
    decreases |s|
  {
    if |s| == 0 {
    } else if BraceAt(s) {
      var m := WordRun(s[1..]);
      ReplaceBraceStep(s[2 + |m|..], names, w);
      ReplaceBraceToken(m, BraceToColon(s[2 + |m|..], names), names, w);
    } else {
      ReplaceBraceStep(s[1..], names, w);
      ReplaceBraceOther(s, names, w);
    }
  }

  lemma {:induction false} ReplaceEachBraceSteps(s: string, names: set<string>, ns: seq<string>)
    requires forall n :: n in ns ==> IsWord(n)
    ensures ReplaceEachBrace(BraceToColon(s, names), ns) == BraceToColon(s, names + NameSet(ns))
    decreases |ns|
  {
    if |ns| > 0 {
      var once := Replace(BraceToColon(s, names), "{" + ns[0] + "}", ":" + ns[0]);
      assert ReplaceEachBrace(BraceToColon(s, names), ns) == ReplaceEachBrace(once, ns[1..]);
      ReplaceBraceStep(s, names, ns[0]);
      ReplaceEachBraceSteps(s, names + {ns[0]}, ns[1..]);
      assert NameSet(ns) == {ns[0]} + NameSet(ns[1..]);
      assert names + {ns[0]} + NameSet(ns[1..]) == names + NameSet(ns);
    } else {
      assert names + NameSet(ns) == names;
    }
  }

  /** A `{name}` placeholder is its name in braces, followed by the rest of the text. */
  lemma BraceTokenSplit(s: string)
    requires BraceAt(s)
    ensures s == "{" + WordRun(s[1..]) + "}" + s[2 + |WordRun(s[1..])|..]
  {
    var w := WordRun(s[1..]);
    assert s[1..1 + |w|] == w;
    assert s == [s[0]] + s[1..1 + |w|] + [s[1 + |w|]] + s[2 + |w|..];
  }

  lemma {:induction false} BraceToColonNothing(s: string)
    ensures BraceToColon(s, {}) == s
    decreases |s|
  {
    if |s| > 0 {
      if BraceAt(s) {
        var w := WordRun(s[1..]);
        BraceToColonNothing(s[2 + |w|..]);
        BraceTokenSplit(s);
      } else {
        BraceToColonNothing(s[1..]);
      }
    }
  }

  /**
   * `formatPlaceholdersFromPerlBrace` turns every `{name}` into `:name` and
   * leaves all other text, other brace text included, as it was.
   */
  lemma FromPerlBraceConvertsEach(s: string)
    ensures FromPerlBrace(s) == BraceToColon(s, NameSet(BraceNames(s)))
  {
    BraceNamesAreWords(s);
    ReplaceEachBraceSteps(s, {}, BraceNames(s));
    BraceToColonNothing(s);
    assert {} + NameSet(BraceNames(s)) == NameSet(BraceNames(s));
  }

  // ------------------------------------------------------------ round trip

  /** The brace pass over one `{name}` token. */
  lemma BraceToColonOfToken(m: string, x: string, back: set<string>)
    requires IsWord(m)
    ensures BraceToColon("{" + m + "}" + x, back) ==
      (if m in back then ":" + m else "{" + m + "}") + BraceToColon(x, back)
    ensures BraceNames("{" + m + "}" + x) == [m] + BraceNames(x)
  {
    var t := "{" + m + "}" + x;
    WordRunOf(m, "}" + x);
    assert t[1..] == m + ("}" + x);
    assert t[1 + |m|] == '}';
    assert BraceAt(t);
    assert t[2 + |m|..] == x;
  }

  lemma NameSetCons(m: string, names: seq<string>)
    ensures NameSet([m] + names) == {m} + NameSet(names)
  {
  }

  /** Undoing a conversion: on text without `{`, the brace pass over the colon pass subtracts name sets. */
  lemma {:induction false} BraceToColonOfColonToBrace(s: string, converted: set<string>, back: set<string>)
    requires '{' !in s
    ensures BraceToColon(ColonToBrace(s, converted), back) == ColonToBrace(s, converted - back)
    ensures NameSet(BraceNames(ColonToBrace(s, converted))) == NameSet(ColonNames(s)) * converted
    decreases |s|
  {
    if |s| > 0 {
      if ColonAt(s) {
        var m := WordRun(s[1..]);
        var rest := s[1 + |m|..];
        assert '{' !in rest by {
          assert forall i :: 0 <= i < |rest| ==> rest[i] == s[1 + |m| + i];
        }
        var x := ColonToBrace(rest, converted);
        BraceToColonOfColonToBrace(rest, converted, back);
        assert ColonNames(s) == [m] + ColonNames(rest);
        NameSetCons(m, ColonNames(rest));
        if m in converted {
          assert ColonToBrace(s, converted) == "{" + m + "}" + x;
          BraceToColonOfToken(m, x, back);
          NameSetCons(m, BraceNames(x));
        } else {
          assert ColonToBrace(s, converted) == ":" + m + x;
          WordHasNo(m, '{');
          BraceToColonSkips(":" + m, x, back);
        }
      } else {
        var x := ColonToBrace(s[1..], converted);
        assert '{' !in s[1..] by {
          assert forall i :: 0 <= i < |s[1..]| ==> s[1..][i] == s[1 + i];
        }
        BraceToColonOfColonToBrace(s[1..], converted, back);
        BraceToColonSkips([s[0]], x, back);
      }
    }
  }

  /**
   * Export then import gives back the original text when it has no `{` and
   * no placeholder name is a prefix of another.
   */
  lemma PerlBraceRoundTrip(s: string)
    requires '{' !in s && PrefixFree(ColonNames(s))
    ensures FromPerlBrace(ToPerlBrace(s)) == s
  {
    var all := NameSet(ColonNames(s));
    ToPerlBraceConvertsEach(s);
    var x := ToPerlBrace(s);
    BraceToColonOfColonToBrace(s, all, all);
    FromPerlBraceConvertsEach(x);
    assert all * all == all && all - all == {};
    ColonToBraceNothing(s);
  }
}
