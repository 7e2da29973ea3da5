/** The two PHP string built-ins the formatter relies on: `str_contains` and
    the array form of `strtr`. */
module PhpString {

  /** `str_contains($haystack, $needle)`: `needle` occurs somewhere in `haystack`. */
  predicate Contains(haystack: string, needle: string)
    decreases |haystack|
  {
    (|needle| <= |haystack| && haystack[..|needle|] == needle)
    || (|haystack| > 0 && Contains(haystack[1..], needle))
  }

  /** An occurrence splits the haystack around the needle. */
  lemma {:induction false} ContainsSplit(haystack: string, needle: string) returns (a: string, b: string)
    requires Contains(haystack, needle)
    ensures haystack == a + needle + b
    decreases |haystack|
  {
    if |needle| <= |haystack| && haystack[..|needle|] == needle {
      a, b := [], haystack[|needle|..];
    } else {
      var a', b' := ContainsSplit(haystack[1..], needle);
      a, b := [haystack[0]] + a', b';
      assert haystack == [haystack[0]] + haystack[1..];
    }
  }

  /** `Contains` holds exactly for the infixes. */
  lemma ContainsIffInfix(haystack: string, needle: string)
    ensures Contains(haystack, needle) <==> exists a, b :: haystack == a + needle + b
  {
    if Contains(haystack, needle) {
      var a, b := ContainsSplit(haystack, needle);
    }
    if exists a, b :: haystack == a + needle + b {
      var a, b :| haystack == a + needle + b;
      ContainsInfix(a, needle, b);
    }
  }

  lemma {:induction false} ContainsInfix(a: string, p: string, b: string)
    ensures Contains(a + p + b, p)
    decreases |a|
  {
    if a != [] {
      ContainsInfix(a[1..], p, b);
      assert (a + p + b)[1..] == a[1..] + p + b;
    } else {
      assert (a + p + b)[..|p|] == p;
    }
  }

  /** The length of the longest non-empty key of `pairs` that is a prefix of
      `s[..n]`, or 0 when there is none. The empty key never matches. */
  function LongestKey(s: string, pairs: map<string, string>, n: nat): (m: nat)
    requires n <= |s|
    ensures m <= n
    ensures m > 0 ==> s[..m] in pairs
    decreases n
  {
    if n == 0 then 0 else if s[..n] in pairs then n else LongestKey(s, pairs, n - 1)
  }

  /** No key longer than the one `LongestKey` finds is a prefix of `s[..n]`. */
  lemma {:induction false} LongestKeyIsLongest(s: string, pairs: map<string, string>, n: nat, k: nat)
    requires n <= |s| && LongestKey(s, pairs, n) < k <= n
    ensures s[..k] !in pairs
    decreases n
  {
    if s[..n] !in pairs && k < n {
      LongestKeyIsLongest(s, pairs, n - 1, k);
    }
  }

  /** `strtr($s, $pairs)`: one left-to-right scan; at each position the longest
      key that starts there is replaced by its value and the scan resumes after
      the key, so replacement text is never scanned again; where no key starts,
      the character is copied. */
  function Strtr(s: string, pairs: map<string, string>): (r: string)
    ensures pairs == map[] ==> r == s
    decreases |s|
  {
    if s == [] then []
    else
      var m := LongestKey(s, pairs, |s|);
      if m == 0 then [s[0]] + Strtr(s[1..], pairs)
      else pairs[s[..m]] + Strtr(s[m..], pairs)
  }

  predicate BraceFree(k: string)
  {
    forall i :: 0 <= i < |k| ==> k[i] != '{' && k[i] != '}'
  }

  /** The placeholder `{key}` of section 1.2 of PSR-3. */
  function Placeholder(key: string): (p: string)
    ensures |p| == |key| + 2 && p[0] == '{' && p[|p| - 1] == '}' && p[1..|p| - 1] == key
  {
    "{" + key + "}"
  }

  /** `p` is a placeholder whose name has no braces. */
  predicate IsPlaceholder(p: string)
  {
    |p| >= 2 && p[0] == '{' && p[|p| - 1] == '}' && BraceFree(p[1..|p| - 1])
  }

  /** Every key of `pairs` is a placeholder whose name has no braces. */
  predicate PlaceholderKeys(pairs: map<string, string>)
  {
    forall p {:trigger IsPlaceholder(p)} :: p in pairs ==> IsPlaceholder(p)
  }

  /** Below the longest match nothing changes when the text beyond the match is cut. */
  lemma {:induction false} LongestKeyCut(s: string, pairs: map<string, string>, n: nat, j: nat)
    requires j <= n <= |s|
    requires forall k :: j < k <= n ==> s[..k] !in pairs
    ensures LongestKey(s, pairs, n) == LongestKey(s, pairs, j)
    decreases n
  {
    if n > j {
      LongestKeyCut(s, pairs, n - 1, j);
    }
  }

  /** The longest match only looks at the first `n` characters. */
  lemma {:induction false} LongestKeyPrefix(s: string, t: string, pairs: map<string, string>, n: nat)
    requires n <= |s| && n <= |t| && s[..n] == t[..n]
    ensures LongestKey(s, pairs, n) == LongestKey(t, pairs, n)
    decreases n
  {
    if n > 0 {
      assert s[..n - 1] == s[..n][..n - 1] && t[..n - 1] == t[..n][..n - 1];
      LongestKeyPrefix(s, t, pairs, n - 1);
    }
  }

  /** A placeholder key matching at position 0 ends at the first closing brace. */
  lemma PlaceholderMatchEnds(s: string, pairs: map<string, string>, m: nat, j: nat)
    requires PlaceholderKeys(pairs)
    requires 0 < m <= |s| && s[..m] in pairs
    requires 0 < j < m && (s[j] == '{' || s[j] == '}')
    ensures j == m - 1 && s[j] == '}'
  {
    var p := s[..m];
    assert IsPlaceholder(p);
    assert p[j] == s[j];
  }

  /** With placeholder keys, the longest match at the start of `a + b` lies
      inside `a` when `b` starts with `{`. */
  lemma LongestKeyBeforeBrace(a: string, b: string, pairs: map<string, string>)
    requires PlaceholderKeys(pairs)
    requires a != [] && (b == [] || b[0] == '{')
    ensures LongestKey(a + b, pairs, |a + b|) == LongestKey(a, pairs, |a|)
  {
    var s := a + b;
    var m := LongestKey(s, pairs, |s|);
    if m > |a| {
      assert s[|a|] == '{';
      PlaceholderMatchEnds(s, pairs, m, |a|);
      assert false;
    }
    forall k | |a| < k <= |s| ensures s[..k] !in pairs {
      if s[..k] in pairs {
        assert s[k - 1] == s[..k][k - 1];
        PlaceholderMatchEnds(s, pairs, k, |a|);
      }
    }
    LongestKeyCut(s, pairs, |s|, |a|);
    assert s[..|a|] == a[..|a|];
    LongestKeyPrefix(s, a, pairs, |a|);
  }

  /** Where no key starts, the scan copies one character and goes on. */
  lemma ScanCopies(c: char, t: string, pairs: map<string, string>)
    requires LongestKey([c] + t, pairs, |t| + 1) == 0
    ensures Strtr([c] + t, pairs) == [c] + Strtr(t, pairs)
  {
    assert ([c] + t)[1..] == t;
  }

  lemma ConcatAssoc(x: string, y: string, z: string)
    ensures x + (y + z) == (x + y) + z
  {
  }

  lemma EmptyPrefix(a: string, b: string, pairs: map<string, string>)
    requires a == []
    ensures Strtr(a + b, pairs) == Strtr(a, pairs) + Strtr(b, pairs)
  {
    assert a + b == b;
    assert Strtr(a, pairs) + Strtr(b, pairs) == Strtr(b, pairs);
  }

  lemma HeadTail(a: string, b: string)
    requires a != []
    ensures a == [a[0]] + a[1..] && a + b == [a[0]] + (a[1..] + b)
  {
  }

  /** One step of the scan of `a + b` that copies a character of `a`. */
  lemma ScanCopyStep(a: string, b: string, pairs: map<string, string>)
    requires a != [] && LongestKey(a, pairs, |a|) == 0
    requires LongestKey(a + b, pairs, |a + b|) == 0
    requires Strtr(a[1..] + b, pairs) == Strtr(a[1..], pairs) + Strtr(b, pairs)
    ensures Strtr(a + b, pairs) == Strtr(a, pairs) + Strtr(b, pairs)
  {
    HeadTail(a, b);
    ScanCopies(a[0], a[1..], pairs);
    ScanCopies(a[0], a[1..] + b, pairs);
    ConcatAssoc([a[0]], Strtr(a[1..], pairs), Strtr(b, pairs));
  }

  /** One step of the scan of `a + b` that replaces a key lying inside `a`. */
  lemma ScanReplaceStep(a: string, b: string, pairs: map<string, string>, m: nat)
    requires 0 < m <= |a| && LongestKey(a, pairs, |a|) == m
    requires LongestKey(a + b, pairs, |a + b|) == m
    requires Strtr(a[m..] + b, pairs) == Strtr(a[m..], pairs) + Strtr(b, pairs)
    ensures Strtr(a + b, pairs) == Strtr(a, pairs) + Strtr(b, pairs)
  {
    assert (a + b)[..m] == a[..m];
    assert (a + b)[m..] == a[m..] + b;
  }

  /** With placeholder keys, no match runs across an opening brace, so the scan
      of `a + b` is the scan of `a` followed by the scan of `b` whenever `b`
      starts with `{`. */
  lemma {:induction false} ScanSplitsBeforeBrace(a: string, b: string, pairs: map<string, string>)
    requires PlaceholderKeys(pairs)
    requires b == [] || b[0] == '{'
    ensures Strtr(a + b, pairs) == Strtr(a, pairs) + Strtr(b, pairs)
    decreases |a|
  {
    if a == [] {
      EmptyPrefix(a, b, pairs);
    } else {
      LongestKeyBeforeBrace(a, b, pairs);
      var m := LongestKey(a, pairs, |a|);
      if m == 0 {
        ScanSplitsBeforeBrace(a[1..], b, pairs);
        ScanCopyStep(a, b, pairs);
      } else {
        ScanSplitsBeforeBrace(a[m..], b, pairs);
        ScanReplaceStep(a, b, pairs, m);
      }
    }
  }

  /** Where the longest key has length `m`, the scan emits its value and goes on after it. */
  lemma ScanReplaces(s: string, pairs: map<string, string>, m: nat)
    requires 0 < m <= |s| && LongestKey(s, pairs, |s|) == m
    ensures Strtr(s, pairs) == pairs[s[..m]] + Strtr(s[m..], pairs)
  {
  }

  /** A placeholder key found at the start of `s` opens with `{` and closes with `}`. */
  lemma KeyShape(s: string, pairs: map<string, string>, m: nat)
    requires PlaceholderKeys(pairs)
    requires 0 < m <= |s| && s[..m] in pairs
    ensures m >= 2 && s[0] == '{' && s[m - 1] == '}'
  {
    assert IsPlaceholder(s[..m]);
    assert s[..m][0] == s[0] && s[..m][m - 1] == s[m - 1];
  }

  /** With placeholder keys, no key starts at a character other than `{`. */
  lemma NoKeyWithoutBrace(s: string, pairs: map<string, string>)
    requires PlaceholderKeys(pairs)
    requires s != [] && s[0] != '{'
    ensures LongestKey(s, pairs, |s|) == 0
  {
    var m := LongestKey(s, pairs, |s|);
    if m > 0 {
      KeyShape(s, pairs, m);
      assert false;
    }
  }

  /** Text without an opening brace is copied unchanged by the scan. */
  lemma {:induction false} ScanCopiesText(c: string, rest: string, pairs: map<string, string>)
    requires PlaceholderKeys(pairs)
    requires '{' !in c
    ensures Strtr(c + rest, pairs) == c + Strtr(rest, pairs)
    decreases |c|
  {
    if c == [] {
      assert c + rest == rest;
    } else {
      HeadTail(c, rest);
      NoKeyWithoutBrace(c + rest, pairs);
      ScanCopies(c[0], c[1..] + rest, pairs);
      ScanCopiesText(c[1..], rest, pairs);
      ConcatAssoc([c[0]], c[1..], Strtr(rest, pairs));
    }
  }

  /** A placeholder that is a key matches exactly itself at its position. */
  lemma PlaceholderIsLongestKey(k: string, b: string, pairs: map<string, string>)
    requires PlaceholderKeys(pairs) && BraceFree(k) && Placeholder(k) in pairs
    ensures LongestKey(Placeholder(k) + b, pairs, |Placeholder(k) + b|) == |Placeholder(k)|
  {
    var p, s := Placeholder(k), Placeholder(k) + b;
    var m := LongestKey(s, pairs, |s|);
    assert s[..|p|] == p;
    if m < |p| {
      LongestKeyIsLongest(s, pairs, |s|, |p|);
    }
    if m > |p| {
      assert s[|p| - 1] == p[|p| - 1];
      PlaceholderMatchEnds(s, pairs, m, |p| - 1);
    }
  }

  /** A placeholder that is a key is replaced by its value, and the scan
      resumes right after it. */
  lemma PlaceholderReplaced(k: string, b: string, pairs: map<string, string>)
    requires PlaceholderKeys(pairs) && BraceFree(k) && Placeholder(k) in pairs
    ensures Strtr(Placeholder(k) + b, pairs) == pairs[Placeholder(k)] + Strtr(b, pairs)
  {
    var p, s := Placeholder(k), Placeholder(k) + b;
    PlaceholderIsLongestKey(k, b, pairs);
    ScanReplaces(s, pairs, |p|);
    assert s[..|p|] == p && s[|p|..] == b;
  }

  /** A placeholder that is not a key matches nothing at its position. */
  lemma UnknownPlaceholderUnmatched(k: string, b: string, pairs: map<string, string>)
    requires PlaceholderKeys(pairs) && BraceFree(k) && Placeholder(k) !in pairs
    ensures LongestKey(Placeholder(k) + b, pairs, |Placeholder(k) + b|) == 0
  {
    var p, s := Placeholder(k), Placeholder(k) + b;
    var m := LongestKey(s, pairs, |s|);
    if 0 < m < |p| {
      KeyShape(s, pairs, m);
      assert false;
    } else if m > |p| {
      assert s[|p| - 1] == p[|p| - 1];
      PlaceholderMatchEnds(s, pairs, m, |p| - 1);
    }
  }

  /** A placeholder that is not a key stays in the text literally. */
  lemma UnknownPlaceholderKept(k: string, b: string, pairs: map<string, string>)
    requires PlaceholderKeys(pairs) && BraceFree(k) && Placeholder(k) !in pairs
    ensures Strtr(Placeholder(k) + b, pairs) == Placeholder(k) + Strtr(b, pairs)
  {
    var p := Placeholder(k);
    var tail := k + "}";
    assert p + b == [p[0]] + (tail + b);
    UnknownPlaceholderUnmatched(k, b, pairs);
    ScanCopies(p[0], tail + b, pairs);
    assert '{' !in tail;
    ScanCopiesText(tail, b, pairs);
    ConcatAssoc([p[0]], tail, Strtr(b, pairs));
  }

  /** Every occurrence of a placeholder that is a key is replaced by its value;
      the text before and after it is scanned on its own, and the inserted
      value is not scanned again. */
  lemma PlaceholderOccurrenceReplaced(a: string, k: string, b: string, pairs: map<string, string>)
    requires PlaceholderKeys(pairs) && BraceFree(k) && Placeholder(k) in pairs
    ensures Strtr(a + Placeholder(k) + b, pairs) == Strtr(a, pairs) + pairs[Placeholder(k)] + Strtr(b, pairs)
  {
    var p := Placeholder(k);
    ConcatAssoc(a, p, b);
    ScanSplitsBeforeBrace(a, p + b, pairs);
    PlaceholderReplaced(k, b, pairs);
    ConcatAssoc(Strtr(a, pairs), pairs[p], Strtr(b, pairs));
  }
}
