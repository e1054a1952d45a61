/**
 * String and path rules the gallery relies on: ASCII case folding
 * (`toLowerCase`), Node's POSIX `path.extname`, and the case-insensitive
 * anchored suffix replacement done by `name.replace(/\.heic$/i, '.jpg')`.
 */
module Paths {

  /** Case folding of one character; only ASCII letters change. */
  function LowerChar(c: char): char {
    if 'A' <= c <= 'Z' then (c as int + 32) as char else c
  }

  /** `s.toLowerCase()` on the ASCII range. */
  function Lower(s: string): (r: string)
    ensures |r| == |s|
  {
    seq(|s|, i requires 0 <= i < |s| => LowerChar(s[i]))
  }

  /** The test `/<suffix>$/i.test(s)` for a literal suffix. */
  predicate EndsWithCi(s: string, suffix: string) {
    |suffix| <= |s| && Lower(s[|s| - |suffix|..]) == Lower(suffix)
  }

  /** `s.replace(/<suffix>$/i, repl)`: the anchored pattern can match only at the end. */
  function ReplaceSuffixCi(s: string, suffix: string, repl: string): string {
    if EndsWithCi(s, suffix) then s[..|s| - |suffix|] + repl else s
  }

  /** The length of `p[..n]` once its trailing '/' characters are dropped. */
  function NameEnd(p: string, n: nat): (m: nat)
    requires n <= |p|
    ensures m <= n
  {
    if n > 0 && p[n - 1] == '/' then NameEnd(p, n - 1) else n
  }

  /** Where the last component of `p[..n]` starts: just after its last '/', or 0. */
  function NameStart(p: string, n: nat): (k: nat)
    requires n <= |p|
    ensures k <= n
  {
    if n == 0 || p[n - 1] == '/' then n else NameStart(p, n - 1)
  }

  /** The index of the last '.' in `p[lo..n]`, or `lo - 1` when there is none. */
  function LastDotIn(p: string, lo: nat, n: nat): (r: int)
    requires lo <= n <= |p|
    ensures lo - 1 <= r < n
    ensures r >= lo ==> p[r] == '.'
  {
    if n == lo then lo - 1
    else if p[n - 1] == '.' then n - 1
    else LastDotIn(p, lo, n - 1)
  }

  /**
   * The extension of the last component of `p[..n]`: from its last '.' on;
   * "" when that '.' is its first character (a hidden file), when it has no
   * '.', and for "..".
   */
  function ExtOfName(p: string, n: nat): string
    requires n <= |p|
  {
    var start := NameStart(p, n);
    var dot := LastDotIn(p, start, n);
    if (n - start == 2 && p[start] == '.' && p[start + 1] == '.') || dot <= start then "" else p[dot..n]
  }

  /** Node's POSIX `path.extname(p)`: trailing slashes are ignored. */
  function Extname(p: string): string {
    ExtOfName(p, NameEnd(p, |p|))
  }

  /** `path.extname(p).toLowerCase() === e`. */
  predicate HasExt(p: string, e: string) {
    Lower(Extname(p)) == e
  }

  /** The name ends in a '/'. */
  predicate EndsInSlash(s: string) {
    |s| > 0 && s[|s| - 1] == '/'
  }

  /** An extension constant such as ".heic": a dot, then no dot and no '/', in lower case. */
  predicate ValidExt(e: string) {
    && |e| >= 2
    && e[0] == '.'
    && forall k :: 1 <= k < |e| ==> e[k] != '.' && e[k] != '/' && LowerChar(e[k]) == e[k]
  }

  /** The last component holds no '/'. */
  lemma {:induction false} NameStartNoSlash(p: string, n: nat)
    requires n <= |p|
    ensures forall k :: NameStart(p, n) <= k < n ==> p[k] != '/'
  {
    if n > 0 && p[n - 1] != '/' {
      NameStartNoSlash(p, n - 1);
    }
  }

  /** The last component reaches back at least to the last '/'. */
  lemma {:induction false} NameStartBelow(p: string, n: nat, m: nat)
    requires m <= n <= |p|
    requires forall k :: m <= k < n ==> p[k] != '/'
    ensures NameStart(p, n) <= m
  {
    if n > m {
      NameStartBelow(p, n - 1, m);
    }
  }

  /** No '.' follows the one LastDotIn finds. */
  lemma {:induction false} LastDotInIsLast(p: string, lo: nat, n: nat)
    requires lo <= n <= |p|
    ensures forall j :: LastDotIn(p, lo, n) < j < n && lo <= j ==> p[j] != '.'
  {
    if n > lo && p[n - 1] != '.' {
      LastDotInIsLast(p, lo, n - 1);
    }
  }

  /** The last '.' is the one with no '.' after it. */
  lemma {:induction false} LastDotInIs(p: string, lo: nat, n: nat, k: nat)
    requires lo <= k < n <= |p| && p[k] == '.'
    requires forall j :: k < j < n ==> p[j] != '.'
    ensures LastDotIn(p, lo, n) == k
  {
    if n - 1 > k {
      LastDotInIs(p, lo, n - 1, k);
    }
  }

  /** An extension is either empty or one dot followed by dot-free text. */
  lemma {:induction false} ExtnameShape(p: string)
    ensures var x := Extname(p);
      x == [] || (x[0] == '.' && forall j :: 0 < j < |x| ==> x[j] != '.')
  {
    ExtShapeAt(p, NameEnd(p, |p|));
  }

  lemma {:induction false} ExtShapeAt(p: string, n: nat)
    requires n <= |p|
    ensures var x := ExtOfName(p, n);
      x == [] || (x[0] == '.' && forall j :: 0 < j < |x| ==> x[j] != '.')
  {
    var start := NameStart(p, n);
    var dot := LastDotIn(p, start, n);
    LastDotInIsLast(p, start, n);
    var x := ExtOfName(p, n);
    if x != [] {
      assert x == p[dot..n];
      forall j | 0 < j < |x| ensures x[j] != '.' {
        assert x[j] == p[dot + j];
      }
    }
  }

  /** Case folding turns a character into '.' or '/' only when it already is one. */
  lemma {:induction false} LowerCharKeepsPunctuation(c: char)
    ensures LowerChar(c) == '.' <==> c == '.'
    ensures LowerChar(c) == '/' <==> c == '/'
  {
  }

  /** Where a case-folded suffix `p[n - |e|..n]` equal to `e` puts dots and slashes in `p`. */
  lemma {:induction false} SuffixPunctuation(p: string, n: nat, e: string)
    requires ValidExt(e) && |e| < n <= |p| && Lower(p[n - |e|..n]) == e
    ensures p[n - |e|] == '.'
    ensures forall k :: n - |e| <= k < n ==> p[k] != '/'
    ensures forall k :: n - |e| < k < n ==> p[k] != '.'
  {
    var m := n - |e|;
    var t := p[m..n];
    forall k | m <= k < n
      ensures p[k] != '/' && (p[k] == '.' <==> k == m)
    {
      assert Lower(t)[k - m] == e[k - m];
      assert t[k - m] == p[k];
      LowerCharKeepsPunctuation(p[k]);
    }
  }

  /** A component of `p[..n]` ending, case aside, with `e` after a character other than '/' has extension `e`. */
  lemma {:induction false} ExtFromSuffix(p: string, n: nat, e: string)
    requires ValidExt(e) && n <= |p|
    requires n > |e| && p[n - |e| - 1] != '/' && Lower(p[n - |e|..n]) == e
    ensures Lower(ExtOfName(p, n)) == e
  {
    var m := n - |e|;
    SuffixPunctuation(p, n, e);
    NameStartBelow(p, n, m - 1);
    LastDotInIs(p, NameStart(p, n), n, m);
    assert ExtOfName(p, n) == p[m..n];
  }

  /** Conversely, extension `e` means the component ends with `e`, case aside, after a character other than '/'. */
  lemma {:induction false} SuffixFromExt(p: string, n: nat, e: string)
    requires ValidExt(e) && n <= |p|
    requires Lower(ExtOfName(p, n)) == e
    ensures n > |e| && p[n - |e| - 1] != '/' && Lower(p[n - |e|..n]) == e
  {
    var start := NameStart(p, n);
    NameStartNoSlash(p, n);
    var dot := LastDotIn(p, start, n);
    assert ExtOfName(p, n) == p[dot..n];
    assert p[dot - 1] != '/';
  }

  /**
   * `path.extname(p).toLowerCase() === e` holds exactly when `p`, once its
   * trailing slashes are gone, ends with `e` in any letter case and the
   * character before that suffix exists and is not a '/'.
   */
  lemma {:induction false} HasExtIff(p: string, e: string)
    requires ValidExt(e)
    ensures HasExt(p, e) <==>
      var n := NameEnd(p, |p|);
      n > |e| && p[n - |e| - 1] != '/' && Lower(p[n - |e|..n]) == e
  {
    HasExtEndsWith(p, e);
    EndsWithHasExt(p, e);
  }

  lemma {:induction false} HasExtEndsWith(p: string, e: string)
    requires ValidExt(e)
    ensures HasExt(p, e) ==>
      var n := NameEnd(p, |p|);
      n > |e| && p[n - |e| - 1] != '/' && Lower(p[n - |e|..n]) == e
  {
    if HasExt(p, e) {
      SuffixFromExt(p, NameEnd(p, |p|), e);
    }
  }

  lemma {:induction false} EndsWithHasExt(p: string, e: string)
    requires ValidExt(e)
    ensures (var n := NameEnd(p, |p|);
      n > |e| && p[n - |e| - 1] != '/' && Lower(p[n - |e|..n]) == e) ==> HasExt(p, e)
  {
    var n := NameEnd(p, |p|);
    if n > |e| && p[n - |e| - 1] != '/' && Lower(p[n - |e|..n]) == e {
      ExtFromSuffix(p, n, e);
    }
  }

  /** Extension constants are already in lower case. */
  lemma {:induction false} LowerOfExt(e: string)
    requires ValidExt(e)
    ensures Lower(e) == e
  {
  }

  /** A name ending in '/' does not end with an extension, whatever the case. */
  lemma {:induction false} SlashEndsNoExt(s: string, e: string)
    requires ValidExt(e) && |s| > 0 && s[|s| - 1] == '/'
    ensures !EndsWithCi(s, e)
  {
    LowerOfExt(e);
    if |e| <= |s| {
      var t := s[|s| - |e|..];
      assert Lower(t)[|e| - 1] == '/';
    }
  }

  /** Appending an extension to a stem that does not end in '/' gives a name with that extension. */
  lemma {:induction false} AppendExt(stem: string, e: string)
    requires ValidExt(e) && |stem| > 0 && stem[|stem| - 1] != '/'
    ensures HasExt(stem + e, e)
  {
    var r := stem + e;
    assert r[|r| - 1] == e[|e| - 1];
    assert NameEnd(r, |r|) == |r|;
    assert r[|r| - |e|..|r|] == e;
    assert r[|r| - |e| - 1] == stem[|stem| - 1];
    LowerOfExt(e);
    ExtFromSuffix(r, |r|, e);
  }

  /** The anchored replacement leaves a name that ends in '/' alone. */
  lemma {:induction false} RenameKeepsSlashName(s: string, legacy: string, target: string)
    requires ValidExt(legacy) && EndsInSlash(s)
    ensures ReplaceSuffixCi(s, legacy, target) == s
  {
    SlashEndsNoExt(s, legacy);
  }

  /**
   * On any other name with extension `legacy`, the anchored replacement swaps
   * the last |legacy| characters for `target`, and the new name has extension
   * `target`.
   */
  lemma {:induction false} RenameToTarget(s: string, legacy: string, target: string)
    requires ValidExt(legacy) && ValidExt(target)
    requires HasExt(s, legacy) && !EndsInSlash(s)
    ensures ReplaceSuffixCi(s, legacy, target) == s[..|s| - |legacy|] + target
    ensures HasExt(ReplaceSuffixCi(s, legacy, target), target)
  {
    EndsWithExt(s, legacy);
    var stem := s[..|s| - |legacy|];
    assert stem[|stem| - 1] == s[|s| - |legacy| - 1];
    AppendExt(stem, target);
  }

  /** A name with extension `e` and no trailing '/' ends with `e`, case aside, after a non-'/' character. */
  lemma {:induction false} EndsWithExt(s: string, e: string)
    requires ValidExt(e) && HasExt(s, e) && !EndsInSlash(s)
    ensures |s| > |e| && s[|s| - |e| - 1] != '/' && EndsWithCi(s, e)
  {
    assert NameEnd(s, |s|) == |s|;
    SuffixFromExt(s, |s|, e);
    LowerOfExt(e);
    assert s[|s| - |e|..|s|] == s[|s| - |e|..];
  }

  /** Case folding is idempotent. */
  lemma {:induction false} LowerCharIdempotent(c: char)
    ensures LowerChar(LowerChar(c)) == LowerChar(c)
  {
  }

  /** Text in lower case is its own case folding. */
  lemma {:induction false} LowerOfLower(x: string)
    requires forall j :: 0 <= j < |x| ==> LowerChar(x[j]) == x[j]
    ensures Lower(x) == x
  {
  }

  /** A prefix does not change whether a name ends with a suffix. */
  lemma {:induction false} EndsWithCiAfterPrefix(prefix: string, s: string, suffix: string)
    requires EndsWithCi(s, suffix)
    ensures EndsWithCi(prefix + s, suffix)
  {
    assert (prefix + s)[|prefix + s| - |suffix|..] == s[|s| - |suffix|..];
  }

  /** A match longer than `s` reaches the last character of the prefix, which folds like the suffix character it faces. */
  lemma {:induction false} MatchIntoPrefix(prefix: string, s: string, suffix: string)
    requires |prefix| > 0 && |suffix| > |s| && EndsWithCi(prefix + s, suffix)
    ensures LowerChar(suffix[|suffix| - |s| - 1]) == LowerChar(prefix[|prefix| - 1])
  {
    var t := prefix + s;
    var j := |suffix| - |s| - 1;
    assert t[|t| - |suffix|..][j] == prefix[|prefix| - 1];
    assert Lower(t[|t| - |suffix|..])[j] == Lower(suffix)[j];
  }

  /**
   * Behind a prefix that ends in '-', a name ends with a suffix free of '-'
   * exactly when it did on its own: the '-' cannot fold to a character of the
   * suffix, so a match never reaches into the prefix.
   */
  lemma {:induction false} EndsWithCiAfterDash(prefix: string, s: string, suffix: string)
    requires |prefix| > 0 && prefix[|prefix| - 1] == '-'
    requires forall j :: 0 <= j < |suffix| ==> LowerChar(suffix[j]) != '-'
    ensures EndsWithCi(prefix + s, suffix) <==> EndsWithCi(s, suffix)
  {
    if EndsWithCi(s, suffix) {
      EndsWithCiAfterPrefix(prefix, s, suffix);
    }
    if EndsWithCi(prefix + s, suffix) {
      var t := prefix + s;
      if |suffix| > |s| {
        MatchIntoPrefix(prefix, s, suffix);
        assert false;
      }
      assert t[|t| - |suffix|..] == s[|s| - |suffix|..];
    }
  }
}
