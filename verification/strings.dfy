/**
 * Character-level helpers shared by the index, the query canonicaliser and the
 * JSON writer: Java's lexicographic `String.compareTo`, `startsWith`,
 * `endsWith`, ASCII case folding, `String.join`, a splitter that inverts it,
 * and `Character.isWhitespace`.
 */
module Strings {

  /** `a.compareTo(b) < 0` for Java strings: the first differing character
      decides, and a proper prefix sorts first. */
  predicate Less(a: string, b: string)
    decreases |a|
  {
    if |b| == 0 then false
    else if |a| == 0 then true
    else if a[0] != b[0] then a[0] < b[0]
    else Less(a[1..], b[1..])
  }

  lemma {:induction false} LessIrreflexive(a: string)
    ensures !Less(a, a)
    decreases |a|
  {
    if |a| > 0 {
      LessIrreflexive(a[1..]);
    }
  }

  lemma {:induction false} LessAsymmetric(a: string, b: string)
    ensures !(Less(a, b) && Less(b, a))
    decreases |a|
  {
    if |a| > 0 && |b| > 0 && a[0] == b[0] {
      LessAsymmetric(a[1..], b[1..]);
    }
  }

  lemma {:induction false} LessTransitive(a: string, b: string, c: string)
    requires Less(a, b) && Less(b, c)
    ensures Less(a, c)
    decreases |a|
  {
    if |a| > 0 && a[0] == b[0] && b[0] == c[0] {
      LessTransitive(a[1..], b[1..], c[1..]);
    }
  }

  /** Distinct strings are always ordered one way or the other. */
  lemma {:induction false} LessTotal(a: string, b: string)
    ensures a == b || Less(a, b) || Less(b, a)
    decreases |a|
  {
    if |a| > 0 && |b| > 0 && a[0] == b[0] {
      LessTotal(a[1..], b[1..]);
      if a[1..] == b[1..] {
        assert a == [a[0]] + a[1..] && b == [b[0]] + b[1..];
      }
    }
  }

  /** Java's `w.startsWith(p)`. */
  predicate HasPrefix(w: string, p: string)
  {
    |p| <= |w| && w[..|p|] == p
  }

  /** Java's `w.endsWith(s)`. */
  predicate HasSuffix(w: string, s: string)
  {
    |s| <= |w| && w[|w| - |s|..] == s
  }

  /** A string never sorts before one of its prefixes. */
  lemma {:induction false} PrefixNotLess(w: string, p: string)
    requires HasPrefix(w, p)
    ensures !Less(w, p)
    decreases |p|
  {
    if |p| > 0 {
      assert w[0] == p[0];
      assert w[1..][..|p| - 1] == p[1..];
      PrefixNotLess(w[1..], p[1..]);
    }
  }

  /** Strings with prefix `p` form a contiguous block in lexicographic order:
      anything between `p` and a string starting with `p` starts with `p` too. */
  lemma {:induction false} PrefixBetween(a: string, c: string, p: string)
    requires HasPrefix(c, p) && !Less(a, p) && Less(a, c)
    ensures HasPrefix(a, p)
    decreases |p|
  {
    if |p| > 0 {
      assert c[0] == p[0];
      assert |a| > 0;
      assert a[0] == p[0];
      assert c[1..][..|p| - 1] == p[1..];
      PrefixBetween(a[1..], c[1..], p[1..]);
      assert a == [a[0]] + a[1..];
      assert a[..|p|] == [a[0]] + a[1..][..|p| - 1];
    }
  }

  /** `n` tab characters: Java's `"\t".repeat(n)`. */
  function Tabs(n: nat): (r: string)
    ensures |r| == n && forall i :: 0 <= i < n ==> r[i] == '\t'
  {
    seq(n, _ => '\t')
  }

  /** Java's `String.join(sep, parts)`. */
  function Join(sep: string, parts: seq<string>): string
    decreases |parts|
  {
    if |parts| == 0 then ""
    else if |parts| == 1 then parts[0]
    else parts[0] + sep + Join(sep, parts[1..])
  }

  /** Index of the first occurrence of `c` in `s`. */
  function FirstIndex(s: string, c: char): (i: nat)
    requires c in s
    ensures i < |s| && s[i] == c && c !in s[..i]
  {
    if s[0] == c then 0 else FirstIndex(s[1..], c) + 1
  }

  /** Splits `s` at every occurrence of `c`; the inverse of joining with `c`. */
  function Split(s: string, c: char): (r: seq<string>)
    ensures |r| > 0
    decreases |s|
  {
    if c !in s then [s]
    else
      var i := FirstIndex(s, c);
      [s[..i]] + Split(s[i + 1..], c)
  }

  /** Joining with a single separator character that occurs in no part can be
      undone by splitting at that character. */
  lemma {:induction false} SplitJoin(parts: seq<string>, c: char)
    requires |parts| > 0
    requires forall i :: 0 <= i < |parts| ==> c !in parts[i]
    ensures Split(Join([c], parts), c) == parts
    decreases |parts|
  {
    if |parts| > 1 {
      var s := Join([c], parts);
      var rest := Join([c], parts[1..]);
      assert s == parts[0] + [c] + rest;
      assert s[|parts[0]|] == c;
      assert s[..|parts[0]|] == parts[0];
      assert FirstIndex(s, c) == |parts[0]|;
      assert s[|parts[0]| + 1..] == rest;
      SplitJoin(parts[1..], c);
      assert parts == [parts[0]] + parts[1..];
    }
  }

  /** Java's `Character.isWhitespace`: the Unicode space, line and paragraph
      separators other than the non-breaking ones, plus U+0009..U+000D and
      U+001C..U+001F. */
  predicate IsWhitespace(c: char)
  {
    || ('\U{9}' <= c <= '\U{D}')
    || ('\U{1C}' <= c <= ' ')
    || c == '\U{1680}'
    || ('\U{2000}' <= c <= '\U{2006}')
    || ('\U{2008}' <= c <= '\U{200A}')
    || c == '\U{2028}' || c == '\U{2029}' || c == '\U{205F}' || c == '\U{3000}'
  }

  /** Java's `String.isBlank`: empty or whitespace only. */
  predicate IsBlank(s: string)
  {
    forall i :: 0 <= i < |s| ==> IsWhitespace(s[i])
  }

  /** ASCII lower-casing of one character. */
  function LowerChar(c: char): char
  {
    if 'A' <= c <= 'Z' then (c as int + 32) as char else c
  }

  /** `toLowerCase` restricted to ASCII letters. */
  function Lower(s: string): (r: string)
    ensures |r| == |s| && forall i :: 0 <= i < |s| ==> r[i] == LowerChar(s[i])
  {
    seq(|s|, i requires 0 <= i < |s| => LowerChar(s[i]))
  }

  /** `a.compareToIgnoreCase(b) < 0`: lexicographic order of the case-folded strings. */
  predicate LessIgnoreCase(a: string, b: string)
  {
    Less(Lower(a), Lower(b))
  }
}
