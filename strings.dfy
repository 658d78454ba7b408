/**
 * The pieces of Python's string library the codec relies on: `str.find`,
 * slicing with negative and out-of-range bounds, `startswith`/`endswith`,
 * and the `\s` and `\w` classes of the `re` module.
 */
module Strings {

  /** `s.find(c, start)`: the first index at or after `start` holding `c`, or -1. */
  function Find<T(==)>(s: seq<T>, c: T, start: nat): (r: int)
    ensures r == -1 || start <= r < |s|
    ensures r == -1 ==> forall k :: start <= k < |s| ==> s[k] != c
    ensures r != -1 ==> s[r] == c && forall k :: start <= k < r ==> s[k] != c
    decreases |s| - start
  {
    if start >= |s| then -1
    else if s[start] == c then start
    else Find(s, c, start + 1)
  }

  /** Searching a suffix finds what searching the whole sequence finds, shifted. */
  lemma {:induction false} FindInSuffix<T>(s: seq<T>, c: T, i: nat, j: nat)
    requires i <= |s|
    ensures Find(s[i..], c, j) == if Find(s, c, i + j) == -1 then -1 else Find(s, c, i + j) - i
    decreases |s| - i - j
  {
    if i + j < |s| {
      assert s[i..][j] == s[i + j];
      FindInSuffix(s, c, i, j + 1);
    }
  }

  /** A Python slice bound: negative counts from the end, then clamped to [0, n]. */
  function Bound(i: int, n: nat): (r: nat)
    ensures r <= n
    ensures 0 <= i <= n ==> r == i
    ensures i < 0 && 0 <= n + i ==> r == n + i
  {
    if i < 0 then (if n + i < 0 then 0 else n + i)
    else if i > n then n
    else i
  }

  /** Python's `s[a:b]`. */
  function PySlice<T>(s: seq<T>, a: int, b: int): (r: seq<T>)
    ensures 0 <= a <= b <= |s| ==> r == s[a..b]
    ensures Bound(b, |s|) <= Bound(a, |s|) ==> r == []
  {
    var lo := Bound(a, |s|);
    var hi := Bound(b, |s|);
    if lo < hi then s[lo..hi] else []
  }

  predicate StartsWith(s: string, p: string)
  {
    p <= s
  }

  predicate EndsWith(s: string, p: string)
  {
    |p| <= |s| && s[|s| - |p|..] == p
  }

  /** The characters `\s` matches in a str pattern (those for which `str.isspace()` holds). */
  predicate IsSpace(c: char)
  {
    c == ' ' || '\t' <= c <= '\r' || '\U{1C}' <= c <= '\U{1F}' || c == '\U{85}' || c == '\U{A0}'
    || c == '\U{1680}' || '\U{2000}' <= c <= '\U{200A}' || c == '\U{2028}' || c == '\U{2029}'
    || c == '\U{202F}' || c == '\U{205F}' || c == '\U{3000}'
  }

  /** The characters `\w` matches, restricted to ASCII: letters, digits and '_'. */
  predicate IsWordChar(c: char)
  {
    'a' <= c <= 'z' || 'A' <= c <= 'Z' || '0' <= c <= '9' || c == '_'
  }

  /** The longest run of word characters starting at `start` (what `([^\W]*)` captures). */
  function WordRun(s: string, start: nat): (r: string)
    ensures start + |r| <= |s| || (start >= |s| && r == [])
    ensures forall k :: 0 <= k < |r| ==> start + k < |s| && r[k] == s[start + k] && IsWordChar(r[k])
    ensures start + |r| < |s| ==> !IsWordChar(s[start + |r|])
    decreases |s| - start
  {
    if start < |s| && IsWordChar(s[start]) then [s[start]] + WordRun(s, start + 1) else []
  }

  /** The first index at or after `start` holding a whitespace character, or -1 (where `\s` first matches). */
  function FirstSpace(s: string, start: nat): (r: int)
    ensures r == -1 || start <= r < |s|
    ensures r == -1 ==> forall k :: start <= k < |s| ==> !IsSpace(s[k])
    ensures r != -1 ==> IsSpace(s[r]) && forall k :: start <= k < r ==> !IsSpace(s[k])
    decreases |s| - start
  {
    if start >= |s| then -1
    else if IsSpace(s[start]) then start
    else FirstSpace(s, start + 1)
  }
}
