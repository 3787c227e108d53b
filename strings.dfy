/**
  The three string primitives the categorisation relies on: lower-casing
  (`str.lower`), stripping leading occurrences of a character (`str.lstrip`)
  and finding the last occurrence of a character (`str.rfind`).
 */
module Strings {

  predicate IsUpperAscii(c: char) {
    'A' <= c <= 'Z'
  }

  /** A string is lower-case when it holds no upper-case ASCII letter. */
  predicate IsLower(s: string) {
    forall i :: 0 <= i < |s| ==> !IsUpperAscii(s[i])
  }

  /** Lower-cases one character; only the ASCII letters A-Z change. */
  function LowerChar(c: char): (d: char)
    ensures !IsUpperAscii(d)
    ensures IsUpperAscii(c) ==> 'a' <= d <= 'z' && d as int - c as int == 'a' as int - 'A' as int
    ensures !IsUpperAscii(c) ==> d == c
  {
    if IsUpperAscii(c) then (c as int - 'A' as int + 'a' as int) as char else c
  }

  /** `s.lower()`: the same characters, position by position, lower-cased. */
  function Lower(s: string): (r: string)
    ensures |r| == |s|
    ensures forall i :: 0 <= i < |s| ==> r[i] == LowerChar(s[i])
  {
    if s == [] then [] else [LowerChar(s[0])] + Lower(s[1..])
  }

  lemma LowerIsLower(s: string)
    ensures IsLower(Lower(s))
  {
  }

  /** Lower-casing leaves lower-case strings alone, so it is idempotent. */
  lemma LowerOfLower(s: string)
    requires IsLower(s)
    ensures Lower(s) == s
  {
  }

  lemma LowerIdempotent(s: string)
    ensures Lower(Lower(s)) == Lower(s)
  {
    LowerIsLower(s);
    LowerOfLower(Lower(s));
  }

  /** Lower-casing never creates or removes a character that is not a letter. */
  lemma LowerKeepsNonLetter(s: string, c: char)
    requires !IsUpperAscii(c) && !('a' <= c <= 'z')
    ensures forall i :: 0 <= i < |s| ==> (Lower(s)[i] == c <==> s[i] == c)
  {
  }

  /** `s.lstrip(c)`: `s` without its longest prefix made only of `c`. */
  function StripLeading(s: string, c: char): (r: string)
    ensures |r| <= |s|
    ensures r == s[|s| - |r|..]
    ensures forall i :: 0 <= i < |s| - |r| ==> s[i] == c
    ensures r == [] || r[0] != c
  {
    if s != [] && s[0] == c then StripLeading(s[1..], c) else s
  }

  /** The ensures of StripLeading determine its result: any split of `s`
      into a run of `c` and a rest not starting with `c` is the one it finds. */
  lemma {:induction false} StripLeadingUnique(s: string, c: char, k: nat)
    requires k <= |s|
    requires forall i :: 0 <= i < k ==> s[i] == c
    requires k == |s| || s[k] != c
    ensures StripLeading(s, c) == s[k..]
  {
    if k > 0 {
      StripLeadingUnique(s[1..], c, k - 1);
    }
  }

  /** Stripping leaves nothing exactly when every character is `c`. */
  lemma StripLeadingEmpty(s: string, c: char)
    ensures StripLeading(s, c) == [] <==> forall i :: 0 <= i < |s| ==> s[i] == c
  {
    var r := StripLeading(s, c);
    if r != [] {
      assert s[|s| - |r|] == r[0];
    }
  }

  /** Lower-casing and stripping a non-letter commute. */
  lemma {:induction false} StripLeadingLower(s: string, c: char)
    requires !IsUpperAscii(c) && !('a' <= c <= 'z')
    ensures StripLeading(Lower(s), c) == Lower(StripLeading(s, c))
  {
    var l := Lower(s);
    if s == [] {
    } else if s[0] == c {
      assert l[0] == c && l[1..] == Lower(s[1..]);
      StripLeadingLower(s[1..], c);
    } else {
      assert l[0] != c;
    }
  }

  /** `s.rfind(c)`: the index of the last `c` in `s`, or -1 when there is none. */
  function LastIndexOf(s: string, c: char): (r: int)
    ensures -1 <= r < |s|
    ensures r >= 0 ==> s[r] == c
    ensures forall j :: r < j < |s| ==> s[j] != c
  {
    LastIndexBefore(s, c, |s|)
  }

  /** The index of the last `c` among the first `n` characters of `s`, or -1,
      found by scanning down from `n`. */
  function LastIndexBefore(s: string, c: char, n: nat): (r: int)
    requires n <= |s|
    ensures -1 <= r < n
    ensures r >= 0 ==> s[r] == c
    ensures forall j :: r < j < n ==> s[j] != c
  {
    if n == 0 then -1
    else if s[n - 1] == c then n - 1
    else LastIndexBefore(s, c, n - 1)
  }

  /** Cutting `s` after its last `c` keeps that `c` the last one. */
  lemma LastIndexOfPrefix(s: string, c: char, n: nat)
    requires LastIndexOf(s, c) < n <= |s|
    ensures LastIndexOf(s[..n], c) == LastIndexOf(s, c)
  {
    var q := s[..n];
    forall j | LastIndexOf(s, c) < j < n
      ensures q[j] != c
    {
      assert q[j] == s[j];
    }
    LastIndexOfUnique(q, c, LastIndexOf(s, c));
  }

  /** The ensures of LastIndexOf determine its result. */
  lemma LastIndexOfUnique(s: string, c: char, k: int)
    requires -1 <= k < |s|
    requires k >= 0 ==> s[k] == c
    requires forall j :: k < j < |s| ==> s[j] != c
    ensures LastIndexOf(s, c) == k
  {
  }
}
