/**
 The string operations the product filter relies on: lower-casing and
 substring search (`toLowerCase` and `indexOf` in the component).

 Lower-casing is ASCII-only: 'A'..'Z' map to 'a'..'z' and every other
 character is left alone.
 */
module Text {

  /** ASCII lower-casing of one character. */
  function LowerChar(c: char): (r: char)
    ensures 'A' <= c <= 'Z' ==> 'a' <= r <= 'z' && r as int - c as int == 32
    ensures !('A' <= c <= 'Z') ==> r == c
    ensures !('A' <= r <= 'Z')
  {
    if 'A' <= c <= 'Z' then (c as int + 32) as char else c
  }

  /** Lower-cases every character of `s`, keeping its length. */
  function Lower(s: string): (r: string)
    ensures |r| == |s|
    ensures forall i :: 0 <= i < |s| ==> r[i] == LowerChar(s[i])
  {
    seq(|s|, i requires 0 <= i < |s| => LowerChar(s[i]))
  }

  /** Lower-casing a lower-cased string changes nothing. */
  lemma LowerIdempotent(s: string)
    ensures Lower(Lower(s)) == Lower(s)
  {
  }

  /**
   `x` and `y` are the same character, or the same ASCII letter in upper and
   lower case (the lower-case letter's code is 32 above the upper-case one's).
   */
  predicate CaseVariant(x: char, y: char)
  {
    || x == y
    || ('A' <= x <= 'Z' && y as int == x as int + 32)
    || ('A' <= y <= 'Z' && x as int == y as int + 32)
  }

  /** `a` and `b` differ at most in the letter case of their characters. */
  predicate SameUpToCase(a: string, b: string)
  {
    |a| == |b| && forall i :: 0 <= i < |a| ==> CaseVariant(a[i], b[i])
  }

  /** Two characters lower-case alike exactly when they differ at most in letter case. */
  lemma CaseVariantLowerChar(x: char, y: char)
    ensures CaseVariant(x, y) <==> LowerChar(x) == LowerChar(y)
  {
  }

  /** Two strings lower-case to the same string exactly when they differ at most in letter case. */
  lemma SameUpToCaseLower(a: string, b: string)
    ensures SameUpToCase(a, b) <==> Lower(a) == Lower(b)
  {
    if SameUpToCase(a, b) {
      forall i | 0 <= i < |a|
        ensures Lower(a)[i] == Lower(b)[i]
      {
        CaseVariantLowerChar(a[i], b[i]);
      }
    }
    if Lower(a) == Lower(b) {
      forall i | 0 <= i < |a|
        ensures CaseVariant(a[i], b[i])
      {
        assert Lower(a)[i] == Lower(b)[i];
        CaseVariantLowerChar(a[i], b[i]);
      }
    }
  }

  /** `needle` occurs in `hay` starting at position `j`. */
  predicate OccursAt(hay: string, needle: string, j: int)
  {
    0 <= j && j + |needle| <= |hay| && hay[j..j + |needle|] == needle
  }

  /** `needle` is a substring of `hay`. */
  ghost predicate Contains(hay: string, needle: string)
  {
    exists j :: OccursAt(hay, needle, j)
  }

  /**
   The first position at or after `from` where `needle` occurs in `hay`,
   or -1 when there is none.
   */
  function IndexOfFrom(hay: string, needle: string, from: nat): (r: int)
    requires from <= |hay|
    ensures r == -1 || (from <= r && OccursAt(hay, needle, r))
    ensures r != -1 ==> forall j :: from <= j < r ==> !OccursAt(hay, needle, j)
    ensures r == -1 ==> forall j :: from <= j ==> !OccursAt(hay, needle, j)
    decreases |hay| - from
  {
    if from + |needle| > |hay| then -1
    else if hay[from..from + |needle|] == needle then from
    else IndexOfFrom(hay, needle, from + 1)
  }

  /**
   `hay.indexOf(needle)`: the first position where `needle` occurs, or -1.
   The empty needle occurs at position 0.
   */
  function IndexOf(hay: string, needle: string): (r: int)
    ensures r == -1 <==> !Contains(hay, needle)
    ensures r != -1 ==> OccursAt(hay, needle, r) && forall j :: 0 <= j < r ==> !OccursAt(hay, needle, j)
    ensures |needle| == 0 ==> r == 0
  {
    IndexOfFrom(hay, needle, 0)
  }
}
