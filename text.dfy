/**
 * String utilities with Python's meaning: ASCII lower-casing (`str.lower`
 * restricted to ASCII), substring test (`t in s`), `sep.join(xs)` and
 * `s.replace(pat, rep)`.
 */
module Text {

  predicate IsUpper(c: char) {
    'A' <= c <= 'Z'
  }

  /** A string with no upper-case ASCII letter. */
  predicate IsLower(s: string) {
    forall i :: 0 <= i < |s| ==> !IsUpper(s[i])
  }

  /** ASCII lower-casing of one character. */
  function LowerChar(c: char): (d: char)
    ensures !IsUpper(d)
    ensures !IsUpper(c) ==> d == c
    ensures IsUpper(c) ==> 'a' <= d <= 'z' && d as int - c as int == 'a' as int - 'A' as int
  {
    if IsUpper(c) then (c as int - 'A' as int + 'a' as int) as char else c
  }

  /** `s.lower()` on ASCII: character by character, lengths kept. */
  function Lower(s: string): (r: string)
    ensures |r| == |s|
    ensures forall i :: 0 <= i < |s| ==> r[i] == LowerChar(s[i])
    ensures IsLower(r)
  {
    seq(|s|, i requires 0 <= i < |s| => LowerChar(s[i]))
  }

  /** A lower-case string is its own lower-casing. */
  lemma LowerOfLower(s: string)
    requires IsLower(s)
    ensures Lower(s) == s
  {
    assert forall i :: 0 <= i < |s| ==> Lower(s)[i] == s[i];
  }

  /** Lower-casing is idempotent. */
  lemma LowerIdempotent(s: string)
    ensures Lower(Lower(s)) == Lower(s)
  {
    LowerOfLower(Lower(s));
  }

  /** Two strings that differ only in the case of their letters. */
  predicate EqualIgnoringCase(x: string, y: string) {
    |x| == |y| && forall i :: 0 <= i < |x| ==> LowerChar(x[i]) == LowerChar(y[i])
  }

  /** Strings equal up to case are exactly those with the same lower-casing. */
  lemma EqualIgnoringCaseIffSameLower(x: string, y: string)
    ensures EqualIgnoringCase(x, y) <==> Lower(x) == Lower(y)
  {
    if Lower(x) == Lower(y) {
      assert forall i :: 0 <= i < |x| ==> LowerChar(x[i]) == Lower(x)[i];
    }
  }

  /** `t` occurs in `s` starting at index `i`. */
  predicate OccursAt(s: string, t: string, i: int) {
    0 <= i && i + |t| <= |s| && s[i..i + |t|] == t
  }

  /** Python's `t in s` on strings: a substring, not a whole word. */
  predicate Contains(s: string, t: string) {
    exists i :: 0 <= i <= |s| - |t| && OccursAt(s, t, i)
  }

  predicate StartsWith(s: string, t: string) {
    |t| <= |s| && s[..|t|] == t
  }

  /**
   * `s.replace(pat, rep)`: scans left to right and substitutes every
   * non-overlapping occurrence of `pat`.
   */
  function ReplaceAll(s: string, pat: string, rep: string): (r: string)
    requires |pat| > 0
    decreases |s|
  {
    if |s| < |pat| then s
    else if s[..|pat|] == pat then rep + ReplaceAll(s[|pat|..], pat, rep)
    else [s[0]] + ReplaceAll(s[1..], pat, rep)
  }

  /** A string without the pattern is left unchanged by the replacement. */
  lemma {:induction false} ReplaceAllAbsent(s: string, pat: string, rep: string)
    requires |pat| > 0
    requires !Contains(s, pat)
    ensures ReplaceAll(s, pat, rep) == s
    decreases |s|
  {
    if |s| >= |pat| {
      assert !OccursAt(s, pat, 0);
      assert !Contains(s[1..], pat) by {
        forall i | 0 <= i <= |s[1..]| - |pat| ensures !OccursAt(s[1..], pat, i) {
          assert s[1..][i..i + |pat|] == s[i + 1..i + 1 + |pat|];
          assert !OccursAt(s, pat, i + 1);
        }
      }
      ReplaceAllAbsent(s[1..], pat, rep);
    }
  }

  /** `sep.join(xs)`. */
  function Join(sep: string, xs: seq<string>): (joined: string)
    decreases |xs|
  {
    if |xs| == 0 then ""
    else if |xs| == 1 then xs[0]
    else xs[0] + sep + Join(sep, xs[1..])
  }

  /** Joining lower-case pieces with a lower-case separator gives a lower-case string. */
  lemma {:induction false} JoinLower(sep: string, xs: seq<string>)
    requires IsLower(sep)
    requires forall j :: 0 <= j < |xs| ==> IsLower(xs[j])
    ensures IsLower(Join(sep, xs))
    decreases |xs|
  {
    if |xs| > 1 {
      JoinLower(sep, xs[1..]);
      var rest := Join(sep, xs[1..]);
      assert Join(sep, xs) == xs[0] + sep + rest;
      forall i | 0 <= i < |xs[0] + sep + rest| ensures !IsUpper((xs[0] + sep + rest)[i]) {
        if i < |xs[0]| {
        } else if i < |xs[0]| + |sep| {
          assert (xs[0] + sep + rest)[i] == sep[i - |xs[0]|];
        } else {
          assert (xs[0] + sep + rest)[i] == rest[i - |xs[0]| - |sep|];
        }
      }
    }
  }
}
