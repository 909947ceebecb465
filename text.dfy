/**
 * The string operations the scraper relies on, restricted to ASCII:
 * `str.strip()`, `str.lower()`, `in` on strings and `str.startswith`.
 */
module Text {

  /** Python's `str.isspace` on the ASCII range: space, \t \n \v \f \r and the
      four separators \x1c-\x1f. */
  predicate IsSpace(c: char) {
    c == ' ' || ('\t' <= c <= '\r') || ('\U{1C}' <= c <= '\U{1F}')
  }

  predicate AllSpace(s: string) {
    forall k :: 0 <= k < |s| ==> IsSpace(s[k])
  }

  /** Neither end of `s` is whitespace. */
  predicate IsStripped(s: string) {
    s == [] || (!IsSpace(s[0]) && !IsSpace(s[|s| - 1]))
  }

  /** The first index at or after `i` that is not whitespace (`|s|` when
      there is none). */
  function SkipSpaces(s: string, i: nat): (j: nat)
    requires i <= |s|
    ensures i <= j <= |s|
    ensures forall k :: i <= k < j ==> IsSpace(s[k])
    ensures j < |s| ==> !IsSpace(s[j])
    decreases |s| - i
  {
    if i < |s| && IsSpace(s[i]) then SkipSpaces(s, i + 1) else i
  }

  /** Walking back from `j` towards `lo`, the end of the last character that
      is not whitespace (`lo` when there is none). */
  function SkipSpacesBack(s: string, lo: nat, j: nat): (e: nat)
    requires lo <= j <= |s|
    ensures lo <= e <= j
    ensures forall k :: e <= k < j ==> IsSpace(s[k])
    ensures e > lo ==> !IsSpace(s[e - 1])
    decreases j
  {
    if j > lo && IsSpace(s[j - 1]) then SkipSpacesBack(s, lo, j - 1) else j
  }

  /** `str.strip()`: whitespace is removed at both ends and nowhere else. */
  function Strip(s: string): (r: string)
    ensures IsStripped(r)
    ensures |r| <= |s|
    ensures r == [] <==> AllSpace(s)
    ensures exists i, j :: 0 <= i <= j <= |s| && r == s[i..j] &&
                           (forall k :: 0 <= k < i ==> IsSpace(s[k])) &&
                           (forall k :: j <= k < |s| ==> IsSpace(s[k]))
  {
    var i := SkipSpaces(s, 0);
    var e := SkipSpacesBack(s, i, |s|);
    assert e == i ==> i == |s|;
    s[i..e]
  }

  /** Stripping a string that is already stripped changes nothing, so a second
      `strip()` is harmless. */
  lemma {:induction false} StripIdempotent(s: string)
    ensures Strip(Strip(s)) == Strip(s)
  {
    var r := Strip(s);
    StrippedIsFixed(r);
  }

  lemma StrippedIsFixed(s: string)
    requires IsStripped(s)
    ensures Strip(s) == s
  {
    assert SkipSpaces(s, 0) == 0;
    assert SkipSpacesBack(s, 0, |s|) == |s|;
    assert s[0..|s|] == s;
  }

  /** ASCII `str.lower()` on one character. */
  function LowerChar(c: char): (d: char)
    ensures 'A' <= c <= 'Z' ==> 'a' <= d <= 'z'
    ensures !('A' <= c <= 'Z') ==> d == c
  {
    if 'A' <= c <= 'Z' then (c as int + 32) as char else c
  }

  /** ASCII `str.lower()`. */
  function Lower(s: string): (r: string)
    ensures |r| == |s|
    ensures forall k :: 0 <= k < |s| ==> r[k] == LowerChar(s[k])
  {
    seq(|s|, k requires 0 <= k < |s| => LowerChar(s[k]))
  }

  /** `sub` occurs in `s` at offset `i`. */
  predicate OccursAt(s: string, sub: string, i: int) {
    0 <= i <= |s| - |sub| && s[i..i + |sub|] == sub
  }

  /** `sub in s` for strings: `sub` occurs in `s` as a contiguous block. */
  function Contains(s: string, sub: string): (r: bool)
    ensures r ==> |sub| <= |s|
    decreases |s|
  {
    |sub| <= |s| && (s[..|sub|] == sub || Contains(s[1..], sub))
  }

  /** Dropping the first character shifts every occurrence left by one. */
  lemma OccursShift(s: string, sub: string, i: int)
    requires 1 <= i && |s| > 0
    ensures OccursAt(s, sub, i) <==> OccursAt(s[1..], sub, i - 1)
  {
    if i <= |s| - |sub| {
      var shifted, block := s[1..][i - 1..i - 1 + |sub|], s[i..i + |sub|];
      forall k | 0 <= k < |sub|
        ensures shifted[k] == block[k]
      {
        assert shifted[k] == s[1..][i - 1 + k];
      }
      assert shifted == block;
    }
  }

  /** The recursive `Contains` agrees with the positional definition of
      "occurs at some offset". */
  lemma {:induction false} ContainsIffOccurs(s: string, sub: string)
    ensures Contains(s, sub) <==> exists i :: OccursAt(s, sub, i)
  {
    if |sub| <= |s| {
      if s[..|sub|] == sub {
        assert OccursAt(s, sub, 0);
      } else {
        ContainsIffOccurs(s[1..], sub);
        if Contains(s[1..], sub) {
          var i :| OccursAt(s[1..], sub, i);
          OccursShift(s, sub, i + 1);
        } else {
          forall i | 0 <= i <= |s| - |sub|
            ensures !OccursAt(s, sub, i)
          {
            if i > 0 {
              OccursShift(s, sub, i);
            } else {
              assert s[0..|sub|] == s[..|sub|];
            }
          }
        }
      }
    }
  }

  /** A string contains every block it is built from. */
  lemma ContainsJoin(p: string, sub: string, q: string)
    ensures Contains(p + sub + q, sub)
  {
    var s := p + sub + q;
    assert s[|p|..|p| + |sub|] == sub;
    assert OccursAt(s, sub, |p|);
    ContainsIffOccurs(s, sub);
  }

  /** A string lacking one of the characters of `sub` does not contain `sub`. */
  lemma {:induction false} NotContainsMissingChar(s: string, sub: string, c: char)
    requires c in sub && c !in s
    ensures !Contains(s, sub)
    decreases |s|
  {
    if |sub| <= |s| {
      assert c in s[..|sub|] ==> c in s;
      assert c !in s[1..];
      NotContainsMissingChar(s[1..], sub, c);
    }
  }

  /** `s.startswith(prefix)`. */
  predicate StartsWith(s: string, prefix: string) {
    |prefix| <= |s| && s[..|prefix|] == prefix
  }
}
