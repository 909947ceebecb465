/**
 * Reading a review score: the first match of the regular expression
 * `\d+\.?\d*` in a text, read as a decimal number, then doubled when it is at
 * most 5 (a five-point score moved onto the ten-point scale).
 */
module Rating {
  import opened Wrappers

  predicate IsDigit(c: char) {
    '0' <= c <= '9'
  }

  predicate AllDigits(t: string) {
    forall k :: 0 <= k < |t| ==> IsDigit(t[k])
  }

  /** `t` is digits `t[..p]`, then nothing or a '.' followed by digits. */
  predicate SplitsAt(t: string, p: int) {
    0 < p <= |t| && AllDigits(t[..p]) && (p == |t| || (t[p] == '.' && AllDigits(t[p + 1..])))
  }

  /** `t` is a whole match of `\d+\.?\d*`. */
  ghost predicate IsDecimalToken(t: string) {
    exists p :: SplitsAt(t, p)
  }

  /** Where a match lies in the searched text: integer digits in
      `[start, intEnd)`, then, when `intEnd < end`, a '.' and fraction digits
      up to `end`. */
  datatype Span = Span(start: nat, intEnd: nat, end: nat)

  /** Index of the first digit of `s`, or `|s|` when it has none. */
  function FirstDigit(s: string): (i: nat)
    ensures i <= |s|
    ensures forall k :: 0 <= k < i ==> !IsDigit(s[k])
    ensures i < |s| ==> IsDigit(s[i])
  {
    if |s| == 0 || IsDigit(s[0]) then 0 else 1 + FirstDigit(s[1..])
  }

  /** End of the run of digits that starts at `i`. */
  function DigitsEnd(s: string, i: nat): (j: nat)
    requires i <= |s|
    ensures i <= j <= |s|
    ensures forall k :: i <= k < j ==> IsDigit(s[k])
    ensures j == |s| || !IsDigit(s[j])
    decreases |s| - i
  {
    if i < |s| && IsDigit(s[i]) then DigitsEnd(s, i + 1) else i
  }

  /** `re.search(r'(\d+\.?\d*)', s)`: greedy, so the digits run to their end
      and a '.' right after them is always taken. */
  function FindNumber(s: string): (m: Option<Span>)
    ensures m.None? <==> forall k :: 0 <= k < |s| ==> !IsDigit(s[k])
    ensures m.Some? ==> m.value.start < m.value.intEnd <= m.value.end <= |s|
    ensures m.Some? ==> forall k :: 0 <= k < m.value.start ==> !IsDigit(s[k])
    ensures m.Some? ==> AllDigits(s[m.value.start..m.value.intEnd])
    ensures m.Some? ==> m.value.intEnd == |s| || !IsDigit(s[m.value.intEnd])
    ensures m.Some? && m.value.intEnd < m.value.end ==>
      s[m.value.intEnd] == '.' && AllDigits(s[m.value.intEnd + 1..m.value.end]) &&
      (m.value.end == |s| || !IsDigit(s[m.value.end]))
    ensures m.Some? && m.value.intEnd == m.value.end ==> m.value.end == |s| || s[m.value.end] != '.'
  {
    var i := FirstDigit(s);
    if i == |s| then None
    else
      var j := DigitsEnd(s, i);
      if j < |s| && s[j] == '.' then Some(Span(i, j, DigitsEnd(s, j + 1)))
      else Some(Span(i, j, j))
  }

  /** The span found is a whole match of `\d+\.?\d*`. */
  lemma FindNumberIsMatch(s: string)
    requires FindNumber(s).Some?
    ensures var m := FindNumber(s).value; IsDecimalToken(s[m.start..m.end])
  {
    var m := FindNumber(s).value;
    var t := s[m.start..m.end];
    var p := m.intEnd - m.start;
    assert t[..p] == s[m.start..m.intEnd];
    if m.intEnd < m.end {
      assert t[p] == s[m.intEnd];
      assert t[p + 1..] == s[m.intEnd + 1..m.end];
    }
    assert SplitsAt(t, p);
  }

  /** No match of `\d+\.?\d*` starts before the span found: the search is leftmost. */
  lemma FindNumberIsLeftmost(s: string)
    requires FindNumber(s).Some?
    ensures forall a, b :: 0 <= a < FindNumber(s).value.start && a <= b <= |s| ==> !IsDecimalToken(s[a..b])
  {
    var m := FindNumber(s).value;
    forall a, b | 0 <= a < m.start && a <= b <= |s|
      ensures !IsDecimalToken(s[a..b])
    {
      if IsDecimalToken(s[a..b]) {
        TokenStartsWithDigit(s[a..b]);
      }
    }
  }

  /** Every match begins with a digit. */
  lemma TokenStartsWithDigit(t: string)
    requires IsDecimalToken(t)
    ensures |t| > 0 && IsDigit(t[0])
  {
    var p :| SplitsAt(t, p);
    assert t[..p][0] == t[0];
  }

  /** No longer match starts where the span found starts: the search is greedy. */
  lemma FindNumberIsLongest(s: string)
    requires FindNumber(s).Some?
    ensures var m := FindNumber(s).value;
      forall b :: m.end < b <= |s| ==> !IsDecimalToken(s[m.start..b])
  {
    var m := FindNumber(s).value;
    var p := m.intEnd - m.start;
    forall b | m.end < b <= |s|
      ensures !IsDecimalToken(s[m.start..b])
    {
      var u := s[m.start..b];
      if IsDecimalToken(u) {
        var q :| SplitsAt(u, q);
        NoLongerSplit(s, m, b, q);
      }
    }
  }

  lemma NoLongerSplit(s: string, m: Span, b: int, q: int)
    requires m.start < m.intEnd <= m.end < b <= |s|
    requires AllDigits(s[m.start..m.intEnd]) && !IsDigit(s[m.intEnd])
    requires m.intEnd < m.end ==>
      s[m.intEnd] == '.' && AllDigits(s[m.intEnd + 1..m.end]) && !IsDigit(s[m.end])
    requires m.intEnd == m.end ==> s[m.end] != '.'
    ensures !SplitsAt(s[m.start..b], q)
  {
    var t := s[m.start..b];
    var p := m.intEnd - m.start;
    if p < q <= |t| {
      // the integer part would run past the first non-digit
      assert t[..q][p] == s[m.intEnd];
    } else if 0 < q < p {
      // the split point would fall inside the digit run, where there is no '.'
      assert t[q] == s[m.start..m.intEnd][q];
    } else if q == p && m.intEnd == m.end {
      // no '.' follows the digits
      assert t[p] == s[m.end];
    } else if q == p {
      // the fraction digits would run past the first non-digit after the '.'
      assert t[p + 1..][m.end - m.intEnd - 1] == s[m.end];
    }
  }

  function DigitValue(c: char): (d: nat)
    requires IsDigit(c)
    ensures d < 10
  {
    (c as int) - ('0' as int)
  }

  /** The natural number written by a string of decimal digits. */
  function DigitsValue(ds: string): nat
    requires AllDigits(ds)
  {
    if |ds| == 0 then 0 else DigitsValue(ds[..|ds| - 1]) * 10 + DigitValue(ds[|ds| - 1])
  }

  function Pow10(n: nat): (r: nat)
    ensures r > 0
  {
    if n == 0 then 1 else 10 * Pow10(n - 1)
  }

  /** `n` digits write a number below 10^n. */
  lemma {:induction false} DigitsValueBound(ds: string)
    requires AllDigits(ds)
    ensures DigitsValue(ds) < Pow10(|ds|)
  {
    if |ds| > 0 {
      DigitsValueBound(ds[..|ds| - 1]);
    }
  }

  /** A proper fraction of naturals lies in [0, 1). */
  lemma FractionBelowOne(a: nat, b: nat)
    requires a < b
    ensures 0.0 <= a as real / b as real < 1.0
  {
    var q := a as real / b as real;
    assert q * b as real == a as real;
  }

  /** `float(...)` of the match, read exactly: the integer digits plus a
      fraction strictly below one. */
  function SpanValue(s: string, m: Span): (v: real)
    requires m.start < m.intEnd <= m.end <= |s|
    requires AllDigits(s[m.start..m.intEnd])
    requires m.intEnd < m.end ==> AllDigits(s[m.intEnd + 1..m.end])
    ensures DigitsValue(s[m.start..m.intEnd]) as real <= v < DigitsValue(s[m.start..m.intEnd]) as real + 1.0
  {
    var whole := DigitsValue(s[m.start..m.intEnd]) as real;
    if m.intEnd < m.end then
      var frac := s[m.intEnd + 1..m.end];
      DigitsValueBound(frac);
      FractionBelowOne(DigitsValue(frac), Pow10(|frac|));
      whole + DigitsValue(frac) as real / Pow10(|frac|) as real
    else
      whole
  }

  /** Appending a digit `d` to `x * p + y` multiplies both parts by ten. */
  lemma ShiftDigit(x: int, p: int, y: int, d: int)
    ensures (x * p + y) * 10 + d == x * (10 * p) + (y * 10 + d)
  {
  }

  /** Writing the digits `b` after the digits `a` shifts `a` left by `|b|`
      places. */
  lemma {:induction false} DigitsValueAppend(a: string, b: string)
    requires AllDigits(a) && AllDigits(b)
    ensures AllDigits(a + b)
    ensures DigitsValue(a + b) == DigitsValue(a) * Pow10(|b|) + DigitsValue(b)
    decreases |b|
  {
    if |b| == 0 {
      assert a + b == a;
    } else {
      var ab := a + b;
      var b' := b[..|b| - 1];
      assert ab[..|ab| - 1] == a + b';
      assert ab[|ab| - 1] == b[|b| - 1];
      DigitsValueAppend(a, b');
      ShiftDigit(DigitsValue(a), Pow10(|b'|), DigitsValue(b'), DigitValue(b[|b| - 1]));
    }
  }

  /** Equal multiples of a positive real have equal factors. */
  lemma CancelPositive(x: real, y: real, d: real)
    requires d > 0.0 && x * d == y * d
    ensures x == y
  {
    assert (x - y) * d == 0.0;
  }

  /** `w + a / p` is `(w * p + a) / p`. */
  lemma JoinFraction(w: nat, a: nat, p: nat, n: nat)
    requires p > 0 && n == w * p + a
    ensures w as real + a as real / p as real == n as real / p as real
  {
    var d := p as real;
    var q, r := a as real / d, n as real / d;
    assert (w as real + q) * d == n as real by {
      assert q * d == a as real;
      assert (w * p) as real == w as real * d;
      assert (w as real + q) * d == w as real * d + q * d;
    }
    assert r * d == n as real;
    CancelPositive(w as real + q, r, d);
  }

  /** `float()` of the match is its exact decimal value: the integer digits
      alone when there is no fraction part; otherwise all the digits, with the
      '.' removed, divided by 10 to the number of fraction digits. */
  lemma SpanValueDecimal(s: string, m: Span)
    requires m.start < m.intEnd <= m.end <= |s|
    requires AllDigits(s[m.start..m.intEnd])
    requires m.intEnd < m.end ==> AllDigits(s[m.intEnd + 1..m.end])
    ensures m.intEnd == m.end ==> SpanValue(s, m) == DigitsValue(s[m.start..m.intEnd]) as real
    ensures m.intEnd < m.end ==>
      var frac := s[m.intEnd + 1..m.end];
      AllDigits(s[m.start..m.intEnd] + frac) &&
      SpanValue(s, m) == DigitsValue(s[m.start..m.intEnd] + frac) as real / Pow10(|frac|) as real
  {
    if m.intEnd < m.end {
      var whole, frac := s[m.start..m.intEnd], s[m.intEnd + 1..m.end];
      DigitsValueAppend(whole, frac);
      JoinFraction(DigitsValue(whole), DigitsValue(frac), Pow10(|frac|), DigitsValue(whole + frac));
    }
  }

  /** The 5-point to 10-point conversion: a score of at most 5 is doubled,
      anything above 5 is kept. */
  function Normalise(v: real): (r: real)
    ensures 0.0 <= v <= 10.0 ==> 0.0 <= r <= 10.0
    ensures v > 5.0 ==> r == v
    ensures 0.0 <= v ==> v <= r
    ensures v <= 5.0 ==> r == 2.0 * v
  {
    if v <= 5.0 then v * 2.0 else v
  }

  /** The score read from a text, or `None` when the text holds no digit. */
  function ParseRating(s: string): (r: Option<real>)
    ensures r.Some? <==> exists k :: 0 <= k < |s| && IsDigit(s[k])
    ensures r.Some? ==> 0.0 <= r.value
  {
    match FindNumber(s)
    case None => None
    case Some(m) =>
      assert AllDigits(s[m.start..m.intEnd]);
      assert m.intEnd < m.end ==> AllDigits(s[m.intEnd + 1..m.end]);
      Some(Normalise(SpanValue(s, m)))
  }

  /** "9.0 Excellent" reads as 9.0: the number starts at the first digit and
      the words after it are ignored; 9.0 is above 5 and is kept. */
  lemma ParseRatingNineExcellent()
    ensures ParseRating("9.0 Excellent") == Some(9.0)
  {
    var s := "9.0 Excellent";
    assert FirstDigit(s) == 0;
    assert DigitsEnd(s, 1) == 1;
    assert DigitsEnd(s, 0) == 1;
    assert DigitsEnd(s, 3) == 3;
    assert DigitsEnd(s, 2) == 3;
    assert FindNumber(s) == Some(Span(0, 1, 3));
    assert DigitsValue(s[0..1]) == 9 by { assert s[0..1] == "9"; }
    assert DigitsValue(s[2..3]) == 0 by { assert s[2..3] == "0"; }
  }

  /** A five-point score is doubled: "4.5" reads as 9.0. */
  lemma ParseRatingFourAndHalf()
    ensures ParseRating("4.5") == Some(9.0)
  {
    var s := "4.5";
    assert FirstDigit(s) == 0;
    assert DigitsEnd(s, 1) == 1;
    assert DigitsEnd(s, 0) == 1;
    assert DigitsEnd(s, 3) == 3;
    assert DigitsEnd(s, 2) == 3;
    assert FindNumber(s) == Some(Span(0, 1, 3));
    assert DigitsValue(s[0..1]) == 4 by { assert s[0..1] == "4"; }
    assert DigitsValue(s[2..3]) == 5 by { assert s[2..3] == "5"; }
  }

  /** A score above 5 is kept: "8.5" reads as 8.5. */
  lemma ParseRatingEightAndHalf()
    ensures ParseRating("8.5") == Some(8.5)
  {
    var s := "8.5";
    assert FirstDigit(s) == 0;
    assert DigitsEnd(s, 1) == 1;
    assert DigitsEnd(s, 0) == 1;
    assert DigitsEnd(s, 3) == 3;
    assert DigitsEnd(s, 2) == 3;
    assert FindNumber(s) == Some(Span(0, 1, 3));
    assert DigitsValue(s[0..1]) == 8 by { assert s[0..1] == "8"; }
    assert DigitsValue(s[2..3]) == 5 by { assert s[2..3] == "5"; }
  }

  /** Only the first number counts: "7.5 of 10" reads as 7.5. */
  lemma ParseRatingFirstNumberOnly()
    ensures ParseRating("7.5 of 10") == Some(7.5)
  {
    var s := "7.5 of 10";
    assert FirstDigit(s) == 0;
    assert DigitsEnd(s, 1) == 1;
    assert DigitsEnd(s, 0) == 1;
    assert DigitsEnd(s, 3) == 3;
    assert DigitsEnd(s, 2) == 3;
    assert FindNumber(s) == Some(Span(0, 1, 3));
    assert DigitsValue(s[0..1]) == 7 by { assert s[0..1] == "7"; }
    assert DigitsValue(s[2..3]) == 5 by { assert s[2..3] == "5"; }
  }

  /** The first number may stand after other words: "Scored 6" reads as 6. */
  lemma ParseRatingAfterWords()
    ensures ParseRating("Scored 6") == Some(6.0)
  {
    var s := "Scored 6";
    assert FirstDigit(s[7..]) == 0;
    assert FirstDigit(s) == 7;
    assert DigitsEnd(s, 8) == 8;
    assert DigitsEnd(s, 7) == 8;
    assert FindNumber(s) == Some(Span(7, 8, 8));
    assert DigitsValue(s[7..8]) == 6 by { assert s[7..8] == "6"; }
  }

  /** A text without digits gives no score. */
  lemma ParseRatingNoDigits()
    ensures ParseRating("Excellent") == None
  {
    var s := "Excellent";
    assert forall k :: 0 <= k < |s| ==> !IsDigit(s[k]);
  }
}
