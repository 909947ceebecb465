/**
 * The tail of `parse_booking_reviews`: extract a record from each of the first
 * `2 * maxReviews` candidate nodes, in order, keep those whose text is longer
 * than ten characters, stop once `maxReviews` are kept, and return at most
 * `maxReviews` of them.
 */
module Assembler {
  import opened Browser
  import opened Extractor
  import opened Text

  /** A kept record's text must be longer than this. */
  const MinTextLength: nat := 10

  /** `review_data.get("text") and len(review_data.get("text", "")) > 10`. */
  predicate Qualifies(r: Review)
    ensures Qualifies(r) <==> |r.text| >= MinTextLength + 1
  {
    |r.text| > 0 && |r.text| > MinTextLength
  }

  /** The candidates examined: the first `2 * maxReviews` of them. */
  function Window(cands: seq<Element>, maxReviews: int): (w: seq<Element>)
    requires maxReviews >= 1
    ensures |w| <= 2 * maxReviews && |w| <= |cands|
    ensures w == cands[..|w|]
    ensures |cands| <= 2 * maxReviews ==> w == cands
    ensures |cands| > 2 * maxReviews ==> |w| == 2 * maxReviews
  {
    cands[..if |cands| < 2 * maxReviews then |cands| else 2 * maxReviews]
  }

  /** The record `extract` yields for each node, in order. */
  function Records(es: seq<Element>, extract: Element -> Review): (rs: seq<Review>)
    ensures |rs| == |es|
    ensures forall j :: 0 <= j < |es| ==> rs[j] == extract(es[j])
  {
    seq(|es|, j requires 0 <= j < |es| => extract(es[j]))
  }

  /** Extending the nodes by one extends the records by that node's record. */
  lemma RecordsSnoc(es: seq<Element>, extract: Element -> Review, i: nat)
    requires i < |es|
    ensures Records(es[..i + 1], extract) == Records(es[..i], extract) + [extract(es[i])]
  {
  }

  /** The records of a prefix are the prefix of the records. */
  lemma RecordsPrefix(es: seq<Element>, extract: Element -> Review, k: nat)
    requires k <= |es|
    ensures Records(es[..k], extract) == Records(es, extract)[..k]
  {
  }

  /** The qualifying records among `rs`, in their order. */
  function Qualifying(rs: seq<Review>): (q: seq<Review>)
    ensures |q| <= |rs|
    ensures forall j :: 0 <= j < |q| ==> Qualifies(q[j])
  {
    if |rs| == 0 then []
    else
      var last := rs[|rs| - 1];
      Qualifying(rs[..|rs| - 1]) + (if Qualifies(last) then [last] else [])
  }

  /** Extending the records by one keeps the new record exactly when it qualifies. */
  lemma QualifyingSnoc(rs: seq<Review>, r: Review)
    ensures Qualifying(rs + [r]) == Qualifying(rs) + (if Qualifies(r) then [r] else [])
  {
    assert (rs + [r])[..|rs|] == rs;
  }

  /** The first `n` elements of `rs`, or all of them when there are fewer. */
  function Take<T>(rs: seq<T>, n: nat): (t: seq<T>)
    ensures |t| <= n && |t| <= |rs|
    ensures t == rs[..|t|]
    ensures |rs| <= n ==> t == rs
    ensures |rs| > n ==> |t| == n
  {
    if |rs| <= n then rs else rs[..n]
  }

  /** The list `parse_booking_reviews` returns for a list of candidate nodes,
      each turned into a record by `extract`. */
  function Assemble(cands: seq<Element>, maxReviews: int, extract: Element -> Review): (reviews: seq<Review>)
    requires maxReviews >= 1
    ensures |reviews| <= maxReviews
    ensures forall j :: 0 <= j < |reviews| ==> Qualifies(reviews[j])
  {
    Take(Qualifying(Records(Window(cands, maxReviews), extract)), maxReviews)
  }

  /** Filtering distributes over concatenation: the kept records keep the
      order of the candidates they come from. */
  lemma {:induction false} QualifyingAppend(a: seq<Review>, b: seq<Review>)
    ensures Qualifying(a + b) == Qualifying(a) + Qualifying(b)
    decreases |b|
  {
    if |b| == 0 {
      assert a + b == a;
    } else {
      var ab := a + b;
      assert ab[..|ab| - 1] == a + b[..|b| - 1];
      assert ab[|ab| - 1] == b[|b| - 1];
      QualifyingAppend(a, b[..|b| - 1]);
    }
  }

  /** A record is kept exactly when it is among the inputs and qualifies. */
  lemma {:induction false} QualifyingMembers(rs: seq<Review>, r: Review)
    ensures r in Qualifying(rs) <==> r in rs && Qualifies(r)
  {
    if |rs| > 0 {
      var init := rs[..|rs| - 1];
      QualifyingMembers(init, r);
      assert rs == init + [rs[|rs| - 1]];
    }
  }

  /** When every record qualifies, none is dropped. */
  lemma {:induction false} QualifyingAll(rs: seq<Review>)
    requires forall j :: 0 <= j < |rs| ==> Qualifies(rs[j])
    ensures Qualifying(rs) == rs
  {
    if |rs| > 0 {
      QualifyingAll(rs[..|rs| - 1]);
      assert rs == rs[..|rs| - 1] + [rs[|rs| - 1]];
    }
  }

  /** Once a prefix already supplies `n` kept records, the rest of the input
      does not change the first `n`: stopping early loses nothing. */
  lemma TakeOfQualifyingPrefix(rs: seq<Review>, k: nat, n: nat)
    requires k <= |rs| && |Qualifying(rs[..k])| >= n
    ensures Take(Qualifying(rs), n) == Take(Qualifying(rs[..k]), n)
  {
    assert rs == rs[..k] + rs[k..];
    QualifyingAppend(rs[..k], rs[k..]);
  }

  /** Stopping after the first `k` examined candidates gives the full result
      when they are all of them or already supply `maxReviews` records. */
  lemma AssembleFromPrefix(cands: seq<Element>, maxReviews: int, extract: Element -> Review, k: nat)
    requires maxReviews >= 1 && k <= |Window(cands, maxReviews)|
    requires k == |Window(cands, maxReviews)| ||
             |Qualifying(Records(Window(cands, maxReviews)[..k], extract))| >= maxReviews
    ensures Take(Qualifying(Records(Window(cands, maxReviews)[..k], extract)), maxReviews) ==
            Assemble(cands, maxReviews, extract)
  {
    var w := Window(cands, maxReviews);
    RecordsPrefix(w, extract, k);
    if k < |w| {
      TakeOfQualifyingPrefix(Records(w, extract), k, maxReviews);
    } else {
      assert w[..k] == w;
    }
  }

  /** Every returned record is the qualifying record of one of the first
      `2 * maxReviews` candidates. */
  lemma AssembleMembers(cands: seq<Element>, maxReviews: int, extract: Element -> Review, r: Review)
    requires maxReviews >= 1 && r in Assemble(cands, maxReviews, extract)
    ensures Qualifies(r)
    ensures exists j :: 0 <= j < |cands| && j < 2 * maxReviews && r == extract(cands[j])
  {
    var w := Window(cands, maxReviews);
    var rs := Records(w, extract);
    var q := Qualifying(rs);
    assert r in q;
    QualifyingMembers(rs, r);
    var j :| 0 <= j < |rs| && rs[j] == r;
    assert r == extract(cands[j]);
  }

  /** Every record `parse_booking_reviews` returns has a text longer than ten
      characters that does not start with whitespace, and is the record of one
      of the examined candidates. */
  lemma AssembledRecordShape(cands: seq<Element>, maxReviews: int, r: Review)
    requires maxReviews >= 1 && r in Assemble(cands, maxReviews, ReviewOf)
    ensures |r.text| > MinTextLength && !IsSpace(r.text[0])
    ensures exists j :: 0 <= j < |cands| && j < 2 * maxReviews && r == ReviewOf(cands[j])
  {
    AssembleMembers(cands, maxReviews, ReviewOf, r);
    var j :| 0 <= j < |cands| && j < 2 * maxReviews && r == ReviewOf(cands[j]);
    var e := cands[j];
    assert r == ReviewOf(e);
  }

  /** When every examined candidate yields a qualifying record and there are
      at least `maxReviews` candidates, the result is the records of the
      first `maxReviews` candidates, in order. */
  lemma AssembleAllQualify(cands: seq<Element>, maxReviews: int, extract: Element -> Review)
    requires maxReviews >= 1 && |cands| >= maxReviews
    requires forall j :: 0 <= j < |cands| ==> Qualifies(extract(cands[j]))
    ensures Assemble(cands, maxReviews, extract) == Records(cands[..maxReviews], extract)
  {
    var w := Window(cands, maxReviews);
    var rs := Records(w, extract);
    forall j | 0 <= j < |rs|
      ensures Qualifies(rs[j])
    {
      assert rs[j] == extract(cands[j]);
    }
    QualifyingAll(rs);
    RecordsPrefix(w, extract, maxReviews);
    assert w[..maxReviews] == cands[..maxReviews];
  }

  /** A node that yields no text anywhere (no text selector finds anything and
      reading its own text raises) is never kept. */
  lemma UnreadableNodeDropped(e: Element)
    requires Pick(e, TextSelectors, NonEmpty).None? && e.ownText.None?
    ensures !Qualifies(ReviewOf(e))
  {
    TextFieldRule(e);
  }

  /** The loop at lines 430-443 of the scraper, over any extractor: examine
      the first `2 * maxReviews` candidates in order, keep each record that
      qualifies, stop once `maxReviews` are kept, return at most `maxReviews`. */
  method AssembleWith(cands: seq<Element>, maxReviews: int, extract: Element -> Review) returns (reviews: seq<Review>)
    requires maxReviews >= 1
    ensures reviews == Assemble(cands, maxReviews, extract)
  {
    var window := Window(cands, maxReviews);
    reviews := [];
    var i := 0;
    ghost var examined := 0;
    while i < |window|
      invariant 0 <= i <= |window| && examined == i
      invariant reviews == Qualifying(Records(window[..i], extract))
      invariant |reviews| < maxReviews
    {
      var r := extract(window[i]);
      RecordsSnoc(window, extract, i);
      QualifyingSnoc(Records(window[..i], extract), r);
      examined := i + 1;
      if |r.text| > 0 && |r.text| > 10 {
        reviews := reviews + [r];
        if |reviews| >= maxReviews {
          break;
        }
      }
      i := i + 1;
    }
    AssembleFromPrefix(cands, maxReviews, extract, examined);
    reviews := Take(reviews, maxReviews);
  }

  /** The tail of `parse_booking_reviews`, each candidate turned into a record
      by `_extract_review_data`. */
  method AssembleReviews(cands: seq<Element>, maxReviews: int) returns (reviews: seq<Review>)
    requires maxReviews >= 1
    ensures reviews == Assemble(cands, maxReviews, ReviewOf)
  {
    reviews := AssembleWith(cands, maxReviews, ReviewOf);
  }
}
