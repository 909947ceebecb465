/**
 * `parse_booking_reviews` end to end: open the hotel page, go to the reviews
 * tab, run the lazy-load loop, locate the review nodes (with the broad
 * fallback) and assemble the records. Any failure that reaches the outer
 * `except` yields the empty list.
 */
module Pipeline {
  import opened Wrappers
  import opened Browser
  import opened Text
  import opened Navigation
  import opened Locator
  import opened LazyLoad
  import opened Extractor
  import opened Assembler

  /** One browser run. `pagesAfter(target)` is the document, look by look,
      after the driver has been sent to `target`; the looks are numbered from
      0 and each round of the lazy-load loop takes one. */
  datatype Session = Session(pagesAfter: string -> (nat -> Page))

  /** The candidate review nodes on the page as the look after the lazy-load
      loop finds it, where `pageAt` is the reviews tab look by look: the
      candidates of the look after one of the (at most eight) rounds. */
  function FinalCandidates(pageAt: nat -> Page, maxReviews: int): (cs: seq<Element>)
    requires maxReviews >= 1
    ensures exists n :: 1 <= n <= MaxScrollRounds && cs == Candidates(pageAt(n), maxReviews)
  {
    Candidates(pageAt(ScrollRounds(pageAt, maxReviews)), maxReviews)
  }

  /** What `parse_booking_reviews(url, maxReviews)` returns. `None` stands for
      a run in which an exception reaches the outer `except` (the driver cannot
      be started, the first page load or a scroll script raises), which
      returns `[]`. */
  function Scrape(session: Option<Session>, url: string, maxReviews: int): (reviews: seq<Review>)
    requires maxReviews >= 1
    ensures |reviews| <= maxReviews
    ensures forall j :: 0 <= j < |reviews| ==> Qualifies(reviews[j])
    ensures session.None? ==> reviews == []
  {
    match session
    case None => []
    case Some(s) => Assemble(FinalCandidates(s.pagesAfter(ReviewsUrl(url)), maxReviews), maxReviews, ReviewOf)
  }

  /** `parse_booking_reviews`: navigate to the reviews tab, scroll, locate,
      fall back to the broad query, then assemble. */
  method ParseBookingReviews(session: Option<Session>, url: string, maxReviews: int) returns (reviews: seq<Review>)
    requires maxReviews >= 1
    ensures reviews == Scrape(session, url, maxReviews)
  {
    if session.None? {
      return [];
    }
    var target := ReviewsUrl(url);
    var pageAt := session.value.pagesAfter(target);
    var rounds, landmarks := ScrollToLoadReviews(pageAt, maxReviews);
    var cands := FindCandidates(pageAt(rounds), maxReviews);
    reviews := AssembleReviews(cands, maxReviews);
  }

  /** Every returned record is the record of a review node of the page the
      scraper ends on, and its text is longer than ten characters and does not
      start with whitespace. */
  lemma ScrapedRecordShape(s: Session, url: string, maxReviews: int, r: Review)
    requires maxReviews >= 1 && r in Scrape(Some(s), url, maxReviews)
    ensures |r.text| > MinTextLength && !IsSpace(r.text[0])
    ensures exists e :: e in FinalCandidates(s.pagesAfter(ReviewsUrl(url)), maxReviews) && r == ReviewOf(e)
  {
    var cands := FinalCandidates(s.pagesAfter(ReviewsUrl(url)), maxReviews);
    AssembledRecordShape(cands, maxReviews, r);
    var j :| 0 <= j < |cands| && j < 2 * maxReviews && r == ReviewOf(cands[j]);
    assert cands[j] in cands;
  }
}
