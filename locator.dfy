/**
 * The review locator (`_find_review_elements`) and the broad fallback that
 * `parse_booking_reviews` applies when the locator finds nothing.
 */
module Locator {
  import opened Wrappers
  import opened Browser
  import opened Strategy

  /** The fixed priority list of review-node selectors. */
  const ReviewSelectors: seq<string> := [
    "div[data-testid='review']",
    "div[data-testid='review-item']",
    "div.review-item",
    "div.c-review",
    "div[class*='review']",
    "div[class*='Review']",
    "article[data-testid='review']",
    "li[data-testid='review']",
    "div.review_list_item",
    "div.review_item",
    "div.review-block",
    "div.review-item-block",
    "div[itemprop='review']",
    "div.review_body"
  ]

  /** The broad XPath query used when no selector finds a review node. */
  const BroadQuery: string := "//div[contains(@class, 'review') or contains(@class, 'Review')]"

  /** One step of the locator: the nodes a selector finds, when there are any. */
  function LocateStrategy(page: Page): string -> Option<seq<Element>> {
    sel => NonEmptyMatch(page, sel)
  }

  /** The nodes of the first selector of `sels` that finds at least one; `[]`
      when none does. */
  function LocateWith(page: Page, sels: seq<string>): (es: seq<Element>)
    ensures es == [] <==> forall j :: 0 <= j < |sels| ==> !HasMatch(page, sels[j])
  {
    var f := LocateStrategy(page);
    assert forall j :: 0 <= j < |sels| ==> (f(sels[j]).Some? <==> HasMatch(page, sels[j]));
    match FirstSome(sels, f)
    case Some(es) =>
      assert es != [] by {
        FirstSomeAt(sels, f, FirstSomeIndex(sels, f));
      }
      es
    case None => []
  }

  /** First match wins: the result is empty exactly when no selector finds a
      node (a selector that raises counts as finding none), and otherwise it is
      what the earliest selector that finds any node found. */
  lemma LocateWithIsFirstMatch(page: Page, sels: seq<string>)
    ensures LocateWith(page, sels) == [] <==> forall j :: 0 <= j < |sels| ==> !HasMatch(page, sels[j])
    ensures LocateWith(page, sels) != [] ==>
      exists k :: 0 <= k < |sels| && page.findAll(sels[k]) == Some(LocateWith(page, sels)) &&
                  (forall j :: 0 <= j < k ==> !HasMatch(page, sels[j]))
  {
    var f := LocateStrategy(page);
    var k := FirstSomeIndex(sels, f);
    assert forall j :: 0 <= j < |sels| ==> (f(sels[j]).Some? <==> HasMatch(page, sels[j]));
    if k < |sels| {
      assert page.findAll(sels[k]) == Some(LocateWith(page, sels));
    }
  }

  /** The locator's result on a page, with the fixed selector list. */
  function Locate(page: Page): (es: seq<Element>)
    ensures es == [] <==> forall j :: 0 <= j < |ReviewSelectors| ==> !HasMatch(page, ReviewSelectors[j])
  {
    LocateWith(page, ReviewSelectors)
  }

  /** `_find_review_elements` over a selector list: try each selector in
      order, return the first non-empty result. */
  method FindReviewElementsWith(page: Page, sels: seq<string>) returns (es: seq<Element>)
    ensures es == LocateWith(page, sels)
  {
    var found := SearchInOrder(sels, LocateStrategy(page));
    if found.Some? {
      es := found.value;
    } else {
      es := [];
    }
  }

  /** `_find_review_elements` with the fixed selector list. */
  method FindReviewElements(page: Page) returns (es: seq<Element>)
    ensures es == Locate(page)
  {
    es := FindReviewElementsWith(page, ReviewSelectors);
  }

  /** The highest-priority selector that finds anything decides the result,
      whatever later selectors would find. */
  lemma LocateFirstWins(page: Page, k: nat)
    requires k < |ReviewSelectors| && HasMatch(page, ReviewSelectors[k])
    requires forall j :: 0 <= j < k ==> !HasMatch(page, ReviewSelectors[j])
    ensures Locate(page) == page.findAll(ReviewSelectors[k]).value
  {
    FirstSomeAt(ReviewSelectors, LocateStrategy(page), k);
  }

  /** Later selectors are never consulted: two pages that answer alike up to and
      including the winning selector of `sels` yield the same nodes. */
  lemma LocateWithIgnoresLater(page: Page, other: Page, sels: seq<string>)
    requires forall j :: 0 <= j < |sels| && j <= FirstSomeIndex(sels, LocateStrategy(page)) ==>
      page.findAll(sels[j]) == other.findAll(sels[j])
    ensures LocateWith(other, sels) == LocateWith(page, sels)
  {
    FirstSomeIgnoresLater(sels, LocateStrategy(page), LocateStrategy(other));
  }

  /** The same for the fixed review selectors. */
  lemma LocateIgnoresLater(page: Page, other: Page)
    requires forall j :: 0 <= j < |ReviewSelectors| && j <= FirstSomeIndex(ReviewSelectors, LocateStrategy(page)) ==>
      page.findAll(ReviewSelectors[j]) == other.findAll(ReviewSelectors[j])
    ensures Locate(other) == Locate(page)
  {
    LocateWithIgnoresLater(page, other, ReviewSelectors);
  }

  /** Selector 1 finds nothing, selector 2 raises, selector 3 finds five nodes:
      those five nodes are the result. */
  lemma LocateThirdSelector(page: Page, five: seq<Element>)
    requires page.findAll(ReviewSelectors[0]) == Some([])
    requires page.findAll(ReviewSelectors[1]).None?
    requires page.findAll(ReviewSelectors[2]) == Some(five) && |five| == 5
    ensures Locate(page) == five
  {
    var f := LocateStrategy(page);
    assert f(ReviewSelectors[0]).None?;
    assert f(ReviewSelectors[1]).None?;
    ThirdWins(ReviewSelectors, f);
  }

  /** The candidates the assembler examines, over a selector list: the
      locator's nodes, or else the broad query's nodes capped at
      `3 * maxReviews`, or else nothing. */
  function CandidatesWith(page: Page, sels: seq<string>, maxReviews: int): (cs: seq<Element>)
    requires maxReviews >= 1
    ensures LocateWith(page, sels) != [] ==> cs == LocateWith(page, sels)
    ensures LocateWith(page, sels) == [] && page.findAll(BroadQuery).Some? ==>
      var all := page.findAll(BroadQuery).value;
      |cs| == (if |all| < 3 * maxReviews then |all| else 3 * maxReviews) && cs == all[..|cs|]
    ensures LocateWith(page, sels) == [] && page.findAll(BroadQuery).None? ==> cs == []
  {
    var located := LocateWith(page, sels);
    if |located| == 0 then
      match page.findAll(BroadQuery)
      case Some(all) =>
        if |all| > 0 then all[..if |all| < 3 * maxReviews then |all| else 3 * maxReviews] else located
      case None => located
    else
      located
  }

  /** The same with the fixed selector list. */
  function Candidates(page: Page, maxReviews: int): (cs: seq<Element>)
    requires maxReviews >= 1
    ensures Locate(page) != [] ==> cs == Locate(page)
    ensures Locate(page) == [] && page.findAll(BroadQuery).Some? ==>
      var all := page.findAll(BroadQuery).value;
      |cs| == (if |all| < 3 * maxReviews then |all| else 3 * maxReviews) && cs == all[..|cs|]
    ensures Locate(page) == [] && page.findAll(BroadQuery).None? ==> cs == []
  {
    CandidatesWith(page, ReviewSelectors, maxReviews)
  }

  /** Lines 415-428 of the scraper over a selector list: locate, and fall back
      to the broad query when the locator finds nothing. */
  method FindCandidatesWith(page: Page, sels: seq<string>, maxReviews: int) returns (cs: seq<Element>)
    requires maxReviews >= 1
    ensures cs == CandidatesWith(page, sels, maxReviews)
  {
    cs := FindReviewElementsWith(page, sels);
    if |cs| == 0 {
      var broad := page.findAll(BroadQuery);
      if broad.Some? && |broad.value| > 0 {
        var all := broad.value;
        cs := all[..if |all| < 3 * maxReviews then |all| else 3 * maxReviews];
      }
    }
  }

  /** The same with the fixed selector list. */
  method FindCandidates(page: Page, maxReviews: int) returns (cs: seq<Element>)
    requires maxReviews >= 1
    ensures cs == Candidates(page, maxReviews)
  {
    cs := FindCandidatesWith(page, ReviewSelectors, maxReviews);
  }
}
