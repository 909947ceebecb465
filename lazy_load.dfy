/**
 * The lazy-load loop (`_scroll_to_load_reviews`): at most eight rounds of
 * "scroll to the bottom, count the review nodes, stop when there are enough,
 * otherwise scroll to the first review-section landmark found".
 * The page is an oracle: `pageAt(i)` is the document as the i-th look at it
 * finds it, after the scrolling done so far.
 */
module LazyLoad {
  import opened Wrappers
  import opened Browser
  import opened Strategy
  import opened Locator

  const MaxScrollRounds: nat := 8

  /** The landmarks tried, in order, to bring the review list into view. */
  const ReviewSectionSelectors: seq<string> := [
    "[data-testid='reviews']",
    "#review_list_page",
    ".review_list",
    "[id*='review']",
    "[class*='review-list']"
  ]

  /** One step of the landmark search: the selector itself, when it finds a node. */
  function LandmarkStrategy(page: Page): string -> Option<string> {
    sel => if HasMatch(page, sel) then Some(sel) else None
  }

  /** The first of `sels` that finds a node on `page`. */
  function LandmarkWith(page: Page, sels: seq<string>): (l: Option<string>)
    ensures l.Some? ==> l.value in sels && HasMatch(page, l.value)
    ensures l.None? <==> forall j :: 0 <= j < |sels| ==> !HasMatch(page, sels[j])
  {
    var f := LandmarkStrategy(page);
    assert forall j :: 0 <= j < |sels| ==> (f(sels[j]).Some? <==> HasMatch(page, sels[j]));
    FirstSome(sels, f)
  }

  /** The landmark is the first selector, in order, that finds a node, and
      there is none exactly when no selector finds one. */
  lemma LandmarkWithIsFirstMatch(page: Page, sels: seq<string>)
    ensures LandmarkWith(page, sels).Some? ==>
      exists k :: 0 <= k < |sels| && LandmarkWith(page, sels).value == sels[k] && HasMatch(page, sels[k]) &&
        forall j :: 0 <= j < k ==> !HasMatch(page, sels[j])
    ensures LandmarkWith(page, sels).None? <==> forall j :: 0 <= j < |sels| ==> !HasMatch(page, sels[j])
  {
    var f := LandmarkStrategy(page);
    var k := FirstSomeIndex(sels, f);
    assert forall j :: 0 <= j < |sels| ==> (f(sels[j]).Some? <==> HasMatch(page, sels[j]));
    if k < |sels| {
      FirstSomeAt(sels, f, k);
      assert f(sels[k]) == Some(sels[k]);
    }
  }

  /** The number of review nodes a locator over `sels` sees at each of the
      eight looks at the page. */
  function Observations(pageAt: nat -> Page, sels: seq<string>): (obs: seq<nat>)
    ensures |obs| == MaxScrollRounds
  {
    seq(MaxScrollRounds, i requires 0 <= i => |LocateWith(pageAt(i), sels)|)
  }

  /** Rounds run over a list of per-round node counts: every round up to and
      including the first whose count reaches `maxReviews`. */
  function RoundsOf(obs: seq<nat>, maxReviews: int): (n: nat)
    ensures n <= |obs|
    ensures |obs| > 0 ==> 1 <= n
  {
    if |obs| == 0 then 0
    else if obs[0] >= maxReviews then 1
    else 1 + RoundsOf(obs[1..], maxReviews)
  }

  /** The loop stops at the first round that sees enough review nodes, and
      runs every round when none does. */
  lemma {:induction false} RoundsOfStops(obs: seq<nat>, maxReviews: int)
    ensures forall j :: 0 <= j < RoundsOf(obs, maxReviews) - 1 ==> obs[j] < maxReviews
    ensures RoundsOf(obs, maxReviews) < |obs| ==> obs[RoundsOf(obs, maxReviews) - 1] >= maxReviews
  {
    if |obs| > 0 && obs[0] < maxReviews {
      RoundsOfStops(obs[1..], maxReviews);
      var n := RoundsOf(obs, maxReviews);
      forall j | 0 <= j < n - 1
        ensures obs[j] < maxReviews
      {
        if j > 0 {
          assert obs[j] == obs[1..][j - 1];
        }
      }
      if n < |obs| {
        assert obs[n - 1] == obs[1..][n - 2];
      }
    }
  }

  /** The round count is pinned down by "stop at the first round that sees
      enough, or after the last". */
  lemma RoundsOfUnique(obs: seq<nat>, maxReviews: int, n: nat)
    requires 1 <= n <= |obs|
    requires forall j :: 0 <= j < n - 1 ==> obs[j] < maxReviews
    requires n < |obs| ==> obs[n - 1] >= maxReviews
    ensures RoundsOf(obs, maxReviews) == n
  {
    RoundsOfStops(obs, maxReviews);
  }

  /** The number of rounds `_scroll_to_load_reviews` runs on a page. */
  function ScrollRounds(pageAt: nat -> Page, maxReviews: int): (n: nat)
    ensures 1 <= n <= MaxScrollRounds
  {
    RoundsOf(Observations(pageAt, ReviewSelectors), maxReviews)
  }

  /** On the page itself: every round before the last sees too few review
      nodes, and a run shorter than eight rounds ends on a round that sees
      enough. */
  lemma ScrollRoundsStops(pageAt: nat -> Page, sels: seq<string>, maxReviews: int)
    ensures var n := RoundsOf(Observations(pageAt, sels), maxReviews);
      (forall j :: 0 <= j < n - 1 ==> |LocateWith(pageAt(j), sels)| < maxReviews) &&
      (n < MaxScrollRounds ==> |LocateWith(pageAt(n - 1), sels)| >= maxReviews)
  {
    var obs := Observations(pageAt, sels);
    RoundsOfStops(obs, maxReviews);
    var n := RoundsOf(obs, maxReviews);
    forall j | 0 <= j < n - 1
      ensures |LocateWith(pageAt(j), sels)| < maxReviews
    {
      assert obs[j] < maxReviews;
    }
  }

  /** Enough review nodes at the first look: a single round, no landmark. */
  lemma ScrollStopsAtFirstLook(pageAt: nat -> Page, maxReviews: int)
    requires |Locate(pageAt(0))| >= maxReviews
    ensures ScrollRounds(pageAt, maxReviews) == 1
  {
    var obs := Observations(pageAt, ReviewSelectors);
    assert obs[0] >= maxReviews;
    RoundsOfUnique(obs, maxReviews, 1);
  }

  /** Too few review nodes at every look: all eight rounds run. */
  lemma ScrollRunsAllRounds(pageAt: nat -> Page, maxReviews: int)
    requires forall i :: 0 <= i < MaxScrollRounds ==> |Locate(pageAt(i))| < maxReviews
    ensures ScrollRounds(pageAt, maxReviews) == MaxScrollRounds
  {
    var obs := Observations(pageAt, ReviewSelectors);
    assert forall j :: 0 <= j < MaxScrollRounds - 1 ==> obs[j] < maxReviews;
    RoundsOfUnique(obs, maxReviews, MaxScrollRounds);
  }

  /** The landmarks over `sels` scrolled to in the first `n` rounds. */
  function LandmarksWith(pageAt: nat -> Page, sels: seq<string>, n: nat): (ls: seq<Option<string>>)
    ensures |ls| == n
  {
    seq(n, j requires 0 <= j => LandmarkWith(pageAt(j), sels))
  }

  /** One more round that does not stop adds its landmark at the end. */
  lemma LandmarksSnoc(pageAt: nat -> Page, sels: seq<string>, n: nat)
    ensures LandmarksWith(pageAt, sels, n + 1) == LandmarksWith(pageAt, sels, n) + [LandmarkWith(pageAt(n), sels)]
  {
  }

  /** One round of the loop after the scroll to the bottom: count the review
      nodes and, when there are too few, pick the landmark. */
  method ScrollRound(page: Page, sels: seq<string>, landmarkSels: seq<string>, maxReviews: int)
    returns (enough: bool, landmark: Option<string>)
    ensures enough <==> |LocateWith(page, sels)| >= maxReviews
    ensures !enough ==> landmark == LandmarkWith(page, landmarkSels)
  {
    var reviews := FindReviewElementsWith(page, sels);
    enough := |reviews| >= maxReviews;
    landmark := None;
    if !enough {
      landmark := SearchInOrder(landmarkSels, LandmarkStrategy(page));
    }
  }

  /** The loop of `_scroll_to_load_reviews` over a review-selector list and a
      landmark list: every round before the last saw too few review nodes, the
      loop ends at the first round that saw enough or after the eighth, and
      every round that did not stop scrolled to its landmark. */
  method ScrollLoop(pageAt: nat -> Page, sels: seq<string>, landmarkSels: seq<string>, maxReviews: int)
    returns (rounds: nat, landmarks: seq<Option<string>>)
    ensures 1 <= rounds <= MaxScrollRounds
    ensures forall j :: 0 <= j < rounds - 1 ==> Observations(pageAt, sels)[j] < maxReviews
    ensures rounds < MaxScrollRounds ==> Observations(pageAt, sels)[rounds - 1] >= maxReviews
    ensures landmarks == LandmarksWith(pageAt, landmarkSels, |landmarks|)
    ensures |landmarks| == (if Observations(pageAt, sels)[rounds - 1] >= maxReviews then rounds - 1 else rounds)
  {
    ghost var obs := Observations(pageAt, sels);
    rounds, landmarks := 0, [];
    while rounds < MaxScrollRounds
      invariant rounds <= MaxScrollRounds
      invariant landmarks == LandmarksWith(pageAt, landmarkSels, rounds)
      invariant forall j :: 0 <= j < rounds ==> obs[j] < maxReviews
    {
      var enough, landmark := ScrollRound(pageAt(rounds), sels, landmarkSels, maxReviews);
      assert enough <==> obs[rounds] >= maxReviews;
      if enough {
        rounds := rounds + 1;
        return;
      }
      LandmarksSnoc(pageAt, landmarkSels, rounds);
      landmarks := landmarks + [landmark];
      rounds := rounds + 1;
    }
  }

  /** `_scroll_to_load_reviews`: at most eight rounds, stopping at the first
      that sees enough review nodes. */
  method ScrollToLoadReviews(pageAt: nat -> Page, maxReviews: int) returns (rounds: nat, landmarks: seq<Option<string>>)
    ensures rounds == ScrollRounds(pageAt, maxReviews)
    ensures landmarks == LandmarksWith(pageAt, ReviewSectionSelectors, |landmarks|)
    ensures |landmarks| == (if |Locate(pageAt(rounds - 1))| >= maxReviews then rounds - 1 else rounds)
  {
    rounds, landmarks := ScrollLoop(pageAt, ReviewSelectors, ReviewSectionSelectors, maxReviews);
    ghost var obs := Observations(pageAt, ReviewSelectors);
    RoundsOfUnique(obs, maxReviews, rounds);
    assert obs[rounds - 1] == |Locate(pageAt(rounds - 1))|;
  }
}
