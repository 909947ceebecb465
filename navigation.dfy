/**
 * The reviews deep link: `booking_url.split('#')[0] + '#tab-reviews'`.
 */
module Navigation {
  import opened Text

  const ReviewsFragment: string := "#tab-reviews"

  /** The host prefix the HTTP layer insists on before scraping. */
  const BookingPrefix: string := "https://www.booking.com"

  /** `u.split('#')[0]`: the longest prefix of `u` that holds no '#'. */
  function BeforeHash(u: string): (p: string)
    ensures '#' !in p
    ensures |p| <= |u| && p == u[..|p|]
    ensures |p| < |u| ==> u[|p|] == '#'
  {
    if |u| == 0 || u[0] == '#' then [] else [u[0]] + BeforeHash(u[1..])
  }

  /** The URL the scraper loads to reach the reviews tab. */
  function ReviewsUrl(u: string): (r: string)
    ensures |ReviewsFragment| <= |r| <= |u| + |ReviewsFragment|
    ensures r[|r| - |ReviewsFragment|..] == ReviewsFragment
    ensures r[..|r| - |ReviewsFragment|] == u[..|r| - |ReviewsFragment|]
  {
    BeforeHash(u) + ReviewsFragment
  }

  /** Everything of `u` before its first '#' is kept unchanged; the old
      fragment is dropped; exactly one '#' remains, followed by `tab-reviews`. */
  lemma ReviewsUrlShape(u: string)
    ensures var p := BeforeHash(u);
      ReviewsUrl(u) == u[..|p|] + "#tab-reviews" &&
      (|p| == |u| || u[|p|] == '#') &&
      multiset(ReviewsUrl(u))['#'] == 1
  {
    var p := BeforeHash(u);
    assert multiset(p)['#'] == 0;
    assert ReviewsFragment == ['#'] + "tab-reviews";
    assert '#' !in "tab-reviews";
    assert multiset(ReviewsFragment)['#'] == 1 by {
      assert multiset(ReviewsFragment) == multiset{'#'} + multiset("tab-reviews");
    }
    assert multiset(p + ReviewsFragment) == multiset(p) + multiset(ReviewsFragment);
  }

  /** A string free of '#' followed by a fragment splits back at that '#'. */
  lemma {:induction false} BeforeHashOfJoin(p: string, rest: string)
    requires '#' !in p
    ensures BeforeHash(p + ['#'] + rest) == p
  {
    if |p| > 0 {
      assert (p + ['#'] + rest)[1..] == p[1..] + ['#'] + rest;
      BeforeHashOfJoin(p[1..], rest);
    } else {
      assert (p + ['#'] + rest)[0] == '#';
    }
  }

  /** Rewriting an already rewritten URL changes nothing. */
  lemma ReviewsUrlIdempotent(u: string)
    ensures ReviewsUrl(ReviewsUrl(u)) == ReviewsUrl(u)
  {
    var p := BeforeHash(u);
    var r := p + ReviewsFragment;
    assert ReviewsFragment == ['#'] + "tab-reviews";
    assert r == p + ['#'] + "tab-reviews";
    BeforeHashOfJoin(p, "tab-reviews");
    assert BeforeHash(r) == p;
  }

  /** A URL without a fragment simply gains one. */
  lemma ReviewsUrlNoFragment(u: string)
    requires '#' !in u
    ensures ReviewsUrl(u) == u + "#tab-reviews"
  {
    var p := BeforeHash(u);
    assert p == u[..|u|] == u;
  }

  /** The rewrite keeps a URL on the booking host that the HTTP layer admitted. */
  lemma ReviewsUrlKeepsHost(u: string)
    requires StartsWith(u, BookingPrefix)
    ensures StartsWith(ReviewsUrl(u), BookingPrefix)
  {
    var p := BeforeHash(u);
    assert '#' !in BookingPrefix;
    assert ReviewsUrl(u)[..|BookingPrefix|] == p[..|BookingPrefix|];
  }
}
