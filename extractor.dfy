/**
 * The field extractor (`_extract_review_data`): each of the seven fields is
 * searched for in its own selector list, in order, and the first candidate
 * text the field accepts wins; some fields then have a fallback. A field that
 * nothing supplies is absent from the record.
 */
module Extractor {
  import opened Wrappers
  import opened Text
  import opened Browser
  import opened Strategy
  import Rating

  const TextSelectors: seq<string> := [
    "span[data-testid='review-text']",
    "div[data-testid='review-text']",
    "p[class*='review']",
    "div[class*='review-text']",
    "span[class*='review']"
  ]

  const RatingSelectors: seq<string> := [
    "[class*='rating']",
    "[class*='score']",
    "[data-testid*='rating']",
    "[aria-label*='rating']"
  ]

  const AuthorSelectors: seq<string> := [
    "[class*='name']",
    "[class*='author']",
    "[data-testid*='author']",
    "span[class*='reviewer']"
  ]

  const CountrySelectors: seq<string> := [
    "[class*='country']",
    "[data-testid*='country']",
    "span[title*='country']"
  ]

  const DateSelectors: seq<string> := [
    "[class*='date']",
    "[data-testid*='date']",
    "time",
    "span[class*='review-date']"
  ]

  const RoomTypeSelectors: seq<string> := [
    "[class*='room']",
    "[class*='accommodation']",
    "[data-testid*='room']"
  ]

  const StayDurationSelectors: seq<string> := [
    "[class*='stay']",
    "[class*='duration']",
    "[class*='nights']"
  ]

  /** The whole-node text fallback keeps at most this many characters. */
  const TextFallbackLimit: nat := 500

  /** An author text must be shorter than this. */
  const AuthorLengthLimit: nat := 100

  /** One extracted review: the dictionary `_extract_review_data` returns.
      `text` is always present; every other key may be missing (`None`). */
  datatype Review = Review(
    text: string,
    rating: Option<real>,
    author: Option<string>,
    country: Option<string>,
    date: Option<string>,
    roomType: Option<string>,
    stayDuration: Option<string>
  )

  /** What a text field accepts from a candidate's stripped text. */
  datatype Acceptance = NonEmpty | ShortName | MentionsRoom

  /** What each field accepts; none accepts the empty text. */
  predicate Accepts(rule: Acceptance, t: string)
    ensures Accepts(rule, t) ==> |t| > 0
  {
    match rule
    case NonEmpty => |t| > 0
    case ShortName => |t| > 0 && |t| < AuthorLengthLimit
    case MentionsRoom => |t| > 0 && Contains(Lower(t), "room")
  }

  /** `find_element(sel).text.strip()` inside the review node. */
  function StrippedText(e: Element, sel: string): (r: Option<string>)
    ensures r.Some? ==> IsStripped(r.value)
  {
    match e.query(sel)
    case Some(raw) => Some(Strip(raw))
    case None => None
  }

  /** The selector yields a text the field accepts. */
  predicate Accepted(e: Element, sel: string, rule: Acceptance) {
    StrippedText(e, sel).Some? && Accepts(rule, StrippedText(e, sel).value)
  }

  /** One step of a text field's search: the selector's stripped text, if accepted. */
  function TextStrategy(e: Element, rule: Acceptance): string -> Option<string> {
    sel => if Accepted(e, sel, rule) then StrippedText(e, sel) else None
  }

  /** A text field's search: the first accepted candidate, trying the
      selectors in order; `None` when no selector yields an accepted text. */
  function Pick(e: Element, sels: seq<string>, rule: Acceptance): (r: Option<string>)
    ensures r.None? <==> forall j :: 0 <= j < |sels| ==> !Accepted(e, sels[j], rule)
    ensures r.Some? ==> Accepts(rule, r.value) && IsStripped(r.value)
    ensures r.Some? ==> exists k :: 0 <= k < |sels| && StrippedText(e, sels[k]) == r &&
                                     (forall j :: 0 <= j < k ==> !Accepted(e, sels[j], rule))
  {
    var f := TextStrategy(e, rule);
    var k := FirstSomeIndex(sels, f);
    assert forall j :: 0 <= j < |sels| ==> (f(sels[j]).Some? <==> Accepted(e, sels[j], rule));
    FirstSome(sels, f)
  }

  /** When only the first selector yields a text, the field is that text if
      the field accepts it, and absent otherwise. */
  lemma PickSoleCandidate(e: Element, sels: seq<string>, rule: Acceptance)
    requires |sels| >= 1 && StrippedText(e, sels[0]).Some?
    requires forall j :: 1 <= j < |sels| ==> StrippedText(e, sels[j]).None?
    ensures var t := StrippedText(e, sels[0]).value;
      Pick(e, sels, rule) == (if Accepts(rule, t) then Some(t) else None)
  {
    var f := TextStrategy(e, rule);
    forall j | 1 <= j < |sels|
      ensures f(sels[j]).None?
    {
    }
    OnlyFirstCounts(sels, f);
  }

  /** One step of the rating search: the first number in the selector's
      stripped text, normalised; `None` when the text holds no digit. */
  function RatingStrategy(e: Element): string -> Option<real> {
    sel => match StrippedText(e, sel)
           case Some(t) => Rating.ParseRating(t)
           case None => None
  }

  /** `text[:500]`. */
  function Truncate(s: string, n: nat): (r: string)
    ensures |r| <= n && |r| <= |s| && r == s[..|r|]
    ensures |s| <= n ==> r == s
    ensures |s| > n ==> |r| == n
  {
    if |s| <= n then s else s[..n]
  }

  /** The text fallback: the node's whole stripped text, cut to 500 characters,
      or "" when reading it raises (the section's own `except`). */
  function FallbackText(e: Element): (t: string)
    ensures |t| <= TextFallbackLimit
    ensures t == [] || !IsSpace(t[0])
    ensures e.ownText.Some? ==> |t| <= |Strip(e.ownText.value)| && t == Strip(e.ownText.value)[..|t|]
    ensures e.ownText.Some? && |Strip(e.ownText.value)| <= TextFallbackLimit ==> t == Strip(e.ownText.value)
    ensures e.ownText.Some? && |Strip(e.ownText.value)| > TextFallbackLimit ==> |t| == TextFallbackLimit
    ensures e.ownText.None? ==> t == ""
  {
    match e.ownText
    case Some(raw) =>
      var s := Strip(raw);
      var t := Truncate(s, TextFallbackLimit);
      assert t != [] ==> t[0] == s[0];
      t
    case None => ""
  }

  /** The rating fallback: the number in the node's non-empty `aria-label`. */
  function FallbackRating(e: Element): (r: Option<real>)
    ensures r.Some? <==> e.ariaLabel.Some? && exists k :: 0 <= k < |e.ariaLabel.value| && Rating.IsDigit(e.ariaLabel.value[k])
    ensures r.Some? ==> 0.0 <= r.value
  {
    match e.ariaLabel
    case Some(a) => if |a| > 0 then Rating.ParseRating(a) else None
    case None => None
  }

  /** The date fallback: the non-empty `datetime` attribute of the node's `time`. */
  function FallbackDate(e: Element): (d: Option<string>)
    ensures d.Some? <==> e.timeDatetime.Some? && e.timeDatetime.value != []
    ensures d.Some? ==> d == e.timeDatetime
  {
    match e.timeDatetime
    case Some(d) => if |d| > 0 then Some(d) else None
    case None => None
  }

  /** The text field: the first non-empty stripped selector text, else the fallback. */
  function TextField(e: Element): (t: string)
    ensures t == [] || !IsSpace(t[0])
  {
    match Pick(e, TextSelectors, NonEmpty)
    case Some(t) => t
    case None => FallbackText(e)
  }

  /** The rating field: the first selector whose text holds a number, else the
      `aria-label` fallback. */
  function RatingField(e: Element): (r: Option<real>)
    ensures r.Some? ==> 0.0 <= r.value
  {
    var found := FirstSome(RatingSelectors, RatingStrategy(e));
    if found.Some? then found else FallbackRating(e)
  }

  /** The date field: the first non-empty stripped selector text, else the
      `time` element's `datetime`. */
  function DateField(e: Element): (d: Option<string>)
    ensures d.Some? ==> d.value != []
  {
    var found := Pick(e, DateSelectors, NonEmpty);
    if found.Some? then found else FallbackDate(e)
  }

  /** The author field: the first stripped selector text that is non-empty and
      shorter than 100 characters. */
  function AuthorField(e: Element): (a: Option<string>)
    ensures a.Some? ==> 0 < |a.value| < AuthorLengthLimit
  {
    Pick(e, AuthorSelectors, ShortName)
  }

  /** The room-type field: the first stripped selector text whose lower-case
      form contains "room". */
  function RoomTypeField(e: Element): (t: Option<string>)
    ensures t.Some? ==> Contains(Lower(t.value), "room")
  {
    Pick(e, RoomTypeSelectors, MentionsRoom)
  }

  /** The country field: the first non-empty stripped selector text. */
  function CountryField(e: Element): (c: Option<string>)
    ensures c.Some? ==> c.value != [] && IsStripped(c.value)
  {
    Pick(e, CountrySelectors, NonEmpty)
  }

  /** The stay-duration field: the first non-empty stripped selector text. */
  function StayDurationField(e: Element): (d: Option<string>)
    ensures d.Some? ==> d.value != [] && IsStripped(d.value)
  {
    Pick(e, StayDurationSelectors, NonEmpty)
  }

  /** The record extracted from one review node. */
  function ReviewOf(e: Element): (r: Review)
    ensures r.text == [] || !IsSpace(r.text[0])
    ensures r.author.Some? ==> 0 < |r.author.value| < AuthorLengthLimit
    ensures r.roomType.Some? ==> Contains(Lower(r.roomType.value), "room")
    ensures r.rating.Some? ==> 0.0 <= r.rating.value
    ensures r.date.Some? ==> r.date.value != []
    ensures r.country.Some? ==> r.country.value != [] && IsStripped(r.country.value)
    ensures r.stayDuration.Some? ==> r.stayDuration.value != [] && IsStripped(r.stayDuration.value)
  {
    var text := TextField(e);
    var rating := RatingField(e);
    var author := AuthorField(e);
    var country := CountryField(e);
    var date := DateField(e);
    var roomType := RoomTypeField(e);
    var stayDuration := StayDurationField(e);
    Review(text, rating, author, country, date, roomType, stayDuration)
  }

  /** The text section: the ordered search, then the whole-node fallback. */
  method ExtractText(e: Element) returns (t: string)
    ensures t == TextField(e)
  {
    var found := SearchInOrder(TextSelectors, TextStrategy(e, NonEmpty));
    if found.Some? {
      t := found.value;
    } else {
      t := FallbackText(e);
    }
  }

  /** The rating section: the ordered search, then the `aria-label` fallback. */
  method ExtractRating(e: Element) returns (rating: Option<real>)
    ensures rating == RatingField(e)
  {
    rating := SearchInOrder(RatingSelectors, RatingStrategy(e));
    if rating.None? {
      rating := FallbackRating(e);
    }
  }

  /** The date section: the ordered search, then the `time@datetime` fallback. */
  method ExtractDate(e: Element) returns (date: Option<string>)
    ensures date == DateField(e)
  {
    date := SearchInOrder(DateSelectors, TextStrategy(e, NonEmpty));
    if date.None? {
      date := FallbackDate(e);
    }
  }

  /** `_extract_review_data`: the record is filled field by field, each field
      by its own ordered search followed by its fallback. */
  method ExtractReviewData(e: Element) returns (r: Review)
    ensures r == ReviewOf(e)
  {
    var text := ExtractText(e);
    var rating := ExtractRating(e);
    var author := SearchInOrder(AuthorSelectors, TextStrategy(e, ShortName));
    assert author == AuthorField(e);
    var country := SearchInOrder(CountrySelectors, TextStrategy(e, NonEmpty));
    assert country == CountryField(e);
    var date := ExtractDate(e);
    var roomType := SearchInOrder(RoomTypeSelectors, TextStrategy(e, MentionsRoom));
    assert roomType == RoomTypeField(e);
    var stayDuration := SearchInOrder(StayDurationSelectors, TextStrategy(e, NonEmpty));
    assert stayDuration == StayDurationField(e);
    r := Review(text, rating, author, country, date, roomType, stayDuration);
  }

  /** The author limit is strict: when only the first author selector yields a
      text, a text of 1 to 99 characters is kept and one of 100 or more leaves
      the field absent. */
  lemma AuthorLengthRule(e: Element)
    requires StrippedText(e, AuthorSelectors[0]).Some?
    requires forall j :: 1 <= j < |AuthorSelectors| ==> StrippedText(e, AuthorSelectors[j]).None?
    ensures var t := StrippedText(e, AuthorSelectors[0]).value;
      AuthorField(e) == (if 0 < |t| < 100 then Some(t) else None)
  {
    PickSoleCandidate(e, AuthorSelectors, ShortName);
  }

  /** A rejected author text does not end the search: a 150-character text from
      the first selector is passed over and a short name from the second is kept. */
  lemma AuthorSkipsLongText(e: Element, name: string)
    requires StrippedText(e, AuthorSelectors[0]) == Some(seq(150, _ => 'x'))
    requires StrippedText(e, AuthorSelectors[1]) == Some(name) && 0 < |name| < 100
    ensures AuthorField(e) == Some(name)
  {
    var f := TextStrategy(e, ShortName);
    assert f(AuthorSelectors[0]).None?;
    assert f(AuthorSelectors[1]) == Some(name);
    SecondWins(AuthorSelectors, f);
  }

  /** "Deluxe Suite" does not mention a room and is passed over; the search goes
      on and "Superior Room" from a later selector is stored as found. */
  lemma RoomTypeSkipsSuite(e: Element)
    requires StrippedText(e, RoomTypeSelectors[0]) == Some("Deluxe Suite")
    requires StrippedText(e, RoomTypeSelectors[1]).None?
    requires StrippedText(e, RoomTypeSelectors[2]) == Some("Superior Room")
    ensures RoomTypeField(e) == Some("Superior Room")
  {
    var f := TextStrategy(e, MentionsRoom);
    SuiteIsNoRoom();
    SuperiorRoomIsRoom();
    assert f(RoomTypeSelectors[0]).None?;
    assert f(RoomTypeSelectors[1]).None?;
    assert f(RoomTypeSelectors[2]) == Some("Superior Room");
    ThirdWins(RoomTypeSelectors, f);
  }

  lemma SuiteIsNoRoom()
    ensures !Contains(Lower("Deluxe Suite"), "room")
  {
    assert Lower("Deluxe Suite") == "deluxe suite";
    NotContainsMissingChar("deluxe suite", "room", 'r');
  }

  lemma SuperiorRoomIsRoom()
    ensures Contains(Lower("Superior Room"), "room")
  {
    assert Lower("Superior Room") == "superior " + "room" + "";
    ContainsJoin("superior ", "room", "");
  }

  /** A room-type selector text without "room" leaves the field absent, even
      though a selector matched it. */
  lemma RoomTypeRejectsSuite(e: Element)
    requires StrippedText(e, RoomTypeSelectors[0]) == Some("Deluxe Suite")
    requires StrippedText(e, RoomTypeSelectors[1]).None?
    requires StrippedText(e, RoomTypeSelectors[2]).None?
    ensures RoomTypeField(e) == None
  {
    SuiteIsNoRoom();
    var f := TextStrategy(e, MentionsRoom);
    assert f(RoomTypeSelectors[0]).None?;
    assert f(RoomTypeSelectors[1]).None?;
    assert f(RoomTypeSelectors[2]).None?;
    NoneOfThree(RoomTypeSelectors, f);
  }

  /** Once a rating selector yields a number, the `aria-label` is never read:
      nodes that differ only in it get the same rating. */
  lemma RatingIgnoresAriaLabelAfterMatch(e: Element, aria: Option<string>)
    requires FirstSome(RatingSelectors, RatingStrategy(e)).Some?
    ensures RatingField(e.(ariaLabel := aria)) == RatingField(e)
  {
    var e2 := e.(ariaLabel := aria);
    forall j | 0 <= j < |RatingSelectors|
      ensures RatingStrategy(e)(RatingSelectors[j]) == RatingStrategy(e2)(RatingSelectors[j])
    {
      assert StrippedText(e, RatingSelectors[j]) == StrippedText(e2, RatingSelectors[j]);
    }
    FirstSomeIgnoresLater(RatingSelectors, RatingStrategy(e), RatingStrategy(e2));
  }

  /** A selector text without a number does not end the rating search: when
      the first rating selector yields words only, the second one's number is used. */
  lemma RatingSkipsTextWithoutNumber(e: Element, words: string, score: string)
    requires StrippedText(e, RatingSelectors[0]) == Some(words)
    requires forall k :: 0 <= k < |words| ==> !Rating.IsDigit(words[k])
    requires StrippedText(e, RatingSelectors[1]) == Some(score)
    requires exists k :: 0 <= k < |score| && Rating.IsDigit(score[k])
    ensures RatingField(e) == Rating.ParseRating(score)
  {
    var f := RatingStrategy(e);
    assert f(RatingSelectors[0]).None?;
    assert f(RatingSelectors[1]) == Rating.ParseRating(score);
    SecondWins(RatingSelectors, f);
  }

  /** Without any rating selector text holding a number, the rating is read
      from the node's `aria-label`, or is absent. */
  lemma RatingFallsBackToAriaLabel(e: Element)
    requires forall j :: 0 <= j < |RatingSelectors| ==> RatingStrategy(e)(RatingSelectors[j]).None?
    ensures RatingField(e) == (if e.ariaLabel.Some? && |e.ariaLabel.value| > 0
                               then Rating.ParseRating(e.ariaLabel.value) else None)
  {
  }

  /** The text field: a selector's text is non-empty and stripped; otherwise the
      node's whole stripped text is used, cut to 500 characters. */
  lemma TextFieldRule(e: Element)
    ensures Pick(e, TextSelectors, NonEmpty).Some? ==> TextField(e) == Pick(e, TextSelectors, NonEmpty).value
    ensures Pick(e, TextSelectors, NonEmpty).Some? ==> TextField(e) != [] && IsStripped(TextField(e))
    ensures Pick(e, TextSelectors, NonEmpty).None? ==>
      |TextField(e)| <= TextFallbackLimit &&
      (e.ownText.Some? ==> TextField(e) == Truncate(Strip(e.ownText.value), TextFallbackLimit)) &&
      (e.ownText.None? ==> TextField(e) == "")
  {
  }
}
