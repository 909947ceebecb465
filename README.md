# Booking.com review scraper — a Dafny model of its core

The repository turns a Booking.com hotel URL into a list of review records.
It uses a headless Chrome driven by Selenium. This project models the part
of `scrapers/booking_reviews.py` that decides what is returned:

- **the deep link.** The URL loaded to reach the reviews tab is the hotel URL
  up to its first `#`, followed by `#tab-reviews`.
- **the review locator.** `_find_review_elements` tries 14 CSS selectors in a
  fixed order and returns the nodes of the first one that finds any. A selector
  that raises counts as finding none. When the locator finds nothing,
  `parse_booking_reviews` falls back to a broad XPath query, capped at
  `3 * max_reviews` nodes.
- **the lazy-load loop.** `_scroll_to_load_reviews` runs at most 8 rounds. Each
  round scrolls, counts the review nodes, stops once there are `max_reviews`,
  and otherwise scrolls to the first of five review-section landmarks found.
- **the field extractor.** `_extract_review_data` fills seven fields. Each has
  its own ordered selector list and acceptance rule:
  - a non-empty text;
  - an author shorter than 100 characters;
  - a room type whose lower-case form contains `room`.
  Text, rating and date each have a fallback. The rating is the first match of
  `\d+\.?\d*`, doubled when it is at most 5.
- **the assembly loop.** The records of the first `2 * max_reviews` candidates
  are examined in order. Those whose text is longer than ten characters are
  kept, stopping at `max_reviews`.

The browser is a value:

- an `Element` answers "the text of the first descendant matching this
  selector", its own text, its `aria-label` and its `time@datetime`;
- a `Page` answers `find_elements`;
- a failed or raising Selenium call is `None`.

The one ordered-fallback chain (`Strategy.FirstSome`, and the loop
`Strategy.SearchInOrder` proved to compute it) is shared by the locator, every
field and the landmark search.

Each stateful step is a method proved equal to a specification function:

- `Locator.FindReviewElements`
- `LazyLoad.ScrollToLoadReviews`
- `Extractor.ExtractReviewData`
- `Assembler.AssembleReviews`
- `Pipeline.ParseBookingReviews`

The lemmas then state what the source promises about those functions.

Two facts about the code that are easy to misread:

- **Absent fields.** A field that no selector supplies is left out of the
  record's dictionary, not set to `""`. This includes a room-type text
  without "room". The `""` defaults of author, country, date, room type and
  stay duration sit only in section-level `except` branches that no Selenium
  call can reach, because every call inside them has its own `try`.
- **Text length.** A record is kept only when its text is longer than 10
  characters (`> 10` at `scrapers/booking_reviews.py:434`), so 11 characters
  or more.

## Model

| member | source | states |
|---|---|---|
| Strategy.FirstSome | scrapers/booking_reviews.py:157-166 | an ordered search yields nothing exactly when every strategy yields nothing |
| Strategy.FirstSomeIndex | scrapers/booking_reviews.py:157-166 | the winner is the first strategy that yields a value: all before it yield nothing |
| Strategy.FirstSomeAt | scrapers/booking_reviews.py:157-166 | a strategy that yields a value, with nothing yielded before it, is the winner and supplies the result |
| Strategy.FirstSomeIgnoresLater | scrapers/booking_reviews.py:157-163 | strategies after the winner are never consulted: two tables agreeing up to the winner give the same result |
| Strategy.OnlyFirstCounts | scrapers/booking_reviews.py:214-222 | when no later strategy yields anything, the first one decides the result |
| Strategy.SecondWins | scrapers/booking_reviews.py:214-222 | the second strategy decides when the first yields nothing and the second yields a value |
| Strategy.ThirdWins | scrapers/booking_reviews.py:157-164 | the third strategy decides when the first two yield nothing and the third yields a value |
| Strategy.NoneOfThree | scrapers/booking_reviews.py:347-355 | three strategies that all yield nothing give nothing |
| Strategy.SearchInOrder | scrapers/booking_reviews.py:157-166 | the `for … try … break/return … except: continue` loop returns exactly the ordered-search result |
| Text.IsSpace | scrapers/booking_reviews.py:217 | the characters `strip()` removes: Python's `str.isspace` on the ASCII range (space, `\t` to `\r`, `\x1c` to `\x1f`) |
| Text.SkipSpaces | scrapers/booking_reviews.py:217 | the scan from the left stops at the first non-whitespace character, passing only whitespace |
| Text.SkipSpacesBack | scrapers/booking_reviews.py:217 | the scan from the right stops after the last non-whitespace character, passing only whitespace |
| Text.Strip | scrapers/booking_reviews.py:217 | `strip()` is a contiguous window of the input with only whitespace outside it, so whitespace is removed only at the two ends; the result has no whitespace at either end, never lengthens, and is "" exactly for all-whitespace input |
| Text.StripIdempotent | scrapers/booking_reviews.py:217 | stripping twice is stripping once |
| Text.StrippedIsFixed | scrapers/booking_reviews.py:217 | a string with no whitespace at either end is unchanged by `strip()` |
| Text.LowerChar | scrapers/booking_reviews.py:351 | ASCII lower-casing maps `A`-`Z` into `a`-`z` and leaves every other character alone |
| Text.Lower | scrapers/booking_reviews.py:351 | `lower()` keeps the length and maps each character by ASCII lower-casing |
| Text.Contains | scrapers/booking_reviews.py:351 | `sub in s` can hold only when `sub` is no longer than `s` |
| Text.OccursShift | scrapers/booking_reviews.py:351 | an occurrence at offset `i >= 1` is an occurrence at `i - 1` in the string without its first character |
| Text.ContainsIffOccurs | scrapers/booking_reviews.py:351 | substring `in` holds exactly when the block occurs at some offset |
| Text.ContainsJoin | scrapers/booking_reviews.py:351 | a string contains every block it is built from |
| Text.NotContainsMissingChar | scrapers/booking_reviews.py:351 | a string lacking a character of `sub` does not contain `sub` |
| Text.StartsWith | app.py:57 | `str.startswith`: the string is at least as long as the prefix and begins with it; `ReviewsUrlKeepsHost` is stated with it |
| Browser.NonEmptyMatch | scrapers/booking_reviews.py:160-162 | a selector counts as found exactly when `find_elements` returns at least one node, and then those nodes are kept |
| Navigation.BeforeHash | scrapers/booking_reviews.py:108 | `split('#')[0]` is the longest prefix holding no `#`, and is followed by `#` when shorter than the URL |
| Navigation.ReviewsUrl | scrapers/booking_reviews.py:108 | the rewritten URL ends in `#tab-reviews`, and what precedes it is a prefix of the hotel URL, so it is at most `|#tab-reviews|` longer |
| Navigation.ReviewsUrlShape | scrapers/booking_reviews.py:108 | the rewritten URL is the part before the first `#` plus `#tab-reviews`, with exactly one `#` |
| Navigation.BeforeHashOfJoin | scrapers/booking_reviews.py:108 | splitting `p + "#" + rest` with `#`-free `p` gives back `p` |
| Navigation.ReviewsUrlIdempotent | scrapers/booking_reviews.py:108 | rewriting an already rewritten URL changes nothing |
| Navigation.ReviewsUrlNoFragment | scrapers/booking_reviews.py:108 | a URL without a fragment just gains `#tab-reviews` |
| Navigation.ReviewsUrlKeepsHost | app.py:57 | a URL the HTTP layer admitted (starts with `https://www.booking.com`) still starts with it after the rewrite |
| Locator.LocateWith | scrapers/booking_reviews.py:157-166 | the locator over a selector list returns [] exactly when no selector finds a node |
| Locator.Locate | scrapers/booking_reviews.py:138-166 | over the 14 fixed selectors, [] exactly when none of them finds a node |
| Locator.LocateWithIsFirstMatch | scrapers/booking_reviews.py:138-166 | the locator returns [] exactly when no selector finds a node; otherwise it returns what the earliest finding selector found |
| Locator.FindReviewElementsWith | scrapers/booking_reviews.py:157-166 | the selector loop computes the locator result for any selector list |
| Locator.FindReviewElements | scrapers/booking_reviews.py:138-166 | `_find_review_elements` computes the locator result over the 14 fixed selectors |
| Locator.LocateFirstWins | scrapers/booking_reviews.py:157-162 | the highest-priority selector that finds a node decides the result |
| Locator.LocateWithIgnoresLater | scrapers/booking_reviews.py:157-162 | for any selector list, pages that answer alike up to the winning selector yield the same nodes |
| Locator.LocateIgnoresLater | scrapers/booking_reviews.py:157-162 | pages that answer alike up to the winning selector yield the same nodes |
| Locator.LocateThirdSelector | scrapers/booking_reviews.py:157-164 | empty first selector, raising second, five nodes from the third: those five nodes |
| Locator.CandidatesWith | scrapers/booking_reviews.py:415-426 | over any selector list: the candidates are the locator's nodes; if there are none, the broad query's first `min(n, 3*max)` nodes; if that raises or is empty, [] |
| Locator.Candidates | scrapers/booking_reviews.py:415-426 | the same over the 14 fixed selectors |
| Locator.FindCandidatesWith | scrapers/booking_reviews.py:415-426 | the locate-then-fallback step computes `CandidatesWith` for any selector list |
| Locator.FindCandidates | scrapers/booking_reviews.py:415-426 | the locate-then-fallback step with the fixed selectors computes `Candidates` |
| LazyLoad.LandmarkStrategy | scrapers/booking_reviews.py:190-194 | one pass of the landmark loop: the selector itself when `find_element` finds a node on the page, otherwise `None` (the `continue`); `LandmarkWith` and `LandmarkWithIsFirstMatch` state the loop's result |
| LazyLoad.LandmarkWith | scrapers/booking_reviews.py:182-196 | a landmark found is one of the section selectors and matches a node; there is none exactly when no section selector matches |
| LazyLoad.LandmarkWithIsFirstMatch | scrapers/booking_reviews.py:182-196 | the landmark scrolled to is the first section selector that finds a node, and there is none exactly when none finds one |
| LazyLoad.Observations | scrapers/booking_reviews.py:170-177 | there is one review-node count per round, eight in all |
| LazyLoad.RoundsOf | scrapers/booking_reviews.py:170-177 | a non-empty run lasts at least one round and at most as many rounds as there are looks |
| LazyLoad.RoundsOfStops | scrapers/booking_reviews.py:170-177 | every round before the last sees fewer than `max_reviews` nodes; a run that ends early ends on a round that sees enough |
| LazyLoad.RoundsOfUnique | scrapers/booking_reviews.py:170-177 | that stopping rule determines the number of rounds completely |
| LazyLoad.ScrollRounds | scrapers/booking_reviews.py:170 | the loop runs between 1 and 8 rounds |
| LazyLoad.ScrollRoundsStops | scrapers/booking_reviews.py:170-177 | the stopping rule, stated on the locator's result on each look at the page |
| LazyLoad.ScrollStopsAtFirstLook | scrapers/booking_reviews.py:175-178 | enough nodes at the first look: exactly one round |
| LazyLoad.ScrollRunsAllRounds | scrapers/booking_reviews.py:170-177 | too few nodes at every look: all eight rounds |
| LazyLoad.LandmarksWith | scrapers/booking_reviews.py:182-196 | there is one landmark per round that did not stop |
| LazyLoad.LandmarksSnoc | scrapers/booking_reviews.py:189-196 | one more round that does not stop appends that round's landmark to the landmark list |
| LazyLoad.ScrollRound | scrapers/booking_reviews.py:174-196 | a round stops exactly when the locator sees `max_reviews` nodes, and otherwise picks the first landmark |
| LazyLoad.ScrollLoop | scrapers/booking_reviews.py:168-198 | the loop runs 1 to 8 rounds; every round before the last sees fewer than `max_reviews` nodes, and a run of fewer than 8 rounds ends on a round that sees enough; the landmarks are those of the rounds in order, exactly one per round that did not stop (one fewer than the rounds when the last round saw enough) |
| LazyLoad.ScrollToLoadReviews | scrapers/booking_reviews.py:168-198 | `_scroll_to_load_reviews` with the fixed selector lists runs `ScrollRounds` rounds and scrolls to the landmark of each round that did not stop: one fewer landmark than rounds exactly when the locator saw `max_reviews` nodes on the last round |
| Rating.FirstDigit | scrapers/booking_reviews.py:243 | the search position is the first digit of the text: nothing before it is a digit |
| Rating.DigitsEnd | scrapers/booking_reviews.py:243 | a run of digits is read greedily, up to the first non-digit |
| Rating.FindNumber | scrapers/booking_reviews.py:243 | `re.search(r'(\d+\.?\d*)')` finds nothing exactly when the text has no digit; the span starts at the first digit, takes every digit, a '.' if one follows, then every digit |
| Rating.IsDecimalToken | scrapers/booking_reviews.py:243 | a whole match of `\d+\.?\d*`: one or more digits, then either nothing or a '.' followed by zero or more digits; `FindNumberIsMatch`, `FindNumberIsLeftmost` and `FindNumberIsLongest` are stated against it |
| Rating.FindNumberIsMatch | scrapers/booking_reviews.py:243 | the span found is a whole match of `\d+\.?\d*` |
| Rating.TokenStartsWithDigit | scrapers/booking_reviews.py:243 | every match of the pattern begins with a digit |
| Rating.FindNumberIsLeftmost | scrapers/booking_reviews.py:243 | no match starts before the span found |
| Rating.NoLongerSplit | scrapers/booking_reviews.py:243 | a stretch reaching past the span found cannot be split into digits, an optional '.', and digits |
| Rating.FindNumberIsLongest | scrapers/booking_reviews.py:243 | no longer match starts where the span starts: the search is greedy |
| Rating.DigitValue | scrapers/booking_reviews.py:245 | a digit's value is below 10 |
| Rating.Pow10 | scrapers/booking_reviews.py:245 | a power of ten is positive |
| Rating.DigitsValue | scrapers/booking_reviews.py:245 | the whole number a string of decimal digits writes, most significant digit first, as `float()` reads it; `DigitsValueBound`, `DigitsValueAppend` and `SpanValueDecimal` state its properties |
| Rating.DigitsValueBound | scrapers/booking_reviews.py:245 | `n` digits write a number below 10^n |
| Rating.FractionBelowOne | scrapers/booking_reviews.py:245 | the fraction digits after the '.' add a value in [0, 1) |
| Rating.SpanValue | scrapers/booking_reviews.py:245 | `float()` of the match lies between its integer part and the integer part plus one |
| Rating.ShiftDigit | scrapers/booking_reviews.py:245 | a proof step of `SpanValueDecimal` (inside `DigitsValueAppend`), not a model of the source: appending a digit to `x * p + y` multiplies both parts by ten |
| Rating.DigitsValueAppend | scrapers/booking_reviews.py:245 | the digits `b` written after the digits `a` give `a`'s value times 10^|b| plus `b`'s value |
| Rating.CancelPositive | scrapers/booking_reviews.py:245 | a proof step of `SpanValueDecimal` (inside `JoinFraction`), not a model of the source: equal multiples of a positive real have equal factors |
| Rating.JoinFraction | scrapers/booking_reviews.py:245 | a proof step of `SpanValueDecimal`, not a model of the source: `w + a/p` equals `(w*p + a)/p` |
| Rating.SpanValueDecimal | scrapers/booking_reviews.py:243-245 | `float()` of the match is its exact decimal value: the integer digits when there is no fraction part, otherwise all its digits with the '.' removed divided by 10 to the number of fraction digits ("4.5" is 45/10) |
| Rating.Normalise | scrapers/booking_reviews.py:247-248 | a score of at most 5 is doubled, one above 5 is kept; a non-negative score never decreases; a score in [0, 10] stays in [0, 10] |
| Rating.ParseRating | scrapers/booking_reviews.py:243-248 | a score is read exactly when the text holds a digit, and is never negative |
| Rating.ParseRatingNineExcellent | scrapers/booking_reviews.py:242-248 | "9.0 Excellent" reads as 9.0 |
| Rating.ParseRatingFourAndHalf | scrapers/booking_reviews.py:243-248 | "4.5" reads as 9.0 (doubled) |
| Rating.ParseRatingEightAndHalf | scrapers/booking_reviews.py:243-248 | "8.5" reads as 8.5 (kept) |
| Rating.ParseRatingFirstNumberOnly | scrapers/booking_reviews.py:243-248 | "7.5 of 10" reads as 7.5: only the first number counts |
| Rating.ParseRatingAfterWords | scrapers/booking_reviews.py:243-248 | "Scored 6" reads as 6: the number may follow words |
| Rating.ParseRatingNoDigits | scrapers/booking_reviews.py:243-248 | "Excellent" gives no score |
| Extractor.Accepts | scrapers/booking_reviews.py:282 | every acceptance rule demands a non-empty text |
| Extractor.StrippedText | scrapers/booking_reviews.py:216-217 | a selector's text is taken stripped |
| Extractor.Pick | scrapers/booking_reviews.py:214-222 | a field is absent exactly when no selector yields an accepted text; otherwise it is the stripped, accepted text of the first selector that yields one |
| Extractor.PickSoleCandidate | scrapers/booking_reviews.py:278-286 | with only the first selector yielding text, the field is that text when accepted and absent otherwise |
| Extractor.TextStrategy | scrapers/booking_reviews.py:216-220 | one pass of a text field's selector loop: the selector's stripped text when the field accepts it, otherwise `None` (the `continue` after a rejected or raising lookup); the same loop is at :280-284 and :349-353, and `Pick` states its result |
| Extractor.RatingStrategy | scrapers/booking_reviews.py:240-250 | one pass of the rating selector loop: strip the selector's text, search it for a number, read it with `float()` and normalise; `None` when the lookup raises or the text has no digit; `RatingField` and the three rating-rule lemmas state the loop's result |
| Extractor.Truncate | scrapers/booking_reviews.py:225 | `[:500]` is a prefix of the string: the whole string when it has at most 500 characters, exactly 500 characters otherwise |
| Extractor.FallbackText | scrapers/booking_reviews.py:223-228 | the fallback is a prefix of the node's stripped text: all of it when that has at most 500 characters, exactly 500 characters otherwise; it never starts with whitespace; "" when reading it raises |
| Extractor.TextField | scrapers/booking_reviews.py:205-228 | the text never starts with whitespace |
| Extractor.TextFieldRule | scrapers/booking_reviews.py:214-228 | the text is the first non-empty stripped selector text, which is non-empty and stripped; when no selector yields one, it is the node's stripped text cut to 500 characters, or "" |
| Extractor.FallbackRating | scrapers/booking_reviews.py:254-265 | the `aria-label` yields a score exactly when it is present and holds a digit, and that score is not negative |
| Extractor.RatingField | scrapers/booking_reviews.py:231-268 | a rating, when present, is not negative |
| Extractor.FallbackDate | scrapers/booking_reviews.py:329-335 | the `datetime` attribute is used exactly when it is present and non-empty, and then unchanged |
| Extractor.DateField | scrapers/booking_reviews.py:312-338 | a date, when present, is non-empty |
| Extractor.AuthorField | scrapers/booking_reviews.py:271-289 | an author, when present, has 1 to 99 characters |
| Extractor.CountryField | scrapers/booking_reviews.py:292-309 | a country, when present, is non-empty and stripped |
| Extractor.RoomTypeField | scrapers/booking_reviews.py:341-358 | a room type, when present, contains "room" after lower-casing |
| Extractor.StayDurationField | scrapers/booking_reviews.py:361-378 | a stay duration, when present, is non-empty and stripped |
| Extractor.ReviewOf | scrapers/booking_reviews.py:201-380 | the record keeps every field's guarantee at once: text with no leading whitespace, author of 1-99 characters, room type with "room", non-negative rating, non-empty date, non-empty stripped country and stay duration |
| Extractor.ExtractText | scrapers/booking_reviews.py:205-228 | the text section computes `TextField` |
| Extractor.ExtractRating | scrapers/booking_reviews.py:231-268 | the rating section computes `RatingField` |
| Extractor.ExtractDate | scrapers/booking_reviews.py:312-338 | the date section computes `DateField` |
| Extractor.ExtractReviewData | scrapers/booking_reviews.py:201-380 | `_extract_review_data` computes `ReviewOf` |
| Extractor.AuthorLengthRule | scrapers/booking_reviews.py:282-284 | the author limit is strict: 1-99 characters are kept, 100 or more leave the field absent |
| Extractor.AuthorSkipsLongText | scrapers/booking_reviews.py:278-286 | a 150-character first candidate is passed over and a short second one is kept |
| Extractor.SuiteIsNoRoom | scrapers/booking_reviews.py:351 | "Deluxe Suite" does not mention "room" |
| Extractor.SuperiorRoomIsRoom | scrapers/booking_reviews.py:351 | "Superior Room" mentions "room" once lower-cased |
| Extractor.RoomTypeSkipsSuite | scrapers/booking_reviews.py:347-355 | "Deluxe Suite" is passed over and a later "Superior Room" is kept |
| Extractor.RoomTypeRejectsSuite | scrapers/booking_reviews.py:347-355 | a matched text without "room" leaves the room type absent |
| Extractor.RatingIgnoresAriaLabelAfterMatch | scrapers/booking_reviews.py:238-257 | once a selector yields a number, the `aria-label` is never read |
| Extractor.RatingSkipsTextWithoutNumber | scrapers/booking_reviews.py:238-252 | a selector text without digits does not end the search; the next selector's number is used |
| Extractor.RatingFallsBackToAriaLabel | scrapers/booking_reviews.py:254-265 | without a number from any selector, the rating is read from a non-empty `aria-label`, or is absent |
| Assembler.Qualifies | scrapers/booking_reviews.py:434 | a record qualifies exactly when its text has at least 11 characters |
| Assembler.Window | scrapers/booking_reviews.py:431 | `[:max*2]` is a prefix of the candidates: all of them when there are at most `2*max`, exactly `2*max` otherwise |
| Assembler.Records | scrapers/booking_reviews.py:431-433 | there is one record per examined candidate, and the j-th record is the extractor's record of the j-th candidate |
| Assembler.RecordsSnoc | scrapers/booking_reviews.py:431-433 | examining one more candidate appends its record |
| Assembler.RecordsPrefix | scrapers/booking_reviews.py:431-433 | the records of the first `k` candidates are the first `k` records |
| Assembler.Qualifying | scrapers/booking_reviews.py:434-435 | only records whose text is longer than ten characters are kept, none added |
| Assembler.QualifyingSnoc | scrapers/booking_reviews.py:434-435 | one more record is appended to the kept records exactly when it qualifies |
| Assembler.Take | scrapers/booking_reviews.py:443 | `[:max]` is a prefix of the records: all of them when there are at most `max`, exactly `max` otherwise |
| Assembler.Assemble | scrapers/booking_reviews.py:430-443 | at most `max_reviews` records are returned, each with text longer than ten characters |
| Assembler.QualifyingAppend | scrapers/booking_reviews.py:430-437 | filtering keeps the candidates' order: it distributes over concatenation |
| Assembler.QualifyingMembers | scrapers/booking_reviews.py:434 | a record is kept exactly when it is examined and qualifies |
| Assembler.QualifyingAll | scrapers/booking_reviews.py:434 | when every record qualifies, none is dropped |
| Assembler.TakeOfQualifyingPrefix | scrapers/booking_reviews.py:436-437 | once a prefix supplies `max` records, later candidates do not change the result: the early `break` loses nothing |
| Assembler.AssembleFromPrefix | scrapers/booking_reviews.py:430-443 | stopping after `k` candidates gives the full result when they are all of them or already supply `max` records |
| Assembler.AssembleMembers | scrapers/booking_reviews.py:430-443 | every returned record qualifies and is the record of one of the first `2*max` candidates |
| Assembler.AssembledRecordShape | scrapers/booking_reviews.py:430-443 | every returned record has a text of more than ten characters that does not start with whitespace, from one of the first `2*max` candidates |
| Assembler.AssembleAllQualify | scrapers/booking_reviews.py:430-443 | when every candidate qualifies and there are at least `max`, the result is the records of the first `max` candidates in order |
| Assembler.UnreadableNodeDropped | scrapers/booking_reviews.py:223-228 | a node with no selector text and an unreadable own text is never kept |
| Assembler.AssembleWith | scrapers/booking_reviews.py:430-443 | the loop with its early `break` and final `[:max]` computes `Assemble` for any extractor |
| Assembler.AssembleReviews | scrapers/booking_reviews.py:430-443 | the loop with `_extract_review_data` computes `Assemble(…, ReviewOf)` |
| Pipeline.FinalCandidates | scrapers/booking_reviews.py:412-426 | the candidates are those of the page after one of the (at most eight) lazy-load rounds |
| Pipeline.Scrape | scrapers/booking_reviews.py:383-447 | at most `max_reviews` records, each with text longer than ten characters; a run whose exception reaches the outer handler gives [] |
| Pipeline.ParseBookingReviews | scrapers/booking_reviews.py:383-451 | `parse_booking_reviews` (deep link, scroll, locate, fallback, assemble) computes `Scrape` |
| Pipeline.ScrapedRecordShape | scrapers/booking_reviews.py:383-447 | every returned record is the record of a candidate on the page the scraper ends on, with text of more than ten characters and no leading whitespace |

## Left out

- Driver set-up (`_setup_driver`, lines 22-74): the driver's existence is the `Option<Session>`. Logging has no observable result.
- Pipeline.Scrape: a `driver.quit()` that raises in the `finally` block (lines 448-451) is not modelled. Such an exception replaces the returned list and propagates out of `parse_booking_reviews`; the HTTP handler then answers with status 500 (`app.py:71-73`). The model assumes teardown does not raise.
- The cookie banner (`_close_cookie_banner`) and the "Reviews" link clicks in `_navigate_to_reviews`: they only change the page, and the page is an oracle. `Session.pagesAfter(target)` is the document after navigating to `target`, and look `i` is the document seen by the i-th look.
- Pipeline.ParseBookingReviews: a failed `driver.get(reviews_url)`, caught at line 112, leaves the browser on the hotel page. The model always reads the looks after navigating to `ReviewsUrl(url)` (`Session.pagesAfter(ReviewsUrl(url))`), so the document that the failure leaves in place is not distinguished.
- `time.sleep` calls and JavaScript scrolling: they only change the page, and the page is an oracle.
- LazyLoad.LandmarksWith: assumes that once `find_element` finds a landmark, `scrollIntoView` on it does not raise; a raising scroll would make the source try the next landmark.
- Pipeline.Scrape: an exception that reaches the outer `except` (lines 445-447) is only modelled as a run with no session. The exceptions are: `_setup_driver` fails, `driver.get` of the hotel page raises, or a bottom-of-page scroll script raises. All of them give [].
- Extractor.ReviewOf: the per-record `except` at lines 438-440 is not modelled, because extraction never raises: every field section of `_extract_review_data` has its own `try/except`. In the text section the fallback read `review_element.text` at line 225 is unguarded, so the section-level `except` at lines 226-228 is reachable and stores `""`; the model covers it as `FallbackText` with an unreadable own text (`ownText` is `None`). In the other sections every Selenium call has its own `try`, so their section-level `except` branches that store `""` or `None` cannot be reached, and those fields are absent rather than empty.
- Extractor.TextField: the fallback text is stripped and then cut to 500 characters, so it may end in whitespace. Fully stripped is proved only for the selector path.
- Rating.SpanValue: `float()` is modelled as the exact decimal value (a `real`), without binary floating-point rounding.
- Text.IsSpace and Text.Lower: ASCII only. Python's Unicode whitespace, Unicode case mapping and the Unicode digits matched by `\d` are not modelled.
- Pipeline.ParseBookingReviews, Assembler.AssembleReviews, Locator.Candidates: require `max_reviews >= 1`. The only caller (`app.py:63`) passes 10. Python's negative slicing for `max_reviews <= 0` is not modelled.
- Assembler.AssembleReviews: applies `ReviewOf`, the function that `Extractor.ExtractReviewData` is proved to compute, instead of calling the method inside the loop.
- The HTTP layer (`app.py`, apart from its URL prefix check) and `start_server.py` are outside the scraper's core.
