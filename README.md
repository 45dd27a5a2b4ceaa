# Hotel price comparison: a verified model of the search backend

The backend scrapes hotel offers for a city and a stay from two booking
sites, Booking.com and Agoda. It collects the scraped items in a search
service, groups them by hotel name and builds a price comparison. This
project models that core in Dafny and proves what each step promises.

- **Search service** (`Runner.ScrapySearchService`). It keeps the list of
  collected items, empties it at the start of each run, and ignores `None`
  items. From the caller's search parameters it chooses the arguments both
  spiders are started with: defaults for missing keys, and tomorrow and the
  day after for the dates.
- **Spiders** (`BookingSpiders.BookingSpider`, `AgodaSpiders.AgodaSpider`).
  Each defaults the city and the dates and builds its search address. Price
  and star filters are added only when given. Agoda also appends the city
  code it reads off the result page's address. Each spider then walks the
  hotel cards of the result page. A card that passes the min-price,
  max-price and star filter, with Python truthiness (0 and None disable a
  bound), becomes an item with all six keys, handed to the service.
  Shared rules live in `SpiderRules`. `SearchRun` puts one whole search
  together: the reset, both spiders started with the same arguments and the
  same sink, and both crawls.
- **Comparator** (`Comparator`, for `backend/comparator.py`). It groups
  listings by `hotel_name.strip().lower()`. Missing or empty names are
  dropped, and a `None` name raises. It then builds one entry per non-empty
  group: the best price, one source record per listing, and a best-deal
  flag. The entries are sorted, stably, by best price. A listing without a
  price raises `KeyError`.
- **Older comparator** (`LegacyComparator`, for `backend/app/comparator.py`).
  It groups every listing, the empty key included. It then builds one dict
  per group: the title-cased name under `"hotel_name"`, and under each
  source name the offer of the last listing from that source, with a
  protocol-relative image address made absolute. Missing keys raise.
- **City codes** (`CityCodes`). The table of Agoda city codes, looked up
  case- and padding-insensitively.

Supporting modules:

- `Values`: Option, Result, a dict slot that is absent, `None` or a value,
  and Python's exceptions.
- `Text`: `strip`, `lower`, `title`, `quote`, the printing of ints, joining
  and splitting.
- `Dicts`: an insertion-ordered dict.
- `Listings`: the scraped item.
- `Grouping`: the exact-key grouping both comparators share.
- `Dates`: `datetime.date`, the one-day step and the `%Y-%m-%d` text form.

The search endpoint's comparator groups listings whose normalised names are
equal. An entry's `hotel_name` is the group key.

## Model

| member | source | states |
|---|---|---|
| Runner.ScrapySearchService.constructor | backend/app/scraper/runner.py:14-16 | a new service holds no items |
| Runner.ScrapySearchService.RunSpider | backend/app/scraper/runner.py:19-62 | the item list is emptied; both spiders receive the same arguments, those of `SpiderArgsFor` |
| Runner.SpiderArgsFor | backend/app/scraper/runner.py:27-60 | for every parameter record, each missing key takes its default: Dhaka, tomorrow, the day after tomorrow, 2 adults, 0 children, 1 room, prices 0 to 100000, 5 stars |
| Runner.GivenKeysKept | backend/app/scraper/runner.py:33-60 | for each of the nine keys, the dates included, a key present with `None` reaches the spider as `None` and a key with a value reaches it unchanged |
| SearchRun.StartSpiders | backend/app/scraper/runner.py:33-60 | both spiders are new, share the one service as their sink, and hold the same city, dates, filters, adults, children and rooms, defaulted from the same arguments; each start address is built from those values |
| SearchRun.StartSearch | backend/app/scraper/runner.py:19-60 | the item list is emptied; both spiders share the service as sink and hold the city, dates, filters, adults, children and rooms from `SpiderArgsFor`; Booking's start address is built from them, Agoda's from them followed by `&city=` and the page's city code |
| SearchRun.RunSearch | backend/app/scraper/runner.py:19-62 | both spiders hold the city, dates, filters, adults, children and rooms from `SpiderArgsFor`; Booking's start address is built from them, and Agoda's is built from them and ends with `&city=` and the page's city code; after one whole search the service holds exactly Booking.com's emitted items followed by Agoda's, both filtered with those arguments |
| Runner.DefaultStayIsOneNight | backend/app/scraper/runner.py:27-30 | the default dates are tomorrow and the day after: check-in after today, check-out after check-in, no day in between |
| Runner.ScrapySearchService.CollectItem | backend/app/scraper/runner.py:22-24 | `None` leaves the items unchanged; any other item is appended at the end |
| Runner.CollectedMembers | backend/app/scraper/runner.py:22-24 | an item is collected exactly when some `collect_item` call passed it |
| Runner.ScrapySearchService.GetItems | backend/app/scraper/runner.py:64-65 | returns the non-`None` arguments of every `collect_item` call since the last reset, in call order |
| SpiderRules.CityOrDefault | backend/app/scraper/spiders/booking_spider.py:32 | the city is never empty; a given non-empty city is kept; a missing or empty city is Dhaka |
| SpiderRules.CheckInFor | backend/app/scraper/spiders/booking_spider.py:35-42 | a well-formed check-in is used as given; a missing, empty or malformed one is the day after today |
| SpiderRules.CheckOutFor | backend/app/scraper/spiders/booking_spider.py:44-51 | a well-formed check-out is used as given; a missing, empty or malformed one is the day after the check-in |
| SpiderRules.DefaultCheckOutIsNextDay | backend/app/scraper/spiders/booking_spider.py:44-51 | a missing or malformed check-out gives the day right after the check-in |
| SpiderRules.GivenCheckOutKept | backend/app/scraper/spiders/agoda_spider.py:45-47 | a well-formed check-out is used as given |
| SpiderRules.Show | backend/app/scraper/spiders/booking_spider.py:67-69 | `None` prints as `None`; a non-negative count prints as digits that read back as the count; neither holds an `&`, so each stays one query value |
| SpiderRules.AddParam | backend/app/scraper/spiders/agoda_spider.py:74-77 | appending `&` and a parameter to the address adds exactly that parameter to its query |
| SpiderRules.ExtendLastParam | backend/app/scraper/spiders/booking_spider.py:75-76 | appending text with no `&` extends the last query parameter |
| SpiderRules.QueryDecodes | backend/app/scraper/spiders/booking_spider.py:62-70 | a query whose parameters hold no `&` splits back into those parameters, in order |
| SpiderRules.KeepWithinBounds | backend/app/scraper/spiders/booking_spider.py:119-122 | with both bounds set and no star filter, a card is kept exactly when its price is within the bounds, both ends included |
| SpiderRules.KeepExactly | backend/app/scraper/spiders/booking_spider.py:119-122 | with both bounds and a star rating set and non-zero, a card is kept exactly when its price is within the bounds, both ends included, and its rating is the requested one |
| SpiderRules.ZeroDisables | backend/app/scraper/spiders/agoda_spider.py:163-166 | a bound or star rating of 0 filters like `None` |
| SpiderRules.ItemFor | backend/app/scraper/spiders/agoda_spider.py:171-178 | an item has all six keys: the card's name and image (`None` when the card has none), the price read, the card's rating and link, and the spider's source name |
| SpiderRules.EmittedMembers | backend/app/scraper/spiders/booking_spider.py:106-142 | an item is emitted exactly when some card with a readable price passes the filter and becomes it |
| SpiderRules.EmittedWellFormed | backend/app/scraper/spiders/booking_spider.py:119-134 | every emitted item has all six keys, the spider's source name, and a price and rating the filter keeps |
| BookingSpiders.BookingParams | backend/app/scraper/spiders/booking_spider.py:72-76 | seven query parameters when both price bounds are given, six otherwise |
| BookingSpiders.BaseParamsOrder | backend/app/scraper/spiders/booking_spider.py:62-70 | the parameters are, in order: `ss=` and the quoted city, `checkin=` and `checkout=` with the dates' text, then `group_adults`, `no_rooms` and `group_children` with the printed counts |
| BookingSpiders.BookingParamsShape | backend/app/scraper/spiders/booking_spider.py:72-76 | the price filter `nflt=price%3DBDT-min-max-1` is a seventh parameter present only with both bounds; the star class is glued to the last parameter, the price filter or `group_children`, when given |
| BookingSpiders.BookingQueryDecodes | backend/app/scraper/spiders/booking_spider.py:62-76 | the query splits back into exactly the parameters |
| BookingSpiders.BookingSpider.constructor | backend/app/scraper/spiders/booking_spider.py:18-76 | the fields are the defaulted arguments; the start address is the Booking prefix followed by `BookingParams` joined with `&` |
| BookingSpiders.BookingSpider.Crawl | backend/app/scraper/spiders/booking_spider.py:106-142 | the service's items grow by exactly the `Emitted` items from `booking.com`, in card order |
| AgodaSpiders.AgodaParams | backend/app/scraper/spiders/agoda_spider.py:63-77 | 7 parameters, plus 2 when both price bounds are given, plus 1 when a star rating is given |
| AgodaSpiders.AgodaParamsShape | backend/app/scraper/spiders/agoda_spider.py:63-77 | the base parameters come first; `PriceFrom` and `PriceTo` follow only with both bounds; `hotelStarRating` comes last when given |
| AgodaSpiders.AgodaParamsAreQueryValues | backend/app/scraper/spiders/agoda_spider.py:63-77 | no parameter holds an `&` |
| AgodaSpiders.CityCodeAsWritten | backend/app/scraper/spiders/agoda_spider.py:123 | the first `city` value of the query when there is one; otherwise `1`, the first character of the fallback |
| AgodaSpiders.CityCode | backend/app/scraper/spiders/agoda_spider.py:123 | the first `city` value of the page's query, otherwise Dhaka's code from the city table |
| AgodaSpiders.CityCodeFallbackAsWritten | backend/app/scraper/spiders/agoda_spider.py:123 | as written, a query without `city` yields `1`, which is not Dhaka's code |
| AgodaSpiders.CityCodeCorrected | backend/app/scraper/spiders/agoda_spider.py:123 | the corrected code agrees with the code as written whenever `city` is present |
| AgodaSpiders.FinalQueryDecodes | backend/app/scraper/spiders/agoda_spider.py:126 | appending `&city=` and the code adds one parameter; the final query splits back into the parameters and `city=` with the code |
| AgodaSpiders.AgodaSpider.constructor | backend/app/scraper/spiders/agoda_spider.py:19-77 | the fields are the defaulted arguments; no city code yet; the start address is the Agoda prefix followed by `AgodaParams` joined with `&` |
| AgodaSpiders.AgodaSpider.ApplyCityCode | backend/app/scraper/spiders/agoda_spider.py:119-126 | the city code is the corrected `CityCode` of the page's query, and the start address gains `&city=` and that code |
| AgodaSpiders.AgodaSpider.Crawl | backend/app/scraper/spiders/agoda_spider.py:150-186 | with a service, its items grow by exactly the `Emitted` items from `agoda`, in card order |
| CityCodes.Normalize | backend/app/scraper/city_codes.py:26 | the normalised name has no whitespace at either end and no capital letter |
| CityCodes.GetAgodaCityCode | backend/app/scraper/city_codes.py:13-29 | succeeds exactly when the normalised name is a table key, with that key's code; otherwise `ValueError` naming the normalised city |
| CityCodes.KnownCityCodes | backend/app/scraper/city_codes.py:3-11 | every table key looks up its own code |
| CityCodes.CaseAndPaddingIgnored | backend/app/scraper/city_codes.py:26 | any capitalisation of a table key, padded with whitespace, looks up that key's code |
| Dates.NextDay | backend/app/scraper/spiders/booking_spider.py:42 | the day after is a valid date after the given one |
| Dates.NextDayIsNext | backend/app/scraper/spiders/booking_spider.py:51 | no valid date lies strictly between a day and the next day |
| Dates.NextDayInjective | backend/app/scraper/runner.py:27-28 | distinct days have distinct next days |
| Runner.DefaultCheckInsDiffer | backend/app/scraper/runner.py:27-36 | without a `check_in` key, searches run on different days start on different default check-ins |
| Dates.IsoText | backend/app/scraper/runner.py:29-30 | for every year up to 9999, zero-padded, the text is ten characters: digits with dashes at positions 4 and 7 |
| Dates.IsoTextRoundTrip | backend/app/scraper/spiders/booking_spider.py:37 | the text form of a date parses back to that date |
| Comparator.GroupHotelsByName | backend/comparator.py:4-21 | fails with `AttributeError` exactly when some name is `None`; otherwise returns the grouping that drops empty keys |
| Comparator.NullNameAt | backend/comparator.py:17 | the grouping fails exactly when some listing's name is `None` |
| Grouping.NameKey | backend/comparator.py:17 | the key of a listing has no whitespace at either end and no capital letter; a listing without a name string has the empty key |
| Text.Strip | backend/comparator.py:17 | the stripped text has no whitespace at either end |
| Text.Lower | backend/comparator.py:17 | the same length; each capital becomes its own lower-case letter (no capital is left, and upper-casing the result gives back the upper-cased input); every other character is kept |
| Grouping.GroupedMeaning | backend/comparator.py:14-21 | the groups' keys are the listings' keys in first-occurrence order; each group holds that key's listings in input order |
| Grouping.KeyOrderMembers | backend/comparator.py:18 | a key is a group key exactly when some listing has it, less the empty key when empty keys are dropped |
| Grouping.EveryListingGrouped | backend/comparator.py:16-19 | every admitted listing is in the group of its own key |
| Grouping.GroupsAreExact | backend/comparator.py:16-19 | every group is non-empty, its key is some listing's key, and all its members have that key |
| Grouping.BucketCounts | backend/comparator.py:19 | a group holds each listing of its key as many times as the input does |
| Grouping.GroupedSizes | backend/comparator.py:16-19 | the group sizes add up to the number of admitted listings |
| Grouping.KeysInFirstOccurrenceOrder | backend/comparator.py:21 | a key listed earlier first occurs earlier in the input |
| Grouping.BucketAppend | backend/comparator.py:19 | a group of a concatenation is the group of the first part followed by that of the second |
| Text.StripLowerCommute | backend/comparator.py:17 | stripping then lowering equals lowering then stripping |
| Text.StripIdempotent | backend/comparator.py:17 | stripping twice equals stripping once |
| Text.StripShape | backend/comparator.py:17 | the stripped name is a slice of the name with only whitespace cut off either end |
| Comparator.MinPrice | backend/comparator.py:40 | the best price is one of the prices and no larger than any |
| Comparator.EntryForMeaning | backend/comparator.py:40-61 | an entry keeps the group key, has the lowest price, one record per listing with its fields or their defaults, and a best-deal flag exactly on the records at the lowest price |
| Comparator.SourcesForAt | backend/comparator.py:50-59 | the i-th source record is that of the i-th listing |
| Comparator.GroupsPricedAt | backend/comparator.py:40 | building succeeds exactly when every listing of every group has a price |
| Comparator.NonEmptyGroupsExact | backend/comparator.py:35-37 | a group is kept exactly when it has listings |
| Comparator.EntriesOnePerGroup | backend/comparator.py:35-61 | one entry per non-empty group, in group order, each that group's entry |
| Comparator.SortByBestPrice | backend/comparator.py:64 | the sorted list has as many entries as the input; its order, contents and stability are the three lemmas below |
| Comparator.SortSorts | backend/comparator.py:64 | the list is ordered by best price |
| Comparator.SortPermutes | backend/comparator.py:64 | the sorted list is a permutation of the entries |
| Comparator.SortIsStable | backend/comparator.py:64 | entries with equal best price keep their relative order |
| Comparator.OrganizeHotelComparison | backend/comparator.py:23-66 | the result is `KeyError('price')` when some non-empty group has an unpriced listing, otherwise the sorted entries |
| Comparator.NoGroupsNoEntries | backend/comparator.py:33-66 | no groups give an empty list |
| LegacyComparator.GroupHotelsByName | backend/app/comparator.py:3-10 | fails exactly when some name is missing (`KeyError`) or `None` (`AttributeError`), with the first failing listing's error; otherwise returns the grouping that keeps every key |
| LegacyComparator.GroupErrorAt | backend/app/comparator.py:6-8 | the grouping fails exactly when some listing has no usable name |
| LegacyComparator.FixImageUrl | backend/app/comparator.py:12-15 | an address starting with `//` gets `https:` in front; any other is kept; the result never starts with `//` |
| LegacyComparator.FixImageUrlIdempotent | backend/app/comparator.py:12-15 | fixing twice equals fixing once |
| LegacyComparator.OfferOf | backend/app/comparator.py:25-29 | a listing with a source, a price, a non-`None` image and a link gives its source and offer, with the image fixed; otherwise the error of the first key read in the order `source`, `price`, `image`, `booking_url`, with `AttributeError` for an image of `None` |
| LegacyComparator.EntryFailsIff | backend/app/comparator.py:24-30 | an entry fails exactly when some listing of its group fails |
| LegacyComparator.LastListingWins | backend/app/comparator.py:24-30 | a source name is a key exactly when some listing came from it; its value is the offer of the last such listing |
| LegacyComparator.TitleComesFirst | backend/app/comparator.py:21-23 | `hotel_name` is the first key; it holds the title-cased group key unless a source is itself named `hotel_name` |
| LegacyComparator.ImagesFixed | backend/app/comparator.py:28 | no offer's image address starts with `//` |
| Text.Title | backend/app/comparator.py:22 | the same length; a letter is upper-cased when no letter comes right before it and lower-cased otherwise; every other character is kept |
| Text.TitleIdempotent | backend/app/comparator.py:22 | title-casing twice equals title-casing once |
| Text.TitleKeepsLetters | backend/app/comparator.py:22 | title-casing changes only the case of letters |
| LegacyComparator.OrganizeHotelComparison | backend/app/comparator.py:17-33 | the result is `Organized` of the dict's items |
| LegacyComparator.OrganizedFailsIff | backend/app/comparator.py:20-31 | building fails exactly when some group's entry fails |
| LegacyComparator.OrganizedAt | backend/app/comparator.py:20-33 | one dict per group, in group order, each that group's entry |
| Text.Quote | backend/app/scraper/spiders/booking_spider.py:64 | every character of the quoted text is a safe character, a `%` or an upper-case hex digit |
| Text.QuoteIsQueryValue | backend/app/scraper/spiders/booking_spider.py:64 | the quoted city holds no `&`, `=`, `#` or space |
| Text.QuoteSafeUnchanged | backend/app/scraper/spiders/booking_spider.py:64 | a city of safe characters is quoted unchanged |
| Text.SplitJoin | backend/app/scraper/spiders/agoda_spider.py:120 | a query joined with `&` from parts without `&` splits back into those parts |
| Text.ZeroPadValue | backend/app/scraper/spiders/agoda_spider.py:65-66 | a zero-padded number reads back as the number, with exactly the width when it fits |
| Text.NatToStringValue | backend/app/scraper/spiders/agoda_spider.py:75 | a printed number reads back as the number |

## Left out

- Prices are integers. Floating point is left out: `float(price_text)` on the cards and the `int(...)` of both price bounds in the Booking and Agoda addresses (booking_spider.py:74, agoda_spider.py:75) are not modelled. A card's price is either read (`Some`) or not (`None`, when the text is missing or not a number, so the source's exception skips the card).
- `datetime.now()` is the input `today`. `strptime` is abstracted as `Dates.DateArg`: a date string either names a date (`Iso`) or is rejected (`Malformed`). The `%Y` printing of years below 1000 is not modelled: `Dates.IsoText` zero-pads every year up to 9999 to four digits and states its ten-character shape for all of them.
- AgodaSpider.ApplyCityCode: the spider appends the corrected fallback `1390` for a result page without a `city` parameter, where the code as written appends `1` (the "## Findings" row; `AgodaSpiders.CityCodeAsWritten` states what the code as written computes).
- Dates.NextDay: does not raise `OverflowError` after 9999-12-31, because it rolls over to the year 10000 instead.
- Selenium, Scrapy and Twisted are left out: browsing, page loading, the CSS selectors, `response.urljoin`, and `parse_qs` / `urlparse`. The result page arrives as a sequence of `SpiderRules.Card` values whose link is already absolute. Agoda's result-page query arrives as a `Query` map.
- Running the two crawls concurrently, the `wait_for` timeout, the `DeferredList`, and the order in which the two spiders' items interleave are left out. `SearchRun.RunSearch` runs Booking.com's crawl to the end before Agoda's, so it states one of the possible interleavings of the shared item list. A sink-less Booking spider's `TypeError`, which the source catches per card, appears as "nothing collected".
- The spiders' own constructor defaults (Booking: no filters; Agoda: 0, 50000 and 5) are left out. The search service always passes every argument, and the model starts spiders with `Runner.SpiderArgs`.
- The in-place `list.sort` in `backend/comparator.py` is modelled as a functional stable insertion sort on the local list.
- `lower` and `title` map case for ASCII letters only. `strip` removes every character Python's `str.isspace()` accepts, the Unicode spaces included.
- `print` calls, the HTTP endpoint, persistence, the Scrapy pipelines, middlewares and settings, and the front end are not part of this model.

## Findings

| source | as written | input that shows it | evidently intended | confidence | as-written member | corrected member |
|---|---|---|---|---|---|---|
| backend/app/scraper/spiders/agoda_spider.py:123 | for a page query without `city`, the `[0]` is applied to the fallback string `'1390'` itself, giving its first character | a result-page address whose query has no `city` parameter (`parse_qs` gives `{}`) | fall back to the whole code `1390`, Dhaka's code in `city_codes.py` | not executed | AgodaSpiders.CityCodeFallbackAsWritten | AgodaSpiders.CityCode |
