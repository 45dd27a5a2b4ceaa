/** What the Booking.com and Agoda spiders share: how they default the city
    and the dates, how a value is printed into the search address, the filter
    that keeps or skips a hotel card, and the item a kept card becomes. */
module SpiderRules {
  import opened Values
  import opened Text
  import opened Listings
  import opened Dates

  // ---------------------------------------------------------------------------
  // Arguments
  // ---------------------------------------------------------------------------

  /** `city or "Dhaka"`: None and the empty string fall back to Dhaka. */
  function CityOrDefault(city: Option<string>): (c: string)
    ensures c != ""
    ensures city.Some? && city.value != "" ==> c == city.value
    ensures city.None? || city.value == "" ==> c == "Dhaka"
  {
    if city.None? || city.value == "" then "Dhaka" else city.value
  }

  /** The check-in date: the date a well-formed argument names, otherwise
      (missing, empty or malformed) the day after `today`. */
  function CheckInFor(arg: Option<DateArg>, today: ValidDate): (r: ValidDate)
    ensures arg.Some? && arg.value.Iso? ==> r == arg.value.date
    ensures arg.None? || arg.value.Malformed? ==> r == NextDay(today)
    ensures Before(today, r) || (arg.Some? && arg.value.Iso?)
  {
    if arg.Some? && arg.value.Iso? then arg.value.date else NextDay(today)
  }

  /** The check-out date: the date a well-formed argument names, otherwise the
      day after the check-in date. */
  function CheckOutFor(arg: Option<DateArg>, checkIn: ValidDate): (r: ValidDate)
    ensures arg.Some? && arg.value.Iso? ==> r == arg.value.date
    ensures arg.None? || arg.value.Malformed? ==> r == NextDay(checkIn)
  {
    if arg.Some? && arg.value.Iso? then arg.value.date else NextDay(checkIn)
  }

  /** A missing or malformed check-out gives a one-night stay: the check-out
      is after the check-in, with no day in between. */
  lemma DefaultCheckOutIsNextDay(arg: Option<DateArg>, checkIn: ValidDate)
    requires arg.None? || arg.value.Malformed?
    ensures Before(checkIn, CheckOutFor(arg, checkIn))
    ensures forall x: ValidDate :: Before(checkIn, x) ==> !Before(x, CheckOutFor(arg, checkIn))
  {
    forall x: ValidDate | Before(checkIn, x)
      ensures !Before(x, CheckOutFor(arg, checkIn))
    {
      NextDayIsNext(checkIn, x);
    }
  }

  /** A well-formed check-out is taken as given, even one that is not after
      the check-in date. */
  lemma GivenCheckOutKept(d: ValidDate, checkIn: ValidDate)
    ensures CheckOutFor(Some(Iso(d)), checkIn) == d
  {
  }

  // ---------------------------------------------------------------------------
  // Values printed into the search address
  // ---------------------------------------------------------------------------

  /** `f'{x}'` for an optional int: `None` prints as the word None. */
  function Show(x: Option<int>): (r: string)
    ensures '&' !in r
    ensures x.None? ==> r == "None"
    ensures x.Some? && x.value >= 0 ==> AllDigits(r) && DigitsValue(r) == x.value
  {
    if x.None? then "None"
    else if x.value >= 0 then NatToStringValue(x.value); IntToString(x.value)
    else IntToString(x.value)
  }

  /** The text form of a date carries no `&`, so it is one query value. */
  lemma IsoTextIsQueryValue(d: ValidDate)
    ensures '&' !in IsoText(d)
  {
    var y, m, dd := ZeroPad(d.year, 4), ZeroPad(d.month, 2), ZeroPad(d.day, 2);
    assert IsoText(d) == y + "-" + m + "-" + dd;
    assert '&' !in y && '&' !in m && '&' !in dd;
  }

  /** A search address: a fixed prefix followed by its query parameters
      joined with `&`. */
  function SearchUrl(prefix: string, params: seq<string>): string {
    prefix + Join(params, '&')
  }

  /** `url += '&' + param` adds one parameter. */
  lemma AddParam(prefix: string, params: seq<string>, x: string)
    requires 1 <= |params|
    ensures SearchUrl(prefix, params) + "&" + x == SearchUrl(prefix, params + [x])
  {
    JoinSnoc(params, x, '&');
    var j := Join(params, '&');
    calc {
      SearchUrl(prefix, params) + "&" + x;
      (prefix + j) + "&" + x;
      prefix + (j + "&" + x);
      SearchUrl(prefix, params + [x]);
    }
  }

  /** `url += t` with no `&` in front extends the last parameter. */
  lemma ExtendLastParam(prefix: string, params: seq<string>, t: string)
    requires 1 <= |params|
    ensures SearchUrl(prefix, params) + t ==
      SearchUrl(prefix, params[..|params| - 1] + [params[|params| - 1] + t])
  {
    JoinExtendLast(params, t, '&');
    var j := Join(params, '&');
    assert (prefix + j) + t == prefix + (j + t);
  }

  /** No parameter holds an `&`. */
  predicate QueryValues(params: seq<string>) {
    forall i :: 0 <= i < |params| ==> '&' !in params[i]
  }

  lemma QueryValuesSnoc(params: seq<string>, x: string)
    requires QueryValues(params) && '&' !in x
    ensures QueryValues(params + [x])
  {
    assert forall i :: 0 <= i < |params| ==> (params + [x])[i] == params[i];
  }

  lemma QueryValuesExtendLast(params: seq<string>, t: string)
    requires 1 <= |params| && QueryValues(params) && '&' !in t
    ensures QueryValues(params[..|params| - 1] + [params[|params| - 1] + t])
  {
    var n := |params|;
    var r := params[..n - 1] + [params[n - 1] + t];
    ConcatExcludes(params[n - 1], t, '&');
    forall i | 0 <= i < n
      ensures '&' !in r[i]
    {
      if i < n - 1 {
        assert r[i] == params[i];
      }
    }
  }

  /** The query of a search address splits back into its parameters, in
      order, when none of them holds an `&`. */
  lemma QueryDecodes(params: seq<string>)
    requires 1 <= |params| && QueryValues(params)
    ensures Split(Join(params, '&'), '&') == params
  {
    SplitJoin(params, '&');
  }

  // ---------------------------------------------------------------------------
  // The card filter
  // ---------------------------------------------------------------------------

  /** Python truthiness of an optional number: None and 0 are false. */
  predicate Truthy(x: Option<int>) {
    x.Some? && x.value != 0
  }

  /** The card loop's filter: a card is skipped when a truthy minimum exceeds
      its price, a truthy maximum is below its price, or a truthy star rating
      differs from its rating. */
  predicate Keep(price: int, rating: int, minPrice: Option<int>, maxPrice: Option<int>, starRating: Option<int>) {
    !((Truthy(minPrice) && price < minPrice.value)
      || (Truthy(maxPrice) && price > maxPrice.value)
      || (Truthy(starRating) && rating != starRating.value))
  }

  /** With both bounds and a star rating set, a card is kept exactly when its
      price lies within the bounds, both ends included, and its rating is the
      requested one. */
  lemma KeepExactly(price: int, rating: int, lo: int, hi: int, star: int)
    requires lo != 0 && hi != 0 && star != 0
    ensures Keep(price, rating, Some(lo), Some(hi), Some(star)) <==> lo <= price <= hi && rating == star
  {
  }

  /** With both bounds set and no star check, a card is kept exactly when its
      price lies within the bounds, both ends included. */
  lemma KeepWithinBounds(price: int, rating: int, lo: int, hi: int)
    requires lo != 0 && hi != 0
    ensures Keep(price, rating, Some(lo), Some(hi), None) <==> lo <= price <= hi
  {
  }

  /** A bound or star rating of 0 filters nothing, exactly as None. */
  lemma ZeroDisables(price: int, rating: int, minPrice: Option<int>, maxPrice: Option<int>, starRating: Option<int>)
    ensures Keep(price, rating, Some(0), maxPrice, starRating) == Keep(price, rating, None, maxPrice, starRating)
    ensures Keep(price, rating, minPrice, Some(0), starRating) == Keep(price, rating, minPrice, None, starRating)
    ensures Keep(price, rating, minPrice, maxPrice, Some(0)) == Keep(price, rating, minPrice, maxPrice, None)
  {
  }

  // ---------------------------------------------------------------------------
  // Cards and items
  // ---------------------------------------------------------------------------

  /** One hotel card of a result page, as the selectors read it. `price` is
      None when the price text is missing or is not a number (reading it then
      raises, the exception is caught and the card is skipped); `rating` is
      the number of star elements; `link` is the card's address made absolute
      against the page. */
  datatype Card = Card(name: Option<string>, price: Option<int>, rating: nat, image: Option<string>, link: string)

  /** The item dict built from a card whose price was read. */
  function ItemFor(c: Card, price: int, source: string): (item: Listing)
    ensures IsScrapedItem(item)
    ensures item.price == Some(price) && item.rating == Some(c.rating) && item.source == Some(source)
    ensures item.bookingUrl == Some(c.link)
    ensures c.name.Some? ==> item.name == Present(c.name.value)
    ensures c.name.None? ==> item.name == Null
    ensures c.image.Some? ==> item.image == Present(c.image.value)
    ensures c.image.None? ==> item.image == Null
  {
    Listing(
      if c.name.Some? then Present(c.name.value) else Null,
      Some(price),
      Some(c.rating),
      if c.image.Some? then Present(c.image.value) else Null,
      Some(c.link),
      Some(source))
  }

  /** A card is emitted when its price was read and the filter keeps it. */
  predicate Emits(c: Card, minPrice: Option<int>, maxPrice: Option<int>, starRating: Option<int>) {
    c.price.Some? && Keep(c.price.value, c.rating, minPrice, maxPrice, starRating)
  }

  /** The items the card loop hands to the sink, in card order. */
  function Emitted(cards: seq<Card>, minPrice: Option<int>, maxPrice: Option<int>, starRating: Option<int>, source: string): (items: seq<Listing>)
    ensures |items| <= |cards|
  {
    if cards == [] then []
    else
      var prev := Emitted(cards[..|cards| - 1], minPrice, maxPrice, starRating, source);
      var c := cards[|cards| - 1];
      if Emits(c, minPrice, maxPrice, starRating) then prev + [ItemFor(c, c.price.value, source)] else prev
  }

  /** One turn of the card loop, unfolded once. */
  lemma EmittedStep(cards: seq<Card>, minPrice: Option<int>, maxPrice: Option<int>, starRating: Option<int>, source: string, i: nat)
    requires i < |cards|
    ensures Emitted(cards[..i + 1], minPrice, maxPrice, starRating, source) ==
      var prev := Emitted(cards[..i], minPrice, maxPrice, starRating, source);
      if Emits(cards[i], minPrice, maxPrice, starRating) then prev + [ItemFor(cards[i], cards[i].price.value, source)] else prev
  {
    assert cards[..i + 1][..i] == cards[..i];
  }

  /** An item is emitted exactly when some card that passes the filter
      becomes it. */
  lemma {:induction false} EmittedMembers(cards: seq<Card>, minPrice: Option<int>, maxPrice: Option<int>, starRating: Option<int>, source: string, x: Listing)
    ensures x in Emitted(cards, minPrice, maxPrice, starRating, source) <==>
      exists i :: 0 <= i < |cards| && Emits(cards[i], minPrice, maxPrice, starRating) && x == ItemFor(cards[i], cards[i].price.value, source)
  {
    if cards != [] {
      var p := cards[..|cards| - 1];
      EmittedMembers(p, minPrice, maxPrice, starRating, source, x);
      if exists i :: 0 <= i < |cards| && Emits(cards[i], minPrice, maxPrice, starRating) && x == ItemFor(cards[i], cards[i].price.value, source) {
        var i :| 0 <= i < |cards| && Emits(cards[i], minPrice, maxPrice, starRating) && x == ItemFor(cards[i], cards[i].price.value, source);
        if i < |p| {
          assert p[i] == cards[i];
        }
      }
      if exists i :: 0 <= i < |p| && Emits(p[i], minPrice, maxPrice, starRating) && x == ItemFor(p[i], p[i].price.value, source) {
        var i :| 0 <= i < |p| && Emits(p[i], minPrice, maxPrice, starRating) && x == ItemFor(p[i], p[i].price.value, source);
        assert p[i] == cards[i];
      }
    }
  }

  /** Every emitted item has all six keys, carries the spider's source name
      and passes the filter. */
  lemma {:induction false} EmittedWellFormed(cards: seq<Card>, minPrice: Option<int>, maxPrice: Option<int>, starRating: Option<int>, source: string)
    ensures forall x :: x in Emitted(cards, minPrice, maxPrice, starRating, source) ==>
      && IsScrapedItem(x) && x.source == Some(source)
      && Keep(x.price.value, x.rating.value, minPrice, maxPrice, starRating)
  {
    if cards != [] {
      EmittedWellFormed(cards[..|cards| - 1], minPrice, maxPrice, starRating, source);
    }
  }
}
