/** The Agoda spider: its search address, built from the arguments it is
    started with and completed with the city code read off the result page's
    address, and its pass over the hotel cards. */
module AgodaSpiders {
  import opened Values
  import opened Text
  import opened Dates
  import opened Runner
  import opened SpiderRules
  import CityCodes

  /** `'https://www.agoda.com/search?'`; the first parameter that follows
      starts with `&`, so the query opens with an empty parameter. */
  const AgodaPrefix := "https://www.agoda.com/search?"

  /** The seven parameters every search carries, in order. */
  function AgodaBaseParams(checkIn: ValidDate, checkOut: ValidDate, adults: Option<int>, children: Option<int>, rooms: Option<int>): seq<string> {
    ["", "checkIn=" + IsoText(checkIn), "checkOut=" + IsoText(checkOut),
     "adults=" + Show(adults), "children=" + Show(children), "rooms=" + Show(rooms), "currency=BDT"]
  }

  /** The query parameters of the search address before the city code: the
      base ones, then `PriceFrom` and `PriceTo` when both bounds are given,
      then `hotelStarRating` when a star rating is given. */
  function AgodaParams(checkIn: ValidDate, checkOut: ValidDate, adults: Option<int>, children: Option<int>, rooms: Option<int>,
                       minPrice: Option<int>, maxPrice: Option<int>, starRating: Option<int>): (ps: seq<string>)
    ensures |ps| == 7 + (if minPrice.Some? && maxPrice.Some? then 2 else 0) + (if starRating.Some? then 1 else 0)
  {
    var base := AgodaBaseParams(checkIn, checkOut, adults, children, rooms);
    var withPrice := if minPrice.Some? && maxPrice.Some? then
      base + ["PriceFrom=" + IntToString(minPrice.value), "PriceTo=" + IntToString(maxPrice.value)]
    else base;
    if starRating.Some? then withPrice + ["hotelStarRating=" + IntToString(starRating.value)] else withPrice
  }

  /** The price bounds follow the seven base parameters exactly when both are
      given, and the star rating comes last whenever it is given. */
  lemma AgodaParamsShape(checkIn: ValidDate, checkOut: ValidDate, adults: Option<int>, children: Option<int>, rooms: Option<int>,
                         minPrice: Option<int>, maxPrice: Option<int>, starRating: Option<int>)
    ensures var base := AgodaBaseParams(checkIn, checkOut, adults, children, rooms);
      var ps := AgodaParams(checkIn, checkOut, adults, children, rooms, minPrice, maxPrice, starRating);
      && ps[..7] == base
      && (minPrice.Some? && maxPrice.Some? ==>
            ps[7] == "PriceFrom=" + IntToString(minPrice.value) && ps[8] == "PriceTo=" + IntToString(maxPrice.value))
      && (starRating.Some? ==> ps[|ps| - 1] == "hotelStarRating=" + IntToString(starRating.value))
      && (minPrice.None? || maxPrice.None? ==> starRating.None? ==> ps == base)
  {
  }

  lemma AgodaBaseParamsAreQueryValues(checkIn: ValidDate, checkOut: ValidDate, adults: Option<int>, children: Option<int>, rooms: Option<int>)
    ensures QueryValues(AgodaBaseParams(checkIn, checkOut, adults, children, rooms))
  {
    IsoTextIsQueryValue(checkIn);
    IsoTextIsQueryValue(checkOut);
    ConcatExcludes("checkIn=", IsoText(checkIn), '&');
    ConcatExcludes("checkOut=", IsoText(checkOut), '&');
    ConcatExcludes("adults=", Show(adults), '&');
    ConcatExcludes("children=", Show(children), '&');
    ConcatExcludes("rooms=", Show(rooms), '&');
  }

  /** Appending two parameters without `&` keeps every parameter free of `&`. */
  lemma QueryValuesSnoc2(params: seq<string>, x: string, y: string)
    requires QueryValues(params) && '&' !in x && '&' !in y
    ensures QueryValues(params + [x, y])
  {
    QueryValuesSnoc(params, x);
    QueryValuesSnoc(params + [x], y);
    assert params + [x] + [y] == params + [x, y];
  }

  lemma AgodaParamsAreQueryValues(checkIn: ValidDate, checkOut: ValidDate, adults: Option<int>, children: Option<int>, rooms: Option<int>,
                                  minPrice: Option<int>, maxPrice: Option<int>, starRating: Option<int>)
    ensures QueryValues(AgodaParams(checkIn, checkOut, adults, children, rooms, minPrice, maxPrice, starRating))
  {
    var base := AgodaBaseParams(checkIn, checkOut, adults, children, rooms);
    AgodaBaseParamsAreQueryValues(checkIn, checkOut, adults, children, rooms);
    var withPrice := base;
    if minPrice.Some? && maxPrice.Some? {
      var lo, hi := IntToString(minPrice.value), IntToString(maxPrice.value);
      ConcatExcludes("PriceFrom=", lo, '&');
      ConcatExcludes("PriceTo=", hi, '&');
      QueryValuesSnoc2(base, "PriceFrom=" + lo, "PriceTo=" + hi);
      withPrice := base + ["PriceFrom=" + lo, "PriceTo=" + hi];
    }
    if starRating.Some? {
      var star := IntToString(starRating.value);
      ConcatExcludes("hotelStarRating=", star, '&');
      QueryValuesSnoc(withPrice, "hotelStarRating=" + star);
    }
  }

  // ---------------------------------------------------------------------------
  // The city code
  // ---------------------------------------------------------------------------

  /** `parse_qs(...)`: each parameter name with its values, never an empty list. */
  type Query = q: map<string, seq<string>> | forall k :: k in q ==> |q[k]| > 0 witness map[]

  /** `query_params.get('city', '1390')[0]` as written: when the page address
      has no `city` parameter, `[0]` indexes the fallback string itself and
      yields its first character. */
  function CityCodeAsWritten(q: Query): (code: string)
    ensures "city" in q ==> code == q["city"][0]
    ensures "city" !in q ==> code == "1"
  {
    if "city" in q then q["city"][0] else ["1390"[0]]
  }

  /** The city code as evidently intended: the first `city` value, or the
      whole fallback code `1390`. */
  function CityCode(q: Query): (code: string)
    ensures "city" in q ==> code == q["city"][0]
    ensures "city" !in q ==> code == CityCodes.Table["dhaka"]
  {
    if "city" in q then q["city"][0] else "1390"
  }

  /** Without a `city` parameter the code as written is `1`, which is not
      Dhaka's code `1390`. */
  lemma CityCodeFallbackAsWritten()
    ensures CityCodeAsWritten(map[]) == "1"
    ensures CityCodeAsWritten(map[]) != CityCodes.Table["dhaka"]
  {
  }

  /** The corrected code agrees with the code as written whenever the page
      address has a `city` parameter, and falls back to Dhaka's code. */
  lemma CityCodeCorrected(q: Query)
    ensures "city" in q ==> CityCode(q) == CityCodeAsWritten(q)
    ensures "city" !in q ==> CityCode(q) == "1390" && CityCodeAsWritten(q) == "1"
  {
  }

  /** `"&city="` is the separator followed by the parameter name. */
  lemma CityPrefixSplit(u: string, code: string)
    ensures u + "&city=" + code == u + "&" + ("city=" + code)
  {
    assert "&city=" == "&" + "city=";
    calc {
      u + "&city=" + code;
      (u + ("&" + "city=")) + code;
      ((u + "&") + "city=") + code;
      (u + "&") + ("city=" + code);
    }
  }

  /** `url += f'&city={code}'` adds the `city` parameter. */
  lemma AppendCityParam(prefix: string, params: seq<string>, code: string)
    requires 1 <= |params|
    ensures SearchUrl(prefix, params) + "&city=" + code == SearchUrl(prefix, params + ["city=" + code])
  {
    var x := "city=" + code;
    AddParam(prefix, params, x);
    CityPrefixSplit(SearchUrl(prefix, params), code);
  }

  /** With the `city` parameter added, the query still splits back into its
      parameters when the code holds no `&`. */
  lemma CityParamDecodes(params: seq<string>, code: string)
    requires 1 <= |params| && QueryValues(params) && '&' !in code
    ensures Split(Join(params + ["city=" + code], '&'), '&') == params + ["city=" + code]
  {
    var x := "city=" + code;
    ConcatExcludes("city=", code, '&');
    QueryValuesSnoc(params, x);
    QueryDecodes(params + [x]);
  }

  /** The final search address: the parameters, then `city=` and the code;
      its query splits back into exactly those parameters. */
  lemma FinalQueryDecodes(checkIn: ValidDate, checkOut: ValidDate, adults: Option<int>, children: Option<int>, rooms: Option<int>,
                          minPrice: Option<int>, maxPrice: Option<int>, starRating: Option<int>, code: string)
    requires '&' !in code
    ensures var ps := AgodaParams(checkIn, checkOut, adults, children, rooms, minPrice, maxPrice, starRating);
      && SearchUrl(AgodaPrefix, ps) + "&city=" + code == SearchUrl(AgodaPrefix, ps + ["city=" + code])
      && Split(Join(ps + ["city=" + code], '&'), '&') == ps + ["city=" + code]
  {
    var ps := AgodaParams(checkIn, checkOut, adults, children, rooms, minPrice, maxPrice, starRating);
    AgodaParamsAreQueryValues(checkIn, checkOut, adults, children, rooms, minPrice, maxPrice, starRating);
    AppendCityParam(AgodaPrefix, ps, code);
    CityParamDecodes(ps, code);
  }

  class AgodaSpider {
    const city: string
    const checkIn: ValidDate
    const checkOut: ValidDate
    const adults: Option<int>
    const children: Option<int>
    const rooms: Option<int>
    const minPrice: Option<int>
    const maxPrice: Option<int>
    const starRating: Option<int>
    /** `self.collect_item`, the sink items are handed to (or None). */
    const collectItem: ScrapySearchService?
    var startUrl: string
    /** `self.city_code`, set once the result page's address is known. */
    var cityCode: Option<string>

    /** `__init__`: the city and dates are defaulted, and the search address
        is the prefix followed by the `AgodaParams` joined with `&`. */
    constructor(args: SpiderArgs, today: ValidDate, sink: ScrapySearchService?)
      ensures city == CityOrDefault(args.city)
      ensures checkIn == CheckInFor(args.checkIn, today)
      ensures checkOut == CheckOutFor(args.checkOut, checkIn)
      ensures adults == args.adults && children == args.children && rooms == args.rooms
      ensures minPrice == args.minPrice && maxPrice == args.maxPrice && starRating == args.starRating
      ensures collectItem == sink && cityCode.None?
      ensures startUrl == SearchUrl(AgodaPrefix, AgodaParams(checkIn, checkOut, adults, children, rooms, minPrice, maxPrice, starRating))
    {
      var ci := CheckInFor(args.checkIn, today);
      var co := CheckOutFor(args.checkOut, ci);
      var ps := AgodaBaseParams(ci, co, args.adults, args.children, args.rooms);
      var url := SearchUrl(AgodaPrefix, ps);
      if args.minPrice.Some? && args.maxPrice.Some? {
        var lo, hi := "PriceFrom=" + IntToString(args.minPrice.value), "PriceTo=" + IntToString(args.maxPrice.value);
        AddParam(AgodaPrefix, ps, lo);
        AddParam(AgodaPrefix, ps + [lo], hi);
        url := url + "&" + lo + "&" + hi;
        ps := ps + [lo] + [hi];
        assert ps == AgodaBaseParams(ci, co, args.adults, args.children, args.rooms) + [lo, hi];
      }
      if args.starRating.Some? {
        var star := "hotelStarRating=" + IntToString(args.starRating.value);
        AddParam(AgodaPrefix, ps, star);
        url := url + "&" + star;
        ps := ps + [star];
      }
      city := CityOrDefault(args.city);
      checkIn, checkOut := ci, co;
      adults, children, rooms := args.adults, args.children, args.rooms;
      minPrice, maxPrice, starRating := args.minPrice, args.maxPrice, args.starRating;
      collectItem := sink;
      startUrl := url;
      cityCode := None;
    }

    /** The city-code step of `start_requests`: the code is read off the
        result page's query and appended as the `city` parameter. */
    method ApplyCityCode(query: Query)
      modifies this
      ensures cityCode == Some(CityCode(query))
      ensures startUrl == old(startUrl) + "&city=" + CityCode(query)
    {
      cityCode := Some(CityCode(query));
      startUrl := startUrl + "&city=" + cityCode.value;
    }

    /** The card loop of `start_requests`: each card whose price can be read
        and that passes the filter becomes an item from `agoda`, handed to the
        sink in card order when a sink was supplied. */
    method Crawl(cards: seq<Card>)
      requires collectItem != null ==> collectItem.Valid()
      modifies collectItem
      ensures collectItem != null ==> collectItem.Valid()
      ensures collectItem != null ==> collectItem.items == old(collectItem.items) + Emitted(cards, minPrice, maxPrice, starRating, "agoda")
    {
      for i := 0 to |cards|
        invariant collectItem != null ==> collectItem.Valid()
        invariant collectItem != null ==> collectItem.items == old(collectItem.items) + Emitted(cards[..i], minPrice, maxPrice, starRating, "agoda")
      {
        var hotel := cards[i];
        EmittedStep(cards, minPrice, maxPrice, starRating, "agoda", i);
        if hotel.price.None? {
          assert !Emits(hotel, minPrice, maxPrice, starRating);
          continue;
        }
        var price := hotel.price.value;
        if (Truthy(minPrice) && price < minPrice.value) || (Truthy(maxPrice) && price > maxPrice.value)
           || (Truthy(starRating) && hotel.rating != starRating.value) {
          assert !Emits(hotel, minPrice, maxPrice, starRating);
          continue;
        }
        assert Emits(hotel, minPrice, maxPrice, starRating);
        var item := ItemFor(hotel, price, "agoda");
        if collectItem != null {
          collectItem.CollectItem(Some(item));
        }
      }
      assert cards[..|cards|] == cards;
    }
  }
}
