/** The Booking.com spider: its search address, built from the arguments it
    is started with, and its pass over the hotel cards of the result page. */
module BookingSpiders {
  import opened Values
  import opened Text
  import opened Dates
  import opened Runner
  import opened SpiderRules

  const BookingPrefix := "https://www.booking.com/searchresults.html?"

  /** `&nflt=price%3DBDT-{min}-{max}-1`, without its `&` */
  function PriceParam(minPrice: int, maxPrice: int): string {
    "nflt=price%3DBDT-" + IntToString(minPrice) + "-" + IntToString(maxPrice) + "-1"
  }

  /** `%3Bclass%3D{star}`: glued to whatever parameter comes last. */
  function ClassFragment(starRating: int): string {
    "%3Bclass%3D" + IntToString(starRating)
  }

  /** The six parameters every search carries, in order. */
  function BaseParams(city: string, checkIn: ValidDate, checkOut: ValidDate, adults: Option<int>, rooms: Option<int>, children: Option<int>): seq<string> {
    ["ss=" + Quote(city), "checkin=" + IsoText(checkIn), "checkout=" + IsoText(checkOut),
     "group_adults=" + Show(adults), "no_rooms=" + Show(rooms), "group_children=" + Show(children)]
  }

  /** The query parameters of the search address: the six base ones, the
      price filter when both bounds are given, and the star class glued to
      the last parameter when a star rating is given. */
  function BookingParams(city: string, checkIn: ValidDate, checkOut: ValidDate, adults: Option<int>, rooms: Option<int>, children: Option<int>,
                         minPrice: Option<int>, maxPrice: Option<int>, starRating: Option<int>): (ps: seq<string>)
    ensures |ps| == if minPrice.Some? && maxPrice.Some? then 7 else 6
  {
    var base := BaseParams(city, checkIn, checkOut, adults, rooms, children);
    var withPrice := if minPrice.Some? && maxPrice.Some? then base + [PriceParam(minPrice.value, maxPrice.value)] else base;
    if starRating.Some? then withPrice[..|withPrice| - 1] + [withPrice[|withPrice| - 1] + ClassFragment(starRating.value)]
    else withPrice
  }

  /** The parameters come in the order `ss`, `checkin`, `checkout`,
      `group_adults`, `no_rooms`, `group_children`. */
  lemma BaseParamsOrder(city: string, checkIn: ValidDate, checkOut: ValidDate, adults: Option<int>, rooms: Option<int>, children: Option<int>)
    ensures var ps := BaseParams(city, checkIn, checkOut, adults, rooms, children);
      && StartsWith(ps[0], "ss=") && StartsWith(ps[1], "checkin=") && StartsWith(ps[2], "checkout=")
      && StartsWith(ps[3], "group_adults=") && StartsWith(ps[4], "no_rooms=") && StartsWith(ps[5], "group_children=")
      && ps[0] == "ss=" + Quote(city) && ps[1] == "checkin=" + IsoText(checkIn) && ps[2] == "checkout=" + IsoText(checkOut)
      && ps[3] == "group_adults=" + Show(adults) && ps[4] == "no_rooms=" + Show(rooms) && ps[5] == "group_children=" + Show(children)
  {
    ConcatEnds("ss=", Quote(city));
    ConcatEnds("checkin=", IsoText(checkIn));
    ConcatEnds("checkout=", IsoText(checkOut));
    ConcatEnds("group_adults=", Show(adults));
    ConcatEnds("no_rooms=", Show(rooms));
    ConcatEnds("group_children=", Show(children));
  }

  /** The base parameters keep their places; the price filter is the seventh
      parameter exactly when both bounds are given; a star rating is glued to
      the end of the last parameter whether or not the price filter is there. */
  lemma BookingParamsShape(city: string, checkIn: ValidDate, checkOut: ValidDate, adults: Option<int>, rooms: Option<int>, children: Option<int>,
                           minPrice: Option<int>, maxPrice: Option<int>, starRating: Option<int>)
    ensures var base := BaseParams(city, checkIn, checkOut, adults, rooms, children);
      var ps := BookingParams(city, checkIn, checkOut, adults, rooms, children, minPrice, maxPrice, starRating);
      && (forall i :: 0 <= i < 5 ==> ps[i] == base[i])
      && (minPrice.Some? && maxPrice.Some? ==> ps[5] == base[5] && StartsWith(ps[6], PriceParam(minPrice.value, maxPrice.value)))
      && (starRating.None? ==> ps[5] == base[5])
      && (starRating.Some? ==> EndsWith(ps[|ps| - 1], ClassFragment(starRating.value)))
      && (minPrice.Some? && maxPrice.Some? && starRating.None? ==> ps[6] == PriceParam(minPrice.value, maxPrice.value))
      && (minPrice.Some? && maxPrice.Some? && starRating.Some? ==>
            ps[6] == PriceParam(minPrice.value, maxPrice.value) + ClassFragment(starRating.value))
      && ((minPrice.None? || maxPrice.None?) && starRating.Some? ==> ps[5] == base[5] + ClassFragment(starRating.value))
  {
    var base := BaseParams(city, checkIn, checkOut, adults, rooms, children);
    var ps := BookingParams(city, checkIn, checkOut, adults, rooms, children, minPrice, maxPrice, starRating);
    var withPrice := if minPrice.Some? && maxPrice.Some? then base + [PriceParam(minPrice.value, maxPrice.value)] else base;
    if starRating.Some? {
      var f := ClassFragment(starRating.value);
      ConcatEnds(withPrice[|withPrice| - 1], f);
      if minPrice.Some? && maxPrice.Some? {
        ConcatEnds(PriceParam(minPrice.value, maxPrice.value), f);
      }
    } else if minPrice.Some? && maxPrice.Some? {
      ConcatEnds(PriceParam(minPrice.value, maxPrice.value), []);
      assert PriceParam(minPrice.value, maxPrice.value) + [] == PriceParam(minPrice.value, maxPrice.value);
    }
  }

  lemma BaseParamsAreQueryValues(city: string, checkIn: ValidDate, checkOut: ValidDate, adults: Option<int>, rooms: Option<int>, children: Option<int>)
    ensures QueryValues(BaseParams(city, checkIn, checkOut, adults, rooms, children))
  {
    QuoteIsQueryValue(city);
    IsoTextIsQueryValue(checkIn);
    IsoTextIsQueryValue(checkOut);
    ConcatExcludes("ss=", Quote(city), '&');
    ConcatExcludes("checkin=", IsoText(checkIn), '&');
    ConcatExcludes("checkout=", IsoText(checkOut), '&');
    ConcatExcludes("group_adults=", Show(adults), '&');
    ConcatExcludes("no_rooms=", Show(rooms), '&');
    ConcatExcludes("group_children=", Show(children), '&');
  }

  lemma BookingParamsAreQueryValues(city: string, checkIn: ValidDate, checkOut: ValidDate, adults: Option<int>, rooms: Option<int>, children: Option<int>,
                                    minPrice: Option<int>, maxPrice: Option<int>, starRating: Option<int>)
    ensures QueryValues(BookingParams(city, checkIn, checkOut, adults, rooms, children, minPrice, maxPrice, starRating))
  {
    var base := BaseParams(city, checkIn, checkOut, adults, rooms, children);
    BaseParamsAreQueryValues(city, checkIn, checkOut, adults, rooms, children);
    var withPrice := base;
    if minPrice.Some? && maxPrice.Some? {
      PriceParamIsQueryValue(minPrice.value, maxPrice.value);
      QueryValuesSnoc(base, PriceParam(minPrice.value, maxPrice.value));
      withPrice := base + [PriceParam(minPrice.value, maxPrice.value)];
    }
    if starRating.Some? {
      ClassFragmentIsQueryValue(starRating.value);
      QueryValuesExtendLast(withPrice, ClassFragment(starRating.value));
    }
  }

  lemma PriceParamIsQueryValue(minPrice: int, maxPrice: int)
    ensures '&' !in PriceParam(minPrice, maxPrice)
  {
    var lo, hi := IntToString(minPrice), IntToString(maxPrice);
    assert '&' !in lo && '&' !in hi;
    ConcatExcludes("nflt=price%3DBDT-", lo, '&');
    ConcatExcludes("nflt=price%3DBDT-" + lo, "-", '&');
    ConcatExcludes("nflt=price%3DBDT-" + lo + "-", hi, '&');
    ConcatExcludes("nflt=price%3DBDT-" + lo + "-" + hi, "-1", '&');
  }

  lemma ClassFragmentIsQueryValue(starRating: int)
    ensures '&' !in ClassFragment(starRating)
  {
    var star := IntToString(starRating);
    assert '&' !in star;
    ConcatExcludes("%3Bclass%3D", star, '&');
  }

  /** No parameter holds an `&`, so the query splits back into exactly these
      parameters, in this order. */
  lemma BookingQueryDecodes(city: string, checkIn: ValidDate, checkOut: ValidDate, adults: Option<int>, rooms: Option<int>, children: Option<int>,
                            minPrice: Option<int>, maxPrice: Option<int>, starRating: Option<int>)
    ensures var ps := BookingParams(city, checkIn, checkOut, adults, rooms, children, minPrice, maxPrice, starRating);
      Split(Join(ps, '&'), '&') == ps
  {
    BookingParamsAreQueryValues(city, checkIn, checkOut, adults, rooms, children, minPrice, maxPrice, starRating);
    QueryDecodes(BookingParams(city, checkIn, checkOut, adults, rooms, children, minPrice, maxPrice, starRating));
  }

  class BookingSpider {
    const city: string
    const checkIn: ValidDate
    const checkOut: ValidDate
    const adults: Option<int>
    const children: Option<int>
    const rooms: Option<int>
    const minPrice: Option<int>
    const maxPrice: Option<int>
    const starRating: Option<int>
    /** `self.collect_item`, the sink items are handed to (or None). */
    const collectItem: ScrapySearchService?
    var startUrl: string

    /** `__init__`: the city and dates are defaulted, and the search address
        is the prefix followed by the `BookingParams` joined with `&`. */
    constructor(args: SpiderArgs, today: ValidDate, sink: ScrapySearchService?)
      ensures city == CityOrDefault(args.city)
      ensures checkIn == CheckInFor(args.checkIn, today)
      ensures checkOut == CheckOutFor(args.checkOut, checkIn)
      ensures adults == args.adults && children == args.children && rooms == args.rooms
      ensures minPrice == args.minPrice && maxPrice == args.maxPrice && starRating == args.starRating
      ensures collectItem == sink
      ensures startUrl == SearchUrl(BookingPrefix, BookingParams(city, checkIn, checkOut, adults, rooms, children, minPrice, maxPrice, starRating))
    {
      var c := CityOrDefault(args.city);
      var ci := CheckInFor(args.checkIn, today);
      var co := CheckOutFor(args.checkOut, ci);
      var base := BaseParams(c, ci, co, args.adults, args.rooms, args.children);
      var ps := base;
      var url := SearchUrl(BookingPrefix, base);
      if args.minPrice.Some? && args.maxPrice.Some? {
        AddParam(BookingPrefix, ps, PriceParam(args.minPrice.value, args.maxPrice.value));
        url := url + "&" + PriceParam(args.minPrice.value, args.maxPrice.value);
        ps := ps + [PriceParam(args.minPrice.value, args.maxPrice.value)];
      }
      if args.starRating.Some? {
        ExtendLastParam(BookingPrefix, ps, ClassFragment(args.starRating.value));
        url := url + ClassFragment(args.starRating.value);
      }
      city, checkIn, checkOut := c, ci, co;
      adults, children, rooms := args.adults, args.children, args.rooms;
      minPrice, maxPrice, starRating := args.minPrice, args.maxPrice, args.starRating;
      collectItem := sink;
      startUrl := url;
    }

    /** The card loop of `start_requests`: each card whose price can be read
        and that passes the filter becomes an item from `booking.com`, handed
        to the sink in card order. Without a sink the call raises inside the
        loop's `try`, so nothing is collected. */
    method Crawl(cards: seq<Card>)
      requires collectItem != null ==> collectItem.Valid()
      modifies collectItem
      ensures collectItem != null ==> collectItem.Valid()
      ensures collectItem != null ==> collectItem.items == old(collectItem.items) + Emitted(cards, minPrice, maxPrice, starRating, "booking.com")
    {
      for i := 0 to |cards|
        invariant collectItem != null ==> collectItem.Valid()
        invariant collectItem != null ==> collectItem.items == old(collectItem.items) + Emitted(cards[..i], minPrice, maxPrice, starRating, "booking.com")
      {
        var hotel := cards[i];
        EmittedStep(cards, minPrice, maxPrice, starRating, "booking.com", i);
        if hotel.price.None? {
          assert !Emits(hotel, minPrice, maxPrice, starRating);
          continue;
        }
        var price := hotel.price.value;
        if (Truthy(minPrice) && price < minPrice.value) || (Truthy(maxPrice) && price > maxPrice.value)
           || (Truthy(starRating) && hotel.rating != starRating.value) {
          assert !Emits(hotel, minPrice, maxPrice, starRating);
          continue;
        }
        assert Emits(hotel, minPrice, maxPrice, starRating);
        var item := ItemFor(hotel, price, "booking.com");
        if collectItem != null {
          collectItem.CollectItem(Some(item));
        }
      }
      assert cards[..|cards|] == cards;
    }
  }
}
