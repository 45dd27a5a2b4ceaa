/** The search service: it holds the items the spiders hand back, empties that
    list at the start of each run, and chooses the arguments both spiders are
    started with from the caller's search parameters. */
module Runner {
  import opened Values
  import opened Listings
  import opened Dates

  /** The caller's `search_params` dict: each key missing, None, or a value. */
  datatype SearchParams = SearchParams(
    city: Field<string>,
    checkIn: Field<DateArg>,
    checkOut: Field<DateArg>,
    adults: Field<int>,
    children: Field<int>,
    rooms: Field<int>,
    minPrice: Field<int>,
    maxPrice: Field<int>,
    starRating: Field<int>)

  /** The keyword arguments a spider is started with; None is passed as is. */
  datatype SpiderArgs = SpiderArgs(
    city: Option<string>,
    checkIn: Option<DateArg>,
    checkOut: Option<DateArg>,
    adults: Option<int>,
    children: Option<int>,
    rooms: Option<int>,
    minPrice: Option<int>,
    maxPrice: Option<int>,
    starRating: Option<int>)

  /** The arguments `run_spider` passes to a spider on the day `today`, when
      the search parameters are `params`: each missing key takes its default,
      the dates tomorrow and the day after. */
  function SpiderArgsFor(params: SearchParams, today: ValidDate): (a: SpiderArgs)
    ensures params.city.Absent? ==> a.city == Some("Dhaka")
    ensures params.checkIn.Absent? ==> a.checkIn == Some(Iso(NextDay(today)))
    ensures params.checkOut.Absent? ==> a.checkOut == Some(Iso(NextDay(NextDay(today))))
    ensures params.adults.Absent? ==> a.adults == Some(2)
    ensures params.children.Absent? ==> a.children == Some(0)
    ensures params.rooms.Absent? ==> a.rooms == Some(1)
    ensures params.minPrice.Absent? ==> a.minPrice == Some(0)
    ensures params.maxPrice.Absent? ==> a.maxPrice == Some(100000)
    ensures params.starRating.Absent? ==> a.starRating == Some(5)
  {
    var tomorrow := NextDay(today);
    var dayAfter := NextDay(tomorrow);
    SpiderArgs(
      params.city.Get("Dhaka"),
      params.checkIn.Get(Iso(tomorrow)),
      params.checkOut.Get(Iso(dayAfter)),
      params.adults.Get(2),
      params.children.Get(0),
      params.rooms.Get(1),
      params.minPrice.Get(0),
      params.maxPrice.Get(100000),
      params.starRating.Get(5))
  }

  /** How a key that is present reaches the spiders: None as None, a value
      as that value. */
  function Passed<T>(f: Field<T>): Option<T>
    requires !f.Absent?
  {
    if f.Null? then None else Some(f.value)
  }

  /** A key present with None reaches the spiders as None, and a key with a
      value reaches them with that value; no default replaces either. */
  lemma GivenKeysKept(params: SearchParams, today: ValidDate)
    ensures var a := SpiderArgsFor(params, today);
      && (!params.city.Absent? ==> a.city == Passed(params.city))
      && (!params.checkIn.Absent? ==> a.checkIn == Passed(params.checkIn))
      && (!params.checkOut.Absent? ==> a.checkOut == Passed(params.checkOut))
      && (!params.adults.Absent? ==> a.adults == Passed(params.adults))
      && (!params.children.Absent? ==> a.children == Passed(params.children))
      && (!params.rooms.Absent? ==> a.rooms == Passed(params.rooms))
      && (!params.minPrice.Absent? ==> a.minPrice == Passed(params.minPrice))
      && (!params.maxPrice.Absent? ==> a.maxPrice == Passed(params.maxPrice))
      && (!params.starRating.Absent? ==> a.starRating == Passed(params.starRating))
  {
  }

  /** The default check-out is the first day after the default check-in, which
      is the first day after today. */
  lemma DefaultStayIsOneNight(params: SearchParams, today: ValidDate)
    requires params.checkIn.Absent? && params.checkOut.Absent?
    ensures var a := SpiderArgsFor(params, today);
      && a.checkIn.Some? && a.checkIn.value.Iso? && a.checkOut.Some? && a.checkOut.value.Iso?
      && Before(today, a.checkIn.value.date) && Before(a.checkIn.value.date, a.checkOut.value.date)
      && forall x: ValidDate :: Before(a.checkIn.value.date, x) ==> !Before(x, a.checkOut.value.date)
  {
    var a := SpiderArgsFor(params, today);
    forall x: ValidDate | Before(a.checkIn.value.date, x)
      ensures !Before(x, a.checkOut.value.date)
    {
      NextDayIsNext(a.checkIn.value.date, x);
    }
  }

  /** Searches run on different days without a check-in start on different
      default check-ins. */
  lemma DefaultCheckInsDiffer(params: SearchParams, today1: ValidDate, today2: ValidDate)
    requires params.checkIn.Absent? && today1 != today2
    ensures SpiderArgsFor(params, today1).checkIn != SpiderArgsFor(params, today2).checkIn
  {
    if NextDay(today1) == NextDay(today2) {
      NextDayInjective(today1, today2);
    }
  }

  /** The non-None items of a sequence of `collect_item` calls, in call order. */
  function Collected(calls: seq<Option<Listing>>): (items: seq<Listing>)
    ensures |items| <= |calls|
  {
    if calls == [] then []
    else if calls[|calls| - 1].Some? then Collected(calls[..|calls| - 1]) + [calls[|calls| - 1].value]
    else Collected(calls[..|calls| - 1])
  }

  /** Every collected item was passed to some call, and every non-None
      argument was collected. */
  lemma {:induction false} CollectedMembers(calls: seq<Option<Listing>>, x: Listing)
    ensures x in Collected(calls) <==> Some(x) in calls
  {
    if calls != [] {
      var p := calls[..|calls| - 1];
      CollectedMembers(p, x);
      assert calls == p + [calls[|calls| - 1]];
    }
  }

  class ScrapySearchService {
    /** `self.items` */
    var items: seq<Listing>
    /** Every argument `collect_item` has received since the last reset. */
    ghost var calls: seq<Option<Listing>>

    ghost predicate Valid()
      reads this
    {
      items == Collected(calls)
    }

    constructor()
      ensures Valid() && items == [] && calls == []
    {
      items := [];
      calls := [];
    }

    /** `run_spider`, up to starting the crawls: the item list is emptied and
        both spiders get the same arguments, chosen by `SpiderArgsFor`. */
    method RunSpider(params: SearchParams, today: ValidDate) returns (booking: SpiderArgs, agoda: SpiderArgs)
      modifies this
      ensures Valid() && items == [] && calls == []
      ensures booking == agoda
      ensures booking == SpiderArgsFor(params, today)
    {
      items := [];
      calls := [];
      var tomorrow := NextDay(today);
      var dayAfter := NextDay(tomorrow);
      var defaultCheckIn := Iso(tomorrow);
      var defaultCheckOut := Iso(dayAfter);
      booking := SpiderArgs(
        params.city.Get("Dhaka"),
        params.checkIn.Get(defaultCheckIn),
        params.checkOut.Get(defaultCheckOut),
        params.adults.Get(2),
        params.children.Get(0),
        params.rooms.Get(1),
        params.minPrice.Get(0),
        params.maxPrice.Get(100000),
        params.starRating.Get(5));
      agoda := SpiderArgs(
        params.city.Get("Dhaka"),
        params.checkIn.Get(defaultCheckIn),
        params.checkOut.Get(defaultCheckOut),
        params.adults.Get(2),
        params.children.Get(0),
        params.rooms.Get(1),
        params.minPrice.Get(0),
        params.maxPrice.Get(100000),
        params.starRating.Get(5));
    }

    /** The `collect_item` closure: None is ignored, anything else is appended. */
    method CollectItem(item: Option<Listing>)
      requires Valid()
      modifies this
      ensures Valid() && calls == old(calls) + [item]
      ensures item.None? ==> items == old(items)
      ensures item.Some? ==> items == old(items) + [item.value]
    {
      calls := calls + [item];
      assert calls[..|calls| - 1] == old(calls);
      if item.Some? {
        items := items + [item.value];
      }
    }

    /** `get_items`: the non-None items collected since the last reset, in
        the order they were collected. */
    method GetItems() returns (r: seq<Listing>)
      requires Valid()
      ensures r == Collected(calls)
    {
      r := items;
    }
  }
}
