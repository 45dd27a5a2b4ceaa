/** One whole search: `run_spider` empties the service's items, starts the
    Booking.com and the Agoda spider with the same arguments and the same
    `collect_item` sink, and both crawls hand their items to that sink. */
module SearchRun {
  import opened Values
  import opened Dates
  import opened Runner
  import opened SpiderRules
  import opened BookingSpiders
  import opened AgodaSpiders

  /** The two `runner.crawl` calls: both spiders are started from the same
      arguments and share the one sink. */
  method StartSpiders(service: ScrapySearchService, args: SpiderArgs, today: ValidDate)
    returns (booking: BookingSpider, agoda: AgodaSpider)
    ensures fresh(booking) && fresh(agoda)
    ensures booking.collectItem == service && agoda.collectItem == service
    ensures booking.city == CityOrDefault(args.city) && agoda.city == booking.city
    ensures booking.checkIn == CheckInFor(args.checkIn, today) && agoda.checkIn == booking.checkIn
    ensures booking.checkOut == CheckOutFor(args.checkOut, booking.checkIn) && agoda.checkOut == booking.checkOut
    ensures booking.minPrice == args.minPrice && agoda.minPrice == args.minPrice
    ensures booking.maxPrice == args.maxPrice && agoda.maxPrice == args.maxPrice
    ensures booking.starRating == args.starRating && agoda.starRating == args.starRating
    ensures booking.adults == args.adults && agoda.adults == args.adults
    ensures booking.children == args.children && agoda.children == args.children
    ensures booking.rooms == args.rooms && agoda.rooms == args.rooms
    ensures booking.startUrl == SearchUrl(BookingPrefix, BookingParams(booking.city, booking.checkIn, booking.checkOut,
      args.adults, args.rooms, args.children, args.minPrice, args.maxPrice, args.starRating))
    ensures agoda.startUrl == SearchUrl(AgodaPrefix, AgodaParams(agoda.checkIn, agoda.checkOut,
      args.adults, args.children, args.rooms, args.minPrice, args.maxPrice, args.starRating))
  {
    booking := new BookingSpider(args, today, service);
    agoda := new AgodaSpider(args, today, service);
  }

  /** `run_spider` up to the crawls, and Agoda's city-code step: the item list
      is emptied, both spiders are started from `SpiderArgsFor`, and Agoda's
      address gains the city code of its result page. */
  method StartSearch(service: ScrapySearchService, params: SearchParams, today: ValidDate, agodaQuery: Query)
    returns (booking: BookingSpider, agoda: AgodaSpider)
    modifies service
    ensures fresh(booking) && fresh(agoda)
    ensures booking.collectItem == service && agoda.collectItem == service
    ensures service.Valid() && service.items == []
    ensures var a := SpiderArgsFor(params, today);
      && booking.city == CityOrDefault(a.city) && agoda.city == booking.city
      && booking.checkIn == CheckInFor(a.checkIn, today) && agoda.checkIn == booking.checkIn
      && booking.checkOut == CheckOutFor(a.checkOut, booking.checkIn) && agoda.checkOut == booking.checkOut
      && booking.minPrice == a.minPrice && agoda.minPrice == a.minPrice
      && booking.maxPrice == a.maxPrice && agoda.maxPrice == a.maxPrice
      && booking.starRating == a.starRating && agoda.starRating == a.starRating
    ensures var a := SpiderArgsFor(params, today);
      && booking.adults == a.adults && agoda.adults == a.adults
      && booking.children == a.children && agoda.children == a.children
      && booking.rooms == a.rooms && agoda.rooms == a.rooms
    ensures var a := SpiderArgsFor(params, today);
      booking.startUrl == SearchUrl(BookingPrefix, BookingParams(booking.city, booking.checkIn, booking.checkOut,
        a.adults, a.rooms, a.children, a.minPrice, a.maxPrice, a.starRating))
    ensures var a := SpiderArgsFor(params, today);
      agoda.startUrl == SearchUrl(AgodaPrefix, AgodaParams(agoda.checkIn, agoda.checkOut,
        a.adults, a.children, a.rooms, a.minPrice, a.maxPrice, a.starRating)) + "&city=" + CityCode(agodaQuery)
  {
    var bookingArgs, agodaArgs := service.RunSpider(params, today);
    booking, agoda := StartSpiders(service, bookingArgs, today);
    agoda.ApplyCityCode(agodaQuery);
  }

  /** `run_spider` followed by both crawls, Booking.com's first: `bookingCards`
      and `agodaCards` are the two result pages' cards and `agodaQuery` the
      parsed query of Agoda's result address. */
  method RunSearch(service: ScrapySearchService, params: SearchParams, today: ValidDate,
                   bookingCards: seq<Card>, agodaQuery: Query, agodaCards: seq<Card>)
    returns (booking: BookingSpider, agoda: AgodaSpider)
    modifies service
    ensures fresh(booking) && fresh(agoda)
    ensures booking.collectItem == service && agoda.collectItem == service
    ensures var a := SpiderArgsFor(params, today);
      && booking.city == CityOrDefault(a.city) && agoda.city == booking.city
      && booking.checkIn == CheckInFor(a.checkIn, today) && agoda.checkIn == booking.checkIn
      && booking.checkOut == CheckOutFor(a.checkOut, booking.checkIn) && agoda.checkOut == booking.checkOut
      && booking.minPrice == a.minPrice && agoda.minPrice == a.minPrice
      && booking.maxPrice == a.maxPrice && agoda.maxPrice == a.maxPrice
      && booking.starRating == a.starRating && agoda.starRating == a.starRating
    ensures var a := SpiderArgsFor(params, today);
      && booking.adults == a.adults && agoda.adults == a.adults
      && booking.children == a.children && agoda.children == a.children
      && booking.rooms == a.rooms && agoda.rooms == a.rooms
    ensures var a := SpiderArgsFor(params, today);
      booking.startUrl == SearchUrl(BookingPrefix, BookingParams(booking.city, booking.checkIn, booking.checkOut,
        a.adults, a.rooms, a.children, a.minPrice, a.maxPrice, a.starRating))
    ensures var a := SpiderArgsFor(params, today);
      agoda.startUrl == SearchUrl(AgodaPrefix, AgodaParams(agoda.checkIn, agoda.checkOut,
        a.adults, a.children, a.rooms, a.minPrice, a.maxPrice, a.starRating)) + "&city=" + CityCode(agodaQuery)
    ensures service.Valid()
    ensures var a := SpiderArgsFor(params, today);
      service.items == Emitted(bookingCards, a.minPrice, a.maxPrice, a.starRating, "booking.com")
                     + Emitted(agodaCards, a.minPrice, a.maxPrice, a.starRating, "agoda")
  {
    booking, agoda := StartSearch(service, params, today, agodaQuery);
    ghost var fromBooking := Emitted(bookingCards, booking.minPrice, booking.maxPrice, booking.starRating, "booking.com");
    booking.Crawl(bookingCards);
    assert service.items == fromBooking by {
      assert [] + fromBooking == fromBooking;
    }
    agoda.Crawl(agodaCards);
  }
}
