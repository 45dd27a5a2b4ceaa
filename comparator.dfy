/** The comparator the search endpoint uses: group the scraped listings by exact
    normalised name, then turn each group into one comparison entry with its
    best price and one record per listing, and rank the entries by best price. */
module Comparator {
  import opened Values
  import opened Dicts
  import opened Listings
  import opened Grouping

  /** One element of an entry's `sources` list. `image` is None when the
      listing's `image` key holds None. */
  datatype SourceRecord = SourceRecord(
    source: string,
    price: int,
    rating: int,
    image: Option<string>,
    bookingUrl: string,
    isBestDeal: bool)

  /** One element of the comparison list. */
  datatype Entry = Entry(hotelName: string, bestPrice: int, sources: seq<SourceRecord>)

  /** A pair of `grouped_hotels.items()`: a group key and its listings. */
  type Group = (string, seq<Listing>)

  // ---------------------------------------------------------------------------
  // group_hotels_by_name
  // ---------------------------------------------------------------------------

  /** Some listing's `hotel_name` holds None. */
  predicate HasNullName(hotels: seq<Listing>) {
    hotels != [] && (HasNullName(hotels[..|hotels| - 1]) || hotels[|hotels| - 1].name.Null?)
  }

  lemma {:induction false} NullNameAt(hotels: seq<Listing>)
    ensures HasNullName(hotels) <==> exists i :: 0 <= i < |hotels| && hotels[i].name.Null?
  {
    if hotels != [] {
      var p := hotels[..|hotels| - 1];
      NullNameAt(p);
      if exists i :: 0 <= i < |hotels| && hotels[i].name.Null? {
        var i :| 0 <= i < |hotels| && hotels[i].name.Null?;
        if i < |p| {
          assert p[i].name.Null?;
        }
      }
      if exists i :: 0 <= i < |p| && p[i].name.Null? {
        var i :| 0 <= i < |p| && p[i].name.Null?;
        assert hotels[i].name.Null?;
      }
    }
  }

  lemma {:induction false} NullNamePrefix(hotels: seq<Listing>, n: nat)
    requires n <= |hotels| && HasNullName(hotels[..n])
    ensures HasNullName(hotels)
    decreases |hotels| - n
  {
    if n < |hotels| {
      assert hotels[..n + 1][..n] == hotels[..n];
      NullNamePrefix(hotels, n + 1);
    } else {
      assert hotels[..n] == hotels;
    }
  }

  /** Buckets the listings by `hotel_name.strip().lower()`, dropping listings
      whose key is empty. A listing whose name is None makes `strip()` raise. */
  method GroupHotelsByName(hotels: seq<Listing>) returns (r: Result<Dict<seq<Listing>>, PyError>)
    ensures r.Failure? <==> HasNullName(hotels)
    ensures r.Failure? ==> r.error == AttributeError("strip")
    ensures r.Success? ==> r.value == Grouped(hotels, NameKey, true)
  {
    var grouped: Dict<seq<Listing>> := Dict([], map[]);
    for i := 0 to |hotels|
      invariant !HasNullName(hotels[..i])
      invariant grouped == Grouped(hotels[..i], NameKey, true)
    {
      var hotel := hotels[i];
      assert hotels[..i + 1][..i] == hotels[..i];
      if hotel.name.Null? {
        NullNamePrefix(hotels, i + 1);
        return Failure(AttributeError("strip"));
      }
      var name := NameKey(hotel);
      if name != "" {
        // `defaultdict(list)`: a missing key reads as a fresh empty list
        var bucket := if name in grouped.entries then grouped.entries[name] else [];
        grouped := grouped.Put(name, bucket + [hotel]);
      }
    }
    assert hotels[..|hotels|] == hotels;
    r := Success(grouped);
  }

  // ---------------------------------------------------------------------------
  // One comparison entry per group
  // ---------------------------------------------------------------------------

  /** `min(prices)` */
  function MinPrice(prices: seq<int>): (m: int)
    requires prices != []
    ensures m in prices
    ensures forall i :: 0 <= i < |prices| ==> m <= prices[i]
  {
    if |prices| == 1 then prices[0]
    else
      var m := MinPrice(prices[1..]);
      if prices[0] <= m then prices[0] else m
  }

  /** Every listing has a `price` key, so `hotel['price']` does not raise. */
  predicate AllPriced(hotels: seq<Listing>) {
    forall i :: 0 <= i < |hotels| ==> hotels[i].price.Some?
  }

  /** `[hotel['price'] for hotel in hotels]` */
  function Prices(hotels: seq<Listing>): (ps: seq<int>)
    requires AllPriced(hotels)
    ensures |ps| == |hotels| && forall i :: 0 <= i < |hotels| ==> ps[i] == hotels[i].price.value
  {
    seq(|hotels|, i requires 0 <= i < |hotels| => hotels[i].price.value)
  }

  /** The `source_data` dict built for one listing; missing keys take the
      defaults `'unknown'`, `0`, `0`, `''`, `''`. */
  function SourceFor(h: Listing, bestPrice: int): SourceRecord {
    SourceRecord(
      h.source.GetOr("unknown"),
      h.price.GetOr(0),
      h.rating.GetOr(0),
      h.image.Get(""),
      h.bookingUrl.GetOr(""),
      h.price.GetOr(0) == bestPrice)
  }

  /** The `sources` list of an entry, one record per listing in order. */
  function SourcesFor(hotels: seq<Listing>, bestPrice: int): (ss: seq<SourceRecord>)
    ensures |ss| == |hotels|
  {
    if hotels == [] then []
    else SourcesFor(hotels[..|hotels| - 1], bestPrice) + [SourceFor(hotels[|hotels| - 1], bestPrice)]
  }

  lemma {:induction false} SourcesForAt(hotels: seq<Listing>, bestPrice: int, i: nat)
    requires i < |hotels|
    ensures SourcesFor(hotels, bestPrice)[i] == SourceFor(hotels[i], bestPrice)
  {
    if i < |hotels| - 1 {
      SourcesForAt(hotels[..|hotels| - 1], bestPrice, i);
    }
  }

  /** The entry for a non-empty group whose listings all have a price. */
  function EntryFor(hotelName: string, hotels: seq<Listing>): Entry
    requires hotels != [] && AllPriced(hotels)
  {
    var best := MinPrice(Prices(hotels));
    Entry(hotelName, best, SourcesFor(hotels, best))
  }

  /** An entry keeps its group's name, its best price is the lowest price of
      the group, it has one record per listing carrying that listing's fields
      (or their defaults), and a record is flagged as the best deal exactly
      when its price equals the best price -- so at least one record is. */
  lemma EntryForMeaning(hotelName: string, hotels: seq<Listing>)
    requires hotels != [] && AllPriced(hotels)
    ensures var e := EntryFor(hotelName, hotels);
      && e.hotelName == hotelName
      && (forall i :: 0 <= i < |hotels| ==> e.bestPrice <= hotels[i].price.value)
      && (exists i :: 0 <= i < |hotels| && hotels[i].price.value == e.bestPrice)
      && |e.sources| == |hotels|
      && (forall i :: 0 <= i < |hotels| ==>
            && e.sources[i].price == hotels[i].price.value
            && (e.sources[i].isBestDeal <==> hotels[i].price.value == e.bestPrice)
            && e.sources[i].source == hotels[i].source.GetOr("unknown")
            && e.sources[i].rating == hotels[i].rating.GetOr(0)
            && e.sources[i].image == hotels[i].image.Get("")
            && e.sources[i].bookingUrl == hotels[i].bookingUrl.GetOr(""))
      && (exists i :: 0 <= i < |e.sources| && e.sources[i].isBestDeal)
  {
    var e := EntryFor(hotelName, hotels);
    var ps := Prices(hotels);
    forall i | 0 <= i < |hotels| ensures e.sources[i] == SourceFor(hotels[i], e.bestPrice) {
      SourcesForAt(hotels, e.bestPrice, i);
    }
    var i :| 0 <= i < |ps| && ps[i] == e.bestPrice;
    assert e.sources[i].isBestDeal;
  }

  /** No non-empty group has a listing without a price. */
  predicate GroupsPriced(items: seq<Group>) {
    items != [] ==> GroupsPriced(items[..|items| - 1]) && AllPriced(items[|items| - 1].1)
  }

  lemma {:induction false} GroupsPricedAt(items: seq<Group>)
    ensures GroupsPriced(items) <==> forall i :: 0 <= i < |items| ==> AllPriced(items[i].1)
  {
    if items != [] {
      var p := items[..|items| - 1];
      GroupsPricedAt(p);
      assert forall i :: 0 <= i < |p| ==> p[i] == items[i];
    }
  }

  lemma {:induction false} UnpricedPrefix(items: seq<Group>, n: nat)
    requires n <= |items| && !GroupsPriced(items[..n])
    ensures !GroupsPriced(items)
    decreases |items| - n
  {
    if n < |items| {
      assert items[..n + 1][..n] == items[..n];
      UnpricedPrefix(items, n + 1);
    } else {
      assert items[..n] == items;
    }
  }

  /** The comparison list before sorting: one entry per non-empty group, in
      iteration order. */
  function Entries(items: seq<Group>): (es: seq<Entry>)
    requires GroupsPriced(items)
    ensures |es| <= |items|
  {
    if items == [] then []
    else
      var (name, hotels) := items[|items| - 1];
      if hotels == [] then Entries(items[..|items| - 1])
      else Entries(items[..|items| - 1]) + [EntryFor(name, hotels)]
  }

  /** The groups of `items` that have listings, in order. */
  function NonEmptyGroups(items: seq<Group>): (gs: seq<Group>)
    requires GroupsPriced(items)
    ensures forall g :: g in gs ==> g in items && g.1 != [] && AllPriced(g.1)
  {
    if items == [] then []
    else
      var g := items[|items| - 1];
      if g.1 == [] then NonEmptyGroups(items[..|items| - 1])
      else NonEmptyGroups(items[..|items| - 1]) + [g]
  }

  /** A group is kept exactly when it is a group of `items` with listings. */
  lemma {:induction false} NonEmptyGroupsExact(items: seq<Group>, g: Group)
    requires GroupsPriced(items)
    ensures g in NonEmptyGroups(items) <==> g in items && g.1 != []
  {
    if items != [] {
      var p := items[..|items| - 1];
      NonEmptyGroupsExact(p, g);
      assert items == p + [items[|items| - 1]];
    }
  }

  /** Empty groups are skipped and every other group yields exactly one entry,
      in iteration order, named by its key and built from its listings. */
  lemma {:induction false} EntriesOnePerGroup(items: seq<Group>)
    requires GroupsPriced(items)
    ensures |Entries(items)| == |NonEmptyGroups(items)|
    ensures forall i :: 0 <= i < |Entries(items)| ==>
      var g := NonEmptyGroups(items)[i];
      Entries(items)[i] == EntryFor(g.0, g.1)
  {
    if items != [] {
      EntriesOnePerGroup(items[..|items| - 1]);
    }
  }

  // ---------------------------------------------------------------------------
  // comparison_list.sort(key=lambda x: x['best_price']) -- a stable sort
  // ---------------------------------------------------------------------------

  predicate SortedByBestPrice(es: seq<Entry>) {
    forall i, j :: 0 <= i < j < |es| ==> es[i].bestPrice <= es[j].bestPrice
  }

  /** The entries whose best price is `p`, in order. */
  function WithBestPrice(es: seq<Entry>, p: int): seq<Entry> {
    if es == [] then []
    else (if es[0].bestPrice == p then [es[0]] else []) + WithBestPrice(es[1..], p)
  }

  lemma {:induction false} WithBestPriceAppend(a: seq<Entry>, b: seq<Entry>, p: int)
    ensures WithBestPrice(a + b, p) == WithBestPrice(a, p) + WithBestPrice(b, p)
  {
    if a == [] {
      assert a + b == b;
    } else {
      var t := a[1..];
      var hd := if a[0].bestPrice == p then [a[0]] else [];
      assert (a + b)[1..] == t + b;
      WithBestPriceAppend(t, b, p);
      calc {
        WithBestPrice(a + b, p);
        hd + WithBestPrice(t + b, p);
        hd + (WithBestPrice(t, p) + WithBestPrice(b, p));
        (hd + WithBestPrice(t, p)) + WithBestPrice(b, p);
      }
    }
  }

  /** Insert `e` before the first entry whose best price is not below its
      own. */
  function Insert(e: Entry, es: seq<Entry>): (r: seq<Entry>)
    ensures |r| == |es| + 1
  {
    if es == [] then [e]
    else if e.bestPrice <= es[0].bestPrice then [e] + es
    else [es[0]] + Insert(e, es[1..])
  }

  lemma {:induction false} InsertPermutes(e: Entry, es: seq<Entry>)
    ensures multiset(Insert(e, es)) == multiset(es) + multiset{e}
  {
    if es != [] && e.bestPrice > es[0].bestPrice {
      InsertPermutes(e, es[1..]);
      assert es == [es[0]] + es[1..];
    }
  }

  /** Inserting into a sorted list keeps it sorted; the head of the result is
      the inserted entry or the old head. */
  lemma {:induction false} InsertSorted(e: Entry, es: seq<Entry>)
    requires SortedByBestPrice(es)
    ensures SortedByBestPrice(Insert(e, es))
    ensures Insert(e, es)[0] == e || (es != [] && Insert(e, es)[0] == es[0])
  {
    if es != [] && e.bestPrice > es[0].bestPrice {
      var rest := Insert(e, es[1..]);
      InsertSorted(e, es[1..]);
      assert es[0].bestPrice <= rest[0].bestPrice;
      var r := [es[0]] + rest;
      forall i, j | 0 <= i < j < |r| ensures r[i].bestPrice <= r[j].bestPrice {
        if i > 0 {
          assert r[i] == rest[i - 1] && r[j] == rest[j - 1];
        } else if j > 1 {
          assert r[j] == rest[j - 1];
          assert rest[0].bestPrice <= rest[j - 1].bestPrice;
        }
      }
    }
  }

  /** Insertion keeps the order among entries of equal best price, with the
      inserted entry ahead of the ones already there. */
  lemma {:induction false} InsertStable(e: Entry, es: seq<Entry>, p: int)
    ensures WithBestPrice(Insert(e, es), p) == WithBestPrice([e], p) + WithBestPrice(es, p)
  {
    if es == [] {
    } else if e.bestPrice <= es[0].bestPrice {
      WithBestPriceAppend([e], es, p);
    } else {
      var rest := Insert(e, es[1..]);
      assert Insert(e, es) == [es[0]] + rest;
      InsertStable(e, es[1..], p);
      WithBestPriceAppend([es[0]], rest, p);
      WithBestPriceAppend([es[0]], es[1..], p);
      assert [es[0]] + es[1..] == es;
    }
  }

  /** Python's `list.sort` keyed by best price, as an insertion sort. */
  function SortByBestPrice(es: seq<Entry>): (r: seq<Entry>)
    ensures |r| == |es|
  {
    if es == [] then [] else Insert(es[0], SortByBestPrice(es[1..]))
  }

  /** The sorted list is ordered by best price. */
  lemma {:induction false} SortSorts(es: seq<Entry>)
    ensures SortedByBestPrice(SortByBestPrice(es))
  {
    if es != [] {
      SortSorts(es[1..]);
      InsertSorted(es[0], SortByBestPrice(es[1..]));
    }
  }

  /** The sorted list is a permutation of the input. */
  lemma {:induction false} SortPermutes(es: seq<Entry>)
    ensures multiset(SortByBestPrice(es)) == multiset(es)
  {
    if es != [] {
      var t := SortByBestPrice(es[1..]);
      SortPermutes(es[1..]);
      InsertPermutes(es[0], t);
      calc {
        multiset(SortByBestPrice(es));
        multiset(Insert(es[0], t));
        multiset(t) + multiset{es[0]};
        multiset(es[1..]) + multiset{es[0]};
        { assert es == [es[0]] + es[1..]; }
        multiset(es);
      }
    }
  }

  /** The sort is stable: for every best price, the entries with that price
      come out in the order they went in. */
  lemma {:induction false} SortIsStable(es: seq<Entry>, p: int)
    ensures WithBestPrice(SortByBestPrice(es), p) == WithBestPrice(es, p)
  {
    if es != [] {
      SortIsStable(es[1..], p);
      InsertStable(es[0], SortByBestPrice(es[1..]), p);
      WithBestPriceAppend([es[0]], es[1..], p);
      assert [es[0]] + es[1..] == es;
    }
  }

  // ---------------------------------------------------------------------------
  // organize_hotel_comparison
  // ---------------------------------------------------------------------------

  /** What `organize_hotel_comparison` returns for a dict: `KeyError('price')`
      when a listing of some group has no price, else the entries of the
      non-empty groups sorted by best price. */
  function Comparison(d: Dict<seq<Listing>>): Result<seq<Entry>, PyError>
    requires d.Valid()
  {
    var items := d.Items();
    if GroupsPriced(items) then Success(SortByBestPrice(Entries(items)))
    else Failure(KeyError("price"))
  }

  /** One more group of the iteration: it extends the spec by at most one
      entry. */
  lemma EntriesStep(items: seq<Group>, i: nat)
    requires i < |items|
    ensures GroupsPriced(items[..i + 1]) <==> GroupsPriced(items[..i]) && AllPriced(items[i].1)
    ensures GroupsPriced(items[..i + 1]) ==>
      Entries(items[..i + 1]) ==
        if items[i].1 == [] then Entries(items[..i])
        else Entries(items[..i]) + [EntryFor(items[i].0, items[i].1)]
  {
    assert items[..i + 1][..i] == items[..i];
  }

  lemma SourcesStep(hotels: seq<Listing>, bestPrice: int, j: nat)
    requires j < |hotels|
    ensures SourcesFor(hotels[..j + 1], bestPrice) == SourcesFor(hotels[..j], bestPrice) + [SourceFor(hotels[j], bestPrice)]
  {
    assert hotels[..j + 1][..j] == hotels[..j];
  }

  method OrganizeHotelComparison(grouped: Dict<seq<Listing>>) returns (r: Result<seq<Entry>, PyError>)
    requires grouped.Valid()
    ensures r == Comparison(grouped)
  {
    var items := grouped.Items();
    var comparisonList: seq<Entry> := [];
    for i := 0 to |items|
      invariant GroupsPriced(items[..i])
      invariant comparisonList == Entries(items[..i])
    {
      var hotelName, hotels := items[i].0, items[i].1;
      EntriesStep(items, i);
      if hotels == [] {
        continue;
      }
      if !AllPriced(hotels) {
        UnpricedPrefix(items, i + 1);
        return Failure(KeyError("price"));
      }
      var bestPrice := MinPrice(Prices(hotels));
      var sources: seq<SourceRecord> := [];
      for j := 0 to |hotels|
        invariant sources == SourcesFor(hotels[..j], bestPrice)
      {
        var hotel := hotels[j];
        var sourceData := SourceRecord(
          hotel.source.GetOr("unknown"),
          hotel.price.GetOr(0),
          hotel.rating.GetOr(0),
          hotel.image.Get(""),
          hotel.bookingUrl.GetOr(""),
          hotel.price.GetOr(0) == bestPrice);
        assert sourceData == SourceFor(hotel, bestPrice);
        SourcesStep(hotels, bestPrice, j);
        sources := sources + [sourceData];
      }
      assert hotels[..|hotels|] == hotels;
      assert Entry(hotelName, bestPrice, sources) == EntryFor(hotelName, hotels);
      comparisonList := comparisonList + [Entry(hotelName, bestPrice, sources)];
    }
    assert items[..|items|] == items;
    r := Success(SortByBestPrice(comparisonList));
  }

  /** No groups give an empty comparison list, not an error. */
  lemma NoGroupsNoEntries()
    ensures Comparison(Dict([], map[])) == Success([])
  {
  }
}
