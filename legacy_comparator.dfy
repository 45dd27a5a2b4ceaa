/** The older comparator: group the listings by normalised name (keeping every
    key, the empty one included), then build one dict per group holding the
    title-cased name under `"hotel_name"` and, under each listing's source
    name, that listing's price, image address (made absolute) and link. The
    entries keep the grouping's order. */
module LegacyComparator {
  import opened Values
  import opened Text
  import opened Dicts
  import opened Listings
  import opened Grouping

  /** The offer a source makes: `{"price": …, "image": …, "link": …}`. */
  datatype Offer = Offer(price: int, image: string, link: string)

  /** A value of a hotel entry: the title under `"hotel_name"`, an offer under
      a source name. */
  datatype EntryValue = HotelName(name: string) | SourceOffer(offer: Offer)

  /** One dict of the comparison list. */
  type HotelEntry = Dict<EntryValue>

  /** A pair of `hotel_map.items()`. */
  type Group = (string, seq<Listing>)

  // ---------------------------------------------------------------------------
  // group_hotels_by_name
  // ---------------------------------------------------------------------------

  /** The exception `hotel['hotel_name'].strip()` raises for one listing, if any. */
  function NameError(h: Listing): Option<PyError> {
    match h.name
    case Absent => Some(KeyError("hotel_name"))
    case Null => Some(AttributeError("strip"))
    case Present(_) => None
  }

  /** The exception the grouping loop stops at: that of the first listing whose
      name cannot be normalised. */
  function GroupError(hotels: seq<Listing>): Option<PyError> {
    if hotels == [] then None
    else
      var e := GroupError(hotels[..|hotels| - 1]);
      if e.Some? then e else NameError(hotels[|hotels| - 1])
  }

  /** The grouping fails exactly when some listing's name is missing or None,
      and then with the exception of the first such listing. */
  lemma {:induction false} GroupErrorAt(hotels: seq<Listing>)
    ensures GroupError(hotels).Some? <==> exists i :: 0 <= i < |hotels| && NameError(hotels[i]).Some?
    ensures GroupError(hotels).Some? ==>
      exists i :: 0 <= i < |hotels| && GroupError(hotels) == NameError(hotels[i])
             && forall j :: 0 <= j < i ==> NameError(hotels[j]).None?
  {
    if hotels != [] {
      var p := hotels[..|hotels| - 1];
      GroupErrorAt(p);
      if exists i :: 0 <= i < |hotels| && NameError(hotels[i]).Some? {
        var i :| 0 <= i < |hotels| && NameError(hotels[i]).Some?;
        if i < |p| {
          assert NameError(p[i]).Some?;
        }
      }
      if exists i :: 0 <= i < |p| && NameError(p[i]).Some? {
        var i :| 0 <= i < |p| && NameError(p[i]).Some?;
        assert NameError(hotels[i]).Some?;
      }
      if GroupError(p).Some? {
        var i :| 0 <= i < |p| && GroupError(p) == NameError(p[i])
               && forall j :: 0 <= j < i ==> NameError(p[j]).None?;
        assert GroupError(hotels) == NameError(hotels[i]);
        assert forall j :: 0 <= j < i ==> NameError(hotels[j]) == NameError(p[j]);
      } else if GroupError(hotels).Some? {
        var i := |p|;
        assert forall j :: 0 <= j < i ==> NameError(hotels[j]) == NameError(p[j]);
        assert forall j :: 0 <= j < i ==> NameError(hotels[j]).None?;
      }
    }
  }

  lemma {:induction false} GroupErrorPrefix(hotels: seq<Listing>, n: nat)
    requires n <= |hotels| && GroupError(hotels[..n]).Some?
    ensures GroupError(hotels) == GroupError(hotels[..n])
    decreases |hotels| - n
  {
    if n < |hotels| {
      assert hotels[..n + 1][..n] == hotels[..n];
      GroupErrorPrefix(hotels, n + 1);
    } else {
      assert hotels[..n] == hotels;
    }
  }

  /** One turn of the grouping loop, unfolded once. */
  lemma GroupLoopStep(hotels: seq<Listing>, i: nat)
    requires i < |hotels|
    ensures GroupError(hotels[..i + 1]) ==
      var e := GroupError(hotels[..i]); if e.Some? then e else NameError(hotels[i])
    ensures Grouped(hotels[..i + 1], NameKey, false) ==
      GroupStep(Grouped(hotels[..i], NameKey, false), NameKey, false, hotels[i])
  {
    assert hotels[..i + 1][..i] == hotels[..i];
  }

  /** Buckets the listings by `hotel_name.strip().lower()`; the empty key is a
      bucket like any other. */
  method GroupHotelsByName(hotels: seq<Listing>) returns (r: Result<Dict<seq<Listing>>, PyError>)
    ensures r.Failure? <==> GroupError(hotels).Some?
    ensures r.Failure? ==> r.error == GroupError(hotels).value
    ensures r.Success? ==> r.value == Grouped(hotels, NameKey, false)
  {
    var hotelMap: Dict<seq<Listing>> := Dict([], map[]);
    for i := 0 to |hotels|
      invariant GroupError(hotels[..i]).None?
      invariant hotelMap == Grouped(hotels[..i], NameKey, false)
    {
      var hotel := hotels[i];
      GroupLoopStep(hotels, i);
      if hotel.name.Absent? {
        GroupErrorPrefix(hotels, i + 1);
        return Failure(KeyError("hotel_name"));
      }
      if hotel.name.Null? {
        GroupErrorPrefix(hotels, i + 1);
        return Failure(AttributeError("strip"));
      }
      var name := NameKey(hotel);
      var bucket := if name in hotelMap.entries then hotelMap.entries[name] else [];
      hotelMap := hotelMap.Put(name, bucket + [hotel]);
    }
    assert hotels[..|hotels|] == hotels;
    r := Success(hotelMap);
  }

  // ---------------------------------------------------------------------------
  // fix_image_url
  // ---------------------------------------------------------------------------

  /** A protocol-relative address (`//host/path`) gets the `https:` scheme;
      any other address is returned unchanged. */
  function FixImageUrl(url: string): (r: string)
    ensures StartsWith(url, "//") ==> r == "https:" + url
    ensures !StartsWith(url, "//") ==> r == url
    ensures !StartsWith(r, "//")
  {
    if StartsWith(url, "//") then
      assert ("https:" + url)[0] == 'h';
      "https:" + url
    else url
  }

  lemma FixImageUrlIdempotent(url: string)
    ensures FixImageUrl(FixImageUrl(url)) == FixImageUrl(url)
  {
  }

  // ---------------------------------------------------------------------------
  // organize_hotel_comparison
  // ---------------------------------------------------------------------------

  /** The source name and offer one listing contributes, or the exception
      reading it raises: the keys are read in the order `source`, `price`,
      `image`, `booking_url`, and `fix_image_url` raises on an image of None. */
  function OfferOf(e: Listing): (r: Result<(string, Offer), PyError>)
    ensures r.Success? ==> e.source.Some? && e.price.Some? && e.image.Present? && e.bookingUrl.Some?
    ensures r.Success? ==> r.value.0 == e.source.value
    ensures r.Success? ==> r.value.1 == Offer(e.price.value, FixImageUrl(e.image.value), e.bookingUrl.value)
    ensures e.source.Some? && e.price.Some? && e.image.Present? && e.bookingUrl.Some? ==> r.Success?
    ensures e.source.None? ==> r == Failure(KeyError("source"))
    ensures e.source.Some? && e.price.None? ==> r == Failure(KeyError("price"))
    ensures e.source.Some? && e.price.Some? && e.image.Absent? ==> r == Failure(KeyError("image"))
    ensures e.source.Some? && e.price.Some? && e.image.Null? ==> r == Failure(AttributeError("startswith"))
    ensures e.source.Some? && e.price.Some? && e.image.Present? && e.bookingUrl.None? ==> r == Failure(KeyError("booking_url"))
  {
    if e.source.None? then Failure(KeyError("source"))
    else if e.price.None? then Failure(KeyError("price"))
    else if e.image.Absent? then Failure(KeyError("image"))
    else if e.image.Null? then Failure(AttributeError("startswith"))
    else if e.bookingUrl.None? then Failure(KeyError("booking_url"))
    else Success((e.source.value, Offer(e.price.value, FixImageUrl(e.image.value), e.bookingUrl.value)))
  }

  /** The entry built for the group `name` from its first listings, or the first
      exception raised on the way. */
  function EntryOf(name: string, sources: seq<Listing>): (r: Result<HotelEntry, PyError>)
    ensures r.Success? ==> r.value.Valid()
  {
    if sources == [] then Success(Singleton("hotel_name", HotelName(Title(name))))
    else
      var prev := EntryOf(name, sources[..|sources| - 1]);
      if prev.Failure? then prev
      else
        var o := OfferOf(sources[|sources| - 1]);
        if o.Failure? then Failure(o.error)
        else Success(prev.value.Put(o.value.0, SourceOffer(o.value.1)))
  }

  /** The comparison list built from the first groups, or the first exception. */
  function Organized(items: seq<Group>): (r: Result<seq<HotelEntry>, PyError>)
  {
    if items == [] then Success([])
    else
      var prev := Organized(items[..|items| - 1]);
      if prev.Failure? then prev
      else
        var (name, sources) := items[|items| - 1];
        var e := EntryOf(name, sources);
        if e.Failure? then Failure(e.error) else Success(prev.value + [e.value])
  }

  lemma {:induction false} EntryFailurePrefix(name: string, sources: seq<Listing>, n: nat)
    requires n <= |sources| && EntryOf(name, sources[..n]).Failure?
    ensures EntryOf(name, sources) == EntryOf(name, sources[..n])
    decreases |sources| - n
  {
    if n < |sources| {
      assert sources[..n + 1][..n] == sources[..n];
      EntryFailurePrefix(name, sources, n + 1);
    } else {
      assert sources[..n] == sources;
    }
  }

  lemma {:induction false} OrganizedFailurePrefix(items: seq<Group>, n: nat)
    requires n <= |items| && Organized(items[..n]).Failure?
    ensures Organized(items) == Organized(items[..n])
    decreases |items| - n
  {
    if n < |items| {
      assert items[..n + 1][..n] == items[..n];
      OrganizedFailurePrefix(items, n + 1);
    } else {
      assert items[..n] == items;
    }
  }

  /** One turn of the inner loop, unfolded once. */
  lemma EntryStep(name: string, sources: seq<Listing>, j: nat)
    requires j < |sources|
    ensures EntryOf(name, sources[..j + 1]) ==
      var prev := EntryOf(name, sources[..j]);
      if prev.Failure? then prev
      else
        var o := OfferOf(sources[j]);
        if o.Failure? then Failure(o.error)
        else Success(prev.value.Put(o.value.0, SourceOffer(o.value.1)))
  {
    assert sources[..j + 1][..j] == sources[..j];
  }

  /** One turn of the outer loop, unfolded once. */
  lemma OrganizedStep(items: seq<Group>, i: nat)
    requires i < |items|
    ensures Organized(items[..i + 1]) ==
      var prev := Organized(items[..i]);
      if prev.Failure? then prev
      else
        var e := EntryOf(items[i].0, items[i].1);
        if e.Failure? then Failure(e.error) else Success(prev.value + [e.value])
  {
    assert items[..i + 1][..i] == items[..i];
  }

  /** Turns each group into a dict: the title-cased name, then one offer per
      source, a later listing of the same source replacing an earlier one. */
  method OrganizeHotelComparison(hotelMap: Dict<seq<Listing>>) returns (r: Result<seq<HotelEntry>, PyError>)
    requires hotelMap.Valid()
    ensures r == Organized(hotelMap.Items())
  {
    var items := hotelMap.Items();
    var comparisonList: seq<HotelEntry> := [];
    for i := 0 to |items|
      invariant Organized(items[..i]) == Success(comparisonList)
    {
      var hotelName, sources := items[i].0, items[i].1;
      OrganizedStep(items, i);
      var hotelEntry := Singleton("hotel_name", HotelName(Title(hotelName)));
      for j := 0 to |sources|
        invariant EntryOf(hotelName, sources[..j]) == Success(hotelEntry)
      {
        var entry := sources[j];
        EntryStep(hotelName, sources, j);
        var o := OfferOf(entry);
        if o.Failure? {
          EntryFailurePrefix(hotelName, sources, j + 1);
          assert sources[..|sources|] == sources;
          OrganizedFailurePrefix(items, i + 1);
          return Failure(o.error);
        }
        hotelEntry := hotelEntry.Put(o.value.0, SourceOffer(o.value.1));
      }
      assert sources[..|sources|] == sources;
      comparisonList := comparisonList + [hotelEntry];
    }
    assert items[..|items|] == items;
    r := Success(comparisonList);
  }

  // ---------------------------------------------------------------------------
  // What an entry holds
  // ---------------------------------------------------------------------------

  /** The last listing of `sources` whose source is `s`. */
  function LastFrom(sources: seq<Listing>, s: string): Option<Listing> {
    if sources == [] then None
    else if sources[|sources| - 1].source == Some(s) then Some(sources[|sources| - 1])
    else LastFrom(sources[..|sources| - 1], s)
  }

  /** Building an entry fails exactly when some listing lacks a key it needs
      (or has an image of None). */
  lemma {:induction false} EntryFailsIff(name: string, sources: seq<Listing>)
    ensures EntryOf(name, sources).Failure? <==> exists j :: 0 <= j < |sources| && OfferOf(sources[j]).Failure?
  {
    if sources != [] {
      var p := sources[..|sources| - 1];
      EntryFailsIff(name, p);
      if exists j :: 0 <= j < |sources| && OfferOf(sources[j]).Failure? {
        var j :| 0 <= j < |sources| && OfferOf(sources[j]).Failure?;
        if j < |p| {
          assert OfferOf(p[j]).Failure?;
        }
      }
      if exists j :: 0 <= j < |p| && OfferOf(p[j]).Failure? {
        var j :| 0 <= j < |p| && OfferOf(p[j]).Failure?;
        assert OfferOf(sources[j]).Failure?;
      }
    }
  }

  /** Under every key other than `"hotel_name"`, an entry holds the offer of
      the last listing from that source, and it holds such a key exactly when
      some listing comes from that source. */
  lemma {:induction false} LastListingWins(name: string, sources: seq<Listing>, s: string)
    requires EntryOf(name, sources).Success? && s != "hotel_name"
    ensures s in EntryOf(name, sources).value.entries <==> LastFrom(sources, s).Some?
    ensures LastFrom(sources, s).Some? ==>
      OfferOf(LastFrom(sources, s).value).Success? &&
      EntryOf(name, sources).value.entries[s] == SourceOffer(OfferOf(LastFrom(sources, s).value).value.1)
  {
    if sources != [] {
      LastListingWins(name, sources[..|sources| - 1], s);
    }
  }

  /** No source named `"hotel_name"`: the entry keeps the title-cased group key. */
  predicate NoSourceNamed(sources: seq<Listing>, s: string) {
    forall j :: 0 <= j < |sources| ==> sources[j].source != Some(s)
  }

  /** `"hotel_name"` is the entry's first key, and it holds the title-cased
      group key unless a listing's source is itself named `"hotel_name"`. */
  lemma {:induction false} TitleComesFirst(name: string, sources: seq<Listing>)
    requires EntryOf(name, sources).Success?
    ensures var d := EntryOf(name, sources).value;
      |d.order| > 0 && d.order[0] == "hotel_name" && "hotel_name" in d.entries
    ensures NoSourceNamed(sources, "hotel_name") ==>
      EntryOf(name, sources).value.entries["hotel_name"] == HotelName(Title(name))
  {
    if sources != [] {
      var p := sources[..|sources| - 1];
      assert NoSourceNamed(sources, "hotel_name") ==> NoSourceNamed(p, "hotel_name");
      TitleComesFirst(name, p);
    }
  }

  /** Every image address an entry holds is absolute or path-relative, never
      protocol-relative. */
  lemma {:induction false} ImagesFixed(name: string, sources: seq<Listing>)
    requires EntryOf(name, sources).Success?
    ensures var d := EntryOf(name, sources).value;
      forall k :: k in d.entries && d.entries[k].SourceOffer? ==> !StartsWith(d.entries[k].offer.image, "//")
  {
    if sources != [] {
      ImagesFixed(name, sources[..|sources| - 1]);
    }
  }

  /** Building the entry of the `i`-th group raises. */
  predicate EntryFailsAt(items: seq<Group>, i: int)
    requires 0 <= i < |items|
  {
    EntryOf(items[i].0, items[i].1).Failure?
  }

  /** The list fails when the list of the earlier groups fails or the last
      group's entry fails. */
  lemma OrganizedFailsStep(items: seq<Group>)
    requires items != []
    ensures Organized(items).Failure? <==> Organized(items[..|items| - 1]).Failure? || EntryFailsAt(items, |items| - 1)
  {
  }

  /** The groups before the last fail at the same positions in the prefix. */
  lemma EntryFailsAtPrefix(items: seq<Group>, i: int)
    requires 0 <= i < |items| - 1
    ensures EntryFailsAt(items[..|items| - 1], i) == EntryFailsAt(items, i)
  {
    assert items[..|items| - 1][i] == items[i];
  }

  /** A failing list names a group whose entry fails. */
  lemma {:induction false} OrganizedFailureAt(items: seq<Group>) returns (i: nat)
    requires Organized(items).Failure?
    ensures i < |items| && EntryFailsAt(items, i)
  {
    var n := |items| - 1;
    OrganizedFailsStep(items);
    if Organized(items[..n]).Failure? {
      i := OrganizedFailureAt(items[..n]);
      EntryFailsAtPrefix(items, i);
    } else {
      i := n;
    }
  }

  /** A group whose entry fails makes the whole list fail. */
  lemma {:induction false} OrganizedFailsFrom(items: seq<Group>, i: nat)
    requires i < |items| && EntryFailsAt(items, i)
    ensures Organized(items).Failure?
  {
    var n := |items| - 1;
    OrganizedFailsStep(items);
    if i < n {
      EntryFailsAtPrefix(items, i);
      OrganizedFailsFrom(items[..n], i);
    }
  }

  /** The comparison list fails exactly when some group's entry fails. */
  lemma OrganizedFailsIff(items: seq<Group>)
    ensures Organized(items).Failure? <==> exists i :: 0 <= i < |items| && EntryFailsAt(items, i)
  {
    if exists i :: 0 <= i < |items| && EntryFailsAt(items, i) {
      var i :| 0 <= i < |items| && EntryFailsAt(items, i);
      OrganizedFailsFrom(items, i);
    }
    if Organized(items).Failure? {
      var i := OrganizedFailureAt(items);
    }
  }

  /** The comparison list has one entry per group. */
  lemma {:induction false} OrganizedLength(items: seq<Group>)
    requires Organized(items).Success?
    ensures |Organized(items).value| == |items|
  {
    if items != [] {
      OrganizedLength(items[..|items| - 1]);
    }
  }

  /** The entry at position `i` is the one built from the `i`-th group: the
      entries keep the groups' order. */
  lemma {:induction false} OrganizedAt(items: seq<Group>, i: nat)
    requires Organized(items).Success? && i < |items|
    ensures |Organized(items).value| == |items| &&
            EntryOf(items[i].0, items[i].1) == Success(Organized(items).value[i])
  {
    OrganizedLength(items);
    var p := items[..|items| - 1];
    OrganizedLength(p);
    if i < |p| {
      OrganizedAt(p, i);
      assert p[i] == items[i];
    }
  }
}
