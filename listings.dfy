/** A hotel listing as the spiders emit it and the comparators read it: a Python
    dict with the keys `hotel_name`, `price`, `rating`, `image`, `booking_url`
    and `source`, any of which a caller's dict may lack. Prices and ratings are
    integers. */
module Listings {
  import opened Values

  /** `hotel_name` and `image` may be present with the value None (a page card
      without a title or an image); the other keys are either missing or hold
      a value. */
  datatype Listing = Listing(
    name: Field<string>,
    price: Option<int>,
    rating: Option<int>,
    image: Field<string>,
    bookingUrl: Option<string>,
    source: Option<string>)

  /** A listing as a spider builds it: every one of the six keys is present. */
  predicate IsScrapedItem(h: Listing) {
    && !h.name.Absent? && h.price.Some? && h.rating.Some?
    && !h.image.Absent? && h.bookingUrl.Some? && h.source.Some?
  }
}
