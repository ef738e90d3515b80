/**
 * The restaurant document as stored in the collection, and the facts about a
 * whole table of documents that the other modules share.
 */
module Records {
  import opened Optional

  /** The attribute set `create` receives (every field is supplied by the caller). */
  datatype Attributes = Attributes(
    name: string,
    address: string,
    location: string,
    minPrice: int,
    maxPrice: int,
    currency: string,
    cuisine: string,
    longitude: real,
    latitude: real,
    phoneNumber: string,
    url: string,
    websiteUrl: string,
    award: string,
    country: string)

  /**
   * A stored restaurant: its store-assigned identity, the attributes it was
   * created with, and the bookmark counter, which older documents may lack.
   */
  datatype Restaurant = Restaurant(id: nat, attrs: Attributes, bookmarkCount: Option<int>)

  /** The counter as a reader sees it: an absent field reads as 0. */
  function CountOf(c: Option<int>): int {
    c.GetOr(0)
  }

  /**
   * The document after `$inc: { bookmarkCount: delta }`: an absent counter
   * is created holding `delta`, a present one grows by `delta`; no other
   * field changes.
   */
  function Bump(r: Restaurant, delta: int): (b: Restaurant)
    ensures b.id == r.id && b.attrs == r.attrs
    ensures b.bookmarkCount.Some? && CountOf(b.bookmarkCount) == CountOf(r.bookmarkCount) + delta
  {
    r.(bookmarkCount := Some(CountOf(r.bookmarkCount) + delta))
  }

  /** The store's key invariant: no two documents share an id. */
  ghost predicate Distinct(s: seq<Restaurant>) {
    forall i, j :: 0 <= i < j < |s| ==> s[i].id != s[j].id
  }

  /** True iff some document in `s` has identity `id`. */
  predicate HasId(s: seq<Restaurant>, id: nat) {
    exists x :: x in s && x.id == id
  }
}
