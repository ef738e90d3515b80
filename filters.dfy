/**
 * The filters the data-access layer sends to the store, what it means for a
 * document to satisfy one, and the read-only lookups built on them:
 * `findById`, `findByName`, `findAllByCountry` and `countByCountry`.
 */
module Filters {
  import opened Optional
  import opened Records
  import opened Text

  /** `Number.MAX_SAFE_INTEGER`, the default upper price bound of the composite query. */
  const MaxSafeInteger: int := 9007199254740991

  /**
   * The composite query of `findAllByQuery`: six case-insensitive substring
   * patterns and a price range.
   */
  datatype Query = Query(
    name: string,
    address: string,
    location: string,
    minPrice: int,
    maxPrice: int,
    cuisine: string,
    award: string,
    country: string)

  /** The four filter shapes the paging operations use. */
  datatype Filter =
    | Everything              // find({})
    | CountryIs(country: string)  // find({ country })
    | CuisineIs(cuisine: string)  // find({ cuisine })
    | Composite(query: Query)     // the composite query

  /** The composite query as the matcher evaluates it: every condition must hold. */
  predicate QueryMatches(r: Restaurant, q: Query) {
    && ContainsFold(r.attrs.name, q.name)
    && ContainsFold(r.attrs.address, q.address)
    && ContainsFold(r.attrs.location, q.location)
    && r.attrs.minPrice >= q.minPrice
    && r.attrs.maxPrice <= q.maxPrice
    && ContainsFold(r.attrs.cuisine, q.cuisine)
    && ContainsFold(r.attrs.award, q.award)
    && ContainsFold(r.attrs.country, q.country)
  }

  predicate Matches(r: Restaurant, f: Filter) {
    match f
    case Everything => true
    case CountryIs(c) => r.attrs.country == c
    case CuisineIs(c) => r.attrs.cuisine == c
    case Composite(q) => QueryMatches(r, q)
  }

  /**
   * The composite query is the conjunction of its conditions: each pattern
   * occurs, up to case, in its field, and the document's prices lie inside
   * the requested range.
   */
  lemma QueryMatchesMeaning(r: Restaurant, q: Query)
    ensures QueryMatches(r, q) <==>
      && Occurs(r.attrs.name, q.name)
      && Occurs(r.attrs.address, q.address)
      && Occurs(r.attrs.location, q.location)
      && q.minPrice <= r.attrs.minPrice
      && r.attrs.maxPrice <= q.maxPrice
      && Occurs(r.attrs.cuisine, q.cuisine)
      && Occurs(r.attrs.award, q.award)
      && Occurs(r.attrs.country, q.country)
  {
    ContainsFoldIffOccurs(r.attrs.name, q.name);
    ContainsFoldIffOccurs(r.attrs.address, q.address);
    ContainsFoldIffOccurs(r.attrs.location, q.location);
    ContainsFoldIffOccurs(r.attrs.cuisine, q.cuisine);
    ContainsFoldIffOccurs(r.attrs.award, q.award);
    ContainsFoldIffOccurs(r.attrs.country, q.country);
  }

  /** The documents of `s` that satisfy `f`, in storage order (`find(filter)`). */
  function Select(s: seq<Restaurant>, f: Filter): (r: seq<Restaurant>)
    ensures |r| <= |s|
    ensures forall x :: x in r <==> x in s && Matches(x, f)
    ensures Distinct(s) ==> Distinct(r)
  {
    if s == [] then []
    else
      var rest := Select(s[1..], f);
      assert forall x :: x in s[1..] ==> x in s;
      assert Distinct(s) ==> forall x :: x in rest ==> x.id != s[0].id;
      if Matches(s[0], f) then [s[0]] + rest else rest
  }

  /** A filter every stored document satisfies selects the whole table, in table order. */
  lemma {:induction false} SelectAllMatching(s: seq<Restaurant>, f: Filter)
    requires forall x :: x in s ==> Matches(x, f)
    ensures Select(s, f) == s
  {
    if s != [] {
      var rest := s[1..];
      assert forall x :: x in rest ==> x in s;
      SelectAllMatching(rest, f);
      assert s[0] in s;
      assert s == [s[0]] + rest;
    }
  }

  /** The `{}` filter selects every document, in table order. */
  lemma {:induction false} SelectEverything(table: seq<Restaurant>)
    ensures Select(table, Everything) == table
  {
    SelectAllMatching(table, Everything);
  }

  /** The number of documents of `s` that satisfy `f` (`countDocuments(filter)`). */
  function Count(s: seq<Restaurant>, f: Filter): (n: nat)
    ensures n <= |s|
  {
    if s == [] then 0
    else (if Matches(s[0], f) then 1 else 0) + Count(s[1..], f)
  }

  /** The count round trip and the fetch round trip agree on the same table. */
  lemma {:induction false} CountIsSelectLength(s: seq<Restaurant>, f: Filter)
    ensures Count(s, f) == |Select(s, f)|
  {
    if s != [] {
      CountIsSelectLength(s[1..], f);
    }
  }

  /** The unfiltered count is the size of the collection. */
  lemma {:induction false} CountEverything(s: seq<Restaurant>)
    ensures Count(s, Everything) == |s|
  {
    if s != [] {
      CountEverything(s[1..]);
    }
  }

  /** The number of documents of `s` that satisfy `f` and have an id below `bound`. */
  function CountBefore(s: seq<Restaurant>, f: Filter, bound: nat): (n: nat)
    ensures n <= Count(s, f)
  {
    if s == [] then 0
    else (if Matches(s[0], f) && s[0].id < bound then 1 else 0) + CountBefore(s[1..], f, bound)
  }

  /** `findById`: the document with identity `id`, or nothing. */
  function FindById(s: seq<Restaurant>, id: nat): (r: Option<Restaurant>)
    ensures r.None? <==> !HasId(s, id)
    ensures r.Some? ==> r.value in s && r.value.id == id
  {
    if s == [] then None
    else if s[0].id == id then Some(s[0])
    else
      assert forall x :: x in s ==> x == s[0] || x in s[1..];
      FindById(s[1..], id)
  }

  /** Identities are unique, so `findById` returns the one document holding the id. */
  lemma FindByIdIsTheRecord(s: seq<Restaurant>, x: Restaurant)
    requires Distinct(s) && x in s
    ensures FindById(s, x.id) == Some(x)
  {
    var k :| 0 <= k < |s| && s[k] == x;
    var y := FindById(s, x.id).value;
    var j :| 0 <= j < |s| && s[j] == y;
    assert j == k;
  }

  /**
   * Appending a document `x` (as `create` does) changes only the lookup of
   * `x`'s id, and only when no stored document already held it.
   */
  lemma {:induction false} FindByIdAfterAppend(s: seq<Restaurant>, x: Restaurant, id: nat)
    ensures FindById(s + [x], id) ==
      if HasId(s, id) then FindById(s, id) else if x.id == id then Some(x) else None
    decreases |s|
  {
    if s == [] {
      assert !HasId(s, id);
      assert (s + [x])[1..] == [];
    } else {
      assert (s + [x])[0] == s[0];
      assert (s + [x])[1..] == s[1..] + [x];
      assert HasId(s, id) <==> s[0].id == id || HasId(s[1..], id) by {
        assert forall y :: y in s <==> y == s[0] || y in s[1..];
      }
      FindByIdAfterAppend(s[1..], x, id);
    }
  }

  /** `findByName`: the first document in storage order whose name is exactly `name`. */
  function FindByName(s: seq<Restaurant>, name: string): (r: Option<Restaurant>)
    ensures r.None? <==> forall x :: x in s ==> x.attrs.name != name
    ensures r.Some? ==> exists k :: 0 <= k < |s| && s[k] == r.value && r.value.attrs.name == name &&
                           forall j :: 0 <= j < k ==> s[j].attrs.name != name
  {
    if s == [] then None
    else if s[0].attrs.name == name then Some(s[0])
    else
      var r := FindByName(s[1..], name);
      assert forall x :: x in s ==> x == s[0] || x in s[1..];
      assert r.Some? ==> exists k :: 0 <= k < |s| && s[k] == r.value && r.value.attrs.name == name &&
                           forall j :: 0 <= j < k ==> s[j].attrs.name != name by {
        if r.Some? {
          var k :| 0 <= k < |s[1..]| && s[1..][k] == r.value && r.value.attrs.name == name &&
                   forall j :: 0 <= j < k ==> s[1..][j].attrs.name != name;
          assert s[k + 1] == r.value;
          assert forall j :: 0 <= j < k + 1 ==> s[j].attrs.name != name by {
            forall j | 0 <= j < k + 1 ensures s[j].attrs.name != name {
              if j > 0 { assert s[j] == s[1..][j - 1]; }
            }
          }
        }
      }
      r
  }

  /** `findAllByCountry`: exactly the documents whose country equals `country`, in storage order. */
  function FindAllByCountry(s: seq<Restaurant>, country: string): (r: seq<Restaurant>)
    ensures forall x :: x in r <==> x in s && x.attrs.country == country
  {
    Select(s, CountryIs(country))
  }

  /** `countByCountry`: counted separately, and equal to the size of `findAllByCountry`. */
  function CountByCountry(s: seq<Restaurant>, country: string): (n: nat)
    ensures n == |FindAllByCountry(s, country)|
  {
    CountIsSelectLength(s, CountryIs(country));
    Count(s, CountryIs(country))
  }
}
