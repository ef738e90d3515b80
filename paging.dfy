/**
 * The paginator shared by `findAllPaging`, `findAllByCountryPaging`,
 * `findAllByCuisinePaging` and `findAllByQuery`: count the matching
 * documents, derive the last page and the display offset, and fetch the
 * page as sort by id, skip, limit.
 */
module Paging {
  import opened Optional
  import opened Records
  import opened Filters
  import opened Ordering
  import opened Text

  /** `{ restaurants, lastPage, len, offset }` as the paging operations return it. */
  datatype PageResult = PageResult(restaurants: seq<Restaurant>, lastPage: nat, len: nat, offset: int)

  function Min(a: int, b: int): int {
    if a <= b then a else b
  }

  /** `Math.ceil(n / d)` for a non-negative count and a positive page size. */
  function CeilDiv(n: nat, d: nat): (q: nat)
    requires d >= 1
    ensures n <= q * d
    ensures q == 0 || (q - 1) * d < n
  {
    (n + d - 1) / d
  }

  /** The number of documents skipped before page `page`: `(page - 1) * pageSize`. */
  function Skipped(page: nat, pageSize: nat): nat
    requires page >= 1
  {
    (page - 1) * pageSize
  }

  /** `w` lists consecutive elements of `t`, starting at index `skip`. */
  ghost predicate SliceFrom(t: seq<Restaurant>, skip: nat, w: seq<Restaurant>) {
    forall k :: 0 <= k < |w| ==> skip + k < |t| && w[k] == t[skip + k]
  }

  /** `.skip(skip).limit(limit)` applied to an ordered result. */
  function Window(t: seq<Restaurant>, skip: nat, limit: nat): (w: seq<Restaurant>)
    ensures |w| == if skip >= |t| then 0 else Min(limit, |t| - skip)
    ensures SliceFrom(t, skip, w)
  {
    if skip >= |t| then [] else t[skip..Min(skip + limit, |t|)]
  }

  /** The last page is empty exactly when there is nothing to page. */
  lemma LastPageZeroIffEmpty(n: nat, d: nat)
    requires d >= 1
    ensures CeilDiv(n, d) == 0 <==> n == 0
  {
  }

  /** `a <= b` implies `a * d <= b * d` for a non-negative `d`. */
  lemma MulMonotone(a: int, b: int, d: nat)
    requires a <= b
    ensures a * d <= b * d
  {
    assert b * d - a * d == (b - a) * d;
  }

  /**
   * Page `page` starts past the last matching document exactly when it lies
   * beyond the last page, and then its offset exceeds the count.
   */
  lemma {:induction false} BeyondLastPage(n: nat, page: nat, d: nat)
    requires page >= 1 && d >= 1
    ensures (page - 1) * d >= n <==> page > CeilDiv(n, d)
    ensures page > CeilDiv(n, d) ==> (page - 1) * d + 1 > n
  {
    var q := CeilDiv(n, d);
    if page > q {
      MulMonotone(q, page - 1, d);
    } else {
      MulMonotone(page - 1, q - 1, d);
    }
  }

  /**
   * One page of the documents satisfying `f`: the matching documents sorted
   * by id, `(page - 1) * pageSize` of them skipped, at most `pageSize` kept;
   * with the count of matching documents, the last page and the 1-based
   * offset of the page's first document. The lemmas below state the rest of
   * its contract.
   */
  function Paginate(table: seq<Restaurant>, f: Filter, page: nat, pageSize: nat): (r: PageResult)
    requires page >= 1 && pageSize >= 1
    ensures |r.restaurants| <= pageSize
    ensures forall x :: x in r.restaurants ==> x in table && Matches(x, f)
  {
    var sorted := SortById(Select(table, f));
    var len := Count(table, f);
    var w := Window(sorted, Skipped(page, pageSize), pageSize);
    PageMembers(table, f, sorted, Skipped(page, pageSize), w);
    PageResult(w, CeilDiv(len, pageSize), len, (page - 1) * pageSize + 1)
  }

  /** `len` counts the matching documents with the same filter the fetch uses. */
  lemma PageCount(table: seq<Restaurant>, f: Filter, page: nat, pageSize: nat)
    requires page >= 1 && pageSize >= 1
    ensures Paginate(table, f, page, pageSize).len == |Select(table, f)|
  {
    CountIsSelectLength(table, f);
  }

  /**
   * `lastPage` is `ceil(len / pageSize)`: the least number of pages that
   * holds all `len` matching documents; it is 0 exactly when nothing matches.
   */
  lemma LastPageIsCeiling(table: seq<Restaurant>, f: Filter, page: nat, pageSize: nat)
    requires page >= 1 && pageSize >= 1
    ensures var r := Paginate(table, f, page, pageSize);
      && r.len <= r.lastPage * pageSize
      && (r.lastPage == 0 || (r.lastPage - 1) * pageSize < r.len)
      && (r.lastPage == 0 <==> r.len == 0)
  {
    var r := Paginate(table, f, page, pageSize);
    assert r.lastPage == CeilDiv(r.len, pageSize);
    LastPageZeroIffEmpty(r.len, pageSize);
  }

  /**
   * `offset` is `(page - 1) * pageSize + 1` whatever the number of matching
   * documents, so on a page beyond the last one it exceeds `len`.
   */
  lemma PageOffset(table: seq<Restaurant>, f: Filter, page: nat, pageSize: nat)
    requires page >= 1 && pageSize >= 1
    ensures var r := Paginate(table, f, page, pageSize);
      && r.offset == (page - 1) * pageSize + 1
      && (page > r.lastPage ==> r.offset > r.len)
  {
    var r := Paginate(table, f, page, pageSize);
    BeyondLastPage(r.len, page, pageSize);
  }

  /**
   * A page holds `pageSize` documents, or what remains after the skipped
   * ones when fewer remain.
   */
  lemma PageLength(table: seq<Restaurant>, f: Filter, page: nat, pageSize: nat)
    requires page >= 1 && pageSize >= 1
    ensures var r := Paginate(table, f, page, pageSize);
      |r.restaurants| == if (page - 1) * pageSize >= r.len then 0 else Min(pageSize, r.len - (page - 1) * pageSize)
  {
    var r := Paginate(table, f, page, pageSize);
    var sorted := SortById(Select(table, f));
    CountIsSelectLength(table, f);
    assert |sorted| == r.len;
    assert r.restaurants == Window(sorted, Skipped(page, pageSize), pageSize);
  }

  /** A page is empty exactly when it lies beyond the last page. */
  lemma EmptyPageIffBeyondLast(table: seq<Restaurant>, f: Filter, page: nat, pageSize: nat)
    requires page >= 1 && pageSize >= 1
    ensures var r := Paginate(table, f, page, pageSize);
      r.restaurants == [] <==> page > r.lastPage
  {
    var r := Paginate(table, f, page, pageSize);
    var sorted := SortById(Select(table, f));
    CountIsSelectLength(table, f);
    assert |sorted| == r.len;
    assert r.restaurants == Window(sorted, Skipped(page, pageSize), pageSize);
    BeyondLastPage(r.len, page, pageSize);
  }

  /**
   * With distinct ids (the store's key invariant) a page lists documents in
   * strictly ascending id order, and its `k`-th document is the one preceded
   * by exactly `(page - 1) * pageSize + k` matching documents of smaller id.
   * With `PageLength` this determines the page completely.
   */
  lemma PageContents(table: seq<Restaurant>, f: Filter, page: nat, pageSize: nat)
    requires page >= 1 && pageSize >= 1
    requires Distinct(table)
    ensures var r := Paginate(table, f, page, pageSize);
      && Ascending(r.restaurants)
      && forall k :: 0 <= k < |r.restaurants| ==>
           CountBefore(table, f, r.restaurants[k].id) == Skipped(page, pageSize) + k
  {
    var r := Paginate(table, f, page, pageSize);
    var sorted := SortById(Select(table, f));
    var skip := Skipped(page, pageSize);
    assert r.restaurants == Window(sorted, skip, pageSize);
    SortedSelection(table, f);
    PageOrder(table, f, sorted, skip, r.restaurants);
  }

  /** Every document on a page comes from the table and satisfies the filter. */
  lemma PageMembers(table: seq<Restaurant>, f: Filter, sorted: seq<Restaurant>, skip: nat, w: seq<Restaurant>)
    requires sorted == SortById(Select(table, f))
    requires SliceFrom(sorted, skip, w)
    ensures forall x :: x in w ==> x in table && Matches(x, f)
  {
    forall x | x in w ensures x in table && Matches(x, f) {
      var k :| 0 <= k < |w| && w[k] == x;
      assert sorted[skip + k] in multiset(Select(table, f));
    }
  }

  /** A window of the rank-ordered selection is ascending and its documents have consecutive ranks from `skip`. */
  lemma PageOrder(table: seq<Restaurant>, f: Filter, sorted: seq<Restaurant>, skip: nat, w: seq<Restaurant>)
    requires Ascending(sorted)
    requires forall j :: 0 <= j < |sorted| ==> CountBefore(table, f, sorted[j].id) == j
    requires SliceFrom(sorted, skip, w)
    ensures Ascending(w)
    ensures forall k :: 0 <= k < |w| ==> CountBefore(table, f, w[k].id) == skip + k
  {
    WindowAscending(sorted, skip, w);
    WindowRanks(table, f, sorted, skip, w);
  }

  /** With distinct ids the sorted selection is ascending and its `j`-th document has rank `j`. */
  lemma SortedSelection(table: seq<Restaurant>, f: Filter)
    requires Distinct(table)
    ensures Ascending(SortById(Select(table, f)))
    ensures forall j :: 0 <= j < |SortById(Select(table, f))| ==>
              CountBefore(table, f, SortById(Select(table, f))[j].id) == j
  {
    SortAscending(Select(table, f));
    forall j | 0 <= j < |SortById(Select(table, f))|
      ensures CountBefore(table, f, SortById(Select(table, f))[j].id) == j
    {
      SortedRank(table, f, j);
    }
  }

  /** A window starting at `skip` of a rank-ordered sequence has ranks `skip`, `skip + 1`, ... */
  lemma WindowRanks(table: seq<Restaurant>, f: Filter, sorted: seq<Restaurant>, skip: nat, w: seq<Restaurant>)
    requires forall j :: 0 <= j < |sorted| ==> CountBefore(table, f, sorted[j].id) == j
    requires SliceFrom(sorted, skip, w)
    ensures forall k :: 0 <= k < |w| ==> CountBefore(table, f, w[k].id) == skip + k
  {
  }

  /** A window of an ascending sequence is ascending. */
  lemma WindowAscending(sorted: seq<Restaurant>, skip: nat, w: seq<Restaurant>)
    requires Ascending(sorted)
    requires SliceFrom(sorted, skip, w)
    ensures Ascending(w)
  {
  }

  /** The document at index `j` of the sorted selection has exactly `j` matching documents below it. */
  lemma SortedRank(table: seq<Restaurant>, f: Filter, j: nat)
    requires Distinct(table)
    requires j < |SortById(Select(table, f))|
    ensures CountBefore(table, f, SortById(Select(table, f))[j].id) == j
  {
    var matching := Select(table, f);
    var sorted := SortById(matching);
    var bound := sorted[j].id;
    SortAscending(matching);
    CountBeforeIsBelowInSelection(table, f, bound);
    CountBelowSort(matching, bound);
    RankInAscending(sorted, j);
  }

  /** Counting matching documents below an id is counting below it among the selection. */
  lemma {:induction false} CountBeforeIsBelowInSelection(s: seq<Restaurant>, f: Filter, bound: nat)
    ensures CountBefore(s, f, bound) == CountBelow(Select(s, f), bound)
  {
    if s != [] {
      CountBeforeIsBelowInSelection(s[1..], f, bound);
    }
  }

  /** `findAllPaging`: pages over the whole collection. */
  function FindAllPaging(table: seq<Restaurant>, page: nat, pageSize: nat): (r: PageResult)
    requires page >= 1 && pageSize >= 1
    ensures r.len == |table|
    ensures forall x :: x in r.restaurants ==> x in table
  {
    CountEverything(table);
    Paginate(table, Everything, page, pageSize)
  }

  /** `findAllByCountryPaging`: pages over the documents whose country is exactly `country`. */
  function FindAllByCountryPaging(table: seq<Restaurant>, page: nat, pageSize: nat, country: string): (r: PageResult)
    requires page >= 1 && pageSize >= 1
    ensures r.len == CountByCountry(table, country)
    ensures forall x :: x in r.restaurants ==> x in table && x.attrs.country == country
  {
    Paginate(table, CountryIs(country), page, pageSize)
  }

  /** `findAllByCuisinePaging`: pages over the documents whose cuisine is exactly `cuisine`. */
  function FindAllByCuisinePaging(table: seq<Restaurant>, page: nat, pageSize: nat, cuisine: string): (r: PageResult)
    requires page >= 1 && pageSize >= 1
    ensures r.len == |Select(table, CuisineIs(cuisine))|
    ensures forall x :: x in r.restaurants ==> x in table && x.attrs.cuisine == cuisine
  {
    CountIsSelectLength(table, CuisineIs(cuisine));
    Paginate(table, CuisineIs(cuisine), page, pageSize)
  }

  /** The arguments of `findAllByQuery` as the caller passes them; any of them may be omitted. */
  datatype QueryArgs = QueryArgs(
    name: Option<string>,
    address: Option<string>,
    location: Option<string>,
    minPrice: Option<int>,
    maxPrice: Option<int>,
    cuisine: Option<string>,
    award: Option<string>,
    country: Option<string>)

  /** Every argument omitted. */
  const NoArgs := QueryArgs(None, None, None, None, None, None, None, None)

  /** The query after defaulting: empty patterns and the price range `0 .. MAX_SAFE_INTEGER`. */
  function WithDefaults(a: QueryArgs): (q: Query)
    ensures q.name == a.name.GetOr("") && q.address == a.address.GetOr("")
    ensures q.location == a.location.GetOr("") && q.cuisine == a.cuisine.GetOr("")
    ensures q.award == a.award.GetOr("") && q.country == a.country.GetOr("")
    ensures q.minPrice == a.minPrice.GetOr(0)
    ensures q.maxPrice == a.maxPrice.GetOr(MaxSafeInteger)
  {
    Query(
      a.name.GetOr(""), a.address.GetOr(""), a.location.GetOr(""),
      a.minPrice.GetOr(0), a.maxPrice.GetOr(MaxSafeInteger),
      a.cuisine.GetOr(""), a.award.GetOr(""), a.country.GetOr(""))
  }

  /** `findAllByQuery`: pages over the documents satisfying every condition of the composite query. */
  function FindAllByQuery(table: seq<Restaurant>, page: nat, pageSize: nat, args: QueryArgs): (r: PageResult)
    requires page >= 1 && pageSize >= 1
    ensures r.len == |Select(table, Composite(WithDefaults(args)))|
    ensures forall x :: x in r.restaurants ==> x in table && QueryMatches(x, WithDefaults(args))
  {
    CountIsSelectLength(table, Composite(WithDefaults(args)));
    Paginate(table, Composite(WithDefaults(args)), page, pageSize)
  }

  /**
   * A document passes the query with every argument omitted exactly when its
   * prices lie within `0 .. MAX_SAFE_INTEGER`: the default bounds are still
   * range conditions.
   */
  lemma DefaultQueryMatches(x: Restaurant)
    ensures QueryMatches(x, WithDefaults(NoArgs)) <==>
              0 <= x.attrs.minPrice && x.attrs.maxPrice <= MaxSafeInteger
  {
    EmptyPatternMatchesAll(x.attrs.name);
    EmptyPatternMatchesAll(x.attrs.address);
    EmptyPatternMatchesAll(x.attrs.location);
    EmptyPatternMatchesAll(x.attrs.cuisine);
    EmptyPatternMatchesAll(x.attrs.award);
    EmptyPatternMatchesAll(x.attrs.country);
  }

  /** Every document has prices within `0 .. MAX_SAFE_INTEGER`. */
  ghost predicate PricesInSafeRange(table: seq<Restaurant>) {
    forall x :: x in table ==> 0 <= x.attrs.minPrice && x.attrs.maxPrice <= MaxSafeInteger
  }

  /** With every argument omitted the composite query selects the whole collection. */
  lemma {:induction false} DefaultQuerySelectsAll(table: seq<Restaurant>)
    requires PricesInSafeRange(table)
    ensures Select(table, Composite(WithDefaults(NoArgs))) == table
  {
    forall x | x in table ensures Matches(x, Composite(WithDefaults(NoArgs))) {
      DefaultQueryMatches(x);
    }
    SelectAllMatching(table, Composite(WithDefaults(NoArgs)));
  }

  /** With every argument omitted `findAllByQuery` returns what `findAllPaging` returns. */
  lemma DefaultQueryIsFindAll(table: seq<Restaurant>, page: nat, pageSize: nat)
    requires page >= 1 && pageSize >= 1
    requires PricesInSafeRange(table)
    ensures FindAllByQuery(table, page, pageSize, NoArgs) == FindAllPaging(table, page, pageSize)
  {
    var f := Composite(WithDefaults(NoArgs));
    DefaultQuerySelectsAll(table);
    SelectEverything(table);
    CountIsSelectLength(table, f);
    CountEverything(table);
  }

  /** Prices are range filters: 20..50 lies inside 10..60 but not above a minimum of 25. */
  lemma PriceRangeExample(x: Restaurant)
    requires x.attrs.minPrice == 20 && x.attrs.maxPrice == 50
    ensures QueryMatches(x, WithDefaults(NoArgs.(minPrice := Some(10), maxPrice := Some(60))))
    ensures !QueryMatches(x, WithDefaults(NoArgs.(minPrice := Some(25))))
  {
    EmptyPatternMatchesAll(x.attrs.name);
    EmptyPatternMatchesAll(x.attrs.address);
    EmptyPatternMatchesAll(x.attrs.location);
    EmptyPatternMatchesAll(x.attrs.cuisine);
    EmptyPatternMatchesAll(x.attrs.award);
    EmptyPatternMatchesAll(x.attrs.country);
  }

  /** A document with a negative minimum price is dropped even when every argument is omitted. */
  lemma DefaultQueryDropsNegativePrice(x: Restaurant)
    requires x.attrs.minPrice < 0
    ensures Select([x], Composite(WithDefaults(NoArgs))) == []
    ensures FindAllByQuery([x], 1, 1, NoArgs).len == 0
  {
    DefaultQueryMatches(x);
    CountIsSelectLength([x], Composite(WithDefaults(NoArgs)));
  }
}
