/**
 * `sort({ _id: 1 })`: the documents in ascending order of identity, and the
 * rank of a document in that order.
 */
module Ordering {
  import opened Records

  /** Ids strictly increase along `s`. */
  ghost predicate Ascending(s: seq<Restaurant>) {
    forall i, j :: 0 <= i < j < |s| ==> s[i].id < s[j].id
  }

  /** The number of documents of `s` whose id is below `bound`. */
  function CountBelow(s: seq<Restaurant>, bound: nat): (n: nat)
    ensures n <= |s|
  {
    if s == [] then 0
    else (if s[0].id < bound then 1 else 0) + CountBelow(s[1..], bound)
  }

  /** `x` placed into `t` in front of the first document whose id is not smaller. */
  function InsertById(t: seq<Restaurant>, x: Restaurant): (r: seq<Restaurant>)
    ensures |r| == |t| + 1
    ensures multiset(r) == multiset(t) + multiset{x}
  {
    if t == [] then [x]
    else if x.id <= t[0].id then [x] + t
    else
      assert t == [t[0]] + t[1..];
      [t[0]] + InsertById(t[1..], x)
  }

  /** Insertion sort by identity: a permutation of `s`. */
  function SortById(s: seq<Restaurant>): (r: seq<Restaurant>)
    ensures |r| == |s|
    ensures multiset(r) == multiset(s)
  {
    if s == [] then []
    else
      assert s == [s[0]] + s[1..];
      InsertById(SortById(s[1..]), s[0])
  }

  /** A document whose id is below every id of an ascending sequence may go in front of it. */
  lemma AscendingCons(h: Restaurant, t: seq<Restaurant>)
    requires Ascending(t) && forall y :: y in t ==> h.id < y.id
    ensures Ascending([h] + t)
  {
    forall i, j | 0 <= i < j < |[h] + t| ensures ([h] + t)[i].id < ([h] + t)[j].id {
      if i > 0 {
        assert ([h] + t)[i] == t[i - 1];
      }
      assert ([h] + t)[j] == t[j - 1];
    }
  }

  /** Inserting a document with a new id keeps a sequence strictly ascending. */
  lemma {:induction false} InsertAscending(t: seq<Restaurant>, x: Restaurant)
    requires Ascending(t) && forall y :: y in t ==> y.id != x.id
    ensures Ascending(InsertById(t, x))
  {
    if t == [] {
    } else if x.id <= t[0].id {
      AscendingCons(x, t);
    } else {
      var rest := InsertById(t[1..], x);
      InsertAscending(t[1..], x);
      forall y | y in rest ensures t[0].id < y.id {
        assert y in multiset(rest);
        assert y == x || y in t[1..];
      }
      AscendingCons(t[0], rest);
    }
  }

  /** When ids are distinct the sort is strictly ascending by id. */
  lemma {:induction false} SortAscending(s: seq<Restaurant>)
    requires Distinct(s)
    ensures Ascending(SortById(s))
  {
    if s != [] {
      var rest := SortById(s[1..]);
      SortAscending(s[1..]);
      forall y | y in rest ensures y.id != s[0].id {
        assert y in multiset(s[1..]);
      }
      InsertAscending(rest, s[0]);
    }
  }

  lemma {:induction false} CountBelowInsert(t: seq<Restaurant>, x: Restaurant, bound: nat)
    ensures CountBelow(InsertById(t, x), bound) == CountBelow(t, bound) + (if x.id < bound then 1 else 0)
  {
    if t != [] && x.id > t[0].id {
      CountBelowInsert(t[1..], x, bound);
      var r := InsertById(t, x);
      assert r[1..] == InsertById(t[1..], x);
    }
  }

  /** Sorting does not change how many documents lie below an id. */
  lemma {:induction false} CountBelowSort(s: seq<Restaurant>, bound: nat)
    ensures CountBelow(SortById(s), bound) == CountBelow(s, bound)
  {
    if s != [] {
      CountBelowSort(s[1..], bound);
      CountBelowInsert(SortById(s[1..]), s[0], bound);
    }
  }

  /** In a strictly ascending sequence the document at index `k` has exactly `k` documents below it. */
  lemma {:induction false} RankInAscending(t: seq<Restaurant>, k: nat)
    requires Ascending(t) && k < |t|
    ensures CountBelow(t, t[k].id) == k
  {
    BelowSplit(t, k, t[k].id);
  }

  lemma {:induction false} BelowSplit(t: seq<Restaurant>, k: nat, bound: nat)
    requires k <= |t|
    requires forall i :: 0 <= i < k ==> t[i].id < bound
    requires forall i :: k <= i < |t| ==> bound <= t[i].id
    ensures CountBelow(t, bound) == k
  {
    if t != [] {
      BelowSplit(t[1..], if k == 0 then 0 else k - 1, bound);
    }
  }
}
