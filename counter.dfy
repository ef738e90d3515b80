/**
 * What the counter updates and the listing backfill do to the whole table:
 * `$inc` on one document (`bookmark`, `unbookmark`), `$inc` over `$in`
 * (`unbookmarkByList`) and `$set` where the field is missing (`findAll`).
 * The store methods are proved to leave the table equal to these functions.
 */
module Counter {
  import opened Optional
  import opened Records

  /**
   * The table after `findOneAndUpdate({ _id: id }, { $inc: { bookmarkCount: delta } })`:
   * the document with that id has its counter moved by `delta`; every other
   * document, and every other field, is unchanged.
   */
  function Incremented(s: seq<Restaurant>, id: nat, delta: int): (r: seq<Restaurant>)
    ensures |r| == |s|
    ensures forall i :: 0 <= i < |s| ==> r[i].id == s[i].id && r[i].attrs == s[i].attrs
    ensures forall i :: 0 <= i < |s| && s[i].id != id ==> r[i] == s[i]
    ensures forall i :: 0 <= i < |s| && s[i].id == id ==>
              r[i].bookmarkCount.Some? && CountOf(r[i].bookmarkCount) == CountOf(s[i].bookmarkCount) + delta
  {
    seq(|s|, i requires 0 <= i < |s| => if s[i].id == id then Bump(s[i], delta) else s[i])
  }

  /** Updating an id the table does not hold changes nothing. */
  lemma UnknownIdUnchanged(s: seq<Restaurant>, id: nat, delta: int)
    requires !HasId(s, id)
    ensures Incremented(s, id, delta) == s
  {
    var r := Incremented(s, id, delta);
    forall i | 0 <= i < |s| ensures r[i] == s[i] {
      assert s[i] in s;
    }
  }

  /**
   * `bookmark` followed by `unbookmark` on the same id restores every
   * counter's value, and restores the table itself when the document already
   * had a counter.
   */
  lemma BookmarkThenUnbookmark(s: seq<Restaurant>, id: nat)
    ensures var r := Incremented(Incremented(s, id, 1), id, -1);
      && |r| == |s|
      && (forall i :: 0 <= i < |s| ==>
            r[i].id == s[i].id && r[i].attrs == s[i].attrs &&
            CountOf(r[i].bookmarkCount) == CountOf(s[i].bookmarkCount))
      && ((forall x :: x in s && x.id == id ==> x.bookmarkCount.Some?) ==> r == s)
  {
    var r := Incremented(Incremented(s, id, 1), id, -1);
    if forall x :: x in s && x.id == id ==> x.bookmarkCount.Some? {
      forall i | 0 <= i < |s| ensures r[i] == s[i] {
        if s[i].id == id {
          assert s[i] in s;
        }
      }
    }
  }

  /** `unbookmark` has no floor: a counter at 0 goes to -1. */
  lemma UnbookmarkBelowZero(x: Restaurant)
    requires CountOf(x.bookmarkCount) == 0
    ensures Incremented([x], x.id, -1)[0].bookmarkCount == Some(-1)
  {
  }

  /**
   * The table after `updateMany({ _id: { $in: ids } }, { $inc: { bookmarkCount: -1 } })`:
   * each document whose id is listed loses exactly one bookmark, however
   * often its id is listed; every other document is unchanged.
   */
  function DecrementListed(s: seq<Restaurant>, ids: seq<nat>): (r: seq<Restaurant>)
    ensures |r| == |s|
    ensures forall i :: 0 <= i < |s| ==> r[i].id == s[i].id && r[i].attrs == s[i].attrs
    ensures forall i :: 0 <= i < |s| && s[i].id !in ids ==> r[i] == s[i]
    ensures forall i :: 0 <= i < |s| && s[i].id in ids ==>
              r[i].bookmarkCount.Some? && CountOf(r[i].bookmarkCount) == CountOf(s[i].bookmarkCount) - 1
  {
    seq(|s|, i requires 0 <= i < |s| => if s[i].id in ids then Bump(s[i], -1) else s[i])
  }

  /** One `unbookmark` per listed id, in list order. */
  function UnbookmarkEach(s: seq<Restaurant>, ids: seq<nat>): (r: seq<Restaurant>)
    ensures |r| == |s|
    ensures forall i :: 0 <= i < |s| ==> r[i].id == s[i].id && r[i].attrs == s[i].attrs
    decreases |ids|
  {
    if ids == [] then s else UnbookmarkEach(Incremented(s, ids[0], -1), ids[1..])
  }

  predicate NoRepeats(ids: seq<nat>) {
    forall i, j :: 0 <= i < j < |ids| ==> ids[i] != ids[j]
  }

  /**
   * The bulk update is the same as unbookmarking each listed id once, when
   * no id is listed twice.
   */
  lemma {:induction false} BulkIsEachOnce(s: seq<Restaurant>, ids: seq<nat>)
    requires NoRepeats(ids)
    ensures DecrementListed(s, ids) == UnbookmarkEach(s, ids)
    decreases |ids|
  {
    if ids == [] {
      assert DecrementListed(s, ids) == s;
    } else {
      var a, rest := ids[0], ids[1..];
      var s' := Incremented(s, a, -1);
      assert NoRepeats(rest);
      BulkIsEachOnce(s', rest);
      assert a !in rest by {
        forall j | 0 <= j < |rest| ensures rest[j] != a {
          assert rest[j] == ids[j + 1];
        }
      }
      var lhs, rhs := DecrementListed(s, ids), DecrementListed(s', rest);
      forall i | 0 <= i < |s| ensures lhs[i] == rhs[i] {
        assert s[i].id in ids <==> s[i].id == a || s[i].id in rest;
      }
    }
  }

  /** Listing an id a second time decrements it no further (`$in` is set membership). */
  lemma RepeatedIdOnce(s: seq<Restaurant>, ids: seq<nat>, a: nat)
    requires a in ids
    ensures DecrementListed(s, ids + [a]) == DecrementListed(s, ids)
  {
    var l, r := DecrementListed(s, ids + [a]), DecrementListed(s, ids);
    forall i | 0 <= i < |s| ensures l[i] == r[i] {
      assert s[i].id in ids + [a] <==> s[i].id in ids;
    }
  }

  /** Unlike the bulk update, unbookmarking an id twice takes two bookmarks off. */
  lemma EachTwiceTakesTwo(x: Restaurant)
    ensures CountOf(UnbookmarkEach([x], [x.id, x.id])[0].bookmarkCount) == CountOf(x.bookmarkCount) - 2
    ensures CountOf(DecrementListed([x], [x.id, x.id])[0].bookmarkCount) == CountOf(x.bookmarkCount) - 1
  {
    var once := Incremented([x], x.id, -1);
    assert [x.id, x.id][1..] == [x.id];
    assert UnbookmarkEach([x], [x.id, x.id]) == UnbookmarkEach(once, [x.id]);
    assert [x.id][1..] == [];
  }

  /**
   * The `findAll` backfill: every document without a counter gets
   * `bookmarkCount: 0`; documents with one are left exactly as they are.
   */
  function Backfill(s: seq<Restaurant>): (r: seq<Restaurant>)
    ensures |r| == |s|
    ensures forall i :: 0 <= i < |s| ==> r[i].id == s[i].id && r[i].attrs == s[i].attrs
    ensures forall i :: 0 <= i < |s| ==> r[i].bookmarkCount.Some?
    ensures forall i :: 0 <= i < |s| ==> CountOf(r[i].bookmarkCount) == CountOf(s[i].bookmarkCount)
    ensures forall i :: 0 <= i < |s| && s[i].bookmarkCount.Some? ==> r[i] == s[i]
  {
    seq(|s|, i requires 0 <= i < |s| => Filled(s[i]))
  }

  /** `$set: { bookmarkCount: 0 }` on a document matching `{ bookmarkCount: { $exists: false } }`. */
  function Filled(x: Restaurant): Restaurant {
    if x.bookmarkCount.None? then x.(bookmarkCount := Some(0)) else x
  }

  /** Running the backfill a second time changes nothing. */
  lemma BackfillIdempotent(s: seq<Restaurant>)
    ensures Backfill(Backfill(s)) == Backfill(s)
  {
  }
}
