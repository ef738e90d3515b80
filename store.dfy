/**
 * The restaurant collection as the data-access class sees it: the stored
 * documents in storage order, and the operations that change them in place
 * (`create`, `findAll` with its backfill, `bookmark`, `unbookmark`,
 * `unbookmarkByList`). The read-only lookups and the paginator are the
 * functions of `Filters` and `Paging`, applied to `rows`.
 */
module Store {
  import opened Optional
  import opened Records
  import opened Filters
  import opened Counter

  /** An id above every id in `s`: the identity the store assigns to a new document. */
  function FreshId(s: seq<Restaurant>): (n: nat)
    ensures forall x :: x in s ==> x.id < n
  {
    if s == [] then 0
    else
      var rest := FreshId(s[1..]);
      assert forall x :: x in s ==> x == s[0] || x in s[1..];
      if s[0].id < rest then rest else s[0].id + 1
  }

  /** A table whose documents keep their ids position by position keeps them distinct and findable. */
  lemma IdsKept(s: seq<Restaurant>, r: seq<Restaurant>)
    requires |r| == |s| && forall i :: 0 <= i < |s| ==> r[i].id == s[i].id
    ensures Distinct(s) ==> Distinct(r)
    ensures forall id :: HasId(s, id) <==> HasId(r, id)
  {
    forall id ensures HasId(s, id) <==> HasId(r, id) {
      if HasId(s, id) {
        var x :| x in s && x.id == id;
        var k :| 0 <= k < |s| && s[k] == x;
        assert r[k] in r;
      }
      if HasId(r, id) {
        var x :| x in r && x.id == id;
        var k :| 0 <= k < |r| && r[k] == x;
        assert s[k] in s;
      }
    }
  }

  class Collection {
    /** The stored documents, in storage order. */
    var rows: seq<Restaurant>

    /** The store keeps identities unique. */
    ghost predicate Valid()
      reads this
    {
      Distinct(rows)
    }

    constructor (initial: seq<Restaurant>)
      requires Distinct(initial)
      ensures Valid() && rows == initial
    {
      rows := initial;
    }

    /**
     * `create`: stores a new document with the given attributes under an id
     * no stored document has, and returns it. The counter is left absent.
     */
    method Create(attrs: Attributes) returns (created: Restaurant)
      requires Valid()
      modifies this
      ensures Valid()
      ensures created.attrs == attrs && created.bookmarkCount == None
      ensures !HasId(old(rows), created.id)
      ensures rows == old(rows) + [created]
      ensures FindById(rows, created.id) == Some(created)
      ensures forall id :: id != created.id ==> FindById(rows, id) == FindById(old(rows), id)
    {
      created := Restaurant(FreshId(rows), attrs, None);
      ghost var was := rows;
      rows := rows + [created];
      forall id ensures FindById(rows, id) == if HasId(was, id) then FindById(was, id)
                                              else if created.id == id then Some(created) else None {
        FindByIdAfterAppend(was, created, id);
      }
    }

    /**
     * `bookmark`: one more bookmark on the document with identity `id`; the
     * document as it is after the update, or nothing when no document has
     * that id (the table is then unchanged).
     */
    method Bookmark(id: nat) returns (updated: Option<Restaurant>)
      requires Valid()
      modifies this
      ensures Valid()
      ensures rows == Incremented(old(rows), id, 1)
      ensures updated.None? <==> !HasId(old(rows), id)
      ensures updated.Some? ==> updated.value in rows && updated.value.id == id &&
                                CountOf(updated.value.bookmarkCount) ==
                                CountOf(FindById(old(rows), id).value.bookmarkCount) + 1
    {
      updated := IncrementOne(id, 1);
    }

    /**
     * `unbookmark`: one bookmark fewer on the document with identity `id`,
     * with no floor at 0; the updated document, or nothing for an unknown id.
     */
    method Unbookmark(id: nat) returns (updated: Option<Restaurant>)
      requires Valid()
      modifies this
      ensures Valid()
      ensures rows == Incremented(old(rows), id, -1)
      ensures updated.None? <==> !HasId(old(rows), id)
      ensures updated.Some? ==> updated.value in rows && updated.value.id == id &&
                                CountOf(updated.value.bookmarkCount) ==
                                CountOf(FindById(old(rows), id).value.bookmarkCount) - 1
    {
      updated := IncrementOne(id, -1);
    }

    /** `findOneAndUpdate` with `$inc` and `returnOriginal: false`, shared by the two above. */
    method IncrementOne(id: nat, delta: int) returns (updated: Option<Restaurant>)
      requires Valid()
      modifies this
      ensures Valid()
      ensures rows == Incremented(old(rows), id, delta)
      ensures updated.None? <==> !HasId(old(rows), id)
      ensures updated.Some? ==> updated.value in rows && updated.value.id == id &&
                                CountOf(updated.value.bookmarkCount) ==
                                CountOf(FindById(old(rows), id).value.bookmarkCount) + delta
    {
      ghost var was := rows;
      rows := Incremented(rows, id, delta);
      IdsKept(was, rows);
      updated := FindById(rows, id);
      if HasId(was, id) {
        ghost var before := FindById(was, id).value;
        ghost var k :| 0 <= k < |was| && was[k] == before;
        FindByIdIsTheRecord(rows, rows[k]);
      }
    }

    /**
     * `unbookmarkByList`: one bookmark fewer on every document whose id is in
     * `bookmarkList`, once each however often the id is listed; all other
     * documents untouched. Answers `{ status: "ok" }`.
     */
    method UnbookmarkByList(bookmarkList: seq<nat>) returns (status: string)
      requires Valid()
      modifies this
      ensures Valid()
      ensures rows == DecrementListed(old(rows), bookmarkList)
      ensures status == "ok"
    {
      ghost var target := DecrementListed(rows, bookmarkList);
      var i := 0;
      while i < |rows|
        invariant 0 <= i <= |rows| == |old(rows)|
        invariant forall j :: 0 <= j < i ==> rows[j] == target[j]
        invariant forall j :: i <= j < |rows| ==> rows[j] == old(rows)[j]
      {
        if rows[i].id in bookmarkList {
          rows := rows[i := Bump(rows[i], -1)];
        }
        i := i + 1;
      }
      IdsKept(old(rows), rows);
      status := "ok";
    }

    /**
     * `findAll`: first gives every document without a counter
     * `bookmarkCount: 0`, then lists every document.
     */
    method FindAll() returns (all: seq<Restaurant>)
      requires Valid()
      modifies this
      ensures Valid()
      ensures rows == Backfill(old(rows))
      ensures all == rows
    {
      ghost var target := Backfill(rows);
      var i := 0;
      while i < |rows|
        invariant 0 <= i <= |rows| == |old(rows)|
        invariant forall j :: 0 <= j < i ==> rows[j] == target[j]
        invariant forall j :: i <= j < |rows| ==> rows[j] == old(rows)[j]
      {
        if rows[i].bookmarkCount.None? {
          rows := rows[i := rows[i].(bookmarkCount := Some(0))];
        }
        i := i + 1;
      }
      IdsKept(old(rows), rows);
      all := rows;
    }
  }
}
