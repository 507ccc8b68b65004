/**
 The agency's catalog: the bookings in insertion order. Ownership through
 `unique_ptr` has no counterpart in a value model.
 */
module Catalog {
  import opened Bookings

  type Catalog = seq<Booking>

  /** No two bookings of the catalog share an id. */
  predicate DistinctIds(c: Catalog)
  {
    forall i, j | 0 <= i < j < |c| :: c[i].id != c[j].id
  }

  /** `clear`: the empty catalog. */
  function Clear(): (c: Catalog)
    ensures |c| == 0
  {
    []
  }

  /** `addBooking`: appends at the end and keeps everything already there. */
  function AddBooking(c: Catalog, b: Booking): (r: Catalog)
    ensures |r| == |c| + 1 && r[..|c|] == c && r[|c|] == b
  {
    c + [b]
  }

  /** `existsId`: the linear scan over the bookings, front to back. */
  function ExistsId(c: Catalog, id: string): (r: bool)
    ensures r <==> exists k | 0 <= k < |c| :: c[k].id == id
  {
    if c == [] then false
    else if c[0].id == id then true
    else ExistsId(c[1..], id)
  }

  lemma ExistsIdInCleared(id: string)
    ensures !ExistsId(Clear(), id)
  {
  }

  /** After an append, an id is known exactly when it was known before or is the new one's. */
  lemma ExistsIdAfterAdd(c: Catalog, b: Booking, id: string)
    ensures ExistsId(AddBooking(c, b), id) <==> ExistsId(c, id) || b.id == id
  {
    var r := AddBooking(c, b);
    if ExistsId(c, id) {
      var k :| 0 <= k < |c| && c[k].id == id;
      assert r[k] == c[k];
    }
  }

  /** Appending only bookings whose id is new keeps the ids pairwise distinct. */
  lemma AddKeepsDistinct(c: Catalog, b: Booking)
    requires DistinctIds(c)
    requires !ExistsId(c, b.id)
    ensures DistinctIds(AddBooking(c, b))
  {
  }
}
