/**
 * The `appointments` table as values: its rows, the listing query
 * (`booked = false`, ordered by `slot_time`, limited) and the conditional
 * update that books a slot (`booked = true, call_sid = h` where `id = slotId`
 * and `booked = false`).
 */
module Appointments {
  import opened Options

  /** One row of the table; timestamps are integers. */
  datatype Row = Row(id: int, slotTime: int, booked: bool, callSid: Option<string>, createdAt: int)

  /** `id` is the primary key. */
  ghost predicate UniqueIds(rows: seq<Row>) {
    forall i, j :: 0 <= i < j < |rows| ==> rows[i].id != rows[j].id
  }

  predicate SortedBySlotTime(s: seq<Row>) {
    forall i, j :: 0 <= i < j < |s| ==> s[i].slotTime <= s[j].slotTime
  }

  // ---------------------------------------------------------------------
  // Listing: filter, order, limit
  // ---------------------------------------------------------------------

  /** The rows with `booked = false`, in table order, each as often as in the table. */
  function Unbooked(rows: seq<Row>): (r: seq<Row>)
    ensures |r| <= |rows|
    ensures forall x :: x in r <==> x in rows && !x.booked
  {
    if rows == [] then []
    else
      assert rows == [rows[0]] + rows[1..];
      if rows[0].booked then Unbooked(rows[1..]) else [rows[0]] + Unbooked(rows[1..])
  }

  /** Each free row is kept as often as the table holds it, and no booked row is kept. */
  lemma {:induction false} UnbookedCounts(rows: seq<Row>)
    ensures forall x :: multiset(Unbooked(rows))[x] == if x.booked then 0 else multiset(rows)[x]
  {
    if rows != [] {
      assert rows == [rows[0]] + rows[1..];
      UnbookedCounts(rows[1..]);
    }
  }

  /**
   * Puts `x` before the first element that is not earlier than it, so that
   * among equal `slot_time`s the row inserted first stays first.
   */
  function InsertBySlotTime(x: Row, s: seq<Row>): (r: seq<Row>)
    requires SortedBySlotTime(s)
    ensures SortedBySlotTime(r)
    ensures |r| == |s| + 1
    ensures forall k :: 0 <= k < |r| ==> r[k] == x || r[k] in s
    ensures multiset(r) == multiset(s) + multiset{x}
  {
    if s == [] || x.slotTime <= s[0].slotTime then [x] + s
    else
      var rest := InsertBySlotTime(x, s[1..]);
      assert s == [s[0]] + s[1..];
      assert forall k :: 0 <= k < |rest| ==> s[0].slotTime <= rest[k].slotTime;
      [s[0]] + rest
  }

  /**
   * `ORDER BY slot_time`. The database leaves the order of equal times open;
   * the model fixes it to table order, so the listing is a function of the table.
   */
  function SortBySlotTime(s: seq<Row>): (r: seq<Row>)
    ensures SortedBySlotTime(r)
    ensures multiset(r) == multiset(s)
  {
    if s == [] then []
    else
      assert s == [s[0]] + s[1..];
      InsertBySlotTime(s[0], SortBySlotTime(s[1..]))
  }

  /** Every available slot, earliest first (the query behind `/api/slots`). */
  function AllAvailable(rows: seq<Row>): seq<Row> {
    SortBySlotTime(Unbooked(rows))
  }

  /** `get_available_slots(limit)`: the first `limit` available slots. */
  function Listing(rows: seq<Row>, limit: nat): seq<Row> {
    var all := AllAvailable(rows);
    if |all| <= limit then all else all[..limit]
  }

  /** The available slots are the free rows of the table. */
  lemma AvailableRows(rows: seq<Row>)
    ensures forall x :: x in AllAvailable(rows) <==> x in rows && !x.booked
  {
    var all := AllAvailable(rows);
    forall x
      ensures x in all <==> x in rows && !x.booked
    {
      assert x in all <==> x in multiset(all);
      assert x in Unbooked(rows) <==> x in multiset(Unbooked(rows));
    }
  }

  lemma FullListingContract(rows: seq<Row>)
    ensures SortedBySlotTime(AllAvailable(rows))
    ensures forall x :: multiset(AllAvailable(rows))[x] == if x.booked then 0 else multiset(rows)[x]
    ensures forall x :: x in AllAvailable(rows) <==> x in rows && !x.booked
  {
    UnbookedCounts(rows);
    AvailableRows(rows);
  }

  /**
   * The listing holds at most `limit` unbooked rows of the table, earliest
   * first; an available row it leaves out is no earlier than the last one it
   * holds, and when it holds fewer than `limit` rows it leaves none out.
   */
  lemma ListingContract(rows: seq<Row>, limit: nat)
    ensures |Listing(rows, limit)| <= limit
    ensures SortedBySlotTime(Listing(rows, limit))
    ensures forall x :: x in Listing(rows, limit) ==> x in rows && !x.booked
    ensures forall x :: x in rows && !x.booked && x !in Listing(rows, limit) ==>
              |Listing(rows, limit)| == limit &&
              (limit > 0 ==> Listing(rows, limit)[limit - 1].slotTime <= x.slotTime)
  {
    var all := AllAvailable(rows);
    var r := Listing(rows, limit);
    AvailableRows(rows);
    assert r == all[..|r|];
    forall x | x in rows && !x.booked && x !in r
      ensures |r| == limit && (limit > 0 ==> r[limit - 1].slotTime <= x.slotTime)
    {
      var j :| 0 <= j < |all| && all[j] == x;
      assert |r| == limit;
      if limit > 0 {
        assert all[limit - 1] == r[limit - 1];
      }
    }
  }

  /** The limited listing is the front of the full one. */
  lemma ListingIsPrefix(rows: seq<Row>, limit: nat)
    ensures Listing(rows, limit) <= AllAvailable(rows)
    ensures |Listing(rows, limit)| == if |AllAvailable(rows)| <= limit then |AllAvailable(rows)| else limit
  {
  }

  // ---------------------------------------------------------------------
  // Reservation: the conditional update
  // ---------------------------------------------------------------------

  /** Some row has this id and is still free. */
  predicate Bookable(rows: seq<Row>, id: int) {
    exists i :: 0 <= i < |rows| && rows[i].id == id && !rows[i].booked
  }

  /** The update applied to one row. */
  function BookRow(r: Row, id: int, holder: string): Row {
    if r.id == id && !r.booked then r.(booked := true, callSid := Some(holder)) else r
  }

  /** The table after `UPDATE ... SET booked = true, call_sid = holder WHERE id = id AND booked = false`. */
  function Book(rows: seq<Row>, id: int, holder: string): seq<Row> {
    seq(|rows|, i requires 0 <= i < |rows| => BookRow(rows[i], id, holder))
  }

  /** The rows the update reports back (`response.data`), as updated. */
  function UpdatedRows(rows: seq<Row>, id: int, holder: string): seq<Row> {
    if rows == [] then []
    else
      (if rows[0].id == id && !rows[0].booked then [BookRow(rows[0], id, holder)] else [])
      + UpdatedRows(rows[1..], id, holder)
  }

  /** The rows of `after` that differ from the row at the same place in `before`. */
  function ChangedRows(before: seq<Row>, after: seq<Row>): seq<Row>
    requires |before| == |after|
  {
    if before == [] then []
    else (if before[0] != after[0] then [after[0]] else []) + ChangedRows(before[1..], after[1..])
  }

  /** What the update reports is exactly the rows it changed, as they now are, in table order. */
  lemma {:induction false} UpdatedRowsAreChangedRows(rows: seq<Row>, id: int, holder: string)
    ensures UpdatedRows(rows, id, holder) == ChangedRows(rows, Book(rows, id, holder))
  {
    if rows != [] {
      var after := Book(rows, id, holder);
      assert after[1..] == Book(rows[1..], id, holder);
      assert after[0] == BookRow(rows[0], id, holder);
      UpdatedRowsAreChangedRows(rows[1..], id, holder);
    }
  }

  /**
   * The update reports a change exactly when a free row with that id
   * existed, and with a primary key it changes at most one row.
   */
  lemma {:induction false} UpdateReportsChange(rows: seq<Row>, id: int, holder: string)
    ensures |UpdatedRows(rows, id, holder)| > 0 <==> Bookable(rows, id)
    ensures UniqueIds(rows) ==> |UpdatedRows(rows, id, holder)| <= 1
  {
    if rows != [] {
      var tail := rows[1..];
      UpdateReportsChange(tail, id, holder);
      if Bookable(rows, id) && !(rows[0].id == id && !rows[0].booked) {
        var i :| 0 <= i < |rows| && rows[i].id == id && !rows[i].booked;
        assert tail[i - 1].id == id && !tail[i - 1].booked;
      }
      if Bookable(tail, id) {
        var i :| 0 <= i < |tail| && tail[i].id == id && !tail[i].booked;
        assert rows[i + 1] == tail[i];
      }
      if UniqueIds(rows) {
        assert UniqueIds(tail) by {
          forall i, j | 0 <= i < j < |tail| ensures tail[i].id != tail[j].id {
            assert rows[i + 1] == tail[i] && rows[j + 1] == tail[j];
          }
        }
      }
    }
  }

  /**
   * With a primary key, booking a free slot changes that one row to
   * `booked = true, call_sid = holder` and nothing else; booking an absent
   * or taken slot changes nothing. The key stays a key.
   */
  lemma ReservationContract(rows: seq<Row>, id: int, holder: string)
    requires UniqueIds(rows)
    ensures UniqueIds(Book(rows, id, holder))
    ensures !Bookable(rows, id) ==> Book(rows, id, holder) == rows
    ensures Bookable(rows, id) ==>
              exists i :: 0 <= i < |rows| && rows[i].id == id && !rows[i].booked &&
                Book(rows, id, holder) == rows[i := rows[i].(booked := true, callSid := Some(holder))]
  {
    var after := Book(rows, id, holder);
    if Bookable(rows, id) {
      var i :| 0 <= i < |rows| && rows[i].id == id && !rows[i].booked;
      var expected := rows[i := rows[i].(booked := true, callSid := Some(holder))];
      forall k | 0 <= k < |rows| ensures after[k] == expected[k] {
        if k != i {
          assert rows[k].id != id by {
            if k < i { assert rows[k].id != rows[i].id; } else { assert rows[i].id != rows[k].id; }
          }
        }
      }
      assert after == expected;
    } else {
      forall k | 0 <= k < |rows| ensures after[k] == rows[k] {
        assert !(rows[k].id == id && !rows[k].booked);
      }
      assert after == rows;
    }
  }

  /**
   * Once a slot is booked by `first`, booking it again for anyone reports
   * no change, changes nothing and leaves `first` as the holder.
   */
  lemma NoDoubleBooking(rows: seq<Row>, id: int, first: string, second: string)
    requires UniqueIds(rows)
    requires Bookable(rows, id)
    ensures var after := Book(rows, id, first);
            && !Bookable(after, id)
            && |UpdatedRows(after, id, second)| == 0
            && Book(after, id, second) == after
            && forall k :: 0 <= k < |after| && after[k].id == id ==> after[k].booked && after[k].callSid == Some(first)
  {
    var after := Book(rows, id, first);
    ReservationContract(rows, id, first);
    var i :| 0 <= i < |rows| && rows[i].id == id && !rows[i].booked &&
             after == rows[i := rows[i].(booked := true, callSid := Some(first))];
    assert !Bookable(after, id);
    UpdateReportsChange(after, id, second);
    ReservationContract(after, id, second);
  }

  /** A booked slot is never listed again, whatever the limit. */
  lemma BookedSlotLeavesListing(rows: seq<Row>, id: int, holder: string, limit: nat)
    ensures forall x :: x in Listing(Book(rows, id, holder), limit) ==> x.id != id
  {
    var after := Book(rows, id, holder);
    ListingContract(after, limit);
    forall x | x in Listing(after, limit) ensures x.id != id {
      var k :| 0 <= k < |after| && after[k] == x;
      assert after[k] == BookRow(rows[k], id, holder);
    }
  }

  /** Table rows keep `booked` and `call_sid` in step: free rows have no holder. */
  ghost predicate HoldersConsistent(rows: seq<Row>) {
    forall k :: 0 <= k < |rows| ==> (rows[k].booked <==> rows[k].callSid.Some?)
  }

  lemma BookingKeepsHoldersConsistent(rows: seq<Row>, id: int, holder: string)
    requires HoldersConsistent(rows)
    ensures HoldersConsistent(Book(rows, id, holder))
  {
  }

  /** The rows whose id is `id`, in table order. */
  function RowsWithId(rows: seq<Row>, id: int): seq<Row> {
    if rows == [] then []
    else (if rows[0].id == id then [rows[0]] else []) + RowsWithId(rows[1..], id)
  }

  /** Under a primary key, selecting by id finds the one row with that id, or nothing. */
  lemma {:induction false} RowsWithIdUnderKey(rows: seq<Row>, id: int)
    requires UniqueIds(rows)
    ensures |RowsWithId(rows, id)| <= 1
    ensures forall k :: 0 <= k < |rows| && rows[k].id == id ==> RowsWithId(rows, id) == [rows[k]]
  {
    if rows != [] {
      var tail := rows[1..];
      assert UniqueIds(tail) by {
        forall i, j | 0 <= i < j < |tail| ensures tail[i].id != tail[j].id {
          assert rows[i + 1] == tail[i] && rows[j + 1] == tail[j];
        }
      }
      RowsWithIdUnderKey(tail, id);
      if rows[0].id == id {
        assert forall k :: 0 <= k < |tail| ==> tail[k].id != id by {
          forall k | 0 <= k < |tail| ensures tail[k].id != id {
            assert rows[k + 1] == tail[k];
          }
        }
        NoRowWithId(tail, id);
      }
      forall k | 0 <= k < |rows| && rows[k].id == id ensures RowsWithId(rows, id) == [rows[k]] {
        if k > 0 {
          assert rows[k] == tail[k - 1];
        }
      }
    }
  }

  lemma {:induction false} NoRowWithId(rows: seq<Row>, id: int)
    requires forall k :: 0 <= k < |rows| ==> rows[k].id != id
    ensures RowsWithId(rows, id) == []
  {
    if rows != [] {
      NoRowWithId(rows[1..], id);
    }
  }

  // ---------------------------------------------------------------------
  // Several bookings of one slot, one after another
  // ---------------------------------------------------------------------

  /**
   * Each holder in turn tries to book `id`; the answers in order and the
   * final table. This is how the atomic conditional update serialises racing
   * requests.
   */
  function Contend(rows: seq<Row>, id: int, holders: seq<string>): (seq<bool>, seq<Row>)
    decreases |holders|
  {
    if holders == [] then ([], rows)
    else
      var rest := Contend(Book(rows, id, holders[0]), id, holders[1..]);
      ([Bookable(rows, id)] + rest.0, rest.1)
  }

  /** Of several bookings of a taken or absent slot, none succeeds and nothing changes. */
  lemma {:induction false} ContendOnTakenSlot(rows: seq<Row>, id: int, holders: seq<string>)
    requires UniqueIds(rows)
    requires !Bookable(rows, id)
    ensures |Contend(rows, id, holders).0| == |holders|
    ensures forall k :: 0 <= k < |holders| ==> !Contend(rows, id, holders).0[k]
    ensures Contend(rows, id, holders).1 == rows
  {
    if holders != [] {
      ReservationContract(rows, id, holders[0]);
      ContendOnTakenSlot(rows, id, holders[1..]);
    }
  }

  /**
   * Mutual exclusion: of several bookings of a free slot exactly the first
   * succeeds, and the slot ends booked with the first holder.
   */
  lemma MutualExclusion(rows: seq<Row>, id: int, holders: seq<string>)
    requires UniqueIds(rows)
    requires Bookable(rows, id)
    requires holders != []
    ensures var (wins, final) := Contend(rows, id, holders);
            && |wins| == |holders|
            && wins[0]
            && (forall k :: 1 <= k < |holders| ==> !wins[k])
            && final == Book(rows, id, holders[0])
            && forall k :: 0 <= k < |final| && final[k].id == id ==> final[k].booked && final[k].callSid == Some(holders[0])
  {
    var after := Book(rows, id, holders[0]);
    NoDoubleBooking(rows, id, holders[0], holders[0]);
    ReservationContract(rows, id, holders[0]);
    ContendOnTakenSlot(after, id, holders[1..]);
  }
}
