/**
 * The `appointments` table as the one piece of shared mutable state. Each
 * store call takes `reachable`: when it is false the call fails inside the
 * client, which the source turns into an empty listing or a failed booking.
 */
module Store {
  import opened Options
  import opened Appointments

  class AppointmentTable {
    var rows: seq<Row>

    /** `id` is the table's primary key. */
    ghost predicate Valid()
      reads this
    {
      UniqueIds(rows)
    }

    /** Slots are provisioned before any call arrives. */
    constructor (initial: seq<Row>)
      requires UniqueIds(initial)
      ensures Valid() && rows == initial
    {
      rows := initial;
    }

    /** `get_available_slots(limit)`; a failing store yields `[]`. Reads only. */
    method ListAvailable(limit: nat, reachable: bool) returns (slots: seq<Row>)
      ensures slots == if reachable then Listing(rows, limit) else []
      ensures |slots| <= limit && SortedBySlotTime(slots)
      ensures forall x :: x in slots ==> x in rows && !x.booked
    {
      if reachable {
        slots := Listing(rows, limit);
        ListingContract(rows, limit);
      } else {
        slots := [];
      }
    }

    /** The unlimited listing behind `/api/slots`; a failing store yields `None`. */
    method ListAll(reachable: bool) returns (slots: Option<seq<Row>>)
      ensures slots == if reachable then Some(AllAvailable(rows)) else None
      ensures slots.Some? ==> SortedBySlotTime(slots.value) &&
                              forall x :: x in slots.value <==> x in rows && !x.booked
    {
      if reachable {
        slots := Some(AllAvailable(rows));
        FullListingContract(rows);
      } else {
        slots := None;
      }
    }

    /**
     * `book_appointment_slot(slotId, holder)`: one conditional update; true
     * iff it reported a changed row. A failing store books nothing.
     */
    method Reserve(slotId: int, holder: string, reachable: bool) returns (reserved: bool)
      requires Valid()
      modifies this
      ensures Valid()
      ensures reserved <==> reachable && Bookable(old(rows), slotId)
      ensures rows == if reserved then Book(old(rows), slotId, holder) else old(rows)
    {
      if !reachable {
        return false;
      }
      var updated := UpdatedRows(rows, slotId, holder);
      UpdateReportsChange(rows, slotId, holder);
      ReservationContract(rows, slotId, holder);
      rows := Book(rows, slotId, holder);
      reserved := |updated| > 0;
    }

    /** `SELECT * WHERE id = slotId`; a failing store yields `None`. */
    method SelectById(slotId: int, reachable: bool) returns (found: Option<seq<Row>>)
      requires Valid()
      ensures found == if reachable then Some(RowsWithId(rows, slotId)) else None
      ensures reachable ==> |found.value| <= 1 &&
                            forall k :: 0 <= k < |rows| && rows[k].id == slotId ==> found.value == [rows[k]]
      ensures reachable && (forall k :: 0 <= k < |rows| ==> rows[k].id != slotId) ==> found.value == []
    {
      if reachable {
        found := Some(RowsWithId(rows, slotId));
        RowsWithIdUnderKey(rows, slotId);
        if forall k :: 0 <= k < |rows| ==> rows[k].id != slotId {
          NoRowWithId(rows, slotId);
        }
      } else {
        found := None;
      }
    }
  }
}
