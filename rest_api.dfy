/**
 * The two REST endpoints for the web client: `GET /api/slots` lists every
 * free slot, `POST /api/book` books one under a synthetic holder reference.
 */
module RestApi {
  import opened Options
  import opened Appointments
  import opened Store
  import opened Notification

  /** HTTP status of a request the handler failed. */
  const InternalServerError: int := 500

  datatype SlotsReply = SlotList(slots: seq<Row>) | SlotsError(status: int)

  datatype BookReply = BookedOk | BookError(status: int)

  /** `get_appointment_slots`: all free slots, earliest first, or a 500. */
  method GetAppointmentSlots(store: AppointmentTable, reachable: bool) returns (reply: SlotsReply)
    ensures reply == if reachable then SlotList(AllAvailable(store.rows)) else SlotsError(InternalServerError)
    ensures reply.SlotList? ==>
              SortedBySlotTime(reply.slots) && forall x :: x in reply.slots <==> x in store.rows && !x.booked
  {
    var slots := store.ListAll(reachable);
    if slots.None? {
      return SlotsError(InternalServerError);
    }
    reply := SlotList(slots.value);
  }

  /** The holder reference of a web booking: `API_` and the request's timestamp. */
  function ApiHolder(stamp: string): (h: string)
    ensures |h| == |stamp| + 4 && h[..4] == "API_" && h[4..] == stamp
  {
    "API_" + stamp
  }

  /**
   * `book_slot_api`. `stamp` is the text of the current time. A failed
   * booking raises a 400 inside the handler's `try`, whose `except Exception`
   * turns it, like every other exception, into a 500.
   */
  method BookSlotApi(store: AppointmentTable, reception: ReceptionChannel, slotId: int, stamp: string,
                     reserveReachable: bool, lookupReachable: bool) returns (reply: BookReply)
    requires store.Valid()
    modifies store, reception
    ensures store.Valid()
    ensures var won := reserveReachable && Bookable(old(store.rows), slotId);
            && store.rows == (if won then Book(old(store.rows), slotId, ApiHolder(stamp)) else old(store.rows))
            && reply == (if won && lookupReachable then BookedOk else BookError(InternalServerError))
            && (if won && lookupReachable
                then exists k :: 0 <= k < |old(store.rows)| && old(store.rows)[k].id == slotId &&
                       reception.sent == old(reception.sent) + [Notice(slotId, old(store.rows)[k].slotTime, ApiHolder(stamp))]
                else reception.sent == old(reception.sent))
  {
    var holder := ApiHolder(stamp);
    var raised: Option<int> := None;  // status of an exception raised inside the `try`
    ghost var before := store.rows;
    var reserved := store.Reserve(slotId, holder, reserveReachable);
    if reserved {
      ReservationContract(before, slotId, holder);
      ghost var k :| 0 <= k < |before| && before[k].id == slotId && !before[k].booked &&
                     store.rows == before[k := before[k].(booked := true, callSid := Some(holder))];
      assert store.rows[k].id == slotId;
      var found := store.SelectById(slotId, lookupReachable);
      if found.None? {
        raised := Some(InternalServerError);
      } else if found.value != [] {
        reception.Notify(found.value[0], holder);
      }
    } else {
      raised := Some(400);
    }
    if raised.Some? {
      // the broad `except Exception` also catches the 400 raised above
      return BookError(InternalServerError);
    }
    reply := BookedOk;
  }
}
