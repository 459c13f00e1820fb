/**
 * The voice flow: `/process_query` turns the caller's utterance into a slot
 * menu or a hand-off to reception, and `/book_slot` turns the pressed digit
 * into a booking or a hand-off. Spoken replies are reduced to the outcome
 * they announce.
 */
module Voice {
  import opened Options
  import opened Appointments
  import opened Intent
  import opened Numerals
  import opened Store
  import opened Notification

  /** Slots offered per menu, and the highest digit accepted. */
  const MenuSize: nat := 4

  /** Why the call is handed to reception. */
  datatype FallbackReason =
    | NoSpeech               // nothing was recognised
    | NoBookingIntent        // no booking keyword in the utterance
    | NoSlotsAvailable       // the listing came back empty
    | ReceptionRequested     // digit 0
    | InvalidSelection       // not a number, out of 1..4, or beyond the listing
    | SlotNoLongerAvailable  // the booking update changed no row

  /** "Press `digit` for the slot at `slotTime`." */
  datatype MenuEntry = MenuEntry(digit: nat, slotId: int, slotTime: int)

  /**
   * What the caller is told next. `Fallback` apologises and redirects to
   * `/fallback` (a human line); `Menu` asks for one digit (the entries, or 0
   * for reception) and redirects to `/fallback` if none comes; `Confirmed`
   * names the booked time and hangs up.
   */
  datatype Outcome = Fallback(reason: FallbackReason) | Menu(entries: seq<MenuEntry>) | Confirmed(slot: Row)

  // ---------------------------------------------------------------------
  // /process_query
  // ---------------------------------------------------------------------

  /** Digit i + 1 announces the i-th listed slot. */
  function MenuFor(listing: seq<Row>): seq<MenuEntry> {
    seq(|listing|, i requires 0 <= i < |listing| => MenuEntry(i + 1, listing[i].id, listing[i].slotTime))
  }

  /** The reply to an utterance, given the listing a booking request would fetch. */
  function SpeechOutcome(speech: Option<string>, listing: seq<Row>): Outcome {
    match ClassifySpeech(speech)
    case Silent => Fallback(NoSpeech)
    case Other => Fallback(NoBookingIntent)
    case Booking => if listing == [] then Fallback(NoSlotsAvailable) else Menu(MenuFor(listing))
  }

  /** The loop that announces the slots one by one. */
  method BuildMenu(listing: seq<Row>) returns (entries: seq<MenuEntry>)
    ensures entries == MenuFor(listing)
  {
    entries := [];
    var i := 0;
    while i < |listing|
      invariant 0 <= i <= |listing|
      invariant entries == MenuFor(listing)[..i]
    {
      entries := entries + [MenuEntry(i + 1, listing[i].id, listing[i].slotTime)];
      i := i + 1;
    }
  }

  /**
   * `process_speech_query`. The store is read only when the utterance asks
   * for a booking; `reachable` says whether that read succeeds.
   */
  method ProcessSpeechQuery(store: AppointmentTable, speech: Option<string>, reachable: bool) returns (outcome: Outcome)
    ensures outcome == SpeechOutcome(speech, if reachable then Listing(store.rows, MenuSize) else [])
  {
    if speech.None? || speech.value == "" {
      return Fallback(NoSpeech);
    }
    if !HasBookingIntent(speech.value) {
      return Fallback(NoBookingIntent);
    }
    var available := store.ListAvailable(MenuSize, reachable);
    if available == [] {
      return Fallback(NoSlotsAvailable);
    }
    var entries := BuildMenu(available);
    outcome := Menu(entries);
  }

  /**
   * A booking request gets a menu exactly when the listing is non-empty, and
   * an empty or failed listing sends it to reception. The menu offers at most
   * four slots under digits 1, 2, ... in listing order, earliest first, each
   * a free slot of the table; 0 stays free for reception.
   */
  lemma MenuConstruction(speech: Option<string>, rows: seq<Row>, reachable: bool)
    ensures var listing := if reachable then Listing(rows, MenuSize) else [];
            var outcome := SpeechOutcome(speech, listing);
            && (outcome.Menu? <==> ClassifySpeech(speech) == Booking && listing != [])
            && (ClassifySpeech(speech) == Booking && !reachable ==> outcome == Fallback(NoSlotsAvailable))
            && (ClassifySpeech(speech) == Booking && listing == [] ==> outcome == Fallback(NoSlotsAvailable))
            && (outcome.Menu? ==>
                  && 1 <= |outcome.entries| <= MenuSize
                  && (forall i :: 0 <= i < |outcome.entries| ==>
                        && outcome.entries[i].digit == i + 1
                        && outcome.entries[i].slotId == listing[i].id
                        && outcome.entries[i].slotTime == listing[i].slotTime
                        && listing[i] in rows && !listing[i].booked)
                  && (forall i, j :: 0 <= i < j < |outcome.entries| ==>
                        outcome.entries[i].slotTime <= outcome.entries[j].slotTime))
  {
    ListingContract(rows, MenuSize);
  }

  /**
   * Silence goes to reception, so does an utterance without a booking
   * keyword; only a booking keyword leads to the listing.
   */
  lemma IntentDecidesRoute(speech: Option<string>, listing: seq<Row>)
    ensures (speech.None? || speech.value == "") ==> SpeechOutcome(speech, listing) == Fallback(NoSpeech)
    ensures speech.Some? && speech.value != "" &&
            (forall k, i :: k in BookingKeywords ==> !OccursAt(Lower(speech.value), k, i)) ==>
              SpeechOutcome(speech, listing) == Fallback(NoBookingIntent)
    ensures SpeechOutcome(speech, listing).Menu? || SpeechOutcome(speech, listing) == Fallback(NoSlotsAvailable) <==>
              speech.Some? && exists k, i :: k in BookingKeywords && OccursAt(Lower(speech.value), k, i)
  {
    IntentRouting(speech);
    if speech.Some? && speech.value == "" {
      forall k, i | k in BookingKeywords ensures !OccursAt(Lower(speech.value), k, i) {
      }
    }
  }

  // ---------------------------------------------------------------------
  // /book_slot
  // ---------------------------------------------------------------------

  datatype Selection = Reception | Invalid | Position(n: nat)

  /** "0" asks for reception; otherwise the digits must read as a number in 1..4. */
  function ClassifyDigits(digits: string): Selection {
    if digits == "0" then Reception
    else match ParseInt(digits)
      case None => Invalid
      case Some(n) => if n < 1 || n > MenuSize then Invalid else Position(n)
  }

  /** The slot a selection names, or why there is none. */
  datatype Target = Refused(reason: FallbackReason) | Resolved(slot: Row)

  /** Resolve the digits against a listing fetched at selection time. */
  function SelectionTarget(digits: string, listing: seq<Row>): Target {
    match ClassifyDigits(digits)
    case Reception => Refused(ReceptionRequested)
    case Invalid => Refused(InvalidSelection)
    case Position(n) => if n > |listing| then Refused(InvalidSelection) else Resolved(listing[n - 1])
  }

  /**
   * On a keypad: 0 asks for reception; digit d in 1..4 picks the d-th listed
   * slot when there is one; every other number is an invalid selection.
   */
  lemma KeypadSelection(d: nat, listing: seq<Row>)
    ensures SelectionTarget(Decimal(d), listing) ==
              if d == 0 then Refused(ReceptionRequested)
              else if d <= MenuSize && d <= |listing| then Resolved(listing[d - 1])
              else Refused(InvalidSelection)
  {
    DecimalIsZeroString(d);
    ParseDecimal(d);
  }

  /** Text that is not a number is an invalid selection, never a booking. */
  lemma NonNumericIsInvalid(digits: string, listing: seq<Row>)
    requires digits != "0" && ParseInt(digits).None?
    ensures SelectionTarget(digits, listing) == Refused(InvalidSelection)
  {
  }

  /**
   * More than 4300 digits are an invalid selection even when, after leading
   * zeros, they spell a listed position.
   */
  lemma OverlongDigitsAreInvalid(digits: string, listing: seq<Row>)
    requires AllDigits(digits) && |digits| > MaxStrDigits
    ensures SelectionTarget(digits, listing) == Refused(InvalidSelection)
  {
    TooManyDigits(digits);
  }

  /**
   * `book_appointment_slot_endpoint`. The digits are resolved against a
   * fresh listing (no snapshot of the menu is kept); only a resolved slot is
   * booked, and only a booking that changed a row is confirmed and notified.
   */
  method BookSlotEndpoint(store: AppointmentTable, reception: ReceptionChannel, digits: string, callSid: string,
                          listReachable: bool, reserveReachable: bool) returns (outcome: Outcome)
    requires store.Valid()
    modifies store, reception
    ensures store.Valid()
    ensures var target := SelectionTarget(digits, if listReachable then Listing(old(store.rows), MenuSize) else []);
            var won := target.Resolved? && reserveReachable && Bookable(old(store.rows), target.slot.id);
            && outcome == (if target.Refused? then Fallback(target.reason)
                           else if won then Confirmed(target.slot)
                           else Fallback(SlotNoLongerAvailable))
            && store.rows == (if won then Book(old(store.rows), target.slot.id, callSid) else old(store.rows))
            && reception.sent == old(reception.sent) + (if won then [Notice(target.slot.id, target.slot.slotTime, callSid)] else [])
    ensures !outcome.Menu?
    ensures outcome.Confirmed? <==> |reception.sent| == |old(reception.sent)| + 1
  {
    if digits == "0" {
      return Fallback(ReceptionRequested);
    }
    var parsed := ParseInt(digits);
    if parsed.None? || parsed.value < 1 || parsed.value > MenuSize {
      return Fallback(InvalidSelection);
    }
    var n := parsed.value;
    assert ClassifyDigits(digits) == Position(n);
    var available := store.ListAvailable(MenuSize, listReachable);
    if n > |available| {
      return Fallback(InvalidSelection);
    }
    var selected := available[n - 1];
    assert SelectionTarget(digits, available) == Resolved(selected);
    var reserved := store.Reserve(selected.id, callSid, reserveReachable);
    if reserved {
      reception.Notify(selected, callSid);
      outcome := Confirmed(selected);
    } else {
      outcome := Fallback(SlotNoLongerAvailable);
    }
  }

  // ---------------------------------------------------------------------
  // From menu to selection
  // ---------------------------------------------------------------------

  /**
   * If the table does not change between the menu and the key press, the
   * digit announced for a slot resolves to that very slot.
   */
  lemma StableTableResolvesPresentedSlot(speech: Option<string>, rows: seq<Row>, k: nat)
    requires SpeechOutcome(speech, Listing(rows, MenuSize)).Menu?
    requires k < |SpeechOutcome(speech, Listing(rows, MenuSize)).entries|
    ensures var e := SpeechOutcome(speech, Listing(rows, MenuSize)).entries[k];
            && SelectionTarget(Decimal(e.digit), Listing(rows, MenuSize)).Resolved?
            && SelectionTarget(Decimal(e.digit), Listing(rows, MenuSize)).slot.id == e.slotId
            && SelectionTarget(Decimal(e.digit), Listing(rows, MenuSize)).slot.slotTime == e.slotTime
  {
    ListingContract(rows, MenuSize);
    KeypadSelection(k + 1, Listing(rows, MenuSize));
  }

  /**
   * A slot resolved against the current listing is free in the current
   * table, so in a run where nothing else happens between the two store
   * calls only a failing store makes the booking fail.
   */
  lemma ResolvedSlotIsBookable(digits: string, rows: seq<Row>)
    requires SelectionTarget(digits, Listing(rows, MenuSize)).Resolved?
    ensures Bookable(rows, SelectionTarget(digits, Listing(rows, MenuSize)).slot.id)
  {
    ListingContract(rows, MenuSize);
    var s := SelectionTarget(digits, Listing(rows, MenuSize)).slot;
    assert s in Listing(rows, MenuSize);
    var i :| 0 <= i < |rows| && rows[i] == s;
  }

  /**
   * Without a snapshot the digit follows the table, not the menu: two free
   * slots are offered as 1 (the earlier) and 2; someone else books the
   * earlier one; now 1 books the later slot and 2 is an invalid selection.
   */
  lemma StaleListingShiftsDigits(early: Row, late: Row, other: string)
    requires !early.booked && !late.booked && early.id != late.id && early.slotTime < late.slotTime
    ensures SpeechOutcome(Some("book"), Listing([early, late], MenuSize)) ==
              Menu([MenuEntry(1, early.id, early.slotTime), MenuEntry(2, late.id, late.slotTime)])
    ensures SelectionTarget("1", Listing(Book([early, late], early.id, other), MenuSize)) == Resolved(late)
    ensures SelectionTarget("2", Listing(Book([early, late], early.id, other), MenuSize)) == Refused(InvalidSelection)
  {
    TwoSlotsListing(early, late);
    BookRequestGetsMenu([early, late]);
    assert MenuFor([early, late]) == [MenuEntry(1, early.id, early.slotTime), MenuEntry(2, late.id, late.slotTime)];
    BookingFirstOfTwo(early, late, other);
    assert Decimal(1) == "1" && Decimal(2) == "2";
    KeypadSelection(1, [late]);
    KeypadSelection(2, [late]);
  }

  lemma TwoSlotsListing(early: Row, late: Row)
    requires !early.booked && !late.booked && early.slotTime < late.slotTime
    ensures Listing([early, late], MenuSize) == [early, late]
  {
    assert [early, late][1..] == [late];
    assert Unbooked([early, late]) == [early, late];
    assert SortBySlotTime([late]) == [late];
    assert SortBySlotTime([early, late]) == [early, late];
  }

  lemma BookingFirstOfTwo(early: Row, late: Row, other: string)
    requires !early.booked && !late.booked && early.id != late.id
    ensures Listing(Book([early, late], early.id, other), MenuSize) == [late]
  {
    var after := Book([early, late], early.id, other);
    assert after == [early.(booked := true, callSid := Some(other)), late];
    assert after[1..] == [late];
    assert Unbooked(after) == [late];
  }

  lemma BookRequestGetsMenu(listing: seq<Row>)
    requires listing != []
    ensures SpeechOutcome(Some("book"), listing) == Menu(MenuFor(listing))
  {
    assert Lower("book") == "book";
    assert "book" <= Lower("book");
    assert Contains(Lower("book"), "book");
    assert "book" in BookingKeywords;
  }
}
