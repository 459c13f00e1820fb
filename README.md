# Voice appointment booking: a Dafny model

This project models the core of a small voice-bot service (`app.py`). Callers book one of a few time slots over the phone. A web client can do the same through a REST endpoint. The model covers:

- **The `appointments` table** (`appointments.dfy`, `store.dfy`). Rows hold an id, a slot time, a `booked` flag, a nullable `call_sid` holder reference and a creation time. The table is a class `Store.AppointmentTable` whose `rows: seq<Row>` field is reassigned in place. Its invariant is that `id` is a primary key. The listing query (free rows, ordered by `slot_time`, limited) is the pure function `Appointments.Listing`. The booking query is the conditional update `Appointments.Book`: set `booked = true, call_sid = h` where `id = slotId and booked = false`. Success means the update reported a changed row (`Appointments.UpdatedRows`).
- **Reception notifications** (`notification.dfy`). The WhatsApp message to reception is an event appended to a ghost log, `Notification.ReceptionChannel.sent`. Its delivery result is ignored, as in the source.
- **Intent detection** (`intent.dfy`). The utterance is lower-cased and searched for `book`, `appointment`, `schedule` or `reserve` as a plain substring.
- **Python's `int()`** (`numerals.dfy`). This is how the pressed digits are read: blanks around the text, an optional sign and underscore-grouped digits are accepted, and anything else is refused.
- **The voice flow** (`voice.dfy`). `/process_query` yields a slot menu or a hand-off to reception. `/book_slot` yields a confirmation or a hand-off. Replies are the datatype `Voice.Outcome`: `Fallback(reason)` (apologise, then redirect to `/fallback`), `Menu(entries)` (ask for one digit), or `Confirmed(slot)` (confirm, then hang up). `Fallback` and `Confirmed` are the only results of a selection.
- **The REST endpoints** (`rest_api.dfy`). `GET /api/slots` and `POST /api/book`.

Store failures are modelled as a `reachable: bool` parameter on each store call. When it is false, the source's `except` branches apply: a listing yields `[]`, a booking yields `false` and the table is unchanged. The REST handlers answer 500.

Two behaviours are modelled as the code has them:

- **No menu snapshot.** `app.py` keeps no per-call state between the menu and the key press. Its comments mark this as a shortcut ("in a real app, use Redis or database", app.py:200-201; "in production, cache this", app.py:233). When the digit arrives it re-runs `get_available_slots(4)` and takes position d - 1 of that fresh listing (app.py:233-241). `Voice.StableTableResolvesPresentedSlot` proves that the digit reaches the announced slot when the table has not changed in between. `Voice.StaleListingShiftsDigits` shows what happens when another booking intervenes: digit 1 then books the slot announced as 2, and digit 2 is refused.
- **Failed web booking.** When the booking changes no row, `book_slot_api` raises an HTTP 400 ("slot may already be taken", app.py:313). That raise sits inside the `try` whose `except Exception` (app.py:315-317) catches it and raises a 500 instead, so the client gets a 500. `RestApi.BookSlotApi` returns 500.

The database does not define the order of rows with equal `slot_time`. The model fixes it to table order, using a stable insertion sort. This makes the listing a function of the table, which the lemma relating menu and selection needs.

## Model

| member | source | states |
|---|---|---|
| `Appointments.Unbooked` | app.py:71 | the result holds exactly the table's rows with `booked == false` and is no longer than the table |
| `Appointments.UnbookedCounts` | app.py:71 | the filter keeps each free row as often as the table holds it and drops every booked row |
| `Appointments.InsertBySlotTime` | app.py:72 | inserting into a list sorted by `slot_time` keeps it sorted and adds exactly that row |
| `Appointments.SortBySlotTime` | app.py:72 | the result is sorted by `slot_time` and is a permutation of the input |
| `Appointments.ListingContract` | app.py:66-75 | `get_available_slots(limit)` returns at most `limit` rows, all free rows of the table, in nondecreasing `slot_time`; any free row left out is no earlier than the last one returned, and a short listing leaves none out |
| `Appointments.FullListingContract` | app.py:283-287 | the unlimited listing is sorted by `slot_time` and holds exactly the free rows of the table, each as often as the table does (so no repeats under the primary key) |
| `Appointments.ListingIsPrefix` | app.py:69-73 | the limited listing is the first `min(limit, n)` rows of the unlimited one |
| `Appointments.UpdatedRowsAreChangedRows` | app.py:83-89 | the rows the update reports (`response.data`) are exactly the rows it changed, as they are after the update, in table order |
| `Appointments.UpdateReportsChange` | app.py:83-89 | the update reports a changed row iff a row with that id is still free; under the primary key it changes at most one row |
| `Appointments.ReservationContract` | app.py:83-87 | booking a free slot changes exactly that row to `booked = true, call_sid = holder`, leaving its other fields and all other rows as they were; booking an absent or taken slot changes nothing; ids stay unique |
| `Appointments.NoDoubleBooking` | app.py:84-89 | after a successful booking by `first`, a later booking by anyone reports no change, changes nothing, and the row still has holder `first` |
| `Appointments.BookedSlotLeavesListing` | app.py:69-86 | once a slot is booked, no listing of any length shows it |
| `Appointments.BookingKeepsHoldersConsistent` | app.py:84 | if every free row has no holder and every booked row has one, this still holds after a booking |
| `Appointments.RowsWithIdUnderKey` | app.py:303-306 | under the primary key, selecting by id yields the one row with that id, or nothing |
| `Appointments.ContendOnTakenSlot` | app.py:83-89 | any number of bookings of a taken or absent slot all fail and leave the table unchanged |
| `Appointments.MutualExclusion` | app.py:83-89 | of several bookings of a free slot made one after another, exactly the first succeeds, and the slot ends booked with the first holder |
| `Store.AppointmentTable.constructor` | app.py:58-63 | stands for the provisioning of slots outside the program: the table starts as given rows of the `AppointmentSlot` shape, whose ids are unique |
| `Store.AppointmentTable.ListAvailable` | app.py:66-78 | returns the listing, or `[]` when the store fails; at most `limit` free rows of the table, sorted by time; the table is not modified |
| `Store.AppointmentTable.ListAll` | app.py:283-292 | returns every free row sorted by time, or nothing when the store fails |
| `Store.AppointmentTable.Reserve` | app.py:80-92 | returns true iff the store answered and a row with that id was free; the new table is the booked table on success and the old table otherwise; ids stay unique |
| `Store.AppointmentTable.SelectById` | app.py:303-306 | returns the rows with that id: exactly the one row when it exists, none otherwise, or no answer when the store fails |
| `Notification.ReceptionChannel.Notify` | app.py:94-117 | appends exactly one notice, naming the slot, its time and the holder, to the log |
| `Intent.ContainsIffOccurs` | app.py:170 | the keyword test `keyword in text` holds iff the keyword occurs at some position of the text |
| `Intent.IntentRouting` | app.py:161-170 | silence iff the utterance is missing or empty; booking iff it is non-empty and one of the four keywords occurs in its lower-cased text; other otherwise |
| `Intent.ClassificationIgnoresCase` | app.py:168-170 | an utterance is classified like its lower-cased form |
| `Intent.KeywordInsideWord` | app.py:167-170 | a keyword inside a longer word ("Rebooking") counts as a booking request |
| `Intent.NoKeywordIsOther` | app.py:206-208 | an utterance without any keyword ("I need help") is not a booking request |
| `Numerals.ParseDecimal` | app.py:229 | `int()` reads back the decimal numeral of every natural number of at most 4300 digits, and refuses a longer one |
| `Numerals.TooManyDigits` | app.py:229 | a run of more than 4300 digits is refused, leading zeros included |
| `Numerals.SignedExamples` | app.py:229 | `int()` accepts a sign and surrounding blanks (`"+2"` reads as 2, `" -1 "` as -1) |
| `Numerals.NotNumbers` | app.py:229 | empty text, a blank, a non-digit, a doubled underscore and a digit after U+001C (which `int()` does not strip) are refused |
| `Numerals.DecimalIsZeroString` | app.py:223 | only the numeral of 0 is the string `"0"` |
| `Voice.BuildMenu` | app.py:188-195 | the loop announces, for each listed slot in order, digit i + 1 with that slot's id and time |
| `Voice.ProcessSpeechQuery` | app.py:150-210 | the reply to an utterance is the speech outcome for the listing fetched now, or for `[]` when the store fails; the table is not modified |
| `Voice.MenuConstruction` | app.py:172-198 | a booking request gets a menu iff the listing is non-empty; an empty or failed listing sends it to reception; a menu has 1 to 4 entries, digit i + 1 naming the i-th listed slot (a free row of the table), in time order, so 0 stays free for reception |
| `Voice.IntentDecidesRoute` | app.py:161-208 | silence and utterances without a keyword go to reception; the listing is consulted iff a keyword occurs |
| `Voice.KeypadSelection` | app.py:223-241 | digit 0 asks for reception; digit d in 1..4 picks the d-th listed slot when there is one; every other number is an invalid selection |
| `Voice.NonNumericIsInvalid` | app.py:228-262 | digits that `int()` refuses are an invalid selection, never a booking |
| `Voice.OverlongDigitsAreInvalid` | app.py:228-262 | more than 4300 digits are an invalid selection, even when after leading zeros they spell a listed position |
| `Voice.BookSlotEndpoint` | app.py:212-264 | a refused selection changes nothing and sends nothing; a resolved slot is booked for the caller; confirmation, the change to the table and exactly one notification happen iff the booking changed a row; otherwise the caller hears that the slot is no longer available; the reply is never a menu |
| `Voice.StableTableResolvesPresentedSlot` | app.py:233-241 | if the table is unchanged between menu and key press, the digit announced for a slot resolves to that slot |
| `Voice.ResolvedSlotIsBookable` | app.py:234-244 | a slot resolved against the current listing is free in the current table, so with nothing in between only a store failure makes the booking fail |
| `Voice.StaleListingShiftsDigits` | app.py:233-241 | with two free slots offered as 1 and 2, booking the first elsewhere makes digit 1 resolve to the second slot and digit 2 invalid |
| `RestApi.GetAppointmentSlots` | app.py:279-292 | the reply lists exactly the free rows in time order, or is a 500 when the store fails |
| `RestApi.ApiHolder` | app.py:299 | the holder reference is `API_` followed by the request's timestamp |
| `RestApi.BookSlotApi` | app.py:294-317 | the slot is booked for the `API_` holder iff it was free and the store answered; success is reported only if the booking succeeded and the read-back answered; then exactly one notice with the slot's time is sent; every failure, the refused booking included, is a 500 |

## Left out

- Supabase client and query builder: the table is an in-memory sequence of rows. A store exception is the `reachable` flag, and partial failures (a commit whose answer is lost) are not modelled.
- Concurrency: each store operation is one atomic step, and requests run one after another. Racing requests appear only as interleavings of whole operations (`Appointments.Contend`, `Voice.StaleListingShiftsDigits`). Within one `/book_slot` call, nothing runs between the listing and the update.
- Twilio rendering: TwiML documents, spoken text, `Gather` options and the dial-out in `/fallback` (app.py:266-276) are reduced to `Voice.Outcome`.
- `/voice` (app.py:120-148): this greeting only asks for speech and redirects to `/fallback`. It makes no decision.
- WhatsApp sending (app.py:94-117): message formatting and the Twilio call are left out. Only the attempt is logged; its result is ignored, as in the source.
- Dates and clocks: `slot_time` and `created_at` are integers. `strftime`/`fromisoformat` formatting is not modelled. `datetime.now()` in the API holder is the `stamp` parameter.
- Intent.Lower: only ASCII letters are lower-cased. Python's Unicode case mapping (for example KELVIN SIGN to `k`) is not modelled.
- Numerals.ParseInt: only ASCII digits and the ASCII whitespace `int()` strips (space, `\t`, `\n`, `\r`, `\v`, `\f`) are handled. On text holding a non-ASCII character Python also accepts other Unicode decimal digits and Unicode spaces (U+001C..U+001F among them).
- Numerals.ParseInt: the digit limit is CPython's default of 4300 (3.11 on, and the 3.7-3.10 security releases). A limit changed through `PYTHONINTMAXSTRDIGITS`, `-X int_max_str_digits` or `sys.set_int_max_str_digits`, and older interpreters without any limit, are not modelled.
- Voice.BookSlotEndpoint and Voice.ProcessSpeechQuery: slot times are integers, so the `datetime.fromisoformat` parses at app.py:191 and app.py:245 cannot fail in the model. In the source, a time string it refuses at app.py:245 raises `ValueError` after the booking succeeded; the `except` at app.py:260-262 then tells the caller "Invalid selection", the row stays booked and no notification is sent. At app.py:191 the same failure is outside any `try` and ends the request with a server error. The model's "confirmation and notification iff the booking changed a row" rests on well-formed times.
- Ties in `ORDER BY slot_time`: the database leaves them unordered. The model keeps table order.
- Health endpoints (app.py:319-345), CORS, environment variables, client initialisation, logging and server startup.
