# Event booking: seat inventory model

This is a Dafny model of the seat-inventory core of the Event-Booking-Project server and of the client code that merges seat updates into its list. It covers:

- **Lock table.** `locked_seats` holds soft, time-limited holds per (event, user). They are swept lazily, summed per event and released by owner.
- **Event table.** `events` is created with every seat available. It is listed with filters and ordered. A capacity edit recomputes `available_seats`. The guarded update `available_seats = available_seats - q WHERE available_seats >= q` takes seats.
- **Bookings table.** `bookings` is inserted into, flipped to cancelled, and read back through inner joins.
- **Booking endpoints.** A booking attempt runs these steps:
  1. Look up the event.
  2. Check `truly_available = available_seats - locked`.
  3. Take a lock.
  4. Run the guarded decrement.
  5. Insert the booking.
  6. Release the lock on every exit.

  The endpoints also include the cancel path and the read path. Both check owner-or-admin.
- **Event endpoints.** Every event a read endpoint returns is decorated with `truly_available`. The create, edit and delete paths are modelled. An edit builds a seat-update broadcast.
- **Events page.** The client patches its received list with a pushed seat update, recomputes the shown list with a chain of case-insensitive filters, and can clear the filters.

Each table is a class holding a sequence of rows and an auto-increment counter. Its invariant says ids are strictly increasing and below the counter. Every state-changing method states, on each of its exits, the rows it leaves in every table it may change as a function of the rows before the call. The properties are proved about those functions.

The clock is an integer count of milliseconds passed in as `now`, one value per request. Prices are integer cents. `quantity` is an unconstrained integer, because nothing in the server checks it.

Two behaviours of the code are proved as written, because they are properties of the program rather than modelling errors:

- A quantity of zero or less passes both seat checks when `truly_available` is at least 0 and no hold is negative. A negative quantity then raises `available_seats`, beyond `total_seats` if need be (`NonPositiveQuantityBooked`, `Reserve`, `NegativeQuantityExceedsCapacity`).
- A cancelled booking can be cancelled again. The second cancel returns its seats a second time (`CancelAgainAccepted`, `ReturnedTwice`).

## Model

| member | source | states |
|---|---|---|
| SeatModel.Unexpired | server/models/seatModel.js:29-33 | the table after the sweep holds exactly the locks whose expiry is not before `now`; a lock expiring at `now` survives |
| SeatModel.WithoutHolder | server/models/seatModel.js:35-39 | the table after a release holds exactly the locks not of that (event, user) |
| SeatModel.LockedSum | server/models/seatModel.js:18-27 | the sum is 0 when the event has no locks (the `|| 0` of a NULL sum) and not negative when no quantity is |
| SeatModel.WithExpiry | server/models/seatModel.js:44-53 | only the lock with that id gets the new expiry; every other lock and field is kept |
| SeatModel.LockedSumConcat | server/models/seatModel.js:21-26 | the per-event sum is additive over a split of the table |
| SeatModel.LockedSumOfSelection | server/models/seatModel.js:21-26 | deleting only locks of other events leaves an event's sum unchanged |
| SeatModel.ReleaseKeepsOtherEvents | server/models/seatModel.js:35-39 | releasing (e, u) leaves the locked count of every other event unchanged |
| SeatModel.SweepAbsorbs | server/models/seatModel.js:29-33 | a sweep after an earlier sweep is the same as sweeping once at the later time |
| SeatModel.ReleaseIdempotent | server/models/seatModel.js:35-42 | a second release of the same (event, user) deletes nothing more |
| SeatModel.ExpiredLockNotCounted | server/models/seatModel.js:18-33 | a lock already expired at `now` adds nothing to the swept sum, wherever it sits |
| SeatModel.NewLockCounted | server/models/seatModel.js:4-27 | a new, unexpired lock raises its event's swept sum by exactly its quantity |
| SeatModel.ReleaseDropsNewLock | server/models/seatModel.js:35-39 | releasing (e, u) removes a lock of (e, u) just appended as well |
| SeatModel.LockTable.ClearExpiredLocks | server/models/seatModel.js:29-33 | the table becomes the swept table; ids stay unique |
| SeatModel.LockTable.LockSeats | server/models/seatModel.js:4-16 | sweeps, then appends exactly one lock with the given event, user and quantity, expiring `lockMinutes * 60000` ms after `now`; there is no capacity check; the id is fresh |
| SeatModel.LockTable.GetLockedSeats | server/models/seatModel.js:18-27 | sweeps, and returns the event's sum over the swept table |
| SeatModel.LockTable.ReleaseSeats | server/models/seatModel.js:35-42 | removes exactly the (event, user) locks and returns how many went |
| SeatModel.LockTable.ExtendSeatLock | server/models/seatModel.js:44-53 | no sweep; sets only that lock's expiry; returns 1 if the lock exists and 0 otherwise |
| EventModel.BuildConditions | server/models/eventModel.js:25-43 | the clauses appended, at most three, hold of an event exactly when every present filter matches it |
| EventModel.Selected | server/models/eventModel.js:25-46 | the query keeps exactly the rows matching every present filter |
| EventModel.GetAllEvents | server/models/eventModel.js:25-48 | the listing is sorted by date ascending, is a permutation of the selected rows, and holds exactly the matching rows |
| EventModel.GetEventById | server/models/eventModel.js:50-56 | a found row has that id; nothing is found exactly when no row has that id |
| EventModel.GetEventsByAdminId | server/models/eventModel.js:4-10 | holds exactly the rows created by that admin, newest `created_at` first, each as often as it occurs in the table |
| EventModel.RecomputeAvailable | server/models/eventModel.js:73-86 | growing the total keeps the taken seats; a shrink lowers the available count by the shrink but never below 0, so it is exactly `max(0, available - (oldTotal - newTotal))`; the result is never negative for a non-negative input; it never exceeds a non-negative new total when `0 <= available <= oldTotal` |
| EventModel.Edited | server/models/eventModel.js:59-92 | the edited row keeps id, owner and creation time, takes every editable column from the request and the available count `RecomputeAvailable` gives, and keeps `0 <= available <= total` for a non-negative total |
| EventModel.Reserve | server/models/eventModel.js:103-109 | the row changes exactly when `available >= q`, and only `available_seats` changes, by exactly `q`; with `q >= 0` the count stays non-negative and in range; with `q < 0` on a non-negative count the guard passes and the count rises |
| EventModel.Reserved | server/models/eventModel.js:103-109 | rows with another id are untouched; the row with the id gets the guarded update; with `q >= 0` no non-negative count becomes negative |
| EventModel.EditedRows | server/models/eventModel.js:88-91 | only the row with that id is rewritten, to its edited form |
| EventModel.WithoutEvent | server/models/eventModel.js:95-99 | the table keeps exactly the rows with another id |
| EventModel.EventStore.CreateEvent | server/models/eventModel.js:12-23 | appends one row with `available_seats = total_seats`, the given creator and a fresh id |
| EventModel.EventStore.UpdateEvent | server/models/eventModel.js:59-93 | with no row the call fails (the read of the missing row throws) and nothing changes; otherwise the row is edited and 1 is reported |
| EventModel.EventStore.DeleteEvent | server/models/eventModel.js:95-101 | removes only the row with that id; returns 1 if it existed and 0 otherwise |
| EventModel.EventStore.UpdateAvailableSeats | server/models/eventModel.js:103-109 | the table becomes the guarded update; returns 1 exactly when the row exists with at least `q` seats available |
| EventModel.NegativeQuantityExceedsCapacity | server/models/eventModel.js:105 | on a full event a negative `q` passes the guard and lifts `available_seats` above `total_seats` |
| EventModel.UniqueRow | server/models/eventModel.js:50-56 | with unique ids the lookup finds the row at its index |
| EventModel.ReservedNothing | server/models/eventModel.js:103-109 | a guarded update the guard refuses changes no row |
| EventModel.ReservedRow | server/models/eventModel.js:103-109 | after an admitted guarded update, the row with that id has exactly `q` fewer seats and ids stay unique |
| EventModel.ReservedKeepsRows | server/models/eventModel.js:103-109 | the guarded update never makes a row unfindable |
| EventModel.ReturnedRow | server/models/eventModel.js:103-109 | the guarded update with `-q` on one row adds `q` to its available count when the result is at least 0 and changes nothing otherwise |
| EventModel.ReturnedSeats | server/models/eventModel.js:103-109 | the guarded update with `-q` over the table gives `q` seats back to the named event exactly as `SeatsReturned` states and keeps every other row |
| EventModel.ReturnedTwice | server/controller/bookingController.js:140 | returning `q` seats twice raises a non-negative count by `2q` |
| EventModel.EditedRow | server/models/eventModel.js:59-92 | after an edit the lookup finds the edited row and ids stay unique |
| BookingModel.JoinEvent | server/models/bookingModel.js:15-17 | a booking joins exactly when its event exists, and the row carries that booking |
| BookingModel.JoinedRows | server/models/bookingModel.js:15-17 | the inner join holds exactly the bookings whose event exists, each with its event columns |
| BookingModel.GetBookingsByUserId | server/models/bookingModel.js:13-23 | holds exactly that user's joinable bookings, newest `booking_date` first, each row as often as its booking occurs in the table |
| BookingModel.GetBookingById | server/models/bookingModel.js:25-34 | a found row is that booking joined with its event; nothing is found exactly when no booking with that id has an existing event |
| BookingModel.GetAllBookings | server/models/bookingModel.js:36-45 | every row is a booking whose event and user both exist, with the right title and user name; every such booking appears, as often as it occurs in the table; newest first |
| BookingModel.JoinedCount | server/models/bookingModel.js:15-17 | the inner join yields a booking's joined row exactly as often as the booking occurs in the table |
| BookingModel.AdminRowCount | server/models/bookingModel.js:36-45 | the two inner joins yield a booking's listing row exactly as often as the booking occurs in the table |
| BookingModel.WithUsers | server/models/bookingModel.js:41 | the second inner join keeps exactly the rows whose user exists, adding the user's name |
| BookingModel.CancelledRows | server/models/bookingModel.js:47-53 | only the status of the row with that id changes, to cancelled, whatever it was |
| BookingModel.CancelTwiceSameTable | server/models/bookingModel.js:49 | cancelling twice leaves the table as cancelling once |
| BookingModel.CancelledStillReadable | server/models/bookingModel.js:25-34 | a cancelled booking is still read by id: the readers ignore the status |
| BookingModel.BookingLedger.CreateBooking | server/models/bookingModel.js:4-11 | appends exactly one confirmed booking with the given columns and a fresh id |
| BookingModel.BookingLedger.CancelBooking | server/models/bookingModel.js:47-53 | the table becomes the cancelled table; returns 1 if the booking exists and 0 otherwise |
| Availability.TrulyAvailable | server/controller/bookingController.js:26-27 | an event with no holds has its committed count available; with no negative hold it never exceeds the committed count |
| Availability.AdmissionImpliesGuard | server/controller/bookingController.js:26-43 | with non-negative locks, a passed truly-available check implies that the guarded decrement passes |
| Availability.LockLowersTrulyAvailable | server/controller/bookingController.js:26-34 | taking a lock of `q` lowers the event's truly-available count by exactly `q` |
| BookingController.PathOf | server/controller/bookingController.js:12-75 | the exit of an attempt: 404 exactly when the event is missing; a lock only after admission (`Admits`: truly-available covers the quantity); seats only when the guard holds and the decrement did not throw; booked only without a fault; conversely, for an existing event each exit is taken exactly under its condition in the source's order (not admitted: 400; decrement throws: 500; guard refuses: 400; insert throws: 500; otherwise 201); with no negative hold, never a failed guard after admission |
| BookingController.CreateNewBooking | server/controller/bookingController.js:12-75 | a missing event gives 404 and changes nothing; a failed truly-available check gives 400 after only the sweep; a failed guard gives 400 with seats and bookings unchanged and the (event, user) locks released; a fault after locking gives 500 with the locks released and an admitted decrement not undone; success takes exactly `quantity` seats from that event, appends one booking with `total_amount = price * quantity` and leaves no lock for (event, user) |
| BookingController.AdmitAndBook | server/controller/bookingController.js:23-75 | for an event that exists: 400 after the sweep when truly-available seats fall short, otherwise the outcomes of the locked steps with `total_amount = price * quantity` |
| BookingController.BookUnderLock | server/controller/bookingController.js:33-70 | the steps after admission: the outcome per exit, and the lock table ends with every (event, user) lock released |
| BookingController.TakeSeatsAndRecord | server/controller/bookingController.js:36-65 | a decrement fault changes nothing; a refused guard gives 400; an admitted guard takes the seats before any insert fault; success appends the booking |
| BookingController.NonPositiveQuantityBooked | server/controller/bookingController.js:14-38 | with `quantity <= 0`, a non-negative truly-available count and non-negative locks, the attempt is booked |
| Common.MayAccess | server/controller/bookingController.js:98 | an admin may access every booking; a plain user exactly their own |
| BookingController.GetBooking | server/controller/bookingController.js:88-107 | 404 exactly when the joined row is missing, 403 exactly when the requester is neither owner nor admin, otherwise that row |
| BookingController.CancelUserBooking | server/controller/bookingController.js:119-147 | ends with the response and both tables that `CancelEffect` assigns to the owner-or-admin read taken at entry (its meaning is the next row) |
| BookingController.CancelEffect | server/controller/bookingController.js:119-147 | 200 exactly when the read found an accessible row, and the same status as the read otherwise, with both tables unchanged; no row is added or removed, and only the booking's event can change |
| BookingController.CancelOutcomeMeaning | server/controller/bookingController.js:119-147 | 404 exactly when no joined row has the id and 403 exactly when the requester is neither owner nor admin, both changing nothing; otherwise the read found the booking, the requester may access it and exactly that booking is marked cancelled |
| BookingController.CancelReturnsSeats | server/controller/bookingController.js:137-140 | a cancellation that goes ahead leaves the events as `SeatsReturned` describes: the booking's event row gains the quantity in `available_seats` and nothing else when that leaves the count at least 0, and is left exactly as it was otherwise (the guarded update matches no row and the answer is still 200); every other event is unchanged |
| BookingController.CancelAndReturnSeats | server/controller/bookingController.js:133-142 | for a found booking: marks it cancelled and returns its quantity to its event through the guarded update with `-quantity` |
| BookingController.CancelAgainAccepted | server/controller/bookingController.js:124-140 | after a successful cancel the same booking is still found and still the requester's, so a second cancel is accepted and returns the seats again |
| EventController.Decorated | server/controller/eventController.js:40-48 | one view per event, in order, carrying that event and its `TrulyAvailable` count against the swept table |
| EventController.Decorate | server/controller/eventController.js:40-48 | each view carries `available_seats` minus the swept locked sum, unclamped; the lock table ends swept, or untouched for an empty list; no event row changes |
| EventController.ForwardedOnlyPresent | server/controller/eventController.js:59-65 | a forwarded filter restricts exactly when its parameter was sent non-empty, and then by that value |
| EventController.NoQueryListsAll | server/controller/eventController.js:59-65 | with no parameters every event is listed |
| EventController.GetEvent | server/controller/eventController.js:85-103 | 404 exactly when the row is missing, with no sweep; otherwise the row and its truly-available count after the sweep |
| EventController.Forwarded | server/controller/eventController.js:59-63 | a parameter reaches the filters only when it was sent, and a non-empty filter carries the sent value; the date goes through as sent |
| EventController.GetEvents | server/controller/eventController.js:57-83 | the listing for the forwarded filters, decorated; every view matches the filters; the lock table ends swept, or untouched when the listing is empty, with its counter kept |
| EventController.GetAdminEvents | server/controller/eventController.js:32-55 | the requester's own events, decorated; every view was created by the requester; the lock table ends swept, or untouched when there are none, with its counter kept |
| EventController.CreateNewEvent | server/controller/eventController.js:15-29 | the new row has the requester as `created_by` and is found under the returned id |
| EventController.UpdateEventById | server/controller/eventController.js:105-137 | 500 exactly when the row is missing, changing nothing; an existing row always gives 200: the row is edited and, only when a socket server is attached, one seat update for that id is emitted carrying the edited `available_seats`, `truly_available` and `total_seats` |
| EventController.DeleteEventById | server/controller/eventController.js:139-154 | 404 exactly when no row was deleted; the row with that id is gone |
| EventsPage.HandleSeatUpdate | client/src/components/Events/EventsPage.jsx:51-76 | same length and order; an event that `Concerns` the update (same id) gets the three counts and keeps every other field; other events are unchanged |
| EventsPage.NoMatchUnchanged | client/src/components/Events/EventsPage.jsx:71-75 | an update matching no event leaves the list unchanged |
| EventsPage.SeatUpdateIdempotent | client/src/components/Events/EventsPage.jsx:57-69 | applying the same update twice is applying it once; ids stay in place |
| EventsPage.ByPlace | client/src/components/Events/EventsPage.jsx:131-144 | the search and location steps keep the received order and hold exactly the events both filled-in steps accept |
| EventsPage.ByDay | client/src/components/Events/EventsPage.jsx:146-153 | the date step keeps the order and, when a date is chosen, holds exactly the events on that calendar day |
| EventsPage.FilterEvents | client/src/components/Events/EventsPage.jsx:127-165 | the shown list keeps the received order and holds exactly the received events that every filled-in step accepts |
| EventsPage.When | client/src/components/Events/EventsPage.jsx:131-162 | a step filters only when its field is filled in; its result is an order-preserving sub-list |
| EventsPage.NothingFilledKeepsAll | client/src/components/Events/EventsPage.jsx:128-164 | with an empty search term and an empty form every event is shown |
| EventsPage.ExactMatchFound | client/src/components/Events/EventsPage.jsx:131-137 | a case-sensitive match is also found by the case-insensitive search |
| EventsPage.Loaded | client/src/components/Events/EventsPage.jsx:111-125 | after a successful fetch the received list is the response, and the effect that follows shows the response filtered by the current search term and form (nothing when the response is empty) |
| EventsPage.LoadedUnfilteredShowsAll | client/src/components/Events/EventsPage.jsx:111-125 | with no search term and an empty form, the page shows exactly what the server sent |
| EventsPage.Patched | client/src/components/Events/EventsPage.jsx:58-66 | a matching event takes the update's three counts and keeps every other field |
| EventsPage.MatchesSearch | client/src/components/Events/EventsPage.jsx:132-136 | the search step's test on title, location or description through `ContainsIgnoreCase` (`toLowerCase().includes(...)`); an empty term matches every event, as `includes('')` does |
| EventsPage.Refreshed | client/src/components/Events/EventsPage.jsx:40-45 | the shown list is recomputed only while the received list is not empty |
| EventsPage.OnSeatUpdate | client/src/components/Events/EventsPage.jsx:40-76 | a pushed update patches the received list and keeps the search term and the form; the shown list is recomputed from the patched list, or kept as it was when the list is empty |
| EventsPage.ClearFilters | client/src/components/Events/EventsPage.jsx:167-176 | the form and the search term are emptied and every received event is shown |
| EventsPage.ClearedPageIsStable | client/src/components/Events/EventsPage.jsx:40-45 | the effect that runs after clearing shows the same list again |
| Text.LowerStr | client/src/components/Events/EventsPage.jsx:133-142 | same length, each character lowered, ASCII letters only |
| Text.Contains | server/models/eventModel.js:29-42 | the search never finds a pattern longer than the text and always finds the empty pattern |
| Text.ContainsIffOccurs | server/models/eventModel.js:29-42 | the substring search succeeds exactly when the pattern occurs at some index |
| Text.ContainsImpliesIgnoreCase | client/src/components/Events/EventsPage.jsx:131-144 | an exact occurrence is also a case-insensitive one |
| Seqs.Filter | client/src/components/Events/EventsPage.jsx:132-162 | the selection holds exactly the elements that satisfy the predicate, and is no longer than the input |
| Seqs.FindFirst | server/models/eventModel.js:50-56 | a found element satisfies the predicate; nothing is found exactly when no element does |
| Seqs.SortBy | server/models/eventModel.js:44 | the result is sorted by the key and is a permutation of the input |
| Seqs.FilterIsSubsequence | client/src/components/Events/EventsPage.jsx:132-162 | a selection keeps the relative order of what it keeps |
| Seqs.SubsequenceTrans | client/src/components/Events/EventsPage.jsx:128-164 | a chain of selections is still an order-preserving sub-list of the input |
| Seqs.FilterKeepsIncreasing | server/models/seatModel.js:29-39 | deleting rows keeps auto-increment ids increasing |

## Left out

- Time zones and second precision: `DATETIME` columns, ISO-to-MySQL date conversion, SQL `DATE()` and JavaScript `toDateString()` become integer milliseconds and `Day(t) = t / 86400000`.
- The date strings the filters are sent as, and their parsing, are left out. A date filter is the day number it names.
- SQL collation and `LIKE` wildcards are left out. `LIKE '%x%'` is modelled as case-sensitive substring search, and `%` or `_` inside a filter value is not treated as a wildcard.
- The client's `toLowerCase` is modelled only for ASCII letters. Unicode case mapping is left out.
- Floating point is left out. Prices, `price * quantity` and the client's `parseFloat` price bounds are integer cents.
- String-typed ids and their coercion are left out. Ids are natural numbers, and `String(a) === String(b)` is id equality.
- `parseInt(total_seats)` is left out: the new total is already an integer.
- Concurrency is left out. Each request runs to completion with one `now`, and the `Promise.all` fan-out in the read endpoints runs the lookups one after another. The `affectedRows === 0` branches of `updateEventById` and `cancelUserBooking` are modelled, but with one request at a time they are never taken.
- Storage exceptions are modelled only where they change the booking attempt's state: the guarded decrement and the insert (`Fault`). Any other exception (connection loss, constraint violations, an insert of a malformed event) is left out.
- The column defaults of `bookings` (status `confirmed`, `booking_date` at insertion) and `events` (`created_at` at insertion) are assumed. The schema is not part of this model.
- mysql2's `affectedRows` is assumed to count matched rows.
- SQL `ORDER BY` leaves the order of ties unspecified. The model sorts stably, which is one of the orders the database may return.
- `getUserBookings` and `getAllBookingsAdmin` only pass their reader's result through, and are covered by `GetBookingsByUserId` and `GetAllBookings`.
- `emitSeatUpdate` and socket rooms are left out. The broadcast is the returned `SeatUpdate` value.
- Authentication is left out. The requester's id and role are inputs.
- React rendering, loading and error flags, and the console logging in `handleSeatUpdate` are left out.
- SeatModel.LockTable.ExtendSeatLock: the default of 5 minutes is not modelled; the caller passes the minutes.
