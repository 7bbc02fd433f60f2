/** The booking endpoints: the booking attempt (look up the event, check the
    truly-available count, take a soft lock, run the guarded decrement,
    insert the booking, release the lock on every exit), the cancellation
    with its owner-or-admin check, and the owner-or-admin read. Each request
    runs as one sequential operation on the shared tables. */
module BookingController {
  import opened Common
  import opened SeatModel
  import opened EventModel
  import opened BookingModel
  import opened Availability
  import opened Seqs

  /** The body of a booking request; `quantity` is taken as sent. */
  datatype BookingRequest = BookingRequest(eventId: nat, quantity: int, name: string, email: string, mobile: string)

  /** Which storage call throws during a booking attempt, if any. */
  datatype Fault = NoFault | DecrementThrows | InsertThrows

  datatype BookingResponse =
    | Created(bookingId: nat, totalAmount: int)
    | EventNotFound
    | NotEnoughSeats
    | InternalError
  {
    function Status(): int
    {
      match this
      case Created(_, _) => 201
      case EventNotFound => 404
      case NotEnoughSeats => 400
      case InternalError => 500
    }

    function Message(): string
    {
      match this
      case Created(_, _) => "Booking created successfully"
      case EventNotFound => "Event not found"
      case NotEnoughSeats => "Not enough seats available"
      case InternalError => "Internal server error"
    }
  }

  datatype CancelResponse = CancelledOk | CancelNotFound | CancelDenied
  {
    function Status(): int
    {
      match this
      case CancelledOk => 200
      case CancelNotFound => 404
      case CancelDenied => 403
    }
  }

  datatype ReadResponse = Found(row: BookingRow) | ReadNotFound | ReadDenied
  {
    function Status(): int
    {
      match this
      case Found(_) => 200
      case ReadNotFound => 404
      case ReadDenied => 403
    }
  }

  /** The admission check of a booking attempt: the truly-available count,
      taken from the event row read first and the swept lock table, covers
      the requested quantity. */
  predicate Admits(ev: Event, swept: seq<Lock>, q: int)
  {
    TrulyAvailable(ev, swept) >= q
  }

  /** The exits of a booking attempt. */
  datatype Path =
    | MissingEvent     // 404 at step 1
    | Rejected         // 400 at step 2, no lock taken
    | DecrementFault   // 500: the guarded update threw
    | GuardFailed      // 400: the guarded update changed no row
    | InsertFault      // 500: the insert threw after the seats were taken
    | Booked           // 201

  /** The exit a booking attempt takes, given the event table and the lock
      table after the sweep as they are when the attempt starts. */
  function PathOf(events: seq<Event>, swept: seq<Lock>, req: BookingRequest, fault: Fault): (path: Path)
    ensures path == MissingEvent <==> GetEventById(events, req.eventId).None?
    ensures LockTaken(path) ==> Admits(GetEventById(events, req.eventId).value, swept, req.quantity)
    ensures SeatsTaken(path) ==> fault != DecrementThrows && GetEventById(events, req.eventId).value.availableSeats >= req.quantity
    ensures path == Booked ==> fault.NoFault?
    ensures GetEventById(events, req.eventId).Some? ==>
      var ev := GetEventById(events, req.eventId).value;
      && (!Admits(ev, swept, req.quantity) ==> path == Rejected)
      && (Admits(ev, swept, req.quantity) && fault.DecrementThrows? ==> path == DecrementFault)
      && (Admits(ev, swept, req.quantity) && !fault.DecrementThrows? && ev.availableSeats < req.quantity ==> path == GuardFailed)
      && (Admits(ev, swept, req.quantity) && ev.availableSeats >= req.quantity && fault.InsertThrows? ==> path == InsertFault)
      && (Admits(ev, swept, req.quantity) && ev.availableSeats >= req.quantity && fault.NoFault? ==> path == Booked)
    // with no negative hold, an admitted attempt never fails the guard
    ensures (forall l :: l in swept ==> l.quantity >= 0) ==> path != GuardFailed
  {
    match GetEventById(events, req.eventId)
    case None => MissingEvent
    case Some(ev) =>
      if !Admits(ev, swept, req.quantity) then Rejected
      else if fault == DecrementThrows then DecrementFault
      else if ev.availableSeats < req.quantity then GuardFailed
      else if fault == InsertThrows then InsertFault
      else Booked
  }

  /** Every exit after step 2 has taken a lock. */
  predicate LockTaken(path: Path)
  {
    path != MissingEvent && path != Rejected
  }

  /** Every exit after step 4 has taken the seats. */
  predicate SeatsTaken(path: Path)
  {
    path == InsertFault || path == Booked
  }

  /** `createNewBooking`. */
  method CreateNewBooking(locks: LockTable, store: EventStore, ledger: BookingLedger,
                          req: BookingRequest, user: Requester, now: int, fault: Fault)
    returns (resp: BookingResponse)
    requires locks.Valid() && store.Valid() && ledger.Valid()
    modifies locks, store, ledger
    ensures locks.Valid() && store.Valid() && ledger.Valid()
    ensures var path := PathOf(old(store.events), Unexpired(old(locks.locks), now), req, fault);
      && (path == MissingEvent ==> resp == EventNotFound && unchanged(locks, store, ledger))
      && (path == Rejected ==> resp == NotEnoughSeats && locks.locks == Unexpired(old(locks.locks), now))
      && (path == DecrementFault || path == InsertFault ==> resp == InternalError)
      && (path == GuardFailed ==> resp == NotEnoughSeats)
      && (path == Booked <==> resp.Created?)
      // the release on every exit that took a lock
      && (LockTaken(path) ==> locks.locks == WithoutHolder(Unexpired(old(locks.locks), now), req.eventId, user.id))
      // seats: taken exactly once from that event, never given back on a later failure
      && (SeatsTaken(path) ==> store.events == Reserved(old(store.events), req.eventId, req.quantity))
      && (!SeatsTaken(path) ==> store.events == old(store.events))
    ensures resp.Created? ==>
      && GetEventById(old(store.events), req.eventId).Some?
      && resp.totalAmount == GetEventById(old(store.events), req.eventId).value.price * req.quantity
      && (forall b :: b in old(ledger.bookings) ==> b.id < resp.bookingId)
      && ledger.bookings == old(ledger.bookings) + [Booking(resp.bookingId, req.eventId, user.id, req.name,
           req.email, req.mobile, req.quantity, resp.totalAmount, Confirmed, now)]
    ensures !resp.Created? ==> ledger.bookings == old(ledger.bookings)
  {
    var found := GetEventById(store.events, req.eventId);
    if found.None? {
      return EventNotFound;
    }
    resp := AdmitAndBook(locks, store, ledger, found.value, req, user, now, fault);
  }

  /** Steps 2 to 6 of `createNewBooking` once the event row was read: the
      admission check against the truly-available count, then the booking
      under a soft lock. */
  method AdmitAndBook(locks: LockTable, store: EventStore, ledger: BookingLedger, ev: Event,
                      req: BookingRequest, user: Requester, now: int, fault: Fault)
    returns (resp: BookingResponse)
    requires locks.Valid() && store.Valid() && ledger.Valid()
    requires GetEventById(store.events, req.eventId) == Some(ev)
    modifies locks, store, ledger
    ensures locks.Valid() && store.Valid() && ledger.Valid()
    ensures var path := PathOf(old(store.events), Unexpired(old(locks.locks), now), req, fault);
      && (path == Rejected ==> resp == NotEnoughSeats && locks.locks == Unexpired(old(locks.locks), now))
      && (path == DecrementFault || path == InsertFault ==> resp == InternalError)
      && (path == GuardFailed ==> resp == NotEnoughSeats)
      && (path == Booked <==> resp.Created?)
      && (LockTaken(path) ==> locks.locks == WithoutHolder(Unexpired(old(locks.locks), now), req.eventId, user.id))
      && (SeatsTaken(path) ==> store.events == Reserved(old(store.events), req.eventId, req.quantity))
      && (!SeatsTaken(path) ==> store.events == old(store.events))
    ensures resp.Created? ==>
      && resp.totalAmount == ev.price * req.quantity
      && (forall b :: b in old(ledger.bookings) ==> b.id < resp.bookingId)
      && ledger.bookings == old(ledger.bookings) + [Booking(resp.bookingId, req.eventId, user.id, req.name,
           req.email, req.mobile, req.quantity, resp.totalAmount, Confirmed, now)]
    ensures !resp.Created? ==> ledger.bookings == old(ledger.bookings)
  {
    ghost var path := PathOf(store.events, Unexpired(locks.locks, now), req, fault);
    var totalAmount := ev.price * req.quantity;
    var locked := locks.GetLockedSeats(req.eventId, now);
    ghost var swept := locks.locks;
    assert path == PathOf(store.events, swept, req, fault) != MissingEvent;
    if ev.availableSeats - locked < req.quantity {
      assert path == Rejected;
      return NotEnoughSeats;
    }
    SweepAbsorbs(old(locks.locks), now, now);
    resp := BookUnderLock(locks, store, ledger, ev, totalAmount, req, user, now, fault);
  }

  /** Steps 3 to 6 of `createNewBooking`: take the soft lock, run the
      guarded decrement and the insert, and release the (event, user) locks on
      every exit of that block, including the exits through an exception. */
  method BookUnderLock(locks: LockTable, store: EventStore, ledger: BookingLedger, ev: Event, totalAmount: int,
                       req: BookingRequest, user: Requester, now: int, fault: Fault)
    returns (resp: BookingResponse)
    requires locks.Valid() && store.Valid() && ledger.Valid()
    requires GetEventById(store.events, req.eventId) == Some(ev)
    requires locks.locks == Unexpired(locks.locks, now)
    requires Admits(ev, locks.locks, req.quantity)
    modifies locks, store, ledger
    ensures locks.Valid() && store.Valid() && ledger.Valid()
    ensures var path := PathOf(old(store.events), old(locks.locks), req, fault);
      && (path == DecrementFault || path == InsertFault ==> resp == InternalError)
      && (path == GuardFailed ==> resp == NotEnoughSeats)
      && (path == Booked <==> resp.Created?)
      && (SeatsTaken(path) ==> store.events == Reserved(old(store.events), req.eventId, req.quantity))
      && (!SeatsTaken(path) ==> store.events == old(store.events))
    ensures locks.locks == WithoutHolder(old(locks.locks), req.eventId, user.id)
    ensures resp.Created? ==>
      && resp.totalAmount == totalAmount
      && (forall b :: b in old(ledger.bookings) ==> b.id < resp.bookingId)
      && ledger.bookings == old(ledger.bookings) + [Booking(resp.bookingId, req.eventId, user.id, req.name,
           req.email, req.mobile, req.quantity, totalAmount, Confirmed, now)]
    ensures !resp.Created? ==> ledger.bookings == old(ledger.bookings)
  {
    ghost var swept := locks.locks;
    var lockId := locks.LockSeats(req.eventId, user.id, req.quantity, DefaultLockMinutes, now);
    ghost var lock := Lock(lockId, req.eventId, user.id, req.quantity, now + DefaultLockMinutes * MsPerMinute);
    ReleaseDropsNewLock(swept, lock, req.eventId, user.id);
    resp := TakeSeatsAndRecord(store, ledger, ev, totalAmount, req, user, now, fault);
    var released := locks.ReleaseSeats(req.eventId, user.id);
  }

  /** The block between taking the lock and releasing it: the guarded
      decrement, then the insert. A fault in either call ends the block with a
      500 and does not undo a decrement already made. */
  method TakeSeatsAndRecord(store: EventStore, ledger: BookingLedger, ev: Event, totalAmount: int,
                            req: BookingRequest, user: Requester, now: int, fault: Fault)
    returns (resp: BookingResponse)
    requires store.Valid() && ledger.Valid()
    requires GetEventById(store.events, req.eventId) == Some(ev)
    modifies store, ledger
    ensures store.Valid() && ledger.Valid()
    ensures fault == DecrementThrows ==> resp == InternalError && store.events == old(store.events)
    ensures fault != DecrementThrows && ev.availableSeats < req.quantity ==>
      resp == NotEnoughSeats && store.events == old(store.events)
    ensures fault != DecrementThrows && ev.availableSeats >= req.quantity ==>
      && store.events == Reserved(old(store.events), req.eventId, req.quantity)
      && (fault == InsertThrows ==> resp == InternalError)
      && (fault != InsertThrows ==> resp.Created?)
    ensures resp.Created? ==>
      && resp.totalAmount == totalAmount
      && (forall b :: b in old(ledger.bookings) ==> b.id < resp.bookingId)
      && ledger.bookings == old(ledger.bookings) + [Booking(resp.bookingId, req.eventId, user.id, req.name,
           req.email, req.mobile, req.quantity, totalAmount, Confirmed, now)]
    ensures !resp.Created? ==> ledger.bookings == old(ledger.bookings)
  {
    if fault == DecrementThrows {
      return InternalError;
    }
    var updated := store.UpdateAvailableSeats(req.eventId, req.quantity);
    if updated == 0 {
      ReservedNothing(old(store.events), req.eventId, req.quantity);
      return NotEnoughSeats;
    }
    if fault == InsertThrows {
      return InternalError;
    }
    var bookingId := ledger.CreateBooking(
      BookingData(req.eventId, user.id, req.name, req.email, req.mobile, req.quantity, totalAmount), now);
    resp := Created(bookingId, totalAmount);
  }

  /** A request with a quantity of zero or less is admitted and booked
      whenever the truly-available count is not negative and every active lock
      is non-negative: nothing rejects such a quantity. */
  lemma NonPositiveQuantityBooked(events: seq<Event>, swept: seq<Lock>, req: BookingRequest)
    requires GetEventById(events, req.eventId).Some?
    requires TrulyAvailable(GetEventById(events, req.eventId).value, swept) >= 0
    requires forall l :: l in swept ==> l.quantity >= 0
    requires req.quantity <= 0
    ensures PathOf(events, swept, req, NoFault) == Booked
  {
    AdmissionImpliesGuard(GetEventById(events, req.eventId).value, swept, req.quantity);
  }

  /** `getBooking`: the joined booking row, shown only to its owner or an admin. */
  function GetBooking(bookings: seq<Booking>, events: seq<Event>, id: nat, user: Requester): (r: ReadResponse)
    ensures r.ReadNotFound? <==> GetBookingById(bookings, events, id).None?
    ensures r.Found? ==> GetBookingById(bookings, events, id) == Some(r.row) && MayAccess(user, r.row.booking.userId)
    ensures r.ReadDenied? <==>
      GetBookingById(bookings, events, id).Some? && !MayAccess(user, GetBookingById(bookings, events, id).value.booking.userId)
  {
    match GetBookingById(bookings, events, id)
    case None => ReadNotFound
    case Some(row) => if MayAccess(user, row.booking.userId) then Found(row) else ReadDenied
  }

  /** What `cancelUserBooking` answers and leaves in the two tables. */
  datatype CancelOutcome = CancelOutcome(resp: CancelResponse, bookings: seq<Booking>, events: seq<Event>)

  /** The answer and the tables after a cancellation, given what the
      owner-or-admin read at its start returned. */
  function CancelEffect(bookings: seq<Booking>, events: seq<Event>, id: nat, read: ReadResponse): (out: CancelOutcome)
    ensures out.resp == CancelledOk <==> read.Found?
    ensures out.resp.Status() == read.Status()
    ensures !read.Found? ==> out.bookings == bookings && out.events == events
    ensures |out.bookings| == |bookings| && |out.events| == |events|
    ensures read.Found? ==> forall i :: 0 <= i < |events| && events[i].id != read.row.booking.eventId ==> out.events[i] == events[i]
  {
    match read
    case ReadNotFound => CancelOutcome(CancelNotFound, bookings, events)
    case ReadDenied => CancelOutcome(CancelDenied, bookings, events)
    case Found(row) =>
      CancelOutcome(CancelledOk, CancelledRows(bookings, id), Reserved(events, row.booking.eventId, -row.booking.quantity))
  }

  /** The answers of `cancelUserBooking`: 404 when no joined row has the id
      and 403 when the requester is neither its owner nor an admin, both
      leaving the tables as they were; otherwise the requester may access the
      booking, it is marked cancelled, and its seats go back as
      `CancelReturnsSeats` states. */
  lemma CancelOutcomeMeaning(bookings: seq<Booking>, events: seq<Event>, id: nat, user: Requester)
    ensures var out := CancelEffect(bookings, events, id, GetBooking(bookings, events, id, user));
      && (out.resp == CancelNotFound <==> GetBookingById(bookings, events, id).None?)
      && (out.resp == CancelDenied <==>
            GetBookingById(bookings, events, id).Some? && !MayAccess(user, GetBookingById(bookings, events, id).value.booking.userId))
      && (out.resp != CancelledOk ==> out.bookings == bookings && out.events == events)
      && (out.resp == CancelledOk ==>
            && GetBooking(bookings, events, id, user) == Found(GetBookingById(bookings, events, id).value)
            && MayAccess(user, GetBookingById(bookings, events, id).value.booking.userId)
            && out.bookings == CancelledRows(bookings, id))
  {
  }

  /** A cancellation that goes ahead gives the booking's quantity back to its
      event through the guarded update: the event's row gains the seats when
      that leaves its count at least 0 and is left as it was otherwise, and
      every other event is unchanged. */
  lemma CancelReturnsSeats(bookings: seq<Booking>, events: seq<Event>, id: nat, read: ReadResponse)
    requires read.Found?
    ensures SeatsReturned(events, CancelEffect(bookings, events, id, read).events,
      read.row.booking.eventId, read.row.booking.quantity)
  {
    ReturnedSeats(events, read.row.booking.eventId, read.row.booking.quantity);
  }

  /** `cancelUserBooking`: the owner-or-admin read, then, for a row that
      passes it, the cancellation and the return of its seats. */
  method CancelUserBooking(store: EventStore, ledger: BookingLedger, id: nat, user: Requester)
    returns (resp: CancelResponse)
    requires store.Valid() && ledger.Valid()
    modifies store, ledger
    ensures store.Valid() && ledger.Valid()
    ensures CancelOutcome(resp, ledger.bookings, store.events)
      == CancelEffect(old(ledger.bookings), old(store.events), id, GetBooking(old(ledger.bookings), old(store.events), id, user))
  {
    var read := GetBooking(ledger.bookings, store.events, id, user);
    match read
    case ReadNotFound => resp := CancelNotFound;
    case ReadDenied => resp := CancelDenied;
    case Found(row) => resp := CancelAndReturnSeats(store, ledger, id, read);
  }

  /** The state-changing half of `cancelUserBooking` for a row that was just
      read: mark the booking cancelled, whatever its status was, and when a
      row was affected give its quantity back through the guarded update with
      `-quantity`. */
  method CancelAndReturnSeats(store: EventStore, ledger: BookingLedger, id: nat, read: ReadResponse) returns (resp: CancelResponse)
    requires store.Valid() && ledger.Valid()
    requires read.Found? && read.row.booking in ledger.bookings && read.row.booking.id == id
    modifies store, ledger
    ensures store.Valid() && ledger.Valid()
    ensures CancelOutcome(resp, ledger.bookings, store.events) == CancelEffect(old(ledger.bookings), old(store.events), id, read)
  {
    var booking := read.row.booking;
    var affected := ledger.CancelBooking(booking.id);
    if affected == 0 {
      return CancelNotFound;
    }
    var returned := store.UpdateAvailableSeats(booking.eventId, -booking.quantity);
    resp := CancelledOk;
  }

  /** Nothing stops a second cancellation: after a successful cancel the same
      booking is still found and still belongs to the requester, so a second
      call passes both checks again and returns the seats once more. */
  lemma CancelAgainAccepted(bookings: seq<Booking>, events: seq<Event>, id: nat, user: Requester, row: BookingRow)
    requires IncreasingBy(bookings, BookingId)
    requires GetBookingById(bookings, events, id) == Some(row)
    requires MayAccess(user, row.booking.userId)
    ensures var after := GetBookingById(CancelledRows(bookings, id),
                                        Reserved(events, row.booking.eventId, -row.booking.quantity), id);
      && after.Some?
      && after.value.booking == row.booking.(status := Cancelled)
      && MayAccess(user, after.value.booking.userId)
  {
    var later := Reserved(events, row.booking.eventId, -row.booking.quantity);
    ReservedKeepsRows(events, row.booking.eventId, -row.booking.quantity, row.booking.eventId);
    CancelledStillReadable(bookings, events, later, id, row);
  }

}
