/** The `bookings` table: inserting a booking, flipping its status to
    cancelled, and the three readers, which inner-join the booking with its
    event (and, for the admin listing, with its user). */
module BookingModel {
  import opened Common
  import opened Seqs
  import opened EventModel

  /** A row of `bookings`. New rows are `Confirmed` and stamped with the
      insertion time (the table's column defaults). */
  datatype Booking = Booking(
    id: nat,
    eventId: nat,
    userId: nat,
    name: string,
    email: string,
    mobile: string,
    quantity: int,
    totalAmount: int,
    status: Status,
    bookingDate: int)

  /** The columns `createBooking` inserts. */
  datatype BookingData = BookingData(
    eventId: nat,
    userId: nat,
    name: string,
    email: string,
    mobile: string,
    quantity: int,
    totalAmount: int)

  /** `b.*, e.title, e.location, e.date` of the user-facing readers. */
  datatype BookingRow = BookingRow(booking: Booking, title: string, location: string, date: int)

  /** `b.*, e.title, u.name AS user_name` of the admin listing. */
  datatype AdminBookingRow = AdminBookingRow(booking: Booking, title: string, userName: string)

  function BookingId(b: Booking): int { b.id }
  function NewestRowFirst(x: BookingRow): int { -x.booking.bookingDate }
  function NewestAdminRowFirst(x: AdminBookingRow): int { -x.booking.bookingDate }

  /** `bookings b JOIN events e ON b.event_id = e.id` for one booking. */
  function JoinEvent(b: Booking, events: seq<Event>): (r: Option<BookingRow>)
    ensures r.Some? <==> GetEventById(events, b.eventId).Some?
    ensures r.Some? ==> r.value.booking == b
  {
    match GetEventById(events, b.eventId)
    case None => None
    case Some(e) => Some(BookingRow(b, e.title, e.location, e.date))
  }

  /** The inner join of every booking with its event, in table order; a
      booking whose event row is gone yields no row. */
  function JoinedRows(bookings: seq<Booking>, events: seq<Event>): (r: seq<BookingRow>)
    ensures forall x :: x in r <==> x.booking in bookings && JoinEvent(x.booking, events) == Some(x)
  {
    if bookings == [] then [] else JoinedOne(bookings[0], events) + JoinedRows(bookings[1..], events)
  }

  /** The rows the join yields for one booking: none or one. */
  function JoinedOne(b: Booking, events: seq<Event>): (r: seq<BookingRow>)
    ensures forall x :: x in r <==> JoinEvent(b, events) == Some(x)
  {
    match JoinEvent(b, events)
    case None => []
    case Some(x) => [x]
  }

  /** `getBookingsByUserId`: that user's joined bookings, newest first. */
  function GetBookingsByUserId(bookings: seq<Booking>, events: seq<Event>, userId: nat): (r: seq<BookingRow>)
    ensures SortedBy(r, NewestRowFirst)
    ensures forall x :: x in r <==>
      x.booking in bookings && x.booking.userId == userId && JoinEvent(x.booking, events) == Some(x)
    ensures forall x :: x in r ==> multiset(r)[x] == multiset(bookings)[x.booking]
  {
    var mine := Filter(JoinedRows(bookings, events), (x: BookingRow) => x.booking.userId == userId);
    SortByMembers(mine, NewestRowFirst);
    FilterCount(JoinedRows(bookings, events), (x: BookingRow) => x.booking.userId == userId);
    JoinedCount(bookings, events);
    SortBy(mine, NewestRowFirst)
  }

  /** `getBookingById`: the joined row of the booking with that id, if the
      booking and its event both exist. */
  function GetBookingById(bookings: seq<Booking>, events: seq<Event>, id: nat): (r: Option<BookingRow>)
    ensures r.Some? ==> r.value.booking in bookings && r.value.booking.id == id
    ensures r.Some? ==> JoinEvent(r.value.booking, events) == r
    ensures r.None? <==> forall b :: b in bookings && b.id == id ==> GetEventById(events, b.eventId).None?
  {
    var r := FindFirst(JoinedRows(bookings, events), (x: BookingRow) => x.booking.id == id);
    assert forall b :: b in bookings && b.id == id && GetEventById(events, b.eventId).Some? ==> r.Some? by {
      forall b | b in bookings && b.id == id && GetEventById(events, b.eventId).Some? ensures r.Some? {
        var x := JoinEvent(b, events).value;
        assert x in JoinedRows(bookings, events) && x.booking.id == id;
      }
    }
    r
  }

  /** `getAllBookings`: every booking whose event and user both exist, with the
      event title and the user name, newest first. `users` maps user ids to names. */
  function GetAllBookings(bookings: seq<Booking>, events: seq<Event>, users: map<nat, string>): (r: seq<AdminBookingRow>)
    ensures SortedBy(r, NewestAdminRowFirst)
    ensures forall x :: x in r ==>
      && x.booking in bookings && x.booking.userId in users
      && x.userName == users[x.booking.userId]
      && JoinEvent(x.booking, events).Some? && x.title == JoinEvent(x.booking, events).value.title
    ensures forall b :: b in bookings && b.userId in users && GetEventById(events, b.eventId).Some? ==>
      AdminBookingRow(b, GetEventById(events, b.eventId).value.title, users[b.userId]) in r
    ensures forall x :: x in r ==> multiset(r)[x] == multiset(bookings)[x.booking]
  {
    var rows := WithUsers(JoinedRows(bookings, events), users);
    SortByMembers(rows, NewestAdminRowFirst);
    AdminRowCount(bookings, events, users);
    assert forall b :: b in bookings && b.userId in users && GetEventById(events, b.eventId).Some? ==>
      JoinEvent(b, events).value in JoinedRows(bookings, events);
    SortBy(rows, NewestAdminRowFirst)
  }

  /** The second inner join, `JOIN users u ON b.user_id = u.id`. */
  function WithUsers(rows: seq<BookingRow>, users: map<nat, string>): (r: seq<AdminBookingRow>)
    ensures forall x :: x in r ==>
      && x.booking.userId in users && x.userName == users[x.booking.userId]
      && exists y :: y in rows && y.booking == x.booking && y.title == x.title
    ensures forall y :: y in rows && y.booking.userId in users ==>
      AdminBookingRow(y.booking, y.title, users[y.booking.userId]) in r
  {
    if rows == [] then []
    else
      var y := rows[0];
      var head := if y.booking.userId in users then [AdminBookingRow(y.booking, y.title, users[y.booking.userId])] else [];
      head + WithUsers(rows[1..], users)
  }

  /** The inner join yields one row per booking that has an event: a joined
      row occurs as often as its booking does in the table. */
  lemma {:induction false} JoinedCount(bookings: seq<Booking>, events: seq<Event>)
    ensures forall x: BookingRow :: JoinEvent(x.booking, events) == Some(x) ==>
      multiset(JoinedRows(bookings, events))[x] == multiset(bookings)[x.booking]
  {
    if bookings != [] {
      JoinedCount(bookings[1..], events);
      assert bookings == [bookings[0]] + bookings[1..];
      var b := bookings[0];
      forall x: BookingRow | JoinEvent(x.booking, events) == Some(x)
        ensures multiset(JoinedOne(b, events))[x] == multiset([b])[x.booking]
      {
        if b == x.booking {
          assert JoinedOne(b, events) == [x];
        } else if JoinEvent(b, events).Some? {
          assert JoinedOne(b, events) == [JoinEvent(b, events).value];
        }
      }
    }
  }

  /** The user join distributes over concatenation. */
  lemma {:induction false} WithUsersConcat(a: seq<BookingRow>, b: seq<BookingRow>, users: map<nat, string>)
    ensures WithUsers(a + b, users) == WithUsers(a, users) + WithUsers(b, users)
  {
    if a != [] {
      assert (a + b)[0] == a[0] && (a + b)[1..] == a[1..] + b;
      WithUsersConcat(a[1..], b, users);
    } else {
      assert a + b == b;
    }
  }

  /** An admin listing row that the two joins can produce: its booking's
      event and user exist and it carries their title and name. */
  predicate Listable(x: AdminBookingRow, events: seq<Event>, users: map<nat, string>)
  {
    && x.booking.userId in users && x.userName == users[x.booking.userId]
    && JoinEvent(x.booking, events).Some? && x.title == JoinEvent(x.booking, events).value.title
  }

  /** The two inner joins yield one row per booking whose event and user both
      exist: such a row occurs as often as its booking does in the table. */
  lemma {:induction false} AdminRowCount(bookings: seq<Booking>, events: seq<Event>, users: map<nat, string>)
    ensures forall x :: Listable(x, events, users) ==>
      multiset(WithUsers(JoinedRows(bookings, events), users))[x] == multiset(bookings)[x.booking]
  {
    if bookings != [] {
      AdminRowCount(bookings[1..], events, users);
      WithUsersConcat(JoinedOne(bookings[0], events), JoinedRows(bookings[1..], events), users);
      OneAdminRowCount(bookings[0], events, users);
      assert bookings == [bookings[0]] + bookings[1..];
    }
  }

  /** One booking yields its listable row once and no other row. */
  lemma OneAdminRowCount(b: Booking, events: seq<Event>, users: map<nat, string>)
    ensures forall x :: Listable(x, events, users) ==>
      multiset(WithUsers(JoinedOne(b, events), users))[x] == multiset([b])[x.booking]
  {
    var h := WithUsers(JoinedOne(b, events), users);
    forall x | Listable(x, events, users) ensures multiset(h)[x] == multiset([b])[x.booking] {
      if JoinEvent(b, events).Some? {
        var y := JoinEvent(b, events).value;
        assert JoinedOne(b, events) == [y];
        WithUsersSingle(y, users);
      } else {
        assert JoinedOne(b, events) == [];
      }
    }
  }

  lemma WithUsersSingle(y: BookingRow, users: map<nat, string>)
    ensures WithUsers([y], users) ==
      if y.booking.userId in users then [AdminBookingRow(y.booking, y.title, users[y.booking.userId])] else []
  {
    assert [y][1..] == [];
  }

  /** The table after `UPDATE bookings SET status = "cancelled" WHERE id = ?`. */
  function CancelledRows(bookings: seq<Booking>, id: nat): (r: seq<Booking>)
    ensures |r| == |bookings|
    ensures forall i :: 0 <= i < |bookings| && bookings[i].id != id ==> r[i] == bookings[i]
    ensures forall i :: 0 <= i < |bookings| && bookings[i].id == id ==> r[i] == bookings[i].(status := Cancelled)
  {
    seq(|bookings|, i requires 0 <= i < |bookings| =>
      if bookings[i].id == id then bookings[i].(status := Cancelled) else bookings[i])
  }

  /** Cancelling the same booking twice leaves the table as cancelling it once. */
  lemma CancelTwiceSameTable(bookings: seq<Booking>, id: nat)
    ensures CancelledRows(CancelledRows(bookings, id), id) == CancelledRows(bookings, id)
  {
    var once := CancelledRows(bookings, id);
    var twice := CancelledRows(once, id);
    assert |twice| == |once|;
    forall i | 0 <= i < |once| ensures twice[i] == once[i] {
      if bookings[i].id == id {
        assert once[i].id == id;
      }
    }
  }

  /** A cancelled booking can still be read by id, as long as its event row is
      still there: the readers do not look at the status. */
  lemma CancelledStillReadable(bookings: seq<Booking>, events: seq<Event>, later: seq<Event>, id: nat, row: BookingRow)
    requires IncreasingBy(bookings, BookingId)
    requires GetBookingById(bookings, events, id) == Some(row)
    requires GetEventById(later, row.booking.eventId).Some?
    ensures GetBookingById(CancelledRows(bookings, id), later, id).Some?
    ensures GetBookingById(CancelledRows(bookings, id), later, id).value.booking == row.booking.(status := Cancelled)
  {
    var k :| 0 <= k < |bookings| && bookings[k] == row.booking;
    var c := CancelledRows(bookings, id);
    assert c[k] == row.booking.(status := Cancelled);
    assert c[k] in c;
    var found := GetBookingById(c, later, id);
    assert found.Some?;
    var m :| 0 <= m < |c| && c[m] == found.value.booking;
    assert c[m].id == bookings[m].id;
    if m != k {
      IncreasingIsUnique(bookings, BookingId, m, k);
    }
  }

  /** The `bookings` table with its auto-increment counter. */
  class BookingLedger {
    var bookings: seq<Booking>
    var nextId: nat

    ghost predicate Valid()
      reads this
    {
      && IncreasingBy(bookings, BookingId)
      && (forall b :: b in bookings ==> b.id < nextId)
    }

    constructor ()
      ensures Valid() && bookings == [] && nextId == 1
    {
      bookings := [];
      nextId := 1;
    }

    /** `createBooking`: inserts one confirmed booking with exactly the given
        columns and returns its fresh id; no event row is touched. */
    method CreateBooking(data: BookingData, now: int) returns (id: nat)
      requires Valid()
      modifies this
      ensures Valid()
      ensures forall b :: b in old(bookings) ==> b.id < id
      ensures bookings == old(bookings) + [Booking(id, data.eventId, data.userId, data.name, data.email,
        data.mobile, data.quantity, data.totalAmount, Confirmed, now)]
    {
      id := nextId;
      var row := Booking(id, data.eventId, data.userId, data.name, data.email,
        data.mobile, data.quantity, data.totalAmount, Confirmed, now);
      ghost var before := bookings;
      bookings := bookings + [row];
      nextId := nextId + 1;
      forall i, j | 0 <= i < j < |bookings| ensures BookingId(bookings[i]) < BookingId(bookings[j]) {
        if j == |bookings| - 1 {
          assert bookings[i] in before;
        } else {
          assert bookings[i] == before[i] && bookings[j] == before[j];
        }
      }
    }

    /** `cancelBooking`: marks the booking cancelled whatever its status was;
        reports 1 if it exists and 0 otherwise. */
    method CancelBooking(id: nat) returns (affected: nat)
      requires Valid()
      modifies this
      ensures Valid() && nextId == old(nextId)
      ensures bookings == CancelledRows(old(bookings), id)
      ensures affected == 1 <==> exists b :: b in old(bookings) && b.id == id
      ensures affected <= 1
    {
      affected := if FindFirst(bookings, (b: Booking) => b.id == id).Some? then 1 else 0;
      ghost var before := bookings;
      bookings := CancelledRows(bookings, id);
      assert forall i :: 0 <= i < |bookings| ==> bookings[i].id == before[i].id;
      forall b | b in bookings ensures b.id < nextId {
        var i :| 0 <= i < |bookings| && bookings[i] == b;
        assert before[i] in before;
      }
    }
  }
}
