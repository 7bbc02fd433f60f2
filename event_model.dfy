/** The `events` table: creation with a full seat inventory, the filtered and
    ordered listings, the capacity edit that recomputes available seats, and
    the guarded seat update `available_seats = available_seats - q WHERE
    available_seats >= q`. */
module EventModel {
  import opened Common
  import opened Seqs
  import opened Text

  /** A row of `events`. Dates are millisecond timestamps, prices integer cents. */
  datatype Event = Event(
    id: nat,
    title: string,
    description: string,
    location: string,
    date: int,
    totalSeats: int,
    availableSeats: int,
    price: int,
    imageUrl: string,
    createdBy: Option<nat>,
    createdAt: int)

  /** The fields a create or update request supplies. */
  datatype EventData = EventData(
    title: string,
    description: string,
    location: string,
    date: int,
    totalSeats: int,
    price: int,
    imageUrl: string)

  /** The filters of `getAllEvents`. As in JavaScript, an empty string is an
      absent filter; `day` is a calendar day number. */
  datatype EventFilters = EventFilters(location: string, day: Option<int>, search: string)

  /** One `AND ...` clause that `getAllEvents` appends to its query. */
  datatype Condition =
    | LocationLike(pattern: string)             // location LIKE '%pattern%'
    | OnDay(day: int)                           // DATE(date) = day
    | TitleOrDescriptionLike(pattern: string)   // (title LIKE ... OR description LIKE ...)

  /** The committed-seat range every event is meant to keep. */
  predicate SeatsInRange(e: Event)
  {
    0 <= e.availableSeats <= e.totalSeats
  }

  function EventId(e: Event): int { e.id }
  function DateKey(e: Event): int { e.date }
  function NewestFirst(e: Event): int { -e.createdAt }

  predicate Holds(c: Condition, e: Event)
  {
    match c
    case LocationLike(p) => Contains(e.location, p)
    case OnDay(d) => Day(e.date) == d
    case TitleOrDescriptionLike(p) => Contains(e.title, p) || Contains(e.description, p)
  }

  predicate HoldsAll(conds: seq<Condition>, e: Event)
  {
    forall c :: c in conds ==> Holds(c, e)
  }

  /** What `getAllEvents` promises of a kept event: each filter that is
      present matches, and absent filters do not restrict. */
  predicate MatchesFilters(f: EventFilters, e: Event)
  {
    && (f.location != "" ==> Contains(e.location, f.location))
    && (f.day.Some? ==> Day(e.date) == f.day.value)
    && (f.search != "" ==> Contains(e.title, f.search) || Contains(e.description, f.search))
  }

  /** The query built clause by clause, one clause per present filter. */
  function BuildConditions(f: EventFilters): (conds: seq<Condition>)
    ensures |conds| <= 3
    ensures forall e :: HoldsAll(conds, e) <==> MatchesFilters(f, e)
  {
    var byLocation := if f.location != "" then [LocationLike(f.location)] else [];
    var byDay := byLocation + if f.day.Some? then [OnDay(f.day.value)] else [];
    var bySearch := if f.search != "" then [TitleOrDescriptionLike(f.search)] else [];
    ConditionsMeaning(f, byLocation, byDay, bySearch);
    byDay + bySearch
  }

  lemma ConditionsMeaning(f: EventFilters, byLocation: seq<Condition>, byDay: seq<Condition>, bySearch: seq<Condition>)
    requires byLocation == if f.location != "" then [LocationLike(f.location)] else []
    requires byDay == byLocation + if f.day.Some? then [OnDay(f.day.value)] else []
    requires bySearch == if f.search != "" then [TitleOrDescriptionLike(f.search)] else []
    ensures forall e :: HoldsAll(byDay + bySearch, e) <==> MatchesFilters(f, e)
  {
    forall e ensures HoldsAll(byDay + bySearch, e) <==> MatchesFilters(f, e) {
      var all := byDay + bySearch;
      assert f.location != "" ==> LocationLike(f.location) in all;
      assert f.day.Some? ==> OnDay(f.day.value) in all;
      assert f.search != "" ==> TitleOrDescriptionLike(f.search) in all;
      assert forall c :: c in all ==> c == LocationLike(f.location) || (f.day.Some? && c == OnDay(f.day.value)) || c == TitleOrDescriptionLike(f.search);
    }
  }

  /** The rows the `WHERE 1=1 AND ...` query selects, in table order. */
  function Selected(rows: seq<Event>, f: EventFilters): (r: seq<Event>)
    ensures forall e :: e in r <==> e in rows && MatchesFilters(f, e)
  {
    var conds := BuildConditions(f);
    Filter(rows, e => HoldsAll(conds, e))
  }

  /** `getAllEvents`: the selected rows, ordered by date ascending. */
  function GetAllEvents(rows: seq<Event>, f: EventFilters): (r: seq<Event>)
    ensures SortedBy(r, DateKey)
    ensures multiset(r) == multiset(Selected(rows, f))
    ensures forall e :: e in r <==> e in rows && MatchesFilters(f, e)
  {
    SortByMembers(Selected(rows, f), DateKey);
    SortBy(Selected(rows, f), DateKey)
  }

  /** `getEventById`: the row with that id, if any. */
  function GetEventById(rows: seq<Event>, id: nat): (r: Option<Event>)
    ensures r.Some? ==> r.value in rows && r.value.id == id
    ensures r.None? <==> forall e :: e in rows ==> e.id != id
  {
    FindFirst(rows, (e: Event) => e.id == id)
  }

  /** `getEventsByAdminId`: the events the admin created, newest first. */
  function GetEventsByAdminId(rows: seq<Event>, adminId: nat): (r: seq<Event>)
    ensures SortedBy(r, NewestFirst)
    ensures forall e :: e in r <==> e in rows && e.createdBy == Some(adminId)
    ensures forall e :: e in r ==> multiset(r)[e] == multiset(rows)[e]
  {
    var mine := Filter(rows, (e: Event) => e.createdBy == Some(adminId));
    SortByMembers(mine, NewestFirst);
    FilterCount(rows, (e: Event) => e.createdBy == Some(adminId));
    SortBy(mine, NewestFirst)
  }

  /** The available count `updateEvent` stores when the capacity changes from
      `oldTotal` to `newTotal`: the number of taken seats is kept, except that
      a shrink never leaves the available count below 0. */
  function RecomputeAvailable(available: int, oldTotal: int, newTotal: int): (r: int)
    ensures newTotal >= oldTotal ==> newTotal - r == oldTotal - available
    ensures newTotal < oldTotal ==> r == 0 || newTotal - r == oldTotal - available
    ensures newTotal < oldTotal ==> r >= 0
    ensures newTotal < oldTotal ==> r >= available - (oldTotal - newTotal)
    ensures available >= 0 ==> r >= 0
    ensures 0 <= available <= oldTotal && newTotal >= 0 ==> r <= newTotal
  {
    if newTotal > oldTotal then available + (newTotal - oldTotal)
    else if newTotal < oldTotal then
      var lowered := available - (oldTotal - newTotal);
      if lowered > 0 then lowered else 0
    else available
  }

  /** The row `updateEvent` writes: every editable column from the request,
      the recomputed available count, and id, owner and creation time kept. */
  function Edited(cur: Event, data: EventData): (r: Event)
    ensures r.id == cur.id && r.createdBy == cur.createdBy && r.createdAt == cur.createdAt
    ensures r.totalSeats == data.totalSeats
    ensures r.availableSeats == RecomputeAvailable(cur.availableSeats, cur.totalSeats, data.totalSeats)
    ensures r.title == data.title && r.description == data.description && r.location == data.location
    ensures r.date == data.date && r.price == data.price && r.imageUrl == data.imageUrl
    ensures SeatsInRange(cur) && data.totalSeats >= 0 ==> SeatsInRange(r)
  {
    Event(cur.id, data.title, data.description, data.location, data.date, data.totalSeats,
          RecomputeAvailable(cur.availableSeats, cur.totalSeats, data.totalSeats),
          data.price, data.imageUrl, cur.createdBy, cur.createdAt)
  }

  /** The guarded update on one row: `available_seats >= q` decides whether
      the row changes. */
  function Reserve(e: Event, q: int): (r: Option<Event>)
    ensures r.Some? <==> e.availableSeats >= q
    ensures r.Some? ==> r.value == e.(availableSeats := r.value.availableSeats)
    ensures r.Some? ==> e.availableSeats - r.value.availableSeats == q
    ensures q >= 0 && r.Some? ==> r.value.availableSeats >= 0
    ensures q >= 0 && SeatsInRange(e) && r.Some? ==> SeatsInRange(r.value)
    ensures q < 0 && e.availableSeats >= 0 ==> r.Some? && r.value.availableSeats > e.availableSeats
  {
    if e.availableSeats >= q then Some(e.(availableSeats := e.availableSeats - q)) else None
  }

  /** The table after `updateAvailableSeats(id, q)`. */
  function Reserved(rows: seq<Event>, id: nat, q: int): (r: seq<Event>)
    ensures |r| == |rows|
    ensures forall i :: 0 <= i < |rows| && rows[i].id != id ==> r[i] == rows[i]
    ensures forall i :: 0 <= i < |rows| && rows[i].id == id ==>
      r[i] == if Reserve(rows[i], q).Some? then Reserve(rows[i], q).value else rows[i]
    ensures q >= 0 ==> forall i :: 0 <= i < |rows| && rows[i].availableSeats >= 0 ==> r[i].availableSeats >= 0
  {
    seq(|rows|, i requires 0 <= i < |rows| =>
      if rows[i].id == id && rows[i].availableSeats >= q then rows[i].(availableSeats := rows[i].availableSeats - q)
      else rows[i])
  }

  /** The table after `updateEvent(id, data)`. */
  function EditedRows(rows: seq<Event>, id: nat, data: EventData): (r: seq<Event>)
    ensures |r| == |rows|
    ensures forall i :: 0 <= i < |rows| && rows[i].id != id ==> r[i] == rows[i]
    ensures forall i :: 0 <= i < |rows| && rows[i].id == id ==> r[i] == Edited(rows[i], data)
  {
    seq(|rows|, i requires 0 <= i < |rows| => if rows[i].id == id then Edited(rows[i], data) else rows[i])
  }

  /** The table after `deleteEvent(id)`. */
  function WithoutEvent(rows: seq<Event>, id: nat): (r: seq<Event>)
    ensures forall e :: e in r <==> e in rows && e.id != id
  {
    Filter(rows, (e: Event) => e.id != id)
  }

  /** A negative quantity passes the guard on any row with a non-negative
      count and pushes the available count past the capacity. */
  lemma NegativeQuantityExceedsCapacity(e: Event, q: int)
    requires SeatsInRange(e) && e.availableSeats == e.totalSeats
    requires q < 0
    ensures Reserve(e, q).Some?
    ensures Reserve(e, q).value.availableSeats > Reserve(e, q).value.totalSeats
  {
  }

  /** The `events` table with its auto-increment counter. */
  class EventStore {
    var events: seq<Event>
    var nextId: nat

    /** Ids are increasing in insertion order and below the next id. */
    ghost predicate Valid()
      reads this
    {
      && IncreasingBy(events, EventId)
      && (forall e :: e in events ==> e.id < nextId)
    }

    constructor ()
      ensures Valid() && events == [] && nextId == 1
    {
      events := [];
      nextId := 1;
    }

    /** `createEvent`: inserts the event with every seat available. */
    method CreateEvent(data: EventData, createdBy: Option<nat>, now: int) returns (id: nat)
      requires Valid()
      modifies this
      ensures Valid()
      ensures forall e :: e in old(events) ==> e.id < id
      ensures events == old(events) + [Event(id, data.title, data.description, data.location, data.date,
        data.totalSeats, data.totalSeats, data.price, data.imageUrl, createdBy, now)]
      ensures data.totalSeats >= 0 ==> SeatsInRange(events[|events| - 1])
    {
      id := nextId;
      var row := Event(id, data.title, data.description, data.location, data.date,
        data.totalSeats, data.totalSeats, data.price, data.imageUrl, createdBy, now);
      ghost var before := events;
      events := events + [row];
      nextId := nextId + 1;
      forall i, j | 0 <= i < j < |events| ensures EventId(events[i]) < EventId(events[j]) {
        if j == |events| - 1 {
          assert events[i] in before;
        } else {
          assert events[i] == before[i] && events[j] == before[j];
        }
      }
    }

    /** `updateEvent`: reads the current row first; with no row, reading its
        `total_seats` throws before any `UPDATE` runs. Otherwise the row is
        rewritten and one row is reported. */
    method UpdateEvent(id: nat, data: EventData) returns (r: Option<nat>)
      requires Valid()
      modifies this
      ensures Valid() && nextId == old(nextId)
      ensures r.None? <==> GetEventById(old(events), id).None?
      ensures r.None? ==> events == old(events)
      ensures r.Some? ==> r.value == 1 && events == EditedRows(old(events), id, data)
    {
      var current := GetEventById(events, id);
      if current.None? {
        return None;
      }
      ghost var before := events;
      events := EditedRows(events, id, data);
      SameIds(before, events);
      SameIdsBelow(before, events, nextId);
      r := Some(1);
    }

    /** `deleteEvent`: removes the row with that id; reports 1, or 0 when absent. */
    method DeleteEvent(id: nat) returns (affected: nat)
      requires Valid()
      modifies this
      ensures Valid() && nextId == old(nextId)
      ensures events == WithoutEvent(old(events), id)
      ensures affected == 1 <==> GetEventById(old(events), id).Some?
      ensures affected <= 1
    {
      affected := if GetEventById(events, id).Some? then 1 else 0;
      FilterKeepsIncreasing(events, (e: Event) => e.id != id, EventId);
      events := WithoutEvent(events, id);
    }

    /** `updateAvailableSeats(id, q)`: the guarded decrement. Reports 1 when
        the row exists and has at least `q` seats available, 0 otherwise. */
    method UpdateAvailableSeats(id: nat, q: int) returns (affected: nat)
      requires Valid()
      modifies this
      ensures Valid() && nextId == old(nextId)
      ensures events == Reserved(old(events), id, q)
      ensures affected == 1 <==> GetEventById(old(events), id).Some? && GetEventById(old(events), id).value.availableSeats >= q
      ensures affected <= 1
    {
      var current := GetEventById(events, id);
      affected := if current.Some? && current.value.availableSeats >= q then 1 else 0;
      ghost var before := events;
      events := Reserved(events, id, q);
      SameIds(before, events);
      SameIdsBelow(before, events, nextId);
    }
  }

  /** With unique ids, the row `getEventById` finds is the one at its index. */
  lemma UniqueRow(rows: seq<Event>, i: int)
    requires IncreasingBy(rows, EventId)
    requires 0 <= i < |rows|
    ensures GetEventById(rows, rows[i].id) == Some(rows[i])
  {
    var r := GetEventById(rows, rows[i].id);
    forall j | 0 <= j < |rows| && j != i ensures rows[j].id != rows[i].id {
      if j < i {
        assert EventId(rows[j]) < EventId(rows[i]);
      } else {
        assert EventId(rows[i]) < EventId(rows[j]);
      }
    }
  }

  /** A guarded update that the guard refuses changes no row. */
  lemma ReservedNothing(rows: seq<Event>, id: nat, q: int)
    requires IncreasingBy(rows, EventId)
    requires GetEventById(rows, id).None? || GetEventById(rows, id).value.availableSeats < q
    ensures Reserved(rows, id, q) == rows
  {
    var r := Reserved(rows, id, q);
    forall i | 0 <= i < |rows| ensures r[i] == rows[i] {
      if rows[i].id == id {
        UniqueRow(rows, i);
      }
    }
  }

  /** After a guarded update the guard admits, the row with that id is the old
      row with `q` fewer seats available, and ids stay increasing. */
  lemma ReservedRow(rows: seq<Event>, i: int, q: int)
    requires IncreasingBy(rows, EventId)
    requires 0 <= i < |rows| && rows[i].availableSeats >= q
    ensures IncreasingBy(Reserved(rows, rows[i].id, q), EventId)
    ensures GetEventById(Reserved(rows, rows[i].id, q), rows[i].id)
         == Some(rows[i].(availableSeats := rows[i].availableSeats - q))
  {
    ReservedKeepsIds(rows, rows[i].id, q);
    UniqueRow(Reserved(rows, rows[i].id, q), i);
  }

  /** `after` is `before` with `q` seats given back to event `id`: each of its
      rows gains `q` available seats when that leaves the count at least 0 and
      is kept as it was otherwise; every other row is kept. */
  ghost predicate SeatsReturned(before: seq<Event>, after: seq<Event>, id: nat, q: int)
  {
    && |after| == |before|
    && (forall i :: 0 <= i < |before| && before[i].id == id ==>
          after[i] == if before[i].availableSeats + q >= 0
            then before[i].(availableSeats := before[i].availableSeats + q)
            else before[i])
    && (forall i :: 0 <= i < |before| && before[i].id != id ==> after[i] == before[i])
  }

  /** The guarded update with `-q` gives `q` seats back in exactly that way. */
  lemma ReturnedSeats(rows: seq<Event>, id: nat, q: int)
    ensures SeatsReturned(rows, Reserved(rows, id, -q), id, q)
  {
    forall i | 0 <= i < |rows| && rows[i].id == id
      ensures Reserved(rows, id, -q)[i] == if rows[i].availableSeats + q >= 0
        then rows[i].(availableSeats := rows[i].availableSeats + q)
        else rows[i]
    {
      ReturnedRow(rows, i, q);
    }
  }

  /** Returning `q` seats through the guarded update with `-q`: the row gains
      `q` available seats when that leaves the count at least 0, and is left
      as it was otherwise. */
  lemma ReturnedRow(rows: seq<Event>, i: int, q: int)
    requires 0 <= i < |rows|
    ensures Reserved(rows, rows[i].id, -q)[i] == if rows[i].availableSeats + q >= 0
      then rows[i].(availableSeats := rows[i].availableSeats + q)
      else rows[i]
  {
    var e := rows[i];
    if e.availableSeats + q >= 0 {
      var v := Reserve(e, -q).value;
      assert v == e.(availableSeats := v.availableSeats);
    }
  }

  /** A guarded update changes no id, so every event it could find before it
      finds after it. */
  lemma ReservedKeepsRows(rows: seq<Event>, id: nat, q: int, x: nat)
    requires GetEventById(rows, x).Some?
    ensures GetEventById(Reserved(rows, id, q), x).Some?
  {
    var k :| 0 <= k < |rows| && rows[k] == GetEventById(rows, x).value;
    assert Reserved(rows, id, q)[k] in Reserved(rows, id, q);
  }

  /** Returning `q` seats twice through the guarded update with `-q` raises a
      non-negative available count by `2 * q`: the guard lets both through. */
  lemma ReturnedTwice(rows: seq<Event>, i: int, q: int)
    requires IncreasingBy(rows, EventId)
    requires 0 <= i < |rows| && rows[i].availableSeats >= 0 && q >= 0
    ensures GetEventById(Reserved(Reserved(rows, rows[i].id, -q), rows[i].id, -q), rows[i].id)
         == Some(rows[i].(availableSeats := rows[i].availableSeats + 2 * q))
  {
    var id := rows[i].id;
    var once := Reserved(rows, id, -q);
    ReservedKeepsIds(rows, id, -q);
    var twice := Reserved(once, id, -q);
    ReservedKeepsIds(once, id, -q);
    assert twice[i] == rows[i].(availableSeats := rows[i].availableSeats + 2 * q) by {
      assert once[i] == rows[i].(availableSeats := rows[i].availableSeats + q);
    }
    UniqueRow(twice, i);
  }

  /** A rewrite that keeps every row's id in place keeps ids increasing. */
  lemma SameIds(before: seq<Event>, after: seq<Event>)
    requires |after| == |before|
    requires forall k :: 0 <= k < |before| ==> after[k].id == before[k].id
    requires IncreasingBy(before, EventId)
    ensures IncreasingBy(after, EventId)
  {
    forall j, k | 0 <= j < k < |after| ensures EventId(after[j]) < EventId(after[k]) {
      assert EventId(before[j]) < EventId(before[k]);
    }
  }

  /** ... and keeps every id below the same bound. */
  lemma SameIdsBelow(before: seq<Event>, after: seq<Event>, bound: int)
    requires |after| == |before|
    requires forall k :: 0 <= k < |before| ==> after[k].id == before[k].id
    requires forall e :: e in before ==> e.id < bound
    ensures forall e :: e in after ==> e.id < bound
  {
    forall e | e in after ensures e.id < bound {
      var k :| 0 <= k < |after| && after[k] == e;
      assert before[k] in before;
    }
  }

  /** The guarded update changes no id, so it keeps ids increasing. */
  lemma ReservedKeepsIds(rows: seq<Event>, id: nat, q: int)
    requires IncreasingBy(rows, EventId)
    ensures forall k :: 0 <= k < |rows| ==> Reserved(rows, id, q)[k].id == rows[k].id
    ensures IncreasingBy(Reserved(rows, id, q), EventId)
  {
    SameIds(rows, Reserved(rows, id, q));
  }

  /** After `updateEvent` on an existing row, that row is the edited one and
      ids stay increasing. */
  lemma EditedRow(rows: seq<Event>, i: int, data: EventData)
    requires IncreasingBy(rows, EventId)
    requires 0 <= i < |rows|
    ensures IncreasingBy(EditedRows(rows, rows[i].id, data), EventId)
    ensures GetEventById(EditedRows(rows, rows[i].id, data), rows[i].id) == Some(Edited(rows[i], data))
  {
    var r := EditedRows(rows, rows[i].id, data);
    SameIds(rows, r);
    UniqueRow(r, i);
  }
}
