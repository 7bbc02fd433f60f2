/** The event endpoints: the read paths, which decorate every event they
    return with `truly_available`, and the admin paths that create, edit and
    delete events, where an edit also builds the seat-update broadcast. */
module EventController {
  import opened Common
  import opened Seqs
  import opened SeatModel
  import opened EventModel
  import opened Availability
  import opened Text

  /** An event as the read endpoints return it: the row and `truly_available`. */
  datatype EventView = EventView(event: Event, trulyAvailable: int)

  /** The payload `emitSeatUpdate` broadcasts for one event. */
  datatype SeatUpdate = SeatUpdate(eventId: nat, availableSeats: int, trulyAvailable: int, totalSeats: int)

  /** The query parameters of `getEvents`; `None` is a parameter not sent and
      `date` is already the calendar day it names. */
  datatype EventQuery = EventQuery(location: Option<string>, date: Option<int>, search: Option<string>)

  datatype UpdateResponse = Updated | UpdateNotFound | UpdateFailed
  {
    function Status(): int
    {
      match this
      case Updated => 200
      case UpdateNotFound => 404
      case UpdateFailed => 500
    }
  }

  datatype DeleteResponse = Deleted | DeleteNotFound
  {
    function Status(): int
    {
      match this
      case Deleted => 200
      case DeleteNotFound => 404
    }
  }

  /** Each event with its `truly_available` against the swept lock table. */
  function Decorated(events: seq<Event>, swept: seq<Lock>): (r: seq<EventView>)
    ensures |r| == |events|
    ensures forall k :: 0 <= k < |events| ==> r[k].event == events[k]
    ensures forall k :: 0 <= k < |events| ==> r[k].trulyAvailable == TrulyAvailable(events[k], swept)
  {
    seq(|events|, k requires 0 <= k < |events| => EventView(events[k], TrulyAvailable(events[k], swept)))
  }

  /** The `events.map(... getLockedSeats(event.id) ...)` decoration: one
      sweep-and-sum per event. An empty list sweeps nothing; otherwise the
      lock table ends swept at `now`. Event rows are not touched. */
  method Decorate(locks: LockTable, events: seq<Event>, now: int) returns (views: seq<EventView>)
    requires locks.Valid()
    modifies locks
    ensures locks.Valid() && locks.nextId == old(locks.nextId)
    ensures views == Decorated(events, Unexpired(old(locks.locks), now))
    ensures |events| > 0 ==> locks.locks == Unexpired(old(locks.locks), now)
    ensures |events| == 0 ==> locks.locks == old(locks.locks)
  {
    ghost var swept := Unexpired(locks.locks, now);
    SweepAbsorbs(locks.locks, now, now);
    views := [];
    var k := 0;
    while k < |events|
      invariant 0 <= k <= |events|
      invariant locks.Valid() && locks.nextId == old(locks.nextId)
      invariant k > 0 ==> locks.locks == swept
      invariant k == 0 ==> locks.locks == old(locks.locks)
      invariant |views| == k
      invariant forall j :: 0 <= j < k ==> views[j] == EventView(events[j], TrulyAvailable(events[j], swept))
    {
      var locked := locks.GetLockedSeats(events[k].id, now);
      assert locks.locks == swept;
      assert locked == LockedSum(swept, events[k].id);
      views := views + [EventView(events[k], events[k].availableSeats - locked)];
      k := k + 1;
    }
  }

  /** The filters `getEvents` forwards: only parameters that were sent and are
      not empty. */
  function Forwarded(q: EventQuery): (f: EventFilters)
    ensures f.day == q.date
    ensures f.location != "" ==> q.location == Some(f.location)
    ensures f.search != "" ==> q.search == Some(f.search)
    ensures q.location.Some? ==> f.location == q.location.value
    ensures q.search.Some? ==> f.search == q.search.value
  {
    EventFilters(
      if q.location.Some? then q.location.value else "",
      q.date,
      if q.search.Some? then q.search.value else "")
  }

  /** A forwarded filter restricts exactly when its parameter was sent with a
      non-empty value, and then by that value. */
  lemma ForwardedOnlyPresent(q: EventQuery, e: Event)
    ensures MatchesFilters(Forwarded(q), e) <==>
      && (q.location.Some? && q.location.value != "" ==> Contains(e.location, q.location.value))
      && (q.date.Some? ==> Day(e.date) == q.date.value)
      && (q.search.Some? && q.search.value != "" ==>
            Contains(e.title, q.search.value) || Contains(e.description, q.search.value))
  {
  }

  /** With no query parameters `getEvents` lists every event. */
  lemma NoQueryListsAll(rows: seq<Event>)
    ensures forall e :: e in GetAllEvents(rows, Forwarded(EventQuery(None, None, None))) <==> e in rows
  {
  }

  /** `getEvent`: 404 without a row; otherwise the row with `truly_available`. */
  method GetEvent(store: EventStore, locks: LockTable, id: nat, now: int) returns (resp: Option<EventView>)
    requires store.Valid() && locks.Valid()
    modifies locks
    ensures locks.Valid() && locks.nextId == old(locks.nextId)
    ensures resp.None? <==> GetEventById(store.events, id).None?
    ensures resp.None? ==> locks.locks == old(locks.locks)
    ensures resp.Some? ==>
      && resp.value.event == GetEventById(store.events, id).value
      && resp.value.trulyAvailable == TrulyAvailable(resp.value.event, Unexpired(old(locks.locks), now))
      && locks.locks == Unexpired(old(locks.locks), now)
  {
    var found := GetEventById(store.events, id);
    if found.None? {
      return None;
    }
    var locked := locks.GetLockedSeats(id, now);
    resp := Some(EventView(found.value, found.value.availableSeats - locked));
  }

  /** `getEvents`: the listing for the forwarded filters, decorated. */
  method GetEvents(store: EventStore, locks: LockTable, query: EventQuery, now: int) returns (views: seq<EventView>)
    requires store.Valid() && locks.Valid()
    modifies locks
    ensures locks.Valid() && locks.nextId == old(locks.nextId)
    ensures views == Decorated(GetAllEvents(store.events, Forwarded(query)), Unexpired(old(locks.locks), now))
    ensures |GetAllEvents(store.events, Forwarded(query))| > 0 ==> locks.locks == Unexpired(old(locks.locks), now)
    ensures |GetAllEvents(store.events, Forwarded(query))| == 0 ==> locks.locks == old(locks.locks)
    ensures forall v :: v in views ==> v.event in store.events && MatchesFilters(Forwarded(query), v.event)
  {
    var rows := GetAllEvents(store.events, Forwarded(query));
    views := Decorate(locks, rows, now);
    forall v | v in views ensures v.event in rows {
      var k :| 0 <= k < |views| && views[k] == v;
      assert rows[k] in rows;
    }
  }

  /** `getAdminEvents`: the requester's own events, newest first, decorated. */
  method GetAdminEvents(store: EventStore, locks: LockTable, user: Requester, now: int) returns (views: seq<EventView>)
    requires store.Valid() && locks.Valid()
    modifies locks
    ensures locks.Valid() && locks.nextId == old(locks.nextId)
    ensures views == Decorated(GetEventsByAdminId(store.events, user.id), Unexpired(old(locks.locks), now))
    ensures |GetEventsByAdminId(store.events, user.id)| > 0 ==> locks.locks == Unexpired(old(locks.locks), now)
    ensures |GetEventsByAdminId(store.events, user.id)| == 0 ==> locks.locks == old(locks.locks)
    ensures forall v :: v in views ==> v.event in store.events && v.event.createdBy == Some(user.id)
  {
    var rows := GetEventsByAdminId(store.events, user.id);
    views := Decorate(locks, rows, now);
    forall v | v in views ensures v.event in rows {
      var k :| 0 <= k < |views| && views[k] == v;
      assert rows[k] in rows;
    }
  }

  /** `createNewEvent`: creates the event with the requester as its owner; the
      new row is then what `getEventById` finds under the returned id. */
  method CreateNewEvent(store: EventStore, data: EventData, user: Requester, now: int) returns (id: nat)
    requires store.Valid()
    modifies store
    ensures store.Valid()
    ensures store.events == old(store.events) + [Event(id, data.title, data.description, data.location, data.date,
      data.totalSeats, data.totalSeats, data.price, data.imageUrl, Some(user.id), now)]
    ensures GetEventById(store.events, id).Some? && GetEventById(store.events, id).value.createdBy == Some(user.id)
  {
    id := store.CreateEvent(data, Some(user.id), now);
    UniqueRow(store.events, |store.events| - 1);
  }

  /** `updateEventById`: a missing row makes `updateEvent` throw (500);
      otherwise the row is edited, re-read and decorated, and one seat update
      for it is emitted when a socket server is attached. */
  method UpdateEventById(store: EventStore, locks: LockTable, id: nat, data: EventData, hasIo: bool, now: int)
    returns (resp: UpdateResponse, emitted: Option<SeatUpdate>)
    requires store.Valid() && locks.Valid()
    modifies store, locks
    ensures store.Valid() && locks.Valid() && locks.nextId == old(locks.nextId)
    ensures resp == UpdateFailed <==> GetEventById(old(store.events), id).None?
    ensures GetEventById(old(store.events), id).Some? ==> resp == Updated
    ensures resp != Updated ==> store.events == old(store.events) && locks.locks == old(locks.locks) && emitted.None?
    ensures resp == Updated ==>
      var edited := Edited(GetEventById(old(store.events), id).value, data);
      && store.events == EditedRows(old(store.events), id, data)
      && locks.locks == Unexpired(old(locks.locks), now)
      && (emitted.Some? <==> hasIo)
      && (emitted.Some? ==> emitted.value == SeatUpdate(id, edited.availableSeats,
            TrulyAvailable(edited, Unexpired(old(locks.locks), now)), edited.totalSeats))
  {
    ghost var cur := GetEventById(store.events, id);
    var affected := store.UpdateEvent(id, data);
    if affected.None? {
      return UpdateFailed, None;
    }
    if affected.value == 0 {
      return UpdateNotFound, None;
    }
    ghost var i :| 0 <= i < |old(store.events)| && old(store.events)[i] == cur.value;
    EditedRow(old(store.events), i, data);
    assert GetEventById(store.events, id) == Some(Edited(cur.value, data));
    var updated := GetEventById(store.events, id);
    if updated.None? {
      return UpdateFailed, None;
    }
    var locked := locks.GetLockedSeats(id, now);
    var ev := updated.value;
    assert ev.availableSeats - locked == TrulyAvailable(ev, locks.locks);
    emitted := if hasIo then Some(SeatUpdate(id, ev.availableSeats, ev.availableSeats - locked, ev.totalSeats)) else None;
    resp := Updated;
  }

  /** `deleteEventById`: 404 when no row was deleted, success otherwise. */
  method DeleteEventById(store: EventStore, id: nat) returns (resp: DeleteResponse)
    requires store.Valid()
    modifies store
    ensures store.Valid()
    ensures resp == DeleteNotFound <==> GetEventById(old(store.events), id).None?
    ensures store.events == WithoutEvent(old(store.events), id)
  {
    var affected := store.DeleteEvent(id);
    resp := if affected == 0 then DeleteNotFound else Deleted;
  }
}
