/** The client's events page: the list of events it received, the list it
    shows, the search term and the filter form. Seat updates pushed by the
    server patch the received list; the shown list is recomputed by a chain of
    filters whenever the received list, the search term or the form changes. */
module EventsPage {
  import opened Common
  import opened Seqs
  import opened Text
  import opened EventModel
  import opened EventController

  /** The filter form. An empty text field is no filter; a date is the
      calendar day it names; prices are in cents, `None` when the field is empty. */
  datatype PageFilters = PageFilters(location: string, day: Option<int>, minPrice: Option<int>, maxPrice: Option<int>)

  /** The page's state: `events` as received and patched, `shown` as rendered. */
  datatype PageState = PageState(events: seq<EventView>, shown: seq<EventView>, searchTerm: string, filters: PageFilters)

  const NoFilters := PageFilters("", None, None, None)

  /** `data` concerns this event (`String(event.id) === String(data.eventId)`). */
  predicate Concerns(data: SeatUpdate, v: EventView)
  {
    v.event.id == data.eventId
  }

  /** One event after a seat update: the three counts from the update, every
      other field as before. */
  function Patched(v: EventView, data: SeatUpdate): (r: EventView)
    ensures r.event.availableSeats == data.availableSeats && r.event.totalSeats == data.totalSeats
    ensures r.trulyAvailable == data.trulyAvailable
    ensures r.event.(availableSeats := v.event.availableSeats, totalSeats := v.event.totalSeats) == v.event
  {
    EventView(v.event.(availableSeats := data.availableSeats, totalSeats := data.totalSeats), data.trulyAvailable)
  }

  /** `handleSeatUpdate`: the `map` over the received list. */
  function HandleSeatUpdate(events: seq<EventView>, data: SeatUpdate): (r: seq<EventView>)
    ensures |r| == |events|
    ensures forall k :: 0 <= k < |events| && Concerns(data, events[k]) ==>
      && r[k].event == events[k].event.(availableSeats := data.availableSeats, totalSeats := data.totalSeats)
      && r[k].trulyAvailable == data.trulyAvailable
    ensures forall k :: 0 <= k < |events| && !Concerns(data, events[k]) ==> r[k] == events[k]
  {
    seq(|events|, k requires 0 <= k < |events| =>
      if Concerns(data, events[k]) then Patched(events[k], data) else events[k])
  }

  /** An update for an event the page does not hold leaves the list as it was. */
  lemma NoMatchUnchanged(events: seq<EventView>, data: SeatUpdate)
    requires forall v :: v in events ==> !Concerns(data, v)
    ensures HandleSeatUpdate(events, data) == events
  {
    var r := HandleSeatUpdate(events, data);
    forall k | 0 <= k < |events| ensures r[k] == events[k] {
      assert events[k] in events;
    }
  }

  /** Applying the same update twice is applying it once, and an update keeps
      every event's id in place. */
  lemma SeatUpdateIdempotent(events: seq<EventView>, data: SeatUpdate)
    ensures HandleSeatUpdate(HandleSeatUpdate(events, data), data) == HandleSeatUpdate(events, data)
    ensures forall k :: 0 <= k < |events| ==> HandleSeatUpdate(events, data)[k].event.id == events[k].event.id
  {
    var once := HandleSeatUpdate(events, data);
    var twice := HandleSeatUpdate(once, data);
    forall k | 0 <= k < |events| ensures twice[k] == once[k] {
      assert once[k].event.id == events[k].event.id;
    }
  }

  /** The search step: the term is in the title, the location or the
      description, ignoring case. */
  predicate MatchesSearch(e: Event, term: string)
    ensures term == "" ==> MatchesSearch(e, term)
  {
    ContainsIgnoreCase(e.title, term) || ContainsIgnoreCase(e.location, term) || ContainsIgnoreCase(e.description, term)
  }

  /** What the shown list promises of an event: every step whose field is
      filled in accepts it. */
  predicate Kept(term: string, f: PageFilters, e: Event)
  {
    && (term != "" ==> MatchesSearch(e, term))
    && (f.location != "" ==> ContainsIgnoreCase(e.location, f.location))
    && (f.day.Some? ==> Day(e.date) == f.day.value)
    && (f.minPrice.Some? ==> e.price >= f.minPrice.value)
    && (f.maxPrice.Some? ==> e.price <= f.maxPrice.value)
  }

  /** `filterEvents`: search, then location, date, minimum and maximum price,
      each step applied only when its field is filled in. The result keeps the
      received order and holds exactly the received events every filled-in
      step accepts. */
  function FilterEvents(events: seq<EventView>, term: string, f: PageFilters): (r: seq<EventView>)
    ensures IsSubsequence(r, events)
    ensures forall v :: v in r <==> v in events && Kept(term, f, v.event)
  {
    var byPlace := ByPlace(events, term, f);
    var byMin := When(f.minPrice.Some?, ByDay(byPlace, f), (v: EventView) => f.minPrice.Some? && v.event.price >= f.minPrice.value);
    var byMax := When(f.maxPrice.Some?, byMin, (v: EventView) => f.maxPrice.Some? && v.event.price <= f.maxPrice.value);
    SubsequenceTrans(byMin, ByDay(byPlace, f), byPlace);
    SubsequenceTrans(byMin, byPlace, events);
    SubsequenceTrans(byMax, byMin, events);
    byMax
  }

  /** The search and location steps of `filterEvents`. */
  function ByPlace(events: seq<EventView>, term: string, f: PageFilters): (r: seq<EventView>)
    ensures IsSubsequence(r, events)
    ensures forall v :: v in r <==>
      && v in events
      && (term != "" ==> MatchesSearch(v.event, term))
      && (f.location != "" ==> ContainsIgnoreCase(v.event.location, f.location))
  {
    var bySearch := When(term != "", events, (v: EventView) => MatchesSearch(v.event, term));
    var byLocation := When(f.location != "", bySearch, (v: EventView) => ContainsIgnoreCase(v.event.location, f.location));
    SubsequenceTrans(byLocation, bySearch, events);
    byLocation
  }

  /** The date step of `filterEvents`. */
  function ByDay(s: seq<EventView>, f: PageFilters): (r: seq<EventView>)
    ensures IsSubsequence(r, s)
    ensures forall v :: v in r <==> v in s && (f.day.Some? ==> Day(v.event.date) == f.day.value)
  {
    When(f.day.Some?, s, (v: EventView) => f.day.Some? && Day(v.event.date) == f.day.value)
  }

  /** `if (field) result = result.filter(p)`. */
  function When(on: bool, s: seq<EventView>, p: EventView -> bool): (r: seq<EventView>)
    ensures IsSubsequence(r, s)
    ensures forall v :: v in r <==> v in s && (on ==> p(v))
  {
    if on then
      FilterIsSubsequence(s, p);
      Filter(s, p)
    else
      SubsequenceOfSelf(s);
      s
  }

  lemma {:induction false} SubsequenceOfSelf(s: seq<EventView>)
    ensures IsSubsequence(s, s)
    decreases |s|
  {
    if s != [] {
      SubsequenceOfSelf(s[1..]);
    }
  }

  /** With an empty search term and an empty form, every event is shown. */
  lemma NothingFilledKeepsAll(events: seq<EventView>)
    ensures FilterEvents(events, "", NoFilters) == events
  {
  }

  /** A case-sensitive match of the search term is also a match of the
      client's case-insensitive search step. */
  lemma ExactMatchFound(e: Event, term: string)
    requires Contains(e.title, term) || Contains(e.location, term) || Contains(e.description, term)
    ensures MatchesSearch(e, term)
  {
    if Contains(e.title, term) {
      ContainsImpliesIgnoreCase(e.title, term);
    } else if Contains(e.location, term) {
      ContainsImpliesIgnoreCase(e.location, term);
    } else {
      ContainsImpliesIgnoreCase(e.description, term);
    }
  }

  /** `fetchEvents` on success: both lists become the response, and the
      effect that follows shows the response filtered by the current search
      term and form (an empty response stays empty). */
  function Loaded(s: PageState, response: seq<EventView>): (r: PageState)
    ensures r.events == response
    ensures |response| > 0 ==> Refreshed(r).shown == FilterEvents(response, s.searchTerm, s.filters)
    ensures response == [] ==> Refreshed(r).shown == []
  {
    s.(events := response, shown := response)
  }

  /** Loading with an empty search term and an empty form shows exactly what
      the server sent. */
  lemma LoadedUnfilteredShowsAll(s: PageState, response: seq<EventView>)
    requires s.searchTerm == "" && s.filters == NoFilters
    ensures Refreshed(Loaded(s, response)).shown == response
  {
    NothingFilledKeepsAll(response);
  }

  /** The effect on `[events, searchTerm, filters]`: the shown list is
      recomputed, but only while the received list is not empty. */
  function Refreshed(s: PageState): (r: PageState)
    ensures |s.events| > 0 ==> r.shown == FilterEvents(s.events, s.searchTerm, s.filters)
    ensures |s.events| == 0 ==> r == s
    ensures r.events == s.events && r.searchTerm == s.searchTerm && r.filters == s.filters
  {
    if |s.events| > 0 then s.(shown := FilterEvents(s.events, s.searchTerm, s.filters)) else s
  }

  /** A pushed seat update: the received list is patched, then the effect runs. */
  function OnSeatUpdate(s: PageState, data: SeatUpdate): (r: PageState)
    ensures r.events == HandleSeatUpdate(s.events, data)
    ensures r.searchTerm == s.searchTerm && r.filters == s.filters
    ensures |s.events| > 0 ==> r.shown == FilterEvents(r.events, s.searchTerm, s.filters)
    ensures |s.events| == 0 ==> r.shown == s.shown
  {
    Refreshed(s.(events := HandleSeatUpdate(s.events, data)))
  }

  /** `clearFilters`: empties the form and the search term and shows every
      received event. */
  function ClearFilters(s: PageState): (r: PageState)
    ensures r.events == s.events && r.shown == s.events
    ensures r.searchTerm == "" && r.filters == NoFilters
  {
    PageState(s.events, s.events, "", NoFilters)
  }

  /** After `clearFilters` the effect that follows shows the same list again:
      the cleared page is consistent with its own filters. */
  lemma ClearedPageIsStable(s: PageState)
    ensures Refreshed(ClearFilters(s)) == ClearFilters(s)
  {
    NothingFilledKeepsAll(s.events);
  }
}
