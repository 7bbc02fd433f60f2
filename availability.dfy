/** The truly-available count: committed seats minus the seats held by
    unexpired soft locks. It is computed afresh on every read and is not
    clamped, so it can be negative. */
module Availability {
  import opened SeatModel
  import opened EventModel

  /** `available_seats - getLockedSeats(id)`, given the lock table after the sweep. */
  function TrulyAvailable(e: Event, swept: seq<Lock>): (r: int)
    ensures (forall l :: l in swept ==> l.eventId != e.id) ==> r == e.availableSeats
    ensures (forall l :: l in swept ==> l.quantity >= 0) ==> r <= e.availableSeats
  {
    e.availableSeats - LockedSum(swept, e.id)
  }

  /** When every lock holds a non-negative quantity, passing the admission
      check `trulyAvailable >= q` implies the committed guard `available_seats
      >= q` also passes; only locks with negative quantities can make the
      guard fail after a passed check in a sequential run. */
  lemma AdmissionImpliesGuard(e: Event, swept: seq<Lock>, q: int)
    requires forall l :: l in swept ==> l.quantity >= 0
    requires TrulyAvailable(e, swept) >= q
    ensures e.availableSeats >= q
  {
  }

  /** Taking a soft lock of `q` seats for the event lowers its truly-available
      count, read at the same time, by exactly `q`. */
  lemma LockLowersTrulyAvailable(e: Event, locks: seq<Lock>, l: Lock, now: int)
    requires l.eventId == e.id && l.lockedUntil >= now
    ensures TrulyAvailable(e, Unexpired(locks + [l], now)) == TrulyAvailable(e, Unexpired(locks, now)) - l.quantity
  {
    NewLockCounted(locks, l, now);
  }
}
