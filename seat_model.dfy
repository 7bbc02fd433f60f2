/** The `locked_seats` table: soft, time-limited seat reservations per
    (event, user). Expired locks are swept lazily, before a lock is taken and
    before locks are summed; nothing sweeps on a timer. */
module SeatModel {
  import opened Common
  import opened Seqs

  /** A row of `locked_seats`. `quantity` is whatever the booking request
      carried: nothing checks that it is positive. */
  datatype Lock = Lock(id: nat, eventId: nat, userId: nat, quantity: int, lockedUntil: int)

  /** `lockDuration = 5` minutes when the caller gives none. */
  const DefaultLockMinutes: int := 5

  function LockId(l: Lock): int { l.id }

  /** A lock survives `DELETE FROM locked_seats WHERE locked_until < NOW()`. */
  predicate IsActive(now: int, l: Lock)
  {
    !(l.lockedUntil < now)
  }

  /** The lock is held by `userId` for `eventId`. */
  predicate HeldBy(eventId: nat, userId: nat, l: Lock)
  {
    l.eventId == eventId && l.userId == userId
  }

  /** The table after the expiry sweep at `now`. */
  function Unexpired(locks: seq<Lock>, now: int): (r: seq<Lock>)
    ensures forall l :: l in r <==> l in locks && l.lockedUntil >= now
  {
    Filter(locks, l => IsActive(now, l))
  }

  /** The table after `DELETE ... WHERE event_id = ? AND user_id = ?`. */
  function WithoutHolder(locks: seq<Lock>, eventId: nat, userId: nat): (r: seq<Lock>)
    ensures forall l :: l in r <==> l in locks && !(l.eventId == eventId && l.userId == userId)
  {
    Filter(locks, l => !HeldBy(eventId, userId, l))
  }

  /** `SELECT SUM(quantity) ... WHERE event_id = ?`, with the NULL sum of no
      rows read as 0 (`|| 0`). */
  function LockedSum(locks: seq<Lock>, eventId: nat): (total: int)
    ensures (forall l :: l in locks ==> l.eventId != eventId) ==> total == 0
    ensures (forall l :: l in locks ==> l.quantity >= 0) ==> total >= 0
  {
    if locks == [] then 0
    else (if locks[0].eventId == eventId then locks[0].quantity else 0) + LockedSum(locks[1..], eventId)
  }

  /** The table after `UPDATE locked_seats SET locked_until = ? WHERE id = ?`. */
  function WithExpiry(locks: seq<Lock>, lockId: nat, until: int): (r: seq<Lock>)
    ensures |r| == |locks|
    ensures forall i :: 0 <= i < |locks| && locks[i].id != lockId ==> r[i] == locks[i]
    ensures forall i :: 0 <= i < |locks| && locks[i].id == lockId ==> r[i] == locks[i].(lockedUntil := until)
  {
    seq(|locks|, i requires 0 <= i < |locks| =>
      if locks[i].id == lockId then locks[i].(lockedUntil := until) else locks[i])
  }

  /** The sum over a concatenation is the sum of the sums. */
  lemma {:induction false} LockedSumConcat(a: seq<Lock>, b: seq<Lock>, eventId: nat)
    ensures LockedSum(a + b, eventId) == LockedSum(a, eventId) + LockedSum(b, eventId)
  {
    if a == [] {
      assert a + b == b;
    } else {
      assert (a + b)[0] == a[0];
      assert (a + b)[1..] == a[1..] + b;
      LockedSumConcat(a[1..], b, eventId);
    }
  }

  /** Deleting only locks of other events does not change an event's sum; in
      particular releasing (e, u) leaves the sum of every other event as it was. */
  lemma {:induction false} LockedSumOfSelection(locks: seq<Lock>, keep: Lock -> bool, eventId: nat)
    requires forall l :: l in locks && l.eventId == eventId ==> keep(l)
    ensures LockedSum(Filter(locks, keep), eventId) == LockedSum(locks, eventId)
  {
    if locks != [] {
      LockedSumOfSelection(locks[1..], keep, eventId);
      var rest := Filter(locks[1..], keep);
      if keep(locks[0]) {
        assert Filter(locks, keep) == [locks[0]] + rest;
        LockedSumConcat([locks[0]], rest, eventId);
      } else {
        assert Filter(locks, keep) == rest;
      }
    }
  }

  /** Releasing the locks of (e, u) leaves every other event's locked count unchanged. */
  lemma ReleaseKeepsOtherEvents(locks: seq<Lock>, eventId: nat, userId: nat, other: nat)
    requires other != eventId
    ensures LockedSum(WithoutHolder(locks, eventId, userId), other) == LockedSum(locks, other)
  {
    LockedSumOfSelection(locks, l => !HeldBy(eventId, userId, l), other);
  }

  /** Sweeping twice at the same time, or at a later time after an earlier
      sweep, is the same as sweeping once at the later time. */
  lemma SweepAbsorbs(locks: seq<Lock>, earlier: int, now: int)
    requires earlier <= now
    ensures Unexpired(Unexpired(locks, earlier), now) == Unexpired(locks, now)
  {
    FilterFuse(locks, l => IsActive(earlier, l), l => IsActive(now, l), l => IsActive(now, l));
  }

  /** A second release of the same (event, user) finds nothing to delete. */
  lemma ReleaseIdempotent(locks: seq<Lock>, eventId: nat, userId: nat)
    ensures WithoutHolder(WithoutHolder(locks, eventId, userId), eventId, userId)
         == WithoutHolder(locks, eventId, userId)
  {
    var p := l => !HeldBy(eventId, userId, l);
    FilterFuse(locks, p, p, p);
  }

  /** A lock whose expiry is already past at `now` contributes nothing to the
      sum taken after the sweep, wherever it sits in the table. */
  lemma ExpiredLockNotCounted(before: seq<Lock>, after: seq<Lock>, l: Lock, now: int, eventId: nat)
    requires l.lockedUntil < now
    ensures LockedSum(Unexpired(before + [l] + after, now), eventId)
         == LockedSum(Unexpired(before + after, now), eventId)
  {
    var p := (x: Lock) => IsActive(now, x);
    FilterConcat(before + [l], after, p);
    FilterConcat(before, [l], p);
    FilterConcat(before, after, p);
    assert Filter([l], p) == [];
    assert Unexpired(before + [l], now) == Unexpired(before, now);
  }

  /** A new lock raises its event's swept sum by exactly its quantity. */
  lemma NewLockCounted(locks: seq<Lock>, l: Lock, now: int)
    requires l.lockedUntil >= now
    ensures LockedSum(Unexpired(locks + [l], now), l.eventId)
         == LockedSum(Unexpired(locks, now), l.eventId) + l.quantity
  {
    var p := (x: Lock) => IsActive(now, x);
    FilterConcat(locks, [l], p);
    assert Filter([l], p) == [l];
    LockedSumConcat(Unexpired(locks, now), [l], l.eventId);
  }

  /** Releasing (e, u) also removes a lock of (e, u) just taken. */
  lemma ReleaseDropsNewLock(locks: seq<Lock>, l: Lock, eventId: nat, userId: nat)
    requires HeldBy(eventId, userId, l)
    ensures WithoutHolder(locks + [l], eventId, userId) == WithoutHolder(locks, eventId, userId)
  {
    var p := (x: Lock) => !HeldBy(eventId, userId, x);
    FilterConcat(locks, [l], p);
    assert Filter([l], p) == [];
  }

  /** The `locked_seats` table with its auto-increment counter. */
  class LockTable {
    var locks: seq<Lock>
    var nextId: nat

    /** Row ids are increasing in insertion order and below the next id. */
    ghost predicate Valid()
      reads this
    {
      && IncreasingBy(locks, LockId)
      && (forall l :: l in locks ==> l.id < nextId)
    }

    constructor ()
      ensures Valid() && locks == [] && nextId == 1
    {
      locks := [];
      nextId := 1;
    }

    /** `clearExpiredLocks`: deletes every lock whose expiry is strictly before `now`. */
    method ClearExpiredLocks(now: int)
      requires Valid()
      modifies this
      ensures Valid() && nextId == old(nextId)
      ensures locks == Unexpired(old(locks), now)
    {
      FilterKeepsIncreasing(locks, l => IsActive(now, l), LockId);
      locks := Unexpired(locks, now);
    }

    /** `lockSeats`: sweeps, then always inserts one lock expiring
        `lockMinutes` minutes after `now`; there is no capacity check. */
    method LockSeats(eventId: nat, userId: nat, quantity: int, lockMinutes: int, now: int) returns (lockId: nat)
      requires Valid()
      modifies this
      ensures Valid()
      ensures forall l :: l in old(locks) ==> l.id < lockId
      ensures locks == Unexpired(old(locks), now) + [Lock(lockId, eventId, userId, quantity, now + lockMinutes * MsPerMinute)]
    {
      ClearExpiredLocks(now);
      lockId := nextId;
      var lock := Lock(lockId, eventId, userId, quantity, now + lockMinutes * MsPerMinute);
      ghost var swept := locks;
      locks := locks + [lock];
      nextId := nextId + 1;
      forall i, j | 0 <= i < j < |locks| ensures LockId(locks[i]) < LockId(locks[j]) {
        if j == |locks| - 1 {
          assert locks[i] in swept;
        } else {
          assert locks[i] == swept[i] && locks[j] == swept[j];
        }
      }
    }

    /** `getLockedSeats`: sweeps, then sums the quantities of the event's remaining locks. */
    method GetLockedSeats(eventId: nat, now: int) returns (total: int)
      requires Valid()
      modifies this
      ensures Valid() && nextId == old(nextId)
      ensures locks == Unexpired(old(locks), now)
      ensures total == LockedSum(locks, eventId)
    {
      ClearExpiredLocks(now);
      total := LockedSum(locks, eventId);
    }

    /** `releaseSeats`: deletes every lock of (event, user) and reports how many went. */
    method ReleaseSeats(eventId: nat, userId: nat) returns (removed: nat)
      requires Valid()
      modifies this
      ensures Valid() && nextId == old(nextId)
      ensures locks == WithoutHolder(old(locks), eventId, userId)
      ensures removed == |old(locks)| - |locks|
    {
      FilterKeepsIncreasing(locks, l => !HeldBy(eventId, userId, l), LockId);
      var kept := WithoutHolder(locks, eventId, userId);
      removed := |locks| - |kept|;
      locks := kept;
    }

    /** `extendSeatLock`: moves one lock's expiry to `now + additionalMinutes`
        minutes, with no sweep; reports 1 if the lock exists and 0 otherwise. */
    method ExtendSeatLock(lockId: nat, additionalMinutes: int, now: int) returns (affected: nat)
      requires Valid()
      modifies this
      ensures Valid() && nextId == old(nextId)
      ensures locks == WithExpiry(old(locks), lockId, now + additionalMinutes * MsPerMinute)
      ensures affected == 1 <==> exists l :: l in old(locks) && l.id == lockId
      ensures affected <= 1
    {
      var found := FindFirst(locks, (l: Lock) => l.id == lockId);
      affected := if found.Some? then 1 else 0;
      ghost var before := locks;
      locks := WithExpiry(locks, lockId, now + additionalMinutes * MsPerMinute);
      assert forall i :: 0 <= i < |locks| ==> locks[i].id == before[i].id;
      forall l | l in locks ensures l.id < nextId {
        var i :| 0 <= i < |locks| && locks[i] == l;
        assert before[i] in before;
      }
    }
  }
}
