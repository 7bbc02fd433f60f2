/** Shared vocabulary of the booking server: optional values, the two user
    roles, the requesting identity and the integer clock. */
module Common {

  datatype Option<+T> = None | Some(value: T)

  /** The role carried by an authenticated request. */
  datatype Role = User | Admin

  /** The identity the authentication layer attaches to a request (`req.user`). */
  datatype Requester = Requester(id: nat, role: Role)

  /** Booking status column. */
  datatype Status = Confirmed | Cancelled

  /** The clock counts milliseconds, like `Date.now()`. */
  const MsPerMinute: int := 60 * 1000
  const MsPerDay: int := 24 * 60 * MsPerMinute

  /** Calendar day of a timestamp: the model of SQL `DATE(date)` and of
      JavaScript `toDateString()` (time zones are not modelled). */
  function Day(t: int): (d: int)
    ensures d * MsPerDay <= t < (d + 1) * MsPerDay
  {
    t / MsPerDay
  }

  /** Ownership-or-admin capability used on the booking read and cancel paths. */
  predicate MayAccess(who: Requester, ownerId: nat)
    ensures who.role == Admin ==> MayAccess(who, ownerId)
    ensures who.role == User ==> (MayAccess(who, ownerId) <==> ownerId == who.id)
  {
    ownerId == who.id || who.role == Admin
  }
}
