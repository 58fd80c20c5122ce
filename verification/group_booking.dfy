/**
 * Seats in group classes (backend/models/Booking.js): booking against the live seat count with
 * one seat per user and class, the conditional visit debit, the `current_participants` counter,
 * and cancellation, which refunds, lowers the counter with a floor of 0 and deletes the row.
 */
module GroupBookings {
  import opened Wrappers
  import opened Store
  import Ledger

  /** Selects the bookings of one class. */
  function OfSession(sid: nat): Entry<GroupBooking> -> bool {
    (e: Entry<GroupBooking>) => e.row.session == sid
  }

  /** The live seat count `SELECT COUNT(*) FROM bookings WHERE session_id = ?`. */
  function Seats(bookings: Table<GroupBooking>, sid: nat): nat {
    Count(bookings, OfSession(sid))
  }

  predicate SessionExists(sessions: Table<GroupSession>, sid: nat) {
    exists k :: 0 <= k < |sessions| && sessions[k].id == sid
  }

  predicate HoldsSeat(bookings: Table<GroupBooking>, user: nat, sid: nat) {
    exists i :: 0 <= i < |bookings| && bookings[i].row.user == user && bookings[i].row.session == sid
  }

  /** The debit can take place: the user's own subscription row with a visit left. */
  predicate CanConsume(subs: Table<UserSub>, id: nat, user: nat) {
    exists i :: 0 <= i < |subs| && subs[i].id == id && subs[i].row.user == user && subs[i].row.remaining > 0
  }

  /** Adds one seat to the counter of class `sid`. */
  function Occupy(sessions: Table<GroupSession>, sid: nat): (r: Table<GroupSession>)
    ensures |r| == |sessions|
    ensures forall i :: 0 <= i < |sessions| ==> r[i].id == sessions[i].id
    ensures forall i :: 0 <= i < |sessions| && sessions[i].id == sid ==>
      r[i].row == sessions[i].row.(current := sessions[i].row.current + 1)
    ensures forall i :: 0 <= i < |sessions| && sessions[i].id != sid ==> r[i] == sessions[i]
  {
    MapRows(sessions, (e: Entry<GroupSession>) =>
      if e.id == sid then e.row.(current := e.row.current + 1) else e.row)
  }

  /** `GREATEST(0, current_participants - 1)` on class `sid`. */
  function Vacate(sessions: Table<GroupSession>, sid: nat): (r: Table<GroupSession>)
    ensures |r| == |sessions|
    ensures forall i :: 0 <= i < |sessions| ==> r[i].id == sessions[i].id
    ensures forall i :: 0 <= i < |sessions| && sessions[i].id == sid ==>
      r[i].row == sessions[i].row.(current := if sessions[i].row.current >= 1 then sessions[i].row.current - 1 else 0)
    ensures forall i :: 0 <= i < |sessions| && sessions[i].id != sid ==> r[i] == sessions[i]
  {
    MapRows(sessions, (e: Entry<GroupSession>) =>
      if e.id == sid then e.row.(current := if e.row.current - 1 > 0 then e.row.current - 1 else 0) else e.row)
  }

  /**
   * `Booking.create`: books a seat in class `sid` at time `now`. In order: the class must exist,
   * its live seat count must be below `max_participants`, the user must not already hold a
   * seat, and a given subscription must give up one visit. Then one row is inserted and the
   * class's counter goes up by one. Any failure rolls everything back.
   */
  function Create(db: Db, user: nat, sid: nat, subId: Option<nat>, now: int): (tx: Tx<nat>)
    ensures tx.result.Failure? ==> tx.db == db
    ensures tx.result == Failure(SessionNotFound) <==> !SessionExists(db.sessions, sid)
    ensures tx.result == Failure(SessionFull) ==>
      exists k :: 0 <= k < |db.sessions| && db.sessions[k].id == sid
        && Seats(db.bookings, sid) >= db.sessions[k].row.maxParticipants
    ensures tx.result == Failure(AlreadyBooked) ==> HoldsSeat(db.bookings, user, sid)
    ensures tx.result == Failure(VisitNotConsumed) ==> Present(subId) && !CanConsume(db.subs, subId.value, user)
    ensures tx.result.Failure? ==> tx.result.error in {SessionNotFound, SessionFull, AlreadyBooked, VisitNotConsumed}
    ensures tx.result.Success? ==>
      && tx.result.value == db.nextId
      && !HoldsSeat(db.bookings, user, sid)
      && (exists k :: 0 <= k < |db.sessions| && db.sessions[k].id == sid
            && Seats(tx.db.bookings, sid) <= db.sessions[k].row.maxParticipants)
      && Seats(tx.db.bookings, sid) == Seats(db.bookings, sid) + 1
      && tx.db.bookings == db.bookings + [Entry(db.nextId, GroupBooking(user, sid, if Present(subId) then subId else None, now))]
      && tx.db.sessions == Occupy(db.sessions, sid)
      && tx.db.subs == (if Present(subId) then Ledger.ConsumeVisit(db.subs, subId.value, user).0 else db.subs)
      && (Present(subId) ==> CanConsume(db.subs, subId.value, user))
      && tx.db == db.(subs := tx.db.subs, bookings := tx.db.bookings, sessions := tx.db.sessions,
                      nextId := db.nextId + 1)
  {
    match FindId(db.sessions, sid)
    case None => Tx(db, Failure(SessionNotFound))
    case Some(k) =>
      if Seats(db.bookings, sid) >= db.sessions[k].row.maxParticipants then Tx(db, Failure(SessionFull))
      else if FindFirst(db.bookings, (e: Entry<GroupBooking>) => e.row.user == user && e.row.session == sid).Some? then
        Tx(db, Failure(AlreadyBooked))
      else
        var consumed := if Present(subId) then Ledger.ConsumeVisit(db.subs, subId.value, user) else (db.subs, true);
        if !consumed.1 then Tx(db, Failure(VisitNotConsumed))
        else
          var row := GroupBooking(user, sid, if Present(subId) then subId else None, now);
          CountAppend(db.bookings, Entry(db.nextId, row), OfSession(sid));
          Tx(db.(subs := consumed.0, bookings := db.bookings + [Entry(db.nextId, row)],
                 sessions := Occupy(db.sessions, sid), nextId := db.nextId + 1),
             Success(db.nextId))
  }

  /** The booking `cancel` acts on: the caller's own booking with that id, of an existing class. */
  predicate Cancellable(db: Db, e: Entry<GroupBooking>, bid: nat, user: nat) {
    e.id == bid && e.row.user == user && SessionExists(db.sessions, e.row.session)
  }

  function SessionCheck(sessions: Table<GroupSession>, sid: nat): (b: bool)
    ensures b <==> SessionExists(sessions, sid)
  {
    FindId(sessions, sid).Some?
  }

  /** Selects the rows `DELETE … WHERE id = ? AND user_id = ?` removes. */
  function Mine(bid: nat, user: nat): Entry<GroupBooking> -> bool {
    (e: Entry<GroupBooking>) => e.id == bid && e.row.user == user
  }

  /**
   * `Booking.cancel`: for the caller's booking of an existing class, refunds a visit when it
   * was paid by subscription, lowers the class counter with a floor of 0 and deletes the row.
   */
  function Cancel(db: Db, bid: nat, user: nat): (tx: Tx<bool>)
    ensures tx.result.Failure? <==> forall i :: 0 <= i < |db.bookings| ==> !Cancellable(db, db.bookings[i], bid, user)
    ensures tx.result.Failure? ==> tx == Tx(db, Failure(BookingNotFound))
    ensures tx.result.Success? ==>
      && tx.result.value
      && tx.db.bookings == Remove(db.bookings, Mine(bid, user))
      && (forall i :: 0 <= i < |tx.db.bookings| ==>
            (tx.db.bookings[i] in db.bookings && (tx.db.bookings[i].id != bid || tx.db.bookings[i].row.user != user)))
      && (exists k :: 0 <= k < |db.bookings| && Cancellable(db, db.bookings[k], bid, user)
            && tx.db.sessions == Vacate(db.sessions, db.bookings[k].row.session)
            && tx.db.subs == if Present(db.bookings[k].row.subscription)
                             then Ledger.RefundVisit(db.subs, db.bookings[k].row.subscription.value, user)
                             else db.subs)
      && tx.db == db.(subs := tx.db.subs, bookings := tx.db.bookings, sessions := tx.db.sessions)
  {
    match FindFirst(db.bookings, (e: Entry<GroupBooking>) =>
            e.id == bid && e.row.user == user && SessionCheck(db.sessions, e.row.session))
    case None => Tx(db, Failure(BookingNotFound))
    case Some(k) =>
      var b := db.bookings[k].row;
      var subs := if Present(b.subscription) then Ledger.RefundVisit(db.subs, b.subscription.value, user) else db.subs;
      Tx(db.(subs := subs, bookings := Remove(db.bookings, Mine(bid, user)), sessions := Vacate(db.sessions, b.session)),
         Success(true))
  }

  /** Every class's counter equals its number of booking rows. */
  predicate CounterMatches(db: Db) {
    forall i :: 0 <= i < |db.sessions| ==> db.sessions[i].row.current == Seats(db.bookings, db.sessions[i].id)
  }

  /** No class is booked beyond its capacity. */
  predicate WithinCapacity(db: Db) {
    forall i :: 0 <= i < |db.sessions| ==> Seats(db.bookings, db.sessions[i].id) <= db.sessions[i].row.maxParticipants
  }

  /** At most one seat per (user, class). */
  predicate OneSeatEach(bookings: Table<GroupBooking>) {
    forall i, j :: 0 <= i < j < |bookings| ==>
      bookings[i].row.user != bookings[j].row.user || bookings[i].row.session != bookings[j].row.session
  }

  lemma {:induction false} CreateKeepsCounterMatches(db: Db, user: nat, sid: nat, subId: Option<nat>, now: int)
    requires CounterMatches(db)
    ensures CounterMatches(Create(db, user, sid, subId, now).db)
  {
    var tx := Create(db, user, sid, subId, now);
    if tx.result.Success? {
      var row := GroupBooking(user, sid, if Present(subId) then subId else None, now);
      forall i | 0 <= i < |tx.db.sessions|
        ensures tx.db.sessions[i].row.current == Seats(tx.db.bookings, tx.db.sessions[i].id)
      {
        var id := db.sessions[i].id;
        CountAppend(db.bookings, Entry(db.nextId, row), OfSession(id));
      }
    }
  }

  lemma {:induction false} CreateKeepsWithinCapacity(db: Db, user: nat, sid: nat, subId: Option<nat>, now: int)
    requires Valid(db) && WithinCapacity(db)
    ensures WithinCapacity(Create(db, user, sid, subId, now).db)
  {
    var tx := Create(db, user, sid, subId, now);
    if tx.result.Success? {
      var row := GroupBooking(user, sid, if Present(subId) then subId else None, now);
      var k :| 0 <= k < |db.sessions| && db.sessions[k].id == sid
        && Seats(tx.db.bookings, sid) <= db.sessions[k].row.maxParticipants;
      forall i | 0 <= i < |tx.db.sessions|
        ensures Seats(tx.db.bookings, tx.db.sessions[i].id) <= tx.db.sessions[i].row.maxParticipants
      {
        var id := db.sessions[i].id;
        CountAppend(db.bookings, Entry(db.nextId, row), OfSession(id));
        if id == sid {
          IdUnique(db.sessions, i, k);
        }
      }
    }
  }

  lemma {:induction false} CreateKeepsOneSeatEach(db: Db, user: nat, sid: nat, subId: Option<nat>, now: int)
    requires OneSeatEach(db.bookings)
    ensures OneSeatEach(Create(db, user, sid, subId, now).db.bookings)
  {
    var tx := Create(db, user, sid, subId, now);
    if tx.result.Success? {
      var b := tx.db.bookings;
      forall i, j | 0 <= i < j < |b|
        ensures b[i].row.user != b[j].row.user || b[i].row.session != b[j].row.session
      {
        assert b[i] == db.bookings[i];
        if j == |db.bookings| {
          assert !(db.bookings[i].row.user == user && db.bookings[i].row.session == sid);
        } else {
          assert b[j] == db.bookings[j];
        }
      }
    }
  }

  lemma CreateKeepsVisitsNonNegative(db: Db, user: nat, sid: nat, subId: Option<nat>, now: int)
    requires Ledger.VisitsNonNegative(db.subs)
    ensures Ledger.VisitsNonNegative(Create(db, user, sid, subId, now).db.subs)
  {
  }

  lemma CreateKeepsValid(db: Db, user: nat, sid: nat, subId: Option<nat>, now: int)
    requires Valid(db)
    ensures Valid(Create(db, user, sid, subId, now).db)
  {
    var tx := Create(db, user, sid, subId, now);
    if tx.result.Success? {
      assert WellKeyed(tx.db.subs, db.nextId);
      assert WellKeyed(tx.db.sessions, db.nextId);
      WellKeyedGrow(tx.db.subs, db.nextId, db.nextId + 1);
      WellKeyedGrow(tx.db.sessions, db.nextId, db.nextId + 1);
      AppendWellKeyed(db.bookings, db.nextId, GroupBooking(user, sid, if Present(subId) then subId else None, now));
      WellKeyedGrow(db.personal, db.nextId, db.nextId + 1);
      WellKeyedGrow(db.schedule, db.nextId, db.nextId + 1);
      WellKeyedGrow(db.reviews, db.nextId, db.nextId + 1);
    }
  }

  /** With unique ids the cancelled booking is the only row deleted. */
  lemma OnlyOneRemoved(db: Db, bid: nat, user: nat, k: nat)
    requires Valid(db)
    requires k < |db.bookings| && db.bookings[k].id == bid && db.bookings[k].row.user == user
    ensures forall i :: 0 <= i < |db.bookings| && i != k ==> !Mine(bid, user)(db.bookings[i])
  {
    forall i | 0 <= i < |db.bookings| && i != k
      ensures !Mine(bid, user)(db.bookings[i])
    {
      if db.bookings[i].id == bid {
        IdUnique(db.bookings, i, k);
      }
    }
  }

  lemma {:induction false} CancelKeepsCounterMatches(db: Db, bid: nat, user: nat)
    requires Valid(db) && CounterMatches(db)
    ensures CounterMatches(Cancel(db, bid, user).db)
  {
    var tx := Cancel(db, bid, user);
    if tx.result.Success? {
      var k :| 0 <= k < |db.bookings| && Cancellable(db, db.bookings[k], bid, user)
        && tx.db.sessions == Vacate(db.sessions, db.bookings[k].row.session);
      var sid := db.bookings[k].row.session;
      OnlyOneRemoved(db, bid, user, k);
      forall i | 0 <= i < |tx.db.sessions|
        ensures tx.db.sessions[i].row.current == Seats(tx.db.bookings, tx.db.sessions[i].id)
      {
        var id := db.sessions[i].id;
        CountRemoveOne(db.bookings, Mine(bid, user), OfSession(id), k);
        if id == sid {
          CountPositive(db.bookings, OfSession(id));
        }
      }
    }
  }

  lemma {:induction false} CancelKeepsWithinCapacity(db: Db, bid: nat, user: nat)
    requires Valid(db) && WithinCapacity(db)
    ensures WithinCapacity(Cancel(db, bid, user).db)
  {
    var tx := Cancel(db, bid, user);
    if tx.result.Success? {
      var k :| 0 <= k < |db.bookings| && Cancellable(db, db.bookings[k], bid, user)
        && tx.db.sessions == Vacate(db.sessions, db.bookings[k].row.session);
      OnlyOneRemoved(db, bid, user, k);
      forall i | 0 <= i < |tx.db.sessions|
        ensures Seats(tx.db.bookings, tx.db.sessions[i].id) <= tx.db.sessions[i].row.maxParticipants
      {
        CountRemoveOne(db.bookings, Mine(bid, user), OfSession(db.sessions[i].id), k);
      }
    }
  }

  lemma {:induction false} CancelKeepsOneSeatEach(db: Db, bid: nat, user: nat)
    requires Valid(db) && OneSeatEach(db.bookings)
    ensures OneSeatEach(Cancel(db, bid, user).db.bookings)
  {
    var tx := Cancel(db, bid, user);
    if tx.result.Success? {
      RemoveKeepsOneSeatEach(db.bookings, Mine(bid, user));
    }
  }

  lemma {:induction false} RemoveKeepsOneSeatEach(t: Table<GroupBooking>, drop: Entry<GroupBooking> -> bool)
    requires OneSeatEach(t)
    ensures OneSeatEach(Remove(t, drop))
    decreases |t|
  {
    if |t| > 0 {
      assert OneSeatEach(t[1..]) by {
        forall i, j | 0 <= i < j < |t[1..]|
          ensures t[1..][i].row.user != t[1..][j].row.user || t[1..][i].row.session != t[1..][j].row.session
        {
          assert t[1..][i] == t[i + 1] && t[1..][j] == t[j + 1];
        }
      }
      RemoveKeepsOneSeatEach(t[1..], drop);
      var rest := Remove(t[1..], drop);
      if !drop(t[0]) {
        var r := [t[0]] + rest;
        forall i, j | 0 <= i < j < |r|
          ensures r[i].row.user != r[j].row.user || r[i].row.session != r[j].row.session
        {
          if i == 0 {
            var m :| 0 <= m < |t[1..]| && t[1..][m] == r[j];
            assert t[m + 1] == r[j];
          } else {
            assert r[i] == rest[i - 1] && r[j] == rest[j - 1];
          }
        }
      }
    }
  }

  lemma CancelKeepsVisitsNonNegative(db: Db, bid: nat, user: nat)
    requires Ledger.VisitsNonNegative(db.subs)
    ensures Ledger.VisitsNonNegative(Cancel(db, bid, user).db.subs)
  {
  }

  lemma CancelKeepsValid(db: Db, bid: nat, user: nat)
    requires Valid(db)
    ensures Valid(Cancel(db, bid, user).db)
  {
    var tx := Cancel(db, bid, user);
    if tx.result.Success? {
      assert WellKeyed(tx.db.subs, db.nextId);
      assert WellKeyed(tx.db.sessions, db.nextId);
      RemoveWellKeyed(db.bookings, Mine(bid, user), db.nextId);
    }
  }
}
