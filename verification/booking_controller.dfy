/**
 * The client's group-class endpoints (backend/controllers/bookingController.js): choosing the
 * subscription a seat is paid from, and the checks in front of the booking transactions.
 */
module BookingController {
  import opened Wrappers
  import opened Store
  import opened Http
  import Ledger
  import GroupBookings

  /** A subscription a group class can be paid from: group or combo, with a visit left. */
  predicate PaysForClass(h: Ledger.Held) {
    (h.kind == Ledger.GroupKind || h.kind == Ledger.ComboKind) && h.sub.remaining > 0
  }

  /** The `for … break` loop: the first fitting row of the list. */
  function FirstPaying(xs: seq<Ledger.Held>): (r: Option<nat>)
    ensures r.Some? ==> r.value < |xs| && PaysForClass(xs[r.value])
    ensures r.Some? ==> forall k :: 0 <= k < r.value ==> !PaysForClass(xs[k])
    ensures r.None? ==> forall k :: 0 <= k < |xs| ==> !PaysForClass(xs[k])
    decreases |xs|
  {
    if |xs| == 0 then None
    else if PaysForClass(xs[0]) then Some(0)
    else
      match FirstPaying(xs[1..])
      case None => None
      case Some(k) => Some(k + 1)
  }

  /**
   * The subscription a seat is paid from: among the user's active group or combo rows with a
   * visit left, one with the latest purchase.
   */
  function ChosenSubscription(db: Db, user: nat, now: int): (r: Option<Ledger.Held>)
    ensures r.None? <==> forall i :: 0 <= i < |db.subs| && Ledger.ActiveFor(db.subs[i], db.types, user, now) ==>
      !PaysForClass(Ledger.Join(db.subs[i], db.types))
    ensures r.Some? ==> PaysForClass(r.value) && Ledger.Genuine(r.value, db.subs, db.types, user, now)
    ensures r.Some? ==> forall i :: (0 <= i < |db.subs| && Ledger.ActiveFor(db.subs[i], db.types, user, now)
      && PaysForClass(Ledger.Join(db.subs[i], db.types))) ==> db.subs[i].row.purchased <= r.value.sub.purchased
  {
    var list := Ledger.AllActive(db, user, now);
    match FirstPaying(list)
    case None =>
      NoPayingRow(db, user, now);
      None
    case Some(k) =>
      LatestPayingRow(db, user, now, k);
      Some(list[k])
  }

  lemma NoPayingRow(db: Db, user: nat, now: int)
    requires FirstPaying(Ledger.AllActive(db, user, now)).None?
    ensures forall i :: 0 <= i < |db.subs| && Ledger.ActiveFor(db.subs[i], db.types, user, now) ==>
      !PaysForClass(Ledger.Join(db.subs[i], db.types))
  {
    var list := Ledger.AllActive(db, user, now);
    forall i | 0 <= i < |db.subs| && Ledger.ActiveFor(db.subs[i], db.types, user, now)
      ensures !PaysForClass(Ledger.Join(db.subs[i], db.types))
    {
      assert Ledger.Join(db.subs[i], db.types) in list;
    }
  }

  /** In a list ordered newest first, the first paying entry is the newest paying one. */
  lemma FirstPayingIsLatest(xs: seq<Ledger.Held>, k: nat)
    requires FirstPaying(xs) == Some(k)
    requires forall i, j :: 0 <= i < j < |xs| ==> xs[i].sub.purchased >= xs[j].sub.purchased
    ensures forall j :: 0 <= j < |xs| && PaysForClass(xs[j]) ==> xs[j].sub.purchased <= xs[k].sub.purchased
  {
  }

  lemma LatestPayingRow(db: Db, user: nat, now: int, k: nat)
    requires FirstPaying(Ledger.AllActive(db, user, now)) == Some(k)
    ensures var h := Ledger.AllActive(db, user, now)[k];
      && Ledger.Genuine(h, db.subs, db.types, user, now)
      && (exists i :: 0 <= i < |db.subs| && Ledger.ActiveFor(db.subs[i], db.types, user, now)
            && PaysForClass(Ledger.Join(db.subs[i], db.types)))
      && forall i :: (0 <= i < |db.subs| && Ledger.ActiveFor(db.subs[i], db.types, user, now)
            && PaysForClass(Ledger.Join(db.subs[i], db.types))) ==> db.subs[i].row.purchased <= h.sub.purchased
  {
    var list := Ledger.AllActive(db, user, now);
    var h := list[k];
    assert h in list;
    FirstPayingIsLatest(list, k);
    assert Ledger.Genuine(h, db.subs, db.types, user, now);
    var i0 :| 0 <= i0 < |db.subs| && db.subs[i0] == Entry(h.id, h.sub);
    assert Ledger.Join(db.subs[i0], db.types) == h;
    assert PaysForClass(h);
    assert Ledger.ActiveFor(db.subs[i0], db.types, user, now) && PaysForClass(Ledger.Join(db.subs[i0], db.types));
    forall i | 0 <= i < |db.subs| && Ledger.ActiveFor(db.subs[i], db.types, user, now)
      && PaysForClass(Ledger.Join(db.subs[i], db.types))
      ensures db.subs[i].row.purchased <= h.sub.purchased
    {
      var g := Ledger.Join(db.subs[i], db.types);
      assert g in list;
      var j :| 0 <= j < |list| && list[j] == g;
      assert g.sub == db.subs[i].row;
    }
  }

  /** What a successful booking answers: the new booking's id and the visits left as reported. */
  datatype Booked = Booked(bookingId: nat, remainingVisits: int)

  /**
   * `bookGroupSession`: 400 without a class id; 400 without a fitting subscription (checked
   * before the class exists); 404 for an unknown class; otherwise the booking transaction paid
   * from the chosen subscription, reporting that subscription's visits minus one.
   */
  function BookGroupSession(db: Db, user: nat, now: int, sid: Option<nat>): (h: Handled<Booked>)
    ensures !Present(sid) ==> h == Handled(db, Fail(Missing("session_id")))
    ensures Present(sid) && ChosenSubscription(db, user, now).None? ==> h == Handled(db, Fail(NoUsableSubscription))
    ensures Present(sid) && ChosenSubscription(db, user, now).Some? && !GroupBookings.SessionExists(db.sessions, sid.value) ==>
      h == Handled(db, Fail(Absent("session")))
    ensures h.reply.Fail? || h.reply.Crash? ==> h.db == db
    ensures h.reply.Ok? ==>
      var s := ChosenSubscription(db, user, now);
      && Present(sid) && s.Some?
      && h.reply.value.remainingVisits == s.value.sub.remaining - 1
      && GroupBookings.Create(db, user, sid.value, Some(s.value.id), now) == Tx(h.db, Success(h.reply.value.bookingId))
    ensures Present(sid) && ChosenSubscription(db, user, now).Some? && GroupBookings.SessionExists(db.sessions, sid.value) ==>
      var tx := GroupBookings.Create(db, user, sid.value, Some(ChosenSubscription(db, user, now).value.id), now);
      && h.db == tx.db
      && (h.reply.Ok? <==> tx.result.Success?)
      && (tx.result.Failure? ==> h.reply == Crash(tx.result.error))
  {
    if !Present(sid) then Handled(db, Fail(Missing("session_id")))
    else match ChosenSubscription(db, user, now)
      case None => Handled(db, Fail(NoUsableSubscription))
      case Some(s) =>
        if !GroupBookings.SessionCheck(db.sessions, sid.value) then Handled(db, Fail(Absent("session")))
        else
          var tx := GroupBookings.Create(db, user, sid.value, Some(s.id), now);
          match tx.result
          case Success(id) => Handled(tx.db, Ok(Booked(id, s.sub.remaining - 1)))
          case Failure(e) => Handled(tx.db, Crash(e))
  }

  /**
   * The reported count is what the ledger holds afterwards for the chosen row: the seat's visit
   * was taken from the chosen subscription.
   */
  lemma ReportedVisitsMatchLedger(db: Db, user: nat, now: int, sid: Option<nat>, k: nat)
    requires BookGroupSession(db, user, now, sid).reply.Ok?
    requires k < |db.subs| && db.subs[k].id != 0
    requires db.subs[k] == Entry(ChosenSubscription(db, user, now).value.id, ChosenSubscription(db, user, now).value.sub)
    ensures var h := BookGroupSession(db, user, now, sid);
      h.db.subs[k].row.remaining == h.reply.value.remainingVisits
  {
    var s := ChosenSubscription(db, user, now).value;
    var h := BookGroupSession(db, user, now, sid);
    var tx := GroupBookings.Create(db, user, sid.value, Some(s.id), now);
    assert tx.db == h.db;
    assert tx.db.subs == Ledger.ConsumeVisit(db.subs, s.id, user).0;
  }

  /** `cancelBooking`: 400 without a booking id; otherwise the cancellation transaction. */
  function CancelBooking(db: Db, user: nat, bid: Option<nat>): (h: Handled<bool>)
    ensures !Present(bid) ==> h == Handled(db, Fail(Missing("booking_id")))
    ensures Present(bid) ==> h.db == GroupBookings.Cancel(db, bid.value, user).db
    ensures Present(bid) ==> (h.reply.Ok? <==> GroupBookings.Cancel(db, bid.value, user).result.Success?)
  {
    if !Present(bid) then Handled(db, Fail(Missing("booking_id")))
    else FromTx(GroupBookings.Cancel(db, bid.value, user))
  }
}
