/**
 * One-to-one training bookings (backend/models/PersonalBooking.js): the booking transaction with
 * its fixed-slot matching, uniqueness check, subscription debit and inventory check, and the
 * cancellation with its refund.
 */
module PersonalBookings {
  import opened Wrappers
  import opened Text
  import opened Clock
  import opened Store
  import Ledger

  /** What `create` receives; `inventory` is already parsed to an integer or absent. */
  datatype Request = Request(
    user: nat,
    trainer: Option<nat>,
    date: Date,
    time: string,
    day: Option<string>,
    payment: string,
    subscription: Option<nat>,
    inventory: Option<int>)

  const SubscriptionPayment: string := "subscription"

  /** JavaScript truthiness of an optional string. */
  predicate Truthy(o: Option<string>) {
    o.Some? && |o.value| > 0
  }

  /** The weekday name the slot lookup uses: the one supplied, else the date's; lowercased, trimmed. */
  function RequestedDay(req: Request): string {
    Trim(Lower(if Truthy(req.day) then req.day.value else Name(WeekdayOf(req.date))))
  }

  /** Without a supplied day, the lookup uses the date's own weekday name. */
  lemma RequestedDayOfDate(req: Request)
    requires !Truthy(req.day)
    ensures RequestedDay(req) == Name(WeekdayOf(req.date))
  {
    var n := Name(WeekdayOf(req.date));
    LowerOfLowerAscii(n);
    TrimOfTrimmed(n);
  }

  /** The "HH:MM" the request is matched on. */
  function RequestedHhmm(req: Request): string {
    var norm := WithSeconds(req.time);
    if |norm| > 0 then Prefix(norm, 5) else Prefix(req.time, 5)
  }

  /** A booking that still holds its slot. */
  predicate Live(b: PersonalBooking) {
    b.status == Pending || b.status == Confirmed
  }

  predicate HasSchedule(db: Db, t: nat) {
    exists i :: 0 <= i < |db.schedule| && db.schedule[i].row.trainer == t
  }

  predicate WorksOn(db: Db, t: nat, day: string) {
    exists i :: 0 <= i < |db.schedule| && db.schedule[i].row.trainer == t && Name(db.schedule[i].row.day) == day
  }

  /** The trainer has a slot on that day starting at that "HH:MM". */
  predicate SlotAt(db: Db, t: nat, day: string, hhmm: string) {
    exists i :: 0 <= i < |db.schedule| && db.schedule[i].row.trainer == t && Name(db.schedule[i].row.day) == day
      && Hhmm(db.schedule[i].row.start) == hhmm
  }

  /** A live booking already holds (trainer, date, time). */
  predicate Taken(personal: Table<PersonalBooking>, t: nat, date: Date, time: string) {
    exists i :: 0 <= i < |personal| && personal[i].row.trainer == Some(t) && personal[i].row.date == date
      && personal[i].row.time == time && Live(personal[i].row)
  }

  /** The weekdays the trainer works, listed when the requested day is not one of them. */
  function WorkDays(db: Db, t: nat): set<Weekday> {
    set i | 0 <= i < |db.schedule| && db.schedule[i].row.trainer == t :: db.schedule[i].row.day
  }

  /** The "HH:MM-HH:MM" ranges of the trainer's slots on a day, listed when no slot starts on time. */
  function Ranges(db: Db, t: nat, day: string): set<string> {
    set i | 0 <= i < |db.schedule| && db.schedule[i].row.trainer == t && Name(db.schedule[i].row.day) == day
      :: Hhmm(db.schedule[i].row.start) + "-" + Hhmm(db.schedule[i].row.end)
  }

  function HasScheduleCheck(db: Db, t: nat): (b: bool)
    ensures b <==> HasSchedule(db, t)
  {
    FindFirst(db.schedule, (e: Entry<Slot>) => e.row.trainer == t).Some?
  }

  function WorksOnCheck(db: Db, t: nat, day: string): (b: bool)
    ensures b <==> WorksOn(db, t, day)
  {
    FindFirst(db.schedule, (e: Entry<Slot>) => e.row.trainer == t && Name(e.row.day) == day).Some?
  }

  /** `allSchedule.find(...)` on the day's rows. */
  function SlotAtCheck(db: Db, t: nat, day: string, hhmm: string): (b: bool)
    ensures b <==> SlotAt(db, t, day, hhmm)
    ensures b ==> WorksOn(db, t, day)
  {
    FindFirst(db.schedule, (e: Entry<Slot>) =>
      e.row.trainer == t && Name(e.row.day) == day && Hhmm(e.row.start) == hhmm).Some?
  }

  function TakenCheck(personal: Table<PersonalBooking>, t: nat, date: Date, time: string): (b: bool)
    ensures b <==> Taken(personal, t, date, time)
  {
    FindFirst(personal, (e: Entry<PersonalBooking>) =>
      e.row.trainer == Some(t) && e.row.date == date && e.row.time == time && Live(e.row)).Some?
  }

  /** The trainer checks pass: no trainer at all, or a free slot of an existing trainer. */
  predicate SlotFree(db: Db, req: Request) {
    !Present(req.trainer) ||
      (req.trainer.value in db.trainers
       && SlotAt(db, req.trainer.value, RequestedDay(req), RequestedHhmm(req))
       && !Taken(db.personal, req.trainer.value, req.date, WithSeconds(req.time)))
  }

  /**
   * The trainer-related checks in their order: unknown trainer, trainer without any schedule,
   * day not worked (listing the working days), no slot at that time (listing the day's
   * ranges), slot already taken. Skipped entirely without a trainer.
   */
  function SlotError(db: Db, req: Request): (r: Option<Err>)
    ensures r.None? <==> SlotFree(db, req)
    ensures r == Some(TrainerNotFound) <==> Present(req.trainer) && req.trainer.value !in db.trainers
    ensures r == Some(NoSchedule) <==>
      Present(req.trainer) && req.trainer.value in db.trainers && !HasSchedule(db, req.trainer.value)
    ensures r.Some? && r.value.DayNotAvailable? <==>
      Present(req.trainer) && req.trainer.value in db.trainers && HasSchedule(db, req.trainer.value)
      && !WorksOn(db, req.trainer.value, RequestedDay(req))
    ensures r.Some? && r.value.DayNotAvailable? ==>
      r.value == DayNotAvailable(RequestedDay(req), WorkDays(db, req.trainer.value))
    ensures r.Some? && r.value.TimeNotAvailable? <==>
      Present(req.trainer) && req.trainer.value in db.trainers
      && WorksOn(db, req.trainer.value, RequestedDay(req))
      && !SlotAt(db, req.trainer.value, RequestedDay(req), RequestedHhmm(req))
    ensures r.Some? && r.value.TimeNotAvailable? ==>
      r.value == TimeNotAvailable(req.time, Ranges(db, req.trainer.value, RequestedDay(req)))
    ensures r == Some(SlotTaken) <==>
      Present(req.trainer) && req.trainer.value in db.trainers
      && SlotAt(db, req.trainer.value, RequestedDay(req), RequestedHhmm(req))
      && Taken(db.personal, req.trainer.value, req.date, WithSeconds(req.time))
  {
    if !Present(req.trainer) then None
    else
      var t := req.trainer.value;
      assert forall d, h :: SlotAt(db, t, d, h) ==> WorksOn(db, t, d);
      assert forall d :: WorksOn(db, t, d) ==> HasSchedule(db, t);
      var day := RequestedDay(req);
      var hhmm := RequestedHhmm(req);
      var time := WithSeconds(req.time);
      if t !in db.trainers then Some(TrainerNotFound)
      else if !HasScheduleCheck(db, t) then Some(NoSchedule)
      else if !WorksOnCheck(db, t, day) then Some(DayNotAvailable(day, WorkDays(db, t)))
      else if !SlotAtCheck(db, t, day, hhmm) then Some(TimeNotAvailable(req.time, Ranges(db, t, day)))
      else if TakenCheck(db.personal, t, req.date, time) then Some(SlotTaken)
      else None
  }

  predicate PaidBySubscription(req: Request) {
    req.payment == SubscriptionPayment && Present(req.subscription)
  }

  /** The row a subscription payment draws on: the user's own row with that id. */
  predicate OwnSub(e: Entry<UserSub>, id: nat, user: nat) {
    e.id == id && e.row.user == user
  }

  /** 'active' by status alone (no expiry check) with a visit left. */
  predicate Usable(u: UserSub) {
    u.status == Active && u.remaining > 0
  }

  /**
   * The subscription step: without subscription payment the ledger is untouched; otherwise the
   * user's row with that id must exist and be usable, and loses one visit.
   */
  function DebitStep(subs: Table<UserSub>, req: Request): (r: Result<Table<UserSub>, Err>)
    ensures !PaidBySubscription(req) ==> r == Success(subs)
    ensures r == Failure(SubscriptionNotFound) <==>
      PaidBySubscription(req) && forall i :: 0 <= i < |subs| ==> !OwnSub(subs[i], req.subscription.value, req.user)
    ensures r.Failure? ==> r.error == SubscriptionNotFound || r.error == SubscriptionUnusable
    ensures r == Failure(SubscriptionUnusable) ==>
      exists i :: 0 <= i < |subs| && OwnSub(subs[i], req.subscription.value, req.user) && !Usable(subs[i].row)
    ensures r.Success? && PaidBySubscription(req) ==>
      && (exists i :: 0 <= i < |subs| && OwnSub(subs[i], req.subscription.value, req.user) && Usable(subs[i].row))
      && r.value == Ledger.DebitVisit(subs, req.subscription.value, req.user)
  {
    if !PaidBySubscription(req) then Success(subs)
    else
      var id := req.subscription.value;
      match FindFirst(subs, (e: Entry<UserSub>) => OwnSub(e, id, req.user))
      case None => Failure(SubscriptionNotFound)
      case Some(k) =>
        if !Usable(subs[k].row) then Failure(SubscriptionUnusable)
        else Success(Ledger.DebitVisit(subs, id, req.user))
  }

  /** `if (inventoryId)`: a given, non-zero inventory id must name an existing item. */
  predicate InventoryOk(db: Db, inv: Option<int>) {
    inv.None? || inv.value == 0 || (inv.value >= 0 && inv.value as nat in db.inventory)
  }

  /** The row `create` inserts. */
  function NewRow(req: Request): PersonalBooking {
    PersonalBooking(req.user, req.trainer, req.date, WithSeconds(req.time), req.payment,
      if Present(req.subscription) then req.subscription else None, req.inventory, Confirmed)
  }

  /**
   * `PersonalBooking.create`: the trainer checks, then the subscription debit, then the
   * inventory check, then one 'confirmed' row with the normalised time; its id is returned.
   * Any failure rolls every step back.
   */
  function Create(db: Db, req: Request): (tx: Tx<nat>)
    ensures tx.result.Failure? ==> tx.db == db
    ensures tx.result.Success? ==> SlotFree(db, req) && InventoryOk(db, req.inventory)
    ensures !SlotFree(db, req) ==> tx.result == Failure(SlotError(db, req).value)
    ensures SlotFree(db, req) && DebitStep(db.subs, req).Failure? ==>
      tx.result == Failure(DebitStep(db.subs, req).error)
    ensures SlotFree(db, req) && DebitStep(db.subs, req).Success? ==>
      (tx.result.Success? <==> InventoryOk(db, req.inventory))
    ensures tx.result.Failure? && tx.result.error == InventoryNotFound ==> !InventoryOk(db, req.inventory)
    ensures tx.result.Success? ==>
      && tx.result.value == db.nextId
      && tx.db == db.(subs := tx.db.subs, personal := db.personal + [Entry(db.nextId, NewRow(req))],
                      nextId := db.nextId + 1)
      && tx.db.subs == DebitStep(db.subs, req).value
  {
    match SlotError(db, req)
    case Some(e) => Tx(db, Failure(e))
    case None =>
      match DebitStep(db.subs, req)
      case Failure(e) => Tx(db, Failure(e))
      case Success(subs) =>
        if !InventoryOk(db, req.inventory) then Tx(db, Failure(InventoryNotFound))
        else
          Tx(db.(subs := subs, personal := db.personal + [Entry(db.nextId, NewRow(req))], nextId := db.nextId + 1),
             Success(db.nextId))
  }

  /** The inserted booking is always 'confirmed' and carries the normalised time. */
  lemma CreatedRowConfirmed(db: Db, req: Request)
    requires Create(db, req).result.Success?
    ensures var p := Create(db, req).db.personal;
      |p| == |db.personal| + 1 && p[|p| - 1].row.status == Confirmed
      && p[|p| - 1].row.time == WithSeconds(req.time) && Live(p[|p| - 1].row)
  {
  }

  /** A failure after the debit (unknown inventory) still leaves the ledger as it was. */
  lemma InventoryFailureRollsBackDebit(db: Db, req: Request)
    requires SlotFree(db, req) && PaidBySubscription(req) && DebitStep(db.subs, req).Success?
    requires !InventoryOk(db, req.inventory)
    ensures Create(db, req) == Tx(db, Failure(InventoryNotFound))
  {
  }

  /** With unique ids, the debited row is the usable one and no other row changes. */
  lemma {:induction false} DebitKeepsVisitsNonNegative(db: Db, req: Request)
    requires WellKeyed(db.subs, db.nextId) && Ledger.VisitsNonNegative(db.subs)
    requires DebitStep(db.subs, req).Success?
    ensures Ledger.VisitsNonNegative(DebitStep(db.subs, req).value)
  {
    if PaidBySubscription(req) {
      var id := req.subscription.value;
      var k :| 0 <= k < |db.subs| && OwnSub(db.subs[k], id, req.user) && Usable(db.subs[k].row);
      var out := DebitStep(db.subs, req).value;
      forall i | 0 <= i < |out|
        ensures out[i].row.remaining >= 0
      {
        if OwnSub(db.subs[i], id, req.user) {
          IdUnique(db.subs, i, k);
        }
      }
    }
  }

  lemma CreateKeepsVisitsNonNegative(db: Db, req: Request)
    requires Valid(db) && Ledger.VisitsNonNegative(db.subs)
    ensures Ledger.VisitsNonNegative(Create(db, req).db.subs)
  {
    if Create(db, req).result.Success? {
      DebitKeepsVisitsNonNegative(db, req);
    }
  }

  lemma CreateKeepsValid(db: Db, req: Request)
    requires Valid(db)
    ensures Valid(Create(db, req).db)
  {
    var tx := Create(db, req);
    if tx.result.Success? {
      var subs := tx.db.subs;
      if PaidBySubscription(req) {
        MapRowsWellKeyed(db.subs, (e: Entry<UserSub>) =>
          if e.id == req.subscription.value && e.row.user == req.user
          then e.row.(remaining := e.row.remaining - 1) else e.row, db.nextId);
      }
      assert WellKeyed(subs, db.nextId);
      WellKeyedGrow(subs, db.nextId, db.nextId + 1);
      AppendWellKeyed(db.personal, db.nextId, NewRow(req));
      WellKeyedGrow(db.bookings, db.nextId, db.nextId + 1);
      WellKeyedGrow(db.sessions, db.nextId, db.nextId + 1);
      WellKeyedGrow(db.schedule, db.nextId, db.nextId + 1);
      WellKeyedGrow(db.reviews, db.nextId, db.nextId + 1);
    }
  }

  /** No two live bookings with a trainer hold the same (trainer, date, time). */
  predicate NoDoubleBooking(personal: Table<PersonalBooking>) {
    forall i, j ::
      (0 <= i < j < |personal| && Live(personal[i].row) && Live(personal[j].row)
       && Present(personal[i].row.trainer)) ==>
      (personal[i].row.trainer != personal[j].row.trainer || personal[i].row.date != personal[j].row.date
       || personal[i].row.time != personal[j].row.time)
  }

  lemma {:induction false} CreateKeepsNoDoubleBooking(db: Db, req: Request)
    requires NoDoubleBooking(db.personal)
    ensures NoDoubleBooking(Create(db, req).db.personal)
  {
    var tx := Create(db, req);
    if tx.result.Success? {
      var p := tx.db.personal;
      var n := |db.personal|;
      forall i, j | 0 <= i < j < |p| && Live(p[i].row) && Live(p[j].row) && Present(p[i].row.trainer)
        ensures p[i].row.trainer != p[j].row.trainer || p[i].row.date != p[j].row.date || p[i].row.time != p[j].row.time
      {
        if j == n {
          assert p[i] == db.personal[i];
          if p[i].row.trainer == p[j].row.trainer && p[i].row.date == p[j].row.date {
            assert !Taken(db.personal, req.trainer.value, req.date, WithSeconds(req.time));
          }
        } else {
          assert p[i] == db.personal[i] && p[j] == db.personal[j];
        }
      }
    }
  }

  /** The booking `cancel` acts on: the caller's own booking with that id. */
  predicate Own(e: Entry<PersonalBooking>, id: nat, user: nat) {
    e.id == id && e.row.user == user
  }

  /** Whether cancelling this booking gives a visit back. */
  predicate Refundable(b: PersonalBooking) {
    b.payment == SubscriptionPayment && Present(b.subscription)
  }

  /**
   * `PersonalBooking.cancel`: finds the caller's booking by id, refunds one visit when it was
   * paid by subscription, and marks it 'cancelled' (the row stays). It does not look at the
   * booking's current status.
   */
  function Cancel(db: Db, id: nat, user: nat): (tx: Tx<bool>)
    ensures tx.result.Failure? <==> forall i :: 0 <= i < |db.personal| ==> !Own(db.personal[i], id, user)
    ensures tx.result.Failure? ==> tx == Tx(db, Failure(BookingNotFound))
    ensures tx.result.Success? ==>
      && tx.result.value
      && tx.db == db.(subs := tx.db.subs, personal := tx.db.personal)
      && |tx.db.personal| == |db.personal|
      && (forall i :: 0 <= i < |db.personal| && Own(db.personal[i], id, user) ==>
            tx.db.personal[i] == Entry(id, db.personal[i].row.(status := Cancelled)))
      && (forall i :: 0 <= i < |db.personal| && !Own(db.personal[i], id, user) ==>
            tx.db.personal[i] == db.personal[i])
      && (exists k :: 0 <= k < |db.personal| && Own(db.personal[k], id, user) &&
            tx.db.subs == if Refundable(db.personal[k].row)
                          then Ledger.RefundVisit(db.subs, db.personal[k].row.subscription.value, user)
                          else db.subs)
  {
    match FindFirst(db.personal, (e: Entry<PersonalBooking>) => Own(e, id, user))
    case None => Tx(db, Failure(BookingNotFound))
    case Some(k) =>
      var b := db.personal[k].row;
      var subs := if Refundable(b) then Ledger.RefundVisit(db.subs, b.subscription.value, user) else db.subs;
      var personal := MapRows(db.personal, (e: Entry<PersonalBooking>) =>
        if Own(e, id, user) then e.row.(status := Cancelled) else e.row);
      Tx(db.(subs := subs, personal := personal), Success(true))
  }

  lemma CancelKeepsVisitsNonNegative(db: Db, id: nat, user: nat)
    requires Ledger.VisitsNonNegative(db.subs)
    ensures Ledger.VisitsNonNegative(Cancel(db, id, user).db.subs)
  {
  }

  lemma CancelKeepsValid(db: Db, id: nat, user: nat)
    requires Valid(db)
    ensures Valid(Cancel(db, id, user).db)
  {
    var tx := Cancel(db, id, user);
    assert WellKeyed(tx.db.subs, db.nextId);
    assert WellKeyed(tx.db.personal, db.nextId);
  }

  lemma {:induction false} CancelKeepsNoDoubleBooking(db: Db, id: nat, user: nat)
    requires NoDoubleBooking(db.personal)
    ensures NoDoubleBooking(Cancel(db, id, user).db.personal)
  {
    var tx := Cancel(db, id, user);
    if tx.result.Success? {
      var p := tx.db.personal;
      forall i, j | 0 <= i < j < |p| && Live(p[i].row) && Live(p[j].row) && Present(p[i].row.trainer)
        ensures p[i].row.trainer != p[j].row.trainer || p[i].row.date != p[j].row.date || p[i].row.time != p[j].row.time
      {
        assert p[i] == db.personal[i] && p[j] == db.personal[j];
      }
    }
  }

  /** With unique ids, the refund `cancel` makes is decided by the caller's booking with that id. */
  lemma CancelRefund(db: Db, id: nat, user: nat, k: nat)
    requires WellKeyed(db.personal, db.nextId)
    requires k < |db.personal| && Own(db.personal[k], id, user)
    ensures Cancel(db, id, user).result == Success(true)
    ensures Cancel(db, id, user).db.subs ==
      if Refundable(db.personal[k].row) then Ledger.RefundVisit(db.subs, db.personal[k].row.subscription.value, user)
      else db.subs
    ensures Cancel(db, id, user).db.personal[k].row == db.personal[k].row.(status := Cancelled)
  {
    var k1 := FindFirst(db.personal, (e: Entry<PersonalBooking>) => Own(e, id, user)).value;
    IdUnique(db.personal, k, k1);
  }

  /**
   * Cancelling is not idempotent: a second cancel of a subscription-paid booking finds the row
   * again and refunds a second visit.
   */
  lemma {:induction false} CancelTwiceRefundsTwice(db: Db, id: nat, user: nat, k: nat, s: nat)
    requires Valid(db)
    requires k < |db.personal| && Own(db.personal[k], id, user) && Refundable(db.personal[k].row)
    requires s < |db.subs| && OwnSub(db.subs[s], db.personal[k].row.subscription.value, user)
    ensures var twice := Cancel(Cancel(db, id, user).db, id, user);
      twice.result == Success(true) && twice.db.subs[s].row.remaining == db.subs[s].row.remaining + 2
  {
    var once := Cancel(db, id, user);
    CancelRefund(db, id, user, k);
    CancelKeepsValid(db, id, user);
    assert once.db.subs[s].row.remaining == db.subs[s].row.remaining + 1;
    CancelRefund(once.db, id, user, k);
  }
}
