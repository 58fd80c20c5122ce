/**
 * The client's personal-training endpoints (backend/controllers/trainingController.js): the
 * request checks in front of the booking transaction, cancellation, and the trainer search.
 */
module TrainingController {
  import opened Wrappers
  import opened Text
  import opened Clock
  import opened Store
  import opened Http
  import opened Sorting
  import Ledger
  import PersonalBookings

  /** `inventory_id` as sent: null or undefined, the empty string, or a number. */
  datatype InventoryField = NoInventory | EmptyInventory | InventoryNumber(n: int)

  /** The booking form; an absent or empty text field is None or "" alike. */
  datatype BookForm = BookForm(
    trainer: Option<nat>,
    date: Option<Date>,
    time: Option<string>,
    day: Option<string>,
    payment: Option<string>,
    subscription: Option<nat>,
    inventory: InventoryField)

  predicate Truthy(o: Option<string>) {
    PersonalBookings.Truthy(o)
  }

  /**
   * The required-field checks, in order: with a trainer the date, the time and the weekday are
   * each required with their own message; without one, the date and the time together.
   */
  function FieldCheck(form: BookForm): (w: Option<Why>)
    ensures w.None? <==> form.date.Some? && Truthy(form.time) && (Present(form.trainer) ==> Truthy(form.day))
    ensures Present(form.trainer) && form.date.None? ==> w == Some(Missing("booking_date"))
    ensures Present(form.trainer) && form.date.Some? && !Truthy(form.time) ==> w == Some(Missing("booking_time"))
    ensures Present(form.trainer) && form.date.Some? && Truthy(form.time) && !Truthy(form.day) ==> w == Some(Missing("day_of_week"))
    ensures !Present(form.trainer) && w.Some? ==> w == Some(Missing("booking_date, booking_time"))
  {
    if Present(form.trainer) then
      if form.date.None? then Some(Missing("booking_date"))
      else if !Truthy(form.time) then Some(Missing("booking_time"))
      else if !Truthy(form.day) then Some(Missing("day_of_week"))
      else None
    else if form.date.None? || !Truthy(form.time) then Some(Missing("booking_date, booking_time"))
    else None
  }

  /** A subscription row the controller accepts for a personal training. */
  predicate Fits(h: Ledger.Held, id: nat) {
    h.id == id && (h.kind == Ledger.GymKind || h.kind == Ledger.ComboKind) && h.sub.remaining > 0
  }

  function FindFitting(held: seq<Ledger.Held>, id: nat): (r: bool)
    ensures r <==> exists h :: h in held && Fits(h, id)
  {
    if |held| == 0 then false
    else Fits(held[0], id) || FindFitting(held[1..], id)
  }

  predicate BySubscription(form: BookForm) {
    form.payment == Some(PersonalBookings.SubscriptionPayment)
  }

  /**
   * Subscription payment needs a subscription id, and that id must be one of the user's
   * active, unexpired gym or combo subscriptions with a visit left.
   */
  function SubscriptionCheck(db: Db, user: nat, now: int, form: BookForm): (w: Option<Why>)
    ensures !BySubscription(form) ==> w.None?
    ensures BySubscription(form) && !Present(form.subscription) ==> w == Some(Missing("subscription_id"))
    ensures BySubscription(form) && Present(form.subscription) ==>
      (w.None? <==> exists h :: h in Ledger.AllActive(db, user, now) && Fits(h, form.subscription.value))
    ensures w.Some? ==> w == Some(Missing("subscription_id")) || w == Some(NoUsableSubscription)
  {
    if !BySubscription(form) then None
    else if !Present(form.subscription) then Some(Missing("subscription_id"))
    else if FindFitting(Ledger.AllActive(db, user, now), form.subscription.value) then None
    else Some(NoUsableSubscription)
  }

  /** `parseInt(inventory_id)` for a number, null for null, undefined and "". */
  function InventoryId(f: InventoryField): (r: Option<int>)
    ensures r.Some? <==> f.InventoryNumber?
  {
    if f.InventoryNumber? then Some(f.n) else None
  }

  const DefaultPayment: string := "qr_code"

  /**
   * The `bookingData` handed to the model: trainer and subscription null when falsy, payment
   * "qr_code" when falsy, and the weekday only when given.
   */
  function ToRequest(user: nat, form: BookForm): (req: PersonalBookings.Request)
    requires form.date.Some? && form.time.Some?
    ensures req.user == user && req.date == form.date.value && req.time == form.time.value
    ensures Present(req.trainer) <==> Present(form.trainer)
    ensures req.trainer.Some? ==> req.trainer == form.trainer
    ensures req.payment == if Truthy(form.payment) then form.payment.value else DefaultPayment
    ensures req.day.Some? <==> Truthy(form.day)
    ensures req.day.Some? ==> req.day == form.day
  {
    PersonalBookings.Request(user,
      if Present(form.trainer) then form.trainer else None,
      form.date.value, form.time.value,
      if Truthy(form.day) then form.day else None,
      if Truthy(form.payment) then form.payment.value else DefaultPayment,
      if Present(form.subscription) then form.subscription else None,
      InventoryId(form.inventory))
  }

  /**
   * `bookTraining`: the field checks, then the subscription checks, each refusing with 400 and
   * no change; then the booking transaction, whose error becomes a 500.
   */
  function BookTraining(db: Db, user: nat, now: int, form: BookForm): (h: Handled<nat>)
    ensures FieldCheck(form).Some? ==> h == Handled(db, Fail(FieldCheck(form).value))
    ensures FieldCheck(form).None? && SubscriptionCheck(db, user, now, form).Some? ==>
      h == Handled(db, Fail(SubscriptionCheck(db, user, now, form).value))
    ensures h.reply.Fail? || h.reply.Crash? ==> h.db == db
    ensures h.reply.Ok? ==>
      && FieldCheck(form).None? && SubscriptionCheck(db, user, now, form).None?
      && PersonalBookings.Create(db, ToRequest(user, form)) == Tx(h.db, Success(h.reply.value))
    ensures FieldCheck(form).None? && SubscriptionCheck(db, user, now, form).None? ==>
      var tx := PersonalBookings.Create(db, ToRequest(user, form));
      && h.db == tx.db
      && (h.reply.Ok? <==> tx.result.Success?)
      && (tx.result.Failure? ==> h.reply == Crash(tx.result.error))
  {
    if FieldCheck(form).Some? then Handled(db, Fail(FieldCheck(form).value))
    else if SubscriptionCheck(db, user, now, form).Some? then Handled(db, Fail(SubscriptionCheck(db, user, now, form).value))
    else FromTx(PersonalBookings.Create(db, ToRequest(user, form)))
  }

  /**
   * The controller closes the model's gap: a training paid by subscription is only booked
   * against a subscription that is active and unexpired at the time, of type gym or combo, with a
   * visit left, and belonging to the user.
   */
  lemma SubscriptionBookingIsEntitled(db: Db, user: nat, now: int, form: BookForm)
    requires BookTraining(db, user, now, form).reply.Ok? && BySubscription(form)
    ensures Present(form.subscription)
    ensures exists k :: (0 <= k < |db.subs| && db.subs[k].id == form.subscription.value
      && Ledger.ActiveFor(db.subs[k], db.types, user, now) && db.subs[k].row.remaining > 0
      && db.types[db.subs[k].row.typeId].kind in {Ledger.GymKind, Ledger.ComboKind})
  {
    var h :| h in Ledger.AllActive(db, user, now) && Fits(h, form.subscription.value);
    assert Ledger.Genuine(h, db.subs, db.types, user, now);
    var k :| 0 <= k < |db.subs| && db.subs[k] == Entry(h.id, h.sub);
  }

  /** `cancelTraining`: 400 without a booking id; otherwise the cancellation transaction. */
  function CancelTraining(db: Db, user: nat, bookingId: Option<nat>): (h: Handled<bool>)
    ensures !Present(bookingId) ==> h == Handled(db, Fail(Missing("booking_id")))
    ensures Present(bookingId) ==> h.db == PersonalBookings.Cancel(db, bookingId.value, user).db
    ensures Present(bookingId) ==>
      (h.reply.Ok? <==> exists i :: 0 <= i < |db.personal| && PersonalBookings.Own(db.personal[i], bookingId.value, user))
  {
    if !Present(bookingId) then Handled(db, Fail(Missing("booking_id")))
    else FromTx(PersonalBookings.Cancel(db, bookingId.value, user))
  }

  /** `parseFloat(rating)` of a truthy minimum rating, or None when no minimum is asked. */
  predicate RatingOk(t: Trainer, min: Option<real>) {
    min.None? || (t.rating.Some? && t.rating.value != 0.0 && t.rating.value >= min.value)
  }

  /** The experience filter: known brackets by substring ("5+" also accepts "Более"), others pass. */
  predicate ExperienceOk(t: Trainer, experience: string) {
    if |experience| == 0 then true
    else if |t.experience| == 0 then false
    else if experience == "1-3" then Contains(t.experience, "1-3")
    else if experience == "3-5" then Contains(t.experience, "3-5")
    else if experience == "5+" then Contains(t.experience, "5+") || Contains(t.experience, "Более")
    else true
  }

  function Keep(ts: seq<Entry<Trainer>>, min: Option<real>, experience: string): (r: seq<Entry<Trainer>>)
    ensures forall t :: t in r <==> t in ts && RatingOk(t.row, min) && ExperienceOk(t.row, experience)
    ensures |r| <= |ts|
  {
    if |ts| == 0 then []
    else
      var rest := Keep(ts[1..], min, experience);
      assert forall t :: t in ts <==> t == ts[0] || t in ts[1..];
      if RatingOk(ts[0].row, min) && ExperienceOk(ts[0].row, experience) then [ts[0]] + rest else rest
  }

  /** `(b.rating || 0) - (a.rating || 0)`: higher rating first, a missing rating counting as 0. */
  function RatingKey(t: Entry<Trainer>): Key {
    (-t.row.rating.GetOr(0.0), 0.0)
  }

  /**
   * `smartSearchTrainer`: exactly the trainers passing both filters, best rated first.
   */
  function SmartSearch(ts: seq<Entry<Trainer>>, min: Option<real>, experience: string): (r: seq<Entry<Trainer>>)
    ensures forall t :: t in r <==> t in ts && RatingOk(t.row, min) && ExperienceOk(t.row, experience)
    ensures forall i, j :: 0 <= i < j < |r| ==> r[i].row.rating.GetOr(0.0) >= r[j].row.rating.GetOr(0.0)
    ensures multiset(r) <= multiset(ts)
  {
    var kept := Keep(ts, min, experience);
    var sorted := SortBy(kept, RatingKey);
    forall t ensures t in sorted <==> t in kept {
      MemberOfPermutation(sorted, kept, t);
    }
    forall i, j | 0 <= i < j < |sorted|
      ensures sorted[i].row.rating.GetOr(0.0) >= sorted[j].row.rating.GetOr(0.0)
    {
      assert KeyLe(RatingKey(sorted[i]), RatingKey(sorted[j]));
    }
    KeepSubMultiset(ts, min, experience);
    sorted
  }

  lemma {:induction false} KeepSubMultiset(ts: seq<Entry<Trainer>>, min: Option<real>, experience: string)
    ensures multiset(Keep(ts, min, experience)) <= multiset(ts)
  {
    if |ts| > 0 {
      KeepSubMultiset(ts[1..], min, experience);
      assert ts == [ts[0]] + ts[1..];
    }
  }

  /** The "5+" bracket accepts a trainer described as "Более 5 лет". */
  lemma FivePlusAcceptsMore(t: Trainer)
    requires Contains(t.experience, "Более")
    ensures ExperienceOk(t, "5+")
  {
  }

  /** A trainer without a rating never passes a minimum-rating filter. */
  lemma UnratedNeverPassesMinimum(t: Trainer, min: real)
    requires t.rating.None? || t.rating == Some(0.0)
    ensures !RatingOk(t, Some(min))
  {
  }
}
