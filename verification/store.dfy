/**
 * The relational state the booking core works on, as immutable values.
 *
 * Each table is a sequence of entries (auto-increment id plus row) in insertion order; every
 * insert takes the database-wide `nextId`, so ids grow along each table. Every transaction of
 * the core is a function from one `Db` to a `Tx`: a new `Db` and a result. A transaction that
 * fails returns the database it was given, which is what the source's BEGIN … ROLLBACK gives.
 */
module Store {
  import opened Wrappers
  import opened Clock

  datatype Entry<T> = Entry(id: nat, row: T)

  type Table<T> = seq<Entry<T>>

  /** `users`: only the columns the core reads. */
  datatype User = User(email: string, role: string)

  /** `trainers`: `rating` is the denormalised average of the trainer's reviews, NULL if never set. */
  datatype Trainer = Trainer(userId: nat, rating: Option<real>, experience: string)

  /** `subscription_types`: a catalogue entry; `kind` is the `type` column ('group', 'gym', 'combo', …). */
  datatype SubscriptionType = SubscriptionType(name: string, kind: string, visits: int, durationDays: int)

  datatype SubStatus = Active | Expired

  /** `user_subscriptions`: one purchased entitlement. Timestamps are seconds on one clock. */
  datatype UserSub = UserSub(
    user: nat,
    typeId: nat,
    purchased: int,
    expires: Option<int>,
    status: SubStatus,
    remaining: int)

  datatype BookingStatus = Pending | Confirmed | Cancelled | Completed

  /** `personal_bookings`: `time` is the normalised "HH:MM:SS" text the booking was made for. */
  datatype PersonalBooking = PersonalBooking(
    user: nat,
    trainer: Option<nat>,
    date: Date,
    time: string,
    payment: string,
    subscription: Option<nat>,
    inventory: Option<int>,
    status: BookingStatus)

  /** `bookings`: a seat in a group class; deleted outright when cancelled. */
  datatype GroupBooking = GroupBooking(user: nat, session: nat, subscription: Option<nat>, bookedAt: int)

  /**
   * `group_sessions`: `days` is the comma-separated list the admin form sends, "" for NULL;
   * numeric columns hold 0 for NULL, which the application treats alike.
   */
  datatype GroupSession = GroupSession(
    name: string,
    description: string,
    days: string,
    time: Option<Time>,
    maxParticipants: int,
    duration: int,
    current: int,
    trainer: Option<nat>)

  /** `trainer_schedule`: one fixed weekly slot of a trainer. */
  datatype Slot = Slot(
    trainer: nat,
    day: Weekday,
    start: Time,
    end: Time,
    kind: string,
    maxSlots: int,
    createdBy: Option<nat>)

  /** `reviews`. */
  datatype Review = Review(user: nat, trainer: nat, rating: int, comment: Option<string>)

  datatype Db = Db(
    users: map<nat, User>,
    trainers: map<nat, Trainer>,
    types: map<nat, SubscriptionType>,
    subs: Table<UserSub>,
    personal: Table<PersonalBooking>,
    bookings: Table<GroupBooking>,
    sessions: Table<GroupSession>,
    schedule: Table<Slot>,
    reviews: Table<Review>,
    inventory: set<nat>,
    nextId: nat)

  /**
   * The business errors the model layer raises (each a distinct `throw` in the source), and the
   * database driver's refusal of a statement with an `undefined` bind parameter.
   */
  datatype Err =
    | UndefinedBind
    | TrainerNotFound
    | NoSchedule
    | DayNotAvailable(day: string, workDays: set<Weekday>)
    | TimeNotAvailable(requested: string, ranges: set<string>)
    | SlotTaken
    | SubscriptionNotFound
    | SubscriptionUnusable
    | InventoryNotFound
    | BookingNotFound
    | SessionNotFound
    | SessionFull
    | AlreadyBooked
    | VisitNotConsumed
    | SubscriptionTypeNotFound
    | DuplicateReview
    | ReviewNotFound

  /** The state after a transaction and what it returned. */
  datatype Tx<+T> = Tx(db: Db, result: Result<T, Err>)

  /** JavaScript truthiness of an optional id: absent and 0 are both false. */
  predicate Present(o: Option<nat>) {
    o.Some? && o.value != 0
  }

  predicate IdsBelow<T>(t: Table<T>, bound: nat) {
    forall i :: 0 <= i < |t| ==> t[i].id < bound
  }

  predicate IdsIncreasing<T>(t: Table<T>) {
    forall i, j :: 0 <= i < j < |t| ==> t[i].id < t[j].id
  }

  predicate WellKeyed<T>(t: Table<T>, bound: nat) {
    IdsBelow(t, bound) && IdsIncreasing(t)
  }

  /** Every table's ids are unique and below the next id to be handed out. */
  predicate Valid(db: Db) {
    && WellKeyed(db.subs, db.nextId)
    && WellKeyed(db.personal, db.nextId)
    && WellKeyed(db.bookings, db.nextId)
    && WellKeyed(db.sessions, db.nextId)
    && WellKeyed(db.schedule, db.nextId)
    && WellKeyed(db.reviews, db.nextId)
  }

  /** Index of the first entry satisfying p. */
  function FindFirst<T>(t: Table<T>, p: Entry<T> -> bool): (r: Option<nat>)
    ensures r.Some? ==> r.value < |t| && p(t[r.value])
    ensures r.Some? ==> forall k :: 0 <= k < r.value ==> !p(t[k])
    ensures r.None? ==> forall k :: 0 <= k < |t| ==> !p(t[k])
    decreases |t|
  {
    if |t| == 0 then None
    else if p(t[0]) then Some(0)
    else
      match FindFirst(t[1..], p)
      case None => None
      case Some(k) => Some(k + 1)
  }

  /** `SELECT … WHERE id = ?`: the entry with that id. */
  function FindId<T>(t: Table<T>, id: nat): (r: Option<nat>)
    ensures r.Some? ==> r.value < |t| && t[r.value].id == id
    ensures r.None? ==> forall k :: 0 <= k < |t| ==> t[k].id != id
  {
    FindFirst(t, (e: Entry<T>) => e.id == id)
  }

  /** With unique ids an id names at most one entry. */
  lemma IdUnique<T>(t: Table<T>, i: nat, j: nat)
    requires IdsIncreasing(t)
    requires i < |t| && j < |t| && t[i].id == t[j].id
    ensures i == j
  {
  }

  /** `DELETE … WHERE`: the entries that do not satisfy `drop`, in order. */
  function Remove<T>(t: Table<T>, drop: Entry<T> -> bool): (r: Table<T>)
    ensures |r| <= |t|
    ensures forall i :: 0 <= i < |r| ==> r[i] in t && !drop(r[i])
    ensures forall i :: 0 <= i < |t| && !drop(t[i]) ==> t[i] in r
    decreases |t|
  {
    if |t| == 0 then []
    else if drop(t[0]) then Remove(t[1..], drop)
    else [t[0]] + Remove(t[1..], drop)
  }

  lemma {:induction false} RemoveWellKeyed<T>(t: Table<T>, drop: Entry<T> -> bool, bound: nat)
    requires WellKeyed(t, bound)
    ensures WellKeyed(Remove(t, drop), bound)
    decreases |t|
  {
    if |t| > 0 {
      var tail := t[1..];
      TailWellKeyed(t, bound);
      RemoveWellKeyed(tail, drop, bound);
      var rest := Remove(tail, drop);
      forall i | 0 <= i < |rest|
        ensures t[0].id < rest[i].id
      {
        var k :| 0 <= k < |tail| && tail[k] == rest[i];
        assert t[k + 1] == rest[i];
      }
      if !drop(t[0]) {
        ConsWellKeyed(t[0], rest, bound);
      }
    }
  }

  lemma TailWellKeyed<T>(t: Table<T>, bound: nat)
    requires |t| > 0 && WellKeyed(t, bound)
    ensures WellKeyed(t[1..], bound)
  {
    assert forall i :: 0 <= i < |t[1..]| ==> t[1..][i] == t[i + 1];
  }

  lemma ConsWellKeyed<T>(e: Entry<T>, t: Table<T>, bound: nat)
    requires WellKeyed(t, bound) && e.id < bound
    requires forall i :: 0 <= i < |t| ==> e.id < t[i].id
    ensures WellKeyed([e] + t, bound)
  {
    var r := [e] + t;
    assert forall i :: 0 < i < |r| ==> r[i] == t[i - 1];
  }

  /** `UPDATE … SET`: every entry rewritten by f, ids kept. */
  function MapRows<T>(t: Table<T>, f: Entry<T> -> T): (r: Table<T>)
    ensures |r| == |t|
    ensures forall i :: 0 <= i < |t| ==> r[i] == Entry(t[i].id, f(t[i]))
  {
    seq(|t|, i requires 0 <= i < |t| => Entry(t[i].id, f(t[i])))
  }

  lemma MapRowsWellKeyed<T>(t: Table<T>, f: Entry<T> -> T, bound: nat)
    requires WellKeyed(t, bound)
    ensures WellKeyed(MapRows(t, f), bound)
  {
  }

  /** `INSERT`: appends a row under the id `bound`, which exceeds every id in the table. */
  lemma AppendWellKeyed<T>(t: Table<T>, bound: nat, row: T)
    requires WellKeyed(t, bound)
    ensures WellKeyed(t + [Entry(bound, row)], bound + 1)
  {
  }

  lemma WellKeyedGrow<T>(t: Table<T>, bound: nat, bound': nat)
    requires WellKeyed(t, bound) && bound <= bound'
    ensures WellKeyed(t, bound')
  {
  }

  /** `SELECT COUNT(*) … WHERE`. */
  function Count<T>(t: Table<T>, p: Entry<T> -> bool): nat
    decreases |t|
  {
    if |t| == 0 then 0 else (if p(t[0]) then 1 else 0) + Count(t[1..], p)
  }

  lemma {:induction false} CountAppend<T>(t: Table<T>, e: Entry<T>, p: Entry<T> -> bool)
    ensures Count(t + [e], p) == Count(t, p) + (if p(e) then 1 else 0)
    decreases |t|
  {
    if |t| > 0 {
      assert (t + [e])[1..] == t[1..] + [e];
      CountAppend(t[1..], e, p);
    } else {
      assert (t + [e])[1..] == [];
    }
  }

  /** A count is positive exactly when some entry qualifies. */
  lemma {:induction false} CountPositive<T>(t: Table<T>, p: Entry<T> -> bool)
    ensures Count(t, p) > 0 <==> exists k :: 0 <= k < |t| && p(t[k])
    decreases |t|
  {
    if |t| > 0 {
      CountPositive(t[1..], p);
      if exists k :: 0 <= k < |t| && p(t[k]) {
        var k :| 0 <= k < |t| && p(t[k]);
        if k > 0 {
          assert t[1..][k - 1] == t[k];
        }
      }
      if exists k :: 0 <= k < |t[1..]| && p(t[1..][k]) {
        var k :| 0 <= k < |t[1..]| && p(t[1..][k]);
        assert t[k + 1] == t[1..][k];
      }
    }
  }

  /** Rewriting rows with a function that never changes whether p holds keeps the count. */
  lemma {:induction false} CountMapRows<T>(t: Table<T>, f: Entry<T> -> T, p: Entry<T> -> bool)
    requires forall i :: 0 <= i < |t| ==> p(Entry(t[i].id, f(t[i]))) == p(t[i])
    ensures Count(MapRows(t, f), p) == Count(t, p)
    decreases |t|
  {
    if |t| > 0 {
      assert MapRows(t, f)[1..] == MapRows(t[1..], f);
      assert forall i :: 0 <= i < |t[1..]| ==> t[1..][i] == t[i + 1];
      CountMapRows(t[1..], f, p);
    }
  }

  /**
   * Deleting the entries that `drop` selects, when exactly one entry is selected, lowers every
   * count by one if that entry was counted and leaves it otherwise.
   */
  lemma {:induction false} CountRemoveOne<T>(t: Table<T>, drop: Entry<T> -> bool, p: Entry<T> -> bool, k: nat)
    requires k < |t| && drop(t[k])
    requires forall i :: 0 <= i < |t| && i != k ==> !drop(t[i])
    ensures Count(Remove(t, drop), p) + (if p(t[k]) then 1 else 0) == Count(t, p)
    decreases |t|
  {
    if k == 0 {
      RemoveNothing(t[1..], drop);
    } else {
      assert forall i :: 0 <= i < |t[1..]| && i != k - 1 ==> !drop(t[1..][i]) by {
        forall i | 0 <= i < |t[1..]| && i != k - 1
          ensures !drop(t[1..][i])
        {
          assert t[1..][i] == t[i + 1];
        }
      }
      CountRemoveOne(t[1..], drop, p, k - 1);
    }
  }

  lemma {:induction false} RemoveNothing<T>(t: Table<T>, drop: Entry<T> -> bool)
    requires forall i :: 0 <= i < |t| ==> !drop(t[i])
    ensures Remove(t, drop) == t
    decreases |t|
  {
    if |t| > 0 {
      assert forall i :: 0 <= i < |t[1..]| ==> !drop(t[1..][i]) by {
        forall i | 0 <= i < |t[1..]|
          ensures !drop(t[1..][i])
        {
          assert t[1..][i] == t[i + 1];
        }
      }
      RemoveNothing(t[1..], drop);
      assert t == [t[0]] + t[1..];
    }
  }
}
