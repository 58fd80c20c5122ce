/**
 * The entitlement ledger (backend/models/UserSubscription.js): purchased subscriptions, their
 * lazily computed "active" state, purchase with category-conflict deactivation, and the visit
 * counter's debit and refund steps that the booking transactions use.
 */
module Ledger {
  import opened Wrappers
  import opened Store
  import opened Sorting
  import opened Clock

  const GroupKind: string := "group"
  const GymKind: string := "gym"
  const ComboKind: string := "combo"

  /** A row of the join `user_subscriptions JOIN subscription_types`: the entry and its type's kind. */
  datatype Held = Held(id: nat, sub: UserSub, kind: string)

  /**
   * Lazy expiry: a row counts as active when its status is 'active' and it has no expiry or
   * expires after `now`. No read path ever writes 'expired' back.
   */
  predicate IsActive(u: UserSub, now: int) {
    u.status == Active && (u.expires.None? || u.expires.value > now)
  }

  /** The row is this user's, active at `now`, and its type still exists (the join keeps it). */
  predicate ActiveFor(e: Entry<UserSub>, types: map<nat, SubscriptionType>, user: nat, now: int) {
    e.row.user == user && IsActive(e.row, now) && e.row.typeId in types
  }

  function Join(e: Entry<UserSub>, types: map<nat, SubscriptionType>): Held
    requires e.row.typeId in types
  {
    Held(e.id, e.row, types[e.row.typeId].kind)
  }

  /** A joined row that comes from one of the user's active table rows. */
  predicate Genuine(h: Held, subs: Table<UserSub>, types: map<nat, SubscriptionType>, user: nat, now: int) {
    && Entry(h.id, h.sub) in subs
    && ActiveFor(Entry(h.id, h.sub), types, user, now)
    && h.kind == types[h.sub.typeId].kind
  }

  /** How many of the user's active table rows join to h. */
  function Occurrences(subs: Table<UserSub>, types: map<nat, SubscriptionType>, user: nat, now: int, h: Held): nat
    decreases |subs|
  {
    if |subs| == 0 then 0
    else
      var here := if ActiveFor(subs[0], types, user, now) && Join(subs[0], types) == h then 1 else 0;
      here + Occurrences(subs[1..], types, user, now, h)
  }

  /** The user's active joined rows in table order: each one exactly as often as the table holds it. */
  function ActiveRows(subs: Table<UserSub>, types: map<nat, SubscriptionType>, user: nat, now: int): (r: seq<Held>)
    ensures forall h :: h in r ==> Genuine(h, subs, types, user, now)
    ensures forall i :: 0 <= i < |subs| && ActiveFor(subs[i], types, user, now) ==> Join(subs[i], types) in r
    ensures forall h :: multiset(r)[h] == Occurrences(subs, types, user, now, h)
    decreases |subs|
  {
    if |subs| == 0 then []
    else
      var rest := ActiveRows(subs[1..], types, user, now);
      assert forall i :: 0 <= i < |subs[1..]| ==> subs[1..][i] == subs[i + 1];
      if ActiveFor(subs[0], types, user, now) then [Join(subs[0], types)] + rest else rest
  }

  /** `ORDER BY purchase_date DESC`: most recent first. */
  function RecencyKey(h: Held): Key {
    (-(h.sub.purchased as real), 0.0)
  }

  /**
   * `getAllActiveByUserId`: exactly the user's active rows, most recently purchased first.
   * (SQL leaves the order of equal purchase times open; the model keeps them in table order.)
   */
  function AllActive(db: Db, user: nat, now: int): (r: seq<Held>)
    ensures forall h :: h in r ==> Genuine(h, db.subs, db.types, user, now)
    ensures forall i :: 0 <= i < |db.subs| && ActiveFor(db.subs[i], db.types, user, now) ==>
      Join(db.subs[i], db.types) in r
    ensures forall i, j :: 0 <= i < j < |r| ==> r[i].sub.purchased >= r[j].sub.purchased
    ensures multiset(r) == multiset(ActiveRows(db.subs, db.types, user, now))
    ensures forall h :: multiset(r)[h] == Occurrences(db.subs, db.types, user, now, h)
  {
    var rows := ActiveRows(db.subs, db.types, user, now);
    var sorted := SortBy(rows, RecencyKey);
    SameMembers(sorted, rows);
    RecencyDescending(sorted);
    sorted
  }

  lemma SameMembers(xs: seq<Held>, ys: seq<Held>)
    requires multiset(xs) == multiset(ys)
    ensures forall h :: h in xs <==> h in ys
  {
    forall h {
      MemberOfPermutation(xs, ys, h);
    }
  }

  /** Ascending recency keys mean descending purchase times. */
  lemma RecencyDescending(xs: seq<Held>)
    requires SortedBy(xs, RecencyKey)
    ensures forall i, j :: 0 <= i < j < |xs| ==> xs[i].sub.purchased >= xs[j].sub.purchased
  {
    forall i, j | 0 <= i < j < |xs|
      ensures xs[i].sub.purchased >= xs[j].sub.purchased
    {
      assert KeyLe(RecencyKey(xs[i]), RecencyKey(xs[j]));
    }
  }

  /** `Array.prototype.find` for a kind: the index of the first row of that kind. */
  function FirstOfKind(xs: seq<Held>, kind: string): (r: Option<nat>)
    ensures r.Some? ==> r.value < |xs| && xs[r.value].kind == kind
    ensures r.Some? ==> forall k :: 0 <= k < r.value ==> xs[k].kind != kind
    ensures r.None? ==> forall k :: 0 <= k < |xs| ==> xs[k].kind != kind
    decreases |xs|
  {
    if |xs| == 0 then None
    else if xs[0].kind == kind then Some(0)
    else
      match FirstOfKind(xs[1..], kind)
      case None => None
      case Some(k) => Some(k + 1)
  }

  /** The combo if the list holds one, else its first row, else nothing. */
  function PreferCombo(xs: seq<Held>): (r: Option<Held>)
    ensures r.None? <==> |xs| == 0
    ensures r.Some? ==> r.value in xs
    ensures (exists k :: 0 <= k < |xs| && xs[k].kind == ComboKind) ==> r.Some? && r.value.kind == ComboKind
  {
    match FirstOfKind(xs, ComboKind)
    case Some(k) => Some(xs[k])
    case None => if |xs| > 0 then Some(xs[0]) else None
  }

  /**
   * `getActiveByUserId`: the user's most recently purchased active combo if there is one,
   * else the most recently purchased active row of any kind, else nothing.
   */
  function MainActive(db: Db, user: nat, now: int): (r: Option<Held>)
    ensures r.None? <==> forall i :: 0 <= i < |db.subs| ==> !ActiveFor(db.subs[i], db.types, user, now)
    ensures r.Some? ==>
      && Entry(r.value.id, r.value.sub) in db.subs
      && ActiveFor(Entry(r.value.id, r.value.sub), db.types, user, now)
      && r.value.kind == db.types[r.value.sub.typeId].kind
    ensures r.Some? && (exists i :: 0 <= i < |db.subs| && ActiveFor(db.subs[i], db.types, user, now)
                          && db.types[db.subs[i].row.typeId].kind == ComboKind) ==>
      r.value.kind == ComboKind
    ensures r.Some? ==> forall i ::
      (0 <= i < |db.subs| && ActiveFor(db.subs[i], db.types, user, now)
       && (db.types[db.subs[i].row.typeId].kind == ComboKind || r.value.kind != ComboKind)) ==>
      db.subs[i].row.purchased <= r.value.sub.purchased
  {
    var list := AllActive(db, user, now);
    var r := PreferCombo(list);
    assert forall i :: 0 <= i < |db.subs| && ActiveFor(db.subs[i], db.types, user, now) ==>
      Join(db.subs[i], db.types) in list;
    r
  }

  /**
   * The kinds a purchase deactivates: a combo supersedes every category, a group or gym
   * subscription supersedes its own category and combo, anything else supersedes nothing.
   */
  function DeactivatedKinds(kind: string): (r: set<string>)
    ensures r <= {GroupKind, GymKind, ComboKind}
    ensures kind in r <==> kind in {GroupKind, GymKind, ComboKind}
    ensures r != {} ==> ComboKind in r
  {
    if kind == ComboKind then {GroupKind, GymKind, ComboKind}
    else if kind == GroupKind then {GroupKind, ComboKind}
    else if kind == GymKind then {GymKind, ComboKind}
    else {}
  }

  /** Two kinds conflict when buying either one deactivates the other. */
  lemma DeactivationSymmetric(a: string, b: string)
    ensures b in DeactivatedKinds(a) <==> a in DeactivatedKinds(b)
  {
  }

  /** Rows that `purchase` of a subscription of `kind` flips to 'expired'. */
  predicate Superseded(e: Entry<UserSub>, types: map<nat, SubscriptionType>, user: nat, now: int, kind: string) {
    ActiveFor(e, types, user, now) && types[e.row.typeId].kind in DeactivatedKinds(kind)
  }

  function ExpireSuperseded(subs: Table<UserSub>, types: map<nat, SubscriptionType>, user: nat, now: int, kind: string): (r: Table<UserSub>)
    ensures |r| == |subs|
    ensures forall i :: 0 <= i < |subs| ==> r[i].id == subs[i].id
    ensures forall i :: 0 <= i < |subs| ==> r[i].row == if Superseded(subs[i], types, user, now, kind)
                                                       then subs[i].row.(status := Expired) else subs[i].row
  {
    MapRows(subs, (e: Entry<UserSub>) =>
      if Superseded(e, types, user, now, kind) then e.row.(status := Expired) else e.row)
  }

  /**
   * `UserSubscription.create`: buys subscription type `typeId` for `user` at time `now`.
   * Fails without change for an unknown type. Otherwise the user's active rows of a
   * superseded kind become 'expired' and one new active row is appended with the type's visit
   * count and an expiry `durationDays` days after `now`; its id is returned.
   */
  function Purchase(db: Db, user: nat, typeId: nat, now: int): (tx: Tx<nat>)
    ensures tx.result.Failure? <==> typeId !in db.types
    ensures tx.result.Failure? ==> tx.db == db && tx.result.error == SubscriptionTypeNotFound
    ensures tx.result.Success? ==>
      var t := db.types[typeId];
      && tx.result.value == db.nextId
      && tx.db == db.(subs := tx.db.subs, nextId := db.nextId + 1)
      && |tx.db.subs| == |db.subs| + 1
      && tx.db.subs[|db.subs|] == Entry(db.nextId, UserSub(user, typeId, now,
           Some(now + t.durationDays * SecondsPerDay), Active, t.visits))
      && (forall i :: 0 <= i < |db.subs| ==> tx.db.subs[i].id == db.subs[i].id)
      // only the status of superseded rows changes, and every superseded row changes
      && (forall i :: 0 <= i < |db.subs| ==>
            tx.db.subs[i].row == db.subs[i].row.(status := tx.db.subs[i].row.status))
      && (forall i :: 0 <= i < |db.subs| && db.subs[i].row.user != user ==> tx.db.subs[i] == db.subs[i])
      && (forall i :: (0 <= i < |db.subs| && db.subs[i].row.typeId in db.types
            && db.types[db.subs[i].row.typeId].kind !in DeactivatedKinds(t.kind)) ==> tx.db.subs[i] == db.subs[i])
      && (forall i :: (0 <= i < |db.subs| && ActiveFor(db.subs[i], db.types, user, now)
            && db.types[db.subs[i].row.typeId].kind in DeactivatedKinds(t.kind)) ==>
            tx.db.subs[i].row.status == Expired)
  {
    if typeId !in db.types then Tx(db, Failure(SubscriptionTypeNotFound))
    else
      var t := db.types[typeId];
      var expired := ExpireSuperseded(db.subs, db.types, user, now, t.kind);
      var row := UserSub(user, typeId, now, Some(now + t.durationDays * SecondsPerDay), Active, t.visits);
      Tx(db.(subs := expired + [Entry(db.nextId, row)], nextId := db.nextId + 1), Success(db.nextId))
  }

  /** No row ever holds a negative visit count. */
  predicate VisitsNonNegative(subs: Table<UserSub>) {
    forall i :: 0 <= i < |subs| ==> subs[i].row.remaining >= 0
  }

  /** The catalogue never promises a negative number of visits. */
  predicate CatalogueSane(types: map<nat, SubscriptionType>) {
    forall id :: id in types ==> types[id].visits >= 0
  }

  lemma PurchaseKeepsVisitsNonNegative(db: Db, user: nat, typeId: nat, now: int)
    requires VisitsNonNegative(db.subs) && CatalogueSane(db.types)
    ensures VisitsNonNegative(Purchase(db, user, typeId, now).db.subs)
  {
  }

  lemma PurchaseKeepsValid(db: Db, user: nat, typeId: nat, now: int)
    requires Valid(db)
    ensures Valid(Purchase(db, user, typeId, now).db)
  {
    if typeId in db.types {
      var t := db.types[typeId];
      var expired := ExpireSuperseded(db.subs, db.types, user, now, t.kind);
      assert WellKeyed(expired, db.nextId);
      AppendWellKeyed(expired, db.nextId,
        UserSub(user, typeId, now, Some(now + t.durationDays * SecondsPerDay), Active, t.visits));
    }
  }

  /**
   * Category exclusivity at time `now`: no user holds two active rows whose kinds conflict
   * (buying either would deactivate the other).
   */
  predicate Exclusive(db: Db, now: int) {
    forall i, j ::
      (0 <= i < |db.subs| && 0 <= j < |db.subs| && i != j
       && db.subs[i].row.user == db.subs[j].row.user
       && ActiveFor(db.subs[i], db.types, db.subs[i].row.user, now)
       && ActiveFor(db.subs[j], db.types, db.subs[j].row.user, now)) ==>
      db.types[db.subs[i].row.typeId].kind !in DeactivatedKinds(db.types[db.subs[j].row.typeId].kind)
  }

  /** A purchase keeps category exclusivity at the purchase time. */
  lemma {:induction false} PurchaseKeepsExclusive(db: Db, user: nat, typeId: nat, now: int)
    requires Exclusive(db, now)
    ensures Exclusive(Purchase(db, user, typeId, now).db, now)
  {
    var tx := Purchase(db, user, typeId, now);
    if typeId in db.types {
      var t := db.types[typeId];
      var s := tx.db.subs;
      var n := |db.subs|;
      forall i, j | 0 <= i < |s| && 0 <= j < |s| && i != j
        && s[i].row.user == s[j].row.user
        && ActiveFor(s[i], db.types, s[i].row.user, now)
        && ActiveFor(s[j], db.types, s[j].row.user, now)
        ensures db.types[s[i].row.typeId].kind !in DeactivatedKinds(db.types[s[j].row.typeId].kind)
      {
        if i == n {
          // the new row: the other row survived, so it was not superseded
          assert s[j].row == db.subs[j].row;
          DeactivationSymmetric(t.kind, db.types[s[j].row.typeId].kind);
        } else if j == n {
          assert s[i].row == db.subs[i].row;
        } else {
          assert s[i].row == db.subs[i].row && s[j].row == db.subs[j].row;
        }
      }
    }
  }

  /**
   * `decrementVisits`: `remaining_visits - 1 WHERE id = ? AND remaining_visits > 0`; the flag
   * says whether a row changed.
   */
  function DecrementVisits(subs: Table<UserSub>, id: nat): (r: (Table<UserSub>, bool))
    ensures |r.0| == |subs|
    ensures r.1 <==> exists i :: 0 <= i < |subs| && subs[i].id == id && subs[i].row.remaining > 0
    ensures forall i :: 0 <= i < |subs| ==> r.0[i].id == subs[i].id
    ensures forall i :: 0 <= i < |subs| ==>
      r.0[i].row == if subs[i].id == id && subs[i].row.remaining > 0
                    then subs[i].row.(remaining := subs[i].row.remaining - 1) else subs[i].row
    ensures !r.1 ==> r.0 == subs
  {
    var hit := FindFirst(subs, (e: Entry<UserSub>) => e.id == id && e.row.remaining > 0);
    var out := MapRows(subs, (e: Entry<UserSub>) =>
      if e.id == id && e.row.remaining > 0 then e.row.(remaining := e.row.remaining - 1) else e.row);
    if hit.None? then
      assert out == subs;
      (subs, false)
    else (out, true)
  }

  /** The conditional decrement can never push a counter below zero. */
  lemma DecrementKeepsVisitsNonNegative(subs: Table<UserSub>, id: nat)
    requires VisitsNonNegative(subs)
    ensures VisitsNonNegative(DecrementVisits(subs, id).0)
  {
  }

  /**
   * The debit inside `Booking.create`: `remaining_visits - 1 WHERE id = ? AND user_id = ? AND
   * remaining_visits > 0`; the flag says whether a row changed.
   */
  function ConsumeVisit(subs: Table<UserSub>, id: nat, user: nat): (r: (Table<UserSub>, bool))
    ensures |r.0| == |subs|
    ensures r.1 <==> exists i :: 0 <= i < |subs| && subs[i].id == id && subs[i].row.user == user && subs[i].row.remaining > 0
    ensures forall i :: 0 <= i < |subs| ==> r.0[i].id == subs[i].id
    ensures forall i :: 0 <= i < |subs| ==>
      r.0[i].row == if subs[i].id == id && subs[i].row.user == user && subs[i].row.remaining > 0
                    then subs[i].row.(remaining := subs[i].row.remaining - 1) else subs[i].row
  {
    var hit := FindFirst(subs, (e: Entry<UserSub>) => e.id == id && e.row.user == user && e.row.remaining > 0);
    var out := MapRows(subs, (e: Entry<UserSub>) =>
      if e.id == id && e.row.user == user && e.row.remaining > 0 then e.row.(remaining := e.row.remaining - 1) else e.row);
    (out, hit.Some?)
  }

  /**
   * The refund on cancellation: `remaining_visits + 1 WHERE id = ? AND user_id = ?`, with no
   * upper bound; a missing row is a silent no-op.
   */
  function RefundVisit(subs: Table<UserSub>, id: nat, user: nat): (r: Table<UserSub>)
    ensures |r| == |subs|
    ensures forall i :: 0 <= i < |subs| ==> r[i].id == subs[i].id
    ensures forall i :: 0 <= i < |subs| ==>
      r[i].row == if subs[i].id == id && subs[i].row.user == user
                  then subs[i].row.(remaining := subs[i].row.remaining + 1) else subs[i].row
  {
    MapRows(subs, (e: Entry<UserSub>) =>
      if e.id == id && e.row.user == user then e.row.(remaining := e.row.remaining + 1) else e.row)
  }

  /** The unconditional debit inside `PersonalBooking.create`, after its own guard. */
  function DebitVisit(subs: Table<UserSub>, id: nat, user: nat): (r: Table<UserSub>)
    ensures |r| == |subs|
    ensures forall i :: 0 <= i < |subs| ==> r[i].id == subs[i].id
    ensures forall i :: 0 <= i < |subs| ==>
      r[i].row == if subs[i].id == id && subs[i].row.user == user
                  then subs[i].row.(remaining := subs[i].row.remaining - 1) else subs[i].row
  {
    MapRows(subs, (e: Entry<UserSub>) =>
      if e.id == id && e.row.user == user then e.row.(remaining := e.row.remaining - 1) else e.row)
  }

  /** A debit followed by a refund of the same row restores the table. */
  lemma RefundUndoesDebit(subs: Table<UserSub>, id: nat, user: nat)
    ensures RefundVisit(DebitVisit(subs, id, user), id, user) == subs
  {
    var d := DebitVisit(subs, id, user);
    var r := RefundVisit(d, id, user);
    assert forall i :: 0 <= i < |subs| ==> r[i] == subs[i];
  }
}
