/**
 * The client's subscription endpoints (backend/controllers/clientSubscriptionController.js):
 * which active subscription is shown as the main one, and the checks in front of a purchase.
 */
module SubscriptionController {
  import opened Wrappers
  import opened Store
  import opened Http
  import opened Ledger

  /** What `getMySubscription` answers: every active subscription, newest first, and the main one. */
  datatype Overview = Overview(subscriptions: seq<Held>, main: Option<Held>)

  /**
   * `getMySubscription`: no active subscription gives an empty list and no main one; otherwise
   * the main one is the first combo of the list, else its first element.
   */
  function MySubscription(db: Db, user: nat, now: int): (r: Overview)
    ensures r.subscriptions == AllActive(db, user, now)
    ensures |r.subscriptions| == 0 ==> r.main.None?
    ensures r.main.Some? ==> r.main.value in r.subscriptions
    ensures r.main.Some? && r.main.value.kind != ComboKind ==>
      r.main.value == r.subscriptions[0] && forall h :: h in r.subscriptions ==> h.kind != ComboKind
  {
    var list := AllActive(db, user, now);
    if |list| == 0 then Overview([], None)
    else
      var k := FirstOfKind(list, ComboKind);
      Overview(list, if k.Some? then Some(list[k.value]) else Some(list[0]))
  }

  /** The main subscription shown is the one the model's `getActiveByUserId` returns. */
  lemma MainIsActiveChoice(db: Db, user: nat, now: int)
    ensures MySubscription(db, user, now).main == MainActive(db, user, now)
  {
  }

  /**
   * `purchaseSubscription`: 400 without a type id, 404 for an unknown type (before any write);
   * otherwise the purchase, answered with the main active subscription afterwards.
   */
  function PurchaseSubscription(db: Db, user: nat, typeId: Option<nat>, now: int): (h: Handled<Option<Held>>)
    ensures !Present(typeId) ==> h == Handled(db, Fail(Missing("subscription_type_id")))
    ensures Present(typeId) && typeId.value !in db.types ==> h == Handled(db, Fail(Absent("subscription type")))
    ensures h.reply.Ok? <==> Present(typeId) && typeId.value in db.types
    ensures h.reply.Ok? ==> h.db == Purchase(db, user, typeId.value, now).db && h.reply.value == MainActive(h.db, user, now)
    ensures !h.reply.Ok? ==> h.db == db
  {
    if !Present(typeId) then Handled(db, Fail(Missing("subscription_type_id")))
    else if typeId.value !in db.types then Handled(db, Fail(Absent("subscription type")))
    else
      var tx := Purchase(db, user, typeId.value, now);
      Handled(tx.db, Ok(MainActive(tx.db, user, now)))
  }

  /**
   * After buying a group, gym or combo subscription that lasts at least a day, when no row was
   * bought later than now, the answer is a subscription bought now: every active combo the new
   * one could lose to was just expired, and nothing is more recent.
   */
  lemma PurchaseAnswersNewest(db: Db, user: nat, typeId: nat, now: int)
    requires typeId != 0 && typeId in db.types
    requires db.types[typeId].kind in {GroupKind, GymKind, ComboKind} && db.types[typeId].durationDays > 0
    requires forall i :: 0 <= i < |db.subs| ==> db.subs[i].row.purchased <= now
    ensures var h := PurchaseSubscription(db, user, Some(typeId), now);
      h.reply.Ok? && h.reply.value.Some? && h.reply.value.value.sub.purchased == now
  {
    var t := db.types[typeId];
    var tx := Purchase(db, user, typeId, now);
    var subs := tx.db.subs;
    var n := |db.subs|;
    assert subs == ExpireSuperseded(db.subs, db.types, user, now, t.kind) + [subs[n]];
    assert ActiveFor(subs[n], tx.db.types, user, now);
    var r := MainActive(tx.db, user, now);
    assert r.Some?;
    if r.value.kind == ComboKind {
      var i :| 0 <= i < |subs| && subs[i] == Entry(r.value.id, r.value.sub);
      assert i == n;
    } else {
      assert subs[n].row.purchased <= r.value.sub.purchased;
      var i :| 0 <= i < |subs| && subs[i] == Entry(r.value.id, r.value.sub);
      if i < n {
        assert subs[i].row.purchased == db.subs[i].row.purchased;
      }
    }
  }
}
