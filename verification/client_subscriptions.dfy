/**
 * The client's subscription page (js/client-subscriptions.js): which catalogue entries may be
 * bought, the catalogue filter, the "expiring soon" marker and the Russian word for "days".
 */
module ClientSubscriptions {
  import opened Wrappers
  import opened Text
  import opened Clock
  import opened Store
  import opened Ledger

  /** The purchase button of a catalogue entry: enabled, or disabled as a type already held. */
  datatype PurchaseButton = CanBuy | AlreadyHeld

  /**
   * The decision of `renderAvailableSubscriptions` for a catalogue entry of type `kind`, given
   * the client's active subscriptions: a combo is always sold; any other type is refused while
   * the client holds one of that type; holding a combo blocks nothing.
   */
  function PurchaseState(kind: string, mine: seq<Held>): (r: PurchaseButton)
    ensures kind == ComboKind ==> r == CanBuy
    ensures r == AlreadyHeld <==> kind != ComboKind && exists i :: 0 <= i < |mine| && mine[i].kind == kind
  {
    var hasSameType := exists i :: 0 <= i < |mine| && mine[i].kind == kind;
    if kind == ComboKind then CanBuy
    else if hasSameType then AlreadyHeld
    else CanBuy
  }

  /** Once a type other than combo is held, the page refuses a second one of it. */
  lemma SecondOfKindRefused(kind: string, mine: seq<Held>, h: Held)
    requires h.kind == kind && kind != ComboKind
    ensures PurchaseState(kind, mine + [h]) == AlreadyHeld
  {
    assert (mine + [h])[|mine|] == h;
  }

  /** Holding a combo changes no decision about the other types. */
  lemma ComboDoesNotBlock(kind: string, mine: seq<Held>, combo: Held)
    requires combo.kind == ComboKind
    ensures PurchaseState(kind, mine + [combo]) == PurchaseState(kind, mine)
  {
    var more := mine + [combo];
    if kind != ComboKind {
      assert forall i :: 0 <= i < |mine| ==> more[i] == mine[i];
    }
  }

  /**
   * The page offers a gym subscription to a client whose only category subscription is an
   * active combo, and buying it expires that combo: the back end treats gym and combo as
   * conflicting, the page does not.
   */
  lemma GymOverComboExpiresCombo(db: Db, user: nat, now: int, typeId: nat, combo: Held)
    requires typeId in db.types && db.types[typeId].kind == GymKind
    requires combo in AllActive(db, user, now) && combo.kind == ComboKind
    requires forall h :: h in AllActive(db, user, now) ==> h.kind != GymKind
    ensures PurchaseState(GymKind, AllActive(db, user, now)) == CanBuy
    ensures var after := Purchase(db, user, typeId, now).db.subs;
      exists i :: 0 <= i < |db.subs| && db.subs[i].id == combo.id && after[i].row.status == Expired
  {
    var mine := AllActive(db, user, now);
    assert forall i :: 0 <= i < |mine| ==> mine[i].kind != GymKind;
    assert Genuine(combo, db.subs, db.types, user, now);
    var i :| 0 <= i < |db.subs| && db.subs[i] == Entry(combo.id, combo.sub);
    assert db.types[db.subs[i].row.typeId].kind == ComboKind;
  }

  /** JavaScript's `Math.ceil(a / b)` for a positive divisor. */
  function CeilDiv(a: int, b: int): (r: int)
    requires b > 0
    ensures (r - 1) * b < a <= r * b
  {
    var q := (-a) / b;
    assert -a == b * q + (-a) % b;
    -q
  }

  /**
   * `daysLeft`: whole days to the expiry, rounded up; none without an expiry. Timestamps are
   * seconds on the clock the page reads.
   */
  function DaysLeft(expires: Option<int>, now: int): (r: Option<int>)
    ensures r.Some? <==> expires.Some?
    ensures r.Some? ==> (r.value - 1) * SecondsPerDay < expires.value - now <= r.value * SecondsPerDay
  {
    if expires.None? then None else Some(CeilDiv(expires.value - now, SecondsPerDay))
  }

  /** `isExpiringSoon`: some days left, at most seven. */
  predicate ExpiringSoon(daysLeft: Option<int>) {
    daysLeft.Some? && daysLeft.value <= 7 && daysLeft.value > 0
  }

  /**
   * A subscription is marked as expiring soon exactly when its expiry lies after now and at most
   * seven days ahead.
   */
  lemma ExpiringSoonIffWithinAWeek(expires: int, now: int)
    ensures ExpiringSoon(DaysLeft(Some(expires), now)) <==> 0 < expires - now <= 7 * SecondsPerDay
  {
    var d := CeilDiv(expires - now, SecondsPerDay);
    if 0 < expires - now <= 7 * SecondsPerDay {
      assert (d - 1) * SecondsPerDay < 7 * SecondsPerDay;
      assert 0 < d * SecondsPerDay;
    }
    if ExpiringSoon(DaysLeft(Some(expires), now)) {
      assert d * SecondsPerDay <= 7 * SecondsPerDay;
      assert (d - 1) * SecondsPerDay >= 0;
    }
  }

  /** `getDaysWord`: "день" for 1, "дня" for 2 to 4, "дней" otherwise. */
  function DaysWord(days: int): string {
    if days == 1 then "день" else if 2 <= days <= 4 then "дня" else "дней"
  }

  /** The Russian agreement rule for a count of days, which looks at the last two digits. */
  function GrammaticalDaysWord(n: nat): string {
    var last, lastTwo := n % 10, n % 100;
    if last == 1 && lastTwo != 11 then "день"
    else if 2 <= last <= 4 && !(12 <= lastTwo <= 14) then "дня"
    else "дней"
  }

  /** Up to twenty the page's word agrees with the grammar, which covers every count it shows. */
  lemma DaysWordUpToTwenty(n: nat)
    requires n <= 20
    ensures DaysWord(n) == GrammaticalDaysWord(n)
  {
  }

  /** The word appears only next to an expiring-soon count, where it is always the grammatical one. */
  lemma ExpiringShowsGrammaticalWord(expires: Option<int>, now: int)
    requires ExpiringSoon(DaysLeft(expires, now))
    ensures DaysWord(DaysLeft(expires, now).value) == GrammaticalDaysWord(DaysLeft(expires, now).value)
  {
    DaysWordUpToTwenty(DaysLeft(expires, now).value);
  }

  /**
   * In the twenties the simple rule departs from the grammar from 21 to 24 (which take "день"
   * and "дня") and agrees with it again from 25 to 30.
   */
  lemma DaysWordInTheTwenties(n: nat)
    requires 21 <= n <= 30
    ensures DaysWord(n) == GrammaticalDaysWord(n) <==> n >= 25
  {
    if n == 21 {
      assert DaysWord(21) == "дней" && GrammaticalDaysWord(21) == "день";
      assert "дней"[3] != "день"[3];
    } else if n <= 24 {
      assert DaysWord(n) == "дней" && GrammaticalDaysWord(n) == "дня";
      assert |"дней"| != |"дня"|;
    }
  }

  /** A catalogue card as the filter reads it: its title and its `data-subscription-type`. */
  datatype Card = Card(title: string, kind: string)

  /**
   * `filterSubscriptions` for one card: a non-empty category must occur in the lowercased title,
   * ignoring case, and a non-empty type filter must equal the card's type.
   */
  predicate Shown(card: Card, category: string, typeFilter: string) {
    var c := Lower(category);
    (|c| == 0 || Contains(Lower(card.title), c)) && (|typeFilter| == 0 || card.kind == typeFilter)
  }

  /** The two filters act independently: a card is shown when it passes each one on its own. */
  lemma FiltersCompose(card: Card, category: string, typeFilter: string)
    ensures Shown(card, category, typeFilter) <==> Shown(card, category, "") && Shown(card, "", typeFilter)
  {
  }

  /** The category filter ignores letter case. */
  lemma CategoryIgnoresCase(card: Card, category: string, typeFilter: string)
    ensures Shown(card, Lower(category), typeFilter) == Shown(card, category, typeFilter)
  {
    LowerIdempotent(category);
  }

  /** Filtering by a card's own title and type keeps it. */
  lemma OwnTitleAndTypeShown(card: Card)
    ensures Shown(card, card.title, card.kind)
  {
    ContainsSelf(Lower(card.title));
  }
}
