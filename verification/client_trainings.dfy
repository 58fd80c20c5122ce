/**
 * The client's training-booking page (js/client-trainings.js): which calendar dates are offered
 * for a trainer's weekly slot, how a slot travels through the form as "day|time", the checks of
 * the trainer-less form, the inventory picker, and which payment methods are offered.
 */
module ClientTrainings {
  import opened Wrappers
  import opened Text
  import opened Clock
  import opened Store

  /** `getDayOfWeekNumber`: the `getDay()` number of a weekday name in any letter case. */
  function DayNumber(day: string): (r: Option<nat>)
    ensures r.Some? <==> FromName(Lower(day)).Some?
    ensures r.Some? ==> r.value < 7 && FromJsIndex(r.value) == FromName(Lower(day)).value
  {
    match FromName(Lower(day))
    case None => None
    case Some(w) => JsIndexBound(w); Some(JsIndex(w))
  }

  /** Every weekday name, whatever its letter case, has Sunday-first numbering 0..6. */
  lemma DayNumberOfName(day: string, w: Weekday)
    requires Lower(day) == Name(w)
    ensures DayNumber(day) == Some(JsIndex(w))
  {
    FromNameOfName(w);
  }

  /** Days from today to the next target weekday: today itself is pushed a full week ahead. */
  function DaysUntil(target: nat, current: nat): (n: nat)
    requires target < 7 && current < 7
    ensures 1 <= n <= 7
    ensures (current + n) % 7 == target
  {
    var diff := target - current;
    if diff < 0 then diff + 7 else if diff == 0 then 7 else diff
  }

  /** The source's second look at the weekday of a candidate date, shifting it forward on a mismatch. */
  function Corrected(date: Date, target: nat): (r: Date)
    requires target < 7
    ensures date <= r < date + 7
    ensures JsIndex(WeekdayOf(r)) == target
    ensures JsIndex(WeekdayOf(date)) == target ==> r == date
  {
    var check := JsIndex(WeekdayOf(date));
    if check != target then
      var correction := target - check;
      date + (if correction < 0 then correction + 7 else correction)
    else date
  }

  /** On whole calendar days the candidate is already on the target weekday, so no correction happens. */
  lemma CandidateOnTarget(today: Date, target: nat, k: nat)
    requires target < 7
    ensures var d := today + DaysUntil(target, JsIndex(WeekdayOf(today))) + 7 * k;
      JsIndex(WeekdayOf(d)) == target && Corrected(d, target) == d
  {
    var n := DaysUntil(target, JsIndex(WeekdayOf(today)));
    var d := today + n + 7 * k;
    assert (d + 4) % 7 == ((today + 4) % 7 + n) % 7;
  }

  /**
   * `getAvailableDatesForDayOfWeek`: nothing for an unknown day name; otherwise `weeksAhead`
   * dates one week apart, the first within the coming seven days and never today, all on the
   * named weekday.
   */
  function AvailableDates(day: string, today: Date, weeksAhead: nat): (r: seq<Date>)
    ensures DayNumber(day).None? ==> r == []
    ensures DayNumber(day).Some? ==> |r| == weeksAhead
    ensures |r| > 0 ==> today < r[0] <= today + 7
    ensures forall k :: 0 <= k < |r| ==> r[k] == r[0] + 7 * k
    ensures forall k :: 0 <= k < |r| ==> WeekdayOf(r[k]) == FromName(Lower(day)).value
  {
    match DayNumber(day)
    case None => []
    case Some(target) =>
      var n := DaysUntil(target, JsIndex(WeekdayOf(today)));
      var r := seq(weeksAhead, k requires 0 <= k => Corrected(today + n + 7 * k, target));
      assert forall k :: 0 <= k < |r| ==> r[k] == today + n + 7 * k && JsIndex(WeekdayOf(r[k])) == target by {
        forall k | 0 <= k < |r| ensures r[k] == today + n + 7 * k && JsIndex(WeekdayOf(r[k])) == target {
          CandidateOnTarget(today, target, k);
        }
      }
      r
  }

  /**
   * The list misses no date: every day on the named weekday after today and within `weeksAhead`
   * weeks is offered.
   */
  lemma AvailableDatesComplete(day: string, today: Date, weeksAhead: nat, d: Date)
    requires DayNumber(day).Some?
    requires today < d <= today + 7 * weeksAhead
    requires WeekdayOf(d) == FromName(Lower(day)).value
    ensures d in AvailableDates(day, today, weeksAhead)
  {
    var r := AvailableDates(day, today, weeksAhead);
    var r0 := r[0];
    assert WeekdayOf(r0) == WeekdayOf(d);
    if d < r0 {
      WeeksApart(r0, d);
      assert false;
    }
    WeeksApart(d, r0);
    var k := (d + 4) / 7 - (r0 + 4) / 7;
    assert r[k] == d;
  }

  /** Two dates on the same weekday are a whole number of weeks apart. */
  lemma WeeksApart(a: Date, b: Date)
    requires b <= a && WeekdayOf(a) == WeekdayOf(b)
    ensures a - b == 7 * ((a + 4) / 7 - (b + 4) / 7)
    ensures (a + 4) / 7 >= (b + 4) / 7
  {
    var qa, qb := (a + 4) / 7, (b + 4) / 7;
    assert a + 4 == 7 * qa + (a + 4) % 7;
    assert b + 4 == 7 * qb + (b + 4) % 7;
  }

  /** A slot option's value: `${day_of_week}|${start_time}`. */
  function SlotValue(day: string, start: string): string {
    day + "|" + start
  }

  /** `const [dayOfWeek, time] = value.split('|')`, refused unless both parts are non-empty. */
  function ReadSlotValue(v: string): (r: Option<(string, string)>)
    ensures r.Some? ==> |r.value.0| > 0 && |r.value.1| > 0 && '|' !in r.value.0 && '|' !in r.value.1
  {
    var parts := Split(v, '|');
    if |parts| < 2 || |parts[0]| == 0 || |parts[1]| == 0 then None else Some((parts[0], parts[1]))
  }

  /** The day and start time a slot option was rendered from come back out of its value. */
  lemma SlotValueRoundTrip(day: string, start: string)
    requires |day| > 0 && |start| > 0 && '|' !in day && '|' !in start
    ensures ReadSlotValue(SlotValue(day, start)) == Some((day, start))
  {
    var xs := [day, start];
    assert xs[1..] == [start];
    assert Join(xs, '|') == SlotValue(day, start);
    SplitJoin(xs, '|');
  }

  /** A value with an empty day or an empty time part is refused. */
  lemma EmptyPartRefused(start: string)
    ensures ReadSlotValue(SlotValue("", start)).None?
  {
    assert SlotValue("", start) == ['|'] + start;
    assert (['|'] + start)[1..] == start;
  }

  /** `Number` of a part of an `<input type="time">` value; None is NaN. */
  function NumberOf(s: string): Option<nat> {
    if |s| == 0 then Some(0) else if AllDigits(s) then Some(DigitsValue(s)) else None
  }

  /** The trainer-less window, in minutes after midnight: 09:00 to 21:00, both ends allowed. */
  const OpensAt: nat := 9 * 60
  const ClosesAt: nat := 21 * 60

  datatype Refusal = PastDate | OutsideHours

  /**
   * The checks of `submitWithoutTrainerForm` before the request: a date before today is refused;
   * a time, when one is given, must lie in the window. A part that is not a number makes both
   * comparisons false, so such a time passes.
   */
  function CheckWithoutTrainer(date: Date, today: Date, time: string): (r: Option<Refusal>)
    ensures r == Some(PastDate) <==> date < today
    ensures |time| == 0 ==> r == Some(PastDate) || r.None?
  {
    if date < today then Some(PastDate)
    else if |time| == 0 then None
    else
      var parts := Split(time, ':');
      var h := NumberOf(parts[0]);
      var m := if |parts| > 1 then NumberOf(parts[1]) else None;
      if h.Some? && m.Some? && (h.value * 60 + m.value < OpensAt || h.value * 60 + m.value > ClosesAt) then Some(OutsideHours)
      else None
  }

  /** For an "HH:MM" time on today or later, the form goes through exactly when the time is within 09:00–21:00. */
  lemma WindowOfHhmm(date: Date, today: Date, s: string)
    requires date >= today && IsHhmm(s)
    ensures CheckWithoutTrainer(date, today, s).None? <==> OpensAt <= Field(s, 0) * 60 + Field(s, 3) <= ClosesAt
    ensures CheckWithoutTrainer(date, today, s).Some? ==> CheckWithoutTrainer(date, today, s) == Some(OutsideHours)
  {
    SplitHhmm(s);
    var hh, mm := s[..2], s[3..];
    assert AllDigits(hh) && AllDigits(mm);
    TwoDigitsValue(hh);
    TwoDigitsValue(mm);
    assert NumberOf(hh) == Some(Field(s, 0));
    assert NumberOf(mm) == Some(Field(s, 3));
  }

  /** The window's ends: 21:00 is still allowed, 21:01 is not. */
  lemma WindowEnds(day: Date)
    ensures CheckWithoutTrainer(day, day, "21:00").None?
    ensures CheckWithoutTrainer(day, day, "21:01") == Some(OutsideHours)
    ensures CheckWithoutTrainer(day, day, "08:59") == Some(OutsideHours)
  {
    WindowOfHhmm(day, day, "21:00");
    WindowOfHhmm(day, day, "21:01");
    WindowOfHhmm(day, day, "08:59");
  }

  /**
   * `selectInventory`: choosing the item already chosen clears the choice; any other item
   * becomes the choice, kept as the text of its id.
   */
  function SelectInventory(selected: Option<string>, id: nat): (r: Option<string>)
    ensures r.None? <==> selected == Some(NatToString(id))
    ensures r.Some? ==> r.value == NatToString(id) && DigitsValue(r.value) == id
  {
    DigitsValueOfNatToString(id);
    if selected.Some? && |selected.value| > 0 && selected.value == NatToString(id) then None
    else Some(NatToString(id))
  }

  /**
   * Clicking the same item twice restores a choice of that very item; from any other state
   * (nothing chosen, or another item) it leaves nothing chosen.
   */
  lemma SelectTwice(selected: Option<string>, id: nat)
    ensures SelectInventory(SelectInventory(selected, id), id) ==
      if selected == Some(NatToString(id)) then selected else None
  {
  }

  /** Choosing a different item replaces the choice. */
  lemma SelectOther(a: nat, b: nat)
    requires a != b
    ensures SelectInventory(Some(NatToString(a)), b) == Some(NatToString(b))
  {
    if NatToString(a) == NatToString(b) {
      NatToStringInjective(a, b);
    }
  }

  /** An entry of the client's subscription list as the page receives it. */
  datatype Holding = Holding(name: string, kind: string, status: string, remaining: Option<int>)

  /** A subscription that can pay for a gym session: gym or combo, active, with visits left. */
  predicate PaysForGym(e: Entry<Holding>) {
    (e.row.kind == "gym" || e.row.kind == "combo") && e.row.status == "active"
    && e.row.remaining.Some? && e.row.remaining.value > 0
  }

  datatype Form = WithTrainer | NoTrainer

  datatype PaymentOption = QrCode | Cash | BySubscription(subscription: nat)

  /**
   * The radio buttons `loadPaymentMethods` renders: QR code (checked) and cash on both forms,
   * and on the trainer-less form also the first subscription that can pay. `held` is None when
   * the list could not be loaded.
   */
  function PaymentOptions(form: Form, held: Option<Table<Holding>>): (r: seq<PaymentOption>)
    ensures 2 <= |r| <= 3 && r[0] == QrCode && r[1] == Cash
    ensures |r| == 3 <==> form == NoTrainer && held.Some? && exists i :: 0 <= i < |held.value| && PaysForGym(held.value[i])
    ensures |r| == 3 ==> exists i :: (0 <= i < |held.value| && PaysForGym(held.value[i])
      && r[2] == BySubscription(held.value[i].id) && forall j :: 0 <= j < i ==> !PaysForGym(held.value[j]))
  {
    if form == WithTrainer || held.None? then [QrCode, Cash]
    else match FindFirst(held.value, PaysForGym)
      case None => [QrCode, Cash]
      case Some(i) =>
        assert PaysForGym(held.value[i]);
        assert form == NoTrainer;
        assert exists i :: 0 <= i < |held.value| && PaysForGym(held.value[i]);
        [QrCode, Cash, BySubscription(held.value[i].id)]
  }
}
