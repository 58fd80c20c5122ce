/**
 * The backend's small time and weekday helpers (backend/utils/helpers.js). The current date and
 * hour are parameters instead of readings of the clock.
 */
module Helpers {
  import opened Wrappers
  import opened Text
  import opened Clock

  /** A value read from a TIME column or a request: absent, a string, or something else. */
  datatype Value = NoValue | Str(s: string) | Other

  /** The text shown when a time is missing or not a string. */
  const DefaultTime: string := "10:00"

  /**
   * `formatTimeSimply`: the first five characters of a non-empty string, "10:00" for a missing
   * value, an empty string or any other type.
   */
  function FormatTimeSimply(v: Value): (r: string)
    ensures v.Str? && |v.s| > 0 ==> r == Prefix(v.s, 5) && |r| <= 5 && r <= v.s
    ensures !(v.Str? && |v.s| > 0) ==> r == DefaultTime
  {
    if v.Str? && |v.s| > 0 then Prefix(v.s, 5) else DefaultTime
  }

  /** A stored TIME renders as its "HH:MM". */
  lemma FormatTimeOfRender(t: Time)
    requires t.h < 100 && t.m < 100
    ensures FormatTimeSimply(Str(Render(t))) == Hhmm(t)
  {
    HhmmOfRender(t);
  }

  /** The `days` array indexed by `getDay()`. */
  const JsDayNames: seq<string> := ["sunday", "monday", "tuesday", "wednesday", "thursday", "friday", "saturday"]

  /** `getDayOfWeek`: the name of the date's weekday, looked up by its `getDay()` index. */
  function GetDayOfWeek(date: Date): (r: string)
    ensures r == Name(WeekdayOf(date))
    ensures FromName(r) == Some(WeekdayOf(date))
  {
    var d := WeekdayOf(date);
    JsIndexBound(d);
    FromNameOfName(d);
    JsDayNames[JsIndex(d)]
  }

  /** The array lists the weekdays' names in `getDay()` order. */
  lemma JsDayNamesInOrder(i: nat)
    requires i < 7
    ensures JsDayNames[i] == Name(FromJsIndex(i))
  {
  }

  /** Hour of the day from which the same weekday is pushed to the next week. */
  const LateHour: nat := 20

  /**
   * `getNextDateForDayOfWeek`: the next date (today included, unless it is 20:00 or later) that
   * falls on the named weekday; None for a name that is not a weekday in any letter case.
   */
  function NextDateForDayOfWeek(dayName: string, today: Date, hour: nat): (r: Option<Date>)
    ensures r.None? <==> FromName(Lower(dayName)).None?
    ensures r.Some? ==> today <= r.value <= today + 7 && WeekdayOf(r.value) == FromName(Lower(dayName)).value
    ensures r.Some? ==> (r.value == today <==> WeekdayOf(today) == FromName(Lower(dayName)).value && hour < LateHour)
  {
    match FromName(Lower(dayName))
    case None => None
    case Some(target) =>
      var diff := JsIndex(target) - JsIndex(WeekdayOf(today));
      var offset := if diff < 0 then diff + 7 else if diff == 0 && hour >= LateHour then 7 else diff;
      JsIndexBound(target);
      JsIndexBound(WeekdayOf(today));
      assert (today + offset + 4) % 7 == ((today + 4) % 7 + offset) % 7;
      assert JsIndex(WeekdayOf(today + offset)) == JsIndex(target);
      assert offset == 0 <==> WeekdayOf(today) == target && hour < LateHour;
      Some(today + offset)
  }

  /** Before 20:00 no date is more than six days away; from 20:00 on, today is never returned. */
  lemma NextDateWindow(dayName: string, today: Date, hour: nat)
    requires FromName(Lower(dayName)).Some?
    ensures hour < LateHour ==> NextDateForDayOfWeek(dayName, today, hour).value <= today + 6
    ensures hour >= LateHour ==> today < NextDateForDayOfWeek(dayName, today, hour).value
  {
    var target := FromName(Lower(dayName)).value;
    JsIndexBound(target);
    JsIndexBound(WeekdayOf(today));
  }
}
