/**
 * The admin's weekly schedule grid (js/admin-schedule.js): the hours offered, the per-trainer map
 * of selected hours built from the stored schedule, toggling and clearing cells, and the slot
 * list sent to the backend. A JavaScript `Set` keeps insertion order, so a day's hours are a
 * sequence without repeats.
 */
module AdminSchedule {
  import opened Wrappers
  import opened Text
  import opened Clock
  import ScheduleController

  /** `String(h).padStart(2, '0') + ':00'`. */
  function HourLabel(h: nat): string {
    Pad2(h) + ":00"
  }

  /** `generateHours(start, end)`: one label per hour from start to end inclusive. */
  function GenerateHours(start: nat, end: nat): (r: seq<string>)
    ensures |r| == if start <= end then end - start + 1 else 0
    ensures forall i :: 0 <= i < |r| ==> r[i] == HourLabel(start + i)
    decreases end + 1 - start
  {
    if start > end then []
    else
      var rest := GenerateHours(start + 1, end);
      ShiftedCons(HourLabel, start, rest);
      [HourLabel(start)] + rest
  }

  /** Putting f(start) in front of f(start + 1), f(start + 2), … gives f(start), f(start + 1), …. */
  lemma ShiftedCons<T>(f: nat -> T, start: nat, rest: seq<T>)
    requires forall i :: 0 <= i < |rest| ==> rest[i] == f(start + 1 + i)
    ensures forall i :: 0 <= i <= |rest| ==> ([f(start)] + rest)[i] == f(start + i)
  {
    forall i | 0 < i <= |rest| ensures ([f(start)] + rest)[i] == f(start + i) {
      assert start + 1 + (i - 1) == start + i;
    }
  }

  /** An hour label of a two-digit hour is an "HH:MM" text that reads back as that hour. */
  lemma HourLabelReads(h: nat)
    requires h < 100
    ensures IsHhmm(HourLabel(h)) && Field(HourLabel(h), 0) == h && Field(HourLabel(h), 3) == 0
  {
    Pad2Digits(h);
  }

  /** The grid's rows: thirteen hours from "09:00" to "21:00", each a well-formed "HH:MM". */
  lemma GridHours()
    ensures var hs := GenerateHours(9, 21);
      && |hs| == 13 && hs[0] == "09:00" && hs[12] == "21:00"
      && forall i :: 0 <= i < |hs| ==> IsHhmm(hs[i]) && Field(hs[i], 0) == 9 + i
  {
    var hs := GenerateHours(9, 21);
    forall i | 0 <= i < |hs| ensures IsHhmm(hs[i]) && Field(hs[i], 0) == 9 + i {
      HourLabelReads(9 + i);
    }
    FirstAndLastLabels();
  }

  lemma FirstAndLastLabels()
    ensures HourLabel(9) == "09:00" && HourLabel(21) == "21:00"
  {
    assert NatToString(9) == "9";
    assert NatToString(21) == NatToString(2) + [DigitChar(1)];
  }

  /** The grid's columns: Monday to Friday, in that order. */
  const GridDays: seq<string> := ["monday", "tuesday", "wednesday", "thursday", "friday"]

  predicate NoRepeats<T(==)>(xs: seq<T>) {
    forall i, j :: 0 <= i < j < |xs| ==> xs[i] != xs[j]
  }

  /** A day's selected hours: a `Set`, so in the order they were added and without repeats. */
  type Hours = hs: seq<string> | NoRepeats(hs) witness []

  /** One trainer's selections, by `day_of_week` key. */
  type DayMap = map<string, Hours>

  /** `scheduleMap`: the selections of every trainer shown so far, by trainer id. */
  type Grid = map<nat, DayMap>

  /** A day map with a column for exactly the grid's days. */
  ghost predicate HasGridDays(dm: DayMap) {
    forall d :: d in dm <==> d in GridDays
  }

  /** `createEmptyDayMap`. */
  function EmptyDayMap(): (dm: DayMap)
    ensures HasGridDays(dm)
    ensures forall d :: d in dm ==> |dm[d]| == 0
  {
    map d | d in GridDays :: []
  }

  /** `ensureTrainerMap`: the trainer's day map, an empty one for a trainer not seen yet. */
  function DaysOf(g: Grid, t: nat): (dm: DayMap)
    ensures t in g ==> dm == g[t]
    ensures t !in g ==> dm == EmptyDayMap()
  {
    if t in g then g[t] else EmptyDayMap()
  }

  /** `Set.add`: appends an hour not yet present. */
  function AddHour(hs: Hours, h: string): (r: Hours)
    ensures forall x :: x in r <==> x in hs || x == h
  {
    if h in hs then hs else hs + [h]
  }

  /** `Set.delete`: drops the hour, keeping the others in order. */
  function RemoveHour(hs: Hours, h: string): (r: Hours)
    ensures forall x :: x in r <==> x in hs && x != h
    decreases |hs|
  {
    if |hs| == 0 then []
    else
      var rest := RemoveHour(hs[1..], h);
      assert forall x :: x in hs <==> x == hs[0] || x in hs[1..];
      if hs[0] == h then rest
      else
        assert forall j :: 1 <= j < |hs| ==> hs[j] != hs[0];
        assert hs[0] !in hs[1..];
        assert hs[0] !in rest;
        [hs[0]] + rest
  }

  /** A stored schedule row as the grid reads it. */
  datatype Row = Row(trainer: nat, day: string, start: Option<string>)

  /** `slot.start_time ? slot.start_time.substring(0, 5) : null`, kept only when non-empty. */
  function HourOf(start: Option<string>): (r: Option<string>)
    ensures r.Some? <==> start.Some? && |start.value| > 0
    ensures r.Some? ==> r.value == Prefix(start.value, 5) && |r.value| > 0
  {
    if start.Some? && |start.value| > 0 then Some(Prefix(start.value, 5)) else None
  }

  /**
   * One step of `buildScheduleMap`: the row's trainer gets a day map in any case; the hour is
   * added only for a grid day the map has a column for.
   */
  function Place(g: Grid, row: Row): Grid {
    var dm := DaysOf(g, row.trainer);
    var g1 := g[row.trainer := dm];
    if row.day !in GridDays then g1
    else match HourOf(row.start)
      case None => g1
      case Some(h) => if row.day in dm then g1[row.trainer := dm[row.day := AddHour(dm[row.day], h)]] else g1
  }

  /** A row on a grid day that puts hour h in trainer t's column d. */
  predicate Shows(row: Row, t: nat, d: string, h: string) {
    row.trainer == t && row.day == d && d in GridDays && HourOf(row.start) == Some(h)
  }

  ghost predicate Selected(g: Grid, t: nat, d: string, h: string) {
    t in g && d in g[t] && h in g[t][d]
  }

  ghost predicate Listed(rows: seq<Row>, t: nat, d: string, h: string) {
    exists i :: 0 <= i < |rows| && Shows(rows[i], t, d, h)
  }

  ghost predicate AllGridDays(g: Grid) {
    forall t :: t in g ==> HasGridDays(g[t])
  }

  /** `buildScheduleMap`: the rows placed one after the other. */
  function BuildScheduleMap(rows: seq<Row>): (g: Grid)
    decreases |rows|
  {
    if |rows| == 0 then map[] else Place(BuildScheduleMap(rows[..|rows| - 1]), rows[|rows| - 1])
  }

  lemma PlaceStep(g: Grid, row: Row)
    requires AllGridDays(g)
    ensures var r := Place(g, row);
      && r.Keys == g.Keys + {row.trainer}
      && AllGridDays(r)
      && forall t, d, h :: Selected(r, t, d, h) <==> Selected(g, t, d, h) || Shows(row, t, d, h)
  {
    if row.day in GridDays && HourOf(row.start).Some? {
      PlaceShown(g, row);
    } else {
      PlaceNotShown(g, row);
    }
  }

  lemma PlaceShown(g: Grid, row: Row)
    requires AllGridDays(g) && row.day in GridDays && HourOf(row.start).Some?
    ensures var r := Place(g, row);
      && r.Keys == g.Keys + {row.trainer}
      && AllGridDays(r)
      && forall t, d, h :: Selected(r, t, d, h) <==> Selected(g, t, d, h) || Shows(row, t, d, h)
  {
    var u := row.trainer;
    var dm := DaysOf(g, u);
    var r := Place(g, row);
    var hour := HourOf(row.start);
    assert row.day in dm;
    var dm1: DayMap := dm[row.day := AddHour(dm[row.day], hour.value)];
    assert r == g[u := dm1];
    assert HasGridDays(dm1);
    forall t, d, h ensures Selected(r, t, d, h) <==> Selected(g, t, d, h) || Shows(row, t, d, h) {
      if t == u && d == row.day {
        assert Selected(r, t, d, h) <==> h in dm[d] || h == hour.value;
      } else if t == u {
        assert !Shows(row, t, d, h);
        assert Selected(r, t, d, h) <==> d in dm && h in dm[d];
      } else {
        if t in g {
          assert r[t] == g[t];
        }
      }
    }
  }

  lemma PlaceNotShown(g: Grid, row: Row)
    requires AllGridDays(g) && !(row.day in GridDays && HourOf(row.start).Some?)
    ensures var r := Place(g, row);
      && r.Keys == g.Keys + {row.trainer}
      && AllGridDays(r)
      && forall t, d, h :: Selected(r, t, d, h) <==> Selected(g, t, d, h) || Shows(row, t, d, h)
  {
    var u := row.trainer;
    var dm := DaysOf(g, u);
    var r := Place(g, row);
    assert r == g[u := dm];
    forall t, d, h ensures Selected(r, t, d, h) <==> Selected(g, t, d, h) || Shows(row, t, d, h) {
      assert !Shows(row, t, d, h);
      if t == u && u !in g {
        assert d in dm ==> |dm[d]| == 0;
      }
    }
  }

  lemma ListedSnoc(rows: seq<Row>, t: nat, d: string, h: string)
    requires |rows| > 0
    ensures Listed(rows, t, d, h) <==> Listed(rows[..|rows| - 1], t, d, h) || Shows(rows[|rows| - 1], t, d, h)
  {
    var init := rows[..|rows| - 1];
    if Listed(rows, t, d, h) {
      var i :| 0 <= i < |rows| && Shows(rows[i], t, d, h);
      if i < |init| {
        assert Shows(init[i], t, d, h);
      }
    }
    if Listed(init, t, d, h) {
      var i :| 0 <= i < |init| && Shows(init[i], t, d, h);
      assert rows[i] == init[i];
    }
  }

  /**
   * The map holds a day map for exactly the trainers that have rows (rows on weekend days
   * included), each with the five grid columns, and a cell is selected exactly when some row on a
   * grid day names it.
   */
  lemma {:induction false} BuildScheduleMapContents(rows: seq<Row>)
    ensures var g := BuildScheduleMap(rows);
      && (forall t :: t in g <==> exists i :: 0 <= i < |rows| && rows[i].trainer == t)
      && AllGridDays(g)
      && forall t, d, h :: Selected(g, t, d, h) <==> Listed(rows, t, d, h)
    decreases |rows|
  {
    if |rows| > 0 {
      var init := rows[..|rows| - 1];
      var row := rows[|rows| - 1];
      BuildScheduleMapContents(init);
      var g0 := BuildScheduleMap(init);
      var g := BuildScheduleMap(rows);
      PlaceStep(g0, row);
      forall t ensures t in g <==> exists i :: 0 <= i < |rows| && rows[i].trainer == t {
        if t in g && t != row.trainer {
          var i :| 0 <= i < |init| && init[i].trainer == t;
          assert rows[i] == init[i];
        }
        if exists i :: 0 <= i < |rows| && rows[i].trainer == t {
          var i :| 0 <= i < |rows| && rows[i].trainer == t;
          if i < |init| {
            assert init[i] == rows[i];
          }
        }
      }
      forall t, d, h ensures Selected(g, t, d, h) <==> Listed(rows, t, d, h) {
        ListedSnoc(rows, t, d, h);
      }
    }
  }

  /**
   * `toggleSlot` on a cell of trainer t: the hour is removed when selected and added otherwise;
   * every other hour, day and trainer keeps its selections. The source reads the day's set
   * unguarded, so the day must be one of the trainer's columns.
   */
  function Toggle(g: Grid, t: nat, day: string, hour: string): (r: Grid)
    requires day in DaysOf(g, t)
    ensures t in r && day in r[t]
    ensures r == g[t := DaysOf(g, t)[day := r[t][day]]]
    ensures forall x :: x in r[t][day] <==> (x in DaysOf(g, t)[day] <==> x != hour)
  {
    var dm := DaysOf(g, t);
    var hs := dm[day];
    g[t := dm[day := if hour in hs then RemoveHour(hs, hour) else AddHour(hs, hour)]]
  }

  lemma {:induction false} RemoveAppended(hs: Hours, h: string)
    requires h !in hs
    ensures RemoveHour(hs + [h], h) == hs
    decreases |hs|
  {
    if |hs| == 0 {
      assert RemoveHour([h][1..], h) == [];
    } else {
      assert (hs + [h])[1..] == hs[1..] + [h];
      RemoveAppended(hs[1..], h);
      assert [hs[0]] + hs[1..] == hs;
    }
  }

  /**
   * Toggling the same cell twice selects the same hours as before and changes nothing else; when
   * the hour was not selected, the grid comes back exactly.
   */
  lemma ToggleTwice(g: Grid, t: nat, day: string, hour: string)
    requires t in g && day in g[t]
    ensures var r := Toggle(Toggle(g, t, day, hour), t, day, hour);
      && r == g[t := g[t][day := r[t][day]]]
      && (forall x :: x in r[t][day] <==> x in g[t][day])
      && (hour !in g[t][day] ==> r == g)
  {
    var once := Toggle(g, t, day, hour);
    var r := Toggle(once, t, day, hour);
    assert once[t] == g[t][day := once[t][day]];
    assert r[t] == once[t][day := r[t][day]];
    assert r[t] == g[t][day := r[t][day]];
    if hour !in g[t][day] {
      var hs := g[t][day];
      assert once[t][day] == hs + [hour];
      RemoveAppended(hs, hour);
      assert g[t][day := hs] == g[t];
    }
  }

  /** `clearCurrentSchedule`: with a trainer selected, that trainer's selections are emptied. */
  function ClearCurrent(g: Grid, current: Option<nat>): (r: Grid)
    ensures current.None? ==> r == g
    ensures current.Some? ==> r.Keys == g.Keys + {current.value} && r[current.value] == EmptyDayMap()
    ensures forall u :: u in g && (current.None? || u != current.value) ==> r[u] == g[u]
  {
    if current.None? then g else g[current.value := EmptyDayMap()]
  }

  /** One day's `{day_of_week, start_time}` entries, in the day's order. */
  function Pairs(day: string, hs: Hours): (r: seq<(string, string)>)
    ensures |r| == |hs|
    ensures forall i :: 0 <= i < |r| ==> r[i] == (day, hs[i])
  {
    seq(|hs|, i requires 0 <= i < |hs| => (day, hs[i]))
  }

  /** The days' entries concatenated in the order of the days. */
  function CollectDays(dm: DayMap, days: seq<string>): (r: seq<(string, string)>)
    requires forall d :: d in days ==> d in dm
    decreases |days|
  {
    if |days| == 0 then [] else Pairs(days[0], dm[days[0]]) + CollectDays(dm, days[1..])
  }

  /** Position of a grid day: Monday 0 … Friday 4, 5 for anything else. */
  function DayIndex(d: string): nat {
    if d == "monday" then 0
    else if d == "tuesday" then 1
    else if d == "wednesday" then 2
    else if d == "thursday" then 3
    else if d == "friday" then 4
    else 5
  }

  lemma {:induction false} CollectDaysContents(dm: DayMap, days: seq<string>)
    requires forall d :: d in days ==> d in dm
    requires forall i, j :: 0 <= i < j < |days| ==> DayIndex(days[i]) < DayIndex(days[j])
    ensures var r := CollectDays(dm, days);
      && (forall d, h :: (d, h) in r <==> d in days && h in dm[d])
      && NoRepeats(r)
      && forall i, j :: 0 <= i < j < |r| ==> DayIndex(r[i].0) <= DayIndex(r[j].0)
    decreases |days|
  {
    if |days| > 0 {
      var head := Pairs(days[0], dm[days[0]]);
      var tail := CollectDays(dm, days[1..]);
      CollectDaysContents(dm, days[1..]);
      var r := head + tail;
      assert forall d :: d in days <==> d == days[0] || d in days[1..];
      forall i | 0 <= i < |tail| ensures DayIndex(days[0]) < DayIndex(tail[i].0) {
        assert tail[i] in tail;
        assert tail[i].0 in days[1..];
        var k :| 0 <= k < |days[1..]| && days[1..][k] == tail[i].0;
        assert days[k + 1] == tail[i].0;
      }
      forall i, j | 0 <= i < j < |r| ensures r[i] != r[j] && DayIndex(r[i].0) <= DayIndex(r[j].0) {
        if j < |head| {
        } else if i >= |head| {
          assert r[i] == tail[i - |head|] && r[j] == tail[j - |head|];
        } else {
          assert r[j] == tail[j - |head|];
        }
      }
      forall d, h ensures (d, h) in r <==> d in days && h in dm[d] {
        if (d, h) in head {
          var i :| 0 <= i < |head| && head[i] == (d, h);
        }
        if d == days[0] && h in dm[d] {
          var i :| 0 <= i < |dm[d]| && dm[d][i] == h;
          assert head[i] == (d, h);
        }
      }
    }
  }

  /** The trainer's map has every grid column, as `collectSlots` reads them all unguarded. */
  predicate Collectable(g: Grid, t: nat) {
    forall d :: d in GridDays ==> d in DaysOf(g, t)
  }

  /**
   * `collectSlots`: every selected (day, hour) of the trainer exactly once, grouped by day from
   * Monday to Friday. Its length is the "selected hours" counter.
   */
  function CollectSlots(g: Grid, t: nat): (r: seq<(string, string)>)
    requires Collectable(g, t)
    ensures forall d, h :: (d, h) in r <==> d in GridDays && h in DaysOf(g, t)[d]
    ensures NoRepeats(r)
    ensures forall i, j :: 0 <= i < j < |r| ==> DayIndex(r[i].0) <= DayIndex(r[j].0)
  {
    var dm := DaysOf(g, t);
    CollectDaysContents(dm, GridDays);
    CollectDays(dm, GridDays)
  }

  /** What `saveCurrentSchedule` does: warn, or send the trainer's slots. */
  datatype SaveOutcome = WarnNoTrainer | WarnNoSlots | Send(trainer: nat, slots: seq<(string, string)>)

  /** The save guards: a trainer must be selected and at least one cell chosen. */
  function Save(g: Grid, current: Option<nat>): (r: SaveOutcome)
    requires current.Some? ==> Collectable(g, current.value)
    ensures current.None? <==> r == WarnNoTrainer
    ensures r == WarnNoSlots <==> current.Some? && |CollectSlots(g, current.value)| == 0
    ensures r.Send? ==> r.trainer == current.value && r.slots == CollectSlots(g, current.value)
  {
    if current.None? then WarnNoTrainer
    else
      var slots := CollectSlots(g, current.value);
      if |slots| == 0 then WarnNoSlots else Send(current.value, slots)
  }

  /** Saving only warns about missing slots when none of the trainer's cells is selected. */
  lemma SaveWarnsOnEmptyGrid(g: Grid, t: nat)
    requires Collectable(g, t)
    ensures Save(g, Some(t)) == WarnNoSlots <==> forall d :: d in GridDays ==> |DaysOf(g, t)[d]| == 0
  {
    var slots := CollectSlots(g, t);
    if exists d :: d in GridDays && |DaysOf(g, t)[d]| > 0 {
      var d :| d in GridDays && |DaysOf(g, t)[d]| > 0;
      assert (d, DaysOf(g, t)[d][0]) in slots;
    }
    if |slots| > 0 {
      assert slots[0] in slots;
      assert (slots[0].0, slots[0].1) in slots;
    }
  }

  /** After "clear", the cleared trainer has nothing to send: saving only warns about missing slots. */
  lemma ClearThenSaveWarns(g: Grid, t: nat)
    ensures Collectable(ClearCurrent(g, Some(t)), t)
    ensures CollectSlots(ClearCurrent(g, Some(t)), t) == []
    ensures Save(ClearCurrent(g, Some(t)), Some(t)) == WarnNoSlots
  {
    var c := ClearCurrent(g, Some(t));
    assert DaysOf(c, t) == EmptyDayMap();
    SaveWarnsOnEmptyGrid(c, t);
  }

  /** Every selected hour of every trainer is a well-formed "HH:MM". */
  ghost predicate HoursWellFormed(g: Grid) {
    forall t, d, h :: Selected(g, t, d, h) ==> IsHhmm(h)
  }

  /** Toggling grid hours keeps every selection a well-formed "HH:MM". */
  lemma ToggleKeepsHoursWellFormed(g: Grid, t: nat, day: string, i: nat)
    requires HoursWellFormed(g) && day in DaysOf(g, t) && i < 13
    ensures HoursWellFormed(Toggle(g, t, day, GenerateHours(9, 21)[i]))
  {
    GridHours();
    var hour := GenerateHours(9, 21)[i];
    assert IsHhmm(hour);
    var dm := DaysOf(g, t);
    var r := Toggle(g, t, day, hour);
    forall t', d, h | Selected(r, t', d, h) ensures IsHhmm(h) {
      if t' == t {
        if d == day && h == hour {
        } else if t in g {
          assert h in dm[d];
          assert Selected(g, t, d, h);
        }
      } else {
        assert Selected(g, t', d, h);
      }
    }
  }

  /** Every grid column is a lower-case weekday name. */
  lemma GridDayIsName(d: string)
    requires d in GridDays
    ensures FromName(d).Some? && Name(FromName(d).value) == d && Lower(d) == d
  {
    var w := if d == "monday" then Monday else if d == "tuesday" then Tuesday
      else if d == "wednesday" then Wednesday else if d == "thursday" then Thursday else Friday;
    assert d == Name(w);
    NameIsLower(w);
    FromNameOfName(w);
  }

  /** A grid day and an "HH:MM" pass the backend's day and time normalisation. */
  lemma SlotNormalizes(d: string, h: string)
    requires d in GridDays && IsHhmm(h)
    ensures ScheduleController.NormalizeDay(Some(d)).Some?
    ensures ScheduleController.NormalizeTime(Some(h)) == Some(h + ":00")
  {
    GridDayIsName(d);
    ScheduleController.NormalizeDayAcceptsNames(d, FromName(d).value);
    TrimOfTrimmed(h);
  }

  /**
   * When every selection is a well-formed "HH:MM", every slot sent passes the backend's day and
   * time normalisation, so none of them is dropped there.
   */
  lemma SentSlotsNormalize(g: Grid, current: Option<nat>)
    requires current.Some? ==> Collectable(g, current.value)
    requires HoursWellFormed(g)
    ensures var r := Save(g, current);
      r.Send? ==> forall i :: 0 <= i < |r.slots| ==>
        && ScheduleController.NormalizeDay(Some(r.slots[i].0)).Some?
        && ScheduleController.NormalizeTime(Some(r.slots[i].1)) == Some(r.slots[i].1 + ":00")
  {
    var r := Save(g, current);
    if r.Send? {
      forall i | 0 <= i < |r.slots|
        ensures ScheduleController.NormalizeDay(Some(r.slots[i].0)).Some?
        ensures ScheduleController.NormalizeTime(Some(r.slots[i].1)) == Some(r.slots[i].1 + ":00")
      {
        var (d, h) := r.slots[i];
        assert (d, h) in r.slots;
        assert Selected(g, r.trainer, d, h);
        SlotNormalizes(d, h);
      }
    }
  }

  /** The decimal digits `parseInt` reads: None (NaN) unless the text starts with a digit. */
  function LeadingNumber(s: string): (r: Option<nat>)
    ensures |s| > 0 && IsDigit(s[0]) <==> r.Some?
  {
    var n := LeadingDigitCount(s);
    if n == 0 then None else Some(DigitsValue(s[..n]))
  }

  function LeadingDigitCount(s: string): (n: nat)
    ensures n <= |s| && AllDigits(s[..n])
    ensures n < |s| ==> !IsDigit(s[n])
    ensures n > 0 <==> |s| > 0 && IsDigit(s[0])
    decreases |s|
  {
    if |s| > 0 && IsDigit(s[0]) then
      var k := LeadingDigitCount(s[1..]);
      assert s[..k + 1] == [s[0]] + s[1..][..k];
      k + 1
    else 0
  }

  /** Digits followed by a non-digit: the reading stops at the first non-digit. */
  lemma {:induction false} LeadingNumberStops(d: string, tail: string)
    requires |d| > 0 && AllDigits(d)
    requires |tail| > 0 ==> !IsDigit(tail[0])
    ensures LeadingNumber(d + tail) == Some(DigitsValue(d))
    decreases |d|
  {
    LeadingDigitCountOf(d, tail);
    assert (d + tail)[..|d|] == d;
  }

  lemma {:induction false} LeadingDigitCountOf(d: string, tail: string)
    requires AllDigits(d)
    requires |tail| > 0 ==> !IsDigit(tail[0])
    ensures LeadingDigitCount(d + tail) == |d|
    decreases |d|
  {
    if |d| > 0 {
      assert (d + tail)[1..] == d[1..] + tail;
      LeadingDigitCountOf(d[1..], tail);
    } else {
      assert d + tail == tail;
    }
  }

  predicate IsHexDigit(c: char) {
    IsDigit(c) || 'a' <= c <= 'f' || 'A' <= c <= 'F'
  }

  function HexDigitValue(c: char): (v: nat)
    requires IsHexDigit(c)
    ensures v < 16
    ensures IsDigit(c) ==> v == DigitValue(c)
  {
    if IsDigit(c) then DigitValue(c)
    else if 'a' <= c <= 'f' then c as int - 'a' as int + 10
    else c as int - 'A' as int + 10
  }

  function HexValue(s: string): nat
    requires forall i :: 0 <= i < |s| ==> IsHexDigit(s[i])
    decreases |s|
  {
    if |s| == 0 then 0 else HexValue(s[..|s| - 1]) * 16 + HexDigitValue(s[|s| - 1])
  }

  function LeadingHexCount(s: string): (n: nat)
    ensures n <= |s| && forall i :: 0 <= i < n ==> IsHexDigit(s[i])
    ensures n < |s| ==> !IsHexDigit(s[n])
    ensures n > 0 <==> |s| > 0 && IsHexDigit(s[0])
    decreases |s|
  {
    if |s| > 0 && IsHexDigit(s[0]) then 1 + LeadingHexCount(s[1..]) else 0
  }

  /** The hexadecimal digits `parseInt` reads after a "0x" prefix: None (NaN) when there are none. */
  function LeadingHex(s: string): (r: Option<nat>)
    ensures |s| > 0 && IsHexDigit(s[0]) <==> r.Some?
  {
    var n := LeadingHexCount(s);
    if n == 0 then None else Some(HexValue(s[..n]))
  }

  /** A "0x" or "0X" prefix switches `parseInt` without a radix to base sixteen. */
  predicate HexPrefixed(u: string) {
    |u| >= 2 && u[0] == '0' && (u[1] == 'x' || u[1] == 'X')
  }

  /** The text after one optional '+' or '-'. */
  function Unsigned(t: string): (u: string)
    ensures |u| <= |t| && u == t[|t| - |u|..]
  {
    if |t| > 0 && (t[0] == '+' || t[0] == '-') then t[1..] else t
  }

  /** Whether `parseInt` finds a digit after the sign: a hexadecimal one after "0x", else a decimal one. */
  predicate Readable(u: string) {
    if HexPrefixed(u) then |u| > 2 && IsHexDigit(u[2]) else |u| > 0 && IsDigit(u[0])
  }

  /** The signed number at the start of a text that has no white space in front. */
  function ReadSigned(t: string): (r: Option<int>)
    ensures r.Some? <==> Readable(Unsigned(t))
    ensures r.Some? ==> |t| > 0
    ensures r.Some? && r.value < 0 ==> t[0] == '-'
    ensures r.Some? && t[0] == '-' ==> r.value <= 0
  {
    var u := Unsigned(t);
    var magnitude := if HexPrefixed(u) then LeadingHex(u[2..]) else LeadingNumber(u);
    match magnitude
    case None => None
    case Some(n) =>
      var v: int := if |t| > 0 && t[0] == '-' then -(n as int) else n;
      Some(v)
  }

  /**
   * `parseInt(s)` with no radix: white space is skipped, one '+' or '-' is read, then decimal
   * digits, or hexadecimal ones after "0x". None stands for NaN, when no digit follows.
   */
  function ParseInt(s: string): (r: Option<int>)
    ensures r.Some? <==> Readable(Unsigned(TrimStart(s)))
    ensures r.Some? && r.value < 0 ==> TrimStart(s)[0] == '-'
  {
    ReadSigned(TrimStart(s))
  }

  /** `String(n)` for an integer: its decimal digits, after a '-' when it is negative. */
  function IntString(n: int): (s: string)
    ensures |s| >= 1
    ensures n >= 0 ==> AllDigits(s)
    ensures n < 0 ==> |s| >= 2 && s[0] == '-' && AllDigits(s[1..])
  {
    if n < 0 then "-" + NatToString(-n) else NatToString(n)
  }

  /** `String(n).padStart(2, '0')`: a negative number is already two characters long. */
  function PadStart2(n: int): (s: string)
    ensures |s| >= 2
    ensures 0 <= n < 100 ==> |s| == 2
    ensures n >= 0 ==> s == Pad2(n)
  {
    var t := IntString(n);
    if |t| < 2 then "0" + t else t
  }

  /** Decimal digits followed by a text that cannot continue them read back as their value. */
  lemma ParseIntOfDigits(d: string, tail: string)
    requires |d| > 0 && AllDigits(d)
    requires |tail| > 0 ==> !IsDigit(tail[0]) && tail[0] != 'x' && tail[0] != 'X'
    ensures ParseInt(d + tail).Some? && ParseInt(d + tail).value == DigitsValue(d)
  {
    DigitsStart(d, tail);
    LeadingNumberStops(d, tail);
    DecimalNotHex(d, tail);
  }

  /** A text that starts with a digit has no white space to skip and no sign to read. */
  lemma DigitsStart(d: string, tail: string)
    requires |d| > 0 && AllDigits(d)
    ensures TrimStart(d + tail) == d + tail && Unsigned(d + tail) == d + tail
  {
    var u := d + tail;
    assert u[0] == d[0];
    SignedStart(u);
  }

  /** The same after a minus sign: the value is negated. */
  lemma ParseIntOfNegative(d: string, tail: string)
    requires |d| > 0 && AllDigits(d)
    requires |tail| > 0 ==> !IsDigit(tail[0]) && tail[0] != 'x' && tail[0] != 'X'
    ensures ParseInt("-" + d + tail).Some? && ParseInt("-" + d + tail).value == -(DigitsValue(d) as int)
  {
    var u := d + tail;
    var s := "-" + d + tail;
    assert s == "-" + u && s[1..] == u;
    DecimalNotHex(d, tail);
    LeadingNumberStops(d, tail);
    SignedStart(s);
  }

  /** A text that starts with a digit or a '-' has no white space to skip. */
  lemma SignedStart(s: string)
    requires |s| > 0 && (IsDigit(s[0]) || s[0] == '-')
    ensures TrimStart(s) == s
  {
    assert !IsSpace(s[0]);
  }

  lemma DecimalNotHex(d: string, tail: string)
    requires |d| > 0 && AllDigits(d)
    requires |tail| > 0 ==> tail[0] != 'x' && tail[0] != 'X'
    ensures !HexPrefixed(d + tail)
  {
    var u := d + tail;
    if |u| >= 2 && u[0] == '0' {
      if |d| >= 2 {
        assert u[1] == d[1];
      } else {
        assert u[1] == tail[0];
      }
    }
  }

  /** `parseInt(String(n).padStart(2, '0'))` is n again, whatever non-digit follows. */
  lemma PadStart2ReadsBack(n: int, tail: string)
    requires |tail| > 0 ==> !IsDigit(tail[0]) && tail[0] != 'x' && tail[0] != 'X'
    ensures ParseInt(PadStart2(n) + tail).Some? && ParseInt(PadStart2(n) + tail).value == n
  {
    var m := if n < 0 then -n else n;
    var d := NatToString(m);
    DigitsValueOfNatToString(m);
    if n < 0 {
      assert PadStart2(n) == "-" + d;
      ParseIntOfNegative(d, tail);
    } else if |d| < 2 {
      assert PadStart2(n) == "0" + d;
      DigitsValueLeadingZero(d);
      ParseIntOfDigits("0" + d, tail);
    } else {
      assert PadStart2(n) == d;
      ParseIntOfDigits(d, tail);
    }
  }

  /** `parseInt` skips any white space in front of the number. */
  lemma {:induction false} ParseIntSkipsSpace(w: string, s: string)
    requires forall i :: 0 <= i < |w| ==> IsSpace(w[i])
    ensures ParseInt(w + s) == ParseInt(s)
  {
    TrimStartSkips(w, s);
  }

  /**
   * `calculateEndTime`: the hour part read by `parseInt`, plus one, padded to two characters,
   * then the minutes part and ":00". An hour part that is not a number prints as "NaN", and
   * missing minutes as "undefined". The page never calls this method.
   */
  function CalculateEndTime(start: string): (r: string)
    ensures |r| >= 4 && r[|r| - 3..] == ":00"
    ensures ':' !in start ==> |r| >= 13 && r[|r| - 13..] == ":undefined:00"
  {
    var parts := Split(start, ':');
    var minutes := if |parts| > 1 then parts[1] else "undefined";
    EndText(EndHour(parts[0]), minutes)
  }

  /** The template `${endHours}:${minutes}:00`. */
  function EndText(hours: string, minutes: string): (r: string)
    ensures |r| == |hours| + |minutes| + 4
    ensures r[..|hours|] == hours && r[|hours|] == ':' && r[|r| - 3..] == ":00"
    ensures r[|hours| + 1..|r| - 3] == minutes
    ensures minutes == "undefined" ==> r[|r| - 13..] == ":undefined:00"
  {
    hours + (":" + minutes + ":00")
  }

  /** The end's hour part: `String(parseInt(hours) + 1).padStart(2, '0')`, "NaN" for NaN. */
  function EndHour(hours: string): (r: string)
    ensures |r| >= 2
    ensures ParseInt(hours).None? ==> r == "NaN"
  {
    match ParseInt(hours)
    case None => "NaN"
    case Some(h) => PadStart2(h + 1)
  }

  /** An hour part that `parseInt` cannot read prints as "NaN". */
  lemma EndTimeOfNaN(start: string)
    requires ParseInt(Split(start, ':')[0]).None?
    ensures CalculateEndTime(start)[..3] == "NaN"
  {
  }

  /** Whenever the start's hour part is a number, `parseInt` of the end reads that number plus one. */
  lemma EndHourReadsBack(start: string)
    requires ParseInt(Split(start, ':')[0]).Some?
    ensures ParseInt(CalculateEndTime(start)).Some? && ParseInt(CalculateEndTime(start)).value == ParseInt(Split(start, ':')[0]).value + 1
  {
    var parts := Split(start, ':');
    var minutes := if |parts| > 1 then parts[1] else "undefined";
    var n := ParseInt(parts[0]).value + 1;
    EndTimeIs(start, PadStart2(n), minutes);
    PadStart2ReadsBack(n, ":" + minutes + ":00");
  }

  lemma EndTimeIs(start: string, hours: string, minutes: string)
    requires EndHour(Split(start, ':')[0]) == hours
    requires minutes == if |Split(start, ':')| > 1 then Split(start, ':')[1] else "undefined"
    ensures CalculateEndTime(start) == hours + (":" + minutes + ":00")
  {
  }

  /** White space in front of the start changes nothing: `parseInt` skips it and it holds no ':'. */
  lemma EndTimeSkipsSpace(w: string, start: string)
    requires forall i :: 0 <= i < |w| ==> IsSpace(w[i])
    ensures CalculateEndTime(w + start) == CalculateEndTime(start)
  {
    var p := Split(start, ':');
    assert Split(w + start, ':') == [w + p[0]] + p[1..] by {
      assert ':' !in w by {
        assert !IsSpace(':');
      }
      SplitPrefixFree(w, start, ':');
    }
    var q := Split(w + start, ':');
    assert q[0] == w + p[0] && |q| == |p| && (|p| > 1 ==> q[1] == p[1]);
    assert EndHour(q[0]) == EndHour(p[0]) by {
      ParseIntSkipsSpace(w, p[0]);
    }
    var minutes := if |p| > 1 then p[1] else "undefined";
    assert CalculateEndTime(w + start) == EndText(EndHour(q[0]), minutes);
    assert CalculateEndTime(start) == EndText(EndHour(p[0]), minutes);
  }

  /** `parseInt` reads a sign: "-1" is minus one, so a "-1:MM" start ends at hour "00". */
  lemma ParseIntExamples()
    ensures ParseInt("-1").Some? && ParseInt("-1").value == -1
    ensures ParseInt("+9").Some? && ParseInt("+9").value == 9
    ensures ParseInt("-").None? && ParseInt("x").None?
    ensures PadStart2(0) == "00" && PadStart2(-4) == "-4"
  {
    assert "-1" == "-" + "1" + "";
    ParseIntOfNegative("1", "");
    assert TrimStart("+9") == "+9" by {
      assert !IsSpace('+');
    }
    assert LeadingNumber("9") == Some(9);
    assert TrimStart("-") == "-" by {
      assert !IsSpace('-');
    }
    assert TrimStart("x") == "x" by {
      assert !IsSpace('x');
    }
  }

  /**
   * A start with white space in front reads like the same start without it, and "-1" is an hour
   * like any other: " 9:00" ends at "10:00:00" and "-1:00" at "00:00:00".
   */
  lemma EndTimeExamples()
    ensures CalculateEndTime(" 9:00") == "10:00:00"
    ensures CalculateEndTime("-1:00") == "00:00:00"
  {
    assert " 9:00" == " " + "9:00";
    EndTimeSkipsSpace(" ", "9:00");
    NineEndsAtTen();
    MinusOneEndsAtZero();
  }

  lemma NineEndsAtTen()
    ensures CalculateEndTime("9:00") == "10:00:00"
  {
    SplitPair("9", "00");
    assert "9" + ":" + "00" == "9:00";
    ParseIntOfWholeDigits("9");
    EndTimeOfParts("9:00", "9", "00", 9);
    EndTextOfPad(10, "00");
    TenOClock();
  }

  lemma TenOClock()
    ensures Pad2(10) + ":" + "00" + ":00" == "10:00:00"
  {
    assert NatToString(1) == "1";
    assert Pad2(10) == "10";
  }

  lemma ZeroOClock()
    ensures Pad2(0) + ":" + "00" + ":00" == "00:00:00"
  {
    assert Pad2(0) == "00";
  }

  lemma MinusOneEndsAtZero()
    ensures CalculateEndTime("-1:00") == "00:00:00"
  {
    SplitPair("-1", "00");
    assert "-1" + ":" + "00" == "-1:00";
    ParseIntExamples();
    EndTimeOfParts("-1:00", "-1", "00", -1);
    EndTextOfPad(0, "00");
    ZeroOClock();
  }

  /** Two parts without a ':' joined by one split back into those parts. */
  lemma SplitPair(a: string, b: string)
    requires ':' !in a && ':' !in b
    ensures Split(a + ":" + b, ':') == [a, b]
  {
    var xs := [a, b];
    assert xs[1..] == [b];
    assert Join(xs, ':') == a + ":" + b;
    SplitJoin(xs, ':');
  }

  /** Appending "text" in one piece or in three gives the same text. */
  lemma Reassociate(a: string, b: string, c: string, d: string)
    ensures a + (b + c + d) == a + b + c + d
  {
  }

  /** For an "HH:MM" start, the end is the next hour, unbounded, at the same minute. */
  lemma EndTimeOfHhmm(s: string)
    requires IsHhmm(s)
    ensures CalculateEndTime(s) == Pad2(Field(s, 0) + 1) + ":" + s[3..] + ":00"
  {
    SplitHhmm(s);
    HourOfHhmm(s);
    EndTimeOfParts(s, s[..2], s[3..], Field(s, 0));
    EndTextOfPad(Field(s, 0) + 1, s[3..]);
  }

  lemma EndTimeOfParts(start: string, hh: string, mm: string, h: int)
    requires Split(start, ':') == [hh, mm]
    requires ParseInt(hh).Some? && ParseInt(hh).value == h
    ensures CalculateEndTime(start) == EndText(PadStart2(h + 1), mm)
  {
  }

  lemma EndTextOfPad(h: nat, mm: string)
    ensures EndText(PadStart2(h), mm) == Pad2(h) + ":" + mm + ":00"
  {
    Reassociate(Pad2(h), ":", mm, ":00");
  }

  /** `parseInt` of the "HH" of an "HH:MM" text is its hour field. */
  lemma HourOfHhmm(s: string)
    requires IsHhmm(s)
    ensures ParseInt(s[..2]).Some? && ParseInt(s[..2]).value == Field(s, 0)
  {
    var hh := s[..2];
    assert hh == [s[0], s[1]];
    ParseIntOfTwoDigits(s[0], s[1]);
  }

  lemma ParseIntOfTwoDigits(a: char, b: char)
    requires IsDigit(a) && IsDigit(b)
    ensures ParseInt([a, b]).Some? && ParseInt([a, b]).value == DigitValue(a) * 10 + DigitValue(b)
  {
    TwoDigitsValue([a, b]);
    ParseIntOfWholeDigits([a, b]);
  }

  lemma ParseIntOfWholeDigits(d: string)
    requires |d| > 0 && AllDigits(d)
    ensures ParseInt(d).Some? && ParseInt(d).value == DigitsValue(d)
  {
    WithEmptyTail(d);
    ParseIntOfDigits(d, "");
  }

  lemma WithEmptyTail(d: string)
    ensures d + "" == d
  {
  }

  lemma NextHourArith(h: nat, m: nat)
    requires h < 23 && m < 60
    ensures (h * 60 + m + 60) % 1440 == (h + 1) * 60 + m
    ensures ((h + 1) * 60 + m) / 60 == h + 1 && ((h + 1) * 60 + m) % 60 == m
  {
    var q := (h + 1) * 60 + m;
    assert h * 60 + m + 60 == q;
    assert q < 1440;
  }

  /** What the backend stores for a start whose next hour stays within the day. */
  lemma AddOneHourBefore23(s: string)
    requires IsHhmm(s) && Field(s, 0) < 23 && Field(s, 3) < 60
    ensures ScheduleController.AddOneHour(s + ":00") == Pad2(Field(s, 0) + 1) + ":" + s[3..] + ":00"
  {
    var h, m := Field(s, 0), Field(s, 3);
    WithSecondsFields(s);
    NextHourArith(h, m);
    RenderedAs(ScheduleController.AddOneHour(s + ":00"), Time(h + 1, m, 0));
    RenderAtMinute(s, h + 1);
  }

  /** What the backend stores for a start in the last hour of the day. */
  lemma AddOneHourAt23(s: string)
    requires IsHhmm(s) && Field(s, 0) == 23 && Field(s, 3) < 60
    ensures ScheduleController.AddOneHour(s + ":00") == "00:" + s[3..] + ":00"
  {
    var m := Field(s, 3);
    WithSecondsFields(s);
    LastHourArith(m);
    RenderedAs(ScheduleController.AddOneHour(s + ":00"), Time(0, m, 0));
    RenderAtMinute(s, 0);
    RenderAtMidnight(s[3..]);
  }

  /** Appending ":00" to an "HH:MM" text gives an "HH:MM:SS" text with the same fields. */
  lemma WithSecondsFields(s: string)
    requires IsHhmm(s)
    ensures IsHhmmss(s + ":00") && Field(s + ":00", 0) == Field(s, 0) && Field(s + ":00", 3) == Field(s, 3)
  {
    assert (s + ":00")[..5] == s;
  }

  lemma LastHourArith(m: nat)
    requires m < 60
    ensures (23 * 60 + m + 60) % 1440 == m && m / 60 == 0 && m % 60 == m
  {
  }

  lemma RenderedAs(r: string, t: Time)
    requires IsHhmmss(r) && ParseTime(r) == Some(t)
    ensures r == Render(t)
  {
    RenderOfParse(r);
  }

  lemma RenderAtMinute(s: string, h: nat)
    requires IsHhmm(s) && Field(s, 3) < 60
    ensures Render(Time(h, Field(s, 3), 0)) == Pad2(h) + ":" + s[3..] + ":00"
  {
    Pad2OfField(s, 3);
    assert s[3..5] == s[3..];
    assert Pad2(0) == "00";
  }

  lemma RenderAtMidnight(mm: string)
    ensures Pad2(0) + ":" + mm + ":00" == "00:" + mm + ":00"
  {
    assert Pad2(0) == "00";
  }

  /**
   * Were the page to call `calculateEndTime`, its end would be the backend's `addOneHour` of the
   * same start before 23:00; for a 23:xx start it would give "24:xx:00" where the backend stores
   * "00:xx:00". The grid itself only offers hours from 09:00 to 21:00.
   */
  lemma EndTimeAgreesWithBackend(s: string)
    requires IsHhmm(s) && Field(s, 3) < 60
    ensures Field(s, 0) == 23 ==> CalculateEndTime(s) == "24:" + s[3..] + ":00"
    ensures Field(s, 0) < 23 ==> ScheduleController.AddOneHour(WithSeconds(s)) == CalculateEndTime(s)
  {
    if Field(s, 0) < 23 {
      EndTimeBefore23(s);
    } else if Field(s, 0) == 23 {
      EndTimeAt23(s);
    }
  }

  lemma EndTimeBefore23(s: string)
    requires IsHhmm(s) && Field(s, 0) < 23 && Field(s, 3) < 60
    ensures ScheduleController.AddOneHour(s + ":00") == CalculateEndTime(s)
  {
    EndTimeOfHhmm(s);
    AddOneHourBefore23(s);
  }

  lemma EndTimeAt23(s: string)
    requires IsHhmm(s) && Field(s, 0) == 23
    ensures CalculateEndTime(s) == "24:" + s[3..] + ":00"
  {
    assert Pad2(24) + ":" == "24:" by {
      PadTwentyFour();
    }
    assert CalculateEndTime(s) == Pad2(24) + ":" + s[3..] + ":00" by {
      EndTimeOfHhmm(s);
    }
  }

  lemma PadTwentyFour()
    ensures Pad2(24) == "24" && Pad2(24) + ":" == "24:"
  {
    assert NatToString(2) == "2";
    assert NatToString(24) == NatToString(2) + [DigitChar(4)];
  }
}
