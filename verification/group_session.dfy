/**
 * Group classes (backend/models/GroupSession.js): storing a class from the admin form, and the
 * two trainer-availability checks run before a class is stored: against the trainer's other
 * classes and against the trainer's personal-training slots.
 */
module GroupSessions {
  import opened Wrappers
  import opened Text
  import opened Clock
  import opened Store

  /** The `days` field of a request: an array of day names or one comma-separated text. */
  datatype DaysInput = DayList(list: seq<string>) | DayText(text: string)

  /**
   * The `duration` field of a request: not sent (`undefined`), sent as `null` (what the admin
   * form sends for an empty field, since `parseInt("")` is NaN and NaN is serialised as null), or
   * a number of minutes.
   */
  datatype DurationInput = NoDuration | NullDuration | Minutes(n: int)

  /** What the admin form sends for a class. */
  datatype SessionInput = SessionInput(
    name: string,
    description: string,
    days: DaysInput,
    time: string,
    maxParticipants: int,
    duration: DurationInput,
    trainer: Option<nat>)

  /** `Array.isArray(days) ? days.join(',') : days`: the text stored in the `days` column. */
  function StoredDays(days: DaysInput): string {
    match days
    case DayList(xs) => Join(xs, ',')
    case DayText(s) => s
  }

  /** `Array.isArray(days) ? days : (days ? days.split(',') : [])`. */
  function DaysArray(days: DaysInput): (r: seq<string>)
    ensures days.DayText? && |days.text| > 0 ==> |r| >= 1
    ensures days.DayText? && |days.text| == 0 ==> r == []
  {
    match days
    case DayList(xs) => xs
    case DayText(s) => if |s| > 0 then Split(s, ',') else []
  }

  /** A day list sent as an array is stored so that splitting it back gives the same days. */
  lemma StoredDaysRoundTrip(xs: seq<string>)
    requires |xs| >= 1
    requires forall i :: 0 <= i < |xs| ==> ',' !in xs[i]
    ensures Split(StoredDays(DayList(xs)), ',') == xs
  {
    SplitJoin(xs, ',');
  }

  /** The time column: the request time with its seconds, read as a TIME (absent if malformed). */
  function StoredTime(time: string): Option<Time> {
    ParseTime(WithSeconds(time))
  }

  /** An "HH:MM" request time is stored as that minute with zero seconds. */
  lemma StoredTimeOfHhmm(time: string)
    requires IsHhmm(time)
    ensures StoredTime(time) == Some(Time(Field(time, 0), Field(time, 3), 0))
    ensures Render(StoredTime(time).value) == time + ":00"
  {
    WithSecondsParses(time);
    RenderOfParse(WithSeconds(time));
  }

  /**
   * The stored row of a sent duration; a falsy trainer is stored as NULL (and a null duration as
   * the 0 that stands for NULL), a new class has no participants.
   */
  function NewSession(input: SessionInput, current: int): (g: GroupSession)
    requires !input.duration.NoDuration?
    ensures input.duration.Minutes? ==> g.duration == input.duration.n
    ensures input.duration.NullDuration? ==> g.duration == 0
    ensures g.current == current && g.time == StoredTime(input.time) && g.days == StoredDays(input.days)
    ensures Present(g.trainer) <==> Present(input.trainer)
    ensures g.trainer.Some? ==> g.trainer == input.trainer
  {
    GroupSession(input.name, input.description, StoredDays(input.days), StoredTime(input.time),
      input.maxParticipants, if input.duration.Minutes? then input.duration.n else 0,
      current, if Present(input.trainer) then input.trainer else None)
  }

  /**
   * `GroupSession.create`: inserts the class and returns its id. An unsent duration is bound as
   * `undefined`, which the driver refuses before anything is written.
   */
  function Create(db: Db, input: SessionInput): (tx: Tx<nat>)
    ensures input.duration.NoDuration? ==> tx == Tx(db, Failure(UndefinedBind))
    ensures !input.duration.NoDuration? ==>
      && tx.result == Success(db.nextId)
      && tx.db == db.(sessions := db.sessions + [Entry(db.nextId, NewSession(input, 0))], nextId := db.nextId + 1)
      && tx.db.sessions[|db.sessions|].row.current == 0
      && (!Present(input.trainer) ==> tx.db.sessions[|db.sessions|].row.trainer.None?)
  {
    if input.duration.NoDuration? then Tx(db, Failure(UndefinedBind))
    else
      Tx(db.(sessions := db.sessions + [Entry(db.nextId, NewSession(input, 0))], nextId := db.nextId + 1),
         Success(db.nextId))
  }

  /** Creating a class keeps the store well keyed. */
  lemma CreateKeepsValid(db: Db, input: SessionInput)
    requires Valid(db)
    ensures Valid(Create(db, input).db)
  {
    if !input.duration.NoDuration? {
      AppendWellKeyed(db.sessions, db.nextId, NewSession(input, 0));
      WellKeyedGrow(db.subs, db.nextId, db.nextId + 1);
      WellKeyedGrow(db.personal, db.nextId, db.nextId + 1);
      WellKeyedGrow(db.bookings, db.nextId, db.nextId + 1);
      WellKeyedGrow(db.schedule, db.nextId, db.nextId + 1);
      WellKeyedGrow(db.reviews, db.nextId, db.nextId + 1);
    }
  }

  /**
   * `GroupSession.update`: rewrites every column the form sends of the class with that id (the
   * participant counter is kept) and reports whether such a class exists. An unsent duration is
   * bound as `undefined`: the driver refuses the statement and nothing changes, whether or not
   * the class exists.
   */
  function Update(db: Db, id: nat, input: SessionInput): (tx: Tx<bool>)
    ensures tx.result.Failure? <==> input.duration.NoDuration?
    ensures tx.result.Failure? ==> tx == Tx(db, Failure(UndefinedBind))
    ensures tx.result.Success? ==>
      (tx.result.value <==> exists k :: 0 <= k < |db.sessions| && db.sessions[k].id == id)
    ensures tx.result != Success(true) ==> tx.db == db
    ensures tx.db == db.(sessions := tx.db.sessions)
    ensures |tx.db.sessions| == |db.sessions|
    ensures forall k :: 0 <= k < |db.sessions| && db.sessions[k].id == id && tx.result.Success? ==>
      tx.db.sessions[k] == Entry(id, NewSession(input, db.sessions[k].row.current))
    ensures forall k :: 0 <= k < |db.sessions| && db.sessions[k].id != id ==> tx.db.sessions[k] == db.sessions[k]
  {
    if input.duration.NoDuration? then Tx(db, Failure(UndefinedBind))
    else
    var found := FindId(db.sessions, id).Some?;
    var sessions := MapRows(db.sessions, (e: Entry<GroupSession>) =>
      if e.id == id then NewSession(input, e.row.current) else e.row);
    if !found then
      assert sessions == db.sessions;
      Tx(db, Success(false))
    else Tx(db.(sessions := sessions), Success(true))
  }

  /** Updating a class keeps the store well keyed: the ids are untouched. */
  lemma UpdateKeepsValid(db: Db, id: nat, input: SessionInput)
    requires Valid(db)
    ensures Valid(Update(db, id, input).db)
  {
    if !input.duration.NoDuration? {
      MapRowsWellKeyed(db.sessions, (e: Entry<GroupSession>) =>
        if e.id == id then NewSession(input, e.row.current) else e.row, db.nextId);
    }
  }

  /** Updating a class keeps every class's participant counter. */
  lemma UpdateKeepsCounters(db: Db, id: nat, input: SessionInput, k: nat)
    requires k < |db.sessions|
    ensures Update(db, id, input).db.sessions[k].row.current == db.sessions[k].row.current
  {
  }

  /** MySQL `FIND_IN_SET(s, list) > 0`: s is an element of a non-empty comma list (s holds no comma). */
  predicate FindInSet(s: string, list: string) {
    ',' !in s && |list| > 0 && s in Split(list, ',')
  }

  /** Every element of a stored comma list is found in it. */
  lemma FindInSetOfJoin(xs: seq<string>, k: nat)
    requires |xs| >= 1 && k < |xs|
    requires forall i :: 0 <= i < |xs| ==> ',' !in xs[i]
    requires |Join(xs, ',')| > 0
    ensures FindInSet(xs[k], Join(xs, ','))
  {
    SplitJoin(xs, ',');
  }

  /**
   * The group-vs-group test between an existing class starting at s and a candidate starting at
   * n, both in seconds; d is the candidate's duration in seconds and serves as the length of
   * both classes.
   */
  predicate GroupOverlap(s: int, n: int, d: int) {
    (s <= n && s + d > n) || (s < n && s + d >= n) || (n <= s && n + d > s)
  }

  /** The test holds exactly for candidates starting in the half-open window (s − d, s + d]. */
  lemma GroupOverlapWindow(s: int, n: int, d: int)
    ensures GroupOverlap(s, n, d) <==> d > 0 && s - d < n <= s + d
  {
  }

  /**
   * The window is lopsided: a candidate starting exactly when the existing class ends is
   * rejected, one ending exactly when it starts is accepted.
   */
  lemma GroupOverlapBoundaries(s: int, d: int)
    requires d > 0
    ensures GroupOverlap(s, s + d, d)
    ensures !GroupOverlap(s, s - d, d)
  {
    GroupOverlapWindow(s, s + d, d);
    GroupOverlapWindow(s, s - d, d);
  }

  /**
   * The minutes the checks compute with: the parameter default of 60 when the field was not
   * sent, 0 for null (JavaScript arithmetic reads null as 0), the number otherwise.
   */
  function DurationOr60(duration: DurationInput): int {
    match duration
    case NoDuration => 60
    case NullDuration => 0
    case Minutes(n) => n
  }

  /** Whether class e of the trainer, on a shared day, clashes with a candidate starting at n seconds. */
  predicate ClashesWithClass(e: Entry<GroupSession>, t: nat, days: seq<string>, n: int, minutes: int, exclude: Option<nat>) {
    && e.row.trainer == Some(t)
    && (exists d :: d in days && FindInSet(d, e.row.days))
    && e.row.time.Some?
    && GroupOverlap(Seconds(e.row.time.value), n, minutes * 60)
    && (!Present(exclude) || e.id != exclude.value)
  }

  /**
   * `checkTrainerTimeConflict`: no trainer or no days means no conflict; otherwise some other
   * class of the trainer on a shared day passes the overlap test. A start time that is not
   * "HH:MM" or "HH:MM:SS" conflicts with nothing, and neither does a null duration: the query's
   * `SEC_TO_TIME(NULL * 60)` is NULL, so no class satisfies the overlap condition.
   */
  predicate TimeConflict(db: Db, trainer: Option<nat>, days: DaysInput, time: string, duration: DurationInput, exclude: Option<nat>) {
    && Present(trainer)
    && |DaysArray(days)| > 0
    && StoredTime(time).Some?
    && !duration.NullDuration?
    && exists k :: 0 <= k < |db.sessions| &&
         ClashesWithClass(db.sessions[k], trainer.value, DaysArray(days), Seconds(StoredTime(time).value),
           DurationOr60(duration), exclude)
  }

  /** Excluding a class's own id removes it from its own conflict check. */
  lemma ExcludedClassNeverClashes(db: Db, trainer: Option<nat>, days: DaysInput, time: string, duration: DurationInput, k: nat)
    requires k < |db.sessions| && db.sessions[k].id != 0
    requires StoredTime(time).Some?
    ensures !ClashesWithClass(db.sessions[k], trainer.GetOr(0), DaysArray(days), Seconds(StoredTime(time).value),
      DurationOr60(duration), Some(db.sessions[k].id))
  {
  }

  /** A trainer-less or day-less request never conflicts. */
  lemma NoTrainerNoConflict(db: Db, trainer: Option<nat>, days: DaysInput, time: string, duration: DurationInput, exclude: Option<nat>)
    requires !Present(trainer) || days == DayList([]) || days == DayText("")
    ensures !TimeConflict(db, trainer, days, time, duration, exclude)
    ensures !ScheduleConflict(db, trainer, days, time, duration)
  {
  }

  /**
   * The personal-slot test between a slot [a, b] and a class from n to e, in seconds: the slot
   * covers the start, or covers the end, or starts inside the class.
   */
  predicate ScheduleOverlap(a: int, b: int, n: int, e: int) {
    (a <= n && b > n) || (a < e && b >= e) || (n <= a && e >= a)
  }

  /**
   * For a proper slot and class the test is: the slot starts no later than the class ends and
   * ends after the class starts. So a class ending exactly at a slot's start conflicts, and one
   * starting exactly at a slot's end does not.
   */
  lemma ScheduleOverlapIff(a: int, b: int, n: int, e: int)
    requires a < b && n < e
    ensures ScheduleOverlap(a, b, n, e) <==> a <= e && n < b
  {
  }

  /**
   * The class end as the check computes it: the start's hours and minutes plus the duration,
   * in whole minutes (the start's seconds are dropped, and there is no wrap at midnight).
   */
  function ClassEnd(start: Time, minutes: int): (e: int)
    ensures start.s == 0 ==> e == Seconds(start) + minutes * 60
  {
    (start.h * 60 + start.m + minutes) * 60
  }

  /** Slot e of the trainer on one of the requested days clashes with the class from n to end. */
  predicate ClashesWithSlot(e: Entry<Slot>, t: nat, days: seq<string>, n: int, end: int) {
    e.row.trainer == t && Name(e.row.day) in days && ScheduleOverlap(Seconds(e.row.start), Seconds(e.row.end), n, end)
  }

  /** `checkTrainerScheduleConflict`: some personal slot of the trainer on a requested day clashes. */
  predicate ScheduleConflict(db: Db, trainer: Option<nat>, days: DaysInput, time: string, duration: DurationInput) {
    && Present(trainer)
    && |DaysArray(days)| > 0
    && StoredTime(time).Some?
    && exists k :: 0 <= k < |db.schedule| &&
         ClashesWithSlot(db.schedule[k], trainer.value, DaysArray(days), Seconds(StoredTime(time).value),
           ClassEnd(StoredTime(time).value, DurationOr60(duration)))
  }

  /** A class ending exactly when a personal slot begins is reported as a conflict. */
  lemma EndingAtSlotStartConflicts(db: Db, t: nat, days: DaysInput, time: string, duration: int, k: nat)
    requires t != 0 && k < |db.schedule| && db.schedule[k].row.trainer == t
    requires Name(db.schedule[k].row.day) in DaysArray(days)
    requires StoredTime(time).Some? && StoredTime(time).value.s == 0 && duration > 0
    requires Seconds(db.schedule[k].row.start) == Seconds(StoredTime(time).value) + duration * 60
    ensures ScheduleConflict(db, Some(t), days, time, Minutes(duration))
  {
    assert ClashesWithSlot(db.schedule[k], t, DaysArray(days), Seconds(StoredTime(time).value),
      ClassEnd(StoredTime(time).value, duration));
  }

  /**
   * A null duration gives a class of no length: it clashes with a personal slot exactly when it
   * starts inside the slot, its end included, so a class starting when a slot ends is refused.
   */
  lemma NullDurationMeetsSlotsAtStart(db: Db, t: nat, days: DaysInput, time: string, k: nat)
    requires t != 0 && k < |db.schedule| && db.schedule[k].row.trainer == t
    requires Name(db.schedule[k].row.day) in DaysArray(days)
    requires StoredTime(time).Some? && StoredTime(time).value.s == 0
    requires Seconds(db.schedule[k].row.start) < Seconds(db.schedule[k].row.end)
    ensures ClashesWithSlot(db.schedule[k], t, DaysArray(days), Seconds(StoredTime(time).value),
      ClassEnd(StoredTime(time).value, DurationOr60(NullDuration))) <==>
      Seconds(db.schedule[k].row.start) <= Seconds(StoredTime(time).value) <= Seconds(db.schedule[k].row.end)
  {
  }

  /** A null duration passes the group check whatever the trainer's other classes. */
  lemma NullDurationNeverMeetsClasses(db: Db, trainer: Option<nat>, days: DaysInput, time: string, exclude: Option<nat>)
    ensures !TimeConflict(db, trainer, days, time, NullDuration, exclude)
  {
  }
}
