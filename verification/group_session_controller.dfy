/**
 * The admin's group-class endpoints (backend/controllers/groupSessionController.js): required
 * fields, the order of the two trainer-availability checks, and the defaults of the class list.
 */
module GroupSessionController {
  import opened Wrappers
  import opened Clock
  import opened Store
  import opened Http
  import opened Helpers
  import opened GroupSessions

  /** JavaScript truthiness of the `days` field: any array (even an empty one) or a non-empty text. */
  predicate DaysGiven(days: DaysInput) {
    days.DayList? || |days.text| > 0
  }

  /**
   * `!name || !days || !time || !max_participants || !duration` is false: every field the form
   * needs is truthy, so a capacity or duration of 0 is refused, and so is a null or unsent
   * duration.
   */
  predicate Complete(input: SessionInput) {
    && |input.name| > 0
    && DaysGiven(input.days)
    && |input.time| > 0
    && input.maxParticipants != 0
    && input.duration.Minutes? && input.duration.n != 0
  }

  /**
   * The two availability checks a class with a trainer goes through, in order: another class of
   * the trainer first, then the trainer's personal slots. None when both pass or when there is
   * no trainer.
   */
  function Availability(db: Db, input: SessionInput, exclude: Option<nat>): (w: Option<Why>)
    ensures !Present(input.trainer) ==> w.None?
    ensures w == Some(TrainerBusyWithGroup) <==> TimeConflict(db, input.trainer, input.days, input.time, input.duration, exclude)
    ensures w == Some(TrainerBusyWithPersonal) <==>
      !TimeConflict(db, input.trainer, input.days, input.time, input.duration, exclude)
      && ScheduleConflict(db, input.trainer, input.days, input.time, input.duration)
    ensures w.Some? ==> w.value.TrainerBusyWithGroup? || w.value.TrainerBusyWithPersonal?
  {
    if !Present(input.trainer) then None
    else if TimeConflict(db, input.trainer, input.days, input.time, input.duration, exclude) then Some(TrainerBusyWithGroup)
    else if ScheduleConflict(db, input.trainer, input.days, input.time, input.duration) then Some(TrainerBusyWithPersonal)
    else None
  }

  /**
   * `createGroupSession`: 400 for a missing field, then 400 for each availability failure (group
   * classes checked first), each without any change; otherwise the class is inserted with no
   * participants and its id is returned.
   */
  function CreateSession(db: Db, input: SessionInput): (h: Handled<nat>)
    ensures !Complete(input) ==> h == Handled(db, Fail(Missing("fields")))
    ensures h.reply.Fail? ==> h.db == db
    ensures Complete(input) && Availability(db, input, None).Some? ==> h == Handled(db, Fail(Availability(db, input, None).value))
    ensures h.reply.Ok? <==> Complete(input) && Availability(db, input, None).None?
    ensures h.reply.Ok? ==>
      && h.reply.value == db.nextId
      && h.db.sessions == db.sessions + [Entry(db.nextId, NewSession(input, 0))]
      && h.db == db.(sessions := h.db.sessions, nextId := db.nextId + 1)
  {
    if !Complete(input) then Handled(db, Fail(Missing("fields")))
    else match Availability(db, input, None)
      case Some(w) => Handled(db, Fail(w))
      case None => FromTx(Create(db, input))
  }

  /**
   * A class created for a trainer overlaps none of that trainer's classes on a shared day, and
   * none of the trainer's personal slots on a requested day, by the checks' own measures.
   */
  lemma CreatedClassIsFree(db: Db, input: SessionInput)
    requires CreateSession(db, input).reply.Ok?
    requires Present(input.trainer) && |DaysArray(input.days)| > 0 && StoredTime(input.time).Some?
    ensures forall k :: 0 <= k < |db.sessions| ==>
      !ClashesWithClass(db.sessions[k], input.trainer.value, DaysArray(input.days),
         Seconds(StoredTime(input.time).value), DurationOr60(input.duration), None)
    ensures forall k :: 0 <= k < |db.schedule| ==>
      !ClashesWithSlot(db.schedule[k], input.trainer.value, DaysArray(input.days),
         Seconds(StoredTime(input.time).value), ClassEnd(StoredTime(input.time).value, DurationOr60(input.duration)))
  {
  }

  /** A class with all fields and no trainer is always created: no availability check runs. */
  lemma NoTrainerAlwaysCreated(db: Db, input: SessionInput)
    requires Complete(input) && !Present(input.trainer)
    ensures CreateSession(db, input).reply == Ok(db.nextId)
  {
  }

  /**
   * `updateGroupSession`: no required-field check; with a trainer, the same two checks with the
   * class's own id excluded from the group check; then 404 if no class has that id. The checks
   * run before the existence test, so an unknown id with a busy trainer is a 400. A request
   * without a duration passes the checks with the default of 60 minutes and then fails with a
   * 500, because the update binds it as `undefined`.
   */
  function UpdateSession(db: Db, id: nat, input: SessionInput): (h: Handled<bool>)
    ensures !h.reply.Ok? ==> h.db == db
    ensures h.reply.Crash? <==> Availability(db, input, Some(id)).None? && input.duration.NoDuration?
    ensures h.reply.Crash? ==> h.reply.error == UndefinedBind
    ensures Availability(db, input, Some(id)).Some? ==> h.reply == Fail(Availability(db, input, Some(id)).value)
    ensures Availability(db, input, Some(id)).None? && !input.duration.NoDuration? ==>
      if exists k :: 0 <= k < |db.sessions| && db.sessions[k].id == id
      then h.reply == Ok(true) && h.db == Update(db, id, input).db
      else h.reply == Fail(Absent("session"))
  {
    match Availability(db, input, Some(id))
    case Some(w) => Handled(db, Fail(w))
    case None =>
      var tx := Update(db, id, input);
      if tx.result.Failure? then FromTx(tx)
      else if tx.result.value then Handled(tx.db, Ok(true)) else Handled(db, Fail(Absent("session")))
  }

  /** Editing a class never reports a clash of the class with itself. */
  lemma UpdateExcludesItself(db: Db, input: SessionInput, k: nat)
    requires k < |db.sessions| && db.sessions[k].id != 0 && StoredTime(input.time).Some?
    requires Present(input.trainer) && !input.duration.NoDuration?
    requires forall j :: 0 <= j < |db.sessions| && j != k ==> db.sessions[j].row.trainer != input.trainer
    requires !ScheduleConflict(db, input.trainer, input.days, input.time, input.duration)
    ensures UpdateSession(db, db.sessions[k].id, input).reply == Ok(true)
  {
    ExcludedClassNeverClashes(db, input.trainer, input.days, input.time, input.duration, k);
  }

  /** A class as the list endpoint shows it. */
  datatype Listed = Listed(
    id: nat,
    name: string,
    description: string,
    days: string,
    time: string,
    duration: int,
    maxParticipants: int,
    current: int,
    trainer: Option<nat>)

  const DefaultDuration: int := 60
  const DefaultCapacity: int := 10

  /** The text a TIME column is read back as: "HH:MM:SS", or nothing for NULL. */
  function TimeValue(t: Option<Time>): Value {
    if t.Some? then Str(Render(t.value)) else NoValue
  }

  /** How `formatTimeSimply` shows a TIME column. */
  lemma TimeShown(t: Option<Time>)
    ensures t.None? ==> FormatTimeSimply(TimeValue(t)) == DefaultTime
    ensures t.Some? && t.value.h < 100 && t.value.m < 100 ==> FormatTimeSimply(TimeValue(t)) == Hhmm(t.value)
  {
    if t.Some? && t.value.h < 100 && t.value.m < 100 {
      FormatTimeOfRender(t.value);
    }
  }

  /**
   * One class of `getAllGroupSessions`: a duration of 0 shows as 60 and a capacity of 0 as 10;
   * the time shows as "HH:MM", or "10:00" when unset.
   */
  function Format(e: Entry<GroupSession>): (r: Listed)
    ensures r.id == e.id && r.name == e.row.name && r.days == e.row.days && r.current == e.row.current
    ensures r.duration != 0 && r.maxParticipants != 0
    ensures e.row.duration != 0 ==> r.duration == e.row.duration
    ensures e.row.maxParticipants != 0 ==> r.maxParticipants == e.row.maxParticipants
    ensures e.row.time.None? ==> r.time == DefaultTime
    ensures e.row.time.Some? && e.row.time.value.h < 100 && e.row.time.value.m < 100 ==> r.time == Hhmm(e.row.time.value)
    ensures r.trainer.Some? ==> r.trainer == e.row.trainer && r.trainer.value != 0
  {
    TimeShown(e.row.time);
    Listed(e.id, e.row.name, e.row.description, e.row.days, FormatTimeSimply(TimeValue(e.row.time)),
      if e.row.duration != 0 then e.row.duration else DefaultDuration,
      if e.row.maxParticipants != 0 then e.row.maxParticipants else DefaultCapacity,
      e.row.current,
      if Present(e.row.trainer) then e.row.trainer else None)
  }

  /** `getAllGroupSessions`: every class, newest id first, each formatted. */
  function ListAll(sessions: Table<GroupSession>): (r: seq<Listed>)
    ensures |r| == |sessions|
    ensures forall i :: 0 <= i < |r| ==> r[i] == Format(sessions[|sessions| - 1 - i])
  {
    seq(|sessions|, i requires 0 <= i < |sessions| => Format(sessions[|sessions| - 1 - i]))
  }

  /** In a well-keyed table the list is in strictly decreasing id order. */
  lemma ListAllNewestFirst(db: Db)
    requires Valid(db)
    ensures forall i, j :: 0 <= i < j < |ListAll(db.sessions)| ==> ListAll(db.sessions)[i].id > ListAll(db.sessions)[j].id
  {
  }
}
