/**
 * Trainers' weekly personal-training slots (backend/models/TrainerSchedule.js): the listing, the
 * overlap check, single-slot update and delete, and the all-or-nothing replacement of one
 * trainer's whole week.
 */
module Schedules {
  import opened Wrappers
  import opened Clock
  import opened Store
  import opened Sorting

  const PersonalKind: string := "personal"

  /** The rows of one trainer, in table order. */
  function RowsOf(t: Table<Slot>, trainer: nat): (r: seq<Slot>)
    ensures |r| <= |t|
    ensures forall i :: 0 <= i < |r| ==> r[i].trainer == trainer
    decreases |t|
  {
    if |t| == 0 then []
    else if t[0].row.trainer == trainer then [t[0].row] + RowsOf(t[1..], trainer)
    else RowsOf(t[1..], trainer)
  }

  lemma {:induction false} RowsOfAppend(a: Table<Slot>, b: Table<Slot>, trainer: nat)
    ensures RowsOf(a + b, trainer) == RowsOf(a, trainer) + RowsOf(b, trainer)
    decreases |a|
  {
    if |a| > 0 {
      assert (a + b)[1..] == a[1..] + b;
      RowsOfAppend(a[1..], b, trainer);
    } else {
      assert a + b == b;
    }
  }

  /** Deleting one trainer's rows leaves that trainer none and every other trainer's rows intact. */
  lemma {:induction false} RowsOfRemoveTrainer(t: Table<Slot>, gone: nat, trainer: nat)
    ensures RowsOf(Remove(t, (e: Entry<Slot>) => e.row.trainer == gone), trainer) ==
      if trainer == gone then [] else RowsOf(t, trainer)
    decreases |t|
  {
    if |t| > 0 {
      RowsOfRemoveTrainer(t[1..], gone, trainer);
    }
  }

  /** What the controller hands over for one slot; an empty kind or a zero count is falsy. */
  datatype SlotInput = SlotInput(day: Weekday, start: Time, end: Time, kind: string, maxSlots: int)

  /** The stored row: kind defaults to 'personal', the count to 1, `created_by` to NULL. */
  function Materialize(s: SlotInput, trainer: nat, admin: Option<nat>): (r: Slot)
    ensures r.trainer == trainer && r.day == s.day && r.start == s.start && r.end == s.end
    ensures r.kind == if |s.kind| > 0 then s.kind else PersonalKind
    ensures r.maxSlots == if s.maxSlots != 0 then s.maxSlots else 1
    ensures r.createdBy == if Present(admin) then admin else None
  {
    Slot(trainer, s.day, s.start, s.end, if |s.kind| > 0 then s.kind else PersonalKind,
      if s.maxSlots != 0 then s.maxSlots else 1, if Present(admin) then admin else None)
  }

  /** The multi-row INSERT: one entry per slot, with consecutive ids from `first`. */
  function Inserted(slots: seq<SlotInput>, trainer: nat, admin: Option<nat>, first: nat): (r: Table<Slot>)
    ensures |r| == |slots|
    ensures forall i :: 0 <= i < |r| ==> r[i] == Entry(first + i, Materialize(slots[i], trainer, admin))
    decreases |slots|
  {
    if |slots| == 0 then []
    else [Entry(first, Materialize(slots[0], trainer, admin))] + Inserted(slots[1..], trainer, admin, first + 1)
  }

  /** The rows inserted for a trainer all belong to that trainer and are the slots, in order. */
  lemma {:induction false} RowsOfInserted(slots: seq<SlotInput>, trainer: nat, admin: Option<nat>, first: nat, other: nat)
    ensures RowsOf(Inserted(slots, trainer, admin, first), other) ==
      if other == trainer then seq(|slots|, i requires 0 <= i < |slots| => Materialize(slots[i], trainer, admin))
      else []
    decreases |slots|
  {
    if |slots| > 0 {
      var t := Inserted(slots, trainer, admin, first);
      assert t[1..] == Inserted(slots[1..], trainer, admin, first + 1);
      RowsOfInserted(slots[1..], trainer, admin, first + 1, other);
    }
  }

  function DropTrainer(trainer: nat): Entry<Slot> -> bool {
    (e: Entry<Slot>) => e.row.trainer == trainer
  }

  /**
   * `replaceTrainerSchedule`: deletes every row of the trainer, then inserts exactly the given
   * slots. One transaction; an empty list leaves the trainer with no rows.
   */
  function Replace(db: Db, trainer: nat, slots: seq<SlotInput>, admin: Option<nat>): (r: Db)
    ensures RowsOf(r.schedule, trainer) ==
      seq(|slots|, i requires 0 <= i < |slots| => Materialize(slots[i], trainer, admin))
    ensures forall u :: u != trainer ==> RowsOf(r.schedule, u) == RowsOf(db.schedule, u)
    ensures r == db.(schedule := r.schedule, nextId := db.nextId + |slots|)
  {
    var kept := Remove(db.schedule, DropTrainer(trainer));
    var added := Inserted(slots, trainer, admin, db.nextId);
    forall u
      ensures RowsOf(kept + added, u) ==
        if u == trainer then seq(|slots|, i requires 0 <= i < |slots| => Materialize(slots[i], trainer, admin))
        else RowsOf(db.schedule, u)
    {
      RowsOfAppend(kept, added, u);
      RowsOfRemoveTrainer(db.schedule, trainer, u);
      RowsOfInserted(slots, trainer, admin, db.nextId, u);
    }
    db.(schedule := kept + added, nextId := db.nextId + |slots|)
  }

  lemma {:induction false} ReplaceKeepsValid(db: Db, trainer: nat, slots: seq<SlotInput>, admin: Option<nat>)
    requires Valid(db)
    ensures Valid(Replace(db, trainer, slots, admin))
  {
    var kept := Remove(db.schedule, DropTrainer(trainer));
    var added := Inserted(slots, trainer, admin, db.nextId);
    var n' := db.nextId + |slots|;
    RemoveWellKeyed(db.schedule, DropTrainer(trainer), db.nextId);
    assert WellKeyed(kept + added, n');
    WellKeyedGrow(db.subs, db.nextId, n');
    WellKeyedGrow(db.personal, db.nextId, n');
    WellKeyedGrow(db.bookings, db.nextId, n');
    WellKeyedGrow(db.sessions, db.nextId, n');
    WellKeyedGrow(db.reviews, db.nextId, n');
  }

  /** `delete`: false for an unknown id, otherwise the row is removed and the answer is true. */
  function Delete(db: Db, id: nat): (r: (Db, bool))
    ensures r.1 <==> exists k :: 0 <= k < |db.schedule| && db.schedule[k].id == id
    ensures !r.1 ==> r.0 == db
    ensures r.0 == db.(schedule := r.0.schedule)
    ensures forall k :: 0 <= k < |r.0.schedule| ==> r.0.schedule[k] in db.schedule && r.0.schedule[k].id != id
    ensures forall k :: 0 <= k < |db.schedule| && db.schedule[k].id != id ==> db.schedule[k] in r.0.schedule
  {
    if FindId(db.schedule, id).None? then (db, false)
    else (db.(schedule := Remove(db.schedule, (e: Entry<Slot>) => e.id == id)), true)
  }

  /** Deleting a slot leaves one row fewer when ids are unique. */
  lemma DeleteRemovesOne(db: Db, id: nat, k: nat)
    requires Valid(db) && k < |db.schedule| && db.schedule[k].id == id
    ensures |Delete(db, id).0.schedule| == |db.schedule| - 1
  {
    var drop := (e: Entry<Slot>) => e.id == id;
    forall i | 0 <= i < |db.schedule| && i != k
      ensures !drop(db.schedule[i])
    {
      if db.schedule[i].id == id {
        IdUnique(db.schedule, i, k);
      }
    }
    CountRemoveOne(db.schedule, drop, (e: Entry<Slot>) => true, k);
    CountAll(db.schedule);
    CountAll(Remove(db.schedule, drop));
  }

  lemma {:induction false} CountAll(t: Table<Slot>)
    ensures Count(t, (e: Entry<Slot>) => true) == |t|
    decreases |t|
  {
    if |t| > 0 {
      CountAll(t[1..]);
    }
  }

  /** `update`: rewrites trainer, day, times and count of the row with that id (the kind is kept). */
  function Update(db: Db, id: nat, trainer: nat, day: Weekday, start: Time, end: Time, maxSlots: int): (r: (Db, bool))
    ensures r.1 <==> exists k :: 0 <= k < |db.schedule| && db.schedule[k].id == id
    ensures r.0 == db.(schedule := r.0.schedule)
    ensures |r.0.schedule| == |db.schedule|
    ensures forall k :: 0 <= k < |db.schedule| ==>
      r.0.schedule[k] == if db.schedule[k].id == id
                         then Entry(id, db.schedule[k].row.(trainer := trainer, day := day, start := start, end := end,
                                                            maxSlots := maxSlots))
                         else db.schedule[k]
  {
    (db.(schedule := MapRows(db.schedule, (e: Entry<Slot>) =>
        if e.id == id then e.row.(trainer := trainer, day := day, start := start, end := end, maxSlots := maxSlots)
        else e.row)),
     FindId(db.schedule, id).Some?)
  }

  /** Rewriting a slot keeps the store well keyed: the ids are untouched. */
  lemma UpdateKeepsValid(db: Db, id: nat, trainer: nat, day: Weekday, start: Time, end: Time, maxSlots: int)
    requires Valid(db)
    ensures Valid(Update(db, id, trainer, day, start, end, maxSlots).0)
  {
    MapRowsWellKeyed(db.schedule, (e: Entry<Slot>) =>
      if e.id == id then e.row.(trainer := trainer, day := day, start := start, end := end, maxSlots := maxSlots)
      else e.row, db.nextId);
  }

  /**
   * `checkOverlapping`: some other row of the trainer on that day covers the start or covers the
   * end of [start, end] (times in seconds).
   */
  predicate Overlapping(db: Db, trainer: nat, day: string, start: int, end: int, exclude: Option<nat>) {
    exists k :: 0 <= k < |db.schedule| && OverlapRow(db.schedule[k], trainer, day, start, end, exclude)
  }

  predicate OverlapRow(e: Entry<Slot>, trainer: nat, day: string, s: int, t: int, exclude: Option<nat>) {
    && e.row.trainer == trainer && Name(e.row.day) == day
    && CoversEitherEnd(Seconds(e.row.start), Seconds(e.row.end), s, t)
    && (!Present(exclude) || e.id != exclude.value)
  }

  predicate CoversEitherEnd(a: int, b: int, s: int, e: int) {
    (a <= s && b > s) || (a < e && b >= e)
  }

  /**
   * `excludeId` takes the row being edited out of its own check; without one, a row of the
   * trainer on that day is reported exactly when it covers an end of the candidate.
   */
  lemma ExcludedRowIgnored(db: Db, trainer: nat, day: string, start: int, end: int, k: nat)
    requires k < |db.schedule| && db.schedule[k].id != 0
    ensures !OverlapRow(db.schedule[k], trainer, day, start, end, Some(db.schedule[k].id))
    ensures OverlapRow(db.schedule[k], trainer, day, start, end, None) <==>
      && db.schedule[k].row.trainer == trainer && Name(db.schedule[k].row.day) == day
      && CoversEitherEnd(Seconds(db.schedule[k].row.start), Seconds(db.schedule[k].row.end), start, end)
  {
  }

  /** An existing slot lying strictly inside the candidate is not reported. */
  lemma ContainedSlotMissed(a: int, b: int, s: int, e: int)
    requires s < a && b < e
    ensures !CoversEitherEnd(a, b, s, e)
  {
  }

  /** Any row that does cover an end of the candidate shares time with it. */
  lemma CoversEitherEndMeansShared(a: int, b: int, s: int, e: int)
    requires a < b && s < e
    requires CoversEitherEnd(a, b, s, e)
    ensures a <= e && s < b
  {
  }

  /** `getAll`'s filter: personal slots of trainers that exist with an existing user. */
  predicate Listed(db: Db, e: Entry<Slot>) {
    e.row.kind == PersonalKind && e.row.trainer in db.trainers && db.trainers[e.row.trainer].userId in db.users
  }

  /** The listed rows of t in table order, each as often as t holds it. */
  function Filter(db: Db, t: Table<Slot>): (r: Table<Slot>)
    ensures forall e :: e in r <==> e in t && Listed(db, e)
    ensures forall e :: multiset(r)[e] == if Listed(db, e) then multiset(t)[e] else 0
    ensures |r| <= |t|
    decreases |t|
  {
    if |t| == 0 then []
    else
      assert t == [t[0]] + t[1..];
      if Listed(db, t[0]) then [t[0]] + Filter(db, t[1..]) else Filter(db, t[1..])
  }

  /** `ORDER BY FIELD(day_of_week, 'monday', …), start_time`. */
  function WeekKey(e: Entry<Slot>): Key {
    (Rank(e.row.day) as real, Seconds(e.row.start) as real)
  }

  /**
   * `getAll`: exactly the listed rows, Monday first and Sunday last, each day by start time.
   */
  function GetAll(db: Db): (r: Table<Slot>)
    ensures forall e :: e in r <==> e in db.schedule && Listed(db, e)
    ensures multiset(r) == multiset(Filter(db, db.schedule))
    ensures forall e :: multiset(r)[e] == if Listed(db, e) then multiset(db.schedule)[e] else 0
    ensures forall i, j :: 0 <= i < j < |r| ==>
      Rank(r[i].row.day) < Rank(r[j].row.day)
      || (r[i].row.day == r[j].row.day && Seconds(r[i].row.start) <= Seconds(r[j].row.start))
  {
    var listed := Filter(db, db.schedule);
    var sorted := SortBy(listed, WeekKey);
    forall e
      ensures e in sorted <==> e in listed
    {
      MemberOfPermutation(sorted, listed, e);
    }
    forall i, j | 0 <= i < j < |sorted|
      ensures Rank(sorted[i].row.day) < Rank(sorted[j].row.day)
        || (sorted[i].row.day == sorted[j].row.day && Seconds(sorted[i].row.start) <= Seconds(sorted[j].row.start))
    {
      assert KeyLe(WeekKey(sorted[i]), WeekKey(sorted[j]));
      RankInjective(sorted[i].row.day, sorted[j].row.day);
    }
    sorted
  }

  lemma RankInjective(a: Weekday, b: Weekday)
    ensures Rank(a) == Rank(b) ==> a == b
  {
  }
}
