/**
 * Removing a trainer (backend/controllers/trainerController.js, `deleteTrainer`): the guards
 * that refuse while the trainer still has work, and the cascade that runs otherwise.
 */
module TrainerController {
  import opened Wrappers
  import opened Clock
  import opened Store
  import opened Http

  /** A personal training with the trainer, dated today or later and not cancelled. */
  predicate Upcoming(e: Entry<PersonalBooking>, trainer: nat, today: Date) {
    e.row.trainer == Some(trainer) && e.row.date >= today && e.row.status != Cancelled
  }

  predicate HasUpcoming(db: Db, trainer: nat, today: Date) {
    exists i :: 0 <= i < |db.personal| && Upcoming(db.personal[i], trainer, today)
  }

  /** A group class assigned to the trainer, whatever its days. */
  predicate LeadsClass(db: Db, trainer: nat) {
    exists i :: 0 <= i < |db.sessions| && db.sessions[i].row.trainer == Some(trainer)
  }

  /**
   * `deleteTrainer`: 404 for an unknown trainer; 400 while the trainer has an upcoming personal
   * training or any group class; otherwise the trainer's schedule rows, the trainer's reviews, the
   * trainer row and the trainer's user row are deleted in one transaction. `referenced` is the
   * database's foreign-key verdict on those deletes (the schema is not part of this model): a
   * violation rolls everything back and is answered with the same 400.
   */
  function DeleteTrainer(db: Db, trainer: nat, today: Date, referenced: bool): (h: Handled<bool>)
    ensures trainer !in db.trainers ==> h == Handled(db, Fail(Absent("trainer")))
    ensures trainer in db.trainers && (HasUpcoming(db, trainer, today) || LeadsClass(db, trainer) || referenced) ==>
      h == Handled(db, Fail(TrainerInUse))
    ensures h.reply.Ok? <==> trainer in db.trainers && !HasUpcoming(db, trainer, today) && !LeadsClass(db, trainer) && !referenced
    ensures h.reply.Ok? ==>
      && h.reply.value
      && h.db == db.(schedule := h.db.schedule, reviews := h.db.reviews, trainers := h.db.trainers, users := h.db.users)
      && h.db.trainers == db.trainers - {trainer}
      && h.db.users == db.users - {db.trainers[trainer].userId}
      && (forall i :: 0 <= i < |h.db.schedule| ==> h.db.schedule[i] in db.schedule && h.db.schedule[i].row.trainer != trainer)
      && (forall i :: 0 <= i < |db.schedule| && db.schedule[i].row.trainer != trainer ==> db.schedule[i] in h.db.schedule)
      && (forall i :: 0 <= i < |h.db.reviews| ==> h.db.reviews[i] in db.reviews && h.db.reviews[i].row.trainer != trainer)
      && (forall i :: 0 <= i < |db.reviews| && db.reviews[i].row.trainer != trainer ==> db.reviews[i] in h.db.reviews)
    ensures !h.reply.Ok? ==> h.db == db
  {
    if trainer !in db.trainers then Handled(db, Fail(Absent("trainer")))
    else if FindFirst(db.personal, (e: Entry<PersonalBooking>) => Upcoming(e, trainer, today)).Some? then Handled(db, Fail(TrainerInUse))
    else if FindFirst(db.sessions, (e: Entry<GroupSession>) => e.row.trainer == Some(trainer)).Some? then Handled(db, Fail(TrainerInUse))
    else if referenced then Handled(db, Fail(TrainerInUse))
    else
      var user := db.trainers[trainer].userId;
      Handled(db.(
        schedule := Remove(db.schedule, (e: Entry<Slot>) => e.row.trainer == trainer),
        reviews := Remove(db.reviews, (e: Entry<Review>) => e.row.trainer == trainer),
        trainers := db.trainers - {trainer},
        users := db.users - {user}), Ok(true))
  }

  /**
   * A trainer with only past or cancelled personal trainings and no classes can be removed (when
   * the database raises no foreign-key error), and the removal keeps every table well keyed.
   */
  lemma DeleteKeepsValid(db: Db, trainer: nat, today: Date, referenced: bool)
    requires Valid(db)
    ensures Valid(DeleteTrainer(db, trainer, today, referenced).db)
  {
    var h := DeleteTrainer(db, trainer, today, referenced);
    if h.reply.Ok? {
      RemoveWellKeyed(db.schedule, (e: Entry<Slot>) => e.row.trainer == trainer, db.nextId);
      RemoveWellKeyed(db.reviews, (e: Entry<Review>) => e.row.trainer == trainer, db.nextId);
    }
  }

  /** A trainer whose bookings are all in the past can go once no class names them. */
  lemma PastBookingsDoNotBlock(db: Db, trainer: nat, today: Date)
    requires trainer in db.trainers
    requires forall i :: 0 <= i < |db.personal| ==> db.personal[i].row.date < today
    requires forall i :: 0 <= i < |db.sessions| ==> db.sessions[i].row.trainer != Some(trainer)
    ensures DeleteTrainer(db, trainer, today, false).reply == Ok(true)
  {
  }
}
