/** The shape of a controller's answer: a payload, an early refusal, or a failed transaction. */
module Http {
  import opened Store

  /** Why a controller refused a request before (or instead of) changing anything. */
  datatype Why =
    | NotSignedIn              // no user id on the request
    | Missing(field: string)   // a required field is absent or falsy
    | Invalid(field: string)   // a field is present but not acceptable
    | NoValidSlots             // every submitted schedule slot was dropped
    | Absent(what: string)     // the addressed row does not exist
    | TrainerBusyWithGroup     // the trainer leads another class at that time
    | TrainerBusyWithPersonal  // the trainer has a personal slot at that time
    | NoUsableSubscription     // no subscription of a fitting type with visits left
    | NoBookingWithTrainer     // a review without any booking with the trainer
    | AlreadyReviewed          // a second review of the same trainer
    | TrainerInUse             // the trainer still has bookings or classes
    | EmailTaken               // registration with a known email

  /** The HTTP status each refusal is sent with. */
  function Status(w: Why): (code: nat)
    ensures 400 <= code <= 404
    ensures code == 401 <==> w.NotSignedIn?
    ensures code == 403 <==> w.NoBookingWithTrainer?
    ensures code == 404 <==> w.Absent?
  {
    match w
    case NotSignedIn => 401
    case NoBookingWithTrainer => 403
    case Absent(_) => 404
    case _ => 400
  }

  /**
   * `res.json(...)` with a payload (status 200); `res.status(code)` for an early refusal; or the
   * 500 a controller answers when the model layer throws, carrying that error.
   */
  datatype Reply<+T> = Ok(value: T) | Fail(why: Why) | Crash(error: Err)

  /** The state after a request and the answer sent. */
  datatype Handled<+T> = Handled(db: Db, reply: Reply<T>)

  /** A model-layer result as the controller's catch block turns it into a reply. */
  function FromTx<T>(tx: Tx<T>): (h: Handled<T>)
    ensures h.db == tx.db
    ensures tx.result.Success? <==> h.reply.Ok?
    ensures tx.result.Failure? ==> h.reply == Crash(tx.result.error)
    ensures tx.result.Success? ==> h.reply == Ok(tx.result.value)
  {
    match tx.result
    case Success(v) => Handled(tx.db, Ok(v))
    case Failure(e) => Handled(tx.db, Crash(e))
  }
}
