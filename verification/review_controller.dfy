/**
 * The review endpoints (backend/controllers/reviewController.js): the request checks in front
 * of the review transactions, and the answer to "may I review this trainer?".
 */
module ReviewController {
  import opened Wrappers
  import opened Store
  import opened Http
  import opened Reviews

  /** JavaScript truthiness of a numeric rating: absent and 0 are both false. */
  predicate RatingGiven(rating: Option<int>) {
    rating.Some? && rating.value != 0
  }

  /** What `canLeaveReview` answers. */
  datatype Eligibility = Eligibility(canLeaveReview: bool, hasBooking: bool, hasReview: bool)

  /** `canLeaveReview`: allowed exactly when the user has trained with the trainer and not reviewed them yet. */
  function CanLeaveReview(db: Db, user: nat, trainer: nat): (r: Eligibility)
    ensures r.hasBooking == HasBookingWithTrainer(db, user, trainer)
    ensures r.hasReview <==> exists k :: 0 <= k < |db.reviews| && ByPair(db.reviews[k], user, trainer)
    ensures r.canLeaveReview <==> r.hasBooking && !r.hasReview
  {
    var booked := HasBookingWithTrainer(db, user, trainer);
    var reviewed := FindReview(db.reviews, user, trainer).Some?;
    Eligibility(booked && !reviewed, booked, reviewed)
  }

  /**
   * `createReview`, in order: 400 without a trainer or a rating; 400 for a rating outside 1..5;
   * 403 without any booking with the trainer; 400 for a second review; otherwise the creation
   * transaction and the new review's id.
   */
  function CreateReview(db: Db, user: nat, trainer: Option<nat>, rating: Option<int>, comment: Option<string>): (h: Handled<nat>)
    ensures !Present(trainer) || !RatingGiven(rating) ==> h == Handled(db, Fail(Missing("trainer_id, rating")))
    ensures Present(trainer) && RatingGiven(rating) && !(1 <= rating.value <= 5) ==> h == Handled(db, Fail(Invalid("rating")))
    ensures Present(trainer) && rating.Some? && 1 <= rating.value <= 5 && !HasBookingWithTrainer(db, user, trainer.value) ==>
      h == Handled(db, Fail(NoBookingWithTrainer))
    ensures h.reply.Fail? || h.reply.Crash? ==> h.db == db
    ensures h.reply.Ok? ==>
      && Present(trainer) && rating.Some? && 1 <= rating.value <= 5
      && Reviews.Create(db, user, trainer.value, rating.value, comment) == Tx(h.db, Success(h.reply.value))
    ensures !h.reply.Crash?
  {
    if !Present(trainer) || !RatingGiven(rating) then Handled(db, Fail(Missing("trainer_id, rating")))
    else if rating.value < 1 || rating.value > 5 then Handled(db, Fail(Invalid("rating")))
    else if !HasBookingWithTrainer(db, user, trainer.value) then Handled(db, Fail(NoBookingWithTrainer))
    else if FindReview(db.reviews, user, trainer.value).Some? then Handled(db, Fail(AlreadyReviewed))
    else FromTx(Reviews.Create(db, user, trainer.value, rating.value, comment))
  }

  /**
   * For a trainer and a rating that pass the form checks, a review is accepted exactly when
   * `canLeaveReview` says it may be left; a refusal is the 403 when there was no booking and
   * the duplicate 400 otherwise.
   */
  lemma CanLeaveMatchesCreate(db: Db, user: nat, trainer: nat, rating: int, comment: Option<string>)
    requires trainer != 0 && 1 <= rating <= 5
    ensures var h := CreateReview(db, user, Some(trainer), Some(rating), comment);
      var e := CanLeaveReview(db, user, trainer);
      && (h.reply.Ok? <==> e.canLeaveReview)
      && (!e.hasBooking ==> h.reply == Fail(NoBookingWithTrainer))
      && (e.hasBooking && e.hasReview ==> h.reply == Fail(AlreadyReviewed))
  {
  }

  /** `updateReview`: 400 without a review id or a rating, 400 outside 1..5, then the update transaction. */
  function UpdateReview(db: Db, user: nat, reviewId: Option<nat>, rating: Option<int>, comment: Option<string>): (h: Handled<bool>)
    ensures !Present(reviewId) || !RatingGiven(rating) ==> h == Handled(db, Fail(Missing("review_id, rating")))
    ensures Present(reviewId) && RatingGiven(rating) && !(1 <= rating.value <= 5) ==> h == Handled(db, Fail(Invalid("rating")))
    ensures Present(reviewId) && rating.Some? && 1 <= rating.value <= 5 ==>
      h == FromTx(Reviews.Update(db, reviewId.value, user, rating.value, comment))
  {
    if !Present(reviewId) || !RatingGiven(rating) then Handled(db, Fail(Missing("review_id, rating")))
    else if rating.value < 1 || rating.value > 5 then Handled(db, Fail(Invalid("rating")))
    else FromTx(Reviews.Update(db, reviewId.value, user, rating.value, comment))
  }

  /** `deleteReview`: 400 without a review id, then the delete transaction. */
  function DeleteReview(db: Db, user: nat, reviewId: Option<nat>): (h: Handled<bool>)
    ensures !Present(reviewId) ==> h == Handled(db, Fail(Missing("review_id")))
    ensures Present(reviewId) ==> h == FromTx(Reviews.Delete(db, reviewId.value, user))
  {
    if !Present(reviewId) then Handled(db, Fail(Missing("review_id")))
    else FromTx(Reviews.Delete(db, reviewId.value, user))
  }

  /** The review invariants plus: every stored rating is one the endpoints accept. */
  predicate Healthy(db: Db) {
    Sound(db) && RatingsInRange(db.reviews)
  }

  /** In a healthy state every reviewed trainer's rating lies between 1 and 5. */
  lemma ShownRatingInRange(db: Db, trainer: nat)
    requires Healthy(db) && trainer in db.trainers && NumReviews(db.reviews, trainer) > 0
    ensures db.trainers[trainer].rating.Some? && 1.0 <= db.trainers[trainer].rating.value <= 5.0
  {
    MeanInRange(db.reviews, trainer);
  }

  lemma CreateReviewKeepsHealthy(db: Db, user: nat, trainer: Option<nat>, rating: Option<int>, comment: Option<string>)
    requires Healthy(db)
    ensures Healthy(CreateReview(db, user, trainer, rating, comment).db)
  {
    var h := CreateReview(db, user, trainer, rating, comment);
    if h.reply.Ok? {
      CreateKeepsSound(db, user, trainer.value, rating.value, comment);
      var rows := h.db.reviews;
      assert forall i :: 0 <= i < |rows| ==> 1 <= rows[i].row.rating <= 5 by {
        forall i | 0 <= i < |rows| ensures 1 <= rows[i].row.rating <= 5 {
          if i < |db.reviews| {
            assert rows[i] == db.reviews[i];
          }
        }
      }
    }
  }

  lemma UpdateReviewKeepsHealthy(db: Db, user: nat, reviewId: Option<nat>, rating: Option<int>, comment: Option<string>)
    requires Healthy(db)
    ensures Healthy(UpdateReview(db, user, reviewId, rating, comment).db)
  {
    if Present(reviewId) && rating.Some? && 1 <= rating.value <= 5 {
      UpdateKeepsSound(db, reviewId.value, user, rating.value, comment);
    }
  }

  lemma DeleteReviewKeepsHealthy(db: Db, user: nat, reviewId: Option<nat>)
    requires Healthy(db)
    ensures Healthy(DeleteReview(db, user, reviewId).db)
  {
    if Present(reviewId) {
      var tx := Reviews.Delete(db, reviewId.value, user);
      DeleteKeepsSound(db, reviewId.value, user);
      assert DeleteReview(db, user, reviewId).db == tx.db;
      if tx.result.Success? {
        var rows := tx.db.reviews;
        forall i | 0 <= i < |rows| ensures 1 <= rows[i].row.rating <= 5 {
          assert rows[i] in db.reviews;
          var j :| 0 <= j < |db.reviews| && db.reviews[j] == rows[i];
        }
      }
    }
  }
}
