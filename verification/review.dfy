/**
 * Trainer reviews (backend/models/Review.js): who may review, the one-review-per-trainer rule,
 * and the trainer's rating kept as the mean of the trainer's reviews.
 */
module Reviews {
  import opened Wrappers
  import opened Store

  /** A personal booking that entitles its client to review the trainer (any status but cancelled). */
  predicate PersonalWith(e: Entry<PersonalBooking>, user: nat, trainer: nat) {
    e.row.user == user && e.row.trainer == Some(trainer) && e.row.status in {Completed, Confirmed, Pending}
  }

  /** The `JOIN group_sessions` half: some class with that id is led by the trainer. */
  function RunsClass(sessions: Table<GroupSession>, sid: nat, trainer: nat): (r: bool)
    ensures r <==> exists j :: 0 <= j < |sessions| && sessions[j].id == sid && sessions[j].row.trainer == Some(trainer)
  {
    FindFirst(sessions, (s: Entry<GroupSession>) => s.id == sid && s.row.trainer == Some(trainer)).Some?
  }

  /**
   * `hasBookingWithTrainer`: a personal training with the trainer that is not cancelled, or a seat
   * in any class the trainer leads.
   */
  function HasBookingWithTrainer(db: Db, user: nat, trainer: nat): (r: bool)
    ensures r <==>
      || (exists i :: 0 <= i < |db.personal| && PersonalWith(db.personal[i], user, trainer))
      || (exists i :: 0 <= i < |db.bookings| && db.bookings[i].row.user == user
            && RunsClass(db.sessions, db.bookings[i].row.session, trainer))
  {
    || FindFirst(db.personal, (e: Entry<PersonalBooking>) => PersonalWith(e, user, trainer)).Some?
    || FindFirst(db.bookings, (b: Entry<GroupBooking>) => b.row.user == user && RunsClass(db.sessions, b.row.session, trainer)).Some?
  }

  /** A cancelled personal training alone gives no right to a review. */
  lemma CancelledDoesNotCount(db: Db, user: nat, trainer: nat)
    requires forall i :: 0 <= i < |db.personal| ==> db.personal[i].row.status == Cancelled
    requires forall i :: 0 <= i < |db.bookings| ==> db.bookings[i].row.user != user
    ensures !HasBookingWithTrainer(db, user, trainer)
  {
  }

  predicate ByPair(e: Entry<Review>, user: nat, trainer: nat) {
    e.row.user == user && e.row.trainer == trainer
  }

  /** `getByUserAndTrainer`: the index of the first review the user wrote about the trainer. */
  function FindReview(reviews: Table<Review>, user: nat, trainer: nat): (r: Option<nat>)
    ensures r.Some? ==> r.value < |reviews| && ByPair(reviews[r.value], user, trainer)
    ensures r.None? <==> forall k :: 0 <= k < |reviews| ==> !ByPair(reviews[k], user, trainer)
  {
    FindFirst(reviews, (e: Entry<Review>) => ByPair(e, user, trainer))
  }

  /** No two reviews with different ids have the same author and trainer. */
  predicate OneReviewPerPair(reviews: Table<Review>) {
    forall i, j :: (0 <= i < |reviews| && 0 <= j < |reviews| && reviews[i].row.user == reviews[j].row.user
      && reviews[i].row.trainer == reviews[j].row.trainer) ==> reviews[i].id == reviews[j].id
  }

  /** Number of reviews of a trainer: `COUNT(*) … WHERE trainer_id = ?`. */
  function NumReviews(reviews: Table<Review>, trainer: nat): nat
    decreases |reviews|
  {
    if |reviews| == 0 then 0
    else (if reviews[0].row.trainer == trainer then 1 else 0) + NumReviews(reviews[1..], trainer)
  }

  /** Sum of a trainer's review ratings. */
  function RatingSum(reviews: Table<Review>, trainer: nat): int
    decreases |reviews|
  {
    if |reviews| == 0 then 0
    else (if reviews[0].row.trainer == trainer then reviews[0].row.rating else 0) + RatingSum(reviews[1..], trainer)
  }

  /** Counts and sums over a table split in two add up. */
  lemma {:induction false} TallyConcat(a: Table<Review>, b: Table<Review>, trainer: nat)
    ensures NumReviews(a + b, trainer) == NumReviews(a, trainer) + NumReviews(b, trainer)
    ensures RatingSum(a + b, trainer) == RatingSum(a, trainer) + RatingSum(b, trainer)
    decreases |a|
  {
    if |a| > 0 {
      assert (a + b)[1..] == a[1..] + b;
      TallyConcat(a[1..], b, trainer);
    } else {
      assert a + b == b;
    }
  }

  lemma TallyOne(e: Entry<Review>, trainer: nat)
    ensures NumReviews([e], trainer) == if e.row.trainer == trainer then 1 else 0
    ensures RatingSum([e], trainer) == if e.row.trainer == trainer then e.row.rating else 0
  {
    assert [e][1..] == [];
  }

  /** Taking row k out of a table takes its rating (if it is the trainer's) out of the tally. */
  lemma TallyWithout(t: Table<Review>, k: nat, trainer: nat)
    requires k < |t|
    ensures NumReviews(t[..k] + t[k + 1..], trainer) + NumReviews([t[k]], trainer) == NumReviews(t, trainer)
    ensures RatingSum(t[..k] + t[k + 1..], trainer) + RatingSum([t[k]], trainer) == RatingSum(t, trainer)
  {
    var pre, post := t[..k], t[k + 1..];
    assert t == pre + [t[k]] + post;
    TallyConcat(pre, post, trainer);
    TallyConcat(pre + [t[k]], post, trainer);
    TallyConcat(pre, [t[k]], trainer);
  }

  /** `AVG(rating)` of a trainer's reviews, None when the trainer has none. */
  function Mean(reviews: Table<Review>, trainer: nat): (r: Option<real>)
    ensures r.None? <==> NumReviews(reviews, trainer) == 0
  {
    var n := NumReviews(reviews, trainer);
    if n == 0 then None else Some(RatingSum(reviews, trainer) as real / n as real)
  }

  /** Every review of the trainer is rated 1 to 5. */
  predicate RatingsInRange(reviews: Table<Review>) {
    forall i :: 0 <= i < |reviews| ==> 1 <= reviews[i].row.rating <= 5
  }

  lemma {:induction false} SumBounds(reviews: Table<Review>, trainer: nat)
    requires RatingsInRange(reviews)
    ensures NumReviews(reviews, trainer) <= RatingSum(reviews, trainer) <= 5 * NumReviews(reviews, trainer)
    decreases |reviews|
  {
    if |reviews| > 0 {
      assert RatingsInRange(reviews[1..]) by {
        forall i | 0 <= i < |reviews[1..]| ensures 1 <= reviews[1..][i].row.rating <= 5 {
          assert reviews[1..][i] == reviews[i + 1];
        }
      }
      SumBounds(reviews[1..], trainer);
    }
  }

  /** With every rating between 1 and 5, so is their mean. */
  lemma MeanInRange(reviews: Table<Review>, trainer: nat)
    requires RatingsInRange(reviews) && NumReviews(reviews, trainer) > 0
    ensures 1.0 <= Mean(reviews, trainer).value <= 5.0
  {
    SumBounds(reviews, trainer);
    QuotientBounds(RatingSum(reviews, trainer) as real, NumReviews(reviews, trainer) as real);
  }

  lemma QuotientBounds(s: real, n: real)
    requires 0.0 < n && n <= s <= 5.0 * n
    ensures 1.0 <= s / n <= 5.0
  {
    var q := s / n;
    assert q * n == s;
    assert (q - 1.0) * n == s - n;
    assert (5.0 - q) * n == 5.0 * n - s;
  }

  /** `comment || null`: an empty comment is stored as NULL. */
  function NullIfEmpty(c: Option<string>): (r: Option<string>)
    ensures r.Some? <==> c.Some? && |c.value| > 0
    ensures r.Some? ==> r == c
  {
    if c.Some? && |c.value| > 0 then c else None
  }

  /**
   * `updateTrainerRating`: with at least one review, the trainer's rating becomes their mean;
   * with none (or for an id with no trainer row) nothing changes.
   */
  function RefreshRating(db: Db, trainer: nat): (r: Db)
    ensures r == db.(trainers := r.trainers)
    ensures r.trainers.Keys == db.trainers.Keys
    ensures forall t :: t in db.trainers && t != trainer ==> r.trainers[t] == db.trainers[t]
    ensures trainer in db.trainers ==> r.trainers[trainer] == db.trainers[trainer].(rating := r.trainers[trainer].rating)
    ensures trainer in db.trainers && NumReviews(db.reviews, trainer) > 0 ==> r.trainers[trainer].rating == Mean(db.reviews, trainer)
    ensures NumReviews(db.reviews, trainer) == 0 ==> r == db
  {
    var m := Mean(db.reviews, trainer);
    if m.Some? && trainer in db.trainers then db.(trainers := db.trainers[trainer := db.trainers[trainer].(rating := m)])
    else db
  }

  /** Each trainer with reviews is rated with the mean of those reviews. */
  predicate RatingsConsistent(db: Db) {
    forall t :: t in db.trainers && NumReviews(db.reviews, t) > 0 ==> db.trainers[t].rating == Mean(db.reviews, t)
  }

  /** The invariants the review operations keep. */
  predicate Sound(db: Db) {
    Valid(db) && OneReviewPerPair(db.reviews) && RatingsConsistent(db)
  }

  /**
   * `Review.create`: a second review of the same trainer by the same user is refused; otherwise
   * the review is inserted (an empty comment as NULL) and the trainer's rating recomputed.
   */
  function Create(db: Db, user: nat, trainer: nat, rating: int, comment: Option<string>): (tx: Tx<nat>)
    ensures tx.result.Failure? <==> exists k :: 0 <= k < |db.reviews| && ByPair(db.reviews[k], user, trainer)
    ensures tx.result.Failure? ==> tx == Tx(db, Failure(DuplicateReview))
    ensures tx.result.Success? ==>
      && tx.result.value == db.nextId
      && tx.db.reviews == db.reviews + [Entry(db.nextId, Review(user, trainer, rating, NullIfEmpty(comment)))]
      && tx.db == db.(reviews := tx.db.reviews, nextId := db.nextId + 1, trainers := tx.db.trainers)
      && tx.db.trainers.Keys == db.trainers.Keys
      && (forall t :: t in db.trainers && t != trainer ==> tx.db.trainers[t] == db.trainers[t])
      && (trainer in db.trainers ==> tx.db.trainers[trainer].rating == Mean(tx.db.reviews, trainer))
  {
    if FindReview(db.reviews, user, trainer).Some? then Tx(db, Failure(DuplicateReview))
    else
      var e := Entry(db.nextId, Review(user, trainer, rating, NullIfEmpty(comment)));
      var inserted := db.(reviews := db.reviews + [e], nextId := db.nextId + 1);
      TallyConcat(db.reviews, [e], trainer);
      TallyOne(e, trainer);
      Tx(RefreshRating(inserted, trainer), Success(db.nextId))
  }

  predicate Owned(e: Entry<Review>, id: nat, user: nat) {
    e.id == id && e.row.user == user
  }

  /** The row `UPDATE reviews SET rating = ?, comment = ? WHERE id = ? AND user_id = ?` leaves. */
  function Rewrite(e: Entry<Review>, id: nat, user: nat, rating: int, comment: Option<string>): Review {
    if Owned(e, id, user) then e.row.(rating := rating, comment := NullIfEmpty(comment)) else e.row
  }

  /**
   * `Review.update`: only the author's review with that id can be changed; its rating and comment
   * are replaced and its trainer's rating recomputed.
   */
  function Update(db: Db, id: nat, user: nat, rating: int, comment: Option<string>): (tx: Tx<bool>)
    ensures tx.result.Failure? <==> forall k :: 0 <= k < |db.reviews| ==> !Owned(db.reviews[k], id, user)
    ensures tx.result.Failure? ==> tx == Tx(db, Failure(ReviewNotFound))
    ensures tx.result.Success? ==>
      && tx.result.value
      && |tx.db.reviews| == |db.reviews|
      && (forall k :: 0 <= k < |db.reviews| && Owned(db.reviews[k], id, user) ==>
            tx.db.reviews[k] == Entry(id, Review(user, db.reviews[k].row.trainer, rating, NullIfEmpty(comment))))
      && (forall k :: 0 <= k < |db.reviews| && !Owned(db.reviews[k], id, user) ==> tx.db.reviews[k] == db.reviews[k])
      && tx.db == db.(reviews := tx.db.reviews, trainers := tx.db.trainers)
  {
    match FindFirst(db.reviews, (e: Entry<Review>) => Owned(e, id, user))
    case None => Tx(db, Failure(ReviewNotFound))
    case Some(k) =>
      var rows := MapRows(db.reviews, (e: Entry<Review>) => Rewrite(e, id, user, rating, comment));
      Tx(RefreshRating(db.(reviews := rows), db.reviews[k].row.trainer), Success(true))
  }

  /**
   * `Review.delete`: only the author's review with that id can be deleted; its trainer's rating
   * is recomputed from the reviews left.
   */
  function Delete(db: Db, id: nat, user: nat): (tx: Tx<bool>)
    ensures tx.result.Failure? <==> forall k :: 0 <= k < |db.reviews| ==> !Owned(db.reviews[k], id, user)
    ensures tx.result.Failure? ==> tx == Tx(db, Failure(ReviewNotFound))
    ensures tx.result.Success? ==>
      && tx.result.value
      && (forall k :: 0 <= k < |tx.db.reviews| ==> tx.db.reviews[k] in db.reviews && !Owned(tx.db.reviews[k], id, user))
      && (forall k :: 0 <= k < |db.reviews| && !Owned(db.reviews[k], id, user) ==> db.reviews[k] in tx.db.reviews)
      && tx.db == db.(reviews := tx.db.reviews, trainers := tx.db.trainers)
  {
    match FindFirst(db.reviews, (e: Entry<Review>) => Owned(e, id, user))
    case None => Tx(db, Failure(ReviewNotFound))
    case Some(k) =>
      var rows := Remove(db.reviews, (e: Entry<Review>) => Owned(e, id, user));
      Tx(RefreshRating(db.(reviews := rows), db.reviews[k].row.trainer), Success(true))
  }

  /** The refreshed trainer gets the mean; every other trainer's counts and sums are unchanged. */
  lemma RefreshKeepsConsistent(before: Db, after: Db, trainer: nat)
    requires RatingsConsistent(before)
    requires after.trainers == before.trainers
    requires forall t :: t != trainer ==>
      NumReviews(after.reviews, t) == NumReviews(before.reviews, t) && RatingSum(after.reviews, t) == RatingSum(before.reviews, t)
    ensures RatingsConsistent(RefreshRating(after, trainer))
  {
    var r := RefreshRating(after, trainer);
    forall t | t in r.trainers && NumReviews(r.reviews, t) > 0
      ensures r.trainers[t].rating == Mean(r.reviews, t)
    {
      if t != trainer {
        assert r.trainers[t] == before.trainers[t];
      }
    }
  }

  /** Creating a review keeps ids, the one-review rule and every trainer's rating consistent. */
  lemma CreateKeepsSound(db: Db, user: nat, trainer: nat, rating: int, comment: Option<string>)
    requires Sound(db)
    ensures Sound(Create(db, user, trainer, rating, comment).db)
  {
    var tx := Create(db, user, trainer, rating, comment);
    if tx.result.Success? {
      var e := Entry(db.nextId, Review(user, trainer, rating, NullIfEmpty(comment)));
      var inserted := db.(reviews := db.reviews + [e], nextId := db.nextId + 1);
      AppendWellKeyed(db.reviews, db.nextId, e.row);
      forall t | t != trainer
        ensures NumReviews(inserted.reviews, t) == NumReviews(db.reviews, t)
        ensures RatingSum(inserted.reviews, t) == RatingSum(db.reviews, t)
      {
        TallyConcat(db.reviews, [e], t);
        TallyOne(e, t);
      }
      RefreshKeepsConsistent(db, inserted, trainer);
      var n := |db.reviews|;
      forall i, j | 0 <= i < |inserted.reviews| && 0 <= j < |inserted.reviews|
        && inserted.reviews[i].row.user == inserted.reviews[j].row.user
        && inserted.reviews[i].row.trainer == inserted.reviews[j].row.trainer
        ensures inserted.reviews[i].id == inserted.reviews[j].id
      {
        if i == n && j < n {
          assert ByPair(db.reviews[j], user, trainer);
        } else if j == n && i < n {
          assert ByPair(db.reviews[i], user, trainer);
        }
      }
    }
  }

  /** With unique ids, `WHERE id = ? AND user_id = ?` selects at most the found row. */
  lemma OnlyOwned(reviews: Table<Review>, id: nat, user: nat, k: nat)
    requires IdsIncreasing(reviews) && k < |reviews| && Owned(reviews[k], id, user)
    ensures forall i :: 0 <= i < |reviews| && i != k ==> !Owned(reviews[i], id, user)
  {
  }

  /** The only row `Update` rewrites is row k, which keeps its trainer. */
  lemma UpdateSplit(db: Db, id: nat, user: nat, rating: int, comment: Option<string>, k: nat)
    requires IdsIncreasing(db.reviews) && k < |db.reviews| && Owned(db.reviews[k], id, user)
    ensures var rows := MapRows(db.reviews, (e: Entry<Review>) => Rewrite(e, id, user, rating, comment));
      && rows == db.reviews[..k] + [rows[k]] + db.reviews[k + 1..]
      && db.reviews == db.reviews[..k] + [db.reviews[k]] + db.reviews[k + 1..]
      && rows[k].row.trainer == db.reviews[k].row.trainer
  {
    OnlyOwned(db.reviews, id, user, k);
    var rows := MapRows(db.reviews, (e: Entry<Review>) => Rewrite(e, id, user, rating, comment));
    assert rows == db.reviews[..k] + [rows[k]] + db.reviews[k + 1..];
    assert db.reviews == db.reviews[..k] + [db.reviews[k]] + db.reviews[k + 1..];
  }

  /** Editing a review keeps ids, the one-review rule and every trainer's rating consistent. */
  lemma UpdateKeepsSound(db: Db, id: nat, user: nat, rating: int, comment: Option<string>)
    requires Sound(db)
    ensures Sound(Update(db, id, user, rating, comment).db)
  {
    match FindFirst(db.reviews, (e: Entry<Review>) => Owned(e, id, user))
    case None =>
    case Some(k) =>
      var rows := MapRows(db.reviews, (e: Entry<Review>) => Rewrite(e, id, user, rating, comment));
      var edited := db.(reviews := rows);
      var trainer := db.reviews[k].row.trainer;
      MapRowsWellKeyed(db.reviews, (e: Entry<Review>) => Rewrite(e, id, user, rating, comment), db.nextId);
      UpdateSplit(db, id, user, rating, comment, k);
      var pre, post := db.reviews[..k], db.reviews[k + 1..];
      forall t | t != trainer
        ensures NumReviews(rows, t) == NumReviews(db.reviews, t)
        ensures RatingSum(rows, t) == RatingSum(db.reviews, t)
      {
        TallyConcat(pre + [rows[k]], post, t);
        TallyConcat(pre, [rows[k]], t);
        TallyOne(rows[k], t);
        TallyConcat(pre + [db.reviews[k]], post, t);
        TallyConcat(pre, [db.reviews[k]], t);
        TallyOne(db.reviews[k], t);
      }
      RefreshKeepsConsistent(db, edited, trainer);
  }

  /** With a single row selected, deleting it leaves the rows before and after it. */
  lemma {:induction false} RemoveOnly(t: Table<Review>, drop: Entry<Review> -> bool, k: nat)
    requires k < |t| && drop(t[k])
    requires forall i :: 0 <= i < |t| && i != k ==> !drop(t[i])
    ensures Remove(t, drop) == t[..k] + t[k + 1..]
    decreases |t|
  {
    if k == 0 {
      assert forall i :: 0 <= i < |t[1..]| ==> !drop(t[1..][i]) by {
        forall i | 0 <= i < |t[1..]| ensures !drop(t[1..][i]) {
          assert t[1..][i] == t[i + 1];
        }
      }
      RemoveNothing(t[1..], drop);
    } else {
      assert forall i :: 0 <= i < |t[1..]| && i != k - 1 ==> !drop(t[1..][i]) by {
        forall i | 0 <= i < |t[1..]| && i != k - 1 ensures !drop(t[1..][i]) {
          assert t[1..][i] == t[i + 1];
        }
      }
      RemoveOnly(t[1..], drop, k - 1);
      assert t[..k] + t[k + 1..] == [t[0]] + (t[1..][..k - 1] + t[1..][k..]);
    }
  }

  /** Deleting a review keeps ids, the one-review rule and every trainer's rating consistent. */
  lemma DeleteKeepsSound(db: Db, id: nat, user: nat)
    requires Sound(db)
    ensures Sound(Delete(db, id, user).db)
  {
    match FindFirst(db.reviews, (e: Entry<Review>) => Owned(e, id, user))
    case None =>
    case Some(k) =>
      var drop := (e: Entry<Review>) => Owned(e, id, user);
      var rows := Remove(db.reviews, drop);
      var trimmed := db.(reviews := rows);
      var trainer := db.reviews[k].row.trainer;
      RemoveWellKeyed(db.reviews, drop, db.nextId);
      OnlyOwned(db.reviews, id, user, k);
      RemoveOnly(db.reviews, drop, k);
      forall t | t != trainer
        ensures NumReviews(rows, t) == NumReviews(db.reviews, t)
        ensures RatingSum(rows, t) == RatingSum(db.reviews, t)
      {
        TallyWithout(db.reviews, k, t);
      }
      RefreshKeepsConsistent(db, trimmed, trainer);
  }

  /**
   * Deleting a trainer's last review leaves the trainer's rating as it was: the recomputation
   * only runs while reviews remain.
   */
  lemma LastReviewKeepsRating(db: Db, id: nat, user: nat, k: nat)
    requires Valid(db) && k < |db.reviews| && Owned(db.reviews[k], id, user)
    requires NumReviews(db.reviews, db.reviews[k].row.trainer) == 1
    ensures Delete(db, id, user).db.trainers == db.trainers
  {
    var drop := (e: Entry<Review>) => Owned(e, id, user);
    var trainer := db.reviews[k].row.trainer;
    OnlyOwned(db.reviews, id, user, k);
    RemoveOnly(db.reviews, drop, k);
    TallyWithout(db.reviews, k, trainer);
    var j := FindFirst(db.reviews, drop).value;
    assert j == k;
  }
}
