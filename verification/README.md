# FitnessPulse booking core in Dafny

FitnessPulse is a fitness club's web application. Clients buy subscriptions, book one-to-one
trainings and group classes, and review trainers. Administrators keep the trainers' weekly
schedules and the class timetable. This project models the part of it that decides things:

- the backend's booking, entitlement and scheduling logic;
- the request checks in front of it;
- a few pure helpers of the browser pages.

The database is one immutable value `Store.Db`. It holds the tables `user_subscriptions`,
`subscription_types`, `personal_bookings`, `bookings`, `group_sessions`, `trainer_schedule`,
`reviews`, `trainers` and `users`. Every transaction of the source runs between `BEGIN` and
`COMMIT`/`ROLLBACK`, so each one is a pure function from a state to a new state and a result.
A failure returns the state it was given. Controllers turn those results into an HTTP status
(`Http.Reply`).

Time comes in as parameters, never from a clock:
- "now" is a count of seconds;
- a calendar date is a count of days since 1970-01-01 (`Clock.Date`);
- a time of day is hours, minutes and seconds (`Clock.Time`).

The modules follow the source files:

| module | source |
|---|---|
| `Ledger` | backend/models/UserSubscription.js and the debit and refund statements of the booking models |
| `PersonalBookings` | backend/models/PersonalBooking.js |
| `GroupBookings` | backend/models/Booking.js |
| `GroupSessions` | backend/models/GroupSession.js |
| `Schedules` | backend/models/TrainerSchedule.js |
| `Reviews` | backend/models/Review.js |
| `ScheduleController`, `TrainingController`, `BookingController`, `SubscriptionController`, `GroupSessionController`, `ReviewController`, `TrainerController`, `Auth` | the controllers of the same names |
| `Helpers` | backend/utils/helpers.js |
| `AdminSchedule` | js/admin-schedule.js |
| `ClientTrainings` | js/client-trainings.js |
| `ClientSubscriptions` | js/client-subscriptions.js |
| `Store`, `Http`, `Clock`, `Text`, `Sorting`, `Wrappers` | shared definitions: tables and ids, status codes, times and weekdays, strings, a stable sort, `Option`/`Result` |

## Model

| member | source | states |
|---|---|---|
| Ledger.ActiveRows | backend/models/UserSubscription.js:40-44 | every row returned is one of the user's own rows, active at `now` (status 'active' and no expiry or an expiry after `now`) and joined with its type's kind; every such row is returned, each exactly as often as the table holds it |
| Ledger.AllActive | backend/models/UserSubscription.js:30-49 | `getAllActiveByUserId` returns exactly the user's active rows, each as often as the table holds it (a permutation of `ActiveRows`), in descending order of purchase time |
| Ledger.FirstOfKind | backend/models/UserSubscription.js:22 | `find` by kind: the index found holds that kind and no earlier row does; no index means no row of that kind |
| Ledger.PreferCombo | backend/models/UserSubscription.js:22-27 | nothing exactly for an empty list; otherwise a member of the list, and a combo whenever the list holds one |
| Ledger.MainActive | backend/models/UserSubscription.js:4-28 | `getActiveByUserId` gives null exactly when the user has no active row; otherwise one of the user's active rows, a combo whenever the user has an active combo, and the most recently purchased among the rows of its own standing (combos, or all rows when there is no combo) |
| Ledger.DeactivationSymmetric | backend/models/UserSubscription.js:96-104 | the deactivation table is symmetric: buying kind a deactivates kind b exactly when buying b deactivates a |
| Ledger.DeactivatedKinds | backend/models/UserSubscription.js:96-104 | only the three known kinds are ever deactivated; a known kind deactivates its own kind and an unknown kind nothing; a purchase that deactivates anything deactivates combo |
| Ledger.ExpireSuperseded | backend/models/UserSubscription.js:106-117 | the UPDATE sets 'expired' on exactly those rows that are the user's, active at `now` and of a deactivated kind; every other row and every id stay as they were |
| Ledger.Purchase | backend/models/UserSubscription.js:70-137 | an unknown type fails with no change; otherwise only superseded rows change, and only in their status (other users' rows and rows of non-conflicting kinds are untouched, including the user's gym row when group is bought); one row is appended with status 'active', the type's visit count and an expiry `duration_days` days after `now`, and its new id is returned |
| Ledger.PurchaseKeepsVisitsNonNegative | backend/models/UserSubscription.js:119-127 | a purchase keeps every `remaining_visits` non-negative when the catalogue's visit counts are |
| Ledger.PurchaseKeepsValid | backend/models/UserSubscription.js:122-130 | a purchase keeps ids unique, increasing and below the next id |
| Ledger.PurchaseKeepsExclusive | backend/models/UserSubscription.js:96-127 | after a purchase no user holds two active rows whose kinds conflict, if none did before |
| Ledger.DecrementVisits | backend/models/UserSubscription.js:147-155 | `decrementVisits` lowers `remaining_visits` by one exactly on the row with that id when it is positive, and reports true exactly when such a row exists; with no such row nothing changes |
| Ledger.DecrementKeepsVisitsNonNegative | backend/models/UserSubscription.js:147-155 | the conditional decrement never makes a counter negative |
| Ledger.ConsumeVisit | backend/models/Booking.js:56-67 | the debit of a class booking lowers the counter by one only on the user's own row with that id and a visit left, and reports whether such a row existed |
| Ledger.RefundVisit | backend/models/Booking.js:111-118 | the refund raises the counter by one on the user's own row with that id, with no upper bound; every other row is unchanged |
| Ledger.DebitVisit | backend/models/PersonalBooking.js:166-171 | the debit of a personal booking lowers the counter by one on the user's own row with that id, with no condition of its own |
| Ledger.RefundUndoesDebit | backend/models/PersonalBooking.js:225-232 | the cancellation refund is the inverse of the booking debit on the same row |
| GroupBookings.Occupy | backend/models/Booking.js:75-80 | the class's `current_participants` goes up by exactly one; every other class is unchanged |
| GroupBookings.Vacate | backend/models/Booking.js:120-125 | the class's counter becomes max(0, n − 1); every other class is unchanged |
| GroupBookings.SessionCheck | backend/models/Booking.js:97-103 | the join with `group_sessions` finds the class exactly when a class with that id exists |
| GroupBookings.Create | backend/models/Booking.js:25-90 | "not found" exactly for an unknown class; "full" only when the live row count is at least `max_participants`; "already booked" only when the user holds a seat; "visit not consumed" only when the given subscription cannot give up a visit; every failure leaves the state unchanged; a success appends exactly one row, raises the class counter by one, debits the given subscription, and leaves the live count at most `max_participants` |
| GroupBookings.CreateKeepsCounterMatches | backend/models/Booking.js:69-80 | if every class's counter equals its number of booking rows before a booking, it still does afterwards |
| GroupBookings.CreateKeepsWithinCapacity | backend/models/Booking.js:30-45 | a booking never takes a class beyond `max_participants` |
| GroupBookings.CreateKeepsOneSeatEach | backend/models/Booking.js:47-54 | a booking keeps at most one row per (user, class) |
| GroupBookings.CreateKeepsVisitsNonNegative | backend/models/Booking.js:56-67 | a booking never makes `remaining_visits` negative |
| GroupBookings.CreateKeepsValid | backend/models/Booking.js:69-73 | a booking keeps the tables' ids unique and increasing |
| GroupBookings.OnlyOneRemoved | backend/models/Booking.js:127-130 | with unique ids the DELETE matches no row other than the cancelled booking |
| GroupBookings.Cancel | backend/models/Booking.js:92-140 | "not found", with no change, exactly when the caller has no booking with that id; otherwise the row is deleted, the class counter is lowered with a floor of 0, and a subscription-paid booking refunds one visit |
| GroupBookings.CancelKeepsCounterMatches | backend/models/Booking.js:120-130 | if every counter equals its row count before a cancellation, it still does afterwards |
| GroupBookings.CancelKeepsWithinCapacity | backend/models/Booking.js:127-130 | a cancellation keeps every class within its capacity |
| GroupBookings.CancelKeepsOneSeatEach | backend/models/Booking.js:127-130 | a cancellation keeps at most one row per (user, class) |
| GroupBookings.RemoveKeepsOneSeatEach | backend/models/Booking.js:127-130 | deleting rows keeps at most one row per (user, class) |
| GroupBookings.CancelKeepsVisitsNonNegative | backend/models/Booking.js:111-118 | the refund never makes a counter negative |
| GroupBookings.CancelKeepsValid | backend/models/Booking.js:127-130 | a cancellation keeps ids unique and increasing |
| PersonalBookings.RequestedDayOfDate | backend/models/PersonalBooking.js:71-75 | without a supplied day the slot lookup uses the lowercase name of the date's own weekday |
| PersonalBookings.HasScheduleCheck | backend/models/PersonalBooking.js:82-92 | true exactly when the trainer has at least one schedule row |
| PersonalBookings.WorksOnCheck | backend/models/PersonalBooking.js:94-101 | true exactly when the trainer has a row on the requested weekday |
| PersonalBookings.SlotAtCheck | backend/models/PersonalBooking.js:107-114 | true exactly when a row on that day starts at the requested "HH:MM"; such a row is on a worked day |
| PersonalBookings.TakenCheck | backend/models/PersonalBooking.js:135-146 | true exactly when a pending or confirmed booking holds the same trainer, date and time |
| PersonalBookings.SlotError | backend/models/PersonalBooking.js:61-147 | the trainer checks in order, each error exactly under its condition: unknown trainer; no schedule at all; day not worked, listing the trainer's working days; no slot at that time, listing the day's ranges; slot already taken; no error exactly when the slot is free, and none without a trainer |
| PersonalBookings.DebitStep | backend/models/PersonalBooking.js:149-172 | no change unless paid by subscription with an id; "not found" exactly when the user has no row with that id; "unusable" only for a row that is not 'active' or has no visit left; otherwise that row loses one visit |
| PersonalBookings.Create | backend/models/PersonalBooking.js:49-206 | slot errors come first, then the debit's errors, then an unknown inventory id; every failure leaves the state unchanged, including an earlier debit; a success appends one row with the normalised time and returns its id |
| PersonalBookings.CreatedRowConfirmed | backend/models/PersonalBooking.js:174-196 | the inserted row is always 'confirmed' and carries the time with ":00" appended to a five-character time |
| PersonalBookings.InventoryFailureRollsBackDebit | backend/models/PersonalBooking.js:180-202 | an unknown inventory id after a successful debit still leaves the whole state unchanged |
| PersonalBookings.DebitKeepsVisitsNonNegative | backend/models/PersonalBooking.js:161-171 | the guarded debit never makes a counter negative |
| PersonalBookings.CreateKeepsVisitsNonNegative | backend/models/PersonalBooking.js:149-172 | a booking never makes `remaining_visits` negative |
| PersonalBookings.CreateKeepsValid | backend/models/PersonalBooking.js:191-196 | a booking keeps ids unique and increasing |
| PersonalBookings.CreateKeepsNoDoubleBooking | backend/models/PersonalBooking.js:135-146 | no two pending or confirmed bookings with a trainer share trainer, date and time, after a booking as before |
| PersonalBookings.Cancel | backend/models/PersonalBooking.js:208-249 | "not found", with no change, exactly when the caller has no booking with that id; otherwise that row is marked 'cancelled' and kept, no other row changes, and a subscription-paid booking refunds one visit |
| PersonalBookings.CancelKeepsVisitsNonNegative | backend/models/PersonalBooking.js:225-232 | the refund never makes a counter negative |
| PersonalBookings.CancelKeepsValid | backend/models/PersonalBooking.js:234-239 | a cancellation keeps ids unique and increasing |
| PersonalBookings.CancelKeepsNoDoubleBooking | backend/models/PersonalBooking.js:234-239 | a cancellation keeps live bookings free of double booking |
| PersonalBookings.CancelRefund | backend/models/PersonalBooking.js:213-239 | cancelling the caller's booking succeeds, marks that row 'cancelled' and refunds exactly when it was paid by subscription |
| PersonalBookings.CancelTwiceRefundsTwice | backend/models/PersonalBooking.js:225-239 | cancelling the same subscription-paid booking twice succeeds twice and returns two visits: the status is not checked |
| GroupSessions.DaysArray | backend/models/GroupSession.js:109 | a non-empty comma text gives at least one day; an empty text gives none |
| GroupSessions.StoredDaysRoundTrip | backend/models/GroupSession.js:54 | a day array joined with ',' for storage splits back into the same days |
| GroupSessions.StoredDays | backend/models/GroupSession.js:54 | a day array is stored joined with ',', a day text as sent |
| GroupSessions.StoredTime | backend/models/GroupSession.js:53 | the request time, with ":00" appended to an "HH:MM" text, read as a TIME; a text of any other shape gives none |
| GroupSessions.StoredTimeOfHhmm | backend/models/GroupSession.js:53 | an "HH:MM" time is stored as that minute with ":00" appended |
| GroupSessions.NewSession | backend/models/GroupSession.js:50-61 | the stored row keeps the request's time as a TIME and its days as stored text; a sent duration is kept, a null one stored as the 0 that stands for NULL; a falsy trainer becomes NULL; the counter is the one given |
| GroupSessions.Create | backend/models/GroupSession.js:50-64 | an unsent duration is refused by the driver as an `undefined` bind, with no change; otherwise one class is appended and its id returned, a falsy trainer is stored as NULL and the counter starts at 0 |
| GroupSessions.CreateKeepsValid | backend/models/GroupSession.js:56-63 | inserting a class keeps ids unique, increasing and below the next id |
| GroupSessions.Update | backend/models/GroupSession.js:66-81 | an unsent duration is refused by the driver as an `undefined` bind, with no change, whether or not the class exists; otherwise the answer is true exactly when a class with that id exists; that class gets the form's columns, every other class and table is unchanged |
| GroupSessions.UpdateKeepsValid | backend/models/GroupSession.js:72-80 | an update keeps ids unique, increasing and below the next id |
| GroupSessions.UpdateKeepsCounters | backend/models/GroupSession.js:72-77 | an update never changes a participant counter |
| GroupSessions.FindInSetOfJoin | backend/models/GroupSession.js:121-125 | `FIND_IN_SET` finds every element of a stored comma list |
| GroupSessions.FindInSet | backend/models/GroupSession.js:121-124 | `FIND_IN_SET(day, days) > 0`: the day, which holds no comma, is one of the comma-separated elements of a non-empty list |
| GroupSessions.DurationOr60 | backend/models/GroupSession.js:146-156 | the minutes the checks compute with: the parameter default 60 when the duration is not sent, 0 for null, the number otherwise |
| GroupSessions.ClashesWithClass | backend/models/GroupSession.js:112-140 | a class of the trainer on a shared day, with a stored time, whose start passes the three-part overlap test against the candidate and whose id is not the excluded one |
| GroupSessions.TimeConflict | backend/models/GroupSession.js:106-144 | false without a trainer, without days, for a malformed time or for a null duration; otherwise true exactly when some class of the table clashes |
| GroupSessions.NullDurationNeverMeetsClasses | backend/models/GroupSession.js:127-135 | with a null duration every comparison of the group query is NULL, so no class is ever reported |
| GroupSessions.GroupOverlapWindow | backend/models/GroupSession.js:127-133 | the group-vs-group check holds exactly when the duration is positive and the candidate starts in (s − d, s + d], with the candidate's duration d used for both classes |
| GroupSessions.GroupOverlapBoundaries | backend/models/GroupSession.js:128-132 | a candidate starting exactly when the other class ends is rejected; one ending exactly when it starts is accepted |
| GroupSessions.ExcludedClassNeverClashes | backend/models/GroupSession.js:137-140 | `excludeId` takes the class being edited out of its own conflict check |
| GroupSessions.NoTrainerNoConflict | backend/models/GroupSession.js:106-110 | without a trainer, or with no days, neither conflict check reports anything |
| GroupSessions.ScheduleOverlapIff | backend/models/GroupSession.js:161-173 | for a proper slot [a, b] and class [n, e] the personal-slot check holds exactly when a ≤ e and n < b |
| GroupSessions.ClassEnd | backend/models/GroupSession.js:154-159 | for a start with zero seconds the class ends `duration` minutes later, with no wrap at midnight |
| GroupSessions.ClashesWithSlot | backend/models/GroupSession.js:162-173 | a slot of the trainer on one of the requested days that the three-part slot test reports against the class from its start to its end |
| GroupSessions.ScheduleConflict | backend/models/GroupSession.js:146-177 | false without a trainer, without days or for a malformed time; otherwise true exactly when some slot of the table clashes with the class |
| GroupSessions.EndingAtSlotStartConflicts | backend/models/GroupSession.js:146-177 | a class of the trainer on a slot's day that ends exactly when the slot starts is reported as a conflict |
| GroupSessions.NullDurationMeetsSlotsAtStart | backend/models/GroupSession.js:152-173 | a null duration makes the class end where it starts: a slot clashes exactly when the start lies in it, its end included |
| Schedules.RowsOf | backend/models/TrainerSchedule.js:112-115 | the rows of one trainer, all of that trainer |
| Schedules.RowsOfAppend | backend/models/TrainerSchedule.js:133-138 | a trainer's rows in an appended table are its rows in each part, in order |
| Schedules.RowsOfRemoveTrainer | backend/models/TrainerSchedule.js:112-115 | deleting a trainer's rows leaves that trainer none and every other trainer's rows as they were |
| Schedules.Materialize | backend/models/TrainerSchedule.js:121-130 | a stored slot keeps its day and times; the kind defaults to 'personal', `max_slots` to 1 and `created_by` to NULL |
| Schedules.Inserted | backend/models/TrainerSchedule.js:117-139 | the INSERT adds one row per slot, in order, with consecutive new ids |
| Schedules.RowsOfInserted | backend/models/TrainerSchedule.js:121-131 | the inserted rows belong to the trainer being replaced and no other |
| Schedules.Replace | backend/models/TrainerSchedule.js:106-148 | afterwards the trainer's rows are exactly the given slots, in order (none for an empty list), and every other trainer's rows are untouched |
| Schedules.ReplaceKeepsValid | backend/models/TrainerSchedule.js:112-139 | the replacement keeps ids unique and increasing |
| Schedules.Delete | backend/models/TrainerSchedule.js:75-87 | false with no change for an unknown id; otherwise true, and exactly the row with that id is gone |
| Schedules.DeleteRemovesOne | backend/models/TrainerSchedule.js:85 | with unique ids a delete removes exactly one row |
| Schedules.Update | backend/models/TrainerSchedule.js:64-73 | true exactly for a known id; that row gets the new trainer, day, times and count, every other row is unchanged |
| Schedules.UpdateKeepsValid | backend/models/TrainerSchedule.js:64-73 | rewriting a slot keeps ids unique, increasing and below the next id |
| Schedules.ExcludedRowIgnored | backend/models/TrainerSchedule.js:89-100 | with `excludeId` that row is never reported; without it a row of the trainer on that day is reported exactly when it covers an end of the candidate |
| Schedules.Overlapping | backend/models/TrainerSchedule.js:89-100 | some row of the trainer on that day, other than the excluded one, covers the candidate's start or its end |
| Schedules.ContainedSlotMissed | backend/models/TrainerSchedule.js:93 | an existing slot lying strictly inside the candidate is not reported |
| Schedules.CoversEitherEndMeansShared | backend/models/TrainerSchedule.js:93 | any slot that is reported shares time with the candidate |
| Schedules.Filter | backend/models/TrainerSchedule.js:17-20 | keeps exactly the 'personal' rows of existing trainers with an existing user, each as often as the table holds it, and drops every other row |
| Schedules.GetAll | backend/models/TrainerSchedule.js:4-26 | exactly those rows, each as often as the table holds it (a permutation of the filtered table), Monday first and Sunday last, each day by start time |
| Schedules.RankInjective | backend/models/TrainerSchedule.js:22 | the weekday order gives every weekday its own position |
| ScheduleController.NormalizeDay | backend/controllers/scheduleController.js:7-11 | a missing or empty value gives null; an accepted value is one whose lowercase form is a weekday name |
| ScheduleController.NormalizeDayAcceptsNames | backend/controllers/scheduleController.js:5-11 | every one of the seven English weekday names is accepted, in any letter case |
| ScheduleController.NormalizeDayNoTrim | backend/controllers/scheduleController.js:9 | the value is not trimmed: " monday" is rejected |
| ScheduleController.NormalizeTime | backend/controllers/scheduleController.js:13-23 | a result exists exactly when the trimmed value is "DD:DD" or "DD:DD:DD"; it is always "DD:DD:DD" and starts with the trimmed value's "DD:DD" |
| ScheduleController.NormalizeTimeIdempotent | backend/controllers/scheduleController.js:19-21 | a "DD:DD:DD" value comes back unchanged |
| ScheduleController.NormalizeTimeParses | backend/controllers/scheduleController.js:13-23 | a normalised time reads as hours, minutes and seconds and renders back to the same text |
| ScheduleController.AddOneHour | backend/controllers/scheduleController.js:25-32 | the end is "HH:MM:00" for (h·60 + m + 60) mod 1440 minutes: it wraps past midnight and drops the seconds |
| ScheduleController.AddOneHourWithinDay | backend/controllers/scheduleController.js:29-31 | the end is always a time of day, exactly one hour after the start modulo a day |
| ScheduleController.AddOneHourWraps | backend/controllers/scheduleController.js:29-31 | an hour after 23:30:00 is 00:30:00 |
| ScheduleController.KeyOf | backend/controllers/scheduleController.js:81-88 | an entry has a dedup key exactly when both its day and its start normalise |
| ScheduleController.Candidates | backend/controllers/scheduleController.js:80-83 | one candidate per entry, in order, with its key and requested capacity |
| ScheduleController.Dedup | backend/controllers/scheduleController.js:84-92 | the kept keys are never more than the candidates |
| ScheduleController.DedupFromInput | backend/controllers/scheduleController.js:84-92 | every kept key comes from some entry and was not seen before |
| ScheduleController.DedupDistinct | backend/controllers/scheduleController.js:88-92 | the kept keys are pairwise distinct |
| ScheduleController.DedupCovers | backend/controllers/scheduleController.js:84-92 | every valid entry's key not seen before is kept |
| ScheduleController.Build | backend/controllers/scheduleController.js:94-102 | a stored slot has the key's day and start, type 'personal' and a non-zero `max_slots` (1 when the given value is falsy) |
| ScheduleController.BuildAll | backend/controllers/scheduleController.js:96-102 | one slot per kept key, in order, carrying that key |
| ScheduleController.KeptWellFormed | backend/controllers/scheduleController.js:82-88 | every kept start time is a "DD:DD:DD" text |
| ScheduleController.NormalizeSlots | backend/controllers/scheduleController.js:77-103 | the loop computes the reference pass and keeps no more slots than entries |
| ScheduleController.NormalizedKeys | backend/controllers/scheduleController.js:80-103 | the stored slots carry pairwise distinct keys, and a key is stored exactly when some valid entry has it: invalid entries are dropped and the first of each duplicate wins |
| ScheduleController.InvalidEntryDropped | backend/controllers/scheduleController.js:84-86 | an entry whose day or start does not normalise contributes nothing |
| ScheduleController.DedupInvalidLast | backend/controllers/scheduleController.js:84-86 | an invalid last candidate leaves the kept keys as they were |
| ScheduleController.CreateSchedule | backend/controllers/scheduleController.js:51-125 | 401 without an admin, 400 without a trainer, 400 when `slots` is not an array, 400 when no valid slot remains, all with no change; otherwise the trainer's week is replaced by the normalised slots and the answer is their number |
| ScheduleController.UpdateSchedule | backend/controllers/scheduleController.js:127-171 | 404 for an unknown slot before any validation; 400 when the day, start or end does not normalise; then a 500 (`undefined` bind) when `trainer_id` or `max_slots` was not sent; otherwise the row is rewritten with the normalised values and the sent trainer and count; every failure leaves the state unchanged |
| ScheduleController.UpdateScheduleKeepsValid | backend/controllers/scheduleController.js:127-171 | whatever the answer, editing a slot keeps ids unique, increasing and below the next id |
| ScheduleController.UpdateIgnoresOrder | backend/controllers/scheduleController.js:141-152 | any existing slot accepts a valid day and two "HH:MM" times in either order: the end is never compared with the start |
| TrainingController.FieldCheck | backend/controllers/trainingController.js:67-93 | no refusal exactly when the date and time are given and, with a trainer, the weekday too; with a trainer a missing date, time and weekday are refused in that order, each with its own message; without one, date and time are refused together |
| TrainingController.FindFitting | backend/controllers/trainingController.js:104-108 | true exactly when some listed subscription has that id, type gym or combo and a visit left |
| TrainingController.SubscriptionCheck | backend/controllers/trainingController.js:95-116 | no check unless paid by subscription; a missing `subscription_id` is refused; otherwise passes exactly when the id is one of the user's active subscriptions of type gym or combo with a visit left |
| TrainingController.InventoryId | backend/controllers/trainingController.js:127-129 | null, undefined and "" become null; a number is kept |
| TrainingController.ToRequest | backend/controllers/trainingController.js:118-134 | the model receives the user, date and time as sent, the trainer only when truthy, the payment method or 'qr_code' when it is falsy, and the weekday only when given |
| TrainingController.BookTraining | backend/controllers/trainingController.js:62-150 | field refusals come first, then subscription refusals, each a 400 with no change; when both checks pass, the answer is the booking transaction on the request built from the form: the same state, a success exactly when the transaction succeeds, and its error as a 500 otherwise |
| TrainingController.SubscriptionBookingIsEntitled | backend/controllers/trainingController.js:95-116 | a training booked by subscription names one of the user's rows that is active at that time, of type gym or combo, with a visit left |
| TrainingController.CancelTraining | backend/controllers/trainingController.js:152-176 | 400 with no change without a booking id; otherwise the cancellation transaction, which succeeds exactly when the caller owns a booking with that id |
| TrainingController.Keep | backend/controllers/trainingController.js:29-46 | keeps exactly the trainers passing the rating filter and the experience filter |
| TrainingController.SmartSearch | backend/controllers/trainingController.js:23-60 | exactly the trainers passing both filters, with no new entries, ordered by rating descending with a missing rating counted as 0 |
| TrainingController.KeepSubMultiset | backend/controllers/trainingController.js:29-46 | filtering never adds or duplicates a trainer |
| TrainingController.FivePlusAcceptsMore | backend/controllers/trainingController.js:41-42 | the "5+" bracket also accepts an experience text containing "Более" |
| TrainingController.UnratedNeverPassesMinimum | backend/controllers/trainingController.js:29-32 | a trainer with no rating, or a zero rating, never passes a minimum-rating filter |
| BookingController.FirstPaying | backend/controllers/bookingController.js:34-43 | the index found is the first group or combo row with a visit left, and None means no row of the list pays for a class |
| BookingController.ChosenSubscription | backend/controllers/bookingController.js:34-50 | None exactly when no active group or combo subscription of the user has a visit left; otherwise a genuine such subscription whose purchase is the latest among them |
| BookingController.NoPayingRow | backend/controllers/bookingController.js:45-50 | when the loop finds nothing, no active row of the user can pay for a class |
| BookingController.FirstPayingIsLatest | backend/controllers/bookingController.js:34-43 | in a list ordered newest first, the first paying entry has the latest purchase among the paying ones |
| BookingController.LatestPayingRow | backend/controllers/bookingController.js:34-43 | the entry the loop stops at is a genuine active row of the user and no paying row was bought later |
| BookingController.BookGroupSession | backend/controllers/bookingController.js:22-74 | 400 without a class id, 400 without a usable subscription (before the class is looked up), 404 for an unknown class, each without change; once all three pass, the answer is the booking transaction paid from the chosen subscription: the same state, a success exactly when it succeeds (reporting the visits minus one), and its error as a 500 otherwise |
| BookingController.ReportedVisitsMatchLedger | backend/controllers/bookingController.js:60-67 | the reported remaining visits equal what the stored chosen subscription holds after the booking |
| BookingController.CancelBooking | backend/controllers/bookingController.js:76-100 | 400 without a booking id; otherwise the state and the success of the cancellation transaction |
| SubscriptionController.MySubscription | backend/controllers/clientSubscriptionController.js:4-32 | lists every active subscription; no main one when the list is empty; the main one is listed, and a non-combo main one is the first entry of a list without combos |
| SubscriptionController.MainIsActiveChoice | backend/controllers/clientSubscriptionController.js:19 | the main subscription shown is the one the model's active-subscription lookup returns |
| SubscriptionController.PurchaseSubscription | backend/controllers/clientSubscriptionController.js:52-87 | 400 without a type id and 404 for an unknown type, both without change; it succeeds exactly for a known type, stores the purchase and answers the main active subscription afterwards |
| SubscriptionController.PurchaseAnswersNewest | backend/controllers/clientSubscriptionController.js:72-80 | after buying a group, gym or combo type lasting a day or more, with nothing bought in the future, the answer is a subscription bought now |
| GroupSessionController.Availability | backend/controllers/groupSessionController.js:74-90 | no check without a trainer; the group-class clash is reported first and exactly when it exists; the personal-slot clash only when there is no group clash |
| GroupSessionController.CreateSession | backend/controllers/groupSessionController.js:63-105 | 400 for a missing, null or zero field, then the availability failures, each without change; it succeeds exactly for complete, available input, appending one class with no participants under the next id and touching nothing else |
| GroupSessionController.CreatedClassIsFree | backend/controllers/groupSessionController.js:74-92 | a created class overlaps none of its trainer's classes on a shared day and none of the trainer's personal slots on a requested day |
| GroupSessionController.NoTrainerAlwaysCreated | backend/controllers/groupSessionController.js:74 | a complete class without a trainer is always created under the next id |
| GroupSessionController.UpdateSession | backend/controllers/groupSessionController.js:107-149 | the availability checks run first (an unsent duration counts as 60 there), excluding the class itself from the group check; then an unsent duration gives a 500 for the `undefined` bind, an existing class is updated and an unknown id gives 404; every answer but a success changes nothing |
| GroupSessionController.UpdateExcludesItself | backend/controllers/groupSessionController.js:113 | editing an existing class, with a duration sent, whose trainer has no other class and no clashing slot succeeds: the class never clashes with itself |
| GroupSessionController.TimeShown | backend/controllers/groupSessionController.js:13 | an unset time shows as "10:00" and a set one as its "HH:MM" form |
| GroupSessionController.Format | backend/controllers/groupSessionController.js:8-19 | keeps id, name, days and participant count; a zero duration shows as 60 and a zero capacity as 10, other values unchanged; the time shows as "HH:MM" or "10:00" |
| GroupSessionController.ListAll | backend/models/GroupSession.js:4-16 | one formatted entry per class, in reverse table order |
| GroupSessionController.ListAllNewestFirst | backend/models/GroupSession.js:13 | in a well-keyed store the listed ids strictly decrease |
| Reviews.RunsClass | backend/models/Review.js:40-47 | true exactly when some class with that id is led by the trainer |
| Reviews.HasBookingWithTrainer | backend/models/Review.js:27-50 | true exactly when the user has a completed, confirmed or pending personal training with the trainer, or a seat in a class the trainer leads |
| Reviews.CancelledDoesNotCount | backend/models/Review.js:28-34 | a user whose personal trainings are all cancelled and who has no class seat may not review |
| Reviews.FindReview | backend/models/Review.js:18-25 | finds a review by that user of that trainer, and finds none exactly when no such review exists |
| Reviews.TallyConcat | backend/models/Review.js:85-88 | the count and the sum of a trainer's ratings over two tables added together are the sums of each |
| Reviews.TallyWithout | backend/models/Review.js:152-157 | removing one row takes exactly that row's contribution out of the count and sum |
| Reviews.Mean | backend/models/Review.js:85-90 | the average is absent exactly when the trainer has no reviews |
| Reviews.SumBounds | backend/models/Review.js:85-88 | with ratings from 1 to 5 the sum lies between the count and five times the count |
| Reviews.MeanInRange | backend/models/Review.js:85-91 | with ratings from 1 to 5 a trainer's average also lies between 1 and 5 |
| Reviews.NullIfEmpty | backend/models/Review.js:67 | an empty or absent comment is stored as NULL and any other comment unchanged |
| Reviews.RefreshRating | backend/models/Review.js:82-97 | only the named trainer's rating changes; with reviews it becomes their average, and with none nothing changes |
| Reviews.Create | backend/models/Review.js:52-80 | refused without change exactly when the user already reviewed the trainer; otherwise appends the review under the next id, leaves other trainers alone and rates the trainer with the new average |
| Reviews.Update | backend/models/Review.js:99-134 | refused without change exactly when the user owns no review with that id; otherwise rewrites only that review's rating and comment, keeping its trainer |
| Reviews.Delete | backend/models/Review.js:136-167 | refused without change exactly when the user owns no review with that id; otherwise removes exactly that review and keeps every other one |
| Reviews.RefreshKeepsConsistent | backend/models/Review.js:82-97 | recomputing one trainer whose tallies alone changed leaves every trainer rated with their average |
| Reviews.CreateKeepsSound | backend/models/Review.js:59-70 | creating a review keeps ids increasing, one review per user and trainer, and every rating equal to its average |
| Reviews.OnlyOwned | backend/models/Review.js:106-109 | with unique ids the lookup by id and author matches one row at most |
| Reviews.UpdateSplit | backend/models/Review.js:117-122 | the update rewrites only the matched row and keeps its trainer |
| Reviews.UpdateKeepsSound | backend/models/Review.js:106-124 | editing a review keeps the same three invariants |
| Reviews.RemoveOnly | backend/models/Review.js:152-155 | deleting the one matching row leaves the rows before and after it, in order |
| Reviews.DeleteKeepsSound | backend/models/Review.js:141-157 | deleting a review keeps the same three invariants |
| Reviews.LastReviewKeepsRating | backend/models/Review.js:90-96 | deleting a trainer's last review leaves every trainer's rating as it was |
| ReviewController.CanLeaveReview | backend/controllers/reviewController.js:30-51 | reports whether a booking exists and whether a review exists, and allows a review exactly when there is a booking and no review |
| ReviewController.CreateReview | backend/controllers/reviewController.js:53-106 | 400 without a trainer or a nonzero rating, 400 outside 1..5, 403 without a booking, each without change; a success is the creation transaction on checked input |
| ReviewController.CanLeaveMatchesCreate | backend/controllers/reviewController.js:72-86 | for a checked rating a review is accepted exactly when the eligibility answer allows it; otherwise the 403 without a booking and the duplicate 400 with one |
| ReviewController.UpdateReview | backend/controllers/reviewController.js:108-139 | 400 without a review id or a nonzero rating, 400 outside 1..5, then exactly the update transaction |
| ReviewController.DeleteReview | backend/controllers/reviewController.js:141-153 | 400 without a review id, then exactly the delete transaction |
| ReviewController.ShownRatingInRange | backend/models/Review.js:90-96 | in a healthy state every reviewed trainer has a rating between 1 and 5 |
| ReviewController.CreateReviewKeepsHealthy | backend/controllers/reviewController.js:58-93 | the create endpoint keeps the review invariants and stores only ratings from 1 to 5 |
| ReviewController.UpdateReviewKeepsHealthy | backend/controllers/reviewController.js:113-127 | the update endpoint keeps the same invariants |
| ReviewController.DeleteReviewKeepsHealthy | backend/controllers/reviewController.js:146-153 | the delete endpoint keeps the same invariants |
| TrainerController.DeleteTrainer | backend/controllers/trainerController.js:68-139 | 404 for an unknown trainer; 400 while the trainer has an uncancelled personal training today or later, any group class, or a foreign-key conflict, each without change; otherwise removes exactly the trainer's schedule rows, reviews, trainer row and user row and keeps everything else |
| TrainerController.DeleteKeepsValid | backend/controllers/trainerController.js:118-124 | the removal keeps every table well keyed |
| TrainerController.PastBookingsDoNotBlock | backend/controllers/trainerController.js:88-116 | a known trainer whose personal trainings are all in the past and who leads no class is removed |
| Auth.PhoneShape | backend/controllers/authController.js:20 | the accepted phone texts are exactly "+375" followed by nine digits |
| Auth.IsPhone | backend/controllers/authController.js:20 | `/^\+375[0-9]{9}$/`: thirteen characters, the prefix "+375" and nine digits |
| Auth.PhoneCheck | backend/controllers/authController.js:16-30 | an absent, empty or blank phone is stored as none; otherwise the trimmed phone is stored when it is valid, and the request fails exactly when the trimmed text is non-empty and invalid |
| Auth.PaddedPhoneAccepted | backend/controllers/authController.js:18-21 | a valid number with white space around it is accepted and stored without the white space |
| Auth.Register | backend/controllers/authController.js:5-48 | 400 without name, email and password; then the phone error; then the short-password error; a success exactly for complete input with a good phone, a password of eight or more characters and an unknown email, storing the given fields and the role "client" by default |
| Auth.EmailKnown | backend/controllers/authController.js:39 | some stored user has exactly that email |
| Auth.StoredPhoneIsValid | backend/controllers/authController.js:16-30 | every stored phone is a valid number with no surrounding white space |
| Auth.LoginCheck | backend/controllers/authController.js:84-89 | passes exactly when email and password are both given; otherwise a 400 |
| Helpers.FormatTimeSimply | backend/utils/helpers.js:1-11 | a non-empty string gives its first five characters, at most five and a prefix of the input; anything else gives "10:00" |
| Helpers.FormatTimeOfRender | backend/utils/helpers.js:5 | a time rendered as "HH:MM:SS" is shown as its "HH:MM" |
| Helpers.GetDayOfWeek | backend/utils/helpers.js:13-17 | the name of the date's weekday, which reads back as that weekday |
| Helpers.JsDayNamesInOrder | backend/utils/helpers.js:14 | the name array is in `getDay()` order, Sunday first |
| Helpers.NextDateForDayOfWeek | backend/utils/helpers.js:19-51 | None exactly for a name that is no weekday in any letter case; otherwise a date within the next seven days on that weekday, which is today exactly when today is that weekday and it is before 20:00 |
| Helpers.NextDateWindow | backend/utils/helpers.js:35-46 | before 20:00 the date is at most six days ahead; from 20:00 on it is never today |
| Clock.WithSeconds | backend/models/PersonalBooking.js:77-80 | an "HH:MM" text gets ":00" appended and any other text is unchanged; the first five characters are never changed |
| Clock.WithSecondsIdempotent | backend/models/PersonalBooking.js:78 | normalising an already normalised time changes nothing |
| Clock.WithSecondsParses | backend/models/PersonalBooking.js:77-80 | a well-formed "HH:MM" becomes a TIME text for the same hour and minute with zero seconds |
| Clock.FromName | backend/models/PersonalBooking.js:96 | a weekday found by name has exactly that name |
| Clock.FromNameOfName | backend/models/PersonalBooking.js:96 | each weekday is found by its own lower-case name |
| Clock.FromJsIndex | backend/models/PersonalBooking.js:253-254 | the weekday at a `getDay()` index has that index |
| Clock.WeekdayOf | backend/models/PersonalBooking.js:251-256 | a date's weekday is counted from 1970-01-01, a Thursday |
| Clock.WeekdayOfShift | backend/models/PersonalBooking.js:251-256 | moving a date by whole weeks keeps its weekday |
| AdminSchedule.GenerateHours | js/admin-schedule.js:19-25 | one label per hour from start to end inclusive, each the zero-padded hour followed by ":00", none when start exceeds end |
| AdminSchedule.HourLabelReads | js/admin-schedule.js:22 | a label of a two-digit hour is a well-formed "HH:MM" that reads back as that hour at minute 0 |
| AdminSchedule.GridHours | js/admin-schedule.js:16 | the grid offers thirteen hours from "09:00" to "21:00", each well formed and one hour after the previous |
| AdminSchedule.EmptyDayMap | js/admin-schedule.js:135-141 | a column for exactly the five grid days, each empty |
| AdminSchedule.DaysOf | js/admin-schedule.js:143-149 | a known trainer's day map, or an empty one for a trainer not seen yet |
| AdminSchedule.AddHour | js/admin-schedule.js:370 | the hours afterwards are the old ones plus the new one, still without repeats |
| AdminSchedule.RemoveHour | js/admin-schedule.js:366 | the hours afterwards are the old ones except the removed one |
| AdminSchedule.HourOf | js/admin-schedule.js:128 | an hour is read exactly from a non-empty start time, as its first five characters |
| AdminSchedule.Place | js/admin-schedule.js:117-131 | one schedule row: its trainer gets a day map in any case, and the hour is added only for a grid day |
| AdminSchedule.BuildScheduleMap | js/admin-schedule.js:114-133 | the rows placed one after the other, starting from an empty map |
| AdminSchedule.PlaceStep | js/admin-schedule.js:117-132 | placing one row adds its trainer, keeps the five columns, and selects exactly the old cells plus the row's cell when it is on a grid day |
| AdminSchedule.BuildScheduleMapContents | js/admin-schedule.js:114-133 | the map has exactly the trainers that have rows, weekend rows included, each with the five columns, and a cell is selected exactly when some row on a grid day names it |
| AdminSchedule.Toggle | js/admin-schedule.js:361-376 | the cell's hour is removed when selected and added otherwise; every other hour, day and trainer is unchanged |
| AdminSchedule.RemoveAppended | js/admin-schedule.js:366-370 | removing an hour just added gives back the old hours in order |
| AdminSchedule.ToggleTwice | js/admin-schedule.js:361-376 | toggling a cell twice restores the selected hours, and restores the grid exactly when the hour was not selected |
| AdminSchedule.ClearCurrent | js/admin-schedule.js:378-382 | without a trainer nothing changes; otherwise that trainer's map is emptied and every other trainer is kept |
| AdminSchedule.Pairs | js/admin-schedule.js:389-391 | one entry per selected hour of the day, in the day's order |
| AdminSchedule.CollectDays | js/admin-schedule.js:388-392 | each day's entries, the days taken in the order given |
| AdminSchedule.CollectDaysContents | js/admin-schedule.js:384-395 | the entries are exactly the selected cells of the days given, each once, grouped in the days' order |
| AdminSchedule.CollectSlots | js/admin-schedule.js:384-395 | every selected cell of the trainer exactly once, grouped from Monday to Friday |
| AdminSchedule.Save | js/admin-schedule.js:397-418 | warns without a trainer, warns when no cell is selected, and otherwise sends exactly the collected slots of the selected trainer |
| AdminSchedule.SaveWarnsOnEmptyGrid | js/admin-schedule.js:403-408 | the no-slots warning appears exactly when all five columns of the trainer are empty |
| AdminSchedule.ClearThenSaveWarns | js/admin-schedule.js:378-408 | after "clear" the trainer has no slots to send, so saving gives only the no-slots warning |
| AdminSchedule.ToggleKeepsHoursWellFormed | js/admin-schedule.js:361-376 | toggling grid hours keeps every selection a well-formed "HH:MM" |
| AdminSchedule.GridDayIsName | js/admin-schedule.js:9-15 | every grid column is a lower-case weekday name |
| AdminSchedule.SlotNormalizes | backend/controllers/scheduleController.js:5-23 | a grid day and an "HH:MM" pass the backend's day and time normalisation, the time gaining ":00" |
| AdminSchedule.SentSlotsNormalize | js/admin-schedule.js:412-417 | every slot sent passes the backend's normalisation, so none is dropped there |
| AdminSchedule.LeadingNumber | js/admin-schedule.js:490 | the decimal digits `parseInt` reads after the sign: a number exactly when the text starts with a digit |
| AdminSchedule.LeadingHex | js/admin-schedule.js:490 | the hexadecimal digits `parseInt` reads after "0x": a number exactly when the text starts with one |
| AdminSchedule.ReadSigned | js/admin-schedule.js:490 | a number exactly when a digit follows the optional sign (a hexadecimal one after "0x"); a negative number only after '-', and never a positive one after '-' |
| AdminSchedule.ParseInt | js/admin-schedule.js:490 | `parseInt(hours)`: after the leading white space is skipped, a number exactly when a digit follows the optional sign; a negative number only when that sign is '-' |
| AdminSchedule.ParseIntSkipsSpace | js/admin-schedule.js:490 | white space in front of a text does not change what `parseInt` reads |
| AdminSchedule.ParseIntOfDigits | js/admin-schedule.js:490 | digits, followed by nothing or by a character that is neither a digit nor an 'x', read as their decimal value |
| AdminSchedule.ParseIntOfNegative | js/admin-schedule.js:490 | a '-' and digits, followed by nothing or by a character that is neither a digit nor an 'x', read as minus their decimal value |
| AdminSchedule.ParseIntExamples | js/admin-schedule.js:490 | "-1" reads as -1 and "+9" as 9; "-" and "x" are NaN; `padStart` gives "00" for 0 and leaves "-4" as it is |
| AdminSchedule.IntString | js/admin-schedule.js:490 | `String(n)`: digits only for a non-negative n, a '-' and digits for a negative one |
| AdminSchedule.PadStart2 | js/admin-schedule.js:490 | `padStart(2, '0')` of `String(n)`: at least two characters, exactly two below 100, and the two-digit label for a non-negative n |
| AdminSchedule.PadStart2ReadsBack | js/admin-schedule.js:490 | the padded text of any integer, negative ones included, reads back through `parseInt` as that integer, when nothing follows it or the next character is neither a digit nor an 'x' (the ':' of the template) |
| AdminSchedule.EndHour | js/admin-schedule.js:490 | the padded hour after the start's; "NaN" when the hour part is not a number |
| AdminSchedule.EndText | js/admin-schedule.js:491 | the template `${endHours}:${minutes}:00`: the hour, a ':', the minutes and ":00", in that order |
| AdminSchedule.EndTimeOfNaN | js/admin-schedule.js:488-492 | a start whose hour part is not a number gives an end that starts with "NaN" |
| AdminSchedule.EndHourReadsBack | js/admin-schedule.js:488-492 | for a start whose hour part is a number h, the end reads back through `parseInt` as h + 1, for any integer h |
| AdminSchedule.EndTimeSkipsSpace | js/admin-schedule.js:488-492 | white space in front of the start does not change the end (" 9:00" ends like "9:00") |
| AdminSchedule.EndTimeExamples | js/admin-schedule.js:488-492 | " 9:00" ends at "10:00:00" and "-1:00" at "00:00:00" |
| AdminSchedule.LeadingDigitCount | js/admin-schedule.js:490 | counts the leading digits: all of them are digits and the next character is not |
| AdminSchedule.EndTimeOfHhmm | js/admin-schedule.js:488-492 | for an "HH:MM" start the end is the next hour, not wrapped, at the same minute with ":00" |
| AdminSchedule.CalculateEndTime | js/admin-schedule.js:488-492 | the text always ends with ":00", and a start without ':' ends with ":undefined:00"; the page never calls the method |
| AdminSchedule.AddOneHourBefore23 | backend/controllers/scheduleController.js:25-32 | before 23:00 the backend stores the next hour at the same minute |
| AdminSchedule.AddOneHourAt23 | backend/controllers/scheduleController.js:29-31 | from 23:00 the backend wraps to "00" at the same minute |
| AdminSchedule.EndTimeAgreesWithBackend | js/admin-schedule.js:488-492 | were the unused `calculateEndTime` called, before 23:00 it would equal the backend's end; for a 23:xx start it would give "24:xx:00" (the backend's "00:xx:00" is `AddOneHourAt23`) |
| AdminSchedule.EndTimeBefore23 | js/admin-schedule.js:488-492 | for an "HH:MM" start before 23:00 with minutes below 60 the end equals the backend's `addOneHour` of the start with seconds |
| AdminSchedule.EndTimeAt23 | js/admin-schedule.js:488-492 | for a 23:xx start the end is "24:xx:00" |
| ClientTrainings.DayNumber | js/client-trainings.js:347-358 | a number exactly for a weekday name in any letter case: that weekday's Sunday-first index |
| ClientTrainings.DayNumberOfName | js/client-trainings.js:348-357 | each weekday name, whatever its case, gets its Sunday-first number |
| ClientTrainings.DaysUntil | js/client-trainings.js:380-386 | between one and seven days, landing on the target weekday, so today is pushed a week ahead |
| ClientTrainings.CandidateOnTarget | js/client-trainings.js:399-412 | every candidate date already falls on the target weekday, so the correction never applies |
| ClientTrainings.Corrected | js/client-trainings.js:399-411 | the date returned falls on the target weekday, less than a week after the candidate; a candidate already on it is kept |
| ClientTrainings.AvailableDates | js/client-trainings.js:360-416 | nothing for an unknown day name; otherwise the requested number of dates a week apart, the first after today and within seven days, all on the named weekday |
| ClientTrainings.AvailableDatesComplete | js/client-trainings.js:388-413 | every date on the named weekday after today and within the requested weeks is offered |
| ClientTrainings.WeeksApart | js/client-trainings.js:391 | two dates on the same weekday are whole weeks apart |
| ClientTrainings.ReadSlotValue | js/client-trainings.js:708-713 | a slot is read only when both parts are non-empty and free of the separator |
| ClientTrainings.SlotValue | js/client-trainings.js:272 | a slot option's value: the day, the separator, the start time |
| ClientTrainings.SlotValueRoundTrip | js/client-trainings.js:272 | reading a slot option's value gives back the day and start time it was rendered from |
| ClientTrainings.EmptyPartRefused | js/client-trainings.js:710-713 | a value with an empty day part is refused |
| ClientTrainings.CheckWithoutTrainer | js/client-trainings.js:620-648 | a date before today is refused exactly; with no time only that check applies |
| ClientTrainings.NumberOf | js/client-trainings.js:639 | `Number` of a time part: 0 for an empty text, the value of a digit string, NaN (none) otherwise |
| ClientTrainings.WindowOfHhmm | js/client-trainings.js:638-648 | for an "HH:MM" time on today or later the form goes through exactly when the time lies in 09:00–21:00, and is otherwise refused for the hours |
| ClientTrainings.WindowEnds | js/client-trainings.js:641-644 | 21:00 is allowed while 21:01 and 08:59 are refused |
| ClientTrainings.SelectInventory | js/client-trainings.js:872-882 | clears the choice exactly when that item was chosen; otherwise the item's id text, which reads back as the id |
| ClientTrainings.SelectTwice | js/client-trainings.js:872-882 | clicking an item twice restores an empty or other choice to empty and an item's own choice to itself |
| ClientTrainings.SelectOther | js/client-trainings.js:876-879 | choosing a different item replaces the choice |
| ClientTrainings.PaymentOptions | js/client-trainings.js:428-480 | QR code and cash always come first; a third option appears exactly on the trainer-less form when some loaded subscription can pay for the gym, and it is the first such one |
| ClientSubscriptions.PurchaseState | js/client-subscriptions.js:183-199 | a combo can always be bought; any other type is refused exactly when the client already holds one of that type |
| ClientSubscriptions.SecondOfKindRefused | js/client-subscriptions.js:194-196 | once a non-combo type is held, a second one of it is refused |
| ClientSubscriptions.ComboDoesNotBlock | js/client-subscriptions.js:197-199 | holding a combo changes no purchase decision |
| ClientSubscriptions.GymOverComboExpiresCombo | js/client-subscriptions.js:186-199 | a client holding a combo and no gym subscription is offered a gym one, and buying it expires the combo in the store |
| ClientSubscriptions.CeilDiv | js/client-subscriptions.js:263 | rounds a quotient up: the least whole number whose multiple of the divisor reaches the dividend |
| ClientSubscriptions.DaysLeft | js/client-subscriptions.js:263 | none exactly without an expiry; otherwise the least whole number of days that covers the time left |
| ClientSubscriptions.ExpiringSoon | js/client-subscriptions.js:264 | some days left, at most seven |
| ClientSubscriptions.ExpiringSoonIffWithinAWeek | js/client-subscriptions.js:263-264 | a subscription is marked as expiring soon exactly when its expiry is after now and at most seven days ahead |
| ClientSubscriptions.DaysWordUpToTwenty | js/client-subscriptions.js:383-387 | up to twenty the page's word for "days" agrees with Russian grammar |
| ClientSubscriptions.DaysWord | js/client-subscriptions.js:383-387 | the page's word for "days": "день" for 1, "дня" for 2 to 4, "дней" otherwise |
| ClientSubscriptions.GrammaticalDaysWord | js/client-subscriptions.js:383-387 | the Russian agreement rule the page's word is compared with, which looks at the last two digits |
| ClientSubscriptions.ExpiringShowsGrammaticalWord | js/client-subscriptions.js:287 | the word shown next to an expiring-soon count is always the grammatical one |
| ClientSubscriptions.DaysWordInTheTwenties | js/client-subscriptions.js:383-387 | from 21 to 24 the page's word departs from the grammar; from 25 to 30 the two agree again |
| ClientSubscriptions.FiltersCompose | js/client-subscriptions.js:36-61 | a card is shown exactly when it passes the category filter and the type filter each on its own |
| ClientSubscriptions.Shown | js/client-subscriptions.js:36-61 | a card is shown when an empty or matching category (ignoring case) and an empty or equal type filter both let it through |
| ClientSubscriptions.CategoryIgnoresCase | js/client-subscriptions.js:39-50 | the category filter ignores letter case |
| ClientSubscriptions.OwnTitleAndTypeShown | js/client-subscriptions.js:45-56 | filtering by a card's own title and type keeps it |
| Clock.ParseTime | backend/models/GroupSession.js:53 | a TIME value is read exactly from a "DD:DD:DD" text, with two-digit fields |
| Clock.RenderOfParse | backend/models/TrainerSchedule.js:57-58 | reading a TIME text and writing it back gives the same text |
| Clock.ParseOfRender | backend/models/TrainerSchedule.js:10-11 | writing a TIME value and reading it back gives the same value |
| Ledger.RecencyDescending | backend/models/UserSubscription.js:45 | a list in the model's recency order has purchase times in non-increasing order |
| Ledger.SameMembers | backend/models/UserSubscription.js:40-45 | reordering the rows neither adds nor loses any row |
| Sorting.SortBy | backend/controllers/trainingController.js:48 | the result is sorted by the key and is a permutation of the input |
| Text.Trim | backend/controllers/authController.js:18 | the result is no longer than the input and neither starts nor ends with white space |
| Text.TrimOfTrimmed | backend/controllers/scheduleController.js:15 | a text with no white space at either end is its own trim |
| Text.Lower | backend/controllers/scheduleController.js:9 | same length, each character lowercased |
| Text.LowerIdempotent | js/client-subscriptions.js:39-45 | lowercasing twice is lowercasing once |

## Left out

- HTTP plumbing (Express routing, CORS, start-up, the connection pool, `backend/middleware/auth.js`): only the decisions handlers make are modelled, with the caller's user id as a parameter.
- Password hashing with bcrypt, `jwt.sign` and the inserts of `User.create`: foreign calls. `Auth.Register` ends with the record that would be stored.
- The DOM, rendering, modals, notifications and `fetch` calls of the browser pages: only the pure decisions inside `js/admin-schedule.js`, `js/client-trainings.js` and `js/client-subscriptions.js` are modelled. The page state is passed in.
- Concurrency: each transaction is one atomic step. The unlocked window between the uniqueness check and the insert of a personal booking is not modelled.
- Wall-clock time and JavaScript `Date` parsing: "now" and "today" are parameters. The UTC reading of `YYYY-MM-DD` in `backend/utils/helpers.js` and the local-time reading in `backend/models/PersonalBooking.js` are both modelled as the same weekday function. The UTC shift of `toISOString` is not modelled.
- Reports, statistics and the chart pages: aggregation for display only.
- Floating point: the trainer rating is the exact mean of the ratings as a real. The `toFixed(1)` rounding and the review list's own average are not modelled.
- MySQL type coercion and collation: TIME columns are hour, minute and second fields. The personal-booking uniqueness check `TIME(a) = TIME(b)` is modelled as equality of the normalised time texts. Text is compared exactly: where the code lowercases a weekday name itself the two agree, and where it leaves the comparison to MySQL's case-insensitive collation the lines below say what the model does instead.
- Ties in `ORDER BY purchase_date DESC`: the model breaks them by table order, while MySQL leaves their order unspecified.
- The foreign-key verdict of the database on `deleteTrainer`'s deletes is the parameter `referenced`, because the schema is not part of this model.
- `adminController.deleteUser`, the thin CRUD models (`Trainer.js`, `User.js`, `Subscription.js`, `Inventory.js`) and the inventory, public and other trainer handlers: plain reads and writes with no decision in them. The inventory table appears only as the set of known ids.
- Keys such as "constructor" that a JavaScript object literal inherits: the day-name lookups are modelled as lookups of the seven names only.
- `Number()` leniency in the trainer-less time check (surrounding white space, signs, decimals): `ClientTrainings.NumberOf` accepts digit strings only.
- The unreachable reassignment of a `const` in `backend/models/PersonalBooking.js:124`: the no-match case is the error that follows it.
- The progress indicator of `js/admin-schedule.js` (`showProgressIndicator`, `updateProgressIndicator`, `hideProgressIndicator`): display only. `calculateEndTime`, a method of the same class that nothing calls, is modelled as `AdminSchedule.CalculateEndTime`.
- Millisecond timestamps of the subscription page: `daysLeft` is computed on seconds.
- GroupSessions.ClassEnd: states the end only for a start with zero seconds, the only kind a normalised "HH:MM" produces.
- ScheduleController.Dedup: its own contract only bounds the length. Its lemmas state which keys are kept, that they are distinct, and that they come from the input, but not that the input order is kept.
- ClientTrainings.ReadSlotValue: states only that both parts read are non-empty and free of the separator. The round trip is stated for values built by the page.
- ClientTrainings.CheckWithoutTrainer: its own contract states the date check. The time window is stated by `WindowOfHhmm` for "HH:MM" times only.
- Text.Trim: states that the result has no white space at either end, but not that it is the middle of the input.
- Text.Lower: lowercases ASCII, Latin-1 and basic Cyrillic letters one for one. JavaScript's `toLowerCase` covers all of Unicode and can lengthen a text ("İ" becomes two code units); neither is modelled.
- Auth.Register: counts the password's length in characters. JavaScript's `length` counts UTF-16 code units, so a character outside the Basic Multilingual Plane counts twice (four emoji pass the eight-character check); this is not modelled. The email test is `EmailKnown`'s exact comparison, below.
- Auth.EmailKnown: compares emails exactly. `WHERE email = ?` in backend/models/User.js:73 follows MySQL's case-insensitive collation, so an email differing only in letter case is refused there and accepted by the model.
- GroupSessions.FindInSet: compares day names exactly. MySQL's `FIND_IN_SET` under the default collation ignores letter case, so "Monday" would match a stored "monday" there. The admin form sends lower-case names.
- GroupSessions.ClashesWithSlot: compares the requested day names with the slot's day exactly, where `day_of_week IN (…)` ignores letter case.
- GroupSessions.StoredTime: reads only two-digit "HH:MM" and "HH:MM:SS" texts. MySQL also reads shorter forms such as "9:00" as a time; the model stores those as NULL, and both availability checks let them pass.
- Clock.ParseTime: accepts any two-digit minutes and seconds, and so does `ScheduleController.NormalizeTime`, as in the source. MySQL in strict mode refuses a TIME text such as "12:75:00" and the source answers 500; the model stores it.
- GroupSessions.Create: assumes the name, description, days, time and capacity are sent, as the admin form does. Any of them missing would also be bound as `undefined` and refused by the driver; only the duration's absence is modelled.
- GroupSessions.Update: the same assumption as `Create` for the columns other than the duration.
- ScheduleController.UpdateSchedule: a `trainer_id` or `max_slots` is either a sent number or not sent at all. One sent as null or as text is not modelled; the driver or the table would decide it.
- AdminSchedule.ParseInt: reads numbers of any size exactly. JavaScript's `parseInt` loses precision above 2^53, and `String` prints numbers from 10^21 on in exponent form; neither is modelled.

Some behaviours of the code that a reader might not expect, all modelled as written:
- cancelling a personal training does not look at its status, so a second cancel refunds a visit again;
- cancelling a group booking deletes its row;
- buying a gym subscription expires an active combo, although the subscription page offers it;
- the admin page's `calculateEndTime`, which nothing calls, would give "24:xx:00" for a 23:xx start, where the backend's `addOneHour` gives "00:xx:00"; the grid itself offers only 09:00 to 21:00;
- a class edited from the admin form with an empty duration field sends null (on creation the same empty field is refused with 400 by the `!duration` check, backend/controllers/groupSessionController.js:67): it passes the group-class check whatever the trainer's other classes, and the personal-slot check treats it as a class of no length;
- editing a class without sending a duration passes the checks with 60 minutes and then answers 500.
