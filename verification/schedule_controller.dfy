/**
 * The admin's schedule endpoints (backend/controllers/scheduleController.js): day and time
 * normalisation, the one-hour slot end, and the create (replace a trainer's week) and update
 * handlers with their status codes.
 */
module ScheduleController {
  import opened Wrappers
  import opened Text
  import opened Clock
  import opened Store
  import opened Http
  import Schedules

  /** `normalizeDay`: a non-empty string, lowercased (not trimmed), that is one of the seven names. */
  function NormalizeDay(value: Option<string>): (r: Option<Weekday>)
    ensures r.Some? ==> value.Some? && Name(r.value) == Lower(value.value)
    ensures value.None? || |value.value| == 0 ==> r.None?
  {
    if value.None? || |value.value| == 0 then None else FromName(Lower(value.value))
  }

  /** Every weekday name is accepted, in any mix of ASCII letter case. */
  lemma NormalizeDayAcceptsNames(value: string, d: Weekday)
    requires Lower(value) == Name(d)
    ensures NormalizeDay(Some(value)) == Some(d)
  {
    FromNameOfName(d);
  }

  /** Surrounding blanks are not trimmed, so " monday" is rejected. */
  lemma NormalizeDayNoTrim()
    ensures NormalizeDay(Some(" monday")) == None
  {
    var l := Lower(" monday");
    assert l[0] == ' ';
    assert forall d: Weekday :: Name(d)[0] != ' ';
  }

  /**
   * `normalizeTime`: trims, then turns "DD:DD" into "DD:DD:00", keeps "DD:DD:DD", and rejects
   * everything else. Digit ranges are not checked.
   */
  function NormalizeTime(value: Option<string>): (r: Option<string>)
    ensures r.Some? ==> IsHhmmss(r.value)
    ensures r.Some? <==> value.Some? && (IsHhmm(Trim(value.value)) || IsHhmmss(Trim(value.value)))
    ensures r.Some? ==> r.value[..5] == Trim(value.value)[..5]
  {
    if value.None? || |value.value| == 0 then None
    else
      var t := Trim(value.value);
      if IsHhmm(t) then
        var r := t + ":00";
        assert r[..5] == t;
        Some(r)
      else if IsHhmmss(t) then Some(t)
      else None
  }

  /** A normalised time is a fixed point of normalisation. */
  lemma NormalizeTimeIdempotent(s: string)
    requires IsHhmmss(s)
    ensures NormalizeTime(Some(s)) == Some(s)
  {
    TrimOfTrimmed(s);
  }

  /** A normalised time reads as a TIME and renders back to the same text. */
  lemma NormalizeTimeParses(value: Option<string>)
    requires NormalizeTime(value).Some?
    ensures ParseTime(NormalizeTime(value).value).Some?
    ensures Render(ParseTime(NormalizeTime(value).value).value) == NormalizeTime(value).value
  {
    RenderOfParse(NormalizeTime(value).value);
  }

  /**
   * `addOneHour` on a normalised time: the hour and minute read from the text plus one hour,
   * taken modulo a day, as "HH:MM:00". The input's seconds are dropped.
   */
  function AddOneHour(s: string): (r: string)
    requires IsHhmmss(s)
    ensures IsHhmmss(r)
    ensures ParseTime(r) == Some(Time(((Field(s, 0) * 60 + Field(s, 3) + 60) % 1440) / 60,
                                      ((Field(s, 0) * 60 + Field(s, 3) + 60) % 1440) % 60, 0))
  {
    var q := (Field(s, 0) * 60 + Field(s, 3) + 60) % 1440;
    var t := Time(q / 60, q % 60, 0);
    ParseOfRender(t);
    Pad2Digits(t.h);
    Pad2Digits(t.m);
    Pad2Digits(0);
    Render(t)
  }

  /** The result is always a time of day: before 24:00, and exactly one hour later modulo a day. */
  lemma AddOneHourWithinDay(s: string)
    requires IsHhmmss(s)
    requires Field(s, 3) < 60
    ensures var t := ParseTime(AddOneHour(s)).value;
      t.h < 24 && t.m < 60 && t.s == 0
      && Seconds(t) == (Field(s, 0) * 3600 + Field(s, 3) * 60 + 3600) % 86400
  {
    var x := Field(s, 0) * 60 + Field(s, 3) + 60;
    var q := x % 1440;
    var t := ParseTime(AddOneHour(s)).value;
    assert t == Time(q / 60, q % 60, 0);
    assert q == 60 * (q / 60) + q % 60;
    assert Seconds(t) == 60 * q;
    DayScale(x);
    assert Field(s, 0) * 3600 + Field(s, 3) * 60 + 3600 == 60 * x;
  }

  /** Minutes modulo a day, scaled to seconds, are seconds modulo a day. */
  lemma DayScale(x: nat)
    ensures (60 * x) % 86400 == 60 * (x % 1440)
  {
    var a, b := x / 1440, x % 1440;
    assert x == 1440 * a + b;
    assert 60 * x == 86400 * a + 60 * b;
    assert 0 <= 60 * b < 86400;
  }

  /** An hour past 23:30 wraps to the next morning. */
  lemma AddOneHourWraps()
    ensures AddOneHour("23:30:00") == "00:30:00"
  {
    assert Field("23:30:00", 0) == 23 && Field("23:30:00", 3) == 30;
    var r := AddOneHour("23:30:00");
    RenderOfParse(r);
    assert ParseTime(r) == Some(Time(0, 30, 0));
  }

  /** One entry of the `slots` array. */
  datatype SlotRequest = SlotRequest(day: Option<string>, start: Option<string>, maxSlots: int)

  /** The dedup key `${day}-${start}`: a weekday and a normalised start time. */
  type Key = (Weekday, string)

  /** The key of an entry, present when both its day and its start normalise. */
  function KeyOf(r: SlotRequest): (k: Option<Key>)
    ensures k.Some? ==> IsHhmmss(k.value.1)
    ensures k.Some? <==> NormalizeDay(r.day).Some? && NormalizeTime(r.start).Some?
  {
    var d := NormalizeDay(r.day);
    var s := NormalizeTime(r.start);
    if d.Some? && s.Some? then Some((d.value, s.value)) else None
  }

  /** Each entry reduced to its key (if valid) and its requested capacity. */
  function Candidates(rs: seq<SlotRequest>): (cs: seq<(Option<Key>, int)>)
    ensures |cs| == |rs|
    ensures forall i :: 0 <= i < |rs| ==> cs[i] == (KeyOf(rs[i]), rs[i].maxSlots)
  {
    seq(|rs|, i requires 0 <= i < |rs| => (KeyOf(rs[i]), rs[i].maxSlots))
  }

  /**
   * Reference definition of the dedup: the valid candidates whose key is neither in `seen` nor
   * on an earlier candidate, in order.
   */
  function Dedup(cs: seq<(Option<Key>, int)>, seen: set<Key>): (kept: seq<(Key, int)>)
    ensures |kept| <= |cs|
    decreases |cs|
  {
    if |cs| == 0 then []
    else if cs[0].0.Some? && cs[0].0.value !in seen then
      [(cs[0].0.value, cs[0].1)] + Dedup(cs[1..], seen + {cs[0].0.value})
    else Dedup(cs[1..], seen)
  }

  /** Every kept key is new and comes from some candidate. */
  lemma {:induction false} DedupFromInput(cs: seq<(Option<Key>, int)>, seen: set<Key>, j: nat)
    requires j < |Dedup(cs, seen)|
    ensures Dedup(cs, seen)[j].0 !in seen
    ensures exists i :: 0 <= i < |cs| && cs[i].0 == Some(Dedup(cs, seen)[j].0)
    decreases |cs|
  {
    var tail := cs[1..];
    if cs[0].0.Some? && cs[0].0.value !in seen {
      if j > 0 {
        DedupFromInput(tail, seen + {cs[0].0.value}, j - 1);
        var i :| 0 <= i < |tail| && tail[i].0 == Some(Dedup(tail, seen + {cs[0].0.value})[j - 1].0);
        assert cs[i + 1] == tail[i];
      } else {
        assert cs[0].0 == Some(Dedup(cs, seen)[0].0);
      }
    } else {
      DedupFromInput(tail, seen, j);
      var i :| 0 <= i < |tail| && tail[i].0 == Some(Dedup(tail, seen)[j].0);
      assert cs[i + 1] == tail[i];
    }
  }

  /** The kept keys are pairwise distinct. */
  lemma {:induction false} DedupDistinct(cs: seq<(Option<Key>, int)>, seen: set<Key>, j: nat, l: nat)
    requires j < l < |Dedup(cs, seen)|
    ensures Dedup(cs, seen)[j].0 != Dedup(cs, seen)[l].0
    decreases |cs|
  {
    var tail := cs[1..];
    if cs[0].0.Some? && cs[0].0.value !in seen {
      if j > 0 {
        DedupDistinct(tail, seen + {cs[0].0.value}, j - 1, l - 1);
      } else {
        DedupFromInput(tail, seen + {cs[0].0.value}, l - 1);
      }
    } else {
      DedupDistinct(tail, seen, j, l);
    }
  }

  /** A valid candidate's key not seen before is kept; `j` is its position among the kept keys. */
  lemma {:induction false} DedupCovers(cs: seq<(Option<Key>, int)>, seen: set<Key>, i: nat) returns (j: nat)
    requires i < |cs| && cs[i].0.Some?
    ensures cs[i].0.value !in seen ==> j < |Dedup(cs, seen)| && Dedup(cs, seen)[j].0 == cs[i].0.value
    decreases |cs|
  {
    var tail := cs[1..];
    var kept := Dedup(cs, seen);
    j := 0;
    if cs[0].0.Some? && cs[0].0.value !in seen {
      var k := cs[0].0.value;
      var rest := Dedup(tail, seen + {k});
      assert kept == [(k, cs[0].1)] + rest;
      if i == 0 || cs[i].0.value == k {
        assert cs[i].0.value == k;
      } else if cs[i].0.value !in seen {
        assert tail[i - 1] == cs[i];
        var j' := DedupCovers(tail, seen + {k}, i - 1);
        j := j' + 1;
        assert kept[j] == rest[j'];
      }
    } else if i > 0 {
      assert tail[i - 1] == cs[i];
      assert kept == Dedup(tail, seen);
      j := DedupCovers(tail, seen, i - 1);
    }
  }

  /** The slot the controller builds for a kept key: one hour long, capacity 1 when 0 is given. */
  function Build(k: Key, maxSlots: int): (s: Schedules.SlotInput)
    requires IsHhmmss(k.1)
    ensures s.day == k.0 && Render(s.start) == k.1 && s.kind == Schedules.PersonalKind
    ensures s.maxSlots != 0
  {
    RenderOfParse(k.1);
    Schedules.SlotInput(k.0, ParseTime(k.1).value, ParseTime(AddOneHour(k.1)).value, Schedules.PersonalKind,
      if maxSlots != 0 then maxSlots else 1)
  }

  /** The (day, start) of a slot, as a key. */
  function SlotKey(s: Schedules.SlotInput): Key {
    (s.day, Render(s.start))
  }

  /** The slots built for kept keys, in order. */
  function BuildAll(kept: seq<(Key, int)>): (out: seq<Schedules.SlotInput>)
    requires forall j :: 0 <= j < |kept| ==> IsHhmmss(kept[j].0.1)
    ensures |out| == |kept|
    ensures forall j :: 0 <= j < |kept| ==> out[j] == Build(kept[j].0, kept[j].1) && SlotKey(out[j]) == kept[j].0
  {
    seq(|kept|, j requires 0 <= j < |kept| && IsHhmmss(kept[j].0.1) => Build(kept[j].0, kept[j].1))
  }

  /** Keys of valid candidates are well-formed times, and so are the keys the dedup keeps. */
  lemma KeptWellFormed(rs: seq<SlotRequest>)
    ensures forall j :: 0 <= j < |Dedup(Candidates(rs), {})| ==> IsHhmmss(Dedup(Candidates(rs), {})[j].0.1)
  {
    var cs := Candidates(rs);
    forall j | 0 <= j < |Dedup(cs, {})|
      ensures IsHhmmss(Dedup(cs, {})[j].0.1)
    {
      DedupFromInput(cs, {}, j);
    }
  }

  /** Reference definition of the whole `slots.forEach` pass. */
  function Normalized(rs: seq<SlotRequest>): seq<Schedules.SlotInput> {
    KeptWellFormed(rs);
    BuildAll(Dedup(Candidates(rs), {}))
  }

  /**
   * The `slots.forEach` pass: each valid entry whose key has not been seen yet becomes a slot,
   * in input order.
   */
  method NormalizeSlots(rs: seq<SlotRequest>) returns (out: seq<Schedules.SlotInput>)
    ensures out == Normalized(rs)
    ensures |out| <= |rs|
  {
    var cs := Candidates(rs);
    var kept: seq<(Key, int)> := [];
    var seen: set<Key> := {};
    var i := 0;
    while i < |cs|
      invariant 0 <= i <= |cs|
      invariant kept + Dedup(cs[i..], seen) == Dedup(cs, {})
    {
      assert cs[i..][1..] == cs[i + 1..];
      var k := cs[i].0;
      if k.Some? && k.value !in seen {
        kept := kept + [(k.value, cs[i].1)];
        seen := seen + {k.value};
      }
      i := i + 1;
    }
    assert cs[|cs|..] == [];
    assert kept == Dedup(cs, {});
    KeptWellFormed(rs);
    out := BuildAll(kept);
  }

  /**
   * The pass's slots carry exactly the keys of the valid entries, each once.
   */
  lemma NormalizedKeys(rs: seq<SlotRequest>)
    ensures forall j, l :: 0 <= j < l < |Normalized(rs)| ==> SlotKey(Normalized(rs)[j]) != SlotKey(Normalized(rs)[l])
    ensures forall k :: (exists j :: 0 <= j < |Normalized(rs)| && SlotKey(Normalized(rs)[j]) == k) <==>
      (exists i :: 0 <= i < |rs| && KeyOf(rs[i]) == Some(k))
  {
    var cs := Candidates(rs);
    var kept := Dedup(cs, {});
    var out := Normalized(rs);
    KeptWellFormed(rs);
    assert out == BuildAll(kept);
    forall j, l | 0 <= j < l < |out|
      ensures SlotKey(out[j]) != SlotKey(out[l])
    {
      DedupDistinct(cs, {}, j, l);
    }
    forall k
      ensures (exists j :: 0 <= j < |out| && SlotKey(out[j]) == k) <==> (exists i :: 0 <= i < |rs| && KeyOf(rs[i]) == Some(k))
    {
      if j :| 0 <= j < |out| && SlotKey(out[j]) == k {
        assert kept[j].0 == k;
        DedupFromInput(cs, {}, j);
        var i :| 0 <= i < |cs| && cs[i].0 == Some(k);
        assert KeyOf(rs[i]) == Some(k);
      }
      if i :| 0 <= i < |rs| && KeyOf(rs[i]) == Some(k) {
        assert cs[i].0 == Some(k);
        var j := DedupCovers(cs, {}, i);
        assert SlotKey(out[j]) == k;
      }
    }
  }

  /** An entry whose day or start does not normalise contributes nothing. */
  lemma InvalidEntryDropped(rs: seq<SlotRequest>, r: SlotRequest)
    requires KeyOf(r).None?
    ensures Normalized(rs + [r]) == Normalized(rs)
  {
    assert Candidates(rs + [r]) == Candidates(rs) + [(None, r.maxSlots)];
    DedupInvalidLast(Candidates(rs), {}, r.maxSlots);
  }

  lemma {:induction false} DedupInvalidLast(cs: seq<(Option<Key>, int)>, seen: set<Key>, m: int)
    ensures Dedup(cs + [(None, m)], seen) == Dedup(cs, seen)
    decreases |cs|
  {
    if |cs| == 0 {
      assert Dedup([(None, m)], seen) == Dedup([], seen);
    } else {
      assert (cs + [(None, m)])[1..] == cs[1..] + [(None, m)];
      DedupInvalidLast(cs[1..], seen, m);
      if cs[0].0.Some? {
        DedupInvalidLast(cs[1..], seen + {cs[0].0.value}, m);
      }
    }
  }

  /**
   * `createTrainerSchedule`: 401 without an admin, 400 without a trainer, 400 when `slots` is
   * not an array, 400 when no valid slot remains; otherwise the trainer's week is replaced by
   * the normalised slots and the answer is their number.
   */
  method CreateSchedule(db: Db, admin: Option<nat>, trainer: Option<nat>, slots: Option<seq<SlotRequest>>)
    returns (h: Handled<nat>)
    ensures !Present(admin) ==> h == Handled(db, Fail(NotSignedIn))
    ensures Present(admin) && !Present(trainer) ==> h == Handled(db, Fail(Missing("trainer_id")))
    ensures Present(admin) && Present(trainer) && slots.None? ==> h == Handled(db, Fail(Invalid("slots")))
    ensures h.reply.Fail? ==> h.db == db
    ensures Present(admin) && Present(trainer) && slots.Some? ==>
      var out := Normalized(slots.value);
      && (|out| == 0 ==> h == Handled(db, Fail(NoValidSlots)))
      && (|out| > 0 ==> h == Handled(Schedules.Replace(db, trainer.value, out, admin), Ok(|out|)))
  {
    if !Present(admin) {
      return Handled(db, Fail(NotSignedIn));
    }
    if !Present(trainer) {
      return Handled(db, Fail(Missing("trainer_id")));
    }
    if slots.None? {
      return Handled(db, Fail(Invalid("slots")));
    }
    var out := NormalizeSlots(slots.value);
    if |out| == 0 {
      return Handled(db, Fail(NoValidSlots));
    }
    return Handled(Schedules.Replace(db, trainer.value, out, admin), Ok(|out|));
  }

  /**
   * `updateTrainerSchedule`: 404 for an unknown slot before any validation; 400 when the day,
   * start or end does not normalise (the end is not compared with the start); a trainer or a
   * slot count left out of the request is bound as `undefined`, which the driver refuses, so the
   * answer is a 500; otherwise the row is rewritten.
   */
  function UpdateSchedule(db: Db, id: nat, trainer: Option<nat>, day: Option<string>, start: Option<string>,
                          end: Option<string>, maxSlots: Option<int>): (h: Handled<bool>)
    ensures (forall k :: 0 <= k < |db.schedule| ==> db.schedule[k].id != id) ==> h == Handled(db, Fail(Absent("schedule slot")))
    ensures !h.reply.Ok? ==> h.db == db
    ensures (exists k :: 0 <= k < |db.schedule| && db.schedule[k].id == id) ==>
      if NormalizeDay(day).None? || NormalizeTime(start).None? || NormalizeTime(end).None?
      then h == Handled(db, Fail(Invalid("slot")))
      else if trainer.None? || maxSlots.None? then h == Handled(db, Crash(UndefinedBind))
      else h.reply == Ok(true) && h.db == Schedules.Update(db, id, trainer.value, NormalizeDay(day).value,
        ParseTime(NormalizeTime(start).value).value, ParseTime(NormalizeTime(end).value).value, maxSlots.value).0
  {
    if FindId(db.schedule, id).None? then Handled(db, Fail(Absent("schedule slot")))
    else
      var d := NormalizeDay(day);
      var s := NormalizeTime(start);
      var e := NormalizeTime(end);
      if d.None? || s.None? || e.None? then Handled(db, Fail(Invalid("slot")))
      else if trainer.None? || maxSlots.None? then Handled(db, Crash(UndefinedBind))
      else
        var r := Schedules.Update(db, id, trainer.value, d.value, ParseTime(s.value).value, ParseTime(e.value).value, maxSlots.value);
        if !r.1 then Handled(db, Fail(Absent("schedule slot"))) else Handled(r.0, Ok(true))
  }

  /** Editing a slot through the endpoint keeps the store well keyed, whatever the answer. */
  lemma UpdateScheduleKeepsValid(db: Db, id: nat, trainer: Option<nat>, day: Option<string>, start: Option<string>,
                                 end: Option<string>, maxSlots: Option<int>)
    requires Valid(db)
    ensures Valid(UpdateSchedule(db, id, trainer, day, start, end, maxSlots).db)
  {
    var h := UpdateSchedule(db, id, trainer, day, start, end, maxSlots);
    if h.reply.Ok? {
      Schedules.UpdateKeepsValid(db, id, trainer.value, NormalizeDay(day).value, ParseTime(NormalizeTime(start).value).value,
        ParseTime(NormalizeTime(end).value).value, maxSlots.value);
    }
  }

  /**
   * Any existing slot can be rewritten with a valid day and two "HH:MM" times, whatever their
   * order: the end is never compared with the start.
   */
  lemma UpdateIgnoresOrder(db: Db, id: nat, trainer: nat, k: nat, day: string, w: Weekday, start: string, end: string)
    requires k < |db.schedule| && db.schedule[k].id == id
    requires Lower(day) == Name(w) && IsHhmm(start) && IsHhmm(end)
    ensures UpdateSchedule(db, id, Some(trainer), Some(day), Some(start), Some(end), Some(1)).reply == Ok(true)
  {
    NormalizeDayAcceptsNames(day, w);
    TrimOfTrimmed(start);
    TrimOfTrimmed(end);
  }
}
