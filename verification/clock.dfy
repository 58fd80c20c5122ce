/**
 * Times of day, weekdays and calendar dates.
 *
 * A time of day is what a MySQL TIME column holds (hours, minutes, seconds); its text form is
 * "HH:MM:SS". A calendar date is a day number counted from 1970-01-01, which was a Thursday.
 */
module Clock {
  import opened Wrappers
  import opened Text

  datatype Time = Time(h: nat, m: nat, s: nat)

  /** Seconds since midnight, the scale on which MySQL compares TIME values. */
  function Seconds(t: Time): nat {
    t.h * 3600 + t.m * 60 + t.s
  }

  /** How MySQL hands a TIME value to the application: "HH:MM:SS". */
  function Render(t: Time): string {
    Pad2(t.h) + ":" + Pad2(t.m) + ":" + Pad2(t.s)
  }

  /** `start_time.substring(0, 5)`, the "HH:MM" the application compares slots by. */
  function Hhmm(t: Time): string {
    Prefix(Render(t), 5)
  }

  predicate IsHhmm(s: string) {
    |s| == 5 && IsDigit(s[0]) && IsDigit(s[1]) && s[2] == ':' && IsDigit(s[3]) && IsDigit(s[4])
  }

  predicate IsHhmmss(s: string) {
    |s| == 8 && IsHhmm(s[..5]) && s[5] == ':' && IsDigit(s[6]) && IsDigit(s[7])
  }

  /** The two-digit field of a time text that starts at position i. */
  function Field(s: string, i: nat): nat
    requires i + 1 < |s| && IsDigit(s[i]) && IsDigit(s[i + 1])
  {
    DigitValue(s[i]) * 10 + DigitValue(s[i + 1])
  }

  /** `t.length === 5 ? t + ':00' : t`: a five-character "HH:MM" gets its seconds. */
  function WithSeconds(t: string): (r: string)
    ensures Prefix(r, 5) == Prefix(t, 5)
    ensures |t| == 5 ==> |r| == 8 && r[..5] == t
    ensures |t| != 5 ==> r == t
    ensures IsHhmm(t) ==> IsHhmmss(r)
  {
    if |t| == 5 then t + ":00" else t
  }

  /** Adding seconds twice adds nothing more. */
  lemma WithSecondsIdempotent(t: string)
    ensures WithSeconds(WithSeconds(t)) == WithSeconds(t)
  {
  }

  /** A well-formed "HH:MM" becomes a well-formed "HH:MM:SS" naming the same minute. */
  lemma WithSecondsParses(t: string)
    requires IsHhmm(t)
    ensures ParseTime(WithSeconds(t)).Some?
    ensures ParseTime(WithSeconds(t)).value == Time(Field(t, 0), Field(t, 3), 0)
  {
    var r := WithSeconds(t);
    assert r[..5] == t;
  }

  /** Reads a "DD:DD:DD" text as a TIME value; any other shape is rejected. */
  function ParseTime(s: string): (r: Option<Time>)
    ensures r.Some? <==> IsHhmmss(s)
    ensures r.Some? ==> r.value.h < 100 && r.value.m < 100 && r.value.s < 100
  {
    if IsHhmmss(s) then Some(Time(Field(s, 0), Field(s, 3), Field(s, 6))) else None
  }

  lemma Pad2OfField(s: string, i: nat)
    requires i + 1 < |s| && IsDigit(s[i]) && IsDigit(s[i + 1])
    ensures Pad2(Field(s, i)) == s[i..i + 2]
  {
    var n := Field(s, i);
    if n < 10 {
      assert DigitValue(s[i]) == 0;
      assert NatToString(n) == [DigitChar(n)];
    } else {
      assert NatToString(n / 10) == [DigitChar(n / 10)];
    }
  }

  /** Parsing then rendering reproduces the text exactly. */
  lemma RenderOfParse(s: string)
    requires IsHhmmss(s)
    ensures Render(ParseTime(s).value) == s
  {
    Pad2OfField(s, 0);
    Pad2OfField(s, 3);
    Pad2OfField(s, 6);
    assert s == s[0..2] + ":" + s[3..5] + ":" + s[6..8];
  }

  /** `s.split(':')` of an "HH:MM" text is its hour and minute parts. */
  lemma SplitHhmm(s: string)
    requires IsHhmm(s)
    ensures Split(s, ':') == [s[..2], s[3..]]
  {
    var xs := [s[..2], s[3..]];
    assert xs[1..] == [s[3..]];
    assert Join(xs, ':') == s[..2] + [':'] + s[3..];
    assert s == s[..2] + [':'] + s[3..];
    assert ':' !in s[..2] && ':' !in s[3..];
    SplitJoin(xs, ':');
  }

  lemma Pad2Digits(n: nat)
    requires n < 100
    ensures |Pad2(n)| == 2 && IsDigit(Pad2(n)[0]) && IsDigit(Pad2(n)[1])
    ensures DigitValue(Pad2(n)[0]) * 10 + DigitValue(Pad2(n)[1]) == n
  {
    if n >= 10 {
      assert NatToString(n / 10) == [DigitChar(n / 10)];
    }
  }

  /** Rendering then parsing gives back any time whose fields fit in two digits. */
  lemma ParseOfRender(t: Time)
    requires t.h < 100 && t.m < 100 && t.s < 100
    ensures ParseTime(Render(t)) == Some(t)
  {
    Pad2Digits(t.h);
    Pad2Digits(t.m);
    Pad2Digits(t.s);
    var r := Render(t);
    assert r[..5] == Pad2(t.h) + ":" + Pad2(t.m);
  }

  /** The first five characters of a rendered two-digit time are its "HH:MM". */
  lemma HhmmOfRender(t: Time)
    requires t.h < 100 && t.m < 100
    ensures Hhmm(t) == Pad2(t.h) + ":" + Pad2(t.m)
  {
    Pad2Digits(t.h);
    Pad2Digits(t.m);
  }

  datatype Weekday = Monday | Tuesday | Wednesday | Thursday | Friday | Saturday | Sunday

  /** The lower-case English name stored in `day_of_week` columns. */
  function Name(d: Weekday): string {
    match d
    case Monday => "monday"
    case Tuesday => "tuesday"
    case Wednesday => "wednesday"
    case Thursday => "thursday"
    case Friday => "friday"
    case Saturday => "saturday"
    case Sunday => "sunday"
  }

  /** Exact lookup of a weekday by its lower-case name. */
  function FromName(s: string): (r: Option<Weekday>)
    ensures r.Some? ==> Name(r.value) == s
  {
    if s == "monday" then Some(Monday)
    else if s == "tuesday" then Some(Tuesday)
    else if s == "wednesday" then Some(Wednesday)
    else if s == "thursday" then Some(Thursday)
    else if s == "friday" then Some(Friday)
    else if s == "saturday" then Some(Saturday)
    else if s == "sunday" then Some(Sunday)
    else None
  }

  /** Every weekday is found by its own name, so `FromName` accepts exactly the seven names. */
  lemma FromNameOfName(d: Weekday)
    ensures FromName(Name(d)) == Some(d)
  {
  }

  lemma NameInjective(a: Weekday, b: Weekday)
    requires Name(a) == Name(b)
    ensures a == b
  {
    FromNameOfName(a);
    FromNameOfName(b);
  }

  /** Every weekday name is lower-case ASCII, so lowercasing leaves it unchanged. */
  lemma NameIsLower(w: Weekday)
    ensures Lower(Name(w)) == Name(w)
  {
    var n := Name(w);
    assert forall i :: 0 <= i < |n| ==> 'a' <= n[i] <= 'z' by {
      match w
      case Monday => assert n == "monday";
      case Tuesday => assert n == "tuesday";
      case Wednesday => assert n == "wednesday";
      case Thursday => assert n == "thursday";
      case Friday => assert n == "friday";
      case Saturday => assert n == "saturday";
      case Sunday => assert n == "sunday";
    }
    LowerOfLowerAscii(n);
  }

  /** JavaScript's `getDay()` numbering: Sunday is 0, Saturday is 6. */
  function JsIndex(d: Weekday): nat {
    match d
    case Sunday => 0
    case Monday => 1
    case Tuesday => 2
    case Wednesday => 3
    case Thursday => 4
    case Friday => 5
    case Saturday => 6
  }

  function FromJsIndex(i: nat): (d: Weekday)
    requires i < 7
    ensures JsIndex(d) == i
  {
    if i == 0 then Sunday
    else if i == 1 then Monday
    else if i == 2 then Tuesday
    else if i == 3 then Wednesday
    else if i == 4 then Thursday
    else if i == 5 then Friday
    else Saturday
  }

  lemma JsIndexBound(d: Weekday)
    ensures JsIndex(d) < 7 && FromJsIndex(JsIndex(d)) == d
  {
  }

  /** Position in `FIELD(day_of_week, 'monday', …, 'sunday')`: Monday first, Sunday last. */
  function Rank(d: Weekday): nat {
    match d
    case Monday => 1
    case Tuesday => 2
    case Wednesday => 3
    case Thursday => 4
    case Friday => 5
    case Saturday => 6
    case Sunday => 7
  }

  /** A calendar date: days since 1970-01-01. */
  type Date = nat

  /** The weekday of a calendar date (1970-01-01 was a Thursday). */
  function WeekdayOf(date: Date): (d: Weekday)
    ensures JsIndex(d) == (date + 4) % 7
  {
    FromJsIndex((date + 4) % 7)
  }

  /** Moving a date by whole weeks keeps its weekday. */
  lemma WeekdayOfShift(date: Date, weeks: nat)
    ensures WeekdayOf(date + 7 * weeks) == WeekdayOf(date)
  {
    assert (date + 7 * weeks + 4) % 7 == (date + 4) % 7;
  }

  const SecondsPerDay: nat := 86400
}
