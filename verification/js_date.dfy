/** The part of JavaScript's Date object that the calendar views use, on the
    local wall clock: a day number plus the milliseconds into that day.
    Daylight-saving transitions are not modelled, so every day has 86400000 ms. */
module JsDate {
  import opened DateMath

  const MsPerDay: int := 86400000

  /** A local instant: a day and a time of day. */
  datatype Moment = Moment(day: int, ms: int)

  predicate ValidMoment(t: Moment)
  {
    0 <= t.ms < MsPerDay
  }

  /** The time value that `<`, `<=` and `>` on Date objects compare. */
  function TimeValue(t: Moment): int
  {
    t.day * MsPerDay + t.ms
  }

  predicate Before(a: Moment, b: Moment)
  {
    TimeValue(a) < TimeValue(b)
  }

  /** Comparing valid instants is comparing (day, time of day) lexicographically. */
  lemma BeforeIsLexicographic(a: Moment, b: Moment)
    requires ValidMoment(a) && ValidMoment(b)
    ensures Before(a, b) <==> a.day < b.day || (a.day == b.day && a.ms < b.ms)
  {
    if a.day < b.day {
      assert a.day * MsPerDay + MsPerDay <= b.day * MsPerDay;
    } else if b.day < a.day {
      assert b.day * MsPerDay + MsPerDay <= a.day * MsPerDay;
    }
  }

  /** A local midnight is after a valid instant exactly when its day is later:
      this is the `dateObj > today` test of the calendar views. */
  lemma MidnightAfter(day: int, now: Moment)
    requires ValidMoment(now)
    ensures Before(now, Moment(day, 0)) <==> day > now.day
  {
    BeforeIsLexicographic(now, Moment(day, 0));
  }

  /** The year argument of the multi-argument Date constructor: 0..99 means 1900..1999. */
  function ConstructorYear(y: int): int
  {
    if 0 <= y <= 99 then 1900 + y else y
  }

  /** `new Date(y, m, d)`: local midnight of the normalised date. */
  function NewDate(y: int, m: int, d: int): (t: Moment)
    ensures ValidMoment(t) && t.ms == 0
  {
    Moment(MakeDay(ConstructorYear(y), m, d), 0)
  }

  function FullYear(t: Moment): int { FromDay(t.day).year }
  function Month(t: Moment): int { FromDay(t.day).month }
  function Date(t: Moment): int { FromDay(t.day).day }
  /** `getDay()`: 0 = Sunday. */
  function Day(t: Moment): int { Weekday(t.day) }

  /** `setDate(d)`: same year and month, day d (overflowing), same time. */
  function SetDate(t: Moment, d: int): Moment
  {
    Moment(MakeDay(FullYear(t), Month(t), d), t.ms)
  }

  /** `setMonth(m)`: keeps the day of month, which may overflow. */
  function SetMonth(t: Moment, m: int): Moment
  {
    Moment(MakeDay(FullYear(t), m, Date(t)), t.ms)
  }

  /** `setMonth(m, d)`. */
  function SetMonthDate(t: Moment, m: int, d: int): Moment
  {
    Moment(MakeDay(FullYear(t), m, d), t.ms)
  }

  /** `setFullYear(y)`: keeps month and day of month. */
  function SetFullYear(t: Moment, y: int): Moment
  {
    Moment(MakeDay(y, Month(t), Date(t)), t.ms)
  }

  /** `setFullYear(y, m, d)`. */
  function SetFullYearMonthDate(t: Moment, y: int, m: int, d: int): Moment
  {
    Moment(MakeDay(y, m, d), t.ms)
  }

  /** `t.setDate(t.getDate() + k)` moves t by exactly k days and keeps its time. */
  lemma SetDateShift(t: Moment, k: int)
    ensures SetDate(t, Date(t) + k) == Moment(t.day + k, t.ms)
  {
    var f := FromDay(t.day);
    assert FullYear(t) == f.year && Month(t) == f.month && Date(t) == f.day;
    MakeDayInRange(f.year, f.month, f.day + k);
    assert MakeDay(f.year, f.month, f.day + k) == DayNumber(f) + k;
  }

  /** The getters read back what `new Date(y, m, d)` was built from when the
      arguments form a valid date and y is not a two-digit year. */
  lemma NewDateFields(y: int, m: int, d: int)
    requires !(0 <= y <= 99)
    requires ValidDate(Ymd(y, m, d))
    ensures FullYear(NewDate(y, m, d)) == y
    ensures Month(NewDate(y, m, d)) == m
    ensures Date(NewDate(y, m, d)) == d
    ensures NewDate(y, m, d).day == DayNumber(Ymd(y, m, d))
  {
    MakeDayInRange(y, m, d);
    DayNumberRoundTrip(Ymd(y, m, d));
  }
}
