/** The year strip of the history view: one column per week, Sunday on top,
    from the Sunday on or before January 1 to the Saturday on or after
    December 31, with month labels above the columns. */
module HistoryGrid {
  import opened Wrappers
  import opened DateMath
  import opened JsDate
  import opened DateStrings
  import opened Logs
  import opened MonthCalendar

  /** January 1 and December 31 of the year the Date constructor builds for `year`. */
  function FirstOfYear(year: int): int
  {
    DaysBeforeYear(ConstructorYear(year))
  }

  function LastOfYear(year: int): int
  {
    DaysBeforeYear(ConstructorYear(year) + 1) - 1
  }

  lemma YearBounds(year: int)
    ensures NewDate(year, 0, 1).day == FirstOfYear(year)
    ensures NewDate(year, 11, 31).day == LastOfYear(year)
    ensures LastOfYear(year) - FirstOfYear(year) + 1 == YearLength(ConstructorYear(year))
  {
    YearStep(ConstructorYear(year));
  }

  lemma YearSpan(year: int)
    ensures LastOfYear(year) - FirstOfYear(year) == if IsLeapYear(ConstructorYear(year)) then 365 else 364
  {
    YearStep(ConstructorYear(year));
  }

  /** `calendarStart`: January 1 moved back by its weekday with `setDate`. */
  method CalendarStart(year: int) returns (calendarStart: Moment)
    ensures calendarStart.ms == 0
    ensures Weekday(calendarStart.day) == 0
    ensures calendarStart.day <= FirstOfYear(year) < calendarStart.day + 7
    ensures FirstOfYear(year) - calendarStart.day == Weekday(FirstOfYear(year))
  {
    YearBounds(year);
    var firstDayOfYear := NewDate(year, 0, 1);
    var startOffset := Day(firstDayOfYear);
    calendarStart := firstDayOfYear;
    SetDateShift(calendarStart, -startOffset);
    calendarStart := SetDate(calendarStart, Date(calendarStart) - startOffset);
    assert calendarStart == Moment(FirstOfYear(year) - Weekday(FirstOfYear(year)), 0);
    BackToSunday(FirstOfYear(year));
  }

  lemma BackToSunday(n: int)
    ensures Weekday(n - Weekday(n)) == 0
  {
    WeekdayAdd(n - Weekday(n), Weekday(n));
  }

  /** The first Sunday after day e. */
  function SundayAfter(e: int): (s: int)
    ensures e < s <= e + 7 && Weekday(s) == 0
    ensures forall x :: e < x < s ==> Weekday(x) != 0
  {
    WeekdayAdd(e, 7 - Weekday(e));
    assert forall x :: e < x < e + 7 - Weekday(e) ==> Weekday(x) == Weekday(e) + (x - e) by {
      forall x | e < x < e + 7 - Weekday(e) ensures Weekday(x) == Weekday(e) + (x - e) {
        WeekdayAdd(e, x - e);
      }
    }
    e + 7 - Weekday(e)
  }

  /** `daysInYear`: the loop that copies `d` and advances it with
      `d.setDate(d.getDate() + 1)` while `d <= end || d.getDay() !== 0`. */
  method DaysInYear(year: int) returns (days: seq<Moment>, calendarStart: Moment)
    ensures Weekday(calendarStart.day) == 0
    ensures calendarStart.day <= FirstOfYear(year) < calendarStart.day + 7
    ensures forall i :: 0 <= i < |days| ==> days[i] == Moment(calendarStart.day + i, 0)
    ensures calendarStart.day + |days| == SundayAfter(LastOfYear(year))
    ensures |days| % 7 == 0
    ensures LastOfYear(year) < calendarStart.day + |days|
  {
    YearBounds(year);
    var end := NewDate(year, 11, 31);
    calendarStart := CalendarStart(year);
    var stop := SundayAfter(end.day);
    days := [];
    var d := calendarStart;
    while !Before(end, d) || Day(d) != 0
      invariant d == Moment(calendarStart.day + |days|, 0)
      invariant forall i :: 0 <= i < |days| ==> days[i] == Moment(calendarStart.day + i, 0)
      invariant d.day <= stop
      decreases stop - d.day
    {
      days := days + [d];
      SetDateShift(d, 1);
      d := SetDate(d, Date(d) + 1);
    }
    WeekdayAdd(calendarStart.day, |days|);
  }

  /** Every day of the year is in the list exactly once, at its distance
      from the calendar start. */
  lemma YearDaysOnce(year: int, days: seq<Moment>, calendarStart: Moment)
    requires forall i :: 0 <= i < |days| ==> days[i] == Moment(calendarStart.day + i, 0)
    requires calendarStart.day <= FirstOfYear(year) && LastOfYear(year) < calendarStart.day + |days|
    ensures forall n :: FirstOfYear(year) <= n <= LastOfYear(year) ==>
      0 <= n - calendarStart.day < |days| && days[n - calendarStart.day] == Moment(n, 0)
    ensures forall i, j :: 0 <= i < |days| && 0 <= j < |days| && days[i] == days[j] ==> i == j
  {
  }

  /** The strip has 53 week columns, or 54 exactly when the year is a leap
      year starting on a Saturday. */
  lemma WeekColumns(year: int, days: seq<Moment>, calendarStart: Moment)
    requires Weekday(calendarStart.day) == 0
    requires calendarStart.day <= FirstOfYear(year) < calendarStart.day + 7
    requires calendarStart.day + |days| == SundayAfter(LastOfYear(year))
    ensures |days| / 7 == 53 || |days| / 7 == 54
    ensures |days| / 7 == 54 <==> IsLeapYear(ConstructorYear(year)) && Weekday(FirstOfYear(year)) == 6
  {
    YearSpan(year);
    SundayOffset(calendarStart.day, FirstOfYear(year));
    StripLength(FirstOfYear(year), LastOfYear(year), calendarStart.day, |days|, IsLeapYear(ConstructorYear(year)));
  }

  /** A day less than a week after a Sunday is its weekday's number of days after it. */
  lemma SundayOffset(s: int, j: int)
    requires Weekday(s) == 0 && s <= j < s + 7
    ensures j - s == Weekday(j)
  {
    WeekdayAdd(s, j - s);
  }

  lemma StripLength(j: int, e: int, start: int, n: int, leap: bool)
    requires e - j == if leap then 365 else 364
    requires j - start == Weekday(j)
    requires start + n == SundayAfter(e)
    ensures n / 7 == 53 || n / 7 == 54
    ensures n / 7 == 54 <==> leap && Weekday(j) == 6
  {
    var w := Weekday(j);
    WeekdayAdd(j, e - j);
    assert SundayAfter(e) == e + 7 - Weekday(e);
    assert n == (e - j) + 7 - Weekday(e) + w;
    if leap {
      assert Weekday(e) == (w + 365) % 7 == (w + 1) % 7;
    } else {
      assert Weekday(e) == (w + 364) % 7 == w;
    }
  }

  /** `Math.floor((monthStart - calendarStart) / (7 * 24 * 60 * 60 * 1000))`
      with whole days of 86400000 ms: the week column of the 1st of month i. */
  function WeekIndex(year: int, i: int, calendarStart: Moment): int
  {
    WeekOf(TimeValue(NewDate(year, i, 1)) - TimeValue(calendarStart))
  }

  /** Whole weeks in a span of `ms` milliseconds, rounded down. */
  function WeekOf(ms: int): int
  {
    ms / (7 * MsPerDay)
  }

  lemma WeeksOfDays(k: int)
    ensures WeekOf(k * MsPerDay) == k / 7
  {
    var q, r := k / 7, k % 7;
    assert k * MsPerDay == q * (7 * MsPerDay) + r * MsPerDay;
    assert 0 <= r * MsPerDay < 7 * MsPerDay;
  }

  /** The month labels: January is in column 0, and each later month's
      column is at least the previous month's. */
  lemma MonthLabelColumns(year: int, calendarStart: Moment, i: int, j: int)
    requires calendarStart.ms == 0
    requires calendarStart.day <= FirstOfYear(year) < calendarStart.day + 7
    requires 0 <= i <= j < 12
    ensures WeekIndex(year, 0, calendarStart) == 0
    ensures WeekIndex(year, i, calendarStart) <= WeekIndex(year, j, calendarStart)
    ensures 0 <= WeekIndex(year, j, calendarStart) <= 52
  {
    var off := FirstOfYear(year) - calendarStart.day;
    var di := MonthOffset(year, calendarStart, i);
    var dj := MonthOffset(year, calendarStart, j);
    var d0 := MonthOffset(year, calendarStart, 0);
    MonthsOrdered(ConstructorYear(year), i, j);
    ColumnBounds(off, di, dj);
  }

  /** The 1st of month i is DaysBeforeMonth days into the year, so
      `monthStart - calendarStart` is that many whole days past the offset. */
  lemma MonthOffset(year: int, calendarStart: Moment, i: int) returns (d: int)
    requires calendarStart.ms == 0
    requires 0 <= i < 12
    ensures d == DaysBeforeMonth(ConstructorYear(year), i)
    ensures WeekIndex(year, i, calendarStart) == WeekOf((FirstOfYear(year) - calendarStart.day + d) * MsPerDay)
  {
    d := DaysBeforeMonth(ConstructorYear(year), i);
    MakeDayInRange(ConstructorYear(year), i, 1);
    var first := NewDate(year, i, 1);
    assert first.day == FirstOfYear(year) + d;
    MidnightDifference(first, calendarStart);
  }

  lemma MidnightDifference(a: Moment, b: Moment)
    requires a.ms == 0 && b.ms == 0
    ensures TimeValue(a) - TimeValue(b) == (a.day - b.day) * MsPerDay
  {
  }

  lemma MonthsOrdered(y: int, i: int, j: int)
    requires 0 <= i <= j < 12
    ensures 0 <= DaysBeforeMonth(y, i) <= DaysBeforeMonth(y, j) <= 335
  {
  }

  lemma ColumnBounds(off: int, a: int, b: int)
    requires 0 <= off < 7 && 0 <= a <= b <= 335
    ensures WeekOf((off + 0) * MsPerDay) == 0
    ensures WeekOf((off + a) * MsPerDay) <= WeekOf((off + b) * MsPerDay)
    ensures 0 <= WeekOf((off + b) * MsPerDay) <= 52
  {
    WeeksOfDays(off);
    WeeksOfDays(off + a);
    WeeksOfDays(off + b);
  }

  /** The day of the UTC date of local instant t, for a local time zone
      `tzOffset` minutes behind UTC (`getTimezoneOffset()`). */
  function UtcDay(t: Moment, tzOffset: int): int
  {
    (TimeValue(t) + tzOffset * 60000) / MsPerDay
  }

  /** `t.toISOString().split("T")[0]`. */
  function UtcDateKey(t: Moment, tzOffset: int): string
  {
    IsoDateString(FromDay(UtcDay(t, tzOffset)))
  }

  /** The UTC date of a local midnight is the same day at UTC and west of
      it, and the previous day east of it (offsets within a day). */
  lemma MidnightUtcDay(day: int, tzOffset: int)
    requires -1440 < tzOffset < 1440
    ensures UtcDay(Moment(day, 0), tzOffset) == if tzOffset < 0 then day - 1 else day
  {
    var tv := day * MsPerDay + tzOffset * 60000;
    if tzOffset < 0 {
      assert (day - 1) * MsPerDay <= tv < day * MsPerDay;
    } else {
      assert day * MsPerDay <= tv < (day + 1) * MsPerDay;
    }
  }

  /** One day of the strip. */
  datatype HistoryCell = HistoryCell(
    key: string,
    currentYear: bool,
    log: Option<Log>,
    selected: bool,
    isToday: bool,
    future: bool,
    disabled: bool,
    hidden: bool,
    colour: Option<Colour>)

  /** The cell of the strip for the local midnight `dateObj`, keyed by
      `date`, with `todayDate` the key of today. */
  function CellFor(year: int, dateObj: Moment, date: string, todayDate: string, logs: seq<Log>,
                   selectedDate: string, now: Moment): (c: HistoryCell)
    ensures c.key == date
    ensures c.log.Some? ==> c.log.value in logs && c.log.value.date == date
    ensures c.log.None? <==> forall i :: 0 <= i < |logs| ==> logs[i].date != date
    ensures c.selected <==> selectedDate == date
    ensures c.isToday <==> todayDate == date
    ensures c.future <==> Before(now, dateObj)
    ensures c.hidden <==> FullYear(dateObj) != year
    ensures c.disabled <==> c.hidden || c.future
    ensures c.colour.None? <==> c.hidden
    ensures !c.hidden ==> c.colour == Some(CellColour(MoodMetric, c.log))
  {
    var currentYear := FullYear(dateObj) == year;
    var log := LookupLog(logs, date);
    LookupMissing(logs, date);
    var future := Before(now, dateObj);
    HistoryCell(date, currentYear, log, selectedDate == date, todayDate == date,
                future, !currentYear || future, !currentYear,
                if !currentYear then None
                else if log.Some? then Some(MoodPalette(log.value.mood)) else Some(NoLog))
  }

  /** The cell as the strip builds it: keyed by the UTC date of `dateObj`
      (`toISOString().split("T")[0]`), today keyed the same way. */
  function CellAt(year: int, dateObj: Moment, logs: seq<Log>, selectedDate: string,
                  now: Moment, tzOffset: int): HistoryCell
  {
    CellFor(year, dateObj, UtcDateKey(dateObj, tzOffset), UtcDateKey(now, tzOffset), logs, selectedDate, now)
  }

  /** For a year the Date constructor takes literally, a strip day is hidden
      and disabled exactly when it is padding outside the year, and otherwise
      disabled exactly when it is after today. */
  lemma CellStatus(year: int, day: int, logs: seq<Log>, selectedDate: string, now: Moment, tzOffset: int)
    requires ValidMoment(now) && !(0 <= year <= 99)
    ensures var c := CellAt(year, Moment(day, 0), logs, selectedDate, now, tzOffset);
      (c.hidden <==> day < FirstOfYear(year) || LastOfYear(year) < day)
      && (c.future <==> day > now.day)
      && (c.disabled <==> day < FirstOfYear(year) || LastOfYear(year) < day || day > now.day)
  {
    YearOfDay(day, year);
    MidnightAfter(day, now);
  }

  /** At UTC or west of it a cell's key is its own local date; east of it
      the key names the previous day. */
  lemma CellKeyDate(year: int, day: int, logs: seq<Log>, selectedDate: string, now: Moment, tzOffset: int)
    requires ValidMoment(now) && -1440 < tzOffset < 1440
    ensures CellAt(year, Moment(day, 0), logs, selectedDate, now, tzOffset).key ==
      IsoDateString(FromDay(if tzOffset < 0 then day - 1 else day))
  {
    MidnightUtcDay(day, tzOffset);
  }

  /** A zone one hour east of UTC (offset -60): the cell of January 1, 2025
      is keyed "2024-12-31", so a log saved for "2025-01-01" does not show in it. */
  lemma HistoryKeyEastOfUtc()
    ensures var day := DayNumber(Ymd(2025, 0, 1));
      var l := Log(None, None, "2025-01-01", 4, false, [], 0, None, None);
      var c := CellAt(2025, Moment(day, 0), [l], "", Moment(day, 43200000), -60);
      c.key == "2024-12-31" && c.log.None?
  {
    NewYearDays();
    var day := DayNumber(Ymd(2025, 0, 1));
    assert UtcDateKey(Moment(day, 0), -60) == "2024-12-31" by {
      MidnightUtcDay(day, -60);
      DayNumberRoundTrip(Ymd(2024, 11, 31));
      NewYearEveString();
    }
    assert "2024-12-31" != "2025-01-01" by {
      assert "2024-12-31"[3] != "2025-01-01"[3];
    }
  }

  lemma NewYearDays()
    ensures DayNumber(Ymd(2025, 0, 1)) == 739617
    ensures DayNumber(Ymd(2024, 11, 31)) == 739616
  {
    assert DaysBeforeYear(2025) == 739617;
    assert DaysBeforeYear(2024) == 739251;
  }

  lemma NewYearEveString()
    ensures IsoDateString(Ymd(2024, 11, 31)) == "2024-12-31"
  {
    assert FixedDigits(2024, 4) == "2024";
    assert FixedDigits(12, 2) == "12";
    assert FixedDigits(31, 2) == "31";
  }

  /** The cell as evidently intended: keyed by its local date, the form the
      logs and the other calendars use. */
  function LocalCellAt(year: int, dateObj: Moment, logs: seq<Log>, selectedDate: string,
                       now: Moment): HistoryCell
  {
    CellFor(year, dateObj, LocalDateString(FromDay(dateObj.day)), LocalDateString(FromDay(now.day)),
            logs, selectedDate, now)
  }

  /** In every time zone the intended cell of a four-digit-year day is keyed
      by that day's ISO 8601 date, shows the log saved under it, and is
      today's cell exactly on today. */
  lemma LocalCellKeyIsDay(year: int, day: int, logs: seq<Log>, selectedDate: string, now: Moment)
    requires 1000 <= FromDay(day).year <= 9999 && 1000 <= FromDay(now.day).year <= 9999
    ensures var c := LocalCellAt(year, Moment(day, 0), logs, selectedDate, now);
      c.key == IsoDateString(FromDay(day))
      && (c.log.None? <==> forall i :: 0 <= i < |logs| ==> logs[i].date != IsoDateString(FromDay(day)))
      && (c.isToday <==> day == now.day)
  {
    LocalIsIso(FromDay(day));
    LocalDateOrder(FromDay(now.day), FromDay(day));
  }
}
