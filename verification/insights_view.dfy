/** The insights view: a week, month or year window moved by an offset
    from today, the logs whose dates fall in it (sorted by date), their
    average mood and the period label. */
module InsightsView {
  import opened Wrappers
  import opened DateMath
  import opened JsDate
  import opened DateStrings
  import opened Logs
  import opened MonthCalendar

  datatype View = WeekView | MonthView | YearView

  /** The view selector and the period arrows. */
  class PeriodState {
    var view: View
    var offset: int

    constructor()
      ensures view == WeekView && offset == 0
    {
      view := WeekView;
      offset := 0;
    }

    /** A view button: select the view and go back to the current period. */
    method SelectView(v: View)
      modifies this
      ensures view == v && offset == 0
    {
      view := v;
      offset := 0;
    }

    /** The left arrow: one period back, without bound. */
    method PrevPeriod()
      modifies this
      ensures view == old(view) && offset == old(offset) - 1
    {
      offset := offset - 1;
    }

    /** The right arrow: one period forward, without bound (future periods
        are reachable and simply hold no logs). */
    method NextPeriod()
      modifies this
      ensures view == old(view) && offset == old(offset) + 1
    {
      offset := offset + 1;
    }
  }

  /** The absolute month (12 * year + month) of an instant. */
  function MonthIndex(t: Moment): int
  {
    12 * FullYear(t) + Month(t)
  }

  /** The window [start, end) in closed form: both ends keep now's time of
      day.  Week: from 7 days before today, moved by whole weeks.  Month:
      the 1st of the month `offset` months from now's month to the 1st of
      the next.  Year: January 1 of now's year plus `offset` to January 1
      of the year after. */
  function WindowOf(view: View, offset: int, now: Moment): (w: (Moment, Moment))
    ensures w.0.ms == now.ms && w.1.ms == now.ms
    ensures w.0.day < w.1.day
  {
    match view
    case WeekView => (Moment(now.day - 7 + 7 * offset, now.ms), Moment(now.day + 7 * offset, now.ms))
    case MonthView => MonthWindow(MonthIndex(now) + offset, now.ms)
    case YearView => YearWindow(FullYear(now) + offset, now.ms)
  }

  /** From the 1st of absolute month a to the 1st of the next, at time ms. */
  function MonthWindow(a: int, ms: int): (w: (Moment, Moment))
    ensures w.0.ms == ms && w.1.ms == ms
    ensures w.0.day < w.1.day
  {
    MonthStartStep(a);
    (Moment(MonthStart(a), ms), Moment(MonthStart(a + 1), ms))
  }

  /** From January 1 of year y to January 1 of the next, at time ms. */
  function YearWindow(y: int, ms: int): (w: (Moment, Moment))
    ensures w.0.ms == ms && w.1.ms == ms
    ensures w.0.day < w.1.day
  {
    YearStep(y);
    (Moment(DaysBeforeYear(y), ms), Moment(DaysBeforeYear(y + 1), ms))
  }

  /** The 1st of the absolute month a reads back as year a / 12, month a % 12, day 1. */
  lemma MonthStartFields(a: int)
    ensures FromDay(MonthStart(a)) == Ymd(a / 12, a % 12, 1)
  {
    DayNumberRoundTrip(Ymd(a / 12, a % 12, 1));
  }

  /** The `start` and `end` Date objects: `start` is a copy of now moved with
      `setDate`, `setMonth(m, 1)` or `setFullYear(y, 0, 1)`, and `end` is a
      copy of `start` moved by one week, month or year with `setDate`,
      `setMonth` or `setFullYear`. */
  method ResolveWindow(view: View, offset: int, now: Moment) returns (start: Moment, end: Moment)
    ensures (start, end) == WindowOf(view, offset, now)
  {
    start := WindowStart(view, offset, now);
    end := WindowEnd(view, start, offset, now);
  }

  /** The first branch chain: `start` from a copy of now. */
  method WindowStart(view: View, offset: int, now: Moment) returns (start: Moment)
    ensures start == WindowOf(view, offset, now).0
  {
    start := now;
    if view == WeekView {
      WeekStartSetter(now, offset);
      start := SetDate(start, Date(now) - 7 + offset * 7);
    } else if view == MonthView {
      MonthStartSetter(now, offset);
      start := SetMonthDate(start, Month(now) + offset, 1);
    } else {
      YearStartSetter(now, offset);
      start := SetFullYearMonthDate(start, FullYear(now) + offset, 0, 1);
    }
  }

  /** The second branch chain: `end` from a copy of `start`. */
  method WindowEnd(view: View, start: Moment, ghost offset: int, ghost now: Moment) returns (end: Moment)
    requires start == WindowOf(view, offset, now).0
    ensures end == WindowOf(view, offset, now).1
  {
    end := start;
    if view == WeekView {
      DateSetter(end, Date(start) + 7);
      end := SetDate(end, Date(start) + 7);
    } else if view == MonthView {
      NextMonthSetter(end, MonthIndex(now) + offset, Month(start) + 1);
      end := SetMonth(end, Month(start) + 1);
    } else {
      NextYearSetter(end, FullYear(now) + offset, FullYear(start) + 1);
      end := SetFullYear(end, FullYear(start) + 1);
    }
  }

  /** `setDate(d)` moves by the difference to the current day of month. */
  lemma DateSetter(t: Moment, d: int)
    ensures SetDate(t, d) == Moment(t.day + (d - Date(t)), t.ms)
  {
    SetDateShift(t, d - Date(t));
  }

  /** `setDate(date - 7 + offset * 7)` goes back one week and on `offset` weeks. */
  lemma WeekStartSetter(now: Moment, offset: int)
    ensures SetDate(now, Date(now) - 7 + offset * 7) == WindowOf(WeekView, offset, now).0
  {
    DateSetter(now, Date(now) - 7 + offset * 7);
  }

  /** `setMonth(month + offset, 1)` lands on the 1st of the target month. */
  lemma MonthStartSetter(now: Moment, offset: int)
    ensures SetMonthDate(now, Month(now) + offset, 1) == WindowOf(MonthView, offset, now).0
  {
    MakeDayAbsolute(FullYear(now), Month(now) + offset, 1);
  }

  /** From the 1st of a month, `setMonth(getMonth() + 1)` reaches the 1st of the next. */
  lemma NextMonthSetter(t: Moment, a: int, m: int)
    requires t == MonthWindow(a, t.ms).0 && m == Month(t) + 1
    ensures SetMonth(t, m) == MonthWindow(a, t.ms).1
  {
    MonthStartLabel(a, t);
    assert Date(t) == 1 by {
      MonthStartFields(a);
    }
    NextMonthDay(a, FullYear(t), m, Date(t));
  }

  /** Day 1 of the month after absolute month a. */
  lemma NextMonthDay(a: int, y: int, k: int, d: int)
    requires y == a / 12 && k == a % 12 + 1 && d == 1
    ensures MakeDay(y, k, d) == MonthStart(a + 1)
  {
    MakeDayAbsolute(y, k, d);
    assert 12 * y + k == a + 1;
  }

  /** `setFullYear(year + offset, 0, 1)` lands on January 1 of the target year. */
  lemma YearStartSetter(now: Moment, offset: int)
    ensures SetFullYearMonthDate(now, FullYear(now) + offset, 0, 1) == WindowOf(YearView, offset, now).0
  {
  }

  /** From January 1, `setFullYear(getFullYear() + 1)` reaches January 1 of the next year. */
  lemma NextYearSetter(t: Moment, y: int, z: int)
    requires t == YearWindow(y, t.ms).0 && z == FullYear(t) + 1
    ensures SetFullYear(t, z) == YearWindow(y, t.ms).1
  {
    DayNumberRoundTrip(Ymd(y, 0, 1));
    assert MakeDay(y + 1, 0, 1) == DaysBeforeYear(y + 1);
  }

  /** The filter test `d >= start && d < end` for `d = new Date(log.date + "T00:00:00")`;
      an unparsable date is an invalid Date, for which both comparisons are false. */
  predicate InWindow(l: Log, start: Moment, end: Moment)
  {
    match ParseIsoDate(l.date)
    case None => false
    case Some(n) => !Before(Moment(n, 0), start) && Before(Moment(n, 0), end)
  }

  /** Because both ends keep now's time of day, a window of days s..e takes
      the days s..e-1 only at exact midnight, and the days s+1..e otherwise. */
  lemma InWindowDays(l: Log, s: int, e: int, ms: int)
    requires 0 <= ms < MsPerDay
    requires ParseIsoDate(l.date).Some?
    ensures var n := ParseIsoDate(l.date).value;
      InWindow(l, Moment(s, ms), Moment(e, ms)) <==>
        if ms == 0 then s <= n < e else s < n <= e
  {
    var n := ParseIsoDate(l.date).value;
    BeforeIsLexicographic(Moment(n, 0), Moment(s, ms));
    BeforeIsLexicographic(Moment(n, 0), Moment(e, ms));
  }

  /** Week view after midnight: the logs dated from 6 days before today
      through today, moved by whole weeks. */
  lemma WeekWindowDays(l: Log, offset: int, now: Moment)
    requires ValidMoment(now) && now.ms > 0
    requires ParseIsoDate(l.date).Some?
    ensures var w := WindowOf(WeekView, offset, now);
      var n := ParseIsoDate(l.date).value;
      InWindow(l, w.0, w.1) <==> now.day - 6 + 7 * offset <= n <= now.day + 7 * offset
  {
    InWindowDays(l, now.day - 7 + 7 * offset, now.day + 7 * offset, now.ms);
  }

  /** Month view after midnight: the first day of the month is left out and
      the first day of the next month is taken in. */
  lemma MonthWindowDays(l: Log, a: int, ms: int)
    requires 0 < ms < MsPerDay
    requires ParseIsoDate(l.date).Some?
    ensures var w := MonthWindow(a, ms);
      var n := ParseIsoDate(l.date).value;
      InWindow(l, w.0, w.1) <==> MonthStart(a) < n <= MonthStart(a + 1)
  {
    InWindowDays(l, MonthStart(a), MonthStart(a + 1), ms);
  }

  /** Year view after midnight: January 1 is left out and January 1 of the
      next year is taken in. */
  lemma YearWindowDays(l: Log, y: int, ms: int)
    requires 0 < ms < MsPerDay
    requires ParseIsoDate(l.date).Some?
    ensures var w := YearWindow(y, ms);
      var n := ParseIsoDate(l.date).value;
      InWindow(l, w.0, w.1) <==> DaysBeforeYear(y) < n <= DaysBeforeYear(y + 1)
  {
    InWindowDays(l, DaysBeforeYear(y), DaysBeforeYear(y + 1), ms);
  }

  /** `logs.filter(...)`: the logs in the window, in their original order. */
  function FilterWindow(logs: seq<Log>, start: Moment, end: Moment): (r: seq<Log>)
    ensures forall l :: multiset(r)[l] == if InWindow(l, start, end) then multiset(logs)[l] else 0
  {
    if |logs| == 0 then []
    else
      var rest := FilterWindow(logs[1..], start, end);
      assert logs == [logs[0]] + logs[1..];
      assert multiset(logs) == multiset{logs[0]} + multiset(logs[1..]);
      if InWindow(logs[0], start, end) then [logs[0]] + rest else rest
  }

  /** Non-strict order of date strings. */
  predicate DateAtMost(a: Log, b: Log)
  {
    a.date == b.date || LexLess(a.date, b.date)
  }

  predicate SortedByDate(s: seq<Log>)
  {
    forall i, j :: 0 <= i < j < |s| ==> DateAtMost(s[i], s[j])
  }

  /** x goes after every element whose date is not later than its own. */
  function InsertByDate(x: Log, s: seq<Log>): (r: seq<Log>)
    requires SortedByDate(s)
    ensures SortedByDate(r)
    ensures multiset(r) == multiset(s) + multiset{x}
  {
    if |s| == 0 then [x]
    else if LexLess(x.date, s[0].date) then
      assert forall j :: 0 <= j < |s| ==> DateAtMost(x, s[j]) by {
        forall j | 0 <= j < |s| ensures DateAtMost(x, s[j]) {
          if s[j].date != s[0].date {
            LexLessTransitive(x.date, s[0].date, s[j].date);
          }
        }
      }
      [x] + s
    else
      var rest := InsertByDate(x, s[1..]);
      assert s == [s[0]] + s[1..];
      LexLessTotal(x.date, s[0].date);
      assert forall e :: e in rest ==> DateAtMost(s[0], e) by {
        forall e | e in rest ensures DateAtMost(s[0], e) {
          assert e in multiset(rest);
          if e != x {
            assert e in s[1..];
          }
        }
      }
      [s[0]] + rest
  }

  /** `.sort((a, b) => a.date.localeCompare(b.date))`, as an insertion sort
      keyed on the date string. */
  function SortByDate(s: seq<Log>): (r: seq<Log>)
    ensures SortedByDate(r)
    ensures multiset(r) == multiset(s)
  {
    if |s| == 0 then []
    else
      assert s == s[..|s| - 1] + [s[|s| - 1]];
      InsertByDate(s[|s| - 1], SortByDate(s[..|s| - 1]))
  }

  /** `filteredData`: the window's logs sorted by date. */
  function FilteredData(logs: seq<Log>, view: View, offset: int, now: Moment): seq<Log>
  {
    var w := WindowOf(view, offset, now);
    SortByDate(FilterWindow(logs, w.0, w.1))
  }

  /** The result holds exactly the logs of the window, as often as the input
      does, in ascending date order. */
  lemma FilteredDataSpec(logs: seq<Log>, view: View, offset: int, now: Moment)
    ensures var r := FilteredData(logs, view, offset, now);
      var w := WindowOf(view, offset, now);
      SortedByDate(r)
      && (forall l :: l in r <==> l in logs && InWindow(l, w.0, w.1))
      && (forall l :: multiset(r)[l] == if InWindow(l, w.0, w.1) then multiset(logs)[l] else 0)
  {
    var w := WindowOf(view, offset, now);
    var f := FilterWindow(logs, w.0, w.1);
    var r := FilteredData(logs, view, offset, now);
    assert multiset(r) == multiset(f);
    forall l ensures l in r <==> l in logs && InWindow(l, w.0, w.1) {
      assert l in r <==> l in multiset(r);
      assert l in logs <==> l in multiset(logs);
    }
  }

  function MoodSum(s: seq<Log>): int
  {
    if |s| == 0 then 0 else MoodSum(s[..|s| - 1]) + s[|s| - 1].mood
  }

  /** The moods of well-formed logs add up to between 1 and 5 per log. */
  lemma {:induction false} MoodSumBounds(s: seq<Log>)
    requires forall l :: l in s ==> WellFormed(l)
    ensures |s| <= MoodSum(s) <= 5 * |s|
  {
    if |s| > 0 {
      assert s[|s| - 1] in s;
      assert forall l :: l in s[..|s| - 1] ==> l in s;
      MoodSumBounds(s[..|s| - 1]);
    }
  }

  /** `averageMood` before `toFixed(1)`: 0 for no logs, otherwise the mean mood. */
  function AverageMood(s: seq<Log>): real
  {
    if |s| == 0 then 0.0 else MoodSum(s) as real / |s| as real
  }

  /** With logs present and moods in 1..5, the average lies in 1..5; it is 0
      exactly when there are no logs. */
  lemma AverageMoodBounds(s: seq<Log>)
    requires forall l :: l in s ==> WellFormed(l)
    ensures |s| == 0 <==> AverageMood(s) == 0.0
    ensures |s| > 0 ==> 1.0 <= AverageMood(s) <= 5.0
  {
    if |s| > 0 {
      MoodSumBounds(s);
      MeanBounds(MoodSum(s) as real, |s| as real);
    }
  }

  lemma MeanBounds(x: real, n: real)
    requires n > 0.0 && n <= x <= 5.0 * n
    ensures 1.0 <= x / n <= 5.0
  {
    var m := x / n;
    assert m * n == x;
    assert (m - 1.0) * n == x - n;
    assert (5.0 - m) * n == 5.0 * n - x;
  }

  /** The week label. */
  function WeekLabel(offset: int): (s: string)
    ensures s == "THIS WEEK" <==> offset == 0
    ensures offset != 0 ==> s == "WEEK " + IntToString(offset)
  {
    if offset == 0 then "THIS WEEK"
    else
      assert ("WEEK " + IntToString(offset))[0] == 'W';
      "WEEK " + IntToString(offset)
  }

  /** The year label: the year of now moved by `setFullYear(year + offset)`. */
  function YearLabel(offset: int, now: Moment): int
  {
    FullYear(SetFullYear(now, FullYear(now) + offset))
  }

  /** Moving the year keeps month and day, which never leaves the target year
      (February 29 rolls to March 1), so the label is the window's year. */
  lemma YearLabelIsWindowYear(offset: int, now: Moment)
    ensures YearLabel(offset, now) == FullYear(now) + offset
  {
    SetFullYearStaysInYear(now, FullYear(now) + offset);
  }

  lemma SetFullYearStaysInYear(t: Moment, y: int)
    ensures FullYear(SetFullYear(t, y)) == y
  {
    var f := FromDay(t.day);
    assert Month(t) == f.month && Date(t) == f.day;
    MakeDayStaysInYear(y, f.month, f.day);
  }

  /** The month label: the year and month of now moved by
      `setMonth(month + offset)`, which keeps the day of month. */
  function MonthLabel(offset: int, now: Moment): YearMonth
  {
    var t := SetMonth(now, Month(now) + offset);
    YearMonth(FullYear(t), Month(t))
  }

  /** The label names the window's month when today's day of month exists in
      that month; otherwise the day overflows and the label names the month
      after the window. */
  lemma MonthLabelShift(offset: int, now: Moment)
    ensures var a := MonthIndex(now) + offset;
      Absolute(MonthLabel(offset, now)) ==
        if Date(now) <= DaysInMonth(a / 12, a % 12) then a else a + 1
    ensures ValidMonth(MonthLabel(offset, now))
  {
    MonthOfSetMonth(now, Month(now) + offset, MonthIndex(now) + offset);
  }

  /** On January 31, 2025 at noon, one month forward: the data window is
      February 2025, but the label names March 2025. */
  lemma MonthLabelPastWindow()
    ensures var now := Moment(DayNumber(Ymd(2025, 0, 31)), 43200000);
      FromDay(WindowOf(MonthView, 1, now).0.day) == Ymd(2025, 1, 1)
      && MonthLabel(1, now) == YearMonth(2025, 2)
  {
    var now := Moment(DayNumber(Ymd(2025, 0, 31)), 43200000);
    DayNumberRoundTrip(Ymd(2025, 0, 31));
    assert MonthIndex(now) + 1 == 24301;
    MonthStartFields(24301);
    MonthLabelShift(1, now);
    AbsoluteInjective(MonthLabel(1, now), YearMonth(2025, 2));
  }

  /** The month label as evidently intended: the month of the window's
      start, `setMonth(month + offset, 1)`. */
  function WindowMonthLabel(offset: int, now: Moment): YearMonth
  {
    var start := WindowOf(MonthView, offset, now).0;
    YearMonth(FullYear(start), Month(start))
  }

  /** The intended label always names the month `offset` months from now's. */
  lemma WindowMonthLabelMatchesWindow(offset: int, now: Moment)
    ensures ValidMonth(WindowMonthLabel(offset, now))
    ensures Absolute(WindowMonthLabel(offset, now)) == MonthIndex(now) + offset
  {
    var a := MonthIndex(now) + offset;
    MonthStartLabel(a, MonthWindow(a, now.ms).0);
  }

  lemma MonthStartLabel(a: int, t: Moment)
    requires t.day == MonthStart(a)
    ensures YearMonth(FullYear(t), Month(t)) == YearMonth(a / 12, a % 12)
    ensures Absolute(YearMonth(a / 12, a % 12)) == a
  {
    MonthStartFields(a);
  }

  /** `setMonth(k)` keeps the day of month: it lands in month k (rolled into
      the year) when that day exists there, and in the month after otherwise. */
  lemma MonthOfSetMonth(t: Moment, k: int, a: int)
    requires a == 12 * FullYear(t) + k
    ensures var u := SetMonth(t, k);
      0 <= Month(u) < 12
      && 12 * FullYear(u) + Month(u) == if Date(t) <= DaysInMonth(a / 12, a % 12) then a else a + 1
  {
    var f := FromDay(t.day);
    assert 1 <= f.day <= 31;
    MonthOfMakeDay(f.year, k, f.day);
  }

  /** The month that `MakeDay(y, m, d)` falls in, for a day of month 1..31:
      month m itself (rolled into its year) when the day exists there, and
      the month after when it overflows. */
  lemma MonthOfMakeDay(y: int, m: int, d: int)
    requires 1 <= d <= 31
    ensures var a := 12 * y + m;
      var f := FromDay(MakeDay(y, m, d));
      0 <= f.month < 12
      && 12 * f.year + f.month == if d <= DaysInMonth(a / 12, a % 12) then a else a + 1
  {
    var a := 12 * y + m;
    var ty, tm := a / 12, a % 12;
    assert 0 <= tm < 12 && 12 * ty + tm == a;
    assert MakeDay(y, m, d) == MakeDay(ty, tm, d) by {
      MakeDayRenormalised(y, m, d);
    }
    MonthOfDayInMonth(ty, tm, d);
  }

  /** Rolling the month into the year by absolute months does not move the day. */
  lemma MakeDayRenormalised(y: int, m: int, d: int)
    ensures MakeDay(y, m, d) == MakeDay((12 * y + m) / 12, (12 * y + m) % 12, d)
  {
    var a := 12 * y + m;
    assert a / 12 == y + m / 12 && a % 12 == m % 12;
    var ty, tm := a / 12, a % 12;
    assert 0 <= tm < 12;
    assert tm / 12 == 0 && tm % 12 == tm;
  }

  lemma MonthOfDayInMonth(y: int, m: int, d: int)
    requires 0 <= m < 12 && 1 <= d <= 31
    ensures var f := FromDay(MakeDay(y, m, d));
      0 <= f.month < 12
      && 12 * f.year + f.month == if d <= DaysInMonth(y, m) then 12 * y + m else 12 * y + m + 1
  {
    if d <= DaysInMonth(y, m) {
      MakeDayInRange(y, m, d);
      DayNumberRoundTrip(Ymd(y, m, d));
    } else {
      MakeDayOverflow(y, m, d);
      if m == 11 {
        assert (m + 1) / 12 == 1 && (m + 1) % 12 == 0;
      } else {
        assert (m + 1) / 12 == 0 && (m + 1) % 12 == m + 1;
      }
    }
  }
}
