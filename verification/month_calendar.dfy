/** The month grid that both the mobile history view and the desktop calendar
    view render: weeks of seven slots, Sunday first, with leading blanks up to
    the weekday of the 1st and trailing blanks after the last day; and the
    status and colour of each day cell. */
module MonthCalendar {
  import opened Wrappers
  import opened DateMath
  import opened JsDate
  import opened DateStrings
  import opened Logs

  /** A (year, 0-based month) pair. */
  datatype YearMonth = YearMonth(year: int, month: int)

  predicate ValidMonth(s: YearMonth)
  {
    0 <= s.month < 12
  }

  /** Months counted from year 0: consecutive calendar months differ by one. */
  function Absolute(s: YearMonth): int
  {
    12 * s.year + s.month
  }

  predicate AtOrBefore(a: YearMonth, b: YearMonth)
  {
    Absolute(a) <= Absolute(b)
  }

  /** Valid months with the same absolute number are the same month. */
  lemma AbsoluteInjective(a: YearMonth, b: YearMonth)
    requires ValidMonth(a) && ValidMonth(b)
    ensures Absolute(a) == Absolute(b) <==> a == b
  {
  }

  /** The metric a calendar colours its cells by. */
  datatype Metric = MoodMetric | WorkoutMetric | AlcoholMetric

  /** Colour buckets of a cell.  `Undefined` is a palette lookup with a key
      the palette does not have, which renders as no colour class at all. */
  datatype Colour =
    | NoLog
    | MoodShade(mood: int)
    | WorkoutDone
    | WorkoutEmpty
    | AlcoholShade(drinks: int)
    | Undefined

  /** The `moodColors` palette, keyed 1..5. */
  function MoodPalette(k: int): Colour
  {
    if 1 <= k <= 5 then MoodShade(k) else Undefined
  }

  /** The `alcoholColors` palette, keyed 0..5. */
  function AlcoholPalette(k: int): Colour
  {
    if 0 <= k <= 5 then AlcoholShade(k) else Undefined
  }

  /** `log?.drinks ?? 0`. */
  function DrinksOrZero(log: Option<Log>): int
  {
    if log.Some? then log.value.drinks else 0
  }

  function Min(a: int, b: int): int
  {
    if a <= b then a else b
  }

  function Max(a: int, b: int): int
  {
    if a >= b then a else b
  }

  /** The colour bucket of a day cell for a metric and the day's log, if any. */
  function CellColour(metric: Metric, log: Option<Log>): (c: Colour)
    ensures metric == MoodMetric ==> (c == NoLog <==> log.None?)
    ensures metric == MoodMetric && log.Some? && 1 <= log.value.mood <= 5 ==>
      c == MoodShade(log.value.mood)
    ensures metric == WorkoutMetric ==>
      (c == WorkoutDone <==> log.Some? && log.value.workedOut) && (c == WorkoutDone || c == WorkoutEmpty)
    ensures metric == AlcoholMetric && DrinksOrZero(log) >= 0 ==>
      c == AlcoholShade(Min(DrinksOrZero(log), 5)) && 0 <= c.drinks <= 5
    ensures metric == AlcoholMetric && log.None? ==> c == AlcoholShade(0)
    ensures (log.None? || WellFormed(log.value)) ==> c != Undefined
  {
    match metric
    case MoodMetric => if log.None? then NoLog else MoodPalette(log.value.mood)
    case WorkoutMetric => if log.Some? && log.value.workedOut then WorkoutDone else WorkoutEmpty
    case AlcoholMetric => AlcoholPalette(Min(DrinksOrZero(log), 5))
  }

  /** The string key of day `day` of month `monthIndex` of `year`, built by
      hand as year, zero-padded 1-based month and zero-padded day. */
  function CellKey(year: int, monthIndex: int, day: int): string
  {
    LocalDateString(Ymd(year, monthIndex, day))
  }

  /** For a valid date with a four-digit year the cell key is the ISO 8601
      calendar date YYYY-MM-DD and names exactly that day. */
  lemma CellKeyIsIsoDate(year: int, monthIndex: int, day: int)
    requires ValidDate(Ymd(year, monthIndex, day)) && 1000 <= year <= 9999
    ensures CellKey(year, monthIndex, day) == IsoDateString(Ymd(year, monthIndex, day))
    ensures |CellKey(year, monthIndex, day)| == 10
    ensures ParseIsoDate(CellKey(year, monthIndex, day)) == Some(DayNumber(Ymd(year, monthIndex, day)))
  {
    var d := Ymd(year, monthIndex, day);
    LocalIsIso(d);
    ParseIsoRoundTrip(d);
  }

  /** Different days of four-digit years have different keys. */
  lemma CellKeysDistinct(a: Ymd, b: Ymd)
    requires ValidDate(a) && 1000 <= a.year <= 9999
    requires ValidDate(b) && 1000 <= b.year <= 9999
    ensures CellKey(a.year, a.month, a.day) == CellKey(b.year, b.month, b.day) <==> a == b
  {
    LocalDateOrder(a, b);
  }

  /** What a day cell shows: its key, the log found under that key, the colour
      bucket, whether it is in the future (and so disabled), and whether it is
      the selected date. */
  datatype DayCell = DayCell(key: string, log: Option<Log>, colour: Colour, future: bool, selected: bool)

  function Cell(year: int, monthIndex: int, day: int, logs: seq<Log>, selectedDate: string,
                metric: Metric, now: Moment): (c: DayCell)
    requires ValidMoment(now)
    ensures c.key == CellKey(year, monthIndex, day)
    ensures c.log.Some? ==> c.log.value in logs && c.log.value.date == c.key
    ensures c.log.None? <==> forall i :: 0 <= i < |logs| ==> logs[i].date != c.key
    ensures c.colour == CellColour(metric, c.log)
    ensures c.selected <==> selectedDate == c.key
    ensures c.future <==> MakeDay(ConstructorYear(year), monthIndex, day) > now.day
    ensures !(0 <= year <= 99) && ValidDate(Ymd(year, monthIndex, day)) ==>
      (c.future <==> DayNumber(Ymd(year, monthIndex, day)) > now.day)
  {
    var key := CellKey(year, monthIndex, day);
    var log := LookupLog(logs, key);
    LookupMissing(logs, key);
    var dateObj := NewDate(year, monthIndex, day);
    MidnightAfter(dateObj.day, now);
    assert 0 <= monthIndex < 12 ==> MakeDay(year, monthIndex, day) == DayNumber(Ymd(year, monthIndex, day)) by {
      if 0 <= monthIndex < 12 {
        MakeDayInRange(year, monthIndex, day);
      }
    }
    DayCell(key, log, CellColour(metric, log), Before(now, dateObj), selectedDate == key)
  }

  /** The slot at position i (row-major, 7 per row) of a month whose 1st falls
      on weekday `firstDay` and that has n days. */
  function Slot(firstDay: int, n: int, i: int): Option<int>
  {
    if firstDay <= i < firstDay + n then Some(i - firstDay + 1) else None
  }

  /** The week builder: `firstDay` blanks, then the days 1..n pushed one by
      one, a row closed every seven slots, and the last row padded to seven. */
  method WeekRows(firstDay: int, n: int) returns (weeks: seq<seq<Option<int>>>)
    requires 0 <= firstDay < 7 && 0 <= n
    ensures |weeks| == (firstDay + n + 6) / 7
    ensures forall r :: 0 <= r < |weeks| ==> |weeks[r]| == 7
    ensures forall r, c :: 0 <= r < |weeks| && 0 <= c < 7 ==> weeks[r][c] == Slot(firstDay, n, 7 * r + c)
    ensures forall r, c :: 0 <= r < |weeks| - 1 && 0 <= c < 7 && weeks[r][c].None? ==> r == 0 && c < firstDay
  {
    weeks := [];
    var currentWeek: seq<Option<int>> := seq(firstDay, _ => None);
    var day := 1;
    while day <= n
      invariant 1 <= day <= n + 1
      invariant |currentWeek| < 7
      invariant firstDay + day - 1 == 7 * |weeks| + |currentWeek|
      invariant forall r :: 0 <= r < |weeks| ==> |weeks[r]| == 7
      invariant forall r, c :: 0 <= r < |weeks| && 0 <= c < 7 ==> weeks[r][c] == Slot(firstDay, n, 7 * r + c)
      invariant forall c :: 0 <= c < |currentWeek| ==> currentWeek[c] == Slot(firstDay, n, 7 * |weeks| + c)
    {
      currentWeek := currentWeek + [Some(day)];
      if |currentWeek| == 7 {
        weeks := weeks + [currentWeek];
        currentWeek := [];
      }
      day := day + 1;
    }
    if |currentWeek| > 0 {
      while |currentWeek| < 7
        invariant |currentWeek| <= 7
        invariant forall c :: 0 <= c < |currentWeek| ==> currentWeek[c] == Slot(firstDay, n, 7 * |weeks| + c)
      {
        currentWeek := currentWeek + [None];
      }
      weeks := weeks + [currentWeek];
    }
  }

  /** `renderMonthGrid(year, monthIndex)`: the month length from
      `new Date(year, monthIndex + 1, 0)`, the weekday of
      `new Date(year, monthIndex, 1)`, and the week rows.  A month index out
      of 0..11 is normalised into the year, as the Date constructor does. */
  method MonthGrid(year: int, monthIndex: int) returns (weeks: seq<seq<Option<int>>>, firstDay: int, daysInMonth: int)
    ensures var y, m := ConstructorYear(year) + monthIndex / 12, monthIndex % 12;
      daysInMonth == DaysInMonth(y, m) && firstDay == Weekday(DayNumber(Ymd(y, m, 1)))
    ensures |weeks| == (firstDay + daysInMonth + 6) / 7
    ensures forall r :: 0 <= r < |weeks| ==> |weeks[r]| == 7
    ensures forall r, c :: 0 <= r < |weeks| && 0 <= c < 7 ==> weeks[r][c] == Slot(firstDay, daysInMonth, 7 * r + c)
    ensures forall r, c :: 0 <= r < |weeks| - 1 && 0 <= c < 7 && weeks[r][c].None? ==> r == 0 && c < firstDay
  {
    MonthShape(year, monthIndex);
    daysInMonth := Date(NewDate(year, monthIndex + 1, 0));
    firstDay := Day(NewDate(year, monthIndex, 1));
    weeks := WeekRows(firstDay, daysInMonth);
  }

  /** Day 0 of the next month is the last day of this one, and day 1 is the 1st,
      after normalising the month index. */
  lemma MonthShape(year: int, monthIndex: int)
    ensures var y, m := ConstructorYear(year) + monthIndex / 12, monthIndex % 12;
      Date(NewDate(year, monthIndex + 1, 0)) == DaysInMonth(y, m)
      && Day(NewDate(year, monthIndex, 1)) == Weekday(DayNumber(Ymd(y, m, 1)))
  {
    var cy := ConstructorYear(year);
    var y, m := cy + monthIndex / 12, monthIndex % 12;
    NormalisedMonthEnd(cy, monthIndex);
    assert NewDate(year, monthIndex + 1, 0).day == MakeDay(y, m + 1, 0);
    LastDayByOverflow(y, m);
    NormalisedMonthStart(cy, monthIndex);
  }

  lemma NormalisedMonthEnd(y: int, a: int)
    ensures MakeDay(y, a + 1, 0) == MakeDay(y + a / 12, a % 12 + 1, 0)
  {
    MakeDayAbsolute(y, a + 1, 0);
    MakeDayAbsolute(y + a / 12, a % 12 + 1, 0);
    assert 12 * (y + a / 12) + a % 12 + 1 == 12 * y + a + 1;
  }

  lemma NormalisedMonthStart(y: int, a: int)
    ensures MakeDay(y, a, 1) == DayNumber(Ymd(y + a / 12, a % 12, 1))
  {
  }

  function Flatten(rows: seq<seq<Option<int>>>): seq<Option<int>>
  {
    if |rows| == 0 then [] else Flatten(rows[..|rows| - 1]) + rows[|rows| - 1]
  }

  function Blanks(k: nat): seq<Option<int>>
  {
    seq(k, _ => None)
  }

  /** Some(1), Some(2), ..., Some(n). */
  function DayRun(n: nat): seq<Option<int>>
  {
    seq(n, i => Some(i + 1))
  }

  lemma {:induction false} FlattenRows(rows: seq<seq<Option<int>>>)
    requires forall r :: 0 <= r < |rows| ==> |rows[r]| == 7
    ensures |Flatten(rows)| == 7 * |rows|
    ensures forall r, c :: 0 <= r < |rows| && 0 <= c < 7 ==> Flatten(rows)[7 * r + c] == rows[r][c]
  {
    if |rows| > 0 {
      var prefix := rows[..|rows| - 1];
      FlattenRows(prefix);
      assert forall r :: 0 <= r < |prefix| ==> prefix[r] == rows[r];
    }
  }

  /** Read row by row, a month grid is `firstDay` blanks, then the days 1..n
      each exactly once and in increasing order, then blanks up to a whole week. */
  lemma MonthLayout(weeks: seq<seq<Option<int>>>, firstDay: int, n: int)
    requires 0 <= firstDay < 7 && 0 <= n
    requires |weeks| == (firstDay + n + 6) / 7
    requires forall r :: 0 <= r < |weeks| ==> |weeks[r]| == 7
    requires forall r, c :: 0 <= r < |weeks| && 0 <= c < 7 ==> weeks[r][c] == Slot(firstDay, n, 7 * r + c)
    ensures 0 <= 7 * |weeks| - firstDay - n < 7
    ensures Flatten(weeks) == Blanks(firstDay) + DayRun(n) + Blanks(7 * |weeks| - firstDay - n)
  {
    FlattenRows(weeks);
    var flat := Flatten(weeks);
    var layout := Blanks(firstDay) + DayRun(n) + Blanks(7 * |weeks| - firstDay - n);
    assert |flat| == |layout|;
    forall i | 0 <= i < |flat|
      ensures flat[i] == layout[i]
    {
      var r, c := i / 7, i % 7;
      assert i == 7 * r + c;
      assert flat[i] == weeks[r][c];
    }
  }
}
