/** The mobile history view: one month at a time with previous/next arrows
    bounded by the current month, and a year view listing months from the
    selected one back towards the earliest log (at least 12, at most 60). */
module MobileHistoryGrid {
  import opened Wrappers
  import opened DateMath
  import opened JsDate
  import opened DateStrings
  import opened Logs
  import opened MonthCalendar

  /** `handlePrevMonth`: January goes to December of the previous year. */
  function PrevOf(s: YearMonth): YearMonth
  {
    if s.month == 0 then YearMonth(s.year - 1, 11) else YearMonth(s.year, s.month - 1)
  }

  /** `handleNextMonth`: nothing happens on the current month; December goes
      to January of the next year. */
  function NextOf(s: YearMonth, current: YearMonth): YearMonth
  {
    if s == current then s
    else if s.month == 11 then YearMonth(s.year + 1, 0)
    else YearMonth(s.year, s.month + 1)
  }

  /** Going back is exactly one calendar month earlier and keeps the month in 0..11. */
  lemma PrevIsOneMonthEarlier(s: YearMonth)
    requires ValidMonth(s)
    ensures ValidMonth(PrevOf(s)) && Absolute(PrevOf(s)) == Absolute(s) - 1
  {
  }

  /** Going forward from a month before the current one is exactly one
      calendar month later, keeps the month in 0..11, and never passes the
      current month. */
  lemma NextNeverPassesCurrent(s: YearMonth, current: YearMonth)
    requires ValidMonth(s) && ValidMonth(current) && AtOrBefore(s, current)
    ensures ValidMonth(NextOf(s, current)) && AtOrBefore(NextOf(s, current), current)
    ensures s != current ==> Absolute(NextOf(s, current)) == Absolute(s) + 1
  {
    AbsoluteInjective(s, current);
  }

  /** For any state at or before the current month, next undoes prev. */
  lemma NextUndoesPrev(s: YearMonth, current: YearMonth)
    requires ValidMonth(s) && ValidMonth(current) && AtOrBefore(s, current)
    ensures NextOf(PrevOf(s), current) == s
  {
    assert PrevOf(s) != current;
  }

  /** The month picker state: the selected month and the month of today,
      which bounds the next arrow. */
  class MonthPicker {
    var selectedYear: int
    var selectedMonth: int
    const currentYear: int
    const currentMonth: int

    function Selected(): YearMonth
      reads this
    {
      YearMonth(selectedYear, selectedMonth)
    }

    function Current(): YearMonth
    {
      YearMonth(currentYear, currentMonth)
    }

    /** The month stays in 0..11 and never passes the current month. */
    predicate Valid()
      reads this
    {
      ValidMonth(Selected()) && ValidMonth(Current()) && AtOrBefore(Selected(), Current())
    }

    /** Both start at today's month. */
    constructor(today: Moment)
      ensures Valid()
      ensures Selected() == Current() == YearMonth(FullYear(today), Month(today))
    {
      selectedYear := FullYear(today);
      selectedMonth := Month(today);
      currentYear := FullYear(today);
      currentMonth := Month(today);
    }

    /** The next arrow is disabled on the current month. */
    function NextDisabled(): (b: bool)
      reads this
      ensures b <==> Selected() == Current()
    {
      selectedYear == currentYear && selectedMonth == currentMonth
    }

    method PrevMonth()
      requires Valid()
      modifies this
      ensures Valid()
      ensures Selected() == PrevOf(old(Selected()))
      ensures Absolute(Selected()) == Absolute(old(Selected())) - 1
    {
      if selectedMonth == 0 {
        selectedMonth := 11;
        selectedYear := selectedYear - 1;
      } else {
        selectedMonth := selectedMonth - 1;
      }
    }

    method NextMonth()
      requires Valid()
      modifies this
      ensures Valid()
      ensures Selected() == NextOf(old(Selected()), Current())
      ensures old(Selected()) == Current() ==> Selected() == Current()
      ensures old(Selected()) != Current() ==> Absolute(Selected()) == Absolute(old(Selected())) + 1
    {
      NextNeverPassesCurrent(Selected(), Current());
      var isCurrentMonth := selectedYear == currentYear && selectedMonth == currentMonth;
      if !isCurrentMonth {
        if selectedMonth == 11 {
          selectedMonth := 0;
          selectedYear := selectedYear + 1;
        } else {
          selectedMonth := selectedMonth + 1;
        }
      }
    }
  }

  /** `generateMonthsRange(startYear, startMonth, monthsBack)`: most recent first. */
  method GenerateMonthsRange(startYear: int, startMonth: int, monthsBack: int) returns (months: seq<YearMonth>)
    ensures |months| == Max(0, monthsBack)
    ensures |months| > 0 ==> months[0] == YearMonth(startYear, startMonth)
    ensures 0 <= startMonth < 12 ==>
      forall k :: 0 <= k < |months| ==>
        ValidMonth(months[k]) && Absolute(months[k]) == Absolute(YearMonth(startYear, startMonth)) - k
    ensures 0 <= startMonth < 12 ==>
      forall k :: 0 < k < |months| ==> months[k] == PrevOf(months[k - 1])
  {
    months := [];
    var y, m := startYear, startMonth;
    var i := 0;
    while i < monthsBack
      invariant 0 <= i <= Max(0, monthsBack)
      invariant |months| == i
      invariant i > 0 ==> months[0] == YearMonth(startYear, startMonth)
      invariant i == 0 ==> y == startYear && m == startMonth
      invariant 0 <= startMonth < 12 ==> 0 <= m < 12 && 12 * y + m == Absolute(YearMonth(startYear, startMonth)) - i
      invariant 0 <= startMonth < 12 ==> i > 0 ==> YearMonth(y, m) == PrevOf(months[i - 1])
      invariant 0 <= startMonth < 12 ==>
        forall k :: 0 <= k < i ==>
          ValidMonth(months[k]) && Absolute(months[k]) == Absolute(YearMonth(startYear, startMonth)) - k
      invariant 0 <= startMonth < 12 ==>
        forall k :: 0 < k < i ==> months[k] == PrevOf(months[k - 1])
    {
      months := months + [YearMonth(y, m)];
      m := m - 1;
      if m < 0 {
        m := 11;
        y := y - 1;
      }
      i := i + 1;
    }
  }

  /** `logs.reduce((a, b) => (a.date < b.date ? a : b))`: a log with the
      smallest date string; on equal dates the later log wins. */
  function EarliestLog(logs: seq<Log>): (e: Log)
    requires |logs| > 0
    ensures e in logs
  {
    if |logs| == 1 then logs[0]
    else
      var a := EarliestLog(logs[..|logs| - 1]);
      var b := logs[|logs| - 1];
      if LexLess(a.date, b.date) then a else b
  }

  /** No log has a date string below the earliest one. */
  lemma {:induction false} EarliestIsMinimal(logs: seq<Log>)
    requires |logs| > 0
    ensures forall i :: 0 <= i < |logs| ==> !LexLess(logs[i].date, EarliestLog(logs).date)
  {
    if |logs| > 1 {
      var prefix := logs[..|logs| - 1];
      EarliestIsMinimal(prefix);
      var a, b := EarliestLog(prefix), logs[|logs| - 1];
      assert EarliestLog(logs) == if LexLess(a.date, b.date) then a else b;
      forall i | 0 <= i < |logs|
        ensures !LexLess(logs[i].date, EarliestLog(logs).date)
      {
        if i < |logs| - 1 {
          assert logs[i] == prefix[i];
        }
        if LexLess(a.date, b.date) {
          if i == |logs| - 1 {
            LexLessAsymmetric(a.date, b.date);
          }
        } else {
          LexLessTotal(a.date, b.date);
          if i == |logs| - 1 {
            LexLessIrreflexive(b.date);
          } else if LexLess(logs[i].date, b.date) && LexLess(b.date, a.date) {
            LexLessTransitive(logs[i].date, b.date, a.date);
          }
        }
      }
    } else {
      LexLessIrreflexive(logs[0].date);
    }
  }

  /** `date.split("-").map(Number)`, its first two fields as a year and a
      0-based month; None when either is NaN (a missing field or a
      non-numeric one). */
  function LeadingYearMonth(date: string): Option<YearMonth>
  {
    var parts := Split(date);
    var ey := Number(parts[0]);
    var em := if |parts| >= 2 then Number(parts[1]) else None;
    if ey.None? || em.None? then None else Some(YearMonth(ey.value, em.value - 1))
  }

  function EarliestYearMonth(logs: seq<Log>): Option<YearMonth>
    requires |logs| > 0
  {
    LeadingYearMonth(EarliestLog(logs).date)
  }

  /** The number of months `computeYearMonthsList` asks for: 12 without logs,
      otherwise the months from the earliest log's month through the selected
      one, clamped to 12..60.  A NaN count (unparsable earliest date) makes the
      generator's loop run zero times, which is modelled as 0. */
  function YearMonthsCount(logs: seq<Log>, selected: YearMonth): (k: int)
    ensures |logs| == 0 ==> k == 12
    ensures |logs| > 0 && EarliestYearMonth(logs).Some? ==>
      k == Min(Max(Absolute(selected) - Absolute(EarliestYearMonth(logs).value) + 1, 12), 60)
    ensures k == 0 || 12 <= k <= 60
    ensures k == 0 <==> |logs| > 0 && EarliestYearMonth(logs).None?
  {
    if |logs| == 0 then 12
    else
      match EarliestYearMonth(logs)
      case None => 0
      case Some(e) =>
        var diff := (selected.year - e.year) * 12 + (selected.month - e.month);
        Min(Max(diff + 1, 12), 60)
  }

  /** A local date string with a non-negative year yields its year and
      0-based month. */
  lemma LeadingYearMonthOfLocalDate(d: Ymd)
    requires ValidDate(d) && 0 <= d.year
    ensures LeadingYearMonth(LocalDateString(d)) == Some(YearMonth(d.year, d.month))
  {
    var parts := Split(LocalDateString(d));
    SplitLocalDate(d);
    NumberOfNatToString(d.year);
    NumberOfNatToString(d.month + 1);
    assert Number(parts[0]) == Some(d.year);
    assert Number(parts[1]) == Some(d.month + 1);
  }

  /** When the earliest log's date is a local date string with a non-negative
      year, the count is the span from that log's month through the selected
      month, clamped to 12..60. */
  lemma CountFromEarliestDate(logs: seq<Log>, selected: YearMonth, d: Ymd)
    requires |logs| > 0 && ValidDate(d) && 0 <= d.year
    requires EarliestLog(logs).date == LocalDateString(d)
    ensures YearMonthsCount(logs, selected) ==
      Min(Max(Absolute(selected) - Absolute(YearMonth(d.year, d.month)) + 1, 12), 60)
  {
    LeadingYearMonthOfLocalDate(d);
  }

  /** `computeYearMonthsList()`: the months of the year view, most recent first. */
  method ComputeYearMonthsList(logs: seq<Log>, selected: YearMonth) returns (months: seq<YearMonth>)
    ensures |months| == YearMonthsCount(logs, selected)
    ensures |months| > 0 ==> months[0] == selected
    ensures ValidMonth(selected) ==>
      forall k :: 0 <= k < |months| ==> ValidMonth(months[k]) && Absolute(months[k]) == Absolute(selected) - k
  {
    var count := YearMonthsCount(logs, selected);
    months := GenerateMonthsRange(selected.year, selected.month, count);
  }

  /** With a parsable earliest date the year view reaches back to the
      earliest log's month whenever that month is at most 59 months back
      and not after the selected one. */
  lemma YearViewCoversEarliest(logs: seq<Log>, selected: YearMonth, months: seq<YearMonth>)
    requires |logs| > 0 && EarliestYearMonth(logs).Some?
    requires |months| == YearMonthsCount(logs, selected)
    requires forall k :: 0 <= k < |months| ==> Absolute(months[k]) == Absolute(selected) - k
    requires AtOrBefore(EarliestYearMonth(logs).value, selected)
    requires Absolute(selected) - Absolute(EarliestYearMonth(logs).value) < 60
    ensures exists k :: 0 <= k < |months| && Absolute(months[k]) == Absolute(EarliestYearMonth(logs).value)
  {
    var k := Absolute(selected) - Absolute(EarliestYearMonth(logs).value);
    assert Absolute(months[k]) == Absolute(EarliestYearMonth(logs).value);
  }
}
