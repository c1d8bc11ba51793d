/** The desktop calendar view: the twelve months ending at today's month,
    each drawn with the shared month grid. */
module DesktopCalendarView {
  import opened DateMath
  import opened JsDate
  import opened MonthCalendar

  /** Today's month as the Date constructor sees it: a two-digit year means
      1900 + year, so for every other year this is today's own month. */
  function TodayMonth(today: Moment): YearMonth
  {
    YearMonth(ConstructorYear(FullYear(today)), Month(today))
  }

  /** The year and month of `new Date(y, a, 1)`. */
  function FirstOfMonth(y: int, a: int): YearMonth
  {
    var date := NewDate(y, a, 1);
    YearMonth(FullYear(date), Month(date))
  }

  /** The 1st of month index a (any integer) reads back as the month a
      months after January of the constructor's year. */
  lemma FirstOfMonthIsNormalised(y: int, a: int)
    ensures ValidMonth(FirstOfMonth(y, a))
    ensures Absolute(FirstOfMonth(y, a)) == 12 * ConstructorYear(y) + a
  {
    MakeDayFirstFields(ConstructorYear(y), a);
  }

  /** The `months` list: for i from 11 down to 0, the year and month of
      `new Date(today.getFullYear(), today.getMonth() - i, 1)`. */
  method LastTwelveMonths(today: Moment) returns (months: seq<YearMonth>)
    ensures |months| == 12
    ensures forall j :: 0 <= j < 12 ==>
      ValidMonth(months[j]) && Absolute(months[j]) == Absolute(TodayMonth(today)) - 11 + j
    ensures forall j :: 0 < j < 12 ==> Absolute(months[j]) == Absolute(months[j - 1]) + 1
    ensures months[11] == TodayMonth(today)
  {
    months := [];
    var year, month := FullYear(today), Month(today);
    ghost var base := Absolute(TodayMonth(today));
    assert base == 12 * ConstructorYear(year) + month;
    for i := 12 downto 0
      invariant |months| == 12 - i
      invariant forall j :: 0 <= j < |months| ==>
        ValidMonth(months[j]) && Absolute(months[j]) == base - 11 + j
    {
      var entry := FirstOfMonth(year, month - i);
      FirstOfMonthIsNormalised(year, month - i);
      assert ValidMonth(entry) && Absolute(entry) == base - 11 + |months|;
      months := months + [entry];
    }
    assert ValidMonth(TodayMonth(today));
    AbsoluteInjective(months[11], TodayMonth(today));
  }
}
