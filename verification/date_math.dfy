/** Calendar arithmetic over the proleptic Gregorian calendar.

    A calendar day is identified by its day number: the number of days since
    0000-01-01 (which is day 0, a Saturday).  Months are 0-based (0 = January)
    as in JavaScript's Date API; the 1-based form only appears in date strings. */
module DateMath {

  /** A calendar date: year, 0-based month, 1-based day of month. */
  datatype Ymd = Ymd(year: int, month: int, day: int)

  /** Gregorian leap rule.  JavaScript's `%` truncates, Dafny's is Euclidean,
      but both give 0 exactly for the multiples, so the tests agree. */
  predicate IsLeapYear(y: int)
  {
    (y % 4 == 0 && y % 100 != 0) || y % 400 == 0
  }

  function YearLength(y: int): int
  {
    if IsLeapYear(y) then 366 else 365
  }

  /** The table [31, 28, 31, 30, 31, 30, 31, 31, 30, 31, 30, 31] with February
      adjusted for leap years. */
  function DaysInMonth(y: int, m: int): (n: int)
    requires 0 <= m < 12
    ensures 28 <= n <= 31
    ensures n == 29 <==> m == 1 && IsLeapYear(y)
    ensures n == 28 <==> m == 1 && !IsLeapYear(y)
  {
    if m == 1 then (if IsLeapYear(y) then 29 else 28)
    else if m == 3 || m == 5 || m == 8 || m == 10 then 30
    else 31
  }

  /** Days in the months before month m of year y (m == 12 gives the whole year). */
  function DaysBeforeMonth(y: int, m: int): int
    requires 0 <= m <= 12
  {
    var common :=
      if m == 0 then 0 else if m == 1 then 31 else if m == 2 then 59
      else if m == 3 then 90 else if m == 4 then 120 else if m == 5 then 151
      else if m == 6 then 181 else if m == 7 then 212 else if m == 8 then 243
      else if m == 9 then 273 else if m == 10 then 304 else if m == 11 then 334
      else 365;
    if m >= 2 && IsLeapYear(y) then common + 1 else common
  }

  /** Sum of the first k month lengths of year y. */
  function SumMonthLengths(y: int, k: int): int
    requires 0 <= k <= 12
  {
    if k == 0 then 0 else SumMonthLengths(y, k - 1) + DaysInMonth(y, k - 1)
  }

  /** The cumulative table is the running sum of the month lengths. */
  lemma {:induction false} MonthLengthsCumulative(y: int, k: int)
    requires 0 <= k <= 12
    ensures SumMonthLengths(y, k) == DaysBeforeMonth(y, k)
  {
    if k > 0 {
      MonthLengthsCumulative(y, k - 1);
    }
  }

  /** The twelve month lengths add up to 365, or to 366 in a leap year. */
  lemma MonthLengthsSum(y: int)
    ensures SumMonthLengths(y, 12) == (if IsLeapYear(y) then 366 else 365)
  {
    MonthLengthsCumulative(y, 12);
  }

  lemma MonthBoundary(y: int, m: int)
    requires 0 <= m < 12
    ensures DaysBeforeMonth(y, m + 1) == DaysBeforeMonth(y, m) + DaysInMonth(y, m)
  {
  }

  /** Number of days from 0000-01-01 to y-01-01 (negative before year 0). */
  function DaysBeforeYear(y: int): int
  {
    365 * y + (y + 3) / 4 - (y + 99) / 100 + (y + 399) / 400
  }

  lemma QuarterStep(y: int)
    ensures (y + 4) / 4 - (y + 3) / 4 == (if y % 4 == 0 then 1 else 0)
    ensures (y + 100) / 100 - (y + 99) / 100 == (if y % 100 == 0 then 1 else 0)
    ensures (y + 400) / 400 - (y + 399) / 400 == (if y % 400 == 0 then 1 else 0)
  {
    var q, r := y / 4, y % 4;
    assert y == 4 * q + r;
    assert (y + 4) / 4 == q + 1 + r / 4;
    assert (y + 3) / 4 == q + (r + 3) / 4;
    var q1, r1 := y / 100, y % 100;
    assert y == 100 * q1 + r1;
    assert (y + 100) / 100 == q1 + 1 + r1 / 100;
    assert (y + 99) / 100 == q1 + (r1 + 99) / 100;
    var q2, r2 := y / 400, y % 400;
    assert y == 400 * q2 + r2;
    assert (y + 400) / 400 == q2 + 1 + r2 / 400;
    assert (y + 399) / 400 == q2 + (r2 + 399) / 400;
  }

  /** One year further is exactly one year length further. */
  lemma YearStep(y: int)
    ensures DaysBeforeYear(y + 1) == DaysBeforeYear(y) + YearLength(y)
  {
    QuarterStep(y);
    DivisibilityChain(y);
    var dy := DaysBeforeYear(y + 1) - DaysBeforeYear(y);
    assert dy == 365 + ((y + 4) / 4 - (y + 3) / 4) - ((y + 100) / 100 - (y + 99) / 100)
      + ((y + 400) / 400 - (y + 399) / 400);
  }

  /** A multiple of 400 is a multiple of 100, which is a multiple of 4. */
  lemma DivisibilityChain(y: int)
    ensures y % 400 == 0 ==> y % 100 == 0
    ensures y % 100 == 0 ==> y % 4 == 0
  {
    var q4, q100, q400 := y / 4, y / 100, y / 400;
    assert y == 4 * q4 + y % 4 && y == 100 * q100 + y % 100 && y == 400 * q400 + y % 400;
    if y % 400 == 0 {
      assert 100 * (4 * q400 - q100) == y % 100;
    }
    if y % 100 == 0 {
      assert 4 * (25 * q100 - q4) == y % 4;
    }
  }

  /** A 400-year cycle has exactly 146097 days. */
  lemma CycleStart(q: int)
    ensures DaysBeforeYear(400 * q) == 146097 * q
  {
    assert (400 * q + 3) / 4 == 100 * q;
    assert (400 * q + 99) / 100 == 4 * q;
    assert (400 * q + 399) / 400 == q;
  }

  lemma {:induction false} YearsMonotone(a: int, b: int)
    requires a <= b
    ensures DaysBeforeYear(a) <= DaysBeforeYear(b)
    ensures a < b ==> DaysBeforeYear(a + 1) <= DaysBeforeYear(b)
    decreases b - a
  {
    if a < b {
      YearStep(a);
      YearsMonotone(a + 1, b);
    }
  }

  /** The year that contains day n, found by stepping from year y. */
  function YearFrom(y: int, n: int): (r: int)
    requires DaysBeforeYear(y) <= n
    ensures y <= r
    ensures DaysBeforeYear(r) <= n < DaysBeforeYear(r + 1)
    decreases n - DaysBeforeYear(y)
  {
    YearStep(y);
    if n < DaysBeforeYear(y + 1) then y else YearFrom(y + 1, n)
  }

  /** The year that contains day n: the start of its 400-year cycle, then a search. */
  function YearOf(n: int): (y: int)
    ensures DaysBeforeYear(y) <= n < DaysBeforeYear(y + 1)
  {
    var q := n / 146097;
    CycleStart(q);
    YearFrom(400 * q, n)
  }

  /** The month of year y in which the r-th day (0-based) of that year falls. */
  function MonthOf(y: int, r: int): (m: int)
    requires 0 <= r < YearLength(y)
    ensures 0 <= m < 12
    ensures DaysBeforeMonth(y, m) <= r < DaysBeforeMonth(y, m + 1)
  {
    if r < DaysBeforeMonth(y, 1) then 0
    else if r < DaysBeforeMonth(y, 2) then 1
    else if r < DaysBeforeMonth(y, 3) then 2
    else if r < DaysBeforeMonth(y, 4) then 3
    else if r < DaysBeforeMonth(y, 5) then 4
    else if r < DaysBeforeMonth(y, 6) then 5
    else if r < DaysBeforeMonth(y, 7) then 6
    else if r < DaysBeforeMonth(y, 8) then 7
    else if r < DaysBeforeMonth(y, 9) then 8
    else if r < DaysBeforeMonth(y, 10) then 9
    else if r < DaysBeforeMonth(y, 11) then 10
    else 11
  }

  predicate ValidDate(d: Ymd)
  {
    0 <= d.month < 12 && 1 <= d.day <= DaysInMonth(d.year, d.month)
  }

  /** Day number of a valid calendar date. */
  function DayNumber(d: Ymd): int
    requires 0 <= d.month < 12
  {
    DaysBeforeYear(d.year) + DaysBeforeMonth(d.year, d.month) + d.day - 1
  }

  /** The calendar date of day number n; inverse of DayNumber.  It is
      characterised by its contract: the one valid date with day number n,
      as computed by DateOfDay. */
  function FromDay(n: int): (d: Ymd)
    ensures ValidDate(d)
    ensures DayNumber(d) == n
  {
    var computed := DateOfDay(n);
    DayNumberUnique(n);
    var d :| ValidDate(d) && DayNumber(d) == n;
    d
  }

  /** The date of day n found by year and then by month. */
  function DateOfDay(n: int): (d: Ymd)
    ensures ValidDate(d)
    ensures DayNumber(d) == n
  {
    var y := YearOf(n);
    YearStep(y);
    var r := n - DaysBeforeYear(y);
    var m := MonthOf(y, r);
    MonthBoundary(y, m);
    Ymd(y, m, r - DaysBeforeMonth(y, m) + 1)
  }

  /** A valid date lies inside its own year. */
  lemma DateInYear(d: Ymd)
    requires ValidDate(d)
    ensures DaysBeforeYear(d.year) <= DayNumber(d) < DaysBeforeYear(d.year + 1)
  {
    YearStep(d.year);
    MonthBoundary(d.year, d.month);
    assert DaysBeforeMonth(d.year, d.month + 1) <= DaysBeforeMonth(d.year, 12);
  }

  /** Converting a valid date to its day number and back gives the same date. */
  lemma DayNumberRoundTrip(d: Ymd)
    requires ValidDate(d)
    ensures FromDay(DayNumber(d)) == d
  {
    DayNumberInjective(FromDay(DayNumber(d)), d);
  }

  /** Two valid dates with the same day number are the same date. */
  lemma DayNumberInjective(a: Ymd, b: Ymd)
    requires ValidDate(a) && ValidDate(b)
    ensures DayNumber(a) == DayNumber(b) <==> a == b
  {
    DayNumberOrder(a, b);
    DayNumberOrder(b, a);
  }

  lemma DayNumberUnique(n: int)
    ensures forall a: Ymd, b: Ymd :: ValidDate(a) && ValidDate(b) && DayNumber(a) == n && DayNumber(b) == n ==> a == b
  {
    forall a: Ymd, b: Ymd | ValidDate(a) && ValidDate(b) && DayNumber(a) == n && DayNumber(b) == n
      ensures a == b
    {
      DayNumberInjective(a, b);
    }
  }

  /** Day n belongs to year y exactly when it lies in y's span of days. */
  lemma YearOfDay(n: int, y: int)
    ensures FromDay(n).year == y <==> DaysBeforeYear(y) <= n < DaysBeforeYear(y + 1)
  {
    var e := FromDay(n);
    DateInYear(e);
    if e.year < y {
      YearsMonotone(e.year, y);
    } else if y < e.year {
      YearsMonotone(y, e.year);
    }
  }

  /** Chronological order of valid dates is the lexicographic order of
      (year, month, day). */
  predicate YmdBefore(a: Ymd, b: Ymd)
  {
    a.year < b.year
    || (a.year == b.year && a.month < b.month)
    || (a.year == b.year && a.month == b.month && a.day < b.day)
  }

  lemma DayNumberOrder(a: Ymd, b: Ymd)
    requires ValidDate(a) && ValidDate(b)
    ensures DayNumber(a) < DayNumber(b) <==> YmdBefore(a, b)
  {
    DateInYear(a);
    DateInYear(b);
    if a.year < b.year {
      YearsMonotone(a.year, b.year);
    } else if b.year < a.year {
      YearsMonotone(b.year, a.year);
    } else {
      MonthBoundary(a.year, a.month);
      MonthBoundary(b.year, b.month);
      if a.month < b.month {
        assert DaysBeforeMonth(a.year, a.month + 1) <= DaysBeforeMonth(a.year, b.month);
      } else if b.month < a.month {
        assert DaysBeforeMonth(a.year, b.month + 1) <= DaysBeforeMonth(a.year, a.month);
      }
    }
  }

  /** Weekday of day n, 0 = Sunday ... 6 = Saturday (day 0 is a Saturday). */
  function Weekday(n: int): (w: int)
    ensures 0 <= w < 7
  {
    (n + 6) % 7
  }

  /** Weekdays advance by one each day and wrap from Saturday to Sunday. */
  lemma WeekdayStep(n: int)
    ensures Weekday(n + 1) == (if Weekday(n) == 6 then 0 else Weekday(n) + 1)
    ensures Weekday(n + 7) == Weekday(n)
  {
  }

  /** k days later the weekday has advanced by k, modulo 7. */
  lemma WeekdayAdd(n: int, k: int)
    ensures Weekday(n + k) == (Weekday(n) + k) % 7
  {
  }

  /** ECMAScript MakeDay: year y, any integer month m (rolled into the year by
      floor division), any integer day d (overflowing into later or earlier
      months).  This is what `new Date(y, m, d)`, `setDate`, `setMonth` and
      `setFullYear` compute. */
  function MakeDay(y: int, m: int, d: int): int
  {
    var ym := y + m / 12;
    DaysBeforeYear(ym) + DaysBeforeMonth(ym, m % 12) + d - 1
  }

  /** First day of the absolute month a (a = 12 * year + month). */
  function MonthStart(a: int): int
  {
    DayNumber(Ymd(a / 12, a % 12, 1))
  }

  /** The next absolute month starts one month length later. */
  lemma MonthStartStep(a: int)
    ensures MonthStart(a + 1) == MonthStart(a) + DaysInMonth(a / 12, a % 12)
  {
    var q, r := a / 12, a % 12;
    MonthBoundary(q, r);
    if r < 11 {
      assert (a + 1) / 12 == q && (a + 1) % 12 == r + 1;
    } else {
      assert (a + 1) / 12 == q + 1 && (a + 1) % 12 == 0;
      YearStep(q);
    }
  }

  /** Month overflow: rolling month m into year y is the same as counting
      absolute months. */
  lemma MakeDayAbsolute(y: int, m: int, d: int)
    ensures MakeDay(y, m, d) == MonthStart(12 * y + m) + d - 1
  {
    assert (12 * y + m) / 12 == y + m / 12;
    assert (12 * y + m) % 12 == m % 12;
  }

  /** Day-of-month overflow: shifting the day argument shifts the day number. */
  lemma MakeDayShift(y: int, m: int, d: int, k: int)
    ensures MakeDay(y, m, d + k) == MakeDay(y, m, d) + k
  {
  }

  /** Within a valid month, MakeDay is DayNumber. */
  lemma MakeDayInRange(y: int, m: int, d: int)
    requires 0 <= m < 12
    ensures MakeDay(y, m, d) == DayNumber(Ymd(y, m, d))
  {
  }

  /** `new Date(y, m + 1, 0)` is the last day of month m. */
  lemma LastDayByOverflow(y: int, m: int)
    requires 0 <= m < 12
    ensures FromDay(MakeDay(y, m + 1, 0)) == Ymd(y, m, DaysInMonth(y, m))
  {
    MakeDayAbsolute(y, m + 1, 0);
    var last := Ymd(y, m, DaysInMonth(y, m));
    MonthBoundary(y, m);
    if m == 11 {
      YearStep(y);
      assert (12 * y + 12) / 12 == y + 1;
      assert (12 * y + 12) % 12 == 0;
      assert MakeDay(y, m + 1, 0) == DaysBeforeYear(y + 1) - 1;
    } else {
      assert (12 * y + m + 1) / 12 == y;
      assert (12 * y + m + 1) % 12 == m + 1;
    }
    assert MakeDay(y, m + 1, 0) == DayNumber(last);
    DayNumberRoundTrip(last);
  }

  /** Normalising a month index that is out of 0..11 rolls the year. */
  lemma MakeDayFirstFields(y: int, m: int)
    ensures FromDay(MakeDay(y, m, 1)) == Ymd(y + m / 12, m % 12, 1)
  {
    var first := Ymd(y + m / 12, m % 12, 1);
    assert ValidDate(first);
    assert MakeDay(y, m, 1) == DayNumber(first);
    DayNumberRoundTrip(first);
  }

  /** A day of month 1..31 in any month of year y never leaves year y, even
      when it overflows the month (December has 31 days). */
  lemma MakeDayStaysInYear(y: int, m: int, d: int)
    requires 0 <= m < 12 && 1 <= d <= 31
    ensures FromDay(MakeDay(y, m, d)).year == y
  {
    var n := MakeDay(y, m, d);
    assert n == DaysBeforeYear(y) + DaysBeforeMonth(y, m) + d - 1;
    YearStep(y);
    assert DaysBeforeMonth(y, m) + 31 <= YearLength(y);
    var e := FromDay(n);
    DateInYear(e);
    if e.year < y {
      YearsMonotone(e.year, y);
    } else if y < e.year {
      YearsMonotone(y, e.year);
    }
  }

  /** A day d beyond the length of month m (up to 31) lands in the next month
      at day d - DaysInMonth(y, m). */
  lemma MakeDayOverflow(y: int, m: int, d: int)
    requires 0 <= m < 12
    requires DaysInMonth(y, m) < d <= 31
    ensures FromDay(MakeDay(y, m, d)) ==
      Ymd(y + (m + 1) / 12, (m + 1) % 12, d - DaysInMonth(y, m))
  {
    var k := d - DaysInMonth(y, m);
    var next := Ymd(y + (m + 1) / 12, (m + 1) % 12, k);
    MonthBoundary(y, m);
    if m == 11 {
      YearStep(y);
    }
    assert MakeDay(y, m, d) == DayNumber(next);
    DayNumberRoundTrip(next);
  }
}
