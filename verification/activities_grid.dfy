/** The activities year grid: twelve month columns of 31 slots each for the
    selected year, coloured by workouts or drinks, with a year stepper that
    cannot go past the current year. */
module ActivitiesGrid {
  import opened Wrappers
  import opened DateMath
  import opened JsDate
  import opened DateStrings
  import opened Logs
  import opened MonthCalendar

  /** The activity a grid colours its slots by. */
  datatype Activity = Workout | Alcohol

  /** The `daysInMonth` array: the common-year table, with February set to
      29 in place for leap years. */
  method MonthLengthTable(year: int) returns (days: seq<int>)
    ensures |days| == 12
    ensures forall m :: 0 <= m < 12 ==> days[m] == DaysInMonth(year, m)
    ensures days[1] == 29 <==> IsLeapYear(year)
  {
    var a := new int[] [31, 28, 31, 30, 31, 30, 31, 31, 30, 31, 30, 31];
    if (year % 4 == 0 && year % 100 != 0) || year % 400 == 0 {
      a[1] := 29;
    }
    days := a[..];
  }

  /** `getActivityColor(log)`. */
  function ActivityColour(activity: Activity, log: Option<Log>): (c: Colour)
    ensures log.None? ==> c == (if activity == Workout then WorkoutEmpty else AlcoholShade(0))
    ensures activity == Workout ==>
      (c == WorkoutDone <==> log.Some? && log.value.workedOut) && (c == WorkoutDone || c == WorkoutEmpty)
    ensures activity == Alcohol && log.Some? && log.value.drinks >= 0 ==>
      c == AlcoholShade(Min(log.value.drinks, 5)) && 0 <= c.drinks <= 5
    ensures (log.None? || WellFormed(log.value)) ==> c != Undefined
  {
    if log.None? then
      (if activity == Workout then WorkoutEmpty else AlcoholPalette(0))
    else if activity == Workout then
      (if log.value.workedOut then WorkoutDone else WorkoutEmpty)
    else
      AlcoholPalette(Min(log.value.drinks, 5))
  }

  /** The grid paints the same buckets as the month calendars. */
  lemma ActivityColourMatchesCalendar(activity: Activity, log: Option<Log>)
    ensures ActivityColour(activity, log) ==
      CellColour(if activity == Workout then WorkoutMetric else AlcoholMetric, log)
  {
  }

  /** One of the 31 slots of a month column.  `colour` is None for slots
      past the month's end, which are drawn invisible. */
  datatype Slot = Slot(
    valid: bool,
    key: string,
    log: Option<Log>,
    selected: bool,
    future: bool,
    currentYear: bool,
    disabled: bool,
    colour: Option<Colour>)

  /** The slot for day `day` (1..31) of month `monthIndex` of `year`, whose
      length the table gives as `monthLength`. */
  function SlotAt(year: int, monthIndex: int, day: int, monthLength: int, logs: seq<Log>,
                  selectedDate: string, activity: Activity, now: Moment): (s: Slot)
    requires ValidMoment(now)
    ensures s.valid <==> day <= monthLength
    ensures s.key == CellKey(year, monthIndex, day)
    ensures s.currentYear <==> FullYear(NewDate(year, monthIndex, day)) == year
    ensures !s.disabled <==> s.valid && s.currentYear && !s.future
    ensures s.selected <==> selectedDate == s.key
    ensures s.log.Some? ==> s.log.value in logs && s.log.value.date == s.key
    ensures s.log.None? <==> forall i :: 0 <= i < |logs| ==> logs[i].date != s.key
    ensures s.colour.Some? <==> s.valid
    ensures s.colour.Some? ==> s.colour.value == ActivityColour(activity, s.log)
    ensures s.future <==> MakeDay(ConstructorYear(year), monthIndex, day) > now.day
  {
    var valid := day <= monthLength;
    var key := CellKey(year, monthIndex, day);
    var log := LookupLog(logs, key);
    LookupMissing(logs, key);
    var dateObj := NewDate(year, monthIndex, day);
    MidnightAfter(dateObj.day, now);
    var future := Before(now, dateObj);
    var currentYear := FullYear(dateObj) == year;
    Slot(valid, key, log, selectedDate == key, future, currentYear,
         !valid || !currentYear || future,
         if valid then Some(ActivityColour(activity, log)) else None)
  }

  /** For a year the Date constructor takes literally (not 0..99), every
      slot 1..31 of every month, valid or not, lies in that year; so a valid
      slot is enabled exactly when its day is not after today. */
  lemma SlotsAreInCurrentYear(year: int, monthIndex: int, day: int, logs: seq<Log>, selectedDate: string,
                              activity: Activity, now: Moment)
    requires 0 <= monthIndex < 12 && 1 <= day <= 31 && ValidMoment(now)
    requires !(0 <= year <= 99)
    ensures SlotAt(year, monthIndex, day, DaysInMonth(year, monthIndex), logs, selectedDate, activity, now).currentYear
    ensures var s := SlotAt(year, monthIndex, day, DaysInMonth(year, monthIndex), logs, selectedDate, activity, now);
      s.valid ==> (!s.disabled <==> DayNumber(Ymd(year, monthIndex, day)) <= now.day)
  {
    SlotDateYear(year, monthIndex, day);
    MakeDayInRange(year, monthIndex, day);
  }

  /** `new Date(year, monthIndex, day)` for a day 1..31 lies in the
      constructor's year. */
  lemma SlotDateYear(year: int, monthIndex: int, day: int)
    requires 0 <= monthIndex < 12 && 1 <= day <= 31
    ensures FullYear(NewDate(year, monthIndex, day)) == ConstructorYear(year)
  {
    MakeDayStaysInYear(ConstructorYear(year), monthIndex, day);
  }

  /** For a two-digit year the constructor builds dates in 1900 + year, so no
      slot is in the selected year and every slot is disabled. */
  lemma TwoDigitYearsAllDisabled(year: int, monthIndex: int, day: int, logs: seq<Log>, selectedDate: string,
                                 activity: Activity, now: Moment)
    requires 0 <= monthIndex < 12 && 1 <= day <= 31 && ValidMoment(now)
    requires 0 <= year <= 99
    ensures SlotAt(year, monthIndex, day, DaysInMonth(year, monthIndex), logs, selectedDate, activity, now).disabled
  {
    SlotDateYear(year, monthIndex, day);
  }

  /** `onClick={() => isValidDay && onDateSelect(dateStr)}` on a button that
      is disabled unless the slot is valid, in the year and not in the
      future: the date selected, if any. */
  function Click(s: Slot): (r: Option<string>)
    ensures r.Some? <==> !s.disabled && s.valid
    ensures r.Some? ==> r.value == s.key
  {
    if s.disabled then None else if s.valid then Some(s.key) else None
  }

  /** The whole grid: 12 month columns of the slots for days 1..31. */
  method YearGrid(year: int, logs: seq<Log>, selectedDate: string, activity: Activity, now: Moment)
      returns (grid: seq<seq<Slot>>)
    requires ValidMoment(now)
    ensures |grid| == 12
    ensures forall m :: 0 <= m < 12 ==> |grid[m]| == 31
    ensures forall m, i :: 0 <= m < 12 && 0 <= i < 31 ==>
      grid[m][i] == SlotAt(year, m, i + 1, DaysInMonth(year, m), logs, selectedDate, activity, now)
  {
    var daysInMonth := MonthLengthTable(year);
    grid := seq(12, m requires 0 <= m < 12 =>
      seq(31, i => SlotAt(year, m, i + 1, daysInMonth[m], logs, selectedDate, activity, now)));
  }

  /** The year stepper: back without bound, forward only while the selected
      year is before the current one (the next button is disabled otherwise). */
  class YearStepper {
    var selectedYear: int
    const currentYear: int

    predicate Valid()
      reads this
    {
      selectedYear <= currentYear
    }

    constructor(today: Moment)
      ensures Valid() && selectedYear == currentYear == FullYear(today)
    {
      selectedYear := FullYear(today);
      currentYear := FullYear(today);
    }

    function NextDisabled(): (b: bool)
      reads this
      ensures Valid() ==> (b <==> selectedYear == currentYear)
    {
      selectedYear >= currentYear
    }

    method PrevYear()
      requires Valid()
      modifies this
      ensures Valid() && selectedYear == old(selectedYear) - 1
    {
      selectedYear := selectedYear - 1;
    }

    method NextYear()
      requires Valid()
      modifies this
      ensures Valid()
      ensures selectedYear == if old(selectedYear) < currentYear then old(selectedYear) + 1 else old(selectedYear)
    {
      if !NextDisabled() {
        selectedYear := selectedYear + 1;
      }
    }
  }
}
