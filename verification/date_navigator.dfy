/** The day navigator: today's local date string, parsing a selected date
    string back into a local midnight, the today/future tests that compare
    the strings, and the swipe decision. */
module DateNavigator {
  import opened Wrappers
  import opened DateMath
  import opened JsDate
  import opened DateStrings

  /** `getTodayString()`: `String(year) + "-" + pad(month + 1) + "-" + pad(date)`
      built from the local fields of now. */
  function TodayString(today: Moment): string
  {
    LocalDateString(Ymd(FullYear(today), Month(today), Date(today)))
  }

  /** Today's string is the ISO 8601 calendar date of today, and reading it
      back as a date (`new Date(s + "T00:00:00")`) gives today's midnight. */
  lemma TodayStringIsIso(today: Moment)
    requires 1000 <= FullYear(today) <= 9999
    ensures TodayString(today) == IsoDateString(FromDay(today.day))
    ensures ParseIsoDate(TodayString(today)) == Some(today.day)
  {
    var t := FromDay(today.day);
    assert Ymd(FullYear(today), Month(today), Date(today)) == t;
    LocalIsIso(t);
    ParseIsoRoundTrip(t);
  }

  /** `parseLocalDate(s)`: split on "-", convert the first three parts with
      `Number`, and build `new Date(year, month - 1, day)`.  A missing part
      or a part that is not a number makes an invalid date (None); parts
      after the third are ignored. */
  function ParseLocalDate(s: string): Option<Moment>
  {
    var parts := Split(s);
    if |parts| < 3 then None
    else
      match (Number(parts[0]), Number(parts[1]), Number(parts[2]))
      case (Some(year), Some(month), Some(day)) => Some(NewDate(year, month - 1, day))
      case _ => None
  }

  /** For a valid date whose year the Date constructor takes literally
      (year 100 or later), parsing its local string gives its midnight, and
      formatting that again gives the same string. */
  lemma ParseLocalRoundTrip(d: Ymd)
    requires ValidDate(d) && 100 <= d.year
    ensures ParseLocalDate(LocalDateString(d)) == Some(Moment(DayNumber(d), 0))
    ensures TodayString(Moment(DayNumber(d), 0)) == LocalDateString(d)
  {
    var parts := Split(LocalDateString(d));
    assert parts == [NatToString(d.year), PadStart2(NatToString(d.month + 1)), PadStart2(NatToString(d.day))] by {
      SplitLocalDate(d);
    }
    assert Number(parts[0]) == Some(d.year) by { NumberOfNatToString(d.year); }
    assert Number(parts[1]) == Some(d.month + 1) by { NumberOfNatToString(d.month + 1); }
    assert Number(parts[2]) == Some(d.day) by { NumberOfNatToString(d.day); }
    assert NewDate(d.year, d.month, d.day) == Moment(DayNumber(d), 0) by {
      MakeDayInRange(d.year, d.month, d.day);
    }
    DayNumberRoundTrip(d);
  }

  /** `isToday`: string equality with today's string. */
  predicate IsToday(selectedDate: string, today: Moment)
  {
    selectedDate == TodayString(today)
  }

  /** `isFuture`: `selectedDate > todayString` as strings. */
  predicate IsFuture(selectedDate: string, today: Moment)
  {
    LexLess(TodayString(today), selectedDate)
  }

  /** For four-digit years the string tests are the calendar tests: the
      selected date is today exactly when it is today's day, and in the
      future exactly when its day is after today's. */
  lemma SelectedDayOrder(d: Ymd, today: Moment)
    requires ValidDate(d) && 1000 <= d.year <= 9999
    requires 1000 <= FullYear(today) <= 9999
    ensures IsToday(LocalDateString(d), today) <==> DayNumber(d) == today.day
    ensures IsFuture(LocalDateString(d), today) <==> DayNumber(d) > today.day
  {
    var t := FromDay(today.day);
    assert Ymd(FullYear(today), Month(today), Date(today)) == t;
    LocalDateOrder(t, d);
    DayNumberInjective(t, d);
  }

  /** The next arrow: `disabled={isFuture}`. */
  predicate NextDisabled(selectedDate: string, today: Moment)
  {
    IsFuture(selectedDate, today)
  }

  /** The next arrow is enabled on today, so one step past today is
      possible, and disabled on every later day. */
  lemma NextStepsPastToday(today: Moment, d: Ymd)
    requires 1000 <= FullYear(today) <= 9999
    requires ValidDate(d) && 1000 <= d.year <= 9999
    ensures !NextDisabled(TodayString(today), today)
    ensures NextDisabled(LocalDateString(d), today) <==> DayNumber(d) > today.day
  {
    LexLessIrreflexive(TodayString(today));
    SelectedDayOrder(d, today);
  }

  /** Which of the two callbacks a swipe fires. */
  datatype SwipeCallbacks = SwipeCallbacks(nextDay: bool, previousDay: bool)

  /** A touch coordinate that is present and not 0 (`!touchStart` is true
      for null and for 0). */
  predicate Truthy(x: Option<int>)
  {
    x.Some? && x.value != 0
  }

  /** `handleSwipe()`: nothing unless both coordinates are truthy; a left
      swipe (more than 50 px) moves to the next day unless the selected day
      is in the future, a right swipe (more than 50 px) to the previous day. */
  function HandleSwipe(touchStart: Option<int>, touchEnd: Option<int>, isFuture: bool): (r: SwipeCallbacks)
    ensures !(r.nextDay && r.previousDay)
    ensures (r.nextDay || r.previousDay) ==> Truthy(touchStart) && Truthy(touchEnd)
    ensures r.nextDay <==>
      Truthy(touchStart) && Truthy(touchEnd) && touchStart.value - touchEnd.value > 50 && !isFuture
    ensures r.previousDay <==>
      Truthy(touchStart) && Truthy(touchEnd) && touchStart.value - touchEnd.value < -50
  {
    if !Truthy(touchStart) || !Truthy(touchEnd) then SwipeCallbacks(false, false)
    else
      var distance := touchStart.value - touchEnd.value;
      var isLeftSwipe := distance > 50;
      var isRightSwipe := distance < -50;
      SwipeCallbacks(isLeftSwipe && !isFuture, isRightSwipe)
  }

  /** A movement of at most 50 px fires nothing. */
  lemma ShortSwipeIgnored(touchStart: int, touchEnd: int, isFuture: bool)
    requires -50 <= touchStart - touchEnd <= 50
    ensures HandleSwipe(Some(touchStart), Some(touchEnd), isFuture) == SwipeCallbacks(false, false)
  {
  }

  /** Reversing a swipe turns a next-day swipe into a previous-day one, and
      a previous-day swipe back into a next-day one unless the day is in the
      future. */
  lemma ReversedSwipe(a: int, b: int, isFuture: bool)
    ensures HandleSwipe(Some(a), Some(b), isFuture).nextDay ==>
      HandleSwipe(Some(b), Some(a), isFuture).previousDay
    ensures HandleSwipe(Some(a), Some(b), isFuture).previousDay ==>
      HandleSwipe(Some(b), Some(a), isFuture).nextDay == !isFuture
  {
  }

  /** The `touchStart` and `touchEnd` state of the navigator. */
  class SwipeTracker {
    var touchStart: Option<int>
    var touchEnd: Option<int>

    constructor()
      ensures touchStart == None && touchEnd == None
    {
      touchStart := None;
      touchEnd := None;
    }

    /** `handleTouchStart`: remember where the touch began. */
    method TouchStart(clientX: int)
      modifies this
      ensures touchStart == Some(clientX) && touchEnd == old(touchEnd)
    {
      touchStart := Some(clientX);
    }

    /** `handleTouchEnd`: remember where the touch ended, then decide. */
    method TouchEnd(clientX: int, isFuture: bool) returns (r: SwipeCallbacks)
      modifies this
      ensures touchStart == old(touchStart) && touchEnd == Some(clientX)
      ensures r == HandleSwipe(touchStart, touchEnd, isFuture)
    {
      touchEnd := Some(clientX);
      r := HandleSwipe(touchStart, touchEnd, isFuture);
    }

    /** `handleTouchEnd` as written: `setTouchEnd` only schedules the new
        value, and `handleSwipe` reads the `touchEnd` of the render that
        created the handler, the previous gesture's end. */
    method TouchEndAsWritten(clientX: int, isFuture: bool) returns (r: SwipeCallbacks)
      modifies this
      ensures touchStart == old(touchStart) && touchEnd == Some(clientX)
      ensures r == HandleSwipe(old(touchStart), old(touchEnd), isFuture)
    {
      r := HandleSwipe(touchStart, touchEnd, isFuture);
      touchEnd := Some(clientX);
    }
  }

  /** The first swipe after mounting, 200 px to the left on a past day: as
      written it fires nothing, because the end read is still null; deciding
      on the gesture's own end moves to the next day. */
  method FirstSwipeAsWritten() returns (asWritten: SwipeCallbacks, intended: SwipeCallbacks)
    ensures asWritten == SwipeCallbacks(false, false)
    ensures intended == SwipeCallbacks(true, false)
  {
    var stale := new SwipeTracker();
    stale.TouchStart(300);
    asWritten := stale.TouchEndAsWritten(100, false);
    var prompt := new SwipeTracker();
    prompt.TouchStart(300);
    intended := prompt.TouchEnd(100, false);
  }
}
