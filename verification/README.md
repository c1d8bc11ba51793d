# mood-tracker calendar and period logic in Dafny

A model of the logic in the mood-tracker web app (a daily log of mood 1..5,
workouts and drinks, with an encrypted note). The logic sits inside React
components and is modelled as plain Dafny. The modules are:

- **DateMath**: the Gregorian calendar on day numbers (day 0 is 0000-01-01).
  It covers the leap rule, month lengths, date ↔ day-number conversion in
  both directions, weekdays, and the month/day overflow that JavaScript's
  `Date` applies.
- **JsDate**: JavaScript `Date` on the local wall clock, as a day number plus
  the milliseconds into that day. It covers the multi-argument constructor
  (two-digit years mean 19xx), the getters, the setters `setDate`,
  `setMonth` and `setFullYear`, and the `<`/`>` comparison.
- **DateStrings**: the hand-built `YYYY-MM-DD` strings and ISO 8601 calendar
  dates in extended format (ISO 8601:2004 section 4.1.2.2). It covers JS
  string `<`, `split("-")`, `Number(...)`, and parsing `date + "T00:00:00"`.
- **Logs**: the `Log` record and the `new Map(logs.map(...))` lookup by date.
- **MonthCalendar**: the month grid shared by the mobile and desktop views.
  That is the week builder, the per-cell key, status and colour bucket, and
  `(year, month)` pairs.
- **MobileHistoryGrid**: the month picker bounded by today's month, and the
  year-view month list.
- **DesktopCalendarView**: the list of the last twelve months.
- **ActivitiesGrid**: the 12 × 31 year grid. It covers the leap-adjusted
  month table, slot validity and disabling, and the year stepper.
- **HistoryGrid**: the Sunday-aligned year strip. It covers the calendar
  start, the day loop, the month-label columns and the cells keyed by the
  UTC date.
- **InsightsView**: the period insights. They cover the week/month/year
  window from now and an offset, the logs filtered into it and sorted by
  date, the average mood, and the period labels.
- **DateNavigator**: today's string, `parseLocalDate`, the today/future
  string tests and the swipe decision.
- **WorkoutLogger**: adding (trimmed) and removing exercises, and the workout
  switch.
- **DrinkCounter**: the clamped minus button and the plus button.
- **Encryption**: the note-cipher wrapper around an abstract cipher.
- **ThemeContext**: the light/dark/auto preference, the stored value and the
  root "dark" class.

State that the source changes in place is a class with `modifies` clauses.
That is the month picker, year stepper, period state, swipe tracker, workout
form and theme provider. Loops that build arrays are methods with loop
invariants: the week builder, month-range generator, twelve-month list and
day strip. The month-length table is an array literal with one in-place write
for February. Expression-only code is functions with lemmas.

Two behaviours of the code are worth knowing before reading the tables:

- The insights week label is "THIS WEEK" for offset 0 and "WEEK n" otherwise.
- The history strip keys its cells by the UTC date (`toISOString`). A log is
  saved under the date the form is opened for: the UTC date of now from the
  dashboard, or the key of the calendar cell clicked. The month and year
  calendars key their cells by the local date. This key, the insights month
  label and the swipe decision are under "## Findings", each with a
  corrected model.

## Model

| member | source | states |
|---|---|---|
| DateMath.DaysInMonth | src/components/ActivitiesGrid.tsx:58-63 | Month lengths are 28..31; February has 29 days exactly in leap years (divisible by 4 and not by 100, or by 400), and 28 otherwise |
| DateMath.MonthLengthsSum | src/components/ActivitiesGrid.tsx:58-63 | The twelve month lengths add up to 366 in a leap year and 365 otherwise |
| DateMath.MonthLengthsCumulative | src/components/ActivitiesGrid.tsx:58-63 | Adding the month lengths one by one gives the days before each month |
| DateMath.MonthBoundary | src/components/MobileHistoryGrid.tsx:88 | The days before month m+1 are the days before month m plus month m's length |
| DateMath.YearStep | src/components/HistoryGrid.tsx:30-33 | January 1 of the next year is one year length after January 1 |
| DateMath.YearsMonotone | src/components/HistoryGrid.tsx:30-33 | Later years start on later days |
| DateMath.YearOf | src/components/MobileHistoryGrid.tsx:142 | Every day number lies in exactly the year whose bounds enclose it |
| DateMath.MonthOf | src/components/MobileHistoryGrid.tsx:142 | A day of a year lies in the month whose bounds enclose it, a month in 0..11 |
| DateMath.FromDay | src/components/MobileHistoryGrid.tsx:142 | The date of a day number is a valid date with that day number (`getFullYear`/`getMonth`/`getDate`) |
| DateMath.DayNumberRoundTrip | src/components/MobileHistoryGrid.tsx:142 | Reading back the date of a valid date's day number gives the date |
| DateMath.DayNumberInjective | src/components/MobileHistoryGrid.tsx:142 | Valid dates have equal day numbers exactly when they are equal |
| DateMath.YearOfDay | src/components/HistoryGrid.tsx:123 | A day's year is y exactly when the day lies between January 1 of y and of y+1 |
| DateMath.DayNumberOrder | src/components/MobileHistoryGrid.tsx:143 | Day numbers order valid dates as (year, month, day) lexicographically |
| DateMath.WeekdayAdd | src/components/MobileHistoryGrid.tsx:89 | `getDay` advances by k mod 7 over k days (0 = Sunday) |
| DateMath.WeekdayStep | src/components/HistoryGrid.tsx:40-41 | The weekday after Saturday is Sunday, otherwise the next; it repeats every 7 days |
| DateMath.MakeDayAbsolute | src/components/InsightsView.tsx:30 | The Date constructor's month overflow counts months from January of the year, so any month index lands at that absolute month |
| DateMath.MakeDayShift | src/components/InsightsView.tsx:28 | Adding k to the day argument moves the date by k days |
| DateMath.MakeDayInRange | src/components/MobileHistoryGrid.tsx:142 | With a month in 0..11 the constructor's day is the date's day number, for any day argument |
| DateMath.MonthStartStep | src/components/InsightsView.tsx:37 | The 1st of the next month is the current month's length after the 1st |
| DateMath.LastDayByOverflow | src/components/MobileHistoryGrid.tsx:88 | Day 0 of month m+1 is the last day of month m |
| DateMath.MakeDayFirstFields | src/components/DesktopCalendarView.tsx:47-48 | The 1st of any month index reads back as the normalised year and month |
| DateMath.MakeDayStaysInYear | src/components/ActivitiesGrid.tsx:217-219 | Days 1..31 of a month in 0..11 never leave the year |
| DateMath.MakeDayOverflow | src/components/InsightsView.tsx:113-119 | A day past the month's end rolls into the next month by the excess |
| DateMath.IsLeapYear | src/components/ActivitiesGrid.tsx:58-63 | No contract of its own; DaysInMonth and MonthLengthsSum state what the leap rule gives |
| DateMath.DayNumber | src/components/MobileHistoryGrid.tsx:142 | No contract of its own; DayNumberRoundTrip, DayNumberInjective and DayNumberOrder characterise it |
| DateMath.MakeDay | src/components/MobileHistoryGrid.tsx:142 | No contract of its own; MakeDayAbsolute, MakeDayShift, MakeDayInRange and MakeDayOverflow characterise it |
| DateMath.Weekday | src/components/HistoryGrid.tsx:34 | `getDay()` is in 0..6; WeekdayAdd and WeekdayStep characterise it |
| JsDate.BeforeIsLexicographic | src/components/InsightsView.tsx:43 | Comparing valid Date instants is comparing (day, time of day) lexicographically |
| JsDate.MidnightAfter | src/components/MobileHistoryGrid.tsx:142-143 | A local midnight is after now (`dateObj > today`) exactly when its day is after today's |
| JsDate.NewDate | src/components/MobileHistoryGrid.tsx:142 | `new Date(y, m, d)` is a local midnight |
| JsDate.NewDateFields | src/components/DateNavigator.tsx:32-35 | For a valid date outside years 0..99, the getters read back the constructor's arguments |
| JsDate.SetDateShift | src/components/HistoryGrid.tsx:41 | `d.setDate(d.getDate() + k)` moves d by exactly k days and keeps its time |
| JsDate.Before | src/components/HistoryGrid.tsx:127 | No contract of its own; BeforeIsLexicographic and MidnightAfter characterise it |
| JsDate.ConstructorYear | src/components/ActivitiesGrid.tsx:217-219 | No contract of its own; NewDateFields and ActivitiesGrid.TwoDigitYearsAllDisabled state its effect |
| JsDate.FullYear | src/components/HistoryGrid.tsx:123 | No contract of its own; it is the year of DateMath.FromDay, whose contract applies |
| JsDate.Month | src/components/DesktopCalendarView.tsx:48 | No contract of its own; it is the month of DateMath.FromDay, whose contract applies |
| JsDate.Date | src/components/DateNavigator.tsx:28 | No contract of its own; it is the day of DateMath.FromDay, whose contract applies |
| JsDate.Day | src/components/HistoryGrid.tsx:34 | No contract of its own; DateMath.WeekdayAdd and HistoryGrid.CalendarStart characterise it |
| JsDate.SetDate | src/components/HistoryGrid.tsx:41 | No contract of its own; SetDateShift characterises it |
| JsDate.SetMonth | src/components/InsightsView.tsx:37 | No contract of its own; InsightsView.MonthOfSetMonth and InsightsView.NextMonthSetter characterise it |
| JsDate.SetMonthDate | src/components/InsightsView.tsx:30 | No contract of its own; InsightsView.MonthStartSetter characterises it |
| JsDate.SetFullYear | src/components/InsightsView.tsx:38 | No contract of its own; InsightsView.SetFullYearStaysInYear and InsightsView.NextYearSetter characterise it |
| JsDate.SetFullYearMonthDate | src/components/InsightsView.tsx:32 | No contract of its own; InsightsView.YearStartSetter characterises it |
| DateStrings.NatToString | src/components/DateNavigator.tsx:27 | `String(n)` of a natural number is a non-empty digit string |
| DateStrings.FixedDigitsOrder | src/components/DateNavigator.tsx:37-39 | Zero-padded numbers of equal width compare as strings exactly as they compare as numbers |
| DateStrings.LexLessIrreflexive | src/components/DateNavigator.tsx:39 | JS string `<` is irreflexive |
| DateStrings.LexLessAsymmetric | src/components/MobileHistoryGrid.tsx:230 | JS string `<` is asymmetric |
| DateStrings.LexLessTotal | src/components/MobileHistoryGrid.tsx:230 | Of two distinct strings one is below the other |
| DateStrings.LexLessTransitive | src/components/MobileHistoryGrid.tsx:230 | JS string `<` is transitive |
| DateStrings.LexLessConcat | src/components/DateNavigator.tsx:39 | Comparing strings with equal-length prefixes compares the prefixes first, then the rest |
| DateStrings.LocalIsIso | src/components/DateNavigator.tsx:21-30 | For a four-digit year the hand-built local string is the ISO 8601 date YYYY-MM-DD |
| DateStrings.FourDigitFormOrder | src/components/DateNavigator.tsx:37-39 | Zero-padded YYYY-MM-DD strings order and equate exactly as their dates do |
| DateStrings.LocalDateOrder | src/components/DateNavigator.tsx:37-39 | For four-digit years, string `<` on local date strings is day order and string equality is date equality |
| DateStrings.SplitLocalDate | src/components/DateNavigator.tsx:33 | `split("-")` of a local date string gives its year, month and day fields |
| DateStrings.NumberOfNatToString | src/components/DateNavigator.tsx:33 | `Number` reads back `String(n)` and its two-digit padded form |
| DateStrings.ParseIsoDate | src/components/InsightsView.tsx:42 | Parsing `date + "T00:00:00"` yields only day numbers of valid dates with years 0..9999 |
| DateStrings.ParseIsoRoundTrip | src/components/InsightsView.tsx:42 | Parsing an ISO date string gives that date's local midnight |
| DateStrings.IntToString | src/components/InsightsView.tsx:112 | `String(i)` is non-empty; NatToString and NumberOfNatToString pin the digits |
| DateStrings.PadStart2 | src/components/DateNavigator.tsx:26 | `padStart(2, "0")` gives at least two characters; NumberOfNatToString reads the padded form back |
| DateStrings.LocalDateString | src/components/DateNavigator.tsx:21-30 | No contract of its own; LocalIsIso, LocalDateOrder and SplitLocalDate characterise it |
| DateStrings.IsoDateString | src/components/HistoryGrid.tsx:122 | No contract of its own; ParseIsoRoundTrip and LocalIsIso characterise it |
| DateStrings.LexLess | src/components/DateNavigator.tsx:39 | No contract of its own; LexLessIrreflexive, LexLessAsymmetric, LexLessTotal and LexLessTransitive make it a strict total order |
| DateStrings.Split | src/components/DateNavigator.tsx:33 | `split("-")` gives at least one part; SplitLocalDate gives the parts of a date string |
| DateStrings.Number | src/components/DateNavigator.tsx:33 | No contract of its own; NumberOfNatToString characterises it on date fields |
| Logs.LogsMap | src/components/MobileHistoryGrid.tsx:45 | Every log's date is a key of the map, and each key maps to a log from the list with that date |
| Logs.LookupMissing | src/components/MobileHistoryGrid.tsx:141 | The lookup finds nothing exactly when no log has that date |
| Logs.LastWithDate | src/components/MobileHistoryGrid.tsx:45 | The reference scan from the end returns a log from the list with the date |
| Logs.LookupIsLast | src/components/MobileHistoryGrid.tsx:45 | The map lookup returns the last log in the list with that date (later entries replace earlier ones) |
| Logs.LastWithDateIsLast | src/components/MobileHistoryGrid.tsx:45 | The log found sits at or after every log with that date |
| Logs.LookupLog | src/components/MobileHistoryGrid.tsx:141 | No contract of its own; LookupMissing and LookupIsLast characterise it |
| MonthCalendar.AbsoluteInjective | src/components/MobileHistoryGrid.tsx:70-81 | (year, month) pairs with months in 0..11 are equal exactly when their absolute months are |
| MonthCalendar.CellColour | src/components/MobileHistoryGrid.tsx:147-159 | Mood: grey exactly without a log, else the shade for mood 1..5. Workout: coloured exactly when a log exists with `worked_out`. Alcohol: bucket min(drinks or 0, 5), in 0..5 for drinks ≥ 0. Every lookup is defined for well-formed logs |
| MonthCalendar.CellKeyIsIsoDate | src/components/MobileHistoryGrid.tsx:137-140 | For a four-digit year the cell key is the ISO 8601 date, ten characters long, naming exactly that day |
| MonthCalendar.CellKeysDistinct | src/components/DesktopCalendarView.tsx:100-104 | Different days of four-digit years have different keys |
| MonthCalendar.Cell | src/components/DesktopCalendarView.tsx:100-127 | The key is the hand-built date string of the day; the log shown is the one saved under that key, and there is none exactly when no log has it; the colour is the metric's bucket; selected exactly when the key is `selectedDate`; future (disabled) exactly when the day is after today |
| MonthCalendar.WeekRows | src/components/MobileHistoryGrid.tsx:91-104 | ceil((firstDay + n) / 7) rows of 7 slots; slot k is day k - firstDay + 1 inside the month and null outside; only the first row has leading nulls |
| MonthCalendar.MonthGrid | src/components/DesktopCalendarView.tsx:51-68 | The month length is the normalised month's length, `firstDay` its 1st's weekday, and the rows are the week builder's |
| MonthCalendar.MonthShape | src/components/MobileHistoryGrid.tsx:88-89 | `new Date(y, m + 1, 0).getDate()` is month m's length; `new Date(y, m, 1).getDay()` is its 1st's weekday |
| MonthCalendar.NormalisedMonthEnd | src/components/MobileHistoryGrid.tsx:88 | Day 0 of month a+1 is the same day after normalising a into the year |
| MonthCalendar.FlattenRows | src/components/MobileHistoryGrid.tsx:131-133 | Rows of 7 read row by row put row r, column c at position 7r + c |
| MonthCalendar.MonthLayout | src/components/MobileHistoryGrid.tsx:91-104 | Read row by row the grid is `firstDay` blanks, then days 1..n once each in order, then fewer than 7 blanks |
| MonthCalendar.MoodPalette | src/components/MobileHistoryGrid.tsx:16-22 | No contract of its own; CellColour states the buckets |
| MonthCalendar.AlcoholPalette | src/components/MobileHistoryGrid.tsx:47-54 | No contract of its own; CellColour states the buckets |
| MonthCalendar.Min | src/components/MobileHistoryGrid.tsx:157 | No contract of its own; `Math.min`, used by CellColour, ActivitiesGrid.ActivityColour and MobileHistoryGrid.YearMonthsCount |
| MonthCalendar.Max | src/components/MobileHistoryGrid.tsx:234 | No contract of its own; `Math.max`, used by MobileHistoryGrid.YearMonthsCount |
| MonthCalendar.DrinksOrZero | src/components/MobileHistoryGrid.tsx:157 | No contract of its own; CellColour states the alcohol bucket it feeds |
| MonthCalendar.CellKey | src/components/MobileHistoryGrid.tsx:137-140 | No contract of its own; CellKeyIsIsoDate and CellKeysDistinct characterise it |
| MonthCalendar.Slot | src/components/MobileHistoryGrid.tsx:91-104 | No contract of its own; WeekRows and MonthLayout state the grid it describes |
| MobileHistoryGrid.PrevIsOneMonthEarlier | src/components/MobileHistoryGrid.tsx:61-68 | The previous month is exactly one calendar month earlier and stays in 0..11 |
| MobileHistoryGrid.NextNeverPassesCurrent | src/components/MobileHistoryGrid.tsx:70-81 | From at or before the current month, next stays in 0..11, never passes the current month, and is one month later unless already current |
| MobileHistoryGrid.NextUndoesPrev | src/components/MobileHistoryGrid.tsx:61-81 | For any month at or before the current one, next(prev(s)) = s |
| MobileHistoryGrid.MonthPicker.constructor | src/components/MobileHistoryGrid.tsx:39-42 | Selected and current month both start at today's month |
| MobileHistoryGrid.MonthPicker.NextDisabled | src/components/MobileHistoryGrid.tsx:71-72 | The next arrow does nothing exactly on the current month |
| MobileHistoryGrid.MonthPicker.PrevMonth | src/components/MobileHistoryGrid.tsx:61-68 | December of year-1 from January, else month-1; one month earlier; the invariant holds |
| MobileHistoryGrid.MonthPicker.NextMonth | src/components/MobileHistoryGrid.tsx:70-81 | No change on the current month; January of year+1 from December, else month+1; never past the current month |
| MobileHistoryGrid.GenerateMonthsRange | src/components/MobileHistoryGrid.tsx:202-219 | Exactly max(0, n) entries; the first is (y, m); entry k is k months back and each is the previous month of the one before |
| MobileHistoryGrid.EarliestLog | src/components/MobileHistoryGrid.tsx:230 | The reduce returns a log of the list |
| MobileHistoryGrid.EarliestIsMinimal | src/components/MobileHistoryGrid.tsx:230 | No log's date string is below the earliest log's |
| MobileHistoryGrid.YearMonthsCount | src/components/MobileHistoryGrid.tsx:226-235 | 12 without logs; min(max(diff + 1, 12), 60) from the earliest log's month; 0 (an empty list) exactly when the earliest date does not parse; otherwise always 12..60 |
| MobileHistoryGrid.LeadingYearMonthOfLocalDate | src/components/MobileHistoryGrid.tsx:231-232 | `split("-").map(Number)` of a local date string gives its year and 0-based month |
| MobileHistoryGrid.CountFromEarliestDate | src/components/MobileHistoryGrid.tsx:230-235 | With a well-formed earliest date, the count is the clamped span from its month through the selected month |
| MobileHistoryGrid.ComputeYearMonthsList | src/components/MobileHistoryGrid.tsx:226-238 | The list has the count's length, starts at the selected month, and entry k is k months back |
| MobileHistoryGrid.YearViewCoversEarliest | src/components/MobileHistoryGrid.tsx:234-237 | When the earliest log's month is at most 59 months back and not after the selection, the list contains it |
| MobileHistoryGrid.PrevOf | src/components/MobileHistoryGrid.tsx:61-68 | No contract of its own; PrevIsOneMonthEarlier and NextUndoesPrev characterise it |
| MobileHistoryGrid.NextOf | src/components/MobileHistoryGrid.tsx:70-81 | No contract of its own; NextNeverPassesCurrent and NextUndoesPrev characterise it |
| MobileHistoryGrid.LeadingYearMonth | src/components/MobileHistoryGrid.tsx:231-232 | No contract of its own; LeadingYearMonthOfLocalDate characterises it |
| MobileHistoryGrid.EarliestYearMonth | src/components/MobileHistoryGrid.tsx:230-232 | No contract of its own; CountFromEarliestDate and YearViewCoversEarliest use it |
| DesktopCalendarView.FirstOfMonthIsNormalised | src/components/DesktopCalendarView.tsx:47-48 | `new Date(y, a, 1)` reads back as the month a months after January of the constructor's year, in 0..11 |
| DesktopCalendarView.LastTwelveMonths | src/components/DesktopCalendarView.tsx:44-49 | 12 entries, oldest first, each one month after the previous, ending at today's month; the year rolls over correctly |
| DesktopCalendarView.TodayMonth | src/components/DesktopCalendarView.tsx:41-47 | No contract of its own; LastTwelveMonths ends at it |
| DesktopCalendarView.FirstOfMonth | src/components/DesktopCalendarView.tsx:47-48 | No contract of its own; FirstOfMonthIsNormalised characterises it |
| ActivitiesGrid.MonthLengthTable | src/components/ActivitiesGrid.tsx:58-63 | The adjusted table holds each month's length; February is 29 exactly in leap years |
| ActivitiesGrid.ActivityColour | src/components/ActivitiesGrid.tsx:65-75 | No log: the empty bucket for both activities. Workout: coloured exactly when `worked_out`. Alcohol: bucket min(drinks, 5). Defined for well-formed logs |
| ActivitiesGrid.ActivityColourMatchesCalendar | src/components/ActivitiesGrid.tsx:65-75 | The grid paints the same buckets as the month calendars |
| ActivitiesGrid.SlotAt | src/components/ActivitiesGrid.tsx:209-225 | The key is the hand-built date string; `isCurrentYear` exactly when the built date's year is the selected year; the log is the one under the key, none exactly when no log has it; valid exactly when day ≤ the month's length; enabled exactly when valid, in the year and not in the future; colour only for valid slots, the activity's bucket |
| ActivitiesGrid.SlotsAreInCurrentYear | src/components/ActivitiesGrid.tsx:217-224 | Outside years 0..99, `isCurrentYear` always holds, so a valid slot is enabled exactly when its day is not after today |
| ActivitiesGrid.SlotDateYear | src/components/ActivitiesGrid.tsx:217-219 | Every slot 1..31 of a month lies in the constructor's year |
| ActivitiesGrid.TwoDigitYearsAllDisabled | src/components/ActivitiesGrid.tsx:217-224 | For years 0..99 the constructor builds 19xx dates, so every slot is disabled |
| ActivitiesGrid.Click | src/components/ActivitiesGrid.tsx:224-225 | A click selects the slot's key exactly when the slot is enabled; an invalid slot never selects |
| ActivitiesGrid.YearGrid | src/components/ActivitiesGrid.tsx:203-210 | 12 columns of 31 slots; slot (m, i) is day i+1 of month m, checked against the adjusted table |
| ActivitiesGrid.YearStepper.NextDisabled | src/components/ActivitiesGrid.tsx:110 | The next button is disabled exactly on the current year |
| ActivitiesGrid.YearStepper.PrevYear | src/components/ActivitiesGrid.tsx:83 | One year back, unbounded, and still never past the current year |
| ActivitiesGrid.YearStepper.NextYear | src/components/ActivitiesGrid.tsx:108-110 | One year forward only while before the current year, so the selected year never exceeds it |
| ActivitiesGrid.YearStepper.constructor | src/components/ActivitiesGrid.tsx:33-35 | The selected and current year both start at today's year |
| HistoryGrid.YearBounds | src/components/HistoryGrid.tsx:30-33 | `new Date(year, 0, 1)` and `new Date(year, 11, 31)` are the year's first and last days, and the year spans one year length |
| HistoryGrid.CalendarStart | src/components/HistoryGrid.tsx:33-36 | `calendarStart` is the Sunday on or before January 1, at midnight |
| HistoryGrid.SundayAfter | src/components/HistoryGrid.tsx:40 | The first Sunday after a day is 1..7 days later, with no Sunday in between |
| HistoryGrid.DaysInYear | src/components/HistoryGrid.tsx:38-44 | Consecutive midnights from `calendarStart` through the Saturday on or after December 31, a multiple of 7 long, covering the whole year |
| HistoryGrid.YearDaysOnce | src/components/HistoryGrid.tsx:38-44 | Every day of the year is in the list exactly once |
| HistoryGrid.WeekColumns | src/components/HistoryGrid.tsx:38-44 | 53 week columns, or 54 exactly for a leap year starting on a Saturday |
| HistoryGrid.WeeksOfDays | src/components/HistoryGrid.tsx:103-105 | Whole days divided into weeks of milliseconds is floor(days / 7) |
| HistoryGrid.MonthOffset | src/components/HistoryGrid.tsx:101-106 | The 1st of month i is the days before month i past January 1 |
| HistoryGrid.MonthLabelColumns | src/components/HistoryGrid.tsx:101-106 | January's label is in column 0, later months never move left, and every column is 0..52 |
| HistoryGrid.MidnightUtcDay | src/components/HistoryGrid.tsx:122 | The UTC date of a local midnight is the same day at or west of UTC and the previous day east of it |
| HistoryGrid.CellFor | src/components/HistoryGrid.tsx:122-136 | The log shown is the one under the key, none exactly when no log has it; selected and today by key; hidden exactly outside the year; disabled exactly when hidden or future; a visible cell is coloured by its log's mood, or the empty colour without a log |
| HistoryGrid.CellStatus | src/components/HistoryGrid.tsx:123-132 | Padding days outside the year are hidden and disabled; other days are disabled exactly when after today |
| HistoryGrid.CellKeyDate | src/components/HistoryGrid.tsx:122-126 | A cell's key is its own date at or west of UTC and the previous day east of UTC |
| HistoryGrid.HistoryKeyEastOfUtc | src/components/HistoryGrid.tsx:122-124 | One hour east of UTC the cell of 2025-01-01 is keyed "2024-12-31" and misses the log saved for 2025-01-01 |
| HistoryGrid.LocalCellKeyIsDay | src/components/HistoryGrid.tsx:122-126 | With local-date keys every cell is keyed by its own ISO date in every zone, shows its day's log, and is today's cell exactly on today |
| HistoryGrid.FirstOfYear | src/components/HistoryGrid.tsx:33 | No contract of its own; YearBounds characterises it |
| HistoryGrid.LastOfYear | src/components/HistoryGrid.tsx:30 | No contract of its own; YearBounds characterises it |
| HistoryGrid.WeekOf | src/components/HistoryGrid.tsx:103-105 | No contract of its own; WeeksOfDays states it on whole days |
| HistoryGrid.WeekIndex | src/components/HistoryGrid.tsx:102-106 | No contract of its own; WeeksOfDays and MonthLabelColumns characterise it |
| HistoryGrid.UtcDay | src/components/HistoryGrid.tsx:122 | No contract of its own; MidnightUtcDay characterises it |
| HistoryGrid.UtcDateKey | src/components/HistoryGrid.tsx:122 | No contract of its own; CellKeyDate characterises it |
| HistoryGrid.CellAt | src/components/HistoryGrid.tsx:121-136 | No contract of its own; it is CellFor with UTC keys, so CellFor's contract applies; CellKeyDate and HistoryKeyEastOfUtc state its keys |
| HistoryGrid.LocalCellAt | src/components/HistoryGrid.tsx:121-136 | No contract of its own; it is CellFor with local keys; LocalCellKeyIsDay characterises it |
| InsightsView.PeriodState.constructor | src/components/InsightsView.tsx:20-21 | The view starts as week with offset 0 |
| InsightsView.PeriodState.SelectView | src/components/InsightsView.tsx:81-84 | Choosing a view sets it and resets the offset to 0 |
| InsightsView.PeriodState.PrevPeriod | src/components/InsightsView.tsx:100 | The left arrow lowers the offset by one, without bound |
| InsightsView.PeriodState.NextPeriod | src/components/InsightsView.tsx:125 | The right arrow raises the offset by one, without bound |
| InsightsView.WindowOf | src/components/InsightsView.tsx:24-38 | Both ends keep now's time of day and the start is before the end |
| InsightsView.MonthStartFields | src/components/InsightsView.tsx:30 | The 1st of absolute month a reads back as year a / 12, month a % 12, day 1 |
| InsightsView.ResolveWindow | src/components/InsightsView.tsx:24-38 | Mutating `start` from now and `end` from start yields exactly the closed-form window |
| InsightsView.WindowStart | src/components/InsightsView.tsx:27-33 | `start` is 7 days back plus `offset` weeks, the 1st of month now + offset, or January 1 of year now + offset |
| InsightsView.WindowEnd | src/components/InsightsView.tsx:35-38 | `end` is one week, month or year after `start` |
| InsightsView.WeekStartSetter | src/components/InsightsView.tsx:28 | `setDate(date - 7 + 7 offset)` is now moved back one week and on `offset` weeks |
| InsightsView.MonthStartSetter | src/components/InsightsView.tsx:30 | `setMonth(month + offset, 1)` lands on the 1st of the target month, the year rolled by normalisation |
| InsightsView.NextMonthSetter | src/components/InsightsView.tsx:37 | From a month's 1st, `setMonth(getMonth() + 1)` reaches the 1st of the next month |
| InsightsView.YearStartSetter | src/components/InsightsView.tsx:32 | `setFullYear(year + offset, 0, 1)` lands on January 1 of the target year |
| InsightsView.NextYearSetter | src/components/InsightsView.tsx:38 | From January 1, `setFullYear(getFullYear() + 1)` reaches January 1 of the next year |
| InsightsView.InWindowDays | src/components/InsightsView.tsx:42-43 | A window of days s..e with both ends at time ms takes days s..e-1 at exact midnight and s+1..e otherwise |
| InsightsView.WeekWindowDays | src/components/InsightsView.tsx:27-28 | After midnight the week view takes the logs dated today-6+7·offset through today+7·offset |
| InsightsView.MonthWindowDays | src/components/InsightsView.tsx:29-30 | After midnight the month view leaves out the month's 1st and takes in the next month's 1st |
| InsightsView.YearWindowDays | src/components/InsightsView.tsx:31-32 | After midnight the year view leaves out January 1 and takes in January 1 of the next year |
| InsightsView.FilterWindow | src/components/InsightsView.tsx:40-44 | Each log stays as often as in the input exactly when its date parses into the window |
| InsightsView.InsertByDate | src/components/InsightsView.tsx:45 | Inserting into a date-sorted list keeps it sorted and adds exactly the one log |
| InsightsView.SortByDate | src/components/InsightsView.tsx:45 | The result is sorted ascending by date string and a permutation of the input |
| InsightsView.FilteredDataSpec | src/components/InsightsView.tsx:40-45 | `filteredData` holds exactly the window's logs, as often as the input does, in ascending date order |
| InsightsView.MoodSumBounds | src/components/InsightsView.tsx:61 | The moods of well-formed logs add up to between 1 and 5 per log |
| InsightsView.AverageMoodBounds | src/components/InsightsView.tsx:59-63 | The average is 0 exactly when no log is in the window, and otherwise sum/count in 1..5 |
| InsightsView.WeekLabel | src/components/InsightsView.tsx:109-112 | "THIS WEEK" exactly for offset 0, otherwise "WEEK " and the offset |
| InsightsView.YearLabelIsWindowYear | src/components/InsightsView.tsx:120-122 | The year label is the current year plus the offset, even from February 29 |
| InsightsView.SetFullYearStaysInYear | src/components/InsightsView.tsx:121 | `setFullYear(y)` keeps month and day and never leaves year y |
| InsightsView.MonthLabelShift | src/components/InsightsView.tsx:113-119 | The label is the window's month when today's day of month exists in it, and the month after otherwise |
| InsightsView.MonthLabelPastWindow | src/components/InsightsView.tsx:113-119 | From January 31, 2025 one month forward, the window is February and the label March |
| InsightsView.WindowMonthLabelMatchesWindow | src/components/InsightsView.tsx:113-119 | The label taken from the window's start always names the month `offset` months from now's |
| InsightsView.MonthOfSetMonth | src/components/InsightsView.tsx:115 | `setMonth(k)` lands in month k when today's day exists there, and in the month after otherwise |
| InsightsView.MonthOfDayInMonth | src/components/InsightsView.tsx:115 | Day d of month m lies in m when it exists and in the next month otherwise |
| InsightsView.MonthWindow | src/components/InsightsView.tsx:29-37 | Both ends keep the time of day and the start is before the end; WindowStart and WindowEnd place it |
| InsightsView.YearWindow | src/components/InsightsView.tsx:31-38 | Both ends keep the time of day and the start is before the end; WindowStart and WindowEnd place it |
| InsightsView.InWindow | src/components/InsightsView.tsx:41-44 | No contract of its own; InWindowDays characterises it |
| InsightsView.FilteredData | src/components/InsightsView.tsx:23-56 | No contract of its own; FilteredDataSpec characterises it |
| InsightsView.MoodSum | src/components/InsightsView.tsx:61 | No contract of its own; MoodSumBounds characterises it |
| InsightsView.AverageMood | src/components/InsightsView.tsx:59-63 | No contract of its own; AverageMoodBounds characterises it |
| InsightsView.YearLabel | src/components/InsightsView.tsx:120-122 | No contract of its own; YearLabelIsWindowYear characterises it |
| InsightsView.MonthLabel | src/components/InsightsView.tsx:113-119 | No contract of its own; MonthLabelShift and MonthLabelPastWindow characterise it |
| InsightsView.WindowMonthLabel | src/components/InsightsView.tsx:113-119 | No contract of its own; WindowMonthLabelMatchesWindow characterises it |
| DateNavigator.TodayStringIsIso | src/components/DateNavigator.tsx:21-30 | For a four-digit year, today's string is the ISO 8601 date of today (1-based month, zero-padded), and parsing it gives today's midnight |
| DateNavigator.ParseLocalRoundTrip | src/components/DateNavigator.tsx:32-35 | Parsing a valid date's string gives its local midnight, and formatting that again gives the same string |
| DateNavigator.SelectedDayOrder | src/components/DateNavigator.tsx:37-39 | For four-digit years `isToday` holds exactly on today and `isFuture` exactly after today |
| DateNavigator.NextStepsPastToday | src/components/DateNavigator.tsx:112 | The next arrow is enabled on today and disabled exactly on later days |
| DateNavigator.Truthy | src/components/DateNavigator.tsx:51 | No contract of its own; HandleSwipe's contract states its role |
| DateNavigator.HandleSwipe | src/components/DateNavigator.tsx:50-63 | Never both callbacks; nothing unless both coordinates are truthy; next exactly for a left swipe over 50 px when not future; previous exactly for a right swipe over 50 px |
| DateNavigator.ShortSwipeIgnored | src/components/DateNavigator.tsx:51-55 | A movement of at most 50 px fires nothing |
| DateNavigator.ReversedSwipe | src/components/DateNavigator.tsx:57-62 | Reversing a next-day swipe gives a previous-day swipe, and back unless the day is in the future |
| DateNavigator.SwipeTracker.TouchStart | src/components/DateNavigator.tsx:41-43 | The touch start is recorded |
| DateNavigator.SwipeTracker.TouchEnd | src/components/DateNavigator.tsx:45-48 | The touch end is recorded and the swipe decided on the gesture's own start and end |
| DateNavigator.SwipeTracker.TouchEndAsWritten | src/components/DateNavigator.tsx:45-48 | The touch end is recorded, but the swipe is decided on the end coordinate held before this gesture |
| DateNavigator.FirstSwipeAsWritten | src/components/DateNavigator.tsx:45-51 | The first 200 px left swipe after mounting fires nothing as written, and moves to the next day when decided on its own end |
| DateNavigator.TodayString | src/components/DateNavigator.tsx:21-30 | No contract of its own; TodayStringIsIso characterises it |
| DateNavigator.ParseLocalDate | src/components/DateNavigator.tsx:32-35 | No contract of its own; ParseLocalRoundTrip characterises it |
| DateNavigator.IsToday | src/components/DateNavigator.tsx:38 | No contract of its own; SelectedDayOrder characterises it |
| DateNavigator.IsFuture | src/components/DateNavigator.tsx:39 | No contract of its own; SelectedDayOrder characterises it |
| DateNavigator.NextDisabled | src/components/DateNavigator.tsx:112 | No contract of its own; NextStepsPastToday characterises it |
| DateNavigator.SwipeTracker.constructor | src/components/DateNavigator.tsx:18-19 | Both touch coordinates start as null |
| WorkoutLogger.TrimStart | src/components/WorkoutLogger.tsx:23 | A suffix that does not start with white space; everything cut off is white space |
| WorkoutLogger.TrimEnd | src/components/WorkoutLogger.tsx:23 | A prefix that does not end with white space; everything cut off is white space |
| WorkoutLogger.TrimIsSlice | src/components/WorkoutLogger.tsx:23 | `trim()` is a slice with white space cut from both ends and none left at either end |
| WorkoutLogger.TrimBlank | src/components/WorkoutLogger.tsx:24 | The trimmed input is empty exactly when the input is all white space |
| WorkoutLogger.TrimIdempotent | src/components/WorkoutLogger.tsx:23 | Trimming twice is trimming once |
| WorkoutLogger.KeepOthersRemoves | src/components/WorkoutLogger.tsx:30-32 | An index in range removes exactly that element and keeps the others in order; any other index leaves the list unchanged |
| WorkoutLogger.KeepOthersLength | src/components/WorkoutLogger.tsx:30-32 | The length drops by one exactly for an index in range |
| WorkoutLogger.WorkoutForm.Type | src/components/WorkoutLogger.tsx:96 | Typing sets the text field only |
| WorkoutLogger.WorkoutForm.AddExercise | src/components/WorkoutLogger.tsx:22-28 | A blank input changes nothing; otherwise the trimmed text is appended (duplicates allowed), earlier entries are unchanged and the field is cleared |
| WorkoutLogger.WorkoutForm.RemoveExercise | src/components/WorkoutLogger.tsx:30-32 | The list becomes the filtered list; nothing else changes |
| WorkoutLogger.WorkoutForm.ToggleWorkout | src/components/WorkoutLogger.tsx:52 | The switch negates `workedOut` and keeps the list |
| WorkoutLogger.IsJsSpace | src/components/WorkoutLogger.tsx:23 | No contract of its own; TrimStart and TrimEnd cut exactly these characters |
| WorkoutLogger.Trim | src/components/WorkoutLogger.tsx:23 | No contract of its own; TrimIsSlice, TrimBlank and TrimIdempotent characterise it |
| WorkoutLogger.KeepOthers | src/components/WorkoutLogger.tsx:31 | No contract of its own; KeepOthersRemoves and KeepOthersLength characterise it |
| WorkoutLogger.WorkoutForm.constructor | src/components/WorkoutLogger.tsx:14-20 | The switch and the list are the props, and the text field starts empty |
| DrinkCounter.Decrement | src/components/DrinkCounter.tsx:32 | The result is never negative, and is count - 1 for a count of at least 1, else 0 |
| DrinkCounter.Increment | src/components/DrinkCounter.tsx:42 | The plus button always raises the count, with no upper bound |
| DrinkCounter.CountStaysNonNegative | src/components/DrinkCounter.tsx:32-42 | From a count ≥ 0 both buttons keep it ≥ 0 |
| DrinkCounter.DecrementAtZero | src/components/DrinkCounter.tsx:32 | The minus button at 0 stays at 0 |
| DrinkCounter.IncrementThenDecrement | src/components/DrinkCounter.tsx:32-42 | Plus then minus gives back any count ≥ 0 |
| DrinkCounter.DecrementThenIncrement | src/components/DrinkCounter.tsx:32-42 | Minus then plus gives back the count exactly when it was positive |
| Encryption.EncryptNote | src/utils/encryption.ts:7-15 | "" stays ""; a cipher that throws leaves the note as is; otherwise the cipher text |
| Encryption.Utf16Length | src/utils/encryption.ts:23 | JavaScript's `length` is between the character count and twice it |
| Encryption.BmpUtf16Length | src/utils/encryption.ts:23 | For characters in the Basic Multilingual Plane, `length` is the character count |
| Encryption.LooksPlain | src/utils/encryption.ts:20-24 | No contract of its own; DecryptNote's contract states its role |
| Encryption.DecryptNote | src/utils/encryption.ts:17-42 | "" stays ""; a plain-looking text comes back without the cipher; otherwise a non-empty decryption is the result, and a throw or an empty decryption returns the input; never empty for a non-empty input |
| Encryption.NoteRoundTrip | src/utils/encryption.ts:7-42 | Decrypting an encrypted note gives it back when the cipher inverts on it and its cipher text does not look plain |
| Encryption.FailedEncryptionReadsBack | src/utils/encryption.ts:9-14 | A note stored in plain text after a throwing encryption reads back unchanged when it looks plain or does not decrypt |
| Encryption.EncryptArray | src/utils/encryption.ts:44-47 | Same length; element i is the encrypted element i; [] for [] |
| Encryption.DecryptArray | src/utils/encryption.ts:49-52 | Same length; element i is the decrypted element i; [] for [] |
| Encryption.ArrayRoundTrip | src/utils/encryption.ts:44-52 | A list whose items round-trip reads back as the same list |
| ThemeContext.IsTheme | src/contexts/ThemeContext.tsx:12 | No contract of its own; LoadAgreesWithChoice is stated for it |
| ThemeContext.SavedTheme | src/contexts/ThemeContext.tsx:43 | A missing or empty stored value is "auto"; any other stored string is taken unvalidated |
| ThemeContext.LoadAgreesWithChoice | src/contexts/ThemeContext.tsx:46-49 | For the three themes, loading and choosing agree on darkness; any other stored string loads light |
| ThemeContext.ThemeProvider.constructor | src/contexts/ThemeContext.tsx:41-59 | On load the theme is the saved one and dark exactly for "dark" or "auto" with a dark system; the root class matches |
| ThemeContext.ThemeProvider.ApplyTheme | src/contexts/ThemeContext.tsx:31-38 | The root "dark" class is present exactly when asked for; nothing else changes |
| ThemeContext.ThemeProvider.SetTheme | src/contexts/ThemeContext.tsx:75-94 | Theme and stored value become the choice; dark for "dark", light for "light", the system preference otherwise; the root class matches |
| ThemeContext.ThemeProvider.SystemChange | src/contexts/ThemeContext.tsx:62-73 | A system change moves `isDark` and the root class only while the theme is "auto" |
| ThemeContext.ShouldBeDark | src/contexts/ThemeContext.tsx:46-49 | No contract of its own; LoadAgreesWithChoice and ThemeProvider.constructor use it |
| ThemeContext.DarkAfterChoice | src/contexts/ThemeContext.tsx:80-93 | No contract of its own; LoadAgreesWithChoice and ThemeProvider.SetTheme use it |

## Left out

- Supabase reads and writes, and the pages and forms around them, are not part of this model: they are network I/O.
- The AES cipher and its key are not modelled. The wrapper takes any pair of total functions that return a text or throw. Decryption inverting encryption is a hypothesis of the round-trip lemmas, because the library's byte format is foreign code.
- `toFixed(1)`, and all `toLocaleDateString` text (month and week headers, `displayDate`, tooltips), are left out because they are floating-point and locale formatting. The average is the exact mean.
- Time zones and daylight saving are not modelled. Dates are local wall-clock days of 86,400,000 ms. The UTC offset is a parameter where `toISOString` is used, and the week index divides whole days.
- Each `new Date()` call in a render is the same instant, `now`, because the clock is an input.
- MobileHistoryGrid.MonthPicker: the current month is fixed when the picker is created. The component recomputes `today` on every render, so its bound moves when the month changes while it stays mounted. The model does not capture that.
- ActivitiesGrid.YearStepper: the current year is fixed when the stepper is created, for the same reason as the month picker.
- Dates are unbounded. JavaScript's limit of ±8.64e15 ms, and the Invalid Date it produces beyond that, are not modelled.
- `new Date(s + "T00:00:00")` is modelled as a strict parse of `YYYY-MM-DD` with a valid month and day. Anything else is an invalid date, for which every comparison is false. The engines' lenient parsing of other forms is left out.
- Number: it reads only digit strings and the empty string (as 0). Signs, decimals, exponents and white space are left out, because dates never contain them.
- ParseLocalRoundTrip: stated only for years 100 and later. The Date constructor maps years 0..99 to 1900..1999.
- SelectedDayOrder, NextStepsPastToday, TodayStringIsIso, CellKeysDistinct, LocalDateOrder: stated only for four-digit years. For other years string order is not date order.
- `localeCompare` in the sort is taken as the order of `LexLess`, because locale collation is not modelled. The dates compared are digit strings.
- LexLess: compares characters by code point, while JavaScript's `<` compares UTF-16 code units. The two orders differ only for characters above U+FFFF against characters in U+E000..U+FFFF; date strings are ASCII.
- Strings are sequences of Unicode characters, not of UTF-16 code units. The other lengths in the model are of digit strings, where the two counts agree; `LooksPlain` counts code units through `Utf16Length`.
- Touch coordinates are integers.
- SwipeTracker.TouchEnd: decides on the coordinate just recorded, the evidently intended behaviour. The component's `handleSwipe` runs in the closure of the render that created `onTouchEnd` and reads that render's `touchEnd`, which always holds the previous gesture's end: the first swipe after mounting decides nothing, and later swipes are decided on the previous end point. TouchEndAsWritten models that, and it is under "## Findings".
- ThemeProvider.constructor: the layout effect and its queued microtask are folded into one step. Other React scheduling, `useEffect` subscription timing, and the storage and media-query APIs are modelled as plain fields.
- The `Theme` type is not enforced at run time, so `SetTheme` accepts any string, as the JavaScript does.
- Colour class strings, tooltips, animation and scrolling are left out. Cells carry only their colour bucket.
- DrinkCounter.Increment: states only that the count rises. The exact count + 1 follows from IncrementThenDecrement and DecrementThenIncrement.

## Findings

| source | as written | input that shows it | evidently intended | confidence | as-written member | corrected member |
|---|---|---|---|---|---|---|
| src/components/InsightsView.tsx:113-119 | The month label moves a copy of now with `setMonth(getMonth() + offset)`, which keeps today's day of month | January 31, 2025 at noon, offset 1: the data window is February 2025, the label says March 2025 | The label names the data window's month, as `start.setMonth(month + offset, 1)` does | not executed | InsightsView.MonthLabelPastWindow | InsightsView.WindowMonthLabelMatchesWindow |
| src/components/HistoryGrid.tsx:122-126 | Cells are keyed by `toISOString().split("T")[0]`, the UTC date of local midnight | A zone one hour east of UTC: the cell of 2025-01-01 gets the key "2024-12-31" and does not show the log saved for 2025-01-01 | Cells are keyed by their local date, like the month and year calendars | not executed | HistoryGrid.HistoryKeyEastOfUtc | HistoryGrid.LocalCellKeyIsDay |
| src/components/DateNavigator.tsx:45-51 | `handleTouchEnd` calls `setTouchEnd` and then `handleSwipe`, which reads the `touchEnd` of the render that created the handler, so the previous gesture's end | The first swipe after mounting, from x = 300 to x = 100 on a past day: `touchEnd` is still null and nothing fires | The swipe is decided on its own end coordinate | not executed | DateNavigator.FirstSwipeAsWritten | DateNavigator.SwipeTracker.TouchEnd |
