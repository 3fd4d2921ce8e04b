# simple-calendar — a verified model of the month view

simple-calendar is a jQuery plugin that draws a month calendar. Its header
shows the month name and, optionally, the year. Below it is a table with one
row of day names and four to six rows of days, running Monday to Sunday.
Each day cell may carry three CSS classes:

- `today` for the clock's current day;
- `wrong-month` for days of the previous or next month that fill the first and last rows;
- `has-event` for days on which a configured event starts or ends.

Two buttons move the shown date one month back or forward. The
`onMonthChange` callback is then told the new month and year.

This project models the calendar logic under the DOM plumbing, in six modules.

- `Dates` (dates.dfy) covers Gregorian arithmetic as the plugin gets it
  from JavaScript's Date object in local time.
  - A day is `Date(year, month 0..11, day)`, with a day number counted from
    1 January 1970.
  - The functions follow the abstract operations DayFromYear, MakeDay,
    WeekDay and DateFromTime of section 21.4.1 of ECMA-262.
  - The day-number encoding is proved equal to the closed formula of ECMA-262.
  - Day numbers are proved to order dates as the calendar does. So every
    operation returns exactly the date JavaScript would, with two exceptions:
    - time values beyond ±8.64 × 10^15 ms, where the Date object holds NaN
      (see the Dates.AddMonths line under "Left out");
    - years 0 to 99 in the Date constructor, which reads them as 1900 to 1999
      (see "Findings").
  - Operations: stepping one day with `setDate`, moving months with `setMonth`
    (carry into the year and overflow of the day of month), and the last day
    of a month (`new Date(y, m + 1, 0)`).
- `Events` (events.dfy) covers `isSameday` and the filter that selects a
  cell's events.
- `Header` (header.dfy) covers the header text and the day-name row,
  including the TypeError the day-name loop throws on a short `days` list.
- `Grid` (grid.dfy) holds the reference definition of the cells of a month.
  - The grid starts at the Monday on or before the first of the month and
    ends at the Sunday on or after its last day, with one cell per day and
    seven cells per row.
  - Lemmas cover the grid's shape, its week days, its coverage of the month
    and its flags.
- `Walk` (walk.dfy) holds the loops of `buildCalendar`. They walk the grid day
  by day as the plugin does and are proved to build exactly the reference
  cells.
- `Plugin` (calendar.dfy) holds the plugin object. It is a class whose
  `currentDate`, header text, drawn table and list of `onMonthChange` calls
  are updated by `changeMonth`.

## Model

| member | source | states |
|---|---|---|
| Dates.DayFromYearFormula | src/jquery.simple-calendar.js:79 | the day number of 1 January of any year, counted year by year with 366-day leap years, equals ECMA-262's DayFromYear formula with its floor divisions by 4, 100 and 400 |
| Dates.DaysInMonth | src/jquery.simple-calendar.js:85 | months have 28 to 31 days, and a month has 29 exactly when it is February of a leap year |
| Dates.DayNumberOrder | src/jquery.simple-calendar.js:92 | one valid date has a smaller day number than another exactly when it comes first in (year, month, day) order, which is what the `day <= lastDay` comparison relies on |
| Dates.DayNumberInjective | src/jquery.simple-calendar.js:82 | two valid dates with the same day number are the same date, so a day count names a single calendar date |
| Dates.NextDay | src/jquery.simple-calendar.js:88 | `setDate(getDate() + 1)` yields a valid date whose day number is one more, rolling into the next month and year |
| Dates.PrevDay | src/jquery.simple-calendar.js:82 | `setDate(getDate() - 1)` yields a valid date whose day number is one less, rolling back into the previous month and year |
| Dates.StepsAreMakeDay | src/jquery.simple-calendar.js:82 | a date's day number and those of its neighbours are what MakeDay computes for day ± 1, so stepping agrees with the setDate normalisation |
| Dates.StepWeekDay | src/jquery.simple-calendar.js:81-88 | the next day is the next week day, with Saturday wrapping to Sunday, and the previous day is the one before |
| Dates.LastOfMonthIsMakeDay | src/jquery.simple-calendar.js:85 | `new Date(y, m + 1, 0)` is the last day of month m, December carrying into the next year, and no day of the month lies after it |
| Dates.FirstOfNextMonth | src/jquery.simple-calendar.js:85 | the first of the following month, December to January of the next year, is the day after the last of this month |
| Dates.LastOfMonth | src/jquery.simple-calendar.js:85 | `new Date(y, m + 1, 0)`, for a year outside 0 to 99, is a valid date in month m of year y; LastOfMonthIsMakeDay shows it is the month's last day |
| Dates.AddMonths | src/jquery.simple-calendar.js:136 | `setMonth(getMonth() + v)` yields the valid date whose day number is MakeDay(year, month + v, day) |
| Dates.AddMonthsCarry | src/jquery.simple-calendar.js:136 | moving by v months lands v months on, counting year × 12 + month, plus one when the day of month does not exist in the target month; the day is kept exactly when it does |
| Dates.ForwardAdd | src/jquery.simple-calendar.js:122 | moving a days and then b days is moving a + b days |
| Dates.SameMonthLaterYear | src/jquery.simple-calendar.js:103 | the same month of a later year starts at least 334 days later |
| Events.IsSameDay | src/jquery.simple-calendar.js:193-197 | comparing full year, month and day of month holds exactly when the two calendar days are the same date |
| Events.EventsOn | src/jquery.simple-calendar.js:108-110 | the filter returns no more events than it is given, every event it returns starts or ends on the day, and an empty list gives an empty list |
| Events.SameDayIsDayEquality | src/jquery.simple-calendar.js:193-197 | isSameday holds exactly when the calendar days are equal; it ignores the time of day and is reflexive, symmetric and transitive |
| Events.EventsOnMembers | src/jquery.simple-calendar.js:108-110 | the filter keeps exactly the events that start or end on the day, and keeps all of them only when each one does |
| Events.HasEventIff | src/jquery.simple-calendar.js:112-113 | a day is flagged exactly when some event starts or ends on it; an empty event list flags nothing |
| Events.InteriorDaysNotFlagged | src/jquery.simple-calendar.js:108-113 | a day strictly inside every event's span is not flagged |
| Events.MarchScenario | src/jquery.simple-calendar.js:108-113 | for an event from 10 to 12 March 2024 the 10th and the 12th are flagged and the 11th is not |
| Header.HeaderText | src/jquery.simple-calendar.js:55-56 | the header starts with the month's name, is exactly that name without displayYear, and is longer than the name plus one character with it |
| Header.YearString | src/jquery.simple-calendar.js:56 | `String(year)` is non-empty, starts with a minus sign exactly for a negative year, and is otherwise made of decimal digits |
| Header.HeaderTextReadsBack | src/jquery.simple-calendar.js:55-56 | with displayYear, the month name is followed by a space and a string that reads back as the date's full year, negative years included |
| Header.ParseYearString | src/jquery.simple-calendar.js:56 | the decimal string of a year reads back as that year |
| Header.Abbrev | src/jquery.simple-calendar.js:72 | `substring(0, 3)` is a prefix of at most three characters, exactly three for a longer name, the whole name for a shorter one |
| Header.DayLabels | src/jquery.simple-calendar.js:71-73 | the day-name row has one label per name; with at least seven names the first label is Monday's and the seventh Sunday's |
| Header.ColumnLabel | src/jquery.simple-calendar.js:71-73 | the label over column c is the name of week day (c + 1) % 7, cut to three characters |
| Header.DayNameHeader | src/jquery.simple-calendar.js:71-73 | the day-name loop throws a TypeError exactly when the list has one to six names; otherwise it yields one label per name, label k naming day (k + 1) % 7 |
| Header.MondayFirst | src/jquery.simple-calendar.js:71-73 | with seven names the row reads Monday to Saturday, then Sunday, each cut to three characters |
| Grid.GridStartMonday | src/jquery.simple-calendar.js:79-83 | the first cell is a Monday, on or before the first of the month and at most six days before it |
| Grid.GridEndSunday | src/jquery.simple-calendar.js:85-89 | the last cell is a Sunday, on or after the month's last day and at most six days after it |
| Grid.GridSize | src/jquery.simple-calendar.js:92-125 | the grid holds a whole number of weeks, 28 to 42 cells, that is four to six rows |
| Grid.GridEndAfterStart | src/jquery.simple-calendar.js:92 | the last cell lies GridSize − 1 days after the first, so the row loop stops after exactly GridSize cells |
| Grid.CellsConsecutive | src/jquery.simple-calendar.js:122 | neighbouring cells are consecutive days in ascending order |
| Grid.WeeksCell | src/jquery.simple-calendar.js:92-125 | the rows hold seven cells each, and column c of row r is cell 7r + c |
| Grid.CellWeekDay | src/jquery.simple-calendar.js:92-125 | cell k falls on week day (k + 1) % 7 |
| Grid.RowsRunMondayToSunday | src/jquery.simple-calendar.js:92-125 | column c of every row falls on week day (c + 1) % 7, so each row runs Monday to Sunday |
| Grid.MonthDayCell | src/jquery.simple-calendar.js:92-125 | day d of the displayed month is in the grid, at cell LeadDays + d − 1 |
| Grid.MonthDayOnce | src/jquery.simple-calendar.js:92-125 | day d of the displayed month is in cell k exactly when k is LeadDays + d − 1, so it appears exactly once |
| Grid.CellInMonth | src/jquery.simple-calendar.js:102-105 | a cell's month index equals the shown month exactly between the lead and trailing days, and such a cell is also in the shown year |
| Grid.MakeCell | src/jquery.simple-calendar.js:96-119 | a cell is flagged today exactly on the clock's calendar day, wrong-month exactly when its month index differs from the shown month's, and has-event exactly when some event starts or ends that day |
| Grid.CellFlags | src/jquery.simple-calendar.js:96-119 | each cell is wrong-month exactly outside the shown month and year, today exactly on the clock's day, and has-event exactly when some event starts or ends that day |
| Grid.February2024 | src/jquery.simple-calendar.js:76-125 | February 2024 is drawn from Monday 29 January to Sunday 3 March, in 35 cells |
| Grid.GridStartAsWritten | src/jquery.simple-calendar.js:79-83 | the first-day loop started from `new Date(y, m, 1)` as written ends on a Monday, and on the intended one for every year outside 0 to 99 |
| Grid.TwoDigitYearMissesMonth | src/jquery.simple-calendar.js:79 | for a year 0 to 99 the grid as written starts after the last day of the shown month |
| Walk.FirstGridDay | src/jquery.simple-calendar.js:79-83 | the first-day loop terminates and returns the reference first cell |
| Walk.LastGridDay | src/jquery.simple-calendar.js:85-89 | the last-day loop terminates and returns the reference last cell |
| Walk.BuildRow | src/jquery.simple-calendar.js:95-123 | the inner loop yields seven cells for the seven consecutive days from `day`, and leaves `day` seven days on |
| Walk.BuildRows | src/jquery.simple-calendar.js:92-125 | over a span of whole weeks the row loop terminates and yields the cells of the span cut into rows of seven |
| Walk.BuildWeeks | src/jquery.simple-calendar.js:76-125 | the grid part of buildCalendar yields exactly the reference rows of the month |
| Plugin.TableShape | src/jquery.simple-calendar.js:61-125 | with seven or more day names the table is drawn with one label per name and four to six rows of seven cells, and the label over each column names that column's week day |
| Plugin.TableFails | src/jquery.simple-calendar.js:71-73 | drawing fails, with a TypeError, exactly when there are one to six day names |
| Plugin.BuildCalendar | src/jquery.simple-calendar.js:61-133 | buildCalendar draws the reference table, or throws the day-name TypeError |
| Plugin.SimpleCalendar.constructor | src/jquery.simple-calendar.js:22-51 | the new object shows the clock's date with a matching header and table, and has made no onMonthChange call |
| Plugin.SimpleCalendar.ChangeMonth | src/jquery.simple-calendar.js:135-140 | currentDate moves by v months, keeping its time of day; header and table are redrawn for it; onMonthChange is called exactly once more, with the new month and year |
| Plugin.Attach | src/jquery.simple-calendar.js:22-29 | constructing the plugin throws a TypeError exactly when the day names are not readable; otherwise the object is new, shows `now` with a header and a table drawn for the clock reading `today`, and has made no onMonthChange call |
| Plugin.DecemberToJanuary | src/jquery.simple-calendar.js:136 | December plus one month is January of the next year, and January minus one month is December of the previous year |
| Plugin.ThirtyFirstSkipsFebruary | src/jquery.simple-calendar.js:136 | from 31 January, one month on is 2 March in a leap year and 3 March otherwise |

## Left out

- Building the DOM (the table, header, buttons and event container, :37-48, 64-73, 93-133) is not modelled. The model produces the label row and the rows of cells with their three flags.
- Click handlers (`bindEvents`, the per-cell click at :116-118) and the `fillUp`/`empty` animations (:156-192) are user-interface plumbing.
- The jQuery plugin wrapper and its `$.data` instance registry are library plumbing.
- Reading the clock (`new Date()` at :27 and :98) is a parameter: `now` for the constructor and `today` for each drawing.
  - The source reads the clock again for every cell. The model uses one reading per drawing, so a drawing that crosses midnight is not captured.
- Parsing event date strings (`new Date(event.startDate)`) is left out: events are given as already-parsed local moments.
  - Time zones are left out with it. Date-only ISO strings parse as UTC.
  - Daylight-saving shifts are left out too. They could make the `day <= lastDay` timestamp comparison differ from the calendar-day comparison modelled here.
- `minDate`, `maxDate`, `fixedStartDay` and `displayEvent` are declared among the defaults but never read, so they are not modelled. The week always starts on Monday.
- The `onMonthChange` callback is code the model cannot see. Its calls are recorded as the `monthChanges` list.
- Dates.AddMonths: time values beyond ±8.64 × 10^15 ms are not modelled. There the Date object would hold NaN, whereas the model's integers are unbounded.
  - Once `currentDate` is NaN, the source's first-day loop (:81-83) never ends: `getDay()` is NaN, which differs from 1, and `setDate` keeps NaN.
  - Walk.FirstGridDay: its termination, like every result of the model, holds only inside that range.
- Header.Abbrev: counts characters as Unicode scalar values, whereas `substring(0, 3)` counts UTF-16 code units.
  - For a day name that starts with a character outside the Basic Multilingual Plane, the source keeps that character and one more; the model keeps it and two more.
- The model assumes a single calendar per page. `changeMonth` redraws through the page-wide selectors `$('.calendar')` and `$('.calendar header')` (:137-138). With two calendars on a page, one instance's month change overwrites the other's header and table. The per-object `headerText`, `table` and `Valid()` of the model cannot express that.
- Settings are a complete, immutable value.
  - `$.extend({}, defaults, options)` (:24) fills omitted options from the defaults (:10-19). The model takes the merged settings as given.
  - The merge is a shallow copy, so the caller's `events` and `days` arrays stay shared, and later changes to them show on the next redraw. The model does not capture that sharing.
- The DOM element's clean-up (`calendar.find('table').remove()`) is represented only by the table being replaced.

## Findings

| source | as written | input that shows it | evidently intended | confidence | as-written member | corrected member |
|---|---|---|---|---|---|---|
| src/jquery.simple-calendar.js:79 (and :85) | `new Date(y, m, 1)` and `new Date(y, m + 1, 0)` treat a year 0 to 99 as 1900 to 1999, as the Date constructor does | a shown date in year 99 (reachable by navigating with changeMonth): the grid is built for 1999, so none of the days of the shown month is drawn | the grid of the shown year's month, built with `setFullYear` or from the date itself | not executed | Grid.TwoDigitYearMissesMonth (with Grid.GridStartAsWritten) | Grid.GridStart with Grid.GridStartMonday |
