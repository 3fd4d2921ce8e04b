/**
 * The plugin object (jquery.simple-calendar.js:22-51, 61-140): its settings,
 * the date it shows, and what it last drew: the header text, the table of
 * day labels and weeks, and the onMonthChange calls made so far.
 *
 * The clock is read by the source at construction (`new Date()`) and for
 * every cell (`new Date` in the today check); here both readings are
 * parameters.
 */
module Plugin {
  import opened Dates
  import opened Events
  import opened Header
  import opened Grid
  import opened Walk

  /** The settings the model reads; the others are declared by the plugin but never read. */
  datatype Settings = Settings(months: seq<string>, days: seq<string>, displayYear: bool, events: seq<Event>)

  /** The drawn table: the day-name row and the rows of cells. */
  datatype Table = Table(labels: seq<string>, weeks: seq<seq<Cell>>)

  /** The day-name loop reads `days[i % 7]` for every name: it needs none or at least seven. */
  predicate DaysReadable(days: seq<string>) {
    |days| == 0 || |days| >= 7
  }

  /** What buildCalendar draws for `fromDate`, or the error it throws. */
  function TableFor(days: seq<string>, fromDate: Date, today: Moment, events: seq<Event>): (r: Result<Table>)
    requires fromDate.Valid()
  {
    if !DaysReadable(days) then Failure("TypeError")
    else Success(Table(DayLabels(days), Weeks(MonthCells(fromDate, today, events))))
  }

  /**
   * A drawn table has four to six rows of seven cells; the label over column
   * c names the week day of every cell in that column, Monday first.
   */
  lemma TableShape(days: seq<string>, fromDate: Date, today: Moment, events: seq<Event>, r: nat, c: nat)
    requires fromDate.Valid() && |days| >= 7 && c < 7
    ensures var t := TableFor(days, fromDate, today, events);
      t.Success? && 4 <= |t.value.weeks| <= 6 && |t.value.labels| == |days|
      && (r < |t.value.weeks| ==>
            |t.value.weeks[r]| == 7
            && t.value.labels[c] == Abbrev(days[WeekDayOf(t.value.weeks[r][c].date)]))
  {
    var cells := MonthCells(fromDate, today, events);
    ColumnLabel(days, c);
    if r < |Weeks(cells)| {
      WeeksCell(cells, r, c);
      RowsRunMondayToSunday(fromDate, today, events, r, c);
    }
  }

  /** A table is drawn exactly when the day names are readable; otherwise a TypeError. */
  lemma TableFails(days: seq<string>, fromDate: Date, today: Moment, events: seq<Event>)
    requires fromDate.Valid()
    ensures TableFor(days, fromDate, today, events).Failure? <==> 0 < |days| < 7
    ensures TableFor(days, fromDate, today, events).Failure? ==> TableFor(days, fromDate, today, events).error == "TypeError"
  {
  }

  /** buildCalendar (:61-133): the day-name row, then the weeks of the month of `fromDate`. */
  method BuildCalendar(days: seq<string>, fromDate: Date, today: Moment, events: seq<Event>) returns (r: Result<Table>)
    requires fromDate.Valid()
    ensures r == TableFor(days, fromDate, today, events)
  {
    var labels := DayNameHeader(days);
    if labels.Failure? {
      return Failure(labels.error);
    }
    var weeks := BuildWeeks(fromDate, today, events);
    return Success(Table(labels.value, weeks));
  }

  class SimpleCalendar {
    const settings: Settings
    /** The shown date; a clock reading, so it keeps its time of day. */
    var currentDate: Moment
    /** The text of the header's month element. */
    var headerText: string
    var table: Result<Table>
    /** The (month, year) pairs passed to onMonthChange, in order. */
    var monthChanges: seq<(int, int)>
    /** The clock reading used by the last drawing. */
    ghost var drawnOn: Moment

    /** The header and table show currentDate. */
    ghost predicate Valid()
      reads this
    {
      currentDate.Valid()
      && DaysReadable(settings.days)
      && headerText == HeaderText(settings.months, currentDate.date, settings.displayYear)
      && table == TableFor(settings.days, currentDate.date, drawnOn, settings.events)
      && table.Success?
    }

    /**
     * The constructor and init (:22-51): currentDate is the clock reading
     * `now`; the header and the table are drawn for it.
     */
    constructor (settings: Settings, now: Moment, today: Moment)
      requires now.Valid() && DaysReadable(settings.days)
      ensures Valid()
      ensures this.settings == settings && currentDate == now && monthChanges == []
      ensures drawnOn == today
    {
      this.settings := settings;
      currentDate := now;
      headerText := HeaderText(settings.months, now.date, settings.displayYear);
      var t := BuildCalendar(settings.days, now.date, today, settings.events);
      table := t;
      monthChanges := [];
      drawnOn := today;
    }

    /**
     * changeMonth (:135-140): move currentDate by v months with setMonth,
     * redraw the table and the header, then call onMonthChange once with
     * the new month and year.
     */
    method ChangeMonth(v: int, today: Moment)
      requires Valid()
      modifies this
      ensures Valid()
      ensures currentDate == Moment(AddMonths(old(currentDate).date, v), old(currentDate).msOfDay)
      ensures drawnOn == today
      ensures monthChanges == old(monthChanges) + [(currentDate.date.month, currentDate.date.year)]
    {
      currentDate := Moment(AddMonths(currentDate.date, v), currentDate.msOfDay);
      var t := BuildCalendar(settings.days, currentDate.date, today, settings.events);
      table := t;
      drawnOn := today;
      headerText := HeaderText(settings.months, currentDate.date, settings.displayYear);
      monthChanges := monthChanges + [(currentDate.date.month, currentDate.date.year)];
      assert headerText == HeaderText(settings.months, currentDate.date, settings.displayYear);
      assert table == TableFor(settings.days, currentDate.date, drawnOn, settings.events);
    }
  }

  /**
   * Creating the plugin: the constructor throws from inside init when the
   * day names are not readable.
   */
  method Attach(settings: Settings, now: Moment, today: Moment) returns (r: Result<SimpleCalendar>)
    requires now.Valid()
    ensures r.Failure? <==> !DaysReadable(settings.days)
    ensures r.Failure? ==> r.error == "TypeError"
    ensures r.Success? ==>
      fresh(r.value) && r.value.Valid() && r.value.currentDate == now
      && r.value.settings == settings && r.value.monthChanges == [] && r.value.drawnOn == today
  {
    if !DaysReadable(settings.days) {
      return Failure("TypeError");
    }
    var c := new SimpleCalendar(settings, now, today);
    return Success(c);
  }

  /** December plus one month is January of the next year, and back: the year carries. */
  lemma DecemberToJanuary(y: int, d: int)
    requires 1 <= d <= 31
    ensures AddMonths(Date(y, 11, d), 1) == Date(y + 1, 0, d)
    ensures AddMonths(Date(y + 1, 0, d), -1) == Date(y, 11, d)
  {
  }

  /**
   * From 31 January one month on is 2 March in a leap year and 3 March
   * otherwise: February is skipped.
   */
  lemma ThirtyFirstSkipsFebruary(y: int)
    ensures AddMonths(Date(y, 0, 31), 1) == Date(y, 2, if IsLeapYear(y) then 2 else 3)
  {
  }
}
