/**
 * The loops of buildCalendar (jquery.simple-calendar.js:79-125) that walk the
 * grid day by day, proved to produce the cells that `Grid.MonthCells` defines.
 */
module Walk {
  import opened Dates
  import opened Events
  import opened Grid

  /** The first-day loop (:79-83): from the first of the month back to a Monday. */
  method FirstGridDay(y: int, m: int) returns (firstDay: Date)
    requires 0 <= m < 12
    ensures firstDay == GridStart(y, m)
  {
    firstDay := Date(y, m, 1);
    ghost var n, lead := DayNumber(firstDay), LeadDays(y, m);
    ghost var steps: nat := 0;
    while WeekDayOf(firstDay) != MONDAY
      invariant steps <= lead
      invariant firstDay.Valid() && DayNumber(firstDay) + steps == n
      decreases lead - steps
    {
      BackToMonday(n, steps);
      firstDay := PrevDay(firstDay);
      steps := steps + 1;
    }
    BackToMonday(n, steps);
    DayNumberInjective(firstDay, GridStart(y, m));
  }

  /** The last-day loop (:85-89): from `new Date(y, m + 1, 0)` forward to a Sunday. */
  method LastGridDay(y: int, m: int) returns (lastDay: Date)
    requires 0 <= m < 12
    ensures lastDay == GridEnd(y, m)
  {
    lastDay := LastOfMonth(y, m);
    ghost var n := DayNumber(lastDay);
    ghost var trail := (7 - WeekDay(n)) % 7;
    ghost var steps: nat := 0;
    while WeekDayOf(lastDay) != SUNDAY
      invariant steps <= trail
      invariant lastDay.Valid() && DayNumber(lastDay) == n + steps
      decreases trail - steps
    {
      ForwardToSunday(n, steps);
      lastDay := NextDay(lastDay);
      steps := steps + 1;
    }
    ForwardToSunday(n, steps);
    assert steps == TrailDays(y, m);
    DayNumberInjective(lastDay, GridEnd(y, m));
  }

  /**
   * The inner loop (:95-123): seven cells from `day`, advancing `day` after
   * each one.
   */
  method BuildRow(day: Date, fromDate: Date, today: Moment, events: seq<Event>)
    returns (row: seq<Cell>, next: Date)
    requires day.Valid()
    ensures |row| == 7
    ensures row == CellsFrom(day, |row|, fromDate, today, events)
    ensures next == Forward(day, |row|)
  {
    row, next := [], day;
    for i := 0 to 7
      invariant next == Forward(day, i)
      invariant row == CellsFrom(day, i, fromDate, today, events)
    {
      CellsFromAppend(day, i, 1, fromDate, today, events);
      CellsFromOne(next, fromDate, today, events);
      row := row + [MakeCell(next, fromDate, today, events)];
      next := NextDay(next);
    }
  }

  /**
   * The row loop (:92-125): from `firstDay` while `day <= lastDay`, one row of
   * seven cells at a time, for a span of whole weeks.
   */
  method BuildRows(firstDay: Date, lastDay: Date, ghost rows: nat, fromDate: Date, today: Moment, events: seq<Event>)
    returns (weeks: seq<seq<Cell>>)
    requires firstDay.Valid() && lastDay.Valid()
    requires DayNumber(lastDay) - DayNumber(firstDay) + 1 == 7 * rows
    ensures weeks == Weeks(CellsFrom(firstDay, 7 * rows, fromDate, today, events))
  {
    var day := firstDay;
    ghost var walked: nat := 0;
    weeks := [];
    while DayNumber(day) <= DayNumber(lastDay)
      invariant walked == 7 * |weeks|
      invariant walked <= 7 * rows
      invariant day.Valid() && DayNumber(day) == DayNumber(firstDay) + walked
      invariant weeks == Weeks(CellsFrom(firstDay, walked, fromDate, today, events))
      decreases DayNumber(lastDay) - DayNumber(day)
    {
      RowsLeft(DayNumber(firstDay), DayNumber(day), DayNumber(lastDay), |weeks|, rows);
      var row, next := BuildRow(day, fromDate, today, events);
      RowStep(firstDay, day, walked, weeks, row, fromDate, today, events);
      day := next;
      weeks := weeks + [row];
      walked := walked + 7;
    }
    assert walked == 7 * rows;
  }

  /** The grid part of buildCalendar (:76-125): first and last grid day, then the rows. */
  method BuildWeeks(fromDate: Date, today: Moment, events: seq<Event>) returns (weeks: seq<seq<Cell>>)
    requires fromDate.Valid()
    ensures weeks == Weeks(MonthCells(fromDate, today, events))
  {
    var y, m := fromDate.year, fromDate.month;
    var firstDay := FirstGridDay(y, m);
    var lastDay := LastGridDay(y, m);
    GridEndAfterStart(y, m);
    ghost var size := GridSize(y, m);
    ghost var rows := size / 7;
    assert 7 * rows == size;
    weeks := BuildRows(firstDay, lastDay, rows, fromDate, today, events);
    assert CellsFrom(firstDay, 7 * rows, fromDate, today, events) == MonthCells(fromDate, today, events);
  }

}
