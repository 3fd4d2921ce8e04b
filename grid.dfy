/**
 * The month grid that buildCalendar draws (jquery.simple-calendar.js:76-125):
 * from the Monday on or before the first of the month to the Sunday on or
 * after its last day, one cell per day, seven cells to a row, each cell
 * flagged today, wrong-month and has-event.
 *
 * `MonthCells` is the reference definition of the cell sequence, computed from
 * the week day of the month's first and last days; the methods walk day by
 * day as the source does and are proved to produce exactly that sequence.
 */
module Grid {
  import opened Dates
  import opened Events

  /** One table cell: its day and the three CSS classes it may carry. */
  datatype Cell = Cell(date: Date, today: bool, wrongMonth: bool, hasEvent: bool)

  /** How many days of the previous month open the grid. */
  function LeadDays(y: int, m: int): (n: nat)
    requires 0 <= m < 12
    ensures n < 7
  {
    (WeekDayOf(Date(y, m, 1)) + 6) % 7
  }

  /** How many days of the next month close the grid. */
  function TrailDays(y: int, m: int): (n: nat)
    requires 0 <= m < 12
    ensures n < 7
  {
    (7 - WeekDayOf(LastOfMonth(y, m))) % 7
  }

  /** Stepping back i days from day n reaches a Monday exactly after the lead days. */
  lemma BackToMonday(n: int, i: nat)
    requires i <= (WeekDay(n) + 6) % 7
    ensures WeekDay(n - i) == MONDAY <==> i == (WeekDay(n) + 6) % 7
  {
  }

  /** Stepping forward i days from day n reaches a Sunday exactly after the trailing days. */
  lemma ForwardToSunday(n: int, i: nat)
    requires i <= (7 - WeekDay(n)) % 7
    ensures WeekDay(n + i) == SUNDAY <==> i == (7 - WeekDay(n)) % 7
  {
  }

  /** The first cell: counted back from the first of the month by the lead days. */
  function GridStart(y: int, m: int): (r: Date)
    requires 0 <= m < 12
    ensures r.Valid()
  {
    Back(Date(y, m, 1), LeadDays(y, m))
  }

  /** The last cell: counted on from the last of the month by the trailing days. */
  function GridEnd(y: int, m: int): (r: Date)
    requires 0 <= m < 12
    ensures r.Valid()
  {
    Forward(LastOfMonth(y, m), TrailDays(y, m))
  }

  /** The grid starts on the Monday on or before the first of the month. */
  lemma GridStartMonday(y: int, m: int)
    requires 0 <= m < 12
    ensures WeekDayOf(GridStart(y, m)) == MONDAY
    ensures DayNumber(GridStart(y, m)) <= DayNumber(Date(y, m, 1)) < DayNumber(GridStart(y, m)) + 7
  {
    BackToMonday(DayNumber(Date(y, m, 1)), LeadDays(y, m));
  }

  /** The grid ends on the Sunday on or after the last day of the month. */
  lemma GridEndSunday(y: int, m: int)
    requires 0 <= m < 12
    ensures WeekDayOf(GridEnd(y, m)) == SUNDAY
    ensures DayNumber(LastOfMonth(y, m)) <= DayNumber(GridEnd(y, m)) < DayNumber(LastOfMonth(y, m)) + 7
  {
    var n, trail := DayNumber(LastOfMonth(y, m)), TrailDays(y, m);
    assert trail == (7 - WeekDay(n)) % 7;
    ForwardToSunday(n, trail);
    assert WeekDay(n + trail) == SUNDAY;
    assert DayNumber(GridEnd(y, m)) == n + trail;
  }

  /** A span from a Monday to a Sunday holds whole weeks. */
  lemma MondayToSunday(s: int, e: int)
    requires WeekDay(s) == MONDAY && WeekDay(e) == SUNDAY
    ensures (e - s + 1) % 7 == 0
  {
  }

  /** The first of the month and its last day lie DaysInMonth - 1 days apart. */
  lemma MonthSpan(y: int, m: int)
    requires 0 <= m < 12
    ensures DayNumber(LastOfMonth(y, m)) == DayNumber(Date(y, m, 1)) + DaysInMonth(y, m) - 1
  {
  }

  /** The grid runs from the lead days before the first to the trailing days after the last. */
  lemma GridSpan(y: int, m: int)
    requires 0 <= m < 12
    ensures DayNumber(GridStart(y, m)) + LeadDays(y, m) == DayNumber(Date(y, m, 1))
    ensures DayNumber(GridEnd(y, m)) + 1
      == DayNumber(GridStart(y, m)) + LeadDays(y, m) + DaysInMonth(y, m) + TrailDays(y, m)
  {
    MonthSpan(y, m);
  }

  lemma GridWholeWeeks(y: int, m: int)
    requires 0 <= m < 12
    ensures (LeadDays(y, m) + DaysInMonth(y, m) + TrailDays(y, m)) % 7 == 0
  {
    GridSpan(y, m);
    GridStartMonday(y, m);
    GridEndSunday(y, m);
    MondayToSunday(DayNumber(GridStart(y, m)), DayNumber(GridEnd(y, m)));
  }

  /** Number of cells: whole weeks, four to six of them. */
  function GridSize(y: int, m: int): (n: nat)
    requires 0 <= m < 12
    ensures n % 7 == 0 && 28 <= n <= 42
  {
    GridWholeWeeks(y, m);
    LeadDays(y, m) + DaysInMonth(y, m) + TrailDays(y, m)
  }

  /** The last cell is GridSize - 1 days after the first. */
  lemma GridEndAfterStart(y: int, m: int)
    requires 0 <= m < 12
    ensures DayNumber(GridEnd(y, m)) == DayNumber(GridStart(y, m)) + GridSize(y, m) - 1
  {
    GridSpan(y, m);
  }

  /** The cell for `day` when the grid is built from `fromDate`. */
  function MakeCell(day: Date, fromDate: Date, today: Moment, events: seq<Event>): (c: Cell)
    requires day.Valid()
    ensures c.today <==> day == today.date
    ensures c.wrongMonth <==> day.month != fromDate.month
    ensures c.hasEvent <==> exists i :: 0 <= i < |events| && OnBoundary(events[i], AtMidnight(day))
  {
    HasEventIff(events, AtMidnight(day));
    Cell(day,
      IsSameDay(AtMidnight(day), today),
      day.month != fromDate.month,
      HasEvent(events, AtMidnight(day)))
  }

  /** The cells for the n days from `day` on. */
  function CellsFrom(day: Date, n: nat, fromDate: Date, today: Moment, events: seq<Event>): (cells: seq<Cell>)
    requires day.Valid()
    ensures |cells| == n
  {
    seq(n, i requires 0 <= i => MakeCell(Forward(day, i), fromDate, today, events))
  }

  /** The cells of the grid for the month of `fromDate`, in order. */
  function MonthCells(fromDate: Date, today: Moment, events: seq<Event>): (cells: seq<Cell>)
    requires fromDate.Valid()
  {
    CellsFrom(GridStart(fromDate.year, fromDate.month), GridSize(fromDate.year, fromDate.month), fromDate, today, events)
  }

  /** Cells cut into table rows of seven. */
  function Weeks(cells: seq<Cell>): (rows: seq<seq<Cell>>)
  {
    seq(|cells| / 7, r requires 0 <= r < |cells| / 7 => cells[7 * r .. 7 * r + 7])
  }

  /** Row r, column c of the table is cell 7 * r + c. */
  lemma WeeksCell(cells: seq<Cell>, r: nat, c: nat)
    requires r < |cells| / 7 && c < 7
    ensures |Weeks(cells)| == |cells| / 7 && |Weeks(cells)[r]| == 7
    ensures Weeks(cells)[r][c] == cells[7 * r + c]
  {
  }

  /** Cell k of the cells from `day` is the day k days after it. */
  lemma CellDate(day: Date, n: nat, fromDate: Date, today: Moment, events: seq<Event>, k: nat)
    requires day.Valid() && k < n
    ensures CellsFrom(day, n, fromDate, today, events)[k].date == Forward(day, k)
  {
  }

  /** The cells of one day: that day's cell. */
  lemma CellsFromOne(day: Date, fromDate: Date, today: Moment, events: seq<Event>)
    requires day.Valid()
    ensures CellsFrom(day, 1, fromDate, today, events) == [MakeCell(day, fromDate, today, events)]
  {
  }

  /** The cell i days after the day `base` days after d is the cell base + i days after d. */
  lemma CellShift(day: Date, base: nat, i: nat, fromDate: Date, today: Moment, events: seq<Event>)
    requires day.Valid()
    ensures MakeCell(Forward(Forward(day, base), i), fromDate, today, events)
      == MakeCell(Forward(day, base + i), fromDate, today, events)
  {
    var shifted, direct := Forward(Forward(day, base), i), Forward(day, base + i);
    ForwardAdd(day, base, i, base + i);
    assert shifted == direct;
  }

  /** The cells from `base` days on are a slice of the cells from the start. */
  lemma CellsFromSlice(day: Date, n: nat, base: nat, k: nat, fromDate: Date, today: Moment, events: seq<Event>)
    requires day.Valid() && base + k <= n
    ensures CellsFrom(Forward(day, base), k, fromDate, today, events)
      == CellsFrom(day, n, fromDate, today, events)[base .. base + k]
  {
    var row := CellsFrom(Forward(day, base), k, fromDate, today, events);
    var cells := CellsFrom(day, n, fromDate, today, events);
    var slice := cells[base .. base + k];
    assert |row| == k == |slice|;
    forall i | 0 <= i < k
      ensures row[i] == slice[i]
    {
      CellsFromAt(Forward(day, base), k, i, fromDate, today, events);
      CellsFromAt(day, n, base + i, fromDate, today, events);
      CellShift(day, base, i, fromDate, today, events);
      assert slice[i] == cells[base + i];
    }
  }

  /** Cell k of the cells from `day` is the cell of the day k days on. */
  lemma CellsFromAt(day: Date, n: nat, k: nat, fromDate: Date, today: Moment, events: seq<Event>)
    requires day.Valid() && k < n
    ensures CellsFrom(day, n, fromDate, today, events)[k] == MakeCell(Forward(day, k), fromDate, today, events)
  {
  }

  /** The cells of a + b days are those of the first a days followed by those of the next b. */
  lemma CellsFromAppend(day: Date, a: nat, b: nat, fromDate: Date, today: Moment, events: seq<Event>)
    requires day.Valid()
    ensures CellsFrom(day, a + b, fromDate, today, events)
      == CellsFrom(day, a, fromDate, today, events) + CellsFrom(Forward(day, a), b, fromDate, today, events)
  {
    CellsFromSlice(day, a + b, a, b, fromDate, today, events);
    CellsFromSlice(day, a + b, 0, a, fromDate, today, events);
  }

  /** Appending a row of seven cells appends one table row. */
  lemma WeeksAppend(cells: seq<Cell>, row: seq<Cell>)
    requires |cells| % 7 == 0 && |row| == 7
    ensures Weeks(cells + row) == Weeks(cells) + [row]
  {
    var w := Weeks(cells + row);
    forall r | 0 <= r < |w|
      ensures w[r] == (Weeks(cells) + [row])[r]
    {
      if r < |cells| / 7 {
        assert (cells + row)[7 * r .. 7 * r + 7] == cells[7 * r .. 7 * r + 7];
      } else {
        assert 7 * r == |cells|;
        assert (cells + row)[|cells| .. |cells| + 7] == row;
      }
    }
  }

  /** While `day <= lastDay` holds, a whole row of the span is still to come. */
  lemma RowsLeft(first: int, day: int, last: int, done: nat, rows: nat)
    requires day == first + 7 * done && day <= last && last - first + 1 == 7 * rows
    ensures done < rows
  {
  }

  /** One pass of the row loop extends the rows by the next seven days. */
  lemma RowStep(firstDay: Date, day: Date, walked: nat, weeks: seq<seq<Cell>>, row: seq<Cell>,
                fromDate: Date, today: Moment, events: seq<Event>)
    requires firstDay.Valid() && day.Valid() && DayNumber(day) == DayNumber(firstDay) + walked
    requires walked == 7 * |weeks|
    requires weeks == Weeks(CellsFrom(firstDay, walked, fromDate, today, events))
    requires |row| == 7 && row == CellsFrom(day, |row|, fromDate, today, events)
    ensures weeks + [row] == Weeks(CellsFrom(firstDay, walked + |row|, fromDate, today, events))
  {
    var cells := CellsFrom(firstDay, walked, fromDate, today, events);
    NextRowCells(firstDay, day, walked, fromDate, today, events);
    WholeRows(|weeks|);
    WeeksAppend(cells, row);
  }

  /** The cells of the first walked + 7 days are those of the first walked days and the seven from `day`. */
  lemma NextRowCells(firstDay: Date, day: Date, walked: nat, fromDate: Date, today: Moment, events: seq<Event>)
    requires firstDay.Valid() && day.Valid() && DayNumber(day) == DayNumber(firstDay) + walked
    ensures CellsFrom(firstDay, walked + 7, fromDate, today, events)
      == CellsFrom(firstDay, walked, fromDate, today, events) + CellsFrom(day, 7, fromDate, today, events)
  {
    DayNumberInjective(day, Forward(firstDay, walked));
    CellsFromAppend(firstDay, walked, 7, fromDate, today, events);
  }

  /** Seven times a count of rows is a whole number of rows. */
  lemma WholeRows(rows: nat)
    ensures (7 * rows) % 7 == 0 && (7 * rows) / 7 == rows
  {
  }

  // ----- What the grid shows -----

  /** Column k % 7 of every row falls on week day (k + 1) % 7: the rows run Monday to Sunday. */
  lemma CellWeekDay(y: int, m: int, k: nat)
    requires 0 <= m < 12
    ensures WeekDayOf(Forward(GridStart(y, m), k)) == (k + 1) % 7
  {
    GridStartMonday(y, m);
    ForwardFromMonday(GridStart(y, m), k);
  }

  /** k days after a Monday is week day (k + 1) % 7. */
  lemma ForwardFromMonday(d: Date, k: nat)
    requires d.Valid() && WeekDayOf(d) == MONDAY
    ensures WeekDayOf(Forward(d, k)) == (k + 1) % 7
  {
    var n := DayNumber(d);
    WeekDayAfterMonday(n, k);
    assert DayNumber(Forward(d, k)) == n + k;
  }

  /** k days after a Monday falls on week day (k + 1) % 7. */
  lemma WeekDayAfterMonday(n: int, k: nat)
    requires WeekDay(n) == MONDAY
    ensures WeekDay(n + k) == (k + 1) % 7
  {
  }

  /** Neighbouring cells of the grid are consecutive days: the cells ascend one day at a time. */
  lemma CellsConsecutive(fromDate: Date, today: Moment, events: seq<Event>, k: nat)
    requires fromDate.Valid() && k + 1 < GridSize(fromDate.year, fromDate.month)
    ensures DayNumber(MonthCells(fromDate, today, events)[k + 1].date)
      == DayNumber(MonthCells(fromDate, today, events)[k].date) + 1
  {
    var y, m := fromDate.year, fromDate.month;
    CellDate(GridStart(y, m), GridSize(y, m), fromDate, today, events, k);
    CellDate(GridStart(y, m), GridSize(y, m), fromDate, today, events, k + 1);
  }

  /** Row r, column c of the rows of n cells from `day` is the day 7 * r + c days after it. */
  lemma RowCellDate(day: Date, n: nat, fromDate: Date, today: Moment, events: seq<Event>, r: nat, c: nat)
    requires day.Valid() && c < 7 && r < n / 7
    ensures Weeks(CellsFrom(day, n, fromDate, today, events))[r][c].date == Forward(day, 7 * r + c)
  {
    WeeksCell(CellsFrom(day, n, fromDate, today, events), r, c);
    CellDate(day, n, fromDate, today, events, 7 * r + c);
  }

  /** Row r, column c of the table falls on week day (c + 1) % 7: Monday to Sunday. */
  lemma RowsRunMondayToSunday(fromDate: Date, today: Moment, events: seq<Event>, r: nat, c: nat)
    requires fromDate.Valid() && c < 7
    requires r < |Weeks(MonthCells(fromDate, today, events))|
    ensures WeekDayOf(Weeks(MonthCells(fromDate, today, events))[r][c].date) == (c + 1) % 7
  {
    var y, m := fromDate.year, fromDate.month;
    RowCellDate(GridStart(y, m), GridSize(y, m), fromDate, today, events, r, c);
    CellWeekDay(fromDate.year, fromDate.month, 7 * r + c);
    RowColumn(r, c);
  }

  lemma RowColumn(r: nat, c: nat)
    ensures (7 * r + c + 1) % 7 == (c + 1) % 7
  {
  }

  /** Day d of the month sits in cell LeadDays + d - 1: the days of the month appear in order. */
  lemma MonthDayCell(y: int, m: int, d: int)
    requires 0 <= m < 12 && 1 <= d <= DaysInMonth(y, m)
    ensures LeadDays(y, m) + d - 1 < GridSize(y, m)
    ensures Forward(GridStart(y, m), LeadDays(y, m) + d - 1) == Date(y, m, d)
  {
    GridSpan(y, m);
    DayNumberInjective(Forward(GridStart(y, m), LeadDays(y, m) + d - 1), Date(y, m, d));
  }

  /** Day d of the month is in cell k exactly when k is LeadDays + d - 1: it appears once. */
  lemma MonthDayOnce(y: int, m: int, d: int, k: nat)
    requires 0 <= m < 12 && 1 <= d <= DaysInMonth(y, m) && k < GridSize(y, m)
    ensures Forward(GridStart(y, m), k) == Date(y, m, d) <==> k == LeadDays(y, m) + d - 1
  {
    MonthDayCell(y, m, d);
  }

  /**
   * A cell is in the displayed month exactly when it lies between the lead
   * and the trailing days; the other cells belong to the neighbouring months,
   * whose month number differs, so comparing months alone (:102) is enough.
   */
  lemma CellInMonth(y: int, m: int, k: nat)
    requires 0 <= m < 12 && k < GridSize(y, m)
    ensures var d := Forward(GridStart(y, m), k);
      (d.month == m <==> LeadDays(y, m) <= k < LeadDays(y, m) + DaysInMonth(y, m))
      && (d.month == m ==> d.year == y)
  {
    GridSpan(y, m);
    MonthSpan(y, m);
    WithinAWeekOfMonth(Forward(GridStart(y, m), k), y, m);
  }

  /**
   * A day less than a week away from month m is in that month exactly when
   * its day number lies between the month's first and last days.
   */
  lemma WithinAWeekOfMonth(d: Date, y: int, m: int)
    requires d.Valid() && 0 <= m < 12
    requires DayNumber(Date(y, m, 1)) - 7 < DayNumber(d) < DayNumber(LastOfMonth(y, m)) + 7
    ensures d.month == m <==> DayNumber(Date(y, m, 1)) <= DayNumber(d) <= DayNumber(LastOfMonth(y, m))
    ensures d.month == m ==> d.year == y
  {
    DayNumberOrder(d, Date(y, m, 1));
    DayNumberOrder(LastOfMonth(y, m), d);
    if DayNumber(d) < DayNumber(Date(y, m, 1)) {
      BeforeFirstOtherMonth(d, y, m);
    } else if DayNumber(LastOfMonth(y, m)) < DayNumber(d) {
      AfterLastOtherMonth(d, y, m);
    }
  }

  /** A day in the week before the first of month m belongs to another month. */
  lemma BeforeFirstOtherMonth(d: Date, y: int, m: int)
    requires d.Valid() && 0 <= m < 12
    requires DayNumber(Date(y, m, 1)) - 7 < DayNumber(d) < DayNumber(Date(y, m, 1))
    ensures d.month != m
  {
    DayNumberOrder(d, Date(y, m, 1));
    if d.month == m {
      SameMonthLaterYear(d, Date(y, m, 1));
    }
  }

  /** A day in the week after the last of month m belongs to another month. */
  lemma AfterLastOtherMonth(d: Date, y: int, m: int)
    requires d.Valid() && 0 <= m < 12
    requires DayNumber(LastOfMonth(y, m)) < DayNumber(d) < DayNumber(LastOfMonth(y, m)) + 7
    ensures d.month != m
  {
    DayNumberOrder(LastOfMonth(y, m), d);
    if d.month == m {
      SameMonthLaterYear(LastOfMonth(y, m), d);
    }
  }

  /**
   * The flags of a cell: wrong-month exactly outside the displayed month,
   * today exactly on the clock's calendar day, has-event exactly when some
   * event starts or ends that day.
   */
  lemma CellFlags(fromDate: Date, today: Moment, events: seq<Event>, k: nat)
    requires fromDate.Valid() && k < GridSize(fromDate.year, fromDate.month)
    ensures var c := MonthCells(fromDate, today, events)[k];
      (c.wrongMonth <==> !(c.date.year == fromDate.year && c.date.month == fromDate.month))
      && (c.today <==> c.date == today.date)
      && (c.hasEvent <==> exists i :: 0 <= i < |events| && OnBoundary(events[i], AtMidnight(c.date)))
  {
    var c := MonthCells(fromDate, today, events)[k];
    CellInMonth(fromDate.year, fromDate.month, k);
    SameDayIsDayEquality(AtMidnight(c.date), today, today);
    HasEventIff(events, AtMidnight(c.date));
  }

  // ----- A worked month -----

  /** February 2024 starts on a Thursday: the grid runs from Monday 29 January to Sunday 3 March, five rows. */
  lemma February2024()
    ensures GridStart(2024, 1) == Date(2024, 0, 29)
    ensures GridEnd(2024, 1) == Date(2024, 2, 3)
    ensures GridSize(2024, 1) == 35
  {
    DayFromYearFormula(2024);
    DayFromYearFormula(2025);
    assert DayNumber(Date(2024, 1, 1)) == 19754;
    assert LeadDays(2024, 1) == 3;
    assert TrailDays(2024, 1) == 3;
    DayNumberInjective(GridStart(2024, 1), Date(2024, 0, 29));
    DayNumberInjective(GridEnd(2024, 1), Date(2024, 2, 3));
  }

  // ----- Two-digit years -----

  /** The full year the Date constructor uses: years 0 to 99 are read as 1900 to 1999. */
  function ConstructorYear(y: int): (r: int)
    ensures r != y <==> 0 <= y <= 99
  {
    if 0 <= y <= 99 then 1900 + y else y
  }

  /** The first grid day as `new Date(y, m, 1)` computes it (:79). */
  function GridStartAsWritten(y: int, m: int): (r: Date)
    requires 0 <= m < 12
    ensures r.Valid() && WeekDayOf(r) == MONDAY
    ensures !(0 <= y <= 99) ==> r == GridStart(y, m)
  {
    GridStartMonday(ConstructorYear(y), m);
    GridStart(ConstructorYear(y), m)
  }

  /**
   * For a year 0 to 99 the grid drawn as written starts 1900 years late:
   * every day of the displayed month comes before its first cell, so none
   * of them is shown.
   */
  lemma TwoDigitYearMissesMonth(y: int, m: int)
    requires 0 <= m < 12 && 0 <= y <= 99
    ensures DayNumber(LastOfMonth(y, m)) < DayNumber(GridStartAsWritten(y, m))
  {
    MonthSpan(y, m);
    GridStartMonday(1900 + y, m);
    SameMonthLaterYear(Date(y, m, 1), Date(1900 + y, m, 1));
  }
}
