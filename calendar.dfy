/**
 * Gregorian calendar arithmetic and the 42-cell month page of the booking
 * wizard (getDaysInMonth, getFirstDayOfMonth, getCalendarDays, month
 * navigation and the per-cell predicates isToday, isPastDate and the
 * disabled-cell rule).
 *
 * Months are 0-based (0 = January ... 11 = December) and weekdays are
 * 0 = Sunday ... 6 = Saturday, as the JavaScript Date API reports them.
 * Dates are local wall-clock dates; time zones and daylight saving are not
 * modelled.
 */
module Calendar {

  const MsPerDay: int := 86400000
  const GridSize: int := 42

  /** One cell of the month page. */
  datatype CalendarDay = CalendarDay(day: int, month: int, year: int, isCurrentMonth: bool)

  /** A reading of the local clock (`new Date()`): date fields and milliseconds since local midnight. */
  datatype Instant = Instant(year: int, month: int, day: int, msOfDay: int) {
    ghost predicate Valid() {
      IsValidDate(year, month, day) && 0 <= msOfDay < MsPerDay
    }
  }

  // ---------------------------------------------------------------------
  // Day numbers
  // ---------------------------------------------------------------------

  /** Gregorian leap-year rule. */
  predicate IsLeapYear(year: int) {
    year % 4 == 0 && (year % 100 != 0 || year % 400 == 0)
  }

  /**
   * Number of days from 0000-03-01 (proleptic Gregorian) to the given date,
   * for a month index in range. The year is counted from March so that the
   * leap day is the last day of the counted year; `day` may be any integer,
   * so day 0 is the last day of the previous month.
   */
  function CivilDayNumber(year: int, month: int, day: int): int
    requires 0 <= month < 12
  {
    var y := if month < 2 then year - 1 else year;
    var m := if month < 2 then month + 10 else month - 2;
    365 * y + y / 4 - y / 100 + y / 400 + (153 * m + 2) / 5 + day - 1
  }

  /**
   * The day denoted by `new Date(year, month, day)`: an out-of-range month
   * carries into the year (floor division, as `/` and `%` by a positive
   * divisor are in Dafny) and an out-of-range day carries into the month.
   */
  function DayNumber(year: int, month: int, day: int): (n: int)
    ensures 0 <= month < 12 ==> n == CivilDayNumber(year, month, day)
    ensures month == 12 ==> n == CivilDayNumber(year + 1, 0, day)
    ensures month == -1 ==> n == CivilDayNumber(year - 1, 11, day)
  {
    assert 0 <= month < 12 ==> month / 12 == 0 && month % 12 == month;
    assert month == 12 ==> month / 12 == 1 && month % 12 == 0;
    assert month == -1 ==> month / 12 == -1 && month % 12 == 11;
    CivilDayNumber(year + month / 12, month % 12, day)
  }

  /** Day of the week, 0 = Sunday; 0000-03-01 was a Wednesday. */
  function Weekday(dayNumber: int): (w: int)
    ensures 0 <= w < 7
  {
    (dayNumber + 3) % 7
  }

  lemma InRangeMonth(year: int, month: int, day: int)
    requires 0 <= month < 12
    ensures DayNumber(year, month, day) == CivilDayNumber(year, month, day)
  {
    assert month / 12 == 0 && month % 12 == month;
  }

  lemma DivisorChain(year: int)
    ensures year % 400 == 0 ==> year % 100 == 0
    ensures year % 100 == 0 ==> year % 4 == 0
  {
    if year % 400 == 0 {
      Multiple400(year);
    }
    if year % 100 == 0 {
      Multiple100(year);
    }
  }

  lemma Multiple400(year: int)
    requires year % 400 == 0
    ensures year % 100 == 0
  {
    var k := 4 * (year / 400);
    assert year == 100 * k;
  }

  lemma Multiple100(year: int)
    requires year % 100 == 0
    ensures year % 4 == 0
  {
    var k := 25 * (year / 100);
    assert year == 4 * k;
  }

  lemma DivSteps(year: int)
    ensures year / 4 - (year - 1) / 4 == if year % 4 == 0 then 1 else 0
    ensures year / 100 - (year - 1) / 100 == if year % 100 == 0 then 1 else 0
    ensures year / 400 - (year - 1) / 400 == if year % 400 == 0 then 1 else 0
  {
  }

  /** The Gregorian month-length rule (31, 30, or 28/29 days for February). */
  function MonthLengthRule(year: int, month: int): int {
    if month == 1 then (if IsLeapYear(year) then 29 else 28)
    else if month == 3 || month == 5 || month == 8 || month == 10 then 30
    else 31
  }

  /** Days from 1 March to the first of the given month, within a March-based year. */
  lemma MonthOffsets(m: int)
    requires 0 <= m < 12
    ensures (153 * m + 2) / 5 == [0, 31, 61, 92, 122, 153, 184, 214, 245, 275, 306, 337][m]
  {
  }

  lemma LeapDayCount(year: int)
    ensures CivilDayNumber(year, 2, 0) - CivilDayNumber(year, 1, 0)
            == if IsLeapYear(year) then 29 else 28
  {
    MonthOffsets(0);
    MonthOffsets(11);
    DivSteps(year);
    DivisorChain(year);
  }

  /** Within one March-based year the month offsets differ by the month lengths. */
  lemma OrdinaryMonthLength(year: int, month: int)
    requires 0 <= month < 11 && month != 1
    ensures CivilDayNumber(year, month + 1, 0) - CivilDayNumber(year, month, 0) == MonthLengthRule(year, month)
  {
    var m := if month < 2 then month + 10 else month - 2;
    MonthOffsets(m);
    MonthOffsets(m + 1);
  }

  lemma DecemberLength(year: int)
    ensures CivilDayNumber(year + 1, 0, 0) - CivilDayNumber(year, 11, 0) == 31
  {
    MonthOffsets(9);
    MonthOffsets(10);
  }

  lemma DayZeroDistance(year: int, month: int)
    requires 0 <= month < 12
    ensures DayNumber(year, month + 1, 0) - DayNumber(year, month, 0) == MonthLengthRule(year, month)
  {
    InRangeMonth(year, month, 0);
    if month == 11 {
      assert (month + 1) / 12 == 1 && (month + 1) % 12 == 0;
      DecemberLength(year);
    } else {
      InRangeMonth(year, month + 1, 0);
      if month == 1 {
        LeapDayCount(year);
      } else {
        OrdinaryMonthLength(year, month);
      }
    }
  }

  /**
   * Length of a month as `new Date(year, month + 1, 0).getDate()` computes
   * it: day 0 of the next month is the last day of this one, and its
   * day-of-month is its distance from day 0 of this month. The result
   * follows the Gregorian month-length rule.
   */
  function DaysInMonth(year: int, month: int): (n: int)
    requires 0 <= month < 12
    ensures n == MonthLengthRule(year, month)
    ensures 28 <= n <= 31
  {
    DayZeroDistance(year, month);
    DayNumber(year, month + 1, 0) - DayNumber(year, month, 0)
  }

  /** A real calendar date: month in range and day within the month. */
  ghost predicate IsValidDate(year: int, month: int, day: int) {
    0 <= month < 12 && 1 <= day <= DaysInMonth(year, month)
  }

  /** Weekday of the first of the month, as `new Date(year, month, 1).getDay()`. */
  function FirstDayOfMonth(year: int, month: int): (w: int)
    ensures 0 <= w < 7
  {
    Weekday(DayNumber(year, month, 1))
  }

  /** Each day's weekday follows the previous day's, Saturday (6) wrapping to Sunday (0). */
  lemma WeekdaySuccessor(n: int)
    ensures Weekday(n + 1) == (Weekday(n) + 1) % 7
  {
    var q := (n + 3) / 7;
    var r := (n + 3) % 7;
    assert n + 3 == 7 * q + r;
    if r == 6 {
      assert n + 4 == 7 * (q + 1);
    } else {
      assert n + 4 == 7 * q + (r + 1);
    }
  }

  /**
   * The weekday numbering matches the calendar: 1 January 1970 was a
   * Thursday (4), 1 January 2000 a Saturday (6) and 1 June 2025 a Sunday (0).
   * With WeekdaySuccessor this fixes the weekday of every day.
   */
  lemma WeekdayAnchors()
    ensures FirstDayOfMonth(1970, 0) == 4
    ensures FirstDayOfMonth(2000, 0) == 6
    ensures FirstDayOfMonth(2025, 5) == 0
  {
    assert DayNumber(1970, 0, 1) == 719468 == 7 * 102781 + 1;
    assert DayNumber(2000, 0, 1) == 730425 == 7 * 104346 + 3;
    assert DayNumber(2025, 5, 1) == 739708 == 7 * 105672 + 4;
  }

  /** Lexicographic order of (year, month, day) triples. */
  predicate DateBefore(y1: int, m1: int, d1: int, y2: int, m2: int, d2: int) {
    y1 < y2 || (y1 == y2 && (m1 < m2 || (m1 == m2 && d1 < d2)))
  }

  // ---------------------------------------------------------------------
  // Month boundaries
  // ---------------------------------------------------------------------

  /** Month before (year, month), wrapping January to December of the previous year. */
  function PreviousMonthOf(year: int, month: int): (r: (int, int))
    ensures 0 <= month < 12 ==> 0 <= r.1 < 12 && NextMonthOf(r.0, r.1) == (year, month)
  {
    if month == 0 then (year - 1, 11) else (year, month - 1)
  }

  /** Month after (year, month), wrapping December to January of the next year. */
  function NextMonthOf(year: int, month: int): (r: (int, int))
    ensures 0 <= month < 12 ==> 0 <= r.1 < 12
  {
    if month == 11 then (year + 1, 0) else (year, month + 1)
  }

  lemma CivilDayShift(year: int, month: int, day: int)
    requires 0 <= month < 12
    ensures CivilDayNumber(year, month, day) == CivilDayNumber(year, month, 0) + day
  {
  }

  /** `new Date(year, month + 1, day)` is the given day of NextMonthOf(year, month). */
  lemma NextMonthCarry(year: int, month: int, day: int)
    requires 0 <= month < 12
    ensures DayNumber(year, month + 1, day)
            == CivilDayNumber(NextMonthOf(year, month).0, NextMonthOf(year, month).1, day)
  {
    if month == 11 {
      assert (month + 1) / 12 == 1 && (month + 1) % 12 == 0;
    } else {
      assert (month + 1) / 12 == 0 && (month + 1) % 12 == month + 1;
    }
  }

  /** The first day of the next month follows the last day of this one. */
  lemma NextMonthStart(year: int, month: int)
    requires 0 <= month < 12
    ensures DayNumber(NextMonthOf(year, month).0, NextMonthOf(year, month).1, 1)
            == DayNumber(year, month, 1) + DaysInMonth(year, month)
  {
    var (ny, nm) := NextMonthOf(year, month);
    InRangeMonth(ny, nm, 1);
    InRangeMonth(year, month, 1);
    InRangeMonth(year, month, 0);
    NextMonthCarry(year, month, 1);
    NextMonthCarry(year, month, 0);
    CivilDayShift(ny, nm, 1);
    CivilDayShift(year, month, 1);
  }

  /** The days of one month are consecutive day numbers. */
  lemma DayOffset(year: int, month: int, day: int)
    requires 0 <= month < 12
    ensures DayNumber(year, month, day) == DayNumber(year, month, 1) + day - 1
  {
    InRangeMonth(year, month, day);
    InRangeMonth(year, month, 1);
  }

  lemma {:induction false} MonthStartsIncrease(year: int, m1: int, m2: int)
    requires 0 <= m1 < m2 <= 12
    ensures DayNumber(year, m1, 1) + DaysInMonth(year, m1) <= DayNumber(year, m2, 1)
    decreases m2 - m1
  {
    NextMonthStart(year, m1);
    if m1 == 11 {
      assert m2 == 12;
      assert DayNumber(year, 12, 1) == DayNumber(year + 1, 0, 1);
    } else if m1 + 1 < m2 {
      MonthStartsIncrease(year, m1 + 1, m2);
    }
  }

  lemma {:induction false} YearStartsIncrease(y1: int, y2: int)
    requires y1 < y2
    ensures DayNumber(y1, 12, 1) <= DayNumber(y2, 0, 1)
    decreases y2 - y1
  {
    assert DayNumber(y1, 12, 1) == DayNumber(y1 + 1, 0, 1);
    if y1 + 1 < y2 {
      MonthStartsIncrease(y1 + 1, 0, 12);
      YearStartsIncrease(y1 + 1, y2);
    }
  }

  /** A valid date lies within its month and within its year. */
  lemma DateBounds(year: int, month: int, day: int)
    requires IsValidDate(year, month, day)
    ensures DayNumber(year, month, 1) <= DayNumber(year, month, day)
            < DayNumber(year, month, 1) + DaysInMonth(year, month)
    ensures DayNumber(year, 0, 1) <= DayNumber(year, month, day) < DayNumber(year, 12, 1)
  {
    DayOffset(year, month, day);
    if month > 0 {
      MonthStartsIncrease(year, 0, month);
    }
    MonthStartsIncrease(year, month, 12);
  }

  lemma DateBeforeMonotone(y1: int, m1: int, d1: int, y2: int, m2: int, d2: int)
    requires IsValidDate(y1, m1, d1) && IsValidDate(y2, m2, d2)
    requires DateBefore(y1, m1, d1, y2, m2, d2)
    ensures DayNumber(y1, m1, d1) < DayNumber(y2, m2, d2)
  {
    DateBounds(y1, m1, d1);
    DateBounds(y2, m2, d2);
    if y1 < y2 {
      YearStartsIncrease(y1, y2);
    } else if m1 < m2 {
      MonthStartsIncrease(y1, m1, m2);
    } else {
      DayOffset(y1, m1, d1);
      DayOffset(y2, m2, d2);
    }
  }

  /**
   * On valid dates, day numbers order dates exactly as the calendar does,
   * and distinct dates have distinct day numbers.
   */
  lemma DayNumberOrder(y1: int, m1: int, d1: int, y2: int, m2: int, d2: int)
    requires IsValidDate(y1, m1, d1) && IsValidDate(y2, m2, d2)
    ensures DayNumber(y1, m1, d1) < DayNumber(y2, m2, d2) <==> DateBefore(y1, m1, d1, y2, m2, d2)
    ensures DayNumber(y1, m1, d1) == DayNumber(y2, m2, d2) <==> (y1, m1, d1) == (y2, m2, d2)
  {
    if DateBefore(y1, m1, d1, y2, m2, d2) {
      DateBeforeMonotone(y1, m1, d1, y2, m2, d2);
    } else if DateBefore(y2, m2, d2, y1, m1, d1) {
      DateBeforeMonotone(y2, m2, d2, y1, m1, d1);
    }
  }

  // ---------------------------------------------------------------------
  // The month page
  // ---------------------------------------------------------------------

  /**
   * Cell `i` of the page for (year, month): the last `FirstDayOfMonth` days
   * of the previous month, then every day of the month, then days of the
   * next month counted from 1.
   */
  function GridCell(year: int, month: int, i: int): CalendarDay
    requires 0 <= month < 12
  {
    var first := FirstDayOfMonth(year, month);
    var length := DaysInMonth(year, month);
    if i < first then
      var (py, pm) := PreviousMonthOf(year, month);
      CalendarDay(DaysInMonth(py, pm) - first + 1 + i, pm, py, false)
    else if i < first + length then
      CalendarDay(i - first + 1, month, year, true)
    else
      var (ny, nm) := NextMonthOf(year, month);
      CalendarDay(i - first - length + 1, nm, ny, false)
  }

  /** The 6 x 7 Sunday-first page that getCalendarDays returns. */
  function CalendarGrid(year: int, month: int): (g: seq<CalendarDay>)
    requires 0 <= month < 12
    ensures |g| == GridSize
    ensures forall i :: 0 <= i < GridSize ==> g[i] == GridCell(year, month, i)
  {
    seq(GridSize, i requires 0 <= i < GridSize => GridCell(year, month, i))
  }

  /**
   * The page opens with exactly `FirstDayOfMonth` cells of the previous
   * month (January's page shows December of the year before), ending with
   * that month's last day.
   */
  lemma GridLeadingCells(year: int, month: int)
    requires 0 <= month < 12
    ensures var g := CalendarGrid(year, month);
            var (py, pm) := PreviousMonthOf(year, month);
            forall i :: 0 <= i < FirstDayOfMonth(year, month) ==>
              && !g[i].isCurrentMonth
              && (g[i].year, g[i].month) == (py, pm)
              && g[i].day == DaysInMonth(py, pm) - FirstDayOfMonth(year, month) + 1 + i
  {
  }

  /**
   * Days 1 to DaysInMonth of the shown month follow in order, and they are
   * the only cells marked as the current month.
   */
  lemma GridCurrentMonthCells(year: int, month: int)
    requires 0 <= month < 12
    ensures var g := CalendarGrid(year, month);
            var first := FirstDayOfMonth(year, month);
            && (forall i :: 0 <= i < GridSize ==>
                  (g[i].isCurrentMonth <==> first <= i < first + DaysInMonth(year, month)))
            && (forall d :: 1 <= d <= DaysInMonth(year, month) ==>
                  g[first + d - 1] == CalendarDay(d, month, year, true))
  {
  }

  /**
   * At most 6 + 31 cells come before the fill, so at least five cells of the
   * next month (December's page shows January of the year after) close the
   * page, counted from 1.
   */
  lemma GridTrailingCells(year: int, month: int)
    requires 0 <= month < 12
    ensures var g := CalendarGrid(year, month);
            var (ny, nm) := NextMonthOf(year, month);
            var used := FirstDayOfMonth(year, month) + DaysInMonth(year, month);
            && used + 5 <= GridSize
            && forall i :: used <= i < GridSize ==>
                 && !g[i].isCurrentMonth
                 && (g[i].year, g[i].month) == (ny, nm)
                 && g[i].day == i - used + 1
  {
  }

  /**
   * Every cell of the page is a real date, and the cells are consecutive
   * days: cell i is i days after cell 0.
   */
  lemma GridCellDate(year: int, month: int, i: int)
    requires 0 <= month < 12 && 0 <= i < GridSize
    ensures var c := GridCell(year, month, i);
            && IsValidDate(c.year, c.month, c.day)
            && DayNumber(c.year, c.month, c.day)
               == DayNumber(year, month, 1) - FirstDayOfMonth(year, month) + i
  {
    var first := FirstDayOfMonth(year, month);
    var length := DaysInMonth(year, month);
    var c := GridCell(year, month, i);
    if i < first {
      var (py, pm) := PreviousMonthOf(year, month);
      DayOffset(py, pm, c.day);
      NextMonthStart(py, pm);
    } else if i < first + length {
      DayOffset(year, month, c.day);
    } else {
      var (ny, nm) := NextMonthOf(year, month);
      DayOffset(ny, nm, c.day);
      NextMonthStart(year, month);
    }
  }

  lemma ShiftWeek(a: int, i: int)
    requires a % 7 == 0
    ensures (a + i) % 7 == i % 7
  {
    var q := a / 7;
    assert a == 7 * q;
    assert a + i == 7 * (q + i / 7) + i % 7;
  }

  lemma WeekdayOfOffset(x: int, n: int, i: int)
    requires x == n - Weekday(n) + i
    ensures Weekday(x) == i % 7
  {
    var q := (n + 3) / 7;
    assert n + 3 - (n + 3) % 7 == 7 * q;
    assert (7 * q) % 7 == 0 by {
      assert 7 * q == 7 * q + 0;
    }
    ShiftWeek(7 * q, i);
  }

  /** Cell i of the page falls on weekday i % 7. */
  lemma GridCellWeekday(year: int, month: int, i: int)
    requires 0 <= month < 12 && 0 <= i < GridSize
    ensures var c := GridCell(year, month, i);
            Weekday(DayNumber(c.year, c.month, c.day)) == i % 7
  {
    var c := GridCell(year, month, i);
    GridCellDate(year, month, i);
    WeekdayOfOffset(DayNumber(c.year, c.month, c.day), DayNumber(year, month, 1), i);
  }

  /**
   * The page is 42 consecutive real dates whose first cell is a Sunday, so
   * cell i falls on weekday i % 7 (column i % 7 of a Sunday-first week).
   */
  lemma GridIsConsecutiveWeeks(year: int, month: int)
    requires 0 <= month < 12
    ensures var g := CalendarGrid(year, month);
            && (forall i :: 0 <= i < GridSize ==>
                  && IsValidDate(g[i].year, g[i].month, g[i].day)
                  && Weekday(DayNumber(g[i].year, g[i].month, g[i].day)) == i % 7)
            && (forall i :: 0 <= i < GridSize - 1 ==>
                  DayNumber(g[i + 1].year, g[i + 1].month, g[i + 1].day)
                  == DayNumber(g[i].year, g[i].month, g[i].day) + 1)
  {
    GridCellsAreDatedWeekdays(year, month);
    GridCellsAreConsecutive(year, month);
  }

  /** Every cell of the page is a real date, and cell i falls on weekday i % 7. */
  lemma GridCellsAreDatedWeekdays(year: int, month: int)
    requires 0 <= month < 12
    ensures var g := CalendarGrid(year, month);
            forall i :: 0 <= i < GridSize ==>
              && IsValidDate(g[i].year, g[i].month, g[i].day)
              && Weekday(DayNumber(g[i].year, g[i].month, g[i].day)) == i % 7
  {
    var g := CalendarGrid(year, month);
    forall i | 0 <= i < GridSize
      ensures IsValidDate(g[i].year, g[i].month, g[i].day)
      ensures Weekday(DayNumber(g[i].year, g[i].month, g[i].day)) == i % 7
    {
      assert g[i] == GridCell(year, month, i);
      GridCellDate(year, month, i);
      GridCellWeekday(year, month, i);
    }
  }

  /** Neighbouring cells of the page are neighbouring days. */
  lemma GridCellsAreConsecutive(year: int, month: int)
    requires 0 <= month < 12
    ensures var g := CalendarGrid(year, month);
            forall i :: 0 <= i < GridSize - 1 ==>
              DayNumber(g[i + 1].year, g[i + 1].month, g[i + 1].day) == DayNumber(g[i].year, g[i].month, g[i].day) + 1
  {
    var g := CalendarGrid(year, month);
    forall i | 0 <= i < GridSize - 1
      ensures DayNumber(g[i + 1].year, g[i + 1].month, g[i + 1].day)
              == DayNumber(g[i].year, g[i].month, g[i].day) + 1
    {
      assert g[i] == GridCell(year, month, i);
      assert g[i + 1] == GridCell(year, month, i + 1);
      GridCellDate(year, month, i);
      GridCellDate(year, month, i + 1);
    }
  }

  /**
   * getCalendarDays: three push loops fill the leading, current and
   * trailing cells, and the result is their concatenation.
   */
  method BuildCalendarDays(year: int, month: int) returns (days: seq<CalendarDay>)
    requires 0 <= month < 12
    ensures days == CalendarGrid(year, month)
  {
    var daysInMonth := DaysInMonth(year, month);
    var firstDayOfMonth := FirstDayOfMonth(year, month);
    var prevMonth := if month == 0 then 11 else month - 1;
    var prevMonthYear := if month == 0 then year - 1 else year;
    var prevMonthDays := PreviousMonthRun(prevMonthYear, prevMonth, firstDayOfMonth);
    var currentMonthDays := CurrentMonthRun(year, month, daysInMonth);

    var nextMonth := if month == 11 then 0 else month + 1;
    var nextMonthYear := if month == 11 then year + 1 else year;
    var totalDaysDisplayed := |prevMonthDays| + |currentMonthDays|;
    var remainingDays := GridSize - totalDaysDisplayed;
    var nextMonthDays := NextMonthRun(nextMonthYear, nextMonth, remainingDays);

    days := prevMonthDays + currentMonthDays + nextMonthDays;
    GridFromParts(year, month, prevMonthYear, prevMonth, nextMonthYear, nextMonth,
                  prevMonthDays, currentMonthDays, nextMonthDays);
  }

  /** The first push loop: the last `count` days of month (py, pm), in ascending order. */
  method PreviousMonthRun(py: int, pm: int, count: int) returns (prevMonthDays: seq<CalendarDay>)
    requires 0 <= pm < 12 && 0 <= count
    ensures |prevMonthDays| == count
    ensures forall k :: 0 <= k < count ==>
              prevMonthDays[k] == CalendarDay(DaysInMonth(py, pm) - count + 1 + k, pm, py, false)
  {
    prevMonthDays := [];
    if count > 0 {
      var daysInPrevMonth := DaysInMonth(py, pm);
      var i := count - 1;
      while i >= 0
        invariant -1 <= i < count
        invariant |prevMonthDays| == count - 1 - i
        invariant forall k :: 0 <= k < |prevMonthDays| ==>
                    prevMonthDays[k] == CalendarDay(daysInPrevMonth - count + 1 + k, pm, py, false)
      {
        prevMonthDays := prevMonthDays + [CalendarDay(daysInPrevMonth - i, pm, py, false)];
        i := i - 1;
      }
    }
  }

  /** The second push loop: days 1 to `length` of the shown month. */
  method CurrentMonthRun(year: int, month: int, length: int) returns (currentMonthDays: seq<CalendarDay>)
    requires 0 <= length
    ensures |currentMonthDays| == length
    ensures forall k :: 0 <= k < length ==> currentMonthDays[k] == CalendarDay(k + 1, month, year, true)
  {
    currentMonthDays := [];
    var i := 1;
    while i <= length
      invariant 1 <= i <= length + 1
      invariant |currentMonthDays| == i - 1
      invariant forall k :: 0 <= k < |currentMonthDays| ==> currentMonthDays[k] == CalendarDay(k + 1, month, year, true)
    {
      currentMonthDays := currentMonthDays + [CalendarDay(i, month, year, true)];
      i := i + 1;
    }
  }

  /** The third push loop: the first `remainingDays` days of month (ny, nm); none when nothing remains. */
  method NextMonthRun(ny: int, nm: int, remainingDays: int) returns (nextMonthDays: seq<CalendarDay>)
    ensures |nextMonthDays| == if remainingDays > 0 then remainingDays else 0
    ensures forall k :: 0 <= k < |nextMonthDays| ==> nextMonthDays[k] == CalendarDay(k + 1, nm, ny, false)
  {
    nextMonthDays := [];
    if remainingDays > 0 {
      var j := 1;
      while j <= remainingDays
        invariant 1 <= j <= remainingDays + 1
        invariant |nextMonthDays| == j - 1
        invariant forall k :: 0 <= k < |nextMonthDays| ==> nextMonthDays[k] == CalendarDay(k + 1, nm, ny, false)
      {
        nextMonthDays := nextMonthDays + [CalendarDay(j, nm, ny, false)];
        j := j + 1;
      }
    }
  }

  /** The three runs that getCalendarDays builds, concatenated, are the page. */
  lemma GridFromParts(year: int, month: int, py: int, pm: int, ny: int, nm: int,
                      prev: seq<CalendarDay>, current: seq<CalendarDay>, next: seq<CalendarDay>)
    requires 0 <= month < 12
    requires (py, pm) == PreviousMonthOf(year, month) && (ny, nm) == NextMonthOf(year, month)
    requires |prev| == FirstDayOfMonth(year, month)
    requires forall k :: 0 <= k < |prev| ==> prev[k] == CalendarDay(DaysInMonth(py, pm) - |prev| + 1 + k, pm, py, false)
    requires |current| == DaysInMonth(year, month)
    requires forall k :: 0 <= k < |current| ==> current[k] == CalendarDay(k + 1, month, year, true)
    requires |next| == GridSize - |prev| - |current|
    requires forall k :: 0 <= k < |next| ==> next[k] == CalendarDay(k + 1, nm, ny, false)
    ensures prev + current + next == CalendarGrid(year, month)
  {
    var days := prev + current + next;
    forall k | 0 <= k < GridSize
      ensures days[k] == CalendarGrid(year, month)[k]
    {
      assert CalendarGrid(year, month)[k] == GridCell(year, month, k);
      if k < |prev| {
        assert days[k] == prev[k];
      } else if k < |prev| + |current| {
        assert days[k] == current[k - |prev|];
      } else {
        assert days[k] == next[k - |prev| - |current|];
      }
    }
  }

  // ---------------------------------------------------------------------
  // Navigation
  // ---------------------------------------------------------------------

  /**
   * The (year, month) read back from `new Date(year, month + delta, 1)`
   * (goToPreviousMonth uses delta -1, goToNextMonth uses +1).
   */
  function ShiftMonth(year: int, month: int, delta: int): (r: (int, int))
    ensures 0 <= r.1 < 12
    ensures 0 <= month < 12 && delta == -1 ==> r == PreviousMonthOf(year, month)
    ensures 0 <= month < 12 && delta == 1 ==> r == NextMonthOf(year, month)
  {
    (year + (month + delta) / 12, (month + delta) % 12)
  }

  /** Going forward a month and back again returns to the same page. */
  lemma NavigationRoundTrip(year: int, month: int)
    requires 0 <= month < 12
    ensures var (ny, nm) := ShiftMonth(year, month, 1); ShiftMonth(ny, nm, -1) == (year, month)
    ensures var (py, pm) := ShiftMonth(year, month, -1); ShiftMonth(py, pm, 1) == (year, month)
  {
    var (ny, nm) := ShiftMonth(year, month, 1);
    assert ShiftMonth(ny, nm, -1) == PreviousMonthOf(ny, nm);
    var (py, pm) := ShiftMonth(year, month, -1);
    assert ShiftMonth(py, pm, 1) == NextMonthOf(py, pm);
  }

  // ---------------------------------------------------------------------
  // Cell predicates
  // ---------------------------------------------------------------------

  /** isToday: the cell's fields equal the clock's date fields; today's cell is never in the past. */
  function IsToday(cell: CalendarDay, now: Instant): (today: bool)
    ensures today && 0 <= now.msOfDay < MsPerDay ==> !IsPastDate(cell, now)
  {
    cell.day == now.day && cell.month == now.month && cell.year == now.year
  }

  /** Milliseconds of local time on the model's day-number axis. */
  function Timestamp(now: Instant): int {
    DayNumber(now.year, now.month, now.day) * MsPerDay + now.msOfDay
  }

  /** `setHours(0, 0, 0, 0)`: truncate a local time to its midnight. */
  function StartOfDay(t: int): int {
    t - t % MsPerDay
  }

  lemma MidnightOf(now: Instant)
    ensures 0 <= now.msOfDay < MsPerDay ==>
              StartOfDay(Timestamp(now)) == DayNumber(now.year, now.month, now.day) * MsPerDay
  {
    if 0 <= now.msOfDay < MsPerDay {
      var t := Timestamp(now);
      var q := DayNumber(now.year, now.month, now.day);
      assert t == q * MsPerDay + now.msOfDay;
      assert t / MsPerDay == q;
    }
  }

  /**
   * isPastDate: the cell's local midnight is strictly earlier than today's
   * midnight; only the calendar day of `now` matters, not its time of day.
   */
  function IsPastDate(cell: CalendarDay, now: Instant): (past: bool)
    ensures 0 <= now.msOfDay < MsPerDay ==>
              (past <==> DayNumber(cell.year, cell.month, cell.day) < DayNumber(now.year, now.month, now.day))
  {
    MidnightOf(now);
    DayNumber(cell.year, cell.month, cell.day) * MsPerDay < StartOfDay(Timestamp(now))
  }

  /** The disabled-cell rule of the page: past days and other months' days cannot be clicked. */
  function IsDisabled(cell: CalendarDay, now: Instant): (disabled: bool)
    ensures 0 <= now.msOfDay < MsPerDay ==>
              (disabled <==> !cell.isCurrentMonth
                             || DayNumber(cell.year, cell.month, cell.day) < DayNumber(now.year, now.month, now.day))
  {
    IsPastDate(cell, now) || !cell.isCurrentMonth
  }

  /**
   * For a real date, isPastDate is the calendar order "strictly before
   * today", and today's own cell is never in the past.
   */
  lemma PastMeansBeforeToday(cell: CalendarDay, now: Instant)
    requires now.Valid() && IsValidDate(cell.year, cell.month, cell.day)
    ensures IsPastDate(cell, now) <==> DateBefore(cell.year, cell.month, cell.day, now.year, now.month, now.day)
    ensures IsToday(cell, now) <==> DayNumber(cell.year, cell.month, cell.day) == DayNumber(now.year, now.month, now.day)
    ensures IsToday(cell, now) ==> !IsPastDate(cell, now)
  {
    DayNumberOrder(cell.year, cell.month, cell.day, now.year, now.month, now.day);
  }

  /**
   * A cell of the page can be clicked iff it is a day of the shown month
   * that is not before today.
   */
  lemma EnabledCells(year: int, month: int, i: int, now: Instant)
    requires 0 <= month < 12 && 0 <= i < GridSize && now.Valid()
    ensures var first := FirstDayOfMonth(year, month);
            !IsDisabled(CalendarGrid(year, month)[i], now) <==>
              && first <= i < first + DaysInMonth(year, month)
              && !DateBefore(year, month, i - first + 1, now.year, now.month, now.day)
  {
    var c := CalendarGrid(year, month)[i];
    GridCellDate(year, month, i);
    PastMeansBeforeToday(c, now);
  }
}
