/**
 * Writing a calendar cell as an ISO 8601 extended calendar date
 * (`YYYY-MM-DD`, ISO 8601:2004 section 4.1.2.2), as formatDateToISOString
 * does with template literals and `padStart`, and reading such a string back
 * to decide whether a cell is the selected date (isSelectedDate).
 */
module IsoDate {
  import opened Wrappers
  import Calendar

  predicate IsDigit(c: char) {
    '0' <= c <= '9'
  }

  predicate AllDigits(s: string) {
    forall k :: 0 <= k < |s| ==> IsDigit(s[k])
  }

  function DigitChar(d: int): (c: char)
    requires 0 <= d < 10
    ensures IsDigit(c)
  {
    "0123456789"[d]
  }

  /** The number a string of decimal digits denotes. */
  function DigitsValue(s: string): (n: nat)
    requires AllDigits(s)
  {
    if s == [] then 0 else DigitsValue(s[..|s| - 1]) * 10 + (s[|s| - 1] as int - '0' as int)
  }

  /** `String(n)` for a non-negative integer: its decimal digits, without leading zeros. */
  function NatToString(n: nat): (s: string)
    ensures |s| >= 1 && AllDigits(s)
    ensures DigitsValue(s) == n
    ensures n < 10 <==> |s| == 1
    ensures s[0] == '0' <==> n == 0
  {
    if n < 10 then [DigitChar(n)]
    else
      var prefix := NatToString(n / 10);
      var s := prefix + [DigitChar(n % 10)];
      assert s[..|s| - 1] == prefix;
      s
  }

  /** `String(i)` for any integer: a minus sign before the digits of a negative number. */
  function IntToString(i: int): (s: string)
    ensures i >= 0 ==> s == NatToString(i)
    ensures i < 0 ==> s == "-" + NatToString(-i)
  {
    if i < 0 then "-" + NatToString(-i) else NatToString(i)
  }

  /** `s.padStart(2, "0")`: zeros in front up to length 2; longer strings are kept. */
  function PadStart2(s: string): (r: string)
    ensures |r| == if |s| >= 2 then |s| else 2
    ensures r[|r| - |s|..] == s
    ensures forall k :: 0 <= k < |r| - |s| ==> r[k] == '0'
  {
    if |s| >= 2 then s else seq(2 - |s|, _ => '0') + s
  }

  /** formatDateToISOString(year, month, day) with a 0-based month; never the empty string. */
  function FormatDateToIsoString(year: int, month: int, day: int): (r: string)
    ensures r != ""
  {
    Dashed(IntToString(year), PadStart2(IntToString(month + 1)), PadStart2(IntToString(day)))
  }

  /** The template literal `${y}-${m}-${d}`. */
  function Dashed(y: string, m: string, d: string): string {
    y + "-" + m + "-" + d
  }

  /**
   * `r` is the year text `y`, a dash, two digits denoting `month`, a dash and
   * two digits denoting `day`.
   */
  predicate IsDashedDate(r: string, y: string, month: int, day: int) {
    var n := |y|;
    && |r| == n + 6 && r[..n] == y && r[n] == '-' && r[n + 3] == '-'
    && AllDigits(r[n + 1..n + 3]) && DigitsValue(r[n + 1..n + 3]) == month
    && AllDigits(r[n + 4..]) && DigitsValue(r[n + 4..]) == day
  }

  /**
   * The shape of the written date: the year as String() writes it, then,
   * for a month in range and a day of at most two digits, a dash, the
   * 1-based month in two digits, a dash and the day in two digits.
   */
  lemma FormatDateShape(year: int, month: int, day: int)
    requires 0 <= month < 12 && 1 <= day <= 99
    ensures IsDashedDate(FormatDateToIsoString(year, month, day), IntToString(year), month + 1, day)
  {
    var y, m, d := IntToString(year), PadStart2(IntToString(month + 1)), PadStart2(IntToString(day));
    TwoDigits(month + 1);
    TwoDigits(day);
    DashedSlices(y, m, d, month + 1, day);
    assert FormatDateToIsoString(year, month, day) == Dashed(y, m, d);
  }

  /** The pieces of y-m-d for a month and a day written as two digits each. */
  lemma DashedSlices(y: string, m: string, d: string, mv: int, dv: int)
    requires |m| == 2 && AllDigits(m) && DigitsValue(m) == mv
    requires |d| == 2 && AllDigits(d) && DigitsValue(d) == dv
    ensures IsDashedDate(Dashed(y, m, d), y, mv, dv)
  {
    var r := y + "-" + m + "-" + d;
    assert r[..|y|] == y;
    assert r[|y| + 1..|y| + 3] == m;
    assert r[|y| + 4..] == d;
  }

  /**
   * Reads `YYYY-MM-DD` (four-digit year, two-digit month 01-12 and day
   * 01-31) as (year, 1-based month, day); anything else is not a date.
   */
  function ParseIsoDate(s: string): (r: Option<(int, int, int)>)
    ensures r.Some? ==> |s| == 10 && s[4] == '-' && s[7] == '-'
    ensures r.Some? ==> 0 <= r.value.0 && 1 <= r.value.1 <= 12 && 1 <= r.value.2 <= 31
  {
    if |s| == 10 && s[4] == '-' && s[7] == '-'
       && AllDigits(s[..4]) && AllDigits(s[5..7]) && AllDigits(s[8..])
    then
      var year := DigitsValue(s[..4]);
      var month := DigitsValue(s[5..7]);
      var day := DigitsValue(s[8..]);
      if 1 <= month <= 12 && 1 <= day <= 31 then Some((year, month, day)) else None
    else None
  }

  lemma FourDigits(n: nat)
    requires 1000 <= n <= 9999
    ensures |NatToString(n)| == 4
  {
    var a := n / 10;
    assert 100 <= a <= 999;
    var b := a / 10;
    assert 10 <= b <= 99;
    var c := b / 10;
    assert 1 <= c <= 9;
    assert |NatToString(b)| == |NatToString(c)| + 1 == 2;
    assert |NatToString(a)| == |NatToString(b)| + 1;
    assert |NatToString(n)| == |NatToString(a)| + 1;
  }

  /** A month number or day written with padStart(2, "0") is two digits denoting the number. */
  lemma TwoDigits(n: int)
    requires 1 <= n <= 99
    ensures var r := PadStart2(IntToString(n)); |r| == 2 && AllDigits(r) && DigitsValue(r) == n
  {
    var r := PadStart2(IntToString(n));
    if n < 10 {
      assert r == "0" + NatToString(n);
      assert r[..1] == "0";
    } else {
      assert 1 <= n / 10 < 10;
    }
  }

  /** Four digits, a dash, two digits, a dash and two digits read back as the three numbers. */
  lemma ParseDashedParts(y: string, m: string, d: string)
    requires |y| == 4 && |m| == 2 && |d| == 2
    requires AllDigits(y) && AllDigits(m) && AllDigits(d)
    requires 1 <= DigitsValue(m) <= 12 && 1 <= DigitsValue(d) <= 31
    ensures var s := Dashed(y, m, d);
            && |s| == 10 && s[4] == '-' && s[7] == '-'
            && ParseIsoDate(s) == Some((DigitsValue(y), DigitsValue(m), DigitsValue(d)))
  {
    var s := y + "-" + m + "-" + d;
    assert s[..4] == y;
    assert s[5..7] == m;
    assert s[8..] == d;
  }

  /**
   * For four-digit years the cell is written as an ISO 8601 extended date
   * (ten characters, dashes at positions 4 and 7), and reading it back gives
   * the year, the 1-based month and the day.
   */
  lemma FormatParseRoundTrip(year: int, month: int, day: int)
    requires 1000 <= year <= 9999 && 0 <= month < 12 && 1 <= day <= 31
    ensures var s := FormatDateToIsoString(year, month, day);
            && |s| == 10 && s[4] == '-' && s[7] == '-'
            && ParseIsoDate(s) == Some((year, month + 1, day))
  {
    var y := IntToString(year);
    var m := PadStart2(IntToString(month + 1));
    var d := PadStart2(IntToString(day));
    FourDigits(year);
    TwoDigits(month + 1);
    TwoDigits(day);
    assert DigitsValue(y) == year;
    ParseDashedParts(y, m, d);
  }

  /**
   * isSelectedDate with the stored string read field by field: the cell's
   * day, month and year equal the parsed ones; no date selected means no cell
   * is selected.
   */
  function IsSelectedDate(cell: Calendar.CalendarDay, date: string): (selected: bool)
    ensures selected <==> date != "" && ParseIsoDate(date) == Some((cell.year, cell.month + 1, cell.day))
    ensures selected ==> 0 <= cell.month < 12 && 1 <= cell.day <= 31
  {
    if date == "" then false
    else match ParseIsoDate(date)
      case Some((y, m, d)) => cell.day == d && cell.month == m - 1 && cell.year == y
      case None => false
  }

  /**
   * After a click on a cell with a four-digit year, exactly the cells with
   * the same day, month and year show as selected.
   */
  lemma SelectedAfterClick(clicked: Calendar.CalendarDay, cell: Calendar.CalendarDay)
    requires 1000 <= clicked.year <= 9999 && 0 <= clicked.month < 12 && 1 <= clicked.day <= 31
    ensures IsSelectedDate(cell, FormatDateToIsoString(clicked.year, clicked.month, clicked.day))
            <==> (cell.day, cell.month, cell.year) == (clicked.day, clicked.month, clicked.year)
  {
    FormatParseRoundTrip(clicked.year, clicked.month, clicked.day);
  }

  /** With `date` stored, the cells with the day, month and year of `clicked`, and no others, are selected. */
  ghost predicate SelectsExactly(date: string, clicked: Calendar.CalendarDay) {
    forall cell :: IsSelectedDate(cell, date) <==> (cell.day, cell.month, cell.year) == (clicked.day, clicked.month, clicked.year)
  }

  /** SelectedAfterClick for every cell at once. */
  lemma OnlyClickedSelected(clicked: Calendar.CalendarDay)
    requires 1000 <= clicked.year <= 9999 && 0 <= clicked.month < 12 && 1 <= clicked.day <= 31
    ensures SelectsExactly(FormatDateToIsoString(clicked.year, clicked.month, clicked.day), clicked)
  {
    forall cell
      ensures IsSelectedDate(cell, FormatDateToIsoString(clicked.year, clicked.month, clicked.day))
              <==> (cell.day, cell.month, cell.year) == (clicked.day, clicked.month, clicked.year)
    {
      SelectedAfterClick(clicked, cell);
    }
  }

  // ---------------------------------------------------------------------
  // isSelectedDate as written: `new Date(formData.date)` reads a date-only
  // string as UTC midnight (ECMAScript Date Time String Format), while
  // getDate/getMonth/getFullYear read local fields.
  // ---------------------------------------------------------------------

  lemma FloorShift(n: int, r: int)
    requires -Calendar.MsPerDay <= r < Calendar.MsPerDay
    ensures (n * Calendar.MsPerDay + r) / Calendar.MsPerDay == if r < 0 then n - 1 else n
  {
    var t := n * Calendar.MsPerDay + r;
    if r < 0 {
      assert t == (n - 1) * Calendar.MsPerDay + (r + Calendar.MsPerDay);
    }
  }

  /**
   * The local calendar day of the instant `new Date(date)` denotes, for a
   * local time zone `utcOffsetMinutes` ahead of UTC.
   */
  function LocalDayOfUtcMidnight(y: int, m: int, d: int, utcOffsetMinutes: int): int {
    (Calendar.DayNumber(y, m - 1, d) * Calendar.MsPerDay + utcOffsetMinutes * 60000) / Calendar.MsPerDay
  }

  /**
   * isSelectedDate as the source has it, for a cell that is a real date
   * (whose local fields match exactly when the day numbers match).
   */
  function IsSelectedDateAsWritten(cell: Calendar.CalendarDay, date: string, utcOffsetMinutes: int): (selected: bool)
    ensures selected ==> date != "" && ParseIsoDate(date).Some?
  {
    if date == "" then false
    else match ParseIsoDate(date)
      case Some((y, m, d)) =>
        Calendar.DayNumber(cell.year, cell.month, cell.day) == LocalDayOfUtcMidnight(y, m, d, utcOffsetMinutes)
      case None => false
  }

  /**
   * West of UTC (offsets between -24 h and 0) the highlight lands on the day
   * before the clicked one; at or east of UTC (under +24 h) on the clicked day.
   */
  lemma SelectionShiftWestOfUtc(clicked: Calendar.CalendarDay, cell: Calendar.CalendarDay, utcOffsetMinutes: int)
    requires 1000 <= clicked.year <= 9999 && 0 <= clicked.month < 12 && 1 <= clicked.day <= 31
    requires -1440 < utcOffsetMinutes < 1440
    ensures var n := Calendar.DayNumber(clicked.year, clicked.month, clicked.day);
            IsSelectedDateAsWritten(cell, FormatDateToIsoString(clicked.year, clicked.month, clicked.day), utcOffsetMinutes)
            <==> Calendar.DayNumber(cell.year, cell.month, cell.day) == (if utcOffsetMinutes < 0 then n - 1 else n)
  {
    var s := FormatDateToIsoString(clicked.year, clicked.month, clicked.day);
    assert |s| == 10 && ParseIsoDate(s) == Some((clicked.year, clicked.month + 1, clicked.day)) by {
      FormatParseRoundTrip(clicked.year, clicked.month, clicked.day);
    }
    StoredSelectionShift(cell, s, clicked.year, clicked.month, clicked.day, utcOffsetMinutes);
  }

  /** The same shift for any stored string that reads back as the clicked date. */
  lemma StoredSelectionShift(cell: Calendar.CalendarDay, s: string, y: int, m: int, d: int, utcOffsetMinutes: int)
    requires |s| == 10 && ParseIsoDate(s) == Some((y, m + 1, d))
    requires -1440 < utcOffsetMinutes < 1440
    ensures var n := Calendar.DayNumber(y, m, d);
            IsSelectedDateAsWritten(cell, s, utcOffsetMinutes)
            <==> Calendar.DayNumber(cell.year, cell.month, cell.day) == (if utcOffsetMinutes < 0 then n - 1 else n)
  {
    LocalDayOfClicked(y, m, d, utcOffsetMinutes);
    AsWrittenOfParsed(cell, s, y, m + 1, d, utcOffsetMinutes);
  }

  /** The local day of UTC midnight of a date, for offsets under 24 hours either way. */
  lemma LocalDayOfClicked(y: int, m: int, d: int, utcOffsetMinutes: int)
    requires -1440 < utcOffsetMinutes < 1440
    ensures var n := Calendar.DayNumber(y, m, d);
            LocalDayOfUtcMidnight(y, m + 1, d, utcOffsetMinutes) == if utcOffsetMinutes < 0 then n - 1 else n
  {
    assert m + 1 - 1 == m;
    FloorShift(Calendar.DayNumber(y, m, d), utcOffsetMinutes * 60000);
  }

  /** The rule as written, once the stored string has been read as (y, m, d). */
  lemma AsWrittenOfParsed(cell: Calendar.CalendarDay, s: string, y: int, m: int, d: int, utcOffsetMinutes: int)
    requires s != "" && ParseIsoDate(s) == Some((y, m, d))
    ensures IsSelectedDateAsWritten(cell, s, utcOffsetMinutes)
            <==> Calendar.DayNumber(cell.year, cell.month, cell.day) == LocalDayOfUtcMidnight(y, m, d, utcOffsetMinutes)
  {
  }

  /**
   * At or east of UTC (offsets from 0 up to +24 h), for cells that are real
   * dates, the rule as written and the field-wise rule agree.
   */
  lemma SelectionAgreesEastOfUtc(clicked: Calendar.CalendarDay, cell: Calendar.CalendarDay, utcOffsetMinutes: int)
    requires 1000 <= clicked.year <= 9999
    requires Calendar.IsValidDate(clicked.year, clicked.month, clicked.day)
    requires Calendar.IsValidDate(cell.year, cell.month, cell.day)
    requires 0 <= utcOffsetMinutes < 1440
    ensures var s := FormatDateToIsoString(clicked.year, clicked.month, clicked.day);
            IsSelectedDateAsWritten(cell, s, utcOffsetMinutes) <==> IsSelectedDate(cell, s)
  {
    SelectionShiftWestOfUtc(clicked, cell, utcOffsetMinutes);
    SelectedAfterClick(clicked, cell);
    Calendar.DayNumberOrder(cell.year, cell.month, cell.day, clicked.year, clicked.month, clicked.day);
  }

  /**
   * Concrete case: a visitor at UTC-4 clicks 10 June 2025; as written, the
   * 10th is not highlighted and the 9th is, while the field-wise rule
   * highlights the 10th.
   */
  lemma UtcParseCounterexample()
    ensures var s := FormatDateToIsoString(2025, 5, 10);
            && !IsSelectedDateAsWritten(Calendar.CalendarDay(10, 5, 2025, true), s, -240)
            && IsSelectedDateAsWritten(Calendar.CalendarDay(9, 5, 2025, true), s, -240)
            && IsSelectedDate(Calendar.CalendarDay(10, 5, 2025, true), s)
  {
    var clicked := Calendar.CalendarDay(10, 5, 2025, true);
    SelectionShiftWestOfUtc(clicked, clicked, -240);
    SelectionShiftWestOfUtc(clicked, Calendar.CalendarDay(9, 5, 2025, true), -240);
    Calendar.DayOffset(2025, 5, 10);
    Calendar.DayOffset(2025, 5, 9);
    SelectedAfterClick(clicked, clicked);
  }
}
