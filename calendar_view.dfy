/** The visual Gregorian calendar of src/components/CalendarConverter.tsx: the month grid
    and the week strip, month and week navigation, picking a date into the conversion
    inputs, and the guard in front of the two conversion requests. */
module CalendarView {
  import opened Wrappers
  import opened Text
  import opened Calendar

  /** The three text inputs of a conversion form. */
  datatype Inputs = Inputs(year: string, month: string, day: string)

  /** `isSelected` for the day `day` of `month` (1-based) of `year`: the inputs hold the
      unpadded decimal year, month and day. */
  predicate IsSelected(input: Inputs, year: int, month: int, day: int) {
    input.year == IntToString(year) && input.month == IntToString(month) && input.day == IntToString(day)
  }

  /** The inputs `handleDateSelect(d)` writes: `toString()` of the year, the 1-based month
      and the day. */
  function SelectInputs(d: Date): Inputs {
    Inputs(IntToString(d.year), IntToString(d.month), IntToString(d.day))
  }

  /** After picking `d`, a day is selected exactly when it is `d`. */
  lemma SelectedExactly(d: Date, c: Date)
    ensures IsSelected(SelectInputs(d), c.year, c.month, c.day) <==> c == d
  {
    IntToStringInjective(d.year, c.year);
    IntToStringInjective(d.month, c.month);
    IntToStringInjective(d.day, c.day);
  }

  // ---------------------------------------------------------------------------------
  // Month grid
  // ---------------------------------------------------------------------------------

  /** One slot of the seven-column month grid. */
  datatype Cell = Blank | Day(day: int, selected: bool)

  /** Blank slots before the first of the month: its weekday, Sunday first. */
  function LeadingBlanks(year: int, month: int): (n: int)
    requires 1 <= month <= 12
    ensures 0 <= n < 7
  {
    Weekday(Date(year, month, 1))
  }

  /** The slot at position `k` of the grid of `month` of `year`. */
  function MonthCell(year: int, month: int, input: Inputs, k: int): Cell
    requires 1 <= month <= 12
  {
    var lead := LeadingBlanks(year, month);
    if k < lead then Blank else Day(k - lead + 1, IsSelected(input, year, month, k - lead + 1))
  }

  /** The month grid: the leading blanks, then one cell per day of the month. */
  function MonthGrid(year: int, month: int, input: Inputs): seq<Cell>
    requires 1 <= month <= 12
  {
    seq(LeadingBlanks(year, month) + DaysInMonth(year, month), k => MonthCell(year, month, input, k))
  }

  /** The grid holds `weekday(1st)` blanks and then the days 1..`daysInMonth` in order, and
      each day lands in the column of its weekday. */
  lemma MonthGridLayout(year: int, month: int, input: Inputs)
    requires 1 <= month <= 12
    ensures var g, lead := MonthGrid(year, month, input), LeadingBlanks(year, month);
      && |g| == lead + DaysInMonth(year, month)
      && (forall k :: 0 <= k < lead ==> g[k] == Blank)
      && (forall d :: 1 <= d <= DaysInMonth(year, month) ==>
            g[lead + d - 1].Day? && g[lead + d - 1].day == d &&
            (lead + d - 1) % 7 == Weekday(Date(year, month, d)))
  {
    var first := Date(year, month, 1);
    forall d | 1 <= d <= DaysInMonth(year, month)
      ensures (LeadingBlanks(year, month) + d - 1) % 7 == Weekday(Date(year, month, d))
    {
      WeekdayShift(first, d - 1);
      AddDaysIs(first, d - 1, Date(year, month, d));
    }
  }

  /** After picking `d`, the month grid of `d`'s month has exactly one selected cell, the
      one of `d`, and other months have none. */
  lemma MonthGridSelection(d: Date, year: int, month: int)
    requires ValidDate(d) && 1 <= month <= 12
    ensures var g, lead := MonthGrid(year, month, SelectInputs(d)), LeadingBlanks(year, month);
      forall k :: 0 <= k < |g| ==>
        (g[k].Day? && g[k].selected <==> year == d.year && month == d.month && k == lead + d.day - 1)
  {
    var g, lead := MonthGrid(year, month, SelectInputs(d)), LeadingBlanks(year, month);
    forall k | 0 <= k < |g|
      ensures g[k].Day? && g[k].selected <==> year == d.year && month == d.month && k == lead + d.day - 1
    {
      if k >= lead {
        SelectedExactly(d, Date(year, month, k - lead + 1));
      }
    }
  }

  // ---------------------------------------------------------------------------------
  // Week strip
  // ---------------------------------------------------------------------------------

  /** The Sunday on or before `d`. */
  function WeekStart(d: Date): Date
    requires ValidDate(d)
  {
    AddDays(d, -Weekday(d))
  }

  /** One day of the week strip. */
  datatype WeekCell = WeekCell(date: Date, selected: bool)

  function WeekCellAt(d: Date, input: Inputs, i: int): WeekCell
    requires ValidDate(d)
  {
    var c := AddDays(WeekStart(d), i);
    WeekCell(c, IsSelected(input, c.year, c.month, c.day))
  }

  /** The seven days from the Sunday on or before `d`. */
  function WeekStrip(d: Date, input: Inputs): seq<WeekCell>
    requires ValidDate(d)
  {
    seq(7, i => WeekCellAt(d, input, i))
  }

  /** The Sunday on or before `d` is a Sunday at most six days before it, and `d` lies
      `weekday(d)` days after it. */
  lemma WeekStartIsSunday(d: Date)
    requires ValidDate(d)
    ensures var s := WeekStart(d);
      && ValidDate(s) && Weekday(s) == 0
      && DayNumber(d) - 6 <= DayNumber(s) <= DayNumber(d)
      && AddDays(s, Weekday(d)) == d
  {
    var s := WeekStart(d);
    WeekdayShift(d, -Weekday(d));
    AddDaysNumber(d, -Weekday(d));
    AddDaysIs(s, Weekday(d), d);
  }

  /** Day `i` after a Sunday is `i` days on and falls on weekday `i`. */
  lemma DaysAfterSunday(s: Date, i: int)
    requires ValidDate(s) && Weekday(s) == 0 && 0 <= i < 7
    ensures ValidDate(AddDays(s, i)) && DayNumber(AddDays(s, i)) == DayNumber(s) + i
    ensures Weekday(AddDays(s, i)) == i
  {
    var e := AddDays(s, i);
    AddDaysNumber(s, i);
    WeekdayShift(s, i);
    SmallShift(Weekday(s), Weekday(e), i);
  }

  lemma SmallShift(a: int, b: int, i: int)
    requires a == 0 && b == (a + i) % 7 && 0 <= i < 7
    ensures b == i
  {
  }

  /** The week strip starts on a Sunday at most six days before `d`, lists seven
      consecutive days (across month and year ends alike) in weekday order, and holds `d`
      in the column of its weekday. */
  lemma WeekStripLayout(d: Date, input: Inputs)
    requires ValidDate(d)
    ensures var w, s := WeekStrip(d, input), WeekStart(d);
      && Weekday(s) == 0
      && DayNumber(d) - 6 <= DayNumber(s) <= DayNumber(d)
      && (forall i :: 0 <= i < 7 ==>
            ValidDate(w[i].date) && DayNumber(w[i].date) == DayNumber(s) + i && Weekday(w[i].date) == i)
      && w[Weekday(d)].date == d
  {
    var s := WeekStart(d);
    WeekStartIsSunday(d);
    forall i | 0 <= i < 7
      ensures ValidDate(AddDays(s, i)) && DayNumber(AddDays(s, i)) == DayNumber(s) + i
      ensures Weekday(AddDays(s, i)) == i
    {
      DaysAfterSunday(s, i);
    }
  }

  /** After picking `d`, a cell of any week strip is selected exactly when it shows `d`. */
  lemma WeekStripSelection(d: Date, shown: Date)
    requires ValidDate(shown)
    ensures forall i :: 0 <= i < 7 ==>
      (WeekStrip(shown, SelectInputs(d))[i].selected <==> WeekStrip(shown, SelectInputs(d))[i].date == d)
  {
    forall i | 0 <= i < 7
      ensures WeekStrip(shown, SelectInputs(d))[i].selected <==> WeekStrip(shown, SelectInputs(d))[i].date == d
    {
      SelectedExactly(d, AddDays(WeekStart(shown), i));
    }
  }

  // ---------------------------------------------------------------------------------
  // Navigation
  // ---------------------------------------------------------------------------------

  /** Moving by whole weeks keeps the weekday and moves the week strip by the same
      number of days. */
  lemma WeekNavigation(d: Date, offset: int)
    requires ValidDate(d)
    ensures var e := AddDays(d, 7 * offset);
      && ValidDate(e) && DayNumber(e) == DayNumber(d) + 7 * offset
      && Weekday(e) == Weekday(d)
      && WeekStart(e) == AddDays(WeekStart(d), 7 * offset)
  {
    var w := Weekday(d);
    AddDaysNumber(d, 7 * offset);
    WeekdayShift(d, 7 * offset);
    WholeWeeks(w, offset);
    AddDaysAdd(d, 7 * offset, -w);
    AddDaysAdd(d, -w, 7 * offset);
  }

  lemma WholeWeeks(w: int, offset: int)
    requires 0 <= w < 7
    ensures (w + 7 * offset) % 7 == w
  {
    var q := (w + 7 * offset) / 7;
    var r := (w + 7 * offset) % 7;
    assert 7 * (q - offset) == w - r;
  }

  /** From a day that every month has, `k` months forward and `k` months back return to
      the same date. */
  lemma MonthNavigationReturns(d: Date, k: int)
    requires ValidDate(d) && d.day <= 28
    ensures var e := SetMonth(d, d.month - 1 + k);
      ValidDate(e) && SetMonth(e, e.month - 1 - k) == d
  {
    var (y, m) := MonthYearAfter(d.year, d.month, k);
    SetMonthOverflow(d, k);
    var e := Date(y, m, d.day);
    SetMonthOverflow(e, -k);
    var t := d.month - 1 + k;
    assert t == 12 * (t / 12) + t % 12;
    assert m - 1 - k == d.month - 1 - 12 * (t / 12);
    assert MonthYearAfter(y, m, -k) == (d.year, d.month);
  }

  // ---------------------------------------------------------------------------------
  // The component
  // ---------------------------------------------------------------------------------

  /** `d.setDate(day)` on a copy of `d`: `day - d.day` calendar days from `d`. */
  method SetDateOf(d: Date, day: int) returns (r: Date)
    requires ValidDate(d)
    ensures r == AddDays(d, day - d.day)
  {
    SetDateShift(d, day - d.day);
    r := SetDate(d, day);
  }

  datatype ViewMode = MonthView | WeekView

  /** The date a conversion service returned. */
  datatype ConvertedDate = ConvertedDate(day: int, monthName: string, year: int, weekdayName: string)

  /** One conversion form's request state. */
  datatype Conversion = Conversion(loading: bool, error: Option<string>, result: Option<ConvertedDate>)

  /** The guard `if (!year || !month || !day) return;`: every input is filled in. */
  predicate CanConvert(input: Inputs) {
    input.year != "" && input.month != "" && input.day != ""
  }

  class CalendarConverter {
    var displayDate: Date
    var viewMode: ViewMode
    var gregorianInput: Inputs
    var hijriInput: Inputs
    var g2h: Conversion
    var h2g: Conversion

    predicate Valid()
      reads this
    {
      ValidDate(displayDate)
    }

    /** The state once mounted, showing the month of `today`: the initial values, then the
        mount effect, which writes today's year, month and day, unpadded, into the
        Gregorian inputs. So today's cell starts selected and a conversion can be asked for
        at once. */
    constructor(today: Date)
      requires ValidDate(today)
      ensures Valid() && displayDate == today && viewMode == MonthView
      ensures gregorianInput == SelectInputs(today) && hijriInput == Inputs("", "", "")
      ensures gregorianInput.year != "" && gregorianInput.month != "" && gregorianInput.day != ""
      ensures forall c: Date :: IsSelected(gregorianInput, c.year, c.month, c.day) <==> c == today
      ensures g2h == Conversion(false, None, None) && h2g == Conversion(false, None, None)
    {
      displayDate := today;
      viewMode := MonthView;
      gregorianInput := SelectInputs(today);
      hijriInput := Inputs("", "", "");
      g2h := Conversion(false, None, None);
      h2g := Conversion(false, None, None);
      forall c: Date
        ensures IsSelected(SelectInputs(today), c.year, c.month, c.day) <==> c == today
      {
        SelectedExactly(today, c);
      }
    }

    /** `renderMonthView`: the grid of the display date's month, built slot by slot. */
    method RenderMonthView() returns (cells: seq<Cell>)
      requires Valid()
      ensures cells == MonthGrid(displayDate.year, displayDate.month, gregorianInput)
    {
      var year, month := displayDate.year, displayDate.month - 1;
      MakeDateInMonth(Date(year, month + 1, 1));
      DaysInMonthIdiom(year, month + 1);
      var firstDayOfMonth := Weekday(MakeDate(year, month, 1));
      var daysInMonth := MakeDate(year, month + 1, 0).day;
      var startingSlot := firstDayOfMonth;
      ghost var grid := MonthGrid(year, month + 1, gregorianInput);
      cells := [];
      for i := 0 to startingSlot
        invariant |cells| == i && forall k :: 0 <= k < i ==> cells[k] == grid[k]
      {
        cells := cells + [Blank];
      }
      for d := 1 to daysInMonth + 1
        invariant |cells| == startingSlot + d - 1
        invariant forall k :: 0 <= k < |cells| ==> cells[k] == grid[k]
      {
        var isSelected := gregorianInput.year == IntToString(year) &&
          gregorianInput.month == IntToString(month + 1) && gregorianInput.day == IntToString(d);
        cells := cells + [Day(d, isSelected)];
      }
    }

    /** `renderWeekView`: the display date is moved back to its Sunday with `setDate`,
        then each of the seven days is that Sunday's `setDate(getDate() + i)`. */
    method RenderWeekView() returns (days: seq<WeekCell>)
      requires Valid()
      ensures days == WeekStrip(displayDate, gregorianInput)
    {
      var day := Weekday(displayDate);
      var diff := displayDate.day - day;
      var startOfWeek := SetDateOf(displayDate, diff);
      assert startOfWeek == WeekStart(displayDate);
      days := [];
      for i := 0 to 7
        invariant |days| == i
        invariant forall k :: 0 <= k < i ==> days[k] == WeekCellAt(displayDate, gregorianInput, k)
      {
        var current := SetDateOf(startOfWeek, startOfWeek.day + i);
        var isSelected := gregorianInput.year == IntToString(current.year) &&
          gregorianInput.month == IntToString(current.month) && gregorianInput.day == IntToString(current.day);
        assert current == AddDays(WeekStart(displayDate), i);
        assert WeekCell(current, isSelected) == WeekCellAt(displayDate, gregorianInput, i);
        days := days + [WeekCell(current, isSelected)];
      }
    }

    /** `handleDateSelect`: the Gregorian inputs take the picked date and the view moves
        to it. */
    method HandleDateSelect(date: Date)
      requires ValidDate(date)
      modifies this
      ensures Valid() && gregorianInput == SelectInputs(date) && displayDate == date
      ensures viewMode == old(viewMode) && hijriInput == old(hijriInput)
      ensures g2h == old(g2h) && h2g == old(h2g)
    {
      gregorianInput := Inputs(IntToString(date.year), IntToString(date.month), IntToString(date.day));
      displayDate := date;
    }

    /** `changeDisplayMonth`: `setMonth(getMonth() + offset)` on a copy of the display date. */
    method ChangeDisplayMonth(offset: int)
      requires Valid()
      modifies this
      ensures Valid() && displayDate == SetMonth(old(displayDate), old(displayDate).month - 1 + offset)
      ensures viewMode == old(viewMode) && gregorianInput == old(gregorianInput)
      ensures hijriInput == old(hijriInput) && g2h == old(g2h) && h2g == old(h2g)
    {
      displayDate := SetMonth(displayDate, displayDate.month - 1 + offset);
    }

    /** `changeDisplayWeek`: `setDate(getDate() + offset * 7)`, exactly `7 * offset` days. */
    method ChangeDisplayWeek(offset: int)
      requires Valid()
      modifies this
      ensures Valid() && displayDate == AddDays(old(displayDate), 7 * offset)
      ensures viewMode == old(viewMode) && gregorianInput == old(gregorianInput)
      ensures hijriInput == old(hijriInput) && g2h == old(g2h) && h2g == old(h2g)
    {
      displayDate := SetDateOf(displayDate, displayDate.day + offset * 7);
    }

    /** The header arrows: month navigation in the month view, week navigation otherwise. */
    method Navigate(offset: int)
      requires Valid()
      modifies this
      ensures Valid()
      ensures old(viewMode) == MonthView ==>
        displayDate == SetMonth(old(displayDate), old(displayDate).month - 1 + offset)
      ensures old(viewMode) == WeekView ==> displayDate == AddDays(old(displayDate), 7 * offset)
      ensures viewMode == old(viewMode) && gregorianInput == old(gregorianInput)
      ensures hijriInput == old(hijriInput) && g2h == old(g2h) && h2g == old(h2g)
    {
      if viewMode == MonthView {
        ChangeDisplayMonth(offset);
      } else {
        ChangeDisplayWeek(offset);
      }
    }

    /** `handleG2HConvert` up to the service call: with an input missing nothing happens;
        otherwise the request starts with loading set and error and result cleared. */
    method HandleG2HConvert() returns (request: Option<Inputs>)
      modifies this
      ensures request == if CanConvert(gregorianInput) then Some(gregorianInput) else None
      ensures g2h == if CanConvert(gregorianInput) then Conversion(true, None, None) else old(g2h)
      ensures displayDate == old(displayDate) && viewMode == old(viewMode)
      ensures gregorianInput == old(gregorianInput) && hijriInput == old(hijriInput) && h2g == old(h2g)
    {
      var input := gregorianInput;
      if input.year == "" || input.month == "" || input.day == "" {
        return None;
      }
      g2h := Conversion(true, None, None);
      request := Some(input);
    }

    /** `handleH2GConvert` up to the service call, with the same guard on the Hijri inputs. */
    method HandleH2GConvert() returns (request: Option<Inputs>)
      modifies this
      ensures request == if CanConvert(hijriInput) then Some(hijriInput) else None
      ensures h2g == if CanConvert(hijriInput) then Conversion(true, None, None) else old(h2g)
      ensures displayDate == old(displayDate) && viewMode == old(viewMode)
      ensures gregorianInput == old(gregorianInput) && hijriInput == old(hijriInput) && g2h == old(g2h)
    {
      var input := hijriInput;
      if input.year == "" || input.month == "" || input.day == "" {
        return None;
      }
      h2g := Conversion(true, None, None);
      request := Some(input);
    }
  }
}
