/** The proleptic Gregorian calendar that JavaScript's `Date` implements in local time,
    reduced to what the application uses: leap years, month lengths, day numbers,
    weekdays, `new Date(y, m, d)` normalisation, `setDate`, `setMonth`, and the
    `YYYY-MM-DDTHH:mm` strings of a `datetime-local` input.

    Months are 1..12 in `Date`; the JavaScript month index (0..11, and any integer
    before normalisation) appears only as the `monthIndex` parameter of `MakeDate`. */
module Calendar {
  import opened Wrappers
  import opened Text

  predicate IsLeapYear(year: int) {
    year % 4 == 0 && (year % 100 != 0 || year % 400 == 0)
  }

  function DaysInYear(year: int): int {
    if IsLeapYear(year) then 366 else 365
  }

  /** Length of `month` (1..12) in `year`. */
  function DaysInMonth(year: int, month: int): (n: int)
    requires 1 <= month <= 12
    ensures 28 <= n <= 31
  {
    if month == 2 then (if IsLeapYear(year) then 29 else 28)
    else if month == 4 || month == 6 || month == 9 || month == 11 then 30
    else 31
  }

  datatype Date = Date(year: int, month: int, day: int)

  predicate ValidDate(d: Date) {
    1 <= d.month <= 12 && 1 <= d.day <= DaysInMonth(d.year, d.month)
  }

  /** Days from 0001-01-01 to January 1st of `year` (negative before year 1). */
  function DaysBeforeYear(year: int): int {
    365 * (year - 1) + (year - 1) / 4 - (year - 1) / 100 + (year - 1) / 400
  }

  /** Days of `year` before the first of `month`; month 13 stands for the next January. */
  function DaysBeforeMonth(year: int, month: int): int
    requires 1 <= month <= 13
  {
    var common :=
      if month == 1 then 0 else if month == 2 then 31 else if month == 3 then 59
      else if month == 4 then 90 else if month == 5 then 120 else if month == 6 then 151
      else if month == 7 then 181 else if month == 8 then 212 else if month == 9 then 243
      else if month == 10 then 273 else if month == 11 then 304 else if month == 12 then 334
      else 365;
    common + (if month > 2 && IsLeapYear(year) then 1 else 0)
  }

  /** Serial day number: 0001-01-01 is day 0. */
  function DayNumber(d: Date): int
    requires ValidDate(d)
  {
    DaysBeforeYear(d.year) + DaysBeforeMonth(d.year, d.month) + d.day - 1
  }

  // ---------------------------------------------------------------------------------
  // Arithmetic facts behind the day numbers

  lemma DivStep4(y: int)
    ensures y / 4 - (y - 1) / 4 == if y % 4 == 0 then 1 else 0
  {
  }

  lemma DivStep100(y: int)
    ensures y / 100 - (y - 1) / 100 == if y % 100 == 0 then 1 else 0
  {
  }

  lemma DivStep400(y: int)
    ensures y / 400 - (y - 1) / 400 == if y % 400 == 0 then 1 else 0
  {
  }

  /** The closed-form count of days before a year agrees with the leap-year rule:
      consecutive New Year's Days are one year length apart. */
  lemma YearLength(year: int)
    ensures DaysBeforeYear(year + 1) == DaysBeforeYear(year) + DaysInYear(year)
  {
    DivStep4(year);
    DivStep100(year);
    DivStep400(year);
  }

  /** The month table adds up: each month starts where the previous one ends, and the
      twelve months make up the year. */
  lemma MonthLength(year: int, month: int)
    requires 1 <= month <= 12
    ensures DaysBeforeMonth(year, month + 1) == DaysBeforeMonth(year, month) + DaysInMonth(year, month)
    ensures DaysBeforeMonth(year, 13) == DaysInYear(year)
  {
  }

  lemma DaysBeforeMonthMonotone(year: int, m1: int, m2: int)
    requires 1 <= m1 <= m2 <= 13
    ensures DaysBeforeMonth(year, m1) <= DaysBeforeMonth(year, m2)
  {
  }

  /** Later years start at least 365 days per year later. */
  lemma {:induction false} DaysBeforeYearMonotone(a: int, b: int)
    requires a <= b
    ensures DaysBeforeYear(b) - DaysBeforeYear(a) >= 365 * (b - a)
    decreases b - a
  {
    if a < b {
      YearLength(a);
      DaysBeforeYearMonotone(a + 1, b);
    }
  }

  /** A date's day number lies within its own year. */
  lemma DayNumberInYear(d: Date)
    requires ValidDate(d)
    ensures DaysBeforeYear(d.year) <= DayNumber(d) < DaysBeforeYear(d.year + 1)
  {
    MonthLength(d.year, d.month);
    DaysBeforeMonthMonotone(d.year, d.month + 1, 13);
    YearLength(d.year);
  }

  /** Calendar order: year, then month, then day. */
  predicate DateBefore(a: Date, b: Date) {
    a.year < b.year ||
    (a.year == b.year && (a.month < b.month || (a.month == b.month && a.day < b.day)))
  }

  lemma DayNumberBefore(a: Date, b: Date)
    requires ValidDate(a) && ValidDate(b) && DateBefore(a, b)
    ensures DayNumber(a) < DayNumber(b)
  {
    if a.year < b.year {
      DayNumberInYear(a);
      DayNumberInYear(b);
      DaysBeforeYearMonotone(a.year + 1, b.year);
    } else if a.month < b.month {
      MonthLength(a.year, a.month);
      DaysBeforeMonthMonotone(a.year, a.month + 1, b.month);
    }
  }

  /** Day numbers order dates exactly as the calendar does, and identify them. */
  lemma DayNumberOrder(a: Date, b: Date)
    requires ValidDate(a) && ValidDate(b)
    ensures DayNumber(a) < DayNumber(b) <==> DateBefore(a, b)
    ensures DayNumber(a) == DayNumber(b) <==> a == b
  {
    if DateBefore(a, b) {
      DayNumberBefore(a, b);
    } else if DateBefore(b, a) {
      DayNumberBefore(b, a);
    }
  }

  // ---------------------------------------------------------------------------------
  // Stepping through days

  function NextDay(d: Date): Date
    requires ValidDate(d)
  {
    if d.day < DaysInMonth(d.year, d.month) then Date(d.year, d.month, d.day + 1)
    else if d.month < 12 then Date(d.year, d.month + 1, 1)
    else Date(d.year + 1, 1, 1)
  }

  function PrevDay(d: Date): Date
    requires ValidDate(d)
  {
    if d.day > 1 then Date(d.year, d.month, d.day - 1)
    else if d.month > 1 then Date(d.year, d.month - 1, DaysInMonth(d.year, d.month - 1))
    else Date(d.year - 1, 12, 31)
  }

  lemma NextDayNumber(d: Date)
    requires ValidDate(d)
    ensures ValidDate(NextDay(d)) && DayNumber(NextDay(d)) == DayNumber(d) + 1
  {
    MonthLength(d.year, d.month);
    if d.day == DaysInMonth(d.year, d.month) && d.month == 12 {
      YearLength(d.year);
    }
  }

  lemma PrevDayNumber(d: Date)
    requires ValidDate(d)
    ensures ValidDate(PrevDay(d)) && DayNumber(PrevDay(d)) == DayNumber(d) - 1
  {
    if d.day == 1 {
      if d.month > 1 {
        MonthLength(d.year, d.month - 1);
      } else {
        MonthLength(d.year - 1, 12);
        YearLength(d.year - 1);
      }
    }
  }

  /** `n` days after (before, for negative `n`) `d`, one calendar day at a time. */
  function AddDays(d: Date, n: int): (r: Date)
    requires ValidDate(d)
    ensures ValidDate(r)
    decreases if n < 0 then -n else n
  {
    if n == 0 then d
    else if n > 0 then (NextDayNumber(d); AddDays(NextDay(d), n - 1))
    else (PrevDayNumber(d); AddDays(PrevDay(d), n + 1))
  }

  /** Adding `n` days moves the day number by exactly `n`. */
  lemma {:induction false} AddDaysNumber(d: Date, n: int)
    requires ValidDate(d)
    ensures DayNumber(AddDays(d, n)) == DayNumber(d) + n
    decreases if n < 0 then -n else n
  {
    if n > 0 {
      NextDayNumber(d);
      assert AddDays(d, n) == AddDays(NextDay(d), n - 1);
      AddDaysNumber(NextDay(d), n - 1);
    } else if n < 0 {
      PrevDayNumber(d);
      assert AddDays(d, n) == AddDays(PrevDay(d), n + 1);
      AddDaysNumber(PrevDay(d), n + 1);
    }
  }

  /** The date `n` days after `d` is the one valid date with that day number. */
  lemma AddDaysIs(d: Date, n: int, e: Date)
    requires ValidDate(d) && ValidDate(e) && DayNumber(e) == DayNumber(d) + n
    ensures AddDays(d, n) == e
  {
    AddDaysNumber(d, n);
    DayNumberOrder(AddDays(d, n), e);
  }

  lemma AddDaysAdd(d: Date, a: int, b: int)
    requires ValidDate(d)
    ensures ValidDate(AddDays(d, a)) && AddDays(AddDays(d, a), b) == AddDays(d, a + b)
  {
    var x := AddDays(d, a);
    var y := AddDays(d, a + b);
    AddDaysNumber(d, a);
    AddDaysNumber(d, a + b);
    assert DayNumber(y) == DayNumber(x) + b;
    AddDaysIs(x, b, y);
  }

  // ---------------------------------------------------------------------------------
  // JavaScript Date idioms

  /** The date arithmetic of `new Date(year, monthIndex, day)`, `setDate` and `setMonth`:
      the month index (0-based) carries into the year, then the day counts from the first
      of that month, so 0 is the previous month's last day and values past the month's end
      run into the following months. The year is taken as it is (see `NewDate` for the
      constructor's reading of years 0..99). */
  function MakeDate(year: int, monthIndex: int, day: int): Date {
    AddDays(FirstOfMonthIndex(year, monthIndex), day - 1)
  }

  /** `d.setDate(day)`. */
  function SetDate(d: Date, day: int): Date {
    MakeDate(d.year, d.month - 1, day)
  }

  /** `d.setMonth(monthIndex)`, which keeps the day of month. */
  function SetMonth(d: Date, monthIndex: int): Date {
    MakeDate(d.year, monthIndex, d.day)
  }

  /** The first of the month that `new Date(year, monthIndex, 1)` lands on. */
  function FirstOfMonthIndex(year: int, monthIndex: int): (d: Date)
    ensures ValidDate(d) && d.day == 1
  {
    Date(year + monthIndex / 12, monthIndex % 12 + 1, 1)
  }

  lemma MakeDateNumber(year: int, monthIndex: int, day: int)
    ensures ValidDate(MakeDate(year, monthIndex, day))
    ensures DayNumber(MakeDate(year, monthIndex, day))
         == DayNumber(FirstOfMonthIndex(year, monthIndex)) + day - 1
  {
    AddDaysNumber(FirstOfMonthIndex(year, monthIndex), day - 1);
  }

  /** The constructor `new Date(year, monthIndex, day)` itself: a year 0..99 stands for
      1900 + year, which `setDate` and `setMonth` do not do. */
  function NewDate(year: int, monthIndex: int, day: int): Date {
    MakeDate(if 0 <= year <= 99 then 1900 + year else year, monthIndex, day)
  }

  /** The constructor gives back an existing day exactly when its year is outside 0..99;
      a year 0..99 lands in the twentieth century. */
  lemma NewDateTwoDigitYears(d: Date)
    requires ValidDate(d)
    ensures NewDate(d.year, d.month - 1, d.day) == d <==> !(0 <= d.year <= 99)
    ensures 0 <= d.year <= 99 ==> NewDate(d.year, d.month - 1, d.day).year >= 1900
  {
    if 0 <= d.year <= 99 {
      NewDateCentury(d);
    } else {
      MakeDateInMonth(d);
    }
  }

  lemma NewDateCentury(d: Date)
    requires ValidDate(d) && 0 <= d.year <= 99
    ensures NewDate(d.year, d.month - 1, d.day).year >= 1900
  {
    var first := FirstOfMonthIndex(1900 + d.year, d.month - 1);
    assert first.year == 1900 + d.year;
    assert NewDate(d.year, d.month - 1, d.day) == AddDays(first, d.day - 1);
    AddDaysForward(first, d.day - 1);
  }

  /** Moving forward never lands in an earlier year. */
  lemma AddDaysForward(d: Date, n: int)
    requires ValidDate(d) && n >= 0
    ensures AddDays(d, n).year >= d.year
  {
    AddDaysNumber(d, n);
    DayNumberOrder(AddDays(d, n), d);
  }

  /** For year 50 the constructor reads 1 March 1950, a Wednesday, while 1 March 50 is a
      Tuesday; and `new Date(0, 2, 0)` is 28 February 1900, although February of year 0
      (a leap year) has 29 days. */
  lemma NewDateTwoDigitExamples()
    ensures NewDate(50, 2, 1) == Date(1950, 3, 1) && Weekday(Date(1950, 3, 1)) == 3
    ensures Weekday(Date(50, 3, 1)) == 2
    ensures NewDate(0, 2, 0) == Date(1900, 2, 28) && DaysInMonth(0, 2) == 29
  {
    MakeDateInMonth(Date(1950, 3, 1));
    AddDaysIs(Date(1900, 3, 1), -1, Date(1900, 2, 28));
  }

  /** A day that exists in the month is taken as it is. */
  lemma MakeDateInMonth(d: Date)
    requires ValidDate(d)
    ensures MakeDate(d.year, d.month - 1, d.day) == d
  {
    var first := FirstOfMonthIndex(d.year, d.month - 1);
    assert first == Date(d.year, d.month, 1);
    AddDaysIs(first, d.day - 1, d);
  }

  /** `d.setDate(d.getDate() + n)` moves `d` by exactly `n` calendar days. */
  lemma SetDateShift(d: Date, n: int)
    requires ValidDate(d)
    ensures SetDate(d, d.day + n) == AddDays(d, n)
  {
    var first := FirstOfMonthIndex(d.year, d.month - 1);
    assert first == Date(d.year, d.month, 1);
    AddDaysIs(first, d.day - 1, d);
    AddDaysAdd(first, d.day - 1, n);
  }

  /** The 1-based month that is `k` months after `month`, and its year. */
  function MonthYearAfter(year: int, month: int, k: int): (r: (int, int))
    ensures 1 <= r.1 <= 12
  {
    (year + (month - 1 + k) / 12, (month - 1 + k) % 12 + 1)
  }

  /** The first of the next month is a month length after the first of this one. */
  lemma NextMonthStart(year: int, month: int)
    requires 1 <= month <= 12
    ensures var (y2, m2) := MonthYearAfter(year, month, 1);
      DayNumber(Date(y2, m2, 1)) == DayNumber(Date(year, month, 1)) + DaysInMonth(year, month)
  {
    MonthLength(year, month);
    if month < 12 {
      assert MonthYearAfter(year, month, 1) == (year, month + 1);
    } else {
      assert MonthYearAfter(year, month, 1) == (year + 1, 1);
      YearLength(year);
    }
  }

  /** The idiom `new Date(year, month + 1, 0).getDate()` (JavaScript's 0-based `month`,
      here the 1-based `month` as the following month's index) yields `DaysInMonth`: day 0 of
      the next month is the last day of this one. */
  lemma DaysInMonthIdiom(year: int, month: int)
    requires 1 <= month <= 12
    ensures MakeDate(year, month, 0) == Date(year, month, DaysInMonth(year, month))
  {
    var (y2, m2) := MonthYearAfter(year, month, 1);
    var next := FirstOfMonthIndex(year, month);
    assert next == Date(y2, m2, 1);
    NextMonthStart(year, month);
    AddDaysIs(next, -1, Date(year, month, DaysInMonth(year, month)));
  }

  /** `d.setMonth(d.getMonth() + k)`: the day of month is kept when the target month has
      it, and otherwise runs over into the month after by the missing number of days. */
  lemma SetMonthOverflow(d: Date, k: int)
    requires ValidDate(d)
    ensures var (y, m) := MonthYearAfter(d.year, d.month, k);
      && (d.day <= DaysInMonth(y, m) ==> SetMonth(d, d.month - 1 + k) == Date(y, m, d.day))
      && (d.day > DaysInMonth(y, m) ==>
            var (y2, m2) := MonthYearAfter(y, m, 1);
            SetMonth(d, d.month - 1 + k) == Date(y2, m2, d.day - DaysInMonth(y, m)))
  {
    var (y, m) := MonthYearAfter(d.year, d.month, k);
    var first := FirstOfMonthIndex(d.year, d.month - 1 + k);
    assert first == Date(y, m, 1);
    if d.day <= DaysInMonth(y, m) {
      AddDaysIs(first, d.day - 1, Date(y, m, d.day));
    } else {
      var (y2, m2) := MonthYearAfter(y, m, 1);
      NextMonthStart(y, m);
      AddDaysIs(first, d.day - 1, Date(y2, m2, d.day - DaysInMonth(y, m)));
    }
  }

  /** `getDay()`: 0 is Sunday. Day 0 (0001-01-01) was a Monday. */
  function Weekday(d: Date): (w: int)
    requires ValidDate(d)
    ensures 0 <= w < 7
  {
    (DayNumber(d) + 1) % 7
  }

  /** Moving `n` days moves the weekday by `n` modulo 7. */
  lemma WeekdayShift(d: Date, n: int)
    requires ValidDate(d)
    ensures ValidDate(AddDays(d, n)) && Weekday(AddDays(d, n)) == (Weekday(d) + n) % 7
  {
    AddDaysNumber(d, n);
    ModSevenAdd(DayNumber(d) + 1, n);
  }

  lemma ModSevenAdd(a: int, n: int)
    ensures (a + n) % 7 == (a % 7 + n) % 7
  {
    var q := a / 7;
    assert a == 7 * q + a % 7;
    assert a + n == 7 * q + (a % 7 + n);
  }

  /** Anchors that pin the weekday numbering to the real calendar: 1 January 1970 was a
      Thursday and 1 January 2024 a Monday. */
  lemma WeekdayAnchors()
    ensures Weekday(Date(1970, 1, 1)) == 4
    ensures Weekday(Date(2024, 1, 1)) == 1
  {
  }

  /** Months counted from year 0: strictly later months hold strictly later days. */
  function MonthIndex(d: Date): int {
    d.year * 12 + d.month - 1
  }

  lemma MonthIndexOrder(a: Date, b: Date)
    requires ValidDate(a) && ValidDate(b) && MonthIndex(a) < MonthIndex(b)
    ensures DayNumber(a) < DayNumber(b)
  {
    DayNumberOrder(a, b);
  }

  // ---------------------------------------------------------------------------------
  // Date-times at minute precision

  /** A local date-time as a `datetime-local` input gives it: minute precision. */
  datatype DateTime = DateTime(date: Date, hour: int, minute: int)

  predicate ValidDateTime(t: DateTime) {
    ValidDate(t.date) && 0 <= t.hour < 24 && 0 <= t.minute < 60
  }

  const MillisPerDay: int := 86400000

  /** Milliseconds into a day for a clock reading, as `setHours(h, min, s, ms)` sets it. */
  function ClockMillis(hour: int, minute: int, second: int, milli: int): int {
    ((hour * 60 + minute) * 60 + second) * 1000 + milli
  }

  /** The instant of a date-time in local milliseconds since 0001-01-01T00:00; comparing
      instants is comparing `getTime()` values. */
  function Millis(t: DateTime): int
    requires ValidDate(t.date)
  {
    DayNumber(t.date) * MillisPerDay + ClockMillis(t.hour, t.minute, 0, 0)
  }

  /** A date normalised with `setHours(23, 59, 59, 999)`. */
  function EndOfDayMillis(d: Date): int
    requires ValidDate(d)
  {
    DayNumber(d) * MillisPerDay + ClockMillis(23, 59, 59, 999)
  }

  /** A date-time is no later than the end of day `e` exactly when its date is no later
      than `e`: the end-of-day normalisation makes the end date inclusive. */
  lemma WithinEndOfDay(t: DateTime, e: Date)
    requires ValidDateTime(t) && ValidDate(e)
    ensures Millis(t) <= EndOfDayMillis(e) <==> DayNumber(t.date) <= DayNumber(e)
  {
  }

  /** Instants order date-times by date, then by hour and minute. */
  lemma MillisOrder(a: DateTime, b: DateTime)
    requires ValidDateTime(a) && ValidDateTime(b)
    ensures Millis(a) < Millis(b) <==>
      DayNumber(a.date) < DayNumber(b.date) ||
      (a.date == b.date && (a.hour < b.hour || (a.hour == b.hour && a.minute < b.minute)))
    ensures Millis(a) == Millis(b) <==> a == b
  {
    DayNumberOrder(a.date, b.date);
  }

  // ---------------------------------------------------------------------------------
  // The `YYYY-MM-DDTHH:mm` strings

  /** The date part `${y}-${m}-${d}` of the template: the year printed as it is, month
      and day passed through `padStart(2, '0')`. */
  function FormatDate(d: Date): string
    requires ValidDate(d)
  {
    IntToString(d.year) + "-" + Pad2(d.month) + "-" + Pad2(d.day)
  }

  /** The time part `${h}:${min}` of the template, both fields padded to two digits. */
  function FormatTime(hour: int, minute: int): string
    requires 0 <= hour < 24 && 0 <= minute < 60
  {
    Pad2(hour) + ":" + Pad2(minute)
  }

  /** The template `${y}-${m}-${d}T${h}:${min}`. */
  function FormatDateTime(t: DateTime): string
    requires ValidDateTime(t)
  {
    FormatDate(t.date) + "T" + FormatTime(t.hour, t.minute)
  }

  function DigitValue(c: char): int {
    c as int - '0' as int
  }

  /** The two-digit number at `s[i..i + 2]`. */
  function TwoDigitsAt(s: string, i: nat): int
    requires i + 2 <= |s|
  {
    DigitValue(s[i]) * 10 + DigitValue(s[i + 1])
  }

  /** The four-digit number at `s[i..i + 4]`. */
  function FourDigitsAt(s: string, i: nat): int
    requires i + 4 <= |s|
  {
    TwoDigitsAt(s, i) * 100 + TwoDigitsAt(s, i + 2)
  }

  /** `YYYY-MM-DD`: digits and dashes in place. */
  predicate DateShape(s: string)
    requires |s| == 10
  {
    IsDigit(s[0]) && IsDigit(s[1]) && IsDigit(s[2]) && IsDigit(s[3]) && s[4] == '-' &&
    IsDigit(s[5]) && IsDigit(s[6]) && s[7] == '-' && IsDigit(s[8]) && IsDigit(s[9])
  }

  /** `HH:mm`: digits and a colon in place. */
  predicate TimeShape(s: string)
    requires |s| == 5
  {
    IsDigit(s[0]) && IsDigit(s[1]) && s[2] == ':' && IsDigit(s[3]) && IsDigit(s[4])
  }

  /** Reads a `date` input value `YYYY-MM-DD` (four-digit year); `None` for any other
      string or for a day that does not exist. */
  function ParseDate(s: string): (r: Option<Date>)
    ensures r.Some? ==> ValidDate(r.value) && 0 <= r.value.year <= 9999
  {
    if |s| == 10 && DateShape(s) then
      var d := Date(FourDigitsAt(s, 0), TwoDigitsAt(s, 5), TwoDigitsAt(s, 8));
      if ValidDate(d) then Some(d) else None
    else None
  }

  /** Reads an `HH:mm` clock reading; `None` unless it names a minute of the day. */
  function ParseTime(s: string): (r: Option<(int, int)>)
    ensures r.Some? ==> 0 <= r.value.0 < 24 && 0 <= r.value.1 < 60
  {
    if |s| == 5 && TimeShape(s) then
      var (hour, minute) := (TwoDigitsAt(s, 0), TwoDigitsAt(s, 3));
      if 0 <= hour < 24 && 0 <= minute < 60 then Some((hour, minute)) else None
    else None
  }

  /** Reads a `datetime-local` value `YYYY-MM-DDTHH:mm`. */
  function ParseDateTime(s: string): (r: Option<DateTime>)
    ensures r.Some? ==> ValidDateTime(r.value) && 0 <= r.value.date.year <= 9999
  {
    if |s| == 16 && s[10] == 'T' then
      match (ParseDate(s[..10]), ParseTime(s[11..]))
      case (Some(d), Some(clock)) => Some(DateTime(d, clock.0, clock.1))
      case _ => None
    else None
  }

  lemma DigitCharValue(d: int)
    requires 0 <= d < 10
    ensures DigitValue(DigitChar(d)) == d
  {
  }

  /** The digits of a number below 100 read back as that number. */
  lemma TwoDigitsRead(s: string, i: nat, n: int)
    requires 0 <= n < 100 && i + 2 <= |s|
    requires s[i] == DigitChar(n / 10) && s[i + 1] == DigitChar(n % 10)
    ensures TwoDigitsAt(s, i) == n
  {
    DigitCharValue(n / 10);
    DigitCharValue(n % 10);
  }

  /** A four-digit number is its decimal digits weighted by 1000, 100, 10 and 1. */
  lemma FourDigitDecomposition(n: int)
    requires 1000 <= n <= 9999
    ensures n == (n / 1000 * 10 + n / 100 % 10) * 100 + (n / 10 % 10 * 10 + n % 10)
  {
    var q := n / 10;
    var r := n % 10;
    assert n == 10 * q + r;
    assert q / 10 == n / 100;
    assert q / 100 == n / 1000;
    assert q == 10 * (q / 10) + q % 10;
    assert n / 100 == 10 * (n / 1000) + n / 100 % 10;
  }

  /** The digits of a four-digit number read back as that number. */
  lemma FourDigitsRead(s: string, i: nat, n: int)
    requires 1000 <= n <= 9999 && i + 4 <= |s|
    requires s[i] == DigitChar(n / 1000) && s[i + 1] == DigitChar(n / 100 % 10)
    requires s[i + 2] == DigitChar(n / 10 % 10) && s[i + 3] == DigitChar(n % 10)
    ensures FourDigitsAt(s, i) == n
  {
    DigitCharValue(n / 1000);
    DigitCharValue(n / 100 % 10);
    DigitCharValue(n / 10 % 10);
    DigitCharValue(n % 10);
    FourDigitDecomposition(n);
  }

  /** A date with a four-digit year prints as ten characters, digit by digit. */
  lemma FormatDateChars(d: Date)
    requires ValidDate(d) && 1000 <= d.year <= 9999
    ensures FormatDate(d) ==
      [DigitChar(d.year / 1000), DigitChar(d.year / 100 % 10), DigitChar(d.year / 10 % 10),
       DigitChar(d.year % 10), '-', DigitChar(d.month / 10), DigitChar(d.month % 10), '-',
       DigitChar(d.day / 10), DigitChar(d.day % 10)]
  {
    NatToStringFourDigits(d.year);
    Pad2Digits(d.month);
    Pad2Digits(d.day);
  }

  /** A clock reading prints as five characters, digit by digit. */
  lemma FormatTimeChars(hour: int, minute: int)
    requires 0 <= hour < 24 && 0 <= minute < 60
    ensures FormatTime(hour, minute) ==
      [DigitChar(hour / 10), DigitChar(hour % 10), ':', DigitChar(minute / 10), DigitChar(minute % 10)]
  {
    Pad2Digits(hour);
    Pad2Digits(minute);
  }

  /** Parsing a formatted date gives the same day back, for four-digit years. */
  lemma FormatParseDate(d: Date)
    requires ValidDate(d) && 1000 <= d.year <= 9999
    ensures ParseDate(FormatDate(d)) == Some(d)
  {
    FormatDateChars(d);
    var s := FormatDate(d);
    FourDigitsRead(s, 0, d.year);
    TwoDigitsRead(s, 5, d.month);
    TwoDigitsRead(s, 8, d.day);
  }

  /** Parsing a formatted clock reading gives the same hour and minute back. */
  lemma FormatParseTime(hour: int, minute: int)
    requires 0 <= hour < 24 && 0 <= minute < 60
    ensures ParseTime(FormatTime(hour, minute)) == Some((hour, minute))
  {
    FormatTimeChars(hour, minute);
    var s := FormatTime(hour, minute);
    TwoDigitsRead(s, 0, hour);
    TwoDigitsRead(s, 3, minute);
  }

  /** Parsing a formatted date-time gives the same minute back, for four-digit years. */
  lemma FormatParseRoundTrip(t: DateTime)
    requires ValidDateTime(t) && 1000 <= t.date.year <= 9999
    ensures ParseDateTime(FormatDateTime(t)) == Some(t)
  {
    var date := FormatDate(t.date);
    var time := FormatTime(t.hour, t.minute);
    FormatDateChars(t.date);
    FormatTimeChars(t.hour, t.minute);
    var s := FormatDateTime(t);
    assert s[..10] == date;
    assert s[11..] == time;
    FormatParseDate(t.date);
    FormatParseTime(t.hour, t.minute);
  }

  // ---------------------------------------------------------------------------------
  // String order of the template

  /** With four-digit years, formatted dates compare as strings in calendar order. */
  lemma FormatDateOrder(d: Date, e: Date)
    requires ValidDate(d) && ValidDate(e) && 1000 <= d.year <= 9999 && 1000 <= e.year <= 9999
    ensures StringLess(FormatDate(d), FormatDate(e)) <==> DateBefore(d, e)
  {
    var yd, ye := IntToString(d.year), IntToString(e.year);
    FourDigitOrder(d.year, e.year);
    IntToStringInjective(d.year, e.year);
    NatToStringFourDigits(d.year);
    NatToStringFourDigits(e.year);
    Pad2Order(d.month, e.month);
    Pad2Order(d.day, e.day);
    var pd, pe := yd + "-" + Pad2(d.month) + "-", ye + "-" + Pad2(e.month) + "-";
    StringLessAppend(pd, Pad2(d.day), pe, Pad2(e.day));
    StringLessAppend(yd + "-" + Pad2(d.month), "-", ye + "-" + Pad2(e.month), "-");
    AppendEqual(yd + "-" + Pad2(d.month), "-", ye + "-" + Pad2(e.month), "-");
    StringLessAppend(yd + "-", Pad2(d.month), ye + "-", Pad2(e.month));
    AppendEqual(yd + "-", Pad2(d.month), ye + "-", Pad2(e.month));
    StringLessAppend(yd, "-", ye, "-");
    AppendEqual(yd, "-", ye, "-");
  }

  /** Formatted clock readings compare as strings in time order. */
  lemma FormatTimeOrder(h: int, m: int, h': int, m': int)
    requires 0 <= h < 24 && 0 <= m < 60 && 0 <= h' < 24 && 0 <= m' < 60
    ensures StringLess(FormatTime(h, m), FormatTime(h', m')) <==> h < h' || (h == h' && m < m')
  {
    Pad2Order(h, h');
    Pad2Order(m, m');
    StringLessAppend(Pad2(h) + ":", Pad2(m), Pad2(h') + ":", Pad2(m'));
    StringLessAppend(Pad2(h), ":", Pad2(h'), ":");
    AppendEqual(Pad2(h), ":", Pad2(h'), ":");
  }

  /** A formatted date with a four-digit year is ten characters long and names one date. */
  lemma FormatDateInjective(d: Date, e: Date)
    requires ValidDate(d) && ValidDate(e) && 1000 <= d.year <= 9999 && 1000 <= e.year <= 9999
    ensures |FormatDate(d)| == 10 && |FormatDate(e)| == 10
    ensures FormatDate(d) == FormatDate(e) <==> d == e
  {
    FormatDateChars(d);
    FormatDateChars(e);
    FormatParseDate(d);
    FormatParseDate(e);
  }

  /** With four-digit years, the emitted `YYYY-MM-DDTHH:mm` strings sort as the
      instants they name: string order is chronological order. */
  lemma FormatDateTimeOrder(a: DateTime, b: DateTime)
    requires ValidDateTime(a) && ValidDateTime(b)
    requires 1000 <= a.date.year <= 9999 && 1000 <= b.date.year <= 9999
    ensures StringLess(FormatDateTime(a), FormatDateTime(b)) <==> Millis(a) < Millis(b)
  {
    var da, db := FormatDate(a.date), FormatDate(b.date);
    var ta, tb := FormatTime(a.hour, a.minute), FormatTime(b.hour, b.minute);
    FormatDateInjective(a.date, b.date);
    StringLessAppend(da + "T", ta, db + "T", tb);
    StringLessAppend(da, "T", db, "T");
    AppendEqual(da, "T", db, "T");
    assert !StringLess("T", "T");
    FormatDateOrder(a.date, b.date);
    FormatTimeOrder(a.hour, a.minute, b.hour, b.minute);
    MillisOrder(a, b);
    DayNumberOrder(a.date, b.date);
  }
}
