/** The reminder form of src/components/Reminders.tsx and its recurring-reminder
    expansion: from a start date-time, a cadence and an inclusive end date, the list of
    concrete occurrences, each formatted as `YYYY-MM-DDTHH:mm` and tagged with one group id. */
module Recurrence {
  import opened Wrappers
  import opened Text
  import opened Calendar
  import opened ReminderTypes

  /** Iteration caps of the daily/weekly loop and of the monthly loop. */
  const DailyWeeklyCap: int := 365
  const MonthlyCap: int := 60

  datatype RecurrenceType = Daily | Weekly | Monthly

  datatype MonthlyOption = SpecificDate | Relative

  /** The three messages the form can show. */
  datatype FormError = MissingTextOrTime | MissingEndDate | EndBeforeStart

  function Min(a: int, b: int): int {
    if a <= b then a else b
  }

  // ---------------------------------------------------------------------------------
  // Daily and weekly expansion

  /** `t` moved by `n` calendar days, keeping its time of day. */
  function ShiftDays(t: DateTime, n: int): (r: DateTime)
    requires ValidDateTime(t)
    ensures ValidDateTime(r) && r.hour == t.hour && r.minute == t.minute
  {
    DateTime(AddDays(t.date, n), t.hour, t.minute)
  }

  /** The day offset of occurrence `k` with a `step` of 1 (daily) or 7 (weekly) days:
      `k * step`, written per cadence. */
  function StepDays(step: int, k: int): (n: int)
    requires step == 1 || step == 7
  {
    if step == 1 then k else 7 * k
  }

  lemma StepDaysProduct(step: int, k: int)
    requires step == 1 || step == 7
    ensures StepDays(step, k) == k * step
  {
  }

  /** Occurrence `k` of a daily/weekly expansion: the start moved by `k * step` days. */
  function StepOccurrence(start: DateTime, step: int, k: int): (r: DateTime)
    requires ValidDateTime(start) && (step == 1 || step == 7)
    ensures ValidDateTime(r)
  {
    ShiftDays(start, StepDays(step, k))
  }

  /** Occurrence `k` lies `k * step` days after the start day. */
  lemma StepOccurrenceDay(start: DateTime, step: int, k: int)
    requires ValidDateTime(start) && (step == 1 || step == 7)
    ensures DayNumber(StepOccurrence(start, step, k).date) == DayNumber(start.date) + StepDays(step, k)
  {
    AddDaysNumber(start.date, StepDays(step, k));
  }

  /** Every element of `occ` is the occurrence of its position and lies no later than the
      end of the end day. */
  predicate StepPrefix(occ: seq<DateTime>, start: DateTime, end: Date, step: int)
    requires ValidDateTime(start) && ValidDate(end) && (step == 1 || step == 7)
  {
    forall k :: 0 <= k < |occ| ==>
      occ[k] == StepOccurrence(start, step, k) && Millis(StepOccurrence(start, step, k)) <= EndOfDayMillis(end)
  }

  /** What the daily/weekly loop yields, stated without the loop: occurrence `k` is the
      start moved by `k * step` days, every occurrence is no later than the end of the end
      day, and the list stops only at the cap or at the first step past that end. */
  predicate IsStepExpansion(occ: seq<DateTime>, start: DateTime, end: Date, step: int)
    requires ValidDateTime(start) && ValidDate(end) && (step == 1 || step == 7)
  {
    && |occ| <= DailyWeeklyCap
    && StepPrefix(occ, start, end, step)
    && (|occ| < DailyWeeklyCap ==> EndOfDayMillis(end) < Millis(StepOccurrence(start, step, |occ|)))
  }

  /** The daily (`step` 1) or weekly (`step` 7) loop: emit the current date-time, move it
      with `setDate(getDate() + step)`, stop past the end of the end day or after 365
      rounds. */
  method StepOccurrences(start: DateTime, end: Date, step: int) returns (occ: seq<DateTime>)
    requires ValidDateTime(start) && ValidDate(end) && (step == 1 || step == 7)
    ensures IsStepExpansion(occ, start, end, step)
    ensures occ == StepExpansion(start, end, step)
  {
    occ := [];
    var current := start;
    var safetyCounter := 0;
    while Millis(current) <= EndOfDayMillis(end) && safetyCounter < DailyWeeklyCap
      invariant 0 <= safetyCounter <= DailyWeeklyCap && |occ| == safetyCounter
      invariant current == StepOccurrence(start, step, safetyCounter)
      invariant StepPrefix(occ, start, end, step)
      decreases DailyWeeklyCap - safetyCounter
    {
      StepPrefixAppend(occ, start, end, step);
      occ := occ + [current];
      StepAdvance(start, safetyCounter, step);
      current := AdvanceDays(current, step);
      safetyCounter := safetyCounter + 1;
    }
    StepExpansionIs(occ, start, end, step);
  }

  /** `current.setDate(current.getDate() + step)`: the same time of day, `step` calendar
      days later. */
  method AdvanceDays(current: DateTime, step: int) returns (next: DateTime)
    requires ValidDateTime(current)
    ensures next == ShiftDays(current, step)
  {
    SetDateShift(current.date, step);
    next := DateTime(SetDate(current.date, current.date.day + step), current.hour, current.minute);
  }

  /** One round of the loop takes occurrence `k` to occurrence `k + 1`. */
  lemma StepAdvance(start: DateTime, k: int, step: int)
    requires ValidDateTime(start) && (step == 1 || step == 7)
    ensures ShiftDays(StepOccurrence(start, step, k), step) == StepOccurrence(start, step, k + 1)
  {
    AddDaysAdd(start.date, StepDays(step, k), step);
  }

  lemma StepPrefixAppend(occ: seq<DateTime>, start: DateTime, end: Date, step: int)
    requires ValidDateTime(start) && ValidDate(end) && (step == 1 || step == 7)
    requires StepPrefix(occ, start, end, step)
    requires Millis(StepOccurrence(start, step, |occ|)) <= EndOfDayMillis(end)
    ensures StepPrefix(occ + [StepOccurrence(start, step, |occ|)], start, end, step)
  {
  }

  /** Daily/weekly occurrences are strictly ascending and none is before the start. */
  lemma StepExpansionAscending(occ: seq<DateTime>, start: DateTime, end: Date, step: int)
    requires ValidDateTime(start) && ValidDate(end) && (step == 1 || step == 7)
    requires IsStepExpansion(occ, start, end, step)
    ensures InstantsAscending(occ)
    ensures forall k :: 0 <= k < |occ| ==> Millis(start) <= Millis(occ[k])
  {
    forall i, j | 0 <= i < j < |occ|
      ensures Millis(occ[i]) < Millis(occ[j])
    {
      StepMillisAscending(start, step, i, j);
    }
    forall k | 0 <= k < |occ|
      ensures Millis(start) <= Millis(occ[k])
    {
      StepMillisAscending(start, step, 0, k);
    }
  }

  /** Occurrences further along are later instants. */
  lemma StepMillisAscending(start: DateTime, step: int, i: int, j: int)
    requires ValidDateTime(start) && (step == 1 || step == 7) && 0 <= i <= j
    ensures Millis(start) <= Millis(StepOccurrence(start, step, j))
    ensures i < j ==> Millis(StepOccurrence(start, step, i)) < Millis(StepOccurrence(start, step, j))
  {
    StepOccurrenceDay(start, step, i);
    StepOccurrenceDay(start, step, j);
  }

  /** Occurrence 0 is the start itself. */
  lemma StepOccurrenceZero(start: DateTime, step: int)
    requires ValidDateTime(start) && (step == 1 || step == 7)
    ensures StepOccurrence(start, step, 0) == start
  {
  }

  /** The number of daily/weekly occurrences is the number of cadence steps from the start
      day to the end day inclusive, capped at 365; once validation has accepted the range
      there is at least one, the start itself. */
  lemma StepExpansionCount(occ: seq<DateTime>, start: DateTime, end: Date, step: int)
    requires ValidDateTime(start) && ValidDate(end) && (step == 1 || step == 7)
    requires IsStepExpansion(occ, start, end, step)
    requires Millis(start) <= EndOfDayMillis(end)
    ensures |occ| == Min(DailyWeeklyCap, (DayNumber(end) - DayNumber(start.date)) / step + 1)
    ensures 1 <= |occ| && occ[0] == start
  {
    var n := |occ|;
    var gap := DayNumber(end) - DayNumber(start.date);
    WithinEndOfDay(start, end);
    if n < DailyWeeklyCap {
      StepWithinEnd(start, end, step, n);
    }
    if n > 0 {
      assert occ[n - 1] == StepOccurrence(start, step, n - 1);
      StepWithinEnd(start, end, step, n - 1);
      assert occ[0] == StepOccurrence(start, step, 0);
      StepOccurrenceZero(start, step);
    }
    StepCountArithmetic(n, gap, step);
  }

  /** Occurrence `k` is within the end day exactly when its offset does not pass the end
      day. */
  lemma StepWithinEnd(start: DateTime, end: Date, step: int, k: int)
    requires ValidDateTime(start) && ValidDate(end) && (step == 1 || step == 7)
    ensures Millis(StepOccurrence(start, step, k)) <= EndOfDayMillis(end) <==>
            StepDays(step, k) <= DayNumber(end) - DayNumber(start.date)
  {
    StepOccurrenceDay(start, step, k);
    WithinEndOfDay(StepOccurrence(start, step, k), end);
  }

  /** The count fixed by the two bounds on the last step taken and the first step not
      taken. */
  lemma StepCountArithmetic(n: int, gap: int, step: int)
    requires step == 1 || step == 7
    requires 0 <= gap && 0 <= n <= DailyWeeklyCap
    requires n > 0 ==> StepDays(step, n - 1) <= gap
    requires n < DailyWeeklyCap ==> gap < StepDays(step, n)
    ensures n == Min(DailyWeeklyCap, gap / step + 1) && 1 <= n
  {
  }

  /** The loop skeleton of the daily/weekly loop: items `f(k)`, `f(k + 1)`, ... while they
      pass `ok` and fewer than `cap` rounds have run. */
  function TakeWhile<T>(f: nat -> T, ok: T -> bool, k: nat, cap: nat): seq<T>
    decreases cap - k
  {
    if k < cap && ok(f(k)) then [f(k)] + TakeWhile(f, ok, k + 1, cap) else []
  }

  /** The daily/weekly expansion as a value. */
  function StepExpansion(start: DateTime, end: Date, step: int): seq<DateTime>
    requires ValidDateTime(start) && ValidDate(end) && (step == 1 || step == 7)
  {
    TakeWhile(StepSeries(start, step), NotPastEnd(end), 0, DailyWeeklyCap)
  }

  /** The occurrences of a daily/weekly expansion, by number. */
  function StepSeries(start: DateTime, step: int): nat -> DateTime
    requires ValidDateTime(start) && (step == 1 || step == 7)
  {
    k => StepOccurrence(start, step, k)
  }

  /** The loop condition `currentDate <= endDate`, with the end at the end of its day. */
  function NotPastEnd(end: Date): DateTime -> bool
    requires ValidDate(end)
  {
    t => ValidDateTime(t) && Millis(t) <= EndOfDayMillis(end)
  }

  /** Items from round `k` on are `f(k)`, `f(k + 1)`, ... in order, each passing `ok`, and
      they stop at the cap or at the first item that fails `ok`. */
  lemma {:induction false} TakeWhileShape<T>(f: nat -> T, ok: T -> bool, k: nat, cap: nat)
    requires k <= cap
    ensures k + |TakeWhile(f, ok, k, cap)| <= cap
    ensures forall i :: 0 <= i < |TakeWhile(f, ok, k, cap)| ==> TakeWhile(f, ok, k, cap)[i] == f(k + i)
    ensures forall j: nat :: k <= j < k + |TakeWhile(f, ok, k, cap)| ==> ok(f(j))
    ensures k + |TakeWhile(f, ok, k, cap)| < cap ==> !ok(f(k + |TakeWhile(f, ok, k, cap)|))
    decreases cap - k
  {
    if k < cap && ok(f(k)) {
      TakeWhileShape(f, ok, k + 1, cap);
      var rest := TakeWhile(f, ok, k + 1, cap);
      var r := TakeWhile(f, ok, k, cap);
      assert r == [f(k)] + rest;
      forall i | 1 <= i < |r|
        ensures r[i] == f(k + i)
      {
        assert r[i] == rest[i - 1];
      }
    }
  }

  /** What the skeleton yields from round 0. */
  lemma TakeWhileFrom<T>(occ: seq<T>, f: nat -> T, ok: T -> bool, cap: nat)
    requires occ == TakeWhile(f, ok, 0, cap)
    ensures |occ| <= cap
    ensures forall i :: 0 <= i < |occ| ==> occ[i] == f(i) && ok(f(i))
    ensures |occ| < cap ==> !ok(f(|occ|))
  {
    TakeWhileShape(f, ok, 0, cap);
    forall i | 0 <= i < |occ|
      ensures occ[i] == f(i) && ok(f(i))
    {
      assert occ[i] == f(0 + i);
    }
  }

  /** A list of items `f(0)`, `f(1)`, ... that all pass `ok` and stops at the cap or at the
      first failing item is what the skeleton yields. */
  lemma TakeWhileIs<T>(occ: seq<T>, f: nat -> T, ok: T -> bool, cap: nat)
    requires |occ| <= cap
    requires forall i :: 0 <= i < |occ| ==> occ[i] == f(i) && ok(f(i))
    requires |occ| < cap ==> !ok(f(|occ|))
    ensures occ == TakeWhile(f, ok, 0, cap)
  {
    var r := TakeWhile(f, ok, 0, cap);
    TakeWhileShape(f, ok, 0, cap);
  }

  /** Conversely, the expansion is what the loop's description describes. */
  lemma StepExpansionDescribed(start: DateTime, end: Date, step: int)
    requires ValidDateTime(start) && ValidDate(end) && (step == 1 || step == 7)
    ensures IsStepExpansion(StepExpansion(start, end, step), start, end, step)
  {
    var f := StepSeries(start, step);
    var ok := NotPastEnd(end);
    var occ := TakeWhile(f, ok, 0, DailyWeeklyCap);
    assert occ == StepExpansion(start, end, step);
    TakeWhileFrom(occ, f, ok, DailyWeeklyCap);
    forall k | 0 <= k < |occ|
      ensures occ[k] == StepOccurrence(start, step, k)
      ensures Millis(StepOccurrence(start, step, k)) <= EndOfDayMillis(end)
    {
      assert occ[k] == f(k) && ok(f(k));
    }
    if |occ| < DailyWeeklyCap {
      var next := StepOccurrence(start, step, |occ|);
      assert f(|occ|) == next && !ok(next);
    }
  }

  /** The loop's description pins its result down: the list it describes is the
      expansion. */
  lemma StepExpansionIs(occ: seq<DateTime>, start: DateTime, end: Date, step: int)
    requires ValidDateTime(start) && ValidDate(end) && (step == 1 || step == 7)
    requires IsStepExpansion(occ, start, end, step)
    ensures occ == StepExpansion(start, end, step)
  {
    var f := StepSeries(start, step);
    var ok := NotPastEnd(end);
    forall i | 0 <= i < |occ|
      ensures occ[i] == f(i) && ok(f(i))
    {
    }
    TakeWhileIs(occ, f, ok, DailyWeeklyCap);
  }

  // ---------------------------------------------------------------------------------
  // Monthly expansion

  /** The monthly settings of the form. */
  datatype MonthlyRule = MonthlyRule(option: MonthlyOption, monthDay: int, weekRank: int, weekDay: int)

  /** The ranges the form's inputs offer: day 1..31, rank 1..4 or 5 for "last", weekday
      0 (Sunday)..6. */
  predicate ValidRule(rule: MonthlyRule) {
    1 <= rule.monthDay <= 31 && 1 <= rule.weekRank <= 5 && 0 <= rule.weekDay <= 6
  }

  /** Weekdays advance by one per day of the month. */
  lemma WeekdayInMonth(year: int, month: int, day: int)
    requires ValidDate(Date(year, month, day))
    ensures Weekday(Date(year, month, day)) == (Weekday(Date(year, month, 1)) + day - 1) % 7
  {
    ModSevenAdd(DayNumber(Date(year, month, 1)) + 1, day - 1);
  }

  /** `1 + ((weekDay - firstDayOfMonth.getDay()) mod 7)`: the day of the month's first
      `weekDay`. */
  function FirstOccurrence(year: int, month: int, weekDay: int): (day: int)
    requires 1 <= month <= 12 && 0 <= weekDay <= 6
    ensures 1 <= day <= 7
    ensures Weekday(Date(year, month, day)) == weekDay
  {
    var diff := weekDay - Weekday(Date(year, month, 1));
    var first := 1 + (if diff < 0 then diff + 7 else diff);
    WeekdayInMonth(year, month, first);
    first
  }

  /** The last day of the month that is a whole number of weeks after `first`. */
  function LastOccurrenceDay(first: int, daysInMonth: int): (day: int)
    requires 1 <= first <= 7 && 28 <= daysInMonth
    ensures first <= day <= daysInMonth < day + 7 && (day - first) % 7 == 0
  {
    first + (daysInMonth - first) / 7 * 7
  }

  /** The inner loop of the "last" rank: step a week at a time while the next week still
      fits in the month. */
  method FindLastOccurrence(firstOccurrence: int, daysInMonth: int) returns (lastValidDay: int)
    requires 1 <= firstOccurrence <= 7 && 28 <= daysInMonth
    ensures firstOccurrence <= lastValidDay <= daysInMonth < lastValidDay + 7
    ensures (lastValidDay - firstOccurrence) % 7 == 0
    ensures lastValidDay == LastOccurrenceDay(firstOccurrence, daysInMonth)
  {
    var tempDay := firstOccurrence;
    lastValidDay := tempDay;
    while tempDay + 7 <= daysInMonth
      invariant firstOccurrence <= tempDay <= daysInMonth
      invariant lastValidDay == tempDay && (tempDay - firstOccurrence) % 7 == 0
      decreases daysInMonth - tempDay
    {
      tempDay := tempDay + 7;
      lastValidDay := tempDay;
    }
    LastOccurrenceUnique(firstOccurrence, daysInMonth, lastValidDay);
  }

  lemma LastOccurrenceUnique(first: int, daysInMonth: int, day: int)
    requires 1 <= first <= 7 && 28 <= daysInMonth
    requires first <= day <= daysInMonth < day + 7 && (day - first) % 7 == 0
    ensures day == LastOccurrenceDay(first, daysInMonth)
  {
    var other := LastOccurrenceDay(first, daysInMonth);
    var a := (day - first) / 7;
    var b := (other - first) / 7;
    assert day == first + 7 * a;
    assert other == first + 7 * b;
  }

  /** The day the rule picks in (year, month), or `None` for a skipped month. */
  function TargetDay(year: int, month: int, rule: MonthlyRule): (r: Option<int>)
    requires 1 <= month <= 12 && ValidRule(rule)
    ensures r.Some? ==> 1 <= r.value <= DaysInMonth(year, month)
  {
    var daysInMonth := DaysInMonth(year, month);
    if rule.option == SpecificDate then Some(Min(rule.monthDay, daysInMonth))
    else
      var first := FirstOccurrence(year, month, rule.weekDay);
      if rule.weekRank == 5 then Some(LastOccurrenceDay(first, daysInMonth))
      else
        var targetDay := first + (rule.weekRank - 1) * 7;
        if targetDay > daysInMonth then None else Some(targetDay)
  }

  /** The rule in calendar terms: the clamped day of month; or the weekday whose rank in
      the month (counting whole weeks from the 1st) is the chosen one, or, for "last",
      whose next week falls outside the month. */
  predicate RuleHolds(rule: MonthlyRule, d: Date)
    requires ValidDate(d)
  {
    if rule.option == SpecificDate then d.day == Min(rule.monthDay, DaysInMonth(d.year, d.month))
    else
      && Weekday(d) == rule.weekDay
      && if rule.weekRank == 5 then d.day + 7 > DaysInMonth(d.year, d.month)
         else (d.day - 1) / 7 == rule.weekRank - 1
  }

  /** A day of the month has the rule's weekday exactly when it is a whole number of weeks
      after the first such day. */
  lemma SameWeekday(year: int, month: int, weekDay: int, day: int)
    requires 1 <= month <= 12 && 0 <= weekDay <= 6 && 1 <= day <= DaysInMonth(year, month)
    ensures Weekday(Date(year, month, day)) == weekDay <==>
            (day - FirstOccurrence(year, month, weekDay)) % 7 == 0
  {
    var first := FirstOccurrence(year, month, weekDay);
    WeekdayInMonth(year, month, day);
    WeekdayInMonth(year, month, first);
    WeeksApart(Weekday(Date(year, month, 1)), first, day, weekDay);
  }

  /** Counting from a weekday `w1` on day 1, day `day` falls on the weekday of day `first`
      exactly when the two are a whole number of weeks apart. */
  lemma WeeksApart(w1: int, first: int, day: int, weekDay: int)
    requires 0 <= w1 < 7 && 0 <= weekDay < 7 && (w1 + first - 1) % 7 == weekDay
    ensures (w1 + day - 1) % 7 == weekDay <==> (day - first) % 7 == 0
  {
    var n := day - first;
    ModSevenAdd(w1 + first - 1, n);
    assert (w1 + day - 1) % 7 == (weekDay + n) % 7;
    ModSevenAdd(n, weekDay);
    assert (weekDay + n) % 7 == (n % 7 + weekDay) % 7;
  }

  /** The day `TargetDay` computes is exactly the day of the month that satisfies the rule
      (both directions), so the loop emits the 15th, the second Tuesday or the last Friday
      and nothing else. */
  lemma TargetDayMeansRule(year: int, month: int, rule: MonthlyRule, day: int)
    requires 1 <= month <= 12 && ValidRule(rule) && 1 <= day <= DaysInMonth(year, month)
    ensures TargetDay(year, month, rule) == Some(day) <==> RuleHolds(rule, Date(year, month, day))
  {
    if rule.option == Relative {
      var first := FirstOccurrence(year, month, rule.weekDay);
      SameWeekday(year, month, rule.weekDay, day);
      if rule.weekRank == 5 {
        LastRankDay(first, DaysInMonth(year, month), day);
      } else {
        RankDay(first, rule.weekRank, day);
      }
    }
  }

  /** The "last" rank picks the one day a whole number of weeks after `first` whose next
      week no longer fits in the month. */
  lemma LastRankDay(first: int, daysInMonth: int, day: int)
    requires 1 <= first <= 7 && 28 <= daysInMonth && 1 <= day <= daysInMonth
    ensures LastOccurrenceDay(first, daysInMonth) == day <==>
            (day - first) % 7 == 0 && day + 7 > daysInMonth
  {
    if (day - first) % 7 == 0 && day + 7 > daysInMonth {
      LastOccurrenceUnique(first, daysInMonth, day);
    }
  }

  /** Rank `rank` (1 to 4) picks the one day a whole number of weeks after `first` that
      lies in the month's `rank`-th block of seven days. */
  lemma RankDay(first: int, rank: int, day: int)
    requires 1 <= first <= 7 && 1 <= rank <= 4 && 1 <= day
    ensures first + (rank - 1) * 7 == day <==> (day - first) % 7 == 0 && (day - 1) / 7 == rank - 1
  {
    var q := (day - first) / 7;
    assert day - first == 7 * q + (day - first) % 7;
  }

  /** Ranks 1 to 4 never overflow the month (the first occurrence is at most the 7th, so the
      fourth is at most the 28th), so the relative rule never skips a month. */
  lemma RelativeNeverSkips(year: int, month: int, rule: MonthlyRule)
    requires 1 <= month <= 12 && ValidRule(rule)
    ensures TargetDay(year, month, rule).Some?
  {
  }

  /** The first of month `m`, months counted from year 0 as `MonthIndex` counts them. */
  function MonthFirst(m: int): (r: Date)
    ensures ValidDate(r) && r.day == 1 && MonthIndex(r) == m
  {
    Date(m / 12, m % 12 + 1, 1)
  }

  lemma MonthFirstOf(d: Date)
    requires ValidDate(d)
    ensures MonthFirst(MonthIndex(d)) == Date(d.year, d.month, 1)
  {
  }

  /** The iterator moves with `setMonth(getMonth() + 1)` from one first-of-month to the
      next. */
  lemma SetMonthNext(f: Date)
    requires ValidDate(f) && f.day == 1
    ensures SetMonth(f, f.month - 1 + 1) == MonthFirst(MonthIndex(f) + 1)
  {
    assert SetMonth(f, f.month) == FirstOfMonthIndex(f.year, f.month);
  }

  /** What month `m` contributes: nothing when the rule skips the month or its target
      date-time is outside [start, end of the end day], otherwise that date-time. */
  function MonthOccurrence(start: DateTime, end: Date, rule: MonthlyRule, m: int): seq<DateTime>
    requires ValidDateTime(start) && ValidDate(end) && ValidRule(rule)
  {
    var first := MonthFirst(m);
    match TargetDay(first.year, first.month, rule)
    case None => []
    case Some(day) =>
      var t := DateTime(Date(first.year, first.month, day), start.hour, start.minute);
      if Millis(start) <= Millis(t) <= EndOfDayMillis(end) then [t] else []
  }

  /** The loop condition `iteratorDate <= endDate` on a first of the month: it holds exactly
      up to the month that contains the end date. */
  lemma IteratorWithinEnd(first: Date, hour: int, minute: int, end: Date)
    requires ValidDate(first) && first.day == 1 && 0 <= hour < 24 && 0 <= minute < 60 && ValidDate(end)
    ensures Millis(DateTime(first, hour, minute)) <= EndOfDayMillis(end) <==> MonthIndex(first) <= MonthIndex(end)
  {
    WithinEndOfDay(DateTime(first, hour, minute), end);
    if MonthIndex(first) < MonthIndex(end) {
      MonthIndexOrder(first, end);
    } else if MonthIndex(end) < MonthIndex(first) {
      MonthIndexOrder(end, first);
    } else {
      DayNumberOrder(first, end);
    }
  }

  /** The loop skeleton: round `counter` on month `m` contributes `f(m)`, rounds run
      through month `last`, at most 60 of them, one month per round. */
  function Gather<T>(f: int -> seq<T>, m: int, last: int, counter: nat): seq<T>
    decreases MonthlyCap - counter
  {
    if counter >= MonthlyCap then []
    else if m <= last then f(m) + Gather(f, m + 1, last, counter + 1)
    else []
  }

  /** The whole monthly expansion: the iterator starts on the first of the start month and
      runs through the month that contains the end date. */
  function MonthlyExpansion(start: DateTime, end: Date, rule: MonthlyRule): seq<DateTime>
    requires ValidDateTime(start) && ValidDate(end) && ValidRule(rule)
  {
    Gather(MonthlyRounds(start, end, rule), MonthIndex(start.date), MonthIndex(end), 0)
  }

  /** What each monthly round contributes, as a function of its month. */
  function MonthlyRounds(start: DateTime, end: Date, rule: MonthlyRule): int -> seq<DateTime>
    requires ValidDateTime(start) && ValidDate(end) && ValidRule(rule)
  {
    m => MonthOccurrence(start, end, rule, m)
  }

  lemma AppendAssociative<T>(a: seq<T>, b: seq<T>, c: seq<T>)
    ensures a + (b + c) == (a + b) + c
  {
  }
  /** The target of one round, on the iterator's month: `setDate(min(monthDay, length))`
      for a fixed day; for a weekday, the first one from the 1st's `getDay()`, then either
      the last one by stepping weeks, or the ranked one, with no target (the `new Date(0)`
      sentinel) when that falls past the month's end. */
  method RoundTarget(iteratorDate: Date, rule: MonthlyRule) returns (target: Option<Date>)
    requires ValidDate(iteratorDate) && iteratorDate.day == 1 && ValidRule(rule)
    ensures target == match TargetDay(iteratorDate.year, iteratorDate.month, rule)
                      case None => None
                      case Some(day) => Some(Date(iteratorDate.year, iteratorDate.month, day))
  {
    var year := iteratorDate.year;
    var month := iteratorDate.month;
    var daysInMonth := LastDayOfMonth(year, month);
    if rule.option == SpecificDate {
      var actualDay := Min(rule.monthDay, daysInMonth);
      var day := SetDayOfMonth(iteratorDate, actualDay);
      target := Some(day);
    } else {
      var dayOfWeek := WeekdayOfFirst(year, month);
      var diff := rule.weekDay - dayOfWeek;
      if diff < 0 {
        diff := diff + 7;
      }
      var firstOccurrence := 1 + diff;
      if rule.weekRank == 5 {
        var lastValidDay := FindLastOccurrence(firstOccurrence, daysInMonth);
        var day := SetDayOfMonth(iteratorDate, lastValidDay);
        target := Some(day);
      } else {
        var targetDay := firstOccurrence + (rule.weekRank - 1) * 7;
        if targetDay > daysInMonth {
          target := None;
        } else {
          var day := SetDayOfMonth(iteratorDate, targetDay);
          target := Some(day);
        }
      }
    }
  }

  /** `new Date(year, month + 1, 0).getDate()` with JavaScript's 0-based `month`: the
      length of the month. */
  method LastDayOfMonth(year: int, month: int) returns (daysInMonth: int)
    requires 1 <= month <= 12
    ensures daysInMonth == DaysInMonth(year, month)
  {
    DaysInMonthIdiom(year, month);
    daysInMonth := MakeDate(year, month, 0).day;
  }

  /** `new Date(year, month, 1).getDay()` with JavaScript's 0-based `month`: the weekday of
      the month's first day. */
  method WeekdayOfFirst(year: int, month: int) returns (dayOfWeek: int)
    requires 1 <= month <= 12
    ensures dayOfWeek == Weekday(Date(year, month, 1))
  {
    MakeDateInMonth(Date(year, month, 1));
    dayOfWeek := Weekday(MakeDate(year, month - 1, 1));
  }

  /** `d.setDate(day)` for a day the month has: the date moves to that day. */
  method SetDayOfMonth(d: Date, day: int) returns (r: Date)
    requires ValidDate(d) && 1 <= day <= DaysInMonth(d.year, d.month)
    ensures r == Date(d.year, d.month, day)
  {
    MakeDateInMonth(Date(d.year, d.month, day));
    r := SetDate(d, day);
  }

  /** One round's push: the target at the start's hour and minute, when it exists and lies
      within [start, end of end day]. */
  method MonthlyRound(start: DateTime, end: Date, rule: MonthlyRule, iteratorDate: Date) returns (pushed: seq<DateTime>)
    requires ValidDateTime(start) && ValidDate(end) && ValidRule(rule) && ValidDate(iteratorDate) && iteratorDate.day == 1
    ensures pushed == MonthlyRounds(start, end, rule)(MonthIndex(iteratorDate))
  {
    MonthFirstOf(iteratorDate);
    var target := RoundTarget(iteratorDate, rule);
    pushed := [];
    if target.Some? {
      var t := DateTime(target.value, start.hour, start.minute);
      if Millis(start) <= Millis(t) && Millis(t) <= EndOfDayMillis(end) {
        pushed := [t];
      }
    }
  }

  /** The monthly loop: the iterator starts at the first of the start month
      (`setDate(1)`), each round computes its target, restores the start's hour and minute
      (`setHours`), keeps the result if it lies within [start, end of end day], and moves
      the iterator on a month. */
  method MonthlyOccurrences(start: DateTime, end: Date, rule: MonthlyRule) returns (occ: seq<DateTime>)
    requires ValidDateTime(start) && ValidDate(end) && ValidRule(rule)
    ensures occ == MonthlyExpansion(start, end, rule)
  {
    occ := [];
    ghost var f := MonthlyRounds(start, end, rule);
    ghost var all := MonthlyExpansion(start, end, rule);
    var first := StartOfMonth(start.date);
    var iteratorDate := DateTime(first, start.hour, start.minute);
    var safetyCounter := 0;
    while Millis(iteratorDate) <= EndOfDayMillis(end) && safetyCounter < MonthlyCap
      invariant 0 <= safetyCounter <= MonthlyCap
      invariant ValidDate(iteratorDate.date) && iteratorDate.date.day == 1
      invariant iteratorDate.hour == start.hour && iteratorDate.minute == start.minute
      invariant all == occ + Gather(f, MonthIndex(iteratorDate.date), MonthIndex(end), safetyCounter)
      decreases MonthlyCap - safetyCounter
    {
      IteratorWithinEnd(iteratorDate.date, start.hour, start.minute, end);
      ghost var done := occ;
      ghost var m := MonthIndex(iteratorDate.date);
      ghost var counter := safetyCounter;
      var pushed := MonthlyRound(start, end, rule, iteratorDate.date);
      occ := occ + pushed;
      var next := AdvanceMonth(iteratorDate.date);
      iteratorDate := DateTime(next, iteratorDate.hour, iteratorDate.minute);
      safetyCounter := safetyCounter + 1;
      GatherStep(all, done, pushed, f, m, MonthIndex(iteratorDate.date), MonthIndex(end), counter);
    }
    IteratorWithinEnd(iteratorDate.date, start.hour, start.minute, end);
    GatherDone(f, MonthIndex(iteratorDate.date), MonthIndex(end), safetyCounter);
  }

  /** The loop is over once the rounds run out or the iterator passes the last month. */
  lemma GatherDone<T>(f: int -> seq<T>, m: int, last: int, counter: nat)
    requires counter >= MonthlyCap || m > last
    ensures Gather(f, m, last, counter) == []
  {
  }

  /** `iteratorDate.setMonth(iteratorDate.getMonth() + 1)` on a first of the month. */
  method AdvanceMonth(first: Date) returns (next: Date)
    requires ValidDate(first) && first.day == 1
    ensures next == MonthFirst(MonthIndex(first) + 1)
  {
    SetMonthNext(first);
    next := SetMonth(first, first.month - 1 + 1);
  }

  /** `d.setDate(1)`: the first of the same month. */
  method StartOfMonth(d: Date) returns (first: Date)
    requires ValidDate(d)
    ensures first == MonthFirst(MonthIndex(d))
  {
    MakeDateInMonth(Date(d.year, d.month, 1));
    first := SetDate(d, 1);
  }

  /** One round of the loop: what was gathered before it, then the round's month, then
      the rounds after it. */
  lemma GatherStep<T>(all: seq<T>, done: seq<T>, pushed: seq<T>, f: int -> seq<T>, m: int, next: int, last: int, counter: nat)
    requires counter < MonthlyCap && m <= last && next == m + 1 && pushed == f(m)
    requires all == done + Gather(f, m, last, counter)
    ensures all == (done + pushed) + Gather(f, next, last, counter + 1)
  {
    AppendAssociative(done, f(m), Gather(f, m + 1, last, counter + 1));
  }

  /** At most one item per round still to run, when each round yields at most one. */
  lemma {:induction false} GatherLength<T>(f: int -> seq<T>, m: int, last: int, counter: nat)
    requires counter <= MonthlyCap
    requires forall i :: |f(i)| <= 1
    ensures |Gather(f, m, last, counter)| <= MonthlyCap - counter
    decreases MonthlyCap - counter
  {
    if counter < MonthlyCap && m <= last {
      GatherLength(f, m + 1, last, counter + 1);
    }
  }

  /** Every item comes from a round the loop runs: a month from `m` through `last`, within
      the rounds left. */
  lemma {:induction false} GatherElements<T>(f: int -> seq<T>, m: int, last: int, counter: nat, x: T)
    requires x in Gather(f, m, last, counter)
    ensures exists i :: m <= i <= last && i - m < MonthlyCap - counter && x in f(i)
    decreases MonthlyCap - counter
  {
    if x !in f(m) {
      GatherElements(f, m + 1, last, counter + 1, x);
    }
  }

  /** Every item of every round the loop runs is gathered. */
  lemma {:induction false} GatherComplete<T>(f: int -> seq<T>, m: int, last: int, counter: nat, target: int, x: T)
    requires m <= target <= last && counter + (target - m) < MonthlyCap && x in f(target)
    ensures x in Gather(f, m, last, counter)
    decreases target - m
  {
    var rest := Gather(f, m + 1, last, counter + 1);
    assert Gather(f, m, last, counter) == f(m) + rest;
    if m < target {
      GatherComplete(f, m + 1, last, counter + 1, target, x);
      assert x in rest;
    }
  }

  /** When each round yields at most one item, keyed by its round's month, the items come
      out in strictly increasing key order. */
  lemma {:induction false} GatherAscending<T>(f: int -> seq<T>, key: T -> int, m: int, last: int, counter: nat)
    requires forall i :: |f(i)| <= 1
    requires forall i, x | x in f(i) :: key(x) == i
    ensures forall a, b :: 0 <= a < b < |Gather(f, m, last, counter)| ==>
      key(Gather(f, m, last, counter)[a]) < key(Gather(f, m, last, counter)[b])
    decreases MonthlyCap - counter
  {
    if counter < MonthlyCap && m <= last {
      var rest := Gather(f, m + 1, last, counter + 1);
      GatherAscending(f, key, m + 1, last, counter + 1);
      forall x | x in rest
        ensures m < key(x)
      {
        GatherElements(f, m + 1, last, counter + 1, x);
      }
      PrependAscending(f(m), rest, key, m);
    }
  }

  lemma PrependAscending<T>(here: seq<T>, rest: seq<T>, key: T -> int, k: int)
    requires |here| <= 1
    requires forall a, b :: 0 <= a < b < |rest| ==> key(rest[a]) < key(rest[b])
    requires forall x | x in here :: key(x) == k
    requires forall x | x in rest :: k < key(x)
    ensures forall a, b :: 0 <= a < b < |here + rest| ==> key((here + rest)[a]) < key((here + rest)[b])
  {
    var all := here + rest;
    forall a, b | 0 <= a < b < |all|
      ensures key(all[a]) < key(all[b])
    {
      if a < |here| {
        assert all[a] in here;
        assert all[b] == rest[b - |here|];
        assert all[b] in rest;
      } else {
        assert all[a] == rest[a - |here|];
        assert all[b] == rest[b - |here|];
      }
    }
  }

  /** An occurrence the monthly loop may emit: on the rule's day of a month no earlier than
      `minMonth`, at the start's time, within [start, end of end day]. */
  predicate MonthlyInstance(start: DateTime, end: Date, rule: MonthlyRule, minMonth: int, t: DateTime)
    requires ValidDateTime(start) && ValidDate(end)
  {
    && ValidDateTime(t) && t.hour == start.hour && t.minute == start.minute
    && Millis(start) <= Millis(t) <= EndOfDayMillis(end)
    && minMonth <= MonthIndex(t.date)
    && RuleHolds(rule, t.date)
  }

  /** What one month contributes is at most one such occurrence, in that month. */
  lemma MonthOccurrenceFacts(start: DateTime, end: Date, rule: MonthlyRule, m: int)
    requires ValidDateTime(start) && ValidDate(end) && ValidRule(rule)
    ensures |MonthOccurrence(start, end, rule, m)| <= 1
    ensures forall t | t in MonthOccurrence(start, end, rule, m) ::
      MonthlyInstance(start, end, rule, m, t) && MonthIndex(t.date) == m
  {
    var first := MonthFirst(m);
    match TargetDay(first.year, first.month, rule)
    case None =>
    case Some(day) =>
      TargetDayMeansRule(first.year, first.month, rule, day);
  }

  /** Strictly increasing months, hence at most one occurrence per month. */
  predicate MonthsAscending(occ: seq<DateTime>) {
    forall i, j :: 0 <= i < j < |occ| ==> MonthIndex(occ[i].date) < MonthIndex(occ[j].date)
  }

  /** Valid date-times in strictly increasing order of their instants. */
  predicate InstantsAscending(occ: seq<DateTime>) {
    && (forall k :: 0 <= k < |occ| ==> ValidDateTime(occ[k]))
    && (forall i, j :: 0 <= i < j < |occ| ==> Millis(occ[i]) < Millis(occ[j]))
  }

  /** The monthly expansion: at most 60 occurrences, each on the rule's day of its month,
      at the start's time, within [start, end of end day], in strictly increasing months and
      so strictly ascending in time. */
  lemma MonthlyExpansionFacts(start: DateTime, end: Date, rule: MonthlyRule)
    requires ValidDateTime(start) && ValidDate(end) && ValidRule(rule)
    ensures |MonthlyExpansion(start, end, rule)| <= MonthlyCap
    ensures forall t | t in MonthlyExpansion(start, end, rule) ::
      MonthlyInstance(start, end, rule, MonthIndex(start.date), t)
    ensures MonthsAscending(MonthlyExpansion(start, end, rule))
    ensures InstantsAscending(MonthlyExpansion(start, end, rule))
  {
    var f := MonthlyRounds(start, end, rule);
    var m0 := MonthIndex(start.date);
    var occ := MonthlyExpansion(start, end, rule);
    forall i
      ensures |f(i)| <= 1
      ensures forall t | t in f(i) :: MonthlyInstance(start, end, rule, i, t) && MonthIndex(t.date) == i
    {
      MonthOccurrenceFacts(start, end, rule, i);
    }
    GatherLength(f, m0, MonthIndex(end), 0);
    forall t | t in occ
      ensures MonthlyInstance(start, end, rule, m0, t)
    {
      GatherElements(f, m0, MonthIndex(end), 0, t);
    }
    var key := (t: DateTime) => MonthIndex(t.date);
    GatherAscending(f, key, m0, MonthIndex(end), 0);
    forall k | 0 <= k < |occ|
      ensures ValidDateTime(occ[k])
    {
      assert occ[k] in occ;
    }
    forall i, j | 0 <= i < j < |occ|
      ensures Millis(occ[i]) < Millis(occ[j])
    {
      MonthIndexOrder(occ[i].date, occ[j].date);
    }
  }

  /** The monthly expansion is exactly the rule's date-times in range: `t` is emitted if
      and only if it is on the rule's day of a month from the start month on, within the
      60 rounds, at the start's time, within [start, end of end day]. */
  lemma MonthlyExpansionExact(start: DateTime, end: Date, rule: MonthlyRule, t: DateTime)
    requires ValidDateTime(start) && ValidDate(end) && ValidRule(rule)
    ensures t in MonthlyExpansion(start, end, rule) <==>
      MonthlyInstance(start, end, rule, MonthIndex(start.date), t)
      && MonthIndex(t.date) < MonthIndex(start.date) + MonthlyCap
  {
    if t in MonthlyExpansion(start, end, rule) {
      MonthlyExpansionSound(start, end, rule, t);
    }
    if MonthlyInstance(start, end, rule, MonthIndex(start.date), t) &&
       MonthIndex(t.date) < MonthIndex(start.date) + MonthlyCap {
      MonthlyExpansionComplete(start, end, rule, t);
    }
  }

  /** Everything emitted is one of the rule's date-times in range, within the 60 rounds. */
  lemma MonthlyExpansionSound(start: DateTime, end: Date, rule: MonthlyRule, t: DateTime)
    requires ValidDateTime(start) && ValidDate(end) && ValidRule(rule)
    requires t in MonthlyExpansion(start, end, rule)
    ensures MonthlyInstance(start, end, rule, MonthIndex(start.date), t)
    ensures MonthIndex(t.date) < MonthIndex(start.date) + MonthlyCap
  {
    var f := MonthlyRounds(start, end, rule);
    var m0 := MonthIndex(start.date);
    GatherElements(f, m0, MonthIndex(end), 0, t);
    var i :| m0 <= i <= MonthIndex(end) && i - m0 < MonthlyCap && t in f(i);
    MonthOccurrenceMember(start, end, rule, i, t);
  }

  /** What month `m` contributes is on the rule's day of month `m`, in range. */
  lemma MonthOccurrenceMember(start: DateTime, end: Date, rule: MonthlyRule, m: int, t: DateTime)
    requires ValidDateTime(start) && ValidDate(end) && ValidRule(rule)
    requires t in MonthOccurrence(start, end, rule, m)
    ensures MonthlyInstance(start, end, rule, m, t) && MonthIndex(t.date) == m
  {
    var first := MonthFirst(m);
    var day := TargetDay(first.year, first.month, rule).value;
    TargetDayMeansRule(first.year, first.month, rule, day);
  }

  /** Every one of the rule's date-times in range, within the 60 rounds, is emitted. */
  lemma MonthlyExpansionComplete(start: DateTime, end: Date, rule: MonthlyRule, t: DateTime)
    requires ValidDateTime(start) && ValidDate(end) && ValidRule(rule)
    requires MonthlyInstance(start, end, rule, MonthIndex(start.date), t)
    requires MonthIndex(t.date) < MonthIndex(start.date) + MonthlyCap
    ensures t in MonthlyExpansion(start, end, rule)
  {
    var f := MonthlyRounds(start, end, rule);
    var target := MonthIndex(t.date);
    WithinEndOfDay(t, end);
    if MonthIndex(end) < target {
      MonthIndexOrder(end, t.date);
    }
    MonthOccurrenceHit(start, end, rule, t);
    assert t in f(target);
    GatherComplete(f, MonthIndex(start.date), MonthIndex(end), 0, target, t);
  }

  /** A date-time on the rule's day, at the start's time and in range, is what its own
      month contributes. */
  lemma MonthOccurrenceHit(start: DateTime, end: Date, rule: MonthlyRule, t: DateTime)
    requires ValidDateTime(start) && ValidDate(end) && ValidRule(rule)
    requires MonthlyInstance(start, end, rule, MonthIndex(t.date), t)
    ensures MonthOccurrence(start, end, rule, MonthIndex(t.date)) == [t]
  {
    TargetDayMeansRule(t.date.year, t.date.month, rule, t.date.day);
    MonthFirstOf(t.date);
  }

  /** With ranks 1 to 4 the target never overflows, and the "last" rank always has a
      target: every month from the start month through the end date's month, within the 60
      rounds, yields its occurrence unless the start/end filter drops it. */
  lemma MonthlyNeverSkips(start: DateTime, end: Date, rule: MonthlyRule, target: int)
    requires ValidDateTime(start) && ValidDate(end) && ValidRule(rule)
    requires MonthIndex(start.date) <= target <= MonthIndex(end) && target < MonthIndex(start.date) + MonthlyCap
    ensures var first := MonthFirst(target);
      var day := TargetDay(first.year, first.month, rule).value;
      var t := DateTime(Date(first.year, first.month, day), start.hour, start.minute);
      Millis(start) <= Millis(t) <= EndOfDayMillis(end) ==> t in MonthlyExpansion(start, end, rule)
  {
    var first := MonthFirst(target);
    RelativeNeverSkips(first.year, first.month, rule);
    var day := TargetDay(first.year, first.month, rule).value;
    var t := DateTime(Date(first.year, first.month, day), start.hour, start.minute);
    if Millis(start) <= Millis(t) <= EndOfDayMillis(end) {
      var f := MonthlyRounds(start, end, rule);
      assert t in f(target);
      GatherComplete(f, MonthIndex(start.date), MonthIndex(end), 0, target, t);
    }
  }

  // ---------------------------------------------------------------------------------
  // The `getTime() > 0` filter as written

  /** `new Date(0).getTime()`: the instant 1970-01-01T00:00 on the scale of `Millis`. */
  function EpochMillis(): int {
    DayNumber(Date(1970, 1, 1)) * MillisPerDay
  }

  /** One monthly round as written: the range filter also demands `getTime() > 0`, which
      was meant to drop the `new Date(0)` sentinel but drops every target at or before
      the epoch. */
  function MonthOccurrenceAsWritten(start: DateTime, end: Date, rule: MonthlyRule, m: int): seq<DateTime>
    requires ValidDateTime(start) && ValidDate(end) && ValidRule(rule)
  {
    var first := MonthFirst(m);
    match TargetDay(first.year, first.month, rule)
    case None => []
    case Some(day) =>
      var t := DateTime(Date(first.year, first.month, day), start.hour, start.minute);
      if EpochMillis() < Millis(t) && Millis(start) <= Millis(t) <= EndOfDayMillis(end) then [t] else []
  }

  function MonthlyRoundsAsWritten(start: DateTime, end: Date, rule: MonthlyRule): int -> seq<DateTime>
    requires ValidDateTime(start) && ValidDate(end) && ValidRule(rule)
  {
    m => MonthOccurrenceAsWritten(start, end, rule, m)
  }

  /** The monthly expansion with the epoch filter in place. */
  function MonthlyExpansionAsWritten(start: DateTime, end: Date, rule: MonthlyRule): seq<DateTime>
    requires ValidDateTime(start) && ValidDate(end) && ValidRule(rule)
  {
    Gather(MonthlyRoundsAsWritten(start, end, rule), MonthIndex(start.date), MonthIndex(end), 0)
  }

  /** The epoch filter drops exactly the occurrences at or before the epoch: the
      as-written expansion emits `t` if and only if the corrected one does and `t` is
      after 1970-01-01T00:00. */
  lemma MonthlyAsWrittenDropsEarly(start: DateTime, end: Date, rule: MonthlyRule, t: DateTime)
    requires ValidDateTime(start) && ValidDate(end) && ValidRule(rule)
    ensures t in MonthlyExpansionAsWritten(start, end, rule) <==>
      t in MonthlyExpansion(start, end, rule) && ValidDate(t.date) && EpochMillis() < Millis(t)
  {
    if t in MonthlyExpansionAsWritten(start, end, rule) {
      AsWrittenSound(start, end, rule, t);
    }
    if t in MonthlyExpansion(start, end, rule) && ValidDate(t.date) && EpochMillis() < Millis(t) {
      AsWrittenComplete(start, end, rule, t);
    }
  }

  lemma AsWrittenSound(start: DateTime, end: Date, rule: MonthlyRule, t: DateTime)
    requires ValidDateTime(start) && ValidDate(end) && ValidRule(rule)
    requires t in MonthlyExpansionAsWritten(start, end, rule)
    ensures t in MonthlyExpansion(start, end, rule) && ValidDate(t.date) && EpochMillis() < Millis(t)
  {
    var g := MonthlyRoundsAsWritten(start, end, rule);
    var m0 := MonthIndex(start.date);
    GatherElements(g, m0, MonthIndex(end), 0, t);
    var i :| m0 <= i <= MonthIndex(end) && i - m0 < MonthlyCap && t in g(i);
    AsWrittenMonth(start, end, rule, i, t);
    GatherComplete(MonthlyRounds(start, end, rule), m0, MonthIndex(end), 0, i, t);
  }

  lemma AsWrittenComplete(start: DateTime, end: Date, rule: MonthlyRule, t: DateTime)
    requires ValidDateTime(start) && ValidDate(end) && ValidRule(rule)
    requires t in MonthlyExpansion(start, end, rule) && ValidDate(t.date) && EpochMillis() < Millis(t)
    ensures t in MonthlyExpansionAsWritten(start, end, rule)
  {
    var f := MonthlyRounds(start, end, rule);
    var m0 := MonthIndex(start.date);
    GatherElements(f, m0, MonthIndex(end), 0, t);
    var i :| m0 <= i <= MonthIndex(end) && i - m0 < MonthlyCap && t in f(i);
    AsWrittenMonth(start, end, rule, i, t);
    GatherComplete(MonthlyRoundsAsWritten(start, end, rule), m0, MonthIndex(end), 0, i, t);
  }

  /** Round by round, the filter keeps what is after the epoch. */
  lemma AsWrittenMonth(start: DateTime, end: Date, rule: MonthlyRule, m: int, t: DateTime)
    requires ValidDateTime(start) && ValidDate(end) && ValidRule(rule)
    ensures t in MonthOccurrenceAsWritten(start, end, rule, m) <==>
      t in MonthOccurrence(start, end, rule, m) && ValidDate(t.date) && EpochMillis() < Millis(t)
  {
  }

  /** "The 1st of every month" from 1969-12-01T09:00 through 1969-12-31: the start itself
      is an occurrence, and the epoch filter drops it, while the daily and weekly loops,
      which have no such filter, keep it. */
  lemma EpochFilterDropsOccurrence()
    ensures var start := DateTime(Date(1969, 12, 1), 9, 0);
      var rule := MonthlyRule(SpecificDate, 1, 1, 0);
      && start in MonthlyExpansion(start, Date(1969, 12, 31), rule)
      && start !in MonthlyExpansionAsWritten(start, Date(1969, 12, 31), rule)
      && |StepExpansion(start, Date(1969, 12, 31), 7)| > 0
      && StepExpansion(start, Date(1969, 12, 31), 7)[0] == start
  {
    var start := DateTime(Date(1969, 12, 1), 9, 0);
    var end := Date(1969, 12, 31);
    var rule := MonthlyRule(SpecificDate, 1, 1, 0);
    assert Millis(start) < EpochMillis() && Millis(start) <= EndOfDayMillis(end);
    assert RuleHolds(rule, start.date);
    MonthlyExpansionComplete(start, end, rule, start);
    MonthlyAsWrittenDropsEarly(start, end, rule, start);
    StepExpansionDescribed(start, end, 7);
    StepExpansionCount(StepExpansion(start, end, 7), start, end, 7);
  }
}
