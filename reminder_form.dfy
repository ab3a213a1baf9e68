/** The "add reminder" form of src/components/Reminders.tsx: its state, the checks
    `handleAddReminder` makes before anything is added, what it hands to `onAddReminder`
    and how it resets itself afterwards. */
module Reminders {
  import opened Wrappers
  import opened Text
  import opened Calendar
  import opened ReminderTypes
  import opened Recurrence

  /** Everything `handleAddReminder` reads from the form. */
  datatype FormInput = FormInput(
    text: string, dateTime: string, sound: string, vibration: string,
    isRecurring: bool, recurrenceType: RecurrenceType, recurrenceEndDate: string,
    rule: MonthlyRule)

  /** A submission either fails validation with a message or hands reminders over. */
  datatype Outcome = Rejected(error: FormError) | Accepted(submission: Submission)

  /** The date-times a recurring submission expands to, by cadence. */
  function Occurrences(start: DateTime, end: Date, kind: RecurrenceType, rule: MonthlyRule): (occ: seq<DateTime>)
    requires ValidDateTime(start) && ValidDate(end) && ValidRule(rule)
    ensures forall k :: 0 <= k < |occ| ==> ValidDateTime(occ[k])
  {
    match kind
    case Monthly => MonthlyExpansionFacts(start, end, rule); MonthlyExpansion(start, end, rule)
    case Daily => StepExpansionDescribed(start, end, 1); StepExpansion(start, end, 1)
    case Weekly => StepExpansionDescribed(start, end, 7); StepExpansion(start, end, 7)
  }

  /** The reminders pushed for an expansion: the form's text, sound and vibration, each
      occurrence written as `YYYY-MM-DDTHH:mm`, all under one group id. */
  function InstanceDrafts(occ: seq<DateTime>, text: string, sound: string, vibration: string, groupId: int): seq<Draft>
    requires forall k :: 0 <= k < |occ| ==> ValidDateTime(occ[k])
  {
    seq(|occ|, k requires 0 <= k < |occ| => Draft(text, FormatDateTime(occ[k]), sound, vibration, Some(groupId)))
  }

  /** The outcome of pressing "add" on `input` at clock reading `now` (`Date.now()`,
      which becomes the group id). A start or end the `Date` constructor cannot read
      makes every comparison false, so validation passes and both loops stop at once:
      the batch is empty. */
  function Submit(input: FormInput, now: int): Outcome
    requires ValidRule(input.rule)
  {
    if Trim(input.text) == [] || Trim(input.dateTime) == [] then Rejected(MissingTextOrTime)
    else if !input.isRecurring then
      Accepted(Single(Draft(input.text, input.dateTime, input.sound, input.vibration, None)))
    else if input.recurrenceEndDate == [] then Rejected(MissingEndDate)
    else
      var start := ParseDateTime(input.dateTime);
      var end := ParseDate(input.recurrenceEndDate);
      if start.None? || end.None? then Accepted(Batch([]))
      else if EndOfDayMillis(end.value) < Millis(start.value) then Rejected(EndBeforeStart)
      else
        var occ := Occurrences(start.value, end.value, input.recurrenceType, input.rule);
        Accepted(Batch(InstanceDrafts(occ, input.text, input.sound, input.vibration, now)))
  }

  // ---------------------------------------------------------------------------------
  // What a submission means

  /** Validation, message by message: the first message exactly when the text or the
      date-time is empty or all whitespace; the second exactly when those are filled, the
      reminder recurs and no end date is set; the third exactly when, in addition, start
      and end both read as dates and the end day is before the start's day. Nothing else
      is rejected. */
  lemma SubmitRejections(input: FormInput, now: int)
    requires ValidRule(input.rule)
    ensures Submit(input, now) == Rejected(MissingTextOrTime) <==>
      AllWhitespace(input.text) || AllWhitespace(input.dateTime)
    ensures Submit(input, now) == Rejected(MissingEndDate) <==>
      !AllWhitespace(input.text) && !AllWhitespace(input.dateTime) &&
      input.isRecurring && input.recurrenceEndDate == []
    ensures Submit(input, now) == Rejected(EndBeforeStart) <==>
      !AllWhitespace(input.text) && !AllWhitespace(input.dateTime) &&
      input.isRecurring && input.recurrenceEndDate != [] &&
      ParseDateTime(input.dateTime).Some? && ParseDate(input.recurrenceEndDate).Some? &&
      DayNumber(ParseDate(input.recurrenceEndDate).value) < DayNumber(ParseDateTime(input.dateTime).value.date)
  {
    TrimEmptyIff(input.text);
    TrimEmptyIff(input.dateTime);
    match (ParseDateTime(input.dateTime), ParseDate(input.recurrenceEndDate))
    case (Some(start), Some(end)) =>
      WithinEndOfDay(start, end);
    case _ =>
  }

  predicate AllWhitespace(s: string) {
    forall k :: 0 <= k < |s| ==> IsWhitespace(s[k])
  }

  /** A one-off reminder is handed over verbatim: the typed text and date-time string,
      untrimmed, the chosen sound and vibration, and no group id. */
  lemma SubmitSingle(input: FormInput, now: int)
    requires ValidRule(input.rule)
    requires !AllWhitespace(input.text) && !AllWhitespace(input.dateTime) && !input.isRecurring
    ensures Submit(input, now) == Accepted(Single(Draft(input.text, input.dateTime, input.sound, input.vibration, None)))
  {
    TrimEmptyIff(input.text);
    TrimEmptyIff(input.dateTime);
  }

  /** A recurring submission whose start or end the `Date` constructor cannot read passes
      validation and adds nothing. */
  lemma SubmitUnreadable(input: FormInput, now: int)
    requires ValidRule(input.rule)
    requires !AllWhitespace(input.text) && !AllWhitespace(input.dateTime)
    requires input.isRecurring && input.recurrenceEndDate != []
    requires ParseDateTime(input.dateTime).None? || ParseDate(input.recurrenceEndDate).None?
    ensures Submit(input, now) == Accepted(Batch([]))
  {
    TrimEmptyIff(input.text);
    TrimEmptyIff(input.dateTime);
  }

  /** The occurrences of every cadence are valid date-times at the start's time of day,
      within [start, end of the end day], strictly ascending; a daily or weekly expansion
      has one per step through the end day (at most 365, at least the start itself), a
      monthly one at most 60. */
  lemma OccurrencesFacts(start: DateTime, end: Date, kind: RecurrenceType, rule: MonthlyRule)
    requires ValidDateTime(start) && ValidDate(end) && ValidRule(rule)
    requires Millis(start) <= EndOfDayMillis(end)
    ensures var occ := Occurrences(start, end, kind, rule);
      && InstantsAscending(occ)
      && (forall k :: 0 <= k < |occ| ==>
            occ[k].hour == start.hour && occ[k].minute == start.minute &&
            Millis(start) <= Millis(occ[k]) <= EndOfDayMillis(end))
      && (kind == Monthly ==> |occ| <= MonthlyCap)
      && (kind == Daily ==> |occ| == Min(DailyWeeklyCap, DayNumber(end) - DayNumber(start.date) + 1))
      && (kind == Weekly ==> |occ| == Min(DailyWeeklyCap, (DayNumber(end) - DayNumber(start.date)) / 7 + 1))
      && (kind != Monthly ==> occ[0] == start)
  {
    if kind == Monthly {
      MonthlyOccurrencesFacts(start, end, rule);
    } else {
      StepOccurrencesFacts(start, end, if kind == Daily then 1 else 7);
    }
  }

  lemma MonthlyOccurrencesFacts(start: DateTime, end: Date, rule: MonthlyRule)
    requires ValidDateTime(start) && ValidDate(end) && ValidRule(rule)
    ensures var occ := MonthlyExpansion(start, end, rule);
      && InstantsAscending(occ) && |occ| <= MonthlyCap
      && (forall k :: 0 <= k < |occ| ==>
            occ[k].hour == start.hour && occ[k].minute == start.minute &&
            Millis(start) <= Millis(occ[k]) <= EndOfDayMillis(end))
  {
    var occ := MonthlyExpansion(start, end, rule);
    MonthlyExpansionFacts(start, end, rule);
    forall k | 0 <= k < |occ|
      ensures occ[k].hour == start.hour && occ[k].minute == start.minute
      ensures Millis(start) <= Millis(occ[k]) <= EndOfDayMillis(end)
    {
      assert occ[k] in occ;
    }
  }

  lemma StepOccurrencesFacts(start: DateTime, end: Date, step: int)
    requires ValidDateTime(start) && ValidDate(end) && (step == 1 || step == 7)
    requires Millis(start) <= EndOfDayMillis(end)
    ensures var occ := StepExpansion(start, end, step);
      && InstantsAscending(occ) && 1 <= |occ| && occ[0] == start
      && |occ| == Min(DailyWeeklyCap, (DayNumber(end) - DayNumber(start.date)) / step + 1)
      && (forall k :: 0 <= k < |occ| ==>
            occ[k].hour == start.hour && occ[k].minute == start.minute &&
            Millis(start) <= Millis(occ[k]) <= EndOfDayMillis(end))
  {
    var occ := StepExpansion(start, end, step);
    StepExpansionDescribed(start, end, step);
    StepExpansionAscending(occ, start, end, step);
    StepExpansionCount(occ, start, end, step);
    forall k | 0 <= k < |occ|
      ensures occ[k].hour == start.hour && occ[k].minute == start.minute
      ensures Millis(occ[k]) <= EndOfDayMillis(end)
    {
      assert occ[k] == StepOccurrence(start, step, k);
    }
  }

  /** A date-time no earlier than the start and no later than the end day falls in a
      year between theirs. */
  lemma OccurrenceYear(start: DateTime, end: Date, t: DateTime)
    requires ValidDateTime(start) && ValidDate(end) && ValidDateTime(t)
    requires Millis(start) <= Millis(t) <= EndOfDayMillis(end)
    ensures start.date.year <= t.date.year <= end.year
  {
    WithinEndOfDay(t, end);
    MillisOrder(t, start);
    DayNumberOrder(t.date, start.date);
    DayNumberOrder(end, t.date);
  }

  /** The expansion's drafts carry the form's text, sound and vibration and the group id
      `now`; read back with `new Date(...)`, their date-time strings are exactly the
      occurrences, in order. The years must print with four digits for that. */
  lemma InstanceDraftsReadBack(occ: seq<DateTime>, text: string, sound: string, vibration: string, groupId: int)
    requires forall k :: 0 <= k < |occ| ==> ValidDateTime(occ[k]) && 1000 <= occ[k].date.year <= 9999
    ensures var drafts := InstanceDrafts(occ, text, sound, vibration, groupId);
      && |drafts| == |occ|
      && forall k :: 0 <= k < |drafts| ==>
           && drafts[k].text == text && drafts[k].sound == sound && drafts[k].vibration == vibration
           && drafts[k].groupId == Some(groupId)
           && ParseDateTime(drafts[k].dateTime) == Some(occ[k])
  {
    var drafts := InstanceDrafts(occ, text, sound, vibration, groupId);
    forall k | 0 <= k < |drafts|
      ensures ParseDateTime(drafts[k].dateTime) == Some(occ[k])
    {
      FormatParseRoundTrip(occ[k]);
    }
  }

  /** An accepted recurring submission with a four-digit start year: one batch whose
      every reminder carries the typed text, sound and vibration and the group id `now`,
      and whose date-time strings read back as the expansion's occurrences — ascending, at
      the start's time of day, within [start, end of the end day]. */
  lemma SubmitBatch(input: FormInput, now: int, start: DateTime, end: Date)
    requires ValidRule(input.rule)
    requires !AllWhitespace(input.text) && !AllWhitespace(input.dateTime)
    requires input.isRecurring && input.recurrenceEndDate != []
    requires ParseDateTime(input.dateTime) == Some(start) && ParseDate(input.recurrenceEndDate) == Some(end)
    requires Millis(start) <= EndOfDayMillis(end) && 1000 <= start.date.year
    ensures Submit(input, now).Accepted? && Submit(input, now).submission.Batch?
    ensures var drafts := Submit(input, now).submission.drafts;
      var occ := Occurrences(start, end, input.recurrenceType, input.rule);
      && |drafts| == |occ|
      && forall k :: 0 <= k < |drafts| ==>
           && drafts[k].text == input.text && drafts[k].sound == input.sound
           && drafts[k].vibration == input.vibration && drafts[k].groupId == Some(now)
           && ParseDateTime(drafts[k].dateTime) == Some(occ[k])
  {
    var occ := Occurrences(start, end, input.recurrenceType, input.rule);
    SubmitExpands(input, now, start, end);
    OccurrencesFacts(start, end, input.recurrenceType, input.rule);
    forall k | 0 <= k < |occ|
      ensures 1000 <= occ[k].date.year <= 9999
    {
      OccurrenceYear(start, end, occ[k]);
    }
    InstanceDraftsReadBack(occ, input.text, input.sound, input.vibration, now);
  }

  /** Past validation, a recurring submission is the batch of its expansion's drafts. */
  lemma SubmitExpands(input: FormInput, now: int, start: DateTime, end: Date)
    requires ValidRule(input.rule)
    requires !AllWhitespace(input.text) && !AllWhitespace(input.dateTime)
    requires input.isRecurring && input.recurrenceEndDate != []
    requires ParseDateTime(input.dateTime) == Some(start) && ParseDate(input.recurrenceEndDate) == Some(end)
    requires Millis(start) <= EndOfDayMillis(end)
    ensures Submit(input, now) == Accepted(Batch(InstanceDrafts(
      Occurrences(start, end, input.recurrenceType, input.rule), input.text, input.sound, input.vibration, now)))
  {
    TrimEmptyIff(input.text);
    TrimEmptyIff(input.dateTime);
  }

  // ---------------------------------------------------------------------------------
  // Worked examples

  /** Weekly from Monday 2024-01-01 at 08:00 through 2024-01-22: four Mondays. */
  lemma WeeklyExample(start: DateTime, end: Date, rule: MonthlyRule)
    requires start == DateTime(Date(2024, 1, 1), 8, 0) && end == Date(2024, 1, 22) && ValidRule(rule)
    ensures Occurrences(start, end, Weekly, rule) ==
      [start, DateTime(Date(2024, 1, 8), 8, 0), DateTime(Date(2024, 1, 15), 8, 0), DateTime(Date(2024, 1, 22), 8, 0)]
  {
    var occ := StepExpansion(start, end, 7);
    StepExpansionDescribed(start, end, 7);
    StepExpansionCount(occ, start, end, 7);
    assert |occ| == 4;
    forall k | 1 <= k < 4
      ensures occ[k] == DateTime(Date(2024, 1, 1 + 7 * k), 8, 0)
    {
      assert occ[k] == StepOccurrence(start, 7, k);
      AddDaysIs(start.date, 7 * k, Date(2024, 1, 1 + 7 * k));
    }
  }

  /** "The 31st of every month" is clamped to each month's last day: 29 February in the
      leap year 2024, 28 February in 2023, 30 April, and the 31st itself in March. */
  lemma MonthlyClampExample(rule: MonthlyRule)
    requires rule == MonthlyRule(SpecificDate, 31, 1, 0)
    ensures TargetDay(2024, 2, rule) == Some(29) && TargetDay(2023, 2, rule) == Some(28)
    ensures TargetDay(2024, 4, rule) == Some(30) && TargetDay(2024, 3, rule) == Some(31)
  {
  }

  /** "Last Friday" of January 2025: the 1st is a Wednesday, the first Friday the 3rd,
      and the last the 31st. */
  lemma LastFridayExample()
    ensures TargetDay(2025, 1, MonthlyRule(Relative, 1, 5, 5)) == Some(31)
  {
    assert Weekday(Date(2025, 1, 1)) == 3;
  }

  // ---------------------------------------------------------------------------------
  // The handler's steps

  /** The checks and loops of `handleAddReminder`, in its order: text and time, then for
      a recurring reminder the end date, the end-before-start comparison and the loop of
      the chosen cadence, whose date-times become the batch's drafts. */
  method CheckAndExpand(input: FormInput, now: int) returns (outcome: Outcome)
    requires ValidRule(input.rule)
    ensures outcome == Submit(input, now)
  {
    if Trim(input.text) == [] || Trim(input.dateTime) == [] {
      return Rejected(MissingTextOrTime);
    }
    var startDate := ParseDateTime(input.dateTime);
    if !input.isRecurring {
      return Accepted(Single(Draft(input.text, input.dateTime, input.sound, input.vibration, None)));
    }
    if input.recurrenceEndDate == [] {
      return Rejected(MissingEndDate);
    }
    var endDate := ParseDate(input.recurrenceEndDate);
    if startDate.None? || endDate.None? {
      return Accepted(Batch([]));
    }
    if EndOfDayMillis(endDate.value) < Millis(startDate.value) {
      return Rejected(EndBeforeStart);
    }
    var groupId := now;
    var occ := ExpandOccurrences(startDate.value, endDate.value, input.recurrenceType, input.rule);
    outcome := Accepted(Batch(InstanceDrafts(occ, input.text, input.sound, input.vibration, groupId)));
  }

  /** The loop of the chosen cadence: the monthly loop, or the daily/weekly loop with a
      step of one or seven days. */
  method ExpandOccurrences(start: DateTime, end: Date, kind: RecurrenceType, rule: MonthlyRule) returns (occ: seq<DateTime>)
    requires ValidDateTime(start) && ValidDate(end) && ValidRule(rule)
    ensures occ == Occurrences(start, end, kind, rule)
  {
    if kind == Monthly {
      occ := MonthlyOccurrences(start, end, rule);
    } else if kind == Daily {
      occ := StepOccurrences(start, end, 1);
    } else {
      occ := StepOccurrences(start, end, 7);
    }
  }

  // ---------------------------------------------------------------------------------
  // The form's state

  /** The form's `useState` hooks that `handleAddReminder` reads or sets. */
  class ReminderForm {
    var text: string
    var dateTime: string
    var sound: string
    var vibration: string
    var isRecurring: bool
    var recurrenceType: RecurrenceType
    var recurrenceEndDate: string
    var monthlyOption: MonthlyOption
    var monthDay: int
    var weekRank: int
    var weekDay: int
    var showForm: bool
    var formError: Option<FormError>

    /** The monthly selectors hold values their option lists offer. */
    predicate Valid()
      reads this
    {
      ValidRule(Rule())
    }

    function Rule(): MonthlyRule
      reads this
    {
      MonthlyRule(monthlyOption, monthDay, weekRank, weekDay)
    }

    function Input(): FormInput
      reads this
    {
      FormInput(text, dateTime, sound, vibration, isRecurring, recurrenceType, recurrenceEndDate, Rule())
    }

    /** The initial state: empty fields, the first sound and vibration pattern, a daily
        one-off, "day 1 of the month" / "first Sunday", the form closed, no message. */
    constructor(firstSound: string, firstVibration: string)
      ensures Valid()
      ensures Input() == FormInput("", "", firstSound, firstVibration, false, Daily, "", MonthlyRule(SpecificDate, 1, 1, 0))
      ensures !showForm && formError == None
    {
      text := "";
      dateTime := "";
      sound := firstSound;
      vibration := firstVibration;
      isRecurring := false;
      recurrenceType := Daily;
      recurrenceEndDate := "";
      monthlyOption := SpecificDate;
      monthDay := 1;
      weekRank := 1;
      weekDay := 0;
      showForm := false;
      formError := None;
    }

    /** `handleAddReminder` at clock reading `now`: returns what it passes to
        `onAddReminder` (nothing when validation fails). On a failure it shows the message
        and leaves every field as it was; on success it clears the text, the date-time,
        the end date and the recurring switch, closes the form and clears the message,
        keeping sound, vibration, cadence and monthly rule for the next reminder. */
    method HandleAddReminder(now: int) returns (submitted: Option<Submission>)
      requires Valid()
      modifies this
      ensures Valid()
      ensures match Submit(old(Input()), now)
        case Rejected(e) =>
          submitted == None && formError == Some(e) && Input() == old(Input()) && showForm == old(showForm)
        case Accepted(s) =>
          && submitted == Some(s) && formError == None && !showForm
          && text == "" && dateTime == "" && recurrenceEndDate == "" && !isRecurring
          && sound == old(sound) && vibration == old(vibration)
          && recurrenceType == old(recurrenceType) && Rule() == old(Rule())
    {
      var outcome := CheckAndExpand(Input(), now);
      if outcome.Rejected? {
        ShowError(outcome.error);
        return None;
      }
      submitted := Some(outcome.submission);
      Reset();
    }

    /** `setFormError(message)`: nothing else changes. */
    method ShowError(e: FormError)
      modifies this
      ensures formError == Some(e) && showForm == old(showForm) && Input() == old(Input())
    {
      formError := Some(e);
    }

    /** The reset after a successful submission. */
    method Reset()
      requires Valid()
      modifies this
      ensures Valid() && formError == None && !showForm
      ensures text == "" && dateTime == "" && recurrenceEndDate == "" && !isRecurring
      ensures sound == old(sound) && vibration == old(vibration)
      ensures recurrenceType == old(recurrenceType) && Rule() == old(Rule())
    {
      text := "";
      dateTime := "";
      recurrenceEndDate := "";
      isRecurring := false;
      showForm := false;
      formError := None;
    }
  }
}
