# School timetable and reminders — a verified model

This project models the logic of a small school-family app: reminders (single or
recurring), per-child school timetables, a visual Gregorian calendar, and a local
login/registration screen. The heart of the model is the recurring-reminder expansion of
the reminder form. From a start date-time, a cadence (daily, weekly or monthly) and an
inclusive end date, it produces the concrete occurrences:

- daily and weekly steps;
- "the Nth day of every month", clamped to the month's length;
- "the first/second/third/fourth/last weekday of every month".

Each occurrence is written as `YYYY-MM-DDTHH:mm`, and all of them share one group id.

Around it sit four state components:

- the reminder list of the app shell: add-then-sort, toggle, delete, and the choice of
  which reminders get a notification timer;
- the timetable editor: add or delete a child, edit one cell, and turn a cell into a
  reminder;
- the calendar's month grid and week strip, navigation and date picking;
- the login/registration decision over the stored username → password map.

Files, one module each:

- `wrappers.dfy` — `Option`.
- `text.dfy` (`Text`) — whitespace trimming, decimal printing (`String(n)`,
  `padStart(2, '0')`) and string order.
- `calendar.dfy` (`Calendar`) — a proleptic Gregorian calendar written in the idioms the
  code uses:
  - the date arithmetic of `new Date(y, m, d)` as `MakeDate`, and the constructor's
    reading of years 0..99 as 1900 + year as `NewDate`;
  - `setDate` and `setMonth` as `SetDate` and `SetMonth`;
  - `getDay` as `Weekday` (Sunday 0);
  - local milliseconds as `Millis`;
  - the `YYYY-MM-DDTHH:mm` template and its reading back.
- `reminder_types.dfy` (`ReminderTypes`) — the reminder record, with the `groupId` the
  form sets, and what the form hands over.
- `recurrence.dfy` (`Recurrence`) — the daily/weekly loop and the monthly loop of the
  form, as methods proved equal to the functions that define them. Both the corrected and the
  as-written epoch filter are modelled (see Findings).
- `reminder_form.dfy` (`Reminders`) — the form's validation, the whole submission as
  `Submit`, and the form state as a class.
- `reminder_store.dfy` (`ReminderStore`) — the app shell's reminder list operations, a
  stable insertion sort over a key, the timer choice, the firing effect, and the shell
  state as a class.
- `school_schedule.dfy` (`SchoolSchedule`) — children's timetables as one 5×7 `array2`
  per child, and the editor as a class.
- `calendar_view.dfy` (`CalendarView`) — the month grid, the week strip, navigation and
  the conversion guards.
- `auth.dfy` (`Auth`) — login/registration over the users map, and the form as a class.

Wall-clock readings (`Date.now()`), notification permission, the sound and vibration
tables and the contents of storage are parameters.

The comment at src/components/Reminders.tsx:118 expects a "5th Friday" to skip its
month. The code never skips: it takes the last matching day for the "last weekday" rank
(101-112), and ranks 1 to 4 never overflow (`Recurrence.RelativeNeverSkips`). So the
"skip this month" sentinel `new Date(0)` is unreachable. It is modelled as `None`.

## Model

| member | source | states |
|---|---|---|
| Text.Trim | src/components/Reminders.tsx:43 | definition of `String.prototype.trim`: whitespace and line terminators cut from both ends (its properties are the next three rows) |
| Text.TrimEmptyIff | src/components/Reminders.tsx:43 | `trim()` is empty exactly when every character is whitespace |
| Text.TrimSlice | src/components/SchoolSchedule.tsx:27-29 | the trimmed name is a slice with only whitespace cut on either side, and it neither starts nor ends with whitespace |
| Text.TrimIdempotent | src/components/SchoolSchedule.tsx:29 | trimming a trimmed name changes nothing |
| Text.NatToStringValue | src/components/CalendarConverter.tsx:141-143 | the digits of `toString()` read back as the number |
| Text.NatToStringInjective | src/components/CalendarConverter.tsx:198-201 | two non-negative numbers print the same exactly when they are equal |
| Text.IntToStringInjective | src/components/CalendarConverter.tsx:198-201 | two integers print the same exactly when they are equal |
| Text.Pad2Digits | src/components/Reminders.tsx:134-137 | `padStart(2, '0')` of a number below 100 is its tens digit then its units digit |
| Text.NatToStringFourDigits | src/components/Reminders.tsx:133 | a four-digit year prints as exactly its four digits |
| Text.StringLessAppend | src/components/Reminders.tsx:133-141 | strings cut at the same length compare by the heads first, and by the tails only when the heads are equal |
| Text.Pad2Order | src/components/Reminders.tsx:134-137 | padded two-digit fields compare as strings as their numbers do, and print equal exactly when equal |
| Text.FourDigitOrder | src/components/Reminders.tsx:133 | four-digit years compare as strings as they do as numbers |
| Calendar.DaysInMonth | src/components/Reminders.tsx:85 | a month has 28 to 31 days |
| Calendar.DaysInMonthIdiom | src/components/Reminders.tsx:85 | `new Date(y, m + 1, 0)` is the last day of month m, so its `getDate()` is the month's length |
| Calendar.DayNumberOrder | src/components/Reminders.tsx:59 | day numbers order dates as the calendar does (year, month, day) and identify them |
| Calendar.AddDays | src/components/Reminders.tsx:172-174 | moving by days always gives a real calendar date |
| Calendar.AddDaysNumber | src/components/Reminders.tsx:172-174 | moving by n days moves the day number by exactly n, across months and years |
| Calendar.AddDaysIs | src/components/Reminders.tsx:172-174 | the date n days on is the one whose day number is n more |
| Calendar.AddDaysAdd | src/components/Reminders.tsx:172-174 | moving by a then by b days is moving by a + b |
| Calendar.MakeDate | src/components/Reminders.tsx:85 | definition of the date arithmetic of `new Date(y, m, d)` with the year taken as it is: the month index carries into the year, and the day counts from the 1st of that month |
| Calendar.NewDate | src/components/CalendarConverter.tsx:211 | definition of the constructor itself, which reads a year 0..99 as 1900 + year |
| Calendar.NewDateTwoDigitYears | src/components/CalendarConverter.tsx:211 | the constructor gives back an existing day exactly when its year is outside 0..99; years 0..99 land in 1900..1999 |
| Calendar.NewDateTwoDigitExamples | src/components/Reminders.tsx:92-93 | for year 50 the constructor reads 1 March 1950 (a Wednesday, not the Tuesday of 1 March 50), and `new Date(0, 2, 0)` is 28 February 1900 although February of year 0 has 29 days |
| Calendar.SetDate | src/components/Reminders.tsx:172-174 | definition of `setDate(n)`: day n of the date's month, overflowing into other months (its meaning is `SetDateShift`) |
| Calendar.SetMonth | src/components/CalendarConverter.tsx:149-153 | definition of `setMonth(m)`, keeping the day of month (its meaning is `SetMonthOverflow`) |
| Calendar.SetDateShift | src/components/Reminders.tsx:172-174 | `setDate(getDate() + n)` moves the date by n calendar days, overflowing into other months |
| Calendar.MakeDateInMonth | src/components/CalendarConverter.tsx:211 | `new Date(y, m, d)` of an existing day is that day |
| Calendar.MonthYearAfter | src/components/CalendarConverter.tsx:151 | the month k months on is always a month 1 to 12 |
| Calendar.NextMonthStart | src/components/Reminders.tsx:149 | the 1st of the next month is the month's length after the 1st of this one, across year ends |
| Calendar.SetMonthOverflow | src/components/CalendarConverter.tsx:149-153 | `setMonth(getMonth() + k)` keeps the day when the target month has it; otherwise the surplus days roll into the following month |
| Calendar.MonthIndexOrder | src/components/Reminders.tsx:78 | a date in an earlier month is an earlier day |
| Calendar.Weekday | src/components/Reminders.tsx:93 | `getDay()` lies in 0..6 |
| Calendar.WeekdayShift | src/components/Reminders.tsx:93 | n days on, the weekday has advanced by n modulo 7 |
| Calendar.WeekdayAnchors | src/components/Reminders.tsx:93 | 1970-01-01 is a Thursday (4) and 2024-01-01 a Monday (1), fixing Sunday as 0 |
| Calendar.WithinEndOfDay | src/components/Reminders.tsx:56-59 | an instant is at or before 23:59:59.999 of the end day exactly when its day is not after the end day |
| Calendar.MillisOrder | src/components/Reminders.tsx:59 | instants order by day, then hour, then minute, and equal instants are equal date-times |
| Calendar.ParseDate | src/components/Reminders.tsx:56 | a date input that reads gives a real date with a four-digit year |
| Calendar.ParseTime | src/components/Reminders.tsx:48 | a clock reading that reads gives an hour 0..23 and a minute 0..59 |
| Calendar.ParseDateTime | src/components/Reminders.tsx:48 | a date-time input that reads gives a real date and a minute of the day |
| Calendar.FormatParseDate | src/components/Reminders.tsx:133-135 | reading an emitted `YYYY-MM-DD` back gives the same date, for four-digit years |
| Calendar.FormatParseTime | src/components/Reminders.tsx:136-137 | reading an emitted `HH:mm` back gives the same hour and minute |
| Calendar.FormatDateTime | src/components/Reminders.tsx:133-141 | definition of the `${y}-${m}-${d}T${h}:${min}` template, with the year unpadded and the other fields padded to two digits |
| Calendar.FormatParseRoundTrip | src/components/Reminders.tsx:133-141 | reading an emitted `YYYY-MM-DDTHH:mm` back gives the same minute, for four-digit years |
| Calendar.FormatDateOrder | src/components/Reminders.tsx:133-135 | formatted dates compare as strings in calendar order |
| Calendar.FormatTimeOrder | src/components/Reminders.tsx:136-137 | formatted clock readings compare as strings in time order |
| Calendar.FormatDateInjective | src/components/Reminders.tsx:133-135 | a formatted date is ten characters and names exactly one date |
| Calendar.FormatDateTimeOrder | src/components/Reminders.tsx:133-141 | string order of emitted date-times is chronological order, for four-digit years |
| Recurrence.ShiftDays | src/components/Reminders.tsx:171-175 | stepping the date keeps the hour and minute |
| Recurrence.StepOccurrenceDay | src/components/Reminders.tsx:171-175 | occurrence k is k·step days after the start day |
| Recurrence.StepAdvance | src/components/Reminders.tsx:171-175 | one more step from occurrence k is occurrence k + 1 |
| Recurrence.AdvanceDays | src/components/Reminders.tsx:172-174 | the loop's `setDate(getDate() + step)` is the date-time step days on |
| Recurrence.StepExpansion | src/components/Reminders.tsx:155-177 | definition of the daily/weekly list: the step series from the start, while within the end of the end day, capped at 365 (characterised by `StepExpansionDescribed` and `StepExpansionIs`) |
| Recurrence.StepOccurrences | src/components/Reminders.tsx:155-177 | the daily/weekly loop emits occurrence k = start + k·step days while it is not past the end of the end day, for at most 365 rounds |
| Recurrence.StepExpansionDescribed | src/components/Reminders.tsx:155-177 | the definition of the daily/weekly list meets the loop's description (prefix of the step series, stopping at the end or the cap) |
| Recurrence.StepExpansionIs | src/components/Reminders.tsx:155-177 | any list meeting that description is the specified one |
| Recurrence.StepExpansionAscending | src/components/Reminders.tsx:155-177 | the occurrences are strictly ascending and none is before the start |
| Recurrence.StepExpansionCount | src/components/Reminders.tsx:155 | once the end is not before the start there are min(365, ⌊days/step⌋ + 1) occurrences, the first being the start |
| Recurrence.StepWithinEnd | src/components/Reminders.tsx:155 | occurrence k is within the end day exactly when k·step days fit between start and end |
| Recurrence.WeekdayInMonth | src/components/Reminders.tsx:92-93 | the weekday of day d is the 1st's weekday plus d − 1, modulo 7 |
| Recurrence.FirstOccurrence | src/components/Reminders.tsx:92-99 | `1 + ((weekDay − getDay(1st)) mod 7)` lies in 1..7 and falls on the wanted weekday |
| Recurrence.LastOccurrenceDay | src/components/Reminders.tsx:101-112 | the last occurrence is a whole number of weeks after the first, within the month, and within a week of its end |
| Recurrence.FindLastOccurrence | src/components/Reminders.tsx:104-111 | the stepping loop ends on that last occurrence |
| Recurrence.LastOccurrenceUnique | src/components/Reminders.tsx:101-112 | only one day meets that description |
| Recurrence.LastRankDay | src/components/Reminders.tsx:101-112 | a day is the last occurrence exactly when it is a whole number of weeks from the first and a week later would leave the month |
| Recurrence.RankDay | src/components/Reminders.tsx:115 | `first + 7(rank − 1)` is the day a whole number of weeks from the first that lies in week rank of the month |
| Recurrence.SameWeekday | src/components/Reminders.tsx:92-99 | a day has the wanted weekday exactly when it is a whole number of weeks from the first occurrence |
| Recurrence.TargetDay | src/components/Reminders.tsx:83-124 | a round's target day lies within the month |
| Recurrence.RuleHolds | src/components/Reminders.tsx:83-124 | the reference definition of the monthly rule, from the calendar alone: the clamped day of month, the rank-th weekday (day within week rank of the month), or the weekday with no same weekday a week later in the month |
| Recurrence.TargetDayMeansRule | src/components/Reminders.tsx:83-124 | the target is day d exactly when d satisfies the rule: the clamped day of month, or the ranked or last weekday |
| Recurrence.RelativeNeverSkips | src/components/Reminders.tsx:118-123 | every month has a target, so the skip branch is never taken |
| Recurrence.MonthFirst | src/components/Reminders.tsx:73-76 | the iterator's month start is a real 1st of the month of that index |
| Recurrence.MonthFirstOf | src/components/Reminders.tsx:76 | `setDate(1)` on the start gives the 1st of its month |
| Recurrence.SetMonthNext | src/components/Reminders.tsx:149 | `setMonth(getMonth() + 1)` on a 1st gives the 1st of the next month |
| Recurrence.IteratorWithinEnd | src/components/Reminders.tsx:78 | `iteratorDate <= endDate` holds exactly up to the end date's month |
| Recurrence.LastDayOfMonth | src/components/Reminders.tsx:85 | the `new Date(year, month + 1, 0).getDate()` step gives the month's length |
| Recurrence.WeekdayOfFirst | src/components/Reminders.tsx:92-93 | the `new Date(year, month, 1).getDay()` step gives the 1st's weekday |
| Recurrence.SetDayOfMonth | src/components/Reminders.tsx:88 | `setDate(day)` for a day of the month gives that day |
| Recurrence.RoundTarget | src/components/Reminders.tsx:79-124 | one round's target date is the rule's target in the iterator's month, or none |
| Recurrence.MonthlyRound | src/components/Reminders.tsx:79-146 | one round pushes exactly what `MonthlyExpansion` gives its month |
| Recurrence.AdvanceMonth | src/components/Reminders.tsx:149 | the iterator moves to the 1st of the next month |
| Recurrence.StartOfMonth | src/components/Reminders.tsx:73-76 | the iterator starts at the 1st of the start's month |
| Recurrence.MonthlyExpansion | src/components/Reminders.tsx:73-151 | definition of the corrected monthly list: one round per month from the start's month while within the end's month, at most 60, each pushing the month's target at the start's time when in range |
| Recurrence.MonthlyOccurrences | src/components/Reminders.tsx:73-151 | the monthly loop produces exactly the specified monthly expansion |
| Recurrence.GatherLength | src/components/Reminders.tsx:78 | at most 60 rounds, at most one push each: at most 60 occurrences |
| Recurrence.GatherAscending | src/components/Reminders.tsx:78-150 | rounds push in ascending month order |
| Recurrence.MonthOccurrenceFacts | src/components/Reminders.tsx:128-132 | a month contributes at most one occurrence; it lies in that month at the start's hour and minute, satisfies the rule, and is within [start, end of end day] |
| Recurrence.MonthOccurrenceHit | src/components/Reminders.tsx:128-132 | a date-time that meets the rule in its month and is in range is that month's contribution |
| Recurrence.MonthlyExpansionFacts | src/components/Reminders.tsx:73-151 | the monthly result has at most 60 entries, one per month in ascending month order, strictly ascending in time, and each is a rule-satisfying instance in range |
| Recurrence.MonthlyExpansionExact | src/components/Reminders.tsx:73-151 | a date-time is emitted exactly when it satisfies the rule, is in range, and falls within the 60 examined months |
| Recurrence.MonthlyExpansionSound | src/components/Reminders.tsx:73-151 | every emitted date-time satisfies the rule, is in range, and falls within the 60 examined months |
| Recurrence.MonthlyExpansionComplete | src/components/Reminders.tsx:73-151 | every rule-satisfying date-time in range within the 60 examined months is emitted |
| Recurrence.MonthlyNeverSkips | src/components/Reminders.tsx:118-132 | for every examined month up to the end, the rule's target in that month is emitted whenever it is in range |
| Recurrence.MonthlyExpansionAsWritten | src/components/Reminders.tsx:132 | the monthly expansion with the `getTime() > 0` filter as written (see Findings) |
| Recurrence.MonthlyAsWrittenDropsEarly | src/components/Reminders.tsx:132 | as written, a date-time is emitted exactly when the corrected expansion emits it and it is after 1970-01-01T00:00 |
| Recurrence.AsWrittenSound | src/components/Reminders.tsx:132 | everything the as-written loop emits, the corrected one emits, and it is after the epoch |
| Recurrence.AsWrittenComplete | src/components/Reminders.tsx:132 | everything the corrected loop emits after the epoch, the as-written one emits too |
| Recurrence.AsWrittenMonth | src/components/Reminders.tsx:132 | round by round, the filter keeps what is after the epoch |
| Recurrence.EpochFilterDropsOccurrence | src/components/Reminders.tsx:132 | "the 1st of every month" from 1969-12-01T09:00 through 1969-12-31: the start is an occurrence, the as-written monthly loop drops it, and the weekly loop keeps it |
| Reminders.Submit | src/components/Reminders.tsx:41-190 | definition of the whole submission: the three checks in order, then one draft or the batch of the expansion |
| Reminders.Occurrences | src/components/Reminders.tsx:70-178 | every occurrence of the chosen cadence is a real date-time |
| Reminders.SubmitRejections | src/components/Reminders.tsx:42-62 | each of the three messages is shown exactly in its case: blank text or time; a recurring reminder without an end date; an end day before the start |
| Reminders.SubmitSingle | src/components/Reminders.tsx:182-190 | a valid one-off hands over one draft with the form's fields, the date-time verbatim and no group id |
| Reminders.SubmitUnreadable | src/components/Reminders.tsx:48-62 | a start or end the `Date` constructor cannot read passes validation and adds an empty batch |
| Reminders.OccurrencesFacts | src/components/Reminders.tsx:70-178 | occurrences are strictly ascending, at the start's hour and minute, within [start, end of end day]; daily gives min(365, days + 1) and weekly min(365, ⌊days/7⌋ + 1), both starting at the start; monthly at most 60 |
| Reminders.MonthlyOccurrencesFacts | src/components/Reminders.tsx:73-151 | the monthly occurrences are ascending, at most 60, at the start's time, within range |
| Reminders.StepOccurrencesFacts | src/components/Reminders.tsx:155-177 | the daily/weekly occurrences are ascending, start at the start, have the stated count, and stay at the start's time and within range |
| Reminders.OccurrenceYear | src/components/Reminders.tsx:132 | an occurrence's year lies between the start's and the end's |
| Reminders.InstanceDrafts | src/components/Reminders.tsx:133-169 | definition of the batch: one draft per occurrence, in order, with its date-time written by the template |
| Reminders.InstanceDraftsReadBack | src/components/Reminders.tsx:133-169 | one draft per occurrence: text, sound and vibration copied, one group id, and the date-time string reads back as the occurrence |
| Reminders.SubmitBatch | src/components/Reminders.tsx:64-180 | a valid recurring submission hands over a batch of exactly one draft per occurrence, each with the form's fields, group id `now`, and a date-time that reads back as the occurrence |
| Reminders.SubmitExpands | src/components/Reminders.tsx:41-180 | a valid recurring submission hands over exactly the drafts of the expansion |
| Reminders.WeeklyExample | src/components/Reminders.tsx:171-175 | weekly from 2024-01-01 08:00 to 2024-01-22 gives the 1st, 8th, 15th and 22nd at 08:00 |
| Reminders.MonthlyClampExample | src/components/Reminders.tsx:85-88 | "the 31st" becomes 29 Feb 2024, 28 Feb 2023, 30 Apr 2024 and stays 31 Mar 2024 |
| Reminders.LastFridayExample | src/components/Reminders.tsx:101-112 | the last Friday of January 2025 is the 31st |
| Reminders.CheckAndExpand | src/components/Reminders.tsx:41-190 | the handler's checks and loops, in order, produce exactly `Submit` |
| Reminders.ExpandOccurrences | src/components/Reminders.tsx:70-178 | the cadence dispatch runs the loop whose result is the specified occurrences |
| Reminders.ReminderForm.constructor | src/components/Reminders.tsx:15-32 | the form starts empty, non-recurring and daily, with "day 1" / "first Sunday", the first sound and vibration, closed, with no message |
| Reminders.ReminderForm.HandleAddReminder | src/components/Reminders.tsx:41-199 | on a rejection the message is set and nothing else changes; otherwise the submission is handed over and text, date-time, end date and the recurring switch are cleared, the form closed and the message cleared, while sound, vibration, cadence and monthly rule stay |
| Reminders.ReminderForm.ShowError | src/components/Reminders.tsx:44 | setting the message changes nothing else |
| Reminders.ReminderForm.Reset | src/components/Reminders.tsx:192-198 | the reset clears exactly the text, date-time, end date, recurring switch, visibility and message |
| ReminderStore.SortBy | App.tsx:139 | definition of the sort as a stable insertion sort over the comparator (characterised by `SortIsTheStableSort`) |
| ReminderStore.InsertPermutes | App.tsx:139 | inserting adds exactly that one element |
| ReminderStore.SortPermutes | App.tsx:139 | sorting is a permutation |
| ReminderStore.InsertSorted | App.tsx:139 | inserting a timed element into a sorted list keeps it sorted |
| ReminderStore.SortSorts | App.tsx:139 | when every time parses, the result is in ascending time order |
| ReminderStore.InsertStable | App.tsx:139 | inserting keeps the order among equal times and puts the new element last among its equals |
| ReminderStore.SortStable | App.tsx:139 | sorting keeps the relative order of elements with the same time |
| ReminderStore.KeyedAtMembers | App.tsx:139 | the elements with time k are exactly the members with that time |
| ReminderStore.SortedUnique | App.tsx:139 | two sorted lists with the same elements, in the same order per time, are equal |
| ReminderStore.SortIsTheStableSort | App.tsx:139 | the sort's result is the only sorted, stable arrangement of the list |
| ReminderStore.SortKeepsSorted | App.tsx:139 | sorting a sorted list changes nothing |
| ReminderStore.AddReminder | App.tsx:137-140 | definition of `handleAddReminder`'s update: the new record with id `now`, appended, then sorted by due time |
| ReminderStore.AddReminderFacts | App.tsx:137-140 | adding grows the list by one, is a permutation of the old list plus the new record, contains it, is sorted when all times parse, keeps equal times in insertion order, and on a sorted list is a plain insertion |
| ReminderStore.Toggle | App.tsx:142-144 | definition of the `map` that flips `completed` on matching ids |
| ReminderStore.ToggleFacts | App.tsx:142-144 | `completed` flips exactly on records with the id and nothing else changes; an unknown id is a no-op; toggling twice is the identity; sortedness is kept |
| ReminderStore.Delete | App.tsx:146-148 | definition of the `filter` keeping records whose id differs |
| ReminderStore.DeleteKeepsOrder | App.tsx:146-148 | the result is the list read at increasing positions, which are exactly those whose id differs |
| ReminderStore.DeleteMembers | App.tsx:147 | a record remains exactly when it was there and its id differs |
| ReminderStore.DeleteSorted | App.tsx:147 | deleting keeps a sorted list sorted, and an absent id changes nothing |
| ReminderStore.DeleteAbsent | App.tsx:147 | deleting an id no record has changes nothing |
| ReminderStore.LastArmed | App.tsx:103-119 | the chosen position, if any, holds an armed reminder with the id |
| ReminderStore.LastArmedIs | App.tsx:103-119 | no armed reminder with the id comes after it |
| ReminderStore.ArmedTimers | App.tsx:99-127 | definition of the id → timer map after the `forEach`, a later entry with the same id replacing an earlier one |
| ReminderStore.ArmedTimersLast | App.tsx:103-119 | an id has a timer exactly when some armed reminder has it, and the timer is the last such reminder's, with delay due − now |
| ReminderStore.ArmedTimersChoice | App.tsx:100-119 | an id has a timer exactly when a reminder with it is not completed and due strictly after now; the entry is the last such reminder's |
| ReminderStore.EffectiveDelay | App.tsx:107-119 | the wait a browser gives `setTimeout(f, delay)`: delays 0..2^31 − 1 are kept, and delays from 2^31 to 2^32 − 1 wait nothing |
| ReminderStore.ToLong | App.tsx:107-118 | the Web IDL `long` conversion of the delay lands in the signed 32-bit range and agrees with the delay modulo 2^32 |
| ReminderStore.FarTimerFiresEarly | App.tsx:107-119 | past 2^31 − 1 ms a timer fires early, and up to 2^32 − 1 ms at once |
| ReminderStore.MonthAheadNotifiesAtOnce | App.tsx:103-119 | a reminder due thirty days after now is armed with 2 592 000 000 ms, which the browser turns into no wait |
| ReminderStore.WakeUps | App.tsx:107-119 | definition of the corrected arming: wait at most the limit and arm again with the rest |
| ReminderStore.WakeUpsOnTime | App.tsx:107-119 | every wait of the corrected arming is within the limit, and together they wait exactly the delay |
| ReminderStore.Fire | App.tsx:107-118 | without "granted" nothing happens; with it, a notification titled "تذكير!" with the text and the vibration pattern, and a sound exactly when the sound key maps to a non-empty source |
| ReminderStore.ReminderApp.constructor | App.tsx:40-51 | the shell starts signed out, with no reminders, no timetables, the sky theme and no timers |
| ReminderStore.ReminderApp.LoadUserData | App.tsx:69-88 | signed in: stored lists and theme, each defaulting to [], [] and sky; signed out: lists cleared, theme kept |
| ReminderStore.ReminderApp.Reschedule | App.tsx:99-127 | the timers are cleared and refilled to exactly the chosen ones, nothing else changes |
| ReminderStore.ReminderApp.HandleAddReminder | App.tsx:137-140 | the list becomes the sorted list with the new record, and the timers follow it |
| ReminderStore.ReminderApp.HandleToggleReminder | App.tsx:142-144 | the list becomes the toggled list, and the timers follow it |
| ReminderStore.ReminderApp.HandleDeleteReminder | App.tsx:146-148 | the list becomes the filtered list, and the timers follow it |
| ReminderStore.ReminderApp.HandleLoginSuccess | App.tsx:69-131 | signing in sets the user and loads that user's data with its defaults; the loaded reminders re-run the scheduling effect, so the timers are exactly those armed from them |
| ReminderStore.ReminderApp.HandleLogout | App.tsx:69-135 | signing out clears the user, reminders and timetables and keeps the theme; the emptied list re-runs the scheduling effect, which clears every timer |
| SchoolSchedule.EmptyGrid | src/components/SchoolSchedule.tsx:11-15 | the template is five days of seven periods |
| SchoolSchedule.ChildSchedule.constructor | src/components/SchoolSchedule.tsx:28-31 | a new child has the given name and a fresh 5×7 grid of empty strings |
| SchoolSchedule.ScheduleReminderTextParts | src/components/SchoolSchedule.tsx:56 | the text starts with the type and ": ", then the subject, and ends with the child's name in parentheses |
| SchoolSchedule.RemoveAtShifts | src/components/SchoolSchedule.tsx:40 | filtering out index i removes exactly that element: those before stay, those after move down one |
| SchoolSchedule.ScheduleEditor.constructor | src/components/SchoolSchedule.tsx:17-23 | the editor starts on child 0, with an empty name, no modal, homework, no date-time and no confirmation |
| SchoolSchedule.ScheduleEditor.AddChild | src/components/SchoolSchedule.tsx:26-36 | a blank name changes nothing; otherwise one child with the trimmed name and a fresh empty grid is appended and selected, the name is cleared, and no grid is shared |
| SchoolSchedule.ScheduleEditor.DeleteChild | src/components/SchoolSchedule.tsx:38-45 | only when confirmed: the selected child is removed, the selection becomes max(0, i − 1) and the confirmation closes |
| SchoolSchedule.ScheduleEditor.SubjectChange | src/components/SchoolSchedule.tsx:47-51 | exactly one cell of the selected child's grid takes the value; every other cell of every grid stays |
| SchoolSchedule.ScheduleEditor.OpenReminderModal | src/components/SchoolSchedule.tsx:120-127 | clicking a cell reads the selected child's subject in it (empty without a child) and opens the modal for it and the day's name when it is not empty; otherwise nothing changes |
| SchoolSchedule.ScheduleEditor.AddReminderFromSchedule | src/components/SchoolSchedule.tsx:53-63 | with a modal and a date-time, a draft "type: subject (child)" with the default sound and vibration is handed over and the modal and date-time are cleared; otherwise nothing happens |
| CalendarView.SelectedExactly | src/components/CalendarConverter.tsx:140-147 | after picking a date, a day is selected exactly when it is that date |
| CalendarView.LeadingBlanks | src/components/CalendarConverter.tsx:186-195 | there are 0 to 6 leading blanks |
| CalendarView.MonthGrid | src/components/CalendarConverter.tsx:182-230 | definition of the month grid: weekday-of-the-1st blanks, then one cell per day with its selection |
| CalendarView.MonthGridLayout | src/components/CalendarConverter.tsx:182-220 | the grid is `weekday(1st)` blanks then days 1..length in order, each in its weekday's column |
| CalendarView.MonthGridSelection | src/components/CalendarConverter.tsx:197-201 | after picking d, exactly d's cell is selected in d's month and none elsewhere |
| CalendarView.WeekStartIsSunday | src/components/CalendarConverter.tsx:234-237 | the week starts on the Sunday on or before the shown date, at most six days earlier |
| CalendarView.DaysAfterSunday | src/components/CalendarConverter.tsx:240-242 | day i of the strip is i days after that Sunday and has weekday i |
| CalendarView.WeekStrip | src/components/CalendarConverter.tsx:232-273 | definition of the week strip: the seven days from the Sunday on or before the date, each with its selection |
| CalendarView.WeekStripLayout | src/components/CalendarConverter.tsx:232-267 | the strip is seven consecutive days from Sunday to Saturday containing the shown date, across month and year ends |
| CalendarView.WeekStripSelection | src/components/CalendarConverter.tsx:248-251 | after picking d, a strip day is selected exactly when it is d |
| CalendarView.WeekNavigation | src/components/CalendarConverter.tsx:155-159 | moving by `offset` weeks moves exactly 7·offset days, keeps the weekday and moves the strip by 7·offset days |
| CalendarView.MonthNavigationReturns | src/components/CalendarConverter.tsx:149-153 | for days up to the 28th, k months on and k months back returns to the same date |
| CalendarView.SetDateOf | src/components/CalendarConverter.tsx:237 | `setDate(n)` on a copy is the date n − day days on |
| CalendarView.CalendarConverter.constructor | src/components/CalendarConverter.tsx:59-93 | once mounted, the calendar shows today in month view, the Gregorian inputs hold today's unpadded year, month and day (so exactly today's cell is selected and the inputs are filled), the Hijri inputs are empty and the conversions idle |
| CalendarView.CalendarConverter.RenderMonthView | src/components/CalendarConverter.tsx:182-230 | the two loops build exactly the month grid of the shown month |
| CalendarView.CalendarConverter.RenderWeekView | src/components/CalendarConverter.tsx:232-273 | the loop builds exactly the week strip of the shown date |
| CalendarView.CalendarConverter.HandleDateSelect | src/components/CalendarConverter.tsx:140-147 | picking writes the unpadded year, month and day into the inputs and shows that date |
| CalendarView.CalendarConverter.ChangeDisplayMonth | src/components/CalendarConverter.tsx:149-153 | the shown date becomes `setMonth(getMonth() + offset)` of it, nothing else changes |
| CalendarView.CalendarConverter.ChangeDisplayWeek | src/components/CalendarConverter.tsx:155-159 | the shown date moves exactly 7·offset days, nothing else changes |
| CalendarView.CalendarConverter.Navigate | src/components/CalendarConverter.tsx:165-173 | the arrows move by months in month view and by weeks in week view |
| CalendarView.CalendarConverter.HandleG2HConvert | src/components/CalendarConverter.tsx:106-111 | a request goes out only when year, month and day are all filled; then loading starts and the old error and result are cleared |
| CalendarView.CalendarConverter.HandleH2GConvert | src/components/CalendarConverter.tsx:122-127 | the same guard and reset for the Hijri-to-Gregorian form |
| Auth.ErrorMessage | src/components/Auth.tsx:18-35 | every failure shows a non-empty message |
| Auth.Submit | src/components/Auth.tsx:14-42 | definition of `handleSubmit`'s decision with the own-entry lookup: both fields required, then login or registration |
| Auth.Login | src/components/Auth.tsx:25-31 | definition of the login branch: a truthy entry equal to the password |
| Auth.Register | src/components/Auth.tsx:33-40 | definition of the registration branch: refuse a truthy entry, else add it and sign in |
| Auth.SubmitMissing | src/components/Auth.tsx:18-21 | the "fill in both fields" failure happens exactly when a field is empty |
| Auth.LoginIff | src/components/Auth.tsx:25-31 | login succeeds exactly when both fields are filled and the stored password of the name is the one given, and it leaves the store alone |
| Auth.RegisterFacts | src/components/Auth.tsx:33-40 | registration is refused exactly for a name with a stored password; otherwise exactly that entry is added, the others are unchanged, and the user is signed in |
| Auth.RegisterThenLogin | src/components/Auth.tsx:27-39 | after a successful registration, logging in with the same name and password succeeds |
| Auth.SubmitAsWritten | src/components/Auth.tsx:23-35 | definition of `handleSubmit` with `users[username]` as written, through `Object.prototype` |
| Auth.InheritedNameLockedOut | src/components/Auth.tsx:27-35 | as written, an unregistered name such as `constructor` is refused as taken and can never log in; the own-entry reading registers it |
| Auth.AsWrittenAgreesElsewhere | src/components/Auth.tsx:23-35 | for every other name, the as-written lookup and the own-entry lookup decide alike |
| Auth.AuthForm.constructor | src/components/Auth.tsx:9-12 | the form starts in login view with empty fields and no message |
| Auth.AuthForm.HandleSubmit | src/components/Auth.tsx:14-42 | the message is cleared first; a failure sets its message and leaves the store; a success signs the user in and stores the resulting map |
| Auth.AuthForm.ToggleView | src/components/Auth.tsx:88-91 | login and registration swap and the message is cleared |

## Left out

- Time zones and daylight saving time are not modelled. Every `Date` is read in one zone
  whose local day equals the typed day, so a date-only end date (parsed by engines as UTC
  midnight) lands on the typed day.
- Only the `datetime-local` shape `YYYY-MM-DDTHH:mm` and the `date` shape `YYYY-MM-DD`
  read as dates. Every other string the `Date` constructor accepts is treated as
  unreadable, so it takes the "invalid date" path.
- Calendar.FormatParseRoundTrip: stated for four-digit years only, because the template
  prints the year unpadded.
- Calendar.FormatDateTimeOrder: stated for four-digit years only, for the same reason.
- The `Intl` formatting of dates, month names and weekday names is not modelled. It is
  display only. This includes `formatDate` in src/components/Reminders.tsx:201-207.
- Storage is not modelled. The stored data is a parameter of `LoadUserData` and
  `HandleLoginSuccess`, and the save effect (App.tsx:91-96) and the `currentUser` entry
  are left out.
- `setTimeout`, `clearTimeout`, `Audio` and `Notification` are not executed. They are
  modelled as the values `Timer` and `FireEffect`; the wait a browser gives a delay is
  `EffectiveDelay` (see Findings). The permission request in
  src/components/Reminders.tsx:35-39 is left out.
- ReminderStore.ReminderApp.Reschedule: `timers` is the `timeoutIds` map. When two armed
  reminders share an id, the source overwrites the map entry without clearing the earlier
  timeout, so both notify; the model tracks only the map.
- Calendar.MakeDateInMonth: takes the year as it is. For years 0..99 the constructor
  `new Date(y, m, d)` lands in 1900 + y instead (`Calendar.NewDate`,
  `Calendar.NewDateTwoDigitYears`), which this lemma does not follow. The same holds for
  the grid built from it in `CalendarView.CalendarConverter.RenderMonthView` and for
  `Calendar.DaysInMonthIdiom`.
- Recurrence.WeekdayOfFirst: reads the weekday of the 1st in the occurrence's own year.
  For years 0..99 the source reads it in 1900 + year (`Calendar.NewDateTwoDigitExamples`).
  As written, every such occurrence is before 1970 and the filter at
  src/components/Reminders.tsx:132 drops it, so the as-written output does not change.
- Recurrence.LastDayOfMonth: the month length of the occurrence's own year. For year 0
  the source reads February of 1900, 28 days instead of 29.
- Recurrence.RoundTarget: inherits the years-0..99 reading of the two lines above, and so
  do `Recurrence.MonthlyRound` and `Recurrence.MonthlyOccurrences`. The model computes
  the target in the occurrence's own year, which is what the source intends.
- The conversion requests to the external AI service and their completion (result, error,
  loading off) are not modelled, because they are foreign calls. The same holds for the
  fetch of today's Hijri date and for the clipboard copy.
- The `isToday` highlight is left out: it reads the clock and is display only.
- `parseInt` of the conversion inputs is not modelled; only the emptiness guard is.
- ThemeSwitcher, BottomNav, the service worker and the older `components/` variants are
  not part of this model. They are UI, caching and AI forwarding.
- The batch add is not modelled. `App.tsx:137` adds one reminder, while the form hands
  over an array for recurring reminders; no shown handler assigns ids to a batch.
- ReminderStore.SortBy: for lists holding a date-time that does not parse, the order the
  engine's sort produces is implementation-defined, because the comparator returns NaN.
  For such lists the model's insertion sort is claimed to be a stable permutation and
  nothing more.
- ReminderStore.AddReminderFacts: sortedness of the result is stated only when every
  date-time parses, for the reason above.
- Reminders.Submit: the monthly rule's day (1..31), rank (1..5) and weekday (0..6) are a
  precondition (`ValidRule`), because the form's selectors offer only those values.
- A timetable is one 5×7 array per child, indexed by the position of the day in the
  `days` list, instead of five arrays keyed by the Arabic day name. As a result, aliasing
  is tracked per child grid, not per day row.
- The timetable list belongs to the app shell and is passed down with its setter. The
  editor keeps it as its own field.
- Reminder ids and group ids come from `Date.now()`; they are a parameter `now`. Id
  collisions are not modelled.
- Auth.AuthForm: the users map is read from storage on every submit. The model keeps it
  in the form, written on registration and initialised from storage.
- Auth.AuthForm.HandleSubmit: `onLoginSuccess` is modelled as the returned username.

## Findings

| source | as written | input that shows it | evidently intended | confidence | as-written member | corrected member |
|---|---|---|---|---|---|---|
| src/components/Reminders.tsx:132 | the filter `targetDate.getTime() > 0`, meant to drop the `new Date(0)` skip sentinel, drops every monthly occurrence at or before 1970-01-01T00:00 | "the 1st of every month" from 1969-12-01T09:00 to 1969-12-31: the start is an occurrence but is not emitted, while a weekly reminder over the same range keeps it | emit every rule-satisfying occurrence in range (the sentinel branch is unreachable anyway) | low, not executed | Recurrence.EpochFilterDropsOccurrence | Recurrence.MonthlyAsWrittenDropsEarly |
| src/components/Auth.tsx:27-34 | `users[username]` on a parsed plain object also finds names inherited from `Object.prototype` | registering `constructor` with any password is refused as "already registered", and logging in as `constructor` always fails | look up only the users' own entries, so any unregistered name can register and then log in | medium, not executed | Auth.InheritedNameLockedOut | Auth.RegisterThenLogin |
| App.tsx:107-118 | `setTimeout(…, delay)` gets the plain millisecond difference, but browsers read the delay as a signed 32-bit `long`, and a negative result waits nothing | a reminder for 2024-01-31T09:00 armed at 2024-01-01T09:00 has delay 2 592 000 000 > 2^31 − 1, and notifies at once instead of in thirty days | every reminder notifies at its due time, e.g. by waiting at most 2^31 − 1 ms and arming again with the rest | high, not executed | ReminderStore.MonthAheadNotifiesAtOnce | ReminderStore.WakeUpsOnTime |
