/** The per-child timetables of src/components/SchoolSchedule.tsx: adding and deleting a
    child, editing one period of one day, and turning a timetable entry into a reminder. */
module SchoolSchedule {
  import opened Wrappers
  import opened Text
  import opened ReminderTypes

  /** Sunday to Thursday, in the order of the `days` list and of `initialSchedule`. */
  const DayNames: seq<string> := ["الأحد", "الاثنين", "الثلاثاء", "الأربعاء", "الخميس"]
  const DayCount: int := 5
  const PeriodCount: int := 7

  /** The sound and vibration keys a timetable reminder gets. */
  const DefaultTone: string := "افتراضي"

  /** The grid of `initialSchedule`: five days of seven empty periods. */
  function EmptyGrid(): (g: seq<seq<string>>)
    ensures |g| == DayCount && forall d :: 0 <= d < |g| ==> |g[d]| == PeriodCount
  {
    seq(DayCount, _ => seq(PeriodCount, _ => ""))
  }

  /** A grid's contents, day by day. */
  function Contents(grid: array2<string>): seq<seq<string>>
    reads grid
  {
    seq(grid.Length0, d requires 0 <= d < grid.Length0 reads grid =>
      seq(grid.Length1, p requires 0 <= p < grid.Length1 reads grid => grid[d, p]))
  }

  /** One child's timetable: `grid[d, p]` is the subject in period `p` of day `d`. */
  class ChildSchedule {
    const name: string
    const grid: array2<string>

    /** `{ name, schedule: JSON.parse(JSON.stringify(initialSchedule)) }`: a deep copy of
        the empty template, so the new grid is a fresh array. */
    constructor(name: string)
      ensures this.name == name && fresh(grid)
      ensures grid.Length0 == DayCount && grid.Length1 == PeriodCount
      ensures Contents(grid) == EmptyGrid()
    {
      var g := new string[DayCount, PeriodCount]((d, p) => "");
      forall d | 0 <= d < DayCount
        ensures Contents(g)[d] == EmptyGrid()[d]
      {
      }
      this.name := name;
      grid := g;
    }
  }

  /** The two reminder types of the modal's selector. */
  datatype ReminderKind = Homework | Test

  function KindLabel(kind: ReminderKind): string {
    match kind
    case Homework => "واجب"
    case Test => "اختبار"
  }

  /** The entry whose reminder modal is open. */
  datatype ModalInfo = ModalInfo(subject: string, day: string)

  /** The reminder text `${type}: ${subject} (${childName})`. */
  function ScheduleReminderText(kind: ReminderKind, subject: string, childName: string): string {
    KindLabel(kind) + ": " + subject + " (" + childName + ")"
  }

  /** The text names its type, subject and child: it starts with the type's label and
      `: `, and it ends with the child's name in parentheses, with the subject between. */
  lemma ScheduleReminderTextParts(kind: ReminderKind, subject: string, childName: string)
    ensures var text := ScheduleReminderText(kind, subject, childName);
      var head := KindLabel(kind) + ": ";
      && |text| == |head| + |subject| + |childName| + 3
      && text[..|head|] == head
      && text[|head|..|head| + |subject|] == subject
      && text[|text| - |childName| - 1..|text| - 1] == childName
      && text[|text| - 1] == ')'
  {
    var head := KindLabel(kind) + ": ";
    var text := ScheduleReminderText(kind, subject, childName);
    assert text == head + subject + " (" + childName + ")";
  }

  /** Removes the element at index `i`, as `filter((_, index) => index !== i)` does; an
      index outside the list removes nothing. */
  function RemoveAt<T>(s: seq<T>, i: int): (r: seq<T>)
  {
    if 0 <= i < |s| then s[..i] + s[i + 1..] else s
  }

  /** Removing at a valid index drops exactly that element and keeps the others in order:
      those before it stay in place and those after it move down by one. */
  lemma RemoveAtShifts<T>(s: seq<T>, i: int)
    requires 0 <= i < |s|
    ensures |RemoveAt(s, i)| == |s| - 1
    ensures forall k :: 0 <= k < i ==> RemoveAt(s, i)[k] == s[k]
    ensures forall k :: i <= k < |s| - 1 ==> RemoveAt(s, i)[k] == s[k + 1]
    ensures multiset(RemoveAt(s, i)) + multiset{s[i]} == multiset(s)
  {
    assert s == s[..i] + [s[i]] + s[i + 1..];
  }

  /** The component's state: the children's timetables, the selected child, the add form,
      the reminder modal and the delete confirmation. */
  class ScheduleEditor {
    var schedules: seq<ChildSchedule>
    var selectedChildIndex: int
    var newChildName: string
    var modalInfo: Option<ModalInfo>
    var reminderType: ReminderKind
    var reminderDateTime: string
    var showDeleteConfirm: bool

    /** Every timetable is five days of seven periods and no two children share a grid. */
    predicate Valid()
      reads this
    {
      && (forall i :: 0 <= i < |schedules| ==>
            schedules[i].grid.Length0 == DayCount && schedules[i].grid.Length1 == PeriodCount)
      && (forall i, j :: 0 <= i < j < |schedules| ==> schedules[i].grid != schedules[j].grid)
    }

    /** Every child's timetable contents. */
    function Grids(): seq<seq<seq<string>>>
      reads this, set i | 0 <= i < |schedules| :: schedules[i].grid
    {
      seq(|schedules|, i requires 0 <= i < |schedules| reads this, set j | 0 <= j < |schedules| :: schedules[j].grid => Contents(schedules[i].grid))
    }

    function Names(): seq<string>
      reads this
    {
      seq(|schedules|, i requires 0 <= i < |schedules| reads this => schedules[i].name)
    }

    constructor(schedules: seq<ChildSchedule>)
      requires forall i :: 0 <= i < |schedules| ==>
        schedules[i].grid.Length0 == DayCount && schedules[i].grid.Length1 == PeriodCount
      requires forall i, j :: 0 <= i < j < |schedules| ==> schedules[i].grid != schedules[j].grid
      ensures Valid() && this.schedules == schedules && selectedChildIndex == 0
      ensures newChildName == "" && modalInfo == None && reminderType == Homework
      ensures reminderDateTime == "" && !showDeleteConfirm
    {
      this.schedules := schedules;
      selectedChildIndex := 0;
      newChildName := "";
      modalInfo := None;
      reminderType := Homework;
      reminderDateTime := "";
      showDeleteConfirm := false;
    }

    /** `handleAddChild`: a name that is blank after trimming changes nothing; otherwise
        one child with the trimmed name and a fresh empty grid is appended, selected, and
        the name field is cleared. No existing grid changes. */
    method AddChild()
      requires Valid()
      modifies this
      ensures Valid()
      ensures Trim(old(newChildName)) == [] ==>
        schedules == old(schedules) && selectedChildIndex == old(selectedChildIndex) &&
        newChildName == old(newChildName)
      ensures Trim(old(newChildName)) != [] ==>
        && |schedules| == |old(schedules)| + 1 && schedules[..|old(schedules)|] == old(schedules)
        && schedules[|schedules| - 1].name == Trim(old(newChildName))
        && fresh(schedules[|schedules| - 1].grid)
        && Contents(schedules[|schedules| - 1].grid) == EmptyGrid()
        && selectedChildIndex == |schedules| - 1 && newChildName == ""
      ensures modalInfo == old(modalInfo) && reminderType == old(reminderType)
      ensures reminderDateTime == old(reminderDateTime) && showDeleteConfirm == old(showDeleteConfirm)
    {
      var name := Trim(newChildName);
      if name == [] {
        return;
      }
      var child := new ChildSchedule(name);
      schedules := schedules + [child];
      selectedChildIndex := |schedules| - 1;
      newChildName := "";
    }

    /** `handleDeleteChild`: only once the deletion is confirmed, removes the selected
        child, moves the selection to the previous one (or the first) and closes the
        confirmation. */
    method DeleteChild()
      requires Valid()
      modifies this
      ensures Valid()
      ensures !old(showDeleteConfirm) ==>
        schedules == old(schedules) && selectedChildIndex == old(selectedChildIndex) && !showDeleteConfirm
      ensures old(showDeleteConfirm) ==>
        && schedules == RemoveAt(old(schedules), old(selectedChildIndex))
        && selectedChildIndex == (if old(selectedChildIndex) - 1 > 0 then old(selectedChildIndex) - 1 else 0)
        && !showDeleteConfirm
      ensures newChildName == old(newChildName) && modalInfo == old(modalInfo)
      ensures reminderType == old(reminderType) && reminderDateTime == old(reminderDateTime)
    {
      if showDeleteConfirm {
        var i := selectedChildIndex;
        if 0 <= i < |schedules| {
          RemoveAtShifts(schedules, i);
        }
        schedules := RemoveAt(schedules, i);
        selectedChildIndex := if i - 1 > 0 then i - 1 else 0;
        showDeleteConfirm := false;
      }
    }

    /** `handleSubjectChange`: writes one period of one day of the selected child's grid in
        place; every other cell of every grid, and the list itself, stay as they were. */
    method SubjectChange(day: int, period: int, value: string)
      requires Valid() && 0 <= selectedChildIndex < |schedules|
      requires 0 <= day < DayCount && 0 <= period < PeriodCount
      modifies schedules[selectedChildIndex].grid
      ensures Valid() && schedules == old(schedules)
      ensures Grids() == old(Grids())[selectedChildIndex :=
        old(Grids())[selectedChildIndex][day := old(Grids())[selectedChildIndex][day][period := value]]]
    {
      var grid := schedules[selectedChildIndex].grid;
      grid[day, period] := value;
      forall i | 0 <= i < |schedules|
        ensures Grids()[i] == old(Grids())[selectedChildIndex :=
          old(Grids())[selectedChildIndex][day := old(Grids())[selectedChildIndex][day][period := value]]][i]
      {
        if i != selectedChildIndex {
          assert schedules[i].grid != grid;
        } else {
          forall d | 0 <= d < DayCount
            ensures Grids()[i][d] == old(Grids())[i][day := old(Grids())[i][day][period := value]][d]
          {
          }
        }
      }
    }

    /** The click handler of the cell for period `period` of day `day`: the cell shows the
        selected child's subject there (empty when no child is selected), and a non-empty
        subject opens the reminder modal for it and the day's name. */
    method OpenReminderModal(day: int, period: int)
      requires Valid() && 0 <= day < DayCount && 0 <= period < PeriodCount
      modifies this
      ensures Valid() && schedules == old(schedules) && selectedChildIndex == old(selectedChildIndex)
      ensures reminderDateTime == old(reminderDateTime) && showDeleteConfirm == old(showDeleteConfirm)
      ensures var shown := if 0 <= selectedChildIndex < |schedules| then schedules[selectedChildIndex].grid[day, period] else "";
        modalInfo == if shown != "" then Some(ModalInfo(shown, DayNames[day])) else old(modalInfo)
    {
      var subject := "";
      if 0 <= selectedChildIndex < |schedules| {
        subject := schedules[selectedChildIndex].grid[day, period];
      }
      if subject != "" {
        modalInfo := Some(ModalInfo(subject, DayNames[day]));
      }
    }

    /** `handleAddReminderFromSchedule`: with the modal open and a date-time chosen, hands
        over a reminder named after the type, the subject and the selected child, with the
        default sound and vibration, then closes the modal and clears the date-time;
        otherwise does nothing. */
    method AddReminderFromSchedule() returns (draft: Option<Draft>)
      requires modalInfo.Some? && reminderDateTime != "" ==> 0 <= selectedChildIndex < |schedules|
      modifies this
      ensures schedules == old(schedules) && selectedChildIndex == old(selectedChildIndex)
      ensures reminderType == old(reminderType) && showDeleteConfirm == old(showDeleteConfirm)
      ensures old(modalInfo).None? || old(reminderDateTime) == "" ==>
        draft == None && modalInfo == old(modalInfo) && reminderDateTime == old(reminderDateTime)
      ensures old(modalInfo).Some? && old(reminderDateTime) != "" ==>
        && draft == Some(Draft(
             ScheduleReminderText(reminderType, old(modalInfo).value.subject, schedules[selectedChildIndex].name),
             old(reminderDateTime), DefaultTone, DefaultTone, None))
        && modalInfo == None && reminderDateTime == ""
    {
      if modalInfo.None? || reminderDateTime == "" {
        return None;
      }
      var text := ScheduleReminderText(reminderType, modalInfo.value.subject, schedules[selectedChildIndex].name);
      draft := Some(Draft(text, reminderDateTime, DefaultTone, DefaultTone, None));
      modalInfo := None;
      reminderDateTime := "";
    }
  }
}
