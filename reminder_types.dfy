/** The reminder records of src/types.ts. */
module ReminderTypes {
  import opened Wrappers

  /** A reminder as a form hands it over, before the store gives it an `id` and a
      `completed` flag (`Omit<Reminder, 'id' | 'completed'>`). `groupId` is set on every
      instance of one recurring expansion and absent on a single reminder. */
  datatype Draft = Draft(text: string, dateTime: string, sound: string, vibration: string,
                         groupId: Option<int>)

  /** A stored reminder. `dateTime` is a `YYYY-MM-DDTHH:mm` local date-time string. */
  datatype Reminder = Reminder(id: int, text: string, dateTime: string, sound: string,
                               vibration: string, completed: bool, groupId: Option<int>)

  /** One thing the reminder form submits: a single draft or the drafts of one expansion. */
  datatype Submission = Single(draft: Draft) | Batch(drafts: seq<Draft>)
}
