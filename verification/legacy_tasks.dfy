/**
 * The tasks of the first version, in the root package: no priority, and a
 * data line of three header fields (kind, done bit, description) followed by
 * the ISO dates of a deadline or an event.
 */
module LegacyTasks {
  import opened Results
  import opened Errors
  import opened Text
  import opened DateTimes
  import Tasks

  datatype OldTask =
    | OldTodo(description: string, done: bool)
    | OldDeadline(description: string, done: bool, due: LocalDateTime)
    | OldEvent(description: string, done: bool, start: LocalDateTime, end: LocalDateTime)

  /** `new Todo(description)`: a fresh task is never done. */
  function NewOldTodo(description: string): (t: OldTask)
    ensures t.OldTodo? && !t.done && t.description == description
  {
    OldTodo(description, false)
  }

  /**
   * `new Deadline(description, byString)`: the trimmed text in the
   * "yyyy-MM-dd HHmm" pattern, or the deadline date error.
   */
  function NewOldDeadline(description: string, byText: string): (r: Result<OldTask, Error>)
    ensures r.Ok? <==> ParseInput(Trim(byText)).Some?
    ensures r.Err? ==> r.error == DeadlineDateFormat
    ensures r.Ok? ==> r.value.OldDeadline? && !r.value.done && r.value.description == description
    ensures r.Ok? ==> Some(r.value.due) == ParseInput(Trim(byText))
  {
    match ParseInput(Trim(byText))
    case None => Err(DeadlineDateFormat)
    case Some(due) => Ok(OldDeadline(description, false, due))
  }

  /**
   * `new Event(description, fromString, toString)`: both trimmed texts in the
   * "yyyy-MM-dd HHmm" pattern; either failing is the one event date error.
   */
  function NewOldEvent(description: string, fromText: string, toText: string): (r: Result<OldTask, Error>)
    ensures r.Ok? <==> ParseInput(Trim(fromText)).Some? && ParseInput(Trim(toText)).Some?
    ensures r.Err? ==> r.error == EventDateFormat
    ensures r.Ok? ==> r.value.OldEvent? && !r.value.done && r.value.description == description
    ensures r.Ok? ==> Some(r.value.start) == ParseInput(Trim(fromText)) && Some(r.value.end) == ParseInput(Trim(toText))
  {
    match ParseInput(Trim(fromText))
    case None => Err(EventDateFormat)
    case Some(start) =>
      match ParseInput(Trim(toText))
      case None => Err(EventDateFormat)
      case Some(end) => Ok(OldEvent(description, false, start, end))
  }

  /** A date typed in the user pattern, with spaces around it, gives a deadline on that date. */
  lemma NewOldDeadlineAccepts(description: string, due: LocalDateTime)
    requires due.year >= 1
    ensures NewOldDeadline(description, " " + FormatInput(due) + " ") == Ok(OldDeadline(description, false, due))
  {
    InputRoundTrip(due);
    TrimPadded(FormatInput(due));
  }

  function MarkOld(t: OldTask): (r: OldTask)
    ensures r.done && r.(done := false) == t.(done := false)
  {
    t.(done := true)
  }

  function UnmarkOld(t: OldTask): (r: OldTask)
    ensures !r.done && r.(done := false) == t.(done := false)
  {
    t.(done := false)
  }

  function OldDoneBit(t: OldTask): string
  {
    if t.done then "1" else "0"
  }

  /**
   * The fields `toFileString()` writes for a deadline (four) or an event
   * (five). The first version's to-do class is not part of this model, so its
   * line is not defined here.
   */
  function OldFileFields(t: OldTask): (r: seq<string>)
    requires !t.OldTodo?
    ensures |r| == (if t.OldDeadline? then 4 else 5)
    ensures r[0] == (if t.OldDeadline? then "D" else "E") && r[1] == OldDoneBit(t) && r[2] == t.description
  {
    match t
    case OldDeadline(description, _, due) => ["D", OldDoneBit(t), description, RenderIso(due)]
    case OldEvent(description, _, start, end) => ["E", OldDoneBit(t), description, RenderIso(start), RenderIso(end)]
  }

  /** `toFileString()`: the fields joined by " | ". */
  function OldFileString(t: OldTask): string
    requires !t.OldTodo?
  {
    Join(OldFileFields(t), Tasks.Separator)
  }

  /** The deadline line: "D | <bit> | <description> | <ISO due>", with no priority field. */
  lemma OldDeadlineFileString(description: string, done: bool, due: LocalDateTime)
    ensures OldFileString(OldDeadline(description, done, due))
         == "D | " + (if done then "1" else "0") + " | " + description + " | " + RenderIso(due)
  {
    var t := OldDeadline(description, done, due);
    var bit, iso := OldDoneBit(t), RenderIso(due);
    assert OldFileFields(t) == ["D", bit, description, iso];
    JoinFour("D", bit, description, iso, Tasks.Separator);
    assert "D" + " | " == "D | ";
  }

  /** The event line: "E | <bit> | <description> | <ISO start> | <ISO end>". */
  lemma OldEventFileString(description: string, done: bool, start: LocalDateTime, end: LocalDateTime)
    ensures OldFileString(OldEvent(description, done, start, end))
         == "E | " + (if done then "1" else "0") + " | " + description + " | " + RenderIso(start) + " | " + RenderIso(end)
  {
    var t := OldEvent(description, done, start, end);
    var bit, s, e := OldDoneBit(t), RenderIso(start), RenderIso(end);
    assert OldFileFields(t) == ["E", bit, description, s, e];
    JoinFive("E", bit, description, s, e, Tasks.Separator);
    assert "E" + " | " == "E | ";
  }
}
