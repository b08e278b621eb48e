/**
 * The task domain model of the `monet` package: the `Priority` enum and the
 * `Task` class hierarchy (`Todo`, `Deadline`, `Event`) as one tagged union
 * whose variants share the base fields description, done flag and priority.
 */
module Tasks {
  import opened Results
  import opened Errors
  import opened Text
  import opened DateTimes

  /** The enum constants, in declaration order. */
  datatype Priority = High | Medium | Low

  /** `Priority.values()`. */
  const AllPriorities: seq<Priority> := [High, Medium, Low]

  /** The documented numbering 1 = HIGH, 2 = MEDIUM, 3 = LOW. */
  function Level(p: Priority): int
  {
    match p
    case High => 1
    case Medium => 2
    case Low => 3
  }

  /** `Priority.of(level)`: 1 and 3 pick HIGH and LOW; every other integer falls back to MEDIUM. */
  function PriorityOf(level: int): (p: Priority)
    ensures p == High <==> level == 1
    ensures p == Low <==> level == 3
    ensures p == Medium <==> level != 1 && level != 3
  {
    if level == 1 then High
    else if level == 3 then Low
    else Medium
  }

  /** `of` inverts the documented numbering. */
  lemma PriorityOfLevel(p: Priority)
    ensures PriorityOf(Level(p)) == p
    ensures 1 <= Level(p) <= 3
  {
  }

  /** `Enum.name()`. */
  function PriorityName(p: Priority): string
  {
    match p
    case High => "HIGH"
    case Medium => "MEDIUM"
    case Low => "LOW"
  }

  /** `Priority.valueOf(name)`: exact, case-sensitive name match; anything else throws. */
  function PriorityValueOf(name: string): (r: Option<Priority>)
    ensures r.Some? ==> PriorityName(r.value) == name
    ensures r.None? ==> forall p :: PriorityName(p) != name
  {
    if name == "HIGH" then Some(High)
    else if name == "MEDIUM" then Some(Medium)
    else if name == "LOW" then Some(Low)
    else None
  }

  /** Every level is listed once, in the order HIGH, MEDIUM, LOW, and its stored name reads back as itself. */
  lemma PriorityNamesRoundTrip(p: Priority)
    ensures PriorityValueOf(PriorityName(p)) == Some(p)
    ensures p in AllPriorities && |AllPriorities| == 3
    ensures AllPriorities[Level(p) - 1] == p
  {
  }

  datatype Task =
    | Todo(description: string, done: bool, priority: Priority)
    | Deadline(description: string, done: bool, priority: Priority, due: LocalDateTime)
    | Event(description: string, done: bool, priority: Priority, start: LocalDateTime, end: LocalDateTime)

  /** The two tasks agree on everything except possibly the done flag. */
  predicate SameExceptDone(a: Task, b: Task)
  {
    a.(done := false) == b.(done := false)
  }

  /** `new Todo(description, priority)`: a fresh task is never done. */
  function NewTodo(description: string, priority: Priority): (t: Task)
    ensures t.Todo? && !t.done
    ensures t.description == description && t.priority == priority
  {
    Todo(description, false, priority)
  }

  /**
   * `new Deadline(description, byString, priority)`: the date text is trimmed and
   * read with the "yyyy-MM-dd HHmm" pattern; a malformed date yields the deadline
   * date error and no task.
   */
  function NewDeadline(description: string, byText: string, priority: Priority): (r: Result<Task, Error>)
    ensures r.Ok? <==> ParseInput(Trim(byText)).Some?
    ensures r.Err? ==> r.error == DeadlineDateFormat
    ensures r.Ok? ==> r.value.Deadline? && !r.value.done
    ensures r.Ok? ==> r.value.description == description && r.value.priority == priority
    ensures r.Ok? ==> Some(r.value.due) == ParseInput(Trim(byText))
  {
    match ParseInput(Trim(byText))
    case None => Err(DeadlineDateFormat)
    case Some(due) => Ok(Deadline(description, false, priority, due))
  }

  /**
   * `new Event(description, fromString, toString, priority)`: both date texts are
   * trimmed and read with "yyyy-MM-dd HHmm"; either failing yields the single
   * event date error. The two instants are not compared.
   */
  function NewEvent(description: string, fromText: string, toText: string, priority: Priority): (r: Result<Task, Error>)
    ensures r.Ok? <==> ParseInput(Trim(fromText)).Some? && ParseInput(Trim(toText)).Some?
    ensures r.Err? ==> r.error == EventDateFormat
    ensures r.Ok? ==> r.value.Event? && !r.value.done
    ensures r.Ok? ==> r.value.description == description && r.value.priority == priority
    ensures r.Ok? ==> Some(r.value.start) == ParseInput(Trim(fromText)) && Some(r.value.end) == ParseInput(Trim(toText))
  {
    match ParseInput(Trim(fromText))
    case None => Err(EventDateFormat)
    case Some(start) =>
      match ParseInput(Trim(toText))
      case None => Err(EventDateFormat)
      case Some(end) => Ok(Event(description, false, priority, start, end))
  }

  /** A date typed in the user pattern, even with spaces around it, is accepted as that date. */
  lemma NewDeadlineAccepts(description: string, due: LocalDateTime, priority: Priority)
    requires due.year >= 1
    ensures NewDeadline(description, " " + FormatInput(due) + " ", priority) == Ok(Deadline(description, false, priority, due))
  {
    InputRoundTrip(due);
    TrimPadded(FormatInput(due));
  }

  /** Any two well-formed dates make an event, in either order: `from` after `to` is not refused. */
  lemma NewEventIgnoresOrder(description: string, a: LocalDateTime, b: LocalDateTime, priority: Priority)
    requires a.year >= 1 && b.year >= 1
    ensures NewEvent(description, FormatInput(a), FormatInput(b), priority) == Ok(Event(description, false, priority, a, b))
    ensures NewEvent(description, FormatInput(b), FormatInput(a), priority) == Ok(Event(description, false, priority, b, a))
  {
    InputRoundTrip(a);
    InputRoundTrip(b);
    assert Trim(FormatInput(a)) == FormatInput(a) by { FormatInputEnds(a); }
    assert Trim(FormatInput(b)) == FormatInput(b) by { FormatInputEnds(b); }
  }

  lemma FormatInputEnds(dt: LocalDateTime)
    ensures !IsTrimmable(FormatInput(dt)[0]) && !IsTrimmable(FormatInput(dt)[14])
  {
    var s := FormatInput(dt);
    assert s[0] == Numbers.Pad(dt.year, 4)[0];
    assert s[14] == Numbers.Pad(dt.minute, 2)[1];
  }

  /** `markAsDone()`. */
  function MarkAsDone(t: Task): (r: Task)
    ensures r.done && SameExceptDone(r, t)
  {
    t.(done := true)
  }

  /** `unmarkAsDone()`. */
  function UnmarkAsDone(t: Task): (r: Task)
    ensures !r.done && SameExceptDone(r, t)
  {
    t.(done := false)
  }

  /** Marking and unmarking are idempotent and undo each other. */
  lemma MarkUnmarkLaws(t: Task)
    ensures MarkAsDone(MarkAsDone(t)) == MarkAsDone(t)
    ensures UnmarkAsDone(UnmarkAsDone(t)) == UnmarkAsDone(t)
    ensures !t.done ==> UnmarkAsDone(MarkAsDone(t)) == t
    ensures t.done ==> MarkAsDone(UnmarkAsDone(t)) == t
  {
  }

  /** `getStatusIcon()`. */
  function StatusIcon(t: Task): (r: string)
    ensures r == "X" <==> t.done
    ensures r == " " <==> !t.done
  {
    if t.done then "X" else " "
  }

  /** `Task.toString()`: the status box followed by the description. */
  function BaseString(t: Task): string
  {
    "[" + StatusIcon(t) + "] " + t.description
  }

  /** The variant marker each subclass puts in front of the base string. */
  function KindTag(t: Task): string
  {
    match t
    case Todo(_, _, _) => "T"
    case Deadline(_, _, _, _) => "D"
    case Event(_, _, _, _, _) => "E"
  }

  /**
   * The subclasses' `toString()`. The date display pattern "MMM dd yyyy, h:mm a"
   * is locale-dependent and is passed in as `show`.
   */
  function Display(t: Task, show: LocalDateTime -> string): (r: string)
    ensures t.Todo? ==> r == "[T][" + StatusIcon(t) + "] " + t.description
    ensures t.Deadline? ==> r == "[D][" + StatusIcon(t) + "] " + t.description + " (by: " + show(t.due) + ")"
    ensures t.Event? ==>
              r == "[E][" + StatusIcon(t) + "] " + t.description + " (from: " + show(t.start) + " to: " + show(t.end) + ")"
  {
    BoxesText(t);
    Boxes(t) + Dates(t, show)
  }

  /** The kind box and the status box open the text, then the description follows. */
  lemma BoxesText(t: Task)
    ensures Boxes(t) == (if t.Todo? then "[T][" else if t.Deadline? then "[D][" else "[E][") + StatusIcon(t) + "] " + t.description
  {
    var icon, d := StatusIcon(t), t.description;
    assert BaseString(t) == "[" + icon + "] " + d;
    assert Boxes(t) == "[" + KindTag(t) + "]" + ("[" + icon + "] " + d);
    assert "[" + KindTag(t) + "]" + "[" == (if t.Todo? then "[T][" else if t.Deadline? then "[D][" else "[E][");
  }

  /** The kind box followed by `Task.toString()`. */
  function Boxes(t: Task): string
  {
    "[" + KindTag(t) + "]" + BaseString(t)
  }

  /** The dates a deadline or an event appends, shown through `show`. */
  function Dates(t: Task, show: LocalDateTime -> string): string
  {
    match t
    case Todo(_, _, _) => ""
    case Deadline(_, _, _, due) => " (by: " + show(due) + ")"
    case Event(_, _, _, start, end) => " (from: " + show(start) + " to: " + show(end) + ")"
  }

  /** Every rendering starts with the kind box, then the status box, then the description. */
  lemma DisplayStartsWithBoxes(t: Task, show: LocalDateTime -> string)
    ensures var p := "[" + KindTag(t) + "][" + StatusIcon(t) + "] " + t.description;
            |p| <= |Display(t, show)| && Display(t, show)[..|p|] == p
    ensures Display(t, show)[1] == (if t.Todo? then 'T' else if t.Deadline? then 'D' else 'E')
    ensures Display(t, show)[4] == (if t.done then 'X' else ' ')
  {
    BoxesPrefix(t, Dates(t, show));
  }

  /** Whatever follows the boxes, the text starts with them. */
  lemma BoxesPrefix(t: Task, tail: string)
    ensures var p := "[" + KindTag(t) + "][" + StatusIcon(t) + "] " + t.description;
            |p| <= |Boxes(t) + tail| && (Boxes(t) + tail)[..|p|] == p
    ensures (Boxes(t) + tail)[1] == (if t.Todo? then 'T' else if t.Deadline? then 'D' else 'E')
    ensures (Boxes(t) + tail)[4] == (if t.done then 'X' else ' ')
  {
    var p := "[" + KindTag(t) + "][" + StatusIcon(t) + "] " + t.description;
    var d := Boxes(t) + tail;
    assert Boxes(t) == p;
    assert d[..|p|] == p;
    assert d[1] == p[1] == KindTag(t)[0];
    assert d[4] == p[4] == StatusIcon(t)[0];
  }

  /** A not-done to-do "task 3" renders as "[T][ ] task 3". */
  lemma DisplayTodoExample(show: LocalDateTime -> string)
    ensures Display(NewTodo("task 3", Medium), show) == "[T][ ] task 3"
  {
  }

  /** The field separator of the data file. */
  const Separator: string := " | "

  /** "1" for a done task, "0" otherwise. */
  function DoneBit(t: Task): string
  {
    if t.done then "1" else "0"
  }

  /** The fields `toFileString()` writes: kind, done bit, priority name, description, then the dates. */
  function FileFields(t: Task): (r: seq<string>)
    ensures |r| == (if t.Todo? then 4 else if t.Deadline? then 5 else 6)
    ensures r[0] == KindTag(t) && r[1] == DoneBit(t) && r[2] == PriorityName(t.priority) && r[3] == t.description
  {
    match t
    case Todo(_, _, _) => [KindTag(t), DoneBit(t), PriorityName(t.priority), t.description]
    case Deadline(_, _, _, due) => [KindTag(t), DoneBit(t), PriorityName(t.priority), t.description, RenderIso(due)]
    case Event(_, _, _, start, end) =>
      [KindTag(t), DoneBit(t), PriorityName(t.priority), t.description, RenderIso(start), RenderIso(end)]
  }

  /** The fields of each kind spelled out: the header, then the dates in ISO form. */
  lemma FileFieldsOf(t: Task)
    ensures t.Todo? ==> FileFields(t) == ["T", DoneBit(t), PriorityName(t.priority), t.description]
    ensures t.Deadline? ==> FileFields(t) == ["D", DoneBit(t), PriorityName(t.priority), t.description, RenderIso(t.due)]
    ensures t.Event? ==>
              FileFields(t) == ["E", DoneBit(t), PriorityName(t.priority), t.description, RenderIso(t.start), RenderIso(t.end)]
  {
  }

  /**
   * `toFileString()`: the fields joined by " | ". The line opens with the kind
   * tag and a separator, and it is one line of the file: it holds a line
   * break only if the description does.
   */
  function ToFileString(t: Task): (r: string)
    ensures |r| >= 4 && r[..4] == KindTag(t) + Separator
    ensures '\n' !in t.description ==> '\n' !in r
  {
    var f := FileFields(t);
    FileFieldsOneLine(t);
    JoinAvoids(f, Separator, '\n');
    assert Join(f, Separator) == f[0] + Separator + Join(f[1..], Separator);
    Join(f, Separator)
  }

  /** Besides the description, no written field holds a line break. */
  lemma FileFieldsOneLine(t: Task)
    ensures '\n' !in t.description ==> forall i :: 0 <= i < |FileFields(t)| ==> '\n' !in FileFields(t)[i]
  {
    var f := FileFields(t);
    assert '\n' !in PriorityName(t.priority) by {
      match t.priority
      case High =>
      case Medium =>
      case Low =>
    }
    forall i | 4 <= i < |f|
      ensures '\n' !in f[i]
    {
      match t
      case Todo(_, _, _) =>
      case Deadline(_, _, _, due) => IsoAvoids(due, '\n');
      case Event(_, _, _, start, end) => IsoAvoids(start, '\n'); IsoAvoids(end, '\n');
    }
  }

  /** The to-do line spelled out: "T | <bit> | <PRIORITY> | <description>". */
  lemma TodoFileString(description: string, done: bool, priority: Priority)
    ensures ToFileString(Todo(description, done, priority))
         == "T | " + (if done then "1" else "0") + " | " + PriorityName(priority) + " | " + description
  {
    var t := Todo(description, done, priority);
    JoinFour(KindTag(t), DoneBit(t), PriorityName(priority), description, Separator);
  }

  /** The deadline line ends with the ISO text of the due instant (`by`), after a fourth separator. */
  lemma DeadlineFileString(description: string, done: bool, priority: Priority, due: LocalDateTime)
    ensures ToFileString(Deadline(description, done, priority, due))
         == "D | " + (if done then "1" else "0") + " | " + PriorityName(priority) + " | " + description + " | " + RenderIso(due)
  {
    var t := Deadline(description, done, priority, due);
    var bit, name, iso := DoneBit(t), PriorityName(priority), RenderIso(due);
    FileFieldsOf(t);
    JoinFive("D", bit, name, description, iso, Separator);
    assert "D" + " | " == "D | ";
  }

  /** The event line ends with the ISO texts of the start (`from`) and the end (`to`). */
  lemma EventFileString(description: string, done: bool, priority: Priority, start: LocalDateTime, end: LocalDateTime)
    ensures ToFileString(Event(description, done, priority, start, end))
         == "E | " + (if done then "1" else "0") + " | " + PriorityName(priority) + " | " + description
            + " | " + RenderIso(start) + " | " + RenderIso(end)
  {
    var t := Event(description, done, priority, start, end);
    var bit, name, s, e := DoneBit(t), PriorityName(priority), RenderIso(start), RenderIso(end);
    FileFieldsOf(t);
    JoinSix("E", bit, name, description, s, e, Separator);
    assert "E" + " | " == "E | ";
  }
}
