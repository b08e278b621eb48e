/**
 * The `monet.Monet` application: loading the list at start-up and one pass of
 * the `run` loop, as a pure step from the current list and an input line to
 * the new list, an exit flag, the error shown to the user and the lines
 * written to the data file. Console output is left out.
 */
module Monet {
  import opened Results
  import opened Errors
  import opened Text
  import opened Numbers
  import opened Tasks
  import opened TaskLists
  import opened Loading
  import P = Parser
  import Storage
  import DateTimes

  /**
   * What one input line leads to: the list afterwards, whether the loop ends,
   * the error message shown (a caught `MonetException` or `IOException`), and
   * the lines written when the data file was saved. `Crashed` is an exception
   * nothing catches.
   */
  datatype Reply =
    | Reply(tasks: TaskList, exit: bool, error: Option<Error>, saved: Option<seq<string>>)
    | Crashed

  /**
   * The constructor: a missing file (`None`) gives an empty list; otherwise the
   * loaded tasks, with the empty list as the fallback for a `MonetException`,
   * and a crash for an unchecked exception.
   */
  function Startup(file: Option<seq<string>>): (r: Option<TaskList>)
    ensures file.None? ==> r == Some([])
    ensures file.Some? ==> (r.None? <==> Storage.Load(file.value).LoadUnchecked?)
    ensures file.Some? && r.Some? ==> r.value == Storage.Load(file.value).items
  {
    match file
    case None => Some([])
    case Some(lines) =>
      match Storage.Load(lines)
      case Loaded(items) => Some(items)
      case LoadChecked(_) => Some([])
      case LoadUnchecked(_) => None
  }

  /** Whatever the previous run saved is what the next start-up finds. */
  lemma StartupAfterSave(ts: TaskList)
    requires forall i :: 0 <= i < |ts| ==> Storage.Storable(ts[i])
    ensures Startup(Some(Storage.Save(ts))) == Some(ts)
  {
    Storage.LoadSaveRoundTrip(ts);
  }

  /**
   * `storage.save(tasks.getTasks())` after a change: the lines written, or the
   * `IOException` (its message given as `saveError`) reported to the user. The
   * change itself is kept either way.
   */
  function Persist(ts: TaskList, saveError: Option<string>): (r: Reply)
    ensures r.Reply? && r.tasks == ts && !r.exit
    ensures r.saved.Some? <==> saveError.None?
    ensures r.saved.Some? ==> r.saved.value == Storage.Save(ts) && r.error.None?
    ensures saveError.Some? ==> r.error == Some(SaveFailed(saveError.value))
    ensures Committed(r, saveError)
  {
    match saveError
    case None => Reply(ts, false, None, Some(Storage.Save(ts)))
    case Some(m) => Reply(ts, false, Some(SaveFailed(m)), None)
  }

  /**
   * A change has been handed to storage: with no save error the lines of the
   * changed list are written and nothing is reported; otherwise nothing is
   * written and the failure is reported. The loop goes on in both cases.
   */
  predicate Committed(r: Reply, saveError: Option<string>)
  {
    && r.Reply? && !r.exit
    && (saveError.None? ==> r.saved == Some(Storage.Save(r.tasks)) && r.error.None?)
    && (saveError.Some? ==> r.saved.None? && r.error == Some(SaveFailed(saveError.value)))
  }

  /** The command was refused with `e`: the list is unchanged and nothing is written. */
  predicate Refused(r: Reply, ts: TaskList, e: Error)
  {
    r.Reply? && !r.exit && r.tasks == ts && r.saved.None? && r.error == Some(e)
  }

  /** A caught `MonetException`: the message is shown and nothing changes. */
  function Refuse(ts: TaskList, e: Error): (r: Reply)
    ensures r.Reply? && r.tasks == ts && !r.exit && r.error == Some(e) && r.saved.None?
    ensures Refused(r, ts, e)
  {
    Reply(ts, false, Some(e), None)
  }

  /**
   * The task `handleAddTask` builds: the parser's pieces handed to the
   * constructor of the matching kind, with `priority` as the priority.
   */
  function NewTask(c: P.Command, line: string, priority: Priority): (r: Result<Task, Error>)
    requires c == P.Todo || c == P.Deadline || c == P.Event
    ensures r.Ok? ==> !r.value.done && r.value.priority == priority
    ensures c == P.Todo ==> (r.Ok? <==> P.ParseTodo(line).Ok?)
    ensures c == P.Todo && r.Ok? ==> r.value.Todo? && r.value.description == P.ParseTodo(line).value
    ensures c == P.Todo && r.Err? ==> r == Err(TodoEmpty)
    ensures c == P.Deadline && r.Ok? ==>
              (r.value.Deadline? && P.ParseDeadline(line).Ok? && r.value.description == P.ParseDeadline(line).value.0)
    ensures c == P.Deadline && r.Err? ==> r.error in {DeadlineEmpty, DeadlineFormat, DeadlineDateFormat}
    ensures c == P.Event && r.Ok? ==>
              (r.value.Event? && P.ParseEvent(line).Ok? && r.value.description == P.ParseEvent(line).value.0)
    ensures c == P.Event && r.Err? ==> r.error in {EventEmpty, EventFormat, EventDateFormat}
    ensures c == P.Deadline ==> (r.Ok? <==> P.ParseDeadline(line).Ok? && DateTimes.ParseInput(Trim(P.ParseDeadline(line).value.1)).Some?)
    ensures c == P.Deadline && r.Ok? ==> Some(r.value.due) == DateTimes.ParseInput(Trim(P.ParseDeadline(line).value.1))
    ensures c == P.Deadline && P.ParseDeadline(line).Err? ==> r == Err(P.ParseDeadline(line).error)
    ensures c == P.Event ==>
              (r.Ok? <==>
                 && P.ParseEvent(line).Ok?
                 && DateTimes.ParseInput(Trim(P.ParseEvent(line).value.1)).Some?
                 && DateTimes.ParseInput(Trim(P.ParseEvent(line).value.2)).Some?)
    ensures c == P.Event && r.Ok? ==>
              && Some(r.value.start) == DateTimes.ParseInput(Trim(P.ParseEvent(line).value.1))
              && Some(r.value.end) == DateTimes.ParseInput(Trim(P.ParseEvent(line).value.2))
    ensures c == P.Event && P.ParseEvent(line).Err? ==> r == Err(P.ParseEvent(line).error)
  {
    match c
    case Todo =>
      (match P.ParseTodo(line)
       case Err(e) => Err(e)
       case Ok(description) => Ok(NewTodo(description, priority)))
    case Deadline => BuildDeadline(line, priority)
    case Event => BuildEvent(line, priority)
  }

  /** The DEADLINE case of `handleAddTask`: the parsed description and due date, or the first error met. */
  function BuildDeadline(line: string, priority: Priority): (r: Result<Task, Error>)
    ensures r.Ok? <==> P.ParseDeadline(line).Ok? && DateTimes.ParseInput(Trim(P.ParseDeadline(line).value.1)).Some?
    ensures r.Ok? ==> r.value.Deadline? && !r.value.done && r.value.priority == priority
    ensures r.Ok? ==> r.value.description == P.ParseDeadline(line).value.0
    ensures r.Ok? ==> Some(r.value.due) == DateTimes.ParseInput(Trim(P.ParseDeadline(line).value.1))
    ensures P.ParseDeadline(line).Err? ==> r == Err(P.ParseDeadline(line).error)
    ensures P.ParseDeadline(line).Ok? && r.Err? ==> r.error == DeadlineDateFormat
  {
    match P.ParseDeadline(line)
    case Err(e) => Err(e)
    case Ok((description, byText)) => NewDeadline(description, byText, priority)
  }

  /** The EVENT case of `handleAddTask`: the parsed description, start and end, or the first error met. */
  function BuildEvent(line: string, priority: Priority): (r: Result<Task, Error>)
    ensures r.Ok? <==>
              && P.ParseEvent(line).Ok?
              && DateTimes.ParseInput(Trim(P.ParseEvent(line).value.1)).Some?
              && DateTimes.ParseInput(Trim(P.ParseEvent(line).value.2)).Some?
    ensures r.Ok? ==> r.value.Event? && !r.value.done && r.value.priority == priority
    ensures r.Ok? ==> r.value.description == P.ParseEvent(line).value.0
    ensures r.Ok? ==>
              && Some(r.value.start) == DateTimes.ParseInput(Trim(P.ParseEvent(line).value.1))
              && Some(r.value.end) == DateTimes.ParseInput(Trim(P.ParseEvent(line).value.2))
    ensures P.ParseEvent(line).Err? ==> r == Err(P.ParseEvent(line).error)
    ensures P.ParseEvent(line).Ok? && r.Err? ==> r.error == EventDateFormat
  {
    match P.ParseEvent(line)
    case Err(e) => Err(e)
    case Ok((description, fromText, toText)) => NewEvent(description, fromText, toText, priority)
  }

  /** `handleAddTask`: parse, then append exactly one task, then save. */
  function HandleAddTask(ts: TaskList, c: P.Command, line: string, priority: Priority, saveError: Option<string>): (r: Reply)
    ensures r.Reply? && !r.exit
    ensures c != P.Todo && c != P.Deadline && c != P.Event ==> r == Reply(ts, false, None, None)
    ensures (c == P.Todo || c == P.Deadline || c == P.Event) ==>
              && (NewTask(c, line, priority).Err? ==> Refused(r, ts, NewTask(c, line, priority).error))
              && (NewTask(c, line, priority).Ok? ==> r.tasks == ts + [NewTask(c, line, priority).value] && Committed(r, saveError))
  {
    if c == P.Todo || c == P.Deadline || c == P.Event then AddBuilt(ts, NewTask(c, line, priority), saveError)
    else Reply(ts, false, None, None)
  }

  /** The end of `handleAddTask`: a constructor's error is reported, a built task is appended and saved. */
  function AddBuilt(ts: TaskList, built: Result<Task, Error>, saveError: Option<string>): (r: Reply)
    ensures r.Reply? && !r.exit
    ensures built.Err? ==> Refused(r, ts, built.error)
    ensures built.Ok? ==> r.tasks == ts + [built.value] && Committed(r, saveError)
  {
    match built
    case Err(e) => Refuse(ts, e)
    case Ok(t) => Persist(TaskLists.Add(ts, t), saveError)
  }

  /** `handleDelete`: the index is checked by the parser before anything is removed. */
  function HandleDelete(ts: TaskList, line: string, saveError: Option<string>): (r: Reply)
    requires |ts| <= IntMax
    ensures r.Reply? && !r.exit
    ensures P.ParseIndex(line, |ts|).Err? ==> Refused(r, ts, P.ParseIndex(line, |ts|).error)
    ensures P.ParseIndex(line, |ts|).Ok? ==>
              var i := P.ParseIndex(line, |ts|).value;
              && |r.tasks| == |ts| - 1
              && r.tasks[..i] + [ts[i]] + r.tasks[i..] == ts
              && Committed(r, saveError)
  {
    match P.ParseIndex(line, |ts|)
    case Err(e) => Refuse(ts, e)
    case Ok(i) =>
      DeleteReinsert(ts, i);
      Persist(TaskLists.Delete(ts, i).value.1, saveError)
  }

  /** The list with the done flag of task `i` set (`mark`) or cleared; every other task is untouched. */
  function SetDone(ts: TaskList, i: int, mark: bool): (r: TaskList)
    requires 0 <= i < |ts|
    ensures |r| == |ts| && r[i].done == mark && SameExceptDone(r[i], ts[i])
    ensures forall j :: 0 <= j < |ts| && j != i ==> r[j] == ts[j]
  {
    ts[i := if mark then MarkAsDone(ts[i]) else UnmarkAsDone(ts[i])]
  }

  /** `handleMarkUnmark`: the index is checked by the parser, then only that task's done flag changes. */
  function HandleMarkUnmark(ts: TaskList, mark: bool, line: string, saveError: Option<string>): (r: Reply)
    requires |ts| <= IntMax
    ensures r.Reply? && !r.exit
    ensures P.ParseIndex(line, |ts|).Err? ==> Refused(r, ts, P.ParseIndex(line, |ts|).error)
    ensures P.ParseIndex(line, |ts|).Ok? ==>
              var i := P.ParseIndex(line, |ts|).value;
              && |r.tasks| == |ts|
              && r.tasks[i].done == mark && SameExceptDone(r.tasks[i], ts[i])
              && (forall j :: 0 <= j < |ts| && j != i ==> r.tasks[j] == ts[j])
              && Committed(r, saveError)
  {
    match P.ParseIndex(line, |ts|)
    case Err(e) => Refuse(ts, e)
    case Ok(i) => Persist(SetDone(ts, i, mark), saveError)
  }

  /**
   * One pass of `run()`: the command word picks the handler. A line of spaces
   * only has no command word and crashes the parser.
   */
  function Step(ts: TaskList, line: string, priority: Priority, saveError: Option<string>): (r: Reply)
    requires |ts| <= IntMax
    ensures r.Crashed? <==> |line| > 0 && AllSpaces(line)
    ensures r.Reply? && r.exit <==> P.ParseCommand(line) == Some(P.Bye)
    ensures r.Reply? && r.exit ==> r.tasks == ts && r.error.None?
    ensures r.Reply? && r.saved.Some? ==> r.saved.value == Storage.Save(r.tasks)
    ensures r.Reply? && r.tasks != ts ==> r.saved.Some? || (saveError.Some? && r.error == Some(SaveFailed(saveError.value)))
    ensures r.Reply? ==> |ts| - 1 <= |r.tasks| <= |ts| + 1
    ensures r.Reply? && r.error.Some? && !r.error.value.SaveFailed? ==> r.tasks == ts && r.saved.None?
  {
    match P.ParseCommand(line)
    case None => Crashed
    case Some(c) => Dispatch(ts, c, line, priority, saveError)
  }

  /**
   * The `switch (command)` of `run()`. BYE ends the loop and LIST only shows
   * the list; an unrecognised word is an error. `priority` is the priority
   * given to an added task.
   */
  function Dispatch(ts: TaskList, c: P.Command, line: string, priority: Priority, saveError: Option<string>): (r: Reply)
    requires |ts| <= IntMax
    ensures r.Reply?
    ensures r.exit <==> c == P.Bye
    ensures r.exit ==> r.tasks == ts && r.error.None? && r.saved.None?
    ensures r.saved.Some? ==> r.saved.value == Storage.Save(r.tasks)
    ensures r.tasks != ts ==> r.saved.Some? || (saveError.Some? && r.error == Some(SaveFailed(saveError.value)))
    ensures |ts| - 1 <= |r.tasks| <= |ts| + 1
    ensures r.error.Some? && !r.error.value.SaveFailed? ==> r.tasks == ts && r.saved.None?
  {
    match c
    case Bye => Reply(ts, true, None, None)
    case List => Reply(ts, false, None, None)
    case Mark => HandleMarkUnmark(ts, true, line, saveError)
    case Unmark => HandleMarkUnmark(ts, false, line, saveError)
    case Delete => HandleDelete(ts, line, saveError)
    case Todo => HandleAddTask(ts, c, line, priority, saveError)
    case Deadline => HandleAddTask(ts, c, line, priority, saveError)
    case Event => HandleAddTask(ts, c, line, priority, saveError)
    case _ => Refuse(ts, UnknownCommand)
  }

  /** An unrecognised command word is reported and leaves the list as it was, unsaved. */
  lemma StepUnknown(ts: TaskList, line: string, priority: Priority, saveError: Option<string>)
    requires |ts| <= IntMax && P.ParseCommand(line) == Some(P.Unknown)
    ensures Step(ts, line, priority, saveError) == Reply(ts, false, Some(UnknownCommand), None)
  {
  }

  /** "bye" ends the loop and "list" only shows the list; neither changes or saves it. */
  lemma StepByeList(ts: TaskList, line: string, priority: Priority, saveError: Option<string>)
    requires |ts| <= IntMax
    ensures P.ParseCommand(line) == Some(P.Bye) ==> Step(ts, line, priority, saveError) == Reply(ts, true, None, None)
    ensures P.ParseCommand(line) == Some(P.List) ==> Step(ts, line, priority, saveError) == Reply(ts, false, None, None)
  {
  }

  /**
   * A failing save is reported, but the change stays in memory: the list after
   * the step does not depend on whether the file could be written.
   */
  lemma SaveFailureKeepsChange(ts: TaskList, line: string, priority: Priority, message: string)
    requires |ts| <= IntMax
    ensures var ok := Step(ts, line, priority, None);
            var failed := Step(ts, line, priority, Some(message));
            ok.Reply? ==> failed.Reply? && failed.tasks == ok.tasks && failed.exit == ok.exit
    ensures var ok := Step(ts, line, priority, None);
            var failed := Step(ts, line, priority, Some(message));
            ok.Reply? && ok.saved.Some? ==> failed.error == Some(SaveFailed(message))
  {
    match P.ParseCommand(line)
    case None =>
    case Some(c) =>
      StepOf(ts, line, priority, None, c);
      StepOf(ts, line, priority, Some(message), c);
      DispatchSaves(ts, c, line, priority, message);
  }

  lemma DispatchSaves(ts: TaskList, c: P.Command, line: string, priority: Priority, message: string)
    requires |ts| <= IntMax
    ensures var ok := Dispatch(ts, c, line, priority, None);
            var failed := Dispatch(ts, c, line, priority, Some(message));
            failed.tasks == ok.tasks && failed.exit == ok.exit && (ok.saved.Some? ==> failed.error == Some(SaveFailed(message)))
  {
    match c
    case Mark =>
      DispatchMarkUnmark(ts, true, line, priority, None);
      DispatchMarkUnmark(ts, true, line, priority, Some(message));
      HandleMarkUnmarkSaves(ts, true, line, message);
    case Unmark =>
      DispatchMarkUnmark(ts, false, line, priority, None);
      DispatchMarkUnmark(ts, false, line, priority, Some(message));
      HandleMarkUnmarkSaves(ts, false, line, message);
    case Delete =>
      DispatchDelete(ts, line, priority, None);
      DispatchDelete(ts, line, priority, Some(message));
      HandleDeleteSaves(ts, line, message);
    case Todo => HandleAddTaskSaves(ts, c, line, priority, message);
    case Deadline => HandleAddTaskSaves(ts, c, line, priority, message);
    case Event => HandleAddTaskSaves(ts, c, line, priority, message);
    case _ =>
  }

  /** Once the command word is known, a step is the dispatch on it. */
  lemma StepOf(ts: TaskList, line: string, priority: Priority, saveError: Option<string>, c: P.Command)
    requires |ts| <= IntMax && P.ParseCommand(line) == Some(c)
    ensures Step(ts, line, priority, saveError) == Dispatch(ts, c, line, priority, saveError)
  {
  }

  lemma DispatchDelete(ts: TaskList, line: string, priority: Priority, saveError: Option<string>)
    requires |ts| <= IntMax
    ensures Dispatch(ts, P.Delete, line, priority, saveError) == HandleDelete(ts, line, saveError)
  {
  }

  lemma DispatchMarkUnmark(ts: TaskList, mark: bool, line: string, priority: Priority, saveError: Option<string>)
    requires |ts| <= IntMax
    ensures Dispatch(ts, if mark then P.Mark else P.Unmark, line, priority, saveError) == HandleMarkUnmark(ts, mark, line, saveError)
  {
  }

  lemma HandleMarkUnmarkSaves(ts: TaskList, mark: bool, line: string, message: string)
    requires |ts| <= IntMax
    ensures var ok := HandleMarkUnmark(ts, mark, line, None);
            var failed := HandleMarkUnmark(ts, mark, line, Some(message));
            failed.Reply? && failed.tasks == ok.tasks && (ok.saved.Some? ==> failed.error == Some(SaveFailed(message)))
  {
  }

  lemma HandleDeleteSaves(ts: TaskList, line: string, message: string)
    requires |ts| <= IntMax
    ensures var ok := HandleDelete(ts, line, None);
            var failed := HandleDelete(ts, line, Some(message));
            failed.Reply? && failed.tasks == ok.tasks && (ok.saved.Some? ==> failed.error == Some(SaveFailed(message)))
  {
  }

  lemma HandleAddTaskSaves(ts: TaskList, c: P.Command, line: string, priority: Priority, message: string)
    ensures var ok := HandleAddTask(ts, c, line, priority, None);
            var failed := HandleAddTask(ts, c, line, priority, Some(message));
            failed.Reply? && failed.tasks == ok.tasks && (ok.saved.Some? ==> failed.error == Some(SaveFailed(message)))
  {
  }

  /** A line whose first word reads "todo" in any case, with a description after it, appends one to-do and saves. */
  lemma StepAddsTodo(ts: TaskList, w: string, description: string, priority: Priority)
    requires |ts| <= IntMax && ' ' !in w && |w| > 0 && P.Keyword(ToLower(w)) == P.Todo && !IsBlank(description)
    ensures var t := Tasks.Todo(description, false, priority);
            Step(ts, w + " " + description, priority, None) == Reply(ts + [t], false, None, Some(Storage.Save(ts + [t])))
  {
    P.ParseCommandIgnoresArguments(w, description);
    P.ParseCommandOfWord(w);
    P.ParseTodoOf(w, description);
  }

  /** An add line whose task is built appends that task, and the new list is saved. */
  lemma StepAddsBuilt(ts: TaskList, line: string, priority: Priority, c: P.Command, t: Task)
    requires |ts| <= IntMax && P.ParseCommand(line) == Some(c)
    requires (c == P.Todo || c == P.Deadline || c == P.Event) && NewTask(c, line, priority) == Ok(t)
    ensures Step(ts, line, priority, None) == Reply(ts + [t], false, None, Some(Storage.Save(ts + [t])))
  {
    StepOf(ts, line, priority, None, c);
    assert Dispatch(ts, c, line, priority, None) == HandleAddTask(ts, c, line, priority, None);
  }

  /**
   * "deadline description /by date", cut at its first " /by ", with a date in
   * the input pattern appends one deadline due on that date, and saves.
   */
  lemma StepAddsDeadline(ts: TaskList, w: string, description: string, date: string, priority: Priority)
    requires |ts| <= IntMax && ' ' !in w && |w| > 0 && P.Keyword(ToLower(w)) == P.Deadline
    requires CutAtFirst(description + " /by " + date, " /by ", description, date)
    requires !IsBlank(description) && DateTimes.ParseInput(Trim(date)).Some?
    ensures var t := Tasks.Deadline(description, false, priority, DateTimes.ParseInput(Trim(date)).value);
            Step(ts, w + " " + description + " /by " + date, priority, None)
              == Reply(ts + [t], false, None, Some(Storage.Save(ts + [t])))
  {
    var rest := description + " /by " + date;
    var line := w + " " + rest;
    Regroup(w, description, " /by ", date);
    NotBlankWith(description, " /by ", date);
    P.ParseCommandIgnoresArguments(w, rest);
    P.ParseCommandOfWord(w);
    P.ArgumentOf(w, rest);
    P.ParseDeadlineCut(line, description, date);
    var t := Tasks.Deadline(description, false, priority, DateTimes.ParseInput(Trim(date)).value);
    assert NewTask(P.Deadline, line, priority) == Ok(t);
    StepAddsBuilt(ts, line, priority, P.Deadline, t);
  }

  /**
   * "event description /from start /to end", cut at its first markers, with
   * both dates in the input pattern appends one event with the trimmed
   * description and those dates, and saves.
   */
  lemma StepAddsEvent(ts: TaskList, w: string, description: string, start: string, end: string, priority: Priority)
    requires |ts| <= IntMax && ' ' !in w && |w| > 0 && P.Keyword(ToLower(w)) == P.Event
    requires P.EventCut(description + " /from " + start + " /to " + end, description, start, end)
    requires !IsBlank(description)
    requires DateTimes.ParseInput(Trim(start)).Some? && DateTimes.ParseInput(Trim(end)).Some?
    ensures var t := Tasks.Event(Trim(description), false, priority,
                                 DateTimes.ParseInput(Trim(start)).value, DateTimes.ParseInput(Trim(end)).value);
            Step(ts, w + " " + description + " /from " + start + " /to " + end, priority, None)
              == Reply(ts + [t], false, None, Some(Storage.Save(ts + [t])))
  {
    var rest := description + " /from " + start + " /to " + end;
    var line := w + " " + description + " /from " + start + " /to " + end;
    RegroupLine(w, description, " /from ", start, " /to ", end);
    P.ParseCommandIgnoresArguments(w, rest);
    P.ParseCommandOfWord(w);
    P.ParseEventOfCut(w, description, start, end);
    var t := Tasks.Event(Trim(description), false, priority,
                         DateTimes.ParseInput(Trim(start)).value, DateTimes.ParseInput(Trim(end)).value);
    assert NewTask(P.Event, line, priority) == Ok(t);
    StepAddsBuilt(ts, line, priority, P.Event, t);
  }

  /** Deleting then re-adding at the same place is the identity: delete removes exactly the indexed task. */
  lemma StepDeleteRemovesOne(ts: TaskList, line: string, priority: Priority, saveError: Option<string>)
    requires |ts| <= IntMax && P.ParseCommand(line) == Some(P.Delete) && P.ParseIndex(line, |ts|).Ok?
    ensures var i := P.ParseIndex(line, |ts|).value;
            var r := Step(ts, line, priority, saveError);
            r.Reply? && |r.tasks| == |ts| - 1 && r.tasks[..i] + [ts[i]] + r.tasks[i..] == ts
  {
    StepOf(ts, line, priority, saveError, P.Delete);
    DispatchDelete(ts, line, priority, saveError);
    var i := P.ParseIndex(line, |ts|).value;
    var r := HandleDelete(ts, line, saveError);
    assert r.tasks == TaskLists.Delete(ts, i).value.1;
    DeleteReinsert(ts, i);
  }

  /** Mark and unmark change the done flag of the task the index names, and nothing else. */
  lemma StepMarkUnmark(ts: TaskList, mark: bool, line: string, priority: Priority, saveError: Option<string>)
    requires |ts| <= IntMax && P.ParseCommand(line) == Some(if mark then P.Mark else P.Unmark)
    requires P.ParseIndex(line, |ts|).Ok?
    ensures var i := P.ParseIndex(line, |ts|).value;
            var r := Step(ts, line, priority, saveError);
            r.Reply? && |r.tasks| == |ts| && r.tasks[i].done == mark
            && SameExceptDone(r.tasks[i], ts[i]) && forall j :: 0 <= j < |ts| && j != i ==> r.tasks[j] == ts[j]
  {
    StepOf(ts, line, priority, saveError, if mark then P.Mark else P.Unmark);
    DispatchMarkUnmark(ts, mark, line, priority, saveError);
    var i := P.ParseIndex(line, |ts|).value;
    var r := HandleMarkUnmark(ts, mark, line, saveError);
    assert r.tasks == SetDone(ts, i, mark);
  }

  /** One line of input to the loop, with the priority a new task gets and the outcome of saving. */
  datatype Input = Input(line: string, priority: Priority, saveError: Option<string>)

  /** Where the loop stands: the list, and whether BYE was read. */
  datatype Session = Session(tasks: TaskList, exited: bool)

  /**
   * The `while (!isExit)` loop of `run()` over the given inputs: each line is
   * handled in turn until one says BYE; `None` when an uncaught exception ends
   * the program.
   */
  function Run(ts: TaskList, inputs: seq<Input>): (r: Option<Session>)
    requires |ts| + |inputs| <= IntMax
    ensures r.Some? ==> |r.value.tasks| <= |ts| + |inputs|
    ensures r.Some? && !r.value.exited ==> forall i :: 0 <= i < |inputs| ==> P.ParseCommand(inputs[i].line) != Some(P.Bye)
    ensures r.None? <==> CrashBeforeBye(Commands(inputs))
    ensures r.Some? && r.value.exited <==> ByeBeforeCrash(Commands(inputs))
    decreases |inputs|, 1
  {
    if |inputs| == 0 then Some(Session(ts, false))
    else
      var input := inputs[0];
      var reply := Step(ts, input.line, input.priority, input.saveError);
      var r := Resume(reply, inputs[1..]);
      assert forall i :: 1 <= i < |inputs| ==> inputs[1..][i - 1] == inputs[i];
      var cs := Commands(inputs);
      assert cs[0] == P.ParseCommand(input.line);
      assert Commands(inputs[1..]) == cs[1..];
      FirstLineDecides(cs);
      r
  }

  /** The command each input line is read as; `None` where the parser crashes. */
  function Commands(inputs: seq<Input>): (r: seq<Option<P.Command>>)
    ensures |r| == |inputs|
    ensures forall i :: 0 <= i < |inputs| ==> r[i] == P.ParseCommand(inputs[i].line)
  {
    seq(|inputs|, i requires 0 <= i < |inputs| => P.ParseCommand(inputs[i].line))
  }

  /** Some line crashes the parser and no BYE comes before it. */
  predicate CrashBeforeBye(cs: seq<Option<P.Command>>)
  {
    exists i :: 0 <= i < |cs| && cs[i].None? && forall j :: 0 <= j < i ==> cs[j] != Some(P.Bye)
  }

  /** Some line says BYE and no line before it crashes the parser. */
  predicate ByeBeforeCrash(cs: seq<Option<P.Command>>)
  {
    exists i :: 0 <= i < |cs| && cs[i] == Some(P.Bye) && forall j :: 0 <= j < i ==> cs[j].Some?
  }

  /**
   * The first line alone settles both questions when it crashes or says BYE;
   * otherwise they are asked again of the lines after it.
   */
  lemma FirstLineDecides(cs: seq<Option<P.Command>>)
    requires |cs| > 0
    ensures cs[0].None? ==> CrashBeforeBye(cs) && !ByeBeforeCrash(cs)
    ensures cs[0] == Some(P.Bye) ==> ByeBeforeCrash(cs) && !CrashBeforeBye(cs)
    ensures cs[0].Some? && cs[0] != Some(P.Bye) ==>
              && (CrashBeforeBye(cs) <==> CrashBeforeBye(cs[1..]))
              && (ByeBeforeCrash(cs) <==> ByeBeforeCrash(cs[1..]))
  {
    if cs[0].Some? && cs[0] != Some(P.Bye) {
      CrashShift(cs);
      ByeShift(cs);
    }
  }

  lemma CrashShift(cs: seq<Option<P.Command>>)
    requires |cs| > 0 && cs[0].Some? && cs[0] != Some(P.Bye)
    ensures CrashBeforeBye(cs) <==> CrashBeforeBye(cs[1..])
  {
    var rest := cs[1..];
    if CrashBeforeBye(cs) {
      var i :| 0 <= i < |cs| && cs[i].None? && forall j :: 0 <= j < i ==> cs[j] != Some(P.Bye);
      assert rest[i - 1].None?;
      assert forall j :: 0 <= j < i - 1 ==> rest[j] == cs[j + 1];
    }
    if CrashBeforeBye(rest) {
      var i :| 0 <= i < |rest| && rest[i].None? && forall j :: 0 <= j < i ==> rest[j] != Some(P.Bye);
      assert cs[i + 1].None?;
      assert forall j :: 1 <= j < i + 1 ==> cs[j] == rest[j - 1];
    }
  }

  lemma ByeShift(cs: seq<Option<P.Command>>)
    requires |cs| > 0 && cs[0].Some? && cs[0] != Some(P.Bye)
    ensures ByeBeforeCrash(cs) <==> ByeBeforeCrash(cs[1..])
  {
    var rest := cs[1..];
    if ByeBeforeCrash(cs) {
      var i :| 0 <= i < |cs| && cs[i] == Some(P.Bye) && forall j :: 0 <= j < i ==> cs[j].Some?;
      assert rest[i - 1] == Some(P.Bye);
      assert forall j :: 0 <= j < i - 1 ==> rest[j] == cs[j + 1];
    }
    if ByeBeforeCrash(rest) {
      var i :| 0 <= i < |rest| && rest[i] == Some(P.Bye) && forall j :: 0 <= j < i ==> rest[j].Some?;
      assert cs[i + 1] == Some(P.Bye);
      assert forall j :: 1 <= j < i + 1 ==> cs[j] == rest[j - 1];
    }
  }

  /** The rest of the loop after one line was handled. */
  function Resume(reply: Reply, rest: seq<Input>): (r: Option<Session>)
    requires reply.Reply? ==> |reply.tasks| + |rest| <= IntMax
    ensures r.Some? <==> reply.Reply? && (reply.exit || Run(reply.tasks, rest).Some?)
    ensures r.Some? && reply.exit ==> r.value == Session(reply.tasks, true)
    ensures r.Some? && !reply.exit ==> r == Run(reply.tasks, rest)
    decreases |rest| + 1, 0
  {
    match reply
    case Crashed => None
    case Reply(next, exit, _, _) => if exit then Some(Session(next, true)) else Run(next, rest)
  }

  /** Once BYE is read, later input is never looked at. */
  lemma {:induction false} RunIgnoresInputAfterExit(ts: TaskList, a: seq<Input>, b: seq<Input>)
    requires |ts| + |a| + |b| <= IntMax
    requires Run(ts, a).Some? && Run(ts, a).value.exited
    ensures Run(ts, a + b) == Run(ts, a)
    decreases |a|
  {
    assert |a| > 0;
    assert (a + b)[0] == a[0];
    assert (a + b)[1..] == a[1..] + b;
    var input := a[0];
    var reply := Step(ts, input.line, input.priority, input.saveError);
    assert Run(ts, a) == Resume(reply, a[1..]);
    assert Run(ts, a + b) == Resume(reply, a[1..] + b);
    if !reply.exit {
      RunIgnoresInputAfterExit(reply.tasks, a[1..], b);
    }
  }
}
