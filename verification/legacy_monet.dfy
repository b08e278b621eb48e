/**
 * The first version's application (root-package `Monet`): the list loaded at
 * start-up and one pass of its `while (true)` loop. It has no priorities and
 * its own line format; the command words are read as in the current parser,
 * since the first version's parser is not part of this model. Whether the
 * data file was rewritten is reported as a flag, because the first version's
 * to-do line is not part of this model either.
 */
module LegacyMonet {
  import opened Results
  import opened Errors
  import opened Numbers
  import opened Loading
  import opened LegacyTasks
  import P = Parser
  import Text
  import Tasks
  import TaskLists
  import Monet
  import LegacyStorage
  import DateTimes

  type OldList = seq<OldTask>

  /**
   * What one input line leads to: the list afterwards, whether the loop ends,
   * the message shown for a caught `MonetException` or `IOException`, and
   * whether `saveFile` rewrote the data file. `OldCrashed` is an exception
   * nothing catches.
   */
  datatype OldReply =
    | OldReply(tasks: OldList, exit: bool, error: Option<Error>, saved: bool)
    | OldCrashed

  /**
   * `tasks = loadFile()`: a missing file or a `MonetException` gives an empty
   * list; a malformed date in the file is a `DateTimeParseException` that
   * ends the program before the loop starts.
   */
  function OldStartup(file: Option<seq<string>>): (r: Option<OldList>)
    ensures file.None? ==> r == Some([])
    ensures r.None? <==> LegacyStorage.OldLoad(file).LoadUnchecked?
    ensures r.Some? ==> r.value == LegacyStorage.OldLoad(file).items
  {
    var outcome := LegacyStorage.OldLoad(file);
    if outcome.Loaded? then Some(outcome.items) else None
  }

  /** Deadlines and events the first version saved are what its next start-up finds. */
  lemma OldStartupAfterSave(ts: OldList)
    requires forall i :: 0 <= i < |ts| ==> !ts[i].OldTodo? && '|' !in ts[i].description
    ensures OldStartup(Some(LegacyStorage.OldSave(ts))) == Some(ts)
  {
    LegacyStorage.OldLoadSaveRoundTrip(ts);
  }

  /** `saveFile(tasks)` after a change: written, or the `IOException` message shown; the change is kept either way. */
  function OldPersist(ts: OldList, saveError: Option<string>): (r: OldReply)
    ensures r.OldReply? && r.tasks == ts && !r.exit
    ensures r.saved <==> saveError.None?
    ensures r.saved ==> r.error.None?
    ensures saveError.Some? ==> r.error == Some(SaveFailed(saveError.value))
    ensures OldCommitted(r, saveError)
  {
    match saveError
    case None => OldReply(ts, false, None, true)
    case Some(m) => OldReply(ts, false, Some(SaveFailed(m)), false)
  }

  /**
   * A change has been handed to `saveFile`: with no save error the file is
   * rewritten and nothing is reported; otherwise the failure is reported. The
   * loop goes on in both cases.
   */
  predicate OldCommitted(r: OldReply, saveError: Option<string>)
  {
    && r.OldReply? && !r.exit
    && (saveError.None? ==> r.saved && r.error.None?)
    && (saveError.Some? ==> !r.saved && r.error == Some(SaveFailed(saveError.value)))
  }

  /** The command was refused with `e`: the list is unchanged and the file is not rewritten. */
  predicate OldRefused(r: OldReply, ts: OldList, e: Error)
  {
    r.OldReply? && !r.exit && r.tasks == ts && !r.saved && r.error == Some(e)
  }

  /** A caught `MonetException`: the message is shown and nothing changes. */
  function OldRefuse(ts: OldList, e: Error): (r: OldReply)
    ensures r.OldReply? && r.tasks == ts && !r.exit && r.error == Some(e) && !r.saved
    ensures OldRefused(r, ts, e)
  {
    OldReply(ts, false, Some(e), false)
  }

  /**
   * What every command other than BYE leaves behind: the loop goes on, a
   * changed list was saved or the save failure was reported, the list grows
   * or shrinks by at most one task, and any other error leaves it as it was.
   */
  predicate Settled(ts: OldList, r: OldReply, saveError: Option<string>)
  {
    && r.OldReply? && !r.exit
    && (r.tasks != ts ==> r.saved || (saveError.Some? && r.error == Some(SaveFailed(saveError.value))))
    && |ts| - 1 <= |r.tasks| <= |ts| + 1
    && (r.error.Some? && !r.error.value.SaveFailed? ==> r.tasks == ts && !r.saved)
  }

  /** The task the TODO, DEADLINE and EVENT cases build from the parser's pieces. */
  function OldNewTask(c: P.Command, line: string): (r: Result<OldTask, Error>)
    requires c == P.Todo || c == P.Deadline || c == P.Event
    ensures r.Ok? ==> !r.value.done
    ensures c == P.Todo ==> (r.Ok? <==> P.ParseTodo(line).Ok?)
    ensures c == P.Todo && r.Ok? ==> r.value == OldTodo(P.ParseTodo(line).value, false)
    ensures c == P.Deadline && r.Ok? ==> r.value.OldDeadline? && P.ParseDeadline(line).Ok?
    ensures c == P.Deadline && r.Err? ==> r.error in {DeadlineEmpty, DeadlineFormat, DeadlineDateFormat}
    ensures c == P.Event && r.Ok? ==> r.value.OldEvent? && P.ParseEvent(line).Ok?
    ensures c == P.Event && r.Err? ==> r.error in {EventEmpty, EventFormat, EventDateFormat}
    ensures c == P.Deadline && r.Ok? ==> r.value.description == P.ParseDeadline(line).value.0
    ensures c == P.Deadline ==>
              (r.Ok? <==> P.ParseDeadline(line).Ok? && DateTimes.ParseInput(Text.Trim(P.ParseDeadline(line).value.1)).Some?)
    ensures c == P.Deadline && r.Ok? ==> Some(r.value.due) == DateTimes.ParseInput(Text.Trim(P.ParseDeadline(line).value.1))
    ensures c == P.Deadline && P.ParseDeadline(line).Err? ==> r == Err(P.ParseDeadline(line).error)
    ensures c == P.Event && r.Ok? ==> r.value.description == P.ParseEvent(line).value.0
    ensures c == P.Event ==>
              (r.Ok? <==>
                 && P.ParseEvent(line).Ok?
                 && DateTimes.ParseInput(Text.Trim(P.ParseEvent(line).value.1)).Some?
                 && DateTimes.ParseInput(Text.Trim(P.ParseEvent(line).value.2)).Some?)
    ensures c == P.Event && r.Ok? ==>
              && Some(r.value.start) == DateTimes.ParseInput(Text.Trim(P.ParseEvent(line).value.1))
              && Some(r.value.end) == DateTimes.ParseInput(Text.Trim(P.ParseEvent(line).value.2))
    ensures c == P.Event && P.ParseEvent(line).Err? ==> r == Err(P.ParseEvent(line).error)
  {
    match c
    case Todo =>
      (match P.ParseTodo(line)
       case Err(e) => Err(e)
       case Ok(description) => Ok(NewOldTodo(description)))
    case Deadline => OldBuildDeadline(line)
    case Event => OldBuildEvent(line)
  }

  /** The DEADLINE case: the parsed description and due date, or the first error met. */
  function OldBuildDeadline(line: string): (r: Result<OldTask, Error>)
    ensures r.Ok? <==> P.ParseDeadline(line).Ok? && DateTimes.ParseInput(Text.Trim(P.ParseDeadline(line).value.1)).Some?
    ensures r.Ok? ==> r.value.OldDeadline? && !r.value.done
    ensures r.Ok? ==> r.value.description == P.ParseDeadline(line).value.0
    ensures r.Ok? ==> Some(r.value.due) == DateTimes.ParseInput(Text.Trim(P.ParseDeadline(line).value.1))
    ensures P.ParseDeadline(line).Err? ==> r == Err(P.ParseDeadline(line).error)
    ensures P.ParseDeadline(line).Ok? && r.Err? ==> r.error == DeadlineDateFormat
  {
    match P.ParseDeadline(line)
    case Err(e) => Err(e)
    case Ok((description, byText)) => NewOldDeadline(description, byText)
  }

  /** The EVENT case: the parsed description, start and end, or the first error met. */
  function OldBuildEvent(line: string): (r: Result<OldTask, Error>)
    ensures r.Ok? <==>
              && P.ParseEvent(line).Ok?
              && DateTimes.ParseInput(Text.Trim(P.ParseEvent(line).value.1)).Some?
              && DateTimes.ParseInput(Text.Trim(P.ParseEvent(line).value.2)).Some?
    ensures r.Ok? ==> r.value.OldEvent? && !r.value.done
    ensures r.Ok? ==> r.value.description == P.ParseEvent(line).value.0
    ensures r.Ok? ==>
              && Some(r.value.start) == DateTimes.ParseInput(Text.Trim(P.ParseEvent(line).value.1))
              && Some(r.value.end) == DateTimes.ParseInput(Text.Trim(P.ParseEvent(line).value.2))
    ensures P.ParseEvent(line).Err? ==> r == Err(P.ParseEvent(line).error)
    ensures P.ParseEvent(line).Ok? && r.Err? ==> r.error == EventDateFormat
  {
    match P.ParseEvent(line)
    case Err(e) => Err(e)
    case Ok((description, fromText, toText)) => NewOldEvent(description, fromText, toText)
  }

  /** The list with the done flag of task `i` set (`mark`) or cleared; every other task is untouched. */
  function OldSetDone(ts: OldList, i: int, mark: bool): (r: OldList)
    requires 0 <= i < |ts|
    ensures |r| == |ts| && r[i].done == mark && r[i].(done := false) == ts[i].(done := false)
    ensures forall j :: 0 <= j < |ts| && j != i ==> r[j] == ts[j]
  {
    ts[i := if mark then MarkOld(ts[i]) else UnmarkOld(ts[i])]
  }

  /** The MARK and UNMARK cases: `parseIndex`, then `tasks.get(i)` is marked or unmarked, then the file is saved. */
  function OldMarkUnmark(ts: OldList, mark: bool, line: string, saveError: Option<string>): (r: OldReply)
    requires |ts| <= IntMax
    ensures r.OldReply? && !r.exit
    ensures P.ParseIndex(line, |ts|).Err? ==> OldRefused(r, ts, P.ParseIndex(line, |ts|).error)
    ensures P.ParseIndex(line, |ts|).Ok? ==>
              var i := P.ParseIndex(line, |ts|).value;
              && |r.tasks| == |ts|
              && r.tasks[i].done == mark && r.tasks[i].(done := false) == ts[i].(done := false)
              && (forall j :: 0 <= j < |ts| && j != i ==> r.tasks[j] == ts[j])
              && OldCommitted(r, saveError)
    ensures Settled(ts, r, saveError)
  {
    match P.ParseIndex(line, |ts|)
    case Err(e) => OldRefuse(ts, e)
    case Ok(i) => OldPersist(OldSetDone(ts, i, mark), saveError)
  }

  /** `tasks.remove(i)`: the list without the task at `i`; later tasks move one place towards the front. */
  function RemoveAt(ts: OldList, i: int): (r: OldList)
    requires 0 <= i < |ts|
    ensures |r| == |ts| - 1
    ensures forall j :: 0 <= j < i ==> r[j] == ts[j]
    ensures forall j :: i <= j < |r| ==> r[j] == ts[j + 1]
  {
    ts[..i] + ts[i + 1..]
  }

  /** Putting the removed task back where it was restores the list. */
  lemma RemoveAtReinsert(ts: OldList, i: int)
    requires 0 <= i < |ts|
    ensures RemoveAt(ts, i)[..i] + [ts[i]] + RemoveAt(ts, i)[i..] == ts
  {
    var r := RemoveAt(ts, i);
    assert r[..i] == ts[..i];
    assert r[i..] == ts[i + 1..];
    assert ts == ts[..i] + [ts[i]] + ts[i + 1..];
  }

  /** The DELETE case: `tasks.remove(parseIndex(...))`, then the file is saved. */
  function OldDelete(ts: OldList, line: string, saveError: Option<string>): (r: OldReply)
    requires |ts| <= IntMax
    ensures r.OldReply? && !r.exit
    ensures P.ParseIndex(line, |ts|).Err? ==> OldRefused(r, ts, P.ParseIndex(line, |ts|).error)
    ensures P.ParseIndex(line, |ts|).Ok? ==>
              var i := P.ParseIndex(line, |ts|).value;
              && |r.tasks| == |ts| - 1
              && r.tasks[..i] + [ts[i]] + r.tasks[i..] == ts
              && OldCommitted(r, saveError)
    ensures Settled(ts, r, saveError)
  {
    match P.ParseIndex(line, |ts|)
    case Err(e) => OldRefuse(ts, e)
    case Ok(i) =>
      RemoveAtReinsert(ts, i);
      OldPersist(RemoveAt(ts, i), saveError)
  }

  /** The TODO, DEADLINE and EVENT cases: build the task, append it, then save. */
  function OldAdd(ts: OldList, c: P.Command, line: string, saveError: Option<string>): (r: OldReply)
    requires c == P.Todo || c == P.Deadline || c == P.Event
    ensures r.OldReply? && !r.exit
    ensures Settled(ts, r, saveError)
    ensures OldNewTask(c, line).Err? ==> OldRefused(r, ts, OldNewTask(c, line).error)
    ensures OldNewTask(c, line).Ok? ==> r.tasks == ts + [OldNewTask(c, line).value] && OldCommitted(r, saveError)
  {
    OldAddBuilt(ts, OldNewTask(c, line), saveError)
  }

  /** A constructor's error is reported; a built task is appended and saved. */
  function OldAddBuilt(ts: OldList, built: Result<OldTask, Error>, saveError: Option<string>): (r: OldReply)
    ensures r.OldReply? && !r.exit
    ensures built.Err? ==> OldRefused(r, ts, built.error)
    ensures built.Ok? ==> r.tasks == ts + [built.value] && OldCommitted(r, saveError)
  {
    match built
    case Err(e) => OldRefuse(ts, e)
    case Ok(t) => OldPersist(ts + [t], saveError)
  }

  /** One pass of the first version's loop; a line of spaces only crashes the parser. */
  function OldStep(ts: OldList, line: string, saveError: Option<string>): (r: OldReply)
    requires |ts| <= IntMax
    ensures r.OldCrashed? <==> |line| > 0 && Text.AllSpaces(line)
    ensures r.OldReply? && r.exit <==> P.ParseCommand(line) == Some(P.Bye)
    ensures r.OldReply? && r.exit ==> r.tasks == ts && r.error.None? && !r.saved
    ensures r.OldReply? && r.tasks != ts ==> r.saved || (saveError.Some? && r.error == Some(SaveFailed(saveError.value)))
    ensures r.OldReply? ==> |ts| - 1 <= |r.tasks| <= |ts| + 1
    ensures r.OldReply? && r.error.Some? && !r.error.value.SaveFailed? ==> r.tasks == ts && !r.saved
  {
    match P.ParseCommand(line)
    case None => OldCrashed
    case Some(c) => OldDispatch(ts, c, line, saveError)
  }

  /**
   * The loop body after parsing. BYE is tested before the `switch` and breaks
   * out of the loop; LIST only shows the list; an unrecognised word is
   * reported as unknown.
   */
  function OldDispatch(ts: OldList, c: P.Command, line: string, saveError: Option<string>): (r: OldReply)
    requires |ts| <= IntMax
    ensures r.OldReply?
    ensures r.exit <==> c == P.Bye
    ensures r.exit ==> r.tasks == ts && r.error.None? && !r.saved
    ensures r.tasks != ts ==> r.saved || (saveError.Some? && r.error == Some(SaveFailed(saveError.value)))
    ensures |ts| - 1 <= |r.tasks| <= |ts| + 1
    ensures r.error.Some? && !r.error.value.SaveFailed? ==> r.tasks == ts && !r.saved
  {
    if c == P.Bye then OldReply(ts, true, None, false)
    else
      match c
      case List => OldReply(ts, false, None, false)
      case Mark => OldMarkUnmark(ts, true, line, saveError)
      case Unmark => OldMarkUnmark(ts, false, line, saveError)
      case Delete => OldDelete(ts, line, saveError)
      case Todo => OldAdd(ts, c, line, saveError)
      case Deadline => OldAdd(ts, c, line, saveError)
      case Event => OldAdd(ts, c, line, saveError)
      case _ => OldRefuse(ts, UnknownCommand)
  }

  /** An unrecognised command word is reported and leaves the list as it was, unsaved. */
  lemma OldStepUnknown(ts: OldList, line: string, saveError: Option<string>)
    requires |ts| <= IntMax && P.ParseCommand(line) == Some(P.Unknown)
    ensures OldStep(ts, line, saveError) == OldReply(ts, false, Some(UnknownCommand), false)
  {
  }

  /** Deleting removes exactly the indexed task: putting it back restores the list. */
  lemma OldStepDeleteRemovesOne(ts: OldList, line: string, saveError: Option<string>)
    requires |ts| <= IntMax && P.ParseCommand(line) == Some(P.Delete) && P.ParseIndex(line, |ts|).Ok?
    ensures var i := P.ParseIndex(line, |ts|).value;
            var r := OldStep(ts, line, saveError);
            r.OldReply? && |r.tasks| == |ts| - 1 && r.tasks[..i] + [ts[i]] + r.tasks[i..] == ts
  {
    OldStepOf(ts, line, saveError, P.Delete);
    OldDispatchDelete(ts, line, saveError);
    var i := P.ParseIndex(line, |ts|).value;
    var r := OldDelete(ts, line, saveError);
    assert r.tasks == RemoveAt(ts, i);
    RemoveAtReinsert(ts, i);
  }

  /** Mark and unmark change the done flag of the task the index names, and nothing else. */
  lemma OldStepMarkUnmark(ts: OldList, mark: bool, line: string, saveError: Option<string>)
    requires |ts| <= IntMax && P.ParseCommand(line) == Some(if mark then P.Mark else P.Unmark)
    requires P.ParseIndex(line, |ts|).Ok?
    ensures var i := P.ParseIndex(line, |ts|).value;
            var r := OldStep(ts, line, saveError);
            r.OldReply? && |r.tasks| == |ts| && r.tasks[i].done == mark
            && r.tasks[i].(done := false) == ts[i].(done := false)
            && forall j :: 0 <= j < |ts| && j != i ==> r.tasks[j] == ts[j]
  {
    OldStepOf(ts, line, saveError, if mark then P.Mark else P.Unmark);
    OldDispatchMarkUnmark(ts, mark, line, saveError);
    var i := P.ParseIndex(line, |ts|).value;
    var r := OldMarkUnmark(ts, mark, line, saveError);
    assert r.tasks == OldSetDone(ts, i, mark);
  }

  /** Once the command word is known, a step is the dispatch on it. */
  lemma OldStepOf(ts: OldList, line: string, saveError: Option<string>, c: P.Command)
    requires |ts| <= IntMax && P.ParseCommand(line) == Some(c)
    ensures OldStep(ts, line, saveError) == OldDispatch(ts, c, line, saveError)
  {
  }

  lemma OldDispatchDelete(ts: OldList, line: string, saveError: Option<string>)
    requires |ts| <= IntMax
    ensures OldDispatch(ts, P.Delete, line, saveError) == OldDelete(ts, line, saveError)
  {
  }

  lemma OldDispatchMarkUnmark(ts: OldList, mark: bool, line: string, saveError: Option<string>)
    requires |ts| <= IntMax
    ensures OldDispatch(ts, if mark then P.Mark else P.Unmark, line, saveError) == OldMarkUnmark(ts, mark, line, saveError)
  {
  }

  /** A line whose first word is "todo", with a description after it, appends one not-done to-do and saves. */
  lemma OldStepAddsTodo(ts: OldList, w: string, description: string)
    requires |ts| <= IntMax && ' ' !in w && |w| > 0 && P.Keyword(Text.ToLower(w)) == P.Todo && !Text.IsBlank(description)
    ensures OldStep(ts, w + " " + description, None) == OldReply(ts + [OldTodo(description, false)], false, None, true)
  {
    P.ParseCommandIgnoresArguments(w, description);
    P.ParseCommandOfWord(w);
    P.ParseTodoOf(w, description);
    OldAddsTodoLine(ts, w + " " + description, description);
  }

  lemma OldAddsTodoLine(ts: OldList, line: string, description: string)
    requires |ts| <= IntMax && P.ParseCommand(line) == Some(P.Todo) && P.ParseTodo(line) == Ok(description)
    ensures OldStep(ts, line, None) == OldReply(ts + [OldTodo(description, false)], false, None, true)
  {
    OldStepOf(ts, line, None, P.Todo);
    OldDispatchAdd(ts, P.Todo, line, None);
  }

  lemma OldDispatchAdd(ts: OldList, c: P.Command, line: string, saveError: Option<string>)
    requires |ts| <= IntMax && (c == P.Todo || c == P.Deadline || c == P.Event)
    ensures OldDispatch(ts, c, line, saveError) == OldAdd(ts, c, line, saveError)
  {
  }

  /** The first version's task without the priority the current version adds. */
  function Forget(t: Tasks.Task): (r: OldTask)
    ensures r.description == t.description && r.done == t.done
  {
    match t
    case Todo(description, done, _) => OldTodo(description, done)
    case Deadline(description, done, _, due) => OldDeadline(description, done, due)
    case Event(description, done, _, start, end) => OldEvent(description, done, start, end)
  }

  function ForgetAll(ts: seq<Tasks.Task>): (r: OldList)
    ensures |r| == |ts| && forall i :: 0 <= i < |ts| ==> r[i] == Forget(ts[i])
  {
    seq(|ts|, i requires 0 <= i < |ts| => Forget(ts[i]))
  }

  /** Two replies agree when they differ only in the priorities and in the lines written. */
  predicate Agree(current: Monet.Reply, previous: OldReply)
  {
    match current
    case Crashed => previous.OldCrashed?
    case Reply(tasks, exit, error, saved) =>
      previous.OldReply? && previous.tasks == ForgetAll(tasks) && previous.exit == exit && previous.error == error && previous.saved == saved.Some?
  }

  /**
   * The two versions run the same command loop: on every line, the current
   * step and the first version's step crash together, end together, report
   * the same error and save together, and leave the same list once the
   * priorities are dropped.
   */
  lemma VersionsAgree(ts: TaskLists.TaskList, line: string, priority: Tasks.Priority, saveError: Option<string>)
    requires |ts| <= IntMax
    ensures Agree(Monet.Step(ts, line, priority, saveError), OldStep(ForgetAll(ts), line, saveError))
  {
    match P.ParseCommand(line)
    case None =>
    case Some(c) => DispatchAgree(ts, c, line, priority, saveError);
  }

  lemma DispatchAgree(ts: TaskLists.TaskList, c: P.Command, line: string, priority: Tasks.Priority, saveError: Option<string>)
    requires |ts| <= IntMax
    ensures Agree(Monet.Dispatch(ts, c, line, priority, saveError), OldDispatch(ForgetAll(ts), c, line, saveError))
  {
    var previous := ForgetAll(ts);
    match c
    case Mark =>
      assert Monet.Dispatch(ts, c, line, priority, saveError) == Monet.HandleMarkUnmark(ts, true, line, saveError);
      assert OldDispatch(previous, c, line, saveError) == OldMarkUnmark(previous, true, line, saveError);
      MarkUnmarkAgree(ts, true, line, saveError);
    case Unmark =>
      assert Monet.Dispatch(ts, c, line, priority, saveError) == Monet.HandleMarkUnmark(ts, false, line, saveError);
      assert OldDispatch(previous, c, line, saveError) == OldMarkUnmark(previous, false, line, saveError);
      MarkUnmarkAgree(ts, false, line, saveError);
    case Delete =>
      assert Monet.Dispatch(ts, c, line, priority, saveError) == Monet.HandleDelete(ts, line, saveError);
      assert OldDispatch(previous, c, line, saveError) == OldDelete(previous, line, saveError);
      DeleteAgree(ts, line, saveError);
    case Todo => AddAgree(ts, c, line, priority, saveError);
    case Deadline => AddAgree(ts, c, line, priority, saveError);
    case Event => AddAgree(ts, c, line, priority, saveError);
    case _ =>
  }

  lemma PersistAgree(ts: TaskLists.TaskList, saveError: Option<string>)
    ensures Agree(Monet.Persist(ts, saveError), OldPersist(ForgetAll(ts), saveError))
  {
  }

  lemma MarkUnmarkAgree(ts: TaskLists.TaskList, mark: bool, line: string, saveError: Option<string>)
    requires |ts| <= IntMax
    ensures Agree(Monet.HandleMarkUnmark(ts, mark, line, saveError), OldMarkUnmark(ForgetAll(ts), mark, line, saveError))
  {
    var previous := ForgetAll(ts);
    assert |previous| == |ts|;
    match P.ParseIndex(line, |ts|)
    case Err(_) =>
    case Ok(i) =>
      var after := Monet.SetDone(ts, i, mark);
      var changed := OldSetDone(previous, i, mark);
      ForgetSetDone(ts, i, mark);
      assert Monet.HandleMarkUnmark(ts, mark, line, saveError) == Monet.Persist(after, saveError);
      assert OldMarkUnmark(previous, mark, line, saveError) == OldPersist(changed, saveError);
      PersistAgree(after, saveError);
  }

  lemma ForgetSetDone(ts: TaskLists.TaskList, i: int, mark: bool)
    requires 0 <= i < |ts|
    ensures ForgetAll(Monet.SetDone(ts, i, mark)) == OldSetDone(ForgetAll(ts), i, mark)
  {
  }

  lemma DeleteAgree(ts: TaskLists.TaskList, line: string, saveError: Option<string>)
    requires |ts| <= IntMax
    ensures Agree(Monet.HandleDelete(ts, line, saveError), OldDelete(ForgetAll(ts), line, saveError))
  {
    var previous := ForgetAll(ts);
    assert |previous| == |ts|;
    match P.ParseIndex(line, |ts|)
    case Err(_) =>
    case Ok(i) =>
      var after := TaskLists.Delete(ts, i).value.1;
      ForgetDelete(ts, i);
      assert Monet.HandleDelete(ts, line, saveError) == Monet.Persist(after, saveError);
      assert OldDelete(previous, line, saveError) == OldPersist(RemoveAt(previous, i), saveError);
      PersistAgree(after, saveError);
  }

  lemma ForgetDelete(ts: TaskLists.TaskList, i: int)
    requires 0 <= i < |ts|
    ensures ForgetAll(TaskLists.Delete(ts, i).value.1) == RemoveAt(ForgetAll(ts), i)
  {
  }

  lemma AddAgree(ts: TaskLists.TaskList, c: P.Command, line: string, priority: Tasks.Priority, saveError: Option<string>)
    requires c == P.Todo || c == P.Deadline || c == P.Event
    ensures Agree(Monet.HandleAddTask(ts, c, line, priority, saveError), OldAdd(ForgetAll(ts), c, line, saveError))
  {
    NewTaskAgree(c, line, priority);
    BuiltAgree(ts, Monet.NewTask(c, line, priority), OldNewTask(c, line), saveError);
  }

  lemma BuiltAgree(ts: TaskLists.TaskList, built: Result<Tasks.Task, Error>, previous: Result<OldTask, Error>, saveError: Option<string>)
    requires TaskAgree(built, previous)
    ensures Agree(Monet.AddBuilt(ts, built, saveError), OldAddBuilt(ForgetAll(ts), previous, saveError))
  {
    if built.Ok? {
      ForgetAdd(ts, built.value);
      PersistAgree(TaskLists.Add(ts, built.value), saveError);
    }
  }

  lemma ForgetAdd(ts: TaskLists.TaskList, t: Tasks.Task)
    ensures ForgetAll(TaskLists.Add(ts, t)) == ForgetAll(ts) + [Forget(t)]
  {
  }

  /** Two outcomes of building a task agree: the same error, or the same task up to the priority. */
  predicate TaskAgree(current: Result<Tasks.Task, Error>, previous: Result<OldTask, Error>)
  {
    match current
    case Err(e) => previous == Err(e)
    case Ok(t) => previous == Ok(Forget(t))
  }

  /** Both versions accept the same task lines and build the same task, up to the priority. */
  lemma NewTaskAgree(c: P.Command, line: string, priority: Tasks.Priority)
    requires c == P.Todo || c == P.Deadline || c == P.Event
    ensures TaskAgree(Monet.NewTask(c, line, priority), OldNewTask(c, line))
  {
    if c == P.Deadline {
      NewDeadlineAgree(line, priority);
    } else if c == P.Event {
      NewEventAgree(line, priority);
    }
  }

  lemma NewDeadlineAgree(line: string, priority: Tasks.Priority)
    ensures TaskAgree(Monet.NewTask(P.Deadline, line, priority), OldNewTask(P.Deadline, line))
  {
    match P.ParseDeadline(line)
    case Err(_) =>
    case Ok((description, byText)) =>
      assert Monet.NewTask(P.Deadline, line, priority) == Tasks.NewDeadline(description, byText, priority);
      assert OldNewTask(P.Deadline, line) == NewOldDeadline(description, byText);
      DeadlineConstructorsAgree(description, byText, priority);
  }

  lemma DeadlineConstructorsAgree(description: string, byText: string, priority: Tasks.Priority)
    ensures TaskAgree(Tasks.NewDeadline(description, byText, priority), NewOldDeadline(description, byText))
  {
  }

  lemma NewEventAgree(line: string, priority: Tasks.Priority)
    ensures TaskAgree(Monet.NewTask(P.Event, line, priority), OldNewTask(P.Event, line))
  {
    match P.ParseEvent(line)
    case Err(_) =>
    case Ok((description, fromText, toText)) =>
      assert Monet.NewTask(P.Event, line, priority) == Tasks.NewEvent(description, fromText, toText, priority);
      assert OldNewTask(P.Event, line) == NewOldEvent(description, fromText, toText);
      EventConstructorsAgree(description, fromText, toText, priority);
  }

  lemma EventConstructorsAgree(description: string, fromText: string, toText: string, priority: Tasks.Priority)
    ensures TaskAgree(Tasks.NewEvent(description, fromText, toText, priority), NewOldEvent(description, fromText, toText))
  {
  }
}
