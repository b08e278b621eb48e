# Monet task tracker, modelled in Dafny

Monet is a command-line task tracker. A user types lines such as
`todo read book`, `deadline return book /by 2025-08-30 1800`,
`event meeting /from 2025-08-30 1400 /to 2025-08-30 1600`, `mark 2`,
`delete 1`, `list` and `bye`. The task list is rewritten to a data file after
every change, one task per line, in the form `D | 0 | HIGH | return book | 2025-08-30T18:00`,
and it is read back at start-up.

The model covers two versions of the program:

- **The current version** (package `monet`):
  - the command parser;
  - the task kinds (to-do, deadline, event) with their priority, done flag, display prefix and data-file line;
  - the task list;
  - the data-file codec and its load loop;
  - the command loop, written as a pure step function from (list, line) to a reply.
- **The first version** (the root package):
  - a data file with three header fields and no priority;
  - its own decode thresholds;
  - a load that falls back to an empty list on an application error;
  - its own dispatch loop.

Everything is pure:

- Tasks are an immutable tagged union.
- The list is a `seq`.
- A data file is a `seq<string>` of lines.
- A save produces the lines it would write.
- Each of Java's outcomes is a value:
  - a thrown `MonetException` is a `Result` error;
  - a `null` from the decoder is `Corrupted`;
  - an unchecked `DateTimeParseException` or `IllegalArgumentException` that escapes the load is a distinct fatal outcome (`Unchecked`, `LoadUnchecked`), not a skipped line.

Modules, one per concern:

| file | module | what it holds |
|---|---|---|
| results.dfy | `Results`, `Errors` | `Option`, `Result`, and the causes and messages of `MonetException` |
| text.dfy | `Text` | Java `split` (with and without limit 2), `trim`, `toLowerCase`, `contains`, joining with a separator |
| numbers.dfy | `Numbers` | decimal digits, zero padding, `Integer.parseInt` with its 32-bit range |
| datetimes.dfy | `DateTimes` | `LocalDateTime` to the minute; the "yyyy-MM-dd HHmm" input form and the ISO form |
| tasks.dfy | `Tasks` | `Priority`, `Task`, `Todo`, `Deadline`, `Event` |
| tasklist.dfy | `TaskLists` | `TaskList` |
| parser.dfy | `Parser` | `Parser` and the `Command` enum |
| loading.dfy | `Loading` | the line loop shared by both versions' loads |
| storage.dfy | `Storage` | the current data-file codec, `load` and `save` |
| monet.dfy | `Monet` | the current constructor, `run` and `handle*` |
| legacy_tasks.dfy | `LegacyTasks` | the first version's `Deadline` and `Event` |
| legacy_storage.dfy | `LegacyStorage` | the first version's codec, `load` and `save` |
| legacy_monet.dfy | `LegacyMonet` | the first version's loop, and how it agrees with the current one |

## Model

| member | source | states |
|---|---|---|
| Parser.ParseCommand | src/main/java/monet/Parser.java:14-37 | The call fails, with no command, exactly on a non-empty line of spaces only: `split(" ")` returns an empty array and `[0]` throws. Every other line gives the command of its lower-cased first word, and never FIND. |
| Parser.KeywordTable | src/main/java/monet/Parser.java:17-36 | Each of the eight spellings gives its command, and a word gives UNKNOWN exactly when it is none of them. "find" and "priority" are UNKNOWN although the enum declares FIND. |
| Parser.ParseCommandIgnoresCase | src/main/java/monet/Parser.java:15 | Upper-casing the whole line does not change the command. |
| Parser.ParseCommandIgnoresArguments | src/main/java/monet/Parser.java:15 | Only the first space-separated word decides the command; whatever follows the first space is irrelevant. |
| Parser.ParseCommandListExample | src/main/java/monet/Parser.java:15-19 | "LIST" is LIST. |
| Parser.ParseCommandFindExample | src/main/java/monet/Parser.java:17-35 | "find book" is UNKNOWN. |
| Parser.ParseCommandBlankExample | src/main/java/monet/Parser.java:15 | "   " has no command: the parser crashes on it. |
| Parser.ParseTodo | src/main/java/monet/Parser.java:47-55 | The call fails with the to-do error iff there is no space or the text after the first space is blank. Otherwise it returns that text verbatim, untrimmed. |
| Parser.ParseTodoOf | src/main/java/monet/Parser.java:47-55 | For any command word and non-blank description, "word description" gives back the description unchanged. |
| Parser.ParseDeadline | src/main/java/monet/Parser.java:65-77 | A missing argument is the "empty" error and nothing else is. On success the argument is exactly `description + " /by " + date`, both sides are non-blank, and the split is at the first " /by ". |
| Parser.ParseDeadlineCut | src/main/java/monet/Parser.java:65-77 | The converse of ParseDeadline: whenever the argument is a non-blank description, " /by " and a non-blank date, cut at the first " /by ", the parse returns exactly that description and date. The description may hold '/'. |
| Parser.SplitDeadlineCut | src/main/java/monet/Parser.java:72-76 | The same converse for the text after the command word. |
| Parser.ParseDeadlineOf | src/main/java/monet/Parser.java:65-77 | Any description without '/' and any date, both non-blank, parse back to the same pair. |
| Parser.ParseDeadlineExample | src/test/java/monet/ParserTest.java:10-16 | "deadline return book /by 2025-08-30 1800" gives ("return book", "2025-08-30 1800"). |
| Parser.ParseDeadlineMissingBy | src/test/java/monet/ParserTest.java:18-28 | "deadline return book 2025-08-30 1800" is the deadline format error. |
| Parser.ParseDeadlineMissingDescription | src/test/java/monet/ParserTest.java:30-37 | "deadline /by 2025-08-30 1800" is the deadline format error: the marker needs its leading space. |
| Parser.ParseDeadlineWithoutMarker | src/main/java/monet/Parser.java:72-75 | Any non-blank argument without " /by " is the deadline format error. |
| Parser.ParseEvent | src/main/java/monet/Parser.java:87-105 | A missing argument is the "empty" error and nothing else is. Any other failure is the event format error. On success the three parts are non-empty and already trimmed. |
| Parser.ParseEventCut | src/main/java/monet/Parser.java:87-105 | An accepted event comes from a cut of the argument into "description /from start /to end", at the first " /from " and then the first " /to " after it, with three non-blank pieces; the result is those pieces trimmed. Conversely every such cut is accepted with exactly that result. |
| Parser.SplitEventCut | src/main/java/monet/Parser.java:93-104 | The same two directions for the text after the command word. |
| Parser.ParseEventOfCut | src/main/java/monet/Parser.java:87-105 | "word description /from start /to end", cut at its first markers into non-blank pieces, parses to the three trimmed pieces, even when the description holds '/'. |
| Parser.ParseEventOf | src/main/java/monet/Parser.java:87-105 | A line built from a description, a start and an end parses to the three trimmed parts, in that order. Neither of the first two may hold '/', and all three are non-blank. |
| Parser.ParseEventWithoutTo | src/main/java/monet/Parser.java:98-101 | A " /from " part with no " /to " after it is the event format error. |
| Parser.ParseEventMissingTo | src/main/java/monet/Parser.java:98-101 | "event meeting /from 2025-08-30 1800" is the event format error. |
| Parser.ParseIndex | src/main/java/monet/Parser.java:115-133 | Three errors, each with its exact cause: a missing argument, a non-integer argument, and an out-of-range number. Success happens iff the number n satisfies 1 <= n <= size, and then the index is n - 1, with 0 <= index < size. |
| Parser.ParseIndexCauses | src/main/java/monet/Parser.java:115-133 | Each line fails for at most one cause, and each error occurs exactly on its cause: no argument, an argument that is not an int, or an int outside 1..size. The parse succeeds exactly when none of them holds. |
| Parser.ParseIndexOf | src/main/java/monet/Parser.java:115-128 | Writing the 1-based number of any position k of the list gives back k. |
| Parser.ParseIndexErrors | src/main/java/monet/Parser.java:117-131 | "mark 0" is out of range, "mark one" is not a number, and "mark" is missing its argument. |
| Text.SplitOnce | src/main/java/monet/Parser.java:50 | `split(d, 2)` gives one part iff the delimiter does not occur. Otherwise it gives two parts that rebuild the text around the first occurrence. |
| Text.SplitOnceCut | src/main/java/monet/Parser.java:50 | Any way of writing the text as `a + d + b` with no `d` inside `a` before its end is the split `split(d, 2)` makes. |
| Text.JavaSplitOnSpaces | src/main/java/monet/Parser.java:15 | `split(" ")` is empty iff the line is non-empty and all spaces. Otherwise its first element is the first part of `split(" ", 2)`. |
| Text.JavaSplitJoin | src/main/java/monet/Storage.java:89 | Splitting fields joined by " \| " gives the fields back. The fields must not contain '\|' and the last one must be non-empty. |
| Text.Trim | src/main/java/monet/Parser.java:51 | `trim()` removes exactly the leading and trailing characters up to U+0020. It is empty iff the text is all such characters, and leaves a text already without them unchanged. |
| Text.ToLower | src/main/java/monet/Parser.java:15 | `toLowerCase` keeps the length and lowers each character (A-Z to a-z, KELVIN SIGN to 'k'), so no ASCII capital letter is left. |
| Numbers.ParseIntDecimal | src/main/java/monet/Parser.java:122 | `Integer.parseInt` reads back the decimal text of every non-negative int. |
| Numbers.ParseIntRejects | src/main/java/monet/Parser.java:122-131 | A character that is neither a digit nor a sign makes `parseInt` fail, which is the "not a number" error. |
| Numbers.Wrap32 | src/main/java/monet/Parser.java:122 | 32-bit subtraction: values in int range are unchanged, and `Integer.MIN_VALUE - 1` wraps to `Integer.MAX_VALUE`. |
| Numbers.ParseInt | src/main/java/monet/Parser.java:122 | `Integer.parseInt` gives a value inside the 32-bit int range, and only for non-empty text. |
| Numbers.ParseIntText | src/main/java/monet/Parser.java:122 | Text that `parseInt` accepts is an optional sign followed by at least one digit and nothing else, and a negative value needs a leading '-'. |
| DateTimes.InputRoundTrip | src/main/java/monet/Deadline.java:14 | Any date-time with a year from 1 to 9999, written in "yyyy-MM-dd HHmm", parses back to itself. |
| DateTimes.IsoRoundTrip | src/main/java/monet/Storage.java:116 | `LocalDateTime.parse` reads back what `toString` wrote. |
| DateTimes.IsoCanonical | src/main/java/monet/Storage.java:116 | A text reads as a date-time exactly when it is what `toString` writes for that date-time. |
| DateTimes.ParseInput | src/main/java/monet/Deadline.java:31 | `LocalDateTime.parse(text, "yyyy-MM-dd HHmm")` accepts only 15-character text with a year from 1, and only the canonical spelling of its value: formatting the result gives the text back. |
| DateTimes.InputCanonical | src/main/java/monet/Deadline.java:31 | A text reads as a date-time exactly when it is that date-time formatted in "yyyy-MM-dd HHmm" and the year is at least 1. |
| DateTimes.InputText | src/main/java/monet/Deadline.java:14 | The formatted text has '-', '-' and ' ' at positions 4, 7 and 10, and the year, month, day, hour and minute in digits at fixed places. |
| DateTimes.ParseIso | src/main/java/monet/Storage.java:116 | `LocalDateTime.parse` accepts only 16-character text, and only what `toString` writes for the value it returns. |
| DateTimes.RenderIso | src/main/java/monet/Deadline.java:58 | `toString` of a date-time with zero seconds is 16 characters long. |
| DateTimes.IsoText | src/main/java/monet/Deadline.java:58 | The ISO text has '-', '-', 'T' and ':' at positions 4, 7, 10 and 13, and the year, month, day, hour and minute in digits between them. |
| Tasks.PriorityOf | src/main/java/monet/Priority.java:16-25 | HIGH iff the level is 1, LOW iff it is 3, and MEDIUM for every other int, so the call is total. |
| Tasks.PriorityOfLevel | src/main/java/monet/Priority.java:6-25 | Each priority's level (1 to 3) maps back to that priority. |
| Tasks.PriorityValueOf | src/main/java/monet/Storage.java:99 | `valueOf` finds the priority whose name is the text, and finds none only when no priority has that name. |
| Tasks.PriorityNamesRoundTrip | src/main/java/monet/Priority.java:6-7 | Exactly three priorities, in the order HIGH, MEDIUM, LOW. The stored name of each reads back as the same priority. |
| Tasks.NewTodo | src/main/java/monet/Todo.java:14-16 | A new to-do keeps its description and priority and is not done. |
| Tasks.NewDeadline | src/main/java/monet/Deadline.java:27-36 | A deadline is made iff the trimmed text is in the "yyyy-MM-dd HHmm" pattern, and then its due date is that value. Otherwise the result is the deadline date error. A new deadline is not done. |
| Tasks.NewDeadlineAccepts | src/main/java/monet/Deadline.java:27-36 | A date typed in the pattern, with spaces around it, gives a deadline on exactly that date. |
| Tasks.NewEvent | src/main/java/monet/Event.java:28-36 | An event is made iff both trimmed texts are in the "yyyy-MM-dd HHmm" pattern, and then its start and end are those values. If either fails, the result is the single event date error. A new event is not done. |
| Tasks.NewEventIgnoresOrder | src/main/java/monet/Event.java:28-50 | Neither constructor checks that the start is before the end: both orders of two dates are accepted. |
| Tasks.MarkAsDone | src/main/java/monet/Task.java:27-29 | The task is done afterwards; only the done flag changes. |
| Tasks.UnmarkAsDone | src/main/java/monet/Task.java:34-36 | The task is not done afterwards; only the done flag changes. |
| Tasks.MarkUnmarkLaws | src/main/java/monet/Task.java:27-36 | Marking and unmarking are each idempotent, and each undoes the other. |
| Tasks.StatusIcon | src/main/java/monet/Task.java:20-22 | The icon is "X" iff the task is done, and " " iff it is not. |
| Tasks.Display | src/main/java/monet/Task.java:39-41 | With the subclasses' `toString`, a to-do shows "[T][icon] description". A deadline adds " (by: date)", and an event adds " (from: start to: end)", with each date in the display format. |
| Tasks.DisplayStartsWithBoxes | src/main/java/monet/Task.java:39-41 | The display line begins with "[kind][icon] description". Character 1 is the kind letter and character 4 is the done mark, whatever the date display. |
| Tasks.DisplayTodoExample | src/test/java/monet/TaskListTest.java:22 | A new to-do "task 3" displays as "[T][ ] task 3". |
| Tasks.TodoFileString | src/main/java/monet/Todo.java:24-26 | The to-do line is "T \| bit \| PRIORITY \| description", where the bit is "1" iff the task is done. |
| Tasks.DeadlineFileString | src/main/java/monet/Deadline.java:57-60 | The deadline line is "D \| bit \| PRIORITY \| description \| ISO due". |
| Tasks.EventFileString | src/main/java/monet/Event.java:59-62 | The event line is "E \| bit \| PRIORITY \| description \| ISO start \| ISO end". |
| Tasks.ToFileString | src/main/java/monet/Storage.java:74 | Every written line opens with its kind tag and " \| ". It holds a line break only if the description does, so each task stays one line of the file. |
| TaskLists.Get | src/main/java/monet/TaskList.java:23-29 | A position is found iff it is within the list's length, and then it holds that element. |
| TaskLists.Add | src/main/java/monet/TaskList.java:31-33 | The list grows by one, the new task is last, and the earlier tasks are unchanged. |
| TaskLists.Delete | src/main/java/monet/TaskList.java:35-37 | The call succeeds iff the index is in range. It then returns element i, and the rest keeps the elements before i and shifts the later ones down by one. |
| TaskLists.DeleteReinsert | src/main/java/monet/TaskList.java:35-37 | Putting the removed task back at its index rebuilds the list. |
| TaskLists.AddThenDelete | src/main/java/monet/TaskList.java:31-37 | Deleting the last task just added gives back that task and the original list. |
| TaskLists.DeleteMiddleExample | src/test/java/monet/TaskListTest.java:9-23 | Deleting position 1 of three tasks leaves two, with the third task now at position 1. |
| TaskLists.DeletePastEndExample | src/test/java/monet/TaskListTest.java:25-36 | Deleting position 1 of a one-task list fails. |
| TaskLists.Find | src/main/java/monet/TaskList.java:46-58 | A task is in the result iff it is in the list and its description contains the keyword, case-sensitively. |
| TaskLists.FindSubsequence | src/main/java/monet/TaskList.java:46-58 | The result is a subsequence of the list, so the original order is kept. |
| TaskLists.FindConcat | src/main/java/monet/TaskList.java:46-58 | Filtering a concatenation gives the concatenation of the filtered parts. |
| TaskLists.FindAllMatch | src/main/java/monet/TaskList.java:46-58 | When every description contains the keyword, the result is the whole list. |
| TaskLists.FindEmptyKeyword | src/main/java/monet/TaskList.java:52 | Every description contains the empty keyword, so the result is the whole list. |
| Loading.LoadLines | src/main/java/monet/Storage.java:39-50 | The load completes iff no non-blank line's decoding throws. It then keeps at most one task per line. |
| Loading.LoadOne | src/main/java/monet/Storage.java:41-49 | A blank line is skipped. Otherwise a decoded task is kept, a corrupted line is dropped, and an exception ends the load. |
| Loading.LoadConcat | src/main/java/monet/Storage.java:39-50 | Loading two files end to end is loading the first and then the second. Tasks keep file order, and the first exception wins. |
| Loading.LoadSkips | src/main/java/monet/Storage.java:42-49 | Removing a blank or corrupted line anywhere does not change the load. |
| Loading.NeverChecked | src/main/java/Storage.java:22-38 | A decoder that never raises the application error makes the load never raise it either. |
| Storage.Decode | src/main/java/monet/Storage.java:87-139 | Fewer than four fields is corrupted. An unknown priority name is fatal whatever the tag. The line is corrupted iff the tag is unknown or the kind lacks its fields (D needs 5, E needs 6). A decoded task is done iff field 1 is "1", and has the line's kind, priority and description. A deadline is due on the ISO date in field 4, and an event runs from field 4 to field 5. A dated line whose date does not parse is fatal, with the fault of field 4 before field 5. |
| Storage.DecodeCanonical | src/main/java/monet/Storage.java:87-139 | Re-encoding a decoded task reproduces the line's fields, except the done bit and any extra fields. |
| Storage.FieldsOfFileString | src/main/java/monet/Storage.java:89 | When the description is non-empty and has no '\|', splitting a written line gives exactly the task's 4, 5 or 6 fields. |
| Storage.RoundTrip | src/main/java/monet/Storage.java:87-139 | Decoding a written line gives back the same task: kind, done flag, priority, description and dates. The description must be non-empty and have no '\|'. |
| Storage.Save | src/main/java/monet/Storage.java:64-77 | One line per task, in list order, each that task's `toFileString`. |
| Storage.Load | src/main/java/monet/Storage.java:32-56 | The load never raises the application error. It completes iff no non-blank line throws while being decoded. |
| Storage.LoadSaveRoundTrip | src/main/java/monet/Storage.java:32-77 | Loading what was saved gives back the same list, in order. Every description must be non-empty and have no '\|'. |
| Storage.EmptyTodoIsLost | src/main/java/monet/Storage.java:89-95 | A to-do with an empty description is written but read back as corrupted: the trailing empty field is dropped. |
| Storage.SeparatorInDescription | src/main/java/monet/Storage.java:89-116 | Some deadlines whose description contains " \| " make the next load fail fatally on a bad date. |
| Storage.ExtraFieldsIgnored | src/main/java/monet/Storage.java:107-109 | A "T" line with extra fields still decodes to the to-do. |
| Storage.PriorityReadBeforeTag | src/main/java/monet/Storage.java:99-132 | An unknown priority name is fatal even on a line whose tag is unknown. |
| Monet.Startup | src/main/java/monet/Monet.java:20-29 | A missing file starts with an empty list. A load that throws unchecked stops the program; otherwise the program starts with the loaded tasks. |
| Monet.StartupAfterSave | src/main/java/monet/Monet.java:20-29 | Restarting on a saved file gives back the saved list. |
| Monet.Step | src/main/java/monet/Monet.java:34-74 | A line crashes the loop iff it is non-empty and all spaces. It exits iff its command is BYE, and exiting leaves the list alone. A changed list is saved, or the save error is reported. The size changes by at most one. A refused command changes nothing and saves nothing. |
| Monet.Dispatch | src/main/java/monet/Monet.java:44-66 | The loop exits iff the command is BYE. A saved file always holds the new list. A validation error leaves the list unchanged and saves nothing. |
| Monet.NewTask | src/main/java/monet/Monet.java:85-103 | A to-do is made iff its parse succeeds. A deadline is made iff its parse succeeds and the trimmed date is in the "yyyy-MM-dd HHmm" pattern, and then it is due on that date. An event is made iff its parse succeeds and both trimmed dates are in the pattern, and then it starts and ends on those dates. The task is not done, has the given priority and the parsed description. A parse error is passed on unchanged; a bad date is the kind's date error. |
| Monet.BuildDeadline | src/main/java/monet/Monet.java:94-96 | The deadline case alone: made iff the parse succeeds and the date reads, due on that date. |
| Monet.BuildEvent | src/main/java/monet/Monet.java:98-100 | The event case alone: made iff the parse succeeds and both dates read, with that start and end. |
| Monet.HandleAddTask | src/main/java/monet/Monet.java:85-107 | A command that is not an add changes nothing and reports nothing. A task that cannot be built is refused with its error: the list is unchanged and nothing is written. A built task is appended as the last element. With no save error the new list's lines are written and no error is shown; otherwise nothing is written and the save error is shown. |
| Monet.AddBuilt | src/main/java/monet/Monet.java:104-106 | A constructor error is refused: the list is unchanged and nothing is written. A built task makes the list `ts + [t]`, which is written, or the save error is shown. |
| Monet.HandleDelete | src/main/java/monet/Monet.java:117-122 | An index error is refused with that error: the list is unchanged and nothing is written. A valid index i shrinks the list by one, and putting the old task i back at i rebuilds the old list. The new list is written, or the save error is shown. |
| Monet.SetDone | src/main/java/monet/Monet.java:134-142 | Only the indexed task changes, and only in its done flag. |
| Monet.HandleMarkUnmark | src/main/java/monet/Monet.java:133-144 | An index error is refused with that error: the list is unchanged and nothing is written. A valid index i keeps the size, sets task i's done flag to the requested value, and changes nothing else in it or in any other task. The new list is written, or the save error is shown. |
| Monet.StepUnknown | src/main/java/monet/Monet.java:64-65 | An unknown command is the unknown-command error, with the list unchanged. |
| Monet.StepByeList | src/main/java/monet/Monet.java:45-51 | BYE exits and LIST continues, both with the list unchanged. |
| Monet.SaveFailureKeepsChange | src/main/java/monet/Monet.java:67-69 | A failing save does not roll back the in-memory change. It is reported as the error instead. |
| Monet.Persist | src/main/java/monet/Monet.java:67-69 | After a change the list is kept and the loop goes on. With no `IOException` the lines of exactly that list are written and no error is shown. Otherwise nothing is written and the exception's message is shown. |
| Monet.StepAddsTodo | src/main/java/monet/Monet.java:85-106 | "todo description" appends exactly one new to-do and saves the new list. |
| Monet.StepAddsDeadline | src/main/java/monet/Monet.java:94-106 | "deadline description /by date", cut at the first " /by ", with a date in the input pattern appends one deadline due on that date, and saves. |
| Monet.StepAddsEvent | src/main/java/monet/Monet.java:98-106 | "event description /from start /to end", cut at its first markers, with both dates in the input pattern appends one event with the trimmed description and those dates, and saves. |
| Monet.StepAddsBuilt | src/main/java/monet/Monet.java:59-63 | An add line whose task can be built appends exactly that task and saves. |
| Monet.StepDeleteRemovesOne | src/main/java/monet/Monet.java:117-121 | A valid delete shrinks the list by one. Reinserting the removed task at the parsed index rebuilds it. |
| Monet.StepMarkUnmark | src/main/java/monet/Monet.java:133-143 | A valid mark or unmark sets only the indexed task's done flag, to true or to false. |
| Monet.Run | src/main/java/monet/Monet.java:34-74 | The run crashes iff some line crashes the parser before any BYE. It ends by BYE iff some BYE line comes before any crashing line. A run that has not exited has seen no BYE. The list never grows by more than one task per line. |
| Monet.FirstLineDecides | src/main/java/monet/Monet.java:37-48 | A first line that crashes or says BYE settles how the run ends; any other first line leaves the question to the lines after it. |
| Monet.RunIgnoresInputAfterExit | src/main/java/monet/Monet.java:37-48 | Once BYE ends the loop, later lines change nothing. |
| LegacyTasks.NewOldDeadline | src/main/java/Deadline.java:13-20 | A deadline is made iff the trimmed text is in the "yyyy-MM-dd HHmm" pattern; otherwise the result is the deadline date error. |
| LegacyTasks.NewOldDeadlineAccepts | src/main/java/Deadline.java:13-20 | A date typed in the pattern, padded with spaces, gives a deadline on that date. |
| LegacyTasks.NewOldEvent | src/main/java/Event.java:12-20 | An event is made iff both trimmed texts are in the pattern; either failing is the single event date error. |
| LegacyTasks.OldDeadlineFileString | src/main/java/Deadline.java:33-36 | The line is "D \| bit \| description \| ISO due", with no priority field. |
| LegacyTasks.OldEventFileString | src/main/java/Event.java:35-37 | The line is "E \| bit \| description \| ISO start \| ISO end". |
| LegacyStorage.OldDecode | src/main/java/Storage.java:53-98 | A line is corrupted iff it has fewer than three fields, an unknown tag, or fewer fields than its kind needs (D needs 4, E needs 5). The done flag is field 1 = "1" and the description is field 2. Only a bad date is fatal. |
| LegacyStorage.OldDecodeFields | src/main/java/Monet.java:166-211 | The copy inside the first `Monet` has the same thresholds. A deadline's or event's dates are the ISO values of fields 3 and 4. |
| LegacyStorage.OldLoad | src/main/java/Storage.java:16-40 | A missing file is an empty list; otherwise this is the shared line loop with the first version's decoder. |
| LegacyStorage.OldSave | src/main/java/Storage.java:42-51 | One line per task, in order, each that task's `toFileString`. |
| LegacyStorage.OldRoundTrip | src/main/java/Storage.java:53-98 | A written deadline or event line reads back as the same task, even with an empty description. |
| LegacyStorage.OldLoadSaveRoundTrip | src/main/java/Storage.java:16-51 | Loading a saved list of deadlines and events gives it back, in order. |
| LegacyStorage.OldTodoLine | src/main/java/Storage.java:60-67 | "T \| bit \| description" reads as a to-do that is done iff the bit is "1". |
| LegacyStorage.CurrentLineReadByOldVersion | src/main/java/Storage.java:53-67 | The first version reads a current to-do line as a to-do whose description is the priority name. |
| LegacyMonet.OldStartup | src/main/java/Monet.java:137-164 | A missing file is an empty list. An unchecked exception during the load stops the program; otherwise the program starts with the loaded tasks. |
| LegacyMonet.OldStartupAfterSave | src/main/java/Monet.java:123-164 | Restarting on a saved list of deadlines and events gives it back. |
| LegacyMonet.OldPersist | src/main/java/Monet.java:107-108 | After a change the list is kept and the loop goes on. The file is rewritten exactly when there is no `IOException`; otherwise its message is shown. |
| LegacyMonet.OldStep | src/main/java/Monet.java:26-112 | The loop crashes iff the line is non-empty and all spaces, and exits iff the command is BYE, with the list untouched. A changed list is saved or the save error is reported. A refused command changes nothing. |
| LegacyMonet.OldDispatch | src/main/java/Monet.java:35-105 | Every command of the switch exits iff it is BYE and keeps the list then. A changed list is saved or the save error is reported. The size changes by at most one. A refused command changes nothing and saves nothing. |
| LegacyMonet.OldNewTask | src/main/java/Monet.java:69-93 | A to-do is made iff its parse succeeds. A deadline is made iff its parse succeeds and the trimmed date is in the pattern, and then it is due on that date. An event is made iff its parse succeeds and both trimmed dates are in the pattern, with those dates. The task is not done and has the parsed description. A parse error is passed on; a bad date is the kind's date error. |
| LegacyMonet.OldBuildDeadline | src/main/java/Monet.java:80-82 | The deadline case alone: made iff the parse succeeds and the date reads, due on that date. |
| LegacyMonet.OldBuildEvent | src/main/java/Monet.java:91-93 | The event case alone: made iff the parse succeeds and both dates read, with that start and end. |
| LegacyMonet.OldAdd | src/main/java/Monet.java:69-100 | A task that cannot be built is refused: the list is unchanged and the file is not rewritten. A built task is appended as the last element, and the file is rewritten or the save error shown. |
| LegacyMonet.OldAddBuilt | src/main/java/Monet.java:69-100 | A constructor error is refused: the list is unchanged and the file is not rewritten. A built task makes the list `ts + [t]`; the file is rewritten, or the save error is shown. |
| LegacyMonet.OldSetDone | src/main/java/Monet.java:45-53 | Only the indexed task changes, and only in its done flag. |
| LegacyMonet.OldMarkUnmark | src/main/java/Monet.java:43-57 | An index error is refused with that error and changes nothing. A valid index i keeps the size, sets task i's done flag, and changes nothing else. The file is rewritten, or the save error is shown. |
| LegacyMonet.RemoveAt | src/main/java/Monet.java:61 | `remove(i)` keeps the elements before i and shifts the later ones down. |
| LegacyMonet.RemoveAtReinsert | src/main/java/Monet.java:61 | Reinserting the removed element rebuilds the list. |
| LegacyMonet.OldDelete | src/main/java/Monet.java:59-67 | An index error is refused with that error and changes nothing. A valid index i shrinks the list by one, and putting the old task i back at i rebuilds it. The file is rewritten, or the save error is shown. |
| LegacyMonet.OldStepUnknown | src/main/java/Monet.java:102-104 | UNKNOWN is the unknown-command error, with the list unchanged. |
| LegacyMonet.OldStepDeleteRemovesOne | src/main/java/Monet.java:59-66 | A valid delete removes exactly the element at the parsed index; the size drops by one. |
| LegacyMonet.OldStepMarkUnmark | src/main/java/Monet.java:43-56 | A valid mark or unmark sets only that task's done flag, to true or to false. |
| LegacyMonet.OldStepAddsTodo | src/main/java/Monet.java:69-77 | "todo description" appends exactly one new to-do and saves. |
| LegacyMonet.OldAddsTodoLine | src/main/java/Monet.java:69-78 | Any line that parses as a to-do appends exactly that to-do. |
| LegacyMonet.VersionsAgree | src/main/java/Monet.java:26-112 | The two loops react to every line in the same way: the same crash, exit, error and save. They reach the same list once priorities are dropped. |
| LegacyMonet.NewTaskAgree | src/main/java/Monet.java:69-93 | Both versions make the same task, or raise the same error, from the same add line. |

## Left out

- Console and GUI front ends (`Ui`, `Main`, `MainWindow`): they only print and read. The step function returns what would be shown (the reply and its error) instead.
- File-system effects:
  - A data file is the sequence of its lines, and a missing file is `None`.
  - A save is the sequence of lines it would write.
  - A failing write is the parameter `saveError` of a step.
  - `mkdirs`, `FileNotFoundException` and line separators are not modelled.
- Reading the console is not modelled either: `Monet.Run` takes the lines as a sequence. Each input also carries the priority for an add and the outcome of a save. `Scanner` running out of input is not modelled; the loop ends when the sequence ends.
- Monet.NewTask: `monet/Monet.java` builds tasks without a priority (`monet/Monet.java:91`), although the constructor in `monet/Todo.java` needs one. The add step therefore takes the priority as a parameter instead of inventing a rule for it.
- Tasks.NewTodo: `monet/Task.java` has no priority field, although `Todo` reads and writes one. The model gives every task a priority, as `Todo` expects.
- Tasks.Display: the date display "MMM dd yyyy, h:mm a" depends on the locale, so it is the parameter `show`. The text around the dates is stated exactly; the dates themselves are whatever `show` returns.
- DateTimes.ParseInput does not model the `SMART` resolution of `DateTimeFormatter`:
  - a day 29 to 31 beyond the month's end is refused rather than moved to the month's last day;
  - years outside 1 to 9999 and the hour 24 are refused.
- Storage.Decode reads only the ISO form "yyyy-MM-ddTHH:mm", which is what the program writes. `LocalDateTime.parse` also accepts:
  - seconds and fractions;
  - signed years beyond four digits;
  - a lower-case 't' as separator ("2025-08-30t18:00"), because `ISO_LOCAL_DATE_TIME` parses case-insensitively.

  A hand-edited line in those forms is fatal in the model, while Java would read it.
- DateTimes.IsoRoundTrip: a date-time has a whole minute and a four-digit year, so `toString` never prints seconds or a sign.
- Text.ToLower and Text.ToUpper: the model fixes a default locale other than Turkish or Azeri. There `toLowerCase` maps A-Z to a-z and the KELVIN SIGN to 'k', and no other character lowers to an ASCII letter, so no other letter can spell a command. Under a Turkish or Azeri default locale 'I' lowers to a dotless 'ı' and 'İ' to 'i'. There "LIST" would be UNKNOWN and "LİST" would be LIST; that case mapping is not modelled.
- Numbers.ParseInt: only ASCII digits are accepted; Java's `parseInt` also accepts other Unicode decimal digits.
- The list size is bounded by `Integer.MAX_VALUE`, the largest size an `ArrayList` can report to `parseIndex`.
- The assertion at `monet/Storage.java:104` is not modelled: Java assertions are disabled by default, and the `switch` after it drops unknown tags anyway.
- `Command` and `MonetException` have no members of their own. They are folded into `Parser.Command` and `Errors.Error` (the message of each cause is `Errors.Message`).
- The first version's `Todo`, `Task` and `Parser` classes are not part of this model:
  - Its loop is modelled with the current parser.
  - Its to-do line is read (`LegacyStorage.OldTodoLine`) but never written, because its `toFileString` is not part of this model. `LegacyStorage.OldSave` therefore takes deadlines and events only.
  - Its step reports only whether it saved, not the lines it wrote.
- The first version's display text is not modelled (its `Task.toString` is not part of this model).
- The load's fallback to an empty list after a `MonetException` (`monet/Monet.java:25-28`, `Storage.java:35-38`) is modelled but cannot happen. Neither version's decoder raises that exception, as `Loading.NeverChecked` states.
