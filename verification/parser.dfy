/**
 * `Parser`: reads the command word of an input line and the arguments of the
 * todo, deadline, event and index-taking commands. Every `MonetException` the
 * Java code throws becomes an `Err` carrying the matching `Error`.
 */
module Parser {
  import opened Results
  import opened Errors
  import opened Text
  import opened Numbers

  /** The command enum, including `FIND`, which the parser never produces. */
  datatype Command = List | Mark | Unmark | Delete | Todo | Deadline | Event | Bye | Find | Unknown

  /** The `switch` on the lower-cased command word. */
  function Keyword(word: string): (c: Command)
    ensures c != Find
  {
    if word == "list" then List
    else if word == "mark" then Mark
    else if word == "unmark" then Unmark
    else if word == "delete" then Delete
    else if word == "todo" then Todo
    else if word == "deadline" then Deadline
    else if word == "event" then Event
    else if word == "bye" then Bye
    else Unknown
  }

  /** The word each recognised command answers to. */
  function Spelling(c: Command): Option<string>
  {
    match c
    case List => Some("list")
    case Mark => Some("mark")
    case Unmark => Some("unmark")
    case Delete => Some("delete")
    case Todo => Some("todo")
    case Deadline => Some("deadline")
    case Event => Some("event")
    case Bye => Some("bye")
    case Find => None
    case Unknown => None
  }

  /**
   * The switch recognises exactly the eight spelled commands; every other word,
   * "find" and "priority" among them, is `UNKNOWN`.
   */
  lemma KeywordTable(word: string)
    ensures forall c :: Spelling(c) == Some(word) ==> Keyword(word) == c
    ensures Keyword(word) == Unknown <==> forall c :: Spelling(c) != Some(word)
    ensures Keyword("find") == Unknown && Keyword("priority") == Unknown
  {
    if Keyword(word) != Unknown {
      assert Spelling(Keyword(word)) == Some(word);
    }
  }

  /**
   * `fullInput.split(" ")[0]`: the first word. A non-empty line of spaces splits
   * into an empty array, and indexing it throws; that case is `None`.
   */
  function CommandWord(line: string): (r: Option<string>)
    ensures r.None? <==> |line| > 0 && AllSpaces(line)
    ensures r.Some? ==> r.value == FirstWord(line)
  {
    var words := JavaSplit(line, " ");
    JavaSplitOnSpaces(line);
    SplitOnceFirstWord(line);
    if |words| == 0 then None else Some(words[0])
  }

  /**
   * `parseCommand(fullInput)`: the lower-cased first word picks the command.
   * `None` is the uncaught `ArrayIndexOutOfBoundsException` of an all-space line.
   */
  function ParseCommand(line: string): (r: Option<Command>)
    ensures r.None? <==> |line| > 0 && AllSpaces(line)
    ensures r.Some? ==> r.value != Find
    ensures r.Some? ==> r.value == Keyword(ToLower(FirstWord(line)))
  {
    match CommandWord(line)
    case None => None
    case Some(word) => Some(Keyword(ToLower(word)))
  }

  /** Case does not matter: the upper-cased line names the same command. */
  lemma ParseCommandIgnoresCase(line: string)
    ensures ParseCommand(ToUpper(line)) == ParseCommand(line)
  {
    AllSpacesUpper(line);
    FirstWordUpper(line);
    LowerOfUpper(FirstWord(line));
  }

  /** Only the first word counts: whatever follows the first space is ignored. */
  lemma ParseCommandIgnoresArguments(w: string, rest: string)
    requires |w| > 0 && ' ' !in w
    ensures ParseCommand(w + " " + rest) == ParseCommand(w)
  {
    FirstWordOf(w, rest);
    FirstWordOf(w, "");
    assert w + " " + "" == w + " ";
    assert FirstWord(w + " ") == FirstWord(w) by {
      assert (w + " ")[..|w|] == w;
    }
    assert w[0] != ' ' by { assert w[0] in w; }
  }

  /** A one-word line names the command its lower-cased word spells. */
  lemma ParseCommandOfWord(w: string)
    requires |w| > 0 && ' ' !in w
    ensures ParseCommand(w) == Some(Keyword(ToLower(w)))
  {
    FirstWordNoSpace(w);
    assert w[0] in w;
  }

  /** "LIST" is the list command: case is ignored. */
  lemma ParseCommandListExample()
    ensures ParseCommand("LIST") == Some(List)
  {
    var upper := "LIST";
    ParseCommandOfWord(upper);
    assert ToLower(upper) == "list";
  }

  /** "find book" is unknown: the switch has no case for "find". */
  lemma ParseCommandFindExample()
    ensures ParseCommand("find book") == Some(Unknown)
  {
    var find, book := "find", "book";
    assert find + " " + book == "find book";
    KeywordTable(find);
    ParseCommandOfLowerWord(find, book);
  }

  /** A lower-case command word decides the command whatever follows it. */
  lemma ParseCommandOfLowerWord(w: string, rest: string)
    requires |w| > 0 && forall i :: 0 <= i < |w| ==> 'a' <= w[i] <= 'z'
    ensures ParseCommand(w + " " + rest) == Some(Keyword(w))
  {
    assert ' ' !in w;
    ParseCommandIgnoresArguments(w, rest);
    ParseCommandOfWord(w);
    ToLowerOfLower(w);
  }

  /** A line of three spaces splits into nothing, and the parser crashes. */
  lemma ParseCommandBlankExample()
    ensures ParseCommand("   ") == None
  {
    assert AllSpaces("   ");
  }

  /**
   * `split(" ", 2)` followed by the emptiness test every argument parser starts
   * with: the text after the first space, when there is one and it is not blank.
   */
  function Argument(line: string): (r: Option<string>)
    ensures r.Some? <==> |FirstWord(line)| < |line| && !IsBlank(line[|FirstWord(line)| + 1..])
    ensures r.Some? ==> r.value == line[|FirstWord(line)| + 1..]
  {
    var parts := SplitOnce(line, " ");
    SplitOnceFirstWord(line);
    if |parts| < 2 || IsBlank(parts[1]) then None
    else
      assert line == parts[0] + " " + parts[1];
      assert line[|parts[0]| + 1..] == parts[1];
      Some(parts[1])
  }

  /** The argument of "word rest" is `rest`, unless `rest` is blank. */
  lemma ArgumentOf(w: string, rest: string)
    requires ' ' !in w
    ensures Argument(w + " " + rest) == (if IsBlank(rest) then None else Some(rest))
  {
    var line := w + " " + rest;
    FirstWordOf(w, rest);
    assert |FirstWord(line)| < |line|;
    assert line[|w| + 1..] == rest;
  }

  /**
   * `parseTodo(fullInput)`: the text after the first space, verbatim and
   * untrimmed; no such text, or a blank one, is the empty-todo error.
   */
  function ParseTodo(line: string): (r: Result<string, Error>)
    ensures r.Err? ==> r.error == TodoEmpty
    ensures r.Ok? <==> |FirstWord(line)| < |line| && !IsBlank(line[|FirstWord(line)| + 1..])
    ensures r.Ok? ==> r.value == line[|FirstWord(line)| + 1..]
  {
    match Argument(line)
    case None => Err(TodoEmpty)
    case Some(description) => Ok(description)
  }

  /** "todo" followed by a non-blank description yields that description unchanged, spaces included. */
  lemma ParseTodoOf(w: string, description: string)
    requires ' ' !in w && !IsBlank(description)
    ensures ParseTodo(w + " " + description) == Ok(description)
  {
    ArgumentOf(w, description);
  }

  /**
   * `parseDeadline(fullInput)`: the argument is cut at its first " /by "; both
   * sides must be non-blank and are returned as they are.
   */
  function ParseDeadline(line: string): (r: Result<(string, string), Error>)
    ensures r.Err? ==> r.error == DeadlineEmpty || r.error == DeadlineFormat
    ensures r == Err(DeadlineEmpty) <==> Argument(line).None?
    ensures r.Ok? ==> Argument(line) == Some(r.value.0 + " /by " + r.value.1)
    ensures r.Ok? ==> !IsBlank(r.value.0) && !IsBlank(r.value.1)
    ensures r.Ok? ==> forall j :: 0 <= j < |r.value.0| ==> !OccursAt(Argument(line).value, " /by ", j)
  {
    match Argument(line)
    case None => Err(DeadlineEmpty)
    case Some(rest) => SplitDeadline(rest)
  }

  /**
   * Every well-formed deadline is accepted: when the argument is a non-blank
   * description, " /by " and a non-blank date, cut at the first " /by ", the
   * parser returns exactly those two pieces.
   */
  lemma ParseDeadlineCut(line: string, description: string, date: string)
    requires Argument(line).Some? && CutAtFirst(Argument(line).value, " /by ", description, date)
    requires !IsBlank(description) && !IsBlank(date)
    ensures ParseDeadline(line) == Ok((description, date))
  {
    SplitDeadlineCut(Argument(line).value, description, date);
  }

  /** The part of `parseDeadline` after the emptiness test. */
  function SplitDeadline(rest: string): (r: Result<(string, string), Error>)
    ensures r.Err? ==> r.error == DeadlineFormat
    ensures r.Ok? ==> rest == r.value.0 + " /by " + r.value.1
    ensures r.Ok? ==> !IsBlank(r.value.0) && !IsBlank(r.value.1)
    ensures r.Ok? ==> forall j :: 0 <= j < |r.value.0| ==> !OccursAt(rest, " /by ", j)
  {
    var parts := SplitOnce(rest, " /by ");
    if |parts| < 2 || IsBlank(parts[0]) || IsBlank(parts[1]) then Err(DeadlineFormat)
    else Ok((parts[0], parts[1]))
  }

  lemma SplitDeadlineCut(rest: string, description: string, date: string)
    requires CutAtFirst(rest, " /by ", description, date) && !IsBlank(description) && !IsBlank(date)
    ensures SplitDeadline(rest) == Ok((description, date))
  {
    SplitOnceCut(rest, " /by ", description, date);
  }

  lemma SplitDeadlineOf(description: string, date: string)
    requires '/' !in description
    requires !IsBlank(description) && !IsBlank(date)
    ensures SplitDeadline(description + " /by " + date) == Ok((description, date))
  {
    SplitOnceAtMarker(description, " /by ", date);
  }

  /** A description without '/' and a non-blank date come back as written. */
  lemma ParseDeadlineOf(w: string, description: string, date: string)
    requires ' ' !in w && '/' !in description
    requires !IsBlank(description) && !IsBlank(date)
    ensures ParseDeadline(w + " " + description + " /by " + date) == Ok((description, date))
  {
    var rest := description + " /by " + date;
    NotBlankWith(description, " /by ", date);
    ParseDeadlineArgument(w, rest);
    SplitDeadlineOf(description, date);
    Regroup(w, description, " /by ", date);
  }

  lemma ParseDeadlineArgument(w: string, rest: string)
    requires ' ' !in w && !IsBlank(rest)
    ensures ParseDeadline(w + " " + rest) == SplitDeadline(rest)
  {
    ArgumentOf(w, rest);
  }

  /** The accepted input of the parser's unit test: "deadline return book /by 2025-08-30 1800". */
  lemma ParseDeadlineExample()
    ensures ParseDeadline("deadline return book /by 2025-08-30 1800") == Ok(("return book", "2025-08-30 1800"))
  {
    var w, description, date := "deadline", "return book", "2025-08-30 1800";
    assert w + " " + description == "deadline return book";
    assert "deadline return book" + " /by " + date == "deadline return book /by 2025-08-30 1800";
    NotBlankAt(description, 0);
    NotBlankAt(date, 0);
    ParseDeadlineOf(w, description, date);
  }

  /** A non-blank argument without " /by " is a malformed deadline. */
  lemma ParseDeadlineWithoutMarker(w: string, rest: string)
    requires ' ' !in w && !IsBlank(rest) && IndexOf(rest, " /by ") == None
    ensures ParseDeadline(w + " " + rest) == Err(DeadlineFormat)
  {
    ParseDeadlineArgument(w, rest);
  }

  /** An argument that starts with a visible character and has no '/' after it is a malformed deadline. */
  lemma ParseDeadlineWithoutSlash(w: string, rest: string)
    requires ' ' !in w && |rest| > 0 && !IsTrimmable(rest[0]) && forall i :: 1 <= i < |rest| ==> rest[i] != '/'
    ensures ParseDeadline(w + " " + rest) == Err(DeadlineFormat)
  {
    NotBlankWithout(rest, " /by ", 1);
    ParseDeadlineWithoutMarker(w, rest);
  }

  /** Without " /by " the deadline is malformed: "deadline return book 2025-08-30 1800". */
  lemma ParseDeadlineMissingBy()
    ensures ParseDeadline("deadline return book 2025-08-30 1800") == Err(DeadlineFormat)
  {
    var w, rest := "deadline", "return book 2025-08-30 1800";
    assert w + " " + rest == "deadline return book 2025-08-30 1800";
    ParseDeadlineWithoutSlash(w, rest);
  }

  /**
   * "deadline /by 2025-08-30 1800": with nothing before "/by" there is no
   * " /by " with its leading space, so the format error is raised.
   */
  lemma ParseDeadlineMissingDescription()
    ensures ParseDeadline("deadline /by 2025-08-30 1800") == Err(DeadlineFormat)
  {
    var w, rest := "deadline", "/by 2025-08-30 1800";
    assert w + " " + rest == "deadline /by 2025-08-30 1800";
    ParseDeadlineWithoutSlash(w, rest);
  }

  /**
   * `parseEvent(fullInput)`: the argument is cut at its first " /from ", the
   * right side at its first " /to "; all three pieces must be non-blank and
   * come back trimmed, in the order description, start, end.
   */
  function ParseEvent(line: string): (r: Result<(string, string, string), Error>)
    ensures r.Err? ==> r.error == EventEmpty || r.error == EventFormat
    ensures r == Err(EventEmpty) <==> Argument(line).None?
    ensures r.Ok? ==> |r.value.0| > 0 && Trim(r.value.0) == r.value.0
    ensures r.Ok? ==> |r.value.1| > 0 && Trim(r.value.1) == r.value.1
    ensures r.Ok? ==> |r.value.2| > 0 && Trim(r.value.2) == r.value.2
  {
    match Argument(line)
    case None => Err(EventEmpty)
    case Some(rest) => SplitEvent(rest)
  }

  /**
   * An accepted event is a cut of the argument into non-blank pieces, and
   * every such cut is accepted, with its pieces trimmed.
   */
  lemma ParseEventCut(line: string)
    ensures ParseEvent(line).Ok? ==> exists description, start, end ::
      && EventCut(Argument(line).value, description, start, end)
      && !IsBlank(description) && !IsBlank(start) && !IsBlank(end)
      && ParseEvent(line).value == (Trim(description), Trim(start), Trim(end))
    ensures Argument(line).Some? ==> forall description, start, end |
      && EventCut(Argument(line).value, description, start, end)
      && !IsBlank(description) && !IsBlank(start) && !IsBlank(end) ::
        ParseEvent(line) == Ok((Trim(description), Trim(start), Trim(end)))
  {
    if Argument(line).Some? {
      SplitEventCut(Argument(line).value);
    }
  }

  /**
   * `rest` reads "description /from start /to end", cut at the first " /from "
   * and then at the first " /to " after it.
   */
  predicate EventCut(rest: string, description: string, start: string, end: string)
  {
    CutAtFirst(rest, " /from ", description, start + " /to " + end)
    && CutAtFirst(start + " /to " + end, " /to ", start, end)
  }

  /** The part of `parseEvent` after the emptiness test. */
  function SplitEvent(rest: string): (r: Result<(string, string, string), Error>)
    ensures r.Err? ==> r.error == EventFormat
    ensures r.Ok? ==> |r.value.0| > 0 && Trim(r.value.0) == r.value.0
    ensures r.Ok? ==> |r.value.1| > 0 && Trim(r.value.1) == r.value.1
  {
    var parts := SplitOnce(rest, " /from ");
    if |parts| < 2 || IsBlank(parts[0]) || IsBlank(parts[1]) then Err(EventFormat)
    else
      var times := SplitOnce(parts[1], " /to ");
      if |times| < 2 || IsBlank(times[0]) || IsBlank(times[1]) then Err(EventFormat)
      else Ok((Trim(parts[0]), Trim(times[0]), Trim(times[1])))
  }

  /** `SplitEvent` accepts exactly the cuts into non-blank pieces, and returns those pieces trimmed. */
  lemma SplitEventCut(rest: string)
    ensures SplitEvent(rest).Ok? ==> exists description, start, end ::
      && EventCut(rest, description, start, end)
      && !IsBlank(description) && !IsBlank(start) && !IsBlank(end)
      && SplitEvent(rest).value == (Trim(description), Trim(start), Trim(end))
    ensures forall description, start, end |
      && EventCut(rest, description, start, end)
      && !IsBlank(description) && !IsBlank(start) && !IsBlank(end) ::
        SplitEvent(rest) == Ok((Trim(description), Trim(start), Trim(end)))
  {
    SplitEventAcceptsCuts(rest);
    if SplitEvent(rest).Ok? {
      var description, start, end := SplitEventPieces(rest);
    }
  }

  lemma SplitEventPieces(rest: string) returns (description: string, start: string, end: string)
    requires SplitEvent(rest).Ok?
    ensures EventCut(rest, description, start, end)
    ensures !IsBlank(description) && !IsBlank(start) && !IsBlank(end)
    ensures SplitEvent(rest).value == (Trim(description), Trim(start), Trim(end))
  {
    var parts := SplitOnce(rest, " /from ");
    var times := SplitOnce(parts[1], " /to ");
    description, start, end := parts[0], times[0], times[1];
    assert parts[1] == start + " /to " + end;
    assert CutAtFirst(start + " /to " + end, " /to ", start, end);
    assert CutAtFirst(rest, " /from ", description, start + " /to " + end);
  }

  lemma SplitEventAcceptsCuts(rest: string)
    ensures forall description, start, end |
      && EventCut(rest, description, start, end)
      && !IsBlank(description) && !IsBlank(start) && !IsBlank(end) ::
        SplitEvent(rest) == Ok((Trim(description), Trim(start), Trim(end)))
  {
    forall description, start, end |
      && EventCut(rest, description, start, end)
      && !IsBlank(description) && !IsBlank(start) && !IsBlank(end)
      ensures SplitEvent(rest) == Ok((Trim(description), Trim(start), Trim(end)))
    {
      var times := start + " /to " + end;
      SplitOnceCut(rest, " /from ", description, times);
      SplitOnceCut(times, " /to ", start, end);
      NotBlankWith(start, " /to ", end);
      SplitEventParts(rest, description, times, start, end);
    }
  }

  lemma SplitEventOf(description: string, start: string, end: string)
    requires '/' !in description && '/' !in start
    requires !IsBlank(description) && !IsBlank(start) && !IsBlank(end)
    ensures SplitEvent(description + " /from " + start + " /to " + end) == Ok((Trim(description), Trim(start), Trim(end)))
  {
    var times := start + " /to " + end;
    var rest := description + " /from " + times;
    Regroup3(description, " /from ", start, " /to ", end);
    SplitOnceAtMarker(description, " /from ", times);
    NotBlankWith(start, " /to ", end);
    SplitOnceAtMarker(start, " /to ", end);
    SplitEventParts(rest, description, times, start, end);
  }

  /** A marker " /..." splits off a first piece that holds no '/'. */
  lemma SplitOnceAtMarker(a: string, marker: string, b: string)
    requires |marker| >= 2 && marker[0] == ' ' && marker[1] == '/' && '/' !in a
    ensures SplitOnce(a + marker + b, marker) == [a, b]
  {
    assert marker[..1] == [' '];
    SplitOnceAt(a, marker, b, 1);
  }

  /** Once both markers have split the text into non-blank pieces, the event comes back trimmed. */
  lemma SplitEventParts(rest: string, description: string, times: string, start: string, end: string)
    requires SplitOnce(rest, " /from ") == [description, times] && SplitOnce(times, " /to ") == [start, end]
    requires !IsBlank(description) && !IsBlank(times) && !IsBlank(start) && !IsBlank(end)
    ensures SplitEvent(rest) == Ok((Trim(description), Trim(start), Trim(end)))
  {
  }

  lemma ParseEventArgument(w: string, rest: string)
    requires ' ' !in w && !IsBlank(rest)
    ensures ParseEvent(w + " " + rest) == SplitEvent(rest)
  {
    ArgumentOf(w, rest);
  }

  /** Well-formed pieces come back trimmed, when neither the description nor the start holds a '/'. */
  lemma ParseEventOf(w: string, description: string, start: string, end: string)
    requires ' ' !in w && '/' !in description && '/' !in start
    requires !IsBlank(description) && !IsBlank(start) && !IsBlank(end)
    ensures ParseEvent(w + " " + description + " /from " + start + " /to " + end)
         == Ok((Trim(description), Trim(start), Trim(end)))
  {
    var rest := description + " /from " + start + " /to " + end;
    Regroup3(description, " /from ", start, " /to ", end);
    NotBlankWith(description, " /from ", start + " /to " + end);
    ParseEventArgument(w, rest);
    SplitEventOf(description, start, end);
    RegroupLine(w, description, " /from ", start, " /to ", end);
  }

  /** Any line "word description /from start /to end", cut at its first markers into non-blank pieces, parses to those pieces trimmed. */
  lemma ParseEventOfCut(w: string, description: string, start: string, end: string)
    requires ' ' !in w
    requires EventCut(description + " /from " + start + " /to " + end, description, start, end)
    requires !IsBlank(description) && !IsBlank(start) && !IsBlank(end)
    ensures ParseEvent(w + " " + description + " /from " + start + " /to " + end)
         == Ok((Trim(description), Trim(start), Trim(end)))
  {
    var rest := description + " /from " + start + " /to " + end;
    RegroupLine(w, description, " /from ", start, " /to ", end);
    Regroup3(description, " /from ", start, " /to ", end);
    NotBlankWith(description, " /from ", start + " /to " + end);
    ParseEventArgument(w, rest);
    SplitEventAcceptsCuts(rest);
  }

  /** A start with no '/' after its first character has no " /to " in it, so the event is malformed. */
  lemma ParseEventWithoutTo(w: string, description: string, start: string)
    requires ' ' !in w && |description| > 0 && !IsTrimmable(description[0]) && '/' !in description
    requires |start| > 0 && !IsTrimmable(start[0]) && forall i :: 1 <= i < |start| ==> start[i] != '/'
    ensures ParseEvent(w + " " + description + " /from " + start) == Err(EventFormat)
  {
    NotBlankWithout(start, " /to ", 1);
    NotBlankAt(description, 0);
    NotBlankWith(description, " /from ", start);
    SplitOnceAt(description, " /from ", start, 1);
    ParseEventArgument(w, description + " /from " + start);
    Regroup(w, description, " /from ", start);
  }

  /** "event meeting /from 2025-08-30 1800": the start has no " /to " after it, so the event is malformed. */
  lemma ParseEventMissingTo()
    ensures ParseEvent("event meeting /from 2025-08-30 1800") == Err(EventFormat)
  {
    var w, description, start := "event", "meeting", "2025-08-30 1800";
    assert w + " " + description + " /from " + start == "event meeting /from 2025-08-30 1800";
    ParseEventWithoutTo(w, description, start);
  }

  /**
   * `parseIndex(fullInput, listSize)`: the trimmed argument read by
   * `Integer.parseInt`, minus one in 32-bit arithmetic, must be a position of the
   * list. The three failures are a missing argument, a non-number, and a
   * number outside 1..listSize.
   */
  function ParseIndex(line: string, size: int): (r: Result<int, Error>)
    requires 0 <= size <= IntMax
    ensures r.Err? ==> r.error == IndexMissing || r.error == IndexNotNumber || r.error == IndexOutOfRange
    ensures r == Err(IndexMissing) <==> Argument(line).None?
    ensures r == Err(IndexNotNumber) <==> Argument(line).Some? && ParseInt(Trim(Argument(line).value)).None?
    ensures Argument(line).Some? && ParseInt(Trim(Argument(line).value)).Some? ==>
              var n := ParseInt(Trim(Argument(line).value)).value;
              (r.Ok? <==> 1 <= n <= size) && (r.Ok? ==> r.value == n - 1)
    ensures r.Ok? ==> 0 <= r.value < size
  {
    match Argument(line)
    case None => Err(IndexMissing)
    case Some(rest) => IndexIn(rest, size)
  }

  /** The part of `parseIndex` after the emptiness test. */
  function IndexIn(rest: string, size: int): (r: Result<int, Error>)
    requires 0 <= size <= IntMax
    ensures r.Err? ==> r.error == IndexNotNumber || r.error == IndexOutOfRange
    ensures r == Err(IndexNotNumber) <==> ParseInt(Trim(rest)).None?
    ensures ParseInt(Trim(rest)).Some? ==>
              var n := ParseInt(Trim(rest)).value;
              (r.Ok? <==> 1 <= n <= size) && (r.Ok? ==> r.value == n - 1)
    ensures r.Ok? ==> 0 <= r.value < size
  {
    match ParseInt(Trim(rest))
    case None => Err(IndexNotNumber)
    case Some(n) =>
      var index := Wrap32(n - 1);
      if index < 0 || index >= size then Err(IndexOutOfRange) else Ok(index)
  }

  lemma ParseIndexArgument(w: string, rest: string, size: int)
    requires 0 <= size <= IntMax
    requires ' ' !in w && !IsBlank(rest)
    ensures ParseIndex(w + " " + rest, size) == IndexIn(rest, size)
  {
    ArgumentOf(w, rest);
  }

  /** Task number k + 1, written in decimal after the command word, selects position k. */
  lemma ParseIndexOf(w: string, k: nat, size: int)
    requires ' ' !in w && k < size <= IntMax
    ensures ParseIndex(w + " " + Decimal(k + 1), size) == Ok(k)
  {
    var digits := Decimal(k + 1);
    NotBlankAt(digits, 0);
    ParseIndexArgument(w, digits, size);
    IndexInDecimal(k, size);
  }

  lemma IndexInDecimal(k: nat, size: int)
    requires k < size <= IntMax
    ensures IndexIn(Decimal(k + 1), size) == Ok(k)
  {
    var digits := Decimal(k + 1);
    assert IsDigit(digits[0]) && IsDigit(digits[|digits| - 1]);
    assert Trim(digits) == digits;
    ParseIntDecimal(k + 1);
  }

  /**
   * The three failures of `parseIndex` have disjoint causes that cover every
   * failing line: no argument, an argument that is no int, or an int outside
   * 1..size. Each cause gives its own error and nothing else does.
   */
  lemma ParseIndexCauses(line: string, size: int)
    requires 0 <= size <= IntMax
    ensures ParseIndex(line, size) == Err(IndexMissing) <==> Argument(line).None?
    ensures ParseIndex(line, size) == Err(IndexNotNumber) <==>
              Argument(line).Some? && ParseInt(Trim(Argument(line).value)).None?
    ensures ParseIndex(line, size) == Err(IndexOutOfRange) <==>
              && Argument(line).Some? && ParseInt(Trim(Argument(line).value)).Some?
              && !(1 <= ParseInt(Trim(Argument(line).value)).value <= size)
    ensures ParseIndex(line, size).Ok? <==>
              && Argument(line).Some? && ParseInt(Trim(Argument(line).value)).Some?
              && 1 <= ParseInt(Trim(Argument(line).value)).value <= size
  {
    match Argument(line)
    case None =>
    case Some(rest) =>
      assert ParseIndex(line, size) == IndexIn(rest, size);
  }

  /** "mark 0", "mark one" and a bare "mark" fail with the three different messages. */
  lemma ParseIndexErrors(size: int)
    requires 0 <= size <= IntMax
    ensures ParseIndex("mark 0", size) == Err(IndexOutOfRange)
    ensures ParseIndex("mark one", size) == Err(IndexNotNumber)
    ensures ParseIndex("mark", size) == Err(IndexMissing)
  {
    var w, zero, one := "mark", "0", "one";
    assert w + " " + zero == "mark 0" && w + " " + one == "mark one";
    NotBlankAt(zero, 0);
    ParseIndexArgument(w, zero, size);
    assert Decimal(0) == zero;
    ParseIntDecimal(0);
    NotBlankAt(one, 0);
    ParseIndexArgument(w, one, size);
    ParseIntRejects(one, 0);
    FirstWordNoSpace(w);
  }
}
