/**
 * The data file of the `monet` package: one " | "-separated line per task,
 * written by `save` and read back by `load`. Reading a line either yields a
 * task, reports the line as corrupted (it is skipped with a warning), or lets
 * an unchecked exception escape from `Priority.valueOf` or `LocalDateTime.parse`.
 */
module Storage {
  import opened Results
  import opened Text
  import opened DateTimes
  import opened Tasks
  import opened Loading

  /** `line.split(" \\| ")`: the fields of a stored line. */
  function Fields(line: string): seq<string>
  {
    JavaSplit(line, Separator)
  }

  /** The kind tags the switch knows. */
  predicate KnownTag(tag: string)
  {
    tag == "T" || tag == "D" || tag == "E"
  }

  /** The number of fields the switch demands before it reads the dates of a kind. */
  function FieldsNeeded(tag: string): nat
  {
    if tag == "D" then 5 else if tag == "E" then 6 else 4
  }

  /**
   * A dated line with all its fields whose dates do not all parse: field 4 of a
   * "D" line, or field 4 or 5 of an "E" line, is not an ISO date-time.
   */
  predicate BadDates(parts: seq<string>)
  {
    || (|parts| >= 5 && parts[0] == "D" && ParseIso(parts[4]).None?)
    || (|parts| >= 6 && parts[0] == "E" && (ParseIso(parts[4]).None? || ParseIso(parts[5]).None?))
  }

  /** The fault `LocalDateTime.parse` throws: field 4 is parsed first, then field 5. */
  function FirstBadDate(parts: seq<string>): Fault
    requires BadDates(parts)
  {
    if ParseIso(parts[4]).None? then BadIsoDate(parts[4]) else BadIsoDate(parts[5])
  }

  /**
   * `parseTaskFromFileString(line)`. A line with fewer than four fields is
   * corrupted. Otherwise the priority name is read first (an unknown name
   * throws, whatever the tag), then the tag decides: "T" needs nothing more,
   * "D" and "E" need one and two ISO dates in fields 4 and 5, and any other
   * tag is corrupted. The task is marked done iff field 1 is exactly "1".
   */
  function Decode(line: string): (r: Decoded<Task>)
    ensures !r.Checked?
    ensures |Fields(line)| < 4 ==> r == Corrupted
    ensures |Fields(line)| >= 4 && PriorityValueOf(Fields(line)[2]).None?
            ==> r == Unchecked(BadPriorityName(Fields(line)[2]))
    ensures r.Corrupted? <==>
              |Fields(line)| < 4
              || (PriorityValueOf(Fields(line)[2]).Some?
                  && (!KnownTag(Fields(line)[0]) || |Fields(line)| < FieldsNeeded(Fields(line)[0])))
    ensures r.Parsed? ==> (r.value.done <==> Fields(line)[1] == "1")
    ensures r.Parsed? ==> KindTag(r.value) == Fields(line)[0] && r.value.description == Fields(line)[3]
    ensures r.Parsed? ==> Some(r.value.priority) == PriorityValueOf(Fields(line)[2])
    ensures var parts := Fields(line);
            r.Parsed? && r.value.Deadline? ==> |parts| >= 5 && Some(r.value.due) == ParseIso(parts[4])
    ensures var parts := Fields(line);
            r.Parsed? && r.value.Event? ==>
              |parts| >= 6 && Some(r.value.start) == ParseIso(parts[4]) && Some(r.value.end) == ParseIso(parts[5])
    ensures var parts := Fields(line);
            |parts| >= 4 && PriorityValueOf(parts[2]).Some? ==> (r.Unchecked? <==> BadDates(parts))
    ensures var parts := Fields(line);
            |parts| >= 4 && PriorityValueOf(parts[2]).Some? && r.Unchecked? ==> r.fault == FirstBadDate(parts)
  {
    DecodeFields(Fields(line))
  }

  /** The decoder once the line is cut into fields. */
  function DecodeFields(parts: seq<string>): (r: Decoded<Task>)
    ensures !r.Checked?
    ensures r.Corrupted? <==>
              |parts| < 4
              || (PriorityValueOf(parts[2]).Some? && (!KnownTag(parts[0]) || |parts| < FieldsNeeded(parts[0])))
    ensures |parts| >= 4 && PriorityValueOf(parts[2]).None? ==> r == Unchecked(BadPriorityName(parts[2]))
    ensures r.Parsed? ==> (r.value.done <==> parts[1] == "1")
    ensures r.Parsed? ==> KindTag(r.value) == parts[0] && r.value.description == parts[3]
    ensures r.Parsed? ==> Some(r.value.priority) == PriorityValueOf(parts[2])
    ensures r.Parsed? && r.value.Deadline? ==> |parts| >= 5 && Some(r.value.due) == ParseIso(parts[4])
    ensures r.Parsed? && r.value.Event? ==>
              |parts| >= 6 && Some(r.value.start) == ParseIso(parts[4]) && Some(r.value.end) == ParseIso(parts[5])
    ensures |parts| >= 4 && PriorityValueOf(parts[2]).Some? ==> (r.Unchecked? <==> BadDates(parts))
    ensures |parts| >= 4 && PriorityValueOf(parts[2]).Some? && r.Unchecked? ==> r.fault == FirstBadDate(parts)
  {
    if |parts| < 4 then Corrupted
    else
      match PriorityValueOf(parts[2])
      case None => Unchecked(BadPriorityName(parts[2]))
      case Some(priority) => Build(parts, priority)
  }

  /** The switch on the tag, after the priority was read. */
  function Build(parts: seq<string>, priority: Priority): (r: Decoded<Task>)
    requires |parts| >= 4
    ensures !r.Checked? && !(r.Unchecked? && r.fault.BadPriorityName?)
    ensures r.Corrupted? <==> !KnownTag(parts[0]) || |parts| < FieldsNeeded(parts[0])
    ensures r.Parsed? ==> (r.value.done <==> parts[1] == "1")
    ensures r.Parsed? ==> KindTag(r.value) == parts[0] && r.value.description == parts[3]
    ensures r.Parsed? ==> r.value.priority == priority
    ensures r.Parsed? && r.value.Deadline? ==> |parts| >= 5 && Some(r.value.due) == ParseIso(parts[4])
    ensures r.Parsed? && r.value.Event? ==>
              |parts| >= 6 && Some(r.value.start) == ParseIso(parts[4]) && Some(r.value.end) == ParseIso(parts[5])
    ensures r.Unchecked? <==> BadDates(parts)
    ensures r.Unchecked? ==> r.fault == FirstBadDate(parts)
  {
    var done := parts[1] == "1";
    var description := parts[3];
    if parts[0] == "T" then
      Parsed(Finish(Todo(description, false, priority), done))
    else if parts[0] == "D" then
      if |parts| < 5 then Corrupted else DatedDeadline(parts, priority)
    else if parts[0] == "E" then
      if |parts| < 6 then Corrupted else DatedEvent(parts, priority)
    else Corrupted
  }

  /** The "D" case with its five fields: `LocalDateTime.parse` on field 4. */
  function DatedDeadline(parts: seq<string>, priority: Priority): (r: Decoded<Task>)
    requires |parts| >= 5 && parts[0] == "D"
    ensures r.Parsed? || r.Unchecked?
    ensures r.Unchecked? <==> ParseIso(parts[4]).None?
    ensures r.Unchecked? ==> r.fault == BadIsoDate(parts[4])
    ensures r.Parsed? ==> r.value.Deadline? && Some(r.value.due) == ParseIso(parts[4])
    ensures r.Parsed? ==> (r.value.done <==> parts[1] == "1")
    ensures r.Parsed? ==> r.value.description == parts[3] && r.value.priority == priority
  {
    match ParseIso(parts[4])
    case None => Unchecked(BadIsoDate(parts[4]))
    case Some(due) => Parsed(Finish(Deadline(parts[3], false, priority, due), parts[1] == "1"))
  }

  /** The "E" case with its six fields: field 4 is parsed before field 5. */
  function DatedEvent(parts: seq<string>, priority: Priority): (r: Decoded<Task>)
    requires |parts| >= 6 && parts[0] == "E"
    ensures r.Parsed? || r.Unchecked?
    ensures r.Unchecked? <==> ParseIso(parts[4]).None? || ParseIso(parts[5]).None?
    ensures r.Unchecked? ==> r.fault == (if ParseIso(parts[4]).None? then BadIsoDate(parts[4]) else BadIsoDate(parts[5]))
    ensures r.Parsed? ==>
              r.value.Event? && Some(r.value.start) == ParseIso(parts[4]) && Some(r.value.end) == ParseIso(parts[5])
    ensures r.Parsed? ==> (r.value.done <==> parts[1] == "1")
    ensures r.Parsed? ==> r.value.description == parts[3] && r.value.priority == priority
  {
    match ParseIso(parts[4])
    case None => Unchecked(BadIsoDate(parts[4]))
    case Some(start) =>
      match ParseIso(parts[5])
      case None => Unchecked(BadIsoDate(parts[5]))
      case Some(end) => Parsed(Finish(Event(parts[3], false, priority, start, end), parts[1] == "1"))
  }

  /**
   * What reads back is what would be written again: the decoded task's fields,
   * from the priority on, are the line's fields (the dates in their canonical
   * ISO form), and any further fields were ignored.
   */
  lemma DecodeCanonical(parts: seq<string>)
    requires DecodeFields(parts).Parsed?
    ensures var f := FileFields(DecodeFields(parts).value);
            |f| <= |parts| && f[0] == parts[0] && forall i :: 2 <= i < |f| ==> f[i] == parts[i]
  {
    var p := PriorityValueOf(parts[2]).value;
    BuildCanonical(parts, p);
  }

  lemma BuildCanonical(parts: seq<string>, p: Priority)
    requires |parts| >= 4 && PriorityName(p) == parts[2] && Build(parts, p).Parsed?
    ensures var f := FileFields(Build(parts, p).value);
            |f| <= |parts| && f[0] == parts[0] && forall i :: 2 <= i < |f| ==> f[i] == parts[i]
  {
    var t := Build(parts, p).value;
    if t.Deadline? {
      BuildDeadline(parts, p);
    } else if t.Event? {
      BuildEvent(parts, p);
    }
    FieldsMatch(t, parts);
  }

  /** A task agrees with a line's fields when its kind, priority, description and dates were read from them. */
  lemma FieldsMatch(t: Task, parts: seq<string>)
    requires |parts| >= 4 && KindTag(t) == parts[0] && PriorityName(t.priority) == parts[2] && t.description == parts[3]
    requires t.Deadline? ==> |parts| >= 5 && RenderIso(t.due) == parts[4]
    requires t.Event? ==> |parts| >= 6 && RenderIso(t.start) == parts[4] && RenderIso(t.end) == parts[5]
    ensures var f := FileFields(t);
            |f| <= |parts| && f[0] == parts[0] && forall i :: 2 <= i < |f| ==> f[i] == parts[i]
  {
    var f := FileFields(t);
    FileFieldsOf(t);
    assert f[2] == parts[2] && f[3] == parts[3];
    forall i | 4 <= i < |f|
      ensures f[i] == parts[i]
    {
      if i == 4 {
        assert t.Deadline? || t.Event?;
      } else {
        assert i == 5 && t.Event?;
      }
    }
  }

  lemma BuildDeadline(parts: seq<string>, p: Priority)
    requires |parts| >= 4 && Build(parts, p).Parsed? && Build(parts, p).value.Deadline?
    ensures |parts| >= 5 && RenderIso(Build(parts, p).value.due) == parts[4]
  {
  }

  lemma BuildEvent(parts: seq<string>, p: Priority)
    requires |parts| >= 4 && Build(parts, p).Parsed? && Build(parts, p).value.Event?
    ensures |parts| >= 6 && RenderIso(Build(parts, p).value.start) == parts[4]
    ensures RenderIso(Build(parts, p).value.end) == parts[5]
  {
  }

  /** `if (isDone) task.markAsDone();` */
  function Finish(t: Task, done: bool): (r: Task)
    ensures r.done == (t.done || done) && SameExceptDone(r, t)
  {
    if done then MarkAsDone(t) else t
  }

  /** `load()` over the lines of an existing file. */
  function Load(lines: seq<string>): (r: LoadOutcome<Task>)
    ensures !r.LoadChecked?
    ensures r.Loaded? <==> forall i :: 0 <= i < |lines| && !IsBlank(lines[i]) ==> !Raises(Decode(lines[i]))
  {
    NeverChecked(lines, Decode);
    LoadLines(lines, Decode)
  }

  /** `save(tasks)`: the file's lines, one `toFileString()` per task, in list order. */
  function Save(ts: seq<Task>): (r: seq<string>)
    ensures |r| == |ts|
    ensures forall i :: 0 <= i < |ts| ==> r[i] == ToFileString(ts[i])
  {
    seq(|ts|, i requires 0 <= i < |ts| => ToFileString(ts[i]))
  }

  /** A task the file format can carry: no '|' in the description, and a to-do's description is not empty. */
  predicate Storable(t: Task)
  {
    '|' !in t.description && (t.Todo? ==> t.description != "")
  }

  /** None of the written fields holds a '|' when the description does not. */
  lemma FieldsHaveNoBar(t: Task)
    requires '|' !in t.description
    ensures forall i :: 0 <= i < |FileFields(t)| ==> '|' !in FileFields(t)[i]
  {
    var f := FileFields(t);
    HeaderHasNoBar(t);
    forall i | 0 <= i < |f|
      ensures '|' !in f[i]
    {
      if i >= 4 {
        match t
        case Todo(_, _, _) =>
        case Deadline(_, _, _, due) => IsoAvoids(due, '|');
        case Event(_, _, _, start, end) => IsoAvoids(start, '|'); IsoAvoids(end, '|');
      }
    }
  }

  /** The kind letter, the done bit and the priority name hold no '|'. */
  lemma HeaderHasNoBar(t: Task)
    ensures '|' !in KindTag(t) && '|' !in DoneBit(t) && '|' !in PriorityName(t.priority)
  {
    match t.priority
    case High =>
    case Medium =>
    case Low =>
  }

  /** Splitting a written line gives back exactly the fields that were written. */
  lemma FieldsOfFileString(t: Task)
    requires Storable(t)
    ensures Fields(ToFileString(t)) == FileFields(t)
  {
    var f := FileFields(t);
    FieldsHaveNoBar(t);
    assert f[|f| - 1] != "" by {
      match t
      case Todo(_, _, _) =>
      case Deadline(_, _, _, due) => assert f[4] == RenderIso(due);
      case Event(_, _, _, _, end) => assert f[5] == RenderIso(end);
    }
    SplitOnBar(f);
  }

  /** The file separator's '|' stands at position 1 and nowhere before it. */
  lemma SplitOnBar(f: seq<string>)
    requires |f| >= 2 && f[|f| - 1] != ""
    requires forall i :: 0 <= i < |f| ==> '|' !in f[i]
    ensures Fields(Join(f, Separator)) == f
  {
    assert Separator[1] == '|' && Separator[..1] == " ";
    JavaSplitJoin(f, Separator, 1);
  }

  /** Reading back a written line gives the same task: kind, done flag, priority, description and dates. */
  lemma RoundTrip(t: Task)
    requires Storable(t)
    ensures Decode(ToFileString(t)) == Parsed(t)
  {
    var f := FileFields(t);
    FieldsOfFileString(t);
    PriorityNamesRoundTrip(t.priority);
    match t
    case Todo(_, _, _) => DecodeTodo(f, t.priority);
    case Deadline(_, _, _, due) =>
      IsoRoundTrip(due);
      DecodeDeadline(f, t.priority, due);
    case Event(_, _, _, start, end) =>
      IsoRoundTrip(start);
      IsoRoundTrip(end);
      DecodeEvent(f, t.priority, start, end);
  }

  lemma DecodeTodo(parts: seq<string>, p: Priority)
    requires |parts| >= 4 && parts[0] == "T" && PriorityValueOf(parts[2]) == Some(p)
    ensures DecodeFields(parts) == Parsed(Todo(parts[3], parts[1] == "1", p))
  {
  }

  lemma DecodeDeadline(parts: seq<string>, p: Priority, due: LocalDateTime)
    requires |parts| >= 5 && parts[0] == "D" && PriorityValueOf(parts[2]) == Some(p) && ParseIso(parts[4]) == Some(due)
    ensures DecodeFields(parts) == Parsed(Deadline(parts[3], parts[1] == "1", p, due))
  {
  }

  lemma DecodeEvent(parts: seq<string>, p: Priority, start: LocalDateTime, end: LocalDateTime)
    requires |parts| >= 6 && parts[0] == "E" && PriorityValueOf(parts[2]) == Some(p)
    requires ParseIso(parts[4]) == Some(start) && ParseIso(parts[5]) == Some(end)
    ensures DecodeFields(parts) == Parsed(Event(parts[3], parts[1] == "1", p, start, end))
  {
  }

  /** A written line starts with its kind letter, so it is never skipped as blank. */
  lemma FileStringNotBlank(t: Task)
    ensures !IsBlank(ToFileString(t))
  {
    var s := ToFileString(t);
    JoinCons(KindTag(t), FileFields(t)[1..], Separator);
    assert FileFields(t) == [KindTag(t)] + FileFields(t)[1..];
    assert s[0] == KindTag(t)[0];
    NotBlankAt(s, 0);
  }

  /** Loading what `save` wrote gives back the same list, in the same order. */
  lemma {:induction false} LoadSaveRoundTrip(ts: seq<Task>)
    requires forall i :: 0 <= i < |ts| ==> Storable(ts[i])
    ensures Load(Save(ts)) == Loaded(ts)
    decreases |ts|
  {
    if |ts| > 0 {
      var lines := Save(ts);
      assert lines[1..] == Save(ts[1..]);
      LoadSaveRoundTrip(ts[1..]);
      assert LoadLines(lines, Decode) == Consume(lines[0], LoadLines(lines[1..], Decode), Decode);
      FileStringNotBlank(ts[0]);
      RoundTrip(ts[0]);
      ConsumeParsed(lines[0], ts, Decode);
    }
  }

  /** A to-do with an empty description is written as a line that reads back as corrupted: it is lost. */
  lemma EmptyTodoIsLost(done: bool, priority: Priority)
    ensures Decode(ToFileString(Todo("", done, priority))) == Corrupted
  {
    var t := Todo("", done, priority);
    var f := FileFields(t);
    FieldsHaveNoBar(t);
    assert Separator[1] == '|' && Separator[..1] == " ";
    SplitAllJoin(f, Separator, 1);
    IndexOfAfterPrefix(f[0], Separator, Join(f[1..], Separator), 1);
    assert f[..3] == f[..|f| - 1];
    assert DropTrailingEmpty(f) == DropTrailingEmpty(f[..3]);
  }

  /**
   * A separator inside a deadline's description shifts the date out of field 4,
   * so the written line throws on reading instead of giving the task back.
   */
  lemma SeparatorInDescription(a: string, b: string, done: bool, priority: Priority, due: LocalDateTime)
    requires '|' !in a && '|' !in b && b != "" && |b| != 16
    ensures Decode(ToFileString(Deadline(a + Separator + b, done, priority, due))) == Unchecked(BadIsoDate(b))
  {
    var t := Deadline(a + Separator + b, done, priority, due);
    var f := ["D", DoneBit(t), PriorityName(priority), a, b, RenderIso(due)];
    SplitDescriptionLine(t, a, b);
    HeaderHasNoBar(t);
    IsoAvoids(due, '|');
    SplitOnBar(f);
    PriorityNamesRoundTrip(priority);
    assert DecodeFields(f) == Build(f, priority);
  }

  /** The line of a deadline whose description holds the separator, read as one more field. */
  lemma SplitDescriptionLine(t: Task, a: string, b: string)
    requires t.Deadline? && t.description == a + Separator + b
    ensures ToFileString(t) == Join(["D", DoneBit(t), PriorityName(t.priority), a, b, RenderIso(t.due)], Separator)
  {
    var bit, name, iso := DoneBit(t), PriorityName(t.priority), RenderIso(t.due);
    FileFieldsOf(t);
    JoinFive("D", bit, name, a + Separator + b, iso, Separator);
    JoinSix("D", bit, name, a, b, iso, Separator);
    var head := "D" + Separator + bit + Separator + name + Separator;
    Splice(head, a, Separator, b);
  }

  /** A line with fields beyond those its kind needs still reads back; the extra fields are ignored. */
  lemma ExtraFieldsIgnored(bit: string, priority: Priority, description: string, extra: string)
    requires '|' !in bit && '|' !in description && '|' !in extra && extra != ""
    ensures Decode(Join(["T", bit, PriorityName(priority), description, extra], Separator))
         == Parsed(Todo(description, bit == "1", priority))
  {
    var f := ["T", bit, PriorityName(priority), description, extra];
    assert forall i :: 0 <= i < |f| ==> '|' !in f[i];
    assert Separator[1] == '|' && Separator[..1] == " ";
    JavaSplitJoin(f, Separator, 1);
    PriorityNamesRoundTrip(priority);
  }

  /** The priority name is read before the tag: an unknown name throws even on a line whose tag is unknown. */
  lemma PriorityReadBeforeTag(tag: string, bit: string, name: string, description: string)
    requires '|' !in tag && '|' !in bit && '|' !in name && '|' !in description && description != ""
    requires PriorityValueOf(name).None?
    ensures Decode(Join([tag, bit, name, description], Separator)) == Unchecked(BadPriorityName(name))
  {
    var f := [tag, bit, name, description];
    assert forall i :: 0 <= i < |f| ==> '|' !in f[i];
    assert Separator[1] == '|' && Separator[..1] == " ";
    JavaSplitJoin(f, Separator, 1);
  }
}
