/**
 * The first version's data file (root-package `Storage`, and the copy of its
 * reading code in the root-package `Monet`): lines of three header fields, with
 * thresholds 3, 4 and 5, and a load that answers a `MonetException` with an
 * empty list.
 */
module LegacyStorage {
  import opened Results
  import opened Text
  import opened DateTimes
  import opened Loading
  import opened LegacyTasks
  import Tasks
  import Storage

  /** The number of fields a kind needs before its dates are read. */
  function OldFieldsNeeded(tag: string): nat
  {
    if tag == "D" then 4 else if tag == "E" then 5 else 3
  }

  /**
   * `parseTaskFromFileString(line)` of the first version: fewer than three
   * fields is corrupted; "T" needs nothing more, "D" reads an ISO date from
   * field 3, "E" two from fields 3 and 4; any other tag is corrupted. There is
   * no priority field, so the description is field 2.
   */
  function OldDecode(line: string): (r: Decoded<OldTask>)
    ensures !r.Checked?
    ensures r.Corrupted? <==>
              |Storage.Fields(line)| < 3 || !Storage.KnownTag(Storage.Fields(line)[0])
              || |Storage.Fields(line)| < OldFieldsNeeded(Storage.Fields(line)[0])
    ensures r.Parsed? ==> (r.value.done <==> Storage.Fields(line)[1] == "1")
    ensures r.Parsed? ==> r.value.description == Storage.Fields(line)[2]
    ensures r.Parsed? ==> (r.value.OldTodo? <==> Storage.Fields(line)[0] == "T")
    ensures r.Unchecked? ==> r.fault.BadIsoDate?
  {
    OldDecodeFields(Storage.Fields(line))
  }

  function OldDecodeFields(parts: seq<string>): (r: Decoded<OldTask>)
    ensures !r.Checked?
    ensures r.Corrupted? <==> |parts| < 3 || !Storage.KnownTag(parts[0]) || |parts| < OldFieldsNeeded(parts[0])
    ensures r.Parsed? ==> (r.value.done <==> parts[1] == "1") && r.value.description == parts[2]
    ensures r.Parsed? ==> (r.value.OldTodo? <==> parts[0] == "T")
    ensures r.Parsed? && r.value.OldDeadline? ==> parts[0] == "D" && Some(r.value.due) == ParseIso(parts[3])
    ensures r.Parsed? && r.value.OldEvent? ==>
              parts[0] == "E" && Some(r.value.start) == ParseIso(parts[3]) && Some(r.value.end) == ParseIso(parts[4])
    ensures r.Unchecked? ==> r.fault.BadIsoDate?
  {
    if |parts| < 3 then Corrupted
    else
      var done := parts[1] == "1";
      var description := parts[2];
      if parts[0] == "T" then
        Parsed(Finish(OldTodo(description, false), done))
      else if parts[0] == "D" then
        if |parts| < 4 then Corrupted
        else
          match ParseIso(parts[3])
          case None => Unchecked(BadIsoDate(parts[3]))
          case Some(due) => Parsed(Finish(OldDeadline(description, false, due), done))
      else if parts[0] == "E" then
        if |parts| < 5 then Corrupted
        else
          match ParseIso(parts[3])
          case None => Unchecked(BadIsoDate(parts[3]))
          case Some(start) =>
            match ParseIso(parts[4])
            case None => Unchecked(BadIsoDate(parts[4]))
            case Some(end) => Parsed(Finish(OldEvent(description, false, start, end), done))
      else Corrupted
  }

  /** `if (isDone) task.markAsDone();` */
  function Finish(t: OldTask, done: bool): (r: OldTask)
    ensures r.done == (t.done || done) && r.(done := false) == t.(done := false)
  {
    if done then MarkOld(t) else t
  }

  /**
   * `load()` of the first version (and `loadFile()` of its `Monet`): a missing
   * file gives an empty list, a `MonetException` gives an empty list, and an
   * unchecked exception escapes.
   */
  function OldLoad(file: Option<seq<string>>): (r: LoadOutcome<OldTask>)
    ensures !r.LoadChecked?
    ensures file.None? ==> r == Loaded([])
    ensures file.Some? ==> r == LoadLines(file.value, OldDecode)
  {
    match file
    case None => Loaded([])
    case Some(lines) =>
      NeverChecked(lines, OldDecode);
      match LoadLines(lines, OldDecode)
      case LoadChecked(_) => Loaded([])
      case other => other
  }

  /** `save(tasks)` of the first version, for lists of deadlines and events. */
  function OldSave(ts: seq<OldTask>): (r: seq<string>)
    requires forall i :: 0 <= i < |ts| ==> !ts[i].OldTodo?
    ensures |r| == |ts|
    ensures forall i :: 0 <= i < |ts| ==> r[i] == OldFileString(ts[i])
  {
    seq(|ts|, i requires 0 <= i < |ts| && !ts[i].OldTodo? => OldFileString(ts[i]))
  }

  /** Splitting a written deadline or event line gives back its fields. */
  lemma OldFieldsOfFileString(t: OldTask)
    requires !t.OldTodo? && '|' !in t.description
    ensures Storage.Fields(OldFileString(t)) == OldFileFields(t)
  {
    var f := OldFileFields(t);
    OldFieldsHaveNoBar(t);
    assert f[|f| - 1] != "" by {
      match t
      case OldDeadline(_, _, due) => assert f[3] == RenderIso(due);
      case OldEvent(_, _, _, end) => assert f[4] == RenderIso(end);
    }
    Storage.SplitOnBar(f);
  }

  lemma OldFieldsHaveNoBar(t: OldTask)
    requires !t.OldTodo? && '|' !in t.description
    ensures forall i :: 0 <= i < |OldFileFields(t)| ==> '|' !in OldFileFields(t)[i]
  {
    var bit := OldDoneBit(t);
    assert '|' !in bit;
    match t
    case OldDeadline(description, _, due) =>
      IsoAvoids(due, '|');
      assert OldFileFields(t) == ["D", bit, description, RenderIso(due)];
    case OldEvent(description, _, start, end) =>
      IsoAvoids(start, '|');
      IsoAvoids(end, '|');
      assert OldFileFields(t) == ["E", bit, description, RenderIso(start), RenderIso(end)];
  }

  /** A deadline or event line reads back as the same task; the description may even be empty. */
  lemma OldRoundTrip(t: OldTask)
    requires !t.OldTodo? && '|' !in t.description
    ensures OldDecode(OldFileString(t)) == Parsed(t)
  {
    OldFieldsOfFileString(t);
    var f := OldFileFields(t);
    match t
    case OldDeadline(_, _, due) =>
      IsoRoundTrip(due);
      OldDecodeDeadline(f, due);
    case OldEvent(_, _, start, end) =>
      IsoRoundTrip(start);
      IsoRoundTrip(end);
      OldDecodeEvent(f, start, end);
  }

  lemma OldDecodeDeadline(parts: seq<string>, due: LocalDateTime)
    requires |parts| >= 4 && parts[0] == "D" && ParseIso(parts[3]) == Some(due)
    ensures OldDecodeFields(parts) == Parsed(OldDeadline(parts[2], parts[1] == "1", due))
  {
  }

  lemma OldDecodeEvent(parts: seq<string>, start: LocalDateTime, end: LocalDateTime)
    requires |parts| >= 5 && parts[0] == "E" && ParseIso(parts[3]) == Some(start) && ParseIso(parts[4]) == Some(end)
    ensures OldDecodeFields(parts) == Parsed(OldEvent(parts[2], parts[1] == "1", start, end))
  {
  }

  /** Loading what the first version saved gives back the same deadlines and events, in order. */
  lemma OldLoadSaveRoundTrip(ts: seq<OldTask>)
    requires forall i :: 0 <= i < |ts| ==> !ts[i].OldTodo? && '|' !in ts[i].description
    ensures OldLoad(Some(OldSave(ts))) == Loaded(ts)
  {
    OldLinesRoundTrip(ts);
  }

  lemma {:induction false} OldLinesRoundTrip(ts: seq<OldTask>)
    requires forall i :: 0 <= i < |ts| ==> !ts[i].OldTodo? && '|' !in ts[i].description
    ensures LoadLines(OldSave(ts), OldDecode) == Loaded(ts)
    decreases |ts|
  {
    if |ts| > 0 {
      var lines := OldSave(ts);
      assert lines[1..] == OldSave(ts[1..]);
      OldLinesRoundTrip(ts[1..]);
      var rest := LoadLines(lines[1..], OldDecode);
      assert LoadLines(lines, OldDecode) == Consume(lines[0], rest, OldDecode);
      OldRoundTrip(ts[0]);
      OldFileStringNotBlank(ts[0]);
      ConsumeParsed(lines[0], ts, OldDecode);
    }
  }

  /** A written line starts with its kind letter, so it is never skipped as blank. */
  lemma OldFileStringNotBlank(t: OldTask)
    requires !t.OldTodo?
    ensures !IsBlank(OldFileString(t))
  {
    var f := OldFileFields(t);
    JoinCons(f[0], f[1..], Tasks.Separator);
    assert f == [f[0]] + f[1..];
    assert OldFileString(t)[0] == f[0][0];
    NotBlankAt(OldFileString(t), 0);
  }

  /** A to-do line "T | <bit> | <description>" reads as a to-do, done iff the bit is "1". */
  lemma OldTodoLine(bit: string, description: string)
    requires '|' !in bit && '|' !in description && description != ""
    ensures OldDecode(Join(["T", bit, description], Tasks.Separator)) == Parsed(OldTodo(description, bit == "1"))
  {
    var f := ["T", bit, description];
    assert forall i :: 0 <= i < |f| ==> '|' !in f[i];
    Storage.SplitOnBar(f);
  }

  /**
   * The two formats do not mix: the first version reads a current to-do line
   * as a to-do whose description is the priority name.
   */
  lemma CurrentLineReadByOldVersion(description: string, done: bool, priority: Tasks.Priority)
    requires '|' !in description && description != ""
    ensures OldDecode(Tasks.ToFileString(Tasks.Todo(description, done, priority)))
         == Parsed(OldTodo(Tasks.PriorityName(priority), done))
  {
    var t := Tasks.Todo(description, done, priority);
    Storage.FieldsOfFileString(t);
  }
}
