/**
 * The line loop shared by both versions of `load`: read the data file line by
 * line, skip blank lines, decode the rest, drop the lines the decoder reports
 * as corrupted (it returns `null`), and stop at the first exception.
 */
module Loading {
  import opened Text

  /**
   * The runtime exceptions a decoder lets through: `Priority.valueOf` on an
   * unknown name (`IllegalArgumentException`) and `LocalDateTime.parse` on a
   * malformed date (`DateTimeParseException`). Nothing catches them.
   */
  datatype Fault = BadPriorityName(name: string) | BadIsoDate(text: string)

  /**
   * What decoding one line gives: a task, `null` for a corrupted line, the
   * declared `MonetException`, or an unchecked exception.
   */
  datatype Decoded<T> = Parsed(value: T) | Corrupted | Checked(message: string) | Unchecked(fault: Fault)

  /** The end of the loop: the tasks read, or the exception that ended it. */
  datatype LoadOutcome<T> = Loaded(items: seq<T>) | LoadChecked(message: string) | LoadUnchecked(fault: Fault)

  predicate Raises<T>(d: Decoded<T>)
  {
    d.Checked? || d.Unchecked?
  }

  /** The `while (scanner.hasNext())` loop over the file's lines, as a fold. */
  function LoadLines<T>(lines: seq<string>, decode: string -> Decoded<T>): (r: LoadOutcome<T>)
    ensures r.Loaded? ==> |r.items| <= |lines|
    ensures r.Loaded? <==> forall i :: 0 <= i < |lines| && !IsBlank(lines[i]) ==> !Raises(decode(lines[i]))
    decreases |lines|
  {
    if |lines| == 0 then Loaded([])
    else
      var rest := LoadLines(lines[1..], decode);
      NoRaiseSplit(lines, decode);
      Consume(lines[0], rest, decode)
  }

  /** No line of the file raises iff the first line does not and no later line does. */
  lemma NoRaiseSplit<T>(lines: seq<string>, decode: string -> Decoded<T>)
    requires |lines| > 0
    ensures (forall i :: 0 <= i < |lines| && !IsBlank(lines[i]) ==> !Raises(decode(lines[i])))
        <==> && (IsBlank(lines[0]) || !Raises(decode(lines[0])))
             && (forall i :: 0 <= i < |lines[1..]| && !IsBlank(lines[1..][i]) ==> !Raises(decode(lines[1..][i])))
  {
    assert forall i :: 1 <= i < |lines| ==> lines[1..][i - 1] == lines[i];
  }

  /** One pass of the loop body: the outcome of the first line put in front of the outcome of the rest. */
  function Consume<T>(line: string, rest: LoadOutcome<T>, decode: string -> Decoded<T>): (r: LoadOutcome<T>)
    ensures r.Loaded? <==> rest.Loaded? && (IsBlank(line) || !Raises(decode(line)))
    ensures r.Loaded? ==> |r.items| <= |rest.items| + 1
    ensures r.LoadChecked? ==> rest.LoadChecked? || (!IsBlank(line) && decode(line).Checked?)
  {
    if IsBlank(line) then rest
    else
      match decode(line)
      case Corrupted => rest
      case Checked(m) => LoadChecked(m)
      case Unchecked(f) => LoadUnchecked(f)
      case Parsed(t) => if rest.Loaded? then Loaded([t] + rest.items) else rest
  }

  /** Loading one part of the file and then the next: the first exception wins. */
  function Then<T>(x: LoadOutcome<T>, y: LoadOutcome<T>): LoadOutcome<T>
  {
    match x
    case Loaded(a) => (match y case Loaded(b) => Loaded(a + b) case _ => y)
    case _ => x
  }

  /** Reading a single line. */
  lemma LoadOne<T>(line: string, decode: string -> Decoded<T>)
    ensures IsBlank(line) ==> LoadLines([line], decode) == Loaded([])
    ensures !IsBlank(line) ==> LoadLines([line], decode) == match decode(line)
      case Parsed(t) => Loaded([t])
      case Corrupted => Loaded([])
      case Checked(m) => LoadChecked(m)
      case Unchecked(f) => LoadUnchecked(f)
  {
    assert [line][1..] == [];
  }

  /** The loop reads the file front to back: loading a concatenation is loading the parts in order. */
  lemma {:induction false} LoadConcat<T>(a: seq<string>, b: seq<string>, decode: string -> Decoded<T>)
    ensures LoadLines(a + b, decode) == Then(LoadLines(a, decode), LoadLines(b, decode))
    decreases |a|
  {
    if |a| == 0 {
      assert a + b == b;
      ThenLoadedEmpty(LoadLines(b, decode));
    } else {
      assert (a + b)[0] == a[0];
      assert (a + b)[1..] == a[1..] + b;
      LoadConcat(a[1..], b, decode);
      ConsumeThen(a[0], LoadLines(a[1..], decode), LoadLines(b, decode), decode);
    }
  }

  lemma ThenLoadedEmpty<T>(y: LoadOutcome<T>)
    ensures Then(Loaded([]), y) == y
  {
    if y.Loaded? {
      assert [] + y.items == y.items;
    }
  }

  lemma ConsumeThen<T>(line: string, x: LoadOutcome<T>, y: LoadOutcome<T>, decode: string -> Decoded<T>)
    ensures Consume(line, Then(x, y), decode) == Then(Consume(line, x, decode), y)
  {
    if !IsBlank(line) && decode(line).Parsed? && x.Loaded? && y.Loaded? {
      assert [decode(line).value] + (x.items + y.items) == ([decode(line).value] + x.items) + y.items;
    }
  }

  /** A line that decodes to the first task, in front of lines that load as the rest, loads as all of them. */
  lemma ConsumeParsed<T>(line: string, items: seq<T>, decode: string -> Decoded<T>)
    requires |items| > 0 && !IsBlank(line) && decode(line) == Parsed(items[0])
    ensures Consume(line, Loaded(items[1..]), decode) == Loaded(items)
  {
    assert [items[0]] + items[1..] == items;
  }

  /** A blank line, or one the decoder reports as corrupted, can be removed without changing the result. */
  lemma LoadSkips<T>(a: seq<string>, line: string, b: seq<string>, decode: string -> Decoded<T>)
    requires IsBlank(line) || decode(line).Corrupted?
    ensures LoadLines(a + [line] + b, decode) == LoadLines(a + b, decode)
  {
    LoadOne(line, decode);
    LoadConcat(a + [line], b, decode);
    LoadConcat(a, [line], decode);
    LoadConcat(a, b, decode);
    match LoadLines(a, decode)
    case Loaded(items) => assert items + [] == items;
    case LoadChecked(_) =>
    case LoadUnchecked(_) =>
  }

  /** A decoder that never throws the declared exception makes a load that never ends with it. */
  lemma {:induction false} NeverChecked<T>(lines: seq<string>, decode: string -> Decoded<T>)
    requires forall l :: !decode(l).Checked?
    ensures !LoadLines(lines, decode).LoadChecked?
    decreases |lines|
  {
    if |lines| > 0 {
      NeverChecked(lines[1..], decode);
      assert !decode(lines[0]).Checked?;
    }
  }
}
