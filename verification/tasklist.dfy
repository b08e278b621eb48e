/**
 * `TaskList`: the ordered list of tasks behind the application, as an
 * immutable sequence. Positional access that Java's `ArrayList` would refuse
 * with an `IndexOutOfBoundsException` yields `None`.
 */
module TaskLists {
  import opened Results
  import opened Text
  import opened Tasks

  type TaskList = seq<Task>

  /** `getTask(index)`: the task at a position, or nothing when the position is outside the list. */
  function Get(ts: TaskList, i: int): (r: Option<Task>)
    ensures r.Some? <==> 0 <= i < |ts|
    ensures r.Some? ==> r.value == ts[i]
  {
    if 0 <= i < |ts| then Some(ts[i]) else None
  }

  /** `addTask(task)`: append at the end. */
  function Add(ts: TaskList, t: Task): (r: TaskList)
    ensures |r| == |ts| + 1
    ensures r[|ts|] == t
    ensures r[..|ts|] == ts
  {
    ts + [t]
  }

  /**
   * `deleteTask(index)`: the removed task and the list without it; later
   * tasks move one place towards the front.
   */
  function Delete(ts: TaskList, i: int): (r: Option<(Task, TaskList)>)
    ensures r.Some? <==> 0 <= i < |ts|
    ensures r.Some? ==> r.value.0 == ts[i] && |r.value.1| == |ts| - 1
    ensures r.Some? ==> forall j :: 0 <= j < i ==> r.value.1[j] == ts[j]
    ensures r.Some? ==> forall j :: i <= j < |r.value.1| ==> r.value.1[j] == ts[j + 1]
  {
    if 0 <= i < |ts| then Some((ts[i], ts[..i] + ts[i + 1..])) else None
  }

  /** Putting the removed task back where it was restores the list. */
  lemma DeleteReinsert(ts: TaskList, i: int)
    requires 0 <= i < |ts|
    ensures var (t, rest) := Delete(ts, i).value; rest[..i] + [t] + rest[i..] == ts
  {
    var (t, rest) := Delete(ts, i).value;
    assert rest[..i] == ts[..i];
    assert rest[i..] == ts[i + 1..];
    assert ts == ts[..i] + [ts[i]] + ts[i + 1..];
  }

  /** Adding a task and deleting it again, from the end, gives back the list and the task. */
  lemma AddThenDelete(ts: TaskList, t: Task)
    ensures Delete(Add(ts, t), |ts|) == Some((t, ts))
  {
    var l := Add(ts, t);
    assert l[..|ts|] + l[|ts| + 1..] == ts;
  }

  /** Deleting the middle of three tasks leaves the first and the third, the third now at position 1. */
  lemma DeleteMiddleExample(a: Task, b: Task, c: Task)
    ensures Delete([a, b, c], 1) == Some((b, [a, c]))
    ensures Get(Delete([a, b, c], 1).value.1, 1) == Some(c)
  {
    assert [a, b, c][..1] + [a, b, c][2..] == [a, c];
  }

  /** Position 1 of a one-task list cannot be deleted. */
  lemma DeletePastEndExample(a: Task)
    ensures Delete([a], 1) == None
  {
  }

  /**
   * `findTasks(keyword)`: the tasks whose description contains the keyword,
   * case-sensitively, in list order.
   */
  function Find(ts: TaskList, k: string): (r: TaskList)
    ensures |r| <= |ts|
    ensures forall t :: t in r <==> t in ts && Contains(t.description, k)
    decreases |ts|
  {
    if |ts| == 0 then []
    else
      var rest := Find(ts[1..], k);
      if Contains(ts[0].description, k) then [ts[0]] + rest else rest
  }

  /** `a` can be obtained from `b` by dropping elements, keeping the order of the rest. */
  predicate IsSubsequence(a: TaskList, b: TaskList)
    decreases |b|
  {
    if |a| == 0 then true
    else if |b| == 0 then false
    else if a[0] == b[0] then IsSubsequence(a[1..], b[1..])
    else IsSubsequence(a, b[1..])
  }

  /** The matches keep their relative order. */
  lemma {:induction false} FindSubsequence(ts: TaskList, k: string)
    ensures IsSubsequence(Find(ts, k), ts)
    decreases |ts|
  {
    if |ts| > 0 {
      FindSubsequence(ts[1..], k);
      var rest := Find(ts[1..], k);
      if Contains(ts[0].description, k) {
        assert ([ts[0]] + rest)[1..] == rest;
      } else {
        SubsequenceSkip(rest, ts);
      }
    }
  }

  lemma {:induction false} SubsequenceSkip(a: TaskList, b: TaskList)
    requires |b| > 0 && IsSubsequence(a, b[1..])
    ensures IsSubsequence(a, b)
    decreases |b|, |a|
  {
    if |a| > 0 && a[0] == b[0] {
      SubsequenceDropHead(a, b[1..]);
    }
  }

  lemma {:induction false} SubsequenceDropHead(a: TaskList, b: TaskList)
    requires |a| > 0 && IsSubsequence(a, b)
    ensures IsSubsequence(a[1..], b)
    decreases |b|, |a|
  {
    if |b| > 0 {
      if a[0] == b[0] {
        SubsequenceSkip(a[1..], b);
      } else {
        SubsequenceDropHead(a, b[1..]);
        SubsequenceSkip(a[1..], b);
      }
    }
  }

  /** Searching two lists one after the other is searching their concatenation. */
  lemma {:induction false} FindConcat(a: TaskList, b: TaskList, k: string)
    ensures Find(a + b, k) == Find(a, k) + Find(b, k)
    decreases |a|
  {
    if |a| > 0 {
      assert (a + b)[1..] == a[1..] + b;
      FindConcat(a[1..], b, k);
    } else {
      assert a + b == b;
    }
  }

  /** When every task matches, the search returns the whole list. */
  lemma {:induction false} FindAllMatch(ts: TaskList, k: string)
    requires forall i :: 0 <= i < |ts| ==> Contains(ts[i].description, k)
    ensures Find(ts, k) == ts
    decreases |ts|
  {
    if |ts| > 0 {
      FindAllMatch(ts[1..], k);
      assert [ts[0]] + ts[1..] == ts;
    }
  }

  /** Every description contains the empty keyword, so searching for "" lists everything. */
  lemma FindEmptyKeyword(ts: TaskList)
    ensures Find(ts, "") == ts
  {
    forall i | 0 <= i < |ts|
      ensures Contains(ts[i].description, "")
    {
      assert OccursAt(ts[i].description, "", 0);
    }
    FindAllMatch(ts, "");
  }
}
