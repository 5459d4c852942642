// The flat task sequencer `SequentialCurriculum`
// (syllabus/curricula/sequential.py:10-57): a cursor over a task list in
// which every task is handed out a fixed number of times in a row.

module FlatSequencer {
  import opened Results

  /** Why a call to `sample` raises. */
  datatype Fault =
    | Exhausted(sampled: int)  // the `ValueError` of line 39, carrying `sum(num_repeats)`
    | IndexOutOfRange          // an `IndexError` (empty task list, `num_repeats` too short)

  /** The constructor's arguments (lines 15-19), which never change afterwards. */
  datatype Schedule<T> = Schedule(tasks: seq<T>, repeats: seq<int>, wrap: bool)

  /** The pair (`_task_index`, `_repeat_index`). */
  datatype Cursor = Cursor(task: nat, rep: nat)

  /** One pass of the loop body of `sample`: an item, or the exception it raises. */
  datatype StepOutcome<T> = Emitted(item: T, next: Cursor) | Failed(fault: Fault, next: Cursor)

  /** What `n` passes of the loop leave behind: the items, the fault that stopped them, the cursor. */
  datatype Trace<T> = Trace(items: seq<T>, fault: Option<Fault>, final: Cursor)

  /** The sum of the first `n` elements. */
  function SumTo(xs: seq<int>, n: nat): int
    requires n <= |xs|
  {
    if n == 0 then 0 else SumTo(xs, n - 1) + xs[n - 1]
  }

  /** `sum(xs)`. */
  function Sum(xs: seq<int>): int
  {
    SumTo(xs, |xs|)
  }

  /** The default `[1] * len(task_list)` of line 18. */
  function Ones(n: nat): seq<int>
  {
    seq(n, _ => 1)
  }

  /**
   * One iteration of the loop of lines 34-48: wrap (or raise) at the end of
   * the list, hand out the current task, count the repetition and move to the
   * next task once the count is reached.
   */
  function Step<T>(s: Schedule<T>, c: Cursor): (r: StepOutcome<T>)
    ensures r.Emitted? ==> r.item in s.tasks
    ensures (r.Failed? && r.fault.Exhausted?) <==> c.task >= |s.tasks| && !s.wrap
    ensures r.Failed? && r.fault.Exhausted? ==> r.fault.sampled == Sum(s.repeats)
    ensures WellFormed(s) && c.task < |s.tasks| ==> r.Emitted? && r.item == s.tasks[c.task]
  {
    if c.task >= |s.tasks| && !s.wrap then Failed(Exhausted(Sum(s.repeats)), Cursor(0, c.rep))
    else
      var t := if c.task >= |s.tasks| then 0 else c.task;
      if t >= |s.tasks| then Failed(IndexOutOfRange, Cursor(t, c.rep))
      else
        var r := c.rep + 1;
        if t >= |s.repeats| then Failed(IndexOutOfRange, Cursor(t, r))
        else if r >= s.repeats[t] then Emitted(s.tasks[t], Cursor(t + 1, 0))
        else Emitted(s.tasks[t], Cursor(t, r))
  }

  /** `n` iterations of the loop from cursor `c`, stopping at the first exception. */
  function Run<T>(s: Schedule<T>, c: Cursor, n: nat): (r: Trace<T>)
    ensures |r.items| <= n
    ensures r.fault.None? <==> |r.items| == n
    ensures forall i :: 0 <= i < |r.items| ==> r.items[i] in s.tasks
  {
    if n == 0 then Trace([], None, c)
    else
      var t := Run(s, c, n - 1);
      if t.fault.Some? then t
      else
        match Step(s, t.final)
        case Emitted(x, next) => Trace(t.items + [x], None, next)
        case Failed(f, next) => Trace(t.items, Some(f), next)
  }

  // ---------------------------------------------------------------------
  // The intended schedule

  /** A non-empty task list with one positive count per task. */
  ghost predicate WellFormed<T>(s: Schedule<T>)
  {
    && |s.tasks| > 0
    && |s.repeats| == |s.tasks|
    && forall i :: 0 <= i < |s.repeats| ==> s.repeats[i] > 0
  }

  /**
   * The cursor invariant: the task index is at most the list length, the
   * repetition index is below the current task's count, and it is 0 once the
   * list has been walked to its end.
   */
  ghost predicate CursorOk<T>(s: Schedule<T>, c: Cursor)
  {
    && c.task <= |s.tasks|
    && (c.task < |s.tasks| ==> c.task < |s.repeats| && c.rep < s.repeats[c.task])
    && (c.task == |s.tasks| ==> c.rep == 0)
  }

  /** The first `n` tasks, each repeated its count times. */
  ghost function Expand<T>(tasks: seq<T>, reps: seq<int>, n: nat): seq<T>
    requires n <= |tasks| && n <= |reps|
  {
    if n == 0 then []
    else Expand(tasks, reps, n - 1) + seq(if reps[n - 1] > 0 then reps[n - 1] else 0, _ => tasks[n - 1])
  }

  /** One pass over the schedule: each `tasks[i]` appears `repeats[i]` times in a row. */
  ghost function Expanded<T>(s: Schedule<T>): seq<T>
    requires |s.repeats| == |s.tasks|
  {
    Expand(s.tasks, s.repeats, |s.tasks|)
  }

  /** The length of one pass. */
  ghost function Total<T>(s: Schedule<T>): int
  {
    Sum(s.repeats)
  }

  /** How far into the pass the cursor points. */
  ghost function Position<T>(s: Schedule<T>, c: Cursor): int
    requires c.task <= |s.repeats|
  {
    SumTo(s.repeats, c.task) + c.rep
  }

  /** Prefix sums of positive counts grow with the prefix. */
  lemma {:induction false} SumPrefixGrows(xs: seq<int>, t: nat, n: nat)
    requires t <= n <= |xs|
    requires forall i :: 0 <= i < |xs| ==> xs[i] > 0
    ensures 0 <= SumTo(xs, t) <= SumTo(xs, n)
    ensures t < n ==> SumTo(xs, t) < SumTo(xs, n)
    decreases n
  {
    if n > 0 {
      if t < n {
        SumPrefixGrows(xs, t, n - 1);
      } else {
        SumPrefixGrows(xs, n - 1, n - 1);
      }
    }
  }

  lemma {:induction false} ExpandLength<T>(tasks: seq<T>, reps: seq<int>, n: nat)
    requires n <= |tasks| && n <= |reps|
    requires forall i :: 0 <= i < |reps| ==> reps[i] > 0
    ensures |Expand(tasks, reps, n)| == SumTo(reps, n)
  {
    if n > 0 {
      ExpandLength(tasks, reps, n - 1);
    }
  }

  /** Repetition `r` of task `t` sits at offset `SumTo(reps, t) + r` of the pass. */
  lemma {:induction false} ExpandAt<T>(tasks: seq<T>, reps: seq<int>, n: nat, t: nat, r: nat)
    requires n <= |tasks| && n <= |reps|
    requires forall i :: 0 <= i < |reps| ==> reps[i] > 0
    requires t < n && r < reps[t]
    ensures 0 <= SumTo(reps, t) && SumTo(reps, t) + r < |Expand(tasks, reps, n)|
    ensures Expand(tasks, reps, n)[SumTo(reps, t) + r] == tasks[t]
  {
    ExpandLength(tasks, reps, n);
    ExpandLength(tasks, reps, n - 1);
    SumPrefixGrows(reps, t + 1, n);
    SumPrefixGrows(reps, t, n);
    if t < n - 1 {
      ExpandAt(tasks, reps, n - 1, t, r);
      SumPrefixGrows(reps, t + 1, n - 1);
    }
  }

  /** Under the invariant the position lies in `[0, Total]`, and reaches `Total` only at the end. */
  lemma PositionBounds<T>(s: Schedule<T>, c: Cursor)
    requires WellFormed(s) && CursorOk(s, c)
    ensures 0 <= Position(s, c) <= Total(s)
    ensures Position(s, c) == Total(s) <==> c.task == |s.tasks|
  {
    if c.task < |s.tasks| {
      SumPrefixGrows(s.repeats, c.task + 1, |s.tasks|);
      SumPrefixGrows(s.repeats, c.task, |s.tasks|);
    } else {
      SumPrefixGrows(s.repeats, 0, |s.tasks|);
    }
  }

  /**
   * The cursor invariant and the order within a pass: before the end of the
   * list a step hands out the item at the cursor's position in the pass and
   * moves one position on; the task index advances exactly when the
   * repetition count is reached, and the repetition index is then reset to 0.
   */
  lemma StepInPass<T>(s: Schedule<T>, c: Cursor)
    requires WellFormed(s) && CursorOk(s, c) && c.task < |s.tasks|
    ensures Step(s, c).Emitted?
    ensures CursorOk(s, Step(s, c).next)
    ensures Position(s, Step(s, c).next) == Position(s, c) + 1
    ensures Step(s, c).next == if c.rep + 1 == s.repeats[c.task] then Cursor(c.task + 1, 0) else Cursor(c.task, c.rep + 1)
  {
  }

  /** Before the end of the list, a step hands out the item at the cursor's position in the pass. */
  lemma StepItem<T>(s: Schedule<T>, c: Cursor)
    requires WellFormed(s) && CursorOk(s, c) && c.task < |s.tasks|
    ensures Step(s, c).Emitted?
    ensures 0 <= Position(s, c) < |Expanded(s)| && Step(s, c).item == Expanded(s)[Position(s, c)]
  {
    ExpandAt(s.tasks, s.repeats, |s.tasks|, c.task, c.rep);
  }

  lemma MulZero(m: int, k: int)
    requires m > 0 && -m < m * k < m
    ensures k == 0
  {
  }

  /** Euclidean remainders are unique. */
  lemma ModUnique(x: int, m: int, q: int, r: int)
    requires m > 0 && 0 <= r < m && x == q * m + r
    ensures x % m == r
  {
    var q2, r2 := x / m, x % m;
    assert x == q2 * m + r2;
    assert m * (q - q2) == r2 - r;
    MulZero(m, q - q2);
  }

  lemma ModNext(a: int, m: int)
    requires m > 0
    ensures (a % m + 1) % m == (a + 1) % m
  {
    var q, r := a / m, a % m;
    assert a == q * m + r;
    if r + 1 < m {
      ModUnique(a + 1, m, q, r + 1);
      ModUnique(r + 1, m, 0, r + 1);
    } else {
      ModUnique(a + 1, m, q + 1, 0);
      ModUnique(r + 1, m, 1, 0);
    }
  }

  /** The item at index `i` of the endless repetition of the pass. */
  ghost function Cycled<T>(s: Schedule<T>, i: int): T
    requires WellFormed(s)
  {
    ExpandLength(s.tasks, s.repeats, |s.tasks|);
    SumPrefixGrows(s.repeats, 0, |s.tasks|);
    Expanded(s)[i % Total(s)]
  }

  /**
   * With `repeat_list` set, a step from any cursor that keeps the invariant
   * hands out the item at its position in the endless repetition of the pass
   * (wrapping at the end of the list) and moves one position on.
   */
  lemma CycleStep<T>(s: Schedule<T>, f: Cursor)
    requires WellFormed(s) && s.wrap && CursorOk(s, f)
    ensures Total(s) > 0
    ensures Step(s, f).Emitted? && Step(s, f).item == Cycled(s, Position(s, f))
    ensures CursorOk(s, Step(s, f).next)
    ensures Position(s, Step(s, f).next) % Total(s) == (Position(s, f) + 1) % Total(s)
  {
    var total := Total(s);
    var p := Position(s, f);
    PositionBounds(s, f);
    PositionBounds(s, Cursor(0, 0));
    var g := if f.task < |s.tasks| then f else Cursor(0, 0);
    assert Step(s, f) == Step(s, g);
    StepInPass(s, g);
    StepItem(s, g);
    assert Position(s, g) == p % total by {
      if f.task == |s.tasks| {
        ModUnique(p, total, 1, 0);
      } else {
        ModUnique(p, total, 0, p);
      }
    }
    ModNext(p, total);
  }

  /**
   * Sequencer order with `repeat_list` set: from any cursor that keeps the
   * invariant, `n` samples succeed, the `j`-th one is the item at position
   * `Position + j` of the endlessly repeated pass, and the cursor keeps the
   * invariant and ends `n` positions further on (modulo a pass).
   */
  lemma {:induction false} CycleOrder<T>(s: Schedule<T>, c: Cursor, n: nat)
    requires WellFormed(s) && s.wrap && CursorOk(s, c)
    ensures Total(s) > 0
    ensures Run(s, c, n).fault.None? && |Run(s, c, n).items| == n
    ensures forall j :: 0 <= j < n ==> Run(s, c, n).items[j] == Cycled(s, Position(s, c) + j)
    ensures CursorOk(s, Run(s, c, n).final)
    ensures Position(s, Run(s, c, n).final) % Total(s) == (Position(s, c) + n) % Total(s)
  {
    CycleCursor(s, c, n);
    if n > 0 {
      CycleOrder(s, c, n - 1);
      var prev := Run(s, c, n - 1);
      CycleStep(s, prev.final);
      CycledMod(s, Position(s, prev.final), Position(s, c) + n - 1);
      assert Run(s, c, n).items == prev.items + [Step(s, prev.final).item];
    }
  }

  /** The cursor part of `CycleOrder`. */
  lemma {:induction false} CycleCursor<T>(s: Schedule<T>, c: Cursor, n: nat)
    requires WellFormed(s) && s.wrap && CursorOk(s, c)
    ensures Total(s) > 0
    ensures Run(s, c, n).fault.None? && |Run(s, c, n).items| == n
    ensures CursorOk(s, Run(s, c, n).final)
    ensures Position(s, Run(s, c, n).final) % Total(s) == (Position(s, c) + n) % Total(s)
  {
    SumPrefixGrows(s.repeats, 0, |s.tasks|);
    if n > 0 {
      CycleCursor(s, c, n - 1);
      var f := Run(s, c, n - 1).final;
      CycleStep(s, f);
      ModShift(Position(s, f), Position(s, c) + n - 1, Total(s));
    }
  }

  /** Equal remainders stay equal one further on. */
  lemma ModShift(a: int, b: int, m: int)
    requires m > 0 && a % m == b % m
    ensures (a + 1) % m == (b + 1) % m
  {
    ModNext(a, m);
    ModNext(b, m);
  }

  lemma CycledMod<T>(s: Schedule<T>, a: int, b: int)
    requires WellFormed(s) && Total(s) > 0 && a % Total(s) == b % Total(s)
    ensures Cycled(s, a) == Cycled(s, b)
  {
  }

  /**
   * Within one pass the flag `repeat_list` plays no part: `n` samples that
   * stay inside the pass hand out the next `n` items of it.
   */
  lemma {:induction false} SinglePass<T>(s: Schedule<T>, c: Cursor, n: nat)
    requires WellFormed(s) && CursorOk(s, c) && Position(s, c) + n <= Total(s)
    ensures 0 <= Position(s, c) && Position(s, c) + n <= |Expanded(s)|
    ensures Run(s, c, n).fault.None? && |Run(s, c, n).items| == n
    ensures forall j :: 0 <= j < n ==> Run(s, c, n).items[j] == Expanded(s)[Position(s, c) + j]
    ensures CursorOk(s, Run(s, c, n).final) && Position(s, Run(s, c, n).final) == Position(s, c) + n
  {
    ExpandLength(s.tasks, s.repeats, |s.tasks|);
    PositionBounds(s, c);
    SinglePassCursor(s, c, n);
    if n > 0 {
      SinglePass(s, c, n - 1);
      var prev := Run(s, c, n - 1);
      StepItem(s, prev.final);
      assert Run(s, c, n).items == prev.items + [Step(s, prev.final).item];
    }
  }

  /** The cursor part of `SinglePass`. */
  lemma {:induction false} SinglePassCursor<T>(s: Schedule<T>, c: Cursor, n: nat)
    requires WellFormed(s) && CursorOk(s, c) && Position(s, c) + n <= Total(s)
    ensures Run(s, c, n).fault.None?
    ensures CursorOk(s, Run(s, c, n).final) && Position(s, Run(s, c, n).final) == Position(s, c) + n
  {
    if n > 0 {
      SinglePassCursor(s, c, n - 1);
      var f := Run(s, c, n - 1).final;
      PositionBounds(s, f);
      StepInPass(s, f);
    }
  }

  /** Under the invariant, the end of the pass is the cursor `(len(task_list), 0)`. */
  lemma EndOfPass<T>(s: Schedule<T>, c: Cursor)
    requires WellFormed(s) && CursorOk(s, c) && Position(s, c) == Total(s)
    ensures c == Cursor(|s.tasks|, 0)
  {
    PositionBounds(s, c);
  }

  /**
   * Exhaustion without `repeat_list`: from a fresh cursor the first
   * `sum(num_repeats)` samples hand out the whole pass; the next one raises
   * and leaves the cursor back at the start, so a later call begins again
   * with `task_list[0]`.
   */
  lemma Exhaustion<T>(s: Schedule<T>)
    requires WellFormed(s) && !s.wrap
    ensures Total(s) > 0 && |Expanded(s)| == Total(s)
    ensures Run(s, Cursor(0, 0), Total(s)) == Trace(Expanded(s), None, Cursor(|s.tasks|, 0))
    ensures Run(s, Cursor(0, 0), Total(s) + 1) == Trace(Expanded(s), Some(Exhausted(Total(s))), Cursor(0, 0))
  {
    var c := Cursor(0, 0);
    PositionBounds(s, c);
    ExpandLength(s.tasks, s.repeats, |s.tasks|);
    assert Position(s, c) == 0;
    SinglePass(s, c, Total(s));
    EndOfPass(s, Run(s, c, Total(s)).final);
    assert Run(s, c, Total(s)).items == Expanded(s);
  }

  /** After a fault the loop is over: more iterations change nothing. */
  lemma {:induction false} RunStaysFaulted<T>(s: Schedule<T>, c: Cursor, n: nat, m: nat)
    requires n <= m && Run(s, c, n).fault.Some?
    ensures Run(s, c, m) == Run(s, c, n)
    decreases m
  {
    if m > n {
      RunStaysFaulted(s, c, n, m - 1);
    }
  }

  // ---------------------------------------------------------------------
  // remaining_tasks

  /** The sum of a suffix is the whole sum less the prefix sum. */
  lemma {:induction false} SumOfSuffix(xs: seq<int>, a: nat, n: nat)
    requires a + n <= |xs|
    ensures SumTo(xs[a..], n) == SumTo(xs, a + n) - SumTo(xs, a)
  {
    if n > 0 {
      SumOfSuffix(xs, a, n - 1);
      assert xs[a..][n - 1] == xs[a + n - 1];
    }
  }

  /**
   * `remaining_tasks()` (lines 51-57): 0 at or past the end of the list,
   * otherwise what is left of the current task plus the counts of the later
   * ones; an `IndexError` when `num_repeats` is too short.
   */
  function Remaining<T>(s: Schedule<T>, c: Cursor): (r: Result<int, Fault>)
    ensures c.task >= |s.tasks| ==> r == Ok(0)
    ensures WellFormed(s) && CursorOk(s, c) ==> r == Ok(Total(s) - Position(s, c))
    ensures WellFormed(s) && CursorOk(s, c) ==> (r == Ok(0) <==> c.task >= |s.tasks|)
    ensures c.task < |s.tasks| && c.task >= |s.repeats| ==> r == Err(IndexOutOfRange)
  {
    RestOfPass(s, c);
    if c.task >= |s.tasks| then Ok(0)
    else if c.task >= |s.repeats| then Err(IndexOutOfRange)
    else
      Ok((s.repeats[c.task] - c.rep) + Sum(s.repeats[c.task + 1..]))
  }

  /** What is left of the pass, counted from the cursor's task onwards. */
  lemma RestOfPass<T>(s: Schedule<T>, c: Cursor)
    ensures WellFormed(s) && CursorOk(s, c) && c.task < |s.tasks| ==>
      (s.repeats[c.task] - c.rep) + Sum(s.repeats[c.task + 1..]) == Total(s) - Position(s, c) > 0
    ensures WellFormed(s) && CursorOk(s, c) && c.task >= |s.tasks| ==> Total(s) - Position(s, c) == 0
  {
    if WellFormed(s) && CursorOk(s, c) {
      PositionBounds(s, c);
      if c.task < |s.tasks| {
        SumOfSuffix(s.repeats, c.task + 1, |s.repeats| - c.task - 1);
      }
    }
  }

  /** Within a pass every sample lowers `remaining_tasks()` by exactly one. */
  lemma RemainingCountsDown<T>(s: Schedule<T>, c: Cursor)
    requires WellFormed(s) && CursorOk(s, c) && c.task < |s.tasks|
    ensures Step(s, c).Emitted?
    ensures Remaining(s, Step(s, c).next) == Ok(Remaining(s, c).value - 1)
  {
    StepInPass(s, c);
  }

  // ---------------------------------------------------------------------
  // The class

  class SequentialCurriculum<T> {
    const taskList: seq<T>
    const numRepeats: seq<int>
    const repeatList: bool
    var taskIndex: nat
    var repeatIndex: nat

    function Config(): Schedule<T>
    {
      Schedule(taskList, numRepeats, repeatList)
    }

    function At(): Cursor
      reads this
    {
      Cursor(taskIndex, repeatIndex)
    }

    /** Lines 15-21; `num_repeats` defaults to one repetition per task and is not checked. */
    constructor (taskList: seq<T>, numRepeats: Option<seq<int>>, repeatList: bool)
      ensures this.taskList == taskList && this.repeatList == repeatList
      ensures this.numRepeats == if numRepeats.Some? then numRepeats.value else Ones(|taskList|)
      ensures At() == Cursor(0, 0)
    {
      this.taskList := taskList;
      this.numRepeats := if numRepeats.Some? then numRepeats.value else Ones(|taskList|);
      this.repeatList := repeatList;
      taskIndex := 0;
      repeatIndex := 0;
    }

    /**
     * One pass of the loop body of `sample` (lines 36-48). The cursor is
     * updated in place even when an exception follows.
     */
    method Advance() returns (o: StepOutcome<T>)
      modifies this
      ensures o == Step(Config(), old(At())) && At() == o.next
    {
      if taskIndex >= |taskList| {
        taskIndex := 0;
        if !repeatList {
          return Failed(Exhausted(Sum(numRepeats)), At());
        }
      }
      if taskIndex >= |taskList| {
        return Failed(IndexOutOfRange, At());
      }
      var task := taskList[taskIndex];
      repeatIndex := repeatIndex + 1;
      if taskIndex >= |numRepeats| {
        return Failed(IndexOutOfRange, At());
      }
      if repeatIndex >= numRepeats[taskIndex] {
        taskIndex := taskIndex + 1;
        repeatIndex := 0;
      }
      return Emitted(task, At());
    }

    /**
     * `sample(k)` (lines 29-49). On an exception the items gathered so far
     * are lost, but the cursor keeps every change made before it was raised.
     */
    method Sample(k: int) returns (r: Result<seq<T>, Fault>)
      modifies this
      ensures var t := Run(Config(), old(At()), if k < 0 then 0 else k);
        At() == t.final && r == (if t.fault.None? then Ok(t.items) else Err(t.fault.value))
      ensures WellFormed(Config()) && repeatList && CursorOk(Config(), old(At())) ==>
        r.Ok? && |r.value| == (if k < 0 then 0 else k) && CursorOk(Config(), At())
        && forall j :: 0 <= j < |r.value| ==> r.value[j] == Cycled(Config(), Position(Config(), old(At())) + j)
    {
      var n: nat := if k < 0 then 0 else k;
      ghost var c0 := At();
      var tasks: seq<T> := [];
      var i := 0;
      while i < n
        invariant 0 <= i <= n
        invariant Run(Config(), c0, i) == Trace(tasks, None, At())
      {
        var o := Advance();
        match o
        case Failed(f, _) =>
          RunStaysFaulted(Config(), c0, i + 1, n);
          r := Err(f);
          SampleCycles(c0, n);
          return;
        case Emitted(x, _) =>
          tasks := tasks + [x];
        i := i + 1;
      }
      r := Ok(tasks);
      SampleCycles(c0, n);
    }

    /** With `repeat_list` set and a sound cursor, `n` samples follow the cycle. */
    lemma SampleCycles(c0: Cursor, n: nat)
      ensures WellFormed(Config()) && repeatList && CursorOk(Config(), c0) ==>
        var t := Run(Config(), c0, n);
        t.fault.None? && |t.items| == n && CursorOk(Config(), t.final)
        && forall j :: 0 <= j < n ==> t.items[j] == Cycled(Config(), Position(Config(), c0) + j)
    {
      if WellFormed(Config()) && repeatList && CursorOk(Config(), c0) {
        CycleOrder(Config(), c0, n);
      }
    }

    /** `remaining_tasks()` on the current cursor (lines 51-57). */
    function RemainingTasks(): (r: Result<int, Fault>)
      reads this
      ensures taskIndex >= |taskList| ==> r == Ok(0)
      ensures taskIndex < |taskList| && taskIndex >= |numRepeats| ==> r == Err(IndexOutOfRange)
      ensures WellFormed(Config()) && CursorOk(Config(), At()) ==>
        r == Ok(Total(Config()) - Position(Config(), At())) && (r == Ok(0) <==> taskIndex >= |taskList|)
    {
      Remaining(Config(), At())
    }
  }
}
