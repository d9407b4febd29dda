/** The residual sum that the eight tasks of relax_jacobi share in example/LINUX/MPI+OMPSS/solver-mpi-ompss.c: each task
    reads it, adds its own part and writes it back, and nothing keeps another task from writing in between. */
module SharedSum {
  import opened HeatGrid
  import opened Sequences

  /** Task `task` reads the sum, or writes back what it read plus its part. */
  datatype Step = Load(task: nat) | Store(task: nat)

  /** The shared sum after `steps`. */
  function Sum(parts: seq<real>, steps: seq<Step>): real
    requires Fits(parts, steps)
    decreases |steps|
  {
    if steps == [] then 0.0
    else
      var front := steps[..|steps| - 1];
      match steps[|steps| - 1]
      case Load(_) => Sum(parts, front)
      case Store(t) => Seen(parts, front, t) + parts[t]
  }

  /** What task `t` has read last. */
  function Seen(parts: seq<real>, steps: seq<Step>, t: nat): real
    requires Fits(parts, steps)
    decreases |steps|
  {
    if steps == [] then 0.0
    else
      var front := steps[..|steps| - 1];
      if steps[|steps| - 1] == Load(t) then Sum(parts, front) else Seen(parts, front, t)
  }

  predicate Fits(parts: seq<real>, steps: seq<Step>) {
    forall i :: 0 <= i < |steps| ==> steps[i].task < |parts|
  }

  /** The parts of all tasks that have written, added up: what the sum is meant to be. */
  function Stored(parts: seq<real>, steps: seq<Step>): real
    requires Fits(parts, steps)
  {
    if steps == [] then 0.0
    else
      Stored(parts, steps[..|steps| - 1])
      + if steps[|steps| - 1].Store? then parts[steps[|steps| - 1].task] else 0.0
  }

  /** A task reads once and writes at most once, after its read. */
  ghost predicate ReadsOnce(steps: seq<Step>) {
    && (forall j :: 0 <= j < |steps| && steps[j].Store? ==>
          exists i :: 0 <= i < j && steps[i] == Load(steps[j].task))
    && Distinct(steps)
  }

  predicate WriteBetween(steps: seq<Step>, i: nat, j: nat)
    requires j <= |steps|
  {
    exists m :: i < m < j && steps[m].Store?
  }

  /** No write falls between a task's read and its write. */
  predicate Undisturbed(steps: seq<Step>) {
    forall i, j :: 0 <= i < j < |steps| && steps[i].Load? && steps[j] == Store(steps[i].task) ==>
                     !WriteBetween(steps, i, j)
  }

  /** A task that has read at `i`, without a read of its own after it, has seen the sum of that moment. */
  lemma {:induction false} SeenAt(parts: seq<real>, steps: seq<Step>, i: nat)
    requires Fits(parts, steps) && i < |steps| && steps[i].Load?
    requires forall j :: i < j < |steps| ==> steps[j] != steps[i]
    ensures Fits(parts, steps[..i]) && Seen(parts, steps, steps[i].task) == Sum(parts, steps[..i])
  {
    hide Sum;
    if i < |steps| - 1 {
      var front := steps[..|steps| - 1];
      SeenAt(parts, front, i);
      assert front[..i] == steps[..i];
    }
  }

  /** While nobody writes the sum stays. */
  lemma {:induction false} Untouched(parts: seq<real>, steps: seq<Step>, i: nat)
    requires Fits(parts, steps) && i <= |steps| && forall j :: i <= j < |steps| ==> steps[j].Load?
    ensures Sum(parts, steps[..i]) == Sum(parts, steps) && Stored(parts, steps[..i]) == Stored(parts, steps)
  {
    if i == |steps| {
      assert steps[..i] == steps;
    } else {
      var front := steps[..|steps| - 1];
      Untouched(parts, front, i);
      assert front[..i] == steps[..i];
    }
  }

  lemma {:induction false} StoredMonotone(parts: seq<real>, steps: seq<Step>, i: nat)
    requires Fits(parts, steps) && i <= |steps| && forall t :: 0 <= t < |parts| ==> parts[t] >= 0.0
    ensures Stored(parts, steps[..i]) <= Stored(parts, steps)
  {
    if i == |steps| {
      assert steps[..i] == steps;
    } else {
      var front := steps[..|steps| - 1];
      StoredMonotone(parts, front, i);
      assert front[..i] == steps[..i];
    }
  }

  lemma PrefixReadsOnce(steps: seq<Step>, n: nat)
    requires n <= |steps| && ReadsOnce(steps)
    ensures ReadsOnce(steps[..n])
    ensures Undisturbed(steps) ==> Undisturbed(steps[..n])
  {
    var front := steps[..n];
    forall j | 0 <= j < |front| && front[j].Store? ensures exists i :: 0 <= i < j && front[i] == Load(front[j].task) {
      var i :| 0 <= i < j && steps[i] == Load(steps[j].task);
      assert front[i] == steps[i];
    }
  }

  /** What the last write of a run adds to. */
  lemma LastStore(parts: seq<real>, steps: seq<Step>) returns (i: nat)
    requires Fits(parts, steps) && steps != [] && steps[|steps| - 1].Store? && ReadsOnce(steps)
    ensures i < |steps| - 1 && steps[i] == Load(steps[|steps| - 1].task)
    ensures Sum(parts, steps) == Sum(parts, steps[..i]) + parts[steps[|steps| - 1].task]
  {
    var last := |steps| - 1;
    i :| 0 <= i < last && steps[i] == Load(steps[last].task);
    SeenAt(parts, steps[..last], i);
    assert steps[..last][..i] == steps[..i];
  }

  /** Undisturbed tasks lose nothing. */
  lemma {:induction false} NothingLost(parts: seq<real>, steps: seq<Step>)
    requires Fits(parts, steps) && ReadsOnce(steps) && Undisturbed(steps)
    ensures Sum(parts, steps) == Stored(parts, steps)
  {
    hide ReadsOnce;
    if steps != [] {
      var last := |steps| - 1;
      var front := steps[..last];
      PrefixReadsOnce(steps, last);
      NothingLost(parts, front);
      if steps[last].Store? {
        var i := LastStore(parts, steps);
        assert !WriteBetween(steps, i, last);
        Untouched(parts, front, i);
        assert front[..i] == steps[..i];
      }
    }
  }

  lemma StoredGrows(parts: seq<real>, steps: seq<Step>, i: nat, m: nat)
    requires Fits(parts, steps) && i <= m < |steps| && steps[m].Store?
    requires forall t :: 0 <= t < |parts| ==> parts[t] > 0.0
    ensures Stored(parts, steps[..i]) < Stored(parts, steps)
  {
    var upTo := steps[..m + 1];
    assert upTo[..m] == steps[..m] && steps[..m][..i] == steps[..i];
    StoredMonotone(parts, steps[..m], i);
    StoredMonotone(parts, steps, m + 1);
  }

  lemma OneRead(steps: seq<Step>, a: nat, i: nat)
    requires ReadsOnce(steps) && a < |steps| && i < |steps| && steps[a].Load? && steps[a] == steps[i]
    ensures a == i
  {}

  /** If the last write is not itself disturbed, an earlier one is, and before the last one's read. */
  lemma DisturbedBefore(steps: seq<Step>, i: nat)
    requires ReadsOnce(steps) && !Undisturbed(steps) && i < |steps| - 1
    requires steps[|steps| - 1] == Store(steps[i].task) && steps[i].Load? && !WriteBetween(steps, i, |steps| - 1)
    ensures !Undisturbed(steps[..i])
  {
    hide ReadsOnce;
    var a, b :| 0 <= a < b < |steps| && steps[a].Load? && steps[b] == Store(steps[a].task) && WriteBetween(steps, a, b);
    var m :| a < m < b && steps[m].Store?;
    if steps[a] == steps[i] { OneRead(steps, a, i); }
    assert b < i;
    DisturbedPrefix(steps, i, a, m, b);
  }

  lemma DisturbedPrefix(steps: seq<Step>, n: nat, a: nat, m: nat, b: nat)
    requires a < m < b < n <= |steps| && steps[a].Load? && steps[m].Store? && steps[b] == Store(steps[a].task)
    ensures !Undisturbed(steps[..n])
  {
    var pre := steps[..n];
    assert pre[m] == steps[m] && WriteBetween(pre, a, b);
    assert pre[a] == steps[a] && pre[b] == steps[b];
  }

  /** The sum never exceeds what was written, and falls short for good once a write was overwritten unseen. */
  lemma {:induction false} ShortForGood(parts: seq<real>, steps: seq<Step>)
    requires Fits(parts, steps) && ReadsOnce(steps) && forall t :: 0 <= t < |parts| ==> parts[t] > 0.0
    ensures Sum(parts, steps) <= Stored(parts, steps)
    ensures !Undisturbed(steps) ==> Sum(parts, steps) < Stored(parts, steps)
    decreases |steps|
  {
    hide ReadsOnce, Undisturbed;
    if steps == [] {
      assert Undisturbed(steps) by { NothingDisturbed(); }
    } else {
      var last := |steps| - 1;
      var front := steps[..last];
      if steps[last].Load? {
        PrefixReadsOnce(steps, last);
        ShortForGood(parts, front);
        if Undisturbed(front) { LoadDisturbsNothing(steps); }
      } else {
        var i := LastStore(parts, steps);
        PrefixReadsOnce(steps, i);
        ShortForGood(parts, steps[..i]);
        assert front[..i] == steps[..i];
        StoredMonotone(parts, front, i);
        if m :| i < m < last && steps[m].Store? {
          StoredGrows(parts, front, i, m);
        } else if !Undisturbed(steps) {
          DisturbedBefore(steps, i);
        }
      }
    }
  }

  lemma NothingDisturbed()
    ensures Undisturbed([])
  {}

  lemma LoadDisturbsNothing(steps: seq<Step>)
    requires steps != [] && steps[|steps| - 1].Load? && Undisturbed(steps[..|steps| - 1])
    ensures Undisturbed(steps)
  {
    var front := steps[..|steps| - 1];
    assert forall m :: 0 <= m < |front| ==> front[m] == steps[m];
    forall i, j | 0 <= i < j < |steps| && steps[i].Load? && steps[j] == Store(steps[i].task)
      ensures !WriteBetween(steps, i, j)
    {
      assert !WriteBetween(front, i, j);
    }
  }

  // ---------- which updates the sum keeps ----------

  /** The tasks whose parts are in the sum: those the last writer had seen, and the last writer. */
  function Kept(steps: seq<Step>): set<nat>
    decreases |steps|
  {
    if steps == [] then {}
    else
      var front := steps[..|steps| - 1];
      match steps[|steps| - 1]
      case Load(_) => Kept(front)
      case Store(t) => KeptAtRead(front, t) + {t}
  }

  /** The tasks whose parts were in the sum when task `t` last read it. */
  function KeptAtRead(steps: seq<Step>, t: nat): set<nat>
    decreases |steps|
  {
    if steps == [] then {}
    else
      var front := steps[..|steps| - 1];
      if steps[|steps| - 1] == Load(t) then Kept(front) else KeptAtRead(front, t)
  }

  lemma {:induction false} KeptHasWritten(steps: seq<Step>, x: nat)
    ensures x in Kept(steps) ==> Store(x) in steps
    ensures forall t: nat :: x in KeptAtRead(steps, t) ==> Store(x) in steps
  {
    if steps != [] {
      var front, last := steps[..|steps| - 1], steps[|steps| - 1];
      assert steps == front + [last];
      KeptHasWritten(front, x);
      if last.Store? { assert Kept(steps) == KeptAtRead(front, last.task) + {last.task}; }
    }
  }

  /** The parts of the first `n` tasks, as far as they are in `kept`. */
  function SumOver(parts: seq<real>, kept: set<nat>, n: nat): real
    requires n <= |parts|
  {
    if n == 0 then 0.0 else SumOver(parts, kept, n - 1) + if n - 1 in kept then parts[n - 1] else 0.0
  }

  lemma {:induction false} SumOverGrows(parts: seq<real>, kept: set<nat>, t: nat, n: nat)
    requires n <= |parts| && t < |parts| && t !in kept
    ensures SumOver(parts, kept + {t}, n) == SumOver(parts, kept, n) + if t < n then parts[t] else 0.0
  {
    if n > 0 { SumOverGrows(parts, kept, t, n - 1); }
  }

  lemma {:induction false} SumOverNothing(parts: seq<real>, n: nat)
    requires n <= |parts|
    ensures SumOver(parts, {}, n) == 0.0
  {
    if n > 0 { SumOverNothing(parts, n - 1); }
  }

  /** The sum consists of exactly the kept parts. */
  lemma {:induction false} SumIsKept(parts: seq<real>, steps: seq<Step>)
    requires Fits(parts, steps) && Distinct(steps)
    ensures Sum(parts, steps) == SumOver(parts, Kept(steps), |parts|)
    ensures forall t: nat :: Seen(parts, steps, t) == SumOver(parts, KeptAtRead(steps, t), |parts|)
  {
    hide SumOver;
    if steps == [] {
      SumOverNothing(parts, |parts|);
    } else {
      var last := |steps| - 1;
      var front := steps[..last];
      SumIsKept(parts, front);
      if steps[last].Store? {
        var t := steps[last].task;
        KeptHasWritten(front, t);
        SumOverGrows(parts, KeptAtRead(front, t), t, |parts|);
      }
    }
  }

  /** All parts added up. */
  function Total(parts: seq<real>, n: nat): real
    requires n <= |parts|
  {
    if n == 0 then 0.0 else Total(parts, n - 1) + parts[n - 1]
  }

  /** Leaving out tasks changes the total exactly when one of them has something to add. */
  lemma {:induction false} SumOverExactly(parts: seq<real>, kept: set<nat>, n: nat)
    requires n <= |parts| && forall t :: 0 <= t < |parts| ==> parts[t] >= 0.0
    ensures SumOver(parts, kept, n) <= Total(parts, n)
    ensures SumOver(parts, kept, n) == Total(parts, n) <==> forall t: nat :: t < n && t !in kept ==> parts[t] == 0.0
  {
    if n > 0 { SumOverExactly(parts, kept, n - 1); }
  }

  // ---------- the tasks of the sweep ----------

  function Parts(u: Grid, rows: int, cols: nat): (parts: seq<real>)
    requires rows <= |u| - 2 && IsGrid(u, |u|, cols)
    ensures |parts| == NB
  {
    seq(NB, jj requires 0 <= jj < NB => TaskChange(u, rows, cols, jj))
  }

  /** The tasks in the order in which they write. */
  function Writers(steps: seq<Step>): seq<nat> {
    if steps == [] then []
    else if steps[|steps| - 1].Load? then Writers(steps[..|steps| - 1])
    else Writers(steps[..|steps| - 1]) + [steps[|steps| - 1].task]
  }

  lemma {:induction false} StoredIsTasksChange(u: Grid, rows: int, cols: nat, steps: seq<Step>)
    requires rows <= |u| - 2 && IsGrid(u, |u|, cols) && Fits(Parts(u, rows, cols), steps)
    ensures Stored(Parts(u, rows, cols), steps) == TasksChange(u, rows, cols, Writers(steps))
  {
    hide TaskChange, IsGrid;
    if steps != [] {
      var front := steps[..|steps| - 1];
      StoredIsTasksChange(u, rows, cols, front);
      if steps[|steps| - 1].Store? {
        var writers, t := Writers(steps), steps[|steps| - 1].task;
        assert writers == Writers(front) + [t];
        assert writers[..|writers| - 1] == Writers(front) && writers[|writers| - 1] == t;
        assert Parts(u, rows, cols)[t] == TaskChange(u, rows, cols, t);
      }
    }
  }

  /** A run of the eight tasks' updates: each task writes once, after its one read. */
  ghost predicate IsRun(steps: seq<Step>) {
    && (forall i :: 0 <= i < |steps| ==> steps[i].task < NB)
    && ReadsOnce(steps) && IsSchedule(Writers(steps))
  }

  lemma {:induction false} TaskChangeNonNegative(u: Grid, rows: int, cols: nat, jj: nat)
    requires rows <= |u| - 2 && IsGrid(u, |u|, cols)
    ensures TaskChange(u, rows, cols, jj) >= 0.0
  {
    if rows > 0 {
      TaskChangeNonNegative(u, rows - 1, cols, jj);
      RangeChangeNonNegative(u[rows - 1], u[rows], u[rows + 1], BlockLow(cols, jj), BlockHigh(cols, jj));
    }
  }

  lemma {:induction false} TotalIsTasksChange(u: Grid, rows: int, cols: nat, m: nat)
    requires rows <= |u| - 2 && IsGrid(u, |u|, cols) && m <= NB
    ensures Total(Parts(u, rows, cols), m) == TasksChange(u, rows, cols, AllTasks()[..m])
  {
    hide TaskChange, IsGrid;
    if m > 0 {
      TotalIsTasksChange(u, rows, cols, m - 1);
      assert AllTasks()[..m][..m - 1] == AllTasks()[..m - 1];
    }
  }

  lemma TotalIsResidual(u: Grid, sizex: nat, cols: nat)
    requires 2 <= sizex <= |u| && IsGrid(u, |u|, cols) && cols >= 2
    ensures var parts := Parts(u, sizex - 2, cols);
            Total(parts, NB) == ChangeSum(u, 1, sizex - 1, cols) && forall t :: 0 <= t < NB ==> parts[t] >= 0.0
  {
    hide Total, TasksChange, TaskChange, ChangeSum;
    TotalIsTasksChange(u, sizex - 2, cols, NB);
    assert AllTasks()[..NB] == AllTasks();
    AnyOrderSameResidual(u, sizex, cols, AllTasks());
    var parts := Parts(u, sizex - 2, cols);
    forall t | 0 <= t < NB ensures parts[t] >= 0.0 {
      TaskChangeNonNegative(u, sizex - 2, cols, t);
    }
  }

  /** Over any interleaving, the sum ends as the residual if and only if no task whose update got lost had anything
      to add. */
  lemma SumIsResidualExactly(u: Grid, sizex: nat, cols: nat, steps: seq<Step>)
    requires 2 <= sizex <= |u| && IsGrid(u, |u|, cols) && cols >= 2 && IsRun(steps)
    ensures var parts := Parts(u, sizex - 2, cols);
            && Fits(parts, steps)
            && (Sum(parts, steps) == ChangeSum(u, 1, sizex - 1, cols) <==>
                  forall t: nat :: t < NB && t !in Kept(steps) ==> parts[t] == 0.0)
  {
    hide Parts, Sum, SumOver, Total, IsSchedule, ChangeSum, IsGrid;
    var parts := Parts(u, sizex - 2, cols);
    TotalIsResidual(u, sizex, cols);
    SumIsKept(parts, steps);
    SumOverExactly(parts, Kept(steps), NB);
  }

  lemma PositiveParts(u: Grid, sizex: nat, cols: nat, steps: seq<Step>)
    requires 2 <= sizex <= |u| && IsGrid(u, |u|, cols) && cols >= 2 && IsRun(steps)
    requires var parts := Parts(u, sizex - 2, cols); forall jj :: 0 <= jj < NB ==> parts[jj] > 0.0
    ensures Fits(Parts(u, sizex - 2, cols), steps)
    ensures Sum(Parts(u, sizex - 2, cols), steps) == ChangeSum(u, 1, sizex - 1, cols) <==> Undisturbed(steps)
  {
    hide Parts, Sum, Stored, ReadsOnce, Undisturbed, IsSchedule, ChangeSum, TasksChange, IsGrid;
    var parts := Parts(u, sizex - 2, cols);
    StoredIsTasksChange(u, sizex - 2, cols, steps);
    AnyOrderSameResidual(u, sizex, cols, Writers(steps));
    ShortForGood(parts, steps);
    if Undisturbed(steps) { NothingLost(parts, steps); }
  }

  /** No update gets lost if and only if no task writes between another's read and write. */
  lemma NothingLostExactly(steps: seq<Step>)
    requires IsRun(steps)
    ensures Undisturbed(steps) <==> forall t: nat :: t < NB ==> t in Kept(steps)
  {
    hide WarmAbove, IsRun, Undisturbed, Kept, Sum, ChangeSum, TaskChange;
    forall jj | 0 <= jj < NB ensures Parts(WarmAbove(), 1, 10)[jj] > 0.0 { WarmParts(jj); }
    PositiveParts(WarmAbove(), 3, 10, steps);
    SumIsResidualExactly(WarmAbove(), 3, 10, steps);
  }

  /** A cold grid under a warm border row: every task has something to add. */
  function WarmAbove(): (g: Grid)
    ensures IsGrid(g, 3, 10)
  {
    seq(3, i => seq(10, _ => if i == 0 then 1.0 else 0.0))
  }

  lemma WarmParts(jj: nat)
    requires jj < NB
    ensures TaskChange(WarmAbove(), 1, 10, jj) == 0.0625
  {
    var g := WarmAbove();
    assert BlockLow(10, jj) == BlockHigh(10, jj) == jj + 1;
    assert RangeChange(g[0], g[1], g[2], jj + 1, jj) == 0.0;
  }

  // ---------- when every interleaving gives the residual ----------

  predicate IsOrder(order: seq<nat>) {
    |order| == NB && Distinct(order) && IsSchedule(order) && forall i :: 0 <= i < NB ==> order[i] < NB
  }

  /** All tasks read before any writes; they write in the order given. */
  function ReadFirst(order: seq<nat>): (steps: seq<Step>)
    requires |order| == NB
    ensures |steps| == 2 * NB
  {
    seq(2 * NB, i requires 0 <= i < 2 * NB => if i < NB then Load(i) else Store(order[i - NB]))
  }

  lemma {:induction false} OnlyReads(steps: seq<Step>)
    requires forall i :: 0 <= i < |steps| ==> steps[i].Load?
    ensures Writers(steps) == [] && Kept(steps) == {}
  {
    if steps != [] { OnlyReads(steps[..|steps| - 1]); }
  }

  lemma {:induction false} WritersInOrder(order: seq<nat>, k: nat)
    requires |order| == NB && k <= NB
    ensures Writers(ReadFirst(order)[..NB + k]) == order[..k]
  {
    if k == 0 {
      OnlyReads(ReadFirst(order)[..NB]);
    } else {
      var steps := ReadFirst(order)[..NB + k];
      WritersInOrder(order, k - 1);
      assert steps[..|steps| - 1] == ReadFirst(order)[..NB + (k - 1)];
      assert order[..k] == order[..k - 1] + [order[k - 1]];
    }
  }

  /** Nobody has seen anything when all reads come first. */
  lemma {:induction false} SeesNothing(order: seq<nat>, t: nat, k: nat)
    requires |order| == NB && k <= 2 * NB
    ensures KeptAtRead(ReadFirst(order)[..k], t) == {}
  {
    if k > 0 {
      var steps := ReadFirst(order)[..k];
      assert steps[..|steps| - 1] == ReadFirst(order)[..k - 1];
      SeesNothing(order, t, k - 1);
      if k <= NB { OnlyReads(steps[..|steps| - 1]); }
    }
  }

  lemma ReadFirstIsRun(order: seq<nat>)
    requires IsOrder(order)
    ensures IsRun(ReadFirst(order)) && Kept(ReadFirst(order)) == {order[NB - 1]}
  {
    hide Writers, Kept, KeptAtRead, IsSchedule;
    var steps := ReadFirst(order);
    forall j | 0 <= j < |steps| && steps[j].Store? ensures exists i :: 0 <= i < j && steps[i] == Load(steps[j].task) {
      assert steps[order[j - NB]] == Load(steps[j].task);
    }
    assert steps[..NB + NB] == steps && order[..NB] == order;
    WritersInOrder(order, NB);
    LastWriterKept(order);
  }

  lemma LastWriterKept(order: seq<nat>)
    requires |order| == NB
    ensures Kept(ReadFirst(order)) == {order[NB - 1]}
  {
    hide KeptAtRead;
    var steps := ReadFirst(order);
    assert steps[2 * NB - 1] == Store(order[NB - 1]);
    SeesNothing(order, order[NB - 1], 2 * NB - 1);
  }

  /** The tasks with the last one moved to the front. */
  function LastOneFirst(): (order: seq<nat>)
    ensures |order| == NB && order[NB - 1] == NB - 2
  {
    [NB - 1] + AllTasks()[..NB - 1]
  }

  lemma BothAreOrders()
    ensures IsOrder(AllTasks()) && IsOrder(LastOneFirst())
  {
    hide AllTasks;
    MovedToFront(AllTasks(), NB - 1);
  }

  lemma MovedToFront<T>(s: seq<T>, last: nat)
    requires |s| == last + 1
    ensures multiset([s[last]] + s[..last]) == multiset(s)
  {
    assert s == s[..last] + [s[last]];
  }

  /** Every interleaving gives the residual if and only if the residual is zero: two runs in which all tasks read
      first keep the part of one task each, and not the same one. */
  lemma AlwaysResidualExactly(u: Grid, sizex: nat, cols: nat)
    requires 2 <= sizex <= |u| && IsGrid(u, |u|, cols) && cols >= 2
    ensures (forall steps :: IsRun(steps) ==>
               Fits(Parts(u, sizex - 2, cols), steps)
               && Sum(Parts(u, sizex - 2, cols), steps) == ChangeSum(u, 1, sizex - 1, cols))
            <==> ChangeSum(u, 1, sizex - 1, cols) == 0.0
  {
    hide IsRun, Parts, Sum, SumOver, Total, ChangeSum, IsGrid, ReadFirst, IsOrder, Kept, Fits;
    var parts, residual := Parts(u, sizex - 2, cols), ChangeSum(u, 1, sizex - 1, cols);
    TotalIsResidual(u, sizex, cols);
    SumOverExactly(parts, {}, NB);
    SumOverNothing(parts, NB);
    if residual == 0.0 {
      forall steps | IsRun(steps) ensures Fits(parts, steps) && Sum(parts, steps) == residual {
        SumIsResidualExactly(u, sizex, cols, steps);
      }
    } else {
      BothAreOrders();
      ReadFirstIsRun(AllTasks());
      ReadFirstIsRun(LastOneFirst());
      SumIsResidualExactly(u, sizex, cols, ReadFirst(AllTasks()));
      SumIsResidualExactly(u, sizex, cols, ReadFirst(LastOneFirst()));
    }
  }

  /** On the grid under a warm border row the sum misses part of the residual when all tasks read first. */
  lemma UpdatesGetLost()
    ensures IsRun(ReadFirst(AllTasks())) && Fits(Parts(WarmAbove(), 1, 10), ReadFirst(AllTasks()))
    ensures Sum(Parts(WarmAbove(), 1, 10), ReadFirst(AllTasks())) != ChangeSum(WarmAbove(), 1, 2, 10)
  {
    hide WarmAbove, AllTasks, IsOrder, ReadFirst, IsRun, Kept, Sum, ChangeSum, TaskChange, Fits;
    BothAreOrders();
    ReadFirstIsRun(AllTasks());
    WarmParts(0);
    assert 0 !in Kept(ReadFirst(AllTasks()));
    SumIsResidualExactly(WarmAbove(), 3, 10, ReadFirst(AllTasks()));
  }
}
