/** Grids of the heat solver and one Jacobi sweep over them, as values: relax_jacobi of
    example/LINUX/MPI+OMPSS/solver-mpi-ompss.c, which the OMPSS example shares. */
module HeatGrid {

  /** Column blocks, one task each. */
  const NB: nat := 8

  type Row = seq<real>
  type Grid = seq<Row>

  predicate IsGrid(g: Grid, rows: nat, cols: nat) {
    |g| == rows && forall i :: 0 <= i < rows ==> |g[i]| == cols
  }

  function Average(left: real, right: real, top: real, bottom: real): real {
    0.25 * (left + right + top + bottom)
  }

  function SquaredChange(after: real, before: real): real {
    (after - before) * (after - before)
  }

  function Stencil(above: Row, mid: Row, below: Row, j: nat): real
    requires |above| == |mid| == |below| && 1 <= j <= |mid| - 2
  {
    Average(mid[j - 1], mid[j + 1], above[j], below[j])
  }

  /** The last interior column any block reaches. */
  function LastColumn(cols: nat): int {
    var reach := NB * (cols / NB);
    if reach < cols - 2 then reach else cols - 2
  }

  /** Blocks of width cols/8 reach every interior column exactly when cols leaves at most 2 over. */
  lemma FullCoverage(cols: nat)
    requires cols >= 2
    ensures LastColumn(cols) == cols - 2 <==> cols % NB <= 2
  {}

  // ---------- products ----------

  /** A product of reals under a name, so that proofs can treat it as a number. */
  function Product(x: real, y: real): real { x * y }

  lemma ProductMonotone(s: real, x: real, y: real)
    requires s >= 0.0 && x <= y
    ensures Product(s, x) <= Product(s, y) && Product(x, s) <= Product(y, s)
  {
    assert s * (y - x) >= 0.0;
  }

  lemma ProductSteps(s: real, d: real)
    ensures Product(s + 1.0, d) == Product(s, d) + d && Product(s, -d) == -Product(s, d)
  {}

  lemma ProductUnits(x: real, y: real, e: real)
    ensures Product(x, 1.0) == x == Product(1.0, x) && Product(0.0, x) == 0.0
    ensures Product(Product(x, y), e) == Product(x, Product(y, e))
  {
    assert x * y * e == x * (y * e);
  }

  // ---------- one row ----------

  /** `prior` with the columns `lo` to `hi` replaced by the stencil. */
  function PartialRow(above: Row, mid: Row, below: Row, prior: Row, lo: int, hi: int): (row: Row)
    requires |above| == |mid| == |below| == |prior| && 1 <= lo && hi <= |mid| - 2
    ensures |row| == |mid|
  {
    seq(|mid|, j requires 0 <= j < |mid| => if lo <= j <= hi then Stencil(above, mid, below, j) else prior[j])
  }

  function RowUpdate(above: Row, mid: Row, below: Row, prior: Row): (row: Row)
    requires |above| == |mid| == |below| == |prior|
    ensures |row| == |mid|
  {
    PartialRow(above, mid, below, prior, 1, LastColumn(|mid|))
  }

  /** The squared changes of the columns `lo` to `hi` added up. */
  function RangeChange(above: Row, mid: Row, below: Row, lo: int, hi: int): real
    requires |above| == |mid| == |below| && 1 <= lo && hi <= |mid| - 2
    decreases hi - lo + 1
  {
    if hi < lo then 0.0
    else RangeChange(above, mid, below, lo, hi - 1) + SquaredChange(Stencil(above, mid, below, hi), mid[hi])
  }

  function RowChange(above: Row, mid: Row, below: Row): real
    requires |above| == |mid| == |below|
  {
    RangeChange(above, mid, below, 1, LastColumn(|mid|))
  }

  lemma SquareNonNegative(after: real, before: real)
    ensures SquaredChange(after, before) >= 0.0
  {}

  lemma {:induction false} RangeChangeNonNegative(above: Row, mid: Row, below: Row, lo: int, hi: int)
    requires |above| == |mid| == |below| && 1 <= lo && hi <= |mid| - 2
    ensures RangeChange(above, mid, below, lo, hi) >= 0.0
    decreases hi - lo + 1
  {
    hide Stencil, SquaredChange;
    if lo <= hi {
      RangeChangeNonNegative(above, mid, below, lo, hi - 1);
      SquareNonNegative(Stencil(above, mid, below, hi), mid[hi]);
    }
  }

  lemma {:induction false} RangeChangeHas(above: Row, mid: Row, below: Row, lo: int, hi: int, j: int)
    requires |above| == |mid| == |below| && 1 <= lo <= j <= hi <= |mid| - 2
    ensures SquaredChange(Stencil(above, mid, below, j), mid[j]) <= RangeChange(above, mid, below, lo, hi)
    decreases hi - lo + 1
  {
    hide Stencil, SquaredChange;
    RangeChangeNonNegative(above, mid, below, lo, hi - 1);
    SquareNonNegative(Stencil(above, mid, below, hi), mid[hi]);
    if j < hi { RangeChangeHas(above, mid, below, lo, hi - 1, j); }
  }

  lemma {:induction false} RangeChangeAtMost(above: Row, mid: Row, below: Row, hi: nat, most: real)
    requires |above| == |mid| == |below| && hi <= |mid| - 2
    requires forall j :: 1 <= j <= hi ==> SquaredChange(Stencil(above, mid, below, j), mid[j]) <= most
    ensures RangeChange(above, mid, below, 1, hi) <= Product(hi as real, most)
  {
    hide Stencil, SquaredChange, Product;
    if hi == 0 {
      ProductUnits(most, most, most);
    } else {
      RangeChangeAtMost(above, mid, below, hi - 1, most);
      ProductSteps((hi - 1) as real, most);
    }
  }

  // ---------- the whole sweep ----------

  /** Rows 1 to `sizex`-2 of `h` updated from `u`. */
  function Sweep(u: Grid, h: Grid, sizex: nat, cols: nat): (g: Grid)
    requires 2 <= sizex <= |u| && IsGrid(u, |u|, cols) && IsGrid(h, |u|, cols)
    ensures IsGrid(g, |u|, cols)
  {
    seq(|u|, i requires 0 <= i < |u| =>
      if 1 <= i <= sizex - 2 then RowUpdate(u[i - 1], u[i], u[i + 1], h[i]) else h[i])
  }

  lemma SweepRow(u: Grid, h: Grid, sizex: nat, cols: nat, i: nat)
    requires 2 <= sizex <= |u| && IsGrid(u, |u|, cols) && IsGrid(h, |u|, cols) && 1 <= i <= sizex - 2
    ensures Sweep(u, h, sizex, cols)[i] == RowUpdate(u[i - 1], u[i], u[i + 1], h[i])
  {
    hide RowUpdate;
  }

  /** Sweeping a window of a larger grid gives, row for row, the sweep of the larger grid. */
  lemma SweepOfWindow(u: Grid, h: Grid, sizex: nat, cols: nat, g: Grid, from: nat, i: nat)
    requires 2 <= sizex <= |u| && IsGrid(u, |u|, cols) && IsGrid(h, |u|, cols)
    requires |g| >= 2 && IsGrid(g, |g|, cols) && 1 <= i <= sizex - 2 && from + i + 1 < |g|
    requires u[i - 1] == g[from + i - 1] && u[i] == g[from + i] && u[i + 1] == g[from + i + 1] && h[i] == g[from + i]
    ensures Sweep(u, h, sizex, cols)[i] == Sweep(g, g, |g|, cols)[from + i]
  {
    hide Sweep, RowUpdate;
    SweepRow(u, h, sizex, cols, i);
    SweepRow(g, g, |g|, cols, from + i);
  }

  /** The squared changes of the rows from `lo` up to, but not including, `hi`. */
  function ChangeSum(u: Grid, lo: nat, hi: nat, cols: nat): real
    requires IsGrid(u, |u|, cols) && 1 <= lo && hi <= |u| - 1
    decreases hi
  {
    if hi <= lo then 0.0
    else ChangeSum(u, lo, hi - 1, cols) + RowChange(u[hi - 2], u[hi - 1], u[hi])
  }

  lemma {:induction false} ChangeSumSplits(u: Grid, lo: nat, mid: nat, hi: nat, cols: nat)
    requires IsGrid(u, |u|, cols) && 1 <= lo <= mid <= hi <= |u| - 1
    ensures ChangeSum(u, lo, hi, cols) == ChangeSum(u, lo, mid, cols) + ChangeSum(u, mid, hi, cols)
  {
    if mid < hi { ChangeSumSplits(u, lo, mid, hi - 1, cols); }
  }

  /** The sum only looks at the rows it covers and their neighbours. */
  lemma {:induction false} ChangeSumLocal(u: Grid, v: Grid, lo: nat, hi: nat, shift: nat, cols: nat)
    requires IsGrid(u, |u|, cols) && IsGrid(v, |v|, cols)
    requires 1 <= lo <= hi <= |u| - 1 && hi + shift <= |v| - 1
    requires lo < hi ==> forall i :: lo - 1 <= i <= hi ==> u[i] == v[i + shift]
    ensures ChangeSum(u, lo, hi, cols) == ChangeSum(v, lo + shift, hi + shift, cols)
  {
    if lo < hi {
      ChangeSumLocal(u, v, lo, hi - 1, shift, cols);
      assert u[hi - 2] == v[hi - 2 + shift] && u[hi - 1] == v[hi - 1 + shift] && u[hi] == v[hi + shift];
    }
  }

  lemma {:induction false} ChangeSumNonNegative(u: Grid, lo: nat, hi: nat, cols: nat)
    requires IsGrid(u, |u|, cols) && 1 <= lo && hi <= |u| - 1
    ensures ChangeSum(u, lo, hi, cols) >= 0.0
  {
    if lo < hi {
      ChangeSumNonNegative(u, lo, hi - 1, cols);
      RangeChangeNonNegative(u[hi - 2], u[hi - 1], u[hi], 1, LastColumn(cols));
    }
  }

  /** The sum is no smaller than the squared change of any covered cell. */
  lemma {:induction false} ChangeSumHas(u: Grid, hi: nat, cols: nat, i: nat, j: nat)
    requires IsGrid(u, |u|, cols) && 1 <= i < hi <= |u| - 1 && 1 <= j <= LastColumn(cols)
    ensures SquaredChange(Stencil(u[i - 1], u[i], u[i + 1], j), u[i][j]) <= ChangeSum(u, 1, hi, cols)
  {
    hide Stencil, SquaredChange;
    ChangeSumNonNegative(u, 1, hi - 1, cols);
    RangeChangeNonNegative(u[hi - 2], u[hi - 1], u[hi], 1, LastColumn(cols));
    if i < hi - 1 {
      ChangeSumHas(u, hi - 1, cols, i, j);
    } else {
      RangeChangeHas(u[i - 1], u[i], u[i + 1], 1, LastColumn(cols), j);
    }
  }

  /** The sum is no larger than the number of its cells times their largest squared change. */
  lemma {:induction false} ChangeSumAtMost(u: Grid, hi: nat, cols: nat, most: real)
    requires IsGrid(u, |u|, cols) && 1 <= hi <= |u| - 1 && cols >= 2 && most >= 0.0
    requires forall i, j :: 1 <= i < hi && 1 <= j <= LastColumn(cols) ==>
                              SquaredChange(Stencil(u[i - 1], u[i], u[i + 1], j), u[i][j]) <= most
    ensures ChangeSum(u, 1, hi, cols) <= Product((hi - 1) as real, Product(cols as real, most))
  {
    hide Stencil, SquaredChange, LastColumn, Product;
    var row := Product(cols as real, most);
    if hi == 1 {
      ProductUnits(row, row, row);
    } else {
      ChangeSumAtMost(u, hi - 1, cols, most);
      LastColumnRange(cols);
      RangeChangeAtMost(u[hi - 2], u[hi - 1], u[hi], LastColumn(cols), most);
      ProductMonotone(most, LastColumn(cols) as real, cols as real);
      ProductSteps((hi - 2) as real, row);
    }
  }

  /** The squared differences of two rows' first `n` cells, and of two grids' first `n` rows, added up. */
  function RowDistance(a: Row, b: Row, n: nat): real
    requires n <= |a| && n <= |b|
  {
    if n == 0 then 0.0 else RowDistance(a, b, n - 1) + (a[n - 1] - b[n - 1]) * (a[n - 1] - b[n - 1])
  }

  function SquaredDistance(a: Grid, b: Grid, n: nat): real
    requires n <= |a| && n <= |b| && forall i :: 0 <= i < n ==> |a[i]| == |b[i]|
  {
    if n == 0 then 0.0 else SquaredDistance(a, b, n - 1) + RowDistance(a[n - 1], b[n - 1], |a[n - 1]|)
  }

  lemma UpdatedCell(above: Row, mid: Row, below: Row, j: nat)
    requires |above| == |mid| == |below| && j < |mid| && |mid| >= 2
    ensures 1 <= j <= LastColumn(|mid|) ==>
              j <= |mid| - 2 && RowUpdate(above, mid, below, mid)[j] == Stencil(above, mid, below, j)
    ensures !(1 <= j <= LastColumn(|mid|)) ==> RowUpdate(above, mid, below, mid)[j] == mid[j]
  {
    hide Stencil;
  }

  lemma {:induction false} RowUpdateDistance(above: Row, mid: Row, below: Row, n: nat)
    requires |above| == |mid| == |below| && n <= |mid| && |mid| >= 2
    ensures RowDistance(RowUpdate(above, mid, below, mid), mid, n)
         == RangeChange(above, mid, below, 1, if n <= LastColumn(|mid|) then n - 1 else LastColumn(|mid|))
  {
    hide Stencil, LastColumn, RowUpdate, RowDistance, SquaredChange;
    LastColumnRange(|mid|);
    if n == 0 {
      NoDistance(RowUpdate(above, mid, below, mid), mid);
    } else {
      RowUpdateDistance(above, mid, below, n - 1);
      UpdatedCell(above, mid, below, n - 1);
      CellDistance(RowUpdate(above, mid, below, mid), mid, n - 1);
    }
  }

  lemma NoDistance(a: Row, b: Row)
    ensures RowDistance(a, b, 0) == 0.0
  {}

  lemma CellDistance(a: Row, b: Row, j: nat)
    requires j < |a| == |b|
    ensures RowDistance(a, b, j + 1) == RowDistance(a, b, j) + SquaredChange(a[j], b[j])
    ensures a[j] == b[j] ==> RowDistance(a, b, j + 1) == RowDistance(a, b, j)
  {}

  lemma {:induction false} SameRowDistance(a: Row, n: nat)
    requires n <= |a|
    ensures RowDistance(a, a, n) == 0.0
  {
    if n > 0 { SameRowDistance(a, n - 1); }
  }

  lemma SweptRowDistance(u: Grid, sizex: nat, cols: nat, i: nat)
    requires 2 <= sizex <= |u| && IsGrid(u, |u|, cols) && cols >= 2 && i < |u|
    ensures RowDistance(Sweep(u, u, sizex, cols)[i], u[i], cols)
         == if 1 <= i <= sizex - 2 then RowChange(u[i - 1], u[i], u[i + 1]) else 0.0
  {
    hide RowUpdate, RowDistance, RangeChange, LastColumn;
    if 1 <= i <= sizex - 2 {
      SweepRow(u, u, sizex, cols, i);
      LastColumnRange(cols);
      RowUpdateDistance(u[i - 1], u[i], u[i + 1], cols);
    } else {
      SameRowDistance(u[i], cols);
    }
  }

  /** The residual is the squared distance that the sweep moves the grid. */
  lemma {:induction false} SweepDistance(u: Grid, sizex: nat, cols: nat, n: nat)
    requires 2 <= sizex <= |u| && IsGrid(u, |u|, cols) && cols >= 2 && n <= |u|
    ensures SquaredDistance(Sweep(u, u, sizex, cols), u, n)
         == ChangeSum(u, 1, if n == 0 then 0 else if n <= sizex - 1 then n else sizex - 1, cols)
  {
    hide Sweep, RowDistance, RowChange;
    if n > 0 {
      SweepDistance(u, sizex, cols, n - 1);
      SweptRowDistance(u, sizex, cols, n - 1);
    }
  }

  /** The law of the sweep cell by cell: a cell in one of the columns that eight blocks of equal width reach becomes the
      average of its four neighbours in `u`, and every other cell is as it was in `before`. */
  predicate Averaged(u: Grid, before: Grid, after: Grid, sizex: nat, cols: nat)
    requires 2 <= sizex <= |u| && IsGrid(u, |u|, cols) && IsGrid(before, |u|, cols) && IsGrid(after, |u|, cols)
  {
    forall i, j :: 0 <= i < |u| && 0 <= j < cols ==>
      after[i][j] == if 1 <= i <= sizex - 2 && 1 <= j <= cols - 2 && j <= 8 * (cols / 8)
                     then (u[i][j - 1] + u[i][j + 1] + u[i - 1][j] + u[i + 1][j]) / 4.0
                     else before[i][j]
  }

  lemma LastColumnRange(cols: nat)
    requires cols >= 2
    ensures 0 <= LastColumn(cols) <= cols - 2
  {}

  // ---------- the tasks ----------

  function BlockLow(cols: nat, jj: nat): nat { 1 + jj * (cols / NB) }

  function BlockHigh(cols: nat, jj: nat): int {
    var reach := (jj + 1) * (cols / NB);
    if reach < cols - 2 then reach else cols - 2
  }

  predicate InBlock(cols: nat, jj: nat, j: nat) {
    BlockLow(cols, jj) <= j <= BlockHigh(cols, jj)
  }

  /** The blocks of the eight tasks tile the columns 1 to LastColumn. */
  lemma BlocksTile(cols: nat, j: nat)
    ensures 1 <= j <= LastColumn(cols) <==> exists jj: nat :: jj < NB && InBlock(cols, jj, j)
  {
    var width := cols / NB;
    if 1 <= j <= LastColumn(cols) {
      assert InBlock(cols, 0, j) || InBlock(cols, 1, j) || InBlock(cols, 2, j) || InBlock(cols, 3, j)
          || InBlock(cols, 4, j) || InBlock(cols, 5, j) || InBlock(cols, 6, j) || InBlock(cols, 7, j);
    }
    forall jj: nat | jj < NB && InBlock(cols, jj, j) ensures 1 <= j <= LastColumn(cols) {
      assert (jj + 1) * width <= NB * width;
    }
  }

  /** What task `jj` leaves in `h`: its column block of rows 1 to `rows`. */
  function TaskSweep(u: Grid, h: Grid, rows: int, cols: nat, jj: nat): (g: Grid)
    requires rows <= |u| - 2 && IsGrid(u, |u|, cols) && IsGrid(h, |u|, cols)
    ensures IsGrid(g, |u|, cols)
  {
    seq(|u|, i requires 0 <= i < |u| =>
      if 1 <= i <= rows
      then PartialRow(u[i - 1], u[i], u[i + 1], h[i], BlockLow(cols, jj), BlockHigh(cols, jj))
      else h[i])
  }

  function TaskChange(u: Grid, rows: int, cols: nat, jj: nat): real
    requires rows <= |u| - 2 && IsGrid(u, |u|, cols)
  {
    if rows <= 0 then 0.0
    else TaskChange(u, rows - 1, cols, jj)
         + RangeChange(u[rows - 1], u[rows], u[rows + 1], BlockLow(cols, jj), BlockHigh(cols, jj))
  }

  /** Tasks run one after the other in the given order. */
  function RunTasks(u: Grid, h: Grid, rows: int, cols: nat, order: seq<nat>): (g: Grid)
    requires rows <= |u| - 2 && IsGrid(u, |u|, cols) && IsGrid(h, |u|, cols)
    ensures IsGrid(g, |u|, cols)
  {
    if order == [] then h
    else TaskSweep(u, RunTasks(u, h, rows, cols, order[..|order| - 1]), rows, cols, order[|order| - 1])
  }

  function AllTasks(): (all: seq<nat>)
    ensures |all| == NB && forall jj :: 0 <= jj < NB ==> all[jj] == jj
  {
    [0, 1, 2, 3, 4, 5, 6, 7]
  }

  predicate IsSchedule(order: seq<nat>) {
    multiset(order) == multiset(AllTasks())
  }

  ghost predicate Reached(cols: nat, order: seq<nat>, j: nat) {
    exists t :: 0 <= t < |order| && InBlock(cols, order[t], j)
  }

  lemma ReachedStep(cols: nat, order: seq<nat>, j: nat)
    requires order != []
    ensures Reached(cols, order, j) <==> Reached(cols, order[..|order| - 1], j) || InBlock(cols, order[|order| - 1], j)
  {
    hide InBlock;
    var front := order[..|order| - 1];
    if t :| 0 <= t < |front| && InBlock(cols, front[t], j) { assert InBlock(cols, order[t], j); }
    if t :| 0 <= t < |order| && InBlock(cols, order[t], j) { assert t < |front| ==> InBlock(cols, front[t], j); }
  }

  lemma TaskCell(u: Grid, h: Grid, rows: int, cols: nat, jj: nat, i: nat, j: nat)
    requires rows <= |u| - 2 && IsGrid(u, |u|, cols) && IsGrid(h, |u|, cols) && i < |u| && j < cols
    ensures 1 <= i <= rows && InBlock(cols, jj, j) ==>
              TaskSweep(u, h, rows, cols, jj)[i][j] == Stencil(u[i - 1], u[i], u[i + 1], j)
    ensures !(1 <= i <= rows && InBlock(cols, jj, j)) ==> TaskSweep(u, h, rows, cols, jj)[i][j] == h[i][j]
  {}

  lemma InBlockIsInterior(cols: nat, jj: nat, j: nat)
    requires InBlock(cols, jj, j)
    ensures 1 <= j <= cols - 2
  {}

  lemma {:induction false} RunTasksCell(u: Grid, h: Grid, rows: int, cols: nat, order: seq<nat>, i: nat, j: nat)
    requires rows <= |u| - 2 && IsGrid(u, |u|, cols) && IsGrid(h, |u|, cols) && i < |u| && j < cols
    ensures Reached(cols, order, j) ==> 1 <= j <= cols - 2
    ensures RunTasks(u, h, rows, cols, order)[i][j]
         == if 1 <= i <= rows && Reached(cols, order, j) then Stencil(u[i - 1], u[i], u[i + 1], j) else h[i][j]
  {
    hide Reached, InBlock, Stencil, TaskSweep;
    if order == [] {
      NothingReached(cols, j);
    } else {
      var front, jj := order[..|order| - 1], order[|order| - 1];
      RunTasksCell(u, h, rows, cols, front, i, j);
      ReachedStep(cols, order, j);
      if InBlock(cols, jj, j) { InBlockIsInterior(cols, jj, j); }
      TaskCell(u, RunTasks(u, h, rows, cols, front), rows, cols, jj, i, j);
    }
  }

  lemma NothingReached(cols: nat, j: nat)
    ensures !Reached(cols, [], j)
  {}

  lemma SweepCell(u: Grid, h: Grid, sizex: nat, cols: nat, i: nat, j: nat)
    requires 2 <= sizex <= |u| && IsGrid(u, |u|, cols) && IsGrid(h, |u|, cols) && i < |u| && j < cols
    ensures Sweep(u, h, sizex, cols)[i][j]
         == if 1 <= i <= sizex - 2 && 1 <= j <= LastColumn(cols) then Stencil(u[i - 1], u[i], u[i + 1], j) else h[i][j]
  {}

  lemma SweepAverages(u: Grid, h: Grid, sizex: nat, cols: nat)
    requires 2 <= sizex <= |u| && IsGrid(u, |u|, cols) && IsGrid(h, |u|, cols)
    ensures Averaged(u, h, Sweep(u, h, sizex, cols), sizex, cols)
  {
    var after := Sweep(u, h, sizex, cols);
    hide Sweep;
    forall i, j | 0 <= i < |u| && 0 <= j < cols
      ensures after[i][j] == if 1 <= i <= sizex - 2 && 1 <= j <= cols - 2 && j <= 8 * (cols / 8)
                             then (u[i][j - 1] + u[i][j + 1] + u[i - 1][j] + u[i + 1][j]) / 4.0
                             else h[i][j]
    {
      SweepCell(u, h, sizex, cols, i, j);
    }
  }

  lemma SameCells(a: Grid, b: Grid, rows: nat, cols: nat)
    requires IsGrid(a, rows, cols) && IsGrid(b, rows, cols)
    requires forall i, j :: 0 <= i < rows && 0 <= j < cols ==> a[i][j] == b[i][j]
    ensures a == b
  {
    assert forall i :: 0 <= i < rows ==> a[i] == b[i];
  }

  /** The eight tasks in any order produce the one unblocked sweep. */
  lemma AnyOrderIsSweep(u: Grid, h: Grid, sizex: nat, cols: nat, order: seq<nat>)
    requires 2 <= sizex <= |u| && IsGrid(u, |u|, cols) && IsGrid(h, |u|, cols) && IsSchedule(order)
    ensures RunTasks(u, h, sizex - 2, cols, order) == Sweep(u, h, sizex, cols)
  {
    var a, b := RunTasks(u, h, sizex - 2, cols, order), Sweep(u, h, sizex, cols);
    hide RunTasks, Sweep, IsSchedule;
    forall i, j | 0 <= i < |u| && 0 <= j < cols ensures a[i][j] == b[i][j] {
      AnyOrderCell(u, h, sizex, cols, order, i, j);
    }
    SameCells(a, b, |u|, cols);
  }

  lemma AnyOrderCell(u: Grid, h: Grid, sizex: nat, cols: nat, order: seq<nat>, i: nat, j: nat)
    requires 2 <= sizex <= |u| && IsGrid(u, |u|, cols) && IsGrid(h, |u|, cols) && IsSchedule(order)
    requires i < |u| && j < cols
    ensures RunTasks(u, h, sizex - 2, cols, order)[i][j] == Sweep(u, h, sizex, cols)[i][j]
  {
    hide RunTasks, Sweep, Stencil, Reached, InBlock, IsSchedule;
    RunTasksCell(u, h, sizex - 2, cols, order, i, j);
    SweepCell(u, h, sizex, cols, i, j);
    BlocksTile(cols, j);
    ScheduleReaches(cols, order, j);
  }

  lemma ScheduleNamesAll(order: seq<nat>, jj: nat)
    requires IsSchedule(order)
    ensures jj in order <==> jj < NB
  {
    hide AllTasks;
    TasksAreAll(jj);
    assert jj in order <==> jj in multiset(order);
    assert jj in AllTasks() <==> jj in multiset(AllTasks());
  }

  lemma TasksAreAll(jj: nat)
    ensures jj in AllTasks() <==> jj < NB
  {
    assert forall t :: 0 <= t < NB ==> AllTasks()[t] == t;
  }

  lemma ScheduleReaches(cols: nat, order: seq<nat>, j: nat)
    requires IsSchedule(order)
    ensures Reached(cols, order, j) <==> exists jj: nat :: jj < NB && InBlock(cols, jj, j)
  {
    hide InBlock, IsSchedule;
    if jj: nat :| jj < NB && InBlock(cols, jj, j) { ScheduleNamesAll(order, jj); }
    if t :| 0 <= t < |order| && InBlock(cols, order[t], j) { ScheduleNamesAll(order, order[t]); }
  }

  /** Finer still: cells written one by one in any order, with any repetition, as interleaved tasks do. */
  function WriteCells(u: Grid, h: Grid, cells: seq<(nat, nat)>, cols: nat): (g: Grid)
    requires IsGrid(u, |u|, cols) && IsGrid(h, |u|, cols)
    requires forall c :: c in cells ==> 1 <= c.0 <= |u| - 2 && 1 <= c.1 <= cols - 2
    ensures IsGrid(g, |u|, cols)
  {
    if cells == [] then h
    else
      var g, (i, j) := WriteCells(u, h, cells[..|cells| - 1], cols), cells[|cells| - 1];
      g[i := g[i][j := Stencil(u[i - 1], u[i], u[i + 1], j)]]
  }

  lemma {:induction false} WrittenCell(u: Grid, h: Grid, cells: seq<(nat, nat)>, cols: nat, i: nat, j: nat)
    requires IsGrid(u, |u|, cols) && IsGrid(h, |u|, cols) && i < |u| && j < cols
    requires forall c :: c in cells ==> 1 <= c.0 <= |u| - 2 && 1 <= c.1 <= cols - 2
    ensures (i, j) in cells ==> WriteCells(u, h, cells, cols)[i][j] == Stencil(u[i - 1], u[i], u[i + 1], j)
    ensures (i, j) !in cells ==> WriteCells(u, h, cells, cols)[i][j] == h[i][j]
  {
    if cells != [] {
      var front := cells[..|cells| - 1];
      assert cells == front + [cells[|cells| - 1]];
      WrittenCell(u, h, front, cols, i, j);
    }
  }

  /** However the tasks interleave, once every covered cell and no other has been written the grid is the sweep. */
  lemma AnyInterleavingIsSweep(u: Grid, h: Grid, sizex: nat, cols: nat, cells: seq<(nat, nat)>)
    requires 2 <= sizex <= |u| && IsGrid(u, |u|, cols) && IsGrid(h, |u|, cols)
    requires forall i: nat, j: nat :: (i, j) in cells <==> 1 <= i <= sizex - 2 && 1 <= j <= LastColumn(cols)
    ensures (forall c :: c in cells ==> 1 <= c.0 <= |u| - 2 && 1 <= c.1 <= cols - 2)
            && WriteCells(u, h, cells, cols) == Sweep(u, h, sizex, cols)
  {
    forall c | c in cells ensures 1 <= c.0 <= |u| - 2 && 1 <= c.1 <= cols - 2 {
      assert (c.0, c.1) in cells;
    }
    var a, b := WriteCells(u, h, cells, cols), Sweep(u, h, sizex, cols);
    forall i, j | 0 <= i < |u| && 0 <= j < cols ensures a[i][j] == b[i][j] {
      WrittenCell(u, h, cells, cols, i, j);
      SweepCell(u, h, sizex, cols, i, j);
    }
    SameCells(a, b, |u|, cols);
  }

  /** The cells that the column loop of a task writes in row `i`. */
  function RowWrites(i: nat, lo: nat, hi: int): seq<(nat, nat)>
    decreases hi - lo + 1
  {
    if hi < lo then [] else RowWrites(i, lo, hi - 1) + [(i, hi)]
  }

  /** The cells that task `jj` writes, in the order of its two loops. */
  function TaskWrites(rows: int, cols: nat, jj: nat): seq<(nat, nat)> {
    if rows <= 0 then []
    else TaskWrites(rows - 1, cols, jj) + RowWrites(rows, BlockLow(cols, jj), BlockHigh(cols, jj))
  }

  lemma {:induction false} RowWritesCells(i: nat, lo: nat, hi: int, c: (nat, nat))
    ensures c in RowWrites(i, lo, hi) <==> c.0 == i && lo <= c.1 <= hi
    decreases hi - lo + 1
  {
    if lo <= hi { RowWritesCells(i, lo, hi - 1, c); }
  }

  lemma {:induction false} TaskWritesCells(rows: int, cols: nat, jj: nat, c: (nat, nat))
    ensures c in TaskWrites(rows, cols, jj) <==> 1 <= c.0 <= rows && InBlock(cols, jj, c.1)
  {
    hide RowWrites, BlockLow, BlockHigh;
    if rows > 0 {
      TaskWritesCells(rows - 1, cols, jj, c);
      RowWritesCells(rows, BlockLow(cols, jj), BlockHigh(cols, jj), c);
    }
  }

  /** The cells written by task `jj`, when `owners` tells who wrote each. */
  function WrittenBy(cells: seq<(nat, nat)>, owners: seq<nat>, jj: nat): seq<(nat, nat)>
    requires |cells| == |owners|
  {
    if cells == [] then []
    else
      var last := |cells| - 1;
      WrittenBy(cells[..last], owners[..last], jj) + if owners[last] == jj then [cells[last]] else []
  }

  lemma {:induction false} WrittenByCells(cells: seq<(nat, nat)>, owners: seq<nat>, jj: nat, c: (nat, nat))
    requires |cells| == |owners|
    ensures c in WrittenBy(cells, owners, jj) <==> exists t :: 0 <= t < |cells| && cells[t] == c && owners[t] == jj
  {
    if cells != [] {
      var last := |cells| - 1;
      var front, frontOwners := cells[..last], owners[..last];
      WrittenByCells(front, frontOwners, jj, c);
      assert forall t :: 0 <= t < last ==> front[t] == cells[t] && frontOwners[t] == owners[t];
    }
  }

  /** The eight tasks' writes, each task's in its own order, interleaved in any way. */
  predicate IsMerge(cells: seq<(nat, nat)>, owners: seq<nat>, rows: int, cols: nat) {
    && |cells| == |owners|
    && (forall t :: 0 <= t < |owners| ==> owners[t] < NB)
    && (forall jj: nat :: jj < NB ==> WrittenBy(cells, owners, jj) == TaskWrites(rows, cols, jj))
  }

  lemma {:induction false} WrittenByAppends(cells: seq<(nat, nat)>, owners: seq<nat>, more: seq<(nat, nat)>,
                                            owner: nat, jj: nat)
    requires |cells| == |owners|
    ensures WrittenBy(cells + more, owners + seq(|more|, _ => owner), jj)
         == WrittenBy(cells, owners, jj) + if owner == jj then more else []
  {
    if more == [] {
      assert cells + more == cells && owners + seq(0, _ => owner) == owners;
    } else {
      var k := |more| - 1;
      WrittenByAppends(cells, owners, more[..k], owner, jj);
      var all, who := cells + more, owners + seq(|more|, _ => owner);
      assert all[..|all| - 1] == cells + more[..k];
      assert who[..|who| - 1] == owners + seq(k, _ => owner);
      assert more == more[..k] + [more[k]];
    }
  }

  /** The first `m` tasks run one after the other are such an interleaving of these. */
  lemma {:induction false} TasksInTurn(rows: int, cols: nat, m: nat) returns (cells: seq<(nat, nat)>, owners: seq<nat>)
    requires m <= NB
    ensures |cells| == |owners| && forall t :: 0 <= t < |owners| ==> owners[t] < NB
    ensures forall jj: nat ::
              WrittenBy(cells, owners, jj) == if jj < m then TaskWrites(rows, cols, jj) else []
    ensures m == NB ==> IsMerge(cells, owners, rows, cols)
  {
    hide WrittenBy, TaskWrites;
    if m == 0 {
      cells, owners := [], [];
      NothingWritten();
    } else {
      var before, who := TasksInTurn(rows, cols, m - 1);
      var more := TaskWrites(rows, cols, m - 1);
      cells, owners := before + more, who + seq(|more|, _ => m - 1);
      forall jj: nat
        ensures WrittenBy(cells, owners, jj) == if jj < m then TaskWrites(rows, cols, jj) else []
      {
        WrittenByAppends(before, who, more, m - 1, jj);
      }
    }
  }

  lemma NothingWritten()
    ensures forall jj: nat :: WrittenBy([], [], jj) == []
  {}

  lemma MergeCovers(cells: seq<(nat, nat)>, owners: seq<nat>, rows: int, cols: nat, c: (nat, nat))
    requires IsMerge(cells, owners, rows, cols)
    ensures c in cells <==> 1 <= c.0 <= rows && 1 <= c.1 <= LastColumn(cols)
  {
    hide WrittenBy, TaskWrites, InBlock, LastColumn;
    BlocksTile(cols, c.1);
    if t :| 0 <= t < |cells| && cells[t] == c {
      WrittenByCells(cells, owners, owners[t], c);
      TaskWritesCells(rows, cols, owners[t], c);
    }
    if 1 <= c.0 <= rows && 1 <= c.1 <= LastColumn(cols) {
      var jj: nat :| jj < NB && InBlock(cols, jj, c.1);
      TaskWritesCells(rows, cols, jj, c);
      WrittenByCells(cells, owners, jj, c);
    }
  }

  /** A sweep reaches every interior cell if and only if the row length modulo 8 is at most 2, or there are no interior
      rows. */
  lemma InteriorIsSweptExactly(cells: seq<(nat, nat)>, owners: seq<nat>, rows: int, cols: nat)
    requires IsMerge(cells, owners, rows, cols) && cols >= 2
    ensures (forall i: nat, j: nat :: 1 <= i <= rows && 1 <= j <= cols - 2 ==> (i, j) in cells)
            <==> cols % NB <= 2 || rows <= 0
  {
    hide IsMerge;
    FullCoverage(cols);
    LastColumnRange(cols);
    if cols % NB <= 2 || rows <= 0 {
      forall i: nat, j: nat | 1 <= i <= rows && 1 <= j <= cols - 2 ensures (i, j) in cells {
        MergeCovers(cells, owners, rows, cols, (i, j));
      }
    } else {
      MergeCovers(cells, owners, rows, cols, (1, cols - 2));
    }
  }

  /** The eight tasks, interleaved write by write in any way, leave the one unblocked sweep. */
  lemma AnyMergeIsSweep(u: Grid, h: Grid, sizex: nat, cols: nat, cells: seq<(nat, nat)>, owners: seq<nat>)
    requires 2 <= sizex <= |u| && IsGrid(u, |u|, cols) && IsGrid(h, |u|, cols)
    requires IsMerge(cells, owners, sizex - 2, cols)
    ensures (forall c :: c in cells ==> 1 <= c.0 <= |u| - 2 && 1 <= c.1 <= cols - 2)
            && WriteCells(u, h, cells, cols) == Sweep(u, h, sizex, cols)
  {
    hide IsMerge, Sweep;
    forall i: nat, j: nat ensures (i, j) in cells <==> 1 <= i <= sizex - 2 && 1 <= j <= LastColumn(cols) {
      MergeCovers(cells, owners, sizex - 2, cols, (i, j));
    }
    AnyInterleavingIsSweep(u, h, sizex, cols, cells);
  }

  // ---------- the residual over the tasks ----------

  /** The partial sums of the tasks, added up in the order given. */
  function TasksChange(u: Grid, rows: int, cols: nat, order: seq<nat>): real
    requires rows <= |u| - 2 && IsGrid(u, |u|, cols)
  {
    if order == [] then 0.0
    else TasksChange(u, rows, cols, order[..|order| - 1]) + TaskChange(u, rows, cols, order[|order| - 1])
  }

  lemma {:induction false} TasksChangeRemove(u: Grid, rows: int, cols: nat, s: seq<nat>, t: nat)
    requires rows <= |u| - 2 && IsGrid(u, |u|, cols) && t < |s|
    ensures TasksChange(u, rows, cols, s)
         == TasksChange(u, rows, cols, s[..t] + s[t + 1..]) + TaskChange(u, rows, cols, s[t])
  {
    hide TaskChange, IsGrid;
    var rest := s[..t] + s[t + 1..];
    if t == |s| - 1 {
      assert rest == s[..|s| - 1];
    } else {
      var front := s[..|s| - 1];
      TasksChangeRemove(u, rows, cols, front, t);
      assert rest[..|rest| - 1] == front[..t] + front[t + 1..];
    }
  }

  lemma SamePermutationWithout(s: seq<nat>, p: seq<nat>, t: nat)
    requires s != [] && multiset(s) == multiset(p) && t < |p| && p[t] == s[|s| - 1]
    ensures multiset(s[..|s| - 1]) == multiset(p[..t] + p[t + 1..])
  {
    var front, x, lo, hi := s[..|s| - 1], p[t], p[..t], p[t + 1..];
    assert s == front + [x];
    assert p == lo + [x] + hi;
    assert multiset(s) == multiset(front) + multiset([x]);
    assert multiset(p) == multiset(lo) + multiset([x]) + multiset(hi);
    assert multiset(lo + hi) == multiset(lo) + multiset(hi);
    assert multiset(front) == multiset(s) - multiset([x]);
    assert multiset(lo + hi) == multiset(p) - multiset([x]);
  }

  lemma {:induction false} TasksChangePermutes(u: Grid, rows: int, cols: nat, s: seq<nat>, p: seq<nat>)
    requires rows <= |u| - 2 && IsGrid(u, |u|, cols) && multiset(s) == multiset(p)
    ensures TasksChange(u, rows, cols, s) == TasksChange(u, rows, cols, p)
    decreases |s|
  {
    hide TaskChange, IsGrid;
    if s == [] {
      assert |multiset(p)| == 0;
    } else {
      var front, last := s[..|s| - 1], s[|s| - 1];
      assert last in multiset(s);
      var t :| 0 <= t < |p| && p[t] == last;
      var rest := p[..t] + p[t + 1..];
      SamePermutationWithout(s, p, t);
      TasksChangePermutes(u, rows, cols, front, rest);
      TasksChangeRemove(u, rows, cols, p, t);
    }
  }

  lemma {:induction false} RangeChangeSplits(above: Row, mid: Row, below: Row, lo: int, m: int, hi: int)
    requires |above| == |mid| == |below| && 1 <= lo && hi <= |mid| - 2 && lo - 1 <= m <= hi
    ensures RangeChange(above, mid, below, lo, hi)
         == RangeChange(above, mid, below, lo, m) + RangeChange(above, mid, below, m + 1, hi)
    decreases hi - lo + 1
  {
    if m < hi { RangeChangeSplits(above, mid, below, lo, m, hi - 1); }
  }

  /** The columns the first `m` blocks reach. */
  function Reach(cols: nat, m: nat): int {
    if m * (cols / NB) < cols - 2 then m * (cols / NB) else cols - 2
  }

  /** Adding block `m` extends the range of columns already summed. */
  lemma BlockExtends(above: Row, mid: Row, below: Row, m: nat)
    requires |above| == |mid| == |below| && |mid| >= 2
    ensures RangeChange(above, mid, below, 1, Reach(|mid|, m + 1))
         == RangeChange(above, mid, below, 1, Reach(|mid|, m))
            + RangeChange(above, mid, below, BlockLow(|mid|, m), BlockHigh(|mid|, m))
  {
    var width := |mid| / NB;
    assert (m + 1) * width == m * width + width;
    if m * width <= |mid| - 2 { RangeChangeSplits(above, mid, below, 1, m * width, Reach(|mid|, m + 1)); }
  }

  /** The squared changes of the first `m` blocks of rows 1 to `rows`. */
  function BlocksChange(u: Grid, rows: int, cols: nat, m: nat): real
    requires rows <= |u| - 2 && IsGrid(u, |u|, cols) && cols >= 2
  {
    if rows <= 0 then 0.0
    else BlocksChange(u, rows - 1, cols, m) + RangeChange(u[rows - 1], u[rows], u[rows + 1], 1, Reach(cols, m))
  }

  lemma {:induction false} BlocksChangeExtends(u: Grid, rows: int, cols: nat, m: nat)
    requires rows <= |u| - 2 && IsGrid(u, |u|, cols) && cols >= 2
    ensures BlocksChange(u, rows, cols, m + 1) == BlocksChange(u, rows, cols, m) + TaskChange(u, rows, cols, m)
  {
    if rows > 0 {
      BlocksChangeExtends(u, rows - 1, cols, m);
      BlockExtends(u[rows - 1], u[rows], u[rows + 1], m);
    }
  }

  lemma {:induction false} BlocksChangeEnds(u: Grid, rows: int, cols: nat)
    requires rows <= |u| - 2 && IsGrid(u, |u|, cols) && cols >= 2
    ensures BlocksChange(u, rows, cols, 0) == 0.0
    ensures rows >= 0 ==> BlocksChange(u, rows, cols, NB) == ChangeSum(u, 1, rows + 1, cols)
  {
    if rows > 0 { BlocksChangeEnds(u, rows - 1, cols); }
  }

  lemma {:induction false} FirstTasksChange(u: Grid, rows: int, cols: nat, m: nat)
    requires rows <= |u| - 2 && IsGrid(u, |u|, cols) && cols >= 2 && m <= NB
    ensures TasksChange(u, rows, cols, AllTasks()[..m]) == BlocksChange(u, rows, cols, m)
  {
    hide TaskChange, BlocksChange, IsGrid;
    if m == 0 {
      BlocksChangeEnds(u, rows, cols);
    } else {
      FirstTasksChange(u, rows, cols, m - 1);
      BlocksChangeExtends(u, rows, cols, m - 1);
      assert AllTasks()[..m][..m - 1] == AllTasks()[..m - 1] && AllTasks()[m - 1] == m - 1;
    }
  }

  /** The partial sums of the eight tasks, added in any order, are the residual of the sweep. */
  lemma AnyOrderSameResidual(u: Grid, sizex: nat, cols: nat, order: seq<nat>)
    requires 2 <= sizex <= |u| && IsGrid(u, |u|, cols) && cols >= 2 && IsSchedule(order)
    ensures TasksChange(u, sizex - 2, cols, order) == ChangeSum(u, 1, sizex - 1, cols)
  {
    hide TasksChange, TaskChange, BlocksChange, ChangeSum;
    TasksChangePermutes(u, sizex - 2, cols, order, AllTasks());
    FirstTasksChange(u, sizex - 2, cols, NB);
    BlocksChangeEnds(u, sizex - 2, cols);
    assert AllTasks()[..NB] == AllTasks();
  }
}
