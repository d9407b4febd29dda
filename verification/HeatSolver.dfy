/** The array code of the heat examples: the blocked sweep of relax_jacobi over flat arrays, the copy back, and
    the sequential main loop of example/LINUX/OMPSS/heat-ompss.c. */
module HeatSolver {
  import opened HeatGrid
  import opened HeatProtocol
  import opened HeatSequential

  lemma CellInside(i: nat, j: nat, rows: nat, cols: nat)
    requires i < rows && j < cols
    ensures 0 <= i * cols + j < rows * cols && i * cols + cols <= rows * cols
  {
    assert (i + 1) * cols <= rows * cols;
  }

  lemma RowsApart(i: nat, i2: nat, cols: nat)
    requires i < i2
    ensures i * cols + cols <= i2 * cols
  {
    assert (i + 1) * cols <= i2 * cols;
  }

  lemma CellDistinct(i: nat, j: nat, i2: nat, j2: nat, cols: nat)
    requires j < cols && j2 < cols && i * cols + j == i2 * cols + j2
    ensures i == i2 && j == j2
  {
    if i < i2 { RowsApart(i, i2, cols); }
    if i2 < i { RowsApart(i2, i, cols); }
  }

  function CellOf(a: seq<real>, i: nat, j: nat, rows: nat, cols: nat): real
    requires |a| == rows * cols && i < rows && j < cols
  {
    CellInside(i, j, rows, cols);
    a[i * cols + j]
  }

  /** A flat array read as a grid: cell (i, j) at index i*cols + j. */
  function ToGrid(a: seq<real>, rows: nat, cols: nat): (g: Grid)
    requires |a| == rows * cols
    ensures IsGrid(g, rows, cols)
    ensures forall i, j :: 0 <= i < rows && 0 <= j < cols ==> g[i][j] == CellOf(a, i, j, rows, cols)
  {
    seq(rows, i requires 0 <= i < rows => seq(cols, j requires 0 <= j < cols => CellOf(a, i, j, rows, cols)))
  }

  function SetCell(g: Grid, i: nat, j: nat, v: real): Grid
    requires i < |g| && j < |g[i]|
  {
    g[i := g[i][j := v]]
  }

  lemma WriteIsSetCell(a: seq<real>, rows: nat, cols: nat, i: nat, j: nat, v: real)
    requires |a| == rows * cols && i < rows && j < cols
    ensures 0 <= i * cols + j < |a|
    ensures ToGrid(a[i * cols + j := v], rows, cols) == SetCell(ToGrid(a, rows, cols), i, j, v)
  {
    CellInside(i, j, rows, cols);
    var b := a[i * cols + j := v];
    var x, y := ToGrid(b, rows, cols), SetCell(ToGrid(a, rows, cols), i, j, v);
    forall p, q | 0 <= p < rows && 0 <= q < cols ensures x[p][q] == y[p][q] {
      CellInside(p, q, rows, cols);
      if p * cols + q == i * cols + j { CellDistinct(p, q, i, j, cols); }
    }
    SameCells(x, y, rows, cols);
  }

  /** The stencil as the C expression reads it, four cells of the flat array. */
  lemma StencilCells(a: seq<real>, rows: nat, cols: nat, i: nat, j: nat)
    requires |a| == rows * cols && 1 <= i <= rows - 2 && 1 <= j <= cols - 2
    ensures 0 <= i * cols + (j - 1) && i * cols + (j + 1) < |a| && 0 <= (i - 1) * cols + j && (i + 1) * cols + j < |a|
    ensures var g := ToGrid(a, rows, cols);
            && Stencil(g[i - 1], g[i], g[i + 1], j)
               == Average(a[i * cols + (j - 1)], a[i * cols + (j + 1)], a[(i - 1) * cols + j], a[(i + 1) * cols + j])
            && g[i][j] == a[i * cols + j]
  {
    CellInside(i, j - 1, rows, cols);
    CellInside(i, j + 1, rows, cols);
    CellInside(i - 1, j, rows, cols);
    CellInside(i + 1, j, rows, cols);
  }

  /** Rows 1 to `rows` of block `jj` done, and row `rows`+1 up to column `upTo`. */
  function Progress(u: Grid, h: Grid, rows: nat, cols: nat, jj: nat, upTo: int): (g: Grid)
    requires rows + 1 <= |u| - 2 && IsGrid(u, |u|, cols) && IsGrid(h, |u|, cols)
    requires upTo <= cols - 2
    ensures IsGrid(g, |u|, cols)
  {
    var done, i := TaskSweep(u, h, rows, cols, jj), rows + 1;
    done[i := PartialRow(u[i - 1], u[i], u[i + 1], h[i], BlockLow(cols, jj), upTo)]
  }

  lemma EmptyPart(above: Row, mid: Row, below: Row, prior: Row, lo: int, hi: int)
    requires |above| == |mid| == |below| == |prior| && 1 <= lo && hi <= |mid| - 2 && hi < lo
    ensures PartialRow(above, mid, below, prior, lo, hi) == prior
  {}

  lemma PartExtends(above: Row, mid: Row, below: Row, prior: Row, lo: int, hi: int)
    requires |above| == |mid| == |below| == |prior| && 1 <= lo <= hi + 1 <= |mid| - 2
    ensures PartialRow(above, mid, below, prior, lo, hi + 1)
         == PartialRow(above, mid, below, prior, lo, hi)[hi + 1 := Stencil(above, mid, below, hi + 1)]
  {}

  /** One more row of a task replaces exactly that row. */
  lemma TaskSweepExtends(u: Grid, h: Grid, rows: nat, cols: nat, jj: nat)
    requires rows + 1 <= |u| - 2 && IsGrid(u, |u|, cols) && IsGrid(h, |u|, cols)
    ensures TaskSweep(u, h, rows, cols, jj)[rows + 1] == h[rows + 1]
    ensures TaskSweep(u, h, rows + 1, cols, jj)
         == TaskSweep(u, h, rows, cols, jj)[rows + 1 :=
              PartialRow(u[rows], u[rows + 1], u[rows + 2], h[rows + 1], BlockLow(cols, jj), BlockHigh(cols, jj))]
  {
    hide PartialRow;
  }

  lemma ProgressStarts(u: Grid, h: Grid, rows: nat, cols: nat, jj: nat)
    requires rows + 1 <= |u| - 2 && IsGrid(u, |u|, cols) && IsGrid(h, |u|, cols)
    requires BlockLow(cols, jj) - 1 <= cols - 2
    ensures Progress(u, h, rows, cols, jj, BlockLow(cols, jj) - 1) == TaskSweep(u, h, rows, cols, jj)
  {
    hide PartialRow, TaskSweep;
    TaskSweepExtends(u, h, rows, cols, jj);
    EmptyPart(u[rows], u[rows + 1], u[rows + 2], h[rows + 1], BlockLow(cols, jj), BlockLow(cols, jj) - 1);
  }

  lemma ProgressEnds(u: Grid, h: Grid, rows: nat, cols: nat, jj: nat, upTo: int)
    requires rows + 1 <= |u| - 2 && IsGrid(u, |u|, cols) && IsGrid(h, |u|, cols)
    requires upTo == BlockHigh(cols, jj)
    ensures Progress(u, h, rows, cols, jj, upTo) == TaskSweep(u, h, rows + 1, cols, jj)
  {
    hide PartialRow, TaskSweep, BlockLow, BlockHigh;
    TaskSweepExtends(u, h, rows, cols, jj);
  }

  lemma ProgressSteps(u: Grid, h: Grid, rows: nat, cols: nat, jj: nat, upTo: int)
    requires rows + 1 <= |u| - 2 && IsGrid(u, |u|, cols) && IsGrid(h, |u|, cols)
    requires BlockLow(cols, jj) - 1 <= upTo < BlockHigh(cols, jj)
    ensures var i := rows + 1;
            Progress(u, h, rows, cols, jj, upTo + 1)
            == SetCell(Progress(u, h, rows, cols, jj, upTo), i, upTo + 1, Stencil(u[i - 1], u[i], u[i + 1], upTo + 1))
  {
    hide PartialRow, TaskSweep, Stencil;
    PartExtends(u[rows], u[rows + 1], u[rows + 2], h[rows + 1], BlockLow(cols, jj), upTo);
  }

  /** The body of one `nested_comp` task: column block `jj` of rows 1 to `sizex`-2.  The array holds `height` rows,
      of which relax_jacobi is given the first `sizex`. */
  method RelaxTask(u: array<real>, utmp: array<real>, ghost height: nat, sizex: nat, sizey: nat, jj: nat)
    returns (localSum: real)
    requires u != utmp && 2 <= sizex <= height && 2 <= sizey && u.Length == utmp.Length == height * sizey
    modifies utmp
    ensures ToGrid(utmp[..], height, sizey)
         == TaskSweep(ToGrid(u[..], height, sizey), ToGrid(old(utmp[..]), height, sizey), sizex - 2, sizey, jj)
    ensures localSum == TaskChange(ToGrid(u[..], height, sizey), sizex - 2, sizey, jj)
  {
    hide ToGrid, TaskSweep, Progress, PartialRow, Stencil, Average, SquaredChange, SetCell;
    ghost var g, h := ToGrid(u[..], height, sizey), ToGrid(utmp[..], height, sizey);
    localSum := 0.0;
    NoRows(g, h, sizey, jj);
    var i := 1;
    while i <= sizex - 2
      invariant 1 <= i <= sizex - 1
      invariant ToGrid(utmp[..], height, sizey) == TaskSweep(g, h, i - 1, sizey, jj)
      invariant localSum == TaskChange(g, i - 1, sizey, jj)
    {
      var change := RelaxRow(u, utmp, height, sizey, jj, i, h);
      localSum := localSum + change;
      i := i + 1;
    }
  }

  lemma NoRows(u: Grid, h: Grid, cols: nat, jj: nat)
    requires |u| >= 2 && IsGrid(u, |u|, cols) && IsGrid(h, |u|, cols)
    ensures TaskSweep(u, h, 0, cols, jj) == h
  {}

  /** The column loop of a task in row `i`. */
  method RelaxRow(u: array<real>, utmp: array<real>, ghost height: nat, sizey: nat, jj: nat, i: nat, ghost h: Grid)
    returns (localSum: real)
    requires u != utmp && 1 <= i <= height - 2 && 2 <= sizey && u.Length == utmp.Length == height * sizey
    requires IsGrid(h, height, sizey)
    requires ToGrid(utmp[..], height, sizey) == TaskSweep(ToGrid(u[..], height, sizey), h, i - 1, sizey, jj)
    modifies utmp
    ensures ToGrid(utmp[..], height, sizey) == TaskSweep(ToGrid(u[..], height, sizey), h, i, sizey, jj)
    ensures var g := ToGrid(u[..], height, sizey);
            localSum == RangeChange(g[i - 1], g[i], g[i + 1], BlockLow(sizey, jj), BlockHigh(sizey, jj))
  {
    hide ToGrid, TaskSweep, Progress, PartialRow, Stencil, Average, SquaredChange, SetCell;
    ghost var g := ToGrid(u[..], height, sizey);
    var width := sizey / NB;
    var j := 1 + jj * width;
    var high := if (jj + 1) * width < sizey - 2 then (jj + 1) * width else sizey - 2;
    localSum := 0.0;
    if j <= high {
      ProgressStarts(g, h, i - 1, sizey, jj);
    } else {
      EmptyBlock(g, h, i - 1, sizey, jj);
    }
    while j <= high
      invariant BlockLow(sizey, jj) <= j
      invariant j > high + 1 ==> BlockLow(sizey, jj) > high
      invariant BlockLow(sizey, jj) <= high ==>
                  j <= high + 1 && ToGrid(utmp[..], height, sizey) == Progress(g, h, i - 1, sizey, jj, j - 1)
      invariant BlockLow(sizey, jj) > high ==> ToGrid(utmp[..], height, sizey) == TaskSweep(g, h, i, sizey, jj)
      invariant localSum
             == RangeChange(g[i - 1], g[i], g[i + 1], BlockLow(sizey, jj), if j <= high then j - 1 else high)
      decreases high - j
    {
      StencilCells(u[..], height, sizey, i, j);
      var after := Average(u[i * sizey + (j - 1)], u[i * sizey + (j + 1)],
                           u[(i - 1) * sizey + j], u[(i + 1) * sizey + j]);
      WriteIsSetCell(utmp[..], height, sizey, i, j, after);
      ProgressSteps(g, h, i - 1, sizey, jj, j - 1);
      ghost var before := utmp[..];
      utmp[i * sizey + j] := after;
      assert utmp[..] == before[i * sizey + j := after];
      localSum := localSum + SquaredChange(utmp[i * sizey + j], u[i * sizey + j]);
      j := j + 1;
    }
    if BlockLow(sizey, jj) <= high { ProgressEnds(g, h, i - 1, sizey, jj, high); }
  }

  lemma EmptyBlock(u: Grid, h: Grid, rows: nat, cols: nat, jj: nat)
    requires rows + 1 <= |u| - 2 && IsGrid(u, |u|, cols) && IsGrid(h, |u|, cols)
    requires BlockLow(cols, jj) > BlockHigh(cols, jj)
    ensures TaskSweep(u, h, rows + 1, cols, jj) == TaskSweep(u, h, rows, cols, jj)
  {
    hide PartialRow, TaskSweep;
    TaskSweepExtends(u, h, rows, cols, jj);
    EmptyPart(u[rows], u[rows + 1], u[rows + 2], h[rows + 1], BlockLow(cols, jj), BlockHigh(cols, jj));
  }

  /** relax_jacobi, with its eight tasks taken in whatever order the runtime picks: always the same sweep and,
      their partial sums added up, the same residual. */
  method RelaxJacobi(u: array<real>, utmp: array<real>, ghost height: nat, sizex: nat, sizey: nat, order: seq<nat>)
    returns (sum: real)
    requires u != utmp && 2 <= sizex <= height && 2 <= sizey && u.Length == utmp.Length == height * sizey
    requires IsSchedule(order)
    modifies utmp
    ensures ToGrid(utmp[..], height, sizey)
         == Sweep(ToGrid(u[..], height, sizey), ToGrid(old(utmp[..]), height, sizey), sizex, sizey)
    ensures sum == ChangeSum(ToGrid(u[..], height, sizey), 1, sizex - 1, sizey)
    ensures var g, before := ToGrid(u[..], height, sizey), ToGrid(old(utmp[..]), height, sizey);
            var after := ToGrid(utmp[..], height, sizey);
            && Averaged(g, before, after, sizex, sizey)
            && (before == g ==> sum == SquaredDistance(after, g, height))
  {
    hide ToGrid, TaskSweep, TaskChange, Sweep, ChangeSum, IsSchedule, Averaged, SquaredDistance;
    ghost var g, h := ToGrid(u[..], height, sizey), ToGrid(utmp[..], height, sizey);
    sum := 0.0;
    for t := 0 to |order|
      invariant ToGrid(utmp[..], height, sizey) == RunTasks(g, h, sizex - 2, sizey, order[..t])
      invariant sum == TasksChange(g, sizex - 2, sizey, order[..t])
    {
      assert order[..t + 1][..t] == order[..t];
      var localSum := RelaxTask(u, utmp, height, sizex, sizey, order[t]);
      sum := sum + localSum;
    }
    assert order[..|order|] == order;
    AnyOrderIsSweep(g, h, sizex, sizey, order);
    AnyOrderSameResidual(g, sizex, sizey, order);
    SweepAverages(g, h, sizex, sizey);
    SweepDistance(g, sizex, sizey, height);
  }

  /** The copy loop: the first `rows` rows of `uhelp` replace those of `u`. */
  method CopyRows(uhelp: array<real>, u: array<real>, ghost height: nat, rows: nat, np: nat)
    requires u != uhelp && rows <= height && u.Length == uhelp.Length == height * np
    modifies u
    ensures ToGrid(u[..], height, np)
         == ToGrid(uhelp[..], height, np)[..rows] + ToGrid(old(u[..]), height, np)[rows..]
  {
    ghost var before := u[..];
    var i := 0;
    while i < rows
      invariant 0 <= i <= rows && 0 <= i * np
      invariant forall k :: 0 <= k < u.Length ==> u[k] == if k < i * np then uhelp[k] else before[k]
    {
      var j := 0;
      while j < np
        invariant 0 <= j <= np
        invariant forall k :: 0 <= k < u.Length ==> u[k] == if k < i * np + j then uhelp[k] else before[k]
      {
        CellInside(i, j, height, np);
        u[i * np + j] := uhelp[i * np + j];
        j := j + 1;
      }
      assert (i + 1) * np == i * np + np;
      i := i + 1;
    }
    CopiedPrefix(u[..], uhelp[..], before, height, rows, np);
  }

  lemma CopiedPrefix(a: seq<real>, b: seq<real>, before: seq<real>, height: nat, rows: nat, np: nat)
    requires |a| == |b| == |before| == height * np && rows <= height
    requires forall k :: 0 <= k < |a| ==> a[k] == if k < rows * np then b[k] else before[k]
    ensures ToGrid(a, height, np) == ToGrid(b, height, np)[..rows] + ToGrid(before, height, np)[rows..]
  {
    var x, y := ToGrid(a, height, np), ToGrid(b, height, np)[..rows] + ToGrid(before, height, np)[rows..];
    forall i, j | 0 <= i < height && 0 <= j < np ensures x[i][j] == y[i][j] {
      CellInside(i, j, height, np);
      if i < rows { CellInside(i, j, rows, np); } else { RowsFrom(rows, i, np); }
    }
    SameCells(x, y, height, np);
  }

  lemma RowsFrom(rows: nat, i: nat, np: nat)
    requires rows <= i
    ensures rows * np <= i * np
  {}

  /** The compute task of rank `r` on its arrays does what the protocol's Relax step says. */
  method RelaxRank(c: Config, ghost x: Rank, r: nat, u: array<real>, uhelp: array<real>, order: seq<nat>)
    returns (residual: real)
    requires r < c.procs && u != uhelp && u.Length == uhelp.Length == Height(c, r) * (c.n + 2) && IsSchedule(order)
    requires x.u == ToGrid(u[..], Height(c, r), c.n + 2) && x.uhelp == ToGrid(uhelp[..], Height(c, r), c.n + 2)
    modifies uhelp
    ensures ToGrid(uhelp[..], Height(c, r), c.n + 2) == Relaxed(c, x, r).uhelp
    ensures residual == Relaxed(c, x, r).residual
  {
    hide ToGrid, Sweep, ChangeSum, IsSchedule, Height;
    residual := RelaxJacobi(u, uhelp, Height(c, r), Rows(c, r) + 2, c.n + 2, order);
  }

  /** The copy task of rank `r` on its arrays does what the protocol's Copy step says. */
  method CopyRank(c: Config, ghost x: Rank, r: nat, u: array<real>, uhelp: array<real>)
    requires r < c.procs && u != uhelp && u.Length == uhelp.Length == Height(c, r) * (c.n + 2)
    requires x.u == ToGrid(u[..], Height(c, r), c.n + 2) && x.uhelp == ToGrid(uhelp[..], Height(c, r), c.n + 2)
    modifies u
    ensures ToGrid(u[..], Height(c, r), c.n + 2) == Copied(c, x, r).u
  {
    hide ToGrid, Height;
    CopyRows(uhelp, u, Height(c, r), Rows(c, r) + 2, c.n + 2);
  }

  /** The main loop of the sequential program; `schedule` is the task order the runtime picks in each iteration. */
  method SolveSequential(c: Config, u: array<real>, uhelp: array<real>, schedule: nat -> seq<nat>)
    returns (iter: nat, residual: real)
    requires u != uhelp && u.Length == uhelp.Length == (c.n + 2) * (c.n + 2)
    requires ToGrid(u[..], c.n + 2, c.n + 2) == ToGrid(uhelp[..], c.n + 2, c.n + 2) == c.start
    requires forall k :: IsSchedule(schedule(k))
    modifies u, uhelp
    ensures FirstStop(c, iter)
    ensures iter >= 1 && iter % 10 == 0 && (residual < 0.00005 || (c.maxiter > 0 && iter >= c.maxiter))
    ensures forall k: nat :: 1 <= k < iter && k % 10 == 0 ==>
              Residual(c, k) >= 0.00005 && (c.maxiter == 0 || k < c.maxiter)
    ensures ToGrid(u[..], c.n + 2, c.n + 2) == Global(c, iter)
    ensures residual == Residual(c, iter)
  {
    hide ToGrid, Sweep, ChangeSum, IsSchedule;
    var np := c.n + 2;
    iter, residual := 0, 0.0;
    while true
      invariant ToGrid(u[..], np, np) == ToGrid(uhelp[..], np, np) == Global(c, iter)
      invariant iter < Iterations(c) && forall j: nat :: j <= iter ==> !Stops(c, j)
      decreases Iterations(c) - iter
    {
      residual := RelaxJacobi(u, uhelp, np, np, np, schedule(iter));
      CopyRows(uhelp, u, np, np, np);
      ghost var g := ToGrid(uhelp[..], np, np);
      assert g[..np] == g;
      iter := iter + 1;
      if iter % 10 == 0 && (residual < 0.00005 || (c.maxiter > 0 && iter >= c.maxiter)) {
        IterationsExactly(c, iter);
        return;
      }
    }
  }
}
