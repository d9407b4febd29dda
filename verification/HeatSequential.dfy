/** The sequential Jacobi solver of example/LINUX/OMPSS/heat-ompss.c, as the grids it runs through and its stopping
    test, and a proof that on any grid of real numbers the test succeeds at last. */
module HeatSequential {
  import opened HeatGrid

  /** `n` inner points each way, `procs` ranks, and the grid that `u` and `uhelp` both start from. */
  datatype RawConfig = Config(n: nat, procs: nat, maxiter: nat, start: Grid)

  type Config = c: RawConfig | c.procs >= 1 && IsGrid(c.start, c.n + 2, c.n + 2)
    witness Config(0, 1, 0, [[0.0, 0.0], [0.0, 0.0]])

  /** The grid after `k` sequential iterations. */
  function Global(c: Config, k: nat): (g: Grid)
    ensures IsGrid(g, c.n + 2, c.n + 2)
  {
    if k == 0 then c.start
    else var g := Global(c, k - 1); Sweep(g, g, c.n + 2, c.n + 2)
  }

  /** The residual of the `k`-th iteration. */
  function Residual(c: Config, k: nat): real
    requires k >= 1
  {
    ChangeSum(Global(c, k - 1), 1, c.n + 1, c.n + 2)
  }

  /** The termination test, made every tenth iteration. */
  predicate Enough(c: Config, k: nat, residual: real) {
    k % 10 == 0 && (residual < 0.00005 || (c.maxiter > 0 && k >= c.maxiter))
  }

  predicate Stops(c: Config, k: nat) {
    k >= 1 && Enough(c, k, Residual(c, k))
  }

  /** The sequential loop runs for exactly `k` iterations. */
  predicate FirstStop(c: Config, k: nat) {
    Stops(c, k) && forall j: nat :: j < k ==> !Stops(c, j)
  }

  lemma {:induction false} BorderStays(c: Config, k: nat)
    ensures Global(c, k)[0] == c.start[0] && Global(c, k)[c.n + 1] == c.start[c.n + 1]
  {
    if k > 0 { BorderStays(c, k - 1); }
  }

  /** Iteration by iteration: a cell in one of the columns that eight blocks of equal width reach becomes the average
      of its four neighbours, and every other cell stays. */
  lemma GlobalCell(c: Config, k: nat, i: nat, j: nat)
    requires i < c.n + 2 && j < c.n + 2
    ensures Global(c, 0) == c.start
    ensures var g, next := Global(c, k), Global(c, k + 1);
            next[i][j] == if 1 <= i <= c.n && 1 <= j <= c.n && j <= 8 * ((c.n + 2) / 8)
                          then (g[i][j - 1] + g[i][j + 1] + g[i - 1][j] + g[i + 1][j]) / 4.0
                          else g[i][j]
  {
    hide Sweep;
    NextGlobal(c, k);
    SweepCell(Global(c, k), Global(c, k), c.n + 2, c.n + 2, i, j);
  }

  /** The residual is the squared distance between two successive grids. */
  lemma ResidualIsDistance(c: Config, k: nat)
    ensures Residual(c, k + 1) == SquaredDistance(Global(c, k + 1), Global(c, k), c.n + 2)
  {
    hide Sweep, ChangeSum;
    NextGlobal(c, k);
    SweepDistance(Global(c, k), c.n + 2, c.n + 2, c.n + 2);
  }

  lemma NextGlobal(c: Config, k: nat)
    ensures |Global(c, k)| == c.n + 2
    ensures Global(c, k + 1) == Sweep(Global(c, k), Global(c, k), c.n + 2, c.n + 2)
  {
    hide Sweep;
  }

  // ---------- the loop ends ----------

  /** How far a cell moves in iteration `k`+1. */
  function Change(c: Config, k: nat, i: nat, j: nat): real
    requires i < c.n + 2 && j < c.n + 2
  {
    Global(c, k + 1)[i][j] - Global(c, k)[i][j]
  }

  /** A parabola over the rows, 0 on the borders, that bounds the moves: averaging lowers it everywhere. */
  function Weight(c: Config, i: nat): nat
    requires i <= c.n + 1
  {
    TimesNonNegative(i, c.n + 1 - i);
    i * (c.n + 1 - i)
  }

  lemma TimesNonNegative(x: nat, y: nat)
    ensures x * y >= 0
  {}

  function Top(c: Config): (top: nat)
    ensures top >= 1
  {
    (c.n + 1) * (c.n + 1)
  }

  lemma WeightAverages(c: Config, i: nat)
    requires 1 <= i <= c.n
    ensures Weight(c, i - 1) + Weight(c, i + 1) == 2 * Weight(c, i) - 2
    ensures 1 <= Weight(c, i) <= Top(c)
  {
    var m := c.n + 1;
    assert (i - 1) * (m - i + 1) == i * (m - i) + i - (m - i) - 1;
    assert (i + 1) * (m - i - 1) == i * (m - i) - i + (m - i) - 1;
    ProductRange(i, m - i, m);
  }

  lemma ProductRange(x: nat, y: nat, m: nat)
    requires 1 <= x <= m && 1 <= y <= m
    ensures 1 <= x * y <= m * m
  {
    assert x * y <= m * y <= m * m;
  }

  predicate Within(x: real, bound: real) { -bound <= x <= bound }

  /** In iteration `k`+1 no cell moves farther than `a` times its weight, divided by 2*Top+k. */
  ghost predicate MovesWithin(c: Config, k: nat, a: real) {
    forall i, j :: 0 <= i < c.n + 2 && 0 <= j < c.n + 2 ==>
                     Within(Product((2 * Top(c) + k) as real, Change(c, k, i, j)), Product(a, Weight(c, i) as real))
  }

  /** A covered cell moves by the average of its neighbours' last moves, and no other cell moves. */
  lemma ChangeSpreads(c: Config, k: nat, i: nat, j: nat)
    requires i < c.n + 2 && j < c.n + 2
    ensures 1 <= i <= c.n && 1 <= j <= LastColumn(c.n + 2) ==>
              j <= c.n && Change(c, k + 1, i, j) == Average(Change(c, k, i, j - 1), Change(c, k, i, j + 1),
                                                            Change(c, k, i - 1, j), Change(c, k, i + 1, j))
    ensures !(1 <= i <= c.n && 1 <= j <= LastColumn(c.n + 2)) ==> Change(c, k, i, j) == 0.0
  {
    hide Global, Sweep, LastColumn;
    LastColumnRange(c.n + 2);
    NextGlobal(c, k);
    NextGlobal(c, k + 1);
    SweepCell(Global(c, k), Global(c, k), c.n + 2, c.n + 2, i, j);
    SweepCell(Global(c, k + 1), Global(c, k + 1), c.n + 2, c.n + 2, i, j);
  }

  lemma ProductOfAverage(s: real, d0: real, d1: real, d2: real, d3: real)
    ensures Product(s, Average(d0, d1, d2, d3))
         == 0.25 * (Product(s, d0) + Product(s, d1) + Product(s, d2) + Product(s, d3))
  {}

  lemma ProductOfWeights(a: real, w: real, w2: real, w3: real)
    requires w2 + w3 == 2.0 * w - 2.0
    ensures Product(a, w2) + Product(a, w3) == 2.0 * Product(a, w) - 2.0 * a
  {
    assert a * w2 + a * w3 == a * (w2 + w3);
  }

  lemma HalfExceeded(s: real, d: real, a: real, top: real)
    requires a >= 0.0 && top > 0.0 && s >= 2.0 * top && d > a / 2.0
    ensures Product(s, d) > Product(a, top)
  {
    assert (s - 2.0 * top) * d >= 0.0;
    assert top * (2.0 * d - a) > 0.0;
  }

  lemma HalfBound(s: real, d: real, a: real, top: real)
    requires a >= 0.0 && top > 0.0 && s >= 2.0 * top && Within(Product(s, d), Product(a, top))
    ensures Within(d, a / 2.0)
  {
    hide Product;
    ProductSteps(s, d);
    if d > a / 2.0 { HalfExceeded(s, d, a, top); }
    if -d > a / 2.0 { HalfExceeded(s, -d, a, top); }
  }

  /** One averaging step: the weights' average lies below the weight, which pays for one more in the divisor. */
  lemma AverageWithin(s: real, a: real, w: real, top: real, d0: real, d1: real, d2: real, d3: real,
                      w2: real, w3: real)
    requires Within(Product(s, d0), Product(a, w)) && Within(Product(s, d1), Product(a, w))
    requires Within(Product(s, d2), Product(a, w2)) && Within(Product(s, d3), Product(a, w3))
    requires w2 + w3 == 2.0 * w - 2.0 && w <= top && s >= 2.0 * top && top > 0.0 && a >= 0.0
    ensures Within(Product(s + 1.0, Average(d0, d1, d2, d3)), Product(a, w))
  {
    hide Product, Average;
    var d := Average(d0, d1, d2, d3);
    ProductOfAverage(s, d0, d1, d2, d3);
    ProductOfWeights(a, w, w2, w3);
    ProductMonotone(a, w, top);
    HalfBound(s, d, a, top);
    ProductSteps(s, d);
  }

  lemma CellMovesWithin(c: Config, k: nat, a: real, i: nat, j: nat)
    requires MovesWithin(c, k, a) && a >= 0.0 && i < c.n + 2 && j < c.n + 2
    ensures Within(Product((2 * Top(c) + (k + 1)) as real, Change(c, k + 1, i, j)), Product(a, Weight(c, i) as real))
  {
    hide Change, Weight, Top, Average, LastColumn, Product;
    ChangeSpreads(c, k, i, j);
    ChangeSpreads(c, k + 1, i, j);
    var s := (2 * Top(c) + k) as real;
    if 1 <= i <= c.n && 1 <= j <= LastColumn(c.n + 2) {
      WeightAverages(c, i);
      AverageWithin(s, a, Weight(c, i) as real, Top(c) as real,
                    Change(c, k, i, j - 1), Change(c, k, i, j + 1), Change(c, k, i - 1, j), Change(c, k, i + 1, j),
                    Weight(c, i - 1) as real, Weight(c, i + 1) as real);
      assert (2 * Top(c) + (k + 1)) as real == s + 1.0;
    } else {
      NoMove(s + 1.0, a, Weight(c, i) as real);
    }
  }

  lemma NoMove(s: real, a: real, w: real)
    requires a >= 0.0 && w >= 0.0
    ensures Within(Product(s, 0.0), Product(a, w))
  {}

  lemma MovesWithinStep(c: Config, k: nat, a: real)
    requires MovesWithin(c, k, a) && a >= 0.0
    ensures MovesWithin(c, k + 1, a)
  {
    hide Change, Weight, Top, Product, Within;
    var k' := k + 1;
    forall i, j | 0 <= i < c.n + 2 && 0 <= j < c.n + 2
      ensures Within(Product((2 * Top(c) + k') as real, Change(c, k', i, j)), Product(a, Weight(c, i) as real))
    {
      CellMovesWithin(c, k, a, i, j);
    }
  }

  /** What the first iteration allows: no cell moves farther in it than its residual and 1 together. */
  function Start(c: Config): real {
    Product((2 * Top(c)) as real, 1.0 + Residual(c, 1))
  }

  lemma FirstMove(c: Config, i: nat, j: nat)
    requires i < c.n + 2 && j < c.n + 2
    ensures Residual(c, 1) >= 0.0
    ensures Within(Change(c, 0, i, j), if 1 <= i <= c.n then 1.0 + Residual(c, 1) else 0.0)
  {
    hide Global, Sweep, ChangeSum, LastColumn, Stencil;
    var g, d := Global(c, 0), Change(c, 0, i, j);
    LastColumnRange(c.n + 2);
    ChangeSumNonNegative(g, 1, c.n + 1, c.n + 2);
    ChangeSpreads(c, 0, i, j);
    if 1 <= i <= c.n && 1 <= j <= LastColumn(c.n + 2) {
      NextGlobal(c, 0);
      SweepCell(g, g, c.n + 2, c.n + 2, i, j);
      ChangeSumHas(g, c.n + 1, c.n + 2, i, j);
      BelowSquare(d, Residual(c, 1));
    }
  }

  lemma BelowSquare(d: real, most: real)
    requires d * d <= most
    ensures Within(d, 1.0 + most)
  {
    if d > 1.0 { assert d * (d - 1.0) >= 0.0; }
    if d < -1.0 { assert d * (d + 1.0) >= 0.0; }
  }

  lemma WidensTo(s: real, b: real, d: real, w: real)
    requires s >= 0.0 && b >= 0.0 && w >= 1.0 && Within(d, b)
    ensures Within(Product(s, d), Product(Product(s, b), w))
  {
    ProductMonotone(s, d, b);
    ProductMonotone(s, -b, d);
    ProductMonotone(s * b, 1.0, w);
  }

  lemma StartNonNegative(c: Config)
    ensures Start(c) >= 0.0
  {
    hide Residual, Top;
    FirstMove(c, 0, 0);
  }

  lemma StartsWithin(c: Config)
    ensures MovesWithin(c, 0, Start(c))
  {
    hide Change, Weight, Top, Residual, Product, Within;
    StartNonNegative(c);
    var s, b := (2 * Top(c)) as real, 1.0 + Residual(c, 1);
    forall i, j | 0 <= i < c.n + 2 && 0 <= j < c.n + 2
      ensures Within(Product((2 * Top(c) + 0) as real, Change(c, 0, i, j)), Product(Start(c), Weight(c, i) as real))
    {
      FirstMove(c, i, j);
      if 1 <= i <= c.n {
        WeightAverages(c, i);
        WidensTo(s, b, Change(c, 0, i, j), Weight(c, i) as real);
      } else {
        NothingWithin(Change(c, 0, i, j));
        NoMove(s, Start(c), Weight(c, i) as real);
      }
    }
  }

  lemma NothingWithin(d: real)
    ensures Within(d, 0.0) ==> d == 0.0
  {}

  lemma {:induction false} AlwaysMovesWithin(c: Config, k: nat)
    ensures Start(c) >= 0.0 && MovesWithin(c, k, Start(c))
  {
    hide MovesWithin, Start;
    StartNonNegative(c);
    if k == 0 {
      StartsWithin(c);
    } else {
      AlwaysMovesWithin(c, k - 1);
      MovesWithinStep(c, k - 1, Start(c));
    }
  }

  /** Moves of at most `e` keep the residual below the number of cells times e squared. */
  lemma SmallMoves(c: Config, k: nat, e: real)
    requires e >= 0.0 && forall i, j :: 0 <= i < c.n + 2 && 0 <= j < c.n + 2 ==> Within(Change(c, k, i, j), e)
    ensures Residual(c, k + 1) <= Product(c.n as real, Product((c.n + 2) as real, Product(e, e)))
  {
    hide Global, Sweep, ChangeSum, LastColumn, Stencil, Product;
    var g, cols := Global(c, k), c.n + 2;
    NextGlobal(c, k);
    LastColumnRange(cols);
    forall i, j | 1 <= i < c.n + 1 && 1 <= j <= LastColumn(cols)
      ensures SquaredChange(Stencil(g[i - 1], g[i], g[i + 1], j), g[i][j]) <= Product(e, e)
    {
      SweepCell(g, g, cols, cols, i, j);
      SquareWithin(Change(c, k, i, j), e);
    }
    SquareWithin(0.0, e);
    ChangeSumAtMost(g, c.n + 1, cols, Product(e, e));
  }

  lemma SquareWithin(d: real, e: real)
    requires e >= 0.0 && Within(d, e)
    ensures d * d <= Product(e, e) && Product(e, e) >= 0.0
  {
    assert (e - d) * (e + d) >= 0.0;
  }

  /** A number of cells no grid of the configuration has, and the factor that brings their moves below the
      threshold. */
  function Cells(c: Config): (cells: nat)
    ensures cells >= 1
  {
    (c.n + 2) * (c.n + 2)
  }

  function Scale(c: Config): real { Product(20001.0, Cells(c) as real) }

  lemma CellsSuffice(c: Config)
    ensures 0.0 <= Product(c.n as real, (c.n + 2) as real) <= Cells(c) as real
  {
    assert c.n * (c.n + 2) <= (c.n + 2) * (c.n + 2);
    assert c.n as real * (c.n + 2) as real == (c.n * (c.n + 2)) as real;
  }

  /** Cells whose moves stay below 1/(20001 cells) have squared moves that add up to less than the threshold. */
  lemma BelowThreshold(some: real, cells: real, e: real)
    requires 0.0 <= some <= cells && 1.0 <= cells && 0.0 < e && Product(20001.0, Product(cells, e)) == 1.0
    ensures Product(some, Product(e, e)) < 0.00005
  {
    var ce, x := Product(cells, e), Product(some, e);
    assert ce == 1.0 / 20001.0;
    hide Product;
    ProductUnits(e, e, e);
    ProductUnits(x, e, e);
    ProductUnits(some, e, e);
    ProductMonotone(e, 1.0, cells);
    ProductMonotone(e, some, cells);
    ProductMonotone(e, 0.0, some);
    ProductMonotone(x, e, 1.0);
  }

  /** With k >= a*top/e in the divisor no cell moves farther than `e`. */
  lemma LateMove(s: real, k: real, d: real, a: real, w: real, top: real, e: real)
    requires Within(Product(s, d), Product(a, w)) && 0.0 < k <= s && a >= 0.0 && e > 0.0
    requires w <= top && Product(a, top) <= Product(k, e)
    ensures Within(d, e)
  {
    hide Product;
    ProductMonotone(a, w, top);
    ProductSteps(s, d);
    if d > e { Exceeds(s, k, d, e); }
    if -d > e { Exceeds(s, k, -d, e); }
  }

  lemma Exceeds(s: real, k: real, d: real, e: real)
    requires 0.0 < k <= s && 0.0 < e < d
    ensures Product(s, d) > Product(k, e)
  {
    assert (s - k) * d >= 0.0;
    assert k * (d - e) > 0.0;
  }

  lemma WeightRange(c: Config, i: nat)
    requires i <= c.n + 1
    ensures Weight(c, i) <= Top(c)
  {
    if 1 <= i <= c.n { WeightAverages(c, i); }
  }

  lemma LateMoves(c: Config, k: nat, e: real)
    requires k >= 1 && e > 0.0 && Product(Start(c), Top(c) as real) <= Product(k as real, e)
    ensures forall i, j :: 0 <= i < c.n + 2 && 0 <= j < c.n + 2 ==> Within(Change(c, k, i, j), e)
  {
    hide Change, Weight, Top, Start, Product, Within;
    AlwaysMovesWithin(c, k);
    forall i, j | 0 <= i < c.n + 2 && 0 <= j < c.n + 2 ensures Within(Change(c, k, i, j), e) {
      WeightRange(c, i);
      LateMove((2 * Top(c) + k) as real, k as real, Change(c, k, i, j), Start(c), Weight(c, i) as real,
               Top(c) as real, e);
    }
  }

  /** A multiple of ten with at least `x` iterations before it. */
  function TenAfter(x: real): (k: nat)
    ensures k % 10 == 0 && k >= 10 && (k - 1) as real >= x
  {
    10 * (if x >= 0.0 then x.Floor + 2 else 1)
  }

  lemma Reciprocal(scale: real, x: real, k: real)
    requires scale > 0.0 && k >= Product(x, scale)
    ensures 1.0 / scale > 0.0 && Product(scale, 1.0 / scale) == 1.0 && x <= Product(k, 1.0 / scale)
  {
    var e := 1.0 / scale;
    assert Product(scale, e) == 1.0;
    hide Product;
    ProductMonotone(e, Product(x, scale), k);
    ProductUnits(x, scale, e);
  }

  /** On every grid, whatever the limit of iterations, the stopping test succeeds at last. */
  lemma SequentialStops(c: Config) returns (k: nat)
    ensures Stops(c, k)
  {
    hide Start, Top, Cells, Residual, TenAfter, Product, Within;
    var reach, scale := Product(Start(c), Top(c) as real), Scale(c);
    k := TenAfter(Product(reach, scale));
    ScalePositive(c);
    Reciprocal(scale, reach, (k - 1) as real);
    var e := 1.0 / scale;
    LateMoves(c, k - 1, e);
    SmallMoves(c, k - 1, e);
    CellsSuffice(c);
    ProductUnits(20001.0, Cells(c) as real, e);
    BelowThreshold(Product(c.n as real, (c.n + 2) as real), Cells(c) as real, e);
    ProductUnits(c.n as real, (c.n + 2) as real, Product(e, e));
  }

  lemma ScalePositive(c: Config)
    ensures Scale(c) > 0.0
  {}

  lemma {:induction false} LeastStop(c: Config, k: nat) returns (first: nat)
    requires Stops(c, k)
    ensures FirstStop(c, first) && first <= k
  {
    hide Stops;
    if j: nat :| j < k && Stops(c, j) { first := LeastStop(c, j); } else { first := k; }
  }

  /** The number of iterations of the sequential loop. */
  ghost function Iterations(c: Config): (k: nat)
    ensures FirstStop(c, k)
  {
    SomeFirstStop(c);
    var k: nat :| FirstStop(c, k);
    k
  }

  /** The loop runs for a positive multiple of ten iterations, until the residual is small or the limit is reached,
      and at no earlier multiple of ten was either so. */
  lemma IterationsExactly(c: Config, k: nat)
    requires FirstStop(c, k)
    ensures k >= 1 && k % 10 == 0 && (Residual(c, k) < 0.00005 || (c.maxiter > 0 && k >= c.maxiter))
    ensures forall j: nat :: 1 <= j < k && j % 10 == 0 ==>
              Residual(c, j) >= 0.00005 && (c.maxiter == 0 || j < c.maxiter)
  {
    hide Residual;
    forall j: nat | 1 <= j < k && j % 10 == 0
      ensures Residual(c, j) >= 0.00005 && (c.maxiter == 0 || j < c.maxiter)
    {
      assert !Stops(c, j);
    }
  }

  /** A limit of iterations is overrun by at most nine. */
  lemma LimitIsKept(c: Config)
    requires c.maxiter > 0
    ensures Iterations(c) <= c.maxiter + 9
  {
    hide Residual, FirstStop;
    var k := c.maxiter + (10 - c.maxiter % 10) % 10;
    assert k % 10 == 0 && k >= c.maxiter;
    assert Stops(c, k);
    FirstStopIsLeast(c, Iterations(c), k);
  }

  lemma FirstStopIsLeast(c: Config, k: nat, other: nat)
    requires FirstStop(c, k) && Stops(c, other)
    ensures k <= other
  {
    hide Stops;
  }

  lemma SomeFirstStop(c: Config)
    ensures exists k: nat :: FirstStop(c, k)
  {
    var some := SequentialStops(c);
    var first := LeastStop(c, some);
  }
}
