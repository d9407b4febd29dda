/** The distributed Jacobi solver of example/LINUX/MPI+OMPSS/heat-mpi-ompss.c as a state machine over the steps of
    its ranks, against the sequential solver of example/LINUX/OMPSS/heat-ompss.c. */
module HeatProtocol {
  import opened HeatGrid
  import opened HeatSequential

  // ---------- the row distribution ----------

  /** The number of rows of rank `r`. */
  function Rows(c: Config, r: nat): nat {
    c.n / c.procs + if r < c.n % c.procs then 1 else 0
  }

  /** The first row of rank `r`; rank `r` owns the rows up to the first of rank `r`+1. */
  function First(c: Config, r: nat): (row: nat)
    ensures row >= 1
  {
    if r == 0 then 1 else First(c, r - 1) + Rows(c, r - 1)
  }

  lemma {:induction false} FirstClosedForm(c: Config, r: nat)
    ensures First(c, r) == 1 + r * (c.n / c.procs) + if r < c.n % c.procs then r else c.n % c.procs
  {
    if r > 0 {
      FirstClosedForm(c, r - 1);
      assert r * (c.n / c.procs) == (r - 1) * (c.n / c.procs) + c.n / c.procs;
    }
  }

  lemma {:induction false} FirstMonotone(c: Config, r: nat, s: nat)
    requires r <= s
    ensures First(c, r) <= First(c, s)
  {
    if r < s { FirstMonotone(c, r, s - 1); }
  }

  lemma FirstOfLast(c: Config)
    ensures First(c, c.procs) == c.n + 1
  {
    hide First;
    FirstClosedForm(c, c.procs);
    assert c.n == c.procs * (c.n / c.procs) + c.n % c.procs;
  }

  /** The ranks' rows tile 1 to n; only ranks from `n` on own none. */
  lemma RowsTile(c: Config, r: nat)
    requires r < c.procs
    ensures First(c, 0) == 1 && First(c, c.procs) == c.n + 1
    ensures First(c, r + 1) == First(c, r) + Rows(c, r) <= c.n + 1
    ensures Rows(c, r) == 0 <==> r >= c.n
  {
    FirstOfLast(c);
    FirstMonotone(c, r + 1, c.procs);
    if c.n < c.procs { SmallQuotient(c.n, c.procs); } else { LargeQuotient(c.n, c.procs); }
  }

  /** Every interior row has exactly one owner, and no rank owns two rows more than another. */
  lemma {:induction false} EveryRowHasOneOwner(c: Config, row: nat, p: nat) returns (r: nat)
    requires p <= c.procs && 1 <= row < First(c, p)
    ensures r < p && First(c, r) <= row < First(c, r + 1)
    ensures forall q: nat :: First(c, q) <= row < First(c, q + 1) ==> q == r
    ensures forall q: nat, q': nat :: Rows(c, q) <= Rows(c, q') + 1
  {
    if row >= First(c, p - 1) {
      r := p - 1;
      forall q: nat | First(c, q) <= row < First(c, q + 1) ensures q == r {
        if q < r { FirstMonotone(c, q + 1, r); }
        if r < q { FirstMonotone(c, r + 1, q); }
      }
    } else {
      r := EveryRowHasOneOwner(c, row, p - 1);
    }
  }

  lemma SmallQuotient(n: nat, p: nat)
    requires n < p
    ensures n / p == 0 && n % p == n
  {}

  lemma LargeQuotient(n: nat, p: nat)
    requires 1 <= p <= n
    ensures n / p >= 1
  {}

  /** The master's loop that hands out the rows, with both ends of every range. */
  method DistributeRows(c: Config) returns (first: seq<int>, last: seq<int>)
    ensures |first| == |last| == c.procs
    ensures forall r :: 0 <= r < c.procs ==> first[r] == First(c, r) && last[r] == First(c, r + 1) - 1
    ensures forall r :: 0 <= r < c.procs ==>
              var share, extra := c.n / c.procs, c.n % c.procs;
              && first[r] == 1 + r * share + (if r < extra then r else extra)
              && last[r] == first[r] + share - (if r < extra then 0 else 1)
  {
    hide First;
    first, last := [], [];
    var firstRow: int := 1;
    RowsTile(c, 0);
    for i := 0 to c.procs
      invariant |first| == |last| == i && firstRow == First(c, i)
      invariant forall r :: 0 <= r < i ==> first[r] == First(c, r) && last[r] == First(c, r + 1) - 1
    {
      RowsTile(c, i);
      var lastRow := firstRow + c.n / c.procs - 1;
      lastRow := if i < c.n % c.procs then lastRow + 1 else lastRow;
      first, last := first + [firstRow], last + [lastRow];
      firstRow := lastRow + 1;
    }
    forall r | 0 <= r < c.procs
      ensures first[r] == 1 + r * (c.n / c.procs) + if r < c.n % c.procs then r else c.n % c.procs
      ensures last[r] == first[r] + c.n / c.procs - if r < c.n % c.procs then 0 else 1
    {
      FirstClosedForm(c, r);
      RowsTile(c, r);
    }
  }

  // ---------- the ranks and their steps ----------

  /** Where a rank stands in its loop: about to sweep, to exchange with the right and then the left neighbour, to
      copy back and to enter the allreduce, which no dependence orders: the copy may come first and leave the
      reduction, or the reduction first and leave a late copy.  With both done the rank tests for termination and
      is back at the sweep or out of the loop. */
  datatype Pc = Compute | SendRight | SendLeft | CopyBack | Reduce | CopyLate | Decide | Finished

  datatype Rank = Rank(pc: Pc, u: Grid, uhelp: Grid, iter: nat, residual: real)

  type World = seq<Rank>

  /** Rows held by rank `r`: the master holds the whole grid, a worker its own rows and two halo rows. */
  function Height(c: Config, r: nat): (h: nat)
    requires r < c.procs
    ensures h >= Rows(c, r) + 2 && First(c, r) - 1 + h <= c.n + 2
  {
    RowsTile(c, r);
    if r == 0 then c.n + 2 else Rows(c, r) + 2
  }

  function Window(g: Grid, from: nat, height: nat, cols: nat): (s: Grid)
    requires from + height <= |g| && IsGrid(g, |g|, cols)
    ensures IsGrid(s, height, cols) && forall i :: 0 <= i < height ==> s[i] == g[from + i]
  {
    g[from..from + height]
  }

  /** The slice of `g` sent to rank `r`; the master's is all of it. */
  function Slice(c: Config, g: Grid, r: nat): (s: Grid)
    requires r < c.procs && IsGrid(g, c.n + 2, c.n + 2)
    ensures IsGrid(s, Height(c, r), c.n + 2)
    ensures forall i :: 0 <= i < Height(c, r) ==> s[i] == g[First(c, r) - 1 + i]
  {
    Window(g, First(c, r) - 1, Height(c, r), c.n + 2)
  }

  function Initial(c: Config): World {
    seq(c.procs, r requires 0 <= r < c.procs => Rank(Compute, Slice(c, c.start, r), Slice(c, c.start, r), 0, 0.0))
  }

  datatype Action = Relax(r: nat) | Exchange(r: nat) | Copy(r: nat) | AllReduce | Test(r: nat)

  predicate Shaped(c: Config, w: World) {
    |w| == c.procs
    && forall r :: 0 <= r < c.procs ==>
         IsGrid(w[r].u, Height(c, r), c.n + 2) && IsGrid(w[r].uhelp, Height(c, r), c.n + 2)
  }

  /** An exchange is a rendezvous: the left rank's Sendrecv to the right meets the right rank's to the left. */
  predicate Enabled(c: Config, w: World, a: Action) {
    |w| == c.procs
    && match a
       case Relax(r) => r < c.procs && w[r].pc == Compute
       case Exchange(r) => r + 1 < c.procs && w[r].pc == SendRight && w[r + 1].pc == SendLeft
       case Copy(r) => r < c.procs && (w[r].pc == CopyBack || w[r].pc == CopyLate)
       case AllReduce => forall r :: 0 <= r < c.procs ==> w[r].pc == CopyBack || w[r].pc == Reduce
       case Test(r) => r < c.procs && w[r].pc == Decide
  }

  function Relaxed(c: Config, x: Rank, r: nat): Rank
    requires r < c.procs && IsGrid(x.u, Height(c, r), c.n + 2) && IsGrid(x.uhelp, Height(c, r), c.n + 2)
  {
    x.(pc := if r == 0 || r < c.procs - 1 then SendRight else SendLeft,
       uhelp := Sweep(x.u, x.uhelp, Rows(c, r) + 2, c.n + 2),
       residual := ChangeSum(x.u, 1, Rows(c, r) + 1, c.n + 2))
  }

  /** The left partner receives the right one's first row into its bottom halo. */
  function FromRight(c: Config, x: Rank, r: nat, row: Row): Rank
    requires r < c.procs && |x.uhelp| == Height(c, r)
  {
    x.(pc := if r == 0 then CopyBack else SendLeft, uhelp := x.uhelp[Rows(c, r) + 1 := row])
  }

  /** The right partner receives the left one's last row into its top halo. */
  function FromLeft(c: Config, x: Rank, r: nat, row: Row): Rank
    requires r < c.procs && |x.uhelp| == Height(c, r)
  {
    x.(pc := CopyBack, uhelp := x.uhelp[0 := row])
  }

  /** Copying stops at the bottom halo. */
  function Copied(c: Config, x: Rank, r: nat): Rank
    requires r < c.procs && |x.u| == |x.uhelp| == Height(c, r)
  {
    x.(pc := if x.pc == CopyBack then Reduce else Decide,
       u := x.uhelp[..Rows(c, r) + 2] + x.u[Rows(c, r) + 2..])
  }

  /** A rank out of the allreduce has counted the iteration; its copy may still be to come. */
  function Reduced(x: Rank, total: real): Rank {
    x.(pc := if x.pc == Reduce then Decide else CopyLate, iter := x.iter + 1, residual := total)
  }

  function Tested(c: Config, x: Rank): Rank {
    x.(pc := if Enough(c, x.iter, x.residual) then Finished else Compute)
  }

  /** The sum of the first `p` ranks' residuals. */
  function Total(w: World, p: nat): real
    requires p <= |w|
  {
    if p == 0 then 0.0 else Total(w, p - 1) + w[p - 1].residual
  }

  function Apply(c: Config, w: World, a: Action): (w': World)
    requires Shaped(c, w) && Enabled(c, w, a)
    ensures |w'| == c.procs
  {
    match a
    case Relax(r) => w[r := Relaxed(c, w[r], r)]
    case Exchange(r) =>
      w[r := FromRight(c, w[r], r, w[r + 1].uhelp[1])][r + 1 := FromLeft(c, w[r + 1], r + 1, w[r].uhelp[Rows(c, r)])]
    case Copy(r) => w[r := Copied(c, w[r], r)]
    case AllReduce =>
      seq(c.procs, r requires 0 <= r < c.procs => Reduced(w[r], Total(w, c.procs)))
    case Test(r) => w[r := Tested(c, w[r])]
  }

  // ---------- what a rank holds ----------

  /** Row First-1+i of the sequential grid after `k` iterations: what rank `r` should hold as its row `i`. */
  function RowAt(c: Config, r: nat, i: nat, k: nat): Row
    requires r < c.procs && i < Height(c, r)
  {
    Global(c, k)[First(c, r) - 1 + i]
  }

  predicate RowIs(c: Config, g: Grid, r: nat, i: nat, k: nat)
    requires r < c.procs && |g| == Height(c, r) && i < Height(c, r)
  {
    g[i] == RowAt(c, r, i, k)
  }

  /** The iteration at which the top halo of rank `r` stands when the rank is at iteration `k`.  Ranks up to `n`
      are up to date; each rank beyond passes on a halo it has not yet refreshed and adds one round of delay. */
  function Lag(c: Config, r: nat, k: nat): nat {
    if r <= c.n then k else if k + c.n >= r then k + c.n - r else 0
  }

  /** Top halo, own rows and bottom halo of `g` stand at the iterations `top`, `own` and `bottom`, the top one up
      to the rank's lag.  Below its own part the master still holds the starting grid. */
  predicate Holds(c: Config, g: Grid, r: nat, top: nat, own: nat, bottom: nat)
    requires r < c.procs
  {
    && IsGrid(g, Height(c, r), c.n + 2)
    && RowIs(c, g, r, 0, Lag(c, r, top))
    && (forall i :: 1 <= i <= Rows(c, r) ==> RowIs(c, g, r, i, own))
    && RowIs(c, g, r, Rows(c, r) + 1, bottom)
    && (r == 0 ==> forall i :: Rows(c, 0) + 2 <= i < c.n + 2 ==> g[i] == c.start[i])
  }

  predicate Current(c: Config, g: Grid, r: nat, k: nat)
    requires r < c.procs
  {
    Holds(c, g, r, k, k, k)
  }

  /** The squared changes of rank `r`'s own rows in iteration `k`+1. */
  function OwnResidual(c: Config, k: nat, r: nat): real
    requires r < c.procs
  {
    RowsTile(c, r);
    ChangeSum(Global(c, k), First(c, r), First(c, r + 1), c.n + 2)
  }

  /** Rank `r` in round `k`, that is, between the `k`-th allreduce and the next one. */
  predicate RankOk(c: Config, k: nat, r: nat, x: Rank)
    requires r < c.procs
  {
    match x.pc
    case Compute => x.iter == k && !Stops(c, k) && Current(c, x.u, r, k) && Current(c, x.uhelp, r, k)
    case SendRight => x.iter == k && !Stops(c, k) && Current(c, x.u, r, k) && Holds(c, x.uhelp, r, k, k + 1, k)
                      && x.residual == OwnResidual(c, k, r) && (r == 0 || r < c.procs - 1)
    case SendLeft => x.iter == k && !Stops(c, k) && Current(c, x.u, r, k) && Holds(c, x.uhelp, r, k, k + 1, k + 1)
                     && x.residual == OwnResidual(c, k, r) && r > 0
    case CopyBack => x.iter == k && !Stops(c, k) && Current(c, x.u, r, k) && Current(c, x.uhelp, r, k + 1)
                     && x.residual == OwnResidual(c, k, r)
    case Reduce => x.iter == k && !Stops(c, k) && Current(c, x.u, r, k + 1) && Current(c, x.uhelp, r, k + 1)
                   && x.residual == OwnResidual(c, k, r)
    case CopyLate => x.iter == k && k >= 1 && Current(c, x.u, r, k - 1) && Current(c, x.uhelp, r, k)
                     && x.residual == Residual(c, k)
    case Decide => x.iter == k && k >= 1 && Current(c, x.u, r, k) && Current(c, x.uhelp, r, k)
                   && x.residual == Residual(c, k)
    case Finished => x.iter == k && Stops(c, k) && Current(c, x.u, r, k)
                     && x.residual == Residual(c, k)
  }

  predicate RightDone(r: nat, pc: Pc) {
    pc == CopyBack || pc == Reduce || (r > 0 && pc == SendLeft)
  }

  predicate LeftDone(pc: Pc) {
    pc == CopyBack || pc == Reduce
  }

  /** The invariant of round `k`. */
  ghost predicate Inv(c: Config, w: World, k: nat) {
    && |w| == c.procs
    && (forall r :: 0 <= r < c.procs ==> RankOk(c, k, r, w[r]) && IsGrid(w[r].uhelp, Height(c, r), c.n + 2))
    && (forall r :: 0 <= r < c.procs - 1 ==> RightDone(r, w[r].pc) == LeftDone(w[r + 1].pc))
    && (forall j: nat :: j < k ==> !Stops(c, j))
  }

  lemma InvShaped(c: Config, w: World, k: nat)
    requires Inv(c, w, k)
    ensures Shaped(c, w)
  {
    forall r | 0 <= r < c.procs ensures IsGrid(w[r].u, Height(c, r), c.n + 2) {
      RankHoldsGrid(c, k, r, w[r]);
    }
  }

  lemma InvRank(c: Config, w: World, k: nat, r: nat)
    requires Inv(c, w, k) && r < c.procs
    ensures |w| == c.procs && RankOk(c, k, r, w[r])
    ensures IsGrid(w[r].u, Height(c, r), c.n + 2) && IsGrid(w[r].uhelp, Height(c, r), c.n + 2)
  {
    hide Global, Stops, Rows, First, Height, RankOk, IsGrid;
    assert RankOk(c, k, r, w[r]);
    RankHoldsGrid(c, k, r, w[r]);
  }

  lemma RankHoldsGrid(c: Config, k: nat, r: nat, x: Rank)
    requires r < c.procs && RankOk(c, k, r, x)
    ensures IsGrid(x.u, Height(c, r), c.n + 2)
  {}

  // ---------- every step keeps the invariant ----------

  lemma SliceIsCurrent(c: Config, r: nat)
    requires r < c.procs
    ensures Current(c, Slice(c, c.start, r), r, 0)
  {
    var g := Slice(c, c.start, r);
    assert Global(c, 0) == c.start;
    hide Global, Rows, Slice;
    RowsTile(c, r);
    assert forall i :: 0 <= i < Height(c, r) ==> RowIs(c, g, r, i, 0);
  }

  lemma InitialInv(c: Config)
    ensures Inv(c, Initial(c), 0)
  {
    hide Slice, Current;
    forall r | 0 <= r < c.procs ensures RankOk(c, 0, r, Initial(c)[r]) { SliceIsCurrent(c, r); }
  }

  lemma CurrentRow(c: Config, g: Grid, r: nat, k: nat, i: nat)
    requires r < c.procs && Current(c, g, r, k) && i < Rows(c, r) + 2 && (i > 0 || r <= c.n)
    ensures IsGrid(g, Height(c, r), c.n + 2) && |g| == Height(c, r) >= Rows(c, r) + 2
    ensures First(c, r) - 1 + i < c.n + 2 && g[i] == Global(c, k)[First(c, r) - 1 + i]
  {
    hide Global, Rows, First, Height;
    assert RowIs(c, g, r, i, k);
  }

  /** A sweep over a rank's rows makes them current for the next iteration. */
  lemma RelaxedRow(c: Config, x: Rank, r: nat, k: nat, i: nat)
    requires r < c.procs && Current(c, x.u, r, k) && Current(c, x.uhelp, r, k) && 1 <= i <= Rows(c, r)
    requires IsGrid(x.u, Height(c, r), c.n + 2) && IsGrid(x.uhelp, Height(c, r), c.n + 2)
    ensures RowIs(c, Sweep(x.u, x.uhelp, Rows(c, r) + 2, c.n + 2), r, i, k + 1)
  {
    hide Global, Rows, Sweep, First, Height, Current, IsGrid;
    var now := Global(c, k);
    NextGlobal(c, k);
    RowsTile(c, r);
    CurrentRow(c, x.u, r, k, i - 1);
    CurrentRow(c, x.u, r, k, i);
    CurrentRow(c, x.u, r, k, i + 1);
    CurrentRow(c, x.uhelp, r, k, i);
    SweepOfWindow(x.u, x.uhelp, Rows(c, r) + 2, c.n + 2, now, First(c, r) - 1, i);
  }

  lemma RelaxedHolds(c: Config, x: Rank, r: nat, k: nat)
    requires r < c.procs && Current(c, x.u, r, k) && Current(c, x.uhelp, r, k)
    ensures Holds(c, Relaxed(c, x, r).uhelp, r, k, k + 1, k)
    ensures Relaxed(c, x, r).residual == OwnResidual(c, k, r)
  {
    hide Global, Rows, Sweep, First, Height, RowIs, ChangeSum, Lag, OwnResidual;
    RelaxedEdges(c, x, r, k);
    RelaxedRows(c, x, r, k, Relaxed(c, x, r).uhelp, k + 1);
    RelaxedResidual(c, x, r, k);
  }

  lemma RelaxedRows(c: Config, x: Rank, r: nat, k: nat, g: Grid, next: nat)
    requires r < c.procs && Current(c, x.u, r, k) && Current(c, x.uhelp, r, k) && next == k + 1
    requires IsGrid(x.u, Height(c, r), c.n + 2) && IsGrid(x.uhelp, Height(c, r), c.n + 2)
    requires g == Sweep(x.u, x.uhelp, Rows(c, r) + 2, c.n + 2)
    ensures |g| == Height(c, r) && forall i :: 1 <= i <= Rows(c, r) ==> RowIs(c, g, r, i, next)
  {
    hide Global, Rows, Sweep, First, Height, Current, RowIs;
    forall i | 1 <= i <= Rows(c, r) ensures RowIs(c, g, r, i, next) { RelaxedRow(c, x, r, k, i); }
  }

  lemma RelaxedEdges(c: Config, x: Rank, r: nat, k: nat)
    requires r < c.procs && Current(c, x.u, r, k) && Current(c, x.uhelp, r, k)
    ensures var g := Sweep(x.u, x.uhelp, Rows(c, r) + 2, c.n + 2);
            && RowIs(c, g, r, 0, Lag(c, r, k)) && RowIs(c, g, r, Rows(c, r) + 1, k)
            && (r == 0 ==> forall i :: Rows(c, 0) + 2 <= i < c.n + 2 ==> g[i] == c.start[i])
  {
    hide RowUpdate, Rows;
    RowsTile(c, r);
  }

  lemma RelaxedResidual(c: Config, x: Rank, r: nat, k: nat)
    requires r < c.procs && Current(c, x.u, r, k)
    ensures ChangeSum(x.u, 1, Rows(c, r) + 1, c.n + 2) == OwnResidual(c, k, r)
  {
    hide Global, Rows, First, Height, ChangeSum;
    RowsTile(c, r);
    var now := Global(c, k);
    if Rows(c, r) > 0 {
      forall i | 0 <= i <= Rows(c, r) + 1 ensures x.u[i] == now[First(c, r) - 1 + i] {
        assert RowIs(c, x.u, r, i, k);
      }
    }
    ChangeSumLocal(x.u, now, 1, Rows(c, r) + 1, First(c, r) - 1, c.n + 2);
  }

  /** At the ends of the chain there is no neighbour, and none is needed: the border never changes. */
  lemma BorderIsCurrent(c: Config, g: Grid, r: nat, k: nat)
    requires r < c.procs
    ensures r == 0 ==> Lag(c, r, k) == k && (RowIsAt(c, g, r, 0, k) <==> RowIsAt(c, g, r, 0, k + 1))
    ensures r == c.procs - 1 ==> (RowIsAt(c, g, r, Rows(c, r) + 1, k) <==> RowIsAt(c, g, r, Rows(c, r) + 1, k + 1))
  {
    hide Global, First, Height;
    BorderStays(c, k);
    BorderStays(c, k + 1);
    EndRows(c, r);
  }

  /** The chain begins at the top border and ends at the bottom one. */
  lemma EndRows(c: Config, r: nat)
    requires r < c.procs
    ensures r == 0 ==> First(c, r) == 1
    ensures r == c.procs - 1 ==> First(c, r) - 1 + Rows(c, r) + 1 == c.n + 1
  {
    RowsTile(c, r);
  }

  predicate RowIsAt(c: Config, g: Grid, r: nat, i: nat, k: nat) {
    r < c.procs && |g| == Height(c, r) && i < Height(c, r) && RowIs(c, g, r, i, k)
  }

  lemma RelaxStep(c: Config, w: World, k: nat, r: nat)
    requires Inv(c, w, k) && Enabled(c, w, Relax(r)) && c.procs >= 2
    ensures Shaped(c, w) && Inv(c, Apply(c, w, Relax(r)), k)
  {
    hide Holds, Global, Stops, Rows, First, Height;
    InvShaped(c, w, k);
    var x := w[r];
    assert RankOk(c, k, r, x);
    RelaxedHolds(c, x, r, k);
    var x' := Relaxed(c, x, r);
    if r > 0 && r == c.procs - 1 { LastSkipsRight(c, x'.uhelp, r, k); }
    assert RankOk(c, k, r, x');
    OneChanged(c, w, k, r, x');
  }

  lemma LastSkipsRight(c: Config, g: Grid, r: nat, k: nat)
    requires r == c.procs - 1 && Holds(c, g, r, k, k + 1, k)
    ensures Holds(c, g, r, k, k + 1, k + 1)
  {
    hide Global, Rows, First, Height, Lag, RowIs;
    BorderIsCurrent(c, g, r, k);
  }

  /** The right neighbour's first row is the next iteration's row below this rank's own. */
  lemma BottomReceived(c: Config, g: Grid, h: Grid, r: nat, k: nat)
    requires r + 1 < c.procs && Holds(c, g, r, k, k + 1, k) && Holds(c, h, r + 1, k, k + 1, k + 1)
    ensures Holds(c, g[Rows(c, r) + 1 := h[1]], r, k, k + 1, k + 1)
  {
    hide Global, Rows, Lag;
    RowsTile(c, r);
    RowsTile(c, r + 1);
    assert RowIs(c, h, r + 1, 1, k + 1);
    var g', k' := g[Rows(c, r) + 1 := h[1]], k + 1;
    forall i | 1 <= i <= Rows(c, r) ensures RowIs(c, g', r, i, k') { assert RowIs(c, g, r, i, k'); }
  }

  /** The left neighbour's last row is the next iteration's row above this rank's own, or, when the neighbour is
      idle, its halo from before its own exchange: one more round of delay. */
  lemma TopReceived(c: Config, g: Grid, h: Grid, r: nat, k: nat)
    requires r + 1 < c.procs && Holds(c, g, r, k, k + 1, k) && Holds(c, h, r + 1, k, k + 1, k + 1)
    ensures Current(c, h[0 := g[Rows(c, r)]], r + 1, k + 1)
  {
    hide Global, Rows;
    RowsTile(c, r);
    RowsTile(c, r + 1);
    if r < c.n {
      assert RowIs(c, g, r, Rows(c, r), k + 1);
    } else {
      assert RowIs(c, g, r, 0, Lag(c, r, k));
    }
    var h', k', r' := h[0 := g[Rows(c, r)]], k + 1, r + 1;
    forall i | 1 <= i <= Rows(c, r') ensures RowIs(c, h', r', i, k') { assert RowIs(c, h, r', i, k'); }
  }

  lemma MasterTopIsBorder(c: Config, g: Grid, k: nat, bottom: nat)
    requires Holds(c, g, 0, k, k + 1, bottom)
    ensures Holds(c, g, 0, k + 1, k + 1, bottom)
  {
    hide Global, Rows, First, Height, RowIs;
    BorderIsCurrent(c, g, 0, k);
  }

  /** What the left partner receives brings its bottom halo up to date. */
  lemma ReceivedFromRight(c: Config, x: Rank, y: Rank, r: nat, k: nat)
    requires r + 1 < c.procs && RankOk(c, k, r, x) && RankOk(c, k, r + 1, y) && x.pc == SendRight && y.pc == SendLeft
    ensures |x.uhelp| == Height(c, r) && |y.uhelp| == Height(c, r + 1) && |y.uhelp[1]| == c.n + 2
    ensures RankOk(c, k, r, FromRight(c, x, r, y.uhelp[1]))
  {
    hide Holds, Global, Stops, Rows, First, Height, IsGrid;
    HeldGrid(c, x.uhelp, r, k, k + 1, k);
    HeldGrid(c, y.uhelp, r + 1, k, k + 1, k + 1);
    BottomReceived(c, x.uhelp, y.uhelp, r, k);
    if r == 0 { MasterTopIsBorder(c, x.uhelp[Rows(c, r) + 1 := y.uhelp[1]], k, k + 1); }
  }

  /** What the right partner receives brings its top halo up to date, but for its lag. */
  lemma ReceivedFromLeft(c: Config, x: Rank, y: Rank, r: nat, k: nat)
    requires r + 1 < c.procs && RankOk(c, k, r, x) && RankOk(c, k, r + 1, y) && x.pc == SendRight && y.pc == SendLeft
    ensures |x.uhelp| == Height(c, r) && |y.uhelp| == Height(c, r + 1) && |x.uhelp[Rows(c, r)]| == c.n + 2
    ensures RankOk(c, k, r + 1, FromLeft(c, y, r + 1, x.uhelp[Rows(c, r)]))
  {
    hide Holds, Global, Stops, Rows, First, Height, IsGrid;
    HeldGrid(c, x.uhelp, r, k, k + 1, k);
    HeldGrid(c, y.uhelp, r + 1, k, k + 1, k + 1);
    TopReceived(c, x.uhelp, y.uhelp, r, k);
  }

  lemma HeldGrid(c: Config, g: Grid, r: nat, top: nat, own: nat, bottom: nat)
    requires r < c.procs && Holds(c, g, r, top, own, bottom)
    ensures |g| == Height(c, r) && forall i :: 0 <= i < |g| ==> |g[i]| == c.n + 2
  {
    hide RowIs;
  }

  lemma ExchangeStep(c: Config, w: World, k: nat, r: nat)
    requires Inv(c, w, k) && Enabled(c, w, Exchange(r))
    ensures Shaped(c, w) && Inv(c, Apply(c, w, Exchange(r)), k)
  {
    hide Inv, RankOk, Global, Stops, Rows, First, Height, IsGrid, Shaped;
    InvShaped(c, w, k);
    InvRank(c, w, k, r);
    InvRank(c, w, k, r + 1);
    ReceivedFromRight(c, w[r], w[r + 1], r, k);
    ReceivedFromLeft(c, w[r], w[r + 1], r, k);
    GridUpdate(w[r].uhelp, Rows(c, r) + 1, w[r + 1].uhelp[1], Height(c, r), c.n + 2);
    GridUpdate(w[r + 1].uhelp, 0, w[r].uhelp[Rows(c, r)], Height(c, r + 1), c.n + 2);
    TwoChanged(c, w, k, r,
               FromRight(c, w[r], r, w[r + 1].uhelp[1]), FromLeft(c, w[r + 1], r + 1, w[r].uhelp[Rows(c, r)]));
  }

  lemma GridUpdate(g: Grid, i: nat, row: Row, rows: nat, cols: nat)
    requires IsGrid(g, rows, cols) && i < rows && |row| == cols
    ensures IsGrid(g[i := row], rows, cols)
  {}

  /** Replacing two neighbours that have just met keeps the invariant. */
  lemma TwoChanged(c: Config, w: World, k: nat, r: nat, x: Rank, y: Rank)
    requires Inv(c, w, k) && r + 1 < c.procs && w[r].pc == SendRight && w[r + 1].pc == SendLeft
    requires RankOk(c, k, r, x) && RankOk(c, k, r + 1, y)
    requires IsGrid(x.uhelp, Height(c, r), c.n + 2) && IsGrid(y.uhelp, Height(c, r + 1), c.n + 2)
    requires x.pc == (if r == 0 then CopyBack else SendLeft) && y.pc == CopyBack
    ensures Inv(c, w[r := x][r + 1 := y], k)
  {
    hide RankOk, Global, Stops, Rows, First, Height, IsGrid;
  }

  /** Replacing one rank keeps the invariant if its neighbours see no difference. */
  lemma OneChanged(c: Config, w: World, k: nat, r: nat, x: Rank)
    requires Inv(c, w, k) && r < c.procs && RankOk(c, k, r, x) && IsGrid(x.uhelp, Height(c, r), c.n + 2)
    requires LeftDone(x.pc) == LeftDone(w[r].pc)
    requires r < c.procs - 1 ==> RightDone(r, x.pc) == RightDone(r, w[r].pc)
    ensures Inv(c, w[r := x], k)
  {
    hide RankOk, Global, Stops, Rows, First, Height, IsGrid;
  }

  lemma CopyStep(c: Config, w: World, k: nat, r: nat)
    requires Inv(c, w, k) && Enabled(c, w, Copy(r))
    ensures Shaped(c, w) && Inv(c, Apply(c, w, Copy(r)), k)
  {
    hide Inv, Current, Global, Stops, Rows, First, Height, Holds;
    InvShaped(c, w, k);
    InvRank(c, w, k, r);
    CopiedIsCurrent(c, w[r], r, if w[r].pc == CopyBack then k else k - 1);
    assert RankOk(c, k, r, Copied(c, w[r], r));
    OneChanged(c, w, k, r, Copied(c, w[r], r));
  }

  lemma CopiedIsCurrent(c: Config, x: Rank, r: nat, k: nat)
    requires r < c.procs && Current(c, x.u, r, k) && Current(c, x.uhelp, r, k + 1)
    ensures Current(c, Copied(c, x, r).u, r, k + 1)
  {
    hide Global, Rows;
    var g := Copied(c, x, r).u;
    var k' := k + 1;
    forall i | 1 <= i <= Rows(c, r) ensures RowIs(c, g, r, i, k') { assert RowIs(c, x.uhelp, r, i, k'); }
  }

  lemma TestStep(c: Config, w: World, k: nat, r: nat)
    requires Inv(c, w, k) && Enabled(c, w, Test(r))
    ensures Shaped(c, w) && Inv(c, Apply(c, w, Test(r)), k)
    ensures var x := w[r];
            var leaves := x.iter % 10 == 0 && (x.residual < 0.00005 || (c.maxiter > 0 && x.iter >= c.maxiter));
            Apply(c, w, Test(r))[r] == x.(pc := if leaves then Finished else Compute)
  {
    hide Global, Rows, First, Height, Current;
    InvShaped(c, w, k);
    assert RankOk(c, k, r, w[r]);
    assert RankOk(c, k, r, Tested(c, w[r]));
    OneChanged(c, w, k, r, Tested(c, w[r]));
  }

  /** The ranks' own residuals add up to the residual of the sequential sweep. */
  lemma {:induction false} TotalIsResidual(c: Config, w: World, k: nat, p: nat)
    requires |w| == c.procs && p <= c.procs
    requires forall r :: 0 <= r < p ==> w[r].residual == OwnResidual(c, k, r)
    ensures 1 <= First(c, p) <= c.n + 1
    ensures Total(w, p) == ChangeSum(Global(c, k), 1, First(c, p), c.n + 2)
  {
    hide Global, Rows;
    if p > 0 {
      RowsTile(c, p - 1);
      TotalIsResidual(c, w, k, p - 1);
      ChangeSumSplits(Global(c, k), 1, First(c, p - 1), First(c, p), c.n + 2);
    }
  }

  lemma ReducedRank(c: Config, x: Rank, r: nat, k: nat)
    requires r < c.procs && RankOk(c, k, r, x) && !Stops(c, k) && (x.pc == CopyBack || x.pc == Reduce)
    ensures RankOk(c, k + 1, r, Reduced(x, Residual(c, k + 1)))
  {
    hide Global, Rows, First, Height, Current, Stops, Residual;
  }

  lemma AllReduceStep(c: Config, w: World, k: nat)
    requires Inv(c, w, k) && Enabled(c, w, AllReduce)
    ensures Shaped(c, w) && Inv(c, Apply(c, w, AllReduce), k + 1)
  {
    hide Global, Rows, First, Height, Holds, Current, Stops, RankOk, IsGrid, OwnResidual, Total, Residual;
    InvShaped(c, w, k);
    forall r | 0 <= r < c.procs ensures w[r].residual == OwnResidual(c, k, r) && !Stops(c, k) {
      WaitingRank(c, w[r], r, k);
    }
    assert !Stops(c, k) by { WaitingRank(c, w[0], 0, k); }
    TotalOfAll(c, w, k);
    forall r | 0 <= r < c.procs ensures RankOk(c, k + 1, r, Reduced(w[r], Residual(c, k + 1))) {
      ReducedRank(c, w[r], r, k);
    }
  }

  lemma WaitingRank(c: Config, x: Rank, r: nat, k: nat)
    requires r < c.procs && RankOk(c, k, r, x) && (x.pc == CopyBack || x.pc == Reduce)
    ensures x.residual == OwnResidual(c, k, r) && !Stops(c, k)
  {}

  lemma TotalOfAll(c: Config, w: World, k: nat)
    requires |w| == c.procs && forall r :: 0 <= r < c.procs ==> w[r].residual == OwnResidual(c, k, r)
    ensures Total(w, c.procs) == Residual(c, k + 1)
  {
    hide Global, Total, First, Rows, OwnResidual;
    TotalIsResidual(c, w, k, c.procs);
    RowsTile(c, 0);
  }

  lemma StepKeepsInv(c: Config, w: World, k: nat, a: Action)
    requires Inv(c, w, k) && Enabled(c, w, a) && c.procs >= 2
    ensures Shaped(c, w) && Inv(c, Apply(c, w, a), if a == AllReduce then k + 1 else k)
  {
    hide Inv, Enabled, Apply, Shaped;
    match a
    case Relax(r) => RelaxStep(c, w, k, r);
    case Exchange(r) => ExchangeStep(c, w, k, r);
    case Copy(r) => CopyStep(c, w, k, r);
    case AllReduce => AllReduceStep(c, w, k);
    case Test(r) => TestStep(c, w, k, r);
  }

  // ---------- whole runs ----------

  predicate Runs(c: Config, w: World, steps: seq<Action>)
    decreases |steps|
  {
    steps == [] || (Shaped(c, w) && Enabled(c, w, steps[0]) && Runs(c, Apply(c, w, steps[0]), steps[1..]))
  }

  function Exec(c: Config, w: World, steps: seq<Action>): World
    requires Runs(c, w, steps)
    decreases |steps|
  {
    if steps == [] then w else Exec(c, Apply(c, w, steps[0]), steps[1..])
  }

  /** The completed allreduces. */
  function Rounds(steps: seq<Action>): nat {
    if steps == [] then 0 else Rounds(steps[1..]) + if steps[0] == AllReduce then 1 else 0
  }

  lemma {:induction false} RunKeepsInv(c: Config, w: World, k: nat, steps: seq<Action>)
    requires c.procs >= 2 && Inv(c, w, k) && Runs(c, w, steps)
    ensures Inv(c, Exec(c, w, steps), k + Rounds(steps))
    decreases |steps|
  {
    hide Inv, Enabled, Apply, Shaped;
    if steps != [] {
      StepKeepsInv(c, w, k, steps[0]);
      RunKeepsInv(c, Apply(c, w, steps[0]), if steps[0] == AllReduce then k + 1 else k, steps[1..]);
    }
  }

  lemma ReachableInv(c: Config, steps: seq<Action>)
    requires c.procs >= 2 && Runs(c, Initial(c), steps)
    ensures Inv(c, Exec(c, Initial(c), steps), Rounds(steps))
    ensures |Exec(c, Initial(c), steps)| == c.procs && Shaped(c, Exec(c, Initial(c), steps))
  {
    hide Runs, Exec, Initial, Shaped, RankOk, RightDone, LeftDone, Stops;
    InitialInv(c);
    RunKeepsInv(c, Initial(c), 0, steps);
    InvShaped(c, Exec(c, Initial(c), steps), Rounds(steps));
  }

  /** In every reachable state, after any interleaving, every rank that starts an iteration holds in both of its
      matrices the rows of the sequential grid of as many iterations: its own rows and its bottom halo exactly,
      its top halo up to its lag, which is none for ranks up to `n`. */
  lemma DistributedMatchesSequential(c: Config, steps: seq<Action>, r: nat)
    requires c.procs >= 2 && Runs(c, Initial(c), steps) && r < c.procs
    ensures var w := Exec(c, Initial(c), steps);
            |w| == c.procs && (w[r].pc == Compute ==>
              && w[r].iter == Rounds(steps)
              && Current(c, w[r].u, r, w[r].iter) && Current(c, w[r].uhelp, r, w[r].iter))
  {
    hide Runs, Exec, Initial, Inv, Shaped, Global, Stops, Current, Rows, First, Height;
    ReachableInv(c, steps);
    InvRank(c, Exec(c, Initial(c), steps), Rounds(steps), r);
  }

  /** Termination is agreed on: when any rank has left the loop, none is in a later or earlier iteration, every
      other rank is about to leave with the same residual, and the sequential run leaves after as many. */
  lemma AllStopTogether(c: Config, steps: seq<Action>, r: nat, q: nat)
    requires c.procs >= 2 && Runs(c, Initial(c), steps) && r < c.procs && q < c.procs
    ensures var w := Exec(c, Initial(c), steps);
            |w| == c.procs && (w[r].pc == Finished ==>
              && FirstStop(c, Rounds(steps)) && w[r].iter == w[q].iter == Rounds(steps)
              && (w[q].pc == Finished || w[q].pc == Decide || w[q].pc == CopyLate)
              && w[q].residual == Residual(c, Rounds(steps)) && Enough(c, w[q].iter, w[q].residual))
  {
    hide Runs, Exec, Initial, Inv, Shaped, Global, Current, Rows, First, Height, Holds, Residual, Enough, IsGrid;
    ReachableInv(c, steps);
    var w, k := Exec(c, Initial(c), steps), Rounds(steps);
    InvRank(c, w, k, r);
    InvRank(c, w, k, q);
    NoEarlierStop(c, w, k);
  }

  lemma NoEarlierStop(c: Config, w: World, k: nat)
    requires Inv(c, w, k)
    ensures forall j: nat :: j < k ==> !Stops(c, j)
  {
    hide Stops, RankOk, IsGrid, Height;
  }

  // ---------- progress ----------

  /** Among ranks that wait to exchange, some neighbours wait for each other. */
  lemma {:induction false} MatchingPair(c: Config, w: World, k: nat, r: nat) returns (left: nat)
    requires c.procs >= 2 && Inv(c, w, k) && r < c.procs && (w[r].pc == SendRight || w[r].pc == SendLeft)
    requires forall q :: 0 <= q < c.procs ==> w[q].pc == SendRight || w[q].pc == SendLeft || w[q].pc == Reduce
    ensures Enabled(c, w, Exchange(left))
    decreases c.procs - r
  {
    hide Global, Stops, Current, Holds, Rows, First, Height;
    InvRank(c, w, k, r);
    if w[r].pc == SendLeft {
      left := r - 1;
      InvRank(c, w, k, left);
      assert RightDone(left, w[left].pc) == LeftDone(w[left + 1].pc);
    } else {
      assert RightDone(r, w[r].pc) == LeftDone(w[r + 1].pc);
      if w[r + 1].pc == SendLeft { left := r; } else { left := MatchingPair(c, w, k, r + 1); }
    }
  }

  /** No deadlock: as long as some rank has not left the loop, some step is possible. */
  lemma SomeStepEnabled(c: Config, w: World, k: nat) returns (a: Action)
    requires c.procs >= 2 && Inv(c, w, k) && exists r :: 0 <= r < c.procs && w[r].pc != Finished
    ensures Enabled(c, w, a)
    ensures a == AllReduce ==> forall r :: 0 <= r < c.procs ==> w[r].pc == Reduce
  {
    hide Inv, Global, Stops, Current, Holds, Rows, First, Height, IsGrid, RankOk;
    InvRank(c, w, k, 0);
    if r :| 0 <= r < c.procs && w[r].pc == Compute { return Relax(r); }
    if r :| 0 <= r < c.procs && (w[r].pc == CopyBack || w[r].pc == CopyLate) { return Copy(r); }
    if r :| 0 <= r < c.procs && w[r].pc == Decide { return Test(r); }
    var s :| 0 <= s < c.procs && w[s].pc != Finished;
    forall q | 0 <= q < c.procs ensures w[q].pc == SendRight || w[q].pc == SendLeft || w[q].pc == Reduce {
      if w[q].pc == Finished { StopIsShared(c, w, k, s, q); }
    }
    if r :| 0 <= r < c.procs && w[r].pc != Reduce {
      var left := MatchingPair(c, w, k, r);
      return Exchange(left);
    }
    return AllReduce;
  }

  /** A rank inside a round and a rank out of the loop do not meet. */
  lemma StopIsShared(c: Config, w: World, k: nat, s: nat, q: nat)
    requires Inv(c, w, k) && s < c.procs && q < c.procs && w[q].pc == Finished
    ensures w[s].pc == Finished || w[s].pc == Decide || w[s].pc == CopyLate
  {
    hide Inv, Global, Stops, Current, Holds, Rows, First, Height, IsGrid;
    InvRank(c, w, k, s);
    InvRank(c, w, k, q);
  }

  /** With a single rank the master's exchange names rank 1, which does not exist, and nothing can move.  MPI calls
      that an error rather than a wait; either way the run ends without a result. */
  lemma SingleRankIsStuck(c: Config)
    requires c.procs == 1
    ensures Runs(c, Initial(c), [Relax(0)])
    ensures SomeRankInLoop(Exec(c, Initial(c), [Relax(0)]))
    ensures forall a :: !Enabled(c, Exec(c, Initial(c), [Relax(0)]), a)
  {
    hide Slice, Sweep, ChangeSum, First, Rows, IsGrid;
    var w := Initial(c);
    assert w[0] == Rank(Compute, Slice(c, c.start, 0), Slice(c, c.start, 0), 0, 0.0);
    assert Shaped(c, w) && Enabled(c, w, Relax(0));
    var w1 := Apply(c, w, Relax(0));
    assert w1[0].pc == SendRight;
    assert [Relax(0)][1..] == [];
    assert Exec(c, w, [Relax(0)]) == w1;
    forall a ensures !Enabled(c, w1, a) {}
  }

  /** Whatever the schedule so far, some step is possible until every rank has left the loop. */
  ghost predicate DeadlockFree(c: Config) {
    forall steps :: Runs(c, Initial(c), steps) && SomeRankInLoop(Exec(c, Initial(c), steps)) ==>
                      exists a :: Enabled(c, Exec(c, Initial(c), steps), a)
  }

  predicate SomeRankInLoop(w: World) {
    exists r :: 0 <= r < |w| && w[r].pc != Finished
  }

  /** A step is possible until all ranks have left the loop if and only if there are at least two ranks.  The single
      rank that cannot go on has named a rank outside its communicator, so MPI would report an invalid rank. */
  lemma DeadlockFreeExactly(c: Config)
    ensures DeadlockFree(c) <==> c.procs >= 2
  {
    hide Runs, Exec, Initial, Inv, Shaped, Enabled;
    if c.procs == 1 {
      SingleRankIsStuck(c);
    } else {
      forall steps | Runs(c, Initial(c), steps) && SomeRankInLoop(Exec(c, Initial(c), steps))
        ensures exists a :: Enabled(c, Exec(c, Initial(c), steps), a)
      {
        ReachableInv(c, steps);
        var a := SomeStepEnabled(c, Exec(c, Initial(c), steps), Rounds(steps));
      }
    }
  }

  /** The steps rank and pc still allow before the next allreduce. */
  function StepsLeft(pc: Pc): nat {
    match pc
    case CopyLate => 6
    case Decide => 5
    case Compute => 4
    case SendRight => 3
    case SendLeft => 2
    case CopyBack => 1
    case _ => 0
  }

  function Work(w: World, p: nat): nat
    requires p <= |w|
  {
    if p == 0 then 0 else Work(w, p - 1) + StepsLeft(w[p - 1].pc)
  }

  lemma {:induction false} WorkUpdate(w: World, r: nat, x: Rank, p: nat)
    requires r < |w| && p <= |w|
    ensures Work(w[r := x], p) == Work(w, p) + if r < p then StepsLeft(x.pc) - StepsLeft(w[r].pc) else 0
  {
    if p > 0 { WorkUpdate(w, r, x, p - 1); }
  }

  lemma {:induction false} WorkOfStart(w: World, p: nat)
    requires p <= |w| && forall r :: 0 <= r < p ==> w[r].pc == Compute
    ensures Work(w, p) == 4 * p
  {
    if p > 0 { WorkOfStart(w, p - 1); }
  }

  /** The allreduce brings every rank five steps. */
  lemma {:induction false} WorkOfReduced(w: World, w': World, p: nat)
    requires p <= |w| <= |w'|
    requires forall r :: 0 <= r < p ==> StepsLeft(w'[r].pc) == StepsLeft(w[r].pc) + 5
    ensures Work(w', p) == Work(w, p) + 5 * p
  {
    if p > 0 { WorkOfReduced(w, w', p - 1); }
  }

  /** An exchange uses up a step of each partner. */
  lemma ExchangeUsesWork(w: World, r: nat, x: Rank, y: Rank)
    requires r + 1 < |w|
    requires StepsLeft(x.pc) < StepsLeft(w[r].pc) && StepsLeft(y.pc) < StepsLeft(w[r + 1].pc)
    ensures Work(w[r := x][r + 1 := y], |w|) + 2 <= Work(w, |w|)
  {
    hide Work, StepsLeft;
    WorkUpdate(w, r, x, |w|);
    WorkUpdate(w[r := x], r + 1, y, |w|);
  }

  lemma ReduceBringsWork(c: Config, w: World)
    requires Shaped(c, w) && Enabled(c, w, AllReduce)
    ensures Work(Apply(c, w, AllReduce), c.procs) == Work(w, c.procs) + 5 * c.procs
  {
    hide Work, Total, IsGrid, Height;
    WorkOfReduced(w, Apply(c, w, AllReduce), c.procs);
  }

  /** Every step but the allreduce uses up work; the allreduce brings in five steps a rank. */
  lemma StepUsesWork(c: Config, w: World, a: Action)
    requires Shaped(c, w) && Enabled(c, w, a)
    ensures Work(Apply(c, w, a), c.procs) + 1 <= Work(w, c.procs) + if a == AllReduce then 5 * c.procs + 1 else 0
  {
    hide Sweep, ChangeSum, Rows, Height, Work, Total;
    match a
    case Relax(r) => WorkUpdate(w, r, Relaxed(c, w[r], r), c.procs);
    case Exchange(r) =>
      ExchangeUsesWork(w, r, FromRight(c, w[r], r, w[r + 1].uhelp[1]),
                       FromLeft(c, w[r + 1], r + 1, w[r].uhelp[Rows(c, r)]));
    case Copy(r) => WorkUpdate(w, r, Copied(c, w[r], r), c.procs);
    case AllReduce => ReduceBringsWork(c, w);
    case Test(r) => WorkUpdate(w, r, Tested(c, w[r]), c.procs);
  }

  lemma {:induction false} RunUsesWork(c: Config, w: World, steps: seq<Action>)
    requires |w| == c.procs && Runs(c, w, steps)
    ensures |Exec(c, w, steps)| == c.procs
    ensures |steps| + Work(Exec(c, w, steps), c.procs) <= Work(w, c.procs) + (5 * c.procs + 1) * Rounds(steps)
    decreases |steps|
  {
    hide Work, Enabled, Apply, Shaped;
    if steps != [] {
      StepUsesWork(c, w, steps[0]);
      RunUsesWork(c, Apply(c, w, steps[0]), steps[1..]);
      Distribute(5 * c.procs + 1, Rounds(steps[1..]), if steps[0] == AllReduce then 1 else 0);
    }
  }

  lemma Distribute(a: nat, x: nat, y: nat)
    ensures a * (x + y) == a * x + a * y
  {}

  /** Every schedule of the ranks is finite: it has at most (5p+1)k + 4p steps, k of them allreduces, where k is the
      number of iterations of the sequential solver. */
  lemma EveryScheduleIsFinite(c: Config, steps: seq<Action>)
    requires c.procs >= 2 && Runs(c, Initial(c), steps)
    ensures Rounds(steps) <= Iterations(c)
    ensures |steps| <= (5 * c.procs + 1) * Iterations(c) + 4 * c.procs
  {
    hide Runs, Exec, Inv, Shaped, Stops, Work, Slice;
    var k := Iterations(c);
    ReachableInv(c, steps);
    NoEarlierStop(c, Exec(c, Initial(c), steps), Rounds(steps));
    RunUsesWork(c, Initial(c), steps);
    WorkOfStart(Initial(c), c.procs);
    Distribute(5 * c.procs + 1, Rounds(steps), k - Rounds(steps));
  }

  // ---------- gathering the result ----------

  /** `MPI_Recv` of rank `r`'s own rows into their place in the master's matrix. */
  function Received(c: Config, g: Grid, u: Grid, r: nat): (g': Grid)
    requires r < c.procs && |g| == c.n + 2 && |u| == Height(c, r)
    ensures |g'| == c.n + 2
  {
    RowsTile(c, r);
    g[..First(c, r)] + u[1..Rows(c, r) + 1] + g[First(c, r + 1)..]
  }

  /** The master's matrix after receiving the rows of the first `p` ranks; its own are already in place. */
  function Gathered(c: Config, w: World, p: nat): (g: Grid)
    requires Shaped(c, w) && p <= c.procs
    ensures |g| == c.n + 2
  {
    if p <= 1 then w[0].u else Received(c, Gathered(c, w, p - 1), w[p - 1].u, p - 1)
  }

  lemma ReceivedRows(c: Config, g: Grid, u: Grid, r: nat, k: nat)
    requires 1 <= r < c.procs && |g| == c.n + 2 && Current(c, u, r, k)
    requires forall i :: 0 <= i < First(c, r) && i < c.n + 2 ==> g[i] == Global(c, k)[i]
    ensures |u| == Height(c, r) && First(c, r + 1) <= c.n + 1
    ensures forall i :: 0 <= i < First(c, r + 1) ==> Received(c, g, u, r)[i] == Global(c, k)[i]
    ensures Received(c, g, u, r)[c.n + 1] == g[c.n + 1]
  {
    hide Global, Rows, First, Height;
    RowsTile(c, r);
    var g', lo := Received(c, g, u, r), First(c, r);
    forall i | 0 <= i < First(c, r + 1) ensures g'[i] == Global(c, k)[i] {
      if i >= lo { CurrentRow(c, u, r, k, i - lo + 1); }
    }
  }

  lemma {:induction false} GatheredRows(c: Config, w: World, k: nat, p: nat)
    requires Shaped(c, w) && 1 <= p <= c.procs
    requires forall r :: 0 <= r < c.procs ==> Current(c, w[r].u, r, k)
    ensures First(c, p) <= c.n + 1
    ensures forall i :: 0 <= i < First(c, p) ==> Gathered(c, w, p)[i] == Global(c, k)[i]
    ensures Gathered(c, w, p)[c.n + 1] == c.start[c.n + 1]
  {
    hide Global, Rows, First, Height, IsGrid, Current, Received;
    RowsTile(c, p - 1);
    assert Current(c, w[p - 1].u, p - 1, k);
    if p == 1 {
      MasterRows(c, w[0].u, k);
    } else {
      GatheredRows(c, w, k, p - 1);
      ReceivedRows(c, Gathered(c, w, p - 1), w[p - 1].u, p - 1, k);
    }
  }

  lemma MasterRows(c: Config, g: Grid, k: nat)
    requires Current(c, g, 0, k)
    ensures |g| == c.n + 2 && First(c, 1) <= c.n + 1
    ensures forall i :: 0 <= i < First(c, 1) ==> g[i] == Global(c, k)[i]
    ensures g[c.n + 1] == c.start[c.n + 1]
  {
    hide Global, Rows;
    RowsTile(c, 0);
    BorderStays(c, k);
    forall i | 0 <= i < First(c, 1) ensures g[i] == Global(c, k)[i] { CurrentRow(c, g, 0, k, i); }
    if First(c, 1) == c.n + 1 { CurrentRow(c, g, 0, k, c.n + 1); }
  }

  /** Whatever the schedule, when no step is left every rank has left the loop after the same
      number of iterations as the sequential solver, with the same residual, and the gathered grid is the
      sequential one. */
  lemma EveryRunEndsLikeSequential(c: Config, steps: seq<Action>)
    requires c.procs >= 2 && Runs(c, Initial(c), steps)
    requires forall a :: !Enabled(c, Exec(c, Initial(c), steps), a)
    ensures var w, k := Exec(c, Initial(c), steps), Rounds(steps);
            && Shaped(c, w) && FirstStop(c, k)
            && (forall r :: 0 <= r < c.procs ==>
                  w[r].pc == Finished && w[r].iter == k && w[r].residual == Residual(c, k))
            && Gathered(c, w, c.procs) == Global(c, k)
  {
    hide Runs, Exec, Initial, Inv, Shaped, Enabled, Gathered;
    hide Global, Current, Rows, First, Height, Residual, Enough, IsGrid;
    ReachableInv(c, steps);
    var w, k := Exec(c, Initial(c), steps), Rounds(steps);
    if r :| 0 <= r < c.procs && w[r].pc != Finished {
      var a := SomeStepEnabled(c, w, k);
    }
    forall r | 0 <= r < c.procs
      ensures Stops(c, k) && w[r].iter == k && w[r].residual == Residual(c, k) && Current(c, w[r].u, r, k)
    {
      InvRank(c, w, k, r);
    }
    assert Current(c, w[0].u, 0, k);
    NoEarlierStop(c, w, k);
    GatheredAll(c, w, k);
  }

  lemma {:induction false} RunExtends(c: Config, w: World, steps: seq<Action>, a: Action)
    requires Runs(c, w, steps) && Shaped(c, Exec(c, w, steps)) && Enabled(c, Exec(c, w, steps), a)
    ensures Runs(c, w, steps + [a])
    decreases |steps|
  {
    hide Shaped, Enabled, Apply;
    if steps == [] {
      assert [a][1..] == [];
      assert [] + [a] == [a];
    } else {
      RunExtends(c, Apply(c, w, steps[0]), steps[1..], a);
      assert (steps + [a])[1..] == steps[1..] + [a];
    }
  }

  /** The main result.  Every run, whatever its schedule so far, goes on to an end, and at the end every rank has left
      the loop after as many iterations as the sequential solver, with the same residual, and the gathered grid is
      the sequential one. */
  lemma {:induction false} EveryRunCompletes(c: Config, steps: seq<Action>) returns (all: seq<Action>)
    requires c.procs >= 2 && Runs(c, Initial(c), steps)
    ensures steps <= all && Runs(c, Initial(c), all) && Rounds(all) == Iterations(c)
    ensures var w, k := Exec(c, Initial(c), all), Iterations(c);
            && Shaped(c, w)
            && (forall r :: 0 <= r < c.procs ==>
                  w[r].pc == Finished && w[r].iter == k && w[r].residual == Residual(c, k))
            && Gathered(c, w, c.procs) == Global(c, k)
    ensures var k, limit := Iterations(c), c.maxiter;
            && k >= 1 && k % 10 == 0 && (Residual(c, k) < 0.00005 || (limit > 0 && k >= limit))
            && (forall j: nat :: 1 <= j < k && j % 10 == 0 ==> Residual(c, j) >= 0.00005 && (limit == 0 || j < limit))
            && (limit > 0 ==> k <= limit + 9)
    decreases (5 * c.procs + 1) * Iterations(c) + 4 * c.procs - |steps|
  {
    hide Runs, Exec, Initial, Shaped, Enabled, Gathered, Global, Residual, Stops, Enough;
    IterationsExactly(c, Iterations(c));
    if c.maxiter > 0 { LimitIsKept(c); }
    EveryScheduleIsFinite(c, steps);
    ReachableInv(c, steps);
    if a :| Enabled(c, Exec(c, Initial(c), steps), a) {
      RunExtends(c, Initial(c), steps, a);
      EveryScheduleIsFinite(c, steps + [a]);
      all := EveryRunCompletes(c, steps + [a]);
    } else {
      all := steps;
      EveryRunEndsLikeSequential(c, steps);
      OneFirstStop(c, Rounds(steps), Iterations(c));
    }
  }

  lemma OneFirstStop(c: Config, j: nat, k: nat)
    requires FirstStop(c, j) && FirstStop(c, k)
    ensures j == k
  {
    hide Stops;
  }

  lemma GatheredAll(c: Config, w: World, k: nat)
    requires Shaped(c, w) && forall r :: 0 <= r < c.procs ==> Current(c, w[r].u, r, k)
    ensures Gathered(c, w, c.procs) == Global(c, k)
  {
    hide Current, Gathered, Global, Rows, First, Height, Shaped;
    GatheredRows(c, w, k, c.procs);
    RowsTile(c, 0);
    BorderStays(c, k);
  }

  /** Both ends of rank `i`'s range, as the loops recompute them. */
  lemma RangeOf(c: Config, i: nat)
    requires i < c.procs
    ensures First(c, i + 1) == First(c, i) + c.n / c.procs + (if i < c.n % c.procs then 1 else 0) <= c.n + 1
    ensures First(c, i + 1) - First(c, i) == Rows(c, i) <= Height(c, i) - 2
  {
    hide First, Height;
    RowsTile(c, i);
  }

  /** The receive loop after the iterations, with the row ranges recomputed as in the distribution. */
  method GatherRows(c: Config, w: World) returns (g: Grid)
    requires Shaped(c, w)
    ensures g == Gathered(c, w, c.procs)
  {
    hide Height, First, Rows;
    var firstRow: int := 1;
    RowsTile(c, 0);
    g := w[0].u;
    for i := 0 to c.procs
      invariant firstRow == First(c, i) && g == Gathered(c, w, i)
    {
      RangeOf(c, i);
      var lastRow := firstRow + c.n / c.procs - 1;
      lastRow := if i < c.n % c.procs then lastRow + 1 else lastRow;
      if i > 0 {
        var rows := lastRow - firstRow + 1;
        g := g[..firstRow] + w[i].u[1..rows + 1] + g[lastRow + 1..];
      }
      firstRow := lastRow + 1;
    }
  }

  // ---------- when every halo row is up to date ----------

  /** Rows 0 to Rows+1 of `g` are the rows of the sequential grid after `k` iterations that rank `r` was sent. */
  predicate IsSliceAt(c: Config, g: Grid, r: nat, k: nat)
    requires r < c.procs
  {
    |g| == Height(c, r) && forall i :: 0 <= i < Rows(c, r) + 2 ==> RowIs(c, g, r, i, k)
  }

  predicate StartsWithSlice(c: Config, w: World, r: nat) {
    r < c.procs == |w|
    && (w[r].pc == Compute ==> IsSliceAt(c, w[r].u, r, w[r].iter) && IsSliceAt(c, w[r].uhelp, r, w[r].iter))
  }

  /** After any interleaving, every rank that starts an iteration holds in both matrices its slice of the sequential
      grid after as many iterations, halo rows included. */
  ghost predicate SlicesUpToDate(c: Config) {
    forall steps, r: nat :: Runs(c, Initial(c), steps) && r < c.procs ==>
                              StartsWithSlice(c, Exec(c, Initial(c), steps), r)
  }

  lemma {:induction false} NothingCovered(c: Config, k: nat)
    requires c.n < 6
    ensures Global(c, k) == c.start
  {
    if k > 0 {
      NothingCovered(c, k - 1);
      assert LastColumn(c.n + 2) < 1;
      SameCells(Global(c, k), c.start, c.n + 2, c.n + 2);
    }
  }

  /** A cold grid with one warm cell below the last interior row. */
  function WarmBelow(n: nat): (g: Grid)
    ensures IsGrid(g, n + 2, n + 2)
  {
    seq(n + 2, i => seq(n + 2, j => if i == n + 1 && j == 1 then 4.0 else 0.0))
  }

  /** The warmth enters row `n` in the first iteration, once the grid is wide enough to be swept at all. */
  lemma WarmthEnters(c: Config)
    requires c.n >= 6 && c.start == WarmBelow(c.n)
    ensures Global(c, 1)[c.n][1] == 1.0 && Global(c, 0)[c.n][1] == 0.0
  {
    hide Sweep, SquaredChange, RowUpdate, PartialRow;
    assert Global(c, 0) == c.start;
    NextGlobal(c, 0);
    SweepCell(c.start, c.start, c.n + 2, c.n + 2, c.n, 1);
    var mid, below := c.start[c.n], c.start[c.n + 1];
    assert mid[0] == mid[2] == c.start[c.n - 1][1] == 0.0 && below[1] == 4.0;
  }

  /** A current matrix is a slice when its top halo does not lag or never changes. */
  lemma CurrentIsSlice(c: Config, g: Grid, r: nat, k: nat)
    requires r < c.procs && Current(c, g, r, k) && (c.n < 6 || r <= c.n)
    ensures IsSliceAt(c, g, r, k)
  {
    hide Global, First, Rows, Height;
    HeldGrid(c, g, r, k, k, k);
    if c.n < 6 {
      NothingCovered(c, k);
      NothingCovered(c, Lag(c, r, k));
    }
    assert RowIs(c, g, r, 0, k);
  }

  /** A single rank starts its first iteration and no other. */
  lemma SingleRankStartsOnce(c: Config, steps: seq<Action>)
    requires c.procs == 1 && Runs(c, Initial(c), steps) && steps != []
    ensures |Exec(c, Initial(c), steps)| == 1 && Exec(c, Initial(c), steps)[0].pc != Compute
  {
    hide Slice, Sweep, ChangeSum, First, Rows, IsGrid;
    SingleRankIsStuck(c);
    var w := Initial(c);
    assert w[0] == Rank(Compute, Slice(c, c.start, 0), Slice(c, c.start, 0), 0, 0.0);
    assert steps[0] == Relax(0);
    assert steps[1..] == [];
  }

  lemma FewRanksAreUpToDate(c: Config, steps: seq<Action>, r: nat)
    requires c.n < 6 || c.procs <= c.n + 1
    requires Runs(c, Initial(c), steps) && r < c.procs
    ensures StartsWithSlice(c, Exec(c, Initial(c), steps), r)
  {
    hide Current, IsSliceAt, Slice, Shaped, Apply, Enabled;
    var w := Exec(c, Initial(c), steps);
    if c.procs >= 2 {
      DistributedMatchesSequential(c, steps, r);
      if w[r].pc == Compute {
        CurrentIsSlice(c, w[r].u, r, w[r].iter);
        CurrentIsSlice(c, w[r].uhelp, r, w[r].iter);
      }
    } else if steps == [] {
      assert w == Initial(c);
      SliceIsCurrent(c, 0);
      CurrentIsSlice(c, w[0].u, 0, 0);
    } else {
      SingleRankStartsOnce(c, steps);
    }
  }

  /** From any state before the first allreduce there is a run that takes rank `r` to its second iteration. */
  lemma {:induction false} ReachesSecondIteration(c: Config, w: World, r: nat) returns (steps: seq<Action>)
    requires c.procs >= 2 && Inv(c, w, 0) && r < c.procs
    ensures Runs(c, w, steps)
    ensures |Exec(c, w, steps)| == c.procs && Exec(c, w, steps)[r].pc == Compute && Exec(c, w, steps)[r].iter == 1
    decreases Work(w, |w|)
  {
    hide Inv, Apply, Shaped, Work, RankOk;
    InvShaped(c, w, 0);
    NobodyFinished(c, w);
    var a := SomeStepEnabled(c, w, 0);
    StepKeepsInv(c, w, 0, a);
    StepUsesWork(c, w, a);
    var w' := Apply(c, w, a);
    if a == AllReduce {
      ReducedThenTested(c, w, r);
      steps := [AllReduce, Test(r)];
    } else {
      var rest := ReachesSecondIteration(c, w', r);
      steps := [a] + rest;
      assert steps[1..] == rest;
    }
  }

  lemma NobodyFinished(c: Config, w: World)
    requires Inv(c, w, 0)
    ensures |w| == c.procs && w[0].pc != Finished
  {
    hide Global, Rows, First, Height, Current, Holds, IsGrid, Residual;
    InvRank(c, w, 0, 0);
  }

  lemma ReducedThenTested(c: Config, w: World, r: nat)
    requires c.procs >= 2 && Inv(c, w, 0) && r < c.procs && forall q :: 0 <= q < c.procs ==> w[q].pc == Reduce
    ensures Runs(c, w, [AllReduce, Test(r)])
    ensures var w' := Exec(c, w, [AllReduce, Test(r)]);
            |w'| == c.procs && w'[r].pc == Compute && w'[r].iter == 1
  {
    hide Inv, Shaped, Global, Rows, First, Height, Current, Holds, IsGrid, Residual, Stops;
    InvShaped(c, w, 0);
    InvRank(c, w, 0, r);
    StepKeepsInv(c, w, 0, AllReduce);
    var w1 := Apply(c, w, AllReduce);
    InvShaped(c, w1, 1);
    assert w1[r].pc == Decide && w1[r].iter == 1;
    assert Enabled(c, w1, Test(r));
    assert [AllReduce, Test(r)][1..] == [Test(r)] && [Test(r)][1..] == [];
    assert Runs(c, Apply(c, w1, Test(r)), []);
    assert Runs(c, w1, [Test(r)]);
    assert Exec(c, w1, [Test(r)]) == Exec(c, Apply(c, w1, Test(r)), []);
    assert Exec(c, w, [AllReduce, Test(r)]) == Apply(c, w1, Test(r));
  }

  /** With more than n+1 ranks, rank n+1 starts its second iteration with the halo of the first. */
  lemma StaleHalo(c: Config)
    requires c.n >= 6 && c.procs > c.n + 1 && c.start == WarmBelow(c.n)
    ensures !SlicesUpToDate(c)
  {
    hide Runs, Exec, Initial, Inv, Global, First, Height, Rows, WarmBelow;
    var r := c.n + 1;
    InitialInv(c);
    var steps := ReachesSecondIteration(c, Initial(c), r);
    DistributedMatchesSequential(c, steps, r);
    var u := Exec(c, Initial(c), steps)[r].u;
    WarmthEnters(c);
    RowsTile(c, r);
    FirstClosedForm(c, r);
    SmallQuotient(c.n, c.procs);
    assert First(c, r) == c.n + 1;
    assert RowIs(c, u, r, 0, 0) && !RowIs(c, u, r, 0, 1);
    assert !StartsWithSlice(c, Exec(c, Initial(c), steps), r);
  }

  /** Every reachable rank starts every iteration with its slice of the sequential grid, for every starting grid,
      exactly when no rank lies beyond the first idle one or the grid is too narrow for any column block.  The
      gathered result is right either way. */
  lemma SlicesUpToDateExactly(n: nat, procs: nat, maxiter: nat)
    requires procs >= 1
    ensures (forall start: Grid :: IsGrid(start, n + 2, n + 2) ==> SlicesUpToDate(Config(n, procs, maxiter, start)))
            <==> (n < 6 || procs <= n + 1)
  {
    hide Runs, Exec, Initial, StartsWithSlice, WarmBelow, IsGrid;
    if n < 6 || procs <= n + 1 {
      forall start: Grid | IsGrid(start, n + 2, n + 2) ensures SlicesUpToDate(Config(n, procs, maxiter, start)) {
        var c := Config(n, procs, maxiter, start);
        forall steps, r: nat | Runs(c, Initial(c), steps) && r < procs
          ensures StartsWithSlice(c, Exec(c, Initial(c), steps), r)
        {
          FewRanksAreUpToDate(c, steps, r);
        }
      }
    } else {
      StaleHalo(Config(n, procs, maxiter, WarmBelow(n)));
    }
  }
}
