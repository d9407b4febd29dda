/** The clock alignment of src/common/timesync.c.

    Times are 64-bit words.  Every sum and difference wraps, signed or not, so a latency (INT64) is kept as its
    64-bit pattern; nothing below assumes that sums fit. */
module TimeSync {
  import opened Sequences

  const WRAP: nat := 0x1_0000_0000_0000_0000

  type U64 = t: nat | t < 0x1_0000_0000_0000_0000

  /** Sum and difference modulo 2^64. */
  function Add(a: U64, b: U64): U64 { if a + b < WRAP then a + b else a + b - WRAP }

  function Sub(a: U64, b: U64): U64 { if a >= b then a - b else a - b + WRAP }

  datatype Strategy = Node | Task | Default | NoSync

  datatype SyncInfo = SyncInfo(init: bool, initTime: U64, syncTime: U64, nodeId: nat)

  type Rows = seq<seq<SyncInfo>>
  type Latencies = seq<seq<U64>>

  // ---------- node identifiers ----------

  function Find(nodes: seq<string>, name: string): (i: nat)
    ensures i <= |nodes| && (i < |nodes| ==> nodes[i] == name) && (i == |nodes| ==> name !in nodes)
  {
    if nodes == [] || nodes[0] == name then 0 else 1 + Find(nodes[1..], name)
  }

  /** The list after looking `name` up; its identifier is Find in either list. */
  function WithNode(nodes: seq<string>, name: string): seq<string> {
    if Find(nodes, name) < |nodes| then nodes else nodes + [name]
  }

  function WithNodes(nodes: seq<string>, names: seq<string>): seq<string> {
    if names == [] then nodes else WithNode(WithNodes(nodes, names[..|names| - 1]), names[|names| - 1])
  }

  /** The identifier handed to the `k`-th of a run of lookups. */
  function IssuedId(nodes: seq<string>, names: seq<string>, k: nat): nat
    requires k < |names|
  {
    Find(WithNodes(nodes, names[..k]), names[k])
  }

  lemma {:induction false} WithNodesGrows(nodes: seq<string>, names: seq<string>, k: nat)
    requires Distinct(nodes) && k <= |names|
    ensures Distinct(WithNodes(nodes, names))
    ensures WithNodes(nodes, names[..k]) <= WithNodes(nodes, names)
  {
    if k == |names| {
      assert names[..k] == names;
    }
    if names != [] {
      var front := names[..|names| - 1];
      WithNodesGrows(nodes, front, if k < |names| then k else k - 1);
      if k < |names| { assert front[..k] == names[..k]; }
    }
  }

  lemma IssuedIdStays(nodes: seq<string>, names: seq<string>, k: nat)
    requires Distinct(nodes) && k < |names|
    ensures IssuedId(nodes, names, k) < |WithNodes(nodes, names)|
    ensures WithNodes(nodes, names)[IssuedId(nodes, names, k)] == names[k]
  {
    assert names[..k + 1][..k] == names[..k];
    WithNodesGrows(nodes, names, k + 1);
    var before, id := WithNodes(nodes, names[..k]), IssuedId(nodes, names, k);
    assert WithNodes(nodes, names[..k + 1]) == WithNode(before, names[k]);
    assert WithNode(before, names[k])[id] == names[k];
  }

  /** Equal identifiers go exactly to equal names, and an identifier keeps its meaning forever after. */
  lemma IdsMatchNames(nodes: seq<string>, names: seq<string>, j: nat, k: nat)
    requires Distinct(nodes) && j < |names| && k < |names|
    ensures IssuedId(nodes, names, j) == IssuedId(nodes, names, k) <==> names[j] == names[k]
    ensures IssuedId(nodes, names, j) < |WithNodes(nodes, names)|
    ensures WithNodes(nodes, names)[IssuedId(nodes, names, j)] == names[j]
  {
    IssuedIdStays(nodes, names, j);
    IssuedIdStays(nodes, names, k);
    WithNodesGrows(nodes, names, |names|);
  }

  // ---------- what the calculation yields ----------

  function Max(a: U64, b: U64): U64 { if a > b then a else b }

  function Min(a: U64, b: U64): U64 { if a < b then a else b }

  /** The latest sync point of an application. */
  function MaxSync(row: seq<SyncInfo>): U64 {
    if row == [] then 0 else Max(MaxSync(row[..|row| - 1]), row[|row| - 1].syncTime)
  }

  /** The latest sync point of an application on one node. */
  function MaxOnNode(row: seq<SyncInfo>, node: nat): U64 {
    if row == [] then 0
    else
      var rest, last := MaxOnNode(row[..|row| - 1], node), row[|row| - 1];
      if last.nodeId == node then Max(rest, last.syncTime) else rest
  }

  function MaxOfAll(rows: Rows): U64 {
    if rows == [] then 0 else Max(MaxOfAll(rows[..|rows| - 1]), MaxSync(rows[|rows| - 1]))
  }

  /** The instant to which the sync points of application `i` are moved. */
  function Target(rows: Rows, align: bool, i: nat): U64
    requires i < |rows|
  {
    if align then MaxOfAll(rows) else MaxSync(rows[i])
  }

  /** The shift that aligns sync points, before everything is moved to start at zero. */
  function Shift(strategy: Strategy, align: bool, rows: Rows, previous: Latencies, i: nat, j: nat): U64
    requires SameShape(rows, previous) && i < |rows| && j < |rows[i]|
  {
    match strategy
    case Task => Sub(Target(rows, align, i), rows[i][j].syncTime)
    case NoSync => previous[i][j]
    case _ => Sub(Target(rows, align, i), MaxOnNode(rows[i], rows[i][j].nodeId))
  }

  predicate SameShape(rows: Rows, table: Latencies) {
    |rows| == |table| && forall i :: 0 <= i < |rows| ==> |rows[i]| == |table[i]|
  }

  /** The whole table of shifts. */
  predicate AreShifts(strategy: Strategy, align: bool, rows: Rows, previous: Latencies, shifts: Latencies) {
    && SameShape(rows, previous) && SameShape(rows, shifts)
    && forall i, j :: 0 <= i < |rows| && 0 <= j < |rows[i]| ==>
         shifts[i][j] == Shift(strategy, align, rows, previous, i, j)
  }

  /** `m` is the least shifted first-event time over all applications and tasks. */
  ghost predicate IsLeastInit(rows: Rows, shifts: Latencies, m: U64) {
    && SameShape(rows, shifts)
    && (forall i, j :: 0 <= i < |rows| && 0 <= j < |rows[i]| ==> m <= Add(rows[i][j].initTime, shifts[i][j]))
    && (exists i, j :: 0 <= i < |rows| && 0 <= j < |rows[i]| && m == Add(rows[i][j].initTime, shifts[i][j]))
  }

  /** The outcome of a successful calculation. */
  ghost predicate Calculated(strategy: Strategy, align: bool, rows: Rows, previous: Latencies, latency: Latencies) {
    exists shifts, m :: Moved(strategy, align, rows, previous, shifts, m, latency)
  }

  ghost predicate Moved(strategy: Strategy, align: bool, rows: Rows, previous: Latencies, shifts: Latencies, m: U64,
                        latency: Latencies) {
    && AreShifts(strategy, align, rows, previous, shifts)
    && IsLeastInit(rows, shifts, m)
    && SameShape(rows, latency)
    && forall i, j :: 0 <= i < |rows| && 0 <= j < |rows[i]| ==> latency[i][j] == Sub(shifts[i][j], m)
  }

  /** Task (k, l) carries the latest sync point of its application `i`, or of all applications when aligned. */
  predicate IsLatest(rows: Rows, align: bool, i: nat, k: nat, l: nat)
    requires i < |rows| && k < |rows| && l < |rows[k]|
  {
    && (align || k == i)
    && forall p, q :: 0 <= p < |rows| && (align || p == i) && 0 <= q < |rows[p]| ==>
         rows[p][q].syncTime <= rows[k][l].syncTime
  }

  /** Task `p` carries the latest sync point of its application on the node of task `j`. */
  predicate IsLatestOnNode(row: seq<SyncInfo>, j: nat, p: nat)
    requires j < |row| && p < |row|
  {
    && row[p].nodeId == row[j].nodeId
    && forall q :: 0 <= q < |row| && row[q].nodeId == row[j].nodeId ==> row[q].syncTime <= row[p].syncTime
  }

  lemma SumsModulo(a: U64, b: U64)
    ensures Add(a, b) == (a + b) % WRAP && Sub(a, b) == (a - b) % WRAP
  {}

  lemma LatestIsTarget(rows: Rows, align: bool, i: nat, k: nat, l: nat)
    requires i < |rows| && k < |rows| && l < |rows[k]| && IsLatest(rows, align, i, k, l)
    ensures Target(rows, align, i) == rows[k][l].syncTime
  {
    MaxSyncIsMaximum(rows[i]);
    MaxOfAllIsMaximum(rows);
  }

  lemma {:induction false} MaxOfAllIsMaximum(rows: Rows)
    ensures forall p, q :: 0 <= p < |rows| && 0 <= q < |rows[p]| ==> rows[p][q].syncTime <= MaxOfAll(rows)
    ensures MaxOfAll(rows) == 0
            || exists p, q :: 0 <= p < |rows| && 0 <= q < |rows[p]| && rows[p][q].syncTime == MaxOfAll(rows)
  {
    if rows != [] {
      var front, last := rows[..|rows| - 1], |rows| - 1;
      MaxOfAllIsMaximum(front);
      MaxSyncIsMaximum(rows[last]);
      if p, q :| 0 <= p < |front| && 0 <= q < |front[p]| && front[p][q].syncTime == MaxOfAll(front) {
        assert rows[p][q] == front[p][q];
      }
    }
  }

  lemma LatestOnNodeIsMax(row: seq<SyncInfo>, j: nat, p: nat)
    requires j < |row| && p < |row| && IsLatestOnNode(row, j, p)
    ensures MaxOnNode(row, row[j].nodeId) == row[p].syncTime
  {
    MaxOnNodeIsMaximum(row, row[j].nodeId);
  }

  /** The shifts in plain numbers: per task the distance to the latest sync point, per node the distance from the node's
      latest one to it. */
  lemma TaskShift(align: bool, rows: Rows, previous: Latencies, i: nat, j: nat, k: nat, l: nat)
    requires SameShape(rows, previous) && i < |rows| && j < |rows[i]| && k < |rows| && l < |rows[k]|
    requires IsLatest(rows, align, i, k, l)
    ensures Shift(Task, align, rows, previous, i, j) == (rows[k][l].syncTime - rows[i][j].syncTime) % WRAP
  {
    hide Target;
    LatestIsTarget(rows, align, i, k, l);
    SumsModulo(rows[k][l].syncTime, rows[i][j].syncTime);
  }

  lemma NodeShift(strategy: Strategy, align: bool, rows: Rows, previous: Latencies, i: nat, j: nat,
                  k: nat, l: nat, p: nat)
    requires SameShape(rows, previous) && i < |rows| && j < |rows[i]| && p < |rows[i]| && k < |rows| && l < |rows[k]|
    requires strategy == Node || strategy == Default
    requires IsLatest(rows, align, i, k, l) && IsLatestOnNode(rows[i], j, p)
    ensures Shift(strategy, align, rows, previous, i, j) == (rows[k][l].syncTime - rows[i][p].syncTime) % WRAP
  {
    hide Target, MaxOnNode;
    LatestIsTarget(rows, align, i, k, l);
    LatestOnNodeIsMax(rows[i], j, p);
    SumsModulo(rows[k][l].syncTime, rows[i][p].syncTime);
  }

  lemma TaskShifts(align: bool, rows: Rows, previous: Latencies, shifts: Latencies)
    requires AreShifts(Task, align, rows, previous, shifts)
    ensures forall i: nat, j: nat, k: nat, l: nat ::
              i < |rows| && j < |rows[i]| && k < |rows| && l < |rows[k]| && IsLatest(rows, align, i, k, l) ==>
                shifts[i][j] == (rows[k][l].syncTime - rows[i][j].syncTime) % WRAP
  {
    hide Shift, IsLatest;
    forall i: nat, j: nat, k: nat, l: nat |
      i < |rows| && j < |rows[i]| && k < |rows| && l < |rows[k]| && IsLatest(rows, align, i, k, l)
      ensures shifts[i][j] == (rows[k][l].syncTime - rows[i][j].syncTime) % WRAP
    {
      TaskShift(align, rows, previous, i, j, k, l);
    }
  }

  lemma NodeShifts(strategy: Strategy, align: bool, rows: Rows, previous: Latencies, shifts: Latencies)
    requires AreShifts(strategy, align, rows, previous, shifts) && (strategy == Node || strategy == Default)
    ensures forall i: nat, j: nat, k: nat, l: nat, p: nat ::
              i < |rows| && j < |rows[i]| && k < |rows| && l < |rows[k]| && p < |rows[i]|
              && IsLatest(rows, align, i, k, l) && IsLatestOnNode(rows[i], j, p) ==>
                shifts[i][j] == (rows[k][l].syncTime - rows[i][p].syncTime) % WRAP
  {
    hide Shift, IsLatest, IsLatestOnNode;
    forall i: nat, j: nat, k: nat, l: nat, p: nat |
      i < |rows| && j < |rows[i]| && k < |rows| && l < |rows[k]| && p < |rows[i]|
      && IsLatest(rows, align, i, k, l) && IsLatestOnNode(rows[i], j, p)
      ensures shifts[i][j] == (rows[k][l].syncTime - rows[i][p].syncTime) % WRAP
    {
      NodeShift(strategy, align, rows, previous, i, j, k, l, p);
    }
  }

  /** TimeSync and TimeDesync of a task with latency `l`. */
  function Synchronized(l: U64, t: U64): U64 { Add(t, l) }

  function Desynchronized(l: U64, t: U64): U64 { Sub(t, l) }

  lemma WrapArithmetic(a: U64, b: U64, c: U64)
    ensures Add(a, Sub(b, c)) == Sub(Add(a, b), c)
    ensures Add(a, Sub(b, a)) == b
    ensures Sub(Add(a, b), b) == a && Add(Sub(a, b), b) == a
    ensures Sub(Add(a, c), Add(b, c)) == Sub(a, b)
  {}

  /** Desynchronizing undoes synchronizing on every 64-bit time, and the distance between two times of one task
      is not changed. */
  lemma SyncRoundTrip(l: U64, t: U64, t2: U64)
    ensures Desynchronized(l, Synchronized(l, t)) == t && Synchronized(l, Desynchronized(l, t)) == t
    ensures Sub(Synchronized(l, t), Synchronized(l, t2)) == Sub(t, t2)
  {
    WrapArithmetic(t, l, t);
    WrapArithmetic(t, t2, l);
  }

  /** Per-task strategy: all sync points of an application land on one instant, and with align_apps those of
      all applications do. */
  lemma TaskSyncPointsMeet(align: bool, rows: Rows, previous: Latencies, latency: Latencies,
                           i: nat, j: nat, i2: nat, j2: nat)
    requires Calculated(Task, align, rows, previous, latency)
    requires i < |rows| && j < |rows[i]| && i2 < |rows| && j2 < |rows[i2]|
    requires i == i2 || align
    ensures Synchronized(latency[i][j], rows[i][j].syncTime) == Synchronized(latency[i2][j2], rows[i2][j2].syncTime)
  {
    var shifts, m :| Moved(Task, align, rows, previous, shifts, m, latency);
    var t := Target(rows, align, i);
    assert t == Target(rows, align, i2);
    LandsOn(rows[i][j].syncTime, t, m);
    LandsOn(rows[i2][j2].syncTime, t, m);
  }

  lemma LandsOn(s: U64, t: U64, m: U64)
    ensures Add(s, Sub(Sub(t, s), m)) == Sub(t, m)
  {
    WrapArithmetic(s, Sub(t, s), m);
    WrapArithmetic(s, t, m);
  }

  /** Per-node strategies: tasks of an application on one node are shifted alike, and the latest sync points of
      its nodes land on one instant, over all applications when these are aligned. */
  lemma NodeSyncPointsMeet(strategy: Strategy, align: bool, rows: Rows, previous: Latencies, latency: Latencies,
                           i: nat, j: nat, i2: nat, j2: nat)
    requires strategy == Node || strategy == Default
    requires Calculated(strategy, align, rows, previous, latency)
    requires i < |rows| && j < |rows[i]| && i2 < |rows| && j2 < |rows[i2]|
    ensures i == i2 && rows[i][j].nodeId == rows[i2][j2].nodeId ==> latency[i][j] == latency[i2][j2]
    ensures i == i2 || align ==>
              Synchronized(latency[i][j], MaxOnNode(rows[i], rows[i][j].nodeId))
              == Synchronized(latency[i2][j2], MaxOnNode(rows[i2], rows[i2][j2].nodeId))
  {
    var shifts, m :| Moved(strategy, align, rows, previous, shifts, m, latency);
    if i == i2 || align {
      var t := Target(rows, align, i);
      assert t == Target(rows, align, i2);
      LandsOn(MaxOnNode(rows[i], rows[i][j].nodeId), t, m);
      LandsOn(MaxOnNode(rows[i2], rows[i2][j2].nodeId), t, m);
    }
  }

  /** The latest sync point on a node that runs any task is one of that node's tasks', and none is later. */
  lemma {:induction false} MaxOnNodeIsMaximum(row: seq<SyncInfo>, node: nat)
    ensures forall j :: 0 <= j < |row| && row[j].nodeId == node ==> row[j].syncTime <= MaxOnNode(row, node)
    ensures (exists j :: 0 <= j < |row| && row[j].nodeId == node && row[j].syncTime == MaxOnNode(row, node))
            || (MaxOnNode(row, node) == 0 && forall j :: 0 <= j < |row| ==> row[j].nodeId != node)
  {
    if row != [] {
      var front, last := row[..|row| - 1], row[|row| - 1];
      MaxOnNodeIsMaximum(front, node);
      if last.nodeId != node || last.syncTime < MaxOnNode(row, node) {
        if j :| 0 <= j < |front| && front[j].nodeId == node && front[j].syncTime == MaxOnNode(front, node) {
          assert row[j] == front[j];
        }
      } else {
        assert row[|row| - 1].syncTime == MaxOnNode(row, node);
      }
    }
  }

  /** `m` is what a calculation has taken off all shifts: the least shifted first event. */
  ghost predicate TakenOff(rows: Rows, latency: Latencies, m: U64)
    requires SameShape(rows, latency)
  {
    && (forall i, j :: 0 <= i < |rows| && 0 <= j < |rows[i]| ==>
          m <= (rows[i][j].initTime + (latency[i][j] + m) % WRAP) % WRAP)
    && (exists i, j :: 0 <= i < |rows| && 0 <= j < |rows[i]|
          && m == (rows[i][j].initTime + (latency[i][j] + m) % WRAP) % WRAP)
  }

  lemma ShiftBack(shift: U64, m: U64)
    ensures (Sub(shift, m) + m) % WRAP == shift
  {}

  lemma LeastIsTakenOff(rows: Rows, shifts: Latencies, latency: Latencies, m: U64)
    requires SameShape(rows, latency) && IsLeastInit(rows, shifts, m)
    requires forall i, j :: 0 <= i < |rows| && 0 <= j < |rows[i]| ==> latency[i][j] == Sub(shifts[i][j], m)
    ensures TakenOff(rows, latency, m)
  {
    hide Sub, Add;
    forall i, j | 0 <= i < |rows| && 0 <= j < |rows[i]|
      ensures (latency[i][j] + m) % WRAP == shifts[i][j]
              && Add(rows[i][j].initTime, shifts[i][j]) == (rows[i][j].initTime + (latency[i][j] + m) % WRAP) % WRAP
    {
      ShiftBack(shifts[i][j], m);
      SumsModulo(rows[i][j].initTime, shifts[i][j]);
    }
  }

  lemma Twice(a: int, m: int)
    ensures (a % WRAP - m) % WRAP == (a - m) % WRAP
  {}

  /** A calculation in plain numbers.  Per task, the latency is the distance to the latest sync point of the
      application, or of all when aligned; per node, the node's latest sync point takes the task's place; without
      synchronization the old latency does.  From all of them the least shifted first event, `m`, is taken off. */
  ghost predicate InNumbers(strategy: Strategy, align: bool, rows: Rows, previous: Latencies, latency: Latencies,
                            m: U64)
  {
    && SameShape(rows, previous) && SameShape(rows, latency) && TakenOff(rows, latency, m)
    && (strategy == Task ==> forall i: nat, j: nat, k: nat, l: nat ::
          i < |rows| && j < |rows[i]| && k < |rows| && l < |rows[k]| && IsLatest(rows, align, i, k, l) ==>
            latency[i][j] == (rows[k][l].syncTime - rows[i][j].syncTime - m) % WRAP)
    && (strategy == Node || strategy == Default ==> forall i: nat, j: nat, k: nat, l: nat, p: nat ::
          i < |rows| && j < |rows[i]| && k < |rows| && l < |rows[k]| && p < |rows[i]|
          && IsLatest(rows, align, i, k, l) && IsLatestOnNode(rows[i], j, p) ==>
            latency[i][j] == (rows[k][l].syncTime - rows[i][p].syncTime - m) % WRAP)
    && (strategy == NoSync ==> forall i, j ::
          0 <= i < |rows| && 0 <= j < |rows[i]| ==> latency[i][j] == (previous[i][j] - m) % WRAP)
  }

  lemma LatenciesInNumbers(strategy: Strategy, align: bool, rows: Rows, previous: Latencies, latency: Latencies)
    returns (m: U64)
    requires Calculated(strategy, align, rows, previous, latency)
    ensures InNumbers(strategy, align, rows, previous, latency, m)
  {
    hide Shift, IsLatest, IsLatestOnNode, Sub, TakenOff, IsLeastInit;
    var shifts;
    shifts, m :| Moved(strategy, align, rows, previous, shifts, m, latency);
    LeastIsTakenOff(rows, shifts, latency, m);
    forall i, j | 0 <= i < |rows| && 0 <= j < |rows[i]| ensures latency[i][j] == (shifts[i][j] - m) % WRAP {
      SumsModulo(shifts[i][j], m);
    }
    if strategy == Task {
      TaskShifts(align, rows, previous, shifts);
      forall i: nat, j: nat, k: nat, l: nat |
        i < |rows| && j < |rows[i]| && k < |rows| && l < |rows[k]| && IsLatest(rows, align, i, k, l)
        ensures latency[i][j] == (rows[k][l].syncTime - rows[i][j].syncTime - m) % WRAP
      {
        Twice(rows[k][l].syncTime - rows[i][j].syncTime, m);
      }
    } else if strategy == NoSync {
      NoSyncKeeps(align, rows, previous);
    } else {
      NodeShifts(strategy, align, rows, previous, shifts);
      forall i: nat, j: nat, k: nat, l: nat, p: nat |
        i < |rows| && j < |rows[i]| && k < |rows| && l < |rows[k]| && p < |rows[i]|
        && IsLatest(rows, align, i, k, l) && IsLatestOnNode(rows[i], j, p)
        ensures latency[i][j] == (rows[k][l].syncTime - rows[i][p].syncTime - m) % WRAP
      {
        Twice(rows[k][l].syncTime - rows[i][p].syncTime, m);
      }
    }
  }

  lemma NoSyncKeeps(align: bool, rows: Rows, previous: Latencies)
    requires SameShape(rows, previous)
    ensures forall i, j :: 0 <= i < |rows| && 0 <= j < |rows[i]| ==>
              Shift(NoSync, align, rows, previous, i, j) == previous[i][j]
  {}

  lemma OwnLatest(strategy: Strategy, align: bool, rows: Rows, i: nat, j: nat, l: nat)
    requires i < |rows| && j < |rows[i]| && l < |rows[i]|
    requires forall p, q :: 0 <= p < |rows| && (align || p == i) && 0 <= q < |rows[p]| ==>
               rows[p][q].syncTime <= rows[i][l].syncTime
    requires if strategy == Task then j == l else rows[i][j].nodeId == rows[i][l].nodeId
    ensures IsLatest(rows, align, i, i, l)
    ensures strategy != Task ==> IsLatestOnNode(rows[i], j, l)
  {}

  /** Applications that are not aligned are not moved against each other: tasks with the latest sync point of their
      application, or on the node that has it, get one latency. */
  lemma UnalignedLatestMoveAlike(strategy: Strategy, rows: Rows, previous: Latencies, latency: Latencies,
                                 i: nat, j: nat, l: nat, i2: nat, j2: nat, l2: nat)
    requires strategy != NoSync && Calculated(strategy, false, rows, previous, latency)
    requires i < |rows| && j < |rows[i]| && l < |rows[i]| && i2 < |rows| && j2 < |rows[i2]| && l2 < |rows[i2]|
    requires forall q :: 0 <= q < |rows[i]| ==> rows[i][q].syncTime <= rows[i][l].syncTime
    requires forall q :: 0 <= q < |rows[i2]| ==> rows[i2][q].syncTime <= rows[i2][l2].syncTime
    requires if strategy == Task then j == l && j2 == l2
             else rows[i][j].nodeId == rows[i][l].nodeId && rows[i2][j2].nodeId == rows[i2][l2].nodeId
    ensures SameShape(rows, latency) && latency[i][j] == latency[i2][j2]
  {
    var m := LatenciesInNumbers(strategy, false, rows, previous, latency);
    OwnLatest(strategy, false, rows, i, j, l);
    OwnLatest(strategy, false, rows, i2, j2, l2);
    hide Calculated, IsLatest, IsLatestOnNode, TakenOff;
    assert latency[i][j] == latency[i2][j2] == (0 - m) % WRAP;
  }

  /** When applications are aligned, a task with the latest sync point of all, or on the node that has it, is moved by
      nothing but the common amount that is taken off. */
  lemma AlignedLatestStays(strategy: Strategy, rows: Rows, previous: Latencies, latency: Latencies,
                           i: nat, j: nat, l: nat) returns (m: U64)
    requires strategy != NoSync && Calculated(strategy, true, rows, previous, latency)
    requires i < |rows| && j < |rows[i]| && l < |rows[i]|
    requires forall p, q :: 0 <= p < |rows| && 0 <= q < |rows[p]| ==> rows[p][q].syncTime <= rows[i][l].syncTime
    requires if strategy == Task then j == l else rows[i][j].nodeId == rows[i][l].nodeId
    ensures SameShape(rows, latency) && TakenOff(rows, latency, m) && latency[i][j] == (0 - m) % WRAP
  {
    m := LatenciesInNumbers(strategy, true, rows, previous, latency);
    OwnLatest(strategy, true, rows, i, j, l);
  }

  /** Whatever the strategy, the earliest first event is moved to exactly 0, and every other first event keeps
      its distance behind it without wrapping below zero. */
  lemma LeastInitBecomesZero(strategy: Strategy, align: bool, rows: Rows, previous: Latencies, latency: Latencies)
    returns (shifts: Latencies, m: U64, i0: nat, j0: nat)
    requires Calculated(strategy, align, rows, previous, latency)
    ensures AreShifts(strategy, align, rows, previous, shifts)
    ensures forall i, j :: 0 <= i < |rows| && 0 <= j < |rows[i]| ==>
              Synchronized(latency[i][j], rows[i][j].initTime) == Add(rows[i][j].initTime, shifts[i][j]) - m
    ensures i0 < |rows| && j0 < |rows[i0]| && Synchronized(latency[i0][j0], rows[i0][j0].initTime) == 0
  {
    shifts, m :| Moved(strategy, align, rows, previous, shifts, m, latency);
    i0, j0 :| 0 <= i0 < |rows| && 0 <= j0 < |rows[i0]| && m == Add(rows[i0][j0].initTime, shifts[i0][j0]);
    forall i, j | 0 <= i < |rows| && 0 <= j < |rows[i]|
      ensures Synchronized(latency[i][j], rows[i][j].initTime) == Add(rows[i][j].initTime, shifts[i][j]) - m
    {
      StaysAhead(rows[i][j].initTime, shifts[i][j], m);
    }
  }

  /** The distance between two synchronized first events is the true one exactly when adding its shift overflows 64
      bits for both or for neither. */
  lemma TrueDistanceExactly(strategy: Strategy, align: bool, rows: Rows, previous: Latencies, latency: Latencies,
                            i: nat, j: nat, i2: nat, j2: nat)
    requires Calculated(strategy, align, rows, previous, latency)
    requires i < |rows| && j < |rows[i]| && i2 < |rows| && j2 < |rows[i2]|
    ensures SameShape(rows, previous) && SameShape(rows, latency)
    ensures var a: nat := rows[i][j].initTime + Shift(strategy, align, rows, previous, i, j);
            var b: nat := rows[i2][j2].initTime + Shift(strategy, align, rows, previous, i2, j2);
            var x := Synchronized(latency[i][j], rows[i][j].initTime);
            var y := Synchronized(latency[i2][j2], rows[i2][j2].initTime);
            x - y == a - b <==> (a >= WRAP <==> b >= WRAP)
  {
    hide MaxOnNode, MaxSync, MaxOfAll, Target, Shift;
    var shifts, m, i0, j0 := LeastInitBecomesZero(strategy, align, rows, previous, latency);
    assert shifts[i][j] == Shift(strategy, align, rows, previous, i, j);
    assert shifts[i2][j2] == Shift(strategy, align, rows, previous, i2, j2);
  }

  /** A first event on the last instant of the clock, and one on the first with a sync point one tick later. */
  function Overflowing(): Rows {
    [[SyncInfo(true, 0xFFFF_FFFF_FFFF_FFFF, 0, 0), SyncInfo(true, 0, 1, 0)]]
  }

  /** Both first events come out at 0, though 2^64 ticks lie between them. */
  lemma DistanceGetsLost()
    ensures var rows := Overflowing();
            var latency: Latencies := [[1, 0]];
            && Calculated(Task, false, rows, [[0, 0]], latency)
            && Synchronized(latency[0][0], rows[0][0].initTime) == Synchronized(latency[0][1], rows[0][1].initTime) == 0
            && rows[0][0].initTime + Shift(Task, false, rows, [[0, 0]], 0, 0)
               == rows[0][1].initTime + Shift(Task, false, rows, [[0, 0]], 0, 1) + WRAP
  {
    var rows: Rows := Overflowing();
    var latency: Latencies, none: Latencies := [[1, 0]], [[0, 0]];
    assert rows[0][..1][..0] == [];
    assert MaxSync(rows[0][..1]) == 0;
    assert MaxSync(rows[0]) == 1;
    assert AreShifts(Task, false, rows, none, latency);
    assert Add(rows[0][0].initTime, latency[0][0]) == 0 && Add(rows[0][1].initTime, latency[0][1]) == 0;
    assert IsLeastInit(rows, latency, 0);
    assert Moved(Task, false, rows, none, latency, 0, latency);
  }

  lemma StaysAhead(t: U64, shift: U64, m: U64)
    requires m <= Add(t, shift)
    ensures Add(t, Sub(shift, m)) == Add(t, shift) - m
  {}

  // ---------- the module's state ----------

  lemma {:induction false} MaxOverNodes(row: seq<SyncInfo>, perNode: seq<U64>)
    requires forall j :: 0 <= j < |row| ==> row[j].nodeId < |perNode|
    requires forall n :: 0 <= n < |perNode| ==> perNode[n] == MaxOnNode(row, n)
    ensures MaxOf(perNode) == MaxSync(row)
  {
    MaxSyncIsMaximum(row);
    MaxOfIsMaximum(perNode);
    forall n | 0 <= n < |perNode| ensures perNode[n] <= MaxSync(row) { MaxOnNodeIsMaximum(row, n); }
    if j :| 0 <= j < |row| && row[j].syncTime == MaxSync(row) {
      MaxOnNodeIsMaximum(row, row[j].nodeId);
      assert perNode[row[j].nodeId] >= MaxSync(row);
    }
  }

  function MaxOf(values: seq<U64>): U64 {
    if values == [] then 0 else Max(MaxOf(values[..|values| - 1]), values[|values| - 1])
  }

  lemma {:induction false} MaxOfIsMaximum(values: seq<U64>)
    ensures forall j :: 0 <= j < |values| ==> values[j] <= MaxOf(values)
    ensures MaxOf(values) == 0 || exists j :: 0 <= j < |values| && values[j] == MaxOf(values)
  {
    if values != [] {
      var front := values[..|values| - 1];
      MaxOfIsMaximum(front);
      if j :| 0 <= j < |front| && front[j] == MaxOf(front) { assert values[j] == front[j]; }
      assert values[|values| - 1] <= MaxOf(values);
    }
  }

  lemma {:induction false} MaxSyncIsMaximum(row: seq<SyncInfo>)
    ensures forall j :: 0 <= j < |row| ==> row[j].syncTime <= MaxSync(row)
    ensures MaxSync(row) == 0 || exists j :: 0 <= j < |row| && row[j].syncTime == MaxSync(row)
  {
    if row != [] {
      var front := row[..|row| - 1];
      MaxSyncIsMaximum(front);
      if j :| 0 <= j < |front| && front[j].syncTime == MaxSync(front) { assert row[j] == front[j]; }
      assert row[|row| - 1].syncTime <= MaxSync(row);
    }
  }

  lemma {:induction false} MaxOfAllIsMax(rows: Rows, perApp: seq<U64>)
    requires |perApp| == |rows| && forall i :: 0 <= i < |rows| ==> perApp[i] == MaxSync(rows[i])
    ensures MaxOf(perApp) == MaxOfAll(rows)
  {
    if rows != [] { MaxOfAllIsMax(rows[..|rows| - 1], perApp[..|perApp| - 1]); }
  }

  class Tables {
    var latency: Latencies
    var info: Rows
    var nodes: seq<string>

    ghost predicate Valid()
      reads this
    {
      && SameShape(info, latency)
      && Distinct(nodes)
      && forall i, j :: 0 <= i < |info| && 0 <= j < |info[i]| && info[i][j].init ==> info[i][j].nodeId < |nodes|
    }

    ghost predicate AllInitialized()
      reads this
    {
      forall i, j :: 0 <= i < |info| && 0 <= j < |info[i]| ==> info[i][j].init
    }

    /** TimeSync_Initialize */
    constructor (numTasks: seq<nat>)
      ensures Valid() && |info| == |numTasks| && nodes == []
      ensures forall i :: 0 <= i < |info| ==> |info[i]| == numTasks[i]
      ensures forall i, j :: 0 <= i < |info| && 0 <= j < |info[i]| ==> !info[i][j].init && latency[i][j] == 0
    {
      nodes := [];
      info := seq(|numTasks|, i requires 0 <= i < |numTasks| => seq(numTasks[i], _ => SyncInfo(false, 0, 0, 0)));
      latency := seq(|numTasks|, i requires 0 <= i < |numTasks| => seq(numTasks[i], _ => 0));
    }

    /** Get_NodeId */
    method GetNodeId(name: string) returns (id: nat)
      requires Valid()
      modifies `nodes
      ensures Valid() && nodes == WithNode(old(nodes), name)
      ensures id == Find(old(nodes), name) == Find(nodes, name) && id < |nodes|
    {
      for i := 0 to |nodes|
        invariant Find(nodes, name) == i + Find(nodes[i..], name)
      {
        if name == nodes[i] { return i; }
        assert nodes[i..][1..] == nodes[i + 1..];
      }
      FindAppended(nodes, name);
      nodes := nodes + [name];
      id := |nodes| - 1;
    }

    /** TimeSync_SetInitialTime, for an application and task in range. */
    method SetInitialTime(app: nat, task: nat, initTime: U64, syncTime: U64, node: string)
      requires Valid() && app < |info| && task < |info[app]|
      modifies `info, `nodes
      ensures Valid() && nodes == WithNode(old(nodes), node)
      ensures info == old(info)[app := old(info)[app][task := SyncInfo(true, initTime, syncTime, Find(nodes, node))]]
    {
      var id := GetNodeId(node);
      info := info[app := info[app][task := SyncInfo(true, initTime, syncTime, id)]];
    }

    /** TimeSync_CalculateLatencies.  An uninitialized task makes it give up without touching the table. */
    method CalculateLatencies(strategy: Strategy, align: bool) returns (ok: bool)
      requires Valid() && |info| > 0 && |info[0]| > 0
      modifies `latency
      ensures Valid()
      ensures ok <==> AllInitialized()
      ensures ok ==> Calculated(strategy, align, info, old(latency), latency)
      ensures ok ==> exists m: U64 :: InNumbers(strategy, align, info, old(latency), latency, m)
      ensures !ok ==> latency == old(latency)
    {
      hide InNumbers;
      for i := 0 to |info|
        invariant forall k, j :: 0 <= k < i && 0 <= j < |info[k]| ==> info[k][j].init
      {
        for j := 0 to |info[i]|
          invariant forall k :: 0 <= k < j ==> info[i][k].init
        {
          if !info[i][j].init { return false; }
        }
      }
      ok := true;
      match strategy {
        case Task => AlignTasks(align);
        case Node => AlignNodes(Node, align);
        case Default => AlignNodes(Default, align);
        case NoSync =>
      }
      ghost var shifts := latency;
      var least := LeastInit();
      MoveLeft(least);
      assert Moved(strategy, align, info, old(latency), shifts, least, latency);
      ghost var m := LatenciesInNumbers(strategy, align, info, old(latency), latency);
    }

    /** The TS_TASK branch. */
    method AlignTasks(align: bool)
      requires Valid() && AllInitialized()
      modifies `latency
      ensures Valid() && AreShifts(Task, align, info, old(latency), latency)
      ensures forall i: nat, j: nat, k: nat, l: nat ::
                i < |info| && j < |info[i]| && k < |info| && l < |info[k]| && IsLatest(info, align, i, k, l) ==>
                  latency[i][j] == (info[k][l].syncTime - info[i][j].syncTime) % WRAP
    {
      hide MaxSync, MaxOnNode, MaxOfAll, IsLatest;
      ghost var previous := latency;
      var perApp := LatestPerApp();
      var all := Latest(perApp);
      MaxOfAllIsMax(info, perApp);
      var table: Latencies := [];
      for i := 0 to |info|
        invariant |table| == i
        invariant forall k :: 0 <= k < i ==> |table[k]| == |info[k]|
        invariant forall k, j :: 0 <= k < i && 0 <= j < |info[k]| ==>
                    table[k][j] == Shift(Task, align, info, latency, k, j)
      {
        var row: seq<U64> := [];
        for j := 0 to |info[i]|
          invariant |row| == j && forall k :: 0 <= k < j ==> row[k] == Shift(Task, align, info, latency, i, k)
        {
          row := row + [Sub(if align then all else perApp[i], info[i][j].syncTime)];
        }
        table := table + [row];
      }
      latency := table;
      TaskShifts(align, info, previous, latency);
    }

    /** The latest sync point of every application. */
    method LatestPerApp() returns (perApp: seq<U64>)
      ensures |perApp| == |info| && forall i :: 0 <= i < |info| ==> perApp[i] == MaxSync(info[i])
    {
      perApp := [];
      for i := 0 to |info|
        invariant |perApp| == i && forall k :: 0 <= k < i ==> perApp[k] == MaxSync(info[k])
      {
        var latest: U64 := 0;
        for j := 0 to |info[i]|
          invariant latest == MaxSync(info[i][..j])
        {
          assert info[i][..j + 1][..j] == info[i][..j];
          latest := Max(latest, info[i][j].syncTime);
        }
        assert info[i][..|info[i]|] == info[i];
        perApp := perApp + [latest];
      }
    }

    /** The TS_NODE and TS_DEFAULT branch. */
    method AlignNodes(strategy: Strategy, align: bool)
      requires Valid() && AllInitialized() && (strategy == Node || strategy == Default)
      modifies `latency
      ensures Valid() && AreShifts(strategy, align, info, old(latency), latency)
      ensures forall i: nat, j: nat, k: nat, l: nat, p: nat ::
                i < |info| && j < |info[i]| && k < |info| && l < |info[k]| && p < |info[i]|
                && IsLatest(info, align, i, k, l) && IsLatestOnNode(info[i], j, p) ==>
                  latency[i][j] == (info[k][l].syncTime - info[i][p].syncTime) % WRAP
    {
      hide MaxSync, MaxOnNode, MaxOfAll, MaxOf, IsLatest, IsLatestOnNode, Shift;
      ghost var previous := latency;
      var perNode, perApp := LatestTables();
      var all := Latest(perApp);
      MaxOfAllIsMax(info, perApp);
      var table: Latencies := [];
      for i := 0 to |info|
        invariant |table| == i && latency == old(latency)
        invariant forall k :: 0 <= k < i ==> |table[k]| == |info[k]|
        invariant forall k, j :: 0 <= k < i && 0 <= j < |info[k]| ==>
                    table[k][j] == Shift(strategy, align, info, latency, k, j)
      {
        var row := NodeRow(strategy, align, i, if align then all else perApp[i], perNode[i]);
        table := table + [row];
      }
      latency := table;
      NodeShifts(strategy, align, info, previous, latency);
    }

    /** The shifts of one application's tasks. */
    method NodeRow(ghost strategy: Strategy, ghost align: bool, i: nat, target: U64, perNode: seq<U64>)
      returns (row: seq<U64>)
      requires Valid() && AllInitialized() && (strategy == Node || strategy == Default)
      requires i < |info| && target == Target(info, align, i) && |perNode| == |nodes|
      requires forall n :: 0 <= n < |nodes| ==> perNode[n] == MaxOnNode(info[i], n)
      ensures |row| == |info[i]| && forall j :: 0 <= j < |row| ==> row[j] == Shift(strategy, align, info, latency, i, j)
    {
      hide MaxOnNode, Target;
      row := [];
      for j := 0 to |info[i]|
        invariant |row| == j && forall k :: 0 <= k < j ==> row[k] == Shift(strategy, align, info, latency, i, k)
      {
        row := row + [Sub(target, perNode[info[i][j].nodeId])];
      }
    }

    /** The latest sync point of every application on every node, and of every application. */
    method LatestTables() returns (perNode: Latencies, perApp: seq<U64>)
      requires Valid() && AllInitialized()
      ensures |perNode| == |perApp| == |info|
      ensures forall i :: 0 <= i < |info| ==> |perNode[i]| == |nodes| && perApp[i] == MaxSync(info[i])
      ensures forall i, n :: 0 <= i < |info| && 0 <= n < |nodes| ==> perNode[i][n] == MaxOnNode(info[i], n)
    {
      perNode := [];
      for i := 0 to |info|
        invariant |perNode| == i && forall k :: 0 <= k < i ==> |perNode[k]| == |nodes|
        invariant forall k, n :: 0 <= k < i && 0 <= n < |nodes| ==> perNode[k][n] == MaxOnNode(info[k], n)
      {
        var row := LatestPerNode(info[i]);
        perNode := perNode + [row];
      }
      perApp := [];
      for i := 0 to |info|
        invariant |perApp| == i && forall k :: 0 <= k < i ==> perApp[k] == MaxSync(info[k])
      {
        var latest := Latest(perNode[i]);
        MaxOverNodes(info[i], perNode[i]);
        perApp := perApp + [latest];
      }
    }

    method LatestPerNode(row: seq<SyncInfo>) returns (perNode: seq<U64>)
      requires forall j :: 0 <= j < |row| ==> row[j].nodeId < |nodes|
      ensures |perNode| == |nodes| && forall n :: 0 <= n < |nodes| ==> perNode[n] == MaxOnNode(row, n)
    {
      perNode := seq(|nodes|, _ => 0);
      for j := 0 to |row|
        invariant |perNode| == |nodes|
        invariant forall n :: 0 <= n < |nodes| ==> perNode[n] == MaxOnNode(row[..j], n)
      {
        assert row[..j + 1][..j] == row[..j];
        perNode := perNode[row[j].nodeId := Max(perNode[row[j].nodeId], row[j].syncTime)];
      }
      assert row[..|row|] == row;
    }

    /** The minimum first time, latencies applied. */
    method LeastInit() returns (least: U64)
      requires Valid() && |info| > 0 && |info[0]| > 0
      ensures IsLeastInit(info, latency, least)
    {
      least := Add(info[0][0].initTime, latency[0][0]);
      ghost var at := (0, 0);
      for i := 0 to |info|
        invariant 0 <= at.0 < |info| && 0 <= at.1 < |info[at.0]|
                  && least == Add(info[at.0][at.1].initTime, latency[at.0][at.1])
        invariant forall k, j :: 0 <= k < i && 0 <= j < |info[k]| ==> least <= Add(info[k][j].initTime, latency[k][j])
      {
        for j := 0 to |info[i]|
          invariant 0 <= at.0 < |info| && 0 <= at.1 < |info[at.0]|
                  && least == Add(info[at.0][at.1].initTime, latency[at.0][at.1])
          invariant forall k, l :: 0 <= k < i && 0 <= l < |info[k]| ==> least <= Add(info[k][l].initTime, latency[k][l])
          invariant forall l :: 0 <= l < j ==> least <= Add(info[i][l].initTime, latency[i][l])
        {
          if Add(info[i][j].initTime, latency[i][j]) < least { at := (i, j); }
          least := Min(least, Add(info[i][j].initTime, latency[i][j]));
        }
      }
    }

    /** Every latency less the minimum. */
    method MoveLeft(least: U64)
      requires Valid()
      modifies `latency
      ensures Valid()
      ensures forall i, j :: 0 <= i < |info| && 0 <= j < |info[i]| ==> latency[i][j] == Sub(old(latency)[i][j], least)
    {
      var table: Latencies := [];
      for i := 0 to |info|
        invariant |table| == i
        invariant forall k :: 0 <= k < i ==> |table[k]| == |info[k]|
        invariant forall k, j :: 0 <= k < i && 0 <= j < |info[k]| ==> table[k][j] == Sub(latency[k][j], least)
      {
        var row: seq<U64> := [];
        for j := 0 to |info[i]|
          invariant |row| == j && forall k :: 0 <= k < j ==> row[k] == Sub(latency[i][k], least)
        {
          row := row + [Sub(latency[i][j], least)];
        }
        table := table + [row];
      }
      latency := table;
    }

    method Latest(values: seq<U64>) returns (latest: U64)
      ensures latest == MaxOf(values)
    {
      latest := 0;
      for i := 0 to |values|
        invariant latest == MaxOf(values[..i])
      {
        assert values[..i + 1][..i] == values[..i];
        latest := Max(latest, values[i]);
      }
      assert values[..|values|] == values;
    }
  }

  lemma {:induction false} FindAppended(nodes: seq<string>, name: string)
    requires name !in nodes
    ensures Find(nodes, name) == |nodes| == Find(nodes + [name], name)
  {
    if nodes != [] {
      FindAppended(nodes[1..], name);
      assert (nodes + [name])[1..] == nodes[1..] + [name];
    }
  }
}
