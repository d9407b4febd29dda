/** The per-thread trace-mode machine of src/tracer/mode.c. */
module TraceMode {

  datatype Mode = Detail | Burst {
    function Toggled(): Mode { if this == Detail then Burst else Detail }
  }

  /** One thread: its mode, the mode asked for, whether a change is pending, whether none was made yet, and the
      mode events written to its trace. */
  datatype Thread = Thread(current: Mode, future: Mode, pending: bool, first: bool, emitted: seq<Mode>) {

    function Switched(): Thread {
      this.(pending := true, future := current.Toggled())
    }

    function Changed(): Thread {
      if !pending && !first then this
      else if future != current || first then Thread(future, future, false, false, emitted + [future])
      else this.(pending := false, first := false)
    }

    /** What every history keeps.  The events alternate, so no mode is ever announced twice in a row. */
    predicate Sane() {
      && (forall i :: 0 < i < |emitted| ==> emitted[i] == emitted[i - 1].Toggled())
      && (first <==> emitted == [])
      && (!first ==> emitted[|emitted| - 1] == current)
      && future == if pending then current.Toggled() else current
    }
  }

  function Fresh(starting: Mode): Thread {
    Thread(starting, starting, false, true, [])
  }

  // ---------- one thread's history ----------

  datatype ThreadOp = Switch | Change

  function Run(starting: Mode, ops: seq<ThreadOp>): Thread {
    if ops == [] then Fresh(starting)
    else
      var t := Run(starting, ops[..|ops| - 1]);
      if ops[|ops| - 1] == Switch then t.Switched() else t.Changed()
  }

  /** Whether a switch was requested since the last change: a change consumes every request before it. */
  predicate SwitchWaits(ops: seq<ThreadOp>) {
    ops != [] && ops[|ops| - 1] == Switch
  }

  /** The changes that had at least one switch request waiting, however many. */
  function EffectiveChanges(ops: seq<ThreadOp>): nat {
    if ops == [] then 0
    else EffectiveChanges(ops[..|ops| - 1])
         + if ops[|ops| - 1] == Change && SwitchWaits(ops[..|ops| - 1]) then 1 else 0
  }

  function Toggles(mode: Mode, n: nat): Mode {
    if n % 2 == 0 then mode else mode.Toggled()
  }

  lemma FreshLeads(starting: Mode)
    ensures LeadsTo(starting, [], Fresh(starting))
  {}

  lemma SaneKept(t: Thread)
    requires t.Sane()
    ensures t.Switched().Sane() && t.Changed().Sane()
  {}

  /** How one more request, or one more change, moves the mode and the announcements of a sane thread. */
  lemma OneMoreOp(t: Thread, starting: Mode, n: nat)
    requires t.Sane() && t.current == Toggles(starting, n)
    ensures t.first <==> t.emitted == []
    ensures t.Switched() == t.(pending := true, future := t.Switched().future)
    ensures !t.Changed().pending && !t.Changed().first
    ensures t.Changed().current == Toggles(starting, if t.pending then n + 1 else n)
    ensures t.Changed().emitted == if t.pending || t.first then t.emitted + [t.Changed().current] else t.emitted
  {}

  /** Where a history leads a thread: one or more requests between two changes act as exactly one toggle, so the mode
      is the starting mode toggled once per effective change, and each effective change after the first announcement
      adds one event. */
  predicate LeadsTo(starting: Mode, ops: seq<ThreadOp>, t: Thread) {
    && t.Sane() && t.pending == SwitchWaits(ops)
    && t.current == Toggles(starting, EffectiveChanges(ops))
    && (t.first <==> Change !in ops)
    && (!t.first ==> t.emitted[0] == Toggles(starting, if |t.emitted| == EffectiveChanges(ops) then 1 else 0)
                     && EffectiveChanges(ops) <= |t.emitted| <= EffectiveChanges(ops) + 1)
  }

  lemma AppendSwitch(ops: seq<ThreadOp>)
    ensures SwitchWaits(ops + [Switch]) && EffectiveChanges(ops + [Switch]) == EffectiveChanges(ops)
    ensures Change in ops + [Switch] <==> Change in ops
  {
    assert (ops + [Switch])[..|ops|] == ops;
  }

  lemma AppendChange(ops: seq<ThreadOp>)
    ensures !SwitchWaits(ops + [Change]) && Change in ops + [Change]
    ensures EffectiveChanges(ops + [Change]) == EffectiveChanges(ops) + if SwitchWaits(ops) then 1 else 0
  {
    assert (ops + [Change])[..|ops|] == ops;
  }

  lemma OneMoreSwitch(starting: Mode, ops: seq<ThreadOp>, t: Thread)
    requires LeadsTo(starting, ops, t)
    ensures LeadsTo(starting, ops + [Switch], t.Switched())
  {
    hide Thread.Sane, Thread.Switched, Toggles, EffectiveChanges, SwitchWaits;
    SaneKept(t);
    OneMoreOp(t, starting, EffectiveChanges(ops));
    AppendSwitch(ops);
  }

  lemma OneMoreChange(starting: Mode, ops: seq<ThreadOp>, t: Thread)
    requires LeadsTo(starting, ops, t)
    ensures LeadsTo(starting, ops + [Change], t.Changed())
  {
    hide Thread.Sane, Thread.Changed, Toggles, EffectiveChanges, SwitchWaits;
    SaneKept(t);
    OneMoreOp(t, starting, EffectiveChanges(ops));
    AppendChange(ops);
    if Change !in ops { NoEffectWithoutChange(ops); }
  }

  lemma {:induction false} HistoryDecidesMode(starting: Mode, ops: seq<ThreadOp>)
    ensures LeadsTo(starting, ops, Run(starting, ops))
  {
    hide LeadsTo, Thread.Changed, Thread.Switched;
    if ops == [] {
      FreshLeads(starting);
    } else {
      var before, op := ops[..|ops| - 1], ops[|ops| - 1];
      HistoryDecidesMode(starting, before);
      assert ops == before + [op];
      match op
      case Switch => OneMoreSwitch(starting, before, Run(starting, before));
      case Change => OneMoreChange(starting, before, Run(starting, before));
    }
  }

  lemma {:induction false} NoEffectWithoutChange(ops: seq<ThreadOp>)
    requires Change !in ops
    ensures EffectiveChanges(ops) == 0
  {
    if ops != [] {
      NoEffectWithoutChange(ops[..|ops| - 1]);
    }
  }

  // ---------- all threads ----------

  datatype State = State(threads: seq<Thread>, starting: Mode)

  datatype Op =
      SetInitial(mode: int)
    | Resize(oldThreads: nat, newThreads: nat)
    | SwitchAll(running: nat)
    | ChangeMode(tid: nat)

  /** Threads that are kept, that run, and that change exist. */
  predicate Allowed(s: State, op: Op) {
    match op
    case SetInitial(_) => true
    case Resize(oldThreads, _) => oldThreads <= |s.threads|
    case SwitchAll(running) => running <= |s.threads|
    case ChangeMode(tid) => tid < |s.threads|
  }

  const TRACE_MODE_DETAIL: int := 1
  const TRACE_MODE_BURST: int := 2

  function Min(a: nat, b: nat): nat { if a < b then a else b }

  function Apply(s: State, op: Op): State
    requires Allowed(s, op)
  {
    match op
    case SetInitial(mode) =>
      if mode == TRACE_MODE_DETAIL then s.(starting := Detail)
      else if mode == TRACE_MODE_BURST then s.(starting := Burst)
      else s
    case Resize(oldThreads, newThreads) =>
      var kept := Min(oldThreads, newThreads);
      s.(threads := s.threads[..kept] + seq(newThreads - kept, _ => Fresh(s.starting)))
    case SwitchAll(running) =>
      s.(threads := seq(|s.threads|, i requires 0 <= i < |s.threads| =>
        if i < running then s.threads[i].Switched() else s.threads[i]))
    case ChangeMode(tid) => s.(threads := s.threads[tid := s.threads[tid].Changed()])
  }

  predicate AllowedRun(s: State, ops: seq<Op>)
    decreases |ops|
  {
    ops == [] || (Allowed(s, ops[0]) && AllowedRun(Apply(s, ops[0]), ops[1..]))
  }

  function RunAll(s: State, ops: seq<Op>): State
    requires AllowedRun(s, ops)
    decreases |ops|
  {
    if ops == [] then s else RunAll(Apply(s, ops[0]), ops[1..])
  }

  /** What one global operation is for thread `i`. */
  function Seen(op: Op, i: nat): seq<ThreadOp> {
    match op
    case SwitchAll(running) => if i < running then [Switch] else []
    case ChangeMode(tid) => if i == tid then [Change] else []
    case _ => []
  }

  function AllSeen(ops: seq<Op>, i: nat): seq<ThreadOp> {
    if ops == [] then [] else Seen(ops[0], i) + AllSeen(ops[1..], i)
  }

  /** A thread outlives every resizing that leaves it in range and does not start it again. */
  predicate Outlives(op: Op, i: nat) {
    op.Resize? ==> i < op.oldThreads && i < op.newThreads
  }

  lemma OneStepSeen(s: State, op: Op, i: nat, starting: Mode, past: seq<ThreadOp>)
    requires Allowed(s, op) && i < |s.threads| && s.threads[i] == Run(starting, past) && Outlives(op, i)
    ensures i < |Apply(s, op).threads|
    ensures Apply(s, op).threads[i] == Run(starting, past + Seen(op, i))
  {
    var seen := Seen(op, i);
    if seen == [] {
      assert past + seen == past;
    } else {
      assert (past + seen)[..|past + seen| - 1] == past;
    }
  }

  /** A thread that a resizing adds or starts again begins a history of its own in the starting mode. */
  lemma ResizeStartsAfresh(s: State, op: Op, i: nat)
    requires Allowed(s, op) && op.Resize? && !Outlives(op, i)
    ensures i < |Apply(s, op).threads| <==> i < op.newThreads
    ensures i < op.newThreads ==> Apply(s, op).threads[i] == Run(s.starting, [])
  {}

  /** Over any interleaving, a thread sees exactly the requests and changes aimed at it for as long as it lives:
      resizing, new starting modes and other threads' changes leave it untouched. */
  lemma {:induction false} ThreadsAreIndependent(s: State, ops: seq<Op>, i: nat, starting: Mode, past: seq<ThreadOp>)
    requires AllowedRun(s, ops) && i < |s.threads| && s.threads[i] == Run(starting, past)
    requires forall k :: 0 <= k < |ops| ==> Outlives(ops[k], i)
    ensures i < |RunAll(s, ops).threads|
    ensures RunAll(s, ops).threads[i] == Run(starting, past + AllSeen(ops, i))
    decreases |ops|
  {
    hide Run, Apply, Allowed, Seen, Outlives;
    if ops == [] {
      assert past + [] == past;
    } else {
      var seen := Seen(ops[0], i);
      OneStepSeen(s, ops[0], i, starting, past);
      ThreadsAreIndependent(Apply(s, ops[0]), ops[1..], i, starting, past + seen);
      assert past + seen + AllSeen(ops[1..], i) == past + AllSeen(ops, i);
    }
  }

  lemma {:induction false} AnyHistoryIsSane(s: State, ops: seq<Op>)
    requires AllowedRun(s, ops) && forall i :: 0 <= i < |s.threads| ==> s.threads[i].Sane()
    ensures forall i :: 0 <= i < |RunAll(s, ops).threads| ==> RunAll(s, ops).threads[i].Sane()
    decreases |ops|
  {
    if ops != [] {
      forall i | 0 <= i < |s.threads| ensures s.threads[i].Switched().Sane() && s.threads[i].Changed().Sane() {
        SaneKept(s.threads[i]);
      }
      AnyHistoryIsSane(Apply(s, ops[0]), ops[1..]);
    }
  }

  // ---------- the arrays of mode.c ----------

  class ModeArrays {
    var current: seq<Mode>
    var future: seq<Mode>
    var pending: seq<bool>
    var first: seq<bool>
    /** The TRACING_MODE_EV events of each thread. */
    var emitted: seq<seq<Mode>>
    var starting: Mode

    ghost predicate Valid()
      reads this
    {
      |current| == |future| == |pending| == |first| == |emitted|
    }

    ghost function View(): (s: State)
      reads this
      requires Valid()
      ensures |s.threads| == |current|
    {
      State(seq(|current|, i requires 0 <= i < |current| && Valid() reads this =>
        Thread(current[i], future[i], pending[i], first[i], emitted[i])), starting)
    }

    constructor ()
      ensures Valid() && View() == State([], Detail)
    {
      current, future, pending, first, emitted, starting := [], [], [], [], [], Detail;
    }

    /** TMODE_setInitial */
    method SetInitialMode(mode: int)
      requires Valid()
      modifies this
      ensures Valid() && View() == Apply(old(View()), SetInitial(mode))
      ensures starting == if mode == 1 then Detail else if mode == 2 then Burst else old(starting)
      ensures View().threads == old(View()).threads
    {
      ghost var s := View();
      match mode {
        case 1 => starting := Detail;
        case 2 => starting := Burst;
        case _ =>
      }
      assert View().threads == s.threads;
    }

    /** Trace_Mode_reInitialize.  What the reallocation keeps beyond `oldThreads` the loop writes anew. */
    method ReInitialize(oldThreads: nat, newThreads: nat)
      requires Valid() && oldThreads <= |current|
      modifies this
      ensures Valid() && View() == Apply(old(View()), Resize(oldThreads, newThreads))
      ensures |current| == newThreads && starting == old(starting)
      ensures forall i :: 0 <= i < newThreads ==>
                View().threads[i]
                == if i < oldThreads then old(View()).threads[i] else Thread(starting, starting, false, true, [])
    {
      ghost var s := View();
      var kept := Min(oldThreads, newThreads);
      current, future, pending, first := current[..kept], future[..kept], pending[..kept], first[..kept];
      emitted := emitted[..kept];
      for i := kept to newThreads
        invariant Valid() && |current| == i && starting == s.starting
        invariant View().threads == s.threads[..kept] + seq(i - kept, _ => Fresh(s.starting))
      {
        current := current + [starting];
        future := future + [starting];
        pending := pending + [false];
        first := first + [true];
        emitted := emitted + [[]];
        assert View().threads[i] == Fresh(s.starting);
        assert forall k :: 0 <= k < i ==>
                 View().threads[k] == (s.threads[..kept] + seq(i - kept, _ => Fresh(s.starting)))[k];
      }
    }

    /** Trace_mode_switch, for the threads running now. */
    method SwitchModes(running: nat)
      requires Valid() && running <= |current|
      modifies this
      ensures Valid() && View() == Apply(old(View()), SwitchAll(running))
      ensures current == old(current) && first == old(first) && emitted == old(emitted) && starting == old(starting)
      ensures forall i :: 0 <= i < running ==> pending[i] && future[i] != current[i]
      ensures forall i :: running <= i < |current| ==> pending[i] == old(pending)[i] && future[i] == old(future)[i]
    {
      ghost var s := View();
      for i := 0 to running
        invariant Valid() && |current| == |s.threads| && starting == s.starting
        invariant current == old(current) && first == old(first) && emitted == old(emitted)
        invariant forall k :: 0 <= k < i ==> pending[k] && future[k] != current[k]
        invariant forall k :: i <= k < |current| ==> pending[k] == old(pending)[k] && future[k] == old(future)[k]
        invariant forall k :: 0 <= k < |s.threads| ==>
                    View().threads[k] == if k < i then s.threads[k].Switched() else s.threads[k]
      {
        assert View().threads[i] == s.threads[i];
        pending := pending[i := true];
        future := future[i := if current[i] == Detail then Burst else Detail];
      }
    }

    /** Trace_Mode_Change */
    method ChangeModeOf(tid: nat)
      requires Valid() && tid < |current|
      modifies this
      ensures Valid() && View() == Apply(old(View()), ChangeMode(tid))
      ensures !pending[tid] && !first[tid] && future == old(future)
      ensures var due := old(first[tid]) || (old(pending[tid]) && old(future[tid]) != old(current[tid]));
              && current == (if due then old(current)[tid := old(future[tid])] else old(current))
              && emitted == if due then old(emitted)[tid := old(emitted[tid]) + [old(future[tid])]] else old(emitted)
    {
      ghost var s := View();
      assert s.threads[tid] == Thread(current[tid], future[tid], pending[tid], first[tid], emitted[tid]);
      if pending[tid] || first[tid] {
        if future[tid] != current[tid] || first[tid] {
          current := current[tid := future[tid]];
          emitted := emitted[tid := emitted[tid] + [current[tid]]];
        }
        pending := pending[tid := false];
        first := first[tid := false];
      }
      assert View().threads[tid] == s.threads[tid].Changed();
      assert View().threads == Apply(s, ChangeMode(tid)).threads;
    }
  }
}
