/** The older exhaustive search of src/others/papi_best_set_old.c, with masks kept as int arrays and counted
    through by hand. */
module BestSetOld {
  import opened Word32

  type Bits = seq<int>

  predicate IsMask(bits: Bits) {
    forall i :: 0 <= i < |bits| ==> bits[i] == 0 || bits[i] == 1
  }

  /** A mask read as a little-endian binary number. */
  function Value(bits: Bits): (v: nat)
    requires IsMask(bits)
  {
    if bits == [] then 0 else bits[0] + 2 * Value(bits[1..])
  }

  function Active(bits: Bits): nat {
    if bits == [] then 0 else (if bits[|bits| - 1] != 0 then 1 else 0) + Active(bits[..|bits| - 1])
  }

  /** The counters a mask chooses. */
  ghost function Positions(bits: Bits): set<int> {
    set i | 0 <= i < |bits| && bits[i] != 0
  }

  lemma {:induction false} ActiveCounts(bits: Bits)
    ensures Active(bits) == |set i | 0 <= i < |bits| && bits[i] != 0| == |Positions(bits)|
  {
    if bits != [] {
      var last := |bits| - 1;
      var front := bits[..last];
      ActiveCounts(front);
      var all, before := set i | 0 <= i < |bits| && bits[i] != 0, set i | 0 <= i < last && front[i] != 0;
      assert all == before + if bits[last] != 0 then {last} else {};
    }
  }

  predicate AllOnes(bits: Bits) {
    forall i :: 0 <= i < |bits| ==> bits[i] != 0
  }

  lemma {:induction false} ValueInjective(a: Bits, b: Bits)
    requires IsMask(a) && IsMask(b) && |a| == |b| && Value(a) == Value(b)
    ensures a == b
  {
    if a != [] {
      assert a[0] == b[0];
      ValueInjective(a[1..], b[1..]);
      assert a == [a[0]] + a[1..] && b == [b[0]] + b[1..];
    }
  }

  lemma {:induction false} ValueBound(a: Bits)
    requires IsMask(a)
    ensures Value(a) < Pow2(|a|)
    ensures Value(a) == Pow2(|a|) - 1 <==> AllOnes(a)
  {
    if a != [] {
      ValueBound(a[1..]);
      assert a == [a[0]] + a[1..];
      assert AllOnes(a) <==> a[0] != 0 && AllOnes(a[1..]) by {
        if AllOnes(a) { assert forall i :: 0 <= i < |a| - 1 ==> a[1..][i] == a[i + 1]; }
        if a[0] != 0 && AllOnes(a[1..]) { assert forall i :: 0 < i < |a| ==> a[i] == a[1..][i - 1]; }
      }
    }
  }

  /** Clearing a run of ones and setting the zero behind it adds one. */
  lemma {:induction false} CarryAddsOne(a: Bits, b: Bits, i: nat)
    requires IsMask(a) && IsMask(b) && |a| == |b| && i < |a|
    requires forall k :: 0 <= k < i ==> a[k] == 1 && b[k] == 0
    requires a[i] == 0 && b[i] == 1 && a[i + 1..] == b[i + 1..]
    ensures Value(b) == Value(a) + 1
    decreases i
  {
    if i == 0 {
      assert a[1..] == b[1..];
    } else {
      assert a[1..][i..] == b[1..][i..];
      CarryAddsOne(a[1..], b[1..], i - 1);
    }
  }

  /** CreateBitmask */
  method CreateBitmask(n: nat) returns (mask: array<int>)
    ensures fresh(mask) && mask.Length == n && IsMask(mask[..]) && Value(mask[..]) == 0
  {
    mask := new int[n];
    for i := 0 to n
      invariant forall k :: 0 <= k < i ==> mask[k] == 0
    {
      mask[i] := 0;
    }
    ZerosAreZero(mask[..]);
  }

  lemma {:induction false} ZerosAreZero(a: Bits)
    requires forall k :: 0 <= k < |a| ==> a[k] == 0
    ensures IsMask(a) && Value(a) == 0
  {
    if a != [] { ZerosAreZero(a[1..]); }
  }

  /** The index at which the scan for a zero stops, and so the last one it reads. */
  function LeadingOnes(bits: Bits): (stop: nat)
    ensures stop <= |bits|
  {
    if bits == [] || bits[0] != 1 then 0 else 1 + LeadingOnes(bits[1..])
  }

  lemma {:induction false} LeadingOnesAt(bits: Bits, i: nat)
    requires i <= |bits| && (forall k :: 0 <= k < i ==> bits[k] == 1) && (i < |bits| ==> bits[i] != 1)
    ensures LeadingOnes(bits) == i
  {
    if i > 0 { LeadingOnesAt(bits[1..], i - 1); }
  }

  /** The scan reads inside the mask if and only if the mask is not all ones. */
  lemma {:induction false} ScanStaysInsideExactly(bits: Bits)
    requires IsMask(bits)
    ensures LeadingOnes(bits) < |bits| <==> !AllOnes(bits)
  {
    if bits != [] && bits[0] == 1 {
      ScanStaysInsideExactly(bits[1..]);
      assert bits == [bits[0]] + bits[1..];
    }
  }

  /** Clearing the leading ones and setting the zero behind them, if there is one, steps the value by one. */
  lemma StepsTheValue(a: Bits, b: Bits, i: nat)
    requires IsMask(a) && |a| == |b| && i <= |a|
    requires forall k :: 0 <= k < i ==> a[k] == 1 && b[k] == 0
    requires i < |a| ==> a[i] == 0 && b[i] == 1
    requires forall k :: i < k < |a| ==> b[k] == a[k]
    ensures IsMask(b) && Value(b) == (Value(a) + 1) % Pow2(|a|)
    ensures LeadingOnes(a) == i
  {
    hide Value, Pow2, LeadingOnes;
    LeadingOnesAt(a, i);
    assert IsMask(b);
    ValueBound(a);
    ValueBound(b);
    if i < |a| { CarryAddsOne(a, b, i); } else { ZerosAreZero(b); }
    WrapsAt(Value(a) + 1, Pow2(|a|));
  }

  lemma WrapsAt(v: nat, m: nat)
    requires v <= m && m > 0
    ensures v % m == if v == m then 0 else v
  {}

  /** Bitmask_NextValue on the first `n` elements of `memory`.  The C loop reads an element before it tests the
      index, so a mask of all ones needs one element more than it has. */
  method NextValue(memory: array<int>, n: nat) returns (ghost lastRead: nat)
    requires n <= memory.Length && IsMask(memory[..n]) && (n < memory.Length || !AllOnes(memory[..n]))
    modifies memory
    ensures IsMask(memory[..n]) && Value(memory[..n]) == (Value(old(memory[..n])) + 1) % Pow2(n)
    ensures memory[n..] == old(memory[n..])
    ensures lastRead == LeadingOnes(old(memory[..n]))
  {
    hide Value, Pow2, LeadingOnes;
    ghost var before := memory[..n];
    assert n == memory.Length ==> exists k :: 0 <= k < n && before[k] == 0;
    var i := 0;
    while memory[i] == 1 && i < n
      invariant 0 <= i <= n && (n == memory.Length ==> i < n)
      invariant forall k :: 0 <= k < i ==> before[k] == 1 && memory[k] == 0
      invariant forall k :: i <= k < memory.Length ==> memory[k] == old(memory[k])
      decreases n - i
    {
      memory[i] := 0;
      i := i + 1;
    }
    lastRead := i;
    if i < n {
      memory[i] := 1;
    }
    StepsTheValue(before, memory[..n], i);
  }

  /** Bitmask_CountActiveBits */
  method CountActiveBits(mask: array<int>) returns (active: nat)
    ensures active == Active(mask[..])
    ensures active == |set i | 0 <= i < mask.Length && mask[i] != 0|
  {
    active := 0;
    for i := 0 to mask.Length
      invariant active == Active(mask[..i])
    {
      assert mask[..i + 1][..i] == mask[..i];
      if mask[i] != 0 { active := active + 1; }
    }
    assert mask[..mask.Length] == mask[..];
    ActiveCounts(mask[..]);
    assert (set i | 0 <= i < mask.Length && mask[..][i] != 0) == set i | 0 <= i < mask.Length && mask[i] != 0;
  }

  /** Bitmask_isLastValue */
  method IsLastValue(mask: array<int>) returns (last: bool)
    ensures last <==> AllOnes(mask[..])
  {
    last := true;
    for i := 0 to mask.Length
      invariant last <==> forall k :: 0 <= k < i ==> mask[k] != 0
    {
      last := last && mask[i] != 0;
    }
  }

  // ---------- the search ----------

  /** A nonzero mask of `n` counters, numbered at most `top`, that the hardware accepts. */
  predicate Candidate(n: nat, ok: Bits -> bool, top: nat, a: Bits) {
    |a| == n && IsMask(a) && 0 < Value(a) <= top && ok(a)
  }

  /** `maxs` lists, in increasing order and without repetition, exactly the largest candidates up to `top`. */
  ghost predicate Maxima(n: nat, ok: Bits -> bool, top: nat, maxs: seq<Bits>) {
    && (forall k :: 0 <= k < |maxs| ==> Candidate(n, ok, top, maxs[k]) && Active(maxs[k]) == Active(maxs[0]))
    && (forall j, k :: 0 <= j < k < |maxs| ==> Value(maxs[j]) < Value(maxs[k]))
    && (forall a: Bits :: Candidate(n, ok, top, a) ==>
          maxs != [] && Active(a) <= Active(maxs[0]) && (Active(a) == Active(maxs[0]) ==> a in maxs))
  }

  /** What the loop body does to the list on meeting mask `a`. */
  function Consider(ok: Bits -> bool, maxs: seq<Bits>, a: Bits): seq<Bits> {
    if !ok(a) then maxs
    else if maxs == [] || Active(a) > Active(maxs[0]) then [a]
    else if Active(a) == Active(maxs[0]) then maxs + [a]
    else maxs
  }

  lemma ConsideredAreCandidates(n: nat, ok: Bits -> bool, top: nat, maxs: seq<Bits>, a: Bits, k: nat)
    requires Maxima(n, ok, top, maxs) && |a| == n && IsMask(a) && Value(a) == top + 1
    requires k < |Consider(ok, maxs, a)|
    ensures var maxs' := Consider(ok, maxs, a);
            Candidate(n, ok, top + 1, maxs'[k]) && Active(maxs'[k]) == Active(maxs'[0])
  {
    hide Value, IsMask;
    var maxs' := Consider(ok, maxs, a);
    if k < |maxs| && maxs'[k] == maxs[k] { assert Candidate(n, ok, top, maxs[k]); }
  }

  lemma ConsideredCover(n: nat, ok: Bits -> bool, top: nat, maxs: seq<Bits>, a: Bits, b: Bits)
    requires Maxima(n, ok, top, maxs) && |a| == n && IsMask(a) && Value(a) == top + 1
    requires Candidate(n, ok, top + 1, b)
    ensures var maxs' := Consider(ok, maxs, a);
            maxs' != [] && Active(b) <= Active(maxs'[0]) && (Active(b) == Active(maxs'[0]) ==> b in maxs')
  {
    hide Active;
    var maxs' := Consider(ok, maxs, a);
    if Value(b) == top + 1 {
      ValueInjective(a, b);
      assert maxs' != [] && (maxs'[|maxs'| - 1] == a || Active(a) < Active(maxs'[0]));
    } else {
      assert Candidate(n, ok, top, b);
    }
  }

  lemma ConsideredIncrease(n: nat, ok: Bits -> bool, top: nat, maxs: seq<Bits>, a: Bits, j: nat, k: nat)
    requires Maxima(n, ok, top, maxs) && IsMask(a) && Value(a) == top + 1
    requires j < k < |Consider(ok, maxs, a)|
    requires forall i :: 0 <= i < |maxs| ==> IsMask(maxs[i])
    ensures var maxs' := Consider(ok, maxs, a);
            IsMask(maxs'[j]) && IsMask(maxs'[k]) && Value(maxs'[j]) < Value(maxs'[k])
  {
    hide Value, IsMask, Active;
    assert Candidate(n, ok, top, maxs[j]);
  }

  lemma ConsiderKeepsMaxima(n: nat, ok: Bits -> bool, top: nat, maxs: seq<Bits>, a: Bits)
    requires Maxima(n, ok, top, maxs) && |a| == n && IsMask(a) && Value(a) == top + 1
    ensures Maxima(n, ok, top + 1, Consider(ok, maxs, a))
  {
    hide Value, IsMask, Active, Consider;
    var maxs' := Consider(ok, maxs, a);
    forall k | 0 <= k < |maxs'|
      ensures Candidate(n, ok, top + 1, maxs'[k]) && Active(maxs'[k]) == Active(maxs'[0])
    {
      ConsideredAreCandidates(n, ok, top, maxs, a, k);
    }
    forall j, k | 0 <= j < k < |maxs'| ensures Value(maxs'[j]) < Value(maxs'[k]) {
      ConsideredIncrease(n, ok, top, maxs, a, j, k);
    }
    forall b: Bits | Candidate(n, ok, top + 1, b)
      ensures maxs' != [] && Active(b) <= Active(maxs'[0]) && (Active(b) == Active(maxs'[0]) ==> b in maxs')
    {
      ConsideredCover(n, ok, top, maxs, a, b);
    }
  }

  /** The masks met so far: every number from 1 on, once, in order. */
  ghost predicate CountedThrough(n: nat, visited: seq<Bits>) {
    forall k :: 0 <= k < |visited| ==> |visited[k]| == n && IsMask(visited[k]) && Value(visited[k]) == k + 1
  }

  /** CheckMaxEventSet: visits every nonzero mask once, in order, stops at all ones, and keeps all maxima. */
  method CheckMaxEventSet(n: nat, ok: Bits -> bool) returns (maxs: seq<Bits>, ghost visited: seq<Bits>)
    requires n > 0
    ensures Maxima(n, ok, Pow2(n) - 1, maxs)
    ensures |visited| == Pow2(n) - 1 && CountedThrough(n, visited)
    ensures forall k :: 0 <= k < |maxs| ==>
              |maxs[k]| == n && IsMask(maxs[k]) && ok(maxs[k]) && Positions(maxs[k]) != {}
    ensures forall a: Bits, k :: |a| == n && IsMask(a) && ok(a) && Positions(a) != {} && 0 <= k < |maxs| ==>
              |Positions(a)| <= |Positions(maxs[k])| && (|Positions(a)| == |Positions(maxs[k])| ==> a in maxs)
    ensures forall a: Bits :: |a| == n && IsMask(a) && ok(a) && Positions(a) != {} ==> maxs != []
  {
    hide Maxima, Value, Active, IsMask, AllOnes, Candidate;
    var bitmask := CreateBitmask(n);
    maxs, visited := [], [];
    var last := false;
    ValueBound(bitmask[..]);
    NothingAtZero(n, ok);
    assert Pow2(n) >= 2 * Pow2(n - 1);
    while !last
      invariant fresh(bitmask) && bitmask.Length == n && IsMask(bitmask[..])
      invariant Maxima(n, ok, Value(bitmask[..]), maxs)
      invariant |visited| == Value(bitmask[..]) && CountedThrough(n, visited)
      invariant last <==> AllOnes(bitmask[..])
      decreases !last, Pow2(n) - Value(bitmask[..])
    {
      ghost var top := Value(bitmask[..]);
      assert bitmask[..n] == bitmask[..];
      ValueBound(bitmask[..]);
      ghost var lastRead := NextValue(bitmask, n);
      assert bitmask[..n] == bitmask[..];
      WrapsAt(top + 1, Pow2(n));
      ValueBound(bitmask[..]);
      ConsiderKeepsMaxima(n, ok, top, maxs, bitmask[..]);
      visited := visited + [bitmask[..]];
      if ok(bitmask[..]) {
        maxs := Record(bitmask, maxs, ok);
      }
      last := IsLastValue(bitmask);
    }
    ValueBound(bitmask[..]);
    MaximaInSizes(n, ok, maxs);
  }

  lemma {:induction false} ValueZero(a: Bits)
    requires IsMask(a)
    ensures Value(a) > 0 <==> Positions(a) != {}
  {
    if a != [] {
      ValueZero(a[1..]);
      assert a[0] != 0 ==> 0 in Positions(a);
      if i :| i in Positions(a[1..]) { assert i + 1 in Positions(a); }
      if i :| i in Positions(a) && i > 0 { assert i - 1 in Positions(a[1..]); }
    }
  }

  /** What the list of maxima means in numbers of chosen counters. */
  lemma MaximaInSizes(n: nat, ok: Bits -> bool, maxs: seq<Bits>)
    requires Maxima(n, ok, Pow2(n) - 1, maxs)
    ensures forall k :: 0 <= k < |maxs| ==>
              |maxs[k]| == n && IsMask(maxs[k]) && ok(maxs[k]) && Positions(maxs[k]) != {}
    ensures forall a: Bits, k :: |a| == n && IsMask(a) && ok(a) && Positions(a) != {} && 0 <= k < |maxs| ==>
              |Positions(a)| <= |Positions(maxs[k])| && (|Positions(a)| == |Positions(maxs[k])| ==> a in maxs)
    ensures forall a: Bits :: |a| == n && IsMask(a) && ok(a) && Positions(a) != {} ==> maxs != []
  {
    hide Value, Active, IsMask, Positions;
    forall k | 0 <= k < |maxs|
      ensures |maxs[k]| == n && IsMask(maxs[k]) && ok(maxs[k]) && Positions(maxs[k]) != {}
    {
      assert Candidate(n, ok, Pow2(n) - 1, maxs[k]);
      ValueZero(maxs[k]);
    }
    forall a: Bits | |a| == n && IsMask(a) && ok(a) && Positions(a) != {}
      ensures Candidate(n, ok, Pow2(n) - 1, a)
    {
      ValueZero(a);
      ValueBound(a);
    }
    forall a: Bits ensures Active(a) == |Positions(a)| { ActiveCounts(a); }
  }

  /** What happens to an accepted mask: a larger one replaces the list, an equal one joins it. */
  method Record(bitmask: array<int>, maxs: seq<Bits>, ghost ok: Bits -> bool) returns (maxs': seq<Bits>)
    requires ok(bitmask[..])
    ensures maxs' == Consider(ok, maxs, bitmask[..])
  {
    maxs' := maxs;
    var active := CountActiveBits(bitmask);
    if |maxs| > 0 {
      if active > Active(maxs[0]) {
        maxs' := [bitmask[..]];
      } else if active == Active(maxs[0]) {
        maxs' := maxs + [bitmask[..]];
      }
    } else {
      maxs' := [bitmask[..]];
    }
  }

  lemma NothingAtZero(n: nat, ok: Bits -> bool)
    ensures Maxima(n, ok, 0, [])
  {}
}
