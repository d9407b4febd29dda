/** How src/extrae-uncore/extrae-uncore.py spreads counters over reader processes. */
module UncoreSets {
  import opened Sequences

  const MAX_PER_SET: nat := 8

  function Sum(sizes: seq<nat>): nat {
    if sizes == [] then 0 else Sum(sizes[..|sizes| - 1]) + sizes[|sizes| - 1]
  }

  /** An even split: nothing lost, larger sets first, no two sizes more than one apart. */
  predicate EvenSplit(n: nat, sizes: seq<nat>) {
    && Sum(sizes) == n
    && forall i, j :: 0 <= i < j < |sizes| ==> sizes[j] <= sizes[i] <= sizes[j] + 1
  }

  lemma {:induction false} AllEqualLow(sizes: seq<nat>, low: nat)
    requires forall j :: 0 <= j < |sizes| ==> low <= sizes[j]
    requires Sum(sizes) == |sizes| * low
    ensures forall j :: 0 <= j < |sizes| ==> sizes[j] == low
  {
    if sizes != [] {
      var front := sizes[..|sizes| - 1];
      SumAtLeast(front, low);
      AllEqualLow(front, low);
      assert forall j :: 0 <= j < |front| ==> sizes[j] == front[j];
    }
  }

  lemma {:induction false} SumAtLeast(sizes: seq<nat>, low: nat)
    requires forall j :: 0 <= j < |sizes| ==> low <= sizes[j]
    ensures |sizes| * low <= Sum(sizes)
  {
    if sizes != [] { SumAtLeast(sizes[..|sizes| - 1], low); }
  }

  /** With enough sets for eight counters each, an even split puts no more than eight in any. */
  lemma EvenSplitWithinEight(n: nat, sizes: seq<nat>)
    requires EvenSplit(n, sizes) && n <= MAX_PER_SET * |sizes|
    ensures forall i :: 0 <= i < |sizes| ==> sizes[i] <= MAX_PER_SET
  {
    if sizes != [] {
      var k, low := |sizes|, sizes[|sizes| - 1];
      assert forall j :: 0 <= j < k ==> low <= sizes[j] <= low + 1;
      SumAtLeast(sizes, low);
      if low >= MAX_PER_SET {
        ProductMonotone(k, MAX_PER_SET, low);
        AllEqualLow(sizes, low);
        if low > MAX_PER_SET { ProductMonotone(k, MAX_PER_SET + 1, low); }
      }
    }
  }

  lemma ProductMonotone(k: nat, a: nat, b: nat)
    requires a <= b
    ensures k * a <= k * b
  {}

  function CeilDiv(n: nat, k: nat): (c: nat)
    requires k > 0
    ensures k * c >= n && (c > 0 ==> k * (c - 1) < n)
  {
    var c := (n + k - 1) / k;
    assert k * c <= n + k - 1 < k * (c + 1);
    c
  }

  /** The number of readers: as few as eight counters per reader allow, made even on request. */
  method NumReaders(numCounters: nat, sockets: nat, balance: bool) returns (readers: nat)
    requires numCounters > 0
    ensures readers > 0 && numCounters <= MAX_PER_SET * readers
    ensures !balance || sockets % 2 != 0 ==> forall k: nat :: numCounters <= MAX_PER_SET * k ==> readers <= k
    ensures balance && sockets % 2 == 0 ==>
              readers % 2 == 0 && forall k: nat :: numCounters <= MAX_PER_SET * k && k % 2 == 0 ==> readers <= k
    ensures readers > numCounters <==> numCounters == 1 && balance && sockets % 2 == 0
  {
    readers := (numCounters + MAX_PER_SET - 1) / MAX_PER_SET;
    if readers % 2 != 0 && sockets % 2 == 0 && balance {
      readers := readers + 1;
    }
  }

  /** The while loop: each reader takes its rounded-up share of what remains. */
  method CountersPerSet(numCounters: nat, numReaders: nat) returns (perSet: seq<nat>)
    requires numReaders > 0
    ensures |perSet| == numReaders && EvenSplit(numCounters, perSet)
  {
    hide FitsBelow;
    var remainingCounters: nat, remainingSets: nat := numCounters, numReaders;
    perSet := [];
    while remainingSets > 0
      invariant |perSet| + remainingSets == numReaders
      invariant Sum(perSet) + remainingCounters == numCounters
      invariant FitsNothing(remainingCounters, remainingSets)
      invariant forall i, j :: 0 <= i < j < |perSet| ==> perSet[j] <= perSet[i] <= perSet[j] + 1
      invariant forall i :: 0 <= i < |perSet| ==> FitsBelow(remainingCounters, remainingSets, perSet[i])
      decreases remainingSets
    {
      var share := CeilDiv(remainingCounters, remainingSets);
      ShareIsNext(remainingCounters, remainingSets, share);
      forall i | 0 <= i < |perSet|
        ensures share <= perSet[i] <= share + 1 && FitsBelow(remainingCounters - share, remainingSets - 1, perSet[i])
      {
        FitsNext(remainingCounters, remainingSets, share, perSet[i]);
      }
      ghost var before := perSet;
      remainingCounters := remainingCounters - share;
      remainingSets := remainingSets - 1;
      perSet := perSet + [share];
      assert perSet[..|perSet| - 1] == before;
    }
  }

  predicate FitsNothing(counters: nat, sets: nat) {
    sets == 0 ==> counters == 0
  }

  /** What remains averages between `size - 1` and `size` per set. */
  predicate FitsBelow(counters: nat, sets: nat, size: nat) {
    sets * (size - 1) <= counters <= sets * size
  }

  lemma Expand(a: int, b: int)
    ensures a * (b - 1) == a * b - a
    ensures (a - 1) * b == a * b - b
    ensures (a - 1) * (b - 1) == a * b - a - b + 1
    ensures a >= 1 && b >= 1 ==> a * (b - 1) >= b - 1
  {}

  lemma ShareIsNext(counters: nat, sets: nat, share: nat)
    requires sets > 0 && sets * share >= counters && (share > 0 ==> sets * (share - 1) < counters)
    ensures share <= counters && FitsBelow(counters - share, sets - 1, share) && FitsNothing(counters - share, sets - 1)
  {
    Expand(sets, share);
  }

  lemma FitsNext(counters: nat, sets: nat, share: nat, size: nat)
    requires sets > 0 && sets * share >= counters && (share > 0 ==> sets * (share - 1) < counters)
    requires FitsBelow(counters, sets, size) && share <= counters
    ensures share <= size <= share + 1 && FitsBelow(counters - share, sets - 1, size)
  {
    Expand(sets, size);
    Expand(sets, share);
    Expand(sets, share + 1);
    if size < share { ProductMonotone(sets, size, share - 1); }
    if size > share + 1 { ProductMonotone(sets, share + 1, size - 1); }
  }

  lemma {:induction false} SumOfPrefix(sizes: seq<nat>, i: nat)
    requires i <= |sizes|
    ensures Sum(sizes[..i]) <= Sum(sizes)
  {
    if i < |sizes| {
      SumOfPrefix(sizes[..|sizes| - 1], i);
      assert sizes[..|sizes| - 1][..i] == sizes[..i];
    } else {
      assert sizes[..i] == sizes;
    }
  }

  /** The head/tail loop: consecutive slices of the sorted names. */
  method Slice<T>(names: seq<T>, perSet: seq<nat>) returns (sets: seq<seq<T>>)
    requires Sum(perSet) == |names|
    ensures |sets| == |perSet| && forall i :: 0 <= i < |sets| ==> |sets[i]| == perSet[i]
    ensures Flatten(sets) == names
  {
    var head := 0;
    sets := [];
    for i := 0 to |perSet|
      invariant |sets| == i && forall k :: 0 <= k < i ==> |sets[k]| == perSet[k]
      invariant head == Sum(perSet[..i]) <= |names|
      invariant Flatten(sets) == names[..head]
    {
      assert perSet[..i + 1][..i] == perSet[..i];
      SumOfPrefix(perSet, i + 1);
      var tail := head + perSet[i];
      FlattenAppends(sets, names[head..tail]);
      sets := sets + [names[head..tail]];
      assert names[..tail] == names[..head] + names[head..tail];
      head := tail;
    }
    assert perSet[..|perSet|] == perSet;
    assert names[..head] == names;
  }

  lemma {:induction false} SumBelowSize(sizes: seq<nat>, i: nat)
    requires i < |sizes| && sizes[i] == 0 && forall j :: 0 <= j < |sizes| ==> sizes[j] <= 1
    ensures Sum(sizes) < |sizes|
  {
    var front := sizes[..|sizes| - 1];
    if i < |front| { SumBelowSize(front, i); } else { SumAtMostSize(front); }
  }

  lemma {:induction false} SumAtMostSize(sizes: seq<nat>)
    requires forall j :: 0 <= j < |sizes| ==> sizes[j] <= 1
    ensures Sum(sizes) <= |sizes|
  {
    if sizes != [] { SumAtMostSize(sizes[..|sizes| - 1]); }
  }

  /** An even split leaves a set empty exactly when there are fewer counters than sets. */
  lemma SomeSetEmptyExactly(n: nat, sizes: seq<nat>)
    requires EvenSplit(n, sizes)
    ensures (exists i :: 0 <= i < |sizes| && sizes[i] == 0) <==> n < |sizes|
  {
    if i :| 0 <= i < |sizes| && sizes[i] == 0 {
      assert forall j :: 0 <= j < |sizes| ==> sizes[j] <= 1;
      SumBelowSize(sizes, i);
    } else {
      SumAtLeast(sizes, 1);
    }
  }

  /** The whole assignment: every counter goes to exactly one reader, in sorted order. */
  method AssignReaders<T>(names: seq<T>, sockets: nat, balance: bool) returns (sets: seq<seq<T>>)
    requires names != []
    ensures Flatten(sets) == names
    ensures forall i :: 0 <= i < |sets| ==> |sets[i]| <= 8
    ensures forall i, j :: 0 <= i < j < |sets| ==> |sets[j]| <= |sets[i]| <= |sets[j]| + 1
    ensures !balance || sockets % 2 != 0 ==> forall k: nat :: |names| <= 8 * k ==> |sets| <= k
    ensures balance && sockets % 2 == 0 ==> |sets| % 2 == 0
                                            && forall k: nat :: |names| <= 8 * k && k % 2 == 0 ==> |sets| <= k
    ensures |sets| > |names| <==> |names| == 1 && balance && sockets % 2 == 0
    ensures (exists i :: 0 <= i < |sets| && sets[i] == []) <==> |names| == 1 && balance && sockets % 2 == 0
  {
    var readers := NumReaders(|names|, sockets, balance);
    assert |names| <= MAX_PER_SET * readers;
    var perSet := CountersPerSet(|names|, readers);
    EvenSplitWithinEight(|names|, perSet);
    SomeSetEmptyExactly(|names|, perSet);
    sets := Slice(names, perSet);
  }
}
