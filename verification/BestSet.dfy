/** The search for compatible counter sets in src/others/papi_best_set.C.

    Which counters PAPI can measure together is an oracle on lists of counters.  Subsets are bit masks, as in
    the program; bit i selects counter i. */
module BestSet {
  import opened Sequences
  import opened Word32

  type Counter = string
  type Mask = nat

  /** Extrae reads at most this many counters at once. */
  const MAX_IN_SET: nat := 8
  const MAX_BITSET: nat := 128

  // ---------- masks ----------

  /** bitset::count */
  function Count(m: Mask): nat {
    if m == 0 then 0 else m % 2 + Count(m / 2)
  }

  /** bitset::test */
  predicate Test(m: Mask, i: nat) {
    Shr(m, i) % 2 == 1
  }

  function Chosen(cs: seq<Counter>, m: Mask): seq<Counter> {
    if cs == [] then []
    else (if m % 2 == 1 then [cs[0]] else []) + Chosen(cs[1..], m / 2)
  }

  function Unchosen(cs: seq<Counter>, m: Mask): seq<Counter> {
    if cs == [] then []
    else (if m % 2 == 1 then [] else [cs[0]]) + Unchosen(cs[1..], m / 2)
  }

  lemma {:induction false} CountPositive(m: Mask)
    ensures Count(m) == 0 <==> m == 0
  {
    if m != 0 { CountPositive(m / 2); }
  }

  lemma {:induction false} CountIsChosenSize(cs: seq<Counter>, m: Mask)
    requires m < Pow2(|cs|)
    ensures |Chosen(cs, m)| == Count(m)
  {
    if cs != [] {
      CountIsChosenSize(cs[1..], m / 2);
    }
  }

  lemma {:induction false} ChosenSplits(cs: seq<Counter>, m: Mask)
    ensures multiset(Chosen(cs, m)) + multiset(Unchosen(cs, m)) == multiset(cs)
  {
    if cs != [] {
      ChosenSplits(cs[1..], m / 2);
      assert cs == [cs[0]] + cs[1..];
    }
  }

  /** The mask over all counters that selects what `m2` selects among those `m` leaves over. */
  function Lift(n: nat, m: Mask, m2: Mask): Mask {
    if n == 0 then 0
    else if m % 2 == 1 then 2 * Lift(n - 1, m / 2, m2)
    else m2 % 2 + 2 * Lift(n - 1, m / 2, m2 / 2)
  }

  lemma {:induction false} LiftChooses(cs: seq<Counter>, m: Mask, m2: Mask)
    ensures Chosen(cs, Lift(|cs|, m, m2)) == Chosen(Unchosen(cs, m), m2)
    ensures Lift(|cs|, m, m2) < Pow2(|cs|)
  {
    if cs != [] {
      var rest := Unchosen(cs[1..], m / 2);
      if m % 2 == 1 {
        LiftChooses(cs[1..], m / 2, m2);
        assert Unchosen(cs, m) == rest;
      } else {
        LiftChooses(cs[1..], m / 2, m2 / 2);
        assert Unchosen(cs, m) == [cs[0]] + rest && ([cs[0]] + rest)[1..] == rest;
      }
    }
  }

  /** Bit i, the last one after halving i times, decides on counter i. */
  lemma {:induction false} ChosenByBits(cs: seq<Counter>, m: Mask, i: nat)
    requires Distinct(cs) && i < |cs|
    ensures cs[i] in Chosen(cs, m) <==> Shr(m, i) % 2 == 1
    ensures cs[i] in Unchosen(cs, m) <==> Shr(m, i) % 2 == 0
  {
    ChosenFrom(cs[1..], m / 2);
    assert cs[0] !in cs[1..];
    if i > 0 { ChosenByBits(cs[1..], m / 2, i - 1); }
  }

  function Without(cs: seq<Counter>, gone: seq<Counter>): seq<Counter> {
    if cs == [] then [] else (if cs[0] in gone then [] else [cs[0]]) + Without(cs[1..], gone)
  }

  lemma {:induction false} WithoutUnrelated(cs: seq<Counter>, c: Counter, gone: seq<Counter>)
    requires c !in cs
    ensures Without(cs, [c] + gone) == Without(cs, gone)
  {
    if cs != [] { WithoutUnrelated(cs[1..], c, gone); }
  }

  lemma {:induction false} ChosenFrom(cs: seq<Counter>, m: Mask)
    ensures forall c :: c in Chosen(cs, m) || c in Unchosen(cs, m) ==> c in cs
  {
    if cs != [] { ChosenFrom(cs[1..], m / 2); }
  }

  /** Among distinct counters, the unchosen ones are the list without the chosen ones, in its own order. */
  lemma {:induction false} UnchosenKeepsOrder(cs: seq<Counter>, m: Mask)
    requires Distinct(cs)
    ensures Unchosen(cs, m) == Without(cs, Chosen(cs, m))
  {
    if cs != [] {
      UnchosenKeepsOrder(cs[1..], m / 2);
      ChosenFrom(cs[1..], m / 2);
      assert cs[0] !in cs[1..];
      if m % 2 == 1 { WithoutUnrelated(cs[1..], cs[0], Chosen(cs[1..], m / 2)); }
      else { assert Chosen(cs, m) == Chosen(cs[1..], m / 2) && cs[0] !in Chosen(cs[1..], m / 2); }
    }
  }

  /** The chosen ones, too, stand in the list's own order. */
  lemma {:induction false} ChosenKeepsOrder(cs: seq<Counter>, m: Mask)
    requires Distinct(cs)
    ensures Chosen(cs, m) == Without(cs, Unchosen(cs, m))
  {
    if cs != [] {
      ChosenKeepsOrder(cs[1..], m / 2);
      ChosenFrom(cs[1..], m / 2);
      assert cs[0] !in cs[1..];
      if m % 2 == 0 { WithoutUnrelated(cs[1..], cs[0], Unchosen(cs[1..], m / 2)); }
      else { assert Unchosen(cs, m) == Unchosen(cs[1..], m / 2) && cs[0] !in Unchosen(cs[1..], m / 2); }
    }
  }

  // ---------- one search ----------

  datatype Search = Best(mask: Mask) | Endless

  /** The omnipresent counters together with what the hardware answers about adding a list to them. */
  datatype Machine = Machine(omni: seq<Counter>, compatible: seq<Counter> -> bool) {

    /** What the omnipresent counters leave of the eight, computed on 64-bit unsigned numbers. */
    function Limit(): nat {
      (MAX_IN_SET - |omni|) % 0x1_0000_0000_0000_0000
    }

    /** The two tests a mask passes before it can become the maximum. */
    predicate Good(cs: seq<Counter>, m: Mask) {
      Count(m) <= Limit() && compatible(Chosen(cs, m))
    }

    /** `b` is the numerically least good mask of maximum size below `bound`, or 0 if only the empty one is. */
    ghost predicate IsBest(cs: seq<Counter>, bound: nat, b: Mask) {
      && (b == 0 || (b < bound && Good(cs, b)))
      && forall m: Mask :: 0 < m < bound && Good(cs, m) ==>
           Count(m) <= Count(b) && (Count(m) == Count(b) ==> b <= m)
    }

    /** A mask of the full permitted size, which ends the search at once. */
    predicate Full(cs: seq<Counter>, m: Mask) {
      Count(m) == Limit() && (m == 0 || Good(cs, m))
    }

    /** The search reaches its end exactly when 32-bit masks suffice or a full one is among them. */
    ghost predicate Halts(cs: seq<Counter>) {
      |cs| < 32 || exists m: Mask :: m < MODULUS && Full(cs, m)
    }

    /** CheckMaxEventSet, the enumeration.  The mask is stepped through a 32-bit variable; when that wraps to
        zero the loop has come back to its start and never ends. */
    method FindMax(cs: seq<Counter>) returns (r: Search)
      requires |cs| < 63
      ensures r.Best? ==> r.mask < Pow2(|cs|) && IsBest(cs, Pow2(|cs|), r.mask)
      ensures r.Endless? <==> !Halts(cs)
      ensures r.Best? ==> Largest(cs, r.mask)
      ensures |omni| <= 8 ==>
                (r.Endless? <==> |cs| >= 32 && |omni| < 8 && forall m: Mask ::
                   m < 0x1_0000_0000 && |omni| + Count(m) == 8 ==> !compatible(Chosen(cs, m)))
    {
      hide Count, Chosen, Pow2, IsBest, Full, Largest, Limit;
      HaltsInNumbers(cs);
      var bitmask: Mask, maxValue: nat, maxCombination: Mask := 0, Pow2(|cs|), 0;
      MaskRange(|cs|);
      NothingBelowZero(cs);
      while bitmask != maxValue
        invariant bitmask <= maxValue && bitmask < MODULUS
        invariant maxCombination < maxValue
        invariant IsBest(cs, bitmask, maxCombination)
        invariant Count(maxCombination) <= Limit()
        invariant bitmask > 0 ==> Count(maxCombination) != Limit()
        decreases MODULUS - bitmask
      {
        StepKeepsBest(cs, Loop(bitmask, maxCombination));
        var bitvalue := bitmask % MODULUS;
        if Count(bitmask) <= Limit() && compatible(Chosen(cs, bitmask)) && Count(bitmask) > Count(maxCombination) {
          maxCombination := bitmask;
        }
        if Count(maxCombination) == Limit() {
          FullIsBest(cs, bitmask, maxCombination);
          BestIsLargest(cs, maxCombination);
          return Best(maxCombination);
        }
        bitmask := (bitvalue + 1) % MODULUS;
        if bitmask == 0 {
          NoneFull(cs, maxCombination);
          return Endless;
        }
      }
      BestIsLargest(cs, maxCombination);
      return Best(maxCombination);
    }

    /** What the limit is: eight less the omnipresent counters, or, for more than eight, that number modulo 2^64. */
    lemma LimitInNumbers()
      ensures |omni| <= 8 ==> Limit() == 8 - |omni|
      ensures 8 < |omni| < 0x1_0000_0000_0000_0000 ==> Limit() == 0x1_0000_0000_0000_0008 - |omni|
    {}

    /** `b` chooses a compatible set that keeps the total within eight, or nothing, and no such set is larger, or
        equally large with a smaller mask.  For more than eight omnipresent counters nothing is held back. */
    ghost predicate Largest(cs: seq<Counter>, b: Mask) {
      && (b != 0 ==> compatible(Chosen(cs, b)))
      && (|omni| <= 8 ==>
            && |omni| + Count(b) <= 8
            && forall m: Mask :: 0 < m < Pow2(|cs|) && |omni| + Count(m) <= 8 && compatible(Chosen(cs, m)) ==>
                 Count(m) <= Count(b) && (Count(m) == Count(b) ==> b <= m))
      && (8 < |omni| < 0x1_0000_0000_0000_0000 ==>
            && |omni| + Count(b) <= 0x1_0000_0000_0000_0008
            && forall m: Mask ::
                 0 < m < Pow2(|cs|) && |omni| + Count(m) <= 0x1_0000_0000_0000_0008 && compatible(Chosen(cs, m)) ==>
                   Count(m) <= Count(b) && (Count(m) == Count(b) ==> b <= m))
    }

    lemma BestIsLargest(cs: seq<Counter>, b: Mask)
      requires IsBest(cs, Pow2(|cs|), b) && Count(b) <= Limit()
      ensures Largest(cs, b)
    {
      LimitInNumbers();
      hide Count, Chosen, Limit;
      if 0 < |omni| < 0x1_0000_0000_0000_0000 {
        forall m: Mask | 0 < m < Pow2(|cs|) && Count(m) <= Limit() && compatible(Chosen(cs, m)) ensures Good(cs, m) {}
      }
    }

    lemma HaltsInNumbers(cs: seq<Counter>)
      ensures |omni| <= 8 ==>
                (!Halts(cs) <==> |cs| >= 32 && |omni| < 8 && forall m: Mask ::
                   m < 0x1_0000_0000 && |omni| + Count(m) == 8 ==> !compatible(Chosen(cs, m)))
    {
      hide Count, Chosen, Limit;
      LimitInNumbers();
      NothingBelowZero(cs);
      if |omni| == 8 {
        assert Full(cs, 0);
      } else if |omni| < 8 {
        forall m: Mask ensures Full(cs, m) <==> |omni| + Count(m) == 8 && compatible(Chosen(cs, m)) {}
        if m: Mask :| m < MODULUS && Full(cs, m) { assert |omni| + Count(m) == 8; }
        if m: Mask :| m < 0x1_0000_0000 && |omni| + Count(m) == 8 && compatible(Chosen(cs, m)) {
          assert Full(cs, m);
        }
      }
    }

    lemma StepKeepsBest(cs: seq<Counter>, s: Loop)
      requires IsBest(cs, s.mask, s.best)
      ensures IsBest(cs, s.mask + 1, Better(cs, s))
    {
      CountPositive(s.mask);
    }

    lemma NothingBelowZero(cs: seq<Counter>)
      ensures IsBest(cs, 0, 0) && Count(0) == 0
    {}

    lemma FullIsBest(cs: seq<Counter>, bitmask: Mask, b: Mask)
      requires IsBest(cs, bitmask + 1, b) && Count(b) == Limit() && bitmask < Pow2(|cs|)
      ensures IsBest(cs, Pow2(|cs|), b) && Full(cs, b)
    {
    }

    lemma NoneFull(cs: seq<Counter>, b: Mask)
      requires IsBest(cs, MODULUS, b) && Count(b) < Limit()
      ensures forall m: Mask :: m < MODULUS ==> !Full(cs, m)
    {
      CountPositive(0);
    }

    // The loop of the program as a state that turns, whether or not it should have stopped.

    function Better(cs: seq<Counter>, s: Loop): Mask {
      if Good(cs, s.mask) && Count(s.mask) > Count(s.best) then s.mask else s.best
    }

    function After(cs: seq<Counter>, turns: nat): Loop {
      if turns == 0 then Loop(0, 0)
      else
        var s := After(cs, turns - 1);
        Loop((s.mask % MODULUS + 1) % MODULUS, Better(cs, s))
    }

    /** The loop condition fails, or the break is taken. */
    predicate Stops(cs: seq<Counter>, s: Loop) {
      s.mask == Pow2(|cs|) || Count(Better(cs, s)) == Limit()
    }

    lemma BetterFits(cs: seq<Counter>, s: Loop)
      requires s.best == 0 || Good(cs, s.best)
      requires Count(s.best) <= Limit()
      ensures Better(cs, s) == 0 || Good(cs, Better(cs, s))
      ensures Count(Better(cs, s)) <= Limit()
      ensures Better(cs, s) == s.mask || Better(cs, s) == s.best
    {}

    lemma AfterStep(cs: seq<Counter>, turns: nat)
      requires After(cs, turns).mask < MODULUS
      ensures var s := After(cs, turns);
              After(cs, turns + 1) == Loop(if s.mask + 1 < MODULUS then s.mask + 1 else 0, Better(cs, s))
    {
      hide Better;
    }

    lemma {:induction false} AfterInvariant(cs: seq<Counter>, turns: nat)
      ensures var s := After(cs, turns);
              && s.mask < MODULUS && (turns < MODULUS ==> s.mask == turns)
              && s.best < MODULUS && (s.best == 0 || Good(cs, s.best)) && Count(s.best) <= Limit()
    {
      hide Good, Count, Better;
      if turns == 0 {
        NothingBelowZero(cs);
      } else {
        AfterInvariant(cs, turns - 1);
        AfterStep(cs, turns - 1);
        BetterFits(cs, After(cs, turns - 1));
      }
    }

    /** Endless is endless: the loop ever stops if and only if Halts. */
    lemma StopsExactlyWhenHalts(cs: seq<Counter>)
      ensures (exists turns: nat :: Stops(cs, After(cs, turns))) <==> Halts(cs)
    {
      MaskRange(|cs|);
      if |cs| < 32 {
        AfterInvariant(cs, Pow2(|cs|));
        assert Stops(cs, After(cs, Pow2(|cs|)));
      } else if m: Mask :| m < MODULUS && Full(cs, m) {
        AfterInvariant(cs, m);
        assert Stops(cs, After(cs, m));
      } else {
        forall turns: nat ensures !Stops(cs, After(cs, turns)) {
          AfterInvariant(cs, turns);
          var s := After(cs, turns);
          assert !Full(cs, s.mask) && !Full(cs, s.best);
        }
      }
    }

    // ---------- covering all counters ----------

    /** Each set takes the best mask of what the earlier ones left over. */
    ghost predicate GreedyRun(cs: seq<Counter>, sets: seq<seq<Counter>>, left: seq<Counter>)
      decreases |sets|
    {
      if sets == [] then left == cs
      else exists m: Mask ::
             GreedyStep(cs, m) && sets[0] == Chosen(cs, m) && GreedyRun(Unchosen(cs, m), sets[1..], left)
    }

    ghost predicate GreedyStep(cs: seq<Counter>, m: Mask) {
      0 < m < Pow2(|cs|) && IsBest(cs, Pow2(|cs|), m)
    }

    lemma {:induction false} GreedyExtends(cs: seq<Counter>, sets: seq<seq<Counter>>, left: seq<Counter>, m: Mask)
      requires GreedyRun(cs, sets, left) && GreedyStep(left, m)
      ensures GreedyRun(cs, sets + [Chosen(left, m)], Unchosen(left, m))
      decreases |sets|
    {
      var sets' := sets + [Chosen(left, m)];
      if sets == [] {
        assert sets'[1..] == [];
      } else {
        var m0: Mask :| GreedyStep(cs, m0) && sets[0] == Chosen(cs, m0) && GreedyRun(Unchosen(cs, m0), sets[1..], left);
        GreedyExtends(Unchosen(cs, m0), sets[1..], left, m);
        assert sets'[1..] == sets[1..] + [Chosen(left, m)];
      }
    }

    /** The output loop: chosen counters in index order, until no bit is left. */
    method ListChosen(cs: seq<Counter>, m: Mask) returns (chosen: seq<Counter>)
      requires |cs| < 63 && m < Pow2(|cs|)
      ensures chosen == Chosen(cs, m)
    {
      hide Count, Pow2;
      var i, left := 0, Count(m);
      chosen := [];
      while i < MAX_BITSET && left > 0
        invariant i <= |cs| && left == Count(Shr(m, i))
        invariant chosen + Chosen(cs[i..], Shr(m, i)) == Chosen(cs, m)
        decreases MAX_BITSET - i
      {
        if i == |cs| { ShrVanishesAbove(m, |cs|, i); CountPositive(0); }
        OneBit(cs, m, i);
        if Test(m, i) {
          left := left - 1;
          chosen := chosen + [cs[i]];
        }
        i := i + 1;
      }
      NothingChosen(cs[i..], Shr(m, i));
    }

    /** The erase loop: bits are tested from the highest to the lowest, so earlier indices stay valid. */
    method EraseChosen(cs: seq<Counter>, m: Mask) returns (rest: seq<Counter>)
      requires |cs| < 63 && m < Pow2(|cs|)
      ensures rest == Unchosen(cs, m)
    {
      hide Pow2, Unchosen, Shr;
      rest := cs;
      var i := MAX_BITSET;
      ShrVanishesAbove(m, |cs|, MAX_BITSET);
      UnchosenEnds(cs, m);
      while i > 0
        invariant 0 <= i <= MAX_BITSET
        invariant i >= |cs| ==> rest == cs
        invariant i < |cs| ==> rest == cs[..i] + Unchosen(cs[i..], Shr(m, i))
        decreases i
      {
        i := i - 1;
        if Test(m, i) {
          if i >= |cs| { ShrVanishesAbove(m, |cs|, i); }
          rest := rest[..i] + rest[i + 1..];
        }
        if i < |cs| { UnchosenFrom(cs, m, i); }
      }
    }

    /** The greedy loop of main.  `endless` reports that a search did not come back. */
    method CoverAll(cs: seq<Counter>) returns (sets: seq<seq<Counter>>, left: seq<Counter>, endless: bool)
      requires |cs| < 63
      ensures cs == [] ==> sets == [[]] && left == [] && !endless
      ensures cs != [] ==> GreedyRun(cs, sets, left)
      ensures !endless ==> forall m: Mask :: 0 < m < Pow2(|left|) ==> !Good(left, m)
      ensures endless ==> !Halts(left)
      ensures multiset(Flatten(sets)) + multiset(left) == multiset(cs)
      ensures cs != [] && |omni| <= 8 ==>
                forall i :: 0 <= i < |sets| ==> 0 < |sets[i]| && |omni| + |sets[i]| <= 8 && compatible(sets[i])
      ensures !endless && |omni| <= 8 ==>
                forall m: Mask :: 0 < m < Pow2(|left|) && |omni| + Count(m) <= 8 ==> !compatible(Chosen(left, m))
      ensures !endless && 8 < |omni| < 0x1_0000_0000_0000_0000 ==>
                forall m: Mask :: 0 < m < Pow2(|left|) && |omni| + Count(m) <= 0x1_0000_0000_0000_0008 ==>
                  !compatible(Chosen(left, m))
    {
      sets, left, endless := Cover(cs);
      if cs != [] {
        GreedyPartitions(cs, sets, left);
        GreedySetsFit(cs, sets, left);
        LimitInNumbers();
      }
      if !endless { NothingLeft(left); }
    }

    lemma NothingLeft(left: seq<Counter>)
      requires forall m: Mask :: 0 < m < Pow2(|left|) ==> !Good(left, m)
      ensures |omni| <= 8 ==>
                forall m: Mask :: 0 < m < Pow2(|left|) && |omni| + Count(m) <= 8 ==> !compatible(Chosen(left, m))
      ensures 8 < |omni| < 0x1_0000_0000_0000_0000 ==>
                forall m: Mask :: 0 < m < Pow2(|left|) && |omni| + Count(m) <= 0x1_0000_0000_0000_0008 ==>
                  !compatible(Chosen(left, m))
    {
      hide Count, Chosen, Limit, Pow2;
      LimitInNumbers();
      forall m: Mask | 0 < m < Pow2(|left|) && Count(m) <= Limit() ensures !compatible(Chosen(left, m)) {
        assert !Good(left, m);
      }
    }

    /** The loop itself. */
    method Cover(cs: seq<Counter>) returns (sets: seq<seq<Counter>>, left: seq<Counter>, endless: bool)
      requires |cs| < 63
      ensures cs == [] ==> sets == [[]] && left == [] && !endless
      ensures cs != [] ==> GreedyRun(cs, sets, left)
      ensures !endless ==> forall m: Mask :: 0 < m < Pow2(|left|) ==> !Good(left, m)
      ensures endless ==> !Halts(left)
    {
      hide IsBest, Chosen, Unchosen, Good, Largest;
      sets, left, endless := [], cs, false;
      var counters, previous := cs, |cs|;
      while true
        invariant left == counters && previous == |counters| <= |cs| && !endless
        invariant cs == [] ==> sets == [] && counters == []
        invariant cs != [] ==> counters != [] && GreedyRun(cs, sets, counters)
        decreases |counters|
      {
        var search := FindMax(counters);
        if search.Endless? { endless := true; return; }
        var m := search.mask;
        CountPositive(m);
        CountIsChosenSize(counters, m);
        if Count(m) > 0 || |counters| == 0 {
          var chosen := ListChosen(counters, m);
          sets := sets + [chosen];
          if Count(m) > 0 {
            GreedyExtends(cs, sets[..|sets| - 1], counters, m);
            UnchosenShrinks(counters, m);
            counters := EraseChosen(counters, m);
          }
        }
        left := counters;
        if previous == |counters| && previous > 0 {
          NothingGood(counters);
          return;
        }
        previous := |counters|;
        if |counters| == 0 { return; }
      }
    }

    lemma UnchosenShrinks(cs: seq<Counter>, m: Mask)
      requires 0 < m < Pow2(|cs|)
      ensures |Unchosen(cs, m)| < |cs|
    {
      ChosenSplits(cs, m);
      CountIsChosenSize(cs, m);
      CountPositive(m);
      assert |multiset(cs)| == |multiset(Chosen(cs, m))| + |multiset(Unchosen(cs, m))|;
    }

    lemma NothingGood(cs: seq<Counter>)
      requires IsBest(cs, Pow2(|cs|), 0)
      ensures forall m: Mask :: 0 < m < Pow2(|cs|) ==> !Good(cs, m)
    {
      forall m: Mask | 0 < m < Pow2(|cs|) ensures !Good(cs, m) { CountPositive(m); }
    }

    /** Chosen counters and leftovers are together exactly the input. */
    lemma {:induction false} GreedyPartitions(cs: seq<Counter>, sets: seq<seq<Counter>>, left: seq<Counter>)
      requires GreedyRun(cs, sets, left)
      ensures multiset(Flatten(sets)) + multiset(left) == multiset(cs)
      decreases |sets|
    {
      if sets != [] {
        var m: Mask :| GreedyStep(cs, m) && sets[0] == Chosen(cs, m) && GreedyRun(Unchosen(cs, m), sets[1..], left);
        ChosenSplits(cs, m);
        GreedyPartitions(Unchosen(cs, m), sets[1..], left);
      }
    }

    /** With distinct counters the sets are pairwise disjoint and share nothing with the leftovers. */
    lemma GreedySetsAreDisjoint(cs: seq<Counter>, sets: seq<seq<Counter>>, left: seq<Counter>, i: nat, c: Counter)
      requires GreedyRun(cs, sets, left) && Distinct(cs)
      requires i < |sets| && c in sets[i]
      ensures c in cs && c !in left && forall j :: 0 <= j < |sets| && j != i ==> c !in sets[j]
    {
      hide GreedyRun, Distinct;
      GreedyPartitions(cs, sets, left);
      DistinctMultiplicity(cs, c);
      InFlatten(sets, i, c);
      assert multiset(Flatten(sets))[c] >= 1;
      assert multiset(cs)[c] == multiset(Flatten(sets))[c] + multiset(left)[c];
      forall j | 0 <= j < |sets| && j != i ensures c !in sets[j] {
        if c in sets[j] {
          if i < j { FlattenDisjoint(sets, i, j, c); } else { FlattenDisjoint(sets, j, i, c); }
        }
      }
    }

    /** Every emitted set is nonempty, compatible and within the limit. */
    lemma {:induction false} GreedySetsFit(cs: seq<Counter>, sets: seq<seq<Counter>>, left: seq<Counter>)
      requires GreedyRun(cs, sets, left)
      ensures forall i :: 0 <= i < |sets| ==> 0 < |sets[i]| <= Limit() && compatible(sets[i])
      decreases |sets|
    {
      if sets != [] {
        var m: Mask :| GreedyStep(cs, m) && sets[0] == Chosen(cs, m) && GreedyRun(Unchosen(cs, m), sets[1..], left);
        CountIsChosenSize(cs, m);
        CountPositive(m);
        GreedySetsFit(Unchosen(cs, m), sets[1..], left);
        forall i | 0 <= i < |sets| ensures 0 < |sets[i]| <= Limit() && compatible(sets[i]) {
          if i > 0 { assert sets[i] == sets[1..][i - 1]; }
        }
      }
    }

    /** Every emitted set is a largest one among what the earlier sets left over. */
    lemma {:induction false} GreedyTakesLargest(cs: seq<Counter>, sets: seq<seq<Counter>>, left: seq<Counter>, i: nat)
      returns (rest: seq<Counter>, m: Mask)
      requires GreedyRun(cs, sets, left) && i < |sets|
      ensures GreedyRun(cs, sets[..i], rest) && GreedyRun(rest, sets[i..], left)
      ensures 0 < m < Pow2(|rest|) && sets[i] == Chosen(rest, m) && Largest(rest, m)
      decreases i
    {
      hide Largest, IsBest, Chosen, Unchosen, Count, Good, Limit;
      var m0: Mask :| GreedyStep(cs, m0) && sets[0] == Chosen(cs, m0) && GreedyRun(Unchosen(cs, m0), sets[1..], left);
      if i == 0 {
        rest, m := cs, m0;
        assert sets[0..] == sets;
        StepFits(cs, m);
        BestIsLargest(cs, m);
      } else {
        rest, m := GreedyTakesLargest(Unchosen(cs, m0), sets[1..], left, i - 1);
        assert sets[1..][..i - 1] == sets[..i][1..] && sets[1..][i - 1..] == sets[i..];
      }
    }

    lemma StepFits(cs: seq<Counter>, m: Mask)
      requires GreedyStep(cs, m)
      ensures Count(m) <= Limit()
    {}

    /** Whatever a later search can measure was there to be chosen before. */
    lemma LaterSetNoLarger(cs: seq<Counter>, m: Mask, m2: Mask)
      requires GreedyStep(cs, m) && GreedyStep(Unchosen(cs, m), m2)
      ensures |Chosen(Unchosen(cs, m), m2)| <= |Chosen(cs, m)|
    {
      hide Count, Chosen, Unchosen, Lift;
      var rest, lifted := Unchosen(cs, m), Lift(|cs|, m, m2);
      LiftChooses(cs, m, m2);
      CountIsChosenSize(cs, m);
      CountIsChosenSize(rest, m2);
      CountIsChosenSize(cs, lifted);
      CountPositive(m2);
      CountPositive(lifted);
      assert Good(cs, lifted);
    }

    /** A later set is never larger than an earlier one. */
    lemma {:induction false} GreedySizesNeverIncrease(cs: seq<Counter>, sets: seq<seq<Counter>>, left: seq<Counter>,
                                                      i: nat)
      requires GreedyRun(cs, sets, left) && i + 1 < |sets|
      ensures |sets[i + 1]| <= |sets[i]|
      decreases |sets|
    {
      hide GreedyStep, Chosen, Unchosen;
      var m: Mask :| GreedyStep(cs, m) && sets[0] == Chosen(cs, m) && GreedyRun(Unchosen(cs, m), sets[1..], left);
      var rest, tail := Unchosen(cs, m), sets[1..];
      if i > 0 {
        GreedySizesNeverIncrease(rest, tail, left, i - 1);
      } else {
        var m2: Mask :| GreedyStep(rest, m2) && tail[0] == Chosen(rest, m2)
                        && GreedyRun(Unchosen(rest, m2), tail[1..], left);
        LaterSetNoLarger(cs, m, m2);
      }
    }

    /** An emitted set with the omnipresent counters in front stays within eight if and only if there are at
        most eight omnipresent counters: beyond that the subtraction wraps and nothing is held back. */
    lemma WithinEightExactly(cs: seq<Counter>, sets: seq<seq<Counter>>, left: seq<Counter>, i: nat)
      requires GreedyRun(cs, sets, left) && i < |sets|
      ensures |omni + sets[i]| <= MAX_IN_SET <==> |omni| <= MAX_IN_SET
    {
      GreedySetsFit(cs, sets, left);
    }
  }

  datatype Loop = Loop(mask: Mask, best: Mask)

  /** With given omnipresent counters the search returns on all hardware if and only if there are fewer than 32
      counters, or exactly eight omnipresent ones, which leave nothing to search for. */
  lemma AlwaysHaltsExactly(omni: seq<Counter>, cs: seq<Counter>)
    requires |omni| < 0x1_0000_0000_0000_0000
    ensures (forall ok: seq<Counter> -> bool :: Machine(omni, ok).Halts(cs)) <==> |cs| < 32 || |omni| == MAX_IN_SET
    ensures |cs| >= 32 && |omni| != MAX_IN_SET ==> !Machine(omni, _ => false).Halts(cs)
  {
    var deaf := Machine(omni, _ => false);
    CountPositive(0);
    assert deaf.Limit() == 0 <==> |omni| == MAX_IN_SET;
    if |omni| == MAX_IN_SET {
      forall ok: seq<Counter> -> bool ensures Machine(omni, ok).Halts(cs) {
        assert Machine(omni, ok).Full(cs, 0);
      }
    } else {
      assert forall m: Mask :: !deaf.Full(cs, m);
    }
  }

  /** Nine or more omnipresent counters, short of 2^64, go into a set together with one more. */
  lemma OverfullSet(omni: seq<Counter>, c: Counter)
    requires MAX_IN_SET < |omni| < 0x1_0000_0000_0000_0000
    ensures Machine(omni, _ => true).GreedyRun([c], [[c]], []) && |omni + [c]| > MAX_IN_SET
  {
    var machine, cs := Machine(omni, _ => true), [c];
    assert Pow2(1) == 2 && Count(1) == 1;
    assert cs[1..] == [] && Chosen([], 0) == [] && Unchosen([], 0) == [];
    assert Chosen(cs, 1) == [c] && Unchosen(cs, 1) == [];
    assert machine.Limit() >= 1;
    assert machine.GreedyStep(cs, 1);
    assert machine.GreedyRun(Unchosen(cs, 1), [[c]][1..], []);
  }

  lemma {:induction false} InFlatten(sets: seq<seq<Counter>>, i: nat, c: Counter)
    requires i < |sets| && c in sets[i]
    ensures c in Flatten(sets)
  {
    if i > 0 { InFlatten(sets[1..], i - 1, c); }
  }

  lemma DistinctMultiplicity(cs: seq<Counter>, c: Counter)
    requires Distinct(cs)
    ensures multiset(cs)[c] <= 1
  {
    if cs != [] {
      DistinctMultiplicity(cs[1..], c);
      assert cs == [cs[0]] + cs[1..];
      if c == cs[0] { assert c !in cs[1..]; }
    }
  }

  /** Two different sets share no counter when all of them together repeat none. */
  lemma {:induction false} FlattenDisjoint(sets: seq<seq<Counter>>, i: nat, j: nat, c: Counter)
    requires i < j < |sets| && c in sets[i] && c in sets[j]
    ensures multiset(Flatten(sets))[c] >= 2
  {
    if i == 0 {
      InFlatten(sets[1..], j - 1, c);
      assert multiset(sets[0])[c] >= 1 && multiset(Flatten(sets[1..]))[c] >= 1;
    } else {
      FlattenDisjoint(sets[1..], i - 1, j - 1, c);
    }
  }

  lemma OneBit(cs: seq<Counter>, m: Mask, i: nat)
    requires i < |cs|
    ensures Count(Shr(m, i)) == Count(Shr(m, i + 1)) + if Test(m, i) then 1 else 0
    ensures Chosen(cs[i..], Shr(m, i)) == (if Test(m, i) then [cs[i]] else []) + Chosen(cs[i + 1..], Shr(m, i + 1))
  {
    ShrAdds(m, i, 1);
    assert cs[i..][1..] == cs[i + 1..];
  }

  lemma NothingChosen(cs: seq<Counter>, m: Mask)
    requires Count(m) == 0
    ensures Chosen(cs, m) == []
  {
    CountPositive(m);
    ChosenByZero(cs);
  }

  lemma {:induction false} ChosenByZero(cs: seq<Counter>)
    ensures Chosen(cs, 0) == []
  {
    if cs != [] { ChosenByZero(cs[1..]); }
  }

  lemma ShrVanishesAbove(m: Mask, n: nat, i: nat)
    requires m < Pow2(n) && n <= i
    ensures Shr(m, i) == 0
  {
    Pow2Monotone(n, i);
    ShrVanishes(m, i);
  }

  lemma UnchosenFrom(cs: seq<Counter>, m: Mask, i: nat)
    requires i < |cs|
    ensures Unchosen(cs[i..], Shr(m, i)) == (if Test(m, i) then [] else [cs[i]]) + Unchosen(cs[i + 1..], Shr(m, i + 1))
  {
    ShrAdds(m, i, 1);
    assert cs[i..][1..] == cs[i + 1..];
  }

  lemma UnchosenEnds(cs: seq<Counter>, m: Mask)
    ensures Unchosen(cs[|cs|..], Shr(m, |cs|)) == [] && Unchosen(cs[0..], Shr(m, 0)) == Unchosen(cs, m)
  {
    assert cs[0..] == cs;
  }

  lemma MaskRange(n: nat)
    ensures n < 32 ==> Pow2(n) < MODULUS
    ensures n >= 32 ==> MODULUS <= Pow2(n)
  {
    Pow2Of32();
    if n < 32 { Pow2Monotone(n, 31); } else { Pow2Monotone(32, n); }
  }

  // ---------- the command-line list of counters ----------

  /** string::find (','), or the length when there is none. */
  function Comma(s: string): (p: nat)
    ensures p <= |s| && (p < |s| ==> s[p] == ',') && forall i :: 0 <= i < p ==> s[i] != ','
  {
    if s == [] || s[0] == ',' then 0 else 1 + Comma(s[1..])
  }

  /** The comma-separated fields of `s`, empty ones included. */
  function Fields(s: string): (fields: seq<string>)
    ensures fields != []
    decreases |s|
  {
    var p := Comma(s);
    if p == |s| then [s] else [s[..p]] + Fields(s[p + 1..])
  }

  function Join(fields: seq<string>): string
    requires fields != []
  {
    if |fields| == 1 then fields[0] else fields[0] + "," + Join(fields[1..])
  }

  /** Fields cuts at every comma and loses nothing. */
  lemma {:induction false} FieldsRoundTrip(s: string)
    ensures Join(Fields(s)) == s
    ensures forall i :: 0 <= i < |Fields(s)| ==> ',' !in Fields(s)[i]
    decreases |s|
  {
    var p := Comma(s);
    if p < |s| {
      FieldsRoundTrip(s[p + 1..]);
      assert s == s[..p] + "," + s[p + 1..];
    }
  }

  function AppendNew(counters: seq<Counter>, fields: seq<string>): seq<Counter>
    decreases |fields|
  {
    if fields == [] then counters
    else
      var f := fields[0];
      AppendNew(if f != [] && f !in counters then counters + [f] else counters, fields[1..])
  }

  lemma AppendsFresh(counters: seq<Counter>, fields: seq<string>)
    requires fields != [] && Distinct(counters + fields) && [] !in fields
    ensures fields[0] != [] && fields[0] !in counters && [] !in fields[1..]
    ensures counters + fields == counters + [fields[0]] + fields[1..]
  {
    var all := counters + fields;
    assert all[|counters|] == fields[0];
    assert forall i :: 0 <= i < |counters| ==> all[i] == counters[i];
  }

  /** The list keeps what it had in place, stays free of repetitions, and gains exactly the nonempty fields. */
  lemma {:induction false} AppendNewKeepsDistinct(counters: seq<Counter>, fields: seq<string>)
    requires Distinct(counters)
    ensures Distinct(AppendNew(counters, fields))
    ensures counters <= AppendNew(counters, fields)
    ensures forall c :: c in AppendNew(counters, fields) <==> c in counters || (c in fields && c != [])
    ensures Distinct(counters + fields) && [] !in fields ==> AppendNew(counters, fields) == counters + fields
    decreases |fields|
  {
    if fields != [] {
      var f := fields[0];
      if Distinct(counters + fields) && [] !in fields { AppendsFresh(counters, fields); }
      assert forall c :: c in fields <==> c == f || c in fields[1..];
      AppendNewKeepsDistinct(if f != [] && f !in counters then counters + [f] else counters, fields[1..]);
    }
  }

  lemma AppendField(counters: seq<Counter>, s: string)
    requires Comma(s) < |s|
    ensures var field := s[..Comma(s)];
            AppendNew(counters, Fields(s))
            == AppendNew(if field != [] && field !in counters then counters + [field] else counters,
                         Fields(s[Comma(s) + 1..]))
  {
    assert Fields(s)[1..] == Fields(s[Comma(s) + 1..]);
  }

  lemma AppendLastField(counters: seq<Counter>, s: string)
    requires Comma(s) == |s|
    ensures AppendNew(counters, Fields(s)) == if s != [] && s !in counters then counters + [s] else counters
  {
    assert Fields(s)[1..] == [];
  }

  /** addCounters */
  method AddCounters(ctr: string, counters: seq<Counter>) returns (all: seq<Counter>)
    ensures all == AppendNew(counters, Fields(ctr))
  {
    hide Comma, Fields, AppendNew;
    all := counters;
    var rest := ctr;
    var position := Comma(rest);
    while position != |rest|
      invariant position == Comma(rest)
      invariant AppendNew(all, Fields(rest)) == AppendNew(counters, Fields(ctr))
      decreases |rest|
    {
      var field := rest[..position];
      AppendField(all, rest);
      if |field| > 0 && field !in all { all := all + [field]; }
      rest := rest[position + 1..];
      position := Comma(rest);
    }
    AppendLastField(all, rest);
    if |rest| > 0 && rest !in all { all := all + [rest]; }
  }
}
