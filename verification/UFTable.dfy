/** The bounded-probe hash table of user-function addresses in src/tracer/UF_gcc_instrument.c.

    The first half works on table values (`seq`) and proves what any history of insertions and resets
    yields; the second half is the static array with its three counters, refined against the first. */
module UFTable {

  const MAX_UFS: nat := 0x2_0000
  const LOOKAHEAD: nat := 64

  /** A machine address; 0 is NULL. */
  type Address = a: nat | a < 0x1_0000_0000_0000_0000

  type Table = t: seq<Address> | |t| == MAX_UFS witness Empty()

  function Empty(): seq<Address> { seq(MAX_UFS, _ => 0) }

  function Hash(a: Address): nat { (a / 8) % MAX_UFS }

  /** The slot `d` places after the hash of `a`, wrapping around. */
  function Slot(a: Address, d: nat): (p: nat)
    ensures p < MAX_UFS
  {
    (Hash(a) + d) % MAX_UFS
  }

  /** How far slot `p` lies after the hash of the address it holds. */
  function Displacement(t: Table, p: nat): (d: nat)
    requires p < MAX_UFS
    ensures d < MAX_UFS && Slot(t[p], d) == p
  {
    if p >= Hash(t[p]) then p - Hash(t[p]) else p + MAX_UFS - Hash(t[p])
  }

  lemma SlotOfHash(a: Address, d: nat)
    ensures Slot(a, d) == (Hash(a) + d) % MAX_UFS && Hash(a) < MAX_UFS && Slot(a, 0) == Hash(a)
  {}

  /** Hashing numbers the aligned 8-byte words of memory: all addresses in one word share a slot, the next word has the
      next slot, and 2^17 slots come round again. */
  lemma HashNumbersWords(a: nat, byte: nat)
    requires a % 8 == 0 && byte < 8 && a + 16 <= 0x1_0000_0000_0000_0000
    ensures Hash(0) == 0
    ensures Hash(a + byte) == Hash(a)
    ensures Hash(a + 8) == if Hash(a) == 0x1_FFFF then 0 else Hash(a) + 1
  {}

  /** Probing goes from slot to slot upwards and from the last one to the first. */
  lemma SlotsFollow(a: Address, d: nat)
    ensures Slot(a, 0) == Hash(a)
    ensures Slot(a, d + 1) == if Slot(a, d) == 0x1_FFFF then 0 else Slot(a, d) + 1
  {
    hide Hash;
    SlotOfHash(a, 0);
  }

  lemma SlotInjective(a: Address, d: nat, e: nat)
    requires d < MAX_UFS && e < MAX_UFS && Slot(a, d) == Slot(a, e)
    ensures d == e
  {}

  /** Every stored address is reachable from its hash through occupied slots, within the lookahead. */
  predicate WellProbed(t: Table) {
    forall p :: 0 <= p < MAX_UFS && t[p] != 0 ==> Reachable(t, p)
  }

  predicate Reachable(t: Table, p: nat)
    requires p < MAX_UFS
  {
    Displacement(t, p) <= LOOKAHEAD
    && forall e: nat :: e < Displacement(t, p) ==> t[Slot(t[p], e)] != 0
  }

  // ---------- lookup ----------

  function LookupProbe(t: Table, a: Address, d: nat): nat
    requires d <= LOOKAHEAD
    decreases LOOKAHEAD - d
  {
    if t[Slot(a, d)] != a && t[Slot(a, d)] != 0 && d < LOOKAHEAD then LookupProbe(t, a, d + 1) else d
  }

  lemma LookupProbeStep(t: Table, a: Address, d: nat)
    requires d <= LOOKAHEAD
    ensures LookupProbe(t, a, d)
         == if t[Slot(a, d)] != a && t[Slot(a, d)] != 0 && d < LOOKAHEAD then LookupProbe(t, a, d + 1) else d
  {}

  predicate Lookup(t: Table, a: Address) {
    t[Slot(a, LookupProbe(t, a, 0))] == a
  }

  lemma {:induction false} LookupProbeReaches(t: Table, a: Address, d: nat, target: nat)
    requires d <= target <= LOOKAHEAD && a != 0
    requires forall e: nat :: e < target ==> t[Slot(a, e)] != 0
    requires t[Slot(a, target)] == a
    ensures t[Slot(a, LookupProbe(t, a, d))] == a
    decreases target - d
  {
    if d < target && t[Slot(a, d)] != a { LookupProbeReaches(t, a, d + 1, target); }
  }

  /** In a well-probed table the bounded probe answers exactly "is it stored anywhere". */
  lemma LookupIsMembership(t: Table, a: Address)
    requires WellProbed(t) && a != 0
    ensures Lookup(t, a) <==> a in t
  {
    if a in t {
      var p :| 0 <= p < MAX_UFS && t[p] == a;
      assert Reachable(t, p);
      LookupProbeReaches(t, a, 0, Displacement(t, p));
    }
  }

  // ---------- insertion ----------

  function FreeProbe(t: Table, a: Address, d: nat): (r: nat)
    requires d <= LOOKAHEAD
    ensures d <= r <= LOOKAHEAD
    ensures t[Slot(a, r)] == 0 || r == LOOKAHEAD
    ensures forall e: nat :: d <= e < r ==> t[Slot(a, e)] != 0
    decreases LOOKAHEAD - d
  {
    if t[Slot(a, d)] != 0 && d < LOOKAHEAD then FreeProbe(t, a, d + 1) else d
  }

  lemma FreeProbeStep(t: Table, a: Address, d: nat)
    requires d <= LOOKAHEAD
    ensures FreeProbe(t, a, d)
         == if t[Slot(a, d)] != 0 && d < LOOKAHEAD then FreeProbe(t, a, d + 1) else d
  {}

  predicate HasRoom(t: Table, a: Address) {
    exists d: nat :: d <= LOOKAHEAD && t[Slot(a, d)] == 0
  }

  function Insert(t: Table, a: Address): Table {
    var p := Slot(a, FreeProbe(t, a, 0));
    if t[p] == 0 then t[p := a] else t
  }

  /** The free slot the insertion is meant for. */
  predicate FirstFree(t: Table, a: Address, d: nat) {
    d <= LOOKAHEAD && t[Slot(a, d)] == 0 && forall e: nat :: e < d ==> t[Slot(a, e)] != 0
  }

  /** An insertion is dropped only when all 65 slots of the window are taken; otherwise it fills the first
      free one and touches no other slot. */
  lemma InsertFillsFirstFreeSlot(t: Table, a: Address)
    ensures HasRoom(t, a) ==> FirstFree(t, a, FreeProbe(t, a, 0))
                              && Insert(t, a) == t[Slot(a, FreeProbe(t, a, 0)) := a]
    ensures !HasRoom(t, a) ==> Insert(t, a) == t
    ensures HasRoom(t, a) <==> exists d: nat :: d <= 64 && t[Slot(a, d)] == 0
  {
    var d := FreeProbe(t, a, 0);
    if HasRoom(t, a) {
      var e: nat :| e <= LOOKAHEAD && t[Slot(a, e)] == 0;
      assert d <= e;
    }
  }

  lemma FillKeepsWellProbed(t: Table, a: Address, d: nat)
    requires WellProbed(t) && a != 0 && FirstFree(t, a, d)
    ensures WellProbed(t[Slot(a, d) := a])
  {
    var p := Slot(a, d);
    var t' := t[p := a];
    forall q | 0 <= q < MAX_UFS && t'[q] != 0 ensures Reachable(t', q) {
      if q == p {
        SlotInjective(a, d, Displacement(t', p));
        forall e: nat | e < d ensures t'[Slot(a, e)] != 0 {}
      } else {
        assert Reachable(t, q);
        var n := Displacement(t, q);
        assert Displacement(t', q) == n;
        forall e: nat | e < n ensures t'[Slot(t[q], e)] != 0 {}
      }
    }
  }

  lemma FillAddsOne(t: Table, a: Address, p: nat, b: Address)
    requires p < MAX_UFS && t[p] == 0 && b != 0
    ensures b in t[p := a] <==> b in t || b == a
  {
    var t' := t[p := a];
    if b in t {
      var q :| 0 <= q < MAX_UFS && t[q] == b;
      assert t'[q] == b;
    }
    assert t'[p] == a;
  }

  lemma InsertKeepsWellProbed(t: Table, a: Address)
    requires WellProbed(t) && a != 0
    ensures WellProbed(Insert(t, a))
    ensures forall b: Address :: b != 0 ==> (b in Insert(t, a) <==> b in t || (b == a && HasRoom(t, a)))
  {
    hide WellProbed;
    InsertFillsFirstFreeSlot(t, a);
    if HasRoom(t, a) {
      var d := FreeProbe(t, a, 0);
      FillKeepsWellProbed(t, a, d);
      forall b: Address | b != 0 ensures b in Insert(t, a) <==> b in t || b == a {
        FillAddsOne(t, a, Slot(a, d), b);
      }
    }
  }

  // ---------- statistics ----------

  datatype Statistic = Occupied | Displaced | TotalDisplacement

  function Weight(t: Table, p: nat, s: Statistic): nat
    requires p < MAX_UFS
  {
    if t[p] == 0 then 0
    else match s
      case Occupied => 1
      case Displaced => if Displacement(t, p) > 0 then 1 else 0
      case TotalDisplacement => Displacement(t, p)
  }

  /** The statistic `s` summed over the first `n` slots. */
  function Tally(t: Table, n: nat, s: Statistic): nat
    requires n <= MAX_UFS
  {
    if n == 0 then 0 else Tally(t, n - 1, s) + Weight(t, n - 1, s)
  }

  lemma {:induction false} TallyAfterFill(t: Table, p: nat, a: Address, n: nat, s: Statistic)
    requires p < MAX_UFS && n <= MAX_UFS && t[p] == 0
    ensures Tally(t[p := a], n, s) == Tally(t, n, s) + if p < n then Weight(t[p := a], p, s) else 0
  {
    if n > 0 {
      TallyAfterFill(t, p, a, n - 1, s);
      if n - 1 != p {
        assert t[p := a][n - 1] == t[n - 1];
        assert Weight(t[p := a], n - 1, s) == Weight(t, n - 1, s);
      }
    }
  }

  lemma {:induction false} TallyOfEmpty(n: nat, s: Statistic)
    requires n <= MAX_UFS
    ensures Tally(Empty(), n, s) == 0
  {
    if n > 0 { TallyOfEmpty(n - 1, s); }
  }

  /** The first two statistics in numbers: the slots in use, and those whose address hashes elsewhere. */
  lemma {:induction false} OccupiedCounts(t: Table, n: nat)
    requires n <= MAX_UFS
    ensures Tally(t, n, Occupied) == |set p | 0 <= p < n && t[p] != 0|
  {
    hide Displacement;
    if n > 0 {
      var last := n - 1;
      OccupiedCounts(t, last);
      var now, before := set p | 0 <= p < n && t[p] != 0, set p | 0 <= p < last && t[p] != 0;
      assert now == before + if t[last] != 0 then {last} else {};
    }
  }

  lemma DisplacedExactly(t: Table, p: nat)
    requires p < MAX_UFS
    ensures Weight(t, p, Displaced) == if t[p] != 0 && p != Hash(t[p]) then 1 else 0
  {}

  lemma {:induction false} DisplacedCounts(t: Table, n: nat)
    requires n <= MAX_UFS
    ensures Tally(t, n, Displaced) == |set p | 0 <= p < n && t[p] != 0 && p != Hash(t[p])|
  {
    hide Hash, Weight;
    if n > 0 {
      var last := n - 1;
      DisplacedCounts(t, last);
      DisplacedExactly(t, last);
      var now := set p | 0 <= p < n && t[p] != 0 && p != Hash(t[p]);
      var before := set p | 0 <= p < last && t[p] != 0 && p != Hash(t[p]);
      assert now == before + if t[last] != 0 && last != Hash(t[last]) then {last} else {};
    }
  }

  /** Displaced entries lie 1 to 64 slots away, so the printed average distance lies between 1 and 64, and no
      counter leaves 32 bits. */
  lemma {:induction false} TallyBounds(t: Table, n: nat)
    requires n <= MAX_UFS && WellProbed(t)
    ensures Tally(t, n, Displaced) <= Tally(t, n, Occupied) <= n
    ensures Tally(t, n, Displaced) <= Tally(t, n, TotalDisplacement) <= LOOKAHEAD * Tally(t, n, Displaced)
  {
    if n > 0 {
      TallyBounds(t, n - 1);
      if t[n - 1] != 0 { assert Reachable(t, n - 1); }
    }
  }

  // ---------- any history ----------

  datatype Op = Add(address: Address) | Reset

  function Run(ops: seq<Op>): Table {
    if ops == [] then Empty()
    else
      var before := Run(ops[..|ops| - 1]);
      match ops[|ops| - 1]
      case Add(a) => Insert(before, a)
      case Reset => Empty()
  }

  /** The addresses some insertion of which succeeded since the last reset. */
  function Succeeded(ops: seq<Op>): set<Address> {
    if ops == [] then {}
    else
      var before := ops[..|ops| - 1];
      match ops[|ops| - 1]
      case Add(a) => if HasRoom(Run(before), a) then Succeeded(before) + {a} else Succeeded(before)
      case Reset => {}
  }

  predicate NoNull(ops: seq<Op>) {
    forall i :: 0 <= i < |ops| && ops[i].Add? ==> ops[i].address != 0
  }

  lemma {:induction false} RunHoldsExactlySucceeded(ops: seq<Op>)
    requires NoNull(ops)
    ensures WellProbed(Run(ops))
    ensures forall a: Address :: a != 0 ==> (a in Run(ops) <==> a in Succeeded(ops))
  {
    if ops != [] {
      var before := ops[..|ops| - 1];
      RunHoldsExactlySucceeded(before);
      match ops[|ops| - 1]
      case Add(a) => InsertKeepsWellProbed(Run(before), a);
      case Reset =>
    }
  }

  /** Over any history with collisions, wrap-around and drops, lookup is membership in the set of
      successfully inserted addresses. */
  lemma LookupAfterAnyHistory(ops: seq<Op>, a: Address)
    requires NoNull(ops) && a != 0
    ensures Lookup(Run(ops), a) <==> a in Succeeded(ops)
  {
    RunHoldsExactlySucceeded(ops);
    LookupIsMembership(Run(ops), a);
  }

  // ---------- the static array and its counters ----------

  class UFAddresses {
    const addresses: array<Address>
    var collisions: nat
    var count: nat
    var distance: nat
    /** The addresses added since the last reset. */
    ghost var added: set<Address>

    ghost predicate Valid()
      reads this, addresses
    {
      && addresses.Length == MAX_UFS
      && WellProbed(addresses[..])
      && count == Tally(addresses[..], MAX_UFS, Occupied)
      && collisions == Tally(addresses[..], MAX_UFS, Displaced)
      && distance == Tally(addresses[..], MAX_UFS, TotalDisplacement)
      && (forall a: Address :: a != 0 ==> (a in addresses[..] <==> a in added))
    }

    constructor ()
      ensures Valid() && added == {} && fresh(addresses)
    {
      addresses := new Address[MAX_UFS];
      new;
      ResetUFtoInstrument();
    }

    method ResetUFtoInstrument()
      requires addresses.Length == MAX_UFS
      modifies this, addresses
      ensures Valid() && added == {} && addresses[..] == Empty()
    {
      for i := 0 to MAX_UFS
        invariant forall k :: 0 <= k < i ==> addresses[k] == 0
      {
        addresses[i] := 0;
      }
      distance, count, collisions := 0, 0, 0;
      added := {};
      assert addresses[..] == Empty();
      TallyOfEmpty(MAX_UFS, Occupied);
      TallyOfEmpty(MAX_UFS, Displaced);
      TallyOfEmpty(MAX_UFS, TotalDisplacement);
    }

    /** `ok` is false where the C function reports that it cannot add the address. */
    method AddUFtoInstrument(address: Address) returns (ok: bool)
      requires Valid() && address != 0
      modifies this, addresses
      ensures Valid()
      ensures ok == old(HasRoom(addresses[..], address))
      ensures addresses[..] == Insert(old(addresses[..]), address)
      ensures added == if ok then old(added) + {address} else old(added)
      ensures count == old(count) + if ok then 1 else 0
    {
      hide WellProbed, Tally, Weight, Hash;
      ghost var t: Table := addresses[..];
      InsertKeepsWellProbed(t, address);
      InsertFillsFirstFreeSlot(t, address);
      var i := Hash(address);
      SlotOfHash(address, 0);
      if addresses[i] == 0 {
        assert FreeProbe(t, address, 0) == 0;
        addresses[i] := address;
        count := count + 1;
        ok := true;
        Filled(t, 0, address);
      } else {
        var probes := ProbeForFree(i, address);
        if addresses[(i + probes) % MAX_UFS] == 0 {
          addresses[(i + probes) % MAX_UFS] := address;
          collisions := collisions + 1;
          count := count + 1;
          distance := distance + probes;
          ok := true;
          Filled(t, probes, address);
        } else {
          ok := false;
        }
      }
      assert ok == HasRoom(t, address);
      assert addresses[..] == Insert(t, address);
      if ok { added := added + {address}; }
    }

    method ProbeForFree(i: nat, ghost address: Address) returns (probes: nat)
      requires addresses.Length == MAX_UFS && i == Hash(address) && addresses[i] != 0
      ensures 1 <= probes == FreeProbe(addresses[..], address, 0)
      ensures (i + probes) % MAX_UFS == Slot(address, probes)
    {
      hide Hash, Slot, FreeProbe;
      SlotOfHash(address, 0);
      FreeProbeStep(addresses[..], address, 0);
      probes := 1;
      while addresses[(i + probes) % MAX_UFS] != 0 && probes < LOOKAHEAD
        invariant 1 <= probes <= LOOKAHEAD
        invariant FreeProbe(addresses[..], address, 0) == FreeProbe(addresses[..], address, probes)
        decreases LOOKAHEAD - probes
      {
        SlotOfHash(address, probes);
        FreeProbeStep(addresses[..], address, probes);
        probes := probes + 1;
      }
      SlotOfHash(address, probes);
      FreeProbeStep(addresses[..], address, probes);
    }

    method LookForUFaddress(address: Address) returns (found: bool)
      requires Valid() && address != 0
      ensures found <==> address in added
    {
      hide Hash, Slot, LookupProbe, WellProbed, Tally;
      var i := Hash(address);
      var probes := 0;
      while addresses[(i + probes) % MAX_UFS] != address
            && addresses[(i + probes) % MAX_UFS] != 0
            && probes < LOOKAHEAD
        invariant 0 <= probes <= LOOKAHEAD
        invariant LookupProbe(addresses[..], address, 0) == LookupProbe(addresses[..], address, probes)
        decreases LOOKAHEAD - probes
      {
        SlotOfHash(address, probes);
        LookupProbeStep(addresses[..], address, probes);
        probes := probes + 1;
      }
      SlotOfHash(address, probes);
      LookupProbeStep(addresses[..], address, probes);
      LookupIsMembership(addresses[..], address);
      found := addresses[(i + probes) % MAX_UFS] == address;
    }

    /** The average printed by rank 0. */
    method AverageDistance() returns (average: nat)
      requires Valid() && collisions > 0
      ensures 1 <= average <= LOOKAHEAD
      ensures count <= MAX_UFS && distance <= LOOKAHEAD * MAX_UFS
    {
      TallyBounds(addresses[..], MAX_UFS);
      average := distance / collisions;
      DivisionBounds(distance, collisions, LOOKAHEAD);
    }
  }

  lemma DivisionBounds(total: nat, parts: nat, bound: nat)
    requires 0 < parts <= total <= bound * parts
    ensures 1 <= total / parts <= bound
  {
    var q := total / parts;
    assert q * parts <= total < (q + 1) * parts;
    if q > bound { NotTooSmall(q, bound + 1, parts); }
  }

  lemma NotTooSmall(x: nat, y: nat, parts: nat)
    requires x >= y
    ensures x * parts >= y * parts
  {}

  /** How filling a free slot moves the three tallies. */
  lemma Filled(t: Table, d: nat, a: Address)
    requires d <= LOOKAHEAD && a != 0 && t[Slot(a, d)] == 0
    ensures var t' := t[Slot(a, d) := a];
            && Tally(t', MAX_UFS, Occupied) == Tally(t, MAX_UFS, Occupied) + 1
            && Tally(t', MAX_UFS, Displaced) == Tally(t, MAX_UFS, Displaced) + (if d > 0 then 1 else 0)
            && Tally(t', MAX_UFS, TotalDisplacement) == Tally(t, MAX_UFS, TotalDisplacement) + d
  {
    var p := Slot(a, d);
    var t' := t[p := a];
    SlotInjective(a, d, Displacement(t', p));
    TallyAfterFill(t, p, a, MAX_UFS, Occupied);
    TallyAfterFill(t, p, a, MAX_UFS, Displaced);
    TallyAfterFill(t, p, a, MAX_UFS, TotalDisplacement);
  }
}
