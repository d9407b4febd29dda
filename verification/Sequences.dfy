/** Two notions on sequences that several models share. */
module Sequences {

  predicate Distinct<T(==)>(s: seq<T>) {
    forall i, j :: 0 <= i < j < |s| ==> s[i] != s[j]
  }

  function Flatten<T>(parts: seq<seq<T>>): seq<T> {
    if parts == [] then [] else parts[0] + Flatten(parts[1..])
  }

  /** The parts lie one behind the other in the flattened sequence. */
  lemma {:induction false} FlattenSplits<T>(parts: seq<seq<T>>, i: nat)
    requires i < |parts|
    ensures Flatten(parts) == Flatten(parts[..i]) + parts[i] + Flatten(parts[i + 1..])
  {
    if i == 0 {
      assert Flatten(parts) == parts[0] + Flatten(parts[1..]);
    } else {
      FlattenSplits(parts[1..], i - 1);
      assert parts[..i][1..] == parts[1..][..i - 1] && parts[1..][i..] == parts[i + 1..];
      var before := Flatten(parts[1..][..i - 1]);
      assert Flatten(parts[..i]) == parts[0] + before;
    }
  }

  lemma {:induction false} FlattenAppends<T>(parts: seq<seq<T>>, part: seq<T>)
    ensures Flatten(parts + [part]) == Flatten(parts) + part
  {
    if parts == [] {
      assert [part][1..] == [];
    } else {
      FlattenAppends(parts[1..], part);
      assert (parts + [part])[1..] == parts[1..] + [part];
    }
  }
}
