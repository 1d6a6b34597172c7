/** Facts about sequences shared by the other modules. */
module Seqs {
  /** No element occurs twice. */
  predicate Distinct<T(==)>(s: seq<T>)
  {
    forall i, j :: 0 <= i < j < |s| ==> s[i] != s[j]
  }

  /** Concatenation regroups freely; stated once so that proofs can name
      the regrouping they need instead of searching for it. */
  lemma AppendAssoc<T>(a: seq<T>, b: seq<T>, c: seq<T>)
    ensures a + (b + c) == a + b + c
  {
  }

  /** The parts one after the other. */
  function Flatten<T>(parts: seq<seq<T>>): seq<T>
  {
    if |parts| == 0 then [] else Flatten(parts[..|parts| - 1]) + parts[|parts| - 1]
  }

  /** An element of a flattened sequence comes from one of its parts. */
  lemma {:induction false} FlattenSource<T>(parts: seq<seq<T>>, x: T) returns (k: nat)
    requires x in Flatten(parts)
    ensures k < |parts| && x in parts[k]
  {
    var init := parts[..|parts| - 1];
    assert Flatten(parts) == Flatten(init) + parts[|parts| - 1];
    assert x in Flatten(init) || x in parts[|parts| - 1];
    if x in Flatten(init) {
      k := FlattenSource(init, x);
      assert parts[k] == init[k];
    } else {
      k := |parts| - 1;
    }
  }
}
