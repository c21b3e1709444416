/**
 * Collections.shuffle, as service/algorithm/BFSService.java and the legacy
 * service/DijkstraService.java call it on a neighbour list. The random
 * source is not modelled: each swap partner may be any index the source's
 * nextInt bound allows, so the result is an arbitrary permutation.
 */
module Shuffling {
  import opened Walks

  /** Collections.swap keeps the elements and their multiplicities. */
  lemma Swap<T>(t: seq<T>, i: nat, j: nat)
    requires i < |t| && j < |t|
    ensures multiset(t[i := t[j]][j := t[i]]) == multiset(t)
    ensures Distinct(t) ==> Distinct(t[i := t[j]][j := t[i]])
  {
    var u := t[i := t[j]][j := t[i]];
    if Distinct(t) {
      forall a, b | 0 <= a < b < |u| ensures u[a] != u[b] {
        var a' := if a == i then j else if a == j then i else a;
        var b' := if b == i then j else if b == j then i else b;
        assert u[a] == t[a'] && u[b] == t[b'] && a' != b';
      }
    }
  }

  /** The Fisher-Yates loop of Collections.shuffle: swap position i - 1 with a position below i, for i from the size down to 2. */
  method Shuffle<T>(s: seq<T>) returns (t: seq<T>)
    ensures |t| == |s| && multiset(t) == multiset(s)
    ensures forall x :: x in t <==> x in s
    ensures Distinct(s) ==> Distinct(t)
  {
    t := s;
    var i := |t|;
    while i > 1
      invariant 0 <= i <= |t| && |t| == |s| && multiset(t) == multiset(s)
      invariant Distinct(s) ==> Distinct(t)
    {
      var j :| 0 <= j < i;
      Swap(t, i - 1, j);
      t := t[i - 1 := t[j]][j := t[i - 1]];
      i := i - 1;
    }
    assert forall x :: x in t <==> x in multiset(t);
  }
}
