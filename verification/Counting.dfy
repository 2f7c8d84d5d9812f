/** Counting the positions of a sequence that meet a condition, one position at a time. */
module Counting {

  /** A set of positions below `n`, and the same set with or without `n` itself. */
  lemma OneMore(before: set<nat>, counted: set<nat>, n: nat, gained: bool)
    requires forall k :: k in before ==> k < n
    requires forall k :: k in counted <==> k in before || (gained && k == n)
    ensures |counted| == |before| + if gained then 1 else 0
  {
    assert counted == before + if gained then {n} else {};
  }
}
