// Circular lists whose members appear in ascending order of their node number.
//
// The solver appends every column and every matrix node at the end of its list,
// so each list is a header followed by the members of a set of numbers in
// ascending order.  A link is therefore described by the set alone: the forward
// link of a node is the next member, or the header when there is none.
module Rings {
  // "r" is the least member of S that is at least k, or the header h if there is none.
  ghost predicate IsNext(S: set<nat>, k: nat, r: nat, h: nat) {
    || (r == h && forall x <- S :: x < k)
    || (r in S && k <= r && forall x <- S :: x < k || r <= x)
  }

  // "r" is the greatest member of S that is below k, or the header h if there is none.
  ghost predicate IsPrev(S: set<nat>, k: nat, r: nat, h: nat) {
    || (r == h && forall x <- S :: k <= x)
    || (r in S && r < k && forall x <- S :: k <= x || x <= r)
  }

  // Leaving j out redirects exactly the links that led to j.
  lemma NextWithout(S: set<nat>, j: nat, k: nat, r: nat, after: nat, h: nat)
    requires h !in S && j in S && IsNext(S, k, r, h) && IsNext(S, j + 1, after, h)
    ensures IsNext(S - {j}, k, if r == j then after else r, h)
  {
  }

  lemma PrevWithout(S: set<nat>, j: nat, k: nat, r: nat, before: nat, h: nat)
    requires h !in S && j in S && IsPrev(S, k, r, h) && IsPrev(S, j, before, h)
    ensures IsPrev(S - {j}, k, if r == j then before else r, h)
  {
  }

  // The neighbours of j point back at j.
  lemma NextOfPrev(S: set<nat>, j: nat, before: nat, r: nat, h: nat)
    requires h !in S && j in S && IsPrev(S, j, before, h)
    requires IsNext(S, if before == h then 0 else before + 1, r, h)
    ensures r == j
  {
  }

  lemma PrevOfNext(S: set<nat>, j: nat, after: nat, r: nat, h: nat, bound: nat)
    requires h !in S && j in S && IsNext(S, j + 1, after, h) && forall x <- S :: x < bound
    requires IsPrev(S, if after == h then bound else after, r, h)
    ensures r == j
  {
  }
}
