/** Permutations of the index range `0..n-1`, as sequences of indices. */
module Permutations {

  /** `p` lists every index in `0..n-1` exactly once and nothing else. */
  predicate IsPermutation(p: seq<nat>, n: nat) {
    && |p| == n
    && (forall i :: 0 <= i < |p| ==> p[i] < n)
    && (forall i, j :: 0 <= i < j < |p| ==> p[i] != p[j])
    && (forall k :: 0 <= k < n ==> k in p)
  }

  /** Where `k` stands in `p`: the first position holding it. */
  function IndexOf(p: seq<nat>, k: nat): (i: nat)
    requires k in p
    ensures i < |p| && p[i] == k
    ensures forall i' :: 0 <= i' < i ==> p[i'] != k
  {
    if p[0] == k then 0 else 1 + IndexOf(p[1..], k)
  }

  /** In a permutation, `IndexOf` undoes indexing: the position of `p[i]` is `i`. */
  lemma IndexOfAt(p: seq<nat>, n: nat, i: nat)
    requires IsPermutation(p, n) && i < n
    ensures IndexOf(p, p[i]) == i
  {
  }
}
