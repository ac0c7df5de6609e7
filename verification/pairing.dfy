/**
 * The fixed pairing of nodes: node 2k is paired with node 2k+1.
 * Both solvers build this pairing as a lookup table before they start.
 */
module Pairing {

  /** The other member of the pair that node `i` belongs to (i XOR 1). */
  function Partner(i: nat): (p: nat)
    ensures p != i
    ensures p / 2 == i / 2
    ensures p % 2 != i % 2
  {
    if i % 2 == 0 then i + 1 else i - 1
  }

  /** The pairing is an involution: taking the partner twice gives the node back. */
  lemma PartnerInvolution(i: nat)
    ensures Partner(Partner(i)) == i
  {
  }

  /**
   * Builds the pair lookup table for `n` nodes, two entries per step,
   * as the loop over even indices does. The caller has already rejected
   * an odd node count.
   */
  method BuildPairMap(n: nat) returns (pairs: seq<nat>)
    requires n % 2 == 0
    ensures |pairs| == n
    ensures forall i :: 0 <= i < n ==> pairs[i] == Partner(i)
    ensures forall i :: 0 <= i < n ==> pairs[i] < n && pairs[i] != i && pairs[pairs[i]] == i
  {
    pairs := [];
    var i := 0;
    while i < n
      invariant i <= n && i % 2 == 0
      invariant |pairs| == i
      invariant forall k :: 0 <= k < i ==> pairs[k] == Partner(k)
    {
      pairs := pairs + [i + 1, i];
      i := i + 2;
    }
  }
}
