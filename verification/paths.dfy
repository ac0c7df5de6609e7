/**
 * Distance matrices and paths through them, shared by both solvers.
 */
module Paths {

  /** An n-by-n table: every row has as many entries as there are rows. */
  predicate Square(d: seq<seq<real>>)
  {
    forall i :: 0 <= i < |d| ==> |d[i]| == |d|
  }

  /** Every weight is non-negative. */
  predicate NonNegative(d: seq<seq<real>>)
    requires Square(d)
  {
    forall i, j :: 0 <= i < |d| && 0 <= j < |d| ==> d[i][j] >= 0.0
  }

  predicate NodesBelow(p: seq<nat>, n: nat)
  {
    forall k :: 0 <= k < |p| ==> p[k] < n
  }

  /** No node occurs twice. */
  predicate Distinct(p: seq<nat>)
  {
    forall i, j :: 0 <= i < j < |p| ==> p[i] != p[j]
  }

  /** No two nodes of the path belong to the same pair {2k, 2k+1}. */
  predicate OnePerPair(p: seq<nat>)
  {
    forall i, j :: 0 <= i < j < |p| ==> p[i] / 2 != p[j] / 2
  }

  /** The indices k of the pairs {2k, 2k+1} that the path uses. */
  function PairsOf(p: seq<nat>): set<nat>
  {
    set k | 0 <= k < |p| :: p[k] / 2
  }

  /** Sum of the weights of the edges between consecutive nodes of the path. */
  function PathWeight(d: seq<seq<real>>, p: seq<nat>): (w: real)
    requires Square(d) && NodesBelow(p, |d|)
  {
    if |p| <= 1 then 0.0
    else PathWeight(d, p[..|p| - 1]) + d[p[|p| - 2]][p[|p| - 1]]
  }

  /** Extending a path by one node adds exactly the weight of the new edge. */
  lemma PathWeightAppend(d: seq<seq<real>>, p: seq<nat>, x: nat)
    requires Square(d) && NodesBelow(p, |d|) && x < |d| && |p| >= 1
    ensures NodesBelow(p + [x], |d|)
    ensures PathWeight(d, p + [x]) == PathWeight(d, p) + d[p[|p| - 1]][x]
  {
    var q := p + [x];
    forall k | 0 <= k < |q|
      ensures q[k] < |d|
    {
      if k < |p| {
        assert q[k] == p[k];
      }
    }
    assert q[..|q| - 1] == p;
    assert q[|q| - 2] == p[|p| - 1] && q[|q| - 1] == x;
  }

  /** A path of three nodes weighs its two edges. */
  lemma PathWeight3(d: seq<seq<real>>, a: nat, b: nat, c: nat)
    requires Square(d) && a < |d| && b < |d| && c < |d|
    ensures PathWeight(d, [a, b, c]) == d[a][b] + d[b][c]
  {
    assert [a, b, c][..2] == [a, b] && [a, b][..1] == [a];
    assert PathWeight(d, [a, b]) == PathWeight(d, [a]) + d[a][b];
    assert PathWeight(d, [a, b, c]) == PathWeight(d, [a, b]) + d[b][c];
  }

  /** A path of four nodes weighs its three edges. */
  lemma PathWeight4(d: seq<seq<real>>, a: nat, b: nat, c: nat, e: nat)
    requires Square(d) && a < |d| && b < |d| && c < |d| && e < |d|
    ensures PathWeight(d, [a, b, c, e]) == d[a][b] + d[b][c] + d[c][e]
  {
    assert [a, b, c, e][..3] == [a, b, c];
    PathWeight3(d, a, b, c);
  }

  /** A path of five nodes weighs its four edges. */
  lemma PathWeight5(d: seq<seq<real>>, a: nat, b: nat, c: nat, e: nat, f: nat)
    requires Square(d) && a < |d| && b < |d| && c < |d| && e < |d| && f < |d|
    ensures PathWeight(d, [a, b, c, e, f]) == d[a][b] + d[b][c] + d[c][e] + d[e][f]
  {
    assert [a, b, c, e, f][..4] == [a, b, c, e];
    PathWeight4(d, a, b, c, e);
  }

  /** Over a non-negative matrix every path has non-negative weight. */
  lemma {:induction false} PathWeightNonNegative(d: seq<seq<real>>, p: seq<nat>)
    requires Square(d) && NonNegative(d) && NodesBelow(p, |d|)
    ensures PathWeight(d, p) >= 0.0
  {
    if |p| > 1 {
      PathWeightNonNegative(d, p[..|p| - 1]);
    }
  }

  /** Appending a node not yet on a path keeps its nodes distinct. */
  lemma DistinctAppend(p: seq<nat>, x: nat)
    requires Distinct(p) && x !in p
    ensures Distinct(p + [x])
  {
    var q := p + [x];
    forall i, j | 0 <= i < j < |q|
      ensures q[i] != q[j]
    {
      if j < |p| {
        assert q[i] == p[i] && q[j] == p[j];
      } else {
        assert q[i] == p[i] && q[j] == x;
      }
    }
  }

  /** A path with one node per pair never repeats a node. */
  lemma OnePerPairDistinct(p: seq<nat>)
    requires OnePerPair(p)
    ensures Distinct(p)
  {
  }

  /** The nodes 0 .. n-1 as a set. */
  function Below(n: nat): set<nat>
  {
    if n == 0 then {} else Below(n - 1) + {n - 1}
  }

  /** Below(n) holds exactly the naturals less than n. */
  lemma {:induction false} BelowMembers(n: nat)
    ensures forall v: nat :: v in Below(n) <==> v < n
  {
    if n != 0 {
      BelowMembers(n - 1);
    }
  }

  /** The set of nodes 0 .. n-1 has n elements. */
  lemma {:induction false} BelowCard(n: nat)
    ensures |Below(n)| == n
  {
    if n != 0 {
      BelowCard(n - 1);
      BelowMembers(n - 1);
      assert n - 1 !in Below(n - 1);
    }
  }

  /** The nodes of a path without repetitions, as a set, have as many elements as the path. */
  lemma {:induction false} ElementsCard(p: seq<nat>)
    requires Distinct(p)
    ensures |set k | 0 <= k < |p| :: p[k]| == |p|
  {
    if |p| > 0 {
      var q := p[..|p| - 1];
      ElementsCard(q);
      assert (set k | 0 <= k < |p| :: p[k]) == (set k | 0 <= k < |q| :: q[k]) + {p[|p| - 1]};
    }
  }

  /** A path without repetitions over nodes below n has at most n nodes. */
  lemma DistinctLength(p: seq<nat>, n: nat)
    requires Distinct(p) && NodesBelow(p, n)
    ensures |p| <= n
  {
    ElementsCard(p);
    BelowCard(n);
    BelowMembers(n);
    SubsetCard(set k | 0 <= k < |p| :: p[k], Below(n));
  }

  lemma {:induction false} SubsetCard(s: set<nat>, r: set<nat>)
    requires s <= r
    ensures |s| <= |r|
  {
    if s != {} {
      var x :| x in s;
      SubsetCard(s - {x}, r - {x});
    }
  }
}
