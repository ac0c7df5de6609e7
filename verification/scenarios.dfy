/**
 * The literal scenarios of the unit tests, stated against the solvers'
 * contracts: a client that calls a solver on a test matrix learns the
 * expected result from the solver's postcondition alone.
 */
module Scenarios {
  import opened Paths
  import opened Greedy
  import opened Exact
  import opened Masks
  import opened Memo
  import opened Pairing

  /** The SimpleFourByFour matrix: pairs {0,1} and {2,3}. */
  function FourByFour(): (d: seq<seq<real>>)
    ensures |d| == 4 && Square(d) && NonNegative(d)
  {
    [[0.0, 1.5, 2.7, 1.2],
     [1.5, 0.0, 4.6, 1.1],
     [2.7, 4.6, 0.0, 1.0],
     [1.2, 1.1, 1.0, 0.0]]
  }

  /** The SixBySix matrix: pairs {0,1}, {2,3} and {4,5}. */
  function SixBySix(): (d: seq<seq<real>>)
    ensures |d| == 6 && Square(d) && NonNegative(d)
  {
    [[0.0, 2.0, 1.0, 2.0, 0.5, 2.0],
     [2.0, 0.0, 2.0, 2.0, 2.0, 2.0],
     [1.0, 2.0, 0.0, 2.0, 1.5, 2.0],
     [2.0, 2.0, 2.0, 0.0, 2.0, 2.0],
     [0.5, 2.0, 1.5, 2.0, 0.0, 2.0],
     [2.0, 2.0, 2.0, 2.0, 2.0, 0.0]]
  }

  /** An all-zero n-by-n matrix. */
  function Zeros(n: nat): (d: seq<seq<real>>)
    ensures |d| == n && Square(d) && NonNegative(d)
    ensures forall i, j :: 0 <= i < n && 0 <= j < n ==> d[i][j] == 0.0
  {
    seq(n, _ => seq(n, _ => 0.0))
  }

  /** On the 4-by-4 matrix the greedy path is the seed edge 1-3 of weight 1.1, the lightest edge out of {0,1}. */
  lemma FourByFourGreedyPath(path: seq<nat>)
    requires IsGreedyPath(FourByFour(), path)
    ensures path == [1, 3] && PathWeight(FourByFour(), path) == 1.1
  {
    var d := FourByFour();
    SeedBelow(d, path[0], path[1], 1, 3);
    assert path == [path[0], path[1]];
    assert [1, 3][..1] == [1];
  }

  /**
   * On the 6-by-6 matrix the greedy path is 0-4-2 of weight 2.0: the seed is the
   * 0.5 edge 0-4, and from 4 the cheaper edge into pair {2,3} goes to 2.
   */
  lemma SixBySixGreedyPath(path: seq<nat>)
    requires IsGreedyPath(SixBySix(), path)
    ensures path == [0, 4, 2] && PathWeight(SixBySix(), path) == 2.0
  {
    var d := SixBySix();
    SeedBelow(d, path[0], path[1], 0, 4);
    assert path[0] == 0 && path[1] == 4;
    assert GreedyStepAt(d, path, 1);
    var prefix := path[..2];
    assert prefix == [0, 4];
    assert PairsOf(prefix) == {0, 2} by {
      assert prefix[0] / 2 == 0 && prefix[1] / 2 == 2;
    }
    assert !Less(Entry(d[4][2], 2, 4), Entry(d[4][path[2]], path[2], 4));
    assert path == [0, 4, 2];
    PathWeight3(d, 0, 4, 2);
  }

  /** SimpleFourByFour: the greedy solver gives 1.1. */
  method FourByFourMinPath() returns (r: real)
    ensures r == 1.1
  {
    ghost var path;
    r, path := MinPath(FourByFour());
    FourByFourGreedyPath(path);
  }

  /** SixBySix: the greedy solver gives 2.0. */
  method SixBySixMinPath() returns (r: real)
    ensures r == 2.0
  {
    ghost var path;
    r, path := MinPath(SixBySix());
    SixBySixGreedyPath(path);
  }

  /*
   * The exhaustive search on the 4-by-4 matrix, turn by turn. The lemmas take
   * the matrix as a parameter and read only the cross-pair weights below.
   */

  /** The weights the search reads on the 4-by-4 matrix: the edges between pairs {0,1} and {2,3}, both ways. */
  predicate FourByFourEdges(d: seq<seq<real>>)
  {
    && |d| == 4 && Square(d)
    && d[0][2] == d[2][0] == 2.7 && d[0][3] == d[3][0] == 1.2
    && d[1][2] == d[2][1] == 4.6 && d[1][3] == d[3][1] == 1.1
  }

  /** The entry of the initial state of node a: only a flagged, weight 0. */
  function SeedEntry(a: nat): (e: MaskEntry)
    requires a < 4
    ensures |e.vis| == 4 && e.vis[a] && e.weight == 0.0
  {
    MaskEntry(BlankEntry(4).vis[a := true], 0.0)
  }

  /** An entry with only node b flagged and weight w. */
  function SingleEntry(b: nat, w: real): (e: MaskEntry)
    requires b < 4
    ensures |e.vis| == 4 && e.vis[b] && e.weight == w
  {
    MaskEntry(BlankEntry(4).vis[b := true], w)
  }

  /** The entry of mask {a, b} once b and then a are flagged under it, with weight w. */
  function PairEntry(a: nat, b: nat, w: real): (e: MaskEntry)
    requires a < 4 && b < 4
    ensures |e.vis| == 4 && e.vis[a] && e.vis[b] && e.weight == w
  {
    MaskEntry(SingleEntry(b, w).vis[a := true], w)
  }

  /** The seeded 4-by-4 table holds the seed entries at masks 1, 2, 4, 8 and blank entries at 5, 6, 9, 10. */
  lemma FourByFourSeeded()
    ensures var e0 := SeedEntries(BlankTable(4), 4, 4);
            && e0[1] == SeedEntry(0) && e0[2] == SeedEntry(1) && e0[4] == SeedEntry(2) && e0[8] == SeedEntry(3)
            && e0[5] == e0[6] == e0[9] == e0[10] == BlankEntry(4)
  {
    SeedEntriesOwn(4, 4, 0);
    SeedEntriesOwn(4, 4, 1);
    SeedEntriesOwn(4, 4, 2);
    SeedEntriesOwn(4, 4, 3);
    SeedEntriesOther(4, 4, 5);
    SeedEntriesOther(4, 4, 6);
    SeedEntriesOther(4, 4, 9);
    SeedEntriesOther(4, 4, 10);
  }

  /** The eight two-node states the four seeds queue, in FIFO order (two per seed), with their masks and weights. */
  function FourByFourPairs(): (q: seq<NodePath>)
  {
    [NodePath(2, 5, 2.7, 2, [0, 2]), NodePath(3, 9, 1.2, 2, [0, 3])]
    + [NodePath(2, 6, 4.6, 2, [1, 2]), NodePath(3, 10, 1.1, 2, [1, 3])]
    + [NodePath(0, 5, 2.7, 2, [2, 0]), NodePath(1, 6, 4.6, 2, [2, 1])]
    + [NodePath(0, 9, 1.2, 2, [3, 0]), NodePath(1, 10, 1.1, 2, [3, 1])]
  }

  /** The state a seed queues: the path a-b, with mask 1 << a | 1 << b and weight d[a][b]. */
  lemma SeedChild(d: seq<seq<real>>, a: nat, b: nat, m: nat, w: real)
    requires Square(d) && a < |d| && b < |d| && d[a][b] == w && BitOr(Pow2(a), b) == m
    ensures Extend(d, Seed(a), b) == NodePath(b, m, w, 2, [a, b])
  {
    assert [a] + [b] == [a, b];
  }

  /** Popping the seed of node 0: node 1 is skipped (its partner 0 is flagged), 0-2 and 0-3 are queued under masks 5 and 9. */
  lemma SeedZeroExpansion(d: seq<seq<real>>, es: seq<MaskEntry>)
    requires FourByFourEdges(d) && Shaped(es, 4)
    requires es[1] == SeedEntry(0) && es[5] == es[9] == BlankEntry(4)
    ensures var x := Expansion(d, Seed(0), es, 4);
            && x.0 == es[5 := SingleEntry(2, 2.7)][9 := SingleEntry(3, 1.2)]
            && x.1 == [NodePath(2, 5, 2.7, 2, [0, 2]), NodePath(3, 9, 1.2, 2, [0, 3])]
  {
    var s := Seed(0);
    assert s.mask == 1 && Pow2(4) == 16 && BitOr(1, 2) == 5 && BitOr(1, 3) == 9 && Partner(1) == 0;
    ExpansionSkip(d, s, es, 0, es, []);
    ExpansionSkip(d, s, es, 1, es, []);
    ExpansionAdmit(d, s, es, 2, es, [], 5);
    ExpansionAdmit(d, s, es, 3, es[5 := SingleEntry(2, 2.7)], [Extend(d, s, 2)], 9);
    SeedChild(d, 0, 2, 5, 2.7);
    SeedChild(d, 0, 3, 9, 1.2);
  }

  /** Popping the seed of node 1: node 0 is skipped, 1-2 and 1-3 are queued under masks 6 and 10. */
  lemma SeedOneExpansion(d: seq<seq<real>>, es: seq<MaskEntry>)
    requires FourByFourEdges(d) && Shaped(es, 4)
    requires es[2] == SeedEntry(1) && es[6] == es[10] == BlankEntry(4)
    ensures var x := Expansion(d, Seed(1), es, 4);
            && x.0 == es[6 := SingleEntry(2, 4.6)][10 := SingleEntry(3, 1.1)]
            && x.1 == [NodePath(2, 6, 4.6, 2, [1, 2]), NodePath(3, 10, 1.1, 2, [1, 3])]
  {
    var s := Seed(1);
    assert s.mask == 2 && Pow2(4) == 16 && BitOr(2, 2) == 6 && BitOr(2, 3) == 10 && Partner(0) == 1;
    ExpansionSkip(d, s, es, 0, es, []);
    ExpansionSkip(d, s, es, 1, es, []);
    ExpansionAdmit(d, s, es, 2, es, [], 6);
    ExpansionAdmit(d, s, es, 3, es[6 := SingleEntry(2, 4.6)], [Extend(d, s, 2)], 10);
    SeedChild(d, 1, 2, 6, 4.6);
    SeedChild(d, 1, 3, 10, 1.1);
  }

  /**
   * Popping the seed of node 2: 2-0 and 2-1 are queued, each flagged beside
   * the flag 0-2 and 1-2 left under masks 5 and 6; node 3 is skipped.
   */
  lemma SeedTwoExpansion(d: seq<seq<real>>, es: seq<MaskEntry>)
    requires FourByFourEdges(d) && Shaped(es, 4)
    requires es[4] == SeedEntry(2) && es[5] == SingleEntry(2, 2.7) && es[6] == SingleEntry(2, 4.6)
    ensures var x := Expansion(d, Seed(2), es, 4);
            && x.0 == es[5 := PairEntry(0, 2, 2.7)][6 := PairEntry(1, 2, 4.6)]
            && x.1 == [NodePath(0, 5, 2.7, 2, [2, 0]), NodePath(1, 6, 4.6, 2, [2, 1])]
  {
    var s := Seed(2);
    assert s.mask == 4 && Pow2(4) == 16 && BitOr(4, 0) == 5 && BitOr(4, 1) == 6 && Partner(3) == 2;
    ExpansionAdmit(d, s, es, 0, es, [], 5);
    var es1 := es[5 := PairEntry(0, 2, 2.7)];
    ExpansionAdmit(d, s, es, 1, es1, [Extend(d, s, 0)], 6);
    var es2 := es1[6 := PairEntry(1, 2, 4.6)];
    ExpansionSkip(d, s, es, 2, es2, [Extend(d, s, 0), Extend(d, s, 1)]);
    ExpansionSkip(d, s, es, 3, es2, [Extend(d, s, 0), Extend(d, s, 1)]);
    SeedChild(d, 2, 0, 5, 2.7);
    SeedChild(d, 2, 1, 6, 4.6);
  }

  /**
   * Popping the seed of node 3: 3-0 and 3-1 are queued, each flagged beside
   * the flag 0-3 and 1-3 left under masks 9 and 10; node 2 is skipped.
   */
  lemma SeedThreeExpansion(d: seq<seq<real>>, es: seq<MaskEntry>)
    requires FourByFourEdges(d) && Shaped(es, 4)
    requires es[8] == SeedEntry(3) && es[9] == SingleEntry(3, 1.2) && es[10] == SingleEntry(3, 1.1)
    ensures var x := Expansion(d, Seed(3), es, 4);
            && x.0 == es[9 := PairEntry(0, 3, 1.2)][10 := PairEntry(1, 3, 1.1)]
            && x.1 == [NodePath(0, 9, 1.2, 2, [3, 0]), NodePath(1, 10, 1.1, 2, [3, 1])]
  {
    var s := Seed(3);
    assert s.mask == 8 && Pow2(4) == 16 && BitOr(8, 0) == 9 && BitOr(8, 1) == 10 && Partner(2) == 3;
    ExpansionAdmit(d, s, es, 0, es, [], 9);
    var es1 := es[9 := PairEntry(0, 3, 1.2)];
    ExpansionAdmit(d, s, es, 1, es1, [Extend(d, s, 0)], 10);
    var es2 := es1[10 := PairEntry(1, 3, 1.1)];
    ExpansionSkip(d, s, es, 2, es2, [Extend(d, s, 0), Extend(d, s, 1)]);
    ExpansionSkip(d, s, es, 3, es2, [Extend(d, s, 0), Extend(d, s, 1)]);
    SeedChild(d, 3, 0, 9, 1.2);
    SeedChild(d, 3, 1, 10, 1.1);
  }

  /** Popping a seed (one node, short of the two a complete state has) records nothing and appends its children. */
  lemma SeedTurn(d: seq<seq<real>>, es: seq<MaskEntry>, q: seq<NodePath>, a: nat, es': seq<MaskEntry>, children: seq<NodePath>)
    requires |d| == 4 && Square(d) && Shaped(es, 4) && AllValid(d, q) && q != [] && a < 4 && q[0] == Seed(a)
    requires Expansion(d, Seed(a), es, 4).0 == es' && Expansion(d, Seed(a), es, 4).1 == children
    ensures Shaped(es', 4) && AllValid(d, q[1..] + children)
    ensures Run(d, es, q, -1.0, []).0 == Run(d, es', q[1..] + children, -1.0, []).0
  {
    RunStep(d, es, q, -1.0, []);
  }

  /** Four pops from the front of a queue of four, each followed by a push of two, leave the pushed states. */
  lemma FourPops<T>(s: seq<T>, c0: seq<T>, c1: seq<T>, c2: seq<T>, c3: seq<T>)
    requires |s| == 4 && |c0| == |c1| == |c2| == |c3| == 2
    ensures (((s[1..] + c0)[1..] + c1)[1..] + c2)[1..] + c3 == c0 + c1 + c2 + c3
  {
    assert (s[1..] + c0)[1..] == s[2..] + c0;
    assert (s[2..] + c0 + c1)[1..] == s[3..] + c0 + c1;
    assert (s[3..] + c0 + c1 + c2)[1..] == c0 + c1 + c2;
  }

  /** The 4-by-4 table once the seeds of nodes 0 and 1 are popped: masks 5, 9, 6 and 10 hold the flag of their second node. */
  function MidSeedTurns(e0: seq<MaskEntry>): (t: seq<MaskEntry>)
    requires |e0| == 16
    ensures |t| == 16
  {
    e0[5 := SingleEntry(2, 2.7)][9 := SingleEntry(3, 1.2)][6 := SingleEntry(2, 4.6)][10 := SingleEntry(3, 1.1)]
  }

  /**
   * The 4-by-4 table once all four seeds are popped: each of masks 5, 6, 9
   * and 10 ends with both of its nodes flagged and the weight of the last arrival.
   */
  function AfterSeedTurns(e0: seq<MaskEntry>): (t: seq<MaskEntry>)
    requires |e0| == 16
    ensures |t| == 16
  {
    MidSeedTurns(e0)[5 := PairEntry(0, 2, 2.7)][6 := PairEntry(1, 2, 4.6)][9 := PairEntry(0, 3, 1.2)][10 := PairEntry(1, 3, 1.1)]
  }

  /** The queue once the seeds of nodes 0 and 1 are popped: the seeds of 2 and 3, then 0-2, 0-3, 1-2, 1-3. */
  function MidSeedQueue(d: seq<seq<real>>): (q: seq<NodePath>)
    requires |d| == 4 && Square(d)
  {
    (Seeds(4)[1..] + [NodePath(2, 5, 2.7, 2, [0, 2]), NodePath(3, 9, 1.2, 2, [0, 3])])[1..] + [NodePath(2, 6, 4.6, 2, [1, 2]), NodePath(3, 10, 1.1, 2, [1, 3])]
  }

  /** The first two turns on the 4-by-4 matrix pop the seeds of nodes 0 and 1. */
  lemma FirstSeedTurns(d: seq<seq<real>>, e0: seq<MaskEntry>)
    requires FourByFourEdges(d) && Shaped(e0, 4) && AllValid(d, Seeds(4))
    requires e0[1] == SeedEntry(0) && e0[2] == SeedEntry(1) && e0[5] == e0[6] == e0[9] == e0[10] == BlankEntry(4)
    ensures Shaped(MidSeedTurns(e0), 4) && AllValid(d, MidSeedQueue(d))
    ensures Run(d, e0, Seeds(4), -1.0, []).0 == Run(d, MidSeedTurns(e0), MidSeedQueue(d), -1.0, []).0
  {
    var q0 := Seeds(4);
    SeedZeroExpansion(d, e0);
    var e1 := e0[5 := SingleEntry(2, 2.7)][9 := SingleEntry(3, 1.2)];
    SeedTurn(d, e0, q0, 0, e1, [NodePath(2, 5, 2.7, 2, [0, 2]), NodePath(3, 9, 1.2, 2, [0, 3])]);
    SeedOneExpansion(d, e1);
    SeedTurn(d, e1, q0[1..] + [NodePath(2, 5, 2.7, 2, [0, 2]), NodePath(3, 9, 1.2, 2, [0, 3])], 1, MidSeedTurns(e0),
             [NodePath(2, 6, 4.6, 2, [1, 2]), NodePath(3, 10, 1.1, 2, [1, 3])]);
  }

  /** The turn that pops the seed of node 2 records nothing and queues 2-0 and 2-1. */
  lemma ThirdSeedTurn(d: seq<seq<real>>, es: seq<MaskEntry>, q: seq<NodePath>)
    requires FourByFourEdges(d) && Shaped(es, 4) && AllValid(d, q) && q != [] && q[0] == Seed(2)
    requires es[4] == SeedEntry(2) && es[5] == SingleEntry(2, 2.7) && es[6] == SingleEntry(2, 4.6)
    ensures var es', c := es[5 := PairEntry(0, 2, 2.7)][6 := PairEntry(1, 2, 4.6)], [NodePath(0, 5, 2.7, 2, [2, 0]), NodePath(1, 6, 4.6, 2, [2, 1])];
            && Shaped(es', 4) && AllValid(d, q[1..] + c)
            && Run(d, es, q, -1.0, []).0 == Run(d, es', q[1..] + c, -1.0, []).0
  {
    SeedTwoExpansion(d, es);
    SeedTurn(d, es, q, 2, es[5 := PairEntry(0, 2, 2.7)][6 := PairEntry(1, 2, 4.6)],
             [NodePath(0, 5, 2.7, 2, [2, 0]), NodePath(1, 6, 4.6, 2, [2, 1])]);
  }

  /** The turn that pops the seed of node 3 records nothing and queues 3-0 and 3-1. */
  lemma FourthSeedTurn(d: seq<seq<real>>, es: seq<MaskEntry>, q: seq<NodePath>)
    requires FourByFourEdges(d) && Shaped(es, 4) && AllValid(d, q) && q != [] && q[0] == Seed(3)
    requires es[8] == SeedEntry(3) && es[9] == SingleEntry(3, 1.2) && es[10] == SingleEntry(3, 1.1)
    ensures var es', c := es[9 := PairEntry(0, 3, 1.2)][10 := PairEntry(1, 3, 1.1)], [NodePath(0, 9, 1.2, 2, [3, 0]), NodePath(1, 10, 1.1, 2, [3, 1])];
            && Shaped(es', 4) && AllValid(d, q[1..] + c)
            && Run(d, es, q, -1.0, []).0 == Run(d, es', q[1..] + c, -1.0, []).0
  {
    SeedThreeExpansion(d, es);
    SeedTurn(d, es, q, 3, es[9 := PairEntry(0, 3, 1.2)][10 := PairEntry(1, 3, 1.1)],
             [NodePath(0, 9, 1.2, 2, [3, 0]), NodePath(1, 10, 1.1, 2, [3, 1])]);
  }

  /** The next two turns pop the seeds of nodes 2 and 3 and leave the eight two-node states. */
  lemma LastSeedTurns(d: seq<seq<real>>, e0: seq<MaskEntry>)
    requires FourByFourEdges(d) && Shaped(e0, 4) && AllValid(d, MidSeedQueue(d))
    requires e0[4] == SeedEntry(2) && e0[8] == SeedEntry(3)
    ensures Shaped(AfterSeedTurns(e0), 4) && AllValid(d, FourByFourPairs())
    ensures Run(d, MidSeedTurns(e0), MidSeedQueue(d), -1.0, []).0
            == Run(d, AfterSeedTurns(e0), FourByFourPairs(), -1.0, []).0
  {
    var q2, e2 := MidSeedQueue(d), MidSeedTurns(e0);
    var c2 := [NodePath(0, 5, 2.7, 2, [2, 0]), NodePath(1, 6, 4.6, 2, [2, 1])];
    var c3 := [NodePath(0, 9, 1.2, 2, [3, 0]), NodePath(1, 10, 1.1, 2, [3, 1])];
    assert Shaped(e2, 4) && q2[0] == Seed(2);
    ThirdSeedTurn(d, e2, q2);
    var e3 := e2[5 := PairEntry(0, 2, 2.7)][6 := PairEntry(1, 2, 4.6)];
    assert (q2[1..] + c2)[0] == Seed(3);
    FourthSeedTurn(d, e3, q2[1..] + c2);
    FourPops(Seeds(4), [NodePath(2, 5, 2.7, 2, [0, 2]), NodePath(3, 9, 1.2, 2, [0, 3])], [NodePath(2, 6, 4.6, 2, [1, 2]), NodePath(3, 10, 1.1, 2, [1, 3])], c2, c3);
  }

  /**
   * The first four turns of the main loop on the 4-by-4 matrix pop the seeds
   * in node order and leave the eight two-node states.
   */
  lemma SeedTurns(d: seq<seq<real>>, e0: seq<MaskEntry>)
    requires FourByFourEdges(d) && Shaped(e0, 4) && AllValid(d, Seeds(4))
    requires e0[1] == SeedEntry(0) && e0[2] == SeedEntry(1) && e0[4] == SeedEntry(2) && e0[8] == SeedEntry(3)
    requires e0[5] == e0[6] == e0[9] == e0[10] == BlankEntry(4)
    ensures Shaped(AfterSeedTurns(e0), 4) && AllValid(d, FourByFourPairs())
    ensures Run(d, e0, Seeds(4), -1.0, []).0 == Run(d, AfterSeedTurns(e0), FourByFourPairs(), -1.0, []).0
  {
    FirstSeedTurns(d, e0);
    LastSeedTurns(d, e0);
  }

  /**
   * A two-node state over four nodes whose nodes lie in different pairs, and
   * whose mask has both of them flagged, queues nothing: each remaining
   * candidate is the partner of one of them.
   */
  lemma TwoNodeBlocked(d: seq<seq<real>>, t: seq<MaskEntry>, s: NodePath)
    requires |d| == 4 && Square(d) && Shaped(t, 4) && ValidState(d, s)
    requires |s.path| == 2 && s.path[0] / 2 != s.path[1] / 2
    requires t[s.mask].vis[s.path[0]] && t[s.mask].vis[s.path[1]]
    ensures Expansion(d, s, t, 4).0 == t && Expansion(d, s, t, 4).1 == []
  {
    forall c | 0 <= c < 4
      ensures c in s.path || t[s.mask].vis[Partner(c)]
    {
      if c != s.path[0] && c != s.path[1] {
        assert Partner(c) == s.path[0] || Partner(c) == s.path[1];
      }
    }
    ExpansionBlocked(d, s, t, 4);
  }

  /** On the table the seed turns leave, none of the eight two-node states queues anything. */
  lemma PairsBlocked(d: seq<seq<real>>, e0: seq<MaskEntry>)
    requires FourByFourEdges(d) && Shaped(e0, 4) && AllValid(d, FourByFourPairs())
    ensures var t, p := AfterSeedTurns(e0), FourByFourPairs();
            forall k :: 0 <= k < |p| ==> Expansion(d, p[k], t, 4).0 == t && Expansion(d, p[k], t, 4).1 == []
  {
    var t, p := AfterSeedTurns(e0), FourByFourPairs();
    assert Shaped(t, 4);
    forall k | 0 <= k < 8
      ensures Expansion(d, p[k], t, 4).0 == t && Expansion(d, p[k], t, 4).1 == []
    {
      TwoNodeBlocked(d, t, p[k]);
    }
  }

  /** The running minimum over the eight two-node states, in FIFO order, is 1.1 (the state 1-3). */
  lemma PairsRecord()
    ensures RecordAll(FourByFourPairs(), 2, -1.0) == 1.1
  {
  }

  /** The exhaustive solver's result on the 4-by-4 matrix, as the main loop computes it: 1.1. */
  lemma FourByFourOutcome()
    ensures Outcome(FourByFour()).0 == 1.1
  {
    var d := FourByFour();
    var e0 := SeedEntries(BlankTable(4), 4, 4);
    assert FourByFourEdges(d);
    SeedsValid(d);
    FourByFourSeeded();
    SeedTurns(d, e0);
    PairsBlocked(d, e0);
    RunWithoutChildren(d, AfterSeedTurns(e0), FourByFourPairs(), -1.0, []);
    PairsRecord();
  }

  /** SimpleFourByFour: the exhaustive solver gives 1.1, the weight of 1-3, the lightest of the eight two-node paths it records. */
  method FourByFourOptimalMin() returns (r: real)
    ensures r == 1.1
  {
    ghost var completes;
    r, completes := OptimalMin(FourByFour());
    FourByFourOutcome();
  }

  /** Over an all-zero matrix every path weighs 0. */
  lemma {:induction false} ZeroWeight(n: nat, p: seq<nat>)
    requires NodesBelow(p, n)
    ensures PathWeight(Zeros(n), p) == 0.0
  {
    if |p| > 1 {
      ZeroWeight(n, p[..|p| - 1]);
    }
  }

  /** AllZeros: the greedy solver gives 0.0 on the 6-by-6 zero matrix. */
  method AllZerosMinPath() returns (r: real)
    ensures r == 0.0
  {
    ghost var path;
    r, path := MinPath(Zeros(6));
    ZeroWeight(6, path);
  }

  /** AllZeros: whatever the exhaustive solver reports on the zero matrix is 0.0 or "no complete path" (-1.0). */
  method AllZerosOptimalMin() returns (r: real)
    ensures r == 0.0 || r == -1.0
  {
    ghost var completes;
    r, completes := OptimalMin(Zeros(6));
    if completes != [] {
      var k :| 0 <= k < |completes| && r == completes[k].weight;
      ZeroWeight(6, completes[k].path);
    }
  }

  /** TwoByTwo: both solvers give 0.0. */
  method TwoByTwo() returns (greedy: real, exact: real)
    ensures greedy == 0.0 && exact == 0.0
  {
    var d := [[0.0, 1.5], [1.5, 0.0]];
    ghost var path, completes;
    greedy, path := MinPath(d);
    exact, completes := OptimalMin(d);
  }

  /** ZeroNodes: the greedy solver reports -2.0 and the exhaustive one -1.0. */
  method ZeroNodes() returns (greedy: real, exact: real)
    ensures greedy == -2.0 && exact == -1.0
  {
    ghost var path, completes;
    greedy, path := MinPath([]);
    exact, completes := OptimalMin([]);
  }

  /** OddNumberOfNodes: the greedy solver reports -1.0 and the exhaustive one -2.0. */
  method OddNumberOfNodes() returns (greedy: real, exact: real)
    ensures greedy == -1.0 && exact == -2.0
  {
    var d := [[0.0]];
    ghost var path, completes;
    greedy, path := MinPath(d);
    exact, completes := OptimalMin(d);
  }
}
