/**
 * The rule by which the exhaustive search decides whether to queue an
 * extension of a path, and the rule it evidently stands for.
 *
 * The search keeps, for every mask (set of nodes), one table entry: a flag per
 * node ("some path over this mask ending at that node was queued") and ONE
 * weight for the whole mask, the weight of the last queued path over it. An
 * arrival at node v with weight w is queued when v was never flagged for the
 * mask, or when w is below the mask's weight. Because that weight is shared by
 * all end nodes, a later arrival at another node can overwrite it with a lower
 * value, and a path ending at v that is cheaper than every path queued for v
 * is then turned away. The per-node rule keeps one best weight per end node
 * and never turns away an arrival cheaper than every queued one.
 */
module Memo {
  import opened Paths
  import opened Masks

  /** A path over the entry's mask arriving at `node` with total `weight`. */
  datatype Arrival = Arrival(node: nat, weight: real)

  /** The queueing test of the search: never reached, or cheaper than the recorded weight. */
  predicate Admits(reached: bool, best: real, w: real)
  {
    !reached || w < best
  }

  /** One table entry as a value: a flag per node and the single weight of the mask. */
  datatype MaskEntry = MaskEntry(vis: seq<bool>, weight: real)

  /** An entry no path has reached yet, as the table is created for `n` nodes. */
  function BlankEntry(n: nat): (e: MaskEntry)
    ensures |e.vis| == n && e.weight == 0.0
    ensures forall v :: 0 <= v < n ==> !e.vis[v]
  {
    MaskEntry(seq(n, _ => false), 0.0)
  }

  /**
   * One arrival under the rule as written: when admitted, the node is flagged
   * and the arrival's weight becomes the weight of the whole mask.
   */
  function OfferAsWritten(e: MaskEntry, a: Arrival): (r: (MaskEntry, bool))
    requires a.node < |e.vis|
  {
    if Admits(e.vis[a.node], e.weight, a.weight) then (MaskEntry(e.vis[a.node := true], a.weight), true)
    else (e, false)
  }

  predicate NodesFit(arrivals: seq<Arrival>, n: nat)
  {
    forall k :: 0 <= k < |arrivals| ==> arrivals[k].node < n
  }

  /** The entry after a sequence of arrivals at one mask under the rule as written, and the decisions, in order. */
  function ReplayAsWritten(e: MaskEntry, arrivals: seq<Arrival>): (r: (MaskEntry, seq<bool>))
    requires NodesFit(arrivals, |e.vis|)
    ensures |r.0.vis| == |e.vis| && |r.1| == |arrivals|
    decreases |arrivals|
  {
    if arrivals == [] then (e, [])
    else
      var (e', b) := OfferAsWritten(e, arrivals[0]);
      var (e'', bs) := ReplayAsWritten(e', arrivals[1..]);
      (e'', [b] + bs)
  }

  /** Replaying a + b is replaying a, then b from the entry a leaves. */
  lemma {:induction false} ReplayAppend(e: MaskEntry, a: seq<Arrival>, b: seq<Arrival>)
    requires NodesFit(a, |e.vis|) && NodesFit(b, |e.vis|)
    ensures NodesFit(a + b, |e.vis|)
    ensures var ra := ReplayAsWritten(e, a);
            var rb := ReplayAsWritten(ra.0, b);
            ReplayAsWritten(e, a + b).0 == rb.0 && ReplayAsWritten(e, a + b).1 == ra.1 + rb.1
    decreases |a|
  {
    if a == [] {
      assert a + b == b;
      assert [] + ReplayAsWritten(e, b).1 == ReplayAsWritten(e, b).1;
    } else {
      var (e', x) := OfferAsWritten(e, a[0]);
      assert (a + b)[0] == a[0] && (a + b)[1..] == a[1..] + b;
      ReplayAppend(e', a[1..], b);
      var ra' := ReplayAsWritten(e', a[1..]);
      var rb := ReplayAsWritten(ra'.0, b);
      assert ReplayAsWritten(e, a).1 == [x] + ra'.1;
      assert ReplayAsWritten(e, a + b).1 == [x] + (ra'.1 + rb.1);
      assert [x] + (ra'.1 + rb.1) == [x] + ra'.1 + rb.1;
    }
  }

  /**
   * The arrivals at mask {1, 2, 7, 9} on CounterexampleMatrix, in the order the
   * search meets them, up to the one it wrongly turns away, each given by its
   * end node and weight: the paths 1-2-7-9 (201), 1-2-9-7 (105), 1-7-2-9 (105),
   * 1-7-9-2 (105); 1-9-2-7 (105), 1-9-7-2 (201), 2-1-7-9 (102), 2-1-9-7 (102),
   * 2-7-1-9 (102); 2-7-9-1 (201), 2-9-1-7 (6), 2-9-7-1 (105) and 7-1-2-9 (6).
   */
  function CounterexampleArrivals(): seq<Arrival>
  {
    [Arrival(9, 201.0), Arrival(7, 105.0), Arrival(9, 105.0), Arrival(2, 105.0),
     Arrival(7, 105.0), Arrival(2, 201.0), Arrival(9, 102.0), Arrival(7, 102.0), Arrival(9, 102.0),
     Arrival(1, 201.0), Arrival(7, 6.0), Arrival(1, 105.0), Arrival(9, 6.0)]
  }

  function ArrivalsFirst(): seq<Arrival>
  {
    [Arrival(9, 201.0), Arrival(7, 105.0), Arrival(9, 105.0), Arrival(2, 105.0)]
  }

  function ArrivalsMiddle(): seq<Arrival>
  {
    [Arrival(7, 105.0), Arrival(2, 201.0), Arrival(9, 102.0), Arrival(7, 102.0), Arrival(9, 102.0)]
  }

  function ArrivalsLast(): seq<Arrival>
  {
    [Arrival(1, 201.0), Arrival(7, 6.0), Arrival(1, 105.0), Arrival(9, 6.0)]
  }

  /** The entry of mask {1, 2, 7, 9} after the first four arrivals: nodes 9, 7 and 2 flagged, weight 105. */
  function EntryAfterFirst(): MaskEntry
  {
    MaskEntry(BlankEntry(10).vis[9 := true][7 := true][2 := true], 105.0)
  }

  /** After the middle five: the same flags, weight 102. */
  function EntryAfterMiddle(): MaskEntry
  {
    MaskEntry(EntryAfterFirst().vis[9 := true], 102.0)
  }

  /** After the last four: node 1 flagged as well, weight 6. */
  function EntryAfterLast(): MaskEntry
  {
    MaskEntry(EntryAfterMiddle().vis[1 := true][7 := true], 6.0)
  }

  /** Replaying `arrivals` from e leaves the entry e' and makes the decisions given. */
  predicate Replays(e: MaskEntry, arrivals: seq<Arrival>, e': MaskEntry, decisions: seq<bool>)
  {
    NodesFit(arrivals, |e.vis|)
    && ReplayAsWritten(e, arrivals).0 == e' && ReplayAsWritten(e, arrivals).1 == decisions
  }

  /** One arrival in front of a replay. */
  lemma ReplaysFront(e: MaskEntry, arrivals: seq<Arrival>, e1: MaskEntry, b: bool, e': MaskEntry, decisions: seq<bool>)
    requires arrivals != [] && arrivals[0].node < |e.vis| && OfferAsWritten(e, arrivals[0]) == (e1, b)
    requires |e1.vis| == |e.vis| && Replays(e1, arrivals[1..], e', decisions)
    ensures Replays(e, arrivals, e', [b] + decisions)
  {
  }

  /** The end of a replay. */
  lemma ReplaysLastOne(e: MaskEntry, a: Arrival, e': MaskEntry, b: bool)
    requires a.node < |e.vis| && OfferAsWritten(e, a) == (e', b)
    ensures Replays(e, [a], e', [b])
  {
    assert [a][1..] == [];
  }

  /** Two replays back to back are the replay of the concatenation. */
  lemma ReplaysConcat(e: MaskEntry, a: seq<Arrival>, e1: MaskEntry, d1: seq<bool>,
                      b: seq<Arrival>, e2: MaskEntry, d2: seq<bool>)
    requires Replays(e, a, e1, d1) && |e1.vis| == |e.vis| && Replays(e1, b, e2, d2)
    ensures Replays(e, a + b, e2, d1 + d2)
  {
    ReplayAppend(e, a, b);
  }

  lemma ReplayFirst()
    ensures Replays(BlankEntry(10), ArrivalsFirst(), EntryAfterFirst(), [true, true, false, true])
  {
    var arr := ArrivalsFirst();
    var e0 := BlankEntry(10);
    var e1 := MaskEntry(e0.vis[9 := true], 201.0);
    var e2 := MaskEntry(e1.vis[7 := true], 105.0);
    var e3 := EntryAfterFirst();
    assert arr[3..] == [arr[3]] && arr[2..][1..] == arr[3..] && arr[1..][1..] == arr[2..];
    ReplaysLastOne(e2, arr[3], e3, true);
    ReplaysFront(e2, arr[2..], e2, false, e3, [true]);
    ReplaysFront(e1, arr[1..], e2, true, e3, [false, true]);
    ReplaysFront(e0, arr, e1, true, e3, [true, false, true]);
  }

  lemma ReplayMiddle()
    ensures Replays(EntryAfterFirst(), ArrivalsMiddle(), EntryAfterMiddle(), [false, false, true, false, false])
  {
    var arr := ArrivalsMiddle();
    var e := EntryAfterFirst();
    var e' := EntryAfterMiddle();
    assert arr[4..] == [arr[4]] && arr[3..][1..] == arr[4..] && arr[2..][1..] == arr[3..] && arr[1..][1..] == arr[2..];
    ReplaysLastOne(e', arr[4], e', false);
    ReplaysFront(e', arr[3..], e', false, e', [false]);
    ReplaysFront(e, arr[2..], e', true, e', [false, false]);
    ReplaysFront(e, arr[1..], e, false, e', [true, false, false]);
    ReplaysFront(e, arr, e, false, e', [false, true, false, false]);
  }

  lemma ReplayLast()
    ensures Replays(EntryAfterMiddle(), ArrivalsLast(), EntryAfterLast(), [true, true, false, false])
  {
    var arr := ArrivalsLast();
    var e := EntryAfterMiddle();
    var e1 := MaskEntry(e.vis[1 := true], 201.0);
    var e' := EntryAfterLast();
    assert arr[3..] == [arr[3]] && arr[2..][1..] == arr[3..] && arr[1..][1..] == arr[2..];
    ReplaysLastOne(e', arr[3], e', false);
    ReplaysFront(e', arr[2..], e', false, e', [false]);
    ReplaysFront(e1, arr[1..], e', true, e', [false, false]);
    ReplaysFront(e, arr, e1, true, e', [true, false, false]);
  }

  /**
   * As written, a cheaper path can be lost. Of the arrivals of
   * CounterexampleArrivals, the last, 7-1-2-9 at node 9 with weight 6, is
   * turned away although the only paths queued for node 9, 1-2-7-9 and
   * 2-1-7-9, weigh 201 and 102: the arrival 2-9-1-7 at node 7 with weight 6
   * lowered the weight of the whole mask to 6 just before it.
   */
  lemma AsWrittenDropsCheaperArrival()
    ensures Replays(BlankEntry(10), CounterexampleArrivals(), EntryAfterLast(),
                    [true, true, false, true, false, false, true, false, false, true, true, false, false])
  {
    var d1, d2, d3 := [true, true, false, true], [false, false, true, false, false], [true, true, false, false];
    var d12 := [true, true, false, true, false, false, true, false, false];
    ReplayFirst();
    ReplayMiddle();
    ReplayLast();
    ReplaysConcat(BlankEntry(10), ArrivalsFirst(), EntryAfterFirst(), d1, ArrivalsMiddle(), EntryAfterMiddle(), d2);
    assert d1 + d2 == d12;
    ReplaysConcat(BlankEntry(10), ArrivalsFirst() + ArrivalsMiddle(), EntryAfterMiddle(), d12,
                  ArrivalsLast(), EntryAfterLast(), d3);
    assert d12 + d3 == [true, true, false, true, false, false, true, false, false, true, true, false, false];
    assert CounterexampleArrivals() == ArrivalsFirst() + ArrivalsMiddle() + ArrivalsLast();
  }


  /** One table entry under the per-node rule: a flag and a best weight per end node. */
  datatype NodeEntry = NodeEntry(vis: seq<bool>, best: seq<real>)

  /** An entry with the same number of flags and weights. */
  predicate WellSized(e: NodeEntry)
  {
    |e.vis| == |e.best|
  }

  /** One arrival under the per-node rule: the test and the update use the arrival's own node. */
  function OfferPerNode(e: NodeEntry, a: Arrival): (r: (NodeEntry, bool))
    requires WellSized(e) && a.node < |e.vis|
    ensures WellSized(r.0) && |r.0.vis| == |e.vis|
    ensures r.1 <==> Admits(e.vis[a.node], e.best[a.node], a.weight)
    ensures r.0.vis[a.node] && r.0.best[a.node] <= a.weight
    ensures r.1 ==> r.0.best[a.node] == a.weight
    ensures forall v :: 0 <= v < |e.vis| && v != a.node ==> r.0.vis[v] == e.vis[v] && r.0.best[v] == e.best[v]
    ensures forall v :: 0 <= v < |e.vis| && e.vis[v] ==> r.0.best[v] <= e.best[v]
  {
    if Admits(e.vis[a.node], e.best[a.node], a.weight) then
      (NodeEntry(e.vis[a.node := true], e.best[a.node := a.weight]), true)
    else (e, false)
  }

  /** The entry after a sequence of arrivals under the per-node rule. */
  function ReplayPerNode(e: NodeEntry, arrivals: seq<Arrival>): (r: NodeEntry)
    requires WellSized(e) && NodesFit(arrivals, |e.vis|)
    ensures WellSized(r) && |r.vis| == |e.vis|
    decreases |arrivals|
  {
    if arrivals == [] then e else ReplayPerNode(OfferPerNode(e, arrivals[0]).0, arrivals[1..])
  }

  /** Replaying never clears a flag nor raises the best weight of a flagged node. */
  lemma {:induction false} ReplayPerNodeMonotone(e: NodeEntry, arrivals: seq<Arrival>, v: nat)
    requires WellSized(e) && NodesFit(arrivals, |e.vis|) && v < |e.vis| && e.vis[v]
    ensures ReplayPerNode(e, arrivals).vis[v]
    ensures ReplayPerNode(e, arrivals).best[v] <= e.best[v]
    decreases |arrivals|
  {
    if arrivals != [] {
      var e' := OfferPerNode(e, arrivals[0]).0;
      ReplayPerNodeMonotone(e', arrivals[1..], v);
    }
  }

  /**
   * The intended property: after any sequence of arrivals, every node that was
   * arrived at is flagged and its recorded weight is no more than the weight of
   * any arrival at it, so no arrival cheaper than all queued ones is lost.
   */
  lemma {:induction false} PerNodeKeepsCheapest(e: NodeEntry, arrivals: seq<Arrival>)
    requires WellSized(e) && NodesFit(arrivals, |e.vis|)
    ensures forall k :: 0 <= k < |arrivals| ==>
      ReplayPerNode(e, arrivals).vis[arrivals[k].node]
      && ReplayPerNode(e, arrivals).best[arrivals[k].node] <= arrivals[k].weight
    decreases |arrivals|
  {
    if arrivals != [] {
      var e' := OfferPerNode(e, arrivals[0]).0;
      var tail := arrivals[1..];
      PerNodeKeepsCheapest(e', tail);
      assert ReplayPerNode(e, arrivals) == ReplayPerNode(e', tail);
      ReplayPerNodeMonotone(e', tail, arrivals[0].node);
      forall k | 1 <= k < |arrivals|
        ensures ReplayPerNode(e', tail).vis[arrivals[k].node]
        ensures ReplayPerNode(e', tail).best[arrivals[k].node] <= arrivals[k].weight
      {
        assert arrivals[k] == tail[k - 1];
      }
    }
  }

  /**
   * Under the per-node rule an arrival at node v that is lighter than every
   * earlier arrival at v is queued, whatever arrived at the other nodes.
   */
  lemma {:induction false} PerNodeAdmitsCheaper(e: NodeEntry, arrivals: seq<Arrival>, a: Arrival)
    requires WellSized(e) && NodesFit(arrivals, |e.vis|) && a.node < |e.vis|
    requires !e.vis[a.node] || a.weight < e.best[a.node]
    requires forall k :: 0 <= k < |arrivals| && arrivals[k].node == a.node ==> a.weight < arrivals[k].weight
    ensures OfferPerNode(ReplayPerNode(e, arrivals), a).1
    decreases |arrivals|
  {
    if arrivals != [] {
      var e' := OfferPerNode(e, arrivals[0]).0;
      forall k | 0 <= k < |arrivals[1..]| && arrivals[1..][k].node == a.node
        ensures a.weight < arrivals[1..][k].weight
      {
        assert arrivals[1..][k] == arrivals[k + 1];
      }
      PerNodeAdmitsCheaper(e', arrivals[1..], a);
    }
  }

  /**
   * On the arrivals of AsWrittenDropsCheaperArrival, the per-node rule queues
   * the last one, 7-1-2-9 at node 9 with weight 6, which the search as
   * written turns away.
   */
  lemma PerNodeAdmitsCheaperArrival()
    ensures NodesFit(CounterexampleArrivals()[..12], 10)
    ensures var e := NodeEntry(seq(10, _ => false), seq(10, _ => 0.0));
            var arrivals := CounterexampleArrivals();
            && arrivals[12] == Arrival(9, 6.0)
            && OfferPerNode(ReplayPerNode(e, arrivals[..12]), arrivals[12]).1
  {
    var e := NodeEntry(seq(10, _ => false), seq(10, _ => 0.0));
    var arrivals := CounterexampleArrivals()[..12];
    assert forall k :: 0 <= k < 12 && arrivals[k].node == 9 ==> 6.0 < arrivals[k].weight;
    PerNodeAdmitsCheaper(e, arrivals, Arrival(9, 6.0));
  }

  /**
   * A ten-node symmetric distance matrix: every off-diagonal weight is 100
   * except 1 on the edges 1-2, 1-7 and 1-9, 4 on 2-9 and 2 on 4-9.
   */
  function CounterexampleMatrix(): (d: seq<seq<real>>)
    ensures |d| == 10 && Square(d) && NonNegative(d)
    ensures forall i, j :: 0 <= i < 10 && 0 <= j < 10 ==> d[i][j] == d[j][i]
    ensures CheapEdges(d)
  {
    seq(10, i => seq(10, j => CounterexampleWeight(i, j)))
  }

  /** The weight of the edge between i and j in CounterexampleMatrix. */
  function CounterexampleWeight(i: int, j: int): real
  {
    var (lo, hi) := if i <= j then (i, j) else (j, i);
    if lo == hi then 0.0
    else if lo == 1 && (hi == 2 || hi == 7 || hi == 9) then 1.0
    else if lo == 2 && hi == 9 then 4.0
    else if lo == 4 && hi == 9 then 2.0
    else 100.0
  }

  /** The weights of CounterexampleMatrix the arrivals and the optimal path use. */
  predicate CheapEdges(d: seq<seq<real>>)
    requires |d| == 10 && Square(d)
  {
    && d[1][2] == 1.0 && d[2][1] == 1.0 && d[1][7] == 1.0 && d[7][1] == 1.0
    && d[1][9] == 1.0 && d[9][1] == 1.0 && d[2][9] == 4.0 && d[9][2] == 4.0
    && d[4][9] == 2.0 && d[9][4] == 2.0 && d[2][7] == 100.0 && d[7][2] == 100.0
    && d[7][9] == 100.0 && d[9][7] == 100.0
  }

  /** The path 1-2-7-9 has the mask 2 + 4 + 128 + 512 = 646. */
  lemma SortedCounterexampleMask()
    ensures MaskOf([1, 2, 7, 9]) == 646
  {
    assert [1, 2, 7, 9][..3] == [1, 2, 7] && [1, 2, 7][..2] == [1, 2] && [1, 2][..1] == [1] && [1][..0] == [];
    assert MaskOf([1]) == BitOr(0, 1) == 2;
    assert MaskOf([1, 2]) == BitOr(2, 2) == 6;
    assert MaskOf([1, 2, 7]) == BitOr(6, 7) == 134;
    assert MaskOf([1, 2, 7, 9]) == BitOr(134, 9) == 646;
  }

  /** The paths 1-2-7-9, 2-1-7-9, 2-9-1-7 and 7-1-2-9 all have the mask {1, 2, 7, 9}, 646. */
  lemma CounterexampleMasks()
    ensures MaskOf([1, 2, 7, 9]) == 646 && MaskOf([2, 1, 7, 9]) == 646
    ensures MaskOf([2, 9, 1, 7]) == 646 && MaskOf([7, 1, 2, 9]) == 646
  {
    SortedCounterexampleMask();
    SameNodesSameMask([2, 1, 7, 9], [1, 2, 7, 9]);
    SameNodesSameMask([2, 9, 1, 7], [1, 2, 7, 9]);
    SameNodesSameMask([7, 1, 2, 9], [1, 2, 7, 9]);
  }

  /**
   * On CounterexampleMatrix, or any matrix with its CheapEdges, the paths
   * 1-2-7-9 and 2-1-7-9, the only ones queued for node 9 of mask {1, 2, 7, 9}
   * by the search as written, weigh 201 and 102, and the path 7-1-2-9 it turns
   * away weighs 6; its extension 7-1-2-9-4 takes one node from each of the
   * five pairs and weighs 8.
   */
  lemma CounterexampleWeights(d: seq<seq<real>>)
    requires |d| == 10 && Square(d) && CheapEdges(d)
    ensures PathWeight(d, [1, 2, 7, 9]) == 201.0 && PathWeight(d, [2, 1, 7, 9]) == 102.0
    ensures PathWeight(d, [2, 9, 1, 7]) == 6.0 && PathWeight(d, [7, 1, 2, 9]) == 6.0
    ensures PathWeight(d, [7, 1, 2, 9, 4]) == 8.0
    ensures OnePerPair([7, 1, 2, 9, 4]) && Distinct([7, 1, 2, 9, 4])
  {
    PathWeight4(d, 1, 2, 7, 9);
    PathWeight4(d, 2, 1, 7, 9);
    PathWeight4(d, 2, 9, 1, 7);
    PathWeight4(d, 7, 1, 2, 9);
    PathWeight5(d, 7, 1, 2, 9, 4);
    OnePerPairDistinct([7, 1, 2, 9, 4]);
  }
}
