/**
 * The exhaustive solver: a breadth-first search over partial paths, each
 * carrying a bit mask of its nodes, with a table indexed by mask that records
 * which end nodes have been reached under that mask and a best weight.
 */
module Exact {
  import opened Pairing
  import opened Paths
  import opened Masks
  import opened Memo

  /** A search state: end node, mask of the path's nodes, weight so far, node count and the path itself. */
  datatype NodePath = NodePath(cur: nat, mask: nat, weight: real, numVisited: nat, path: seq<nat>)

  /** The state's constructor, which appends the end node to the path it is given. */
  function MakeNodePath(cur: nat, mask: nat, weight: real, numVisited: nat, prefix: seq<nat>): (s: NodePath)
    ensures |s.path| == |prefix| + 1 && s.path[..|prefix|] == prefix && s.path[|prefix|] == cur
    ensures s.cur == cur && s.mask == mask && s.weight == weight && s.numVisited == numVisited
  {
    NodePath(cur, mask, weight, numVisited, prefix + [cur])
  }

  /**
   * One entry of the table: for one mask, which end nodes have been reached
   * under it, and the weight of the last path admitted under it.
   */
  class VisitedPathWeights {
    var vis: seq<bool>
    var pathWeight: real

    /** A fresh entry for `numNodes` nodes: nothing reached, weight 0.0. */
    constructor (numNodes: nat)
      ensures |vis| == numNodes && (forall v :: 0 <= v < numNodes ==> !vis[v])
      ensures pathWeight == 0.0
    {
      var flags := [];
      var i := 0;
      while i < numNodes
        invariant i <= numNodes && |flags| == i
        invariant forall v :: 0 <= v < i ==> !flags[v]
      {
        flags := flags + [false];
        i := i + 1;
      }
      vis := flags;
      pathWeight := 0.0;
    }

    function GetPathWeight(): real
      reads this
    {
      pathWeight
    }

    function IsNodeVisited(node: nat): bool
      requires node < |vis|
      reads this
    {
      vis[node]
    }

    /** Replaces the weight; the flags stay as they are. */
    method SetPathWeight(weight: real)
      modifies this
      ensures pathWeight == weight && vis == old(vis)
    {
      pathWeight := weight;
    }

    /** Sets the flag of one node; every other flag and the weight stay as they are. */
    method SetNodeVisited(node: nat, isVisit: bool)
      requires node < |vis|
      modifies this
      ensures vis == old(vis)[node := isVisit] && pathWeight == old(pathWeight)
    {
      vis := vis[node := isVisit];
    }
  }

  /**
   * A well-formed search state over matrix d: a non-empty path of distinct
   * nodes of the matrix ending at the state's node, whose mask, node count and
   * weight are those of the path.
   */
  predicate ValidState(d: seq<seq<real>>, s: NodePath)
    requires Square(d)
  {
    && 1 <= |s.path| <= |d| && NodesBelow(s.path, |d|) && Distinct(s.path)
    && s.cur == s.path[|s.path| - 1]
    && s.numVisited == |s.path|
    && s.mask == MaskOf(s.path) && s.mask < Pow2(|d|)
    && s.weight == PathWeight(d, s.path)
  }

  /** `s` is a state one step further than `parent`: its path is the parent's plus one node. */
  predicate ChildOf(d: seq<seq<real>>, parent: NodePath, s: NodePath)
    requires Square(d)
  {
    ValidState(d, s) && |s.path| == |parent.path| + 1 && s.path[..|parent.path|] == parent.path
  }

  /** Every state of q is well-formed. */
  predicate AllValid(d: seq<seq<real>>, q: seq<NodePath>)
    requires Square(d)
  {
    forall k :: 0 <= k < |q| ==> ValidState(d, q[k])
  }

  /** Every state of cs is well-formed and has n/2 nodes. */
  predicate AllComplete(d: seq<seq<real>>, cs: seq<NodePath>)
    requires Square(d)
  {
    forall k :: 0 <= k < |cs| ==> ValidState(d, cs[k]) && |cs[k].path| == |d| / 2
  }

  lemma AllValidSplit(d: seq<seq<real>>, a: seq<NodePath>, b: seq<NodePath>)
    requires Square(d)
    ensures AllValid(d, a + b) <==> AllValid(d, a) && AllValid(d, b)
  {
    if AllValid(d, a) && AllValid(d, b) {
      forall k | 0 <= k < |a + b|
        ensures ValidState(d, (a + b)[k])
      {
        if k >= |a| {
          assert (a + b)[k] == b[k - |a|];
        }
      }
    }
    if AllValid(d, a + b) {
      forall k | 0 <= k < |a|
        ensures ValidState(d, a[k])
      {
        assert (a + b)[k] == a[k];
      }
      forall k | 0 <= k < |b|
        ensures ValidState(d, b[k])
      {
        assert (a + b)[|a| + k] == b[k];
      }
    }
  }

  lemma AllValidTail(d: seq<seq<real>>, q: seq<NodePath>)
    requires Square(d) && AllValid(d, q) && q != []
    ensures ValidState(d, q[0]) && AllValid(d, q[1..])
  {
    forall k | 0 <= k < |q| - 1
      ensures ValidState(d, q[1..][k])
    {
      assert q[1..][k] == q[k + 1];
    }
  }

  /** One-step extensions of a state are one node longer than it, and no longer than n. */
  lemma ChildLengths(d: seq<seq<real>>, parent: NodePath, children: seq<NodePath>)
    requires Square(d) && forall k :: 0 <= k < |children| ==> ChildOf(d, parent, children[k])
    ensures forall k :: 0 <= k < |children| ==> |children[k].path| == |parent.path| + 1 <= |d|
  {
    forall k | 0 <= k < |children|
      ensures |children[k].path| == |parent.path| + 1 <= |d|
    {
      ChildLength(d, parent, children[k]);
    }
  }

  lemma ChildLength(d: seq<seq<real>>, parent: NodePath, s: NodePath)
    requires Square(d) && ChildOf(d, parent, s)
    ensures |s.path| == |parent.path| + 1 <= |d|
  {
  }

  lemma AllCompleteAppend(d: seq<seq<real>>, cs: seq<NodePath>, s: NodePath)
    requires Square(d) && AllComplete(d, cs) && ValidState(d, s) && |s.path| == |d| / 2
    ensures AllComplete(d, cs + [s])
  {
  }

  /** Every table entry has one flag per node. */
  predicate TableShape(t: array<VisitedPathWeights>, n: nat)
    reads t, set j | 0 <= j < t.Length :: t[j]
  {
    t.Length == Pow2(n) && forall j :: 0 <= j < t.Length ==> |t[j].vis| == n
  }

  /** The end node of s is flagged in the table entry of its mask. */
  predicate FlaggedAt(es: seq<MaskEntry>, s: NodePath)
  {
    s.mask < |es| && s.cur < |es[s.mask].vis| && es[s.mask].vis[s.cur]
  }

  /** Every state of q has its end node flagged in the table entry of its mask. */
  predicate Flagged(es: seq<MaskEntry>, q: seq<NodePath>)
  {
    forall s :: s in q ==> FlaggedAt(es, s)
  }

  /** Every mask has an entry object of its own, as the elements of a vector are. */
  predicate Separate(t: array<VisitedPathWeights>)
    reads t
  {
    forall j, k :: 0 <= j < k < t.Length ==> t[j] != t[k]
  }

  /** A table as values: one entry per mask below 2^n, each with one flag per node. */
  predicate Shaped(es: seq<MaskEntry>, n: nat)
  {
    |es| == Pow2(n) && forall j :: 0 <= j < |es| ==> |es[j].vis| == n
  }

  /** The flags and the weight of every entry of the table, as values. */
  ghost function Entries(t: array<VisitedPathWeights>): (es: seq<MaskEntry>)
    reads t, set j | 0 <= j < t.Length :: t[j]
    ensures |es| == t.Length
    ensures forall j :: 0 <= j < t.Length ==> es[j] == MaskEntry(t[j].vis, t[j].pathWeight)
  {
    seq(t.Length, j requires 0 <= j < t.Length reads t, set k | 0 <= k < t.Length :: t[k] => MaskEntry(t[j].vis, t[j].pathWeight))
  }

  /** Extending a state by a node not on its path gives a well-formed state one step further. */
  lemma ExtendValid(d: seq<seq<real>>, cur: NodePath, node: nat)
    requires Square(d) && ValidState(d, cur) && node < |d| && node !in cur.path
    ensures ChildOf(d, cur, MakeNodePath(node, BitOr(cur.mask, node), cur.weight + d[cur.cur][node],
                                         cur.numVisited + 1, cur.path))
  {
    var p := cur.path + [node];
    DistinctAppend(cur.path, node);
    PathWeightAppend(d, cur.path, node);
    MaskOfAppend(cur.path, node);
    DistinctLength(p, |d|);
    MaskOfBound(p, |d|);
  }

  /** (n+1)^e: the weight the termination measure gives a state that can still grow e times. */
  function Pow(b: nat, e: nat): (p: nat)
    ensures b >= 1 ==> p >= 1
  {
    if e == 0 then 1 else b * Pow(b, e - 1)
  }

  /** The termination measure of the queue: each state counts (n+1)^(n - its length). */
  function Potential(q: seq<NodePath>, n: nat): (p: nat)
  {
    if q == [] then 0
    else Pow(n + 1, if |q[0].path| <= n then n - |q[0].path| else 0) + Potential(q[1..], n)
  }

  lemma {:induction false} PotentialAppend(a: seq<NodePath>, b: seq<NodePath>, n: nat)
    ensures Potential(a + b, n) == Potential(a, n) + Potential(b, n)
  {
    if a == [] {
      assert a + b == b;
    } else {
      assert (a + b)[0] == a[0];
      assert (a + b)[1..] == a[1..] + b;
      PotentialAppend(a[1..], b, n);
    }
  }

  /** States of one common length ℓ <= n contribute (n+1)^(n-ℓ) each. */
  lemma {:induction false} PotentialUniform(q: seq<NodePath>, len: nat, n: nat)
    requires len <= n && forall k :: 0 <= k < |q| ==> |q[k].path| == len
    ensures Potential(q, n) == |q| * Pow(n + 1, n - len)
  {
    if q != [] {
      PotentialUniform(q[1..], len, n);
    }
  }

  /**
   * Popping the front state, of length ℓ, and pushing at most n states of
   * length ℓ+1 lowers the measure, since n (n+1)^(n-ℓ-1) < (n+1)^(n-ℓ).
   */
  lemma PotentialDecreases(q: seq<NodePath>, children: seq<NodePath>, n: nat)
    requires q != [] && |q[0].path| <= n && |children| <= n
    requires forall k :: 0 <= k < |children| ==> |children[k].path| == |q[0].path| + 1 <= n
    ensures Potential(q[1..] + children, n) < Potential(q, n)
  {
    PotentialAppend(q[1..], children, n);
    if children != [] {
      assert children[0] in children;
      var e := n - |q[0].path| - 1;
      var p := Pow(n + 1, e);
      PotentialUniform(children, |q[0].path| + 1, n);
      assert Pow(n + 1, n - |q[0].path|) == (n + 1) * p;
      MulBelow(|children|, n, p);
    }
  }

  /** a * p < (b + 1) * p when a <= b and p >= 1. */
  lemma MulBelow(a: nat, b: nat, p: nat)
    requires a <= b && p >= 1
    ensures a * p < (b + 1) * p
  {
    assert (b + 1) * p == b * p + p;
    assert a * p <= b * p;
  }

  /**
   * The table of 2^n entries, one fresh entry per mask (the vector built from
   * one prototype entry, each element an independent copy).
   */
  method NewTable(n: nat, size: nat) returns (t: array<VisitedPathWeights>)
    ensures fresh(t) && t.Length == size
    ensures forall j :: 0 <= j < size ==> fresh(t[j])
    ensures Separate(t)
    ensures Entries(t) == seq(size, _ => BlankEntry(n))
  {
    var proto := new VisitedPathWeights(n);
    t := new VisitedPathWeights[size](_ => proto);
    var i := 0;
    while i < size
      invariant i <= size
      invariant forall j :: 0 <= j < size ==> fresh(t[j])
      invariant forall j, k :: 0 <= j < k < i ==> t[j] != t[k]
      invariant forall j :: 0 <= j < size ==>
        |t[j].vis| == n && (forall v :: 0 <= v < n ==> !t[j].vis[v]) && t[j].pathWeight == 0.0
    {
      t[i] := new VisitedPathWeights(n);
      i := i + 1;
    }
    forall j | 0 <= j < size
      ensures t[j].vis == BlankEntry(n).vis
    {
    }
  }

  /** The table as created for n nodes: every entry blank. */
  function BlankTable(n: nat): (es: seq<MaskEntry>)
    ensures Shaped(es, n)
  {
    seq(Pow2(n), _ => BlankEntry(n))
  }

  /** A higher bit gives a larger power: bit i of a mask below 2^n exists for i < n. */
  lemma {:induction false} Pow2Less(i: nat, n: nat)
    requires i < n
    ensures Pow2(i) < Pow2(n)
  {
    if i + 1 < n {
      Pow2Less(i, n - 1);
    }
  }

  /** The initial state of node i: mask 1 << i, weight 0.0, one node. */
  function Seed(i: nat): (s: NodePath)
    ensures s.path == [i] && s.cur == i && s.weight == 0.0 && s.numVisited == 1
  {
    NodePath(i, Pow2(i), 0.0, 1, [i])
  }

  /** The initial state of node i, with mask 1 << i, is well-formed. */
  lemma SeedValid(d: seq<seq<real>>, i: nat)
    requires Square(d) && i < |d|
    ensures ValidState(d, Seed(i))
  {
    assert [i][..0] == [];
    SingleBit(i);
    Pow2Less(i, |d|);
  }

  /** The queue of lines 201-207: one initial state per node, in node order. */
  function Seeds(n: nat): (q: seq<NodePath>)
    ensures |q| == n && forall i :: 0 <= i < n ==> q[i] == Seed(i)
  {
    seq(n, i requires 0 <= i => Seed(i))
  }

  /** Every initial state over d is well-formed. */
  lemma SeedsValid(d: seq<seq<real>>)
    requires Square(d)
    ensures AllValid(d, Seeds(|d|))
  {
    forall i | 0 <= i < |d|
      ensures ValidState(d, Seeds(|d|)[i])
    {
      SeedValid(d, i);
    }
  }

  /**
   * The table after lines 201-207 have seeded nodes 0 .. i-1 in turn: node k
   * flagged in the entry of mask 1 << k, whose weight becomes 0.0.
   */
  ghost function SeedEntries(es: seq<MaskEntry>, n: nat, i: nat): (r: seq<MaskEntry>)
    requires Shaped(es, n) && i <= n
    ensures Shaped(r, n)
  {
    if i == 0 then es
    else
      var s := SeedEntries(es, n, i - 1);
      Pow2Less(i - 1, n);
      s[Pow2(i - 1) := MaskEntry(s[Pow2(i - 1)].vis[i - 1 := true], 0.0)]
  }

  /** Distinct nodes have distinct one-node masks. */
  lemma Pow2Injective(a: nat, b: nat)
    requires a != b
    ensures Pow2(a) != Pow2(b)
  {
    if a < b {
      Pow2Less(a, b);
    } else {
      Pow2Less(b, a);
    }
  }

  /** Seeding a blank table leaves every entry whose mask is not 1 << k for a seeded k blank. */
  lemma {:induction false} SeedEntriesOther(n: nat, i: nat, j: nat)
    requires i <= n && j < Pow2(n) && forall k :: 0 <= k < i ==> j != Pow2(k)
    ensures SeedEntries(BlankTable(n), n, i)[j] == BlankEntry(n)
  {
    if i != 0 {
      SeedEntriesOther(n, i - 1, j);
    }
  }

  /** Seeding a blank table leaves the entry of mask 1 << k with node k as its only flag and weight 0.0. */
  lemma {:induction false} SeedEntriesOwn(n: nat, i: nat, k: nat)
    requires k < i <= n
    ensures Pow2(k) < Pow2(n)
    ensures SeedEntries(BlankTable(n), n, i)[Pow2(k)] == MaskEntry(BlankEntry(n).vis[k := true], 0.0)
  {
    Pow2Less(k, n);
    if k == i - 1 {
      forall k' | 0 <= k' < k
        ensures Pow2(k) != Pow2(k')
      {
        Pow2Injective(k, k');
      }
      SeedEntriesOther(n, k, Pow2(k));
    } else {
      Pow2Injective(k, i - 1);
      SeedEntriesOwn(n, i - 1, k);
    }
  }

  /** Seeding flags node k in the entry of mask 1 << k, whatever the table held before. */
  lemma {:induction false} SeedEntriesFlag(es: seq<MaskEntry>, n: nat, i: nat, k: nat)
    requires Shaped(es, n) && k < i <= n
    ensures Pow2(k) < |es| && SeedEntries(es, n, i)[Pow2(k)].vis[k]
  {
    Pow2Less(k, n);
    if k < i - 1 {
      Pow2Injective(k, i - 1);
      SeedEntriesFlag(es, n, i - 1, k);
    }
  }

  /** After seeding, every initial state has its end node flagged in the entry of its mask. */
  lemma SeedsFlagged(es: seq<MaskEntry>, n: nat)
    requires Shaped(es, n)
    ensures Flagged(SeedEntries(es, n, n), Seeds(n))
  {
    forall k | 0 <= k < n
      ensures Pow2(k) < |es| && SeedEntries(es, n, n)[Pow2(k)].vis[k]
    {
      SeedEntriesFlag(es, n, n, k);
    }
  }

  /**
   * Records an admitted path in the entry of its mask (lines 205-206 and
   * 250-251): flags its end node and stores its weight. No other flag and no
   * other entry changes.
   */
  method Record(t: array<VisitedPathWeights>, n: nat, mask: nat, node: nat, weight: real)
    requires TableShape(t, n) && Separate(t) && mask < t.Length && node < n
    modifies t[mask]
    ensures TableShape(t, n)
    ensures t[mask].vis == old(t[mask].vis)[node := true] && t[mask].pathWeight == weight
    ensures Entries(t) == old(Entries(t))[mask := MaskEntry(old(t[mask].vis)[node := true], weight)]
  {
    t[mask].SetNodeVisited(node, true);
    t[mask].SetPathWeight(weight);
  }

  /**
   * Lines 248-251 on the entry of `mask`: an arrival at `node` with `weight` is
   * admitted by the queueing rule of the search, and then the node is flagged
   * and the weight becomes the weight of the whole mask; otherwise nothing
   * changes. No other entry changes.
   */
  method Admit(t: array<VisitedPathWeights>, n: nat, mask: nat, node: nat, weight: real) returns (admitted: bool)
    requires TableShape(t, n) && Separate(t) && mask < t.Length && node < n
    modifies t[mask]
    ensures TableShape(t, n)
    ensures (Entries(t)[mask], admitted) == OfferAsWritten(old(Entries(t))[mask], Arrival(node, weight))
    ensures Entries(t) == old(Entries(t))[mask := Entries(t)[mask]]
    ensures t[mask].vis == if admitted then old(t[mask].vis)[node := true] else old(t[mask].vis)
  {
    admitted := Admits(t[mask].IsNodeVisited(node), t[mask].GetPathWeight(), weight);
    if admitted {
      Record(t, n, mask, node, weight);
    }
  }

  /**
   * Lines 201-207: queues one initial state per node, in node order, and
   * records each in the table (SeedEntries).
   */
  method SeedStates(t: array<VisitedPathWeights>, n: nat) returns (queue: seq<NodePath>)
    requires TableShape(t, n) && Separate(t)
    modifies set j | 0 <= j < t.Length :: t[j]
    ensures TableShape(t, n)
    ensures queue == Seeds(n)
    ensures Entries(t) == SeedEntries(old(Entries(t)), n, n)
    ensures Flagged(Entries(t), queue)
  {
    ghost var e0 := Entries(t);
    queue := [];
    for i := 0 to n
      invariant TableShape(t, n)
      invariant Entries(t) == SeedEntries(e0, n, i)
      invariant |queue| == i && forall k :: 0 <= k < i ==> queue[k] == Seed(k)
    {
      var initialMask := Pow2(i);
      Pow2Less(i, n);
      queue := queue + [MakeNodePath(i, initialMask, 0.0, 1, [])];
      Record(t, n, initialMask, i, 0.0);
    }
    SeedsFlagged(e0, n);
  }

  /** The end node and the mask of a state index the matrix and the table. */
  predicate InRange(d: seq<seq<real>>, cur: NodePath)
  {
    cur.cur < |d| && cur.mask < Pow2(|d|)
  }

  /** The state line 253 queues when `cur` is extended by `node`. */
  function Extend(d: seq<seq<real>>, cur: NodePath, node: nat): (s: NodePath)
    requires Square(d) && cur.cur < |d| && node < |d|
    ensures s.cur == node
  {
    MakeNodePath(node, BitOr(cur.mask, node), cur.weight + d[cur.cur][node], cur.numVisited + 1, cur.path)
  }

  /**
   * Lines 243-251 for one candidate node, on the table as values: the node is
   * skipped when it is on the path of `cur` or its partner is flagged in the
   * entry of the current mask; otherwise the extension is offered, under the
   * rule as written, to the entry of the mask with the node added. The result
   * is the new table and whether the extension is queued.
   */
  function Offer(d: seq<seq<real>>, cur: NodePath, es: seq<MaskEntry>, node: nat): (r: (seq<MaskEntry>, bool))
    requires Square(d) && |d| % 2 == 0 && InRange(d, cur) && Shaped(es, |d|) && node < |d|
    ensures Shaped(r.0, |d|)
  {
    if node in cur.path || es[cur.mask].vis[Partner(node)] then (es, false)
    else
      BitOrBound(cur.mask, node, |d|);
      var m := BitOr(cur.mask, node);
      var (e, admitted) := OfferAsWritten(es[m], Arrival(node, cur.weight + d[cur.cur][node]));
      (es[m := e], admitted)
  }

  /**
   * Lines 229-255 on values: the candidates 0, 1, ..., k-1 offered in turn,
   * each against the table the earlier ones left. The result is the table
   * after them and the states queued, in node order.
   */
  function Expansion(d: seq<seq<real>>, cur: NodePath, es: seq<MaskEntry>, k: nat): (r: (seq<MaskEntry>, seq<NodePath>))
    requires Square(d) && |d| % 2 == 0 && InRange(d, cur) && Shaped(es, |d|) && k <= |d|
    ensures Shaped(r.0, |d|) && |r.1| <= k
  {
    if k == 0 then (es, [])
    else
      var (es', queued) := Expansion(d, cur, es, k - 1);
      var (es'', pushed) := Offer(d, cur, es', k - 1);
      (es'', if pushed then queued + [Extend(d, cur, k - 1)] else queued)
  }

  /** Every state an expansion queues is a well-formed extension of the popped state by one node. */
  lemma {:induction false} ExpansionChildren(d: seq<seq<real>>, cur: NodePath, es: seq<MaskEntry>, k: nat)
    requires Square(d) && |d| % 2 == 0 && ValidState(d, cur) && Shaped(es, |d|) && k <= |d|
    ensures forall i :: 0 <= i < |Expansion(d, cur, es, k).1| ==> ChildOf(d, cur, Expansion(d, cur, es, k).1[i])
  {
    if k > 0 {
      ExpansionChildren(d, cur, es, k - 1);
      if Offer(d, cur, Expansion(d, cur, es, k - 1).0, k - 1).1 {
        ExtendValid(d, cur, k - 1);
      }
    }
  }

  /** The states an expansion queues end at nodes below k, in strictly increasing order. */
  lemma {:induction false} ExpansionOrdered(d: seq<seq<real>>, cur: NodePath, es: seq<MaskEntry>, k: nat)
    requires Square(d) && |d| % 2 == 0 && InRange(d, cur) && Shaped(es, |d|) && k <= |d|
    ensures forall i :: 0 <= i < |Expansion(d, cur, es, k).1| ==> Expansion(d, cur, es, k).1[i].cur < k
    ensures forall i, j :: 0 <= i < j < |Expansion(d, cur, es, k).1| ==>
      Expansion(d, cur, es, k).1[i].cur < Expansion(d, cur, es, k).1[j].cur
  {
    if k > 0 {
      ExpansionOrdered(d, cur, es, k - 1);
    }
  }

  /** An offer only sets flags, and a queued extension has its end node flagged. */
  lemma OfferFlags(d: seq<seq<real>>, cur: NodePath, es: seq<MaskEntry>, node: nat, q: seq<NodePath>)
    requires Square(d) && |d| % 2 == 0 && InRange(d, cur) && Shaped(es, |d|) && node < |d| && Flagged(es, q)
    ensures Flagged(Offer(d, cur, es, node).0,
                    if Offer(d, cur, es, node).1 then q + [Extend(d, cur, node)] else q)
  {
    var r := Offer(d, cur, es, node);
    if node !in cur.path {
      BitOrBound(cur.mask, node, |d|);
    }
    assert forall j, v :: 0 <= j < |es| && 0 <= v < |es[j].vis| && es[j].vis[v] ==> r.0[j].vis[v];
  }

  /** An expansion keeps every queued state flagged and flags every state it queues. */
  lemma {:induction false} ExpansionFlags(d: seq<seq<real>>, cur: NodePath, es: seq<MaskEntry>, k: nat, q: seq<NodePath>)
    requires Square(d) && |d| % 2 == 0 && InRange(d, cur) && Shaped(es, |d|) && k <= |d| && Flagged(es, q)
    ensures Flagged(Expansion(d, cur, es, k).0, q + Expansion(d, cur, es, k).1)
  {
    if k > 0 {
      var prev := Expansion(d, cur, es, k - 1);
      var r := Offer(d, cur, prev.0, k - 1);
      var x := Extend(d, cur, k - 1);
      ExpansionFlags(d, cur, es, k - 1, q);
      OfferFlags(d, cur, prev.0, k - 1, q + prev.1);
      if r.1 {
        assert q + prev.1 + [x] == q + (prev.1 + [x]);
      }
    } else {
      assert q + [] == q;
    }
  }

  /** The end nodes of a sequence of states. */
  function EndNodes(q: seq<NodePath>): set<nat>
  {
    if q == [] then {} else EndNodes(q[..|q| - 1]) + {q[|q| - 1].cur}
  }

  /** Appending a state adds its end node to the end nodes. */
  lemma EndNodesSnoc(q: seq<NodePath>, s: NodePath)
    ensures EndNodes(q + [s]) == EndNodes(q) + {s.cur}
  {
    assert (q + [s])[..|q|] == q;
  }

  /** The mask of a state is the mask of its path. */
  predicate Tracked(cur: NodePath)
  {
    cur.mask == MaskOf(cur.path)
  }

  /** Two candidates off the path of `cur` lead to different masks, both other than the current one. */
  lemma NewMasksDiffer(cur: NodePath, a: nat, b: nat)
    requires Tracked(cur) && a !in cur.path
    ensures BitOr(cur.mask, a) != cur.mask
    ensures a != b ==> BitOr(cur.mask, a) != BitOr(cur.mask, b)
  {
    MaskOfBits(cur.path, a);
    BitOrBits(cur.mask, a, a);
    BitOrBits(cur.mask, b, a);
  }

  /** Offer queues the extension by `node` exactly when the tests of lines 243, 244 and 248 pass. */
  lemma OfferDecides(d: seq<seq<real>>, cur: NodePath, es: seq<MaskEntry>, node: nat)
    requires Square(d) && |d| % 2 == 0 && InRange(d, cur) && Shaped(es, |d|) && node < |d|
    ensures Offer(d, cur, es, node).1 <==>
      && node !in cur.path && !es[cur.mask].vis[Partner(node)]
      && BitOr(cur.mask, node) < |es|
      && OfferAsWritten(es[BitOr(cur.mask, node)], Arrival(node, cur.weight + d[cur.cur][node])).1
  {
    if node !in cur.path {
      BitOrBound(cur.mask, node, |d|);
    }
  }

  /** Offering `from` first does not change the decision for another node. */
  lemma OfferKeepsOthers(d: seq<seq<real>>, cur: NodePath, es: seq<MaskEntry>, from: nat, node: nat)
    requires Square(d) && |d| % 2 == 0 && InRange(d, cur) && Tracked(cur) && Shaped(es, |d|)
    requires from < |d| && node < |d| && from != node
    ensures Offer(d, cur, Offer(d, cur, es, from).0, node).1 == Offer(d, cur, es, node).1
  {
    var es' := Offer(d, cur, es, from).0;
    if from !in cur.path && node !in cur.path {
      NewMasksDiffer(cur, from, node);
      BitOrBound(cur.mask, node, |d|);
      assert es'[cur.mask] == es[cur.mask];
      assert es'[BitOr(cur.mask, node)] == es[BitOr(cur.mask, node)];
    } else if from !in cur.path {
      NewMasksDiffer(cur, from, node);
      assert es'[cur.mask] == es[cur.mask];
    }
  }

  /** One more candidate adds its node to the end nodes of the expansion exactly when it is queued. */
  lemma ExpansionEndNodes(d: seq<seq<real>>, cur: NodePath, es: seq<MaskEntry>, k: nat)
    requires Square(d) && |d| % 2 == 0 && InRange(d, cur) && Shaped(es, |d|) && 0 < k <= |d|
    ensures EndNodes(Expansion(d, cur, es, k).1)
         == EndNodes(Expansion(d, cur, es, k - 1).1)
          + (if Offer(d, cur, Expansion(d, cur, es, k - 1).0, k - 1).1 then {k - 1} else {})
  {
    var prev := Expansion(d, cur, es, k - 1);
    if Offer(d, cur, prev.0, k - 1).1 {
      EndNodesSnoc(prev.1, Extend(d, cur, k - 1));
    }
  }

  /** A candidate not yet offered is not an end node of the expansion so far. */
  lemma {:induction false} ExpansionSkipsLater(d: seq<seq<real>>, cur: NodePath, es: seq<MaskEntry>, k: nat, node: nat)
    requires Square(d) && |d| % 2 == 0 && InRange(d, cur) && Shaped(es, |d|)
    requires k <= node < |d|
    ensures node !in EndNodes(Expansion(d, cur, es, k).1)
  {
    if k > 0 {
      ExpansionSkipsLater(d, cur, es, k - 1, node);
      ExpansionEndNodes(d, cur, es, k);
    }
  }

  /** A candidate not yet offered has the decision it has on the table before the expansion. */
  lemma {:induction false} ExpansionKeepsLater(d: seq<seq<real>>, cur: NodePath, es: seq<MaskEntry>, k: nat, node: nat)
    requires Square(d) && |d| % 2 == 0 && InRange(d, cur) && Tracked(cur) && Shaped(es, |d|)
    requires k <= node < |d|
    ensures Offer(d, cur, Expansion(d, cur, es, k).0, node).1 == Offer(d, cur, es, node).1
  {
    if k > 0 {
      var prev := Expansion(d, cur, es, k - 1).0;
      ExpansionKeepsLater(d, cur, es, k - 1, node);
      OfferKeepsOthers(d, cur, prev, k - 1, node);
      assert Expansion(d, cur, es, k).0 == Offer(d, cur, prev, k - 1).0;
    } else {
      assert Expansion(d, cur, es, k).0 == es;
    }
  }

  /** The last candidate of the first k is queued exactly when Offer queues it on the table before the expansion. */
  lemma ExpansionDecidesLast(d: seq<seq<real>>, cur: NodePath, es: seq<MaskEntry>, k: nat)
    requires Square(d) && |d| % 2 == 0 && InRange(d, cur) && Tracked(cur) && Shaped(es, |d|)
    requires 0 < k <= |d|
    ensures k - 1 in EndNodes(Expansion(d, cur, es, k).1) <==> Offer(d, cur, es, k - 1).1
  {
    ExpansionEndNodes(d, cur, es, k);
    ExpansionSkipsLater(d, cur, es, k - 1, k - 1);
    ExpansionKeepsLater(d, cur, es, k - 1, k - 1);
  }

  /**
   * Every candidate is decided against the table as it was before the
   * expansion: after the first k candidates, each of them ends a queued state
   * exactly when Offer queues it on that table.
   */
  lemma {:induction false} ExpansionOffersOnOldTable(d: seq<seq<real>>, cur: NodePath, es: seq<MaskEntry>, k: nat, node: nat)
    requires Square(d) && |d| % 2 == 0 && InRange(d, cur) && Tracked(cur) && Shaped(es, |d|)
    requires node < k <= |d|
    ensures node in EndNodes(Expansion(d, cur, es, k).1) <==> Offer(d, cur, es, node).1
  {
    if node == k - 1 {
      ExpansionDecidesLast(d, cur, es, k);
    } else {
      ExpansionEndNodes(d, cur, es, k);
      ExpansionOffersOnOldTable(d, cur, es, k - 1, node);
    }
  }

  /**
   * The expansion of a popped state queues an extension by `node` exactly
   * when the node is off the path, its partner is not flagged under the
   * current mask, and the rule as written admits it at the entry of the new
   * mask as that entry stood when the state was popped.
   */
  lemma ExpansionDecidesOnOldTable(d: seq<seq<real>>, cur: NodePath, es: seq<MaskEntry>, node: nat)
    requires Square(d) && |d| % 2 == 0 && ValidState(d, cur) && Shaped(es, |d|) && node < |d|
    ensures node in EndNodes(Expansion(d, cur, es, |d|).1) <==>
      && node !in cur.path && !es[cur.mask].vis[Partner(node)]
      && BitOr(cur.mask, node) < |es|
      && OfferAsWritten(es[BitOr(cur.mask, node)], Arrival(node, cur.weight + d[cur.cur][node])).1
  {
    ExpansionOffersOnOldTable(d, cur, es, |d|, node);
    OfferDecides(d, cur, es, node);
  }

  /** One more candidate: the expansion of the first node + 1 candidates, from that of the first node. */
  lemma ExpansionStep(d: seq<seq<real>>, cur: NodePath, e0: seq<MaskEntry>, node: nat,
                      es: seq<MaskEntry>, children: seq<NodePath>, es': seq<MaskEntry>, pushed: bool, child: NodePath)
    requires Square(d) && |d| % 2 == 0 && InRange(d, cur) && Shaped(e0, |d|) && node < |d|
    requires (es, children) == Expansion(d, cur, e0, node)
    requires (es', pushed) == Offer(d, cur, es, node)
    requires pushed ==> child == Extend(d, cur, node)
    ensures (es', if pushed then children + [child] else children) == Expansion(d, cur, e0, node + 1)
  {
  }

  /** A candidate on the path, or whose partner is flagged under the current mask, adds nothing to the expansion. */
  lemma ExpansionSkip(d: seq<seq<real>>, cur: NodePath, e0: seq<MaskEntry>, node: nat, es: seq<MaskEntry>, children: seq<NodePath>)
    requires Square(d) && |d| % 2 == 0 && InRange(d, cur) && Shaped(e0, |d|) && node < |d|
    requires Expansion(d, cur, e0, node).0 == es && Expansion(d, cur, e0, node).1 == children
    requires node in cur.path || es[cur.mask].vis[Partner(node)]
    ensures Expansion(d, cur, e0, node + 1).0 == es && Expansion(d, cur, e0, node + 1).1 == children
  {
  }

  /**
   * A candidate neither on the path nor with its partner flagged, arriving
   * under a mask where it is not flagged yet, is queued: it is flagged there
   * and the entry takes its weight.
   */
  lemma ExpansionAdmit(d: seq<seq<real>>, cur: NodePath, e0: seq<MaskEntry>, node: nat, es: seq<MaskEntry>, children: seq<NodePath>, m: nat)
    requires Square(d) && |d| % 2 == 0 && InRange(d, cur) && Shaped(e0, |d|) && node < |d|
    requires Expansion(d, cur, e0, node).0 == es && Expansion(d, cur, e0, node).1 == children
    requires node !in cur.path && !es[cur.mask].vis[Partner(node)]
    requires m == BitOr(cur.mask, node) && m < |es| && !es[m].vis[node]
    ensures Expansion(d, cur, e0, node + 1).0 == es[m := MaskEntry(es[m].vis[node := true], cur.weight + d[cur.cur][node])]
    ensures Expansion(d, cur, e0, node + 1).1 == children + [Extend(d, cur, node)]
  {
  }

  /**
   * Expands one popped state (lines 229-255): each node in increasing order is
   * offered as in TryNode, against the table the earlier nodes left; the table
   * and the queued states are those of Expansion, and every state of the
   * queue keeps its end node flagged.
   */
  method ExpandState(d: seq<seq<real>>, pairs: seq<nat>, t: array<VisitedPathWeights>,
                     cur: NodePath, queue: seq<NodePath>)
    returns (queue': seq<NodePath>, ghost children: seq<NodePath>)
    requires Square(d) && |d| % 2 == 0
    requires |pairs| == |d| && forall k :: 0 <= k < |d| ==> pairs[k] == Partner(k)
    requires TableShape(t, |d|) && Separate(t) && ValidState(d, cur) && Flagged(Entries(t), queue)
    modifies set j | 0 <= j < t.Length :: t[j]
    ensures TableShape(t, |d|) && Flagged(Entries(t), queue')
    ensures queue' == queue + children
    ensures (Entries(t), children) == Expansion(d, cur, old(Entries(t)), |d|)
  {
    var n := |d|;
    ghost var e0 := Entries(t);
    ghost var es := e0;
    queue' := queue;
    children := [];
    for node := 0 to n
      invariant TableShape(t, n) && Entries(t) == es
      invariant queue' == queue + children
      invariant es == Expansion(d, cur, e0, node).0 && children == Expansion(d, cur, e0, node).1
    {
      var pushed, child := TryNode(d, pairs, t, cur, node);
      ExpansionStep(d, cur, e0, node, es, children, Entries(t), pushed, child);
      es := Entries(t);
      if pushed {
        queue' := queue' + [child];
        children := children + [child];
      }
    }
    ExpansionFlags(d, cur, e0, n, queue);
  }

  /**
   * Lines 243-254 for one candidate node: skipped when it is on the path or
   * its partner is flagged in the entry of the current mask; otherwise the
   * extension by the node is offered to the entry of the new mask and queued
   * when admitted. The table changes as Offer says, and the state returned for
   * queueing is the extension of `cur` by the node.
   */
  method TryNode(d: seq<seq<real>>, pairs: seq<nat>, t: array<VisitedPathWeights>, cur: NodePath, node: nat)
    returns (pushed: bool, child: NodePath)
    requires Square(d) && |d| % 2 == 0 && node < |d|
    requires |pairs| == |d| && forall k :: 0 <= k < |d| ==> pairs[k] == Partner(k)
    requires TableShape(t, |d|) && Separate(t) && ValidState(d, cur)
    modifies set j | 0 <= j < t.Length :: t[j]
    ensures t.Length == Pow2(|d|) && forall j :: 0 <= j < t.Length ==> |t[j].vis| == |d|
    ensures (Entries(t), pushed) == Offer(d, cur, old(Entries(t)), node)
    ensures pushed ==> child == Extend(d, cur, node)
  {
    var n := |d|;
    if node in cur.path {
      return false, cur;
    }
    if t[cur.mask].IsNodeVisited(pairs[node]) {
      return false, cur;
    }
    var newMask := BitOr(cur.mask, node);
    var newWeight := cur.weight + d[cur.cur][node];
    BitOrBound(cur.mask, node, n);
    pushed := Admit(t, n, newMask, node, newWeight);
    child := cur;
    if pushed {
      var newNumVisited := cur.numVisited + 1;
      child := MakeNodePath(node, newMask, newWeight, newNumVisited, cur.path);
    }
  }

  /**
   * m is what the search reports for the complete states cs: -1.0 when there
   * are none, otherwise the least of their weights.
   */
  predicate RunningMin(m: real, cs: seq<NodePath>)
  {
    && (cs == [] ==> m == -1.0)
    && (cs != [] ==>
          && m >= 0.0
          && (exists k :: 0 <= k < |cs| && m == cs[k].weight)
          && (forall k :: 0 <= k < |cs| ==> m <= cs[k].weight))
  }

  /**
   * The update of lines 221-227 (take the new weight when nothing is recorded
   * yet or it is lower) keeps the reported value the least weight seen.
   */
  lemma MinStep(m: real, cs: seq<NodePath>, s: NodePath, m': real)
    requires RunningMin(m, cs) && s.weight >= 0.0
    requires m' == if m < 0.0 || s.weight < m then s.weight else m
    ensures RunningMin(m', cs + [s])
  {
    var cs' := cs + [s];
    if m' == s.weight {
      assert cs'[|cs|] == s;
    } else {
      var k :| 0 <= k < |cs| && m == cs[k].weight;
      assert cs'[k] == cs[k];
    }
  }

  /**
   * The main loop of lines 211-256 on values: pops the front state; when it
   * has n/2 nodes, records it and takes its weight when nothing is recorded
   * yet (m < 0) or it is lower; expands it against the table; and goes on until
   * the queue is empty. The result is the value reported and the states
   * recorded, in the order they were popped.
   */
  ghost function Run(d: seq<seq<real>>, es: seq<MaskEntry>, queue: seq<NodePath>, m: real, cs: seq<NodePath>)
    : (r: (real, seq<NodePath>))
    requires Square(d) && |d| % 2 == 0 && Shaped(es, |d|) && AllValid(d, queue)
    decreases Potential(queue, |d|)
  {
    if queue == [] then (m, cs)
    else
      AllValidTail(d, queue);
      var cur := queue[0];
      var complete := cur.numVisited == |d| / 2;
      var m' := if complete && (m < 0.0 || cur.weight < m) then cur.weight else m;
      var cs' := if complete then cs + [cur] else cs;
      var (es', children) := Expansion(d, cur, es, |d|);
      ExpansionChildren(d, cur, es, |d|);
      AllValidSplit(d, queue[1..], children);
      ChildLengths(d, cur, children);
      PotentialDecreases(queue, children, |d|);
      Run(d, es', queue[1..] + children, m', cs')
  }

  /**
   * The result of the exhaustive solver for an even number of nodes: the main
   * loop run from the seeded blank table and the queue of initial states.
   */
  ghost function Outcome(d: seq<seq<real>>): (r: (real, seq<NodePath>))
    requires Square(d) && |d| % 2 == 0
  {
    SeedsValid(d);
    Run(d, SeedEntries(BlankTable(|d|), |d|, |d|), Seeds(|d|), -1.0, [])
  }

  /**
   * The main loop (lines 211-256): pops states in FIFO order, records each
   * one with n/2 nodes (taking its weight when nothing is recorded yet or it
   * is lower), and expands every popped state. The result and the recorded
   * states are those of Run from the table and queue it is given; the states
   * recorded are complete, and the result is their least weight, or -1.0
   * when there is none.
   */
  method Search(d: seq<seq<real>>, mapNodePairs: seq<nat>, visited: array<VisitedPathWeights>,
                queue0: seq<NodePath>) returns (dMinWeight: real, ghost completes: seq<NodePath>)
    requires Square(d) && NonNegative(d) && |d| % 2 == 0
    requires |mapNodePairs| == |d| && forall k :: 0 <= k < |d| ==> mapNodePairs[k] == Partner(k)
    requires TableShape(visited, |d|) && Separate(visited) && AllValid(d, queue0) && Flagged(Entries(visited), queue0)
    requires |d| == 2 ==> queue0 != [] && queue0[0].weight == 0.0 && queue0[0].numVisited == 1
    modifies set j | 0 <= j < visited.Length :: visited[j]
    ensures (dMinWeight, completes) == Run(d, old(Entries(visited)), queue0, -1.0, [])
    ensures AllComplete(d, completes) && RunningMin(dMinWeight, completes)
    ensures queue0 == [] ==> completes == []
    ensures |d| == 2 ==> dMinWeight == 0.0
  {
    var numNodes := |d|;
    var queue := queue0;
    ghost var e0 := Entries(visited);
    dMinWeight := -1.0;
    completes := [];
    while queue != []
      invariant TableShape(visited, numNodes) && Separate(visited)
      invariant SearchInvariant(d, e0, queue0, Entries(visited), queue, dMinWeight, completes)
      decreases Potential(queue, numNodes)
    {
      var curNodePath := queue[0];
      ghost var before := (Entries(visited), queue, dMinWeight, completes);
      TurnStart(d, e0, queue0, before.0, before.1, before.2, before.3);
      queue := queue[1..];
      if curNodePath.numVisited == numNodes / 2 {
        if dMinWeight < 0.0 || curNodePath.weight < dMinWeight {
          dMinWeight := curNodePath.weight;
        }
        completes := completes + [curNodePath];
      }
      ghost var children;
      queue, children := ExpandState(d, mapNodePairs, visited, curNodePath, queue);
      TurnKeeps(d, e0, queue0, before.0, before.1, before.2, before.3,
                Entries(visited), queue, dMinWeight, completes);
    }
  }

  /**
   * What holds at the head of the main loop: the queued states are
   * well-formed and flagged in the table; the recorded states are complete
   * and the running value is their least weight; nothing is recorded when
   * nothing was queued; with two nodes the value is 0.0 or the front state
   * is an initial one of weight 0.0; and running the loop on from here gives
   * what Run gives from the start.
   */
  ghost predicate SearchInvariant(d: seq<seq<real>>, e0: seq<MaskEntry>, queue0: seq<NodePath>,
                                  es: seq<MaskEntry>, queue: seq<NodePath>, m: real, cs: seq<NodePath>)
    requires Square(d) && |d| % 2 == 0
  {
    && Shaped(e0, |d|) && AllValid(d, queue0)
    && Shaped(es, |d|) && AllValid(d, queue) && Flagged(es, queue)
    && AllComplete(d, cs) && RunningMin(m, cs)
    && (queue0 == [] ==> queue == [] && cs == [])
    && (|d| == 2 ==> m == 0.0 || (queue != [] && queue[0].weight == 0.0 && queue[0].numVisited == 1))
    && Run(d, e0, queue0, -1.0, []) == Run(d, es, queue, m, cs)
  }

  /** The front state of a non-empty queue is well-formed, and the rest of the queue stays flagged. */
  lemma TurnStart(d: seq<seq<real>>, e0: seq<MaskEntry>, queue0: seq<NodePath>,
                  es: seq<MaskEntry>, queue: seq<NodePath>, m: real, cs: seq<NodePath>)
    requires Square(d) && |d| % 2 == 0 && SearchInvariant(d, e0, queue0, es, queue, m, cs) && queue != []
    ensures ValidState(d, queue[0]) && Flagged(es, queue[1..])
  {
    AllValidTail(d, queue);
    assert forall s :: s in queue[1..] ==> s in queue;
  }

  /**
   * One turn of the main loop keeps SearchInvariant and lowers the
   * termination measure: the front state is popped, recorded when it has n/2
   * nodes, and expanded against the table.
   */
  lemma TurnKeeps(d: seq<seq<real>>, e0: seq<MaskEntry>, queue0: seq<NodePath>,
                  es: seq<MaskEntry>, queue: seq<NodePath>, m: real, cs: seq<NodePath>,
                  es': seq<MaskEntry>, queue': seq<NodePath>, m': real, cs': seq<NodePath>)
    requires Square(d) && NonNegative(d) && |d| % 2 == 0
    requires SearchInvariant(d, e0, queue0, es, queue, m, cs) && queue != []
    requires ValidState(d, queue[0])
    requires var cur := queue[0];
             var complete := cur.numVisited == |d| / 2;
             && (es', queue') == (Expansion(d, cur, es, |d|).0, queue[1..] + Expansion(d, cur, es, |d|).1)
             && m' == (if complete && (m < 0.0 || cur.weight < m) then cur.weight else m)
             && cs' == (if complete then cs + [cur] else cs)
             && Flagged(es', queue')
    ensures SearchInvariant(d, e0, queue0, es', queue', m', cs')
    ensures Potential(queue', |d|) < Potential(queue, |d|)
  {
    RunStep(d, es, queue, m, cs);
    var cur := queue[0];
    if cur.numVisited == |d| / 2 {
      PathWeightNonNegative(d, cur.path);
      MinStep(m, cs, cur, m');
      AllCompleteAppend(d, cs, cur);
    }
  }

  /** One turn of the main loop, as Run takes it. */
  lemma RunStep(d: seq<seq<real>>, es: seq<MaskEntry>, queue: seq<NodePath>, m: real, cs: seq<NodePath>)
    requires Square(d) && |d| % 2 == 0 && Shaped(es, |d|) && AllValid(d, queue) && queue != []
    ensures ValidState(d, queue[0])
    ensures var cur := queue[0];
            var complete := cur.numVisited == |d| / 2;
            var x := Expansion(d, cur, es, |d|);
            && AllValid(d, queue[1..] + x.1)
            && Potential(queue[1..] + x.1, |d|) < Potential(queue, |d|)
            && Run(d, es, queue, m, cs)
               == Run(d, x.0, queue[1..] + x.1,
                      if complete && (m < 0.0 || cur.weight < m) then cur.weight else m,
                      if complete then cs + [cur] else cs)
  {
    AllValidTail(d, queue);
    var children := Expansion(d, queue[0], es, |d|).1;
    ExpansionChildren(d, queue[0], es, |d|);
    AllValidSplit(d, queue[1..], children);
    ChildLengths(d, queue[0], children);
    assert forall k :: 0 <= k < |children| ==> |children[k].path| == |queue[0].path| + 1 <= |d|;
    PotentialDecreases(queue, children, |d|);
  }

  /**
   * A popped state whose every candidate is on its path or has its partner
   * flagged in the entry of its mask queues nothing and leaves the table as it was.
   */
  lemma {:induction false} ExpansionBlocked(d: seq<seq<real>>, cur: NodePath, es: seq<MaskEntry>, k: nat)
    requires Square(d) && |d| % 2 == 0 && InRange(d, cur) && Shaped(es, |d|) && k <= |d|
    requires forall c :: 0 <= c < k ==> c in cur.path || es[cur.mask].vis[Partner(c)]
    ensures Expansion(d, cur, es, k).0 == es && Expansion(d, cur, es, k).1 == []
  {
    if k > 0 {
      ExpansionBlocked(d, cur, es, k - 1);
    }
  }

  /**
   * The running minimum of lines 221-227 taken over the states of q in order,
   * counting only those with `half` nodes, from the starting value m.
   */
  function RecordAll(q: seq<NodePath>, half: nat, m: real): (r: real)
    ensures r == m || exists k :: 0 <= k < |q| && q[k].numVisited == half && r == q[k].weight
  {
    if q == [] then m
    else
      var m' := if q[0].numVisited == half && (m < 0.0 || q[0].weight < m) then q[0].weight else m;
      var r := RecordAll(q[1..], half, m');
      assert r == m' || exists k :: 0 <= k < |q| - 1 && q[1..][k].numVisited == half && r == q[1..][k].weight;
      r
  }

  /**
   * Once no state of the queue can queue anything on the table, the main loop
   * only records: its result is the running minimum over the queue.
   */
  lemma {:induction false} RunWithoutChildren(d: seq<seq<real>>, es: seq<MaskEntry>, q: seq<NodePath>, m: real, cs: seq<NodePath>)
    requires Square(d) && |d| % 2 == 0 && Shaped(es, |d|) && AllValid(d, q)
    requires forall k :: 0 <= k < |q| ==> Expansion(d, q[k], es, |d|).0 == es && Expansion(d, q[k], es, |d|).1 == []
    ensures Run(d, es, q, m, cs).0 == RecordAll(q, |d| / 2, m)
  {
    if q != [] {
      RunStep(d, es, q, m, cs);
      var cur := q[0];
      var complete := cur.numVisited == |d| / 2;
      var m' := if complete && (m < 0.0 || cur.weight < m) then cur.weight else m;
      var cs' := if complete then cs + [cur] else cs;
      assert q[1..] + [] == q[1..];
      forall k | 0 <= k < |q| - 1
        ensures Expansion(d, q[1..][k], es, |d|).0 == es && Expansion(d, q[1..][k], es, |d|).1 == []
      {
        assert q[1..][k] == q[k + 1];
      }
      RunWithoutChildren(d, es, q[1..], m', cs');
    }
  }

  /**
   * The exhaustive solver. An odd node count gives -2.0 before anything else.
   * Otherwise the result and the states recorded are those of Outcome: every
   * state the search pops with n/2 nodes is recorded in the ghost sequence
   * `completes`; each is a path of n/2 distinct nodes carrying its own
   * weight, and the result is the least of their weights, or -1.0 when there
   * is none (as for n == 0, where nothing is queued). Two nodes give 0.0.
   */
  method OptimalMin(d: seq<seq<real>>) returns (r: real, ghost completes: seq<NodePath>)
    requires Square(d) && NonNegative(d)
    requires |d| % 2 != 0 || |d| <= 30
    ensures |d| % 2 != 0 ==> r == -2.0
    ensures |d| % 2 == 0 ==> (r, completes) == Outcome(d)
    ensures |d| % 2 == 0 ==> AllComplete(d, completes) && RunningMin(r, completes)
    ensures |d| == 0 ==> r == -1.0
    ensures |d| == 2 ==> r == 0.0
  {
    var numNodes := |d|;
    if numNodes % 2 != 0 {
      return -2.0, [];
    }
    var numTotalPaths := Pow2(numNodes) - 1;
    var visited := NewTable(numNodes, numTotalPaths + 1);
    var mapNodePairs := BuildPairMap(numNodes);
    assert Entries(visited) == BlankTable(numNodes);
    var queue := SeedStates(visited, numNodes);
    SeedsValid(d);
    r, completes := Search(d, mapNodePairs, visited, queue);
  }
}
