/**
 * The greedy solver `minPath`: start from the pair {0,1}, then repeatedly take
 * the cheapest pending edge that extends the current tip of the path into a
 * pair not yet visited.
 */
module Greedy {
  import opened Pairing
  import opened Paths

  /** A priority-queue entry {weight, {toNode, fromNode}}. */
  datatype Entry = Entry(weight: real, to: nat, from: nat)

  /**
   * The order of the min-priority queue: entries compare lexicographically on
   * (weight, toNode, fromNode), the least entry is served first.
   */
  predicate Less(a: Entry, b: Entry)
  {
    || a.weight < b.weight
    || (a.weight == b.weight && a.to < b.to)
    || (a.weight == b.weight && a.to == b.to && a.from < b.from)
  }

  /** Less is a strict total order on entries, so the least entry of a queue is unique. */
  lemma LessStrictTotal(a: Entry, b: Entry, c: Entry)
    ensures !Less(a, a)
    ensures Less(a, b) && Less(b, c) ==> Less(a, c)
    ensures a != b ==> Less(a, b) || Less(b, a)
  {
  }

  /**
   * Removes the least entry from the queue (`top` followed by `pop`).
   * The queue is a bag: the rest holds every other entry, with multiplicity.
   */
  method PopMin(pq: seq<Entry>) returns (top: Entry, rest: seq<Entry>)
    requires |pq| > 0
    ensures top in pq
    ensures forall e :: e in pq ==> !Less(e, top)
    ensures multiset(rest) + multiset{top} == multiset(pq)
    ensures |rest| == |pq| - 1
  {
    var k := 0;
    var i := 1;
    while i < |pq|
      invariant 1 <= i <= |pq| && 0 <= k < i
      invariant forall j :: 0 <= j < i ==> !Less(pq[j], pq[k])
    {
      if Less(pq[i], pq[k]) {
        k := i;
      }
      i := i + 1;
    }
    top := pq[k];
    rest := pq[..k] + pq[k + 1..];
    assert pq == pq[..k] + [pq[k]] + pq[k + 1..];
  }

  /** An entry other than the one popped is still in the queue, and nothing new appeared. */
  lemma PopKeeps(pq: seq<Entry>, top: Entry, rest: seq<Entry>, e: Entry)
    requires multiset(rest) + multiset{top} == multiset(pq)
    ensures e in rest ==> e in pq
    ensures e in pq && e != top ==> e in rest
  {
    assert multiset(pq)[e] == multiset(rest)[e] + multiset{top}[e];
  }

  /** The seed loop visits (i, j) in the order i = 0, 1 and, for each i, j = 0 .. n-1. */
  predicate Before(i: nat, j: nat, i2: nat, j2: nat)
  {
    i < i2 || (i == i2 && j < j2)
  }

  /**
   * (i, j) is the seed edge: it leaves the pair {0,1} for a node outside it, no
   * such edge is lighter, and every such edge scanned earlier is strictly heavier
   * (the first lightest edge found wins).
   */
  predicate IsSeedEdge(d: seq<seq<real>>, i: nat, j: nat)
    requires Square(d)
  {
    && i < 2 && 2 <= j < |d|
    && forall i', j' :: 0 <= i' < 2 && 2 <= j' < |d| ==>
         d[i][j] <= d[i'][j'] && (Before(i', j', i, j) ==> d[i][j] < d[i'][j'])
  }

  /** What the seed loop knows once it has scanned every (i', j') before (i, j). */
  predicate SeedScanned(d: seq<seq<real>>, seed: Entry, i: nat, j: nat)
    requires Square(d)
  {
    if |d| >= 4 && (i > 0 || j > 2) then
      && seed.from < 2 && 2 <= seed.to < |d|
      && seed.weight == d[seed.from][seed.to]
      && Before(seed.from, seed.to, i, j)
      && forall i', j' :: 0 <= i' < 2 && 2 <= j' < |d| && Before(i', j', i, j) ==>
           seed.weight <= d[i'][j'] && (Before(i', j', seed.from, seed.to) ==> seed.weight < d[i'][j'])
    else
      seed == Entry(-1.0, 0, 0)
  }

  /**
   * Picks the cheapest edge from node 0 or 1 to a node outside {0,1}. With only
   * two nodes there is none and the placeholder {-1, {0, 0}} is returned.
   */
  method ChooseSeed(d: seq<seq<real>>, pairs: seq<nat>) returns (seed: Entry)
    requires Square(d) && NonNegative(d) && |d| % 2 == 0 && |d| >= 2
    requires |pairs| == |d| && forall k :: 0 <= k < |d| ==> pairs[k] == Partner(k)
    ensures |d| == 2 ==> seed == Entry(-1.0, 0, 0)
    ensures |d| >= 4 ==> IsSeedEdge(d, seed.from, seed.to) && seed.weight == d[seed.from][seed.to]
  {
    var n := |d|;
    seed := Entry(-1.0, 0, 0);
    var i := 0;
    while i < 2
      invariant 0 <= i <= 2
      invariant SeedScanned(d, seed, i, 0)
    {
      var j := 0;
      while j < n
        invariant 0 <= j <= n
        invariant SeedScanned(d, seed, i, j)
      {
        if i != j && pairs[i] != j {
          var weight := d[i][j];
          if seed.weight < 0.0 || weight < seed.weight {
            seed := Entry(weight, j, i);
          }
        }
        j := j + 1;
      }
      i := i + 1;
    }
  }

  /**
   * After accepting `cur`, pushes the edge from `cur` to every node whose pair
   * is not fully visited, in node order.
   */
  method PushEdges(d: seq<seq<real>>, pairs: seq<nat>, visited: seq<bool>, cur: nat, pq: seq<Entry>)
    returns (pq': seq<Entry>)
    requires Square(d) && |d| % 2 == 0 && cur < |d| && |visited| == |d|
    requires |pairs| == |d| && forall k :: 0 <= k < |d| ==> pairs[k] == Partner(k)
    ensures |pq| <= |pq'| <= |pq| + |d| && pq'[..|pq|] == pq
    ensures forall k :: |pq| <= k < |pq'| ==>
      && pq'[k].from == cur && pq'[k].to < |d|
      && pq'[k].weight == d[cur][pq'[k].to]
      && (!visited[pq'[k].to] || !visited[Partner(pq'[k].to)])
    ensures forall v :: 0 <= v < |d| && !visited[v] ==> Entry(d[cur][v], v, cur) in pq'
  {
    var n := |d|;
    pq' := pq;
    var node := 0;
    while node < n
      invariant 0 <= node <= n
      invariant |pq| <= |pq'| <= |pq| + node && pq'[..|pq|] == pq
      invariant forall k :: |pq| <= k < |pq'| ==>
        && pq'[k].from == cur && pq'[k].to < n
        && pq'[k].weight == d[cur][pq'[k].to]
        && (!visited[pq'[k].to] || !visited[Partner(pq'[k].to)])
      invariant forall v :: 0 <= v < node && !visited[v] ==> Entry(d[cur][v], v, cur) in pq'
    {
      if !visited[node] || !visited[pairs[node]] {
        pq' := pq' + [Entry(d[cur][node], node, cur)];
      }
      node := node + 1;
    }
  }

  /**
   * `next` is the greedy choice after `prefix`: it lies in a pair the prefix has
   * not used, and no edge from the tip into such a pair orders before it.
   */
  predicate IsGreedyStep(d: seq<seq<real>>, prefix: seq<nat>, next: nat)
    requires Square(d) && |prefix| > 0 && NodesBelow(prefix, |d|)
  {
    var tip := prefix[|prefix| - 1];
    && next < |d| && next / 2 !in PairsOf(prefix)
    && forall v :: 0 <= v < |d| && v / 2 !in PairsOf(prefix) ==>
         !Less(Entry(d[tip][v], v, tip), Entry(d[tip][next], next, tip))
  }

  /** Step k of the path (k >= 1) is the greedy choice after the first k + 1 nodes. */
  predicate GreedyStepAt(d: seq<seq<real>>, path: seq<nat>, k: nat)
    requires Square(d) && NodesBelow(path, |d|) && 1 <= k < |path| - 1
  {
    IsGreedyStep(d, path[..k + 1], path[k + 1])
  }

  /** Two nodes lie in the same pair exactly when they are equal or partners. */
  lemma SamePair(v: nat, c: nat)
    ensures v / 2 == c / 2 <==> v == c || v == Partner(c)
  {
  }

  lemma PairsOfAppend(p: seq<nat>, x: nat)
    ensures PairsOf(p + [x]) == PairsOf(p) + {x / 2}
  {
    var q := p + [x];
    assert q[|p|] == x;
    forall k | k in PairsOf(q) ensures k in PairsOf(p) + {x / 2} {
      var i :| 0 <= i < |q| && k == q[i] / 2;
      if i < |p| { assert q[i] == p[i]; }
    }
    forall k | k in PairsOf(p) ensures k in PairsOf(q) {
      var i :| 0 <= i < |p| && k == p[i] / 2;
      assert q[i] == p[i];
    }
  }

  /**
   * The path half of the main loop's state: the visited flags mark exactly the
   * pairs the path uses, the path has one node per pair and ends at the tip
   * `lastNode`, the running total is the path's weight, the path starts with
   * the seed edge and every later step was the greedy choice.
   */
  ghost predicate PathInvariant(d: seq<seq<real>>, visited: seq<bool>, remaining: set<nat>,
                                path: seq<nat>, lastNode: nat, pathWeight: real, seed: Entry)
  {
    var n := |d|;
    && Square(d) && n % 2 == 0 && n >= 2
    && |visited| == n
    && (forall v :: 0 <= v < n ==> (visited[v] <==> v / 2 in PairsOf(path)))
    && (forall v: nat :: v in remaining <==> v < n && !visited[v])
    && |remaining| + 2 * |path| == n
    && 1 <= |path| && NodesBelow(path, n) && OnePerPair(path)
    && path[0] == seed.from && path[|path| - 1] == lastNode
    && pathWeight == PathWeight(d, path)
    && (n >= 4 ==> IsSeedEdge(d, seed.from, seed.to) && seed.weight == d[seed.from][seed.to])
    && (n == 2 ==> seed == Entry(-1.0, 0, 0))
    && (|path| >= 2 ==> path[1] == seed.to)
    && (forall k :: 1 <= k < |path| - 1 ==> GreedyStepAt(d, path, k))
  }

  /**
   * The queue half of the main loop's state: entries name nodes of the matrix,
   * an entry to an unvisited node carries the weight of its edge, and for every
   * unvisited node the queue holds the edge to it from the tip (before the
   * first step: the queue is just the seed).
   */
  ghost predicate QueueInvariant(d: seq<seq<real>>, visited: seq<bool>, path: seq<nat>,
                                 lastNode: nat, seed: Entry, pq: seq<Entry>)
  {
    var n := |d|;
    && Square(d) && |visited| == n && lastNode < n
    && (forall e :: e in pq ==> e.to < n && e.from < n && (visited[e.to] || e.weight == d[e.from][e.to]))
    && (|path| == 1 && n >= 4 ==> pq == [seed])
    && (|path| >= 2 || n == 2 ==>
          forall v :: 0 <= v < n && !visited[v] ==> Entry(d[lastNode][v], v, lastNode) in pq)
  }

  /**
   * The path the greedy solver follows on an even, non-empty matrix: one node
   * per pair and every pair covered; it starts in pair {0,1}, with node 0 alone
   * when there are only two nodes and with the seed edge otherwise, and every
   * later step is the greedy choice from the tip.
   */
  ghost predicate IsGreedyPath(d: seq<seq<real>>, path: seq<nat>)
    requires Square(d)
  {
    && |d| % 2 == 0 && |d| > 0
    && |path| == |d| / 2 && NodesBelow(path, |d|) && OnePerPair(path)
    && (forall k :: 0 <= k < |d| / 2 ==> k in PairsOf(path))
    && path[0] < 2
    && (|d| == 2 ==> path == [0])
    && (|d| >= 4 ==> IsSeedEdge(d, path[0], path[1]))
    && (forall k :: 1 <= k < |path| - 1 ==> GreedyStepAt(d, path, k))
  }

  /** At most one edge is the seed: the first lightest edge scanned is unique. */
  lemma SeedEdgeUnique(d: seq<seq<real>>, i: nat, j: nat, i2: nat, j2: nat)
    requires Square(d) && IsSeedEdge(d, i, j) && IsSeedEdge(d, i2, j2)
    ensures i == i2 && j == j2
  {
    SeedBelow(d, i, j, i2, j2);
    SeedBelow(d, i2, j2, i, j);
  }

  /** The seed edge is no heavier than any edge out of {0,1}, and lighter than any scanned before it. */
  lemma SeedBelow(d: seq<seq<real>>, i: nat, j: nat, i2: nat, j2: nat)
    requires Square(d) && IsSeedEdge(d, i, j) && i2 < 2 && 2 <= j2 < |d|
    ensures d[i][j] <= d[i2][j2]
    ensures Before(i2, j2, i, j) ==> d[i][j] < d[i2][j2]
  {
  }

  /** After a given prefix at most one node is the greedy choice: the queue order breaks every tie. */
  lemma GreedyStepUnique(d: seq<seq<real>>, prefix: seq<nat>, a: nat, b: nat)
    requires Square(d) && |prefix| > 0 && NodesBelow(prefix, |d|)
    requires IsGreedyStep(d, prefix, a) && IsGreedyStep(d, prefix, b)
    ensures a == b
  {
    var tip := prefix[|prefix| - 1];
    var ea := Entry(d[tip][a], a, tip);
    var eb := Entry(d[tip][b], b, tip);
    assert !Less(eb, ea) && !Less(ea, eb);
    LessStrictTotal(ea, eb, ea);
  }

  /** Two greedy paths of one matrix agree on their first k nodes. */
  lemma {:induction false} GreedyPrefixUnique(d: seq<seq<real>>, p: seq<nat>, q: seq<nat>, k: nat)
    requires Square(d) && IsGreedyPath(d, p) && IsGreedyPath(d, q) && 1 <= k <= |p|
    ensures p[..k] == q[..k]
  {
    if k == 1 {
      if |d| >= 4 {
        SeedEdgeUnique(d, p[0], p[1], q[0], q[1]);
      }
      assert p[..1] == [p[0]] && q[..1] == [q[0]];
    } else if k == 2 {
      SeedEdgeUnique(d, p[0], p[1], q[0], q[1]);
      assert p[..2] == [p[0], p[1]] && q[..2] == [q[0], q[1]];
    } else {
      GreedyPrefixUnique(d, p, q, k - 1);
      assert GreedyStepAt(d, p, k - 2) && GreedyStepAt(d, q, k - 2);
      GreedyStepUnique(d, p[..k - 1], p[k - 1], q[k - 1]);
      assert p[..k] == p[..k - 1] + [p[k - 1]] && q[..k] == q[..k - 1] + [q[k - 1]];
    }
  }

  /**
   * The greedy path is a function of the matrix: the queue order on (weight,
   * toNode, fromNode) and the scan order of the seed loop leave no choice open.
   */
  lemma GreedyPathUnique(d: seq<seq<real>>, p: seq<nat>, q: seq<nat>)
    requires Square(d) && IsGreedyPath(d, p) && IsGreedyPath(d, q)
    ensures p == q
  {
    GreedyPrefixUnique(d, p, q, |p|);
    assert p == p[..|p|] && q == q[..|q|];
  }

  /**
   * The greedy solver. Odd n gives -1.0 and n == 0 gives -2.0, both before the
   * matrix is read. Otherwise the result is the weight of the path it builds
   * (returned as a ghost value): one node per pair, starting with the seed edge
   * and continuing with the greedy choice from the tip at every step.
   */
  method MinPath(d: seq<seq<real>>) returns (r: real, ghost path: seq<nat>)
    requires Square(d) && NonNegative(d)
    ensures |d| % 2 != 0 ==> r == -1.0
    ensures |d| == 0 ==> r == -2.0
    ensures |d| % 2 == 0 && |d| > 0 ==> IsGreedyPath(d, path) && r == PathWeight(d, path) && r >= 0.0
    ensures |d| == 2 ==> r == 0.0
  {
    var n := |d|;
    if n % 2 != 0 {
      return -1.0, [];
    }
    if n == 0 {
      return -2.0, [];
    }
    var visited := seq(n, _ => false);
    var pairs := BuildPairMap(n);
    var seed := ChooseSeed(d, pairs);
    visited := visited[0 := true][1 := true];
    var pq := [seed];
    var lastNode := seed.from;
    var pathWeight := 0.0;
    path := [lastNode];
    ghost var remaining := Below(n) - {0, 1};
    InitialPath(d, visited, remaining, path, seed);
    InitialQueue(d, visited, path, seed);
    while pq != []
      invariant |pairs| == n && forall k :: 0 <= k < n ==> pairs[k] == Partner(k)
      invariant PathInvariant(d, visited, remaining, path, lastNode, pathWeight, seed)
      invariant QueueInvariant(d, visited, path, lastNode, seed, pq)
      decreases |remaining|, |pq|
    {
      ghost var pq0 := pq;
      var top;
      top, pq := PopMin(pq);
      var curNode := top.to;
      var fromNode := top.from;
      assert curNode < n;
      if visited[curNode] || visited[pairs[curNode]] {
        // the destination pair is already on the path
        RejectStep(d, visited, path, lastNode, seed, pq0, top, pq);
      } else if fromNode != lastNode {
        // the edge would not extend the path from its tip
        RejectStep(d, visited, path, lastNode, seed, pq0, top, pq);
      } else {
        visited, lastNode, pathWeight, pq, path, remaining :=
          AcceptEdge(d, pairs, visited, lastNode, pathWeight, top, pq, path, remaining, seed, pq0);
      }
    }
    FinalState(d, visited, remaining, path, lastNode, pathWeight, seed);
    r := pathWeight;
  }

  /**
   * Accepting the popped entry `top` (lines 107-118): the total grows by exactly
   * its weight, both nodes of its destination pair become visited and nothing
   * else changes in the flags, the tip moves to its destination, and the edges
   * from the new tip to every unvisited node are queued. The loop's state stays
   * consistent and two fewer nodes remain unvisited.
   */
  method AcceptEdge(d: seq<seq<real>>, pairs: seq<nat>, visited: seq<bool>, lastNode: nat, pathWeight: real,
                    top: Entry, rest: seq<Entry>,
                    ghost path: seq<nat>, ghost remaining: set<nat>, ghost seed: Entry, ghost pq0: seq<Entry>)
    returns (visited': seq<bool>, lastNode': nat, pathWeight': real, pq': seq<Entry>,
             ghost path': seq<nat>, ghost remaining': set<nat>)
    requires |pairs| == |d| && forall k :: 0 <= k < |d| ==> pairs[k] == Partner(k)
    requires PathInvariant(d, visited, remaining, path, lastNode, pathWeight, seed)
    requires QueueInvariant(d, visited, path, lastNode, seed, pq0)
    requires top in pq0 && (forall e :: e in pq0 ==> !Less(e, top))
    requires multiset(rest) + multiset{top} == multiset(pq0)
    requires top.to < |d| && !visited[top.to] && !visited[Partner(top.to)] && top.from == lastNode
    ensures pathWeight' == pathWeight + top.weight && top.weight == d[lastNode][top.to]
    ensures visited' == visited[top.to := true][Partner(top.to) := true]
    ensures lastNode' == top.to && path' == path + [top.to]
    ensures PathInvariant(d, visited', remaining', path', lastNode', pathWeight', seed)
    ensures QueueInvariant(d, visited', path', lastNode', seed, pq')
    ensures |remaining'| < |remaining|
  {
    var curNode := top.to;
    pathWeight' := pathWeight + top.weight;
    visited' := visited[curNode := true][pairs[curNode] := true];
    lastNode' := curNode;
    path' := path + [curNode];
    remaining' := remaining - {curNode} - {Partner(curNode)};
    pq' := PushEdges(d, pairs, visited', curNode, rest);
    AcceptedIsGreedy(d, visited, lastNode, path, pq0, top, seed);
    AcceptPath(d, visited, remaining, path, lastNode, pathWeight, seed, top);
    AcceptQueue(d, visited, path, lastNode, seed, pq0, top, rest, pq');
  }

  /** The state after the seed is chosen and the pair {0,1} is marked satisfies the path half of the invariant. */
  lemma InitialPath(d: seq<seq<real>>, visited: seq<bool>, remaining: set<nat>, path: seq<nat>, seed: Entry)
    requires Square(d) && |d| % 2 == 0 && |d| >= 2
    requires |visited| == |d| && forall v :: 0 <= v < |d| ==> (visited[v] <==> v < 2)
    requires remaining == Below(|d|) - {0, 1}
    requires |d| == 2 ==> seed == Entry(-1.0, 0, 0)
    requires |d| >= 4 ==> IsSeedEdge(d, seed.from, seed.to) && seed.weight == d[seed.from][seed.to]
    requires path == [seed.from]
    ensures PathInvariant(d, visited, remaining, path, seed.from, 0.0, seed)
  {
    assert seed.from < 2;
    assert PathWeight(d, path) == 0.0;
    assert OnePerPair(path) && NodesBelow(path, |d|);
    InitialVisited(visited, path, |d|);
    InitialRemaining(visited, remaining, |d|);
  }

  /** With only the pair {0,1} marked, the flags mark exactly the pair of a one-node path inside it. */
  lemma InitialVisited(visited: seq<bool>, path: seq<nat>, n: nat)
    requires |visited| == n && forall v :: 0 <= v < n ==> (visited[v] <==> v < 2)
    requires |path| == 1 && path[0] < 2
    ensures forall v :: 0 <= v < n ==> (visited[v] <==> v / 2 in PairsOf(path))
  {
    assert PairsOf(path) == {0} by {
      assert path[0] / 2 == 0;
    }
  }

  /** Removing the pair {0,1} from the n nodes leaves exactly the unmarked nodes, n - 2 of them. */
  lemma InitialRemaining(visited: seq<bool>, remaining: set<nat>, n: nat)
    requires n >= 2
    requires |visited| == n && forall v :: 0 <= v < n ==> (visited[v] <==> v < 2)
    requires remaining == Below(n) - {0, 1}
    ensures forall v: nat :: v in remaining <==> v < n && !visited[v]
    ensures |remaining| == n - 2
  {
    BelowCard(n);
    BelowMembers(n);
    assert {0, 1} <= Below(n);
  }

  /** Before the first step the queue holds just the seed, which satisfies the queue half of the invariant. */
  lemma InitialQueue(d: seq<seq<real>>, visited: seq<bool>, path: seq<nat>, seed: Entry)
    requires Square(d) && |d| % 2 == 0 && |d| >= 2
    requires |visited| == |d| && forall v :: 0 <= v < |d| ==> (visited[v] <==> v < 2)
    requires |d| == 2 ==> seed == Entry(-1.0, 0, 0)
    requires |d| >= 4 ==> IsSeedEdge(d, seed.from, seed.to) && seed.weight == d[seed.from][seed.to]
    requires path == [seed.from]
    ensures QueueInvariant(d, visited, path, seed.from, seed, [seed])
  {
  }

  /** Once the queue is empty, every pair is on the path and the path has n/2 nodes. */
  lemma FinalState(d: seq<seq<real>>, visited: seq<bool>, remaining: set<nat>,
                   path: seq<nat>, lastNode: nat, pathWeight: real, seed: Entry)
    requires PathInvariant(d, visited, remaining, path, lastNode, pathWeight, seed)
    requires QueueInvariant(d, visited, path, lastNode, seed, [])
    requires NonNegative(d)
    ensures IsGreedyPath(d, path)
    ensures pathWeight == PathWeight(d, path) && pathWeight >= 0.0
    ensures |d| == 2 ==> pathWeight == 0.0
  {
    var n := |d|;
    assert |path| >= 2 || n == 2;
    assert forall v :: 0 <= v < n ==> visited[v];
    assert forall v: nat :: v !in remaining;
    assert remaining == {};
    PathWeightNonNegative(d, path);
    forall k | 0 <= k < n / 2
      ensures k in PairsOf(path)
    {
      assert (2 * k) / 2 == k && visited[2 * k];
    }
  }

  /** A popped entry that is discarded leaves the queue's invariant intact, minus that entry. */
  lemma RejectStep(d: seq<seq<real>>, visited: seq<bool>, path: seq<nat>, lastNode: nat, seed: Entry,
                   pq0: seq<Entry>, top: Entry, rest: seq<Entry>)
    requires QueueInvariant(d, visited, path, lastNode, seed, pq0)
    requires |d| % 2 == 0 && 1 <= |path| && NodesBelow(path, |d|) && path[0] == seed.from
    requires path[|path| - 1] == lastNode
    requires forall v :: 0 <= v < |d| ==> (visited[v] <==> v / 2 in PairsOf(path))
    requires |d| >= 4 ==> IsSeedEdge(d, seed.from, seed.to)
    requires top in pq0 && multiset(rest) + multiset{top} == multiset(pq0)
    requires top.to < |d| && (visited[top.to] || visited[Partner(top.to)] || top.from != lastNode)
    ensures QueueInvariant(d, visited, path, lastNode, seed, rest)
  {
    var n := |d|;
    forall e | e in rest
      ensures e.to < n && e.from < n && (visited[e.to] || e.weight == d[e.from][e.to])
    {
      PopKeeps(pq0, top, rest, e);
    }
    assert |path| == 1 ==> PairsOf(path) == {path[0] / 2};
    assert top.to / 2 == Partner(top.to) / 2;
    if |path| >= 2 || n == 2 {
      forall v | 0 <= v < n && !visited[v]
        ensures Entry(d[lastNode][v], v, lastNode) in rest
      {
        PopKeeps(pq0, top, rest, Entry(d[lastNode][v], v, lastNode));
      }
    }
  }

  /**
   * Accepting the greedy choice `top` keeps the path half of the invariant:
   * its destination joins the path and its pair leaves the unvisited set.
   */
  lemma AcceptPath(d: seq<seq<real>>, visited: seq<bool>, remaining: set<nat>,
                   path: seq<nat>, lastNode: nat, pathWeight: real, seed: Entry, top: Entry)
    requires PathInvariant(d, visited, remaining, path, lastNode, pathWeight, seed)
    requires top.to < |d| && !visited[top.to] && top == Entry(d[lastNode][top.to], top.to, lastNode)
    requires |path| == 1 ==> top == seed
    requires |path| >= 2 ==> IsGreedyStep(d, path, top.to)
    ensures PathInvariant(d, visited[top.to := true][Partner(top.to) := true],
                          remaining - {top.to} - {Partner(top.to)}, path + [top.to],
                          top.to, pathWeight + top.weight, seed)
    ensures |remaining - {top.to} - {Partner(top.to)}| < |remaining|
  {
    var n := |d|;
    var c := top.to;
    var visited' := visited[c := true][Partner(c) := true];
    var path' := path + [c];
    PathWeightAppend(d, path, c);
    PairsOfAppend(path, c);
    AcceptSteps(d, path, c);
    forall v | 0 <= v < n
      ensures visited'[v] <==> v / 2 in PairsOf(path')
    {
      SamePair(v, c);
    }
    var r1 := remaining - {c};
    assert |r1| == |remaining| - 1;
    assert |r1 - {Partner(c)}| == |r1| - 1;
  }

  /** Appending a greedy choice keeps every earlier step a greedy choice. */
  lemma AcceptSteps(d: seq<seq<real>>, path: seq<nat>, c: nat)
    requires Square(d) && 1 <= |path| && NodesBelow(path, |d|) && c < |d|
    requires forall k :: 1 <= k < |path| - 1 ==> GreedyStepAt(d, path, k)
    requires |path| >= 2 ==> IsGreedyStep(d, path, c)
    ensures NodesBelow(path + [c], |d|)
    ensures forall k :: 1 <= k < |path + [c]| - 1 ==> GreedyStepAt(d, path + [c], k)
  {
    var path' := path + [c];
    assert path'[..|path|] == path;
    forall k | 1 <= k < |path'| - 1
      ensures GreedyStepAt(d, path', k)
    {
      if k < |path| - 1 {
        assert GreedyStepAt(d, path, k);
        assert path'[..k + 1] == path[..k + 1];
        assert path'[k + 1] == path[k + 1];
      } else {
        assert path'[..k + 1] == path;
        assert path'[k + 1] == c;
      }
    }
  }

  /**
   * Accepting `top` keeps the queue half of the invariant once the edges from
   * the new tip have been pushed.
   */
  lemma AcceptQueue(d: seq<seq<real>>, visited: seq<bool>, path: seq<nat>, lastNode: nat, seed: Entry,
                    pq0: seq<Entry>, top: Entry, rest: seq<Entry>, pq: seq<Entry>)
    requires QueueInvariant(d, visited, path, lastNode, seed, pq0) && |d| % 2 == 0 && 1 <= |path|
    requires multiset(rest) + multiset{top} == multiset(pq0)
    requires top.to < |d| && !visited[top.to]
    requires |rest| <= |pq| && pq[..|rest|] == rest
    requires forall k :: |rest| <= k < |pq| ==>
      && pq[k].from == top.to && pq[k].to < |d|
      && pq[k].weight == d[top.to][pq[k].to]
    requires forall v :: 0 <= v < |d| && !visited[top.to := true][Partner(top.to) := true][v] ==>
      Entry(d[top.to][v], v, top.to) in pq
    ensures QueueInvariant(d, visited[top.to := true][Partner(top.to) := true], path + [top.to], top.to, seed, pq)
  {
    var n := |d|;
    var visited' := visited[top.to := true][Partner(top.to) := true];
    forall e | e in pq
      ensures e.to < n && e.from < n && (visited'[e.to] || e.weight == d[e.from][e.to])
    {
      var k :| 0 <= k < |pq| && pq[k] == e;
      if k < |rest| {
        assert rest[k] == e;
        PopKeeps(pq0, top, rest, e);
      }
    }
  }

  /** An accepted entry is the greedy choice: it extends the tip with the least edge into an unused pair. */
  lemma AcceptedIsGreedy(d: seq<seq<real>>, visited: seq<bool>, lastNode: nat, path: seq<nat>,
                         pq0: seq<Entry>, top: Entry, seed: Entry)
    requires Square(d) && |d| % 2 == 0 && |visited| == |d| && 1 <= |path| && NodesBelow(path, |d|)
    requires forall v :: 0 <= v < |d| ==> (visited[v] <==> v / 2 in PairsOf(path))
    requires path[|path| - 1] == lastNode
    requires top in pq0 && forall e :: e in pq0 ==> !Less(e, top)
    requires QueueInvariant(d, visited, path, lastNode, seed, pq0)
    requires !visited[top.to] && top.from == lastNode
    ensures top == Entry(d[lastNode][top.to], top.to, lastNode)
    ensures |path| == 1 ==> top == seed
    ensures |path| >= 2 ==> IsGreedyStep(d, path, top.to)
  {
    assert path[0] / 2 in PairsOf(path);
  }
}
