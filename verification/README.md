# Pair-representative path solvers, modelled in Dafny

The program picks one representative node from each pair {2k, 2k+1} of a
complete, non-negative n-by-n distance matrix and orders the representatives
into a path of small total edge weight. `VergeProject/VergeProject.cpp` holds
two solvers for this:

- `minPath`, a greedy solver. It seeds the path with the lightest edge leaving
  pair {0,1}. It then pops edges from a min-priority queue ordered on
  (weight, toNode, fromNode). An edge is accepted only when it leaves the
  current tip for a pair not yet visited. Accepting marks both nodes of that
  pair, adds the weight and queues the edges from the new tip.
- `optimalMin`, an exhaustive breadth-first search over partial paths
  (`NodePath`). Each carries a bit mask of its nodes. A table of 2^n
  `VisitedPathWeights` entries, one per mask, records which end nodes were
  reached under that mask, plus one weight per mask. It reports the least
  weight of the popped states that hold n/2 nodes.

The model keeps the code's imperative form:

- loops become `while`/`for` loops with invariants;
- `VisitedPathWeights` is a class whose setters modify it;
- the table is an `array` of distinct entry objects;
- the priority queue is a bag (`seq`), and `PopMin` finds the least entry;
- the FIFO queue is a `seq`, and masks are naturals with bit operations defined bit by bit;
- weights are `real`.

The partner map is the function `Partner` (i XOR 1), built into a table by
`BuildPairMap` as both solvers do.

Modules:

- `Pairing`: the partner map.
- `Paths`: matrices, paths, path weight, distinctness.
- `Masks`: `1 << i`, `m | (1 << i)`, the mask of a path.
- `Greedy`: `minPath`.
- `Memo`: the admission rule of the exhaustive search, as written and as intended.
- `Exact`: `NodePath`, `VisitedPathWeights`, `optimalMin`.
- `Scenarios`: the unit tests' literal cases, derived from the solvers' contracts.

Three points where the program leaves a reader a choice, and what the model
takes:

- For n == 0, `optimalMin` returns -1.0: nothing is queued and the initial
  minimum comes back, as the test at UnitTests/UnitTests.cpp:82 expects.
- `optimalMin` returns only the weight (VergeProject/VergeProject.cpp:172,
  258). The tests read `.first` and `.second` of its result
  (UnitTests/UnitTests.cpp:24-30) as if the path came back too; the model
  follows the code.
- The comment at VergeProject/VergeProject.cpp:19 holds the exhaustive search
  to be optimal. As written it is not; see Findings.

## Model

| member | source | states |
|---|---|---|
| Pairing.Partner | VergeProject/VergeProject.cpp:48-53 | the partner of a node is a different node of the same pair, of opposite parity |
| Pairing.PartnerInvolution | VergeProject/VergeProject.cpp:186-190 | taking the partner twice gives the node back |
| Pairing.BuildPairMap | VergeProject/VergeProject.cpp:48-53 | for even n the table has n entries; entry i is i's partner, lies below n, differs from i and maps back to i |
| Paths.PathWeightAppend | VergeProject/VergeProject.cpp:107 | extending a path by one node adds exactly the weight of the new edge |
| Paths.PathWeightNonNegative | VergeProject/VergeProject.cpp:121 | over a non-negative matrix every path weighs at least 0 |
| Greedy.LessStrictTotal | VergeProject/VergeProject.cpp:55-60 | the queue order on (weight, toNode, fromNode) is irreflexive, transitive and total, so the least entry is unique |
| Greedy.PopMin | VergeProject/VergeProject.cpp:97-98 | returns an entry of the queue that no entry orders before; the rest is the queue's bag minus that one entry |
| Greedy.ChooseSeed | VergeProject/VergeProject.cpp:64-80 | with two nodes the placeholder {-1, {0, 0}} stays; otherwise the seed leaves {0,1} for another pair, is no heavier than any such edge, is strictly lighter than every such edge scanned before it, and carries its edge's weight |
| Greedy.SeedEdgeUnique | VergeProject/VergeProject.cpp:65-80 | at most one edge meets the seed condition |
| Greedy.PushEdges | VergeProject/VergeProject.cpp:112-118 | keeps the old queue as a prefix and appends at most n edges from the new tip; each carries its matrix weight and leads to a node whose pair is not fully visited; every unvisited node gets its edge |
| Greedy.AcceptedIsGreedy | VergeProject/VergeProject.cpp:97-105 | a popped entry that passes both tests is the edge from the tip, the seed on the first step, and otherwise the least edge from the tip into an unused pair |
| Greedy.RejectStep | VergeProject/VergeProject.cpp:104-105 | discarding an entry to a visited pair, or one not leaving the tip, keeps the queue invariant for the rest of the queue |
| Greedy.AcceptEdge | VergeProject/VergeProject.cpp:107-118 | accepting adds exactly the edge's weight, sets exactly the two flags of the destination pair, moves the tip to the destination and appends it to the path; both loop invariants hold afterwards and fewer nodes remain unvisited |
| Greedy.AcceptPath | VergeProject/VergeProject.cpp:107-110 | accepting the greedy choice keeps the path invariant (flags mark exactly the used pairs, one node per pair, running total equals the path weight, greedy steps) |
| Greedy.AcceptQueue | VergeProject/VergeProject.cpp:112-118 | after the pushes, the queue holds the edge from the new tip to every unvisited node |
| Greedy.InitialPath | VergeProject/VergeProject.cpp:81-94 | after the seed is chosen and {0,1} is marked, the path is [fromNode] with weight 0 and the invariant holds |
| Greedy.InitialQueue | VergeProject/VergeProject.cpp:85 | the queue holding only the seed satisfies the queue invariant |
| Greedy.FinalState | VergeProject/VergeProject.cpp:95-121 | when the queue is empty every pair is on the path, which has n/2 nodes, and the total is its non-negative weight |
| Greedy.MinPath | VergeProject/VergeProject.cpp:33-122 | odd n gives -1.0, n == 0 gives -2.0, n == 2 gives 0.0 with path [0]; otherwise the result is the weight of a path of one node per pair covering every pair, starting with the seed edge, every later step the greedy choice |
| Greedy.GreedyStepUnique | VergeProject/VergeProject.cpp:55-60 | after a given prefix at most one node is the greedy choice |
| Greedy.GreedyPathUnique | VergeProject/VergeProject.cpp:60-119 | the greedy path is determined by the matrix: two paths meeting the characterisation are equal |
| Masks.BitOrBits | VergeProject/VergeProject.cpp:246 | m OR (1 << i) has bit i set and every other bit as in m |
| Masks.BitOrBound | VergeProject/VergeProject.cpp:181-182 | setting a bit below n in a mask below 2^n stays below 2^n |
| Masks.SingleBit | VergeProject/VergeProject.cpp:203 | the mask of a single node i is 2^i |
| Masks.MaskOfBits | VergeProject/VergeProject.cpp:246 | bit v of a path's mask is set exactly when v is on the path |
| Masks.MaskOfBound | VergeProject/VergeProject.cpp:181-182 | the mask of a path over nodes below n indexes the table of 2^n entries |
| Masks.SameBits | VergeProject/VergeProject.cpp:246 | two masks with the same bits are equal |
| Masks.SameNodesSameMask | VergeProject/VergeProject.cpp:246 | paths over the same nodes, in any order, have the same mask, so they share one table entry |
| Exact.MakeNodePath | VergeProject/VergeProject.cpp:132-136 | the state's path is the given path with the current node appended; the other fields are as given |
| Exact.VisitedPathWeights.constructor | VergeProject/VergeProject.cpp:148-154 | a new entry has n flags, all false, and weight 0.0 |
| Exact.VisitedPathWeights.SetPathWeight | VergeProject/VergeProject.cpp:159 | replaces the weight and leaves the flags |
| Exact.VisitedPathWeights.SetNodeVisited | VergeProject/VergeProject.cpp:160 | sets one flag and leaves the other flags and the weight |
| Exact.NewTable | VergeProject/VergeProject.cpp:181-182 | the table has the requested number of fresh, pairwise distinct entries, each blank for n nodes |
| Exact.Record | VergeProject/VergeProject.cpp:205-206 | flags the node in the mask's entry and stores the weight; the table keeps its shape |
| Exact.SeedValid | VergeProject/VergeProject.cpp:203-204 | the initial state of node i (mask 1 << i, weight 0, one node) is a well-formed state |
| Exact.SeedsValid | VergeProject/VergeProject.cpp:201-204 | every initial state over the matrix is well-formed |
| Exact.SeedEntriesOther | VergeProject/VergeProject.cpp:201-207 | after seeding a blank table, every entry whose mask is not 1 << k for a seeded node k is still blank |
| Exact.SeedEntriesOwn | VergeProject/VergeProject.cpp:201-207 | after seeding a blank table, the entry of mask 1 << k has node k as its only flag and weight 0.0 |
| Exact.SeedsFlagged | VergeProject/VergeProject.cpp:201-207 | after seeding, every initial state is flagged in the entry of its mask, whatever the table held before |
| Exact.SeedStates | VergeProject/VergeProject.cpp:201-207 | queues exactly the initial states of nodes 0 .. n-1, in node order; the new table is the old one with, for each node k in turn, flag k set and weight 0.0 stored in the entry of mask 1 << k, and no other flag or entry changed; every queued state is flagged |
| Exact.ExtendValid | VergeProject/VergeProject.cpp:246-253 | extending a well-formed state by a node not on its path gives a well-formed state one node longer with the OR-ed mask and the added edge weight |
| Exact.Admit | VergeProject/VergeProject.cpp:248-251 | the entry changes exactly as the as-written rule (Memo.OfferAsWritten) says: an admitted arrival flags its node and overwrites the mask's weight; otherwise nothing changes |
| Exact.OfferDecides | VergeProject/VergeProject.cpp:243-248 | a candidate is queued exactly when it is off the path, its partner is not flagged under the current mask, and the rule as written admits it at the entry of the OR-ed mask with the current weight plus the edge |
| Exact.OfferKeepsOthers | VergeProject/VergeProject.cpp:243-251 | for a state whose mask is the mask of its path, offering one candidate never changes the decision for another: their new masks differ and the current mask is untouched |
| Exact.OfferFlags | VergeProject/VergeProject.cpp:248-253 | an offer only sets flags, and a queued extension is flagged in the entry of its new mask |
| Exact.TryNode | VergeProject/VergeProject.cpp:243-254 | the new table and the decision are exactly those of Offer on the old table: a node on the path or with a flagged partner is skipped and nothing changes; otherwise only the entry of the new mask changes, as the rule as written says (flag set and the whole mask's weight overwritten when admitted); a queued child is the extension of the state by the node |
| Exact.ExpansionChildren | VergeProject/VergeProject.cpp:229-255 | every state an expansion queues is a well-formed extension of the popped state by one node |
| Exact.ExpansionOrdered | VergeProject/VergeProject.cpp:229-255 | the queued states end at distinct candidate nodes, in strictly increasing order |
| Exact.ExpansionKeepsLater | VergeProject/VergeProject.cpp:229-251 | offering the earlier candidates does not change the decision for a later one |
| Exact.ExpansionOffersOnOldTable | VergeProject/VergeProject.cpp:229-251 | each of the first k candidates ends a queued state exactly when Offer queues it on the table as it stood before the expansion |
| Exact.ExpansionDecidesOnOldTable | VergeProject/VergeProject.cpp:229-253 | the expansion of a popped state queues an extension by node v exactly when v is off the path, its partner is not flagged under the current mask, and the rule as written admits it at the new mask's entry as that entry stood when the state was popped |
| Exact.ExpansionStep | VergeProject/VergeProject.cpp:229-255 | offering one more candidate extends the expansion by exactly the table and decision of Offer, queueing the extension when it is admitted |
| Exact.ExpansionFlags | VergeProject/VergeProject.cpp:229-255 | an expansion keeps every queued state flagged and flags every state it queues |
| Exact.ExpandState | VergeProject/VergeProject.cpp:229-255 | the new table and the queued children are exactly those of Expansion: one child per candidate that Offer admits, in increasing node order, each the extension by that node; the queue gains exactly those children, and every queued state stays flagged |
| Exact.ExpansionSkip | VergeProject/VergeProject.cpp:243-245 | a candidate on the path, or whose partner is flagged under the current mask, leaves the table and the queued states as they were |
| Exact.ExpansionAdmit | VergeProject/VergeProject.cpp:246-253 | a candidate off the path with its partner unflagged, arriving where it is not yet flagged, is flagged at the new mask, sets that mask's weight to the current weight plus the edge, and is queued as the extension by it |
| Exact.ExpansionBlocked | VergeProject/VergeProject.cpp:229-245 | when every candidate is on the path or has its partner flagged under the current mask, the expansion changes nothing and queues nothing |
| Exact.PotentialDecreases | VergeProject/VergeProject.cpp:211-256 | popping a state and queueing at most n one-node-longer states lowers the termination measure, so the search terminates |
| Exact.MinStep | VergeProject/VergeProject.cpp:221-227 | the update keeps the reported value equal to the least weight of the complete states seen, or -1.0 while there are none |
| Exact.RunStep | VergeProject/VergeProject.cpp:211-256 | one turn of the main loop keeps the queue well-formed, lowers the termination measure and leaves the result of Run unchanged |
| Exact.TurnKeeps | VergeProject/VergeProject.cpp:211-256 | one turn of the main loop (pop, record when complete, expand) keeps the loop invariant, including that running on from the new state gives what Run gives from the start |
| Exact.Search | VergeProject/VergeProject.cpp:210-256 | the result and the recorded states are those of Run, the main loop on values, from the given table and queue; the recorded states are complete, well-formed paths of n/2 distinct nodes carrying their weights; the result is their least weight, or -1.0 when there are none; two nodes give 0.0 |
| Exact.OptimalMin | VergeProject/VergeProject.cpp:172-259 | odd n gives -2.0; for even n the result and the recorded states are those of Outcome, Run from the seeded blank table and the initial states; the result is the least weight of the states recorded with n/2 nodes, each a path of n/2 distinct nodes, or -1.0 when there are none; n == 0 gives -1.0 and n == 2 gives 0.0 |
| Exact.RecordAll | VergeProject/VergeProject.cpp:221-227 | the running minimum over a run of states is the value it started from or the weight of one of them that holds n/2 nodes |
| Exact.RunWithoutChildren | VergeProject/VergeProject.cpp:211-256 | when no state of the queue queues anything, the main loop only pops and records: its result is the running minimum over the queue in FIFO order |
| Memo.ReplayAppend | VergeProject/VergeProject.cpp:248-251 | under the rule as written, replaying two runs of arrivals one after the other is replaying their concatenation: the final entry of the second, and the decisions of both in order |
| Memo.AsWrittenDropsCheaperArrival | VergeProject/VergeProject.cpp:248-251 | as written, the 13 arrivals at mask {1, 2, 7, 9} of the counterexample are admitted or turned away as T, T, F, T, F, F, T, F, F, T, T, F, F; the last, at node 9 with weight 6, is turned away although the only arrivals admitted at node 9 weighed 201 and 102 |
| Memo.CounterexampleMatrix | VergeProject/VergeProject.cpp:25 | a 10-by-10 matrix, square, non-negative and symmetric as the program assumes, with the cheap edges the counterexample uses |
| Memo.SortedCounterexampleMask | VergeProject/VergeProject.cpp:246 | OR-ing 1 << v into the mask for v = 1, 2, 7, 9 in turn gives 646 |
| Memo.CounterexampleMasks | VergeProject/VergeProject.cpp:246 | the paths 1-2-7-9, 2-1-7-9, 2-9-1-7 and 7-1-2-9 share mask 646 |
| Memo.CounterexampleWeights | VergeProject/VergeProject.cpp:247 | on any matrix with those cheap edges the four paths weigh 201, 102, 6 and 6, and 7-1-2-9-4 takes one node per pair and weighs 8 |
| Memo.OfferPerNode | VergeProject/VergeProject.cpp:248-251 | corrected rule: after an arrival its node is flagged with a best weight no larger than the arrival's; other nodes are untouched and no best weight rises |
| Memo.ReplayPerNodeMonotone | VergeProject/VergeProject.cpp:248-251 | corrected rule: replaying arrivals never clears a flag nor raises the best weight of a flagged node |
| Memo.PerNodeKeepsCheapest | VergeProject/VergeProject.cpp:248-251 | corrected rule: after any arrivals, every node arrived at is flagged with a best weight no larger than any arrival at it |
| Memo.PerNodeAdmitsCheaper | VergeProject/VergeProject.cpp:248-251 | corrected rule: an arrival lighter than every earlier arrival at its node is admitted, whatever arrived at the other nodes |
| Memo.PerNodeAdmitsCheaperArrival | VergeProject/VergeProject.cpp:248-251 | corrected rule: on the counterexample's arrivals, the last one (node 9, weight 6), which the rule as written turns away, is admitted |
| Scenarios.FourByFourGreedyPath | UnitTests/UnitTests.cpp:14-26 | on the 4-by-4 test matrix the greedy path is 1-3, of weight 1.1 |
| Scenarios.FourByFourMinPath | UnitTests/UnitTests.cpp:23-26 | the greedy solver returns 1.1 on the 4-by-4 test matrix |
| Scenarios.FourByFourSeeded | VergeProject/VergeProject.cpp:201-207 | on four nodes the seeded blank table has node k alone flagged, weight 0.0, at mask 1 << k, and the two-node masks 5, 6, 9 and 10 still blank |
| Scenarios.SeedZeroExpansion | VergeProject/VergeProject.cpp:229-255 | on the 4-by-4 test matrix, popping the seed of node 0 skips 0 and 1 and queues 0-2 (2.7) and 0-3 (1.2), flagging 2 at mask 5 and 3 at mask 9 |
| Scenarios.SeedOneExpansion | VergeProject/VergeProject.cpp:229-255 | popping the seed of node 1 queues 1-2 (4.6) and 1-3 (1.1), flagging 2 at mask 6 and 3 at mask 10 |
| Scenarios.SeedTwoExpansion | VergeProject/VergeProject.cpp:229-255 | popping the seed of node 2 queues 2-0 (2.7) and 2-1 (4.6) beside the flags already at masks 5 and 6, and skips 3, the partner of 2 |
| Scenarios.SeedThreeExpansion | VergeProject/VergeProject.cpp:229-255 | popping the seed of node 3 queues 3-0 (1.2) and 3-1 (1.1) beside the flags already at masks 9 and 10, and skips 2, the partner of 3 |
| Scenarios.SeedTurns | VergeProject/VergeProject.cpp:211-256 | the first four turns of the main loop on the 4-by-4 test matrix pop the four seeds, record nothing, and leave the eight two-node states 0-2, 0-3, 1-2, 1-3, 2-0, 2-1, 3-0, 3-1 in that order, with both nodes flagged at each of masks 5, 6, 9 and 10 |
| Scenarios.TwoNodeBlocked | VergeProject/VergeProject.cpp:229-245 | over four nodes, a two-node state taking one node from each pair, with both nodes flagged at its mask, queues nothing: every other candidate is the partner of one of them |
| Scenarios.PairsBlocked | VergeProject/VergeProject.cpp:229-245 | on the table the seed turns leave, none of the eight two-node states queues anything |
| Scenarios.PairsRecord | VergeProject/VergeProject.cpp:221-227 | the running minimum over the eight two-node states in FIFO order, from -1.0, is 1.1 |
| Scenarios.FourByFourOutcome | UnitTests/UnitTests.cpp:14-27 | the exhaustive search as the main loop runs it, on the 4-by-4 test matrix, reports 1.1 |
| Scenarios.FourByFourOptimalMin | UnitTests/UnitTests.cpp:24-27 | the exhaustive solver returns 1.1 on the 4-by-4 test matrix |
| Scenarios.SixBySixGreedyPath | UnitTests/UnitTests.cpp:106-124 | on the 6-by-6 test matrix the greedy path is 0-4-2, of weight 2.0 |
| Scenarios.SixBySixMinPath | UnitTests/UnitTests.cpp:121-124 | the greedy solver returns 2.0 on the 6-by-6 test matrix |
| Scenarios.ZeroWeight | UnitTests/UnitTests.cpp:33-41 | every path over an all-zero matrix weighs 0 |
| Scenarios.AllZerosMinPath | UnitTests/UnitTests.cpp:43-46 | the greedy solver returns 0.0 on the all-zero 6-by-6 matrix |
| Scenarios.AllZerosOptimalMin | UnitTests/UnitTests.cpp:44-47 | the exhaustive solver returns 0.0 or -1.0 on the all-zero 6-by-6 matrix |
| Scenarios.TwoByTwo | UnitTests/UnitTests.cpp:53-64 | both solvers return 0.0 on a 2-by-2 matrix |
| Scenarios.ZeroNodes | UnitTests/UnitTests.cpp:70-82 | on the empty matrix the greedy solver returns -2.0 and the exhaustive one -1.0 |
| Scenarios.OddNumberOfNodes | UnitTests/UnitTests.cpp:88-100 | on a 1-by-1 matrix the greedy solver returns -1.0 and the exhaustive one -2.0 |

## Left out

- `main` (VergeProject/VergeProject.cpp:261-283) only prints; it is not modelled.
- Floating point: weights are exact reals. Rounding, and the tests' 1e-5 tolerance, are not modelled.
- `int` overflow of `1 << numNodes`: OptimalMin requires n <= 30 for even n, where the shift is defined.
- Container details: the pair map is a sequence rather than an `unordered_map` (no insertion on a missing key), and `vector<bool>` flags are a `seq<bool>`. The getters `getPathWeight` and `isNodeVisited` are reads of the entry's fields (`GetPathWeight`, `IsNodeVisited`) with no contract of their own.
- OptimalMin: does not state that each complete state has one node per pair. That depends on the breadth-first level order together with the table flags, and is not proved.
- OptimalMin: does not state that a complete state exists for n >= 4. So the result is not shown to differ from -1.0 there.
- OptimalMin: the result is not claimed to be the least weight over all one-per-pair paths. As written it is not in general; see Findings.
- Search: does not state that each recorded state has one node per pair, for the same reason as OptimalMin.
- Search: does not state that a complete state is recorded for n >= 4.
- OptimalMin: the winning path is not returned. The tests read a path from the result, but the code returns only the weight.
- Scenarios.AllZerosOptimalMin: states 0.0 or -1.0 rather than 0.0, because the existence of a complete state is not proved.
- The exhaustive solver's 6-by-6 result (1.5, UnitTests/UnitTests.cpp:106-127), and both solvers' 10-by-10 and 20-by-20 results, are not derived. The contracts of OptimalMin and MinPath fix each of them, but deriving the number means unfolding the search or the greedy loop turn by turn on that input. On six nodes and more that is far more turns and table entries than on four, and the proof grows with them.

## Findings

| source | as written | input that shows it | evidently intended | confidence | as-written member | corrected member |
|---|---|---|---|---|---|---|
| VergeProject/VergeProject.cpp:248-251 | each mask's entry keeps one weight, shared by all end nodes; an arrival at an already flagged end node is admitted only if it is lighter than that shared weight, which a lighter path to a different end node may have lowered | 10 nodes, symmetric, every off-diagonal weight 100 except d[1][2]=d[1][7]=d[1][9]=1, d[2][9]=4 and d[4][9]=2 (Memo.CounterexampleMatrix). On mask {1,2,7,9}, node 9 is reached first by 1-2-7-9 (201) and 2-1-7-9 (102); then 2-9-1-7 (6) lowers the mask's weight to 6, and 7-1-2-9 (6) is turned away. So 7-1-2-9-4, one node per pair and weight 8, is never queued. Its reverse 4-9-2-1-7, also of weight 8, is lost the same way: at mask {1,2,4,9} the 15th of 16 FIFO arrivals, 4-9-2-1 (node 1, weight 7), is turned away just after 4-9-1-2 lowers the shared weight to 4; traced through lines 201-256, the search reports 104.0 | keep a best weight per (mask, end node), so that no path cheaper than every queued path to the same end node is dropped | the drop is proved at the level of the rule; the end result 104.0 comes from a trace of the loop and is not proved; not executed | Memo.AsWrittenDropsCheaperArrival | Memo.PerNodeKeepsCheapest |

The exhaustive solver's model (Exact.Admit, used by Exact.OptimalMin) keeps
the rule as written, since its result is what the code returns. The corrected
rule, Memo.OfferPerNode, is defined and proved beside it.
