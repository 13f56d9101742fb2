# Single-source shortest paths: a verified model of `SSSPAlgorithms`

This project models the single-source shortest-path engine of the
all-pairs / single-source comparison program: the class `SSSPAlgorithms`
in `src/SSSPAlgorithms.cpp`. The class builds adjacency lists once from
a node count and a list of arcs. It then runs one of four algorithms
from a source node, each writing the same result state:

- `dis`: the distance of every node, `INF` when not reached;
- `pre`: the predecessor of every node, `-1` when none;
- `relaxNum`: the number of arcs examined.

The four algorithms:

- **Dijkstra with a binary heap.** Lazy deletion. An entry is pushed for
  every arc into an unvisited node, whether or not it improves that node.
- **Dial's bucket queue.** LIFO buckets indexed by distance. The cursor
  stops at a fixed estimate of the largest distance.
- **SPFA.** Bellman-Ford with a FIFO queue.
- **PAPE.** Bellman-Ford with a deque: a node improved again goes to the
  front of the deque.

The model is imperative where the source is. `SSSPAlgorithms` is a Dafny
class with these members:

- `dis` and `pre`: arrays that every run overwrites in place;
- `relaxNum`: a counter field;
- `nodeNum` and `network`: constants set by the constructor.

Each algorithm is a method with the source's loops. The local containers
of a run are sequence-valued locals that the loops reassign:

- the visited and `isUpdated` flags;
- the FIFO queue and the deque;
- the heap, as a multiset of `(node, key)` entries;
- the bucket vector, as a sequence of lists.

Each loop body is split into a helper method per turn and per arc. Each
helper carries the invariant of its engine and states its effect on the
state, and step lemmas prove that
the invariant is preserved.

Modules:

- `Graph` (`graph.dfy`): arcs, heap entries, walks, and arc counts.
- `GraphBuilder` (`builder.dfy`): the comparator `arcCmp` as written, the
  comparator evidently intended, and the dedup scan of `initial`.
- `Labels` (`labels.dfy`): the label invariant every engine keeps on
  `dis`/`pre`, and why "every reached node has its arcs relaxed" means
  "shortest".
- `LabelSetting` (`label_setting.dfy`): what Dijkstra and Dial add to the
  labels. A visited node keeps its distance, every predecessor arc is
  exact, and following `pre` from a reached node leads back to the
  source.
- `HeapSteps` (`heap_steps.dfy`): the heap invariant and its step lemmas.
- `DialSteps` (`dial_steps.dfy`): the bucket invariant, its step lemmas,
  and the growth of the bucket vector as written and corrected.
- `LabelCorrecting` (`label_correcting.dfy`): the queue invariant of SPFA and
  PAPE, PAPE's marks, and the scan of one node's arcs as a function of
  the state before it (`FifoRun`, `DequeRun`).
- `EngineSpec` (`engine_spec.dfy`): the result of `countMaxBucketSize`
  as a function, and the specification of `vectorDelete`.
- `Engine` (`engine.dfy`): the class `SSSPAlgorithms`.

What is proved, in short:

- Every run keeps every label. A finite distance is the length of a walk
  from the source. `pre[v]` names a reached node with an arc into `v` no
  longer than the difference of their distances. An untouched node keeps
  `INF` and `-1`.
- Dijkstra ends with shortest distances. Each predecessor arc is exact,
  and `relaxNum` is at most the number of arcs. Following `pre` from any
  reached node retraces a walk from the source, and the lengths of its
  arcs add up to the node's distance. The counting rule is
  proved per turn (`HeapPop`, `Settle`, `RelaxHeapArc`): a turn that
  visits a node adds to `relaxNum` exactly the number of its arcs into
  still unvisited nodes, and the heap gains one entry per counted arc; a
  turn that pops a visited node leaves `relaxNum` alone. The ghost count
  of heap insertions that the loop keeps therefore ends at
  `relaxNum + 1`.
- Dial ends with shortest distances up to its estimate.
  - A node is visited exactly when its distance is finite and within the
    estimate.
  - `relaxNum` is exactly the number of arcs leaving visited nodes.
  - As for Dijkstra, following `pre` from a reached node retraces a walk
    from the source whose length is the node's distance.
- SPFA and PAPE end with shortest distances whenever their queue runs
  empty. Per turn (`RelaxFifo`, `RelaxDeque`), `relaxNum` grows by
  exactly the arc count of the popped node. With the ghost record of
  pops the loop keeps, `relaxNum` is therefore the number of arcs of the
  nodes popped, in pop order.
- Per turn (`RelaxDeque`), PAPE pushes at the back exactly the nodes it
  marks in that turn, and a marked node is never unmarked. So no node is
  pushed at the back twice. The ghost record of back pushes the loop
  keeps ends as the nodes other than the source that got a predecessor,
  each once.
- SPFA and PAPE leave `pre[source]` at `-1` unless the source's distance
  dropped below 0, which only a negative cycle through it can do.
- Every turn and every arc states its effect on the state, in terms of
  the state before it. Distances only go down. A predecessor changes only
  together with a strictly lower distance, and then names the node being
  scanned. The containers change as the code says:
  - the heap gains one entry per arc into an unvisited node;
  - a bucket gains the improved node on top;
  - the FIFO queue gains one copy of the head of every improving arc, in
    arc order: the scan ends in the state `FifoRun` computes arc by arc;
  - the deque gains the head of every improving arc, at the front when
    it is marked and at the back, marking it, when it is not, in arc
    order: the scan ends in the state `DequeRun` computes.
- The lists built by `initial` hold an arc for every `(from, to)` pair of
  the input, and only input arcs.

`INF` is 0x3f3f3f3f, a value chosen for this model. The header that
defines it, `SSSPAlgorithms.h`, is not part of this model.

## Model

| member | source | states |
|---|---|---|
| `GraphBuilder.ArcCmp` | src/SSSPAlgorithms.cpp:3-11 | An arc with the smaller `from` comes first. Within one `from`, `a1` comes before `a2` exactly when both its `to` and its length are smaller. |
| `GraphBuilder.ArcCmpIgnoresParallelLengths` | src/SSSPAlgorithms.cpp:5-8 | Two arcs with the same `(from, to)` are incomparable both ways, whatever their lengths. |
| `GraphBuilder.ArcCmpIncomparabilityNotTransitive` | src/SSSPAlgorithms.cpp:3-11 | Three concrete arcs where x~y and y~z, yet x comes before z. So `arcCmp` is not a strict weak ordering, and the sort it drives is undefined. |
| `GraphBuilder.ArcLessStrictTotalOrder` | src/SSSPAlgorithms.cpp:20 | The intended comparator, lexicographic on `(from, to, arcLength)`, is irreflexive, transitive, asymmetric and total. |
| `GraphBuilder.Kept` | src/SSSPAlgorithms.cpp:21-31 | The arcs the dedup scan appends. It is no longer than its input, and keeps only input arcs. No two consecutive kept arcs share `(from, to)`. |
| `GraphBuilder.OutOf` | src/SSSPAlgorithms.cpp:27 | The arcs appended to `network[u]`, in order: only arcs of the input, and only arcs leaving `u`; never longer than the input. |
| `GraphBuilder.OutOfComplete` | src/SSSPAlgorithms.cpp:27 | Completeness of the appends: every arc of the input leaving `u` is in the list of `u`. |
| `GraphBuilder.BuildNetwork` | src/SSSPAlgorithms.cpp:18-31 | The scan loop over the sorted arcs builds `nodeNum + 1` lists. List `u` is exactly `OutOf(Kept(ordered), u)`, and the result is a well-formed network. |
| `GraphBuilder.AppendKeepsLists` | src/SSSPAlgorithms.cpp:27 | One `push_back` onto the list of `a.from` keeps every list equal to the arcs kept so far that leave its node. |
| `GraphBuilder.ListsValid` | src/SSSPAlgorithms.cpp:18-31 | Lists built from arcs with endpoints in 0..nodeNum form a well-formed network: each arc sits in the list of its own tail. |
| `GraphBuilder.PairListed` | src/SSSPAlgorithms.cpp:21-31 | For one input arc, names an arc in the list of its `from` node with the same head. |
| `GraphBuilder.LastKeyIsPrevious` | src/SSSPAlgorithms.cpp:24-29 | After a non-empty prefix, the pair `(preFrom, preTo)` the scan compares against is that of the prefix's last arc. |
| `GraphBuilder.KeptKeepsEveryPair` | src/SSSPAlgorithms.cpp:21-31 | The kept arcs have exactly the `(from, to)` pairs of the input, whatever order the sort left. No pair is lost and none is invented. |
| `GraphBuilder.PairsMembers` | src/SSSPAlgorithms.cpp:21-31 | A pair is among the pairs of a list of arcs exactly when some arc of the list carries it. |
| `GraphBuilder.EveryPairListed` | src/SSSPAlgorithms.cpp:21-31 | Whatever order the sort left, every `(from, to)` pair of the input has an arc in the list of its `from` node after the scan. |
| `GraphBuilder.ListsMatchInput` | src/SSSPAlgorithms.cpp:18-31 | Lists built from any ordering of the arcs hold an arc for every input pair, in the list of its `from`. Every listed arc is an input arc leaving the node whose list holds it. |
| `GraphBuilder.KeptFromSorted` | src/SSSPAlgorithms.cpp:20-31 | Input grouped by `from` makes the kept arcs grouped by `from`. |
| `GraphBuilder.NoConsecutiveParallelArcs` | src/SSSPAlgorithms.cpp:20-31 | When the sort groups arcs by `from`, no adjacency list gets two consecutive arcs with the same destination. |
| `GraphBuilder.OutOfGrouped` | src/SSSPAlgorithms.cpp:23-31 | Arcs grouped by `from`, with no two consecutive ones parallel, give each list distinct consecutive destinations. |
| `GraphBuilder.SortedKeptStrictlyIncreasing` | src/SSSPAlgorithms.cpp:20-31 | Under the intended comparator, the kept arcs strictly increase in `(from, to)`. Each list holds at most one arc per destination. |
| `GraphBuilder.SortedKeepsShortest` | src/SSSPAlgorithms.cpp:20-31 | Under the intended comparator, every input arc has a kept arc with the same `(from, to)` that is no longer. |
| `GraphBuilder.ParallelArcsKeepLongerAsWritten` | src/SSSPAlgorithms.cpp:3-31 | `(1->2, 5), (1->2, 2)` is an order a sort with `arcCmp` may leave, and the scan then keeps the arc of length 5. |
| `GraphBuilder.ParallelArcsKeepShorterCorrected` | src/SSSPAlgorithms.cpp:20-31 | Under the intended order, the same two arcs collapse to the arc of length 2. |
| `Engine.SSSPAlgorithms.Initial` | src/SSSPAlgorithms.cpp:13-32 | `initial` on a fresh object. It sets `nodeNum`, resets `dis` to `INF` and `pre` to `-1`, and builds list `u` as the kept arcs leaving `u`, in the order the sort left them. Every `(from, to)` pair of the input has an arc in the list of its `from`, and every listed arc is an input arc. |
| `Engine.SSSPAlgorithms.Reset` | src/SSSPAlgorithms.cpp:34-40 | Every one of the `nodeNum + 1` distances becomes `INF`, and every predecessor becomes `-1`. |
| `Engine.SSSPAlgorithms.GetDis` | src/SSSPAlgorithms.cpp:240-243 | A copy of `dis`, of length `nodeNum + 1`, entry by entry. |
| `Engine.SSSPAlgorithms.GetPre` | src/SSSPAlgorithms.cpp:245-248 | A copy of `pre`, of length `nodeNum + 1`, entry by entry. |
| `Engine.SSSPAlgorithms.GetRelaxNum` | src/SSSPAlgorithms.cpp:255-258 | The relaxation counter, which is never negative. |
| `Engine.SSSPAlgorithms.DijkstraWithBinaryHeap` | src/SSSPAlgorithms.cpp:42-81 | For non-negative arcs: labels kept, source at 0 as its own predecessor. Every predecessor arc is exact. No walk from the source shorter than `INF` is shorter than a recorded distance. `relaxNum` is at most the number of arcs. The ghost `pushes`, the loop's count of heap insertions, ends at `relaxNum + 1`; the per-insertion fact is in `HeapPop`/`Settle`. Every reached node has a predecessor chain: following `pre` from it retraces a walk from the source whose length is its distance. The clauses about `dis`, `pre` and `visited` are gathered in the predicate `HeapOutcome`. |
| `Engine.SSSPAlgorithms.HeapPop` | src/SSSPAlgorithms.cpp:60-79 | One turn: pop an entry `top` of least key. If its node was visited, only the entry is dropped. Otherwise the node becomes visited, distances only go down with `pre` set to the node, and the rest of the heap is kept. The heap invariant is kept. `relaxNum` is unchanged for a visited node, and otherwise grows by exactly the node's arcs into nodes still unvisited. The ghost count of pushes grows by the same amount. Either one more node is visited, or the heap shrank. |
| `Engine.SSSPAlgorithms.Settle` | src/SSSPAlgorithms.cpp:66-77 | The arcs of the just-visited node are scanned keeping the heap invariant. Distances only go down, each with `pre` set to the node. `relaxNum` grows by exactly the number of the node's arcs into unvisited nodes (lines 67-69 count only those), and by at most the arc count. The heap keeps every old entry and gains exactly one entry per counted arc, as does the ghost count of pushes. |
| `Engine.SSSPAlgorithms.RelaxHeapArc` | src/SSSPAlgorithms.cpp:67-77 | One arc into `t` with tentative distance `temp`. Into a visited node nothing changes. Otherwise the arc is counted and `(t, temp)` is pushed. `dis[t]` and `pre[t]` become `temp` and the scanned node exactly when `temp` is lower, and nothing else changes. The scan invariant is kept. |
| `HeapSteps.HasMinimum` | src/SSSPAlgorithms.cpp:61-62 | A non-empty heap has an entry whose key is least: the one `top()` returns. |
| `HeapSteps.HeapStart` | src/SSSPAlgorithms.cpp:49-55 | The source alone in the heap with key 0 and nothing visited satisfies the heap invariant. |
| `HeapSteps.PopVisited` | src/SSSPAlgorithms.cpp:61-63 | Dropping an entry of a visited node keeps the heap invariant. |
| `HeapSteps.PopUnvisited` | src/SSSPAlgorithms.cpp:61-64 | Popping a least entry of an unvisited node and marking the node visited starts a scan with the invariant. |
| `HeapSteps.PopKeepsHeapOk` | src/SSSPAlgorithms.cpp:61-64 | The popped node's distance is at most its key, and the heap part of the invariant survives the pop. |
| `HeapSteps.ScanVisited` | src/SSSPAlgorithms.cpp:68 | An arc into a visited node is skipped, and it is already relaxed. |
| `HeapSteps.HeapOkImprove` | src/SSSPAlgorithms.cpp:71-75 | An improving push keeps every unvisited reached node keyed by its distance. |
| `HeapSteps.HeapOkStale` | src/SSSPAlgorithms.cpp:75 | A push that does not improve adds only a stale entry, and the heap invariant holds. |
| `HeapSteps.ScanImproves` | src/SSSPAlgorithms.cpp:69-75 | An improving arc: write `dis` and `pre`, push `(to, tempDis)`, and the scan invariant holds for the next arc. |
| `HeapSteps.ScanKeeps` | src/SSSPAlgorithms.cpp:69-75 | A non-improving arc into an unvisited node: push `(to, tempDis)` only, and the scan invariant holds. |
| `HeapSteps.ScanFinished` | src/SSSPAlgorithms.cpp:67-77 | All arcs of the visited node scanned: back to the between-pops invariant. |
| `HeapSteps.HeapEmptyShortest` | src/SSSPAlgorithms.cpp:60 | With the heap empty, every reached node is visited and every distance is shortest. |
| `HeapSteps.HeapDone` | src/SSSPAlgorithms.cpp:60-80 | With the heap empty, `HeapOutcome` holds: labels kept, every reached node visited with an exact predecessor arc, no walk shorter than a distance, the visited nodes' arcs at most all arcs, and a predecessor chain for every reached node. |
| `HeapSteps.HeapArcKeepsPattern` | src/SSSPAlgorithms.cpp:67-77 | One more arc keeps the scan's effect: distances only go down, with `pre` set to the scanned node, and the heap only gains entries, one per counted arc. |
| `HeapSteps.GrownPush` | src/SSSPAlgorithms.cpp:75 | One more push adds one entry and keeps the old ones. |
| `Engine.SSSPAlgorithms.Dial` | src/SSSPAlgorithms.cpp:83-134 | For non-negative arcs: labels kept, source at 0 as its own predecessor, every predecessor arc exact. A node is visited iff its distance is finite and within the estimate. No walk within the estimate is shorter than a recorded distance. `relaxNum` equals the arcs of visited nodes. Every reached node has a predecessor chain back to the source whose length is its distance. All but two clauses are gathered in the predicate `DialOutcome`: the count, and "visited implies within the estimate". |
| `Engine.SSSPAlgorithms.DialPop` | src/SSSPAlgorithms.cpp:106-126 | A turn at a non-empty bucket: the bucket's last node is popped; a visited node changes nothing more, and an unvisited one becomes visited with distances only going down, `pre` set to it, and the buckets only gaining nodes on top. The bucket invariant is kept, and either a node is newly visited or the bucket shrank. |
| `Engine.SSSPAlgorithms.DialTurn` | src/SSSPAlgorithms.cpp:104-131 | One turn. An empty bucket at the cursor moves the cursor on and changes nothing else. Otherwise the bucket's last node is popped. A visited node changes nothing more. An unvisited node becomes visited, distances only go down with `pre` set to it, and the other buckets only gain nodes on top. The bucket invariant is kept, and the cursor never passes `maxBucketSize + 1`. Either a node is newly visited, the cursor moved, or the bucket shrank. |
| `Engine.SSSPAlgorithms.SettleBucket` | src/SSSPAlgorithms.cpp:112-126 | All arcs of the just-visited node are counted and relaxed, keeping the bucket invariant. Distances only go down, each with `pre` set to the node, and every bucket only gains nodes on top. |
| `Engine.SSSPAlgorithms.RelaxBucketArc` | src/SSSPAlgorithms.cpp:112-125 | One arc into `t` with tentative distance `temp`, counted. If `temp` is lower, `dis[t]` and `pre[t]` become `temp` and the scanned node, and `t` is pushed on top of bucket `temp`, made to exist first. Otherwise nothing changes. The scan invariant is kept. |
| `Engine.SSSPAlgorithms.CountMaxBucketSize` | src/SSSPAlgorithms.cpp:138-152 | The nested loop returns exactly `BucketBound`. |
| `EngineSpec.SummedFrom` | src/SSSPAlgorithms.cpp:143-150 | The number of whole lists the scan adds up lies between where it starts and the number of lists. |
| `EngineSpec.BucketBoundSumsWholeLists` | src/SSSPAlgorithms.cpp:138-152 | `countMaxBucketSize` sums the lengths of whole lists 0..k-1. Unless k is the number of lists, the arcs of lists 0..k-1 outnumber `nodeNum`, and no shorter prefix of lists does. |
| `EngineSpec.BucketBoundNonNegative` | src/SSSPAlgorithms.cpp:138-152 | With no negative arc, the estimate is non-negative, so bucket 0 exists. |
| `DialSteps.GrowAsWritten` | src/SSSPAlgorithms.cpp:118-119 | The resize as tested in the source. It grows to `d + 1` buckets only when `d > size`, keeps the old buckets, and adds empty ones. |
| `DialSteps.Grow` | src/SSSPAlgorithms.cpp:118-119 | The corrected resize. Bucket `d` always exists afterwards, the old buckets are kept, and the new ones are empty. |
| `DialSteps.GrowAsWrittenLeavesSizeOut` | src/SSSPAlgorithms.cpp:118-121 | A distance equal to the number of buckets gets no new bucket. |
| `DialSteps.GrowAsWrittenOutOfRange` | src/SSSPAlgorithms.cpp:94-121 | A concrete well-formed network with no negative arc, where `BucketBound` gives the estimate 4, hence 5 buckets. The first relaxation yields distance 5, and the growth as written leaves bucket 5 missing. |
| `DialSteps.GrowProvidesBucket` | src/SSSPAlgorithms.cpp:118-121 | After the corrected growth, bucket `d` exists and every entry of every old bucket is still there. |
| `DialSteps.PushBucket` | src/SSSPAlgorithms.cpp:118-123 | The corrected growth followed by the push: bucket `d` gains `v` on top. Every other bucket is as before, and new buckets are empty. |
| `DialSteps.PushExtends` | src/SSSPAlgorithms.cpp:118-123 | A push keeps every bucket's earlier contents below the new top. |
| `DialSteps.BucketArcKeepsPattern` | src/SSSPAlgorithms.cpp:112-125 | One more arc keeps the scan's effect: distances only go down, with `pre` set to the scanned node, and buckets only gain nodes on top. |
| `DialSteps.DialStart` | src/SSSPAlgorithms.cpp:90-101 | The source alone in bucket 0, nothing visited, and the cursor at 0 satisfy the bucket invariant. |
| `DialSteps.DialAdvance` | src/SSSPAlgorithms.cpp:128-130 | Advancing the cursor past an empty bucket keeps the invariant. |
| `DialSteps.PopBucket` | src/SSSPAlgorithms.cpp:106-107 | `pop_back` removes the last entry of the cursor's bucket. Every unvisited reached node other than the popped one stays in the bucket of its distance. |
| `DialSteps.DialPopVisited` | src/SSSPAlgorithms.cpp:106-109 | Dropping the popped entry of a visited node keeps the invariant. |
| `DialSteps.DialPopUnvisited` | src/SSSPAlgorithms.cpp:106-110 | The popped unvisited node's distance is the cursor. Marking it visited starts the scan of its arcs. |
| `DialSteps.DialImproves` | src/SSSPAlgorithms.cpp:115-125 | An improving arc enters an unvisited node. Growing, pushing into bucket `tempDis` and writing `dis`/`pre` keep the scan invariant. |
| `DialSteps.GrownBucketsOk` | src/SSSPAlgorithms.cpp:118-121 | After the growth and the push, every unvisited reached node sits in the bucket of its distance. |
| `DialSteps.DialKeeps` | src/SSSPAlgorithms.cpp:115-116 | A non-improving arc changes nothing but the counter. |
| `DialSteps.DialScanned` | src/SSSPAlgorithms.cpp:112-126 | All arcs scanned: back to the between-turns invariant. |
| `DialSteps.DialEndShortest` | src/SSSPAlgorithms.cpp:104 | With the cursor past `bound`, every node within `bound` is visited, and no walk within `bound` is shorter than a recorded distance. |
| `DialSteps.DialDone` | src/SSSPAlgorithms.cpp:104-133 | With the cursor past `bound`, `DialOutcome` holds: labels kept, exact predecessor arcs, every node within `bound` visited, no walk within `bound` shorter than a distance, and a predecessor chain for every reached node. |
| `Engine.SSSPAlgorithms.SPFA` | src/SSSPAlgorithms.cpp:204-238 | Labels kept. The source's predecessor stays `-1` unless its distance went below 0. If the queue runs empty, every distance is shortest. `relaxNum` is the arcs of the nodes in the ghost record `popped`, to which the loop appends each popped node; the per-pop count is in `RelaxFifo`. |
| `Engine.SSSPAlgorithms.RelaxFifo` | src/SSSPAlgorithms.cpp:223-234 | Every arc of the popped node is counted, and the queue invariant is restored. `dis`, `pre` and the queue end as `FifoRun` over all the node's arcs leaves them: one append per improving arc, in arc order. Hence distances only go down, each with `pre` set to the popped node; the old queue stays in front; every node after it was improved, and every improved node was appended. |
| `Engine.SSSPAlgorithms.RelaxFifoArc` | src/SSSPAlgorithms.cpp:224-232 | One arc, counted. `dis`, `pre` and the queue become `FifoArc` of their old values: on an improvement the head's labels are written and the head is appended, otherwise nothing changes. The scan invariant moves to the next arc. |
| `LabelCorrecting.FifoArc` | src/SSSPAlgorithms.cpp:224-232 | One arc of SPFA's scan as a function of the state: labels keep their length, and the queue gains at most one node. |
| `LabelCorrecting.FifoRun` | src/SSSPAlgorithms.cpp:223-234 | The scan of the first `j` arcs, one `FifoArc` after another: the queue gains at most `j` nodes. |
| `LabelCorrecting.FifoArcScanned` | src/SSSPAlgorithms.cpp:228-232 | One more arc keeps the FIFO scan's effect. |
| `LabelCorrecting.FifoRunScanned` | src/SSSPAlgorithms.cpp:223-234 | Whatever the arcs, the run keeps the old queue in front, appends only improved nodes, and appends every improved node. |
| `Engine.SSSPAlgorithms.PAPE` | src/SSSPAlgorithms.cpp:160-201 | As SPFA, including the source's predecessor. In addition, the ghost record `appended`, to which the loop adds each node pushed at the back, holds exactly the nodes other than the source that got a predecessor, each once; the per-turn back pushes are in `RelaxDeque`. |
| `Engine.SSSPAlgorithms.RelaxDeque` | src/SSSPAlgorithms.cpp:180-197 | Every arc is counted, and the queue invariant and marks are restored. `dis`, `pre`, the marks, the deque and the ghost records of back and front pushes end as `DequeRun` over all the node's arcs leaves them: one push per improving arc, in arc order. Hence distances only go down, each with `pre` set to the popped node; the deque is the front pushes, then the old deque, then the back pushes; front pushes were marked; back pushes were unmarked, and they are exactly the newly marked nodes; every improved node was pushed. |
| `Engine.SSSPAlgorithms.RelaxDequeArc` | src/SSSPAlgorithms.cpp:181-195 | One arc, counted. The labels, marks, deque and push records become `DequeArc` of their old values: on an improvement the head's labels are written, then a marked head is pushed at the front and an unmarked one at the back and marked; otherwise nothing changes. The scan invariant and the marks are kept. |
| `LabelCorrecting.DequeArc` | src/SSSPAlgorithms.cpp:181-195 | One arc of PAPE's scan as a function of the state: labels and marks keep their length, and the deque gains at most one node. |
| `LabelCorrecting.DequeRun` | src/SSSPAlgorithms.cpp:180-197 | The scan of the first `j` arcs, one `DequeArc` after another: the deque gains at most `j` nodes. |
| `LabelCorrecting.DequeArcScanned` | src/SSSPAlgorithms.cpp:185-194 | One more arc keeps the deque scan's effect. |
| `LabelCorrecting.DequeRunScanned` | src/SSSPAlgorithms.cpp:180-197 | Whatever the arcs, the run is the front pushes, the old deque and the back pushes; front pushes were marked; back pushes were unmarked and are the newly marked nodes; every improved node was pushed. |
| `LabelCorrecting.StartQueueInv` | src/SSSPAlgorithms.cpp:211-216 | The queue holding only the source at distance 0 satisfies the queue invariant. |
| `LabelCorrecting.PopStep` | src/SSSPAlgorithms.cpp:219-221 | Popping the front node starts the scan of its arcs with the invariant. |
| `LabelCorrecting.ImproveStep` | src/SSSPAlgorithms.cpp:228-232 | An improving arc writes `dis`/`pre` and puts its head at either end of the queue, keeping the scan invariant. |
| `LabelCorrecting.ImproveKeepsQueued` | src/SSSPAlgorithms.cpp:231 | After the push, every queued node is still a reached node. |
| `LabelCorrecting.ImproveKeepsRelaxed` | src/SSSPAlgorithms.cpp:228-231 | After the improvement, every reached node outside the queue still has its arcs relaxed, and so do the scanned arcs of the popped node. |
| `LabelCorrecting.KeepStep` | src/SSSPAlgorithms.cpp:228 | A non-improving arc is relaxed already, and the invariant holds. |
| `LabelCorrecting.ScanDone` | src/SSSPAlgorithms.cpp:223-234 | All arcs of the popped node scanned: back to the queue invariant. |
| `LabelCorrecting.EmptyQueueShortest` | src/SSSPAlgorithms.cpp:218 | An empty queue means every distance is shortest. |
| `LabelCorrecting.StartMarks` | src/SSSPAlgorithms.cpp:168-172 | Only the source marked, with nothing appended, satisfies PAPE's marks. |
| `LabelCorrecting.MarkStep` | src/SSSPAlgorithms.cpp:187-194 | Giving a node a predecessor, and marking and appending it when unmarked, keeps the marks. |
| `LabelCorrecting.FifoScannedStart` | src/SSSPAlgorithms.cpp:223 | Before the first arc, nothing has been written or appended. |
| `LabelCorrecting.FifoScannedStep` | src/SSSPAlgorithms.cpp:228-232 | An improvement of `t` with `t` appended keeps the FIFO scan's effect. |
| `LabelCorrecting.DequeScannedStart` | src/SSSPAlgorithms.cpp:180 | Before the first arc, nothing has been written, pushed or marked. |
| `LabelCorrecting.DequeScannedFront` | src/SSSPAlgorithms.cpp:185-190 | An improvement of a marked node, pushed at the front, keeps the deque scan's effect. |
| `LabelCorrecting.DequeScannedBack` | src/SSSPAlgorithms.cpp:185-194 | An improvement of an unmarked node, pushed at the back and marked, keeps the deque scan's effect. |
| `Labels.StartIsLabelled` | src/SSSPAlgorithms.cpp:34-40 | The reset state with the source at distance 0 is labelled. |
| `Labels.RelaxKeepsLabels` | src/SSSPAlgorithms.cpp:185-187 | Writing `dis[to] = dis[cur] + len` and `pre[to] = cur` on an improvement keeps every label. |
| `Labels.LoweredStep` | src/SSSPAlgorithms.cpp:185-187 | One more improving write through an arc of `u` keeps the pattern: no distance went up, and a predecessor changed only with a lower distance, to `u`. |
| `Labels.TriangleGivesShortest` | src/SSSPAlgorithms.cpp:60-79 | If every node within `bound` has its arcs relaxed, no walk from the source within `bound` is shorter than any distance. |
| `Labels.NonNegativeShortest` | src/SSSPAlgorithms.cpp:42-134 | With no negative arc, shortest among walks whose prefixes stay within a bound means shortest among all walks within that bound. |
| `LabelSetting.StartCore` | src/SSSPAlgorithms.cpp:53-54 | Dijkstra's and Dial's start state, source at 0 as its own predecessor, satisfies the label-setting core; the source's chain is empty. |
| `LabelSetting.VisitKeepsCore` | src/SSSPAlgorithms.cpp:64 | Marking a node visited keeps the core, predecessor chains included. |
| `LabelSetting.RelaxKeepsCore` | src/SSSPAlgorithms.cpp:70-74 | Improving an unvisited node through an arc of a visited node keeps the core, including exact predecessor arcs and predecessor chains. |
| `LabelSetting.RelaxKeepsSignedLabels` | src/SSSPAlgorithms.cpp:70-74 | With non-negative arcs, the improving write keeps every label and every distance non-negative; the improved node is not the source, and the scanned node is reached. |
| `LabelSetting.RelaxKeepsTreeArcs` | src/SSSPAlgorithms.cpp:70-74 | The improving write keeps every predecessor arc exact. |
| `LabelSetting.RelaxKeepsChains` | src/SSSPAlgorithms.cpp:70-74 | The improving write keeps a predecessor chain through visited nodes for every reached node: the improved node's is the scanned node's chain plus the arc, and no other chain passes through the unvisited improved node. |
| `LabelSetting.ChainExtends` | src/SSSPAlgorithms.cpp:70-74 | The scanned node's chain followed by the improving arc is a chain of the improved node, with the new distance as its length. |
| `LabelSetting.CoreChains` | src/SSSPAlgorithms.cpp:42-134 | Under the core, following `pre` from every reached node retraces a walk from the source whose length is its distance. |
| `LabelSetting.ScanningImprove` | src/SSSPAlgorithms.cpp:115-124 | An improvement keeps the scanned arcs of the visited node, and every other visited node, relaxed. |
| `LabelSetting.UnvisitedCount` | src/SSSPAlgorithms.cpp:49-50 | The number of unvisited nodes is at most the number of nodes. |
| `LabelSetting.VisitCounts` | src/SSSPAlgorithms.cpp:64 | Visiting an unvisited node leaves exactly one unvisited node fewer. This gives termination. |
| `LabelSetting.SettledShortest` | src/SSSPAlgorithms.cpp:60-79 | Every reached node with its arcs relaxed gives shortest distances. |
| `Engine.SSSPAlgorithms.VectorDelete` | src/SSSPAlgorithms.cpp:154-157 | Erase-remove in place. The first `newLength` cells become the old contents without `value`, in order. |
| `EngineSpec.Removed` | src/SSSPAlgorithms.cpp:156 | The result contains no copy of the value and is no longer than the input. |
| `EngineSpec.RemovedCounts` | src/SSSPAlgorithms.cpp:156 | Every other element is kept as many times as before, and the length drops by exactly the number of copies removed. |
| `Graph.MarkedArcsMark` | src/SSSPAlgorithms.cpp:109-113 | Visiting one more node adds exactly its arc count to the arcs of visited nodes. |
| `Graph.UnvisitedTargetsStep` | src/SSSPAlgorithms.cpp:67-69 | Counting one more arc adds one exactly when its head is unvisited. |
| `Graph.UnvisitedTargetsExtremes` | src/SSSPAlgorithms.cpp:67-69 | Among the first `j` arcs, all are counted exactly when no head is visited, and none exactly when every head is. |
| `Graph.MarkedArcsAtMost` | src/SSSPAlgorithms.cpp:67-69 | The arcs of visited nodes are at most all the arcs. |
| `Graph.ScannedArcsSnoc` | src/SSSPAlgorithms.cpp:223-227 | Popping one more node adds exactly its arc count to the arcs scanned. |

## Left out

- Timing: `clock()`, `processTime` and `getProcessTime` measure time and
  do not affect the results.
- `src/APSPAlgorithms.h` holds only declarations of the all-pairs
  algorithms, so there is nothing to model.
- `std::sort` with `arcCmp`: `arcCmp` is not a strict weak ordering, so
  the order the sort produces is undefined. `Engine.SSSPAlgorithms.Initial`
  therefore takes the order the sort left as an input, `ordered`, which is
  any permutation of the arcs. The intended comparator is stated as
  `ArcLess`, with what it guarantees proved.
- `NodeComparator` is not part of this model. The heap's `top()` is taken
  to be an entry of least key.
- Integers are unbounded. An overflow of `dis[cur] + len` near `INF`, or
  of the bucket-estimate sum, is not modelled.
- `Engine.SSSPAlgorithms.SPFA`: takes a `fuel` bound on the number of
  pops, because a negative cycle reachable from the source makes the C++
  loop run forever. The model stops after `fuel` pops and says whether
  the queue ran empty; shortest distances are promised only then.
- `Engine.SSSPAlgorithms.PAPE`: takes the same `fuel` bound, for the
  same reason.
- `Engine.SSSPAlgorithms.SPFA`: does not promise that following `pre`
  from a reached node leads back to the source. In a label-correcting
  run a node can be improved after the nodes below it in the `pre` tree,
  so a chain's length only bounds the distance from above, and a
  relaxation that closes a `pre` cycle implies a negative cycle. Ruling
  that out needs the absence of reachable negative cycles, which the
  model does not establish. Each predecessor arc is still proved to lead
  from a reached node, no longer than the difference of distances.
- `Engine.SSSPAlgorithms.PAPE`: the same as SPFA: the predecessor chain
  back to the source is not promised, for the same reason.
- `inqueue` in SPFA and PAPE is written but never read, and PAPE's
  `inqueue[des];` does nothing, so neither is modelled.
- `Engine.SSSPAlgorithms.Initial`: sets `relaxNum` to 0, whereas
  `initial` leaves it unset until the first run. Every run sets it to 0
  before counting, so no result depends on it.
- Calling `initial` twice is not modelled: `network.resize` keeps the old
  lists. The object is built once, by the constructor.
- `reset` clears and refills the vectors. The model overwrites the two
  arrays of fixed length `nodeNum + 1` in place, which leaves the same
  contents.
- `vectorDelete` shrinks the vector. The model returns the new length
  and states the first `newLength` cells; what lies beyond them is not
  stated.
- Dial's write to bucket `tempDis` when `tempDis` equals the number of
  buckets is out of range in C++ (see Findings). The engine uses the
  corrected growth `Grow`.
- `Engine.SSSPAlgorithms.Dial`: promises shortest distances only for
  walks within the estimate `countMaxBucketSize()`. This is because the
  cursor stops at `maxBucketSize + 1`, fixed before the loop, even after
  the buckets have grown. Nodes pushed beyond it are never popped.
  - The estimate is not a bound on distances. On the network of
    `DialSteps.GrowAsWrittenOutOfRange`, node 1 is left at distance 5,
    beyond the estimate 4.
  - Node 2 of that network is left at `INF` although it is reachable.
- The dedup rule follows the code, not the intended "keep the shortest
  parallel arc": the scan keeps the first arc of each run of equal
  `(from, to)`.
- SPFA follows the code: it appends the destination on every
  improvement, even when the destination is already queued.
- SPFA and PAPE never set `pre[source]`, which stays `-1` unless a
  negative cycle improves the source.
- Out-of-range node indices and negative lengths are excluded by
  preconditions.
  - Indices are excluded by the constructor's `requires` and by
    `0 <= source <= nodeNum`.
  - Negative lengths are excluded for Dijkstra and Dial by
    `NonNegative(network)`. Both are label-setting algorithms and
    assume non-negative lengths. With a negative arc, a visited node
    could still be improved, so the shortest-distance promise would
    fail. Dial would also index a negative bucket.

## Findings

| source | as written | input that shows it | evidently intended | confidence | as-written member | corrected member |
|---|---|---|---|---|---|---|
| src/SSSPAlgorithms.cpp:3-11 | `arcCmp` returns false both ways for two arcs with the same `(from, to)`. So the sort may leave a longer parallel arc first, and the dedup scan keeps it. Its incomparability is not transitive either, so `std::sort` is undefined. | arcs `(1->2, 5)` then `(1->2, 2)`: already ordered for `arcCmp`; the scan keeps length 5 | order by `(from, to, arcLength)` so the shortest parallel arc is kept | not executed | `GraphBuilder.ParallelArcsKeepLongerAsWritten` | `GraphBuilder.SortedKeepsShortest` |
| src/SSSPAlgorithms.cpp:118-121 | the bucket vector grows only when `tempDis > indexBucket.size()`, so `tempDis == size` writes one past the end | nodes 1..3, arcs 1->2, 1->3, 2->1, 2->3 of length 1 and 3->1 of length 5, source 3: estimate 4, 5 buckets, first relaxation gives distance 5 | grow when `tempDis >= size`, so bucket `tempDis` always exists | not executed | `DialSteps.GrowAsWrittenOutOfRange` | `DialSteps.GrowProvidesBucket` |
