/**
 * The single-source shortest-path engine: one object holding the adjacency lists built
 * once from the arcs, and the distance and predecessor arrays and relaxation counter
 * that every run resets and rewrites.
 */
module Engine {
  import opened Graph
  import opened GraphBuilder
  import opened Labels
  import opened LabelCorrecting
  import opened EngineSpec
  import opened LabelSetting
  import opened HeapSteps
  import opened DialSteps

  class SSSPAlgorithms {
    /** Number of nodes, numbered from 1; index 0 exists too, and an arc may use it, as the code allows. */
    const nodeNum: nat
    /** network[u]: the arcs leaving u that survived the dedup scan, in scan order. */
    const network: seq<seq<Arc>>
    /** Distance of every node from the last run's source, INF when not reached. */
    var dis: array<int>
    /** Predecessor of every node on the last run's path, -1 when none. */
    var pre: array<int>
    /** Arcs examined by the last run. */
    var relaxNum: int

    ghost predicate Valid()
      reads this
    {
      ValidNetwork(network, nodeNum) &&
      dis.Length == nodeNum + 1 && pre.Length == nodeNum + 1 && dis != pre &&
      relaxNum >= 0
    }

    /**
     * `initial` on a fresh object: `ordered` is the order in which the sort left `arcs`
     * (a permutation of them); the scan keeps an arc exactly when its (from, to) pair
     * differs from that of the arc kept before it.
     */
    constructor Initial(n: nat, arcs: seq<Arc>, ordered: seq<Arc>)
      requires multiset(ordered) == multiset(arcs)
      requires forall a :: a in arcs ==> 0 <= a.from <= n && 0 <= a.to <= n
      ensures Valid() && nodeNum == n && fresh(dis) && fresh(pre)
      ensures forall u :: 0 <= u <= n ==> network[u] == OutOf(Kept(ordered), u)
      ensures forall a :: a in arcs ==> exists b :: b in network[a.from] && b.to == a.to
      ensures forall u, b :: 0 <= u <= n && b in network[u] ==> b in arcs && b.from == u
      ensures forall v :: 0 <= v <= n ==> dis[v] == INF && pre[v] == -1
      ensures relaxNum == 0
    {
      PermutedInRange(n, arcs, ordered);
      var built := BuildNetwork(n, ordered);
      ListsMatchInput(n, arcs, ordered, built);
      nodeNum := n;
      network := built;
      relaxNum := 0;
      // reset()
      dis := new int[n + 1](_ => INF);
      pre := new int[n + 1](_ => -1);
    }

    /** Every distance back to INF and every predecessor back to -1. */
    method Reset()
      requires Valid()
      modifies dis, pre
      ensures Valid()
      ensures forall v :: 0 <= v <= nodeNum ==> dis[v] == INF && pre[v] == -1
    {
      for v := 0 to nodeNum + 1
        invariant forall u :: 0 <= u < v ==> dis[u] == INF && pre[u] == -1
      {
        dis[v] := INF;
        pre[v] := -1;
      }
    }

    function GetDis(): (r: seq<int>)
      requires Valid()
      reads this, dis
      ensures |r| == nodeNum + 1 && forall v :: 0 <= v <= nodeNum ==> r[v] == dis[v]
    {
      dis[..]
    }

    function GetPre(): (r: seq<int>)
      requires Valid()
      reads this, pre
      ensures |r| == nodeNum + 1 && forall v :: 0 <= v <= nodeNum ==> r[v] == pre[v]
    {
      pre[..]
    }

    function GetRelaxNum(): (r: int)
      requires Valid()
      reads this
      ensures r >= 0
    {
      relaxNum
    }

    /**
     * Dial's algorithm, for arcs of non-negative length: bucket d holds, last in first
     * out, the nodes pushed when their distance became d. The cursor stops after bucket
     * `maxBucketSize`, the estimate, even when the buckets have grown past it, so only
     * distances within the estimate are certain to be shortest. A bucket is added, when
     * missing, for each new distance. `visited` is the final visited flags.
     */
    method Dial(source: int) returns (ghost visited: seq<bool>)
      requires Valid() && 0 <= source <= nodeNum && NonNegative(network)
      modifies dis, pre, this`relaxNum
      ensures Valid() && |visited| == nodeNum + 1
      ensures DialOutcome(network, nodeNum, source, dis[..], pre[..], visited, BucketBound(network, nodeNum))
      ensures forall v :: 0 <= v <= nodeNum && visited[v] ==> dis[v] <= BucketBound(network, nodeNum)
      ensures relaxNum == MarkedArcs(network, visited)
    {
      Reset();
      relaxNum := 0;
      var vis := seq(nodeNum + 1, _ => false);
      var maxBucketSize := CountMaxBucketSize();
      BucketBoundNonNegative(network, nodeNum);
      var indexBucket: seq<seq<int>> := seq(maxBucketSize + 1, _ => []);
      dis[source] := 0;
      pre[source] := source;
      indexBucket := indexBucket[0 := indexBucket[0] + [source]];
      ghost var ds, ps := dis[..], pre[..];
      DialStart(network, nodeNum, source, ds, ps, vis, indexBucket);
      MarkedArcsNone(network, vis);
      var curMin := 0;
      while curMin < maxBucketSize + 1
        invariant Valid() && dis[..] == ds && pre[..] == ps
        invariant DialInv(network, nodeNum, source, ds, ps, vis, indexBucket, curMin)
        invariant curMin <= maxBucketSize + 1 <= |indexBucket|
        invariant relaxNum == MarkedArcs(network, vis)
        invariant forall v :: 0 <= v <= nodeNum && vis[v] ==> ds[v] <= maxBucketSize
        decreases UnvisitedCount(vis), maxBucketSize + 1 - curMin, BucketLength(indexBucket, curMin)
      {
        ghost var x;
        curMin, vis, indexBucket, ds, ps, x := DialTurn(source, maxBucketSize, curMin, vis, indexBucket, ds, ps);
      }
      visited := vis;
      DialDone(network, nodeNum, source, ds, ps, vis, indexBucket, maxBucketSize);
    }

    /**
     * One turn of the bucket loop: an empty bucket at the cursor moves the cursor on;
     * otherwise the bucket's last node is popped and, unless visited already, settled.
     */
    method DialTurn(source: int, maxBucketSize: int, curMin0: int, vis0: seq<bool>, buckets0: seq<seq<int>>,
                    ghost ds0: seq<int>, ghost ps0: seq<int>)
      returns (curMin: int, vis: seq<bool>, buckets: seq<seq<int>>, ghost ds: seq<int>, ghost ps: seq<int>,
               ghost x: int)
      requires Valid() && dis[..] == ds0 && pre[..] == ps0
      requires DialInv(network, nodeNum, source, ds0, ps0, vis0, buckets0, curMin0)
      requires curMin0 < maxBucketSize + 1 <= |buckets0|
      requires relaxNum == MarkedArcs(network, vis0)
      requires forall v :: 0 <= v <= nodeNum && vis0[v] ==> ds0[v] <= maxBucketSize
      modifies dis, pre, this`relaxNum
      ensures Valid() && dis[..] == ds && pre[..] == ps
      ensures DialInv(network, nodeNum, source, ds, ps, vis, buckets, curMin)
      ensures curMin0 <= curMin <= maxBucketSize + 1 <= |buckets|
      ensures relaxNum == MarkedArcs(network, vis)
      ensures forall v :: 0 <= v <= nodeNum && vis[v] ==> ds[v] <= maxBucketSize
      ensures UnvisitedCount(vis) < UnvisitedCount(vis0) ||
        (vis == vis0 && (curMin > curMin0 ||
          (curMin == curMin0 && BucketLength(buckets, curMin) < BucketLength(buckets0, curMin0))))
      ensures DialTurnEffect(curMin0, vis0, buckets0, ds0, ps0, curMin, vis, buckets, ds, ps, x)
    {
      curMin, vis, buckets, ds, ps := curMin0, vis0, buckets0, ds0, ps0;
      x := -1;
      if buckets[curMin] != [] {
        vis, buckets, ds, ps, x := DialPop(source, maxBucketSize, curMin, vis0, buckets0, ds0, ps0);
      } else {
        DialAdvance(network, nodeNum, source, ds0, ps0, vis0, buckets0, curMin);
        curMin := curMin + 1;
      }
    }

    /**
     * A turn at a non-empty bucket: its last node is popped and, unless visited already,
     * settled.
     */
    method DialPop(source: int, maxBucketSize: int, curMin: int, vis0: seq<bool>, buckets0: seq<seq<int>>,
                   ghost ds0: seq<int>, ghost ps0: seq<int>)
      returns (vis: seq<bool>, buckets: seq<seq<int>>, ghost ds: seq<int>, ghost ps: seq<int>, ghost x: int)
      requires Valid() && dis[..] == ds0 && pre[..] == ps0
      requires DialInv(network, nodeNum, source, ds0, ps0, vis0, buckets0, curMin)
      requires curMin < maxBucketSize + 1 <= |buckets0| && buckets0[curMin] != []
      requires relaxNum == MarkedArcs(network, vis0)
      requires forall v :: 0 <= v <= nodeNum && vis0[v] ==> ds0[v] <= maxBucketSize
      modifies dis, pre, this`relaxNum
      ensures Valid() && dis[..] == ds && pre[..] == ps
      ensures DialInv(network, nodeNum, source, ds, ps, vis, buckets, curMin)
      ensures maxBucketSize + 1 <= |buckets|
      ensures relaxNum == MarkedArcs(network, vis)
      ensures forall v :: 0 <= v <= nodeNum && vis[v] ==> ds[v] <= maxBucketSize
      ensures UnvisitedCount(vis) < UnvisitedCount(vis0) ||
        (vis == vis0 && BucketLength(buckets, curMin) < BucketLength(buckets0, curMin))
      ensures DialTurnEffect(curMin, vis0, buckets0, ds0, ps0, curMin, vis, buckets, ds, ps, x)
    {
      vis, ds, ps := vis0, ds0, ps0;
      var k := |buckets0[curMin]| - 1;
      var curNodeIndex := buckets0[curMin][k];
      x := curNodeIndex;
      buckets := buckets0[curMin := buckets0[curMin][..k]];
      if !vis[curNodeIndex] {
        MarkedArcsMark(network, vis0, curNodeIndex);
        VisitCounts(vis0, curNodeIndex);
        DialPopUnvisited(network, nodeNum, source, ds0, ps0, vis0, buckets0, curMin);
        vis := vis0[curNodeIndex := true];
        buckets, ds, ps := SettleBucket(source, curMin, curNodeIndex, vis, buckets, ds0, ps0);
      } else {
        DialPopVisited(network, nodeNum, source, ds0, ps0, vis0, buckets0, curMin);
      }
    }

    /**
     * The arc loop for the node `x` just visited at the cursor's distance: each arc is
     * counted and relaxed.
     */
    method SettleBucket(source: int, curMin: int, x: int, vis: seq<bool>, buckets0: seq<seq<int>>,
                        ghost ds0: seq<int>, ghost ps0: seq<int>)
      returns (buckets: seq<seq<int>>, ghost ds: seq<int>, ghost ps: seq<int>)
      requires Valid() && dis[..] == ds0 && pre[..] == ps0
      requires DialScanInv(network, nodeNum, source, ds0, ps0, vis, buckets0, curMin, x, 0)
      modifies dis, pre, this`relaxNum
      ensures Valid() && dis[..] == ds && pre[..] == ps
      ensures DialInv(network, nodeNum, source, ds, ps, vis, buckets, curMin)
      ensures relaxNum == old(relaxNum) + |network[x]|
      ensures Lowered(ds0, ps0, ds, ps, x) && BucketsExtended(buckets0, buckets)
    {
      buckets, ds, ps := buckets0, ds0, ps0;
      assert Lowered(ds0, ps0, ds, ps, x) && BucketsExtended(buckets0, buckets);
      var adj := network[x];
      for j := 0 to |adj|
        invariant Valid() && dis[..] == ds && pre[..] == ps
        invariant DialScanInv(network, nodeNum, source, ds, ps, vis, buckets, curMin, x, j)
        invariant relaxNum == old(relaxNum) + j
        invariant Lowered(ds0, ps0, ds, ps, x) && BucketsExtended(buckets0, buckets)
      {
        ghost var t, temp := adj[j].to, ds[x] + adj[j].arcLength;
        ghost var dsBefore, psBefore, bucketsBefore := ds, ps, buckets;
        buckets, ds, ps := RelaxBucketArc(source, curMin, x, j, vis, buckets, ds, ps, t, temp);
        BucketArcKeepsPattern(ds0, ps0, buckets0, dsBefore, psBefore, bucketsBefore, ds, ps, buckets, x, t, temp);
      }
      DialScanned(network, nodeNum, source, ds, ps, vis, buckets, curMin, x);
    }

    /**
     * Arc j of the node `x` at the cursor's distance: counted, and when it lowers the
     * distance of its head, the head is pushed into the bucket of the new distance (made
     * to exist first) and its distance and predecessor are written.
     */
    method RelaxBucketArc(source: int, curMin: int, x: int, j: int, vis: seq<bool>, buckets0: seq<seq<int>>,
                          ghost ds0: seq<int>, ghost ps0: seq<int>, ghost t: int, ghost temp: int)
      returns (buckets: seq<seq<int>>, ghost ds: seq<int>, ghost ps: seq<int>)
      requires Valid() && dis[..] == ds0 && pre[..] == ps0
      requires DialScanInv(network, nodeNum, source, ds0, ps0, vis, buckets0, curMin, x, j) && j < |network[x]|
      requires t == network[x][j].to && temp == ds0[x] + network[x][j].arcLength
      modifies dis, pre, this`relaxNum
      ensures Valid() && dis[..] == ds && pre[..] == ps
      ensures DialScanInv(network, nodeNum, source, ds, ps, vis, buckets, curMin, x, j + 1)
      ensures relaxNum == old(relaxNum) + 1
      ensures BucketArcEffect(ds0, ps0, buckets0, ds, ps, buckets, x, t, temp)
    {
      buckets, ds, ps := buckets0, ds0, ps0;
      var i := network[x][j];
      relaxNum := relaxNum + 1;
      var tempDis := dis[x] + i.arcLength;
      assert i.to == t && tempDis == temp;
      if tempDis < dis[i.to] {
        assert i.arcLength >= 0;
        var grown := Grow(buckets, tempDis);
        DialImproves(network, nodeNum, source, ds, ps, vis, buckets, curMin, x, j, t, temp, grown);
        buckets := grown[tempDis := grown[tempDis] + [i.to]];
        dis[i.to] := tempDis;
        pre[i.to] := x;
        ds, ps := ds0[t := temp], ps0[t := x];
      } else {
        DialKeeps(network, nodeNum, source, ds, ps, vis, buckets, curMin, x, j);
      }
    }

    /** The bucket-count estimate: whole lists summed until the arc count passes nodeNum. */
    method CountMaxBucketSize() returns (maxBucketSize: int)
      ensures maxBucketSize == BucketBound(network, nodeNum)
    {
      maxBucketSize := 0;
      var counter := 0;
      var i := 0;
      while i < |network|
        invariant 0 <= i <= |network|
        invariant maxBucketSize + BoundFrom(network, i, counter, nodeNum) == BucketBound(network, nodeNum)
      {
        var list := network[i];
        ghost var m0, c0 := maxBucketSize, counter;
        for k := 0 to |list|
          invariant maxBucketSize == m0 + ListLength(list[..k]) && counter == c0 + k
        {
          assert list[..k + 1][..k] == list[..k];
          maxBucketSize := maxBucketSize + list[k].arcLength;
          counter := counter + 1;
        }
        assert list[..|list|] == list;
        if counter > nodeNum {
          break;
        }
        i := i + 1;
      }
    }

    /** Erase-remove: the first `newLength` cells of `v` become `v` without any copy of `value`. */
    method VectorDelete(v: array<int>, value: int) returns (newLength: nat)
      modifies v
      ensures newLength <= v.Length
      ensures v[..newLength] == Removed(old(v[..]), value)
    {
      ghost var s := v[..];
      newLength := 0;
      for r := 0 to v.Length
        invariant newLength <= r
        invariant v[..newLength] == Removed(s[..r], value)
        invariant forall k :: r <= k < v.Length ==> v[k] == s[k]
      {
        assert s[..r + 1] == s[..r] + [s[r]];
        RemovedSnoc(s[..r], value, s[r]);
        if v[r] != value {
          ghost var kept := v[..newLength];
          v[newLength] := v[r];
          newLength := newLength + 1;
          assert v[..newLength] == kept + [s[r]];
        }
      }
      assert s[..v.Length] == s;
    }

    /**
     * Bellman-Ford with a FIFO queue. Every improvement appends the destination, queued
     * or not. The source's predecessor is not set. The queue may never run empty (a
     * negative cycle reachable from the source), so the run stops after `fuel` pops;
     * `done` says the queue ran empty.
     */
    method SPFA(source: int, fuel: nat) returns (done: bool, ghost popped: seq<int>)
      requires Valid() && 0 <= source <= nodeNum
      modifies dis, pre, this`relaxNum
      ensures Valid()
      ensures Labelled(network, nodeNum, source, dis[..], pre[..], -1)
      ensures pre[source] == -1 || dis[source] < 0
      ensures done ==> ShortestUpTo(network, source, dis[..], INF - 1)
      ensures forall i :: 0 <= i < |popped| ==> 0 <= popped[i] <= nodeNum
      ensures relaxNum == ScannedArcs(network, popped)
      ensures !done ==> |popped| == fuel
    {
      Reset();
      relaxNum := 0;
      var q: seq<int> := [];
      dis[source] := 0;
      q := q + [source];
      popped := [];
      var pops := 0;
      ghost var ds, ps := dis[..], pre[..];
      StartQueueInv(network, nodeNum, source, ds, ps);
      while q != [] && pops < fuel
        invariant Valid() && dis[..] == ds && pre[..] == ps
        invariant QueueInv(network, nodeNum, source, ds, ps, q)
        invariant ds[source] <= 0 && (ps[source] == -1 || ds[source] < 0)
        invariant forall i :: 0 <= i < |popped| ==> 0 <= popped[i] <= nodeNum
        invariant relaxNum == ScannedArcs(network, popped)
        invariant pops == |popped| <= fuel
        decreases fuel - pops
      {
        var cur := q[0];
        PopStep(network, nodeNum, source, ds, ps, q);
        q := q[1..];
        ScannedArcsSnoc(network, popped, cur);
        popped := popped + [cur];
        pops := pops + 1;
        q, ds, ps := RelaxFifo(source, cur, q, ds, ps);
      }
      done := q == [];
      if done {
        EmptyQueueShortest(network, nodeNum, source, ds, ps);
      }
    }

    /**
     * The arc loop of SPFA for the popped node `cur`: each arc is counted, and an arc
     * that improves its destination writes the new distance and predecessor and appends
     * the destination to the queue.
     */
    method RelaxFifo(source: int, cur: int, q0: seq<int>, ghost ds0: seq<int>, ghost ps0: seq<int>)
      returns (q: seq<int>, ghost ds: seq<int>, ghost ps: seq<int>)
      requires Valid() && dis[..] == ds0 && pre[..] == ps0
      requires ScanInv(network, nodeNum, source, ds0, ps0, q0, cur, 0)
      modifies dis, pre, this`relaxNum
      ensures Valid() && dis[..] == ds && pre[..] == ps
      ensures QueueInv(network, nodeNum, source, ds, ps, q)
      ensures relaxNum == old(relaxNum) + |network[cur]|
      ensures FifoState(ds, ps, q) == FifoRun(network[cur], cur, FifoState(ds0, ps0, q0), |network[cur]|)
      ensures FifoScanned(nodeNum, cur, ds0, ps0, q0, ds, ps, q)
    {
      q, ds, ps := q0, ds0, ps0;
      var adj := network[cur];
      for j := 0 to |adj|
        invariant Valid() && dis[..] == ds && pre[..] == ps
        invariant ScanInv(network, nodeNum, source, ds, ps, q, cur, j)
        invariant relaxNum == old(relaxNum) + j
        invariant FifoState(ds, ps, q) == FifoRun(adj, cur, FifoState(ds0, ps0, q0), j)
      {
        q, ds, ps := RelaxFifoArc(source, cur, j, q, ds, ps);
      }
      ScanDone(network, nodeNum, source, ds, ps, q, cur);
      FifoRunScanned(adj, nodeNum, cur, ds0, ps0, q0, |adj|);
    }

    /**
     * One arc of the FIFO engine's scan of `cur`: it is counted and, when it improves its
     * head, the head's distance and predecessor are written and the head is appended.
     */
    method RelaxFifoArc(source: int, cur: int, j: int, q0: seq<int>, ghost ds0: seq<int>, ghost ps0: seq<int>)
      returns (q: seq<int>, ghost ds: seq<int>, ghost ps: seq<int>)
      requires Valid() && dis[..] == ds0 && pre[..] == ps0
      requires ScanInv(network, nodeNum, source, ds0, ps0, q0, cur, j) && j < |network[cur]|
      modifies dis, pre, this`relaxNum
      ensures Valid() && dis[..] == ds && pre[..] == ps
      ensures ScanInv(network, nodeNum, source, ds, ps, q, cur, j + 1)
      ensures relaxNum == old(relaxNum) + 1
      ensures FifoState(ds, ps, q) == FifoArc(FifoState(ds0, ps0, q0), cur, network[cur][j])
    {
      q, ds, ps := q0, ds0, ps0;
      var des := network[cur][j].to;
      var len := network[cur][j].arcLength;
      relaxNum := relaxNum + 1;
      var tempDis := dis[cur] + len;
      if tempDis < dis[des] {
        ImproveStep(network, nodeNum, source, ds, ps, q, cur, j, des, tempDis, q + [des]);
        dis[des] := tempDis;
        pre[des] := cur;
        q := q + [des];
        ds, ps := ds[des := tempDis], ps[des := cur];
      } else {
        KeepStep(network, nodeNum, source, ds, ps, q, cur, j);
      }
    }

    /**
     * Bellman-Ford with a deque (Pape's rule): an improved node goes to the front of the
     * deque when it was improved before, and to the back, once, the first time. The
     * source's predecessor is not set. `appended` lists the nodes pushed at the back.
     */
    method PAPE(source: int, fuel: nat) returns (done: bool, ghost popped: seq<int>, ghost appended: seq<int>)
      requires Valid() && 0 <= source <= nodeNum
      modifies dis, pre, this`relaxNum
      ensures Valid()
      ensures Labelled(network, nodeNum, source, dis[..], pre[..], -1)
      ensures pre[source] == -1 || dis[source] < 0
      ensures done ==> ShortestUpTo(network, source, dis[..], INF - 1)
      ensures forall i :: 0 <= i < |popped| ==> 0 <= popped[i] <= nodeNum
      ensures relaxNum == ScannedArcs(network, popped)
      ensures !done ==> |popped| == fuel
      ensures forall v :: v in appended <==> 0 <= v <= nodeNum && v != source && pre[v] != -1
      ensures forall i, j :: 0 <= i < j < |appended| ==> appended[i] != appended[j]
    {
      Reset();
      relaxNum := 0;
      var dq: seq<int> := [];
      var isUpdated := seq(nodeNum + 1, _ => false);
      dis[source] := 0;
      isUpdated := isUpdated[source := true];
      dq := [source] + dq;
      popped, appended := [], [];
      var pops := 0;
      ghost var ds, ps := dis[..], pre[..];
      StartQueueInv(network, nodeNum, source, ds, ps);
      StartMarks(nodeNum, source, ps, isUpdated);
      while dq != [] && pops < fuel
        invariant Valid() && dis[..] == ds && pre[..] == ps
        invariant QueueInv(network, nodeNum, source, ds, ps, dq)
        invariant UpdatedMarks(nodeNum, source, ps, isUpdated, appended)
        invariant ds[source] <= 0 && (ps[source] == -1 || ds[source] < 0)
        invariant forall i :: 0 <= i < |popped| ==> 0 <= popped[i] <= nodeNum
        invariant relaxNum == ScannedArcs(network, popped)
        invariant pops == |popped| <= fuel
        decreases fuel - pops
      {
        var cur := dq[0];
        PopStep(network, nodeNum, source, ds, ps, dq);
        dq := dq[1..];
        ScannedArcsSnoc(network, popped, cur);
        popped := popped + [cur];
        pops := pops + 1;
        ghost var front;
        dq, isUpdated, appended, ds, ps, front := RelaxDeque(source, cur, dq, isUpdated, appended, ds, ps);
      }
      done := dq == [];
      if done {
        EmptyQueueShortest(network, nodeNum, source, ds, ps);
      }
    }

    /**
     * The arc loop of PAPE for the popped node `cur`: each arc is counted, and an arc
     * that improves its destination writes the new distance and predecessor and pushes
     * the destination at the front if it is marked, else at the back, marking it.
     */
    method RelaxDeque(source: int, cur: int, dq0: seq<int>, isUpdated0: seq<bool>,
                      ghost appended0: seq<int>, ghost ds0: seq<int>, ghost ps0: seq<int>)
      returns (dq: seq<int>, isUpdated: seq<bool>, ghost appended: seq<int>, ghost ds: seq<int>, ghost ps: seq<int>,
               ghost front: seq<int>)
      requires Valid() && dis[..] == ds0 && pre[..] == ps0
      requires ScanInv(network, nodeNum, source, ds0, ps0, dq0, cur, 0)
      requires UpdatedMarks(nodeNum, source, ps0, isUpdated0, appended0)
      modifies dis, pre, this`relaxNum
      ensures Valid() && dis[..] == ds && pre[..] == ps
      ensures QueueInv(network, nodeNum, source, ds, ps, dq)
      ensures UpdatedMarks(nodeNum, source, ps, isUpdated, appended)
      ensures relaxNum == old(relaxNum) + |network[cur]|
      ensures DequeState(ds, ps, isUpdated, dq, appended, front) ==
        DequeRun(network[cur], cur, DequeState(ds0, ps0, isUpdated0, dq0, appended0, []), |network[cur]|)
      ensures DequeScanned(nodeNum, cur, ds0, ps0, dq0, isUpdated0, appended0, ds, ps, dq, isUpdated, appended, front)
    {
      dq, isUpdated, appended := dq0, isUpdated0, appended0;
      ds, ps, front := ds0, ps0, [];
      var adj := network[cur];
      for j := 0 to |adj|
        invariant Valid() && dis[..] == ds && pre[..] == ps
        invariant ScanInv(network, nodeNum, source, ds, ps, dq, cur, j)
        invariant UpdatedMarks(nodeNum, source, ps, isUpdated, appended)
        invariant relaxNum == old(relaxNum) + j
        invariant DequeState(ds, ps, isUpdated, dq, appended, front) ==
          DequeRun(adj, cur, DequeState(ds0, ps0, isUpdated0, dq0, appended0, []), j)
      {
        dq, isUpdated, appended, ds, ps, front := RelaxDequeArc(source, cur, j, dq, isUpdated, appended, ds, ps, front);
      }
      ScanDone(network, nodeNum, source, ds, ps, dq, cur);
      DequeRunScanned(adj, nodeNum, cur, ds0, ps0, dq0, isUpdated0, appended0, |adj|);
    }

    /**
     * One arc of the deque engine's scan of `cur`: it is counted and, when it improves its
     * head, the head's distance and predecessor are written and the head is pushed at the
     * front if it is marked, else at the back, marking it.
     */
    method RelaxDequeArc(source: int, cur: int, j: int, dq0: seq<int>, isUpdated0: seq<bool>,
                         ghost appended0: seq<int>, ghost ds0: seq<int>, ghost ps0: seq<int>, ghost front0: seq<int>)
      returns (dq: seq<int>, isUpdated: seq<bool>, ghost appended: seq<int>, ghost ds: seq<int>, ghost ps: seq<int>,
               ghost front: seq<int>)
      requires Valid() && dis[..] == ds0 && pre[..] == ps0
      requires ScanInv(network, nodeNum, source, ds0, ps0, dq0, cur, j) && j < |network[cur]|
      requires UpdatedMarks(nodeNum, source, ps0, isUpdated0, appended0)
      modifies dis, pre, this`relaxNum
      ensures Valid() && dis[..] == ds && pre[..] == ps
      ensures ScanInv(network, nodeNum, source, ds, ps, dq, cur, j + 1)
      ensures UpdatedMarks(nodeNum, source, ps, isUpdated, appended)
      ensures relaxNum == old(relaxNum) + 1
      ensures DequeState(ds, ps, isUpdated, dq, appended, front) ==
        DequeArc(DequeState(ds0, ps0, isUpdated0, dq0, appended0, front0), cur, network[cur][j])
    {
      dq, isUpdated, appended := dq0, isUpdated0, appended0;
      ds, ps, front := ds0, ps0, front0;
      var des := network[cur][j].to;
      var len := network[cur][j].arcLength;
      relaxNum := relaxNum + 1;
      var tempDis := dis[cur] + len;
      if tempDis < dis[des] {
        MarkStep(nodeNum, source, ps, isUpdated, appended, des, cur);
        dis[des] := tempDis;
        pre[des] := cur;
        if isUpdated[des] {
          ImproveStep(network, nodeNum, source, ds, ps, dq, cur, j, des, tempDis, [des] + dq);
          dq, front := [des] + dq, [des] + front;
        } else {
          ImproveStep(network, nodeNum, source, ds, ps, dq, cur, j, des, tempDis, dq + [des]);
          dq := dq + [des];
          isUpdated := isUpdated[des := true];
          appended := appended + [des];
        }
        ds, ps := ds[des := tempDis], ps[des := cur];
      } else {
        KeepStep(network, nodeNum, source, ds, ps, dq, cur, j);
      }
    }

    /**
     * Dijkstra's algorithm with a heap and lazy deletion, for arcs of non-negative
     * length. An entry is pushed for every arc into an unvisited node, whether or not it
     * improves that node; an entry whose node is already visited is dropped when popped.
     * `visited` is the final visited flags, `pushes` the number of entries ever pushed.
     */
    method DijkstraWithBinaryHeap(source: int) returns (ghost visited: seq<bool>, ghost pushes: nat)
      requires Valid() && 0 <= source <= nodeNum && NonNegative(network)
      modifies dis, pre, this`relaxNum
      ensures Valid() && |visited| == nodeNum + 1
      ensures HeapOutcome(network, nodeNum, source, dis[..], pre[..], visited)
      ensures relaxNum <= MarkedArcs(network, visited) <= ArcCount(network)
      ensures pushes == relaxNum + 1
    {
      Reset();
      relaxNum := 0;
      var vis := seq(nodeNum + 1, _ => false);
      dis[source] := 0;
      pre[source] := source;
      var pq: multiset<Node> := multiset{Node(source, dis[source])};
      pushes := 1;
      ghost var ds, ps := dis[..], pre[..];
      HeapStart(network, nodeNum, source, ds, ps, vis);
      MarkedArcsNone(network, vis);
      while pq != multiset{}
        invariant Valid()
        invariant dis[..] == ds && pre[..] == ps
        invariant HeapInv(network, nodeNum, source, ds, ps, vis, pq)
        invariant relaxNum <= MarkedArcs(network, vis) && pushes == relaxNum + 1
        decreases UnvisitedCount(vis), |pq|
      {
        ghost var top;
        vis, pq, ds, ps, pushes, top := HeapPop(source, vis, pq, ds, ps, pushes);
      }
      visited := vis;
      HeapDone(network, nodeNum, source, ds, ps, vis);
    }

    /**
     * One turn of the heap loop: an entry of least key is popped; when its node is
     * unvisited the node is settled, otherwise the entry is dropped.
     */
    method HeapPop(source: int, vis0: seq<bool>, pq0: multiset<Node>,
                   ghost ds0: seq<int>, ghost ps0: seq<int>, ghost pushes0: nat)
      returns (vis: seq<bool>, pq: multiset<Node>, ghost ds: seq<int>, ghost ps: seq<int>, ghost pushes: nat,
               ghost top: Node)
      requires Valid() && dis[..] == ds0 && pre[..] == ps0
      requires HeapInv(network, nodeNum, source, ds0, ps0, vis0, pq0) && pq0 != multiset{}
      requires relaxNum <= MarkedArcs(network, vis0) && pushes0 == relaxNum + 1
      modifies dis, pre, this`relaxNum
      ensures Valid() && dis[..] == ds && pre[..] == ps
      ensures HeapInv(network, nodeNum, source, ds, ps, vis, pq)
      ensures relaxNum <= MarkedArcs(network, vis) && pushes == relaxNum + 1
      ensures UnvisitedCount(vis) < UnvisitedCount(vis0) || (vis == vis0 && |pq| < |pq0|)
      ensures top in pq0 && forall e :: e in pq0 ==> top.dis <= e.dis
      ensures 0 <= top.index <= nodeNum &&
        relaxNum == old(relaxNum) + (if vis0[top.index] then 0 else UnvisitedTargets(network[top.index], vis, |network[top.index]|))
      ensures pushes == pushes0 + (relaxNum - old(relaxNum))
      ensures vis0[top.index] ==> vis == vis0 && ds == ds0 && ps == ps0 && pq == pq0 - multiset{top}
      ensures !vis0[top.index] ==>
        vis == vis0[top.index := true] && Lowered(ds0, ps0, ds, ps, top.index) && pq0 - multiset{top} <= pq
    {
      ghost var least := HasMinimum(pq0);
      var heapTop :| heapTop in pq0 && forall e :: e in pq0 ==> heapTop.dis <= e.dis;
      top := heapTop;
      pq := pq0 - multiset{heapTop};
      var x := heapTop.index;
      if !vis0[x] {
        MarkedArcsMark(network, vis0, x);
        VisitCounts(vis0, x);
        PopUnvisited(network, nodeNum, source, ds0, ps0, vis0, pq0, heapTop);
        vis := vis0[x := true];
        pq, ds, ps, pushes := Settle(source, x, vis, pq, ds0, ps0, pushes0);
      } else {
        PopVisited(network, nodeNum, source, ds0, ps0, vis0, pq0, heapTop);
        vis, ds, ps, pushes := vis0, ds0, ps0, pushes0;
      }
    }

    /**
     * The arc loop for the node `x` just visited: each arc into an unvisited node is
     * counted, lowers that node's distance when it can, and pushes an entry keyed by the
     * distance through `x` either way.
     */
    method Settle(source: int, x: int, vis: seq<bool>, pq0: multiset<Node>,
                  ghost ds0: seq<int>, ghost ps0: seq<int>, ghost pushes0: nat)
      returns (pq: multiset<Node>, ghost ds: seq<int>, ghost ps: seq<int>, ghost pushes: nat)
      requires Valid() && dis[..] == ds0 && pre[..] == ps0
      requires HeapScanInv(network, nodeNum, source, ds0, ps0, vis, pq0, x, 0)
      modifies dis, pre, this`relaxNum
      ensures Valid() && dis[..] == ds && pre[..] == ps
      ensures HeapInv(network, nodeNum, source, ds, ps, vis, pq)
      ensures relaxNum == old(relaxNum) + UnvisitedTargets(network[x], vis, |network[x]|)
      ensures old(relaxNum) <= relaxNum <= old(relaxNum) + |network[x]|
      ensures pushes == pushes0 + (relaxNum - old(relaxNum))
      ensures Lowered(ds0, ps0, ds, ps, x)
      ensures Grown(pq0, pq, relaxNum - old(relaxNum))
    {
      pq, ds, ps, pushes := pq0, ds0, ps0, pushes0;
      assert Lowered(ds0, ps0, ds, ps, x) && Grown(pq0, pq, 0);
      var adj := network[x];
      for j := 0 to |adj|
        invariant Valid() && dis[..] == ds && pre[..] == ps
        invariant HeapScanInv(network, nodeNum, source, ds, ps, vis, pq, x, j)
        invariant old(relaxNum) <= relaxNum <= old(relaxNum) + j
        invariant relaxNum == old(relaxNum) + UnvisitedTargets(adj, vis, j)
        invariant pushes == pushes0 + (relaxNum - old(relaxNum))
        invariant Lowered(ds0, ps0, ds, ps, x)
        invariant Grown(pq0, pq, relaxNum - old(relaxNum))
      {
        ghost var t, temp := adj[j].to, ds[x] + adj[j].arcLength;
        ghost var dsBefore, psBefore, pqBefore, k := ds, ps, pq, relaxNum - old(relaxNum);
        pq, ds, ps, pushes := RelaxHeapArc(source, x, j, vis, pq, ds, ps, pushes, t, temp);
        HeapArcKeepsPattern(vis, ds0, ps0, pq0, dsBefore, psBefore, pqBefore, k, ds, ps, pq, x, t, temp);
        UnvisitedTargetsStep(adj, vis, j, t);
      }
      ScanFinished(network, nodeNum, source, ds, ps, vis, pq, x);
    }

    /**
     * Arc j of the node `x` just visited: when it enters an unvisited node it is counted,
     * lowers that node's distance when it can, and pushes an entry keyed by the distance
     * through `x` either way; an arc into a visited node is skipped.
     */
    method RelaxHeapArc(source: int, x: int, j: int, vis: seq<bool>, pq0: multiset<Node>,
                        ghost ds0: seq<int>, ghost ps0: seq<int>, ghost pushes0: nat, ghost t: int, ghost temp: int)
      returns (pq: multiset<Node>, ghost ds: seq<int>, ghost ps: seq<int>, ghost pushes: nat)
      requires Valid() && dis[..] == ds0 && pre[..] == ps0
      requires HeapScanInv(network, nodeNum, source, ds0, ps0, vis, pq0, x, j) && j < |network[x]|
      requires t == network[x][j].to && temp == ds0[x] + network[x][j].arcLength
      modifies dis, pre, this`relaxNum
      ensures Valid() && dis[..] == ds && pre[..] == ps
      ensures HeapScanInv(network, nodeNum, source, ds, ps, vis, pq, x, j + 1)
      ensures relaxNum == old(relaxNum) + (if vis[t] then 0 else 1)
      ensures pushes == pushes0 + (relaxNum - old(relaxNum))
      ensures HeapArcEffect(vis, ds0, ps0, pq0, ds, ps, pq, x, t, temp)
    {
      pq, ds, ps, pushes := pq0, ds0, ps0, pushes0;
      var i := network[x][j];
      if !vis[i.to] {
        relaxNum := relaxNum + 1;
        var tempDis := dis[x] + i.arcLength;
        assert i.to == t && tempDis == temp;
        if tempDis < dis[i.to] {
          ScanImproves(network, nodeNum, source, ds, ps, vis, pq, x, j, t, temp);
          dis[i.to] := tempDis;
          pre[i.to] := x;
          ds, ps := ds0[t := temp], ps0[t := x];
        } else {
          ScanKeeps(network, nodeNum, source, ds, ps, vis, pq, x, j, i.to, tempDis);
        }
        pq := pq + multiset{Node(i.to, tempDis)};
        pushes := pushes + 1;
      } else {
        ScanVisited(network, nodeNum, source, ds, ps, vis, pq, x, j);
      }
    }
  }
}
