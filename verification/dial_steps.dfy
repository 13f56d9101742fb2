/**
 * The invariant of the bucket-queue engine. Bucket b is a LIFO list of nodes whose
 * distance was b when they were pushed; entries go stale when a node is improved again
 * or visited, and a popped entry of a visited node is dropped. The cursor `curMin` only
 * moves up, past empty buckets.
 */
module DialSteps {
  import opened Graph
  import opened Labels
  import opened LabelSetting
  import opened EngineSpec

  /**
   * `resize(d + 1)` of the bucket vector when d exceeds its size, as the engine tests
   * it: the buckets kept as they are, the new ones empty.
   */
  function GrowAsWritten(buckets: seq<seq<int>>, d: int): (r: seq<seq<int>>)
    ensures |r| == if d > |buckets| then d + 1 else |buckets|
    ensures r[..|buckets|] == buckets
    ensures forall b :: |buckets| <= b < |r| ==> r[b] == []
  {
    if d > |buckets| then buckets + seq(d + 1 - |buckets|, _ => []) else buckets
  }

  /** The growth test the engine evidently intends: make bucket d exist whenever it does not. */
  function Grow(buckets: seq<seq<int>>, d: nat): (r: seq<seq<int>>)
    ensures |buckets| <= |r| && d < |r|
    ensures r[..|buckets|] == buckets
    ensures forall b :: |buckets| <= b < |r| ==> r[b] == []
  {
    if d >= |buckets| then buckets + seq(d + 1 - |buckets|, _ => []) else buckets
  }

  /** A relaxed distance exactly equal to the number of buckets gets no new bucket as written. */
  lemma GrowAsWrittenLeavesSizeOut(buckets: seq<seq<int>>)
    ensures |GrowAsWritten(buckets, |buckets|)| == |buckets|
  {
  }

  /**
   * An input that reaches it: arcs 1->2, 1->3, 2->1, 2->3 of length 1 and 3->1 of length
   * 5 on nodes 1..3. The estimate sums the lists of nodes 0, 1 and 2 (4 arcs outnumber
   * the 3 nodes) to 4, so there are 5 buckets; from source 3 the first relaxation gives
   * node 1 the distance 5, and bucket 5 does not exist.
   */
  lemma GrowAsWrittenOutOfRange()
    ensures var net := [[], [Arc(1, 2, 1), Arc(1, 3, 1)], [Arc(2, 1, 1), Arc(2, 3, 1)], [Arc(3, 1, 5)]];
      ValidNetwork(net, 3) && NonNegative(net) && BucketBound(net, 3) == 4 &&
      var buckets := seq(BucketBound(net, 3) + 1, _ => []);
      var tempDis := 0 + net[3][0].arcLength;
      tempDis == |buckets| && |GrowAsWritten(buckets, tempDis)| == tempDis
  {
    var net := [[], [Arc(1, 2, 1), Arc(1, 3, 1)], [Arc(2, 1, 1), Arc(2, 3, 1)], [Arc(3, 1, 5)]];
    assert ListLength(net[1]) == 2 && ListLength(net[2]) == 2;
    assert BoundFrom(net, 2, 2, 3) == 2;
    assert BucketBound(net, 3) == 4;
  }

  /** The corrected test always provides the bucket of the new distance and keeps every bucket. */
  lemma GrowProvidesBucket(buckets: seq<seq<int>>, d: nat, b: int, v: int)
    requires 0 <= b < |buckets| && v in buckets[b]
    ensures d < |Grow(buckets, d)| && v in Grow(buckets, d)[b]
  {
    assert Grow(buckets, d)[..|buckets|][b] == buckets[b];
  }

  /**
   * Pushing node v into bucket d, made to exist first: bucket d gains v at its end, and
   * every other bucket is as it was, the new ones empty.
   */
  function PushBucket(buckets: seq<seq<int>>, d: nat, v: int): (r: seq<seq<int>>)
    ensures |r| == if d < |buckets| then |buckets| else d + 1
    ensures r[d] == (if d < |buckets| then buckets[d] else []) + [v]
    ensures forall b :: 0 <= b < |r| && b != d ==> r[b] == if b < |buckets| then buckets[b] else []
  {
    var grown := Grow(buckets, d);
    assert forall b :: 0 <= b < |buckets| ==> grown[b] == grown[..|buckets|][b];
    grown[d := grown[d] + [v]]
  }

  /** Every bucket of `b0` is still there in `b`, at most with nodes pushed on top. */
  ghost predicate BucketsExtended(b0: seq<seq<int>>, b: seq<seq<int>>)
  {
    |b0| <= |b| && forall i :: 0 <= i < |b0| ==> |b0[i]| <= |b[i]| && b[i][..|b0[i]|] == b0[i]
  }

  /** A push keeps every bucket's earlier contents below it. */
  lemma PushExtends(b0: seq<seq<int>>, b: seq<seq<int>>, d: nat, v: int)
    requires BucketsExtended(b0, b)
    ensures BucketsExtended(b0, PushBucket(b, d, v))
  {
    var r := PushBucket(b, d, v);
    forall i | 0 <= i < |b0|
      ensures |b0[i]| <= |r[i]| && r[i][..|b0[i]|] == b0[i]
    {
      if i == d {
        assert r[i][..|b0[i]|] == b[i][..|b0[i]|];
      }
    }
  }

  /**
   * The effect of one arc of `x` into t with tentative distance temp, from (dsB, psB, bB)
   * to (ds, ps, b): an improvement writes t's distance and predecessor and pushes t into
   * the bucket of its new distance; otherwise nothing changes.
   */
  ghost predicate BucketArcEffect(dsB: seq<int>, psB: seq<int>, bB: seq<seq<int>>, ds: seq<int>, ps: seq<int>,
                                  b: seq<seq<int>>, x: int, t: int, temp: int)
    requires 0 <= t < |dsB| && |psB| == |dsB|
  {
    (temp < dsB[t] ==> temp >= 0 && ds == dsB[t := temp] && ps == psB[t := x] && b == PushBucket(bB, temp, t)) &&
    (dsB[t] <= temp ==> ds == dsB && ps == psB && b == bB)
  }

  /** One arc of a scan, improving or not, keeps the scan's write pattern and bucket growth. */
  lemma BucketArcKeepsPattern(ds0: seq<int>, ps0: seq<int>, b0: seq<seq<int>>, dsB: seq<int>, psB: seq<int>,
                        bB: seq<seq<int>>, ds: seq<int>, ps: seq<int>, b: seq<seq<int>>, x: int, t: int, temp: int)
    requires Lowered(ds0, ps0, dsB, psB, x) && BucketsExtended(b0, bB) && 0 <= t < |dsB|
    requires BucketArcEffect(dsB, psB, bB, ds, ps, b, x, t, temp)
    ensures Lowered(ds0, ps0, ds, ps, x) && BucketsExtended(b0, b)
  {
    if temp < dsB[t] {
      LoweredStep(ds0, ps0, dsB, psB, x, t, temp);
      PushExtends(b0, bB, temp, t);
    }
  }

  /**
   * The effect of one turn of the bucket loop, from (curMin0, vis0, b0, ds0, ps0) to
   * (curMin, vis, b, ds, ps): an empty bucket at the cursor moves the cursor on and
   * changes nothing else; otherwise the cursor stays and `x`, the bucket's last node, is
   * popped; a visited `x` leaves everything else as it was, an unvisited one is marked
   * visited, and its scan only lowers distances (writing `x` as predecessor) and pushes
   * nodes on top of the remaining buckets.
   */
  ghost predicate DialTurnEffect(curMin0: int, vis0: seq<bool>, b0: seq<seq<int>>, ds0: seq<int>, ps0: seq<int>,
                                 curMin: int, vis: seq<bool>, b: seq<seq<int>>, ds: seq<int>, ps: seq<int>, x: int)
    requires 0 <= curMin0 < |b0|
  {
    var bucket := b0[curMin0];
    (bucket == [] ==> curMin == curMin0 + 1 && vis == vis0 && b == b0 && ds == ds0 && ps == ps0) &&
    (bucket != [] ==>
      curMin == curMin0 && x == bucket[|bucket| - 1] && 0 <= x < |vis0| &&
      (vis0[x] ==> vis == vis0 && ds == ds0 && ps == ps0 && b == b0[curMin0 := bucket[..|bucket| - 1]]) &&
      (!vis0[x] ==> vis == vis0[x := true] && Lowered(ds0, ps0, ds, ps, x) &&
                    BucketsExtended(b0[curMin0 := bucket[..|bucket| - 1]], b)))
  }

  /**
   * Every entry names a node with a finite distance no larger than its bucket; every
   * unvisited node with a finite distance sits in the bucket of its distance, at or above
   * the cursor; no visited node is further than the cursor.
   */
  ghost predicate BucketsOk(n: int, dis: seq<int>, vis: seq<bool>, buckets: seq<seq<int>>, curMin: int)
    requires |dis| == n + 1 && |vis| == n + 1
  {
    0 <= curMin <= |buckets| &&
    (forall b, i :: 0 <= b < |buckets| && 0 <= i < |buckets[b]| ==>
      0 <= buckets[b][i] <= n && dis[buckets[b][i]] <= b && dis[buckets[b][i]] < INF) &&
    (forall v :: 0 <= v <= n && !vis[v] && dis[v] < INF ==>
      curMin <= dis[v] < |buckets| && v in buckets[dis[v]]) &&
    (forall u :: 0 <= u <= n && vis[u] ==> dis[u] <= curMin)
  }

  /** Between two turns of the bucket loop: the core, the buckets, and visited nodes relaxed. */
  ghost predicate DialInv(net: seq<seq<Arc>>, n: int, src: int, dis: seq<int>, pre: seq<int>, vis: seq<bool>,
                          buckets: seq<seq<int>>, curMin: int)
  {
    Core(net, n, src, dis, pre, vis) && BucketsOk(n, dis, vis, buckets, curMin) &&
    forall u :: 0 <= u <= n && vis[u] ==> ArcsRelaxed(net, dis, u)
  }

  /** While the arcs of the node `x` at the cursor's distance are scanned. */
  ghost predicate DialScanInv(net: seq<seq<Arc>>, n: int, src: int, dis: seq<int>, pre: seq<int>, vis: seq<bool>,
                              buckets: seq<seq<int>>, curMin: int, x: int, j: int)
  {
    Core(net, n, src, dis, pre, vis) && BucketsOk(n, dis, vis, buckets, curMin) &&
    0 <= x <= n && vis[x] && dis[x] == curMin && 0 <= j <= |net[x]| && Scanning(net, n, dis, vis, x, j)
  }

  /** The number of entries in bucket b, 0 past the last bucket. */
  function BucketLength(buckets: seq<seq<int>>, b: int): nat
  {
    if 0 <= b < |buckets| then |buckets[b]| else 0
  }

  /** The source alone in bucket 0, nothing visited, the cursor at 0. */
  lemma DialStart(net: seq<seq<Arc>>, n: int, src: int, dis: seq<int>, pre: seq<int>, vis: seq<bool>,
                  buckets: seq<seq<int>>)
    requires ValidNetwork(net, n) && NonNegative(net) && 0 <= src <= n
    requires |dis| == n + 1 && |pre| == n + 1 && |vis| == n + 1
    requires forall v :: 0 <= v <= n ==> !vis[v]
    requires forall v :: 0 <= v <= n && v != src ==> dis[v] == INF && pre[v] == -1
    requires dis[src] == 0 && pre[src] == src
    requires |buckets| >= 1 && buckets[0] == [src] && forall b :: 1 <= b < |buckets| ==> buckets[b] == []
    ensures DialInv(net, n, src, dis, pre, vis, buckets, 0)
  {
    StartCore(net, n, src, dis, pre, vis);
  }

  /** An empty bucket at the cursor: the cursor moves to the next bucket. */
  lemma DialAdvance(net: seq<seq<Arc>>, n: int, src: int, dis: seq<int>, pre: seq<int>, vis: seq<bool>,
                    buckets: seq<seq<int>>, curMin: int)
    requires DialInv(net, n, src, dis, pre, vis, buckets, curMin) && curMin < |buckets| && buckets[curMin] == []
    ensures DialInv(net, n, src, dis, pre, vis, buckets, curMin + 1)
  {
    forall v | 0 <= v <= n && !vis[v] && dis[v] < INF ensures curMin + 1 <= dis[v] {
      assert v in buckets[dis[v]];
    }
  }

  /** Removing the last entry of the cursor's bucket keeps every other entry where it was. */
  lemma PopBucket(n: int, dis: seq<int>, vis: seq<bool>, buckets: seq<seq<int>>, curMin: int)
    requires |dis| == n + 1 && |vis| == n + 1 && BucketsOk(n, dis, vis, buckets, curMin)
    requires curMin < |buckets| && buckets[curMin] != []
    ensures var k := |buckets[curMin]| - 1; var top := buckets[curMin][k];
      var rest := buckets[curMin := buckets[curMin][..k]];
      0 <= top <= n && dis[top] <= curMin &&
      forall v :: 0 <= v <= n && !vis[v] && dis[v] < INF && v != top ==> v in rest[dis[v]]
  {
    var k := |buckets[curMin]| - 1;
    var top := buckets[curMin][k];
    assert buckets[curMin] == buckets[curMin][..k] + [top];
    forall v | 0 <= v <= n && !vis[v] && dis[v] < INF && v != top
      ensures v in buckets[curMin := buckets[curMin][..k]][dis[v]]
    {
      assert v in buckets[dis[v]];
    }
  }

  /** A popped entry of a visited node: it is dropped and nothing else happens. */
  lemma DialPopVisited(net: seq<seq<Arc>>, n: int, src: int, dis: seq<int>, pre: seq<int>, vis: seq<bool>,
                       buckets: seq<seq<int>>, curMin: int)
    requires DialInv(net, n, src, dis, pre, vis, buckets, curMin) && curMin < |buckets| && buckets[curMin] != []
    requires vis[buckets[curMin][|buckets[curMin]| - 1]]
    ensures var k := |buckets[curMin]| - 1;
      DialInv(net, n, src, dis, pre, vis, buckets[curMin := buckets[curMin][..k]], curMin)
  {
    PopBucket(n, dis, vis, buckets, curMin);
  }

  /**
   * A popped entry of an unvisited node x: its distance is the cursor, x becomes visited,
   * and the scan of its arcs starts.
   */
  lemma DialPopUnvisited(net: seq<seq<Arc>>, n: int, src: int, dis: seq<int>, pre: seq<int>, vis: seq<bool>,
                         buckets: seq<seq<int>>, curMin: int)
    requires DialInv(net, n, src, dis, pre, vis, buckets, curMin) && curMin < |buckets| && buckets[curMin] != []
    requires !vis[buckets[curMin][|buckets[curMin]| - 1]]
    ensures var k := |buckets[curMin]| - 1; var x := buckets[curMin][k];
      DialScanInv(net, n, src, dis, pre, vis[x := true], buckets[curMin := buckets[curMin][..k]], curMin, x, 0)
  {
    var k := |buckets[curMin]| - 1;
    var x := buckets[curMin][k];
    PopBucket(n, dis, vis, buckets, curMin);
    VisitKeepsCore(net, n, src, dis, pre, vis, x);
    assert dis[x] == curMin;
  }

  /**
   * Arc j of `x` lowers the distance of t to temp: the buckets grow when temp is past
   * their number, t is pushed into bucket temp, and its distance and predecessor written.
   */
  lemma DialImproves(net: seq<seq<Arc>>, n: int, src: int, dis: seq<int>, pre: seq<int>, vis: seq<bool>,
                     buckets: seq<seq<int>>, curMin: int, x: int, j: int, t: int, temp: int, grown: seq<seq<int>>)
    requires DialScanInv(net, n, src, dis, pre, vis, buckets, curMin, x, j) && j < |net[x]|
    requires t == net[x][j].to && temp == dis[x] + net[x][j].arcLength && temp < dis[t]
    requires |grown| >= |buckets| && grown[..|buckets|] == buckets
    requires forall b :: |buckets| <= b < |grown| ==> grown[b] == []
    requires temp < |grown|
    ensures !vis[t]
    ensures DialScanInv(net, n, src, dis[t := temp], pre[t := x], vis,
                        grown[temp := grown[temp] + [t]], curMin, x, j + 1)
  {
    assert net[x][j].arcLength >= 0;
    if vis[t] {
      assert false;
    }
    assert NodeLabelled(net, src, dis, pre, src, t);
    RelaxKeepsCore(net, n, src, dis, pre, vis, x, j, t, temp);
    ScanningImprove(net, n, dis, vis, x, j, t, temp);
    GrownBucketsOk(n, dis, vis, buckets, curMin, t, temp, grown);
  }

  /** The bucket part of `DialImproves`. */
  lemma GrownBucketsOk(n: int, dis: seq<int>, vis: seq<bool>, buckets: seq<seq<int>>, curMin: int,
                       t: int, temp: int, grown: seq<seq<int>>)
    requires |dis| == n + 1 && |vis| == n + 1 && BucketsOk(n, dis, vis, buckets, curMin)
    requires 0 <= t <= n && !vis[t] && curMin <= temp < dis[t] && temp < INF && temp < |grown|
    requires |grown| >= |buckets| && grown[..|buckets|] == buckets
    requires forall b :: |buckets| <= b < |grown| ==> grown[b] == []
    ensures BucketsOk(n, dis[t := temp], vis, grown[temp := grown[temp] + [t]], curMin)
  {
    var dis', b' := dis[t := temp], grown[temp := grown[temp] + [t]];
    forall b, i | 0 <= b < |b'| && 0 <= i < |b'[b]|
      ensures 0 <= b'[b][i] <= n && dis'[b'[b][i]] <= b && dis'[b'[b][i]] < INF
    {
      if b == temp && i == |grown[temp]| {
      } else {
        assert b'[b][i] == grown[b][i];
        assert b < |buckets| && grown[b] == buckets[b];
      }
    }
    forall v | 0 <= v <= n && !vis[v] && dis'[v] < INF
      ensures curMin <= dis'[v] < |b'| && v in b'[dis'[v]]
    {
      if v != t {
        assert v in buckets[dis[v]] && grown[dis[v]] == buckets[dis[v]];
        assert b'[dis[v]] == grown[dis[v]] || b'[dis[v]] == grown[dis[v]] + [t];
      }
    }
  }

  /** Arc j of `x` does not lower the distance of its head: nothing changes. */
  lemma DialKeeps(net: seq<seq<Arc>>, n: int, src: int, dis: seq<int>, pre: seq<int>, vis: seq<bool>,
                  buckets: seq<seq<int>>, curMin: int, x: int, j: int)
    requires DialScanInv(net, n, src, dis, pre, vis, buckets, curMin, x, j) && j < |net[x]|
    requires dis[x] + net[x][j].arcLength >= dis[net[x][j].to]
    ensures DialScanInv(net, n, src, dis, pre, vis, buckets, curMin, x, j + 1)
  {
  }

  /** Every arc of `x` scanned: back to the between-turns invariant. */
  lemma DialScanned(net: seq<seq<Arc>>, n: int, src: int, dis: seq<int>, pre: seq<int>, vis: seq<bool>,
                    buckets: seq<seq<int>>, curMin: int, x: int)
    requires 0 <= x < |net| && DialScanInv(net, n, src, dis, pre, vis, buckets, curMin, x, |net[x]|)
    ensures DialInv(net, n, src, dis, pre, vis, buckets, curMin)
  {
  }

  /**
   * The cursor past `bound`: every node at distance at most `bound` is visited, and no
   * walk from the source whose prefixes stay within `bound` (and below INF) is shorter
   * than any recorded distance.
   */
  lemma DialEndShortest(net: seq<seq<Arc>>, n: int, src: int, dis: seq<int>, pre: seq<int>, vis: seq<bool>,
                        buckets: seq<seq<int>>, bound: int)
    requires DialInv(net, n, src, dis, pre, vis, buckets, bound + 1)
    ensures forall v :: 0 <= v <= n && dis[v] <= bound && dis[v] < INF ==> vis[v]
    ensures ShortestUpTo(net, src, dis, if bound < INF then bound else INF - 1)
  {
    var b := if bound < INF then bound else INF - 1;
    forall u | 0 <= u < |dis| && dis[u] <= b ensures ArcsRelaxed(net, dis, u) {
      if !vis[u] {
        assert false;
      }
    }
    TriangleGivesShortest(net, n, src, dis, b);
  }

  /**
   * What Dial's engine leaves, for the estimate `bound`: every label kept, with the source
   * at 0 as its own predecessor; exact predecessor arcs; every reached node within `bound`
   * visited; no walk from the source within `bound` shorter than a distance; and, for
   * every reached node, a predecessor chain back to the source whose length is its
   * distance.
   */
  ghost predicate DialOutcome(net: seq<seq<Arc>>, n: int, src: int, dis: seq<int>, pre: seq<int>, vis: seq<bool>,
                              bound: int)
  {
    Labelled(net, n, src, dis, pre, src) && |vis| == n + 1 && dis[src] == 0 && pre[src] == src &&
    (forall v :: 0 <= v <= n && v != src && dis[v] < INF ==> ExactTreeArc(net, dis, pre, vis, v)) &&
    (forall v :: 0 <= v <= n && dis[v] <= bound && dis[v] < INF ==> vis[v]) &&
    ShortestUpTo(net, src, dis, if bound < INF then bound else INF - 1) &&
    (var b := if bound < INF then bound else INF - 1;
      forall v, w :: 0 <= v <= n && IsWalk(net, src, v, w) && PathLength(w) <= b ==> dis[v] <= PathLength(w)) &&
    (forall v :: 0 <= v <= n && dis[v] < INF ==> exists w :: PreWalk(net, src, dis, pre, v, w))
  }

  /** Once the cursor has passed `bound`, the engine's outcome holds. */
  lemma DialDone(net: seq<seq<Arc>>, n: int, src: int, dis: seq<int>, pre: seq<int>, vis: seq<bool>,
                 buckets: seq<seq<int>>, bound: int)
    requires DialInv(net, n, src, dis, pre, vis, buckets, bound + 1)
    ensures DialOutcome(net, n, src, dis, pre, vis, bound)
  {
    DialEndShortest(net, n, src, dis, pre, vis, buckets, bound);
    NonNegativeShortest(net, src, dis, if bound < INF then bound else INF - 1);
    CoreChains(net, n, src, dis, pre, vis);
  }
}
