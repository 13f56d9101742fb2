/**
 * The invariant of the binary-heap engine. The heap is a multiset of (node, key) entries
 * with lazy deletion: a node may have several entries, stale ones included, and only the
 * first one popped while the node is unvisited counts.
 */
module HeapSteps {
  import opened Graph
  import opened Labels
  import opened LabelSetting

  /**
   * Every entry names a node whose distance is at most the entry's key; every unvisited
   * node with a finite distance has an entry keyed by that distance; no visited node is
   * further than any key.
   */
  ghost predicate HeapOk(n: int, dis: seq<int>, vis: seq<bool>, pq: multiset<Node>)
    requires |dis| == n + 1 && |vis| == n + 1
  {
    (forall e :: e in pq ==> 0 <= e.index <= n && dis[e.index] <= e.dis) &&
    (forall v :: 0 <= v <= n && !vis[v] && dis[v] < INF ==> Node(v, dis[v]) in pq) &&
    (forall u, e :: 0 <= u <= n && vis[u] && e in pq ==> dis[u] <= e.dis)
  }

  /** Between two pops: the core, the heap, and every visited node has its arcs relaxed. */
  ghost predicate HeapInv(net: seq<seq<Arc>>, n: int, src: int, dis: seq<int>, pre: seq<int>, vis: seq<bool>, pq: multiset<Node>)
  {
    Core(net, n, src, dis, pre, vis) && HeapOk(n, dis, vis, pq) &&
    forall u :: 0 <= u <= n && vis[u] ==> ArcsRelaxed(net, dis, u)
  }

  /** While the arcs of the node `x` just visited are scanned: the core, the heap, and the scan part. */
  ghost predicate HeapScanInv(net: seq<seq<Arc>>, n: int, src: int, dis: seq<int>, pre: seq<int>, vis: seq<bool>,
                              pq: multiset<Node>, x: int, j: int)
  {
    Core(net, n, src, dis, pre, vis) && HeapOk(n, dis, vis, pq) &&
    0 <= x <= n && vis[x] && 0 <= j <= |net[x]| && Scanning(net, n, dis, vis, x, j)
  }

  /** A non-empty heap has an entry `m` with the least key. */
  lemma HasMinimum(pq: multiset<Node>) returns (m: Node)
    requires pq != multiset{}
    ensures m in pq && forall e :: e in pq ==> m.dis <= e.dis
    decreases pq
  {
    var x :| x in pq;
    var rest := pq - multiset{x};
    assert rest[x] < pq[x];
    if rest == multiset{} {
      m := x;
    } else {
      var r := HasMinimum(rest);
      m := if x.dis < r.dis then x else r;
    }
    forall e | e in pq ensures m.dis <= e.dis {
      if e != x {
        assert rest[e] == pq[e];
      }
    }
  }

  /** The source pushed with key 0, nothing visited. */
  lemma HeapStart(net: seq<seq<Arc>>, n: int, src: int, dis: seq<int>, pre: seq<int>, vis: seq<bool>)
    requires ValidNetwork(net, n) && NonNegative(net) && 0 <= src <= n
    requires |dis| == n + 1 && |pre| == n + 1 && |vis| == n + 1
    requires forall v :: 0 <= v <= n ==> !vis[v]
    requires forall v :: 0 <= v <= n && v != src ==> dis[v] == INF && pre[v] == -1
    requires dis[src] == 0 && pre[src] == src
    ensures HeapInv(net, n, src, dis, pre, vis, multiset{Node(src, 0)})
  {
    StartCore(net, n, src, dis, pre, vis);
  }

  /** Popping an entry of a visited node: the entry is dropped and nothing else happens. */
  lemma PopVisited(net: seq<seq<Arc>>, n: int, src: int, dis: seq<int>, pre: seq<int>, vis: seq<bool>, pq: multiset<Node>, top: Node)
    requires HeapInv(net, n, src, dis, pre, vis, pq) && top in pq && vis[top.index]
    ensures HeapInv(net, n, src, dis, pre, vis, pq - multiset{top})
  {
    forall v | 0 <= v <= n && !vis[v] && dis[v] < INF ensures Node(v, dis[v]) in pq - multiset{top} {
      assert Node(v, dis[v]) != top;
    }
  }

  /**
   * Popping an entry of least key whose node `x` is unvisited: `x` becomes visited, and
   * its distance is no larger than any key left, nor than the distance of any visited node.
   */
  lemma PopUnvisited(net: seq<seq<Arc>>, n: int, src: int, dis: seq<int>, pre: seq<int>, vis: seq<bool>, pq: multiset<Node>, top: Node)
    requires HeapInv(net, n, src, dis, pre, vis, pq) && top in pq && !vis[top.index]
    requires forall e :: e in pq ==> top.dis <= e.dis
    ensures HeapScanInv(net, n, src, dis, pre, vis[top.index := true], pq - multiset{top}, top.index, 0)
  {
    var x := top.index;
    VisitKeepsCore(net, n, src, dis, pre, vis, x);
    PopKeepsHeapOk(n, dis, vis, pq, top);
    forall u | 0 <= u <= n && vis[x := true][u] ensures dis[u] <= dis[x] {
      if u != x {
        if dis[x] < INF {
          assert Node(x, dis[x]) in pq;
        } else {
          assert NodeLabelled(net, src, dis, pre, src, u);
        }
      }
    }
  }

  /** The heap part of `PopUnvisited`. */
  lemma PopKeepsHeapOk(n: int, dis: seq<int>, vis: seq<bool>, pq: multiset<Node>, top: Node)
    requires |dis| == n + 1 && |vis| == n + 1 && HeapOk(n, dis, vis, pq)
    requires top in pq && !vis[top.index]
    requires forall e :: e in pq ==> top.dis <= e.dis
    ensures 0 <= top.index <= n && dis[top.index] <= top.dis
    ensures HeapOk(n, dis, vis[top.index := true], pq - multiset{top})
  {
    var x := top.index;
    var vis', pq' := vis[x := true], pq - multiset{top};
    forall v | 0 <= v <= n && !vis'[v] && dis[v] < INF ensures Node(v, dis[v]) in pq' {
      assert Node(v, dis[v]) != top;
    }
    forall u, e | 0 <= u <= n && vis'[u] && e in pq' ensures dis[u] <= e.dis {
      assert e in pq;
    }
    forall e | e in pq' ensures 0 <= e.index <= n && dis[e.index] <= e.dis {
      assert e in pq;
    }
  }

  /** Arc j of `x` enters a visited node: it is skipped, and it is relaxed already. */
  lemma ScanVisited(net: seq<seq<Arc>>, n: int, src: int, dis: seq<int>, pre: seq<int>, vis: seq<bool>,
                    pq: multiset<Node>, x: int, j: int)
    requires HeapScanInv(net, n, src, dis, pre, vis, pq, x, j) && j < |net[x]| && vis[net[x][j].to]
    ensures HeapScanInv(net, n, src, dis, pre, vis, pq, x, j + 1)
  {
    assert net[x][j].arcLength >= 0;
  }

  /** An entry (t, temp) that lowers the distance of the unvisited node t to temp. */
  lemma HeapOkImprove(n: int, dis: seq<int>, vis: seq<bool>, pq: multiset<Node>, t: int, temp: int)
    requires |dis| == n + 1 && |vis| == n + 1 && HeapOk(n, dis, vis, pq)
    requires 0 <= t <= n && !vis[t] && temp < dis[t]
    requires forall u :: 0 <= u <= n && vis[u] ==> dis[u] <= temp
    ensures HeapOk(n, dis[t := temp], vis, pq + multiset{Node(t, temp)})
  {
    var dis', pq' := dis[t := temp], pq + multiset{Node(t, temp)};
    forall e | e in pq' ensures 0 <= e.index <= n && dis'[e.index] <= e.dis {
      if e != Node(t, temp) {
        assert e in pq;
      }
    }
    forall v | 0 <= v <= n && !vis[v] && dis'[v] < INF ensures Node(v, dis'[v]) in pq' {
      if v != t {
        assert Node(v, dis[v]) in pq;
      }
    }
    forall u, e | 0 <= u <= n && vis[u] && e in pq' ensures dis'[u] <= e.dis {
      if e != Node(t, temp) {
        assert e in pq;
      }
    }
  }

  /** An entry (t, temp) that does not lower the distance of t. */
  lemma HeapOkStale(n: int, dis: seq<int>, vis: seq<bool>, pq: multiset<Node>, t: int, temp: int)
    requires |dis| == n + 1 && |vis| == n + 1 && HeapOk(n, dis, vis, pq)
    requires 0 <= t <= n && dis[t] <= temp
    requires forall u :: 0 <= u <= n && vis[u] ==> dis[u] <= temp
    ensures HeapOk(n, dis, vis, pq + multiset{Node(t, temp)})
  {
    var pq' := pq + multiset{Node(t, temp)};
    forall e | e in pq' ensures 0 <= e.index <= n && dis[e.index] <= e.dis {
      if e != Node(t, temp) {
        assert e in pq;
      }
    }
    forall u, e | 0 <= u <= n && vis[u] && e in pq' ensures dis[u] <= e.dis {
      if e != Node(t, temp) {
        assert e in pq;
      }
    }
  }

  /**
   * Arc j of `x` enters an unvisited node t and lowers its distance: t's distance and
   * predecessor are written and the entry (t, dis[x] + length) is pushed.
   */
  lemma ScanImproves(net: seq<seq<Arc>>, n: int, src: int, dis: seq<int>, pre: seq<int>, vis: seq<bool>,
                     pq: multiset<Node>, x: int, j: int, t: int, temp: int)
    requires HeapScanInv(net, n, src, dis, pre, vis, pq, x, j) && j < |net[x]|
    requires t == net[x][j].to && temp == dis[x] + net[x][j].arcLength
    requires !vis[t] && temp < dis[t]
    ensures HeapScanInv(net, n, src, dis[t := temp], pre[t := x], vis, pq + multiset{Node(t, temp)}, x, j + 1)
  {
    assert net[x][j].arcLength >= 0;
    RelaxKeepsCore(net, n, src, dis, pre, vis, x, j, t, temp);
    HeapOkImprove(n, dis, vis, pq, t, temp);
    ScanningImprove(net, n, dis, vis, x, j, t, temp);
    var dis', pre', pq' := dis[t := temp], pre[t := x], pq + multiset{Node(t, temp)};
    assert Core(net, n, src, dis', pre', vis);
    assert HeapOk(n, dis', vis, pq');
    assert Scanning(net, n, dis', vis, x, j + 1);
  }

  /**
   * Arc j of `x` enters an unvisited node t without lowering its distance: only the entry
   * (t, dis[x] + length) is pushed.
   */
  lemma ScanKeeps(net: seq<seq<Arc>>, n: int, src: int, dis: seq<int>, pre: seq<int>, vis: seq<bool>,
                  pq: multiset<Node>, x: int, j: int, t: int, temp: int)
    requires HeapScanInv(net, n, src, dis, pre, vis, pq, x, j) && j < |net[x]|
    requires t == net[x][j].to && temp == dis[x] + net[x][j].arcLength
    requires !vis[t] && temp >= dis[t]
    ensures HeapScanInv(net, n, src, dis, pre, vis, pq + multiset{Node(t, temp)}, x, j + 1)
  {
    assert net[x][j].arcLength >= 0;
    HeapOkStale(n, dis, vis, pq, t, temp);
  }

  /** Every arc of `x` scanned: back to the between-pops invariant. */
  lemma ScanFinished(net: seq<seq<Arc>>, n: int, src: int, dis: seq<int>, pre: seq<int>, vis: seq<bool>,
                     pq: multiset<Node>, x: int)
    requires 0 <= x < |net| && HeapScanInv(net, n, src, dis, pre, vis, pq, x, |net[x]|)
    ensures HeapInv(net, n, src, dis, pre, vis, pq)
  {
  }

  /**
   * An empty heap: every node with a finite distance has been visited, so every arc out
   * of a reached node is relaxed, and the distances are shortest.
   */
  lemma HeapEmptyShortest(net: seq<seq<Arc>>, n: int, src: int, dis: seq<int>, pre: seq<int>, vis: seq<bool>)
    requires HeapInv(net, n, src, dis, pre, vis, multiset{})
    ensures forall v :: 0 <= v <= n && dis[v] < INF ==> vis[v]
    ensures ShortestUpTo(net, src, dis, INF - 1)
  {
    forall v | 0 <= v <= n && dis[v] < INF ensures vis[v] {
      if !vis[v] {
        assert false;
      }
    }
    SettledShortest(net, n, src, dis, pre, vis);
  }

  /**
   * What Dijkstra's engine leaves: every label kept, with the source at 0 as its own
   * predecessor; every reached node visited, with an exact predecessor arc; no walk from
   * the source shorter than `INF` shorter than a distance; and, for every reached node, a
   * predecessor chain back to the source whose length is its distance.
   */
  ghost predicate HeapOutcome(net: seq<seq<Arc>>, n: int, src: int, dis: seq<int>, pre: seq<int>, vis: seq<bool>)
  {
    Labelled(net, n, src, dis, pre, src) && |vis| == n + 1 && dis[src] == 0 && pre[src] == src &&
    (forall v :: 0 <= v <= n && v != src && dis[v] < INF ==> vis[v] && ExactTreeArc(net, dis, pre, vis, v)) &&
    ShortestUpTo(net, src, dis, INF - 1) &&
    (forall v, w :: 0 <= v <= n && IsWalk(net, src, v, w) && PathLength(w) < INF ==> dis[v] <= PathLength(w)) &&
    (forall v :: 0 <= v <= n && dis[v] < INF ==> exists w :: PreWalk(net, src, dis, pre, v, w))
  }

  /** Once the heap is empty the engine's outcome holds, and the visited nodes' arcs are at most all arcs. */
  lemma HeapDone(net: seq<seq<Arc>>, n: int, src: int, dis: seq<int>, pre: seq<int>, vis: seq<bool>)
    requires HeapInv(net, n, src, dis, pre, vis, multiset{})
    ensures HeapOutcome(net, n, src, dis, pre, vis) && MarkedArcs(net, vis) <= ArcCount(net)
  {
    HeapEmptyShortest(net, n, src, dis, pre, vis);
    NonNegativeShortest(net, src, dis, INF - 1);
    MarkedArcsAtMost(net, vis);
    CoreChains(net, n, src, dis, pre, vis);
  }

  /** `pq` is `pq0` with `k` more entries pushed. */
  ghost predicate Grown(pq0: multiset<Node>, pq: multiset<Node>, k: int)
  {
    pq0 <= pq && |pq| == |pq0| + k
  }

  /** One more push. */
  lemma GrownPush(pq0: multiset<Node>, pq: multiset<Node>, k: int, e: Node)
    requires Grown(pq0, pq, k)
    ensures Grown(pq0, pq + multiset{e}, k + 1)
  { }

  /**
   * The effect of one arc of `x` into t with tentative distance temp, from (dsB, psB, pqB)
   * to (ds, ps, pq): into a visited node nothing changes; otherwise an entry (t, temp) is
   * pushed, and an improvement writes t's distance and predecessor.
   */
  ghost predicate HeapArcEffect(vis: seq<bool>, dsB: seq<int>, psB: seq<int>, pqB: multiset<Node>,
                                ds: seq<int>, ps: seq<int>, pq: multiset<Node>, x: int, t: int, temp: int)
    requires 0 <= t < |dsB| && |psB| == |dsB| && |vis| == |dsB|
  {
    pq == (if vis[t] then pqB else pqB + multiset{Node(t, temp)}) &&
    (!vis[t] && temp < dsB[t] ==> ds == dsB[t := temp] && ps == psB[t := x]) &&
    (vis[t] || dsB[t] <= temp ==> ds == dsB && ps == psB)
  }

  /** One arc of a scan keeps the scan's write pattern and heap growth. */
  lemma HeapArcKeepsPattern(vis: seq<bool>, ds0: seq<int>, ps0: seq<int>, pq0: multiset<Node>, dsB: seq<int>,
                            psB: seq<int>, pqB: multiset<Node>, k: int, ds: seq<int>, ps: seq<int>, pq: multiset<Node>,
                            x: int, t: int, temp: int)
    requires Lowered(ds0, ps0, dsB, psB, x) && Grown(pq0, pqB, k) && 0 <= t < |dsB| && |vis| == |dsB|
    requires HeapArcEffect(vis, dsB, psB, pqB, ds, ps, pq, x, t, temp)
    ensures Lowered(ds0, ps0, ds, ps, x) && Grown(pq0, pq, if vis[t] then k else k + 1)
  {
    if !vis[t] {
      GrownPush(pq0, pqB, k, Node(t, temp));
      if temp < dsB[t] {
        LoweredStep(ds0, ps0, dsB, psB, x, t, temp);
      }
    }
  }
}
