/**
 * The invariant shared by the two label-setting engines (binary heap and buckets), which
 * both require arcs of non-negative length: a visited node keeps its distance for good,
 * its arcs are relaxed once it has been scanned, and every predecessor link is an arc
 * out of a visited node whose length adds up exactly.
 */
module LabelSetting {
  import opened Graph
  import opened Labels

  /**
   * `pre[v]` is a visited node u with an arc u -> v of length l such that
   * dis[v] == dis[u] + l.
   */
  ghost predicate ExactTreeArc(net: seq<seq<Arc>>, dis: seq<int>, pre: seq<int>, vis: seq<bool>, v: int)
    requires 0 <= v < |dis| && |pre| == |dis| && |vis| == |dis|
  {
    0 <= pre[v] < |dis| && pre[v] < |net| && vis[pre[v]] &&
    exists k :: 0 <= k < |net[pre[v]]| && net[pre[v]][k].to == v &&
      dis[v] == dis[pre[v]] + net[pre[v]][k].arcLength
  }

  /**
   * What holds at every step of a label-setting run from `src`: the labels, a source that
   * is its own predecessor at distance 0, no negative distance, and exact tree arcs.
   */
  ghost predicate Core(net: seq<seq<Arc>>, n: int, src: int, dis: seq<int>, pre: seq<int>, vis: seq<bool>)
  {
    ValidNetwork(net, n) && NonNegative(net) && Labelled(net, n, src, dis, pre, src) &&
    |vis| == n + 1 && dis[src] == 0 && pre[src] == src &&
    (forall v :: 0 <= v <= n ==> dis[v] >= 0) &&
    (forall v :: 0 <= v <= n && v != src && dis[v] < INF ==> ExactTreeArc(net, dis, pre, vis, v)) &&
    PreChains(net, src, dis, pre, vis)
  }

  /** Every node that `w` enters, except perhaps the last one, is visited. */
  ghost predicate ThroughVisited(vis: seq<bool>, w: seq<Arc>)
  {
    forall i :: 0 <= i < |w| - 1 ==> 0 <= w[i].to < |vis| && vis[w[i].to]
  }

  /** `v` has a predecessor chain back to `src` through visited nodes. */
  ghost predicate HasChain(net: seq<seq<Arc>>, src: int, dis: seq<int>, pre: seq<int>, vis: seq<bool>, v: int)
    requires 0 <= v < |dis|
  {
    exists w :: PreWalk(net, src, dis, pre, v, w) && ThroughVisited(vis, w)
  }

  /** Every reached node has a predecessor chain back to `src` through visited nodes. */
  ghost predicate PreChains(net: seq<seq<Arc>>, src: int, dis: seq<int>, pre: seq<int>, vis: seq<bool>)
  {
    forall v {:trigger HasChain(net, src, dis, pre, vis, v)} :: 0 <= v < |dis| && dis[v] < INF ==>
      HasChain(net, src, dis, pre, vis, v)
  }

  /**
   * Following `pre` from any reached node leads back to the source, along arcs of the
   * network whose lengths add up to the node's distance.
   */
  lemma CoreChains(net: seq<seq<Arc>>, n: int, src: int, dis: seq<int>, pre: seq<int>, vis: seq<bool>)
    requires Core(net, n, src, dis, pre, vis)
    ensures forall v :: 0 <= v <= n && dis[v] < INF ==> exists w :: PreWalk(net, src, dis, pre, v, w)
  {
    forall v | 0 <= v <= n && dis[v] < INF ensures exists w :: PreWalk(net, src, dis, pre, v, w) {
      assert HasChain(net, src, dis, pre, vis, v);
      var w :| PreWalk(net, src, dis, pre, v, w) && ThroughVisited(vis, w);
    }
  }

  /** The state `reset` leaves, with the source at distance 0 and its own predecessor, nothing visited. */
  lemma StartCore(net: seq<seq<Arc>>, n: int, src: int, dis: seq<int>, pre: seq<int>, vis: seq<bool>)
    requires ValidNetwork(net, n) && NonNegative(net) && 0 <= src <= n
    requires |dis| == n + 1 && |pre| == n + 1 && |vis| == n + 1
    requires forall v :: 0 <= v <= n && v != src ==> dis[v] == INF && pre[v] == -1
    requires dis[src] == 0 && pre[src] == src
    ensures Core(net, n, src, dis, pre, vis)
  {
    StartIsLabelled(net, n, src, dis, pre, src);
    forall v | 0 <= v < |dis| && dis[v] < INF ensures HasChain(net, src, dis, pre, vis, v) {
      assert PreWalk(net, src, dis, pre, v, []) && ThroughVisited(vis, []);
    }
  }

  /** Marking a node visited keeps the core. */
  lemma VisitKeepsCore(net: seq<seq<Arc>>, n: int, src: int, dis: seq<int>, pre: seq<int>, vis: seq<bool>, x: int)
    requires Core(net, n, src, dis, pre, vis) && 0 <= x <= n
    ensures Core(net, n, src, dis, pre, vis[x := true])
  {
    forall v | 0 <= v <= n && v != src && dis[v] < INF
      ensures ExactTreeArc(net, dis, pre, vis[x := true], v)
    {
      assert ExactTreeArc(net, dis, pre, vis, v);
    }
    forall v | 0 <= v < |dis| && dis[v] < INF ensures HasChain(net, src, dis, pre, vis[x := true], v) {
      assert HasChain(net, src, dis, pre, vis, v);
      var w :| PreWalk(net, src, dis, pre, v, w) && ThroughVisited(vis, w);
      assert ThroughVisited(vis[x := true], w);
    }
  }

  /**
   * Relaxing arc j of the visited node `x` into an unvisited node when it improves it
   * keeps the core, and lowers no distance but that of the arc's head.
   */
  lemma RelaxKeepsCore(net: seq<seq<Arc>>, n: int, src: int, dis: seq<int>, pre: seq<int>, vis: seq<bool>,
                       x: int, j: int, t: int, temp: int)
    requires Core(net, n, src, dis, pre, vis)
    requires 0 <= x <= n && vis[x] && 0 <= j < |net[x]|
    requires t == net[x][j].to && temp == dis[x] + net[x][j].arcLength
    requires !vis[t] && temp < dis[t]
    ensures Core(net, n, src, dis[t := temp], pre[t := x], vis)
  {
    var dis', pre' := dis[t := temp], pre[t := x];
    RelaxKeepsSignedLabels(net, n, src, dis, pre, x, j, t, temp, dis', pre');
    RelaxKeepsTreeArcs(net, n, src, dis, pre, vis, x, j, t, temp, dis', pre');
    RelaxKeepsChains(net, n, src, dis, pre, vis, x, j, t, temp, dis', pre');
  }

  /** The label part of `RelaxKeepsCore`: labels kept, the source untouched, no distance negative. */
  lemma RelaxKeepsSignedLabels(net: seq<seq<Arc>>, n: int, src: int, dis: seq<int>, pre: seq<int>,
                               x: int, j: int, t: int, temp: int, dis': seq<int>, pre': seq<int>)
    requires ValidNetwork(net, n) && NonNegative(net) && Labelled(net, n, src, dis, pre, src)
    requires dis[src] == 0 && forall v :: 0 <= v <= n ==> dis[v] >= 0
    requires 0 <= x <= n && 0 <= j < |net[x]|
    requires t == net[x][j].to && temp == dis[x] + net[x][j].arcLength && temp < dis[t]
    requires dis' == dis[t := temp] && pre' == pre[t := x]
    ensures dis[x] < INF && t != src
    ensures Labelled(net, n, src, dis', pre', src)
    ensures forall v :: 0 <= v <= n ==> dis'[v] >= 0
  {
    assert net[x][j].arcLength >= 0;
    assert NodeLabelled(net, src, dis, pre, src, t);
    RelaxKeepsLabels(net, n, src, dis, pre, src, x, j);
  }

  /**
   * The chain part of `RelaxKeepsCore`: the head gets the chain of `x` plus arc j, and no
   * other chain passes through the unvisited head.
   */
  lemma RelaxKeepsChains(net: seq<seq<Arc>>, n: int, src: int, dis: seq<int>, pre: seq<int>, vis: seq<bool>,
                         x: int, j: int, t: int, temp: int, dis': seq<int>, pre': seq<int>)
    requires ValidNetwork(net, n) && |dis| == n + 1 && |pre| == n + 1 && |vis| == n + 1
    requires PreChains(net, src, dis, pre, vis)
    requires 0 <= x <= n && vis[x] && dis[x] < INF && 0 <= j < |net[x]|
    requires t == net[x][j].to && temp == dis[x] + net[x][j].arcLength && !vis[t]
    requires dis' == dis[t := temp] && pre' == pre[t := x]
    ensures PreChains(net, src, dis', pre', vis)
  {
    forall v | 0 <= v < |dis'| && dis'[v] < INF ensures HasChain(net, src, dis', pre', vis, v) {
      if v == t {
        assert HasChain(net, src, dis, pre, vis, x);
        var wx: seq<Arc> :| PreWalk(net, src, dis, pre, x, wx) && ThroughVisited(vis, wx);
        ChainExtends(net, n, src, dis, pre, vis, x, j, t, temp, dis', pre', wx);
      } else {
        assert HasChain(net, src, dis, pre, vis, v);
        var w: seq<Arc> :| PreWalk(net, src, dis, pre, v, w) && ThroughVisited(vis, w);
        forall i | 0 <= i < |w| ensures w[i].to != t {
          if i == |w| - 1 {
            assert w[i].to == v;
          }
        }
        assert PreWalk(net, src, dis', pre', v, w);
      }
    }
  }

  /** The chain of the visited node `x` followed by arc j of `x` is a chain of its head after the write. */
  lemma ChainExtends(net: seq<seq<Arc>>, n: int, src: int, dis: seq<int>, pre: seq<int>, vis: seq<bool>,
                     x: int, j: int, t: int, temp: int, dis': seq<int>, pre': seq<int>, wx: seq<Arc>)
    requires ValidNetwork(net, n) && |dis| == n + 1 && |pre| == n + 1 && |vis| == n + 1
    requires 0 <= x <= n && vis[x] && 0 <= j < |net[x]|
    requires t == net[x][j].to && temp == dis[x] + net[x][j].arcLength && !vis[t]
    requires dis' == dis[t := temp] && pre' == pre[t := x]
    requires PreWalk(net, src, dis, pre, x, wx) && ThroughVisited(vis, wx)
    ensures PreWalk(net, src, dis', pre', t, wx + [net[x][j]]) && ThroughVisited(vis, wx + [net[x][j]])
  {
    var a := net[x][j];
    var w := wx + [a];
    assert w[..|wx|] == wx;
    assert a.from == x && a in net[x];
    forall i | 0 <= i < |wx| ensures vis[wx[i].to] {
      if i == |wx| - 1 {
        assert wx[i].to == x;
      }
    }
    assert IsWalk(net, src, t, w);
    assert PathLength(w) == dis'[t];
  }

  /** The exact-tree-arc part of `RelaxKeepsCore`: the new tree arc is arc j of `x`. */
  lemma RelaxKeepsTreeArcs(net: seq<seq<Arc>>, n: int, src: int, dis: seq<int>, pre: seq<int>, vis: seq<bool>,
                           x: int, j: int, t: int, temp: int, dis': seq<int>, pre': seq<int>)
    requires ValidNetwork(net, n) && |dis| == n + 1 && |pre| == n + 1 && |vis| == n + 1
    requires forall v :: 0 <= v <= n && v != src && dis[v] < INF ==> ExactTreeArc(net, dis, pre, vis, v)
    requires 0 <= x <= n && vis[x] && 0 <= j < |net[x]|
    requires t == net[x][j].to && temp == dis[x] + net[x][j].arcLength && !vis[t]
    requires dis' == dis[t := temp] && pre' == pre[t := x]
    ensures forall v :: 0 <= v <= n && v != src && dis'[v] < INF ==> ExactTreeArc(net, dis', pre', vis, v)
  {
    forall v | 0 <= v <= n && v != src && dis'[v] < INF
      ensures ExactTreeArc(net, dis', pre', vis, v)
    {
      if v == t {
        assert net[pre'[v]][j].to == v;
      } else {
        assert ExactTreeArc(net, dis, pre, vis, v);
        var k :| 0 <= k < |net[pre[v]]| && net[pre[v]][k].to == v &&
          dis[v] == dis[pre[v]] + net[pre[v]][k].arcLength;
        assert pre'[v] == pre[v] && pre[v] != t;
      }
    }
  }

  /**
   * While the arcs of the node `x` just visited are scanned: no visited node is further
   * than `x`, visited nodes other than `x` have their arcs relaxed, and so have the first
   * `j` arcs of `x`.
   */
  ghost predicate Scanning(net: seq<seq<Arc>>, n: int, dis: seq<int>, vis: seq<bool>, x: int, j: int)
    requires ValidNetwork(net, n) && |dis| == n + 1 && |vis| == n + 1 && 0 <= x <= n && 0 <= j <= |net[x]|
  {
    (forall u :: 0 <= u <= n && vis[u] ==> dis[u] <= dis[x]) &&
    (forall u :: 0 <= u <= n && vis[u] && u != x ==> ArcsRelaxed(net, dis, u)) &&
    (forall k :: 0 <= k < j ==> dis[net[x][k].to] <= dis[x] + net[x][k].arcLength)
  }

  /** Lowering the distance of an unvisited node t to temp through arc j of `x` keeps the scan part. */
  lemma ScanningImprove(net: seq<seq<Arc>>, n: int, dis: seq<int>, vis: seq<bool>, x: int, j: int, t: int, temp: int)
    requires ValidNetwork(net, n) && |dis| == n + 1 && |vis| == n + 1 && 0 <= x <= n && 0 <= j < |net[x]|
    requires t == net[x][j].to && temp == dis[x] + net[x][j].arcLength
    requires Scanning(net, n, dis, vis, x, j) && vis[x] && !vis[t] && temp < dis[t]
    ensures Scanning(net, n, dis[t := temp], vis, x, j + 1)
  {
    var dis' := dis[t := temp];
    forall u | 0 <= u <= n && vis[u] && u != x ensures ArcsRelaxed(net, dis', u) {
      assert ArcsRelaxed(net, dis, u);
    }
  }

  /** The number of unvisited nodes, which bounds how many more pops can visit one. */
  function UnvisitedCount(vis: seq<bool>): (c: nat)
    ensures c <= |vis|
  {
    if vis == [] then 0 else UnvisitedCount(vis[..|vis| - 1]) + (if vis[|vis| - 1] then 0 else 1)
  }

  /** Visiting an unvisited node leaves one unvisited node fewer. */
  lemma {:induction false} VisitCounts(vis: seq<bool>, x: int)
    requires 0 <= x < |vis| && !vis[x]
    ensures UnvisitedCount(vis[x := true]) == UnvisitedCount(vis) - 1
    decreases |vis|
  {
    var last := |vis| - 1;
    var vis' := vis[x := true];
    if x < last {
      assert vis'[..last] == vis[..last][x := true];
      VisitCounts(vis[..last], x);
    } else {
      assert vis'[..last] == vis[..last];
    }
  }

  /**
   * Every visited node and every node whose distance is finite has its arcs relaxed:
   * then no walk from the source that stays below INF is shorter than any distance.
   */
  lemma SettledShortest(net: seq<seq<Arc>>, n: int, src: int, dis: seq<int>, pre: seq<int>, vis: seq<bool>)
    requires Core(net, n, src, dis, pre, vis)
    requires forall u :: 0 <= u <= n && dis[u] < INF ==> ArcsRelaxed(net, dis, u)
    ensures ShortestUpTo(net, src, dis, INF - 1)
  {
    TriangleGivesShortest(net, n, src, dis, INF - 1);
  }
}
