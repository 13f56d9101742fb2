/**
 * What every engine keeps true of the distance array `dis` and the predecessor array
 * `pre` while it runs, and why a run that ends with every arc relaxed has found
 * shortest distances.
 */
module Labels {
  import opened Graph

  /**
   * `pre[v]` names a reached node u with an arc u -> v whose length l satisfies
   * dis[v] >= dis[u] + l.
   */
  ghost predicate TreeArc(net: seq<seq<Arc>>, dis: seq<int>, pre: seq<int>, v: int)
    requires 0 <= v < |dis| && |pre| == |dis|
  {
    0 <= pre[v] < |dis| && pre[v] < |net| && dis[pre[v]] < INF &&
    exists k :: 0 <= k < |net[pre[v]]| && net[pre[v]][k].to == v &&
      dis[v] >= dis[pre[v]] + net[pre[v]][k].arcLength
  }

  /**
   * `w` is the predecessor chain of `v`: a walk from `src` to `v` in which every arc
   * enters a node whose `pre` is the arc's tail, so that following `pre` from `v` retraces
   * `w` back to `src`, and whose length is `dis[v]`.
   */
  ghost predicate PreWalk(net: seq<seq<Arc>>, src: int, dis: seq<int>, pre: seq<int>, v: int, w: seq<Arc>)
    requires 0 <= v < |dis|
  {
    IsWalk(net, src, v, w) && PathLength(w) == dis[v] &&
    forall i :: 0 <= i < |w| ==> 0 <= w[i].to < |pre| && pre[w[i].to] == w[i].from
  }

  /**
   * The label of `v`: a finite distance is the length of a walk from `src`; the node is
   * either the untouched source (distance 0, predecessor `srcPre`), untouched
   * (INF, -1), or improved through the arc from its predecessor.
   */
  ghost predicate NodeLabelled(net: seq<seq<Arc>>, src: int, dis: seq<int>, pre: seq<int>, srcPre: int, v: int)
    requires 0 <= v < |dis| && |pre| == |dis|
  {
    dis[v] <= INF &&
    (dis[v] < INF ==> WalkOfLength(net, src, v, dis[v])) &&
    ((v == src && dis[v] == 0 && pre[v] == srcPre) ||
     (v != src && pre[v] == -1 && dis[v] == INF) ||
     (dis[v] < INF && TreeArc(net, dis, pre, v)))
  }

  ghost predicate Labelled(net: seq<seq<Arc>>, n: int, src: int, dis: seq<int>, pre: seq<int>, srcPre: int)
  {
    |dis| == n + 1 && |pre| == n + 1 && 0 <= src <= n && dis[src] <= 0 &&
    forall v :: 0 <= v <= n ==> NodeLabelled(net, src, dis, pre, srcPre, v)
  }

  /** The state `reset` leaves, with the source's distance set to 0 and its predecessor to `srcPre`. */
  lemma StartIsLabelled(net: seq<seq<Arc>>, n: int, src: int, dis: seq<int>, pre: seq<int>, srcPre: int)
    requires 0 <= src <= n && |dis| == n + 1 && |pre| == n + 1
    requires forall v :: 0 <= v <= n && v != src ==> dis[v] == INF && pre[v] == -1
    requires dis[src] == 0 && pre[src] == srcPre
    ensures Labelled(net, n, src, dis, pre, srcPre)
  {
    assert IsWalk(net, src, src, []) && PathLength([]) == 0;
  }

  /**
   * Relaxing arc j of `cur` when it improves its destination (the write of `dis` and
   * `pre` every engine performs) keeps every label.
   */
  lemma RelaxKeepsLabels(net: seq<seq<Arc>>, n: int, src: int, dis: seq<int>, pre: seq<int>, srcPre: int, cur: int, j: int)
    requires ValidNetwork(net, n) && Labelled(net, n, src, dis, pre, srcPre)
    requires 0 <= cur <= n && dis[cur] < INF && 0 <= j < |net[cur]|
    requires dis[cur] + net[cur][j].arcLength < dis[net[cur][j].to]
    ensures var a := net[cur][j];
      Labelled(net, n, src, dis[a.to := dis[cur] + a.arcLength], pre[a.to := cur], srcPre)
  {
    var a := net[cur][j];
    var x := dis[cur] + a.arcLength;
    var dis', pre' := dis[a.to := x], pre[a.to := cur];
    assert NodeLabelled(net, src, dis, pre, srcPre, cur);
    assert NodeLabelled(net, src, dis, pre, srcPre, a.to);
    var w :| IsWalk(net, src, cur, w) && PathLength(w) == dis[cur];
    assert InNetwork(net, a);
    WalkExtend(net, src, w, a);
    forall v | 0 <= v <= n ensures NodeLabelled(net, src, dis', pre', srcPre, v) {
      if v == a.to {
        assert IsWalk(net, src, v, w + [a]) && PathLength(w + [a]) == dis'[v];
        assert net[pre'[v]][j].to == v && dis'[v] >= dis'[pre'[v]] + net[pre'[v]][j].arcLength;
        assert TreeArc(net, dis', pre', v);
      } else {
        assert NodeLabelled(net, src, dis, pre, srcPre, v);
        if dis[v] < INF && TreeArc(net, dis, pre, v) {
          var k :| 0 <= k < |net[pre[v]]| && net[pre[v]][k].to == v &&
            dis[v] >= dis[pre[v]] + net[pre[v]][k].arcLength;
          assert dis'[pre'[v]] <= dis[pre[v]];
          assert TreeArc(net, dis', pre', v);
        }
      }
    }
  }

  /**
   * From (ds0, ps0) to (ds, ps) no distance went up, and a predecessor changed only
   * together with a strictly lower distance, to `u`: the write pattern of a scan of the
   * arcs of `u`.
   */
  ghost predicate Lowered(ds0: seq<int>, ps0: seq<int>, ds: seq<int>, ps: seq<int>, u: int)
  {
    |ds| == |ds0| && |ps| == |ds0| && |ps0| == |ds0| &&
    forall v :: 0 <= v < |ds0| ==>
      ds[v] <= ds0[v] && (ds[v] < ds0[v] ==> ps[v] == u) && (ds[v] == ds0[v] ==> ps[v] == ps0[v])
  }

  /** One more improving write through an arc of `u` keeps the pattern. */
  lemma LoweredStep(ds0: seq<int>, ps0: seq<int>, ds: seq<int>, ps: seq<int>, u: int, t: int, temp: int)
    requires Lowered(ds0, ps0, ds, ps, u) && 0 <= t < |ds| && temp < ds[t]
    ensures Lowered(ds0, ps0, ds[t := temp], ps[t := u], u)
  {
  }

  /** Every arc leaving `u` satisfies the triangle inequality dis[to] <= dis[u] + length. */
  ghost predicate ArcsRelaxed(net: seq<seq<Arc>>, dis: seq<int>, u: int)
    requires 0 <= u < |net| && u < |dis|
  {
    forall k :: 0 <= k < |net[u]| ==>
      0 <= net[u][k].to < |dis| && dis[net[u][k].to] <= dis[u] + net[u][k].arcLength
  }

  /** Every node whose distance is at most `bound` has all its arcs relaxed. */
  ghost predicate TriangleUpTo(net: seq<seq<Arc>>, dis: seq<int>, bound: int)
    requires |net| == |dis|
  {
    forall u :: 0 <= u < |dis| && dis[u] <= bound ==> ArcsRelaxed(net, dis, u)
  }

  /** No walk from `src` whose prefixes all stay within `bound` is shorter than the recorded distance. */
  ghost predicate ShortestUpTo(net: seq<seq<Arc>>, src: int, dis: seq<int>, bound: int)
  {
    forall v, w :: 0 <= v < |dis| && IsWalk(net, src, v, w) && PrefixesAtMost(w, bound) ==>
      dis[v] <= PathLength(w)
  }

  lemma {:induction false} WalkBound(net: seq<seq<Arc>>, src: int, dis: seq<int>, bound: int, t: int, w: seq<Arc>)
    requires ValidNetwork(net, |dis| - 1) && 0 <= src < |dis| && dis[src] <= 0
    requires TriangleUpTo(net, dis, bound)
    requires IsWalk(net, src, t, w) && PrefixesAtMost(w, bound)
    ensures 0 <= t < |dis| && dis[t] <= PathLength(w)
    decreases |w|
  {
    if w != [] {
      var w', a := w[..|w| - 1], w[|w| - 1];
      WalkBound(net, src, dis, bound, a.from, w');
      var k :| 0 <= k < |net[a.from]| && net[a.from][k] == a;
      assert ArcsRelaxed(net, dis, a.from);
    }
  }

  /**
   * A state in which the source's distance is at most 0 and every node within `bound`
   * has its arcs relaxed gives, to every node, a distance no larger than the length of
   * any walk from the source that stays within `bound`.
   */
  lemma TriangleGivesShortest(net: seq<seq<Arc>>, n: int, src: int, dis: seq<int>, bound: int)
    requires ValidNetwork(net, n) && |dis| == n + 1 && 0 <= src <= n && dis[src] <= 0
    requires TriangleUpTo(net, dis, bound)
    ensures ShortestUpTo(net, src, dis, bound)
  {
    forall v, w | 0 <= v < |dis| && IsWalk(net, src, v, w) && PrefixesAtMost(w, bound)
      ensures dis[v] <= PathLength(w)
    {
      WalkBound(net, src, dis, bound, v, w);
    }
  }

  /**
   * With no negative arc the prefix condition drops out: no walk from `src` of length at
   * most `bound` is shorter than the recorded distance.
   */
  lemma NonNegativeShortest(net: seq<seq<Arc>>, src: int, dis: seq<int>, bound: int)
    requires NonNegative(net) && ShortestUpTo(net, src, dis, bound)
    ensures forall v, w :: 0 <= v < |dis| && IsWalk(net, src, v, w) && PathLength(w) <= bound ==>
      dis[v] <= PathLength(w)
  {
    forall v, w | 0 <= v < |dis| && IsWalk(net, src, v, w) && PathLength(w) <= bound
      ensures dis[v] <= PathLength(w)
    {
      NonNegativePrefixes(net, src, v, w, bound);
    }
  }
}
