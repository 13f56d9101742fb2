/**
 * The invariant of the two label-correcting engines (FIFO queue and deque): every
 * reached node that is not waiting in the queue has all its arcs relaxed. When the
 * queue runs empty, that is the triangle inequality for every reached node.
 */
module LabelCorrecting {
  import opened Graph
  import opened Labels

  /** Every queued node is a node of the graph with a finite distance. */
  ghost predicate QueuedReached(n: int, dis: seq<int>, q: seq<int>)
    requires |dis| == n + 1
  {
    forall i :: 0 <= i < |q| ==> 0 <= q[i] <= n && dis[q[i]] < INF
  }

  /** Between two pops: labels hold, and a reached node outside the queue has its arcs relaxed. */
  ghost predicate QueueInv(net: seq<seq<Arc>>, n: int, src: int, dis: seq<int>, pre: seq<int>, q: seq<int>)
  {
    ValidNetwork(net, n) && Labelled(net, n, src, dis, pre, -1) && QueuedReached(n, dis, q) &&
    forall u :: 0 <= u <= n && dis[u] < INF && u !in q ==> ArcsRelaxed(net, dis, u)
  }

  /** A reached node other than `cur` that is not queued has its arcs relaxed. */
  ghost predicate RelaxedOutside(net: seq<seq<Arc>>, n: int, dis: seq<int>, q: seq<int>, cur: int)
    requires |net| == n + 1 && |dis| == n + 1
  {
    forall u :: 0 <= u <= n && dis[u] < INF && u !in q && u != cur ==> ArcsRelaxed(net, dis, u)
  }

  /** The first `j` arcs of `cur` are relaxed, unless `cur` went back into the queue. */
  ghost predicate ScannedPrefix(net: seq<seq<Arc>>, dis: seq<int>, q: seq<int>, cur: int, j: int)
    requires 0 <= cur < |net| && 0 <= cur < |dis| && 0 <= j <= |net[cur]|
    requires forall k :: 0 <= k < j ==> 0 <= net[cur][k].to < |dis|
  {
    cur !in q ==> forall k :: 0 <= k < j ==> dis[net[cur][k].to] <= dis[cur] + net[cur][k].arcLength
  }

  /**
   * While the arcs of the popped node `cur` are scanned: the first `j` of them are
   * relaxed unless `cur` went back into the queue.
   */
  ghost predicate ScanInv(net: seq<seq<Arc>>, n: int, src: int, dis: seq<int>, pre: seq<int>, q: seq<int>, cur: int, j: int)
  {
    ValidNetwork(net, n) && Labelled(net, n, src, dis, pre, -1) && QueuedReached(n, dis, q) &&
    0 <= cur <= n && dis[cur] < INF && 0 <= j <= |net[cur]| &&
    RelaxedOutside(net, n, dis, q, cur) && ScannedPrefix(net, dis, q, cur, j)
  }

  /** The queue holding only the source, right after `reset` and the source's start-up. */
  lemma StartQueueInv(net: seq<seq<Arc>>, n: int, src: int, dis: seq<int>, pre: seq<int>)
    requires ValidNetwork(net, n) && 0 <= src <= n && |dis| == n + 1 && |pre| == n + 1
    requires forall v :: 0 <= v <= n && v != src ==> dis[v] == INF && pre[v] == -1
    requires dis[src] == 0 && pre[src] == -1
    ensures QueueInv(net, n, src, dis, pre, [src])
  {
    StartIsLabelled(net, n, src, dis, pre, -1);
  }

  /** Popping the front node starts the scan of its arcs. */
  lemma PopStep(net: seq<seq<Arc>>, n: int, src: int, dis: seq<int>, pre: seq<int>, q: seq<int>)
    requires QueueInv(net, n, src, dis, pre, q) && q != []
    ensures ScanInv(net, n, src, dis, pre, q[1..], q[0], 0)
  {
    forall u | 0 <= u <= n && dis[u] < INF && u !in q[1..] && u != q[0]
      ensures ArcsRelaxed(net, dis, u)
    {
      assert u !in q;
    }
  }

  /**
   * Arc j of `cur` improves its destination: the new distance and predecessor are
   * written and the destination is put into the queue, at either end (`q'`).
   */
  lemma ImproveStep(net: seq<seq<Arc>>, n: int, src: int, dis: seq<int>, pre: seq<int>, q: seq<int>,
                    cur: int, j: int, t: int, temp: int, q': seq<int>)
    requires ScanInv(net, n, src, dis, pre, q, cur, j) && j < |net[cur]|
    requires t == net[cur][j].to && temp == dis[cur] + net[cur][j].arcLength && temp < dis[t]
    requires q' == [t] + q || q' == q + [t]
    ensures ScanInv(net, n, src, dis[t := temp], pre[t := cur], q', cur, j + 1)
  {
    RelaxKeepsLabels(net, n, src, dis, pre, -1, cur, j);
    assert NodeLabelled(net, src, dis, pre, -1, t);
    ImproveKeepsQueued(n, dis, q, t, temp, q');
    ImproveKeepsRelaxed(net, n, dis, q, cur, j, t, temp, q');
  }

  lemma ImproveKeepsQueued(n: int, dis: seq<int>, q: seq<int>, t: int, x: int, q': seq<int>)
    requires |dis| == n + 1 && QueuedReached(n, dis, q) && 0 <= t <= n && x < INF
    requires q' == [t] + q || q' == q + [t]
    ensures QueuedReached(n, dis[t := x], q')
  {
    forall i | 0 <= i < |q'| ensures 0 <= q'[i] <= n && dis[t := x][q'[i]] < INF {
      if q' == [t] + q {
        if i > 0 { assert q'[i] == q[i - 1]; }
      } else {
        if i < |q| { assert q'[i] == q[i]; }
      }
    }
  }

  lemma ImproveKeepsRelaxed(net: seq<seq<Arc>>, n: int, dis: seq<int>, q: seq<int>, cur: int, j: int,
                            t: int, temp: int, q': seq<int>)
    requires ValidNetwork(net, n) && |dis| == n + 1 && 0 <= cur <= n && 0 <= j < |net[cur]|
    requires RelaxedOutside(net, n, dis, q, cur) && ScannedPrefix(net, dis, q, cur, j)
    requires t == net[cur][j].to && temp == dis[cur] + net[cur][j].arcLength && temp < dis[t]
    requires q' == [t] + q || q' == q + [t]
    ensures RelaxedOutside(net, n, dis[t := temp], q', cur) && ScannedPrefix(net, dis[t := temp], q', cur, j + 1)
  {
    var dis' := dis[t := temp];
    assert forall x :: x in q' <==> x in q || x == t;
    forall u | 0 <= u <= n && dis'[u] < INF && u !in q' && u != cur
      ensures ArcsRelaxed(net, dis', u)
    {
      assert u !in q && u != t;
      assert ArcsRelaxed(net, dis, u);
    }
  }

  /** Arc j of `cur` does not improve its destination: nothing is written. */
  lemma KeepStep(net: seq<seq<Arc>>, n: int, src: int, dis: seq<int>, pre: seq<int>, q: seq<int>, cur: int, j: int)
    requires ScanInv(net, n, src, dis, pre, q, cur, j) && j < |net[cur]|
    requires dis[cur] + net[cur][j].arcLength >= dis[net[cur][j].to]
    ensures ScanInv(net, n, src, dis, pre, q, cur, j + 1)
  {
  }

  /** All arcs of `cur` scanned: back to the between-pops invariant. */
  lemma ScanDone(net: seq<seq<Arc>>, n: int, src: int, dis: seq<int>, pre: seq<int>, q: seq<int>, cur: int)
    requires 0 <= cur < |net| && ScanInv(net, n, src, dis, pre, q, cur, |net[cur]|)
    ensures QueueInv(net, n, src, dis, pre, q)
  {
  }

  /**
   * An empty queue means every reached node has its arcs relaxed, so no walk from the
   * source whose prefixes stay below INF is shorter than the recorded distance.
   */
  lemma EmptyQueueShortest(net: seq<seq<Arc>>, n: int, src: int, dis: seq<int>, pre: seq<int>)
    requires QueueInv(net, n, src, dis, pre, [])
    ensures dis[src] <= 0
    ensures ShortestUpTo(net, src, dis, INF - 1)
  {
    TriangleGivesShortest(net, n, src, dis, INF - 1);
  }

  /**
   * The deque engine's marks: `upd[v]` is set exactly for the source and the nodes that
   * have a predecessor, and `appended`, the nodes pushed at the back in push order, lists
   * each node other than the source that has a predecessor, once.
   */
  ghost predicate UpdatedMarks(n: int, src: int, pre: seq<int>, upd: seq<bool>, appended: seq<int>)
  {
    |pre| == n + 1 && |upd| == n + 1 &&
    (forall v :: 0 <= v <= n ==> (upd[v] <==> v == src || pre[v] != -1)) &&
    (forall v :: v in appended <==> 0 <= v <= n && v != src && pre[v] != -1) &&
    (forall i, j :: 0 <= i < j < |appended| ==> appended[i] != appended[j])
  }

  /** Only the source marked, no node with a predecessor, nothing appended. */
  lemma StartMarks(n: int, src: int, pre: seq<int>, upd: seq<bool>)
    requires |pre| == n + 1 && |upd| == n + 1
    requires forall v :: 0 <= v <= n ==> pre[v] == -1 && (upd[v] <==> v == src)
    ensures UpdatedMarks(n, src, pre, upd, [])
  {
  }

  /** Giving `des` a predecessor keeps the marks, once `des` is marked and appended if it was not marked. */
  lemma MarkStep(n: int, src: int, pre: seq<int>, upd: seq<bool>, appended: seq<int>, des: int, cur: int)
    requires UpdatedMarks(n, src, pre, upd, appended) && 0 <= des <= n && 0 <= cur
    ensures upd[des] ==> UpdatedMarks(n, src, pre[des := cur], upd, appended)
    ensures !upd[des] ==> UpdatedMarks(n, src, pre[des := cur], upd[des := true], appended + [des])
  {
    if !upd[des] {
      assert des !in appended;
    }
  }

  /**
   * What the FIFO engine's scan of the arcs of `cur` did, from (ds0, ps0, q0) to
   * (ds, ps, q): distances only went down, each with its predecessor set to `cur`; `q0`
   * is still the front of the queue; every node after it was improved by the scan; and
   * every node the scan improved is after it.
   */
  ghost predicate FifoScanned(n: int, cur: int, ds0: seq<int>, ps0: seq<int>, q0: seq<int>,
                              ds: seq<int>, ps: seq<int>, q: seq<int>)
  {
    |ds0| == n + 1 && Lowered(ds0, ps0, ds, ps, cur) &&
    |q0| <= |q| && q[..|q0|] == q0 &&
    (forall i :: |q0| <= i < |q| ==> 0 <= q[i] <= n && ds[q[i]] < ds0[q[i]]) &&
    (forall v :: 0 <= v <= n && ds[v] < ds0[v] ==> v in q[|q0|..])
  }

  /** Before the first arc nothing has been written or appended. */
  lemma FifoScannedStart(n: int, cur: int, ds0: seq<int>, ps0: seq<int>, q0: seq<int>)
    requires |ds0| == n + 1 && |ps0| == n + 1
    ensures FifoScanned(n, cur, ds0, ps0, q0, ds0, ps0, q0)
  {
    assert q0[..|q0|] == q0;
  }

  /** An improvement of `t` to `temp` through an arc of `cur`, and `t` appended. */
  lemma FifoScannedStep(n: int, cur: int, ds0: seq<int>, ps0: seq<int>, q0: seq<int>,
                        ds: seq<int>, ps: seq<int>, q: seq<int>, t: int, temp: int)
    requires FifoScanned(n, cur, ds0, ps0, q0, ds, ps, q) && 0 <= t <= n && temp < ds[t]
    ensures FifoScanned(n, cur, ds0, ps0, q0, ds[t := temp], ps[t := cur], q + [t])
  {
    LoweredStep(ds0, ps0, ds, ps, cur, t, temp);
    assert (q + [t])[..|q0|] == q[..|q0|];
    assert (q + [t])[|q0|..] == q[|q0|..] + [t];
  }

  /** Every arc of `adj` ends at a node below `bound`. */
  predicate HeadsBelow(adj: seq<Arc>, bound: int)
  {
    forall k :: 0 <= k < |adj| ==> 0 <= adj[k].to < bound
  }

  /** The labels and the queue while the FIFO engine scans the arcs of one node. */
  datatype FifoState = FifoState(ds: seq<int>, ps: seq<int>, q: seq<int>)

  /**
   * One arc `a` of `cur` in the FIFO engine's scan: when it improves its head, the head's
   * distance and predecessor are written and the head is appended to the queue once more.
   */
  function FifoArc(s: FifoState, cur: int, a: Arc): (r: FifoState)
    requires 0 <= cur < |s.ds| && |s.ps| == |s.ds| && 0 <= a.to < |s.ds|
    ensures |r.ds| == |s.ds| && |r.ps| == |s.ds| && |s.q| <= |r.q| <= |s.q| + 1
  {
    var t, temp := a.to, s.ds[cur] + a.arcLength;
    if temp < s.ds[t] then FifoState(s.ds[t := temp], s.ps[t := cur], s.q + [t]) else s
  }

  /**
   * The FIFO engine's scan of the first `j` arcs of `adj`, the list of `cur`, from the
   * state `s0`; the distance of `cur` is read afresh at every arc.
   */
  function FifoRun(adj: seq<Arc>, cur: int, s0: FifoState, j: nat): (r: FifoState)
    requires j <= |adj| && 0 <= cur < |s0.ds| && |s0.ps| == |s0.ds| && HeadsBelow(adj, |s0.ds|)
    ensures |r.ds| == |s0.ds| && |r.ps| == |s0.ds| && |s0.q| <= |r.q| <= |s0.q| + j
  {
    if j == 0 then s0 else FifoArc(FifoRun(adj, cur, s0, j - 1), cur, adj[j - 1])
  }

  /** One arc keeps `FifoScanned`. */
  lemma FifoArcScanned(n: int, cur: int, ds0: seq<int>, ps0: seq<int>, q0: seq<int>, s: FifoState, a: Arc)
    requires 0 <= cur <= n && 0 <= a.to <= n && |s.ds| == n + 1 && |s.ps| == n + 1
    requires FifoScanned(n, cur, ds0, ps0, q0, s.ds, s.ps, s.q)
    ensures var r := FifoArc(s, cur, a); FifoScanned(n, cur, ds0, ps0, q0, r.ds, r.ps, r.q)
  {
    var t, temp := a.to, s.ds[cur] + a.arcLength;
    if temp < s.ds[t] {
      FifoScannedStep(n, cur, ds0, ps0, q0, s.ds, s.ps, s.q, t, temp);
    }
  }

  /** The run meets `FifoScanned`: one append per improving arc gives exactly the improved nodes. */
  lemma {:induction false} FifoRunScanned(adj: seq<Arc>, n: int, cur: int, ds0: seq<int>, ps0: seq<int>,
                                          q0: seq<int>, j: nat)
    requires j <= |adj| && 0 <= cur <= n && |ds0| == n + 1 && |ps0| == n + 1 && HeadsBelow(adj, n + 1)
    ensures var r := FifoRun(adj, cur, FifoState(ds0, ps0, q0), j); FifoScanned(n, cur, ds0, ps0, q0, r.ds, r.ps, r.q)
  {
    if j == 0 {
      FifoScannedStart(n, cur, ds0, ps0, q0);
    } else {
      FifoRunScanned(adj, n, cur, ds0, ps0, q0, j - 1);
      FifoArcScanned(n, cur, ds0, ps0, q0, FifoRun(adj, cur, FifoState(ds0, ps0, q0), j - 1), adj[j - 1]);
    }
  }

  /**
   * What the deque engine's scan of the arcs of `cur` did: distances only went down, each
   * with its predecessor set to `cur`; the deque is `front + q0 + back`, where `back`,
   * the nodes appended by the scan, were unmarked before it and are exactly the nodes it
   * marked; every node of `front` was marked when pushed; every node of `front` or `back`
   * was improved by the scan, and every node it improved is in one of them.
   */
  ghost predicate DequeScanned(n: int, cur: int, ds0: seq<int>, ps0: seq<int>, q0: seq<int>, upd0: seq<bool>,
                               app0: seq<int>, ds: seq<int>, ps: seq<int>, q: seq<int>, upd: seq<bool>,
                               app: seq<int>, front: seq<int>)
  {
    |ds0| == n + 1 && |upd0| == n + 1 && |upd| == n + 1 && Lowered(ds0, ps0, ds, ps, cur) &&
    |app0| <= |app| && app[..|app0|] == app0 && q == front + q0 + app[|app0|..] &&
    (forall i :: 0 <= i < |front| ==> 0 <= front[i] <= n && ds[front[i]] < ds0[front[i]] && upd[front[i]]) &&
    (forall i :: |app0| <= i < |app| ==> 0 <= app[i] <= n && ds[app[i]] < ds0[app[i]] && !upd0[app[i]]) &&
    (forall v :: 0 <= v <= n ==> (upd[v] <==> upd0[v] || v in app[|app0|..])) &&
    (forall v :: 0 <= v <= n && ds[v] < ds0[v] ==> v in front || v in app[|app0|..])
  }

  /** Before the first arc nothing has been written, pushed or marked. */
  lemma DequeScannedStart(n: int, cur: int, ds0: seq<int>, ps0: seq<int>, q0: seq<int>, upd0: seq<bool>, app0: seq<int>)
    requires |ds0| == n + 1 && |ps0| == n + 1 && |upd0| == n + 1
    ensures DequeScanned(n, cur, ds0, ps0, q0, upd0, app0, ds0, ps0, q0, upd0, app0, [])
  {
    assert app0[..|app0|] == app0 && app0[|app0|..] == [];
    assert [] + q0 + [] == q0;
  }

  /** An improvement of a marked node `t`, pushed at the front. */
  lemma DequeScannedFront(n: int, cur: int, ds0: seq<int>, ps0: seq<int>, q0: seq<int>, upd0: seq<bool>,
                          app0: seq<int>, ds: seq<int>, ps: seq<int>, q: seq<int>, upd: seq<bool>,
                          app: seq<int>, front: seq<int>, t: int, temp: int)
    requires DequeScanned(n, cur, ds0, ps0, q0, upd0, app0, ds, ps, q, upd, app, front)
    requires 0 <= t <= n && temp < ds[t] && upd[t]
    ensures DequeScanned(n, cur, ds0, ps0, q0, upd0, app0, ds[t := temp], ps[t := cur], [t] + q, upd, app, [t] + front)
  {
    LoweredStep(ds0, ps0, ds, ps, cur, t, temp);
    assert [t] + q == ([t] + front) + q0 + app[|app0|..];
  }

  /** An improvement of an unmarked node `t`, pushed at the back and marked. */
  lemma DequeScannedBack(n: int, cur: int, ds0: seq<int>, ps0: seq<int>, q0: seq<int>, upd0: seq<bool>,
                         app0: seq<int>, ds: seq<int>, ps: seq<int>, q: seq<int>, upd: seq<bool>,
                         app: seq<int>, front: seq<int>, t: int, temp: int)
    requires DequeScanned(n, cur, ds0, ps0, q0, upd0, app0, ds, ps, q, upd, app, front)
    requires 0 <= t <= n && temp < ds[t] && !upd[t]
    ensures DequeScanned(n, cur, ds0, ps0, q0, upd0, app0, ds[t := temp], ps[t := cur], q + [t],
                         upd[t := true], app + [t], front)
  {
    LoweredStep(ds0, ps0, ds, ps, cur, t, temp);
    assert (app + [t])[..|app0|] == app[..|app0|];
    assert (app + [t])[|app0|..] == app[|app0|..] + [t];
    assert q + [t] == front + q0 + (app + [t])[|app0|..];
  }

  /**
   * The labels, the marks and the deque while the deque engine scans the arcs of one
   * node; `app` lists the nodes ever pushed at the back, and `front` those this scan
   * pushed at the front, most recent first.
   */
  datatype DequeState = DequeState(ds: seq<int>, ps: seq<int>, upd: seq<bool>, dq: seq<int>, app: seq<int>,
                                   front: seq<int>)

  /**
   * One arc `a` of `cur` in the deque engine's scan: when it improves its head, the head's
   * distance and predecessor are written, then the head is pushed at the front when it is
   * marked, or at the back, and marked, when it is not.
   */
  function DequeArc(s: DequeState, cur: int, a: Arc): (r: DequeState)
    requires 0 <= cur < |s.ds| && |s.ps| == |s.ds| && |s.upd| == |s.ds| && 0 <= a.to < |s.ds|
    ensures |r.ds| == |s.ds| && |r.ps| == |s.ds| && |r.upd| == |s.ds| && |s.dq| <= |r.dq| <= |s.dq| + 1
  {
    var t, temp := a.to, s.ds[cur] + a.arcLength;
    if temp >= s.ds[t] then s
    else if s.upd[t] then DequeState(s.ds[t := temp], s.ps[t := cur], s.upd, [t] + s.dq, s.app, [t] + s.front)
    else DequeState(s.ds[t := temp], s.ps[t := cur], s.upd[t := true], s.dq + [t], s.app + [t], s.front)
  }

  /** The deque engine's scan of the first `j` arcs of `adj`, the list of `cur`, from the state `s0`. */
  function DequeRun(adj: seq<Arc>, cur: int, s0: DequeState, j: nat): (r: DequeState)
    requires j <= |adj| && 0 <= cur < |s0.ds| && |s0.ps| == |s0.ds| && |s0.upd| == |s0.ds| && HeadsBelow(adj, |s0.ds|)
    ensures |r.ds| == |s0.ds| && |r.ps| == |s0.ds| && |r.upd| == |s0.ds| && |s0.dq| <= |r.dq| <= |s0.dq| + j
  {
    if j == 0 then s0 else DequeArc(DequeRun(adj, cur, s0, j - 1), cur, adj[j - 1])
  }

  /** One arc keeps `DequeScanned`. */
  lemma DequeArcScanned(n: int, cur: int, ds0: seq<int>, ps0: seq<int>, q0: seq<int>, upd0: seq<bool>,
                        app0: seq<int>, s: DequeState, a: Arc)
    requires 0 <= cur <= n && 0 <= a.to <= n && |s.ds| == n + 1 && |s.ps| == n + 1 && |s.upd| == n + 1
    requires DequeScanned(n, cur, ds0, ps0, q0, upd0, app0, s.ds, s.ps, s.dq, s.upd, s.app, s.front)
    ensures var r := DequeArc(s, cur, a); DequeScanned(n, cur, ds0, ps0, q0, upd0, app0, r.ds, r.ps, r.dq, r.upd, r.app, r.front)
  {
    var t, temp := a.to, s.ds[cur] + a.arcLength;
    if temp < s.ds[t] {
      if s.upd[t] {
        DequeScannedFront(n, cur, ds0, ps0, q0, upd0, app0, s.ds, s.ps, s.dq, s.upd, s.app, s.front, t, temp);
      } else {
        DequeScannedBack(n, cur, ds0, ps0, q0, upd0, app0, s.ds, s.ps, s.dq, s.upd, s.app, s.front, t, temp);
      }
    }
  }

  /** The run meets `DequeScanned`. */
  lemma {:induction false} DequeRunScanned(adj: seq<Arc>, n: int, cur: int, ds0: seq<int>, ps0: seq<int>,
                                           q0: seq<int>, upd0: seq<bool>, app0: seq<int>, j: nat)
    requires j <= |adj| && 0 <= cur <= n && |ds0| == n + 1 && |ps0| == n + 1 && |upd0| == n + 1
    requires HeadsBelow(adj, n + 1)
    ensures var r := DequeRun(adj, cur, DequeState(ds0, ps0, upd0, q0, app0, []), j);
      DequeScanned(n, cur, ds0, ps0, q0, upd0, app0, r.ds, r.ps, r.dq, r.upd, r.app, r.front)
  {
    var s0 := DequeState(ds0, ps0, upd0, q0, app0, []);
    if j == 0 {
      DequeScannedStart(n, cur, ds0, ps0, q0, upd0, app0);
    } else {
      DequeRunScanned(adj, n, cur, ds0, ps0, q0, upd0, app0, j - 1);
      DequeArcScanned(n, cur, ds0, ps0, q0, upd0, app0, DequeRun(adj, cur, s0, j - 1), adj[j - 1]);
    }
  }
}
