/** Arcs, adjacency lists, walks and arc counts shared by every shortest-path engine. */
module Graph {

  /** Distance of a node that no run has reached. */
  const INF: int := 0x3f3f3f3f

  /** A directed arc `from -> to` of length `arcLength`. */
  datatype Arc = Arc(from: int, to: int, arcLength: int)

  /** A priority-queue entry: a node and the tentative distance it was pushed with. */
  datatype Node = Node(index: int, dis: int)

  /** Adjacency lists for the nodes 0..n: list u holds only arcs leaving u, towards nodes in 0..n. */
  ghost predicate ValidNetwork(net: seq<seq<Arc>>, n: int)
  {
    |net| == n + 1 &&
    forall u, k :: 0 <= u < |net| && 0 <= k < |net[u]| ==> net[u][k].from == u && 0 <= net[u][k].to <= n
  }

  ghost predicate NonNegative(net: seq<seq<Arc>>)
  {
    forall u, k :: 0 <= u < |net| && 0 <= k < |net[u]| ==> net[u][k].arcLength >= 0
  }

  ghost predicate InNetwork(net: seq<seq<Arc>>, a: Arc)
  {
    0 <= a.from < |net| && a in net[a.from]
  }

  /** `w` is a walk from `s` to `t`: arcs of the network, each leaving the node the previous one enters. */
  ghost predicate IsWalk(net: seq<seq<Arc>>, s: int, t: int, w: seq<Arc>)
    decreases |w|
  {
    if w == [] then s == t
    else
      var a := w[|w| - 1];
      InNetwork(net, a) && a.to == t && IsWalk(net, s, a.from, w[..|w| - 1])
  }

  function PathLength(w: seq<Arc>): int
  {
    if w == [] then 0 else PathLength(w[..|w| - 1]) + w[|w| - 1].arcLength
  }

  /** Every prefix of `w`, the empty one and `w` itself included, is at most `bound` long. */
  ghost predicate PrefixesAtMost(w: seq<Arc>, bound: int)
  {
    PathLength(w) <= bound && (w != [] ==> PrefixesAtMost(w[..|w| - 1], bound))
  }

  /** Some walk from `s` to `t` has length exactly `len`. */
  ghost predicate WalkOfLength(net: seq<seq<Arc>>, s: int, t: int, len: int)
  {
    exists w :: IsWalk(net, s, t, w) && PathLength(w) == len
  }

  lemma WalkExtend(net: seq<seq<Arc>>, s: int, w: seq<Arc>, a: Arc)
    requires IsWalk(net, s, a.from, w) && InNetwork(net, a)
    ensures IsWalk(net, s, a.to, w + [a])
    ensures PathLength(w + [a]) == PathLength(w) + a.arcLength
  {
    assert (w + [a])[..|w|] == w;
  }

  /** With no negative arc, a walk no longer than `bound` has no prefix longer than `bound`. */
  lemma {:induction false} NonNegativePrefixes(net: seq<seq<Arc>>, s: int, t: int, w: seq<Arc>, bound: int)
    requires NonNegative(net) && IsWalk(net, s, t, w) && PathLength(w) <= bound
    ensures PrefixesAtMost(w, bound)
    decreases |w|
  {
    if w != [] {
      var a := w[|w| - 1];
      var k :| 0 <= k < |net[a.from]| && net[a.from][k] == a;
      NonNegativePrefixes(net, s, a.from, w[..|w| - 1], bound);
    }
  }

  /** Number of arcs in all the lists. */
  function ArcCount(net: seq<seq<Arc>>): nat
  {
    if net == [] then 0 else ArcCount(net[..|net| - 1]) + |net[|net| - 1]|
  }

  /** Number of arcs in the lists whose node is marked. */
  function MarkedArcs(net: seq<seq<Arc>>, marked: seq<bool>): nat
    requires |marked| == |net|
  {
    if net == [] then 0
    else MarkedArcs(net[..|net| - 1], marked[..|net| - 1]) + (if marked[|net| - 1] then |net[|net| - 1]| else 0)
  }

  /** Marking one more node adds exactly the length of its list. */
  lemma {:induction false} MarkedArcsMark(net: seq<seq<Arc>>, marked: seq<bool>, u: int)
    requires |marked| == |net| && 0 <= u < |net| && !marked[u]
    ensures MarkedArcs(net, marked[u := true]) == MarkedArcs(net, marked) + |net[u]|
    decreases |net|
  {
    var m := marked[u := true];
    var last := |net| - 1;
    if u < last {
      assert m[..last] == marked[..last][u := true];
      MarkedArcsMark(net[..last], marked[..last], u);
    } else {
      assert m[..last] == marked[..last];
    }
  }

  lemma {:induction false} MarkedArcsAtMost(net: seq<seq<Arc>>, marked: seq<bool>)
    requires |marked| == |net|
    ensures MarkedArcs(net, marked) <= ArcCount(net)
    decreases |net|
  {
    if net != [] {
      MarkedArcsAtMost(net[..|net| - 1], marked[..|net| - 1]);
    }
  }

  lemma {:induction false} MarkedArcsNone(net: seq<seq<Arc>>, marked: seq<bool>)
    requires |marked| == |net| && forall i :: 0 <= i < |marked| ==> !marked[i]
    ensures MarkedArcs(net, marked) == 0
    decreases |net|
  {
    if net != [] {
      MarkedArcsNone(net[..|net| - 1], marked[..|net| - 1]);
    }
  }

  /** Whether `v` is a node of `vis` that is not marked. */
  predicate Unmarked(vis: seq<bool>, v: int)
  {
    0 <= v < |vis| && !vis[v]
  }

  /** Number of arcs among the first `j` of `arcs` whose head is an unmarked node of `vis`. */
  function UnvisitedTargets(arcs: seq<Arc>, vis: seq<bool>, j: nat): (r: nat)
    requires j <= |arcs|
    ensures r <= j
  {
    if j == 0 then 0
    else UnvisitedTargets(arcs, vis, j - 1) + (if Unmarked(vis, arcs[j - 1].to) then 1 else 0)
  }

  /** Counting arc `j` too adds one exactly when its head `t` is unmarked. */
  lemma UnvisitedTargetsStep(arcs: seq<Arc>, vis: seq<bool>, j: nat, t: int)
    requires j < |arcs| && t == arcs[j].to && 0 <= t < |vis|
    ensures UnvisitedTargets(arcs, vis, j + 1) == UnvisitedTargets(arcs, vis, j) + (if vis[t] then 0 else 1)
  {
  }

  /** Among the first `j` arcs, every one is counted exactly when no head is marked, and none exactly when every head is. */
  lemma {:induction false} UnvisitedTargetsExtremes(arcs: seq<Arc>, vis: seq<bool>, j: nat)
    requires j <= |arcs| && forall k :: 0 <= k < |arcs| ==> 0 <= arcs[k].to < |vis|
    ensures UnvisitedTargets(arcs, vis, j) == j <==> forall k :: 0 <= k < j ==> !vis[arcs[k].to]
    ensures UnvisitedTargets(arcs, vis, j) == 0 <==> forall k :: 0 <= k < j ==> vis[arcs[k].to]
  {
    if j > 0 {
      UnvisitedTargetsExtremes(arcs, vis, j - 1);
    }
  }

  /** Number of arcs scanned when the lists of the nodes of `order` are scanned one after another. */
  function ScannedArcs(net: seq<seq<Arc>>, order: seq<int>): nat
    requires forall i :: 0 <= i < |order| ==> 0 <= order[i] < |net|
  {
    if order == [] then 0 else ScannedArcs(net, order[..|order| - 1]) + |net[order[|order| - 1]]|
  }

  /** Scanning one more node adds the length of its list. */
  lemma ScannedArcsSnoc(net: seq<seq<Arc>>, order: seq<int>, u: int)
    requires forall i :: 0 <= i < |order| ==> 0 <= order[i] < |net|
    requires 0 <= u < |net|
    ensures forall i :: 0 <= i < |order + [u]| ==> 0 <= (order + [u])[i] < |net|
    ensures ScannedArcs(net, order + [u]) == ScannedArcs(net, order) + |net[u]|
  {
    assert (order + [u])[..|order|] == order;
  }
}
