/**
 * The graph builder: the arc comparator handed to the sort, and the one-pass scan that
 * drops an arc whose (from, to) pair equals the one of the arc appended just before it.
 */
module GraphBuilder {
  import opened Graph

  /** The comparator as written: within one `from`, it compares lengths only when `to` increases. */
  function ArcCmp(a1: Arc, a2: Arc): (r: bool)
    ensures a1.from < a2.from ==> r
    ensures a2.from < a1.from ==> !r
    ensures a1.from == a2.from ==> (r <==> a1.to < a2.to && a1.arcLength < a2.arcLength)
  {
    if a1.from == a2.from then
      if a1.to < a2.to then a1.arcLength < a2.arcLength else a1.to < a2.to
    else a1.from < a2.from
  }

  /** Two arcs with the same (from, to) pair are incomparable whatever their lengths. */
  lemma ArcCmpIgnoresParallelLengths(a1: Arc, a2: Arc)
    requires a1.from == a2.from && a1.to == a2.to
    ensures !ArcCmp(a1, a2) && !ArcCmp(a2, a1)
  {
  }

  /**
   * ArcCmp is not a strict weak ordering: incomparability is not transitive
   * (x ~ y and y ~ z, yet x comes before z).
   */
  lemma ArcCmpIncomparabilityNotTransitive()
    ensures var x, y, z := Arc(1, 1, 1), Arc(1, 4, 0), Arc(1, 3, 2);
      !ArcCmp(x, y) && !ArcCmp(y, x) && !ArcCmp(y, z) && !ArcCmp(z, y) && ArcCmp(x, z)
  {
  }

  /** `s` is in an order a sort with comparator `ArcCmp` may leave: no later arc comes before an earlier one. */
  ghost predicate SortedByArcCmp(s: seq<Arc>)
  {
    forall i, j :: 0 <= i < j < |s| ==> !ArcCmp(s[j], s[i])
  }

  /** The evidently intended comparator: lexicographic on (from, to, arcLength). */
  function ArcLess(a1: Arc, a2: Arc): (r: bool)
  {
    a1.from < a2.from ||
    (a1.from == a2.from && (a1.to < a2.to || (a1.to == a2.to && a1.arcLength < a2.arcLength)))
  }

  /** ArcLess is a strict total order on arcs, so a sort with it is well defined. */
  lemma ArcLessStrictTotalOrder(a: Arc, b: Arc, c: Arc)
    ensures !ArcLess(a, a)
    ensures ArcLess(a, b) && ArcLess(b, c) ==> ArcLess(a, c)
    ensures ArcLess(a, b) ==> !ArcLess(b, a)
    ensures !ArcLess(a, b) && !ArcLess(b, a) ==> a == b
  {
  }

  ghost predicate SortedByArcLess(s: seq<Arc>)
  {
    forall i, j :: 0 <= i < j < |s| ==> !ArcLess(s[j], s[i])
  }

  predicate SameKey(a: Arc, b: Arc)
  {
    a.from == b.from && a.to == b.to
  }

  /** (from, to) of `a` strictly before that of `b`, lexicographically. */
  predicate KeyBefore(a: Arc, b: Arc)
  {
    a.from < b.from || (a.from == b.from && a.to < b.to)
  }

  /** The pair the scan compares against: the last appended arc's, or (-1, -1) before any. */
  function LastFrom(k: seq<Arc>): int
  {
    if k == [] then -1 else k[|k| - 1].from
  }

  function LastTo(k: seq<Arc>): int
  {
    if k == [] then -1 else k[|k| - 1].to
  }

  /**
   * The arcs the scan appends, in scan order: an arc is appended exactly when its
   * (from, to) pair differs from the pair of the last appended arc.
   */
  function Kept(s: seq<Arc>): (r: seq<Arc>)
    ensures |r| <= |s|
    ensures forall b :: b in r ==> b in s
    ensures forall i :: 0 < i < |r| ==> !SameKey(r[i - 1], r[i])
    decreases |s|
  {
    if s == [] then []
    else
      var k := Kept(s[..|s| - 1]);
      var a := s[|s| - 1];
      if a.from == LastFrom(k) && a.to == LastTo(k) then k else k + [a]
  }

  /** The arcs of `s` that leave `u`, in the order of `s`. */
  function OutOf(s: seq<Arc>, u: int): (r: seq<Arc>)
    ensures |r| <= |s|
    ensures forall b :: b in r ==> b in s && b.from == u
    decreases |s|
  {
    if s == [] then []
    else OutOf(s[..|s| - 1], u) + (if s[|s| - 1].from == u then [s[|s| - 1]] else [])
  }

  /** Conversely, every arc of `s` leaving `u` is in OutOf(s, u). */
  lemma {:induction false} OutOfComplete(s: seq<Arc>, u: int)
    ensures forall b :: b in s && b.from == u ==> b in OutOf(s, u)
    decreases |s|
  {
    if s != [] {
      var s' := s[..|s| - 1];
      OutOfComplete(s', u);
      assert forall b :: b in s ==> b in s' || b == s[|s| - 1];
    }
  }

  /**
   * The scan of `initial`: it visits the arcs in the order the sort left them and appends
   * each kept arc to the list of its `from` node.
   */
  method BuildNetwork(n: nat, ordered: seq<Arc>) returns (network: seq<seq<Arc>>)
    requires forall a :: a in ordered ==> 0 <= a.from <= n && 0 <= a.to <= n
    ensures |network| == n + 1
    ensures forall u :: 0 <= u <= n ==> network[u] == OutOf(Kept(ordered), u)
    ensures ValidNetwork(network, n)
  {
    network := seq(n + 1, _ => []);
    var preFrom, preTo := -1, -1;
    ghost var kept: seq<Arc> := [];
    for i := 0 to |ordered|
      invariant |network| == n + 1
      invariant kept == Kept(ordered[..i])
      invariant preFrom == LastFrom(kept) && preTo == LastTo(kept)
      invariant forall u :: 0 <= u <= n ==> network[u] == OutOf(kept, u)
    {
      var arc := ordered[i];
      assert ordered[..i + 1][..i] == ordered[..i];
      if arc.from == preFrom && arc.to == preTo {
        continue;
      } else {
        assert arc in ordered;
        AppendKeepsLists(n, network, kept, arc);
        network := network[arc.from := network[arc.from] + [arc]];
        preFrom := arc.from;
        preTo := arc.to;
        kept := kept + [arc];
      }
    }
    assert ordered[..|ordered|] == ordered;
    ListsValid(n, ordered, network);
  }

  /** Appending `a` to the list of `a.from` keeps each list the arcs of `kept + [a]` leaving its node. */
  lemma AppendKeepsLists(n: nat, network: seq<seq<Arc>>, kept: seq<Arc>, a: Arc)
    requires |network| == n + 1 && 0 <= a.from <= n
    requires forall u :: 0 <= u <= n ==> network[u] == OutOf(kept, u)
    ensures forall u :: 0 <= u <= n ==> network[a.from := network[a.from] + [a]][u] == OutOf(kept + [a], u)
  {
    forall u | 0 <= u <= n ensures network[a.from := network[a.from] + [a]][u] == OutOf(kept + [a], u) {
      OutOfAppend(kept, a, u);
    }
  }

  /** Lists of arcs of `ordered` leaving their node, with endpoints in 0..n, form a network on 0..n. */
  lemma ListsValid(n: nat, ordered: seq<Arc>, network: seq<seq<Arc>>)
    requires forall a :: a in ordered ==> 0 <= a.from <= n && 0 <= a.to <= n
    requires |network| == n + 1 && forall u :: 0 <= u <= n ==> network[u] == OutOf(Kept(ordered), u)
    ensures ValidNetwork(network, n)
  {
    forall u, k | 0 <= u < |network| && 0 <= k < |network[u]|
      ensures network[u][k].from == u && 0 <= network[u][k].to <= n
    {
      assert network[u][k] in OutOf(Kept(ordered), u);
    }
  }

  lemma OutOfAppend(s: seq<Arc>, a: Arc, u: int)
    ensures OutOf(s + [a], u) == OutOf(s, u) + (if a.from == u then [a] else [])
  {
    assert (s + [a])[..|s|] == s;
  }

  /** After a non-empty prefix, the scan compares against the pair of the prefix's last arc. */
  lemma LastKeyIsPrevious(s: seq<Arc>)
    requires s != []
    ensures LastFrom(Kept(s)) == s[|s| - 1].from && LastTo(Kept(s)) == s[|s| - 1].to
  {
  }

  /** The (from, to) pairs occurring in `s`. */
  function Pairs(s: seq<Arc>): set<(int, int)>
  {
    if s == [] then {} else Pairs(s[..|s| - 1]) + {(s[|s| - 1].from, s[|s| - 1].to)}
  }

  /** No (from, to) pair of the input is lost and none is invented, whatever order the sort left. */
  lemma {:induction false} KeptKeepsEveryPair(s: seq<Arc>)
    requires forall i :: 0 <= i < |s| ==> s[i].from >= 0
    ensures Pairs(Kept(s)) == Pairs(s)
    decreases |s|
  {
    if s != [] {
      var s', a := s[..|s| - 1], s[|s| - 1];
      var k := Kept(s');
      KeptKeepsEveryPair(s');
      if a.from == LastFrom(k) && a.to == LastTo(k) {
        assert k != [];
        assert k[..|k| - 1] + [k[|k| - 1]] == k;
        assert (a.from, a.to) in Pairs(k);
      } else {
        assert (k + [a])[..|k|] == k;
      }
    }
  }

  /** A pair is in Pairs(s) exactly when some arc of `s` carries it. */
  lemma {:induction false} PairsMembers(s: seq<Arc>)
    ensures forall a :: a in s ==> (a.from, a.to) in Pairs(s)
    ensures forall p :: p in Pairs(s) ==> exists b :: b in s && (b.from, b.to) == p
    decreases |s|
  {
    if s != [] {
      var s' := s[..|s| - 1];
      PairsMembers(s');
      assert forall a :: a in s ==> a in s' || a == s[|s| - 1];
      forall p | p in Pairs(s) ensures exists b :: b in s && (b.from, b.to) == p {
        if p in Pairs(s') {
          var b :| b in s' && (b.from, b.to) == p;
          assert b in s;
        } else {
          assert s[|s| - 1] in s;
        }
      }
    }
  }

  /** The (from, to) pair of an input arc `a` has an arc in the list of `a.from` once the scan is done. */
  lemma PairListed(s: seq<Arc>, a: Arc) returns (b: Arc)
    requires forall i :: 0 <= i < |s| ==> s[i].from >= 0
    requires a in s
    ensures b in OutOf(Kept(s), a.from) && b.to == a.to
  {
    KeptKeepsEveryPair(s);
    PairsMembers(s);
    PairsMembers(Kept(s));
    assert (a.from, a.to) in Pairs(Kept(s));
    b :| b in Kept(s) && (b.from, b.to) == (a.from, a.to);
    OutOfComplete(Kept(s), a.from);
  }

  /**
   * Whatever order the sort left, every (from, to) pair of the input has an arc in the
   * list of its `from` node once the scan is done.
   */
  lemma EveryPairListed(s: seq<Arc>)
    requires forall i :: 0 <= i < |s| ==> s[i].from >= 0
    ensures forall a :: a in s ==> exists b :: b in OutOf(Kept(s), a.from) && b.to == a.to
  {
    forall a | a in s ensures exists b :: b in OutOf(Kept(s), a.from) && b.to == a.to {
      var b := PairListed(s, a);
    }
  }

  /** A reordering of arcs with endpoints in 0..n has its endpoints in 0..n too. */
  lemma PermutedInRange(n: nat, arcs: seq<Arc>, ordered: seq<Arc>)
    requires multiset(ordered) == multiset(arcs)
    requires forall a :: a in arcs ==> 0 <= a.from <= n && 0 <= a.to <= n
    ensures forall a :: a in ordered ==> 0 <= a.from <= n && 0 <= a.to <= n
  {
    forall a | a in ordered ensures 0 <= a.from <= n && 0 <= a.to <= n {
      assert multiset(ordered)[a] > 0;
    }
  }

  /**
   * Lists built from an ordering of `arcs`: every (from, to) pair of `arcs` has an arc
   * in the list of its `from` node, and every listed arc is an arc of `arcs` leaving the
   * node whose list holds it.
   */
  lemma ListsMatchInput(n: nat, arcs: seq<Arc>, ordered: seq<Arc>, network: seq<seq<Arc>>)
    requires multiset(ordered) == multiset(arcs)
    requires forall a :: a in arcs ==> 0 <= a.from <= n
    requires |network| == n + 1 && forall u :: 0 <= u <= n ==> network[u] == OutOf(Kept(ordered), u)
    ensures forall a :: a in arcs ==> exists b :: b in network[a.from] && b.to == a.to
    ensures forall u, b :: 0 <= u <= n && b in network[u] ==> b in arcs && b.from == u
  {
    forall i | 0 <= i < |ordered| ensures ordered[i].from >= 0 {
      assert ordered[i] in multiset(arcs);
    }
    forall a | a in arcs ensures exists b :: b in network[a.from] && b.to == a.to {
      assert a in multiset(ordered);
      var b := PairListed(ordered, a);
      assert b in network[a.from];
    }
    forall u, b | 0 <= u <= n && b in network[u] ensures b in arcs && b.from == u {
      assert b in OutOf(Kept(ordered), u);
      assert b in multiset(arcs);
    }
  }

  ghost predicate FromSorted(s: seq<Arc>)
  {
    forall i, j :: 0 <= i < j < |s| ==> s[i].from <= s[j].from
  }

  /** Input grouped by `from` makes the kept arcs grouped by `from` too. */
  lemma {:induction false} KeptFromSorted(s: seq<Arc>)
    requires FromSorted(s)
    ensures FromSorted(Kept(s))
    decreases |s|
  {
    if s != [] {
      var s', a := s[..|s| - 1], s[|s| - 1];
      KeptFromSorted(s');
      forall b | b in Kept(s') ensures b.from <= a.from {
        var i :| 0 <= i < |s'| && s'[i] == b;
      }
    }
  }

  /**
   * When the sort leaves the arcs grouped by `from` (arcCmp orders distinct `from`s
   * consistently), no list gets two consecutive arcs with the same destination.
   */
  lemma {:induction false} NoConsecutiveParallelArcs(s: seq<Arc>, u: int)
    requires FromSorted(s)
    ensures var r := OutOf(Kept(s), u);
      forall i :: 0 < i < |r| ==> r[i - 1].to != r[i].to
  {
    KeptFromSorted(s);
    OutOfGrouped(Kept(s), u);
  }

  lemma {:induction false} OutOfGrouped(k: seq<Arc>, u: int)
    requires FromSorted(k)
    requires forall i :: 0 < i < |k| ==> !SameKey(k[i - 1], k[i])
    ensures var r := OutOf(k, u);
      forall i :: 0 < i < |r| ==> r[i - 1].to != r[i].to
    decreases |k|
  {
    if k != [] {
      var k', a := k[..|k| - 1], k[|k| - 1];
      FromSortedPrefix(k);
      OutOfGrouped(k', u);
      var r' := OutOf(k', u);
      var x := if a.from == u then [a] else [];
      assert OutOf(k, u) == r' + x;
      if a.from == u && r' != [] {
        LastNeighbourDiffers(k, u);
      }
      DistinctNeighboursAppend(r', x);
    }
  }

  /** In grouped arcs without repeated neighbours, the arc before the last arc leaving `u` goes elsewhere. */
  lemma LastNeighbourDiffers(k: seq<Arc>, u: int)
    requires FromSorted(k) && k != [] && k[|k| - 1].from == u
    requires forall i :: 0 < i < |k| ==> !SameKey(k[i - 1], k[i])
    requires OutOf(k[..|k| - 1], u) != []
    ensures var r' := OutOf(k[..|k| - 1], u); r'[|r'| - 1].to != k[|k| - 1].to
  {
    var k' := k[..|k| - 1];
    FromSortedPrefix(k);
    assert k[|k| - 2].from <= k[|k| - 1].from;
    OutOfEndsWithLast(k', u);
    assert !SameKey(k[|k| - 2], k[|k| - 1]);
  }

  /** Dropping the last arc keeps the arcs grouped by `from`. */
  lemma FromSortedPrefix(k: seq<Arc>)
    requires FromSorted(k) && k != []
    ensures FromSorted(k[..|k| - 1])
  {
  }

  lemma DistinctNeighboursAppend(r: seq<Arc>, x: seq<Arc>)
    requires forall i :: 0 < i < |r| ==> r[i - 1].to != r[i].to
    requires |x| <= 1 && (r != [] && x != [] ==> r[|r| - 1].to != x[0].to)
    ensures forall i :: 0 < i < |r + x| ==> (r + x)[i - 1].to != (r + x)[i].to
  {
  }

  /** When `k` is grouped by `from` and ends at or below `u`, the last arc leaving `u` is the last arc of `k`. */
  lemma OutOfEndsWithLast(k: seq<Arc>, u: int)
    requires FromSorted(k) && OutOf(k, u) != [] && k[|k| - 1].from <= u
    ensures OutOf(k, u)[|OutOf(k, u)| - 1] == k[|k| - 1]
  {
    var r := OutOf(k, u);
    assert r[|r| - 1] in k;
    var i :| 0 <= i < |k| && k[i] == r[|r| - 1];
    assert k[i].from <= k[|k| - 1].from;
    OutOfLastIsLast(k, u);
  }

  /** If the last arc of `k` leaves `u`, it is also the last arc of OutOf(k, u). */
  lemma OutOfLastIsLast(k: seq<Arc>, u: int)
    requires k != [] && k[|k| - 1].from == u
    ensures OutOf(k, u) != [] && OutOf(k, u)[|OutOf(k, u)| - 1] == k[|k| - 1]
  {
  }

  /**
   * With the intended comparator, the kept arcs are strictly increasing in (from, to):
   * each list holds at most one arc per destination.
   */
  lemma {:induction false} SortedKeptStrictlyIncreasing(s: seq<Arc>)
    requires SortedByArcLess(s)
    ensures var r := Kept(s);
      forall i, j :: 0 <= i < j < |r| ==> KeyBefore(r[i], r[j])
    decreases |s|
  {
    if s != [] {
      var s', a := s[..|s| - 1], s[|s| - 1];
      var k := Kept(s');
      SortedKeptStrictlyIncreasing(s');
      if !(a.from == LastFrom(k) && a.to == LastTo(k)) && k != [] {
        LastKeyIsPrevious(s');
        var last := s'[|s'| - 1];
        assert !ArcLess(a, last);
        assert KeyBefore(last, a);
        forall b | b in k ensures KeyBefore(b, a) {
          var i :| 0 <= i < |s'| && s'[i] == b;
          if i < |s'| - 1 {
            assert !ArcLess(last, b);
          }
        }
        var r := k + [a];
        forall i, j | 0 <= i < j < |r| ensures KeyBefore(r[i], r[j]) {
          if j == |r| - 1 {
            assert r[i] in k;
          } else {
            assert r[i] == k[i] && r[j] == k[j];
          }
        }
      }
    }
  }

  /** With the intended comparator, the arc kept for the (from, to) pair of `x` is no longer than `x`. */
  lemma {:induction false} SortedKeepsShortest(s: seq<Arc>, x: Arc)
    requires SortedByArcLess(s) && x in s && x.from >= 0
    ensures exists b :: b in Kept(s) && SameKey(x, b) && b.arcLength <= x.arcLength
    decreases |s|
  {
    var s', a := s[..|s| - 1], s[|s| - 1];
    var k := Kept(s');
    if x in s' {
      SortedKeepsShortest(s', x);
      var b :| b in k && SameKey(x, b) && b.arcLength <= x.arcLength;
      assert b in Kept(s);
    } else if a.from == LastFrom(k) && a.to == LastTo(k) {
      assert x == a;
      LastKeyIsPrevious(s');
      var last := s'[|s'| - 1];
      assert !ArcLess(a, last);
      SortedKeepsShortest(s', last);
      var b :| b in k && SameKey(last, b) && b.arcLength <= last.arcLength;
      assert b in Kept(s);
    } else {
      assert x == a && a in Kept(s);
    }
  }

  /**
   * As written, the parallel arcs (1->2, 5) and (1->2, 2) may stay in that order after
   * the sort, and then the scan keeps the longer one.
   */
  lemma ParallelArcsKeepLongerAsWritten()
    ensures var s := [Arc(1, 2, 5), Arc(1, 2, 2)];
      SortedByArcCmp(s) && Kept(s) == [Arc(1, 2, 5)]
  {
    var s := [Arc(1, 2, 5), Arc(1, 2, 2)];
    assert s[..1] == [Arc(1, 2, 5)];
    assert s[..1][..0] == [];
  }

  /** With the intended comparator, the same two arcs collapse to the one of length 2. */
  lemma ParallelArcsKeepShorterCorrected()
    ensures var s := [Arc(1, 2, 2), Arc(1, 2, 5)];
      SortedByArcLess(s) && Kept(s) == [Arc(1, 2, 2)]
  {
    var s := [Arc(1, 2, 2), Arc(1, 2, 5)];
    assert s[..1] == [Arc(1, 2, 2)];
    assert s[..1][..0] == [];
  }
}
