/**
 * The bucket-count estimate of the bucket-queue engine, and the in-place removal of
 * every copy of a value from a vector.
 */
module EngineSpec {
  import opened Graph

  /** Sum of the lengths of the arcs of one list. */
  function ListLength(list: seq<Arc>): int
  {
    if list == [] then 0 else ListLength(list[..|list| - 1]) + list[|list| - 1].arcLength
  }

  /** Sum of the lengths of every arc of the given lists. */
  function TotalLength(lists: seq<seq<Arc>>): int
  {
    if lists == [] then 0 else ListLength(lists[0]) + TotalLength(lists[1..])
  }

  /**
   * What the scan of countMaxBucketSize adds up from list i on, when `counter` arcs have
   * been counted before it: a whole list at a time, stopping after the first list that
   * takes the count above `n`.
   */
  function BoundFrom(net: seq<seq<Arc>>, i: nat, counter: int, n: int): int
    requires i <= |net|
    decreases |net| - i
  {
    if i == |net| then 0
    else ListLength(net[i]) + (if counter + |net[i]| > n then 0 else BoundFrom(net, i + 1, counter + |net[i]|, n))
  }

  /** The number of lists the scan adds up, from list i on with `counter` arcs counted before. */
  function SummedFrom(net: seq<seq<Arc>>, i: nat, counter: int, n: int): (k: nat)
    requires i <= |net|
    ensures i <= k <= |net|
    decreases |net| - i
  {
    if i == |net| then i
    else if counter + |net[i]| > n then i + 1
    else SummedFrom(net, i + 1, counter + |net[i]|, n)
  }

  /** The result of countMaxBucketSize on the lists of the nodes 0..n. */
  function BucketBound(net: seq<seq<Arc>>, n: int): int
  {
    BoundFrom(net, 0, 0, n)
  }

  lemma {:induction false} BoundFromWholeLists(net: seq<seq<Arc>>, i: nat, n: int)
    requires i <= |net|
    ensures var k := SummedFrom(net, i, ArcCount(net[..i]), n);
      BoundFrom(net, i, ArcCount(net[..i]), n) == TotalLength(net[i..k]) &&
      (k < |net| ==> ArcCount(net[..k]) > n) &&
      forall k' :: i <= k' < k ==> ArcCount(net[..k']) <= n || k' == i
    decreases |net| - i
  {
    var c := ArcCount(net[..i]);
    if i < |net| {
      assert net[..i + 1][..i] == net[..i];
      assert ArcCount(net[..i + 1]) == c + |net[i]|;
      var k := SummedFrom(net, i, c, n);
      if c + |net[i]| > n {
        assert net[i..k] == [net[i]];
        assert net[i..k][1..] == [];
      } else {
        BoundFromWholeLists(net, i + 1, n);
        assert net[i..k][0] == net[i] && net[i..k][1..] == net[i + 1..k];
      }
    } else {
      assert net[i..i] == [];
    }
  }

  /**
   * countMaxBucketSize adds up whole lists: the lists 0..k-1, where k is the first count
   * of lists whose arcs outnumber n, or all the lists.
   */
  lemma BucketBoundSumsWholeLists(net: seq<seq<Arc>>, n: int)
    requires n >= 0
    ensures var k := SummedFrom(net, 0, 0, n);
      BucketBound(net, n) == TotalLength(net[..k]) &&
      (k < |net| ==> ArcCount(net[..k]) > n) &&
      forall k' :: 0 <= k' < k ==> ArcCount(net[..k']) <= n
  {
    assert net[..0] == [];
    BoundFromWholeLists(net, 0, n);
    assert net[0..SummedFrom(net, 0, 0, n)] == net[..SummedFrom(net, 0, 0, n)];
  }

  lemma {:induction false} ListLengthNonNegative(list: seq<Arc>)
    requires forall k :: 0 <= k < |list| ==> list[k].arcLength >= 0
    ensures ListLength(list) >= 0
    decreases |list|
  {
    if list != [] {
      ListLengthNonNegative(list[..|list| - 1]);
    }
  }

  lemma {:induction false} BoundFromNonNegative(net: seq<seq<Arc>>, i: nat, counter: int, n: int)
    requires i <= |net| && NonNegative(net)
    ensures BoundFrom(net, i, counter, n) >= 0
    decreases |net| - i
  {
    if i < |net| {
      ListLengthNonNegative(net[i]);
      BoundFromNonNegative(net, i + 1, counter + |net[i]|, n);
    }
  }

  /** With no negative arc the estimate is never negative, so the first bucket exists. */
  lemma BucketBoundNonNegative(net: seq<seq<Arc>>, n: int)
    requires NonNegative(net)
    ensures BucketBound(net, n) >= 0
  {
    BoundFromNonNegative(net, 0, 0, n);
  }

  /** `s` without any copy of `x`, the other elements in their order. */
  function Removed(s: seq<int>, x: int): (r: seq<int>)
    ensures x !in r && |r| <= |s|
  {
    if s == [] then []
    else Removed(s[..|s| - 1], x) + (if s[|s| - 1] == x then [] else [s[|s| - 1]])
  }

  /** Removal drops every copy of `x` and keeps every other element as many times as before. */
  lemma {:induction false} RemovedCounts(s: seq<int>, x: int)
    ensures multiset(Removed(s, x)) == multiset(s)[x := 0]
    ensures |Removed(s, x)| == |s| - multiset(s)[x]
    decreases |s|
  {
    if s != [] {
      assert s == s[..|s| - 1] + [s[|s| - 1]];
      RemovedCounts(s[..|s| - 1], x);
    }
  }

  lemma RemovedSnoc(s: seq<int>, x: int, y: int)
    ensures Removed(s + [y], x) == Removed(s, x) + (if y == x then [] else [y])
  {
    assert (s + [y])[..|s|] == s;
  }
}
