/**
 * Heuristic tour solver of package/connect_points.py (nearest_neighbor_2opt):
 * a greedy nearest-neighbour tour from node 0, then 2-opt segment reversals
 * until a full pass finds no improving reversal.
 *
 * The Python list `tour` is a local that both phases update; here it is a
 * local `seq<nat>` that each step reassigns.
 */
module NearestNeighbor {
  import opened Tours

  /**
   * The greedy property of the open prefix t[..m]: every node t[i] (1 <= i < m)
   * is at least as close to its predecessor t[i-1] as every node that comes
   * after it in the prefix.
   */
  ghost predicate GreedyUpTo(dist: seq<seq<int>>, t: seq<nat>, m: nat)
    requires m <= |t|
  {
    forall i, l :: 1 <= i <= l < m ==> Edge(dist, t[i - 1], t[i]) <= Edge(dist, t[i - 1], t[l])
  }

  /** Every node chosen so far is at least as close to its predecessor as every unvisited node. */
  ghost predicate CloserThanUnvisited(dist: seq<seq<int>>, t: seq<nat>, unv: set<nat>) {
    forall i, u :: 1 <= i < |t| && u in unv ==> Edge(dist, t[i - 1], t[i]) <= Edge(dist, t[i - 1], u)
  }

  /** A finite non-empty set of nodes has a node nearest to cur. */
  lemma {:induction false} NearestExists(dist: seq<seq<int>>, cur: nat, S: set<nat>) returns (x: nat)
    requires S != {}
    ensures x in S && forall y :: y in S ==> Edge(dist, cur, x) <= Edge(dist, cur, y)
    decreases |S|
  {
    var y :| y in S;
    if S == {y} {
      x := y;
    } else {
      var x' := NearestExists(dist, cur, S - {y});
      x := if Edge(dist, cur, y) < Edge(dist, cur, x') then y else x';
    }
  }

  /** One greedy step keeps both greedy invariants. */
  lemma GreedyStep(dist: seq<seq<int>>, t: seq<nat>, unv: set<nat>, nxt: nat)
    requires |t| >= 1 && nxt in unv
    requires GreedyUpTo(dist, t, |t|) && CloserThanUnvisited(dist, t, unv)
    requires forall k :: k in unv ==> Edge(dist, t[|t| - 1], nxt) <= Edge(dist, t[|t| - 1], k)
    ensures GreedyUpTo(dist, t + [nxt], |t| + 1) && CloserThanUnvisited(dist, t + [nxt], unv - {nxt})
  {
    var t' := t + [nxt];
    forall i, l | 1 <= i <= l < |t'|
      ensures Edge(dist, t'[i - 1], t'[i]) <= Edge(dist, t'[i - 1], t'[l])
    {
      if l == |t| && i < |t| {
        assert t'[l] == nxt && t'[i] == t[i] && t'[i - 1] == t[i - 1];
      }
    }
  }

  /**
   * The first loop of nearest_neighbor_2opt: from node 0, repeatedly move to
   * a nearest unvisited node, then return to 0.
   */
  method NearestNeighbourTour(dist: seq<seq<int>>) returns (tour: seq<nat>)
    requires IsSquare(dist)
    ensures |dist| == 0 ==> tour == [0, 0]
    ensures |dist| >= 1 ==> IsClosedTour(tour, |dist|)
    ensures |tour| >= 2 && GreedyUpTo(dist, tour, |tour| - 1)
  {
    var n := |dist|;
    tour := [0];
    var unv := Others(n);
    var cur: nat := 0;
    assert tour[1..] == [];
    while unv != {}
      invariant GreedyState(dist, n, tour, unv) && cur == tour[|tour| - 1]
      decreases |unv|
    {
      var best := NearestExists(dist, cur, unv);
      var nxt :| nxt in unv && forall k :: k in unv ==> Edge(dist, cur, nxt) <= Edge(dist, cur, k);
      GreedyAdvance(dist, n, tour, unv, nxt);
      unv := unv - {nxt};
      tour := tour + [nxt];
      cur := nxt;
    }
    assert |tour[1..]| == |multiset(Others(n))|;
    CloseGreedy(dist, tour, n);
    tour := tour + [0];
  }

  /** The state of the greedy loop: a walk from 0 over the visited nodes, the rest still unvisited. */
  ghost predicate GreedyState(dist: seq<seq<int>>, n: nat, t: seq<nat>, unv: set<nat>) {
    |t| >= 1 && t[0] == 0 &&
    multiset(t[1..]) + multiset(unv) == multiset(Others(n)) &&
    GreedyUpTo(dist, t, |t|) && CloserThanUnvisited(dist, t, unv)
  }

  /** Moving to a nearest unvisited node keeps the greedy state. */
  lemma GreedyAdvance(dist: seq<seq<int>>, n: nat, t: seq<nat>, unv: set<nat>, nxt: nat)
    requires GreedyState(dist, n, t, unv) && nxt in unv
    requires forall k :: k in unv ==> Edge(dist, t[|t| - 1], nxt) <= Edge(dist, t[|t| - 1], k)
    ensures GreedyState(dist, n, t + [nxt], unv - {nxt})
  {
    GreedyStep(dist, t, unv, nxt);
    MultisetRemoveOne(unv, nxt);
    assert (t + [nxt])[1..] == t[1..] + [nxt];
  }

  /** Appending the return to 0 closes the greedy walk, and keeps the greedy prefix. */
  lemma CloseGreedy(dist: seq<seq<int>>, t: seq<nat>, n: nat)
    requires |t| >= 1 && t[0] == 0 && multiset(t[1..]) == multiset(Others(n))
    requires GreedyUpTo(dist, t, |t|)
    ensures n == 0 ==> t + [0] == [0, 0]
    ensures n >= 1 ==> IsClosedTour(t + [0], n)
    ensures GreedyUpTo(dist, t + [0], |t|)
  {
    if n >= 1 {
      OthersSize(n);
      assert |multiset(Others(n))| == n - 1;
      assert |t| == n;
      assert (t + [0])[1..n] == t[1..];
    } else {
      assert |multiset(t[1..])| == 0;
    }
    var t' := t + [0];
    forall i, l | 1 <= i <= l < |t|
      ensures Edge(dist, t'[i - 1], t'[i]) <= Edge(dist, t'[i - 1], t'[l])
    {
      assert t'[i - 1] == t[i - 1] && t'[i] == t[i] && t'[l] == t[l];
    }
  }

  /** No reversal of a segment t[i..j] with 1 <= i < j <= |t| - 2 passes the gain test: t is 2-opt optimal. */
  ghost predicate TwoOptOptimal(dist: seq<seq<int>>, t: seq<nat>) {
    forall i, j :: 1 <= i < j && j + 1 < |t| ==> ReversalDelta(dist, t, i, j) >= 0
  }

  /**
   * Every pair (i', j') that the pass visits before (i, j) fails the gain
   * test on t: the pairs with i' < i, and those with i' == i and j' < j.
   */
  ghost predicate CheckedBefore(dist: seq<seq<int>>, t: seq<nat>, i: nat, j: nat) {
    forall i', j' :: 1 <= i' < j' && j' + 1 < |t| && (i' < i || (i' == i && j' < j)) ==>
      ReversalDelta(dist, t, i', j') >= 0
  }

  /** A lower bound on the cost of every closed tour over the matrix. */
  function TourFloor(dist: seq<seq<int>>): int
    requires IsSquare(dist)
  {
    if |dist| == 0 then 0 else |dist| * MatrixMin(dist)
  }

  lemma TourFloorBound(dist: seq<seq<int>>, t: seq<nat>)
    requires IsSquare(dist) && (if |dist| == 0 then t == [0, 0] else IsClosedTour(t, |dist|))
    ensures PathCost(dist, t) >= TourFloor(dist)
  {
    if |dist| > 0 {
      ClosedTourNodes(t, |dist|);
      PathCostLowerBound(dist, t);
    } else {
      assert t[..1] == [0];
    }
  }

  /** The tours the 2-opt phase can hold: the closed tour, or [0, 0] on the empty matrix. */
  ghost predicate TourShape(dist: seq<seq<int>>, t: seq<nat>) {
    if |dist| == 0 then t == [0, 0] else IsClosedTour(t, |dist|)
  }

  /** One 2-opt reversal applied to a tour keeps its shape and changes its cost by the delta. */
  lemma ReversalStep(dist: seq<seq<int>>, t: seq<nat>, i: nat, j: nat)
    requires IsSquare(dist) && IsSymmetric(dist) && TourShape(dist, t)
    requires 1 <= i < j && j + 1 < |t|
    ensures TourShape(dist, ReverseSegment(t, i, j))
    ensures PathCost(dist, ReverseSegment(t, i, j)) == PathCost(dist, t) + ReversalDelta(dist, t, i, j)
  {
    ReverseSegmentTour(t, |dist|, i, j);
    ReverseSegmentCost(dist, t, i, j);
  }

  /**
   * One pass of the 2-opt loop (the two for loops), reversing in place
   * whenever the gain test new < old succeeds. Without any reversal the tour
   * is unchanged and every pair failed the test; with one, the cost fell.
   */
  method TwoOptPass(dist: seq<seq<int>>, t0: seq<nat>) returns (tour: seq<nat>, improved: bool)
    requires IsSquare(dist) && IsSymmetric(dist) && TourShape(dist, t0)
    ensures TourShape(dist, tour)
    ensures !improved ==> tour == t0 && TwoOptOptimal(dist, tour)
    ensures improved ==> PathCost(dist, tour) < PathCost(dist, t0)
  {
    var n := |dist|;
    tour := t0;
    improved := false;
    var i := 1;
    while i < n - 1
      invariant 1 <= i && |tour| == |t0|
      invariant TourShape(dist, tour)
      invariant !improved ==> tour == t0 && CheckedBefore(dist, tour, i, 0)
      invariant improved ==> PathCost(dist, tour) < PathCost(dist, t0)
    {
      var j := i + 1;
      assert !improved ==> CheckedBefore(dist, tour, i, j);
      while j < n
        invariant i + 1 <= j && |tour| == |t0|
        invariant TourShape(dist, tour)
        invariant !improved ==> tour == t0 && CheckedBefore(dist, tour, i, j)
        invariant improved ==> PathCost(dist, tour) < PathCost(dist, t0)
      {
        DeltaIsGainTest(dist, tour, i, j);
        var a, b := tour[i - 1], tour[i];
        var c, d := tour[j], tour[j + 1];
        var oldCost := dist[a][b] + dist[c][d];
        var newCost := dist[a][c] + dist[b][d];
        if newCost < oldCost {
          ReversalStep(dist, tour, i, j);
          tour := ReverseSegment(tour, i, j);
          improved := true;
        } else if !improved {
          CheckedNext(dist, tour, i, j);
        }
        j := j + 1;
      }
      if !improved {
        CheckedRow(dist, tour, i, j);
      }
      i := i + 1;
    }
    if !improved {
      CheckedAll(dist, tour, i);
    }
  }

  /** A failed gain test at (i, j) moves the checked region on to (i, j + 1). */
  lemma CheckedNext(dist: seq<seq<int>>, t: seq<nat>, i: nat, j: nat)
    requires 1 <= i <= j && j + 1 < |t|
    requires CheckedBefore(dist, t, i, j) && ReversalDelta(dist, t, i, j) >= 0
    ensures CheckedBefore(dist, t, i, j + 1)
  {
  }

  /** After the last j of row i, the checked region is every pair before row i + 1. */
  lemma CheckedRow(dist: seq<seq<int>>, t: seq<nat>, i: nat, j: nat)
    requires j + 1 >= |t| && CheckedBefore(dist, t, i, j)
    ensures CheckedBefore(dist, t, i + 1, 0)
  {
  }

  /** After the last row every pair has been checked. */
  lemma CheckedAll(dist: seq<seq<int>>, t: seq<nat>, i: nat)
    requires i + 2 >= |t| && CheckedBefore(dist, t, i, 0)
    ensures TwoOptOptimal(dist, t)
  {
  }

  /** The Python gain test new < old is ReversalDelta < 0 on the matrix's own entries. */
  lemma DeltaIsGainTest(dist: seq<seq<int>>, t: seq<nat>, i: nat, j: nat)
    requires IsSquare(dist) && TourShape(dist, t) && 1 <= i < j && j + 1 < |t|
    ensures t[i - 1] < |dist| && t[i] < |dist| && t[j] < |dist| && t[j + 1] < |dist|
    ensures ReversalDelta(dist, t, i, j) ==
      (dist[t[i - 1]][t[j]] + dist[t[i]][t[j + 1]]) - (dist[t[i - 1]][t[i]] + dist[t[j]][t[j + 1]])
  {
    if |dist| > 0 {
      ClosedTourNodes(t, |dist|);
    }
  }

  /**
   * The second loop of nearest_neighbor_2opt: repeat full passes until one
   * makes no reversal. The result is 2-opt optimal and costs no more than t0.
   */
  method TwoOpt(dist: seq<seq<int>>, t0: seq<nat>) returns (tour: seq<nat>)
    requires IsSquare(dist) && IsSymmetric(dist) && TourShape(dist, t0)
    ensures TourShape(dist, tour) && TwoOptOptimal(dist, tour)
    ensures PathCost(dist, tour) <= PathCost(dist, t0)
  {
    tour := t0;
    var improved := true;
    TourFloorBound(dist, tour);
    while improved
      invariant TourShape(dist, tour) && PathCost(dist, tour) <= PathCost(dist, t0)
      invariant PathCost(dist, tour) >= TourFloor(dist)
      invariant !improved ==> TwoOptOptimal(dist, tour)
      decreases PathCost(dist, tour) - TourFloor(dist) + (if improved then 1 else 0)
    {
      tour, improved := TwoOptPass(dist, tour);
      TourFloorBound(dist, tour);
    }
  }

  /**
   * nearest_neighbor_2opt(dist): the greedy tour `start`, then 2-opt. The
   * result is a closed tour (or [0, 0] on the empty matrix), 2-opt optimal,
   * and no more costly than the greedy tour it started from.
   */
  method NearestNeighbor2Opt(dist: seq<seq<int>>) returns (tour: seq<nat>, ghost start: seq<nat>)
    requires IsSquare(dist) && IsSymmetric(dist)
    ensures |dist| == 0 ==> tour == [0, 0]
    ensures |dist| >= 1 ==> IsClosedTour(tour, |dist|)
    ensures TwoOptOptimal(dist, tour)
    ensures |start| >= 2 && GreedyUpTo(dist, start, |start| - 1) && TourShape(dist, start)
    ensures PathCost(dist, tour) <= PathCost(dist, start)
  {
    var greedy := NearestNeighbourTour(dist);
    tour := TwoOpt(dist, greedy);
    start := greedy;
  }
}
