/**
 * Distance matrices, paths and closed tours shared by the two tour solvers of
 * package/connect_points.py (held_karp and nearest_neighbor_2opt).
 *
 * Nodes are indices into the matrix. Node 0 is the fixed start and end of
 * every closed tour; a tour over n nodes has length n + 1.
 */
module Tours {

  /** dist is an n x n matrix, n = |dist|. */
  predicate IsSquare(dist: seq<seq<int>>) {
    forall i :: 0 <= i < |dist| ==> |dist[i]| == |dist|
  }

  predicate IsSymmetric(dist: seq<seq<int>>)
    requires IsSquare(dist)
  {
    forall i, j :: 0 <= i < |dist| && 0 <= j < |dist| ==> dist[i][j] == dist[j][i]
  }

  /** The nodes 1 .. n-1 that a tour visits between its two visits of node 0. */
  function Others(n: nat): set<nat> {
    if n <= 1 then {} else Others(n - 1) + {n - 1}
  }

  lemma {:induction false} OthersIff(n: nat, k: nat)
    ensures k in Others(n) <==> 1 <= k < n
  {
    if n > 1 {
      OthersIff(n - 1, k);
    }
  }

  lemma {:induction false} OthersSize(n: nat)
    requires n >= 1
    ensures |Others(n)| == n - 1
  {
    if n > 1 {
      OthersSize(n - 1);
      OthersIff(n - 1, n - 1);
    }
  }

  /** Every node of p is a node of an n-node matrix. */
  predicate InNodes(p: seq<nat>, n: nat) {
    forall i :: 0 <= i < |p| ==> p[i] < n
  }

  /** The matrix entry dist[u][v]; 0 for a pair outside the matrix, which no tour uses. */
  function Edge(dist: seq<seq<int>>, u: nat, v: nat): int {
    if u < |dist| && v < |dist[u]| then dist[u][v] else 0
  }

  /** Total cost of walking p: the sum of dist[p[i]][p[i+1]] over its edges. */
  function PathCost(dist: seq<seq<int>>, p: seq<nat>): int {
    if |p| <= 1 then 0 else PathCost(dist, p[..|p| - 1]) + Edge(dist, p[|p| - 2], p[|p| - 1])
  }

  /**
   * p starts at node 0, then visits every node of S exactly once and nothing
   * else, and ends at k. This is the meaning of a Held-Karp state (S, k).
   */
  predicate IsPathThrough(p: seq<nat>, S: set<nat>, k: nat) {
    |p| == |S| + 1 && p[0] == 0 && p[|p| - 1] == k && multiset(p[1..]) == multiset(S)
  }

  /**
   * A closed tour over n nodes: length n + 1, node 0 at both ends, and every
   * node 1 .. n-1 exactly once in between.
   */
  predicate IsClosedTour(t: seq<nat>, n: nat) {
    n >= 1 && |t| == n + 1 && t[0] == 0 && t[n] == 0 && multiset(t[1..n]) == multiset(Others(n))
  }

  lemma MultisetOfSetMember(S: set<nat>, x: nat)
    ensures x in multiset(S) <==> x in S
    ensures multiset(S)[x] <= 1
  {
  }

  /** Adding or removing one element of a set changes its multiset by that element. */
  lemma MultisetAddOne(S: set<nat>, k: nat)
    requires k !in S
    ensures multiset(S + {k}) == multiset(S) + multiset{k}
  {
    assert forall x :: multiset(S + {k})[x] == (multiset(S) + multiset{k})[x];
  }

  lemma MultisetRemoveOne(S: set<nat>, k: nat)
    requires k in S
    ensures multiset(S - {k}) == multiset(S) - multiset{k}
  {
    assert forall x :: multiset(S - {k})[x] == (multiset(S) - multiset{k})[x];
  }

  /** The nodes of a closed tour are nodes of the matrix, and each 1..n-1 occurs once. */
  lemma ClosedTourNodes(t: seq<nat>, n: nat)
    requires n >= 1 && IsClosedTour(t, n)
    ensures InNodes(t, n)
    ensures forall k :: 1 <= k < n ==> multiset(t[1..n])[k] == 1
    ensures forall i :: 1 <= i < n ==> 1 <= t[i] < n
  {
    forall i | 1 <= i < n
      ensures 1 <= t[i] < n
    {
      assert t[1..n][i - 1] == t[i];
      assert t[i] in multiset(t[1..n]);
      MultisetOfSetMember(Others(n), t[i]);
      OthersIff(n, t[i]);
    }
    forall k | 1 <= k < n
      ensures multiset(t[1..n])[k] == 1
    {
      OthersIff(n, k);
    }
  }

  /** Appending one node adds one edge to the cost. */
  lemma PathCostAppend(dist: seq<seq<int>>, p: seq<nat>, k: nat)
    requires |p| >= 1
    ensures PathCost(dist, p + [k]) == PathCost(dist, p) + Edge(dist, p[|p| - 1], k)
  {
    var q := p + [k];
    assert q[..|q| - 1] == p;
  }

  /** The cost of a concatenation is the two costs plus the joining edge. */
  lemma {:induction false} PathCostConcat(dist: seq<seq<int>>, p: seq<nat>, q: seq<nat>)
    requires |p| >= 1 && |q| >= 1
    ensures PathCost(dist, p + q) == PathCost(dist, p) + Edge(dist, p[|p| - 1], q[0]) + PathCost(dist, q)
    decreases |q|
  {
    if |q| == 1 {
      PathCostAppend(dist, p, q[0]);
      assert p + q == p + [q[0]];
    } else {
      var q' := q[..|q| - 1];
      PathCostConcat(dist, p, q');
      assert (p + q)[..|p + q| - 1] == p + q';
    }
  }

  /** The sequence s backwards. */
  function Reverse(s: seq<nat>): (r: seq<nat>)
    ensures |r| == |s|
  {
    if |s| == 0 then [] else [s[|s| - 1]] + Reverse(s[..|s| - 1])
  }

  lemma {:induction false} ReverseAt(s: seq<nat>, k: nat)
    requires k < |s|
    ensures Reverse(s)[k] == s[|s| - 1 - k]
    decreases |s|
  {
    if k > 0 {
      ReverseAt(s[..|s| - 1], k - 1);
    }
  }

  lemma {:induction false} ReverseMultiset(s: seq<nat>)
    ensures multiset(Reverse(s)) == multiset(s)
    decreases |s|
  {
    if |s| > 0 {
      ReverseMultiset(s[..|s| - 1]);
      assert Reverse(s) == [s[|s| - 1]] + Reverse(s[..|s| - 1]);
      assert s == s[..|s| - 1] + [s[|s| - 1]];
    }
  }

  /** With a symmetric matrix a path costs the same walked backwards. */
  lemma {:induction false} ReverseCost(dist: seq<seq<int>>, s: seq<nat>)
    requires IsSquare(dist) && IsSymmetric(dist)
    ensures PathCost(dist, Reverse(s)) == PathCost(dist, s)
    decreases |s|
  {
    if |s| >= 2 {
      var init := s[..|s| - 1];
      ReverseCost(dist, init);
      PathCostConcat(dist, [s[|s| - 1]], Reverse(init));
      ReverseAt(init, 0);
      assert Edge(dist, s[|s| - 1], s[|s| - 2]) == Edge(dist, s[|s| - 2], s[|s| - 1]);
    }
  }

  /** tour with the segment tour[i..j] (both ends included) reversed in place. */
  function ReverseSegment(t: seq<nat>, i: nat, j: nat): (r: seq<nat>)
    requires i <= j < |t|
    ensures |r| == |t|
  {
    t[..i] + Reverse(t[i..j + 1]) + t[j + 1..]
  }

  /**
   * The 2-opt gain test: new - old, where with a = t[i-1], b = t[i],
   * c = t[j], d = t[j+1], new = dist[a][c] + dist[b][d] and old = dist[a][b] + dist[c][d].
   */
  function ReversalDelta(dist: seq<seq<int>>, t: seq<nat>, i: nat, j: nat): int
    requires 1 <= i <= j && j + 1 < |t|
  {
    (Edge(dist, t[i - 1], t[j]) + Edge(dist, t[i], t[j + 1])) -
    (Edge(dist, t[i - 1], t[i]) + Edge(dist, t[j], t[j + 1]))
  }

  /** Reversing tour[i..j] with 1 <= i < j <= n-1 keeps a closed tour over the same nodes. */
  lemma ReverseSegmentTour(t: seq<nat>, n: nat, i: nat, j: nat)
    requires IsClosedTour(t, n) && 1 <= i < j <= n - 1
    ensures IsClosedTour(ReverseSegment(t, i, j), n)
  {
    var a, m, b := t[..i], t[i..j + 1], t[j + 1..];
    var rm := Reverse(m);
    var r := ReverseSegment(t, i, j);
    assert r == a + rm + b;
    assert r[0] == a[0] == t[0];
    assert r[n] == b[|b| - 1] == t[n];
    var a', b' := a[1..], b[..|b| - 1];
    assert t[1..n] == a' + m + b';
    assert r[1..n] == a' + rm + b';
    ReverseMultiset(m);
    assert multiset(r[1..n]) == multiset(a') + multiset(rm) + multiset(b');
    assert multiset(t[1..n]) == multiset(a') + multiset(m) + multiset(b');
  }

  /**
   * With a symmetric matrix, reversing tour[i..j] with 1 <= i < j
   * changes the cost by exactly the 2-opt delta.
   */
  lemma ReverseSegmentCost(dist: seq<seq<int>>, t: seq<nat>, i: nat, j: nat)
    requires IsSquare(dist) && IsSymmetric(dist)
    requires 1 <= i < j && j + 1 < |t|
    ensures PathCost(dist, ReverseSegment(t, i, j)) == PathCost(dist, t) + ReversalDelta(dist, t, i, j)
  {
    var a, m, b := t[..i], t[i..j + 1], t[j + 1..];
    assert t == a + m + b;
    var rm := Reverse(m);
    assert ReverseSegment(t, i, j) == a + rm + b;
    ReverseAt(m, 0);
    ReverseAt(m, |m| - 1);
    PathCost3(dist, a, m, b);
    PathCost3(dist, a, rm, b);
    ReverseCost(dist, m);
  }

  /** The cost of a + m + b, split at its two joins. */
  lemma PathCost3(dist: seq<seq<int>>, a: seq<nat>, m: seq<nat>, b: seq<nat>)
    requires |a| >= 1 && |m| >= 1 && |b| >= 1
    ensures PathCost(dist, a + m + b) ==
      PathCost(dist, a) + Edge(dist, a[|a| - 1], m[0]) + PathCost(dist, m) +
      Edge(dist, m[|m| - 1], b[0]) + PathCost(dist, b)
  {
    PathCostConcat(dist, a, m);
    var am := a + m;
    assert am[|am| - 1] == m[|m| - 1];
    PathCostConcat(dist, am, b);
  }

  /** The smallest entry of a non-empty sequence. */
  function SeqMin(s: seq<int>): (m: int)
    requires |s| > 0
    ensures forall k :: 0 <= k < |s| ==> m <= s[k]
  {
    if |s| == 1 then s[0]
    else
      var rest := SeqMin(s[1..]);
      assert forall k :: 1 <= k < |s| ==> s[k] == s[1..][k - 1];
      if s[0] < rest then s[0] else rest
  }

  /** A lower bound of every entry of a non-empty square matrix. */
  function MatrixMin(dist: seq<seq<int>>): (m: int)
    requires IsSquare(dist) && |dist| > 0
    ensures forall i, j :: 0 <= i < |dist| && 0 <= j < |dist| ==> m <= dist[i][j]
  {
    var rowMins := seq(|dist|, i requires 0 <= i < |dist| => SeqMin(dist[i]));
    var m := SeqMin(rowMins);
    assert forall i, j :: 0 <= i < |dist| && 0 <= j < |dist| ==> rowMins[i] <= dist[i][j];
    m
  }

  /** A path of |p| - 1 edges costs at least (|p| - 1) times the smallest entry. */
  lemma {:induction false} PathCostLowerBound(dist: seq<seq<int>>, p: seq<nat>)
    requires IsSquare(dist) && |dist| > 0 && InNodes(p, |dist|) && |p| >= 1
    ensures PathCost(dist, p) >= (|p| - 1) * MatrixMin(dist)
    decreases |p|
  {
    if |p| >= 2 {
      PathCostLowerBound(dist, p[..|p| - 1]);
      assert (|p| - 1) * MatrixMin(dist) == (|p| - 2) * MatrixMin(dist) + MatrixMin(dist);
    }
  }
}
