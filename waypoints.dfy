/**
 * Waypoint selection and the distance matrix of connect_points
 * (package/connect_points.py): the qualifying grid cells become pixel
 * waypoints (x, y) in row-major order, and every pair of waypoints is
 * weighted by the Chebyshev distance.
 */
module Waypoints {
  import opened Grid
  import opened Tours

  /** A pixel position (x, y), the tuple the source stores in coords. */
  datatype Point = Point(x: int, y: int)

  function Abs(v: int): nat {
    if v < 0 then -v else v
  }

  /** chebyshev(a, b): the larger of the two coordinate differences. */
  function Chebyshev(a: Point, b: Point): (d: int)
    ensures d >= Abs(a.x - b.x) && d >= Abs(a.y - b.y)
    ensures d == Abs(a.x - b.x) || d == Abs(a.y - b.y)
  {
    var dx, dy := Abs(a.x - b.x), Abs(a.y - b.y);
    if dx >= dy then dx else dy
  }

  /** The Chebyshev distance is a metric: non-negative, zero exactly on equal points, symmetric, triangular. */
  lemma ChebyshevMetric(a: Point, b: Point, c: Point)
    ensures Chebyshev(a, b) >= 0
    ensures Chebyshev(a, b) == 0 <==> a == b
    ensures Chebyshev(a, b) == Chebyshev(b, a)
    ensures Chebyshev(a, c) <= Chebyshev(a, b) + Chebyshev(b, c)
  {
  }

  /** A cell becomes a waypoint when it is G, or Y when risk == 1. */
  predicate Qualifies(l: Label, risk: int) {
    l == G || (risk == 1 && l == Y)
  }

  /** The first `rows` rows of g have at least `cols` cells each. */
  predicate Spans(g: seq<seq<Label>>, rows: nat, cols: nat) {
    rows <= |g| && forall i :: 0 <= i < rows ==> cols <= |g[i]|
  }

  /** The waypoints of row i among its first `upto` cells, left to right. */
  function RowPicks(row: seq<Label>, i: nat, gap: nat, risk: int, upto: nat): seq<Point>
    requires upto <= |row|
  {
    if upto == 0 then []
    else
      RowPicks(row, i, gap, risk, upto - 1) +
      (if Qualifies(row[upto - 1], risk) then [Point((upto - 1) * gap, i * gap)] else [])
  }

  /** The waypoints of the first `rows` rows of g (each cut to `cols` cells), in row-major order. */
  function Picked(g: seq<seq<Label>>, gap: nat, risk: int, rows: nat, cols: nat): seq<Point>
    requires Spans(g, rows, cols)
  {
    if rows == 0 then []
    else Picked(g, gap, risk, rows - 1, cols) + RowPicks(g[rows - 1], rows - 1, gap, risk, cols)
  }

  /** Every waypoint of row i comes from a qualifying cell j of that row. */
  lemma {:induction false} RowPickSource(row: seq<Label>, i: nat, gap: nat, risk: int, upto: nat, p: Point)
    returns (j: nat)
    requires upto <= |row| && p in RowPicks(row, i, gap, risk, upto)
    ensures j < upto && Qualifies(row[j], risk) && p == Point(j * gap, i * gap)
  {
    var rest := RowPicks(row, i, gap, risk, upto - 1);
    if p in rest {
      j := RowPickSource(row, i, gap, risk, upto - 1, p);
    } else {
      j := upto - 1;
    }
  }

  /** Every qualifying cell j of row i gives a waypoint, at position k of the row's picks. */
  lemma {:induction false} RowPickComplete(row: seq<Label>, i: nat, gap: nat, risk: int, upto: nat, j: nat)
    returns (k: nat)
    requires j < upto <= |row| && Qualifies(row[j], risk)
    ensures k < |RowPicks(row, i, gap, risk, upto)| && RowPicks(row, i, gap, risk, upto)[k] == Point(j * gap, i * gap)
  {
    var rest := RowPicks(row, i, gap, risk, upto - 1);
    if j < upto - 1 {
      k := RowPickComplete(row, i, gap, risk, upto - 1, j);
      assert RowPicks(row, i, gap, risk, upto)[k] == rest[k];
    } else {
      k := |rest|;
    }
  }

  /** The k-th waypoint comes from a qualifying cell (i, j) and sits at (j * gap, i * gap). */
  lemma {:induction false} PickedAt(g: seq<seq<Label>>, gap: nat, risk: int, rows: nat, cols: nat, k: nat)
    returns (i: nat, j: nat)
    requires Spans(g, rows, cols) && k < |Picked(g, gap, risk, rows, cols)|
    ensures i < rows && j < cols && Qualifies(g[i][j], risk)
    ensures Picked(g, gap, risk, rows, cols)[k] == Point(j * gap, i * gap)
  {
    var above := Picked(g, gap, risk, rows - 1, cols);
    var last := RowPicks(g[rows - 1], rows - 1, gap, risk, cols);
    assert Picked(g, gap, risk, rows, cols) == above + last;
    if k < |above| {
      i, j := PickedAt(g, gap, risk, rows - 1, cols, k);
    } else {
      i := rows - 1;
      j := RowPickSource(g[i], i, gap, risk, cols, last[k - |above|]);
    }
  }

  /** Every waypoint comes from a qualifying cell (i, j) and sits at (j * gap, i * gap). */
  lemma PickedSource(g: seq<seq<Label>>, gap: nat, risk: int, rows: nat, cols: nat, p: Point)
    returns (i: nat, j: nat)
    requires Spans(g, rows, cols) && p in Picked(g, gap, risk, rows, cols)
    ensures i < rows && j < cols && Qualifies(g[i][j], risk) && p == Point(j * gap, i * gap)
  {
    var s := Picked(g, gap, risk, rows, cols);
    var k :| 0 <= k < |s| && s[k] == p;
    i, j := PickedAt(g, gap, risk, rows, cols, k);
  }

  /** Every qualifying cell (i, j) gives the waypoint (j * gap, i * gap), at position k. */
  lemma {:induction false} PickedCompleteAt(g: seq<seq<Label>>, gap: nat, risk: int, rows: nat, cols: nat, i: nat, j: nat)
    returns (k: nat)
    requires Spans(g, rows, cols) && i < rows && j < cols && Qualifies(g[i][j], risk)
    ensures k < |Picked(g, gap, risk, rows, cols)| && Picked(g, gap, risk, rows, cols)[k] == Point(j * gap, i * gap)
  {
    var above := Picked(g, gap, risk, rows - 1, cols);
    var last := RowPicks(g[rows - 1], rows - 1, gap, risk, cols);
    assert Picked(g, gap, risk, rows, cols) == above + last;
    if i < rows - 1 {
      assert Spans(g, rows - 1, cols);
      k := PickedCompleteAt(g, gap, risk, rows - 1, cols, i, j);
      assert (above + last)[k] == above[k];
    } else {
      var r := RowPickComplete(g[i], i, gap, risk, cols, j);
      k := |above| + r;
      assert (above + last)[k] == last[r];
    }
  }

  /** Every qualifying cell (i, j) gives the waypoint (j * gap, i * gap). */
  lemma PickedComplete(g: seq<seq<Label>>, gap: nat, risk: int, rows: nat, cols: nat, i: nat, j: nat)
    requires Spans(g, rows, cols) && i < rows && j < cols && Qualifies(g[i][j], risk)
    ensures Point(j * gap, i * gap) in Picked(g, gap, risk, rows, cols)
  {
    var k := PickedCompleteAt(g, gap, risk, rows, cols, i, j);
  }

  /** No waypoint comes from a cell labelled R, or from a Y cell unless risk == 1. */
  lemma PickedNeverBlocked(g: seq<seq<Label>>, gap: nat, risk: int, rows: nat, cols: nat, p: Point)
    returns (i: nat, j: nat)
    requires Spans(g, rows, cols) && p in Picked(g, gap, risk, rows, cols)
    ensures i < rows && j < cols && p == Point(j * gap, i * gap)
    ensures g[i][j] != R && g[i][j] != Unset && (g[i][j] == Y ==> risk == 1)
  {
    i, j := PickedSource(g, gap, risk, rows, cols, p);
  }

  /** Row-major order on positions: by y, then by x. */
  predicate RowMajorBefore(p: Point, q: Point) {
    p.y < q.y || (p.y == q.y && p.x < q.x)
  }

  predicate RowMajorSorted(ps: seq<Point>) {
    forall a, b :: 0 <= a < b < |ps| ==> RowMajorBefore(ps[a], ps[b])
  }

  /** Every point of ps lies on the pixel row y. */
  predicate AllOnRow(ps: seq<Point>, y: int) {
    forall a :: 0 <= a < |ps| ==> ps[a].y == y
  }

  /** Every point of ps lies above the pixel row y. */
  predicate AllAbove(ps: seq<Point>, y: int) {
    forall a :: 0 <= a < |ps| ==> ps[a].y < y
  }

  /** Every point of ps lies left of the pixel column x. */
  predicate AllLeftOf(ps: seq<Point>, x: int) {
    forall a :: 0 <= a < |ps| ==> ps[a].x < x
  }

  lemma {:induction false} RowPicksShape(row: seq<Label>, i: nat, gap: nat, risk: int, upto: nat)
    requires upto <= |row| && gap > 0
    ensures RowMajorSorted(RowPicks(row, i, gap, risk, upto))
    ensures AllOnRow(RowPicks(row, i, gap, risk, upto), i * gap)
    ensures AllLeftOf(RowPicks(row, i, gap, risk, upto), upto * gap)
  {
    if upto > 0 {
      var x := (upto - 1) * gap;
      RowPicksShape(row, i, gap, risk, upto - 1);
      assert x + gap == upto * gap;
      var rest := RowPicks(row, i, gap, risk, upto - 1);
      RowAppend(rest, Point(x, i * gap), upto * gap);
    }
  }

  /** Appending a point right of a sorted row keeps it sorted; a bound beyond the point still holds. */
  lemma RowAppend(r: seq<Point>, p: Point, bound: int)
    requires RowMajorSorted(r) && AllOnRow(r, p.y) && AllLeftOf(r, p.x) && p.x < bound
    ensures RowMajorSorted(r) && AllOnRow(r, p.y) && AllLeftOf(r, bound)
    ensures RowMajorSorted(r + [p]) && AllOnRow(r + [p], p.y) && AllLeftOf(r + [p], bound)
  {
    var r' := r + [p];
    forall a | 0 <= a < |r'|
      ensures r'[a].y == p.y && r'[a].x < bound
    {
      if a < |r| {
        assert r'[a] == r[a];
      }
    }
    forall a, b | 0 <= a < b < |r'|
      ensures RowMajorBefore(r'[a], r'[b])
    {
      assert r'[a] == r[a];
      if b < |r| {
        assert r'[b] == r[b];
      }
    }
  }

  /** Every waypoint of the first `rows` rows lies above pixel row rows * gap. */
  lemma {:induction false} PickedAbove(g: seq<seq<Label>>, gap: nat, risk: int, rows: nat, cols: nat)
    requires Spans(g, rows, cols) && gap > 0
    ensures AllAbove(Picked(g, gap, risk, rows, cols), rows * gap)
  {
    if rows > 0 {
      var above := Picked(g, gap, risk, rows - 1, cols);
      var row := RowPicks(g[rows - 1], rows - 1, gap, risk, cols);
      PickedAbove(g, gap, risk, rows - 1, cols);
      RowPicksShape(g[rows - 1], rows - 1, gap, risk, cols);
      MulMono(rows - 1, rows, gap);
      assert (rows - 1) * gap + gap == rows * gap;
      var ps := above + row;
      forall a | 0 <= a < |ps|
        ensures ps[a].y < rows * gap
      {
        if a < |above| {
          assert ps[a] == above[a];
        } else {
          assert ps[a] == row[a - |above|];
        }
      }
    }
  }

  /** The waypoints are in strict row-major order, so in particular distinct. */
  lemma {:induction false} PickedSorted(g: seq<seq<Label>>, gap: nat, risk: int, rows: nat, cols: nat)
    requires Spans(g, rows, cols) && gap > 0
    ensures RowMajorSorted(Picked(g, gap, risk, rows, cols))
  {
    if rows > 0 {
      PickedSorted(g, gap, risk, rows - 1, cols);
      PickedAbove(g, gap, risk, rows - 1, cols);
      RowPicksShape(g[rows - 1], rows - 1, gap, risk, cols);
      SortedConcat(Picked(g, gap, risk, rows - 1, cols), RowPicks(g[rows - 1], rows - 1, gap, risk, cols), (rows - 1) * gap);
    }
  }

  lemma SortedConcat(a: seq<Point>, b: seq<Point>, y: int)
    requires RowMajorSorted(a) && RowMajorSorted(b)
    requires AllAbove(a, y) && AllOnRow(b, y)
    ensures RowMajorSorted(a + b)
  {
    var c := a + b;
    forall s, t | 0 <= s < t < |c|
      ensures RowMajorBefore(c[s], c[t])
    {
      if t < |a| {
        assert c[s] == a[s] && c[t] == a[t];
      } else if s < |a| {
        assert c[s] == a[s] && c[t] == b[t - |a|];
      } else {
        assert c[s] == b[s - |a|] && c[t] == b[t - |a|];
      }
    }
  }

  /** The selection loop of connect_points: for each row y, for each column x, keep (x, y) if the cell qualifies. */
  method SelectWaypoints(grid: seq<seq<Label>>, gap: nat, risk: int, rows: nat, cols: nat) returns (coords: seq<Point>)
    requires Spans(grid, rows, cols)
    ensures coords == Picked(grid, gap, risk, rows, cols)
  {
    coords := [];
    var i := 0;
    while i < rows
      invariant 0 <= i <= rows
      invariant coords == Picked(grid, gap, risk, i, cols)
    {
      var y := i * gap;
      var j := 0;
      ghost var above := coords;
      while j < cols
        invariant 0 <= j <= cols
        invariant coords == above + RowPicks(grid[i], i, gap, risk, j)
      {
        var x := j * gap;
        if grid[i][j] == G || (risk == 1 && grid[i][j] == Y) {
          coords := coords + [Point(x, y)];
        }
        j := j + 1;
      }
      i := i + 1;
    }
  }

  /** The distance matrix the solvers are given: dist[i][j] = chebyshev(coords[i], coords[j]). */
  function Distances(coords: seq<Point>): (dist: seq<seq<int>>)
    ensures |dist| == |coords| && IsSquare(dist)
  {
    seq(|coords|, i requires 0 <= i < |coords| =>
      seq(|coords|, j requires 0 <= j < |coords| => Chebyshev(coords[i], coords[j])))
  }

  /** The matrix is symmetric with a zero diagonal and non-negative entries. */
  lemma DistancesMetric(coords: seq<Point>)
    ensures IsSymmetric(Distances(coords))
    ensures forall i :: 0 <= i < |coords| ==> Distances(coords)[i][i] == 0
    ensures forall i, j :: 0 <= i < |coords| && 0 <= j < |coords| ==> Distances(coords)[i][j] >= 0
  {
    var d := Distances(coords);
    forall i, j | 0 <= i < |coords| && 0 <= j < |coords|
      ensures d[i][j] == d[j][i] && d[i][j] >= 0
    {
      ChebyshevMetric(coords[i], coords[j], coords[j]);
    }
    forall i | 0 <= i < |coords|
      ensures d[i][i] == 0
    {
      ChebyshevMetric(coords[i], coords[i], coords[i]);
    }
  }

  /** Entry (p, q) has been written once the (i, j)-loop has passed the pair min(p, q), max(p, q). */
  predicate Written(p: nat, q: nat, i: nat, j: nat) {
    p != q && (if p < q then p < i || (p == i && q < j) else q < i || (q == i && p < j))
  }

  /** A matrix of the given size holding chebyshev on the written pairs and 0 elsewhere. */
  ghost predicate FilledUpTo(dist: seq<seq<int>>, coords: seq<Point>, i: nat, j: nat) {
    |dist| == |coords| && IsSquare(dist) &&
    forall p: nat, q: nat :: 0 <= p < |coords| && 0 <= q < |coords| ==>
      dist[p][q] == Expected(coords, p, q, i, j)
  }

  /** The entry (p, q) once the loop has reached (i, j): chebyshev if written, else the initial 0. */
  function Expected(coords: seq<Point>, p: nat, q: nat, i: nat, j: nat): int
    requires p < |coords| && q < |coords|
  {
    if Written(p, q, i, j) then Chebyshev(coords[p], coords[q]) else 0
  }

  /** Writing dist[i][j] = dist[j][i] = chebyshev(coords[i], coords[j]) marks one more pair written. */
  lemma WriteStep(dist: seq<seq<int>>, coords: seq<Point>, i: nat, j: nat)
    requires i < j < |coords| && FilledUpTo(dist, coords, i, j)
    ensures var d := Chebyshev(coords[i], coords[j]);
      var d1 := dist[i := dist[i][j := d]];
      var d2 := d1[j := d1[j][i := d]];
      FilledUpTo(d2, coords, i, j + 1)
  {
    var d := Chebyshev(coords[i], coords[j]);
    var d1 := dist[i := dist[i][j := d]];
    var d2 := d1[j := d1[j][i := d]];
    ChebyshevMetric(coords[i], coords[j], coords[j]);
    assert |d1[j]| == |coords|;
    assert |d2| == |coords|;
    assert forall p :: 0 <= p < |d2| ==> |d2[p]| == |coords|;
    assert d2[i] == d1[i] && d2[i][j] == d;
    assert d2[j][i] == d;
    forall p | 0 <= p < |coords| && p != i && p != j
      ensures d2[p] == dist[p]
    {
    }
    forall p: nat, q: nat | 0 <= p < |coords| && 0 <= q < |coords|
      ensures d2[p][q] == Expected(coords, p, q, i, j + 1)
    {
      if p == i && q == j {
        assert Written(p, q, i, j + 1);
      } else if p == j && q == i {
        assert Written(p, q, i, j + 1);
        assert d2[p][q] == d == Chebyshev(coords[p], coords[q]);
      } else if p == i {
        assert d2[p][q] == dist[p][q];
        assert Expected(coords, p, q, i, j + 1) == Expected(coords, p, q, i, j);
      } else if p == j {
        assert d2[p][q] == d1[j][q] == dist[p][q];
        assert Expected(coords, p, q, i, j + 1) == Expected(coords, p, q, i, j);
      } else {
        assert d2[p][q] == dist[p][q];
        assert Expected(coords, p, q, i, j + 1) == Expected(coords, p, q, i, j);
      }
    }
  }

  /** Nothing of row i is written before its j-loop starts at i + 1. */
  lemma RowStart(dist: seq<seq<int>>, coords: seq<Point>, i: nat)
    requires FilledUpTo(dist, coords, i, 0)
    ensures FilledUpTo(dist, coords, i, i + 1)
  {
    forall p: nat, q: nat | 0 <= p < |coords| && 0 <= q < |coords|
      ensures Expected(coords, p, q, i, 0) == Expected(coords, p, q, i, i + 1)
    {
    }
  }

  /** After its j-loop, all pairs of row i are written. */
  lemma RowEnd(dist: seq<seq<int>>, coords: seq<Point>, i: nat, j: nat)
    requires |coords| <= j && FilledUpTo(dist, coords, i, j)
    ensures FilledUpTo(dist, coords, i + 1, 0)
  {
    forall p: nat, q: nat | 0 <= p < |coords| && 0 <= q < |coords|
      ensures Expected(coords, p, q, i, j) == Expected(coords, p, q, i + 1, 0)
    {
    }
  }

  lemma WrittenAll(dist: seq<seq<int>>, coords: seq<Point>, i: nat)
    requires |coords| <= i && FilledUpTo(dist, coords, i, 0)
    ensures dist == Distances(coords)
  {
    forall p | 0 <= p < |coords|
      ensures dist[p] == Distances(coords)[p]
    {
      ChebyshevMetric(coords[p], coords[p], coords[p]);
    }
  }

  /** The zero matrix of size n. */
  function Zeros(n: nat): (z: seq<seq<int>>)
    ensures |z| == n && IsSquare(z)
    ensures forall p, q :: 0 <= p < n && 0 <= q < n ==> z[p][q] == 0
  {
    seq(n, _ => seq(n, _ => 0))
  }

  /** The dist loop of connect_points: fill the upper triangle and mirror each entry. */
  method BuildDistances(coords: seq<Point>) returns (dist: seq<seq<int>>)
    ensures dist == Distances(coords)
  {
    var n := |coords|;
    dist := Zeros(n);
    var i := 0;
    while i < n
      invariant 0 <= i <= n
      invariant FilledUpTo(dist, coords, i, 0)
    {
      var j := i + 1;
      RowStart(dist, coords, i);
      while j < n
        invariant i + 1 <= j <= if n < i + 1 then i + 1 else n
        invariant FilledUpTo(dist, coords, i, j)
      {
        var d := Chebyshev(coords[i], coords[j]);
        WriteStep(dist, coords, i, j);
        dist := dist[i := dist[i][j := d]];
        dist := dist[j := dist[j][i := d]];
        j := j + 1;
      }
      RowEnd(dist, coords, i, j);
      i := i + 1;
    }
    WrittenAll(dist, coords, i);
  }
}
