/**
 * connect_points (package/connect_points.py, lines 85-113): select the
 * waypoints, build the Chebyshev matrix, solve the tour (Held-Karp for at
 * most 10 waypoints, nearest neighbour with 2-opt otherwise), and stitch the
 * routes between consecutive tour nodes into one movement path, dropping the
 * duplicated junction point at each join.
 *
 * fast_path's router (scikit-image route_through_array over the mask) is a
 * function parameter; RouterSound states what the stitching relies on.
 */
module Connect {
  import opened Grid
  import opened Tours
  import opened Waypoints
  import HeldKarp
  import NearestNeighbor

  /** An image cell (row, column): the coordinate order of route_through_array. */
  datatype Cell = Cell(r: int, c: int)

  /** (start[1], start[0]): a waypoint (x, y) as the cell (y, x). */
  function ToCell(p: Point): Cell {
    Cell(p.y, p.x)
  }

  /** (c, r) for each (r, c): a cell back as a point (x, y). */
  function ToPoint(cell: Cell): Point {
    Point(cell.c, cell.r)
  }

  /** The swap is its own inverse in both directions. */
  lemma SwapRoundTrip(p: Point, cell: Cell)
    ensures ToPoint(ToCell(p)) == p
    ensures ToCell(ToPoint(cell)) == cell
  {
  }

  /** A router over a mask: the cells of a path from the first cell to the second. */
  type Router = (seq<seq<bool>>, Cell, Cell) -> seq<Cell>

  /** The router's paths run from the start cell to the goal cell. */
  ghost predicate RouterSound(router: Router, mask: seq<seq<bool>>) {
    forall s, g :: |router(mask, s, g)| >= 1 && router(mask, s, g)[0] == s &&
      router(mask, s, g)[|router(mask, s, g)| - 1] == g
  }

  /** fast_path(mask, start, goal): the router's cells turned back into points. */
  function FastPath(mask: seq<seq<bool>>, router: Router, start: Point, goal: Point): (path: seq<Point>)
    ensures |path| == |router(mask, ToCell(start), ToCell(goal))|
  {
    var cells := router(mask, ToCell(start), ToCell(goal));
    seq(|cells|, k requires 0 <= k < |cells| => ToPoint(cells[k]))
  }

  /** With a sound router, fast_path runs from start to goal. */
  lemma FastPathEnds(mask: seq<seq<bool>>, router: Router, start: Point, goal: Point)
    requires RouterSound(router, mask)
    ensures var path := FastPath(mask, router, start, goal);
      |path| >= 1 && path[0] == start && path[|path| - 1] == goal
  {
    var cells := router(mask, ToCell(start), ToCell(goal));
    assert |cells| >= 1 && cells[0] == ToCell(start) && cells[|cells| - 1] == ToCell(goal);
    SwapRoundTrip(start, cells[0]);
    SwapRoundTrip(goal, cells[0]);
  }

  /** The route for each pair (tour[k], tour[k+1]) of zip(tour, tour[1:]). */
  function Segments(mask: seq<seq<bool>>, router: Router, coords: seq<Point>, tour: seq<nat>): (segs: seq<seq<Point>>)
    requires forall k :: 0 <= k < |tour| ==> tour[k] < |coords|
    ensures |segs| == if |tour| == 0 then 0 else |tour| - 1
  {
    if |tour| == 0 then
      []
    else
      seq(|tour| - 1, k requires 0 <= k < |tour| - 1 => Leg(mask, router, coords, tour, k))
  }

  /** The route from waypoint tour[k] to waypoint tour[k + 1]; empty when there is no such pair. */
  function Leg(mask: seq<seq<bool>>, router: Router, coords: seq<Point>, tour: seq<nat>, k: nat): seq<Point> {
    if k + 1 < |tour| && tour[k] < |coords| && tour[k + 1] < |coords| then
      FastPath(mask, router, coords[tour[k]], coords[tour[k + 1]])
    else
      []
  }

  /** The movement list after extending by every segment, popping the last point before each extend. */
  function Joined(segs: seq<seq<Point>>): seq<Point> {
    if |segs| == 0 then []
    else
      var m := Joined(segs[..|segs| - 1]);
      (if |m| > 0 then m[..|m| - 1] else []) + segs[|segs| - 1]
  }

  /** The total number of points over all segments. */
  function TotalLength(segs: seq<seq<Point>>): nat {
    if |segs| == 0 then 0 else TotalLength(segs[..|segs| - 1]) + |segs[|segs| - 1]|
  }

  predicate NonEmptySegments(segs: seq<seq<Point>>) {
    forall k :: 0 <= k < |segs| ==> |segs[k]| >= 1
  }

  /** Each join drops exactly one point: the length is the total minus the number of joins. */
  lemma {:induction false} JoinedLength(segs: seq<seq<Point>>)
    requires |segs| >= 1 && NonEmptySegments(segs)
    ensures |Joined(segs)| == TotalLength(segs) - (|segs| - 1)
  {
    if |segs| > 1 {
      var init := segs[..|segs| - 1];
      assert NonEmptySegments(init) by {
        forall k | 0 <= k < |init|
          ensures |init[k]| >= 1
        {
          assert init[k] == segs[k];
        }
      }
      JoinedLength(init);
      assert TotalLength(init) >= |init| by {
        TotalAtLeastCount(init);
      }
    }
  }

  lemma {:induction false} TotalAtLeastCount(segs: seq<seq<Point>>)
    requires NonEmptySegments(segs)
    ensures TotalLength(segs) >= |segs|
  {
    if |segs| > 0 {
      var init := segs[..|segs| - 1];
      assert NonEmptySegments(init) by {
        forall k | 0 <= k < |init|
          ensures |init[k]| >= 1
        {
          assert init[k] == segs[k];
        }
      }
      TotalAtLeastCount(init);
    }
  }

  /** Consecutive segments meet: each one ends where the next one starts. */
  predicate Chained(segs: seq<seq<Point>>)
    requires NonEmptySegments(segs)
  {
    forall k :: 0 <= k < |segs| - 1 ==> segs[k][|segs[k]| - 1] == segs[k + 1][0]
  }

  /** Chained segments join into a path from the first segment's start to the last one's end. */
  lemma {:induction false} JoinedEnds(segs: seq<seq<Point>>)
    requires |segs| >= 1 && NonEmptySegments(segs) && Chained(segs)
    ensures var m := Joined(segs);
      |m| >= 1 && m[0] == segs[0][0] && m[|m| - 1] == segs[|segs| - 1][|segs[|segs| - 1]| - 1]
  {
    if |segs| > 1 {
      var init := segs[..|segs| - 1];
      assert NonEmptySegments(init) && Chained(init) by {
        forall a | 0 <= a < |init|
          ensures init[a] == segs[a]
        {
        }
      }
      JoinedEnds(init);
    }
  }

  /** The first segment, then every later segment without its first point. */
  function DropJunctions(segs: seq<seq<Point>>): seq<Point>
    requires NonEmptySegments(segs)
  {
    if |segs| == 0 then []
    else if |segs| == 1 then segs[0]
    else DropJunctions(segs[..|segs| - 1]) + segs[|segs| - 1][1..]
  }

  /**
   * For chained segments, popping the movement's last point before each
   * extend removes exactly the duplicated junction: the movement is
   * segs[0] + segs[1][1..] + ... + segs[|segs|-1][1..].
   */
  lemma {:induction false} JoinedDropsJunctions(segs: seq<seq<Point>>)
    requires NonEmptySegments(segs) && Chained(segs)
    ensures Joined(segs) == DropJunctions(segs)
  {
    if |segs| > 1 {
      var init := segs[..|segs| - 1];
      var last := segs[|segs| - 1];
      assert NonEmptySegments(init) && Chained(init) by {
        forall a | 0 <= a < |init|
          ensures init[a] == segs[a]
        {
        }
      }
      JoinedDropsJunctions(init);
      JoinedEnds(init);
      var m := Joined(init);
      assert init[|init| - 1] == segs[|segs| - 2];
      PopJoin(m, last);
    } else if |segs| == 1 {
      assert segs[..0] == [];
    }
  }

  /** Popping m's last point before appending s is dropping s's first point, when the two agree. */
  lemma PopJoin(m: seq<Point>, s: seq<Point>)
    requires |m| > 0 && |s| > 0 && m[|m| - 1] == s[0]
    ensures m[..|m| - 1] + s == m + s[1..]
  {
    assert m == m[..|m| - 1] + [s[0]];
    assert s == [s[0]] + s[1..];
  }

  /** With chained segments the popped point is the next segment's first: no point of any segment is lost. */
  lemma {:induction false} JoinedKeepsPoints(segs: seq<seq<Point>>, k: nat, x: Point)
    requires NonEmptySegments(segs) && Chained(segs)
    requires k < |segs| && x in segs[k]
    ensures x in Joined(segs)
  {
    var last := segs[|segs| - 1];
    if k < |segs| - 1 {
      var init := segs[..|segs| - 1];
      assert NonEmptySegments(init) && Chained(init) by {
        forall a | 0 <= a < |init|
          ensures init[a] == segs[a]
        {
        }
      }
      assert init[k] == segs[k];
      JoinedKeepsPoints(init, k, x);
      var m := Joined(init);
      JoinedEnds(init);
      assert m == m[..|m| - 1] + [m[|m| - 1]];
      if x !in m[..|m| - 1] {
        assert x == m[|m| - 1] == segs[|segs| - 2][|segs[|segs| - 2]| - 1] == last[0];
      }
    }
  }

  /** The stitching loop: for each (u, v) of zip(tour, tour[1:]), pop the last point if any, then extend. */
  method Stitch(mask: seq<seq<bool>>, router: Router, coords: seq<Point>, tour: seq<nat>) returns (movement: seq<Point>)
    requires forall k :: 0 <= k < |tour| ==> tour[k] < |coords|
    ensures movement == Joined(Segments(mask, router, coords, tour))
  {
    var segs := Segments(mask, router, coords, tour);
    movement := [];
    var k := 0;
    while k + 1 < |tour|
      invariant 0 <= k <= |segs|
      invariant movement == Joined(segs[..k])
    {
      var seg := FastPath(mask, router, coords[tour[k]], coords[tour[k + 1]]);
      assert seg == segs[k];
      assert segs[..k + 1][..k] == segs[..k];
      if |movement| > 0 {
        movement := movement[..|movement| - 1];
      }
      movement := movement + seg;
      k := k + 1;
    }
    assert segs[..k] == segs;
  }

  /** With a sound router, the segments of a tour are non-empty and chained, from coords[tour[0]] to coords[tour[|tour|-1]]. */
  lemma SegmentsChained(mask: seq<seq<bool>>, router: Router, coords: seq<Point>, tour: seq<nat>)
    requires RouterSound(router, mask) && |tour| >= 2
    requires forall k :: 0 <= k < |tour| ==> tour[k] < |coords|
    ensures var segs := Segments(mask, router, coords, tour);
      NonEmptySegments(segs) && Chained(segs) && segs[0][0] == coords[tour[0]] &&
      segs[|segs| - 1][|segs[|segs| - 1]| - 1] == coords[tour[|tour| - 1]]
  {
    var segs := Segments(mask, router, coords, tour);
    forall k | 0 <= k < |segs|
      ensures |segs[k]| >= 1 && segs[k][0] == coords[tour[k]] && segs[k][|segs[k]| - 1] == coords[tour[k + 1]]
    {
      SegmentAt(mask, router, coords, tour, k);
      FastPathEnds(mask, router, coords[tour[k]], coords[tour[k + 1]]);
    }
    assert NonEmptySegments(segs);
    assert Chained(segs);
  }

  /** Segment k is the route from waypoint tour[k] to waypoint tour[k + 1]. */
  lemma SegmentAt(mask: seq<seq<bool>>, router: Router, coords: seq<Point>, tour: seq<nat>, k: nat)
    requires k + 1 < |tour|
    requires forall k :: 0 <= k < |tour| ==> tour[k] < |coords|
    ensures Segments(mask, router, coords, tour)[k] == FastPath(mask, router, coords[tour[k]], coords[tour[k + 1]])
  {
  }

  /**
   * connect_points without the drawing: the waypoints, the tour over them and
   * the movement path. With fewer than two waypoints no solver runs and the
   * movement is empty.
   */
  method ConnectPoints(mask: seq<seq<bool>>, grid: seq<seq<Label>>, gap: nat, risk: int, router: Router)
    returns (coords: seq<Point>, tour: seq<nat>, movement: seq<Point>)
    requires Rectangular(mask) && gap > 0
    requires Spans(grid, Rows(mask, gap), Cols(mask, gap))
    ensures coords == Picked(grid, gap, risk, Rows(mask, gap), Cols(mask, gap))
    ensures |coords| < 2 ==> tour == [] && movement == []
    ensures |coords| >= 2 ==> IsClosedTour(tour, |coords|)
    ensures 2 <= |coords| <= 10 ==> forall t :: IsClosedTour(t, |coords|) ==>
      PathCost(Distances(coords), tour) <= PathCost(Distances(coords), t)
    ensures |coords| > 10 ==> NearestNeighbor.TwoOptOptimal(Distances(coords), tour)
    ensures forall k :: 0 <= k < |tour| ==> tour[k] < |coords|
    ensures movement == Joined(Segments(mask, router, coords, tour))
  {
    coords := SelectWaypoints(grid, gap, risk, Rows(mask, gap), Cols(mask, gap));
    var n := |coords|;
    if n < 2 {
      return coords, [], [];
    }
    var dist := BuildDistances(coords);
    DistancesMetric(coords);
    if n <= 10 {
      var r := HeldKarp.HeldKarp(dist);
      tour := r.value;
    } else {
      ghost var start;
      tour, start := NearestNeighbor.NearestNeighbor2Opt(dist);
    }
    ClosedTourNodes(tour, n);
    movement := Stitch(mask, router, coords, tour);
  }

  /** The waypoint of tour position k is a point of the route leaving it (or, for the last, entering it), so it is kept. */
  lemma TourPointKept(mask: seq<seq<bool>>, router: Router, coords: seq<Point>, tour: seq<nat>, k: nat)
    requires RouterSound(router, mask) && |tour| >= 2 && k < |tour|
    requires forall k :: 0 <= k < |tour| ==> tour[k] < |coords|
    ensures coords[tour[k]] in Joined(Segments(mask, router, coords, tour))
  {
    var segs := Segments(mask, router, coords, tour);
    SegmentsChained(mask, router, coords, tour);
    if k < |segs| {
      FastPathEnds(mask, router, coords[tour[k]], coords[tour[k + 1]]);
      assert segs[k][0] == coords[tour[k]];
      JoinedKeepsPoints(segs, k, coords[tour[k]]);
    } else {
      var s := segs[|segs| - 1];
      assert coords[tour[k]] == s[|s| - 1];
      JoinedKeepsPoints(segs, |segs| - 1, coords[tour[k]]);
    }
  }

  /**
   * With a sound router and at least two waypoints, the movement path starts
   * and ends at the first waypoint, loses no point of any route, and has
   * length (sum of route lengths) - (number of routes - 1).
   */
  lemma MovementShape(mask: seq<seq<bool>>, router: Router, coords: seq<Point>, tour: seq<nat>)
    requires RouterSound(router, mask) && |coords| >= 2 && IsClosedTour(tour, |coords|)
    ensures forall k :: 0 <= k < |tour| ==> tour[k] < |coords|
    ensures var segs := Segments(mask, router, coords, tour);
      var m := Joined(segs);
      |m| == TotalLength(segs) - (|segs| - 1) &&
      |m| >= 1 && m[0] == coords[0] && m[|m| - 1] == coords[0] &&
      forall k :: 0 <= k < |tour| ==> coords[tour[k]] in m
  {
    ClosedTourNodes(tour, |coords|);
    var segs := Segments(mask, router, coords, tour);
    SegmentsChained(mask, router, coords, tour);
    JoinedLength(segs);
    JoinedEnds(segs);
    forall k | 0 <= k < |tour|
      ensures coords[tour[k]] in Joined(segs)
    {
      TourPointKept(mask, router, coords, tour, k);
    }
  }
}
