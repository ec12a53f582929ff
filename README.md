# Coverage path planning: grid classification and waypoint tour

A Dafny model of the path-planning core of the wall-coverage package. The model covers:

1. `draw_points` samples a wall mask every `gap` pixels. Each sample becomes
   G (on the wall) or R (blocked). A G sample with a blocked 8-neighbour
   becomes Y (caution). The outer ring of the grid is then forced to R.
2. `connect_points` keeps the G cells, and the Y cells as well when `risk == 1`, as pixel
   waypoints in row-major order. It weights every pair of waypoints by the Chebyshev
   distance.
3. It then orders the waypoints as a closed tour from waypoint 0:
   - with at most 10 waypoints, by the exact Held-Karp dynamic programme;
   - with more, by a nearest-neighbour tour improved by 2-opt.
4. Finally it stitches the routes between consecutive tour waypoints into one
   movement path. At each join it drops the duplicated junction point.

Files:

- `grid.dfy` (module `Grid`): the three passes of `draw_points` as loops over a
  `seq<seq<Label>>` grid. Each pass reassigns the grid. Each pass is proved equal to a
  function of the grid before it (`BaseGrid`, `Refined`, `Bordered`). The
  classification is also stated on the mask alone.
- `tours.dfy` (module `Tours`): distance matrices, path cost, closed tours, and
  the segment reversal of 2-opt.
- `held_karp.dfy` (module `HeldKarp`): `held_karp`. The memo maps a state
  (set of visited nodes, last node) to (cost, path). The bitmask is represented by
  the set it encodes.
- `nearest_neighbor.dfy` (module `NearestNeighbor`): `nearest_neighbor_2opt`.
- `waypoints.dfy` (module `Waypoints`): `chebyshev`, waypoint selection and the
  distance matrix.
- `connect.dfy` (module `Connect`): `fast_path` over an abstract router, the
  stitching loop and `connect_points` without the drawing.

## Model

| member | source | states |
|---|---|---|
| Grid.LabelSamples | package/draw_points.py:11-17 | the grid is rows x cols, with rows = ceil(H/gap) and cols = ceil(W/gap); every cell is G when the mask is set at its sample (i*gap, j*gap), else R |
| Grid.ScanNeighbours | package/draw_points.py:24-29 | the neighbour scan answers true exactly when some in-bounds 8-neighbour is R |
| Grid.MarkCaution | package/draw_points.py:19-29 | the in-place, row-major refinement, where each cell tests the partly updated grid, still yields the order-independent refinement of the first-pass grid |
| Grid.MarkCautionRow | package/draw_points.py:22-29 | one row of the refinement pass replaces exactly that row by its refined row; other rows are untouched |
| Grid.BlockBorder | package/draw_points.py:31-37 | the border pass sets the first and last row and column to R and leaves every other cell unchanged |
| Grid.DrawPoints | package/draw_points.py:6-37 | the returned grid is the three passes composed, has shape rows x cols, and holds only G, Y or R |
| Grid.ClassifyLabels | package/draw_points.py:13-17 | the '' placeholder never survives the first pass |
| Grid.BorderBlocked | package/draw_points.py:31-37 | every outer-ring cell ends as R |
| Grid.InteriorUnchanged | package/draw_points.py:31-37 | the border pass never changes an interior cell |
| Grid.CautionIff | package/draw_points.py:21-29 | after refinement a cell is Y if and only if it was G with an in-bounds R 8-neighbour |
| Grid.LabelMonotone | package/draw_points.py:15-37 | an R sample stays R; a final G or Y cell was a G sample of a set mask pixel |
| Grid.ClassifyMeaning | package/draw_points.py:11-37 | the final label of every cell in terms of the mask alone: R on the border or off the mask, else Y if some 8-neighbour sample is off the mask, else G |
| Grid.EmptyMaskAllBlocked | package/draw_points.py:15-37 | an all-false mask gives an all-R grid |
| Waypoints.Chebyshev | package/connect_points.py:18-19 | the distance is the larger of the two coordinate differences: at least each of them and equal to one; ChebyshevMetric proves it a metric |
| Waypoints.ChebyshevMetric | package/connect_points.py:18-19 | the Chebyshev distance is non-negative, zero exactly on equal points, symmetric and satisfies the triangle inequality |
| Waypoints.SelectWaypoints | package/connect_points.py:85-91 | the two loops produce exactly the list of qualifying cells' pixels in row-major order |
| Waypoints.PickedAt | package/connect_points.py:88-91 | the k-th waypoint comes from a qualifying cell (i, j) and sits at (j*gap, i*gap) |
| Waypoints.PickedSource | package/connect_points.py:88-91 | every waypoint comes from a cell labelled G, or Y with risk == 1, and sits at (j*gap, i*gap) |
| Waypoints.PickedCompleteAt | package/connect_points.py:88-91 | every qualifying cell (i, j) gives a waypoint (j*gap, i*gap) at some index |
| Waypoints.PickedComplete | package/connect_points.py:88-91 | every qualifying cell (i, j) gives the waypoint (j*gap, i*gap) |
| Waypoints.PickedNeverBlocked | package/connect_points.py:90 | no waypoint comes from an R or unset cell, nor from a Y cell unless risk == 1 |
| Waypoints.RowPickSource | package/connect_points.py:89-91 | every waypoint of one row comes from a qualifying cell of that row |
| Waypoints.RowPickComplete | package/connect_points.py:89-91 | every qualifying cell of one row gives a waypoint of that row |
| Waypoints.RowPicksShape | package/connect_points.py:89-91 | one row's waypoints lie on pixel row i*gap, strictly left to right, to the left of upto*gap |
| Waypoints.PickedAbove | package/connect_points.py:88-91 | the waypoints of the first rows lie above the pixel row of the next row |
| Waypoints.PickedSorted | package/connect_points.py:88-91 | the waypoint list is strictly increasing in row-major order (by y, then x), so it has no duplicates |
| Waypoints.BuildDistances | package/connect_points.py:97-101 | the loop over pairs i < j, writing both dist[i][j] and dist[j][i], yields the full Chebyshev matrix, diagonal 0 |
| Waypoints.DistancesMetric | package/connect_points.py:97-101 | the matrix is square, symmetric, zero on the diagonal and non-negative |
| Tours.ReverseSegment | package/connect_points.py:69 | the slice assignment tour[i..j] = reversed keeps the length of the tour; ReverseSegmentTour, ReverseMultiset and ReverseSegmentCost carry what it keeps |
| Tours.ReverseSegmentTour | package/connect_points.py:69 | reversing tour[i..j] with 1 <= i < j <= n-1 keeps a closed tour over the same nodes |
| Tours.ReverseSegmentCost | package/connect_points.py:64-69 | with a symmetric matrix, the reversal changes the tour cost by exactly new - old of the gain test |
| Tours.ReverseCost | package/connect_points.py:69 | with a symmetric matrix, a path costs the same walked backwards |
| Tours.ReverseMultiset | package/connect_points.py:69 | a reversal keeps the multiset of nodes |
| Tours.PathCostLowerBound | package/connect_points.py:59-70 | a path of e edges costs at least e times the smallest matrix entry, which bounds the 2-opt loop |
| HeldKarp.Combos | package/connect_points.py:28 | itertools.combinations(range(lo, hi), m) in lexicographic order: the one empty tuple when m is 0; CombosTooMany, CombosShape and CombosComplete carry the rest |
| HeldKarp.CombosTooMany | package/connect_points.py:28 | no combination has more elements than the range holds: the result is empty when m > hi - lo |
| HeldKarp.CombosShape | package/connect_points.py:28 | every generated combination has m strictly ascending elements from range(lo, hi) |
| HeldKarp.CombosComplete | package/connect_points.py:28 | every m-element subset of range(lo, hi) is the element set of some generated combination |
| HeldKarp.InitSingletons | package/connect_points.py:24-26 | the memo holds an optimal entry (dist[0][k], [0, k]) for every one-node state ({k}, k) |
| HeldKarp.CollectOptions | package/connect_points.py:32-37 | the j-loop collects, in subset order and skipping j == k, the option (cost + dist[j][k], path + [k]) of each predecessor state |
| HeldKarp.FirstMin | package/connect_points.py:38 | min(opts, key=cost), here and in the closing step, picks an index of least cost, and every earlier option is strictly dearer, so ties go to the first |
| HeldKarp.BestOption | package/connect_points.py:38 | min over the options (the first of least cost) is a path through the subset ending at k, and no such path is cheaper |
| HeldKarp.BestEntry | package/connect_points.py:30-38 | the entry stored for (bits, k) is optimal among paths from 0 through exactly bits ending at k |
| HeldKarp.FillCombination | package/connect_points.py:29-38 | after one subset every state (bits, k), k in the subset, is present; the memo stays sound and keeps its keys |
| HeldKarp.FillStage | package/connect_points.py:27-38 | after round m every state of size <= m is present and optimal |
| HeldKarp.OptionsLowerBound | package/connect_points.py:30-38 | every path through the subset ending at k is at least as costly as some collected option |
| HeldKarp.TrimPath | package/connect_points.py:31-37 | a path through S ending at k is a path through S - {k} ending at its penultimate node j in S, plus the edge j -> k |
| HeldKarp.ExtendPath | package/connect_points.py:37 | appending k to a path through S ending at j gives a path through S + {k} ending at k, one edge dearer |
| HeldKarp.CloseOptions | package/connect_points.py:39-43 | the closing loop builds, for k = 1..n-1 in order, the full state for k extended back to 0 |
| HeldKarp.BestClosing | package/connect_points.py:44 | the first cheapest closing option is a closed tour, and no closed tour is cheaper |
| HeldKarp.HeldKarp | package/connect_points.py:22-44 | no result exactly when n < 2 (min of no options); otherwise a closed tour from 0 of least cost among all closed tours |
| NearestNeighbor.NearestExists | package/connect_points.py:53 | a non-empty set of unvisited nodes has a nearest one |
| NearestNeighbor.GreedyStep | package/connect_points.py:52-56 | moving to a nearest unvisited node keeps the greedy property of the walk |
| NearestNeighbor.NearestNeighbourTour | package/connect_points.py:48-57 | the greedy phase returns a closed tour (or [0, 0] on an empty matrix) in which every step goes to a node at least as near as every node visited after it |
| NearestNeighbor.TwoOptPass | package/connect_points.py:61-70 | a pass without reversal leaves the tour unchanged and then no pair passes the gain test; a pass with one strictly lowers the cost; the tour stays closed |
| NearestNeighbor.TwoOpt | package/connect_points.py:59-70 | the improvement loop ends with a closed, 2-opt optimal tour no dearer than the greedy one |
| NearestNeighbor.DeltaIsGainTest | package/connect_points.py:64-68 | the gain test new < old reads matrix entries of tour nodes and is the reversal delta being negative |
| NearestNeighbor.NearestNeighbor2Opt | package/connect_points.py:47-71 | the result is a closed tour (or [0, 0]), 2-opt optimal, no dearer than the greedy tour it started from |
| Connect.SwapRoundTrip | package/connect_points.py:11-15 | the (x, y) to (row, col) swap and back is the identity in both directions |
| Connect.FastPath | package/connect_points.py:7-15 | the route has one point per router cell, each (row, col) swapped back to (x, y); FastPathEnds carries its end points |
| Connect.FastPathEnds | package/connect_points.py:7-15 | with a sound router, fast_path runs from start to goal |
| Connect.Stitch | package/connect_points.py:108-113 | the stitching loop yields the routes joined, with the last point popped before each extend |
| Connect.JoinedLength | package/connect_points.py:108-113 | the movement length is the sum of route lengths minus the number of joins |
| Connect.JoinedEnds | package/connect_points.py:108-113 | chained routes join into a path from the first route's start to the last route's end |
| Connect.JoinedKeepsPoints | package/connect_points.py:108-113 | with chained routes no point of any route is lost by the pops |
| Connect.JoinedDropsJunctions | package/connect_points.py:108-113 | with chained routes the movement is the first route followed by every later route without its first point |
| Connect.SegmentsChained | package/connect_points.py:109-110 | with a sound router consecutive routes meet: each ends at the waypoint where the next starts |
| Connect.TourPointKept | package/connect_points.py:108-113 | every tour waypoint is a point of the movement |
| Connect.MovementShape | package/connect_points.py:103-113 | the movement starts and ends at waypoint 0, visits every waypoint, and its length is the route total minus the joins |
| Connect.ConnectPoints | package/connect_points.py:85-113 | waypoints are the qualifying cells in row-major order; fewer than two give an empty tour and movement; otherwise the tour is closed, the cheapest possible for at most 10 waypoints and 2-opt optimal for more; the movement is the stitched routes |

## Left out

- The segmentation input: `results[0].masks` and `np.any` (draw_points.py:7-9, connect_points.py:81-83). The model takes the combined boolean mask directly, as a rectangular `seq<seq<bool>>`.
- Image reading and drawing with OpenCV (draw_points.py:39-48, connect_points.py:115-129). They produce only the returned image, which is not modelled.
- route_through_array and its float cost array (connect_points.py:8-14). The router is a function parameter. `RouterSound` is the assumption that its path starts at the start cell and ends at the goal cell. That is a property of the scikit-image library, not something proved here.
- Connect.ConnectPoints: the source returns (image, movement). The model returns the waypoints and the tour as well, so that their properties can be stated. For fewer than two waypoints the source returns no tour at all; the model returns an empty one.
- Connect.ConnectPoints: the source indexes `grid[i][j]` for every sample. The model therefore requires that the grid spans the sample rows and columns of the mask; a smaller grid raises IndexError in the source.
- HeldKarp.HeldKarp: with fewer than two nodes the source raises ValueError from `min` of an empty list. The model returns `None` instead.
- HeldKarp.HeldKarp: the bitmask `bits` is represented by the set of nodes it encodes, and `bits ^ (1 << k)` by set difference.
- HeldKarp.HeldKarp: the contract states optimality. Among several optimal tours it does not say which one is returned. The body picks the first minimum exactly as Python's `min` does (`FirstMin`).
- NearestNeighbor.NearestNeighbourTour: Python's `min(unv, key=...)` breaks ties by set iteration order. The model picks some nearest unvisited node, so the contract holds for every tie-break.
- NearestNeighbor.TwoOpt: it requires a symmetric matrix. Termination and the cost decrease rely on that requirement. connect_points always passes a symmetric matrix (Waypoints.DistancesMetric). For an asymmetric matrix the source loop is not known to terminate.
- Python integers are unbounded, and so are Dafny's. The model has no width, wrap-around or floating-point arithmetic.
- The rest of the repository (app.py, helpers/path_following.py, services/) is not part of this model.
