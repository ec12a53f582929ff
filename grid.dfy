/**
 * Grid classification of a wall mask (package/draw_points.py, draw_points).
 *
 * The boolean mask is sampled every `gap` pixels in both directions. Each
 * sample is labelled G (on the wall) or R (blocked); a G sample with a blocked
 * 8-neighbour becomes Y (caution); finally the whole outer ring of the grid is
 * forced to R. The grid is a list of rows that the three passes update in
 * place; here it is a `seq<seq<Label>>` local that each pass reassigns.
 */
module Grid {

  /** A sample label. `Unset` is the '' placeholder the grid is created with. */
  datatype Label = Unset | G | Y | R

  /** A non-empty rectangular two-dimensional sequence (the mask, or a grid). */
  predicate Rectangular<T>(m: seq<seq<T>>) {
    |m| > 0 && |m[0]| > 0 && forall i :: 0 <= i < |m| ==> |m[i]| == |m[0]|
  }

  /** `g` has exactly `rows` rows of `cols` cells each. */
  predicate HasShape<T>(g: seq<seq<T>>, rows: nat, cols: nat) {
    |g| == rows && forall i :: 0 <= i < rows ==> |g[i]| == cols
  }

  /** Two grids of one shape that agree cell by cell are equal. */
  lemma GridExt<T>(g: seq<seq<T>>, h: seq<seq<T>>, rows: nat, cols: nat)
    requires HasShape(g, rows, cols) && HasShape(h, rows, cols)
    requires forall a, b :: 0 <= a < rows && 0 <= b < cols ==> g[a][b] == h[a][b]
    ensures g == h
  {
    forall a | 0 <= a < rows
      ensures g[a] == h[a]
    {
    }
  }

  /** The number of values in range(0, len, gap), that is ceil(len / gap). */
  function Samples(len: nat, gap: nat): nat
    requires gap > 0
  {
    (len + gap - 1) / gap
  }

  lemma MulMono(a: nat, b: nat, g: nat)
    requires a <= b
    ensures a * g <= b * g
  {
    assert b * g == a * g + (b - a) * g;
  }

  /** Sample index i exists exactly when its coordinate i * gap lies inside [0, len). */
  lemma SampleInRange(len: nat, gap: nat, i: nat)
    requires gap > 0
    ensures i < Samples(len, gap) <==> i * gap < len
  {
    var c := Samples(len, gap);
    var r := (len + gap - 1) % gap;
    assert c * gap + r == len + gap - 1;
    if i < c {
      MulMono(i + 1, c, gap);
      assert (i + 1) * gap == i * gap + gap;
    } else {
      MulMono(c, i, gap);
    }
  }

  /** Number of grid rows and columns for a mask. */
  function Rows(mask: seq<seq<bool>>, gap: nat): nat
    requires gap > 0
  {
    Samples(|mask|, gap)
  }

  function Cols(mask: seq<seq<bool>>, gap: nat): nat
    requires Rectangular(mask) && gap > 0
  {
    Samples(|mask[0]|, gap)
  }

  /** A non-empty mask gives at least one row and one column. */
  lemma GridNonEmpty(mask: seq<seq<bool>>, gap: nat)
    requires Rectangular(mask) && gap > 0
    ensures Rows(mask, gap) > 0 && Cols(mask, gap) > 0
  {
    SampleInRange(|mask|, gap, 0);
    SampleInRange(|mask[0]|, gap, 0);
  }

  /** The mask value at the pixel (x, y) = (j * gap, i * gap) of grid cell (i, j). */
  function Sample(mask: seq<seq<bool>>, gap: nat, i: nat, j: nat): bool
    requires Rectangular(mask) && gap > 0
    requires i < Rows(mask, gap) && j < Cols(mask, gap)
  {
    SampleInRange(|mask|, gap, i);
    SampleInRange(|mask[0]|, gap, j);
    mask[i * gap][j * gap]
  }

  /** Label of the first pass: G where the mask is set, R elsewhere. */
  function BaseLabel(mask: seq<seq<bool>>, gap: nat, i: nat, j: nat): Label
    requires Rectangular(mask) && gap > 0
    requires i < Rows(mask, gap) && j < Cols(mask, gap)
  {
    if Sample(mask, gap, i, j) then G else R
  }

  /** The grid after the first pass. */
  function BaseGrid(mask: seq<seq<bool>>, gap: nat): (g: seq<seq<Label>>)
    requires Rectangular(mask) && gap > 0
    ensures Rectangular(g) && HasShape(g, Rows(mask, gap), Cols(mask, gap))
  {
    GridNonEmpty(mask, gap);
    var rows, cols := Rows(mask, gap), Cols(mask, gap);
    seq(rows, i requires 0 <= i < rows =>
      seq(cols, j requires 0 <= j < cols => BaseLabel(mask, gap, i, j)))
  }

  /** The eight neighbour offsets (dy, dx), in the order the refinement pass tries them. */
  const Neigh8: seq<(int, int)> :=
    [(-1, -1), (-1, 0), (-1, 1), (0, -1), (0, 1), (1, -1), (1, 0), (1, 1)]

  predicate InGrid<T>(g: seq<seq<T>>, i: int, j: int)
    requires Rectangular(g)
  {
    0 <= i < |g| && 0 <= j < |g[0]|
  }

  /** The neighbour of (i, j) at offset d is inside the grid and labelled R. */
  predicate BlockedAt(g: seq<seq<Label>>, i: int, j: int, d: (int, int))
    requires Rectangular(g)
  {
    InGrid(g, i + d.0, j + d.1) && g[i + d.0][j + d.1] == R
  }

  predicate HasBlockedNeighbour(g: seq<seq<Label>>, i: int, j: int)
    requires Rectangular(g)
  {
    exists k :: 0 <= k < |Neigh8| && BlockedAt(g, i, j, Neigh8[k])
  }

  /** The grid after the refinement pass, as a function of the grid before it. */
  function Refined(g: seq<seq<Label>>): (r: seq<seq<Label>>)
    requires Rectangular(g)
    ensures Rectangular(r) && HasShape(r, |g|, |g[0]|)
  {
    seq(|g|, i requires 0 <= i < |g| =>
      seq(|g[0]|, j requires 0 <= j < |g[0]| =>
        if g[i][j] == G && HasBlockedNeighbour(g, i, j) then Y else g[i][j]))
  }

  predicate OnBorder(rows: nat, cols: nat, i: nat, j: nat) {
    i == 0 || i == rows - 1 || j == 0 || j == cols - 1
  }

  /** The grid after the border pass, as a function of the grid before it. */
  function Bordered(g: seq<seq<Label>>): (r: seq<seq<Label>>)
    requires Rectangular(g)
    ensures Rectangular(r) && HasShape(r, |g|, |g[0]|)
  {
    seq(|g|, i requires 0 <= i < |g| =>
      seq(|g[0]|, j requires 0 <= j < |g[0]| =>
        if OnBorder(|g|, |g[0]|, i, j) then R else g[i][j]))
  }

  /** The grid draw_points returns. */
  function Classify(mask: seq<seq<bool>>, gap: nat): (g: seq<seq<Label>>)
    requires Rectangular(mask) && gap > 0
    ensures Rectangular(g) && HasShape(g, Rows(mask, gap), Cols(mask, gap))
  {
    Bordered(Refined(BaseGrid(mask, gap)))
  }

  // ---------------------------------------------------------------------------
  // The three passes, as the source runs them.

  /** First pass: create the rows x cols grid of '' and label every sample G or R. */
  method LabelSamples(mask: seq<seq<bool>>, gap: nat) returns (g: seq<seq<Label>>)
    requires Rectangular(mask) && gap > 0
    ensures g == BaseGrid(mask, gap)
  {
    GridNonEmpty(mask, gap);
    var rows, cols := Rows(mask, gap), Cols(mask, gap);
    g := seq(rows, _ => seq(cols, _ => Unset));
    var i := 0;
    while i < rows
      invariant 0 <= i <= rows
      invariant HasShape(g, rows, cols)
      invariant forall a, b :: 0 <= a < i && 0 <= b < cols ==> g[a][b] == BaseLabel(mask, gap, a, b)
    {
      var j := 0;
      while j < cols
        invariant 0 <= j <= cols
        invariant HasShape(g, rows, cols)
        invariant forall a, b :: 0 <= a < i && 0 <= b < cols ==> g[a][b] == BaseLabel(mask, gap, a, b)
        invariant forall b :: 0 <= b < j ==> g[i][b] == BaseLabel(mask, gap, i, b)
      {
        SampleInRange(|mask|, gap, i);
        SampleInRange(|mask[0]|, gap, j);
        var l := if mask[i * gap][j * gap] then G else R;
        g := g[i := g[i][j := l]];
        j := j + 1;
      }
      i := i + 1;
    }
    GridExt(g, BaseGrid(mask, gap), rows, cols);
  }

  /** The inner neighbour loop: true as soon as one in-bounds neighbour is R. */
  method ScanNeighbours(g: seq<seq<Label>>, i: nat, j: nat) returns (found: bool)
    requires Rectangular(g)
    ensures found == HasBlockedNeighbour(g, i, j)
  {
    var rows, cols := |g|, |g[0]|;
    var k := 0;
    while k < |Neigh8|
      invariant 0 <= k <= |Neigh8|
      invariant forall q :: 0 <= q < k ==> !BlockedAt(g, i, j, Neigh8[q])
    {
      var (dy, dx) := Neigh8[k];
      var ni, nj := i + dy, j + dx;
      if 0 <= ni < rows && 0 <= nj < cols {
        if g[ni][nj] == R {
          assert BlockedAt(g, i, j, Neigh8[k]);
          return true;
        }
      }
      k := k + 1;
    }
    return false;
  }

  /** R cells are exactly the same in g and h. */
  predicate SameBlocked(g: seq<seq<Label>>, h: seq<seq<Label>>)
    requires Rectangular(g) && HasShape(h, |g|, |g[0]|)
  {
    forall a, b :: 0 <= a < |g| && 0 <= b < |g[0]| ==> (g[a][b] == R <==> h[a][b] == R)
  }

  lemma SameBlockedNeighbour(g: seq<seq<Label>>, h: seq<seq<Label>>, i: nat, j: nat)
    requires Rectangular(g) && Rectangular(h) && HasShape(h, |g|, |g[0]|)
    requires SameBlocked(g, h)
    ensures HasBlockedNeighbour(g, i, j) == HasBlockedNeighbour(h, i, j)
  {
    if HasBlockedNeighbour(g, i, j) {
      var k :| 0 <= k < |Neigh8| && BlockedAt(g, i, j, Neigh8[k]);
      assert BlockedAt(h, i, j, Neigh8[k]);
    }
    if HasBlockedNeighbour(h, i, j) {
      var k :| 0 <= k < |Neigh8| && BlockedAt(h, i, j, Neigh8[k]);
      assert BlockedAt(g, i, j, Neigh8[k]);
    }
  }

  /**
   * Second pass, in place and in row-major order. Each G cell tests the CURRENT
   * grid, in which earlier cells may already have become Y; the result is still
   * the order-independent Refined(base), because only R neighbours are tested
   * and the pass never creates or removes an R.
   */
  method MarkCaution(base: seq<seq<Label>>) returns (g: seq<seq<Label>>)
    requires Rectangular(base)
    ensures g == Refined(base)
  {
    var rows := |base|;
    var want := Refined(base);
    RefinedSameBlocked(base);
    g := base;
    var i := 0;
    while i < rows
      invariant 0 <= i <= rows && |g| == rows
      invariant forall a :: 0 <= a < i ==> g[a] == want[a]
      invariant forall a :: i <= a < rows ==> g[a] == base[a]
    {
      assert HasShape(g, rows, |base[0]|);
      assert SameBlocked(base, g) by {
        forall a, b | 0 <= a < rows && 0 <= b < |base[0]|
          ensures base[a][b] == R <==> g[a][b] == R
        {
          if a < i {
            assert g[a][b] == want[a][b];
          }
        }
      }
      g := MarkCautionRow(base, g, i);
      i := i + 1;
    }
    assert forall a :: 0 <= a < rows ==> g[a] == want[a];
  }

  /** The refinement pass never creates or removes an R. */
  lemma RefinedSameBlocked(g: seq<seq<Label>>)
    requires Rectangular(g)
    ensures SameBlocked(g, Refined(g))
  {
  }

  /** Row i of g is refined up to column j and untouched from j on; the other rows are those of g0. */
  ghost predicate RowInProgress(base: seq<seq<Label>>, g0: seq<seq<Label>>, g: seq<seq<Label>>, i: nat, j: nat)
    requires Rectangular(base) && i < |base| && HasShape(g0, |base|, |base[0]|)
  {
    j <= |base[0]| && |g| == |g0| && |g[i]| == |base[0]| &&
    (forall a :: 0 <= a < |g0| && a != i ==> g[a] == g0[a]) &&
    (forall b :: 0 <= b < j ==> g[i][b] == Refined(base)[i][b]) &&
    (forall b :: j <= b < |base[0]| ==> g[i][b] == base[i][b])
  }

  /** While row i is in progress, g has base's shape and base's R cells. */
  lemma RowSameBlocked(base: seq<seq<Label>>, g0: seq<seq<Label>>, g: seq<seq<Label>>, i: nat, j: nat)
    requires Rectangular(base) && i < |base| && HasShape(g0, |base|, |base[0]|) && SameBlocked(base, g0)
    requires RowInProgress(base, g0, g, i, j)
    ensures HasShape(g, |base|, |base[0]|) && Rectangular(g) && SameBlocked(base, g)
  {
    RefinedSameBlocked(base);
    forall a, b | 0 <= a < |base| && 0 <= b < |base[0]|
      ensures base[a][b] == R <==> g[a][b] == R
    {
      if a != i {
        assert g[a] == g0[a];
      } else if b < j {
        assert g[i][b] == Refined(base)[i][b];
      }
    }
  }

  /** One cell of the refined grid. */
  lemma RefinedCell(g: seq<seq<Label>>, i: nat, j: nat)
    requires Rectangular(g) && i < |g| && j < |g[0]|
    ensures Refined(g)[i][j] == if g[i][j] == G && HasBlockedNeighbour(g, i, j) then Y else g[i][j]
  {
  }

  /** Storing the refined value of cell (i, j) moves the row on by one column. */
  lemma RowAdvance(base: seq<seq<Label>>, g0: seq<seq<Label>>, g: seq<seq<Label>>, i: nat, j: nat)
    requires Rectangular(base) && i < |base| && j < |base[0]| && HasShape(g0, |base|, |base[0]|)
    requires |g| == |g0| && |g[i]| == |base[0]|
    requires forall a :: 0 <= a < |g0| && a != i ==> g[a] == g0[a]
    requires forall b :: 0 <= b < j ==> g[i][b] == Refined(base)[i][b]
    requires forall b :: j < b < |base[0]| ==> g[i][b] == base[i][b]
    requires g[i][j] == Refined(base)[i][j]
    ensures RowInProgress(base, g0, g, i, j + 1)
  {
  }

  /** The refinement pass over row i, cell by cell, testing the current grid. */
  method MarkCautionRow(base: seq<seq<Label>>, g0: seq<seq<Label>>, i: nat) returns (g: seq<seq<Label>>)
    requires Rectangular(base) && i < |base|
    requires HasShape(g0, |base|, |base[0]|) && SameBlocked(base, g0) && g0[i] == base[i]
    ensures g == g0[i := Refined(base)[i]]
  {
    var cols := |base[0]|;
    var want := Refined(base)[i];
    g := g0;
    var j := 0;
    while j < cols
      invariant 0 <= j <= cols
      invariant RowInProgress(base, g0, g, i, j)
    {
      RowSameBlocked(base, g0, g, i, j);
      RefinedCell(base, i, j);
      if g[i][j] == G {
        var found := ScanNeighbours(g, i, j);
        SameBlockedNeighbour(base, g, i, j);
        if found {
          var row := g[i][j := Y];
          g := g[i := row];
        }
      }
      RowAdvance(base, g0, g, i, j);
      j := j + 1;
    }
    assert g[i] == want;
  }

  /** Third pass: rows 0 and last, then columns 0 and last, are set to R. */
  method BlockBorder(g0: seq<seq<Label>>) returns (g: seq<seq<Label>>)
    requires Rectangular(g0)
    ensures g == Bordered(g0)
  {
    var rows, cols := |g0|, |g0[0]|;
    var lastI, lastJ := rows - 1, cols - 1;
    g := g0;
    var j := 0;
    while j < cols
      invariant 0 <= j <= cols
      invariant HasShape(g, rows, cols)
      invariant forall a, b :: 0 <= a < rows && 0 <= b < cols ==>
        g[a][b] == if (a == 0 || a == lastI) && b < j then R else g0[a][b]
    {
      g := g[0 := g[0][j := R]];
      g := g[lastI := g[lastI][j := R]];
      j := j + 1;
    }
    var i := 0;
    while i < rows
      invariant 0 <= i <= rows
      invariant HasShape(g, rows, cols)
      invariant forall a, b :: 0 <= a < rows && 0 <= b < cols ==>
        g[a][b] == if a == 0 || a == lastI || (a < i && (b == 0 || b == lastJ)) then R else g0[a][b]
    {
      g := g[i := g[i][0 := R]];
      g := g[i := g[i][lastJ := R]];
      i := i + 1;
    }
    GridExt(g, Bordered(g0), rows, cols);
  }

  /** draw_points without the drawing: the three passes in order. */
  method DrawPoints(mask: seq<seq<bool>>, gap: nat) returns (grid: seq<seq<Label>>)
    requires Rectangular(mask) && gap > 0
    ensures grid == Classify(mask, gap)
    ensures HasShape(grid, Rows(mask, gap), Cols(mask, gap))
    ensures forall i, j :: 0 <= i < |grid| && 0 <= j < |grid[i]| ==> grid[i][j] in {G, Y, R}
  {
    var base := LabelSamples(mask, gap);
    var refined := MarkCaution(base);
    grid := BlockBorder(refined);
    forall i, j | 0 <= i < |grid| && 0 <= j < |grid[i]|
      ensures grid[i][j] in {G, Y, R}
    {
      ClassifyLabels(mask, gap, i, j);
    }
  }

  // ---------------------------------------------------------------------------
  // Properties of the classification.

  /** Every final label is G, Y or R: the '' placeholder never survives. */
  lemma ClassifyLabels(mask: seq<seq<bool>>, gap: nat, i: nat, j: nat)
    requires Rectangular(mask) && gap > 0
    requires i < Rows(mask, gap) && j < Cols(mask, gap)
    ensures Classify(mask, gap)[i][j] != Unset
  {
  }

  /** After the border pass every cell of the outer ring is R. */
  lemma BorderBlocked(mask: seq<seq<bool>>, gap: nat, i: nat, j: nat)
    requires Rectangular(mask) && gap > 0
    requires i < Rows(mask, gap) && j < Cols(mask, gap)
    requires OnBorder(Rows(mask, gap), Cols(mask, gap), i, j)
    ensures Classify(mask, gap)[i][j] == R
  {
  }

  /** The border pass leaves interior cells as the refinement pass left them. */
  lemma InteriorUnchanged(g: seq<seq<Label>>, i: nat, j: nat)
    requires Rectangular(g) && i < |g| && j < |g[0]|
    requires !OnBorder(|g|, |g[0]|, i, j)
    ensures Bordered(g)[i][j] == g[i][j]
  {
  }

  /**
   * Before the border pass, a cell is Y exactly when its base label is G and
   * some in-bounds 8-neighbour has base label R.
   */
  lemma CautionIff(mask: seq<seq<bool>>, gap: nat, i: nat, j: nat)
    requires Rectangular(mask) && gap > 0
    requires i < Rows(mask, gap) && j < Cols(mask, gap)
    ensures var base := BaseGrid(mask, gap);
      Refined(base)[i][j] == Y <==> base[i][j] == G && HasBlockedNeighbour(base, i, j)
  {
  }

  /**
   * Labels only move towards R: an R sample stays R, and a final Y or G cell
   * was a G sample (the mask is set there).
   */
  lemma LabelMonotone(mask: seq<seq<bool>>, gap: nat, i: nat, j: nat)
    requires Rectangular(mask) && gap > 0
    requires i < Rows(mask, gap) && j < Cols(mask, gap)
    ensures BaseGrid(mask, gap)[i][j] == R ==> Classify(mask, gap)[i][j] == R
    ensures Classify(mask, gap)[i][j] in {G, Y} ==> BaseGrid(mask, gap)[i][j] == G && Sample(mask, gap, i, j)
    ensures Classify(mask, gap)[i][j] == Y ==> Refined(BaseGrid(mask, gap))[i][j] == Y
  {
  }

  /** The neighbour of cell (i, j) at offset d is a sample outside the mask. */
  predicate MaskHoleAt(mask: seq<seq<bool>>, gap: nat, i: nat, j: nat, d: (int, int))
    requires Rectangular(mask) && gap > 0
  {
    0 <= i + d.0 < Rows(mask, gap) && 0 <= j + d.1 < Cols(mask, gap) &&
    !Sample(mask, gap, i + d.0, j + d.1)
  }

  /**
   * The final label of every cell stated on the mask alone: R on the border or
   * off the mask; otherwise Y when some 8-neighbour sample is off the mask,
   * and G when none is.
   */
  lemma ClassifyMeaning(mask: seq<seq<bool>>, gap: nat, i: nat, j: nat)
    requires Rectangular(mask) && gap > 0
    requires i < Rows(mask, gap) && j < Cols(mask, gap)
    ensures var rows, cols := Rows(mask, gap), Cols(mask, gap);
      Classify(mask, gap)[i][j] ==
        if OnBorder(rows, cols, i, j) || !Sample(mask, gap, i, j) then R
        else if exists k :: 0 <= k < |Neigh8| && MaskHoleAt(mask, gap, i, j, Neigh8[k]) then Y
        else G
  {
    var base := BaseGrid(mask, gap);
    forall k | 0 <= k < |Neigh8|
      ensures BlockedAt(base, i, j, Neigh8[k]) == MaskHoleAt(mask, gap, i, j, Neigh8[k])
    {
    }
  }

  /** An all-false mask yields an all-R grid. */
  lemma EmptyMaskAllBlocked(mask: seq<seq<bool>>, gap: nat)
    requires Rectangular(mask) && gap > 0
    requires forall y, x :: 0 <= y < |mask| && 0 <= x < |mask[y]| ==> !mask[y][x]
    ensures forall i, j :: 0 <= i < Rows(mask, gap) && 0 <= j < Cols(mask, gap) ==>
      Classify(mask, gap)[i][j] == R
  {
    forall i, j | 0 <= i < Rows(mask, gap) && 0 <= j < Cols(mask, gap)
      ensures Classify(mask, gap)[i][j] == R
    {
      SampleInRange(|mask|, gap, i);
      SampleInRange(|mask[0]|, gap, j);
      assert !Sample(mask, gap, i, j);
      LabelMonotone(mask, gap, i, j);
    }
  }
}
