/**
 * The PPM variant of the colour-clustering simulation (color_grid_ppm.c).
 *
 * The grid is an `array2<Pixel>` of `size` by `size` pixels, indexed
 * `grid[i, j]` as the C code indexes `grid[i][j]`; a `Point` holds the first
 * index in `x` and the second in `y`.  Each step of `process_grid` samples a
 * cell `(x, y)`, takes the truncated centroid of every cell whose colour is
 * within `threshold` of the sample's, finds the cell of the 3x3 block around
 * the sample nearest to that centroid in Manhattan distance, and copies that
 * cell's colour into the sample.  `get_closest_neighbor` returns a copy, so
 * the "swap" exchanges the sample with that copy: the neighbour's own cell
 * keeps its colour and the grid's colours are copied, never exchanged.
 *
 * The methods follow the C loops; each is proved equal to a specification
 * function on a `Matrix` value (`Centroid`, `ClosestCell`, `Step`, `Run`),
 * and the lemmas state what those functions promise.
 */
module PpmGrid {
  import opened CInts

  /** Cells in the 3x3 block `get_closest_neighbor` scans. */
  const BlockCells := 9

  datatype Pixel = Pixel(r: Byte, g: Byte, b: Byte)

  /** A grid position: `x` is the first index (`i`), `y` the second (`j`). */
  datatype Point = Point(x: int, y: int)

  /** A grid's pixels as a value: `m[i][j]` is `grid[i][j]`. */
  type Matrix = seq<seq<Pixel>>

  // ---------------------------------------------------------------------
  // Distances

  /** `abs_diff`: the absolute difference of two `int`s. */
  function AbsDiff(a: int, b: int): (d: nat)
    ensures d == a - b || d == b - a
  {
    Abs(a - b)
  }

  /** `color_distance`: the sum of the channel differences. */
  function ColorDistance(p: Pixel, q: Pixel): (d: int)
    ensures 0 <= d <= 765
    ensures d == 0 <==> p == q
  {
    AbsDiff(p.r, q.r) + AbsDiff(p.g, q.g) + AbsDiff(p.b, q.b)
  }

  lemma ColorDistanceSymmetric(p: Pixel, q: Pixel)
    ensures ColorDistance(p, q) == ColorDistance(q, p)
  {
  }

  /** The distance `get_closest_neighbor` minimises. */
  function Manhattan(p: Point, q: Point): (d: nat)
    ensures d == 0 <==> p == q
  {
    AbsDiff(p.x, q.x) + AbsDiff(p.y, q.y)
  }

  // ---------------------------------------------------------------------
  // Grids

  predicate IsGrid(m: Matrix, size: int)
  {
    |m| == size && forall i | 0 <= i < |m| :: |m[i]| == size
  }

  predicate InBounds(p: Point, size: int)
  {
    0 <= p.x < size && 0 <= p.y < size
  }

  /** The pixels of `grid`, row by row. */
  ghost function Snapshot(grid: array2<Pixel>): (m: Matrix)
    reads grid
    ensures grid.Length0 == grid.Length1 ==> IsGrid(m, grid.Length0)
    ensures |m| == grid.Length0
    ensures forall i | 0 <= i < grid.Length0 :: |m[i]| == grid.Length1
    ensures forall i, j | 0 <= i < grid.Length0 && 0 <= j < grid.Length1 :: m[i][j] == grid[i, j]
  {
    seq(grid.Length0, i requires 0 <= i < grid.Length0 reads grid =>
      seq(grid.Length1, j requires 0 <= j < grid.Length1 reads grid => grid[i, j]))
  }

  // ---------------------------------------------------------------------
  // find_centroid

  /** The running sums and count of `find_centroid`. */
  datatype Stats = Stats(sumX: int, sumY: int, count: int)

  function Add(s: Stats, t: Stats): (u: Stats)
  {
    Stats(s.sumX + t.sumX, s.sumY + t.sumY, s.count + t.count)
  }

  predicate Matches(m: Matrix, ref: Pixel, threshold: int, i: int, j: int)
    requires 0 <= i < |m| && 0 <= j < |m[i]|
  {
    ColorDistance(m[i][j], ref) < threshold
  }

  /** The sums over the matching cells `(i, 0) .. (i, j-1)` of row `i`. */
  function RowStats(m: Matrix, ref: Pixel, threshold: int, i: int, j: int): (r: Stats)
    requires 0 <= i < |m| && 0 <= j <= |m[i]|
  {
    if j == 0 then Stats(0, 0, 0)
    else
      var s := RowStats(m, ref, threshold, i, j - 1);
      if Matches(m, ref, threshold, i, j - 1) then Stats(s.sumX + i, s.sumY + j - 1, s.count + 1) else s
  }

  /** The sums over the matching cells of rows `0 .. i-1`. */
  function GridStats(m: Matrix, ref: Pixel, threshold: int, i: int): (r: Stats)
    requires 0 <= i <= |m|
  {
    if i == 0 then Stats(0, 0, 0)
    else Add(GridStats(m, ref, threshold, i - 1), RowStats(m, ref, threshold, i - 1, |m[i - 1]|))
  }

  /** Some cell's colour is within the threshold of `ref`. */
  predicate AnyMatch(m: Matrix, ref: Pixel, threshold: int)
  {
    exists i, j | 0 <= i < |m| && 0 <= j < |m[i]| :: Matches(m, ref, threshold, i, j)
  }

  lemma {:induction false} RowCountIff(m: Matrix, ref: Pixel, threshold: int, i: int, j: int)
    requires 0 <= i < |m| && 0 <= j <= |m[i]|
    ensures RowStats(m, ref, threshold, i, j).count >= 0
    ensures RowStats(m, ref, threshold, i, j).count > 0
            <==> exists j' | 0 <= j' < j :: Matches(m, ref, threshold, i, j')
  {
    if j > 0 {
      RowCountIff(m, ref, threshold, i, j - 1);
    }
  }

  lemma {:induction false} GridCountIff(m: Matrix, ref: Pixel, threshold: int, i: int)
    requires 0 <= i <= |m|
    ensures GridStats(m, ref, threshold, i).count >= 0
    ensures GridStats(m, ref, threshold, i).count > 0
            <==> exists i', j | 0 <= i' < i && 0 <= j < |m[i']| :: Matches(m, ref, threshold, i', j)
  {
    if i > 0 {
      GridCountIff(m, ref, threshold, i - 1);
      RowCountIff(m, ref, threshold, i - 1, |m[i - 1]|);
      if GridStats(m, ref, threshold, i).count > 0 {
        if GridStats(m, ref, threshold, i - 1).count == 0 {
          var j :| 0 <= j < |m[i - 1]| && Matches(m, ref, threshold, i - 1, j);
          assert Matches(m, ref, threshold, i - 1, j);
        }
      }
    }
  }

  /** `count` is positive exactly when some cell matches: then line 45 divides safely. */
  lemma CountPositiveIff(m: Matrix, ref: Pixel, threshold: int)
    ensures GridStats(m, ref, threshold, |m|).count > 0 <==> AnyMatch(m, ref, threshold)
  {
    GridCountIff(m, ref, threshold, |m|);
  }

  /** A reference colour taken from the grid matches its own cell when `threshold > 0`. */
  lemma SampleMatches(m: Matrix, size: int, x: int, y: int, threshold: int)
    requires IsGrid(m, size) && InBounds(Point(x, y), size) && threshold > 0
    ensures GridStats(m, m[x][y], threshold, |m|).count >= 1
  {
    assert Matches(m, m[x][y], threshold, x, y);
    CountPositiveIff(m, m[x][y], threshold);
  }

  /**
   * The position `find_centroid` returns: the truncated mean of the matching
   * cells.  For a non-negative sum of first indices (always the case on a
   * grid, `GridStatsBounded`) `c.x` is the largest integer whose product with
   * the count does not exceed it, and likewise `c.y`.
   */
  function Centroid(m: Matrix, ref: Pixel, threshold: int): (c: Point)
    requires AnyMatch(m, ref, threshold)
    ensures GridStats(m, ref, threshold, |m|).sumX >= 0 ==>
              c.x * GridStats(m, ref, threshold, |m|).count <= GridStats(m, ref, threshold, |m|).sumX
              < (c.x + 1) * GridStats(m, ref, threshold, |m|).count
    ensures GridStats(m, ref, threshold, |m|).sumY >= 0 ==>
              c.y * GridStats(m, ref, threshold, |m|).count <= GridStats(m, ref, threshold, |m|).sumY
              < (c.y + 1) * GridStats(m, ref, threshold, |m|).count
  {
    CountPositiveIff(m, ref, threshold);
    var s := GridStats(m, ref, threshold, |m|);
    CDivBrackets(s.sumX, s.count);
    CDivBrackets(s.sumY, s.count);
    Point(CDiv(s.sumX, s.count), CDiv(s.sumY, s.count))
  }

  lemma {:induction false} RowStatsBounded(m: Matrix, size: int, ref: Pixel, threshold: int, i: int, j: int)
    requires IsGrid(m, size) && 0 <= i < size && 0 <= j <= size
    ensures var s := RowStats(m, ref, threshold, i, j);
            0 <= s.count && 0 <= s.sumX <= (size - 1) * s.count && 0 <= s.sumY <= (size - 1) * s.count
  {
    if j > 0 {
      RowStatsBounded(m, size, ref, threshold, i, j - 1);
      var c := RowStats(m, ref, threshold, i, j - 1).count;
      Distribute(size - 1, c, 1);
    }
  }

  lemma {:induction false} GridStatsBounded(m: Matrix, size: int, ref: Pixel, threshold: int, i: int)
    requires IsGrid(m, size) && 0 <= i <= size
    ensures var s := GridStats(m, ref, threshold, i);
            0 <= s.count && 0 <= s.sumX <= (size - 1) * s.count && 0 <= s.sumY <= (size - 1) * s.count
  {
    if i > 0 {
      GridStatsBounded(m, size, ref, threshold, i - 1);
      RowStatsBounded(m, size, ref, threshold, i - 1, size);
      var c1 := GridStats(m, ref, threshold, i - 1).count;
      var c2 := RowStats(m, ref, threshold, i - 1, size).count;
      Distribute(size - 1, c1, c2);
    }
  }

  /** The centroid of matching cells of a `size` by `size` grid is on the grid. */
  lemma CentroidInBounds(m: Matrix, size: int, ref: Pixel, threshold: int)
    requires IsGrid(m, size) && AnyMatch(m, ref, threshold)
    ensures InBounds(Centroid(m, ref, threshold), size)
  {
    CountPositiveIff(m, ref, threshold);
    GridStatsBounded(m, size, ref, threshold, size);
    var s := GridStats(m, ref, threshold, size);
    CDivBounded(s.sumX, s.count, size);
    CDivBounded(s.sumY, s.count, size);
  }

  /**
   * `find_centroid`.  The C code divides by `count`, so its callers must
   * supply a reference colour some cell matches.
   */
  method FindCentroid(grid: array2<Pixel>, size: int, ref: Pixel, threshold: int) returns (centroid: Point)
    requires grid.Length0 == size && grid.Length1 == size
    requires exists i, j | 0 <= i < size && 0 <= j < size :: ColorDistance(grid[i, j], ref) < threshold
    ensures AnyMatch(Snapshot(grid), ref, threshold)
    ensures centroid == Centroid(Snapshot(grid), ref, threshold)
    ensures InBounds(centroid, size)
  {
    ghost var m := Snapshot(grid);
    var i0, j0 :| 0 <= i0 < size && 0 <= j0 < size && ColorDistance(grid[i0, j0], ref) < threshold;
    assert Matches(m, ref, threshold, i0, j0);
    var sumX, sumY, count := FindCentroidSums(grid, size, ref, threshold);
    CountPositiveIff(m, ref, threshold);
    centroid := Point(CDiv(sumX, count), CDiv(sumY, count));
    CentroidInBounds(m, size, ref, threshold);
  }

  /** The nested loops of `find_centroid`: the sums over all matching cells. */
  method FindCentroidSums(grid: array2<Pixel>, size: int, ref: Pixel, threshold: int)
    returns (sumX: int, sumY: int, count: int)
    requires grid.Length0 == size && grid.Length1 == size
    ensures Stats(sumX, sumY, count) == GridStats(Snapshot(grid), ref, threshold, size)
  {
    ghost var m := Snapshot(grid);
    sumX, sumY, count := 0, 0, 0;
    for i := 0 to size
      invariant Stats(sumX, sumY, count) == GridStats(m, ref, threshold, i)
    {
      var rowSumX, rowSumY, rowCount := FindCentroidRow(grid, size, ref, threshold, i);
      assert |m[i]| == size;
      assert GridStats(m, ref, threshold, i + 1) == Add(GridStats(m, ref, threshold, i), Stats(rowSumX, rowSumY, rowCount));
      sumX, sumY, count := sumX + rowSumX, sumY + rowSumY, count + rowCount;
    }
  }

  /** The inner loop of `find_centroid`: the sums over the matching cells of row `i`. */
  method FindCentroidRow(grid: array2<Pixel>, size: int, ref: Pixel, threshold: int, i: int)
    returns (sumX: int, sumY: int, count: int)
    requires grid.Length0 == size && grid.Length1 == size && 0 <= i < size
    ensures Stats(sumX, sumY, count) == RowStats(Snapshot(grid), ref, threshold, i, size)
  {
    ghost var m := Snapshot(grid);
    sumX, sumY, count := 0, 0, 0;
    for j := 0 to size
      invariant Stats(sumX, sumY, count) == RowStats(m, ref, threshold, i, j)
    {
      if ColorDistance(grid[i, j], ref) < threshold {
        sumX := sumX + i;
        sumY := sumY + j;
        count := count + 1;
      }
    }
  }

  // ---------------------------------------------------------------------
  // get_closest_neighbor

  /** Cell `k` of the scan of the block around `(x, y)`: `i = k / 3 - 1` outer, `j = k % 3 - 1` inner. */
  function BlockCell(x: int, y: int, k: int): (q: Point)
  {
    Point(x + k / 3 - 1, y + k % 3 - 1)
  }

  predicate InBlock(q: Point, x: int, y: int)
  {
    AbsDiff(q.x, x) <= 1 && AbsDiff(q.y, y) <= 1
  }

  /** Where in the scan the block cell `q` comes. */
  function ScanIndex(q: Point, x: int, y: int): (k: int)
  {
    3 * (q.x - x + 1) + (q.y - y + 1)
  }

  lemma BlockCellScanIndex(q: Point, x: int, y: int)
    requires InBlock(q, x, y)
    ensures 0 <= ScanIndex(q, x, y) < BlockCells && BlockCell(x, y, ScanIndex(q, x, y)) == q
  {
  }

  lemma ScanIndexBlockCell(x: int, y: int, k: int)
    requires 0 <= k < BlockCells
    ensures InBlock(BlockCell(x, y, k), x, y) && ScanIndex(BlockCell(x, y, k), x, y) == k
  {
  }

  /** The least distance seen so far and where, or nothing yet (`min_distance` still `INT_MAX`). */
  datatype Closest = NoneYet | Found(index: int, distance: int)

  /** The scan state after candidates `0 .. k-1`; `ok[k]` says whether candidate `k` is on the grid. */
  function ClosestUpTo(ok: seq<bool>, ds: seq<int>, k: nat): (r: Closest)
    requires k <= |ok| && k <= |ds|
  {
    if k == 0 then NoneYet
    else
      var prev := ClosestUpTo(ok, ds, k - 1);
      if ok[k - 1] && (prev.NoneYet? || ds[k - 1] < prev.distance) then Found(k - 1, ds[k - 1]) else prev
  }

  /** One unfolding of `ClosestUpTo`, stated apart to keep the proof of `ScanCell` small. */
  lemma ClosestUpToNext(ok: seq<bool>, ds: seq<int>, k: nat)
    requires k < |ok| && k < |ds|
    ensures var prev := ClosestUpTo(ok, ds, k);
            ClosestUpTo(ok, ds, k + 1)
            == if ok[k] && (prev.NoneYet? || ds[k] < prev.distance) then Found(k, ds[k]) else prev
  {
  }

  /**
   * Nothing is found exactly when no candidate is on the grid; otherwise the
   * result is the first candidate, in scan order, with the least distance.
   */
  lemma {:induction false} ClosestUpToRule(ok: seq<bool>, ds: seq<int>, k: nat)
    requires k <= |ok| && k <= |ds|
    ensures ClosestUpTo(ok, ds, k).NoneYet? <==> forall i | 0 <= i < k :: !ok[i]
    ensures var r := ClosestUpTo(ok, ds, k);
            r.Found? ==>
              0 <= r.index < k && ok[r.index] && r.distance == ds[r.index]
              && (forall i | 0 <= i < k && ok[i] :: r.distance <= ds[i])
              && (forall i | 0 <= i < r.index && ok[i] :: r.distance < ds[i])
  {
    if k > 0 {
      ClosestUpToRule(ok, ds, k - 1);
    }
  }

  /** Whether each block cell is on the grid. */
  function BlockOnGrid(size: int, x: int, y: int): (ok: seq<bool>)
    ensures |ok| == BlockCells
    ensures forall k | 0 <= k < BlockCells :: ok[k] == InBounds(BlockCell(x, y, k), size)
  {
    seq(BlockCells, k => InBounds(BlockCell(x, y, k), size))
  }

  /** Each block cell's distance to the target. */
  function BlockDists(x: int, y: int, target: Point): (ds: seq<int>)
    ensures |ds| == BlockCells
    ensures forall k | 0 <= k < BlockCells :: ds[k] == Manhattan(BlockCell(x, y, k), target)
  {
    seq(BlockCells, k => Manhattan(BlockCell(x, y, k), target))
  }

  /** The result of the scan; the sample itself is a candidate, so something is found. */
  function ClosestScan(size: int, x: int, y: int, target: Point): (r: Closest)
    requires InBounds(Point(x, y), size)
    ensures r.Found? && 0 <= r.index < BlockCells
  {
    var ok, ds := BlockOnGrid(size, x, y), BlockDists(x, y, target);
    assert ok[4];
    ClosestUpToRule(ok, ds, BlockCells);
    ClosestUpTo(ok, ds, BlockCells)
  }

  /** The cell whose pixel `get_closest_neighbor` copies. */
  function ClosestCell(size: int, x: int, y: int, target: Point): (c: Point)
    requires InBounds(Point(x, y), size)
    ensures InBounds(c, size)
  {
    var k := ClosestScan(size, x, y, target).index;
    ClosestUpToRule(BlockOnGrid(size, x, y), BlockDists(x, y, target), BlockCells);
    BlockCell(x, y, k)
  }

  /**
   * The closest cell is an on-grid cell of the block around `(x, y)`, no
   * on-grid block cell is nearer the target, and every on-grid block cell
   * scanned before it is strictly farther.
   */
  lemma ClosestCellRule(size: int, x: int, y: int, target: Point)
    requires InBounds(Point(x, y), size)
    ensures var c := ClosestCell(size, x, y, target);
            InBounds(c, size) && InBlock(c, x, y)
            && (forall q | InBounds(q, size) && InBlock(q, x, y) :: Manhattan(c, target) <= Manhattan(q, target))
            && (forall q | InBounds(q, size) && InBlock(q, x, y) && ScanIndex(q, x, y) < ScanIndex(c, x, y) ::
                  Manhattan(c, target) < Manhattan(q, target))
  {
    var ok, ds := BlockOnGrid(size, x, y), BlockDists(x, y, target);
    ClosestUpToRule(ok, ds, BlockCells);
    var r := ClosestScan(size, x, y, target);
    var c := ClosestCell(size, x, y, target);
    ScanIndexBlockCell(x, y, r.index);
    forall q | InBounds(q, size) && InBlock(q, x, y)
      ensures Manhattan(c, target) <= Manhattan(q, target)
      ensures ScanIndex(q, x, y) < ScanIndex(c, x, y) ==> Manhattan(c, target) < Manhattan(q, target)
    {
      BlockCellScanIndex(q, x, y);
      assert ok[ScanIndex(q, x, y)];
    }
  }

  /** On a one-cell grid the only candidate is the sample itself. */
  lemma ClosestCellOfOneCell(size: int, x: int, y: int, target: Point)
    requires size == 1 && InBounds(Point(x, y), size)
    ensures ClosestCell(size, x, y, target) == Point(x, y)
  {
    ClosestCellRule(size, x, y, target);
  }

  /**
   * The state of `get_closest_neighbor` after the first `k` block cells:
   * `found` says whether `min_distance` has left `INT_MAX`, and then
   * `closestPixel` is the pixel of the cell the scan state names.
   */
  ghost predicate ScanState(grid: array2<Pixel>, size: int, x: int, y: int, target: Point, k: nat,
                            found: bool, closestIndex: int, minDistance: int, closestPixel: Pixel)
    reads grid
    requires k <= BlockCells
  {
    var ok, ds := BlockOnGrid(size, x, y), BlockDists(x, y, target);
    (if found then Found(closestIndex, minDistance) else NoneYet) == ClosestUpTo(ok, ds, k)
    && (found ==> 0 <= closestIndex < k
                  && InBounds(BlockCell(x, y, closestIndex), size)
                  && grid.Length0 == size && grid.Length1 == size
                  && closestPixel == grid[BlockCell(x, y, closestIndex).x, BlockCell(x, y, closestIndex).y])
  }

  /** `get_closest_neighbor`: a copy of the pixel of the closest cell. */
  method GetClosestNeighbor(grid: array2<Pixel>, size: int, x: int, y: int, target: Point)
    returns (closestPixel: Pixel)
    requires grid.Length0 == size && grid.Length1 == size && InBounds(Point(x, y), size)
    ensures var c := ClosestCell(size, x, y, target); closestPixel == grid[c.x, c.y]
  {
    var found := false;
    var minDistance := 0;
    ghost var closestIndex := 0;
    ghost var k := 0;
    closestPixel := grid[x, y];
    for i := -1 to 2
      invariant k == 3 * (i + 1)
      invariant ScanState(grid, size, x, y, target, k, found, closestIndex, minDistance, closestPixel)
    {
      for j := -1 to 2
        invariant k == 3 * (i + 1) + (j + 1)
        invariant ScanState(grid, size, x, y, target, k, found, closestIndex, minDistance, closestPixel)
      {
        found, closestIndex, minDistance, closestPixel :=
          ScanCell(grid, size, x, y, target, i, j, k, found, closestIndex, minDistance, closestPixel);
        k := k + 1;
      }
    }
  }

  /** One pass of the inner loop body: block cell `(x + i, y + j)`, the `k`-th of the scan. */
  method ScanCell(grid: array2<Pixel>, size: int, x: int, y: int, target: Point, i: int, j: int, ghost k: nat,
                  found: bool, ghost closestIndex: int, minDistance: int, closestPixel: Pixel)
    returns (found': bool, ghost closestIndex': int, minDistance': int, closestPixel': Pixel)
    requires grid.Length0 == size && grid.Length1 == size
    requires -1 <= i <= 1 && -1 <= j <= 1 && k == 3 * (i + 1) + (j + 1)
    requires ScanState(grid, size, x, y, target, k, found, closestIndex, minDistance, closestPixel)
    ensures ScanState(grid, size, x, y, target, k + 1, found', closestIndex', minDistance', closestPixel')
  {
    found', closestIndex', minDistance', closestPixel' := found, closestIndex, minDistance, closestPixel;
    var nx := x + i;
    var ny := y + j;
    assert BlockCell(x, y, k) == Point(nx, ny);
    ClosestUpToNext(BlockOnGrid(size, x, y), BlockDists(x, y, target), k);
    if nx >= 0 && nx < size && ny >= 0 && ny < size {
      var dist := AbsDiff(nx, target.x) + AbsDiff(ny, target.y);
      assert dist == BlockDists(x, y, target)[k];
      if !found || dist < minDistance {
        minDistance' := dist;
        closestPixel' := grid[nx, ny];
        found' := true;
        closestIndex' := k;
      }
    }
  }

  // ---------------------------------------------------------------------
  // swap_colors, one step of process_grid, and a run of steps

  /** `swap_colors` on the two pointed-to pixels: their values exchanged. */
  function SwapColors(a: Pixel, b: Pixel): (r: (Pixel, Pixel))
    ensures multiset{r.0, r.1} == multiset{a, b}
    ensures r.0 == b && r.1 == a
  {
    (b, a)
  }

  lemma SwapColorsTwice(a: Pixel, b: Pixel)
    ensures var r := SwapColors(a, b); SwapColors(r.0, r.1) == (a, b)
  {
  }

  /** The cell whose colour the step sampling `(x, y)` copies into `(x, y)`. */
  function Source(m: Matrix, size: int, x: int, y: int, threshold: int): (c: Point)
    requires IsGrid(m, size) && InBounds(Point(x, y), size) && threshold > 0
    ensures InBounds(c, size)
  {
    assert Matches(m, m[x][y], threshold, x, y);
    ClosestCell(size, x, y, Centroid(m, m[x][y], threshold))
  }

  /**
   * The grid after the step sampling `(x, y)` (lines 80-83): the sample takes
   * the colour of its source cell, which is a copy, so no other cell moves.
   */
  function Step(m: Matrix, size: int, x: int, y: int, threshold: int): (r: Matrix)
    requires IsGrid(m, size) && InBounds(Point(x, y), size) && threshold > 0
    ensures IsGrid(r, size)
            && r[x][y] == m[Source(m, size, x, y, threshold).x][Source(m, size, x, y, threshold).y]
            && forall i, j | 0 <= i < size && 0 <= j < size && (i, j) != (x, y) :: r[i][j] == m[i][j]
  {
    var c := Source(m, size, x, y, threshold);
    var swapped := SwapColors(m[x][y], m[c.x][c.y]);
    m[x := m[x][y := swapped.0]]
  }

  predicate AllInBounds(samples: seq<Point>, size: int)
  {
    forall k | 0 <= k < |samples| :: InBounds(samples[k], size)
  }

  /**
   * The grid after the steps sampling `samples[0]`, `samples[1]`, ... in turn;
   * every colour in it was in the initial grid.
   */
  function Run(m: Matrix, size: int, samples: seq<Point>, threshold: int): (r: Matrix)
    requires IsGrid(m, size) && AllInBounds(samples, size) && threshold > 0
    ensures IsGrid(r, size) && Colors(r) <= Colors(m)
    decreases |samples|
  {
    if samples == [] then m
    else
      var init := samples[..|samples| - 1];
      var last := samples[|samples| - 1];
      var before := Run(m, size, init, threshold);
      StepKeepsColors(before, size, last.x, last.y, threshold);
      Step(before, size, last.x, last.y, threshold)
  }

  /** When the closest cell is the sample itself, the step changes nothing. */
  lemma StepFromItselfIsIdle(m: Matrix, size: int, x: int, y: int, threshold: int)
    requires IsGrid(m, size) && InBounds(Point(x, y), size) && threshold > 0
    requires Source(m, size, x, y, threshold) == Point(x, y)
    ensures Step(m, size, x, y, threshold) == m
  {
    assert m[x][y := m[x][y]] == m[x];
  }

  /** The colours present in a grid. */
  function Colors(m: Matrix): (cs: set<Pixel>)
  {
    set i, j | 0 <= i < |m| && 0 <= j < |m[i]| :: m[i][j]
  }

  /** A step creates no colour: each cell afterwards has a colour present before. */
  lemma StepKeepsColors(m: Matrix, size: int, x: int, y: int, threshold: int)
    requires IsGrid(m, size) && InBounds(Point(x, y), size) && threshold > 0
    ensures Colors(Step(m, size, x, y, threshold)) <= Colors(m)
  {
    var c, r := Source(m, size, x, y, threshold), Step(m, size, x, y, threshold);
    forall p | p in Colors(r)
      ensures p in Colors(m)
    {
      var i, j :| 0 <= i < |r| && 0 <= j < |r[i]| && r[i][j] == p;
      if (i, j) == (x, y) {
        assert p == m[c.x][c.y];
      } else {
        assert p == m[i][j];
      }
    }
  }

  /** A one-cell grid is never changed. */
  lemma {:induction false} OneCellGridUnchanged(m: Matrix, size: int, samples: seq<Point>, threshold: int)
    requires size == 1 && IsGrid(m, size) && AllInBounds(samples, size) && threshold > 0
    ensures Run(m, size, samples, threshold) == m
    decreases |samples|
  {
    if samples != [] {
      var init := samples[..|samples| - 1];
      var last := samples[|samples| - 1];
      assert AllInBounds(init, size) by {
        assert forall k | 0 <= k < |init| :: init[k] == samples[k];
      }
      OneCellGridUnchanged(m, size, init, threshold);
      OneCellStepIdle(m, size, last.x, last.y, threshold);
    }
  }

  lemma OneCellStepIdle(m: Matrix, size: int, x: int, y: int, threshold: int)
    requires size == 1 && IsGrid(m, size) && InBounds(Point(x, y), size) && threshold > 0
    ensures Step(m, size, x, y, threshold) == m
  {
    assert Matches(m, m[x][y], threshold, x, y);
    ClosestCellOfOneCell(size, x, y, Centroid(m, m[x][y], threshold));
    StepFromItselfIsIdle(m, size, x, y, threshold);
  }

  /** The only matching cell is `(x, y)`. */
  predicate OnlyMatch(m: Matrix, ref: Pixel, threshold: int, x: int, y: int)
  {
    forall i, j | 0 <= i < |m| && 0 <= j < |m[i]| :: Matches(m, ref, threshold, i, j) <==> (i == x && j == y)
  }

  lemma {:induction false} OnlyMatchRowStats(m: Matrix, ref: Pixel, threshold: int, x: int, y: int, i: int, j: int)
    requires 0 <= i < |m| && 0 <= j <= |m[i]| && 0 <= y && OnlyMatch(m, ref, threshold, x, y)
    ensures RowStats(m, ref, threshold, i, j) == if i == x && y < j then Stats(x, y, 1) else Stats(0, 0, 0)
  {
    if j > 0 {
      OnlyMatchRowStats(m, ref, threshold, x, y, i, j - 1);
      assert Matches(m, ref, threshold, i, j - 1) <==> (i == x && j - 1 == y);
    }
  }

  lemma {:induction false} OnlyMatchGridStats(m: Matrix, size: int, ref: Pixel, threshold: int, x: int, y: int, i: int)
    requires IsGrid(m, size) && InBounds(Point(x, y), size) && 0 <= i <= size
    requires OnlyMatch(m, ref, threshold, x, y)
    ensures GridStats(m, ref, threshold, i) == if x < i then Stats(x, y, 1) else Stats(0, 0, 0)
  {
    if i > 0 {
      assert |m[i - 1]| == size;
      OnlyMatchGridStats(m, size, ref, threshold, x, y, i - 1);
      OnlyMatchRowStats(m, ref, threshold, x, y, i - 1, size);
      var g, r := GridStats(m, ref, threshold, i - 1), RowStats(m, ref, threshold, i - 1, size);
      AddOnlyMatch(g, r, x, y, i);
    }
  }

  /** The stats of rows `0 .. i-2` plus those of row `i-1`, when only `(x, y)` matches. */
  lemma AddOnlyMatch(g: Stats, r: Stats, x: int, y: int, i: int)
    requires g == if x < i - 1 then Stats(x, y, 1) else Stats(0, 0, 0)
    requires r == if i - 1 == x then Stats(x, y, 1) else Stats(0, 0, 0)
    ensures Add(g, r) == if x < i then Stats(x, y, 1) else Stats(0, 0, 0)
  {
  }

  /** The centroid of a single matching cell is that cell. */
  lemma CentroidOfOnlyMatch(m: Matrix, size: int, ref: Pixel, threshold: int, x: int, y: int)
    requires IsGrid(m, size) && InBounds(Point(x, y), size) && OnlyMatch(m, ref, threshold, x, y)
    ensures AnyMatch(m, ref, threshold) && Centroid(m, ref, threshold) == Point(x, y)
  {
    assert Matches(m, ref, threshold, x, y);
    OnlyMatchGridStats(m, size, ref, threshold, x, y, size);
    CDivOfNonNegative(x, 1);
    CDivOfNonNegative(y, 1);
  }

  /** A target that is itself an on-grid block cell is the closest cell. */
  lemma ClosestIsTarget(size: int, x: int, y: int, target: Point)
    requires InBounds(Point(x, y), size) && InBounds(target, size) && InBlock(target, x, y)
    ensures ClosestCell(size, x, y, target) == target
  {
    ClosestCellRule(size, x, y, target);
    assert Manhattan(target, target) == 0;
  }

  /** With the target at the sample itself, the sample is the closest cell. */
  lemma ClosestToItself(size: int, x: int, y: int)
    requires InBounds(Point(x, y), size)
    ensures ClosestCell(size, x, y, Point(x, y)) == Point(x, y)
  {
    ClosestIsTarget(size, x, y, Point(x, y));
  }

  /**
   * A sample whose colour no other cell comes within `threshold` of has
   * itself as centroid and as closest cell, so the step changes nothing.
   */
  lemma IsolatedSampleIdle(m: Matrix, size: int, x: int, y: int, threshold: int)
    requires IsGrid(m, size) && InBounds(Point(x, y), size) && threshold > 0
    requires forall i, j | 0 <= i < size && 0 <= j < size && (i != x || j != y) ::
               ColorDistance(m[i][j], m[x][y]) >= threshold
    ensures Step(m, size, x, y, threshold) == m
  {
    assert OnlyMatch(m, m[x][y], threshold, x, y);
    CentroidOfOnlyMatch(m, size, m[x][y], threshold, x, y);
    ClosestToItself(size, x, y);
    StepFromItselfIsIdle(m, size, x, y, threshold);
  }

  /**
   * A grid whose colours are pairwise at least `threshold` apart is never
   * changed, whatever the samples.
   */
  lemma {:induction false} DistantColorsGridUnchanged(m: Matrix, size: int, samples: seq<Point>, threshold: int)
    requires IsGrid(m, size) && AllInBounds(samples, size) && threshold > 0
    requires forall i, j, i', j' | 0 <= i < size && 0 <= j < size && 0 <= i' < size && 0 <= j' < size
               && (i != i' || j != j') :: ColorDistance(m[i][j], m[i'][j']) >= threshold
    ensures Run(m, size, samples, threshold) == m
    decreases |samples|
  {
    if samples != [] {
      var init := samples[..|samples| - 1];
      var last := samples[|samples| - 1];
      assert AllInBounds(init, size) by {
        assert forall k | 0 <= k < |init| :: init[k] == samples[k];
      }
      DistantColorsGridUnchanged(m, size, init, threshold);
      IsolatedSampleIdle(m, size, last.x, last.y, threshold);
    }
  }

  /** The only matching cells are `(0, 0)` and `(0, 1)`. */
  predicate FirstTwoMatch(m: Matrix, ref: Pixel, threshold: int)
  {
    forall i, j | 0 <= i < |m| && 0 <= j < |m[i]| :: Matches(m, ref, threshold, i, j) <==> (i == 0 && j <= 1)
  }

  lemma {:induction false} FirstTwoMatchRowStats(m: Matrix, ref: Pixel, threshold: int, i: int, j: int)
    requires 0 <= i < |m| && 0 <= j <= |m[i]| && FirstTwoMatch(m, ref, threshold)
    ensures RowStats(m, ref, threshold, i, j)
            == if i == 0 && j >= 2 then Stats(0, 1, 2) else if i == 0 && j == 1 then Stats(0, 0, 1) else Stats(0, 0, 0)
  {
    if j > 0 {
      FirstTwoMatchRowStats(m, ref, threshold, i, j - 1);
      assert Matches(m, ref, threshold, i, j - 1) <==> (i == 0 && j - 1 <= 1);
    }
  }

  lemma {:induction false} FirstTwoMatchGridStats(m: Matrix, size: int, ref: Pixel, threshold: int, i: int)
    requires IsGrid(m, size) && size >= 2 && 0 <= i <= size && FirstTwoMatch(m, ref, threshold)
    ensures GridStats(m, ref, threshold, i) == if i >= 1 then Stats(0, 1, 2) else Stats(0, 0, 0)
  {
    if i > 0 {
      assert |m[i - 1]| == size;
      FirstTwoMatchGridStats(m, size, ref, threshold, i - 1);
      FirstTwoMatchRowStats(m, ref, threshold, i - 1, size);
    }
  }

  /**
   * When only `(0, 0)` and `(0, 1)` match, on a grid of any size from 2 up,
   * the centroid `(0, 1/2)` truncates to `(0, 0)`.
   */
  lemma TwoMatchCentroid(m: Matrix, size: int, ref: Pixel, threshold: int)
    requires IsGrid(m, size) && size >= 2 && FirstTwoMatch(m, ref, threshold)
    ensures AnyMatch(m, ref, threshold) && Centroid(m, ref, threshold) == Point(0, 0)
  {
    assert Matches(m, ref, threshold, 0, 0);
    FirstTwoMatchGridStats(m, size, ref, threshold, size);
    CDivOfNonNegative(0, 2);
    CDivOfNonNegative(1, 2);
  }

  /** Sampling `(0, 1)` when only `(0, 0)` and `(0, 1)` come near its colour copies from `(0, 0)`. */
  lemma TwoMatchSource(m: Matrix, size: int, threshold: int)
    requires IsGrid(m, size) && size >= 2 && threshold > 0 && FirstTwoMatch(m, m[0][1], threshold)
    ensures Source(m, size, 0, 1, threshold) == Point(0, 0)
  {
    TwoMatchCentroid(m, size, m[0][1], threshold);
    ClosestIsTarget(size, 0, 1, Point(0, 0));
  }

  /**
   * The copy loses colours.  When only `(0, 0)` comes within the threshold of
   * the colour of `(0, 1)`, sampling `(0, 1)` copies the colour of `(0, 0)`
   * over it; every other cell is too far from the old colour of `(0, 1)` to
   * hold it, so that colour is gone unless `(0, 0)` had it too.
   */
  lemma CopyCanLoseColor(m: Matrix, size: int, threshold: int)
    requires IsGrid(m, size) && size >= 2 && threshold > 0 && FirstTwoMatch(m, m[0][1], threshold)
    ensures var r := Step(m, size, 0, 1, threshold);
            r[0][1] == m[0][0] && m[0][1] in Colors(m) && (m[0][0] != m[0][1] ==> m[0][1] !in Colors(r))
  {
    TwoMatchSource(m, size, threshold);
    var r := Step(m, size, 0, 1, threshold);
    assert m[0][1] in Colors(m) by {
      assert 0 <= 0 < |m| && 0 <= 1 < |m[0]|;
    }
    if m[0][0] != m[0][1] {
      CopiedOver(m, r, size, threshold);
      AbsentColor(r, m[0][1]);
    }
  }

  /**
   * In the grid of `CopyCanLoseColor`, a grid `r` that has the colour of
   * `(0, 0)` at `(0, 1)` and agrees with `m` elsewhere no longer holds the
   * old colour of `(0, 1)` anywhere.
   */
  lemma CopiedOver(m: Matrix, r: Matrix, size: int, threshold: int)
    requires IsGrid(m, size) && IsGrid(r, size) && size >= 2 && threshold > 0
    requires FirstTwoMatch(m, m[0][1], threshold) && m[0][0] != m[0][1] && r[0][1] == m[0][0]
    requires forall i, j | 0 <= i < size && 0 <= j < size && (i, j) != (0, 1) :: r[i][j] == m[i][j]
    ensures forall i, j | 0 <= i < |r| && 0 <= j < |r[i]| :: r[i][j] != m[0][1]
  {
    var p := m[0][1];
    forall i, j | 0 <= i < |r| && 0 <= j < |r[i]| ensures r[i][j] != p {
      if (i, j) != (0, 1) && (i, j) != (0, 0) {
        assert !Matches(m, p, threshold, i, j);
      }
    }
  }

  /** A colour no cell holds is not among the grid's colours. */
  lemma AbsentColor(r: Matrix, p: Pixel)
    requires forall i, j | 0 <= i < |r| && 0 <= j < |r[i]| :: r[i][j] != p
    ensures p !in Colors(r)
  {
  }


  /** One iteration of `process_grid`, sampling `(x, y)`. */
  method ProcessStep(grid: array2<Pixel>, size: int, x: int, y: int, threshold: int)
    requires grid.Length0 == size && grid.Length1 == size && InBounds(Point(x, y), size) && threshold > 0
    modifies grid
    ensures Snapshot(grid) == Step(old(Snapshot(grid)), size, x, y, threshold)
  {
    ghost var m := Snapshot(grid);
    var ref := grid[x, y];
    assert ColorDistance(grid[x, y], ref) < threshold;
    var centroid := FindCentroid(grid, size, ref, threshold);
    var closestNeighbor := GetClosestNeighbor(grid, size, x, y, centroid);
    assert closestNeighbor == m[Source(m, size, x, y, threshold).x][Source(m, size, x, y, threshold).y];
    var swapped := SwapColors(grid[x, y], closestNeighbor);
    grid[x, y] := swapped.0;
    closestNeighbor := swapped.1;
    ghost var r := Step(m, size, x, y, threshold);
    forall i | 0 <= i < size
      ensures Snapshot(grid)[i] == r[i]
    {
      assert |Snapshot(grid)[i]| == |r[i]|;
    }
  }

  /**
   * `process_grid`: one step per sampled position, `samples[k]` standing for
   * the `k`-th pair of draws `(rand() % size, rand() % size)`.  `main` passes
   * a threshold of 50.
   */
  method ProcessGrid(grid: array2<Pixel>, size: int, samples: seq<Point>, threshold: int)
    requires grid.Length0 == size && grid.Length1 == size && AllInBounds(samples, size) && threshold > 0
    modifies grid
    ensures Snapshot(grid) == Run(old(Snapshot(grid)), size, samples, threshold)
    ensures Colors(Snapshot(grid)) <= Colors(old(Snapshot(grid)))
  {
    ghost var m := Snapshot(grid);
    for iter := 0 to |samples|
      invariant AllInBounds(samples[..iter], size)
      invariant Snapshot(grid) == Run(m, size, samples[..iter], threshold)
    {
      var x, y := samples[iter].x, samples[iter].y;
      ghost var prefix := samples[..iter + 1];
      assert prefix[..|prefix| - 1] == samples[..iter];
      assert prefix[|prefix| - 1] == samples[iter];
      assert AllInBounds(prefix, size);
      ProcessStep(grid, size, x, y, threshold);
      assert Snapshot(grid) == Run(m, size, prefix, threshold);
    }
    assert samples[..|samples|] == samples;
  }
}
