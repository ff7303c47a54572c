/**
 * The PNG variant of the colour-clustering simulation (color_grid_png.c).
 *
 * The grid is a flat `array<Color>` of `n * n` cells, row-major, so that the
 * cell at column `x` and row `y` is `grid[y * n + x]`.  Each iteration samples
 * a cell `a`, collects every cell whose colour differs from `a`'s by less than
 * `ColorDiffThreshold`, takes the truncated centroid of their coordinates,
 * walks the eight compass neighbours of `a` looking for one strictly closer
 * to that centroid than `a` itself, and exchanges `a` with the chosen
 * neighbour (the Up neighbour when none is closer).
 *
 * The methods do what the C code does, loop by loop; each is proved equal to
 * a specification function on sequences (`Step`, `Run`, `Centroid`, `Pack`),
 * and the lemmas state what those functions promise.
 */
module PngGrid {
  import opened CInts

  const ColorDiffThreshold := 30

  /** Number of compass directions `get_neighbor` knows. */
  const Directions := 8

  /** Value of the alpha channel random colours get ("opaque"). */
  const Opaque: Byte := 255

  datatype Color = Color(r: Byte, g: Byte, b: Byte, a: Byte)

  /** A grid position: `x` is the column, `y` the row. */
  datatype Point = Point(x: int, y: int)

  // ---------------------------------------------------------------------
  // Colours

  /** A random colour, given the three channel draws `rand() % 256`. */
  function RandomColor(r: Byte, g: Byte, b: Byte): (color: Color)
    ensures color.a == Opaque
    ensures color.r == r && color.g == g && color.b == b
  {
    Color(r, g, b, Opaque)
  }

  /** Sum of the absolute red, green and blue differences; alpha is ignored. */
  function ColorDifference(c1: Color, c2: Color): (d: int)
    ensures 0 <= d <= 765
    ensures d == 0 <==> (c1.r == c2.r && c1.g == c2.g && c1.b == c2.b)
  {
    Abs(c1.r - c2.r) + Abs(c1.g - c2.g) + Abs(c1.b - c2.b)
  }

  lemma ColorDifferenceSymmetric(c1: Color, c2: Color)
    ensures ColorDifference(c1, c2) == ColorDifference(c2, c1)
  {
  }

  /** Replacing either colour's alpha leaves the difference as it was. */
  lemma ColorDifferenceIgnoresAlpha(c1: Color, c2: Color, alpha1: Byte, alpha2: Byte)
    ensures ColorDifference(c1.(a := alpha1), c2.(a := alpha2)) == ColorDifference(c1, c2)
  {
  }

  // ---------------------------------------------------------------------
  // Positions

  predicate InBounds(p: Point, n: int)
  {
    0 <= p.x < n && 0 <= p.y < n
  }

  /** The position of `p`'s cell in the flat grid. */
  function Index(p: Point, n: nat): (i: int)
    requires InBounds(p, n)
    ensures 0 <= i < n * n
  {
    FlatIndexInBounds(p.x, p.y, n);
    p.y * n + p.x
  }

  /** The position whose cell is at flat index `k`. */
  function PointAt(k: int, n: nat): (p: Point)
    requires n > 0
  {
    Point(k % n, k / n)
  }

  /** `Index` and `PointAt` are inverse bijections between on-grid points and [0, n*n). */
  lemma IndexPointAt(k: int, n: nat)
    requires n > 0 && 0 <= k < n * n
    ensures InBounds(PointAt(k, n), n) && Index(PointAt(k, n), n) == k
  {
    FlatIndexRow(k, n);
  }

  lemma PointAtIndex(p: Point, n: nat)
    requires InBounds(p, n)
    ensures PointAt(Index(p, n), n) == p
  {
    FlatIndexDivMod(p.x, p.y, n);
  }

  /**
   * `get_neighbor`: one step from `p` in `direction` (0 Up, 1 Down, 2 Left,
   * 3 Right, 4 Up-Left, 5 Up-Right, 6 Down-Left, 7 Down-Right), where a step
   * that would leave the grid is not taken; any other direction gives `p`.
   */
  function GetNeighbor(p: Point, direction: int, n: int): (q: Point)
    ensures InBounds(p, n) ==> InBounds(q, n)
    ensures Abs(q.x - p.x) <= 1 && Abs(q.y - p.y) <= 1
    ensures !(0 <= direction < 8) ==> q == p
  {
    match direction
    case 0 => p.(y := if p.y > 0 then p.y - 1 else p.y)
    case 1 => p.(y := if p.y < n - 1 then p.y + 1 else p.y)
    case 2 => p.(x := if p.x > 0 then p.x - 1 else p.x)
    case 3 => p.(x := if p.x < n - 1 then p.x + 1 else p.x)
    case 4 =>
      var move := p.x > 0 && p.y > 0;
      Point(if move then p.x - 1 else p.x, if move then p.y - 1 else p.y)
    case 5 =>
      var move := p.x < n - 1 && p.y > 0;
      Point(if move then p.x + 1 else p.x, if move then p.y - 1 else p.y)
    case 6 =>
      var move := p.x > 0 && p.y < n - 1;
      Point(if move then p.x - 1 else p.x, if move then p.y + 1 else p.y)
    case 7 =>
      var move := p.x < n - 1 && p.y < n - 1;
      Point(if move then p.x + 1 else p.x, if move then p.y + 1 else p.y)
    case _ => p
  }

  /** The compass offset each direction names, as a reference table. */
  function Offset(direction: int): (step: Point)
    requires 0 <= direction < 8
  {
    [Point(0, -1), Point(0, 1), Point(-1, 0), Point(1, 0),
     Point(-1, -1), Point(1, -1), Point(-1, 1), Point(1, 1)][direction]
  }

  /**
   * From an in-bounds point, a neighbour is the full compass step when that
   * step stays on the grid, and `p` itself otherwise: a diagonal never
   * degrades to an orthogonal move.
   */
  lemma GetNeighborIsClampedStep(p: Point, direction: int, n: int)
    requires InBounds(p, n) && 0 <= direction < 8
    ensures var step := Point(p.x + Offset(direction).x, p.y + Offset(direction).y);
            GetNeighbor(p, direction, n) == if InBounds(step, n) then step else p
  {
  }

  // ---------------------------------------------------------------------
  // Similarity set

  /** `marks[i]`: whether cell `i`'s colour is within the threshold of `ref`. */
  function Marks(g: seq<Color>, ref: Color): (marks: seq<bool>)
    ensures |marks| == |g|
    ensures forall i | 0 <= i < |g| :: marks[i] == (ColorDifference(ref, g[i]) < ColorDiffThreshold)
  {
    seq(|g|, i requires 0 <= i < |g| => ColorDifference(ref, g[i]) < ColorDiffThreshold)
  }

  /** Marked points among flat indices `0 .. k-1`, in increasing index order. */
  function MarkedUpTo(marks: seq<bool>, n: nat, k: int): (points: seq<Point>)
    requires n > 0 && 0 <= k <= |marks|
    decreases k
  {
    if k == 0 then []
    else MarkedUpTo(marks, n, k - 1) + (if marks[k - 1] then [PointAt(k - 1, n)] else [])
  }

  /** Cell `x` of the row starting at flat index `y * n` is the point `(x, y)`. */
  lemma RowPoint(k: int, rowStart: int, x: int, y: int, n: nat)
    requires 0 <= x < n && 0 <= y && rowStart == y * n && k == rowStart + x
    ensures PointAt(k, n) == Point(x, y)
  {
    FlatIndexDivMod(x, y, n);
  }

  /**
   * One cell of the scan extends the list exactly when the cell is marked:
   * one unfolding of `MarkedUpTo`, stated apart to keep the scan's proof small.
   */
  lemma ScanStep(marks: seq<bool>, n: nat, k: int, p: Point, before: seq<Point>, after: seq<Point>)
    requires n > 0 && 0 <= k < |marks| && PointAt(k, n) == p
    requires before == MarkedUpTo(marks, n, k)
    requires after == if marks[k] then before + [p] else before
    ensures after == MarkedUpTo(marks, n, k + 1)
  {
  }

  /**
   * `similar_points[..similar_count]` after the scan of the whole grid, row
   * by row and left to right, which is increasing flat index.
   */
  function Similar(g: seq<Color>, n: nat, ref: Color): (s: seq<Point>)
    requires |g| == n * n
    ensures (forall i | 0 <= i < |s| :: IsSimilar(g, n, ref, s[i]))
            && (forall i, j | 0 <= i < j < |s| :: Index(s[i], n) < Index(s[j], n))
  {
    if n == 0 then []
    else
      MarkedAreSimilar(g, n, ref);
      MarkedUpTo(Marks(g, ref), n, n * n)
  }

  /** The scan of the whole grid records similar cells only, in increasing index order. */
  lemma MarkedAreSimilar(g: seq<Color>, n: nat, ref: Color)
    requires |g| == n * n && n > 0
    ensures forall i | 0 <= i < |MarkedUpTo(Marks(g, ref), n, n * n)| ::
              IsSimilar(g, n, ref, MarkedUpTo(Marks(g, ref), n, n * n)[i])
    ensures forall i, j | 0 <= i < j < |MarkedUpTo(Marks(g, ref), n, n * n)| ::
              InBounds(MarkedUpTo(Marks(g, ref), n, n * n)[i], n) && InBounds(MarkedUpTo(Marks(g, ref), n, n * n)[j], n)
              && Index(MarkedUpTo(Marks(g, ref), n, n * n)[i], n) < Index(MarkedUpTo(Marks(g, ref), n, n * n)[j], n)
  {
    var marks := Marks(g, ref);
    var s := MarkedUpTo(marks, n, n * n);
    MarkedUpToOrdered(marks, n, n * n);
    forall i | 0 <= i < |s| ensures IsSimilar(g, n, ref, s[i]) {
      assert IsMarked(marks, n, s[i]);
    }
  }

  predicate IsMarked(marks: seq<bool>, n: nat, p: Point)
    requires |marks| == n * n
  {
    InBounds(p, n) && marks[Index(p, n)]
  }

  predicate IsSimilar(g: seq<Color>, n: nat, ref: Color, p: Point)
    requires |g| == n * n
  {
    InBounds(p, n) && ColorDifference(ref, g[Index(p, n)]) < ColorDiffThreshold
  }

  /** The points recorded after `k` cells are marked, before index `k`, and in increasing index order. */
  lemma {:induction false} MarkedUpToOrdered(marks: seq<bool>, n: nat, k: int)
    requires n > 0 && |marks| == n * n && 0 <= k <= |marks|
    ensures forall i | 0 <= i < |MarkedUpTo(marks, n, k)| ::
              IsMarked(marks, n, MarkedUpTo(marks, n, k)[i]) && Index(MarkedUpTo(marks, n, k)[i], n) < k
    ensures forall i, j | 0 <= i < j < |MarkedUpTo(marks, n, k)| ::
              InBounds(MarkedUpTo(marks, n, k)[i], n) && InBounds(MarkedUpTo(marks, n, k)[j], n)
              && Index(MarkedUpTo(marks, n, k)[i], n) < Index(MarkedUpTo(marks, n, k)[j], n)
  {
    if k > 0 {
      MarkedUpToOrdered(marks, n, k - 1);
      IndexPointAt(k - 1, n);
      var prev := MarkedUpTo(marks, n, k - 1);
      var s := MarkedUpTo(marks, n, k);
      assert forall i | 0 <= i < |prev| :: s[i] == prev[i];
      if marks[k - 1] {
        assert s == prev + [PointAt(k - 1, n)];
        assert s[|prev|] == PointAt(k - 1, n);
        assert IsMarked(marks, n, PointAt(k - 1, n));
      } else {
        assert s == prev;
      }
    }
  }

  lemma {:induction false} MarkedUpToMembers(marks: seq<bool>, n: nat, k: int, p: Point)
    requires n > 0 && |marks| == n * n && 0 <= k <= |marks|
    ensures p in MarkedUpTo(marks, n, k) <==> IsMarked(marks, n, p) && Index(p, n) < k
  {
    if k > 0 {
      MarkedUpToMembers(marks, n, k - 1, p);
      IndexPointAt(k - 1, n);
      if InBounds(p, n) {
        PointAtIndex(p, n);
      }
    }
  }

  /** The scan records exactly the in-bounds points whose colour is within the threshold. */
  lemma SimilarMembers(g: seq<Color>, n: nat, ref: Color, p: Point)
    requires |g| == n * n
    ensures p in Similar(g, n, ref) <==> IsSimilar(g, n, ref, p)
  {
    if n > 0 {
      MarkedUpToMembers(Marks(g, ref), n, n * n, p);
    }
  }

  /**
   * The sample is in its own similarity set (its difference to itself is
   * 0 < 30), so the set is never empty and the `continue` is never taken.
   */
  lemma SampleIsSimilar(g: seq<Color>, n: nat, a: Point)
    requires |g| == n * n && InBounds(a, n)
    ensures a in Similar(g, n, g[Index(a, n)])
    ensures |Similar(g, n, g[Index(a, n)])| >= 1
  {
    SimilarMembers(g, n, g[Index(a, n)], a);
  }

  // ---------------------------------------------------------------------
  // Centroid

  function SumX(pts: seq<Point>): (sum: int)
  {
    if pts == [] then 0 else SumX(pts[..|pts| - 1]) + pts[|pts| - 1].x
  }

  function SumY(pts: seq<Point>): (sum: int)
  {
    if pts == [] then 0 else SumY(pts[..|pts| - 1]) + pts[|pts| - 1].y
  }

  /** The coordinate sums divided by the count, truncated as C does. */
  function Centroid(pts: seq<Point>): (c: Point)
    requires |pts| > 0
    ensures SumX(pts) >= 0 ==> c.x * |pts| <= SumX(pts) < (c.x + 1) * |pts|
    ensures SumY(pts) >= 0 ==> c.y * |pts| <= SumY(pts) < (c.y + 1) * |pts|
  {
    CDivBrackets(SumX(pts), |pts|);
    CDivBrackets(SumY(pts), |pts|);
    Point(CDiv(SumX(pts), |pts|), CDiv(SumY(pts), |pts|))
  }

  lemma {:induction false} SumsBounded(pts: seq<Point>, n: int)
    requires forall i | 0 <= i < |pts| :: InBounds(pts[i], n)
    ensures 0 <= SumX(pts) <= (n - 1) * |pts|
    ensures 0 <= SumY(pts) <= (n - 1) * |pts|
  {
    if pts != [] {
      var init := pts[..|pts| - 1];
      assert forall i | 0 <= i < |init| :: init[i] == pts[i];
      SumsBounded(init, n);
      assert (n - 1) * |pts| == (n - 1) * |init| + (n - 1);
    }
  }

  /** The truncated mean of on-grid points is on the grid. */
  lemma CentroidInBounds(pts: seq<Point>, n: int)
    requires |pts| > 0
    requires forall i | 0 <= i < |pts| :: InBounds(pts[i], n)
    ensures InBounds(Centroid(pts), n)
  {
    SumsBounded(pts, n);
    CDivBounded(SumX(pts), |pts|, n);
    CDivBounded(SumY(pts), |pts|, n);
  }

  /** `find_centroid`: the truncated mean of `points[0 .. count-1]`. */
  method FindCentroid(points: array<Point>, count: int) returns (centroid: Point)
    requires 0 < count <= points.Length
    ensures centroid == Centroid(points[..count])
  {
    var sumX, sumY := 0, 0;
    for i := 0 to count
      invariant sumX == SumX(points[..i])
      invariant sumY == SumY(points[..i])
    {
      assert points[..i + 1][..i] == points[..i];
      sumX := sumX + points[i].x;
      sumY := sumY + points[i].y;
    }
    centroid := Point(CDiv(sumX, count), CDiv(sumY, count));
  }

  // ---------------------------------------------------------------------
  // Choice of the neighbour

  /**
   * Squared Euclidean distance.  The source compares `hypot` values; for
   * integer coordinates the square root is monotone, so comparing squares
   * orders the candidates the same way.
   */
  function Dist2(p: Point, q: Point): (d: nat)
    ensures d == 0 <==> p == q
  {
    SquareZero(p.x - q.x);
    SquareZero(p.y - q.y);
    (p.x - q.x) * (p.x - q.x) + (p.y - q.y) * (p.y - q.y)
  }

  /** Distances of the neighbours in directions 0..7 to the centroid `c`. */
  function NeighborDists(a: Point, c: Point, n: int): (ds: seq<nat>)
    ensures |ds| == Directions
    ensures forall d | 0 <= d < Directions :: ds[d] == Dist2(GetNeighbor(a, d, n), c)
  {
    seq(Directions, d => Dist2(GetNeighbor(a, d, n), c))
  }

  datatype Best = Best(direction: int, distance: int)

  /**
   * `best_direction` and `best_distance` after the candidates `ds[0 .. k-1]`,
   * starting from direction 0 with the sample's own distance `start`.
   */
  function BestUpTo(start: int, ds: seq<int>, k: nat): (best: Best)
    requires k <= |ds|
  {
    if k == 0 then Best(0, start)
    else
      var prev := BestUpTo(start, ds, k - 1);
      if ds[k - 1] < prev.distance then Best(k - 1, ds[k - 1]) else prev
  }

  /**
   * The best-so-far loop: when no candidate beats `start`, direction 0 and
   * `start`; otherwise the first strict minimum, which beats `start`.
   */
  lemma {:induction false} BestUpToRule(start: int, ds: seq<int>, k: nat)
    requires k <= |ds|
    ensures (forall d | 0 <= d < k :: ds[d] >= start) ==> BestUpTo(start, ds, k) == Best(0, start)
    ensures (exists d | 0 <= d < k :: ds[d] < start) ==>
              var r := BestUpTo(start, ds, k);
              0 <= r.direction < k && r.distance == ds[r.direction] < start
              && (forall d | 0 <= d < k :: ds[d] >= r.distance)
              && (forall d | 0 <= d < r.direction :: ds[d] > r.distance)
  {
    if k > 0 {
      BestUpToRule(start, ds, k - 1);
    }
  }

  /** The neighbour of `a` the iteration exchanges with, for centroid `c`. */
  function ChosenNeighbor(a: Point, c: Point, n: int): (b: Point)
    ensures exists d | 0 <= d < Directions :: b == GetNeighbor(a, d, n)
    ensures b == GetNeighbor(a, 0, n) || Dist2(b, c) < Dist2(a, c)
  {
    var ds := NeighborDists(a, c, n);
    BestUpToRule(Dist2(a, c), ds, Directions);
    var d := BestUpTo(Dist2(a, c), ds, Directions).direction;
    assert 0 <= d < Directions && (d == 0 || ds[d] < Dist2(a, c));
    GetNeighbor(a, d, n)
  }

  /**
   * The chosen `b`: if some neighbour is strictly closer to the centroid than
   * `a`, the neighbour in the first direction (in order 0..7) that reaches
   * the least distance; otherwise the Up neighbour `GetNeighbor(a, 0, n)`.
   */
  lemma ChosenNeighborRule(a: Point, c: Point, n: int)
    ensures var ds := NeighborDists(a, c, n);
            (forall d | 0 <= d < Directions :: ds[d] >= Dist2(a, c)) ==>
              ChosenNeighbor(a, c, n) == GetNeighbor(a, 0, n)
    ensures var ds := NeighborDists(a, c, n);
            (exists d | 0 <= d < Directions :: ds[d] < Dist2(a, c)) ==>
              exists best | 0 <= best < Directions ::
                ChosenNeighbor(a, c, n) == GetNeighbor(a, best, n)
                && ds[best] < Dist2(a, c)
                && (forall d | 0 <= d < Directions :: ds[d] >= ds[best])
                && (forall d | 0 <= d < best :: ds[d] > ds[best])
  {
    var ds := NeighborDists(a, c, n);
    BestUpToRule(Dist2(a, c), ds, Directions);
    var r := BestUpTo(Dist2(a, c), ds, Directions);
    if exists d | 0 <= d < Directions :: ds[d] < Dist2(a, c) {
      assert ChosenNeighbor(a, c, n) == GetNeighbor(a, r.direction, n);
    }
  }

  // ---------------------------------------------------------------------
  // One iteration, and a run of them

  /** Exchange the cells at flat positions `i` and `j`. */
  function Swap(g: seq<Color>, i: int, j: int): (r: seq<Color>)
    requires 0 <= i < |g| && 0 <= j < |g|
    ensures |r| == |g| && r[i] == g[j] && r[j] == g[i]
    ensures forall k | 0 <= k < |g| && k != i && k != j :: r[k] == g[k]
    ensures multiset(r) == multiset(g)
  {
    var h := g[i := g[j]];
    assert multiset(h) == multiset(g) - multiset{g[i]} + multiset{g[j]};
    assert multiset(h[j := g[i]]) == multiset(h) - multiset{h[j]} + multiset{g[i]};
    h[j := g[i]]
  }

  /** The neighbour iteration `a` exchanges with on grid `g`. */
  function Partner(g: seq<Color>, n: nat, a: Point): (b: Point)
    requires |g| == n * n && InBounds(a, n)
    ensures InBounds(b, n)
  {
    var s := Similar(g, n, g[Index(a, n)]);
    SampleIsSimilar(g, n, a);
    ChosenNeighbor(a, Centroid(s), n)
  }

  /** The grid after the iteration that samples `a` (lines 107-143). */
  function Step(g: seq<Color>, n: nat, a: Point): (r: seq<Color>)
    requires |g| == n * n && InBounds(a, n)
    ensures |r| == |g|
    ensures multiset(r) == multiset(g)
  {
    var s := Similar(g, n, g[Index(a, n)]);
    if |s| == 0 then g
    else Swap(g, Index(a, n), Index(Partner(g, n, a), n))
  }

  /** The grid after iterations sampling `samples[0]`, `samples[1]`, ... in turn. */
  function Run(g: seq<Color>, n: nat, samples: seq<Point>): (r: seq<Color>)
    requires |g| == n * n
    requires forall i | 0 <= i < |samples| :: InBounds(samples[i], n)
    ensures |r| == |g|
    ensures multiset(r) == multiset(g)
  {
    if samples == [] then g
    else Step(Run(g, n, samples[..|samples| - 1]), n, samples[|samples| - 1])
  }

  /**
   * One iteration exchanges exactly the sample's cell and its partner's cell
   * and leaves every other cell as it was.
   */
  lemma StepExchanges(g: seq<Color>, n: nat, a: Point)
    requires |g| == n * n && InBounds(a, n)
    ensures var r, i, j := Step(g, n, a), Index(a, n), Index(Partner(g, n, a), n);
            r[i] == g[j] && r[j] == g[i]
            && forall k | 0 <= k < |g| && k != i && k != j :: r[k] == g[k]
  {
    SampleIsSimilar(g, n, a);
  }

  /**
   * When the chosen neighbour is the sample itself (the Up neighbour of a
   * cell in row 0, say), the exchange changes nothing.
   */
  lemma StepWithItselfIsIdle(g: seq<Color>, n: nat, a: Point)
    requires |g| == n * n && InBounds(a, n) && Partner(g, n, a) == a
    ensures Step(g, n, a) == g
  {
  }

  /** On a 1x1 grid every neighbour clamps to (0,0): iterations change nothing. */
  lemma {:induction false} OneCellGridUnchanged(g: seq<Color>, n: nat, samples: seq<Point>)
    requires n == 1 && |g| == n * n
    requires forall i | 0 <= i < |samples| :: InBounds(samples[i], n)
    ensures Run(g, n, samples) == g
  {
    if samples != [] {
      var prefix := samples[..|samples| - 1];
      OneCellGridUnchanged(g, n, prefix);
      var a := samples[|samples| - 1];
      StepExchanges(g, n, a);
    }
  }

  /** When `a` is the only marked point, the scan records `a` alone. */
  lemma {:induction false} MarkedUpToOnly(marks: seq<bool>, n: nat, k: int, a: Point)
    requires n > 0 && |marks| == n * n && 0 <= k <= |marks| && InBounds(a, n)
    requires forall p :: IsMarked(marks, n, p) <==> p == a
    ensures MarkedUpTo(marks, n, k) == if Index(a, n) < k then [a] else []
  {
    assert IsMarked(marks, n, a);
    if k > 0 {
      MarkedUpToOnly(marks, n, k - 1, a);
      IndexPointAt(k - 1, n);
      PointAtIndex(a, n);
      assert IsMarked(marks, n, PointAt(k - 1, n)) <==> PointAt(k - 1, n) == a;
    }
  }

  /** A sample whose colour no other cell shares is alone in its similarity set. */
  lemma IsolatedSampleAlone(g: seq<Color>, n: nat, a: Point)
    requires |g| == n * n && InBounds(a, n)
    requires forall p | InBounds(p, n) && p != a ::
               ColorDifference(g[Index(a, n)], g[Index(p, n)]) >= ColorDiffThreshold
    ensures Similar(g, n, g[Index(a, n)]) == [a]
  {
    var ref := g[Index(a, n)];
    var marks := Marks(g, ref);
    forall p ensures IsMarked(marks, n, p) <==> p == a {
      if p == a {
        assert ColorDifference(ref, ref) == 0;
      }
    }
    MarkedUpToOnly(marks, n, n * n, a);
  }

  lemma CentroidOfOne(a: Point)
    ensures Centroid([a]) == a
  {
    assert [a][..0] == [];
    assert SumX([a]) == a.x && SumY([a]) == a.y;
    CDivByOne(a.x);
    CDivByOne(a.y);
  }

  /**
   * A sample whose colour no other cell shares has itself as centroid; no
   * neighbour is strictly closer, so it is exchanged with its Up neighbour
   * rather than left in place.
   */
  lemma IsolatedSampleMovesUp(g: seq<Color>, n: nat, a: Point)
    requires |g| == n * n && InBounds(a, n) && a.y > 0
    requires forall p | InBounds(p, n) && p != a ::
               ColorDifference(g[Index(a, n)], g[Index(p, n)]) >= ColorDiffThreshold
    ensures Partner(g, n, a) == Point(a.x, a.y - 1)
    ensures Step(g, n, a) == Swap(g, Index(a, n), Index(Point(a.x, a.y - 1), n))
  {
    IsolatedSampleAlone(g, n, a);
    CentroidOfOne(a);
    assert Partner(g, n, a) == ChosenNeighbor(a, a, n);
    StayingPutMovesUp(a, n);
  }

  /** The Up neighbour of an on-grid point is the point itself exactly in row 0. */
  lemma UpStaysExactlyInTopRow(a: Point, n: nat)
    requires InBounds(a, n)
    ensures GetNeighbor(a, 0, n) == a <==> a.y == 0
  {
  }

  /** With the centroid at `a` itself, `a` is exchanged with its Up neighbour. */
  lemma StayingPutMovesUp(a: Point, n: nat)
    ensures ChosenNeighbor(a, a, n) == GetNeighbor(a, 0, n)
  {
    ChosenNeighborRule(a, a, n);
    assert Dist2(a, a) == 0;
  }

  /**
   * The nested scan of lines 110-119: `similar_points[..similar_count]` lists
   * the cells whose colour differs from `ref` by less than the threshold.
   */
  method ScanSimilar(grid: array<Color>, n: nat, ref: Color) returns (similarPoints: array<Point>, similarCount: int)
    requires grid.Length == n * n && n > 0
    ensures fresh(similarPoints)
    ensures 0 <= similarCount <= similarPoints.Length
    ensures similarPoints[..similarCount] == Similar(grid[..], n, ref)
  {
    ghost var marks := Marks(grid[..], ref);
    similarPoints := new Point[n * n];
    similarCount := 0;
    var rowStart := 0;
    for y := 0 to n
      invariant rowStart == y * n <= n * n
      invariant Scanned(similarPoints, similarCount, marks, n, rowStart)
    {
      NextRow(y, n);
      similarCount := ScanRow(grid, n, ref, y, rowStart, similarPoints, similarCount, marks);
      rowStart := rowStart + n;
    }
  }

  /** After the cells `0 .. k-1`: the first `count` slots list the marked ones among them. */
  ghost predicate Scanned(similarPoints: array<Point>, count: int, marks: seq<bool>, n: nat, k: int)
    reads similarPoints
  {
    n > 0 && 0 <= count <= k <= |marks| && k <= similarPoints.Length &&
    similarPoints[..count] == MarkedUpTo(marks, n, k)
  }

  /** The inner loop of the scan: row `y`, whose first cell has index `rowStart`. */
  method ScanRow(grid: array<Color>, n: nat, ref: Color, y: nat, rowStart: nat,
                 similarPoints: array<Point>, count: int, ghost marks: seq<bool>) returns (similarCount: int)
    requires similarPoints.Length == grid.Length
    requires n > 0 && rowStart + n <= grid.Length
    requires rowStart == y * n
    requires marks == Marks(grid[..], ref)
    requires Scanned(similarPoints, count, marks, n, rowStart)
    modifies similarPoints
    ensures count <= similarCount
    ensures Scanned(similarPoints, similarCount, marks, n, rowStart + n)
  {
    similarCount := count;
    var index := rowStart;
    for x := 0 to n
      invariant index == rowStart + x
      invariant count <= similarCount
      invariant Scanned(similarPoints, similarCount, marks, n, index)
    {
      similarCount := RecordIfSimilar(grid, n, ref, x, y, rowStart, index, similarPoints, similarCount, marks);
      index := index + 1;
    }
    assert index == rowStart + n;
  }

  /** One pass of the inner loop body: cell `(x, y)`, whose flat index is `index`. */
  method RecordIfSimilar(grid: array<Color>, n: nat, ref: Color, x: nat, y: nat, rowStart: nat, index: nat,
                         similarPoints: array<Point>, count: int, ghost marks: seq<bool>) returns (similarCount: int)
    requires similarPoints.Length == grid.Length
    requires x < n && rowStart == y * n && index == rowStart + x && index < grid.Length
    requires marks == Marks(grid[..], ref)
    requires Scanned(similarPoints, count, marks, n, index)
    modifies similarPoints
    ensures count <= similarCount
    ensures Scanned(similarPoints, similarCount, marks, n, index + 1)
  {
    similarCount := count;
    ghost var before := similarPoints[..similarCount];
    if ColorDifference(ref, grid[index]) < ColorDiffThreshold {
      similarPoints[similarCount] := Point(x, y);
      similarCount := similarCount + 1;
      assert similarPoints[..similarCount] == before + [Point(x, y)];
    }
    RowPoint(index, rowStart, x, y, n);
    ScanStep(marks, n, index, Point(x, y), before, similarPoints[..similarCount]);
  }

  /**
   * The best-so-far loop of lines 126-136: the direction whose neighbour is
   * the first strict improvement on `a`'s own distance to `centroid`.
   */
  method BestDirection(a: Point, centroid: Point, n: nat) returns (bestDirection: int)
    ensures bestDirection == BestUpTo(Dist2(a, centroid), NeighborDists(a, centroid, n), Directions).direction
  {
    ghost var ds := NeighborDists(a, centroid, n);
    bestDirection := 0;
    var bestDistance := Dist2(a, centroid);
    for dir := 0 to Directions
      invariant Best(bestDirection, bestDistance) == BestUpTo(Dist2(a, centroid), ds, dir)
    {
      var neighbor := GetNeighbor(a, dir, n);
      var distance := Dist2(neighbor, centroid);
      if distance < bestDistance {
        bestDistance := distance;
        bestDirection := dir;
      }
    }
  }

  /**
   * One iteration of the loop in `main` (lines 107-143), in place; `a` is the
   * sampled position `{rand() % n, rand() % n}`.
   */
  method Iterate(grid: array<Color>, n: nat, a: Point)
    requires grid.Length == n * n && InBounds(a, n)
    modifies grid
    ensures grid[..] == Step(old(grid[..]), n, a)
  {
    ghost var g := grid[..];
    var colorA := grid[Index(a, n)];
    var similarPoints, similarCount := ScanSimilar(grid, n, colorA);
    assert |Similar(g, n, g[Index(a, n)])| == similarCount;
    if similarCount > 0 {
      var centroid := FindCentroid(similarPoints, similarCount);
      var bestDirection := BestDirection(a, centroid, n);
      var b := GetNeighbor(a, bestDirection, n);
      assert b == Partner(g, n, a);
      SwapCells(grid, n, a, b);
    }
  }

  /** Lines 141-143: the colours at `a` and `b` exchanged through `temp`. */
  method SwapCells(grid: array<Color>, n: nat, a: Point, b: Point)
    requires grid.Length == n * n && InBounds(a, n) && InBounds(b, n)
    modifies grid
    ensures grid[..] == Swap(old(grid[..]), Index(a, n), Index(b, n))
  {
    var temp := grid[Index(a, n)];
    grid[Index(a, n)] := grid[Index(b, n)];
    grid[Index(b, n)] := temp;
  }

  /** The iteration loop of `main`: one `Iterate` per sampled position. */
  method Simulate(grid: array<Color>, n: nat, samples: seq<Point>)
    requires grid.Length == n * n
    requires forall i | 0 <= i < |samples| :: InBounds(samples[i], n)
    modifies grid
    ensures grid[..] == Run(old(grid[..]), n, samples)
    ensures multiset(grid[..]) == multiset(old(grid[..]))
  {
    ghost var g0 := grid[..];
    for iter := 0 to |samples|
      invariant grid[..] == Run(g0, n, samples[..iter])
    {
      RunOneMore(g0, n, samples, iter);
      Iterate(grid, n, samples[iter]);
    }
    assert samples[..|samples|] == samples;
  }

  /** The run over the first `iter + 1` samples is one more step after the run over the first `iter`. */
  lemma RunOneMore(g: seq<Color>, n: nat, samples: seq<Point>, iter: int)
    requires |g| == n * n && 0 <= iter < |samples|
    requires forall i | 0 <= i < |samples| :: InBounds(samples[i], n)
    ensures forall i | 0 <= i < iter :: InBounds(samples[..iter][i], n)
    ensures Run(g, n, samples[..iter + 1]) == Step(Run(g, n, samples[..iter]), n, samples[iter])
  {
    var prefix := samples[..iter + 1];
    assert prefix[..|prefix| - 1] == samples[..iter];
    assert prefix[|prefix| - 1] == samples[iter];
  }

  // ---------------------------------------------------------------------
  // Packing the grid into an RGBA byte buffer (save_image)

  /** Channel `k` of a colour: 0 red, 1 green, 2 blue, 3 alpha. */
  function Channel(c: Color, k: int): (v: Byte)
    requires 0 <= k < 4
  {
    match k
    case 0 => c.r
    case 1 => c.g
    case 2 => c.b
    case _ => c.a
  }

  /** The cells' channels in order, four bytes per cell. */
  function Pack(g: seq<Color>): (bytes: seq<Byte>)
    ensures |bytes| == 4 * |g|
  {
    if g == [] then []
    else
      var c := g[|g| - 1];
      Pack(g[..|g| - 1]) + [c.r, c.g, c.b, c.a]
  }

  /** Byte `4*i + k` of the buffer is channel `k` of cell `i`. */
  lemma {:induction false} PackAt(g: seq<Color>)
    ensures forall i, k | 0 <= i < |g| && 0 <= k < 4 :: Pack(g)[4 * i + k] == Channel(g[i], k)
  {
    if g != [] {
      PackAt(g[..|g| - 1]);
    }
  }

  /**
   * A grid filled by `random_color` packs to a buffer every fourth byte of
   * which (the alpha) is 255, the others holding the channel draws.
   */
  lemma PackedRandomGridIsOpaque(reds: seq<Byte>, greens: seq<Byte>, blues: seq<Byte>)
    requires |reds| == |greens| == |blues|
    ensures var g := seq(|reds|, i requires 0 <= i < |reds| => RandomColor(reds[i], greens[i], blues[i]));
            forall i | 0 <= i < |reds| ::
              Pack(g)[4 * i] == reds[i] && Pack(g)[4 * i + 1] == greens[i]
              && Pack(g)[4 * i + 2] == blues[i] && Pack(g)[4 * i + 3] == Opaque
  {
    var g := seq(|reds|, i requires 0 <= i < |reds| => RandomColor(reds[i], greens[i], blues[i]));
    PackAt(g);
    forall i | 0 <= i < |reds|
      ensures Pack(g)[4 * i] == reds[i] && Pack(g)[4 * i + 1] == greens[i]
              && Pack(g)[4 * i + 2] == blues[i] && Pack(g)[4 * i + 3] == Opaque
    {
      assert Channel(g[i], 0) == reds[i] && Channel(g[i], 3) == Opaque;
      assert Channel(g[i], 1) == greens[i] && Channel(g[i], 2) == blues[i];
    }
  }

  /** The packing loop of `save_image`: the `4 * n * n`-byte RGBA buffer of the grid. */
  method PackImage(grid: array<Color>, n: nat) returns (image: array<Byte>)
    requires grid.Length == n * n
    ensures fresh(image)
    ensures image[..] == Pack(grid[..])
  {
    image := new Byte[n * n * 4];
    var rowStart := 0;
    for y := 0 to n
      invariant rowStart == y * n
      invariant image[..4 * rowStart] == Pack(grid[..rowStart])
    {
      NextRow(y, n);
      PackRow(grid, rowStart, n, image);
      rowStart := rowStart + n;
    }
    assert grid[..rowStart] == grid[..];
  }

  /** The inner loop of the packing: the `n` cells from index `rowStart` on. */
  method PackRow(grid: array<Color>, rowStart: nat, n: nat, image: array<Byte>)
    requires image.Length == 4 * grid.Length && rowStart + n <= grid.Length
    requires image[..4 * rowStart] == Pack(grid[..rowStart])
    modifies image
    ensures image[..4 * (rowStart + n)] == Pack(grid[..rowStart + n])
  {
    var index := rowStart;
    for x := 0 to n
      invariant index == rowStart + x
      invariant image[..4 * index] == Pack(grid[..index])
    {
      PackCell(grid, index, image);
      index := index + 1;
    }
    assert index == rowStart + n;
  }

  /** One pass of the inner packing loop: the four channels of cell `index`. */
  method PackCell(grid: array<Color>, index: nat, image: array<Byte>)
    requires image.Length == 4 * grid.Length && index < grid.Length
    requires image[..4 * index] == Pack(grid[..index])
    modifies image
    ensures image[..4 * (index + 1)] == Pack(grid[..index + 1])
  {
    image[4 * index + 0] := grid[index].r;
    image[4 * index + 1] := grid[index].g;
    image[4 * index + 2] := grid[index].b;
    image[4 * index + 3] := grid[index].a;
    assert grid[..index + 1][..index] == grid[..index];
    assert image[..4 * (index + 1)] == image[..4 * index] + [grid[index].r, grid[index].g, grid[index].b, grid[index].a];
  }
}
