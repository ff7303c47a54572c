# Colour-grid clustering, modelled in Dafny

The repository holds two small C programs. Each fills a square grid with random colours and then runs a clustering loop. One iteration of the loop:

- samples a cell and takes its colour as the reference;
- collects every cell whose colour is close to the reference;
- takes the truncated mean of those cells' coordinates (the centroid);
- picks a neighbour of the sample by its distance to the centroid;
- moves colours between the sample and that neighbour.

Repeated, this makes similar colours drift together. This project models that loop for both programs and proves what it does.

- `c_ints.dfy`, module `CInts`: the C integer semantics the programs rely on.
  - `Byte` is a colour channel.
  - `Abs` is C's `abs` on `int`.
  - `CDiv` is C's `/` on `int`, which truncates toward zero (Dafny's `/` is Euclidean).
  - A few lemmas cover row-major flat indices.
- `png_grid.dfy`, module `PngGrid`: `color_grid_png.c`.
  - The grid is a flat `array<Color>` of `n * n` cells, where cell `(x, y)` is `grid[y * n + x]`.
  - Colours are compared with `color_difference` (threshold 30), and neighbours are the 8 clamped compass neighbours.
  - The swap is a real exchange of two cells.
  - `save_image` packs the grid into an RGBA byte buffer.
- `ppm_grid.dfy`, module `PpmGrid`: `color_grid_ppm.c`.
  - The grid is an `array2<Pixel>` indexed `grid[i, j]`, as the C code indexes `grid[i][j]`.
  - The neighbour is the cell of the 3×3 block around the sample that is nearest the centroid in Manhattan distance.
  - `get_closest_neighbor` returns a *copy* of that cell's pixel, and `swap_colors` exchanges the sample with that copy. So the sample takes the neighbour's colour and the neighbour keeps its own.

Each method follows the C loops over the mutable grid, loop by loop. It is proved equal to a specification function on values:

- PNG: `Step`, `Run`, `Similar`, `Centroid` and `Pack`, which work on a `seq<Color>`.
- PPM: `Centroid`, `ClosestCell`, `Step` and `Run`, which work on a `Matrix = seq<seq<Pixel>>` snapshot of the grid.

Lemmas then state what those functions promise. The sampled positions, which the programs draw with `rand()`, are a parameter `samples`. Sample `k` stands for the `k`-th iteration's pair of draws.

Two behaviours of the programs are worth stating on their own:

- In the PNG program a sample with no strictly closer neighbour is still exchanged with its Up neighbour, because `best_direction` stays `0` (`IsolatedSampleMovesUp`). That neighbour is the sample itself exactly in row 0 (`UpStaysExactlyInTopRow`).
- The PPM program copies instead of exchanging, so a colour can be lost (`CopyCanLoseColor`) but never created (`PpmGrid.Run`, `StepKeepsColors`). A grid whose colours are pairwise at least `threshold` apart never changes under the PPM program (`DistantColorsGridUnchanged`). The PNG program instead exchanges colours, so every run permutes them (`PngGrid.Run`).

## Model

| member | source | states |
|---|---|---|
| CInts.Abs | color_grid_ppm.c:17 | `abs(x)` is `x` or `-x` and never negative |
| CInts.CDiv | color_grid_png.c:56 | C's `int` division: the quotient's magnitude is the magnitudes' quotient, and its sign is non-negative exactly when the operands' signs agree |
| CInts.CDivBounded | color_grid_png.c:56 | a truncated mean of `count` values in `[0, n)` is in `[0, n)` |
| CInts.CDivBrackets | color_grid_png.c:56 | for a non-negative dividend, C's quotient `q` is the largest integer with `q * b <= a`, that is `q * b <= a < (q + 1) * b` |
| PngGrid.ColorDifference | color_grid_png.c:29-31 | the colour difference lies in `[0, 765]` and is 0 exactly when r, g and b agree |
| PngGrid.ColorDifferenceSymmetric | color_grid_png.c:29-31 | the colour difference is symmetric |
| PngGrid.ColorDifferenceIgnoresAlpha | color_grid_png.c:29-31 | changing either colour's alpha does not change the difference |
| PngGrid.RandomColor | color_grid_png.c:19-26 | `random_color` yields an opaque colour (alpha 255) whose r, g and b are the three channel draws |
| PngGrid.Index | color_grid_png.c:108 | the flat index `y * n + x` of an on-grid point is in `[0, n*n)` |
| PngGrid.IndexPointAt | color_grid_png.c:113-116 | every flat index in `[0, n*n)` is the index of exactly the on-grid point the nested scan visits there |
| PngGrid.PointAtIndex | color_grid_png.c:113-116 | the scan position of an on-grid point's flat index is the point itself |
| PngGrid.GetNeighbor | color_grid_png.c:34-47 | a neighbour of an on-grid point is on the grid and at most 1 away on each axis; a direction outside `0..7` gives the point itself |
| PngGrid.GetNeighborIsClampedStep | color_grid_png.c:34-47 | from an on-grid point, direction `d` takes the full compass step when that step stays on the grid and stays put otherwise, so a diagonal never degrades to an orthogonal move |
| PngGrid.MarkedUpToMembers | color_grid_png.c:113-119 | after the first `k` cells, the recorded points are exactly the marked on-grid points with flat index below `k` |
| PngGrid.MarkedUpToOrdered | color_grid_png.c:113-119 | after the first `k` cells, every recorded point is a marked on-grid point with flat index below `k`, and the recorded points have strictly increasing flat indices |
| PngGrid.MarkedAreSimilar | color_grid_png.c:110-119 | the scan of the whole grid records only similar points, in strictly increasing flat-index order |
| PngGrid.Similar | color_grid_png.c:110-119 | `similar_points[0 .. similar_count-1]` holds only on-grid similar points, in row-major order without repetition |
| PngGrid.SimilarMembers | color_grid_png.c:113-119 | a point is recorded in `similar_points` exactly when it is on the grid and its colour differs from the reference by less than 30 |
| PngGrid.SampleIsSimilar | color_grid_png.c:113-121 | the sample is in its own similarity set, so `similar_count >= 1` and the `continue` is never taken |
| PngGrid.IsolatedSampleAlone | color_grid_png.c:113-119 | a sample whose colour no other cell comes within 30 of is the only recorded point |
| PngGrid.CentroidInBounds | color_grid_png.c:50-58 | the truncated mean of a non-empty list of on-grid points is on the grid |
| PngGrid.Centroid | color_grid_png.c:50-58 | for non-negative sums, each centroid coordinate `c` is the truncated mean: `c * count <= sum < (c + 1) * count` |
| PngGrid.CentroidOfOne | color_grid_png.c:50-58 | the centroid of a single point is that point |
| PngGrid.FindCentroid | color_grid_png.c:50-58 | `find_centroid` returns the truncated mean of `points[0 .. count-1]` |
| PngGrid.BestUpToRule | color_grid_png.c:126-136 | if no candidate beats the sample's own distance, the best-so-far loop ends at direction 0; otherwise it ends at the first direction reaching the least distance, which beats the sample's |
| PngGrid.Dist2 | color_grid_png.c:127-131 | the squared distance that stands for `hypot` is 0 exactly when the two points coincide |
| PngGrid.ChosenNeighborRule | color_grid_png.c:126-138 | `b` is the first neighbour in direction order 0..7 that reaches the least distance when some neighbour is strictly closer to the centroid than `a`, and the Up neighbour otherwise |
| PngGrid.ChosenNeighbor | color_grid_png.c:126-138 | `b` is the neighbour in some direction `0..7`, and it is the Up neighbour or strictly closer to the centroid than `a` |
| PngGrid.StayingPutMovesUp | color_grid_png.c:126-138 | when the centroid is `a` itself, `b` is the Up neighbour |
| PngGrid.UpStaysExactlyInTopRow | color_grid_png.c:37 | the Up neighbour of an on-grid point is the point itself exactly when the point is in row 0 |
| PngGrid.Partner | color_grid_png.c:138 | the neighbour the iteration exchanges with is on the grid |
| PngGrid.StepExchanges | color_grid_png.c:141-143 | one iteration exchanges exactly the cells of `a` and `b` and leaves every other cell unchanged |
| PngGrid.Swap | color_grid_png.c:141-143 | exchanging cells `i` and `j` puts each one's colour in the other, leaves every other cell unchanged and keeps the multiset of colours |
| PngGrid.StepWithItselfIsIdle | color_grid_png.c:141-143 | when `b` is `a`, the iteration leaves the grid unchanged |
| PngGrid.Step | color_grid_png.c:107-143 | one iteration leaves the grid size and the multiset of colours unchanged |
| PngGrid.Run | color_grid_png.c:106-149 | any number of iterations (0 included) leaves the grid size and the multiset of colours unchanged |
| PngGrid.OneCellGridUnchanged | color_grid_png.c:34-47 | on a 1×1 grid every neighbour clamps to (0,0), so no number of iterations changes the grid |
| PngGrid.IsolatedSampleMovesUp | color_grid_png.c:126-143 | a sample whose colour no other cell comes within 30 of, in any row but row 0, is exchanged with its Up neighbour rather than left alone |
| PngGrid.ScanSimilar | color_grid_png.c:110-119 | the nested scan fills `similar_points[0 .. similar_count-1]` with exactly the similarity set, row by row and left to right |
| PngGrid.ScanRow | color_grid_png.c:114-118 | the inner loop over row `y` appends exactly that row's similar cells, in column order |
| PngGrid.RecordIfSimilar | color_grid_png.c:115-117 | one pass of the inner loop appends cell `(x, y)` exactly when it is similar, extending the recorded prefix by one cell of the scan |
| PngGrid.BestDirection | color_grid_png.c:126-136 | the best-so-far loop over `dir` yields the direction the specification of the choice names |
| PngGrid.SwapCells | color_grid_png.c:141-143 | the colours at `a` and `b` are exchanged through `temp`, and nothing else changes |
| PngGrid.Iterate | color_grid_png.c:107-143 | one iteration, in place, turns the grid into `Step` of the old grid |
| PngGrid.Simulate | color_grid_png.c:106-149 | the iteration loop turns the grid into `Run` of the old grid over the samples, a permutation of the old one |
| PngGrid.RunOneMore | color_grid_png.c:106-149 | the run over the first `iter + 1` samples is one more iteration after the run over the first `iter` |
| PngGrid.Pack | color_grid_png.c:69 | the packed buffer has `4 * n * n` bytes |
| PngGrid.PackAt | color_grid_png.c:69-78 | byte `4*i + k` of the buffer is channel `k` (r, g, b, a) of cell `i` |
| PngGrid.PackedRandomGridIsOpaque | color_grid_png.c:19-26 | a grid of `random_color` results packs to a buffer whose every alpha byte is 255, with the channel draws in the other bytes |
| PngGrid.PackImage | color_grid_png.c:69-78 | the packing loop fills a fresh `4 * n * n`-byte buffer with exactly the packed grid |
| PngGrid.PackRow | color_grid_png.c:71-77 | the inner packing loop extends the packed prefix by the four channels of each cell of one row |
| PngGrid.PackCell | color_grid_png.c:73-76 | one pass of the inner packing loop extends the packed prefix by the four channels of one cell |
| PpmGrid.AbsDiff | color_grid_ppm.c:16-18 | `abs_diff(a, b)` is `a - b` or `b - a` and never negative |
| PpmGrid.ColorDistance | color_grid_ppm.c:20-22 | the colour distance lies in `[0, 765]` and is 0 exactly on equal pixels |
| PpmGrid.ColorDistanceSymmetric | color_grid_ppm.c:20-22 | the colour distance is symmetric |
| PpmGrid.Manhattan | color_grid_ppm.c:58 | the Manhattan distance between two positions is 0 exactly when they coincide |
| PpmGrid.RowCountIff | color_grid_ppm.c:37-43 | the count over the first `j` cells of row `i` is positive exactly when one of them matches |
| PpmGrid.GridCountIff | color_grid_ppm.c:36-44 | the count over rows `0 .. i-1` is positive exactly when a cell in them matches |
| PpmGrid.RowStatsBounded | color_grid_ppm.c:37-43 | over the first `j` cells of row `i` the count is non-negative and each sum lies in `[0, (size - 1) * count]` |
| PpmGrid.GridStatsBounded | color_grid_ppm.c:36-44 | over rows `0 .. i-1` the count is non-negative and each sum lies in `[0, (size - 1) * count]` |
| PpmGrid.CountPositiveIff | color_grid_ppm.c:34-45 | `count` is positive exactly when some cell matches, so the division at line 45 is safe exactly then |
| PpmGrid.SampleMatches | color_grid_ppm.c:38 | with `threshold > 0` and `ref` taken from the grid, at least one cell matches |
| PpmGrid.CentroidInBounds | color_grid_ppm.c:34-47 | the truncated mean of the matching cells' coordinates is on the grid |
| PpmGrid.Centroid | color_grid_ppm.c:45 | for non-negative sums, each centroid coordinate `c` is the truncated mean of the matching cells: `c * count <= sum < (c + 1) * count` |
| PpmGrid.CentroidOfOnlyMatch | color_grid_ppm.c:34-47 | when a single cell matches, the centroid is that cell |
| PpmGrid.TwoMatchCentroid | color_grid_ppm.c:34-47 | on a grid of any size from 2 up where only `(0,0)` and `(0,1)` match, the centroid `(0, 1/2)` truncates to `(0,0)` |
| PpmGrid.FirstTwoMatchGridStats | color_grid_ppm.c:36-44 | when only `(0,0)` and `(0,1)` match, the sums and count over rows `0 .. i-1` are `(0, 1, 2)` for every `i >= 1` |
| PpmGrid.FindCentroid | color_grid_ppm.c:34-47 | given that some cell matches, the nested loops return the truncated mean of the matching cells' `(i, j)`, which is on the grid |
| PpmGrid.FindCentroidSums | color_grid_ppm.c:35-44 | the nested loops accumulate the sums and count over all matching cells |
| PpmGrid.FindCentroidRow | color_grid_ppm.c:37-43 | the inner loop accumulates the sums and count over the matching cells of row `i` |
| PpmGrid.BlockCellScanIndex | color_grid_ppm.c:53-56 | every cell of the 3×3 block is visited at a scan step in `0..8` (`i` outer, `j` inner) |
| PpmGrid.ScanIndexBlockCell | color_grid_ppm.c:53-56 | the scan visits only block cells, each once |
| PpmGrid.ClosestUpToRule | color_grid_ppm.c:57-62 | the running minimum is still at `INT_MAX` exactly when no on-grid cell has been seen; otherwise it names the first on-grid cell with the least distance so far, and every earlier on-grid cell is strictly farther |
| PpmGrid.ClosestScan | color_grid_ppm.c:49-68 | the sample itself is a candidate, so a closest cell is always found |
| PpmGrid.ClosestCell | color_grid_ppm.c:49-68 | the cell whose pixel is copied is on the grid |
| PpmGrid.ClosestCellRule | color_grid_ppm.c:49-68 | the copied cell is an on-grid block cell; no on-grid block cell is nearer the target; every on-grid block cell scanned before it is strictly farther |
| PpmGrid.ClosestCellOfOneCell | color_grid_ppm.c:53-65 | on a 1×1 grid the copied cell is the sample |
| PpmGrid.ClosestIsTarget | color_grid_ppm.c:49-68 | a target that is itself an on-grid block cell is the copied cell |
| PpmGrid.ClosestToItself | color_grid_ppm.c:49-68 | with the target at the sample, the sample is the copied cell |
| PpmGrid.GetClosestNeighbor | color_grid_ppm.c:49-68 | the nested scan returns a copy of the pixel of the closest cell |
| PpmGrid.ScanCell | color_grid_ppm.c:55-63 | one pass of the inner loop body moves the scan state on by one block cell |
| PpmGrid.SwapColors | color_grid_ppm.c:70-74 | `swap_colors` exchanges the two pixels: the first gets the second and the second the first |
| PpmGrid.SwapColorsTwice | color_grid_ppm.c:70-74 | swapping twice restores both pixels |
| PpmGrid.Source | color_grid_ppm.c:80-82 | the cell whose colour a step copies is on the grid |
| PpmGrid.Step | color_grid_ppm.c:80-83 | a step sets `grid[x][y]` to the source cell's colour and leaves every other cell, the source included, unchanged |
| PpmGrid.StepFromItselfIsIdle | color_grid_ppm.c:80-83 | when the source cell is the sample, the step changes nothing |
| PpmGrid.OneCellStepIdle | color_grid_ppm.c:80-83 | on a 1×1 grid a step changes nothing |
| PpmGrid.OneCellGridUnchanged | color_grid_ppm.c:76-85 | a 1×1 grid is never changed |
| PpmGrid.StepKeepsColors | color_grid_ppm.c:80-83 | after a step every colour in the grid was in the grid before |
| PpmGrid.Run | color_grid_ppm.c:76-85 | after any number of steps the grid is still `size` by `size`, and every colour in it was in the initial grid |
| PpmGrid.IsolatedSampleIdle | color_grid_ppm.c:80-83 | a sample whose colour no other cell comes within `threshold` of is its own centroid and source, so the step changes nothing |
| PpmGrid.DistantColorsGridUnchanged | color_grid_ppm.c:76-85 | a grid whose colours are pairwise at least `threshold` apart is never changed |
| PpmGrid.TwoMatchSource | color_grid_ppm.c:80-82 | on a grid of any size from 2 up where only `(0,0)` comes near the colour of `(0,1)`, sampling `(0,1)` copies from `(0,0)` |
| PpmGrid.CopyCanLoseColor | color_grid_ppm.c:80-83 | there `(0,1)` takes `(0,0)`'s colour, and when that differs, the old colour of `(0,1)` is gone from the grid: the colour multiset is not preserved |
| PpmGrid.CopiedOver | color_grid_ppm.c:80-83 | in that grid, once `(0,1)` holds the colour of `(0,0)` and every other cell is unchanged, no cell holds the old colour of `(0,1)` |
| PpmGrid.AbsentColor | color_grid_ppm.c:83 | a colour no cell holds is not among the grid's colours |
| PpmGrid.ProcessStep | color_grid_ppm.c:77-84 | one iteration, in place, turns the grid into `Step` of the old grid |
| PpmGrid.ProcessGrid | color_grid_ppm.c:76-85 | `process_grid` turns the grid into `Run` of the old grid over the samples, and creates no colour |

## Left out

- `rand`, `srand(time(NULL))` and the random initial fill (`color_grid_png.c` lines 97-103, `initialize_grid` in `color_grid_ppm.c`). These are nondeterminism. The initial grid is an input, and the sampled positions are the parameter `samples`. `random_color` is kept, with its three draws as parameters (`RandomColor`).
- `hypot` and the `double` comparisons (color_grid_png.c:127-133). They are replaced by the integer squared distance `Dist2`. For integer coordinates the square root is monotone, so the comparisons order the candidates the same way. Floating-point rounding is not modelled.
- `lodepng_encode32_file` and its error report. This is a foreign library call. The model stops at the packed buffer it receives.
- `write_ppm`: the `P6` header, `fopen`/`fwrite`. This is file I/O.
- The output file names (`snprintf`), the `compile-video.sh` script, `system("chmod ...")` and the `printf` diagnostics. This is I/O.
- `main`'s argument parsing and validation, `malloc`/`free`, and the variable-length array `similar_points`. These are environment; the grid arrays are inputs. The `similar_points` buffer is a fresh array of `n * n` points.
- The every-100000-iterations snapshot (color_grid_png.c:94, 146-148). It only triggers I/O.
- Overflow of C `int`. Coordinates, sums and counts are unbounded integers. This is exact while `size * size * size` fits in an `int`.
- PpmGrid.GetClosestNeighbor: the `INT_MAX` start of `min_distance` is modelled as a "nothing found yet" flag. The two agree whenever distances are below `INT_MAX`, which they are for on-grid cells.
- PpmGrid.GetClosestNeighbor: `closest_pixel` starts uninitialised in the C code. The model starts it at the sample's pixel. It is always overwritten, since the sample is a candidate.
- PpmGrid.ProcessGrid: requires `threshold > 0`. With `threshold <= 0` no cell matches and C divides by zero. `main` passes 50.
- PpmGrid.FindCentroid: requires that some cell matches. The C code divides by `count` unguarded.
- PngGrid.FindCentroid: requires `count > 0`. The C code divides by `count` unguarded, and its only caller passes a positive count (`SampleIsSimilar`).
