# Minimum-area stitching of stacked contour slices

`slices.py` reads a stack of closed contours ("slices") from a file and joins
each pair of adjacent slices with a band of triangles ("a tube"). For each
pair, `buildTriangles` does four things:

- It looks for the closest pair of vertices, one from each slice: both
  slices are sorted by x, and a pruned sweep runs over them. The sweep
  compares an x gap with a squared distance, so when the minimum lies
  strictly between 0 and 1 it can miss a closer pair
  (`ClosestPair.MissedCloserPair`).
- It rotates both contours to start at that anchor pair and closes each by
  repeating its first vertex.
- It fills a dynamic-programming table. Each cell holds the area accumulated
  so far and the direction it came from (`PREV_ROW` or `PREV_COL`).
- It walks back from the far corner, emitting one triangle per step.

The key handler concatenates the tubes of every adjacent pair. `readSlices`
builds the slices, links each vertex to its successor around its loop, and
returns the slices in reverse file order.

The model has these modules:

- `Wrappers`: `Option` and `Result`.
- `Geometry`: the vector helpers over exact reals. The triangle area is an
  abstract function parameter.
- `Slices`: the entities `Vertex`, `Slice`, `Triangle` and `Dir`.
  - A vertex's `nextV` is the position of its successor in the slice.
  - The anchor search returns positions, so `slice.verts.index` is not
    needed to find the anchor.
  - A triangle holds three `Vertex` values. The strip lemmas compare
    vertices by value (coordinates and successor), not by object identity.
- `Sorting`: Python's stable `sorted` by x.
- `ClosestPair`: the anchor search.
- `Triangulation`: rotation, the two tables and the walk back.
- `Stack`: the loop over adjacent pairs.
- `Loader`: `readSlices`, working on lines that are already tokenised.

Each loop of the source is a method with a `while` or `for` loop, proved
equal to a specification function: `FindClosestVertices` to
`ClosestVertices`, `FillTables` to `Cost` and `DirAt`, `WalkBack` to
`Backtrace`, `BuildTriangles` to `Stitch`, `StitchStack` to
`StackTriangles`, `ReadSlices` to `ReadSlicesSpec`, `ReadAllBlocks` to
`ReadBlocks`, `BuildSlice` to `SliceOf` and `Reverse` to `Reversed`.
Lemmas then state what those functions guarantee. The tables are `array2`s
filled in place, as in the source. Python's `sorted` is the function
`Sorting.SortByX`.

Two behaviours of the code are worth stating:

- **Small slices.** Nothing in the code asks for a minimum number of
  vertices per slice. The code stitches any non-empty slice, and fails only
  when a slice is empty, because the anchor search then returns `None` and unpacking it
  raises. `Triangulation.StitchTube` and `Stack.StackLayout` state exactly
  this.
- **Short last block.** A declared count that exceeds the data does not make
  the load fail. The code slices
  `lines[lineNum:lineNum+numPoints]`, which Python clamps to the end of the
  file, so a short last block is read silently with fewer points.
  `Loader.TruncatedBlock` shows a file that declares two points, holds one,
  and loads as a one-vertex slice.

## Model

| member | source | states |
|---|---|---|
| Geometry.Add | slices.py:587-589 | subtracting the second operand from the sum gives back the first operand |
| Geometry.Subtract | slices.py:592-594 | the difference is the origin exactly when the two operands are equal |
| Geometry.ScalarMult | slices.py:597-599 | a scaled vector is parallel to the original: their cross product is the origin |
| Geometry.DotProduct | slices.py:602-604 | the dot product of a vector with itself is non-negative |
| Geometry.CrossProduct | slices.py:607-609 | the cross product is orthogonal to both operands |
| Geometry.SquaredDistance | slices.py:152-153 | the squared distance the anchor search computes is non-negative |
| Geometry.SquaredDistanceBoundsGap | slices.py:145-151 | the squared distance is at least the squared x gap, which is what makes pruning the sweep by x sound |
| Geometry.DegenerateTriangleArea | slices.py:627-629 | for an area function computing half the length of the edge cross product, a triangle with a repeated corner, or whose third corner lies on the line through the first two, has area 0 |
| Slices.NormalDirection | slices.py:116-117 | a triangle's normal direction (before normalisation) is orthogonal to both edges leaving its first vertex |
| Sorting.SortByX | slices.py:136-137 | `sorted(verts, key=x)` as a list of positions, built by stable insertion; it lists valid positions, and SortByXSorts states that it is a stable sort by x |
| Sorting.SortByXSorts | slices.py:136-137 | the sort by x lists every position exactly once (multiset equal to 0..n-1) and is stably sorted: by x, with ties in original order |
| Sorting.SortByXCovers | slices.py:136-137 | every vertex position occurs in the sorted order |
| Sorting.SortedByXMonotone | slices.py:136-137 | x never decreases along the sorted order |
| ClosestPair.SkipBelow | slices.py:145-146 | the start index only moves forward and stays in range; with no minimum yet (infinite distance) it does not move |
| ClosestPair.SkipBelowPassed | slices.py:145-146 | every candidate the start index skips lies further than the current minimum to the left of x0 |
| ClosestPair.ScanRow | slices.py:148-158 | a row scan keeps a best pair that indexes both slices; an early return only happens at distance 0, and ScanRowStopsAtZero states the converse |
| ClosestPair.ScanRowStopsAtZero | slices.py:154-158 | the row scan returns as soon as the best distance reaches 0: a row that runs on never holds a best pair at distance 0 |
| ClosestPair.ScanFrom | slices.py:143-160 | the sweep's best pair indexes both slices |
| ClosestPair.ClosestBest | slices.py:134-160 | the anchor search's best pair indexes both slices |
| ClosestPair.ClosestVertices | slices.py:134-160 | the returned anchor pair is a pair of valid positions |
| ClosestPair.ScanRowMeasured | slices.py:152-156 | the recorded distance of the best pair after a row is that pair's squared distance |
| ClosestPair.ScanFromMeasured | slices.py:143-160 | the recorded distance stays the squared distance of the recorded pair for the whole sweep |
| ClosestPair.ClosestBestMeasured | slices.py:134-160 | the reported minimum is the squared distance of the reported pair |
| ClosestPair.ScanRowCovers | slices.py:148-158 | a row scan never raises the minimum, finds one as soon as there is a candidate, and leaves every later candidate of the row no closer than the minimum or further than the minimum from it in x |
| ClosestPair.ScanFromCovers | slices.py:143-160 | the sweep finds a pair exactly when one exists; every pair of the two slices is then no closer than the final minimum, or further than that minimum from it in x |
| ClosestPair.RowKeepsInvariant | slices.py:143-158 | one outer turn (skip, then row scan) preserves the sweep invariant |
| ClosestPair.ClosestVerticesDefined | slices.py:134-164 | the anchor search yields a pair exactly when both slices are non-empty |
| ClosestPair.ClosestVerticesBound | slices.py:148-158 | with both slices non-empty there is a minimum, and every pair is no closer than the minimum, or further than the minimum from it in x |
| ClosestPair.ClosestBestCovers | slices.py:143-160 | every pair of sorted positions is covered by the final minimum |
| ClosestPair.WideGapIsFar | slices.py:150-151 | an x gap wider than a minimum m ≥ 1 means a squared distance above m |
| ClosestPair.ClosestVerticesOptimal | slices.py:134-160 | when the minimum found is 0 or at least 1, no pair of vertices is closer than the anchor pair |
| ClosestPair.MissedCloserPair | slices.py:145-160 | on one vertex at the origin against (0, 0, 0.5) and (0.4, 0, 0), the search returns the pair at 0.25 although the other pair is at 0.16 |
| ClosestPair.FindClosestVertices | slices.py:134-160 | the sweep method returns exactly the anchor pair the specification function describes |
| ClosestPair.AdvanceStart | slices.py:145-146 | the skip loop moves the start index to the specification's SkipBelow position |
| ClosestPair.SweepRow | slices.py:148-158 | the inner loop's minimum, pair and early return agree with one row scan of the specification |
| Triangulation.Rotate | slices.py:169-173 | the rotation has n + 1 entries; entry i is verts[k+i], wrapping past the end; the last entry repeats the first, which is the anchor; the first n entries are a permutation of the contour |
| Triangulation.RotateCyclic | slices.py:169-173 | entry i of the closed rotation is verts[(start + i) mod n] for i = 0 .. n |
| Triangulation.RowTriangle | slices.py:227 | the triangle a PREV_ROW step appends: verts1[r-1], verts1[r], verts0[c]; TriangulationShape states where it is emitted |
| Triangulation.ColTriangle | slices.py:230 | the triangle a PREV_COL step appends: verts1[r], verts0[c-1], verts0[c]; TriangulationShape states where it is emitted |
| Triangulation.DirAt | slices.py:176-198 | the direction table is None only at the start cell; PREV_ROW only below row 0 and PREV_COL only right of column 0 |
| Triangulation.CellStep | slices.py:179-198 | row 0 always comes from the left and column 0 from above; inside the table, PREV_ROW is chosen exactly when the accumulated area above is smaller than that to the left, and the cell adds that step's triangle area |
| Triangulation.CostNonNegative | slices.py:179-198 | with a non-negative area function every accumulated area is non-negative |
| Triangulation.TriangulationLength | slices.py:221-233 | the walk back from (r, c) emits exactly r + c triangles |
| Triangulation.TriangulationArea | slices.py:179-233 | the total area of the triangles emitted from (r, c) is the accumulated area of cell (r, c) |
| Triangulation.Cost | slices.py:179-198 | minArea[r][c]: 0 at the start cell, otherwise the accumulated area of the chosen predecessor plus that step's triangle; its properties are stated by CellStep, CostNonNegative and TriangulationArea |
| Triangulation.Backtrace | slices.py:221-233 | the triangles the backtrace from (r, c) appends; its properties are stated by TriangulationLength, TriangulationShape, TriangulationStrip and TriangulationArea |
| Triangulation.Stitch | slices.py:130-233 | buildTriangles: anchor, rotation and backtrace from the far corner, None on an empty slice; its properties are stated by StitchTube |
| Triangulation.PathCells | slices.py:221-233 | the backtrace from (r, c) visits r + c cells starting at (r, c), one antidiagonal closer to the start per step, each with the direction recorded in the table, each step going to that direction's predecessor |
| Triangulation.TriangulationShape | slices.py:225-231 | triangle k of the backtrace is the PREV_ROW or PREV_COL triangle, as recorded, of cell k of the path |
| Triangulation.PathEdgesOnce | slices.py:225-231 | along the path every edge of verts0 between positions 1 and c is crossed by exactly one PREV_COL step and every edge of verts1 between 1 and r by exactly one PREV_ROW step, and no step crosses any other edge |
| Triangulation.TriangulationStrip | slices.py:221-233 | the emitted triangles form a strip: the first has edge (verts1[r], verts0[c]), consecutive triangles share an edge, the last has edge (verts1[0], verts0[0]) |
| Triangulation.ClosedStrip | slices.py:169-233 | on closed contours the walk gives n0 + n1 triangles, a strip that closes on the anchor edge, triangle k being the recorded triangle of path cell k, each step taking the direction the table records, each contour edge used by exactly one step, with the far corner's area as total |
| Triangulation.StitchTube | slices.py:130-233 | a pair stitches exactly when both slices are non-empty, into n0 + n1 triangles forming a closed strip around the anchor edge, triangle k being the recorded triangle of path cell k, each step taking the direction the table records, and each contour edge used by exactly one step |
| Triangulation.FillTables | slices.py:175-198 | the filled tables hold the specification's accumulated area and direction in every cell |
| Triangulation.FillFirstRow | slices.py:181-183 | row 0 is filled with the specification's values and no other row changes |
| Triangulation.FillFirstColumn | slices.py:185-187 | column 0 is filled with the specification's values; row 0 and the interior are unchanged |
| Triangulation.FillInterior | slices.py:189-198 | the interior is filled with the specification's values, given the border |
| Triangulation.WalkBack | slices.py:221-233 | the backtrace loop returns exactly `Backtrace` from the far corner, in append order |
| Triangulation.WalkStep | slices.py:226-231 | one backtrace turn appends the triangle of the current cell and moves one cell back, leaving the total sequence unchanged |
| Triangulation.BuildTriangles | slices.py:130-233 | buildTriangles returns the specification's tube, or None where the source raises on an empty slice |
| Stack.PairResults | slices.py:408-411 | there is one stitching result per adjacent pair, none when there are fewer than two slices |
| Stack.PairResultsAt | slices.py:408-411 | result i is buildTriangles(allSlices[i], allSlices[i+1]) |
| Stack.PairResultShape | slices.py:411 | pair i stitches exactly when both of its slices are non-empty, into n_i + n_(i+1) triangles |
| Stack.ConcatLayout | slices.py:407-411 | the concatenation exists exactly when no pair raised; it then has each tube, in order, at the offset given by the lengths of the tubes before it |
| Stack.Concat | slices.py:407-411 | allTriangles after k turns: [] at the start, each finished turn appending its tube, None once a turn raised; its properties are stated by ConcatLayout, ConcatFailureStays and FirstFailure |
| Stack.StackTriangles | slices.py:407-411 | allTriangles after the whole loop over adjacent pairs; its properties are stated by StackLayout |
| Stack.FirstFailure | slices.py:407-411 | when pair i is the first to raise, allTriangles holds the tubes of pairs 0 .. i-1, each at its offset, and every later state of the loop has failed |
| Stack.ConcatFailureStays | slices.py:408-411 | once a pair raised, the loop has no result |
| Stack.ConcatFailsAt | slices.py:408-411 | any single failing pair leaves the whole stack without a result |
| Stack.OffsetIsPairSum | slices.py:407-411 | when every tube has n_i + n_(i+1) triangles, the offsets are running sums of those counts |
| Stack.StackFails | slices.py:407-411 | an empty slice in a stack of at least two makes the stack fail |
| Stack.PairsSized | slices.py:407-411 | with every slice non-empty, every tube has n_i + n_(i+1) triangles |
| Stack.StackSucceeds | slices.py:407-411 | with every slice non-empty, the stack holds Σ (n_i + n_(i+1)) triangles, each tube at its offset |
| Stack.StackLayout | slices.py:407-411 | the stack succeeds exactly when it has fewer than two slices or none of them is empty; fewer than two slices give no triangles; otherwise every tube sits at its offset and the total is Σ (n_i + n_(i+1)) |
| Stack.UniformPairSum | slices.py:407-411 | N slices of n vertices each give 2n triangles per pair, (N - 1) · 2n in all |
| Stack.StitchPair | slices.py:411 | one turn of the loop extends the concatenation by the next pair's tube, or fails |
| Stack.StitchStack | slices.py:407-411 | the loop's result is exactly the specification's concatenation |
| Loader.Reversed | slices.py:672 | the reversal has the same length, and entry i is entry n - 1 - i of the input |
| Loader.SliceOf | slices.py:663-667 | a block only gives a slice when it is not empty |
| Loader.Window | slices.py:664 | a count ≤ 0 selects no lines |
| Loader.NextBlock | slices.py:660-670 | reading a block succeeds only at a count line with count ≥ 1, and moves the cursor past the count line and its points |
| Loader.PointsOf | slices.py:663-664 | the points of a block's lines, in order, NotAPoint on a line that is not a point; its properties are stated by PointsOfLength |
| Loader.Linked | slices.py:666-667 | links vertex k to vertex k + 1 and the last back to the first; its properties are stated by LinkedIsClosed |
| Loader.ReadBlocks | slices.py:656-670 | the next count blocks from the cursor, in file order, or the first error; its properties are stated by ReadBlocksShape and ReadBlocksRoundTrip |
| Loader.ReadSlicesSpec | slices.py:650-674 | readSlices: numSlices blocks after the first line, reversed; its properties are stated by ReadSlicesShape and ReadSlicesRoundTrip |
| Loader.LinkedIsClosed | slices.py:666-667 | the linked slice is a closed loop: vertex k links to vertex (k + 1) mod n, and the coordinates are kept |
| Loader.PointsOfLength | slices.py:663-664 | a block gives points exactly when every line is a point line, one point per line, in order |
| Loader.ReadBlocksShape | slices.py:658-670 | reading count blocks gives count slices, each a closed loop |
| Loader.ReadSlicesShape | slices.py:650-674 | a successful load holds numSlices slices (none for a negative count), each a closed loop, in reverse file order |
| Loader.BlockLines | slices.py:660-664 | a block is written as one count line followed by its point lines |
| Loader.SlicesOf | slices.py:663-669 | one slice per written block |
| Loader.SliceOfBlock | slices.py:663-667 | the point lines of a written block give back its linked slice |
| Loader.ReadBlockLines | slices.py:660-670 | a written block embedded anywhere in a file is read back and the cursor lands after it |
| Loader.ReadBlocksRoundTrip | slices.py:658-670 | reading the written blocks gives back their slices, in file order |
| Loader.ReadSlicesRoundTrip | slices.py:650-674 | reading a written stack of non-empty blocks gives back its slices reversed |
| Loader.TruncatedBlock | slices.py:663-664 | one file declaring two points and holding one point line loads as a one-vertex slice |
| Loader.TruncatedBlockReads | slices.py:660-664 | whenever a count exceeds the lines left and those lines are all points, the block reads the points present, in order, and the cursor still moves on by the declared count |
| Loader.ReadSlices | slices.py:650-674 | the loading method returns exactly the specification's slices or error |
| Loader.ReadAllBlocks | slices.py:656-670 | the loop over range(numSlices) returns exactly the specification's blocks (none for a negative numSlices) or error |
| Loader.ReadStep | slices.py:660-670 | one turn of the loop either raises, which is then the error of the whole loop, or reads one slice that the blocks still to read begin with |
| Loader.ReadSlice | slices.py:660-670 | one turn of the loop returns the specification's next block and cursor |
| Loader.BuildSlice | slices.py:663-667 | building and linking a slice from its block returns the specification's slice or error |
| Loader.Reverse | slices.py:672 | the reversing loop returns the reversal of its input |

## Left out

- The OpenGL drawing, the window, mouse and key callbacks, `main`, and `drawText` are left out: they are user interface, not stitching. Only the stitching loop of the key handler is modelled. Its other branch (line 405) is a single call of `BuildTriangles`, which needs no separate model.
- `triangleArea` takes a square root, so it is kept abstract as a parameter of type `Geometry.Area`. `Geometry.IsTriangleArea` states what it computes without the root: a non-negative value whose square times four is the squared length of the edge cross product, and which is zero exactly when that cross product is zero.
- `length`, `normalize` and `rotateVector` are left out: floating point with square roots and trigonometry. For the same reason `Triangle.norm` is represented only by its direction before normalisation (`Slices.NormalDirection`).
- Coordinates are exact reals, so floating-point rounding is not modelled. The `float('inf')` initial minimum is modelled as a separate "no minimum yet" flag.
- File reading, `split()`, `int()` and `float()` are left out: the loader works on lines that are already tokenised into a count or a point. A line with a single token inside a block is a `CountLine`. The model rejects it with `NotAPoint`, where the source builds a vertex with one coordinate.
- Loader.Window: a count below -(lineNum + 1) makes Python's slice end count from the end of the file, and the cursor then moves backwards. The model treats every count ≤ 0 as selecting no lines (an `EmptySlice` error). That matches the source only for counts from -(lineNum + 1) to 0.
- The progress output on stdout and the commented-out table printing are left out: they are output only.
- The `nextID` counters and `__repr__` labels are left out. `nextV` is an index into its slice, and vertices are compared by value, so two vertices with equal coordinates and successor are not told apart.
- When pair i of the stack loop raises, `allTriangles` (reset to `[]` at line 407) holds the tubes of pairs 0 .. i-1. The model's result for the whole loop is `None`; `Stack.FirstFailure` states what the partial list holds at that point.
- Exceptions are modelled as `None` or `Err`: an empty slice in `buildTriangles`, and IndexError or ValueError in `readSlices`.
- ClosestPair.ClosestVerticesBound: the model does not list the pairs the sweep compares. It states the coverage property above for every pair instead. For a compared pair that is not pruned, this means its distance is at least the minimum.
- ClosestPair.ClosestVerticesOptimal: the sweep compares a squared distance against an x offset. Its pruning is guaranteed sound only when the minimum is 0 or at least 1, so global optimality of the anchor pair is proved when that condition holds. `ClosestPair.MissedCloserPair` shows a minimum of 0.25 that is not the closest. In every case `ClosestPair.ClosestVerticesBound` proves that each pair is no closer than the minimum, or further than the minimum from it in x.
- Triangulation.CellStep: the source picks the direction by comparing the two predecessors' accumulated areas, not the two candidate totals. The model proves that rule and the area it accumulates. It does not claim that the walk has the minimum area over all lattice paths, which the source does not guarantee.
