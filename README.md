# polylabel: pole of inaccessibility, modelled in Dafny

This project models `polylabel`, the pole-of-inaccessibility search in the
GeoJSON layer of kepler.gl (`src/layers/src/geojson-layer/polylabel.ts`). It
places a label inside an irregular polygon at the point farthest from the
polygon's boundary.

The search covers the outer ring's bounding box with square cells and keeps
them in a binary-heap priority queue (`TinyQueue`), ordered by the best
distance any point of a cell could reach. It then splits the most promising
cell until no cell can beat the best point found by more than the precision.

The model has seven modules.

- `Wrappers` (`wrappers.dfy`) holds the `Option` type, used for `undefined`
  and for the `Infinity` seed of a running minimum.
- `PriorityQueue` (`tiny_queue.dfy`) is the heap, as a class with the
  fields `data`, `length` and `compare`.
  - The constructor heapifies bottom-up.
  - `Push` and `Pop` sift with `Up` and `Down`.
  - `Peek` returns the root.
  - Each is proved to keep the heap order. Each also states the queue's new
    contents as a multiset.
- `Geometry` (`geometry.dfy`) has the squared point-to-segment distance,
  `SegDistSq`, and the signed point-to-polygon distance.
  - `PointToPolygonDist` is the loop of the source, proved equal to the
    function `SignedDist`.
  - The properties of the signed distance are proved about that function.
- `Cells` (`cells.dfy`) has the `Cell` record, the queue's comparator and
  `getCentroidCell`. The centroid loop is proved to compute the textbook
  shoelace centroid of the outer ring, whatever the ring's orientation.
- `Nesting` (`nesting.dfy`) represents the loosely structured input as
  numbers nested in arrays, and defines `arrayDepth` on it.
- `Search` (`search.dfy`) has the bounding box, the seeding grid and the
  main branch-and-bound loop (`Refine`), on a single ring.
  - The main loop is proved to terminate for any positive precision. Its
    measure is the number of cells that the cells still queued can spawn
    before the precision prunes them.
  - Every cell of the seeding grid is probed, and every probed cell is a
    grid cell or a child of a probed cell that was split.
  - A popped cell is split exactly when its bound beats the best distance
    of that moment by more than the precision, and then all four of its
    children are probed too. Each round pops a cell of largest bound among
    the pending ones.
  - The answer is the first guess (the centroid cell, or the box-centre
    cell when it is strictly better), or else the earliest probed cell
    whose distance beats it and every cell probed before.
- `Polylabel` (`polylabel.dfy`) is the entry point. It dispatches on the
  depth of the input: `null` below depth 2, the search on one ring at
  depth 2, and deeper, a recursive call per element followed by the
  comparison of index 2 of the results.

The collection loop follows JavaScript exactly.

- Reading index 2 of a `null` sub-result throws a `TypeError`. The outcome
  `Threw` models it.
- The degenerate answer `[minX, minY]` has no index 2, so every comparison
  with it is false. A degenerate first element therefore wins over any later
  element.
- A later degenerate element never replaces the best one.

`FoldIsLargest` and `CollectionOfRings` state these facts.

In three places the model follows the code rather than the usual
description of the algorithm.

- A GeoJSON polygon, which is an array of rings, has depth 3. It therefore
  takes the collection path: every ring, holes included, is searched as a
  polygon of its own, and the label of largest distance wins. Holes never
  act as holes inside `polylabel` itself. The signed distance still counts
  crossings across all rings of the polygon it is given, as
  `Geometry.SignedDistSign` states.
- The degenerate answer is the two-element array `[minX, minY]`, which
  carries its distance 0 only as a property. It is not a three-element
  `[x, y, 0]`.
- The search returns `[x, y, d]` for the best cell probed. The precision
  bounds where splitting stops, and the model proves the certificate above
  for the cells it probed: exactly the seeding grid and the children of
  the cells it split.

## Model

| member | source | states |
|---|---|---|
| `PriorityQueue.DefaultCompare` | src/layers/src/geojson-layer/polylabel.ts:9 | the default comparator is negative exactly when a < b and positive exactly when a > b |
| `PriorityQueue.DefaultCompareIsValid` | src/layers/src/geojson-layer/polylabel.ts:9 | the default comparator flips sign under swapped arguments and is transitive, so the heap can use it |
| `PriorityQueue.HeapFirstIsLeast` | src/layers/src/geojson-layer/polylabel.ts:25-40 | in a heap ordered by a valid comparator the root compares at most 0 with every element |
| `PriorityQueue.HeapFirstIsLeastOfAll` | src/layers/src/geojson-layer/polylabel.ts:25-40 | the root of a non-empty heap comes no later than any element of the buffer |
| `PriorityQueue.TinyQueue.constructor` | src/layers/src/geojson-layer/polylabel.ts:9-18 | the bottom-up `_down` loop leaves a heap holding exactly the given items, with `length` their number |
| `PriorityQueue.TinyQueue.Push` | src/layers/src/geojson-layer/polylabel.ts:20-23 | pushing keeps the heap order, adds one to `length` and adds exactly the item to the contents |
| `PriorityQueue.TinyQueue.Pop` | src/layers/src/geojson-layer/polylabel.ts:25-36 | an empty queue yields `undefined` and is left as it was; otherwise the old root is returned, it comes no later than every element, exactly it is removed, and the heap order is restored |
| `PriorityQueue.TinyQueue.Peek` | src/layers/src/geojson-layer/polylabel.ts:38-40 | nothing exactly on an empty queue, else the first slot `data[0]`, an element of the queue that comes no later than every other |
| `PriorityQueue.TinyQueue.Up` | src/layers/src/geojson-layer/polylabel.ts:42-57 | sifting the last element up turns a buffer that is a heap everywhere else into a heap with the same contents |
| `PriorityQueue.TinyQueue.Down` | src/layers/src/geojson-layer/polylabel.ts:59-77 | sifting down from `pos` extends heap order from below `pos` to `pos` itself, with the same contents |
| `PriorityQueue.UpStep` | src/layers/src/geojson-layer/polylabel.ts:46-54 | moving the parent into the hole keeps every other parent link ordered when the item comes before the parent |
| `PriorityQueue.UpDone` | src/layers/src/geojson-layer/polylabel.ts:49-56 | dropping the item into the hole at the root, or below a parent it does not precede, gives a heap |
| `PriorityQueue.BestChildIsLeast` | src/layers/src/geojson-layer/polylabel.ts:65-69 | the child picked by the right-child test comes no later than either child |
| `PriorityQueue.DownStep` | src/layers/src/geojson-layer/polylabel.ts:70-74 | moving the best child up when it precedes the item keeps the sift-down invariant one level lower |
| `PriorityQueue.DownDone` | src/layers/src/geojson-layer/polylabel.ts:70-76 | stopping when the best child does not precede the item leaves heap order from `pos` |
| `PriorityQueue.DownAtLeaf` | src/layers/src/geojson-layer/polylabel.ts:64-76 | once the hole reaches the leaves (index at least `length >> 1`) the item can be dropped in |
| `Nesting.MaxOf` | src/layers/src/geojson-layer/polylabel.ts:81 | `Math.max(0, ...)` is at least every element and is 0 or one of them |
| `Nesting.ArrayDepth` | src/layers/src/geojson-layer/polylabel.ts:80-82 | the depth is 0 exactly for a number, and at least 1 for any array |
| `Nesting.ArrayDepthSpec` | src/layers/src/geojson-layer/polylabel.ts:80-82 | a number has depth 0; an array is deeper than each element and exactly one deeper than its deepest one, so `[]` has depth 1 |
| `Nesting.DepthTwoIsRing` | src/layers/src/geojson-layer/polylabel.ts:164-166 | a well-formed input of depth 2 is a non-empty array of coordinate pairs |
| `Geometry.SegDistSq` | src/layers/src/geojson-layer/polylabel.ts:85-102 | the squared distance to a segment is never negative |
| `Geometry.Closest` | src/layers/src/geojson-layer/polylabel.ts:86-98 | the point measured to is `a + t (b - a)` for some t in [0, 1], so it lies on the segment |
| `Geometry.NearCase` | src/layers/src/geojson-layer/polylabel.ts:89-101 | when the projection parameter is at most 0 the result is the squared distance to `a`, which is no more than that to `b` |
| `Geometry.FarCase` | src/layers/src/geojson-layer/polylabel.ts:91-93 | when the projection parameter exceeds 1 the result is the squared distance to `b`, which is no more than that to `a` |
| `Geometry.InnerClosest` | src/layers/src/geojson-layer/polylabel.ts:94-97 | for a parameter t in (0, 1] the result is the squared distance to the point `a + t (b - a)` |
| `Geometry.InnerCase` | src/layers/src/geojson-layer/polylabel.ts:94-101 | for a parameter in (0, 1] the projected point is no farther than either end |
| `Geometry.SegDistSqBounds` | src/layers/src/geojson-layer/polylabel.ts:85-102 | the squared segment distance is at most the squared distance to either end, and equals that to `a` for a segment of one point |
| `Geometry.SegDistSqIsLeast` | src/layers/src/geojson-layer/polylabel.ts:85-102 | no point of the segment is nearer: the result is at most the squared distance to `a + s (b - a)` for every s in [0, 1] |
| `Geometry.MinWith` | src/layers/src/geojson-layer/polylabel.ts:117 | `Math.min` with `Infinity` as "nothing yet" is at most the new distance and the old minimum, and is one of them |
| `Geometry.Crosses` | src/layers/src/geojson-layer/polylabel.ts:114 | an edge that crosses the ray straddles the ray's line, so the division by `b[1] - a[1]` is never by 0 |
| `Geometry.RingStep` | src/layers/src/geojson-layer/polylabel.ts:112-118 | scanning edge i adds its crossing to the count and its squared distance to the running minimum |
| `Geometry.ScanEdge` | src/layers/src/geojson-layer/polylabel.ts:113-117 | one edge flips the inside flag exactly when it crosses the ray from the point, and lowers the running minimum to its squared distance |
| `Geometry.PointToPolygonDist` | src/layers/src/geojson-layer/polylabel.ts:105-121 | the double loop over rings and edges returns exactly the signed distance `SignedDist` |
| `Geometry.RingMinSqIsLeast` | src/layers/src/geojson-layer/polylabel.ts:112-118 | the running minimum over a ring is at most every edge scanned and the starting value, and equals one of them |
| `Geometry.MinSqIsLeast` | src/layers/src/geojson-layer/polylabel.ts:109-119 | the minimum over all rings exists exactly when some ring has an edge, is at most every edge's squared distance and equals one of them |
| `Geometry.SignedDist` | src/layers/src/geojson-layer/polylabel.ts:105-121 | the result is `-Infinity` exactly when no ring has a point |
| `Geometry.SignedDistZero` | src/layers/src/geojson-layer/polylabel.ts:120 | the result is 0 exactly when some edge of some ring passes through the point |
| `Geometry.SignedDistSign` | src/layers/src/geojson-layer/polylabel.ts:114-120 | off the boundary the magnitude is the root of the least squared edge distance, positive exactly when the crossings over all rings together are odd and negative exactly when they are even |
| `Cells.CellAt` | src/layers/src/geojson-layer/polylabel.ts:130-136 | a cell keeps its centre and half side; its bound is at least its distance for a non-negative size, and equal to it for size 0 |
| `Cells.DistanceTo` | src/layers/src/geojson-layer/polylabel.ts:134 | the distance a cell records is the finite signed distance of its centre to a polygon with an edge, at every point |
| `Cells.BuiltDistance` | src/layers/src/geojson-layer/polylabel.ts:134-135 | a constructed cell holds the signed distance of its centre, and its bound is that distance plus `h * SQRT2` |
| `Cells.NewCell` | src/layers/src/geojson-layer/polylabel.ts:130-136 | the constructor, with one distance probe, builds the cell `CellAt` describes |
| `Cells.CellCompare` | src/layers/src/geojson-layer/polylabel.ts:208 | the comparator `b.max - a.max` is negative exactly when `a` has the larger bound, so the heap pops the largest bound first |
| `Cells.CellCompareIsValid` | src/layers/src/geojson-layer/polylabel.ts:208 | the cell comparator is a valid heap comparator |
| `Cells.StepIsFlippedTerm` | src/layers/src/geojson-layer/polylabel.ts:145-149 | one step of the loop on edge (point i, point j) is the shoelace term of the edge from j to i, negated, with the area tripled |
| `Cells.CentroidSums` | src/layers/src/geojson-layer/polylabel.ts:144-150 | after n >= 1 steps the accumulators hold the flipped shoelace terms of the closing edge and of the first n - 1 forward edges |
| `Cells.CentroidSumsAreShoelace` | src/layers/src/geojson-layer/polylabel.ts:141-150 | after the loop `area`, `x` and `y` are the textbook shoelace sums negated, with the area tripled |
| `Cells.CentroidCellIsAreaCentroid` | src/layers/src/geojson-layer/polylabel.ts:140-155 | the centroid cell sits at the area centroid of the outer ring, whatever its orientation, and at its first point when the ring has zero area |
| `Cells.CentroidCell` | src/layers/src/geojson-layer/polylabel.ts:151-154 | the centroid cell has size 0 |
| `Cells.AddEdge` | src/layers/src/geojson-layer/polylabel.ts:145-149 | one loop step adds the cross product of the edge times 3 to `area` and the weighted coordinate sums to `x` and `y` |
| `Cells.GetCentroidCell` | src/layers/src/geojson-layer/polylabel.ts:140-155 | the loop and the zero-area fallback return exactly the centroid cell |
| `Search.BoxAfter` | src/layers/src/geojson-layer/polylabel.ts:181-195 | after n points the box has no negative width or height |
| `Search.BBox` | src/layers/src/geojson-layer/polylabel.ts:180-195 | the box of the outer ring holds every one of its points |
| `Search.BoxAfterIsTight` | src/layers/src/geojson-layer/polylabel.ts:181-195 | after n points every one of them lies in the box, and each bound is attained by one of them |
| `Search.BBoxIsTight` | src/layers/src/geojson-layer/polylabel.ts:180-195 | the box of the outer ring is the smallest box holding all its points |
| `Search.BoundingBox` | src/layers/src/geojson-layer/polylabel.ts:180-195 | the loop with its `!i` tests computes that smallest box |
| `Search.BoxCentre` | src/layers/src/geojson-layer/polylabel.ts:197-221 | the cell size is `Math.min(width, height)`, and the box cell is the size-0 cell at the box centre |
| `Search.Children` | src/layers/src/geojson-layer/polylabel.ts:245-249 | a cell splits into four constructed cells of half its size |
| `Search.SplitWeight` | src/layers/src/geojson-layer/polylabel.ts:241-249 | a cell whose slack exceeds the precision weighs one more than four cells of half its size |
| `Search.TotalAddChildren` | src/layers/src/geojson-layer/polylabel.ts:241-249 | pushing the four children of an unpruned cell adds one less than the cell's weight to the queue's measure |
| `Search.PushCell` | src/layers/src/geojson-layer/polylabel.ts:213 | `cellQueue.push(new Cell(...))` adds exactly the constructed cell and keeps the queue a heap |
| `Search.PushChildren` | src/layers/src/geojson-layer/polylabel.ts:245-249 | the four pushes add exactly the four children of the cell |
| `Search.CertifiedStep` | src/layers/src/geojson-layer/polylabel.ts:229-250 | one round keeps the certificate: a probed cell not pruned against the best distance of its round has its children probed or pending |
| `Search.Raised` | src/layers/src/geojson-layer/polylabel.ts:233-238 | the best distance after a comparison is at least the old best and the popped distance, and is one of them |
| `Search.RunningStep` | src/layers/src/geojson-layer/polylabel.ts:233-238 | one pop appends to the record of best distances the old best raised to the popped distance |
| `Search.TracedStep` | src/layers/src/geojson-layer/polylabel.ts:228-250 | one pop keeps every probed cell traced to a start cell or to an earlier probed cell that was split |
| `Search.QueuedStep` | src/layers/src/geojson-layer/polylabel.ts:241-249 | after one round every pending cell is a start cell or a child of a probed cell that was split; children are pushed only for a cell that was not pruned |
| `Search.BestStep` | src/layers/src/geojson-layer/polylabel.ts:232-238 | one pop keeps the best cell chosen, no worse than any probed cell, and equal to the last recorded best distance |
| `Search.CoveredStep` | src/layers/src/geojson-layer/polylabel.ts:228-250 | one pop keeps the certificate, the trace of the probed cells and the origin of the pending ones |
| `Search.RefineRound` | src/layers/src/geojson-layer/polylabel.ts:229-250 | one round pops a cell of largest bound among the pending ones, appends it to the probed cells, keeps the loop's progress and lowers the termination measure |
| `Search.ChosenKeep` | src/layers/src/geojson-layer/polylabel.ts:233-238 | a popped cell whose distance does not beat the best one leaves the chosen cell as it was |
| `Search.ChosenNew` | src/layers/src/geojson-layer/polylabel.ts:233-238 | a popped cell whose distance strictly beats the best one becomes the chosen cell: it beats the first guess and every cell probed before it |
| `Search.Refine` | src/layers/src/geojson-layer/polylabel.ts:228-251 | the main loop terminates with an empty queue; every cell queued at the start is probed; every probed cell was queued at the start or is a child of an earlier probed cell whose bound beat the best distance of its round by more than the precision; every such unpruned cell has all its children probed; `bests` records the best distance after each pop; no probed cell beats the result, which is the starting cell or else the earliest probed cell whose distance strictly beats the starting one and every cell probed before it |
| `Search.Column` | src/layers/src/geojson-layer/polylabel.ts:212-214 | the inner loop pushes a cell exactly when `y < maxY` |
| `Search.ColumnCells` | src/layers/src/geojson-layer/polylabel.ts:212-213 | every cell of a column is a constructed cell of half side `cellSize / 2` whose left side is at `x` and whose lower side lies in [y, maxY) |
| `Search.GridFrom` | src/layers/src/geojson-layer/polylabel.ts:211-215 | the outer loop from a left side `x < maxX` pushes at least one cell when the box has positive height |
| `Search.GridFromCells` | src/layers/src/geojson-layer/polylabel.ts:211-215 | every cell pushed from a left side `x` on is constructed, of half side `cellSize / 2`, with its lower corner in the box to the right of `x` |
| `Search.Grid` | src/layers/src/geojson-layer/polylabel.ts:211-215 | every seeded cell is constructed, of half side `cellSize / 2`, with its lower corner in the box; a box of positive size is seeded first with the cell at its lower corner |
| `Search.GridCovers` | src/layers/src/geojson-layer/polylabel.ts:211-215 | every point of the closed bounding box, its upper and right sides included, lies in some cell of the seeding grid |
| `Search.SeedColumn` | src/layers/src/geojson-layer/polylabel.ts:212-214 | the inner loop adds exactly the cells of its column to the queue, in any order, and keeps the queue a heap |
| `Search.SeedGrid` | src/layers/src/geojson-layer/polylabel.ts:211-215 | the seeding loops keep the queue a heap and add exactly the cells of the seeding grid `Grid` to its contents |
| `Search.FirstGuess` | src/layers/src/geojson-layer/polylabel.ts:217-224 | the first best guess is the centroid cell or the box cell, no worse than either, and the box cell only when its distance is strictly larger (or the two cells are equal) |
| `Search.SearchedFrom` | src/layers/src/geojson-layer/polylabel.ts:211-251 | the seeding and the main loop together give the certificate of the search on one ring, with the seeding grid as the start cells |
| `Search.LabelRing` | src/layers/src/geojson-layer/polylabel.ts:179-260 | a zero cell size gives the box's lower corner; otherwise the result is a point carrying its signed distance to the ring, no worse than the centroid cell, the box cell and every probed cell; every cell of the seeding grid is probed; every probed cell is a grid cell or a child of a probed cell that was not pruned; the certificate holds against the best distance of each round; and the point is the first guess or the earliest probed cell that strictly beats it and every cell probed before it |
| `Polylabel.Third` | src/layers/src/geojson-layer/polylabel.ts:172 | index 2 of a result exists exactly for a searched point and holds its distance |
| `Polylabel.Step` | src/layers/src/geojson-layer/polylabel.ts:172-174 | a round that returns had a returned, non-`null` newcomer, returns either the best so far or the newcomer, and keeps a label the newcomer does not beat |
| `Polylabel.Compare` | src/layers/src/geojson-layer/polylabel.ts:172-174 | the comparison throws on a `null` side and otherwise keeps the best point unless the new one has a strictly larger index 2 |
| `Polylabel.FoldThrows` | src/layers/src/geojson-layer/polylabel.ts:169-176 | a collection throws exactly when a sub-call throws, or when it has at least two sub-results and one of them is `null` |
| `Polylabel.Fold` | src/layers/src/geojson-layer/polylabel.ts:169-176 | a collection that returns returns one of its sub-results, and the first one when it has one element |
| `Polylabel.FoldIsLargest` | src/layers/src/geojson-layer/polylabel.ts:169-176 | a degenerate first sub-result always wins; a searched first one leads to a searched result whose distance no sub-result exceeds and that is strictly larger than that of every sub-result before it |
| `Polylabel.CollectionOfRings` | src/layers/src/geojson-layer/polylabel.ts:167-176 | on an array of rings `polylabel` never throws, returns the label of one of the rings, and, when the first ring was searched, the one of largest distance |
| `Polylabel.Polylabel` | src/layers/src/geojson-layer/polylabel.ts:157-177 | `null` below depth 2, on a single ring at depth 2 a label for which some distance function and some list of probed cells satisfy `Labelled` (the search's promise, including the whole seeding grid probed and the label chosen from the probed cells), and deeper the collection loop over the elements' own outcomes |
| `Polylabel.Collect` | src/layers/src/geojson-layer/polylabel.ts:167-176 | the collection loop returns the fold of the comparisons over the outcomes of the elements it visited, and stops early only after a throw |

## Left out

- The `debug` flag, its `console.log` calls and `numProbes` are left out. They do not affect the result.
- Floating point is left out. Coordinates are exact reals, so NaN, infinities other than the `-Infinity` of an edgeless polygon, and rounding are not modelled.
- `Math.sqrt` is a parameter `sqrt`. The sign lemmas assume only that it is positive on positive inputs.
- `Math.SQRT2` is the decimal constant 1.4142135623730951, the double nearest to the square root of 2.
- `Polylabel.Polylabel`: requires a positive precision. With exact reals and a precision of 0 or less, the main loop need not terminate. The default precision of 1 is not modelled, so callers always pass one.
- `Polylabel.Polylabel`: requires a well-formed input. Every array of depth 2 must hold coordinate pairs of numbers. Inputs where the code would read `undefined` coordinates are not modelled.
- `Polylabel.Polylabel`: the search's promise on a ring is stated through `RingOk`: some distance function and some list of probed cells satisfy `Labelled`. It does not name one particular label: `Searched` does not carry the order of the pops (only `Search.RefineRound` states, round by round, that a cell of largest pending bound is popped), so any run consistent with the trace of the probed cells satisfies it.
- `PriorityQueue.TinyQueue.Up`: requires `pos` to be the last index, the only way `push` calls `_up`.
- `PriorityQueue.TinyQueue.constructor`: requires a valid comparator, one that flips sign under swapped arguments and is transitive. The queue's `data` is modelled as a sequence field that the methods reassign, so two queues cannot share one array.
- `Search.LabelRing`: the certificate says that every probed cell either has a bound within the precision of the best distance of its round or had all its children probed. It is not a proof that the answer is within the precision of the true pole.
- Cells are built only for polygons with at least one edge, which `polylabel` always provides. `pointToPolygonDist` itself is modelled for any polygon.
