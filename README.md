# Batch helpers for a game engine, modelled in Dafny

This project models the discrete core of a Godot extension of batch helpers
written in C++. The extension works on flat arrays handed over from scripts.
The modelled parts are:

- **Grid pathfinding.** A* (plain, weighted, uniform and batched), multi-goal
  Dijkstra as a path and as a distance map, the flow field derived from a
  distance map, Jump Point Search, cost-bounded reachability, `path_cost` and
  the path post-processing passes.
- **Grid utilities.** Row-major index arithmetic, neighbour enumeration, BFS
  flood fills, Bresenham lines, BFS distance fields, connected-component
  labelling, value search and region copies.
- **Array utilities.** Integer filters, sorts and argsorts, reorder and select,
  sum, min, max, argmin, argmax, find and count.
- **Spatial indexes.** The 2D and 3D hash grids, the 3D KD-tree, the quad-tree
  and the octree. Each is a class whose fields the operations update in place.
- **Random numbers.** The xoshiro256** generator with SplitMix64 seeding, and
  the draws built on it: unit floats, bounded integers, Fisher–Yates shuffles
  and weighted choice.
- **Noise configuration.** The seeded permutation table and the clamping
  setters.
- **Statistics.** Sliding-window max, min and sum, cumulative sum, moving
  average, histograms, bin edges, `unique` and percentiles.
- **Geometry and collision.** The comparison-only parts: winding and signed
  area, polygon reversal, convexity, point in polygon, the monotone-chain hull,
  RDP and Visvalingam simplification, ear clipping, point filters and
  collision pair lists.

## Representation

- A grid is a flat `seq` of cells, with cell (x, y) at `y * width + x`.
- C++ `/` and `%` on `int`, and the float-to-int cast, are written out with
  truncation toward zero (`Common.TruncDiv`, `Common.TruncMod`, `Common.Trunc`).
- Floats and `Vector2`/`Vector3` coordinates are exact `real`s.
- The `INF` sentinel of the searches is a datatype value (`Dist = Fin(real) | Inf`).
- A search's min-heap is a sequence of entries. Extraction takes an entry of
  least priority, so ties are left open.
- The generator's four state words and the hash keys are `bv64`, or naturals
  taken modulo 2^64.
- Functions that loop or update buffers are methods over `seq`s or arrays.
  Each method's contract ties its result to a reference function, and the
  source's promises are proved about those functions as lemmas.
- Classes keep their source fields (buckets, stored positions, counts, tree
  roots, node vectors, generator state). Each class has a `Valid()` invariant
  that its methods preserve.

Source files outside this model, as far as the model touches them:

- `src/math/math_ops.cpp`, `src/interpolation/interpolation_ops.cpp` and
  `src/batch/batch_ops.cpp` are not part of this model.
- `src/register_types.cpp` is not part of this model.
- The 2D KD-tree declared in `src/spatial/kd_tree_2d.hpp` is not part of
  this model.

## Model

| member | source | states |
|---|---|---|
| Grid.ToIndexInRange | src/grid/grid_ops.cpp:68-70 | the index of an in-bounds cell lies in [0, width * height) |
| Grid.ToIndexInjective | src/grid/grid_ops.cpp:68-70 | distinct cells with columns inside the row have distinct indices |
| Grid.ToCoords | src/grid/grid_ops.cpp:72-74 | a non-negative index yields a column in [0, width) and a row >= 0 whose to_index is the index; a negative index yields coordinates <= 0 (C++ truncation, no wrap) |
| Grid.CoordsRoundTrip | src/grid/grid_ops.cpp:68-74 | to_coords(to_index(x, y, w), w) == (x, y) for 0 <= x < w and y >= 0 |
| Grid.IndexInBoundsIffCoords | src/grid/grid_ops.cpp:106-112 | index_in_bounds holds exactly when the index is non-negative and its coordinates pass in_bounds |
| Grid.Neighbors4Exact | src/grid/grid_ops.cpp:116-128 | neighbors_4 of an in-bounds cell: the N, E, S, W table in that order, at most 4 cells, all in the grid, never the cell itself, and exactly its 4-adjacent cells |
| Grid.Neighbors8 | src/grid/grid_ops.cpp:130-148 | the nested dy/dx loops list the in-bounds cells of the nine-offset table, centre skipped, rows top to bottom |
| Grid.Neighbors8Exact | src/grid/grid_ops.cpp:130-148 | that list has at most 8 cells, all in the grid, never the cell itself, and exactly its 8-adjacent cells |
| Grid.Neighbors4Batch | src/grid/grid_ops.cpp:150-178 | the per-cell N, E, S, W lists concatenated in input order |
| Grid.Neighbors4BatchIsConcat | src/grid/grid_ops.cpp:150-178 | on cells of the grid the batch equals neighbors_4 applied cell by cell |
| Grid.Neighbors8Batch | src/grid/grid_ops.cpp:180-207 | the per-cell 8-neighbour lists concatenated in input order |
| Grid.NeighborsCustom | src/grid/grid_ops.cpp:209-226 | the in-bounds cells the offsets, each component cast to int, reach from the cell of the index, in offset order |
| Grid.OffsetStepsExact | src/grid/grid_ops.cpp:209-226 | that list has at most one cell per offset and holds exactly the cells some offset reaches inside the grid (a zero offset lists the cell itself) |
| Grid.ToIndices | src/grid/grid_ops.cpp:76-89 | one index per cell, y * width + x of its coordinates cast to int, for any width, and to_coords recovers each such cell whose column lies in the row and whose row is >= 0 |
| Grid.ToCoordsBatch | src/grid/grid_ops.cpp:91-104 | one to_coords pair per index for every non-zero width; to_index maps each pair back to its index, and for a non-negative index on a positive width the column lies in [0, width) |
| Common.TruncDivMod | src/grid/grid_ops.cpp:99 | C++'s truncating / and % satisfy (a / b) * b + a % b == a, the remainder below the divisor in size and of the dividend's sign |
| GridFill.AroundExact | src/grid/grid_ops.cpp:254-266 | the BFS direction loop visits exactly the 4-adjacent cells of a grid cell |
| GridFill.Explore | src/grid/grid_ops.cpp:240-270 | the BFS from start pops each enqueued cell once, start first; every popped cell holds target and was unmarked; all of them and only they get marked; each later cell is a neighbour of an earlier one; no unmarked target neighbour is left |
| GridFill.FloodFill | src/grid/grid_ops.cpp:230-277 | flood_fill (and flood_fill_walkable, which calls it): empty for a start out of range or not holding target; otherwise start first, no repeats, only target cells, closed under 4-adjacency among target cells, each cell next to an earlier one |
| GridFill.ReachWithinClosed | src/grid/grid_ops.cpp:230-273 | a closed set holding start holds every cell reachable from it, so flood_fill returns exactly start's 4-connected target component |
| GridFill.FloodFillLimited | src/grid/grid_ops.cpp:279-324 | the same empty cases and shape as flood_fill, and the cells are exactly the target cells reachable from start within max(max_distance, 0) steps: each returned cell is such a cell, and each such cell is returned |
| GridFill.LimitedComplete | src/grid/grid_ops.cpp:296-321 | the queue discipline the BFS keeps (distances non-decreasing along the queue, at most one apart, every expanded cell below the limit has all its target neighbours queued at most one further) puts every cell reachable within k steps, k up to the limit, in the queue at distance at most k |
| GridFill.LimitedFinished | src/grid/grid_ops.cpp:296-323 | when the queue is exhausted the popped cells start at start, are distinct target cells, and are exactly the cells reachable within the limit |
| GridFill.DistanceField | src/grid/grid_ops.cpp:586-681 | the multi-source BFS: one entry per cell, 0 exactly on target cells, every entry in [0, width + height + 1], no entry exceeds a table neighbour's by more than 1, and each entry is the distance (Manhattan or Chebyshev) to the nearest target cell, width + height + 1 exactly when the grid holds no target; empty when exactly one dimension is negative, and with both negative 0 on target cells and width + height + 1 on every other cell, since no neighbour passes `nx < width` |
| GridFill.ManhattanDistanceField | src/grid/grid_ops.cpp:586-633 | manhattan_distance_field: that field over the N, E, S, W table, each entry the Manhattan distance to the nearest target cell; the negative-dimension cases as above |
| GridFill.ChebyshevDistanceField | src/grid/grid_ops.cpp:635-681 | chebyshev_distance_field: that field over the eight-neighbour table, each entry the Chebyshev distance to the nearest target cell; the negative-dimension cases as above |
| GridFill.StepCloser | src/grid/grid_ops.cpp:616-629 | one move of the neighbour table changes the distance to any cell by at most 1 |
| GridFill.StepToward | src/grid/grid_ops.cpp:616-629 | from any cell other than t some in-grid neighbour is one move closer to t |
| GridFill.CellDistanceBound | src/grid/grid_ops.cpp:594 | two cells of the grid are at most width + height - 2 moves apart, below the field's "unreached" value |
| GridFill.FieldLipschitz | src/grid/grid_ops.cpp:616-629 | a field with every cell relaxed against its neighbours is at most r[t] + distance(i, t) at every cell i |
| GridFill.FieldNearest | src/grid/grid_ops.cpp:586-681 | a relaxed field, 0 on targets and realised by some target wherever it is below width + height + 1, is the nearest-target distance |
| GridFill.ManhattanAdjacentDiffer | src/grid/grid_ops.cpp:586-633 | 4-adjacent cells of a Manhattan field differ by at most 1 |
| GridFill.ChebyshevAdjacentDiffer | src/grid/grid_ops.cpp:635-681 | 8-adjacent cells of a Chebyshev field differ by at most 1 |
| GridLine.LineIndices | src/grid/grid_ops.cpp:328-357 | line_indices: the indices of the Bresenham cells from `from` to `to`, both included |
| GridLine.LineStepProgress | src/grid/grid_ops.cpp:336-354 | each loop iteration keeps the error-term invariant, moves to an 8-adjacent cell and gets strictly closer to the end, so the loop ends |
| GridLine.LineClear | src/grid/grid_ops.cpp:359-397 | line_clear: true exactly when no cell of the line other than its two ends holds the blocking value |
| GridLine.LineClearMeans | src/grid/grid_ops.cpp:359-397 | the answer means that no interior cell of the Bresenham line blocks |
| GridLine.LineFirstBlocking | src/grid/grid_ops.cpp:427-464 | line_first_blocking: the index of the first blocking cell after the start, or -1 when none blocks |
| GridLine.FirstBlockingMeans | src/grid/grid_ops.cpp:427-464 | -1 exactly when no cell blocks, otherwise an in-grid blocking cell with no blocking cell before it |
| GridComponents.LabelConnectedComponents | src/grid/grid_ops.cpp:727-777 | label_connected_components: one label per cell, each the label the row-major scan gives its component's leader; no labels for width 0, height 0 or exactly one negative dimension; with both negative each target cell is its own component, labelled by its rank among the target cells |
| GridComponents.LabelRange | src/grid/grid_ops.cpp:727-777 | off-target cells get 0, target cells get a label in 1 .. the number of components |
| GridComponents.SameLabelIffConnected | src/grid/grid_ops.cpp:727-777 | two target cells share a label exactly when a 4-connected walk of target cells joins them |
| GridComponents.AdjacentSameLabel | src/grid/grid_ops.cpp:727-777 | 4-adjacent target cells share a label |
| GridComponents.LabelAttained | src/grid/grid_ops.cpp:727-777 | every label 1 .. count is given to some cell, so count_connected_components is the largest label |
| GridComponents.CountConnectedComponents | src/grid/grid_ops.cpp:779-820 | count_connected_components: the number of component leaders, one per BFS start; 0 for an empty grid; with both dimensions negative, the number of target cells |
| GridComponents.NoComponentsIffNoTarget | src/grid/grid_ops.cpp:779-820 | there are no components exactly when no cell holds target |
| GridComponents.ComponentSizes | src/grid/grid_ops.cpp:822-853 | component_sizes: entry l - 1 counts the cells labelled l, for l in 1 .. the number of components; empty for an empty grid or exactly one negative dimension; with both negative, a 1 for every target cell |
| GridComponents.ComponentSizesSum | src/grid/grid_ops.cpp:822-853 | the sizes add up to count_value(target) |
| GridRegion.FindValue | src/grid/grid_ops.cpp:857-869 | find_value: increasing, and exactly the indices holding the value |
| GridRegion.FindNotValue | src/grid/grid_ops.cpp:871-883 | find_not_value: increasing, and exactly the indices not holding the value |
| GridRegion.CountValue | src/grid/grid_ops.cpp:885-895 | count_value: the number of occurrences of the value |
| GridRegion.CountIsFoundSize | src/grid/grid_ops.cpp:857-895 | count_value equals the number of indices find_value returns |
| GridRegion.GetRegion | src/grid/grid_ops.cpp:897-921 | get_region: region cell (k % rw, k / rw) read row by row from the grid, 0 where the linear source index falls outside the grid |
| GridRegion.SetRegion | src/grid/grid_ops.cpp:923-949 | set_region: same length as the grid; an empty region changes nothing; otherwise RegionWritten over all region cells: an in-range target index takes the value at its region offset (the last writer wins) and every other cell is unchanged |
| Arrays.FilterInts | src/arrays/array_ops.cpp:170-246 | the six int filters: strictly increasing, and exactly the indices whose value passes the comparison |
| Arrays.SortInts | src/arrays/array_ops.cpp:297-313 | sort_ints: a permutation of the input, ascending or, when asked, descending |
| Arrays.SortedUnique | src/arrays/array_ops.cpp:297-313 | two ascending rearrangements of the same values are equal, so sort_ints has one answer |
| Arrays.ArgsortInts | src/arrays/array_ops.cpp:336-355 | argsort_ints: a permutation of 0 .. n-1 along which the values do not decrease (do not increase when descending) |
| Arrays.ArgsortThenReorder | src/arrays/array_ops.cpp:336-355 | reordering the values by argsort_ints gives sort_ints |
| Arrays.ReorderInts | src/arrays/array_ops.cpp:426-439 | reorder_ints and select_ints: result[i] == values[indices[i]], one entry per index |
| Arrays.ReorderPermutes | src/arrays/array_ops.cpp:426-439 | reordering by a permutation of the indices keeps the multiset of values |
| Arrays.SumInts | src/arrays/array_ops.cpp:484-493 | sum_ints: the exact sum |
| Arrays.SumFitsInt64 | src/arrays/array_ops.cpp:484-493 | for int32 values the int64 accumulator cannot overflow |
| Arrays.MinInt | src/arrays/array_ops.cpp:543-554 | min_int: 0 for no values, otherwise an element no greater than any element |
| Arrays.MaxInt | src/arrays/array_ops.cpp:556-567 | max_int: 0 for no values, otherwise an element no less than any element |
| Arrays.ArgminInts | src/arrays/array_ops.cpp:605-621 | argmin_ints: -1 exactly for no values, otherwise the first index of the least value |
| Arrays.ArgmaxInts | src/arrays/array_ops.cpp:623-639 | argmax_ints: -1 exactly for no values, otherwise the first index of the greatest value |
| Arrays.FindFirstEqInt | src/arrays/array_ops.cpp:732-742 | find_first_eq_int: -1 exactly when the target is absent, otherwise its first index |
| Arrays.CountEqInt | src/arrays/array_ops.cpp:759-770 | count_eq_int: the number of occurrences of the target |
| Arrays.CountIsFilterLength | src/arrays/array_ops.cpp:222-233 | count_eq_int equals the length of filter_eq_int |
| PathCommon.DirTable | src/pathfinding/pathfinding_ops.cpp:142-150 | every offset of the 4- and 8-direction tables moves at most one cell per axis and never stays put |
| PathCommon.MoveCostPositive | src/pathfinding/pathfinding_ops.cpp:166-177 | moving into a passable cell costs more than 0 |
| PathCommon.WalkStaysIn | src/pathfinding/pathfinding_ops.cpp:142-191 | a set closed under moves into passable cells that holds a walk's first cell holds its last, which is behind every "no path" answer |
| PathCommon.MinIndex | src/pathfinding/pathfinding_ops.cpp:152-155 | the heap top: an open entry of least priority |
| PathCommon.ReversePath | src/pathfinding/pathfinding_ops.cpp:94-101 | the swap loop leaves the buffer reversed |
| PathCommon.ReconstructPath | src/pathfinding/pathfinding_ops.cpp:81-104 | reconstruct_path: ends at goal, each cell's parent link is the cell before it, the first cell is start or has no parent, no cell repeats |
| AStar.Heuristic | src/pathfinding/pathfinding_ops.cpp:68-79 | heuristic: octile with 8 directions, Manhattan with 4; never negative, and 0 exactly at the goal |
| AStar.HeuristicConsistent | src/pathfinding/pathfinding_ops.cpp:68-79 | one move changes the heuristic by at most the move's step cost (1 straight, SQRT2 diagonal) |
| AStar.SuccessorMove | src/pathfinding/pathfinding_ops.cpp:141-178 | a successor differs by at most one in each coordinate, in only one on a 4-connected grid, and its step cost is SQRT2 exactly when both differ |
| AStar.HeuristicMove | src/pathfinding/pathfinding_ops.cpp:68-79 | a move into a cell costing at least 1 lowers the heuristic by no more than the move's charge |
| AStar.HeuristicTelescope | src/pathfinding/pathfinding_ops.cpp:68-79 | values that drop by at most each move's charge drop by at most the walk cost over a whole walk |
| AStar.HeuristicAdmissible | src/pathfinding/pathfinding_ops.cpp:68-79 | on cells costing at least 1, the heuristic at a walk's first cell is at most the walk's cost plus the heuristic at its last cell |
| AStar.HeuristicBelowWalk | src/pathfinding/pathfinding_ops.cpp:68-79 | on cells costing at least 1, the heuristic never exceeds the cost of any walk to the goal (admissibility) |
| AStar.Search | src/pathfinding/pathfinding_ops.cpp:130-191 | the search loop: INF exactly when goal is unreachable; otherwise a repetition-free walk from start to goal whose cost is returned; [start] when start == goal |
| AStar.LinksRanked | src/pathfinding/pathfinding_ops.cpp:160-186 | the came_from links never form a cycle, so reconstruction ends |
| AStar.AStarGridWeighted | src/pathfinding/pathfinding_ops.cpp:114-191 | astar_grid_weighted: empty for an end out of bounds or with cost <= 0; otherwise a walk of passable cells from start to goal by moves of the chosen table, empty exactly when none exists, [start] when start == goal |
| AStar.AStarGrid | src/pathfinding/pathfinding_ops.cpp:108-112 | astar_grid: the same answer with weight 1 |
| AStar.AStarUniform | src/pathfinding/pathfinding_ops.cpp:193-207 | astar_uniform: astar_grid's answer over the grid of cost 1 on non-zero cells and 0 elsewhere |
| AStar.IsReachable | src/pathfinding/pathfinding_ops.cpp:802-806 | is_reachable: true exactly when an 8-connected walk joins start and goal |
| AStar.PathCost | src/pathfinding/pathfinding_ops.cpp:808-878 | path_cost: INF exactly when astar_grid finds no walk; otherwise the cost of a walk from start to goal, each move costing its step cost times the entered cell's cost; 0 when start == goal |
| AStar.AStarBatch | src/pathfinding/pathfinding_ops.cpp:727-743 | astar_batch: one astar_grid answer per pair of truncated coordinates, over the shorter list |
| Dijkstra.DijkstraMap | src/pathfinding/pathfinding_ops.cpp:283-344 | dijkstra_map: width * height entries, each the least cost of a walk from a passable goal (counting each entered cell's cost), INF exactly where no goal reaches; all INF for an empty grid |
| Dijkstra.Exhausted | src/pathfinding/pathfinding_ops.cpp:303-341 | when the heap runs dry the distances are the least costs |
| Dijkstra.LeastCostsUnique | src/pathfinding/pathfinding_ops.cpp:283-344 | the least costs depend only on the grid, the sources and the budget |
| Dijkstra.LeastCostsRelaxed | src/pathfinding/pathfinding_ops.cpp:283-344 | at the end, dist[n] <= dist[c] + cost[n] for every finite c and passable 4-neighbour n |
| Dijkstra.DijkstraMapSingle | src/pathfinding/pathfinding_ops.cpp:346-351 | dijkstra_map_single: the least costs from the one goal cell when it is inside and passable |
| Dijkstra.ReachableCells | src/pathfinding/pathfinding_ops.cpp:747-800 | reachable_cells: empty for a start outside or blocked; otherwise start first, no repeats, and exactly the cells some walk from start reaches within max_cost |
| Dijkstra.DijkstraGrid | src/pathfinding/pathfinding_ops.cpp:211-281 | dijkstra_grid: empty for a start outside or blocked, or exactly when no goal is reachable; otherwise a repetition-free 4-connected walk from start to a goal costing no more than any walk from start to any goal |
| Dijkstra.GoalFound | src/pathfinding/pathfinding_ops.cpp:240-250 | the goal popped first is reached by the parent links at least cost over all goals |
| FlowField.Steer | src/pathfinding/pathfinding_ops.cpp:380-413 | the direction loop for a finite cell: zero exactly when no neighbour is strictly closer, otherwise a steepest direction, the first in N, NE, E, SE, S, SW, W, NW order |
| FlowField.FlowFieldFromDijkstra | src/pathfinding/pathfinding_ops.cpp:367-416 | flow_field_from_dijkstra: per cell, zero on INF cells and on cells without a strictly closer neighbour, otherwise the normalised first steepest direction |
| FlowField.FlowAtUnique | src/pathfinding/pathfinding_ops.cpp:367-416 | each cell has one flow vector, zero exactly on INF and flat cells |
| FlowField.LeastFlow | src/pathfinding/pathfinding_ops.cpp:367-416 | over a least-cost map the flow is zero exactly on the goals and on the cells no goal reaches |
| FlowField.FlowFieldSingle | src/pathfinding/pathfinding_ops.cpp:355-359 | flow_field: the flow of dijkstra_map_single, zero on the goal and on the cells that cannot reach it |
| FlowField.FlowFieldMulti | src/pathfinding/pathfinding_ops.cpp:361-365 | flow_field_multi: the flow of dijkstra_map, zero on the passable goals and on the cells that reach none |
| Jps.Jump | src/pathfinding/pathfinding_ops.cpp:427-465 | jump terminates (diagonal before straight, then room left on the ray) and answers -1 or a walkable in-grid cell |
| Jps.JumpOnRay | src/pathfinding/pathfinding_ops.cpp:427-465 | a cell it answers is (x + k*dx, y + k*dy) for some k >= 1, with every ray cell up to it walkable |
| Jps.JumpFindsGoal | src/pathfinding/pathfinding_ops.cpp:427-465 | jump never passes over the goal when it lies on a clear ray |
| Jps.Directions | src/pathfinding/pathfinding_ops.cpp:510-560 | the pruned directions are unit moves: all eight without a parent, otherwise the travel direction first |
| Jps.JumpLength | src/pathfinding/pathfinding_ops.cpp:570 | the step length: exact for a straight jump, k * SQRT2 for a diagonal jump of k steps |
| Jps.JpsGrid | src/pathfinding/pathfinding_ops.cpp:468-583 | jps_grid: empty when an end is not walkable; otherwise a path of distinct walkable jump points from start to goal, each a leap along a clear straight or diagonal ray from the one before; [start] when start == goal |
| PathPost.SimplifyPath | src/pathfinding/pathfinding_ops.cpp:693-723 | simplify_path computes the reference simplification of the path's cells |
| PathPost.SimplifyKeeps | src/pathfinding/pathfinding_ops.cpp:693-723 | below 3 cells the path comes back unchanged; otherwise a subsequence with the first and last cells, keeping an interior cell exactly when its incoming and outgoing steps differ |
| PathPost.SimplifyIdempotent | src/pathfinding/pathfinding_ops.cpp:693-723 | on a path of neighbour steps, simplifying twice equals simplifying once |
| PathPost.FunnelSmooth | src/pathfinding/pathfinding_ops.cpp:616-673 | funnel_smooth computes the furthest-visible-hop reference |
| PathPost.FunnelKeeps | src/pathfinding/pathfinding_ops.cpp:616-673 | below 3 points unchanged; otherwise a subsequence from the first point to the last, each kept point the furthest one in Bresenham sight of the one before (or the next point) |
| PathPost.SmoothPath | src/pathfinding/pathfinding_ops.cpp:587-614 | smooth_path computes `iterations` averaging passes |
| PathPost.SmoothedShape | src/pathfinding/pathfinding_ops.cpp:587-614 | smoothing keeps the number of points and both end points |
| PathPost.SmoothedInBox | src/pathfinding/pathfinding_ops.cpp:587-614 | smoothing never leaves a box holding every input point |
| PathPost.SmoothFixed | src/pathfinding/pathfinding_ops.cpp:587-614 | a pass leaves a path unchanged exactly when each interior point is its neighbours' midpoint |
| PathPost.PathToVectors | src/pathfinding/pathfinding_ops.cpp:675-691 | path_to_vectors: one cell centre per index, the cell taken by truncating % and / |
| PathPost.VectorRoundTrip | src/pathfinding/pathfinding_ops.cpp:675-691 | flooring a centre by the cell size gives the index back |
| SpatialHash2D.KeyInjective | src/spatial/spatial_hash_2d.cpp:66-71 | the key (cx << 32) \| (uint32) cy of an int32 cell is an int64, and different cells get different keys |
| SpatialHash2D.SpatialHash2D.constructor | src/spatial/spatial_hash_2d.cpp:45-46 | cell size 64 and nothing stored |
| SpatialHash2D.SpatialHash2D.SetCellSize | src/spatial/spatial_hash_2d.cpp:52-56 | a positive size replaces the cell size, any other is ignored; the buckets are not re-filed |
| SpatialHash2D.SpatialHash2D.Build | src/spatial/spatial_hash_2d.cpp:78-92 | build: the positions stored, count = their number, and every index filed once, in the bucket of its cell |
| SpatialHash2D.SpatialHash2D.Clear | src/spatial/spatial_hash_2d.cpp:94-98 | clear: no buckets, no positions, count 0 |
| SpatialHash2D.SpatialHash2D.Insert | src/spatial/spatial_hash_2d.cpp:100-109 | insert: returns the old count, increments it, appends the position and pushes the index onto its cell's bucket |
| SpatialHash2D.SpatialHash2D.Update | src/spatial/spatial_hash_2d.cpp:111-135 | update: nothing for an index out of range; otherwise the position replaced, and on a key change the index moves to the new bucket (an emptied old bucket erased); no other index moves |
| SpatialHash2D.SpatialHash2D.RadiusHitsExact | src/spatial/spatial_hash_2d.cpp:137-170 | the cell sweep of the radius queries finds exactly the items within the radius |
| SpatialHash2D.SpatialHash2D.QueryRadius | src/spatial/spatial_hash_2d.cpp:137-170 | query_radius: empty for radius <= 0 or an empty hash; otherwise exactly the items within the radius |
| SpatialHash2D.SpatialHash2D.QueryRect | src/spatial/spatial_hash_2d.cpp:172-201 | query_rect: exactly the items inside the rectangle |
| SpatialHash2D.SpatialHash2D.QueryNearest | src/spatial/spatial_hash_2d.cpp:203-248 | query_nearest: min(k, count) distinct items in (distance, index) order, none of the others nearer |
| SpatialHash2D.SpatialHash2D.QueryNearestOne | src/spatial/spatial_hash_2d.cpp:250-269 | query_nearest_one: -1 when empty, otherwise the first index at least distance |
| SpatialHash2D.SpatialHash2D.QueryRadiusBatch | src/spatial/spatial_hash_2d.cpp:271-288 | empty when the arrays differ in length, otherwise query_radius's answer per origin |
| SpatialHash2D.SpatialHash2D.QueryRadiusBatchUniform | src/spatial/spatial_hash_2d.cpp:290-302 | query_radius's answer per origin, with one radius |
| SpatialHash2D.SpatialHash2D.HasAnyInRadius | src/spatial/spatial_hash_2d.cpp:304-334 | has_any_in_radius: true exactly when query_radius finds an item, that is when some item lies within the radius |
| SpatialHash2D.SpatialHash2D.CountInRadius | src/spatial/spatial_hash_2d.cpp:336-367 | count_in_radius: the length of query_radius's answer, positive exactly when has_any_in_radius holds |
| SpatialHash3D.Key | src/spatial/spatial_hash_3d.cpp:72-86 | coords_to_key: FNV-1a over the 32-bit patterns of x, y and z, wrapping at 64 bits |
| SpatialHash3D.KeyWraps | src/spatial/spatial_hash_3d.cpp:72-86 | a coordinate enters the key only through its 32-bit pattern |
| SpatialHash3D.SpatialHash3D.constructor | src/spatial/spatial_hash_3d.hpp:38 | the defaults: cell size 64, no buckets, no positions, count 0 |
| SpatialHash3D.SpatialHash3D.SetCellSize | src/spatial/spatial_hash_3d.cpp:52-56 | a positive size replaces the cell size, any other is ignored |
| SpatialHash3D.SpatialHash3D.Build | src/spatial/spatial_hash_3d.cpp:94-105 | build: count = the number of positions and every index filed once under its cell's key |
| SpatialHash3D.SpatialHash3D.Clear | src/spatial/spatial_hash_3d.cpp:107-111 | clear: count 0, no buckets, no positions |
| SpatialHash3D.SpatialHash3D.Insert | src/spatial/spatial_hash_3d.cpp:113-122 | insert: returns the old count, increments it and files the index under its cell's key |
| SpatialHash3D.SpatialHash3D.Update | src/spatial/spatial_hash_3d.cpp:124-148 | update: nothing out of range; otherwise the index moves buckets only when the keys differ, an emptied bucket erased, no other index moving |
| SpatialHash3D.SpatialHash3D.RadiusHitsExact | src/spatial/spatial_hash_3d.cpp:150-184 | the block sweep finds exactly the items within the radius, key collisions notwithstanding |
| SpatialHash3D.SpatialHash3D.QueryRadius | src/spatial/spatial_hash_3d.cpp:150-184 | query_radius: empty for radius <= 0 or an empty hash; otherwise exactly the items within the radius |
| SpatialHash3D.SpatialHash3D.QueryBox | src/spatial/spatial_hash_3d.cpp:186-217 | query_box: exactly the items inside the closed box |
| SpatialHash3D.SpatialHash3D.QueryNearest | src/spatial/spatial_hash_3d.cpp:219-261 | query_nearest: min(k, count) distinct items in (distance, index) order, none of the others nearer |
| SpatialHash3D.SpatialHash3D.QueryNearestOne | src/spatial/spatial_hash_3d.cpp:263-282 | query_nearest_one: -1 when empty, otherwise the first index at least distance |
| SpatialHash3D.SpatialHash3D.QueryRadiusBatch | src/spatial/spatial_hash_3d.cpp:284-301 | empty on a size mismatch, otherwise query_radius's answer per origin |
| SpatialHash3D.SpatialHash3D.QueryRadiusBatchUniform | src/spatial/spatial_hash_3d.cpp:303-315 | query_radius's answer per origin, with one radius |
| SpatialHash3D.SpatialHash3D.HasAnyInRadius | src/spatial/spatial_hash_3d.cpp:317-348 | has_any_in_radius: true exactly when query_radius finds an item |
| SpatialHash3D.SpatialHash3D.CountInRadius | src/spatial/spatial_hash_3d.cpp:350-382 | count_in_radius: the length of query_radius's answer, so has_any_in_radius holds exactly when it is positive |
| KDTree3D.BuildTreePoints | src/spatial/kd_tree_3d.cpp:62-94 | the subtree build_recursive makes of a stretch of indices holds exactly those indices |
| KDTree3D.BuildTreeSearch | src/spatial/kd_tree_3d.cpp:62-94 | it is a search tree (left subtree at or below the node along its axis, right subtree at or above) whose nodes at depth d split on axis d mod 3 |
| KDTree3D.SortAlongSorted | src/spatial/kd_tree_3d.cpp:70-72 | the sort along an axis orders the stretch and keeps its entries |
| KDTree3D.KDTree3D.constructor | src/spatial/kd_tree_3d.hpp:46-48 | the defaults: no points, no nodes, root -1 |
| KDTree3D.KDTree3D.Build | src/spatial/kd_tree_3d.cpp:39-60 | build: the points kept, and the node vector lays out, from root 0 (-1 for no points), a search tree holding each index once, one node per point |
| KDTree3D.KDTree3D.Clear | src/spatial/kd_tree_3d.cpp:96-100 | clear: no points, no nodes, root -1 |
| KDTree3D.KDTree3D.Size | src/spatial/kd_tree_3d.cpp:102-104 | size: the number of nodes, which is the number of points |
| KDTree3D.KDTree3D.NearestOneRecursive | src/spatial/kd_tree_3d.cpp:119-148 | nearest_one_recursive: the best so far only improves, and afterwards it is at least as near as every point of the subtree |
| KDTree3D.KDTree3D.QueryNearestOne | src/spatial/kd_tree_3d.cpp:106-148 | query_nearest_one: -1 exactly when empty, otherwise a point at least squared distance |
| KDTree3D.KDTree3D.NearestKRecursive | src/spatial/kd_tree_3d.cpp:198-234 | nearest_k_recursive: the heap keeps the k nearest of the points seen, the subtree's points now counted as seen, pruning notwithstanding |
| KDTree3D.KDTree3D.QueryNearest | src/spatial/kd_tree_3d.cpp:150-234 | query_nearest: min(max(k, 0), n) distinct points nearest first, none of the others nearer |
| KDTree3D.NearestFromHeap | src/spatial/kd_tree_3d.cpp:180-193 | draining the k-best heap and reading it back to front gives the k nearest, nearest first |
| KDTree3D.KDTree3D.RadiusRecursive | src/spatial/kd_tree_3d.cpp:249-281 | radius_recursive: appends each point of the subtree within the radius exactly once, pruning notwithstanding |
| KDTree3D.KDTree3D.RadiusFarSide | src/spatial/kd_tree_3d.cpp:270-279 | the far-side visit of radius_recursive: searching the other child only when diff * diff <= radius_sq still appends exactly the close points of that child's subtree |
| KDTree3D.KDTree3D.QueryRadius | src/spatial/kd_tree_3d.cpp:236-281 | query_radius: empty for radius <= 0; otherwise each point within the radius exactly once and no other |
| KDTree3D.KDTree3D.QueryNearestOneBatch | src/spatial/kd_tree_3d.cpp:283-294 | one query_nearest_one answer per query point |
| KDTree3D.KDTree3D.QueryNearestBatch | src/spatial/kd_tree_3d.cpp:296-305 | one query_nearest answer per query point |
| QuadTree.QuadrantBits | src/spatial/quad_tree.cpp:183-195 | get_quadrant is east + 2 * south, in 0 .. 3 |
| QuadTree.QuartersPartition | src/spatial/quad_tree.cpp:158-195 | a point of a node lies in exactly one of subdivide's four quarters, the one get_quadrant names |
| QuadTree.QuadTree.constructor | src/spatial/quad_tree.cpp:42-44 | the defaults: bounds (0, 0)-(1000, 1000), depth 8, 8 items per node, nothing stored |
| QuadTree.QuadTree.SetBounds | src/spatial/quad_tree.cpp:50-54 | set_bounds: the bounds stored and the tree cleared (no root, no points, size 0) |
| QuadTree.QuadTree.SetMaxDepth | src/spatial/quad_tree.cpp:60-64 | a depth in 1 .. 16 replaces the limit, any other leaves it unchanged |
| QuadTree.QuadTree.SetMaxItemsPerNode | src/spatial/quad_tree.cpp:70-74 | a positive count replaces the limit, any other leaves it unchanged |
| QuadTree.QuadTree.Clear | src/spatial/quad_tree.cpp:197-201 | clear: no root, no points, size 0 |
| QuadTree.QuadTree.Size | src/spatial/quad_tree.cpp:203-205 | size: the number of points inserted, those outside the bounds included |
| QuadTree.QuadTree.Build | src/spatial/quad_tree.cpp:80-117 | build: the points stored, the bounds fitted when the old ones are empty on an axis, every point inserted at a fresh root in index order, and the capacity bound kept |
| QuadTree.PaddedHolds | src/spatial/quad_tree.cpp:86-104 | the fitted bounds hold every point when the points spread along both axes, and none of them when they all share an x or a y |
| QuadTree.QuadTree.Insert | src/spatial/quad_tree.cpp:119-131 | insert: returns the old count, appends the point, makes a root over the bounds if none, inserts at the root (dropping an outside point) and grows the size either way |
| QuadTree.QuadTree.QueryRect | src/spatial/quad_tree.cpp:207-239 | query_rect: each stored point inside both the bounds and the rectangle, exactly once, and no other |
| QuadTree.RadiusQuery | src/spatial/quad_tree.cpp:253-279 | query_radius as written returns only stored points within the radius, each once, and every one strictly inside the circle |
| QuadTree.QuadTree.QueryRadius | src/spatial/quad_tree.cpp:241-279 | query_radius: empty without a root or for radius <= 0; otherwise what RadiusQuery states |
| QuadTree.RadiusMissesEdge | src/spatial/quad_tree.cpp:253-279 | a point at exactly the radius on a node's west edge is missed (see Findings) |
| QuadTree.RadiusHitsExact | src/spatial/quad_tree.cpp:253-279 | with an inclusive node test the query finds every stored point of the closed circle |
| RegionTree.InsertKeeps | src/spatial/quad_tree.cpp:133-156 | insert_into_node (and the octree's twin) stores an index once, below the node, exactly when its point is inside the node's bounds, and keeps every other node in place |
| RegionTree.SubdivideKeeps | src/spatial/quad_tree.cpp:158-181 | subdivide keeps a leaf's indices, now spread over children that hold only points of their own bounds, and empties the leaf |
| RegionTree.InsertFits | src/spatial/quad_tree.cpp:141-148 | insertion keeps every leaf above max_depth within max_items_per_node |
| RegionTree.InsertStep | src/spatial/quad_tree.cpp:108-131 | inserting point i at the root of a tree holding the earlier points leaves a tree holding the points up to i, each once |
| RegionTree.InsertLoop | src/spatial/quad_tree.cpp:108-117 | build's loop leaves each point inside the bounds stored once, and the capacity bound kept |
| RegionTree.CollectExact | src/spatial/quad_tree.cpp:218-239 | a query over such a tree returns stored points its filter accepts, each once, and every point it is asked for whose bounds the pruning test accepts |
| Octree.OctantBits | src/spatial/octree.cpp:192-201 | get_octant is (x >= cx) + 2(y >= cy) + 4(z >= cz), in 0 .. 7, and its bits read back the comparisons |
| Octree.OctantHolds | src/spatial/octree.cpp:161-201 | child i of subdivide starts at the centre on each axis whose bit is set, half the size, and holds the points get_octant routes to it |
| Octree.Octree.constructor | src/spatial/octree.cpp:43-45 | the defaults: bounds at the origin with size 1000 on each axis, depth 8, 8 items per node, nothing stored |
| Octree.Octree.SetBounds | src/spatial/octree.cpp:51-55 | set_bounds: the bounds stored and the tree cleared |
| Octree.Octree.SetMaxDepth | src/spatial/octree.cpp:61-65 | a depth in 1 .. 16 replaces the limit, any other is ignored |
| Octree.Octree.SetMaxItemsPerNode | src/spatial/octree.cpp:71-75 | a positive count replaces the limit, any other is ignored |
| Octree.Octree.Clear | src/spatial/octree.cpp:203-207 | clear: no root, no points, size 0 |
| Octree.Octree.Size | src/spatial/octree.cpp:209-211 | size: the number of points inserted |
| Octree.Octree.Build | src/spatial/octree.cpp:81-120 | build: the points stored, the bounds fitted when empty on an axis, every point inserted at a fresh root in index order |
| Octree.PaddedHolds | src/spatial/octree.cpp:87-107 | the fitted bounds hold every point, even when the points share a coordinate |
| Octree.Octree.Insert | src/spatial/octree.cpp:122-134 | insert: returns the old count and grows the size; a point outside the node bounds is skipped |
| Octree.BoxQuery | src/spatial/octree.cpp:213-245 | query_box as written returns only stored points inside the box, each once, and every one off the box's faces |
| Octree.Octree.QueryBox | src/spatial/octree.cpp:213-222 | query_box: what BoxQuery states for the tree's root |
| Octree.BoxMissesFace | src/spatial/octree.cpp:224-245 | a point on a face shared by node and box is missed (see Findings) |
| Octree.BoxHitsExact | src/spatial/octree.cpp:224-245 | with an inclusive test the box query finds every stored point of the closed box |
| Octree.RadiusQuery | src/spatial/octree.cpp:259-288 | query_radius as written returns only stored points within the radius, each once, and every one strictly inside the sphere |
| Octree.Octree.QueryRadius | src/spatial/octree.cpp:247-257 | query_radius: empty without a root or for radius <= 0, otherwise what RadiusQuery states |
| Octree.RadiusMissesFace | src/spatial/octree.cpp:259-288 | a point at exactly the radius on a node's face is missed (see Findings) |
| Octree.RadiusHitsExact | src/spatial/octree.cpp:259-288 | with an inclusive test the radius query finds every stored point of the closed ball |
| Random.ZeroStateStuck | src/random/random_ops.cpp:86-101 | the all-zero state is a fixed point of next that outputs only zeros |
| Random.StreamAt | src/random/random_ops.cpp:86-101 | output k of the stream is the output of the state after k steps |
| Random.SplitMix64 | src/random/random_ops.cpp:26-31 | splitmix64: the state advanced by the golden-ratio increment, and the output its mix |
| Random.RandomOps.constructor | src/random/random_ops.cpp:76-78 | seed_from_time at construction: the state is the seed state of the clock reading, given as a parameter |
| Random.RandomOps.Seed | src/random/random_ops.cpp:115-121 | seed: the four state words are four successive SplitMix64 outputs from the seed |
| Random.RandomOps.Next | src/random/random_ops.cpp:86-101 | next: returns rotl(s1 * 5, 7) * 9 of the current state and applies the xoshiro256** update |
| Random.Unit24 | src/random/random_ops.cpp:108-111 | next_float's conversion lies in [0, 1) |
| Random.Unit53 | src/random/random_ops.cpp:103-106 | next_double's conversion lies in [0, 1) |
| Random.RandomOps.NextFloat | src/random/random_ops.cpp:108-111 | a draw in [0, 1) from the next output's top 24 bits |
| Random.RandomOps.NextDouble | src/random/random_ops.cpp:103-106 | a draw in [0, 1) from the next output's top 53 bits |
| Random.RandomOps.RandfArray | src/random/random_ops.cpp:132-144 | randf_array: empty for count <= 0, otherwise the next `count` float draws, the state advanced by count |
| Random.RandomOps.RandfRangeArray | src/random/random_ops.cpp:146-159 | randf_range_array: min + u(max - min) for the next `count` float draws, each in [min, max) when min < max |
| Random.RandomOps.RandiArray | src/random/random_ops.cpp:163-175 | randi_array: the next `count` outputs cut to int32 |
| Random.Int32Of | src/random/random_ops.cpp:163-175 | the int32 cast of an output word is its low 32 bits read as two's complement |
| Random.RandomOps.DrawBelow | src/random/random_ops.cpp:184-193 | one rejection-sampled value: the draws and the state after them are DrawAt's |
| Random.RandomOps.RandiRangeArray | src/random/random_ops.cpp:177-197 | randi_range_array, range corrected: empty for count <= 0 or min > max; otherwise the Draws values from the old state, with the state they leave |
| Random.DrawsInRange | src/random/random_ops.cpp:177-197 | every value randi_range_array draws lies in [min, max] |
| Random.FullSpanRangeVanishes | src/random/random_ops.cpp:184 | the range as written is 0 for the full int32 span (see Findings) |
| Random.NarrowSpanRangeExact | src/random/random_ops.cpp:184 | for spans below 2^31 the range as written is max - min + 1 |
| Random.WideSpanRangeWraps | src/random/random_ops.cpp:184 | a span of 2^31 already wraps the range as written |
| Random.WideSpanDrawEscapes | src/random/random_ops.cpp:184-193 | with the span 2^31 of [-1, 2^31 - 1], a draw the rejection test accepts is stored as -3, outside [min, max] (see Findings) |
| Random.RandomOps.Shuffle | src/random/random_ops.cpp:348-356 | the Fisher–Yates loop in place: the array becomes FisherYates of its old contents and state, the state advanced by one draw per position |
| Random.FisherYatesPermutes | src/random/random_ops.cpp:348-356 | whatever the draws, the shuffle is a permutation of its input |
| Random.RandomOps.ShuffleIndices | src/random/random_ops.cpp:340-361 | shuffle_indices: empty for count <= 0; otherwise FisherYates of 0 .. count-1 from the old state, the state advanced count - 1 draws |
| Random.ShuffledIndicesPermute | src/random/random_ops.cpp:340-361 | shuffle_indices lists every index below count exactly once |
| Random.RandomOps.ShuffleCopy | src/random/random_ops.cpp:363-413 | shuffle_ints and shuffle_floats: FisherYates of the values from the old state, the state advanced n - 1 draws, the same multiset |
| Random.RandomOps.WeightedChoiceOne | src/random/random_ops.cpp:417-445 | weighted_choice_one: -1 for no weights; 0 without a draw when the positive total is 0; otherwise the scan's pick for one draw, an index of positive weight |
| Random.ScanLands | src/random/random_ops.cpp:431-443 | a target below the positive total selects a position of positive weight whose cumulative interval holds it |
| Random.RandomOps.WeightedChoice | src/random/random_ops.cpp:447-493 | weighted_choice: empty for count <= 0 or no weights; all zeros without drawing when no weight is positive; otherwise `count` picks, each the first index whose cumulative positive weight exceeds a scaled draw |
| Random.ScanIsFirstAbove | src/random/random_ops.cpp:417-493 | the linear scan of weighted_choice_one and the binary search of weighted_choice pick the same index |
| Random.SearchCumulative | src/random/random_ops.cpp:478-489 | the binary search stops at the first cumulative total above the target, else the last index |
| Noise.PermTableBytes | src/noise/noise_ops.cpp:134-148 | the seeded table lists each of 0 .. 255 exactly once |
| Noise.ShufflePermutes | src/noise/noise_ops.cpp:140-148 | the LCG-driven Fisher–Yates pass only exchanges entries |
| Noise.NoiseOps.ShuffleTable | src/noise/noise_ops.cpp:140-148 | the shuffle loop leaves the seed's table in perm[0 .. 255] |
| Noise.NoiseOps.DuplicateTables | src/noise/noise_ops.cpp:150-154 | the duplication loop makes perm's upper half a copy and perm12 the residues modulo 12 |
| Noise.NoiseOps.RebuildPermutation | src/noise/noise_ops.cpp:134-155 | rebuild_permutation: perm[0 .. 255] is the seed's table, perm[i + 256] == perm[i], and perm12 == perm % 12 in both halves |
| Noise.NoiseOps.constructor | src/noise/noise_ops.cpp:122-129 | defaults octaves 4, persistence 0.5, lacunarity 2, frequency 1, seed 0, and the table built |
| Noise.NoiseOps.SetSeed | src/noise/noise_ops.cpp:159-166 | set_seed: get_seed answers the seed and the tables are rebuilt from it |
| Noise.NoiseOps.SetOctaves | src/noise/noise_ops.cpp:168-170 | the count clamped to [1, 16], nothing else changed |
| Noise.NoiseOps.SetPersistence | src/noise/noise_ops.cpp:176-178 | clamped to [0, 1] |
| Noise.NoiseOps.SetLacunarity | src/noise/noise_ops.cpp:184-186 | at least 1 |
| Noise.NoiseOps.SetFrequency | src/noise/noise_ops.cpp:192-194 | at least 0.001 |
| Noise.FastFloor | src/noise/noise_ops.cpp:48-51 | fast_floor: the greatest integer <= x |
| Noise.Grad2Row | src/noise/noise_ops.cpp:202-205 | hash & 7 is a row 0 .. 7, congruent to the hash modulo 8 |
| Noise.Grad3Row | src/noise/noise_ops.cpp:207-210 | hash % 12 is a row 0 .. 11 for a non-negative hash |
| Noise.Corner2 | src/noise/noise_ops.cpp:214-232 | a lattice corner's double lookup stays inside the 512 entries and gives a byte |
| Stats.RunningExtreme | src/stats/stat_ops.cpp:519-575 | running_max and running_min: empty for no values or window < 1; otherwise r[i] is the best of v[max(0, i - w + 1) .. i] |
| Stats.RunningSum | src/stats/stat_ops.cpp:577-598 | running_sum: the same empty cases, and r[i] is the sum of that window |
| Stats.Cumsum | src/stats/stat_ops.cpp:656-672 | cumsum: r[i] == v[0] + ... + v[i] |
| Stats.WindowIsCumsumDifference | src/stats/stat_ops.cpp:577-672 | a window sum is the difference of two cumulative sums |
| Stats.ExponentialMovingAverage | src/stats/stat_ops.cpp:633-654 | exponential_moving_average: alpha clamped to [0, 1], r[0] == v[0], and each entry the blend of the value and the previous average |
| Stats.EmaBounded | src/stats/stat_ops.cpp:633-654 | the average never leaves the range of the values |
| Stats.HistogramRange | src/stats/stat_ops.cpp:316-353 | histogram_range: empty below one bin; zeros for no values; all in bin 0 when max <= min; otherwise bin b counts the values whose clamped bin is b |
| Stats.HistogramCountsAll | src/stats/stat_ops.cpp:316-353 | the bins add up to the number of values |
| Stats.BinEdges | src/stats/stat_ops.cpp:355-370 | bin_edges: empty below one bin; otherwise bin_count + 1 equally spaced edges |
| Stats.EdgesSpan | src/stats/stat_ops.cpp:355-370 | the edges start at min, end at max, and rise strictly when max > min |
| Stats.Unique | src/stats/stat_ops.cpp:814-829 | unique computes the first occurrences in input order |
| Stats.UniqueShape | src/stats/stat_ops.cpp:814-829 | no duplicates and the same value set as the input |
| Stats.UniqueOrdered | src/stats/stat_ops.cpp:814-829 | the values appear in the order of their first positions |
| Stats.CountUnique | src/stats/stat_ops.cpp:831-843 | count_unique: the size of the value set |
| Stats.CountIsUniqueLength | src/stats/stat_ops.cpp:814-843 | count_unique equals the length of unique |
| Stats.Percentile | src/stats/stat_ops.cpp:154-176 | percentile: 0 for no values; otherwise the interpolation at rank (p / 100)(n - 1), p clamped to [0, 100], over the ascending rearrangement of the values: sorted[lower] when the rank is whole, else sorted[lower] * (1 - frac) + sorted[upper] * frac; hence between the minimum and the maximum, the minimum for p <= 0 and the maximum for p >= 100 |
| Stats.SortedRearrangementUnique | src/stats/stat_ops.cpp:162-163 | the ascending rearrangement std::sort produces is the only one, so the interpolated value depends on the values alone |
| Geometry.PolygonSignedArea | src/geometry/geometry_ops.cpp:489-502 | polygon_signed_area: the shoelace sum, 0 below three vertices |
| Geometry.ReverseNegatesArea | src/geometry/geometry_ops.cpp:489-502 | reversing a polygon negates its signed area |
| Geometry.PolygonReverse | src/geometry/geometry_ops.cpp:664-674 | polygon_reverse: result[i] == polygon[n - 1 - i] |
| Common.ReverseReverse | src/geometry/geometry_ops.cpp:664-674 | reversing twice gives the polygon back |
| Geometry.PolygonIsClockwise | src/geometry/geometry_ops.cpp:608-610 | polygon_is_clockwise: a negative signed area |
| Geometry.PolygonMakeCcw | src/geometry/geometry_ops.cpp:676-681 | polygon_make_ccw: reversed exactly when clockwise, so the signed area is >= 0 |
| Geometry.PolygonMakeCw | src/geometry/geometry_ops.cpp:683-688 | polygon_make_cw: reversed exactly when not clockwise, so the signed area is <= 0 |
| Geometry.PolygonIsConvex | src/geometry/geometry_ops.cpp:581-606 | polygon_is_convex: true below three vertices, otherwise whether every nonzero turn has the first nonzero turn's sign |
| Geometry.PointInPolygon | src/geometry/geometry_ops.cpp:645-660 | point_in_polygon: false below three vertices, otherwise the parity of the rightward ray's edge crossings |
| GeometryHull.ConvexHullIndices | src/geometry/geometry_ops.cpp:133-182 | convex_hull_indices: 0 .. n-1 below three points; otherwise in-range indices from the first point in (x, y) order through the last, turning strictly left at every corner except where the two passes meet |
| GeometryHull.SortedIndices | src/geometry/geometry_ops.cpp:139-154 | the index sort: a permutation of 0 .. n-1 in (x, y) order |
| GeometryHull.LowerHull | src/geometry/geometry_ops.cpp:156-163 | the lower pass: from the first point to the last, every corner turning left |
| GeometryHull.UpperHull | src/geometry/geometry_ops.cpp:165-173 | the upper pass back to the first point, popping only what it pushed |
| GeometrySimplify.RdpRecursive | src/geometry/geometry_ops.cpp:692-732 | rdp_recursive: afterwards every dropped point of [start, end] is within tolerance of the segment between its kept neighbours |
| GeometrySimplify.SimplifyRdpIndices | src/geometry/geometry_ops.cpp:758-783 | simplify_rdp_indices: 0 .. n-1 up to two points; otherwise strictly increasing from 0 to n - 1, each skipped point within epsilon of its kept neighbours' segment |
| GeometrySimplify.SimplifyRdp | src/geometry/geometry_ops.cpp:734-756 | simplify_rdp: the points at the kept indices; the polyline itself up to two points |
| GeometrySimplify.SimplifyVisvalingam | src/geometry/geometry_ops.cpp:785-855 | simplify_visvalingam: the input when n <= target_count; otherwise a subsequence in original order keeping the first and last points |
| GeometryTriangulate.OrientSumArea | src/geometry/geometry_ops.cpp:193-205 | triangulate's winding sum is minus twice the signed area |
| GeometryTriangulate.StartIndices | src/geometry/geometry_ops.cpp:193-210 | the starting index list is 0 .. n-1, reversed for a clockwise polygon |
| GeometryTriangulate.Triangulate | src/geometry/geometry_ops.cpp:186-268 | triangulate: empty below three vertices; otherwise whole triangles, at most n - 2, of in-range distinct vertices turning left |
| Collision.PointsInRect | src/collision/collision_ops.cpp:58-76 | points_in_rect: strictly increasing, exactly the indices of points in the closed rectangle |
| Collision.PointsInCircle | src/collision/collision_ops.cpp:78-93 | points_in_circle: strictly increasing, exactly the indices within the radius |
| Collision.PointsInPolygon | src/collision/collision_ops.cpp:95-129 | points_in_polygon: empty below three vertices; otherwise strictly increasing, exactly the indices inside by the even-odd rule |
| Collision.CirclesVsCircles | src/collision/collision_ops.cpp:170-197 | circles_vs_circles: a flat list of exactly the (i, j) pairs with squared distance <= (r_i + r_j)^2, over min(|centers|, |radii|) a side, in lexicographic order |
| Collision.CirclesVsCirclesUniform | src/collision/collision_ops.cpp:199-225 | the same with one radius per side |
| Collision.AabbVsAabb2d | src/collision/collision_ops.cpp:227-251 | aabb_vs_aabb_2d: exactly the overlapping pairs over min(|mins|, |maxs|) boxes a side, in lexicographic order |
| Collision.AabbVsAabb3d | src/collision/collision_ops.cpp:253-278 | aabb_vs_aabb_3d: the same for boxes in space |
| Collision.SelfPairsCover | src/collision/collision_ops.cpp:341-389 | a symmetric test listed over i < j lists each touching unordered pair once |
| Collision.CirclesSelfCollision | src/collision/collision_ops.cpp:341-364 | circles_self_collision: each meeting pair of distinct circles once, as (i, j) with i < j |
| Collision.CirclesSelfCollisionUniform | src/collision/collision_ops.cpp:366-389 | the same with one radius |
| Collision.SegmentsIntersect | src/collision/collision_ops.cpp:732-756 | segments_intersect: exactly the crossing pairs over min(|starts|, |ends|) segments a side, in lexicographic order |
| Collision.SegmentsSelfIntersect | src/collision/collision_ops.cpp:785-805 | segments_self_intersect: exactly the crossing pairs of distinct segments, each with i < j |
| Collision.ClosestCircleIndicesUniform | src/collision/collision_ops.cpp:881-913 | closest_circle_indices_uniform: one entry per point, the first center at least squared distance, or 0 when there are none |

## Left out

- Integer width: int32 overflow in `width * height`, in the index arithmetic and in coordinate casts is not modelled; indices are unbounded integers.
- Floating point: every `float`, `Vector2` and `Vector3` is an exact real, so rounding, NaN, infinities other than the INF sentinel, and epsilon effects are not captured.
- AStar.Search: the diagonal step cost SQRT2 is an exact positive constant rather than the float 1.41421356237f.
- AStar.Search: optimality of the returned path (least cost under an admissible heuristic) is not proved; the contract gives reachability, the walk and its cost only.
- AStar.PathCost: the cost is that of some walk from start to goal, not proved least.
- Jps.JumpLength: the source's sqrt is taken exactly on straight and diagonal jumps only, which are the only jumps it computes.
- Jps.JpsGrid: neither optimality nor completeness of the path is claimed.
- Array lengths: methods over grids require the arrays to cover the grid (`Fits`, `Covers`, `width * height <= |grid|`), and reorder and select require indices in range. The source reads out of bounds otherwise, which is undefined behaviour.
- Grid.NeighborsCustom, Grid.Neighbors8, Grid.Neighbors4Batch, Grid.Neighbors8Batch, Grid.ToCoordsBatch, PathPost.SimplifyPath, PathPost.PathToVectors: a width of 0 divides by zero in the source, which is undefined behaviour, and is excluded (for the two PathPost members only where they divide: a path of 3 or more cells, a non-empty path); every other width, negative ones included, is accepted.
- GridFill.FloodFill, GridFill.FloodFillLimited: a start outside the grid or not holding target gives [] for every width, as in the source. With a valid start, width 0 divides by zero in the source and is excluded, and a negative width is excluded as well: the source then finds no in-bounds neighbour and returns [start], which the model does not cover.
- GridComponents.CountConnectedComponents: a grid with exactly one negative dimension is excluded. Its size width * height is negative, and `std::vector<bool> visited(size, false)` converts it to a huge unsigned length, which throws or misbehaves depending on the C++ library.
- Random.RandomOps.DrawBelow: the unbounded rejection loop is cut after `fuel` redraws. After that the last draw is reduced anyway, so the model's results hold for every fuel.
- Random.RandomOps.constructor: seeding from the clock takes the clock reading as a parameter; `seed_from_time` is not modelled beyond that.
- GeometrySimplify.SimplifyVisvalingam: for an input with no points and a target_count below it the model returns []; the source writes `next[n - 1]` there, which is undefined behaviour.
- GeometryHull.ConvexHullIndices: the corner where the lower and upper passes meet is not proved to turn left. Containment of the input points in the hull is not proved.
- KDTree3D.KDTree3D.Build: build_recursive's in-place sort and its push-then-patch order of the node vector are taken by their result (BuildTree laid out by Flatten), not step by step. Ties in std::sort are broken one fixed way.
- KDTree3D.KDTree3D.QueryNearestOne: the FLT_MAX starting distance is modelled as "no best yet".
- Spatial.NearestIndices: std::sort and std::partial_sort agree on (distance, index) pairs because the pairs are distinct; other tie orders are not modelled.
- QuadTree.QuadTree, Octree.Octree: tree nodes held through unique_ptr are RegionTree values rebuilt on each update; node sharing, aliasing and in-place node mutation are not modelled.
- RegionTree.Route: an index routed by subdivide always names a stored point; the guard for any other index has no counterpart in the source.
- SpatialHash2D.SpatialHash2D.SetCellSize, SpatialHash3D.SpatialHash3D.SetCellSize: a resize with items stored keeps them in the buckets of the old cell size, and the model promises Valid() afterwards only when the hash is empty or the size is ignored; every query requires Valid(), so a query after such a resize, which scans buckets for the new size and can miss stored items, is not modelled.
- Radius queries compare squared distances with the squared radius; the source's sqrt is not modelled.
- get_node_bounds and collect_node_bounds (quad_tree.cpp, octree.cpp) are debugging views and are not modelled. The plain getters are fields.
- Noise evaluation (Perlin, simplex, Worley, fbm, ridged, turbulence, warp) is float and trigonometric work and is not modelled.
- The float-only parts of grid_ops.cpp, geometry_ops.cpp, collision_ops.cpp, stat_ops.cpp and random_ops.cpp are not modelled: FOV, raycasting and the Euclidean distance field in grid_ops.cpp; Delaunay, Voronoi, offsets, Minkowski sums, centroid, perimeter and projections in geometry_ops.cpp; ray tests and intersection points in collision_ops.cpp; mean, variance, correlation, normalisation and outliers in stat_ops.cpp; shape sampling, Poisson disks, normal draws and directions in random_ops.cpp.
- Float variants of the array utilities (filters, sorts, argsorts, reductions over floats and vectors, distance filters) are not modelled; the int versions are.
- Godot binding (`_bind_methods`, `register_types`) and error logging are not modelled.

## Findings

| source | as written | input that shows it | evidently intended | confidence | as-written member | corrected member |
|---|---|---|---|---|---|---|
| src/random/random_ops.cpp:184 | `static_cast<uint64_t>(max_val - min_val) + 1` subtracts in int32, so wide spans wrap | min = -2147483648, max = 2147483647: the range is 0 and `% range` divides by zero | the difference taken in 64 bits, range = max - min + 1 | not executed | Random.FullSpanRangeVanishes | Random.RandomOps.RandiRangeArray |
| src/random/random_ops.cpp:184-193 | with the range wrapped, `min_val + static_cast<int32_t>(x % range)` can leave [min, max] for spans of 2^31 or more | min = -1, max = 2147483647, accepted draw x = 4294967294: the stored value is -3 | the difference taken in 64 bits, so every value lies in [min, max] | not executed | Random.WideSpanDrawEscapes | Random.RandomOps.RandiRangeArray |
| src/spatial/quad_tree.cpp:260 | query_radius_recursive prunes nodes with the strict `intersects` of the circle's bounding box | node at (5, 0) of size (10, 10) holding the point (5, 5), centre (4, 5), radius 1: the point is at distance 1 but the node is skipped | an inclusive intersection test | not executed | QuadTree.RadiusMissesEdge | QuadTree.RadiusHitsExact |
| src/spatial/octree.cpp:226 | query_box_recursive prunes with the strict AABB `intersects` | node (5, 0, 0) of size (5, 10, 10) holding (5, 1, 1), box (0, 0, 0) of size (5, 5, 5): the point is inside the closed box but the node is skipped | an inclusive intersection test | not executed | Octree.BoxMissesFace | Octree.BoxHitsExact |
| src/spatial/octree.cpp:269 | query_radius_recursive prunes with the strict `intersects` of the sphere's bounding box | point (5, 5, 5) in a node starting at x = 5, centre (4, 5, 5), radius 1 | an inclusive intersection test | not executed | Octree.RadiusMissesFace | Octree.RadiusHitsExact |
