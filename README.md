# Random map generation, modelled in Dafny

This project models five procedural map generators and proves properties
about them:

- **TinyKeep dungeon** (`tinykeep_dungeon.py`). Cells (rectangles) are scattered
  on a grid and pushed apart until no two overlap. The large cells become rooms.
  The room centres are joined by a Delaunay triangulation, which is built
  incrementally with Lawson flips. A pseudo minimum spanning tree of that graph
  is found by Kruskal's pass over a union-find list. L-shaped hallways are dug
  along the tree's edges. The cells that no hallway crosses are dropped, and the
  remaining cells and the rooms are stamped on the grid.
- **BSP dungeon** (`bsp_dungeon.py`). The map is split recursively into a binary
  space partition tree stored in a node list. A room is drawn in every leaf
  space. The room regions are then propagated up the tree. The module also has
  the corridor primitives that the corridor pass uses.
- **Cellular-automaton caves** (`ca_caves.py`). A random wall/floor grid is
  smoothed by generation rules, each counting walls in a 3x3 and a 5x5 window.
  The open regions are then labelled by flood fill and joined to the largest
  region by tunnel walks.
- **Maze** (`maze.py`). A recursive backtracker carves corridors between the
  cells of an odd lattice, in shuffled direction order, within a corridor
  budget.
- **Hilbert curve** (`hilbert_curve.py`). The curve of order n is built by
  recursive subdivision of a frame.

## How the model is laid out

Each Dafny module follows one source file. The TinyKeep file is split into four
modules:

- `TinyKeepGeometry`: points, areas and rectangles.
- `TinyKeepDelaunay`: the `DelaunayGraph` class.
- `TinyKeepKruskal`: the union-find list and the spanning-tree pass. The pass
  is proved against `Kruskal`, a fold over parent lists that retains each edge
  by the roots its ends have after the finds and unions of the earlier edges.
- `TinyKeepDungeon`: the `Dungeon` class.

Two small modules hold shared pieces:

- `Grids`: grids as `seq<seq<T>>`, with counting and single-entry updates.
- `Lists`: `Sub(s, keep)`, the entries of `s` left when the entries at the other
  positions are removed one after another.

Code that changes state in place is modelled as classes whose methods update
sequence fields. This covers the BSP, cave, maze and TinyKeep dungeons and the
Delaunay graph, and each such method is proved against a specification function
or predicate. The Hilbert curve is pure recursion and becomes a function with
lemmas.

Randomness and floating point become parameters that the caller supplies
("oracles"), keyed so that each draw of the source has its own value:

- the maze shuffle, keyed by cell;
- the cave fill, keyed by cell, and the tunnel directions, as a finite list;
- the BSP split orientation, split line and room sides, keyed by node and draw;
- the TinyKeep cell velocities, keyed by step and cell;
- the Delaunay flip test, keyed by the four corner indices;
- the edge order given to Kruskal's pass, as any permutation;
- the spanning tree's extra-edge coin, keyed by edge position.

Every contract holds for all oracle values that meet the stated range
conditions.

## Model

| member | source | states |
|---|---|---|
| HilbertCurve.Curve | hilbert_curve.py:16-35 | the curve of order n in a frame has exactly 4^n points |
| HilbertCurve.CurveParts | hilbert_curve.py:26-33 | point k of the order-n curve is point k - i*4^(n-1) of the i-th quarter curve, each drawn in its quarter frame |
| HilbertCurve.CurveStart | hilbert_curve.py:16-18 | the curve starts at the frame's start point |
| HilbertCurve.CurveEnd | hilbert_curve.py:26-33 | the curve ends 2^n - 1 steps along the frame's y axis |
| HilbertCurve.CurveInFrame | hilbert_curve.py:16-35 | every point has frame coordinates in [0, 2^n) on both axes |
| HilbertCurve.CurveSteps | hilbert_curve.py:16-35 | in a frame whose axes are unit axis vectors, consecutive points are 4-neighbours, including where two quarters meet |
| HilbertCurve.Junction1 | hilbert_curve.py:26-29 | the end of the first quarter curve and the start of the second are 4-neighbours |
| HilbertCurve.Junction2 | hilbert_curve.py:28-31 | the end of the second quarter and the start of the third are 4-neighbours |
| HilbertCurve.Junction3 | hilbert_curve.py:30-33 | the end of the third quarter and the start of the reversed fourth are 4-neighbours |
| HilbertCurve.Part4At | hilbert_curve.py:32-33 | the last quarter frame is the whole frame reflected: its (a, b) is (sub-1-b, sz-1-a) |
| HilbertCurve.Hilbert | hilbert_curve.py:39-41 | the curve from the origin has 4^n points |
| HilbertCurve.HilbertEnds | hilbert_curve.py:39-41 | the curve from the origin starts at (0, 0) and ends at (0, 2^n - 1) |
| HilbertCurve.HilbertInSquare | hilbert_curve.py:39-41 | every point lies in the square [0, 2^n - 1]^2 |
| HilbertCurve.HilbertSteps | hilbert_curve.py:39-41 | consecutive points are 4-neighbours |
| MazeGen.Maze.constructor | maze.py:6-17 | an odd-sized maze, carved from the start cell: the shape invariant holds (visited cells are carved lattice cells, the counter counts the corridor tiles and stays within max(1, max_corrs + 1)), the start cell is visited, every visited cell has no valid jump left, and every other corridor tile lies between two visited cells |
| MazeGen.Maze.PlaceCorrs | maze.py:19-32 | (x, y) is carved and visited, nothing carved or visited is undone, the counter grows, fewer cells are unvisited, the invariant is kept, every carved tile off the cell lattice lies between two visited cells, and every cell visited in the call ends with no valid jump left |
| MazeGen.Maze.TryJump | maze.py:28-32 | when the jump in direction d was valid, the tile between (x, y) and its target is carved and the target visited; otherwise nothing changes; either way the jump is no longer valid afterwards and the invariant is kept |
| MazeGen.Maze.JumpTo | maze.py:29-32 | a valid jump carves the tile in between, visits the target and leaves every carved off-lattice tile between two visited cells |
| MazeGen.Maze.ValidPos | maze.py:34-43 | true exactly when the target is strictly inside the border, unvisited, and the budget is not spent |
| MazeGen.EnterGood | maze.py:20-22 | entering an unvisited lattice cell keeps the shape invariant and adds exactly that cell to the visited set |
| MazeGen.CarveGood | maze.py:29-31 | carving the tile towards a valid jump keeps the invariant and the budget |
| MazeGen.CarveSeals | maze.py:29-31 | carving towards a jump target unseals only that target |
| MazeGen.EnterBridged | maze.py:20-22 | entering a cell keeps every carved off-lattice tile between two visited cells |
| MazeGen.CarveBridged | maze.py:29-31 | the tile carved towards a jump target lies between the visited cell and that target |
| MazeGen.CarvedBetween | maze.py:19-32 | every corridor tile that is not a visited cell is the tile in the middle of a jump between two visited cells |
| MazeGen.BlankReady | maze.py:13-17 | the blank maze may be entered at the start cell, with nothing visited |
| MazeGen.AllClosed | maze.py:17 | a walk that started from nothing leaves every visited cell with no valid jump |
| MazeGen.TriedAll | maze.py:25-28 | trying every direction of a shuffle leaves no valid jump |
| MazeGen.ShuffleCovers | maze.py:25-27 | a shuffled direction list contains every direction |
| CaCaves.CavesMap.constructor | ca_caves.py:25-33 | grid1 is the fill grid after all the rules in order; grid2 is the write buffer those steps leave; grid1's border is wall |
| CaCaves.CavesMap.RandGrid | ca_caves.py:36-47 | the grid has the given shape, its border is wall, and an interior cell is wall exactly when its fill draw came up |
| CaCaves.CavesMap.Update | ca_caves.py:49-51 | grid1 is the step applied reps times; grid2 is the last step's interior inside the old border (unchanged when reps is 0) |
| CaCaves.CavesMap.UpdateAux | ca_caves.py:53-76 | grid1 becomes one step of the old grid1, and grid2 holds that step's interior inside its old border |
| CaCaves.CavesMap.CountR1 | ca_caves.py:56-60 | the count is R1, the non-floor cells of the 3x3 block |
| CaCaves.CavesMap.CountR2 | ca_caves.py:61-69 | the count is R2, the non-floor cells of the 5x5 block without its corners, clipped to the grid |
| CaCaves.CavesMap.Get | ca_caves.py:78-79 | the tile of grid1 at (x, y) |
| CaCaves.CavesMap.Set | ca_caves.py:81-82 | only the one tile of grid1 changes |
| CaCaves.StepCells | ca_caves.py:70-76 | an interior cell becomes wall exactly when R1 >= r1_cutoff or R2 <= r2_cutoff, and floor otherwise; border cells keep their value |
| CaCaves.Step | ca_caves.py:53-76 | a step keeps the grid's shape |
| CaCaves.IterateWalled | ca_caves.py:49-51 | repeated steps keep a wall border |
| CaCaves.GenerateWalled | ca_caves.py:32-33 | applying all the rules keeps a wall border |
| CaCaves.R1Bound | ca_caves.py:57-60 | R1 is at most 9 |
| CaCaves.R2Bound | ca_caves.py:61-69 | R2 is at most 21 |
| CaCaves.WithBorderTwice | ca_caves.py:74-76 | copying an interior in twice keeps only the last copy |
| CaCaves.BufferStep | ca_caves.py:49-51 | the write buffer after k more steps is the latest grid's interior inside a wall border |
| CaRegions.MarkRegion | ca_caves.py:153-163 | the fill labels its start cell exactly when that cell is open and unlabelled, and changes nothing otherwise; it only adds label id to unlabelled open cells; every newly labelled cell has all its open neighbours labelled and is reached from the start cell by a 4-connected path of open cells that were unlabelled before the fill |
| CaRegions.FillDone | ca_caves.py:158-163 | labelling the cell and then filling from its left, upper, right and lower neighbours is a fill from the cell, with every new cell reached from it |
| CaRegions.FillReach | ca_caves.py:158-163 | a cell newly labelled by one of the four neighbour fills is reached from the cell through cells that were unlabelled before it |
| CaRegions.ReachPrepend | ca_caves.py:159-163 | an open unlabelled neighbour of s reaches whatever s reaches |
| CaRegions.ReachLift | ca_caves.py:159-163 | a path unlabelled after labels were added was unlabelled before |
| CaRegions.LabelRegions | ca_caves.py:119-126 | exactly the open cells are labelled; labels are 1 .. regionCnt - 1, each of them used; 4-adjacent open cells share their label; two cells with the same label are joined by a 4-connected path of open cells |
| CaRegions.RootedStep | ca_caves.py:121-126 | a fill with the next label from a seed cell keeps every labelled cell joined to the seed of its label |
| CaRegions.SameLabelJoined | ca_caves.py:121-126 | two cells carrying one label are joined through that label's seed |
| CaRegions.JoinedSym | ca_caves.py:153-163 | a 4-connected open path walked backwards is one |
| CaRegions.JoinedTrans | ca_caves.py:153-163 | two 4-connected open paths meeting at a cell make one |
| CaRegions.CollectRegions | ca_caves.py:129-142 | list k holds exactly the cells labelled k, in row-major order; list 0 is empty |
| CaRegions.GetMaxRegion | ca_caves.py:166-172 | the index of the first longest list, 0 for no lists |
| CaRegions.DoConnect | ca_caves.py:175-203 | the walk starts at the chosen cell of region r1, each step moves to an interior neighbour strictly closer to the target outside region r2, it takes at most the starting squared distance steps, and the map changes only where a wall on the path became floor |
| CaRegions.ConnectUpRegions | ca_caves.py:119-150 | the map changes only where walls became floor; grid2 is untouched |
| CaRegions.AgreeStep | ca_caves.py:121-126 | a fill with a fresh label keeps adjacent open cells agreeing on labels |
| CaRegions.Neighbours | ca_caves.py:119-126 | when every open cell is labelled, adjacent open cells carry one label |
| CaRegions.WalkBound | ca_caves.py:181-203 | a walk that gets strictly closer each step has at most as many steps as its starting squared distance |
| CaRegions.Dist2NonNegative | ca_caves.py:182-186 | squared distances are never negative |
| BspDungeon.Dungeon.constructor | bsp_dungeon.py:40-54 | defaults: 80 by 24 map, four levels, 16 nodes, room sizes unset, empty lists |
| BspDungeon.Dungeon.SetGeometry | bsp_dungeon.py:57-59 | sets the map size |
| BspDungeon.Dungeon.SetLevel | bsp_dungeon.py:61-63 | sets the tree level |
| BspDungeon.Dungeon.SetRoomsz | bsp_dungeon.py:65-75 | sets the four room-size bounds |
| BspDungeon.Dungeon.UpdateBspTree | bsp_dungeon.py:93-127 | a vacant subtree becomes a split tree: every stored space is at least 3 by 3 and lies inside the given space, children are both stored or both absent and are the halves of a split of their parent, and entries outside the subtree are kept |
| BspDungeon.Dungeon.PlaceRoom | bsp_dungeon.py:138-171 | an error exactly when the space is eligible but no side can be drawn; otherwise a room exactly when the space is large enough, inside it, within the size bounds, recorded as the node's region and paved with room tiles; nothing else changes |
| BspDungeon.Dungeon.PlaceRooms | bsp_dungeon.py:129-136 | only leaves reached from the node change region, each to a room that fits; only room tiles are added, and every tile that changes lies in the room of a reached leaf; an error exactly when some reached leaf is stuck, and otherwise every eligible reached leaf has a room |
| BspDungeon.Dungeon.PlaceCorrs | bsp_dungeon.py:173-187 | every node with children gets the combination of its children's regions, and every other node keeps its own |
| BspDungeon.Dungeon.PlaceCorrsDir | bsp_dungeon.py:254-259 | exactly the rock tiles from (x, y) in direction dir up to the first non-rock tile become corridor |
| BspDungeon.Dungeon.PlaceCorrsBetweenPoints | bsp_dungeon.py:236-252 | the tiles of the L-shaped run become corridor and nothing else changes; any direction other than right or down is an error |
| BspDungeon.Dungeon.Generate | bsp_dungeon.py:77-91 | the tree is a split tree of 2^level nodes inside the map without its border, with a root exactly when the map is at least 5 by 5; the map is rock plus room tiles, and every tile that is not rock lies in the room of a leaf reached from the root; rooms are placed as PlaceRooms states; unless a draw failed, the regions are propagated |
| BspDungeon.Dungeon.Plan | bsp_dungeon.py:78-84 | the map is all rock, the tree has 2^level entries and no regions, and it is a split tree inside the map without its border, with a root exactly when the map is at least 5 by 5 |
| BspDungeon.Merge | bsp_dungeon.py:261-266 | the merged region holds both regions |
| BspDungeon.MergeLeast | bsp_dungeon.py:261-266 | every rectangle holding both regions holds their merge |
| BspDungeon.CombineCovers | bsp_dungeon.py:173-187 | a parent's region holds each present child region, and is its own when both are absent |
| BspDungeon.RegionsCover | bsp_dungeon.py:173-187 | after propagation a node's region holds every stored region below it |
| BspDungeon.SplitInside | bsp_dungeon.py:108-124 | the two halves of a split lie inside the parent, apart, and one line of tiles is used up by the split |
| BspDungeon.Grown | bsp_dungeon.py:83-84 | splitting the root space into an empty tree gives a split tree inside that space, with a root exactly when the space is at least 3 by 3 |
| BspDungeon.AllRock | bsp_dungeon.py:80-81 | the map of the given shape, rock everywhere |
| BspDungeon.RunRock | bsp_dungeon.py:254-259 | the tiles the corridor walk passes before it stops are rock |
| BspDungeon.ChildrenApart | bsp_dungeon.py:93-127 | the subtrees of a node's two children do not share a node |
| BspDungeon.RoomsStep | bsp_dungeon.py:134-136 | when the left subtree changes only tiles in its leaves' rooms and the right subtree only tiles in its own, the node changes only tiles in the rooms of leaves reached from it |
| TinyKeepGeometry.InTriangleIff | tinykeep_dungeon.py:144-155 | the area test holds exactly when the point is on the same side of (or on) all three edges |
| TinyKeepGeometry.AreaSplitBound | tinykeep_dungeon.py:144-155 | the three part areas never add up to less than the whole |
| TinyKeepGeometry.InTriangleSymmetric | tinykeep_dungeon.py:149-155 | the test does not depend on corner order, and corners lie in their triangle |
| TinyKeepGeometry.OverlapsIff | tinykeep_dungeon.py:392-397 | overlap is symmetric and is overlap of closed intervals on both axes |
| TinyKeepGeometry.CenterInside | tinykeep_dungeon.py:389-390 | the centre of a cell at least 1 by 1 is one of its tiles |
| TinyKeepDelaunay.Ascending | tinykeep_dungeon.py:301-313 | the distinct entries, in increasing order |
| TinyKeepDelaunay.Listing | tinykeep_dungeon.py:301-313 | the corners of a triangle inside or outside a set, in increasing order without repeats |
| TinyKeepDelaunay.Remove | tinykeep_dungeon.py:191-194 | list removal fails exactly when no triangle is equal (same corners in any order), and otherwise drops one entry |
| TinyKeepDelaunay.RemoveAt | tinykeep_dungeon.py:191-194 | the entry removed is the first one equal |
| TinyKeepDelaunay.Bound | tinykeep_dungeon.py:210-213 | the largest coordinate, at least 0, bounds every point |
| TinyKeepDelaunay.SuperContains | tinykeep_dungeon.py:214-216 | the auxiliary triangle contains every point of the square 0 .. m by 0 .. m |
| TinyKeepDelaunay.LocatesUnique | tinykeep_dungeon.py:338-345 | there is only one answer for the triangle across an edge |
| TinyKeepDelaunay.NeighbourFromLocates | tinykeep_dungeon.py:338-345 | the front-to-back search for an edge finds the first triangle with it and its least other corner, or none, or the flat failure |
| TinyKeepDelaunay.LocatesSearch | tinykeep_dungeon.py:338-345 | any answer meeting that description is the one the search gives |
| TinyKeepDelaunay.BatchTestGrows | tinykeep_dungeon.py:243-246 | a successful batch of triangles through point i adds one triangle per entry, and every triangle left is an old one or has corner i |
| TinyKeepDelaunay.QuadUnique | tinykeep_dungeon.py:301-313 | the quadrilateral of two triangles is determined by their corners |
| TinyKeepDelaunay.QuadMerges | tinykeep_dungeon.py:301-313 | two triangles that have a quadrilateral share exactly one edge |
| TinyKeepDelaunay.QuadOfIs | tinykeep_dungeon.py:301-313 | a merge answer that exists exactly when the triangles merge, and is a quadrilateral of them, is `QuadOf` of them; with no answer, `QuadOf` is no quadrilateral |
| TinyKeepDelaunay.GrowStops | tinykeep_dungeon.py:224-226 | once a point insertion fails, every longer run of insertions fails too |
| TinyKeepDelaunay.LinkedSymmetric | tinykeep_dungeon.py:347-358 | triangle adjacency is symmetric, so the adjacency lists are too |
| TinyKeepDelaunay.KeptInRange | tinykeep_dungeon.py:228-235 | after the strip, every triangle uses only real points |
| TinyKeepDelaunay.StripDone | tinykeep_dungeon.py:228-235 | removing the collected triangles one by one leaves the others, in order |
| TinyKeepDelaunay.DelaunayGraph.constructor | tinykeep_dungeon.py:201-204 | the points are stored and no triangle exists yet |
| TinyKeepDelaunay.DelaunayGraph.LocateTriangle | tinykeep_dungeon.py:287-294 | the triangles containing the point, in list order, and exactly those; their indices are `Covering` of the list |
| TinyKeepDelaunay.CoveringLists | tinykeep_dungeon.py:287-294 | the indices `Covering` gives ascend, and an index is among them exactly when its triangle uses real points and contains the point |
| TinyKeepDelaunay.DelaunayGraph.LocateTriangle2 | tinykeep_dungeon.py:338-345 | the first triangle with the edge and its third corner, or none, or the flat-triangle failure |
| TinyKeepDelaunay.DelaunayGraph.MergeTriangles | tinykeep_dungeon.py:301-313 | defined exactly when the triangles share two corners and each has one of its own; then the quadrilateral lists t1's own corner, the smaller shared corner, t2's own corner and the larger shared corner |
| TinyKeepDelaunay.DelaunayGraph.LawsonFlip | tinykeep_dungeon.py:317-334 | fails exactly on a flat neighbour; flips exactly when a neighbour exists and the flip test holds, then replacing it by the two triangles through t.c and q; otherwise nothing changes |
| TinyKeepDelaunay.DelaunayGraph.BatchFlipTest | tinykeep_dungeon.py:243-246 | the batch entries take the flip test in turn, each appended unless the Lawson flip replaced its neighbour by the two triangles through it (the list is exactly `BatchTest` of the old list); it fails exactly when a flip test meets a flat neighbour, and every new triangle has the inserted point as a corner |
| TinyKeepDelaunay.DelaunayGraph.IncrementalDelaunay | tinykeep_dungeon.py:241-284 | succeeds exactly when the insertion step `AddPoint` of the old list is defined, and then the list is that step's result: with one containing triangle it is split into three around the point and flip-tested (`SplitIn`); with two, both are split into the four around the point and flip-tested (`SplitOn`); with none or more it fails. On success the point lay in one or two triangles, two triangles were added, and each new one has the point as a corner |
| TinyKeepDelaunay.DelaunayGraph.SplitInside | tinykeep_dungeon.py:251-258 | the triangle containing the point leaves the list and its three sub-triangles (a, b, i), (b, c, i), (c, a, i) take the flip test: the list is exactly `SplitIn` of the old one, two longer, and it fails exactly when that does |
| TinyKeepDelaunay.DelaunayGraph.SplitOnEdge | tinykeep_dungeon.py:260-281 | both triangles leave the list and the four triangles (q0, q1, i) ... (q3, q0, i) of their quadrilateral take the flip test: it succeeds exactly when `SplitOn` of the old list is defined, and the list is then that, two longer; it fails when the triangles do not share exactly one edge or a flip test fails |
| TinyKeepDelaunay.DelaunayGraph.ComputeTriangles | tinykeep_dungeon.py:207-235 | the three auxiliary corners are appended to the points; it succeeds exactly when `Triangulation` of the points is defined and the list is then that triangulation: the auxiliary triangle grown by `AddPoint` for each real point in turn (1 + 2n triangles), with those that use an auxiliary corner removed, in order; they use real points only |
| TinyKeepDelaunay.DelaunayGraph.AddAuxiliary | tinykeep_dungeon.py:209-216 | the three corners of the auxiliary triangle, 3m, 0 and 0, 3m and -3m, -3m for the largest coordinate m, are appended to the points |
| TinyKeepDelaunay.DelaunayGraph.InsertPoints | tinykeep_dungeon.py:224-226 | inserting points 0 .. n - 1 in turn succeeds exactly when `Grow` of the list over them is defined, and the list is then that, 2n longer |
| TinyKeepDelaunay.DelaunayGraph.InsertNext | tinykeep_dungeon.py:224-226 | inserting point i after the first i takes the grown list one step further, and fails exactly when that step does |
| TinyKeepDelaunay.DelaunayGraph.StripAuxiliary | tinykeep_dungeon.py:228-235 | the triangles left are those without auxiliary corners, in their order |
| TinyKeepDelaunay.DelaunayGraph.AdjacencyList | tinykeep_dungeon.py:347-358 | one set per point; v is in u's set exactly when some triangle has both as corners |
| TinyKeepKruskal.UnionFind.constructor | tinykeep_dungeon.py:626-629 | every index is its own root |
| TinyKeepKruskal.UnionFind.Find | tinykeep_dungeon.py:631-635 | the root of x; the new parent list is the old one with every index on the path from x pointed at that root (`Compressed`), which changes no index's root |
| TinyKeepKruskal.UnionFind.Union | tinykeep_dungeon.py:637-638 | the new parent list is the one the find on y leaves, with x pointed at y's root; only indices that had x's root may change root, and only to y's |
| TinyKeepKruskal.Compressed | tinykeep_dungeon.py:631-635 | the parent list after a find on x points x at its root and keeps the list well-founded |
| TinyKeepKruskal.CompressedSame | tinykeep_dungeon.py:631-635 | the path compression of a find changes no index's root |
| TinyKeepKruskal.ListEdges | tinykeep_dungeon.py:602-609 | every pair u < v with v a neighbour of u, exactly once, in order |
| TinyKeepKruskal.AuxPseudoEmst | tinykeep_dungeon.py:620-651 | the retained list is exactly `Kruskal`: edge k is retained when the roots of its ends differ in the parent list the finds and unions of the first k edges leave, or else when coin(k) comes up; hence the retained edges are a sub-list of the input, a dropped edge's ends were already connected by earlier retained edges, and whatever the input connects, the retained edges connect |
| TinyKeepKruskal.TriangleDropsLast | tinykeep_dungeon.py:640-647 | on the triangle 0-1, 1-2, 2-0 with no coin coming up, the pass retains the first two edges and drops the third |
| TinyKeepKruskal.PseudoEmst | tinykeep_dungeon.py:602-618 | for any order of the edges, every retained edge is an adjacency u < v, and the ends of every adjacency are connected by retained edges |
| TinyKeepKruskal.CompressRoot | tinykeep_dungeon.py:631-635 | pointing an index straight at its root changes no root |
| TinyKeepKruskal.RelinkRoot | tinykeep_dungeon.py:637-638 | relinking x under a root changes only the roots that were x's |
| TinyKeepKruskal.ConnTransfer | tinykeep_dungeon.py:640-651 | when every edge of one list is connected through another, so is everything the first connects |
| TinyKeepKruskal.ConnSym | tinykeep_dungeon.py:620-651 | connection along edges is symmetric |
| TinyKeepKruskal.ScanDone | tinykeep_dungeon.py:640-651 | after the whole scan, the retained edges connect everything the input does |
| TinyKeepDungeon.Dungeon.constructor | tinykeep_dungeon.py:406-428 | the settings are stored; no cells, rooms or grid yet |
| TinyKeepDungeon.Dungeon.GetActiveCells | tinykeep_dungeon.py:510-522 | the ascending positions of exactly the cells some other cell overlaps |
| TinyKeepDungeon.Dungeon.RelocateStep | tinykeep_dungeon.py:538-571 | each active cell moves by its velocity, and the other cells stay |
| TinyKeepDungeon.Dungeon.RemoveCells | tinykeep_dungeon.py:524-526 | removing the given cells one after another leaves the others, in order |
| Lists.RemoveAll | tinykeep_dungeon.py:524-526 | removing the entries at ascending positions one after another, each found where the earlier removals left it, leaves the entries at the other positions, in order |
| Lists.RemovedIs | tinykeep_dungeon.py:524-526 | after the first j removals, the list is the kept entries up to the j-th removed position followed by the rest of the list unchanged, j entries shorter |
| TinyKeepDungeon.Dungeon.ClearOobCells | tinykeep_dungeon.py:528-536 | exactly the cells inside the grid are left, in order |
| TinyKeepDungeon.Dungeon.RelocateCells | tinykeep_dungeon.py:483-508 | at most reloc_attempts moves are made; afterwards no two cells overlap and all lie inside the grid |
| TinyKeepDungeon.Dungeon.SelectRooms | tinykeep_dungeon.py:573-582 | rooms are the large cells, in order, and the cells are the others, in order |
| TinyKeepDungeon.Dungeon.CreateHallways | tinykeep_dungeon.py:653-674 | exactly the tiles of the L-shaped hallway between the two centres become corridor |
| TinyKeepDungeon.Dungeon.Stamp | tinykeep_dungeon.py:691-701 | exactly the tiles of the given rectangles get the tile |
| TinyKeepDungeon.Dungeon.IsWanted | tinykeep_dungeon.py:677-683 | true exactly when some tile of the cell is corridor |
| TinyKeepDungeon.Dungeon.ClearCells | tinykeep_dungeon.py:676-689 | exactly the cells with a corridor tile are kept, in order |
| TinyKeepDungeon.Dungeon.RoomGraph | tinykeep_dungeon.py:586-592 | succeeds exactly when `Triangulation` of the room centres is defined, and the triangles are then that triangulation; adj[u] holds exactly the rooms sharing a triangle with u, and every triangle uses room indices |
| TinyKeepDungeon.Dungeon.DigHallways | tinykeep_dungeon.py:598-599 | exactly the tiles of the hallways along the edges become corridor |
| TinyKeepDungeon.Dungeon.ConnectRooms | tinykeep_dungeon.py:584-600 | succeeds exactly when `Triangulation` of the room centres is defined, and its triangles are then that triangulation; on success every tree edge joins two triangulation neighbours, every pair of neighbours is connected by tree edges, and exactly the hallway tiles become corridor; a failure changes nothing |
| TinyKeepDungeon.Dungeon.LayOut | tinykeep_dungeon.py:430-445 | a rock grid, with rooms and cells placed: inside the grid, rooms large and cells not, no two overlapping |
| TinyKeepDungeon.Dungeon.Finish | tinykeep_dungeon.py:452-460 | every remaining cell crosses a hallway, and every tile is room over cell over hallway over rock |
| TinyKeepDungeon.Dungeon.Generate | tinykeep_dungeon.py:430-460 | rooms and cells placed; the hallways are laid exactly when `Triangulation` of the room centres is defined, over that triangulation; the hallways follow a spanning structure of the Delaunay graph; every kept cell crosses a hallway; each tile is room, else cell, else corridor, else rock |
| TinyKeepDungeon.InactiveSeparated | tinykeep_dungeon.py:492-505 | dropping the cells still active after the last step leaves no two overlapping |
| TinyKeepDungeon.NoneActive | tinykeep_dungeon.py:510-522 | with no active cell, no two cells overlap |
| TinyKeepDungeon.SelectSplit | tinykeep_dungeon.py:573-582 | rooms are all large, the rest all small, and together they are the cells there were |
| TinyKeepDungeon.SelectApart | tinykeep_dungeon.py:573-582 | rooms and cells taken from separated cells do not overlap each other |
| TinyKeepDungeon.RockGrid | tinykeep_dungeon.py:433 | the grid of the given size with rock everywhere |
| TinyKeepDungeon.WantedAt | tinykeep_dungeon.py:676-689 | the positions of exactly the cells with a corridor tile |
| TinyKeepDungeon.PaintTwice | tinykeep_dungeon.py:653-674 | painting the same area twice changes nothing the second time, so digging a hallway again is idempotent |
| TinyKeepDungeon.PaintedThen | tinykeep_dungeon.py:663-674 | painting two areas in turn paints their union |
| TinyKeepDungeon.HallInGrid | tinykeep_dungeon.py:653-674 | a hallway between centres on the grid stays on the grid |
| TinyKeepDungeon.CorrIsHall | tinykeep_dungeon.py:677-683 | on a rock grid, a cell with a corridor tile after digging crosses a hallway |
| TinyKeepDungeon.Layers | tinykeep_dungeon.py:691-701 | stamping cells and then rooms over the hallways gives room over cell over corridor over rock, so no room tile is lost to a cell |
| TinyKeepDungeon.PlacedSub | tinykeep_dungeon.py:676-689 | dropping cells keeps rooms and cells placed |

## Left out

- Output and configuration are not modelled: printing, the `print_`
  functions, the JSON `Settings` reader, `main`, and the runs at module level.
- Random draws and floating point are parameters, as listed above. In
  particular:
  - the TinyKeep cell maker (`_make_cells`, with its ellipse and normal
    distributions) is the `start` list given to `Generate`;
  - the steering velocity of `_relocate_step` is the integer offset
    `velocity(step, i)`;
  - the flip angle test of `_lawson_flip` is the `flip` oracle, so the
    triangulation is not proved to be Delaunay, and the zero division of the
    angle computation on degenerate triangles is not modelled;
  - the sort by Euclidean weight in `_pseudo_EMST` is an arbitrary permutation
    `reorder`. Its comparator returns a boolean rather than an ordering, so no
    particular order is promised;
  - the `random() < cycle_edge_prob` coin is `coin(k)`, keyed by edge position.
- TinyKeepKruskal.PseudoEmst: does not state that the kept edges form a tree
  (minimal or acyclic). With the coin they need not form one, and the weight
  order is an oracle.
- Coordinates are integers. The Delaunay points are room centres, which are
  integers in the source too, so the area test's tolerance comparison is an
  exact comparison.
- Python set iteration order: merging two triangles lists the shared corners
  in ascending order, a triangle's other corners are taken in ascending order,
  and `ListEdges` lists neighbours in ascending order. The source's order is
  whatever its hashes give.
- TinyKeepDelaunay.DelaunayGraph.constructor: does not compute the
  triangulation. `ComputeTriangles` is a separate call, and `RoomGraph` makes
  both calls in the order the source does.
- TinyKeepDelaunay.DelaunayGraph.ComputeTriangles: errors (the `IndexError` of
  a flat neighbour, the failed assertion of a merge, a point outside every
  triangle) end the computation with `ok` false instead of an exception.
- TinyKeepDungeon.Dungeon.RelocateCells: does not state that the cells left
  are the original cells moved. Only non-overlap and being inside the grid are
  stated. It requires `reloc_attempts >= 1`. With 0 or less, the step count
  never reaches the limit, so only the cells coming apart ends the source's
  loop, and the velocity oracle does not promise that they do.
- TinyKeepDungeon.Dungeon.RemoveCells: finds each cell by position. Python's
  `list.remove` finds by equality, and the cells are distinct objects, so this
  is the same.
- TinyKeepDungeon.Dungeon.Generate: requires minimum room sides of at least 1
  and a grid size that is not negative. A zero-sized room would put its centre
  outside itself, and the hallway would then leave the grid. When the
  triangulation fails, the model stops with the grid all rock instead of
  raising an exception.
- TinyKeepDungeon.Dungeon.ConnectRooms: requires every room to lie on the grid
  and to be at least 1 by 1. Both hold after `LayOut` when the minimum sizes
  are at least 1.
- The BSP corridor pass `_aux_place_corrs` (bsp_dungeon.py:193-234) is not
  modelled. Its ray walks can run off the map or wrap around through negative
  list indices, and no invariant of the generated tree rules that out. As a
  result, `Generate` lays no corridors. `PlaceCorrs` models the bottom-up
  region propagation that surrounds the calls, and the primitives
  `PlaceCorrsDir` and `PlaceCorrsBetweenPoints` are modelled on their own.
- BSP draws: `__rand(a, b)` is an integer in [a, b] from `split`, keyed by
  node, and the vertical/horizontal choice is `vertical(node)`. The room sides
  and positions come from `pick(node, k, a, b)`. A `randint` on an empty range
  (a `ValueError`) is `raised`, which stops the placement as the exception
  does.
- BspDungeon.Dungeon.SetRoomsz: takes the four bounds separately, not as one
  tuple. It requires positive, ordered bounds, which is what the source
  asserts.
- MazeGen.Maze.constructor: requires width and height of at least 3 as well as
  odd. With 1, the start cell lies off the grid and the source fails with an
  `IndexError`.
- CaCaves.CavesMap.constructor: requires both sizes to be at least 1. When
  one size is 0 and the other is not, the border loops of `_rand_grid` index an
  empty row or grid and raise an `IndexError`. When both are 0, the source
  builds empty grids, and the model leaves that empty map out.
- CaRegions.MarkRegion: is given the map's grid1 and its sizes as values
  rather than the map object. `mark_region` only reads the map, through
  `get`, `get_xsize` and `get_ysize`.
- CaRegions.DoConnect: the source's walk loops until it reaches region r2 and
  need not terminate. The model walks at most `|draws|` steps, one per
  direction draw. The random end cells are the indices `pick1`/`pick2`.
- CaRegions.ConnectUpRegions: states that the map only gains floor, not that
  the regions end up joined. A walk may stop when its draws run out, so joining
  is not promised for all draws.
- CaRegions.MarkRegion, CaRegions.LabelRegions, CaRegions.ConnectUpRegions:
  Python's recursion limit is not modelled. `mark_region`
  (ca_caves.py:153-163) recurses once per cell it labels, so in the source a
  floor region of much more than a thousand cells raises a `RuntimeError`.
  These members always succeed.
- MazeGen.Maze.PlaceCorrs, MazeGen.Maze.constructor: the same holds for the
  recursion of `_place_corrs` (maze.py:19-32), one level per visited cell.
  A maze whose walk goes deeper than the recursion limit fails in the source.
- The cave label map is threaded through `MarkRegion` as a value, not as a
  shared list, and `point` objects are pairs.
- Negative list indices, which Python would wrap around, are excluded by
  preconditions wherever the source would use them on a valid map.
