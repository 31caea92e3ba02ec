# Randomized Kruskal maze generator — Dafny model

This project models the core of `problem5_new.cpp`, a maze generator for a
width × height grid of cells (cell (r, c) has index r * width + c):

- **DisjointSet** — a union-find forest over the cells: `parent` and `rank`
  arrays, `find` with recursive path compression, `unite` by rank (on equal
  ranks y's root goes under x's root, whose rank grows by one) and
  `connected`. Modelled as the class `UnionFind.DisjointSet` with the two
  arrays and a ghost labelling `root` (root[i] is the representative of i's
  class) tied to the links by the forest invariant `IsForest`.
- **Wall** — a datatype: two cells, a direction (0 right, 1 down) and a
  removed flag.
- **MazeGenerator** — the class `Maze.MazeGenerator` with the width, the
  height, the union-find, the wall list (a `seq` the methods reassign) and
  the grid of direction bitmasks (1 right, 2 down, 4 left, 8 up) as an
  `array2<bv8>`. The constructor lists every wall between adjacent cells,
  row by row; `Generate` shuffles the walls and runs randomized Kruskal:
  a wall whose cells are not yet connected is removed, its cells are
  united, and a mirrored pair of bits is ORed into the grid.

Three pure specifications sit beside the imperative code:

- `Partition` describes partitions as labellings (`Relabel`, `ClassCount`,
  `SameClasses`), so statements do not depend on which representative
  union by rank picks.
- `Kruskal.Run` is the generation loop as a fold over the shuffled wall
  list. It carries the removed flags and the classes.
- `Passages.MaskOf` is the grid cell mask that a list of walls leaves.

`Generate` is proved to leave exactly `Run`'s walls, a union-find holding
`Run`'s partition, and a grid equal to `MaskOf` of its walls. The maze
properties are then proved as lemmas about `Run` and `MaskOf`, and as
lemmas about the generator's state.

## Model

| member | source | states |
|---|---|---|
| UnionFind.DisjointSet.constructor | problem5_new.cpp:17-24 | n elements, each its own parent with rank 0; the labelling is the identity (n singletons) and the forest invariant holds |
| UnionFind.DisjointSet.Find | problem5_new.cpp:26-32 | returns the root of x's tree (root[x], a self-parented element); exactly the elements on x's old path to the root (Path) now point straight at their root, and every other link is unchanged; the forest invariant holds and the partition (`root`, outside the frame) is unchanged |
| UnionFind.DisjointSet.Connected | problem5_new.cpp:53-55 | true exactly when x and y are in the same class; exactly the elements on x's and y's old paths now point at their roots, and every other link is unchanged; the forest invariant is kept |
| UnionFind.DisjointSet.Unite | problem5_new.cpp:34-51 | afterwards x and y are in one class; every link except the two roots' is as `connected` leaves it (paths of x and y compressed, the rest unchanged); when they already were in one class nothing else changes; otherwise the lower-rank root goes under the other with ranks unchanged, and on equal ranks y's root goes under x's root, whose rank grows by one; the other root keeps pointing at itself |
| UnionFind.DisjointSet.LinkClasses | problem5_new.cpp:38-50 | with x and y in different classes and already pointing at their roots, the two finds change nothing and exactly one root's link changes: the lower-rank root goes under the other, on equal ranks y's root under x's, whose rank grows by one; the labelling merges the two classes |
| UnionFind.DisjointSet.Link | problem5_new.cpp:41-50 | the rank comparison on two different roots: the new parent array is the old one with only the losing root re-pointed, the rank grows only on a tie, and the labelling merges the two classes |
| UnionFind.Path | problem5_new.cpp:26-32 | the elements a call of find visits from x: x, its root and only valid elements |
| UnionFind.PathClosed | problem5_new.cpp:28-29 | the path from any element on x's path is part of x's path |
| UnionFind.PathSameRoot | problem5_new.cpp:28-29 | every element on x's path is in x's class |
| UnionFind.CompressedPath | problem5_new.cpp:53-55 | after compressing x's path, y's new path and y's old path differ only inside x's old path, so the second find of `connected` compresses exactly y's old path beyond x's |
| UnionFind.PathCompressed | problem5_new.cpp:36-39 | once x points at its root, every element on its path does, so a later find of x changes nothing |
| UnionFind.DisjointSet.RanksIncrease | problem5_new.cpp:41-50 | in a valid forest every parent link stays in range and goes to a strictly higher rank |
| UnionFind.RootOf | problem5_new.cpp:26-32 | following the parent links from x ends at a self-parented root, of strictly higher rank unless x is that root |
| UnionFind.RootIsRootOf | problem5_new.cpp:26-32 | the ghost labelling agrees with the root that following the links reaches |
| UnionFind.RootIsFixed | problem5_new.cpp:28-31 | representatives are roots and label themselves; an element is its own representative exactly when it is its own parent |
| UnionFind.CompressKeepsForest | problem5_new.cpp:29 | re-pointing x at its root keeps the forest invariant and every class |
| UnionFind.LinkKeepsForest | problem5_new.cpp:41-50 | linking one root under another of higher rank (after the rank bump on a tie) keeps the forest invariant, and the two classes become one |
| Partition.Identity | problem5_new.cpp:21-23 | the labelling of n singletons: element i labelled i |
| Partition.IdentityClassCount | problem5_new.cpp:17-24 | n singletons are n classes |
| Partition.RelabelMergesTwoClasses | problem5_new.cpp:41-50 | merging two different classes removes exactly one label: one class fewer |
| Partition.MergeKeepsSameClasses | problem5_new.cpp:110-111 | merging the classes of the same two cells in two labellings of one partition gives labellings of one partition, whichever root survives |
| Partition.SameClassesCount | problem5_new.cpp:34-51 | two labellings of the same partition have as many classes |
| Walls.GridWallsShape | problem5_new.cpp:80-96 | GridWalls: every listed wall is unremoved and joins a cell to its right neighbour in the same row (direction 0) or to the cell below (direction 1); the Wall record (problem5_new.cpp:58-63) is built with removed false |
| Walls.RowWallsShape | problem5_new.cpp:81-95 | RowWalls: the same for the walls of one row |
| Walls.CellWallsShape | problem5_new.cpp:82-94 | CellWalls: the same for the walls of one cell |
| Walls.WallCell | problem5_new.cpp:115-116 | the row `cell1 / width` and the column `cell1 % width` of a wall's first cell are inside the grid |
| Walls.CellIndex | problem5_new.cpp:79-92 | row-major indexing: cell (r, c) is in the grid, its index gives back r and c, and the cell below is index + width |
| Walls.WallCount | problem5_new.cpp:80-96 | a w × h grid (w, h ≥ 1) has w*(h-1) + h*(w-1) walls |
| Walls.GridWallsLength | problem5_new.cpp:80-96 | GridWalls: number of walls listed for the first r rows |
| Walls.RowWallsLength | problem5_new.cpp:81-95 | RowWalls: number of walls listed for the first c cells of a row |
| Walls.GridWallsAscending | problem5_new.cpp:80-96 | GridWalls: the list ascends strictly in (cell1, direction) order |
| Walls.RowWallsAscending | problem5_new.cpp:81-95 | RowWalls: the walls of a row ascend and start in that row's cells |
| Walls.NoDuplicates | problem5_new.cpp:80-96 | no wall is listed twice |
| Walls.AllAdjacenciesWalled | problem5_new.cpp:85-94 | every right and every down adjacency inside the grid has its wall in the list |
| Maze.MazeGenerator.constructor | problem5_new.cpp:77-97 | width and height set; the union-find holds w*h singletons; the grid is h × w and all zero; the walls are exactly the row-by-row list, all standing, well-shaped and without duplicates |
| Maze.MazeGenerator.PushRow | problem5_new.cpp:81-95 | the column loop appends exactly the walls of row r to the list |
| Kruskal.Shuffle | problem5_new.cpp:104 | the shuffled list has the same length, with position i holding wall order[i] |
| Kruskal.ShuffleKeepsWalls | problem5_new.cpp:104 | shuffling keeps exactly the same walls and keeps them distinct |
| Kruskal.PermutationCovers | problem5_new.cpp:104 | a permutation reaches every index |
| Kruskal.PrefixImageSize | problem5_new.cpp:104 | the first m positions of a permutation reach m different indices |
| Kruskal.ShapesWithin | problem5_new.cpp:107-111 | the cells of walls between adjacent cells are valid union-find elements |
| Kruskal.StepJoinsCells | problem5_new.cpp:110-112 | one turn (Step) appends the wall with only its flag possibly changed, removes it exactly when its cells were in different classes or it was already removed, leaves its cells in one class and keeps together cells that were together |
| Kruskal.Run | problem5_new.cpp:106-125 | visiting the walls keeps their number, their cells and directions, and only ever sets removed flags |
| Kruskal.RunOneMore | problem5_new.cpp:106-125 | one more loop turn is one more Step |
| Kruskal.RunKeepsShapes | problem5_new.cpp:106-125 | the loop keeps every wall's shape and the list free of duplicates |
| Kruskal.RunPrefix | problem5_new.cpp:106-125 | later turns never change the flags of walls already visited |
| Kruskal.RemovedOnlyAcrossClasses | problem5_new.cpp:110-112 | a wall is removed exactly when its cells were in different classes just before its turn, and its cells are in one class right after |
| Kruskal.RemovedPlusClasses | problem5_new.cpp:110-112 | removed walls plus classes stay equal to the starting number of classes |
| Kruskal.RemovedBound | problem5_new.cpp:99-126 | from w*h singletons, removed walls plus remaining classes make w*h, so at most w*h - 1 walls are removed |
| Kruskal.EveryWallSpanned | problem5_new.cpp:106-125 | at the end both cells of every wall, removed or not, are in one class |
| Maze.MazeGenerator.Generate | problem5_new.cpp:99-126 | after shuffling by `order` and visiting every wall: the wall list is Run's over the shuffled list, the union-find holds Run's partition, each grid cell equals MaskOf of the walls, and the generator stays valid |
| Maze.MazeGenerator.VisitAll | problem5_new.cpp:106-125 | the loop over the walls in their current order ends in Run's walls and partition, with the grid showing them |
| Maze.MazeGenerator.StartVisiting | problem5_new.cpp:77-97 | the constructor's state is the start of the loop: no wall visited, singletons, a closed grid |
| Maze.MazeGenerator.FinishVisiting | problem5_new.cpp:106-125 | once every wall is visited, the state is Run's outcome and the generator is valid |
| Maze.MazeGenerator.VisitWall | problem5_new.cpp:107-124 | one turn of the loop moves the visited prefix on by one wall: the union-find, the wall list and the grid follow Run by one Step |
| Maze.MazeGenerator.OpenWall | problem5_new.cpp:114-123 | ORs in exactly the removed wall's bits (right/left or down/up in the two cells it separates) and leaves every other bit and cell as it was |
| Maze.MazeGenerator.ShowsNothing | problem5_new.cpp:77 | the all-zero grid shows no removed wall |
| Maze.MazeGenerator.GridShowsRemovedWalls | problem5_new.cpp:112-123 | in the generated grid a wall's bit (1 for right, 2 for down) in its first cell is set exactly when the wall is removed |
| Maze.MazeGenerator.GridMirrored | problem5_new.cpp:117-123 | the generated grid is mirrored (right with left, down with up) and no bit opens a cell towards the border |
| Maze.MazeGenerator.RemovedPlusSets | problem5_new.cpp:99-126 | after generation, removed walls plus union-find classes make w*h, so at most w*h - 1 walls are removed |
| Passages.Opening | problem5_new.cpp:115-123 | a standing wall opens nothing; a removed one sets at most one of the four direction bits in a cell: right or left only for a right wall (direction 0), down or up only for any other |
| Passages.MaskOf | problem5_new.cpp:106-125 | a cell's mask uses only the four direction bits, and is zero when no wall of the list is removed |
| Passages.MaskAppend | problem5_new.cpp:114-123 | applying one more wall ORs in its opening, and a standing wall changes no cell |
| Passages.MaskBit | problem5_new.cpp:114-123 | a bit of a cell is set exactly when some wall of the list sets it |
| Passages.MaskBitSource | problem5_new.cpp:114-123 | a set bit comes from some wall of the list |
| Passages.OpeningInMask | problem5_new.cpp:114-123 | a bit one wall sets is set in the cell's mask |
| Passages.MaskGrows | problem5_new.cpp:118-122 | bits are only ORed in: a bit set after a prefix of the walls stays set |
| Passages.OpeningMirrored | problem5_new.cpp:117-123 | one wall opens (r, c) right exactly when it opens (r, c+1) left, and down exactly when it opens (r+1, c) up |
| Passages.MaskMirrored | problem5_new.cpp:117-123 | the grid MaskOf describes is mirrored |
| Passages.OpeningSource | problem5_new.cpp:115-123 | which wall and which cell each bit of one wall's opening belongs to; no bit above 8 is used |
| Passages.OpeningInsideGrid | problem5_new.cpp:115-123 | a well-shaped wall only sets bits inside the grid and never towards the border |
| Passages.MaskInsideGrid | problem5_new.cpp:115-123 | no list of well-shaped walls opens a cell outside the grid or towards the border |
| Passages.MaskMatchesWall | problem5_new.cpp:112-123 | with no wall listed twice, a wall's bit pair is set exactly when the wall is removed |

## Left out

- `printMaze` (problem5_new.cpp:128-161) and `main` (problem5_new.cpp:164-175) are console output and a fixed driver. They are not modelled.
- The random engine (problem5_new.cpp:101-104) is not modelled. `std::shuffle` driven by `mt19937` seeded from `random_device` becomes a caller-supplied permutation `order` of the wall indices. Any order the shuffle can produce is a permutation.
- Maze.MazeGenerator.constructor: the width and height are `nat`. Negative dimensions and the 32-bit overflow of `w * h` (problem5_new.cpp:77) are not modelled.
- Maze.MazeGenerator.Generate: the loop's signed/unsigned comparison `i < walls.size()` (problem5_new.cpp:106) is modelled as an unbounded index.
- Maze.MazeGenerator.Generate: it requires the state the constructor leaves: all walls standing, singletons, a zero grid. A second call from a generated state is not modelled.
- Maze.MazeGenerator.Generate: the loop is the method VisitAll, its body the method VisitWall, and the two grid writes the method OpenWall. The grid-mirroring, wall-bit and wall-count properties are stated as separate lemmas rather than as postconditions of Generate:
  - about the specification: MaskMirrored, MaskMatchesWall, RemovedBound;
  - about the generator's state: GridMirrored, GridShowsRemovedWalls, RemovedPlusSets.
- Grid cells are `bv8` rather than `int`. Only bits 1, 2, 4 and 8 are ever set, so `|=` is the same operation.
- Full connectivity is not proved: that the generated maze is a spanning tree removing exactly w*h - 1 walls. Only the bound (at most w*h - 1) and the fact that every wall ends with both its cells in one class (EveryWallSpanned) are proved.
- UnionFind.DisjointSet.Unite: the redundant `connected` call before the two `find` calls (problem5_new.cpp:36-39) is modelled as written; the second pair of finds is the method LinkClasses, which finds the paths already compressed.
