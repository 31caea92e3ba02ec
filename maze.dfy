/**
 * MazeGenerator of problem5_new.cpp: it owns a union-find over the
 * width * height cells, the list of candidate walls and the passage grid.
 * The constructor enumerates the walls and closes every cell; Generate runs
 * randomized Kruskal over the walls in the order of a caller-supplied
 * permutation, which stands for the shuffle.
 */
module Maze {
  import opened Partition
  import opened UnionFind
  import opened Walls
  import opened Kruskal
  import opened Passages

  class MazeGenerator {
    const width: nat
    const height: nat
    const ds: DisjointSet
    var walls: seq<Wall>
    /** grid[r, c]: the directions open from cell (r, c) (OpenRight, OpenDown, OpenLeft, OpenUp). */
    const grid: array2<bv8>

    ghost predicate Valid()
      reads this, ds, ds.parent, ds.rank
    {
      ds.Valid() && ds.parent.Length == width * height &&
      grid.Length0 == height && grid.Length1 == width &&
      (forall j :: 0 <= j < |walls| ==> WallShape(width, height, walls[j])) &&
      NoDuplicateWalls(walls)
    }

    /** The state right after construction: all walls standing, all cells closed, n singletons. */
    ghost predicate Built()
      reads this, ds, grid
    {
      NoneRemoved(walls) && ds.root == Identity(width * height) &&
      forall r, c :: 0 <= r < grid.Length0 && 0 <= c < grid.Length1 ==> grid[r, c] == 0
    }

    /** The grid holds, cell by cell, the masks the walls ws leave (MaskOf). */
    ghost predicate Shows(ws: seq<Wall>)
      reads this, grid
    {
      grid.Length0 == height && grid.Length1 == width &&
      forall r, c :: 0 <= r < height && 0 <= c < width ==> grid[r, c] == MaskOf(ws, width, r, c)
    }

    /**
     * Part way through generation: the first i walls of `shuffled` have been
     * visited with the outcome `progress` (the specification Run), the
     * others are as the shuffle left them; the union-find holds the
     * partition of `progress` and the grid shows its removed walls.
     */
    ghost predicate Visited(shuffled: seq<Wall>, i: nat, progress: Progress)
      reads this, ds, ds.parent, ds.rank, grid
    {
      i <= |shuffled| && CellsWithin(shuffled, width * height) &&
      CellsWithin(shuffled[..i], width * height) &&
      progress == Run(shuffled[..i], Identity(width * height)) &&
      ds.Valid() && ds.parent.Length == width * height &&
      walls == progress.walls + shuffled[i..] &&
      SameClasses(ds.root, progress.classes) && Shows(progress.walls)
    }

    /** Lists every wall between horizontally or vertically adjacent cells once, row by row. */
    constructor (w: nat, h: nat)
      ensures width == w && height == h
      ensures Valid() && Built()
      ensures walls == GridWalls(w, h, h)
      ensures fresh(ds) && fresh(ds.parent) && fresh(ds.rank) && fresh(grid)
    {
      var ws: seq<Wall> := [];
      var r := 0;
      while r < h
        invariant 0 <= r <= h
        invariant ws == GridWalls(w, h, r)
      {
        ws := PushRow(ws, w, h, r);
        r := r + 1;
      }
      width, height := w, h;
      ds := new DisjointSet(w * h);
      grid := new bv8[h, w]((_, _) => 0);
      walls := ws;
      GridWallsShape(w, h, h);
      NoDuplicates(w, h);
    }

    /** The inner loop of the constructor: the walls of row r, cell by cell, appended to ws. */
    static method PushRow(ws: seq<Wall>, w: nat, h: nat, r: nat) returns (row: seq<Wall>)
      ensures row == ws + RowWalls(w, h, r, w)
    {
      row := ws;
      var c := 0;
      while c < w
        invariant 0 <= c <= w
        invariant row == ws + RowWalls(w, h, r, c)
      {
        ghost var before := row;
        var current := r * w + c;
        if c < w - 1 {
          var right := r * w + (c + 1);
          row := row + [Wall(current, right, Right, false)];
        }
        if r < h - 1 {
          var down := (r + 1) * w + c;
          row := row + [Wall(current, down, Down, false)];
        }
        assert row == before + CellWalls(w, h, r, c);
        c := c + 1;
      }
    }

    /**
     * Shuffles the walls into the order `order` gives them, then visits
     * them (VisitAll): a wall whose cells are not yet connected is removed,
     * its cells are united and the pair of bits that opens it is ORed into
     * the grid.
     */
    method Generate(order: seq<int>)
      requires Valid() && Built()
      requires IsPermutation(order, |walls|)
      modifies this`walls, grid, ds, ds.parent, ds.rank
      ensures Valid()
      ensures CellsWithin(Shuffle(old(walls), order), width * height)
      ensures walls == Run(Shuffle(old(walls), order), Identity(width * height)).walls
      ensures SameClasses(ds.root, Run(Shuffle(old(walls), order), Identity(width * height)).classes)
      ensures forall r, c :: 0 <= r < height && 0 <= c < width ==> grid[r, c] == MaskOf(walls, width, r, c)
    {
      ShuffleKeepsWalls(walls, order);
      walls := Shuffle(walls, order);
      assert forall j :: 0 <= j < |walls| ==> WallShape(width, height, walls[j]) && !walls[j].removed;
      VisitAll();
    }

    /**
     * The generation loop over the walls in their current order, from the
     * state the constructor leaves: the outcome is the specification Run
     * over that order, and the grid shows the walls it removed.
     */
    method VisitAll()
      requires Valid() && Built()
      modifies this`walls, grid, ds, ds.parent, ds.rank
      ensures Valid()
      ensures CellsWithin(old(walls), width * height)
      ensures walls == Run(old(walls), Identity(width * height)).walls
      ensures SameClasses(ds.root, Run(old(walls), Identity(width * height)).classes)
      ensures Shows(walls)
    {
      ghost var shuffled := walls;
      ghost var progress := Progress([], Identity(width * height));
      StartVisiting();
      var count := |walls|;
      var i := 0;
      while i < count
        invariant 0 <= i <= count == |shuffled|
        invariant Visited(shuffled, i, progress)
      {
        progress := VisitWall(i, shuffled, progress);
        i := i + 1;
      }
      FinishVisiting(shuffled, progress);
    }

    /** Before the loop no wall has been visited: the constructor's state is the start of Run. */
    lemma StartVisiting()
      requires Valid() && Built()
      ensures forall j :: 0 <= j < |walls| ==> WallShape(width, height, walls[j])
      ensures NoneRemoved(walls) && NoDuplicateWalls(walls)
      ensures Visited(walls, 0, Progress([], Identity(width * height)))
    {
      var n := width * height;
      ShapesWithin(walls, width, height);
      assert walls[..0] == [] && [] + walls[0..] == walls;
      assert Run([], Identity(n)) == Progress([], Identity(n));
      assert SameClasses(ds.root, Identity(n));
      ShowsNothing();
    }

    /** An all-closed grid shows no removed wall. */
    lemma ShowsNothing()
      requires grid.Length0 == height && grid.Length1 == width
      requires forall r, c :: 0 <= r < grid.Length0 && 0 <= c < grid.Length1 ==> grid[r, c] == 0
      ensures Shows([])
    {
    }

    /** After the loop every wall has been visited: the state is the outcome of Run. */
    lemma FinishVisiting(shuffled: seq<Wall>, progress: Progress)
      requires Visited(shuffled, |shuffled|, progress)
      requires forall j :: 0 <= j < |shuffled| ==> WallShape(width, height, shuffled[j])
      requires NoDuplicateWalls(shuffled)
      ensures CellsWithin(shuffled, width * height)
      ensures walls == Run(shuffled, Identity(width * height)).walls
      ensures SameClasses(ds.root, Run(shuffled, Identity(width * height)).classes)
      ensures Shows(walls)
      ensures Valid()
    {
      assert shuffled[|shuffled|..] == [] && shuffled[..|shuffled|] == shuffled;
      RunKeepsShapes(shuffled, Identity(width * height), width, height);
    }

    /**
     * One turn of the generation loop: wall i of the shuffled list, with the
     * walls before it already visited (`progress`). When its cells are not
     * yet connected they are united, the wall is flagged removed and the grid
     * opened; otherwise nothing changes.
     */
    method VisitWall(i: nat, ghost shuffled: seq<Wall>, ghost progress: Progress) returns (ghost next: Progress)
      requires i < |shuffled| && Visited(shuffled, i, progress)
      requires forall j :: 0 <= j < |shuffled| ==> WallShape(width, height, shuffled[j])
      requires NoneRemoved(shuffled)
      modifies this`walls, grid, ds, ds.parent, ds.rank
      ensures Visited(shuffled, i + 1, next)
    {
      VisitNext(shuffled, progress.walls, i, shuffled[i].(removed := true));
      var ws := walls;
      var wall := ws[i];
      assert wall == shuffled[i] && WallShape(width, height, wall);
      ghost var cls := progress.classes;
      assert ds.root[wall.cell1] == ds.root[wall.cell2] <==> cls[wall.cell1] == cls[wall.cell2];
      RunOneMore(shuffled, Identity(width * height), i);
      next := Step(progress, wall);
      var joined := ds.Connected(wall.cell1, wall.cell2);
      if !joined {
        ghost var root0 := ds.root;
        ds.Unite(wall.cell1, wall.cell2);
        MergeKeepsSameClasses(root0, cls, ds.root, wall.cell1, wall.cell2);
        walls := ws[i := wall.(removed := true)];
        assert next.walls == progress.walls + [wall.(removed := true)];
        OpenWall(progress.walls, wall.(removed := true));
      } else {
        assert next.walls == progress.walls + [wall];
        assert Shows(progress.walls);
        forall r, c | 0 <= r < height && 0 <= c < width
          ensures grid[r, c] == MaskOf(next.walls, width, r, c)
        {
          MaskAppend(progress.walls, wall, width, r, c);
        }
      }
    }

    /**
     * ORs the bits of a removed wall into the two cells it separates: the
     * grid then shows one wall more.
     */
    method OpenWall(ghost ws: seq<Wall>, wall: Wall)
      requires Shows(ws)
      requires WallShape(width, height, wall) && wall.removed
      modifies grid
      ensures forall r, c :: 0 <= r < height && 0 <= c < width ==>
        grid[r, c] == old(grid[r, c]) | Opening(wall, width, r, c)
      ensures Shows(ws + [wall])
    {
      var r := wall.cell1 / width;
      var c := wall.cell1 % width;
      if wall.direction == Right {
        grid[r, c] := grid[r, c] | OpenRight;
        grid[r, c + 1] := grid[r, c + 1] | OpenLeft;
      } else {
        grid[r, c] := grid[r, c] | OpenDown;
        grid[r + 1, c] := grid[r + 1, c] | OpenUp;
      }
      assert forall r, c :: 0 <= r < height && 0 <= c < width ==>
        grid[r, c] == old(grid[r, c]) | Opening(wall, width, r, c);
      forall r, c | 0 <= r < height && 0 <= c < width
        ensures grid[r, c] == MaskOf(ws + [wall], width, r, c)
      {
        MaskAppend(ws, wall, width, r, c);
      }
    }

    /** In a grid showing the walls, a wall's bit pair is set exactly when the wall is removed. */
    lemma GridShowsRemovedWalls(j: int)
      requires Valid() && Shows(walls) && 0 <= j < |walls|
      ensures var r, c := walls[j].cell1 / width, walls[j].cell1 % width;
        0 <= r < height && 0 <= c < width &&
        (walls[j].removed <==>
          if walls[j].direction == Right then grid[r, c] & OpenRight != 0 else grid[r, c] & OpenDown != 0)
    {
      var wall := walls[j];
      var r, c := wall.cell1 / width, wall.cell1 % width;
      assert WallShape(width, height, wall);
      WallCell(width, height, wall);
      MaskMatchesWall(walls, width, height, j);
      var m := MaskOf(walls, width, r, c);
      assert wall.removed <==> if wall.direction == Right then m & OpenRight != 0 else m & OpenDown != 0;
      assert 0 <= r < height && 0 <= c < width;
      assert grid[r, c] == m;
    }

    /**
     * A grid showing the walls is mirrored (open right exactly when the
     * right neighbour is open left, open down exactly when the cell below
     * is open up) and never opens a cell towards the border.
     */
    lemma GridMirrored(r: int, c: int)
      requires Valid() && Shows(walls)
      requires 0 <= r < height && 0 <= c < width
      ensures c + 1 < width ==> (grid[r, c] & OpenRight != 0 <==> grid[r, c + 1] & OpenLeft != 0)
      ensures r + 1 < height ==> (grid[r, c] & OpenDown != 0 <==> grid[r + 1, c] & OpenUp != 0)
      ensures c + 1 == width ==> grid[r, c] & OpenRight == 0
      ensures r + 1 == height ==> grid[r, c] & OpenDown == 0
      ensures c == 0 ==> grid[r, c] & OpenLeft == 0
      ensures r == 0 ==> grid[r, c] & OpenUp == 0
    {
      MaskMirrored(walls, width, r, c);
      MaskInsideGrid(walls, width, height, r, c);
    }

    /**
     * After generating from singletons, removed walls plus remaining sets
     * make width * height: at most width * height - 1 walls are removed.
     */
    lemma RemovedPlusSets(shuffled: seq<Wall>)
      requires CellsWithin(shuffled, width * height) && NoneRemoved(shuffled)
      requires walls == Run(shuffled, Identity(width * height)).walls
      requires SameClasses(ds.root, Run(shuffled, Identity(width * height)).classes)
      ensures RemovedCount(walls) + ClassCount(ds.root) == width * height
      ensures width * height > 0 ==> RemovedCount(walls) <= width * height - 1
    {
      RemovedBound(shuffled, width * height);
      SameClassesCount(ds.root, Run(shuffled, Identity(width * height)).classes);
    }
  }
}
