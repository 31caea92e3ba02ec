/**
 * The candidate walls of a width × height grid, as the MazeGenerator
 * constructor of problem5_new.cpp enumerates them. Cell (r, c) has index
 * r * width + c. Walking the cells row by row, each cell contributes the wall
 * to its right neighbour (direction 0) unless it is in the last column, then
 * the wall to the cell below (direction 1) unless it is in the last row.
 */
module Walls {

  const Right := 0
  const Down := 1

  datatype Wall = Wall(cell1: int, cell2: int, direction: int, removed: bool)

  /**
   * The wall separates two adjacent cells of a w × h grid: cell1 and the
   * cell to its right in the same row, or cell1 and the cell below it.
   */
  predicate WallShape(w: int, h: int, wall: Wall)
  {
    0 < w && 0 <= wall.cell1 && wall.cell2 < w * h && wall.cell1 / w < h &&
    ((wall.direction == Right && wall.cell2 == wall.cell1 + 1 && wall.cell1 % w + 1 < w) ||
     (wall.direction == Down && wall.cell2 == wall.cell1 + w && wall.cell1 / w + 1 < h))
  }

  /** No two walls stand on the same side of the same cell. */
  predicate NoDuplicateWalls(ws: seq<Wall>)
  {
    forall j, k :: 0 <= j < k < |ws| ==>
      ws[j].cell1 != ws[k].cell1 || ws[j].direction != ws[k].direction
  }

  /** The walls pushed for cell (r, c). */
  function CellWalls(w: int, h: int, r: int, c: int): seq<Wall>
  {
    (if c < w - 1 then [Wall(r * w + c, r * w + (c + 1), Right, false)] else []) +
    (if r < h - 1 then [Wall(r * w + c, (r + 1) * w + c, Down, false)] else [])
  }

  /** The walls pushed for the first c cells of row r. */
  function RowWalls(w: int, h: int, r: int, c: nat): seq<Wall>
  {
    if c == 0 then [] else RowWalls(w, h, r, c - 1) + CellWalls(w, h, r, c - 1)
  }

  /** The walls pushed for the first r rows; GridWalls(w, h, h) is the whole list. */
  function GridWalls(w: nat, h: int, r: nat): seq<Wall>
  {
    if r == 0 then [] else GridWalls(w, h, r - 1) + RowWalls(w, h, r - 1, w)
  }

  /** d copies of a non-negative w, d >= 1, are at least w. */
  lemma MulAtLeast(d: int, w: int)
    requires 1 <= d && 0 <= w
    ensures d * w >= w
  {
    var e := d - 1;
    assert d * w == e * w + w;
  }

  /** Euclidean division by w of r*w + c, for 0 <= c < w, gives back r and c. */
  lemma DivModUnique(w: int, r: int, c: int)
    requires 0 <= c < w
    ensures (r * w + c) / w == r && (r * w + c) % w == c
  {
    var x := r * w + c;
    var q, m := x / w, x % w;
    assert q * w + m == r * w + c;
    assert (q - r) * w == c - m;
    if q > r {
      MulAtLeast(q - r, w);
    } else if q < r {
      MulAtLeast(r - q, w);
    }
  }

  /** The row and the column of a wall's first cell are inside the grid. */
  lemma WallCell(w: int, h: int, wall: Wall)
    requires WallShape(w, h, wall)
    ensures 0 <= wall.cell1 / w < h && 0 <= wall.cell1 % w < w
  {
    DivNonNegative(wall.cell1, w);
  }

  /** Dividing a non-negative number by a positive one gives a non-negative quotient. */
  lemma {:induction false} DivNonNegative(a: int, w: int)
    requires 0 <= a && 0 < w
    ensures 0 <= a / w
    decreases a
  {
    if a < w {
      DivModUnique(w, 0, a);
    } else {
      DivNonNegative(a - w, w);
      var q, m := (a - w) / w, (a - w) % w;
      DivModUnique(w, q + 1, m);
      assert (q + 1) * w + m == a;
    }
  }

  /** Row-major indexing: cell (r, c) lies in the grid and its index gives back r and c. */
  lemma CellIndex(w: int, h: int, r: int, c: int)
    requires 0 <= r < h && 0 <= c < w
    ensures 0 <= r * w + c < w * h
    ensures (r * w + c) / w == r && (r * w + c) % w == c
    ensures (r + 1) * w + c == r * w + c + w
  {
    assert (r + 1) * w == r * w + w;
    assert 0 <= r * w;
    MulAtLeast(h - r, w);
    assert (h - r) * w == h * w - r * w;
    DivModUnique(w, r, c);
  }

  /** Every wall the constructor pushes is an unremoved wall between adjacent cells. */
  lemma {:induction false} GridWallsShape(w: nat, h: nat, r: nat)
    requires r <= h
    ensures forall j :: 0 <= j < |GridWalls(w, h, r)| ==>
      WallShape(w, h, GridWalls(w, h, r)[j]) && !GridWalls(w, h, r)[j].removed
  {
    if r > 0 {
      GridWallsShape(w, h, r - 1);
      RowWallsShape(w, h, r - 1, w);
    }
  }

  lemma {:induction false} RowWallsShape(w: nat, h: nat, r: nat, c: nat)
    requires r < h && c <= w
    ensures forall j :: 0 <= j < |RowWalls(w, h, r, c)| ==>
      WallShape(w, h, RowWalls(w, h, r, c)[j]) && !RowWalls(w, h, r, c)[j].removed
  {
    if c > 0 {
      RowWallsShape(w, h, r, c - 1);
      CellWallsShape(w, h, r, c - 1);
      var a, b := RowWalls(w, h, r, c - 1), CellWalls(w, h, r, c - 1);
      assert forall j :: 0 <= j < |a + b| ==> (a + b)[j] == if j < |a| then a[j] else b[j - |a|];
    }
  }

  lemma CellWallsShape(w: nat, h: nat, r: nat, c: nat)
    requires r < h && c < w
    ensures forall j :: 0 <= j < |CellWalls(w, h, r, c)| ==>
      WallShape(w, h, CellWalls(w, h, r, c)[j]) && !CellWalls(w, h, r, c)[j].removed
  {
    CellIndex(w, h, r, c);
    if c < w - 1 {
      CellIndex(w, h, r, c + 1);
      assert WallShape(w, h, Wall(r * w + c, r * w + (c + 1), Right, false));
    }
    if r < h - 1 {
      CellIndex(w, h, r + 1, c);
      assert WallShape(w, h, Wall(r * w + c, (r + 1) * w + c, Down, false));
    }
  }

  /** Number of walls in the first c cells of row r. */
  lemma {:induction false} RowWallsLength(w: nat, h: int, r: int, c: nat)
    requires 1 <= w && c <= w
    ensures |RowWalls(w, h, r, c)| == (if c < w then c else w - 1) + (if r < h - 1 then c else 0)
  {
    if c > 0 {
      RowWallsLength(w, h, r, c - 1);
    }
  }

  /** Number of walls in the first r rows. */
  lemma {:induction false} GridWallsLength(w: nat, h: nat, r: nat)
    requires 1 <= w && 1 <= h && r <= h
    ensures |GridWalls(w, h, r)| == r * (w - 1) + (if r < h then r else h - 1) * w
  {
    if r > 0 {
      GridWallsLength(w, h, r - 1);
      RowWallsLength(w, h, r - 1, w);
      assert r * (w - 1) == (r - 1) * (w - 1) + (w - 1);
      assert r * w == (r - 1) * w + w;
    }
  }

  /** A w × h grid with w, h >= 1 has w*(h-1) + h*(w-1) walls. */
  lemma WallCount(w: nat, h: nat)
    requires 1 <= w && 1 <= h
    ensures |GridWalls(w, h, h)| == w * (h - 1) + h * (w - 1)
  {
    GridWallsLength(w, h, h);
  }

  /** Walls in strictly increasing (cell1, direction) order. */
  function Key(wall: Wall): int
  {
    2 * wall.cell1 + wall.direction
  }

  predicate Ascending(ws: seq<Wall>)
  {
    forall j, k :: 0 <= j < k < |ws| ==> Key(ws[j]) < Key(ws[k])
  }

  lemma AscendingConcat(a: seq<Wall>, b: seq<Wall>, bound: int)
    requires Ascending(a) && Ascending(b)
    requires forall j :: 0 <= j < |a| ==> Key(a[j]) < bound
    requires forall k :: 0 <= k < |b| ==> bound <= Key(b[k])
    ensures Ascending(a + b)
  {
    forall j, k | 0 <= j < k < |a + b| ensures Key((a + b)[j]) < Key((a + b)[k]) {
      if k < |a| {
      } else if j >= |a| {
        assert (a + b)[j] == b[j - |a|] && (a + b)[k] == b[k - |a|];
      } else {
        assert Key(a[j]) < bound <= Key(b[k - |a|]);
      }
    }
  }

  /** The walls of the first c cells of row r start in cells r*w .. r*w+c-1 and ascend. */
  lemma {:induction false} RowWallsAscending(w: nat, h: int, r: int, c: nat)
    requires 0 <= r
    ensures Ascending(RowWalls(w, h, r, c))
    ensures forall j :: 0 <= j < |RowWalls(w, h, r, c)| ==>
      2 * (r * w) <= Key(RowWalls(w, h, r, c)[j]) < 2 * (r * w + c)
  {
    if c > 0 {
      RowWallsAscending(w, h, r, c - 1);
      var cell := CellWalls(w, h, r, c - 1);
      assert Ascending(cell);
      AscendingConcat(RowWalls(w, h, r, c - 1), cell, 2 * (r * w + c - 1));
    }
  }

  /** The walls of the first r rows start in cells 0 .. r*w-1 and ascend. */
  lemma {:induction false} GridWallsAscending(w: nat, h: int, r: nat)
    ensures Ascending(GridWalls(w, h, r))
    ensures forall j :: 0 <= j < |GridWalls(w, h, r)| ==>
      0 <= Key(GridWalls(w, h, r)[j]) < 2 * (r * w)
  {
    if r > 0 {
      var a, b := GridWalls(w, h, r - 1), RowWalls(w, h, r - 1, w);
      GridWallsAscending(w, h, r - 1);
      RowWallsAscending(w, h, r - 1, w);
      assert (r - 1) * w + w == r * w;
      assert 0 <= (r - 1) * w;
      AscendingConcat(a, b, 2 * ((r - 1) * w));
      forall j | 0 <= j < |a + b| ensures 0 <= Key((a + b)[j]) < 2 * (r * w) {
        if j < |a| {
          assert (a + b)[j] == a[j];
        } else {
          assert (a + b)[j] == b[j - |a|];
        }
      }
    }
  }

  /** The constructor pushes no wall twice. */
  lemma NoDuplicates(w: nat, h: nat)
    ensures NoDuplicateWalls(GridWalls(w, h, h))
  {
    GridWallsAscending(w, h, h);
  }

  lemma {:induction false} RowWallsContain(w: nat, h: int, r: int, c: nat, c2: nat)
    requires c < c2
    ensures forall x :: x in CellWalls(w, h, r, c) ==> x in RowWalls(w, h, r, c2)
  {
    if c2 - 1 > c {
      RowWallsContain(w, h, r, c, c2 - 1);
    }
  }

  lemma {:induction false} GridWallsContain(w: nat, h: int, r: nat, r2: nat)
    requires r < r2
    ensures forall x :: x in RowWalls(w, h, r, w) ==> x in GridWalls(w, h, r2)
  {
    if r2 - 1 > r {
      GridWallsContain(w, h, r, r2 - 1);
    }
  }

  /** Every adjacency of the grid has its wall in the list: the right one and the one below. */
  lemma AllAdjacenciesWalled(w: nat, h: nat, r: nat, c: nat)
    requires r < h && c < w
    ensures c < w - 1 ==> Wall(r * w + c, r * w + (c + 1), Right, false) in GridWalls(w, h, h)
    ensures r < h - 1 ==> Wall(r * w + c, (r + 1) * w + c, Down, false) in GridWalls(w, h, h)
  {
    RowWallsContain(w, h, r, c, w);
    GridWallsContain(w, h, r, h);
  }
}
