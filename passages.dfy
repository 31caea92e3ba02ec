/**
 * The passage grid of problem5_new.cpp: grid[r][c] is a bitmask of the
 * directions open from cell (r, c) — 1 right, 2 down, 4 left, 8 up. Removing
 * a wall ORs a mirrored pair of bits into the two cells it separates, so the
 * grid is a function of the wall list: MaskOf.
 */
module Passages {
  import opened Walls

  const OpenRight: bv8 := 1
  const OpenDown: bv8 := 2
  const OpenLeft: bv8 := 4
  const OpenUp: bv8 := 8

  /**
   * The bits one wall contributes to cell (r, c) of a grid w cells wide:
   * nothing while it stands; once removed, a right wall opens its cell to
   * the right and the next cell to the left, a down wall opens its cell
   * downwards and the cell below upwards.
   */
  function Opening(wall: Wall, w: int, r: int, c: int): (bits: bv8)
    requires w > 0
    ensures !wall.removed ==> bits == 0
    ensures bits == 0 || bits == OpenRight || bits == OpenDown || bits == OpenLeft || bits == OpenUp
    ensures bits & (OpenRight | OpenLeft) != 0 ==> wall.direction == Right
    ensures bits & (OpenDown | OpenUp) != 0 ==> wall.direction != Right
  {
    if !wall.removed then 0
    else
      var r1, c1 := wall.cell1 / w, wall.cell1 % w;
      if wall.direction == Right then
        (if r == r1 && c == c1 then OpenRight else 0) | (if r == r1 && c == c1 + 1 then OpenLeft else 0)
      else
        (if r == r1 && c == c1 then OpenDown else 0) | (if r == r1 + 1 && c == c1 then OpenUp else 0)
  }

  /** The mask of cell (r, c) once the walls ws have been applied to an all-closed grid. */
  function MaskOf(ws: seq<Wall>, w: int, r: int, c: int): (mask: bv8)
    requires w > 0
    ensures mask & 0xF0 == 0
    ensures (forall j :: 0 <= j < |ws| ==> !ws[j].removed) ==> mask == 0
  {
    if ws == [] then 0 else MaskOf(ws[..|ws| - 1], w, r, c) | Opening(ws[|ws| - 1], w, r, c)
  }

  /** Applying one more wall ORs in its opening; a standing wall changes nothing. */
  lemma MaskAppend(ws: seq<Wall>, x: Wall, w: int, r: int, c: int)
    requires w > 0
    ensures MaskOf(ws + [x], w, r, c) == MaskOf(ws, w, r, c) | Opening(x, w, r, c)
    ensures !x.removed ==> MaskOf(ws + [x], w, r, c) == MaskOf(ws, w, r, c)
  {
    assert (ws + [x])[..|ws|] == ws;
  }

  /** A bit of a cell's mask is set exactly when some wall of the list sets it. */
  lemma MaskBit(ws: seq<Wall>, w: int, r: int, c: int, bit: bv8)
    requires w > 0
    ensures (MaskOf(ws, w, r, c) & bit != 0) <==>
      exists j :: 0 <= j < |ws| && Opening(ws[j], w, r, c) & bit != 0
  {
    if MaskOf(ws, w, r, c) & bit != 0 {
      var j := MaskBitSource(ws, w, r, c, bit);
    }
    forall j | 0 <= j < |ws| && Opening(ws[j], w, r, c) & bit != 0
      ensures MaskOf(ws, w, r, c) & bit != 0
    {
      OpeningInMask(ws, j, w, r, c, bit);
    }
  }

  /** A set bit of a cell's mask comes from some wall of the list. */
  lemma {:induction false} MaskBitSource(ws: seq<Wall>, w: int, r: int, c: int, bit: bv8) returns (j: int)
    requires w > 0 && MaskOf(ws, w, r, c) & bit != 0
    ensures 0 <= j < |ws| && Opening(ws[j], w, r, c) & bit != 0
  {
    assert ws != [];
    var prefix := ws[..|ws| - 1];
    OrBit(MaskOf(prefix, w, r, c), Opening(ws[|ws| - 1], w, r, c), bit);
    if MaskOf(prefix, w, r, c) & bit != 0 {
      j := MaskBitSource(prefix, w, r, c, bit);
      assert ws[j] == prefix[j];
    } else {
      j := |ws| - 1;
    }
  }

  /** A bit one wall of the list sets is set in the mask. */
  lemma {:induction false} OpeningInMask(ws: seq<Wall>, j: int, w: int, r: int, c: int, bit: bv8)
    requires w > 0 && 0 <= j < |ws| && Opening(ws[j], w, r, c) & bit != 0
    ensures MaskOf(ws, w, r, c) & bit != 0
  {
    var prefix := ws[..|ws| - 1];
    OrBit(MaskOf(prefix, w, r, c), Opening(ws[|ws| - 1], w, r, c), bit);
    if j < |ws| - 1 {
      assert prefix[j] == ws[j];
      OpeningInMask(prefix, j, w, r, c, bit);
    }
  }

  lemma OrBit(m: bv8, o: bv8, bit: bv8)
    ensures (m | o) & bit != 0 <==> m & bit != 0 || o & bit != 0
  {
  }

  /** One wall opens (r, c) to the right exactly when it opens (r, c+1) to the left; likewise down and up. */
  lemma OpeningMirrored(wall: Wall, w: int, r: int, c: int)
    requires w > 0
    ensures Opening(wall, w, r, c) & OpenRight != 0 <==> Opening(wall, w, r, c + 1) & OpenLeft != 0
    ensures Opening(wall, w, r, c) & OpenDown != 0 <==> Opening(wall, w, r + 1, c) & OpenUp != 0
  {
  }

  /**
   * The grid stays mirrored: (r, c) is open to the right exactly when
   * (r, c+1) is open to the left, and open downwards exactly when (r+1, c)
   * is open upwards.
   */
  lemma MaskMirrored(ws: seq<Wall>, w: int, r: int, c: int)
    requires w > 0
    ensures MaskOf(ws, w, r, c) & OpenRight != 0 <==> MaskOf(ws, w, r, c + 1) & OpenLeft != 0
    ensures MaskOf(ws, w, r, c) & OpenDown != 0 <==> MaskOf(ws, w, r + 1, c) & OpenUp != 0
  {
    MaskBit(ws, w, r, c, OpenRight);
    MaskBit(ws, w, r, c + 1, OpenLeft);
    MaskBit(ws, w, r, c, OpenDown);
    MaskBit(ws, w, r + 1, c, OpenUp);
    forall j | 0 <= j < |ws| {
      OpeningMirrored(ws[j], w, r, c);
    }
  }

  /** Which cell and which wall a bit of one wall's opening comes from. */
  lemma OpeningSource(wall: Wall, w: int, r: int, c: int)
    requires w > 0
    ensures Opening(wall, w, r, c) & OpenRight != 0 ==>
      wall.removed && wall.direction == Right && r == wall.cell1 / w && c == wall.cell1 % w
    ensures Opening(wall, w, r, c) & OpenDown != 0 ==>
      wall.removed && wall.direction != Right && r == wall.cell1 / w && c == wall.cell1 % w
    ensures Opening(wall, w, r, c) & OpenLeft != 0 ==>
      wall.removed && wall.direction == Right && r == wall.cell1 / w && c == wall.cell1 % w + 1
    ensures Opening(wall, w, r, c) & OpenUp != 0 ==>
      wall.removed && wall.direction != Right && r == wall.cell1 / w + 1 && c == wall.cell1 % w
    ensures Opening(wall, w, r, c) & 0xF0 == 0
    ensures Opening(wall, w, r, c) != 0 ==>
      Opening(wall, w, r, c) & (OpenRight | OpenDown | OpenLeft | OpenUp) != 0
  {
  }

  /** The bits of one wall between adjacent cells stay inside the grid. */
  lemma OpeningInsideGrid(wall: Wall, w: int, h: int, r: int, c: int)
    requires w > 0 && WallShape(w, h, wall)
    ensures Opening(wall, w, r, c) != 0 ==> 0 <= r < h && 0 <= c < w
    ensures Opening(wall, w, r, c) & OpenRight != 0 ==> c + 1 < w
    ensures Opening(wall, w, r, c) & OpenDown != 0 ==> r + 1 < h
    ensures Opening(wall, w, r, c) & OpenLeft != 0 ==> 1 <= c
    ensures Opening(wall, w, r, c) & OpenUp != 0 ==> 1 <= r
  {
    OpeningSource(wall, w, r, c);
    WallCell(w, h, wall);
  }

  /**
   * Removing walls between adjacent cells never opens a cell outside the
   * grid, nor any cell towards the border: a set bit always has a
   * neighbour inside the grid behind it.
   */
  lemma MaskInsideGrid(ws: seq<Wall>, w: int, h: int, r: int, c: int)
    requires w > 0
    requires forall k :: 0 <= k < |ws| ==> WallShape(w, h, ws[k])
    ensures MaskOf(ws, w, r, c) != 0 ==> 0 <= r < h && 0 <= c < w
    ensures MaskOf(ws, w, r, c) & OpenRight != 0 ==> c + 1 < w
    ensures MaskOf(ws, w, r, c) & OpenDown != 0 ==> r + 1 < h
    ensures MaskOf(ws, w, r, c) & OpenLeft != 0 ==> 1 <= c
    ensures MaskOf(ws, w, r, c) & OpenUp != 0 ==> 1 <= r
  {
    var bits: seq<bv8> := [0xFF, OpenRight, OpenDown, OpenLeft, OpenUp];
    forall b | 0 <= b < |bits| && MaskOf(ws, w, r, c) & bits[b] != 0
      ensures exists k :: 0 <= k < |ws| && Opening(ws[k], w, r, c) & bits[b] != 0
    {
      MaskBit(ws, w, r, c, bits[b]);
    }
    forall k | 0 <= k < |ws| {
      OpeningInsideGrid(ws[k], w, h, r, c);
    }
    assert MaskOf(ws, w, r, c) != 0 ==> MaskOf(ws, w, r, c) & bits[0] != 0;
  }

  /** Euclidean quotient and remainder by w determine the number. */
  lemma DivModDetermine(a: int, b: int, w: int)
    requires w > 0 && a / w == b / w && a % w == b % w
    ensures a == b
  {
    assert a == (a / w) * w + a % w;
    assert b == (b / w) * w + b % w;
  }

  /**
   * With no wall listed twice, the bit pair of each wall is set exactly
   * when that wall is removed.
   */
  lemma MaskMatchesWall(ws: seq<Wall>, w: int, h: int, j: int)
    requires w > 0 && 0 <= j < |ws|
    requires forall k :: 0 <= k < |ws| ==> WallShape(w, h, ws[k])
    requires NoDuplicateWalls(ws)
    ensures var r, c := ws[j].cell1 / w, ws[j].cell1 % w;
      ws[j].removed <==>
        if ws[j].direction == Right then MaskOf(ws, w, r, c) & OpenRight != 0
        else MaskOf(ws, w, r, c) & OpenDown != 0
  {
    var wall := ws[j];
    var r, c := wall.cell1 / w, wall.cell1 % w;
    var bit := if wall.direction == Right then OpenRight else OpenDown;
    MaskBit(ws, w, r, c, bit);
    if MaskOf(ws, w, r, c) & bit != 0 {
      var k :| 0 <= k < |ws| && Opening(ws[k], w, r, c) & bit != 0;
      OpeningSource(ws[k], w, r, c);
      assert WallShape(w, h, ws[k]) && WallShape(w, h, wall);
      DivModDetermine(ws[k].cell1, wall.cell1, w);
      assert k == j;
    }
    if wall.removed {
      assert Opening(ws[j], w, r, c) & bit != 0;
    }
  }

  /** Bits are only ever added: a bit set by a prefix of the walls stays set. */
  lemma MaskGrows(ws: seq<Wall>, k: nat, w: int, r: int, c: int, bit: bv8)
    requires w > 0 && k <= |ws|
    ensures MaskOf(ws[..k], w, r, c) & bit != 0 ==> MaskOf(ws, w, r, c) & bit != 0
  {
    if MaskOf(ws[..k], w, r, c) & bit != 0 {
      var j := MaskBitSource(ws[..k], w, r, c, bit);
      assert ws[..k][j] == ws[j];
      OpeningInMask(ws, j, w, r, c, bit);
    }
  }
}
