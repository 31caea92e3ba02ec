/**
 * The generation loop of problem5_new.cpp (randomized Kruskal) as a pure
 * function: the walls, in the order the shuffle left them, are visited one
 * by one; a wall whose two cells lie in different classes is removed and the
 * two classes merge, any other wall stays. Classes are a labelling (module
 * Partition) starting from singletons, so the specification does not depend
 * on which representative the union-find structure picks.
 */
module Kruskal {
  import opened Partition
  import opened Walls

  /** order lists each index 0..n-1 exactly once: the order a shuffle leaves n walls in. */
  predicate IsPermutation(order: seq<int>, n: nat)
  {
    |order| == n &&
    (forall i :: 0 <= i < n ==> 0 <= order[i] < n) &&
    (forall i, j :: 0 <= i < j < n ==> order[i] != order[j])
  }

  /** The walls rearranged by the permutation: position i receives wall order[i]. */
  function Shuffle(ws: seq<Wall>, order: seq<int>): (s: seq<Wall>)
    requires IsPermutation(order, |ws|)
    ensures |s| == |ws|
    ensures forall i :: 0 <= i < |ws| ==> s[i] == ws[order[i]]
  {
    seq(|ws|, i requires 0 <= i < |ws| => ws[order[i]])
  }

  /** The first m positions of a permutation hit m different indices. */
  lemma {:induction false} PrefixImageSize(order: seq<int>, n: nat, m: nat)
    requires IsPermutation(order, n) && m <= n
    ensures |set i | 0 <= i < m :: order[i]| == m
  {
    if m > 0 {
      PrefixImageSize(order, n, m - 1);
      var before := set i | 0 <= i < m - 1 :: order[i];
      assert (set i | 0 <= i < m :: order[i]) == before + {order[m - 1]};
      assert order[m - 1] !in before;
    }
  }

  /** A permutation hits every index. */
  lemma PermutationCovers(order: seq<int>, n: nat, k: int)
    requires IsPermutation(order, n) && 0 <= k < n
    ensures exists i :: 0 <= i < n && order[i] == k
  {
    var image := set i | 0 <= i < n :: order[i];
    var full := Range(n);
    PrefixImageSize(order, n, n);
    RangeSize(n);
    assert image <= full;
    assert image * full == image;
    assert |full - image| == 0;
    assert k in full;
    assert k in image;
  }

  /** Shuffling keeps exactly the same walls, and distinct walls stay distinct. */
  lemma ShuffleKeepsWalls(ws: seq<Wall>, order: seq<int>)
    requires IsPermutation(order, |ws|)
    ensures forall x :: x in Shuffle(ws, order) <==> x in ws
    ensures NoDuplicateWalls(ws) ==> NoDuplicateWalls(Shuffle(ws, order))
  {
    var s := Shuffle(ws, order);
    forall x | x in ws ensures x in s {
      var k :| 0 <= k < |ws| && ws[k] == x;
      PermutationCovers(order, |ws|, k);
      var i :| 0 <= i < |ws| && order[i] == k;
      assert s[i] == x;
    }
    if NoDuplicateWalls(ws) {
      forall j, k | 0 <= j < k < |s| ensures s[j].cell1 != s[k].cell1 || s[j].direction != s[k].direction {
        if order[j] < order[k] {
          assert ws[order[j]].cell1 != ws[order[k]].cell1 || ws[order[j]].direction != ws[order[k]].direction;
        } else {
          assert ws[order[k]].cell1 != ws[order[j]].cell1 || ws[order[k]].direction != ws[order[j]].direction;
        }
      }
    }
  }

  /** Both cells of every wall are among the n elements of the partition. */
  predicate CellsWithin(ws: seq<Wall>, n: nat)
  {
    forall j :: 0 <= j < |ws| ==> 0 <= ws[j].cell1 < n && 0 <= ws[j].cell2 < n
  }

  /** Walls between adjacent cells of a w × h grid join two of its w * h cells. */
  lemma ShapesWithin(ws: seq<Wall>, w: nat, h: nat)
    requires forall j :: 0 <= j < |ws| ==> WallShape(w, h, ws[j])
    ensures CellsWithin(ws, w * h)
  {
    forall j | 0 <= j < |ws| ensures 0 <= ws[j].cell1 < w * h && 0 <= ws[j].cell2 < w * h {
      assert WallShape(w, h, ws[j]);
    }
  }

  predicate NoneRemoved(ws: seq<Wall>)
  {
    forall j :: 0 <= j < |ws| ==> !ws[j].removed
  }

  /** The same wall, up to its removed flag. */
  predicate SameWall(a: Wall, b: Wall)
  {
    a.cell1 == b.cell1 && a.cell2 == b.cell2 && a.direction == b.direction
  }


  /** Visiting the first i + 1 walls is visiting the first i, then wall i. */
  lemma RunOneMore(ws: seq<Wall>, start: seq<int>, i: nat)
    requires CellsWithin(ws, |start|) && i < |ws|
    ensures CellsWithin(ws[..i], |start|) && CellsWithin(ws[..i + 1], |start|)
    ensures Run(ws[..i + 1], start) == Step(Run(ws[..i], start), ws[i])
  {
    assert ws[..i + 1][..i] == ws[..i];
  }

  /** Moving the boundary between the visited walls and the rest one wall on. */
  lemma VisitNext(ws: seq<Wall>, done: seq<Wall>, i: nat, x: Wall)
    requires |done| == i < |ws|
    ensures (done + ws[i..])[i := x] == (done + [x]) + ws[i + 1..]
    ensures done + ws[i..] == (done + [ws[i]]) + ws[i + 1..]
  {
    assert ws[i..] == [ws[i]] + ws[i + 1..];
  }

  /** The walls visited so far (with their flags) and the classes they leave. */
  datatype Progress = Progress(walls: seq<Wall>, classes: seq<int>)

  /** Visiting one wall: remove it and merge when its cells are in different classes. */
  function Step(s: Progress, wall: Wall): Progress
    requires 0 <= wall.cell1 < |s.classes| && 0 <= wall.cell2 < |s.classes|
  {
    var cls := s.classes;
    if cls[wall.cell1] != cls[wall.cell2] then
      Progress(s.walls + [wall.(removed := true)], Relabel(cls, cls[wall.cell2], cls[wall.cell1]))
    else
      Progress(s.walls + [wall], cls)
  }

  /**
   * One visit appends the wall with only its flag possibly changed, removes
   * it exactly when its cells were in different classes (or it was removed
   * already), leaves its cells in one class and keeps together cells that
   * were together.
   */
  lemma StepJoinsCells(s: Progress, wall: Wall)
    requires 0 <= wall.cell1 < |s.classes| && 0 <= wall.cell2 < |s.classes|
    ensures var t := Step(s, wall);
      |t.walls| == |s.walls| + 1 && t.walls[..|s.walls|] == s.walls &&
      SameWall(t.walls[|s.walls|], wall) &&
      (t.walls[|s.walls|].removed <==> wall.removed || s.classes[wall.cell1] != s.classes[wall.cell2]) &&
      |t.classes| == |s.classes| && t.classes[wall.cell1] == t.classes[wall.cell2]
    ensures forall i, j :: 0 <= i < |s.classes| && 0 <= j < |s.classes| && s.classes[i] == s.classes[j] ==>
      Step(s, wall).classes[i] == Step(s, wall).classes[j]
  {
  }

  /** Visiting the walls ws in order, from the classes `start`. */
  function Run(ws: seq<Wall>, start: seq<int>): (s: Progress)
    requires CellsWithin(ws, |start|)
    ensures |s.walls| == |ws| && |s.classes| == |start|
    ensures forall j :: 0 <= j < |ws| ==>
      SameWall(s.walls[j], ws[j]) && (ws[j].removed ==> s.walls[j].removed)
  {
    if ws == [] then Progress([], start)
    else Step(Run(ws[..|ws| - 1], start), ws[|ws| - 1])
  }

  /** Visiting only changes removed flags: wall shapes and distinctness carry over. */
  lemma RunKeepsShapes(ws: seq<Wall>, start: seq<int>, w: int, h: int)
    requires CellsWithin(ws, |start|)
    requires forall j :: 0 <= j < |ws| ==> WallShape(w, h, ws[j])
    requires NoDuplicateWalls(ws)
    ensures forall j :: 0 <= j < |ws| ==> WallShape(w, h, Run(ws, start).walls[j])
    ensures NoDuplicateWalls(Run(ws, start).walls)
  {
    var t := Run(ws, start).walls;
    assert forall j :: 0 <= j < |ws| ==> SameWall(t[j], ws[j]);
  }

  /** How many walls are flagged removed. */
  function RemovedCount(ws: seq<Wall>): nat
  {
    if ws == [] then 0
    else RemovedCount(ws[..|ws| - 1]) + (if ws[|ws| - 1].removed then 1 else 0)
  }

  /** The run over a prefix is the prefix of the run. */
  lemma {:induction false} RunPrefix(ws: seq<Wall>, start: seq<int>, k: nat)
    requires CellsWithin(ws, |start|) && k <= |ws|
    ensures Run(ws[..k], start).walls == Run(ws, start).walls[..k]
  {
    if k < |ws| {
      assert ws[..|ws| - 1][..k] == ws[..k];
      RunPrefix(ws[..|ws| - 1], start, k);
    } else {
      assert ws[..k] == ws;
    }
  }

  /**
   * A wall ends up removed exactly when its cells were in different classes
   * just before it was visited, and its cells are in one class just after.
   */
  lemma RemovedOnlyAcrossClasses(ws: seq<Wall>, start: seq<int>, j: nat)
    requires CellsWithin(ws, |start|) && NoneRemoved(ws) && j < |ws|
    ensures
      var before := Run(ws[..j], start).classes;
      var after := Run(ws[..j + 1], start).classes;
      (Run(ws, start).walls[j].removed <==> before[ws[j].cell1] != before[ws[j].cell2]) &&
      after[ws[j].cell1] == after[ws[j].cell2]
  {
    RunPrefix(ws, start, j + 1);
    assert ws[..j + 1][..j] == ws[..j];
  }

  /** Removed walls plus classes stay constant: every removal merges exactly two classes. */
  lemma {:induction false} RemovedPlusClasses(ws: seq<Wall>, start: seq<int>)
    requires CellsWithin(ws, |start|) && NoneRemoved(ws)
    ensures RemovedCount(Run(ws, start).walls) + ClassCount(Run(ws, start).classes) == ClassCount(start)
  {
    if ws != [] {
      var prefix := ws[..|ws| - 1];
      var wall := ws[|ws| - 1];
      RemovedPlusClasses(prefix, start);
      var s := Run(prefix, start);
      var t := Run(ws, start);
      assert t.walls[..|t.walls| - 1] == s.walls;
      if s.classes[wall.cell1] != s.classes[wall.cell2] {
        RelabelMergesTwoClasses(s.classes, wall.cell1, wall.cell2);
      }
    }
  }

  /** From n singletons, removed walls plus remaining classes make n, so at most n - 1 walls go. */
  lemma RemovedBound(ws: seq<Wall>, n: nat)
    requires CellsWithin(ws, n) && NoneRemoved(ws)
    ensures RemovedCount(Run(ws, Identity(n)).walls) + ClassCount(Run(ws, Identity(n)).classes) == n
    ensures n > 0 ==> RemovedCount(Run(ws, Identity(n)).walls) <= n - 1
  {
    RemovedPlusClasses(ws, Identity(n));
    IdentityClassCount(n);
    if n > 0 {
      SomeClass(Run(ws, Identity(n)).classes);
    }
  }

  /** At the end every wall, removed or not, joins two cells of one class. */
  lemma {:induction false} EveryWallSpanned(ws: seq<Wall>, start: seq<int>, j: nat)
    requires CellsWithin(ws, |start|) && j < |ws|
    ensures Run(ws, start).classes[ws[j].cell1] == Run(ws, start).classes[ws[j].cell2]
  {
    var prefix := ws[..|ws| - 1];
    if j < |ws| - 1 {
      EveryWallSpanned(prefix, start, j);
      assert prefix[j] == ws[j];
    }
  }
}
