/**
 * The disjoint-set forest of problem5_new.cpp: parent links with recursive
 * path compression in `find`, union by rank in `unite`, and `connected`.
 *
 * The partition it represents is kept as a ghost labelling `root`: root[i]
 * is the representative of i's class. The forest invariant ties `root` to the
 * parent links, and lemma RootIsRootOf shows it is the root one reaches by
 * following them.
 */
module UnionFind {
  import opened Partition

  /** The indices whose rank is strictly above that of x: shrinks along every parent link. */
  function Higher(rk: seq<int>, x: int): set<int>
    requires 0 <= x < |rk|
  {
    set j | 0 <= j < |rk| && rk[j] > rk[x]
  }

  /** Element i's link stays in range and, unless i is a root, leads to a strictly higher rank. */
  ghost predicate RankedAt(p: seq<int>, rk: seq<int>, i: int)
    requires |p| == |rk| && 0 <= i < |p|
  {
    0 <= p[i] < |p| && 0 <= rk[i] && (p[i] != i ==> rk[i] < rk[p[i]])
  }

  /** Parent links and ranks of a forest whose ranks increase towards the roots. */
  ghost predicate IsRanked(p: seq<int>, rk: seq<int>)
  {
    |p| == |rk| &&
    (forall i :: 0 <= i < |p| ==> 0 <= p[i] < |p|) &&
    (forall i :: 0 <= i < |p| ==> RankedAt(p, rk, i))
  }

  /** The root reached from x by following parent links (the reference definition). */
  function RootOf(p: seq<int>, rk: seq<int>, x: int): (r: int)
    requires IsRanked(p, rk) && 0 <= x < |p|
    ensures 0 <= r < |p| && p[r] == r
    ensures r != x ==> rk[x] < rk[r]
    decreases Higher(rk, x)
  {
    assert RankedAt(p, rk, x);
    if p[x] == x then x
    else
      assert p[x] in Higher(rk, x) - Higher(rk, p[x]);
      RootOf(p, rk, p[x])
  }

  /** The elements find visits from x: x and each ancestor up to and including its root. */
  function Path(p: seq<int>, rk: seq<int>, x: int): (s: set<int>)
    requires IsRanked(p, rk) && 0 <= x < |p|
    ensures x in s && RootOf(p, rk, x) in s
    ensures forall i :: i in s ==> 0 <= i < |p|
    decreases Higher(rk, x)
  {
    assert RankedAt(p, rk, x);
    if p[x] == x then {x}
    else
      assert p[x] in Higher(rk, x) - Higher(rk, p[x]);
      {x} + Path(p, rk, p[x])
  }

  /**
   * root[i] is a root, it is also the label of i's parent, a root labels
   * itself, and a non-root ranks below its label.
   */
  ghost predicate RootedAt(p: seq<int>, rk: seq<int>, root: seq<int>, i: int)
    requires |p| == |rk| == |root| && 0 <= i < |p|
  {
    0 <= p[i] < |p| && 0 <= root[i] < |p| &&
    p[root[i]] == root[i] &&
    root[p[i]] == root[i] &&
    (p[i] == i ==> root[i] == i) &&
    (root[i] != i ==> rk[i] < rk[root[i]])
  }

  /** `root` labels every element with the root of its tree in the ranked forest p. */
  ghost predicate IsForest(p: seq<int>, rk: seq<int>, root: seq<int>)
  {
    IsRanked(p, rk) && |root| == |p| &&
    (forall i :: 0 <= i < |p| ==> 0 <= root[i] < |p|) &&
    (forall i :: 0 <= i < |p| ==> RootedAt(p, rk, root, i))
  }

  /** The ghost labelling is exactly what following the parent links gives. */
  lemma {:induction false} RootIsRootOf(p: seq<int>, rk: seq<int>, root: seq<int>, x: int)
    requires IsForest(p, rk, root) && 0 <= x < |p|
    ensures root[x] == RootOf(p, rk, x)
    decreases Higher(rk, x)
  {
    assert RankedAt(p, rk, x) && RootedAt(p, rk, root, x);
    if p[x] != x {
      assert p[x] in Higher(rk, x) - Higher(rk, p[x]);
      RootIsRootOf(p, rk, root, p[x]);
    } else {
      assert root[x] == x;
    }
  }

  /** Representatives are roots and label themselves: find is idempotent. */
  lemma RootIsFixed(p: seq<int>, rk: seq<int>, root: seq<int>, x: int)
    requires IsForest(p, rk, root) && 0 <= x < |p|
    ensures p[root[x]] == root[x] && root[root[x]] == root[x]
    ensures root[x] == x <==> p[x] == x
  {
    assert RootedAt(p, rk, root, x);
    assert RootedAt(p, rk, root, root[x]);
  }

  /** Pointing x straight at its representative keeps the forest and every class. */
  lemma CompressKeepsForest(p: seq<int>, rk: seq<int>, root: seq<int>, x: int)
    requires IsForest(p, rk, root) && 0 <= x < |p|
    ensures IsForest(p[x := root[x]], rk, root)
  {
    var q := p[x := root[x]];
    RootIsFixed(p, rk, root, x);
    assert RootedAt(p, rk, root, x);
    forall i | 0 <= i < |q| ensures RankedAt(q, rk, i) {
      assert RankedAt(p, rk, i);
    }
    forall i | 0 <= i < |q| ensures RootedAt(q, rk, root, i) {
      assert RootedAt(p, rk, root, i);
      RootIsFixed(p, rk, root, i);
    }
  }

  /** The path from any element on x's path is part of x's path. */
  lemma {:induction false} PathClosed(p: seq<int>, rk: seq<int>, x: int, j: int)
    requires IsRanked(p, rk) && 0 <= x < |p| && j in Path(p, rk, x)
    ensures 0 <= j < |p| && Path(p, rk, j) <= Path(p, rk, x)
    decreases Higher(rk, x)
  {
    assert RankedAt(p, rk, x);
    if j != x {
      assert p[x] in Higher(rk, x) - Higher(rk, p[x]);
      PathClosed(p, rk, p[x], j);
    }
  }

  /** Every element on x's path is in x's class. */
  lemma {:induction false} PathSameRoot(p: seq<int>, rk: seq<int>, root: seq<int>, x: int, j: int)
    requires IsForest(p, rk, root) && 0 <= x < |p| && j in Path(p, rk, x)
    ensures 0 <= j < |p| && root[j] == root[x]
    decreases Higher(rk, x)
  {
    assert RankedAt(p, rk, x) && RootedAt(p, rk, root, x);
    if j != x {
      assert p[x] in Higher(rk, x) - Higher(rk, p[x]);
      PathSameRoot(p, rk, root, p[x], j);
    }
  }

  /**
   * Compressing x's path (every element on it re-pointed at its root, every
   * other link kept) changes any other path y only where it meets x's path:
   * the old and the new path of y agree outside x's old path.
   */
  lemma {:induction false} CompressedPath(p: seq<int>, q: seq<int>, rk: seq<int>, root: seq<int>, x: int, y: int)
    requires IsForest(p, rk, root) && IsForest(q, rk, root)
    requires 0 <= x < |p| && 0 <= y < |p|
    requires forall i :: 0 <= i < |p| ==> q[i] == if i in Path(p, rk, x) then root[i] else p[i]
    ensures Path(p, rk, y) <= Path(q, rk, y) + Path(p, rk, x)
    ensures Path(q, rk, y) <= Path(p, rk, y) + Path(p, rk, x)
    decreases Higher(rk, y)
  {
    var onX := Path(p, rk, x);
    assert RankedAt(p, rk, y) && RootedAt(p, rk, root, y);
    if y in onX {
      PathClosed(p, rk, x, y);
      PathSameRoot(p, rk, root, x, y);
      RootIsRootOf(p, rk, root, x);
      var top := root[y];
      assert RootedAt(p, rk, root, top);
      assert q[top] == top;
      assert top in onX;
      assert Path(q, rk, top) == {top};
      assert Path(q, rk, y) <= {y, top};
    } else if p[y] != y {
      assert p[y] in Higher(rk, y) - Higher(rk, p[y]);
      CompressedPath(p, q, rk, root, x, p[y]);
    }
  }

  /** Once x points at its root, find has nothing left to compress on x's path. */
  lemma PathCompressed(p: seq<int>, rk: seq<int>, root: seq<int>, x: int)
    requires IsForest(p, rk, root) && 0 <= x < |p| && p[x] == root[x]
    ensures forall i :: i in Path(p, rk, x) ==> p[i] == root[i]
  {
    RootIsFixed(p, rk, root, x);
    if p[x] != x {
      assert Path(p, rk, x) == {x} + Path(p, rk, root[x]);
      assert Path(p, rk, root[x]) == {root[x]};
    }
  }

  /**
   * Linking root `child` under root `top` (with `rk2` the ranks afterwards)
   * keeps the forest when rank still increases along the new link; the two
   * classes become one, labelled `top`.
   */
  lemma LinkKeepsForest(p: seq<int>, rk: seq<int>, root: seq<int>, child: int, top: int, rk2: seq<int>)
    requires IsForest(p, rk, root)
    requires 0 <= child < |p| && 0 <= top < |p| && child != top
    requires p[child] == child && p[top] == top
    requires rk2 == rk || rk2 == rk[top := rk[top] + 1]
    requires rk2[child] < rk2[top]
    ensures IsForest(p[child := top], rk2, Relabel(root, child, top))
  {
    var q := p[child := top];
    var root2 := Relabel(root, child, top);
    RootIsFixed(p, rk, root, child);
    RootIsFixed(p, rk, root, top);
    forall i | 0 <= i < |q| ensures RankedAt(q, rk2, i) {
      assert RankedAt(p, rk, i);
    }
    forall i | 0 <= i < |q| ensures RootedAt(q, rk2, root2, i) {
      assert RootedAt(p, rk, root, i);
      RootIsFixed(p, rk, root, i);
      assert RankedAt(p, rk, i);
      if i != child && root[i] == child {
        assert rk[i] < rk[child];
      }
    }
  }

  class DisjointSet {
    const parent: array<int>
    const rank: array<int>
    /** root[i] is the representative of i's class. */
    ghost var root: seq<int>

    ghost predicate Valid()
      reads this, parent, rank
    {
      parent != rank && parent.Length == rank.Length &&
      IsForest(parent[..], rank[..], root)
    }

    /** Rank strictly increases along every parent link. */
    lemma RanksIncrease()
      requires Valid()
      ensures forall i :: 0 <= i < parent.Length && parent[i] != i ==>
        0 <= parent[i] < parent.Length && rank[i] < rank[parent[i]]
    {
      forall i | 0 <= i < parent.Length && parent[i] != i
        ensures 0 <= parent[i] < parent.Length && rank[i] < rank[parent[i]]
      {
        assert RankedAt(parent[..], rank[..], i);
      }
    }

    /** Every element of 0..n-1 a singleton of rank 0. */
    constructor (n: nat)
      ensures Valid() && fresh(parent) && fresh(rank)
      ensures parent.Length == n && root == Identity(n)
      ensures forall i :: 0 <= i < n ==> parent[i] == i && rank[i] == 0
    {
      var p := new int[n];
      var i := 0;
      while i < n
        invariant 0 <= i <= n
        invariant forall j :: 0 <= j < i ==> p[j] == j
      {
        p[i] := i;
        i := i + 1;
      }
      parent := p;
      rank := new int[n](_ => 0);
      root := Identity(n);
    }

    /**
     * The representative of x's class; every element visited on the way is
     * re-pointed at it, and no class changes.
     */
    method Find(x: int) returns (r: int)
      requires Valid() && 0 <= x < parent.Length
      modifies parent
      ensures Valid()
      ensures r == root[x] && parent[r] == r && parent[x] == r
      ensures forall i :: 0 <= i < parent.Length ==>
        parent[i] == if i in old(Path(parent[..], rank[..], x)) then root[i] else old(parent[i])
      decreases Higher(rank[..], x)
    {
      ghost var p0 := parent[..];
      if parent[x] != x {
        var up := parent[x];
        assert RankedAt(parent[..], rank[..], x) && RootedAt(parent[..], rank[..], root, x);
        assert up in Higher(rank[..], x) - Higher(rank[..], up);
        var top := Find(up);
        ghost var p1 := parent[..];
        CompressKeepsForest(p1, rank[..], root, x);
        parent[x] := top;
        assert parent[..] == p1[x := root[x]];
        assert Path(p0, rank[..], x) == {x} + Path(p0, rank[..], up);
      }
      r := parent[x];
      RootIsFixed(parent[..], rank[..], root, x);
    }

    /**
     * Whether x and y are in the same class; the paths of both are
     * compressed and every other link is kept.
     */
    method Connected(x: int, y: int) returns (b: bool)
      requires Valid() && 0 <= x < parent.Length && 0 <= y < parent.Length
      modifies parent
      ensures Valid()
      ensures b <==> root[x] == root[y]
      ensures forall i :: 0 <= i < parent.Length ==>
        parent[i] == if i in old(Path(parent[..], rank[..], x) + Path(parent[..], rank[..], y))
          then root[i] else old(parent[i])
    {
      ghost var p0 := parent[..];
      var rootX := Find(x);
      ghost var p1 := parent[..];
      var rootY := Find(y);
      CompressedPath(p0, p1, rank[..], root, x, y);
      b := rootX == rootY;
    }

    /**
     * Merges the classes of x and y by rank; on equal ranks y's root goes
     * under x's root, whose rank grows by one. Nothing happens beyond the
     * path compression of `connected` when they are already in one class.
     * Every link other than the two roots' is as `connected` leaves it.
     */
    method Unite(x: int, y: int)
      requires Valid() && 0 <= x < parent.Length && 0 <= y < parent.Length
      modifies this`root, parent, rank
      ensures Valid()
      ensures root[x] == root[y]
      ensures forall i :: 0 <= i < parent.Length && i != old(root[x]) && i != old(root[y]) ==>
        parent[i] == if i in old(Path(parent[..], rank[..], x) + Path(parent[..], rank[..], y))
          then old(root[i]) else old(parent[i])
      ensures old(root[x]) == old(root[y]) ==>
        root == old(root) && rank[..] == old(rank[..]) && parent[old(root[x])] == old(root[x])
      ensures old(root[x]) != old(root[y]) && old(rank[root[x]]) < old(rank[root[y]]) ==>
        root == Relabel(old(root), old(root[x]), old(root[y])) && rank[..] == old(rank[..]) &&
        parent[old(root[x])] == old(root[y]) && parent[old(root[y])] == old(root[y])
      ensures old(root[x]) != old(root[y]) && old(rank[root[x]]) > old(rank[root[y]]) ==>
        root == Relabel(old(root), old(root[y]), old(root[x])) && rank[..] == old(rank[..]) &&
        parent[old(root[y])] == old(root[x]) && parent[old(root[x])] == old(root[x])
      ensures old(root[x]) != old(root[y]) && old(rank[root[x]]) == old(rank[root[y]]) ==>
        root == Relabel(old(root), old(root[y]), old(root[x])) &&
        rank[..] == old(rank[..])[old(root[x]) := old(rank[root[x]]) + 1] &&
        parent[old(root[y])] == old(root[x]) && parent[old(root[x])] == old(root[x])
    {
      var joined := Connected(x, y);
      RootIsFixed(parent[..], rank[..], root, x);
      RootIsFixed(parent[..], rank[..], root, y);
      if joined {
        return;
      }
      LinkClasses(x, y);
    }

    /**
     * What `unite` does once `connected` found x and y apart: both finds
     * return at once, since their paths are compressed, and the two roots
     * are linked by rank. Only the losing root's link changes.
     */
    method LinkClasses(x: int, y: int)
      requires Valid() && 0 <= x < parent.Length && 0 <= y < parent.Length
      requires root[x] != root[y] && parent[x] == root[x] && parent[y] == root[y]
      modifies this`root, parent, rank
      ensures Valid()
      ensures old(rank[root[x]]) < old(rank[root[y]]) ==>
        parent[..] == old(parent[..])[old(root[x]) := old(root[y])] && rank[..] == old(rank[..]) &&
        root == Relabel(old(root), old(root[x]), old(root[y]))
      ensures old(rank[root[x]]) > old(rank[root[y]]) ==>
        parent[..] == old(parent[..])[old(root[y]) := old(root[x])] && rank[..] == old(rank[..]) &&
        root == Relabel(old(root), old(root[y]), old(root[x]))
      ensures old(rank[root[x]]) == old(rank[root[y]]) ==>
        parent[..] == old(parent[..])[old(root[y]) := old(root[x])] &&
        rank[..] == old(rank[..])[old(root[x]) := old(rank[root[x]]) + 1] &&
        root == Relabel(old(root), old(root[y]), old(root[x]))
    {
      ghost var p1 := parent[..];
      PathCompressed(p1, rank[..], root, x);
      PathCompressed(p1, rank[..], root, y);
      var rootX := Find(x);
      var rootY := Find(y);
      assert parent[..] == p1;
      Link(rootX, rootY);
    }

    /**
     * The rank comparison of `unite` on two different roots: the root of
     * lower rank goes under the other; on equal ranks rootY goes under
     * rootX, whose rank grows by one. No other link changes.
     */
    method Link(rootX: int, rootY: int)
      requires Valid() && 0 <= rootX < parent.Length && 0 <= rootY < parent.Length
      requires rootX != rootY && parent[rootX] == rootX && parent[rootY] == rootY
      modifies this`root, parent, rank
      ensures Valid()
      ensures old(rank[rootX]) < old(rank[rootY]) ==>
        parent[..] == old(parent[..])[rootX := rootY] && rank[..] == old(rank[..]) &&
        root == Relabel(old(root), rootX, rootY)
      ensures old(rank[rootX]) > old(rank[rootY]) ==>
        parent[..] == old(parent[..])[rootY := rootX] && rank[..] == old(rank[..]) &&
        root == Relabel(old(root), rootY, rootX)
      ensures old(rank[rootX]) == old(rank[rootY]) ==>
        parent[..] == old(parent[..])[rootY := rootX] &&
        rank[..] == old(rank[..])[rootX := old(rank[rootX]) + 1] &&
        root == Relabel(old(root), rootY, rootX)
    {
      RootIsFixed(parent[..], rank[..], root, rootX);
      RootIsFixed(parent[..], rank[..], root, rootY);
      if rank[rootX] < rank[rootY] {
        LinkKeepsForest(parent[..], rank[..], root, rootX, rootY, rank[..]);
        parent[rootX] := rootY;
        root := Relabel(root, rootX, rootY);
      } else if rank[rootX] > rank[rootY] {
        LinkKeepsForest(parent[..], rank[..], root, rootY, rootX, rank[..]);
        parent[rootY] := rootX;
        root := Relabel(root, rootY, rootX);
      } else {
        LinkKeepsForest(parent[..], rank[..], root, rootY, rootX, rank[..][rootX := rank[rootX] + 1]);
        parent[rootY] := rootX;
        rank[rootX] := rank[rootX] + 1;
        root := Relabel(root, rootY, rootX);
      }
    }
  }
}
