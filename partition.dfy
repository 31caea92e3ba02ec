/**
 * A partition of the elements 0..n-1 given as a labelling: element i
 * carries the label lab[i], and two elements are in the same class exactly
 * when their labels agree. The union-find structure and the Kruskal
 * specification both describe their classes this way.
 */
module Partition {

  /** Every element alone in its own class, labelled by itself. */
  function Identity(n: nat): (lab: seq<int>)
    ensures |lab| == n
    ensures forall i :: 0 <= i < n ==> lab[i] == i
  {
    seq(n, i => i)
  }

  /** Merges class `from` into class `to`: every element labelled `from` now carries `to`. */
  function Relabel(lab: seq<int>, from: int, to: int): (r: seq<int>)
    ensures |r| == |lab|
    ensures forall i :: 0 <= i < |lab| ==> r[i] == if lab[i] == from then to else lab[i]
  {
    seq(|lab|, i requires 0 <= i < |lab| => if lab[i] == from then to else lab[i])
  }

  /** The labels in use, one per class. */
  function Labels(lab: seq<int>): set<int>
  {
    set i | 0 <= i < |lab| :: lab[i]
  }

  /** The number of classes. */
  function ClassCount(lab: seq<int>): nat
  {
    |Labels(lab)|
  }

  /** The integers 0..n-1. */
  function Range(n: nat): (s: set<int>)
    ensures forall k :: k in s <==> 0 <= k < n
  {
    if n == 0 then {} else Range(n - 1) + {n - 1}
  }

  /** Two labellings describe the same partition (their labels may differ). */
  ghost predicate SameClasses(a: seq<int>, b: seq<int>)
  {
    |a| == |b| &&
    forall i, j :: 0 <= i < |a| && 0 <= j < |a| ==> (a[i] == a[j] <==> b[i] == b[j])
  }

  lemma {:induction false} RangeSize(n: nat)
    ensures |Range(n)| == n
  {
    if n > 0 {
      RangeSize(n - 1);
    }
  }

  /** n singletons are n classes. */
  lemma IdentityClassCount(n: nat)
    ensures Labels(Identity(n)) == Range(n)
    ensures ClassCount(Identity(n)) == n
  {
    var lab := Identity(n);
    forall k | k in Range(n) ensures k in Labels(lab) {
      assert lab[k] == k;
    }
    RangeSize(n);
  }

  /** A non-empty labelling has at least one class. */
  lemma SomeClass(lab: seq<int>)
    requires |lab| > 0
    ensures ClassCount(lab) >= 1
  {
    assert lab[0] in Labels(lab);
  }

  /**
   * Merging the class of y into the class of x, when they are different
   * classes, removes exactly y's label: one class fewer.
   */
  lemma RelabelMergesTwoClasses(lab: seq<int>, x: int, y: int)
    requires 0 <= x < |lab| && 0 <= y < |lab| && lab[x] != lab[y]
    ensures Labels(Relabel(lab, lab[y], lab[x])) == Labels(lab) - {lab[y]}
    ensures ClassCount(Relabel(lab, lab[y], lab[x])) == ClassCount(lab) - 1
  {
    var r := Relabel(lab, lab[y], lab[x]);
    forall v | v in Labels(r) ensures v in Labels(lab) - {lab[y]} {
      var i :| 0 <= i < |r| && r[i] == v;
      if lab[i] == lab[y] {
        assert v == lab[x];
      }
    }
    forall v | v in Labels(lab) - {lab[y]} ensures v in Labels(r) {
      var i :| 0 <= i < |lab| && lab[i] == v;
      assert r[i] == v;
    }
    assert lab[y] in Labels(lab);
  }

  /** The labels of a non-empty labelling: those of all but the last element, and the last. */
  lemma LabelsSnoc(a: seq<int>)
    requires |a| > 0
    ensures Labels(a) == Labels(a[..|a| - 1]) + {a[|a| - 1]}
  {
    var a' := a[..|a| - 1];
    assert forall i :: 0 <= i < |a'| ==> a'[i] == a[i];
  }

  lemma SameClassesPrefix(a: seq<int>, b: seq<int>, k: nat)
    requires SameClasses(a, b) && k <= |a|
    ensures SameClasses(a[..k], b[..k])
  {
    forall i, j | 0 <= i < k && 0 <= j < k ensures (a[..k][i] == a[..k][j] <==> b[..k][i] == b[..k][j]) {
      assert a[i] == a[j] <==> b[i] == b[j];
    }
  }

  /** Element k repeats an earlier label in a exactly when it does in b. */
  lemma SameClassesRepeat(a: seq<int>, b: seq<int>, k: nat)
    requires SameClasses(a, b) && k < |a|
    ensures a[k] in Labels(a[..k]) <==> b[k] in Labels(b[..k])
  {
    if a[k] in Labels(a[..k]) {
      var i :| 0 <= i < k && a[..k][i] == a[k];
      assert a[i] == a[k];
      assert b[..k][i] == b[k];
    }
    if b[k] in Labels(b[..k]) {
      var i :| 0 <= i < k && b[..k][i] == b[k];
      assert b[i] == b[k];
      assert a[..k][i] == a[k];
    }
  }

  /** Two labellings of the same partition have as many classes. */
  lemma {:induction false} SameClassesCount(a: seq<int>, b: seq<int>)
    requires SameClasses(a, b)
    ensures ClassCount(a) == ClassCount(b)
  {
    if |a| > 0 {
      var k := |a| - 1;
      SameClassesPrefix(a, b, k);
      SameClassesCount(a[..k], b[..k]);
      LabelsSnoc(a);
      LabelsSnoc(b);
      SameClassesRepeat(a, b, k);
    } else {
      assert Labels(a) == {} && Labels(b) == {};
    }
  }

  /**
   * Merging the classes of x and y in two labellings of the same partition
   * gives two labellings of the same partition, whichever of the two labels
   * survives in the first one.
   */
  lemma MergeKeepsSameClasses(a: seq<int>, b: seq<int>, a2: seq<int>, x: int, y: int)
    requires SameClasses(a, b)
    requires 0 <= x < |a| && 0 <= y < |a|
    requires a2 == Relabel(a, a[y], a[x]) || a2 == Relabel(a, a[x], a[y])
    ensures SameClasses(a2, Relabel(b, b[y], b[x]))
  {
    var b2 := Relabel(b, b[y], b[x]);
    forall i, j | 0 <= i < |a| && 0 <= j < |a| ensures (a2[i] == a2[j] <==> b2[i] == b2[j]) {
      assert a[i] == a[x] <==> b[i] == b[x];
      assert a[i] == a[y] <==> b[i] == b[y];
      assert a[j] == a[x] <==> b[j] == b[x];
      assert a[j] == a[y] <==> b[j] == b[y];
      assert a[i] == a[j] <==> b[i] == b[j];
    }
  }
}
