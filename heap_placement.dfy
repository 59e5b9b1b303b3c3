/**
 * Where the heap's entries end up. The walks of HeapOrder decide how the
 * keys move; the functions here carry any sequence listed alongside the
 * keys (the entries themselves, in the heap class) through exactly the
 * same exchanges. So when keys tie, which entry sits at which node is
 * still decided, by the strict comparisons of the walks.
 */
module HeapPlacement {
  import opened TreeIndex
  import opened HeapOrder

  /**
   * The up-heap walk (`reorderTree`) on k, with every exchange it makes on
   * the keys also made on s.
   */
  function SiftUpWith<T>(k: seq<int>, s: seq<T>, p: int): (r: seq<T>)
    requires 1 <= p <= |k| == |s|
    ensures |r| == |s| && multiset(r) == multiset(s)
    decreases p
  {
    if p == 1 || At(k, Parent(p)) <= At(k, p) then s
    else SiftUpWith(Swap(k, p, Parent(p)), Swap(s, p, Parent(p)), Parent(p))
  }

  /** The node where the up-heap walk from p stops. */
  function SiftUpStop(k: seq<int>, p: int): (q: int)
    requires 1 <= p <= |k|
    ensures 1 <= q <= p && OnPath(q, p)
    decreases p
  {
    if p == 1 || At(k, Parent(p)) <= At(k, p) then p
    else SiftUpStop(Swap(k, p, Parent(p)), Parent(p))
  }

  /**
   * The down-heap walk (`downSort`) on k, with every exchange it makes on
   * the keys also made on s.
   */
  function SiftDownWith<T>(k: seq<int>, s: seq<T>, p: int): (r: seq<T>)
    requires 1 <= p <= |k| == |s|
    ensures |r| == |s| && multiset(r) == multiset(s)
    decreases |k| - p
  {
    if Left(p) > |k| then s
    else
      var c := SmallerChild(k, p);
      if At(k, p) > At(k, c) then SiftDownWith(Swap(k, p, c), Swap(s, p, c), c) else s
  }

  /** The node where the down-heap walk from p stops. */
  function SiftDownStop(k: seq<int>, p: int): (q: int)
    requires 1 <= p <= |k|
    ensures p <= q <= |k|
    decreases |k| - p
  {
    if Left(p) > |k| then p
    else
      var c := SmallerChild(k, p);
      if At(k, p) > At(k, c) then SiftDownStop(Swap(k, p, c), c) else p
  }

  /** Walk down from p, then up from p, carrying s along. */
  function WalkWith<T>(k: seq<int>, s: seq<T>, p: int): (r: seq<T>)
    requires 1 <= p <= |k| == |s|
    ensures |r| == |s|
  {
    SiftUpWith(SiftDown(k, p), SiftDownWith(k, s, p), p)
  }

  /** `insert`: e joins s at the new last node, with key x, and is walked up. */
  function InsertWith<T>(k: seq<int>, s: seq<T>, x: int, e: T): (r: seq<T>)
    requires |k| == |s|
    ensures |r| == |s| + 1
  {
    SiftUpWith(k + [x], s + [e], |k| + 1)
  }

  /** `replaceKey`: node p's key becomes x, and p's element is walked down and up. */
  function ReplaceWith<T>(k: seq<int>, s: seq<T>, p: int, x: int): (r: seq<T>)
    requires 1 <= p <= |k| == |s|
    ensures |r| == |s|
  {
    WalkWith(k[p - 1 := x], s, p)
  }

  /**
   * `remove` at node p: p and the last node are exchanged, the last node
   * is detached, and what arrived at p is walked down and up.
   */
  function RemoveWith<T>(k: seq<int>, s: seq<T>, p: int): (r: seq<T>)
    requires 1 <= p <= |k| == |s|
    ensures |r| == |s| - 1
  {
    var n := |k|;
    var rest := Swap(s, n, p)[..n - 1];
    if p == n then rest else WalkWith(Swap(k, n, p)[..n - 1], rest, p)
  }

  /** Carried along on the keys themselves, the up-heap walk is `SiftUp`. */
  lemma {:induction false} SiftUpWithKeys(k: seq<int>, p: int)
    requires 1 <= p <= |k|
    ensures SiftUpWith(k, k, p) == SiftUp(k, p)
    decreases p
  {
    if p > 1 && At(k, Parent(p)) > At(k, p) {
      SiftUpWithKeys(Swap(k, p, Parent(p)), Parent(p));
    }
  }

  /** Carried along on the keys themselves, the down-heap walk is `SiftDown`. */
  lemma {:induction false} SiftDownWithKeys(k: seq<int>, p: int)
    requires 1 <= p <= |k|
    ensures SiftDownWith(k, k, p) == SiftDown(k, p)
    decreases |k| - p
  {
    if Left(p) <= |k| {
      var c := SmallerChild(k, p);
      if At(k, p) > At(k, c) {
        SiftDownWithKeys(Swap(k, p, c), c);
      }
    }
  }

  /** Carried along on the keys themselves, insertion is `InsertKeys`. */
  lemma InsertFollowsKeys(k: seq<int>, x: int)
    ensures InsertWith(k, k, x, x) == InsertKeys(k, x)
  {
    SiftUpWithKeys(k + [x], |k| + 1);
  }

  /** Carried along on the keys themselves, the down-and-up walk is `SiftUp` after `SiftDown`. */
  lemma WalkFollowsKeys(k: seq<int>, p: int)
    requires 1 <= p <= |k|
    ensures WalkWith(k, k, p) == SiftUp(SiftDown(k, p), p)
  {
    SiftDownWithKeys(k, p);
    SiftUpWithKeys(SiftDown(k, p), p);
  }

  /** Carried along on the keys themselves, a key change is `ReplaceKeys`. */
  lemma ReplaceFollowsKeys(k: seq<int>, p: int, x: int)
    requires 1 <= p <= |k|
    ensures ReplaceWith(k, k[p - 1 := x], p, x) == ReplaceKeys(k, p, x)
  {
    WalkFollowsKeys(k[p - 1 := x], p);
  }

  /** Carried along on the keys themselves, removal is `RemoveKeys`. */
  lemma RemoveFollowsKeys(k: seq<int>, p: int)
    requires 1 <= p <= |k|
    ensures RemoveWith(k, k, p) == RemoveKeys(k, p)
  {
    if p < |k| {
      WalkFollowsKeys(Swap(k, |k|, p)[..|k| - 1], p);
    }
  }

  /** The up-heap walk leaves every element off the path from p to the root where it was. */
  lemma {:induction false} SiftUpWithKeepsOffPath<T>(k: seq<int>, s: seq<T>, p: int, i: int)
    requires 1 <= p <= |k| == |s| && 1 <= i <= |k| && !OnPath(i, p)
    ensures At(SiftUpWith(k, s, p), i) == At(s, i)
    decreases p
  {
    if p > 1 && At(k, Parent(p)) > At(k, p) {
      assert i != p && i != Parent(p) && !OnPath(i, Parent(p));
      SiftUpWithKeepsOffPath(Swap(k, p, Parent(p)), Swap(s, p, Parent(p)), Parent(p), i);
    }
  }

  /** The element that starts the up-heap walk at p comes to rest at `SiftUpStop`. */
  lemma {:induction false} SiftUpWithRests<T>(k: seq<int>, s: seq<T>, p: int)
    requires 1 <= p <= |k| == |s|
    ensures At(SiftUpWith(k, s, p), SiftUpStop(k, p)) == At(s, p)
    decreases p
  {
    if p > 1 && At(k, Parent(p)) > At(k, p) {
      SiftUpWithRests(Swap(k, p, Parent(p)), Swap(s, p, Parent(p)), Parent(p));
    }
  }

  /** If c is below or at q and p is c's parent, p is below or at q too. */
  lemma {:induction false} ParentOnPath(c: int, p: int, q: int)
    requires c > 1 && p == Parent(c) && OnPath(c, q)
    ensures OnPath(p, q)
    decreases q
  {
    if c != q {
      ParentOnPath(c, p, Parent(q));
    }
  }

  /** The down-heap walk from p stops at p or at a node below it. */
  lemma {:induction false} SiftDownStopBelow(k: seq<int>, p: int)
    requires 1 <= p <= |k|
    ensures OnPath(p, SiftDownStop(k, p))
    decreases |k| - p
  {
    if Left(p) <= |k| {
      var c := SmallerChild(k, p);
      if At(k, p) > At(k, c) {
        SiftDownStopBelow(Swap(k, p, c), c);
        ChildrenOf(p);
        ParentOnPath(c, p, SiftDownStop(k, p));
      }
    }
  }

  /**
   * The down-heap walk leaves every element off the path from p down to
   * where it stops where it was: the nodes on that path are the ancestors
   * of the stop that are numbered p or more.
   */
  lemma {:induction false} SiftDownWithKeepsOffPath<T>(k: seq<int>, s: seq<T>, p: int, i: int)
    requires 1 <= p <= |k| == |s| && 1 <= i <= |k|
    requires !(OnPath(i, SiftDownStop(k, p)) && p <= i)
    ensures At(SiftDownWith(k, s, p), i) == At(s, i)
    decreases |k| - p
  {
    if Left(p) <= |k| {
      var c := SmallerChild(k, p);
      if At(k, p) > At(k, c) {
        var k', s' := Swap(k, p, c), Swap(s, p, c);
        SiftDownStopBelow(k, p);
        SiftDownStopBelow(k', c);
        SiftDownWithKeepsOffPath(k', s', c, i);
      }
    }
  }

  /** The element that starts the down-heap walk at p comes to rest at `SiftDownStop`. */
  lemma {:induction false} SiftDownWithRests<T>(k: seq<int>, s: seq<T>, p: int)
    requires 1 <= p <= |k| == |s|
    ensures At(SiftDownWith(k, s, p), SiftDownStop(k, p)) == At(s, p)
    decreases |k| - p
  {
    if Left(p) <= |k| {
      var c := SmallerChild(k, p);
      if At(k, p) > At(k, c) {
        SiftDownWithRests(Swap(k, p, c), Swap(s, p, c), c);
      }
    }
  }

  /**
   * Ties go left in `downSort`: when p's two children hold equal keys,
   * both smaller than p's, the element of the left child is the one that
   * moves up to p.
   */
  lemma SiftDownTieGoesLeft<T>(k: seq<int>, s: seq<T>, p: int)
    requires 1 <= p && Right(p) <= |k| == |s|
    requires At(k, Left(p)) == At(k, Right(p)) < At(k, p)
    ensures At(SiftDownWith(k, s, p), p) == At(s, Left(p))
  {
    ChildrenOf(p);
    var c := Left(p);
    assert SmallerChild(k, p) == c;
    var k', s' := Swap(k, p, c), Swap(s, p, c);
    assert SiftDownWith(k, s, p) == SiftDownWith(k', s', c);
    SiftDownWithKeepsOffPath(k', s', c, p);
  }
}
