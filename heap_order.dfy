/**
 * The heap's keys in breadth-first order, and the walks that restore heap
 * order on them. The heap class keeps its keys equal to the results of
 * these functions; the properties of heap order are proved here once.
 */
module HeapOrder {
  import opened TreeIndex

  /** Heap order: no node's key is smaller than its parent's. */
  predicate HeapOrdered(k: seq<int>) {
    forall i :: 2 <= i <= |k| ==> At(k, Parent(i)) <= At(k, i)
  }

  /** x is no larger than any key of k. */
  predicate LowerBound(x: int, k: seq<int>) {
    forall i :: 1 <= i <= |k| ==> x <= At(k, i)
  }

  predicate Sorted(s: seq<int>) {
    forall i, j :: 0 <= i < j < |s| ==> s[i] <= s[j]
  }

  /**
   * Heap order holds except possibly between p and its parent, and p's
   * parent is no greater than p's children: the state an up-heap step
   * leaves behind.
   */
  predicate OrderedExceptUp(k: seq<int>, p: int)
    requires 1 <= p <= |k|
  {
    && (forall i :: 2 <= i <= |k| && i != p ==> At(k, Parent(i)) <= At(k, i))
    && (p > 1 ==> forall c :: 2 <= c <= |k| && Parent(c) == p ==> At(k, Parent(p)) <= At(k, c))
  }

  /**
   * Heap order holds except possibly between p and its children, and p's
   * parent is no greater than p's children: the state a down-heap step
   * leaves behind.
   */
  predicate OrderedExceptDown(k: seq<int>, p: int)
    requires 1 <= p <= |k|
  {
    && (forall i :: 2 <= i <= |k| && Parent(i) != p ==> At(k, Parent(i)) <= At(k, i))
    && (p > 1 ==> forall c :: 2 <= c <= |k| && Parent(c) == p ==> At(k, Parent(p)) <= At(k, c))
  }

  /**
   * The up-heap walk (`reorderTree`): while p is not the root and its key
   * is strictly smaller than its parent's, swap the two and continue from
   * the parent.
   */
  function SiftUp(k: seq<int>, p: int): (r: seq<int>)
    requires 1 <= p <= |k|
    ensures |r| == |k| && multiset(r) == multiset(k)
    decreases p
  {
    if p == 1 || At(k, Parent(p)) <= At(k, p) then k
    else SiftUp(Swap(k, p, Parent(p)), Parent(p))
  }

  /** The child `downSort` compares with: the right one only when strictly smaller. */
  function SmallerChild(k: seq<int>, p: int): (c: int)
    requires 1 <= p && Left(p) <= |k|
    ensures Parent(c) == p && c <= |k|
    ensures forall d :: Parent(d) == p && 1 <= d <= |k| ==> At(k, c) <= At(k, d)
    ensures c == Right(p) <==> Right(p) <= |k| && At(k, Right(p)) < At(k, Left(p))
  {
    ChildrenOf(p);
    if Right(p) <= |k| && At(k, Right(p)) < At(k, Left(p)) then Right(p) else Left(p)
  }

  /**
   * The down-heap walk (`downSort`): while p has a left child and its key
   * is strictly greater than the smaller child's, swap the two and
   * continue from that child.
   */
  function SiftDown(k: seq<int>, p: int): (r: seq<int>)
    requires 1 <= p <= |k|
    ensures |r| == |k| && multiset(r) == multiset(k)
    decreases |k| - p
  {
    if Left(p) > |k| then k
    else
      var c := SmallerChild(k, p);
      if At(k, p) > At(k, c) then SiftDown(Swap(k, p, c), c) else k
  }

  /** The up-heap walk repairs the one violation an up-heap step allows. */
  lemma {:induction false} SiftUpOrders(k: seq<int>, p: int)
    requires 1 <= p <= |k| && OrderedExceptUp(k, p)
    ensures HeapOrdered(SiftUp(k, p))
    decreases p
  {
    if p == 1 || At(k, Parent(p)) <= At(k, p) {
    } else {
      var q := Parent(p);
      var k' := Swap(k, p, q);
      ChildrenOf(p);
      ChildrenOf(q);
      assert OrderedExceptUp(k', q);
      SiftUpOrders(k', q);
    }
  }

  /** The down-heap walk repairs the one violation a down-heap step allows. */
  lemma {:induction false} SiftDownOrders(k: seq<int>, p: int)
    requires 1 <= p <= |k| && OrderedExceptDown(k, p)
    ensures HeapOrdered(SiftDown(k, p))
    decreases |k| - p
  {
    ChildrenOf(p);
    if Left(p) > |k| {
    } else {
      var c := SmallerChild(k, p);
      if At(k, p) > At(k, c) {
        var k' := Swap(k, p, c);
        ChildrenOf(c);
        assert OrderedExceptDown(k', c);
        SiftDownOrders(k', c);
      }
    }
  }

  /** On a heap-ordered sequence the up-heap walk changes nothing. */
  lemma SiftUpStays(k: seq<int>, p: int)
    requires 1 <= p <= |k| && HeapOrdered(k)
    ensures SiftUp(k, p) == k
  {
  }

  /** Node a is p itself or one of p's ancestors. */
  predicate OnPath(a: int, p: int)
    decreases p
  {
    p >= 1 && (a == p || (p > 1 && OnPath(a, Parent(p))))
  }

  /** The up-heap walk from p touches only the nodes from p up to the root. */
  lemma {:induction false} SiftUpKeepsOffPath(k: seq<int>, p: int, i: int)
    requires 1 <= p <= |k| && 1 <= i <= |k| && !OnPath(i, p)
    ensures At(SiftUp(k, p), i) == At(k, i)
    decreases p
  {
    if p == 1 || At(k, Parent(p)) <= At(k, p) {
    } else {
      assert i != p && i != Parent(p) && !OnPath(i, Parent(p));
      SiftUpKeepsOffPath(Swap(k, p, Parent(p)), Parent(p), i);
    }
  }

  /** The root of a heap-ordered sequence holds its smallest key. */
  lemma {:induction false} RootIsMinimum(k: seq<int>, i: int)
    requires HeapOrdered(k) && 1 <= i <= |k|
    ensures At(k, 1) <= At(k, i)
    decreases i
  {
    if i > 1 {
      RootIsMinimum(k, Parent(i));
    }
  }

  /** `insert`: append the key as the new last node, then walk it up. */
  function InsertKeys(k: seq<int>, x: int): (r: seq<int>)
    ensures |r| == |k| + 1
  {
    SiftUp(k + [x], |k| + 1)
  }

  lemma InsertRestores(k: seq<int>, x: int)
    requires HeapOrdered(k)
    ensures HeapOrdered(InsertKeys(k, x))
    ensures multiset(InsertKeys(k, x)) == multiset(k) + multiset{x}
  {
    ChildrenOf(|k| + 1);
    SiftUpOrders(k + [x], |k| + 1);
  }

  /**
   * A key change at node p (`replaceKey`): store the key, walk down from
   * p, then walk up from p.
   */
  function ReplaceKeys(k: seq<int>, p: int, x: int): (r: seq<int>)
    requires 1 <= p <= |k|
    ensures |r| == |k|
    ensures multiset(r) == multiset(k) - multiset{At(k, p)} + multiset{x}
  {
    UpdateMultiset(k, p, x);
    SiftUp(SiftDown(k[p - 1 := x], p), p)
  }

  /** Storing x at node p trades one copy of p's key for x. */
  lemma UpdateMultiset(k: seq<int>, p: int, x: int)
    requires 1 <= p <= |k|
    ensures multiset(k[p - 1 := x]) == multiset(k) - multiset{At(k, p)} + multiset{x}
  {
    assert k == k[..p - 1] + [At(k, p)] + k[p..];
    assert k[p - 1 := x] == k[..p - 1] + [x] + k[p..];
  }

  /**
   * Whatever key arrives at node p of a heap, walking down and then up
   * from p restores heap order: at most one of the walks moves it.
   */
  lemma ReplaceRestores(k: seq<int>, p: int, x: int)
    requires HeapOrdered(k) && 1 <= p <= |k|
    ensures HeapOrdered(ReplaceKeys(k, p, x))
  {
    if p > 1 && x < At(k, Parent(p)) {
      ReplaceSmaller(k, p, x);
    } else {
      ReplaceNotSmaller(k, p, x);
    }
  }

  /** A key too small for its place: only the up-heap walk moves it. */
  lemma ReplaceSmaller(k: seq<int>, p: int, x: int)
    requires HeapOrdered(k) && 1 < p <= |k| && x < At(k, Parent(p))
    ensures HeapOrdered(ReplaceKeys(k, p, x))
  {
    var k1 := k[p - 1 := x];
    StoreSmaller(k, p, x);
    assert SiftDown(k1, p) == k1;
    SiftUpOrders(k1, p);
  }

  lemma StoreSmaller(k: seq<int>, p: int, x: int)
    requires HeapOrdered(k) && 1 < p <= |k| && x < At(k, Parent(p))
    ensures OrderedExceptUp(k[p - 1 := x], p)
    ensures Left(p) <= |k| ==> x < At(k, SmallerChild(k[p - 1 := x], p))
  {
    var k1 := k[p - 1 := x];
    ChildrenOf(p);
    forall i | 2 <= i <= |k| && i != p ensures At(k1, Parent(i)) <= At(k1, i) {
      if Parent(i) == p {
        assert At(k, Parent(p)) <= At(k, p) <= At(k, i);
      }
    }
    if Left(p) <= |k| {
      var c := SmallerChild(k1, p);
      assert At(k, Parent(p)) <= At(k, p) <= At(k, c);
    }
  }

  /** A key not too small for its place: only the down-heap walk moves it. */
  lemma ReplaceNotSmaller(k: seq<int>, p: int, x: int)
    requires HeapOrdered(k) && 1 <= p <= |k| && (p > 1 ==> At(k, Parent(p)) <= x)
    ensures HeapOrdered(ReplaceKeys(k, p, x))
  {
    var k1 := k[p - 1 := x];
    StoreNotSmaller(k, p, x);
    SiftDownOrders(k1, p);
    SiftUpStays(SiftDown(k1, p), p);
  }

  lemma StoreNotSmaller(k: seq<int>, p: int, x: int)
    requires HeapOrdered(k) && 1 <= p <= |k| && (p > 1 ==> At(k, Parent(p)) <= x)
    ensures OrderedExceptDown(k[p - 1 := x], p)
  {
    var k1 := k[p - 1 := x];
    ChildrenOf(p);
    forall i | 2 <= i <= |k| && Parent(i) != p ensures At(k1, Parent(i)) <= At(k1, i) {
    }
    if p > 1 {
      forall c | 2 <= c <= |k| && Parent(c) == p ensures At(k1, Parent(p)) <= At(k1, c) {
        assert At(k, Parent(p)) <= At(k, p) <= At(k, c);
      }
    }
  }

  /** Detaching last nodes keeps heap order. */
  lemma PrefixOrdered(k: seq<int>, m: int)
    requires HeapOrdered(k) && 0 <= m <= |k|
    ensures HeapOrdered(k[..m])
  {
    forall i | 2 <= i <= m ensures At(k[..m], Parent(i)) <= At(k[..m], i) {
      assert At(k, Parent(i)) <= At(k, i);
    }
  }

  /**
   * `remove` at node p: swap p's key with the last node's, detach the last
   * node, then walk down and up from p if p is still in the tree.
   */
  function RemoveKeys(k: seq<int>, p: int): (r: seq<int>)
    requires 1 <= p <= |k|
    ensures |r| == |k| - 1
    ensures multiset(r) == multiset(k) - multiset{At(k, p)}
  {
    var n := |k|;
    var swapped := Swap(k, n, p);
    var rest := swapped[..n - 1];
    assert swapped == rest + [At(k, p)];
    if p == n then rest else SiftUp(SiftDown(rest, p), p)
  }

  /** The two steps of `RemoveKeys` for callers that perform them one at a time. */
  lemma RemoveKeysSteps(k: seq<int>, p: int, rest: seq<int>)
    requires 1 <= p <= |k| && rest == Swap(k, |k|, p)[..|k| - 1]
    ensures p == |k| ==> RemoveKeys(k, p) == rest
    ensures p < |k| ==> RemoveKeys(k, p) == SiftUp(SiftDown(rest, p), p)
  {
  }

  /** Swapping node p with the last node and detaching it stores the last key at p. */
  lemma SwapDetach(k: seq<int>, p: int)
    requires 1 <= p <= |k|
    ensures p < |k| ==> Swap(k, |k|, p)[..|k| - 1] == k[..|k| - 1][p - 1 := At(k, |k|)]
    ensures p == |k| ==> Swap(k, |k|, p)[..|k| - 1] == k[..|k| - 1]
  {
    var n := |k|;
    var rest := Swap(k, n, p)[..n - 1];
    forall i | 1 <= i < n ensures At(rest, i) == (if i == p then At(k, n) else At(k, i)) {
    }
  }

  lemma RemoveRestores(k: seq<int>, p: int)
    requires HeapOrdered(k) && 1 <= p <= |k|
    ensures HeapOrdered(RemoveKeys(k, p))
  {
    PrefixOrdered(k, |k| - 1);
    RemoveViaReplace(k, p);
    if p < |k| {
      ReplaceRestores(k[..|k| - 1], p, At(k, |k|));
    }
  }

  /** Removal at p is detaching the last node, then replacing p's key with the detached one. */
  lemma RemoveViaReplace(k: seq<int>, p: int)
    requires 1 <= p <= |k|
    ensures p == |k| ==> RemoveKeys(k, p) == k[..|k| - 1]
    ensures p < |k| ==> RemoveKeys(k, p) == ReplaceKeys(k[..|k| - 1], p, At(k, |k|))
  {
    RemoveKeysSteps(k, p, Swap(k, |k|, p)[..|k| - 1]);
    SwapDetach(k, p);
  }

  /** The keys of a heap built by inserting xs one after another. */
  function InsertAll(xs: seq<int>): (r: seq<int>)
    ensures HeapOrdered(r) && multiset(r) == multiset(xs)
  {
    if xs == [] then []
    else
      var k := InsertAll(xs[..|xs| - 1]);
      InsertRestores(k, xs[|xs| - 1]);
      assert xs == xs[..|xs| - 1] + [xs[|xs| - 1]];
      InsertKeys(k, xs[|xs| - 1])
  }

  /** The keys `removeMin` returns, one call after another, until the heap is empty. */
  function Drain(k: seq<int>): (r: seq<int>)
    requires HeapOrdered(k)
    ensures multiset(r) == multiset(k)
    decreases |k|
  {
    if k == [] then []
    else
      var rest := RemoveKeys(k, 1);
      RemoveRestores(k, 1);
      assert At(k, 1) in multiset(k);
      [At(k, 1)] + Drain(rest)
  }

  /**
   * One step of `Drain` for a caller that removes one minimum at a time
   * and appends its key to what it has collected so far.
   */
  lemma DrainStep(collected: seq<int>, k: seq<int>, rest: seq<int>)
    requires HeapOrdered(k) && |k| > 0 && rest == RemoveKeys(k, 1)
    ensures HeapOrdered(rest)
    ensures (collected + [At(k, 1)]) + Drain(rest) == collected + Drain(k)
  {
    RemoveRestores(k, 1);
    assert Drain(k) == [At(k, 1)] + Drain(rest);
  }

  /** The root key is below every key of a heap-ordered sequence. */
  lemma RootBelowAll(k: seq<int>, x: int)
    requires HeapOrdered(k) && x in multiset(k)
    ensures At(k, 1) <= x
  {
    var i :| 0 <= i < |k| && k[i] == x;
    RootIsMinimum(k, i + 1);
  }

  lemma SortedCons(x: int, s: seq<int>)
    requires Sorted(s) && forall y :: y in multiset(s) ==> x <= y
    ensures Sorted([x] + s)
  {
    forall j | 0 <= j < |s| ensures x <= s[j] {
      assert s[j] in multiset(s);
    }
  }

  /** Draining a heap with `removeMin` yields its keys in nondecreasing order. */
  lemma {:induction false} DrainSorted(k: seq<int>)
    requires HeapOrdered(k)
    ensures Sorted(Drain(k))
    decreases |k|
  {
    if k != [] {
      var rest := RemoveKeys(k, 1);
      RemoveRestores(k, 1);
      DrainSorted(rest);
      var tail := Drain(rest);
      assert Drain(k) == [At(k, 1)] + tail;
      forall x | x in multiset(tail) ensures At(k, 1) <= x {
        RootBelowAll(k, x);
      }
      SortedCons(At(k, 1), tail);
    }
  }

  /** Two nondecreasing sequences with the same elements are the same sequence. */
  lemma {:induction false} SortedUnique(a: seq<int>, b: seq<int>)
    requires Sorted(a) && Sorted(b) && multiset(a) == multiset(b)
    ensures a == b
    decreases |a|
  {
    if a != [] {
      SortedHeadsEqual(a, b);
      SortedTail(a);
      SortedTail(b);
      SortedUnique(a[1..], b[1..]);
      assert a == [a[0]] + a[1..] && b == [b[0]] + b[1..];
    }
  }

  /** Nondecreasing sequences with the same elements start with the same element. */
  lemma SortedHeadsEqual(a: seq<int>, b: seq<int>)
    requires Sorted(a) && Sorted(b) && multiset(a) == multiset(b) && a != []
    ensures b != [] && a[0] == b[0]
  {
    assert a[0] in multiset(a);
    SortedHeadBelow(b, a[0]);
    assert b[0] in multiset(b);
    SortedHeadBelow(a, b[0]);
  }

  /** Dropping the head keeps a sequence nondecreasing and removes one copy of the head. */
  lemma SortedTail(a: seq<int>)
    requires Sorted(a) && a != []
    ensures Sorted(a[1..]) && multiset(a[1..]) == multiset(a) - multiset{a[0]}
  {
    assert a == [a[0]] + a[1..];
  }

  /** The head of a nondecreasing sequence is below each of its elements. */
  lemma SortedHeadBelow(a: seq<int>, y: int)
    requires Sorted(a) && y in multiset(a)
    ensures a[0] <= y
  {
    var i :| 0 <= i < |a| && a[i] == y;
  }

  /**
   * The heap test: a heap holding 11, 13, 64, 16 and 44 (such as the one
   * InsertAll builds from them) drains as 11, 13, 16, 44, 64.
   */
  lemma DrainExample(k: seq<int>)
    requires HeapOrdered(k) && multiset(k) == multiset([11, 13, 64, 16, 44])
    ensures Drain(k) == [11, 13, 16, 44, 64]
  {
    DrainSorted(k);
    ExampleSorted();
    SortedUnique(Drain(k), [11, 13, 16, 44, 64]);
  }

  /** The test's keys in ascending order are a permutation of the inserted ones. */
  lemma ExampleSorted()
    ensures Sorted([11, 13, 16, 44, 64])
    ensures multiset([11, 13, 64, 16, 44]) == multiset([11, 13, 16, 44, 64])
  {
    var sorted := [11, 13, 16, 44, 64];
    assert sorted[0] <= sorted[1] <= sorted[2] <= sorted[3] <= sorted[4];
    AdjacentSorted(sorted);
    ExamplePermutation([11, 13, 64, 16, 44], sorted);
  }

  lemma ExamplePermutation(inserted: seq<int>, sorted: seq<int>)
    requires inserted == [11, 13, 64, 16, 44] && sorted == [11, 13, 16, 44, 64]
    ensures multiset(inserted) == multiset(sorted)
  {
    var middle := Swap(inserted, 3, 4);
    assert Swap(middle, 4, 5) == sorted;
  }

  /** A sequence whose neighbours are in order is nondecreasing. */
  lemma {:induction false} AdjacentSorted(s: seq<int>)
    requires forall i :: 0 <= i < |s| - 1 ==> s[i] <= s[i + 1]
    ensures Sorted(s)
    decreases |s|
  {
    if |s| > 1 {
      var tail := s[1..];
      assert forall i :: 0 <= i < |tail| - 1 ==> tail[i] <= tail[i + 1] by {
        forall i | 0 <= i < |tail| - 1 ensures tail[i] <= tail[i + 1] {
          assert tail[i] == s[i + 1] && tail[i + 1] == s[i + 2];
        }
      }
      AdjacentSorted(tail);
      forall i, j | 0 <= i < j < |s| ensures s[i] <= s[j] {
        if i > 0 {
          assert s[i] == tail[i - 1] && s[j] == tail[j - 1];
        } else if j > 1 {
          assert s[1] == tail[0] && s[j] == tail[j - 1];
        }
      }
    }
  }

  lemma InsertAllStep(xs: seq<int>, x: int)
    ensures InsertAll(xs + [x]) == InsertKeys(InsertAll(xs), x)
  {
    assert (xs + [x])[..|xs|] == xs;
  }

  /** A key no smaller than its new parent's stays at the new last node. */
  lemma InsertStays(xs: seq<int>, x: int, k: seq<int>, xs': seq<int>, k': seq<int>)
    requires InsertAll(xs) == k && xs' == xs + [x] && k' == k + [x]
    requires |k| == 0 || At(k, Parent(|k| + 1)) <= x
    ensures InsertAll(xs') == k'
  {
    InsertAllStep(xs, x);
  }

  /** Inserting 11, 13, 64, 16, 44 moves nothing: each key is at least its parent's. */
  lemma InsertExample()
    ensures InsertAll([11, 13, 64, 16, 44]) == [11, 13, 64, 16, 44]
  {
    InsertStays([], 11, [], [11], [11]);
    InsertStays([11], 13, [11], [11, 13], [11, 13]);
    InsertStays([11, 13], 64, [11, 13], [11, 13, 64], [11, 13, 64]);
    InsertStays([11, 13, 64], 16, [11, 13, 64], [11, 13, 64, 16], [11, 13, 64, 16]);
    InsertStays([11, 13, 64, 16], 44, [11, 13, 64, 16], [11, 13, 64, 16, 44], [11, 13, 64, 16, 44]);
  }

  /**
   * `remove` as written: swap p with the last node, walk down from p, walk
   * up from p, and only then detach the last node, whose key is returned
   * together with the remaining keys.
   */
  function RemoveAsWrittenKeys(k: seq<int>, p: int): (r: (int, seq<int>))
    requires 1 <= p <= |k|
    ensures |r.1| == |k| - 1 && multiset(r.1) + multiset{r.0} == multiset(k)
  {
    var n := |k|;
    var walked := SiftUp(SiftDown(Swap(k, n, p), p), p);
    SplitLast(walked);
    (At(walked, n), walked[..n - 1])
  }

  /** A non-empty sequence is its prefix plus its last element. */
  lemma SplitLast(w: seq<int>)
    requires |w| > 0
    ensures multiset(w[..|w| - 1]) + multiset{At(w, |w|)} == multiset(w)
  {
    assert w == w[..|w| - 1] + [At(w, |w|)];
  }

  /** One step of the down-heap walk: p's key moves to the child c that `downSort` picks. */
  lemma SiftDownStep(k: seq<int>, p: int, c: int, k': seq<int>)
    requires 1 <= p && (c == Left(p) || c == Right(p)) && c <= |k|
    requires c == Left(p) ==> Right(p) > |k| || At(k, Left(p)) <= At(k, Right(p))
    requires c == Right(p) ==> At(k, Right(p)) < At(k, Left(p))
    requires At(k, p) > At(k, c) && k' == Swap(k, p, c)
    ensures SiftDown(k, p) == SiftDown(k', c)
  {
    assert SmallerChild(k, p) == c;
  }

  /** The down-heap walk stops at a node without children. */
  lemma SiftDownLeaf(k: seq<int>, p: int)
    requires 1 <= p <= |k| < Left(p)
    ensures SiftDown(k, p) == k
  {
  }

  /** The down-heap walk from the root in the as-written removal: 44 returns to the last node. */
  lemma WalkAsWritten()
    ensures SiftDown([44, 13, 64, 16, 11], 1) == [13, 11, 64, 16, 44]
  {
    var k1, k2 := [44, 13, 64, 16, 11], [13, 44, 64, 16, 11];
    assert Swap(k1, 1, 2) == k2;
    SiftDownStep(k1, 1, 2, k2);
    WalkAsWrittenTail();
  }

  lemma WalkAsWrittenTail()
    ensures SiftDown([13, 44, 64, 16, 11], 2) == [13, 11, 64, 16, 44]
  {
    var k2, k3 := [13, 44, 64, 16, 11], [13, 11, 64, 16, 44];
    assert Swap(k2, 2, 5) == k3;
    SiftDownStep(k2, 2, 5, k3);
    SiftDownLeaf(k3, 5);
  }

  /** The down-heap walk from the root once the target is detached first. */
  lemma WalkIntended()
    ensures SiftDown([44, 13, 64, 16], 1) == [13, 16, 64, 44]
  {
    var m1, m2 := [44, 13, 64, 16], [13, 44, 64, 16];
    assert Swap(m1, 1, 2) == m2;
    SiftDownStep(m1, 1, 2, m2);
    WalkIntendedTail();
  }

  lemma WalkIntendedTail()
    ensures SiftDown([13, 44, 64, 16], 2) == [13, 16, 64, 44]
  {
    var m2, m3 := [13, 44, 64, 16], [13, 16, 64, 44];
    assert Swap(m2, 2, 4) == m3;
    SiftDownStep(m2, 2, 4, m3);
    SiftDownLeaf(m3, 4);
  }

  /** `RemoveAsWrittenKeys` unfolded, for callers that know the walks' results. */
  lemma RemoveAsWrittenSteps(k: seq<int>, p: int, swapped: seq<int>, walked: seq<int>)
    requires 1 <= p <= |k| && swapped == Swap(k, |k|, p) && walked == SiftUp(SiftDown(swapped, p), p)
    ensures RemoveAsWrittenKeys(k, p) == (At(walked, |k|), walked[..|k| - 1])
  {
  }

  /** The up-heap walk from the root moves nothing. */
  lemma SiftUpAtRoot(k: seq<int>)
    requires |k| >= 1
    ensures SiftUp(k, 1) == k
  {
  }

  /**
   * On the heap the drain test builds, `removeMin` as written detaches 44
   * instead of 11: the down-heap walk carries 44 back to the last node and
   * leaves 11 under 13.
   */
  lemma RemoveAsWrittenCounterexample(k: seq<int>)
    requires k == [11, 13, 64, 16, 44]
    ensures RemoveAsWrittenKeys(k, 1) == (44, [13, 11, 64, 16])
    ensures !HeapOrdered(RemoveAsWrittenKeys(k, 1).1)
  {
    var swapped, walked := [44, 13, 64, 16, 11], [13, 11, 64, 16, 44];
    assert Swap(k, 5, 1) == swapped;
    WalkAsWritten();
    SiftUpAtRoot(walked);
    RemoveAsWrittenSteps(k, 1, swapped, walked);
    NotHeapOrdered(walked[..4]);
  }

  /** 11 under 13 breaks heap order. */
  lemma NotHeapOrdered(r: seq<int>)
    requires r == [13, 11, 64, 16, 44][..4]
    ensures r == [13, 11, 64, 16] && !HeapOrdered(r)
  {
    assert At(r, Parent(2)) > At(r, 2);
  }

  /** Detaching before walking, the same call removes 11 and keeps heap order. */
  lemma RemoveMinExample()
    ensures RemoveKeys([11, 13, 64, 16, 44], 1) == [13, 16, 64, 44]
  {
    assert Swap([11, 13, 64, 16, 44], 5, 1)[..4] == [44, 13, 64, 16];
    WalkIntended();
    assert SiftUp([13, 16, 64, 44], 1) == [13, 16, 64, 44];
  }
}
