/**
 * The complete binary tree under the heap (MyLinkedHeapTree): a linked
 * tree whose nodes live in an arena keyed by their breadth-first number,
 * plus the frontier deque `positions` of the nodes that can still take a
 * child. `add` attaches at the deque's front and `remove` detaches the
 * deque's back, so both run without walking the tree.
 */
module HeapTree {
  import opened Wrappers
  import opened TreeIndex

  datatype TreeError = EmptyTree

  /** A node of an n-node tree that has fewer than two children. */
  predicate Open(i: int, n: nat) {
    1 <= i <= n && Right(i) > n
  }

  /**
   * The deque contents of an n-node complete tree: its open nodes in
   * breadth-first order, that is ceil(n/2) .. n.
   */
  function Frontier(n: nat): seq<int> {
    if n == 0 then [] else seq(n - (n + 1) / 2 + 1, j => (n + 1) / 2 + j)
  }

  /** The deque holds exactly the open nodes, each once, in breadth-first order. */
  lemma FrontierIsOpenNodes(n: nat)
    ensures forall i :: i in Frontier(n) <==> Open(i, n)
    ensures forall j, j' :: 0 <= j < j' < |Frontier(n)| ==> Frontier(n)[j] < Frontier(n)[j']
  {
    var f := Frontier(n);
    forall i | Open(i, n) ensures i in f {
      assert f[i - (n + 1) / 2] == i;
    }
  }

  /**
   * What `add` relies on: the deque's front is the parent of node n+1,
   * which is its left child when the front has none yet and its right
   * child otherwise; in the second case the front leaves the deque.
   */
  lemma FrontierAdd(n: nat)
    ensures n == 0 ==> Frontier(n + 1) == [1]
    ensures n > 0 ==> |Frontier(n)| > 0
    ensures n > 0 ==> var front := Frontier(n)[0];
      && (Left(front) > n ==> Left(front) == n + 1 && Frontier(n + 1) == Frontier(n) + [n + 1])
      && (Left(front) <= n ==> Right(front) == n + 1 && Frontier(n + 1) == Frontier(n)[1..] + [n + 1])
  {
    if n > 0 {
      var f, g := Frontier(n), Frontier(n + 1);
      if n % 2 == 1 {
        assert (n + 2) / 2 == (n + 1) / 2;
        assert g == f + [n + 1];
      } else {
        assert (n + 2) / 2 == (n + 1) / 2 + 1;
        assert g == f[1..] + [n + 1];
      }
    }
  }

  /**
   * What `remove` relies on: the deque's back is the last node n; once it
   * is detached the back is popped, and when n was a right child its
   * parent, open again, is pushed on the front.
   */
  lemma FrontierRemove(n: nat)
    requires n > 0
    ensures |Frontier(n)| > 0 && Frontier(n)[|Frontier(n)| - 1] == n
    ensures var f := Frontier(n);
      Frontier(n - 1) ==
        (if n > 1 && n == Right(Parent(n)) then [Parent(n)] else []) + f[..|f| - 1]
  {
    var f, g := Frontier(n), Frontier(n - 1);
    if n > 1 {
      if n % 2 == 1 {
        assert n / 2 + 1 == (n + 1) / 2;
        assert g == [n / 2] + f[..|f| - 1];
      } else {
        assert g == f[..|f| - 1];
      }
    }
  }

  /** The arena holds exactly nodes 1 .. |c|, node i holding c's i-th element. */
  ghost predicate Lists<E>(slots: map<int, E>, c: seq<E>) {
    (forall i :: i in slots <==> 1 <= i <= |c|) &&
    (forall i :: 1 <= i <= |c| ==> slots[i] == At(c, i))
  }

  /** Detaching the last node of an arena that lists c lists all of c but its last element. */
  lemma ListsDropLast<E>(slots: map<int, E>, c: seq<E>)
    requires Lists(slots, c) && |c| > 0
    ensures Lists(slots - {|c|}, c[..|c| - 1])
  {
  }

  /** Attaching node |c| + 1 to an arena that lists c lists c extended by x. */
  lemma ListsAppend<E>(slots: map<int, E>, c: seq<E>, x: E)
    requires Lists(slots, c)
    ensures Lists(slots[|c| + 1 := x], c + [x])
  {
  }

  class LinkedHeapTree<E> {
    /** The arena: the element stored at each node, by breadth-first number. */
    var slots: map<int, E>
    var size: nat
    /** The frontier deque (`_positions`). */
    var positions: seq<int>
    /** The elements in breadth-first order. */
    ghost var Contents: seq<E>

    /**
     * The tree is complete (its nodes are exactly 1 .. size), Contents
     * lists them, and the deque holds the open nodes in order.
     */
    ghost predicate Valid()
      reads this
    {
      size == |Contents| && Lists(slots, Contents) && positions == Frontier(size)
    }

    constructor ()
      ensures Valid() && Contents == [] && positions == []
    {
      slots, size, positions := map[], 0, [];
      Contents := [];
    }

    predicate IsEmpty()
      reads this
    {
      size == 0
    }

    predicate HasLeft(v: int)
      reads this
    {
      Left(v) in slots
    }

    predicate HasRight(v: int)
      reads this
    {
      Right(v) in slots
    }

    /** The element stored at node v (`position.element()`). */
    function Element(v: int): E
      reads this
      requires v in slots
    {
      slots[v]
    }

    /**
     * Adds `element` as the new last node and returns its position: the
     * root of an empty tree, otherwise a child of the deque's front.
     */
    method Add(element: E) returns (p: int)
      requires Valid()
      modifies this
      ensures Valid()
      ensures Contents == old(Contents) + [element]
      ensures p == size && p in slots && slots[p] == element
      ensures old(size) == 0 ==> p == 1 && positions == [1]
      ensures old(size) > 0 ==> Parent(p) == old(positions)[0]
      ensures old(size) > 0 ==>
        positions == (if p == Right(Parent(p)) then old(positions)[1..] else old(positions)) + [p]
    {
      AttachFacts(element);
      if IsEmpty() {
        p := 1;
        slots := map[p := element];
        positions := positions + [p];
      } else {
        var leftMost := positions[0];
        if !HasLeft(leftMost) {
          p := Left(leftMost);
          slots := slots[p := element];
          positions := positions + [p];
        } else {
          p := Right(leftMost);
          slots := slots[p := element];
          positions := positions + [p];
          // the front node now has both children
          positions := positions[1..];
        }
      }
      size := size + 1;
      Contents := Contents + [element];
    }

    /** What attaching node size + 1 does to the arena and the deque. */
    lemma AttachFacts(element: E)
      requires Valid()
      ensures Lists(slots[size + 1 := element], Contents + [element])
      ensures size == 0 ==> Frontier(size + 1) == [1]
      ensures size > 0 ==> |positions| > 0 && var front := positions[0];
        && (Left(front) > size ==> Left(front) == size + 1 && Frontier(size + 1) == positions + [size + 1])
        && (Left(front) <= size ==> Right(front) == size + 1 && Frontier(size + 1) == positions[1..] + [size + 1])
    {
      FrontierAdd(size);
      ListsAppend(slots, Contents, element);
    }

    /** The last node: the back of the deque. */
    function LastPosition(): (p: int)
      reads this
      requires Valid() && size > 0
      ensures p == size && p in slots && slots[p] == At(Contents, size)
    {
      FrontierRemove(size);
      positions[|positions| - 1]
    }

    /**
     * Removes the last node and returns its element; an empty tree is
     * refused and left as it was.
     */
    method Remove() returns (r: Result<E, TreeError>)
      requires Valid()
      modifies this
      ensures Valid()
      ensures old(size) == 0 ==> r == Failure(EmptyTree) && unchanged(this)
      ensures old(size) > 0 ==>
        r == Success(old(At(Contents, size))) && Contents == old(Contents[..size - 1])
      ensures old(size) > 0 ==> var last := old(size);
        positions == (if last > 1 && last == Right(Parent(last)) then [Parent(last)] else [])
                     + old(positions[..|positions| - 1])
    {
      if IsEmpty() {
        return Failure(EmptyTree);
      }
      var last := positions[|positions| - 1];
      DropLastFacts(last);
      var element := slots[last];
      slots := slots - {last};
      positions := positions[..|positions| - 1];
      if last > 1 && last == Right(Parent(last)) {
        // the parent can take a right child again
        positions := [Parent(last)] + positions;
      }
      size := size - 1;
      Contents := Contents[..size];
      r := Success(element);
    }

    /** What detaching the back of the deque does to the arena and the deque. */
    lemma DropLastFacts(last: int)
      requires Valid() && size > 0 && last == positions[|positions| - 1]
      ensures last == size && last in slots && slots[last] == At(Contents, size)
      ensures Lists(slots - {last}, Contents[..size - 1])
      ensures Frontier(size - 1) ==
        (if last > 1 && last == Right(Parent(last)) then [Parent(last)] else []) + positions[..|positions| - 1]
    {
      FrontierRemove(size);
      ListsDropLast(slots, Contents);
    }

    /** Exchanges the elements of nodes a and b (`swapElements`); the shape is untouched. */
    method SwapElements(a: int, b: int)
      requires Valid() && a in slots && b in slots
      modifies this
      ensures Valid() && size == old(size) && positions == old(positions)
      ensures Contents == Swap(old(Contents), a, b)
    {
      slots := slots[a := slots[b]][b := slots[a]];
      Contents := Swap(Contents, a, b);
    }
  }

  /** `add(x)` followed by `remove()` gives back x and the tree and deque as they were. */
  method AddThenRemove<E>(t: LinkedHeapTree<E>, x: E) returns (r: Result<E, TreeError>)
    requires t.Valid()
    modifies t
    ensures t.Valid() && r == Success(x)
    ensures t.Contents == old(t.Contents) && t.slots == old(t.slots)
    ensures t.positions == old(t.positions) && t.size == old(t.size)
  {
    ghost var before, c := t.slots, t.Contents;
    var _ := t.Add(x);
    r := t.Remove();
    assert t.Contents == (c + [x])[..|c|] == c;
    assert forall i :: i in t.slots <==> i in before;
    assert forall i :: i in t.slots ==> t.slots[i] == before[i];
    assert t.slots.Keys == before.Keys;
  }

  /**
   * The tree test that adds 24 and 16 and removes them again: the last node
   * goes first, and a third removal finds the tree empty.
   */
  method RemoveScenario() returns (first: Result<int, TreeError>, second: Result<int, TreeError>,
                                   third: Result<int, TreeError>)
    ensures first == Success(16) && second == Success(24) && third == Failure(EmptyTree)
  {
    var t := new LinkedHeapTree<int>();
    var p := t.Add(24);
    p := t.Add(16);
    first := t.Remove();
    second := t.Remove();
    third := t.Remove();
  }
}
