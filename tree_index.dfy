/**
 * Breadth-first numbering of a complete binary tree, used as the arena
 * index of the linked tree: the root is node 1, node i has its left child
 * at 2i and its right child at 2i+1, and its parent at i/2. A sequence
 * that lists a tree's elements in breadth-first order holds node i's
 * element at index i - 1.
 */
module TreeIndex {

  function Parent(i: int): int { i / 2 }

  function Left(i: int): int { 2 * i }

  function Right(i: int): int { 2 * i + 1 }

  /** The element of node i in a breadth-first listing. */
  function At<T>(s: seq<T>, i: int): T
    requires 1 <= i <= |s|
  {
    s[i - 1]
  }

  /** Exchange the elements of nodes a and b, leaving every other node alone. */
  function Swap<T>(s: seq<T>, a: int, b: int): (r: seq<T>)
    requires 1 <= a <= |s| && 1 <= b <= |s|
    ensures |r| == |s| && At(r, a) == At(s, b) && At(r, b) == At(s, a)
    ensures forall i :: 1 <= i <= |s| && i != a && i != b ==> At(r, i) == At(s, i)
    ensures multiset(r) == multiset(s)
  {
    s[a - 1 := s[b - 1]][b - 1 := s[a - 1]]
  }

  /** The nodes whose parent is p are exactly p's two children. */
  lemma ChildrenOf(p: int)
    requires p >= 1
    ensures forall i :: Parent(i) == p <==> i == Left(p) || i == Right(p)
  {
  }
}
