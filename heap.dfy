/**
 * The adaptable priority queue (MyHeap): a min-heap over the linked
 * complete tree, whose entries record the node that holds them so that
 * any entry, not only the minimum, can be removed in logarithmic time.
 * Keys are integers under their usual order.
 */
module AdaptableHeap {
  import opened Wrappers
  import opened TreeIndex
  import opened HeapTree
  import opened HeapEntry
  import opened HeapOrder
  import opened HeapPlacement

  datatype HeapError = EmptyPriorityQueue | InvalidEntry

  /** IllegalStateException and IllegalArgumentException of `setComparator`. */
  datatype ComparatorError = NotEmpty | NullComparator

  /** The one key order this model has: integers compared by sign. */
  datatype Comparator = IntegerComparator

  /** Every entry of s still has the key and value it had in the old state. */
  twostate predicate KeysAndValuesKept<V>(s: set<Entry<V>>)
    reads s
  {
    forall e :: e in s ==> e.key == old(e.key) && e.value == old(e.value)
  }

  class Heap<V> {
    const tree: LinkedHeapTree<Entry<V>>
    /** The entries' keys in breadth-first order. */
    ghost var Keys: seq<int>
    /** The entries this heap may update; every entry held by a node is one of them. */
    ghost var Entries: set<Entry<V>>

    /** Every entry's position names the node that holds it. */
    ghost predicate LocatorsConsistent()
      reads this, tree, Entries
    {
      forall i :: 1 <= i <= |tree.Contents| && At(tree.Contents, i) in Entries ==>
        At(tree.Contents, i).position == i
    }

    /**
     * The tree is complete, every entry it holds is one of Entries, Keys
     * lists the entries' keys, and the locators are right.
     */
    ghost predicate Consistent()
      reads this, tree, Entries
    {
      && tree.Valid()
      && |Keys| == |tree.Contents|
      && (forall j :: 0 <= j < |tree.Contents| ==> tree.Contents[j] in Entries)
      && (forall i :: 1 <= i <= |Keys| ==> At(tree.Contents, i).key == At(Keys, i))
      && LocatorsConsistent()
    }

    ghost predicate Valid()
      reads this, tree, Entries
    {
      Consistent() && HeapOrdered(Keys)
    }

    constructor ()
      ensures Valid() && Keys == [] && tree.Contents == [] && Entries == {} && fresh(tree)
    {
      tree := new LinkedHeapTree();
      Keys := [];
      Entries := {};
    }

    function Size(): (n: nat)
      reads this, tree, Entries
      requires Consistent()
      ensures n == |Keys|
    {
      tree.size
    }

    function IsEmpty(): (b: bool)
      reads this, tree, Entries
      requires Consistent()
      ensures b <==> Size() == 0
    {
      tree.IsEmpty()
    }

    /** The entry's position names a node of this tree, and that node holds it. */
    predicate Owns(entry: Entry<V>)
      reads this, tree, entry
    {
      entry.position in tree.slots && tree.slots[entry.position] == entry
    }

    lemma OwnsIsMembership(entry: Entry<V>)
      requires Consistent()
      ensures Owns(entry) <==> entry in tree.Contents
    {
      if entry in tree.Contents {
        var j :| 0 <= j < |tree.Contents| && tree.Contents[j] == entry;
        assert At(tree.Contents, j + 1) == entry;
      }
    }

    /** A null handle is refused; any other handle is an entry of this model. */
    static function CheckAndConvertEntry(entry: Entry?<V>): (r: Result<Entry<V>, HeapError>)
      ensures r.Success? <==> entry != null
      ensures r.Success? ==> r.value == entry
      ensures r.Failure? ==> r.error == InvalidEntry
    {
      if entry == null then Failure(InvalidEntry)
      else var checked: Entry<V> := entry; Success(checked)
    }

    /** Refused on a non-empty heap first, then on a missing comparator; the heap never changes. */
    method SetComparator(comparator: Option<Comparator>) returns (r: Result<(), ComparatorError>)
      requires Consistent()
      ensures !IsEmpty() ==> r == Failure(NotEmpty)
      ensures IsEmpty() && comparator.None? ==> r == Failure(NullComparator)
      ensures r.Success? <==> IsEmpty() && comparator.Some?
    {
      if !IsEmpty() {
        return Failure(NotEmpty);
      }
      if comparator.None? {
        return Failure(NullComparator);
      }
      r := Success(());
    }

    /** The root entry, whose key is the smallest; an empty heap is refused. */
    method Min() returns (r: Result<Entry<V>, HeapError>)
      requires Valid()
      ensures r.Failure? <==> |Keys| == 0
      ensures r.Failure? ==> r.error == EmptyPriorityQueue
      ensures r.Success? ==> r.value == At(tree.Contents, 1) && r.value.position == 1
      ensures r.Success? ==> LowerBound(r.value.key, Keys)
    {
      if IsEmpty() {
        return Failure(EmptyPriorityQueue);
      }
      r := Success(tree.Element(1));
      forall i | 1 <= i <= |Keys| ensures At(Keys, 1) <= At(Keys, i) {
        RootIsMinimum(Keys, i);
      }
    }

    /**
     * Exchanges the entries of nodes a and b and sets each entry's position
     * to the node it now occupies; keys and values stay with their entries.
     */
    method SwapNodes(a: int, b: int)
      requires Consistent() && 1 <= a <= |Keys| && 1 <= b <= |Keys|
      modifies this, tree, At<Entry<V>>(tree.Contents, a)`position, At<Entry<V>>(tree.Contents, b)`position
      ensures Consistent() && Entries == old(Entries)
      ensures tree.Contents == Swap(old(tree.Contents), a, b) && Keys == Swap(old(Keys), a, b)
      ensures KeysAndValuesKept(Entries)
    {
      tree.SwapElements(a, b);
      var first := tree.Element(a);
      var second := tree.Element(b);
      first.SetPosition(a);
      second.SetPosition(b);
      Keys := Swap(Keys, a, b);
    }

    /**
     * `swapElements` followed by `swapElementPositions` as written: the
     * positions are exchanged after the entries have moved, so each moved
     * entry is given the node it just left.
     */
    method SwapAsWritten(first: int, second: int)
      requires Consistent() && 1 <= first <= |Keys| && 1 <= second <= |Keys|
      modifies this, tree, At<Entry<V>>(tree.Contents, first)`position, At<Entry<V>>(tree.Contents, second)`position
      ensures tree.Contents == Swap(old(tree.Contents), first, second)
      ensures At(tree.Contents, first).position == second && At(tree.Contents, second).position == first
      ensures first != second ==> !LocatorsConsistent()
    {
      tree.SwapElements(first, second);
      var e1 := tree.Element(first);
      var e2 := tree.Element(second);
      e1.SetPosition(second);
      e2.SetPosition(first);
      Keys := Swap(Keys, first, second);
    }

    /** Adds a fresh entry at the next free node and walks it up (`insert`). */
    method Insert(key: int, value: V) returns (entry: Entry<V>)
      requires Valid()
      modifies this, tree, Entries
      ensures Valid() && fresh(entry) && Entries == old(Entries) + {entry}
      ensures entry.key == key && entry.value == value
      ensures 1 <= entry.position <= |Keys| && At(tree.Contents, entry.position) == entry
      ensures Keys == InsertKeys(old(Keys), key) && multiset(Keys) == multiset(old(Keys)) + multiset{key}
      ensures multiset(tree.Contents) == multiset(old(tree.Contents)) + multiset{entry}
      ensures KeysAndValuesKept(old(Entries))
      ensures tree.Contents == InsertWith(old(Keys), old(tree.Contents), key, entry)
      ensures entry.position == SiftUpStop(old(Keys) + [key], |old(Keys)| + 1)
    {
      entry := AppendEntry(key, value);
      label appended:
      // the source discards where the entry comes to rest; its locator records it
      var restingPosition := ReorderTree(entry.position);
      forall e | e in old(Entries) ensures e.key == old(e.key) && e.value == old(e.value) {
        assert e in old@appended(Entries);
      }
      InsertRestores(old(Keys), key);
    }

    /** Stores a fresh entry at the new last node; nothing moves yet. */
    method AppendEntry(key: int, value: V) returns (entry: Entry<V>)
      requires Consistent()
      modifies this, tree
      ensures Consistent() && fresh(entry) && Entries == old(Entries) + {entry}
      ensures entry.key == key && entry.value == value && entry.position == |Keys|
      ensures Keys == old(Keys) + [key] && tree.Contents == old(tree.Contents) + [entry]
      ensures KeysAndValuesKept(old(Entries))
    {
      entry := new Entry(key, value);
      var node := tree.Add(entry);
      entry.SetPosition(node);
      Keys := Keys + [key];
      Entries := Entries + {entry};
      forall i | 1 <= i <= |Keys|
        ensures At(tree.Contents, i).key == At(Keys, i) && At(tree.Contents, i).position == i
      {
        if i < |Keys| {
          assert At(tree.Contents, i) == old(At(tree.Contents, i));
        }
      }
    }

    /**
     * Removes any entry of this heap (`remove`): the last node's entry takes
     * its place, the last node is detached, and the moved entry is walked
     * down and then up from that node. The removed entry's position still
     * names the last node, from which it was detached.
     */
    method Remove(entry: Entry?<V>) returns (r: Result<Entry<V>, HeapError>)
      requires Valid()
      modifies this, tree, Entries
      ensures Valid()
      ensures r.Failure? <==> entry == null || entry !in old(tree.Contents)
      ensures r.Failure? ==> r.error == InvalidEntry && unchanged(this, tree)
      ensures r.Success? ==> r.value == entry && 1 <= old(r.value.position) <= old(|Keys|)
      ensures r.Success? ==> Keys == RemoveKeys(old(Keys), old(r.value.position))
      ensures r.Success? ==> multiset(tree.Contents) == multiset(old(tree.Contents)) - multiset{r.value}
      ensures r.Success? ==> r.value.key == old(r.value.key) && r.value.value == old(r.value.value)
      ensures r.Success? ==> Entries == old(Entries) - {r.value}
      ensures r.Success? ==> tree.Contents == RemoveWith(old(Keys), old(tree.Contents), old(r.value.position))
      ensures KeysAndValuesKept(old(Entries))
    {
      var checked := CheckAndConvertEntry(entry);
      if checked.Failure? {
        return Failure(checked.error);
      }
      var e := checked.value;
      OwnsIsMembership(e);
      if IsEmpty() || e.position == NoPosition || !Owns(e) {
        return Failure(InvalidEntry);
      }
      assert At(tree.Contents, e.position) == e;
      var removed := RemoveNode(e.position);
      r := Success(removed);
    }

    /** Removes and returns the entry with the smallest key (`removeMin`). */
    method RemoveMin() returns (r: Result<Entry<V>, HeapError>)
      requires Valid()
      modifies this, tree, Entries
      ensures Valid()
      ensures r.Failure? <==> old(|Keys|) == 0
      ensures r.Failure? ==> r.error == EmptyPriorityQueue && unchanged(this, tree)
      ensures r.Success? ==> r.value == old(At(tree.Contents, 1)) && r.value.key == old(At(Keys, 1))
      ensures r.Success? ==> LowerBound(r.value.key, old(Keys))
      ensures r.Success? ==> Keys == RemoveKeys(old(Keys), 1) && Entries == old(Entries) - {r.value}
      ensures r.Success? ==> multiset(tree.Contents) == multiset(old(tree.Contents)) - multiset{r.value}
      ensures r.Success? ==> r.value.value == old(r.value.value)
      ensures r.Success? ==> tree.Contents == RemoveWith(old(Keys), old(tree.Contents), 1)
      ensures KeysAndValuesKept(old(Entries))
    {
      var m := Min();
      if m.Failure? {
        return m;
      }
      r := Remove(m.value);
    }

    /**
     * Gives an entry of this heap a new key and restores the heap order
     * from its node (`replaceKey`); returns the old key.
     */
    method ReplaceKey(entry: Entry?<V>, key: int) returns (r: Result<int, HeapError>)
      requires Valid()
      modifies this, tree, Entries
      ensures Valid() && Entries == old(Entries)
      ensures r.Failure? <==> entry == null || entry !in old(tree.Contents)
      ensures r.Failure? ==> r.error == InvalidEntry && unchanged(this, tree)
      ensures r.Success? ==> entry != null && r.value == old(entry.key) && entry.key == key
      ensures r.Success? ==> entry.value == old(entry.value) && 1 <= old(entry.position) <= old(|Keys|)
      ensures r.Success? ==> Keys == ReplaceKeys(old(Keys), old(entry.position), key)
      ensures KeysAndValuesKept(old(Entries) - {entry})
      ensures multiset(tree.Contents) == multiset(old(tree.Contents))
      ensures r.Success? ==> tree.Contents == ReplaceWith(old(Keys), old(tree.Contents), old(entry.position), key)
    {
      var checked := CheckAndConvertEntry(entry);
      if checked.Failure? {
        return Failure(checked.error);
      }
      var e := checked.value;
      OwnsIsMembership(e);
      if IsEmpty() || e.position == NoPosition || !Owns(e) {
        return Failure(InvalidEntry);
      }
      var oldKey := e.key;
      RekeyNode(e.position, key);
      r := Success(oldKey);
    }

    /**
     * The body of `replaceKey` once the entry has been accepted: the entry
     * at node p gets the new key and is walked down and then up from p.
     */
    method RekeyNode(p: int, key: int)
      requires Valid() && 1 <= p <= |Keys|
      modifies this, tree, Entries
      ensures Valid() && Entries == old(Entries)
      ensures old(At(tree.Contents, p)).key == key
      ensures old(At(tree.Contents, p)).value == old(At(tree.Contents, p).value)
      ensures Keys == ReplaceKeys(old(Keys), p, key)
      ensures KeysAndValuesKept(old(Entries) - {old(At(tree.Contents, p))})
      ensures multiset(tree.Contents) == multiset(old(tree.Contents))
      ensures tree.Contents == ReplaceWith(old(Keys), old(tree.Contents), p, key)
    {
      ghost var e := At(tree.Contents, p);
      assert e in Entries;
      StoreKey(p, key);
      WalkFrom(p);
      ReplaceRestores(old(Keys), p, key);
    }

    /** Stores a new key in the entry at node p; nothing moves. */
    method StoreKey(p: int, key: int)
      requires Consistent() && 1 <= p <= |Keys|
      modifies this, At<Entry<V>>(tree.Contents, p)`key
      ensures Consistent() && Entries == old(Entries) && tree.Contents == old(tree.Contents)
      ensures Keys == old(Keys)[p - 1 := key] && At(tree.Contents, p).key == key
      ensures At(tree.Contents, p).value == old(At(tree.Contents, p).value)
      ensures At(tree.Contents, p).position == old(At(tree.Contents, p).position)
    {
      var e := tree.Element(p);
      e.SetKey(key);
      Keys := Keys[p - 1 := key];
      forall i | 1 <= i <= |Keys|
        ensures At(tree.Contents, i).key == At(Keys, i) && At(tree.Contents, i).position == i
      {
        if i != p {
          assert At(tree.Contents, i) != e;
        }
      }
    }

    /** Gives an entry of this heap a new value (`replaceValue`); returns the old value. */
    method ReplaceValue(entry: Entry?<V>, value: V) returns (r: Result<V, HeapError>)
      requires Valid()
      modifies {entry}`value
      ensures Valid() && Keys == old(Keys) && unchanged(this, tree)
      ensures r.Failure? <==> entry == null || entry !in tree.Contents
      ensures r.Failure? ==> r.error == InvalidEntry && (entry != null ==> unchanged(entry))
      ensures r.Success? ==> entry != null && r.value == old(entry.value) && entry.value == value
      ensures r.Success? ==> entry.key == old(entry.key) && entry.position == old(entry.position)
    {
      var checked := CheckAndConvertEntry(entry);
      if checked.Failure? {
        return Failure(checked.error);
      }
      var e := checked.value;
      OwnsIsMembership(e);
      if IsEmpty() || e.position == NoPosition || !Owns(e) {
        return Failure(InvalidEntry);
      }
      var oldValue := e.value;
      e.SetValue(value);
      r := Success(oldValue);
    }

    /**
     * The body of `remove` once the entry has been accepted: the last node's
     * entry takes the place of node `target`, the last node is detached,
     * and the moved entry is walked down and then up from `target`.
     */
    method RemoveNode(target: int) returns (removed: Entry<V>)
      requires Valid() && 1 <= target <= |Keys|
      modifies this, tree, Entries
      ensures Valid() && Entries == old(Entries) - {removed}
      ensures removed == old(At(tree.Contents, target)) && removed.position == old(|Keys|)
      ensures removed.key == old(removed.key) && removed.value == old(removed.value)
      ensures KeysAndValuesKept(old(Entries))
      ensures Keys == RemoveKeys(old(Keys), target)
      ensures multiset(tree.Contents) == multiset(old(tree.Contents)) - multiset{removed}
      ensures tree.Contents == RemoveWith(old(Keys), old(tree.Contents), target)
    {
      ghost var keys := Keys;
      removed := MoveLastTo(target);
      Resettle(target, keys, old(Entries));
    }

    /**
     * After the last node's entry has moved to `target` and the last node
     * is detached, walks that entry down and up if `target` is still a node.
     */
    method Resettle(target: int, ghost keys: seq<int>, ghost entries: set<Entry<V>>)
      requires Consistent() && HeapOrdered(keys) && 1 <= target <= |keys|
      requires Keys == Swap(keys, |keys|, target)[..|keys| - 1] && Entries <= entries
      modifies this, tree, Entries
      ensures Valid() && Entries == old(Entries) && Keys == RemoveKeys(keys, target)
      ensures multiset(tree.Contents) == multiset(old(tree.Contents))
      ensures KeysAndValuesKept(entries)
      ensures target < |keys| ==> tree.Contents == WalkWith(old(Keys), old(tree.Contents), target)
      ensures target == |keys| ==> tree.Contents == old(tree.Contents)
    {
      RemoveKeysSteps(keys, target, Keys);
      if target <= tree.size {
        WalkFrom(target);
      }
      RemoveRestores(keys, target);
    }

    /** Walks the entry at node p down and then up (`downSort`, then `reorderTree`). */
    method WalkFrom(p: int)
      requires Consistent() && 1 <= p <= |Keys|
      modifies this, tree, Entries
      ensures Consistent() && Entries == old(Entries)
      ensures Keys == SiftUp(SiftDown(old(Keys), p), p)
      ensures multiset(tree.Contents) == multiset(old(tree.Contents))
      ensures KeysAndValuesKept(Entries)
      ensures tree.Contents == WalkWith(old(Keys), old(tree.Contents), p)
    {
      DownSort(p);
      var restingPosition := ReorderTree(p);
    }

    /** Swaps node `target` with the last node and detaches the last node. */
    method MoveLastTo(target: int) returns (removed: Entry<V>)
      requires Consistent() && 1 <= target <= |Keys|
      modifies this, tree, Entries
      ensures Consistent() && Entries == old(Entries) - {removed}
      ensures removed == old(At(tree.Contents, target)) && removed.position == old(|Keys|)
      ensures removed.key == old(removed.key) && removed.value == old(removed.value)
      ensures KeysAndValuesKept(old(Entries))
      ensures Keys == Swap(old(Keys), old(|Keys|), target)[..old(|Keys|) - 1]
      ensures multiset(tree.Contents) == multiset(old(tree.Contents)) - multiset{removed}
      ensures tree.Contents == Swap(old(tree.Contents), old(|Keys|), target)[..old(|Keys|) - 1]
    {
      var last := tree.LastPosition();
      SwapNodes(last, target);
      ghost var swapped := tree.Contents;
      removed := DetachLast();
      assert swapped == tree.Contents + [removed];
    }

    /** The tree's `remove` of the last node; the entry it held leaves the heap. */
    method DetachLast() returns (detached: Entry<V>)
      requires Consistent() && |Keys| > 0
      modifies this, tree
      ensures Consistent()
      ensures detached == old(At(tree.Contents, |Keys|)) && detached.position == old(|Keys|)
      ensures tree.Contents == old(tree.Contents[..|Keys| - 1]) && Keys == old(Keys[..|Keys| - 1])
      ensures Entries == old(Entries) - {detached}
    {
      var r := tree.Remove();
      detached := r.value;
      Keys := Keys[..|Keys| - 1];
      Entries := Entries - {detached};
      forall j | 0 <= j < |tree.Contents|
        ensures tree.Contents[j] in Entries
        ensures At(tree.Contents, j + 1).key == At(Keys, j + 1)
        ensures At(tree.Contents, j + 1).position == j + 1
      {
        assert tree.Contents[j] == old(At(tree.Contents, j + 1));
      }
    }

    /** The down-heap walk from `position` (`downSort`). */
    method DownSort(position: int)
      requires Consistent() && 1 <= position <= |Keys|
      modifies this, tree, Entries
      ensures Consistent() && Entries == old(Entries)
      ensures Keys == SiftDown(old(Keys), position)
      ensures multiset(tree.Contents) == multiset(old(tree.Contents))
      ensures KeysAndValuesKept(Entries)
      ensures tree.Contents == SiftDownWith(old(Keys), old(tree.Contents), position)
    {
      var p := position;
      var possibleLargerChild := true;
      while possibleLargerChild
        invariant Consistent() && Entries == old(Entries)
        invariant 1 <= p <= |Keys| && |Keys| == |old(Keys)|
        invariant multiset(tree.Contents) == multiset(old(tree.Contents))
        invariant KeysAndValuesKept(Entries)
        invariant possibleLargerChild ==> SiftDown(Keys, p) == SiftDown(old(Keys), position)
        invariant !possibleLargerChild ==> Keys == SiftDown(old(Keys), position)
        invariant possibleLargerChild ==>
          SiftDownWith(Keys, tree.Contents, p) == SiftDownWith(old(Keys), old(tree.Contents), position)
        invariant !possibleLargerChild ==>
          tree.Contents == SiftDownWith(old(Keys), old(tree.Contents), position)
        decreases possibleLargerChild, |Keys| - p
      {
        if !tree.HasLeft(p) {
          break;
        }
        var smallerPosition: int;
        if tree.HasRight(p) && tree.Element(Right(p)).key < tree.Element(Left(p)).key {
          smallerPosition := Right(p);
        } else {
          smallerPosition := Left(p);
        }
        if tree.Element(p).key > tree.Element(smallerPosition).key {
          SwapNodes(p, smallerPosition);
          p := smallerPosition;
        } else {
          possibleLargerChild := false;
        }
      }
    }

    /**
     * The up-heap walk from p (`reorderTree`); returns the node where the
     * entry that started at p comes to rest.
     */
    method ReorderTree(p: int) returns (restingPosition: int)
      requires Consistent() && 1 <= p <= |Keys|
      modifies this, tree, Entries
      ensures Consistent() && Entries == old(Entries)
      ensures Keys == SiftUp(old(Keys), p)
      ensures multiset(tree.Contents) == multiset(old(tree.Contents))
      ensures KeysAndValuesKept(Entries)
      ensures 1 <= restingPosition <= p && At(tree.Contents, restingPosition) == old(At(tree.Contents, p))
      ensures At(Keys, restingPosition) == old(At(Keys, p))
      ensures tree.Contents == SiftUpWith(old(Keys), old(tree.Contents), p)
      ensures restingPosition == SiftUpStop(old(Keys), p)
    {
      var q := p;
      restingPosition := q;
      while q != 1 && tree.Element(q).key < tree.Element(Parent(q)).key
        invariant Consistent() && Entries == old(Entries)
        invariant 1 <= q <= p && |Keys| == |old(Keys)|
        invariant multiset(tree.Contents) == multiset(old(tree.Contents))
        invariant KeysAndValuesKept(Entries)
        invariant SiftUp(Keys, q) == SiftUp(old(Keys), p)
        invariant SiftUpWith(Keys, tree.Contents, q) == SiftUpWith(old(Keys), old(tree.Contents), p)
        invariant SiftUpStop(Keys, q) == SiftUpStop(old(Keys), p)
        invariant At(tree.Contents, q) == old(At(tree.Contents, p)) && restingPosition == q
        invariant At(Keys, q) == old(At(Keys, p))
        decreases q
      {
        SwapNodes(q, Parent(q));
        q := Parent(q);
        restingPosition := q;
      }
    }
  }
}
