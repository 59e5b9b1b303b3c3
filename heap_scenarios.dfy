/**
 * Client runs of the adaptable heap, following the unit tests of the
 * repository: each states the outcome its test checks.
 */
module HeapScenarios {
  import opened Wrappers
  import opened TreeIndex
  import opened HeapOrder
  import opened HeapPlacement
  import opened HeapEntry
  import opened AdaptableHeap

  /** Removes minimum entries while the heap is not empty and collects their keys. */
  method DrainAll<V>(h: Heap<V>) returns (keys: seq<int>)
    requires h.Valid()
    modifies h, h.tree, h.Entries
    ensures h.Valid() && h.Keys == []
    ensures keys == Drain(old(h.Keys))
  {
    keys := [];
    ghost var drained := Drain(h.Keys);
    while !h.IsEmpty()
      invariant h.Valid() && h.Entries <= old(h.Entries)
      invariant keys + Drain(h.Keys) == drained
      decreases |h.Keys|
    {
      ghost var before := h.Keys;
      var r := h.RemoveMin();
      DrainStep(keys, before, h.Keys);
      keys := keys + [r.value.key];
    }
  }

  /** `insert` as the tests call it, ignoring the entry it returns. */
  method InsertDiscarding<V>(h: Heap<V>, key: int, value: V)
    requires h.Valid()
    modifies h, h.tree, h.Entries
    ensures h.Valid() && multiset(h.Keys) == multiset(old(h.Keys)) + multiset{key}
    ensures forall e :: e in h.Entries ==> e in old(h.Entries) || fresh(e)
  {
    var entry := h.Insert(key, value);
  }

  /** `insert` as the insert test sees it: the new entry, and every older entry left as it was. */
  method InsertTracked<V>(h: Heap<V>, key: int, value: V) returns (entry: Entry<V>)
    requires h.Valid()
    modifies h, h.tree, h.Entries
    ensures h.Valid() && fresh(entry) && h.Entries == old(h.Entries) + {entry}
    ensures entry.key == key && entry.value == value
    ensures KeysAndValuesKept(old(h.Entries))
  {
    entry := h.Insert(key, value);
  }

  /** `insert` as the tie test sees it: where every entry is afterwards, and where the new one rests. */
  method InsertPlaced<V>(h: Heap<V>, key: int, value: V) returns (entry: Entry<V>)
    requires h.Valid()
    modifies h, h.tree, h.Entries
    ensures h.Valid() && fresh(entry) && h.Entries == old(h.Entries) + {entry}
    ensures entry.key == key && entry.value == value
    ensures KeysAndValuesKept(old(h.Entries))
    ensures h.Keys == InsertKeys(old(h.Keys), key)
    ensures h.tree.Contents == InsertWith(old(h.Keys), old(h.tree.Contents), key, entry)
    ensures 1 <= entry.position <= |h.Keys| && At(h.tree.Contents, entry.position) == entry
  {
    entry := h.Insert(key, value);
  }

  /** Inserts keys[i] with values[i], in order. */
  method InsertEach<V>(h: Heap<V>, keys: seq<int>, values: seq<V>)
    requires h.Valid() && |keys| == |values|
    modifies h, h.tree, h.Entries
    ensures h.Valid() && multiset(h.Keys) == multiset(old(h.Keys)) + multiset(keys)
    ensures forall e :: e in h.Entries ==> e in old(h.Entries) || fresh(e)
    decreases |keys|
  {
    if keys != [] {
      InsertDiscarding(h, keys[0], values[0]);
      InsertEach(h, keys[1..], values[1..]);
      assert keys == [keys[0]] + keys[1..];
    }
  }

  /** Inserting 11, 13, 64, 16, 44 and draining yields 11, 13, 16, 44, 64. */
  method DrainScenario() returns (keys: seq<int>)
    ensures keys == [11, 13, 16, 44, 64]
  {
    var h := TestHeap();
    DrainExample(h.Keys);
    keys := DrainAll(h);
  }

  /** The heap of the drain test: 11, 13, 64, 16, 44 inserted in order. */
  method TestHeap() returns (h: Heap<char>)
    ensures fresh(h) && fresh(h.tree) && fresh(h.Entries)
    ensures h.Valid() && multiset(h.Keys) == multiset([11, 13, 64, 16, 44])
  {
    h := new Heap<char>();
    InsertEach(h, [11, 13, 64, 16, 44], ['A', 'B', 'C', 'D', 'E']);
  }

  /** Five inserts: every returned entry still holds the key and value it was given. */
  method InsertScenario() returns (keys: seq<int>, values: seq<char>)
    ensures keys == [11, 13, 64, 16, 44] && values == ['A', 'B', 'C', 'D', 'E']
  {
    var h := new Heap<char>();
    var e1 := InsertTracked(h, 11, 'A');
    var e2 := InsertTracked(h, 13, 'B');
    var e3 := InsertTracked(h, 64, 'C');
    var e4 := InsertTracked(h, 16, 'D');
    var e5 := InsertTracked(h, 44, 'E');
    keys := [e1.key, e2.key, e3.key, e4.key, e5.key];
    values := [e1.value, e2.value, e3.value, e4.value, e5.value];
  }

  /**
   * Two entries with equal keys: the second stays at node 2, because the
   * up-heap walk passes only a strictly larger key, so the first is the
   * minimum.
   */
  method TieScenario() returns (minValue: char, secondPosition: int)
    ensures minValue == 'A' && secondPosition == 2
  {
    var h := new Heap<char>();
    var a := InsertPlaced(h, 5, 'A');
    var b := InsertPlaced(h, 5, 'B');
    var m := h.Min();
    minValue := m.value.value;
    secondPosition := b.position;
  }

  /**
   * One insert: size 1, minimum key 1; removing the entry empties the heap,
   * and removing it again is refused.
   */
  method SizeScenario() returns (sizes: seq<nat>, minKey: int, again: Result<Entry<char>, HeapError>)
    ensures sizes == [0, 1, 0] && minKey == 1 && again == Failure(InvalidEntry)
  {
    var h := new Heap<char>();
    var s0 := h.Size();
    var e := h.Insert(1, 'A');
    var s1 := h.Size();
    var m := h.Min();
    minKey := m.value.key;
    var r := h.Remove(e);
    var s2 := h.Size();
    sizes := [s0, s1, s2];
    again := h.Remove(e);
  }

  /** `setComparator` is refused on a non-empty heap and when given no comparator. */
  method SetComparatorScenario() returns (onFull: Result<(), ComparatorError>, onNull: Result<(), ComparatorError>)
    ensures onFull == Failure(NotEmpty) && onNull == Failure(NullComparator)
  {
    var full := new Heap<char>();
    var e := full.Insert(1, 'A');
    onFull := full.SetComparator(Some(IntegerComparator));
    var empty := new Heap<char>();
    onNull := empty.SetComparator(None);
  }
}
