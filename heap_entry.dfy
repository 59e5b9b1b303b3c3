/**
 * A key/value pair stored in the heap (MyHeapEntry). Besides its key and
 * value, an entry records the tree node that holds it; that locator is
 * what lets the heap find an arbitrary entry without a search.
 * `getKey`, `getValue` and `get_position` are reads of the fields below.
 */
module HeapEntry {

  /** The position of an entry that no tree node holds (Java's null). */
  const NoPosition: nat := 0

  class Entry<V> {
    var key: int
    var value: V
    /** The breadth-first number of the node holding this entry, or NoPosition. */
    var position: nat

    constructor (key: int, value: V)
      ensures this.key == key && this.value == value && position == NoPosition
    {
      this.key := key;
      this.value := value;
      position := NoPosition;
    }

    method SetKey(key: int)
      modifies this`key
      ensures this.key == key && value == old(value) && position == old(position)
    {
      this.key := key;
    }

    method SetValue(value: V)
      modifies this`value
      ensures this.value == value && key == old(key) && position == old(position)
    {
      this.value := value;
    }

    method SetPosition(position: nat)
      modifies this`position
      ensures this.position == position && key == old(key) && value == old(value)
    {
      this.position := position;
    }
  }
}
