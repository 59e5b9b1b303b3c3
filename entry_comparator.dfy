/**
 * The integer comparator (MyHeapEntryComparator): `compare` subtracts the
 * two keys as Java ints, so the difference wraps around modulo 2^32.
 */
module EntryComparator {

  const Modulus: int := 0x1_0000_0000

  newtype int32 = x: int | -0x8000_0000 <= x < 0x8000_0000

  /** x - y is a Java int: the subtraction cannot wrap. */
  predicate DifferenceFits(x: int32, y: int32) {
    -0x8000_0000 <= x as int - y as int < 0x8000_0000
  }

  /** Two's-complement reduction of an integer to 32 bits. */
  function Wrap(x: int): int32 {
    var m := x % Modulus;
    (if m < 0x8000_0000 then m else m - Modulus) as int32
  }

  /**
   * `compare(o1, o2)` as written: the 32-bit difference. Its sign follows
   * the order of the arguments only when the difference fits.
   */
  function Compare(o1: int32, o2: int32): (r: int32)
    ensures (r as int - (o1 as int - o2 as int)) % Modulus == 0
    ensures DifferenceFits(o1, o2) ==> r as int == o1 as int - o2 as int
    ensures DifferenceFits(o1, o2) ==> (r < 0 <==> o1 < o2) && (r == 0 <==> o1 == o2) && (r > 0 <==> o1 > o2)
  {
    Wrap(o1 as int - o2 as int)
  }

  lemma CompareReflexive(x: int32)
    ensures Compare(x, x) == 0
  {
  }

  /** Swapping the arguments negates the result while neither difference wraps. */
  lemma CompareAntisymmetric(x: int32, y: int32)
    requires DifferenceFits(x, y) && DifferenceFits(y, x)
    ensures Compare(x, y) as int == -(Compare(y, x) as int)
  {
  }

  /** The largest int compares as less than -1: the difference wraps to the minimum int. */
  lemma CompareOverflows()
    ensures Compare(0x7fff_ffff, -1) < 0 && 0x7fff_ffff > -1
  {
  }

  /** The comparison its documentation promises: the sign of o1 - o2, for all inputs. */
  function CompareKeys(o1: int32, o2: int32): (r: int32)
    ensures r < 0 <==> o1 < o2
    ensures r == 0 <==> o1 == o2
    ensures r > 0 <==> o1 > o2
  {
    if o1 < o2 then -1 else if o1 == o2 then 0 else 1
  }

  lemma CompareKeysAntisymmetric(x: int32, y: int32)
    ensures CompareKeys(x, y) == -CompareKeys(y, x)
  {
  }

  /** Where no wrap-around occurs the two comparators agree in sign. */
  lemma CompareAgreesWhenFits(x: int32, y: int32)
    requires DifferenceFits(x, y)
    ensures (Compare(x, y) < 0 <==> CompareKeys(x, y) < 0) && (Compare(x, y) > 0 <==> CompareKeys(x, y) > 0)
  {
  }
}
