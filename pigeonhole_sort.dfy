/**
 * algorithm.PigeonholeSort: pigeonhole sort of an array in place, through a
 * table of max + 1 nullable lists indexed by key.
 *
 * The key of an element is its hashCode(); for Integer, the only element type
 * sorted, that is the value itself. Here the key is a function supplied by
 * the caller.
 */
module PigeonholeSort {
  import opened PigeonholeSpec
  import JavaSystem

  /** The largest key in a, starting from 0: the maximum of {0} and the keys. */
  method GetMax<T>(a: array<T>, key: T -> int) returns (max: int)
    ensures 0 <= max
    ensures forall i :: 0 <= i < a.Length ==> key(a[i]) <= max
    ensures max == 0 || exists i :: 0 <= i < a.Length && key(a[i]) == max
    ensures max == MaxKey(a[..], key)
  {
    max := 0;
    for i := 0 to a.Length
      invariant max == MaxKey(a[..i], key)
    {
      assert a[..i + 1][..i] == a[..i];
      if key(a[i]) > max {
        max := key(a[i]);
      }
    }
    assert a[..a.Length] == a[..];
    MaxKeyIsMax(a[..], key);
  }

  /**
   * Appends every element of arrayToSort, in order, to the list in the slot
   * of its key, creating the list when the slot is null. An element whose
   * key is not an index of the table makes Java throw
   * ArrayIndexOutOfBoundsException, with the elements before it already
   * distributed. Afterwards slot k holds what it held before followed by the
   * distributed elements of key k in input order, and is null exactly when it
   * was null and none of them has key k.
   */
  method FillTmpArray<T>(tmpArray: array<Option<seq<T>>>, arrayToSort: array<T>, key: T -> int)
    returns (thrown: bool)
    requires tmpArray as object != arrayToSort
    modifies tmpArray
    ensures thrown <==> !KeysBelow(arrayToSort[..], key, tmpArray.Length)
    ensures !thrown ==> Distributed(tmpArray[..], old(tmpArray[..]), arrayToSort[..], key)
    ensures Distributed(tmpArray[..], old(tmpArray[..]),
                        arrayToSort[..InRangePrefix(arrayToSort[..], key, tmpArray.Length)], key)
  {
    for i := 0 to arrayToSort.Length
      invariant KeysBelow(arrayToSort[..i], key, tmpArray.Length)
      invariant Distributed(tmpArray[..], old(tmpArray[..]), arrayToSort[..i], key)
    {
      var element := arrayToSort[i];
      var hashCode := key(element);
      InRangePrefixStep(arrayToSort[..], key, tmpArray.Length, i);
      if !(0 <= hashCode < tmpArray.Length) {
        return true;
      }
      ghost var slots := tmpArray[..];
      if tmpArray[hashCode].None? {
        tmpArray[hashCode] := Some([]);
      }
      tmpArray[hashCode] := Some(tmpArray[hashCode].value + [element]);
      assert tmpArray[..] == slots[hashCode := Some(Items(slots[hashCode]) + [element])];
      DistributeStep(slots, old(tmpArray[..]), arrayToSort[..i], element, key);
      assert arrayToSort[..i + 1] == arrayToSort[..i] + [element];
    }
    assert arrayToSort[..arrayToSort.Length] == arrayToSort[..];
    InRangePrefixFull(arrayToSort[..], key, tmpArray.Length);
    return false;
  }

  /**
   * Walks the table from slot 0 upwards, skips null slots and copies each
   * list into arrayToSort at the running offset i. The array then starts
   * with the lists concatenated in slot order; the rest of it is untouched.
   */
  method FillOrderedArray<T>(tmpArray: array<Option<seq<T>>>, arrayToSort: array<T>)
    requires tmpArray as object != arrayToSort
    requires |Flatten(tmpArray[..])| <= arrayToSort.Length
    modifies arrayToSort
    ensures arrayToSort[..] == Flatten(tmpArray[..]) + old(arrayToSort[|Flatten(tmpArray[..])|..])
  {
    ghost var table := tmpArray[..];
    var i := 0;
    for j := 0 to tmpArray.Length
      invariant i == |FlattenUpTo(table, j)| <= arrayToSort.Length
      invariant forall k :: 0 <= k < i ==> arrayToSort[k] == FlattenUpTo(table, j)[k]
      invariant forall k :: i <= k < arrayToSort.Length ==> arrayToSort[k] == old(arrayToSort[k])
    {
      FlattenUpToBound(table, j + 1);
      assert tmpArray[j] == table[j];
      if tmpArray[j].Some? {
        var element := tmpArray[j].value;
        var size := |element|;
        JavaSystem.ArrayCopy(element, 0, arrayToSort, i, size);
        i := i + size;
      }
    }
    assert tmpArray[..] == table;
  }

  /**
   * Sorts arrayToSort by key. When every key lies in [0, Integer.MAX_VALUE)
   * the call completes and the array holds the buckets of keys 0 .. max in
   * ascending order, so it is sorted by key. Otherwise Java throws before the
   * array is written, and the array is left as it was: a largest key of
   * Integer.MAX_VALUE makes max + 1 wrap around to a negative table size, and
   * a negative key is not an index of the table.
   */
  method Sort<T>(arrayToSort: array<T>, key: T -> int) returns (outcome: Outcome)
    requires IntKeys(arrayToSort[..], key)
    modifies arrayToSort
    ensures outcome.NegativeArraySizeException? <==> MaxKey(old(arrayToSort[..]), key) == INT_MAX
    ensures outcome.Completed? <==> KeysBelow(old(arrayToSort[..]), key, INT_MAX)
    ensures outcome.Completed? ==> arrayToSort[..] == PigeonholeSorted(old(arrayToSort[..]), key)
    ensures outcome.Completed? ==> SortedBy(arrayToSort[..], key)
    ensures !outcome.Completed? ==> arrayToSort[..] == old(arrayToSort[..])
  {
    ghost var input := arrayToSort[..];
    KeysBelowIntMax(input, key);
    var max := GetMax(arrayToSort, key);
    if max == INT_MAX {
      // max + 1 wraps around to Integer.MIN_VALUE, an illegal array size.
      return NegativeArraySizeException;
    }
    var tmpArray := new Option<seq<T>>[max + 1](_ => None);
    ghost var nulls := tmpArray[..];
    var thrown := FillTmpArray(tmpArray, arrayToSort, key);
    if thrown {
      return ArrayIndexOutOfBoundsException;
    }
    assert arrayToSort[..] == input;
    SortedFromTable(tmpArray[..], nulls, input, key);
    PigeonholeSortedLength(input, key);
    FillOrderedArray(tmpArray, arrayToSort);
    assert arrayToSort[..] == Flatten(tmpArray[..]);
    return Completed;
  }
}
