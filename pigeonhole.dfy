/**
 * Pigeonhole (default package): a second copy of algorithm.PigeonholeSort.
 * Its getMax, fillTmpArray and fillOrderedArray do, statement for statement,
 * what the algorithm package's do; only the declared parameter and local list
 * types differ (ArrayList<?>[] where the other declares List<?>[] or Object[],
 * Type[] where the other declares Object[], and ArrayList<Type> locals and casts
 * where the other uses List<Type>). So each is modelled by the
 * corresponding method of PigeonholeSort under the same contract; sort is
 * written out, as it calls this class's own helpers.
 */
module Pigeonhole {
  import opened PigeonholeSpec
  import PigeonholeSort

  /** The largest key in a, starting from 0: the maximum of {0} and the keys. */
  method GetMax<T>(a: array<T>, key: T -> int) returns (max: int)
    ensures 0 <= max
    ensures forall i :: 0 <= i < a.Length ==> key(a[i]) <= max
    ensures max == 0 || exists i :: 0 <= i < a.Length && key(a[i]) == max
    ensures max == MaxKey(a[..], key)
  {
    max := PigeonholeSort.GetMax(a, key);
  }

  /**
   * Appends every element of arrayToSort, in order, to the list in the slot
   * of its key, creating the list when the slot is null; a key that is not an
   * index of the table throws ArrayIndexOutOfBoundsException.
   */
  method FillTmpArray<T>(tmpArray: array<Option<seq<T>>>, arrayToSort: array<T>, key: T -> int)
    returns (thrown: bool)
    requires tmpArray as object != arrayToSort
    modifies tmpArray
    ensures thrown <==> !KeysBelow(arrayToSort[..], key, tmpArray.Length)
    ensures !thrown ==> Distributed(tmpArray[..], old(tmpArray[..]), arrayToSort[..], key)
    ensures Distributed(tmpArray[..], old(tmpArray[..]),
                        arrayToSort[..InRangePrefix(arrayToSort[..], key, tmpArray.Length)], key)
  {
    thrown := PigeonholeSort.FillTmpArray(tmpArray, arrayToSort, key);
  }

  /** Copies the non-null lists of the table, in slot order, to the front of arrayToSort. */
  method FillOrderedArray<T>(tmpArray: array<Option<seq<T>>>, arrayToSort: array<T>)
    requires tmpArray as object != arrayToSort
    requires |Flatten(tmpArray[..])| <= arrayToSort.Length
    modifies arrayToSort
    ensures arrayToSort[..] == Flatten(tmpArray[..]) + old(arrayToSort[|Flatten(tmpArray[..])|..])
  {
    PigeonholeSort.FillOrderedArray(tmpArray, arrayToSort);
  }

  /**
   * Sorts arrayToSort by key when every key lies in [0, Integer.MAX_VALUE);
   * otherwise throws before the array is written.
   */
  method Sort<T>(arrayToSort: array<T>, key: T -> int) returns (outcome: Outcome)
    requires IntKeys(arrayToSort[..], key)
    modifies arrayToSort
    ensures outcome.NegativeArraySizeException? <==> MaxKey(old(arrayToSort[..]), key) == INT_MAX
    ensures outcome.Completed? <==> KeysBelow(old(arrayToSort[..]), key, INT_MAX)
    ensures outcome.Completed? ==> arrayToSort[..] == PigeonholeSorted(old(arrayToSort[..]), key)
    ensures outcome.Completed? ==> SortedBy(arrayToSort[..], key)
    ensures !outcome.Completed? ==> arrayToSort[..] == old(arrayToSort[..])
  {
    ghost var input := arrayToSort[..];
    KeysBelowIntMax(input, key);
    var max := GetMax(arrayToSort, key);
    if max == INT_MAX {
      // max + 1 wraps around to Integer.MIN_VALUE, an illegal array size.
      return NegativeArraySizeException;
    }
    var tmpArray := new Option<seq<T>>[max + 1](_ => None);
    ghost var nulls := tmpArray[..];
    var thrown := FillTmpArray(tmpArray, arrayToSort, key);
    if thrown {
      return ArrayIndexOutOfBoundsException;
    }
    assert arrayToSort[..] == input;
    SortedFromTable(tmpArray[..], nulls, input, key);
    PigeonholeSortedLength(input, key);
    FillOrderedArray(tmpArray, arrayToSort);
    assert arrayToSort[..] == Flatten(tmpArray[..]);
    return Completed;
  }
}
