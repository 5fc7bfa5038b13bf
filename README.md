# Pigeonhole sort, modelled and verified in Dafny

This project models the pigeonhole sort of the PigeonholeSort repository. The sort is implemented twice, almost line for line:

- `algorithm.PigeonholeSort`, in `src/main/java/algorithm/PigeonholeSort.java`;
- the default-package `Pigeonhole`, in `src/main/java/Pigeonhole.java`.

Each `sort(Type[] arrayToSort)` call does three things:

1. `getMax` scans the array for the largest key, starting from 0.
2. `sort` allocates a table of `max + 1` nullable lists. `fillTmpArray` appends every element to the list in the slot of its key, creating the list the first time that slot is used.
3. `fillOrderedArray` walks the table from slot 0 upwards and skips null slots. It copies each list into the array with `System.arraycopy`, at a running offset `i`.

The key of an element is its `hashCode()`. For `Integer`, the only element type the repository sorts, that is the value itself. The model takes the key as a function `key: T -> int` supplied by the caller, and requires every key to be a Java `int`.

## Files

- `pigeonhole_spec.dfy`, module `PigeonholeSpec`: the specification functions and the lemmas about them.
  - `MaxKey` is the largest key, starting from 0.
  - `Bucket(s, key, k)` is the elements of `s` with key `k`, in input order.
  - `Collect(s, key, n)` is buckets `0 .. n-1` concatenated in ascending key order.
  - `PigeonholeSorted(s, key)` is `Collect(s, key, MaxKey(s, key) + 1)`.
  - `FlattenUpTo` and `Flatten` concatenate the lists of a bucket table in slot order.
  - `Distributed` describes a table after elements were appended to the slots of their keys.
  - The lemmas prove that `PigeonholeSorted` has the input's length, is a permutation of the input, is sorted by key and is stable. They also prove it is the only sequence that is sorted and stable, that sorting is idempotent, and that the empty sequence sorts to itself.
- `pigeonhole_sort.dfy`, module `PigeonholeSort`: the four static methods of `algorithm.PigeonholeSort`, as imperative methods over Dafny arrays.
  - The bucket table is an `array<Option<seq<T>>>`. `None` is a null slot, and a `seq` is an `ArrayList`.
  - Each method is proved against the specification functions, with loop invariants.
- `pigeonhole.dfy`, module `Pigeonhole`: the four methods of `Pigeonhole`.
  - Its `getMax`, `fillTmpArray` and `fillOrderedArray` execute the same statements as the `algorithm` package's. Only the declared parameter and local list types differ. `fillTmpArray` takes `ArrayList<?>[]` where the other takes `List<?>[]`, and `fillOrderedArray` takes `(ArrayList<?>[], Type[])` where the other takes `(Object[], Object[])`. The local list variables and their casts use `ArrayList<Type>` where the other uses `List<Type>`. Each is modelled under the same contract by calling the corresponding `PigeonholeSort` method.
  - Its `sort` is written out, because it calls the `Pigeonhole` helpers.
- `java_system.dfy`, module `JavaSystem`: `System.arraycopy`, the one library routine modelled as a method of its own.

## Error behaviour

The code does not check for negative keys:

- `getMax` ignores negative keys.
- The table is allocated anyway.
- `fillTmpArray` then throws `ArrayIndexOutOfBoundsException` at the first element whose key is not an index of the table.

A largest key of `Integer.MAX_VALUE` makes `max + 1` wrap around to `Integer.MIN_VALUE`. `new ArrayList<?>[max + 1]` then throws `NegativeArraySizeException`.

`Sort` returns an `Outcome` saying which of these happened:

- `NegativeArraySizeException` is returned exactly when the largest key is `Integer.MAX_VALUE`.
- `Completed` is returned exactly when every key lies in `[0, Integer.MAX_VALUE)`.
- Whenever the call does not complete, the array is left unmodified. Both exceptions are thrown before the array is written.

## Model

| member | source | states |
|---|---|---|
| PigeonholeSort.GetMax | src/main/java/algorithm/PigeonholeSort.java:41-49 | the result is at least 0 and at least every key, and is 0 or the key of some element: the maximum of {0} and the keys; on an empty array it is 0 |
| PigeonholeSpec.MaxKey | src/main/java/algorithm/PigeonholeSort.java:42-48 | the scan's maximum, starting from 0, is never negative |
| PigeonholeSpec.MaxKeyIsMax | src/main/java/algorithm/PigeonholeSort.java:42-48 | the maximum bounds every key and is either 0 or a key that occurs |
| PigeonholeSpec.KeysBelowIntMax | src/main/java/algorithm/PigeonholeSort.java:98-99 | with int keys the maximum is an int; every key is an index of a table of max + 1 slots, with no overflow, exactly when every key lies in [0, Integer.MAX_VALUE) |
| PigeonholeSort.FillTmpArray | src/main/java/algorithm/PigeonholeSort.java:59-68 | throws exactly when some key is not an index of the table; each slot ends as its old list followed by the distributed elements of its key, in input order; it is null exactly when it was null and none of them has that key; on a throw only the elements before the offending one are distributed |
| PigeonholeSpec.InRangePrefixStep | src/main/java/algorithm/PigeonholeSort.java:60-62 | an element whose key is an index extends the prefix of distributable elements; any other element ends it, so the loop throws there |
| PigeonholeSpec.InRangePrefixAt | src/main/java/algorithm/PigeonholeSort.java:60-62 | the elements distributed before the throw are exactly the longest prefix whose keys are indices |
| PigeonholeSpec.DistributeStep | src/main/java/algorithm/PigeonholeSort.java:62-66 | creating the list in a null slot and appending the element to the list of its key distributes one more element and changes no other slot |
| PigeonholeSpec.NullSlotIff | src/main/java/algorithm/PigeonholeSort.java:62-63 | after distribution into null slots, slot k is null exactly when no element has key k |
| PigeonholeSpec.DistributedFromNulls | src/main/java/algorithm/PigeonholeSort.java:59-68 | after distribution into null slots, slot k holds exactly the elements with key k, in input order |
| PigeonholeSpec.BucketKeys | src/main/java/algorithm/PigeonholeSort.java:61-66 | every element of the list for key k has key k |
| PigeonholeSpec.BucketCount | src/main/java/algorithm/PigeonholeSort.java:60-66 | every occurrence of an element lands in the list of its own key and in no other |
| PigeonholeSpec.BucketEmptyIff | src/main/java/algorithm/PigeonholeSort.java:62-63 | the list for key k is empty exactly when no element has key k |
| PigeonholeSpec.CollectCount | src/main/java/algorithm/PigeonholeSort.java:79-86 | the lists of slots 0 .. n-1 hold every occurrence of each element whose key is below n, and nothing else |
| PigeonholeSpec.CollectPermutation | src/main/java/algorithm/PigeonholeSort.java:60-66 | when every key is an index, the lists are a permutation of the input, so their sizes sum to the input length and nothing is lost or duplicated |
| PigeonholeSort.FillOrderedArray | src/main/java/algorithm/PigeonholeSort.java:77-87 | the array starts with the non-null lists concatenated in slot order, and the rest of it is unchanged; the loop keeps the offset i equal to the total size of the lists already visited |
| JavaSystem.ArrayCopy | src/main/java/algorithm/PigeonholeSort.java:83 | positions destPos .. destPos+length-1 receive the source elements from srcPos on, and every other position is unchanged |
| PigeonholeSpec.FlattenUpToBound | src/main/java/algorithm/PigeonholeSort.java:78-84 | the running offset never exceeds the total size of all the lists, so every copy stays inside the array |
| PigeonholeSpec.FlattenDistributed | src/main/java/algorithm/PigeonholeSort.java:78-86 | when slot k holds the elements of key k, the lists of slots 0 .. j-1 concatenated equal `Collect(s, key, j)`, whose elements are, by `CollectCount`, exactly those with key in [0, j), in ascending key order |
| PigeonholeSpec.FlattenFreshTable | src/main/java/algorithm/PigeonholeSort.java:99-101 | distributing into a fresh table of null slots and copying back gives the lists of keys 0 .. max in ascending order |
| PigeonholeSpec.SortedFromTable | src/main/java/algorithm/PigeonholeSort.java:97-102 | the copied-back contents of the fresh table of max + 1 slots are the pigeonhole-sorted input, sorted by key |
| PigeonholeSpec.PigeonholeSortedLength | src/main/java/algorithm/PigeonholeSort.java:97-102 | the sorted result has the input's length, so the copy-back fills the whole array |
| PigeonholeSort.Sort | src/main/java/algorithm/PigeonholeSort.java:97-102 | completes exactly when every key lies in [0, Integer.MAX_VALUE); it throws NegativeArraySizeException exactly when the largest key is Integer.MAX_VALUE; when it completes the array is the pigeonhole-sorted input and is non-decreasing by key, as the test at src/test/java/PigeonholeSortTest.java:83-88 checks; otherwise the array is unchanged |
| PigeonholeSpec.CollectSorted | src/main/java/algorithm/PigeonholeSort.java:79-85 | lists emitted in ascending slot order give a sequence non-decreasing by key |
| PigeonholeSpec.CollectStable | src/main/java/algorithm/PigeonholeSort.java:60-86 | the elements of key k leave the table in the order they entered it, for k below the table size, and none leave otherwise |
| PigeonholeSpec.CollectSameBuckets | src/main/java/algorithm/PigeonholeSort.java:60-86 | when every key is an index, the output keeps, for every key, the input's elements of that key in input order |
| PigeonholeSpec.PigeonholeSortedCorrect | src/main/java/algorithm/PigeonholeSort.java:97-102 | for non-negative keys the result has the input's length, is a permutation of it, is sorted by key and is stable |
| PigeonholeSpec.SortedStableUnique | src/main/java/algorithm/PigeonholeSort.java:97-102 | two sequences sorted by key with the same elements of each key, in the same order, are equal |
| PigeonholeSpec.PigeonholeSortedUnique | src/main/java/algorithm/PigeonholeSort.java:97-102 | the pigeonhole-sorted sequence is the only sequence that is sorted by key and stable with respect to the input |
| PigeonholeSpec.SortedIsFixpoint | src/main/java/algorithm/PigeonholeSort.java:97-102 | sorting a sequence already sorted by key leaves it as it is |
| PigeonholeSpec.PigeonholeSortedIdempotent | src/main/java/algorithm/PigeonholeSort.java:97-102 | sorting twice gives what sorting once gives |
| PigeonholeSpec.PigeonholeSortedEmpty | src/main/java/Pigeonhole.java:88-93 | sorting the empty sequence gives the empty sequence |
| Pigeonhole.GetMax | src/main/java/Pigeonhole.java:35-43 | as PigeonholeSort.GetMax: the maximum of {0} and the keys |
| Pigeonhole.FillTmpArray | src/main/java/Pigeonhole.java:52-61 | as PigeonholeSort.FillTmpArray: lazy list creation, in-order appends, and the throw on a key that is not an index |
| Pigeonhole.FillOrderedArray | src/main/java/Pigeonhole.java:70-80 | as PigeonholeSort.FillOrderedArray: the non-null lists copied in slot order to the front of the array |
| Pigeonhole.Sort | src/main/java/Pigeonhole.java:88-93 | as PigeonholeSort.Sort: the outcome, the pigeonhole-sorted and key-ordered array when it completes, and the unchanged array otherwise |

## Left out

- The `visualization` package, `AnimationDuration`, `AnimationSpeed`, `Main.java` and the performance tests against `Arrays.sort` and `Arrays.parallelSort`. They are JavaFX presentation, floating-point listener plumbing and random-data drivers, with no sorting logic.
- `hashCode()` of arbitrary objects: the key is a function parameter. For `Integer` elements it is the value.
- Null elements: in Java `element.hashCode()` on a null element throws `NullPointerException`. Dafny values are never null.
- `OutOfMemoryError` when a table of `max + 1` slots cannot be allocated. Allocation never fails in the model.
- `ArrayList` growth and `toArray()`: a list is a `seq<T>`, and `toArray()` is the sequence itself. `toArray()` returns a fresh array, so the source of `System.arraycopy` never overlaps its destination.
- PigeonholeSort.FillTmpArray: requires the table and the array to be distinct objects. In the source the table is a fresh array of lists allocated by `sort`, so the two never alias.
- PigeonholeSort.FillOrderedArray: requires the table and the array to be distinct, and the lists to fit in the array. In the source the table is freshly allocated by `sort` and holds exactly the array's elements. A table holding more elements would make `System.arraycopy` throw `IndexOutOfBoundsException`, which `sort` never triggers.
- JavaSystem.ArrayCopy: requires the positions to lie inside both arrays, where Java would throw `IndexOutOfBoundsException`. `fillOrderedArray` always calls it with positions in range.
- Pigeonhole.FillTmpArray and Pigeonhole.FillOrderedArray: carry the same two preconditions as their `PigeonholeSort` counterparts, for the same reasons.
