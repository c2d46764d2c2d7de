# Sorting and searching behind one adapter, modelled in Dafny

This project models the array sorting-and-searching facility of `No1/Client.java`:

- `QuickSort` sorts a Java `int[]` in place. It is a recursive partition-exchange sort that uses the Lomuto scheme. The pivot is always the last element of the range. One left-to-right scan swaps every element `<=` the pivot into a growing left region. The pivot is then swapped to the boundary, and each side is sorted recursively.
- `BinarySearch` is a closed-interval binary search. It probes `(low + high) >>> 1` and returns the index of an element equal to the key, or `-1`.
- `DataOperationAdapter` offers the two operations `sort` and `search`. It forwards each call unchanged to one `QuickSort` and one `BinarySearch`, both created by its constructor.
- `Client.main` sorts `{5, 3, 8, 4, 9, 1, 2}` through the adapter and searches the result for `4`.

Layout, one module per component:

- `java_int.dfy` (`JavaInt`): Java's `int` as the newtype `Int32`, the array length bound, and the 32-bit midpoint computation.
- `ordering.dfy` (`Ordering`): sortedness, bounds and the permutation facts that sorting relies on.
- `quick_sort.dfy` (`Sorting`): the class `QuickSort` with `Sort`, `SortRecursive`, `Partition` and `Swap`, all working in place on an `array<Int32>`.
- `binary_search.dfy` (`Searching`): the reference definition `Probe`, its correctness lemmas, and the class `BinarySearch` whose `Search` loop is proved equal to `Probe`.
- `adapter.dfy` (`Adapter`): the class `DataOperationAdapter`.
- `client.dfy` (`Client`): the sample run, with its results proved.

Two facts tie the adapter to its delegates exactly:

- Search: the adapter and `BinarySearch.Search` are both proved to return `Probe(data[..], key, 0, data.Length - 1)`.
- Sort: a sorted permutation of a sequence is unique (`SortedPermutationUnique`). So "sorted and a permutation of the input", which both sorts promise, fixes the resulting array completely. The same fact gives idempotence: sorting sorted data leaves it unchanged.

## Model

| member | source | states |
|---|---|---|
| JavaInt.Add | No1/Client.java:47 | Java `int` addition: the result agrees with the true sum modulo 2^32, and equals it when the sum fits in 32 bits |
| JavaInt.UnsignedShiftRight1 | No1/Client.java:47 | `x >>> 1` is never negative; it halves a non-negative `x`, and halves `x + 2^32` for a negative `x` |
| JavaInt.Mid | No1/Client.java:47 | for Java-int indices `0 <= low <= high`, `(low + high) >>> 1` lies in `[low, high]` and equals the true midpoint `(low + high) / 2`, even when the 32-bit sum wraps |
| Ordering.SortedIffAdjacentOrdered | No1/Client.java:9-11 | "every adjacent pair ascending" and "every pair ascending" are equivalent, in both directions |
| Ordering.SortedAroundPivot | No1/Client.java:13-19 | a sorted left part whose elements are all `<=` the pivot, then the pivot, then a sorted right part whose elements are all `>` the pivot, is sorted |
| Ordering.SortedPermutationUnique | No1/Client.java:9-11 | two sorted sequences with the same multiset are equal: the result of sorting is determined by the input alone, and sorting is idempotent |
| Ordering.MultisetOfRange | No1/Client.java:34-38 | swaps inside `[lo, hi]` that keep the whole multiset and leave the rest alone also keep the multiset of `[lo, hi]` |
| Sorting.SortedAfterRecursion | No1/Client.java:13-19 | after partition and the two recursive calls, each of which sorts a permutation of its side or leaves a side of length at most one alone, `[low, high]` is sorted |
| Sorting.QuickSort.Sort | No1/Client.java:9-11 | afterwards the array is sorted ascending and a permutation of its old contents; an already sorted array is left unchanged |
| Sorting.QuickSort.SortRecursive | No1/Client.java:13-19 | for `low < high`, `[low, high]` becomes sorted and a permutation of its old contents; for `low >= high` nothing changes; every index outside `[low, high]` keeps its value |
| Sorting.QuickSort.Partition | No1/Client.java:21-32 | returns `p` in `[low, high]` holding the old `arr[high]`; everything in `[low, p)` is `<=` it and everything in `(p, high]` is `>` it; `[low, high]` is permuted; the rest is unchanged. The loop keeps: `arr[low..i]` `<=` pivot, `arr[i+1..j-1]` `>` pivot, and `arr[high]` is still the pivot |
| Sorting.QuickSort.Swap | No1/Client.java:34-38 | exchanges `arr[i]` and `arr[j]`, changes nothing else, and keeps the multiset |
| Searching.Probe | No1/Client.java:44-57 | the probe-by-probe search over `[low, high]`: its answer is `-1` or an index in `[low, high]` that holds the key, whether or not the input is sorted |
| Searching.ProbeFindsPresentKey | No1/Client.java:45-55 | on sorted input, if the key occurs in `[low, high]`, the search does not answer `-1` (each step discards only a half that cannot hold that occurrence) |
| Searching.SearchCorrect | No1/Client.java:44-57 | over the whole sequence, a found index proves the key occurs; on sorted input, a key that occurs is found |
| Searching.BinarySearch.Search | No1/Client.java:44-57 | the loop returns exactly `Probe` over `[0, length - 1]`, so it returns `-1` or a valid index holding the key, and on sorted input it returns `-1` exactly when the key is absent; it has no `modifies` clause, so it never writes to the array |
| Adapter.DataOperationAdapter.constructor | No1/Client.java:65-68 | creates a fresh sorter and a fresh searcher, kept for the adapter's lifetime |
| Adapter.DataOperationAdapter.Sort | No1/Client.java:71-74 | the delegate's effect: `data` becomes its unique sorted permutation, and sorted data is left unchanged |
| Adapter.DataOperationAdapter.Search | No1/Client.java:77-81 | the delegate's result: exactly `Probe` over the whole array, with `data` unchanged |
| Client.SampleSortsUniquely | No1/Client.java:87-95 | any sorted permutation of `{5, 3, 8, 4, 9, 1, 2}` is `{1, 2, 3, 4, 5, 8, 9}` |
| Client.SampleRun | No1/Client.java:87-98 | sorting the sample through the adapter gives `{1, 2, 3, 4, 5, 8, 9}`, and searching that for `4` gives index `3` |

## Left out

- The `DataOperation` interface (No1/Client.java:2-5) is not declared as a separate type, because Dafny traits are not available here. `DataOperationAdapter` declares the interface's two operations itself, with the contracts an implementation must meet.
- Console output in `Client.main` and `printArray` (No1/Client.java:90-111) is left out. The sample run returns the sorted contents and the index instead of printing them.
- Null arrays are left out. Dafny arrays are never null, so the `NullPointerException` Java would throw has no counterpart.
- Java `int` overflow is modelled only in the midpoint `(low + high) >>> 1`. Every other index computation (`low - 1`, `i++`, `p - 1`, `p + 1`, `mid + 1`, `mid - 1`, `arr.length - 1`) stays within the `int` range for array indices, so it uses unbounded integers. Elements are only compared, never combined arithmetically, so `Int32` needs no wrap-around.
- Searching.BinarySearch.Search and Adapter.DataOperationAdapter.Search require `length <= 2^31 - 1`. No Java array is longer than that.
- Searching.Probe probes the exact midpoint `(low + high) / 2`. The loop in `BinarySearch.Search` computes it the Java way through `JavaInt.Mid`, which is proved to give the same index.
- Running time is not modelled. This covers the `O(n^2)` worst case of last-element pivoting on sorted or reverse-sorted input, and the number and order of swaps. The methods perform the same swaps as the source, but no contract counts them.
- Recursion depth is not modelled. On long sorted inputs Java may throw `StackOverflowError`, because the recursion depth can reach the array length.
- Which occurrence of a repeated key the search returns is not characterised beyond "exactly the index `Probe` computes".
