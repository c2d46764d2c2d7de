/**
 * The adapter that offers the two-operation capability (sort, search) by
 * forwarding each call unchanged to one sorter and one searcher.
 */
module Adapter {
  import opened JavaInt
  import opened Ordering
  import opened Sorting
  import opened Searching

  class DataOperationAdapter {
    /** The delegates, created once by the constructor and kept for the adapter's lifetime. */
    const quickSort: QuickSort
    const binarySearch: BinarySearch

    constructor ()
      ensures fresh(quickSort) && fresh(binarySearch)
    {
      quickSort := new QuickSort();
      binarySearch := new BinarySearch();
    }

    /**
     * Sorts `data` in place through the quicksort delegate. Its effect is the
     * sorted permutation of the old contents, which is unique
     * (`SortedPermutationUnique`), so it is exactly the delegate's effect.
     */
    method Sort(data: array<Int32>)
      modifies data
      ensures Sorted(data[..])
      ensures multiset(data[..]) == multiset(old(data[..]))
      ensures Sorted(old(data[..])) ==> data[..] == old(data[..])
    {
      quickSort.Sort(data);
    }

    /**
     * Searches `data` for `key` through the binary-search delegate: the
     * answer is the very index the delegate computes.
     */
    method Search(data: array<Int32>, key: Int32) returns (r: int)
      requires data.Length <= MaxArrayLength
      ensures data[..] == old(data[..])
      ensures r == Probe(data[..], key, 0, data.Length - 1)
      ensures r == NotFound || (0 <= r < data.Length && data[r] == key)
      ensures Sorted(data[..]) ==> (r != NotFound <==> key in data[..])
    {
      r := binarySearch.Search(data, key);
    }
  }
}
