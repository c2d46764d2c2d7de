/** The sample run of the client: sort a fixed array through the adapter, then search it. */
module Client {
  import opened JavaInt
  import opened Ordering
  import opened Adapter
  import opened Searching

  /** The array the client starts from. */
  const SampleInput: seq<Int32> := [5, 3, 8, 4, 9, 1, 2]

  /** The same elements in ascending order. */
  const SampleSorted: seq<Int32> := [1, 2, 3, 4, 5, 8, 9]

  /** Whatever sorts the sample input, however it does so, produces exactly `SampleSorted`. */
  lemma SampleSortsUniquely(s: seq<Int32>)
    requires Sorted(s) && multiset(s) == multiset(SampleInput)
    ensures s == SampleSorted
  {
    SampleSortedIsSorted();
    SampleSortedIsPermutation();
    SortedPermutationUnique(s, SampleSorted);
  }

  /** `SampleSorted` is in ascending order. */
  lemma SampleSortedIsSorted()
    ensures Sorted(SampleSorted)
  {
    SortedIffAdjacentOrdered(SampleSorted);
  }

  /** `SampleSorted` holds exactly the sample input's elements. */
  lemma SampleSortedIsPermutation()
    ensures multiset(SampleSorted) == multiset(SampleInput)
  {
    calc {
      multiset(SampleInput);
      multiset{5, 3, 8, 4, 9, 1, 2};
      multiset{1, 2, 3, 4, 5, 8, 9};
      multiset(SampleSorted);
    }
  }

  /**
   * Sorts the sample input through the adapter and searches the result for
   * 4. Returns the sorted contents and the index found.
   */
  method SampleRun() returns (sorted: seq<Int32>, index: int)
    ensures sorted == SampleSorted
    ensures index == 3
  {
    var data := new Int32[7] [5, 3, 8, 4, 9, 1, 2];
    ghost var input := data[..];
    assert input == SampleInput;
    var op := new DataOperationAdapter();
    op.Sort(data);
    sorted := data[..];
    SampleSortsUniquely(sorted);
    index := op.Search(data, 4);
    SampleSearch(sorted);
  }

  /** In the sorted sample, the first probe of the search for 4 lands on index 3, which holds 4. */
  lemma SampleSearch(s: seq<Int32>)
    requires s == SampleSorted
    ensures Probe(s, 4, 0, |s| - 1) == 3
  {
  }
}
