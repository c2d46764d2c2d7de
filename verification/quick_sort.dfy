/** The in-place partition-exchange sort (quicksort, Lomuto partition scheme). */
module Sorting {
  import opened JavaInt
  import opened Ordering

  /**
   * The proof step behind the two recursive calls: after partitioning
   * (`s1`), sorting the left part (`s2`) and then the right part (`s3`), the
   * whole range is sorted. Each recursive call either sorted its range as a
   * permutation of it, or found it too short and left the array unchanged.
   */
  lemma SortedAfterRecursion(s1: seq<Int32>, s2: seq<Int32>, s3: seq<Int32>, low: int, p: int, high: int)
    requires 0 <= low <= p <= high < |s1| == |s2| == |s3|
    requires forall k :: low <= k < p ==> s1[k] <= s1[p]
    requires forall k :: p < k <= high ==> s1[p] < s1[k]
    requires low < p - 1 ==> Sorted(s2[low..p]) && multiset(s2[low..p]) == multiset(s1[low..p])
    requires p - 1 <= low ==> s2 == s1
    requires SameOutside(s1, s2, low, p - 1)
    requires p + 1 < high ==> Sorted(s3[p + 1..high + 1]) && multiset(s3[p + 1..high + 1]) == multiset(s2[p + 1..high + 1])
    requires high <= p + 1 ==> s3 == s2
    requires SameOutside(s2, s3, p + 1, high)
    ensures Sorted(s3[low..high + 1])
  {
    var pivot := s1[p];
    var left1, left2 := s1[low..p], s2[low..p];
    BoundedRange(s1, low, p, pivot);
    AllAtMostPermutation(left1, left2, pivot);
    assert s3[low..p] == left2;
    var right1, right2, right3 := s1[p + 1..high + 1], s2[p + 1..high + 1], s3[p + 1..high + 1];
    assert right2 == right1;
    ExceedingRange(s1, p + 1, high + 1, pivot);
    AllAbovePermutation(right2, right3, pivot);
    assert s3[low..high + 1] == left2 + [pivot] + right3;
    SortedAroundPivot(left2, pivot, right3);
  }

  /** A range bounded above index by index is bounded above as a slice. */
  lemma BoundedRange(s: seq<Int32>, lo: int, hi: int, bound: Int32)
    requires 0 <= lo <= hi <= |s|
    requires forall k :: lo <= k < hi ==> s[k] <= bound
    ensures AllAtMost(s[lo..hi], bound)
  {
    var r := s[lo..hi];
    forall x | x in r ensures x <= bound {
      var k :| 0 <= k < |r| && r[k] == x;
      assert s[lo + k] == x;
    }
  }

  /** A range bounded below index by index is bounded below as a slice. */
  lemma ExceedingRange(s: seq<Int32>, lo: int, hi: int, bound: Int32)
    requires 0 <= lo <= hi <= |s|
    requires forall k :: lo <= k < hi ==> bound < s[k]
    ensures AllAbove(s[lo..hi], bound)
  {
    var r := s[lo..hi];
    forall x | x in r ensures bound < x {
      var k :| 0 <= k < |r| && r[k] == x;
      assert s[lo + k] == x;
    }
  }

  /** A stateless sorter: its methods work only on the array they are given. */
  class QuickSort {

    /** Java's implicit no-argument constructor; there are no fields to set. */
    constructor () {}

    /** Sorts the whole array into ascending order, in place. */
    method Sort(arr: array<Int32>)
      modifies arr
      ensures Sorted(arr[..])
      ensures multiset(arr[..]) == multiset(old(arr[..]))
      ensures Sorted(old(arr[..])) ==> arr[..] == old(arr[..])
    {
      SortRecursive(arr, 0, arr.Length - 1);
      assert arr[0..arr.Length] == arr[..];
      if Sorted(old(arr[..])) {
        SortedPermutationUnique(arr[..], old(arr[..]));
      }
    }

    /**
     * Sorts the closed range `[low, high]` of `arr` and leaves every other
     * index alone. A range with `low >= high` (empty or a single element) is
     * left exactly as it was.
     */
    method SortRecursive(arr: array<Int32>, low: int, high: int)
      requires low < high ==> 0 <= low && high < arr.Length
      modifies arr
      ensures low >= high ==> arr[..] == old(arr[..])
      ensures low < high ==> Sorted(arr[low..high + 1])
      ensures low < high ==> multiset(arr[low..high + 1]) == multiset(old(arr[low..high + 1]))
      ensures multiset(arr[..]) == multiset(old(arr[..]))
      ensures SameOutside(old(arr[..]), arr[..], low, high)
      decreases high - low
    {
      if low < high {
        ghost var s0 := arr[..];
        var p := Partition(arr, low, high);
        ghost var s1 := arr[..];
        SortRecursive(arr, low, p - 1);
        ghost var s2 := arr[..];
        SortRecursive(arr, p + 1, high);
        ghost var s3 := arr[..];
        SortedAfterRecursion(s1, s2, s3, low, p, high);
        assert SameOutside(s0, s3, low, high);
        MultisetOfRange(s0, s3, low, high);
      }
    }

    /**
     * Lomuto partition of the closed range `[low, high]` around the pivot
     * `arr[high]`: returns the pivot's final index `p`; everything left of it
     * in the range is at most the pivot, everything right of it is greater.
     */
    method Partition(arr: array<Int32>, low: int, high: int) returns (p: int)
      requires 0 <= low <= high < arr.Length
      modifies arr
      ensures low <= p <= high
      ensures arr[p] == old(arr[high])
      ensures forall k :: low <= k < p ==> arr[k] <= arr[p]
      ensures forall k :: p < k <= high ==> arr[p] < arr[k]
      ensures multiset(arr[low..high + 1]) == multiset(old(arr[low..high + 1]))
      ensures multiset(arr[..]) == multiset(old(arr[..]))
      ensures SameOutside(old(arr[..]), arr[..], low, high)
    {
      var pivot := arr[high];
      var i := low - 1;
      for j := low to high
        invariant low - 1 <= i < j
        invariant forall k :: low <= k <= i ==> arr[k] <= pivot
        invariant forall k :: i < k < j ==> pivot < arr[k]
        invariant arr[high] == pivot
        invariant multiset(arr[..]) == multiset(old(arr[..]))
        invariant forall k :: 0 <= k < arr.Length && (k < low || high < k) ==> arr[k] == old(arr[k])
      {
        if arr[j] <= pivot {
          i := i + 1;
          Swap(arr, i, j);
        }
      }
      Swap(arr, i + 1, high);
      p := i + 1;
      MultisetOfRange(old(arr[..]), arr[..], low, high);
    }

    /** Exchanges the elements at indices `i` and `j`. */
    method Swap(arr: array<Int32>, i: int, j: int)
      requires 0 <= i < arr.Length && 0 <= j < arr.Length
      modifies arr
      ensures arr[i] == old(arr[j]) && arr[j] == old(arr[i])
      ensures forall k :: 0 <= k < arr.Length && k != i && k != j ==> arr[k] == old(arr[k])
      ensures multiset(arr[..]) == multiset(old(arr[..]))
    {
      var t := arr[i];
      arr[i] := arr[j];
      arr[j] := t;
    }
  }
}
