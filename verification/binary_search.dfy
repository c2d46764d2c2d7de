/** Closed-interval binary search over an array assumed sorted ascending. */
module Searching {
  import opened JavaInt
  import opened Ordering

  /** The result a search returns when it finds no element equal to the key. */
  const NotFound: int := -1

  /**
   * The search, one probe at a time, over the closed range `[low, high]` of
   * `s`: each probe looks at the midpoint `(low + high) / 2` (the index the
   * 32-bit computation `Mid` is proved to yield), and the answer is a probed
   * index holding `key`, or `NotFound` once the range is empty. The answer is
   * always either `NotFound` or an index of the range that holds `key`,
   * whether or not `s` is sorted.
   */
  function Probe(s: seq<Int32>, key: Int32, low: int, high: int): (r: int)
    requires 0 <= low && high < |s|
    ensures r == NotFound || (low <= r <= high && s[r] == key)
    decreases high - low
  {
    if low > high then NotFound
    else
      var mid := (low + high) / 2;
      if s[mid] == key then mid
      else if s[mid] < key then Probe(s, key, mid + 1, high)
      else Probe(s, key, low, mid - 1)
  }

  /**
   * On sorted input, a key that occurs at some index `k` of `[low, high]` is
   * found: each probe discards only a half in which `k` cannot lie.
   */
  lemma {:induction false} ProbeFindsPresentKey(s: seq<Int32>, key: Int32, low: int, high: int, k: int)
    requires 0 <= low && high < |s|
    requires Sorted(s)
    requires low <= k <= high && s[k] == key
    ensures Probe(s, key, low, high) != NotFound
    decreases high - low
  {
    var mid := (low + high) / 2;
    if s[mid] < key {
      OccursAfter(s, mid, k);
      ProbeFindsPresentKey(s, key, mid + 1, high, k);
    } else if key < s[mid] {
      OccursAfter(s, k, mid);
      ProbeFindsPresentKey(s, key, low, mid - 1, k);
    }
  }

  /** In a sorted sequence, a strictly smaller element lies strictly further left. */
  lemma OccursAfter(s: seq<Int32>, i: int, j: int)
    requires Sorted(s) && 0 <= i < |s| && 0 <= j < |s| && s[i] < s[j]
    ensures i < j
  {
  }

  /**
   * Searching the whole of a sorted sequence reports `NotFound` exactly when
   * the key does not occur; on any sequence a reported index holds the key.
   */
  lemma SearchCorrect(s: seq<Int32>, key: Int32)
    ensures Probe(s, key, 0, |s| - 1) != NotFound ==> key in s
    ensures Sorted(s) && key in s ==> Probe(s, key, 0, |s| - 1) != NotFound
  {
    var r := Probe(s, key, 0, |s| - 1);
    if r != NotFound {
      assert s[r] == key;
    }
    if Sorted(s) && key in s {
      var k :| 0 <= k < |s| && s[k] == key;
      ProbeFindsPresentKey(s, key, 0, |s| - 1, k);
    }
  }

  /** A stateless searcher: it only reads the array it is given. */
  class BinarySearch {

    /** Java's implicit no-argument constructor; there are no fields to set. */
    constructor () {}

    /**
     * Returns an index of `arr` holding `key`, or `NotFound`. On sorted input
     * the key is found exactly when it occurs; the array is never written.
     */
    method Search(arr: array<Int32>, key: Int32) returns (r: int)
      requires arr.Length <= MaxArrayLength
      ensures r == Probe(arr[..], key, 0, arr.Length - 1)
      ensures r == NotFound || (0 <= r < arr.Length && arr[r] == key)
      ensures Sorted(arr[..]) ==> (r != NotFound <==> key in arr[..])
    {
      ghost var s := arr[..];
      SearchCorrect(s, key);
      var low, high := 0, arr.Length - 1;
      while low <= high
        invariant 0 <= low && high < arr.Length
        invariant Probe(s, key, low, high) == Probe(s, key, 0, arr.Length - 1)
      {
        var mid := Mid(low, high);
        if arr[mid] == key {
          return mid;
        } else if arr[mid] < key {
          low := mid + 1;
        } else {
          high := mid - 1;
        }
      }
      return NotFound;
    }
  }
}
