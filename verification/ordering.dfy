/** Orderings and bounds on sequences of Java ints, and the facts sorting relies on. */
module Ordering {
  import opened JavaInt

  /** Every pair of positions is in ascending order. */
  ghost predicate Sorted(s: seq<Int32>) {
    forall i, j :: 0 <= i < j < |s| ==> s[i] <= s[j]
  }

  /** Every adjacent pair is in ascending order. */
  ghost predicate AdjacentOrdered(s: seq<Int32>) {
    forall k :: 0 <= k < |s| - 1 ==> s[k] <= s[k + 1]
  }

  /** Every element of `s` is at most `bound`. */
  ghost predicate AllAtMost(s: seq<Int32>, bound: Int32) {
    forall x :: x in s ==> x <= bound
  }

  /** Every element of `s` is strictly greater than `bound`. */
  ghost predicate AllAbove(s: seq<Int32>, bound: Int32) {
    forall x :: x in s ==> bound < x
  }

  /** Ascending order of all pairs is the same as ascending order of adjacent pairs. */
  lemma {:induction false} SortedIffAdjacentOrdered(s: seq<Int32>)
    ensures Sorted(s) <==> AdjacentOrdered(s)
    decreases |s|
  {
    if |s| > 1 && AdjacentOrdered(s) {
      var tail := s[1..];
      assert AdjacentOrdered(tail) by {
        forall k | 0 <= k < |tail| - 1 ensures tail[k] <= tail[k + 1] {
          assert tail[k] == s[k + 1] && tail[k + 1] == s[k + 2];
        }
      }
      SortedIffAdjacentOrdered(tail);
      forall i, j | 0 <= i < j < |s| ensures s[i] <= s[j] {
        assert s[j] == tail[j - 1];
        if i > 0 {
          assert s[i] == tail[i - 1];
        } else {
          assert s[0] <= s[1] && s[1] == tail[0];
        }
      }
    }
  }

  /**
   * The combining step of a partition-exchange sort: a sorted left part whose
   * elements are at most the pivot, the pivot, then a sorted right part whose
   * elements exceed the pivot, form a sorted sequence.
   */
  lemma SortedAroundPivot(left: seq<Int32>, pivot: Int32, right: seq<Int32>)
    requires Sorted(left) && AllAtMost(left, pivot)
    requires Sorted(right) && AllAbove(right, pivot)
    ensures Sorted(left + [pivot] + right)
  {
    var s := left + [pivot] + right;
    var n := |left|;
    forall i, j | 0 <= i < j < |s| ensures s[i] <= s[j] {
      if j < n {
        assert s[i] == left[i] && s[j] == left[j];
      } else if j == n {
        assert s[i] == left[i] && left[i] in left;
      } else if i > n {
        assert s[i] == right[i - n - 1] && s[j] == right[j - n - 1];
      } else {
        assert s[j] == right[j - n - 1] && right[j - n - 1] in right;
        if i < n {
          assert s[i] == left[i] && left[i] in left;
        }
      }
    }
  }

  /**
   * A sorted arrangement of a multiset is unique: two sorted sequences that
   * are permutations of each other are equal. Hence sorting is deterministic
   * in its result, and sorting sorted data changes nothing.
   */
  lemma {:induction false} SortedPermutationUnique(s: seq<Int32>, t: seq<Int32>)
    requires Sorted(s) && Sorted(t)
    requires multiset(s) == multiset(t)
    ensures s == t
    decreases |s|
  {
    assert |s| == |multiset(s)| == |multiset(t)| == |t|;
    if s != [] {
      HeadsAgree(s, t);
      DropHead(s);
      DropHead(t);
      SortedPermutationUnique(s[1..], t[1..]);
      assert s == [s[0]] + s[1..];
      assert t == [t[0]] + t[1..];
    }
  }

  /** Two non-empty sorted permutations of each other start with the same (least) element. */
  lemma HeadsAgree(s: seq<Int32>, t: seq<Int32>)
    requires Sorted(s) && Sorted(t) && s != []
    requires multiset(s) == multiset(t)
    ensures t != [] && s[0] == t[0]
  {
    assert |s| == |multiset(s)| == |multiset(t)| == |t|;
    assert s[0] in multiset(t) && t[0] in multiset(s);
    HeadIsLeast(t, s[0]);
    HeadIsLeast(s, t[0]);
  }

  /** Removing the first element keeps a sequence sorted and removes one copy from its multiset. */
  lemma DropHead(s: seq<Int32>)
    requires s != []
    ensures Sorted(s) ==> Sorted(s[1..])
    ensures multiset(s[1..]) == multiset(s) - multiset{s[0]}
  {
    assert s == [s[0]] + s[1..];
  }

  /** The first element of a sorted sequence is at most each of its elements. */
  lemma HeadIsLeast(s: seq<Int32>, x: Int32)
    requires Sorted(s) && x in s
    ensures s[0] <= x
  {
    var i :| 0 <= i < |s| && s[i] == x;
  }

  /** `s` and `t` have the same length and agree at every index outside the closed range `[lo, hi]`. */
  ghost predicate SameOutside(s: seq<Int32>, t: seq<Int32>, lo: int, hi: int) {
    |s| == |t| && forall k :: 0 <= k < |s| && (k < lo || hi < k) ==> s[k] == t[k]
  }

  /**
   * When two sequences hold the same multiset and agree outside `[lo, hi]`,
   * the slices `[lo, hi]` hold the same multiset too.
   */
  lemma MultisetOfRange(s: seq<Int32>, t: seq<Int32>, lo: int, hi: int)
    requires 0 <= lo <= hi + 1 <= |s|
    requires multiset(s) == multiset(t) && SameOutside(s, t, lo, hi)
    ensures multiset(s[lo..hi + 1]) == multiset(t[lo..hi + 1])
  {
    assert s[..lo] == t[..lo];
    assert s[hi + 1..] == t[hi + 1..];
    MultisetOfSlice(s, lo, hi + 1);
    MultisetOfSlice(t, lo, hi + 1);
  }

  /** The multiset of a slice is what remains of the whole once the parts before and after it are taken away. */
  lemma MultisetOfSlice(s: seq<Int32>, lo: int, hi: int)
    requires 0 <= lo <= hi <= |s|
    ensures multiset(s[lo..hi]) == multiset(s) - multiset(s[..lo]) - multiset(s[hi..])
  {
    assert s == s[..lo] + s[lo..hi] + s[hi..];
  }

  /** A permutation keeps an upper bound. */
  lemma AllAtMostPermutation(s: seq<Int32>, t: seq<Int32>, bound: Int32)
    requires multiset(s) == multiset(t) && AllAtMost(s, bound)
    ensures AllAtMost(t, bound)
  {
    forall x | x in t ensures x <= bound {
      assert x in multiset(t) && x in multiset(s);
      assert x in s;
    }
  }

  /** A permutation keeps a strict lower bound. */
  lemma AllAbovePermutation(s: seq<Int32>, t: seq<Int32>, bound: Int32)
    requires multiset(s) == multiset(t) && AllAbove(s, bound)
    ensures AllAbove(t, bound)
  {
    forall x | x in t ensures bound < x {
      assert x in multiset(t) && x in multiset(s);
      assert x in s;
    }
  }
}
